/** What the reply to a request means for it and for later ones: how it completes, and how the rate limit
    headers hold back the requests on its route. */
module Throttling {
  import opened Bytes
  import opened RateLimitHeaders
  import opened RateLimiter

  // ---------------------------------------------------------------------------------------
  // What `start_next` brings about
  // ---------------------------------------------------------------------------------------

  /** From `s` to `t` nothing was sent, or one request whose route was free; nothing completed except, where
      sending is disabled, for that reason. */
  predicate GoesOn(s: State, t: State, now: int) {
    && t.limits == s.limits && t.stopping == s.stopping && t.sendEnabled == s.sendEnabled
    && (NothingSent(s, t) || (|t.inFlight| > 0 && OneSent(s, t, t.inFlight[|t.inFlight| - 1], now)))
    && s.completed <= t.completed
    && forall k :: |s.completed| <= k < |t.completed| ==>
         t.completed[k].outcome == RateLimiterSendDisabled && !s.sendEnabled && !s.stopping
  }

  predicate NothingSent(s: State, t: State) {
    t.sends == s.sends && t.inFlight == s.inFlight
  }

  predicate OneSent(s: State, t: State, p: Request, now: int) {
    && t.sends == s.sends + [Send(p.id, p.route, false)] && t.inFlight == s.inFlight + [p]
    && !Blocked(s.limits, p.route, now) && s.sendEnabled
  }

  lemma {:induction false} StartNextGoesOn(s: State, now: int)
    ensures GoesOn(s, StartNext(s, now), now)
    decreases |s.queue|, 0
  {
    hide GoesOn, FinishOne, DoSend, MaybeWaitThenSend;
    if s.stopping || s.busy || s.queue == [] {
      GoesNowhere(s, StartNext(s, now), now);
    } else {
      var p, s' := s.queue[0], s.(busy := true, queue := s.queue[1..]);
      MaybeWaitGoesOn(s', p, now);
      SameStart(s, s', StartNext(s, now), now);
    }
  }

  lemma GoesNowhere(s: State, t: State, now: int)
    requires t.limits == s.limits && t.stopping == s.stopping && t.sendEnabled == s.sendEnabled
    requires NothingSent(s, t) && t.completed == s.completed
    ensures GoesOn(s, t, now)
  {
  }

  lemma SameStart(s: State, s': State, t: State, now: int)
    requires GoesOn(s', t, now)
    requires s'.limits == s.limits && s'.stopping == s.stopping && s'.sendEnabled == s.sendEnabled
    requires s'.sends == s.sends && s'.inFlight == s.inFlight && s'.completed == s.completed
    ensures GoesOn(s, t, now)
  {
  }

  lemma {:induction false} MaybeWaitGoesOn(s: State, p: Request, now: int)
    requires !s.stopping
    ensures GoesOn(s, MaybeWaitThenSend(s, p, now), now)
    decreases |s.queue|, 3
  {
    hide GoesOn, FinishOne, DoSend;
    if Blocked(s.limits, p.route, now) {
      GoesNowhere(s, MaybeWaitThenSend(s, p, now), now);
    } else {
      DoSendGoesOn(s, p, now);
    }
  }

  lemma {:induction false} DoSendGoesOn(s: State, p: Request, now: int)
    requires !s.stopping && !Blocked(s.limits, p.route, now)
    ensures GoesOn(s, DoSend(s, p, now), now)
    decreases |s.queue|, 2
  {
    hide FinishOne;
    if s.sendEnabled {
      assert OneSent(s, DoSend(s, p, now), p, now);
    } else {
      FinishOneGoesOn(s, p, RateLimiterSendDisabled, now);
    }
  }

  lemma {:induction false} FinishOneGoesOn(s: State, p: Request, outcome: Outcome, now: int)
    ensures GoesOn(s.(completed := s.completed + [Completion(p.id, outcome)]), FinishOne(s, p, outcome, now), now)
    decreases |s.queue|, 1
  {
    hide GoesOn, StartNext;
    var s' := s.(completed := s.completed + [Completion(p.id, outcome)], busy := false);
    StartNextGoesOn(s', now);
    SameStart(s.(completed := s'.completed), s', FinishOne(s, p, outcome, now), now);
  }

  /** Where sending is disabled, and so after shutdown, nothing is sent in any run. */
  lemma {:induction false} DisabledSendsNothing(s: State, steps: seq<Step>)
    requires Inv(s) && CanRun(s, steps) && !s.sendEnabled
    ensures After(s, steps).sends == s.sends && !After(s, steps).sendEnabled
    decreases |steps|
  {
    if steps != [] {
      hide Inv, Apply, Enabled;
      StepKeepsInv(s, steps[0]);
      DisabledStep(s, steps[0]);
      DisabledSendsNothing(Apply(s, steps[0]), steps[1..]);
    }
  }

  lemma DisabledStep(s: State, step: Step)
    requires Enabled(s, step) && !s.sendEnabled
    ensures Apply(s, step).sends == s.sends && !Apply(s, step).sendEnabled
  {
    hide StartNext, FinishOne, Breaks, Updated, StopAll, Blocked;
    match step
    case DoSubmit(route, now) =>
      StartNextGoesOn(s.(submitted := s.submitted + 1, queue := s.queue + [Request(s.submitted, route)]), now);
    case DoTimer(error, now) =>
      var s' := s.(timer := None, waiting := None);
      StartNextGoesOn(s.(timer := None, busy := false), now);
      if s.waiting.Some? {
        FinishOneGoesOn(s', s.waiting.value, RateLimiterStopped, now);
        FinishOneGoesOn(s', s.waiting.value, Timer, now);
        FinishOneGoesOn(s', s.waiting.value, RateLimiterSendDisabled, now);
      }
    case DoReply(i, reply, now) =>
      var p := s.inFlight[i];
      FinishOneGoesOn(s.(inFlight := s.inFlight[..i] + s.inFlight[i + 1..],
                         limits := Updated(s.limits, p.route, reply)), p, OutcomeOf(reply), now);
    case DoShutdown =>
  }

  // ---------------------------------------------------------------------------------------
  // How a request completes
  // ---------------------------------------------------------------------------------------

  /** What each status means: 200 to 299 is the response, 429 the rate limit, and so on by hundreds. */
  predicate Means(reply: Reply, outcome: Outcome) {
    match outcome
    case Delivered => reply.Response? && 200 <= reply.status <= 299
    case Transport => reply.TransportError?
    case Status(HttpRateLimited) => reply.Response? && reply.status == 429
    case Status(HttpRedirection) => reply.Response? && 300 <= reply.status <= 399
    case Status(HttpClientError) => reply.Response? && 400 <= reply.status <= 499 && reply.status != 429
    case Status(HttpServerError) => reply.Response? && 500 <= reply.status <= 599
    case Status(HttpError) => reply.Response? && (reply.status <= 199 || reply.status >= 600)
    case _ => false
  }

  /** A reply whose headers can be read completes its request, with the one outcome that it means; what
      completes behind it does so because sending is disabled. */
  lemma ReplyCompletes(s: State, i: nat, reply: Reply, outcome: Outcome, now: int)
    requires i < |s.inFlight| && !Breaks(reply)
    ensures var t := Replied(s, i, reply, now);
            && s.completed < t.completed
            && (t.completed[|s.completed|] == Completion(s.inFlight[i].id, outcome) <==> Means(reply, outcome))
            && forall k :: |s.completed| < k < |t.completed| ==> t.completed[k].outcome == RateLimiterSendDisabled
  {
    hide FinishOne, Breaks, Updated;
    var p := s.inFlight[i];
    var s' := s.(inFlight := s.inFlight[..i] + s.inFlight[i + 1..], limits := Updated(s.limits, p.route, reply));
    FinishOneGoesOn(s', p, OutcomeOf(reply), now);
    assert s'.completed + [Completion(p.id, OutcomeOf(reply))] <= Replied(s, i, reply, now).completed;
  }

  /** A wait that fails completes the request that waited, before its time. */
  lemma TimerCompletes(s: State, now: int)
    requires Inv(s) && s.waiting.Some?
    ensures var t := TimerFires(s, true, now);
            && s.completed < t.completed && t.completed[|s.completed|] == Completion(s.waiting.value.id, Timer)
            && forall k :: |s.completed| < k < |t.completed| ==> t.completed[k].outcome == RateLimiterSendDisabled
  {
    hide FinishOne, Conserved, InOrder;
    var s', p := s.(timer := None, waiting := None), s.waiting.value;
    FinishOneGoesOn(s', p, Timer, now);
    assert s'.completed + [Completion(p.id, Timer)] <= TimerFires(s, true, now).completed;
  }

  // ---------------------------------------------------------------------------------------
  // What is kept of the headers
  // ---------------------------------------------------------------------------------------

  /** The reply names these three numbers, which its reader can hold. */
  predicate Names(reply: Reply, limit: nat, remaining: nat, reset: nat) {
    && reply.Response?
    && reply.headers == Headers(Some(Decimal(limit)), Some(Decimal(remaining)), Some(Decimal(reset)))
    && limit < 0x1_0000_0000_0000_0000 && remaining < 0x1_0000_0000_0000_0000 && reset < 0x8000_0000_0000_0000
  }

  /** Each number is stored as what its header says, for the route of the request. */
  lemma NamedIsStored(s: State, i: nat, reply: Reply, limit: nat, remaining: nat, reset: nat, now: int)
    requires i < |s.inFlight| && Names(reply, limit, remaining, reset)
    ensures Replied(s, i, reply, now).limits ==
            s.limits[s.inFlight[i].route := Limit(limit % 0x1_0000, remaining % 0x1_0000, reset * 1_000_000_000)]
  {
    hide Read, Decimal;
    ReadDecimals(limit, remaining, reset);
    assert !Breaks(reply);
    ReplyUpdates(s, i, reply, now);
  }

  lemma ReplyUpdates(s: State, i: nat, reply: Reply, now: int)
    requires i < |s.inFlight| && !Breaks(reply)
    ensures Replied(s, i, reply, now).limits == Updated(s.limits, s.inFlight[i].route, reply)
  {
    hide FinishOne, Breaks, Updated;
    var p := s.inFlight[i];
    FinishOneGoesOn(s.(inFlight := s.inFlight[..i] + s.inFlight[i + 1..], limits := Updated(s.limits, p.route, reply)),
                    p, OutcomeOf(reply), now);
  }

  /** Without one of the headers, or without a response, nothing is stored. */
  lemma UnnamedIsIgnored(s: State, i: nat, reply: Reply, now: int)
    requires i < |s.inFlight|
    requires reply.Response? ==>
               reply.headers.limit.None? || reply.headers.remaining.None? || reply.headers.reset.None?
    ensures Replied(s, i, reply, now).limits == s.limits
  {
    ReplyUpdates(s, i, reply, now);
  }

  // ---------------------------------------------------------------------------------------
  // An exhausted route
  // ---------------------------------------------------------------------------------------

  /** A reply that names a limit, no remaining requests and a reset. */
  function Exhausting(status: nat, limit: nat, reset: nat): Reply {
    Response(status, Headers(Some(Decimal(limit)), Some("0"), Some(Decimal(reset))))
  }

  lemma ReadExhausting(status: nat, limit: nat, reset: nat)
    requires limit < 0x1_0000_0000_0000_0000 && reset < 0x8000_0000_0000_0000
    ensures Read(Exhausting(status, limit, reset).headers) == Found(Limit(limit % 0x1_0000, 0, reset * 1_000_000_000))
    ensures !Breaks(Exhausting(status, limit, reset))
  {
    ReadDecimals(limit, 0, reset);
    assert Decimal(0) == "0";
  }

  /** What the limiter knows of the route after such a reply, while none of its requests is in flight. */
  predicate Exhausted(s: State, route: Route, reset: int) {
    && route in s.limits && s.limits[route].remaining == 0 && s.limits[route].reset == reset
    && forall p :: p in s.inFlight ==> p.route != route
  }

  /** The sends that `t` has and `s` has not are on other routes. */
  predicate SendsElsewhere(s: State, t: State, route: Route) {
    s.sends <= t.sends && forall k :: |s.sends| <= k < |t.sends| ==> t.sends[k].route != route
  }

  lemma GoesOnElsewhere(s: State, t: State, route: Route, reset: int, now: int)
    requires Exhausted(s, route, reset) && GoesOn(s, t, now) && now < reset
    ensures Exhausted(t, route, reset) && SendsElsewhere(s, t, route)
  {
  }

  predicate Before(step: Step, time: int) {
    step.DoShutdown? || step.now < time
  }

  lemma StepElsewhere(s: State, step: Step, route: Route, reset: int)
    requires Inv(s) && Enabled(s, step) && Exhausted(s, route, reset) && Before(step, reset)
    ensures Exhausted(Apply(s, step), route, reset) && SendsElsewhere(s, Apply(s, step), route)
  {
    hide Inv, StartNext, FinishOne, DoSend, GoesOn, Updated, StopAll, Breaks;
    match step
    case DoSubmit(_, now) => SubmitElsewhere(s, step.route, route, reset, now);
    case DoTimer(error, now) => TimerElsewhere(s, error, route, reset, now);
    case DoReply(i, reply, now) => ReplyElsewhere(s, i, reply, route, reset, now);
    case DoShutdown =>
  }

  lemma SubmitElsewhere(s: State, submitted: Route, route: Route, reset: int, now: int)
    requires Exhausted(s, route, reset) && now < reset
    ensures var t := Submit(s, submitted, now); Exhausted(t, route, reset) && SendsElsewhere(s, t, route)
  {
    hide StartNext, GoesOn;
    var s' := s.(submitted := s.submitted + 1, queue := s.queue + [Request(s.submitted, submitted)]);
    StartNextGoesOn(s', now);
    if !s.stopping { GoesOnElsewhere(s', StartNext(s', now), route, reset, now); }
  }

  lemma TimerElsewhere(s: State, error: bool, route: Route, reset: int, now: int)
    requires Inv(s) && s.timer.Some? && (error || s.timer.value <= now) && Exhausted(s, route, reset) && now < reset
    ensures var t := TimerFires(s, error, now); Exhausted(t, route, reset) && SendsElsewhere(s, t, route)
  {
    hide StartNext, FinishOne, DoSend, GoesOn, Conserved, InOrder;
    var t := TimerFires(s, error, now);
    if s.waiting.None? {
      StartNextGoesOn(s.(timer := None, busy := false), now);
      GoesOnElsewhere(s.(timer := None, busy := false), t, route, reset, now);
    } else {
      var p, s' := s.waiting.value, s.(timer := None, waiting := None);
      if error {
        FinishOneGoesOn(s', p, Timer, now);
        GoesOnElsewhere(s'.(completed := s'.completed + [Completion(p.id, Timer)]), t, route, reset, now);
      } else {
        TimerMeansWaiting(s);
        DoSendGoesOn(s', p, now);
        GoesOnElsewhere(s', t, route, reset, now);
      }
    }
  }

  lemma ReplyElsewhere(s: State, i: nat, reply: Reply, route: Route, reset: int, now: int)
    requires i < |s.inFlight| && Exhausted(s, route, reset) && now < reset
    ensures var t := Replied(s, i, reply, now); Exhausted(t, route, reset) && SendsElsewhere(s, t, route)
  {
    hide FinishOne, GoesOn, Breaks;
    var p := s.inFlight[i];
    var s' := s.(inFlight := s.inFlight[..i] + s.inFlight[i + 1..], limits := Updated(s.limits, p.route, reply));
    assert p.route != route && forall q :: q in s'.inFlight ==> q in s.inFlight;
    if !Breaks(reply) {
      FinishOneGoesOn(s', p, OutcomeOf(reply), now);
      GoesOnElsewhere(s'.(completed := s'.completed + [Completion(p.id, OutcomeOf(reply))]),
                      Replied(s, i, reply, now), route, reset, now);
    }
  }

  lemma SendsStayElsewhere(s: State, t: State, u: State, route: Route)
    requires SendsElsewhere(s, t, route) && SendsElsewhere(t, u, route)
    ensures SendsElsewhere(s, u, route)
  {
  }

  lemma {:induction false} RunElsewhere(s: State, steps: seq<Step>, route: Route, reset: int)
    requires Inv(s) && CanRun(s, steps) && Exhausted(s, route, reset)
    requires forall step :: step in steps ==> Before(step, reset)
    ensures Exhausted(After(s, steps), route, reset) && SendsElsewhere(s, After(s, steps), route)
    decreases |steps|
  {
    if steps != [] {
      hide Inv, Apply, Enabled, Exhausted, Before, SendsElsewhere;
      var s' := Apply(s, steps[0]);
      StepKeepsInv(s, steps[0]);
      StepElsewhere(s, steps[0], route, reset);
      RunElsewhere(s', steps[1..], route, reset);
      SendsStayElsewhere(s, s', After(s', steps[1..]), route);
    }
  }

  lemma ReplyExhausts(s: State, i: nat, status: nat, limit: nat, reset: nat, now: int)
    requires Inv(s) && i < |s.inFlight| && limit < 0x1_0000_0000_0000_0000 && reset < 0x8000_0000_0000_0000
    requires now < reset * 1_000_000_000
    ensures var (t, route) := (Replied(s, i, Exhausting(status, limit, reset), now), s.inFlight[i].route);
            && Exhausted(t, route, reset * 1_000_000_000) && SendsElsewhere(s, t, route)
            && t.limits == s.limits[route := Limit(limit % 0x1_0000, 0, reset * 1_000_000_000)]
  {
    hide FinishOne, GoesOn, Read, Breaks, Conserved, InOrder;
    var reply, p := Exhausting(status, limit, reset), s.inFlight[i];
    ReadExhausting(status, limit, reset);
    var s' := s.(inFlight := s.inFlight[..i] + s.inFlight[i + 1..], limits := Updated(s.limits, p.route, reply),
                 completed := s.completed + [Completion(p.id, OutcomeOf(reply))]);
    assert |s.inFlight| == 1 && s'.inFlight == [];
    hide Inv, OutcomeOf;
    FinishOneGoesOn(s'.(completed := s.completed), p, OutcomeOf(reply), now);
    GoesOnElsewhere(s', Replied(s, i, reply, now), p.route, reset * 1_000_000_000, now);
    LimitsStay(s', Replied(s, i, reply, now), now);
  }

  lemma LimitsStay(s: State, t: State, now: int)
    requires GoesOn(s, t, now)
    ensures t.limits == s.limits
  {
  }

  /** After a reply with no remaining requests, no request is sent on its route until the reset that the
      reply names, whatever else happens: neither at once nor in any later run up to then. */
  lemma ExhaustedRouteIsSilent(s: State, i: nat, status: nat, limit: nat, reset: nat, now: int, steps: seq<Step>)
    requires Inv(s) && i < |s.inFlight| && limit < 0x1_0000_0000_0000_0000 && reset < 0x8000_0000_0000_0000
    requires now < reset * 1_000_000_000
    requires CanRun(Replied(s, i, Exhausting(status, limit, reset), now), steps)
    requires forall step :: step in steps ==> Before(step, reset * 1_000_000_000)
    ensures var t := Replied(s, i, Exhausting(status, limit, reset), now);
            SendsElsewhere(s, After(t, steps), s.inFlight[i].route)
  {
    hide Replied, Exhausting, Exhausted, SendsElsewhere, Before, Inv, CanRun, After;
    var (t, route) := (Replied(s, i, Exhausting(status, limit, reset), now), s.inFlight[i].route);
    ReplyKeeps(s, i, Exhausting(status, limit, reset), now);
    ReplyExhausts(s, i, status, limit, reset, now);
    RunElsewhere(t, steps, route, reset * 1_000_000_000);
    SendsStayElsewhere(s, t, After(t, steps), route);
  }

  /** The next request, when it is on that route: queued already, it is taken up and waits at once; submitted
      later, but before the reset, it waits from then on.  The timer is set to the reset. */
  lemma NextOnRouteWaits(s: State, i: nat, status: nat, limit: nat, reset: nat, now: int, later: int)
    requires Inv(s) && !s.stopping && i < |s.inFlight|
    requires limit < 0x1_0000_0000_0000_0000 && reset < 0x8000_0000_0000_0000 && now < reset * 1_000_000_000
    ensures var (t, route) := (Replied(s, i, Exhausting(status, limit, reset), now), s.inFlight[i].route);
            && (s.queue != [] && s.queue[0].route == route ==>
                  t.waiting == Some(s.queue[0]) && t.timer == Some(reset * 1_000_000_000) && t.queue == s.queue[1..])
            && (s.queue == [] && later < reset * 1_000_000_000 ==>
                  var u := Submit(t, route, later);
                  && u.waiting == Some(Request(s.submitted, route)) && u.timer == Some(reset * 1_000_000_000)
                  && u.queue == [] && u.sends == s.sends)
  {
    hide StartNext, Read, Breaks, Inv, Exhausting;
    var reply, p := Exhausting(status, limit, reset), s.inFlight[i];
    ReadsAsExhausting(status, limit, reset);
    var limits := s.limits[p.route := Limit(limit % 0x1_0000, 0, reset * 1_000_000_000)];
    assert Updated(s.limits, p.route, reply) == limits;
    var s' := s.(inFlight := s.inFlight[..i] + s.inFlight[i + 1..], limits := limits, busy := false,
                 completed := s.completed + [Completion(p.id, OutcomeOf(reply))]);
    hide OutcomeOf, Updated;
    assert Replied(s, i, reply, now) == StartNext(s', now);
    if s.queue == [] {
      StartsNothing(s', now);
      var next := Request(s.submitted, p.route);
      var u := s'.(submitted := s.submitted + 1, queue := [next]);
      assert [] + [next] == [next] && Submit(s', p.route, later) == StartNext(u, later);
      if later < reset * 1_000_000_000 { FrontWaits(u, later); }
    } else if s.queue[0].route == p.route {
      FrontWaits(s', now);
    }
  }

  lemma StartsNothing(s: State, now: int)
    requires s.queue == [] && !s.stopping
    ensures StartNext(s, now) == s
  {
  }

  lemma FrontWaits(s: State, now: int)
    requires !s.stopping && !s.busy && s.queue != [] && Blocked(s.limits, s.queue[0].route, now)
    ensures StartNext(s, now) == s.(busy := true, queue := s.queue[1..], waiting := Some(s.queue[0]),
                                    timer := Some(s.limits[s.queue[0].route].reset))
  {
    hide DoSend, FinishOne;
  }

  lemma ReadsAsExhausting(status: nat, limit: nat, reset: nat)
    requires limit < 0x1_0000_0000_0000_0000 && reset < 0x8000_0000_0000_0000
    ensures var reply := Exhausting(status, limit, reset);
            && reply.Response? && !Breaks(reply)
            && Read(reply.headers) == Found(Limit(limit % 0x1_0000, 0, reset * 1_000_000_000))
  {
    ReadExhausting(status, limit, reset);
  }

  lemma FrontIsSent(s: State, now: int)
    requires !s.stopping && !s.busy && s.sendEnabled && s.queue != []
    requires var route := s.queue[0].route;
             route !in s.limits || s.limits[route].remaining > 0 || s.limits[route].reset <= now
    ensures var p := s.queue[0];
            StartNext(s, now) == s.(busy := true, queue := s.queue[1..], inFlight := s.inFlight + [p],
                                    sends := s.sends + [Send(p.id, p.route, false)])
  {
    hide FinishOne;
    var s' := s.(busy := true, queue := s.queue[1..]);
    assert StartNext(s, now) == MaybeWaitThenSend(s', s.queue[0], now);
    assert MaybeWaitThenSend(s', s.queue[0], now) == DoSend(s', s.queue[0], now);
  }

  /** While a route has requests remaining, or its reset has passed, nothing is held back: the next request on
      it is sent at once, be it queued already or submitted later. */
  lemma NextOnRouteIsSent(s: State, i: nat, reply: Reply, limit: nat, remaining: nat, reset: nat, now: int, later: int)
    requires Inv(s) && !s.stopping && s.sendEnabled && i < |s.inFlight| && Names(reply, limit, remaining, reset)
    requires now <= later && (remaining % 0x1_0000 > 0 || reset * 1_000_000_000 <= now)
    ensures var (t, p) := (Replied(s, i, reply, now), s.inFlight[i]);
            && (s.queue != [] && s.queue[0].route == p.route ==>
                  t.sends == s.sends + [Send(s.queue[0].id, p.route, false)] && t.inFlight == [s.queue[0]])
            && (s.queue == [] ==>
                  var u := Submit(t, p.route, later);
                  && u.sends == s.sends + [Send(s.submitted, p.route, false)]
                  && u.inFlight == [Request(s.submitted, p.route)])
  {
    hide StartNext, Read, Decimal, Conserved, InOrder;
    var p := s.inFlight[i];
    ReadDecimals(limit, remaining, reset);
    assert !Breaks(reply);
    var limits := s.limits[p.route := Limit(limit % 0x1_0000, remaining % 0x1_0000, reset * 1_000_000_000)];
    assert Updated(s.limits, p.route, reply) == limits;
    assert s.inFlight == [p] && s.inFlight[..i] + s.inFlight[i + 1..] == [];
    var s' := s.(inFlight := [], limits := limits, busy := false,
                 completed := s.completed + [Completion(p.id, OutcomeOf(reply))]);
    hide OutcomeOf, Updated, Inv, Breaks;
    assert Replied(s, i, reply, now) == StartNext(s', now);
    if s.queue == [] {
      StartsNothing(s', now);
      var next := Request(s.submitted, p.route);
      var u := s'.(submitted := s.submitted + 1, queue := [next]);
      assert [] + [next] == [next] && Submit(s', p.route, later) == StartNext(u, later);
      FrontIsSent(u, later);
    } else if s.queue[0].route == p.route {
      assert [] + [s.queue[0]] == [s.queue[0]];
      FrontIsSent(s', now);
    }
  }

  /** At the reset the waiting request is sent. */
  lemma SentAtReset(s: State, now: int)
    requires Inv(s) && !s.stopping && s.waiting.Some? && s.sendEnabled
    ensures s.timer.Some? && (s.timer.value <= now ==>
              var (t, p) := (TimerFires(s, false, now), s.waiting.value);
              && t.sends == s.sends + [Send(p.id, p.route, false)] && t.inFlight == [p]
              && t.waiting.None? && t.timer.None?)
  {
    hide Conserved, InOrder;
    var p := s.waiting.value;
    assert s.inFlight == [] && s.inFlight + [p] == [p];
    TimerMeansWaiting(s);
  }
}
