/** `RateLimiter` (`src/rate_limiter.cpp`).  Everything runs on one strand, so each handler is one
    step; a `dispatch` from inside the strand runs at once.  Requests are numbered in the order in
    which they are submitted. */
module RateLimiter {
  import opened Bytes
  import opened Sequences
  import opened RateLimitHeaders

  datatype Route = Route(verb: string, target: string)

  datatype Request = Request(id: nat, route: Route)

  /** What `send_fn` reports: a transport error, or a response with its status and its rate limit
      headers. */
  datatype Reply = TransportError | Response(status: nat, headers: Headers)

  /** Reading the rate limit headers of the reply ends in an exception. */
  predicate Breaks(reply: Reply) {
    reply.Response? && Read(reply.headers).Throws?
  }

  datatype Errc = HttpRateLimited | HttpRedirection | HttpClientError | HttpServerError | HttpError

  datatype Outcome =
    | Delivered
    | Status(errc: Errc)
    | Transport
    | Timer
    | RateLimiterStopped
    | RateLimiterSendDisabled

  /** `map_http_status_to_errc` */
  function MapHttpStatus(status: nat): Errc {
    if status == 429 then HttpRateLimited
    else if 300 <= status < 400 then HttpRedirection
    else if 400 <= status < 500 then HttpClientError
    else if 500 <= status < 600 then HttpServerError
    else HttpError
  }

  function OutcomeOf(reply: Reply): Outcome {
    match reply
    case TransportError => Transport
    case Response(status, _) => if 200 <= status < 300 then Delivered else Status(MapHttpStatus(status))
  }

  datatype Completion = Completion(id: nat, outcome: Outcome)

  /** A call of `send_fn`, and whether the route's limit forbade it at that moment. */
  datatype Send = Send(id: nat, route: Route, blocked: bool)

  datatype State = State(
    queue: seq<Request>,
    busy: bool,
    waiting: Option<Request>,
    timer: Option<int>,
    stopping: bool,
    sendEnabled: bool,
    limits: map<Route, Limit>,
    // requests handed to `send_fn` whose reply is outstanding
    inFlight: seq<Request>,
    // what has happened so far
    submitted: nat,
    sends: seq<Send>,
    completed: seq<Completion>,
    // requests whose reply handler ended in an exception, before it finished them
    lost: seq<Request>)

  function Initial(sendEnabled: bool): State {
    State([], false, None, None, false, sendEnabled, map[], [], 0, [], [], [])
  }

  /** No remaining requests, and the reset still ahead. */
  predicate Blocked(limits: map<Route, Limit>, route: Route, now: int) {
    route in limits && limits[route].remaining == 0 && now < limits[route].reset
  }

  // ---------------------------------------------------------------------------------------
  // The handlers as functions
  // ---------------------------------------------------------------------------------------

  /** `start_next` */
  function StartNext(s: State, now: int): State
    decreases |s.queue|, 0
  {
    if s.stopping then s.(busy := false)
    else if s.busy || s.queue == [] then s
    else MaybeWaitThenSend(s.(busy := true, queue := s.queue[1..]), s.queue[0], now)
  }

  /** `maybe_wait_then_send` */
  function MaybeWaitThenSend(s: State, p: Request, now: int): State
    decreases |s.queue|, 3
  {
    if s.stopping then FinishOne(s, p, RateLimiterStopped, now)
    else if Blocked(s.limits, p.route, now) then s.(waiting := Some(p), timer := Some(s.limits[p.route].reset))
    else DoSend(s, p, now)
  }

  /** `do_send` */
  function DoSend(s: State, p: Request, now: int): State
    decreases |s.queue|, 2
  {
    if s.stopping then FinishOne(s, p, RateLimiterStopped, now)
    else if !s.sendEnabled then FinishOne(s, p, RateLimiterSendDisabled, now)
    else s.(inFlight := s.inFlight + [p], sends := s.sends + [Send(p.id, p.route, Blocked(s.limits, p.route, now))])
  }

  /** `finish_one` */
  function FinishOne(s: State, p: Request, outcome: Outcome, now: int): State
    decreases |s.queue|, 1
  {
    StartNext(s.(completed := s.completed + [Completion(p.id, outcome)], busy := false), now)
  }

  /** `async_send_impl` */
  function Submit(s: State, route: Route, now: int): State {
    var p := Request(s.submitted, route);
    var s := s.(submitted := s.submitted + 1);
    if s.stopping then s.(completed := s.completed + [Completion(p.id, RateLimiterStopped)])
    else StartNext(s.(queue := s.queue + [p]), now)
  }

  /** The wait handler. */
  function TimerFires(s: State, error: bool, now: int): State {
    var s := s.(timer := None);
    match s.waiting
    case None => StartNext(s.(busy := false), now)
    case Some(p) =>
      var s := s.(waiting := None);
      if s.stopping then FinishOne(s, p, RateLimiterStopped, now)
      else if error then FinishOne(s, p, Timer, now)
      else DoSend(s, p, now)
  }

  function Updated(limits: map<Route, Limit>, route: Route, reply: Reply): map<Route, Limit> {
    if reply.Response? && Read(reply.headers).Found? then limits[route := Read(reply.headers).limit] else limits
  }

  /** The handler that `do_send` passes to `send_fn`.  An exception leaves it before it finishes the
      request, which goes with it; `run` is called again and the limiter goes on. */
  function Replied(s: State, i: nat, reply: Reply, now: int): State
    requires i < |s.inFlight|
  {
    var p := s.inFlight[i];
    var rest := s.inFlight[..i] + s.inFlight[i + 1..];
    if Breaks(reply) then s.(inFlight := rest, lost := s.lost + [p])
    else FinishOne(s.(inFlight := rest, limits := Updated(s.limits, p.route, reply)), p, OutcomeOf(reply), now)
  }

  function StopAll(ps: seq<Request>): seq<Completion> {
    if ps == [] then [] else [Completion(ps[0].id, RateLimiterStopped)] + StopAll(ps[1..])
  }

  lemma StopOneMore(completed: seq<Completion>, p: Request, rest: seq<Request>)
    ensures completed + StopAll([p] + rest) == completed + [Completion(p.id, RateLimiterStopped)] + StopAll(rest)
  {
    assert ([p] + rest)[1..] == rest;
  }

  lemma StopNone(completed: seq<Completion>)
    ensures completed + StopAll([]) == completed
  {
  }

  /** `shutdown`: what waits and what is queued finishes, what is in flight stays so. */
  function Shutdown(s: State): State {
    if s.stopping then s
    else
      var unsent := (if s.waiting.Some? then [s.waiting.value] else []) + s.queue;
      s.(stopping := true, sendEnabled := false, waiting := None, queue := [], busy := false,
         completed := s.completed + StopAll(unsent))
  }

  // ---------------------------------------------------------------------------------------
  // Runs
  // ---------------------------------------------------------------------------------------

  datatype Step =
    | DoSubmit(route: Route, now: int)
    | DoTimer(error: bool, now: int)
    | DoReply(index: nat, reply: Reply, now: int)
    | DoShutdown

  /** A timer that fires without an error has reached its expiry. */
  predicate Enabled(s: State, step: Step) {
    match step
    case DoTimer(error, now) => s.timer.Some? && (error || s.timer.value <= now)
    case DoReply(i, _, _) => i < |s.inFlight|
    case _ => true
  }

  function Apply(s: State, step: Step): State
    requires Enabled(s, step)
  {
    match step
    case DoSubmit(route, now) => Submit(s, route, now)
    case DoTimer(error, now) => TimerFires(s, error, now)
    case DoReply(i, reply, now) => Replied(s, i, reply, now)
    case DoShutdown => Shutdown(s)
  }

  predicate CanRun(s: State, steps: seq<Step>)
    decreases |steps|
  {
    steps == [] || (Enabled(s, steps[0]) && CanRun(Apply(s, steps[0]), steps[1..]))
  }

  function After(s: State, steps: seq<Step>): State
    requires CanRun(s, steps)
    decreases |steps|
  {
    if steps == [] then s else After(Apply(s, steps[0]), steps[1..])
  }

  // ---------------------------------------------------------------------------------------
  // What every step keeps
  // ---------------------------------------------------------------------------------------

  function Ids(ps: seq<Request>): seq<nat> {
    if ps == [] then [] else [ps[0].id] + Ids(ps[1..])
  }

  function Done(completed: seq<Completion>): seq<nat> {
    if completed == [] then [] else Done(completed[..|completed| - 1]) + [completed[|completed| - 1].id]
  }

  /** The request that waits for its limit, and those in flight. */
  function Active(s: State): seq<Request> {
    (if s.waiting.Some? then [s.waiting.value] else []) + s.inFlight
  }

  /** The requests that keep the limiter busy: a lost one does so for good. */
  function Occupying(s: State): seq<Request> {
    Active(s) + s.lost
  }

  /** Every submitted request is in one place, once: queued, waiting, in flight, lost or completed.
      `held` are requests in the hands of a handler that is still running. */
  predicate Conserved(s: State, held: seq<Request>) {
    multiset(Numbers(s.submitted)) ==
    multiset(Ids(s.queue)) + multiset(Ids(Occupying(s))) + multiset(Ids(held)) + multiset(Done(s.completed))
  }

  /** Before shutdown one request at most occupies the limiter, exactly when it is busy; the timer is
      armed exactly while a request waits.  After shutdown nothing is queued or waits. */
  predicate OneActive(s: State, held: seq<Request>) {
    if s.stopping then s.queue == [] && s.waiting.None? && |s.inFlight| + |s.lost| + |held| <= 1 && !s.sendEnabled
    else
      && |Occupying(s)| + |held| == (if s.busy then 1 else 0)
      && (s.timer.Some? <==> s.waiting.Some?)
  }

  /** The timer of a waiting request is set to the reset of its route, which nothing changes
      meanwhile. */
  predicate WaitsForReset(s: State) {
    !s.stopping && s.waiting.Some? ==>
      s.waiting.value.route in s.limits && s.timer == Some(s.limits[s.waiting.value.route].reset)
  }

  predicate Increasing(sends: seq<Send>) {
    forall i, j :: 0 <= i < j < |sends| ==> sends[i].id < sends[j].id
  }

  /** The number of the request at the front of the queue, or of the next one submitted. */
  function Front(s: State): int {
    s.submitted - |s.queue|
  }

  /** Requests are queued and sent in the order of their numbers, and no send was blocked. */
  predicate InOrder(s: State) {
    && (forall i :: 0 <= i < |s.queue| ==> s.queue[i].id == Front(s) + i)
    && Increasing(s.sends)
    && (forall e :: e in s.sends ==> e.id < Front(s) && !e.blocked)
    && (s.waiting.Some? ==> s.waiting.value.id < Front(s) && forall e :: e in s.sends ==> e.id < s.waiting.value.id)
  }

  /** All of it, except that the queue may still have to be started. */
  predicate Loose(s: State, held: seq<Request>) {
    0 <= Front(s) && Conserved(s, held) && OneActive(s, held) && WaitsForReset(s) && InOrder(s)
  }

  /** Whenever something is queued, the limiter is busy. */
  predicate Inv(s: State) {
    Loose(s, []) && (s.queue != [] ==> s.busy) && (s.stopping ==> !s.busy)
  }

  lemma DoneSnoc(completed: seq<Completion>, c: Completion)
    ensures Done(completed + [c]) == Done(completed) + [c.id]
  {
    assert (completed + [c])[..|completed|] == completed;
  }

  lemma {:induction false} IdsAppend(a: seq<Request>, b: seq<Request>)
    ensures Ids(a + b) == Ids(a) + Ids(b)
  {
    if a == [] {
      assert a + b == b;
    } else {
      IdsAppend(a[1..], b);
      hide Ids;
      IdsCons(a);
      IdsCons(a + b);
      assert (a + b)[1..] == a[1..] + b;
      Associate([a[0].id], Ids(a[1..]), Ids(b));
    }
  }

  lemma IdsCons(ps: seq<Request>)
    requires ps != []
    ensures Ids(ps) == [ps[0].id] + Ids(ps[1..])
  {
  }

  lemma IdsOne(p: Request)
    ensures Ids([p]) == [p.id] && Ids([]) == []
  {
    assert [p][1..] == [];
  }

  // One lemma per handler, in the order in which they call each other.

  lemma {:induction false} StartNextKeeps(s: State, now: int)
    requires Loose(s, [])
    ensures Inv(StartNext(s, now))
    decreases |s.queue|, 0
  {
    if !s.stopping && !s.busy && s.queue != [] {
      var p, rest := s.queue[0], s.queue[1..];
      var s' := s.(busy := true, queue := rest);
      TakeFront(s);
      MaybeWaitThenSendKeeps(s', p, now);
    }
  }

  lemma TakeFront(s: State)
    requires Loose(s, []) && !s.stopping && !s.busy && s.queue != []
    ensures var s' := s.(busy := true, queue := s.queue[1..]); Holding(s', s.queue[0]) && Unsent(s', s.queue[0])
  {
    hide Ids, Done, Numbers, Increasing;
    var p, rest := s.queue[0], s.queue[1..];
    assert multiset(Ids(s.queue)) == multiset(Ids(rest)) + multiset(Ids([p])) by {
      assert s.queue == [p] + rest;
      IdsAppend([p], rest);
    }
    IdsOne(p);
    assert p.id == Front(s) + 0;
    forall i | 0 <= i < |rest| ensures rest[i].id == Front(s) + 1 + i {
      assert rest[i] == s.queue[i + 1];
    }
  }

  /** A handler holds `p`, and nothing else is active. */
  predicate Holding(s: State, p: Request) {
    Loose(s, [p]) && (!s.stopping ==> s.waiting.None? && s.inFlight == [] && s.lost == [])
  }

  /** `p` has not been sent, and nothing behind it has. */
  predicate Unsent(s: State, p: Request) {
    p.id < Front(s) && forall e :: e in s.sends ==> e.id < p.id
  }

  predicate MaySend(s: State, p: Request, now: int) {
    !s.stopping ==> !Blocked(s.limits, p.route, now)
  }

  lemma {:induction false} MaybeWaitThenSendKeeps(s: State, p: Request, now: int)
    requires Holding(s, p) && Unsent(s, p)
    ensures Inv(MaybeWaitThenSend(s, p, now))
    decreases |s.queue|, 3
  {
    hide Ids, Done, Numbers, Inv;
    if s.stopping {
      FinishOneKeeps(s, p, RateLimiterStopped, now);
    } else if Blocked(s.limits, p.route, now) {
      WaitKeeps(s, p);
    } else {
      DoSendKeeps(s, p, now);
    }
  }

  lemma WaitKeeps(s: State, p: Request)
    requires Holding(s, p) && Unsent(s, p) && !s.stopping && p.route in s.limits
    ensures Inv(s.(waiting := Some(p), timer := Some(s.limits[p.route].reset)))
  {
    hide Conserved;
    assert [p] + [] == [p] && [p] + [] + [] == [p];
    MoveConserves(s, [p], s.(waiting := Some(p), timer := Some(s.limits[p.route].reset)), []);
  }

  lemma {:induction false} DoSendKeeps(s: State, p: Request, now: int)
    requires Holding(s, p) && Unsent(s, p) && MaySend(s, p, now)
    ensures Inv(DoSend(s, p, now))
    decreases |s.queue|, 2
  {
    hide Ids, Done, Numbers, Inv;
    if s.stopping {
      FinishOneKeeps(s, p, RateLimiterStopped, now);
    } else if !s.sendEnabled {
      FinishOneKeeps(s, p, RateLimiterSendDisabled, now);
    } else {
      SendKeeps(s, p, now);
    }
  }

  lemma SendKeeps(s: State, p: Request, now: int)
    requires Holding(s, p) && Unsent(s, p) && !s.stopping && !Blocked(s.limits, p.route, now)
    ensures Inv(s.(inFlight := s.inFlight + [p],
                   sends := s.sends + [Send(p.id, p.route, Blocked(s.limits, p.route, now))]))
  {
    hide Conserved;
    assert s.inFlight + [p] == [p] && [] + [p] + [] == [p];
    MoveConserves(s, [p], s.(inFlight := s.inFlight + [p], sends := s.sends + [Send(p.id, p.route, false)]), []);
  }

  /** Moving a request between a handler's hands and the active ones changes no count. */
  lemma MoveConserves(s: State, held: seq<Request>, s': State, held': seq<Request>)
    requires Conserved(s, held) && Occupying(s) + held == Occupying(s') + held'
    requires s.queue == s'.queue && s.submitted == s'.submitted && s.completed == s'.completed
    ensures Conserved(s', held')
  {
    hide Ids, Done, Numbers;
    IdsAppend(Occupying(s), held);
    IdsAppend(Occupying(s'), held');
    assert multiset(Ids(Occupying(s)) + Ids(held)) == multiset(Ids(Occupying(s))) + multiset(Ids(held));
    assert multiset(Ids(Occupying(s')) + Ids(held')) == multiset(Ids(Occupying(s'))) + multiset(Ids(held'));
    var (q, d) := (multiset(Ids(s.queue)), multiset(Done(s.completed)));
    var (a, h, a', h') := (multiset(Ids(Occupying(s))), multiset(Ids(held)),
                          multiset(Ids(Occupying(s'))), multiset(Ids(held')));
    assert q + a + h + d == q + (a + h) + d == q + (a' + h') + d == q + a' + h' + d;
  }

  lemma {:induction false} FinishOneKeeps(s: State, p: Request, outcome: Outcome, now: int)
    requires Holding(s, p)
    ensures Inv(FinishOne(s, p, outcome, now))
    decreases |s.queue|, 1
  {
    hide Ids, Done, Numbers, Inv, StartNext;
    CompleteKeeps(s, p, outcome);
    StartNextKeeps(s.(completed := s.completed + [Completion(p.id, outcome)], busy := false), now);
  }

  lemma CompleteKeeps(s: State, p: Request, outcome: Outcome)
    requires Holding(s, p)
    ensures Loose(s.(completed := s.completed + [Completion(p.id, outcome)], busy := false), [])
  {
    hide Done, Numbers, Increasing;
    DoneSnoc(s.completed, Completion(p.id, outcome));
    IdsOne(p);
  }

  lemma SubmitKeeps(s: State, route: Route, now: int)
    requires Inv(s)
    ensures Inv(Submit(s, route, now))
  {
    hide StartNext, Loose, InOrder, Conserved;
    var p := Request(s.submitted, route);
    if s.stopping {
      SubmitStops(s, p);
    } else {
      SubmitQueues(s, p);
      hide Inv;
      StartNextKeeps(s.(submitted := s.submitted + 1, queue := s.queue + [p]), now);
    }
  }

  lemma SubmitStops(s: State, p: Request)
    requires Inv(s) && s.stopping && p.id == s.submitted
    ensures Inv(s.(submitted := s.submitted + 1, completed := s.completed + [Completion(p.id, RateLimiterStopped)]))
  {
    hide Conserved, InOrder;
    SubmitConserves(s, p);
    SubmitOrders(s, p);
  }

  lemma SubmitQueues(s: State, p: Request)
    requires Loose(s, []) && !s.stopping && p.id == s.submitted
    ensures Loose(s.(submitted := s.submitted + 1, queue := s.queue + [p]), [])
  {
    hide Conserved, InOrder;
    var s' := s.(submitted := s.submitted + 1, queue := s.queue + [p]);
    SubmitConserves(s, p);
    SubmitOrders(s, p);
    assert Occupying(s') == Occupying(s) && Front(s') == Front(s);
  }

  lemma SubmitOrders(s: State, p: Request)
    requires 0 <= Front(s) && InOrder(s) && p.id == s.submitted
    ensures InOrder(s.(submitted := s.submitted + 1, queue := s.queue + [p]))
    ensures s.queue == [] ==>
              InOrder(s.(submitted := s.submitted + 1,
                         completed := s.completed + [Completion(p.id, RateLimiterStopped)]))
  {
  }

  lemma SubmitConserves(s: State, p: Request)
    requires Conserved(s, []) && p.id == s.submitted
    ensures Conserved(s.(submitted := s.submitted + 1, queue := s.queue + [p]), [])
    ensures Conserved(s.(submitted := s.submitted + 1,
                         completed := s.completed + [Completion(p.id, RateLimiterStopped)]), [])
  {
    hide Ids, Done, Numbers;
    NumbersSnoc(s.submitted);
    DoneSnoc(s.completed, Completion(p.id, RateLimiterStopped));
    IdsAppend(s.queue, [p]);
    IdsOne(p);
  }

  lemma TimerKeeps(s: State, error: bool, now: int)
    requires Inv(s) && s.timer.Some? && (error || s.timer.value <= now)
    ensures Inv(TimerFires(s, error, now))
  {
    hide StartNext, FinishOne, DoSend, Loose, Conserved, InOrder;
    if s.stopping {
      LateTimer(s);
      StartNextKeeps(s.(timer := None, busy := false), now);
    } else {
      TimerMeansWaiting(s);
      var p := s.waiting.value;
      var s' := s.(timer := None, waiting := None);
      ReleaseWaiting(s);
      if error {
        FinishOneKeeps(s', p, Timer, now);
      } else {
        DoSendKeeps(s', p, now);
      }
    }
  }

  lemma TimerMeansWaiting(s: State)
    requires Inv(s) && !s.stopping && s.timer.Some?
    ensures s.waiting.Some? && s.waiting.value.route in s.limits
    ensures s.timer.value == s.limits[s.waiting.value.route].reset
  {
    hide Conserved, InOrder;
  }

  /** A timer callback that runs after shutdown finds nothing waiting. */
  lemma LateTimer(s: State)
    requires Inv(s) && s.stopping
    ensures s.waiting.None? && Loose(s.(timer := None, busy := false), [])
  {
    hide Ids, Done, Numbers, Increasing;
  }

  lemma ReleaseWaiting(s: State)
    requires Inv(s) && !s.stopping && s.waiting.Some?
    ensures var s' := s.(timer := None, waiting := None); Holding(s', s.waiting.value) && Unsent(s', s.waiting.value)
  {
    hide Conserved;
    var p := s.waiting.value;
    assert s.inFlight == [] && s.lost == [] && Occupying(s) == [p];
    MoveConserves(s, [], s.(timer := None, waiting := None), [p]);
  }

  lemma ReplyKeeps(s: State, i: nat, reply: Reply, now: int)
    requires Inv(s) && i < |s.inFlight|
    ensures Inv(Replied(s, i, reply, now))
  {
    var p := s.inFlight[i];
    if Breaks(reply) {
      LoseInFlight(s, i);
      return;
    }
    ReleaseInFlight(s, i, reply);
    hide Inv, Loose;
    FinishOneKeeps(s.(inFlight := s.inFlight[..i] + s.inFlight[i + 1..], limits := Updated(s.limits, p.route, reply)),
                   p, OutcomeOf(reply), now);
  }

  lemma ReleaseInFlight(s: State, i: nat, reply: Reply)
    requires Inv(s) && i < |s.inFlight|
    ensures var p := s.inFlight[i];
            Holding(s.(inFlight := s.inFlight[..i] + s.inFlight[i + 1..],
                       limits := Updated(s.limits, p.route, reply)), p)
  {
    hide Conserved;
    var p := s.inFlight[i];
    assert s.waiting.None? && s.inFlight == [p] && s.lost == [];
    assert s.inFlight[..i] + s.inFlight[i + 1..] == [] && Occupying(s) == [p];
    MoveConserves(s, [], s.(inFlight := [], limits := Updated(s.limits, p.route, reply)), [p]);
  }

  /** A lost request occupies the limiter as it did in flight. */
  lemma LoseInFlight(s: State, i: nat)
    requires Inv(s) && i < |s.inFlight|
    ensures Inv(s.(inFlight := s.inFlight[..i] + s.inFlight[i + 1..], lost := s.lost + [s.inFlight[i]]))
  {
    hide Conserved;
    var p := s.inFlight[i];
    assert s.waiting.None? && s.inFlight == [p] && s.lost == [];
    var s' := s.(inFlight := s.inFlight[..i] + s.inFlight[i + 1..], lost := s.lost + [p]);
    assert s'.inFlight == [] && Occupying(s) == [p] && Occupying(s') == [p];
    MoveConserves(s, [], s', []);
  }

  lemma ShutdownKeeps(s: State)
    requires Inv(s)
    ensures Inv(Shutdown(s))
  {
    hide Conserved;
    if !s.stopping { ShutdownConserves(s); }
  }

  lemma ShutdownConserves(s: State)
    requires Conserved(s, []) && !s.stopping
    ensures Conserved(Shutdown(s), [])
  {
    hide Done, Numbers, Ids, StopAll;
    var waiting := if s.waiting.Some? then [s.waiting.value] else [];
    var stay := s.inFlight + s.lost;
    StopAllIds(waiting + s.queue, s.completed);
    IdsAppend(waiting, s.queue);
    IdsAppend(waiting, stay);
    assert Occupying(Shutdown(s)) == stay && Occupying(s) == waiting + stay;
    IdsNone();
    var (q, w, f, d) := (multiset(Ids(s.queue)), multiset(Ids(waiting)),
                         multiset(Ids(stay)), multiset(Done(s.completed)));
    assert q + (w + f) + multiset{} + d == multiset{} + f + multiset{} + (d + (w + q));
  }

  lemma IdsNone()
    ensures Ids([]) == []
  {
  }

  lemma StepKeepsInv(s: State, step: Step)
    requires Inv(s) && Enabled(s, step)
    ensures Inv(Apply(s, step))
  {
    hide Inv, Submit, TimerFires, Replied, Shutdown;
    match step
    case DoSubmit(route, now) => SubmitKeeps(s, route, now);
    case DoTimer(error, now) => TimerKeeps(s, error, now);
    case DoReply(i, reply, now) => ReplyKeeps(s, i, reply, now);
    case DoShutdown => ShutdownKeeps(s);
  }

  lemma {:induction false} StopAllIds(ps: seq<Request>, completed: seq<Completion>)
    ensures Done(completed + StopAll(ps)) == Done(completed) + Ids(ps)
    decreases |ps|
  {
    if ps == [] {
      StopNone(completed);
    } else {
      hide Done, StopAll;
      var c := Completion(ps[0].id, RateLimiterStopped);
      StopAllIds(ps[1..], completed + [c]);
      DoneSnoc(completed, c);
      assert ps == [ps[0]] + ps[1..];
      StopOneMore(completed, ps[0], ps[1..]);
      assert Done(completed) + Ids(ps) == Done(completed) + [c.id] + Ids(ps[1..]);
    }
  }

  // ---------------------------------------------------------------------------------------
  // Whole runs
  // ---------------------------------------------------------------------------------------

  lemma {:induction false} RunKeepsInv(s: State, steps: seq<Step>)
    requires Inv(s) && CanRun(s, steps)
    ensures Inv(After(s, steps))
    decreases |steps|
  {
    hide Inv, Apply;
    if steps != [] {
      StepKeepsInv(s, steps[0]);
      RunKeepsInv(Apply(s, steps[0]), steps[1..]);
    }
  }

  /** In every state of every run: every request is in one place, once; one at most occupies the limiter
      before shutdown, and one does whenever the queue is not empty; sends follow the order of
      submission, and no request was sent while its route's limit was used up and not yet reset. */
  lemma EveryRun(sendEnabled: bool, steps: seq<Step>)
    requires CanRun(Initial(sendEnabled), steps)
    ensures Inv(After(Initial(sendEnabled), steps))
  {
    hide After, CanRun;
    assert Inv(Initial(sendEnabled));
    RunKeepsInv(Initial(sendEnabled), steps);
  }

  /** No reply in flight ended in an exception. */
  predicate Unbroken(steps: seq<Step>) {
    forall step :: step in steps && step.DoReply? ==> !Breaks(step.reply)
  }

  lemma StepLoses(s: State, step: Step)
    requires Enabled(s, step)
    ensures Apply(s, step).lost == [] <==> s.lost == [] && Unbroken([step])
  {
    hide StartNext, FinishOne, DoSend, Breaks;
    match step
    case DoSubmit(route, now) =>
      StartNextWorks(s.(submitted := s.submitted + 1, queue := s.queue + [Request(s.submitted, route)]), now);
    case DoTimer(error, now) => TimerWorks(s, error, now);
    case DoReply(i, reply, now) => ReplyWorks(s, i, reply, now);
    case DoShutdown =>
  }

  /** Requests are lost exactly by replies that end in an exception. */
  lemma {:induction false} RunLoses(s: State, steps: seq<Step>)
    requires CanRun(s, steps)
    ensures After(s, steps).lost == [] <==> s.lost == [] && Unbroken(steps)
    decreases |steps|
  {
    hide Apply, Enabled, Breaks;
    if steps != [] {
      StepLoses(s, steps[0]);
      RunLoses(Apply(s, steps[0]), steps[1..]);
      assert steps == [steps[0]] + steps[1..];
    }
  }

  /** What the limiter promises of its requests: each is queued, waits, is in flight or has completed,
      once; and while something is queued before shutdown, one of them waits or is in flight. */
  predicate KeepsAll(s: State) {
    && multiset(Numbers(s.submitted)) ==
       multiset(Ids(s.queue)) + multiset(Ids(Active(s))) + multiset(Done(s.completed))
    && (!s.stopping && s.queue != [] ==> |Active(s)| == 1)
  }

  lemma KeepsAllIff(s: State)
    requires Inv(s)
    ensures KeepsAll(s) <==> s.lost == []
  {
    hide Ids, Done, Numbers, InOrder, WaitsForReset;
    IdsNone();
    IdsAppend(Active(s), s.lost);
    if s.lost == [] {
      assert Active(s) + [] == Active(s);
    } else {
      IdsCons(s.lost);
      var (q, a) := (multiset(Ids(s.queue)), multiset(Ids(Active(s))));
      var (l, d) := (multiset(Ids(s.lost)), multiset(Done(s.completed)));
      assert multiset(Numbers(s.submitted)) == q + (a + l) + d;
      assert s.lost[0].id in l;
      assert (q + a + d)[s.lost[0].id] < (q + (a + l) + d)[s.lost[0].id];
    }
  }

  /** It keeps its promise over a run exactly when no reply that ends in an exception was received. */
  lemma EveryRunKeepsAll(sendEnabled: bool, steps: seq<Step>)
    requires CanRun(Initial(sendEnabled), steps)
    ensures KeepsAll(After(Initial(sendEnabled), steps)) <==> Unbroken(steps)
  {
    hide After, CanRun, Inv, KeepsAll, Unbroken;
    EveryRun(sendEnabled, steps);
    KeepsAllIff(After(Initial(sendEnabled), steps));
    RunLoses(Initial(sendEnabled), steps);
  }

  /** No request completes twice; one that has not completed is queued, waits, is in flight or was lost,
      the last of which needs a reply that ends in an exception. */
  lemma CompletedAtMostOnce(sendEnabled: bool, steps: seq<Step>, id: nat)
    requires CanRun(Initial(sendEnabled), steps)
    ensures var s := After(Initial(sendEnabled), steps);
            && multiset(Done(s.completed))[id] <= (if id < s.submitted then 1 else 0)
            && (id < s.submitted && multiset(Done(s.completed))[id] == 0 ==>
                  id in Ids(s.queue) || id in Ids(Active(s)) || id in Ids(s.lost))
            && (s.lost == [] <==> Unbroken(steps))
  {
    hide Ids, Done, Numbers, After, CanRun;
    EveryRun(sendEnabled, steps);
    RunLoses(Initial(sendEnabled), steps);
    IdsNone();
    var s := After(Initial(sendEnabled), steps);
    IdsAppend(Active(s), s.lost);
    NumbersOnce(s.submitted, id);
  }

  /** A lost request blocks the limiter until shutdown: nothing more is sent or completes, and whatever
      is submitted stays queued. */
  lemma {:induction false} BlockedForGood(s: State, steps: seq<Step>)
    requires Inv(s) && !s.stopping && s.lost != [] && CanRun(s, steps) && DoShutdown !in steps
    ensures var s' := After(s, steps);
            && s'.sends == s.sends && s'.completed == s.completed && s.queue <= s'.queue
            && s'.submitted - s.submitted == |s'.queue| - |s.queue| == |steps|
    decreases |steps|
  {
    if steps != [] {
      assert steps[0] in steps;
      BlockedStep(s, steps[0]);
      StepKeepsInv(s, steps[0]);
      hide Inv, Apply, Enabled;
      BlockedForGood(Apply(s, steps[0]), steps[1..]);
    }
  }

  lemma BlockedStep(s: State, step: Step)
    requires Inv(s) && !s.stopping && s.lost != [] && Enabled(s, step) && step != DoShutdown
    ensures step.DoSubmit?
    ensures Apply(s, step) == s.(submitted := s.submitted + 1, queue := s.queue + [Request(s.submitted, step.route)])
  {
    hide Conserved, InOrder, WaitsForReset;
  }

  /** Between two states of a stopped limiter nothing was sent, and whatever finished did so with
      `rate_limiter_stopped`, unless it was in flight. */
  predicate OnlyFinished(s: State, s': State) {
    && s'.stopping && s'.sends == s.sends && s.submitted <= s'.submitted && s.completed <= s'.completed
    && (forall p :: p in s'.inFlight ==> p in s.inFlight)
    && (forall p :: p in s'.lost ==> p in s.lost || p in s.inFlight)
    && (forall k :: |s.completed| <= k < |s'.completed| ==> FinishedFrom(s.inFlight, s'.completed[k]))
  }

  predicate FinishedFrom(inFlight: seq<Request>, c: Completion) {
    c.outcome == RateLimiterStopped || exists p :: p in inFlight && p.id == c.id
  }

  lemma OnlyFinishedThenSo(s: State, s': State, s'': State)
    requires OnlyFinished(s, s') && OnlyFinished(s', s'')
    ensures OnlyFinished(s, s'')
  {
    forall k | |s.completed| <= k < |s''.completed| ensures FinishedFrom(s.inFlight, s''.completed[k]) {
      if k < |s'.completed| {
        assert s''.completed[k] == s'.completed[k];
      } else {
        assert FinishedFrom(s'.inFlight, s''.completed[k]);
      }
    }
  }

  lemma FinishStopped(s: State, p: Request, outcome: Outcome, now: int)
    requires s.stopping
    ensures FinishOne(s, p, outcome, now) == s.(completed := s.completed + [Completion(p.id, outcome)], busy := false)
  {
  }

  lemma StoppedReply(s: State, i: nat, reply: Reply, now: int)
    requires s.stopping && i < |s.inFlight|
    ensures OnlyFinished(s, Replied(s, i, reply, now))
  {
    hide FinishOne, Breaks;
    var p := s.inFlight[i];
    assert p in s.inFlight;
    if Breaks(reply) { return; }
    FinishStopped(s.(inFlight := s.inFlight[..i] + s.inFlight[i + 1..], limits := Updated(s.limits, p.route, reply)),
                  p, OutcomeOf(reply), now);
    assert FinishedFrom(s.inFlight, Completion(p.id, OutcomeOf(reply)));
  }

  lemma StoppedStep(s: State, step: Step)
    requires Inv(s) && s.stopping && Enabled(s, step)
    ensures OnlyFinished(s, Apply(s, step))
  {
    hide Conserved, InOrder, Replied;
    match step
    case DoReply(i, reply, now) => StoppedReply(s, i, reply, now);
    case _ =>
  }

  lemma {:induction false} StoppedStaysStopped(s: State, steps: seq<Step>)
    requires Inv(s) && s.stopping && CanRun(s, steps)
    ensures OnlyFinished(s, After(s, steps))
    decreases |steps|
  {
    hide Inv, Apply, FinishedFrom;
    if steps != [] {
      StoppedStep(s, steps[0]);
      StepKeepsInv(s, steps[0]);
      StoppedStaysStopped(Apply(s, steps[0]), steps[1..]);
      OnlyFinishedThenSo(s, Apply(s, steps[0]), After(s, steps));
    }
  }

  lemma {:induction false} StopAllStops(ps: seq<Request>)
    ensures forall c :: c in StopAll(ps) ==> c.outcome == RateLimiterStopped
  {
    if ps != [] { StopAllStops(ps[1..]); }
  }

  lemma ShutdownOnlyFinishes(s: State)
    ensures OnlyFinished(s, Shutdown(s))
  {
    var unsent := (if s.waiting.Some? then [s.waiting.value] else []) + s.queue;
    StopAllStops(unsent);
    hide StopAll;
    var s' := Shutdown(s);
    forall k | |s.completed| <= k < |s'.completed| ensures FinishedFrom(s.inFlight, s'.completed[k]) {
      assert s'.completed[k] == StopAll(unsent)[k - |s.completed|];
    }
  }

  lemma {:induction false} IdsHas(ps: seq<Request>, id: nat)
    ensures id in Ids(ps) <==> exists p :: p in ps && p.id == id
  {
    if ps != [] {
      IdsHas(ps[1..], id);
      assert ps == [ps[0]] + ps[1..];
    }
  }

  lemma {:induction false} DoneHas(completed: seq<Completion>, id: nat)
    ensures id in Done(completed) <==> exists k :: 0 <= k < |completed| && completed[k].id == id
  {
    if completed != [] { DoneHas(completed[..|completed| - 1], id); }
  }

  /** Out of reach for shutdown: in flight, or lost. */
  predicate OutOfReach(s: State, id: nat) {
    id in Ids(s.inFlight) || id in Ids(s.lost)
  }

  /** Every submitted request of a stopped limiter has completed, is in flight or was lost. */
  lemma StoppedHasNoOther(s: State, id: nat)
    requires Inv(s) && s.stopping && id < s.submitted
    ensures id in Done(s.completed) || OutOfReach(s, id)
  {
    hide Ids, Done, Numbers, InOrder;
    IdsNone();
    NumbersOnce(s.submitted, id);
    assert Occupying(s) == s.inFlight + s.lost;
    IdsAppend(s.inFlight, s.lost);
  }

  /** Shutdown, at any point of any run, stops everything: nothing is sent afterwards, and every
      request that has not completed and is not out of reach by then, or is submitted later, completes
      with `rate_limiter_stopped`. */
  lemma AfterShutdown(sendEnabled: bool, before: seq<Step>, later: seq<Step>, id: nat)
    requires CanRun(Initial(sendEnabled), before) && CanRun(Shutdown(After(Initial(sendEnabled), before)), later)
    ensures var s := After(Initial(sendEnabled), before);
            var s' := After(Shutdown(s), later);
            && s'.sends == s.sends
            && (id < s'.submitted && id !in Done(s.completed) && !OutOfReach(s, id) ==>
                  Completion(id, RateLimiterStopped) in s'.completed)
            && (Unbroken(before) ==> s.lost == [])
  {
    hide Ids, Done, Inv, After, CanRun, Shutdown, OutOfReach;
    var s := After(Initial(sendEnabled), before);
    EveryRun(sendEnabled, before);
    RunLoses(Initial(sendEnabled), before);
    ShutdownKeeps(s);
    ShutdownOnlyFinishes(s);
    StoppedStaysStopped(Shutdown(s), later);
    var s' := After(Shutdown(s), later);
    OnlyFinishedThenSo(s, Shutdown(s), s');
    RunKeepsInv(Shutdown(s), later);
    if id < s'.submitted && id !in Done(s.completed) && !OutOfReach(s, id) {
      StoppedHasNoOther(s', id);
      LeftIsStopped(s, s', id);
    }
  }

  lemma LeftIsStopped(s: State, s': State, id: nat)
    requires OnlyFinished(s, s') && id !in Done(s.completed) && !OutOfReach(s, id)
    requires id in Done(s'.completed) || OutOfReach(s', id)
    ensures Completion(id, RateLimiterStopped) in s'.completed
  {
    hide Ids, Done;
    IdsHas(s.inFlight, id);
    IdsHas(s'.inFlight, id);
    IdsHas(s.lost, id);
    IdsHas(s'.lost, id);
    DoneHas(s.completed, id);
    DoneHas(s'.completed, id);
    var k :| 0 <= k < |s'.completed| && s'.completed[k].id == id;
    assert FinishedFrom(s.inFlight, s'.completed[k]);
  }

  // ---------------------------------------------------------------------------------------
  // No stuck state
  // ---------------------------------------------------------------------------------------

  /** What is left to do: each request is taken up, may wait for a timer, and is replied to. */
  function Work(s: State): nat {
    4 * |s.queue| + (if s.waiting.Some? then 2 else 0) + (if s.timer.Some? then 1 else 0) + |s.inFlight|
  }

  lemma {:induction false} StartNextWorks(s: State, now: int)
    ensures Work(StartNext(s, now)) <= Work(s) && StartNext(s, now).lost == s.lost
    decreases |s.queue|, 0
  {
    if !s.stopping && !s.busy && s.queue != [] {
      MaybeWaitWorks(s.(busy := true, queue := s.queue[1..]), s.queue[0], now);
    }
  }

  lemma {:induction false} MaybeWaitWorks(s: State, p: Request, now: int)
    ensures Work(MaybeWaitThenSend(s, p, now)) <= Work(s) + 3 && MaybeWaitThenSend(s, p, now).lost == s.lost
    decreases |s.queue|, 3
  {
    if s.stopping {
      FinishOneWorks(s, p, RateLimiterStopped, now);
    } else if !Blocked(s.limits, p.route, now) {
      DoSendWorks(s, p, now);
    }
  }

  lemma {:induction false} DoSendWorks(s: State, p: Request, now: int)
    ensures Work(DoSend(s, p, now)) <= Work(s) + 1 && DoSend(s, p, now).lost == s.lost
    decreases |s.queue|, 2
  {
    if s.stopping {
      FinishOneWorks(s, p, RateLimiterStopped, now);
    } else if !s.sendEnabled {
      FinishOneWorks(s, p, RateLimiterSendDisabled, now);
    }
  }

  lemma {:induction false} FinishOneWorks(s: State, p: Request, outcome: Outcome, now: int)
    ensures Work(FinishOne(s, p, outcome, now)) <= Work(s) && FinishOne(s, p, outcome, now).lost == s.lost
    decreases |s.queue|, 1
  {
    StartNextWorks(s.(completed := s.completed + [Completion(p.id, outcome)], busy := false), now);
  }

  /** A step of the limiter's own: its timer, at whatever time and with whatever result, or a reply to
      what it sent, whatever it says. */
  predicate Internal(step: Step) {
    step.DoTimer? || step.DoReply?
  }

  lemma TimerWorks(s: State, error: bool, now: int)
    requires s.timer.Some?
    ensures Work(TimerFires(s, error, now)) < Work(s) && TimerFires(s, error, now).lost == s.lost
  {
    hide StartNext, FinishOne, DoSend;
    var s' := s.(timer := None);
    StartNextWorks(s'.(busy := false), now);
    if s.waiting.Some? {
      FinishOneWorks(s'.(waiting := None), s.waiting.value, RateLimiterStopped, now);
      FinishOneWorks(s'.(waiting := None), s.waiting.value, Timer, now);
      DoSendWorks(s'.(waiting := None), s.waiting.value, now);
    }
  }

  lemma ReplyWorks(s: State, i: nat, reply: Reply, now: int)
    requires i < |s.inFlight|
    ensures Work(Replied(s, i, reply, now)) < Work(s)
    ensures Replied(s, i, reply, now).lost == if Breaks(reply) then s.lost + [s.inFlight[i]] else s.lost
  {
    hide FinishOne, Breaks;
    var p := s.inFlight[i];
    FinishOneWorks(s.(inFlight := s.inFlight[..i] + s.inFlight[i + 1..], limits := Updated(s.limits, p.route, reply)),
                   p, OutcomeOf(reply), now);
  }

  /** Every such step brings the end nearer. */
  lemma InternalWorks(s: State, step: Step)
    requires Enabled(s, step) && Internal(step)
    ensures Work(Apply(s, step)) < Work(s)
  {
    hide TimerFires, Replied;
    match step
    case DoTimer(error, now) => TimerWorks(s, error, now);
    case DoReply(i, reply, now) => ReplyWorks(s, i, reply, now);
  }

  predicate AllInternal(steps: seq<Step>) {
    forall step :: step in steps ==> Internal(step)
  }

  predicate AllCompleted(s: State) {
    multiset(Done(s.completed)) == multiset(Numbers(s.submitted))
  }

  /** No timer is armed and no reply outstanding. */
  ghost predicate Quiet(s: State) {
    forall step :: Internal(step) ==> !Enabled(s, step)
  }

  /** Where nothing more happens by itself, everything has completed exactly when nothing was lost. */
  lemma QuietIsDone(s: State)
    requires Inv(s) && Quiet(s)
    ensures AllCompleted(s) <==> s.lost == []
  {
    hide Ids, Done, Numbers, InOrder, Breaks;
    assert !Enabled(s, DoTimer(true, 0)) && !Enabled(s, DoReply(0, TransportError, 0));
    if s.lost == [] { IdsNone(); } else { LostIsNotCompleted(s); }
  }

  lemma LostIsNotCompleted(s: State)
    requires Inv(s) && s.lost != []
    ensures !AllCompleted(s)
  {
    hide Ids, Done, Numbers, InOrder, OneActive, WaitsForReset;
    IdsAppend(Active(s), s.lost);
    IdsCons(s.lost);
    var (q, a) := (multiset(Ids(s.queue)), multiset(Ids(Active(s))));
    var (l, d) := (multiset(Ids(s.lost)), multiset(Done(s.completed)));
    assert s.lost[0].id in l;
    assert d[s.lost[0].id] < (q + (a + l) + d)[s.lost[0].id];
  }

  lemma {:induction false} RunWorks(s: State, steps: seq<Step>)
    requires CanRun(s, steps) && AllInternal(steps)
    ensures |steps| + Work(After(s, steps)) <= Work(s)
    decreases |steps|
  {
    hide Apply, Enabled, Work;
    if steps != [] {
      InternalWorks(s, steps[0]);
      RunWorks(Apply(s, steps[0]), steps[1..]);
    }
  }

  /** From every reachable state, whatever the timers and replies do, the limiter comes to rest after a
      bounded number of them; and where it rests every submitted request has completed exactly once, if
      and only if no reply ended in an exception. */
  lemma EveryRunFinishes(s: State, steps: seq<Step>)
    requires Inv(s) && CanRun(s, steps) && AllInternal(steps)
    ensures |steps| <= Work(s)
    ensures Quiet(After(s, steps)) ==> (AllCompleted(After(s, steps)) <==> s.lost == [] && Unbroken(steps))
  {
    hide Inv, Quiet, AllCompleted, CanRun, After, Work, Unbroken;
    RunWorks(s, steps);
    RunKeepsInv(s, steps);
    RunLoses(s, steps);
    if Quiet(After(s, steps)) { QuietIsDone(After(s, steps)); }
  }

  /** Some run of them leads there exactly when nothing has been lost before. */
  lemma NeverStuck(s: State)
    requires Inv(s)
    ensures s.lost == [] <==> exists steps :: CanRun(s, steps) && AllInternal(steps) && AllCompleted(After(s, steps))
  {
    hide Inv, AllCompleted, CanRun, After, AllInternal, Unbroken;
    if s.lost == [] { CanFinish(s); }
    forall steps | CanRun(s, steps) && AllInternal(steps) && AllCompleted(After(s, steps)) ensures s.lost == [] {
      RunKeepsInv(s, steps);
      if After(s, steps).lost != [] { LostIsNotCompleted(After(s, steps)); }
      RunLoses(s, steps);
    }
  }

  lemma {:induction false} CanFinish(s: State)
    requires Inv(s) && s.lost == []
    ensures exists steps :: CanRun(s, steps) && AllInternal(steps) && AllCompleted(After(s, steps))
    decreases Work(s)
  {
    hide Inv, Apply, AllCompleted, Work, Breaks;
    if Quiet(s) {
      QuietIsDone(s);
      assert CanRun(s, []) && AllInternal([]) && AllCompleted(After(s, []));
    } else {
      var step := if s.inFlight != [] then DoReply(0, TransportError, 0) else DoTimer(true, 0);
      NotQuiet(s);
      StepLoses(s, step);
      NothingBreaks(step);
      hide Enabled, Unbroken;
      InternalWorks(s, step);
      StepKeepsInv(s, step);
      var s' := Apply(s, step);
      CanFinish(s');
      var rest :| CanRun(s', rest) && AllInternal(rest) && AllCompleted(After(s', rest));
      var steps := [step] + rest;
      assert steps[0] == step && steps[1..] == rest;
      assert CanRun(s, steps) && AllInternal(steps) && AllCompleted(After(s, steps));
    }
  }

  lemma NotQuiet(s: State)
    requires !Quiet(s)
    ensures s.inFlight != [] || s.timer.Some?
  {
  }

  lemma NothingBreaks(step: Step)
    ensures !step.DoReply? || step.reply == TransportError ==> Unbroken([step])
  {
  }

  /** A header that is not a number. */
  const X_REMAINING := Headers(Some("5"), Some("x"), Some("0"))

  lemma XRemainingThrows()
    ensures Read(X_REMAINING) == Throws
  {
    assert Stoul("x") == None;
  }

  /** One request, and a response with that header: the request is not completed and nothing more
      happens by itself, though the limiter is busy. */
  lemma NotANumber(route: Route)
    ensures var steps := [DoSubmit(route, 0), DoReply(0, Response(200, X_REMAINING), 0)];
            && CanRun(Initial(true), steps)
            && var s := After(Initial(true), steps);
               s.lost == [Request(0, route)] && Quiet(s) && s.busy && !KeepsAll(s) && !AllCompleted(s)
  {
    hide Inv, KeepsAll, AllCompleted, Read;
    XRemainingThrows();
    var reply := Response(200, X_REMAINING);
    var steps := [DoSubmit(route, 0), DoReply(0, reply, 0)];
    var p := Request(0, route);
    assert [] + [p] == [p] && [p][1..] == [];
    var s0 := Initial(true).(busy := true, submitted := 1);
    assert Submit(Initial(true), route, 0) == StartNext(s0.(busy := false, queue := [p]), 0);
    assert StartNext(s0.(busy := false, queue := [p]), 0) == MaybeWaitThenSend(s0, p, 0);
    assert MaybeWaitThenSend(s0, p, 0) == DoSend(s0, p, 0);
    var s1 := Apply(Initial(true), steps[0]);
    assert s1 == State([], true, None, None, false, true, map[], [p], 1, [Send(0, route, false)], [], []);
    assert Breaks(reply) && [p][..0] + [p][1..] == [];
    var s2 := Apply(s1, steps[1]);
    assert s2 == s1.(inFlight := [], lost := [p]);
    assert steps[1..] == [steps[1]] && steps[1..][1..] == [];
    assert CanRun(s2, []) && After(s2, []) == s2;
    assert CanRun(s1, steps[1..]) && After(s1, steps[1..]) == s2;
    EveryRun(true, steps);
    KeepsAllIff(s2);
    LostIsNotCompleted(s2);
  }
}
