/** The `RateLimiter` object, whose handlers run on one strand and change its fields in place.  Each
    is proved to do what the function of the same name in module `RateLimiter` says. */
module RateLimiterStrand {
  import opened Bytes
  import Spec = RateLimiter
  import RateLimitHeaders
  import Throttling

  class RateLimiter {
    var queue: seq<Spec.Request>
    var busy: bool
    var waiting: Option<Spec.Request>
    var timer: Option<int>
    var stopping: bool
    var sendEnabled: bool
    var limits: map<Spec.Route, RateLimitHeaders.Limit>
    var submitted: nat
    // calls of `send_fn` and of completion handlers so far
    var inFlight: seq<Spec.Request>
    var sends: seq<Spec.Send>
    var completed: seq<Spec.Completion>
    // requests that went with an exception
    var lost: seq<Spec.Request>

    function View(): Spec.State
      reads this
    {
      Spec.State(queue, busy, waiting, timer, stopping, sendEnabled, limits, inFlight, submitted, sends, completed,
                 lost)
    }

    constructor (sendEnabled: bool)
      ensures View() == Spec.Initial(sendEnabled)
    {
      queue, busy, waiting, timer := [], false, None, None;
      stopping, this.sendEnabled, limits := false, sendEnabled, map[];
      submitted, inFlight, sends, completed, lost := 0, [], [], [], [];
    }

    /** `async_send_impl` */
    method AsyncSend(route: Spec.Route, now: int)
      modifies this
      ensures View() == Spec.Submit(old(View()), route, now)
      ensures old(Spec.Inv(View())) ==> Spec.Inv(View())
    {
      hide Spec.Inv, Spec.StartNext;
      if old(Spec.Inv(View())) { Spec.SubmitKeeps(View(), route, now); }
      var p := Spec.Request(submitted, route);
      submitted := submitted + 1;
      if stopping {
        completed := completed + [Spec.Completion(p.id, Spec.RateLimiterStopped)];
        return;
      }
      queue := queue + [p];
      StartNext(now);
    }

    /** `start_next`: whatever is queued, it leaves a limiter that is stopped, idle with an empty queue, or
        busy with one request. */
    method StartNext(now: int)
      modifies this
      ensures View() == Spec.StartNext(old(View()), now)
      ensures old(Spec.Loose(View(), [])) ==> Spec.Inv(View())
      decreases |queue|, 0
    {
      hide Spec.MaybeWaitThenSend, Spec.Inv, Spec.Loose;
      if old(Spec.Loose(View(), [])) { Spec.StartNextKeeps(View(), now); }
      if stopping {
        busy := false;
        return;
      }
      if busy || queue == [] { return; }
      busy := true;
      var p := queue[0];
      queue := queue[1..];
      MaybeWaitThenSend(p, now);
    }

    /** `maybe_wait_then_send`: the request it is given is not lost, not doubled and not overtaken. */
    method MaybeWaitThenSend(p: Spec.Request, now: int)
      modifies this
      ensures View() == Spec.MaybeWaitThenSend(old(View()), p, now)
      ensures old(Spec.Holding(View(), p) && Spec.Unsent(View(), p)) ==> Spec.Inv(View())
      decreases |queue|, 3
    {
      hide Spec.FinishOne, Spec.DoSend, Spec.Inv, Spec.Holding, Spec.Unsent;
      if old(Spec.Holding(View(), p) && Spec.Unsent(View(), p)) { Spec.MaybeWaitThenSendKeeps(View(), p, now); }
      if stopping {
        FinishOne(p, Spec.RateLimiterStopped, now);
        return;
      }
      if p.route in limits && limits[p.route].remaining == 0 && now < limits[p.route].reset {
        waiting := Some(p);
        timer := Some(limits[p.route].reset);
        return;
      }
      DoSend(p, now);
    }

    /** `do_send`: the same, and nothing is sent against its route's limit. */
    method DoSend(p: Spec.Request, now: int)
      modifies this
      ensures View() == Spec.DoSend(old(View()), p, now)
      ensures old(Spec.Holding(View(), p) && Spec.Unsent(View(), p) && Spec.MaySend(View(), p, now)) ==>
                Spec.Inv(View())
      decreases |queue|, 2
    {
      hide Spec.FinishOne, Spec.Inv, Spec.Holding, Spec.Unsent, Spec.MaySend;
      if old(Spec.Holding(View(), p) && Spec.Unsent(View(), p) && Spec.MaySend(View(), p, now)) {
        Spec.DoSendKeeps(View(), p, now);
      }
      if stopping {
        FinishOne(p, Spec.RateLimiterStopped, now);
        return;
      }
      if !sendEnabled {
        FinishOne(p, Spec.RateLimiterSendDisabled, now);
        return;
      }
      sends := sends + [Spec.Send(p.id, p.route, Spec.Blocked(limits, p.route, now))];
      inFlight := inFlight + [p];
    }

    /** `finish_one`: the request completes once, and the next one is taken up. */
    method FinishOne(p: Spec.Request, outcome: Spec.Outcome, now: int)
      modifies this
      ensures View() == Spec.FinishOne(old(View()), p, outcome, now)
      ensures old(Spec.Holding(View(), p)) ==> Spec.Inv(View())
      decreases |queue|, 1
    {
      hide Spec.StartNext, Spec.Inv, Spec.Holding;
      if old(Spec.Holding(View(), p)) { Spec.FinishOneKeeps(View(), p, outcome, now); }
      completed := completed + [Spec.Completion(p.id, outcome)];
      busy := false;
      StartNext(now);
    }

    /** The handler of the wait timer. */
    method OnTimer(error: bool, now: int)
      requires timer.Some? && (error || timer.value <= now)
      modifies this
      ensures View() == Spec.TimerFires(old(View()), error, now)
      ensures old(Spec.Inv(View())) ==> Spec.Inv(View())
    {
      hide Spec.Inv, Spec.StartNext, Spec.FinishOne, Spec.DoSend;
      if old(Spec.Inv(View())) { Spec.TimerKeeps(View(), error, now); }
      timer := None;
      if waiting.None? {
        busy := false;
        StartNext(now);
        return;
      }
      var p := waiting.value;
      waiting := None;
      if stopping {
        FinishOne(p, Spec.RateLimiterStopped, now);
        return;
      }
      if error {
        FinishOne(p, Spec.Timer, now);
        return;
      }
      DoSend(p, now);
    }

    /** The handler that `do_send` passes to `send_fn`. */
    method OnReply(i: nat, reply: Spec.Reply, now: int)
      requires i < |inFlight|
      modifies this
      ensures View() == Spec.Replied(old(View()), i, reply, now)
      ensures old(Spec.Inv(View())) ==> Spec.Inv(View())
      ensures forall l: nat, r: nat, t: nat :: Throttling.Names(reply, l, r, t) ==>
                limits == old(limits)[old(inFlight[i].route) :=
                                        RateLimitHeaders.Limit(l % 0x1_0000, r % 0x1_0000, t * 1_000_000_000)]
    {
      hide Spec.Inv, Spec.FinishOne, RateLimitHeaders.Read, Throttling.Names;
      forall l: nat, r: nat, t: nat | Throttling.Names(reply, l, r, t)
        ensures Spec.Replied(View(), i, reply, now).limits ==
                limits[inFlight[i].route := RateLimitHeaders.Limit(l % 0x1_0000, r % 0x1_0000, t * 1_000_000_000)]
      {
        Throttling.NamedIsStored(View(), i, reply, l, r, t, now);
      }
      if old(Spec.Inv(View())) { Spec.ReplyKeeps(View(), i, reply, now); }
      var p := inFlight[i];
      inFlight := inFlight[..i] + inFlight[i + 1..];
      if reply.Response? {
        var reading := RateLimitHeaders.Read(reply.headers);
        if reading.Throws? {
          lost := lost + [p];
          return;
        }
        if reading.Found? { limits := limits[p.route := reading.limit]; }
      }
      if reply.TransportError? {
        FinishOne(p, Spec.Transport, now);
        return;
      }
      if 200 <= reply.status < 300 {
        FinishOne(p, Spec.Delivered, now);
        return;
      }
      FinishOne(p, Spec.Status(Spec.MapHttpStatus(reply.status)), now);
    }

    /** `shutdown` */
    method Shutdown(now: int)
      modifies this
      ensures View() == Spec.Shutdown(old(View()))
      ensures old(Spec.Inv(View())) ==> Spec.Inv(View())
    {
      hide Spec.Inv, Spec.StopAll;
      ghost var s := View();
      if old(Spec.Inv(View())) { Spec.ShutdownKeeps(s); }
      if stopping { return; }
      stopping := true;
      sendEnabled := false;
      if waiting.Some? {
        var p := waiting.value;
        Spec.StopOneMore(completed, p, queue);
        waiting := None;
        StoppedFinish(p, now);
      } else {
        assert [] + s.queue == s.queue;
      }
      StopQueue(now);
      busy := false;
    }

    /** The loop of `shutdown`. */
    method StopQueue(now: int)
      requires stopping
      modifies this
      ensures View() == old(View()).(queue := [], busy := busy, completed := old(completed) + Spec.StopAll(old(queue)))
    {
      hide Spec.StopAll;
      while queue != []
        invariant completed + Spec.StopAll(queue) == old(completed) + Spec.StopAll(old(queue))
        invariant View() == old(View()).(queue := queue, busy := busy, completed := completed)
        decreases |queue|
      {
        var p := queue[0];
        Spec.StopOneMore(completed, p, queue[1..]);
        assert [p] + queue[1..] == queue;
        queue := queue[1..];
        StoppedFinish(p, now);
      }
      Spec.StopNone(completed);
    }

    /** `finish_one` on a stopped limiter: `start_next` does nothing. */
    method StoppedFinish(p: Spec.Request, now: int)
      requires stopping
      modifies this
      ensures View() == old(View()).(completed := old(completed) + [Spec.Completion(p.id, Spec.RateLimiterStopped)],
                                     busy := false)
    {
      hide Spec.FinishOne;
      Spec.FinishStopped(View(), p, Spec.RateLimiterStopped, now);
      FinishOne(p, Spec.RateLimiterStopped, now);
    }
  }
}
