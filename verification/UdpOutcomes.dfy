/** Why an operation of the receive queue completes as it does: each outcome, told from the steps of the run. */
module UdpOutcomes {
  import opened Bytes
  import opened UdpReceive

  // ---------------------------------------------------------------------------------------
  // Runs and their states
  // ---------------------------------------------------------------------------------------

  lemma {:induction false} LastStep(s: State, before: seq<Step>, step: Step)
    ensures CanRun(s, before + [step]) <==> CanRun(s, before) && Enabled(After(s, before), step)
    ensures CanRun(s, before + [step]) ==> After(s, before + [step]) == Apply(After(s, before), step)
    decreases |before|
  {
    hide Apply, Enabled;
    var steps := before + [step];
    if before == [] {
      assert steps == [step] && steps[1..] == [];
    } else if Enabled(s, before[0]) {
      assert steps[0] == before[0] && steps[1..] == before[1..] + [step];
      LastStep(Apply(s, before[0]), before[1..], step);
    }
  }

  lemma {:induction false} PrefixRuns(steps: seq<Step>, k: nat)
    requires CanRun(INITIAL, steps) && k <= |steps|
    ensures CanRun(INITIAL, steps[..k])
    ensures k < |steps| ==> Enabled(After(INITIAL, steps[..k]), steps[k])
    decreases |steps| - k
  {
    hide CanRun, After, Enabled;
    if k < |steps| {
      PrefixRuns(steps, k + 1);
      assert steps[..k + 1] == steps[..k] + [steps[k]];
      LastStep(INITIAL, steps[..k], steps[k]);
    } else {
      assert steps[..k] == steps;
    }
  }

  /** The state in which step `k` is taken. */
  function StateAt(steps: seq<Step>, k: nat): (s: State)
    requires CanRun(INITIAL, steps) && k < |steps|
    ensures Enabled(s, steps[k])
  {
    PrefixRuns(steps, k);
    After(INITIAL, steps[..k])
  }

  /** How many operations have been submitted. */
  function Receives(steps: seq<Step>): nat {
    if steps == [] then 0
    else Receives(steps[..|steps| - 1]) + (if steps[|steps| - 1].Receive? then 1 else 0)
  }

  /** The socket is closed once `close` was called, and connected once a `connect` has succeeded. */
  lemma {:induction false} FlagsAreSteps(steps: seq<Step>)
    requires CanRun(INITIAL, steps)
    ensures var s := After(INITIAL, steps);
            && (s.closing <==> Close in steps) && (s.connected <==> Connect in steps)
            && s.submitted == Receives(steps)
  {
    if steps != [] {
      hide CanRun, After;
      var before, step := steps[..|steps| - 1], steps[|steps| - 1];
      assert steps == before + [step];
      LastStep(INITIAL, before, step);
      FlagsAreSteps(before);
      StepFlags(After(INITIAL, before), step);
      hide Apply, Enabled;
    } else {
      hide CanRun;
    }
  }

  lemma StepFlags(s: State, step: Step)
    requires Enabled(s, step)
    ensures var s' := Apply(s, step);
            && (s'.closing <==> s.closing || step == Close) && (s'.connected <==> s.connected || step == Connect)
            && s'.submitted == s.submitted + (if step.Receive? then 1 else 0)
            && (forall op :: op in s'.cancelling ==> op in s.cancelling || (step == Close && op in s.recvq))
  {
    if step.CancelNext? { assert s.cancelling == [s.cancelling[0]] + s.cancelling[1..]; }
  }

  // ---------------------------------------------------------------------------------------
  // Outcomes
  // ---------------------------------------------------------------------------------------

  /** Step `k` is the socket's answer to `op`. */
  predicate Answers(steps: seq<Step>, k: nat, op: nat, error: bool)
    requires CanRun(INITIAL, steps) && k < |steps|
  {
    && steps[k].SocketCompletes? && steps[k].error == error
    && StateAt(steps, k).tokens[steps[k].thread] == Outstanding(op)
  }

  /** Step `k` submits `op`. */
  predicate Submits(steps: seq<Step>, k: nat, op: nat)
    requires k < |steps|
  {
    steps[k].Receive? && Receives(steps[..k]) == op
  }

  /** Step `k` cancels `op`, which `close` took from the queue. */
  predicate Cancels(steps: seq<Step>, k: nat, op: nat)
    requires CanRun(INITIAL, steps) && k < |steps|
  {
    steps[k].CancelNext? && StateAt(steps, k).cancelling[0] == op
  }

  /** Step `k` is why `op` has this outcome.  A datagram: the socket answered without an error.  A socket
      error: it answered with one while the socket was open.  Closed: it did so after `close`, or `op` was
      cancelled, or submitted to a closed socket.  Not connected: `op` only wanted datagrams from the peer, and
      the open socket had none. */
  predicate Causes(steps: seq<Step>, k: nat, op: nat, outcome: Outcome)
    requires CanRun(INITIAL, steps) && k < |steps|
  {
    var closed := Close in steps[..k];
    match outcome
    case Datagram => Answers(steps, k, op, false)
    case SocketError => Answers(steps, k, op, true) && !closed
    case UdpClosed =>
      || (Answers(steps, k, op, true) && closed)
      || Cancels(steps, k, op)
      || (Submits(steps, k, op) && closed)
    case UdpNotConnected =>
      Submits(steps, k, op) && steps[k].kind == Connected && !closed && Connect !in steps[..k]
  }

  /** Over every run: an operation has completed with an outcome exactly when a step was its cause. */
  lemma {:induction false} OutcomeHasCause(steps: seq<Step>, op: nat, outcome: Outcome)
    requires CanRun(INITIAL, steps)
    ensures Completion(op, outcome) in After(INITIAL, steps).completed
            <==> exists k: nat :: k < |steps| && Causes(steps, k, op, outcome)
  {
    if steps == [] {
    } else {
      hide CanRun, After, Causes;
      var last := |steps| - 1;
      var before := steps[..last];
      assert steps == before + [steps[last]];
      LastStep(INITIAL, before, steps[last]);
      OutcomeHasCause(before, op, outcome);
      LastCauses(steps, op, outcome);
      forall k: nat | k < last ensures Causes(before, k, op, outcome) <==> Causes(steps, k, op, outcome) {
        SameCause(steps, before, k, op, outcome);
      }
    }
  }

  lemma SameCause(steps: seq<Step>, before: seq<Step>, k: nat, op: nat, outcome: Outcome)
    requires CanRun(INITIAL, steps) && CanRun(INITIAL, before) && before <= steps && k < |before|
    ensures Causes(before, k, op, outcome) <==> Causes(steps, k, op, outcome)
  {
    hide CanRun, After, Receives;
    assert before[..k] == steps[..k] && before[k] == steps[k];
  }

  /** The last step completes what it is the cause for. */
  lemma LastCauses(steps: seq<Step>, op: nat, outcome: Outcome)
    requires CanRun(INITIAL, steps) && steps != []
    ensures var last := |steps| - 1;
            var (s, s') := (StateAt(steps, last), After(INITIAL, steps));
            Completion(op, outcome) in s'.completed
            <==> Completion(op, outcome) in s.completed || Causes(steps, last, op, outcome)
  {
    hide CanRun, After, Receives;
    var last := |steps| - 1;
    PrefixRuns(steps, last);
    assert steps == steps[..last] + [steps[last]];
    LastStep(INITIAL, steps[..last], steps[last]);
    FlagsAreSteps(steps[..last]);
    StepCompletes(After(INITIAL, steps[..last]), steps[last], op, outcome);
    hide Apply, Enabled;
  }

  lemma StepCompletes(s: State, step: Step, op: nat, outcome: Outcome)
    requires Enabled(s, step)
    ensures Completion(op, outcome) in Apply(s, step).completed
            <==> Completion(op, outcome) in s.completed || Completes(s, step, op, outcome)
  {
    var c, s' := Completion(op, outcome), Apply(s, step);
    var done := s.completed;
    match step
    case Receive(_) =>
      assert s'.completed == done || s'.completed == done + [s'.completed[|done|]];
    case SocketCompletes(_, _) =>
      assert s'.completed == done + [s'.completed[|done|]];
    case CancelNext =>
      assert s'.completed == done + [s'.completed[|done|]];
    case _ =>
  }

  /** The causes, told from the state. */
  predicate Completes(s: State, step: Step, op: nat, outcome: Outcome)
    requires Enabled(s, step)
  {
    match step
    case Receive(kind) =>
      && op == s.submitted
      && ((outcome == UdpClosed && s.closing) ||
          (outcome == UdpNotConnected && !s.closing && kind == Connected && !s.connected))
    case SocketCompletes(i, error) =>
      && Outstanding(op) == s.tokens[i]
      && ((outcome == Datagram && !error) || (outcome == SocketError && error && !s.closing) ||
          (outcome == UdpClosed && error && s.closing))
    case CancelNext => outcome == UdpClosed && op == s.cancelling[0]
    case _ => false
  }

  /** What is cancelled was queued when the socket was closed. */
  lemma {:induction false} CancelledWasQueued(steps: seq<Step>, op: nat)
    requires CanRun(INITIAL, steps) && op in After(INITIAL, steps).cancelling
    ensures exists k: nat :: k < |steps| && steps[k] == Close && op in StateAt(steps, k).recvq
  {
    if steps != [] {
      hide CanRun, After, StateAt;
      var last := |steps| - 1;
      var before := steps[..last];
      assert steps == before + [steps[last]];
      LastStep(INITIAL, before, steps[last]);
      StateIs(steps, last);
      StepFlags(After(INITIAL, before), steps[last]);
      hide Apply, Enabled;
      if op in After(INITIAL, before).cancelling {
        CancelledWasQueued(before, op);
        var k: nat :| k < |before| && before[k] == Close && op in StateAt(before, k).recvq;
        StateIs(before, k);
        StateIs(steps, k);
        assert before[..k] == steps[..k];
      }
    }
  }

  lemma StateIs(steps: seq<Step>, k: nat)
    requires CanRun(INITIAL, steps) && k < |steps|
    ensures CanRun(INITIAL, steps[..k]) && StateAt(steps, k) == After(INITIAL, steps[..k])
  {
    PrefixRuns(steps, k);
  }
}
