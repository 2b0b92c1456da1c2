/** The receive queue of `UdpSocket::Impl` (`src/udp.cpp`) as a step system.  Threads interleave
    freely; each region under the mutex is one step, and so is each completion it posts.  Operations
    are numbered in the order in which they are submitted. */
module UdpReceive {
  import opened Bytes
  import opened Sequences

  datatype Kind = Connected | From

  datatype Outcome = Datagram | SocketError | UdpClosed | UdpNotConnected

  datatype Completion = Completion(op: nat, outcome: Outcome)

  /** A thread on the receive path: about to run `start_receive`, waiting for the socket with one
      operation, or about to decide whether to start again. */
  datatype Token = Starter | Outstanding(op: nat) | Deciding

  datatype State = State(
    // the fields guarded by the mutex
    recvq: seq<nat>,
    receiveInflight: bool,
    closing: bool,
    connected: bool,
    // the threads
    tokens: seq<Token>,
    cancelling: seq<nat>,
    // what has happened so far
    submitted: nat,
    queued: seq<nat>,
    served: seq<nat>,
    cancelled: seq<nat>,
    completed: seq<Completion>)

  const INITIAL := State([], false, false, false, [], [], 0, [], [], [], [])

  // ---------------------------------------------------------------------------------------
  // Steps
  // ---------------------------------------------------------------------------------------

  datatype Step =
    | Receive(kind: Kind)
    | Start(thread: nat)
    | SocketCompletes(thread: nat, error: bool)
    | Decide(thread: nat)
    | Close
    | CancelNext
    | Connect

  predicate Enabled(s: State, step: Step) {
    match step
    case Start(i) => i < |s.tokens| && s.tokens[i] == Starter
    case SocketCompletes(i, _) => i < |s.tokens| && s.tokens[i].Outstanding?
    case Decide(i) => i < |s.tokens| && s.tokens[i] == Deciding
    case CancelNext => s.cancelling != []
    case _ => true
  }

  function WithoutToken(tokens: seq<Token>, i: nat): seq<Token>
    requires i < |tokens|
  {
    tokens[..i] + tokens[i + 1..]
  }

  function Complete(s: State, op: nat, outcome: Outcome): State {
    s.(completed := s.completed + [Completion(op, outcome)])
  }

  /** The locked region of `async_receive` and `async_receive_from`. */
  function ReceiveStep(s: State, kind: Kind): State {
    var op := s.submitted;
    var s := s.(submitted := op + 1);
    if s.closing then Complete(s, op, UdpClosed)
    else if kind == Connected && !s.connected then Complete(s, op, UdpNotConnected)
    else
      s.(recvq := s.recvq + [op],
         queued := s.queued + [op],
         receiveInflight := true,
         tokens := if s.receiveInflight then s.tokens else s.tokens + [Starter])
  }

  /** The locked region of `start_receive`; behind it the operation is handed to the socket. */
  function StartStep(s: State, i: nat): State
    requires i < |s.tokens|
  {
    if s.closing || s.recvq == [] then
      s.(receiveInflight := false, tokens := WithoutToken(s.tokens, i))
    else
      s.(recvq := s.recvq[1..], tokens := s.tokens[i := Outstanding(s.recvq[0])])
  }

  /** The socket's completion handler up to the posted result. */
  function SocketStep(s: State, i: nat, error: bool): State
    requires i < |s.tokens| && s.tokens[i].Outstanding?
  {
    var op := s.tokens[i].op;
    var outcome := if !error then Datagram else if s.closing then UdpClosed else SocketError;
    Complete(s.(served := s.served + [op], tokens := s.tokens[i := Deciding]), op, outcome)
  }

  /** Its second locked region. */
  function DecideStep(s: State, i: nat): State
    requires i < |s.tokens|
  {
    if !s.closing && s.recvq != [] then s.(tokens := s.tokens[i := Starter])
    else s.(receiveInflight := false, tokens := WithoutToken(s.tokens, i))
  }

  /** The locked region of `close`. */
  function CloseStep(s: State): State {
    if s.closing then s else s.(closing := true, recvq := [], cancelling := s.recvq)
  }

  /** `complete_canceled` for the next operation that `close` took over. */
  function CancelStep(s: State): State
    requires s.cancelling != []
  {
    var op := s.cancelling[0];
    Complete(s.(cancelling := s.cancelling[1..], cancelled := s.cancelled + [op]), op, UdpClosed)
  }

  function Apply(s: State, step: Step): State
    requires Enabled(s, step)
  {
    match step
    case Receive(kind) => ReceiveStep(s, kind)
    case Start(i) => StartStep(s, i)
    case SocketCompletes(i, error) => SocketStep(s, i, error)
    case Decide(i) => DecideStep(s, i)
    case Close => CloseStep(s)
    case CancelNext => CancelStep(s)
    case Connect => s.(connected := true)
  }

  /** `steps` can be taken one after the other from `s`. */
  predicate CanRun(s: State, steps: seq<Step>)
    decreases |steps|
  {
    steps == [] || (Enabled(s, steps[0]) && CanRun(Apply(s, steps[0]), steps[1..]))
  }

  function After(s: State, steps: seq<Step>): State
    requires CanRun(s, steps)
    decreases |steps|
  {
    if steps == [] then s else After(Apply(s, steps[0]), steps[1..])
  }

  // ---------------------------------------------------------------------------------------
  // What every step keeps
  // ---------------------------------------------------------------------------------------

  /** The operation in a thread's hands. */
  function Held(tokens: seq<Token>): seq<nat> {
    if tokens == [] then []
    else (if tokens[0].Outstanding? then [tokens[0].op] else []) + Held(tokens[1..])
  }

  function Ops(completed: seq<Completion>): seq<nat> {
    if completed == [] then [] else Ops(completed[..|completed| - 1]) + [completed[|completed| - 1].op]
  }

  /** At most one thread is on the receive path, exactly when the flag says so, and whenever an open
      socket has operations queued. */
  predicate OneReceiver(s: State) {
    && |s.tokens| == (if s.receiveInflight then 1 else 0)
    && (!s.closing && s.recvq != [] ==> s.receiveInflight)
  }

  /** A closed socket has no queue; an open one has nothing to cancel. */
  predicate QueueOrCancel(s: State) {
    if s.closing then s.recvq == [] else s.cancelling == [] && s.cancelled == []
  }

  /** Operations leave the queue in the order in which they entered it: first those the socket has
      completed, then the one in hand, then those cancelled or still waiting. */
  predicate InOrder(s: State) {
    s.queued == s.served + Held(s.tokens) + Behind(s)
  }

  /** The operations that were behind the one in hand. */
  function Behind(s: State): seq<nat> {
    if s.closing then s.cancelled + s.cancelling else s.recvq
  }

  /** Every submitted operation is in one place, once: queued, in hand, about to be cancelled, or
      completed. */
  predicate Conserved(s: State) {
    multiset(Numbers(s.submitted)) ==
    multiset(s.recvq) + multiset(Held(s.tokens)) + multiset(s.cancelling) + multiset(Ops(s.completed))
  }

  predicate CancelledAsClosed(s: State) {
    forall op :: op in s.cancelled ==> Completion(op, UdpClosed) in s.completed
  }

  predicate Inv(s: State) {
    OneReceiver(s) && QueueOrCancel(s) && InOrder(s) && Conserved(s) && CancelledAsClosed(s)
  }

  lemma OpsSnoc(completed: seq<Completion>, c: Completion)
    ensures Ops(completed + [c]) == Ops(completed) + [c.op]
  {
    assert (completed + [c])[..|completed|] == completed;
  }

  lemma HeldOne(t: Token)
    ensures Held([t]) == if t.Outstanding? then [t.op] else []
    ensures Held([]) == []
  {
    assert [t][1..] == [];
  }

  lemma OnlyToken(tokens: seq<Token>, i: nat)
    requires |tokens| <= 1 && i < |tokens|
    ensures i == 0 && tokens == [tokens[0]] && WithoutToken(tokens, i) == []
    ensures forall t :: tokens[i := t] == [t]
  {
  }

  lemma StarterHoldsNothing(s: State)
    requires OneReceiver(s) && !s.receiveInflight
    ensures Held(s.tokens + [Starter]) == Held(s.tokens) == []
  {
    HeldOne(Starter);
    assert s.tokens + [Starter] == [Starter];
  }

  lemma ReceiveConserves(s: State, kind: Kind)
    requires OneReceiver(s) && Conserved(s)
    ensures Conserved(ReceiveStep(s, kind))
  {
    hide Held, Ops, Numbers;
    NumbersSnoc(s.submitted);
    OpsSnoc(s.completed, Completion(s.submitted, UdpClosed));
    OpsSnoc(s.completed, Completion(s.submitted, UdpNotConnected));
    if !s.receiveInflight { StarterHoldsNothing(s); }
  }

  lemma ReceiveKeepsInv(s: State, kind: Kind)
    requires Inv(s)
    ensures Inv(ReceiveStep(s, kind))
  {
    hide Held, Ops, Numbers, Conserved;
    ReceiveConserves(s, kind);
    if !s.receiveInflight { StarterHoldsNothing(s); }
    Associate(s.served + Held(s.tokens), s.recvq, [s.submitted]);
  }

  lemma StartKeepsInv(s: State, i: nat)
    requires Inv(s) && i < |s.tokens| && s.tokens[i] == Starter
    ensures Inv(StartStep(s, i))
  {
    hide Held, Ops, Numbers, Conserved, InOrder;
    StartConserves(s, i);
    StartKeepsOrder(s, i);
    OnlyToken(s.tokens, i);
  }

  lemma StartKeepsOrder(s: State, i: nat)
    requires OneReceiver(s) && InOrder(s) && i < |s.tokens| && s.tokens[i] == Starter
    ensures InOrder(StartStep(s, i))
  {
    hide Held;
    OnlyToken(s.tokens, i);
    HeldOne(Starter);
    if !s.closing && s.recvq != [] {
      var op, rest := s.recvq[0], s.recvq[1..];
      HeldOne(Outstanding(op));
      Associate(s.served, [op], rest);
      assert s.recvq == [op] + rest && s.served + [] == s.served;
    }
  }

  lemma StartConserves(s: State, i: nat)
    requires OneReceiver(s) && Conserved(s) && i < |s.tokens| && s.tokens[i] == Starter
    ensures Conserved(StartStep(s, i))
  {
    hide Held, Ops, Numbers;
    OnlyToken(s.tokens, i);
    HeldOne(Starter);
    if !s.closing && s.recvq != [] {
      HeldOne(Outstanding(s.recvq[0]));
      assert s.recvq == [s.recvq[0]] + s.recvq[1..];
    }
  }

  lemma SocketKeepsInv(s: State, i: nat, error: bool)
    requires Inv(s) && i < |s.tokens| && s.tokens[i].Outstanding?
    ensures Inv(SocketStep(s, i, error))
  {
    hide Held, Ops, Numbers, Conserved;
    var op := s.tokens[i].op;
    SocketConserves(s, i, error);
    OnlyToken(s.tokens, i);
    HeldOne(s.tokens[i]);
    HeldOne(Deciding);
    assert s.served + [op] + [] == s.served + [op];
  }

  lemma SocketConserves(s: State, i: nat, error: bool)
    requires OneReceiver(s) && Conserved(s) && i < |s.tokens| && s.tokens[i].Outstanding?
    ensures Conserved(SocketStep(s, i, error))
  {
    hide Held, Ops, Numbers;
    OnlyToken(s.tokens, i);
    HeldOne(s.tokens[i]);
    HeldOne(Deciding);
    OpsSnoc(s.completed, SocketStep(s, i, error).completed[|s.completed|]);
  }

  lemma DecideKeepsInv(s: State, i: nat)
    requires Inv(s) && i < |s.tokens| && s.tokens[i] == Deciding
    ensures Inv(DecideStep(s, i))
  {
    hide Held, Ops, Numbers;
    OnlyToken(s.tokens, i);
    HeldOne(Deciding);
    HeldOne(Starter);
  }

  lemma CloseKeepsInv(s: State)
    requires Inv(s)
    ensures Inv(CloseStep(s))
  {
    hide Held, Ops, Numbers;
    assert [] + s.recvq == s.recvq;
  }

  lemma CancelKeepsInv(s: State)
    requires Inv(s) && s.cancelling != []
    ensures Inv(CancelStep(s))
  {
    hide Held, Ops, Numbers;
    var op, rest, s' := s.cancelling[0], s.cancelling[1..], CancelStep(s);
    OpsSnoc(s.completed, Completion(op, UdpClosed));
    assert s.cancelling == [op] + rest;
    assert s.cancelled + s.cancelling == s.cancelled + [op] + rest;
  }

  lemma InvOneReceiver(s: State)
    requires Inv(s)
    ensures OneReceiver(s)
  {
  }

  lemma StepKeepsInv(s: State, step: Step)
    requires Inv(s) && Enabled(s, step)
    ensures Inv(Apply(s, step)) && (s.closing ==> Apply(s, step).closing)
  {
    hide Inv;
    match step
    case Receive(kind) => ReceiveKeepsInv(s, kind);
    case Start(i) => StartKeepsInv(s, i);
    case SocketCompletes(i, error) => SocketKeepsInv(s, i, error);
    case Decide(i) => DecideKeepsInv(s, i);
    case Close => CloseKeepsInv(s);
    case CancelNext => CancelKeepsInv(s);
    case Connect => ConnectKeepsInv(s);
  }

  lemma ConnectKeepsInv(s: State)
    requires Inv(s)
    ensures Inv(s.(connected := true))
  {
  }

  lemma {:induction false} RunKeepsInv(s: State, steps: seq<Step>)
    requires Inv(s) && CanRun(s, steps)
    ensures Inv(After(s, steps)) && (s.closing ==> After(s, steps).closing)
    decreases |steps|
  {
    hide Inv;
    if steps != [] {
      StepKeepsInv(s, steps[0]);
      RunKeepsInv(Apply(s, steps[0]), steps[1..]);
    }
  }

  // ---------------------------------------------------------------------------------------
  // Whole runs
  // ---------------------------------------------------------------------------------------

  lemma InitialInv()
    ensures Inv(INITIAL)
  {
  }

  /** Over every interleaving: the flag, the single receiver, the order and the conservation of
      operations hold in every state. */
  lemma EveryRun(steps: seq<Step>)
    requires CanRun(INITIAL, steps)
    ensures Inv(After(INITIAL, steps))
  {
    InitialInv();
    RunKeepsInv(INITIAL, steps);
  }

  /** Operations meet the socket's completions in the order in which they were queued. */
  lemma ServedInOrder(steps: seq<Step>)
    requires CanRun(INITIAL, steps)
    ensures var s := After(INITIAL, steps); s.served <= s.queued
  {
    EveryRun(steps);
  }

  /** No operation completes twice, and none completes that was not submitted. */
  lemma CompletedAtMostOnce(steps: seq<Step>, op: nat)
    requires CanRun(INITIAL, steps)
    ensures var s := After(INITIAL, steps);
            && multiset(Ops(s.completed))[op] <= (if op < s.submitted then 1 else 0)
            && (op < s.submitted && multiset(Ops(s.completed))[op] == 0 ==>
                  op in s.recvq || op in Held(s.tokens) || op in s.cancelling)
  {
    hide Held, Ops, Numbers;
    EveryRun(steps);
    NumbersOnce(After(INITIAL, steps).submitted, op);
  }

  /** From a closed socket on, the queue stays empty whatever happens. */
  lemma ClosedStaysEmpty(before: seq<Step>, steps: seq<Step>)
    requires CanRun(INITIAL, before) && After(INITIAL, before).closing && CanRun(After(INITIAL, before), steps)
    ensures var s := After(After(INITIAL, before), steps); s.closing && s.recvq == []
  {
    EveryRun(before);
    RunKeepsInv(After(INITIAL, before), steps);
  }

  lemma {:induction false} CancellingGoesOn(s: State, steps: seq<Step>, op: nat)
    requires Inv(s) && s.closing && CanRun(s, steps) && (op in s.cancelling || op in s.cancelled)
    ensures var s' := After(s, steps); op in s'.cancelling || op in s'.cancelled
    decreases |steps|
  {
    hide Inv;
    if steps != [] {
      StepKeepsInv(s, steps[0]);
      if steps[0].CancelNext? { assert s.cancelling == [s.cancelling[0]] + s.cancelling[1..]; }
      CancellingGoesOn(Apply(s, steps[0]), steps[1..], op);
    }
  }

  /** An operation that is queued when the socket is closed completes with `udp_closed`, or is about
      to, whatever the threads do afterwards. */
  lemma QueuedAtCloseIsClosed(before: seq<Step>, steps: seq<Step>, op: nat)
    requires CanRun(INITIAL, before) && op in After(INITIAL, before).recvq
    requires CanRun(CloseStep(After(INITIAL, before)), steps)
    ensures var s := After(CloseStep(After(INITIAL, before)), steps);
            op in s.cancelling || Completion(op, UdpClosed) in s.completed
  {
    var s := After(INITIAL, before);
    EveryRun(before);
    CloseKeepsInv(s);
    CancellingGoesOn(CloseStep(s), steps, op);
    RunKeepsInv(CloseStep(s), steps);
  }

  // ---------------------------------------------------------------------------------------
  // No stuck state
  // ---------------------------------------------------------------------------------------

  /** A step of the receive path itself: no new operation, no closing. */
  predicate Internal(step: Step) {
    step.Start? || step.SocketCompletes? || step.Decide? || step.CancelNext?
  }

  function Rank(t: Token): nat {
    match t
    case Starter => 1
    case Outstanding(_) => 3
    case Deciding => 2
  }

  function Work(s: State): nat {
    4 * |s.recvq| + |s.cancelling| + (if s.tokens == [] then 0 else Rank(s.tokens[0]))
  }

  /** Every such step brings the end nearer. */
  lemma InternalWorks(s: State, step: Step)
    requires Inv(s) && Enabled(s, step) && Internal(step)
    ensures Work(Apply(s, step)) < Work(s)
  {
    hide Inv;
    InvOneReceiver(s);
    match step
    case Start(i) => OnlyToken(s.tokens, i);
    case SocketCompletes(i, _) => OnlyToken(s.tokens, i);
    case Decide(i) => OnlyToken(s.tokens, i);
    case CancelNext =>
  }

  predicate AllInternal(steps: seq<Step>) {
    forall step :: step in steps ==> Internal(step)
  }

  predicate AllCompleted(s: State) {
    multiset(Ops(s.completed)) == multiset(Numbers(s.submitted))
  }

  /** No thread is on the receive path or cancelling. */
  ghost predicate Quiet(s: State) {
    forall step :: Internal(step) ==> !Enabled(s, step)
  }

  lemma QuietIsDone(s: State)
    requires Inv(s) && Quiet(s)
    ensures AllCompleted(s)
  {
    hide Held, Ops, Numbers, InOrder, CancelledAsClosed;
    assert !Enabled(s, Start(0)) && !Enabled(s, SocketCompletes(0, false)) && !Enabled(s, Decide(0));
    assert !Enabled(s, CancelNext) && s.tokens == [];
    HeldOne(Starter);
  }

  lemma {:induction false} RunWorks(s: State, steps: seq<Step>)
    requires Inv(s) && CanRun(s, steps) && AllInternal(steps)
    ensures |steps| + Work(After(s, steps)) <= Work(s)
    decreases |steps|
  {
    hide Apply, Enabled, Work, Inv;
    if steps != [] {
      InternalWorks(s, steps[0]);
      StepKeepsInv(s, steps[0]);
      RunWorks(Apply(s, steps[0]), steps[1..]);
    }
  }

  /** From every reachable state, whatever the socket answers and whichever thread moves, the receive
      path comes to rest after a bounded number of steps, and where it rests every submitted operation
      has completed exactly once. */
  lemma EveryRunFinishes(s: State, steps: seq<Step>)
    requires Inv(s) && CanRun(s, steps) && AllInternal(steps)
    ensures |steps| <= Work(s)
    ensures Quiet(After(s, steps)) ==> AllCompleted(After(s, steps))
  {
    hide Inv, Quiet, AllCompleted, CanRun, After, Work;
    RunWorks(s, steps);
    RunKeepsInv(s, steps);
    if Quiet(After(s, steps)) { QuietIsDone(After(s, steps)); }
  }

  /** And some such run leads there. */
  lemma {:induction false} NeverStuck(s: State)
    requires Inv(s)
    ensures exists steps :: CanRun(s, steps) && AllInternal(steps) && AllCompleted(After(s, steps))
    decreases Work(s)
  {
    hide Inv, Apply, AllCompleted, Enabled, Work;
    if Quiet(s) {
      QuietIsDone(s);
      assert CanRun(s, []) && AllInternal([]) && AllCompleted(After(s, []));
    } else {
      var step :| Internal(step) && Enabled(s, step);
      InternalWorks(s, step);
      StepKeepsInv(s, step);
      var s' := Apply(s, step);
      NeverStuck(s');
      var rest :| CanRun(s', rest) && AllInternal(rest) && AllCompleted(After(s', rest));
      var steps := [step] + rest;
      assert steps[0] == step && steps[1..] == rest;
      assert CanRun(s, steps) && AllInternal(steps) && AllCompleted(After(s, steps));
    }
  }

  // ---------------------------------------------------------------------------------------
  // The socket object
  // ---------------------------------------------------------------------------------------

  /** The guarded fields, changed in place by one region at a time; the ghost fields follow the
      threads and what has happened. */
  class Impl {
    var recvq: seq<nat>
    var receiveInflight: bool
    var closing: bool
    var connected: bool

    ghost var tokens: seq<Token>
    ghost var cancelling: seq<nat>
    ghost var submitted: nat
    ghost var queued: seq<nat>
    ghost var served: seq<nat>
    ghost var cancelled: seq<nat>
    ghost var completed: seq<Completion>

    ghost function View(): State
      reads this
    {
      State(recvq, receiveInflight, closing, connected, tokens, cancelling, submitted,
            queued, served, cancelled, completed)
    }

    constructor ()
      ensures View() == INITIAL && Inv(View())
    {
      recvq, receiveInflight, closing, connected := [], false, false, false;
      tokens, cancelling, submitted := [], [], 0;
      queued, served, cancelled, completed := [], [], [], [];
      new;
      InitialInv();
    }

    /** `async_receive` and `async_receive_from`: what the caller does next is told by `needStart`. */
    method AsyncReceive(kind: Kind, op: nat) returns (needStart: bool)
      requires op == submitted && Inv(View())
      modifies this
      ensures View() == ReceiveStep(old(View()), kind) && Inv(View())
      ensures needStart <==> Starter in tokens && |tokens| > |old(tokens)|
    {
      hide Inv;
      ReceiveKeepsInv(View(), kind);
      needStart := false;
      submitted := submitted + 1;
      if closing {
        completed := completed + [Completion(op, UdpClosed)];
        return;
      }
      if kind == Connected && !connected {
        completed := completed + [Completion(op, UdpNotConnected)];
        return;
      }
      recvq := recvq + [op];
      queued := queued + [op];
      needStart := !receiveInflight;
      if needStart {
        receiveInflight := true;
        tokens := tokens + [Starter];
      }
    }

    /** The locked region of `start_receive`: the operation to hand to the socket, if any. */
    method StartReceive(ghost thread: nat) returns (op: Option<nat>)
      requires Inv(View()) && thread < |tokens| && tokens[thread] == Starter
      modifies this
      ensures View() == StartStep(old(View()), thread) && Inv(View())
      ensures op.None? <==> tokens == []
      ensures op.Some? ==> tokens == [Outstanding(op.value)] && [op.value] + recvq == old(recvq)
    {
      hide Inv;
      StartKeepsInv(View(), thread);
      InvOneReceiver(View());
      OnlyToken(tokens, thread);
      if closing {
        receiveInflight := false;
        tokens := WithoutToken(tokens, thread);
        return None;
      }
      if recvq == [] {
        receiveInflight := false;
        tokens := WithoutToken(tokens, thread);
        return None;
      }
      op := Some(recvq[0]);
      recvq := recvq[1..];
      tokens := tokens[thread := Outstanding(op.value)];
    }

    /** The socket's completion handler up to the posted result, which it returns. */
    method OnReceived(ghost thread: nat, op: nat, error: bool) returns (outcome: Outcome)
      requires Inv(View()) && thread < |tokens| && tokens[thread] == Outstanding(op)
      modifies this
      ensures View() == SocketStep(old(View()), thread, error) && Inv(View())
      ensures completed == old(completed) + [Completion(op, outcome)]
    {
      hide Inv;
      SocketKeepsInv(View(), thread, error);
      outcome := if !error then Datagram else if closing then UdpClosed else SocketError;
      served := served + [op];
      tokens := tokens[thread := Deciding];
      completed := completed + [Completion(op, outcome)];
    }

    /** Its second locked region: whether to call `start_receive` again. */
    method DecideNext(ghost thread: nat) returns (startNext: bool)
      requires Inv(View()) && thread < |tokens| && tokens[thread] == Deciding
      modifies this
      ensures View() == DecideStep(old(View()), thread) && Inv(View())
      ensures startNext <==> receiveInflight
    {
      hide Inv;
      DecideKeepsInv(View(), thread);
      InvOneReceiver(View());
      startNext := !closing && recvq != [];
      if startNext {
        tokens := tokens[thread := Starter];
      } else {
        receiveInflight := false;
        tokens := WithoutToken(tokens, thread);
      }
    }

    /** `close`: the operations it takes over are cancelled outside the lock, in order. */
    method Close() returns (pending: seq<nat>)
      requires Inv(View())
      modifies this
      ensures View() == CloseStep(old(View())) && Inv(View())
      ensures pending == if old(closing) then [] else old(recvq)
    {
      hide Inv;
      CloseKeepsInv(View());
      if closing { return []; }
      closing := true;
      pending, recvq := recvq, [];
      cancelling := pending;
    }
  }
}
