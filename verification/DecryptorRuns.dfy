/** Whole runs of a decryptor: managers come and go while frames arrive late, twice, out of order or
    not at all.  Every manager that ever existed is kept here, with the frames it has tried. */
module DecryptorRuns {
  import opened Bytes
  import opened Crypto
  import opened InboundFrame
  import opened CipherManager
  import opened Acceptance
  import opened Decryptor

  datatype Track = Track(ratchet: Ratchet, created: int, manager: Manager, tried: seq<Delivery>)

  /** A frame handed to the caller: by which manager, and which of the frames it tried. */
  datatype Receipt = Receipt(track: nat, at: nat)

  /** The tracks from `first` on are in the queue. */
  datatype State = State(tracks: seq<Track>, first: nat, receipts: seq<Receipt>)

  const INITIAL := State([], 0, [])

  datatype Event =
    | Arrive(frame: Parsed, now: int, capacity: nat)
    | AddManager(ratchet: Ratchet, now: int)
    | PopFront

  predicate Enabled(s: State, e: Event) {
    && s.first <= |s.tracks|
    && (e.Arrive? ==> e.frame.nonce < TWO_32)
    && (e.PopFront? ==> s.first < |s.tracks|)
  }

  function Managers(ts: seq<Track>): (ms: seq<Manager>)
    ensures |ms| == |ts| && forall k :: 0 <= k < |ts| ==> ms[k] == ts[k].manager
  {
    seq(|ts|, k requires 0 <= k < |ts| => ts[k].manager)
  }

  function Ratchets(ts: seq<Track>): (r: seq<Ratchet>)
    ensures |r| == |ts| && forall k :: 0 <= k < |ts| ==> r[k] == ts[k].ratchet
  {
    if ts == [] then [] else [ts[0].ratchet] + Ratchets(ts[1..])
  }

  /** The queue position of the manager that takes the frame, or -1. */
  function TakerOf(aead: Aead, alive: seq<Track>, e: Event): (i: int)
    requires e.Arrive? && e.frame.nonce < TWO_32
    ensures -1 <= i < |alive|
  {
    Taker(aead, Ratchets(alive), Managers(alive), |alive|, e.frame, e.now, e.capacity)
  }

  function ArriveAt(aead: Aead, alive: seq<Track>, e: Event): (r: seq<Track>)
    requires e.Arrive? && e.frame.nonce < TWO_32
    ensures |r| == |alive|
  {
    var ms := TryManagers(aead, Ratchets(alive), Managers(alive), |alive|, e.frame, e.now, e.capacity).0;
    var i := TakerOf(aead, alive, e);
    seq(|alive|, k requires 0 <= k < |alive| =>
      alive[k].(manager := ms[k],
                tried := if k >= i then alive[k].tried + [Delivery(e.frame, e.now)] else alive[k].tried))
  }

  function Apply(aead: Aead, s: State, e: Event): State
    requires Enabled(s, e)
  {
    match e
    case AddManager(ratchet, now) => s.(tracks := s.tracks + [Track(ratchet, now, NewManager(now), [])])
    case PopFront => s.(first := s.first + 1)
    case Arrive(_, _, _) =>
      var alive := s.tracks[s.first..];
      var i := TakerOf(aead, alive, e);
      State(s.tracks[..s.first] + ArriveAt(aead, alive, e), s.first,
            s.receipts + if i < 0 then [] else [Receipt(s.first + i, |alive[i].tried|)])
  }

  predicate CanRun(aead: Aead, s: State, events: seq<Event>)
    decreases |events|
  {
    events == [] || (Enabled(s, events[0]) && CanRun(aead, Apply(aead, s, events[0]), events[1..]))
  }

  function StateAfter(aead: Aead, s: State, events: seq<Event>): State
    requires CanRun(aead, s, events)
    decreases |events|
  {
    if events == [] then s else StateAfter(aead, Apply(aead, s, events[0]), events[1..])
  }

  // ---------------------------------------------------------------------------------------
  // What every event keeps
  // ---------------------------------------------------------------------------------------

  function ReceiverOf(aead: Aead, t: Track): Receiver {
    Receiver(aead, t.ratchet, t.created)
  }

  /** A manager is where the frames it has tried have brought it. */
  ghost predicate Tracked(aead: Aead, t: Track) {
    Possible(ReceiverOf(aead, t), t.tried) && t.manager == After(ReceiverOf(aead, t), t.tried)
  }

  ghost predicate Accepts(aead: Aead, t: Track, at: nat) {
    at < |t.tried| && Possible(ReceiverOf(aead, t), t.tried) && Accepted(ReceiverOf(aead, t), t.tried, at)
  }

  ghost predicate Recorded(aead: Aead, tracks: seq<Track>, r: Receipt) {
    r.track < |tracks| && Accepts(aead, tracks[r.track], r.at)
  }

  /** Of two receipts from one manager the later one is for a frame tried later. */
  predicate Ascending(receipts: seq<Receipt>) {
    forall i, j :: 0 <= i < j < |receipts| && receipts[i].track == receipts[j].track ==> receipts[i].at < receipts[j].at
  }

  ghost predicate Inv(aead: Aead, s: State) {
    && s.first <= |s.tracks|
    && (forall t :: t in s.tracks ==> Tracked(aead, t))
    && (forall r :: r in s.receipts ==> Recorded(aead, s.tracks, r))
    && Ascending(s.receipts)
  }

  /** `t'` is `t` after possibly more tries. */
  ghost predicate Grown(t: Track, t': Track) {
    t'.ratchet == t.ratchet && t'.created == t.created && t.tried <= t'.tried
  }

  /** A track that tries one more frame stays tracked, and the new frame is accepted exactly when the
      manager accepts it. */
  lemma TryOneMore(aead: Aead, t: Track, d: Delivery)
    requires Tracked(aead, t) && d.frame.nonce < TWO_32
    ensures var (m, plaintext) := Attempt(t.manager, aead, t.ratchet, d.frame, d.now);
            var t' := t.(manager := m, tried := t.tried + [d]);
            Tracked(aead, t') && Grown(t, t') && (Accepts(aead, t', |t.tried|) <==> plaintext.Some?)
  {
    hide Attempt;
    var more := t.tried + [d];
    assert more[..|t.tried|] == t.tried;
  }

  lemma AcceptsGrown(aead: Aead, t: Track, t': Track, at: nat)
    requires Grown(t, t') && Possible(ReceiverOf(aead, t'), t'.tried)
    ensures Accepts(aead, t, at) ==> Accepts(aead, t', at)
  {
    hide Attempt, After;
    if Accepts(aead, t, at) { assert t'.tried[..at] == t.tried[..at]; }
  }

  lemma ArriveTracks(aead: Aead, alive: seq<Track>, e: Event, k: nat)
    requires e.Arrive? && e.frame.nonce < TWO_32 && k < |alive| && Tracked(aead, alive[k])
    ensures var (t, i) := (ArriveAt(aead, alive, e)[k], TakerOf(aead, alive, e));
            && Tracked(aead, t) && Grown(alive[k], t)
            && (k == i ==> Accepts(aead, t, |alive[k].tried|))
  {
    hide Attempt, After, Possible, Writable, TryManagers, Taker, Tracked, Accepts, Grown;
    NewestTakes(aead, Ratchets(alive), Managers(alive), |alive|, e.frame, e.now, e.capacity);
    var i := TakerOf(aead, alive, e);
    if k >= i {
      TryOneMore(aead, alive[k], Delivery(e.frame, e.now));
    } else {
      SameTrack(alive[k], ArriveAt(aead, alive, e)[k]);
    }
  }

  lemma SameTrack(t: Track, t': Track)
    requires t == t'
    ensures Grown(t, t')
  {
  }

  lemma TrackAfter(aead: Aead, s: State, e: Event, k: nat)
    requires Inv(aead, s) && Enabled(s, e) && e.Arrive? && k < |s.tracks|
    ensures var (ts, i) := (Apply(aead, s, e).tracks, TakerOf(aead, s.tracks[s.first..], e));
            && |ts| == |s.tracks| && Tracked(aead, ts[k]) && Grown(s.tracks[k], ts[k])
            && (i >= 0 && k == s.first + i ==> Accepts(aead, ts[k], |s.tracks[k].tried|))
  {
    hide Tracked, Accepts, Grown, ArriveAt, Taker, Recorded, Ascending;
    var alive := s.tracks[s.first..];
    assert s.tracks[k] in s.tracks;
    if k >= s.first {
      assert alive[k - s.first] == s.tracks[k];
      ArriveTracks(aead, alive, e, k - s.first);
    } else {
      SameTrack(s.tracks[k], Apply(aead, s, e).tracks[k]);
    }
  }

  lemma TrackedIsPossible(aead: Aead, t: Track)
    requires Tracked(aead, t)
    ensures Possible(ReceiverOf(aead, t), t.tried)
  {
  }

  lemma AcceptsInside(aead: Aead, t: Track, at: nat)
    requires Accepts(aead, t, at)
    ensures at < |t.tried|
  {
  }

  lemma ArriveKeepsReceipts(aead: Aead, s: State, e: Event, r: Receipt)
    requires Inv(aead, s) && Enabled(s, e) && e.Arrive? && r in s.receipts
    ensures Recorded(aead, Apply(aead, s, e).tracks, r) && r.track < |s.tracks| && r.at < |s.tracks[r.track].tried|
  {
    assert Recorded(aead, s.tracks, r);
    TrackAfter(aead, s, e, r.track);
    hide Tracked, Accepts, Grown, Inv, Apply, Possible;
    var t, t' := s.tracks[r.track], Apply(aead, s, e).tracks[r.track];
    TrackedIsPossible(aead, t');
    AcceptsInside(aead, t, r.at);
    AcceptsGrown(aead, t, t', r.at);
  }

  lemma ArriveKeepsInv(aead: Aead, s: State, e: Event)
    requires Inv(aead, s) && Enabled(s, e) && e.Arrive?
    ensures Inv(aead, Apply(aead, s, e))
  {
    hide Tracked, Accepts, Grown, ArriveAt, TakerOf, Recorded, Ascending;
    var i, s' := TakerOf(aead, s.tracks[s.first..], e), Apply(aead, s, e);
    ArriveKeepsTracked(aead, s, e);
    forall r | r in s.receipts
      ensures Recorded(aead, s'.tracks, r) && r.track < |s.tracks| && r.at < |s.tracks[r.track].tried| {
      ArriveKeepsReceipts(aead, s, e, r);
    }
    if i >= 0 {
      TrackAfter(aead, s, e, s.first + i);
      NewReceipt(aead, s, s'.tracks, Receipt(s.first + i, |s.tracks[s.first + i].tried|));
    } else {
      assert s.receipts + [] == s.receipts;
    }
  }

  lemma ArriveKeepsTracked(aead: Aead, s: State, e: Event)
    requires Inv(aead, s) && Enabled(s, e) && e.Arrive?
    ensures forall t :: t in Apply(aead, s, e).tracks ==> Tracked(aead, t)
  {
    hide Tracked, Accepts, Grown, Inv, ArriveAt, TakerOf;
    var ts := Apply(aead, s, e).tracks;
    forall t | t in ts ensures Tracked(aead, t) {
      var k :| 0 <= k < |ts| && ts[k] == t;
      TrackAfter(aead, s, e, k);
    }
  }

  lemma NewReceipt(aead: Aead, s: State, tracks: seq<Track>, r: Receipt)
    requires Ascending(s.receipts) && r.track < |tracks| && Accepts(aead, tracks[r.track], r.at)
    requires forall q :: q in s.receipts && q.track == r.track ==> q.at < r.at
    ensures Ascending(s.receipts + [r]) && Recorded(aead, tracks, r)
  {
  }

  lemma AddKeepsInv(aead: Aead, s: State, e: Event)
    requires Inv(aead, s) && Enabled(s, e) && !e.Arrive?
    ensures Inv(aead, Apply(aead, s, e))
  {
    hide Accepts;
    if e.AddManager? {
      var t := Track(e.ratchet, e.now, NewManager(e.now), []);
      assert Tracked(aead, t);
      forall r | r in s.receipts ensures Recorded(aead, s.tracks + [t], r) {
        assert Recorded(aead, s.tracks, r);
      }
    }
  }

  lemma {:induction false} RunKeepsInv(aead: Aead, s: State, events: seq<Event>)
    requires Inv(aead, s) && CanRun(aead, s, events)
    ensures Inv(aead, StateAfter(aead, s, events))
    decreases |events|
  {
    hide Inv, Apply, Enabled;
    if events != [] {
      if events[0].Arrive? {
        ArriveKeepsInv(aead, s, events[0]);
      } else {
        AddKeepsInv(aead, s, events[0]);
      }
      RunKeepsInv(aead, Apply(aead, s, events[0]), events[1..]);
    }
  }

  /** Over every run of a decryptor, no nonce is handed to the caller twice by the same manager while
      that manager is young. */
  lemma HandedOutOnce(aead: Aead, events: seq<Event>, i: nat, j: nat)
    requires CanRun(aead, INITIAL, events)
    requires var rs := StateAfter(aead, INITIAL, events).receipts; i < j < |rs| && rs[i].track == rs[j].track
    ensures var s := StateAfter(aead, INITIAL, events);
            var (a, b) := (s.receipts[i], s.receipts[j]);
            && a.track < |s.tracks| && a.at < b.at < |s.tracks[a.track].tried|
            && var t := s.tracks[a.track];
               var (d, d') := (t.tried[a.at], t.tried[b.at]);
               Young(t.created, d.now) && Young(t.created, d'.now) ==> d.frame.nonce != d'.frame.nonce
  {
    hide StateAfter, CanRun, Young, Possible, Accepted, Tracked;
    assert Inv(aead, INITIAL);
    RunKeepsInv(aead, INITIAL, events);
    var s := StateAfter(aead, INITIAL, events);
    var (a, b) := (s.receipts[i], s.receipts[j]);
    assert Recorded(aead, s.tracks, a) && Recorded(aead, s.tracks, b);
    var t := s.tracks[a.track];
    if Young(t.created, t.tried[a.at].now) && Young(t.created, t.tried[b.at].now) {
      NonceAtMostOnce(ReceiverOf(aead, t), t.tried, a.at, b.at);
    }
  }

  // ---------------------------------------------------------------------------------------
  // The object
  // ---------------------------------------------------------------------------------------

  function Pops(n: nat): seq<Event> {
    if n == 0 then [] else [PopFront] + Pops(n - 1)
  }

  /** What one call of `decrypt` is to the queue: the expired managers go, then the frame, if it is one,
      arrives. */
  function CallEvents(popped: nat, v: Verdict, now: int, capacity: nat): seq<Event> {
    Pops(popped) + (if v.Try? then [Arrive(v.frame, now, capacity)] else [])
  }

  lemma {:induction false} PopsThen(aead: Aead, s: State, n: nat, rest: seq<Event>)
    requires s.first + n <= |s.tracks| && CanRun(aead, s.(first := s.first + n), rest)
    ensures CanRun(aead, s, Pops(n) + rest)
    ensures StateAfter(aead, s, Pops(n) + rest) == StateAfter(aead, s.(first := s.first + n), rest)
    decreases n
  {
    hide CanRun, StateAfter, Pops;
    PopsUnfold(n, rest);
    if n > 0 {
      var next := s.(first := s.first + 1);
      assert next.(first := next.first + (n - 1)) == s.(first := s.first + n);
      PopsThen(aead, next, n - 1, rest);
      PopThen(aead, s, Pops(n) + rest);
    }
  }

  lemma PopsUnfold(n: nat, rest: seq<Event>)
    ensures n == 0 ==> Pops(n) + rest == rest
    ensures n > 0 ==>
              && Pops(n) + rest != [] && (Pops(n) + rest)[0] == PopFront
              && (Pops(n) + rest)[1..] == Pops(n - 1) + rest
  {
  }

  lemma PopThen(aead: Aead, s: State, events: seq<Event>)
    requires events != [] && events[0] == PopFront && s.first < |s.tracks|
    requires CanRun(aead, s.(first := s.first + 1), events[1..])
    ensures CanRun(aead, s, events)
    ensures StateAfter(aead, s, events) == StateAfter(aead, s.(first := s.first + 1), events[1..])
  {
    hide ArriveAt;
  }

  lemma ArriveOnce(aead: Aead, s: State, e: Event)
    requires Enabled(s, e) && e.Arrive?
    ensures CanRun(aead, s, [e]) && StateAfter(aead, s, [e]) == Apply(aead, s, e)
  {
    hide Apply;
    assert [e][1..] == [];
  }

  /** The tracks of the managers in the queue. */
  function Alive(s: State): seq<Track>
    requires s.first <= |s.tracks|
  {
    s.tracks[s.first..]
  }

  /** The answer to a call is that run: the managers are left as it leaves them, and there is one receipt
      more exactly when a frame was decrypted. */
  lemma CallIsRun(aead: Aead, s: State, popped: nat, v: Verdict, frame: seq<byte>, now: int, ms': seq<Manager>,
                  r: DecryptResult, before: seq<byte>, after: seq<byte>)
    requires s.first + popped <= |s.tracks| && (v.Try? ==> v.frame.nonce < TWO_32)
    requires var alive := s.tracks[s.first + popped..];
             Answers(v, frame, now, aead, Ratchets(alive), Managers(alive), ms', r, before, after)
    ensures var events := CallEvents(popped, v, now, |before|);
            && CanRun(aead, s, events)
            && var s' := StateAfter(aead, s, events);
               && s'.first == s.first + popped && |s'.tracks| == |s.tracks|
               && Managers(Alive(s')) == ms' && Ratchets(Alive(s')) == Ratchets(s.tracks[s.first + popped..])
               && |s'.receipts| == |s.receipts| + (if v.Try? && r.Ok? then 1 else 0)
  {
    hide CanRun, StateAfter, Apply, ArriveAt, TryManagers, Taker, Pops, Copied, Wrote, Managers, Ratchets;
    var s1 := s.(first := s.first + popped);
    if v.Try? {
      var e := Arrive(v.frame, now, |before|);
      ArriveOnce(aead, s1, e);
      PopsThen(aead, s, popped, [e]);
      ArriveLeaves(aead, s1, e);
    } else {
      NothingThen(aead, s1);
      PopsThen(aead, s, popped, []);
    }
  }

  lemma NothingThen(aead: Aead, s: State)
    ensures CanRun(aead, s, []) && StateAfter(aead, s, []) == s
  {
  }

  lemma ArriveLeaves(aead: Aead, s: State, e: Event)
    requires Enabled(s, e) && e.Arrive?
    ensures var (alive, s') := (Alive(s), Apply(aead, s, e));
            var (ms, plaintext) := TryManagers(aead, Ratchets(alive), Managers(alive), |alive|,
                                               e.frame, e.now, e.capacity);
            && s'.first == s.first && |s'.tracks| == |s.tracks|
            && Managers(Alive(s')) == ms && Ratchets(Alive(s')) == Ratchets(alive)
            && |s'.receipts| == |s.receipts| + (if plaintext.Some? then 1 else 0)
  {
    hide TryManagers, Taker, Takes, Attempt;
    var alive := Alive(s);
    NewestTakes(aead, Ratchets(alive), Managers(alive), |alive|, e.frame, e.now, e.capacity);
    TakesSome(aead, alive, e);
    assert Alive(Apply(aead, s, e)) == ArriveAt(aead, alive, e);
    SameRatchets(alive, ArriveAt(aead, alive, e));
  }

  lemma TakesSome(aead: Aead, alive: seq<Track>, e: Event)
    requires e.Arrive? && e.frame.nonce < TWO_32
    ensures var i := TakerOf(aead, alive, e);
            i >= 0 ==> Attempt(Managers(alive)[i], aead, Ratchets(alive)[i], e.frame, e.now).1.Some?
  {
    hide Attempt, Taker;
    TakerIs(aead, Ratchets(alive), Managers(alive), |alive|, e.frame, e.now, e.capacity);
  }

  lemma SameRatchets(ts: seq<Track>, ts': seq<Track>)
    requires |ts| == |ts'| && forall k :: 0 <= k < |ts| ==> ts[k].ratchet == ts'[k].ratchet
    ensures Ratchets(ts) == Ratchets(ts')
  {
    hide Ratchets;
  }

  /** The queue of the object is that of the state. */
  ghost predicate Represents(d: Decryptor, s: State)
    reads d, d.managers
  {
    s.first <= |s.tracks| && Managers(Alive(s)) == d.Views() && Ratchets(Alive(s)) == d.Ratchets()
  }

  /** `decrypt` on the object, followed by the state. */
  method Decrypt(d: Decryptor, mediaType: MediaType, frame: seq<byte>, out: array<byte>, now: int, ghost s: State)
    returns (r: DecryptResult, ghost events: seq<Event>)
    requires d.Valid() && d.aead.Correct() && |frame| < TWO_64 && Represents(d, s)
    requires VerdictOn(mediaType, frame, d.CanPassthrough(now)).Pass? ==> |frame| <= out.Length
    requires forall m :: m in d.managers ==> ClockInRange(m.creationTime, now)
    modifies d`managers, d.managers, out
    ensures d.Valid() && CanRun(d.aead, s, events) && Represents(d, StateAfter(d.aead, s, events))
    ensures |d.managers| <= old(|d.managers|)
    ensures events == CallEvents(old(|d.managers|) - |d.managers|,
                                 VerdictOn(mediaType, frame, d.CanPassthrough(now)), now, out.Length)
    ensures |StateAfter(d.aead, s, events).receipts| ==
            |s.receipts| + (if VerdictOn(mediaType, frame, d.CanPassthrough(now)).Try? && r.Ok? then 1 else 0)
  {
    hide VerdictOn, Answers, CanRun, StateAfter, CallEvents, Decryptor.Valid, CipherManager.Valid, NotPast, Managers,
         Ratchets, RatchetsOf, ClockInRange, Copied, Decryptor.Views, Decryptor.Expiries;
    ghost var (n, was) := (|d.managers|, d.managers);
    d.OfManagers();
    r := d.Decrypt(mediaType, frame, out, now);
    d.OfManagers();
    ghost var (popped, v) := (n - |d.managers|, VerdictOn(mediaType, frame, d.CanPassthrough(now)));
    AliveTail(s, popped);
    RatchetsOfTail(was, popped);
    events := CallEvents(popped, v, now, out.Length);
    CallIsRun(d.aead, s, popped, v, frame, now, d.Views(), r, old(out[..]), out[..]);
  }

  lemma AliveTail(s: State, popped: nat)
    requires s.first + popped <= |s.tracks|
    ensures Managers(s.tracks[s.first + popped..]) == Managers(Alive(s))[popped..]
    ensures Ratchets(s.tracks[s.first + popped..]) == Ratchets(Alive(s))[popped..]
  {
    hide Ratchets;
    assert s.tracks[s.first + popped..] == Alive(s)[popped..];
  }

  /** `transition_to_key_ratchet` on the object, followed by the state. */
  method Transition(d: Decryptor, ratchet: Option<Ratchet>, transitionExpiry: int, now: int, ghost s: State)
    returns (ghost s': State)
    requires d.Valid() && Represents(d, s)
    modifies d`managers, d.managers
    ensures d.Valid() && Represents(d, s')
    ensures s' == if ratchet.Some? then Apply(d.aead, s, AddManager(ratchet.value, now)) else s
  {
    hide Decryptor.Valid, CipherManager.Valid, CappedAll, Managers, Ratchets, Decryptor.Views;
    d.TransitionToKeyRatchet(ratchet, transitionExpiry, now);
    s' := if ratchet.Some? then Apply(d.aead, s, AddManager(ratchet.value, now)) else s;
    if ratchet.Some? { OneMoreTrack(s, Track(ratchet.value, now, NewManager(now), [])); }
  }

  lemma OneMoreTrack(s: State, t: Track)
    requires s.first <= |s.tracks|
    ensures var s' := s.(tracks := s.tracks + [t]);
            && Managers(Alive(s')) == Managers(Alive(s)) + [t.manager]
            && Ratchets(Alive(s')) == Ratchets(Alive(s)) + [t.ratchet]
  {
    hide Ratchets;
    assert Alive(s.(tracks := s.tracks + [t])) == Alive(s) + [t];
  }
}
