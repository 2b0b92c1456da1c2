/** `Decryptor` (`src/dave/decryptor.cpp`): a queue of cipher managers, newest last, each with its
    expiry.  One clock reading serves a whole call. */
module Decryptor {
  import opened Bytes
  import opened Crypto
  import opened Ranges
  import opened InboundFrame
  import opened CipherManager
  import opened Acceptance

  // ---------------------------------------------------------------------------------------
  // Expiries of the queue
  // ---------------------------------------------------------------------------------------

  /** `None` is `TimePoint::max()`. */
  type Expiry = Option<int>

  predicate NoLater(a: Expiry, b: Expiry) {
    b.None? || (a.Some? && a.value <= b.value)
  }

  predicate Past(e: Expiry, now: int) {
    e.Some? && e.value < now
  }

  predicate Ordered(es: seq<Expiry>) {
    forall i, j :: 0 <= i < j < |es| ==> NoLater(es[i], es[j])
  }

  function Capped(e: Expiry, bound: int): Expiry {
    Some(if e.None? then bound else Min(e.value, bound))
  }

  function CappedAll(es: seq<Expiry>, bound: int): seq<Expiry> {
    if es == [] then [] else [Capped(es[0], bound)] + CappedAll(es[1..], bound)
  }

  /** A manager that a transition caps has expired as soon as it had before or the bound has passed. */
  lemma CappedIsPast(e: Expiry, bound: int, now: int)
    ensures Past(Capped(e, bound), now) <==> (e.Some? && e.value < now) || bound < now
    ensures NoLater(Capped(e, bound), e) && NoLater(Capped(e, bound), Some(bound))
  {
  }

  /** What happens to the queue: a transition, with or without a new ratchet, or a cleanup. */
  datatype QueueEvent = Transition(bound: int, adds: bool) | Cleanup(now: int)

  function PopPast(es: seq<Expiry>, now: int): seq<Expiry> {
    if es != [] && Past(es[0], now) then PopPast(es[1..], now) else es
  }

  function NotPast(es: seq<Expiry>, now: int): seq<Expiry> {
    if es == [] then [] else (if Past(es[0], now) then [] else [es[0]]) + NotPast(es[1..], now)
  }

  function QueueAfter(events: seq<QueueEvent>): seq<Expiry> {
    if events == [] then []
    else
      var es := QueueAfter(events[..|events| - 1]);
      match events[|events| - 1]
      case Transition(bound, adds) => CappedAll(es, bound) + (if adds then [None] else [])
      case Cleanup(now) => PopPast(es, now)
  }

  lemma {:induction false} CappedAllIs(es: seq<Expiry>, bound: int)
    ensures |CappedAll(es, bound)| == |es|
    ensures forall i :: 0 <= i < |es| ==> CappedAll(es, bound)[i] == Capped(es[i], bound)
  {
    if es != [] { CappedAllIs(es[1..], bound); }
  }

  lemma {:induction false} PopPastIsComplete(es: seq<Expiry>, now: int)
    requires Ordered(es)
    ensures PopPast(es, now) == NotPast(es, now) && Ordered(PopPast(es, now))
    ensures forall e :: e in PopPast(es, now) ==> !Past(e, now)
    decreases |es|
  {
    if es != [] {
      assert Ordered(es[1..]);
      PopPastIsComplete(es[1..], now);
      if !Past(es[0], now) {
        forall e | e in es ensures !Past(e, now) {
          var k :| 0 <= k < |es| && es[k] == e;
          assert k > 0 ==> NoLater(es[0], es[k]);
        }
        NonePast(es, now);
      }
    }
  }

  lemma {:induction false} NonePast(es: seq<Expiry>, now: int)
    requires forall e :: e in es ==> !Past(e, now)
    ensures NotPast(es, now) == es
  {
    if es != [] {
      assert es[0] in es;
      NonePast(es[1..], now);
      assert es == [es[0]] + es[1..];
    }
  }

  lemma {:induction false} NotPastKeepsLast(es: seq<Expiry>, now: int)
    requires es != [] && !Past(es[|es| - 1], now)
    ensures NotPast(es, now) != []
  {
    if |es| > 1 { NotPastKeepsLast(es[1..], now); }
  }

  lemma TransitionKeepsOrdered(es: seq<Expiry>, bound: int, adds: bool)
    requires Ordered(es)
    ensures Ordered(CappedAll(es, bound) + (if adds then [None] else []))
  {
    CappedAllIs(es, bound);
  }

  /** Whatever the transitions, their expiries and the clock: the queue stays ordered, so that
      popping from its front removes exactly the expired managers. */
  lemma {:induction false} QueueStaysOrdered(events: seq<QueueEvent>)
    ensures Ordered(QueueAfter(events))
    ensures forall now :: PopPast(QueueAfter(events), now) == NotPast(QueueAfter(events), now)
  {
    if events != [] {
      var before := events[..|events| - 1];
      QueueStaysOrdered(before);
      match events[|events| - 1]
      case Transition(bound, adds) => TransitionKeepsOrdered(QueueAfter(before), bound, adds);
      case Cleanup(now) => PopPastIsComplete(QueueAfter(before), now);
    }
    forall now ensures PopPast(QueueAfter(events), now) == NotPast(QueueAfter(events), now) {
      PopPastIsComplete(QueueAfter(events), now);
    }
  }

  // ---------------------------------------------------------------------------------------
  // Trying the managers, newest first
  // ---------------------------------------------------------------------------------------

  /** Whether `reconstruct_frame` writes anything. */
  predicate Writable(p: Parsed, plaintext: seq<byte>, capacity: nat) {
    0 < |p.authenticated| + |plaintext| <= capacity
  }

  /** `after` is `before` with the reconstructed frame at its front. */
  ghost predicate Wrote(before: seq<byte>, after: seq<byte>, p: Parsed, plaintext: seq<byte>) {
    && CanWeave(p.ranges, |p.authenticated|, |plaintext|)
    && |Woven(p.ranges, p.authenticated, plaintext)| <= |before|
    && after == Overwrite(before, 0, Woven(p.ranges, p.authenticated, plaintext))
  }

  /** `after` is `before` with the frame itself at its front. */
  ghost predicate Copied(before: seq<byte>, after: seq<byte>, frame: seq<byte>) {
    |frame| <= |before| && after == Overwrite(before, 0, frame)
  }

  /** The managers afterwards, and the plaintext if one of the first `n` accepted the frame. */
  function TryManagers(aead: Aead, ratchets: seq<Ratchet>, ms: seq<Manager>, n: nat, p: Parsed, now: int, capacity: nat)
    : (r: (seq<Manager>, Option<seq<byte>>))
    requires n <= |ms| == |ratchets| && p.nonce < TWO_32
    ensures r.1.Some? ==> Writable(p, r.1.value, capacity)
    ensures |r.0| == |ms|
    decreases n
  {
    if n == 0 then (ms, None)
    else
      var (m, plaintext) := Attempt(ms[n - 1], aead, ratchets[n - 1], p, now);
      var ms' := ms[n - 1 := m];
      if plaintext.Some? && Writable(p, plaintext.value, capacity) then (ms', plaintext)
      else TryManagers(aead, ratchets, ms', n - 1, p, now, capacity)
  }

  lemma TryManagersUnfolds(aead: Aead, ratchets: seq<Ratchet>, ms: seq<Manager>, n: nat, p: Parsed,
                           now: int, capacity: nat)
    requires n <= |ms| == |ratchets| && p.nonce < TWO_32
    ensures n == 0 ==> TryManagers(aead, ratchets, ms, n, p, now, capacity) == (ms, None)
    ensures n > 0 ==>
              var (m, plaintext) := Attempt(ms[n - 1], aead, ratchets[n - 1], p, now);
              TryManagers(aead, ratchets, ms, n, p, now, capacity) ==
              if plaintext.Some? && Writable(p, plaintext.value, capacity) then (ms[n - 1 := m], plaintext)
              else TryManagers(aead, ratchets, ms[n - 1 := m], n - 1, p, now, capacity)
  {
    hide Attempt, Writable;
  }

  /** Whether a manager accepts the frame and the output has room for it. */
  predicate Takes(aead: Aead, ratchet: Ratchet, m: Manager, p: Parsed, now: int, capacity: nat)
    requires p.nonce < TWO_32
  {
    var plaintext := Attempt(m, aead, ratchet, p, now).1;
    plaintext.Some? && Writable(p, plaintext.value, capacity)
  }

  /** The number of the newest of the first `n` managers that takes the frame, or -1. */
  function Taker(aead: Aead, ratchets: seq<Ratchet>, ms: seq<Manager>, n: nat, p: Parsed, now: int, capacity: nat)
    : (i: int)
    requires n <= |ms| == |ratchets| && p.nonce < TWO_32
    ensures -1 <= i < n
  {
    if n == 0 then -1
    else if Takes(aead, ratchets[n - 1], ms[n - 1], p, now, capacity) then n - 1
    else Taker(aead, ratchets, ms, n - 1, p, now, capacity)
  }

  lemma {:induction false} TakerIs(aead: Aead, ratchets: seq<Ratchet>, ms: seq<Manager>, n: nat, p: Parsed, now: int,
                                   capacity: nat)
    requires n <= |ms| == |ratchets| && p.nonce < TWO_32
    ensures var i := Taker(aead, ratchets, ms, n, p, now, capacity);
            && (i >= 0 ==> Takes(aead, ratchets[i], ms[i], p, now, capacity))
            && forall j :: i < j < n ==> !Takes(aead, ratchets[j], ms[j], p, now, capacity)
  {
    hide Takes;
    if n > 0 { TakerIs(aead, ratchets, ms, n - 1, p, now, capacity); }
  }

  /** The frame goes to the newest manager that takes it: that one and the newer ones have tried it,
      the older ones have not seen it. */
  lemma {:induction false} NewestTakes(aead: Aead, ratchets: seq<Ratchet>, ms: seq<Manager>, n: nat, p: Parsed,
                                       now: int, capacity: nat)
    requires n <= |ms| == |ratchets| && p.nonce < TWO_32
    ensures var (ms', plaintext) := TryManagers(aead, ratchets, ms, n, p, now, capacity);
            var i := Taker(aead, ratchets, ms, n, p, now, capacity);
            && plaintext == (if i < 0 then None else Attempt(ms[i], aead, ratchets[i], p, now).1)
            && (i >= 0 ==> Takes(aead, ratchets[i], ms[i], p, now, capacity))
            && (forall j :: i < j < n ==> !Takes(aead, ratchets[j], ms[j], p, now, capacity))
            && (forall j :: 0 <= j < n && i <= j ==> ms'[j] == Attempt(ms[j], aead, ratchets[j], p, now).0)
            && (forall j :: 0 <= j < |ms| && (j < i || n <= j) ==> ms'[j] == ms[j])
    decreases n
  {
    hide Attempt, Writable;
    TakerIs(aead, ratchets, ms, n, p, now, capacity);
    if n > 0 && !Takes(aead, ratchets[n - 1], ms[n - 1], p, now, capacity) {
      var tried := ms[n - 1 := Attempt(ms[n - 1], aead, ratchets[n - 1], p, now).0];
      NewestTakes(aead, ratchets, tried, n - 1, p, now, capacity);
      SameTaker(aead, ratchets, ms, tried, n - 1, p, now, capacity);
    }
  }

  lemma {:induction false} SameTaker(aead: Aead, ratchets: seq<Ratchet>, ms: seq<Manager>, ms': seq<Manager>, n: nat,
                                     p: Parsed, now: int, capacity: nat)
    requires n <= |ms| == |ms'| == |ratchets| && p.nonce < TWO_32 && forall j :: 0 <= j < n ==> ms[j] == ms'[j]
    ensures Taker(aead, ratchets, ms, n, p, now, capacity) == Taker(aead, ratchets, ms', n, p, now, capacity)
  {
    hide Takes;
    if n > 0 { SameTaker(aead, ratchets, ms, ms', n - 1, p, now, capacity); }
  }

  ghost function RatchetsOf(managers: seq<CipherManager>): (r: seq<Ratchet>)
    ensures |r| == |managers| && forall i :: 0 <= i < |r| ==> r[i] == managers[i].ratchet
  {
    if managers == [] then [] else [managers[0].ratchet] + RatchetsOf(managers[1..])
  }

  lemma RatchetsOfTail(managers: seq<CipherManager>, k: nat)
    requires k <= |managers|
    ensures RatchetsOf(managers[k..]) == RatchetsOf(managers)[k..]
  {
    hide RatchetsOf;
  }

  datatype Until = Never | At(time: int) | Forever

  datatype MediaType = Audio | Video

  datatype DecryptResult = Ok(size: nat) | BadMessage

  const OPUS_SILENCE_PACKET: seq<byte> := [0xF8, 0xFF, 0xFE]

  predicate IsSilence(mediaType: MediaType, frame: seq<byte>) {
    mediaType == Audio && frame == OPUS_SILENCE_PACKET
  }

  datatype Verdict = Pass | Reject | Try(frame: Parsed)

  function VerdictOn(mediaType: MediaType, frame: seq<byte>, passthrough: bool): (v: Verdict)
    ensures v.Try? ==> v.frame.nonce < TWO_32
  {
    if IsSilence(mediaType, frame) then Pass else ParsedVerdict(frame, passthrough)
  }

  function ParsedVerdict(frame: seq<byte>, passthrough: bool): (v: Verdict)
    ensures v.Try? ==> v.frame.nonce < TWO_32
  {
    match Parse(frame)
    case None => if passthrough then Pass else Reject
    case Some(p) => Try(p)
  }

  /** What a call makes of a frame: the managers before and after it, its result, and the output
      before and after it. */
  ghost predicate Answers(v: Verdict, frame: seq<byte>, now: int, aead: Aead, ratchets: seq<Ratchet>,
                          ms: seq<Manager>, ms': seq<Manager>, r: DecryptResult, before: seq<byte>, after: seq<byte>)
    requires |ratchets| == |ms| && (v.Try? ==> v.frame.nonce < TWO_32)
  {
    match v
    case Pass => r == Ok(|frame|) && Copied(before, after, frame) && ms' == ms
    case Reject => r == BadMessage && after == before && ms' == ms
    case Try(p) =>
      var (tried, plaintext) := TryManagers(aead, ratchets, ms, |ms|, p, now, |before|);
      && ms' == tried
      && (if plaintext.Some? then
            r == Ok(|p.authenticated| + |plaintext.value|) && Wrote(before, after, p, plaintext.value)
          else r == BadMessage && after == before)
  }

  /** The silence packet always passes; any other frame without a footer is copied out exactly while
      passthrough is allowed, and is a bad message otherwise, with nothing written. */
  ghost predicate AnswersPlain(mediaType: MediaType, frame: seq<byte>, allowed: bool, r: DecryptResult,
                               before: seq<byte>, after: seq<byte>) {
    var silence := mediaType == Audio && frame == [0xF8, 0xFF, 0xFE];
    && (silence ==> r == Ok(3) && 3 <= |before| && after == frame + before[3..])
    && (!silence && Parse(frame).None? ==>
          if allowed then r == Ok(|frame|) && |frame| <= |before| && after == frame + before[|frame|..]
          else r == BadMessage && after == before)
  }

  /** That is the answer to a frame that is not encrypted, and no manager sees it. */
  lemma PlainFrameAnswer(mediaType: MediaType, frame: seq<byte>, allowed: bool, now: int, aead: Aead,
                         ratchets: seq<Ratchet>, ms: seq<Manager>, ms': seq<Manager>, r: DecryptResult,
                         before: seq<byte>, after: seq<byte>)
    requires |ratchets| == |ms|
    requires Answers(VerdictOn(mediaType, frame, allowed), frame, now, aead, ratchets, ms, ms', r, before, after)
    ensures (mediaType == Audio && frame == [0xF8, 0xFF, 0xFE]) || Parse(frame).None? ==> ms' == ms
    ensures AnswersPlain(mediaType, frame, allowed, r, before, after)
  {
    hide Parse, TryManagers, Wrote, Overwrite;
    if |frame| <= |before| {
      OverwriteIs(before, 0, frame);
      assert before[..0] + frame + before[|frame|..] == frame + before[|frame|..];
    }
  }

  class Decryptor {
    const aead: Aead
    var managers: seq<CipherManager>
    var allowPassthroughUntil: Until

    ghost function Expiries(): seq<Expiry>
      reads this, managers
    {
      seq(|managers|, i requires 0 <= i < |managers| reads this, managers => managers[i].expiryTime)
    }

    ghost function Views(): seq<Manager>
      reads this, managers
    {
      seq(|managers|, i requires 0 <= i < |managers| reads this, managers => managers[i].View())
    }

    ghost function Ratchets(): seq<Ratchet>
      reads this
    {
      RatchetsOf(managers)
    }

    ghost predicate Valid()
      reads this, managers
    {
      && (forall i, j :: 0 <= i < j < |managers| ==> managers[i] != managers[j])
      && (forall m :: m in managers ==> m.Valid())
      && Ordered(Expiries())
    }

    lemma OfManagers()
      ensures |Views()| == |Expiries()| == |Ratchets()| == |managers|
    {
    }

    lemma OfNewest(now: int)
      requires managers != []
      ensures |Views()| == |Expiries()| == |Ratchets()| == |managers|
      ensures var n := |managers| - 1;
              && Views()[n] == managers[n].View() && Ratchets()[n] == managers[n].ratchet
              && (Past(Expiries()[n], now) <==> managers[n].IsExpired(now))
    {
    }

    constructor (aead: Aead)
      ensures Valid() && managers == [] && this.aead == aead
      ensures forall now :: !CanPassthrough(now)
    {
      this.aead := aead;
      managers, allowPassthroughUntil := [], Never;
    }

    method TransitionToKeyRatchet(ratchet: Option<Ratchet>, transitionExpiry: int, now: int)
      requires Valid()
      modifies this`managers, managers
      ensures Valid()
              && Expiries() ==
                 CappedAll(old(Expiries()), now + transitionExpiry) + (if ratchet.Some? then [None] else [])
      ensures Views() == old(Views()) + (if ratchet.Some? then [NewManager(now)] else [])
      ensures Ratchets() == old(Ratchets()) + (if ratchet.Some? then [ratchet.value] else [])
      ensures old(managers) <= managers && |managers| == |old(managers)| + (if ratchet.Some? then 1 else 0)
      ensures ratchet.None? ==> managers == old(managers)
    {
      hide Inv, CappedAll;
      ghost var bound := now + transitionExpiry;
      UpdateCryptorManagerExpiry(now + transitionExpiry);
      CappedAllIs(old(Expiries()), bound);
      TransitionKeepsOrdered(old(Expiries()), bound, ratchet.Some?);
      assert Expiries() == CappedAll(old(Expiries()), bound);
      if ratchet.Some? {
        var manager := new CipherManager(ratchet.value, now);
        managers := managers + [manager];
        assert Expiries() == CappedAll(old(Expiries()), bound) + [None];
      }
    }

    method UpdateCryptorManagerExpiry(bound: int)
      requires Valid()
      modifies managers
      ensures forall m :: m in managers ==>
                m.expiryTime == Capped(old(m.expiryTime), bound) && m.View() == old(m.View())
    {
      var i := 0;
      while i < |managers|
        invariant i <= |managers|
        invariant forall j :: 0 <= j < |managers| ==>
          && managers[j].View() == old(managers[j].View())
          && managers[j].expiryTime ==
               if j < i then Capped(old(managers[j].expiryTime), bound) else old(managers[j].expiryTime)
      {
        managers[i].UpdateExpiry(bound);
        i := i + 1;
      }
    }

    /** Pops from the front only; what is left is everything that has not expired. */
    method CleanupExpiredManagers(now: int)
      requires Valid()
      modifies this`managers
      ensures Valid() && Expiries() == NotPast(old(Expiries()), now)
      ensures |managers| <= |old(managers)| && managers == old(managers)[|old(managers)| - |managers|..]
      ensures forall m :: m in managers ==> !m.IsExpired(now)
      ensures Views() == old(Views())[|old(managers)| - |managers|..]
    {
      hide Inv;
      PopPastIsComplete(Expiries(), now);
      ghost var all := managers;
      while managers != [] && managers[0].IsExpired(now)
        invariant |managers| <= |all| && managers == all[|all| - |managers|..]
        invariant PopPast(Expiries(), now) == PopPast(old(Expiries()), now)
        decreases |managers|
      {
        ghost var before := Expiries();
        managers := managers[1..];
        assert Expiries() == before[1..];
      }
      forall m | m in managers ensures !m.IsExpired(now) {
        var k :| 0 <= k < |managers| && managers[k] == m;
        assert Expiries()[k] in Expiries();
      }
    }

    /** Passthrough is allowed for good, or where it was and only until the transition ends: switching it
        off never prolongs it. */
    method TransitionToPassthroughMode(passthroughMode: bool, transitionExpiry: int, now: int)
      modifies this`allowPassthroughUntil
      ensures forall t :: CanPassthrough(t) <==>
                            passthroughMode || (old(CanPassthrough(t)) && t < now + transitionExpiry)
    {
      if passthroughMode {
        allowPassthroughUntil := Forever;
      } else {
        var maxExpiry := now + transitionExpiry;
        allowPassthroughUntil :=
          if allowPassthroughUntil.Never? then Never
          else if allowPassthroughUntil.At? then At(Min(allowPassthroughUntil.time, maxExpiry))
          else At(maxExpiry);
      }
    }

    predicate CanPassthrough(now: int)
      reads this
    {
      allowPassthroughUntil.Forever? || (allowPassthroughUntil.At? && allowPassthroughUntil.time > now)
    }

    /** `decrypt_impl` for one manager. */
    method DecryptImpl(manager: CipherManager, frame: InboundFrameProcessor, out: array<byte>, now: int)
      returns (written: nat)
      requires manager.Valid() && frame.Valid() && frame.encrypted && aead.Correct()
      requires ClockInRange(manager.creationTime, now)
      modifies manager`ciphers, manager`oldestGeneration, manager`calls
      modifies manager`missingNonces, manager`newestProcessedNonce, manager`newestGeneration
      modifies frame`plaintext, out
      ensures manager.Valid() && frame.Valid()
      ensures var (p, (m, plaintext)) :=
                (old(frame.View()), Attempt(old(manager.View()), aead, manager.ratchet, old(frame.View()), now));
              && manager.View() == m
              && (if plaintext.Some? && Writable(p, plaintext.value, out.Length) then
                    && written == |p.authenticated| + |plaintext.value|
                    && Wrote(old(out[..]), out[..], p, plaintext.value)
                  else written == 0 && out[..] == old(out[..]))
    {
      hide Weave, Weavable, Total, NonceWindow.Report, WrappedGeneration, BigNonce, CipherFor,
           Inv, NonceWindow.CanProcess;
      AttemptKeepsInv(manager.View(), aead, manager.ratchet, frame.View(), now);
      var truncatedNonce := frame.truncatedNonce;
      var generation := manager.ComputeWrappedGeneration(truncatedNonce / GENERATION_UNIT);
      var canProcess := manager.CanProcessNonce(generation, truncatedNonce);
      if !canProcess { return 0; }
      CipherForKeepsInv(manager.View(), manager.ratchet, generation, now);
      var key := manager.GetCipher(generation, now);
      if key.None? { return 0; }
      var plaintext := aead.open(key.value, NonceBytes(truncatedNonce),
                                 frame.authenticated, frame.ciphertext + frame.tag);
      if plaintext.None? { return 0; }
      frame.plaintext := plaintext.value;
      manager.ReportCipherSuccess(generation, truncatedNonce, now);
      written := frame.ReconstructFrame(out);
    }

    /** The loop over the managers, newest first. */
    method DecryptWithManagers(frame: InboundFrameProcessor, out: array<byte>, now: int) returns (written: nat)
      requires Valid() && frame.Valid() && frame.encrypted && aead.Correct()
      requires forall m :: m in managers ==> ClockInRange(m.creationTime, now)
      modifies managers, frame`plaintext, out
      ensures Valid() && Expiries() == old(Expiries())
      ensures var p := old(frame.View());
              var (ms, plaintext) := TryManagers(aead, Ratchets(), old(Views()), |managers|, p, now, out.Length);
              && Views() == ms
              && (if plaintext.Some? then
                    && written == |p.authenticated| + |plaintext.value| > 0
                    && Wrote(old(out[..]), out[..], p, plaintext.value)
                  else written == 0 && out[..] == old(out[..]))
    {
      hide Attempt, Weave, Weavable, Total, Inv, TryManagers, Wrote, Writable, Valid, Ordered;
      var i := |managers|;
      ghost var p := frame.View();
      ghost var result := TryManagers(aead, Ratchets(), Views(), |managers|, p, now, out.Length);
      while i > 0
        invariant 0 <= i <= |managers| && frame.Valid() && frame.View() == p && frame.encrypted
        invariant out[..] == old(out[..])
        invariant Valid() && Expiries() == old(Expiries())
        invariant result == TryManagers(aead, Ratchets(), Views(), i, p, now, out.Length)
      {
        TryManagersUnfolds(aead, Ratchets(), Views(), i, p, now, out.Length);
        i := i - 1;
        written := TryManager(i, frame, out, now);
        if written != 0 { return; }
      }
      TryManagersUnfolds(aead, Ratchets(), Views(), 0, p, now, out.Length);
      return 0;
    }

    /** One turn of that loop. */
    method TryManager(i: nat, frame: InboundFrameProcessor, out: array<byte>, now: int) returns (written: nat)
      requires Valid() && i < |managers| && frame.Valid() && frame.encrypted && aead.Correct()
      requires ClockInRange(managers[i].creationTime, now)
      modifies managers, frame`plaintext, out
      ensures Valid() && frame.Valid() && Expiries() == old(Expiries())
      ensures var p := old(frame.View());
              var (m, plaintext) := Attempt(old(Views())[i], aead, managers[i].ratchet, p, now);
              && Views() == old(Views())[i := m]
              && (if plaintext.Some? && Writable(p, plaintext.value, out.Length) then
                    && written == |p.authenticated| + |plaintext.value| > 0
                    && Wrote(old(out[..]), out[..], p, plaintext.value)
                  else written == 0 && out[..] == old(out[..]))
    {
      hide Attempt, Weave, Weavable, Total, Inv, Wrote;
      written := DecryptImpl(managers[i], frame, out, now);
      assert Views() == old(Views())[i := managers[i].View()];
      assert Expiries() == old(Expiries());
    }

    /** What is done with a frame depends on the frame and the passthrough setting alone; the bytes
        written are the frame itself, or the plaintext frame of the newest manager that accepts it. */
    method Decrypt(mediaType: MediaType, encryptedFrame: seq<byte>, out: array<byte>, now: int)
      returns (r: DecryptResult)
      requires Valid() && aead.Correct() && |encryptedFrame| < TWO_64
      requires VerdictOn(mediaType, encryptedFrame, CanPassthrough(now)).Pass? ==> |encryptedFrame| <= out.Length
      requires forall m :: m in managers ==> ClockInRange(m.creationTime, now)
      modifies this`managers, managers, out
      ensures Valid() && |managers| <= |old(managers)| && managers == old(managers)[|old(managers)| - |managers|..]
      ensures Expiries() ==
              if IsSilence(mediaType, encryptedFrame) then old(Expiries()) else NotPast(old(Expiries()), now)
      ensures Answers(VerdictOn(mediaType, encryptedFrame, CanPassthrough(now)), encryptedFrame, now, aead, Ratchets(),
                      old(Views())[|old(managers)| - |managers|..], Views(), r, old(out[..]), out[..])
      ensures AnswersPlain(mediaType, encryptedFrame, old(CanPassthrough(now)), r, old(out[..]), out[..])
    {
      hide VerdictOn, ParsedVerdict, Parse, Answers, AnswersPlain, Valid, NotPast, Inv, ClockInRange;
      r := DecryptTried(mediaType, encryptedFrame, out, now);
      OfManagers();
      PlainFrameAnswer(mediaType, encryptedFrame, CanPassthrough(now), now, aead, Ratchets(),
                       old(Views())[|old(managers)| - |managers|..], Views(), r, old(out[..]), out[..]);
    }

    /** The body of `decrypt`. */
    method DecryptTried(mediaType: MediaType, encryptedFrame: seq<byte>, out: array<byte>, now: int)
      returns (r: DecryptResult)
      requires Valid() && aead.Correct() && |encryptedFrame| < TWO_64
      requires VerdictOn(mediaType, encryptedFrame, CanPassthrough(now)).Pass? ==> |encryptedFrame| <= out.Length
      requires forall m :: m in managers ==> ClockInRange(m.creationTime, now)
      modifies this`managers, managers, out
      ensures Valid() && |managers| <= |old(managers)| && managers == old(managers)[|old(managers)| - |managers|..]
      ensures Expiries() ==
              if IsSilence(mediaType, encryptedFrame) then old(Expiries()) else NotPast(old(Expiries()), now)
      ensures Answers(VerdictOn(mediaType, encryptedFrame, CanPassthrough(now)), encryptedFrame, now, aead, Ratchets(),
                      old(Views())[|old(managers)| - |managers|..], Views(), r, old(out[..]), out[..])
    {
      hide ParsedVerdict, TryManagers, Wrote, Copied, Valid, NotPast, Inv;
      if mediaType == Audio && |encryptedFrame| == |OPUS_SILENCE_PACKET| && encryptedFrame == OPUS_SILENCE_PACKET {
        PassThrough(encryptedFrame, out);
        return Ok(|encryptedFrame|);
      }
      hide Answers;
      CleanupExpiredManagers(now);
      r := DecryptFrame(encryptedFrame, out, now);
    }

    method PassThrough(encryptedFrame: seq<byte>, out: array<byte>)
      requires Valid() && |encryptedFrame| <= out.Length
      modifies out
      ensures Valid() && Views() == old(Views()) && Expiries() == old(Expiries())
      ensures Copied(old(out[..]), out[..], encryptedFrame)
    {
      CopyInto(encryptedFrame, out, 0);
    }

    /** The part of `decrypt` behind the cleanup. */
    method DecryptFrame(encryptedFrame: seq<byte>, out: array<byte>, now: int) returns (r: DecryptResult)
      requires Valid() && aead.Correct() && |encryptedFrame| < TWO_64
      requires ParsedVerdict(encryptedFrame, CanPassthrough(now)).Pass? ==> |encryptedFrame| <= out.Length
      requires forall m :: m in managers ==> ClockInRange(m.creationTime, now)
      modifies managers, out
      ensures Valid() && Expiries() == old(Expiries())
      ensures Answers(ParsedVerdict(encryptedFrame, CanPassthrough(now)), encryptedFrame, now, aead, Ratchets(),
                      old(Views()), Views(), r, old(out[..]), out[..])
    {
      hide Parse, TryManagers, Wrote, Copied, Valid, Inv;
      var frame := new InboundFrameProcessor();
      frame.ParseFrame(encryptedFrame);
      if !frame.encrypted && CanPassthrough(now) {
        PassThrough(encryptedFrame, out);
        return Ok(|encryptedFrame|);
      }
      if !frame.encrypted { return BadMessage; }
      var written := DecryptWithManagers(frame, out, now);
      if written != 0 { return Ok(written); }
      return BadMessage;
    }
  }
}
