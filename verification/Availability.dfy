/** Which genuine frames a receiver accepts: all those that come in order and on pace, and late ones
    while their cipher is cached and the window has room for them. */
module Availability {
  import opened Bytes
  import opened Crypto
  import opened InboundFrame
  import opened NonceWindow
  import opened CipherManager
  import opened Acceptance
  import opened Pipeline

  function GenOf(d: Delivery): nat {
    d.frame.nonce / GENERATION_UNIT
  }

  /** What a sender with the receiver's ratchet has sealed, received by a young manager. */
  predicate FromSender(r: Receiver, d: Delivery) {
    Genuine(r, d.frame) && Young(r.created, d.now)
  }

  /** The generation is not ahead of the receiver's clock, which counts 170 frames for every full second. */
  predicate OnPace(r: Receiver, d: Delivery) {
    GenOf(d) <= MaxGeneration(Age(r.created, d.now))
  }

  /** Losses only: every nonce is larger than the one before, and no 250 generations are skipped. */
  predicate InOrder(ds: seq<Delivery>) {
    && (forall i, j :: 0 <= i < j < |ds| ==> ds[i].frame.nonce < ds[j].frame.nonce)
    && (forall i :: 0 <= i < |ds| ==> GenOf(ds[i]) <= LastGen(ds[..i]) + 250)
  }

  function LastGen(ds: seq<Delivery>): nat {
    if ds == [] then 0 else GenOf(ds[|ds| - 1])
  }

  lemma InOrderPrefix(ds: seq<Delivery>, n: nat)
    requires InOrder(ds) && n <= |ds|
    ensures InOrder(ds[..n])
  {
    hide LastGen, GenOf;
    forall i | 0 <= i < n ensures ds[..n][..i] == ds[..i] { }
  }

  function Nonces(ds: seq<Delivery>): seq<nat> {
    if ds == [] then [] else Nonces(ds[..|ds| - 1]) + [ds[|ds| - 1].frame.nonce]
  }

  lemma {:induction false} NoncesBelow(ds: seq<Delivery>, bound: nat)
    requires forall d :: d in ds ==> d.frame.nonce < bound
    ensures forall n :: n in Nonces(ds) ==> n < bound
  {
    if ds != [] { NoncesBelow(ds[..|ds| - 1], bound); }
  }

  lemma LargerIsAcceptable(ds: seq<Delivery>, n: nat)
    requires forall d :: d in ds ==> d.frame.nonce < n
    ensures Acceptable(Nonces(ds), n)
  {
    hide Largest;
    NoncesBelow(ds, n);
  }

  lemma NewestIsInReach(m: Manager, generation: nat, now: int)
    requires Inv(m) && m.newest <= generation <= m.newest + MAX_GENERATION_GAP
    requires generation <= MaxGeneration(Age(m.created, now))
    ensures InReach(m, generation, now)
  {
    hide Cleanup, MaxGeneration;
    CleanupKeepsInv(m, now);
  }

  lemma {:induction false} InOrderState(r: Receiver, ds: seq<Delivery>)
    requires r.aead.Correct() && Possible(r, ds) && InOrder(ds)
    requires forall d :: d in ds ==> FromSender(r, d) && OnPace(r, d)
    ensures After(r, ds).newest == LastGen(ds) && AcceptedBigs(r, ds) == Nonces(ds)
    ensures ds != [] ==> Accepted(r, ds, |ds| - 1)
  {
    hide Attempt, MaxGeneration, Acceptable, InReach, Genuine, Young, AcceptedBigs, After, Accepted, Inv;
    StepOf(r, ds);
    if ds != [] {
      var last := |ds| - 1;
      var before, d := ds[..last], ds[last];
      InOrderPrefix(ds, last);
      InOrderLast(ds);
      hide InOrder, LastGen, GenOf;
      InOrderState(r, before);
      var m := After(r, before);
      AfterTracksAccepted(r, before);
      LargerIsAcceptable(before, d.frame.nonce);
      GenerationsGrow(before, d);
      NewestIsInReach(m, GenOf(d), d.now);
      GenuineAccepted(r, before, d.frame, d.now);
      AcceptedAsSent(r, ds, last);
      AttemptKeepsInv(m, r.aead, r.ratchet, d.frame, d.now);
    }
  }

  /** Unfolding the state, the accepted nonces and the acceptance of the last delivery. */
  lemma StepOf(r: Receiver, ds: seq<Delivery>)
    requires Possible(r, ds)
    ensures ds == [] ==> After(r, ds).newest == 0 && AcceptedBigs(r, ds) == []
    ensures ds != [] ==>
              var (before, d) := (ds[..|ds| - 1], ds[|ds| - 1]);
              var (m', plaintext) := Attempt(After(r, before), r.aead, r.ratchet, d.frame, d.now);
              && After(r, ds) == m' && (Accepted(r, ds, |ds| - 1) <==> plaintext.Some?)
              && AcceptedBigs(r, ds) ==
                 AcceptedBigs(r, before) + (if plaintext.Some? then [Big(r, ds, |ds| - 1)] else [])
              && Generation(r, ds, |ds| - 1) == GenerationOf(After(r, before), d.frame.nonce)
  {
    hide Attempt;
  }

  lemma InOrderLast(ds: seq<Delivery>)
    requires InOrder(ds) && ds != []
    ensures var (before, d) := (ds[..|ds| - 1], ds[|ds| - 1]);
            && (forall e :: e in before ==> e.frame.nonce < d.frame.nonce)
            && GenOf(d) <= LastGen(before) + 250
            && LastGen(ds) == GenOf(d)
  {
  }

  lemma GenerationsGrow(before: seq<Delivery>, d: Delivery)
    requires forall e :: e in before ==> e.frame.nonce < d.frame.nonce
    ensures LastGen(before) <= GenOf(d)
  {
    if before != [] { assert before[|before| - 1] in before; }
  }

  /** Every frame of a sender that is on pace, received in order with losses only, is accepted. */
  lemma InOrderAllAccepted(r: Receiver, ds: seq<Delivery>, i: nat)
    requires r.aead.Correct() && Possible(r, ds) && InOrder(ds) && i < |ds|
    requires forall d :: d in ds ==> FromSender(r, d) && OnPace(r, d)
    ensures Accepted(r, ds, i)
  {
    hide Attempt, MaxGeneration, Genuine, Young, After, FromSender, OnPace, InOrder, AcceptedBigs;
    var front := ds[..i + 1];
    InOrderPrefix(ds, i + 1);
    assert front[..i] == ds[..i];
    InOrderState(r, front);
  }

  /** A sender that has sent 170 frames at most for every full second of the receiver's age is on pace. */
  lemma PaceBySeconds(r: Receiver, d: Delivery)
    requires d.frame.nonce <= 170 * (Age(r.created, d.now) / 1_000_000_000)
    ensures OnPace(r, d)
  {
  }

  /** To keep to 170 frames a second is not enough: in the second in which the receiver's count reaches a
      new generation, a sender can be there before it. */
  lemma PaceCountsFullSeconds(r: Receiver, d: Delivery)
    requires d.frame.nonce == GENERATION_UNIT && d.now == r.created + 98_689_510_000_000
    ensures d.frame.nonce * 1_000_000_000 <= 170 * Age(r.created, d.now)
    ensures !OnPace(r, d)
  {
  }

  lemma CachedIsInReach(m: Manager, generation: nat, now: int)
    requires Inv(m) && generation in m.ciphers && !Expired(m.ciphers[generation], now)
    requires generation <= m.newest + MAX_GENERATION_GAP && generation <= MaxGeneration(Age(m.created, now))
    ensures InReach(m, generation, now)
  {
    hide MaxGeneration, CallsInOrder;
    var live := Unexpired(m.ciphers, now);
    assert generation in live && forall h :: h in live ==> h >= m.oldest;
    FirstCachedBounds(m.oldest, m.newest, live);
    assert Cleanup(m, now).oldest == FirstCached(m.oldest, m.newest, live);
  }

  /** A late frame is accepted while the cipher of its generation is cached and not expired, and the
      window still misses its nonce. */
  lemma LateAccepted(r: Receiver, ds: seq<Delivery>, d: Delivery)
    requires r.aead.Correct() && Possible(r, ds) && FromSender(r, d) && OnPace(r, d)
    requires var m := After(r, ds);
             && GenOf(d) in m.ciphers && !Expired(m.ciphers[GenOf(d)], d.now)
             && GenOf(d) <= m.newest + MAX_GENERATION_GAP
    ensures Attempt(After(r, ds), r.aead, r.ratchet, d.frame, d.now).1.Some?
            <==> Acceptable(AcceptedBigs(r, ds), d.frame.nonce)
  {
    hide Attempt, MaxGeneration, Genuine, Young, After, Acceptable, AcceptedBigs;
    AfterTracksAccepted(r, ds);
    hide Inv;
    CachedIsInReach(After(r, ds), GenOf(d), d.now);
    GenuineAccepted(r, ds, d.frame, d.now);
  }

  // ---------------------------------------------------------------------------------------
  // Ten seconds
  // ---------------------------------------------------------------------------------------

  /** The cipher is cached and does not expire before a time. */
  predicate CachedUntil(m: Manager, g: nat, until: int) {
    g in m.ciphers && (m.ciphers[g].expiry.Some? ==> until <= m.ciphers[g].expiry.value)
  }

  lemma CipherForKeepsCached(m: Manager, ratchet: Ratchet, generation: nat, now: int, g: nat, until: int)
    requires CachedUntil(m, g, until) && now <= until
    ensures CachedUntil(CipherFor(m, ratchet, generation, now).0, g, until)
  {
    hide FirstCached, MaxGeneration;
  }

  lemma AttemptKeepsCached(m: Manager, aead: Aead, ratchet: Ratchet, p: Parsed, now: int, g: nat, until: int)
    requires p.nonce < TWO_32 && CachedUntil(m, g, until) && now <= until <= now + 10_000_000_000
    ensures CachedUntil(Attempt(m, aead, ratchet, p, now).0, g, until)
  {
    hide CipherFor, Report, BigNonce, WrappedGeneration;
    CipherForKeepsCached(m, ratchet, GenerationOf(m, p.nonce), now, g, until);
  }

  /** Once a frame was accepted, the newest generation is cached. */
  lemma {:induction false} NewestIsCached(r: Receiver, ds: seq<Delivery>)
    requires Possible(r, ds)
    ensures var m := After(r, ds);
            if AcceptedBigs(r, ds) == [] then m.newest == 0
            else m.newest in m.ciphers && m.ciphers[m.newest].expiry.None?
  {
    hide Attempt, AcceptedBigs, After, Accepted, Inv;
    StepOf(r, ds);
    AfterTracksAccepted(r, ds);
    if ds != [] {
      var before, d := ds[..|ds| - 1], ds[|ds| - 1];
      NewestIsCached(r, before);
      AfterTracksAccepted(r, before);
      AttemptKeepsInv(After(r, before), r.aead, r.ratchet, d.frame, d.now);
      AttemptCachesNewest(After(r, before), r.aead, r.ratchet, d.frame, d.now);
    }
    NewestNeverExpires(After(r, ds));
  }

  lemma NewestNeverExpires(m: Manager)
    requires Inv(m)
    ensures m.newest in m.ciphers ==> m.ciphers[m.newest].expiry.None?
  {
  }

  lemma AttemptCachesNewest(m: Manager, aead: Aead, ratchet: Ratchet, p: Parsed, now: int)
    requires Inv(m) && p.nonce < TWO_32
    ensures var (m', plaintext) := Attempt(m, aead, ratchet, p, now);
            && (m.newest in m.ciphers ==> m'.newest in m'.ciphers)
            && (plaintext.Some? && m.newest == 0 ==> m'.newest in m'.ciphers)
  {
    var generation := GenerationOf(m, p.nonce);
    CipherForKeepsInv(m, ratchet, generation, now);
    CipherForKeepsNewest(m, ratchet, generation, now);
    hide CipherFor, Report, BigNonce, WrappedGeneration, Inv;
  }

  lemma CipherForKeepsNewest(m: Manager, ratchet: Ratchet, generation: nat, now: int)
    requires Inv(m)
    ensures m.newest in m.ciphers ==> m.newest in CipherFor(m, ratchet, generation, now).0.ciphers
  {
    hide MaxGeneration, CallsInOrder, Cleanup;
    CleanupKeepsInv(m, now);
  }

  /** From a state on, while deliveries come within ten seconds of it: what was cached stays so, the newest
      generation and the accepted nonces only grow. */
  lemma {:induction false} RunKeepsCached(r: Receiver, ds: seq<Delivery>, j: nat, g: nat, until: int)
    requires Possible(r, ds) && j <= |ds| && CachedUntil(After(r, ds[..j]), g, until)
    requires forall k :: j <= k < |ds| ==> ds[k].now <= until <= ds[k].now + 10_000_000_000
    ensures CachedUntil(After(r, ds), g, until)
    decreases |ds|
  {
    if j == |ds| {
      assert ds[..j] == ds;
    } else {
      hide Attempt, CachedUntil;
      var before, d := ds[..|ds| - 1], ds[|ds| - 1];
      assert before[..j] == ds[..j];
      RunKeepsCached(r, before, j, g, until);
      AttemptKeepsCached(After(r, before), r.aead, r.ratchet, d.frame, d.now, g, until);
    }
  }

  lemma {:induction false} RunGrows(r: Receiver, ds: seq<Delivery>, j: nat)
    requires Possible(r, ds) && j <= |ds|
    ensures After(r, ds[..j]).newest <= After(r, ds).newest
    ensures AcceptedBigs(r, ds[..j]) <= AcceptedBigs(r, ds)
    decreases |ds|
  {
    hide Attempt, AcceptedBigs, After, Accepted, Inv;
    if j == |ds| {
      assert ds[..j] == ds;
    } else {
      var before, d := ds[..|ds| - 1], ds[|ds| - 1];
      assert before[..j] == ds[..j];
      RunGrows(r, before, j);
      StepOf(r, ds);
      AfterTracksAccepted(r, before);
      AttemptKeepsInv(After(r, before), r.aead, r.ratchet, d.frame, d.now);
    }
  }

  /** Nothing older than the first accepted nonce is acceptable. */
  lemma OlderThanFirst(ns: seq<nat>, n: nat)
    requires ns != [] && n <= ns[0]
    ensures !Acceptable(ns, n)
  {
    hide Largest;
    assert ns[0] in ns;
  }

  /** What is acceptable, and older than a delivery that was accepted, is not older than all. */
  lemma SomeWereBefore(r: Receiver, ds: seq<Delivery>, j: nat, n: nat)
    requires Possible(r, ds) && j < |ds| && Accepted(r, ds, j)
    requires n <= Big(r, ds, j) && Acceptable(AcceptedBigs(r, ds), n)
    ensures AcceptedBigs(r, ds[..j]) != []
  {
    hide Attempt, Acceptable, AcceptedBigs, After, Accepted, Big;
    var front := ds[..j + 1];
    assert front[..j] == ds[..j] && front[j] == ds[j];
    StepOf(r, front);
    SameDelivery(r, ds, j);
    RunGrows(r, ds, j + 1);
    if AcceptedBigs(r, ds[..j]) == [] {
      assert AcceptedBigs(r, front) == [Big(r, ds, j)];
      OlderThanFirst(AcceptedBigs(r, ds), n);
    }
  }

  lemma SameDelivery(r: Receiver, ds: seq<Delivery>, j: nat)
    requires Possible(r, ds) && j < |ds|
    ensures Possible(r, ds[..j + 1]) && Big(r, ds[..j + 1], j) == Big(r, ds, j)
    ensures Accepted(r, ds[..j + 1], j) <==> Accepted(r, ds, j)
  {
    hide Attempt, After;
    assert ds[..j + 1][..j] == ds[..j];
  }

  /** The frames of the generation that was the newest, when they come within ten seconds of the delivery
      that made another one the newest, are accepted exactly as long as the window misses them, and so are
      those of the generations between the two.  Nothing is said of the cache. */
  lemma LateWithinTenSeconds(r: Receiver, ds: seq<Delivery>, j: nat, d: Delivery)
    requires r.aead.Correct() && Possible(r, ds) && FromSender(r, d) && j < |ds| && Accepted(r, ds, j)
    requires After(r, ds[..j]).newest <= GenOf(d) < Generation(r, ds, j)
    requires r.created <= ds[j].now <= d.now <= ds[j].now + 10_000_000_000
    requires forall k :: j <= k < |ds| ==> ds[j].now <= ds[k].now <= d.now
    ensures Attempt(After(r, ds), r.aead, r.ratchet, d.frame, d.now).1.Some?
            <==> Acceptable(AcceptedBigs(r, ds), d.frame.nonce)
  {
    hide Attempt, MaxGeneration, Genuine, Young, After, Acceptable, AcceptedBigs, InReach, Inv, Accepted, Big;
    GenuineAccepted(r, ds, d.frame, d.now);
    if Acceptable(AcceptedBigs(r, ds), d.frame.nonce) {
      BigIsLarger(r, ds, j, d.frame.nonce);
      SomeWereBefore(r, ds, j, d.frame.nonce);
      LateIsInReach(r, ds, j, d);
    }
  }

  lemma BigIsLarger(r: Receiver, ds: seq<Delivery>, j: nat, n: nat)
    requires Possible(r, ds) && j < |ds| && n / GENERATION_UNIT < Generation(r, ds, j)
    ensures n <= Big(r, ds, j)
  {
    hide Generation;
  }

  lemma LateIsInReach(r: Receiver, ds: seq<Delivery>, j: nat, d: Delivery)
    requires Possible(r, ds) && j < |ds| && Accepted(r, ds, j) && AcceptedBigs(r, ds[..j]) != []
    requires After(r, ds[..j]).newest <= GenOf(d) < Generation(r, ds, j)
    requires r.created <= ds[j].now <= d.now <= ds[j].now + 10_000_000_000
    requires forall k :: j <= k < |ds| ==> ds[j].now <= ds[k].now <= d.now
    ensures InReach(After(r, ds), GenOf(d), d.now)
  {
    hide Attempt, MaxGeneration, After, AcceptedBigs, Inv, Cleanup;
    var (p, until) := (After(r, ds[..j]).newest, ds[j].now + 10_000_000_000);
    NewestIsCached(r, ds[..j]);
    RunKeepsCached(r, ds, j, p, until);
    RunGrows(r, ds, j);
    RunGrows(r, ds, j + 1);
    NewestAtLeast(r, ds, j);
    AfterTracksAccepted(r, ds);
    MaxGenerationGrows(Age(r.created, ds[j].now), Age(r.created, d.now));
    CachedIsInReach(After(r, ds), p, d.now);
  }

  lemma NewestAtLeast(r: Receiver, ds: seq<Delivery>, j: nat)
    requires Possible(r, ds) && j < |ds| && Accepted(r, ds, j)
    ensures Generation(r, ds, j) <= After(r, ds[..j + 1]).newest
    ensures Generation(r, ds, j) <= MaxGeneration(Age(r.created, ds[j].now))
  {
    hide Attempt, MaxGeneration, Inv;
    var front := ds[..j + 1];
    assert front[..j] == ds[..j] && front[j] == ds[j];
    AfterTracksAccepted(r, ds[..j]);
    AttemptKeepsInv(After(r, ds[..j]), r.aead, r.ratchet, ds[j].frame, ds[j].now);
  }
}
