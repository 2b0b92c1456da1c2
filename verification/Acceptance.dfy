/** Which frames one manager accepts over a whole schedule of deliveries: frames may come late,
    twice, out of order or not at all. */
module Acceptance {
  import opened Bytes
  import opened Crypto
  import opened InboundFrame
  import opened NonceWindow
  import opened CipherManager

  /** The generation `decrypt_impl` takes a nonce to mean. */
  function GenerationOf(m: Manager, nonce: nat): nat {
    WrappedGeneration(m.oldest, nonce / GENERATION_UNIT)
  }

  /** `decrypt_impl` up to the reconstruction: the decrypted bytes, if the frame is accepted. */
  function Attempt(m: Manager, aead: Aead, ratchet: Ratchet, p: Parsed, now: int): (r: (Manager, Option<seq<byte>>))
    requires p.nonce < TWO_32
    ensures r.0.created == m.created
  {
    var generation := GenerationOf(m, p.nonce);
    if !CanProcess(m.window, BigNonce(generation, p.nonce)) then (m, None)
    else
      var (m', key) := CipherFor(m, ratchet, generation, now);
      if key.None? then (m', None)
      else
        var plaintext := aead.open(key.value, NonceBytes(p.nonce), p.authenticated, p.ciphertext + p.tag);
        if plaintext.None? then (m', None)
        else (ReportSuccess(m', generation, p.nonce, now), plaintext)
  }

  lemma AttemptKeepsInv(m: Manager, aead: Aead, ratchet: Ratchet, p: Parsed, now: int)
    requires Inv(m) && p.nonce < TWO_32
    ensures var (m', plaintext) := Attempt(m, aead, ratchet, p, now);
            var generation := GenerationOf(m, p.nonce);
            && Inv(m') && m.oldest <= m'.oldest
            && (plaintext.None? ==> m'.window == m.window && m'.newest == m.newest)
            && (plaintext.Some? ==>
                  && CanProcess(m.window, BigNonce(generation, p.nonce))
                  && m'.window == Report(m.window, BigNonce(generation, p.nonce))
                  && m'.newest == Max(m.newest, generation)
                  && generation <= MaxGeneration(Age(m.created, now)))
  {
    hide CipherFor, Report, WrappedGeneration, BigNonce, Inv;
    var generation := GenerationOf(m, p.nonce);
    CipherForKeepsInv(m, ratchet, generation, now);
    ReportSuccessKeepsInv(CipherFor(m, ratchet, generation, now).0, generation, p.nonce, now);
  }

  // ---------------------------------------------------------------------------------------
  // Whole schedules
  // ---------------------------------------------------------------------------------------

  datatype Delivery = Delivery(frame: Parsed, now: int)

  /** One receiver: its AEAD, its ratchet, and when its manager was made. */
  datatype Receiver = Receiver(aead: Aead, ratchet: Ratchet, created: int)

  predicate Possible(r: Receiver, ds: seq<Delivery>) {
    forall d :: d in ds ==> d.frame.nonce < TWO_32
  }

  function After(r: Receiver, ds: seq<Delivery>): (m: Manager)
    requires Possible(r, ds)
    ensures m.created == r.created
  {
    if ds == [] then NewManager(r.created)
    else
      var last := |ds| - 1;
      Attempt(After(r, ds[..last]), r.aead, r.ratchet, ds[last].frame, ds[last].now).0
  }

  predicate Accepted(r: Receiver, ds: seq<Delivery>, i: nat)
    requires i < |ds| && Possible(r, ds)
  {
    Attempt(After(r, ds[..i]), r.aead, r.ratchet, ds[i].frame, ds[i].now).1.Some?
  }

  function Generation(r: Receiver, ds: seq<Delivery>, i: nat): nat
    requires i < |ds| && Possible(r, ds)
  {
    GenerationOf(After(r, ds[..i]), ds[i].frame.nonce)
  }

  function Big(r: Receiver, ds: seq<Delivery>, i: nat): nat
    requires i < |ds| && Possible(r, ds)
  {
    BigNonce(Generation(r, ds, i), ds[i].frame.nonce)
  }

  /** The big nonces accepted so far, in order. */
  function AcceptedBigs(r: Receiver, ds: seq<Delivery>): seq<nat>
    requires Possible(r, ds)
  {
    if ds == [] then []
    else
      var last := |ds| - 1;
      AcceptedBigs(r, ds[..last]) + (if Accepted(r, ds, last) then [Big(r, ds, last)] else [])
  }

  /** The manager's invariant holds after every schedule, and its window is the window of the
      accepted nonces. */
  lemma {:induction false} AfterTracksAccepted(r: Receiver, ds: seq<Delivery>)
    requires Possible(r, ds)
    ensures Inv(After(r, ds)) && After(r, ds).window == Reports(AcceptedBigs(r, ds))
  {
    if ds != [] {
      hide Attempt, Report, Inv, BigNonce;
      var last := |ds| - 1;
      var before, bigs := ds[..last], AcceptedBigs(r, ds[..last]);
      AfterTracksAccepted(r, before);
      AttemptKeepsInv(After(r, before), r.aead, r.ratchet, ds[last].frame, ds[last].now);
      if Accepted(r, ds, last) {
        var more := bigs + [Big(r, ds, last)];
        assert more[..|more| - 1] == bigs;
      } else {
        assert bigs + [] == bigs;
      }
    } else {
      assert Inv(NewManager(r.created));
    }
  }

  lemma {:induction false} AcceptedIsListed(r: Receiver, ds: seq<Delivery>, i: nat)
    requires i < |ds| && Possible(r, ds)
    ensures Accepted(r, ds, i) ==> Big(r, ds, i) in AcceptedBigs(r, ds)
    decreases |ds|
  {
    hide Attempt, BigNonce;
    var last := |ds| - 1;
    if i < last {
      var before := ds[..last];
      assert before[..i] == ds[..i] && before[i] == ds[i];
      AcceptedIsListed(r, before, i);
    }
  }

  /** No full nonce is accepted twice, on any schedule. */
  lemma BigNonceAtMostOnce(r: Receiver, ds: seq<Delivery>, i: nat, j: nat)
    requires i < j < |ds| && Possible(r, ds)
    ensures Accepted(r, ds, i) && Accepted(r, ds, j) ==> Big(r, ds, i) != Big(r, ds, j)
  {
    hide Attempt, BigNonce, CanProcess, Reports;
    var before := ds[..j];
    assert before[..i] == ds[..i] && before[i] == ds[i];
    if Accepted(r, ds, i) && Accepted(r, ds, j) {
      AcceptedIsListed(r, before, i);
      AfterTracksAccepted(r, before);
      AttemptKeepsInv(After(r, before), r.aead, r.ratchet, ds[j].frame, ds[j].now);
      WindowRefinesSet(AcceptedBigs(r, before), Big(r, ds, j));
    }
  }

  /** The manager is so young that no sender can have used up its 32-bit nonces: some 292 days. */
  predicate Young(created: int, now: int) {
    170 * (Age(created, now) / 1_000_000_000) < 0x1_0000_0000
  }

  lemma YoungGenerations(age: nat)
    requires MAX_FRAMES_PER_SECOND * (age / SECOND) < TWO_32
    ensures MaxGeneration(age) < GENERATION_WRAP
  {
  }

  /** While the manager is young, an accepted frame was taken for what it says: its generation is
      the top byte of its nonce and its full nonce the nonce itself. */
  lemma AcceptedAsSent(r: Receiver, ds: seq<Delivery>, i: nat)
    requires i < |ds| && Possible(r, ds) && Accepted(r, ds, i) && Young(r.created, ds[i].now)
    ensures Generation(r, ds, i) == ds[i].frame.nonce / GENERATION_UNIT && Big(r, ds, i) == ds[i].frame.nonce
  {
    hide Attempt, CanProcess, Reports, MaxGeneration, After;
    var m, nonce := After(r, ds[..i]), ds[i].frame.nonce;
    AfterTracksAccepted(r, ds[..i]);
    AttemptKeepsInv(m, r.aead, r.ratchet, ds[i].frame, ds[i].now);
    YoungGenerations(Age(r.created, ds[i].now));
    Unwrapped(m.oldest, nonce);
  }

  lemma Unwrapped(oldest: nat, nonce: nat)
    requires nonce < TWO_32
    ensures var g := WrappedGeneration(oldest, nonce / GENERATION_UNIT);
            g < GENERATION_WRAP ==> g == nonce / GENERATION_UNIT && BigNonce(g, nonce) == nonce
  {
    var g := WrappedGeneration(oldest, nonce / GENERATION_UNIT);
    WrappedGenerationIs(oldest, nonce / GENERATION_UNIT, g);
  }

  /** While the manager is young, no nonce is accepted twice, on any schedule of late, repeated and
      lost frames. */
  lemma NonceAtMostOnce(r: Receiver, ds: seq<Delivery>, i: nat, j: nat)
    requires i < j < |ds| && Possible(r, ds) && Young(r.created, ds[i].now) && Young(r.created, ds[j].now)
    ensures Accepted(r, ds, i) && Accepted(r, ds, j) ==> ds[i].frame.nonce != ds[j].frame.nonce
  {
    hide *;
    if Accepted(r, ds, i) && Accepted(r, ds, j) {
      BigNonceAtMostOnce(r, ds, i, j);
      AcceptedAsSent(r, ds, i);
      AcceptedAsSent(r, ds, j);
    }
  }

  predicate EightBits(m: Manager) {
    m.newest < GENERATION_WRAP && forall c :: c in m.calls ==> c.generation < GENERATION_WRAP
  }

  lemma AttemptKeepsEightBits(m: Manager, aead: Aead, ratchet: Ratchet, p: Parsed, now: int)
    requires Inv(m) && EightBits(m) && Young(m.created, now) && p.nonce < TWO_32
    ensures EightBits(Attempt(m, aead, ratchet, p, now).0)
  {
    hide MaxGeneration, CipherFor, Attempt, Inv, Report, WrappedGeneration, BigNonce, CanProcess;
    YoungGenerations(Age(m.created, now));
    AttemptKeepsInv(m, aead, ratchet, p, now);
    CallsOfCipherFor(m, ratchet, GenerationOf(m, p.nonce), now);
    CallsOfAttempt(m, aead, ratchet, p, now);
  }

  /** While the manager is young, the ratchet is only asked about generations that fit its 8-bit
      argument, so that no two of them are confused. */
  lemma {:induction false} YoungCalls(r: Receiver, ds: seq<Delivery>)
    requires Possible(r, ds) && forall d :: d in ds ==> Young(r.created, d.now)
    ensures EightBits(After(r, ds))
  {
    if ds != [] {
      hide Attempt, Inv, EightBits, Young;
      var before, d := ds[..|ds| - 1], ds[|ds| - 1];
      YoungCalls(r, before);
      AfterTracksAccepted(r, before);
      AttemptKeepsEightBits(After(r, before), r.aead, r.ratchet, d.frame, d.now);
    }
  }

  lemma CallsOfAttempt(m: Manager, aead: Aead, ratchet: Ratchet, p: Parsed, now: int)
    requires p.nonce < TWO_32
    ensures var calls := Attempt(m, aead, ratchet, p, now).0.calls;
            calls == m.calls || calls == CipherFor(m, ratchet, GenerationOf(m, p.nonce), now).0.calls
  {
    hide CipherFor, WrappedGeneration, BigNonce, Report;
  }

  lemma CallsOfCipherFor(m: Manager, ratchet: Ratchet, generation: nat, now: int)
    requires Inv(m) && m.newest < GENERATION_WRAP && MaxGeneration(Age(m.created, now)) < GENERATION_WRAP
    requires forall c :: c in m.calls ==> c.generation < GENERATION_WRAP
    ensures forall c :: c in CipherFor(m, ratchet, generation, now).0.calls ==> c.generation < GENERATION_WRAP
  {
    hide MaxGeneration, CallsInOrder;
    var oldest := Cleanup(m, now).oldest;
    assert forall c :: c in Deletions(m.oldest, oldest) ==> c.generation < oldest <= m.newest;
  }
}
