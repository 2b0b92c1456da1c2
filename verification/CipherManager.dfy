/** `CipherManager` (`src/dave/cipher_manager.hpp`): one receiving key ratchet, its ciphers by key
    generation, and the nonce window.  Time is in nanoseconds; `None` is `TimePoint::max()`. */
module CipherManager {
  import opened Bytes
  import opened Crypto
  import opened NonceWindow

  const SECOND: nat := 1_000_000_000
  const CIPHER_EXPIRY := 10 * SECOND
  const MAX_GENERATION_GAP := 250
  const GENERATION_WRAP := 256
  const MAX_FRAMES_PER_SECOND := 170

  /** Generations stay this far below 2^32, so that no sum of them leaves 32 bits. */
  const GENERATION_LIMIT: nat := TWO_32 - 512

  // ---------------------------------------------------------------------------------------
  // Wrap arithmetic
  // ---------------------------------------------------------------------------------------

  /** `compute_wrapped_generation` */
  function WrappedGeneration(oldest: nat, generation: nat): nat {
    var remainder := oldest % GENERATION_WRAP;
    var factor := oldest / GENERATION_WRAP + (if generation < remainder then 1 else 0);
    factor * GENERATION_WRAP + generation
  }

  /** It is the one generation from `oldest` on, within a wrap, that an 8-bit generation can mean. */
  lemma WrappedGenerationIs(oldest: nat, generation: nat, g: nat)
    requires generation < GENERATION_WRAP
    ensures g == WrappedGeneration(oldest, generation)
            <==> oldest <= g < oldest + GENERATION_WRAP && g % GENERATION_WRAP == generation
  {
  }

  /** `compute_wrapped_big_nonce` */
  function BigNonce(generation: nat, nonce: nat): nat {
    generation * GENERATION_UNIT + nonce % GENERATION_UNIT
  }

  lemma BigNonceSplits(generation: nat, nonce: nat)
    ensures BigNonce(generation, nonce) / GENERATION_UNIT == generation
    ensures BigNonce(generation, nonce) % GENERATION_UNIT == nonce % GENERATION_UNIT
  {
  }

  // ---------------------------------------------------------------------------------------
  // The state and its steps, as values
  // ---------------------------------------------------------------------------------------

  datatype Cipher = Cipher(key: seq<byte>, expiry: Option<int>)

  datatype RatchetCall = GetKey(generation: nat) | DeleteKey(generation: nat)

  /** `calls` is what the ratchet has been asked so far. */
  datatype Manager = Manager(
    window: Window,
    ciphers: map<nat, Cipher>,
    oldest: nat,
    newest: nat,
    created: int,
    calls: seq<RatchetCall>)

  function NewManager(now: int): Manager {
    Manager(EMPTY_WINDOW, map[], 0, 0, now, [])
  }

  predicate Expired(c: Cipher, now: int) {
    c.expiry.Some? && c.expiry.value < now
  }

  function Unexpired(ciphers: map<nat, Cipher>, now: int): map<nat, Cipher> {
    map g | g in ciphers && !Expired(ciphers[g], now) :: ciphers[g]
  }

  /** The first generation from `g` on that is cached, or the newest. */
  function FirstCached(g: nat, newest: nat, ciphers: map<nat, Cipher>): (r: nat)
    ensures g <= r && (g <= newest ==> r <= newest)
    ensures forall h :: g <= h < r ==> h !in ciphers
    decreases newest - g
  {
    if g < newest && g !in ciphers then FirstCached(g + 1, newest, ciphers) else g
  }

  function Deletions(lo: nat, hi: nat): (s: seq<RatchetCall>)
    requires lo <= hi
    ensures |s| == hi - lo && forall k :: 0 <= k < |s| ==> s[k] == DeleteKey(lo + k)
    decreases hi - lo
  {
    if lo == hi then [] else Deletions(lo, hi - 1) + [DeleteKey(hi - 1)]
  }

  /** `cleanup_expired_ciphers` */
  function Cleanup(m: Manager, now: int): Manager {
    var ciphers := Unexpired(m.ciphers, now);
    var oldest := FirstCached(m.oldest, m.newest, ciphers);
    m.(ciphers := ciphers, oldest := oldest, calls := m.calls + Deletions(m.oldest, oldest))
  }

  /** The highest generation a sender can have reached after this long. */
  function MaxGeneration(age: nat): nat {
    MAX_FRAMES_PER_SECOND * (age / SECOND) / GENERATION_UNIT
  }

  /** How long the manager has existed; the clock never runs backwards. */
  function Age(created: int, now: int): nat {
    if created <= now then now - created else 0
  }

  /** The clock has not run so long that generations leave 32 bits: some ten million years. */
  predicate ClockInRange(created: int, now: int) {
    created <= now && MaxGeneration(Age(created, now)) < GENERATION_LIMIT
  }

  function ExpiryFor(generation: nat, newest: nat, now: int): Option<int> {
    if generation < newest then Some(now + CIPHER_EXPIRY) else None
  }

  /** `get_cipher`; the cipher is given by its key. */
  function CipherFor(m: Manager, ratchet: Ratchet, generation: nat, now: int): (Manager, Option<seq<byte>>)
  {
    var c := Cleanup(m, now);
    if generation < c.oldest then (c, None)
    else if generation > c.newest + MAX_GENERATION_GAP then (c, None)
    else if generation > MaxGeneration(Age(c.created, now)) then (c, None)
    else if generation in c.ciphers then (c, Some(c.ciphers[generation].key))
    else
      var key := ratchet(generation % 256);
      var asked := c.(calls := c.calls + [GetKey(generation)]);
      if key == [] then (asked, None)
      else
        (asked.(ciphers := c.ciphers[generation := Cipher(key, ExpiryFor(generation, c.newest, now))]), Some(key))
  }

  function Retire(ciphers: map<nat, Cipher>, newest: nat, now: int): map<nat, Cipher> {
    map g | g in ciphers ::
      if g < newest && ciphers[g].expiry.None? then ciphers[g].(expiry := Some(now + CIPHER_EXPIRY)) else ciphers[g]
  }

  /** `report_cipher_success` */
  function ReportSuccess(m: Manager, generation: nat, nonce: nat, now: int): Manager {
    var reported := m.(window := Report(m.window, BigNonce(generation, nonce)));
    if generation > m.newest then
      reported.(newest := generation, ciphers := Retire(m.ciphers, generation, now))
    else reported
  }

  // ---------------------------------------------------------------------------------------
  // What every step keeps
  // ---------------------------------------------------------------------------------------

  /** A key is deleted at most once and never asked for afterwards. */
  predicate CallsInOrder(calls: seq<RatchetCall>) {
    forall i, j :: 0 <= i < j < |calls| && calls[i].DeleteKey? ==>
      calls[j] != GetKey(calls[i].generation) && calls[j] != calls[i]
  }

  ghost predicate Inv(m: Manager) {
    && m.oldest <= m.newest
    && (forall g :: g in m.ciphers ==> g >= m.oldest)
    && (forall g :: g in m.ciphers ==> (m.ciphers[g].expiry.None? <==> g >= m.newest))
    && (forall g: nat :: DeleteKey(g) in m.calls <==> g < m.oldest)
    && CallsInOrder(m.calls)
  }

  lemma DeletionsFollow(calls: seq<RatchetCall>, lo: nat, hi: nat)
    requires lo <= hi && CallsInOrder(calls) && forall g: nat :: DeleteKey(g) in calls <==> g < lo
    ensures CallsInOrder(calls + Deletions(lo, hi))
    ensures forall g: nat :: DeleteKey(g) in calls + Deletions(lo, hi) <==> g < hi
  {
    var all := calls + Deletions(lo, hi);
    forall g: nat | lo <= g < hi ensures DeleteKey(g) in all {
      assert all[|calls| + (g - lo)] == DeleteKey(g);
    }
    forall g: nat | DeleteKey(g) in all ensures g < hi {
      var k :| 0 <= k < |all| && all[k] == DeleteKey(g);
      if k < |calls| { assert DeleteKey(g) in calls; }
    }
    forall i, j | 0 <= i < j < |all| && all[i].DeleteKey?
      ensures all[j] != GetKey(all[i].generation) && all[j] != all[i]
    {
      if i < |calls| <= j { assert all[i] in calls; }
    }
  }

  lemma CleanupKeepsInv(m: Manager, now: int)
    requires Inv(m)
    ensures Inv(Cleanup(m, now)) && m.oldest <= Cleanup(m, now).oldest
    ensures var c := Cleanup(m, now); c.newest == m.newest && c.window == m.window && c.created == m.created
    ensures m.newest in m.ciphers ==> m.newest in Cleanup(m, now).ciphers
  {
    var c := Cleanup(m, now);
    DeletionsFollow(m.calls, m.oldest, c.oldest);
    FirstCachedBounds(m.oldest, m.newest, Unexpired(m.ciphers, now));
  }

  lemma FirstCachedBounds(g: nat, newest: nat, ciphers: map<nat, Cipher>)
    requires g <= newest && forall h :: h in ciphers ==> h >= g
    ensures forall h :: h in ciphers ==> h >= FirstCached(g, newest, ciphers)
  {
  }

  /** Cached generations lie at or above the oldest, exactly those from the newest on never expire
      (so a cached newest cipher is never evicted), and the ratchet is never asked for a generation
      whose key it was told to delete. */
  lemma CipherForKeepsInv(m: Manager, ratchet: Ratchet, generation: nat, now: int)
    requires Inv(m)
    ensures var (m', key) := CipherFor(m, ratchet, generation, now);
            && Inv(m') && m'.newest == m.newest && m'.window == m.window
            && m'.created == m.created && m.oldest <= m'.oldest
            && (key.Some? ==> m'.oldest <= generation <= MaxGeneration(Age(m.created, now)) && generation in m'.ciphers)
  {
    hide Cleanup, CallsInOrder;
    CleanupKeepsInv(m, now);
    var c := Cleanup(m, now);
    if generation >= c.oldest { AskFollows(c.calls, generation); }
  }

  lemma AskFollows(calls: seq<RatchetCall>, generation: nat)
    requires CallsInOrder(calls) && DeleteKey(generation) !in calls
    ensures CallsInOrder(calls + [GetKey(generation)])
    ensures forall g: nat :: DeleteKey(g) in calls + [GetKey(generation)] <==> DeleteKey(g) in calls
  {
    var all := calls + [GetKey(generation)];
    forall i, j | 0 <= i < j < |all| && all[i].DeleteKey?
      ensures all[j] != GetKey(all[i].generation) && all[j] != all[i]
    {
      assert all[i] in calls;
    }
  }

  lemma ReportSuccessKeepsInv(m: Manager, generation: nat, nonce: nat, now: int)
    requires Inv(m)
    ensures Inv(ReportSuccess(m, generation, nonce, now))
  {
  }

  // ---------------------------------------------------------------------------------------
  // How long a cipher lives, and which it may be
  // ---------------------------------------------------------------------------------------

  /** A report that moves the newest generation past a cipher that did not expire lets it live for ten
      seconds. */
  lemma RetiredLivesTenSeconds(m: Manager, generation: nat, nonce: nat, t: int, g: nat, now: int)
    requires g in m.ciphers && m.ciphers[g].expiry.None? && m.newest < generation && g < generation
    ensures var c := Cleanup(ReportSuccess(m, generation, nonce, t), now).ciphers;
            && (g in c <==> now <= t + 10_000_000_000)
            && (g in c ==> c[g].key == m.ciphers[g].key)
  {
    hide FirstCached;
  }

  /** A cipher first asked for when its generation is no longer the newest lives for ten seconds too, and one
      of the newest generation or a later one does not expire. */
  lemma FirstCachedLives(m: Manager, ratchet: Ratchet, g: nat, t: int, now: int)
    requires g !in Unexpired(m.ciphers, t) && CipherFor(m, ratchet, g, t).1.Some?
    ensures var m' := CipherFor(m, ratchet, g, t).0;
            && g in m'.ciphers && m'.calls == Cleanup(m, t).calls + [GetKey(g)]
            && (g in Cleanup(m', now).ciphers <==> g >= m.newest || now <= t + 10_000_000_000)
  {
    hide FirstCached;
  }

  /** A cleanup leaves the ciphers whose time has not passed, and moves the oldest generation to the first
      cached one, or to the newest when that comes before. */
  lemma CleanupLeaves(m: Manager, now: int, g: nat)
    requires Inv(m)
    ensures var c := Cleanup(m, now);
            && (g in c.ciphers <==> g in m.ciphers && (m.ciphers[g].expiry.None? || now <= m.ciphers[g].expiry.value))
            && (g in c.ciphers ==> c.ciphers[g] == m.ciphers[g])
            && (c.oldest == m.newest || c.oldest in c.ciphers)
            && (g < c.oldest ==> g !in c.ciphers)
  {
    hide CallsInOrder;
    CleanupKeepsInv(m, now);
    FirstCachedStops(m.oldest, m.newest, Unexpired(m.ciphers, now));
  }

  lemma FirstCachedStops(g: nat, newest: nat, ciphers: map<nat, Cipher>)
    requires g <= newest
    ensures var r := FirstCached(g, newest, ciphers); r == newest || r in ciphers
    decreases newest - g
  {
  }

  /** A report changes no other lifetime: a cipher that is to expire keeps its time, and those from the
      newest generation on do not expire. */
  lemma OtherLifetimesStay(m: Manager, generation: nat, nonce: nat, t: int, g: nat)
    requires g in m.ciphers && (m.ciphers[g].expiry.Some? || g >= Max(m.newest, generation))
    ensures var m' := ReportSuccess(m, generation, nonce, t); g in m'.ciphers && m'.ciphers[g] == m.ciphers[g]
  {
  }

  /** The clock allows a generation once 170 frames for every full second reach its first nonce. */
  lemma MaxGenerationIs(age: nat, generation: nat)
    ensures generation <= MaxGeneration(age) <==> 0x100_0000 * generation <= 170 * (age / 1_000_000_000)
  {
  }

  lemma MaxGenerationGrows(a: nat, b: nat)
    requires a <= b
    ensures MaxGeneration(a) <= MaxGeneration(b)
  {
    var (s, t) := (a / SECOND, b / SECOND);
    assert s <= t by { SecondsGrow(a, b); }
    UnitsGrow(MAX_FRAMES_PER_SECOND * s, MAX_FRAMES_PER_SECOND * t);
  }

  lemma SecondsGrow(a: nat, b: nat)
    requires a <= b
    ensures a / SECOND <= b / SECOND
  {
  }

  lemma UnitsGrow(a: nat, b: nat)
    requires a <= b
    ensures a / GENERATION_UNIT <= b / GENERATION_UNIT
  {
  }

  // ---------------------------------------------------------------------------------------
  // The class
  // ---------------------------------------------------------------------------------------

  class CipherManager {
    const ratchet: Ratchet
    const creationTime: int
    var ciphers: map<nat, Cipher>
    var missingNonces: seq<nat>
    var newestProcessedNonce: Option<nat>
    var oldestGeneration: nat
    var newestGeneration: nat
    var expiryTime: Option<int>

    /** The calls made on the ratchet so far. */
    ghost var calls: seq<RatchetCall>

    ghost function View(): Manager
      reads this
    {
      Manager(Window(missingNonces, newestProcessedNonce), ciphers, oldestGeneration, newestGeneration,
              creationTime, calls)
    }

    ghost predicate Valid()
      reads this
    {
      Inv(View()) && newestGeneration < GENERATION_LIMIT
    }

    constructor (ratchet: Ratchet, now: int)
      ensures Valid() && View() == NewManager(now) && expiryTime == None && this.ratchet == ratchet
    {
      this.ratchet, creationTime := ratchet, now;
      ciphers, missingNonces, newestProcessedNonce := map[], [], None;
      oldestGeneration, newestGeneration := 0, 0;
      expiryTime := None;
      calls := [];
    }

    method ComputeWrappedGeneration(generation: nat) returns (r: nat)
      requires Valid() && generation < GENERATION_WRAP
      ensures r == WrappedGeneration(oldestGeneration, generation) && r < TWO_32
    {
      var remainder := oldestGeneration % GENERATION_WRAP;
      var factor := oldestGeneration / GENERATION_WRAP + (if generation < remainder then 1 else 0);
      r := factor * GENERATION_WRAP + generation;
    }

    method CanProcessNonce(generation: nat, nonce: nat) returns (ok: bool)
      ensures ok <==> CanProcess(View().window, BigNonce(generation, nonce))
    {
      if newestProcessedNonce.None? { return true; }
      var wrapped := BigNonce(generation, nonce);
      if wrapped > newestProcessedNonce.value { return true; }
      var i := |missingNonces|;
      while i > 0
        invariant 0 <= i <= |missingNonces| && forall j :: i <= j < |missingNonces| ==> missingNonces[j] != wrapped
      {
        i := i - 1;
        if missingNonces[i] == wrapped { return true; }
      }
      return false;
    }

    method ReportCipherSuccess(generation: nat, nonce: nat, now: int)
      requires Valid() && generation < GENERATION_LIMIT
      modifies this`missingNonces, this`newestProcessedNonce, this`newestGeneration, this`ciphers
      ensures Valid() && View() == ReportSuccess(old(View()), generation, nonce, now)
    {
      ReportSuccessKeepsInv(View(), generation, nonce, now);
      var wrapped := BigNonce(generation, nonce);
      if newestProcessedNonce.None? {
        newestProcessedNonce := Some(wrapped);
      } else if wrapped > newestProcessedNonce.value {
        SlideWindow(wrapped);
      } else {
        EraseMissing(wrapped);
      }
      if generation > newestGeneration {
        newestGeneration := generation;
        RetireOlderCiphers(now);
      }
    }

    method SlideWindow(wrapped: nat)
      requires newestProcessedNonce.Some? && wrapped > newestProcessedNonce.value
      modifies this`missingNonces, this`newestProcessedNonce
      ensures View().window == Report(old(View().window), wrapped)
    {
      hide DropBelow, Upto;
      var oldestMissing := if wrapped > MAX_MISSING_NONCES then wrapped - MAX_MISSING_NONCES else 0;
      DropMissingBelow(oldestMissing);
      AddMissing(Max(oldestMissing, newestProcessedNonce.value + 1), wrapped);
      newestProcessedNonce := Some(wrapped);
    }

    method DropMissingBelow(oldestMissing: nat)
      modifies this`missingNonces
      ensures missingNonces == DropBelow(old(missingNonces), oldestMissing)
    {
      while missingNonces != [] && missingNonces[0] < oldestMissing
        invariant DropBelow(missingNonces, oldestMissing) == DropBelow(old(missingNonces), oldestMissing)
        decreases |missingNonces|
      {
        missingNonces := missingNonces[1..];
      }
    }

    method AddMissing(rangeStart: nat, wrapped: nat)
      requires rangeStart <= wrapped
      modifies this`missingNonces
      ensures missingNonces == old(missingNonces) + Upto(rangeStart, wrapped)
    {
      var i := rangeStart;
      while i < wrapped
        invariant rangeStart <= i <= wrapped
        invariant missingNonces == old(missingNonces) + Upto(rangeStart, i)
      {
        missingNonces := missingNonces + [i];
        i := i + 1;
      }
    }

    method EraseMissing(wrapped: nat)
      modifies this`missingNonces
      ensures missingNonces == RemoveFirst(old(missingNonces), wrapped)
    {
      var i := 0;
      while i < |missingNonces|
        invariant i <= |missingNonces| && missingNonces == old(missingNonces)
        invariant RemoveFirst(missingNonces, wrapped) == missingNonces[..i] + RemoveFirst(missingNonces[i..], wrapped)
      {
        if missingNonces[i] == wrapped {
          assert missingNonces[i..][1..] == missingNonces[i + 1..];
          missingNonces := missingNonces[..i] + missingNonces[i + 1..];
          return;
        }
        assert missingNonces[i..] == [missingNonces[i]] + missingNonces[i + 1..];
        i := i + 1;
      }
      assert missingNonces[i..] == [] && missingNonces[..i] == missingNonces;
    }

    method RetireOlderCiphers(now: int)
      modifies this`ciphers
      ensures ciphers == Retire(old(ciphers), newestGeneration, now)
    {
      var todo := ciphers.Keys;
      ghost var retired := Retire(ciphers, newestGeneration, now);
      while todo != {}
        invariant todo <= old(ciphers).Keys == ciphers.Keys
        invariant forall g :: g in ciphers ==> ciphers[g] == if g in todo then old(ciphers)[g] else retired[g]
        decreases todo
      {
        var g :| g in todo;
        todo := todo - {g};
        if g < newestGeneration && ciphers[g].expiry.None? {
          ciphers := ciphers[g := ciphers[g].(expiry := Some(now + CIPHER_EXPIRY))];
        }
      }
    }

    method GetCipher(generation: nat, now: int) returns (key: Option<seq<byte>>)
      requires Valid() && ClockInRange(creationTime, now)
      modifies this`ciphers, this`oldestGeneration, this`calls
      ensures Valid() && (View(), key) == CipherFor(old(View()), ratchet, generation, now)
    {
      CipherForKeepsInv(View(), ratchet, generation, now);
      CleanupExpiredCiphers(now);
      if generation < oldestGeneration { return None; }
      if generation > newestGeneration + MAX_GENERATION_GAP { return None; }
      var lifetime := (now - creationTime) / SECOND;
      var maxGeneration := MAX_FRAMES_PER_SECOND * lifetime / GENERATION_UNIT;
      if generation > maxGeneration { return None; }
      if generation !in ciphers {
        var key := ratchet(generation % 256);
        calls := calls + [GetKey(generation)];
        if key == [] { return None; }
        var expiry := if generation < newestGeneration then Some(now + CIPHER_EXPIRY) else None;
        ciphers := ciphers[generation := Cipher(key, expiry)];
      }
      return Some(ciphers[generation].key);
    }

    method CleanupExpiredCiphers(now: int)
      requires oldestGeneration <= newestGeneration
      modifies this`ciphers, this`oldestGeneration, this`calls
      ensures View() == Cleanup(old(View()), now)
    {
      var todo := ciphers.Keys;
      while todo != {}
        invariant oldestGeneration == old(oldestGeneration) && calls == old(calls)
        invariant todo <= old(ciphers).Keys && ciphers.Keys <= old(ciphers).Keys
        invariant forall g :: g in old(ciphers) ==>
                    (g in ciphers <==> g in todo || !Expired(old(ciphers)[g], now))
        invariant forall g :: g in ciphers ==> ciphers[g] == old(ciphers)[g]
        decreases todo
      {
        var g :| g in todo;
        todo := todo - {g};
        if ciphers[g].expiry.Some? && ciphers[g].expiry.value < now {
          ciphers := ciphers - {g};
        }
      }
      assert ciphers == Unexpired(old(ciphers), now);
      ghost var first := oldestGeneration;
      while oldestGeneration < newestGeneration && oldestGeneration !in ciphers
        invariant first <= oldestGeneration <= newestGeneration && ciphers == Unexpired(old(ciphers), now)
        invariant FirstCached(first, newestGeneration, ciphers) ==
                  FirstCached(oldestGeneration, newestGeneration, ciphers)
        invariant calls == old(calls) + Deletions(first, oldestGeneration)
      {
        calls := calls + [DeleteKey(oldestGeneration)];
        oldestGeneration := oldestGeneration + 1;
      }
    }

    /** Afterwards the manager is expired exactly when it was before, or when this expiry has passed. */
    method UpdateExpiry(expiry: int)
      modifies this`expiryTime
      ensures expiryTime.Some? && (expiryTime.value == expiry || expiryTime == old(expiryTime))
      ensures expiryTime.value <= expiry && (old(expiryTime).Some? ==> expiryTime.value <= old(expiryTime).value)
      ensures forall now :: IsExpired(now) <==> old(IsExpired(now)) || expiry < now
    {
      expiryTime := Some(if expiryTime.None? then expiry else Min(expiryTime.value, expiry));
    }

    predicate IsExpired(now: int)
      reads this
    {
      expiryTime.Some? && expiryTime.value < now
    }
  }
}
