/** The sliding window of acceptable nonces kept by `CipherManager`
    (`src/dave/cipher_manager.hpp`), and the set-based window it implements. */
module NonceWindow {
  import opened Bytes

  const MAX_MISSING_NONCES: nat := 1000

  /** `m_missing_nonces` and `m_newest_processed_nonce` */
  datatype Window = Window(missing: seq<nat>, newest: Option<nat>)

  const EMPTY_WINDOW := Window([], None)

  // ---------------------------------------------------------------------------------------
  // The operations
  // ---------------------------------------------------------------------------------------

  predicate CanProcess(w: Window, n: nat) {
    w.newest.None? || n > w.newest.value || n in w.missing
  }

  /** `pop_front` while the front is below `low`. */
  function DropBelow(s: seq<nat>, low: nat): seq<nat> {
    if s != [] && s[0] < low then DropBelow(s[1..], low) else s
  }

  /** `lo`, `lo + 1`, ..., `hi - 1` */
  function Upto(lo: nat, hi: nat): (s: seq<nat>)
    ensures |s| == Max(0, hi - lo)
    ensures forall k :: 0 <= k < |s| ==> s[k] == lo + k
    decreases hi - lo
  {
    if lo >= hi then [] else Upto(lo, hi - 1) + [hi - 1]
  }

  /** `erase` of the first occurrence. */
  function RemoveFirst(s: seq<nat>, n: nat): seq<nat> {
    if s == [] then [] else if s[0] == n then s[1..] else [s[0]] + RemoveFirst(s[1..], n)
  }

  function Floor(n: nat): nat {
    if n > MAX_MISSING_NONCES then n - MAX_MISSING_NONCES else 0
  }

  function Report(w: Window, n: nat): Window {
    if w.newest.None? then Window(w.missing, Some(n))
    else if n > w.newest.value then
      Window(DropBelow(w.missing, Floor(n)) + Upto(Max(Floor(n), w.newest.value + 1), n), Some(n))
    else
      Window(RemoveFirst(w.missing, n), w.newest)
  }

  /** The window after any sequence of reports. */
  function Reports(ns: seq<nat>): Window {
    if ns == [] then EMPTY_WINDOW else Report(Reports(ns[..|ns| - 1]), ns[|ns| - 1])
  }

  // ---------------------------------------------------------------------------------------
  // The set-based window
  // ---------------------------------------------------------------------------------------

  function Largest(ns: seq<nat>): (m: nat)
    requires ns != []
    ensures m in ns && forall n :: n in ns ==> n <= m
  {
    if |ns| == 1 then ns[0]
    else
      assert ns == ns[..|ns| - 1] + [ns[|ns| - 1]];
      Max(Largest(ns[..|ns| - 1]), ns[|ns| - 1])
  }

  /** Not processed yet, newer than the first nonce ever processed, and at most 1000 behind the newest. */
  predicate StillMissing(ns: seq<nat>, n: nat)
    requires ns != []
  {
    ns[0] < n < Largest(ns) && n + 1000 >= Largest(ns) && n !in ns
  }

  /** Newer than everything, or still missing. */
  predicate Acceptable(ns: seq<nat>, n: nat) {
    ns == [] || n > Largest(ns) || StillMissing(ns, n)
  }

  // ---------------------------------------------------------------------------------------
  // Exactness
  // ---------------------------------------------------------------------------------------

  predicate Increasing(s: seq<nat>) {
    forall i, j :: 0 <= i < j < |s| ==> s[i] < s[j]
  }

  lemma {:induction false} DropBelowIs(s: seq<nat>, low: nat)
    requires Increasing(s)
    ensures Increasing(DropBelow(s, low))
    ensures forall n :: n in DropBelow(s, low) <==> n in s && n >= low
  {
    if s != [] && s[0] < low {
      DropBelowIs(s[1..], low);
      assert s == [s[0]] + s[1..];
    }
  }

  lemma AboveFirst(s: seq<nat>)
    requires Increasing(s) && s != []
    ensures Increasing(s[1..]) && forall n :: n in s[1..] ==> n > s[0] && n in s
  {
    forall n | n in s[1..] ensures n > s[0] && n in s {
      var k :| 0 <= k < |s[1..]| && s[1..][k] == n;
      assert s[k + 1] == n;
    }
  }

  lemma {:induction false} RemoveFirstIs(s: seq<nat>, n: nat)
    requires Increasing(s)
    ensures Increasing(RemoveFirst(s, n))
    ensures forall m :: m in RemoveFirst(s, n) <==> m in s && m != n
  {
    if s != [] {
      assert s == [s[0]] + s[1..];
      if s[0] != n {
        RemoveFirstIs(s[1..], n);
        AboveFirst(s);
        IncreasingJoin([s[0]], RemoveFirst(s[1..], n), s[0] + 1);
      } else {
        AboveFirst(s);
      }
    }
  }

  lemma {:induction false} IncreasingLength(s: seq<nat>, lo: nat, hi: nat)
    requires Increasing(s) && lo <= hi && forall n :: n in s ==> lo <= n < hi
    ensures |s| <= hi - lo
  {
    if s != [] {
      assert s[0] in s;
      AboveFirst(s);
      IncreasingLength(s[1..], s[0] + 1, hi);
    }
  }

  lemma IncreasingJoin(s: seq<nat>, t: seq<nat>, bound: nat)
    requires Increasing(s) && Increasing(t)
    requires (forall n :: n in s ==> n < bound) && (forall n :: n in t ==> n >= bound)
    ensures Increasing(s + t)
  {
    forall i, j | 0 <= i < j < |s + t| ensures (s + t)[i] < (s + t)[j] {
      if i < |s| <= j { assert s[i] in s && t[j - |s|] in t; }
    }
  }

  ghost predicate Exact(w: Window, ns: seq<nat>) {
    && Increasing(w.missing)
    && w.newest == (if ns == [] then None else Some(Largest(ns)))
    && (forall n :: n in w.missing <==> ns != [] && StillMissing(ns, n))
  }

  lemma UptoMembers(lo: nat, hi: nat)
    ensures Increasing(Upto(lo, hi)) && forall n :: n in Upto(lo, hi) <==> lo <= n < hi
  {
    forall n: nat | lo <= n < hi ensures n in Upto(lo, hi) {
      assert Upto(lo, hi)[n - lo] == n;
    }
  }

  lemma LargestOfMore(ns: seq<nat>, n: nat)
    requires ns != []
    ensures Largest(ns + [n]) == Max(Largest(ns), n) && (ns + [n])[0] == ns[0]
    ensures forall m :: m in ns + [n] <==> m in ns || m == n
  {
    var more := ns + [n];
    assert more[..|more| - 1] == ns;
  }

  lemma ReportNewer(w: Window, ns: seq<nat>, n: nat)
    requires ns != [] && Exact(w, ns) && n > Largest(ns)
    ensures Exact(Report(w, n), ns + [n])
  {
    hide Largest;
    var floor, start := Floor(n), Max(Floor(n), w.newest.value + 1);
    LargestOfMore(ns, n);
    DropBelowIs(w.missing, floor);
    UptoMembers(start, n);
    IncreasingJoin(DropBelow(w.missing, floor), Upto(start, n), start);
    assert ns[0] in ns && ns[0] <= Largest(ns) && Largest(ns) in ns;
    forall m: nat ensures m in Report(w, n).missing <==> StillMissing(ns + [n], m) {
      assert m in Report(w, n).missing <==> m in DropBelow(w.missing, floor) || m in Upto(start, n);
    }
  }

  lemma ReportOlder(w: Window, ns: seq<nat>, n: nat)
    requires ns != [] && Exact(w, ns) && n <= Largest(ns)
    ensures Exact(Report(w, n), ns + [n])
  {
    hide Largest, RemoveFirst;
    LargestOfMore(ns, n);
    RemoveFirstIs(w.missing, n);
  }

  lemma ReportKeepsExact(w: Window, ns: seq<nat>, n: nat)
    requires Exact(w, ns)
    ensures Exact(Report(w, n), ns + [n])
  {
    if ns == [] {
      assert ns + [n] == [n];
    } else if n > Largest(ns) {
      ReportNewer(w, ns, n);
    } else {
      ReportOlder(w, ns, n);
    }
  }

  /** In every reachable state the deque is strictly increasing, holds at most 1000 nonces, and
      holds exactly the nonces that the set-based window still misses. */
  lemma {:induction false} ReportsExact(ns: seq<nat>)
    ensures Exact(Reports(ns), ns) && |Reports(ns).missing| <= MAX_MISSING_NONCES
  {
    if ns != [] {
      var n := |ns| - 1;
      ReportsExact(ns[..n]);
      assert ns == ns[..n] + [ns[n]];
      ReportKeepsExact(Reports(ns[..n]), ns[..n], ns[n]);
      IncreasingLength(Reports(ns).missing, Floor(Largest(ns)), Largest(ns));
    }
  }

  /** The deque decides as the set-based window does. */
  lemma WindowRefinesSet(ns: seq<nat>, n: nat)
    ensures CanProcess(Reports(ns), n) <==> Acceptable(ns, n)
    ensures CanProcess(Reports(ns), n) ==> n !in ns
  {
    ReportsExact(ns);
  }
}
