/** Facts about sequences that several modules need. */
module Sequences {

  lemma Associate<T>(a: seq<T>, b: seq<T>, c: seq<T>)
    ensures (a + b) + c == a + (b + c)
  {
  }

  lemma Regroup<T>(a: seq<T>, b: seq<T>, c: seq<T>, d: seq<T>)
    ensures a + (b + c + d) == a + b + c + d
  {
  }

  lemma MemberOfFront<T>(s: seq<T>, m: T)
    requires s != [] && forall i, j :: 0 <= i < j < |s| ==> s[i] != s[j]
    ensures m in s[..|s| - 1] <==> m in s && m != s[|s| - 1]
  {
    var front := s[..|s| - 1];
    assert s == front + [s[|s| - 1]];
    if m in front {
      var i :| 0 <= i < |front| && front[i] == m;
      assert s[i] == m;
    }
  }

  /** 0, 1, ..., n - 1: everything that has been numbered so far. */
  function Numbers(n: nat): seq<nat> {
    if n == 0 then [] else Numbers(n - 1) + [n - 1]
  }

  lemma NumbersSnoc(n: nat)
    ensures Numbers(n + 1) == Numbers(n) + [n]
    ensures multiset(Numbers(n + 1)) == multiset(Numbers(n)) + multiset{n}
  {
    assert Numbers(n + 1) == Numbers(n) + [n];
  }

  lemma {:induction false} NumbersOnce(n: nat, k: nat)
    ensures multiset(Numbers(n))[k] == if k < n then 1 else 0
  {
    if n > 0 { NumbersOnce(n - 1, k); }
  }

  lemma LastOfSuffix<T>(s: seq<T>, t: seq<T>)
    requires 0 < |t| <= |s| && t == s[|s| - |t|..]
    ensures t[|t| - 1] == s[|s| - 1]
  {
  }
}
