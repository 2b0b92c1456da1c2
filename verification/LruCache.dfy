/** `LruCache` (`include/ekizu/lru_cache.hpp`): a list of entries, most recent first, and a map from
    keys to list nodes.  A node object stands for a list iterator: it keeps its identity when the
    list around it changes. */
module LruCache {
  import opened Bytes
  import opened Sequences

  // ---------------------------------------------------------------------------------------
  // The plain recency list
  // ---------------------------------------------------------------------------------------

  /** Entries, most recently used first. */
  type Recency<K, V> = seq<(K, V)>

  function Without<K(==), V>(l: Recency<K, V>, k: K): Recency<K, V> {
    if l == [] then [] else (if l[0].0 == k then [] else [l[0]]) + Without(l[1..], k)
  }

  function Find<K(==), V>(l: Recency<K, V>, k: K): Option<V> {
    if l == [] then None else if l[0].0 == k then Some(l[0].1) else Find(l[1..], k)
  }

  /** Drops the least recently used entry when there is one too many. */
  function Evict<K, V>(l: Recency<K, V>, capacity: nat): Recency<K, V> {
    if |l| > capacity then l[..|l| - 1] else l
  }

  function PutEntry<K(==), V>(l: Recency<K, V>, capacity: nat, k: K, v: V): Recency<K, V> {
    Evict([(k, v)] + Without(l, k), capacity)
  }

  function Touch<K(==), V>(l: Recency<K, V>, k: K): Recency<K, V> {
    match Find(l, k)
    case None => l
    case Some(v) => [(k, v)] + Without(l, k)
  }

  predicate Distinct<K(==), V>(l: Recency<K, V>) {
    forall i, j :: 0 <= i < j < |l| ==> l[i].0 != l[j].0
  }

  datatype Op<K, V> = Put(key: K, value: V) | Get(key: K) | Remove(key: K)

  function Apply<K(==), V>(l: Recency<K, V>, capacity: nat, op: Op<K, V>): Recency<K, V> {
    match op
    case Put(k, v) => PutEntry(l, capacity, k, v)
    case Get(k) => Touch(l, k)
    case Remove(k) => Without(l, k)
  }

  /** The entries of a cache of this capacity after any sequence of operations. */
  function Run<K(==), V>(capacity: nat, ops: seq<Op<K, V>>): Recency<K, V> {
    if ops == [] then [] else Apply(Run(capacity, ops[..|ops| - 1]), capacity, ops[|ops| - 1])
  }

  // ---------------------------------------------------------------------------------------
  // Inclusion between capacities
  // ---------------------------------------------------------------------------------------

  /** `a` is `b` with some entries left out, in the same order. */
  predicate Subsequence<K(==), V(==)>(a: Recency<K, V>, b: Recency<K, V>) {
    a == [] ||
    (b != [] &&
     if a[0] == b[0] then Subsequence(a[1..], b[1..]) else Subsequence(a, b[1..]))
  }

  lemma {:induction false} SubsequenceSkip<K, V>(a: Recency<K, V>, b: Recency<K, V>)
    requires a != [] && Subsequence(a, b)
    ensures Subsequence(a[1..], b)
    decreases |b|, 1
  {
    if a[0] != b[0] { SubsequenceSkip(a, b[1..]); }
    SubsequenceGrow(a[1..], b);
  }

  /** What is left out at the front of `b` may be put back. */
  lemma {:induction false} SubsequenceGrow<K, V>(a: Recency<K, V>, b: Recency<K, V>)
    requires b != [] && Subsequence(a, b[1..])
    ensures Subsequence(a, b)
    decreases |b|, 0
  {
    if a != [] && a[0] == b[0] {
      SubsequenceSkip(a, b[1..]);
    }
  }

  lemma {:induction false} SubsequenceSize<K, V>(a: Recency<K, V>, b: Recency<K, V>)
    requires Subsequence(a, b)
    ensures |a| <= |b|
    ensures forall e :: e in a ==> e in b
    decreases |b|
  {
    if a != [] {
      assert b == [b[0]] + b[1..];
      if a[0] == b[0] {
        SubsequenceSize(a[1..], b[1..]);
        assert a == [a[0]] + a[1..];
      } else {
        SubsequenceSize(a, b[1..]);
      }
    }
  }

  lemma {:induction false} SubsequenceWithout<K, V>(a: Recency<K, V>, b: Recency<K, V>, k: K)
    requires Subsequence(a, b)
    ensures Subsequence(Without(a, k), Without(b, k))
    decreases |b|
  {
    if a != [] {
      if a[0] == b[0] {
        SubsequenceWithout(a[1..], b[1..], k);
        if a[0].0 != k {
          assert Without(a, k)[1..] == Without(a[1..], k) && Without(b, k)[1..] == Without(b[1..], k);
        } else {
          assert Without(a, k) == Without(a[1..], k) && Without(b, k) == Without(b[1..], k);
        }
      } else {
        SubsequenceWithout(a, b[1..], k);
        if b[0].0 != k {
          assert Without(b, k)[1..] == Without(b[1..], k);
          SubsequenceGrow(Without(a, k), Without(b, k));
        } else {
          assert Without(b, k) == Without(b[1..], k);
        }
      }
    }
  }

  lemma SubsequenceCons<K, V>(e: (K, V), a: Recency<K, V>, b: Recency<K, V>)
    requires Subsequence(a, b)
    ensures Subsequence([e] + a, [e] + b)
  {
    assert ([e] + a)[1..] == a && ([e] + b)[1..] == b;
  }

  /** The last entry of `b`, if it occurs in `a`, is the last of `a`: dropping both keeps order. */
  lemma {:induction false} SubsequenceDropBoth<K, V>(a: Recency<K, V>, b: Recency<K, V>)
    requires a != [] && b != [] && Subsequence(a, b)
    ensures Subsequence(a[..|a| - 1], b[..|b| - 1])
    decreases |b|
  {
    var a', b' := a[..|a| - 1], b[..|b| - 1];
    if |a| > 1 {
      SubsequenceSize(a, b);
      assert a'[0] == a[0] && b'[0] == b[0];
      if a[0] == b[0] {
        SubsequenceDropBoth(a[1..], b[1..]);
        assert a'[1..] == a[1..][..|a| - 2] && b'[1..] == b[1..][..|b| - 2];
      } else {
        SubsequenceDropBoth(a, b[1..]);
        assert b'[1..] == b[1..][..|b| - 2];
      }
    }
  }

  lemma {:induction false} SubsequenceDropLeft<K, V>(a: Recency<K, V>, b: Recency<K, V>)
    requires a != [] && Subsequence(a, b)
    ensures Subsequence(a[..|a| - 1], b)
    decreases |b|
  {
    var a' := a[..|a| - 1];
    if |a| > 1 {
      if a[0] == b[0] {
        SubsequenceDropLeft(a[1..], b[1..]);
        assert a'[1..] == a[1..][..|a| - 2];
      } else {
        SubsequenceDropLeft(a, b[1..]);
      }
    }
  }

  lemma {:induction false} WithoutMember<K, V>(l: Recency<K, V>, k: K, e: (K, V))
    ensures e in Without(l, k) <==> e in l && e.0 != k
  {
    if l != [] {
      WithoutMember(l[1..], k, e);
      assert l == [l[0]] + l[1..];
    }
  }

  lemma {:induction false} WithoutNotLonger<K, V>(l: Recency<K, V>, k: K)
    ensures |Without(l, k)| <= |l|
  {
    if l != [] { WithoutNotLonger(l[1..], k); }
  }

  lemma FrontIsNew<K, V>(l: Recency<K, V>)
    requires l != [] && Distinct(l)
    ensures Distinct(l[1..]) && forall e :: e in l[1..] ==> e.0 != l[0].0
  {
    forall e | e in l[1..] ensures e.0 != l[0].0 {
      var i :| 0 <= i < |l[1..]| && l[1..][i] == e;
      assert l[i + 1] == e;
    }
  }

  lemma {:induction false} WithoutAbsent<K, V>(l: Recency<K, V>, k: K)
    requires forall e :: e in l ==> e.0 != k
    ensures Without(l, k) == l && Find(l, k) == None
  {
    if l != [] {
      assert l[0] in l;
      WithoutAbsent(l[1..], k);
      assert l == [l[0]] + l[1..];
    }
  }

  /** A key occurs at most once, so taking it away takes one entry exactly when it is there. */
  lemma {:induction false} WithoutIs<K, V>(l: Recency<K, V>, k: K)
    requires Distinct(l)
    ensures Distinct(Without(l, k))
    ensures |Without(l, k)| == |l| - (if Find(l, k).Some? then 1 else 0)
    ensures Find(l, k).Some? ==> (k, Find(l, k).value) in l
    ensures Find(l, k).None? ==> Without(l, k) == l
    decreases |l|
  {
    if l != [] {
      var rest := l[1..];
      FrontIsNew(l);
      assert l == [l[0]] + rest;
      if l[0].0 == k {
        WithoutAbsent(rest, k);
      } else {
        WithoutIs(rest, k);
        forall e | e in Without(rest, k) ensures e.0 != l[0].0 { WithoutMember(rest, k, e); }
        DistinctCons(l[0], Without(rest, k));
      }
    }
  }

  lemma DistinctCons<K, V>(e: (K, V), l: Recency<K, V>)
    requires Distinct(l) && forall x :: x in l ==> x.0 != e.0
    ensures Distinct([e] + l)
  {
    var m := [e] + l;
    forall i, j | 0 <= i < j < |m| ensures m[i].0 != m[j].0 {
      assert m[j] in l;
    }
  }

  /** What one step keeps between a small and a big cache. */
  ghost predicate Included<K, V>(small: Recency<K, V>, c: nat, big: Recency<K, V>, c': nat) {
    && c <= c' && |small| <= c && |big| <= c'
    && Distinct(small) && Distinct(big)
    && Subsequence(small, big)
    && |big| - |small| <= c' - c
  }

  lemma DistinctFront<K, V>(k: K, v: V, l: Recency<K, V>)
    requires Distinct(l)
    ensures Distinct([(k, v)] + Without(l, k))
  {
    WithoutIs(l, k);
    forall e | e in Without(l, k) ensures e.0 != k { WithoutMember(l, k, e); }
    DistinctCons((k, v), Without(l, k));
  }

  lemma {:induction false} FindIncluded<K, V>(a: Recency<K, V>, b: Recency<K, V>, k: K)
    requires Subsequence(a, b) && Distinct(b)
    ensures Find(a, k).Some? ==> Find(b, k) == Find(a, k)
    decreases |b|
  {
    if a != [] {
      FrontIsNew(b);
      if a[0] == b[0] {
        FindIncluded(a[1..], b[1..], k);
      } else {
        FindIncluded(a, b[1..], k);
        if b[0].0 == k { WithoutAbsent(b[1..], k); }
      }
    }
  }

  lemma PutKeepsIncluded<K, V>(small: Recency<K, V>, c: nat, big: Recency<K, V>, c': nat, k: K, v: V)
    requires Included(small, c, big, c')
    ensures Included(PutEntry(small, c, k, v), c, PutEntry(big, c', k, v), c')
  {
    var a, b := [(k, v)] + Without(small, k), [(k, v)] + Without(big, k);
    SubsequenceWithout(small, big, k);
    SubsequenceCons((k, v), Without(small, k), Without(big, k));
    DistinctFront(k, v, small);
    DistinctFront(k, v, big);
    WithoutIs(small, k);
    WithoutIs(big, k);
    FindIncluded(small, big, k);
    if |b| > c' {
      SubsequenceDropBoth(a, b);
    } else if |a| > c {
      SubsequenceDropLeft(a, b);
    }
  }

  lemma TouchKeepsIncluded<K, V>(small: Recency<K, V>, c: nat, big: Recency<K, V>, c': nat, k: K)
    requires Included(small, c, big, c')
    ensures Included(Touch(small, k), c, Touch(big, k), c')
  {
    WithoutIs(small, k);
    WithoutIs(big, k);
    FindIncluded(small, big, k);
    SubsequenceWithout(small, big, k);
    match Find(big, k)
    case None =>
    case Some(v) =>
      DistinctFront(k, v, small);
      DistinctFront(k, v, big);
      SubsequenceCons((k, v), Without(small, k), Without(big, k));
      if Find(small, k).None? { SubsequenceGrow(small, Touch(big, k)); }
  }

  lemma RemoveKeepsIncluded<K, V>(small: Recency<K, V>, c: nat, big: Recency<K, V>, c': nat, k: K)
    requires Included(small, c, big, c')
    ensures Included(Without(small, k), c, Without(big, k), c')
  {
    WithoutIs(small, k);
    WithoutIs(big, k);
    FindIncluded(small, big, k);
    SubsequenceWithout(small, big, k);
  }

  /** After any common sequence of operations a smaller cache holds a subsequence, in recency order,
      of what a larger one holds; the two differ in size by no more than their capacities do. */
  lemma {:induction false} Inclusion<K, V>(c: nat, c': nat, ops: seq<Op<K, V>>)
    requires c <= c'
    ensures Included(Run(c, ops), c, Run(c', ops), c')
  {
    if ops != [] {
      hide Included, Without, Subsequence;
      var before := ops[..|ops| - 1];
      Inclusion(c, c', before);
      var small, big := Run(c, before), Run(c', before);
      match ops[|ops| - 1]
      case Put(k, v) => PutKeepsIncluded(small, c, big, c', k, v);
      case Get(k) => TouchKeepsIncluded(small, c, big, c', k);
      case Remove(k) => RemoveKeepsIncluded(small, c, big, c', k);
    } else {
      assert Run(c, ops) == [] && Run(c', ops) == [];
    }
  }

  /** So a lookup that hits in the smaller cache hits in the larger one, with the same value. */
  lemma HitsGrowWithCapacity<K, V>(c: nat, c': nat, ops: seq<Op<K, V>>, k: K)
    requires c <= c'
    ensures Find(Run(c, ops), k).Some? ==> Find(Run(c', ops), k) == Find(Run(c, ops), k)
  {
    hide Run;
    Inclusion(c, c', ops);
    FindIncluded(Run(c, ops), Run(c', ops), k);
  }

  // ---------------------------------------------------------------------------------------
  // Recency
  // ---------------------------------------------------------------------------------------

  /** Whether an operation uses a key: it is put, or looked up and found. */
  predicate Uses<K(==), V>(l: Recency<K, V>, op: Op<K, V>, k: K) {
    match op
    case Put(key, _) => key == k
    case Get(key) => key == k && Find(l, k).Some?
    case Remove(_) => false
  }

  /** How many operations had been done when the key was used last. */
  function LastUse<K(==), V>(capacity: nat, ops: seq<Op<K, V>>, k: K): (n: nat)
    ensures n <= |ops|
  {
    if ops == [] then 0
    else
      var before := ops[..|ops| - 1];
      if Uses(Run(capacity, before), ops[|ops| - 1], k) then |ops| else LastUse(capacity, before, k)
  }

  predicate Descending<K, V>(l: Recency<K, V>, rank: K -> nat) {
    forall i, j :: 0 <= i < j < |l| ==> rank(l[i].0) > rank(l[j].0)
  }

  lemma {:induction false} WithoutDescending<K, V>(l: Recency<K, V>, k: K, rank: K -> nat)
    requires Descending(l, rank)
    ensures Descending(Without(l, k), rank)
  {
    if l != [] {
      DescendingRest(l, rank);
      hide Descending;
      WithoutDescending(l[1..], k, rank);
      if l[0].0 != k {
        forall e | e in Without(l[1..], k) ensures rank(e.0) < rank(l[0].0) { WithoutMember(l[1..], k, e); }
        DescendingCons(l[0], Without(l[1..], k), rank);
      }
    }
  }

  lemma DescendingRest<K, V>(l: Recency<K, V>, rank: K -> nat)
    requires l != [] && Descending(l, rank)
    ensures Descending(l[1..], rank) && forall e :: e in l[1..] ==> rank(e.0) < rank(l[0].0)
  {
    forall e | e in l[1..] ensures rank(e.0) < rank(l[0].0) {
      var i :| 0 <= i < |l[1..]| && l[1..][i] == e;
      assert l[i + 1] == e;
    }
  }

  lemma DescendingCons<K, V>(e: (K, V), l: Recency<K, V>, rank: K -> nat)
    requires Descending(l, rank) && forall x :: x in l ==> rank(x.0) < rank(e.0)
    ensures Descending([e] + l, rank)
  {
    var m := [e] + l;
    forall i, j | 0 <= i < j < |m| ensures rank(m[i].0) > rank(m[j].0) {
      assert m[j] in l;
    }
  }

  lemma SameRanks<K, V>(l: Recency<K, V>, a: K -> nat, b: K -> nat)
    requires Descending(l, a) && forall e :: e in l ==> a(e.0) == b(e.0)
    ensures Descending(l, b)
  {
    forall i, j | 0 <= i < j < |l| ensures b(l[i].0) > b(l[j].0) {
      assert l[i] in l && l[j] in l;
    }
  }

  /** The entries stand in the order of their last use, so what is evicted from the end of the list
      is the least recently used key. */
  lemma {:induction false} OrderedByLastUse<K, V>(capacity: nat, ops: seq<Op<K, V>>)
    ensures Descending(Run(capacity, ops), k => LastUse(capacity, ops, k))
  {
    if ops != [] {
      var before, op := ops[..|ops| - 1], ops[|ops| - 1];
      OrderedByLastUse(capacity, before);
      var l := Run(capacity, before);
      var was, now := k => LastUse(capacity, before, k), k => LastUse(capacity, ops, k);
      var key := op.key;
      var rest := Without(l, key);
      WithoutDescending(l, key, was);
      forall e | e in rest ensures was(e.0) == now(e.0) < |ops| { WithoutMember(l, key, e); }
      SameRanks(rest, was, now);
      match op
      case Put(k, v) =>
        DescendingCons((k, v), rest, now);
      case Get(k) =>
        if Find(l, k).Some? {
          DescendingCons((k, Find(l, k).value), rest, now);
        } else {
          SameRanks(l, was, now);
        }
      case Remove(k) =>
    }
  }

  // ---------------------------------------------------------------------------------------
  // The class
  // ---------------------------------------------------------------------------------------

  class Node<K, V> {
    const key: K
    const value: V

    constructor (key: K, value: V)
      ensures this.key == key && this.value == value
    {
      this.key, this.value := key, value;
    }
  }

  function Entries<K, V>(nodes: seq<Node<K, V>>): (l: Recency<K, V>)
    ensures |l| == |nodes| && forall i :: 0 <= i < |nodes| ==> l[i] == (nodes[i].key, nodes[i].value)
  {
    if nodes == [] then [] else [(nodes[0].key, nodes[0].value)] + Entries(nodes[1..])
  }

  /** `erase` through an iterator. */
  function Erase<K, V>(nodes: seq<Node<K, V>>, n: Node<K, V>): seq<Node<K, V>> {
    if nodes == [] then [] else if nodes[0] == n then nodes[1..] else [nodes[0]] + Erase(nodes[1..], n)
  }

  lemma EntriesUnfolds<K, V>(nodes: seq<Node<K, V>>)
    requires nodes != []
    ensures Entries(nodes) == [(nodes[0].key, nodes[0].value)] + Entries(nodes[1..])
    ensures Entries(nodes)[1..] == Entries(nodes[1..])
    ensures forall n :: n in nodes <==> n == nodes[0] || n in nodes[1..]
  {
    assert nodes == [nodes[0]] + nodes[1..];
  }

  /** Two nodes of one list with the same key are the same node. */
  lemma SameNode<K, V>(nodes: seq<Node<K, V>>, n: Node<K, V>, m: Node<K, V>)
    requires Distinct(Entries(nodes)) && n in nodes && m in nodes && n.key == m.key
    ensures n == m
  {
    var i :| 0 <= i < |nodes| && nodes[i] == n;
    var j :| 0 <= j < |nodes| && nodes[j] == m;
    var l := Entries(nodes);
    assert l[i].0 == l[j].0;
  }

  lemma {:induction false} EraseIsWithout<K, V>(nodes: seq<Node<K, V>>, n: Node<K, V>)
    requires n in nodes && Distinct(Entries(nodes))
    ensures Entries(Erase(nodes, n)) == Without(Entries(nodes), n.key)
    decreases |nodes|
  {
    hide Entries, Distinct;
    var l := Entries(nodes);
    EntriesUnfolds(nodes);
    FrontIsNew(l);
    if nodes[0] == n {
      WithoutAbsent(l[1..], n.key);
    } else {
      EraseIsWithout(nodes[1..], n);
      if nodes[0].key == n.key { SameNode(nodes, nodes[0], n); }
      var erased := Erase(nodes, n);
      EntriesUnfolds(erased);
      assert erased[1..] == Erase(nodes[1..], n);
    }
  }

  lemma {:induction false} EraseMember<K, V>(nodes: seq<Node<K, V>>, n: Node<K, V>, m: Node<K, V>)
    requires Distinct(Entries(nodes))
    ensures m in Erase(nodes, n) <==> m in nodes && m != n
    decreases |nodes|
  {
    if nodes != [] {
      EntriesUnfolds(nodes);
      FrontIsNew(Entries(nodes));
      EraseMember(nodes[1..], n, m);
    }
  }

  lemma {:induction false} FindNode<K, V>(nodes: seq<Node<K, V>>, k: K)
    requires Distinct(Entries(nodes))
    ensures Find(Entries(nodes), k).None? ==> forall n :: n in nodes ==> n.key != k
    ensures forall n :: n in nodes && n.key == k ==> Find(Entries(nodes), k) == Some(n.value)
    decreases |nodes|
  {
    if nodes != [] {
      var l := Entries(nodes);
      FrontIsNew(l);
      assert l[1..] == Entries(nodes[1..]);
      FindNode(nodes[1..], k);
      if nodes[0].key == k { WithoutAbsent(l[1..], k); }
      forall n | n in nodes && n.key == k ensures Find(l, k) == Some(n.value) {
        if n != nodes[0] { assert n in nodes[1..]; }
      }
      if Find(l, k).None? {
        forall n | n in nodes ensures n.key != k {
          if n != nodes[0] { assert n in nodes[1..]; }
        }
      }
    }
  }

  lemma {:induction false} DistinctCount<K>(keys: seq<K>)
    requires forall i, j :: 0 <= i < j < |keys| ==> keys[i] != keys[j]
    ensures |set k | k in keys| == |keys|
  {
    if keys != [] {
      var n := |keys| - 1;
      DistinctCount(keys[..n]);
      assert keys == keys[..n] + [keys[n]];
      assert (set k | k in keys) == (set k | k in keys[..n]) + {keys[n]};
    }
  }

  /** List and map agree: the keys of the list are distinct and are the keys of the map, and each
      map entry locates the node of its key. */
  ghost predicate Agree<K, V>(list: seq<Node<K, V>>, index: map<K, Node<K, V>>) {
    && Distinct(Entries(list))
    && (forall n :: n in list ==> n.key in index && index[n.key] == n)
    && (forall k :: k in index ==> index[k] in list && index[k].key == k)
  }

  lemma AgreeSize<K, V>(list: seq<Node<K, V>>, index: map<K, Node<K, V>>)
    requires Agree(list, index)
    ensures |index| == |list|
  {
    var keys := seq(|list|, i requires 0 <= i < |list| => list[i].key);
    assert forall i :: 0 <= i < |list| ==> keys[i] == Entries(list)[i].0;
    DistinctCount(keys);
    forall k | k in index ensures k in keys {
      var i :| 0 <= i < |list| && list[i] == index[k];
      assert keys[i] == k;
    }
    assert index.Keys == set k | k in keys;
  }

  lemma AgreeFind<K, V>(list: seq<Node<K, V>>, index: map<K, Node<K, V>>, k: K)
    requires Agree(list, index)
    ensures Find(Entries(list), k) == if k in index then Some(index[k].value) else None
    ensures k !in index ==> Without(Entries(list), k) == Entries(list)
  {
    FindNode(list, k);
    WithoutIs(Entries(list), k);
    if k !in index {
      AbsentKey(list, index, k);
      WithoutAbsent(Entries(list), k);
    }
  }

  lemma AgreeErase<K, V>(list: seq<Node<K, V>>, index: map<K, Node<K, V>>, k: K)
    requires Agree(list, index) && k in index
    ensures Agree(Erase(list, index[k]), index - {k})
    ensures Entries(Erase(list, index[k])) == Without(Entries(list), k)
  {
    hide Distinct, Entries, Erase, Without, Find;
    var node := index[k];
    EraseIsWithout(list, node);
    WithoutIs(Entries(list), k);
    forall m ensures m in Erase(list, node) <==> m in list && m != node { EraseMember(list, node, m); }
    LocatesSubset(list, index, node, Erase(list, node));
  }

  /** Leaving one node out of the list and its key out of the map. */
  lemma LocatesSubset<K, V>(list: seq<Node<K, V>>, index: map<K, Node<K, V>>, node: Node<K, V>,
                            smaller: seq<Node<K, V>>)
    requires Agree(list, index) && node in list && Distinct(Entries(smaller))
    requires forall m :: m in smaller <==> m in list && m != node
    ensures Agree(smaller, index - {node.key})
  {
    hide Distinct, Entries;
    forall m | m in smaller ensures m.key != node.key {
      assert index[m.key] == m && index[node.key] == node;
    }
  }

  lemma AgreePush<K, V>(list: seq<Node<K, V>>, index: map<K, Node<K, V>>, node: Node<K, V>)
    requires Agree(list, index) && node.key !in index
    ensures Agree([node] + list, index[node.key := node])
  {
    hide Entries, Distinct;
    EntriesUnfolds([node] + list);
    assert ([node] + list)[1..] == list;
    AbsentKey(list, index, node.key);
    DistinctCons((node.key, node.value), Entries(list));
  }

  lemma AbsentKey<K, V>(list: seq<Node<K, V>>, index: map<K, Node<K, V>>, k: K)
    requires Agree(list, index) && k !in index
    ensures forall e :: e in Entries(list) ==> e.0 != k
  {
    var l := Entries(list);
    forall e | e in l ensures e.0 != k {
      var i :| 0 <= i < |list| && l[i] == e;
      assert list[i] in list;
    }
  }

  lemma AgreePop<K, V>(list: seq<Node<K, V>>, index: map<K, Node<K, V>>)
    requires Agree(list, index) && list != []
    ensures var n := |list| - 1;
            && Agree(list[..n], index - {list[n].key})
            && Entries(list[..n]) == Entries(list)[..n]
  {
    hide Distinct, Entries;
    var n := |list| - 1;
    var front, node := list[..n], list[n];
    EntriesFront(list);
    forall m ensures m in front <==> m in list && m != node { FrontMember(list, m); }
    LocatesSubset(list, index, node, front);
  }

  lemma EntriesFront<K, V>(list: seq<Node<K, V>>)
    requires list != []
    ensures Entries(list[..|list| - 1]) == Entries(list)[..|list| - 1]
    ensures Distinct(Entries(list)) ==> Distinct(Entries(list[..|list| - 1]))
  {
    hide Entries, Distinct;
    var (front, l) := (list[..|list| - 1], Entries(list));
    forall i | 0 <= i < |front| ensures Entries(front)[i] == l[i] {
      EntryAt(front, i);
      EntryAt(list, i);
    }
    assert Entries(front) == l[..|list| - 1];
    DistinctButLast(l);
  }

  lemma EntryAt<K, V>(list: seq<Node<K, V>>, i: nat)
    requires i < |list|
    ensures Entries(list)[i] == (list[i].key, list[i].value)
  {
  }

  lemma DistinctButLast<K, V>(l: Recency<K, V>)
    requires l != []
    ensures Distinct(l) ==> Distinct(l[..|l| - 1])
  {
  }

  lemma FrontMember<K, V>(list: seq<Node<K, V>>, m: Node<K, V>)
    requires list != [] && Distinct(Entries(list))
    ensures m in list[..|list| - 1] <==> m in list && m != list[|list| - 1]
  {
    NodesDiffer(list);
    hide Entries, Distinct;
    MemberOfFront(list, m);
  }

  lemma NodesDiffer<K, V>(list: seq<Node<K, V>>)
    requires Distinct(Entries(list))
    ensures forall i, j :: 0 <= i < j < |list| ==> list[i] != list[j]
  {
    hide Entries, Distinct;
    forall i, j | 0 <= i < j < |list| ensures list[i] != list[j] {
      KeysDiffer(list, i, j);
    }
  }

  lemma KeysDiffer<K, V>(list: seq<Node<K, V>>, i: nat, j: nat)
    requires i < j < |list| && Distinct(Entries(list))
    ensures list[i].key != list[j].key
  {
    var l := Entries(list);
    assert l[i].0 != l[j].0;
  }

  /** A list and a map of its nodes. */
  datatype Linkage<!K, V> = Linkage(list: seq<Node<K, V>>, index: map<K, Node<K, V>>)

  /** The stale node of the key goes, and the key leads to the front node. */
  function Linked<K, V>(list: seq<Node<K, V>>, index: map<K, Node<K, V>>, k: K): (c: Linkage<K, V>)
    requires list != [] && (k in index ==> index[k] != list[0])
    ensures c.list != []
  {
    if k in index then Linkage(Erase(list, index[k]), index[k := list[0]]) else Linkage(list, index[k := list[0]])
  }

  /** The last node goes when the map has one entry too many. */
  function Evicted<K, V>(c: Linkage<K, V>, capacity: nat): Linkage<K, V>
    requires c.list != []
  {
    if |c.index| > capacity then
      Linkage(c.list[..|c.list| - 1], c.index - {c.list[|c.list| - 1].key})
    else c
  }

  /** List and map after `update_lru`. */
  function Updated<K, V>(list: seq<Node<K, V>>, index: map<K, Node<K, V>>, capacity: nat, k: K): Linkage<K, V>
    requires list != [] && (k in index ==> index[k] != list[0])
  {
    Evicted(Linked(list, index, k), capacity)
  }

  lemma StaleIsOther<K, V>(list: seq<Node<K, V>>, index: map<K, Node<K, V>>, k: K)
    requires list != [] && list[0] !in list[1..] && Agree(list[1..], index)
    ensures k in index ==> index[k] != list[0] && Erase(list, index[k]) != [] && Erase(list, index[k])[0] == list[0]
    ensures k !in index ==> index - {k} == index
  {
    hide Entries, Distinct;
  }

  /** List and map agree afterwards exactly when the key is that of the front node; and then the entries
      are those of the plain recency list. */
  lemma UpdatedAgrees<K, V>(list: seq<Node<K, V>>, index: map<K, Node<K, V>>, capacity: nat, k: K)
    requires list != [] && list[0] !in list[1..] && Agree(list[1..], index) && |list[1..]| <= capacity
    ensures k in index ==> index[k] != list[0]
    ensures var (c, node) := (Updated(list, index, capacity, k), list[0]);
            && (Agree(c.list, c.index) && |c.list| <= capacity <==> k == node.key)
            && (k == node.key ==> Entries(c.list) == PutEntry(Entries(list[1..]), capacity, k, node.value))
  {
    hide Agree, Entries, Without, Linked, Evicted;
    StaleIsOther(list, index, k);
    var c := Linked(list, index, k);
    if k == list[0].key {
      LinkedInOrder(list, index);
      EvictedAgrees(c, capacity);
    } else {
      LinkedOutOfOrder(list, index, k);
      EvictedStaysWrong(c, capacity, k);
    }
  }

  lemma LinkedInOrder<K, V>(list: seq<Node<K, V>>, index: map<K, Node<K, V>>)
    requires list != [] && list[0] !in list[1..] && Agree(list[1..], index)
    requires list[0].key in index ==> index[list[0].key] != list[0]
    ensures var (c, node) := (Linked(list, index, list[0].key), list[0]);
            && Agree(c.list, c.index) && |c.list| <= |list|
            && Entries(c.list) == [(node.key, node.value)] + Without(Entries(list[1..]), node.key)
  {
    hide Agree, Without, Entries, Erase;
    var node, k := list[0], list[0].key;
    var l := Linked(list, index, k).list;
    Unlinked(list, index, k);
    AgreePush(l[1..], index - {k}, node);
    assert (index - {k})[k := node] == index[k := node];
    EntriesUnfolds(l);
  }

  lemma EvictedAgrees<K, V>(c: Linkage<K, V>, capacity: nat)
    requires c.list != [] && Agree(c.list, c.index) && |c.list| <= capacity + 1
    ensures var d := Evicted(c, capacity);
            Agree(d.list, d.index) && |d.list| <= capacity && Entries(d.list) == Evict(Entries(c.list), capacity)
  {
    hide Agree, Entries;
    AgreeSize(c.list, c.index);
    SameLength(c.list);
    AgreePop(c.list, c.index);
  }

  lemma LinkedOutOfOrder<K, V>(list: seq<Node<K, V>>, index: map<K, Node<K, V>>, k: K)
    requires list != [] && list[0] !in list[1..] && Agree(list[1..], index) && k != list[0].key
    requires k in index ==> index[k] != list[0]
    ensures var c := Linked(list, index, k);
            k in c.index && c.index[k].key != k && c.list[|c.list| - 1].key != k
  {
    hide Agree, Without, Entries, Erase;
    Unlinked(list, index, k);
    LastIsNot(Linked(list, index, k).list, index - {k}, k);
  }

  lemma EvictedStaysWrong<K, V>(c: Linkage<K, V>, capacity: nat, k: K)
    requires c.list != [] && k in c.index && c.index[k].key != k && c.list[|c.list| - 1].key != k
    ensures !Agree(Evicted(c, capacity).list, Evicted(c, capacity).index)
  {
    hide Entries, Distinct;
    assert k in Evicted(c, capacity).index;
  }

  /** What stands behind the front node once the stale node is gone. */
  lemma Unlinked<K, V>(list: seq<Node<K, V>>, index: map<K, Node<K, V>>, k: K)
    requires list != [] && list[0] !in list[1..] && Agree(list[1..], index)
    ensures var l := if k in index then Erase(list, index[k]) else list;
            && l == [list[0]] + l[1..] && |l| <= |list|
            && Agree(l[1..], index - {k}) && Entries(l[1..]) == Without(Entries(list[1..]), k)
  {
    hide Agree, Without, Entries, Erase, Find, Distinct;
    StaleIsOther(list, index, k);
    AgreeFind(list[1..], index, k);
    assert list == [list[0]] + list[1..];
    if k in index {
      WithoutNotLonger(Entries(list[1..]), k);
      AgreeErase(list[1..], index, k);
      StaleIsBehind(list[1..], index, k, list[0]);
      SameLength(Erase(list[1..], index[k]));
      SameLength(list[1..]);
    }
  }

  lemma SameLength<K, V>(nodes: seq<Node<K, V>>)
    ensures |Entries(nodes)| == |nodes|
  {
  }

  lemma LastIsNot<K, V>(l: seq<Node<K, V>>, index: map<K, Node<K, V>>, k: K)
    requires l != [] && l[0].key != k && Agree(l[1..], index) && k !in index
    ensures l[|l| - 1].key != k
  {
    hide Distinct, Entries;
    assert |l| > 1 ==> l[|l| - 1] in l[1..];
  }

  /** A string key that its move leaves empty: the map has the empty key, and a lookup of the other one
      misses, though it is in the list. */
  lemma MovedStringKey<V>(node: Node<string, V>, capacity: nat)
    requires node.key == "a" && capacity > 0
    ensures Updated([node], map[], capacity, "") == Linkage([node], map["" := node])
    ensures !Agree([node], map["" := node])
  {
    var c := Linkage([node], map["" := node]);
    assert Linked([node], map[], "") == c;
    assert |c.index| == 1;
    EvictedStaysWrong(c, capacity, "");
  }

  class LruCache<K(==), V> {
    const capacity: nat
    var list: seq<Node<K, V>>
    var index: map<K, Node<K, V>>

    ghost function Contents(): Recency<K, V>
      reads this
    {
      Entries(list)
    }

    ghost predicate Valid()
      reads this
    {
      Agree(list, index) && |list| <= capacity
    }

    constructor (capacity: nat)
      ensures Valid() && this.capacity == capacity && Contents() == []
    {
      this.capacity := capacity;
      list, index := [], map[];
    }

    /** `put`.  The key is forwarded into the node, and `left` is what the caller's object holds then: the
        key itself, unless it was an rvalue that its move changes. */
    method Put(key: K, value: V, left: K)
      requires Valid()
      modifies this
      ensures Valid() <==> left == key
      ensures Valid() ==> Contents() == PutEntry(old(Contents()), capacity, key, value)
    {
      hide Agree, Updated, PutEntry;
      var node := new Node(key, value);
      list := [node] + list;
      assert list[1..] == old(list);
      UpdatedAgrees(list, index, capacity, left);
      UpdateLru(left);
    }

    /** `emplace`, which copies the key into the node and forwards it only then. */
    method Emplace(key: K, value: V)
      requires Valid()
      modifies this
      ensures Valid() && Contents() == PutEntry(old(Contents()), capacity, key, value)
    {
      hide Agree, Updated, PutEntry;
      var node := new Node(key, value);
      list := [node] + list;
      assert list[1..] == old(list);
      UpdatedAgrees(list, index, capacity, key);
      UpdateLru(key);
    }

    /** `update_lru`, after the new node has been put at the front. */
    method UpdateLru(key: K)
      requires list != [] && list[0] !in list[1..] && Agree(list[1..], index)
      modifies this
      ensures key in old(index) ==> old(index[key]) != old(list[0])
      ensures Linkage(list, index) == Updated(old(list), old(index), capacity, key)
    {
      hide Agree, Erase, Evicted;
      StaleIsOther(list, index, key);
      if key in index {
        var stale := index[key];
        ghost var was := index;
        list := Erase(list, stale);
        index := index - {key};
        assert index[key := list[0]] == was[key := list[0]];
      }
      index := index[key := list[0]];
      assert Linkage(list, index) == Linked(old(list), old(index), key);
      EvictOldest();
    }

    /** The end of `update_lru`. */
    method EvictOldest()
      requires list != []
      modifies this
      ensures Linkage(list, index) == Evicted(old(Linkage(list, index)), capacity)
    {
      if |index| > capacity {
        index := index - {list[|list| - 1].key};
        list := list[..|list| - 1];
      }
    }

    method Get(key: K) returns (value: Option<V>)
      requires Valid()
      modifies this`list
      ensures Valid() && Contents() == Touch(old(Contents()), key)
      ensures value == Find(old(Contents()), key)
    {
      hide Agree, Without, Entries;
      AgreeFind(list, index, key);
      if key !in index { return None; }
      var node := index[key];
      AgreeErase(list, index, key);
      AgreeNode(list, index, key);
      AgreePush(Erase(list, node), index - {key}, node);
      assert (index - {key})[key := node] == index;
      list := [node] + Erase(list, node);
      EntriesUnfolds(list);
      assert list[1..] == Erase(old(list), node);
      AgreeSize(list, index);
      AgreeSize(old(list), index);
      return Some(node.value);
    }

    method RemoveKey(key: K)
      requires Valid()
      modifies this
      ensures Valid() && Contents() == Without(old(Contents()), key)
    {
      hide Agree, Without, Entries;
      AgreeFind(list, index, key);
      if key !in index { return; }
      AgreeErase(list, index, key);
      AgreeSize(list, index);
      list := Erase(list, index[key]);
      index := index - {key};
      AgreeSize(list, index);
    }

    method Size() returns (size: nat)
      requires Valid()
      ensures size == |Contents()| && size <= capacity
    {
      AgreeSize(list, index);
      size := |index|;
    }
  }

  lemma AgreeNode<K, V>(list: seq<Node<K, V>>, index: map<K, Node<K, V>>, k: K)
    requires Agree(list, index) && k in index
    ensures index[k] in list && index[k].key == k
  {
  }

  lemma StaleIsBehind<K, V>(list: seq<Node<K, V>>, index: map<K, Node<K, V>>, k: K, node: Node<K, V>)
    requires Agree(list, index) && k in index && node !in list
    ensures Erase([node] + list, index[k]) == [node] + Erase(list, index[k])
  {
    assert ([node] + list)[1..] == list;
  }
}
