/** What an LRU cache answers: how each operation changes every later lookup, and how the answers relate to
    what was put. */
module CacheContents {
  import opened Bytes
  import opened LruCache

  lemma {:induction false} FindWithout<K, V>(l: Recency<K, V>, k: K, q: K)
    ensures Find(Without(l, k), q) == if q == k then None else Find(l, q)
  {
    if l != [] {
      FindWithout(l[1..], k, q);
      if l[0].0 == k {
        assert Without(l, k) == Without(l[1..], k);
      } else {
        FindFront(l[0], Without(l[1..], k), q);
      }
    }
  }

  lemma FindFront<K, V>(e: (K, V), l: Recency<K, V>, q: K)
    ensures Find([e] + l, q) == if q == e.0 then Some(e.1) else Find(l, q)
  {
    assert ([e] + l)[1..] == l;
  }

  lemma {:induction false} FindButLast<K, V>(l: Recency<K, V>, q: K)
    requires l != [] && Distinct(l)
    ensures Find(l[..|l| - 1], q) == if q == l[|l| - 1].0 then None else Find(l, q)
  {
    if |l| == 1 {
      assert l == [l[0]] && l[1..] == [];
    } else {
      FindButLast(l[1..], q);
      var front := l[1..][..|l| - 2];
      assert l[..|l| - 1] == [l[0]] + front && l == [l[0]] + l[1..];
      FindFront(l[0], front, q);
    }
  }

  /** The answer to every key after one operation on a cache with at most `capacity` entries.  A put changes
      the answer to its own key, and to that of the last entry when the cache is full and the key is new; a
      lookup changes none, and a removal that of its own key. */
  lemma StepAnswers<K, V>(l: Recency<K, V>, capacity: nat, op: Op<K, V>, q: K)
    requires Distinct(l) && |l| <= capacity
    ensures Distinct(Apply(l, capacity, op)) && |Apply(l, capacity, op)| <= capacity
    ensures Find(Apply(l, capacity, op), q) ==
            if op.Put? then
              if capacity == 0 then None
              else if q == op.key then Some(op.value)
              else if |l| == capacity && Find(l, op.key).None? && q == l[capacity - 1].0 then None
              else Find(l, q)
            else if op.Remove? && q == op.key then None
            else Find(l, q)
  {
    hide Without, Distinct, Find;
    match op
    case Put(k, v) => PutAnswers(l, capacity, k, v, q);
    case Get(k) => GetAnswers(l, k, q);
    case Remove(k) =>
      WithoutIs(l, k);
      FindWithout(l, k, q);
  }

  lemma GetAnswers<K, V>(l: Recency<K, V>, k: K, q: K)
    requires Distinct(l)
    ensures Distinct(Touch(l, k)) && |Touch(l, k)| == |l| && Find(Touch(l, k), q) == Find(l, q)
  {
    hide Without, Distinct, Find;
    WithoutIs(l, k);
    if Find(l, k).Some? {
      var v := Find(l, k).value;
      DistinctFront(k, v, l);
      FindFront((k, v), Without(l, k), q);
      FindWithout(l, k, q);
    }
  }

  lemma PutAnswers<K, V>(l: Recency<K, V>, capacity: nat, k: K, v: V, q: K)
    requires Distinct(l) && |l| <= capacity
    ensures var after := PutEntry(l, capacity, k, v);
            && Distinct(after) && |after| <= capacity
            && Find(after, q) ==
               if capacity == 0 then None
               else if q == k then Some(v)
               else if |l| == capacity && Find(l, k).None? && q == l[capacity - 1].0 then None
               else Find(l, q)
  {
    hide Without, Distinct, Find;
    var rest := Without(l, k);
    var all := [(k, v)] + rest;
    WithoutIs(l, k);
    DistinctFront(k, v, l);
    FindFront((k, v), rest, q);
    FindWithout(l, k, q);
    if |all| > capacity {
      assert rest == l;
      FindButLast(all, q);
      DistinctButLast(all);
      if capacity == 0 {
        NoneInEmpty<K, V>(q);
      } else {
        assert all[capacity] == l[capacity - 1];
        LastIsNotFront(all);
      }
    }
  }

  lemma NoneInEmpty<K, V>(q: K)
    ensures Find<K, V>([], q) == None
  {
  }

  lemma LastIsNotFront<K, V>(l: Recency<K, V>)
    requires Distinct(l) && |l| > 1
    ensures l[0].0 != l[|l| - 1].0
  {
  }

  // ---------------------------------------------------------------------------------------
  // Whole runs
  // ---------------------------------------------------------------------------------------

  /** The value last put for a key, unless it was removed since. */
  function Latest<K(==), V>(ops: seq<Op<K, V>>, q: K): Option<V> {
    if ops == [] then None
    else
      var op := ops[|ops| - 1];
      if op.Put? && op.key == q then Some(op.value)
      else if op.Remove? && op.key == q then None
      else Latest(ops[..|ops| - 1], q)
  }

  /** A cache never holds more than its capacity, and what it answers is what was put last. */
  lemma {:induction false} HitsAreLatest<K, V>(capacity: nat, ops: seq<Op<K, V>>, q: K)
    ensures Distinct(Run(capacity, ops)) && |Run(capacity, ops)| <= capacity
    ensures Find(Run(capacity, ops), q).Some? ==> Find(Run(capacity, ops), q) == Latest(ops, q)
  {
    if ops != [] {
      hide Apply, Distinct, Find;
      HitsAreLatest(capacity, ops[..|ops| - 1], q);
      StepAnswers(Run(capacity, ops[..|ops| - 1]), capacity, ops[|ops| - 1], q);
    } else {
      assert Run(capacity, ops) == [];
    }
  }

  /** The keys that were ever put. */
  function PutKeys<K(==), V>(ops: seq<Op<K, V>>): set<K> {
    if ops == [] then {}
    else PutKeys(ops[..|ops| - 1]) + (if ops[|ops| - 1].Put? then {ops[|ops| - 1].key} else {})
  }

  lemma {:induction false} EntriesWerePut<K, V>(capacity: nat, ops: seq<Op<K, V>>, q: K)
    ensures Latest(ops, q).Some? ==> q in PutKeys(ops)
  {
    if ops != [] { EntriesWerePut(capacity, ops[..|ops| - 1], q); }
  }

  lemma {:induction false} FindAll<K, V>(l: Recency<K, V>, e: (K, V))
    requires e in l
    ensures Find(l, e.0).Some?
  {
    if l[0].0 != e.0 {
      assert l == [l[0]] + l[1..];
      FindAll(l[1..], e);
    }
  }

  /** Among these keys, those of the entries and one more, the entries are fewer. */
  lemma {:induction false} EntriesAreFewer<K, V>(l: Recency<K, V>, k: K, keys: set<K>)
    requires Distinct(l) && Find(l, k).None? && k in keys && forall e :: e in l ==> e.0 in keys
    ensures |l| < |keys|
    decreases |l|
  {
    if l == [] {
      assert keys != {};
    } else {
      var rest := l[1..];
      FrontIsNew(l);
      assert forall e :: e in rest ==> e in l;
      assert l[0] in l;
      EntriesAreFewer(rest, k, keys - {l[0].0});
    }
  }

  /** A cache with room for every key that was ever put loses nothing: it answers as a map would. */
  lemma {:induction false} WithRoomItIsAMap<K, V>(capacity: nat, ops: seq<Op<K, V>>, q: K)
    requires |PutKeys(ops)| <= capacity
    ensures Find(Run(capacity, ops), q) == Latest(ops, q)
  {
    if ops != [] {
      hide Apply, Distinct, Find, Latest;
      var before, op := ops[..|ops| - 1], ops[|ops| - 1];
      var l := Run(capacity, before);
      FewerKeys(PutKeys(before), PutKeys(ops));
      WithRoomItIsAMap(capacity, before, q);
      HitsAreLatest(capacity, before, q);
      StepAnswers(l, capacity, op, q);
      LatestUnfolds(ops, q);
      if op.Put? && Find(l, op.key).None? {
        forall e | e in l ensures e.0 in PutKeys(ops) {
          FindAll(l, e);
          HitsAreLatest(capacity, before, e.0);
          EntriesWerePut(capacity, before, e.0);
        }
        EntriesAreFewer(l, op.key, PutKeys(ops));
      }
      if op.Put? { assert op.key in PutKeys(ops); }
    } else {
      assert Run(capacity, ops) == [];
    }
  }

  lemma LatestUnfolds<K, V>(ops: seq<Op<K, V>>, q: K)
    requires ops != []
    ensures var op := ops[|ops| - 1];
            Latest(ops, q) ==
            if op.Put? && op.key == q then Some(op.value)
            else if op.Remove? && op.key == q then None
            else Latest(ops[..|ops| - 1], q)
  {
  }

  lemma FewerKeys<K>(a: set<K>, b: set<K>)
    requires a <= b
    ensures |a| <= |b|
  {
    assert b == a + (b - a);
  }
}
