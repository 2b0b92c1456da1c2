/** The roster of an MLS group and the changes reported when the group's state is replaced
    (`Session::replace_state` in `src/dave/session.cpp`). */
module Roster {
  import opened Bytes

  type Key = seq<byte>

  type RosterMap = map<nat, Key>

  /** A leaf of the group: its credential, basic or of another type, and its signature key. */
  datatype Leaf = Leaf(identity: Option<seq<byte>>, signatureKey: Key)

  datatype Entry = Entry(id: nat, key: Key)

  // ---------------------------------------------------------------------------------------
  // From identities to ids
  // ---------------------------------------------------------------------------------------

  function BigEndian(s: seq<byte>): nat {
    if s == [] then 0 else BigEndian(s[..|s| - 1]) * 256 + s[|s| - 1]
  }

  /** The id of an identity: its first eight bytes. */
  function IdOf(identity: seq<byte>): nat {
    BigEndian(identity[..Min(|identity|, 8)])
  }

  /** An identity of eight bytes or more: the first byte counts most, those behind the eighth not at all. */
  lemma IdOfEight(b: seq<byte>)
    requires |b| >= 8
    ensures IdOf(b) ==
            0x100_0000_0000_0000 * (b[0] as int) + 0x1_0000_0000_0000 * (b[1] as int) +
            0x100_0000_0000 * (b[2] as int) + 0x1_0000_0000 * (b[3] as int) +
            0x100_0000 * (b[4] as int) + 0x1_0000 * (b[5] as int) + 0x100 * (b[6] as int) + (b[7] as int)
  {
    hide BigEndian;
    var s := b[..8];
    Horner(s, 0);
    Horner(s, 1);
    Horner(s, 2);
    Horner(s, 3);
    Horner(s, 4);
    Horner(s, 5);
    Horner(s, 6);
    Horner(s, 7);
    NoDigits();
    assert s[..8] == s && s[..0] == [];
  }

  lemma Horner(s: seq<byte>, i: nat)
    requires i < |s|
    ensures BigEndian(s[..i + 1]) == BigEndian(s[..i]) * 256 + s[i]
  {
    assert s[..i + 1][..i] == s[..i];
  }

  lemma NoDigits()
    ensures BigEndian([]) == 0
  {
  }

  /** `from_big_endian_bytes` */
  method FromBigEndianBytes(bytes: seq<byte>) returns (value: nat)
    ensures value == IdOf(bytes) && value < TWO_64
  {
    value := 0;
    var i := 0;
    while i < |bytes| && i < 8
      invariant 0 <= i <= |bytes| && i <= 8
      invariant value == BigEndian(bytes[..i]) && value < Pow256(i)
    {
      assert bytes[..i + 1][..i] == bytes[..i];
      value := value * 256 + bytes[i];
      i := i + 1;
    }
    Pow256Grows(i, 8);
    Pow256Of8();
  }

  function Pow256(n: nat): nat {
    if n == 0 then 1 else 256 * Pow256(n - 1)
  }

  lemma {:induction false} Pow256Grows(m: nat, n: nat)
    requires m <= n
    ensures Pow256(m) <= Pow256(n)
  {
    if m < n { Pow256Grows(m, n - 1); }
  }

  lemma Pow256Of8()
    ensures Pow256(8) == TWO_64
  {
    assert Pow256(2) == 0x1_0000;
    assert Pow256(4) == 0x1_0000_0000;
    assert Pow256(6) == 0x1_0000_0000_0000;
  }

  lemma {:induction false} BigEndianInjective(s: seq<byte>, t: seq<byte>)
    requires |s| == |t| && BigEndian(s) == BigEndian(t)
    ensures s == t
  {
    if s != [] {
      BigEndianInjective(s[..|s| - 1], t[..|t| - 1]);
      assert s == s[..|s| - 1] + [s[|s| - 1]];
      assert t == t[..|t| - 1] + [t[|t| - 1]];
    }
  }

  /** Users whose identities are eight bytes long, as the session writes them, have different ids. */
  lemma IdsAreDistinct(s: seq<byte>, t: seq<byte>)
    requires |s| == |t| == 8 && s != t
    ensures IdOf(s) != IdOf(t)
  {
    hide BigEndian;
    assert s[..8] == s && t[..8] == t;
    if IdOf(s) == IdOf(t) { BigEndianInjective(s, t); }
  }

  // ---------------------------------------------------------------------------------------
  // The new roster
  // ---------------------------------------------------------------------------------------

  function NewRoster(leaves: seq<Leaf>): RosterMap {
    if leaves == [] then map[]
    else
      var leaf := leaves[|leaves| - 1];
      var before := NewRoster(leaves[..|leaves| - 1]);
      if leaf.identity.None? then before else before[IdOf(leaf.identity.value) := leaf.signatureKey]
  }

  predicate Names(leaf: Leaf, id: nat) {
    leaf.identity.Some? && IdOf(leaf.identity.value) == id
  }

  /** An id is in the roster exactly when a basic leaf has it, with the key of the last such leaf. */
  ghost predicate LastLeafWins(leaves: seq<Leaf>, roster: RosterMap) {
    && (forall leaf, id :: leaf in leaves && Names(leaf, id) ==> id in roster)
    && (forall id :: id in roster ==> exists k :: LastNamed(leaves, k, id) && roster[id] == leaves[k].signatureKey)
  }

  predicate LastNamed(leaves: seq<Leaf>, k: int, id: nat) {
    0 <= k < |leaves| && Names(leaves[k], id) && forall j :: k < j < |leaves| ==> !Names(leaves[j], id)
  }

  lemma {:induction false} NewRosterIsLast(leaves: seq<Leaf>)
    ensures LastLeafWins(leaves, NewRoster(leaves))
  {
    hide IdOf;
    if leaves != [] {
      var rest, leaf := leaves[..|leaves| - 1], leaves[|leaves| - 1];
      NewRosterIsLast(rest);
      var (roster, before) := (NewRoster(leaves), NewRoster(rest));
      forall id | id in roster
        ensures exists k :: LastNamed(leaves, k, id) && roster[id] == leaves[k].signatureKey
      {
        if !Names(leaf, id) {
          var k :| LastNamed(rest, k, id) && before[id] == rest[k].signatureKey;
          assert LastNamed(leaves, k, id);
        } else {
          assert LastNamed(leaves, |rest|, id);
        }
      }
    }
  }

  /** The first loop of `replace_state`. */
  method CollectRoster(leaves: seq<Leaf>) returns (roster: RosterMap)
    ensures roster == NewRoster(leaves)
  {
    hide IdOf;
    roster := map[];
    for i := 0 to |leaves|
      invariant roster == NewRoster(leaves[..i])
    {
      assert leaves[..i + 1][..i] == leaves[..i];
      if leaves[i].identity.Some? {
        var id := FromBigEndianBytes(leaves[i].identity.value);
        roster := roster[id := leaves[i].signatureKey];
      }
    }
    assert leaves[..|leaves|] == leaves;
  }

  // ---------------------------------------------------------------------------------------
  // Iteration order and set difference
  // ---------------------------------------------------------------------------------------

  predicate IsLeast(id: nat, ids: set<nat>) {
    id in ids && forall other :: other in ids ==> id <= other
  }

  lemma {:induction false} HasLeast(ids: set<nat>)
    requires ids != {}
    ensures exists id :: IsLeast(id, ids)
    decreases |ids|
  {
    var some :| some in ids;
    var rest := ids - {some};
    assert ids == rest + {some};
    if rest == {} {
      assert IsLeast(some, ids);
    } else {
      HasLeast(rest);
      var least: nat :| IsLeast(least, rest);
      assert IsLeast(if some <= least then some else least, ids);
    }
  }

  function Least(ids: set<nat>): (r: nat)
    requires ids != {}
    ensures IsLeast(r, ids)
  {
    HasLeast(ids);
    var id :| IsLeast(id, ids);
    id
  }

  /** The entries of a map in the order in which `std::map` iterates over them. */
  function Entries(m: RosterMap): seq<Entry>
    decreases |m|
  {
    if m == map[] then []
    else
      var id := Least(m.Keys);
      [Entry(id, m[id])] + Entries(m - {id})
  }

  predicate Ascending(a: seq<Entry>) {
    forall i, j :: 0 <= i < j < |a| ==> a[i].id < a[j].id
  }

  ghost predicate Lists(a: seq<Entry>, m: RosterMap) {
    && Ascending(a)
    && forall e: Entry :: e in a <==> e.id in m && m[e.id] == e.key
  }

  lemma {:induction false} EntriesListed(m: RosterMap)
    ensures Lists(Entries(m), m)
    decreases |m|
  {
    if m != map[] {
      var id := Least(m.Keys);
      var rest := m - {id};
      EntriesListed(rest);
      hide Least;
      var (a, b) := (Entries(m), Entries(rest));
      assert a == [Entry(id, m[id])] + b;
      forall k | 0 <= k < |b| ensures id < b[k].id {
        assert b[k] in b;
      }
    }
  }

  /** `operator<` on byte vectors. */
  predicate LexLess(s: Key, t: Key) {
    t != [] && (s == [] || s[0] < t[0] || (s[0] == t[0] && LexLess(s[1..], t[1..])))
  }

  /** `operator<` on pairs. */
  predicate Less(e: Entry, f: Entry) {
    e.id < f.id || (e.id == f.id && LexLess(e.key, f.key))
  }

  lemma {:induction false} LexTrichotomy(s: Key, t: Key)
    ensures LexLess(s, t) || LexLess(t, s) <==> s != t
    ensures !(LexLess(s, t) && LexLess(t, s))
  {
    if s != [] && t != [] {
      LexTrichotomy(s[1..], t[1..]);
      assert s == [s[0]] + s[1..] && t == [t[0]] + t[1..];
    }
  }

  /** The entries of `a` that are not in `b`, in the order of `a`. */
  function Without(a: seq<Entry>, b: seq<Entry>): seq<Entry> {
    if a == [] then []
    else (if a[0] in b then [] else [a[0]]) + Without(a[1..], b)
  }

  lemma {:induction false} WithoutHas(a: seq<Entry>, b: seq<Entry>, e: Entry)
    ensures e in Without(a, b) <==> e in a && e !in b
  {
    if a != [] {
      WithoutHas(a[1..], b, e);
      assert a == [a[0]] + a[1..];
    }
  }

  lemma WithoutNext(a: seq<Entry>, b: seq<Entry>, i: nat, d: seq<Entry>)
    requires i < |a|
    ensures d + Without(a[i..], b) == (if a[i] in b then d else d + [a[i]]) + Without(a[i + 1..], b)
  {
    assert a[i..][1..] == a[i + 1..];
  }

  lemma {:induction false} WithoutNothingLeft(a: seq<Entry>, b: seq<Entry>)
    requires forall e :: e in a ==> e !in b
    ensures Without(a, b) == a
  {
    if a != [] { WithoutNothingLeft(a[1..], b); }
  }

  /** No entry of `b` before `j` is among the entries of `a` from `i` on. */
  predicate Passed(a: seq<Entry>, i: nat, b: seq<Entry>, j: nat)
    requires i <= |a| && j <= |b|
  {
    forall k, m :: i <= k < |a| && 0 <= m < j ==> a[k] != b[m]
  }

  /** `std::set_difference` on the entries of two maps: one pass over both. */
  method SetDifference(a: seq<Entry>, b: seq<Entry>) returns (d: seq<Entry>)
    requires Ascending(a) && Ascending(b)
    ensures d == Without(a, b)
  {
    hide Without, LexLess;
    d := [];
    var i, j := 0, 0;
    while i < |a|
      invariant 0 <= i <= |a| && 0 <= j <= |b|
      invariant Passed(a, i, b, j)
      invariant d + Without(a[i..], b) == Without(a, b)
      decreases |a| - i + |b| - j
    {
      if j == |b| {
        assert forall e :: e in a[i..] ==> e !in b;
        WithoutNothingLeft(a[i..], b);
        d := d + a[i..];
        return;
      }
      LexTrichotomy(a[i].key, b[j].key);
      if Less(a[i], b[j]) {
        NotBehind(a[i], b, j);
        WithoutNext(a, b, i, d);
        d := d + [a[i]];
        i := i + 1;
      } else {
        if !Less(b[j], a[i]) {
          WithoutNext(a, b, i, d);
          i := i + 1;
        }
        j := j + 1;
      }
    }
    assert a[i..] == [];
    WithoutNothingLeft([], b);
  }

  lemma NotBehind(e: Entry, b: seq<Entry>, j: nat)
    requires Ascending(b) && j < |b| && Less(e, b[j]) && forall m :: 0 <= m < j ==> e != b[m]
    ensures e !in b
  {
    LexTrichotomy(e.key, b[j].key);
    forall m | 0 <= m < |b| ensures e != b[m] {
    }
  }

  // ---------------------------------------------------------------------------------------
  // The change map
  // ---------------------------------------------------------------------------------------

  /** Whether an id has the same entry, or none, in both maps. */
  predicate SameAt(m: RosterMap, m': RosterMap, id: nat) {
    (id in m <==> id in m') && (id in m ==> m[id] == m'[id])
  }

  /** The ids whose entry differs, with the new key, or an empty one when there is none. */
  function Changes(was: RosterMap, now: RosterMap): RosterMap {
    map id | id in was.Keys + now.Keys && !SameAt(was, now, id) :: if id in now then now[id] else []
  }

  /** `r` is `m` with the entries of `d` whose ids it lacks, their keys blanked if `blank`. */
  ghost predicate Inserted(m: RosterMap, d: seq<Entry>, blank: bool, r: RosterMap) {
    && (forall id :: id in m ==> id in r && r[id] == m[id])
    && (forall e :: e in d ==> e.id in r)
    && (forall id :: id in r ==> id in m || exists e :: e in d && e.id == id && r[id] == (if blank then [] else e.key))
  }

  /** Inserting every entry of `d`: `std::map::insert`, or `try_emplace` with an empty key, neither of
      which touches an entry that is there already. */
  method InsertEach(m: RosterMap, d: seq<Entry>, blank: bool) returns (r: RosterMap)
    ensures Inserted(m, d, blank, r)
  {
    r := m;
    for i := 0 to |d|
      invariant Inserted(m, d[..i], blank, r)
    {
      InsertOne(m, d, blank, r, i);
      if d[i].id !in r {
        r := r[d[i].id := if blank then [] else d[i].key];
      }
    }
    assert d[..|d|] == d;
  }

  lemma InsertOne(m: RosterMap, d: seq<Entry>, blank: bool, r: RosterMap, i: nat)
    requires i < |d| && Inserted(m, d[..i], blank, r)
    ensures Inserted(m, d[..i + 1], blank,
                     if d[i].id in r then r else r[d[i].id := if blank then [] else d[i].key])
  {
    var e := d[i];
    var r' := if e.id in r then r else r[e.id := if blank then [] else e.key];
    assert d[..i + 1] == d[..i] + [e];
    forall id | id in r' && id !in m
      ensures exists f :: f in d[..i + 1] && f.id == id && r'[id] == (if blank then [] else f.key)
    {
      if id in r {
        var f :| f in d[..i] && f.id == id && r[id] == (if blank then [] else f.key);
        assert f in d[..i + 1];
      } else {
        assert e in d[..i + 1];
      }
    }
  }

  /** Two one-way differences, the second inserted with empty keys, give the changes. */
  lemma DifferencesAreChanges(was: RosterMap, now: RosterMap, b: seq<Entry>, a: seq<Entry>, r: RosterMap, r': RosterMap)
    requires Lists(b, was) && Lists(a, now)
    requires Inserted(map[], Without(a, b), false, r) && Inserted(r, Without(b, a), true, r')
    ensures r' == Changes(was, now)
  {
    hide Without, Ascending;
    forall e: Entry
      ensures e in Without(a, b) <==> e.id in now && now[e.id] == e.key && !SameAt(was, now, e.id)
      ensures e in Without(b, a) <==> e.id in was && was[e.id] == e.key && !SameAt(was, now, e.id)
    {
      WithoutHas(a, b, e);
      WithoutHas(b, a, e);
    }
    forall id: nat ensures id in r' <==> id in Changes(was, now) {
      if id in now && !SameAt(was, now, id) { assert Entry(id, now[id]) in Without(a, b); }
      if id in was && !SameAt(was, now, id) { assert Entry(id, was[id]) in Without(b, a); }
    }
    forall id | id in r' ensures r'[id] == Changes(was, now)[id] {
      if id in now { assert Entry(id, now[id]) in Without(a, b); }
    }
  }

  class Session {
    var roster: RosterMap

    constructor ()
      ensures roster == map[]
    {
      roster := map[];
    }

    /** `replace_state` */
    method ReplaceState(leaves: seq<Leaf>) returns (changes: RosterMap)
      modifies this
      ensures roster == NewRoster(leaves)
      ensures changes == Changes(old(roster), roster)
    {
      hide Entries, NewRoster, Without, Inserted, Lists;
      var newRoster := CollectRoster(leaves);
      var (a, b) := (Entries(newRoster), Entries(roster));
      EntriesListed(newRoster);
      EntriesListed(roster);
      ListsAscend(a, newRoster);
      ListsAscend(b, roster);
      var added := SetDifference(a, b);
      changes := InsertEach(map[], added, false);
      ghost var first := changes;
      var missing := SetDifference(b, a);
      changes := InsertEach(changes, missing, true);
      DifferencesAreChanges(roster, newRoster, b, a, first, changes);
      roster := newRoster;
    }
  }

  lemma ListsAscend(a: seq<Entry>, m: RosterMap)
    requires Lists(a, m)
    ensures Ascending(a)
  {
  }

  // ---------------------------------------------------------------------------------------
  // Following a session by its change maps
  // ---------------------------------------------------------------------------------------

  /** What a listener does with a change map: an empty key removes the user. */
  function Patched(seen: RosterMap, changes: RosterMap): RosterMap {
    map id | id in seen.Keys + changes.Keys && (id in changes ==> changes[id] != []) ::
      if id in changes then changes[id] else seen[id]
  }

  /** The users whose key is not empty. */
  function WithKey(roster: RosterMap): RosterMap {
    map id | id in roster && roster[id] != [] :: roster[id]
  }

  /** The roster after a run of states, each given by its leaves. */
  function RosterAfter(states: seq<seq<Leaf>>): RosterMap {
    if states == [] then map[] else NewRoster(states[|states| - 1])
  }

  /** What a listener has made of the change maps of the same run. */
  function SeenAfter(states: seq<seq<Leaf>>): RosterMap {
    if states == [] then map[]
    else
      var before := states[..|states| - 1];
      Patched(SeenAfter(before), Changes(RosterAfter(before), RosterAfter(states)))
  }

  lemma PatchStep(was: RosterMap, now: RosterMap)
    ensures Patched(WithKey(was), Changes(was, now)) == WithKey(now)
  {
    var r := Patched(WithKey(was), Changes(was, now));
    forall id: nat ensures id in r <==> id in WithKey(now) {
      assert id in Changes(was, now) <==> !SameAt(was, now, id);
    }
  }

  /** A change map is empty exactly when nothing changed. */
  lemma NoChanges(was: RosterMap, now: RosterMap)
    ensures Changes(was, now) == map[] <==> was == now
  {
    if Changes(was, now) == map[] {
      forall id: nat ensures SameAt(was, now, id) {
        assert id !in Changes(was, now);
      }
      assert forall id :: id in was ==> SameAt(was, now, id);
      assert forall id :: id in now ==> SameAt(was, now, id);
    }
  }

  /** Over every run, the patches telescope to the users of the current roster that have a key. */
  lemma {:induction false} SeenIsWithKey(states: seq<seq<Leaf>>)
    ensures SeenAfter(states) == WithKey(RosterAfter(states))
  {
    if states != [] {
      var before := states[..|states| - 1];
      SeenIsWithKey(before);
      PatchStep(RosterAfter(before), RosterAfter(states));
    }
  }

  /** No user is left with an empty key by its last basic leaf. */
  ghost predicate LastKeysNotEmpty(leaves: seq<Leaf>) {
    forall k, id :: 0 <= k < |leaves| && Names(leaves[k], id) && leaves[k].signatureKey == [] ==>
      exists j :: k < j < |leaves| && Names(leaves[j], id)
  }

  /** The patches of a run give the current roster exactly when every user of the last state has a
      key: an empty key is reported in the same way as a removal. */
  lemma Telescopes(states: seq<seq<Leaf>>)
    requires states != []
    ensures SeenAfter(states) == RosterAfter(states) <==> LastKeysNotEmpty(states[|states| - 1])
  {
    hide SeenAfter, NewRoster;
    SeenIsWithKey(states);
    var leaves := states[|states| - 1];
    var roster := NewRoster(leaves);
    NewRosterIsLast(leaves);
    EmptyKeys(leaves, roster);
    if forall id :: id in roster ==> roster[id] != [] {
      assert WithKey(roster) == roster;
    } else {
      var id :| id in roster && roster[id] == [];
      assert id !in WithKey(roster);
    }
  }

  /** A user who joins with an empty key is in the roster, and a listener does not see him. */
  lemma EmptyKeyIsNotSeen(identity: seq<byte>)
    ensures SeenAfter([[Leaf(Some(identity), [])]]) != RosterAfter([[Leaf(Some(identity), [])]])
  {
    hide SeenAfter, RosterAfter, IdOf;
    var leaves := [Leaf(Some(identity), [])];
    Telescopes([leaves]);
    assert Names(leaves[0], IdOf(identity));
  }

  lemma EmptyKeys(leaves: seq<Leaf>, roster: RosterMap)
    requires LastLeafWins(leaves, roster)
    ensures LastKeysNotEmpty(leaves) <==> forall id :: id in roster ==> roster[id] != []
  {
    hide Names;
  }
}
