/** Plaintext ranges of a frame (`src/dave/frame_processors.cpp`): how they are written to and
    read from the footer, when they are valid, and how they interleave two byte buffers. */
module Ranges {
  import opened Bytes
  import Leb128

  datatype Range = Range(offset: nat, size: nat) {
    function End(): nat { offset + size }
  }

  predicate InWords(ranges: seq<Range>) {
    forall r :: r in ranges ==> r.offset < TWO_64 && r.size < TWO_64
  }

  // ---------------------------------------------------------------------------------------
  // The footer encoding
  // ---------------------------------------------------------------------------------------

  function EncodeRange(r: Range): seq<byte> {
    Leb128.Encode(r.offset) + Leb128.Encode(r.size)
  }

  function EncodeRanges(ranges: seq<Range>): seq<byte> {
    if ranges == [] then [] else EncodeRange(ranges[0]) + EncodeRanges(ranges[1..])
  }

  function DecodeRanges(s: seq<byte>): Option<seq<Range>>
    decreases |s|
  {
    if s == [] then Some([])
    else match Leb128.Decode(s, 0)
      case Malformed => None
      case Value(offset, n) =>
        match Leb128.Decode(s[n..], 0)
        case Malformed => None
        case Value(size, m) =>
          Following([Range(offset, size)], DecodeRanges(s[n + m..]))
  }

  /** Every list of 64-bit ranges comes back from its encoding. */
  lemma {:induction false} DecodeEncodeRanges(ranges: seq<Range>)
    requires InWords(ranges)
    ensures DecodeRanges(EncodeRanges(ranges)) == Some(ranges)
  {
    hide EncodeRange;
    if ranges != [] {
      DecodeEncodeRanges(ranges[1..]);
      hide DecodeRanges;
      DecodeEncodeRange(ranges[0], EncodeRanges(ranges[1..]));
      assert [ranges[0]] + ranges[1..] == ranges;
    }
  }

  lemma DecodeEncodeRange(r: Range, rest: seq<byte>)
    requires r.offset < TWO_64 && r.size < TWO_64
    ensures DecodeRanges(EncodeRange(r) + rest) == Following([r], DecodeRanges(rest))
  {
    hide Leb128.Encode, Leb128.Decode, DecodeRanges, Following;
    var a, b := Leb128.Encode(r.offset), Leb128.Encode(r.size);
    var s := EncodeRange(r) + rest;
    assert s == a + (b + rest) && s[|a|..] == b + rest && s[|a| + |b|..] == rest;
    Leb128.DecodeEncode64(r.offset, b + rest);
    Leb128.DecodeEncode64(r.size, rest);
    DecodeRangesUnfolds(s);
  }

  lemma DecodeRangesUnfolds(s: seq<byte>)
    ensures s == [] ==> DecodeRanges(s) == Some([])
    ensures s != [] && Leb128.Decode(s, 0).Malformed? ==> DecodeRanges(s) == None
    ensures s != [] && Leb128.Decode(s, 0).Value? ==>
              var d := Leb128.Decode(s, 0);
              var e := Leb128.Decode(s[d.used..], 0);
              DecodeRanges(s) == match e
                                 case Malformed => None
                                 case Value(size, m) => Following([Range(d.value, size)], DecodeRanges(s[d.used + m..]))
  {
    hide Leb128.Decode, Following;
  }

  /** Whatever is accepted is at least as long as the same ranges written out again. */
  lemma {:induction false} DecodedRangesNotShorter(s: seq<byte>)
    requires DecodeRanges(s).Some?
    ensures |EncodeRanges(DecodeRanges(s).value)| <= |s| && InWords(DecodeRanges(s).value)
    decreases |s|
  {
    hide Leb128.Decode, Leb128.Encode;
    if s != [] {
      var n := Leb128.Decode(s, 0).used;
      var m := Leb128.Decode(s[n..], 0).used;
      Leb128.DecodeNotShorter(s, 0);
      Leb128.DecodeNotShorter(s[n..], 0);
      Leb128.DecodeBelow64Bits(s);
      Leb128.DecodeBelow64Bits(s[n..]);
      DecodedRangesNotShorter(s[n + m..]);
      var ranges := DecodeRanges(s).value;
      assert ranges[1..] == DecodeRanges(s[n + m..]).value;
    }
  }

  /** The ranges that `Serialize` has room for: it stops at the first that does not fit. */
  function Fitting(ranges: seq<Range>, room: nat): seq<Range> {
    if ranges == [] || |EncodeRange(ranges[0])| > room then []
    else [ranges[0]] + Fitting(ranges[1..], room - |EncodeRange(ranges[0])|)
  }

  /** Nothing is lost exactly when the whole encoding fits. */
  lemma {:induction false} FittingIsAll(ranges: seq<Range>, room: nat)
    ensures Fitting(ranges, room) == ranges <==> |EncodeRanges(ranges)| <= room
    ensures |EncodeRanges(Fitting(ranges, room))| <= room
  {
    if ranges != [] && |EncodeRange(ranges[0])| <= room {
      var rest := room - |EncodeRange(ranges[0])|;
      FittingIsAll(ranges[1..], rest);
      var kept := Fitting(ranges, room);
      assert kept[1..] == Fitting(ranges[1..], rest);
      assert ranges == [ranges[0]] + ranges[1..];
    }
  }

  /** `serialize_unencrypted_ranges` into `buffer` from `at`.  The count it returns is an 8-bit value. */
  method Serialize(ranges: seq<Range>, buffer: array<byte>, at: nat) returns (size: nat)
    requires InWords(ranges) && at <= buffer.Length
    modifies buffer
    ensures size == |EncodeRanges(Fitting(ranges, buffer.Length - at))| % 256
    ensures |EncodeRanges(Fitting(ranges, buffer.Length - at))| <= buffer.Length - at
    ensures buffer[..] == Overwrite(old(buffer[..]), at, EncodeRanges(Fitting(ranges, buffer.Length - at)))
  {
    hide EncodeRange, EncodeRanges, Fitting, Overwrite, Leb128.Encode;
    ghost var was := buffer[..];
    ghost var all := EncodeRanges(Fitting(ranges, buffer.Length - at));
    ghost var done: seq<byte> := [];
    FittingIsAll(ranges, buffer.Length - at);
    assert ranges[0..] == ranges;
    OverwriteNothing(was, at);
    var i, writeAt := 0, at;
    while i < |ranges|
      invariant i <= |ranges| && writeAt == at + |done| <= buffer.Length == |was|
      invariant all == done + EncodeRanges(Fitting(ranges[i..], buffer.Length - writeAt))
      invariant buffer[..] == Overwrite(was, at, done)
    {
      var offsetSize := Leb128.Size(ranges[i].offset);
      var sizeSize := Leb128.Size(ranges[i].size);
      EncodeRangeSize(ranges[i]);
      if offsetSize + sizeSize > buffer.Length - writeAt { break; }
      SerializeStep(ranges[i..], buffer.Length - writeAt, done);
      assert ranges[i..][1..] == ranges[i + 1..];
      var n := WriteRange(ranges[i], buffer, writeAt);
      OverwriteTwice(was, at, done, EncodeRange(ranges[i]));
      done := done + EncodeRange(ranges[i]);
      i, writeAt := i + 1, writeAt + n;
    }
    FittingNone(ranges[i..], buffer.Length - writeAt);
    assert done + [] == done;
    size := (writeAt - at) % 256;
  }

  method WriteRange(r: Range, buffer: array<byte>, at: nat) returns (size: nat)
    requires r.offset < TWO_64 && r.size < TWO_64
    requires at + |EncodeRange(r)| <= buffer.Length
    modifies buffer
    ensures size == |EncodeRange(r)|
    ensures buffer[..] == Overwrite(old(buffer[..]), at, EncodeRange(r))
  {
    OverwriteTwice(buffer[..], at, Leb128.Encode(r.offset), Leb128.Encode(r.size));
    size := Leb128.Write(r.offset, buffer, at);
    var n := Leb128.Write(r.size, buffer, at + size);
    size := size + n;
  }

  lemma EncodeRangeSize(r: Range)
    ensures |EncodeRange(r)| == |Leb128.Encode(r.offset)| + |Leb128.Encode(r.size)|
  {
  }

  lemma FittingNone(ranges: seq<Range>, room: nat)
    requires ranges == [] || |EncodeRange(ranges[0])| > room
    ensures EncodeRanges(Fitting(ranges, room)) == []
  {
  }

  lemma SerializeStep(ranges: seq<Range>, room: nat, done: seq<byte>)
    requires ranges != [] && |EncodeRange(ranges[0])| <= room
    ensures done + EncodeRanges(Fitting(ranges, room))
            == (done + EncodeRange(ranges[0]))
               + EncodeRanges(Fitting(ranges[1..], room - |EncodeRange(ranges[0])|))
  {
    var kept := Fitting(ranges, room);
    assert kept[0] == ranges[0] && kept[1..] == Fitting(ranges[1..], room - |EncodeRange(ranges[0])|);
  }

  /** `deserialize_unencrypted_ranges`; `None` is the null read pointer, with the list cleared. */
  method Deserialize(s: seq<byte>) returns (ranges: Option<seq<Range>>)
    ensures ranges == DecodeRanges(s)
  {
    hide DecodeRanges, Leb128.Decode, Following;
    var readAt := 0;
    var list: seq<Range> := [];
    assert s[0..] == s;
    FollowingNothing(DecodeRanges(s));
    while readAt < |s|
      invariant readAt <= |s|
      invariant DecodeRanges(s) == Following(list, DecodeRanges(s[readAt..]))
    {
      DecodeRangesUnfolds(s[readAt..]);
      FollowingNone(list);
      var offset, n := Leb128.Read(s[readAt..]);
      if n.None? { return None; }
      assert s[readAt..][n.value..] == s[readAt + n.value..];
      var size, m := Leb128.Read(s[readAt + n.value..]);
      if m.None? { return None; }
      var next := readAt + n.value + m.value;
      assert s[readAt..][n.value + m.value..] == s[next..];
      FollowingOne(list, Range(offset, size), DecodeRanges(s[next..]));
      list, readAt := list + [Range(offset, size)], next;
    }
    DecodeRangesUnfolds(s[readAt..]);
    FollowingNone(list);
    return Some(list);
  }

  lemma FollowingNone(list: seq<Range>)
    ensures Following(list, None) == None && Following(list, Some([])) == Some(list)
  {
    assert list + [] == list;
  }

  lemma FollowingNothing(rest: Option<seq<Range>>)
    ensures Following([], rest) == rest
  {
    if rest.Some? { assert [] + rest.value == rest.value; }
  }

  lemma FollowingOne(list: seq<Range>, r: Range, rest: Option<seq<Range>>)
    ensures Following(list, Following([r], rest)) == Following(list + [r], rest)
  {
    if rest.Some? { assert list + ([r] + rest.value) == list + [r] + rest.value; }
  }

  function Following(list: seq<Range>, rest: Option<seq<Range>>): Option<seq<Range>> {
    match rest
    case None => None
    case Some(more) => Some(list + more)
  }

  // ---------------------------------------------------------------------------------------
  // Validity
  // ---------------------------------------------------------------------------------------

  /** The ranges from number `i` on lie in order, without overlap, from index `at` on inside the
      first `size` bytes. */
  predicate Chained(ranges: seq<Range>, i: nat, at: nat, size: nat)
    requires i <= |ranges|
    decreases |ranges| - i
  {
    if i == |ranges| then at <= size
    else at <= ranges[i].offset && Chained(ranges, i + 1, ranges[i].End(), size)
  }

  /** Where the last range ends. */
  function LastEnd(ranges: seq<Range>, at: nat): nat {
    if ranges == [] then at else ranges[|ranges| - 1].End()
  }

  lemma {:induction false} ChainedBounds(ranges: seq<Range>, i: nat, at: nat, size: nat)
    requires i <= |ranges| && Chained(ranges, i, at, size)
    ensures at <= size && (i < |ranges| ==> at <= LastEnd(ranges, at) <= size)
    decreases |ranges| - i
  {
    if i < |ranges| { ChainedBounds(ranges, i + 1, ranges[i].End(), size); }
  }

  lemma {:induction false} ChainedFromBounds(ranges: seq<Range>, i: nat, at: nat, size: nat)
    requires i <= |ranges| && Chained(ranges, i, at, size)
    ensures forall j :: i <= j < |ranges| ==> ranges[j].End() <= size
    decreases |ranges| - i
  {
    if i < |ranges| {
      ChainedBounds(ranges, i + 1, ranges[i].End(), size);
      ChainedFromBounds(ranges, i + 1, ranges[i].End(), size);
      hide Chained;
      assert ranges[i].End() <= size;
    }
  }

  lemma ChainedInWords(ranges: seq<Range>, size: nat)
    requires Chained(ranges, 0, 0, size) && size < TWO_64
    ensures InWords(ranges)
  {
    ChainedFromBounds(ranges, 0, 0, size);
  }

  /** The form in which `validate_unencrypted_ranges` tests for chaining: a range ends no later than the
      next begins, the last no later than the frame. */
  predicate BeforeNext(ranges: seq<Range>, i: nat, size: nat)
    requires i < |ranges|
  {
    ranges[i].End() <= if i + 1 < |ranges| then ranges[i + 1].offset else size
  }

  lemma {:induction false} EachBeforeNextIsChained(ranges: seq<Range>, i: nat, size: nat)
    requires i < |ranges|
    ensures Chained(ranges, i, ranges[i].offset, size)
            <==> forall j :: i <= j < |ranges| ==> BeforeNext(ranges, j, size)
    decreases |ranges| - i
  {
    if i + 1 < |ranges| { EachBeforeNextIsChained(ranges, i + 1, size); }
    assert Chained(ranges, i, ranges[i].offset, size)
        <==> BeforeNext(ranges, i, size) && (i + 1 < |ranges| ==> Chained(ranges, i + 1, ranges[i + 1].offset, size));
  }

  /** `checked_add`: the sum, unless it leaves 64 bits. */
  function CheckedAdd(a: nat, b: nat): (r: Option<nat>)
    requires a < TWO_64 && b < TWO_64
    ensures r == if a + b < TWO_64 then Some(a + b) else None
  {
    if a > TWO_64 - 1 - b then None else Some(a + b)
  }

  /** `validate_unencrypted_ranges` */
  method Validate(ranges: seq<Range>, frameSize: nat) returns (ok: bool)
    requires InWords(ranges) && frameSize < TWO_64
    ensures ok <==> Chained(ranges, 0, 0, frameSize)
  {
    if ranges != [] { EachBeforeNextIsChained(ranges, 0, frameSize); }
    var i := 0;
    while i < |ranges|
      invariant i <= |ranges|
      invariant forall j :: 0 <= j < i ==> BeforeNext(ranges, j, frameSize)
    {
      var maxEnd := if i + 1 < |ranges| then ranges[i + 1].offset else frameSize;
      var end := CheckedAdd(ranges[i].offset, ranges[i].size);
      if end.None? || end.value > maxEnd {
        assert !BeforeNext(ranges, i, frameSize);
        return false;
      }
      i := i + 1;
    }
    return true;
  }

  // ---------------------------------------------------------------------------------------
  // Interleaving two buffers
  // ---------------------------------------------------------------------------------------

  /** The bytes in the ranges from number `i` on. */
  function Total(ranges: seq<Range>, i: nat): nat
    requires i <= |ranges|
    decreases |ranges| - i
  {
    if i == |ranges| then 0 else ranges[i].size + Total(ranges, i + 1)
  }

  function Gap(r: Range, at: nat): nat {
    if r.offset > at then r.offset - at else 0
  }

  /** Whether interleaving from range `i` on finds the bytes it asks for, when `p` of `plainSize`
      bytes from inside ranges and `o` of `otherSize` from outside them are used up already. */
  predicate Weavable(ranges: seq<Range>, i: nat, p: nat, plainSize: nat, o: nat, otherSize: nat)
    requires i <= |ranges|
    decreases |ranges| - i
  {
    p <= plainSize && o <= otherSize &&
    (i == |ranges| ||
     Weavable(ranges, i + 1, p + ranges[i].size, plainSize, o + Gap(ranges[i], p + o), otherSize))
  }

  /** The frame from index `p + o` on: bytes of `plain` inside the ranges, of `other` outside. */
  function Weave(ranges: seq<Range>, i: nat, plain: seq<byte>, p: nat, other: seq<byte>, o: nat): (s: seq<byte>)
    requires i <= |ranges| && Weavable(ranges, i, p, |plain|, o, |other|)
    ensures |s| == Total(ranges, i) + |other| - o
    decreases |ranges| - i
  {
    if i == |ranges| then other[o..]
    else
      var r, gap := ranges[i], Gap(ranges[i], p + o);
      assert Weavable(ranges, i + 1, p + r.size, |plain|, o + gap, |other|);
      other[o..o + gap] + plain[p..p + r.size] + Weave(ranges, i + 1, plain, p + r.size, other, o + gap)
  }

  lemma WeaveUnfolds(ranges: seq<Range>, i: nat, plain: seq<byte>, p: nat, other: seq<byte>, o: nat)
    requires i < |ranges| && Weavable(ranges, i, p, |plain|, o, |other|)
    ensures var r, gap := ranges[i], Gap(ranges[i], p + o);
            && Weavable(ranges, i + 1, p + r.size, |plain|, o + gap, |other|)
            && p + r.size <= |plain| && o + gap <= |other|
            && Weave(ranges, i, plain, p, other, o)
               == other[o..o + gap] + plain[p..p + r.size] + Weave(ranges, i + 1, plain, p + r.size, other, o + gap)
  {
  }

  lemma WeavableStep(ranges: seq<Range>, i: nat, p: nat, plainSize: nat, o: nat, otherSize: nat)
    requires i < |ranges| && p <= plainSize && o <= otherSize
    ensures Weavable(ranges, i, p, plainSize, o, otherSize)
            <==> Weavable(ranges, i + 1, p + ranges[i].size, plainSize, o + Gap(ranges[i], p + o), otherSize)
  {
  }

  lemma WeaveEnds(ranges: seq<Range>, plain: seq<byte>, p: nat, other: seq<byte>, o: nat)
    requires p <= |plain| && o <= |other|
    ensures Weavable(ranges, |ranges|, p, |plain|, o, |other|)
    ensures Weave(ranges, |ranges|, plain, p, other, o) == other[o..]
  {
  }

  predicate CanWeave(ranges: seq<Range>, plainSize: nat, otherSize: nat) {
    Weavable(ranges, 0, 0, plainSize, 0, otherSize)
  }

  /** The whole frame. */
  function Woven(ranges: seq<Range>, plain: seq<byte>, other: seq<byte>): (s: seq<byte>)
    requires CanWeave(ranges, |plain|, |other|)
    ensures |s| == Total(ranges, 0) + |other|
  {
    Weave(ranges, 0, plain, 0, other, 0)
  }

  /** `do_reconstruct`: the loop over the ranges with its three indices. */
  method Reconstruct(ranges: seq<Range>, plain: seq<byte>, other: seq<byte>, output: array<byte>)
    returns (frameIndex: nat)
    requires CanWeave(ranges, |plain|, |other|)
    requires Total(ranges, 0) + |other| <= output.Length
    modifies output
    ensures frameIndex == Total(ranges, 0) + |other|
    ensures output[..] == Overwrite(old(output[..]), 0, Woven(ranges, plain, other))
  {
    hide Weave, Overwrite, Weavable, Total, Gap;
    ghost var was := output[..];
    ghost var all := Woven(ranges, plain, other);
    ghost var done: seq<byte> := [];
    var p: nat, o: nat, i: nat := 0, 0, 0;
    frameIndex := 0;
    OverwriteNothing(was, 0);
    while i < |ranges|
      invariant i <= |ranges| && frameIndex == |done| == p + o
      invariant p <= |plain| && o <= |other| && Weavable(ranges, i, p, |plain|, o, |other|)
      invariant all == done + Weave(ranges, i, plain, p, other, o)
      invariant |all| <= output.Length == |was|
      invariant output[..] == Overwrite(was, 0, done)
    {
      var r := ranges[i];
      ghost var gap := Gap(r, frameIndex);
      WeaveUnfolds(ranges, i, plain, p, other, o);
      ghost var next := done + other[o..o + gap] + plain[p..p + r.size];
      assert all == next + Weave(ranges, i + 1, plain, p + r.size, other, o + gap);
      frameIndex, p, o := CopyRange(r, plain, p, other, o, output, frameIndex, was, done);
      done, i := next, i + 1;
    }
    WeaveEnds(ranges, plain, p, other, o);
    if o < |other| {
      Append(other[o..], output, frameIndex, was, done);
      frameIndex := frameIndex + (|other| - o);
    } else {
      assert all == done;
    }
  }

  /** One turn of that loop: the bytes before the range, if any, then the range. */
  method CopyRange(r: Range, plain: seq<byte>, p: nat, other: seq<byte>, o: nat, output: array<byte>, at: nat,
                   ghost was: seq<byte>, ghost done: seq<byte>)
    returns (at': nat, p': nat, o': nat)
    requires p + r.size <= |plain| && o + Gap(r, at) <= |other|
    requires at == |done| && |was| == output.Length && at + Gap(r, at) + r.size <= output.Length
    requires output[..] == Overwrite(was, 0, done)
    modifies output
    ensures p' == p + r.size && o' == o + Gap(r, at) && at' == at + Gap(r, at) + r.size
    ensures output[..] == Overwrite(was, 0, done + other[o..o'] + plain[p..p'])
  {
    at', p', o' := at, p, o;
    if r.offset > at' {
      var size := r.offset - at';
      Append(other[o..o + size], output, at', was, done);
      o', at' := o' + size, at' + size;
    }
    assert o' == o ==> done + other[o..o'] == done;
    Append(plain[p..p + r.size], output, at', was, done + other[o..o']);
    p', at' := p' + r.size, at' + r.size;
  }

  /** `std::copy` into an output span. */
  method CopyInto(source: seq<byte>, output: array<byte>, at: nat)
    requires at + |source| <= output.Length
    modifies output
    ensures output[..] == Overwrite(old(output[..]), at, source)
  {
    ghost var was := output[..];
    var i := 0;
    while i < |source|
      invariant i <= |source|
      invariant output[..] == Overwrite(was, at, source[..i])
    {
      OverwriteByte(was, at, source[..i], source[i]);
      assert source[..i] + [source[i]] == source[..i + 1];
      ghost var before := output[..];
      output[at + i] := source[i];
      assert output[..] == before[at + i := source[i]];
      i := i + 1;
    }
    assert source[..i] == source;
  }

  /** A copy behind what has been written so far, `done`. */
  method Append(source: seq<byte>, output: array<byte>, at: nat, ghost was: seq<byte>, ghost done: seq<byte>)
    requires at == |done| && |was| == output.Length && at + |source| <= output.Length
    requires output[..] == Overwrite(was, 0, done)
    modifies output
    ensures output[..] == Overwrite(was, 0, done + source)
  {
    OverwriteTwice(was, 0, done, source);
    CopyInto(source, output, at);
  }
}
