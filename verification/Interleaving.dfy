/** Cutting a frame at its ranges and weaving it back are inverse to each other, and the
    bookkeeping of the outbound processor describes exactly the bytes handed to it. */
module Interleaving {
  import opened Bytes
  import opened Sequences
  import opened Ranges

  /** What is inside the ranges, and what is outside them up to index `limit`. */
  datatype Parts = Parts(plain: seq<byte>, other: seq<byte>)

  /** `parse_frame`'s split of `frame` at the ranges from number `i` on, starting at index `at`. */
  function Cut(ranges: seq<Range>, i: nat, at: nat, frame: seq<byte>, limit: nat): (parts: Parts)
    requires i <= |ranges| && Chained(ranges, i, at, |frame|) && limit <= |frame|
    decreases |ranges| - i
  {
    if i == |ranges| then
      Parts([], if at < limit then frame[at..limit] else [])
    else
      var r := ranges[i];
      ChainedBounds(ranges, i + 1, r.End(), |frame|);
      var rest := Cut(ranges, i + 1, r.End(), frame, limit);
      Parts(frame[r.offset..r.End()] + rest.plain, frame[at..r.offset] + rest.other)
  }

  lemma CutStep(ranges: seq<Range>, i: nat, at: nat, frame: seq<byte>, limit: nat)
    requires i < |ranges| && Chained(ranges, i, at, |frame|) && limit <= |frame|
    ensures var r := ranges[i];
            && at <= r.offset && r.End() <= |frame| && Chained(ranges, i + 1, r.End(), |frame|)
            && var rest := Cut(ranges, i + 1, r.End(), frame, limit);
               Cut(ranges, i, at, frame, limit)
               == Parts(frame[r.offset..r.End()] + rest.plain, frame[at..r.offset] + rest.other)
  {
    ChainedBounds(ranges, i + 1, ranges[i].End(), |frame|);
  }

  /** How far a frame is cut: to `limit`, or to the end of a last range that reaches beyond it. */
  function CutEnd(ranges: seq<Range>, limit: nat): nat {
    Max(LastEnd(ranges, 0), limit)
  }

  lemma {:induction false} CutSizes(ranges: seq<Range>, i: nat, at: nat, frame: seq<byte>, limit: nat, end: nat)
    requires i <= |ranges| && Chained(ranges, i, at, |frame|) && limit <= |frame|
    requires end == Max(limit, if i == |ranges| then at else LastEnd(ranges, 0))
    ensures var parts := Cut(ranges, i, at, frame, limit);
            && |parts.plain| == Total(ranges, i)
            && at <= end <= |frame|
            && |parts.plain| + |parts.other| == end - at
    decreases |ranges| - i
  {
    ChainedBounds(ranges, i, at, |frame|);
    if i < |ranges| {
      CutSizes(ranges, i + 1, ranges[i].End(), frame, limit, end);
    }
  }

  /** Weaving the parts of any cut frame gives the frame back, as far as it was cut: here for the
      ranges from number `i` on, with the buffers of the whole frame. */
  lemma {:induction false} WeaveCutFrom(ranges: seq<Range>, i: nat, at: nat, frame: seq<byte>, limit: nat, end: nat,
                                        plain: seq<byte>, p: nat, other: seq<byte>, o: nat)
    requires i <= |ranges| && Chained(ranges, i, at, |frame|) && limit <= |frame| && at == p + o
    requires end == Max(limit, if i == |ranges| then at else LastEnd(ranges, 0))
    requires p <= |plain| && o <= |other|
    requires Cut(ranges, i, at, frame, limit) == Parts(plain[p..], other[o..])
    ensures Weavable(ranges, i, p, |plain|, o, |other|)
    ensures at <= end <= |frame|
    ensures Weave(ranges, i, plain, p, other, o) == frame[at..end]
    decreases |ranges| - i
  {
    hide Weave, Weavable, Total;
    CutSizes(ranges, i, at, frame, limit, end);
    if i == |ranges| {
      WeaveEnds(ranges, plain, p, other, o);
    } else {
      var r := ranges[i];
      var p', o' := p + r.size, o + (r.offset - at);
      CutStep(ranges, i, at, frame, limit);
      hide Cut;
      var rest := Cut(ranges, i + 1, r.End(), frame, limit);
      CutUnfolds(frame[r.offset..r.End()], rest.plain, plain, p);
      CutUnfolds(frame[at..r.offset], rest.other, other, o);
      assert Parts(plain[p'..], other[o'..]) == rest;
      WeaveCutFrom(ranges, i + 1, r.End(), frame, limit, end, plain, p', other, o');
      WeavableStep(ranges, i, p, |plain|, o, |other|);
      WeaveUnfolds(ranges, i, plain, p, other, o);
      JoinThree(frame, at, r.offset, r.End(), end);
    }
  }

  lemma JoinThree(s: seq<byte>, a: nat, b: nat, c: nat, d: nat)
    requires a <= b <= c <= d <= |s|
    ensures s[a..b] + s[b..c] + s[c..d] == s[a..d]
  {
  }

  lemma CutUnfolds(front: seq<byte>, rest: seq<byte>, s: seq<byte>, k: nat)
    requires k <= |s| && s[k..] == front + rest
    ensures s[k..k + |front|] == front && s[k + |front|..] == rest
  {
    assert s[k..][..|front|] == front && s[k..][|front|..] == rest;
  }

  /** Splitting is lossless for every valid list of ranges. */
  lemma WeaveCut(ranges: seq<Range>, frame: seq<byte>, limit: nat)
    requires Chained(ranges, 0, 0, |frame|) && limit <= |frame|
    ensures var parts := Cut(ranges, 0, 0, frame, limit);
            && CanWeave(ranges, |parts.plain|, |parts.other|)
            && |parts.plain| == Total(ranges, 0)
            && CutEnd(ranges, limit) <= |frame|
            && Woven(ranges, parts.plain, parts.other) == frame[..CutEnd(ranges, limit)]
  {
    var parts, end := Cut(ranges, 0, 0, frame, limit), CutEnd(ranges, limit);
    CutSizes(ranges, 0, 0, frame, limit, end);
    assert parts.plain[0..] == parts.plain && parts.other[0..] == parts.other;
    WeaveCutFrom(ranges, 0, 0, frame, limit, end, parts.plain, 0, parts.other, 0);
  }

  /** Cutting a frame that starts, from index `p + o` on, with what was woven gives what is left
      of both buffers. */
  lemma {:induction false} CutWeaveFrom(ranges: seq<Range>, i: nat, plain: seq<byte>, p: nat, other: seq<byte>, o: nat,
                                        frame: seq<byte>, limit: nat)
    requires i <= |ranges| && Weavable(ranges, i, p, |plain|, o, |other|) && Total(ranges, i) == |plain| - p
    requires limit == |plain| + |other| <= |frame| && Chained(ranges, i, p + o, limit)
    requires frame[p + o..limit] == Weave(ranges, i, plain, p, other, o)
    ensures Chained(ranges, i, p + o, |frame|)
    ensures Cut(ranges, i, p + o, frame, limit) == Parts(plain[p..], other[o..])
    decreases |ranges| - i
  {
    hide Weave, Weavable, Cut, Chained, Total;
    ChainedWiden(ranges, i, p + o, limit, |frame|);
    if i == |ranges| {
      CutWeaveEnd(ranges, plain, p, other, o, frame, limit);
    } else {
      ChainedStep(ranges, i, p + o, limit);
      var r, at := ranges[i], p + o;
      var p', o' := p + r.size, o + (r.offset - at);
      CutStep(ranges, i, at, frame, limit);
      WeaveUnfolds(ranges, i, plain, p, other, o);
      var rest := Weave(ranges, i + 1, plain, p', other, o');
      ThreeParts(frame, at, limit, other[o..o'], plain[p..p'], rest);
      CutWeaveFrom(ranges, i + 1, plain, p', other, o', frame, limit);
      JoinParts(plain, p, p', other, o, o', frame[r.offset..r.End()], frame[at..r.offset],
                Cut(ranges, i + 1, r.End(), frame, limit));
    }
  }

  lemma ChainedStep(ranges: seq<Range>, i: nat, at: nat, size: nat)
    requires i < |ranges| && Chained(ranges, i, at, size)
    ensures at <= ranges[i].offset && ranges[i].End() <= size && Chained(ranges, i + 1, ranges[i].End(), size)
    ensures Total(ranges, i) == ranges[i].size + Total(ranges, i + 1)
  {
    ChainedBounds(ranges, i + 1, ranges[i].End(), size);
  }

  lemma CutWeaveEnd(ranges: seq<Range>, plain: seq<byte>, p: nat, other: seq<byte>, o: nat,
                    frame: seq<byte>, limit: nat)
    requires Weavable(ranges, |ranges|, p, |plain|, o, |other|) && Total(ranges, |ranges|) == |plain| - p
    requires limit == |plain| + |other| <= |frame|
    requires frame[p + o..limit] == Weave(ranges, |ranges|, plain, p, other, o)
    ensures Chained(ranges, |ranges|, p + o, |frame|)
    ensures Cut(ranges, |ranges|, p + o, frame, limit) == Parts(plain[p..], other[o..])
  {
  }

  lemma JoinParts(plain: seq<byte>, p: nat, p': nat, other: seq<byte>, o: nat, o': nat,
                  a: seq<byte>, b: seq<byte>, rest: Parts)
    requires p <= p' <= |plain| && o <= o' <= |other|
    requires a == plain[p..p'] && b == other[o..o'] && rest == Parts(plain[p'..], other[o'..])
    ensures Parts(a + rest.plain, b + rest.other) == Parts(plain[p..], other[o..])
  {
    assert plain[p..p'] + plain[p'..] == plain[p..];
    assert other[o..o'] + other[o'..] == other[o..];
  }

  lemma SliceOfFront(s: seq<byte>, t: seq<byte>, k: nat, m: nat)
    requires k <= m <= |s|
    ensures (s + t)[k..m] == s[k..m]
  {
  }

  lemma ThreeParts(s: seq<byte>, at: nat, end: nat, a: seq<byte>, b: seq<byte>, c: seq<byte>)
    requires at <= end <= |s| && s[at..end] == a + b + c
    ensures s[at..at + |a|] == a && s[at + |a|..at + |a| + |b|] == b && s[at + |a| + |b|..end] == c
  {
    var t := s[at..end];
    assert forall j :: 0 <= j < |t| ==> s[at + j] == t[j];
    assert t[..|a|] == a && t[|a|..|a + b|] == b && t[|a + b|..] == c;
  }

  lemma {:induction false} ChainedWiden(ranges: seq<Range>, i: nat, at: nat, size: nat, larger: nat)
    requires i <= |ranges| && Chained(ranges, i, at, size) && size <= larger
    ensures Chained(ranges, i, at, larger)
    decreases |ranges| - i
  {
    if i < |ranges| { ChainedWiden(ranges, i + 1, ranges[i].End(), size, larger); }
  }

  // ---------------------------------------------------------------------------------------
  // Building a layout piece by piece
  // ---------------------------------------------------------------------------------------

  /** One call on the outbound processor: `add_unencrypted_bytes` or `add_encrypted_bytes`. */
  datatype Piece = Plain(bytes: seq<byte>) | Secret(bytes: seq<byte>)

  /** What the outbound processor keeps of the pieces. */
  datatype Layout = Layout(ranges: seq<Range>, plain: seq<byte>, secret: seq<byte>, index: nat)

  const EMPTY_LAYOUT := Layout([], [], [], 0)

  function Extended(ranges: seq<Range>, more: nat): seq<Range>
    requires ranges != []
  {
    var n := |ranges| - 1;
    ranges[..n] + [ranges[n].(size := ranges[n].size + more)]
  }

  function AddPlain(l: Layout, bytes: seq<byte>): Layout {
    var n := |l.ranges|;
    var ranges :=
      if n > 0 && l.ranges[n - 1].End() == l.index then Extended(l.ranges, |bytes|)
      else l.ranges + [Range(l.index, |bytes|)];
    Layout(ranges, l.plain + bytes, l.secret, l.index + |bytes|)
  }

  function AddSecret(l: Layout, bytes: seq<byte>): Layout {
    l.(secret := l.secret + bytes, index := l.index + |bytes|)
  }

  function Add(l: Layout, p: Piece): Layout {
    match p
    case Plain(bytes) => AddPlain(l, bytes)
    case Secret(bytes) => AddSecret(l, bytes)
  }

  function Build(pieces: seq<Piece>): Layout {
    if pieces == [] then EMPTY_LAYOUT
    else Add(Build(pieces[..|pieces| - 1]), pieces[|pieces| - 1])
  }

  lemma BuildSnoc(pieces: seq<Piece>, p: Piece)
    ensures Build([]) == EMPTY_LAYOUT
    ensures Build(pieces + [p]) == Add(Build(pieces), p)
  {
    assert (pieces + [p])[..|pieces|] == pieces;
  }

  function Flatten(pieces: seq<Piece>): seq<byte> {
    if pieces == [] then []
    else Flatten(pieces[..|pieces| - 1]) + pieces[|pieces| - 1].bytes
  }

  lemma FlattenOne(p: Piece)
    ensures Flatten([p]) == p.bytes
  {
    assert [p][..0] == [];
  }

  lemma FlattenLast(pieces: seq<Piece>)
    requires pieces != []
    ensures Flatten(pieces) == Flatten(pieces[..|pieces| - 1]) + pieces[|pieces| - 1].bytes
  {
  }

  lemma FlattenNone()
    ensures Flatten([]) == []
  {
  }

  lemma {:induction false} FlattenAppend(a: seq<Piece>, b: seq<Piece>)
    ensures Flatten(a + b) == Flatten(a) + Flatten(b)
    decreases |b|
  {
    if b == [] {
      assert a + b == a;
    } else {
      var n := |b| - 1;
      FlattenAppend(a, b[..n]);
      hide Flatten;
      assert (a + b)[..|a + b| - 1] == a + b[..n];
      FlattenLast(a + b);
      FlattenLast(b);
    }
  }

  /** At least one byte lies between any two neighbouring ranges. */
  predicate Separated(ranges: seq<Range>) {
    forall i :: 0 <= i < |ranges| - 1 ==> ranges[i].End() < ranges[i + 1].offset
  }

  /** The layout describes the byte string `whole`. */
  predicate Describes(l: Layout, whole: seq<byte>) {
    && l.index == |whole|
    && Separated(l.ranges)
    && Chained(l.ranges, 0, 0, l.index)
    && Total(l.ranges, 0) == |l.plain|
    && CanWeave(l.ranges, |l.plain|, |l.secret|)
    && Woven(l.ranges, l.plain, l.secret) == whole
  }

  lemma {:induction false} WeaveAddSecret(ranges: seq<Range>, i: nat, plain: seq<byte>, p: nat,
                                          other: seq<byte>, o: nat,
                                          bytes: seq<byte>)
    requires i <= |ranges| && Weavable(ranges, i, p, |plain|, o, |other|)
    ensures Weavable(ranges, i, p, |plain|, o, |other + bytes|)
    ensures Weave(ranges, i, plain, p, other + bytes, o) == Weave(ranges, i, plain, p, other, o) + bytes
    decreases |ranges| - i
  {
    hide Weave, Total;
    if i == |ranges| {
      WeaveEnds(ranges, plain, p, other, o);
      WeaveEnds(ranges, plain, p, other + bytes, o);
      assert (other + bytes)[o..] == other[o..] + bytes;
    } else {
      var gap := Gap(ranges[i], p + o);
      WeaveAddSecret(ranges, i + 1, plain, p + ranges[i].size, other, o + gap, bytes);
      WeaveUnfolds(ranges, i, plain, p, other, o);
      WeaveUnfolds(ranges, i, plain, p, other + bytes, o);
      SliceOfFront(other, bytes, o, o + gap);
    }
  }

  /** Appending a range at the current end of the frame: the bookkeeping. */
  lemma {:induction false} AddRangeFits(ranges: seq<Range>, i: nat, p: nat, plainSize: nat,
                                        o: nat, otherSize: nat, added: Range)
    requires i <= |ranges| && Weavable(ranges, i, p, plainSize, o, otherSize) && Total(ranges, i) == plainSize - p
    requires added.offset == plainSize + otherSize && Chained(ranges, i, p + o, added.offset)
    ensures Weavable(ranges + [added], i, p, plainSize + added.size, o, otherSize)
    ensures Total(ranges + [added], i) == plainSize + added.size - p
    ensures Chained(ranges + [added], i, p + o, added.End())
    decreases |ranges| - i
  {
    if i < |ranges| {
      AddRangeFits(ranges, i + 1, p + ranges[i].size, plainSize, o + Gap(ranges[i], p + o), otherSize, added);
    }
  }

  lemma TotalUnfolds(ranges: seq<Range>, i: nat)
    requires i <= |ranges|
    ensures Total(ranges, i) == if i == |ranges| then 0 else ranges[i].size + Total(ranges, i + 1)
  {
  }

  /** Appending a range at the current end of the frame: the bytes. */
  lemma {:induction false} WeaveAddRange(ranges: seq<Range>, i: nat, plain: seq<byte>, p: nat, other: seq<byte>, o: nat,
                                         bytes: seq<byte>, added: Range)
    requires i <= |ranges| && Weavable(ranges, i, p, |plain|, o, |other|) && Total(ranges, i) == |plain| - p
    requires added == Range(|plain| + |other|, |bytes|)
    requires Weavable(ranges + [added], i, p, |plain + bytes|, o, |other|)
    ensures Weave(ranges + [added], i, plain + bytes, p, other, o) == Weave(ranges, i, plain, p, other, o) + bytes
    decreases |ranges| - i
  {
    hide Weave, Weavable, Total;
    var longer := ranges + [added];
    TotalUnfolds(ranges, i);
    WeaveUnfolds(longer, i, plain + bytes, p, other, o);
    if i == |ranges| {
      WeaveEnds(ranges, plain, p, other, o);
      WeaveEnds(longer, plain + bytes, |plain + bytes|, other, |other|);
      assert (plain + bytes)[p..] == bytes;
    } else {
      var r, gap := ranges[i], Gap(ranges[i], p + o);
      WeaveUnfolds(ranges, i, plain, p, other, o);
      WeaveAddRange(ranges, i + 1, plain, p + r.size, other, o + gap, bytes, added);
      SliceOfFront(plain, bytes, p, p + r.size);
      Associate(other[o..o + gap] + plain[p..p + r.size],
                Weave(ranges, i + 1, plain, p + r.size, other, o + gap), bytes);
    }
  }

  /** Extending the last range when it ends where the frame ends: the bookkeeping. */
  lemma {:induction false} ExtendLastFits(ranges: seq<Range>, i: nat, p: nat, plainSize: nat,
                                          o: nat, otherSize: nat, more: nat)
    requires i < |ranges| && Weavable(ranges, i, p, plainSize, o, otherSize) && Total(ranges, i) == plainSize - p
    requires Chained(ranges, i, p + o, plainSize + otherSize) && LastEnd(ranges, 0) == plainSize + otherSize
    ensures Weavable(Extended(ranges, more), i, p, plainSize + more, o, otherSize)
    ensures Total(Extended(ranges, more), i) == plainSize + more - p
    ensures Chained(Extended(ranges, more), i, p + o, plainSize + more + otherSize)
    decreases |ranges| - i
  {
    if i + 1 < |ranges| {
      ExtendLastFits(ranges, i + 1, p + ranges[i].size, plainSize, o + Gap(ranges[i], p + o), otherSize, more);
    } else {
      assert Total(ranges, i + 1) == 0;
      assert Total(Extended(ranges, more), i + 1) == 0;
    }
  }

  lemma ExtendedAt(ranges: seq<Range>, more: nat, i: nat)
    requires i < |ranges|
    ensures |Extended(ranges, more)| == |ranges|
    ensures Extended(ranges, more)[i]
            == if i == |ranges| - 1 then ranges[i].(size := ranges[i].size + more) else ranges[i]
  {
  }

  /** Extending the last range when it ends where the frame ends: the bytes. */
  lemma {:induction false} WeaveExtendLast(ranges: seq<Range>, i: nat, plain: seq<byte>, p: nat,
                                           other: seq<byte>, o: nat,
                                           bytes: seq<byte>, longer: seq<Range>)
    requires i < |ranges| && Weavable(ranges, i, p, |plain|, o, |other|) && Total(ranges, i) == |plain| - p
    requires LastEnd(ranges, 0) == |plain| + |other|
    requires longer == Extended(ranges, |bytes|) && Weavable(longer, i, p, |plain + bytes|, o, |other|)
    ensures Weave(longer, i, plain + bytes, p, other, o) == Weave(ranges, i, plain, p, other, o) + bytes
    decreases |ranges| - i
  {
    hide Weave, Weavable, Total, Extended;
    var r, gap := ranges[i], Gap(ranges[i], p + o);
    ExtendedAt(ranges, |bytes|, i);
    TotalUnfolds(ranges, i);
    TotalUnfolds(ranges, |ranges|);
    WeaveUnfolds(ranges, i, plain, p, other, o);
    WeaveUnfolds(longer, i, plain + bytes, p, other, o);
    if i == |ranges| - 1 {
      WeaveEnds(ranges, plain, p + r.size, other, o + gap);
      WeaveEnds(longer, plain + bytes, p + r.size + |bytes|, other, o + gap);
      assert (plain + bytes)[p..] == plain[p..] + bytes;
      assert other[o + gap..] == [];
    } else {
      WeaveExtendLast(ranges, i + 1, plain, p + r.size, other, o + gap, bytes, longer);
      SliceOfFront(plain, bytes, p, p + r.size);
      Associate(other[o..o + gap] + plain[p..p + r.size],
                Weave(ranges, i + 1, plain, p + r.size, other, o + gap), bytes);
    }
  }

  lemma AddKeepsDescribing(l: Layout, whole: seq<byte>, piece: Piece)
    requires Describes(l, whole)
    ensures Describes(Add(l, piece), whole + piece.bytes)
  {
    hide Weave, Weavable, Total, Chained;
    var n, next := |l.ranges|, Add(l, piece);
    match piece
    case Secret(bytes) =>
      WeaveAddSecret(l.ranges, 0, l.plain, 0, l.secret, 0, bytes);
      ChainedWiden(l.ranges, 0, 0, l.index, l.index + |bytes|);
    case Plain(bytes) =>
      if n > 0 && l.ranges[n - 1].End() == l.index {
        ExtendLastFits(l.ranges, 0, 0, |l.plain|, 0, |l.secret|, |bytes|);
        WeaveExtendLast(l.ranges, 0, l.plain, 0, l.secret, 0, bytes, next.ranges);
      } else {
        AddRangeFits(l.ranges, 0, 0, |l.plain|, 0, |l.secret|, Range(l.index, |bytes|));
        WeaveAddRange(l.ranges, 0, l.plain, 0, l.secret, 0, bytes, Range(l.index, |bytes|));
        ChainedBounds(l.ranges, 0, 0, l.index);
      }
  }

  /** After any sequence of calls the two buffers and the ranges describe the concatenation of
      all added pieces in call order; the ranges are sorted, apart, and sum to the plain bytes. */
  lemma {:induction false} BuildDescribes(pieces: seq<Piece>)
    ensures Describes(Build(pieces), Flatten(pieces))
  {
    if pieces != [] {
      var n := |pieces| - 1;
      BuildDescribes(pieces[..n]);
      AddKeepsDescribing(Build(pieces[..n]), Flatten(pieces[..n]), pieces[n]);
    }
  }
}
