/** The AV1 outbound processor of `src/dave/codec_utils.cpp`: drops the OBUs that packetizers drop,
    writes sizes again in their shortest form, and leaves the size out of a last OBU. */
module Av1 {
  import opened Bytes
  import opened Sequences
  import opened Interleaving
  import Leb128
  import OutboundFrame

  predicate HasExtension(header: byte) { header / 4 % 2 == 1 }

  predicate HasSize(header: byte) { header / 2 % 2 == 1 }

  function TypeOf(header: byte): nat { header / 8 % 16 }

  /** `header & ~obu_header_has_size_mask` */
  function WithoutSize(header: byte): byte {
    if HasSize(header) then header - 2 else header
  }

  /** Temporal delimiter, tile list, padding. */
  predicate Dropped(header: byte) {
    TypeOf(header) == 2 || TypeOf(header) == 8 || TypeOf(header) == 15
  }

  /** An open bitstream unit: header byte, extension byte if any, payload. */
  datatype Obu = Obu(header: byte, extension: seq<byte>, payload: seq<byte>)

  predicate WellFormed(o: Obu) {
    |o.extension| == (if HasExtension(o.header) then 1 else 0) && |o.payload| < TWO_64
  }

  // ---------------------------------------------------------------------------------------
  // Reading
  // ---------------------------------------------------------------------------------------

  /** The OBU at the front of `s`, and how many bytes it takes. */
  function ReadOne(s: seq<byte>): (r: Option<(Obu, nat)>)
    requires s != []
    ensures r.Some? ==> 1 <= r.value.1 <= |s|
    ensures r.Some? && !HasSize(s[0]) ==> r.value.1 == |s| && r.value.0.payload != []
    ensures r.Some? ==> r.value.0.header == s[0] && |r.value.0.extension| == if HasExtension(s[0]) then 1 else 0
    ensures r.Some? ==> |r.value.0.payload| < |s|
  {
    var i := if HasExtension(s[0]) then 2 else 1;
    if i >= |s| then None
    else if !HasSize(s[0]) then Some((Obu(s[0], s[1..i], s[i..]), |s|))
    else
      match Leb128.Decode(s[i..], 0)
      case Malformed => None
      case Value(size, n) =>
        if i + n + size > |s| then None
        else Some((Obu(s[0], s[1..i], s[i + n..i + n + size]), i + n + size))
  }

  /** All OBUs of a frame; `None` when the processor gives up on it. */
  function ReadAll(s: seq<byte>): Option<seq<Obu>>
    decreases |s|
  {
    if s == [] then Some([])
    else match ReadOne(s)
      case None => None
      case Some((o, used)) =>
        match ReadAll(s[used..])
        case None => None
        case Some(rest) => Some([o] + rest)
  }

  /** No index of the scan from `start` on leaves 64 bits.  A frame for which one does is scanned again
      from a wrapped index or cut outside its bounds; size fields below 2^32, as section 4.10.5 of the
      AV1 bitstream specification demands, never come to that. */
  predicate IndicesFit(frame: seq<byte>, start: nat)
    requires start <= |frame|
    decreases |frame| - start
  {
    start == |frame| ||
    (SizeFits(frame, start) &&
     match ReadOne(frame[start..])
     case None => true
     case Some((_, used)) => IndicesFit(frame, start + used))
  }

  /** Every frame that is read to its end is scanned inside it. */
  lemma {:induction false} ReadableFits(frame: seq<byte>, start: nat)
    requires start <= |frame| < TWO_64 && ReadAll(frame[start..]).Some?
    ensures IndicesFit(frame, start)
    decreases |frame| - start
  {
    hide HasSize, HasExtension, Leb128.Decode, ReadOne, SizeFits;
    if start < |frame| {
      SizeFitsWhenRead(frame, start);
      var used := ReadOne(frame[start..]).value.1;
      assert frame[start..][used..] == frame[start + used..];
      ReadableFits(frame, start + used);
    }
  }

  lemma SizeFitsWhenRead(frame: seq<byte>, start: nat)
    requires start < |frame| < TWO_64 && ReadOne(frame[start..]).Some?
    ensures SizeFits(frame, start)
  {
    hide HasSize, HasExtension, Leb128.Decode, ReadOne;
    ReadOneAt(frame, start, start + (if HasExtension(frame[start]) then 2 else 1));
  }

  predicate SizeFits(frame: seq<byte>, start: nat)
    requires start < |frame|
  {
    var i := start + (if HasExtension(frame[start]) then 2 else 1);
    i < |frame| && HasSize(frame[start]) ==>
      match Leb128.Decode(frame[i..], 0)
      case Malformed => true
      case Value(size, n) => i + n + size < TWO_64
  }

  // ---------------------------------------------------------------------------------------
  // Writing
  // ---------------------------------------------------------------------------------------

  /** What is emitted for one kept OBU; `last` when it ends the frame. */
  function WriteOne(o: Obu, last: bool): seq<byte> {
    [if last then WithoutSize(o.header) else o.header] + o.extension +
    (if HasSize(o.header) && !last then Leb128.Encode(|o.payload|) else []) + o.payload
  }

  function Write(obus: seq<Obu>): seq<byte> {
    if obus == [] then []
    else (if Dropped(obus[0].header) then [] else WriteOne(obus[0], |obus| == 1)) + Write(obus[1..])
  }

  /** Every OBU but the last of a frame carries its size. */
  predicate Readable(obus: seq<Obu>) {
    && (forall o :: o in obus ==> WellFormed(o))
    && (forall i :: 0 <= i < |obus| - 1 ==> HasSize(obus[i].header))
    && (obus != [] && !HasSize(obus[|obus| - 1].header) ==> obus[|obus| - 1].payload != [])
  }

  /** The kept OBUs as a reader of the emitted bytes sees them. */
  function Kept(obus: seq<Obu>): seq<Obu> {
    if obus == [] then []
    else
      (if Dropped(obus[0].header) then []
       else [if |obus| == 1 then obus[0].(header := WithoutSize(obus[0].header)) else obus[0]]) +
      Kept(obus[1..])
  }

  /** The meaning of an OBU list: the OBUs the packetizer keeps, each with every header bit but the
      size flag, its extension and its payload. */
  function Meaning(obus: seq<Obu>): seq<Obu> {
    if obus == [] then []
    else
      (if Dropped(obus[0].header) then [] else [obus[0].(header := WithoutSize(obus[0].header))]) +
      Meaning(obus[1..])
  }

  /** The last OBU of the frame is kept and has no payload: then its bytes end with the header,
      which no reader accepts. */
  predicate EndsInEmptyObu(obus: seq<Obu>) {
    obus != [] && !Dropped(obus[|obus| - 1].header) && obus[|obus| - 1].payload == []
  }

  // ---------------------------------------------------------------------------------------
  // Reading back what was written
  // ---------------------------------------------------------------------------------------

  lemma HeaderBits(header: byte)
    ensures var h := WithoutSize(header);
            !HasSize(h) && HasExtension(h) == HasExtension(header) && TypeOf(h) == TypeOf(header)
            && Dropped(h) == Dropped(header) && WithoutSize(h) == h
  {
    if HasSize(header) {
      var q := header / 4;
      assert header - 2 == 4 * q + (header % 4 - 2);
      assert (header - 2) / 4 == q;
      assert header / 8 == q / 2 && (header - 2) / 8 == q / 2;
    }
  }

  lemma ReadWritten(o: Obu, rest: seq<byte>)
    requires WellFormed(o) && HasSize(o.header)
    ensures WriteOne(o, false) + rest != []
    ensures ReadOne(WriteOne(o, false) + rest) == Some((o, |WriteOne(o, false)|))
  {
    hide HasSize, HasExtension, Leb128.Decode, Leb128.Encode;
    var s := WriteOne(o, false) + rest;
    var i := if HasExtension(o.header) then 2 else 1;
    var size := Leb128.Encode(|o.payload|);
    assert s[0] == o.header && s[1..i] == o.extension;
    assert s[i..] == size + (o.payload + rest);
    Leb128.DecodeEncode64(|o.payload|, o.payload + rest);
    assert s[i + |size|..i + |size| + |o.payload|] == o.payload;
  }

  lemma ReadWrittenLast(o: Obu)
    requires WellFormed(o)
    ensures WriteOne(o, true) != []
    ensures ReadOne(WriteOne(o, true)) ==
            if o.payload == [] then None
            else Some((o.(header := WithoutSize(o.header)), |WriteOne(o, true)|))
  {
    HeaderBits(o.header);
    var s := WriteOne(o, true);
    var i := if HasExtension(o.header) then 2 else 1;
    assert s[0] == WithoutSize(o.header) && s[1..i] == o.extension && s[i..] == o.payload;
  }

  lemma ReadAllUnfolds(s: seq<byte>)
    ensures s == [] ==> ReadAll(s) == Some([])
    ensures s != [] && ReadOne(s).None? ==> ReadAll(s) == None
    ensures s != [] && ReadOne(s).Some? ==>
              var (o, used) := ReadOne(s).value;
              ReadAll(s) == match ReadAll(s[used..]) case None => None case Some(rest) => Some([o] + rest)
  {
    hide ReadOne;
  }

  lemma {:induction false} ReadAllWritten(obus: seq<Obu>)
    requires Readable(obus)
    ensures ReadAll(Write(obus)) == if EndsInEmptyObu(obus) then None else Some(Kept(obus))
    decreases |obus|
  {
    hide ReadOne, WriteOne, HasSize, HasExtension, Dropped, WithoutSize, ReadAll;
    ReadAllUnfolds(Write(obus));
    if obus != [] {
      var o, rest := obus[0], obus[1..];
      assert Readable(rest);
      ReadAllWritten(rest);
      if Dropped(o.header) {
        assert Write(obus) == Write(rest);
        assert Kept(obus) == Kept(rest);
      } else if |obus| == 1 {
        assert Write(rest) == [] && Write(obus) == WriteOne(o, true);
        ReadWrittenLast(o);
        ReadAllUnfolds([]);
        assert Write(obus)[|WriteOne(o, true)|..] == [];
      } else {
        ReadWritten(o, Write(rest));
        assert Write(obus)[|WriteOne(o, false)|..] == Write(rest);
      }
    }
  }

  lemma {:induction false} MeaningOfKept(obus: seq<Obu>)
    ensures Meaning(Kept(obus)) == Meaning(obus)
    decreases |obus|
  {
    if obus != [] {
      hide HasSize, HasExtension, TypeOf, WithoutSize, Dropped;
      HeaderBits(obus[0].header);
      MeaningOfKept(obus[1..]);
      var kept := Kept(obus);
      if Dropped(obus[0].header) {
        assert kept == Kept(obus[1..]);
      } else {
        assert kept[1..] == Kept(obus[1..]);
      }
    }
  }

  lemma {:induction false} ReadAllReadable(s: seq<byte>)
    requires ReadAll(s).Some? && |s| < TWO_64
    ensures Readable(ReadAll(s).value)
    ensures |Write(ReadAll(s).value)| <= |s|
    decreases |s|
  {
    hide HasSize, HasExtension, Dropped, WriteOne;
    if s != [] {
      var (o, used) := ReadOne(s).value;
      ReadAllReadable(s[used..]);
      hide ReadOne;
      var rest := ReadAll(s[used..]).value;
      assert ReadAll(s).value == [o] + rest && (rest == [] <==> used == |s|);
      hide ReadAll, Readable;
      WrittenNotLonger(s, rest == []);
      ReadableCons(o, rest);
      WriteCons(o, rest);
    }
  }

  lemma ReadableCons(o: Obu, rest: seq<Obu>)
    requires WellFormed(o) && Readable(rest)
    requires if rest == [] then HasSize(o.header) || o.payload != [] else HasSize(o.header)
    ensures Readable([o] + rest)
  {
    hide HasSize, HasExtension;
  }

  lemma WriteCons(o: Obu, rest: seq<Obu>)
    ensures |Write([o] + rest)| <= |WriteOne(o, rest == [])| + |Write(rest)|
  {
    hide Dropped, WriteOne;
    assert ([o] + rest)[1..] == rest;
  }

  lemma WrittenNotLonger(s: seq<byte>, last: bool)
    requires s != [] && ReadOne(s).Some?
    ensures |WriteOne(ReadOne(s).value.0, last)| <= ReadOne(s).value.1
  {
    var i := if HasExtension(s[0]) then 2 else 1;
    if HasSize(s[0]) { Leb128.DecodeNotShorter(s[i..], 0); }
  }

  /** For every frame the processor accepts: reading the emitted bytes gives the OBUs of the frame,
      without the dropped types, in order, with the same header bits, extension and payload,
      exactly when the frame does not end in a kept OBU without payload. */
  lemma RewritePreservesMeaning(frame: seq<byte>)
    requires ReadAll(frame).Some? && |frame| < TWO_64
    ensures var obus := ReadAll(frame).value;
            var again := ReadAll(Write(obus));
            again.Some? && Meaning(again.value) == Meaning(obus) <==> !EndsInEmptyObu(obus)
  {
    var obus := ReadAll(frame).value;
    ReadAllReadable(frame);
    ReadAllWritten(obus);
    MeaningOfKept(obus);
  }

  /** The shortest frame for which it fails: a sequence header OBU of size 0. */
  lemma EmptyLastObuIsLost()
    ensures ReadAll([0x0A, 0]).Some? && EndsInEmptyObu(ReadAll([0x0A, 0]).value)
    ensures Write(ReadAll([0x0A, 0]).value) == [8] && ReadAll([8]).None?
  {
    var s: seq<byte> := [0x0A, 0];
    assert s[1..] == [0];
    assert Leb128.Decode(s[1..], 0) == Leb128.Value(0, 1);
    var o := Obu(0x0A, [], []);
    assert s[1..1] == [] && s[2..2] == [];
    assert ReadOne(s) == Some((o, 2));
    assert s[2..] == [];
    assert ReadAll(s) == Some([o] + []);
    assert [o][1..] == [];
    assert WriteOne(o, true) == [8];
  }

  // ---------------------------------------------------------------------------------------
  // A size that wraps
  // ---------------------------------------------------------------------------------------

  /** An OBU whose size field is the largest 64-bit number. */
  const LARGEST_SIZE: seq<byte> := [0x32, 0xFF, 0xFF, 0xFF, 0xFF, 0xFF, 0xFF, 0xFF, 0xFF, 0xFF, 1]

  lemma DecodesNext(s: seq<byte>, k: nat, rest: Leb128.Decoded)
    requires k < 9 && k < |s| && s[k] == 0xFF && Leb128.Decode(s[k + 1..], k + 1) == rest
    ensures Leb128.Decode(s[k..], k) == Leb128.Prepend(127, rest)
  {
    hide Leb128.Prepend;
    assert s[k..][1..] == s[k + 1..];
  }

  /** The sum of its indices wraps to one inside the frame, so that the test for its end passes, with a
      payload far longer than the frame. */
  lemma LargestSizeWraps()
    ensures !IndicesFit(LARGEST_SIZE, 0)
    ensures Leb128.Decode(LARGEST_SIZE[1..], 0) == Leb128.Value(TWO_64 - 1, 10)
    ensures Wrap(1 + 10 + (TWO_64 - 1)) == 10 < |LARGEST_SIZE|
  {
    hide Leb128.Decode, ReadOne;
    var s := LARGEST_SIZE[1..];
    LastByte(s[9..]);
    DecodesNext(s, 8, Leb128.Value(1, 1));
    DecodesNext(s, 7, Leb128.Value(0xFF, 2));
    DecodesNext(s, 6, Leb128.Value(0x7FFF, 3));
    DecodesNext(s, 5, Leb128.Value(0x3F_FFFF, 4));
    DecodesNext(s, 4, Leb128.Value(0x1FFF_FFFF, 5));
    DecodesNext(s, 3, Leb128.Value(0xF_FFFF_FFFF, 6));
    DecodesNext(s, 2, Leb128.Value(0x7FF_FFFF_FFFF, 7));
    DecodesNext(s, 1, Leb128.Value(0x3_FFFF_FFFF_FFFF, 8));
    DecodesNext(s, 0, Leb128.Value(0x1FF_FFFF_FFFF_FFFF, 9));
    assert s[0..] == s && HasSize(0x32) && !HasExtension(0x32);
  }

  lemma LastByte(s: seq<byte>)
    requires s == [1]
    ensures Leb128.Decode(s, 9) == Leb128.Value(1, 1)
  {
  }

  // ---------------------------------------------------------------------------------------
  // The processor
  // ---------------------------------------------------------------------------------------

  function PiecesOf(o: Obu, last: bool): seq<Piece> {
    [Plain([if last then WithoutSize(o.header) else o.header])] +
    (if o.extension != [] then [Plain(o.extension)] else []) +
    (if HasSize(o.header) && !last then [Plain(Leb128.Encode(|o.payload|))] else []) +
    [Secret(o.payload)]
  }

  function AllPieces(obus: seq<Obu>): seq<Piece> {
    if obus == [] then []
    else FirstPieces(obus) + AllPieces(obus[1..])
  }

  function Pieces(frame: seq<byte>): Option<seq<Piece>> {
    match ReadAll(frame)
    case None => None
    case Some(obus) => Some(AllPieces(obus))
  }

  lemma FlattenPiecesOf(o: Obu, last: bool)
    ensures Flatten(PiecesOf(o, last)) == WriteOne(o, last)
  {
    hide Flatten, HasSize, WithoutSize;
    var header := [Plain([if last then WithoutSize(o.header) else o.header])];
    FlattenOne(header[0]);
    FlattenOne(Plain(o.extension));
    FlattenOne(Plain(Leb128.Encode(|o.payload|)));
    FlattenOne(Secret(o.payload));
    FlattenNone();
    var extension := if o.extension != [] then [Plain(o.extension)] else [];
    var size := if HasSize(o.header) && !last then [Plain(Leb128.Encode(|o.payload|))] else [];
    var payload := [Secret(o.payload)];
    FlattenAppend(header + extension + size, payload);
    FlattenAppend(header + extension, size);
    FlattenAppend(header, extension);
  }

  /** The processor emits the rewritten frame. */
  lemma {:induction false} EmittedIsWritten(obus: seq<Obu>)
    ensures Flatten(AllPieces(obus)) == Write(obus)
    decreases |obus|
  {
    if obus != [] {
      EmittedIsWritten(obus[1..]);
      FlattenPiecesOf(obus[0], |obus| == 1);
      FlattenAppend(FirstPieces(obus), AllPieces(obus[1..]));
    }
  }

  function Before(done: seq<Piece>, rest: Option<seq<Obu>>): Option<seq<Piece>> {
    match rest
    case None => None
    case Some(obus) => Some(done + AllPieces(obus))
  }

  lemma ProcessStep(frame: seq<byte>, i: nat, done: seq<Piece>)
    requires i < |frame| && ReadOne(frame[i..]).Some?
    ensures var (o, used) := ReadOne(frame[i..]).value;
            && 1 <= used && i + used <= |frame|
            && Before(done, ReadAll(frame[i..]))
               == Before(done + (if Dropped(o.header) then [] else PiecesOf(o, i + used == |frame|)),
                         ReadAll(frame[i + used..]))
            && (IndicesFit(frame, i) ==> IndicesFit(frame, i + used))
            && o.header == frame[i]
  {
    hide ReadOne, PiecesOf, AllPieces;
    var (o, used) := ReadOne(frame[i..]).value;
    assert frame[i..][used..] == frame[i + used..];
    match ReadAll(frame[i + used..])
    case None =>
    case Some(rest) =>
      var obus := [o] + rest;
      assert ReadAll(frame[i..]) == Some(obus) && obus[1..] == rest;
      assert rest == [] <==> i + used == |frame|;
      AllPiecesUnfolds(obus);
      assert done + (FirstPieces(obus) + AllPieces(rest)) == done + FirstPieces(obus) + AllPieces(rest);
  }

  function FirstPieces(obus: seq<Obu>): seq<Piece>
    requires obus != []
  {
    if Dropped(obus[0].header) then [] else PiecesOf(obus[0], |obus| == 1)
  }

  lemma AllPiecesUnfolds(obus: seq<Obu>)
    requires obus != []
    ensures AllPieces(obus) == FirstPieces(obus) + AllPieces(obus[1..])
  {
  }

  lemma BeforeNothing(rest: Option<seq<Obu>>)
    ensures Before([], rest) == match rest case None => None case Some(obus) => Some(AllPieces(obus))
  {
    if rest.Some? { assert [] + AllPieces(rest.value) == AllPieces(rest.value); }
  }

  /** A `size_t` sum. */
  function Wrap(n: nat): nat { n % TWO_64 }

  lemma WrapSmall(n: nat)
    ensures n < TWO_64 ==> Wrap(n) == n
  {
  }

  lemma InnerSlice(s: seq<byte>, start: nat, i: nat, j: nat)
    requires start <= i <= j <= |s|
    ensures s[start..][i - start..j - start] == s[i..j]
    ensures s[start..][i - start..] == s[i..]
  {
  }

  /** `ReadOne` in terms of indices into the whole frame. */
  lemma ReadOneAt(s: seq<byte>, start: nat, i: nat)
    requires start < |s| && i == start + (if HasExtension(s[start]) then 2 else 1)
    ensures ReadOne(s[start..]) ==
            if i >= |s| then None
            else if !HasSize(s[start]) then Some((Obu(s[start], s[start + 1..i], s[i..]), |s| - start))
            else match Leb128.Decode(s[i..], 0)
              case Malformed => None
              case Value(size, n) =>
                if i + n + size > |s| then None
                else Some((Obu(s[start], s[start + 1..i], s[i + n..i + n + size]), i + n + size - start))
  {
    hide HasSize, HasExtension;
    if i < |s| {
      InnerSlice(s, start, start + 1, i);
      InnerSlice(s, start, i, |s|);
      match Leb128.Decode(s[i..], 0)
      case Malformed =>
      case Value(size, n) =>
        if i + n + size <= |s| { InnerSlice(s, start, i + n, i + n + size); }
    }
  }

  /** Reads the OBU at `start`: where its payload begins, and where it ends. */
  method ReadObu(frame: seq<byte>, start: nat) returns (r: Option<(nat, nat)>)
    requires start < |frame| < TWO_64 && SizeFits(frame, start)
    ensures r.Some? <==> ReadOne(frame[start..]).Some?
    ensures r.Some? ==>
              var ((payloadIndex, end), (o, used)) := (r.value, ReadOne(frame[start..]).value);
              && end == start + used && start < payloadIndex <= end <= |frame|
              && o.payload == frame[payloadIndex..end]
              && (HasExtension(frame[start]) ==> start + 2 <= |frame| && o.extension == [frame[start + 1]])
  {
    hide HasSize, HasExtension, Wrap, ReadOne, Leb128.Decode;
    var i, header := start + 1, frame[start];
    if HasExtension(header) { i := i + 1; }
    ReadOneAt(frame, start, i);
    if i >= |frame| { return None; }
    ghost var first := i;
    var size;
    if HasSize(header) {
      var value, used := Leb128.Read(frame[i..]);
      if used.None? { return None; }
      size := value;
      WrapSmall(i + used.value);
      i := Wrap(i + used.value);
    } else {
      size := |frame| - i;
      assert frame[i..i + size] == frame[i..];
    }
    assert ReadOne(frame[start..]) ==
      if i + size > |frame| then None
      else Some((Obu(header, frame[start + 1..first], frame[i..i + size]), i + size - start));
    WrapSmall(i + size);
    if Wrap(i + size) > |frame| { return None; }
    return Some((i, Wrap(i + size)));
  }

  /** `process_frame_av1`.  The index arithmetic is that of `size_t`. */
  method Process(processor: OutboundFrame.OutboundFrameProcessor, frame: seq<byte>) returns (ok: bool)
    requires processor.Valid() && |frame| < TWO_64 && IndicesFit(frame, 0)
    modifies processor
    ensures processor.Valid() && processor.ciphertextBytes == old(processor.ciphertextBytes)
    ensures ok <==> Pieces(frame).Some?
    ensures ok ==> processor.pieces == old(processor.pieces) + Pieces(frame).value
  {
    hide HasSize, HasExtension, TypeOf, WithoutSize, Dropped, PiecesOf, ReadOne, ReadAll, IndicesFit, SizeFits,
         AllPieces, Build;
    var i := 0;
    ghost var done: seq<Piece> := [];
    assert frame[0..] == frame;
    BeforeNothing(ReadAll(frame));
    while i < |frame|
      invariant i <= |frame|
      invariant processor.Valid() && processor.ciphertextBytes == old(processor.ciphertextBytes)
      invariant processor.pieces == old(processor.pieces) + done
      invariant IndicesFit(frame, i)
      invariant Pieces(frame) == Before(done, ReadAll(frame[i..]))
    {
      var header, start := frame[i], i;
      IndicesFitHere(frame, start);
      var r := ReadObu(frame, start);
      if r.None? {
        ReadAllUnfolds(frame[start..]);
        return false;
      }
      ProcessStep(frame, start, done);
      ghost var o := ReadOne(frame[start..]).value.0;
      assert done + [] == done;
      i := r.value.1;
      if !Dropped(header) {
        EmitObu(processor, o, header, frame[start + 1..], frame[r.value.0..i], i == |frame|);
        done := done + PiecesOf(o, i == |frame|);
      }
    }
    BeforeEnd(done, frame[i..]);
    return true;
  }

  lemma IndicesFitHere(frame: seq<byte>, start: nat)
    requires start < |frame| && IndicesFit(frame, start)
    ensures SizeFits(frame, start)
  {
  }

  lemma BeforeEnd(done: seq<Piece>, rest: seq<byte>)
    ensures rest == [] ==> Before(done, ReadAll(rest)) == Some(done)
  {
    assert done + [] == done;
  }

  method EmitObu(processor: OutboundFrame.OutboundFrameProcessor, ghost o: Obu, header: byte, behindHeader: seq<byte>,
                 payload: seq<byte>, last: bool)
    requires processor.Valid() && WellFormed(o) && o.header == header && o.payload == payload
    requires HasExtension(header) ==> behindHeader != [] && o.extension == [behindHeader[0]]
    modifies processor
    ensures processor.Valid() && processor.ciphertextBytes == old(processor.ciphertextBytes)
    ensures processor.pieces == old(processor.pieces) + PiecesOf(o, last)
  {
    hide HasSize, HasExtension;
    var written, rewrittenWithoutSize := header, false;
    if last && HasSize(header) {
      written := WithoutSize(header);
      rewrittenWithoutSize := true;
    }
    ghost var was := processor.pieces;
    processor.AddUnencryptedBytes([written]);
    ghost var pieces := [Plain([written])];
    if HasExtension(header) {
      processor.AddUnencryptedBytes([behindHeader[0]]);
      Associate(was, pieces, [Plain(o.extension)]);
      pieces := pieces + [Plain(o.extension)];
    } else {
      assert pieces + [] == pieces;
    }
    if HasSize(header) && !rewrittenWithoutSize {
      var sizeBytes := SizeBytes(|payload|);
      processor.AddUnencryptedBytes(sizeBytes);
      Associate(was, pieces, [Plain(sizeBytes)]);
      pieces := pieces + [Plain(sizeBytes)];
    } else {
      assert pieces + [] == pieces;
    }
    processor.AddEncryptedBytes(payload);
    Associate(was, pieces, [Secret(payload)]);
  }

  /** The size again, in its shortest form. */
  method SizeBytes(size: nat) returns (bytes: seq<byte>)
    requires size < TWO_64
    ensures bytes == Leb128.Encode(size)
  {
    Leb128.DecodeEncode64(size, []);
    var buffer := new byte[10];
    ghost var was := buffer[..];
    var n := Leb128.Write(size, buffer, 0);
    OverwriteIs(was, 0, Leb128.Encode(size));
    bytes := buffer[..n];
  }
}
