/** Which bytes of a frame are encrypted, and which stay in the clear, told from the frame itself. */
module Sealing {
  import opened Bytes
  import opened Sequences
  import opened Interleaving
  import opened NalScanner
  import opened H26x
  import opened Codecs
  import Av1
  import Leb128

  // ---------------------------------------------------------------------------------------
  // Pieces
  // ---------------------------------------------------------------------------------------

  function SecretBytes(pieces: seq<Piece>): seq<byte> {
    if pieces == [] then []
    else (if pieces[0].Secret? then pieces[0].bytes else []) + SecretBytes(pieces[1..])
  }

  function PlainBytes(pieces: seq<Piece>): seq<byte> {
    if pieces == [] then []
    else (if pieces[0].Plain? then pieces[0].bytes else []) + PlainBytes(pieces[1..])
  }

  lemma {:induction false} BytesJoin(a: seq<Piece>, b: seq<Piece>)
    ensures SecretBytes(a + b) == SecretBytes(a) + SecretBytes(b)
    ensures PlainBytes(a + b) == PlainBytes(a) + PlainBytes(b)
    decreases |a|
  {
    hide SecretBytes, PlainBytes;
    if a == [] {
      NoBytes();
      assert a + b == b;
    } else {
      assert (a + b)[1..] == a[1..] + b && (a + b)[0] == a[0];
      BytesJoin(a[1..], b);
      BytesOfFirst(a);
      BytesOfFirst(a + b);
      Associate(if a[0].Secret? then a[0].bytes else [], SecretBytes(a[1..]), SecretBytes(b));
      Associate(if a[0].Plain? then a[0].bytes else [], PlainBytes(a[1..]), PlainBytes(b));
    }
  }

  lemma BytesOfFirst(pieces: seq<Piece>)
    requires pieces != []
    ensures SecretBytes(pieces) ==
            (if pieces[0].Secret? then pieces[0].bytes else []) + SecretBytes(pieces[1..])
    ensures PlainBytes(pieces) ==
            (if pieces[0].Plain? then pieces[0].bytes else []) + PlainBytes(pieces[1..])
  {
  }

  lemma NoBytes()
    ensures SecretBytes([]) == [] && PlainBytes([]) == []
  {
  }

  lemma BytesOfOne(p: Piece)
    ensures SecretBytes([p]) == (if p.Secret? then p.bytes else [])
    ensures PlainBytes([p]) == (if p.Plain? then p.bytes else [])
  {
    assert [p][1..] == [];
  }

  /** The two buffers of the processor hold them, in order. */
  lemma {:induction false} BuildSplits(pieces: seq<Piece>)
    ensures Build(pieces).secret == SecretBytes(pieces) && Build(pieces).plain == PlainBytes(pieces)
  {
    if pieces != [] {
      var front, p := pieces[..|pieces| - 1], pieces[|pieces| - 1];
      BuildSplits(front);
      hide Build, SecretBytes, PlainBytes;
      BuildSnoc(front, p);
      BytesJoin(front, [p]);
      BytesOfOne(p);
      assert pieces == front + [p];
    }
  }

  // ---------------------------------------------------------------------------------------
  // H.264 and H.265
  // ---------------------------------------------------------------------------------------

  /** Where the encrypted part of a unit begins: in H.264 behind the header byte and what the search for the
      picture parameter set covers, in units of types 1 and 5 only; in H.265 behind the two header bytes,
      in units of types 0 to 31.  Any other unit has none. */
  function SecretStart(f: Format, s: seq<byte>, start: nat): nat
    requires BehindCode(s, start)
  {
    match f
    case H264 =>
      if s[start] % 32 == 1 || s[start] % 32 == 5 then start + 1 + Cover(s[start + 1..]) else End(s, start)
    case H265 =>
      if (s[start] / 2) % 64 <= 31 then start + 2 else End(s, start)
  }

  /** The encrypted parts of the visited units, in order. */
  function UnitSecrets(f: Format, s: seq<byte>, start: nat): seq<byte>
    requires BehindCode(s, start)
    decreases |s| - start
  {
    if start >= |s| - 1 then []
    else
      var (from, end) := (SecretStart(f, s, start), End(s, start));
      (if from <= end then s[from..end] else []) +
      match Next(s, start)
      case None => []
      case Some(n) => NextFromNalu(s, start); UnitSecrets(f, s, n.start)
  }

  /** What is left of them, each behind a start code of four bytes. */
  function UnitClears(f: Format, s: seq<byte>, start: nat): seq<byte>
    requires BehindCode(s, start)
    decreases |s| - start
  {
    if start >= |s| - 1 then []
    else
      var (from, end) := (SecretStart(f, s, start), End(s, start));
      [0, 0, 0, 1] + (if start <= from <= end then s[start..from] else []) +
      match Next(s, start)
      case None => []
      case Some(n) => NextFromNalu(s, start); UnitClears(f, s, n.start)
  }

  lemma UnitSplits(f: Format, s: seq<byte>, start: nat)
    requires BehindCode(s, start) && HeaderFits(f, s, start)
    ensures var (unit, from, end) := (UnitPieces(f, s, start), SecretStart(f, s, start), End(s, start));
            && start <= from <= end
            && SecretBytes([Plain([0, 0, 0, 1])] + unit) == s[from..end]
            && PlainBytes([Plain([0, 0, 0, 1])] + unit) == [0, 0, 0, 1] + s[start..from]
  {
    hide SecretBytes, PlainBytes, Cover, FirstStart;
    var unit := UnitPieces(f, s, start);
    var code := [Plain([0, 0, 0, 1])];
    BytesJoin(code, unit);
    BytesOfOne(code[0]);
    BytesOfOne(unit[0]);
    if |unit| == 2 {
      assert unit == [unit[0]] + [unit[1]];
      BytesJoin([unit[0]], [unit[1]]);
      BytesOfOne(unit[1]);
    } else {
      assert unit == [unit[0]];
    }
  }

  lemma {:induction false} UnitsSplit(f: Format, s: seq<byte>, start: nat)
    requires BehindCode(s, start) && HeadersFitFrom(f, s, start)
    ensures SecretBytes(PiecesFrom(f, s, start)) == UnitSecrets(f, s, start)
    ensures PlainBytes(PiecesFrom(f, s, start)) == UnitClears(f, s, start)
    decreases |s| - start
  {
    hide SecretBytes, PlainBytes, PiecesFrom, HeadersFitFrom, UnitPieces, HeaderFits, SecretStart, FirstStart;
    PiecesFromUnfolds(f, s, start);
    NoBytes();
    if start < |s| - 1 {
      UnitSplits(f, s, start);
      if Next(s, start).Some? { UnitsSplit(f, s, Next(s, start).value.start); }
      BytesJoin([Plain([0, 0, 0, 1])] + UnitPieces(f, s, start), PiecesAt(f, s, Next(s, start)));
    }
  }

  // ---------------------------------------------------------------------------------------
  // AV1
  // ---------------------------------------------------------------------------------------

  /** An OBU header: a forbidden bit, four of type, one each for an extension and a size, a reserved one. */
  lemma ObuHeaderBits(forbidden: nat, obuType: nat, extension: nat, size: nat, reserved: nat)
    requires forbidden < 2 && obuType < 16 && extension < 2 && size < 2 && reserved < 2
    ensures var header: byte := 128 * forbidden + 8 * obuType + 4 * extension + 2 * size + reserved;
            && Av1.TypeOf(header) == obuType
            && (Av1.HasExtension(header) <==> extension == 1)
            && (Av1.HasSize(header) <==> size == 1)
            && (Av1.Dropped(header) <==> obuType == 2 || obuType == 8 || obuType == 15)
            && Av1.WithoutSize(header) == 128 * forbidden + 8 * obuType + 4 * extension + reserved
  {
    var header: byte := 128 * forbidden + 8 * obuType + 4 * extension + 2 * size + reserved;
    assert header / 2 == 64 * forbidden + 4 * obuType + 2 * extension + size;
    assert header / 4 == 32 * forbidden + 2 * obuType + extension;
    assert header / 8 == 16 * forbidden + obuType;
  }

  /** The type of the OBU is none of those that a packetizer drops. */
  predicate IsKept(o: Av1.Obu) {
    var obuType := o.header / 8 % 16;
    obuType != 2 && obuType != 8 && obuType != 15
  }

  /** The payloads of the kept OBUs, in order. */
  function Payloads(obus: seq<Av1.Obu>): seq<byte> {
    if obus == [] then []
    else (if IsKept(obus[0]) then obus[0].payload else []) + Payloads(obus[1..])
  }

  /** What stands before a payload: header, extension and size; in a last OBU the header says that there is
      no size, and there is none. */
  function Heading(o: Av1.Obu, last: bool): seq<byte> {
    var hasSize := o.header / 2 % 2 == 1;
    [if last && hasSize then o.header - 2 else o.header] + o.extension +
    (if hasSize && !last then Leb128.Encode(|o.payload|) else [])
  }

  function Headings(obus: seq<Av1.Obu>): seq<byte> {
    if obus == [] then []
    else (if IsKept(obus[0]) then Heading(obus[0], |obus| == 1) else []) + Headings(obus[1..])
  }

  lemma ObuSplits(o: Av1.Obu, last: bool)
    ensures SecretBytes(Av1.PiecesOf(o, last)) == o.payload
    ensures PlainBytes(Av1.PiecesOf(o, last)) == Heading(o, last)
  {
    hide SecretBytes, PlainBytes;
    var header := [Plain([if last then Av1.WithoutSize(o.header) else o.header])];
    var extension := if o.extension != [] then [Plain(o.extension)] else [];
    var size := if Av1.HasSize(o.header) && !last then [Plain(Leb128.Encode(|o.payload|))] else [];
    var payload := [Secret(o.payload)];
    NoBytes();
    BytesOfOne(header[0]);
    BytesOfOne(Plain(o.extension));
    BytesOfOne(Plain(Leb128.Encode(|o.payload|)));
    BytesOfOne(payload[0]);
    BytesJoin(header, extension);
    BytesJoin(header + extension, size);
    BytesJoin(header + extension + size, payload);
  }

  lemma {:induction false} ObusSplit(obus: seq<Av1.Obu>)
    ensures SecretBytes(Av1.AllPieces(obus)) == Payloads(obus)
    ensures PlainBytes(Av1.AllPieces(obus)) == Headings(obus)
    decreases |obus|
  {
    hide SecretBytes, PlainBytes, Av1.PiecesOf, Heading;
    NoBytes();
    if obus != [] {
      ObusSplit(obus[1..]);
      ObuSplits(obus[0], |obus| == 1);
      BytesJoin(Av1.FirstPieces(obus), Av1.AllPieces(obus[1..]));
    }
  }

  // ---------------------------------------------------------------------------------------
  // Every codec
  // ---------------------------------------------------------------------------------------

  /** Opus and VP9 are encrypted as a whole, and so is every frame that its codec gives up on; a VP8 key
      frame, whose first bit from the right is 0, behind ten bytes, and any other VP8 frame behind one. */
  function SealedBytes(codec: Codec, frame: seq<byte>): seq<byte>
  {
    match codec
    case Vp8 =>
      if frame == [] then []
      else if frame[0] % 2 == 0 then (if |frame| < 10 then [] else frame[10..])
      else frame[1..]
    case H264 => if |frame| < 4 then frame else FrameSecrets(H26x.H264, frame)
    case H265 => if |frame| < 5 then frame else FrameSecrets(H26x.H265, frame)
    case AV1 => if Av1.ReadAll(frame).None? then frame else Payloads(Av1.ReadAll(frame).value)
    case _ => frame
  }

  function ClearBytes(codec: Codec, frame: seq<byte>): seq<byte>
  {
    match codec
    case Vp8 =>
      if frame == [] then []
      else if frame[0] % 2 == 0 then (if |frame| < 10 then [] else frame[..10])
      else frame[..1]
    case H264 => if |frame| < 4 then [] else FrameClears(H26x.H264, frame)
    case H265 => if |frame| < 5 then [] else FrameClears(H26x.H265, frame)
    case AV1 => if Av1.ReadAll(frame).None? then [] else Headings(Av1.ReadAll(frame).value)
    case _ => []
  }

  function FrameSecrets(f: Format, frame: seq<byte>): seq<byte> {
    match Next(frame, 0)
    case None => []
    case Some(n) => NextFromNalu(frame, 0); UnitSecrets(f, frame, n.start)
  }

  function FrameClears(f: Format, frame: seq<byte>): seq<byte> {
    match Next(frame, 0)
    case None => []
    case Some(n) => NextFromNalu(frame, 0); UnitClears(f, frame, n.start)
  }

  lemma FrameUnitsSplit(f: Format, frame: seq<byte>)
    requires HeadersFit(f, frame)
    ensures H26x.Pieces(f, frame).Some? <==> |frame| >= (if f == Format.H264 then 4 else 5)
    ensures H26x.Pieces(f, frame).Some? ==>
              && SecretBytes(H26x.Pieces(f, frame).value) == FrameSecrets(f, frame)
              && PlainBytes(H26x.Pieces(f, frame).value) == FrameClears(f, frame)
  {
    hide SecretBytes, PlainBytes, PiecesFrom, HeadersFitFrom, UnitSecrets, UnitClears, FirstStart;
    NextFromNalu(frame, 0);
    NoBytes();
    if Next(frame, 0).Some? { UnitsSplit(f, frame, Next(frame, 0).value.start); }
  }

  /** For every frame: exactly these bytes go to the cipher, and exactly the others stay in the clear. */
  lemma FrameIsSealed(codec: Codec, frame: seq<byte>)
    requires Processable(codec, frame)
    ensures Build(FramePieces(codec, frame)).secret == SealedBytes(codec, frame)
    ensures Build(FramePieces(codec, frame)).plain == ClearBytes(codec, frame)
  {
    hide Build, SecretBytes, PlainBytes, H26x.Pieces, H26x.HeadersFit, FrameSecrets, FrameClears,
         Av1.ReadAll, Av1.AllPieces, Av1.IndicesFit, Payloads, Headings;
    BuildSplits(FramePieces(codec, frame));
    BytesOfOne(Secret(frame));
    match codec {
      case H264 => FrameUnitsSplit(H26x.H264, frame);
      case H265 => FrameUnitsSplit(H26x.H265, frame);
      case AV1 => if Av1.ReadAll(frame).Some? { ObusSplit(Av1.ReadAll(frame).value); }
      case Vp8 => Vp8Splits(frame, if frame[0] % 2 == 0 then 10 else 1);
      case _ =>
    }
  }

  lemma Vp8Splits(frame: seq<byte>, n: nat)
    requires n <= |frame|
    ensures SecretBytes([Plain(frame[..n]), Secret(frame[n..])]) == frame[n..]
    ensures PlainBytes([Plain(frame[..n]), Secret(frame[n..])]) == frame[..n]
  {
    hide SecretBytes, PlainBytes;
    var header, payload := Plain(frame[..n]), Secret(frame[n..]);
    assert [header, payload] == [header] + [payload];
    BytesJoin([header], [payload]);
    BytesOfOne(header);
    BytesOfOne(payload);
  }
}
