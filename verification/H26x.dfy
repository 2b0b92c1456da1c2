/** The H.264 and H.265 outbound processors of `src/dave/codec_utils.cpp`.  The two functions
    differ in their smallest frame and in how much of a NAL unit stays in the clear. */
module H26x {
  import opened Bytes
  import opened Sequences
  import opened Interleaving
  import opened NalScanner
  import OutboundFrame

  datatype Format = H264 | H265

  const LONG_START_CODE: seq<byte> := [0, 0, 0, 1]

  // ---------------------------------------------------------------------------------------
  // How far the plaintext of an H.264 slice reaches
  // ---------------------------------------------------------------------------------------

  function Weight(bitIndex: nat): nat
    requires bitIndex < 8
  {
    [128, 64, 32, 16, 8, 4, 2, 1][bitIndex]
  }

  predicate BitSet(b: byte, bitIndex: nat)
    requires bitIndex < 8
  {
    (b / Weight(bitIndex)) % 2 == 1
  }

  predicate IsEmulationPrevention(payload: seq<byte>, i: nat)
    requires i < |payload|
  {
    i >= 2 && payload[i] == 3 && payload[i - 1] == 0 && payload[i - 2] == 0
  }

  /** The walk over three exponential Golomb values, from bit `bit` on. */
  function CoverFrom(payload: seq<byte>, bit: nat, zeros: nat, parsed: nat): nat
    requires parsed <= 3
    decreases 8 * |payload| - bit
  {
    if bit < 8 * |payload| && parsed < 3 then
      if bit % 8 == 0 && IsEmulationPrevention(payload, bit / 8) then
        CoverFrom(payload, bit + 8, zeros, parsed)
      else if !BitSet(payload[bit / 8], bit % 8) then
        if zeros + 1 >= 32 then 0 else CoverFrom(payload, bit + 1, zeros + 1, parsed)
      else
        CoverFrom(payload, bit + 1 + zeros, 0, parsed + 1)
    else
      var result := bit / 8 + 1;
      if result > 0xFFFF then 0 else result
  }

  function Cover(payload: seq<byte>): nat {
    CoverFrom(payload, 0, 0, 0)
  }

  lemma {:induction false} CoverReaches(payload: seq<byte>, bit: nat, zeros: nat, parsed: nat)
    requires parsed <= 3
    ensures var r := CoverFrom(payload, bit, zeros, parsed); r <= 0xFFFF && (r == 0 || r > bit / 8)
    decreases 8 * |payload| - bit
  {
    hide BitSet, IsEmulationPrevention;
    if bit < 8 * |payload| && parsed < 3 {
      if bit % 8 == 0 && IsEmulationPrevention(payload, bit / 8) {
        CoverReaches(payload, bit + 8, zeros, parsed);
      } else if !BitSet(payload[bit / 8], bit % 8) {
        if zeros + 1 < 32 { CoverReaches(payload, bit + 1, zeros + 1, parsed); }
      } else {
        CoverReaches(payload, bit + 1 + zeros, 0, parsed + 1);
      }
    }
  }

  lemma SameByte(a: seq<byte>, b: seq<byte>, m: nat, i: nat)
    requires i < m <= |a| && m <= |b| && a[..m] == b[..m]
    ensures a[i] == b[i] && (IsEmulationPrevention(a, i) <==> IsEmulationPrevention(b, i))
  {
    assert forall k :: 0 <= k < m ==> a[k] == a[..m][k] == b[k];
  }

  /** A result that lies inside the first `m` bytes depends on nothing behind them. */
  lemma {:induction false} CoverLocal(a: seq<byte>, b: seq<byte>, m: nat, bit: nat, zeros: nat, parsed: nat)
    requires parsed <= 3 && m <= |a| && m <= |b| && a[..m] == b[..m]
    requires 0 < CoverFrom(a, bit, zeros, parsed) <= m
    ensures CoverFrom(b, bit, zeros, parsed) == CoverFrom(a, bit, zeros, parsed)
    decreases 8 * |a| - bit
  {
    hide BitSet, IsEmulationPrevention;
    CoverReaches(a, bit, zeros, parsed);
    assert bit / 8 < m;
    if parsed < 3 {
      SameByte(a, b, m, bit / 8);
      if bit % 8 == 0 && IsEmulationPrevention(a, bit / 8) {
        CoverLocal(a, b, m, bit + 8, zeros, parsed);
      } else if !BitSet(a[bit / 8], bit % 8) {
        CoverLocal(a, b, m, bit + 1, zeros + 1, parsed);
      } else {
        CoverLocal(a, b, m, bit + 1 + zeros, 0, parsed + 1);
      }
    }
  }

  predicate BitClear(payload: seq<byte>, bit: nat)
    requires bit < 8 * |payload|
  {
    !BitSet(payload[bit / 8], bit % 8)
  }

  predicate NoEmulation(payload: seq<byte>) {
    forall i :: 0 <= i < |payload| ==> !IsEmulationPrevention(payload, i)
  }

  /** The walk over a run of zero bits. */
  lemma {:induction false} ZeroRun(payload: seq<byte>, bit: nat, zeros: nat, parsed: nat, k: nat)
    requires parsed < 3 && NoEmulation(payload) && bit + k <= 8 * |payload| && zeros < 32
    requires forall j :: bit <= j < bit + k ==> BitClear(payload, j)
    ensures CoverFrom(payload, bit, zeros, parsed) ==
            if zeros + k >= 32 then 0 else CoverFrom(payload, bit + k, zeros + k, parsed)
    decreases k
  {
    hide BitSet, IsEmulationPrevention;
    if k > 0 {
      assert BitClear(payload, bit);
      if zeros + 1 < 32 { ZeroRun(payload, bit + 1, zeros + 1, parsed, k - 1); }
    }
  }

  /** A one bit ends the first half of a code; the second is skipped. */
  lemma OneBit(payload: seq<byte>, bit: nat, zeros: nat, parsed: nat)
    requires parsed < 3 && NoEmulation(payload) && bit < 8 * |payload| && !BitClear(payload, bit)
    ensures CoverFrom(payload, bit, zeros, parsed) == CoverFrom(payload, bit + 1 + zeros, 0, parsed + 1)
  {
    hide BitSet, IsEmulationPrevention;
  }

  function LeadingZeros(payload: seq<byte>, bit: nat): (k: nat)
    requires bit <= 8 * |payload|
    ensures bit + k <= 8 * |payload| && forall j :: bit <= j < bit + k ==> BitClear(payload, j)
    ensures bit + k < 8 * |payload| ==> !BitClear(payload, bit + k)
    decreases 8 * |payload| - bit
  {
    if bit == 8 * |payload| || !BitClear(payload, bit) then 0 else 1 + LeadingZeros(payload, bit + 1)
  }

  /** Where `n` exponential Golomb codes end, each of k zero bits, a one and k more bits; `None` for a
      code with 32 zero bits. */
  function CodesEnd(payload: seq<byte>, bit: nat, n: nat): Option<nat>
    decreases n
  {
    if n == 0 || bit >= 8 * |payload| then Some(bit)
    else
      var k := LeadingZeros(payload, bit);
      if k >= 32 then None
      else if bit + k == 8 * |payload| then Some(bit + k)
      else CodesEnd(payload, bit + 2 * k + 1, n - 1)
  }

  /** The bytes up to and with the one that holds bit `end`, unless they are too many to count. */
  function BytesUpTo(end: Option<nat>): nat {
    if end.None? || end.value / 8 + 1 > 0xFFFF then 0 else end.value / 8 + 1
  }

  lemma {:induction false} CoverIsCodes(payload: seq<byte>, bit: nat, n: nat)
    requires NoEmulation(payload) && n <= 3
    ensures CoverFrom(payload, bit, 0, 3 - n) == BytesUpTo(CodesEnd(payload, bit, n))
    decreases n
  {
    hide BitClear, NoEmulation, CoverFrom, BytesUpTo, LeadingZeros;
    if n > 0 && bit < 8 * |payload| {
      var k := LeadingZeros(payload, bit);
      ZeroRun(payload, bit, 0, 3 - n, k);
      if k >= 32 {
        NothingToCover();
      } else if bit + k < 8 * |payload| {
        OneBit(payload, bit + k, k, 3 - n);
        CoverIsCodes(payload, bit + 2 * k + 1, n - 1);
      } else {
        WalkEnds(payload, bit + k, k, 3 - n);
      }
    } else {
      WalkEnds(payload, bit, 0, 3 - n);
    }
  }

  lemma NothingToCover()
    ensures BytesUpTo(None) == 0
  {
  }

  lemma WalkEnds(payload: seq<byte>, bit: nat, zeros: nat, parsed: nat)
    requires parsed == 3 || (parsed < 3 && bit >= 8 * |payload|)
    ensures CoverFrom(payload, bit, zeros, parsed) == BytesUpTo(Some(bit))
  {
  }

  /** Where there are no emulation prevention bytes, what stays in the clear reaches to where the first
      three exponential Golomb codes end, the last of which is the id of the picture parameter set. */
  lemma CoversThreeCodes(payload: seq<byte>)
    requires NoEmulation(payload)
    ensures Cover(payload) == BytesUpTo(CodesEnd(payload, 0, 3))
  {
    CoverIsCodes(payload, 0, 3);
  }

  /** The bits of a byte are counted from the most significant one. */
  lemma BitsFromTheLeft(b: byte)
    ensures b == (if BitSet(b, 0) then 0x80 else 0) + (if BitSet(b, 1) then 0x40 else 0) +
                 (if BitSet(b, 2) then 0x20 else 0) + (if BitSet(b, 3) then 0x10 else 0) +
                 (if BitSet(b, 4) then 8 else 0) + (if BitSet(b, 5) then 4 else 0) +
                 (if BitSet(b, 6) then 2 else 0) + (if BitSet(b, 7) then 1 else 0)
  {
    BitsOf(b);
    hide BitSet;
    var h2, h4, h6 := b / 4, b / 16, b / 64;
    assert h4 == 4 * h6 + h4 % 4 && h2 == 4 * h4 + h2 % 4;
  }

  lemma BitsOf(b: byte)
    ensures (if BitSet(b, 0) then 2 else 0) + (if BitSet(b, 1) then 1 else 0) == b / 64
    ensures (if BitSet(b, 2) then 2 else 0) + (if BitSet(b, 3) then 1 else 0) == b / 16 % 4
    ensures (if BitSet(b, 4) then 2 else 0) + (if BitSet(b, 5) then 1 else 0) == b / 4 % 4
    ensures (if BitSet(b, 6) then 2 else 0) + (if BitSet(b, 7) then 1 else 0) == b % 4
  {
    BitIs(b);
    hide BitSet;
    TwoBits(b / 64);
    TwoBits(b / 16);
    TwoBits(b / 4);
    TwoBits(b);
    assert b / 64 % 4 == b / 64 && b / 64 / 2 == b / 128 && b / 16 / 2 == b / 32 && b / 4 / 2 == b / 8;
  }

  lemma TwoBits(q: nat)
    ensures (if q / 2 % 2 == 1 then 2 else 0) + (if q % 2 == 1 then 1 else 0) == q % 4
  {
  }

  lemma BitIs(b: byte)
    ensures BitSet(b, 0) == (b / 128 % 2 == 1) && BitSet(b, 1) == (b / 64 % 2 == 1)
    ensures BitSet(b, 2) == (b / 32 % 2 == 1) && BitSet(b, 3) == (b / 16 % 2 == 1)
    ensures BitSet(b, 4) == (b / 8 % 2 == 1) && BitSet(b, 5) == (b / 4 % 2 == 1)
    ensures BitSet(b, 6) == (b / 2 % 2 == 1) && BitSet(b, 7) == (b % 2 == 1)
  {
  }

  /** A 3 behind two zeros, where a byte begins, is skipped as a whole. */
  lemma SkipsEmulationPrevention(payload: seq<byte>, i: nat, zeros: nat, parsed: nat)
    requires i < |payload| && parsed < 3
    ensures IsEmulationPrevention(payload, i) <==> i >= 2 && payload[i - 2..i + 1] == [0, 0, 3]
    ensures i >= 2 && payload[i - 2..i + 1] == [0, 0, 3] ==>
              CoverFrom(payload, 8 * i, zeros, parsed) == CoverFrom(payload, 8 * i + 8, zeros, parsed)
  {
    hide BitSet;
    if i >= 2 {
      var t := payload[i - 2..i + 1];
      assert t[0] == payload[i - 2] && t[1] == payload[i - 1] && t[2] == payload[i];
    }
  }

  /** `bytes_covering_h264_pps` */
  method BytesCoveringH264Pps(payload: seq<byte>) returns (size: nat)
    ensures size == Cover(payload) && size <= 0xFFFF
  {
    hide BitSet, IsEmulationPrevention;
    CoverReaches(payload, 0, 0, 0);
    var bit, zeros, parsed := 0, 0, 0;
    while bit < |payload| * 8 && parsed < 3
      invariant parsed <= 3
      invariant Cover(payload) == CoverFrom(payload, bit, zeros, parsed)
      decreases |payload| * 8 - bit
    {
      var bitIndex, byteIndex := bit % 8, bit / 8;
      if bitIndex == 0 && IsEmulationPrevention(payload, byteIndex) {
        bit := bit + 8;
      } else if !BitSet(payload[byteIndex], bitIndex) {
        zeros := zeros + 1;
        bit := bit + 1;
        if zeros >= 32 { return 0; }
      } else {
        parsed := parsed + 1;
        bit := bit + 1 + zeros;
        zeros := 0;
      }
    }
    size := bit / 8 + 1;
    if size > 0xFFFF { return 0; }
  }

  // ---------------------------------------------------------------------------------------
  // Pieces of a frame
  // ---------------------------------------------------------------------------------------

  /** The plaintext bytes at the front of a unit; `None` when the whole unit stays in the clear. */
  function ClearHeader(f: Format, s: seq<byte>, start: nat): Option<nat>
    requires start < |s|
  {
    match f
    case H264 =>
      var nalType := s[start] % 0x20;
      if nalType == 1 || nalType == 5 then Some(1 + Cover(s[start + 1..])) else None
    case H265 =>
      if s[start] / 2 % 0x40 < 32 then Some(2) else None
  }

  predicate HeaderFits(f: Format, s: seq<byte>, start: nat)
    requires BehindCode(s, start)
  {
    match ClearHeader(f, s, start)
    case None => true
    case Some(n) => start + n <= End(s, start)
  }

  /** Every partly encrypted unit is at least as long as its plaintext header; the subspans of
      the source demand it. */
  predicate HeadersFitFrom(f: Format, s: seq<byte>, start: nat)
    requires BehindCode(s, start)
    decreases |s| - start
  {
    start >= |s| - 1 ||
    (HeaderFits(f, s, start) &&
     match Next(s, start)
     case None => true
     case Some(n) => NextFromNalu(s, start); HeadersFitFrom(f, s, n.start))
  }

  predicate HeadersFit(f: Format, s: seq<byte>) {
    match Next(s, 0)
    case None => true
    case Some(n) => NextFromNalu(s, 0); HeadersFitFrom(f, s, n.start)
  }

  function UnitPieces(f: Format, s: seq<byte>, start: nat): seq<Piece>
    requires BehindCode(s, start) && HeaderFits(f, s, start)
  {
    match ClearHeader(f, s, start)
    case None => [Plain(s[start..End(s, start)])]
    case Some(n) => [Plain(s[start..start + n]), Secret(s[start + n..End(s, start)])]
  }

  function PiecesFrom(f: Format, s: seq<byte>, start: nat): seq<Piece>
    requires BehindCode(s, start) && HeadersFitFrom(f, s, start)
    decreases |s| - start
  {
    if start >= |s| - 1 then []
    else
      [Plain(LONG_START_CODE)] + UnitPieces(f, s, start) +
      match Next(s, start)
      case None => []
      case Some(n) => NextFromNalu(s, start); PiecesFrom(f, s, n.start)
  }

  function PiecesAt(f: Format, s: seq<byte>, nalu: Option<Nalu>): seq<Piece>
    requires nalu.Some? ==> BehindCode(s, nalu.value.start) && HeadersFitFrom(f, s, nalu.value.start)
  {
    match nalu
    case None => []
    case Some(n) => PiecesFrom(f, s, n.start)
  }

  lemma PiecesFromUnfolds(f: Format, s: seq<byte>, start: nat)
    requires BehindCode(s, start) && HeadersFitFrom(f, s, start)
    ensures Next(s, start).Some? ==> BehindCode(s, Next(s, start).value.start)
    ensures start < |s| - 1 ==>
              && HeaderFits(f, s, start)
              && (Next(s, start).Some? ==> HeadersFitFrom(f, s, Next(s, start).value.start))
              && PiecesFrom(f, s, start)
                 == [Plain(LONG_START_CODE)] + UnitPieces(f, s, start) + PiecesAt(f, s, Next(s, start))
    ensures start >= |s| - 1 ==> PiecesFrom(f, s, start) == []
  {
    NextFromNalu(s, start);
  }

  /** `None` when the frame is too small to be processed. */
  function Pieces(f: Format, s: seq<byte>): Option<seq<Piece>>
    requires HeadersFit(f, s)
  {
    if |s| < 3 + (if f == H264 then 1 else 2) then None
    else
      NextFromNalu(s, 0);
      Some(PiecesAt(f, s, Next(s, 0)))
  }

  /** `process_frame_h264` and `process_frame_h265` */
  method Process(f: Format, processor: OutboundFrame.OutboundFrameProcessor, frame: seq<byte>) returns (ok: bool)
    requires processor.Valid() && HeadersFit(f, frame)
    modifies processor
    ensures processor.Valid() && processor.ciphertextBytes == old(processor.ciphertextBytes)
    ensures ok <==> Pieces(f, frame).Some?
    ensures ok ==> processor.pieces == old(processor.pieces) + Pieces(f, frame).value
    ensures !ok ==> processor.pieces == old(processor.pieces)
  {
    hide UnitPieces, HeaderFits, PiecesFrom, HeadersFitFrom, Build;
    var headerSize := if f == H264 then 1 else 2;
    if |frame| < 3 + headerSize { return false; }
    var nalu := NextNaluIndex(frame, 0);
    NextFromNalu(frame, 0);
    ghost var all := old(processor.pieces) + Pieces(f, frame).value;
    while nalu.Some? && nalu.value.start < |frame| - 1
      invariant processor.Valid() && processor.ciphertextBytes == old(processor.ciphertextBytes)
      invariant nalu.Some? ==> BehindCode(frame, nalu.value.start) && HeadersFitFrom(f, frame, nalu.value.start)
      invariant all == processor.pieces + PiecesAt(f, frame, nalu)
      decreases if nalu.None? then 0 else 1 + |frame| - nalu.value.start
    {
      var start := nalu.value.start;
      ghost var before := processor.pieces;
      PiecesFromUnfolds(f, frame, start);
      processor.AddUnencryptedBytes(LONG_START_CODE);
      var next := NextNaluIndex(frame, start);
      var end := if next.Some? then next.value.start - next.value.codeSize else |frame|;
      assert end == End(frame, start);
      AddUnit(f, processor, frame, start, end);
      Regroup(before, [Plain(LONG_START_CODE)], UnitPieces(f, frame, start), PiecesAt(f, frame, next));
      nalu := next;
    }
    if nalu.Some? { PiecesFromUnfolds(f, frame, nalu.value.start); }
    return true;
  }

  /** The part of the loop body behind the start code. */
  method AddUnit(f: Format, processor: OutboundFrame.OutboundFrameProcessor, frame: seq<byte>, start: nat, end: nat)
    requires processor.Valid() && BehindCode(frame, start) && HeaderFits(f, frame, start) && end == End(frame, start)
    modifies processor
    ensures processor.Valid() && processor.ciphertextBytes == old(processor.ciphertextBytes)
    ensures processor.pieces == old(processor.pieces) + UnitPieces(f, frame, start)
  {
    hide Build, ClearHeader;
    var clear := ClearHeaderSize(f, frame, start);
    if clear.Some? {
      processor.AddUnencryptedBytes(frame[start..start + clear.value]);
      processor.AddEncryptedBytes(frame[start + clear.value..end]);
    } else {
      processor.AddUnencryptedBytes(frame[start..end]);
    }
  }

  method ClearHeaderSize(f: Format, frame: seq<byte>, start: nat) returns (clear: Option<nat>)
    requires start < |frame|
    ensures clear == ClearHeader(f, frame, start)
  {
    hide Cover;
    clear := None;
    match f {
      case H264 =>
        var nalType := frame[start] % 0x20;
        if nalType == 1 || nalType == 5 {
          var covered := BytesCoveringH264Pps(frame[start + 1..]);
          clear := Some(1 + covered);
        }
      case H265 =>
        if frame[start] / 2 % 0x40 < 32 { clear := Some(2); }
    }
  }

  // ---------------------------------------------------------------------------------------
  // What the emitted bytes are
  // ---------------------------------------------------------------------------------------

  /** Every unit behind a four-byte start code. */
  function Render(bodies: seq<seq<byte>>): seq<byte> {
    if bodies == [] then [] else LONG_START_CODE + bodies[0] + Render(bodies[1..])
  }

  lemma {:induction false} PiecesFromRender(f: Format, s: seq<byte>, start: nat)
    requires BehindCode(s, start) && HeadersFitFrom(f, s, start)
    ensures Flatten(PiecesFrom(f, s, start)) == Render(BodiesFrom(s, start))
    decreases |s| - start
  {
    if start < |s| - 1 {
      NextFromNalu(s, start);
      var unit := UnitPieces(f, s, start);
      var rest := if Next(s, start).None? then [] else PiecesFrom(f, s, Next(s, start).value.start);
      var body := s[start..End(s, start)];
      if Next(s, start).Some? { PiecesFromRender(f, s, Next(s, start).value.start); }
      FlattenUnit(f, s, start);
      FlattenAppend([Plain(LONG_START_CODE)] + unit, rest);
      FlattenAppend([Plain(LONG_START_CODE)], unit);
      var bodies := BodiesFrom(s, start);
      assert Flatten([Plain(LONG_START_CODE)]) == LONG_START_CODE;
      assert bodies[0] == body;
      assert Flatten(rest) == Render(bodies[1..]);
    }
  }

  lemma FlattenUnit(f: Format, s: seq<byte>, start: nat)
    requires BehindCode(s, start) && HeaderFits(f, s, start)
    ensures Flatten(UnitPieces(f, s, start)) == s[start..End(s, start)]
  {
    var unit := UnitPieces(f, s, start);
    if |unit| == 2 {
      assert unit[..1] == [unit[0]] && unit[..1][..0] == [];
      assert Flatten(unit[..1]) == unit[0].bytes;
      assert unit[0].bytes + unit[1].bytes == s[start..End(s, start)];
    } else {
      assert unit[..0] == [];
    }
  }

  /** The emitted bytes are a four-byte start code before each visited unit, in order. */
  lemma EmittedIsRendered(f: Format, s: seq<byte>)
    requires HeadersFit(f, s) && Pieces(f, s).Some?
    ensures Flatten(Pieces(f, s).value) == Render(Bodies(s))
  {
    NextFromNalu(s, 0);
    if Next(s, 0).Some? { PiecesFromRender(f, s, Next(s, 0).value.start); }
  }
}
