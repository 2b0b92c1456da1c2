/** How much `encrypt` adds to a frame, told from the frame itself, and when a buffer of the advertised
    size and the size byte of the footer can hold it. */
module FooterGrowth {
  import opened Bytes
  import opened Ranges
  import opened Interleaving
  import opened InboundFrame
  import opened Codecs
  import opened Encryptor
  import opened RangeCount
  import Av1
  import AnnexB
  import H26x
  import Leb128
  import NalScanner
  import Pipeline

  // ---------------------------------------------------------------------------------------
  // The processed frame
  // ---------------------------------------------------------------------------------------

  /** The bytes that the AV1 rewrite saves: dropped OBUs, padding of sizes, and the size of a last OBU. */
  function Saved(s: seq<byte>): nat
    requires Av1.ReadAll(s).Some?
    decreases |s|
  {
    if s == [] then 0
    else
      var (o, used) := Av1.ReadOne(s).value;
      Av1.WrittenNotLonger(s, used == |s|);
      used - (if Av1.Dropped(o.header) then 0 else |Av1.WriteOne(o, used == |s|)|) + Saved(s[used..])
  }

  lemma {:induction false} WrittenLength(s: seq<byte>)
    requires Av1.ReadAll(s).Some?
    ensures |Av1.Write(Av1.ReadAll(s).value)| == |s| - Saved(s)
    decreases |s|
  {
    if s != [] {
      hide Av1.Dropped, Av1.WriteOne, Av1.ReadOne;
      var (o, used) := Av1.ReadOne(s).value;
      var rest := Av1.ReadAll(s[used..]).value;
      WrittenLength(s[used..]);
      assert Av1.ReadAll(s).value == [o] + rest && ([o] + rest)[1..] == rest;
      assert rest == [] <==> used == |s|;
    }
  }

  function TotalBytes(bodies: seq<seq<byte>>): nat {
    if bodies == [] then 0 else |bodies[0]| + TotalBytes(bodies[1..])
  }

  lemma {:induction false} RenderedLength(bodies: seq<seq<byte>>)
    ensures |H26x.Render(bodies)| == 4 * |bodies| + TotalBytes(bodies)
  {
    if bodies != [] { RenderedLength(bodies[1..]); }
  }

  /** The length of the frame a receiver gets out. */
  function ProcessedLength(codec: Codec, frame: seq<byte>): nat
  {
    match codec
    case H264 => UnitsLength(H26x.H264, frame)
    case H265 => UnitsLength(H26x.H265, frame)
    case AV1 =>
      if Av1.ReadAll(frame).None? then |frame|
      else
        WrittenLength(frame);
        |frame| - Saved(frame)
    case _ => |frame|
  }

  /** Four bytes before each visited unit. */
  function UnitsLength(f: H26x.Format, frame: seq<byte>): nat {
    if |frame| < 3 + (if f == H26x.H264 then 1 else 2) then |frame|
    else
      var bodies := NalScanner.Bodies(frame);
      4 * |bodies| + TotalBytes(bodies)
  }

  lemma ProcessedLengthIs(codec: Codec, frame: seq<byte>)
    requires Processable(codec, frame)
    ensures |Processed(codec, frame)| == ProcessedLength(codec, frame)
  {
    hide Flatten, H26x.HeadersFit, Av1.ReadAll, Av1.AllPieces, Av1.IndicesFit, Av1.Write, Saved, NalScanner.Bodies,
         H26x.PiecesAt, H26x.Render, TotalBytes;
    FlattenOne(Secret(frame));
    match codec {
      case H264 => UnitsLengthIs(H26x.H264, frame);
      case H265 => UnitsLengthIs(H26x.H265, frame);
      case AV1 =>
        if Av1.ReadAll(frame).Some? {
          Av1.EmittedIsWritten(Av1.ReadAll(frame).value);
          WrittenLength(frame);
        }
      case _ => KeptFrame(codec, frame);
    }
  }

  lemma UnitsLengthIs(f: H26x.Format, frame: seq<byte>)
    requires H26x.HeadersFit(f, frame)
    ensures H26x.Pieces(f, frame).Some? <==> |frame| >= 3 + (if f == H26x.H264 then 1 else 2)
    ensures H26x.Pieces(f, frame).Some? ==> |Flatten(H26x.Pieces(f, frame).value)| == UnitsLength(f, frame)
  {
    hide Flatten, NalScanner.Bodies, H26x.PiecesAt, H26x.Render, TotalBytes;
    if H26x.Pieces(f, frame).Some? {
      H26x.EmittedIsRendered(f, frame);
      RenderedLength(NalScanner.Bodies(frame));
    }
  }

  // ---------------------------------------------------------------------------------------
  // The footer
  // ---------------------------------------------------------------------------------------

  lemma SmallNumber(v: nat)
    ensures |Leb128.Encode(v)| >= 1
    ensures v < 0x80 ==> |Leb128.Encode(v)| == 1
    ensures v < 0x4000 ==> |Leb128.Encode(v)| <= 2
  {
    if v < 0x4000 {
      assert |Leb128.Encode(0x7F)| == 1 && |Leb128.Encode(0x3FFF)| == 2;
      Leb128.EncodeMonotonic(v, 0x3FFF);
    }
  }

  /** Two numbers for each range, of one byte below 2^7 and of two at most below 2^14. */
  lemma {:induction false} ListLength(ranges: seq<Range>, size: nat)
    requires forall r :: r in ranges ==> r.offset <= size && r.size <= size
    ensures 2 * |ranges| <= |EncodeRanges(ranges)|
    ensures size < 0x80 ==> |EncodeRanges(ranges)| == 2 * |ranges|
    ensures size < 0x4000 ==> |EncodeRanges(ranges)| <= 4 * |ranges|
  {
    hide Leb128.Encode;
    if ranges != [] {
      assert ranges[0] in ranges;
      SmallNumber(ranges[0].offset);
      SmallNumber(ranges[0].size);
      ListLength(ranges[1..], size);
    }
  }

  lemma RangesBelow(ranges: seq<Range>, size: nat)
    requires Chained(ranges, 0, 0, size)
    ensures forall r :: r in ranges ==> r.offset <= size && r.size <= size
  {
    ChainedFromBounds(ranges, 0, 0, size);
  }

  /** The footer of a frame, measured on the frame: two bytes at least for each run of plaintext, exactly
      two when the processed frame is shorter than 2^7 bytes, four at most below 2^14. */
  lemma FooterMeasured(codec: Codec, frame: seq<byte>, nonce: nat)
    requires Processable(codec, frame)
    ensures var (l, size) := (Pipeline.LayoutOf(codec, frame), ProcessedLength(codec, frame));
            var (footer, runs) := (FooterSize(nonce, l.ranges), PlainRuns(codec, frame));
            var fixed := SUPPLEMENTAL_BYTES + |Leb128.Encode(nonce)|;
            && l.index == size && |l.ranges| == runs
            && fixed + 2 * runs <= footer
            && (size < 0x80 ==> footer == fixed + 2 * runs)
            && (size < 0x4000 ==> footer <= fixed + 4 * runs)
  {
    hide Build, FramePieces, Processable, Processed, ProcessedLength, PlainRuns, EncodeRanges, Leb128.Encode,
         Chained, Weavable, Weave, Total;
    var l := Pipeline.LayoutOf(codec, frame);
    LaidOut(codec, frame);
    ProcessedLengthIs(codec, frame);
    RunsAreRanges(codec, frame);
    RangesBelow(l.ranges, l.index);
    ListLength(l.ranges, l.index);
  }

  /** Body and footer fit in a buffer of the advertised size. */
  predicate AdvertisedSizeHolds(codec: Codec, frame: seq<byte>, nonce: nat)
    requires Processable(codec, frame)
  {
    var l := Pipeline.LayoutOf(codec, frame);
    l.index + FooterSize(nonce, l.ranges) <= MaxCiphertextByteSize(|frame|)
  }

  /** They do when the rewriting of the frame, the nonce and four bytes for each run of plaintext add no more
      than the 64 bytes of padding; they do not when two bytes for each run are too much already; and for
      a processed frame shorter than 2^7 bytes the latter is exact. */
  lemma AdvertisedSize(codec: Codec, frame: seq<byte>, nonce: nat)
    requires Processable(codec, frame)
    ensures var (size, runs) := (ProcessedLength(codec, frame), PlainRuns(codec, frame));
            var added := size - |frame| + |Leb128.Encode(nonce)|;
            && (size < 0x4000 && added + 4 * runs <= 64 ==> AdvertisedSizeHolds(codec, frame, nonce))
            && (added + 2 * runs > 64 ==> !AdvertisedSizeHolds(codec, frame, nonce))
            && (size < 0x80 ==> (AdvertisedSizeHolds(codec, frame, nonce) <==> added + 2 * runs <= 64))
  {
    hide Build, FramePieces, Processable, ProcessedLength, PlainRuns, FooterSize, Leb128.Encode, Pipeline.LayoutOf;
    FooterMeasured(codec, frame, nonce);
  }

  /** The same for the 255 bytes that the size byte can express. */
  lemma FooterLimit(codec: Codec, frame: seq<byte>, nonce: nat)
    requires Processable(codec, frame)
    ensures var footer := FooterSize(nonce, Pipeline.LayoutOf(codec, frame).ranges);
            var (size, runs) := (ProcessedLength(codec, frame), PlainRuns(codec, frame));
            var fixed := SUPPLEMENTAL_BYTES + |Leb128.Encode(nonce)|;
            && (size < 0x4000 && fixed + 4 * runs <= 255 ==> footer <= 255)
            && (fixed + 2 * runs > 255 ==> footer > 255)
            && (size < 0x80 ==> (footer <= 255 <==> fixed + 2 * runs <= 255))
  {
    hide Build, FramePieces, Processable, ProcessedLength, PlainRuns, FooterSize, Leb128.Encode, Pipeline.LayoutOf;
    FooterMeasured(codec, frame, nonce);
  }

  // ---------------------------------------------------------------------------------------
  // Counting OBUs
  // ---------------------------------------------------------------------------------------

  /** Every AV1 frame with 122 kept OBUs with payload or more has a footer longer than its size byte can
      express, whatever the nonce. */
  lemma Av1FooterTooLong(frame: seq<byte>, nonce: nat)
    requires Processable(AV1, frame) && Av1.ReadAll(frame).Some? && SealedObus(Av1.ReadAll(frame).value) >= 122
    ensures FooterSize(nonce, Pipeline.LayoutOf(AV1, frame).ranges) > 255
  {
    hide Build, FramePieces, Processable, ProcessedLength, FooterSize, Leb128.Encode, Pipeline.LayoutOf, Av1.ReadAll,
         SealedObus, EndsInHeader;
    SmallNumber(nonce);
    FooterLimit(AV1, frame, nonce);
  }

  /** With n of them, the advertised size is too small unless the rewrite saves at least 2n + |nonce| - 64
      bytes. */
  lemma Av1AdvertisedTooSmall(frame: seq<byte>, nonce: nat)
    requires Processable(AV1, frame) && Av1.ReadAll(frame).Some?
    requires 2 * SealedObus(Av1.ReadAll(frame).value) + |Leb128.Encode(nonce)| > 64 + Saved(frame)
    ensures !AdvertisedSizeHolds(AV1, frame, nonce)
  {
    hide Build, FramePieces, Processable, Leb128.Encode, Pipeline.LayoutOf, Av1.ReadAll, SealedObus,
         EndsInHeader, Saved,
         AdvertisedSizeHolds;
    AdvertisedSize(AV1, frame, nonce);
  }

  /** Every AV1 frame shorter than 2^14 bytes with 13 of them at most fits in a buffer of the advertised
      size, and its footer in 255 bytes, whatever the nonce. */
  lemma Av1FewObusFit(frame: seq<byte>, nonce: nat)
    requires Processable(AV1, frame) && |frame| < 0x4000 && nonce < TWO_32
    requires Av1.ReadAll(frame).Some? ==> SealedObus(Av1.ReadAll(frame).value) <= 13
    ensures AdvertisedSizeHolds(AV1, frame, nonce)
    ensures FooterSize(nonce, Pipeline.LayoutOf(AV1, frame).ranges) <= 255
  {
    hide Build, FramePieces, Processable, FooterSize, Leb128.Encode, Pipeline.LayoutOf, Av1.ReadAll, SealedObus,
         EndsInHeader, Saved, AdvertisedSizeHolds;
    Pipeline.SmallEncodings(nonce);
    AdvertisedSize(AV1, frame, nonce);
    FooterLimit(AV1, frame, nonce);
  }

  // ---------------------------------------------------------------------------------------
  // Counting NAL units
  // ---------------------------------------------------------------------------------------

  /** The rewriting adds one byte at most for each visited unit. */
  lemma {:induction false} RenderedBound(s: seq<byte>, n: NalScanner.Nalu)
    requires NalScanner.BehindCode(s, n.start) && 0 <= n.CodeStart() && n.codeSize >= 3
    ensures var bodies := NalScanner.BodiesFrom(s, n.start);
            4 * |bodies| + TotalBytes(bodies) <= |s| - n.CodeStart() + |bodies|
    decreases |s| - n.start
  {
    hide NalScanner.FirstStart, NalScanner.BodiesFrom;
    AnnexB.BodiesUnfolds(s, n.start);
    if n.start < |s| - 1 && NalScanner.Next(s, n.start).Some? {
      NalScanner.NextFromNalu(s, n.start);
      NalScanner.NextCodeSize(s, n.start);
      RenderedBound(s, NalScanner.Next(s, n.start).value);
    }
  }

  lemma UnitsLengthBound(f: H26x.Format, frame: seq<byte>)
    ensures UnitsLength(f, frame) <= |frame| + |NalScanner.Bodies(frame)|
  {
    hide NalScanner.FirstStart, NalScanner.BodiesFrom;
    if NalScanner.Next(frame, 0).Some? {
      NalScanner.NextFromNalu(frame, 0);
      NalScanner.NextCodeSize(frame, 0);
      RenderedBound(frame, NalScanner.Next(frame, 0).value);
    }
  }

  /** A run of plaintext begins no later than in the unit it belongs to. */
  lemma {:induction false} RunsBound(f: H26x.Format, s: seq<byte>, start: nat)
    requires NalScanner.BehindCode(s, start)
    ensures var n := |NalScanner.BodiesFrom(s, start)|;
            && SealedUnits(f, s, start) + One(EndsInClear(f, s, start, true)) <= n + 1
            && SealedUnits(f, s, start) + One(EndsInClear(f, s, start, false)) <= n
    decreases |s| - start
  {
    hide NalScanner.FirstStart, NalScanner.BodiesFrom, Sealed;
    AnnexB.BodiesUnfolds(s, start);
    if start < |s| - 1 && NalScanner.Next(s, start).Some? {
      NalScanner.NextFromNalu(s, start);
      RunsBound(f, s, NalScanner.Next(s, start).value.start);
    }
  }

  lemma UnitRunsBound(f: H26x.Format, frame: seq<byte>)
    ensures UnitRuns(f, frame) <= |NalScanner.Bodies(frame)|
  {
    hide NalScanner.FirstStart, NalScanner.BodiesFrom, SealedUnits, EndsInClear;
    if NalScanner.Next(frame, 0).Some? {
      NalScanner.NextFromNalu(frame, 0);
      RunsBound(f, frame, NalScanner.Next(frame, 0).value.start);
    }
  }

  /** Every H.264 or H.265 frame of less than 2^14 bytes with 11 visited units at most fits in a buffer of
      the advertised size, and its footer in 255 bytes, whatever the nonce. */
  lemma FewUnitsFit(codec: Codec, frame: seq<byte>, nonce: nat)
    requires (codec == H264 || codec == H265) && Processable(codec, frame) && nonce < TWO_32
    requires var units := |NalScanner.Bodies(frame)|; units <= 11 && |frame| + units < 0x4000
    ensures AdvertisedSizeHolds(codec, frame, nonce)
    ensures FooterSize(nonce, Pipeline.LayoutOf(codec, frame).ranges) <= 255
  {
    hide Build, FramePieces, Processable, FooterSize, Leb128.Encode, Pipeline.LayoutOf, NalScanner.Bodies,
         AdvertisedSizeHolds, UnitRuns, UnitsLength;
    Pipeline.SmallEncodings(nonce);
    AdvertisedSize(codec, frame, nonce);
    FooterLimit(codec, frame, nonce);
    UnitsLengthBound(H26x.H264, frame);
    UnitsLengthBound(H26x.H265, frame);
    UnitRunsBound(H26x.H264, frame);
    UnitRunsBound(H26x.H265, frame);
  }

  // ---------------------------------------------------------------------------------------
  // Frames that are too much
  // ---------------------------------------------------------------------------------------

  /** A frame OBU with its size and one byte of payload. */
  const SMALL_OBU := Av1.Obu(0x32, [], [0])

  function SmallObus(n: nat): seq<Av1.Obu> {
    if n == 0 then [] else [SMALL_OBU] + SmallObus(n - 1)
  }

  function SmallFrame(n: nat): (s: seq<byte>)
    ensures |s| == 3 * n
  {
    if n == 0 then [] else [0x32, 1, 0] + SmallFrame(n - 1)
  }

  lemma {:induction false} SmallFrameReads(n: nat)
    ensures Av1.ReadAll(SmallFrame(n)) == Some(SmallObus(n)) && |SmallObus(n)| == n
  {
    hide Av1.ReadOne, Av1.ReadAll, Av1.WriteOne;
    Av1.ReadAllUnfolds(SmallFrame(n));
    if n > 0 {
      SmallFrameReads(n - 1);
      SmallObuIsWritten();
      Av1.ReadWritten(SMALL_OBU, SmallFrame(n - 1));
      assert SmallFrame(n)[3..] == SmallFrame(n - 1);
    }
  }

  lemma SmallObuIsWritten()
    ensures Av1.WriteOne(SMALL_OBU, false) == [0x32, 1, 0] && Av1.WriteOne(SMALL_OBU, true) == [0x30, 0]
    ensures !Av1.Dropped(0x32) && Av1.HasSize(0x32)
  {
  }

  lemma {:induction false} SmallObusCount(n: nat)
    ensures SealedObus(SmallObus(n)) == n && !EndsInHeader(SmallObus(n), false)
  {
    if n > 0 {
      SmallObuIsWritten();
      SmallObusCount(n - 1);
      assert SmallObus(n)[1..] == SmallObus(n - 1);
    }
  }

  lemma SavedUnfolds(s: seq<byte>)
    requires Av1.ReadAll(s).Some?
    ensures s == [] ==> Saved(s) == 0
    ensures s != [] ==>
              && Av1.ReadOne(s).Some?
              && var (o, used) := Av1.ReadOne(s).value;
                 && Av1.ReadAll(s[used..]).Some?
                 && Saved(s) ==
                    used - (if Av1.Dropped(o.header) then 0 else |Av1.WriteOne(o, used == |s|)|) + Saved(s[used..])
  {
    hide Av1.ReadOne, Av1.WriteOne, Av1.Dropped;
  }

  lemma {:induction false} SmallObusSaved(n: nat)
    requires Av1.ReadAll(SmallFrame(n)).Some?
    ensures Saved(SmallFrame(n)) == if n == 0 then 0 else 1
  {
    hide Av1.ReadOne, Av1.ReadAll, Av1.WriteOne, Av1.Dropped, Av1.HasSize, Saved;
    SavedUnfolds(SmallFrame(n));
    if n > 0 {
      SmallObuIsWritten();
      SmallFrameReads(n - 1);
      Av1.ReadWritten(SMALL_OBU, SmallFrame(n - 1));
      assert SmallFrame(n) == [0x32, 1, 0] + SmallFrame(n - 1) && SmallFrame(n)[3..] == SmallFrame(n - 1);
      SmallObusSaved(n - 1);
    }
  }

  /** n OBUs of one byte each: n runs of plaintext, and one byte less than before. */
  lemma SmallFrameMeasured(n: nat)
    requires 0 < n && 3 * n < TWO_64
    ensures Processable(AV1, SmallFrame(n))
    ensures PlainRuns(AV1, SmallFrame(n)) == n && ProcessedLength(AV1, SmallFrame(n)) == 3 * n - 1
  {
    hide Av1.ReadAll, Av1.IndicesFit, SealedObus, EndsInHeader, Saved, SmallFrame;
    SmallFrameReads(n);
    assert SmallFrame(n)[0..] == SmallFrame(n);
    Av1.ReadableFits(SmallFrame(n), 0);
    SmallObusCount(n);
    SmallObusSaved(n);
  }

  lemma OverrunWith(n: nat)
    requires n == 33 && Processable(AV1, SmallFrame(n))
    ensures var l := Pipeline.LayoutOf(AV1, SmallFrame(n));
            l.index <= MaxCiphertextByteSize(3 * n) &&
            !FooterInBounds(MaxCiphertextByteSize(3 * n), l.index, 1, l.ranges)
  {
    hide Build, FramePieces, Processable, EncodeRanges, Fitting, SmallFrame, Leb128.Encode, PlainRuns, ProcessedLength;
    SmallFrameMeasured(n);
    var l := Pipeline.LayoutOf(AV1, SmallFrame(n));
    FooterMeasured(AV1, SmallFrame(n), 1);
    SmallNumber(1);
    FittingIsAll(l.ranges, 67);
  }

  /** With 33 of them, already the first frame of a ratchet makes the writes leave a buffer of the
      advertised size: its ranges fit behind the nonce, size byte and marker do not. */
  lemma AdvertisedSizeOverrun()
    ensures Processable(AV1, SmallFrame(33)) && !AdvertisedSizeHolds(AV1, SmallFrame(33), 1)
    ensures var l := Pipeline.LayoutOf(AV1, SmallFrame(33));
            var capacity := MaxCiphertextByteSize(|SmallFrame(33)|);
            l.index <= capacity && !FooterInBounds(capacity, l.index, 1, l.ranges)
  {
    hide SmallFrame, Processable, FooterInBounds, Pipeline.LayoutOf, PlainRuns, ProcessedLength, AdvertisedSizeHolds;
    SmallFrameMeasured(33);
    SmallNumber(1);
    AdvertisedSize(AV1, SmallFrame(33), 1);
    OverrunWith(33);
  }
}
