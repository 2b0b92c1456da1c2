/** Frames for which normalising H.264 and H.265 does not keep what it keeps otherwise. */
module AnnexBCases {
  import opened Bytes
  import opened NalScanner
  import opened H26x
  import opened AnnexB

  // ---------------------------------------------------------------------------------------
  // A last unit that is lost
  // ---------------------------------------------------------------------------------------

  /** Two units of one byte each, the second of which no scan visits. */
  const TWO_SHORT_UNITS: seq<byte> := [0, 0, 1, 0x67, 0, 0, 1, 0x68]

  /** The first unit is emitted, as the last, and is not found again. */
  lemma ShortLastUnitIsLost()
    ensures Bodies(TWO_SHORT_UNITS) == [[0x67]]
    ensures Bodies(Render(Bodies(TWO_SHORT_UNITS))) == []
  {
    hide FirstStart, BodiesFrom;
    var s := TWO_SHORT_UNITS;
    FirstStartIs(s, 0, 0);
    FirstStartIs(s, 3, 4);
    BodiesUnfolds(s, 3);
    BodiesUnfolds(s, 7);
    assert s[3..4] == [0x67];
    var bodies: seq<seq<byte>> := [[0x67]];
    RenderUnfolds(bodies);
    RenderUnfolds(bodies[1..]);
    hide Render;
    var t := Render(bodies);
    assert t == [0, 0, 0, 1, 0x67];
    FirstStartIs(t, 0, 1);
    BodiesUnfolds(t, 4);
  }

  // ---------------------------------------------------------------------------------------
  // A slice that is not steady
  // ---------------------------------------------------------------------------------------

  /** A slice of one byte, then a parameter set. */
  const SPS: seq<byte> :=
    [0x67, 0xFF, 0xFE, 0, 0, 0, 0, 0xFF, 0xFF, 0xFF, 0xFF, 0xFF, 0xFF, 0xFF, 0xFF, 0xFF, 0xFF, 0xFF, 0xFF]
  const SLICE_THEN_SPS: seq<byte> := [0, 0, 1, 0x41, 0, 0, 1] + SPS

  lemma Bits(k: nat)
    requires k < 8
    ensures !BitSet(0, k) && BitSet(0xFF, k) && (BitSet(1, k) <==> k == 7) && (BitSet(0xFE, k) <==> k < 7)
  {
    assert k == 0 || k == 1 || k == 2 || k == 3 || k == 4 || k == 5 || k == 6 || k == 7;
  }

  lemma ClearBits(payload: seq<byte>, bit: nat, k: nat)
    requires bit + k <= 8 * |payload|
    requires forall j :: bit <= j < bit + k ==>
               payload[j / 8] == 0 || (payload[j / 8] == 1 && j % 8 < 7) || (payload[j / 8] == 0xFE && j % 8 == 7)
    ensures forall j :: bit <= j < bit + k ==> BitClear(payload, j)
  {
    hide BitSet;
    forall j | bit <= j < bit + k ensures BitClear(payload, j) { Bits(j % 8); }
  }

  /** In the frame, the walk over the slice's codes runs into 32 zero bits of the parameter set. */
  lemma NotCoveredInFrame(payload: seq<byte>)
    requires payload == [0, 0, 1] + SPS
    ensures Cover(payload) == 0
  {
    hide CoverFrom, BitSet;
    ClearBits(payload, 0, 23);
    ZeroRun(payload, 0, 0, 0, 23);
    Bits(7);
    OneBit(payload, 23, 23, 0);
    ClearBits(payload, 47, 33);
    ZeroRun(payload, 47, 0, 1, 33);
  }

  /** In the emitted frame, behind one more zero byte, it does not. */
  lemma CoveredInEmitted(payload: seq<byte>)
    requires payload == [0, 0, 0, 1] + SPS
    ensures Cover(payload) == 15
  {
    hide BitSet, CoverFrom;
    ClearBits(payload, 0, 31);
    ZeroRun(payload, 0, 0, 0, 31);
    Bits(7);
    OneBit(payload, 31, 31, 0);
    ClearBits(payload, 63, 25);
    ZeroRun(payload, 63, 0, 1, 25);
    Bits(0);
    OneBit(payload, 88, 25, 1);
    Bits(2);
    OneBit(payload, 114, 0, 2);
    WalkEnds(payload, 115, 0, 3);
  }

  lemma UnitsOfSliceThenSps()
    ensures var s := SLICE_THEN_SPS;
            && Next(s, 0) == Some(Nalu(3, 3)) && Next(s, 3) == Some(Nalu(7, 3)) && Next(s, 7) == None
            && s[3] == 0x41 && s[4..] == [0, 0, 1] + SPS && s[7..] == SPS && |s| == 26
  {
    hide FirstStart;
    var s := SLICE_THEN_SPS;
    FirstStartIs(s, 0, 0);
    FirstStartIs(s, 3, 4);
    assert forall j :: 7 <= j ==> !StartsAt(s, j);
    assert FirstStart(s, 7).None?;
  }

  lemma BodiesOfSliceThenSps()
    ensures Bodies(SLICE_THEN_SPS) == [[0x41], SPS]
  {
    hide FirstStart, BodiesFrom;
    var s := SLICE_THEN_SPS;
    UnitsOfSliceThenSps();
    BodiesUnfolds(s, 3);
    BodiesUnfolds(s, 7);
    assert s[3..4] == [0x41] && s[7..26] == s[7..];
  }

  lemma SliceThenSpsFits()
    ensures HeadersFit(H264, SLICE_THEN_SPS) && Pieces(H264, SLICE_THEN_SPS).Some?
  {
    hide FirstStart, CoverFrom, HeadersFitFrom, PiecesFrom;
    var s := SLICE_THEN_SPS;
    UnitsOfSliceThenSps();
    NotCoveredInFrame(s[4..]);
    FitsUnfolds(H264, s, 3);
    FitsUnfolds(H264, s, 7);
  }

  lemma SliceIsNotSteady()
    ensures !SteadyFrame(H264, SLICE_THEN_SPS)
  {
    hide FirstStart, CoverFrom, Render, BodiesFrom, SteadyFrom;
    var s := SLICE_THEN_SPS;
    UnitsOfSliceThenSps();
    NotCoveredInFrame(s[4..]);
    BodiesUnfolds(s, 7);
    RenderUnfolds([SPS]);
    RenderUnfolds([SPS][1..]);
    assert s[3..4] == [0x41] && s[7..26] == s[7..];
    assert [0x41][1..] + Render([SPS]) == [0, 0, 0, 1] + SPS;
    CoveredInEmitted([0x41][1..] + Render([SPS]));
    SteadyUnfolds(H264, s, 3);
  }

  /** This frame begins with a start code, its last unit is long and all its headers fit; yet the
      headers of the emitted frame do not, so that it cannot be processed again. */
  lemma NotProcessableAgain()
    ensures HeadersFit(H264, SLICE_THEN_SPS) && Pieces(H264, SLICE_THEN_SPS).Some?
    ensures Bodies(SLICE_THEN_SPS) == [[0x41], SPS]
    ensures !HeadersFit(H264, Render(Bodies(SLICE_THEN_SPS)))
  {
    hide HeadersFit, Bodies, Render, SteadyFrame, Pieces;
    BodiesOfSliceThenSps();
    SliceThenSpsFits();
    SliceIsNotSteady();
    FitsAgain(H264, SLICE_THEN_SPS);
  }
}
