/** How many plaintext ranges the outbound processor keeps of a frame, told from the frame itself. */
module RangeCount {
  import opened Bytes
  import opened Sequences
  import opened Ranges
  import opened Interleaving
  import opened NalScanner
  import opened H26x
  import opened Codecs
  import Av1
  import Leb128

  // ---------------------------------------------------------------------------------------
  // Counting on pieces
  // ---------------------------------------------------------------------------------------

  /** The last range ends where the frame ends so far. */
  predicate Ending(l: Layout) {
    l.ranges != [] && l.ranges[|l.ranges| - 1].End() == l.index
  }

  predicate Bounded(l: Layout) {
    l.ranges != [] ==> l.ranges[|l.ranges| - 1].End() <= l.index
  }

  /** The ranges that these pieces begin; `ending` when they come right behind a range. */
  function Openings(pieces: seq<Piece>, ending: bool): nat {
    if pieces == [] then 0
    else match pieces[0]
      case Plain(_) => (if ending then 0 else 1) + Openings(pieces[1..], true)
      case Secret(bytes) => Openings(pieces[1..], ending && bytes == [])
  }

  /** Whether more plaintext behind these pieces would extend a range. */
  function EndsPlain(pieces: seq<Piece>, ending: bool): bool {
    if pieces == [] then ending
    else match pieces[0]
      case Plain(_) => EndsPlain(pieces[1..], true)
      case Secret(bytes) => EndsPlain(pieces[1..], ending && bytes == [])
  }

  lemma AddCounts(l: Layout, p: Piece)
    requires Bounded(l)
    ensures var l' := Add(l, p);
            && Bounded(l')
            && |l'.ranges| == |l.ranges| + Openings([p], Ending(l))
            && (Ending(l') <==> EndsPlain([p], Ending(l)))
  {
    assert [p][1..] == [];
  }

  lemma {:induction false} OpeningsCount(before: seq<Piece>, pieces: seq<Piece>)
    requires Bounded(Build(before))
    ensures |Build(before + pieces).ranges| == |Build(before).ranges| + Openings(pieces, Ending(Build(before)))
    decreases |pieces|
  {
    hide Build, Add, Bounded, Ending;
    if pieces == [] {
      assert before + pieces == before;
    } else {
      var p, rest := pieces[0], pieces[1..];
      assert [p][1..] == [] && pieces == [p] + rest;
      BuildSnoc(before, p);
      AddCounts(Build(before), p);
      OpeningsCount(before + [p], rest);
      Associate(before, [p], rest);
    }
  }

  /** The encrypted pieces that are not empty. */
  function Secrets(pieces: seq<Piece>): nat {
    if pieces == [] then 0
    else (if pieces[0].Secret? && pieces[0].bytes != [] then 1 else 0) + Secrets(pieces[1..])
  }

  /** Every such piece comes right behind plaintext. */
  predicate Alternating(pieces: seq<Piece>, ending: bool) {
    pieces == [] ||
    match pieces[0]
    case Plain(_) => Alternating(pieces[1..], true)
    case Secret(bytes) => (bytes == [] || ending) && Alternating(pieces[1..], ending && bytes == [])
  }

  function One(b: bool): nat { if b then 1 else 0 }

  /** Then every range is ended by one of them, except perhaps the last. */
  lemma {:induction false} OpeningsBalance(pieces: seq<Piece>, ending: bool)
    requires Alternating(pieces, ending)
    ensures Openings(pieces, ending) + One(ending) == Secrets(pieces) + One(EndsPlain(pieces, ending))
    decreases |pieces|
  {
    if pieces != [] {
      match pieces[0]
      case Plain(_) => OpeningsBalance(pieces[1..], true);
      case Secret(bytes) => OpeningsBalance(pieces[1..], ending && bytes == []);
    }
  }

  lemma RangesOfAlternating(pieces: seq<Piece>)
    requires Alternating(pieces, false)
    ensures |Build(pieces).ranges| == Secrets(pieces) + One(EndsPlain(pieces, false))
  {
    BuildNone();
    OpeningsCount([], pieces);
    OpeningsBalance(pieces, false);
    assert [] + pieces == pieces;
  }

  lemma BuildNone()
    ensures Build([]) == EMPTY_LAYOUT
  {
  }

  lemma {:induction false} CountsJoin(a: seq<Piece>, b: seq<Piece>, ending: bool)
    ensures Secrets(a + b) == Secrets(a) + Secrets(b)
    ensures EndsPlain(a + b, ending) == EndsPlain(b, EndsPlain(a, ending))
    ensures Alternating(a + b, ending) <==> Alternating(a, ending) && Alternating(b, EndsPlain(a, ending))
    decreases |a|
  {
    if a == [] {
      assert a + b == b;
    } else {
      assert (a + b)[1..] == a[1..] + b;
      match a[0]
      case Plain(_) => CountsJoin(a[1..], b, true);
      case Secret(bytes) => CountsJoin(a[1..], b, ending && bytes == []);
    }
  }

  /** A unit of a frame: plaintext, then perhaps something encrypted. */
  predicate IsUnit(unit: seq<Piece>, sealed: bool) {
    && Secrets(unit) == One(sealed)
    && (forall ending :: Alternating(unit, ending))
    && (forall ending :: EndsPlain(unit, ending) == !sealed)
  }

  lemma UnitThenRest(unit: seq<Piece>, sealed: bool, rest: seq<Piece>, ending: bool)
    requires IsUnit(unit, sealed) && Alternating(rest, !sealed)
    ensures Alternating(unit + rest, ending)
    ensures Secrets(unit + rest) == One(sealed) + Secrets(rest)
    ensures EndsPlain(unit + rest, ending) == EndsPlain(rest, !sealed)
  {
    CountsJoin(unit, rest, ending);
  }

  // ---------------------------------------------------------------------------------------
  // AV1
  // ---------------------------------------------------------------------------------------

  /** The kept OBUs that have a payload. */
  function SealedObus(obus: seq<Av1.Obu>): nat {
    if obus == [] then 0
    else One(!Av1.Dropped(obus[0].header) && obus[0].payload != []) + SealedObus(obus[1..])
  }

  /** The last kept OBU, if any, has no payload. */
  function EndsInHeader(obus: seq<Av1.Obu>, ending: bool): bool {
    if obus == [] then ending
    else EndsInHeader(obus[1..], if Av1.Dropped(obus[0].header) then ending else obus[0].payload == [])
  }

  lemma ObuIsUnit(o: Av1.Obu, last: bool)
    ensures IsUnit(Av1.PiecesOf(o, last), o.payload != [])
  {
    hide Av1.HasSize, Av1.WithoutSize;
    var plain := [Plain([if last then Av1.WithoutSize(o.header) else o.header])];
    var more := if o.extension != [] then [Plain(o.extension)] else [];
    var size := if Av1.HasSize(o.header) && !last then [Plain(Leb128.Encode(|o.payload|))] else [];
    PlainThenPayload(plain[0], more, size, Secret(o.payload));
  }

  lemma PlainThenPayload(first: Piece, a: seq<Piece>, b: seq<Piece>, payload: Piece)
    requires first.Plain? && payload.Secret? && |a| <= 1 && |b| <= 1
    requires (a != [] ==> a[0].Plain?) && (b != [] ==> b[0].Plain?)
    ensures IsUnit([first] + a + b + [payload], payload.bytes != [])
  {
    var front := [first] + a + b;
    PlainOnly(front);
    assert [payload][1..] == [];
    forall ending ensures Alternating(front + [payload], ending) {
      CountsJoin(front, [payload], ending);
    }
    forall ending ensures EndsPlain(front + [payload], ending) == (payload.bytes == []) {
      CountsJoin(front, [payload], ending);
    }
    CountsJoin(front, [payload], false);
  }

  lemma {:induction false} PlainOnly(pieces: seq<Piece>)
    requires forall p :: p in pieces ==> p.Plain?
    ensures Secrets(pieces) == 0
    ensures forall ending :: Alternating(pieces, ending) && EndsPlain(pieces, ending) == (ending || pieces != [])
  {
    if pieces != [] {
      assert pieces[0] in pieces;
      PlainOnly(pieces[1..]);
    }
  }

  lemma {:induction false} ObusCount(obus: seq<Av1.Obu>, ending: bool)
    ensures Alternating(Av1.AllPieces(obus), ending)
    ensures Secrets(Av1.AllPieces(obus)) == SealedObus(obus)
    ensures EndsPlain(Av1.AllPieces(obus), ending) == EndsInHeader(obus, ending)
    decreases |obus|
  {
    hide Av1.Dropped, Av1.PiecesOf;
    if obus != [] {
      var o, rest := obus[0], Av1.AllPieces(obus[1..]);
      if Av1.Dropped(o.header) {
        ObusCount(obus[1..], ending);
        assert Av1.AllPieces(obus) == rest;
      } else {
        ObusCount(obus[1..], o.payload == []);
        ObuIsUnit(o, |obus| == 1);
        UnitThenRest(Av1.PiecesOf(o, |obus| == 1), o.payload != [], rest, ending);
      }
    }
  }

  // ---------------------------------------------------------------------------------------
  // H.264 and H.265
  // ---------------------------------------------------------------------------------------

  /** Something of the unit is encrypted. */
  predicate Sealed(f: Format, s: seq<byte>, start: nat)
    requires BehindCode(s, start)
  {
    match ClearHeader(f, s, start)
    case None => false
    case Some(n) => start + n < End(s, start)
  }

  /** The visited units from `start` on of which something is encrypted. */
  function SealedUnits(f: Format, s: seq<byte>, start: nat): nat
    requires BehindCode(s, start)
    decreases |s| - start
  {
    if start >= |s| - 1 then 0
    else
      One(Sealed(f, s, start)) +
      match Next(s, start)
      case None => 0
      case Some(n) => NextFromNalu(s, start); SealedUnits(f, s, n.start)
  }

  /** The last visited unit, if any, is all plaintext. */
  function EndsInClear(f: Format, s: seq<byte>, start: nat, ending: bool): bool
    requires BehindCode(s, start)
    decreases |s| - start
  {
    if start >= |s| - 1 then ending
    else match Next(s, start)
      case None => !Sealed(f, s, start)
      case Some(n) => NextFromNalu(s, start); EndsInClear(f, s, n.start, !Sealed(f, s, start))
  }

  lemma UnitIsUnit(f: Format, s: seq<byte>, start: nat)
    requires BehindCode(s, start) && HeaderFits(f, s, start)
    ensures IsUnit([Plain(LONG_START_CODE)] + UnitPieces(f, s, start), Sealed(f, s, start))
  {
    hide ClearHeader;
    var unit := UnitPieces(f, s, start);
    match ClearHeader(f, s, start)
    case None =>
      PlainOnly([Plain(LONG_START_CODE)] + unit);
    case Some(n) =>
      PlainThenPayload(Plain(LONG_START_CODE), [unit[0]], [], unit[1]);
      assert [Plain(LONG_START_CODE)] + [unit[0]] + [] + [unit[1]] == [Plain(LONG_START_CODE)] + unit;
  }

  lemma {:induction false} UnitsCount(f: Format, s: seq<byte>, start: nat, ending: bool)
    requires BehindCode(s, start) && HeadersFitFrom(f, s, start)
    ensures Alternating(PiecesFrom(f, s, start), ending)
    ensures Secrets(PiecesFrom(f, s, start)) == SealedUnits(f, s, start)
    ensures EndsPlain(PiecesFrom(f, s, start), ending) == EndsInClear(f, s, start, ending)
    decreases |s| - start
  {
    hide PiecesFrom, HeadersFitFrom, UnitPieces, HeaderFits, Sealed, FirstStart;
    PiecesFromUnfolds(f, s, start);
    if start < |s| - 1 {
      UnitIsUnit(f, s, start);
      if Next(s, start).Some? { UnitsCount(f, s, Next(s, start).value.start, !Sealed(f, s, start)); }
      UnitThenRest([Plain(LONG_START_CODE)] + UnitPieces(f, s, start), Sealed(f, s, start),
                   PiecesAt(f, s, Next(s, start)), ending);
    }
  }

  // ---------------------------------------------------------------------------------------
  // Every codec
  // ---------------------------------------------------------------------------------------

  /** The runs of plaintext in a frame as its codec cuts it. */
  function PlainRuns(codec: Codec, frame: seq<byte>): nat {
    match codec
    case Unknown => 0
    case Opus => 0
    case Vp9 => 0
    case Vp8 => 1
    case H264 => UnitRuns(H26x.H264, frame)
    case H265 => UnitRuns(H26x.H265, frame)
    case AV1 =>
      match Av1.ReadAll(frame)
      case None => 0
      case Some(obus) => SealedObus(obus) + One(EndsInHeader(obus, false))
  }

  function UnitRuns(f: Format, frame: seq<byte>): nat {
    if |frame| < 3 + (if f == H26x.H264 then 1 else 2) then 0
    else match Next(frame, 0)
      case None => 0
      case Some(n) =>
        NextFromNalu(frame, 0);
        SealedUnits(f, frame, n.start) + One(EndsInClear(f, frame, n.start, false))
  }

  lemma UnitRunsAreRanges(f: Format, frame: seq<byte>)
    requires HeadersFit(f, frame)
    ensures |Build(if H26x.Pieces(f, frame).Some? then H26x.Pieces(f, frame).value else [Secret(frame)]).ranges|
            == UnitRuns(f, frame)
  {
    hide PiecesFrom, HeadersFitFrom, FirstStart, SealedUnits, EndsInClear;
    NextFromNalu(frame, 0);
    BuildNone();
    if H26x.Pieces(f, frame).None? {
      OneSecret(frame);
    } else if Next(frame, 0).Some? {
      var start := Next(frame, 0).value.start;
      UnitsCount(f, frame, start, false);
      RangesOfAlternating(PiecesFrom(f, frame, start));
    }
  }

  lemma OneSecret(frame: seq<byte>)
    ensures Build([Secret(frame)]).ranges == []
  {
    BuildSnoc([], Secret(frame));
    assert [] + [Secret(frame)] == [Secret(frame)];
  }

  /** For every codec the layout has as many ranges. */
  lemma RunsAreRanges(codec: Codec, frame: seq<byte>)
    requires Processable(codec, frame)
    ensures |Build(FramePieces(codec, frame)).ranges| == PlainRuns(codec, frame)
  {
    hide Build, H26x.Pieces, H26x.HeadersFit, UnitRuns, Av1.ReadAll, Av1.AllPieces, Av1.IndicesFit,
         SealedObus, EndsInHeader;
    match codec {
      case H264 => UnitRunsAreRanges(H26x.H264, frame);
      case H265 => UnitRunsAreRanges(H26x.H265, frame);
      case AV1 =>
        if Av1.ReadAll(frame).Some? {
          ObusCount(Av1.ReadAll(frame).value, false);
          RangesOfAlternating(Av1.AllPieces(Av1.ReadAll(frame).value));
        } else {
          OneSecret(frame);
        }
      case _ => KeptFrame(codec, frame);
    }
  }
}
