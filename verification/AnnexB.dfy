/** What rewriting every start code to four bytes does to an H.264 or H.265 frame: the NAL units
    found in the result are the units found in the frame. */
module AnnexB {
  import opened Bytes
  import opened Sequences
  import opened Interleaving
  import opened NalScanner
  import opened H26x

  ghost predicate NoCode(b: seq<byte>) {
    forall k: nat :: !StartsAt(b, k)
  }

  /** No start code inside any body; the last one may end in 0, 0, 1, which no scan reports. */
  ghost predicate Clean(bodies: seq<seq<byte>>) {
    if bodies == [] then true
    else if |bodies| == 1 then NoCode(bodies[0])
    else NoCode(bodies[0] + [0]) && Clean(bodies[1..])
  }

  function Last(bodies: seq<seq<byte>>): seq<byte>
    requires bodies != []
  {
    bodies[|bodies| - 1]
  }

  /** Whether the last unit would be visited again: it has two bytes at least. */
  predicate Rescannable(bodies: seq<seq<byte>>) {
    bodies == [] || |Last(bodies)| >= 2
  }

  lemma {:induction false} BodiesFromClean(s: seq<byte>, start: nat)
    requires BehindCode(s, start)
    ensures Clean(BodiesFrom(s, start))
    decreases |s| - start
  {
    if start < |s| - 1 {
      var body := s[start..End(s, start)];
      match Next(s, start)
      case None =>
        assert forall k: nat :: StartsAt(body, k) ==> StartsAt(s, start + k);
      case Some(n) =>
        NextFromNalu(s, start);
        NextCodeSize(s, start);
        BodiesFromClean(s, n.start);
        assert BodiesFrom(s, start)[1..] == BodiesFrom(s, n.start);
        forall k: nat ensures !StartsAt(body + [0], k) {
          if StartsAt(body + [0], k) {
            assert (body + [0])[k + 2] == body[k + 2] == s[start + k + 2];
            assert StartsAt(s, start + k);
          }
        }
        assert forall k: nat :: StartsAt(body, k) ==> StartsAt(body + [0], k);
    }
  }

  lemma BodiesClean(s: seq<byte>)
    ensures Clean(Bodies(s))
  {
    if Next(s, 0).Some? {
      NextFromNalu(s, 0);
      BodiesFromClean(s, Next(s, 0).value.start);
    }
  }

  // ---------------------------------------------------------------------------------------
  // Scanning a rendered frame
  // ---------------------------------------------------------------------------------------

  /** Behind a body, the next thing the scan finds is the long start code written after it. */
  lemma NextAcross(before: seq<byte>, body: seq<byte>, after: seq<byte>)
    requires before != [] && before[|before| - 1] == 1 && NoCode(body + [0]) && after != []
    ensures var s := before + body + LONG_START_CODE + after;
            && BehindCode(s, |before|)
            && Next(s, |before|) == Some(Nalu(|before| + |body| + 4, 4))
            && End(s, |before|) == |before| + |body|
  {
    var s := before + body + LONG_START_CODE + after;
    var i := |before| + |body| + 1;
    assert s[i - 1..i + 3] == LONG_START_CODE;
    assert s[i - 1] == s[i] == s[i + 1] == 0 && s[i + 2] == 1;
    forall j | |before| <= j < i ensures !StartsAt(s, j) {
      var k := j - |before|;
      if k + 2 < |body| {
        assert s[j] == body[k] && s[j + 1] == body[k + 1] && s[j + 2] == body[k + 2];
        assert !StartsAt(body + [0], k);
      } else {
        assert s[j + 2] == LONG_START_CODE[k + 2 - |body|] == 0;
      }
    }
    FirstStartIs(s, |before|, i);
  }

  /** Behind a last body the scan finds nothing, also when a start code ends the frame. */
  lemma NextAtEnd(before: seq<byte>, body: seq<byte>)
    requires before != [] && before[|before| - 1] == 1 && body != [] && NoCode(body)
    ensures var s := before + body; BehindCode(s, |before|) && Next(s, |before|) == None
  {
    var s := before + body;
    forall j | |before| <= j ensures !StartsAt(s, j) {
      var k := j - |before|;
      if k + 3 < |body| {
        assert s[j] == body[k] && s[j + 1] == body[k + 1] && s[j + 2] == body[k + 2];
        assert !StartsAt(body, k);
      }
    }
    assert FirstStart(s, |before|).None?;
  }

  lemma RenderUnfolds(bodies: seq<seq<byte>>)
    ensures Render(bodies) == if bodies == [] then [] else LONG_START_CODE + bodies[0] + Render(bodies[1..])
  {
  }

  lemma RenderCons(pre: seq<byte>, bodies: seq<seq<byte>>)
    requires bodies != []
    ensures pre + Render(bodies) == (pre + LONG_START_CODE + bodies[0]) + Render(bodies[1..])
    ensures |bodies| == 1 ==> pre + Render(bodies) == pre + LONG_START_CODE + bodies[0]
  {
    hide Render;
    RenderUnfolds(bodies);
    RenderUnfolds(bodies[1..]);
    Regroup(pre, LONG_START_CODE, bodies[0], Render(bodies[1..]));
  }

  lemma RenderConsTwice(pre: seq<byte>, bodies: seq<seq<byte>>)
    requires |bodies| > 1
    ensures pre + Render(bodies)
            == (pre + LONG_START_CODE) + bodies[0] + LONG_START_CODE + (bodies[1] + Render(bodies[2..]))
  {
    hide Render;
    RenderCons(pre, bodies);
    RenderCons([], bodies[1..]);
    var code := LONG_START_CODE;
    var rest := Render(bodies[2..]);
    assert bodies[1..][1..] == bodies[2..];
    assert [] + Render(bodies[1..]) == Render(bodies[1..]) && [] + code == code;
    Associate(code, bodies[1], rest);
    Associate(pre + code + bodies[0], code, bodies[1] + rest);
  }

  /** One visited unit in a rendered frame, and what the scan finds behind it. */
  lemma FirstUnit(pre: seq<byte>, bodies: seq<seq<byte>>)
    requires bodies != [] && Clean(bodies)
    requires if |bodies| == 1 then bodies[0] != [] else |bodies| > 2 || bodies[1] != []
    ensures var s, start := pre + Render(bodies), |pre| + 4;
            && BehindCode(s, start)
            && End(s, start) == start + |bodies[0]|
            && s[start..End(s, start)] == bodies[0]
            && Next(s, start) == (if |bodies| == 1 then None else Some(Nalu(start + |bodies[0]| + 4, 4)))
            && (bodies[0] == [] ==> s[start] == 0)
            && (|bodies| == 1 ==> |s| == start + |bodies[0]|)
            && (|bodies| > 1 ==> |s| > start + |bodies[0]| + 4)
  {
    hide Render, FirstStart;
    var s, head := pre + Render(bodies), pre + LONG_START_CODE;
    var body := bodies[0];
    if |bodies| == 1 {
      RenderCons(pre, bodies);
      NextAtEnd(head, body);
      assert (head + body)[|head|..] == body;
    } else {
      RenderConsTwice(pre, bodies);
      RenderUnfolds(bodies[2..]);
      var rest := bodies[1] + Render(bodies[2..]);
      NextAcross(head, body, rest);
      assert (head + body + LONG_START_CODE + rest)[|head|..|head| + |body|] == body;
    }
  }

  /** What a scan of the rendered units finds: all of them, except that a last unit of one byte is not
      visited, and that the start code of an empty last unit is taken for a part of the unit before. */
  function FoundUnits(bodies: seq<seq<byte>>): seq<seq<byte>> {
    if bodies == [] then []
    else if |bodies| == 1 then (if |bodies[0]| >= 2 then bodies else [])
    else if |bodies| == 2 && bodies[1] == [] then [bodies[0] + LONG_START_CODE]
    else [bodies[0]] + FoundUnits(bodies[1..])
  }

  /** That is what a scan finds, whatever stands before the rendered units. */
  lemma {:induction false} RescanFrom(pre: seq<byte>, bodies: seq<seq<byte>>)
    requires bodies != [] && Clean(bodies) && (|bodies| == 1 ==> bodies[0] != [])
    ensures var s := pre + Render(bodies);
            BehindCode(s, |pre| + 4) && BodiesFrom(s, |pre| + 4) == FoundUnits(bodies)
    decreases |bodies|
  {
    hide FirstStart, Render, Next, End, BodiesFrom, NoCode, BehindCode;
    if |bodies| == 2 && bodies[1] == [] {
      EmptyLastIsLost(pre, bodies);
    } else {
      FirstUnit(pre, bodies);
      BodiesUnfolds(pre + Render(bodies), |pre| + 4);
      if |bodies| > 1 {
        RenderCons(pre, bodies);
        RescanFrom(pre + LONG_START_CODE + bodies[0], bodies[1..]);
      }
    }
  }

  /** A start code at the very end is taken for a part of the unit before it. */
  lemma EmptyLastIsLost(pre: seq<byte>, bodies: seq<seq<byte>>)
    requires |bodies| == 2 && bodies[1] == [] && Clean(bodies)
    ensures var s := pre + Render(bodies);
            BehindCode(s, |pre| + 4) && BodiesFrom(s, |pre| + 4) == [bodies[0] + LONG_START_CODE]
  {
    NoCodeThenCode(bodies[0]);
    hide FirstStart, Render, Next, End, BodiesFrom, NoCode, Clean;
    var head, tail := pre + LONG_START_CODE, bodies[0] + LONG_START_CODE;
    RenderEmptyLast(pre, bodies);
    NextAtEnd(head, tail);
    BodiesAtEnd(head + tail, |head|);
    assert (head + tail)[|head|..] == tail;
  }

  lemma RenderEmptyLast(pre: seq<byte>, bodies: seq<seq<byte>>)
    requires |bodies| == 2 && bodies[1] == []
    ensures pre + Render(bodies) == (pre + LONG_START_CODE) + (bodies[0] + LONG_START_CODE)
  {
    hide Render;
    RenderCons(pre, bodies);
    RenderUnfolds(bodies[1..]);
    RenderUnfolds(bodies[1..][1..]);
    Associate(pre + LONG_START_CODE, bodies[0], LONG_START_CODE);
  }

  lemma BodiesAtEnd(s: seq<byte>, start: nat)
    requires BehindCode(s, start) && Next(s, start).None? && start < |s| - 1
    ensures BodiesFrom(s, start) == [s[start..]]
  {
    hide FirstStart;
    assert s[start..End(s, start)] == s[start..];
  }

  lemma BodiesUnfolds(s: seq<byte>, start: nat)
    requires BehindCode(s, start)
    ensures Next(s, start).Some? ==> BehindCode(s, Next(s, start).value.start)
    ensures BodiesFrom(s, start) ==
            if start >= |s| - 1 then []
            else if Next(s, start).None? then [s[start..End(s, start)]]
            else [s[start..End(s, start)]] + BodiesFrom(s, Next(s, start).value.start)
  {
    hide FirstStart;
    if Next(s, start).Some? { NextFromNalu(s, start); }
  }

  lemma NoCodeThenCode(body: seq<byte>)
    requires NoCode(body + [0])
    ensures NoCode(body + LONG_START_CODE)
  {
    var s := body + LONG_START_CODE;
    forall k: nat ensures !StartsAt(s, k) {
      if k + 2 < |body| {
        assert !StartsAt(body + [0], k);
      } else if k + 3 < |s| {
        assert s[k + 2] == LONG_START_CODE[k + 2 - |body|] == 0;
      }
    }
  }

  lemma FirstOfRendered(bodies: seq<seq<byte>>)
    requires bodies != [] && (|bodies| > 1 || bodies[0] != [])
    ensures Next(Render(bodies), 0) == Some(Nalu(4, 4))
  {
    hide Render;
    var s := Render(bodies);
    RenderUnfolds(bodies);
    if |bodies| > 1 { RenderUnfolds(bodies[1..]); }
    assert s[0] == 0 && s[1] == 0 && s[2] == 0 && s[3] == 1;
    FirstStartIs(s, 0, 1);
  }

  lemma RescanFinds(frame: seq<byte>)
    ensures Bodies(Render(Bodies(frame))) == FoundUnits(Bodies(frame))
  {
    hide Render, Bodies, BodiesFrom, FirstStart, Clean, Next, BehindCode;
    var bodies := Bodies(frame);
    var s := Render(bodies);
    BodiesClean(frame);
    RenderUnfolds(bodies);
    BodiesAre(s);
    NothingIn(s);
    if |bodies| == 1 && bodies[0] == [] {
      RenderUnfolds(bodies[1..]);
    } else if bodies != [] {
      FirstOfRendered(bodies);
      assert [] + s == s;
      RescanFrom([], bodies);
    }
  }

  lemma BodiesAre(s: seq<byte>)
    ensures Next(s, 0).None? ==> Bodies(s) == []
    ensures Next(s, 0).Some? ==>
              BehindCode(s, Next(s, 0).value.start) && Bodies(s) == BodiesFrom(s, Next(s, 0).value.start)
  {
    hide FirstStart, BodiesFrom;
    NextFromNalu(s, 0);
  }

  lemma NothingIn(s: seq<byte>)
    ensures s == [] || s == LONG_START_CODE ==> Next(s, 0).None?
  {
  }

  /** The same units are found exactly when the last has two bytes at least; the same bytes are
      emitted again also when it is empty and not the only one. */
  lemma {:induction false} FoundSame(bodies: seq<seq<byte>>)
    ensures FoundUnits(bodies) == bodies <==> Rescannable(bodies)
    ensures Render(FoundUnits(bodies)) == Render(bodies) <==> RendersAgain(bodies)
    decreases |bodies|
  {
    hide Render;
    if |bodies| <= 1 {
      RenderUnfolds(bodies);
      RenderUnfolds([]);
      if |bodies| == 1 { RenderUnfolds(bodies[1..]); }
    } else if |bodies| == 2 && bodies[1] == [] {
      FoundBeforeEmpty(bodies);
    } else {
      FoundSame(bodies[1..]);
      hide FoundUnits;
      FoundCons(bodies);
    }
  }

  lemma FoundBeforeEmpty(bodies: seq<seq<byte>>)
    requires |bodies| == 2 && bodies[1] == []
    ensures FoundUnits(bodies) != bodies && Render(FoundUnits(bodies)) == Render(bodies)
  {
    hide Render;
    RenderEmptyLast([], bodies);
    assert [] + Render(bodies) == Render(bodies) && [] + LONG_START_CODE == LONG_START_CODE;
    var tail := [bodies[0] + LONG_START_CODE];
    RenderUnfolds(tail);
    RenderUnfolds(tail[1..]);
  }

  lemma FoundCons(bodies: seq<seq<byte>>)
    requires |bodies| > 1 && bodies[1..] != [[]]
    ensures FoundUnits(bodies) == bodies <==> FoundUnits(bodies[1..]) == bodies[1..]
    ensures Render(FoundUnits(bodies)) == Render(bodies) <==> Render(FoundUnits(bodies[1..])) == Render(bodies[1..])
  {
    hide Render;
    var found := [bodies[0]] + FoundUnits(bodies[1..]);
    assert FoundUnits(bodies) == found && found[1..] == FoundUnits(bodies[1..]);
    hide FoundUnits;
    assert bodies == [bodies[0]] + bodies[1..];
    RenderUnfolds(bodies);
    RenderUnfolds(found);
    SameBehind(LONG_START_CODE + bodies[0], Render(found[1..]), Render(bodies[1..]));
  }

  predicate RendersAgain(bodies: seq<seq<byte>>) {
    bodies == [] || |Last(bodies)| >= 2 || (|bodies| >= 2 && Last(bodies) == [])
  }

  lemma SameBehind(a: seq<byte>, b: seq<byte>, c: seq<byte>)
    ensures a + b == a + c <==> b == c
  {
    assert (a + b)[|a|..] == b && (a + c)[|a|..] == c;
  }

  /** Scanning the rewritten frame finds the units of the frame exactly when the last of them
      has at least two bytes. */
  lemma RescanFindsSameUnits(frame: seq<byte>)
    ensures Bodies(Render(Bodies(frame))) == Bodies(frame) <==> Rescannable(Bodies(frame))
  {
    hide Bodies, Render, FoundUnits;
    RescanFinds(frame);
    FoundSame(Bodies(frame));
  }

  // ---------------------------------------------------------------------------------------
  // Nothing else of the frame is lost
  // ---------------------------------------------------------------------------------------

  /** The start codes in front of the visited units, as they stand in the frame. */
  function CodesFrom(s: seq<byte>, n: Nalu): seq<seq<byte>>
    requires BehindCode(s, n.start) && 0 <= n.CodeStart()
    decreases |s| - n.start
  {
    if n.start >= |s| - 1 then []
    else
      [s[n.CodeStart()..n.start]] +
      match Next(s, n.start)
      case None => []
      case Some(m) => NextFromNalu(s, n.start); CodesFrom(s, m)
  }

  function Zip(codes: seq<seq<byte>>, bodies: seq<seq<byte>>): seq<byte>
    requires |codes| == |bodies|
  {
    if codes == [] then [] else codes[0] + bodies[0] + Zip(codes[1..], bodies[1..])
  }

  predicate IsCode(c: seq<byte>) {
    c == [0, 0, 1] || c == [0, 0, 0, 1]
  }

  /** Whether the scan ends at a unit of one byte, which is not visited. */
  predicate EndsInShortUnit(s: seq<byte>, start: nat)
    requires BehindCode(s, start)
    decreases |s| - start
  {
    start >= |s| - 1 ||
    match Next(s, start)
    case None => false
    case Some(m) => NextFromNalu(s, start); EndsInShortUnit(s, m.start)
  }

  lemma {:induction false} TilesFrom(s: seq<byte>, n: Nalu)
    requires BehindCode(s, n.start) && 0 <= n.CodeStart() && IsCode(s[n.CodeStart()..n.start])
    ensures |CodesFrom(s, n)| == |BodiesFrom(s, n.start)|
    ensures forall c :: c in CodesFrom(s, n) ==> IsCode(c)
    ensures !EndsInShortUnit(s, n.start) ==> Zip(CodesFrom(s, n), BodiesFrom(s, n.start)) == s[n.CodeStart()..]
    decreases |s| - n.start
  {
    hide FirstStart;
    if n.start < |s| - 1 {
      var codes, bodies := CodesFrom(s, n), BodiesFrom(s, n.start);
      var code, body := s[n.CodeStart()..n.start], s[n.start..End(s, n.start)];
      assert codes[0] == code && bodies[0] == body;
      ThreeSlices(s, n.CodeStart(), n.start, End(s, n.start));
      match Next(s, n.start)
      case None =>
        assert codes[1..] == [] && bodies[1..] == [];
      case Some(m) =>
        NextFromNalu(s, n.start);
        CodeIs(s, n.start);
        TilesFrom(s, m);
        assert codes[1..] == CodesFrom(s, m) && bodies[1..] == BodiesFrom(s, m.start);
    }
  }

  lemma ThreeSlices(s: seq<byte>, a: nat, b: nat, c: nat)
    requires a <= b <= c <= |s|
    ensures s[a..b] + s[b..c] + s[c..] == s[a..]
  {
  }

  lemma CodeIs(s: seq<byte>, from: nat)
    requires Next(s, from).Some?
    ensures var m := Next(s, from).value; 0 <= m.CodeStart() && IsCode(s[m.CodeStart()..m.start])
  {
    NextCodeSize(s, from);
    var m := Next(s, from).value;
    var code := s[m.CodeStart()..m.start];
    assert code == if m.codeSize == 4 then [0, 0, 0, 1] else [0, 0, 1];
  }

  /** A frame that begins with a start code and does not end in a unit of one byte consists of
      its units behind start codes of three or four bytes: nothing else is rewritten or lost. */
  lemma FrameIsItsUnits(frame: seq<byte>)
    requires Next(frame, 0).Some? && Next(frame, 0).value.CodeStart() == 0
    requires BehindCode(frame, Next(frame, 0).value.start) && !EndsInShortUnit(frame, Next(frame, 0).value.start)
    ensures var codes := CodesFrom(frame, Next(frame, 0).value);
            && |codes| == |Bodies(frame)|
            && (forall c :: c in codes ==> IsCode(c))
            && Zip(codes, Bodies(frame)) == frame
  {
    CodeIs(frame, 0);
    TilesFrom(frame, Next(frame, 0).value);
  }

  // ---------------------------------------------------------------------------------------
  // Processing a processed frame
  // ---------------------------------------------------------------------------------------

  /** The units visited behind the one at `start`. */
  function BodiesAfter(s: seq<byte>, start: nat): seq<seq<byte>>
    requires BehindCode(s, start)
  {
    match Next(s, start)
    case None => []
    case Some(n) => NextFromNalu(s, start); BodiesFrom(s, n.start)
  }

  /** An H.264 slice in which no plaintext header is found, because the walk over its codes fails, has none
      in the emitted frame either.  The walk may run on into the units behind the slice, where the start
      codes have become longer.  Before an empty last unit it is enough that the header ends with the
      start code, which is then a part of the slice; and a last slice of one byte is not visited again. */
  predicate Steady(f: Format, s: seq<byte>, start: nat)
    requires BehindCode(s, start)
  {
    var (body, behind) := (s[start..End(s, start)], BodiesAfter(s, start));
    f == H264 && ClearHeader(f, s, start) == Some(1) && body != [] ==>
      if behind == [] && |body| == 1 then true
      else if behind == [[]] then Cover(body[1..] + LONG_START_CODE) <= |body| + 3
      else Cover(body[1..] + Render(behind)) == 0
  }

  predicate SteadyFrom(f: Format, s: seq<byte>, start: nat)
    requires BehindCode(s, start)
    decreases |s| - start
  {
    start >= |s| - 1 ||
    (Steady(f, s, start) &&
     match Next(s, start)
     case None => true
     case Some(n) => NextFromNalu(s, start); SteadyFrom(f, s, n.start))
  }

  predicate SteadyFrame(f: Format, s: seq<byte>) {
    match Next(s, 0)
    case None => true
    case Some(n) => NextFromNalu(s, 0); SteadyFrom(f, s, n.start)
  }

  /** A unit's plaintext header fits in the emitted frame exactly when the unit is steady: a header
      that ends inside the unit is found in both frames or in neither. */
  lemma HeaderAgain(f: Format, s: seq<byte>, start: nat, t: seq<byte>, at: nat)
    requires BehindCode(s, start) && BehindCode(t, at) && HeaderFits(f, s, start)
    requires s[start..End(s, start)] == t[at..End(t, at)] && s[start] == t[at]
    requires start < End(s, start) ==>
               t[at + 1..] == s[start..End(s, start)][1..] + Render(BodiesAfter(s, start))
    requires BodiesAfter(s, start) != [[]] && (BodiesAfter(s, start) == [] ==> End(s, start) - start != 1)
    ensures HeaderFits(f, t, at) <==> Steady(f, s, start)
  {
    hide Render, FirstStart, BodiesAfter;
    var body := s[start..End(s, start)];
    if f == H264 && ClearHeader(f, s, start).Some? {
      var a, b, m := s[start + 1..], t[at + 1..], |body| - 1;
      assert a[..m] == body[1..] && b[..m] == body[1..];
      hide CoverFrom;
      if 0 < Cover(a) { CoverLocal(a, b, m, 0, 0, 0); }
      if 0 < Cover(b) <= m { CoverLocal(b, a, m, 0, 0, 0); }
    }
  }

  lemma FitsUnfolds(f: Format, s: seq<byte>, start: nat)
    requires BehindCode(s, start) && start < |s| - 1
    ensures Next(s, start).Some? ==> BehindCode(s, Next(s, start).value.start)
    ensures HeadersFitFrom(f, s, start)
            <==> HeaderFits(f, s, start) &&
                 (Next(s, start).Some? ==> HeadersFitFrom(f, s, Next(s, start).value.start))
  {
    hide HeaderFits, FirstStart;
    NextFromNalu(s, start);
  }

  lemma SteadyUnfolds(f: Format, s: seq<byte>, start: nat)
    requires BehindCode(s, start) && start < |s| - 1
    ensures BodiesFrom(s, start) == [s[start..End(s, start)]] + BodiesAfter(s, start)
    ensures Next(s, start).None? ==> BodiesAfter(s, start) == []
    ensures Next(s, start).Some? ==>
              var m := Next(s, start).value.start;
              && start < m && BehindCode(s, m) && BodiesAfter(s, start) == BodiesFrom(s, m)
              && (BodiesFrom(s, m) == [] <==> m >= |s| - 1)
    ensures SteadyFrom(f, s, start)
            <==> Steady(f, s, start) && (Next(s, start).Some? ==> SteadyFrom(f, s, Next(s, start).value.start))
    ensures Next(s, start).Some? && BodiesAfter(s, start) == [] ==> SteadyFrom(f, s, Next(s, start).value.start)
  {
    hide Steady, FirstStart;
    NextFromNalu(s, start);
  }

  /** The same before an empty last unit, whose start code becomes a part of this one. */
  lemma HeaderBeforeEmpty(f: Format, s: seq<byte>, start: nat, t: seq<byte>, at: nat)
    requires BehindCode(s, start) && BehindCode(t, at) && HeaderFits(f, s, start) && BodiesAfter(s, start) == [[]]
    requires Next(t, at).None? && t[at..] == s[start..End(s, start)] + LONG_START_CODE
    requires start == End(s, start) ==> s[start] == 0
    ensures HeaderFits(f, t, at) <==> Steady(f, s, start)
  {
    hide FirstStart, BodiesAfter;
    var body := s[start..End(s, start)];
    assert t[at] == t[at..][0] == s[start];
    if f == H264 && ClearHeader(f, s, start).Some? {
      var a, b, m := s[start + 1..], t[at + 1..], |body| - 1;
      assert t[at..][1..] == b && b == body[1..] + LONG_START_CODE;
      assert a[..m] == body[1..] && b[..m] == body[1..];
      hide CoverFrom;
      if 0 < Cover(a) { CoverLocal(a, b, m, 0, 0, 0); }
    }
  }

  lemma {:induction false} FitsAgainFrom(f: Format, s: seq<byte>, start: nat, pre: seq<byte>)
    requires BehindCode(s, start) && start < |s| - 1 && HeadersFitFrom(f, s, start)
    requires BodiesFrom(s, start) != [[]]
    ensures var out := pre + Render(BodiesFrom(s, start));
            BehindCode(out, |pre| + 4) && (HeadersFitFrom(f, out, |pre| + 4) <==> SteadyFrom(f, s, start))
    decreases |s| - start
  {
    hide Render, FirstStart, HeadersFitFrom, SteadyFrom, HeaderFits, Steady, BodiesFrom, BodiesAfter, Clean, Next, End,
         BehindCode;
    var bodies := BodiesFrom(s, start);
    FitsUnfolds(f, s, start);
    SteadyUnfolds(f, s, start);
    BodiesFromClean(s, start);
    UnitFront(s, start);
    if bodies[1..] == [[]] {
      FitsBeforeEmpty(f, s, start, pre);
    } else if |bodies| == 1 && |bodies[0]| == 1 {
      FitsShortLast(f, s, start, pre);
    } else {
      var out, at := pre + Render(bodies), |pre| + 4;
      FirstUnit(pre, bodies);
      RenderCons(pre, bodies);
      BehindFirst(pre + LONG_START_CODE, bodies[0], Render(bodies[1..]));
      HeaderAgain(f, s, start, out, at);
      FitsUnfolds(f, out, at);
      if |bodies| > 1 {
        FitsAgainFrom(f, s, Next(s, start).value.start, pre + LONG_START_CODE + bodies[0]);
      }
    }
  }

  lemma FitsBeforeEmpty(f: Format, s: seq<byte>, start: nat, pre: seq<byte>)
    requires BehindCode(s, start) && start < |s| - 1 && HeaderFits(f, s, start)
    requires Clean(BodiesFrom(s, start)) && BodiesFrom(s, start)[1..] == [[]]
    ensures var out := pre + Render(BodiesFrom(s, start));
            BehindCode(out, |pre| + 4) && (HeadersFitFrom(f, out, |pre| + 4) <==> SteadyFrom(f, s, start))
  {
    var bodies := BodiesFrom(s, start);
    NoCodeThenCode(bodies[0]);
    hide Render, FirstStart, HeadersFitFrom, SteadyFrom, HeaderFits, Steady, BodiesFrom, BodiesAfter, Clean,
         NoCode, Next,
         End, BehindCode;
    var (head, tail) := (pre + LONG_START_CODE, bodies[0] + LONG_START_CODE);
    SteadyUnfolds(f, s, start);
    UnitFront(s, start);
    RenderEmptyLast(pre, bodies);
    NextAtEnd(head, tail);
    var out := head + tail;
    assert out[|head|..] == tail && bodies == [bodies[0]] + bodies[1..];
    HeaderBeforeEmpty(f, s, start, out, |head|);
    FitsUnfolds(f, out, |head|);
    EmptyIsSteady(f, s, Next(s, start).value.start);
  }

  /** A last unit that is empty is steady, and so is nothing behind it. */
  lemma EmptyIsSteady(f: Format, s: seq<byte>, start: nat)
    requires BehindCode(s, start) && BodiesFrom(s, start) == [[]]
    ensures SteadyFrom(f, s, start)
  {
    hide Steady, FirstStart, BodiesFrom;
    BodiesUnfolds(s, start);
    if start < |s| - 1 {
      SteadyUnfolds(f, s, start);
      assert BodiesFrom(s, start)[0] == s[start..End(s, start)];
      EmptySteady(f, s, start);
    }
  }

  lemma EmptySteady(f: Format, s: seq<byte>, start: nat)
    requires BehindCode(s, start) && s[start..End(s, start)] == []
    ensures Steady(f, s, start)
  {
    hide Render, Cover, BodiesAfter;
  }

  /** A last unit of one byte is not visited again. */
  lemma FitsShortLast(f: Format, s: seq<byte>, start: nat, pre: seq<byte>)
    requires BehindCode(s, start) && start < |s| - 1
    requires var bodies := BodiesFrom(s, start); |bodies| == 1 && |bodies[0]| == 1
    ensures var out := pre + Render(BodiesFrom(s, start));
            BehindCode(out, |pre| + 4) && HeadersFitFrom(f, out, |pre| + 4) && SteadyFrom(f, s, start)
  {
    var bodies := BodiesFrom(s, start);
    hide Render, FirstStart, SteadyFrom, HeaderFits, Steady, BodiesFrom, BodiesAfter;
    SteadyUnfolds(f, s, start);
    ShortLastSteady(f, s, start);
    RenderCons(pre, bodies);
    var out := pre + LONG_START_CODE + bodies[0];
    assert |out| == |pre| + 5 && out[|pre| + 3] == 1;
  }

  lemma ShortLastSteady(f: Format, s: seq<byte>, start: nat)
    requires BehindCode(s, start) && BodiesAfter(s, start) == [] && |s[start..End(s, start)]| == 1
    ensures Steady(f, s, start)
  {
    hide Render, Cover, BodiesAfter;
  }

  lemma BehindFirst(before: seq<byte>, body: seq<byte>, rest: seq<byte>)
    ensures body != [] ==> (before + body + rest)[|before| + 1..] == body[1..] + rest
  {
  }

  /** An empty unit is followed by the zeros of the next start code. */
  lemma UnitFront(s: seq<byte>, start: nat)
    requires BehindCode(s, start)
    ensures if End(s, start) == start then s[start] == 0 else s[start] == s[start..End(s, start)][0]
  {
    if Next(s, start).Some? { NextCodeSize(s, start); }
  }

  /** The headers of the emitted frame fit exactly when every unit of the frame is steady. */
  lemma FitsAgain(f: Format, frame: seq<byte>)
    requires HeadersFit(f, frame)
    ensures HeadersFit(f, Render(Bodies(frame))) <==> SteadyFrame(f, frame)
  {
    hide Render, HeadersFit, HeadersFitFrom, SteadyFrame, SteadyFrom, FirstStart, End, Bodies, BodiesFrom,
         Next, BehindCode;
    var bodies := Bodies(frame);
    var out := Render(bodies);
    FrameUnfolds(f, frame);
    FrameUnfolds(f, out);
    RenderUnfolds(bodies);
    NothingIn(out);
    if bodies == [] {
      NoneIsSteady(f, frame);
    } else if bodies == [[]] {
      RenderUnfolds(bodies[1..]);
      EmptyIsSteady(f, frame, Next(frame, 0).value.start);
    } else {
      var start := Next(frame, 0).value.start;
      BodiesUnfolds(frame, start);
      FitsAgainFrom(f, frame, start, []);
      assert [] + out == out;
      FirstOfRendered(bodies);
    }
  }

  lemma FrameUnfolds(f: Format, frame: seq<byte>)
    ensures Next(frame, 0).None? ==> HeadersFit(f, frame) && SteadyFrame(f, frame) && Bodies(frame) == []
    ensures Next(frame, 0).Some? ==>
              var start := Next(frame, 0).value.start;
              && BehindCode(frame, start) && Bodies(frame) == BodiesFrom(frame, start)
              && (HeadersFit(f, frame) <==> HeadersFitFrom(f, frame, start))
              && (SteadyFrame(f, frame) <==> SteadyFrom(f, frame, start))
  {
    hide HeadersFitFrom, SteadyFrom, FirstStart, BodiesFrom;
    NextFromNalu(frame, 0);
  }

  lemma NoneIsSteady(f: Format, frame: seq<byte>)
    requires Bodies(frame) == []
    ensures SteadyFrame(f, frame)
  {
    hide FirstStart, BodiesFrom;
    NextFromNalu(frame, 0);
    if Next(frame, 0).Some? { BodiesUnfolds(frame, Next(frame, 0).value.start); }
  }

  /** An empty H.265 unit has no room for its header. */
  lemma H265HasNoEmptyUnit(frame: seq<byte>)
    requires HeadersFit(H265, frame)
    ensures Bodies(frame) != [[]]
  {
    hide FirstStart, HeadersFit, HeadersFitFrom, BodiesFrom, Bodies, End, Next, HeaderFits;
    FrameUnfolds(H265, frame);
    if Next(frame, 0).Some? {
      var start := Next(frame, 0).value.start;
      BodiesUnfolds(frame, start);
      if start < |frame| - 1 {
        FitsUnfolds(H265, frame, start);
        HeaderNeedsRoom(frame, start);
        assert BodiesFrom(frame, start)[0] == frame[start..End(frame, start)];
      }
    }
  }

  lemma HeaderNeedsRoom(s: seq<byte>, start: nat)
    requires BehindCode(s, start) && HeaderFits(H265, s, start)
    ensures s[start..End(s, start)] != []
  {
    hide FirstStart, Next;
    UnitFront(s, start);
  }

  lemma RenderedSize(f: Format, bodies: seq<seq<byte>>)
    requires f == H265 ==> bodies != [[]]
    ensures |Render(bodies)| >= 3 + (if f == H264 then 1 else 2) <==> bodies != []
  {
    hide Render;
    RenderUnfolds(bodies);
    if |bodies| > 1 {
      RenderUnfolds(bodies[1..]);
    }
  }

  /** The emitted frame can be processed again exactly when every unit of the frame is steady and there is
      one; and then processing it again changes nothing exactly when the last unit has two bytes at
      least, or is empty behind others. */
  lemma ProcessingTwice(f: Format, frame: seq<byte>)
    requires HeadersFit(f, frame) && Pieces(f, frame).Some?
    ensures var (out, bodies) := (Flatten(Pieces(f, frame).value), Bodies(frame));
            && (HeadersFit(f, out) <==> SteadyFrame(f, frame))
            && (HeadersFit(f, out) ==> (Pieces(f, out).Some? <==> bodies != []))
            && (HeadersFit(f, out) && Pieces(f, out).Some? ==>
                  (Flatten(Pieces(f, out).value) == out <==> RendersAgain(bodies)))
  {
    hide Render, HeadersFit, PiecesAt, SteadyFrame, Bodies, Next, RendersAgain, FoundUnits;
    EmittedIsRendered(f, frame);
    var (out, bodies) := (Render(Bodies(frame)), Bodies(frame));
    FitsAgain(f, frame);
    if f == H265 { H265HasNoEmptyUnit(frame); }
    RenderedSize(f, bodies);
    if HeadersFit(f, out) && Pieces(f, out).Some? { EmittedIsRendered(f, out); }
    RescanFinds(frame);
    FoundSame(bodies);
  }

  lemma {:induction false} H265SteadyFrom(s: seq<byte>, start: nat)
    requires BehindCode(s, start)
    ensures SteadyFrom(H265, s, start)
    decreases |s| - start
  {
    hide Render, FirstStart, BodiesAfter;
    NextFromNalu(s, start);
    if Next(s, start).Some? { H265SteadyFrom(s, Next(s, start).value.start); }
  }

  /** For H.265 there is no such condition. */
  lemma H265ProcessingTwice(frame: seq<byte>)
    requires HeadersFit(H265, frame) && Pieces(H265, frame).Some? && Bodies(frame) != []
    ensures var out := Flatten(Pieces(H265, frame).value);
            && HeadersFit(H265, out) && Pieces(H265, out).Some?
            && (Flatten(Pieces(H265, out).value) == out <==> RendersAgain(Bodies(frame)))
  {
    hide Render, HeadersFit, PiecesAt, SteadyFrom, Bodies, FirstStart, RendersAgain;
    ProcessingTwice(H265, frame);
    NextFromNalu(frame, 0);
    if Next(frame, 0).Some? { H265SteadyFrom(frame, Next(frame, 0).value.start); }
  }
}
