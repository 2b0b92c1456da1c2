/** Finding NAL units behind Annex B start codes (ITU-T H.264 and H.265), as
    `next_h26x_nalu_index` in `src/dave/codec_utils.cpp` does. */
module NalScanner {
  import opened Bytes

  /** Bytes 0, 0, 1 at `i`, with at least one byte behind them. */
  predicate StartsAt(s: seq<byte>, i: nat) {
    i + 3 < |s| && s[i] == 0 && s[i + 1] == 0 && s[i + 2] == 1
  }

  /** The naive search: the first such place from `i` on. */
  function FirstStart(s: seq<byte>, i: nat): (r: Option<nat>)
    ensures r.Some? ==> i <= r.value && StartsAt(s, r.value)
    ensures r.Some? ==> forall j :: i <= j < r.value ==> !StartsAt(s, j)
    ensures r.None? ==> forall j :: i <= j ==> !StartsAt(s, j)
    decreases |s| - i
  {
    if i + 3 >= |s| then None
    else if StartsAt(s, i) then Some(i)
    else FirstStart(s, i + 1)
  }

  /** The first byte of a NAL unit and the length of the start code before it. */
  datatype Nalu = Nalu(start: nat, codeSize: nat) {
    /** Where the start code begins: the boundary of the unit before it. */
    function CodeStart(): int { start - codeSize }
  }

  /** The naive search with what it reports. */
  function Next(s: seq<byte>, from: nat): (r: Option<Nalu>)
    ensures r.Some? ==> from + 3 <= r.value.start < |s|
  {
    match FirstStart(s, from)
    case None => None
    case Some(i) => Some(Nalu(i + 3, if i >= 1 && s[i - 1] == 0 then 4 else 3))
  }

  lemma FirstStartIs(s: seq<byte>, from: nat, i: nat)
    requires from <= i && StartsAt(s, i) && forall j :: from <= j < i ==> !StartsAt(s, j)
    ensures FirstStart(s, from) == Some(i)
  {
    var r := FirstStart(s, from);
    assert r.Some?;
    assert r.value <= i;
  }

  /** Three places at a time, the scan gives what the naive search gives. */
  method NextNaluIndex(buffer: seq<byte>, searchStart: nat) returns (r: Option<Nalu>)
    ensures r == Next(buffer, searchStart)
  {
    if |buffer| < 3 { return None; }
    var i := searchStart;
    while i < |buffer| - 3
      invariant searchStart <= i
      invariant forall j :: searchStart <= j < i ==> !StartsAt(buffer, j)
    {
      if buffer[i + 2] > 1 {
        i := i + 3;
      } else if buffer[i + 2] == 1 {
        if buffer[i + 1] == 0 && buffer[i] == 0 {
          FirstStartIs(buffer, searchStart, i);
          if i >= 1 && buffer[i - 1] == 0 { return Some(Nalu(i + 3, 4)); }
          return Some(Nalu(i + 3, 3));
        }
        i := i + 3;
      } else {
        i := i + 1;
      }
    }
    assert FirstStart(buffer, searchStart).None?;
    return None;
  }

  /** `start` is where a unit can begin: right behind the 1 of a start code. */
  predicate BehindCode(s: seq<byte>, start: nat) {
    1 <= start < |s| && s[start - 1] == 1
  }

  /** A unit's first byte follows the 1 of its start code, so the boundary found when the scan
      restarts there never lies before it. */
  lemma NextFromNalu(s: seq<byte>, from: nat)
    ensures Next(s, from).Some? ==> BehindCode(s, Next(s, from).value.start)
    ensures Next(s, from).Some? && BehindCode(s, from) ==> from <= Next(s, from).value.CodeStart()
  {
  }

  /** Four bytes are reported exactly when the byte before the three is 0. */
  lemma NextCodeSize(s: seq<byte>, from: nat)
    requires Next(s, from).Some?
    ensures var n := Next(s, from).value;
            && StartsAt(s, n.start - 3)
            && (n.codeSize == 4 <==> n.start >= 4 && s[n.start - 4] == 0)
            && (n.codeSize != 4 ==> n.codeSize == 3)
  {
  }

  // ---------------------------------------------------------------------------------------
  // All units of a frame
  // ---------------------------------------------------------------------------------------

  /** What the codec loops make of the unit starting at `start`: where it ends, and the unit
      after it. */
  function End(s: seq<byte>, start: nat): (end: nat)
    requires BehindCode(s, start)
    ensures start <= end <= |s|
  {
    match Next(s, start)
    case None => |s|
    case Some(n) => NextFromNalu(s, start); n.CodeStart()
  }

  /** The units the codec loops visit, from the one that starts at `start` on.  A unit of a single
      byte at the very end of the frame is not visited. */
  function BodiesFrom(s: seq<byte>, start: nat): seq<seq<byte>>
    requires BehindCode(s, start)
    decreases |s| - start
  {
    if start >= |s| - 1 then []
    else
      [s[start..End(s, start)]] +
      match Next(s, start)
      case None => []
      case Some(n) => NextFromNalu(s, start); BodiesFrom(s, n.start)
  }

  /** The byte strings of all visited units, in order. */
  function Bodies(s: seq<byte>): seq<seq<byte>> {
    match Next(s, 0)
    case None => []
    case Some(n) => NextFromNalu(s, 0); BodiesFrom(s, n.start)
  }
}
