/** Unsigned LEB128 as `src/dave/leb128.cpp` reads and writes it: seven payload bits per byte,
    least significant group first, at most ten bytes for a 64-bit value.

    Shifts and masks appear as division, remainder and addition.  `value |= x << fill_bits` is
    written as an addition; `Read` keeps `value < 2^fill_bits`, so the two agree. */
module Leb128 {
  import opened Bytes

  /** What is left of 64 bits after `n` seven-bit groups have been read. */
  function Room(n: nat): (r: nat)
    requires n <= 9
    decreases 9 - n
  {
    if n == 9 then 2 else 128 * Room(n + 1)
  }

  lemma RoomIs64Bits()
    ensures Room(0) == TWO_64
  {
    assert Room(9) == 2;
    assert Room(8) == 0x100;
    assert Room(7) == 0x8000;
    assert Room(6) == 0x40_0000;
    assert Room(5) == 0x2000_0000;
    assert Room(4) == 0x10_0000_0000;
    assert Room(3) == 0x800_0000_0000;
    assert Room(2) == 0x4_0000_0000_0000;
    assert Room(1) == 0x200_0000_0000_0000;
  }

  /** The bytes `write_leb128` produces. */
  function Encode(v: nat): (s: seq<byte>)
    ensures |s| >= 1
  {
    if v < 128 then [v] else [128 + v % 128] + Encode(v / 128)
  }

  function SevenBitGroups(s: seq<byte>): nat {
    if s == [] then 0 else s[0] % 128 + 128 * SevenBitGroups(s[1..])
  }

  /** The encoding: seven bits of the value in each byte, the least significant first, with the eighth bit
      set in all bytes but the last; and no zero group at the end. */
  lemma {:induction false} EncodeIs(v: nat)
    ensures var s := Encode(v);
            && SevenBitGroups(s) == v
            && (forall i :: 0 <= i < |s| ==> (s[i] >= 128 <==> i < |s| - 1))
            && (|s| > 1 ==> s[|s| - 1] != 0)
  {
    var s := Encode(v);
    if v >= 128 {
      EncodeIs(v / 128);
      assert s[1..] == Encode(v / 128);
      assert Encode(v / 128)[|s| - 2] == s[|s| - 1];
    }
  }

  datatype Decoded = Malformed | Value(value: nat, used: nat)

  /** The value at the front of `s`, when `n` bytes of it have been consumed already.
      The tenth byte may only carry the single bit that still fits in 64. */
  function Decode(s: seq<byte>, n: nat): (d: Decoded)
    requires n <= 9
    ensures d.Value? ==> 1 <= d.used <= 10 - n && d.used <= |s|
    decreases |s|
  {
    if s == [] then Malformed
    else if n == 9 then
      if s[0] <= 1 then Value(s[0], 1) else Malformed
    else if s[0] < 128 then Value(s[0], 1)
    else
      Prepend(s[0] - 128, Decode(s[1..], n + 1))
  }

  function Prepend(low: nat, d: Decoded): Decoded {
    match d
    case Malformed => Malformed
    case Value(v, used) => Value(low + 128 * v, used + 1)
  }

  lemma {:induction false} DecodeInRoom(s: seq<byte>, n: nat)
    requires n <= 9
    ensures Room(n) >= 2
    ensures Decode(s, n).Value? ==> Decode(s, n).value < Room(n)
    decreases 9 - n
  {
    if n < 9 { DecodeInRoom(if s == [] then s else s[1..], n + 1); }
  }

  /** Reading back what was written gives the value and consumes exactly what was written,
      whatever follows. */
  lemma {:induction false} DecodeEncode(v: nat, n: nat, rest: seq<byte>)
    requires n <= 9 && v < Room(n)
    ensures Decode(Encode(v) + rest, n) == Value(v, |Encode(v)|)
    decreases v
  {
    if v >= 128 {
      assert n < 9;
      DecodeEncode(v / 128, n + 1, rest);
      assert (Encode(v) + rest)[1..] == Encode(v / 128) + rest;
    }
  }

  /** The same for a whole 64-bit value, which takes at most ten bytes. */
  lemma DecodeEncode64(v: nat, rest: seq<byte>)
    requires v < TWO_64
    ensures Decode(Encode(v) + rest, 0) == Value(v, |Encode(v)|)
    ensures |Encode(v)| <= 10
  {
    RoomIs64Bits();
    DecodeEncode(v, 0, rest);
  }

  /** No accepted encoding is shorter than the written one. */
  lemma {:induction false} DecodeNotShorter(s: seq<byte>, n: nat)
    requires n <= 9 && Decode(s, n).Value?
    ensures |Encode(Decode(s, n).value)| <= Decode(s, n).used
    decreases 9 - n
  {
    if n < 9 && s[0] >= 128 {
      DecodeNotShorter(s[1..], n + 1);
      var v := Decode(s[1..], n + 1).value;
      assert (s[0] - 128 + 128 * v) / 128 == v;
    }
  }

  /** A reader never looks past the bytes it consumes. */
  lemma {:induction false} DecodeLocal(s: seq<byte>, n: nat, rest: seq<byte>)
    requires n <= 9 && Decode(s, n).Value?
    ensures Decode(s[..Decode(s, n).used] + rest, n) == Decode(s, n)
    decreases 9 - n
  {
    if n < 9 && s[0] >= 128 {
      DecodeLocal(s[1..], n + 1, rest);
      var used := Decode(s, n).used;
      assert (s[..used] + rest)[1..] == s[1..][..used - 1] + rest;
    }
  }

  lemma {:induction false} EncodeMonotonic(v: nat, w: nat)
    requires v <= w
    ensures |Encode(v)| <= |Encode(w)|
  {
    if v >= 128 { EncodeMonotonic(v / 128, w / 128); }
  }

  /** `leb128_size` counts the bytes that `Write` will produce, at most ten for 64 bits. */
  method Size(v: nat) returns (size: nat)
    requires v < TWO_64
    ensures size == |Encode(v)| && size <= 10
  {
    var value := v;
    size := 0;
    while value >= 0x80
      invariant |Encode(v)| == size + |Encode(value)|
    {
      size := size + 1;
      value := value / 128;
    }
    size := size + 1;
    DecodeEncode64(v, []);
  }

  /** `x << bits` without loss. */
  function ShiftLeft(x: nat, bits: nat): nat {
    if bits == 0 then x else 2 * ShiftLeft(x, bits - 1)
  }

  lemma {:induction false} ShiftLeftAdds(x: nat, y: nat, bits: nat)
    ensures ShiftLeft(x + y, bits) == ShiftLeft(x, bits) + ShiftLeft(y, bits)
  {
    if bits > 0 { ShiftLeftAdds(x, y, bits - 1); }
  }

  lemma {:induction false} ShiftLeftTwice(x: nat, inner: nat, bits: nat)
    ensures ShiftLeft(ShiftLeft(x, inner), bits) == ShiftLeft(x, inner + bits)
  {
    if bits > 0 { ShiftLeftTwice(x, inner, bits - 1); }
  }

  lemma {:induction false} ShiftLeftGroup(x: nat)
    ensures ShiftLeft(x, 7) == 128 * x
  {
    assert ShiftLeft(x, 1) == 2 * x;
    assert ShiftLeft(x, 2) == 4 * x;
    assert ShiftLeft(x, 3) == 8 * x;
    assert ShiftLeft(x, 4) == 16 * x;
    assert ShiftLeft(x, 5) == 32 * x;
    assert ShiftLeft(x, 6) == 64 * x;
  }

  lemma {:induction false} ShiftLeftBelow(x: nat, y: nat, bits: nat)
    requires x < y
    ensures ShiftLeft(x, bits) + ShiftLeft(1, bits) <= ShiftLeft(y, bits)
  {
    if bits > 0 { ShiftLeftBelow(x, y, bits - 1); }
  }

  /** `d` moved up by `k` groups with `value` put below it. */
  ghost function Above(value: nat, k: nat, d: Decoded): Decoded {
    match d
    case Malformed => Malformed
    case Value(v, used) => Value(value + ShiftLeft(v, 7 * k), used + k)
  }

  /** One turn of the reading loop; the first clause says that `|` and `+` agree. */
  lemma {:induction false} ReadStep(s: seq<byte>, value: nat, k: nat)
    requires s != [] && k < 9 && value < ShiftLeft(1, 7 * k)
    ensures var next := value + ShiftLeft(s[0] % 128, 7 * k);
            && next < ShiftLeft(1, 7 * (k + 1))
            && Above(value, k, Decode(s, k))
               == if s[0] < 128 then Value(next, k + 1) else Above(next, k + 1, Decode(s[1..], k + 1))
  {
    hide ShiftLeft;
    var low := s[0] % 128;
    ShiftLeftBelow(low, 128, 7 * k);
    ShiftLeftGroup(1);
    ShiftLeftTwice(1, 7, 7 * k);
    var rest := Decode(s[1..], k + 1);
    if s[0] >= 128 && rest.Value? {
      ShiftLeftAdds(low, 128 * rest.value, 7 * k);
      ShiftLeftGroup(rest.value);
      ShiftLeftTwice(rest.value, 7, 7 * k);
    }
  }

  lemma AboveNothing(d: Decoded)
    ensures Above(0, 0, d) == d && ShiftLeft(1, 0) == 1
  {
  }

  /** Where the reading loop stops without a terminator: out of bytes, or at the tenth byte. */
  lemma {:induction false} ReadTail(s: seq<byte>, value: nat, k: nat)
    requires k <= 9 && (s == [] || k == 9)
    ensures Above(value, k, Decode(s, k))
            == if s != [] && s[0] <= 1 then Value(value + ShiftLeft(s[0], 7 * k), k + 1) else Malformed
  {
  }

  lemma DecodeBelow64Bits(s: seq<byte>)
    ensures Decode(s, 0).Value? ==> Decode(s, 0).value < TWO_64
  {
    RoomIs64Bits();
    DecodeInRoom(s, 0);
  }

  /** `read_leb128` on the bytes between its read pointer and its end pointer.  `used` is how far
      the read pointer advances; `None` is the null pointer. */
  method Read(s: seq<byte>) returns (value: nat, used: Option<nat>)
    ensures used.None? ==> value == 0 && Decode(s, 0) == Malformed
    ensures used.Some? ==> Decode(s, 0) == Value(value, used.value)
  {
    hide Decode, ShiftLeft, Above;
    value := 0;
    var i, fillBits := 0, 0;
    AboveNothing(Decode(s, 0));
    assert s[0..] == s;
    while i != |s| && fillBits < 64 - 7
      invariant i <= |s| && i <= 9 && fillBits == 7 * i
      invariant value < ShiftLeft(1, fillBits)
      invariant Decode(s, 0) == Above(value, i, Decode(s[i..], i))
    {
      var b := s[i];
      ReadStep(s[i..], value, i);
      assert s[i..][1..] == s[i + 1..];
      value := value + ShiftLeft(b % 128, fillBits);
      i, fillBits := i + 1, fillBits + 7;
      if b < 128 { return value, Some(i); }
    }
    ReadTail(s[i..], value, i);
    if i != |s| && s[i] <= 1 {
      value := value + ShiftLeft(s[i], fillBits);
      return value, Some(i + 1);
    }
    return 0, None;
  }

  lemma EncodeUnfolds(v: nat)
    ensures Encode(v) == if v < 128 then [v] else [128 + v % 128] + Encode(v / 128)
  {
  }

  /** `write_leb128` into `buffer` from index `at`. */
  method Write(v: nat, buffer: array<byte>, at: nat) returns (size: nat)
    requires v < TWO_64 && at + |Encode(v)| <= buffer.Length
    modifies buffer
    ensures size == |Encode(v)|
    ensures buffer[..] == Overwrite(old(buffer[..]), at, Encode(v))
  {
    hide Encode, Overwrite;
    ghost var was := buffer[..];
    ghost var done: seq<byte> := [];
    var value := v;
    size := 0;
    OverwriteNothing(was, at);
    while value >= 0x80
      invariant size == |done| && Encode(v) == done + Encode(value)
      invariant at + |done| + |Encode(value)| <= |was| == buffer.Length
      invariant buffer[..] == Overwrite(was, at, done)
    {
      var b := 128 + value % 128;
      EncodeUnfolds(value);
      OverwriteByte(was, at, done, b);
      ghost var before := buffer[..];
      buffer[at + size] := b;
      assert buffer[..] == before[at + size := b];
      assert done + ([b] + Encode(value / 128)) == (done + [b]) + Encode(value / 128);
      done := done + [b];
      size := size + 1;
      value := value / 128;
    }
    EncodeUnfolds(value);
    OverwriteByte(was, at, done, value);
    ghost var before := buffer[..];
    buffer[at + size] := value;
    assert buffer[..] == before[at + size := value];
    size := size + 1;
  }
}
