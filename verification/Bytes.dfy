/** Vocabulary shared by the modules: bytes, optional values, machine-word limits and
    writes into the middle of a buffer. */
module Bytes {

  type byte = b: int | 0 <= b < 256

  datatype Option<+T> = None | Some(value: T)

  /** One past the largest `uint32_t`. */
  const TWO_32: nat := 0x1_0000_0000

  /** One past the largest `uint64_t` and `size_t`. */
  const TWO_64: nat := 0x1_0000_0000_0000_0000

  function Max(a: int, b: int): int {
    if a >= b then a else b
  }

  function Min(a: int, b: int): int {
    if a <= b then a else b
  }

  /** `buffer` after writing `piece` into it, byte by byte, from index `at`. */
  function Overwrite(buffer: seq<byte>, at: nat, piece: seq<byte>): (r: seq<byte>)
    requires at + |piece| <= |buffer|
    ensures |r| == |buffer|
    decreases |piece|
  {
    if piece == [] then buffer else Overwrite(buffer[at := piece[0]], at + 1, piece[1..])
  }

  lemma OverwriteNothing(buffer: seq<byte>, at: nat)
    requires at <= |buffer|
    ensures Overwrite(buffer, at, []) == buffer
  {
  }

  lemma {:induction false} OverwriteIs(buffer: seq<byte>, at: nat, piece: seq<byte>)
    requires at + |piece| <= |buffer|
    ensures Overwrite(buffer, at, piece) == buffer[..at] + piece + buffer[at + |piece|..]
    decreases |piece|
  {
    if piece != [] {
      OverwriteIs(buffer[at := piece[0]], at + 1, piece[1..]);
    }
  }

  /** Two adjacent writes are one longer write. */
  lemma {:induction false} OverwriteTwice(buffer: seq<byte>, at: nat, p: seq<byte>, q: seq<byte>)
    requires at + |p| + |q| <= |buffer|
    ensures Overwrite(Overwrite(buffer, at, p), at + |p|, q) == Overwrite(buffer, at, p + q)
    decreases |p|
  {
    if p == [] {
      assert p + q == q;
    } else {
      OverwriteTwice(buffer[at := p[0]], at + 1, p[1..], q);
      assert (p + q)[1..] == p[1..] + q;
    }
  }

  /** Storing one more byte behind a write extends that write. */
  lemma OverwriteByte(buffer: seq<byte>, at: nat, p: seq<byte>, b: byte)
    requires at + |p| < |buffer|
    ensures Overwrite(buffer, at, p)[at + |p| := b] == Overwrite(buffer, at, p + [b])
  {
    OverwriteTwice(buffer, at, p, [b]);
    assert [b][1..] == [];
  }
}
