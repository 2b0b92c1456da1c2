/** The cryptographic parts the frame pipeline is built on.  The AEAD and the key ratchet are values
    of function type; what is assumed of the AEAD is `Aead.Correct`. */
module Crypto {
  import opened Bytes

  const TAG_BYTES := 8

  /** AES-128-GCM with a tag of eight bytes: key, nonce, additional data, then the plaintext or the
      ciphertext with its tag. */
  datatype Aead = Aead(
    seal: (seq<byte>, seq<byte>, seq<byte>, seq<byte>) -> Option<seq<byte>>,
    open: (seq<byte>, seq<byte>, seq<byte>, seq<byte>) -> Option<seq<byte>>)
  {
    ghost predicate Correct() {
      && (forall k, n, ad, p {:trigger seal(k, n, ad, p)} :: seal(k, n, ad, p).Some? ==>
            && |seal(k, n, ad, p).value| == |p| + TAG_BYTES
            && open(k, n, ad, seal(k, n, ad, p).value) == Some(p))
      && (forall k, n, ad, c {:trigger open(k, n, ad, c)} :: open(k, n, ad, c).Some? ==>
            |c| >= TAG_BYTES && |open(k, n, ad, c).value| == |c| - TAG_BYTES)
    }
  }

  /** `get_key` on an 8-bit generation; an empty key is a refusal. */
  type Ratchet = byte -> seq<byte>

  const GENERATION_UNIT: nat := 0x100_0000

  /** The 12 nonce bytes: eight zeros and the truncated nonce, least significant byte first. */
  function NonceBytes(nonce: nat): (s: seq<byte>)
    requires nonce < TWO_32
    ensures |s| == 12
  {
    [0, 0, 0, 0, 0, 0, 0, 0, nonce % 256, nonce / 256 % 256, nonce / 256 / 256 % 256, nonce / 256 / 256 / 256]
  }

  /** Eight zeros, then the truncated nonce, whose last byte here is the key generation. */
  lemma NonceBytesAre(nonce: nat)
    requires nonce < TWO_32
    ensures var s := NonceBytes(nonce);
            && s[..8] == [0, 0, 0, 0, 0, 0, 0, 0]
            && (s[8] as int) + 0x100 * (s[9] as int) + 0x1_0000 * (s[10] as int) + 0x100_0000 * (s[11] as int) == nonce
            && s[11] == nonce / 0x100_0000 == nonce / GENERATION_UNIT
  {
    assert nonce == 0x100 * (nonce / 256) + nonce % 256;
    assert nonce / 256 == 0x100 * (nonce / 256 / 256) + nonce / 256 % 256;
    assert nonce / 256 / 256 == 0x100 * (nonce / 256 / 256 / 256) + nonce / 256 / 256 % 256;
  }

  /** No two truncated nonces share an AEAD nonce. */
  lemma NonceBytesInjective(a: nat, b: nat)
    requires a < TWO_32 && b < TWO_32 && NonceBytes(a) == NonceBytes(b)
    ensures a == b
  {
    var s, t := NonceBytes(a), NonceBytes(b);
    assert s[11] == t[11];
    assert s[10] == t[10];
    assert a / 256 / 256 == b / 256 / 256;
    assert s[9] == t[9];
    assert a / 256 == b / 256;
    assert s[8] == t[8];
  }
}
