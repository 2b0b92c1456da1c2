/** `Encryptor` (`src/dave/encryptor.cpp`). */
module Encryptor {
  import opened Bytes
  import opened Crypto
  import opened Ranges
  import opened Interleaving
  import opened InboundFrame
  import opened OutboundFrame
  import opened Codecs
  import Leb128

  datatype EncryptError = RatchetNotReady | InvalidGeneration | EncryptionFailed
  datatype EncryptResult = Ok(size: nat) | Err(error: EncryptError)

  /** The bytes sent for a layout: the frame with the ciphertext in place, then the footer. */
  function Wire(l: Layout, nonce: nat, sealed: seq<byte>): seq<byte>
    requires CanWeave(l.ranges, |l.plain|, |l.secret|) && |sealed| == |l.secret| + TAG_BYTES
  {
    Woven(l.ranges, l.plain, sealed[..|l.secret|]) + Footer(sealed[|l.secret|..], nonce, l.ranges)
  }

  /** The bytes left for the ranges behind body, tag and nonce. */
  function RangeRoom(capacity: nat, at: nat, nonce: nat): int {
    capacity - at - TAG_BYTES - |Leb128.Encode(nonce)|
  }

  /** The bytes of the ranges that are written: a buffer that is too small drops the rest. */
  function RangeBytes(capacity: nat, at: nat, nonce: nat, ranges: seq<Range>): (s: seq<byte>)
    requires 0 <= RangeRoom(capacity, at, nonce)
    ensures |s| <= RangeRoom(capacity, at, nonce)
  {
    FittingIsAll(ranges, RangeRoom(capacity, at, nonce));
    EncodeRanges(Fitting(ranges, RangeRoom(capacity, at, nonce)))
  }

  /** What the unchecked writes demand: room for tag and nonce, and for size byte and marker behind
      the ranges, whose count of bytes is kept in 8 bits. */
  predicate FooterInBounds(capacity: nat, at: nat, nonce: nat, ranges: seq<Range>) {
    var room := RangeRoom(capacity, at, nonce);
    0 <= room && |RangeBytes(capacity, at, nonce, ranges)| % 256 + 3 <= room
  }

  /** The footer as its size byte counts it. */
  function FooterLength(capacity: nat, at: nat, nonce: nat, ranges: seq<Range>): nat
    requires 0 <= RangeRoom(capacity, at, nonce)
  {
    TAG_BYTES + |Leb128.Encode(nonce)| + |RangeBytes(capacity, at, nonce, ranges)| % 256 + 3
  }

  /** A buffer that holds the whole footer is large enough. */
  lemma FullFooterInBounds(capacity: nat, at: nat, nonce: nat, ranges: seq<Range>)
    requires at + FooterSize(nonce, ranges) <= capacity
    ensures FooterInBounds(capacity, at, nonce, ranges)
    ensures RangeBytes(capacity, at, nonce, ranges) == EncodeRanges(ranges)
  {
    hide EncodeRanges, Fitting, Leb128.Encode;
    FittingIsAll(ranges, RangeRoom(capacity, at, nonce));
  }

  /** What stands in the buffer after the footer has been written behind `at` bytes: a list of 256
      bytes or more is partly written over by size byte and marker. */
  function AfterFooter(buffer: seq<byte>, at: nat, tag: seq<byte>, nonce: nat, ranges: seq<Range>): (s: seq<byte>)
    requires |tag| == TAG_BYTES && FooterInBounds(|buffer|, at, nonce, ranges)
    ensures |s| == |buffer|
  {
    var front, list := tag + Leb128.Encode(nonce), RangeBytes(|buffer|, at, nonce, ranges);
    var behind := at + |front| + |list| % 256;
    var size := (behind - at + 3) % 256;
    Overwrite(Overwrite(Overwrite(buffer, at, front), at + |front|, list), behind, [size] + MARKER)
  }

  /** Where the size byte stands, and what it says. */
  lemma AfterFooterSizeByte(buffer: seq<byte>, at: nat, tag: seq<byte>, nonce: nat, ranges: seq<Range>)
    requires |tag| == TAG_BYTES && FooterInBounds(|buffer|, at, nonce, ranges)
    ensures var n := FooterLength(|buffer|, at, nonce, ranges);
            at + n <= |buffer| && AfterFooter(buffer, at, tag, nonce, ranges)[at + n - 3] == n % 256
  {
    hide Overwrite, Leb128.Encode, RangeBytes;
    var front, list := tag + Leb128.Encode(nonce), RangeBytes(|buffer|, at, nonce, ranges);
    var behind := at + |front| + |list| % 256;
    var size: byte := (behind - at + 3) % 256;
    var written := Overwrite(Overwrite(buffer, at, front), at + |front|, list);
    OverwriteIs(written, behind, [size] + MARKER);
  }

  lemma AfterShortFooter(buffer: seq<byte>, at: nat, tag: seq<byte>, nonce: nat, ranges: seq<Range>)
    requires |tag| == TAG_BYTES && at + FooterSize(nonce, ranges) <= |buffer| && |EncodeRanges(ranges)| < 256
    ensures FooterInBounds(|buffer|, at, nonce, ranges)
    ensures AfterFooter(buffer, at, tag, nonce, ranges) == Overwrite(buffer, at, Footer(tag, nonce, ranges))
  {
    hide Overwrite, Leb128.Encode, EncodeRanges, RangeBytes, Fitting;
    FullFooterInBounds(|buffer|, at, nonce, ranges);
    var a, b, c := Leb128.Encode(nonce), EncodeRanges(ranges), [FooterSize(nonce, ranges) % 256] + MARKER;
    OverwriteTwice(buffer, at, tag + a, b);
    OverwriteTwice(buffer, at, tag + a + b, c);
    assert tag + a + b + c == Footer(tag, nonce, ranges);
  }

  /** The result of `encrypt` and the buffer it leaves, once layout, nonce and key are settled; the key
      is empty when the ratchet refuses one. */
  function Outcome(aead: Aead, l: Layout, nonce: nat, key: seq<byte>, buffer: seq<byte>)
    : (EncryptResult, seq<byte>)
    requires nonce < TWO_32 && CanWeave(l.ranges, |l.plain|, |l.secret|) && l.index == Total(l.ranges, 0) + |l.secret|
    requires l.index <= |buffer| ==> FooterInBounds(|buffer|, l.index, nonce, l.ranges)
    requires var sealed := aead.seal(key, NonceBytes(nonce), l.plain, l.secret);
             sealed.Some? ==> |sealed.value| == |l.secret| + TAG_BYTES
  {
    var sealed := aead.seal(key, NonceBytes(nonce), l.plain, l.secret);
    if key == [] then (Err(InvalidGeneration), buffer)
    else if sealed.None? || l.index == 0 || l.index > |buffer| then (Err(EncryptionFailed), buffer)
    else
      var n := |l.secret|;
      var body := Woven(l.ranges, l.plain, sealed.value[..n]);
      (Ok(l.index + FooterLength(|buffer|, l.index, nonce, l.ranges)),
       AfterFooter(Overwrite(buffer, 0, body), l.index, sealed.value[n..], nonce, l.ranges))
  }

  /** Every failure leaves the buffer alone, and each has its cause: a refused key; a frame that is not
      sealed, is laid out as nothing, or does not fit without its footer. */
  lemma OutcomeFails(aead: Aead, l: Layout, nonce: nat, key: seq<byte>, buffer: seq<byte>)
    requires nonce < TWO_32 && CanWeave(l.ranges, |l.plain|, |l.secret|) && l.index == Total(l.ranges, 0) + |l.secret|
    requires l.index <= |buffer| ==> FooterInBounds(|buffer|, l.index, nonce, l.ranges)
    requires var sealed := aead.seal(key, NonceBytes(nonce), l.plain, l.secret);
             sealed.Some? ==> |sealed.value| == |l.secret| + TAG_BYTES
    ensures var (r, after) := Outcome(aead, l, nonce, key, buffer);
            var sealed := aead.seal(key, NonceBytes(nonce), l.plain, l.secret);
            && (r == Err(InvalidGeneration) <==> key == [])
            && (r == Err(EncryptionFailed) <==> key != [] && (sealed.None? || l.index == 0 || l.index > |buffer|))
            && r != Err(RatchetNotReady)
            && (r.Err? ==> after == buffer)
  {
    hide AfterFooter, FooterLength, Woven;
  }

  lemma LaidOut(codec: Codec, frame: seq<byte>)
    requires Processable(codec, frame)
    ensures Describes(Build(FramePieces(codec, frame)), Processed(codec, frame))
  {
    BuildDescribes(FramePieces(codec, frame));
  }

  /** The tail of `encrypt`: tag, nonce, ranges, size byte, marker. */
  method WriteFooter(out: array<byte>, at: nat, tag: seq<byte>, nonce: nat, ranges: seq<Range>) returns (written: nat)
    requires |tag| == TAG_BYTES && nonce < TWO_32 && InWords(ranges)
    requires FooterInBounds(out.Length, at, nonce, ranges)
    modifies out
    ensures written == at + FooterLength(out.Length, at, nonce, ranges)
    ensures out[..] == AfterFooter(old(out[..]), at, tag, nonce, ranges)
  {
    hide Overwrite, Leb128.Encode, EncodeRanges, Fitting;
    ghost var was := out[..];
    written := at;
    CopyInto(tag, out, written);
    written := written + TAG_BYTES;
    OverwriteTwice(was, at, tag, Leb128.Encode(nonce));
    var nonceSize := Leb128.Write(nonce, out, written);
    written := written + nonceSize;
    var rangesSize := Serialize(ranges, out, written);
    written := written + rangesSize;
    var sizeByte := (written - at + 3) % 256;
    CopyInto([sizeByte] + MARKER, out, written);
    written := written + 3;
  }

  /** `get_max_ciphertext_byte_size` */
  function MaxCiphertextByteSize(frameSize: nat): nat {
    frameSize + SUPPLEMENTAL_BYTES + 64
  }

  /** What a frame was to be sealed with; an empty key is a refusal of the ratchet. */
  datatype Use = Use(key: seq<byte>, nonce: nat)

  /** The uses of one ratchet, in order: nonces count up in 32 bits, from 1, and the key follows from
      the nonce. */
  predicate InTurn(uses: seq<Use>, ratchet: Ratchet) {
    forall i :: 0 <= i < |uses| ==> IsUse(uses[i], i, ratchet)
  }

  predicate IsUse(use: Use, i: nat, ratchet: Ratchet) {
    use.nonce == (i + 1) % TWO_32 && use.key == ratchet(use.nonce / GENERATION_UNIT)
  }

  lemma NextInTurn(uses: seq<Use>, ratchet: Ratchet)
    requires uses != [] ==> InTurn(uses, ratchet)
    ensures var nonce := (|uses| % TWO_32 + 1) % TWO_32;
            && nonce == |uses + [Use(ratchet(nonce / GENERATION_UNIT), nonce)]| % TWO_32
            && InTurn(uses + [Use(ratchet(nonce / GENERATION_UNIT), nonce)], ratchet)
  {
    NextOf(|uses|);
    var nonce := (|uses| % TWO_32 + 1) % TWO_32;
    var more := uses + [Use(ratchet(nonce / GENERATION_UNIT), nonce)];
    assert IsUse(more[|uses|], |uses|, ratchet);
    hide IsUse;
  }

  lemma NextOf(n: nat)
    ensures (n % TWO_32 + 1) % TWO_32 == (n + 1) % TWO_32
  {
  }

  /** Two frames of one ratchet are sealed under the same key and nonce exactly when a multiple of 2^32
      frames lies between them: never among fewer than 2^32. */
  lemma SealedAlike(uses: seq<Use>, ratchet: Ratchet, i: nat, j: nat)
    requires InTurn(uses, ratchet) && i < j < |uses|
    ensures uses[i] == uses[j] <==> (j - i) % TWO_32 == 0
    ensures j - i < TWO_32 ==> uses[i].nonce != uses[j].nonce
  {
    assert IsUse(uses[i], i, ratchet) && IsUse(uses[j], j, ratchet);
  }

  class Encryptor {
    const aead: Aead
    const frameProcessor: OutboundFrameProcessor
    var passthroughMode: bool
    var ratchet: Option<Ratchet>
    var cryptor: Option<seq<byte>>
    var currentKeyGeneration: byte
    var truncatedNonce: nat
    var ssrcCodecMap: map<nat, Codec>

    /** One entry for each frame that was to be sealed since the ratchet was set. */
    ghost var uses: seq<Use>

    ghost predicate Valid()
      reads this, frameProcessor
    {
      && frameProcessor.Valid()
      && truncatedNonce == |uses| % TWO_32
      && (cryptor.Some? ==> ratchet.Some? && cryptor.value == ratchet.value(currentKeyGeneration) != [])
      && (uses != [] ==> ratchet.Some? && InTurn(uses, ratchet.value))
    }

    constructor (aead: Aead)
      ensures Valid() && fresh(frameProcessor) && this.aead == aead
      ensures passthroughMode && ratchet == None && forall ssrc :: CodecForSsrc(ssrc) == Opus
    {
      this.aead := aead;
      frameProcessor := new OutboundFrameProcessor();
      passthroughMode, ratchet, cryptor := true, None, None;
      currentKeyGeneration, truncatedNonce := 0, 0;
      ssrcCodecMap := map[];
      uses := [];
    }

    method SetKeyRatchet(ratchet: Option<Ratchet>)
      requires Valid()
      modifies this
      ensures Valid() && this.ratchet == ratchet && cryptor == None && currentKeyGeneration == 0 && uses == []
      ensures passthroughMode == old(passthroughMode) && ssrcCodecMap == old(ssrcCodecMap)
    {
      this.ratchet, cryptor := ratchet, None;
      currentKeyGeneration, truncatedNonce := 0, 0;
      uses := [];
    }

    method SetPassthroughMode(passthroughMode: bool)
      requires Valid()
      modifies this`passthroughMode
      ensures Valid() && this.passthroughMode == passthroughMode
    {
      this.passthroughMode := passthroughMode;
    }

    method AssignSsrcToCodec(ssrc: nat, codec: Codec)
      requires Valid()
      modifies this`ssrcCodecMap
      ensures Valid() && CodecForSsrc(ssrc) == codec
      ensures forall other :: other != ssrc ==> CodecForSsrc(other) == old(CodecForSsrc(other))
    {
      ssrcCodecMap := ssrcCodecMap[ssrc := codec];
    }

    function CodecForSsrc(ssrc: nat): Codec
      reads this
    {
      if ssrc in ssrcCodecMap then ssrcCodecMap[ssrc] else Opus
    }

    /** The nonce of the next frame, pre-incremented in 32 bits. */
    function NextNonce(): nat
      reads this
    {
      (truncatedNonce + 1) % TWO_32
    }

    /** The key of the next frame: the ratchet's for the top byte of its nonce. */
    function NextKey(): seq<byte>
      requires ratchet.Some?
      reads this
    {
      ratchet.value(NextNonce() / GENERATION_UNIT)
    }

    /** What the next frame is laid out as. */
    ghost function NextLayout(ssrc: nat, frame: seq<byte>): Layout
      requires Processable(CodecForSsrc(ssrc), frame)
      reads this
    {
      Build(FramePieces(CodecForSsrc(ssrc), frame))
    }

    /** The writes of the footer stay inside the output buffer, or it does not even hold the body. */
    ghost predicate BufferFits(ssrc: nat, frame: seq<byte>, capacity: nat)
      requires Processable(CodecForSsrc(ssrc), frame)
      reads this
    {
      var l := NextLayout(ssrc, frame);
      l.index > capacity || FooterInBounds(capacity, l.index, NextNonce(), l.ranges)
    }

    method Encrypt(ssrc: nat, frame: seq<byte>, out: array<byte>) returns (r: EncryptResult)
      requires Valid() && aead.Correct() && out.Length < TWO_64
      requires passthroughMode ==> |frame| <= out.Length
      requires !passthroughMode && ratchet.Some? ==>
                 Processable(CodecForSsrc(ssrc), frame) && BufferFits(ssrc, frame, out.Length)
      modifies this`cryptor, this`currentKeyGeneration, this`truncatedNonce, this`uses, frameProcessor, out
      ensures Valid()
      ensures passthroughMode ==> r == Ok(|frame|) && out[..] == Overwrite(old(out[..]), 0, frame)
      ensures !passthroughMode && ratchet.None? ==> r == Err(RatchetNotReady) && out[..] == old(out[..])
      ensures passthroughMode || ratchet.None? ==> unchanged(this)
      ensures !passthroughMode && ratchet.Some? ==>
                var (l, nonce, key) := old((NextLayout(ssrc, frame), NextNonce(), NextKey()));
                && uses == old(uses) + [Use(key, nonce)]
                && Describes(l, Processed(CodecForSsrc(ssrc), frame))
                && (r, out[..]) == Outcome(aead, l, nonce, key, old(out[..]))
    {
      if passthroughMode {
        CopyInto(frame, out, 0);
        return Ok(|frame|);
      }
      if ratchet.None? { return Err(RatchetNotReady); }
      var codec := CodecForSsrc(ssrc);
      hide Build, FramePieces, Processable, Describes, AfterFooter, EncodeRanges, Overwrite, Outcome, Processed;
      ghost var l := NextLayout(ssrc, frame);
      LaidOut(codec, frame);
      ProcessFrame(frameProcessor, frame, codec);
      assert frameProcessor.View() == l;
      var ok := AdvanceNonceAndKey();
      if !ok { return Err(InvalidGeneration); }
      r := SealAndWrite(out);
    }

    /** Nonce increment and key rotation; false when the ratchet refuses, which leaves the cipher as it
        was.  The cipher in hand is always the ratchet's for the nonce in use. */
    method AdvanceNonceAndKey() returns (ok: bool)
      requires Valid() && ratchet.Some?
      modifies this`cryptor, this`currentKeyGeneration, this`truncatedNonce, this`uses
      ensures Valid() && uses == old(uses) + [Use(old(NextKey()), old(NextNonce()))]
      ensures truncatedNonce == old(NextNonce())
      ensures ok <==> old(NextKey()) != []
      ensures ok ==> cryptor == Some(old(NextKey())) && currentKeyGeneration == truncatedNonce / GENERATION_UNIT
      ensures !ok ==> cryptor == old(cryptor) && currentKeyGeneration == old(currentKeyGeneration)
    {
      NextInTurn(uses, ratchet.value);
      uses := uses + [Use(NextKey(), NextNonce())];
      truncatedNonce := (truncatedNonce + 1) % TWO_32;
      var generation := truncatedNonce / GENERATION_UNIT;
      if cryptor.None? || generation != currentKeyGeneration {
        var key := ratchet.value(generation);
        if key == [] { return false; }
        cryptor, currentKeyGeneration := Some(key), generation;
      }
      return true;
    }

    /** Encrypts what the processor holds and writes body and footer. */
    method SealAndWrite(out: array<byte>) returns (r: EncryptResult)
      requires frameProcessor.Valid() && truncatedNonce < TWO_32
      requires aead.Correct() && out.Length < TWO_64 && cryptor.Some? && cryptor.value != []
      requires |frameProcessor.ciphertextBytes| == |frameProcessor.encryptedBytes|
      requires var l := frameProcessor.View();
               l.index > out.Length || FooterInBounds(out.Length, l.index, truncatedNonce, l.ranges)
      modifies frameProcessor, out
      ensures frameProcessor.Valid()
      ensures var l := old(frameProcessor.View());
              && Describes(l, Flatten(old(frameProcessor.pieces)))
              && (r, out[..]) == Outcome(aead, l, truncatedNonce, cryptor.value, old(out[..]))
    {
      hide Weave, Weavable, Total, Chained, AfterFooter, EncodeRanges;
      BuildDescribes(frameProcessor.pieces);
      var n := |frameProcessor.encryptedBytes|;
      var sealed := aead.seal(cryptor.value, NonceBytes(truncatedNonce),
                              frameProcessor.unencryptedBytes, frameProcessor.encryptedBytes);
      if sealed.None? { return Err(EncryptionFailed); }
      frameProcessor.ciphertextBytes := sealed.value[..n];
      var bodySize := frameProcessor.ReconstructFrame(out);
      if bodySize == 0 { return Err(EncryptionFailed); }
      ChainedInWords(frameProcessor.unencryptedRanges, bodySize);
      var written := WriteFooter(out, bodySize, sealed.value[n..], truncatedNonce, frameProcessor.unencryptedRanges);
      return Ok(written);
    }
  }
}
