/** `InboundFrameProcessor` (`src/dave/frame_processors.cpp`): finds the footer of an encrypted
    frame, splits the frame at its plaintext ranges and puts it together again after decryption. */
module InboundFrame {
  import opened Bytes
  import opened Crypto
  import opened Ranges
  import opened Interleaving
  import Leb128

  /** `MARKER_BYTES`, a 16-bit value whose two bytes are equal. */
  const MARKER: seq<byte> := [0xFA, 0xFA]
  /** Tag, size byte and marker: `min_supplemental_bytes_size` and `SUPPLEMENTAL_BYTES`. */
  const SUPPLEMENTAL_BYTES := 11

  datatype Parsed =
    Parsed(tag: seq<byte>, nonce: nat, ranges: seq<Range>, authenticated: seq<byte>, ciphertext: seq<byte>)

  // ---------------------------------------------------------------------------------------
  // The footer
  // ---------------------------------------------------------------------------------------

  function FooterSize(nonce: nat, ranges: seq<Range>): nat {
    SUPPLEMENTAL_BYTES + |Leb128.Encode(nonce)| + |EncodeRanges(ranges)|
  }

  /** Tag, nonce, ranges, size byte, marker. */
  function Footer(tag: seq<byte>, nonce: nat, ranges: seq<Range>): (s: seq<byte>)
    requires |tag| == TAG_BYTES
    ensures |s| == FooterSize(nonce, ranges)
  {
    tag + (Leb128.Encode(nonce) + EncodeRanges(ranges)) + [FooterSize(nonce, ranges) % 256] + MARKER
  }

  datatype FooterParts = FooterParts(size: nat, tag: seq<byte>, nonce: nat, ranges: seq<Range>)

  /** What `parse_frame` reads from the end of a frame. */
  function ParseFooter(frame: seq<byte>): (r: Option<FooterParts>)
    ensures r.Some? ==> SUPPLEMENTAL_BYTES <= r.value.size <= |frame| &&
                        |r.value.tag| == TAG_BYTES && r.value.nonce < TWO_32
  {
    var end := |frame|;
    if end < SUPPLEMENTAL_BYTES || frame[end - 2..] != MARKER then None
    else
      var size := frame[end - 3];
      if end < size || size < SUPPLEMENTAL_BYTES then None
      else
        var s := frame[end - size + TAG_BYTES..end - 3];
        match Leb128.Decode(s, 0)
        case Malformed => None
        case Value(nonce, n) =>
          match DecodeRanges(s[n..])
          case None => None
          case Some(ranges) =>
            Some(FooterParts(size, frame[end - size..end - size + TAG_BYTES], nonce % TWO_32, ranges))
  }

  function Parse(frame: seq<byte>): Option<Parsed> {
    match ParseFooter(frame)
    case None => None
    case Some(f) =>
      if !Chained(f.ranges, 0, 0, |frame|) then None
      else
        var parts := Cut(f.ranges, 0, 0, frame, |frame| - f.size);
        Some(Parsed(f.tag, f.nonce, f.ranges, parts.plain, parts.other))
  }

  /** A footer of at most 255 bytes is found behind any body, and read as it was written. */
  lemma ParseFooterWritten(body: seq<byte>, tag: seq<byte>, nonce: nat, ranges: seq<Range>)
    requires |tag| == TAG_BYTES && nonce < TWO_32 && InWords(ranges) && FooterSize(nonce, ranges) <= 255
    ensures ParseFooter(body + Footer(tag, nonce, ranges))
            == Some(FooterParts(FooterSize(nonce, ranges), tag, nonce, ranges))
  {
    hide EncodeRanges, DecodeRanges;
    var size := FooterSize(nonce, ranges);
    var a, b := Leb128.Encode(nonce), EncodeRanges(ranges);
    var frame := body + Footer(tag, nonce, ranges);
    var end := |frame|;
    assert frame == body + tag + (a + b) + [size] + MARKER;
    assert frame[end - 2..] == MARKER && frame[end - 3] == size;
    assert frame[end - size..end - size + TAG_BYTES] == tag;
    assert frame[end - size + TAG_BYTES..end - 3] == a + b;
    Leb128.DecodeEncode64(nonce, b);
    DecodeEncodeRanges(ranges);
    assert (a + b)[|a|..] == b;
  }

  lemma ParseShortFooter(tag: seq<byte>, nonce: nat, ranges: seq<Range>, plain: seq<byte>, cipher: seq<byte>)
    requires |tag| == TAG_BYTES && nonce < TWO_32 && InWords(ranges) && FooterSize(nonce, ranges) <= 255
    requires CanWeave(ranges, |plain|, |cipher|) && Total(ranges, 0) == |plain|
    requires Chained(ranges, 0, 0, |plain| + |cipher|)
    ensures Parse(Woven(ranges, plain, cipher) + Footer(tag, nonce, ranges))
            == Some(Parsed(tag, nonce, ranges, plain, cipher))
  {
    hide Cut, Footer, ParseFooter, Chained, Weave, Total;
    var body := Woven(ranges, plain, cipher);
    var frame := body + Footer(tag, nonce, ranges);
    ParseFooterWritten(body, tag, nonce, ranges);
    assert frame[0..|body|] == body;
    CutWeaveFrom(ranges, 0, plain, 0, cipher, 0, frame, |body|);
    assert plain[0..] == plain && cipher[0..] == cipher;
  }

  /** A footer: eight bytes of tag, the nonce, the ranges, its own length, and the marker FA FA. */
  lemma FooterBytes(tag: seq<byte>, nonce: nat, ranges: seq<Range>)
    requires |tag| == 8
    ensures var (footer, middle) := (Footer(tag, nonce, ranges), Leb128.Encode(nonce) + EncodeRanges(ranges));
            && |footer| == |middle| + 11
            && footer[..8] == tag && footer[8..|footer| - 3] == middle
            && footer[|footer| - 3..] == [|footer| % 256, 0xFA, 0xFA]
  {
    hide Leb128.Encode, EncodeRanges;
    var middle := Leb128.Encode(nonce) + EncodeRanges(ranges);
    assert Footer(tag, nonce, ranges) == tag + middle + [(|middle| + 11) % 256, 0xFA, 0xFA];
  }

  /** Only a frame that ends in such a marker, behind a length inside it, is read. */
  lemma ParsedIsMarked(frame: seq<byte>)
    requires Parse(frame).Some?
    ensures var end := |frame|;
            && end >= 11 && frame[end - 2] == 0xFA && frame[end - 1] == 0xFA && 11 <= frame[end - 3] <= end
            && Parse(frame).value.tag == frame[end - frame[end - 3]..end - frame[end - 3] + 8]
  {
    hide Cut, Chained, DecodeRanges, Leb128.Decode;
    var t := frame[|frame| - 2..];
    assert t[0] == frame[|frame| - 2] && t[1] == frame[|frame| - 1];
  }

  /** A frame with a readable footer is taken exactly when each of its ranges ends before the next begins, and
      the last inside the frame, be it in the footer. */
  lemma AcceptsExactly(frame: seq<byte>)
    requires ParseFooter(frame).Some?
    ensures var ranges := ParseFooter(frame).value.ranges;
            Parse(frame).Some? <==> forall j :: 0 <= j < |ranges| ==> BeforeNext(ranges, j, |frame|)
  {
    hide Cut, ParseFooter, BeforeNext;
    var ranges := ParseFooter(frame).value.ranges;
    if ranges != [] { EachBeforeNextIsChained(ranges, 0, |frame|); }
  }

  /** For every byte string: what is read from a footer, written out again, is no longer than the
      footer, and so never longer than the 255 bytes that its size byte can express. */
  lemma ParsedFooterFits(frame: seq<byte>)
    requires ParseFooter(frame).Some?
    ensures var f := ParseFooter(frame).value;
            FooterSize(f.nonce, f.ranges) <= f.size <= 255 && f.size == frame[|frame| - 3]
  {
    hide EncodeRanges, DecodeRanges, Leb128.Encode, Leb128.Decode;
    var end := |frame|;
    var s := frame[end - frame[end - 3] + TAG_BYTES..end - 3];
    var d := Leb128.Decode(s, 0);
    Leb128.DecodeNotShorter(s, 0);
    Leb128.EncodeMonotonic(d.value % TWO_32, d.value);
    DecodedRangesNotShorter(s[d.used..]);
  }

  /** A body with a full footer parses into tag, nonce, ranges, authenticated bytes and ciphertext
      exactly when the footer fits in the 255 bytes its size byte can express. */
  lemma ParseWritten(tag: seq<byte>, nonce: nat, ranges: seq<Range>, plain: seq<byte>, cipher: seq<byte>)
    requires |tag| == TAG_BYTES && nonce < TWO_32 && InWords(ranges)
    requires CanWeave(ranges, |plain|, |cipher|) && Total(ranges, 0) == |plain|
    requires Chained(ranges, 0, 0, |plain| + |cipher|)
    ensures Parse(Woven(ranges, plain, cipher) + Footer(tag, nonce, ranges))
            == Some(Parsed(tag, nonce, ranges, plain, cipher))
            <==> FooterSize(nonce, ranges) <= 255
  {
    hide Footer, ParseFooter, Cut, Chained, Weave, Total;
    var frame := Woven(ranges, plain, cipher) + Footer(tag, nonce, ranges);
    if FooterSize(nonce, ranges) <= 255 { ParseShortFooter(tag, nonce, ranges, plain, cipher); }
    if Parse(frame).Some? { ParsedFooterFits(frame); }
  }

  /** For every accepted frame, not only the encryptor's: interleaving the two buffers by the ranges
      gives back the frame, up to the footer or to the end of a last range that reaches into it. */
  lemma SplitIsLossless(frame: seq<byte>)
    requires Parse(frame).Some?
    ensures var (p, size) := (Parse(frame).value, ParseFooter(frame).value.size);
            && CanWeave(p.ranges, |p.authenticated|, |p.ciphertext|)
            && |p.authenticated| == Total(p.ranges, 0)
            && CutEnd(p.ranges, |frame| - size) <= |frame|
            && Woven(p.ranges, p.authenticated, p.ciphertext) == frame[..CutEnd(p.ranges, |frame| - size)]
  {
    hide Cut, ParseFooter, Chained, Weave, Total;
    var f := ParseFooter(frame).value;
    WeaveCut(f.ranges, frame, |frame| - f.size);
  }

  // ---------------------------------------------------------------------------------------
  // The processor
  // ---------------------------------------------------------------------------------------

  class InboundFrameProcessor {
    var encrypted: bool
    var originalSize: nat
    var tag: seq<byte>
    var truncatedNonce: nat
    var unencryptedRanges: seq<Range>
    var authenticated: seq<byte>
    var ciphertext: seq<byte>
    var plaintext: seq<byte>

    ghost function View(): Parsed
      reads this
    {
      Parsed(tag, truncatedNonce, unencryptedRanges, authenticated, ciphertext)
    }

    /** The state between two frames; once decryption has filled it, the plaintext has the length of
        the ciphertext. */
    ghost predicate Valid()
      reads this
    {
      encrypted ==>
        && |plaintext| == |ciphertext|
        && |tag| == TAG_BYTES && truncatedNonce < TWO_32
        && CanWeave(unencryptedRanges, |authenticated|, |ciphertext|)
        && |authenticated| == Total(unencryptedRanges, 0)
    }

    constructor ()
      ensures Valid() && !encrypted
    {
      encrypted, originalSize, tag, truncatedNonce := false, 0, [], 0;
      unencryptedRanges, authenticated, ciphertext, plaintext := [], [], [], [];
    }

    method Clear()
      modifies this
      ensures Valid() && !encrypted && originalSize == 0 && truncatedNonce == TWO_32 - 1
      ensures unencryptedRanges == [] && authenticated == [] && ciphertext == [] && plaintext == []
    {
      encrypted, originalSize, truncatedNonce := false, 0, TWO_32 - 1;
      unencryptedRanges, authenticated, ciphertext, plaintext := [], [], [], [];
    }

    method ParseFrame(frame: seq<byte>)
      requires |frame| < TWO_64
      modifies this
      ensures Valid()
      ensures encrypted <==> Parse(frame).Some?
      ensures encrypted ==> View() == Parse(frame).value && originalSize == |frame|
    {
      hide Cut, Chained, Weavable, Total, ParseFooter;
      Clear();
      var bytesSize := ReadFooter(frame);
      if bytesSize.None? { return; }
      var ok := Validate(unencryptedRanges, |frame|);
      if !ok { return; }
      originalSize := |frame|;
      Split(frame, |frame| - bytesSize.value);
      plaintext := seq(|ciphertext|, _ => 0);
      encrypted := true;
      SplitIsLossless(frame);
    }

    /** The reading part of `parse_frame`; `None` where it returns early. */
    method ReadFooter(frame: seq<byte>) returns (size: Option<nat>)
      modifies this`tag, this`truncatedNonce, this`unencryptedRanges
      ensures size.Some? <==> ParseFooter(frame).Some?
      ensures size.Some? ==>
                && ParseFooter(frame).value == FooterParts(size.value, tag, truncatedNonce, unencryptedRanges)
                && InWords(unencryptedRanges)
    {
      hide DecodeRanges;
      if |frame| < SUPPLEMENTAL_BYTES { return None; }
      if frame[|frame| - 2..] != MARKER { return None; }
      var bytesSize: nat := frame[|frame| - 3];
      if |frame| < bytesSize { return None; }
      if bytesSize < SUPPLEMENTAL_BYTES { return None; }
      var supplemental := frame[|frame| - bytesSize..];
      tag := supplemental[..TAG_BYTES];
      var nonceAndRanges := supplemental[TAG_BYTES..bytesSize - 3];
      assert nonceAndRanges == frame[|frame| - bytesSize + TAG_BYTES..|frame| - 3];
      assert tag == frame[|frame| - bytesSize..|frame| - bytesSize + TAG_BYTES];
      var nonce, used := Leb128.Read(nonceAndRanges);
      truncatedNonce := nonce % TWO_32;
      if used.None? { return None; }
      var ranges := Deserialize(nonceAndRanges[used.value..]);
      if ranges.None? { return None; }
      unencryptedRanges := ranges.value;
      DecodedRangesNotShorter(nonceAndRanges[used.value..]);
      return Some(bytesSize);
    }

    /** The loop that distributes the frame over the two buffers. */
    method Split(frame: seq<byte>, actualFrameSize: nat)
      requires Chained(unencryptedRanges, 0, 0, |frame|) && actualFrameSize <= |frame|
      requires authenticated == [] && ciphertext == []
      modifies this`authenticated, this`ciphertext
      ensures Parts(authenticated, ciphertext) == Cut(unencryptedRanges, 0, 0, frame, actualFrameSize)
    {
      hide Chained, Cut;
      var frameIndex: nat, i := 0, 0;
      ghost var all := Cut(unencryptedRanges, 0, 0, frame, actualFrameSize);
      while i < |unencryptedRanges|
        invariant i <= |unencryptedRanges| && Chained(unencryptedRanges, i, frameIndex, |frame|)
        invariant all == Joined(authenticated, ciphertext,
                                Cut(unencryptedRanges, i, frameIndex, frame, actualFrameSize))
      {
        var range := unencryptedRanges[i];
        JoinCut(unencryptedRanges, i, frameIndex, frame, actualFrameSize, authenticated, ciphertext);
        var encryptedBytes := range.offset - frameIndex;
        if encryptedBytes > 0 {
          ciphertext := ciphertext + frame[frameIndex..frameIndex + encryptedBytes];
        } else {
          assert ciphertext + frame[frameIndex..range.offset] == ciphertext;
        }
        authenticated := authenticated + frame[range.offset..range.offset + range.size];
        frameIndex := range.offset + range.size;
        i := i + 1;
      }
      CutEnds(unencryptedRanges, frameIndex, frame, actualFrameSize);
      assert authenticated + [] == authenticated && ciphertext + [] == ciphertext;
      if frameIndex < actualFrameSize {
        ciphertext := ciphertext + frame[frameIndex..actualFrameSize];
      }
    }

    /** The frame with the decrypted bytes in place; 0 when nothing was parsed or it does not fit.
        What is written has exactly the length of the two buffers. */
    method ReconstructFrame(frame: array<byte>) returns (size: nat)
      requires Valid()
      modifies frame
      ensures !encrypted || |authenticated| + |plaintext| > frame.Length ==> size == 0 && frame[..] == old(frame[..])
      ensures encrypted && |authenticated| + |plaintext| <= frame.Length ==>
                && size == |authenticated| + |plaintext|
                && frame[..] == Overwrite(old(frame[..]), 0, Woven(unencryptedRanges, authenticated, plaintext))
    {
      if !encrypted { return 0; }
      if |authenticated| + |plaintext| > frame.Length { return 0; }
      size := Reconstruct(unencryptedRanges, authenticated, plaintext, frame);
    }
  }

  ghost function Joined(plain: seq<byte>, other: seq<byte>, rest: Parts): Parts {
    Parts(plain + rest.plain, other + rest.other)
  }

  lemma CutEnds(ranges: seq<Range>, at: nat, frame: seq<byte>, limit: nat)
    requires Chained(ranges, |ranges|, at, |frame|) && limit <= |frame|
    ensures Cut(ranges, |ranges|, at, frame, limit) == Parts([], if at < limit then frame[at..limit] else [])
  {
  }

  lemma JoinCut(ranges: seq<Range>, i: nat, at: nat, frame: seq<byte>, limit: nat, plain: seq<byte>, other: seq<byte>)
    requires i < |ranges| && Chained(ranges, i, at, |frame|) && limit <= |frame|
    ensures var r := ranges[i];
            && at <= r.offset && r.End() <= |frame| && Chained(ranges, i + 1, r.End(), |frame|)
            && Joined(plain, other, Cut(ranges, i, at, frame, limit))
               == Joined(plain + frame[r.offset..r.End()], other + frame[at..r.offset],
                         Cut(ranges, i + 1, r.End(), frame, limit))
  {
    CutStep(ranges, i, at, frame, limit);
    hide Cut;
    var r := ranges[i];
    var rest := Cut(ranges, i + 1, r.End(), frame, limit);
    assert plain + (frame[r.offset..r.End()] + rest.plain) == plain + frame[r.offset..r.End()] + rest.plain;
    assert other + (frame[at..r.offset] + rest.other) == other + frame[at..r.offset] + rest.other;
  }
}
