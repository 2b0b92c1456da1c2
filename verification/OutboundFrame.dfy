/** `OutboundFrameProcessor` (`src/dave/frame_processors.cpp`): collects a frame as plaintext
    ranges and bytes to encrypt, and interleaves them again after encryption. */
module OutboundFrame {
  import opened Bytes
  import opened Ranges
  import opened Interleaving

  class OutboundFrameProcessor {
    var frameIndex: nat
    var unencryptedBytes: seq<byte>
    var encryptedBytes: seq<byte>
    var ciphertextBytes: seq<byte>
    var unencryptedRanges: seq<Range>

    /** The calls since the last reset, in order. */
    ghost var pieces: seq<Piece>

    ghost function View(): Layout
      reads this
    {
      Layout(unencryptedRanges, unencryptedBytes, encryptedBytes, frameIndex)
    }

    ghost predicate Valid()
      reads this
    {
      View() == Build(pieces)
    }

    constructor ()
      ensures Valid() && pieces == [] && ciphertextBytes == []
    {
      frameIndex := 0;
      unencryptedBytes, encryptedBytes, ciphertextBytes := [], [], [];
      unencryptedRanges := [];
      pieces := [];
    }

    method Reset()
      modifies this
      ensures Valid() && pieces == [] && ciphertextBytes == old(ciphertextBytes)
    {
      frameIndex := 0;
      unencryptedBytes, encryptedBytes, unencryptedRanges := [], [], [];
      pieces := [];
    }

    method AddUnencryptedBytes(bytes: seq<byte>)
      requires Valid()
      modifies this
      ensures Valid() && pieces == old(pieces) + [Plain(bytes)] && ciphertextBytes == old(ciphertextBytes)
    {
      var n := |unencryptedRanges|;
      if n > 0 && unencryptedRanges[n - 1].offset + unencryptedRanges[n - 1].size == frameIndex {
        var last := unencryptedRanges[n - 1];
        unencryptedRanges := unencryptedRanges[..n - 1] + [last.(size := last.size + |bytes|)];
      } else {
        unencryptedRanges := unencryptedRanges + [Range(frameIndex, |bytes|)];
      }
      unencryptedBytes := unencryptedBytes + bytes;
      frameIndex := frameIndex + |bytes|;
      pieces := pieces + [Plain(bytes)];
      assert pieces[..|pieces| - 1] == old(pieces);
    }

    method AddEncryptedBytes(bytes: seq<byte>)
      requires Valid()
      modifies this
      ensures Valid() && pieces == old(pieces) + [Secret(bytes)] && ciphertextBytes == old(ciphertextBytes)
    {
      encryptedBytes := encryptedBytes + bytes;
      frameIndex := frameIndex + |bytes|;
      pieces := pieces + [Secret(bytes)];
      assert pieces[..|pieces| - 1] == old(pieces);
    }

    /** The frame with the ciphertext in place of the bytes to encrypt; 0 when it does not fit. */
    method ReconstructFrame(frame: array<byte>) returns (size: nat)
      requires Valid() && |ciphertextBytes| == |encryptedBytes|
      modifies frame
      ensures |unencryptedBytes| + |ciphertextBytes| > frame.Length ==> size == 0 && frame[..] == old(frame[..])
      ensures Describes(View(), Flatten(pieces))
      ensures |unencryptedBytes| + |ciphertextBytes| <= frame.Length ==>
                && size == |Flatten(pieces)|
                && frame[..] == Overwrite(old(frame[..]), 0,
                                          Woven(unencryptedRanges, unencryptedBytes, ciphertextBytes))
    {
      BuildDescribes(pieces);
      if |unencryptedBytes| + |ciphertextBytes| > frame.Length { return 0; }
      size := Reconstruct(unencryptedRanges, unencryptedBytes, ciphertextBytes, frame);
    }
  }
}
