/** How each codec's frames are cut into pieces (`src/dave/codec_utils.cpp`), and
    `OutboundFrameProcessor::process_frame` (`src/dave/frame_processors.cpp`). */
module Codecs {
  import opened Bytes
  import opened Ranges
  import opened Interleaving
  import opened OutboundFrame
  import Av1
  import H26x

  datatype Codec = Unknown | Opus | Vp8 | Vp9 | H264 | H265 | AV1

  /** P, the inverse key frame flag of section 4.3 of RFC 7741. */
  predicate IsVp8KeyFrame(frame: seq<byte>)
    requires frame != []
  {
    frame[0] % 2 == 0
  }

  function Vp8HeaderSize(frame: seq<byte>): nat
    requires frame != []
  {
    if IsVp8KeyFrame(frame) then 10 else 1
  }

  /** What the processors demand of a frame: their subspans stay inside it, and their indices
      inside 64 bits. */
  predicate Processable(codec: Codec, frame: seq<byte>) {
    |frame| < TWO_64 &&
    match codec
    case Vp8 => frame != [] && Vp8HeaderSize(frame) <= |frame|
    case H264 => H26x.HeadersFit(H26x.H264, frame)
    case H265 => H26x.HeadersFit(H26x.H265, frame)
    case AV1 => Av1.IndicesFit(frame, 0)
    case _ => true
  }

  /** The calls a codec makes on the processor; `None` when it gives up. */
  function CodecPieces(codec: Codec, frame: seq<byte>): Option<seq<Piece>>
    requires Processable(codec, frame)
  {
    match codec
    case Unknown => None
    case Opus => Some([Secret(frame)])
    case Vp9 => Some([Secret(frame)])
    case Vp8 => Some([Plain(frame[..Vp8HeaderSize(frame)]), Secret(frame[Vp8HeaderSize(frame)..])])
    case H264 => H26x.Pieces(H26x.H264, frame)
    case H265 => H26x.Pieces(H26x.H265, frame)
    case AV1 => Av1.Pieces(frame)
  }

  /** A frame its codec gives up on is encrypted as a whole. */
  function FramePieces(codec: Codec, frame: seq<byte>): seq<Piece>
    requires Processable(codec, frame)
  {
    match CodecPieces(codec, frame)
    case None => [Secret(frame)]
    case Some(pieces) => pieces
  }

  /** The frame a receiver gets out. */
  function Processed(codec: Codec, frame: seq<byte>): seq<byte>
    requires Processable(codec, frame)
  {
    Flatten(FramePieces(codec, frame))
  }

  method ProcessVp8(processor: OutboundFrameProcessor, frame: seq<byte>) returns (ok: bool)
    requires processor.Valid() && frame != [] && Vp8HeaderSize(frame) <= |frame|
    modifies processor
    ensures ok && processor.Valid() && processor.ciphertextBytes == old(processor.ciphertextBytes)
    ensures processor.pieces ==
            old(processor.pieces) + [Plain(frame[..Vp8HeaderSize(frame)]), Secret(frame[Vp8HeaderSize(frame)..])]
  {
    var unencryptedHeaderBytes := if frame[0] % 2 == 0 then 10 else 1;
    processor.AddUnencryptedBytes(frame[..unencryptedHeaderBytes]);
    processor.AddEncryptedBytes(frame[unencryptedHeaderBytes..]);
    return true;
  }

  method ProcessFrame(processor: OutboundFrameProcessor, frame: seq<byte>, codec: Codec)
    requires processor.Valid() && Processable(codec, frame)
    modifies processor
    ensures processor.Valid() && processor.pieces == FramePieces(codec, frame)
    ensures |processor.ciphertextBytes| == |processor.encryptedBytes|
  {
    hide Build, H26x.HeadersFit, H26x.Pieces, Av1.Pieces, Av1.IndicesFit;
    processor.Reset();
    var ok := false;
    match codec {
      case Opus =>
        processor.AddEncryptedBytes(frame);
        ok := true;
      case Vp8 => ok := ProcessVp8(processor, frame);
      case Vp9 =>
        processor.AddEncryptedBytes(frame);
        ok := true;
      case H264 => ok := H26x.Process(H26x.H264, processor, frame);
      case H265 => ok := H26x.Process(H26x.H265, processor, frame);
      case AV1 => ok := Av1.Process(processor, frame);
      case Unknown =>
    }
    if !ok {
      processor.Reset();
      processor.AddEncryptedBytes(frame);
    }
    processor.ciphertextBytes := seq(|processor.encryptedBytes|, _ => 0);
  }

  /** The frames of these codecs go through unchanged, with at most one plaintext range at the
      front of the frame. */
  predicate KeepsFrame(codec: Codec) {
    codec == Unknown || codec == Opus || codec == Vp8 || codec == Vp9
  }

  lemma KeptFrame(codec: Codec, frame: seq<byte>)
    requires Processable(codec, frame) && KeepsFrame(codec)
    ensures Processed(codec, frame) == frame
    ensures Build(FramePieces(codec, frame)).ranges == if codec == Vp8 then [Range(0, Vp8HeaderSize(frame))] else []
  {
    hide Build, Flatten, Vp8HeaderSize;
    if codec == Vp8 {
      KeptVp8(frame, Vp8HeaderSize(frame));
    } else {
      FlattenOne(Secret(frame));
      BuildSnoc([], Secret(frame));
      assert [] + [Secret(frame)] == [Secret(frame)];
    }
  }

  lemma KeptVp8(frame: seq<byte>, n: nat)
    requires n <= |frame|
    ensures var pieces := [Plain(frame[..n]), Secret(frame[n..])];
            Flatten(pieces) == frame && Build(pieces).ranges == [Range(0, n)]
  {
    hide Build, Flatten;
    var header, payload := Plain(frame[..n]), Secret(frame[n..]);
    assert [header, payload] == [header] + [payload] && [] + [header] == [header];
    FlattenAppend([header], [payload]);
    FlattenOne(header);
    FlattenOne(payload);
    BuildSnoc([], header);
    BuildSnoc([header], payload);
  }

  /** An AV1 frame never grows. */
  lemma Av1NotLonger(frame: seq<byte>)
    requires Processable(AV1, frame)
    ensures |Processed(AV1, frame)| <= |frame|
  {
    hide Flatten, Av1.ReadAll, Av1.Write, Av1.AllPieces, Av1.IndicesFit, Av1.Readable;
    if Av1.ReadAll(frame).Some? {
      Av1.ReadAllReadable(frame);
      Av1.EmittedIsWritten(Av1.ReadAll(frame).value);
    } else {
      FlattenOne(Secret(frame));
    }
  }
}
