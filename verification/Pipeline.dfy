/** Sender and receiver together: what the encryptor writes, the decryptor reads back. */
module Pipeline {
  import opened Bytes
  import opened Sequences
  import opened Crypto
  import opened Ranges
  import opened Interleaving
  import opened Codecs
  import opened InboundFrame
  import opened Encryptor
  import opened NonceWindow
  import opened CipherManager
  import opened Acceptance
  import Decryptor
  import Leb128

  function LayoutOf(codec: Codec, frame: seq<byte>): Layout
    requires Processable(codec, frame)
  {
    Build(FramePieces(codec, frame))
  }

  /** One frame on its way: what is sealed, under which key and nonce. */
  datatype Sending = Sending(codec: Codec, frame: seq<byte>, key: seq<byte>, nonce: nat)

  /** The sender's preconditions: the codec can process the frame, and the output buffer holds body
      and footer. */
  predicate Sendable(s: Sending, capacity: nat) {
    && Processable(s.codec, s.frame) && s.nonce < TWO_32 && capacity < TWO_64
    && var l := LayoutOf(s.codec, s.frame);
    0 < l.index && l.index + FooterSize(s.nonce, l.ranges) <= capacity
  }

  function Seal(aead: Aead, s: Sending): Option<seq<byte>>
    requires Processable(s.codec, s.frame) && s.nonce < TWO_32
  {
    var l := LayoutOf(s.codec, s.frame);
    aead.seal(s.key, NonceBytes(s.nonce), l.plain, l.secret)
  }

  /** The bytes on the wire, when sealing gave `sealed`. */
  function Sent(s: Sending, sealed: seq<byte>): seq<byte>
    requires Processable(s.codec, s.frame) && |sealed| == |LayoutOf(s.codec, s.frame).secret| + TAG_BYTES
  {
    BuildDescribes(FramePieces(s.codec, s.frame));
    Wire(LayoutOf(s.codec, s.frame), s.nonce, sealed)
  }

  /** The frame as parsed on the other side, when sealing gave `sealed`. */
  function Expected(l: Layout, nonce: nat, sealed: seq<byte>): Parsed
    requires |sealed| == |l.secret| + TAG_BYTES
  {
    Parsed(sealed[|l.secret|..], nonce, l.ranges, l.plain, sealed[..|l.secret|])
  }

  /** The sender's preconditions for any buffer that holds the body: its writes stay in bounds. */
  predicate Writes(s: Sending, capacity: nat) {
    && Processable(s.codec, s.frame) && s.nonce < TWO_32 && s.key != []
    && var l := LayoutOf(s.codec, s.frame);
    0 < l.index <= capacity && FooterInBounds(capacity, l.index, s.nonce, l.ranges)
  }

  /** Body and whole footer fit in the buffer, and the footer in the 255 bytes its size byte can express. */
  predicate FooterFits(s: Sending, capacity: nat)
    requires Processable(s.codec, s.frame)
  {
    var l := LayoutOf(s.codec, s.frame);
    FooterSize(s.nonce, l.ranges) <= 255 && l.index + FooterSize(s.nonce, l.ranges) <= capacity
  }

  function Encrypted(aead: Aead, s: Sending, buffer: seq<byte>): (EncryptResult, seq<byte>)
    requires aead.Correct() && Writes(s, |buffer|)
  {
    BuildDescribes(FramePieces(s.codec, s.frame));
    Outcome(aead, LayoutOf(s.codec, s.frame), s.nonce, s.key, buffer)
  }

  lemma EncryptedUnfolds(aead: Aead, s: Sending, buffer: seq<byte>)
    requires aead.Correct() && Writes(s, |buffer|)
    ensures var l := LayoutOf(s.codec, s.frame);
            && CanWeave(l.ranges, |l.plain|, |l.secret|) && l.index == Total(l.ranges, 0) + |l.secret|
            && Describes(l, Processed(s.codec, s.frame))
            && Encrypted(aead, s, buffer) == Outcome(aead, l, s.nonce, s.key, buffer)
  {
    hide Weave, Weavable, Chained, Outcome, Build, FramePieces;
    BuildDescribes(FramePieces(s.codec, s.frame));
  }

  /** What `encrypt` leaves at the front of the buffer is the wire format, unless the range list needs
      more than 255 bytes or does not fit. */
  lemma WrittenIsWire(aead: Aead, s: Sending, buffer: seq<byte>)
    requires aead.Correct() && Writes(s, |buffer|)
    requires var l := LayoutOf(s.codec, s.frame);
             |EncodeRanges(l.ranges)| < 256 && l.index + FooterSize(s.nonce, l.ranges) <= |buffer|
    ensures var (r, after) := Encrypted(aead, s, buffer);
            match Seal(aead, s)
            case None => r == Err(EncryptionFailed)
            case Some(sealed) => r == Ok(|Sent(s, sealed)|) && Sent(s, sealed) <= after
  {
    hide Weave, Weavable, Total, Chained, AfterFooter, EncodeRanges, Footer, Build, FramePieces, RangeBytes, Encrypted;
    EncryptedUnfolds(aead, s, buffer);
    var l := LayoutOf(s.codec, s.frame);
    var sealed := aead.seal(s.key, NonceBytes(s.nonce), l.plain, l.secret);
    if sealed.Some? {
      var n := |l.secret|;
      var body, tag := Woven(l.ranges, l.plain, sealed.value[..n]), sealed.value[n..];
      var footer := Footer(tag, s.nonce, l.ranges);
      FullFooterInBounds(|buffer|, l.index, s.nonce, l.ranges);
      AfterShortFooter(Overwrite(buffer, 0, body), l.index, tag, s.nonce, l.ranges);
      OverwriteTwice(buffer, 0, body, footer);
      OverwriteIs(buffer, 0, body + footer);
    }
  }

  /** Of every frame and every buffer: what `encrypt` reports as written parses into what was sealed
      exactly when the whole footer fits, in the buffer and in 255 bytes. */
  lemma EncryptedIsRead(aead: Aead, s: Sending, buffer: seq<byte>)
    requires aead.Correct() && Writes(s, |buffer|) && |buffer| < TWO_64 && Seal(aead, s).Some?
    ensures var (r, after) := Encrypted(aead, s, buffer);
            && r.Ok? && r.size <= |after| == |buffer|
            && (Parse(after[..r.size]) == Some(Expected(LayoutOf(s.codec, s.frame), s.nonce, Seal(aead, s).value))
                <==> FooterFits(s, |buffer|))
  {
    hide Weave, Weavable, Total, Chained, AfterFooter, EncodeRanges, Footer, Build, FramePieces, RangeBytes, Encrypted,
         Parse, FooterInBounds, Fitting;
    EncryptedUnfolds(aead, s, buffer);
    LengthSaysSo(aead, s, buffer);
    var (r, after) := Encrypted(aead, s, buffer);
    if FooterFits(s, |buffer|) {
      WrittenIsWire(aead, s, buffer);
      WireIsRead(aead, s, |buffer|);
      assert after[..r.size] == Sent(s, Seal(aead, s).value);
    }
    var l := LayoutOf(s.codec, s.frame);
    if Parse(after[..r.size]) == Some(Expected(l, s.nonce, Seal(aead, s).value)) {
      ParsedIsCounted(after[..r.size]);
      FooterLengthBounds(|buffer|, l.index, s.nonce, l.ranges);
    }
  }

  /** The size byte in what was written is that of the footer as it was counted. */
  lemma LengthSaysSo(aead: Aead, s: Sending, buffer: seq<byte>)
    requires aead.Correct() && Writes(s, |buffer|) && Seal(aead, s).Some?
    ensures var (r, after) := Encrypted(aead, s, buffer);
            var l := LayoutOf(s.codec, s.frame);
            var n := FooterLength(|buffer|, l.index, s.nonce, l.ranges);
            r == Ok(l.index + n) && 3 <= n && r.size <= |after| == |buffer| && after[r.size - 3] == n % 256
  {
    hide Weave, Weavable, Total, Chained, AfterFooter, EncodeRanges, Build, FramePieces, RangeBytes,
         Encrypted, Overwrite;
    EncryptedUnfolds(aead, s, buffer);
    var l := LayoutOf(s.codec, s.frame);
    var sealed := aead.seal(s.key, NonceBytes(s.nonce), l.plain, l.secret).value;
    var n := |l.secret|;
    var body := Woven(l.ranges, l.plain, sealed[..n]);
    AfterFooterSizeByte(Overwrite(buffer, 0, body), l.index, sealed[n..], s.nonce, l.ranges);
  }

  /** What parses has a footer no longer than its size byte says. */
  lemma ParsedIsCounted(frame: seq<byte>)
    requires Parse(frame).Some?
    ensures |frame| >= 3 && FooterSize(Parse(frame).value.nonce, Parse(frame).value.ranges) <= frame[|frame| - 3]
  {
    hide Cut, Chained, ParseFooter;
    ParsedFooterFits(frame);
    FooterHasSizeByte(frame);
  }

  lemma FooterHasSizeByte(frame: seq<byte>)
    requires ParseFooter(frame).Some?
    ensures |frame| >= 3
  {
  }

  lemma FooterLengthBounds(capacity: nat, at: nat, nonce: nat, ranges: seq<Range>)
    requires FooterInBounds(capacity, at, nonce, ranges)
    requires FooterSize(nonce, ranges) <= FooterLength(capacity, at, nonce, ranges) % 256
    ensures FooterSize(nonce, ranges) <= 255 && at + FooterSize(nonce, ranges) <= capacity
  {
    hide EncodeRanges, Fitting, Leb128.Encode;
  }

  /** The receiver's parser recovers tag, nonce, ranges, authenticated bytes and ciphertext exactly
      when the footer fits in 255 bytes, and then what it opens weaves into the processed frame. */
  lemma WireIsRead(aead: Aead, s: Sending, capacity: nat)
    requires aead.Correct() && Sendable(s, capacity)
    requires Seal(aead, s).Some?
    ensures var (l, sealed) := (LayoutOf(s.codec, s.frame), Seal(aead, s).value);
            var p := Expected(l, s.nonce, sealed);
            && CanWeave(l.ranges, |l.plain|, |l.secret|)
            && (Parse(Sent(s, sealed)) == Some(p) <==> FooterSize(s.nonce, l.ranges) <= 255)
            && aead.open(s.key, NonceBytes(s.nonce), p.authenticated, p.ciphertext + p.tag) == Some(l.secret)
            && Woven(p.ranges, p.authenticated, l.secret) == Processed(s.codec, s.frame)
  {
    hide Weave, Weavable, Total, Chained, EncodeRanges, Footer, Build, FramePieces, Parse;
    BuildDescribes(FramePieces(s.codec, s.frame));
    var l := LayoutOf(s.codec, s.frame);
    var sealed := aead.seal(s.key, NonceBytes(s.nonce), l.plain, l.secret).value;
    var n := |l.secret|;
    assert sealed[..n] + sealed[n..] == sealed;
    ChainedInWords(l.ranges, l.index);
    ParseWritten(sealed[n..], s.nonce, l.ranges, l.plain, sealed[..n]);
  }

  // ---------------------------------------------------------------------------------------
  // When the receiver accepts
  // ---------------------------------------------------------------------------------------

  /** Every cached key is what the ratchet gives for its generation. */
  ghost predicate KeysFromRatchet(m: Manager, ratchet: Ratchet) {
    forall g :: g in m.ciphers ==> m.ciphers[g].key == ratchet(g % 256)
  }

  lemma AttemptKeepsKeys(m: Manager, aead: Aead, ratchet: Ratchet, p: Parsed, now: int)
    requires KeysFromRatchet(m, ratchet) && p.nonce < TWO_32
    ensures KeysFromRatchet(Attempt(m, aead, ratchet, p, now).0, ratchet)
  {
    hide Report, WrappedGeneration, BigNonce, CanProcess, MaxGeneration, FirstCached, Deletions;
  }

  lemma {:induction false} AfterKeepsKeys(r: Receiver, ds: seq<Delivery>)
    requires Possible(r, ds)
    ensures KeysFromRatchet(After(r, ds), r.ratchet)
  {
    if ds != [] {
      hide Attempt, KeysFromRatchet;
      var before, d := ds[..|ds| - 1], ds[|ds| - 1];
      AfterKeepsKeys(r, before);
      AttemptKeepsKeys(After(r, before), r.aead, r.ratchet, d.frame, d.now);
    }
  }

  /** The gates of `get_cipher` for a generation that was not wrapped. */
  predicate InReach(m: Manager, generation: nat, now: int) {
    && Cleanup(m, now).oldest <= generation <= m.newest + 250
    && generation <= MaxGeneration(Age(m.created, now))
  }

  lemma CipherForIs(m: Manager, ratchet: Ratchet, generation: nat, now: int)
    requires KeysFromRatchet(m, ratchet) && ratchet(generation % 256) != []
    ensures CipherFor(m, ratchet, generation, now).1 ==
            if InReach(m, generation, now) then Some(ratchet(generation % 256)) else None
  {
    hide MaxGeneration, FirstCached;
  }

  lemma UnwrappedWhenYoung(m: Manager, nonce: nat, now: int)
    requires Inv(m) && Young(m.created, now) && nonce < TWO_32
    ensures var gen, g := nonce / GENERATION_UNIT, GenerationOf(m, nonce);
            && (InReach(m, gen, now) ==> g == gen && BigNonce(g, nonce) == nonce)
            && (InReach(m, g, now) ==> g == gen)
  {
    hide MaxGeneration, Cleanup, CallsInOrder;
    CleanupKeepsInv(m, now);
    YoungGenerations(Age(m.created, now));
    Unwrapped(m.oldest, nonce);
    WrappedGenerationIs(m.oldest, nonce / GENERATION_UNIT, nonce / GENERATION_UNIT);
  }

  /** The frame opens under the ratchet's key for its nonce. */
  predicate Genuine(r: Receiver, p: Parsed) {
    && p.nonce < TWO_32
    && var key := r.ratchet(p.nonce / GENERATION_UNIT);
       key != [] && r.aead.open(key, NonceBytes(p.nonce), p.authenticated, p.ciphertext + p.tag).Some?
  }

  /** A young receiver, after any schedule of deliveries, accepts such a frame exactly when its nonce is
      new to the set-based window and its generation is within reach; and then opens it with that key. */
  lemma GenuineAccepted(r: Receiver, ds: seq<Delivery>, p: Parsed, now: int)
    requires Possible(r, ds) && Young(r.created, now) && Genuine(r, p)
    ensures var plaintext := Attempt(After(r, ds), r.aead, r.ratchet, p, now).1;
            && (plaintext.Some? <==>
                  Acceptable(AcceptedBigs(r, ds), p.nonce) && InReach(After(r, ds), p.nonce / GENERATION_UNIT, now))
            && (plaintext.Some? ==>
                  var key := r.ratchet(p.nonce / GENERATION_UNIT);
                  plaintext == r.aead.open(key, NonceBytes(p.nonce), p.authenticated, p.ciphertext + p.tag))
  {
    hide CipherFor, InReach, Report, WrappedGeneration, BigNonce, CanProcess, Acceptable, Reports, AcceptedBigs, After,
         Inv, Young, KeysFromRatchet;
    var m := After(r, ds);
    AfterTracksAccepted(r, ds);
    AfterKeepsKeys(r, ds);
    UnwrappedWhenYoung(m, p.nonce, now);
    GenerationByte(m.oldest, p.nonce);
    CipherForIs(m, r.ratchet, GenerationOf(m, p.nonce), now);
    WindowRefinesSet(AcceptedBigs(r, ds), p.nonce);
  }

  /** A young receiver, after any schedule of deliveries, accepts a frame sealed under its own
      ratchet exactly when the nonce is new to the set-based window and its generation is within
      reach; and then it recovers the processed frame. */
  lemma EndToEnd(r: Receiver, ds: seq<Delivery>, s: Sending, capacity: nat, now: int)
    requires r.aead.Correct() && Possible(r, ds) && Young(r.created, now) && Sendable(s, capacity)
    requires s.key == r.ratchet(s.nonce / GENERATION_UNIT) != []
    requires Seal(r.aead, s).Some? && FooterSize(s.nonce, LayoutOf(s.codec, s.frame).ranges) <= 255
    ensures var (m, parsed) := (After(r, ds), Parse(Sent(s, Seal(r.aead, s).value)));
            && parsed.Some? && parsed.value.nonce == s.nonce
            && var plaintext := Attempt(m, r.aead, r.ratchet, parsed.value, now).1;
               && (plaintext.Some? <==>
                     Acceptable(AcceptedBigs(r, ds), s.nonce) && InReach(m, s.nonce / GENERATION_UNIT, now))
               && (plaintext.Some? ==>
                     && CanWeave(parsed.value.ranges, |parsed.value.authenticated|, |plaintext.value|)
                     && Woven(parsed.value.ranges, parsed.value.authenticated, plaintext.value)
                        == Processed(s.codec, s.frame))
  {
    hide Weave, Weavable, Total, Chained, EncodeRanges, Footer, Build, FramePieces, Parse, InReach, Attempt,
         Acceptable, AcceptedBigs, After, Young;
    WireIsRead(r.aead, s, capacity);
    GenuineAccepted(r, ds, Parse(Sent(s, Seal(r.aead, s).value)).value, now);
  }

  /** From buffer to buffer: a decryptor whose newest manager is such a receiver turns the sent bytes
      into the processed frame, whatever its other managers are and its output held before. */
  lemma SentIsDecrypted(r: Receiver, ds: seq<Delivery>, s: Sending, capacity: nat, now: int, passthrough: bool,
                        ratchets: seq<Ratchet>, ms: seq<Manager>, ms': seq<Manager>,
                        result: Decryptor.DecryptResult, before: seq<byte>, after: seq<byte>)
    requires r.aead.Correct() && Possible(r, ds) && Young(r.created, now) && Sendable(s, capacity)
    requires s.key == r.ratchet(s.nonce / GENERATION_UNIT) != []
    requires Seal(r.aead, s).Some? && FooterSize(s.nonce, LayoutOf(s.codec, s.frame).ranges) <= 255
    requires |ms| == |ratchets| > 0 && ratchets[|ms| - 1] == r.ratchet
    ensures var (sent, frame) := (Sent(s, Seal(r.aead, s).value), Processed(s.codec, s.frame));
            && ms[|ms| - 1] == After(r, ds)
            && Acceptable(AcceptedBigs(r, ds), s.nonce) && InReach(After(r, ds), s.nonce / GENERATION_UNIT, now)
            && Decryptor.Answers(Decryptor.ParsedVerdict(sent, passthrough), sent, now,
                                 r.aead, ratchets, ms, ms', result, before, after)
            && |frame| <= |before|
            ==> result == Decryptor.Ok(|frame|) && Decryptor.Copied(before, after, frame)
  {
    hide Weave, Weavable, Total, Chained, EncodeRanges, Footer, Build, FramePieces, Parse, InReach, Attempt, Processed,
         Acceptable, AcceptedBigs, After, Young, Decryptor.TryManagers;
    EndToEnd(r, ds, s, capacity, now);
    NotEmpty(s, capacity);
    var p := Parse(Sent(s, Seal(r.aead, s).value)).value;
    Decryptor.TryManagersUnfolds(r.aead, ratchets, ms, |ms|, p, now, |before|);
    SplitIsLossless(Sent(s, Seal(r.aead, s).value));
  }

  /** The bytes `encrypt` reports as written are taken for an encrypted frame. */
  lemma EncryptedIsTried(aead: Aead, s: Sending, buffer: seq<byte>, mediaType: Decryptor.MediaType, passthrough: bool)
    requires aead.Correct() && Writes(s, |buffer|) && |buffer| < TWO_64 && FooterFits(s, |buffer|)
    ensures var (sent, wire) := Encrypted(aead, s, buffer);
            && (sent.Ok? <==> Seal(aead, s).Some?)
            && (sent.Ok? ==>
                  && sent.size <= |wire| == |buffer| && wire[..sent.size] == Sent(s, Seal(aead, s).value)
                  && var v := Decryptor.VerdictOn(mediaType, wire[..sent.size], passthrough);
                     v.Try? && v == Decryptor.ParsedVerdict(wire[..sent.size], passthrough))
  {
    hide Weave, Weavable, Total, Chained, EncodeRanges, Footer, Build, FramePieces, Parse, Processed, Encrypted,
         RangeBytes, FooterInBounds, Wire, Outcome, Leb128.Encode;
    WrittenIsWire(aead, s, buffer);
    if Seal(aead, s).Some? {
      EncryptedIsRead(aead, s, buffer);
      ParsedIsLong(Encrypted(aead, s, buffer).1[..Encrypted(aead, s, buffer).0.size]);
    }
  }

  /** The answer of a decryptor whose newest manager is this receiver. */
  ghost predicate AnsweredBy(r: Receiver, ds: seq<Delivery>, v: Decryptor.Verdict, frame: seq<byte>, now: int,
                             result: Decryptor.DecryptResult, before: seq<byte>, after: seq<byte>)
    requires Possible(r, ds) && (v.Try? ==> v.frame.nonce < TWO_32)
  {
    exists ratchets: seq<Ratchet>, ms, ms' | |ms| == |ratchets| > 0 ::
      && ratchets[|ms| - 1] == r.ratchet && ms[|ms| - 1] == After(r, ds)
      && Decryptor.Answers(v, frame, now, r.aead, ratchets, ms, ms', result, before, after)
  }

  lemma AnsweredIs(r: Receiver, ds: seq<Delivery>, v: Decryptor.Verdict, frame: seq<byte>, now: int,
                   ratchets: seq<Ratchet>, was: seq<Manager>, ms': seq<Manager>,
                   result: Decryptor.DecryptResult, before: seq<byte>, after: seq<byte>)
    requires Possible(r, ds) && (v.Try? ==> v.frame.nonce < TWO_32) && 0 < |ratchets| <= |was|
    requires ratchets[|ratchets| - 1] == r.ratchet && was[|was| - 1] == After(r, ds)
    requires Decryptor.Answers(v, frame, now, r.aead, ratchets, was[|was| - |ratchets|..], ms', result, before, after)
    ensures AnsweredBy(r, ds, v, frame, now, result, before, after)
  {
    hide After, Decryptor.Answers;
    LastOfSuffix(was, was[|was| - |ratchets|..]);
  }

  /** And a decryptor whose newest manager is a young receiver with the sender's ratchet, to which the
      nonce is new and whose reach has its generation, answers with the processed frame. */
  lemma EncryptedIsDecrypted(r: Receiver, ds: seq<Delivery>, s: Sending, buffer: seq<byte>, now: int,
                             mediaType: Decryptor.MediaType, passthrough: bool,
                             result: Decryptor.DecryptResult, before: seq<byte>, after: seq<byte>)
    requires r.aead.Correct() && Possible(r, ds) && Young(r.created, now)
    requires Writes(s, |buffer|) && |buffer| < TWO_64 && FooterFits(s, |buffer|) && Seal(r.aead, s).Some?
    requires s.key == r.ratchet(s.nonce / GENERATION_UNIT)
    ensures var ((sent, wire), frame) := (Encrypted(r.aead, s, buffer), Processed(s.codec, s.frame));
            && sent.Ok? && sent.size <= |wire|
            && var v := Decryptor.VerdictOn(mediaType, wire[..sent.size], passthrough);
               && AnsweredBy(r, ds, v, wire[..sent.size], now, result, before, after)
               && Acceptable(AcceptedBigs(r, ds), s.nonce) && InReach(After(r, ds), s.nonce / GENERATION_UNIT, now)
               && |frame| <= |before|
               ==> result == Decryptor.Ok(|frame|) && Decryptor.Copied(before, after, frame)
  {
    hide Weave, Weavable, Total, Chained, EncodeRanges, Footer, Build, FramePieces, InReach, Attempt, Processed,
         Acceptable, AcceptedBigs, After, Young, Encrypted, RangeBytes, FooterInBounds, Decryptor.Answers, Wire,
         Decryptor.ParsedVerdict, Outcome, Leb128.Encode;
    EncryptedIsTried(r.aead, s, buffer, mediaType, passthrough);
    var (sent, wire) := Encrypted(r.aead, s, buffer);
    var v := Decryptor.VerdictOn(mediaType, wire[..sent.size], passthrough);
    if AnsweredBy(r, ds, v, wire[..sent.size], now, result, before, after) {
      var ratchets, ms, ms' :| |ms| == |ratchets| > 0 && ratchets[|ms| - 1] == r.ratchet &&
        ms[|ms| - 1] == After(r, ds) &&
        Decryptor.Answers(v, wire[..sent.size], now, r.aead, ratchets, ms, ms', result, before, after);
      SentIsDecrypted(r, ds, s, |buffer|, now, passthrough, ratchets, ms, ms', result, before, after);
    }
  }

  /** No silence packet parses. */
  lemma ParsedIsLong(frame: seq<byte>)
    requires Parse(frame).Some?
    ensures |frame| >= SUPPLEMENTAL_BYTES
  {
    hide Cut, Chained, DecodeRanges;
  }

  /** `encrypt` on the object, in the terms used here. */
  method Send(sender: Encryptor, ssrc: nat, frame: seq<byte>, wire: array<byte>, ghost s: Sending)
    returns (sent: EncryptResult)
    requires sender.Valid() && sender.aead.Correct() && wire.Length < TWO_64
    requires !sender.passthroughMode && sender.ratchet.Some?
    requires s == Sending(sender.CodecForSsrc(ssrc), frame, sender.NextKey(), sender.NextNonce())
    requires Writes(s, wire.Length)
    modifies sender`cryptor, sender`currentKeyGeneration, sender`truncatedNonce, sender`uses,
             sender.frameProcessor, wire
    ensures sender.Valid() && (sent, wire[..]) == Encrypted(sender.aead, s, old(wire[..]))
    ensures sender.uses == old(sender.uses) + [Use(s.key, s.nonce)]
  {
    hide Build, FramePieces, Processable, Describes, AfterFooter, EncodeRanges, Outcome, Processed,
         RangeBytes, Weavable,
         Total, FooterInBounds, Encrypted, InTurn;
    EncryptedUnfolds(sender.aead, s, wire[..]);
    sent := sender.Encrypt(ssrc, frame, wire);
  }

  /** The newest manager is this receiver, after these deliveries, and has not expired. */
  ghost predicate Newest(receiver: Decryptor.Decryptor, r: Receiver, ds: seq<Delivery>, now: int)
    requires Possible(r, ds)
    reads receiver, receiver.managers
  {
    && r.aead == receiver.aead && receiver.managers != []
    && var newest := receiver.managers[|receiver.managers| - 1];
    newest.View() == After(r, ds) && newest.ratchet == r.ratchet && !newest.IsExpired(now)
  }

  /** `decrypt` on the object, in the terms used here. */
  method Receive(receiver: Decryptor.Decryptor, mediaType: Decryptor.MediaType, frame: seq<byte>, out: array<byte>,
                 now: int, ghost r: Receiver, ghost ds: seq<Delivery>)
    returns (result: Decryptor.DecryptResult)
    requires receiver.Valid() && r.aead.Correct() && Possible(r, ds) && Newest(receiver, r, ds, now)
    requires |frame| < TWO_64 && Decryptor.VerdictOn(mediaType, frame, receiver.CanPassthrough(now)).Try?
    requires forall m :: m in receiver.managers ==> ClockInRange(m.creationTime, now)
    modifies receiver`managers, receiver.managers, out
    ensures receiver.Valid()
    ensures AnsweredBy(r, ds, Decryptor.VerdictOn(mediaType, frame, old(receiver.CanPassthrough(now))), frame, now,
                       result, old(out[..]), out[..])
  {
    hide After, Decryptor.VerdictOn, Decryptor.Answers, Inv, Decryptor.Decryptor.Views, Decryptor.Decryptor.Valid,
         Decryptor.Decryptor.Expiries, Decryptor.NotPast, Decryptor.RatchetsOf, ClockInRange, AnsweredBy,
         Decryptor.IsSilence, Decryptor.AnswersPlain, Decryptor.Decryptor.Ratchets;
    ghost var (managers, views, expiries) := (receiver.managers, receiver.Views(), receiver.Expiries());
    receiver.OfNewest(now);
    Decryptor.NotPastKeepsLast(expiries, now);
    result := receiver.Decrypt(mediaType, frame, out, now);
    receiver.OfManagers();
    receiver.OfNewest(now);
    LastOfSuffix(managers, receiver.managers);
    AnsweredIs(r, ds, Decryptor.VerdictOn(mediaType, frame, receiver.CanPassthrough(now)), frame, now,
               receiver.Ratchets(), views, receiver.Views(), result, old(out[..]), out[..]);
  }

  /** One frame through both objects, which share a ratchet.  The receiver is young, the nonce is new to
      it and the generation within its reach; then its output is the processed frame. */
  method Relay(sender: Encryptor, receiver: Decryptor.Decryptor, mediaType: Decryptor.MediaType, ssrc: nat,
               frame: seq<byte>, wire: array<byte>, out: array<byte>, now: int,
               ghost r: Receiver, ghost ds: seq<Delivery>, ghost s: Sending)
    returns (sent: EncryptResult, received: Option<Decryptor.DecryptResult>)
    requires sender.Valid() && receiver.Valid() && wire != out && wire.Length < TWO_64
    requires r.aead == sender.aead && r.aead.Correct() && Possible(r, ds) && Young(r.created, now)
    requires !sender.passthroughMode && sender.ratchet == Some(r.ratchet) && Newest(receiver, r, ds, now)
    requires s == Sending(sender.CodecForSsrc(ssrc), frame, sender.NextKey(), sender.NextNonce())
    requires Writes(s, wire.Length) && FooterFits(s, wire.Length)
    requires forall m :: m in receiver.managers ==> ClockInRange(m.creationTime, now)
    modifies sender, sender.frameProcessor, wire, receiver, receiver.managers, out
    ensures sender.Valid() && receiver.Valid() && sent.Ok? == received.Some? == Seal(r.aead, s).Some?
    ensures received.Some? && |Processed(s.codec, s.frame)| <= out.Length &&
            Acceptable(AcceptedBigs(r, ds), s.nonce) && InReach(After(r, ds), s.nonce / GENERATION_UNIT, now) ==>
              && received.value == Decryptor.Ok(|Processed(s.codec, s.frame)|)
              && Decryptor.Copied(old(out[..]), out[..], Processed(s.codec, s.frame))
  {
    hide Build, FramePieces, Processable, AfterFooter, EncodeRanges, Outcome, Processed, RangeBytes, InReach, Young,
         FooterInBounds, Encrypted, After, AcceptedBigs, Acceptable, Inv, Newest, Decryptor.VerdictOn, FooterFits,
         AnsweredBy, Decryptor.Decryptor.Valid, Encryptor.Valid, Seal, Sent, Writes, ClockInRange, Decryptor.Copied;
    ghost var was := wire[..];
    sent := Send(sender, ssrc, frame, wire, s);
    EncryptedIsTried(r.aead, s, was, mediaType, receiver.CanPassthrough(now));
    if sent.Err? { return sent, None; }
    var result := Receive(receiver, mediaType, wire[..sent.size], out, now, r, ds);
    EncryptedIsDecrypted(r, ds, s, was, now, mediaType, old(receiver.CanPassthrough(now)),
                         result, old(out[..]), out[..]);
    return sent, Some(result);
  }

  lemma NotEmpty(s: Sending, capacity: nat)
    requires Sendable(s, capacity)
    ensures Processed(s.codec, s.frame) != []
  {
    BuildDescribes(FramePieces(s.codec, s.frame));
  }

  lemma GenerationByte(oldest: nat, nonce: nat)
    requires nonce < TWO_32
    ensures WrappedGeneration(oldest, nonce / GENERATION_UNIT) % 256 == nonce / GENERATION_UNIT
  {
  }

  // ---------------------------------------------------------------------------------------
  // Buffer sizes
  // ---------------------------------------------------------------------------------------

  lemma SmallEncodings(n: nat)
    ensures n < 128 ==> |Leb128.Encode(n)| == 1
    ensures n < TWO_32 ==> |Leb128.Encode(n)| <= 5
  {
    if n < TWO_32 {
      Leb128.EncodeMonotonic(n, TWO_32 - 1);
      assert |Leb128.Encode(15)| == 1;
      assert |Leb128.Encode(0x7FF)| == 2;
      assert |Leb128.Encode(0x3_FFFF)| == 3;
      assert |Leb128.Encode(0x1FF_FFFF)| == 4;
      assert |Leb128.Encode(0xFFFF_FFFF)| == 5;
    }
  }

  /** For Opus, VP9, VP8 and unknown codecs, a buffer of the advertised size always holds body and
      footer, and the footer always fits in 255 bytes. */
  lemma MaxSizeSuffices(codec: Codec, frame: seq<byte>, nonce: nat)
    requires Processable(codec, frame) && KeepsFrame(codec) && nonce < TWO_32
    ensures var l := LayoutOf(codec, frame);
            && l.index + FooterSize(nonce, l.ranges) <= MaxCiphertextByteSize(|frame|)
            && FooterSize(nonce, l.ranges) <= 255
  {
    hide Build, FramePieces, Leb128.Encode;
    KeptFrame(codec, frame);
    BuildDescribes(FramePieces(codec, frame));
    SmallEncodings(nonce);
    SmallEncodings(0);
    SmallEncodings(1);
    SmallEncodings(10);
    var ranges := LayoutOf(codec, frame).ranges;
    if ranges != [] {
      assert ranges[1..] == [];
      assert EncodeRanges(ranges) == EncodeRange(ranges[0]) + [];
    }
  }
}
