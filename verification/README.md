# Verified models of ekizu's hard parts

ekizu is a C++ library for the Discord API.  This project models, in Dafny 4.11, the parts of it whose
correctness rests on arithmetic, buffers, history or interleaving, and proves what they are for:

- **The DAVE frame pipeline** (`src/dave`).  An outbound processor cuts a media frame into plaintext ranges
  and bytes to encrypt, codec by codec; the encryptor interleaves them again after sealing and appends a footer
  (tag, LEB128 nonce, LEB128 ranges, size byte, marker); the inbound side reads the footer from the end, checks
  the ranges, splits, decrypts and rebuilds.  Parser and printer are inverse, splitting is lossless for every
  accepted byte string, the codec rewrites keep the meaning of the frame, and a receiver recovers exactly the
  processed frame.  Which bytes are encrypted and which stay in the clear is told from the frame itself.
- **Nonce window, cipher generations and manager queue** (`CipherManager`, `Decryptor`).  A 32-bit nonce is
  widened by wrap arithmetic, a deque of missing nonces implements a sliding window, ciphers expire behind an
  advancing generation.  The window is an exact refinement of a set, and no nonce is accepted twice on any
  schedule of late, repeated and lost frames, for one manager and for a decryptor whose managers come and go.
- **`LruCache`**.  List and map agree with each other and with a plain recency list, what is evicted is the least
  recently used key, and a smaller cache always holds a subsequence of a larger one.
- **Two queue protocols**: the UDP receive queue over all interleavings of its locked regions, and the rate
  limiter over all runs of its strand.  Conservation, exactly-once completion, order, a single outstanding
  operation, shutdown, and no stuck state.
- **The roster diff** (`Session::replace_state`): two merge-style set differences give a patch, and the patches
  telescope over any run.

Code that changes state is modelled by classes and methods with loops (`array` buffers where the source writes
into spans), each proved against a function on values; the theorems over runs are lemmas about those functions.
`hide` statements keep unneeded definitions away from the solver.

| module | models |
|---|---|
| `Bytes`, `Sequences`, `Leb128`, `Ranges`, `Interleaving` | bytes, LEB128, range lists, cutting and weaving |
| `OutboundFrame`, `InboundFrame` | the two frame processors |
| `NalScanner`, `H26x`, `AnnexB`, `AnnexBCases` | start codes, the H.264 and H.265 processors, what normalisation preserves, and when it does not |
| `Av1`, `Codecs`, `Sealing` | the AV1 rewrite; VP8 and the dispatch over codecs; which bytes of a frame are encrypted |
| `Crypto`, `Encryptor`, `Pipeline`, `RangeCount`, `FooterGrowth` | AEAD and ratchet as functions, the encryptor, both ends together, and how much is added to a frame |
| `NonceWindow`, `CipherManager`, `Acceptance`, `Decryptor`, `DecryptorRuns`, `Availability` | window, generations, schedules, the decryptor and its runs, and what is sure to be accepted |
| `LruCache`, `CacheContents` | the cache, and what it answers |
| `UdpReceive`, `UdpOutcomes` | the UDP receive queue, and why an operation completes as it does |
| `RateLimitHeaders`, `RateLimiter`, `Throttling`, `RateLimiterStrand` | the rate limit headers, the rate limiter as a step system, what a reply means for later requests, and the limiter as the object on its strand |
| `Roster` | the roster diff |

Some promises turn out to hold only under a condition.  Each has an input for which it fails, and, except where
stated, the condition is proved to be exact, for all inputs:

- The rate limiter keeps every request, starts the next one and completes all of them if and only if no reply arrives
  whose three rate limit headers are there but do not all begin with a number in range (`RateLimiter.EveryRunKeepsAll`,
  `RateLimiter.EveryRunFinishes`, `RateLimiter.NeverStuck`).  Reading such headers throws inside the reply handler,
  which takes the request with it and leaves the limiter busy: in `RateLimiter.NotANumber`, with
  `X-RateLimit-Remaining: x`.  Until shutdown nothing is sent any more (`RateLimiter.BlockedForGood`).
- After `LruCache::put`, list and map agree if and only if the key that is forwarded into the list still has its value
  when it is forwarded into the map (`LruCache.UpdatedAgrees`); an rvalue `std::string` has not
  (`LruCache.MovedStringKey`).  `emplace` copies first and always keeps them in agreement.
- Reading an AV1 frame back after the rewrite gives its OBUs if and only if the frame does not end in a kept OBU
  without payload (`Av1.RewritePreservesMeaning`; the frame `0A 00` in `Av1.EmptyLastObuIsLost`).
- What the encryptor reports as written parses into what was sealed if and only if the whole footer fits, in the
  buffer and in the 255 bytes that its size byte can express (`Pipeline.EncryptedIsRead`).
- Whether it fits can be told from the frame: the ranges are the runs of plaintext that its OBUs or NAL units leave
  (`RangeCount.RunsAreRanges`), and each takes two bytes at least, exactly two when the processed frame is shorter than
  2^7 bytes, and four at most below 2^14 (`FooterGrowth.FooterMeasured`).  So the test is exact below 2^7 bytes, and
  above there is a gap between the two bounds.  Every AV1 frame with 122 sealed OBUs has a footer that is too long
  (`FooterGrowth.Av1FooterTooLong`), one with 13 at most fits in 255 bytes and in a buffer of the advertised size
  (`FooterGrowth.Av1FewObusFit`), as does one of 11 NAL units at most (`FooterGrowth.FewUnitsFit`).  Opus, VP8 and VP9
  always fit (`Pipeline.MaxSizeSuffices`).  With 33 OBUs of one byte the writes leave a buffer of the advertised size
  (`FooterGrowth.AdvertisedSizeOverrun`).
- Scanning a normalised H.264 or H.265 frame finds the units of the frame if and only if the last of them has two bytes
  at least (`AnnexB.RescanFindsSameUnits`; the frame `00 00 01 67 00 00 01 68` in `AnnexBCases.ShortLastUnitIsLost`).
- A normalised frame can be processed again if and only if every H.264 slice in which no plaintext header was found has
  none in the emitted frame either; and then it stays as it is if and only if its last unit has two bytes at least, or
  is empty behind others (`AnnexB.ProcessingTwice`).  The search for the header runs on into the units behind the
  slice, whose start codes have become longer; in `AnnexBCases.NotProcessableAgain` it then succeeds, behind the end of
  a slice of one byte.  For H.265 the first condition falls away (`AnnexB.H265ProcessingTwice`).
- A genuine frame is accepted if and only if its nonce is new to the window and its generation within reach
  (`Pipeline.GenuineAccepted`), which holds for every frame received in order with losses only
  (`Availability.InOrderAllAccepted`), as long as the sender's generation is not ahead of the receiver's count of 170
  frames for every full second.  To send at 170 frames a second is not enough
  (`Availability.PaceCountsFullSeconds`).
- The change maps of a run give the current roster if and only if no user's last basic leaf has an empty signature key
  (`Roster.Telescopes`; `Roster.EmptyKeyIsNotSeen`), since an empty key is also how a removal is reported.

## Model

| member | source | states |
|---|---|---|
| `Leb128.DecodeEncode64` | src/dave/leb128.cpp:14-47 | reading what was written for any 64-bit value, whatever follows, gives the value and consumes exactly what was written, ten bytes at most |
| `Leb128.DecodeNotShorter` | src/dave/leb128.cpp:14-35 | no accepted encoding is shorter than the written one of the same value |
| `Leb128.DecodeLocal` | src/dave/leb128.cpp:14-35 | a reader's answer does not depend on bytes behind those it consumes |
| `Leb128.Size` | src/dave/leb128.cpp:5-12 | the size computed in advance is the number of bytes written, ten at most |
| `Leb128.Read` | src/dave/leb128.cpp:14-35 | the shifting loop computes the decoding, and fails exactly when there is none |
| `Leb128.Write` | src/dave/leb128.cpp:37-47 | the loop writes the encoding at its place and leaves the rest of the buffer |
| `Leb128.EncodeIs` | src/dave/leb128.cpp:37-47 | the written bytes are the groups of seven bits of the value, least significant first, each but the last marked by its top bit |
| `Ranges.DecodeEncodeRanges` | src/dave/frame_processors.cpp:30-65 | every list of 64-bit ranges comes back from its encoding |
| `Ranges.DecodedRangesNotShorter` | src/dave/frame_processors.cpp:44-65 | an accepted range list is at least as long as the same list written again, and its numbers fit in 64 bits |
| `Ranges.FittingIsAll` | src/dave/frame_processors.cpp:30-42 | serialising loses no range exactly when the whole encoding fits in the buffer |
| `Ranges.Serialize` | src/dave/frame_processors.cpp:30-42 | the loop writes the encoding of the ranges that fit; the count it returns is taken modulo 256 |
| `Ranges.Deserialize` | src/dave/frame_processors.cpp:44-65 | the loop gives the decoded list, and nothing when any part is malformed |
| `Ranges.EachBeforeNextIsChained` | src/dave/frame_processors.cpp:67-86 | the test of neighbours is equivalent to lying in order, apart and inside the frame |
| `Ranges.Validate` | src/dave/frame_processors.cpp:67-86 | accepts exactly the lists that lie in order inside the frame, overflow included |
| `Ranges.CheckedAdd` | src/dave/buffer_utils.hpp:99-103 | the test against the largest word gives the true sum when it fits in 64 bits, and none otherwise |
| `Ranges.Reconstruct` | src/dave/frame_processors.cpp:88-126 | the three-index loop writes the interleaving of the two buffers, exactly as many bytes as they have, never outside source or output |
| `Interleaving.WeaveCut` | src/dave/frame_processors.cpp:88-126 | interleaving the parts of any frame cut at valid ranges gives the frame back, as far as it was cut |
| `Interleaving.CutWeaveFrom` | src/dave/frame_processors.cpp:201-216 | cutting an interleaved frame at its ranges gives back both buffers |
| `Interleaving.AddKeepsDescribing` | src/dave/frame_processors.cpp:307-329 | one more piece extends the described frame by that piece; ranges stay sorted, apart and sum to the plaintext |
| `Interleaving.BuildDescribes` | src/dave/frame_processors.cpp:298-329 | after any sequence of calls, reconstruction gives all pieces in call order; the ranges are sorted, separated by a byte at least, and sum to the unencrypted bytes |
| `OutboundFrame.OutboundFrameProcessor.Reset` | src/dave/frame_processors.cpp:248-254 | forgets all pieces |
| `OutboundFrame.OutboundFrameProcessor.AddUnencryptedBytes` | src/dave/frame_processors.cpp:307-322 | the fields are the layout of the calls so far with a plain piece added |
| `OutboundFrame.OutboundFrameProcessor.AddEncryptedBytes` | src/dave/frame_processors.cpp:324-329 | the fields are the layout of the calls so far with a secret piece added |
| `OutboundFrame.OutboundFrameProcessor.ReconstructFrame` | src/dave/frame_processors.cpp:298-305 | writes the interleaving of plaintext and ciphertext, as long as all pieces together, or nothing when it does not fit |
| `InboundFrame.ParseFooterWritten` | src/dave/frame_processors.cpp:139-187 | a footer of 255 bytes at most is found behind any body and read as written |
| `InboundFrame.ParsedFooterFits` | src/dave/frame_processors.cpp:152-187 | of any byte string: nonce and ranges read from a footer take, written out again, no more than its size byte says |
| `InboundFrame.FooterBytes` | src/dave/encryptor.cpp:132-160 | a footer is eight bytes of tag, nonce and ranges, its own length in a byte, and `FA FA` |
| `InboundFrame.ParsedIsMarked` | src/dave/frame_processors.cpp:139-170 | only a frame that ends in `FA FA`, behind a length of 11 at least that lies inside it, is read, and the tag is found by that length |
| `InboundFrame.AcceptsExactly` | src/dave/frame_processors.cpp:189-193 | a frame whose footer can be read is taken exactly when each range ends before the next begins and the last inside the frame |
| `InboundFrame.ParseWritten` | src/dave/frame_processors.cpp:139-224 | a body with a full footer parses into tag, nonce, ranges, authenticated bytes and ciphertext if and only if the footer fits in 255 bytes |
| `InboundFrame.SplitIsLossless` | src/dave/frame_processors.cpp:189-236 | for every accepted byte string, interleaving the two buffers gives the frame up to the footer or to the end of a last range reaching into it |
| `InboundFrame.InboundFrameProcessor.ParseFrame` | src/dave/frame_processors.cpp:139-224 | marks a frame as encrypted exactly when it parses, with the parsed parts, in a state from which reconstruction is in bounds |
| `InboundFrame.InboundFrameProcessor.ReadFooter` | src/dave/frame_processors.cpp:142-187 | the reading part gives tag, nonce and ranges, and every early return |
| `InboundFrame.InboundFrameProcessor.Split` | src/dave/frame_processors.cpp:201-216 | the loop distributes the frame over the two buffers as the cut says |
| `InboundFrame.InboundFrameProcessor.ReconstructFrame` | src/dave/frame_processors.cpp:226-236 | writes exactly the two buffers' bytes, interleaved, or nothing |
| `NalScanner.NextNaluIndex` | src/dave/codec_utils.cpp:72-113 | the scan by threes gives what the naive search for 0, 0, 1 gives |
| `NalScanner.NextCodeSize` | src/dave/codec_utils.cpp:90-103 | four bytes are reported exactly when the byte before the three is 0 |
| `NalScanner.NextFromNalu` | src/dave/codec_utils.cpp:194-199 | a unit begins right behind a start code, and the boundary found from there never lies before it |
| `H26x.BytesCoveringH264Pps` | src/dave/codec_utils.cpp:10-65 | the bit loop ends, with the result of the walk, below 2^16 |
| `H26x.CoversThreeCodes` | src/dave/codec_utils.cpp:19-64 | without emulation prevention bytes the result reaches to the end of the first three exponential Golomb codes, and is 0 for a code of 32 zero bits or a result of 16 bits |
| `H26x.CoverLocal` | src/dave/codec_utils.cpp:10-65 | a result inside the first m bytes does not depend on anything behind them |
| `H26x.BitsFromTheLeft` | src/dave/codec_utils.cpp:40-40 | the walk counts the bits of a byte from the most significant one |
| `H26x.SkipsEmulationPrevention` | src/dave/codec_utils.cpp:29-38 | a byte 3 behind two zeros is skipped as a whole, where the walk is at its first bit, and no other byte is |
| `H26x.Process` | src/dave/codec_utils.cpp:160-287 | the loop over units adds, for each, a long start code, its plaintext header and its payload; which bytes those are is in `Sealing.UnitsSplit` |
| `H26x.AddUnit` | src/dave/codec_utils.cpp:201-222 | the pieces of one unit, whose encrypted bytes are those that `Sealing.UnitSplits` names by its type |
| `H26x.EmittedIsRendered` | src/dave/codec_utils.cpp:160-287 | the emitted bytes are a four-byte start code before each unit the naive scan finds, in order |
| `AnnexB.RescanFindsSameUnits` | src/dave/codec_utils.cpp:180-224 | scanning the emitted bytes finds the same units if and only if the last has two bytes at least |
| `AnnexB.FrameIsItsUnits` | src/dave/codec_utils.cpp:180-224 | a frame that begins with a start code and does not end in a one-byte unit is its units behind start codes: nothing else is lost |
| `AnnexB.RescanFinds` | src/dave/codec_utils.cpp:72-113 | exactly which units a scan of the emitted bytes finds, for every frame |
| `AnnexBCases.ShortLastUnitIsLost` | src/dave/codec_utils.cpp:180-181 | a frame of two one-byte units whose output has no unit that is found again |
| `AnnexB.FitsAgain` | src/dave/codec_utils.cpp:201-217 | the plaintext headers of the emitted frame fit if and only if no H.264 slice without a header gains one in it, whatever the last unit is |
| `AnnexB.ProcessingTwice` | src/dave/codec_utils.cpp:160-287 | for every frame, when its output can be processed again, exactly, and when that changes no byte, exactly |
| `AnnexB.H265ProcessingTwice` | src/dave/codec_utils.cpp:229-287 | every H.265 output with a unit can be processed again, and stays as it is exactly when its last unit does not get lost |
| `AnnexBCases.NotProcessableAgain` | src/dave/codec_utils.cpp:201-217 | an H.264 frame with fitting headers whose output has a header longer than its unit |
| `Av1.RewritePreservesMeaning` | src/dave/codec_utils.cpp:289-382 | re-reading the emitted bytes gives the OBUs of the frame minus types 2, 8 and 15, in order, with header bits, extension and payload, if and only if the frame does not end in a kept OBU without payload |
| `Av1.EmptyLastObuIsLost` | src/dave/codec_utils.cpp:315-349 | a two-byte frame for which it fails |
| `Av1.ReadAllReadable` | src/dave/codec_utils.cpp:361-373 | what is written for an accepted frame is never longer than the frame |
| `Av1.ReadAllWritten` | src/dave/codec_utils.cpp:300-380 | reading a written OBU list back, with the exact failure case |
| `Av1.EmittedIsWritten` | src/dave/codec_utils.cpp:338-378 | the bytes handed to the processor are the written list |
| `Av1.ReadObu` | src/dave/codec_utils.cpp:301-336 | header, extension, size and payload of one OBU, with `size_t` index arithmetic, and every failure |
| `Av1.ReadableFits` | src/dave/codec_utils.cpp:300-336 | on every frame that is read to its end no index of the scan wraps |
| `Av1.LargestSizeWraps` | src/dave/codec_utils.cpp:317-336 | a frame whose index sum wraps to an index inside it, so that the test for the end of its payload passes |
| `Av1.EmitObu` | src/dave/codec_utils.cpp:338-378 | the calls made for one kept OBU |
| `Av1.Process` | src/dave/codec_utils.cpp:289-382 | the loop adds the pieces of every kept OBU, or gives up exactly when the frame is malformed |
| `Codecs.ProcessVp8` | src/dave/codec_utils.cpp:121-150 | ten bytes of a key frame and one of a delta frame stay in the clear |
| `Codecs.ProcessFrame` | src/dave/frame_processors.cpp:256-296 | the pieces are those of the codec, or the whole frame encrypted when the codec gives up |
| `Codecs.KeptFrame` | src/dave/codec_utils.cpp:115-158 | Opus, VP8, VP9 and unknown frames pass unchanged, with at most one range, at the front |
| `Codecs.Av1NotLonger` | src/dave/codec_utils.cpp:289-382 | a processed AV1 frame is never longer than the frame |
| `Sealing.UnitsSplit` | src/dave/codec_utils.cpp:181-285 | which bytes of each visited unit are encrypted: of H.264 types 1 and 5 those behind the header byte and the search for the parameter set, of H.265 types 0 to 31 those behind two bytes, of others none |
| `Sealing.UnitSplits` | src/dave/codec_utils.cpp:201-222 | the same for one unit |
| `Sealing.ObuHeaderBits` | src/dave/codec_utils.cpp:301-309 | type, extension and size bit of an OBU header, the three types that are dropped, and the header without its size bit |
| `Sealing.ObusSplit` | src/dave/codec_utils.cpp:338-378 | of an AV1 frame exactly the payloads of the kept OBUs are encrypted; headers, extensions and sizes stay in the clear |
| `Sealing.FrameIsSealed` | src/dave/frame_processors.cpp:256-329 | for every processable frame of every codec: exactly the bytes named by the frame itself go to the cipher, in order, and exactly the others stay in the clear |
| `Crypto.NonceBytesInjective` | src/dave/encryptor.cpp:89-93 | different truncated nonces give different AEAD nonces |
| `Crypto.NonceBytesAre` | src/dave/encryptor.cpp:89-93 | the AEAD nonce is eight zeros and the truncated nonce, least significant byte first |
| `Encryptor.AfterShortFooter` | src/dave/encryptor.cpp:132-160 | when the buffer holds it and its range list takes less than 256 bytes, what is written behind the body is the footer |
| `Encryptor.WriteFooter` | src/dave/encryptor.cpp:132-160 | the five writes and the advancing offset, for every buffer in which they stay in bounds: ranges that do not fit are dropped, and their count of bytes is kept in 8 bits |
| `Encryptor.Encryptor.SetKeyRatchet` | src/dave/encryptor.cpp:11-25 | a new ratchet has sealed nothing and starts from nonce 0 without a cipher |
| `Encryptor.Encryptor.AdvanceNonceAndKey` | src/dave/encryptor.cpp:72-87 | the cipher in hand is always the ratchet's for the top byte of the nonce in use; a refused key leaves the cipher as it was |
| `Encryptor.SealedAlike` | src/dave/encryptor.cpp:72-87 | of the frames sealed since the ratchet was set, over any run of calls, two share key and nonce if and only if a multiple of 2^32 lies between them |
| `Encryptor.OutcomeFails` | src/dave/encryptor.cpp:72-136 | each failure has its cause, and leaves the output buffer as it was |
| `Encryptor.Encryptor.AssignSsrcToCodec` | src/dave/encryptor.cpp:36-43 | that source has the codec from then on, and no other one changes |
| `Encryptor.Encryptor.SealAndWrite` | src/dave/encryptor.cpp:95-160 | ciphertext, body and footer in the buffer, and each failure |
| `Encryptor.Encryptor.Encrypt` | src/dave/encryptor.cpp:45-163 | passthrough, missing ratchet, refused key, failed seal, buffer too small, and the bytes written, for a layout that describes the processed frame, under the ratchet's key for the next nonce |
| `Pipeline.EncryptedIsRead` | src/dave/encryptor.cpp:126-163 | for every frame and every buffer in which the writes stay in bounds, what is reported as written parses into what was sealed if and only if the whole footer fits in the buffer and in 255 bytes |
| `Pipeline.WireIsRead` | src/dave/frame_processors.cpp:139-236 | body and full footer, for any processed frame, parse into what was sealed if and only if the footer fits in 255 bytes; opening and weaving give the processed frame |
| `Pipeline.GenuineAccepted` | src/dave/decryptor.cpp:137-175 | after any schedule, a young receiver accepts a frame that opens under the key of its nonce if and only if the nonce is acceptable to the set-based window and the generation within reach |
| `Pipeline.EndToEnd` | src/dave/decryptor.cpp:125-183 | after any schedule, a young receiver accepts a frame sealed under its ratchet if and only if its nonce is acceptable to the set-based window and its generation within reach, and then recovers the processed frame |
| `Pipeline.SentIsDecrypted` | src/dave/decryptor.cpp:79-118 | a decryptor whose newest manager is such a receiver turns the sent bytes into the processed frame in its output, whatever its other managers are |
| `Pipeline.EncryptedIsDecrypted` | src/dave/decryptor.cpp:51-123 | the bytes the encryptor reports as written, given to such a decryptor, come out as the processed frame |
| `Pipeline.Relay` | src/dave/encryptor.cpp:45-163 | one frame through both objects, from their contracts alone: encrypted with the sender's next key and nonce and decrypted by the receiver, it is the processed frame |
| `Pipeline.CipherForIs` | src/dave/cipher_manager.hpp:126-160 | the cipher found is the ratchet's for that generation exactly when the generation is within reach |
| `Pipeline.MaxSizeSuffices` | src/dave/encryptor.cpp:165-169 | for Opus, VP8, VP9 and unknown codecs a buffer of the advertised size holds body and footer, and the footer fits in 255 bytes |
| `RangeCount.ObusCount` | src/dave/codec_utils.cpp:338-378 | an AV1 frame leaves one run of plaintext for each kept OBU with payload, and one for what stands behind the last of them |
| `RangeCount.UnitsCount` | src/dave/codec_utils.cpp:181-224 | an H.264 or H.265 frame leaves one for each visited unit of which something is encrypted, and one for what stands behind the last of them |
| `RangeCount.RunsAreRanges` | src/dave/frame_processors.cpp:307-322 | for every codec the layout has exactly as many ranges |
| `FooterGrowth.ProcessedLengthIs` | src/dave/codec_utils.cpp:160-382 | the length of the processed frame, counted on the frame: bytes saved by the AV1 rewrite, four bytes before each visited NAL unit |
| `FooterGrowth.FooterMeasured` | src/dave/encryptor.cpp:138-160 | bounds of the footer from the runs of plaintext in the frame, exact for short frames |
| `FooterGrowth.AdvertisedSize` | src/dave/encryptor.cpp:165-169 | when a buffer of the advertised size holds body and footer, from runs, saved bytes and nonce: a sufficient and a necessary condition, the same for short frames |
| `FooterGrowth.FooterLimit` | src/dave/encryptor.cpp:148-156 | the same for the 255 bytes of the size byte |
| `FooterGrowth.Av1FooterTooLong` | src/dave/encryptor.cpp:148-156 | every AV1 frame with 122 kept OBUs with payload or more has a footer longer than its size byte can express |
| `FooterGrowth.Av1AdvertisedTooSmall` | src/dave/encryptor.cpp:165-169 | every AV1 frame with so many of them that two bytes each and the nonce exceed 64 bytes and what the rewrite saves does not fit in the advertised size |
| `FooterGrowth.Av1FewObusFit` | src/dave/encryptor.cpp:165-169 | every AV1 frame below 2^14 bytes with 13 of them at most fits in the advertised size, and its footer in 255 bytes |
| `FooterGrowth.FewUnitsFit` | src/dave/encryptor.cpp:165-169 | every H.264 or H.265 frame below 2^14 bytes with 11 visited units at most does, too |
| `FooterGrowth.SmallFrameMeasured` | src/dave/codec_utils.cpp:300-379 | n OBUs of one payload byte leave n runs of plaintext, for every n |
| `FooterGrowth.AdvertisedSizeOverrun` | src/dave/encryptor.cpp:143-160 | with 33 such OBUs and the first nonce, size byte and marker do not fit behind the ranges in a buffer of the advertised size |
| `NonceWindow.ReportsExact` | src/dave/cipher_manager.hpp:72-106 | in every reachable state the deque is strictly increasing, has 1000 entries at most, and holds exactly the nonces above the first, at most 1000 behind the newest and not processed |
| `NonceWindow.WindowRefinesSet` | src/dave/cipher_manager.hpp:54-67 | the deque decides as the set-based window does, and never lets a processed nonce through |
| `NonceWindow.ReportKeepsExact` | src/dave/cipher_manager.hpp:72-106 | one report keeps the deque exact |
| `CipherManager.WrappedGenerationIs` | src/dave/cipher_manager.hpp:19-24 | the wrapped generation is the only one from the oldest on, within 256, with the given low byte |
| `CipherManager.BigNonceSplits` | src/dave/cipher_manager.hpp:29-34 | a full nonce determines generation and low 24 bits |
| `CipherManager.CleanupKeepsInv` | src/dave/cipher_manager.hpp:196-212 | cleanup keeps the generation invariant, moves the oldest generation only forwards and never evicts the newest cipher |
| `CipherManager.CipherForKeepsInv` | src/dave/cipher_manager.hpp:126-160 | oldest at most newest, cached generations at or above the oldest, infinite expiry exactly from the newest on, and no key asked for after its deletion |
| `CipherManager.ReportSuccessKeepsInv` | src/dave/cipher_manager.hpp:72-121 | the same is kept when a success is reported |
| `CipherManager.RetiredLivesTenSeconds` | src/dave/cipher_manager.hpp:110-121 | a cipher without expiry that a report leaves behind the newest generation is kept up to 10 000 000 000 nanoseconds after it, and evicted afterwards |
| `CipherManager.FirstCachedLives` | src/dave/cipher_manager.hpp:144-157 | a cipher first asked for when its generation is no longer the newest lives as long, and one from the newest generation on for good |
| `CipherManager.OtherLifetimesStay` | src/dave/cipher_manager.hpp:110-121 | a report changes no other lifetime |
| `CipherManager.CleanupLeaves` | src/dave/cipher_manager.hpp:196-212 | which ciphers a cleanup leaves, and that the oldest generation moves to the first of them, or to the newest generation |
| `CipherManager.MaxGenerationIs` | src/dave/cipher_manager.hpp:134-142 | the clock allows a generation once 170 frames for every full second reach its first nonce |
| `CipherManager.CipherManager.CanProcessNonce` | src/dave/cipher_manager.hpp:54-67 | the backward search decides membership |
| `CipherManager.CipherManager.ReportCipherSuccess` | src/dave/cipher_manager.hpp:72-121 | window, newest generation and expiries afterwards; how long a cipher then lives is in `CipherManager.RetiredLivesTenSeconds` |
| `CipherManager.CipherManager.SlideWindow` | src/dave/cipher_manager.hpp:78-96 | trimming and filling the deque |
| `CipherManager.CipherManager.GetCipher` | src/dave/cipher_manager.hpp:126-160 | cleanup, the three gates, cache or ratchet |
| `CipherManager.CipherManager.CleanupExpiredCiphers` | src/dave/cipher_manager.hpp:196-212 | what is left, how far the oldest generation moves, and which keys are deleted |
| `CipherManager.CipherManager.UpdateExpiry` | src/dave/cipher_manager.hpp:174-183 | at any time the manager is then expired exactly when it was before or the new expiry has passed |
| `Acceptance.AttemptKeepsInv` | src/dave/decryptor.cpp:137-175 | an attempt keeps the manager's invariant and reports exactly the accepted nonces |
| `Acceptance.AfterTracksAccepted` | src/dave/decryptor.cpp:137-175 | over any schedule the window is the window of the accepted nonces |
| `Acceptance.BigNonceAtMostOnce` | src/dave/decryptor.cpp:137-175 | no full nonce is accepted twice, on any schedule |
| `Acceptance.AcceptedAsSent` | src/dave/cipher_manager.hpp:134-142 | while 170 frames for every second of the manager's age stay below 2^32, an accepted frame has the generation of its top byte and its own nonce as full nonce |
| `Acceptance.NonceAtMostOnce` | src/dave/decryptor.cpp:125-183 | under the same condition no truncated nonce is accepted twice |
| `Acceptance.YoungCalls` | src/dave/cipher_manager.hpp:146-146 | under the same condition the ratchet is only asked about generations of eight bits |
| `Decryptor.PopPastIsComplete` | src/dave/decryptor.cpp:190-194 | popping expired managers from the front of an ordered queue leaves exactly those not expired |
| `Decryptor.QueueStaysOrdered` | src/dave/decryptor.cpp:9-34 | over any sequence of transitions and cleanups the expiries stay non-decreasing, so cleanup is complete |
| `Decryptor.CappedIsPast` | src/dave/cipher_manager.hpp:174-183 | a capped manager has expired exactly when it had before or the bound has passed |
| `Decryptor.NewestTakes` | src/dave/decryptor.cpp:99-109 | a frame goes to the newest manager that takes it; newer ones have tried it, older ones have not seen it |
| `Decryptor.PlainFrameAnswer` | src/dave/decryptor.cpp:66-97 | the silence packet always passes; any other frame that does not parse is copied out exactly while passthrough is allowed, and is a bad message with nothing written otherwise |
| `Decryptor.Decryptor.TransitionToKeyRatchet` | src/dave/decryptor.cpp:25-34 | all expiries capped, a new manager of the given ratchet without expiry at the end, windows and ciphers untouched |
| `Decryptor.Decryptor.UpdateCryptorManagerExpiry` | src/dave/decryptor.cpp:185-188 | every manager's expiry is capped |
| `Decryptor.Decryptor.CleanupExpiredManagers` | src/dave/decryptor.cpp:190-194 | no expired manager is left, and no other one is removed |
| `Decryptor.Decryptor.TransitionToPassthroughMode` | src/dave/decryptor.cpp:36-49 | at any time passthrough is then allowed exactly when the mode is on, or it was allowed before and the transition has not ended |
| `Decryptor.Decryptor.DecryptImpl` | src/dave/decryptor.cpp:125-183 | one manager's attempt on the object: its new state, and the frame written or nothing |
| `Decryptor.Decryptor.DecryptWithManagers` | src/dave/decryptor.cpp:99-109 | the loop from the newest manager down |
| `Decryptor.Decryptor.Decrypt` | src/dave/decryptor.cpp:51-123 | silence, and frames without a footer, as above, by the passthrough setting before the call; otherwise decryption by the newest manager that takes the frame; the managers afterwards; and the bytes written |
| `DecryptorRuns.TryOneMore` | src/dave/decryptor.cpp:125-183 | a manager is always in the state that the frames it tried have brought it to |
| `DecryptorRuns.RunKeepsInv` | src/dave/decryptor.cpp:51-123 | over any run of arrivals, new managers and removals every frame handed out was accepted by its manager, in the order tried |
| `DecryptorRuns.HandedOutOnce` | src/dave/decryptor.cpp:51-123 | over any such run no nonce is handed out twice by one manager while it is young |
| `DecryptorRuns.CallIsRun` | src/dave/decryptor.cpp:77-122 | the answer to one call is a run: managers are popped, then the frame arrives, with a receipt exactly when it was decrypted |
| `DecryptorRuns.Decrypt` | src/dave/decryptor.cpp:51-123 | one call on the object is that run of its queue |
| `DecryptorRuns.Transition` | src/dave/decryptor.cpp:25-34 | one transition on the object adds that manager to the run |
| `Availability.InOrderAllAccepted` | src/dave/decryptor.cpp:137-175 | every frame of a sender on pace, received in order with losses only, is accepted |
| `Availability.PaceBySeconds` | src/dave/cipher_manager.hpp:134-142 | a sender of 170 frames at most for every full second is on pace |
| `Availability.PaceCountsFullSeconds` | src/dave/cipher_manager.hpp:134-142 | a sender at 170 frames a second that is ahead of the receiver |
| `Availability.LateAccepted` | src/dave/cipher_manager.hpp:126-160 | a late frame of a generation whose cipher is cached and not expired is accepted exactly when the window still misses its nonce |
| `Availability.LateWithinTenSeconds` | src/dave/cipher_manager.hpp:110-160 | over any schedule: frames of the generation that was the newest, or of one between, arriving within ten seconds of the frame that made a later one the newest, are accepted exactly while the window misses their nonces, with nothing assumed of the cache |
| `LruCache.Inclusion` | include/ekizu/lru_cache.hpp:34-98 | for any common sequence of operations a smaller cache's entries are a subsequence, in recency order, of a larger one's, and the size gap is at most the capacity gap |
| `LruCache.HitsGrowWithCapacity` | include/ekizu/lru_cache.hpp:74-82 | a hit in the smaller cache is a hit in the larger, with the same value |
| `LruCache.OrderedByLastUse` | include/ekizu/lru_cache.hpp:140-153 | entries stand in the order of their last use, so the least recently used key is evicted |
| `CacheContents.StepAnswers` | include/ekizu/lru_cache.hpp:34-98 | how each operation changes the answer to every key: a put that of its own, and of the last entry when the cache is full and the key new; a lookup none; a removal that of its own |
| `CacheContents.HitsAreLatest` | include/ekizu/lru_cache.hpp:34-98 | after any operations there are never more entries than the capacity, and a key that is found has the value last put for it |
| `CacheContents.WithRoomItIsAMap` | include/ekizu/lru_cache.hpp:34-98 | a cache with room for all keys ever put answers as a map would |
| `LruCache.PutKeepsIncluded` | include/ekizu/lru_cache.hpp:140-153 | one put keeps the inclusion, evictions included |
| `LruCache.TouchKeepsIncluded` | include/ekizu/lru_cache.hpp:74-82 | one lookup keeps the inclusion, hit or miss |
| `LruCache.AgreeSize` | include/ekizu/lru_cache.hpp:114-114 | an agreeing list and map have the same size |
| `LruCache.AgreeFind` | include/ekizu/lru_cache.hpp:74-82 | looking up in the map is looking up in the list |
| `LruCache.AgreeErase` | include/ekizu/lru_cache.hpp:91-98 | erasing through the map's iterator removes the key's entry and keeps list and map in agreement |
| `LruCache.AgreePush` | include/ekizu/lru_cache.hpp:146-147 | a new front node with its map entry keeps agreement |
| `LruCache.AgreePop` | include/ekizu/lru_cache.hpp:149-152 | dropping the last node and its key keeps agreement |
| `LruCache.LruCache.constructor` | include/ekizu/lru_cache.hpp:23-23 | an empty cache |
| `LruCache.LruCache.Put` | include/ekizu/lru_cache.hpp:33-44 | list and map agree, with the size within the capacity, also 0, exactly when the forwarded key keeps its value; then the entries are those of the plain recency list |
| `LruCache.LruCache.Emplace` | include/ekizu/lru_cache.hpp:55-65 | always keeps agreement, with the same entries |
| `LruCache.UpdatedAgrees` | include/ekizu/lru_cache.hpp:140-153 | for every agreeing cache, list and map agree after `update_lru` exactly when the forwarded key is that of the front node |
| `LruCache.MovedStringKey` | include/ekizu/lru_cache.hpp:38-43 | a string key emptied by its move: the map leads from the empty key to the node, and list and map do not agree |
| `LruCache.LruCache.UpdateLru` | include/ekizu/lru_cache.hpp:140-153 | removal of the stale node, insertion and eviction, for whatever key is forwarded |
| `LruCache.LruCache.Get` | include/ekizu/lru_cache.hpp:74-82 | the value found, moved to the front |
| `LruCache.LruCache.RemoveKey` | include/ekizu/lru_cache.hpp:91-98 | the key's entry goes, the others stay in order |
| `LruCache.LruCache.Size` | include/ekizu/lru_cache.hpp:114-114 | the size of the map is the number of entries, at most the capacity |
| `UdpReceive.StepKeepsInv` | src/udp.cpp:385-535 | every step keeps: the flag holds exactly when one thread is on the receive path; an open socket with a queue has one; every operation is in one place once; operations leave in order |
| `UdpReceive.EveryRun` | src/udp.cpp:140-165 | these hold in every state of every interleaving |
| `UdpReceive.ServedInOrder` | src/udp.cpp:454-535 | operations meet the socket's completions in the order in which they were queued |
| `UdpReceive.CompletedAtMostOnce` | src/udp.cpp:385-535 | no operation completes twice; one that has not completed is queued, in hand or being cancelled |
| `UdpReceive.ClosedStaysEmpty` | src/udp.cpp:140-165 | after close the queue stays empty |
| `UdpReceive.QueuedAtCloseIsClosed` | src/udp.cpp:140-165 | what is queued at close completes with `udp_closed`, or is about to, whatever the threads do |
| `UdpOutcomes.OutcomeHasCause` | src/udp.cpp:385-525 | over every run, an operation has completed with a datagram exactly when the socket answered it without error; with a socket error, when it answered with one while open; with `udp_closed`, when it did so after close, or the operation was cancelled or refused by close; with `udp_not_connected`, when it was a connected receive on an open, unconnected socket |
| `UdpOutcomes.FlagsAreSteps` | src/udp.cpp:140-147 | a socket is closed exactly from the first `close` on |
| `UdpOutcomes.CancelledWasQueued` | src/udp.cpp:140-165 | only what was queued when the socket was closed is cancelled |
| `UdpReceive.EveryRunFinishes` | src/udp.cpp:454-535 | from every reachable state, whatever the socket answers and whichever thread moves, every run of the receive path is bounded, and where none of its steps is left every operation has completed exactly once |
| `UdpReceive.NeverStuck` | src/udp.cpp:454-535 | and some such run leads there |
| `UdpReceive.Impl.AsyncReceive` | src/udp.cpp:385-451 | the locked region as a step, and whether the caller starts the receive path |
| `UdpReceive.Impl.StartReceive` | src/udp.cpp:454-468 | the locked region as a step, and the operation handed to the socket |
| `UdpReceive.Impl.OnReceived` | src/udp.cpp:478-525 | the handler is the step whose outcomes are characterised above, and returns the one it posts |
| `UdpReceive.Impl.DecideNext` | src/udp.cpp:527-533 | the flag is given up exactly when the receive path stops |
| `UdpReceive.Impl.Close` | src/udp.cpp:140-147 | the whole queue is taken over for cancellation, once |
| `RateLimiter.StepKeepsInv` | src/rate_limiter.cpp:56-299 | every handler keeps: each request is queued, waiting, in flight, completed or lost to an exception, once; before shutdown one at most is waiting, in flight or lost, and one is whenever the queue is not empty; sends in submission order; no send while its route has no remaining requests and an unexpired reset |
| `RateLimiter.EveryRun` | src/rate_limiter.cpp:56-299 | these hold in every state of every run |
| `RateLimiter.RunLoses` | src/rate_limiter.cpp:225-244 | over any run a request is lost exactly when a reply arrives whose headers cannot be read |
| `RateLimiter.EveryRunKeepsAll` | src/rate_limiter.cpp:222-268 | over any run, every request is queued, waiting, in flight or completed, once, and one is active whenever the queue is not empty, if and only if no such reply was received |
| `RateLimiter.NotANumber` | src/rate_limiter.cpp:235-242 | with a remaining count of `x` a request is lost and the limiter is busy with nothing left to happen |
| `RateLimiter.BlockedForGood` | src/rate_limiter.cpp:115-127 | from then on until shutdown nothing is sent or completed, and whatever is submitted stays queued |
| `RateLimiter.CompletedAtMostOnce` | src/rate_limiter.cpp:271-299 | no request completes twice; one that has not completed is queued, waiting, in flight or lost, the last exactly through such a reply |
| `RateLimiter.TimerKeeps` | src/rate_limiter.cpp:168-196 | a timer that fires finds its route's limit reset, an aborted one finishes its request, a late one after shutdown nothing |
| `RateLimiter.AfterShutdown` | src/rate_limiter.cpp:56-91 | after shutdown at any point of any run nothing is sent, and everything not completed, in flight or lost by then finishes with `rate_limiter_stopped` |
| `RateLimiter.StoppedStaysStopped` | src/rate_limiter.cpp:93-108 | later runs only finish what was in flight, or finish with `rate_limiter_stopped` |
| `RateLimiter.EveryRunFinishes` | src/rate_limiter.cpp:115-268 | from every reachable state, whatever timers and replies bring, every run of them is bounded, and where none is left every request has completed exactly once if and only if no reply could not be read |
| `RateLimiter.NeverStuck` | src/rate_limiter.cpp:115-268 | some such run completes every request if and only if none has been lost |
| `RateLimitHeaders.NumberOfDecimal` | src/rate_limiter.cpp:235-242 | a decimal number, signed or not, is read as written, whatever follows its last digit |
| `RateLimitHeaders.NumberBegins` | src/rate_limiter.cpp:235-242 | white space in front of it is skipped, and a text that begins otherwise is no number |
| `RateLimitHeaders.ReadDecimals` | src/rate_limiter.cpp:229-243 | limit and remaining count cut to 16 bits and the reset in seconds, each from its own header, or an exception when one is out of range |
| `Throttling.NamedIsStored` | src/rate_limiter.cpp:235-242 | a reply with three decimal headers stores exactly their numbers for the route of its request |
| `Throttling.UnnamedIsIgnored` | src/rate_limiter.cpp:229-234 | one without all three, or a transport error, stores nothing |
| `Throttling.ExhaustedRouteIsSilent` | src/rate_limiter.cpp:144-166 | after a reply with `0` remaining requests no request is sent on its route before the reset it names, in any run |
| `Throttling.NextOnRouteWaits` | src/rate_limiter.cpp:144-168 | the next request on that route waits with the timer at that reset, whether it was queued already or is submitted later |
| `Throttling.NextOnRouteIsSent` | src/rate_limiter.cpp:144-157 | while requests remain, or the reset has passed, it is sent at once |
| `Throttling.SentAtReset` | src/rate_limiter.cpp:168-196 | when the timer fires the waiting request is sent |
| `Throttling.ReplyCompletes` | src/rate_limiter.cpp:245-268 | a reply completes its request with the one outcome that its status means, by ranges of statuses; what completes behind it does so because sending is disabled |
| `Throttling.TimerCompletes` | src/rate_limiter.cpp:169-196 | a wait that fails completes the request that waited |
| `Throttling.DisabledSendsNothing` | src/rate_limiter.cpp:199-221 | while sending is disabled nothing is sent, in any run |
| `RateLimiterStrand.RateLimiter.AsyncSend` | src/rate_limiter.cpp:93-113 | the object does what the step says and keeps the invariant |
| `RateLimiterStrand.RateLimiter.StartNext` | src/rate_limiter.cpp:115-127 | from any state that keeps all but the starting of its queue, the whole invariant holds afterwards, however many requests finish at once on the way |
| `RateLimiterStrand.RateLimiter.MaybeWaitThenSend` | src/rate_limiter.cpp:129-168 | with one unsent request in hand and nothing active, the invariant holds afterwards: the request waits for its reset, is in flight or has completed |
| `RateLimiterStrand.RateLimiter.DoSend` | src/rate_limiter.cpp:199-221 | the same when the request's route is not blocked; it is sent after all earlier ones |
| `RateLimiterStrand.RateLimiter.FinishOne` | src/rate_limiter.cpp:271-299 | the request in hand completes once, the next one is taken up, and the invariant holds |
| `RateLimiterStrand.RateLimiter.OnTimer` | src/rate_limiter.cpp:169-196 | the same for the wait handler |
| `RateLimiterStrand.RateLimiter.OnReply` | src/rate_limiter.cpp:222-268 | the response handler, with the reading of the headers and its exception, and the mapping of statuses, keeps the invariant; three decimal headers are stored for the route of the request, each as what it names |
| `RateLimiterStrand.RateLimiter.Shutdown` | src/rate_limiter.cpp:56-91 | the loop that fails what waits and what is queued, in order |
| `Roster.FromBigEndianBytes` | src/dave/common.hpp:62-69 | the id is the number in the first eight bytes, below 2^64 |
| `Roster.IdsAreDistinct` | src/dave/common.hpp:62-69 | different identities of eight bytes have different ids |
| `Roster.IdOfEight` | src/dave/common.hpp:62-69 | the first byte of an identity counts most, and those behind the eighth not at all |
| `Roster.NewRosterIsLast` | src/dave/session.cpp:481-490 | the new roster has exactly the ids of basic leaves, each with the key of its last leaf |
| `Roster.CollectRoster` | src/dave/session.cpp:481-490 | the loop builds that roster |
| `Roster.SetDifference` | src/dave/session.cpp:493-515 | the merge over two sorted entry lists, with lexicographic comparison, gives exactly the entries of one not in the other |
| `Roster.InsertEach` | src/dave/session.cpp:497-510 | inserting leaves existing ids alone; removed users get an empty key |
| `Roster.DifferencesAreChanges` | src/dave/session.cpp:492-515 | two one-way differences give exactly the ids whose entry differs, with the new key, or an empty one when removed |
| `Roster.Session.ReplaceState` | src/dave/session.cpp:480-521 | the new roster, and a change map with exactly the ids whose entry differs |
| `Roster.NoChanges` | src/dave/session.cpp:492-515 | the change map is empty exactly when nothing changed |
| `Roster.SeenIsWithKey` | src/dave/session.cpp:480-521 | folding the change maps of any run over the empty roster gives the current users that have a key |
| `Roster.Telescopes` | src/dave/session.cpp:480-521 | the fold is the current roster if and only if no user's last basic leaf has an empty key |
| `Roster.EmptyKeyIsNotSeen` | src/dave/session.cpp:497-510 | a roster for which it fails |

## Left out

- The cipher itself and key derivation: AEAD and ratchet are function parameters; what is assumed of the AEAD is that opening undoes sealing and that lengths differ by the tag.  A ratchet gives the same key whenever it is asked for the same generation.
- Clocks: one reading serves a whole call, where the source reads the clock several times within one; a timer that fires without an error has reached its expiry, so a system clock set back between the two is not modelled.
- Machine words: indices and generations are unbounded except where wrapping matters (nonces, the 8-bit counts of the footer, the AV1 index sums).  The bounds that keep the rest inside their words are explicit: `CipherManager.ClockInRange`, frames of fewer than 2^64 bytes.
- Av1.Process: requires that no index sum of the scan wraps (`Av1.IndicesFit`); where one does, the source takes a payload outside the frame or scans it again from a wrapped index (`Av1.LargestSizeWraps`).
- Av1.ReadObu: requires the same of the OBU it reads.
- Codecs.ProcessFrame: requires what the codec's function does.
- Encryptor.Encryptor.Encrypt: requires that its unchecked writes of the footer stay inside the output buffer, or that the body does not fit at all, as the source does.
- H26x.Process: requires each partly encrypted unit to be at least as long as its plaintext header, as the subspans of the source do; the H.264 and H.265 functions share one method with the format as parameter.  The emitted frame in `AnnexBCases.NotProcessableAgain` is one for which the source's count of bytes underflows.
- H26x.AddUnit: requires the same of its unit.
- H26x.CoversThreeCodes: speaks of payloads without emulation prevention bytes; the source does not look for them inside the second half of a code, so that there is no agreement with full RBSP unescaping to state.
- The pool of frame processors, statistics, logging and error contexts.
- The cache's iterators and changes of a value through the returned reference.
- The UDP socket's connect and send paths and `parse_host_port`; the socket itself completes each receive at some time.
- Statuses that Boost.Beast does not know: `status` is what `result()` gives, which is 0 for them.
- Error texts, a reset so far away that the ticks of the clock leave 64 bits, and a `send_fn` that answers before it returns: a reply is always a later step.  After an exception the model goes on, as when `run` is called again; otherwise nothing does.
- MLS message handling in `Session`; a state is its list of leaves.  That `std::map` iterates by ascending key is built into `Roster.Entries`.
- `unencrypted_ranges_size` and `validate_encrypted_frame`, which nothing calls.
- `timer_queue.hpp`: its cancel operations do not restore heap order, so it keeps no order to prove.
- The HTTP, gateway and voice code, whose queues are plainer forms of the two modelled here, and the JSON and request builder code, which copies field by field.
