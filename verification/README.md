# Verification of the media client's audio, cache and parsing core

Dafny 4.11 models of the parts of a PlayStation 3 Jellyfin client that promise the most: streaming audio decoding, the
audio threads, the artwork cache, the audio output journal, and the parsers behind the program guide.  Run
`dafny verify dfyconfig.toml` here to check all of it.

## What is modelled

| module | models |
|---|---|
| `CarryLoop` | the carry buffer loop shared by the FLAC, DTS and TrueHD readers, for any step at the front of the carry |
| `FlacBits`, `FlacCrc`, `FlacFormat`, `FlacDecoder`, `FlacStable` | the FLAC decoder: bit reader, checksums, the format as a parser over bits, the decoder in place proved against it, and that no verdict changes when bytes follow |
| `BitWriter`, `FlacPrediction`, `FlacEncoder`, `FlacExact` | numbers written as bits, residuals as differences, frames as RFC 9639 lets an encoder write them, that the decoder gives the samples back, and that it takes no other headers |
| `AdecFlac`, `DtsStream`, `TruehdStream` | the three readers, each a step for `CarryLoop` and a class in place that is proved to take it |
| `FlacStream`, `DtsRows`, `TruehdRows` | whole streams as they are written, and that the readers hand on exactly what is in them |
| `AdecQueue`, `AdecFlush` | the packet queue and PCM ring as circular arrays, and the seek barrier over all interleavings |
| `ThumbnailPixels`, `ThumbnailCache`, `ThumbnailRuns` | the artwork slots under two threads, with pixels written and mirrored row by row outside the lock, and runs that lead to what can go wrong |
| `Resample`, `ResampleDirect` | the polyphase rate converter against its direct formula, and that against one filter on a finer grid, over reals |
| `JsonTree`, `JsonLite`, `JsonUnescape`, `JsonString`, `Utf8Format` | the in-place JSON scans against trees with every layout of their text, the two string decoders over bytes, and UTF-8 by its bits |
| `CivilDates`, `Decimals`, `IsoTime`, `LiveTvReplies` | the calendar, time stamps in both directions, and replies that were cut off |
| `AudioBitstream` | the journal around the console's output setting, with crashes behind every durable write |
| `Basics` | sequences and division |

How they are put together:

- A program loop over a buffer or over fields is a method of a class or over an array.  It is proved equal to a function of
  the old state, and the theorems are about that function.
- What the bytes of a format mean is said twice, and the two are proved to agree: as the program reads it, and as it is
  written, from the format's own text (`BitWriter`, `FlacEncoder`, `FlacStream`, `DtsRows`, `TruehdRows`, `Utf8Format`).
- FLAC words are bits, most significant first, in the checksums and the bit reader; 32-bit samples wrap where the source
  casts.  A read past the end gives zeros and sets a flag; the parser of `FlacFormat` stops instead, and the decoder is
  proved to give the parser's verdict although it looks at the flag only now and then.
- The concurrent models take what runs under a lock as one step, and split what runs outside one.
- Crashes in `AudioBitstream` can fall behind any write, including each character of the journal.

What the source and its comments leave open, and what was found:

- A journal torn while it is written is misread when the down-mix number has two or more digits
  (`AudioBitstream.RecoveryRestoresExactly`).  The values in use have one digit.
- The 5.1 routing request stays applied without counting as engaged, so a second begin without an end in between takes the
  changed setting for the original (`AudioBitstream.SecondBeginLosesTheOriginal`, `AudioBitstream.TwoBeginsAndACrash`).  An
  end or a recovery removes the journal even when its restore failed.  `AudioBitstream.SettingSurvivesCrashes` says exactly
  which lives keep the original.
- The count of rejected TrueHD units starts afresh whenever the carry is read, so what is read depends on the cut exactly for
  streams with four units rejected in a row within one carry (`TruehdStream.CutsAgreeExactly`).
- The artwork cache looks at id and image kind when it publishes, not at the size, while every row is written at the size
  that the slot has by then.  A slot that is asked for at another size meanwhile is published torn, or with the end of an
  older image (`ThumbnailCache.EveryInterleavingShows`, `ThumbnailRuns.AnotherImageShows`).  One size for each item does not
  rule that out, because another item may have the slot in between; one size for all does (`ThumbnailRuns.OneSizeExactly`).
- The string reader of json_lite.h cuts a string that is too long for its buffer in the middle of a character, or leaves out
  a character that others follow (`JsonString.WholeCharactersExactly`).
- The loop over the objects of a reply sees brackets inside strings (`LiveTvReplies.WholeRepliesAreReadExactly`).
- Artwork ids of 64 or more characters are stored cut and never found again (`ThumbnailCache.LongIdsAreNeverFound`), and a
  slot a few frames old can be passed over when one is needed (`ThumbnailRuns.StaleSlotsArePassedOver`).
- The flush generation is 32 bits wide; `AdecFlush.CurrentExactly` and `AdecFlush.FreshExactly` say exactly what that means.
- The frame decoder reads a lead byte before it checks that there is one; the check is modelled first, with the same result.

## Model

| member | source | states |
|---|---|---|
| `CarryLoop.FeedIndependence` | source/audio/adec_flac.cpp:148-164 | for any reader whose step keeps its verdict when more bytes follow: outputs and final state are those of the whole stream fed at once, for every cut, full carries included |
| `CarryLoop.FeedInTwo` | source/audio/adec_flac.cpp:148-164 | a payload cut in two gives what the payload gives |
| `CarryLoop.DrainInTwo` | source/audio/adec_flac.cpp:91-146 | draining early loses nothing: the kept tail with more bytes behind it drains to the same end |
| `CarryLoop.CarryStaysBelow` | source/audio/dts_stream.c:210-217 | a reader that never waits on so many bytes never carries so many between calls, so the full-carry branch is not reached |
| `CarryLoop.FeedIsDrain` | source/audio/truehd_stream.c:92-154 | such a reader comes, over any payload, to what one drain of all its bytes comes to |
| `FlacBits.BitReader.Get` | source/audio/flac_dec.c:41-52 | for every position and width up to 32: the number of the next n bits of the buffer read as one bit sequence, or zero and the over flag past the end |
| `FlacBits.BitReader.GetSigned` | source/audio/flac_dec.c:54-58 | the same bits as a two's-complement number |
| `FlacBits.BitReader.Unary` | source/audio/flac_dec.c:61-77 | the zeros before the next one bit of the bit sequence, which is consumed; over at the end, and after a run of more than 2^26 zeros at the next byte boundary |
| `FlacCrc.MakeTable` | source/audio/flac_dec.c:13-23 | entry i is eight steps of the bit-at-a-time division from i |
| `FlacCrc.Tables.Crc8` | source/audio/flac_dec.c:25-29 | the table-driven CRC-8 of any prefix is the remainder of the bit-at-a-time division by 0x07 |
| `FlacCrc.Tables.Crc16` | source/audio/flac_dec.c:31-35 | the table-driven CRC-16 of any prefix is the remainder of the bit-at-a-time division by 0x8005 |
| `FlacCrc.ShiftsLinear` | source/audio/flac_dec.c:16-19 | the division steps are linear over exclusive or, which is why a table of 256 entries suffices |
| `FlacCrc.WithItsCrc8` | source/audio/flac_dec.c:265 | a message with its CRC-8 behind it divides without remainder |
| `FlacCrc.WithItsCrc16` | source/audio/flac_dec.c:278 | a message with its CRC-16 behind it divides without remainder |
| `FlacCrc.Crc8Divides` | source/audio/flac_dec.c:25-29 | for every message: moved up by eight bits it is a multiple of x^8 + x^2 + x + 1 plus the CRC-8, as polynomials |
| `FlacCrc.Crc16Divides` | source/audio/flac_dec.c:31-35 | the same for x^16 + x^15 + x^2 + 1 and the CRC-16 |
| `FlacDecoder.RiceOne` | source/audio/flac_dec.c:131-134 | one Rice number: the parser's value; false exactly for a quotient above 0xFFFFFF; a read past the end is short, never invalid |
| `FlacDecoder.Partition` | source/audio/flac_dec.c:123-136 | one partition, Rice or escaped, in place: verdict and samples of the parser |
| `FlacDecoder.Residual` | source/audio/flac_dec.c:112-140 | the residual in place: 1, 0, -1 and the samples exactly as the parser says, although the over flag is looked at only once per partition |
| `FlacDecoder.RestoreFixed` | source/audio/flac_dec.c:162-172 | fixed prediction in place over the residuals gives the restored samples, whose differences `FlacPrediction.ResidualsOfRestored` shows the residuals to be |
| `FlacDecoder.WeightedSum` | source/audio/flac_dec.c:187-188 | the 64-bit prediction sum is the exact weighted sum and none of its partial sums overflows |
| `FlacDecoder.RestoreLinear` | source/audio/flac_dec.c:186-190 | linear prediction in place over the residuals gives the restored samples, of which `FlacPrediction.ResidualsOfRestored` says the same |
| `FlacDecoder.Subframe` | source/audio/flac_dec.c:142-197 | a subframe in place: verdict, reader position and samples of the parser, for all five kinds and wasted bits |
| `FlacDecoder.ParseStreamHeader` | source/audio/flac_dec.c:81-107 | the stream header: its length and info, 0 for more bytes, -1 for not a stream, as the parser says, of which `FlacStream.ReadsStreamHeader` says what it reads |
| `FlacDecoder.ParseNumber` | source/audio/flac_dec.c:214-230 | the coded frame or sample number of one to seven bytes |
| `FlacDecoder.ParseHeader` | source/audio/flac_dec.c:204-266 | the frame header up to its CRC-8, with the program's order of checks |
| `FlacDecoder.UndoStereo` | source/audio/flac_dec.c:280-291 | left and right in place of what the channel code sent |
| `FlacDecoder.DecodeFrame` | source/audio/flac_dec.c:201-299 | a whole frame into the planes: length and samples, 0 when the bytes end inside it, -1 when none starts here, exactly as the parser says |
| `FlacStable.ReadResidualAgrees` | source/audio/flac_dec.c:112-140 | a verdict on the residual is kept when more bytes follow |
| `FlacStable.ReadSubframeAgrees` | source/audio/flac_dec.c:142-197 | a verdict on a subframe is kept when more bytes follow |
| `FlacStable.ReadHeaderAgrees` | source/audio/flac_dec.c:204-266 | a verdict on the frame header is kept when more bytes follow |
| `FlacStable.FrameIsPrefixStable` | source/audio/flac_dec.c:201-299 | for every buffer and every extension: a frame or a refusal stays the same, samples included, when bytes are appended |
| `FlacStable.StreamHeaderIsPrefixStable` | source/audio/flac_dec.c:81-107 | the same for the stream header |
| `FlacEncoder.ReadsMany` | source/audio/flac_dec.c:126-136 | a run of numbers written with any Rice or plain coding is read back |
| `FlacEncoder.RefusesQuotient` | source/audio/flac_dec.c:131-134 | a quotient above 0xFFFFFF is refused |
| `FlacEncoder.ReadsResidual` | source/audio/flac_dec.c:112-140 | a residual written with any legal layout of partitions is read back |
| `FlacPrediction.PredictsAt` | source/audio/flac_dec.c:162-190 | at every sample: what it differs by from the prediction is the k-th difference there for fixed order k up to 4, and for a linear predictor the sample less the rounded-down sum of coefficient j times the sample j + 1 before it |
| `FlacPrediction.ResidualsOfRestored` | source/audio/flac_dec.c:162-190 | modulo 2^32 the k-th differences of what fixed order k restored are the residuals it was given, for every warm-up, and likewise what the weighted sum leaves |
| `FlacPrediction.RestoreResiduals` | source/audio/flac_dec.c:162-190 | the other way round: from its own differences, or what the weighted sum leaves of it, every block is restored, even where a residual had to wrap |
| `FlacEncoder.ReadsSubframe` | source/audio/flac_dec.c:142-197 | a subframe of any kind, order, precision, layout and number of wasted bits is read back |
| `FlacEncoder.DecorrelateCorrelated` | source/audio/flac_dec.c:280-291 | undoing the channel code gives back left and right for all three stereo modes |
| `FlacEncoder.ReadsNumber` | source/audio/flac_dec.c:214-230 | a number written in any length it fits is read back |
| `FlacEncoder.ReadsHeader` | source/audio/flac_dec.c:204-266 | a frame header written with any codes that describe it, by the format's own tables, is read back |
| `FlacEncoder.SizesAgree` | source/audio/flac_dec.c:232-238 | for all sixteen codes: the parser's block size is that of the table in section 9.1.1 of RFC 9639, and it takes no other code |
| `FlacEncoder.RatesAgree` | source/audio/flac_dec.c:240-247 | the same for the sample rates of section 9.1.2 |
| `FlacEncoder.DepthsAgree` | source/audio/flac_dec.c:249-258 | the same for the bit depths of section 9.1.4 without the code for 32 bits, which is refused |
| `FlacExact.HeadersExactly` | source/audio/flac_dec.c:204-266 | a buffer starts with a frame header, of that content and length, exactly if an encoder may write it so: whatever no encoder writes is refused |
| `FlacEncoder.FramesAreLossless` | source/audio/flac_dec.c:201-299 | for every legal choice of an encoder after RFC 9639 section 9, with residuals that are differences or what a weighted sum leaves: the frame is read back with exactly the samples that went in, their number, channels, width and rate, whatever follows it |
| `FlacEncoder.DamagedFramesAreRefused` | source/audio/flac_dec.c:278 | the same frame with any other two bytes for its checksum is refused, whatever follows it |
| `FlacEncoder.EveryBlockHasAnEncoding` | source/audio/flac_dec.c:259-274 | every block of up to 24-bit samples can be sent under every channel code |
| `AdecFlac.FlacFeedIndependence` | source/audio/adec_flac.cpp:91-164 | frames, stream info, plane sizes and carry are those of the whole stream in one payload, for every cut |
| `AdecFlac.StepProgresses` | source/audio/adec_flac.cpp:91-140 | every step of the reader consumes something it has |
| `AdecFlac.StepIsStable` | source/audio/adec_flac.cpp:91-140 | a step of the header or sync hunt is the same with more bytes behind |
| `AdecFlac.FlacReader.Adopt` | source/audio/adec_flac.cpp:103-116 | planes are reallocated only when too small; spare channels share the scratch plane |
| `AdecFlac.FlacReader.HuntForHeader` | source/audio/adec_flac.cpp:94-118 | the header hunt goes where single steps would go, and waits when they would |
| `AdecFlac.FlacReader.FindSync` | source/audio/adec_flac.cpp:120-124 | the first place a sync code is or may begin |
| `AdecFlac.FlacReader.TakeFrame` | source/audio/adec_flac.cpp:125-139 | a frame is delivered once, a bad one costs a byte, one with too many channels is dropped |
| `AdecFlac.FlacReader.Deliver` | source/audio/adec_flac.cpp:71-89 | the output stage gets the frame's slices |
| `AdecFlac.SlicesAreTheFrame` | source/audio/adec_flac.cpp:83-88 | the slices of a frame together are its samples, row by row |
| `AdecFlac.SamplesAreInterleaved` | source/audio/adec_flac.cpp:85-86 | sample k of channel c is at k times the number of channels plus c |
| `AdecFlac.FlacReader.DecodeCarry` | source/audio/adec_flac.cpp:91-146 | what is delivered and what stays is the drain of the carry |
| `AdecFlac.FlacReader.DecodePayload` | source/audio/adec_flac.cpp:148-164 | a payload in place is the feed of the specification: frames, info, planes and carry |
| `AdecFlac.FlacReader.Reset` | source/audio/adec_flac.cpp:64-68 | the carry and the stream header are forgotten, the planes are kept |
| `FlacStream.ReadsInfo` | source/audio/flac_dec.c:93-100 | every field is read back from a STREAMINFO written as one row of bits after section 8.2 of RFC 9639 |
| `FlacStream.ReadsStreamHeader` | source/audio/flac_dec.c:81-107 | a stream header of any metadata blocks is read to its end, whatever follows, with the first STREAMINFO in it; without one it is refused |
| `FlacStream.StreamsAreLossless` | source/audio/adec_flac.cpp:91-164 | for every stream header, every row of blocks with any encoder's choices and every cut into payloads: exactly those blocks come out, in order, and nothing is left over, as long as the header and each frame fit the carry |
| `FlacStream.LongFramesAreCutOff` | source/audio/adec_flac.cpp:150-156 | a frame above 196608 bytes loses its first 196608, and what is behind them is hunted through |
| `FlacStream.LongHeadersAreCutOff` | source/audio/adec_flac.cpp:150-156 | so does a stream header |
| `FlacStream.DamagedFramesAreHuntedThrough` | source/audio/adec_flac.cpp:126-136 | a frame with a damaged checksum is not delivered, and the search goes on with the byte behind its first |
| `FlacStream.ForeignFramesAreDropped` | source/audio/adec_flac.cpp:137 | a frame with more channels than the stream header says is passed over whole |
| `FlacStream.OtherHeadersAreHuntedThrough` | source/audio/adec_flac.cpp:100-102 | a stream header without a STREAMINFO, or for other than 4 to 24 bits a sample, is no header: the search goes on behind its first four bytes |
| `FlacStream.PositionsAreCounted` | source/audio/flac_dec.c:293-294 | in a stream whose frames are numbered as section 9.1.5 asks, fixed or variable, each frame's position is the number of samples before it |
| `DtsStream.ExssBits.Get` | source/audio/dts_exss.c:36-45 | n bits of the header read as one bit sequence |
| `DtsStream.FindExssSize` | source/audio/dts_exss.c:47-73 | the extension substream's size from its header fields, none for an implausible header: what `DtsRows.SizesAreRead` shows to be the size that was written |
| `DtsStream.StepIsStable` | source/audio/dts_stream.c:144-190 | a step of the reader is the same with more bytes behind |
| `DtsStream.DtsFeedIndependence` | source/audio/dts_stream.c:144-225 | blocks, remaining skip, carry and all counters are those of one feed, for every cut, in core mode |
| `DtsStream.DtsCarryNeverFills` | source/audio/dts_stream.c:210-217 | with frames of at most 16384 bytes the branch for a full carry is unreachable |
| `DtsRows.SizesAreRead` | source/audio/dts_exss.c:47-73 | from a header written as one row of bits, short or wide, the substream's size is read exactly if the header has at least ten bytes and the substream at least the header's; otherwise none |
| `DtsRows.ExtensionsAreSkippedExactly` | source/audio/dts_stream.c:161-180 | an extension substream so written, of any length, is passed over to its last byte: what follows is read as if it had not been there, with both counters moved on |
| `DtsRows.FalseSyncsAreRescanned` | source/audio/dts_stream.c:163-166 | behind an implausible header the search goes on with the next byte |
| `DtsRows.RowsArePlayed` | source/audio/dts_stream.c:44-225 | a row of core frames that the decoder accepts and extension substreams, cut in any way, comes out as the frames' blocks in order, with every frame and extension counted, the first frame noted and none called bad |
| `DtsStream.FeedSkips` | source/audio/dts_stream.c:201-209 | bytes to skip are taken from the payload without entering the carry |
| `DtsStream.DtsReader.DecodeCoreFrame` | source/audio/dts_stream.c:44-91 | a frame's blocks up to the first rejected one, with the counters the source keeps, and size and blocks of the first frame |
| `DtsStream.DtsReader.PassExtension` | source/audio/dts_stream.c:161-180 | what of an extension is in the carry is passed over and the rest is left to skip |
| `DtsStream.DtsReader.DecodeCarry` | source/audio/dts_stream.c:144-195 | what is emitted and what stays is the drain of the carry |
| `DtsStream.DtsReader.FeedBytes` | source/audio/dts_stream.c:197-225 | a payload in place is the feed of the specification |
| `DtsStream.DtsReader.Reset` | source/audio/dts_stream.c:37-41 | the carry and the pending skip are dropped |
| `TruehdStream.StepIsStable` | source/audio/truehd_stream.c:92-126 | a step of the reader is the same with more bytes behind |
| `TruehdStream.CutsAgreeExactly` | source/audio/truehd_stream.c:92-154 | from an empty carry: units, sync state, carry and counters of every beginning of the stream are the same for every cut exactly when no four units are rejected in a row, none accepted between them, that begin and end within 16384 bytes |
| `TruehdStream.TruehdFeedIndependence` | source/audio/truehd_stream.c:92-154 | from any state, on a stream without four such units: units, sync state, carry and counters are the same for every cut |
| `TruehdStream.LongRejectionsAgree` | source/audio/truehd_stream.c:95-125 | with a decoder that rejects only units of more than 4096 bytes the cut never matters, however many it rejects in a row |
| `TruehdStream.FourRejectionsDependOnTheCut` | source/audio/truehd_stream.c:95-125 | a stream with four such units and two cuts of it with different framing, counters and carry |
| `TruehdStream.TruehdCarryNeverFills` | source/audio/truehd_stream.c:139-146 | a unit has at most 8190 bytes, so the branch for a full carry is unreachable |
| `TruehdStream.TruehdReader.DecodeUnit` | source/audio/truehd_stream.c:60-89 | a rejected unit counts on and emits nothing, an accepted one starts the count again and is emitted if it has samples |
| `TruehdStream.TruehdReader.TakeUnit` | source/audio/truehd_stream.c:108-125 | a unit by its length, which `TruehdRows.LengthsAreRead` shows to be the one written; an impossible length or four rejections send the reader hunting |
| `TruehdStream.TruehdReader.DecodeCarry` | source/audio/truehd_stream.c:92-131 | what is emitted and what stays is the drain of the carry |
| `TruehdStream.TruehdReader.FeedBytes` | source/audio/truehd_stream.c:133-154 | a payload in place is the feed of the specification, and its bytes are counted |
| `TruehdStream.TruehdReader.Reset` | source/audio/truehd_stream.c:48-52 | the carry is dropped and a new major sync asked for |
| `TruehdRows.LengthsAreRead` | source/audio/truehd_stream.c:108 | for every even length up to 8190 and every check nibble: the length is read back from the unit head it was written in, whatever follows |
| `TruehdRows.MajorSyncExactly` | source/audio/truehd_stream.c:54-58 | what is taken for a major sync is one of the two sync words at offset 4, and nothing else |
| `TruehdRows.ShortUnitsAreNone` | source/audio/truehd_stream.c:109-115 | a length below eight bytes sends the reader hunting from the next byte |
| `TruehdRows.RowsAreDecoded` | source/audio/truehd_stream.c:60-154 | a row of units so headed that starts with a major sync, or behind a unit already in sync, cut in any way, is decoded unit by unit, each from exactly its own bytes, in order, without a resync, with accepted and refused ones counted, unless the decoder refuses four in a row |
| `AdecQueue.PesQueue.EnqueueChunk` | source/audio/adec.cpp:365-402 | appends a chunk; when all slots are taken the oldest is dropped first |
| `AdecQueue.PesQueue.PushPes` | source/audio/adec.cpp:404-425 | a packet goes in as its chunks, in order |
| `AdecQueue.PesQueue.Pop` | source/audio/adec.cpp:441-445 | the oldest chunk with its continuation mark |
| `AdecQueue.PesQueue.Clear` | source/audio/adec.cpp:509-512 | the queue is empty |
| `AdecQueue.QueueHoldsASuffix` | source/audio/adec.cpp:365-445 | over every run the queue is a suffix of what was put in; what left it left in order, taken or lost; what was taken came out in order |
| `AdecQueue.LossIsOldestFirst` | source/audio/adec.cpp:366-379 | an element is lost only to a put into a full queue, and it is the oldest |
| `AdecQueue.ChunksAreThePacket` | source/audio/adec.cpp:416-423 | the chunks of a packet concatenate to it, fit a slot, and only the first is not a continuation |
| `AdecQueue.PacketsComeBack` | source/audio/adec.cpp:404-425 | from a row of chunks without loss the packets come back one by one |
| `AdecQueue.TakenTogether` | source/audio/adec.cpp:404-425 | chunks of which none was lost come out next to each other |
| `AdecQueue.NothingLostIsWhole` | source/audio/adec.cpp:404-449 | over a run that lost nothing, what was taken and what waits are the packets pushed |
| `AdecQueue.PcmRing.Push` | source/audio/adec.cpp:258-289 | as many frames as there is room for are appended, while the write position moves on by all of them; a push for a position that was left changes nothing |
| `AdecQueue.PcmRing.Read` | source/audio/adec.cpp:697-712 | the oldest frames, up to the number asked for; the read position moves on by what was read |
| `AdecQueue.RingKeepsOrderAndCount` | source/audio/adec.cpp:258-712 | frames are read in the order they were accepted, and offered = read + held + dropped |
| `AdecQueue.DriftIsBounded` | source/audio/adec.cpp:220 | over any row of batches a position moves on by the time its frames last at 48 kHz, never more, and less by under a microsecond for each batch |
| `AdecFlush.CurrentExactly` | source/audio/adec.cpp:157 | a packet counts as current exactly if the number of flushes since it was popped is a multiple of 2^32 |
| `AdecFlush.KeepsStamped` | source/audio/adec.cpp:427-527 | every step keeps the stamps right: generation words, queued packets and the packet in flight |
| `AdecFlush.KeepsFresh` | source/audio/adec.cpp:258-527 | a step lets nothing into the ring older than the last flush that emptied it, exactly unless it is a check that wraps: the ring was emptied for a flush since the pop and the number of flushes begun since is a multiple of 2^32 |
| `AdecFlush.WritesBehindAWrap` | source/audio/adec.cpp:258-289 | behind a check that wraps the next write puts such an old frame into the ring |
| `AdecFlush.FreshExactly` | source/audio/adec.cpp:258-527 | over every interleaving: nothing old is ever in the ring or about to be written exactly when no check wraps |
| `AdecFlush.NoStaleAudio` | source/audio/adec.cpp:427-527 | in every interleaving in which no check wraps, unless a flush is between its sections, every ring frame comes from a packet queued and popped in the current generation |
| `AdecFlush.FlushIsABarrier` | source/audio/adec.cpp:503-527 | unless a check wraps: once a flush has returned nothing popped before it began is in the ring or read, whatever ran during and after it |
| `AdecFlush.StaleAfterAllGenerations` | source/audio/adec.cpp:153-157 | with exactly 2^32 flushes while a packet is in flight its audio is taken for current |
| `ThumbnailCache.ClaimSlot` | source/cache/thumbnail_cache.cpp:215-237 | the slot to reuse: the first free one, else the first of the largest biased age; none exactly when none is free and that one was touched this frame |
| `ThumbnailCache.ClaimIsDetermined` | source/cache/thumbnail_cache.cpp:215-237 | the two answers exclude each other and the slot is unique |
| `ThumbnailCache.FullTableRefusesExactly` | source/cache/thumbnail_cache.cpp:215-237 | a full table has no slot to reuse exactly if the first slot was touched this frame and every other was too, or is queued and at most thirty frames old |
| `ThumbnailCache.StaleSlotsCanBePassedOver` | source/cache/thumbnail_cache.cpp:225-231 | in a table of 32 slots of which only the k-th, queued, was not touched this frame, it is reused if k is 0 and passed over otherwise |
| `ThumbnailRuns.StaleSlotsArePassedOver` | source/cache/thumbnail_cache.cpp:225-231 | a run from the start leads to a full table in which the k-th slot, wanted by nothing for thirty frames, is passed over, for every k but 0 |
| `ThumbnailPixels.AllAtSizeExactly` | source/cache/thumbnail_cache.cpp:445-455 | every pixel of an image was last written at its size exactly when each of its rows was, and no row behind them reached back into them |
| `ThumbnailCache.WholeJobsShow` | source/cache/thumbnail_cache.cpp:438-466 | a job leaves the slot's own image, whole and at the slot's size, exactly if it wrote all rows at that size |
| `ThumbnailCache.StepExactly` | source/cache/thumbnail_cache.cpp:239-484 | every step of either thread keeps slots, fetch and copy sound, and what the buffers show exactly unless it publishes a torn image: of this id and kind, but not written at the slot's size |
| `ThumbnailCache.EveryInterleavingShows` | source/cache/thumbnail_cache.cpp:239-484 | in every interleaving, at every state, a ready slot's valid pixels and valid mirror show its own image in every pixel, at its size, from one fetch, exactly if no image is published torn; it always has at least one of the two |
| `ThumbnailCache.KeptSizesShow` | source/cache/thumbnail_cache.cpp:445-466 | all images are shown while no request gives the slot that is being written another size |
| `ThumbnailRuns.OneSizeExactly` | source/cache/thumbnail_cache.cpp:198-484 | in all interleavings of requests from a set of keys all images are shown exactly if all keys of the set have one size, of whatever items |
| `ThumbnailRuns.TwoSizesCanTear` | source/cache/thumbnail_cache.cpp:445-466 | for any two requests of different sizes: a run from the start that publishes a torn image |
| `ThumbnailRuns.OneSizeEachCanTear` | source/cache/thumbnail_cache.cpp:445-466 | so one size for each id and image kind is not enough |
| `ThumbnailRuns.AnotherImageShows` | source/cache/thumbnail_cache.cpp:445-466 | an item that is asked for again at a larger size before it is published is handed out with the end of another item's image |
| `ThumbnailCache.KeysStayDistinct` | source/cache/thumbnail_cache.cpp:198-207 | with ids of at most 63 characters no key is held twice, in every interleaving |
| `ThumbnailCache.RequestsKeepDistinctExactly` | source/cache/thumbnail_cache.cpp:692-717 | a request keeps keys distinct exactly when no other slot holds the key as it is stored |
| `ThumbnailCache.LongIdsAreNeverFound` | source/cache/thumbnail_cache.cpp:198-207 | an id of 64 or more characters is never found, so each request of it takes another slot |
| `ThumbnailCache.TouchedSlotsStay` | source/cache/thumbnail_cache.cpp:215-237 | a slot touched this frame keeps its image under every step, exactly unless its own fetch fails or a player is entered or left while it has no valid mirror |
| `ThumbnailCache.BitmapsLastTheFrame` | source/cache/thumbnail_cache.cpp:725-741 | a bitmap that was handed out keeps its size and its pixels for the rest of the frame, whatever both threads do |
| `ThumbnailRuns.RequestsCanBeServed` | source/cache/thumbnail_cache.cpp:692-717 | some run serves any request that a free cache gets: the slot is ready and shows the image |
| `ThumbnailCache.SlotTable.Find` | source/cache/thumbnail_cache.cpp:198-207 | the first slot that holds the key |
| `ThumbnailCache.SlotTable.Ask` | source/cache/thumbnail_cache.cpp:692-717 | the request's step, in place, with what is dropped before it reaches the table |
| `ThumbnailCache.SlotTable.Advance` | source/cache/thumbnail_cache.cpp:873-883 | the tick's step, in place |
| `ThumbnailCache.TicksFreeExactly` | source/cache/thumbnail_cache.cpp:873-883 | a tick frees exactly the slots that were last touched more than 180 frames ago |
| `ThumbnailCache.RetargetsAge` | source/cache/thumbnail_cache.cpp:758-770 | a tab switch takes a slot to an age of 90 frames exactly if it was younger, or more than 2^31 frames past that |
| `Resample.TimeAdvances` | source/audio/resample.c:145-147 | the integer phase schedule is floor(k*M/L) and k*M mod L |
| `Resample.OutputsAreAtTheirTime` | source/audio/resample.c:80-82 | reducing the ratio does not move an output: it is made at floor(k*rate/48000) |
| `Resample.Gcd` | source/audio/resample.c:38 | the greatest common divisor of both rates |
| `Resample.FewOutputs` | source/audio/resample.c:113-117 | n inputs make at most floor(n*L/M)+1 outputs |
| `Resample.Converter.Process` | source/audio/resample.c:119-160 | with room for resample_max_out: the next outputs of the whole input by the direct formula, all that can be made, with the window inside its buffer |
| `Resample.Converter.MakeReady` | source/audio/resample.c:136-148 | everything that has become ready is made, and there is always room for it |
| `Resample.Converter.Weigh` | source/audio/resample.c:137-143 | one channel's sum over the window is the formula's sum over the input, silence before the first frame included |
| `Resample.Converter.Trim` | source/audio/resample.c:150-157 | the window keeps exactly what the next output needs first |
| `Resample.Converter.Reset` | source/audio/resample.c:102-111 | silence is what comes before the next frame |
| `Resample.OutputOfLonger` | source/audio/resample.c:136-148 | later input does not change an output |
| `Resample.Converter.ProcessEach` | source/audio/resample.c:119-160 | a row of calls, each of which gives the next outputs, all that can be made |
| `Resample.CallsAreOneCall` | source/audio/resample.c:119-160 | the outputs of a row of calls are together those of one call for all their input |
| `Resample.CallBoundariesDoNotMatter` | source/audio/resample.c:119-160 | two rows of calls that bring the same input, cut anywhere, give the same output |
| `ResampleDirect.OutputsAreFiltered` | source/audio/resample.c:3-7 | every output is what one filter run over the input on an L times finer grid, zeros in between, gives at the place k * M |
| `ResampleDirect.ReadyExactly` | source/audio/resample.c:135-136 | an output is made exactly when all that the filter reaches is before the end of the input |
| `JsonLite.FindTopValue` | source/api/json_lite.h:88-117 | the scan with its escape flag and depth is the specification's search |
| `JsonLite.LookupAgreesWithTheTree` | source/api/json_lite.h:88-117 | for every object, every layout of its text and every key: the start of the value of the first direct member with that raw key, or none |
| `JsonLite.PassesValue` | source/api/json_lite.h:88-117 | two levels down a whole value is passed over, whatever keys and strings it holds |
| `JsonLite.ObjectEnd` | source/api/json_lite.h:130-144 | the scan with its flags is the specification's search for the closing brace |
| `JsonLite.ObjectEndsWhereItIsPrinted` | source/api/json_lite.h:130-144 | exactly the printed object's end, wherever it stands and whatever its strings hold |
| `JsonLite.CutEndFrom` | source/api/json_lite.h:130-144 | in a text cut off anywhere the end is found, the same, exactly if it is still there |
| `JsonLite.CutFindFrom` | source/api/json_lite.h:88-117 | in a text cut off anywhere: the value if its start is still there, the end of the text if only the colon is, else nothing |
| `JsonString.ReadString` | source/api/json_lite.h:41-84 | the other string reader in place, for any bytes and any buffer size: whether there is a string, the bytes of the specification, and the terminator |
| `JsonString.BlanksArePassed` | source/api/json_lite.h:14-17 | JSON's whitespace before the string is passed over |
| `JsonString.OneEscape` | source/api/json_lite.h:57-80 | one escape: a unit that is cut off or has other than digits gives nothing, and what does not fit is left out |
| `JsonString.BodiesAreRead` | source/api/json_lite.h:41-84 | for every well-formed body and any room: each character is written as far as it fits, raw ones byte by byte, and also behind one that did not fit |
| `JsonString.WholeCharactersExactly` | source/api/json_lite.h:26-39 | what is written are the whole characters that fit, from the first one on, exactly if from the first one that does not fit nothing more does |
| `JsonString.ReadersAgreeExactly` | source/api/json_lite.h:41-84 | without halves of pairs, it agrees with the decoder of json_unescape.h in the room there is under exactly that condition |
| `JsonString.RoomyEndsCleanly` | source/api/json_lite.h:41-84 | that condition holds with four bytes of room for each character |
| `JsonString.SmallBuffersCutCharacters` | source/api/json_lite.h:50-53 | a raw character that a small buffer cuts in half |
| `JsonString.SmallBuffersSkipEscapes` | source/api/json_lite.h:37-38 | an escape that is left out with the character behind it written |
| `JsonString.HalvesStayApart` | source/api/json_lite.h:66-78 | a pair of units comes out as two halves of three bytes |
| `JsonUnescape.Unescape` | source/api/json_unescape.h:56-111 | the decoder in place, for any bytes and any buffer size, is the specification's decoding, with the terminator |
| `JsonUnescape.ReadEscape` | source/api/json_unescape.h:63-89 | one escape with its surrogate pair |
| `JsonUnescape.PutUtf8` | source/api/json_unescape.h:38-49 | a character whole below the last byte, or nothing, in the bytes that `Utf8Format.Utf8Exactly` shows to be its UTF-8 |
| `Utf8Format.Utf8Exactly` | source/api/json_unescape.h:38-45 | the bytes of a code point are those, and no others, whose lead byte tells the length, whose other bytes are marked as such, and whose remaining bits are the code point, in the fewest bytes that hold it |
| `Utf8Format.OrderIsKept` | source/api/json_unescape.h:38-45 | of two code points the smaller one has the smaller byte where their bytes first differ |
| `JsonUnescape.DigitsAreRead` | source/api/json_unescape.h:22-34 | four hexadecimal digits, in either case each, are read as the number they are the digits of, and nothing else is read as a number |
| `JsonUnescape.HalvesAreJoined` | source/api/json_unescape.h:75-80 | two halves are joined to a code point exactly if they are its halves after RFC 2781 |
| `JsonUnescape.BadUnitsAreMarked` | source/api/json_unescape.h:72-73 | a unit without four digits gives a question mark, and what is behind it is read on |
| `JsonUnescape.OtherLettersStand` | source/api/json_unescape.h:88 | a backslash ahead of any other byte gives that byte |
| `JsonUnescape.DecodingIsExact` | source/api/json_unescape.h:56-111 | for every well-formed body: the UTF-8 of the longest run of its characters that fits, and the place just past the closing quote |
| `JsonUnescape.FitIsLongest` | source/api/json_unescape.h:46-47 | that run is the longest: all characters, or the next one would not have fitted whole |
| `CivilDates.DaysCountTheCalendar` | source/api/livetv.cpp:31-38 | day numbers are the calendar's: the epoch is 0 and each valid date's successor is one more |
| `CivilDates.DatesComeBack` | source/api/livetv.cpp:31-51 | every valid date, before the epoch too, is the date of its day number |
| `CivilDates.DaysComeBack` | source/api/livetv.cpp:40-51 | every day number is that of a valid date |
| `CivilDates.DaysAreInOrder` | source/api/livetv.cpp:31-38 | later dates have larger numbers, and the other way round |
| `CivilDates.RoundsDown` | source/api/livetv.cpp:33-42 | the truncating division with its correction rounds down, for negative numbers too |
| `IsoTime.ReadTicks` | source/api/livetv.cpp:59-96 | the reader with its loops is the specification's reading |
| `IsoTime.StampsAreReadExactly` | source/api/livetv.cpp:61-71 | a text starts with a date and time of day exactly if they are written out at its start with all numbers in range |
| `IsoTime.FractionsAreFloored` | source/api/livetv.cpp:73-82 | a fraction of any number of digits is its value rounded down to 100 ns |
| `IsoTime.StampsDenoteInstants` | source/api/livetv.cpp:59-96 | a local date and time up to second 60, with a T or a blank between them, with a fraction of any length or none and a zone or none, is read as the instant it denotes, and as 0 before the year 1 |
| `IsoTime.ZonesDenoteTheSameInstant` | source/api/livetv.cpp:83-95 | a text with an explicit zone denotes the same instant as its UTC form |
| `IsoTime.TicksRoundTrip` | source/api/livetv.cpp:59-112 | from 1970 through the year 9999 what is written is read back, to the tick |
| `IsoTime.NothingBeforeTheEpoch` | source/api/livetv.cpp:98-102 | nothing is written exactly before 1970 or without room |
| `LiveTvReplies.EachObject` | source/api/livetv.cpp:224-240 | the loop hands each object's own text to the reader, and says whether the text ended inside one |
| `LiveTvReplies.CutRepliesAreParsedAsFarAsTheyGo` | source/api/livetv.cpp:212-303 | for every text and every cut: exactly the objects that ended before the cut; what is read of them is a prefix of the whole; and the flag is set exactly if the cut falls inside an object still to be taken |
| `LiveTvReplies.WholeRepliesAreReadExactly` | source/api/livetv.cpp:224-303 | from a whole reply, however laid out, every object of its Items array is read, in order, up to the limit, without being reported as cut off, exactly if until then no other item has a brace as its first bracket, and one with a closing bracket is behind the last object |
| `LiveTvReplies.PlainItemsCanBeRead` | source/api/livetv.cpp:224-240 | that holds when what stands between the objects has neither |
| `LiveTvReplies.ABracketHidesAnObject` | source/api/livetv.cpp:228-236 | an array whose first item is a string with a closing bracket: the object behind it is not read |
| `AudioBitstream.AudioOutput.WriteJournal` | source/audio/audio_bitstream.cpp:139-146 | the journal's durable states, from the emptied file to the whole text; none if it cannot be opened |
| `AudioBitstream.AudioOutput.BeginOutput` | source/audio/audio_bitstream.cpp:207-355 | end state and every durable state on the way are the specification's |
| `AudioBitstream.AudioOutput.JudgeOutput` | source/audio/audio_bitstream.cpp:278-354 | what is made of the system's answers |
| `AudioBitstream.AudioOutput.End` | source/audio/audio_bitstream.cpp:357-384 | restore, which may fail, then remove the journal all the same |
| `AudioBitstream.AudioOutput.Reassert` | source/audio/audio_bitstream.cpp:386-399 | the applied setting again |
| `AudioBitstream.AudioOutput.Recover` | source/audio/audio_bitstream.cpp:163-205 | a journal is put back, if the system obliges, and removed; without one, or if it cannot be opened, an output left on a coding is reset to the widest LPCM that is taken |
| `AudioBitstream.BeginComesTo` | source/audio/audio_bitstream.cpp:207-355 | exactly the answers on which a change is kept, counts as engaged, and has frames packed, and an output that is not kept is as it was, or as the requests left it when the restore failed |
| `AudioBitstream.RequestsAre` | source/audio/audio_bitstream.cpp:117-129 | what a begin asks the system for, mode by mode: a bitstream on a stereo link for both passthrough modes, AC-3, DTS, a bitstream or LPCM on six channels for the others, the detour over eight first, and the setting as it was if it is put back |
| `AudioBitstream.ObligingSystem` | source/audio/audio_bitstream.cpp:242-354 | when the system does what it is asked: the setting and the flags that each mode ends with, for everything the wire can be reported to carry |
| `AudioBitstream.BeginIsSafe` | source/audio/audio_bitstream.cpp:207-355 | every durable state of a begin has the original setting or the whole journal and its end keeps the original, exactly when the begin finds the original or writes no journal, nothing is changed without a journal, and what is reverted ends at the original |
| `AudioBitstream.EndIsSafe` | source/audio/audio_bitstream.cpp:357-384 | the same for an end, exactly when the restore succeeds or is not needed |
| `AudioBitstream.TornJournal` | source/audio/audio_bitstream.cpp:167-171 | what a journal cut off anywhere reads as |
| `AudioBitstream.RecoversFrom` | source/audio/audio_bitstream.cpp:163-184 | from every safe state a recovery passes safe states only and restores the original, exactly when a journal that is there can be opened and its restore succeeds or the output is there already |
| `AudioBitstream.RecoveryRestoresExactly` | source/audio/audio_bitstream.cpp:139-184 | recoveries that succeed restore after every crash exactly when the original was LPCM of some channels with a down-mix number of one digit |
| `AudioBitstream.SettingSurvivesCrashes` | source/audio/audio_bitstream.cpp:163-384 | over every life from the original setting, with crashes behind any write, recoveries included: the original is never lost exactly if every call finds what allows it; then a completed recovery restores it |
| `AudioBitstream.CareKeepsTheOriginal` | source/audio/audio_bitstream.cpp:163-384 | no life loses the original in which every begin is idle or finds nothing applied, its journal opens and its restore would succeed, and every end and recovery restores |
| `AudioBitstream.SecondBeginLosesTheOriginal` | source/audio/audio_bitstream.cpp:207-355 | a begin that is not idle, of any mode, with a journal there and a restore that would succeed, on an output of some channels, keeps the original exactly if the output still is at it; that fails on top of a change that is not engaged |
| `AudioBitstream.TwoBeginsAndACrash` | source/audio/audio_bitstream.cpp:207-233 | two begins, a crash and a recovery leave the output on the coding that was asked for |

## Left out

- DTS packet mode: what it hands over depends on where feeds end (a bare core is emitted when fewer than 16 bytes follow it), so feed independence is a claim about core mode only.
- FlacStream.StreamsAreLossless: asks that the stream header and each frame fit the carry of 196608 bytes, because longer ones are lost; `FlacStream.LongFramesAreCutOff` and `FlacStream.LongHeadersAreCutOff` say what becomes of those.
- DtsRows.RowsArePlayed: asks for a last part of at least sixteen bytes, since the reader decides nothing on fewer.
- TruehdRows.RowsAreDecoded: asks that the decoder does not refuse four units in a row; `TruehdStream.CutsAgreeExactly` says what happens then.
- The decoders behind the DTS and TrueHD readers, and the size function of a DTS core: they are arguments of the models, with a state for the decoders and a function of sixteen bytes, at most 16384, for the size.
- Scaling of FLAC samples to floating point, channel positions and the counter of bad frames: the output stage gets the integer samples with their format.
- Failing allocations in the FLAC reader, and the stream info left behind by a header that was refused, which nothing reads.
- Input buffers are sequences, not arrays; queue slots hold byte sequences, and ring frames and resampler frames are one value for all channels.
- PTS seeding from packets: it does not look at the generation, so only ring frames are claimed.
- AdecFlac.FlacReader.Deliver: hands on the integer samples with their format; scaling to floating point and the channel positions are not modelled.
- DtsStream.DtsReader.DecodeCoreFrame: of what is noted about the first frame only size and blocks are kept, since rates, mode and flags come from the decoder's own header parser.
- TruehdStream.TruehdReader.DecodeUnit: emits a unit as decoded; the channel map and the defensive clamp on its sample count are not modelled.
- Carries inside the codecs during a flush, and codec changes: a frame is attributed to the packet in flight when it was pushed.
- The waiting of the decode thread for the ring to drain: it adds no step that changes anything.
- AdecFlush.NoStaleAudio: asks that no generation check wraps, because the generation is a 32-bit word; `AdecFlush.FreshExactly` has both directions.
- AdecFlush.FlushIsABarrier: asks the same.
- ThumbnailCache.EveryInterleavingShows: the fetch thread reads a slot's size once for each row and writes the row in one step; within a row the size, as the loop over the columns reads it, is not looked up again.
- Scaling of pictures, which pixel of a picture goes where, is not modelled beyond the size it was done for; nor are channel logos, which are fitted in instead of cropped, the padding of mirror rows, and integrity stamps.
- The failure list, the fetch cool-down and the order in which the fetch thread picks only narrow what it does; they are left free.
- The check of integrity stamps after long screens drops nothing when pixels and mirrors are as they were written.
- Resample.Converter.Process: asks for room for `resample_max_out` frames, as its header does; with less, the source drops input.
- The weights of the resampler are any reals, rounding is not modelled, and 48 kHz input, which is a copy, is left out.
- TruehdStream.TruehdFeedIndependence: has the premise that no four units in a row are rejected within one carry, because the claim is false without it; `TruehdStream.CutsAgreeExactly` has both directions.
- AudioBitstream.SettingSurvivesCrashes: asks for an original on LPCM with channels and a one-digit down-mix number, which `AudioBitstream.RecoveryRestoresExactly` shows to be needed.
- ThumbnailCache.SlotTable.Ask: takes whether a fetch failed lately as an argument; the list of failures with its clock is not modelled.
- LiveTvReplies.CutRepliesAreParsedAsFarAsTheyGo: takes any function of an object's own text in place of the reading of its fields, and leaves out the total count.
- The channel sort, page ranges, progress and stepping of the guide: small and easy beside the rest.
- Widths of plain counters in the FLAC header arithmetic and of ticks: values are unbounded integers, since nothing in range of the claims overflows.
- Network, files, threads, drawing, logging, settings and the vendored decoders.
