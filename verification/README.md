# Raw AAC scanning, byte-order readers and MP4 constants of Audio::Scan

This project models in Dafny the core of the raw AAC (ADTS) scanner of
Audio::Scan's C part, together with the byte-order macros shared by all of
its parsers and the constants of its MP4 header, and proves properties of
the model.

- `byte_order.dfy` (module `ByteOrder`) covers the readers `GET_INT32BE`,
  `GET_INT16BE` and `CONVERT_INT32LE`. The two big-endian readers are methods
  that read at a cursor and return the value and the advanced cursor. The
  little-endian reader is a function that leaves the cursor where it was.
  Their results are given through the reference definitions `BigEndian` and
  `LittleEndian`, with round trips against an encoder. Bytes are the
  integers 0..255. Separate lemmas on bit vectors show that the source's
  shifts and ORs, taken as unsigned 32-bit arithmetic, compute the weighted
  sums.
- `mp4_tables.dfy` (module `Mp4Tables`) covers the box-type test
  `FOURCC_EQ`, the sample-rate table, the bits-per-sample table, and the
  time-to-sample and sample-to-chunk record shapes (datatypes
  `TimeToSample`, `SampleToChunk`).
- `aac_headers.dfy` (module `AacHeaders`) decodes the two fixed-layout
  headers the AAC scanner reads, each with an encoder and round-trip lemmas:
  - the ten-byte ID3v2 tag header, its acceptance test and the tag length
    from the synchsafe size and the footer flag;
  - the six leading bytes of an ADTS header: the syncword test and the
    profile, sampling-frequency index, channel configuration and 13-bit
    frame length.
- `aac.dfy` (module `Aac`) holds `get_aacinfo` and `aac_parse_adts`.
  - The file is a byte sequence and the read buffer is an index into it.
  - `GetAacInfo` skips an ID3 tag and scans byte by byte for a syncword
    while six bytes remain. It then runs the frame walk `ParseAdts`.
  - Both are methods with loops, proved equal to the specification
    functions `AacInfoOf` and `AdtsOutcome`. Lemmas then state what those
    functions promise.
  - `AsWrittenPass` and `AsWrittenRun` model the counting and stopping of
    the source's frame loop as written, including its two defects (see
    Findings and, for what they leave aside, Left out).
- `wrappers.dfy` holds `Option` and `Result`.

Two details of the code that the model keeps:
- The ID3 test rejects version bytes equal to 0xFF (src/aac.c:47).
- The ADTS walk adds the length of the rejected last header to
  `t_framelength` before it checks that length (src/aac.c:148-151).

## Model

| member | source | states |
|---|---|---|
| ByteOrder.GetInt32BE | include/common.h:62-63 | the value is the big-endian reading of the four bytes at the cursor, below 2^32, and the cursor moves on by exactly 4 |
| ByteOrder.GetInt16BE | include/common.h:65-66 | the value is the big-endian reading of the two bytes at the cursor, below 2^16, and the cursor moves on by exactly 2 |
| ByteOrder.ConvertInt32LE | include/common.h:68-69 | the value is the little-endian reading of the four bytes at the cursor, equal to the big-endian reading of those bytes reversed, below 2^32; being a value, the cursor is not moved |
| ByteOrder.Or32IsSum | include/common.h:62-63 | four bytes widened to 32 bits, shifted by 24/16/8/0 and ORed, equal their weighted sum |
| ByteOrder.Or16IsSum | include/common.h:65-66 | two bytes shifted by 8/0 and ORed equal their weighted sum |
| ByteOrder.BigEndian4 | include/common.h:62-63 | the big-endian value of four bytes is b0·2^24 + b1·2^16 + b2·2^8 + b3 |
| ByteOrder.BigEndian2 | include/common.h:65-66 | the big-endian value of two bytes is b0·2^8 + b1 |
| ByteOrder.LittleEndian4 | include/common.h:68-69 | the little-endian value of four bytes is b3·2^24 + b2·2^16 + b1·2^8 + b0 |
| ByteOrder.LittleEndianIsReversedBigEndian | include/common.h:68-69 | for every byte string, little-endian order is big-endian order of the reversed string |
| ByteOrder.BigEndianBound | include/common.h:62-66 | an n-byte big-endian value is below 256^n |
| ByteOrder.DecodeEncodeBigEndian | include/common.h:62-66 | reading back the n bytes written for a value below 256^n gives the value |
| ByteOrder.EncodeDecodeBigEndian | include/common.h:62-66 | writing back the value read from n bytes gives the same bytes |
| ByteOrder.Int32BERoundTrip | include/common.h:62-63 | a 32-bit value written big-endian is read back by GET_INT32BE unchanged, and four bytes read and rewritten are the same bytes |
| ByteOrder.Int16BERoundTrip | include/common.h:65-66 | the same round trip for GET_INT16BE and 16-bit values |
| Mp4Tables.FourccEq | include/mp4.h:19 | FOURCC_EQ as written: when it holds, bytes 0, 1 and 3 agree; on two types with all four bytes equal it holds exactly when byte 2 is nonzero |
| Mp4Tables.FourccEqMeaning | include/mp4.h:19 | FOURCC_EQ holds iff bytes 0, 1 and 3 agree and byte 2 is nonzero in both arguments |
| Mp4Tables.FourccEqRelation | include/mp4.h:19 | FOURCC_EQ is symmetric and transitive, and reflexive exactly on types whose byte 2 is nonzero |
| Mp4Tables.SameFourccAgrees | include/mp4.h:19 | the corrected test (all four bytes equal) is an equivalence, and on pairs with equal byte 2 FOURCC_EQ is the corrected test plus "byte 2 nonzero" |
| Mp4Tables.FourccEqIgnoresByte2 | include/mp4.h:19 | FOURCC_EQ accepts "mp4a" against "mpXa", which the corrected test rejects |
| Mp4Tables.ToUint32 | include/mp4.h:21-24 | a C integer constant stored in a uint32_t: unchanged when in range, otherwise congruent modulo 2^32 |
| Mp4Tables.SampleRate | include/mp4.h:21-24 | entries 0..12 lie between 7350 and 96000 Hz, entries 13 and 14 are -1 stored as 0xFFFFFFFF, entry 15 is 0 |
| Mp4Tables.SampleRateDecreasing | include/mp4.h:21-24 | the defined entries are strictly decreasing from 96000 (index 0) to 7350 (index 12) |
| Mp4Tables.BitsPerSample | include/mp4.h:26-28 | a two-bit code gives 8, 16, 20 or 24 bits, and 8 exactly for code 0 |
| Mp4Tables.BitsPerSampleIncreasing | include/mp4.h:26-28 | the bit depths are strictly increasing in the code |
| AacHeaders.Synchsafe | src/aac.c:51 | the 28-bit size from four bytes below 0x80 is below 2^28 |
| AacHeaders.SynchsafeDigits | src/aac.c:51 | every value below 2^28 is the synchsafe sum of its four 7-bit digits |
| AacHeaders.SynchsafeUndigits | src/aac.c:51 | the four 7-bit bytes are recovered from their synchsafe sum |
| AacHeaders.EncodeSynchsafe | src/aac.c:51 | a synchsafe encoding is four bytes, each below 0x80 |
| AacHeaders.SynchsafeDecodeEncode | src/aac.c:51 | decoding the encoding of a 28-bit value gives the value |
| AacHeaders.SynchsafeEncodeDecode | src/aac.c:51 | encoding the decoded value of four 7-bit bytes gives the bytes |
| AacHeaders.HasFooter | src/aac.c:53 | the footer flag is set exactly when the flags byte modulo 0x20 is at least 0x10, that is when bit 4 is set |
| AacHeaders.FooterFlagMask | src/aac.c:53 | the footer test is the source's `flags & 0x10` |
| AacHeaders.TagLength | src/aac.c:51-56 | the tag length is 10 plus the body size, plus 10 more exactly when there is a footer, between 10 and 2^28 + 19 |
| AacHeaders.IsId3Header | src/aac.c:45-49 | the ID3 test holds exactly when the first three bytes are "ID3", neither version byte is 0xFF and the four size bytes 6..9 are all below 0x80 |
| AacHeaders.ParseId3Header | src/aac.c:45-56 | a header is reported iff the bytes are "ID3", both version bytes are below 0xFF and the four size bytes are below 0x80; it carries bytes 3, 4, 5 and a tag size between 10 and 2^28 + 19 |
| AacHeaders.EncodeId3Header | src/aac.c:45-51 | a written ID3 header is ten bytes long |
| AacHeaders.HeaderWithSizeBytes | src/aac.c:45-56 | "ID3", two version bytes below 0xFF, the flags and four 7-bit size bytes parse to those fields and the tag length of their size |
| AacHeaders.Id3HeaderParsesWritten | src/aac.c:45-56 | a header written for a body size parses back with tag size 10 + size (+10 with a footer) |
| AacHeaders.Id3HeaderWritesParsed | src/aac.c:45-56 | a recognised header is exactly what the writer emits for its parsed fields |
| AacHeaders.Id3HeaderRoundTrip | src/aac.c:45-56 | both directions of the ID3 round trip |
| AacHeaders.SyncAt | src/aac.c:79 | a syncword at i means two bytes from i exist, the first is 0xFF and the second lies between 0xF0 and 0xF9 |
| AacHeaders.SyncSecondByteValues | src/aac.c:79 | exactly four second bytes pass the syncword test: 0xF0, 0xF1, 0xF8 and 0xF9 |
| AacHeaders.SyncMask | src/aac.c:136 | the syncword second-byte test is the source's `(b & 0xF6) == 0xF0` |
| AacHeaders.FrameLengthField | src/aac.c:145-146 | the 13-bit frame length from header bytes 3, 4 and 5 is below 2^13 |
| AacHeaders.DecodeAdtsHeader | src/aac.c:139-146 | every decoded field fits its width: profile < 4, sampling-frequency index < 16, channels < 8, frame length < 2^13 |
| AacHeaders.AdtsFieldMasks | src/aac.c:140-146 | the source's mask-and-shift expressions for the four fields equal the decoder's arithmetic |
| AacHeaders.ProfileBits | src/aac.c:140 | bits 7-6 of byte 2 shifted down are byte 2 divided by 64 |
| AacHeaders.RateIndexBits | src/aac.c:141 | bits 5-2 of byte 2 shifted down are byte 2 divided by 4, modulo 16 |
| AacHeaders.ChannelBits | src/aac.c:142 | bit 0 of byte 2 above bits 7-6 of byte 3 is the three-bit channel value |
| AacHeaders.FrameLengthBits | src/aac.c:145-146 | the 13-bit frame length is bits 1-0 of byte 3, byte 4, and bits 7-5 of byte 5 |
| AacHeaders.EncodeAdtsHeader | src/aac.c:136-146 | a written ADTS header is six bytes and starts with a syncword |
| AacHeaders.AdtsHeaderRoundTrip | src/aac.c:139-146 | decoding a written header gives back the profile, index, channels and frame length written |
| Aac.FrameLengthAt | src/aac.c:145-146 | the frame length read at a position is below 2^13 |
| Aac.FirstHeader | src/aac.c:139-143 | the fields are reported exactly when a header is at the start, and then fit their widths |
| Aac.WalkStep | src/aac.c:148-154 | where a frame is accepted the walk counts it, adds its length and continues after it |
| Aac.WalkStop | src/aac.c:133-151 | where no frame is accepted the walk ends there, adding the rejected header's length |
| Aac.WalkFrames | src/aac.c:128-155 | the walk counts exactly the accepted frames, ends after exactly their lengths, and its total is their sum plus the rejected header's length |
| Aac.FramesAreFrames | src/aac.c:133-154 | each accepted frame starts right after the previous ones, with a syncword, and has the length its header gives, between 1 and 8191 |
| Aac.FramesEnd | src/aac.c:128-155 | the walk ends inside the file at a position where no frame is accepted |
| Aac.AdtsOutcomeMeaning | src/aac.c:128-155 | frames is the number of accepted frames; audio_size falls by exactly the bytes consumed; the walk stops at the first failed sync or over-long or zero frame; t_framelength is the bytes consumed plus the rejected frame's length, which then exceeds what remains |
| Aac.AdtsFirstHeader | src/aac.c:139-143 | the fields come from the header at the start only, exist iff a header is there, and carry the first frame's length |
| Aac.AdtsOutcome | src/aac.c:128-155 | the outcome of the frame walk from start reports header fields exactly when a header is at start |
| Aac.OutcomeAtStop | src/aac.c:128-155 | once the walk reaches a state where no frame is accepted, its outcome is that state's counts |
| Aac.ParseAdts | src/aac.c:114-155 | the corrected frame loop returns exactly the outcome of the walk specification |
| Aac.SyncScan | src/aac.c:76-87 | the scan never moves backwards or past the end of the file, and wherever it stops with six bytes left there is a header |
| Aac.SyncScanMeaning | src/aac.c:76-87 | the scan skips only positions without a header and stops at the first header or, if none, where fewer than six bytes remain |
| Aac.AacInfoMeaning | src/aac.c:37-96 | get_aacinfo fails iff the file is shorter than 10 bytes or than the ID3 tag plus 10; otherwise audio_offset is the tag size plus the bytes skipped, none of them at a header; the frame walk runs iff the scan found a header, and from there |
| Aac.AacInfoOf | src/aac.c:20-110 | a file under ten bytes fails; a success reports the file size and an audio_offset between the scan's start and the end of the file, with frame-walk results exactly when a header is at audio_offset |
| Aac.GetAacInfo | src/aac.c:20-110 | the method with the scan loop returns exactly the outcome of get_aacinfo's specification |
| Aac.AsWrittenPass | src/aac.c:128-155 | one pass as written moves forward and counts one frame when it continues, and stays put without counting when it stops |
| Aac.AsWrittenRun | src/aac.c:128-155 | after n passes still running, the loop as written has counted exactly n more frames and is still inside the file; when it has stopped, it has counted fewer than n |
| Aac.AsWrittenPassAgrees | src/aac.c:128-155 | with six bytes left and a nonzero frame length, a pass as written reads nothing beyond the file, continues iff a frame is accepted, and keeps to the corrected walk |
| Aac.ZeroLengthNeverStops | src/aac.c:145-154 | at a header with frame length 0, the loop as written is still at the same offset after any number of passes, counting one frame per pass |
| Aac.LastFrameReadsPastEnd | src/aac.c:129-136 | after a frame ending exactly at the end of the file, the next pass as written reads a byte that is not there |
| Aac.ZeroLengthExample | src/aac.c:145-154 | on the ten-byte file FF F1 50 80 00 00 00 00 00 00, get_aacinfo reaches the frame walk at offset 0 and the corrected walk stops there with no frame, while the loop as written stays at offset 0 after any number of passes |
| Aac.ZeroLengthOutcome | src/aac.c:128-155 | on that file the header at 0 has frame length 0 and get_aacinfo reports audio_offset 0, no frame and the fields of that header |
| Aac.LastFrameExample | src/aac.c:129-146 | on the ten-byte file FF F1 50 80 01 40 00 00 00 00, one frame of length 10, get_aacinfo counts that frame, while the loop as written reads past the end on its second pass |
| Aac.LastFrameOutcome | src/aac.c:128-155 | on that file the one frame fills the file and get_aacinfo reports one frame of 10 bytes, t_framelength 10 and audio_size 0 |
| Aac.ExampleInfo | src/aac.c:37-87 | a ten-byte file starting FF F1 50 80 has no ID3 tag and its scan stops at once, so the frame walk runs from offset 0 |
| Aac.ExampleHeader | src/aac.c:79-143 | a header with byte 2 = 0x50 and byte 3 = 0x80 is profile 1, sampling-frequency index 4, 2 channels |

## Left out

- Bitrate and song length are not modelled. They are floating-point (src/aac.c:157-171). The model stops at the integer counts they are computed from.
- The Perl hash output and the `my_hv_*` macros are not modelled. This includes `file_size`, `id3_version`, `audio_offset` and the stored fields. The model returns them as a datatype instead.
- PerlIO seeking and `file_size` from `PerlIO_tell` are replaced by the length of the byte sequence.
- The Buffer and `_check_buf` are not part of this model. The buffer is an index into the whole file, and a request for n bytes succeeds exactly when n bytes remain. So the block size `AAC_BLOCK_SIZE` (defined in aac.h, which is not part of this model) plays no part.
- Aac.GetAacInfo: the sync scan runs over the rest of the file. The source's loop only looks at what is already buffered.
- Aac.ParseAdts: `frame_length > buffer_len` compares the frame length with the rest of the file, not with the buffered window.
- `parse_id3` and libid3tag are not modelled. Reading the ID3 tag contents (src/aac.c:100-102) is outside the scanner.
- The tables `adts_sample_rates` and `aac_profiles` (aac.h, not part of this model) are not looked up. The header keeps the raw sampling-frequency index and profile number.
- ADIF is not modelled. Its parser is commented out in the source (src/aac.c:89-94).
- ByteOrder.GetInt32BE, ByteOrder.ConvertInt32LE: the bytes are promoted to signed `int` in C, so `b[0] << 24` (or `b[3] << 24`) overflows when that byte is 0x80 or more. The model gives the unsigned 32-bit value and does not represent that signed overflow.
- C integer widths are not modelled. `frames`, `t_framelength` and `audio_offset` are unbounded naturals here. Their overflow on inputs of more than 2^31 bytes of frames is not represented.
- Aac.AsWrittenPass: what the source does with the bytes it reads past the buffered ones is not modelled; the pass ends in `ReadsPastEnd` instead. Like `ParseAdts`, it compares the frame length with the rest of the file rather than with `buffer_len(buf)`. It does not extract the first header's fields (src/aac.c:139-143) and does not track `audio_size` (src/aac.c:154); `ParseAdts` does both.
- The FLAC and Ogg prototypes, `GUID`, `_PACKED`, `DEBUG_TRACE` and the rest of mp4.h beyond the FOURCC test, the two tables and the two run records are not modelled. `TimeToSample` and `SampleToChunk` are shapes only; no operation reads them in this core.

## Findings

| source | as written | input that shows it | evidently intended | confidence | as-written member | corrected member |
|---|---|---|---|---|---|---|
| include/mp4.h:19 | byte 2 of the two box types is only tested for being nonzero; it is never compared | "mp4a" against "mpXa" (6D 70 34 61 vs 6D 70 58 61) is reported equal | all four bytes compared | high, not executed | Mp4Tables.FourccEqIgnoresByte2 | Mp4Tables.SameFourccAgrees |
| src/aac.c:145-154 | a header whose frame length is 0 passes the length check, consumes nothing and is read again for ever | the ten-byte file FF F1 50 80 00 00 00 00 00 00 | stop (or skip) at a zero frame length | high, not executed | Aac.ZeroLengthNeverStops | Aac.ParseAdts |
| src/aac.c:129-136 | the refill asks for only min(audio_size, block) bytes, which is 0 after a last frame that ends the file, then reads the syncword bytes | the ten-byte file FF F1 50 80 01 40 00 00 00 00 (one frame of length 10 filling the file) | ask for the six header bytes before reading them | medium (depends on `_check_buf` succeeding for a request of 0 bytes), not executed | Aac.LastFrameReadsPastEnd | Aac.ParseAdts |
