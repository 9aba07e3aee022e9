# A model of iqzip, with proofs

iqzip stores recordings of IQ samples as a self-describing CCSDS header followed by the output of
libaec's entropy coder. This project models the two parts of it that carry real state, and proves
that they compose into a lossless file format.

**The header** (`PrimaryHeader.dfy`, `Cip.dfy`, `IqzipHeader.dfy`, `AecConf.dfy`). Three levels of
bit-packed fields: the primary header of section 4.1.2 of CCSDS 133.0-B-1, the Compression
Identification Packet of CCSDS 121.0-B-2, and iqzip's own extension for block sizes above 64. The
writer emits 14, 16 or 18 bytes; the parser has to find the length and the block size by cascading
through the levels, and the decompressor has to rebuild the codec configuration from what it finds.

**The drivers** (`AecContract.dfy`, `StreamSpec.dfy`, `StreamLaws.dfy`, `Session.dfy`,
`Compressor.dfy`, `Decompressor.dfy`). The streaming calls cut buffers of any size into blocks of
exactly 32768 bytes and keep the rest for the next call; the file calls run a two-flag loop with
fixed buffers around the codec. `compressor_impl` and `decompressor_impl` hold the same private
fields and run the same loops around `aec_encode` and `aec_decode`, so the loops appear once, in the
class `CodecSession`, and the codec decides which call is meant.

**End to end** (`RoundTrip.dfy`). Compressing and decompressing returns the input, through the file
calls, the streaming calls, or a mixture; the two APIs write the same file exactly under the condition
of `StreamMatchesFile`.

`Bytes.dfy` holds bytes and the C++ integer conversions. `SampleCodecs.dfy` holds concrete codecs that
meet the contract: a pair on which all four end-to-end methods run (`BlockRoundTrips`, with `PairFits`
for its hypotheses), an encoder whose flush does not fit, and an expander in two versions, one that
loses input when the output buffer fills up and one that does not.

## How it is modelled

- A codec is a deterministic state machine given by total functions (`AecContract.Codec`), as libaec
  is not part of this model. `AecContract.Lawful` is its contract: a call never overruns its buffers;
  nothing is emitted for no input; what has been emitted is always a prefix of the encoding of every
  continuation; a successful call without flush stops only when the output space is used up or the
  input is exhausted and nothing emittable is held back; a flush completes the encoding or uses up the
  output space. How much of an output space a codec can use is part of its meaning (`usable`): all of
  it for single bytes, a multiple of the sample size for whole samples. `Frugal` is a further property,
  assumed only where it is named: no byte is taken once the output space is used up. That decoding
  inverts encoding is a hypothesis of the round trips only. `StreamSpec` assumes no law at all.
- Files are byte sequences. The input stream has a cursor, the output stream only grows.
- Buffers are arrays: the chunk buffer, the output buffer, the two buffers of the file calls, the six
  and four byte header buffers. All copies are checked against both bounds.
- `size_t`, `long` and `int` are 64, 64 and 32 bits; the unsigned subtractions and the `int` running
  total of the file calls are written out.
- The header constructors do not clear their buffers. The encoders OR into them, so the theorems
  start from zeroed buffers; `EncodeOverGarbage` says exactly when that matters.
- `std::runtime_error(...)` is built but not thrown in the encoders, so an invalid argument sets no
  bit. In the parser it is thrown, and a file shorter than 18 bytes is an error.
- The extension header is taken as a 16-bit word stored low byte first: block size in bits 0 to 3,
  interval in bits 4 to 14, endianness in bit 15 (include/iqzip/iqzip_compression_header.h:60-64).
- The flag constants have the values of libaec's public header.
- What the encoders write is stated twice: by functions that follow the source's code tables, and by
  layout predicates (`FileLayout`, `VariableLayout`, `ExtensionLayout`, `Says`, ...) that give the bits
  from the values alone, without those functions.

## What turned out false of the code, and exactly when it holds

- Sequence flags never reach the header: the mask is applied before the shift. The primary header
  round-trips exactly for flags 0 (`EncodeThenDecode`, `DecodeThenEncode`).
- The secondary header flag is not masked; its setter disturbs other fields exactly when bits 1 to 4
  of the argument are not all 0 (`SecondaryFlagIsolated`). The other six setters change no field but
  their own (`CallUpdatesItsField`).
- The header length is found exactly for the combinations in `HeaderLengthAgreement`; with restricted
  codes and block size 8 or 16 the parser returns 14 for a 16-byte header.
- Both sides configure the codec alike behind every payload exactly for `Supported` parameters
  (`ConfigurationAgreesAlwaysIff`), and behind a given payload exactly when they match it
  (`ConfigurationAgreesIff`). Restricted codes that are on are never recovered, because
  the bit is not shifted down; sample resolution 32 comes back as 0; and for block sizes up to
  64, where the extension is not written, the endianness is read out of the payload
  (`SmallBlocksReadPayload`). That includes the command line's default block size of 64
  (apps/iqzip.cpp:112).
- `compress` succeeds even when its one flush does not fit the output buffer; the file is complete
  exactly when it does (`Compressor.Compress`, and `FlushLosesOutput` for an encoder whose flush does not).
- A streaming call zeroes the pending input count, so what the codec left of its block is gone. Nothing
  is lost exactly when every call took its whole block (`NothingLostIff`); that is so when all but the last
  byte of every call's input leave room in the output buffer, and a frugal codec only then
  (`EverythingTakenIff`). A full output buffer alone decides nothing: `FullOutputLosesInput` and
  `FullOutputLosesNothing` show one lawful codec of either kind.
- The `int` running total of the file calls: `compress` counts its writes correctly exactly when fewer
  than 2^31 bytes are emitted before the flush, `decompress` exactly when the decoded file is shorter
  than 2^31 bytes (`Compressor.Compress`, `Decompressor.Decompress`).
- A streaming call that fails keeps the offending block and drops the rest of the caller's buffer
  (`FailureState`).

## Model

| member | source | states |
|---|---|---|
| RoundTrip.FileRoundTrip | lib/compressor_impl.cpp:65-149 | compressing a file and decompressing the result succeeds and returns the input, for all parameters and payloads the header can be read back for; assumed are only that the decoder inverts the encoder on this input under the compressor's configuration, that the last flush fits, and the bounds below which the `int` total is right |
| RoundTrip.StreamRoundTrip | lib/compressor_impl.cpp:151-281 | the same when the input goes in through the streaming calls, cut into any buffers; the compressing session ends with status 0 when shutting the encoder down reports no error |
| RoundTrip.StreamToStream | lib/decompressor_impl.cpp:139-245 | the same with the streaming calls on both sides, the decoder configured from the parsed header and fed what is found behind it, with unrelated cuts; both sessions end with status 0 when shutting the codecs down reports no error |
| RoundTrip.StreamMatchesFile | lib/compressor_impl.cpp:97-281 | the streaming calls and the file calls, both run, write byte for byte the same file, exactly when the streaming flush fits or nothing is emitted early for the tail |
| RoundTrip.PayloadIsFound | lib/decompressor_impl.cpp:45-85 | for all parameters and payloads: the decompressor finds the compressor's configuration and seeks to exactly the payload if and only if the file is recoverable |
| StreamSpec.PartitionIndependence | lib/compressor_impl.cpp:176-224 | any cut of the data into buffers has the outcome of one call on the joined data, status and state, on success and failure, for every codec |
| StreamSpec.Feed | lib/compressor_impl.cpp:176-224 | after a successful call less than a block waits, after any call at most one |
| StreamSpec.FeedSplits | lib/compressor_impl.cpp:176-224 | two calls have the effect of one on the joined buffers; a successful long call has successful prefixes |
| StreamSpec.FailureAbsorbs | lib/compressor_impl.cpp:198-203 | a failing call has the same outcome whatever follows in its buffer |
| StreamSpec.CanonicalBlocks | lib/compressor_impl.cpp:187-223 | the codec has seen exactly the n / 32768 blocks at their fixed positions, in order; the rest waits; the file is what it held followed by the output |
| StreamSpec.FeedLength | lib/compressor_impl.cpp:181-220 | n mod 32768 bytes wait after a successful call |
| StreamSpec.FailureState | lib/compressor_impl.cpp:198-203 | the state of a session after the codec fails on block n of the joined buffers: the block is kept, earlier output is written, later data is gone |
| StreamLaws.BlocksConserve | lib/compressor_impl.cpp:189-215 | with room for all but the last byte of every block, no call fails on accepted data and every block is taken whole |
| StreamLaws.OutputOfWholeBlocks | lib/compressor_impl.cpp:189-215 | after blocks taken whole the file is the first `Emitted` bytes of what can be emitted for them, a length given by the output lengths alone |
| StreamLaws.BlocksTakenIff | lib/decompressor_impl.cpp:162-179 | all blocks are taken whole if all but the last byte of each leave room in the output buffer, and by a frugal codec only if so |
| StreamLaws.OutputIsOfTakenBytes | lib/decompressor_impl.cpp:162-177 | without any room assumption, the file is what the codec emits for the bytes it really took |
| StreamLaws.NothingLostIff | lib/decompressor_impl.cpp:174-179 | the bytes taken are the whole blocks exactly when every call took its whole block |
| StreamLaws.EverythingTakenIff | lib/decompressor_impl.cpp:162-229 | closing call included: the decoder is given exactly the joined buffers if the output lengths leave room, and for a frugal decoder only if so |
| StreamLaws.SessionBeforeFinish | lib/compressor_impl.cpp:176-224 | after calls that succeed, however cut, the file is what the codec emits for the bytes it took, and the tail waits |
| StreamLaws.DecompressesTakenBytes | lib/decompressor_impl.cpp:139-229 | for any lawful decoder, a session whose calls succeed and whose closing call has room writes exactly what is emitted for the bytes taken, followed by the tail |
| StreamLaws.CompressesTakenBytes | lib/compressor_impl.cpp:176-264 | a compression session encodes the bytes taken, followed by the tail, as far as its flush reaches |
| StreamLaws.DecompressesWhenTaken | lib/decompressor_impl.cpp:139-229 | when every call took its whole block, the decompression session writes exactly what the decoder emits for the joined buffers |
| StreamLaws.StreamingCompresses | lib/compressor_impl.cpp:247-264 | a streaming session whose calls took their blocks writes the header and the encoding of the joined buffers, cut only if the last flush does not fit, and ends with the status of shutting the codec down |
| StreamLaws.StreamingDecompresses | lib/decompressor_impl.cpp:139-229 | so does a streaming decompression: what the decoder emits for the joined buffers, whole exactly when the closing call's output buffer suffices, and the same status |
| StreamLaws.SessionStatus | lib/compressor_impl.cpp:198-281 | the status is that of the first failing step, -1 for the closing codec call, and a failing step writes nothing; 0 exactly when all steps succeed |
| SampleCodecs.FullOutputLosesInput | lib/decompressor_impl.cpp:162-177 | a lawful codec and any 32768-byte block for which a session writes only what belongs to the first 20480 bytes |
| SampleCodecs.FullOutputLosesNothing | lib/decompressor_impl.cpp:162-177 | a lawful codec that fills the output buffer on the same block, and a session that loses nothing |
| SampleCodecs.FlushLosesOutput | lib/compressor_impl.cpp:138-148 | a lawful encoder and inputs for which `compress` reports success and the last byte of the encoding is missing |
| SampleCodecs.BlockRoundTrips | lib/compressor_impl.cpp:65-281 | the end-to-end methods run on a concrete encoder and decoder, for all sizes, inputs and cuts in range, return the input and report status 0 throughout |
| MachineInts.RemainderIsExact | lib/compressor_impl.cpp:188-214 | the unsigned difference stored in a long is the mathematical one exactly when that fits a long |
| MachineInts.IntTotalIsExact | lib/compressor_impl.cpp:126-128 | the bytes counted through the int total are the newly emitted ones exactly while the total is below 2^31 |
| Session.CodecSession.constructor | lib/iqzip_impl.cpp:91-116 | the state of the codec stream and the buffers after initialisation |
| Session.CodecSession.Run | lib/compressor_impl.cpp:119-124 | one codec call moves both cursors and the total by what the codec took and emitted, whether or not it fails |
| Session.CodecSession.Remainder | lib/compressor_impl.cpp:188-214 | the loop counter is the mathematical number of bytes beyond a block |
| Session.CodecSession.CopyIn | lib/compressor_impl.cpp:190-191 | the caller's bytes follow the waiting ones in the chunk buffer, inside both buffers |
| Session.CodecSession.FillAndPush | lib/compressor_impl.cpp:190-213 | one turn of the stream loop keeps the outcome `Feed` predicts, or ends in it on failure |
| Session.CodecSession.PushBlock | lib/compressor_impl.cpp:192-213 | one codec call on the full chunk buffer; on success new output is written, the buffer emptied, the output space restored |
| Session.CodecSession.PushBlocks | lib/compressor_impl.cpp:187-215 | the loop refines `Feed` up to the last incomplete block |
| Session.CodecSession.StreamPush | lib/compressor_impl.cpp:176-224 | `stream_compress` and `stream_decompress` refine `Feed` and keep the buffer and accounting invariant |
| Session.CodecSession.StreamFinish | lib/compressor_impl.cpp:247-271 | one codec call on what waits: a failure gives -1 and writes nothing, otherwise its output is written and the status is that of shutting the codec down |
| Session.CodecSession.Read | lib/compressor_impl.cpp:111-112 | the next bytes of the file, at most one buffer of them, are at the start of the input buffer |
| Session.CodecSession.Refill | lib/compressor_impl.cpp:110-117 | the first half of the file loop reads the next piece, a short read meaning the end |
| Session.CodecSession.WriteProduced | lib/compressor_impl.cpp:126-132 | exactly the new output is written and the output buffer given back, if and only if fewer than 2^31 bytes were out before |
| Session.CodecSession.PumpOnce | lib/compressor_impl.cpp:119-135 | the second half of the file loop keeps consumed, waiting and written bytes in step |
| Session.CodecSession.PumpTurn | lib/compressor_impl.cpp:110-135 | the file is always consumed, waiting and unread bytes in order; a turn that neither consumes nor emits has seen its end |
| Session.CodecSession.FilePump | lib/compressor_impl.cpp:97-136 | the file loop terminates for every lawful codec that can emit, consumes the whole file in order and writes everything emittable; all its writes are counted right exactly when that is less than 2^31 bytes; on a codec error it returns that call's status, and the file holds exactly what was emitted before the call |
| Compressor.CompressInit | lib/compressor_impl.cpp:65-95 | the output file starts as the written header, byte for byte from the parameters; the codec is told exactly the parameters; the chunk buffer is large enough exactly when the resolution is not 0 |
| Compressor.Compress | lib/compressor_impl.cpp:97-149 | the file is extended by the encoding of the whole input as far as one flush reaches, completely exactly when the flush fits; the writes are counted right exactly when fewer than 2^31 bytes precede the flush; on an error the file holds what was emitted before the failing call, with that call's status or, for the flush, -1 |
| Compressor.FlushFile | lib/compressor_impl.cpp:138-148 | one flush call extends the file to the encoding, or by a full output buffer of it; a failing one gives -1 and writes nothing |
| Compressor.StreamCompressAll | lib/compressor_impl.cpp:151-281 | a session of real calls refines `StreamSession` |
| Decompressor.DecompressInit | lib/decompressor_impl.cpp:41-94 | a session positioned behind the parsed header, with the codec the header selects; none for a short file; behind a recoverable header the codec is told the parameters the file was written with |
| Decompressor.Decompress | lib/decompressor_impl.cpp:96-137 | the output file is everything the decoder emits for the payload; the writes are counted right exactly when that is shorter than 2^31 bytes; on an error the file holds what was emitted before the failing call, with that call's status |
| Decompressor.StreamDecompressAll | lib/decompressor_impl.cpp:139-245 | a session of real calls refines `StreamSession` |
| AecConf.InitAecStream | lib/iqzip_impl.cpp:91-116 | bits per sample, block size and interval come from the resolution, block size and interval members; for all values, the flag word says 3-byte samples, not enforced, the inverted low bits of sense and endianness, and status and option unmasked |
| AecConf.ParametersAreSaid | lib/iqzip_impl.cpp:91-116 | the compressor's codec is told the constructor arguments themselves |
| AecConf.FlagBits | lib/iqzip_impl.cpp:98-108 | for 0/1 options each flag bit says what its option says, signedness and byte order inverted |
| AecConf.FlagsAgreeIff | lib/iqzip_impl.cpp:103-108 | for all option values and everything the parser can find: the flag words of both sides agree exactly for the listed values |
| AecConf.SettingsBehindHeader | lib/decompressor_impl.cpp:45-67 | the members `decompress_init` recovers from the part that is always written |
| AecConf.ConfigurationAgreesIff | lib/decompressor_impl.cpp:45-70 | for all parameters and payloads: both sides configure the codec alike exactly when the parameters survive the header and the bits read from the payload match |
| AecConf.ConfigurationAgrees | lib/decompressor_impl.cpp:45-70 | above block size 64, both sides configure the codec alike exactly for supported parameters, for every payload |
| AecConf.ConfigurationAgreesAlwaysIff | lib/decompressor_impl.cpp:45-70 | for all parameters: agreement behind every payload exactly for supported ones |
| AecConf.DisagreeingPayload | lib/decompressor_impl.cpp:45-70 | a payload behind which the two sides disagree, for any unsupported parameters |
| AecConf.SmallBlocksReadPayload | lib/decompressor_impl.cpp:67-67 | up to block size 64 agreement forces the top bit of a payload byte |
| AecConf.SupportedIsRecoverable | lib/decompressor_impl.cpp:45-85 | files with supported parameters can be read back whatever they hold |
| AecConf.RecoveredConfiguration | lib/decompressor_impl.cpp:45-85 | behind a recoverable header the decompressor's codec is told the parameters the file was written with, and the seek skips the header |
| IqzipHeader.ExtensionRoundTrip | lib/iqzip_compression_header.cpp:377-491 | over a zeroed word the extension recovers exactly the powers of two from 128 to 32768 |
| IqzipHeader.ExtensionOverAny | lib/iqzip_compression_header.cpp:377-491 | over any word: what the decoders then read for block size, endianness and interval, for all arguments |
| IqzipHeader.ExtensionIsLaidOut | lib/iqzip_compression_header.cpp:377-439 | the bits of the extension word from the values passed, over any previous word |
| IqzipHeader.ExtensionBlockCodes | lib/iqzip_compression_header.cpp:441-470 | what all 16 block size codes of the extension stand for |
| IqzipHeader.ParseWritten | lib/iqzip_compression_header.cpp:98-167 | the parser finds everything that was written, and payload bytes where a subfield was not |
| IqzipHeader.HeaderLengthAgreement | lib/iqzip_compression_header.cpp:113-180 | the parsed length is the written length exactly for the listed block sizes and options, for every payload |
| IqzipHeader.BlockSizeRecovered | lib/iqzip_compression_header.cpp:205-216 | the cascade returns the original block size exactly for the powers of two from 8 to 32768, for every payload |
| IqzipHeader.FileIsLaidOut | lib/iqzip_compression_header.cpp:98-123 | for all parameters: the length of the written header and the bits of each of its bytes, from the constructor arguments alone |
| IqzipHeader.PrimaryReadBack | lib/iqzip_compression_header.cpp:125-168 | behind any payload the primary header's decoders return the parameters, the count modulo 16384, exactly for parameters in range with sequence flags 0 |
| IqzipHeader.PacketReadBack | lib/iqzip_compression_header.cpp:125-168 | behind any payload the packet's decoders return grouping length modulo 4096, technique and interval, and status, predictor, mapper, sense and resolution exactly for the tabulated values |
| IqzipHeader.IqzipCompressionHeader.constructor | lib/iqzip_compression_header.cpp:30-72 | the bits of all three levels, from the constructor arguments |
| IqzipHeader.IqzipCompressionHeader.EncodeExtension | lib/iqzip_compression_header.cpp:197-203 | the bits of the word: a listed size is 128 shifted by the code, others have code 0; the interval less one modulo 2048; the endianness option, or the old bit when it is above 1; and what the decoders read from them |
| IqzipHeader.IqzipCompressionHeader.WriteHeader | lib/iqzip_compression_header.cpp:98-123 | the file's length and the bits of each byte, from the constructor arguments |
| IqzipHeader.IqzipCompressionHeader.ParseHeader | lib/iqzip_compression_header.cpp:125-182 | every buffer holds its bytes of the file, the length follows from the two raw block size codes, and a file shorter than 18 bytes is refused and changes nothing |
| Cip.PreprocessorLayout | include/iqzip/compression_identification_packet.h:121-131 | the preprocessor decoders read the tabulated bits |
| Cip.ExtendedParametersLayout | include/iqzip/compression_identification_packet.h:146-158 | the extended parameters decoders read the tabulated bits |
| Cip.FixedIsLaidOut | lib/compression_identification_packet.cpp:150-172 | the four fixed bytes from the values passed: grouping length modulo 4096, technique, interval less one |
| Cip.VariableIsLaidOut | lib/compression_identification_packet.cpp:174-416 | every bit of the six variable bytes from the values passed, for all values, those outside the tables included |
| Cip.FixedDecoders | lib/compression_identification_packet.cpp:418-437 | what the fixed part's decoders return for any four bytes |
| Cip.BlockDecoders | lib/compression_identification_packet.cpp:472-511 | what the two block size decoders return for all of their codes |
| Cip.FixedRoundTrip | lib/compression_identification_packet.cpp:150-172 | grouping length modulo 4096, technique and all 256 intervals come back |
| Cip.PredictionRoundTrip | lib/compression_identification_packet.cpp:182-240 | status, predictor and mapper come back exactly for their tabulated values |
| Cip.SampleRoundTrip | lib/compression_identification_packet.cpp:267-296 | data sense comes back exactly for 0 and 1, resolution exactly up to 31 |
| Cip.BlockRoundTrip | lib/compression_identification_packet.cpp:472-511 | the preprocessor recovers exactly block sizes 8 and 16, the extended parameters exactly 8 to 64 |
| Cip.ExtendedRoundTrip | lib/compression_identification_packet.cpp:390-527 | the low four bits of the interval less one; the restricted option is non-zero exactly for 1 and itself only for 0 |
| Cip.CompressionIdentificationPacket.constructor | lib/compression_identification_packet.cpp:32-51 | every bit of the ten bytes, from the values passed |
| Cip.CompressionIdentificationPacket.Encode | lib/compression_identification_packet.cpp:72-82 | over any previous contents: the bytes laid out from the values passed are ORed in or, where the source assigns or clears, replace the old ones |
| PrimaryHeader.IdentificationLayout | include/iqzip/ccsds_packet_primary_header.h:57-75 | the packet identification decoders read the bit ranges of the standard |
| PrimaryHeader.SequenceControlLayout | include/iqzip/ccsds_packet_primary_header.h:57-75 | so do the sequence control decoders |
| PrimaryHeader.IsLaidOut | lib/ccsds_packet_primary_header.cpp:61-194 | every bit of the six bytes from the values passed, for all values: the secondary flag spills, the sequence flags vanish |
| PrimaryHeader.EncodeThenDecode | lib/ccsds_packet_primary_header.cpp:61-136 | encoded fields decode to themselves exactly when in range with sequence flags 0, the count modulo 16384 |
| PrimaryHeader.DecodeThenEncode | lib/ccsds_packet_primary_header.cpp:61-136 | re-encoding a decoded header gives its bytes exactly when its sequence flag bits are 0 |
| PrimaryHeader.EncodeOverGarbage | lib/ccsds_packet_primary_header.cpp:45-72 | the encoding is independent of the buffer's contents exactly when the old bits are among the new |
| PrimaryHeader.CallsAreIdempotent | lib/ccsds_packet_primary_header.cpp:138-194 | repeating a setter call changes nothing |
| PrimaryHeader.CallUpdatesItsField | lib/ccsds_packet_primary_header.cpp:138-194 | on every header and for every argument, each call changes its own decoded field only, the secondary flag's apart |
| PrimaryHeader.CallHistory | lib/ccsds_packet_primary_header.cpp:138-194 | after any calls with any arguments, version, type and secondary flag are the OR of all values passed, spilled bits included, the two-byte fields the OR of the high parts joined with the last low byte |
| PrimaryHeader.CallHistoryCounts | lib/ccsds_packet_primary_header.cpp:166-182 | the same for the sequence count; the sequence flags stay 0 |
| PrimaryHeader.HistoryBytes | lib/ccsds_packet_primary_header.cpp:138-194 | the six bytes after any calls, for arguments of any value |
| PrimaryHeader.SecondaryFlagIsolated | lib/ccsds_packet_primary_header.cpp:160-164 | the setter leaves all other fields alone on every header exactly when bits 1 to 4 of the flag are 0 |
| PrimaryHeader.SettersJoin | lib/ccsds_packet_primary_header.cpp:61-72 | the seven calls of `encode` compose to one OR over the whole header |
| PrimaryHeader.CcsdsPrimaryHeader.constructor | lib/ccsds_packet_primary_header.cpp:30-43 | every bit of the buffer, from the values passed |
| PrimaryHeader.CcsdsPrimaryHeader.Encode | lib/ccsds_packet_primary_header.cpp:61-72 | over any previous contents: the bytes laid out from the values passed, three of them ORed in and three assigned |

## Left out

- libaec's Adaptive Entropy Coder is not part of this model; its contract, and that decoding inverts encoding, are hypotheses.
- AecContract.NoFlushLaw: takes a codec to consume input byte by byte; a coder that leaves an incomplete sample at the end of a block is not covered.
- `aec_encode_init`, `aec_decode_init` and `aec_encode_end` report a status that is passed on; what they check is not modelled.
- Session.CodecSession.FilePump: from 2^31 emitted bytes on a write has the wrong length; the model reports that (`sound`) and stops, so what the file then holds is not modelled.
- Session.CodecSession.Run: a failing codec call may move the cursors, by as much as it reports; what stream calls after a failing one do is not modelled.
- Session.CodecSession.constructor: one session per object; the source does not reset its stream counters, so a second session on the same object is not modelled.
- `compress_fin` and `decompress_fin`, which shut the codec down and close the files of the file calls.
- `total_in` is never read by the drivers and is not modelled.
- Opening and closing files, error messages, allocation and destructors.
- Cip.LessOne: for interval 0 the source converts -1.0 from `double` to a byte in the extended parameters, which the language leaves undefined; it is taken to give 255, as the integer path does.
- The Instrument Configuration subfield and the CCSDS secondary header, which the source never writes.
- The entropy coder subfield has no decoders, so only its encoding is modelled.
- The header-level `encode_*` setters, which assign a private field that nothing reads, and the forwarding getters.
- The command line tool.
