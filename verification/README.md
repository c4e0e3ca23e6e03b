# flac2Wav WAV serializer, modelled in Dafny

`flac2WavDll` is a small Windows DLL with one entry point, `convertFlacToWav`.
It has libFLAC decode an 8-bit mono FLAC file and writes the result as a
canonical RIFF/WAVE file. libFLAC calls three callbacks:

- the metadata callback saves four STREAMINFO values in static variables:
  total samples, sample rate, channels and bits per sample;
- the write callback checks the saved format on every block. If the format is
  accepted, it writes the 44-byte PCM header in front of the block that starts
  at sample 0. It then writes one unsigned byte per sample of channel 0: the
  sample's low byte with bit 7 flipped;
- the error callback only logs the error status.

All numbers in the header are little-endian and computed in C's wrapping
unsigned arithmetic.

The model is a set of pure functions over immutable values. Each module
follows one part of `flac2WavDll/main.cpp`:

- `LittleEndian` covers bytes, the C integer widths, `write_uint8`,
  `write_little_endian_uint16` and `write_little_endian_uint32`, with decoders
  and round-trip lemmas.
- `OutputFile` models the output stream as an append-only `Sink`. It holds
  the bytes handed to the stream so far and `room`, the number of bytes the C
  library still accepts before its first failing `fputc`/`fwrite`. Because the converter
  stops at the first failure, this one number covers every failure pattern it
  can observe. `Write` models a single `fwrite` or a chain of `fputc`s joined
  by `&&`. `WriteChain` models the `||` chain of the header writer.
- `Pcm` covers the sample byte `(FLAC__uint8)sample ^ 0x80`, the payload of a
  block, and what an 8-bit WAV reader makes of it.
- `StreamFormat` holds the four saved STREAMINFO values and the accepted
  format: a known sample count, mono, 8 bits.
- `WavHeader` computes the header fields with explicit 32-bit and 64-bit
  wrap-around. It also gives the 12 header writes, the 44 encoded bytes and a
  WAV reader's parser, with round trips in both directions.
- `Callbacks` models `metadata_callback` and `write_callback`. Together they
  form a state machine over `Converter`, which holds the saved format and the
  output file.
- `Conversion` models `convertFlacToWav`. libFLAC is given as an
  `Environment`: whether the file opens, whether the decoder is created and
  initialised, the callbacks it makes, whether it reports a failure, and the
  stream's room. The lemmas about whole conversions state which bytes are
  handed to the output stream and which status comes back.

Points of the code's behaviour worth noting, all of which the model keeps:

- The format check runs on every block, not only the first one.
- Every STREAMINFO block overwrites the saved values, not only the first.
- The saved values are process-wide statics that are never reset, so
  `Convert` starts from the values a previous call left and returns the values
  it leaves.
- The data size wraps modulo 2^32 for streams of 2^32 samples or more. The
  RIFF size (data size + 36) wraps already from 2^32 - 36 samples.
- Only `total_size` is computed before the format check; the other header
  fields are computed only once a header is written. The model's `HeaderOf`
  is total, so it also gives values for refused formats, but those values are
  never written. `block_align` is computed in 32 bits and then cast to 16.
- The format check lives in the write callback, so a stream with no audio
  frames never reaches it: even with no sample count, or a stereo or 16-bit
  format, the call returns 0 unless libFLAC reports a failure, and leaves an
  empty file without a header.
- `error_callback` only logs, so a recoverable stream error changes nothing;
  the model's run skips error events.

## Model

| member | source | states |
|---|---|---|
| LittleEndian.EncodeU8 | flac2WavDll/main.cpp:47-50 | `write_uint8` stores exactly one byte, and that byte reads back as the value |
| LittleEndian.EncodeU16 | flac2WavDll/main.cpp:52-58 | a 16-bit value becomes exactly 2 bytes, which decode little-endian back to the value |
| LittleEndian.EncodeU16Bytes | flac2WavDll/main.cpp:52-58 | byte k of the 16-bit encoding is `(x >> 8k) & 0xFF`, so the low byte comes first |
| LittleEndian.EncodeU32 | flac2WavDll/main.cpp:65-73 | a 32-bit value becomes exactly 4 bytes, which decode little-endian back to the value |
| LittleEndian.EncodeU32Bytes | flac2WavDll/main.cpp:65-73 | byte k of the 32-bit encoding is `(x >> 8k) & 0xFF` for k = 0..3 |
| LittleEndian.EncodeDecodeU16 | flac2WavDll/main.cpp:52-58 | any 2 bytes are the encoding of the value they decode to, so the encoding is onto |
| LittleEndian.EncodeDecodeU32 | flac2WavDll/main.cpp:65-73 | any 4 bytes are the encoding of the value they decode to |
| LittleEndian.EncodeU32Injective | flac2WavDll/main.cpp:65-73 | two 32-bit values have the same encoding exactly when they are equal |
| OutputFile.WriteU8 | flac2WavDll/main.cpp:47-50 | `write_uint8`, writing the one-byte encoding, has exactly the effect of a single `fputc` of the byte (`Put`: stored when there is room, otherwise EOF and nothing stored) |
| OutputFile.Write | flac2WavDll/main.cpp:65-73 | writing byte by byte up to the first failure leaves the longest prefix that fits; success exactly when everything fits; room is used one byte per stored byte |
| OutputFile.WriteChain | flac2WavDll/main.cpp:138-151 | the chain of header writes, which stops at the first failing one, stores the longest prefix of all its chunks that fits, and fails exactly when they do not all fit |
| OutputFile.WriteThenWrite | flac2WavDll/main.cpp:67-72 | a write followed, on success, by a second write acts as one write of both strings; a failed first write leaves what one write of both would have left |
| Pcm.SignFlipIsXor | flac2WavDll/main.cpp:160 | the arithmetic bit-7 flip equals XOR with 0x80 on every byte value |
| Pcm.SampleByte | flac2WavDll/main.cpp:160 | an 8-bit sample is stored as itself plus 128; flipping bit 7 again gives back the sample's low byte |
| Pcm.SampleByteIsXor | flac2WavDll/main.cpp:160 | the stored byte is the sample's low byte XOR 0x80 |
| Pcm.Payload | flac2WavDll/main.cpp:158-167 | one byte per sample, in order, byte i being the byte of sample i |
| Pcm.PayloadAppend | flac2WavDll/main.cpp:158-167 | the payload of two consecutive sample runs is the concatenation of their payloads |
| Pcm.PayloadRoundTrip | flac2WavDll/main.cpp:160 | reading the payload as unsigned 8-bit PCM (subtracting 128) gives back 8-bit samples exactly |
| WavHeader.TotalSizeIsProduct | flac2WavDll/main.cpp:124 | despite the 64-bit wrap-arounds, `total_size` (`TotalSize`) is `total_samples * channels * (bps/8)` modulo 2^32 |
| WavHeader.HeaderOf | flac2WavDll/main.cpp:124-150 | for every format the data size is `total_size`, the exact product of sample count, channels and bytes per sample modulo 2^32, and the RIFF size is data size + 36 modulo 2^32; for an accepted stream the fmt chunk has 1 channel, byte rate = sample rate, block align 1, 8 bits, and the data size is total samples modulo 2^32 |
| WavHeader.EncodeHeader | flac2WavDll/main.cpp:139-150 | the header is exactly 44 bytes |
| WavHeader.HeaderLayout | flac2WavDll/main.cpp:139-150 | "RIFF" at offset 0, "WAVEfmt " at 8, fmt size 16 at 16, PCM tag 1 at 20, "data" at 36, and each numeric field little-endian at its canonical offset |
| WavHeader.HeaderChunksFlatten | flac2WavDll/main.cpp:138-151 | the 12 chained header writes (`HeaderChunks`) store exactly the 44 encoded header bytes |
| WavHeader.ParseEncodeHeader | flac2WavDll/main.cpp:139-150 | a WAV reader parsing the written header recovers every field |
| WavHeader.EncodeParseHeader | flac2WavDll/main.cpp:139-150 | any 44 bytes a reader accepts as a header are the encoding of what it read, so no header byte is unaccounted for |
| Callbacks.MetadataCallback | flac2WavDll/main.cpp:172-181 | a STREAMINFO block sets exactly the four saved fields; any other block changes nothing; the file is never touched |
| Callbacks.BlockBytesLayout | flac2WavDll/main.cpp:137-167 | a block's bytes are the 44-byte header exactly when it starts at sample 0, then `blocksize` bytes, byte i being that of `buffer[0][i]` |
| Callbacks.WriteSamples | flac2WavDll/main.cpp:158-167 | the sample loop stores the longest prefix of the payload that fits, and succeeds exactly when all of it fits |
| Callbacks.WriteCallback | flac2WavDll/main.cpp:122-170 | with no sample count, or a format other than 8-bit mono (the opposite of `Supported`), the block aborts and writes nothing; otherwise it adds the prefix of its bytes that fits and continues exactly when they all fit; the saved format never changes |
| Callbacks.WriteCallbackReadsChannel0 | flac2WavDll/main.cpp:158-167 | only channel 0 is read: blocks that agree on position, block size and channel 0 have the same effect |
| Conversion.Run | flac2WavDll/main.cpp:112 | handling libFLAC's callbacks until one aborts only ever appends to the file, one byte of room per byte |
| Conversion.Convert | flac2WavDll/main.cpp:86-120 | the status is 0 exactly when the file opened, the decoder was created and initialised, no callback aborted and processing succeeded, and 1 otherwise; there is no file only when it could not be opened; a decoder that never runs leaves an empty file and the saved values unchanged |
| Conversion.RunSkipsErrors | flac2WavDll/main.cpp:193-196 | error callbacks only log: a run with them ends exactly as the same run without them |
| Conversion.RunMetadataThen | flac2WavDll/main.cpp:172-181 | metadata callbacks never write or abort, and leave the format of the last STREAMINFO block (or the previous one if there is none) |
| Conversion.RunFrames | flac2WavDll/main.cpp:122-170 | with an accepted format, a run of blocks leaves the longest prefix of their intended bytes that fits, and aborts exactly when not all of them fit |
| Conversion.RunFramesRefused | flac2WavDll/main.cpp:127-134 | with a refused format, the first block aborts the run and nothing is written |
| Conversion.CoveredLength | flac2WavDll/main.cpp:158 | blocks that cover sample numbers start .. end-1 carry end - start samples |
| Conversion.CoveredPayloadOnly | flac2WavDll/main.cpp:137 | blocks that start after sample 0 write samples only, no header |
| Conversion.CoveredWithHeader | flac2WavDll/main.cpp:137-167 | blocks that cover a stream from sample 0 write the header once, followed by the payload of all their samples |
| Conversion.ConvertAcceptedStream | flac2WavDll/main.cpp:86-170 | for an accepted stream, with error callbacks anywhere in it, the bytes handed to the output stream are the prefix of header-plus-samples (44 + total samples bytes) that the stream accepted, and the status is 0 exactly when all of it fits and libFLAC reports no failure |
| Conversion.ConvertedFileReadsBack | flac2WavDll/main.cpp:124-167 | a fully written file parses back to the computed header; data size is the payload length and RIFF size the file length minus 8, both modulo 2^32; 8-bit samples decode back exactly |
| Conversion.ConvertRefusedStream | flac2WavDll/main.cpp:127-134 | a refused stream with at least one block, with error callbacks anywhere in it, returns 1, hands no byte to the output stream, not even a header, and leaves the saved values of its last STREAMINFO |
| Conversion.ConvertWithoutFrames | flac2WavDll/main.cpp:111-119 | a stream with no audio frames never reaches the format check: whatever its STREAMINFO, the status is 0 unless libFLAC reports a failure, the file is empty and the saved values are those of its last STREAMINFO |
| Conversion.HundredSampleExample | flac2WavDll/main.cpp:124-160 | for a 100-sample 8 kHz 8-bit mono stream, data size is 100, RIFF size 136 and byte rate 8000, and samples -128 and 127 are stored as 0x00 and 0xFF |

## Left out

- The libFLAC decoder: `FLAC::Decoder::File`, `init`, `process_until_end_of_stream` and MD5 checking. It is a foreign library. The model takes its behaviour as given: a sequence of callback events, whether init succeeds, and whether processing reports a failure.
- `fopen`, `fclose`, `fputc` and `fwrite`. These are I/O. The model's file is the byte sequence handed to the output stream, and `room` counts the bytes the C library accepts before its first failing call.
- The stream's buffering is not modelled. A failing buffered flush can lose bytes that `fputc`/`fwrite` had already accepted. The model's file then holds more than the disk does.
- The result of `fclose` (main.cpp:117) is ignored by the code. If the final flush fails, the call still returns 0 (main.cpp:119), and the file on disk is shorter than the bytes the model says were handed to the stream.
- Concurrent calls. The saved values are process-wide statics (main.cpp:42-45) shared by every thread, so two threads converting at once race on them. `Convert`'s `saved` parameter models only calls made one after another.
- All `fprintf(stderr, ...)` diagnostics, including the message `error_callback` logs. Error events are kept in the model as no-ops.
- The DLL export and the `double` return type. The status is the integer 0 or 1.
- `write_little_endian_int16` and the commented-out 16-bit stereo writes. They are dead code.
- The decoded frame's header fields other than sample number and block size. The converter does not read them.
