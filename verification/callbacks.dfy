/** The two callbacks through which libFLAC drives the converter
    (`OurDecoder::metadata_callback` and `OurDecoder::write_callback`,
    flac2WavDll/main.cpp:122-191). The static variables they share become an
    explicit `Converter` value that each callback takes and returns. */
module Callbacks {
  import opened LittleEndian
  import opened OutputFile
  import opened Pcm
  import opened StreamFormat
  import opened WavHeader

  /** A STREAMINFO block as libFLAC delivers it. */
  datatype StreamInfoBlock = StreamInfoBlock(
    minBlocksize: U32,
    maxBlocksize: U32,
    minFramesize: U32,
    maxFramesize: U32,
    sampleRate: U32,
    channels: U32,
    bitsPerSample: U32,
    totalSamples: U64,
    md5: seq<Byte>)

  /** The other metadata block types libFLAC knows. */
  datatype OtherMetadataType =
    Padding | Application | SeekTable | VorbisComment | CueSheet | Picture | Undefined

  datatype Metadata = StreamInfoMetadata(info: StreamInfoBlock) | OtherMetadata(kind: OtherMetadataType)

  /** A decoded frame: its first sample's number, its block size and one
      buffer of decoded samples per channel. */
  datatype Frame = Frame(sampleNumber: U64, blocksize: U32, buffer: seq<seq<I32>>)
  {
    /** What libFLAC guarantees the write callback: channel 0 exists and holds
        at least `blocksize` samples. */
    predicate Readable()
    {
      |buffer| >= 1 && blocksize <= |buffer[0]|
    }

    /** The samples the converter reads: the first `blocksize` of channel 0. */
    function Channel0(): seq<I32>
      requires Readable()
    {
      buffer[0][..blocksize]
    }
  }

  datatype WriteStatus = Continue | Abort

  /** Everything the converter keeps between callbacks: the saved format and
      the output file. */
  datatype Converter = Converter(format: StreamInfo, out: Sink)

  /** The four values the converter saves from a STREAMINFO block. */
  function Saved(si: StreamInfoBlock): (f: StreamInfo)
  {
    StreamInfo(si.totalSamples, si.sampleRate, si.channels, si.bitsPerSample)
  }

  /** `metadata_callback`: a STREAMINFO block replaces the saved total sample
      count, sample rate, channel count and bit depth with its own, and
      nothing else; every other block type changes nothing. It never writes
      to the output file. */
  function MetadataCallback(c: Converter, m: Metadata): (r: Converter)
    ensures r.out == c.out
    ensures m.StreamInfoMetadata? ==>
      && r.format.totalSamples == m.info.totalSamples
      && r.format.sampleRate == m.info.sampleRate
      && r.format.channels == m.info.channels
      && r.format.bitsPerSample == m.info.bitsPerSample
    ensures m.OtherMetadata? ==> r == c
  {
    match m
    case StreamInfoMetadata(si) => Converter(Saved(si), c.out)
    case OtherMetadata(_) => c
  }

  /** The bytes a block is meant to add to the file: the header, for the
      block that starts at sample 0, then one byte per sample of channel 0. */
  function BlockBytes(f: StreamInfo, fr: Frame): seq<Byte>
    requires fr.Readable()
  {
    if fr.sampleNumber == 0 then EncodeHeader(HeaderOf(f)) + Payload(fr.Channel0())
    else Payload(fr.Channel0())
  }

  /** A block's bytes: the 44 header bytes exactly when the block starts at
      sample 0, then `blocksize` payload bytes, the i-th being the byte of
      the i-th sample of channel 0. */
  lemma BlockBytesLayout(f: StreamInfo, fr: Frame)
    requires fr.Readable()
    ensures var off := if fr.sampleNumber == 0 then 44 else 0;
      var bs := BlockBytes(f, fr);
      && |bs| == off + fr.blocksize
      && (fr.sampleNumber == 0 ==> bs[..44] == EncodeHeader(HeaderOf(f)))
      && forall i :: 0 <= i < fr.blocksize ==> bs[off + i] == SampleByte(fr.buffer[0][i])
  {
    var p := Payload(fr.Channel0());
    if fr.sampleNumber == 0 {
      var h := EncodeHeader(HeaderOf(f));
      assert (h + p)[..44] == h;
      forall i | 0 <= i < fr.blocksize
        ensures (h + p)[44 + i] == SampleByte(fr.buffer[0][i])
      {
        assert fr.Channel0()[i] == fr.buffer[0][i];
      }
    } else {
      forall i | 0 <= i < fr.blocksize
        ensures p[i] == SampleByte(fr.buffer[0][i])
      {
        assert fr.Channel0()[i] == fr.buffer[0][i];
      }
    }
  }

  /** The sample loop (main.cpp:158-167): one `write_uint8` per sample, in
      order, giving up at the first failing write. */
  function WriteSamples(s: Sink, samples: seq<I32>): (r: (Sink, bool))
    ensures r.1 <==> |samples| <= s.room
    ensures r.0.written == s.written + Payload(samples)[..Min(|samples|, s.room)]
    ensures r.0.room == s.room - Min(|samples|, s.room)
    decreases |samples|
  {
    if samples == [] then (s, true)
    else
      var (s1, ok) := WriteU8(s, SampleByte(samples[0]));
      if !ok then (s1, false)
      else
        var r := WriteSamples(s1, samples[1..]);
        WriteSamplesStep(s, samples, r.0);
        r
  }

  /** After the first sample's byte has been stored, the rest of the payload
      lands right behind it. */
  lemma WriteSamplesStep(s: Sink, samples: seq<I32>, t: Sink)
    requires samples != [] && s.room > 0
    requires var rest := Payload(samples[1..]);
      && t.written == s.written + [SampleByte(samples[0])] + rest[..Min(|rest|, s.room - 1)]
      && t.room == s.room - 1 - Min(|rest|, s.room - 1)
    ensures t.written == s.written + Payload(samples)[..Min(|samples|, s.room)]
    ensures t.room == s.room - Min(|samples|, s.room)
  {
    var first, rest := [SampleByte(samples[0])], Payload(samples[1..]);
    AppendPrefixOfAppend(s.written, first, rest, s.room);
  }

  /** `write_callback`. Every block, not only the first, is checked first:
      with no sample count, or a format other than 8-bit mono, the block is
      refused with Abort and nothing is written. Otherwise the block adds its
      bytes (header if it starts at sample 0, then its samples) to the file;
      if the device fills up part-way, the file keeps the prefix that fitted
      and the block answers Abort. The saved format is never changed. */
  function WriteCallback(c: Converter, fr: Frame): (r: (Converter, WriteStatus))
    requires fr.Readable()
    ensures r.0.format == c.format
    ensures !Supported(c.format) ==> r.0 == c && r.1 == Abort
    ensures Supported(c.format) ==>
      var want := BlockBytes(c.format, fr);
      && r.0.out.written == c.out.written + want[..Min(|want|, c.out.room)]
      && r.0.out.room == c.out.room - Min(|want|, c.out.room)
      && (r.1 == Continue <==> |want| <= c.out.room)
  {
    if c.format.totalSamples == 0 then (c, Abort)
    else if c.format.channels != CHANNELS || c.format.bitsPerSample != 8 * BYTES_PER_SAMPLE then (c, Abort)
    else
      var header := HeaderChunks(HeaderOf(c.format));
      var written := if fr.sampleNumber == 0 then header else [];
      var payload := Payload(fr.Channel0());
      BlockBytesAsWrites(c.format, fr);
      var (afterHeader, headerOk) := WriteChain(c.out, written);
      if !headerOk then
        HeaderWriteFails(c.out, written, payload);
        (Converter(c.format, afterHeader), Abort)
      else
        var (afterSamples, samplesOk) := WriteSamples(afterHeader, fr.Channel0());
        HeaderThenSamples(c.out, written, payload);
        (Converter(c.format, afterSamples), if samplesOk then Continue else Abort)
  }

  /** Only channel 0 is read: two blocks at the same position with the same
      first `blocksize` samples of channel 0 have the same effect, whatever
      their other channels hold. */
  lemma WriteCallbackReadsChannel0(c: Converter, fr: Frame, other: Frame)
    requires fr.Readable() && other.Readable()
    requires fr.sampleNumber == other.sampleNumber && fr.blocksize == other.blocksize
    requires fr.buffer[0][..fr.blocksize] == other.buffer[0][..other.blocksize]
    ensures WriteCallback(c, fr) == WriteCallback(c, other)
  {
    var r, q := WriteCallback(c, fr), WriteCallback(c, other);
    assert BlockBytes(c.format, fr) == BlockBytes(c.format, other);
    assert r.0.out == q.0.out;
  }

  /** A block's bytes are what its header writes and its sample writes
      store, in that order. */
  lemma BlockBytesAsWrites(f: StreamInfo, fr: Frame)
    requires fr.Readable()
    ensures BlockBytes(f, fr)
         == Flatten(if fr.sampleNumber == 0 then HeaderChunks(HeaderOf(f)) else []) + Payload(fr.Channel0())
  {
    HeaderChunksFlatten(HeaderOf(f));
  }

  /** When the header does not fit, what was written is also the prefix of
      header-and-samples that fitted. */
  lemma HeaderWriteFails(s: Sink, header: seq<seq<Byte>>, payload: seq<Byte>)
    requires !WriteChain(s, header).1
    ensures var want := Flatten(header) + payload;
      && WriteChain(s, header).0.written == s.written + want[..Min(|want|, s.room)]
      && WriteChain(s, header).0.room == s.room - Min(|want|, s.room)
      && |want| > s.room
  {
    var h := Flatten(header);
    assert |h| > s.room;
    PrefixOfAppendShort(h, payload, s.room);
  }

  /** A header write that succeeded followed by the sample writes stores
      the prefix of header-and-samples that fitted. */
  lemma HeaderThenSamples(s: Sink, header: seq<seq<Byte>>, payload: seq<Byte>)
    requires WriteChain(s, header).1
    ensures var s1 := WriteChain(s, header).0;
      var want := Flatten(header) + payload;
      && s1.written + payload[..Min(|payload|, s1.room)] == s.written + want[..Min(|want|, s.room)]
      && s1.room - Min(|payload|, s1.room) == s.room - Min(|want|, s.room)
      && (|payload| <= s1.room <==> |want| <= s.room)
  {
    var h := Flatten(header);
    var s1 := WriteChain(s, header).0;
    assert s1.written == s.written + h;
    assert s1.room == s.room - |h|;
    PrefixOfAppend(h, payload, s.room);
  }
}
