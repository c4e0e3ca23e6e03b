/** One call of `convertFlacToWav` (flac2WavDll/main.cpp:86-120): open the
    output file, let libFLAC decode the input while it calls the callbacks,
    close the file, and report 0 for success or 1 for any failure. libFLAC is
    not modelled; what it does is given as an `Environment`: whether the
    output file opens, whether the decoder comes up, and the callbacks it
    makes. */
module Conversion {
  import opened LittleEndian
  import opened OutputFile
  import opened Pcm
  import opened StreamFormat
  import opened WavHeader
  import opened Callbacks
  import opened Wrappers

  /** The stream errors libFLAC reports to `error_callback`, which only logs
      them. */
  datatype ErrorStatus = LostSync | BadHeader | FrameCrcMismatch | UnparseableStream

  /** One callback made by libFLAC while it processes the stream. */
  datatype Event =
    | MetadataEvent(metadata: Metadata)
    | FrameEvent(frame: Frame)
    | ErrorEvent(status: ErrorStatus)

  /** libFLAC hands the write callback only frames it can read. */
  predicate Delivered(events: seq<Event>)
  {
    forall i :: 0 <= i < |events| ==> events[i].FrameEvent? ==> events[i].frame.Readable()
  }

  /** `process_until_end_of_stream` as seen from the callbacks: the events
      are handled in order until one write callback answers Abort, after
      which libFLAC makes no further callbacks. The result says whether a
      callback aborted. The output file only ever grows: what was already
      written stays, and every byte added used up one byte of room. */
  function Run(c: Converter, events: seq<Event>): (r: (Converter, bool))
    requires Delivered(events)
    ensures c.out.written <= r.0.out.written
    ensures |r.0.out.written| - |c.out.written| == c.out.room - r.0.out.room
    decreases |events|
  {
    if events == [] then (c, false)
    else
      var rest := events[1..];
      RestDelivered(events);
      match events[0]
      case MetadataEvent(m) => Run(MetadataCallback(c, m), rest)
      case FrameEvent(fr) =>
        var (c1, status) := WriteCallback(c, fr);
        if status == Abort then (c1, true) else Run(c1, rest)
      case ErrorEvent(_) => Run(c, rest)
  }

  /** What the surroundings of one conversion do: whether `fopen` of the
      output succeeds, whether the decoder object is usable, whether
      `init` accepts the input, the callbacks libFLAC makes, whether libFLAC
      itself fails the processing (a read or decode error that ends the
      stream), and how many bytes the output device accepts. */
  datatype Environment = Environment(
    outputOpens: bool,
    decoderAllocated: bool,
    initOk: bool,
    events: seq<Event>,
    engineFailed: bool,
    room: nat)

  /** The status returned, the bytes handed to the output stream (None when
      it could not be created; what reaches the disk after buffering is not
      modelled), and the format values left in the statics, which the
      next call in the same process starts from. */
  datatype Outcome = Outcome(status: int, file: Option<seq<Byte>>, saved: StreamInfo)

  /** Whether the decoder gets to run at all. */
  predicate Starts(env: Environment)
  {
    env.outputOpens && env.decoderAllocated && env.initOk
  }

  /** `convertFlacToWav`, starting from the format values a previous call
      left behind. It answers 0 exactly when the output opened, the decoder
      was created and initialised, no callback aborted and libFLAC reported
      no failure, and 1 otherwise. No output file exists only when it could
      not be opened; when the decoder never runs, the file is empty and the
      saved format untouched. */
  function Convert(saved: StreamInfo, env: Environment): (r: Outcome)
    requires Delivered(env.events)
    ensures r.status == 0 || r.status == 1
    ensures r.status == 0 <==>
      Starts(env) && !env.engineFailed && !Run(Converter(saved, Sink([], env.room)), env.events).1
    ensures r.file.None? <==> !env.outputOpens
    ensures !Starts(env) ==> r.saved == saved && (r.file.None? || r.file == Some([]))
  {
    if !env.outputOpens then Outcome(1, None, saved)
    else if !env.decoderAllocated then Outcome(1, Some([]), saved)
    else
      var ok := env.initOk;
      if !ok then Outcome(1, Some([]), saved)
      else
        var (c, aborted) := Run(Converter(saved, Sink([], env.room)), env.events);
        var processed := !aborted && !env.engineFailed;
        Outcome(if processed then 0 else 1, Some(c.out.written), c.format)
  }

  // ---------------------------------------------------------------------
  // Streams of events and what they should produce.

  function Metas(ms: seq<Metadata>): (r: seq<Event>)
    ensures Delivered(r)
  {
    seq(|ms|, i requires 0 <= i < |ms| => MetadataEvent(ms[i]))
  }

  predicate AllReadable(fs: seq<Frame>)
  {
    forall i :: 0 <= i < |fs| ==> fs[i].Readable()
  }

  function Frames(fs: seq<Frame>): (r: seq<Event>)
    requires AllReadable(fs)
    ensures Delivered(r)
  {
    seq(|fs|, i requires 0 <= i < |fs| => FrameEvent(fs[i]))
  }

  /** The format left by a run of metadata blocks: that of the last
      STREAMINFO block among them, or the one before if there is none. */
  function FormatAfter(f: StreamInfo, ms: seq<Metadata>): StreamInfo
    decreases |ms|
  {
    if ms == [] then f
    else match ms[|ms| - 1]
      case StreamInfoMetadata(si) => Saved(si)
      case OtherMetadata(_) => FormatAfter(f, ms[..|ms| - 1])
  }

  /** The decoded samples of channel 0 of the frames, in order. */
  function Samples(fs: seq<Frame>): seq<I32>
    requires AllReadable(fs)
    decreases |fs|
  {
    if fs == [] then [] else fs[0].Channel0() + Samples(fs[1..])
  }

  /** The bytes the frames are meant to add to the file, in order. */
  function Intended(f: StreamInfo, fs: seq<Frame>): seq<Byte>
    requires AllReadable(fs)
    decreases |fs|
  {
    if fs == [] then [] else BlockBytes(f, fs[0]) + Intended(f, fs[1..])
  }

  /** The frames cover sample numbers start .. end-1 without gap or overlap,
      each frame non-empty and starting where the previous one stopped. */
  predicate Covers(fs: seq<Frame>, start: int, end: int)
    decreases |fs|
  {
    if fs == [] then start == end
    else
      && fs[0].sampleNumber == start
      && fs[0].blocksize > 0
      && Covers(fs[1..], start + fs[0].blocksize, end)
  }

  // ---------------------------------------------------------------------
  // Lemmas about runs.

  /** Metadata callbacks leave the format of the last STREAMINFO block, never
      write, and never abort; whatever follows them then runs from there. */
  lemma {:induction false} RunMetadataThen(c: Converter, ms: seq<Metadata>, rest: seq<Event>)
    requires Delivered(rest)
    ensures Delivered(Metas(ms) + rest)
    ensures Run(c, Metas(ms) + rest) == Run(Converter(FormatAfter(c.format, ms), c.out), rest)
    decreases |ms|
  {
    var events := Metas(ms) + rest;
    assert Delivered(events) by {
      forall i | 0 <= i < |events| && events[i].FrameEvent?
        ensures events[i].frame.Readable()
      {
        assert i >= |ms| && events[i] == rest[i - |ms|];
      }
    }
    if ms == [] {
      assert events == rest;
    } else {
      assert events[0] == MetadataEvent(ms[0]);
      assert events[1..] == Metas(ms[1..]) + rest;
      var c1 := MetadataCallback(c, ms[0]);
      RunMetadataThen(c1, ms[1..], rest);
      FormatAfterCons(c.format, ms);
    }
  }

  /** Reading the metadata from the front gives the last STREAMINFO too. */
  lemma {:induction false} FormatAfterCons(f: StreamInfo, ms: seq<Metadata>)
    requires ms != []
    ensures FormatAfter(f, ms) == FormatAfter(MetadataCallback(Converter(f, Sink([], 0)), ms[0]).format, ms[1..])
    decreases |ms|
  {
    var f1 := MetadataCallback(Converter(f, Sink([], 0)), ms[0]).format;
    var n := |ms|;
    if n == 1 {
      assert ms[1..] == [];
      assert ms[..0] == [];
    } else {
      assert ms[1..][|ms[1..]| - 1] == ms[n - 1];
      match ms[n - 1]
      case StreamInfoMetadata(_) =>
      case OtherMetadata(_) =>
        FormatAfterCons(f, ms[..n - 1]);
        assert ms[..n - 1][0] == ms[0];
        assert ms[..n - 1][1..] == ms[1..][..|ms[1..]| - 1];
    }
  }

  /** Running frames: the first frame's write callback, then the rest unless
      it aborted. */
  lemma RunFramesCons(c: Converter, fs: seq<Frame>)
    requires AllReadable(fs) && fs != []
    ensures AllReadable(fs[1..])
    ensures var w := WriteCallback(c, fs[0]);
      Run(c, Frames(fs)) == if w.1 == Abort then (w.0, true) else Run(w.0, Frames(fs[1..]))
  {
    RestReadable(fs);
    var events := Frames(fs);
    assert events[0] == FrameEvent(fs[0]);
    assert events[1..] == Frames(fs[1..]);
  }

  /** What a run of frames is meant to leave in the file: the longest
      prefix of their intended bytes the device has room for. */
  predicate WroteIntended(c: Converter, fs: seq<Frame>, r: (Converter, bool))
    requires AllReadable(fs)
  {
    var want := Intended(c.format, fs);
    && r.0.format == c.format
    && r.0.out.written == c.out.written + want[..Min(|want|, c.out.room)]
    && (r.1 <==> |want| > c.out.room)
  }

  /** With an accepted format, the frames add the longest prefix of their
      intended bytes the device has room for, and the run aborts exactly when
      not all of them fit. */
  lemma {:induction false} RunFrames(c: Converter, fs: seq<Frame>)
    requires Supported(c.format) && AllReadable(fs)
    ensures WroteIntended(c, fs, Run(c, Frames(fs)))
    decreases |fs|
  {
    if fs == [] {
      assert Frames(fs) == [];
      assert Intended(c.format, fs) == [];
      assert c.out.written + [] == c.out.written;
    } else {
      RunFramesCons(c, fs);
      var w := WriteCallback(c, fs[0]);
      if w.1 == Abort {
        FirstFrameAborts(c, fs);
      } else {
        RunFrames(w.0, fs[1..]);
        FirstFrameContinues(c, fs);
      }
    }
  }

  /** RunFrames when the first block already does not fit. */
  lemma FirstFrameAborts(c: Converter, fs: seq<Frame>)
    requires Supported(c.format) && AllReadable(fs) && fs != []
    requires WriteCallback(c, fs[0]).1 == Abort
    ensures WroteIntended(c, fs, Run(c, Frames(fs)))
  {
    RunFramesCons(c, fs);
    var first := BlockBytes(c.format, fs[0]);
    var later := Intended(c.format, fs[1..]);
    assert Intended(c.format, fs) == first + later;
    PrefixOfAppendShort(first, later, c.out.room);
  }

  /** RunFrames when the first block fits and the rest run from there. */
  lemma FirstFrameContinues(c: Converter, fs: seq<Frame>)
    requires Supported(c.format) && AllReadable(fs) && fs != []
    requires WriteCallback(c, fs[0]).1 == Continue
    requires AllReadable(fs[1..])
    requires var w := WriteCallback(c, fs[0]); WroteIntended(w.0, fs[1..], Run(w.0, Frames(fs[1..])))
    ensures WroteIntended(c, fs, Run(c, Frames(fs)))
  {
    RunFramesCons(c, fs);
    var w := WriteCallback(c, fs[0]);
    var r := Run(w.0, Frames(fs[1..]));
    ContinueStep(c.out.written, c.out.room, BlockBytes(c.format, fs[0]), Intended(c.format, fs[1..]),
      w.0.out.written, w.0.out.room, r.0.out.written, r.1);
  }

  /** The byte bookkeeping of FirstFrameContinues, on plain sequences. */
  lemma ContinueStep(w: seq<Byte>, room: nat, first: seq<Byte>, later: seq<Byte>,
                     w1: seq<Byte>, room1: nat, r: seq<Byte>, aborted: bool)
    requires |first| <= room
    requires w1 == w + first[..Min(|first|, room)] && room1 == room - Min(|first|, room)
    requires r == w1 + later[..Min(|later|, room1)] && (aborted <==> |later| > room1)
    ensures r == w + (first + later)[..Min(|first + later|, room)]
    ensures aborted <==> |first + later| > room
  {
    assert first[..Min(|first|, room)] == first;
    AppendPrefixOfAppend(w, first, later, room);
  }

  /** With a refused format, the first frame aborts the run and nothing is
      written. */
  lemma RunFramesRefused(c: Converter, fs: seq<Frame>)
    requires !Supported(c.format) && AllReadable(fs) && fs != []
    ensures Run(c, Frames(fs)) == (c, true)
  {
    assert Frames(fs)[0] == FrameEvent(fs[0]);
  }

  /** Dropping the first frame keeps the rest readable. */
  lemma RestReadable(fs: seq<Frame>)
    requires AllReadable(fs) && fs != []
    ensures AllReadable(fs[1..])
  {
    forall i | 0 <= i < |fs[1..]|
      ensures fs[1..][i].Readable()
    {
      assert fs[1..][i] == fs[i + 1];
    }
  }

  /** Frames that cover sample numbers start .. end-1 carry end - start
      samples. */
  lemma {:induction false} CoveredLength(fs: seq<Frame>, start: int, end: int)
    requires AllReadable(fs) && Covers(fs, start, end)
    ensures |Samples(fs)| == end - start
    decreases |fs|
  {
    if fs != [] {
      RestReadable(fs);
      CoveredLength(fs[1..], start + fs[0].blocksize, end);
    }
  }

  /** Frames that start after the first sample write samples only. */
  lemma {:induction false} CoveredPayloadOnly(f: StreamInfo, fs: seq<Frame>, start: int, end: int)
    requires AllReadable(fs) && Covers(fs, start, end) && start > 0
    ensures Intended(f, fs) == Payload(Samples(fs))
    decreases |fs|
  {
    if fs != [] {
      RestReadable(fs);
      CoveredPayloadOnly(f, fs[1..], start + fs[0].blocksize, end);
      PayloadAppend(fs[0].Channel0(), Samples(fs[1..]));
    }
  }

  /** Frames that cover a stream from its first sample write the header once,
      in front of the payload of all their samples. */
  lemma CoveredWithHeader(f: StreamInfo, fs: seq<Frame>, end: int)
    requires AllReadable(fs) && Covers(fs, 0, end) && fs != []
    ensures Intended(f, fs) == EncodeHeader(HeaderOf(f)) + Payload(Samples(fs))
  {
    RestReadable(fs);
    CoveredPayloadOnly(f, fs[1..], fs[0].blocksize, end);
    PayloadAppend(fs[0].Channel0(), Samples(fs[1..]));
    AppendAssoc(EncodeHeader(HeaderOf(f)), Payload(fs[0].Channel0()), Payload(Samples(fs[1..])));
  }

  /** Associativity of concatenation, stated on plain sequences so that the
      proofs using it need not unfold the header and block definitions. */
  lemma AppendAssoc(a: seq<Byte>, b: seq<Byte>, c: seq<Byte>)
    ensures (a + b) + c == a + (b + c)
  {
  }

  /** The events without the error callbacks. */
  function NoErrors(events: seq<Event>): seq<Event>
    decreases |events|
  {
    if events == [] then []
    else if events[0].ErrorEvent? then NoErrors(events[1..])
    else [events[0]] + NoErrors(events[1..])
  }

  /** Dropping the first event keeps the rest delivered. */
  lemma RestDelivered(events: seq<Event>)
    requires Delivered(events) && events != []
    ensures Delivered(events[1..])
  {
    forall i | 0 <= i < |events[1..]| && events[1..][i].FrameEvent?
      ensures events[1..][i].frame.Readable()
    {
      assert events[1..][i] == events[i + 1];
    }
  }

  /** `error_callback` only logs: a run with the error callbacks in it ends
      exactly like the same run without them. */
  lemma {:induction false} RunSkipsErrors(c: Converter, events: seq<Event>)
    requires Delivered(events)
    ensures Delivered(NoErrors(events))
    ensures Run(c, events) == Run(c, NoErrors(events))
    decreases |events|
  {
    if events != [] {
      var rest := events[1..];
      RestDelivered(events);
      var n := NoErrors(rest);
      if events[0].ErrorEvent? {
        RunSkipsErrors(c, rest);
      } else {
        var e := events[0];
        var m := [e] + n;
        assert m[0] == e && m[1..] == n;
        RunSkipsErrors(c, rest);
        assert Delivered(m) by {
          forall i | 0 <= i < |m| && m[i].FrameEvent?
            ensures m[i].frame.Readable()
          {
            if i > 0 {
              assert m[i] == n[i - 1];
            }
          }
        }
        match e
        case MetadataEvent(md) =>
          RunSkipsErrors(MetadataCallback(c, md), rest);
        case FrameEvent(fr) =>
          RunSkipsErrors(WriteCallback(c, fr).0, rest);
      }
    }
  }

  // ---------------------------------------------------------------------
  // Whole conversions.

  /** A well-formed 8-bit mono stream: metadata whose last STREAMINFO block
      is accepted, then frames covering all of its samples, with error
      callbacks anywhere in between. The bytes handed to the output stream
      are the prefix of header-and-samples it accepted, and the call
      returns 0 exactly when all of it fitted and libFLAC reported no
      failure. */
  lemma ConvertAcceptedStream(saved: StreamInfo, env: Environment, ms: seq<Metadata>, fs: seq<Frame>)
    requires Starts(env) && Delivered(env.events)
    requires AllReadable(fs) && NoErrors(env.events) == Metas(ms) + Frames(fs)
    requires Supported(FormatAfter(saved, ms))
    requires Covers(fs, 0, FormatAfter(saved, ms).totalSamples)
    ensures var f := FormatAfter(saved, ms);
      var want := EncodeHeader(HeaderOf(f)) + Payload(Samples(fs));
      var r := Convert(saved, env);
      && |want| == 44 + f.totalSamples
      && r.file == Some(want[..Min(|want|, env.room)])
      && (r.status == 0 <==> |want| <= env.room && !env.engineFailed)
      && r.saved == f
  {
    var f := FormatAfter(saved, ms);
    var c0 := Converter(saved, Sink([], env.room));
    var r := Run(c0, env.events);
    RunSkipsErrors(c0, env.events);
    RunAccepted(saved, env.room, ms, fs);
    CoveredLength(fs, 0, f.totalSamples);
    CoveredWithHeader(f, fs, f.totalSamples);
    FromEmpty(r.0.out.written, Intended(f, fs), env.room);
  }

  /** The run of an accepted stream writes the frames' intended bytes that
      fit, from an empty file, with the format of the last STREAMINFO. */
  lemma RunAccepted(saved: StreamInfo, room: nat, ms: seq<Metadata>, fs: seq<Frame>)
    requires AllReadable(fs) && Supported(FormatAfter(saved, ms))
    ensures Delivered(Metas(ms) + Frames(fs))
    ensures WroteIntended(Converter(FormatAfter(saved, ms), Sink([], room)), fs,
                          Run(Converter(saved, Sink([], room)), Metas(ms) + Frames(fs)))
  {
    var c0 := Converter(saved, Sink([], room));
    RunMetadataThen(c0, ms, Frames(fs));
    RunFrames(Converter(FormatAfter(saved, ms), c0.out), fs);
  }

  /** A run that starts from an empty file holds just what it wrote; stated
      on plain sequences for the same reason as AppendAssoc. */
  lemma FromEmpty(w: seq<Byte>, want: seq<Byte>, room: nat)
    requires w == [] + want[..Min(|want|, room)]
    ensures w == want[..Min(|want|, room)]
  {
  }

  /** The file a fully written conversion leaves is a WAV file that reads
      back as what was decoded: its header parses to the fields computed
      from STREAMINFO, the data size field is the payload length and the
      RIFF size the file length less 8 (both modulo 2^32, as the fields are
      32 bits wide), and, for 8-bit samples, the payload decodes to the
      decoded samples. */
  lemma ConvertedFileReadsBack(f: StreamInfo, samples: seq<I32>)
    requires Supported(f) && |samples| == f.totalSamples
    ensures var file := EncodeHeader(HeaderOf(f)) + Payload(samples);
      && ParseHeader(file[..44]) == Some(HeaderOf(f))
      && HeaderOf(f).dataSize == (|file| - 44) % TWO_32
      && HeaderOf(f).riffSize == (|file| - 8) % TWO_32
      && file[44..] == Payload(samples)
      && ((forall i :: 0 <= i < |samples| ==> Is8Bit(samples[i])) ==> DecodePayload(file[44..]) == samples)
  {
    var file := EncodeHeader(HeaderOf(f)) + Payload(samples);
    assert file[..44] == EncodeHeader(HeaderOf(f));
    ParseEncodeHeader(HeaderOf(f));
    HeaderLayout(HeaderOf(f));
    assert file[44..] == Payload(samples);
    var d := f.totalSamples % TWO_32;
    assert (d + 36) % TWO_32 == (f.totalSamples + 36) % TWO_32 by {
      ModAddMultiple(f.totalSamples + 36, -(f.totalSamples / TWO_32), TWO_32);
    }
    if forall i :: 0 <= i < |samples| ==> Is8Bit(samples[i]) {
      PayloadRoundTrip(samples);
    }
  }

  /** A stream whose format is refused (no sample count, not mono, or not
      8-bit) fails at its first frame, error callbacks or not: the call returns 1 and the output
      file is left empty, not even a header written. */
  lemma ConvertRefusedStream(saved: StreamInfo, env: Environment, ms: seq<Metadata>, fs: seq<Frame>)
    requires Starts(env) && Delivered(env.events)
    requires AllReadable(fs) && fs != [] && NoErrors(env.events) == Metas(ms) + Frames(fs)
    requires !Supported(FormatAfter(saved, ms))
    ensures Convert(saved, env).status == 1
    ensures Convert(saved, env).file == Some([])
    ensures Convert(saved, env).saved == FormatAfter(saved, ms)
  {
    var f := FormatAfter(saved, ms);
    var c0 := Converter(saved, Sink([], env.room));
    RunSkipsErrors(c0, env.events);
    RunMetadataThen(c0, ms, Frames(fs));
    RunFramesRefused(Converter(f, c0.out), fs);
  }

  /** A stream with no audio frames never reaches the format check: whatever
      its STREAMINFO says (no sample count, stereo, 16-bit), the call returns
      0 unless libFLAC reports a failure, and leaves an empty file with no
      header. */
  lemma ConvertWithoutFrames(saved: StreamInfo, env: Environment, ms: seq<Metadata>)
    requires Starts(env) && Delivered(env.events) && NoErrors(env.events) == Metas(ms)
    ensures Convert(saved, env) == Outcome(if env.engineFailed then 1 else 0, Some([]), FormatAfter(saved, ms))
  {
    var c0 := Converter(saved, Sink([], env.room));
    RunSkipsErrors(c0, env.events);
    assert Metas(ms) + [] == Metas(ms);
    RunMetadataThen(c0, ms, []);
  }

  /** The worked example of a 100-sample 8 kHz 8-bit mono stream: data size
      100, RIFF size 136, and the extreme samples -128 and 127 stored as
      0x00 and 0xFF. */
  lemma HundredSampleExample()
    ensures var h := HeaderOf(StreamInfo(100, 8000, 1, 8));
      && h.dataSize == 100 && h.riffSize == 136 && h.sampleRate == 8000 && h.byteRate == 8000
      && EncodeHeader(h)[4..8] == [136, 0, 0, 0]
      && EncodeHeader(h)[40..44] == [100, 0, 0, 0]
    ensures SampleByte(-128) == 0x00 && SampleByte(127) == 0xFF
  {
    var h := HeaderOf(StreamInfo(100, 8000, 1, 8));
    HeaderLayout(h);
    EncodeDecodeU32(EncodeHeader(h)[4..8]);
    EncodeDecodeU32(EncodeHeader(h)[40..44]);
  }
}
