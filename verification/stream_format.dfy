/** The audio format the converter remembers between callbacks: the four
    STREAMINFO values kept in static variables (flac2WavDll/main.cpp:42-45),
    and the format policy the block writer enforces (main.cpp:39-40,
    127-134). */
module StreamFormat {
  import opened LittleEndian

  /** `BYTESPERSAMPLE` and `CHANNELS`: the only format the converter writes. */
  const BYTES_PER_SAMPLE: nat := 1
  const CHANNELS: nat := 1

  /** `total_samples` is a `FLAC__uint64`, the other three are `unsigned`. */
  datatype StreamInfo = StreamInfo(totalSamples: U64, sampleRate: U32, channels: U32, bitsPerSample: U32)

  /** The statics' values before any STREAMINFO has been seen. */
  const Unset := StreamInfo(0, 0, 0, 0)

  /** The checks the block writer makes before writing anything: a known,
      non-zero sample count and an 8-bit mono stream. */
  predicate Supported(f: StreamInfo)
  {
    && f.totalSamples != 0
    && f.channels == CHANNELS
    && f.bitsPerSample == 8 * BYTES_PER_SAMPLE
  }
}
