/** The sample payload: each decoded sample of channel 0 becomes one unsigned
    8-bit PCM byte (flac2WavDll/main.cpp:157-167). FLAC hands out signed
    samples, 8-bit WAV stores them offset by 128, and the converter gets from
    one to the other by flipping the top bit of the sample's low byte. */
module Pcm {
  import opened LittleEndian

  /** A decoded sample as libFLAC delivers it (`FLAC__int32`). */
  type I32 = x: int | -0x8000_0000 <= x < 0x8000_0000

  /** A sample that fits in 8 bits, as in an 8-bit stream. */
  predicate Is8Bit(s: int)
  {
    -0x80 <= s < 0x80
  }

  /** `b ^ 0x80` on a byte: bit 7 toggled, all other bits kept. */
  function SignFlip(b: Byte): Byte
  {
    if b < 0x80 then b + 0x80 else b - 0x80
  }

  /** SignFlip is exactly the bitwise XOR with 0x80 the source applies, for
      every byte value. */
  lemma SignFlipIsXor(x: bv8)
    ensures SignFlip(x as int) == (x ^ 0x80) as int
  {
  }

  /** `(FLAC__uint8)sample ^ 0x80`: the byte stored for one sample. For an
      8-bit sample it is the sample plus 128 (offset binary), and flipping
      bit 7 again gives back the sample's low byte. */
  function SampleByte(s: I32): (b: Byte)
    ensures Is8Bit(s) ==> b == s + 0x80
    ensures SignFlip(b) == LowByte(s)
  {
    SignFlip(LowByte(s))
  }

  /** The stored byte is the XOR with 0x80 of the sample's low byte, as
      `(FLAC__uint8)sample ^ 0x80` computes it. */
  lemma SampleByteIsXor(s: I32, low: bv8)
    requires low as int == LowByte(s)
    ensures SampleByte(s) == (low ^ 0x80) as int
  {
    SignFlipIsXor(low);
  }

  /** The bytes the sample loop writes for `samples`, in order: one byte per
      sample, the i-th one being the i-th sample's byte. */
  function Payload(samples: seq<I32>): (r: seq<Byte>)
    ensures |r| == |samples|
    ensures forall i :: 0 <= i < |samples| ==> r[i] == SampleByte(samples[i])
    decreases |samples|
  {
    if samples == [] then []
    else
      var r := [SampleByte(samples[0])] + Payload(samples[1..]);
      assert forall i :: 1 <= i < |samples| ==>
        r[i] == Payload(samples[1..])[i - 1] && samples[i] == samples[1..][i - 1];
      r
  }

  /** The payload of consecutive blocks is the concatenation of theirs. */
  lemma PayloadAppend(a: seq<I32>, b: seq<I32>)
    ensures Payload(a + b) == Payload(a) + Payload(b)
  {
    var p, q := Payload(a + b), Payload(a) + Payload(b);
    forall i | 0 <= i < |a + b|
      ensures p[i] == q[i]
    {
      if i >= |a| {
        assert (a + b)[i] == b[i - |a|];
      }
    }
  }

  /** What a WAV reader makes of 8-bit PCM bytes: signed values, 128 removed. */
  function DecodePayload(bs: seq<Byte>): seq<int>
  {
    seq(|bs|, i requires 0 <= i < |bs| => bs[i] as int - 0x80)
  }

  /** Reading the payload back gives the decoded samples, provided they are
      8-bit samples (which is what an accepted stream delivers). */
  lemma PayloadRoundTrip(samples: seq<I32>)
    requires forall i :: 0 <= i < |samples| ==> Is8Bit(samples[i])
    ensures DecodePayload(Payload(samples)) == samples
  {
    var bs := Payload(samples);
    forall i | 0 <= i < |samples|
      ensures DecodePayload(bs)[i] == samples[i]
    {
      assert bs[i] == SampleByte(samples[i]);
    }
  }
}
