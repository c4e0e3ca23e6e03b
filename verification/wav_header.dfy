/** The canonical 44-byte PCM WAVE header the converter writes in front of
    the first block's samples (flac2WavDll/main.cpp:124, 136-155): a RIFF
    chunk header, a 16-byte "fmt " chunk and the "data" chunk header, every
    number little-endian and computed in C's wrapping unsigned arithmetic. */
module WavHeader {
  import opened LittleEndian
  import opened OutputFile
  import opened StreamFormat
  import opened Wrappers

  /** The numeric header fields that depend on the stream; the fmt chunk size
      (16) and the format tag (1, PCM) are fixed. */
  datatype Header = Header(
    riffSize: U32,
    channels: U16,
    sampleRate: U32,
    byteRate: U32,
    blockAlign: U16,
    bitsPerSample: U16,
    dataSize: U32)

  const FMT_CHUNK_SIZE: U32 := 16
  const FORMAT_PCM: U16 := 1

  /** The bytes of an ASCII string literal, as `fwrite` stores them. */
  function Ascii(s: string): (r: seq<Byte>)
    requires forall i :: 0 <= i < |s| ==> s[i] as int < 0x80
  {
    seq(|s|, i requires 0 <= i < |s| => s[i] as int)
  }

  const RIFF_ID := Ascii("RIFF")
  const WAVE_FMT_ID := Ascii("WAVEfmt ")
  const DATA_ID := Ascii("data")

  /** Multiplication in `unsigned` (32-bit) and `FLAC__uint64` arithmetic. */
  function MulU32(a: int, b: int): U32
  {
    (a * b) % TWO_32
  }

  function MulU64(a: int, b: int): U64
  {
    (a * b) % TWO_64
  }

  /** Reducing modulo 2^64 first does not change the value modulo 2^32. */
  lemma ModU64ThenU32(a: int)
    ensures (a % TWO_64) % TWO_32 == a % TWO_32
  {
    var q := a / TWO_64;
    assert a == q * TWO_64 + a % TWO_64;
    assert q * TWO_64 == (q * TWO_32) * TWO_32;
  }

  /** Taking the first factor modulo m first does not change a product
      modulo m. */
  lemma MulMod(a: int, b: int, m: int)
    requires m > 0
    ensures ((a % m) * b) % m == (a * b) % m
  {
    var q := a / m;
    assert a == q * m + a % m;
    assert a * b == (a % m) * b + (q * b) * m;
    ModAddMultiple((a % m) * b, q * b, m);
  }

  /** Adding a multiple of m does not change a value modulo m. */
  lemma ModAddMultiple(x: int, k: int, m: int)
    requires m > 0
    ensures (x + k * m) % m == x % m
  {
    var y := x + k * m;
    var d := x / m + k - y / m;
    assert y == (x / m + k) * m + x % m;
    assert y == (y / m) * m + y % m;
    assert d * m == y % m - x % m;
  }

  /** `total_size` (main.cpp:124): `total_samples * channels * (bps/8)` in
      64-bit arithmetic, cast to 32 bits. */
  function TotalSize(f: StreamInfo): U32
  {
    MulU64(MulU64(f.totalSamples, f.channels), f.bitsPerSample / 8) % TWO_32
  }

  /** Whatever the intermediate 64-bit wrap-arounds, the data size is the
      exact product of sample count, channels and bytes per sample, modulo
      2^32. */
  lemma TotalSizeIsProduct(f: StreamInfo)
    ensures TotalSize(f) == (f.totalSamples * f.channels * (f.bitsPerSample / 8)) % TWO_32
  {
    var t, c, d := f.totalSamples, f.channels, f.bitsPerSample / 8;
    MulMod(t * c, d, TWO_64);
    ModU64ThenU32(t * c * d);
  }

  /** The header fields as main.cpp:140-150 compute them from the saved
      STREAMINFO values. The data size is `total_size`, the exact product of
      sample count, channels and bytes per sample modulo 2^32, for every
      format. The RIFF size is the data size plus the 36 header
      bytes after the RIFF size field, modulo 2^32. For an accepted 8-bit mono
      stream the fmt fields are forced: one channel, one byte per frame, a
      byte rate equal to the sample rate, 8 bits, and the data size is the
      sample count modulo 2^32. */
  function HeaderOf(f: StreamInfo): (h: Header)
    ensures h.riffSize == (h.dataSize + 36) % TWO_32
    ensures h.sampleRate == f.sampleRate
    ensures Supported(f) ==>
      && h.channels == 1
      && h.byteRate == f.sampleRate
      && h.blockAlign == 1
      && h.bitsPerSample == 8
      && h.dataSize == f.totalSamples % TWO_32
    ensures h.dataSize == TotalSize(f)
    ensures h.dataSize == (f.totalSamples * f.channels * (f.bitsPerSample / 8)) % TWO_32
  {
    TotalSizeIsProduct(f);
    var totalSize := TotalSize(f);
    Header(
      riffSize := (totalSize + 36) % TWO_32,
      channels := f.channels % TWO_16,
      sampleRate := f.sampleRate,
      byteRate := MulU32(MulU32(f.sampleRate, f.channels), f.bitsPerSample / 8),
      blockAlign := MulU32(f.channels, f.bitsPerSample / 8) % TWO_16,
      bitsPerSample := f.bitsPerSample % TWO_16,
      dataSize := totalSize)
  }

  /** The header as the sequence of writes main.cpp:139-150 performs. */
  function HeaderChunks(h: Header): seq<seq<Byte>>
  {
    [ RIFF_ID, EncodeU32(h.riffSize),
      WAVE_FMT_ID, EncodeU32(FMT_CHUNK_SIZE), EncodeU16(FORMAT_PCM),
      EncodeU16(h.channels), EncodeU32(h.sampleRate), EncodeU32(h.byteRate),
      EncodeU16(h.blockAlign), EncodeU16(h.bitsPerSample),
      DATA_ID, EncodeU32(h.dataSize) ]
  }

  /** The 44 header bytes, in the order they are written. */
  function EncodeHeader(h: Header): (r: seq<Byte>)
    ensures |r| == 44
  {
    var c := HeaderChunks(h);
    c[0] + c[1] + c[2] + c[3] + c[4] + c[5] + c[6] + c[7] + c[8] + c[9] + c[10] + c[11]
  }

  /** The header layout: the chunk identifiers at offsets 0, 8 and 36, the
      fmt chunk size 16 at offset 16, format tag 1 at offset 20, and each
      numeric field, little-endian, at its canonical offset. */
  lemma HeaderLayout(h: Header)
    ensures var r := EncodeHeader(h);
      && r[0..4] == RIFF_ID && r[8..16] == WAVE_FMT_ID && r[36..40] == DATA_ID
      && r[16..20] == [16, 0, 0, 0] && r[20..22] == [1, 0]
      && DecodeU32(r[4..8]) == h.riffSize
      && DecodeU16(r[22..24]) == h.channels
      && DecodeU32(r[24..28]) == h.sampleRate
      && DecodeU32(r[28..32]) == h.byteRate
      && DecodeU16(r[32..34]) == h.blockAlign
      && DecodeU16(r[34..36]) == h.bitsPerSample
      && DecodeU32(r[40..44]) == h.dataSize
  {
    var c := HeaderChunks(h);
    var r := EncodeHeader(h);
    assert r[4..8] == c[1] && r[22..24] == c[5] && r[24..28] == c[6] && r[28..32] == c[7];
    assert r[32..34] == c[8] && r[34..36] == c[9] && r[40..44] == c[11];
  }

  /** The chained header writes store exactly the encoded header. */
  lemma HeaderChunksFlatten(h: Header)
    ensures Flatten(HeaderChunks(h)) == EncodeHeader(h)
  {
    FlattenTwelve(HeaderChunks(h));
  }

  lemma {:induction false} FlattenTwelve(c: seq<seq<Byte>>)
    requires |c| == 12
    ensures Flatten(c) == c[0] + c[1] + c[2] + c[3] + c[4] + c[5] + c[6] + c[7] + c[8] + c[9] + c[10] + c[11]
  {
    assert Flatten(c[12..]) == [];
    assert Flatten(c[11..]) == c[11] + Flatten(c[12..]);
    assert Flatten(c[10..]) == c[10] + Flatten(c[11..]);
    assert Flatten(c[9..]) == c[9] + Flatten(c[10..]);
    assert Flatten(c[8..]) == c[8] + Flatten(c[9..]);
    assert Flatten(c[7..]) == c[7] + Flatten(c[8..]);
    assert Flatten(c[6..]) == c[6] + Flatten(c[7..]);
    assert Flatten(c[5..]) == c[5] + Flatten(c[6..]);
    assert Flatten(c[4..]) == c[4] + Flatten(c[5..]);
    assert Flatten(c[3..]) == c[3] + Flatten(c[4..]);
    assert Flatten(c[2..]) == c[2] + Flatten(c[3..]);
    assert Flatten(c[1..]) == c[1] + Flatten(c[2..]);
    assert Flatten(c[0..]) == c[0] + Flatten(c[1..]);
    assert c[0..] == c;
  }

  /** A WAV reader's view of the 44 header bytes: None unless the chunk
      identifiers, the fmt size and the PCM tag are where they belong. */
  function ParseHeader(bs: seq<Byte>): Option<Header>
  {
    if |bs| != 44 || bs[0..4] != RIFF_ID || bs[8..16] != WAVE_FMT_ID || bs[36..40] != DATA_ID
       || bs[16..20] != EncodeU32(FMT_CHUNK_SIZE) || bs[20..22] != EncodeU16(FORMAT_PCM)
    then None
    else Some(Header(
      riffSize := DecodeU32(bs[4..8]),
      channels := DecodeU16(bs[22..24]),
      sampleRate := DecodeU32(bs[24..28]),
      byteRate := DecodeU32(bs[28..32]),
      blockAlign := DecodeU16(bs[32..34]),
      bitsPerSample := DecodeU16(bs[34..36]),
      dataSize := DecodeU32(bs[40..44])))
  }

  /** A reader recovers every field of the header that was written. */
  lemma ParseEncodeHeader(h: Header)
    ensures ParseHeader(EncodeHeader(h)) == Some(h)
  {
    HeaderLayout(h);
  }

  /** Conversely, the header bytes a reader accepts are exactly the encoding
      of what it read: the layout leaves no byte unaccounted for. */
  lemma EncodeParseHeader(bs: seq<Byte>, h: Header)
    requires ParseHeader(bs) == Some(h)
    ensures EncodeHeader(h) == bs
  {
    var r := EncodeHeader(h);
    HeaderLayout(h);
    EncodeDecodeU32(bs[4..8]);
    EncodeDecodeU16(bs[22..24]);
    EncodeDecodeU32(bs[24..28]);
    EncodeDecodeU32(bs[28..32]);
    EncodeDecodeU16(bs[32..34]);
    EncodeDecodeU16(bs[34..36]);
    EncodeDecodeU32(bs[40..44]);
    assert r[4..8] == bs[4..8] && r[22..24] == bs[22..24] && r[24..28] == bs[24..28];
    assert r[28..32] == bs[28..32] && r[32..34] == bs[32..34] && r[34..36] == bs[34..36];
    assert r[40..44] == bs[40..44];
    forall i | 0 <= i < 44
      ensures r[i] == bs[i]
    {
      if i < 4 { assert r[i] == r[0..4][i]; }
      else if i < 8 { assert r[i] == r[4..8][i - 4]; }
      else if i < 16 { assert r[i] == r[8..16][i - 8]; }
      else if i < 20 { assert r[i] == r[16..20][i - 16]; }
      else if i < 22 { assert r[i] == r[20..22][i - 20]; }
      else if i < 24 { assert r[i] == r[22..24][i - 22]; }
      else if i < 28 { assert r[i] == r[24..28][i - 24]; }
      else if i < 32 { assert r[i] == r[28..32][i - 28]; }
      else if i < 34 { assert r[i] == r[32..34][i - 32]; }
      else if i < 36 { assert r[i] == r[34..36][i - 34]; }
      else if i < 40 { assert r[i] == r[36..40][i - 36]; }
      else { assert r[i] == r[40..44][i - 40]; }
    }
  }
}
