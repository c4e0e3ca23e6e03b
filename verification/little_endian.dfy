/** Fixed-width unsigned integers and the little-endian byte encoders the
    converter uses for every multi-byte WAV header field
    (flac2WavDll/main.cpp:47-73). */
module LittleEndian {

  /** One byte of the output file. */
  type Byte = x: int | 0 <= x < 0x100

  /** The C integer widths the converter works with. */
  type U16 = x: int | 0 <= x < 0x1_0000
  type U32 = x: int | 0 <= x < 0x1_0000_0000
  type U64 = x: int | 0 <= x < 0x1_0000_0000_0000_0000

  const TWO_16: int := 0x1_0000
  const TWO_32: int := 0x1_0000_0000
  const TWO_64: int := 0x1_0000_0000_0000_0000

  /** The byte `fputc` stores for its argument: the argument converted to
      `unsigned char`, i.e. reduced modulo 256 (two's complement for negative
      values, which Dafny's Euclidean `%` matches). */
  function LowByte(x: int): Byte
  {
    x % 0x100
  }

  /** 256 to the power k: the weight of byte k in a little-endian number. */
  function Pow256(k: nat): (p: nat)
    ensures p > 0
  {
    if k == 0 then 1 else 0x100 * Pow256(k - 1)
  }

  lemma Pow256Small()
    ensures Pow256(1) == 0x100 && Pow256(2) == 0x1_0000 && Pow256(3) == 0x100_0000
  {
  }

  /** Byte k of x, i.e. `(x >> 8k) & 0xFF`. */
  function ByteOf(x: nat, k: nat): Byte
  {
    (x / Pow256(k)) % 0x100
  }

  /** `write_uint8`: a single `fputc`. */
  function EncodeU8(x: Byte): (r: seq<Byte>)
    ensures |r| == 1 && DecodeU8(r) == x
  {
    [LowByte(x)]
  }

  /** `write_little_endian_uint16`: low byte, then `x >> 8`. */
  function EncodeU16(x: U16): (r: seq<Byte>)
    ensures |r| == 2
    ensures DecodeU16(r) == x
  {
    [LowByte(x), LowByte(x / 0x100)]
  }

  /** `write_little_endian_uint32`: `x`, `x >> 8`, `x >> 16`, `x >> 24`, each
      truncated to a byte by `fputc`. */
  function EncodeU32(x: U32): (r: seq<Byte>)
    ensures |r| == 4
    ensures DecodeU32(r) == x
  {
    SplitU32(x);
    [LowByte(x), LowByte(x / 0x100), LowByte(x / 0x1_0000), LowByte(x / 0x100_0000)]
  }

  /** x written out in base 256, one digit per stored byte. */
  lemma SplitU32(x: U32)
    ensures x == x % 0x100 + 0x100 * ((x / 0x100) % 0x100)
               + 0x1_0000 * ((x / 0x1_0000) % 0x100) + 0x100_0000 * (x / 0x100_0000)
    ensures x / 0x100_0000 < 0x100
  {
    var q1 := x / 0x100;
    var q2 := q1 / 0x100;
    assert x == x % 0x100 + 0x100 * q1;
    assert q1 == q1 % 0x100 + 0x100 * q2;
    assert q2 == x / 0x1_0000;
    assert q2 == q2 % 0x100 + 0x100 * (q2 / 0x100);
    assert q2 / 0x100 == x / 0x100_0000;
  }

  /** Byte k of the 16-bit encoding is `(x >> 8k) & 0xFF`, low byte first. */
  lemma EncodeU16Bytes(x: U16)
    ensures forall k :: 0 <= k < 2 ==> EncodeU16(x)[k] == ByteOf(x, k)
  {
    Pow256Small();
  }

  /** Byte k of the 32-bit encoding is `(x >> 8k) & 0xFF`, low byte first. */
  lemma EncodeU32Bytes(x: U32)
    ensures forall k :: 0 <= k < 4 ==> EncodeU32(x)[k] == ByteOf(x, k)
  {
    Pow256Small();
  }

  /** The reading side: what a WAV reader recovers from the stored bytes. */
  function DecodeU8(bs: seq<Byte>): Byte
    requires |bs| == 1
  {
    bs[0]
  }

  function DecodeU16(bs: seq<Byte>): U16
    requires |bs| == 2
  {
    bs[0] as int + 0x100 * bs[1] as int
  }

  function DecodeU32(bs: seq<Byte>): U32
    requires |bs| == 4
  {
    bs[0] as int + 0x100 * bs[1] as int + 0x1_0000 * bs[2] as int + 0x100_0000 * bs[3] as int
  }

  /** Every two stored bytes are the encoding of exactly one 16-bit value. */
  lemma EncodeDecodeU16(bs: seq<Byte>)
    requires |bs| == 2
    ensures EncodeU16(DecodeU16(bs)) == bs
  {
  }

  /** Every four stored bytes are the encoding of exactly one 32-bit value. */
  lemma EncodeDecodeU32(bs: seq<Byte>)
    requires |bs| == 4
    ensures EncodeU32(DecodeU32(bs)) == bs
  {
    var x := DecodeU32(bs);
    var hi := bs[1] as int + 0x100 * bs[2] as int + 0x1_0000 * bs[3] as int;
    assert x == bs[0] as int + 0x100 * hi;
    assert x % 0x100 == bs[0] && x / 0x100 == hi;
    assert hi % 0x100 == bs[1] && hi / 0x100 == bs[2] as int + 0x100 * bs[3] as int;
    assert x / 0x1_0000 == hi / 0x100;
    assert x / 0x100_0000 == bs[3];
  }

  /** The 32-bit encoder loses nothing: distinct values give distinct bytes. */
  lemma EncodeU32Injective(x: U32, y: U32)
    ensures EncodeU32(x) == EncodeU32(y) <==> x == y
  {
    if EncodeU32(x) == EncodeU32(y) {
      assert DecodeU32(EncodeU32(x)) == DecodeU32(EncodeU32(y));
    }
  }
}
