/** The WAV output stream as the converter sees it: an append-only byte sink
    that may start refusing writes (disk full, I/O error). Every write in
    flac2WavDll/main.cpp is an `fputc` or `fwrite`, and the converter gives up
    at the first one that reports failure, so a single number -- how many more
    bytes the C library accepts before its first failing call -- covers every
    failure pattern the converter can observe. `written` is what the stream
    accepted, not what a later buffer flush puts on disk. */
module OutputFile {
  import opened LittleEndian

  datatype Sink = Sink(written: seq<Byte>, room: nat)

  function Min(a: nat, b: nat): nat
  {
    if a <= b then a else b
  }

  /** What fits of a + b once a has fitted entirely. */
  lemma PrefixOfAppend(a: seq<Byte>, b: seq<Byte>, n: nat)
    requires |a| <= n
    ensures (a + b)[..Min(|a + b|, n)] == a + b[..Min(|b|, n - |a|)]
  {
  }

  /** The same, behind bytes already in the file. */
  lemma AppendPrefixOfAppend(w: seq<Byte>, a: seq<Byte>, b: seq<Byte>, n: nat)
    requires |a| <= n
    ensures w + a + b[..Min(|b|, n - |a|)] == w + (a + b)[..Min(|a + b|, n)]
  {
    PrefixOfAppend(a, b, n);
  }

  /** What fits of a + b when a does not fit entirely. */
  lemma PrefixOfAppendShort(a: seq<Byte>, b: seq<Byte>, n: nat)
    requires n < |a|
    ensures (a + b)[..Min(|a + b|, n)] == a[..Min(|a|, n)]
  {
  }

  /** `fputc`: stores one byte, or returns EOF once the device is full. */
  function Put(s: Sink, b: Byte): (r: (Sink, bool))
  {
    if s.room == 0 then (s, false) else (Sink(s.written + [b], s.room - 1), true)
  }

  /** Writes `data` byte by byte, stopping at the first failing byte; this is
      both `fwrite` with a short count and a run of `fputc` joined by `&&`.
      The device ends up holding the longest prefix of `data` it had room for,
      and the write reports success exactly when all of `data` fitted. */
  function Write(s: Sink, data: seq<Byte>): (r: (Sink, bool))
    ensures r.1 <==> |data| <= s.room
    ensures r.0.written == s.written + data[..Min(|data|, s.room)]
    ensures r.0.room == s.room - Min(|data|, s.room)
    decreases |data|
  {
    if data == [] then (s, true)
    else
      var (s1, ok) := Put(s, data[0]);
      if !ok then (s1, false)
      else
        var r := Write(s1, data[1..]);
        assert data[..Min(|data|, s.room)] == [data[0]] + data[1..][..Min(|data| - 1, s1.room)];
        r
  }

  /** `write_uint8`: the one-byte encoding written out, which is a single
      `fputc` of the byte. */
  function WriteU8(s: Sink, b: Byte): (r: (Sink, bool))
    ensures r == Put(s, b)
  {
    var r := Write(s, EncodeU8(b));
    assert EncodeU8(b) == [b];
    assert s.room == 0 ==> r.0.written == s.written + [];
    assert s.room > 0 ==> r.0.written == s.written + [b];
    assert r.0 == Put(s, b).0;
    r
  }

  /** Concatenation of a list of byte strings. */
  function Flatten(chunks: seq<seq<Byte>>): (r: seq<Byte>)
    decreases |chunks|
  {
    if chunks == [] then [] else chunks[0] + Flatten(chunks[1..])
  }

  /** A chain of writes joined by `||` on failure, as in the header writer:
      each chunk is written in turn and the first failing one ends the
      chain. Its effect is that of one write of all the chunks together. */
  function WriteChain(s: Sink, chunks: seq<seq<Byte>>): (r: (Sink, bool))
    ensures r.1 <==> |Flatten(chunks)| <= s.room
    ensures r.0.written == s.written + Flatten(chunks)[..Min(|Flatten(chunks)|, s.room)]
    ensures r.0.room == s.room - Min(|Flatten(chunks)|, s.room)
    decreases |chunks|
  {
    if chunks == [] then (s, true)
    else
      var (s1, ok) := Write(s, chunks[0]);
      if !ok then
        assert Flatten(chunks)[..s.room] == chunks[0][..s.room];
        (s1, false)
      else
        var r := WriteChain(s1, chunks[1..]);
        assert Flatten(chunks) == chunks[0] + Flatten(chunks[1..]);
        assert Flatten(chunks)[..Min(|Flatten(chunks)|, s.room)]
            == chunks[0] + Flatten(chunks[1..])[..Min(|Flatten(chunks[1..])|, s1.room)];
        r
  }

  /** Two writes in a row, the second only if the first succeeded, act like
      one write of both byte strings. */
  lemma WriteThenWrite(s: Sink, a: seq<Byte>, b: seq<Byte>)
    ensures Write(s, a).1 ==> Write(Write(s, a).0, b) == Write(s, a + b)
    ensures !Write(s, a).1 ==> Write(s, a).0 == Write(s, a + b).0 && !Write(s, a + b).1
  {
    var s1 := Write(s, a).0;
    if Write(s, a).1 {
      var r1, r2 := Write(s1, b), Write(s, a + b);
      AppendPrefixOfAppend(s.written, a, b, s.room);
      assert r1.0.written == r2.0.written && r1.0.room == r2.0.room;
    } else {
      PrefixOfAppendShort(a, b, s.room);
    }
  }
}
