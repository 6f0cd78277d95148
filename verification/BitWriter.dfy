/** The bit writer of the compressor: TDEFL_PUT_BITS (src/http/miniz.c:1906-1915). */
module BitWriter {
  import opened Bits

  /** The output buffer and the bits that do not make a byte yet.

      `stream` is every bit put since the buffer was last empty, also those of bytes that no longer
      fitted: the macro drops bytes silently once the end of the buffer is reached. */
  class Writer {
    const buf: array<Byte>
    var len: nat          // m_pOutput_buf, from the start of the buffer
    var end: nat          // m_pOutput_buf_end
    var bitBuffer: nat    // m_bit_buffer
    var bitsIn: nat       // m_bits_in
    ghost var stream: seq<bool>

    ghost predicate Valid()
      reads this, buf
    {
      && end <= buf.Length && bitsIn < 8
      && Holds(buf[..], len, end, bitBuffer, bitsIn, stream)
    }

    constructor (size: nat, room: nat)
      requires room <= size
      ensures Valid() && fresh(buf) && stream == [] && end == room && buf.Length == size && len == 0 && bitsIn == 0
    {
      buf := new Byte[size](i => 0);
      len, end, bitBuffer, bitsIn, stream := 0, room, 0, 0, [];
      new;
      StartHolds(buf[..], end, 0, 0);
    }

    /** Is there no room left? Then bytes may have been dropped. */
    predicate Full()
      reads this
    {
      len >= end
    }

    /** Start again with an empty buffer; bits short of a byte are kept. */
    method Reset()
      requires Valid()
      modifies this
      ensures Valid() && end == old(end) && len == 0
      ensures bitBuffer == old(bitBuffer) && bitsIn == old(bitsIn) && stream == ToBits(bitBuffer, bitsIn)
    {
      len := 0;
      stream := ToBits(bitBuffer, bitsIn);
      StartHolds(buf[..], end, bitBuffer, bitsIn);
    }

    /** TDEFL_PUT_BITS(bits, n). */
    method PutBits(bits: nat, n: nat)
      requires Valid() && bits < Pow2(n) && n <= 16
      modifies this, buf
      ensures Valid() && end == old(end)
      ensures stream == old(stream) + ToBits(bits, n)
      ensures old(len) <= len <= buf.Length && forall i :: 0 <= i < old(len) ==> buf[i] == old(buf[i])
    {
      hide BytesToBits, ToBits, Pow2;
      PutHolds(buf[..], len, end, bitBuffer, bitsIn, stream, bits, n);
      bitBuffer := bitBuffer + bits * Pow2(bitsIn);
      bitsIn := bitsIn + n;
      stream := stream + ToBits(bits, n);
      while bitsIn >= 8
        invariant end == old(end) && end <= buf.Length && stream == old(stream) + ToBits(bits, n)
        invariant Holds(buf[..], len, end, bitBuffer, bitsIn, stream)
        invariant old(len) <= len && forall i :: 0 <= i < old(len) ==> buf[i] == old(buf[i])
      {
        ByteHolds(buf[..], len, end, bitBuffer, bitsIn, stream);
        if len < end {
          buf[len] := bitBuffer % 256;
          len := len + 1;
        }
        bitBuffer := bitBuffer / 256;
        bitsIn := bitsIn - 8;
      }
    }

    /** Go back to where the writer was with `stream0`, whatever was put since
        (src/http/miniz.c:2196 and 2211). */
    method Rewind(len0: nat, bitBuffer0: nat, bitsIn0: nat, ghost stream0: seq<bool>)
      requires end <= buf.Length && len0 < end && bitsIn0 < 8 && Holds(buf[..], len0, end, bitBuffer0, bitsIn0, stream0)
      modifies this
      ensures Valid() && end == old(end) && stream == stream0 && len == len0 && bitBuffer == bitBuffer0 && bitsIn == bitsIn0
    {
      len, bitBuffer, bitsIn, stream := len0, bitBuffer0, bitsIn0, stream0;
    }
  }

  /** Bytes after the first len do not matter. */
  lemma HoldsSame(buf: seq<Byte>, buf2: seq<Byte>, len: nat, end: nat, bitBuffer: nat, bitsIn: nat, stream: seq<bool>)
    requires Holds(buf, len, end, bitBuffer, bitsIn, stream) && len <= |buf2| && buf2[..len] == buf[..len]
    ensures Holds(buf2, len, end, bitBuffer, bitsIn, stream)
  {
  }

  /** The buffer holds the whole bytes of the stream, as many as fit; the rest is in bitBuffer. */
  ghost predicate Holds(buf: seq<Byte>, len: nat, end: nat, bitBuffer: nat, bitsIn: nat, stream: seq<bool>)
  {
    && bitsIn <= |stream| && (|stream| - bitsIn) % 8 == 0
    && len == (if (|stream| - bitsIn) / 8 <= end then (|stream| - bitsIn) / 8 else end) && len <= |buf|
    && BytesToBits(buf[..len]) == stream[..8 * len]
    && bitBuffer < Pow2(bitsIn) && stream[|stream| - bitsIn..] == ToBits(bitBuffer, bitsIn)
  }

  lemma StartHolds(buf: seq<Byte>, end: nat, bitBuffer: nat, bitsIn: nat)
    requires bitsIn < 8 && bitBuffer < Pow2(bitsIn)
    ensures Holds(buf, 0, end, bitBuffer, bitsIn, ToBits(bitBuffer, bitsIn))
  {
    assert buf[..0] == [];
  }

  lemma PutHolds(buf: seq<Byte>, len: nat, end: nat, bitBuffer: nat, bitsIn: nat, stream: seq<bool>, bits: nat, n: nat)
    requires Holds(buf, len, end, bitBuffer, bitsIn, stream) && bits < Pow2(n)
    ensures bits * Pow2(bitsIn) >= 0
    ensures Holds(buf, len, end, bitBuffer + bits * Pow2(bitsIn), bitsIn + n, stream + ToBits(bits, n))
  {
    hide BytesToBits, ToBits, Pow2;
    ToBitsAppend(bitBuffer, bitsIn, bits, n);
    ShiftBound(bitBuffer, bitsIn, bits, n);
    ProductNat(bits, Pow2(bitsIn));
    MoreBits(buf, len, end, bitBuffer, bitsIn, stream, bitBuffer + bits * Pow2(bitsIn), n, ToBits(bits, n));
  }

  lemma ProductNat(a: nat, b: nat)
    ensures a * b >= 0
  {
  }

  lemma MoreBits(buf: seq<Byte>, len: nat, end: nat, bitBuffer: nat, bitsIn: nat, stream: seq<bool>, bb: nat, n: nat, x: seq<bool>)
    requires Holds(buf, len, end, bitBuffer, bitsIn, stream) && |x| == n
    requires bb < Pow2(bitsIn + n) && ToBits(bb, bitsIn + n) == ToBits(bitBuffer, bitsIn) + x
    ensures Holds(buf, len, end, bb, bitsIn + n, stream + x)
  {
    hide BytesToBits, ToBits, Pow2;
    var s := stream + x;
    assert s[|s| - (bitsIn + n)..] == stream[|stream| - bitsIn..] + x;
    assert s[..8 * len] == stream[..8 * len];
  }

  lemma ShiftBound(v: nat, a: nat, w: nat, b: nat)
    requires v < Pow2(a) && w < Pow2(b)
    ensures v + w * Pow2(a) < Pow2(a + b)
  {
    Pow2Add(a, b);
    hide Pow2;
    ProductBelow(v, Pow2(a), w, Pow2(b));
  }

  lemma ProductBelow(v: nat, p: nat, w: nat, q: nat)
    requires v < p && w < q
    ensures v + w * p < p * q
  {
    var k := q - w - 1;
    assert p * q == w * p + p + k * p;
  }

  lemma ByteHolds(buf: seq<Byte>, len: nat, end: nat, bitBuffer: nat, bitsIn: nat, stream: seq<bool>)
    requires Holds(buf, len, end, bitBuffer, bitsIn, stream) && bitsIn >= 8 && end <= |buf|
    ensures len < end ==> Holds(buf[len := bitBuffer % 256], len + 1, end, bitBuffer / 256, bitsIn - 8, stream)
    ensures len >= end ==> Holds(buf, len, end, bitBuffer / 256, bitsIn - 8, stream)
  {
    hide ToBits, Pow2, BytesToBits;
    Pow2Values();
    var at, rest := |stream| - bitsIn, bitsIn - 8;
    FirstByte(bitBuffer, rest);
    assert stream[at..][..8] == ToBits(bitBuffer % 256, 8) && stream[at..][8..] == ToBits(bitBuffer / 256, rest);
    assert stream[at + 8..] == stream[at..][8..];
    if len < end {
      var b2 := buf[len := bitBuffer % 256];
      assert at == 8 * len;
      assert b2[..len + 1] == buf[..len] + [bitBuffer % 256];
      BytesToBitsSnoc(buf[..len], bitBuffer % 256);
      assert stream[..8 * (len + 1)] == stream[..8 * len] + stream[at..][..8];
    }
  }

  lemma FirstByte(v: nat, rest: nat)
    ensures ToBits(v, 8 + rest) == ToBits(v % 256, 8) + ToBits(v / 256, rest)
    ensures v < Pow2(8 + rest) ==> v / 256 < Pow2(rest)
  {
    Pow2Values();
    ToBitsAppend(v % 256, 8, v / 256, rest);
    assert v % 256 + v / 256 * Pow2(8) == v;
    Pow2Add(8, rest);
  }
}
