/** The zlib wrapper around a DEFLATE stream (section 2.2 of RFC 1950). */
module Zlib {
  import opened Bits
  import opened CanonicalCode
  import opened Inflate
  import opened Blocks
  import opened BlockFormat
  import opened Checksums

  /** The two header bytes, as tinfl_decompress tests them for output that does not wrap
      (src/http/miniz.c:1451-1454). */
  predicate HeaderOk(a: Byte, b: Byte)
  {
    (a * 256 + b) % 31 == 0 && b / 32 % 2 == 0 && a % 16 == 8
  }

  /** Four bytes, the highest first. */
  function BigEndian(a: U32): (s: seq<Byte>)
    ensures |s| == 4
  {
    [a / 0x100_0000, a / 0x1_0000 % 256, a / 256 % 256, a % 256]
  }

  function FromBigEndian(s: seq<Byte>): (a: U32)
    requires |s| == 4
  {
    var a: int, b: int, c: int, d: int := s[0], s[1], s[2], s[3];
    ((a * 256 + b) * 256 + c) * 256 + d
  }

  lemma BigEndianBack(a: U32)
    ensures FromBigEndian(BigEndian(a)) == a
  {
  }

  /** What the decoder makes of a zlib stream: the blocks, and then, at the next byte, a checksum
      that has to be that of the output (src/http/miniz.c:1671-1675, 1681-1696). */
  function InflateZlib(stream: seq<Byte>): Option<seq<Byte>>
  {
    if |stream| < 2 || !HeaderOk(stream[0], stream[1]) then None else
    var bits := BytesToBits(stream[2..]);
    match InflateFrom(bits, 0, [])
    case None => None
    case Some(r) =>
      var p := AlignUp(r.pos);
      if p + 32 > |bits| || FromBigEndian(BytesAt(bits, p, 4)) != Adler32(1, r.out) then None else Some(r.out)
  }

  /** The bits of the wrapper in front. */
  function HeadBits(): (h: seq<bool>)
    ensures |h| == 16
  {
    ToBits(0x78, 8) + ToBits(0x01, 8)
  }

  lemma TakeHead(stream: seq<Byte>, body: seq<bool>)
    requires BytesToBits(stream) == HeadBits() + body
    ensures |stream| >= 2 && stream[0] == 0x78 && stream[1] == 0x01 && BytesToBits(stream[2..]) == body
  {
    hide *;
    HeadIs(body);
    TakeByte(stream, 0x78, ToBits(0x01, 8) + body);
    TakeByte(stream[1..], 0x01, body);
    assert stream[1..][1..] == stream[2..];
  }

  lemma HeadIs(body: seq<bool>)
    ensures HeadBits() + body == ToBits(0x78, 8) + (ToBits(0x01, 8) + body)
  {
    hide ToBits;
  }

  lemma TakeByte(s: seq<Byte>, b: Byte, body: seq<bool>)
    requires BytesToBits(s) == ToBits(b, 8) + body
    ensures s != [] && s[0] == b && BytesToBits(s[1..]) == body
  {
    hide ToBits;
    var bits := BytesToBits(s);
    assert bits == ToBits(s[0], 8) + BytesToBits(s[1..]);
    assert bits[..8] == ToBits(s[0], 8) && bits[..8] == ToBits(b, 8);
    assert bits[8..] == BytesToBits(s[1..]) && bits[8..] == body;
    SameByte(s[0], b);
  }

  lemma SameByte(a: Byte, b: Byte)
    requires ToBits(a, 8) == ToBits(b, 8)
    ensures a == b
  {
    hide ToBits, FromBits;
    Pow2Values();
    FromToBits(a, 8);
    FromToBits(b, 8);
  }

  /** A wrapped stream of blocks, with the checksum of what the blocks stand for, is taken. */
  lemma InflateWrapped(stream: seq<Byte>, bs: seq<Block>, last: Block)
    requires ValidBlocks(bs + [last])
    requires ValidBlocks(bs) && ValidBlock(|StreamBytes(bs)|, last)
    requires var end := |StreamBits(bs)| + |BlockBits(|StreamBytes(bs)|, |StreamBits(bs)|, true, last)|;
             BytesToBits(stream) == HeadBits() + (StreamBits(bs) + BlockBits(|StreamBytes(bs)|, |StreamBits(bs)|, true, last)
               + (Padding(end) + BytesToBits(BigEndian(Adler32(1, StreamBytes(bs + [last]))))))
    ensures InflateZlib(stream) == Some(StreamBytes(bs + [last]))
  {
    hide *;
    var end := |StreamBits(bs)| + |BlockBits(|StreamBytes(bs)|, |StreamBits(bs)|, true, last)|;
    var a := BigEndian(Adler32(1, StreamBytes(bs + [last])));
    var blocks := StreamBits(bs) + BlockBits(|StreamBytes(bs)|, |StreamBits(bs)|, true, last);
    var rest := Padding(end) + BytesToBits(a);
    TakeHead(stream, blocks + rest);
    var bits := BytesToBits(stream[2..]);
    InflateStreamFrom(bits, bs, last, rest);
    TrailerAt(bits, blocks, Padding(end), BytesToBits(a));
    StoredBytes(bits, AlignUp(end), a);
    BigEndianBack(Adler32(1, StreamBytes(bs + [last])));
    TakenIf(stream, end, StreamBytes(bs + [last]), AlignUp(end));
  }

  lemma TrailerAt(bits: seq<bool>, a: seq<bool>, b: seq<bool>, c: seq<bool>)
    requires bits == a + (b + c)
    ensures At(bits, |a| + |b|, c) && |a| + |b| + |c| <= |bits|
  {
  }

  lemma TakenIf(stream: seq<Byte>, end: nat, out: seq<Byte>, p: nat)
    requires |stream| >= 2 && stream[0] == 0x78 && stream[1] == 0x01 && p == AlignUp(end)
    requires InflateFrom(BytesToBits(stream[2..]), 0, []) == Some(Result(out, end))
    requires p + 32 <= |BytesToBits(stream[2..])| && FromBigEndian(BytesAt(BytesToBits(stream[2..]), p, 4)) == Adler32(1, out)
    ensures InflateZlib(stream) == Some(out)
  {
    hide InflateFrom, BytesToBits, BytesAt, Adler32, FromBigEndian, AlignUp;
  }
}
