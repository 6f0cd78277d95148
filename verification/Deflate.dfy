/** The compressor as a whole (tdefl_compress, tdefl_compress_normal and tdefl_flush_block,
    src/http/miniz.c:2162-2261, 2329-2465, 2497-2690). */
module Deflate {
  import opened Bits
  import opened CanonicalCode
  import opened LzTokens
  import opened Blocks
  import opened BitWriter
  import opened HuffTable
  import opened LzBuffer
  import opened LzEmitter
  import opened BlockFormat
  import opened BlockStart
  import opened Window
  import opened Parsing
  import opened FlushBlock
  import opened Checksums
  import opened Zlib
  import Inflate

  datatype Flush = NoFlush | SyncFlush | FullFlush | Finish

  datatype Status = Okay | Done | BadParam | PutBufFailed

  const WIDE := 0x1_0000_0000

  lemma In32Next(n: nat, k: nat)
    ensures In32(In32(n) + k) == In32(n + k)
  {
    NextPosition(n, In32(n), k);
  }

  /** In 32 bits. */
  function In32(n: nat): nat { n % WIDE }

  // ---------- the stream so far, on values ----------

  /** The wrapper's bits, once something has been put out. */
  function Head(zlib: bool, flushes: nat): seq<bool>
  {
    if zlib && flushes > 0 then HeadBits() else []
  }

  /** The header is written whenever the 32-bit block counter is zero: once, in so many flushes. */
  predicate HeadOnce(zlib: bool, flushes: nat)
  {
    zlib ==> flushes <= WIDE
  }

  /** All bits so far are the header and the blocks. */
  ghost predicate Streamed(all: seq<bool>, zlib: bool, flushes: nat, blocks: seq<Block>)
  {
    && ValidBlocks(blocks) && (flushes == 0 ==> blocks == [] && all == [])
    && (HeadOnce(zlib, flushes) ==> all == Head(zlib, flushes) + StreamBits(blocks))
  }

  /** All bits so far are the header and blocks that stand for `input`. */
  ghost predicate StreamOf(all: seq<bool>, zlib: bool, flushes: nat, blocks: seq<Block>, input: seq<Byte>)
  {
    Streamed(all, zlib, flushes, blocks) && StreamBytes(blocks) == input
  }

  function Prefix(s: seq<Byte>, n: nat): seq<Byte>
  {
    if n <= |s| then s[..n] else s
  }

  /** A stream that ended with a final block, padding and, if it is wrapped, the checksum. */
  ghost predicate Ended(all: seq<bool>, zlib: bool, flushes: nat, blocks: seq<Block>, last: Block, input: seq<Byte>)
  {
    && ValidBlocks(blocks) && ValidBlocks(blocks + [last]) && ValidBlock(|StreamBytes(blocks)|, last) && StreamBytes(blocks + [last]) == input
    && flushes > 0 && (HeadOnce(zlib, flushes) ==> all == Head(zlib, flushes) + FinalBits(zlib, blocks, last, input))
  }

  /** The blocks, the final one and the end. */
  function FinalBits(zlib: bool, blocks: seq<Block>, last: Block, input: seq<Byte>): seq<bool>
    requires ValidBlocks(blocks) && ValidBlock(|StreamBytes(blocks)|, last)
  {
    var pos, b := |StreamBits(blocks)|, BlockBits(|StreamBytes(blocks)|, |StreamBits(blocks)|, true, last);
    StreamBits(blocks) + b + EndBits(zlib, pos + |b|, input)
  }

  /** What follows the final block. */
  function EndBits(zlib: bool, pos: nat, input: seq<Byte>): seq<bool>
  {
    Padding(pos) + (if zlib then BytesToBits(BigEndian(Adler32(1, input))) else [])
  }

  /** The decoder gives the input back. */
  ghost predicate Decodes(bytes: seq<Byte>, zlib: bool, input: seq<Byte>)
  {
    if zlib then InflateZlib(bytes) == Some(input) else Inflate.InflateAll(bytes) == Some(input)
  }

  /** Compression loses nothing: a stream that the compressor ended decodes to what went in. */
  lemma EndedDecodes(bytes: seq<Byte>, zlib: bool, flushes: nat, blocks: seq<Block>, last: Block, input: seq<Byte>)
    requires Ended(BytesToBits(bytes), zlib, flushes, blocks, last, input) && HeadOnce(zlib, flushes)
    ensures Decodes(bytes, zlib, input)
  {
    hide StreamBits, StreamBytes, BlockBits, BytesToBits, ValidBlock, ValidBlocks, Padding, BigEndian, Adler32, HeadBits;
    hide InflateZlib, Inflate.InflateAll;
    var end := |StreamBits(blocks)| + |BlockBits(|StreamBytes(blocks)|, |StreamBits(blocks)|, true, last)|;
    if zlib {
      InflateWrapped(bytes, blocks, last);
    } else {
      assert Head(zlib, flushes) == [];
      InflateStream(bytes, blocks, last, EndBits(zlib, end, input));
    }
  }

  lemma StreamedNext(all: seq<bool>, zlib: bool, flushes: nat, blocks: seq<Block>, b: Block)
    requires Streamed(all, zlib, flushes, blocks) && flushes > 0 && ValidBlock(|StreamBytes(blocks)|, b)
    ensures ValidBlocks(blocks + [b]) && StreamBytes(blocks + [b]) == BlockBytes(StreamBytes(blocks), b)
    ensures Streamed(all + BlockBits(|StreamBytes(blocks)|, |StreamBits(blocks)|, false, b), zlib, flushes, blocks + [b])
    ensures StreamBits(blocks + [b]) == StreamBits(blocks) + BlockBits(|StreamBytes(blocks)|, |StreamBits(blocks)|, false, b)
  {
    hide BlockBits, ValidBlock, BlockBytes, HeadBits;
    assert (blocks + [b])[..|blocks + [b]| - 1] == blocks;
    if HeadOnce(zlib, flushes) {
      var h, x := Head(zlib, flushes), BlockBits(|StreamBytes(blocks)|, |StreamBits(blocks)|, false, b);
      assert h + StreamBits(blocks) + x == h + (StreamBits(blocks) + x);
    }
  }

  /** The header goes before the first block. */
  lemma StreamedHead(all: seq<bool>, zlib: bool, flushes: nat, blockIndex: nat, blocks: seq<Block>)
    requires Streamed(all, zlib, flushes, blocks) && blockIndex == flushes % WIDE
    ensures Streamed(all + (if zlib && blockIndex == 0 then HeadBits() else []), zlib, flushes + 1, blocks)
  {
    hide HeadBits;
    if HeadOnce(zlib, flushes + 1) && zlib && flushes == 0 {
      assert all + HeadBits() == HeadBits() + StreamBits([]);
    }
  }

  /** A position that the next block can be reckoned from, also once the header was repeated. */
  ghost function PosOf(all: seq<bool>, zlib: bool, flushes: nat, blocks: seq<Block>): nat
    requires ValidBlocks(blocks)
  {
    if HeadOnce(zlib, flushes) then |StreamBits(blocks)| else |all|
  }

  lemma PosAligned(all: seq<bool>, zlib: bool, flushes: nat, blocks: seq<Block>)
    requires Streamed(all, zlib, flushes, blocks)
    ensures PosOf(all, zlib, flushes, blocks) % 8 == |all| % 8
  {
    hide HeadBits, StreamBits;
  }

  lemma StreamedBlock(all: seq<bool>, zlib: bool, flushes: nat, blocks: seq<Block>, b: Block, pos: nat)
    requires Streamed(all, zlib, flushes, blocks) && flushes > 0 && ValidBlock(|StreamBytes(blocks)|, b) && pos == PosOf(all, zlib, flushes, blocks)
    ensures ValidBlocks(blocks + [b]) && StreamBytes(blocks + [b]) == BlockBytes(StreamBytes(blocks), b)
    ensures Streamed(all + BlockBits(|StreamBytes(blocks)|, pos, false, b), zlib, flushes, blocks + [b])
    ensures PosOf(all + BlockBits(|StreamBytes(blocks)|, pos, false, b), zlib, flushes, blocks + [b]) == pos + |BlockBits(|StreamBytes(blocks)|, pos, false, b)|
  {
    hide BlockBits, ValidBlock, BlockBytes, HeadBits;
    StreamedNext(all, zlib, flushes, blocks, b);
  }

  lemma EndedNow(all: seq<bool>, zlib: bool, flushes: nat, blocks: seq<Block>, last: Block, pos: nat, input: seq<Byte>)
    requires Streamed(all, zlib, flushes, blocks) && flushes > 0 && ValidBlock(|StreamBytes(blocks)|, last) && pos == PosOf(all, zlib, flushes, blocks)
    requires BlockBytes(StreamBytes(blocks), last) == input
    ensures var x := BlockBits(|StreamBytes(blocks)|, pos, true, last);
            Ended(all + x + EndBits(zlib, pos + |x|, input), zlib, flushes, blocks, last, input)
  {
    hide BlockBits, ValidBlock, BlockBytes, HeadBits, EndBits;
    assert (blocks + [last])[..|blocks + [last]| - 1] == blocks;
    if HeadOnce(zlib, flushes) {
      var h, s, x := Head(zlib, flushes), StreamBits(blocks), BlockBits(|StreamBytes(blocks)|, pos, true, last);
      assert h + s + x + EndBits(zlib, pos + |x|, input) == h + (s + x + EndBits(zlib, pos + |x|, input));
    }
  }

  // ---------- pieces of tdefl_flush_block ----------

  /** The last flag byte is finished (src/http/miniz.c:2177-2178). */
  method FinishCodes(lz: LzCodes)
    requires lz.Valid() && lz.codePos <= LZ_CODE_BUF_SIZE - 2
    modifies lz`codePos, lz.codeBuf
    ensures Finished(lz, lz.codePos) && lz.codePos <= LZ_CODE_BUF_SIZE
  {
    hide Enc, Counted, TotalLen;
    ghost var pos, ts := lz.codePos, lz.tokens;
    StoredFacts(lz.codeBuf[..], pos, lz.flagsPos, lz.numFlagsLeft, ts);
    StoredLength(lz.codeBuf[..], pos, lz.flagsPos, lz.numFlagsLeft, ts);
    FinishStored(lz.codeBuf[..], pos, lz.flagsPos, lz.numFlagsLeft, ts);
    lz.codeBuf[lz.flagsPos] := lz.codeBuf[lz.flagsPos] / Pow2(lz.numFlagsLeft);
    lz.codePos := lz.codePos - (if lz.numFlagsLeft == 8 then 1 else 0);
  }

  /** The recorder starts on an empty block (src/http/miniz.c:2230-2233). */
  method Restart(lz: LzCodes)
    requires lz.Shaped() && forall i :: 32 <= i < MAX_SYMBOLS ==> lz.dist.count[i] == 0
    modifies lz, lz.lit.count, lz.dist.count
    ensures lz.Valid() && lz.tokens == [] && lz.codePos == 1
  {
    hide Stored, Counted;
    forall i | 0 <= i < LIT_SYMBOLS { lz.lit.count[i] := 0; }
    forall i | 0 <= i < DIST_SYMBOLS { lz.dist.count[i] := 0; }
    lz.codePos, lz.flagsPos, lz.numFlagsLeft, lz.totalLzBytes := 1, 0, 8, 0;
    lz.tokens := [];
    NothingStored(lz.codeBuf[..], lz.lit.count[..], lz.dist.count[..]);
  }

  /** The wrapper's header, when the block counter is zero (src/http/miniz.c:2180-2183). */
  method PutHead(w: Writer, zlib: bool, blockIndex: nat)
    requires w.Valid()
    modifies w, w.buf
    ensures w.Valid() && w.end == old(w.end) && w.stream == old(w.stream) + (if zlib && blockIndex == 0 then HeadBits() else [])
  {
    hide Holds, ToBits;
    if zlib && blockIndex == 0 {
      Pow2Values();
      w.PutBits(0x78, 8);
      w.PutBits(0x01, 8);
    } else {
      assert w.stream + [] == w.stream;
    }
  }

  lemma EmptyStored(size: nat, pos: nat)
    ensures BlockBits(size, pos, false, Raw([])) == ToBits(0, 3) + Padding(pos + 3) + (ToBits(0, 16) + ToBits(0xFFFF, 16))
  {
    hide Padding;
    assert ToBits(0, 3) == [false] + ToBits(0, 2);
    assert BytesToBits([]) == [];
    EmptyParts(ToBits(0, 2), Padding(pos + 3), ToBits(0, 16), ToBits(0xFFFF, 16));
  }

  lemma EmptyParts(a: seq<bool>, p: seq<bool>, c: seq<bool>, d: seq<bool>)
    ensures [false] + (a + (p + (c + (d + [])))) == [false] + a + p + (c + d)
  {
  }

  /** An empty stored block, which ends on a byte boundary (src/http/miniz.c:2224). */
  method PutSync(w: Writer, ghost size: nat, ghost pos: nat)
    requires w.Valid() && pos % 8 == |w.stream| % 8
    modifies w, w.buf
    ensures w.Valid() && w.end == old(w.end) && w.stream == old(w.stream) + BlockBits(size, pos, false, Raw([]))
  {
    hide Holds, ToBits, Padding, BlockBits, Pow2;
    EmptyStored(size, pos);
    Pow2Positive(3);
    ghost var s := w.stream;
    w.PutBits(0, 3);
    Align(w, pos + 3);
    var z := PutLengths(w, 0);
    assert s + ToBits(0, 3) + Padding(pos + 3) + (ToBits(0, 16) + ToBits(0xFFFF, 16))
        == s + (ToBits(0, 3) + Padding(pos + 3) + (ToBits(0, 16) + ToBits(0xFFFF, 16)));
  }

  lemma Pow2Positive(n: nat)
    ensures 0 < Pow2(n)
  {
  }

  /** The end of the stream (src/http/miniz.c:2217-2221). */
  method PutEnd(w: Writer, zlib: bool, adler: U32, ghost pos: nat)
    requires w.Valid() && pos % 8 == |w.stream| % 8
    modifies w, w.buf
    ensures w.Valid() && w.end == old(w.end) && w.stream == old(w.stream) + (Padding(pos) + (if zlib then BytesToBits(BigEndian(adler)) else []))
  {
    hide Holds, ToBits, Padding, BytesToBits;
    ghost var s := w.stream;
    Align(w, pos);
    if zlib {
      var i, a: nat := 0, adler;
      NoBytes();
      assert BigEndian(adler)[..0] == [];
      while i < 4
        invariant 0 <= i <= 4 && a < WIDE && w.Valid() && w.end == old(w.end) && (i < 4 ==> a / 0x100_0000 == BigEndian(adler)[i]) && a == Shifted(adler, i)
        invariant w.stream == s + Padding(pos) + BytesToBits(BigEndian(adler)[..i])
      {
        PutByteOf(w, a / 0x100_0000, BigEndian(adler), i, s + Padding(pos));
        ShiftedNext(adler, i);
        a := a * 256 % WIDE;
        i := i + 1;
      }
      assert BigEndian(adler)[..4] == BigEndian(adler);
      assert s + Padding(pos) + BytesToBits(BigEndian(adler)) == s + (Padding(pos) + BytesToBits(BigEndian(adler)));
    } else {
      assert s + Padding(pos) == s + (Padding(pos) + []);
    }
  }

  /** `a << 8 * i` in 32 bits. */
  function Shifted(a: U32, i: nat): (r: nat)
    requires i <= 4
    ensures r < WIDE
  {
    if i == 0 then a else if i == 1 then a % 0x100_0000 * 0x100 else if i == 2 then a % 0x1_0000 * 0x1_0000
    else if i == 3 then a % 0x100 * 0x100_0000 else 0
  }

  lemma ShiftedNext(a: U32, i: nat)
    requires i < 4
    ensures Shifted(a, i + 1) == Shifted(a, i) * 256 % WIDE
    ensures i < 3 ==> Shifted(a, i + 1) / 0x100_0000 == BigEndian(a)[i + 1]
  {
    var b0, b1, b2, b3 := Digits(a);
    assert Shifted(a, 0) == b0 * 0x100_0000 + (b1 * 0x1_0000 + b2 * 0x100 + b3);
    hide Shifted, BigEndian;
    if i == 0 { DropTop(b0, b1 * 0x1_0000 + b2 * 0x100 + b3); }
    else if i == 1 { DropTop(b1, b2 * 0x1_0000 + b3 * 0x100); }
    else if i == 2 { DropTop(b2, b3 * 0x1_0000); }
    else { DropTop(b3, 0); }
    if i == 0 { TopByte(b1, b2 * 0x1_0000 + b3 * 0x100); }
    else if i == 1 { TopByte(b2, b3 * 0x1_0000); }
    else if i == 2 { TopByte(b3, 0); }
  }

  lemma TopByte(b: nat, rest: nat)
    requires rest < 0x100_0000
    ensures (b * 0x100_0000 + rest) / 0x100_0000 == b
  {
  }

  lemma Digits(a: U32) returns (b0: nat, b1: nat, b2: nat, b3: nat)
    ensures b0 < 256 && b1 < 256 && b2 < 256 && b3 < 256 && BigEndian(a) == [b0, b1, b2, b3]
    ensures a == b0 * 0x100_0000 + b1 * 0x1_0000 + b2 * 0x100 + b3
    ensures Shifted(a, 1) == b1 * 0x100_0000 + b2 * 0x1_0000 + b3 * 0x100
    ensures Shifted(a, 2) == b2 * 0x100_0000 + b3 * 0x1_0000
    ensures Shifted(a, 3) == b3 * 0x100_0000 && Shifted(a, 4) == 0
  {
    b0, b1, b2, b3 := a / 0x100_0000, a / 0x1_0000 % 256, a / 256 % 256, a % 256;
    assert a / 256 == a / 0x1_0000 * 256 + b2;
    assert a / 0x1_0000 == b0 * 256 + b1;
    assert a == b0 * 0x100_0000 + b1 * 0x1_0000 + b2 * 0x100 + b3;
    assert a % 0x100_0000 == b1 * 0x1_0000 + b2 * 0x100 + b3;
    assert a % 0x1_0000 == b2 * 0x100 + b3;
  }

  lemma DropTop(b: nat, rest: nat)
    requires b < 256 && rest < 0x100_0000
    ensures (b * 0x100_0000 + rest) * 256 % WIDE == rest * 256
  {
    assert (b * 0x100_0000 + rest) * 256 == b * WIDE + rest * 256;
  }

  method PutByteOf(w: Writer, v: nat, ghost bytes: seq<Byte>, ghost i: nat, ghost s: seq<bool>)
    requires w.Valid() && i < |bytes| && v == bytes[i] && w.stream == s + BytesToBits(bytes[..i])
    modifies w, w.buf
    ensures w.Valid() && w.end == old(w.end) && w.stream == s + BytesToBits(bytes[..i + 1])
  {
    hide Holds, ToBits, BytesToBits;
    Pow2Values();
    w.PutBits(v, 8);
    BytesToBitsSnoc(bytes[..i], bytes[i]);
    assert bytes[..i + 1] == bytes[..i] + [bytes[i]];
  }

  lemma AppendMore(all: seq<bool>, w0: seq<bool>, x: seq<bool>)
    ensures all + (w0 + x) == all + w0 + x
  {
  }

  lemma NotFull(w: Writer)
    requires w.Valid() && |w.stream| / 8 < w.end
    ensures !w.Full()
  {
    hide BytesToBits, ToBits;
  }

  /** The rest after the block (src/http/miniz.c:2215-2226). */
  method PutTail(w: Writer, zlib: bool, flush: Flush, adler: U32, ghost size: nat, ghost pos: nat)
    requires w.Valid() && pos % 8 == |w.stream| % 8
    modifies w, w.buf
    ensures w.Valid() && w.end == old(w.end)
    ensures w.stream == old(w.stream) + TailBits(zlib, flush, adler, size, pos) && (flush != NoFlush ==> |w.stream| % 8 == 0)
  {
    if flush != NoFlush { EndAligned(zlib, flush, adler, size, pos, |w.stream|); }
    hide Holds, ToBits, Padding, BytesToBits, BlockBits;
    match flush
    case NoFlush => assert w.stream + [] == w.stream;
    case Finish => PutEnd(w, zlib, adler, pos);
    case _ => PutSync(w, size, pos);
  }

  function TailBits(zlib: bool, flush: Flush, adler: U32, size: nat, pos: nat): seq<bool>
  {
    match flush
    case NoFlush => []
    case Finish => Padding(pos) + (if zlib then BytesToBits(BigEndian(adler)) else [])
    case _ => BlockBits(size, pos, false, Raw([]))
  }

  lemma TailLength(zlib: bool, flush: Flush, adler: U32, size: nat, pos: nat)
    ensures |TailBits(zlib, flush, adler, size, pos)| <= 48
  {
    hide ToBits, BytesToBits, Padding, BlockBits;
    if flush.SyncFlush? || flush.FullFlush? { EmptyStored(size, pos); }
  }

  lemma EndAligned(zlib: bool, flush: Flush, adler: U32, size: nat, pos: nat, n: nat)
    requires pos % 8 == n % 8 && flush != NoFlush
    ensures (n + |TailBits(zlib, flush, adler, size, pos)|) % 8 == 0
  {
    hide BytesToBits, ToBits, BlockBits;
    if flush != Finish { EmptyStored(size, pos); }
  }

  /** A flush that does not end the stream leaves an empty stored block at its end. */
  ghost predicate EndsEmpty(flush: Flush, bs: seq<Block>)
  {
    flush == SyncFlush || flush == FullFlush ==> bs != [] && bs[|bs| - 1] == Raw([])
  }

  /** The header if it is due, one block, and the tail that the flush asks for. */
  method PutBlock(lz: LzCodes, dict: Dictionary, cl: HuffmanTable, w: Writer, options: Options, flush: Flush, dictPos: nat, blockIndex: nat, adler: U32,
                  ghost sentBits: seq<bool>, ghost flushes: nat, ghost blocks: seq<Block>, ghost done: nat)
    returns (total: nat, ghost bs: seq<Block>, ghost b: Block)
    requires BlockDue(lz, dict, lz.codePos, dictPos, done) && Separate(lz, cl, w)
    requires RingArrays(dict) !! CodeArrays(lz) && RingArrays(dict) !! OutArrays(w, cl) && CodeArrays(lz) !! OutArrays(w, cl)
    requires w.Valid() && w.end == OUT_BUF_END && w.buf.Length == OUT_BUF_SIZE && |w.stream| < 8 && |sentBits| % 8 == 0
    requires Streamed(sentBits + w.stream, options.zlib, flushes, blocks) && StreamBytes(blocks) == dict.input[..done] && blockIndex == flushes % WIDE
    requires flush == Finish && options.zlib ==> adler == Adler32(1, dict.input[..done + lz.totalLzBytes])
    modifies lz.lit.count, lz.lit.sizes, lz.lit.codes, lz.dist.sizes, lz.dist.codes, cl.count, cl.sizes, cl.codes, w, w.buf
    ensures total == lz.totalLzBytes && w.Valid() && w.end == old(w.end)
    ensures flush != Finish ==> Streamed(sentBits + w.stream, options.zlib, flushes + 1, bs) && StreamBytes(bs) == dict.input[..done + total]
    ensures flush == Finish ==> Ended(sentBits + w.stream, options.zlib, flushes + 1, blocks, b, dict.input[..done + total])
    ensures !w.Full() && (flush != NoFlush ==> |w.stream| % 8 == 0) && EndsEmpty(flush, bs)
  {
    hide Holds, Streamed, Ended, StreamBytes, ValidBlocks, BlockBits, BlockBytes, ValidBlock, HeadBits, PosOf, BlockDue, Adler32, Chosen, CodedEnd, TokenBlock, InWindow, EndsEmpty;
    ghost var zlib := options.zlib;
    StreamedHead(sentBits + w.stream, zlib, flushes, blockIndex, blocks);
    AppendMore(sentBits, w.stream, if zlib && blockIndex == 0 then HeadBits() else []);
    PutHead(w, options.zlib, blockIndex);
    StreamedValid(sentBits + w.stream, zlib, flushes + 1, blocks);
    ghost var pos := PosOf(sentBits + w.stream, zlib, flushes + 1, blocks);
    PosAligned(sentBits + w.stream, zlib, flushes + 1, blocks);
    ghost var s := w.stream;
    ghost var coded;
    b, total, coded := EmitBlock(lz, dict, cl, w, lz.codePos, options, dictPos, flush == Finish, done, pos);
    bs := PutAfter(w, options.zlib, flush, adler, sentBits, s, flushes + 1, blocks, b, pos, dict.input, done, total);
  }

  lemma StreamedValid(all: seq<bool>, zlib: bool, flushes: nat, blocks: seq<Block>)
    requires Streamed(all, zlib, flushes, blocks)
    ensures ValidBlocks(blocks)
  {
  }

  method PutAfter(w: Writer, zlib: bool, flush: Flush, adler: U32, ghost sentBits: seq<bool>, ghost s: seq<bool>, ghost flushes: nat,
                  ghost blocks: seq<Block>, ghost b: Block, ghost pos: nat, ghost input: seq<Byte>, ghost done: nat, ghost total: nat)
    returns (ghost bs: seq<Block>)
    requires w.Valid() && w.end == OUT_BUF_END && |sentBits| % 8 == 0 && flushes > 0
    requires Streamed(sentBits + s, zlib, flushes, blocks) && ValidBlocks(blocks) && pos == PosOf(sentBits + s, zlib, flushes, blocks)
    requires done <= |input| && StreamBytes(blocks) == input[..done] && BlockOut(b, input, done, total, pos, flush == Finish, s, w.stream)
    requires |w.stream| / 8 + 100 < w.end
    requires flush == Finish && zlib ==> adler == Adler32(1, input[..done + total])
    modifies w, w.buf
    ensures w.Valid() && w.end == old(w.end) && done + total <= |input|
    ensures flush != Finish ==> Streamed(sentBits + w.stream, zlib, flushes, bs) && StreamBytes(bs) == input[..done + total]
    ensures flush == Finish ==> Ended(sentBits + w.stream, zlib, flushes, blocks, b, input[..done + total])
    ensures !w.Full() && (flush != NoFlush ==> |w.stream| % 8 == 0) && EndsEmpty(flush, bs)
  {
    hide Holds, Streamed, Ended, StreamBytes, ValidBlocks, BlockBits, BlockBytes, ValidBlock, PosOf, Adler32, TailBits;
    ghost var x := BlockBits(done, pos, flush == Finish, b);
    ghost var size := done + total;
    ghost var end := pos + |x|;
    AppendMore(sentBits, s, x);
    PosAligned(sentBits + s, zlib, flushes, blocks);
    SameResidue(pos, |sentBits|, |s|, |x|);
    TailLength(zlib, flush, adler, size, end);
    PutTail(w, zlib, flush, adler, size, end);
    AppendMore(sentBits, s + x, TailBits(zlib, flush, adler, size, end));
    NotFull(w);
    bs := blocks;
    if flush == Finish {
      EndedNow(sentBits + s, zlib, flushes, blocks, b, pos, input[..size]);
      EndIsTail(zlib, adler, size, end, input[..size]);
    } else {
      StreamedBlock(sentBits + s, zlib, flushes, blocks, b, pos);
      bs := blocks + [b];
      if flush == NoFlush {
        NoTail(zlib, adler, size, end, sentBits + s + x);
      } else {
        EmptyBlock(sentBits + s + x, zlib, flushes, bs, end, flush, adler);
        bs := bs + [Raw([])];
      }
    }
  }

  lemma SameResidue(pos: nat, a: nat, b: nat, c: nat)
    requires a % 8 == 0 && pos % 8 == (a + b) % 8
    ensures (pos + c) % 8 == (b + c) % 8
  {
  }

  lemma EndIsTail(zlib: bool, adler: U32, size: nat, pos: nat, input: seq<Byte>)
    requires zlib ==> adler == Adler32(1, input)
    ensures TailBits(zlib, Finish, adler, size, pos) == EndBits(zlib, pos, input)
  {
    hide Adler32, BytesToBits, Padding;
  }

  lemma NoTail(zlib: bool, adler: U32, size: nat, pos: nat, s: seq<bool>)
    ensures s + TailBits(zlib, NoFlush, adler, size, pos) == s
  {
  }

  lemma EmptyBlock(all: seq<bool>, zlib: bool, flushes: nat, blocks: seq<Block>, pos: nat, flush: Flush, adler: U32)
    requires Streamed(all, zlib, flushes, blocks) && ValidBlocks(blocks) && flushes > 0 && pos == PosOf(all, zlib, flushes, blocks)
    requires flush == SyncFlush || flush == FullFlush
    ensures ValidBlocks(blocks + [Raw([])]) && StreamBytes(blocks + [Raw([])]) == StreamBytes(blocks)
    ensures Streamed(all + TailBits(zlib, flush, adler, |StreamBytes(blocks)|, pos), zlib, flushes, blocks + [Raw([])])
  {
    hide Streamed, StreamBytes, ValidBlocks, BlockBits, PosOf;
    StreamedBlock(all, zlib, flushes, blocks, Raw([]), pos);
  }

  // ---------- the compressor ----------

  /** What the writer holds, once it is known that nothing was dropped. */
  lemma WriterHolds(buf: seq<Byte>, len: nat, end: nat, bitBuffer: nat, bitsIn: nat, stream: seq<bool>, sent: seq<Byte>)
    requires Holds(buf, len, end, bitBuffer, bitsIn, stream) && len < end && bitsIn < 8
    ensures BytesToBits(sent + buf[..len]) + ToBits(bitBuffer, bitsIn) == BytesToBits(sent) + stream
  {
    hide BytesToBits, ToBits;
    BytesToBitsAppend(sent, buf[..len]);
    assert 8 * len == |stream| - bitsIn;
    assert stream == stream[..8 * len] + stream[8 * len..];
  }

  lemma NothingOut(unsent: seq<Byte>, bitBuffer: nat, zlib: bool)
    requires unsent == []
    ensures BytesToBits([] + unsent) + ToBits(bitBuffer, 0) == []
    ensures StreamOf([], zlib, 0, [], [])
  {
    assert [] + unsent == [];
    assert Head(zlib, 0) + StreamBits([]) == [];
  }

  class Compressor {
    const parser: Parser
    const cl: HuffmanTable           // row 2 of the Huffman tables
    const w: Writer                  // m_output_buf, m_pOutput_buf, m_pOutput_buf_end, m_bit_buffer, m_bits_in
    const callback: bool             // m_pPut_buf_func != NULL
    const computeAdler: bool         // TDEFL_COMPUTE_ADLER32
    var lzCodeBufDictPos: nat        // 32 bits wide
    var blockIndex: nat              // 32 bits wide
    var flushOfs: nat                // m_output_flush_ofs
    var flushRemaining: nat          // m_output_flush_remaining
    var finished: bool
    var wantsToFinish: bool
    var adler32: U32
    var prevStatus: Status
    var out: seq<Byte>               // handed over in the current call
    var outCap: nat                  // *m_pOut_buf_size
    ghost var sent: seq<Byte>        // handed over in all calls
    ghost var flushes: nat
    ghost var blocks: seq<Block>     // the blocks that are not final
    ghost var last: Block            // the final one
    ghost var refused: bool          // the callback refused some output

    ghost predicate Shaped()
    {
      PartsApart(parser, cl, w)
    }

    constructor (parser: Parser, cl: HuffmanTable, w: Writer, callback: bool, computeAdler: bool)
      requires PartsApart(parser, cl, w) && parser.Valid() && parser.dict.input == [] && parser.done == 0
      requires w.Valid() && w.end == OUT_BUF_END && w.bitsIn == 0
      ensures Open() && prevStatus == Okay && !finished && !wantsToFinish && flushRemaining == 0 && adler32 == 1 && flushes == 0 && sent == []
      ensures this.parser == parser && this.cl == cl && this.w == w && this.callback == callback && this.computeAdler == computeAdler
    {
      hide ToBits, BytesToBits, Streamed, StreamBytes, Parser.Valid, Writer.Valid, PartsApart;
      this.parser, this.cl, this.w, this.callback, this.computeAdler := parser, cl, w, callback, computeAdler;
      lzCodeBufDictPos, blockIndex, flushOfs, flushRemaining, finished, wantsToFinish := 0, 0, 0, 0, false, false;
      adler32, prevStatus, out, outCap := 1, Okay, [], 0;
      sent, flushes, blocks, last, refused := [], 0, [], Raw([]), false;
      new;
      NothingOut(Unsent(), w.bitBuffer, parser.options.zlib);
    }

    /** The bytes of the output buffer that the caller had no room for. */
    ghost function Unsent(): seq<Byte>
      requires flushOfs + flushRemaining <= w.buf.Length
      reads this, w.buf
    {
      w.buf[flushOfs..flushOfs + flushRemaining]
    }

    /** Every bit put out so far. */
    ghost function All(): seq<bool>
      requires flushOfs + flushRemaining <= w.buf.Length
      reads this, w, w.buf
    {
      BytesToBits(sent + Unsent()) + ToBits(w.bitBuffer, w.bitsIn)
    }

    /** The stream is open: its blocks stand for the input up to what is recorded in the LZ codes. */
    ghost predicate Open()
      reads this, w, w.buf, parser, parser.dict, parser.dict.dict, parser.dict.hash, parser.dict.next, parser.lz, parser.lz.codeBuf, parser.lz.lit.count, parser.lz.dist.count
    {
      && Shaped() && parser.Valid() && w.Valid() && w.end == OUT_BUF_END
      && lzCodeBufDictPos == In32(parser.done) && blockIndex == In32(flushes)
      && flushOfs + flushRemaining <= w.buf.Length
      && StreamOf(All(), parser.options.zlib, flushes, blocks, Prefix(parser.dict.input, parser.done))
    }

    /** The stream ended; it stands for `input`. */
    ghost predicate Closed(input: seq<Byte>)
      reads this, w, w.buf
    {
      && PartsApart(parser, cl, w) && flushOfs + flushRemaining <= w.buf.Length && w.bitsIn == 0
      && Ended(All(), parser.options.zlib, flushes, blocks, last, input)
    }

    /** What is handed over in this call fits, and is part of the whole. */
    ghost predicate Handed(earlier: seq<Byte>)
      reads this
    {
      sent == earlier + out && (!callback ==> |out| <= outCap)
    }

    /** The first part of tdefl_flush_block: the block goes to the writer. */
    method WriteBlock(flush: Flush) returns (total: nat, ghost bs: seq<Block>, ghost b: Block)
      requires Open() && flushRemaining == 0 && parser.lz.codePos <= LZ_CODE_BUF_SIZE - 2
      requires flush == Finish && parser.options.zlib ==> adler32 == Adler32(1, Prefix(parser.dict.input, parser.done + parser.lz.totalLzBytes))
      modifies w, parser.lz`codePos, CodeArrays(parser.lz), OutArrays(w, cl)
      ensures total == parser.lz.totalLzBytes && w.Valid() && w.end == OUT_BUF_END && !w.Full() && (flush != NoFlush ==> |w.stream| % 8 == 0) && EndsEmpty(flush, bs)
      ensures forall i :: 32 <= i < MAX_SYMBOLS ==> parser.lz.dist.count[i] == 0
      ensures flush != Finish ==> StreamOf(BytesToBits(sent) + w.stream, parser.options.zlib, flushes + 1, bs, Prefix(parser.dict.input, parser.done + total))
      ensures flush == Finish ==> Ended(BytesToBits(sent) + w.stream, parser.options.zlib, flushes + 1, blocks, b, Prefix(parser.dict.input, parser.done + total))
    {
      hide Holds, Streamed, Ended, StreamBytes, ValidBlocks, Adler32, ToBits, BytesToBits, InRing, Parser.Valid, Writer.Valid, BlockDue;
      SentIs(sent, Unsent(), w.bitBuffer, w.bitsIn);
      WriterRest(w);
      w.Reset();
      FinishBlock(parser, lzCodeBufDictPos);
      total, bs, b := PutBlock(parser.lz, parser.dict, cl, w, parser.options, flush, lzCodeBufDictPos, blockIndex, adler32,
                               BytesToBits(sent), flushes, blocks, parser.done);
    }

    /** All bits so far are those of the blocks, or of the ended stream. */
    ghost predicate Told(flush: Flush, all: seq<bool>, flushes: nat, blocks: seq<Block>, last: Block, done: nat)
      reads parser.dict
    {
      if flush != Finish then StreamOf(all, parser.options.zlib, flushes, blocks, Prefix(parser.dict.input, done))
      else Ended(all, parser.options.zlib, flushes, blocks, last, Prefix(parser.dict.input, done))
    }

    /** The counters for the next block (src/http/miniz.c:2230-2233). */
    method StartNext(flush: Flush, total: nat, ghost bs: seq<Block>, ghost b: Block)
      requires PartsApart(parser, cl, w) && w.Valid() && !w.Full() && (flush != NoFlush ==> |w.stream| % 8 == 0)
      requires After(parser.options, parser.dict, parser.Pend(), parser.done + total)
      requires forall i :: 32 <= i < MAX_SYMBOLS ==> parser.lz.dist.count[i] == 0
      requires lzCodeBufDictPos == In32(parser.done) && blockIndex == In32(flushes)
      requires Told(flush, BytesToBits(sent) + w.stream, flushes + 1, if flush == Finish then blocks else bs, b, parser.done + total)
      modifies `lzCodeBufDictPos, `blockIndex, `flushes, `blocks, `last, parser`done, parser.lz, parser.lz.lit.count, parser.lz.dist.count
      ensures parser.Valid() && parser.lz.tokens == [] && parser.lz.codePos == 1 && parser.done == old(parser.done) + total
      ensures lzCodeBufDictPos == In32(parser.done) && blockIndex == In32(flushes) && (flush != NoFlush ==> w.bitsIn == 0) && flushes == old(flushes) + 1
      ensures flush != Finish ==> blocks == bs
      ensures w.Valid() && Told(flush, BytesToBits(sent + w.buf[..w.len]) + ToBits(w.bitBuffer, w.bitsIn), flushes, blocks, last, parser.done)
    {
      hide Writer.Valid, StreamOf, Ended, ToBits, BytesToBits, After, Prefix, LzCodes.Valid, Parser.Valid, CodeArrays, OutArrays, RingArrays, Separate, In32, LzCodes.Shaped, Dictionary.Shaped, HuffmanTable.Shaped;
      Members(this);
      Written(w, sent);
      In32Next(parser.done, total);
      In32Next(flushes, 1);
      lzCodeBufDictPos, blockIndex := In32(lzCodeBufDictPos + total), In32(blockIndex + 1);
      flushes := flushes + 1;
      RestartParser(parser, total);
      if flush == Finish { last := b; } else { blocks, last := bs, b; }
    }

    /** The last part of tdefl_flush_block: the bytes go to the callback, or to the caller's buffer as
        far as there is room (src/http/miniz.c:2235-2260). The callback may refuse. */
    method Deliver(direct: bool, ghost earlier: seq<Byte>) returns (n: int)
      requires flushOfs == 0 && flushRemaining == 0 && w.len <= w.buf.Length && Handed(earlier)
      requires direct == (!callback && outCap - |out| >= OUT_BUF_SIZE) && w.buf.Length == OUT_BUF_SIZE
      modifies `out, `sent, `flushOfs, `flushRemaining, `prevStatus, `refused
      ensures n < 0 ==> n == -1 && callback && prevStatus == PutBufFailed && refused
      ensures n >= 0 ==> refused == old(refused)
      ensures n > 0 && old(|out| <= outCap) ==> |out| == outCap
      ensures n >= 0 ==> prevStatus == old(prevStatus) && n == flushRemaining && flushOfs + flushRemaining <= w.buf.Length
      ensures n >= 0 ==> sent + Unsent() == old(sent) + w.buf[..w.len] && Handed(earlier) && (callback ==> n == 0)
    {
      var all := w.buf[..w.len];
      n := w.len;
      if n != 0 {
        if callback {
          var accepted: bool := *;
          if !accepted {
            refused := true;
            prevStatus := PutBufFailed;
            return -1;
          }
          out, sent := out + all, sent + all;
        } else if !direct {
          var room := Min(n, outCap - |out|);
          out, sent := out + w.buf[..room], sent + w.buf[..room];
          n := n - room;
          if n != 0 {
            flushOfs := room;
            flushRemaining := n;
          }
          assert w.buf[..room] + w.buf[room..w.len] == all;
        } else {
          out, sent := out + all, sent + all;
        }
      }
      n := flushRemaining;
    }

    /** tdefl_flush_block up to the delivery. The assertion at src/http/miniz.c:2228 always holds. */
    method NextBlock(flush: Flush)
      requires Open() && flushRemaining == 0 && parser.lz.codePos <= LZ_CODE_BUF_SIZE - 2
      requires flush == Finish && parser.options.zlib ==> adler32 == Adler32(1, Prefix(parser.dict.input, parser.done + parser.lz.totalLzBytes))
      modifies `lzCodeBufDictPos, `blockIndex, `flushes, `blocks, `last, parser`done, w, parser.lz, CodeArrays(parser.lz), OutArrays(w, cl)
      ensures parser.Valid() && parser.lz.tokens == [] && parser.lz.codePos == 1 && parser.done == old(parser.done + parser.lz.totalLzBytes)
      ensures lzCodeBufDictPos == In32(parser.done) && blockIndex == In32(flushes) && (flush != NoFlush ==> w.bitsIn == 0) && flushes == old(flushes) + 1
      ensures EndsEmpty(flush, blocks)
      ensures w.Valid() && w.end == OUT_BUF_END && !w.Full()
      ensures Told(flush, BytesToBits(sent + w.buf[..w.len]) + ToBits(w.bitBuffer, w.bitsIn), flushes, blocks, last, parser.done)
    {
      hide Writer.Valid, StreamOf, Streamed, Ended, StreamBytes, ValidBlocks, Adler32, ToBits, BytesToBits, Parser.Valid, After, CodeArrays, OutArrays, RingArrays, Separate;
      Members(this);
      BeforeAfter(parser);
      var total;
      ghost var bs, b;
      total, bs, b := WriteBlock(flush);
      parser.lz.totalLzBytes := total;
      assert !w.Full();
      StartNext(flush, total, bs, b);
    }

    /** tdefl_flush_block. If it does not fail, the stream has grown by blocks for exactly the recorded
        part of the input, and goes on, or has ended, accordingly. */
    method FlushBlock(flush: Flush, ghost earlier: seq<Byte>) returns (n: int)
      requires Open() && prevStatus == Okay && flushRemaining == 0 && Handed(earlier) && parser.lz.codePos <= LZ_CODE_BUF_SIZE - 2
      requires flush == Finish && parser.options.zlib ==> adler32 == Adler32(1, Prefix(parser.dict.input, parser.done + parser.lz.totalLzBytes))
      modifies this, parser`done, w, parser.lz, CodeArrays(parser.lz), OutArrays(w, cl)
      ensures adler32 == old(adler32) && wantsToFinish == old(wantsToFinish) && finished == old(finished) && outCap == old(outCap)
      ensures n < 0 ==> n == -1 && prevStatus == PutBufFailed && callback && refused
      ensures n >= 0 ==> prevStatus == Okay && n == flushRemaining && Handed(earlier) && (callback ==> n == 0) && (n > 0 ==> |out| == outCap)
      ensures n >= 0 ==> (flush != NoFlush ==> w.bitsIn == 0) && EndsEmpty(flush, blocks) && refused == old(refused)
      ensures n >= 0 ==> parser.done == old(parser.done + parser.lz.totalLzBytes) && parser.lz.tokens == [] && parser.lz.codePos == 1 && flushes == old(flushes) + 1
      ensures n >= 0 && flush != Finish ==> Open()
      ensures n >= 0 && flush == Finish ==> Closed(Prefix(parser.dict.input, parser.done))
    {
      hide Writer.Valid, Streamed, Ended, StreamBytes, ValidBlocks, Adler32, ToBits, BytesToBits, Parser.Valid, CodeArrays, OutArrays, RingArrays, Separate, StreamOf, Prefix, In32, Parser.Shaped, EndsEmpty, LzCodes.Valid, LzCodes.Shaped, Dictionary.Shaped, HuffmanTable.Shaped;
      Members(this);
      var direct := !callback && outCap - |out| >= OUT_BUF_SIZE;
      flushOfs := 0;
      NextBlock(flush);
      WriterBounds(w);
      n := Deliver(direct, earlier);
    }

    /** It is time for a block (src/http/miniz.c:2601-2602). */
    ghost predicate BlockIsFull()
      reads parser.lz
    {
      var lz := parser.lz;
      || lz.codePos > LZ_CODE_BUF_SIZE - 8
      || (lz.totalLzBytes > 31 * 1024 && (lz.codePos * 115 / 128 >= lz.totalLzBytes || parser.options.forceRaw))
    }

    /** A block, if it is full: it holds more than 31 KiB of the input. */
    method BlockWhenFull(ghost earlier: seq<Byte>) returns (n: int)
      requires Open() && prevStatus == Okay && flushRemaining == 0 && Handed(earlier) && parser.lz.codePos <= LZ_CODE_BUF_SIZE - 2
      modifies this, parser`done, w, parser.lz, CodeArrays(parser.lz), OutArrays(w, cl)
      ensures adler32 == old(adler32) && wantsToFinish == old(wantsToFinish) && finished == old(finished) && outCap == old(outCap)
      ensures if n < 0 then prevStatus == PutBufFailed && callback && refused
              else Running(earlier) && n == flushRemaining && (callback ==> n == 0) && (n > 0 ==> |out| == outCap) && refused == old(refused)
      ensures n >= 0 ==> flushes == old(flushes) + (if old(BlockIsFull()) then 1 else 0)
      ensures n >= 0 ==> if old(BlockIsFull()) then parser.done > old(parser.done) + 31 * 1024 else parser.done == old(parser.done)
    {
      hide Open, Handed, CodeArrays, OutArrays, RingArrays;
      n := 0;
      var codes, bytes := parser.lz.codePos, parser.lz.totalLzBytes;
      if codes > LZ_CODE_BUF_SIZE - 8 || (bytes > 31 * 1024 && (codes * 115 / 128 >= bytes || parser.options.forceRaw)) {
        FullBlock(this);
        n := FlushBlock(NoFlush, earlier);
      }
    }

    /** What the loop of tdefl_compress_normal keeps. */
    ghost predicate Running(earlier: seq<Byte>)
      reads this, w, w.buf, parser, parser.dict, parser.dict.dict, parser.dict.hash, parser.dict.next, parser.lz, parser.lz.codeBuf, parser.lz.lit.count, parser.lz.dist.count
    {
      Open() && prevStatus == Okay && Handed(earlier) && parser.lz.codePos <= LZ_CODE_BUF_SIZE - 8
    }

    /** Top up the lookahead. */
    method FillIn(src: seq<Byte>, srcPos0: nat, ghost earlier: seq<Byte>) returns (srcPos: nat)
      requires Running(earlier) && srcPos0 <= |src|
      modifies parser.dict, RingArrays(parser.dict)
      ensures Running(earlier) && srcPos0 <= srcPos <= |src| && parser.dict.input == old(parser.dict.input) + src[srcPos0..srcPos]
      ensures parser.dict.lookaheadSize == old(parser.dict.lookaheadSize) + (srcPos - srcPos0)
      ensures (parser.dict.lookaheadSize == parser.dict.maxLookahead || srcPos == |src|) && parser.dict.maxLookahead >= MAX_MATCH
    {
      hide Writer.Valid, Streamed, StreamBytes, ValidBlocks, ToBits, BytesToBits, Parser.Valid, CodeArrays, OutArrays, RingArrays, Separate, StreamOf, In32;
      Members(this);
      ghost var input := parser.dict.input;
      srcPos := parser.Fill(src, srcPos0);
      assert Prefix(parser.dict.input, parser.done) == Prefix(input, parser.done);
      LookaheadRange(parser);
    }

    /** One step of the parser. */
    method StepOn(ghost earlier: seq<Byte>)
      requires Running(earlier) && !parser.fast && parser.dict.lookaheadSize >= 1
      modifies parser, parser.dict, parser.lz, CodeArrays(parser.lz)
      ensures Open() && prevStatus == Okay && Handed(earlier) && parser.lz.codePos <= LZ_CODE_BUF_SIZE - 2
      ensures parser.dict.lookaheadSize < old(parser.dict.lookaheadSize) && parser.dict.input == old(parser.dict.input) && parser.done == old(parser.done)
    {
      hide Writer.Valid, Streamed, StreamBytes, ValidBlocks, ToBits, BytesToBits, Parser.Valid, CodeArrays, OutArrays, RingArrays, Separate, StreamOf, In32;
      Members(this);
      ghost var dist, len, found, ps, ds := parser.Step();
    }

    /** tdefl_compress_normal: consume the source, putting out blocks on the way, until it is used up,
        or the caller's buffer is full, or a block could not be put out. */
    method CompressNormal(src: seq<Byte>, flush: Flush, ghost earlier: seq<Byte>) returns (ok: bool, srcPos: nat)
      requires Running(earlier) && !parser.fast && flushRemaining == 0
      modifies this, parser, parser.dict, RingArrays(parser.dict), w, parser.lz, CodeArrays(parser.lz), OutArrays(w, cl)
      ensures adler32 == old(adler32) && wantsToFinish == old(wantsToFinish) && finished == old(finished) && outCap == old(outCap)
      ensures !ok ==> prevStatus == PutBufFailed && callback && refused
      ensures ok ==> refused == old(refused) && (flushRemaining > 0 ==> |out| == outCap)
      ensures ok ==> 31 * 1024 * (flushes - old(flushes)) <= parser.done - old(parser.done)
      ensures ok ==> Running(earlier) && srcPos <= |src| && parser.dict.input == old(parser.dict.input) + src[..srcPos]
      ensures ok ==> flushRemaining > 0 || (srcPos == |src| && (flush != NoFlush ==> parser.dict.lookaheadSize == 0))
      ensures ok && callback ==> flushRemaining == 0
      ensures ok ==> flushes - old(flushes) <= srcPos + old(parser.dict.lookaheadSize)
    {
      hide Open, Handed, CodeArrays, OutArrays, RingArrays;
      Members(this);
      srcPos := 0;
      assert src[..0] == [];
      ghost var input := parser.dict.input;
      while srcPos < |src| || (flush != NoFlush && parser.dict.lookaheadSize > 0)
        invariant srcPos <= |src| && Running(earlier) && flushRemaining == 0 && parser.dict.input == input + src[..srcPos]
        invariant adler32 == old(adler32) && wantsToFinish == old(wantsToFinish) && finished == old(finished) && outCap == old(outCap)
        invariant flushes - old(flushes) + parser.dict.lookaheadSize <= srcPos + old(parser.dict.lookaheadSize) && refused == old(refused)
        invariant 31 * 1024 * (flushes - old(flushes)) <= parser.done - old(parser.done)
        decreases |src| - srcPos + parser.dict.lookaheadSize
      {
        ghost var before := srcPos;
        srcPos := FillIn(src, srcPos, earlier);
        assert src[..before] + src[before..srcPos] == src[..srcPos];
        if flush == NoFlush && parser.dict.lookaheadSize < parser.dict.maxLookahead { break; }
        StepOn(earlier);
        var n := BlockWhenFull(earlier);
        if n != 0 { return n >= 0, srcPos; }
      }
      ok := true;
    }

    /** One turn of the fast form, and a block if the code buffer is full (src/http/miniz.c:2358-2458). */
    method FastStepOn(ghost earlier: seq<Byte>)
      requires Running(earlier) && parser.fast && parser.dict.lookaheadSize >= 1
      modifies parser.dict, RingArrays(parser.dict), parser.lz, CodeArrays(parser.lz)
      ensures Open() && prevStatus == Okay && Handed(earlier) && parser.lz.codePos <= LZ_CODE_BUF_SIZE - 2
      ensures parser.dict.lookaheadSize < old(parser.dict.lookaheadSize) && parser.dict.input == old(parser.dict.input) && parser.done == old(parser.done)
    {
      hide Writer.Valid, Streamed, StreamBytes, ValidBlocks, ToBits, BytesToBits, Parser.Valid, CodeArrays, OutArrays, RingArrays, Separate, StreamOf, In32;
      Members(this);
      if parser.dict.lookaheadSize >= 4 {
        ghost var dist, len := parser.FastStep();
      } else {
        parser.LiteralStep();
      }
    }

    /** The test of the fast form: only the code buffer counts. */
    method BlockWhenNoRoom(ghost earlier: seq<Byte>) returns (n: int)
      requires Open() && prevStatus == Okay && flushRemaining == 0 && Handed(earlier) && parser.lz.codePos <= LZ_CODE_BUF_SIZE - 2
      modifies this, parser`done, w, parser.lz, CodeArrays(parser.lz), OutArrays(w, cl)
      ensures adler32 == old(adler32) && wantsToFinish == old(wantsToFinish) && finished == old(finished) && outCap == old(outCap)
      ensures if n < 0 then prevStatus == PutBufFailed && callback && refused
              else Running(earlier) && n == flushRemaining && (callback ==> n == 0) && (n > 0 ==> |out| == outCap) && refused == old(refused)
      ensures n >= 0 ==> flushes == old(flushes) + (if old(parser.lz.codePos) > LZ_CODE_BUF_SIZE - 8 then 1 else 0)
      ensures n >= 0 ==> if old(parser.lz.codePos) > LZ_CODE_BUF_SIZE - 8 then parser.done > old(parser.done) + 31 * 1024 else parser.done == old(parser.done)
    {
      hide Open, Handed, CodeArrays, OutArrays, RingArrays;
      n := 0;
      if parser.lz.codePos > LZ_CODE_BUF_SIZE - 8 {
        FullBlock(this);
        n := FlushBlock(NoFlush, earlier);
      }
    }

    /** tdefl_compress_fast: the same, with the whole lookahead parsed before it is topped up again. */
    method CompressFast(src: seq<Byte>, flush: Flush, ghost earlier: seq<Byte>) returns (ok: bool, srcPos: nat)
      requires Running(earlier) && parser.fast && flushRemaining == 0
      modifies this, parser, parser.dict, RingArrays(parser.dict), w, parser.lz, CodeArrays(parser.lz), OutArrays(w, cl)
      ensures adler32 == old(adler32) && wantsToFinish == old(wantsToFinish) && finished == old(finished) && outCap == old(outCap)
      ensures !ok ==> prevStatus == PutBufFailed && callback && refused
      ensures ok ==> refused == old(refused) && (flushRemaining > 0 ==> |out| == outCap)
      ensures ok ==> 31 * 1024 * (flushes - old(flushes)) <= parser.done - old(parser.done)
      ensures ok ==> Running(earlier) && srcPos <= |src| && parser.dict.input == old(parser.dict.input) + src[..srcPos]
      ensures ok ==> flushRemaining > 0 || (srcPos == |src| && (flush != NoFlush ==> parser.dict.lookaheadSize == 0))
      ensures ok && callback ==> flushRemaining == 0
      ensures ok ==> flushes - old(flushes) <= srcPos + old(parser.dict.lookaheadSize)
    {
      hide Open, Handed, CodeArrays, OutArrays, RingArrays, Running, PartsApart;
      Members(this);
      srcPos := 0;
      assert src[..0] == [];
      ghost var input := parser.dict.input;
      while srcPos < |src| || (flush != NoFlush && parser.dict.lookaheadSize > 0)
        invariant srcPos <= |src| && Running(earlier) && flushRemaining == 0 && parser.dict.input == input + src[..srcPos]
        invariant adler32 == old(adler32) && wantsToFinish == old(wantsToFinish) && finished == old(finished) && outCap == old(outCap)
        invariant flushes - old(flushes) + parser.dict.lookaheadSize <= srcPos + old(parser.dict.lookaheadSize) && refused == old(refused)
        invariant 31 * 1024 * (flushes - old(flushes)) <= parser.done - old(parser.done)
        decreases |src| - srcPos + parser.dict.lookaheadSize
      {
        ghost var before := srcPos;
        srcPos := FillIn(src, srcPos, earlier);
        assert src[..before] + src[before..srcPos] == src[..srcPos];
        if flush == NoFlush && parser.dict.lookaheadSize < parser.dict.maxLookahead { break; }
        while parser.dict.lookaheadSize > 0
          invariant srcPos <= |src| && Running(earlier) && flushRemaining == 0 && parser.dict.input == input + src[..srcPos]
          invariant adler32 == old(adler32) && wantsToFinish == old(wantsToFinish) && finished == old(finished) && outCap == old(outCap)
          invariant flushes - old(flushes) + parser.dict.lookaheadSize <= srcPos + old(parser.dict.lookaheadSize) && refused == old(refused)
          invariant 31 * 1024 * (flushes - old(flushes)) <= parser.done - old(parser.done)
          decreases parser.dict.lookaheadSize
        {
          FastStepOn(earlier);
          var n := BlockWhenNoRoom(earlier);
          if n != 0 { return n >= 0, srcPos; }
        }
      }
      ok := true;
    }

    /** tdefl_flush_output_buffer: what did not fit before, as far as there is room now. */
    method FlushOutput(ghost earlier: seq<Byte>) returns (status: Status)
      requires flushOfs + flushRemaining <= w.buf.Length && Handed(earlier)
      modifies `out, `sent, `flushOfs, `flushRemaining
      ensures flushOfs + flushRemaining <= w.buf.Length && Handed(earlier) && sent + Unsent() == old(sent + Unsent())
      ensures status == if finished && flushRemaining == 0 then Done else Okay
      ensures old(flushRemaining) == 0 ==> flushRemaining == 0
      ensures !callback ==> flushRemaining == old(flushRemaining) - Min(outCap - old(|out|), old(flushRemaining)) && |out| == old(|out|) + (old(flushRemaining) - flushRemaining)
    {
      if !callback {
        var n := Min(outCap - |out|, flushRemaining);
        ghost var unsent := Unsent();
        out, sent := out + w.buf[flushOfs..flushOfs + n], sent + w.buf[flushOfs..flushOfs + n];
        flushOfs, flushRemaining := flushOfs + n, flushRemaining - n;
        assert unsent == w.buf[flushOfs - n..flushOfs] + Unsent();
      }
      status := if finished && flushRemaining == 0 then Done else Okay;
    }

    /** The checksum is kept. */
    ghost predicate Summed()
    {
      parser.options.zlib || computeAdler
    }

    /** What every call leaves behind. A compressor that failed stays failed. */
    ghost predicate Valid()
      reads this, w, w.buf, parser, parser.dict, parser.dict.dict, parser.dict.hash, parser.dict.next, parser.lz, parser.lz.codeBuf, parser.lz.lit.count, parser.lz.dist.count
    {
      && PartsApart(parser, cl, w)
      && (prevStatus == Okay && !finished ==> Open() && parser.lz.codePos <= LZ_CODE_BUF_SIZE - 8 && (Summed() ==> adler32 == Adler32(1, parser.dict.input)))
      && (finished && (prevStatus == Okay || prevStatus == Done) ==> Closed(parser.dict.input))
      && (prevStatus == Done ==> finished && flushRemaining == 0) && (finished ==> wantsToFinish)
    }

    /** The caller's room is used for what is left over. */
    method HandOver(ghost earlier: seq<Byte>)
      requires Valid() && prevStatus == Okay && Handed(earlier)
      modifies `out, `sent, `flushOfs, `flushRemaining, `prevStatus
      ensures Valid() && Handed(earlier) && (prevStatus == Okay || prevStatus == Done)
      ensures prevStatus == Done <==> finished && flushRemaining == 0
      ensures old(flushRemaining) == 0 ==> flushRemaining == 0
      ensures !callback ==> flushRemaining == old(flushRemaining) - Min(outCap - old(|out|), old(flushRemaining)) && |out| == old(|out|) + (old(flushRemaining) - flushRemaining)
      ensures forall f: Flush :: old(Flushed(f)) ==> Flushed(f)
    {
      hide Writer.Valid, Streamed, StreamBytes, ValidBlocks, ToBits, BytesToBits, Parser.Valid, CodeArrays, OutArrays, RingArrays, Separate, StreamOf, In32, Ended, Adler32;
      prevStatus := FlushOutput(earlier);
    }

    /** Nothing that was put in is held back: the stream so far ends on a byte, after blocks for all of the input,
        the last of them empty; and after a full flush, nothing before will be referred to. */
    ghost predicate Flushed(flush: Flush)
      reads this, w, w.buf, parser, parser.dict
    {
      flush == SyncFlush || flush == FullFlush ==>
        && w.bitsIn == 0 && flushOfs + flushRemaining <= w.buf.Length && StreamOf(All(), parser.options.zlib, flushes, blocks, parser.dict.input)
        && EndsEmpty(flush, blocks) && flushes > 0 && (flush == FullFlush ==> parser.dict.dictSize == 0)
    }

    /** Everything is consumed: the flush that the caller asked for (src/http/miniz.c:2681-2687). */
    method EndCall(flush: Flush, ghost earlier: seq<Byte>) returns (ok: bool)
      requires Valid() && Running(earlier) && !finished && flush != NoFlush && flushRemaining == 0 && parser.dict.lookaheadSize == 0
      requires flush == Finish ==> wantsToFinish
      modifies this, parser, parser.dict, RingArrays(parser.dict), w, parser.lz, CodeArrays(parser.lz), OutArrays(w, cl)
      ensures !ok ==> !finished && prevStatus == PutBufFailed && callback && refused
      ensures ok ==> refused == old(refused) && (flushRemaining > 0 ==> |out| == outCap) && Flushed(flush)
      ensures ok ==> old(parser.done) <= parser.done == |parser.dict.input| && parser.dict.lookaheadSize == 0
      ensures ok ==> Valid() && prevStatus == Okay && Handed(earlier) && finished == (flush == Finish) && (callback ==> flushRemaining == 0)
      ensures parser.dict.input == old(parser.dict.input) && wantsToFinish == old(wantsToFinish) && outCap == old(outCap) && PartsApart(parser, cl, w)
      ensures ok ==> flushes == old(flushes) + 1
    {
      hide Writer.Valid, Streamed, StreamBytes, ValidBlocks, ToBits, BytesToBits, Parser.Valid, CodeArrays, OutArrays, RingArrays, Separate, StreamOf, In32, Ended, Adler32;
      Members(this);
      AllRecorded(parser);
      var n := FlushBlock(flush, earlier);
      if n < 0 { return false; }
      finished := flush == Finish;
      if flush == FullFlush {
        ghost var input := parser.dict.input;
        parser.Forget();
      }
      ok := true;
    }

    method SetSum(sum: U32, ghost earlier: seq<Byte>)
      requires Running(earlier)
      modifies `adler32
      ensures Running(earlier) && adler32 == sum
    {
      hide Writer.Valid, Streamed, ToBits, BytesToBits, Parser.Valid;
      adler32 := sum;
    }

    /** The source is parsed, fast or not, and summed. */
    method Parse(src: seq<Byte>, flush: Flush, ghost earlier: seq<Byte>) returns (ok: bool, consumed: nat)
      requires Running(earlier) && flushRemaining == 0 && (Summed() ==> adler32 == Adler32(1, parser.dict.input))
      modifies this, parser, parser.dict, RingArrays(parser.dict), w, parser.lz, CodeArrays(parser.lz), OutArrays(w, cl)
      ensures wantsToFinish == old(wantsToFinish) && finished == old(finished) && outCap == old(outCap)
      ensures !ok ==> prevStatus == PutBufFailed && callback && refused
      ensures ok ==> Running(earlier) && (Summed() ==> adler32 == Adler32(1, parser.dict.input))
      ensures ok ==> refused == old(refused) && (flushRemaining > 0 ==> |out| == outCap) && (callback ==> flushRemaining == 0)
      ensures ok ==> 31 * 1024 * (flushes - old(flushes)) <= parser.done - old(parser.done) && flushes - old(flushes) <= consumed + old(parser.dict.lookaheadSize)
      ensures ok ==> consumed <= |src| && parser.dict.input == old(parser.dict.input) + src[..consumed]
      ensures ok ==> flushRemaining > 0 || (consumed == |src| && (flush != NoFlush ==> parser.dict.lookaheadSize == 0))
    {
      hide Running, Adler32, CodeArrays, OutArrays, RingArrays;
      ghost var input := parser.dict.input;
      if parser.fast {
        ok, consumed := CompressFast(src, flush, earlier);
      } else {
        ok, consumed := CompressNormal(src, flush, earlier);
      }
      if !ok { return; }
      if parser.options.zlib || computeAdler {
        AdlerSplits(1, input, src[..consumed]);
        var sum := ComputeAdler32(adler32, src[..consumed]);
        SetSum(sum, earlier);
      }
    }

    /** The middle of tdefl_compress, when the stream is open and nothing is left over: the source is
        consumed and summed, and the flush is carried out unless output is in its way. */
    method Consume(src: seq<Byte>, flush: Flush, ghost earlier: seq<Byte>) returns (ok: bool, consumed: nat)
      requires Valid() && prevStatus == Okay && !finished && flushRemaining == 0 && Handed(earlier) && (flush == Finish ==> wantsToFinish)
      modifies this, parser, parser.dict, RingArrays(parser.dict), w, parser.lz, CodeArrays(parser.lz), OutArrays(w, cl)
      ensures wantsToFinish == old(wantsToFinish) && outCap == old(outCap) && PartsApart(parser, cl, w)
      ensures !ok ==> Valid() && prevStatus == PutBufFailed && callback && refused
      ensures ok ==> refused == old(refused) && (flushRemaining > 0 ==> |out| == outCap)
      ensures ok ==> flushRemaining > 0 || (consumed == |src| && (if flush == Finish then finished else Flushed(flush)))
      ensures ok ==> 31 * 1024 * (flushes - old(flushes) - 1) <= parser.done - old(parser.done) && parser.done <= |parser.dict.input|
      ensures ok ==> Valid() && prevStatus == Okay && Handed(earlier)
      ensures ok ==> consumed <= |src| && parser.dict.input == old(parser.dict.input) + src[..consumed]
      ensures ok && callback ==> flushRemaining == 0 && consumed == |src| && (flush == Finish ==> finished)
      ensures ok ==> flushes - old(flushes) <= consumed + old(parser.dict.lookaheadSize) + 1
    {
      hide Valid, Running, Adler32, CodeArrays, OutArrays, RingArrays, Closed, Open, Handed, Flushed, PartsApart;
      Members(this);
      ValidRuns(earlier);
      ok, consumed := Parse(src, flush, earlier);
      if !ok {
        FailedValid();
        return;
      }
      RunsValid(earlier);
      DoneBound();
      if flush != NoFlush && parser.dict.lookaheadSize == 0 && consumed == |src| && flushRemaining == 0 {
        ok := EndCall(flush, earlier);
        if !ok { FailedValid(); }
      } else if flush == NoFlush {
        NotFlushed();
      }
    }

    lemma ValidRuns(earlier: seq<Byte>)
      requires Valid() && prevStatus == Okay && !finished && Handed(earlier)
      ensures Running(earlier) && (Summed() ==> adler32 == Adler32(1, parser.dict.input)) && PartsApart(parser, cl, w)
    {
      hide Open, Adler32, PartsApart, Handed;
    }

    lemma RunsValid(earlier: seq<Byte>)
      requires Running(earlier) && !finished && (Summed() ==> adler32 == Adler32(1, parser.dict.input))
      ensures Valid() && prevStatus == Okay && Handed(earlier) && PartsApart(parser, cl, w)
    {
      hide StreamOf, Adler32, Parser.Valid, Writer.Valid, In32, Handed;
    }

    lemma FailedValid()
      requires PartsApart(parser, cl, w) && prevStatus == PutBufFailed && !finished
      ensures Valid()
    {
      hide PartsApart;
    }

    lemma NotFlushed()
      ensures Flushed(NoFlush)
    {
    }

    lemma ValidFinished()
      requires Valid()
      ensures finished ==> wantsToFinish
    {
    }

    /** The checks at the start of tdefl_compress (src/http/miniz.c:2645-2661). */
    method Begin(room: Option<nat>, flush: Flush) returns (bad: bool)
      requires Valid()
      modifies `out, `outCap, `wantsToFinish, `prevStatus
      ensures Valid() && out == [] && bad == old(callback == room.Some? || prevStatus != Okay || (wantsToFinish && flush != Finish))
      ensures bad ==> prevStatus == BadParam
      ensures !bad ==> prevStatus == Okay && wantsToFinish == (old(wantsToFinish) || flush == Finish) && Handed(sent)
      ensures !bad ==> room == if callback then None else Some(outCap)
    {
      hide PartsApart, Prefix, Writer.Valid, Streamed, StreamBytes, ValidBlocks, ToBits, BytesToBits, Parser.Valid, CodeArrays, OutArrays, RingArrays, Separate, StreamOf, In32, Ended, Adler32;
      out, outCap := [], if room.Some? then room.value else 0;
      if callback == room.Some? || prevStatus != Okay || (wantsToFinish && flush != Finish) {
        outCap := 0;
        prevStatus := BadParam;
        return true;
      }
      wantsToFinish := wantsToFinish || flush == Finish;
      bad := false;
    }

    /** tdefl_compress: one call, with any piece of the source, any room for output and any flush. */
    method Compress(src: seq<Byte>, room: Option<nat>, flush: Flush) returns (status: Status, consumed: nat)
      requires Valid()
      modifies this, parser, parser.dict, RingArrays(parser.dict), w, parser.lz, CodeArrays(parser.lz), OutArrays(w, cl)
      ensures Valid() && status == prevStatus
      ensures status == BadParam <==> old(callback == room.Some? || prevStatus != Okay || (wantsToFinish && flush != Finish))
      ensures status == BadParam ==> consumed == 0 && sent == old(sent) && parser.dict.input == old(parser.dict.input)
      ensures status == Okay || status == Done ==> sent == old(sent) + out && (room.Some? ==> |out| <= room.value)
      ensures status == Okay || status == Done ==> consumed <= |src| && parser.dict.input == old(parser.dict.input) + src[..consumed]
      ensures status == Done ==> old(wantsToFinish) || flush == Finish
      ensures status == PutBufFailed ==> callback && refused
      ensures status == Okay || status == Done ==> flushes - old(flushes) <= consumed + old(parser.dict.lookaheadSize) + 1
      ensures (status == Okay || status == Done) && old(!finished && flushRemaining == 0) ==> 31 * 1024 * (flushes - old(flushes) - 1) <= |parser.dict.input| - old(parser.done)
      ensures status == Okay && room.Some? && flushRemaining > 0 ==> |out| == room.value
      ensures (status == Okay || status == Done) && old(!finished && flushRemaining == 0)
          ==> flushRemaining > 0 || (consumed == |src| && (if flush == Finish then status == Done else status == Okay && Synced(flush)))
      ensures (status == Okay || status == Done) && callback && old(flushRemaining == 0) ==> flushRemaining == 0
      ensures status == Done ==> flushRemaining == 0
      ensures status != BadParam && room.Some? && old(finished || flushRemaining > 0) ==> consumed == 0 && |out| == Min(room.value, old(flushRemaining))
    {
      hide Valid, Open, Closed, CodeArrays, OutArrays, RingArrays, Separate, PartsApart, Flushed, Synced, StreamOf, EndsEmpty;
      ValidFinished();
      Members(this);
      var bad := Begin(room, flush);
      if bad { return BadParam, 0; }
      ghost var earlier := sent;
      if flushRemaining > 0 || finished {
        HandOver(earlier);
        assert src[..0] == [];
        return prevStatus, 0;
      }
      var ok;
      ok, consumed := Consume(src, flush, earlier);
      if !ok { return prevStatus, consumed; }
      HandOver(earlier);
      ValidFinished();
      status := prevStatus;
      if flushRemaining == 0 && flush != Finish { FlushedOut(flush); }
    }

    /** After a flush, with no output left over: what was handed over is the header and blocks for all of the input,
        the last of them empty, and nothing more; and after a full flush, no match will reach back. */
    ghost predicate Synced(flush: Flush)
      reads this, w, w.buf, parser, parser.dict
    {
      flush == SyncFlush || flush == FullFlush ==>
        && w.bitsIn == 0 && StreamOf(BytesToBits(sent), parser.options.zlib, flushes, blocks, parser.dict.input)
        && EndsEmpty(flush, blocks) && flushes > 0 && (flush == FullFlush ==> parser.dict.dictSize == 0)
    }

    lemma FlushedOut(flush: Flush)
      requires Flushed(flush) && flushRemaining == 0
      ensures Synced(flush)
    {
      hide StreamOf, EndsEmpty, BytesToBits;
      if flush == SyncFlush || flush == FullFlush {
        assert sent + Unsent() == sent;
        NoBitsLeft(BytesToBits(sent), w.bitBuffer);
      }
    }

    lemma DoneBound()
      requires Valid() && prevStatus == Okay && !finished
      ensures parser.done <= |parser.dict.input|
    {
      hide StreamOf, Adler32, Writer.Valid, In32, InRing, LzCodes.Valid, Dictionary.Linked;
    }
  }

  /** The parts of a compressor share no array. */
  ghost predicate PartsApart(parser: Parser, cl: HuffmanTable, w: Writer)
  {
    && parser.Shaped() && Separate(parser.lz, cl, w) && w.buf.Length == OUT_BUF_SIZE
    && RingArrays(parser.dict) !! OutArrays(w, cl) && CodeArrays(parser.lz) !! OutArrays(w, cl)
  }

  lemma {:induction false} CodesBound(ts: seq<Token>)
    requires AllValid(ts)
    ensures |Codes(ts)| <= TotalLen(ts) && |ts| <= TotalLen(ts)
  {
    if ts != [] {
      CodesBound(ts[..|ts| - 1]);
    }
  }

  lemma {:induction false} EncBound(ts: seq<Token>, left: nat)
    requires AllValid(ts) && left <= 8
    ensures 8 * |Enc(ts, left)| + (if ts == [] then 0 else left) <= 8 * TotalLen(ts) + |ts| + 8
    decreases |ts|, if left == 0 then 1 else 0
  {
    hide TotalLen;
    if ts != [] {
      if left == 0 {
        EncBound(ts, 8);
      } else {
        EncBound(ts[1..], left - 1);
        TotalCons(ts);
      }
    }
  }

  lemma {:induction false} TotalSplit(ts: seq<Token>, n: nat)
    requires n <= |ts|
    ensures TotalLen(ts) == TotalLen(ts[..n]) + TotalLen(ts[n..])
  {
    if n < |ts| {
      var a := ts[..|ts| - 1];
      TotalSplit(a, n);
      assert a[..n] == ts[..n] && ts[n..][..|ts| - n - 1] == a[n..] && ts[n..][|ts| - n - 1] == ts[|ts| - 1];
    } else {
      assert ts[..n] == ts && ts[n..] == [];
    }
  }

  /** No byte of the input takes more than a byte and an eighth. */
  lemma CodePosBound(buf: seq<Byte>, codePos: nat, flagsPos: nat, left: nat, ts: seq<Token>)
    requires Stored(buf, codePos, flagsPos, left, ts)
    ensures 8 * codePos <= 9 * TotalLen(ts) + 16
  {
    hide Enc, Codes, TotalLen, FlagsOf;
    var n := |ts| - (8 - left);
    TotalSplit(ts, n);
    EncBound(ts[..n], 0);
    CodesBound(ts[..n]);
    CodesBound(ts[n..]);
  }

  /** A full block is not a short one. */
  lemma FullBlock(d: Compressor)
    requires d.Open() && d.BlockIsFull()
    ensures d.parser.lz.totalLzBytes > 31 * 1024
  {
    hide StreamOf, Conserved, InRing, Counted, Dictionary.Linked, Writer.Valid, Enc;
    var lz := d.parser.lz;
    StoredFacts(lz.codeBuf[..], lz.codePos, lz.flagsPos, lz.numFlagsLeft, lz.tokens);
    CodePosBound(lz.codeBuf[..], lz.codePos, lz.flagsPos, lz.numFlagsLeft, lz.tokens);
  }

  lemma LookaheadRange(p: Parser)
    requires p.Valid()
    ensures p.dict.maxLookahead >= MAX_MATCH
  {
    hide Conserved, LzCodes.Valid, InRing;
  }

  lemma Members(d: Compressor)
    ensures var p, m := d.parser, CodeArrays(d.parser.lz) + OutArrays(d.w, d.cl);
            && p.dict.dict as object in RingArrays(p.dict) && p.dict.hash as object in RingArrays(p.dict) && p.dict.next as object in RingArrays(p.dict)
            && p.lz.codeBuf as object in CodeArrays(p.lz) && p.lz.lit.count as object in CodeArrays(p.lz) && p.lz.dist.count as object in CodeArrays(p.lz)
            && d.w.buf as object in OutArrays(d.w, d.cl)
            && d !in m && p !in m && p.dict !in m && p.lz !in m && d.w !in m
            && d !in RingArrays(p.dict) && p !in RingArrays(p.dict) && p.dict !in RingArrays(p.dict) && p.lz !in RingArrays(p.dict) && d.w !in RingArrays(p.dict)
  {
  }

  /** tdefl_init. */
  method Init(options: Options, probes: nat, callback: bool, computeAdler: bool) returns (d: Compressor)
    ensures fresh(d) && d.Valid() && d.prevStatus == Okay && !d.finished && !d.wantsToFinish && d.flushRemaining == 0 && d.adler32 == 1
    ensures d.flushes == 0 && d.sent == [] && d.parser.dict.input == [] && d.parser.dict.lookaheadSize == 0
    ensures Probes(d.parser.dict, probes) && d.parser.fast == UsesFast(options, probes)
    ensures d.parser.options == options && d.callback == callback && d.computeAdler == computeAdler
    ensures fresh(d.parser) && fresh(d.parser.dict) && fresh(d.parser.lz) && fresh(d.cl) && fresh(d.w)
    ensures fresh(RingArrays(d.parser.dict)) && fresh(CodeArrays(d.parser.lz)) && fresh(OutArrays(d.w, d.cl))
  {
    hide Conserved, Dictionary.Valid, LzCodes.Valid, Writer.Valid, Compressor.Open;
    var cl := new HuffmanTable();
    var w := new Writer(OUT_BUF_SIZE, OUT_BUF_END);
    var parser := new Parser(options, probes);
    d := new Compressor(parser, cl, w, callback, computeAdler);
    Started(d);
  }

  lemma Started(d: Compressor)
    requires d.Open() && d.prevStatus == Okay && !d.finished && d.parser.lz.codePos == 1 && d.parser.dict.input == [] && d.adler32 == 1
    ensures d.Valid()
  {
    hide Compressor.Open, Adler32;
    FreshSum([]);
    assert PartsApart(d.parser, d.cl, d.w) by { OpenApart(d); }
  }

  lemma OpenApart(d: Compressor)
    requires d.Open()
    ensures PartsApart(d.parser, d.cl, d.w)
  {
  }

  ghost function OutArrays(w: Writer, cl: HuffmanTable): set<object>
  {
    {w.buf as object, cl.count as object, cl.sizes as object, cl.codes as object}
  }

  lemma SentIs(sent: seq<Byte>, unsent: seq<Byte>, bitBuffer: nat, bitsIn: nat)
    requires unsent == []
    ensures BytesToBits(sent + unsent) + ToBits(bitBuffer, bitsIn) == BytesToBits(sent) + ToBits(bitBuffer, bitsIn)
    ensures |BytesToBits(sent)| % 8 == 0
  {
    assert sent + unsent == sent;
  }

  lemma WriterRest(w: Writer)
    requires w.Valid()
    ensures |ToBits(w.bitBuffer, w.bitsIn)| < 8
  {
  }

  lemma DistUnused(lz: LzCodes)
    requires lz.Valid() && lz.codePos <= LZ_CODE_BUF_SIZE - 2
    ensures forall i :: 32 <= i < MAX_SYMBOLS ==> lz.dist.count[i] == 0
  {
    hide Stored, TotalLen;
    StoredLength(lz.codeBuf[..], lz.codePos, lz.flagsPos, lz.numFlagsLeft, lz.tokens);
    BlockFrequencies(lz.lit.count[..], lz.dist.count[..], lz.tokens);
  }

  /** The recorded tokens are a block's worth, and less than 2^32 bytes of it. */
  lemma DueNow(p: Parser)
    requires p.Valid() && p.lz.codePos <= LZ_CODE_BUF_SIZE - 2
    ensures Covers(p.dict.input, p.done, p.lz.tokens, p.done + p.lz.totalLzBytes)
    ensures p.done + p.lz.totalLzBytes <= p.dict.Pos() < p.done + WIDE
  {
    hide Stored, Counted, InRing, Applicable, Expand;
    var upTo := if p.savedLen > 0 then p.dict.Pos() - 1 else p.dict.Pos();
    CoveredLength(p.dict.input, p.done, p.lz.tokens, upTo);
    StoredLength(p.lz.codeBuf[..], p.lz.codePos, p.lz.flagsPos, p.lz.numFlagsLeft, p.lz.tokens);
    StoredFacts(p.lz.codeBuf[..], p.lz.codePos, p.lz.flagsPos, p.lz.numFlagsLeft, p.lz.tokens);
    TotalBound(p.lz.tokens);
  }

  lemma {:induction false} TotalBound(ts: seq<Token>)
    requires AllValid(ts)
    ensures TotalLen(ts) <= 258 * |ts|
  {
    if ts != [] {
      TotalBound(ts[..|ts| - 1]);
    }
  }

  /** With an empty lookahead, all of the input is recorded. */
  lemma AllRecorded(p: Parser)
    requires p.Valid() && p.dict.lookaheadSize == 0
    ensures p.done + p.lz.totalLzBytes == |p.dict.input| && Prefix(p.dict.input, p.done + p.lz.totalLzBytes) == p.dict.input
  {
    hide InRing, Stored, Counted, Covers;
    NothingPending(p.dict.input, p.done, p.lz.tokens, p.Pend());
    CoveredLength(p.dict.input, p.done, p.lz.tokens, |p.dict.input|);
  }

  /** The LZ codes are finished, and make a block of input bytes. */
  method FinishBlock(p: Parser, ghost dictPos: nat)
    requires p.Valid() && p.lz.codePos <= LZ_CODE_BUF_SIZE - 2 && dictPos == p.done % WIDE
    modifies p.lz`codePos, p.lz.codeBuf
    ensures BlockDue(p.lz, p.dict, p.lz.codePos, dictPos, p.done) && p.done + p.lz.totalLzBytes <= |p.dict.input|
    ensures forall i :: 32 <= i < MAX_SYMBOLS ==> p.lz.dist.count[i] == 0
  {
    hide Stored, Counted, InRing, Covers, Conserved, Enc, TotalLen;
    DistUnused(p.lz);
    DueNow(p);
    FinishCodes(p.lz);
  }

  /** The parser is in order for an empty token list after the first `done` bytes. */
  ghost predicate After(o: Options, dict: Dictionary, saved: Saved, done: nat)
    reads dict, dict.dict, dict.hash, dict.next
  {
    dict.Valid() && Conserved(dict.input, done, [], dict.Pos(), saved) && Fitting(o, [], saved)
  }

  lemma BeforeAfter(p: Parser)
    requires p.Valid()
    ensures After(p.options, p.dict, p.Pend(), p.done + p.lz.totalLzBytes)
  {
    hide InRing, Stored, Counted, Conserved, TotalLen;
    FittingNone(p.options, p.lz.tokens, p.Pend());
    Committed(p.dict.input, p.done, p.lz.tokens, p.dict.Pos(), p.Pend());
  }

  /** The parser goes on with no tokens. */
  method RestartParser(p: Parser, total: nat)
    requires p.Shaped() && After(p.options, p.dict, p.Pend(), p.done + total)
    requires forall i :: 32 <= i < MAX_SYMBOLS ==> p.lz.dist.count[i] == 0
    modifies p`done, p.lz, p.lz.lit.count, p.lz.dist.count
    ensures p.Valid() && p.lz.tokens == [] && p.lz.codePos == 1 && p.done == old(p.done) + total
  {
    hide Conserved, LzCodes.Valid, InRing;
    Restart(p.lz);
    p.done := p.done + total;
  }

  /** What a writer that is not full has written. */
  lemma Written(w: Writer, sent: seq<Byte>)
    requires w.Valid() && !w.Full()
    ensures w.len <= w.buf.Length && BytesToBits(sent + w.buf[..w.len]) + ToBits(w.bitBuffer, w.bitsIn) == BytesToBits(sent) + w.stream
    ensures w.bitsIn == |w.stream| % 8
  {
    hide BytesToBits, ToBits, Holds;
    WriterBounds(w);
    assert w.buf[..][..w.len] == w.buf[..w.len];
    WriterHolds(w.buf[..], w.len, w.end, w.bitBuffer, w.bitsIn, w.stream, sent);
    BitsInIs(w);
  }

  /** Recorded tokens that went out in a block no longer need covering. */
  lemma Committed(input: seq<Byte>, done: nat, ts: seq<Token>, pos: nat, s: Saved)
    requires Conserved(input, done, ts, pos, s)
    ensures Conserved(input, done + TotalLen(ts), [], pos, s)
  {
    CoveredLength(input, done, ts, if s.len > 0 then pos - 1 else pos);
  }

  /** Whenever the compressor says it is done, whatever calls were made before, with the source and
      the output cut into pieces in any way and flushed at any points: what it handed over decodes to
      what it was given. */
  lemma DoneDecodes(d: Compressor)
    requires d.Valid() && d.prevStatus == Done && HeadOnce(d.parser.options.zlib, d.flushes)
    ensures Decodes(d.sent, d.parser.options.zlib, d.parser.dict.input)
  {
    hide Ended, Decodes, BytesToBits, HeadOnce;
    assert d.Closed(d.parser.dict.input);
    assert d.sent + d.Unsent() == d.sent;
    NoBitsLeft(BytesToBits(d.sent), d.w.bitBuffer);
    EndedDecodes(d.sent, d.parser.options.zlib, d.flushes, d.blocks, d.last, d.parser.dict.input);
  }

  /** What a flush hands over can be decoded without waiting for the rest: on any stream that goes on from there,
      the decoder comes to its end with all the input put out. */
  lemma FlushedDecodes(d: Compressor, flush: Flush, stream: seq<Byte>)
    requires d.Synced(flush) && (flush == SyncFlush || flush == FullFlush) && HeadOnce(d.parser.options.zlib, d.flushes) && d.sent <= stream
    ensures !d.parser.options.zlib ==>
      Inflate.InflateFrom(BytesToBits(stream), 0, []) == Inflate.InflateFrom(BytesToBits(stream), 8 * |d.sent|, d.parser.dict.input)
    ensures d.parser.options.zlib ==> |stream| >= 2 && HeaderOk(stream[0], stream[1]) && |d.sent| >= 2
    ensures d.parser.options.zlib ==>
      Inflate.InflateFrom(BytesToBits(stream[2..]), 0, []) == Inflate.InflateFrom(BytesToBits(stream[2..]), 8 * |d.sent| - 16, d.parser.dict.input)
  {
    hide StreamBits, BytesToBits, HeadBits, Inflate.InflateFrom, EndsEmpty, HeaderOk;
    SentMeans(BytesToBits(d.sent), d.parser.options.zlib, d.flushes, d.blocks, d.parser.dict.input);
    if d.parser.options.zlib {
      FlushedWrapped(d.sent, stream, d.blocks);
    } else {
      FlushedPlain(d.sent, stream, d.blocks);
    }
  }

  lemma SentMeans(all: seq<bool>, zlib: bool, flushes: nat, blocks: seq<Block>, input: seq<Byte>)
    requires StreamOf(all, zlib, flushes, blocks, input) && flushes > 0 && HeadOnce(zlib, flushes)
    ensures ValidBlocks(blocks) && StreamBytes(blocks) == input && all == (if zlib then HeadBits() else []) + StreamBits(blocks)
  {
    hide StreamBits, HeadBits, StreamBytes, ValidBlocks;
  }

  lemma FlushedPlain(sent: seq<Byte>, stream: seq<Byte>, blocks: seq<Block>)
    requires sent <= stream && ValidBlocks(blocks) && BytesToBits(sent) == [] + StreamBits(blocks)
    ensures Inflate.InflateFrom(BytesToBits(stream), 0, []) == Inflate.InflateFrom(BytesToBits(stream), 8 * |sent|, StreamBytes(blocks))
  {
    hide StreamBits, BytesToBits, Inflate.InflateFrom, StreamBytes, ValidBlocks;
    var rest := stream[|sent|..];
    assert stream == sent + rest && [] + StreamBits(blocks) == StreamBits(blocks);
    BytesToBitsAppend(sent, rest);
    InflateBlocks(BytesToBits(stream), blocks);
  }

  lemma FlushedWrapped(sent: seq<Byte>, stream: seq<Byte>, blocks: seq<Block>)
    requires sent <= stream && ValidBlocks(blocks) && BytesToBits(sent) == HeadBits() + StreamBits(blocks)
    ensures |stream| >= |sent| >= 2 && HeaderOk(stream[0], stream[1])
    ensures Inflate.InflateFrom(BytesToBits(stream[2..]), 0, []) == Inflate.InflateFrom(BytesToBits(stream[2..]), 8 * |sent| - 16, StreamBytes(blocks))
  {
    hide StreamBits, BytesToBits, Inflate.InflateFrom, StreamBytes, ValidBlocks, HeaderOk, HeadBits;
    var rest := stream[|sent|..];
    assert stream == sent + rest;
    BodyOfSent(stream, sent, rest, blocks);
    InflateBlocks(BytesToBits(stream[2..]), blocks);
  }

  lemma BodyOfSent(stream: seq<Byte>, sent: seq<Byte>, rest: seq<Byte>, blocks: seq<Block>)
    requires stream == sent + rest && ValidBlocks(blocks) && BytesToBits(sent) == HeadBits() + StreamBits(blocks)
    ensures |sent| >= 2 && HeaderOk(stream[0], stream[1]) && At(BytesToBits(stream[2..]), 0, StreamBits(blocks)) && |StreamBits(blocks)| == 8 * |sent| - 16
  {
    hide BytesToBits, HeadBits, StreamBits;
    TakeHead(sent, StreamBits(blocks));
    BytesToBitsAppend(sent[2..], rest);
    assert stream[2..] == sent[2..] + rest;
  }

  lemma NoBitsLeft(s: seq<bool>, v: nat)
    ensures s + ToBits(v, 0) == s
  {
  }

  /** tdefl_compress_mem_to_output: a fresh compressor, one call that finishes (src/http/miniz.c:2726-2734). */
  method CompressMemToOutput(buf: seq<Byte>, options: Options, probes: nat) returns (status: Status, output: seq<Byte>, ghost refused: bool)
    ensures status == Done || (status == PutBufFailed && refused)
    ensures status == Done && (options.zlib ==> |buf| < 0xFFFF_FFFF) ==> Decodes(output, options.zlib, buf)
  {
    hide Decodes, Compressor.Valid, RingArrays, CodeArrays, OutArrays;
    var d := Init(options, probes, true, false);
    var consumed;
    status, consumed := d.Compress(buf, None, Finish);
    output, refused := d.out, d.refused;
    if status == Done {
      assert buf[..consumed] == buf;
      assert d.parser.dict.input == buf && d.sent == output;
      if HeadOnce(options.zlib, d.flushes) { DoneDecodes(d); }
    }
  }

  lemma FreshSum(input: seq<Byte>)
    requires input == []
    ensures Adler32(1, input) == 1
  {
  }
}
