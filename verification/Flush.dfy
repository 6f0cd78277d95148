/** Putting one finished block out (the middle of tdefl_flush_block, src/http/miniz.c:2185-2213):
    compressed if that is shorter, otherwise stored. */
module FlushBlock {
  import opened Bits
  import opened CanonicalCode
  import opened LzTokens
  import opened Blocks
  import opened BitWriter
  import opened HuffTable
  import opened LzBuffer
  import opened LzEmitter
  import LzEmitterFast
  import opened BlockFormat
  import opened BlockStart
  import opened BlockSize
  import opened Window
  import opened Parsing
  import Inflate

  const OUT_BUF_SIZE := LZ_CODE_BUF_SIZE * 13 / 10   // TDEFL_OUT_BUF_SIZE
  const OUT_BUF_END := OUT_BUF_SIZE - 16

  // ---------- a block with static codes always fits ----------

  lemma StaticTokenBits(t: Token)
    requires Covered(Inflate.StaticLit(), Inflate.StaticDist(), t)
    ensures 25 * |TokenBits(Inflate.StaticLit(), Inflate.StaticDist(), t)| <= 31 * (8 * |TokenCode(t)| + 1)
  {
    hide Codeword, DistSym;
    if t.Match? {
      LengthTables(t.len - 3);
      assert DistExtraOf(t.dist - 1) <= 13;
    }
  }

  lemma {:induction false} StaticTokensBits(ts: seq<Token>)
    requires AllCovered(Inflate.StaticLit(), Inflate.StaticDist(), ts) && AllValid(ts)
    ensures 25 * |TokensBits(Inflate.StaticLit(), Inflate.StaticDist(), ts)| <= 31 * (8 * |Codes(ts)| + |ts|)
  {
    hide TokenBits, TokenCode, Covered, Inflate.StaticLit, Inflate.StaticDist;
    if ts != [] {
      StaticTokenBits(ts[0]);
      StaticTokensBits(ts[1..]);
      CodesCons(ts);
    }
  }

  /** A full LZ code buffer takes at most 81266 bytes with the static codes. */
  lemma StaticFits(ts: seq<Token>, used: nat)
    requires AllCovered(Inflate.StaticLit(), Inflate.StaticDist(), ts) && AllValid(ts) && |Enc(ts, 0)| <= LZ_CODE_BUF_SIZE && used <= 128
    ensures (used + |CodesBits(Inflate.StaticLit(), Inflate.StaticDist(), ts)|) / 8 + 100 < OUT_BUF_END
  {
    EncSize(ts, 0);
    StaticTokensBits(ts);
    var s := Inflate.StaticLit();
    assert |Codeword(s, 256)| <= 15;
  }

  // ---------- bytes and alignment ----------

  lemma {:induction false} ZeroBits(n: nat)
    ensures ToBits(0, n) == seq(n, i => false)
  {
    if n > 0 {
      ZeroBits(n - 1);
      assert seq(n, i => false) == [false] + seq(n - 1, i => false);
    }
  }

  lemma BitsInIs(w: Writer)
    requires w.Valid()
    ensures w.bitsIn == |w.stream| % 8 && w.bitBuffer < Pow2(w.bitsIn)
  {
  }

  /** `if (d->m_bits_in) TDEFL_PUT_BITS(0, 8 - d->m_bits_in)`. */
  method Align(w: Writer, ghost pos: nat)
    requires w.Valid() && pos % 8 == |w.stream| % 8
    modifies w, w.buf
    ensures w.Valid() && w.end == old(w.end) && w.stream == old(w.stream) + Padding(pos) && w.bitsIn == 0
    ensures old(w.len) <= w.len <= w.buf.Length && forall k :: 0 <= k < old(w.len) ==> w.buf[k] == old(w.buf[k])
  {
    hide Holds, ToBits;
    BitsInIs(w);
    WriterBounds(w);
    if w.bitsIn > 0 {
      ZeroBits(8 - w.bitsIn);
      w.PutBits(0, 8 - w.bitsIn);
    } else {
      assert Padding(pos) == [];
      assert w.stream == old(w.stream) + Padding(pos);
    }
    BitsInIs(w);
  }

  /** `n ^ 0xFFFF`. */
  function Flip16(n: nat): nat
  {
    n / 0x10000 * 0x10000 + (0xFFFF - n % 0x10000)
  }

  lemma FlipTwice(n: nat)
    ensures Flip16(Flip16(n)) == n && Flip16(n) % 0x10000 == 0xFFFF - n % 0x10000
  {
  }

  /** LEN and NLEN, and the length restored (src/http/miniz.c:2199-2202). */
  method PutLengths(w: Writer, total0: nat) returns (total: nat)
    requires w.Valid()
    modifies w, w.buf
    ensures total == total0
    ensures w.Valid() && w.end == old(w.end) && w.stream == old(w.stream) + (ToBits(total % 0x10000, 16) + ToBits(0xFFFF - total % 0x10000, 16))
    ensures old(w.len) <= w.len <= w.buf.Length && forall k :: 0 <= k < old(w.len) ==> w.buf[k] == old(w.buf[k])
  {
    hide Holds, ToBits, Flip16;
    WriterBounds(w);
    Pow2Values();
    FlipTwice(total0);
    total := total0;
    w.PutBits(total % 0x10000, 16);
    total := Flip16(total);
    w.PutBits(total % 0x10000, 16);
    total := Flip16(total);
  }

  /** The bytes of a stored block, out of the ring (src/http/miniz.c:2203-2206). */
  method PutRingBytes(dict: Dictionary, w: Writer, dictPos: nat, total: nat, ghost done: nat)
    requires dict.Valid() && w.Valid() && w.buf != dict.dict && dictPos == done % 0x1_0000_0000
    requires dict.Pos() - dict.dictSize <= done && done + total <= dict.Pos()
    modifies w, w.buf
    ensures w.Valid() && w.end == old(w.end) && w.stream == old(w.stream) + BytesToBits(dict.input[done..done + total])
    ensures old(w.len) <= w.len <= w.buf.Length && forall k :: 0 <= k < old(w.len) ==> w.buf[k] == old(w.buf[k])
  {
    hide Holds, ToBits, BytesToBits, InRing;
    WriterBounds(w);
    ghost var input := dict.input;
    assert input[done..done] == [];
    NoBytes();
    var i := 0;
    while i < total
      invariant 0 <= i <= total && w.Valid() && w.end == old(w.end) && dict.input == input
      invariant w.stream == old(w.stream) + BytesToBits(input[done..done + i])
      invariant old(w.len) <= w.len <= w.buf.Length && forall k :: 0 <= k < old(w.len) ==> w.buf[k] == old(w.buf[k])
    {
      SumInRing(done, dictPos, i);
      RingRead(dict.dict[..], input, dict.Pos() - dict.dictSize, |input|, done + i, 0);
      var c := dict.dict[(dictPos + i) % DICT_SIZE];
      Pow2Values();
      w.PutBits(c, 8);
      NextByte(input, done, i);
      i := i + 1;
    }
  }

  lemma NoBytes()
    ensures BytesToBits([]) == []
  {
  }

  lemma NextByte(input: seq<Byte>, done: nat, i: nat)
    requires done + i < |input|
    ensures BytesToBits(input[done..done + i + 1]) == BytesToBits(input[done..done + i]) + ToBits(input[done + i], 8)
  {
    assert input[done..done + i + 1] == input[done..done + i] + [input[done + i]];
    BytesToBitsSnoc(input[done..done + i], input[done + i]);
  }

  /** A stored block (src/http/miniz.c:2196-2207). */
  method PutStored(dict: Dictionary, w: Writer, dictPos: nat, total0: nat, ghost done: nat, ghost pos: nat) returns (total: nat)
    requires dict.Valid() && w.Valid() && w.buf != dict.dict && dictPos == done % 0x1_0000_0000 && total0 < 0x10000
    requires dict.Pos() - dict.dictSize <= done && done + total0 <= dict.Pos() && (pos + 1) % 8 == |w.stream| % 8
    modifies w, w.buf
    ensures total == total0
    ensures w.Valid() && w.end == old(w.end) && w.stream == old(w.stream) + BodyBits(done, pos, Raw(dict.input[done..done + total]))
    ensures old(w.len) <= w.len <= w.buf.Length && forall k :: 0 <= k < old(w.len) ==> w.buf[k] == old(w.buf[k])
  {
    hide Holds, ToBits, BytesToBits, InRing, Padding, BodyBits, Pow2, ValidHeader, Covered, Applicable, Dictionary.Valid;
    assert 0 < Pow2(2) by { Pow2Values(); }
    DictShape(dict);
    ghost var s := w.stream;
    RawBody(done, pos, dict.input[done..done + total0]);
    w.PutBits(0, 2);
    Align(w, pos + 3);
    total := PutLengths(w, total0);
    PutRingBytes(dict, w, dictPos, total, done);
    Assoc5(s, ToBits(0, 2), Padding(pos + 3), ToBits(total, 16), ToBits(0xFFFF - total, 16), BytesToBits(dict.input[done..done + total]));
  }

  lemma DictShape(dict: Dictionary)
    requires dict.Valid()
    ensures dict.Shaped() && dict.Placed()
  {
    hide InRing;
  }

  lemma RawBody(size: nat, pos: nat, data: seq<Byte>)
    requires |data| < 0x10000
    ensures BodyBits(size, pos, Raw(data))
         == ToBits(0, 2) + (Padding(pos + 3) + (ToBits(|data|, 16) + (ToBits(0xFFFF - |data|, 16) + BytesToBits(data))))
  {
    hide ToBits, BytesToBits, Padding;
  }

  lemma Assoc(s: seq<bool>, a: seq<bool>, b: seq<bool>)
    ensures s + a + b == s + (a + b)
  {
  }

  lemma Assoc5(s: seq<bool>, a: seq<bool>, b: seq<bool>, c: seq<bool>, d: seq<bool>, e: seq<bool>)
    ensures s + a + b + (c + d) + e == s + (a + (b + (c + (d + e))))
  {
  }

  // ---------- compressed blocks ----------

  /** What the recorder leaves for the emitter: the finished LZ code list, counted. */
  ghost predicate Listed(lz: LzCodes, codeEnd: nat)
    reads lz, lz.codeBuf
  {
    && lz.Shaped() && AllValid(lz.tokens)
    && codeEnd <= lz.codeBuf.Length && lz.codeBuf[..codeEnd] == Enc(lz.tokens, 0)
  }

  ghost predicate Finished(lz: LzCodes, codeEnd: nat)
    reads lz, lz.codeBuf, lz.lit.count, lz.dist.count
  {
    Listed(lz, codeEnd) && Counted(lz.lit.count[..], lz.dist.count[..], lz.tokens) && |lz.tokens| < 0xFFFF
  }

  ghost predicate Separate(lz: LzCodes, cl: HuffmanTable, w: Writer)
  {
    && cl.Shaped() && w.buf != lz.codeBuf
    && {cl.count, cl.sizes, cl.codes} !! {lz.lit.count, lz.lit.sizes, lz.lit.codes, lz.dist.count, lz.dist.sizes, lz.dist.codes}
  }

  lemma DynamicBody(size: nat, pos: nat, h: Header, S0: seq<nat>, S1: seq<nat>, ts: seq<Token>)
    requires Describes(h, S0, S1) && AllCovered(S0, S1, ts) && Applicable(size, ts) && |S0| > 256
    ensures ValidBlock(size, Dynamic(h, ts))
    ensures BodyBits(size, pos, Dynamic(h, ts)) == ToBits(2, 2) + HeaderBits(h) + CodesBits(S0, S1, ts)
  {
    hide ValidHeader, Applicable, ZeroFrom, Covered, CodesBits, ToBits;
    DescribesValid(h, S0, S1);
    assert |h.lit| > 256 by { HeaderTables(h); }
    TrimCodes(S0, S1, |h.lit|, |h.dist|, ts);
    assert ToBits(2, 2) + HeaderBits(h) + CodesBits(S0, S1, ts) == ToBits(2, 2) + (HeaderBits(h) + CodesBits(S0, S1, ts));
  }

  /** The block that a compressed block of these tokens is. */
  ghost predicate TokenBlock(size: nat, b: Block, ts: seq<Token>)
  {
    (b.Static? || b.Dynamic?) && b.tokens == ts && ValidBlock(size, b)
  }

  lemma BlockReady(lz: LzCodes, S0: seq<nat>, S1: seq<nat>)
    requires Ready(lz, lz.tokens) && S0 == lz.lit.sizes[..LIT_SYMBOLS] && S1 == lz.dist.sizes[..DIST_SYMBOLS]
    ensures AllCovered(S0, S1, lz.tokens) && |S0| == LIT_SYMBOLS
  {
  }

  /** tdefl_compress_block with static codes. */
  method CompressStatic(lz: LzCodes, cl: HuffmanTable, w: Writer, codeEnd: nat, ghost size: nat, ghost pos: nat) returns (ok: bool)
    requires Listed(lz, codeEnd) && Separate(lz, cl, w) && w.Valid() && w.end + 16 <= w.buf.Length && Applicable(size, lz.tokens)
    modifies lz.lit.sizes, lz.lit.codes, lz.dist.sizes, lz.dist.codes, w, w.buf
    ensures TokenBlock(size, Static(lz.tokens), lz.tokens)
    ensures ok == (|old(w.stream) + BodyBits(size, pos, Static(lz.tokens))| / 8 < w.end)
    ensures ok ==> w.Valid() && w.stream == old(w.stream) + BodyBits(size, pos, Static(lz.tokens))
    ensures w.end == old(w.end) && w.len >= old(w.len) && forall k :: 0 <= k < old(w.len) ==> w.buf[k] == old(w.buf[k])
  {
    hide Ready, Counted, Enc, Holds, ToBits, CodesBits, Inflate.StaticLit, Inflate.StaticDist, Applicable, Covered;
    ghost var s := w.stream;
    StartStaticBlock(lz, w);
    BlockReady(lz, lz.lit.sizes[..LIT_SYMBOLS], lz.dist.sizes[..DIST_SYMBOLS]);
    ok := LzEmitterFast.CompressLzCodes(lz, w, codeEnd, lz.tokens);
    Assoc(s, ToBits(1, 2), CodesBits(Inflate.StaticLit(), Inflate.StaticDist(), lz.tokens));
  }

  /** tdefl_compress_block with codes of its own. */
  method CompressDynamic(lz: LzCodes, cl: HuffmanTable, w: Writer, codeEnd: nat, ghost size: nat, ghost pos: nat) returns (ok: bool, ghost b: Block)
    requires Finished(lz, codeEnd) && Separate(lz, cl, w) && w.Valid() && w.end + 16 <= w.buf.Length && Applicable(size, lz.tokens)
    modifies lz.lit.count, lz.lit.sizes, lz.lit.codes, lz.dist.sizes, lz.dist.codes, cl.count, cl.sizes, cl.codes, w, w.buf
    ensures b.Dynamic? && TokenBlock(size, b, lz.tokens)
    ensures ok == (|old(w.stream) + BodyBits(size, pos, b)| / 8 < w.end)
    ensures codeEnd <= LZ_CODE_BUF_SIZE && |old(w.stream)| <= 64 ==> |old(w.stream) + BodyBits(size, pos, b)| / 8 <= 84704
    ensures ok ==> w.Valid() && w.stream == old(w.stream) + BodyBits(size, pos, b)
    ensures w.end == old(w.end) && w.len >= old(w.len) && forall k :: 0 <= k < old(w.len) ==> w.buf[k] == old(w.buf[k])
  {
    hide Ready, Counted, Enc, Holds, ToBits, CodesBits, Applicable, Covered, Describes, HeaderBits, ValidBlock, NearBest;
    ghost var s := w.stream;
    ghost var h := StartDynamicBlock(lz, cl, w);
    ghost var S0, S1 := lz.lit.sizes[..LIT_SYMBOLS], lz.dist.sizes[..DIST_SYMBOLS];
    BlockReady(lz, S0, S1);
    b := Dynamic(h, lz.tokens);
    DescribesValid(h, S0, S1);
    DynamicBody(size, pos, h, S0, S1, lz.tokens);
    if codeEnd <= LZ_CODE_BUF_SIZE && |s| <= 64 { DynamicFits(lz.tokens, h, S0, S1, |s|); }
    ok := LzEmitterFast.CompressLzCodes(lz, w, codeEnd, lz.tokens);
    Assoc(s, ToBits(2, 2) + HeaderBits(h), CodesBits(S0, S1, lz.tokens));
  }

  // ---------- the choice ----------

  /** The writer can go back to here. */
  ghost predicate Mark(w: Writer, buf: seq<Byte>, len: nat, bitBuffer: nat, bitsIn: nat, stream: seq<bool>)
    reads w
  {
    w.end <= |buf| && len < w.end && bitsIn < 8 && Holds(buf, len, w.end, bitBuffer, bitsIn, stream)
  }

  lemma SetMark(w: Writer)
    requires w.Valid() && |w.stream| <= 64 && w.end > 8
    ensures Mark(w, w.buf[..], w.len, w.bitBuffer, w.bitsIn, w.stream) && w.len <= 8
  {
    hide BytesToBits, ToBits;
  }

  method GoBack(w: Writer, ghost buf: seq<Byte>, len: nat, bitBuffer: nat, bitsIn: nat, ghost stream: seq<bool>)
    requires Mark(w, buf, len, bitBuffer, bitsIn, stream) && |buf| == w.buf.Length && forall k :: 0 <= k < len ==> w.buf[k] == buf[k]
    modifies w
    ensures w.Valid() && w.end == old(w.end) && w.stream == stream && w.len == len
  {
    hide Holds;
    assert w.buf[..len] == buf[..len];
    HoldsSame(buf, w.buf[..], len, w.end, bitBuffer, bitsIn, stream);
    w.Rewind(len, bitBuffer, bitsIn, stream);
  }

  /** Everything that is known about the block about to be put out: it is the `total` input bytes
      after the first `done`. */
  ghost predicate BlockDue(lz: LzCodes, dict: Dictionary, codeEnd: nat, dictPos: nat, done: nat)
    reads lz, lz.codeBuf, lz.lit.count, lz.dist.count, dict, dict.dict, dict.hash, dict.next
  {
    && Finished(lz, codeEnd) && codeEnd <= LZ_CODE_BUF_SIZE && dict.Valid()
    && Covers(dict.input, done, lz.tokens, done + lz.totalLzBytes)
    && done + lz.totalLzBytes <= dict.Pos() < done + 0x1_0000_0000 && dictPos == done % 0x1_0000_0000
  }

  /** `(d->m_lookahead_pos - d->m_lz_code_buf_dict_pos) <= d->m_dict_size`: the bytes of the block are
      all still in the ring. */
  predicate InWindow(dict: Dictionary, dictPos: nat)
    reads dict
  {
    (dict.lookaheadPos - dictPos) % 0x1_0000_0000 <= dict.dictSize
  }

  lemma WindowMeans(dict: Dictionary, dictPos: nat, done: nat)
    requires dict.Placed() && dictPos == done % 0x1_0000_0000 && done <= dict.Pos() < done + 0x1_0000_0000
    ensures InWindow(dict, dictPos) <==> dict.Pos() - dict.dictSize <= done
  {
    hide InRing;
    Difference(dict.Pos(), done, dict.lookaheadPos, dictPos);
  }

  lemma Difference(a: nat, b: nat, x: nat, y: nat)
    requires x == a % 0x1_0000_0000 && y == b % 0x1_0000_0000 && b <= a < b + 0x1_0000_0000
    ensures (x - y) % 0x1_0000_0000 == a - b
  {
  }

  /** A block for the next `total` bytes of the input is on the stream. */
  ghost predicate BlockOut(b: Block, input: seq<Byte>, done: nat, total: nat, pos: nat, final: bool, before: seq<bool>, after: seq<bool>)
  {
    && done + total <= |input| && ValidBlock(done, b) && BlockBytes(input[..done], b) == input[..done + total]
    && after == before + BlockBits(done, pos, final, b)
  }

  lemma RawOut(input: seq<Byte>, done: nat, total: nat, pos: nat, final: bool, before: seq<bool>)
    requires done + total <= |input| && total < 0x10000
    ensures var b := Raw(input[done..done + total]);
            ValidBlock(done, b) && BlockOut(b, input, done, total, pos, final, before, before + [final] + BodyBits(done, pos, b))
  {
    hide BodyBits;
    var b := Raw(input[done..done + total]);
    assert input[..done] + input[done..done + total] == input[..done + total];
    assert before + [final] + BodyBits(done, pos, b) == before + ([final] + BodyBits(done, pos, b));
  }

  lemma CompressedOut(b: Block, input: seq<Byte>, done: nat, ts: seq<Token>, total: nat, pos: nat, final: bool, before: seq<bool>)
    requires Covers(input, done, ts, done + total) && TokenBlock(done, b, ts)
    ensures BlockOut(b, input, done, total, pos, final, before, before + [final] + BodyBits(done, pos, b))
  {
    hide BodyBits, ValidBlock, Expand, Applicable;
    assert BlockBytes(input[..done], b) == Expand(input[..done], ts);
    assert before + [final] + BodyBits(done, pos, b) == before + ([final] + BodyBits(done, pos, b));
  }

  lemma ListedSize(lz: LzCodes, codeEnd: nat)
    requires Finished(lz, codeEnd)
    ensures AllValid(lz.tokens) && |Enc(lz.tokens, 0)| == codeEnd
  {
    hide Counted;
  }

  lemma StaticRoom(ts: seq<Token>, codeEnd: nat, size: nat, pos: nat, before: seq<bool>)
    requires AllValid(ts) && codeEnd <= LZ_CODE_BUF_SIZE && |Enc(ts, 0)| == codeEnd && |before| <= 64 && TokenBlock(size, Static(ts), ts)
    ensures |before + BodyBits(size, pos, Static(ts))| / 8 + 100 < OUT_BUF_END
  {
    hide CodesBits, Enc, Covered, AllValid;
    StaticFits(ts, 66);
  }

  /** tdefl_compress_block. It never fails, so the last resort of tdefl_flush_block, the same block with
      static codes (src/http/miniz.c:2209-2213), is never needed. */
  method CompressBlock(lz: LzCodes, cl: HuffmanTable, w: Writer, codeEnd: nat, isStatic: bool, ghost size: nat, ghost pos: nat) returns (ok: bool, ghost b: Block)
    requires Finished(lz, codeEnd) && Separate(lz, cl, w) && w.Valid() && w.end + 16 <= w.buf.Length && Applicable(size, lz.tokens)
    requires codeEnd <= LZ_CODE_BUF_SIZE && w.end == OUT_BUF_END && |w.stream| <= 64
    modifies lz.lit.count, lz.lit.sizes, lz.lit.codes, lz.dist.sizes, lz.dist.codes, cl.count, cl.sizes, cl.codes, w, w.buf
    ensures ok && TokenBlock(size, b, lz.tokens) && (if isStatic then b.Static? else b.Dynamic?)
    ensures w.Valid() && w.stream == old(w.stream) + BodyBits(size, pos, b) && |w.stream| / 8 + 100 < w.end
    ensures w.end == old(w.end) && w.len >= old(w.len) && forall k :: 0 <= k < old(w.len) ==> w.buf[k] == old(w.buf[k])
  {
    hide BodyBits, Counted, Listed, Applicable, ValidBlock;
    if isStatic {
      b := Static(lz.tokens);
      ghost var s := w.stream;
      ListedSize(lz, codeEnd);
      ok := CompressStatic(lz, cl, w, codeEnd, size, pos);
      StaticRoom(lz.tokens, codeEnd, size, pos, s);
    } else {
      ok, b := CompressDynamic(lz, cl, w, codeEnd, size, pos);
    }
  }

  /** Back to the mark, and a stored block instead. */
  method InsteadRaw(dict: Dictionary, w: Writer, dictPos: nat, total0: nat, len: nat, bitBuffer: nat, bitsIn: nat, final: bool,
                    ghost buf: seq<Byte>, ghost stream: seq<bool>, ghost before: seq<bool>, ghost done: nat, ghost pos: nat)
    returns (total: nat)
    requires Mark(w, buf, len, bitBuffer, bitsIn, stream) && |buf| == w.buf.Length && forall k :: 0 <= k < len ==> w.buf[k] == buf[k]
    requires stream == before + [final] && |stream| <= 64 && pos % 8 == |before| % 8 && w.end == OUT_BUF_END
    requires dict.Valid() && w.buf != dict.dict && dictPos == done % 0x1_0000_0000 && total0 <= DICT_SIZE
    requires dict.Pos() - dict.dictSize <= done && done + total0 <= dict.Pos()
    modifies w, w.buf
    ensures total == total0 && w.Valid() && w.end == old(w.end) && |w.stream| / 8 + 100 < w.end
    ensures BlockOut(Raw(dict.input[done..done + total]), dict.input, done, total, pos, final, before, w.stream)
  {
    hide BodyBits, ValidBlock, Holds, InRing, BlockOut;
    ghost var data := dict.input[done..done + total0];
    GoBack(w, buf, len, bitBuffer, bitsIn, stream);
    total := PutStored(dict, w, dictPos, total0, done, pos);
    RawOut(dict.input, done, total, pos, final, before);
    RawRoom(done, pos, stream, data);
  }

  /** The form of a block: raw if that is asked for, or if the coded form c put out as many whole bytes as the block
      stands for, or one fewer; but only as long as its bytes are all in the ring. */
  ghost function Chosen(c: Block, raw: Block, total: nat, inWindow: bool, forceRaw: bool, before: nat, after: nat): Block
  {
    if inWindow && (forceRaw || (total > 0 && after / 8 - before / 8 + 1 >= total)) then raw else c
  }

  /** Where the coded form ends. */
  ghost function CodedEnd(size: nat, pos: nat, before: nat, c: Block): nat
  {
    if ValidBlock(size, c) then before + |BodyBits(size, pos, c)| else before
  }

  lemma CodedEndIs(size: nat, pos: nat, before: nat, c: Block, ts: seq<Token>)
    requires TokenBlock(size, c, ts)
    ensures ValidBlock(size, c) && !c.Raw? && CodedEnd(size, pos, before, c) == before + |BodyBits(size, pos, c)|
  {
    hide BodyBits, ValidBlock;
  }

  lemma WholeBytes(w: Writer)
    requires w.Valid() && |w.stream| / 8 < w.end
    ensures w.len == |w.stream| / 8
  {
    hide ToBits, Pow2;
  }

  /** The block, from its first bit on, in the first form that is good enough. Whatever form is
      chosen, it stands for the same bytes of the input. The coded form is the fixed one for fewer than 48 bytes,
      or if that is asked for. */
  method EmitBlock(lz: LzCodes, dict: Dictionary, cl: HuffmanTable, w: Writer, codeEnd: nat, options: Options, dictPos: nat, final: bool,
                   ghost done: nat, ghost pos: nat)
    returns (ghost b: Block, total: nat, ghost c: Block)
    requires BlockDue(lz, dict, codeEnd, dictPos, done) && Separate(lz, cl, w) && w.buf != dict.dict
    requires dict.dict as object !in {lz.lit.count as object, lz.lit.sizes, lz.lit.codes, lz.dist.count, lz.dist.sizes, lz.dist.codes, cl.count, cl.sizes, cl.codes}
    requires w.Valid() && w.end == OUT_BUF_END && w.buf.Length == OUT_BUF_SIZE && |w.stream| < 64 && pos % 8 == |w.stream| % 8
    modifies lz.lit.count, lz.lit.sizes, lz.lit.codes, lz.dist.sizes, lz.dist.codes, cl.count, cl.sizes, cl.codes, w, w.buf
    ensures total == lz.totalLzBytes
    ensures w.Valid() && w.end == old(w.end) && BlockOut(b, dict.input, done, total, pos, final, old(w.stream), w.stream)
    ensures |w.stream| / 8 + 100 < w.end && (options.forceStatic ==> !b.Dynamic?) && (b.Raw? ==> total <= dict.dictSize)
    ensures !(options.forceRaw && InWindow(dict, dictPos)) ==> TokenBlock(done, c, lz.tokens) && if options.forceStatic || total < 48 then c.Static? else c.Dynamic?
    ensures b == Chosen(c, Raw(dict.input[done..done + total]), total, InWindow(dict, dictPos), options.forceRaw, |old(w.stream)| + 1, CodedEnd(done, pos, |old(w.stream)| + 1, c))
  {
    hide BodyBits, Counted, Applicable, ValidBlock, Holds, Enc, Covers, Pow2, ToBits, InRing, BlockOut, AllValid, TokenBlock, CodedEnd, Dictionary.Linked;
    total := lz.totalLzBytes;
    ghost var s := w.stream;
    PutFinal(w, final);
    ghost var s1, buf1 := w.stream, w.buf[..];
    SetMark(w);
    var savedLen, savedBuf, savedIn := w.len, w.bitBuffer, w.bitsIn;
    var inWindow := InWindow(dict, dictPos);
    WindowMeans(dict, dictPos, done);
    var useRaw := options.forceRaw && inWindow;
    var ok := false;
    c := Raw([]);
    CoversApplicable(dict.input, done, lz.tokens, done + total);
    WholeBytes(w);
    if !useRaw {
      ok, b := CompressBlock(lz, cl, w, codeEnd, options.forceStatic || total < 48, done, pos);
      c := b;
      WholeBytes(w);
      CodedEndIs(done, pos, |s1|, c, lz.tokens);
    }
    if (useRaw || (total > 0 && w.len - savedLen + 1 >= total)) && inWindow {
      total := InsteadRaw(dict, w, dictPos, total, savedLen, savedBuf, savedIn, final, buf1, s1, s, done, pos);
      b := Raw(dict.input[done..done + total]);
    } else {
      if !ok { assert false; }
      CompressedOut(b, dict.input, done, lz.tokens, total, pos, final, s);
    }
  }

  method PutFinal(w: Writer, final: bool)
    requires w.Valid()
    modifies w, w.buf
    ensures w.Valid() && w.end == old(w.end) && w.stream == old(w.stream) + [final]
    ensures old(w.len) <= w.len <= w.buf.Length && forall k :: 0 <= k < old(w.len) ==> w.buf[k] == old(w.buf[k])
  {
    var v := if final then 1 else 0;
    assert Pow2(1) == 2 && ToBits(v, 1) == [final];
    w.PutBits(v, 1);
  }

  lemma CoversApplicable(input: seq<Byte>, done: nat, ts: seq<Token>, upTo: nat)
    requires Covers(input, done, ts, upTo)
    ensures Applicable(done, ts)
  {
  }

  lemma RawRoom(size: nat, pos: nat, before: seq<bool>, data: seq<Byte>)
    requires |data| <= DICT_SIZE && |before| <= 64
    ensures |before + BodyBits(size, pos, Raw(data))| / 8 + 100 < OUT_BUF_END
  {
    hide ToBits, BytesToBits, Padding;
  }
}
