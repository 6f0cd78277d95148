/** The emitter on a 64-bit register (src/http/miniz.c:2019-2106): up to three literals, or one match,
    are gathered before eight bytes are stored at once and only the whole ones are kept. */
module LzEmitterFast {
  import opened Bits
  import opened CanonicalCode
  import opened LzTokens
  import opened Blocks
  import opened BitWriter
  import opened HuffTable
  import opened LzBuffer
  import opened LzEmitter

  // ---------- the register ----------

  /** TDEFL_PUT_BITS_FAST on a bit string: the register holds the same bits with the field after them. */
  method PutBitsFast(bb: nat, bi: nat, bits: nat, n: nat) returns (bb': nat, bi': nat)
    requires bb < Pow2(bi) && bits < Pow2(n)
    ensures bi' == bi + n && bb' < Pow2(bi') && ToBits(bb', bi') == ToBits(bb, bi) + ToBits(bits, n)
  {
    ToBitsAppend(bb, bi, bits, n);
    ShiftBound(bb, bi, bits, n);
    bb', bi' := bb + bits * Pow2(bi), bi + n;
  }

  method PutSymbolFast(t: HuffmanTable, n: nat, s: nat, bb: nat, bi: nat) returns (bb': nat, bi': nat)
    requires t.Shaped() && n <= MAX_SYMBOLS && TableReady(t.sizes[..n], t.codes[..]) && s < n && t.sizes[s] > 0 && bb < Pow2(bi)
    ensures bi < bi' <= bi + 15 && bb' < Pow2(bi') && ToBits(bb', bi') == ToBits(bb, bi) + Codeword(t.sizes[..n], s)
  {
    SymbolBits(t.sizes[..n], t.codes[..], s);
    bb', bi' := PutBitsFast(bb, bi, t.codes[s], t.sizes[s]);
  }

  method PutMatchFast(c: LzCodes, matchLen: nat, matchDist: nat, bb0: nat, bi0: nat) returns (bb: nat, bi: nat)
    requires matchLen < 256 && matchDist < 32768 && bb0 < Pow2(bi0)
    requires Ready(c, [Match(matchLen + 3, matchDist + 1)])
    ensures Covered(c.lit.sizes[..LIT_SYMBOLS], c.dist.sizes[..DIST_SYMBOLS], Match(matchLen + 3, matchDist + 1))
    ensures bi0 <= bi <= bi0 + 48 && bb < Pow2(bi)
    ensures ToBits(bb, bi) == ToBits(bb0, bi0)
                      + TokenBits(c.lit.sizes[..LIT_SYMBOLS], c.dist.sizes[..DIST_SYMBOLS], Match(matchLen + 3, matchDist + 1))
  {
    hide TableReady, LenSym, DistSym, LenExtra, SmallDistSym, LargeDistSym, SmallDistExtra, LargeDistExtra, DistExtraOf;
    hide Codeword, ToBits, Mask, TokenBits, Covered;
    ghost var S0, S1 := c.lit.sizes[..LIT_SYMBOLS], c.dist.sizes[..DIST_SYMBOLS];
    MatchFieldsOf(S0, S1, matchLen, matchDist);
    bb, bi := PutSymbolFast(c.lit, LIT_SYMBOLS, LenSym(matchLen), bb0, bi0);
    bb, bi := PutBitsFast(bb, bi, Mask(matchLen, LenExtra(matchLen)), LenExtra(matchLen));
    // both halves of the distance tables are read, then one is chosen
    var s0, n0 := SmallDistSym(matchDist % 512), SmallDistExtra(matchDist % 512);
    var s1, n1 := LargeDistSym(matchDist / 256), LargeDistExtra(matchDist / 256);
    var sym := if matchDist < 512 then s0 else s1;
    var numExtraBits := if matchDist < 512 then n0 else n1;
    bb, bi := PutSymbolFast(c.dist, DIST_SYMBOLS, sym, bb, bi);
    bb, bi := PutBitsFast(bb, bi, Mask(matchDist, numExtraBits), numExtraBits);
    FourFields(ToBits(bb0, bi0), Codeword(S0, LenSym(matchLen)), ToBits(Mask(matchLen, LenExtra(matchLen)), LenExtra(matchLen)),
               Codeword(S1, sym), ToBits(Mask(matchDist, numExtraBits), numExtraBits));
  }

  // ---------- the 64-bit store ----------

  /** v in k bytes, low byte first. */
  function LeBytes(v: nat, k: nat): (s: seq<Byte>)
    ensures |s| == k
  {
    if k == 0 then [] else [v % 256] + LeBytes(v / 256, k - 1)
  }

  lemma {:induction false} LeBytesBits(v: nat, k: nat)
    ensures BytesToBits(LeBytes(v, k)) == ToBits(v, 8 * k)
  {
    if k > 0 {
      LeBytesBits(v / 256, k - 1);
      FirstByte(v, 8 * (k - 1));
      assert LeBytes(v, k)[1..] == LeBytes(v / 256, k - 1);
    }
  }

  lemma {:induction false} LeBytesPrefix(v: nat, k: nat, m: nat)
    requires m <= k
    ensures LeBytes(v, k)[..m] == LeBytes(v, m)
  {
    if m > 0 {
      LeBytesPrefix(v / 256, k - 1, m - 1);
    }
  }

  /** `*(mz_uint64 *)p = v`. */
  method Store64(buf: array<Byte>, p: nat, v: nat)
    requires p + 8 <= buf.Length
    modifies buf
    ensures buf[p..p + 8] == LeBytes(v, 8)
    ensures forall i :: 0 <= i < buf.Length && !(p <= i < p + 8) ==> buf[i] == old(buf[i])
  {
    hide LeBytes;
    var i, x: nat := 0, v;
    while i < 8
      invariant 0 <= i <= 8 && LeBytes(v, 8) == buf[p..p + i] + LeBytes(x, 8 - i)
      invariant forall j :: 0 <= j < buf.Length && !(p <= j < p + i) ==> buf[j] == old(buf[j])
    {
      ghost var done := buf[p..p + i];
      LowByteFirst(done, x, 8 - i);
      buf[p + i] := x % 256;
      assert buf[p..p + i + 1] == done + [x % 256];
      x := x / 256;
      i := i + 1;
    }
    NoBytesLeft(buf[p..p + 8], x);
  }

  lemma LowByteFirst(done: seq<Byte>, x: nat, k: nat)
    requires k > 0
    ensures done + LeBytes(x, k) == done + [x % 256] + LeBytes(x / 256, k - 1)
  {
  }

  lemma NoBytesLeft(done: seq<Byte>, x: nat)
    ensures done + LeBytes(x, 0) == done
  {
  }

  /** The bytes before p and the register spell the stream. */
  ghost predicate Spells(buf: seq<Byte>, p: nat, bb: nat, bi: nat, stream: seq<bool>)
  {
    p <= |buf| && bb < Pow2(bi) && |stream| == 8 * p + bi && stream == BytesToBits(buf[..p]) + ToBits(bb, bi)
  }

  /** Storing the register and keeping its whole bytes. */
  lemma KeepWholeBytes(buf: seq<Byte>, buf2: seq<Byte>, p: nat, bb: nat, bi: nat, stream: seq<bool>)
    requires Spells(buf, p, bb, bi, stream) && bi <= 64 && p + 8 <= |buf2|
    requires buf2[..p] == buf[..p] && buf2[p..p + 8] == LeBytes(bb, 8)
    ensures Spells(buf2, p + bi / 8, Shr(bb, 8 * (bi / 8)), bi % 8, stream)
  {
    hide BytesToBits, ToBits, LeBytes, Pow2;
    var k := bi / 8;
    LeBytesPrefix(bb, 8, k);
    LeBytesBits(bb, k);
    assert buf2[..p + k] == buf[..p] + buf2[p..p + 8][..k];
    BytesToBitsAppend(buf[..p], LeBytes(bb, k));
    ToBitsSplit(bb, 8 * k, bi % 8);
    ToBitsLow(bb, 8 * k);
    ShrBound(bb, 8 * k, bi % 8);
    assert 8 * k + bi % 8 == bi;
  }

  // ---------- gathering ----------

  /** Bits of the tokens i..j. */
  ghost function Gathered(S0: seq<nat>, S1: seq<nat>, ts: seq<Token>, i: nat, j: nat): seq<bool>
    requires i <= j <= |ts| && AllCovered(S0, S1, ts)
  {
    TokensBits(S0, S1, ts[i..j])
  }

  lemma GatherOne(S0: seq<nat>, S1: seq<nat>, ts: seq<Token>, i: nat, j: nat)
    requires i <= j < |ts| && AllCovered(S0, S1, ts)
    ensures Covered(S0, S1, ts[j]) && AllCovered(S0, S1, [ts[j]]) && ValidToken(ts[j])
    ensures Gathered(S0, S1, ts, i, j + 1) == Gathered(S0, S1, ts, i, j) + TokenBits(S0, S1, ts[j])
  {
    hide TokenBits, TokensBits;
    assert ts[i..j + 1] == ts[i..j] + [ts[j]];
    TokensBitsSnoc(S0, S1, ts[i..j], ts[j]);
  }

  lemma GatherNone(S0: seq<nat>, S1: seq<nat>, ts: seq<Token>, i: nat)
    requires i <= |ts| && AllCovered(S0, S1, ts)
    ensures Gathered(S0, S1, ts, i, i) == []
  {
  }

  lemma GatherMore(S0: seq<nat>, S1: seq<nat>, ts: seq<Token>, i: nat, j: nat)
    requires i <= j <= |ts| && AllCovered(S0, S1, ts)
    ensures Gathered(S0, S1, ts, 0, j) == Gathered(S0, S1, ts, 0, i) + Gathered(S0, S1, ts, i, j)
    decreases j - i
  {
    hide TokenBits, TokensBits, Covered;
    GatherNone(S0, S1, ts, i);
    if i < j {
      GatherMore(S0, S1, ts, i, j - 1);
      GatherOne(S0, S1, ts, 0, j - 1);
      GatherOne(S0, S1, ts, i, j - 1);
    }
  }

  /** A literal under the current flag. */
  method GatherLiteral(c: LzCodes, pos: nat, end: nat, flags: nat, bb0: nat, bi0: nat, ghost ts: seq<Token>, ghost k: nat, ghost left: nat)
    returns (bb: nat, bi: nat)
    requires Ready(c, ts) && k < |ts| && left > 0 && flags % 2 == 0 && bb0 < Pow2(bi0)
    requires Reading(c.codeBuf[..], pos, end, flags, ts[k..], left)
    ensures pos + 1 <= end && Reading(c.codeBuf[..], pos + 1, end, flags / 2, ts[k + 1..], left - 1)
    ensures bi0 < bi <= bi0 + 15 && bb < Pow2(bi)
    ensures Covered(c.lit.sizes[..LIT_SYMBOLS], c.dist.sizes[..DIST_SYMBOLS], ts[k])
    ensures ToBits(bb, bi) == ToBits(bb0, bi0) + TokenBits(c.lit.sizes[..LIT_SYMBOLS], c.dist.sizes[..DIST_SYMBOLS], ts[k])
  {
    hide Reading, TableReady, Covered, TokenBits, Codeword, ToBits, Pow2;
    ghost var buf, rest, S0, S1 := c.codeBuf[..], ts[k..], c.lit.sizes[..LIT_SYMBOLS], c.dist.sizes[..DIST_SYMBOLS];
    ReadLiteral(buf, pos, end, flags, rest, left);
    assert rest[1..] == ts[k + 1..];
    var lit := c.codeBuf[pos];
    ReadyTail(S0, S1, ts, k);
    CoveredLiteral(S0, S1, lit);
    bb, bi := PutSymbolFast(c.lit, LIT_SYMBOLS, lit, bb0, bi0);
  }

  /** Is the next code, under the next flag, a literal? `((flags & 2) == 0) && (pLZ_codes < end)` */
  lemma NextIsLiteral(buf: seq<Byte>, pos: nat, end: nat, flags: nat, rest: seq<Token>, left: nat)
    requires Reading(buf, pos, end, flags, rest, left) && flags % 2 == 0
    ensures left > 0
  {
    MoreToRead(buf, pos, end, flags, rest, left);
  }

  /** Up to three literals (src/http/miniz.c:2059-2077). The flag of the last one is not shifted out yet. */
  method GatherLiterals(c: LzCodes, pos0: nat, end: nat, flags0: nat, bb0: nat, bi0: nat, ghost ts: seq<Token>, ghost k0: nat, ghost left0: nat)
    returns (pos: nat, flags: nat, bb: nat, bi: nat, ghost k: nat, ghost left: nat)
    requires Ready(c, ts) && k0 < |ts| && left0 > 0 && flags0 % 2 == 0 && bb0 < Pow2(bi0)
    requires Reading(c.codeBuf[..], pos0, end, flags0, ts[k0..], left0)
    ensures k0 < k <= |ts| && Reading(c.codeBuf[..], pos, end, flags / 2, ts[k..], left)
    ensures bi0 < bi <= bi0 + 45 && bb < Pow2(bi)
    ensures ToBits(bb, bi) == ToBits(bb0, bi0) + Gathered(c.lit.sizes[..LIT_SYMBOLS], c.dist.sizes[..DIST_SYMBOLS], ts, k0, k)
  {
    hide Reading, TableReady, Covered, TokenBits, Codeword, ToBits, Pow2, Gathered;
    ghost var S0, S1 := c.lit.sizes[..LIT_SYMBOLS], c.dist.sizes[..DIST_SYMBOLS];
    pos, flags, bb, bi, k, left := pos0, flags0, bb0, bi0, k0, left0;
    GatherNone(S0, S1, ts, k0);
    bb, bi := GatherLiteral(c, pos, end, flags, bb, bi, ts, k, left);
    GatherOne(S0, S1, ts, k0, k);
    pos, k, left := pos + 1, k + 1, left - 1;
    MoreToRead(c.codeBuf[..], pos, end, flags / 2, ts[k..], left);
    if flags / 2 % 2 == 0 && pos < end {
      flags := flags / 2;
      NextIsLiteral(c.codeBuf[..], pos, end, flags, ts[k..], left);
      bb, bi := GatherLiteral(c, pos, end, flags, bb, bi, ts, k, left);
      GatherOne(S0, S1, ts, k0, k);
      pos, k, left := pos + 1, k + 1, left - 1;
      MoreToRead(c.codeBuf[..], pos, end, flags / 2, ts[k..], left);
      if flags / 2 % 2 == 0 && pos < end {
        flags := flags / 2;
        NextIsLiteral(c.codeBuf[..], pos, end, flags, ts[k..], left);
        bb, bi := GatherLiteral(c, pos, end, flags, bb, bi, ts, k, left);
        GatherOne(S0, S1, ts, k0, k);
        pos, k, left := pos + 1, k + 1, left - 1;
      }
    }
  }

  /** One round of gathering: a match, or up to three literals; at most 48 bits. */
  method Gather(c: LzCodes, pos0: nat, end: nat, flags0: nat, bb0: nat, bi0: nat, ghost ts: seq<Token>, ghost k0: nat, ghost left0: nat)
    returns (pos: nat, flags: nat, bb: nat, bi: nat, ghost k: nat, ghost left: nat)
    requires Ready(c, ts) && k0 < |ts| && bb0 < Pow2(bi0)
    requires Reading(c.codeBuf[..], pos0, end, flags0, ts[k0..], left0)
    ensures k0 < k <= |ts| && Reading(c.codeBuf[..], pos, end, flags, ts[k..], left)
    ensures bi0 <= bi <= bi0 + 48 && bb < Pow2(bi)
    ensures ToBits(bb, bi) == ToBits(bb0, bi0) + Gathered(c.lit.sizes[..LIT_SYMBOLS], c.dist.sizes[..DIST_SYMBOLS], ts, k0, k)
  {
    hide Reading, TableReady, Covered, TokenBits, Codeword, ToBits, Pow2, Gathered;
    ghost var buf, S0, S1 := c.codeBuf[..], c.lit.sizes[..LIT_SYMBOLS], c.dist.sizes[..DIST_SYMBOLS];
    pos, flags, k, left := pos0, flags0, k0, left0;
    MoreToRead(buf, pos, end, flags, ts[k..], left);
    if flags == 1 {
      ReadFlags(buf, pos, end, flags, ts[k..]);
      flags := c.codeBuf[pos] as nat + 256;
      pos, left := pos + 1, 8;
    }
    if flags % 2 == 1 {
      ReadMatch(buf, pos, end, flags, ts[k..], left);
      assert ts[k..][1..] == ts[k + 1..];
      var matchLen, matchDist := c.codeBuf[pos] as nat, c.codeBuf[pos + 1] as nat + 256 * c.codeBuf[pos + 2] as nat;
      GatherNone(S0, S1, ts, k0);
      GatherOne(S0, S1, ts, k0, k);
      bb, bi := PutMatchFast(c, matchLen, matchDist, bb0, bi0);
      pos, k, left := pos + 3, k + 1, left - 1;
    } else {
      pos, flags, bb, bi, k, left := GatherLiterals(c, pos, end, flags, bb0, bi0, ts, k, left);
    }
    flags := flags / 2;
  }

  // ---------- the whole function ----------

  /** The loop: false as soon as a store would start at or past the end of the buffer. */
  method EmitLoop(c: LzCodes, w: Writer, codeEnd: nat, ghost ts: seq<Token>)
    returns (ok: bool, p: nat, bb: nat, bi: nat)
    requires w.Valid() && w.end + 16 <= w.buf.Length && w.buf != c.codeBuf && Ready(c, ts)
    requires AllValid(ts) && codeEnd <= c.codeBuf.Length && c.codeBuf[..codeEnd] == Enc(ts, 0)
    modifies w.buf
    ensures forall i :: 0 <= i < w.len ==> w.buf[i] == old(w.buf[i])
    ensures w.len <= p
    ensures !ok ==> |w.stream + Gathered(c.lit.sizes[..LIT_SYMBOLS], c.dist.sizes[..DIST_SYMBOLS], ts, 0, |ts|)| / 8 >= w.end
    ensures ok && w.len < w.end ==>
              bi < 8 && Spells(w.buf[..], p, bb, bi, w.stream + Gathered(c.lit.sizes[..LIT_SYMBOLS], c.dist.sizes[..DIST_SYMBOLS], ts, 0, |ts|))
    ensures ok && w.len == w.end ==> ts == [] && p == w.end && bb == w.bitBuffer && bi == w.bitsIn
  {
    hide Reading, TableReady, Covered, TokenBits, TokensBits, Codeword, Enc, ValidToken, Gathered, ToBits, BytesToBits, Pow2, Spells, LeBytes, Holds;
    ghost var S0, S1, before := c.lit.sizes[..LIT_SYMBOLS], c.dist.sizes[..DIST_SYMBOLS], w.stream;
    ghost var room := w.len < w.end;
    p, bb, bi := w.len, w.bitBuffer, w.bitsIn;
    StartEmit(w.buf[..], w.len, w.end, bb, bi, before);
    StartReading(c.codeBuf[..], codeEnd, ts);
    var pos: nat, flags: nat := 0, 1;
    ghost var k: nat, left: nat := 0, 0;
    assert ts[0..] == ts;
    GatherNone(S0, S1, ts, 0);
    assert before + [] == before;
    MoreToRead(c.codeBuf[..], pos, codeEnd, flags, ts, left);
    while pos < codeEnd
      invariant 0 <= k <= |ts| && (pos < codeEnd <==> k < |ts|) && bi < 8 && bb < Pow2(bi) && w.len <= p <= w.buf.Length
      invariant Reading(c.codeBuf[..], pos, codeEnd, flags, ts[k..], left)
      invariant room ==> Spells(w.buf[..], p, bb, bi, before + Gathered(S0, S1, ts, 0, k))
      invariant !room ==> k == 0 && p == w.len && bb == w.bitBuffer && bi == w.bitsIn
      invariant forall i :: 0 <= i < w.len ==> w.buf[i] == old(w.buf[i])
      decreases |ts| - k
    {
      ghost var k0, bb0, bi0 := k, bb, bi;
      pos, flags, bb, bi, k, left := Gather(c, pos, codeEnd, flags, bb, bi, ts, k, left);
      GatherMore(S0, S1, ts, k0, k);
      if p >= w.end {
        GatherMore(S0, S1, ts, k0, |ts|);
        TooLong(w.buf[..], w.len, w.end, w.bitBuffer, w.bitsIn, before, p, bb0, bi0, Gathered(S0, S1, ts, 0, k0), room);
        return false, p, bb, bi;
      }
      ghost var buf0 := w.buf[..];
      GatherSpells(buf0, p, bb0, bi0, before + Gathered(S0, S1, ts, 0, k0), bb, bi, Gathered(S0, S1, ts, k0, k));
      assert before + Gathered(S0, S1, ts, 0, k0) + Gathered(S0, S1, ts, k0, k) == before + Gathered(S0, S1, ts, 0, k);
      Store64(w.buf, p, bb);
      KeepWholeBytes(buf0, w.buf[..], p, bb, bi, before + Gathered(S0, S1, ts, 0, k));
      p := p + bi / 8;
      bb := Shr(bb, 8 * (bi / 8));
      bi := bi % 8;
      SpellsFacts(w.buf[..], p, bb, bi, before + Gathered(S0, S1, ts, 0, k));
      MoreToRead(c.codeBuf[..], pos, codeEnd, flags, ts[k..], left);
    }
    return true, p, bb, bi;
  }

  lemma StartEmit(buf: seq<Byte>, len: nat, end: nat, bb: nat, bi: nat, stream: seq<bool>)
    requires Holds(buf, len, end, bb, bi, stream) && end <= |buf|
    ensures len <= end && bb < Pow2(bi)
    ensures len < end ==> Spells(buf, len, bb, bi, stream)
    ensures len == end ==> |stream| / 8 >= end
  {
    hide ToBits, BytesToBits, Pow2;
    if len < end {
      assert stream == stream[..8 * len] + stream[|stream| - bi..];
    }
  }

  lemma SpellsFacts(buf: seq<Byte>, p: nat, bb: nat, bi: nat, stream: seq<bool>)
    requires Spells(buf, p, bb, bi, stream)
    ensures p <= |buf| && bb < Pow2(bi)
  {
  }

  lemma GatherSpells(buf: seq<Byte>, p: nat, bb0: nat, bi0: nat, stream: seq<bool>, bb: nat, bi: nat, more: seq<bool>)
    requires Spells(buf, p, bb0, bi0, stream) && bb < Pow2(bi) && bi0 <= bi && ToBits(bb, bi) == ToBits(bb0, bi0) + more
    ensures Spells(buf, p, bb, bi, stream + more)
  {
    hide ToBits, BytesToBits, Pow2;
    assert |ToBits(bb, bi)| == bi && |ToBits(bb0, bi0)| == bi0;
  }

  /** No room for a store means no room for the block. */
  lemma TooLong(buf: seq<Byte>, len: nat, end: nat, bb0: nat, bi0: nat, stream: seq<bool>, p: nat, bb: nat, bi: nat, done: seq<bool>, room: bool)
    requires p >= end
    requires room ==> Spells(buf, p, bb, bi, stream + done)
    requires !room ==> |stream| / 8 >= end
    ensures forall more: seq<bool> :: |stream + (done + more)| / 8 >= end
  {
  }

  /** tdefl_compress_lz_codes on the 64-bit register: it succeeds exactly when the simple form does,
      and then the writer is in the same state. On failure only the bytes written before the call
      are left as they were, which is what the caller goes back to. */
  method CompressLzCodes(c: LzCodes, w: Writer, codeEnd: nat, ghost ts: seq<Token>) returns (ok: bool)
    requires w.Valid() && w.end + 16 <= w.buf.Length && w.buf != c.codeBuf && Ready(c, ts)
    requires AllValid(ts) && codeEnd <= c.codeBuf.Length && c.codeBuf[..codeEnd] == Enc(ts, 0)
    modifies w, w.buf
    ensures w.end == old(w.end) && w.len >= old(w.len)
    ensures forall i :: 0 <= i < old(w.len) ==> w.buf[i] == old(w.buf[i])
    ensures ok == (|old(w.stream) + CodesBits(c.lit.sizes[..LIT_SYMBOLS], c.dist.sizes[..DIST_SYMBOLS], ts)| / 8 < w.end)
    ensures ok ==> w.Valid() && w.stream == old(w.stream) + CodesBits(c.lit.sizes[..LIT_SYMBOLS], c.dist.sizes[..DIST_SYMBOLS], ts)
  {
    hide Reading, TableReady, Covered, TokenBits, TokensBits, Codeword, Enc, ValidToken, Gathered, ToBits, BytesToBits, Pow2, Spells, LeBytes, Holds;
    ghost var S0, S1, before := c.lit.sizes[..LIT_SYMBOLS], c.dist.sizes[..DIST_SYMBOLS], w.stream;
    ghost var codes := Gathered(S0, S1, ts, 0, |ts|);
    AllGathered(S0, S1, ts);
    var p, bb, bi;
    StartEmit(w.buf[..], w.len, w.end, w.bitBuffer, w.bitsIn, before);
    ok, p, bb, bi := EmitLoop(c, w, codeEnd, ts);
    if !ok {
      return;
    }
    ghost var room := w.len < w.end;
    if p >= w.end {
      // nothing more fits: the remaining bits and the end-of-block symbol are dropped
      if room { NoRoomLeft(w.buf[..], p, bb, bi, before + codes, w.end); }
      w.len := p;
      return false;
    }
    TailHolds(w.buf[..], p, bb, bi, before + codes, w.end);
    w.len, w.bitBuffer, w.bitsIn, w.stream := p, 0, 0, (before + codes)[..8 * p];
    PutTail(w, bb, bi, before + codes);
    PutSymbol(w, c.lit, LIT_SYMBOLS, 256);
    ok := !w.Full();
    WriterLength(w.buf[..], w.len, w.end, w.bitBuffer, w.bitsIn, w.stream);
  }

  lemma AllGathered(S0: seq<nat>, S1: seq<nat>, ts: seq<Token>)
    requires AllCovered(S0, S1, ts) && |S0| > 256
    ensures CodesBits(S0, S1, ts) == Gathered(S0, S1, ts, 0, |ts|) + Codeword(S0, 256)
    ensures ts == [] ==> Gathered(S0, S1, ts, 0, |ts|) == []
    ensures forall s: seq<bool> :: s + CodesBits(S0, S1, ts) == s + Gathered(S0, S1, ts, 0, |ts|) + Codeword(S0, 256)
  {
    assert ts[0..|ts|] == ts;
  }

  lemma NoRoomLeft(buf: seq<Byte>, p: nat, bb: nat, bi: nat, stream: seq<bool>, end: nat)
    requires Spells(buf, p, bb, bi, stream) && p >= end
    ensures |stream| / 8 >= end
  {
  }

  lemma TailHolds(buf: seq<Byte>, p: nat, bb: nat, bi: nat, stream: seq<bool>, end: nat)
    requires Spells(buf, p, bb, bi, stream) && p < end <= |buf|
    ensures 8 * p <= |stream| && |stream| == 8 * p + bi && bb < Pow2(bi)
    ensures stream == stream[..8 * p] + ToBits(bb, bi)
    ensures Holds(buf, p, end, 0, 0, stream[..8 * p])
  {
    hide BytesToBits;
    assert stream[..8 * p] == BytesToBits(buf[..p]);
    assert Pow2(0) == 1;
  }

  /** The loop that hands the last bits over, at most 16 at a time (src/http/miniz.c:2095-2103). */
  method PutTail(w: Writer, bb0: nat, bi0: nat, ghost whole: seq<bool>)
    requires w.Valid() && bb0 < Pow2(bi0) && whole == w.stream + ToBits(bb0, bi0)
    modifies w, w.buf
    ensures w.Valid() && w.end == old(w.end) && w.stream == whole
    ensures old(w.len) <= w.len <= w.buf.Length && forall i :: 0 <= i < old(w.len) ==> w.buf[i] == old(w.buf[i])
  {
    hide BytesToBits, ToBits, Pow2, Holds, Mask, Shr;
    WriterFits(w);
    NoBitsPending(w.stream);
    var bb: nat, bi: nat := bb0, bi0;
    while bi > 0
      invariant w.Valid() && w.end == old(w.end) && bb < Pow2(bi) && whole == w.stream + ToBits(bb, bi)
      invariant old(w.len) <= w.len <= w.buf.Length && forall i :: 0 <= i < old(w.len) ==> w.buf[i] == old(w.buf[i])
    {
      var n := if bi <= 16 then bi else 16;
      ToBitsSplit(bb, n, bi - n);
      ShrBound(bb, n, bi - n);
      ghost var s := w.stream;
      w.PutBits(Mask(bb, n), n);
      assert whole == s + (ToBits(Mask(bb, n), n) + ToBits(Shr(bb, n), bi - n));
      bb := Shr(bb, n);
      bi := bi - n;
    }
  }

  lemma WriterLength(buf: seq<Byte>, len: nat, end: nat, bb: nat, bi: nat, stream: seq<bool>)
    requires Holds(buf, len, end, bb, bi, stream) && bi < 8
    ensures len < end <==> |stream| / 8 < end
  {
  }

  lemma WriterFits(w: Writer)
    requires w.Valid()
    ensures w.len <= w.buf.Length
  {
    hide BytesToBits, ToBits, Pow2;
  }

  lemma NoBitsPending(s: seq<bool>)
    ensures forall bb: nat :: s + ToBits(bb, 0) == s
  {
  }
}
