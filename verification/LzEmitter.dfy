/** Huffman-coding the recorded LZ codes (tdefl_compress_lz_codes): the form on TDEFL_PUT_BITS
    (src/http/miniz.c:2108-2150) and the form on a 64-bit register (src/http/miniz.c:2019-2106).
    Both are proved against the same bit string. */
module LzEmitter {
  import opened Bits
  import opened CanonicalCode
  import opened LzTokens
  import opened Blocks
  import opened BitWriter
  import opened HuffTable
  import opened LzBuffer

  const LIT_SYMBOLS := 288
  const DIST_SYMBOLS := 32

  // ---------- reading the code buffer back ----------

  /** The reader is at pos with `left` flags in the register, above a stop bit; rest is still to come. */
  ghost predicate Reading(buf: seq<Byte>, pos: nat, end: nat, flags: nat, rest: seq<Token>, left: nat)
  {
    && AllValid(rest) && pos <= end <= |buf| && left <= 8
    && buf[pos..end] == Enc(rest, left)
    && flags == FlagsOf(rest, left) + Pow2(left)
  }

  lemma StartReading(buf: seq<Byte>, end: nat, ts: seq<Token>)
    requires AllValid(ts) && end <= |buf| && buf[..end] == Enc(ts, 0)
    ensures Reading(buf, 0, end, 1, ts, 0)
  {
    assert buf[0..end] == buf[..end];
  }

  lemma MoreToRead(buf: seq<Byte>, pos: nat, end: nat, flags: nat, rest: seq<Token>, left: nat)
    requires Reading(buf, pos, end, flags, rest, left)
    ensures pos < end <==> rest != []
    ensures flags == 1 <==> left == 0
  {
    EncLength(rest, left);
    if left > 0 {
      assert Pow2(left) >= 2;
    }
  }

  /** `flags = *pLZ_codes++ | 0x100`. */
  lemma ReadFlags(buf: seq<Byte>, pos: nat, end: nat, flags: nat, rest: seq<Token>)
    requires Reading(buf, pos, end, flags, rest, 0) && rest != []
    ensures pos < end <= |buf| && Reading(buf, pos + 1, end, buf[pos] as nat + 256, rest, 8)
  {
    hide FlagsOf;
    Pow2Values();
    var e := buf[pos..end];
    assert e == [FlagByte(rest)] + Enc(rest, 8);
    assert buf[pos] == e[0] && buf[pos + 1..end] == e[1..];
  }

  lemma ReadLiteral(buf: seq<Byte>, pos: nat, end: nat, flags: nat, rest: seq<Token>, left: nat)
    requires Reading(buf, pos, end, flags, rest, left) && rest != [] && left > 0 && flags % 2 == 0
    ensures pos < end <= |buf| && rest[0] == Literal(buf[pos])
    ensures Reading(buf, pos + 1, end, flags / 2, rest[1..], left - 1)
  {
    var e := buf[pos..end];
    assert e == TokenCode(rest[0]) + Enc(rest[1..], left - 1);
    assert buf[pos] == e[0] && buf[pos + 1..end] == e[1..];
  }

  lemma ReadMatch(buf: seq<Byte>, pos: nat, end: nat, flags: nat, rest: seq<Token>, left: nat)
    requires Reading(buf, pos, end, flags, rest, left) && rest != [] && left > 0 && flags % 2 == 1
    ensures pos + 3 <= end <= |buf| && rest[0] == Match(buf[pos] as nat + 3, buf[pos + 1] as nat + 256 * buf[pos + 2] as nat + 1)
    ensures Reading(buf, pos + 3, end, flags / 2, rest[1..], left - 1)
  {
    var e := buf[pos..end];
    assert e == TokenCode(rest[0]) + Enc(rest[1..], left - 1);
    assert buf[pos] == e[0] && buf[pos + 1] == e[1] && buf[pos + 2] == e[2] && buf[pos + 3..end] == e[3..];
  }

  // ---------- code tables ----------

  /** The tables of a block are set up and have a code for everything in it. */
  ghost predicate Ready(c: LzCodes, ts: seq<Token>)
    reads c.lit.sizes, c.lit.codes, c.dist.sizes, c.dist.codes
  {
    && c.Shaped()
    && TableReady(c.lit.sizes[..LIT_SYMBOLS], c.lit.codes[..])
    && TableReady(c.dist.sizes[..DIST_SYMBOLS], c.dist.codes[..])
    && AllCovered(c.lit.sizes[..LIT_SYMBOLS], c.dist.sizes[..DIST_SYMBOLS], ts)
    && c.lit.sizes[256] > 0
  }

  ghost predicate TableReady(sizes: seq<nat>, codes: seq<nat>)
  {
    CodesMatch(sizes, codes) && forall i :: 0 <= i < |sizes| ==> sizes[i] <= 15
  }

  lemma SymbolBits(sizes: seq<nat>, codes: seq<nat>, s: nat)
    requires TableReady(sizes, codes) && s < |sizes| && sizes[s] > 0
    ensures codes[s] < Pow2(sizes[s]) && ToBits(codes[s], sizes[s]) == Codeword(sizes, s)
  {
    ReverseBits(Code(sizes, s), sizes[s]);
  }

  // ---------- the form on TDEFL_PUT_BITS ----------

  method PutSymbol(w: Writer, t: HuffmanTable, n: nat, s: nat)
    requires w.Valid() && t.Shaped() && n <= MAX_SYMBOLS && TableReady(t.sizes[..n], t.codes[..]) && s < n && t.sizes[s] > 0
    modifies w, w.buf
    ensures w.Valid() && w.end == old(w.end) && w.stream == old(w.stream) + Codeword(t.sizes[..n], s)
    ensures old(w.len) <= w.len <= w.buf.Length && forall i :: 0 <= i < old(w.len) ==> w.buf[i] == old(w.buf[i])
  {
    SymbolBits(t.sizes[..n], t.codes[..], s);
    w.PutBits(t.codes[s], t.sizes[s]);
  }

  method PutMatch(c: LzCodes, w: Writer, matchLen: nat, matchDist: nat)
    requires w.Valid() && w.buf != c.codeBuf && matchLen < 256 && matchDist < 32768
    requires Ready(c, [Match(matchLen + 3, matchDist + 1)])
    modifies w, w.buf
    ensures w.Valid() && w.end == old(w.end) && old(w.len) <= w.len <= w.buf.Length && forall i :: 0 <= i < old(w.len) ==> w.buf[i] == old(w.buf[i])
    ensures Covered(c.lit.sizes[..LIT_SYMBOLS], c.dist.sizes[..DIST_SYMBOLS], Match(matchLen + 3, matchDist + 1))
    ensures w.stream == old(w.stream)
                      + TokenBits(c.lit.sizes[..LIT_SYMBOLS], c.dist.sizes[..DIST_SYMBOLS], Match(matchLen + 3, matchDist + 1))
  {
    hide TableReady, LenSym, DistSym, LenExtra, SmallDistSym, LargeDistSym, SmallDistExtra, LargeDistExtra, DistExtraOf;
    hide Codeword, ToBits, Mask, TokenBits, Covered;
    ghost var S0, S1, before := c.lit.sizes[..LIT_SYMBOLS], c.dist.sizes[..DIST_SYMBOLS], w.stream;
    MatchFieldsOf(S0, S1, matchLen, matchDist);
    PutSymbol(w, c.lit, LIT_SYMBOLS, LenSym(matchLen));
    w.PutBits(Mask(matchLen, LenExtra(matchLen)), LenExtra(matchLen));
    var sym, numExtraBits;
    if matchDist < 512 {
      sym, numExtraBits := SmallDistSym(matchDist), SmallDistExtra(matchDist);
    } else {
      sym, numExtraBits := LargeDistSym(matchDist / 256), LargeDistExtra(matchDist / 256);
    }
    PutSymbol(w, c.dist, DIST_SYMBOLS, sym);
    w.PutBits(Mask(matchDist, numExtraBits), numExtraBits);
    FourFields(before, Codeword(S0, LenSym(matchLen)), ToBits(Mask(matchLen, LenExtra(matchLen)), LenExtra(matchLen)),
               Codeword(S1, sym), ToBits(Mask(matchDist, numExtraBits), numExtraBits));
  }

  lemma FourFields(s: seq<bool>, a: seq<bool>, b: seq<bool>, c: seq<bool>, d: seq<bool>)
    ensures s + a + b + c + d == s + (a + (b + (c + d)))
  {
  }

  lemma MatchFieldsOf(S0: seq<nat>, S1: seq<nat>, len: nat, dist: nat)
    requires len < 256 && dist < 32768 && AllCovered(S0, S1, [Match(len + 3, dist + 1)])
    ensures Covered(S0, S1, Match(len + 3, dist + 1))
    ensures LenExtra(len) <= 5 && DistExtraOf(dist) <= 13
    ensures DistSym(dist) == (if dist < 512 then SmallDistSym(dist) else LargeDistSym(dist / 256))
    ensures DistExtraOf(dist) == (if dist < 512 then SmallDistExtra(dist) else LargeDistExtra(dist / 256))
    ensures LenSym(len) < |S0| && S0[LenSym(len)] > 0 && DistSym(dist) < |S1| && S1[DistSym(dist)] > 0
    ensures TokenBits(S0, S1, Match(len + 3, dist + 1))
         == Codeword(S0, LenSym(len)) + (ToBits(Mask(len, LenExtra(len)), LenExtra(len)) +
            (Codeword(S1, DistSym(dist)) + ToBits(Mask(dist, DistExtraOf(dist)), DistExtraOf(dist))))
  {
    assert Covered(S0, S1, [Match(len + 3, dist + 1)][0]);
    MatchWidths(len, dist);
  }

  lemma MatchWidths(len: nat, dist: nat)
    requires len < 256 && dist < 32768
    ensures LenExtra(len) <= 5 && DistExtraOf(dist) <= 13
    ensures DistSym(dist) == (if dist < 512 then SmallDistSym(dist) else LargeDistSym(dist / 256))
    ensures DistExtraOf(dist) == (if dist < 512 then SmallDistExtra(dist) else LargeDistExtra(dist / 256))
  {
  }

  /** Every token of ts is in the tables. */
  lemma ReadyTail(S0: seq<nat>, S1: seq<nat>, ts: seq<Token>, k: nat)
    requires AllCovered(S0, S1, ts) && k < |ts|
    ensures AllCovered(S0, S1, [ts[k]]) && AllCovered(S0, S1, ts[..k]) && AllCovered(S0, S1, ts[..k + 1])
    ensures Covered(S0, S1, ts[k])
    ensures TokensBits(S0, S1, ts[..k + 1]) == TokensBits(S0, S1, ts[..k]) + TokenBits(S0, S1, ts[k])
  {
    hide Covered, TokenBits, TokensBits;
    assert ts[..k + 1] == ts[..k] + [ts[k]];
    TokensBitsSnoc(S0, S1, ts[..k], ts[k]);
  }

  lemma CoveredLiteral(S0: seq<nat>, S1: seq<nat>, b: Byte)
    requires Covered(S0, S1, Literal(b))
    ensures b < |S0| && S0[b] > 0 && TokenBits(S0, S1, Literal(b)) == Codeword(S0, b)
  {
  }

  /** One code from the buffer to the writer. */
  method PutToken(c: LzCodes, w: Writer, pos0: nat, end: nat, flags0: nat, ghost ts: seq<Token>, ghost k: nat, ghost left0: nat)
    returns (pos: nat, flags: nat, ghost left: nat)
    requires w.Valid() && w.buf != c.codeBuf && Ready(c, ts) && k < |ts|
    requires Reading(c.codeBuf[..], pos0, end, flags0, ts[k..], left0)
    modifies w, w.buf
    ensures w.Valid() && w.end == old(w.end)
    ensures old(w.len) <= w.len <= w.buf.Length && forall i :: 0 <= i < old(w.len) ==> w.buf[i] == old(w.buf[i])
    ensures Reading(c.codeBuf[..], pos, end, flags, ts[k + 1..], left)
    ensures Covered(c.lit.sizes[..LIT_SYMBOLS], c.dist.sizes[..DIST_SYMBOLS], ts[k])
    ensures w.stream == old(w.stream) + TokenBits(c.lit.sizes[..LIT_SYMBOLS], c.dist.sizes[..DIST_SYMBOLS], ts[k])
  {
    hide Reading, TableReady, Covered, TokenBits, Codeword;
    ghost var buf, rest, S0, S1 := c.codeBuf[..], ts[k..], c.lit.sizes[..LIT_SYMBOLS], c.dist.sizes[..DIST_SYMBOLS];
    pos, flags, left := pos0, flags0, left0;
    MoreToRead(buf, pos, end, flags, rest, left);
    ReadyTail(S0, S1, ts, k);
    assert rest[1..] == ts[k + 1..];
    if flags == 1 {
      ReadFlags(buf, pos, end, flags, rest);
      flags := c.codeBuf[pos] as nat + 256;
      pos, left := pos + 1, 8;
    }
    if flags % 2 == 1 {
      ReadMatch(buf, pos, end, flags, rest, left);
      var matchLen, matchDist := c.codeBuf[pos] as nat, c.codeBuf[pos + 1] as nat + 256 * c.codeBuf[pos + 2] as nat;
      pos := pos + 3;
      ValidDist(S0, S1, ts[k]);
      PutMatch(c, w, matchLen, matchDist);
    } else {
      ReadLiteral(buf, pos, end, flags, rest, left);
      var lit := c.codeBuf[pos];
      pos := pos + 1;
      CoveredLiteral(S0, S1, lit);
      PutSymbol(w, c.lit, LIT_SYMBOLS, lit);
    }
    flags, left := flags / 2, left - 1;
  }

  lemma ValidDist(S0: seq<nat>, S1: seq<nat>, t: Token)
    requires Covered(S0, S1, t)
    ensures ValidToken(t)
  {
  }

  /** tdefl_compress_lz_codes on TDEFL_PUT_BITS: all codes and the end-of-block symbol. It reports
      whether the buffer still has room, which it has exactly when no byte was dropped. */
  method CompressLzCodesSimple(c: LzCodes, w: Writer, codeEnd: nat, ghost ts: seq<Token>) returns (ok: bool)
    requires w.Valid() && w.buf != c.codeBuf && Ready(c, ts)
    requires AllValid(ts) && codeEnd <= c.codeBuf.Length && c.codeBuf[..codeEnd] == Enc(ts, 0)
    modifies w, w.buf
    ensures w.Valid() && w.end == old(w.end)
    ensures w.stream == old(w.stream) + CodesBits(c.lit.sizes[..LIT_SYMBOLS], c.dist.sizes[..DIST_SYMBOLS], ts)
    ensures ok == (|w.stream| / 8 < w.end)
    ensures forall i :: 0 <= i < old(w.len) ==> w.buf[i] == old(w.buf[i])
  {
    hide Reading, TableReady, Covered, TokenBits, TokensBits, Codeword, Enc, ValidToken;
    ghost var S0, S1, before := c.lit.sizes[..LIT_SYMBOLS], c.dist.sizes[..DIST_SYMBOLS], w.stream;
    StartReading(c.codeBuf[..], codeEnd, ts);
    var pos: nat, flags: nat := 0, 1;
    ghost var k: nat, left: nat := 0, 0;
    assert ts[0..] == ts && ts[..0] == [];
    assert TokensBits(S0, S1, ts[..0]) == [] by { NoTokensBits(S0, S1); }
    MoreToRead(c.codeBuf[..], pos, codeEnd, flags, ts, left);
    while pos < codeEnd
      invariant 0 <= k <= |ts| && (pos < codeEnd <==> k < |ts|)
      invariant Reading(c.codeBuf[..], pos, codeEnd, flags, ts[k..], left)
      invariant w.Valid() && w.end == old(w.end) && AllCovered(S0, S1, ts[..k])
      invariant w.stream == before + TokensBits(S0, S1, ts[..k])
      invariant old(w.len) <= w.len <= w.buf.Length && forall i :: 0 <= i < old(w.len) ==> w.buf[i] == old(w.buf[i])
      decreases |ts| - k
    {
      ReadyTail(S0, S1, ts, k);
      pos, flags, left := PutToken(c, w, pos, codeEnd, flags, ts, k, left);
      k := k + 1;
      MoreToRead(c.codeBuf[..], pos, codeEnd, flags, ts[k..], left);
    }
    assert ts[..k] == ts;
    PutSymbol(w, c.lit, LIT_SYMBOLS, 256);
    return !w.Full();
  }

  lemma NoTokensBits(S0: seq<nat>, S1: seq<nat>)
    ensures TokensBits(S0, S1, []) == []
  {
  }
}
