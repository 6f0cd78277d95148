/** The buffer of LZ codes: flag bytes, one bit for each of eight codes, with the codes after them
    (tdefl_record_literal and tdefl_record_match, src/http/miniz.c:2467-2495). */
module LzBuffer {
  import opened Bits
  import opened MinRedundancy
  import opened HuffTable
  import opened LzTokens

  const LZ_CODE_BUF_SIZE := 64 * 1024

  // ---------- the format ----------

  /** A literal is one byte; a match is its length - 3 and its distance - 1, low byte first. */
  function TokenCode(t: Token): (c: seq<Byte>)
    requires ValidToken(t)
    ensures 1 <= |c| <= 3
  {
    match t
    case Literal(b) => [b]
    case Match(len, dist) => [len - 3, (dist - 1) % 256, (dist - 1) / 256]
  }

  predicate AllValid(ts: seq<Token>)
  {
    forall i :: 0 <= i < |ts| ==> ValidToken(ts[i])
  }

  function Codes(ts: seq<Token>): seq<Byte>
    requires AllValid(ts)
  {
    if ts == [] then [] else Codes(ts[..|ts| - 1]) + TokenCode(ts[|ts| - 1])
  }

  /** The flags of the first n tokens, first in the lowest bit: 1 for a match. */
  function FlagsOf(ts: seq<Token>, n: nat): (f: nat)
    ensures f < Pow2(n)
  {
    if n == 0 || ts == [] then 0 else (if ts[0].Match? then 1 else 0) + 2 * FlagsOf(ts[1..], n - 1)
  }

  function FlagByte(ts: seq<Token>): Byte
  {
    Pow2Values();
    FlagsOf(ts, 8)
  }

  /** The codes of ts when `left` codes still belong to the flag byte read last. */
  function Enc(ts: seq<Token>, left: nat): seq<Byte>
    requires AllValid(ts)
    decreases |ts|, if left == 0 then 1 else 0
  {
    if ts == [] then []
    else if left == 0 then [FlagByte(ts)] + Enc(ts, 8)
    else TokenCode(ts[0]) + Enc(ts[1..], left - 1)
  }

  // ---------- frequencies ----------

  function LitSymOf(t: Token): (s: nat)
    requires ValidToken(t)
    ensures s < 286
  {
    if t.Match? then (LengthTables(t.len - 3); LenSym(t.len - 3)) else t.b
  }

  function DistSymOf(t: Token): (s: nat)
    requires ValidToken(t) && t.Match?
    ensures s < 30
  {
    DistTables(t.dist - 1);
    DistSym(t.dist - 1)
  }

  /** How often literal/length symbol s occurs. */
  function LitFreq(ts: seq<Token>, s: nat): nat
    requires AllValid(ts)
  {
    if ts == [] then 0 else LitFreq(ts[..|ts| - 1], s) + (if LitSymOf(ts[|ts| - 1]) == s then 1 else 0)
  }

  function DistFreq(ts: seq<Token>, s: nat): nat
    requires AllValid(ts)
  {
    if ts == [] then 0
    else DistFreq(ts[..|ts| - 1], s) + (var t := ts[|ts| - 1]; if t.Match? && DistSymOf(t) == s then 1 else 0)
  }

  lemma {:induction false} FreqPositive(ts: seq<Token>, i: nat)
    requires AllValid(ts) && i < |ts|
    ensures LitFreq(ts, LitSymOf(ts[i])) > 0
    ensures ts[i].Match? ==> DistFreq(ts, DistSymOf(ts[i])) > 0
  {
    hide LitSymOf, DistSymOf;
    if i < |ts| - 1 {
      FreqPositive(ts[..|ts| - 1], i);
    }
  }

  // ---------- appending to the format ----------

  lemma {:induction false} FlagsSnoc(ts: seq<Token>, t: Token, n: nat)
    requires |ts| < n
    ensures FlagsOf(ts + [t], n) == FlagsOf(ts, n) + (if t.Match? then Pow2(|ts|) else 0)
  {
    if ts == [] {
      assert ([] + [t])[1..] == [];
    } else {
      assert (ts + [t])[1..] == ts[1..] + [t];
      FlagsSnoc(ts[1..], t, n - 1);
    }
  }

  /** The codes of at most `left` tokens need no flag byte. */
  lemma {:induction false} EncPart(ts: seq<Token>, left: nat)
    requires AllValid(ts) && |ts| <= left
    ensures Enc(ts, left) == Codes(ts)
  {
    if ts != [] {
      EncPart(ts[1..], left - 1);
      CodesCons(ts);
    }
  }

  lemma {:induction false} CodesCons(ts: seq<Token>)
    requires AllValid(ts) && ts != []
    ensures Codes(ts) == TokenCode(ts[0]) + Codes(ts[1..])
  {
    if |ts| == 1 {
      assert ts[1..] == [] && ts[..0] == [];
    } else {
      var a, x := ts[..|ts| - 1], ts[|ts| - 1];
      CodesCons(a);
      assert ts[1..][..|ts| - 2] == a[1..] && ts[1..][|ts| - 2] == x;
    }
  }

  /** A full group ends the scope of its flag byte, whatever comes after. */
  lemma {:induction false} EncGroup(part: seq<Token>, rest: seq<Token>, left: nat)
    requires AllValid(part) && AllValid(rest) && |part| == left
    ensures AllValid(part + rest) && Enc(part + rest, left) == Codes(part) + Enc(rest, 0)
  {
    hide Codes, TokenCode, FlagByte, ValidToken;
    if left == 0 {
      assert part + rest == rest;
      assert Codes(part) == [] by { EncPart(part, 0); }
    } else {
      EncGroup(part[1..], rest, left - 1);
      assert (part + rest)[1..] == part[1..] + rest;
      CodesCons(part);
      assert Enc(part + rest, left) == TokenCode(part[0]) + Enc(part[1..] + rest, left - 1);
    }
  }

  lemma {:induction false} FlagsPrefix(a: seq<Token>, b: seq<Token>, n: nat)
    requires |a| >= n
    ensures FlagsOf(a + b, n) == FlagsOf(a, n)
  {
    if n > 0 {
      assert (a + b)[1..] == a[1..] + b;
      FlagsPrefix(a[1..], b, n - 1);
    }
  }

  lemma {:induction false} EncFull(full: seq<Token>, rest: seq<Token>)
    requires AllValid(full) && AllValid(rest) && |full| % 8 == 0
    ensures AllValid(full + rest) && Enc(full + rest, 0) == Enc(full, 0) + Enc(rest, 0)
    decreases |full|
  {
    if full == [] {
      assert full + rest == rest;
    } else {
      var g, f := full[..8], full[8..];
      assert full == g + f && full + rest == g + (f + rest);
      hide Enc, Codes, FlagByte;
      EncFull(f, rest);
      EncOneGroup(g, f);
      EncOneGroup(g, f + rest);
      GroupAssoc([FlagByte(g)] + Codes(g), Enc(f, 0), Enc(rest, 0));
    }
  }

  lemma GroupAssoc(a: seq<Byte>, b: seq<Byte>, c: seq<Byte>)
    ensures a + (b + c) == a + b + c
  {
  }

  lemma EncOneGroup(g: seq<Token>, rest: seq<Token>)
    requires AllValid(g) && AllValid(rest) && |g| == 8
    ensures AllValid(g + rest) && Enc(g + rest, 0) == [FlagByte(g)] + Codes(g) + Enc(rest, 0)
  {
    hide Codes, TokenCode, ValidToken;
    EncGroup(g, rest, 8);
    FlagsPrefix(g, rest, 8);
    assert Enc(g + rest, 0) == [FlagByte(g + rest)] + Enc(g + rest, 8);
  }

  /** The whole list, split into full groups and the started one. */
  lemma EncParts(full: seq<Token>, part: seq<Token>)
    requires AllValid(full) && AllValid(part) && |full| % 8 == 0 && |part| <= 8
    ensures AllValid(full + part)
    ensures Enc(full + part, 0) == Enc(full, 0) + (if part == [] then [] else [FlagByte(part)] + Codes(part))
  {
    EncFull(full, part);
    if part != [] {
      EncPart(part, 8);
    }
  }

  lemma {:induction false} CodesLength(ts: seq<Token>)
    requires AllValid(ts)
    ensures |Codes(ts)| >= |ts|
  {
    if ts != [] {
      CodesLength(ts[..|ts| - 1]);
    }
  }

  lemma {:induction false} EncLength(ts: seq<Token>, left: nat)
    requires AllValid(ts)
    ensures |Enc(ts, left)| >= |ts|
    decreases |ts|, if left == 0 then 1 else 0
  {
    if ts != [] {
      if left == 0 { EncLength(ts, 8); } else { EncLength(ts[1..], left - 1); }
    }
  }

  // ---------- the buffer while codes are recorded ----------

  /** Finished groups, then the flag byte of the started group with its flags at the top, then its codes. */
  ghost predicate Stored(buf: seq<Byte>, codePos: nat, flagsPos: nat, left: nat, ts: seq<Token>)
  {
    && AllValid(ts) && 1 <= left <= 8 && 8 - left <= |ts| && (|ts| - (8 - left)) % 8 == 0
    && flagsPos < codePos <= |buf|
    && var n := |ts| - (8 - left);
       && buf[..flagsPos] == Enc(ts[..n], 0)
       && buf[flagsPos + 1..codePos] == Codes(ts[n..])
       && buf[flagsPos] / Pow2(left) == FlagsOf(ts[n..], 8)
  }

  /** `(flags >> 1) | 0x80`, or without the bit for a literal. */
  function PushFlag(flags: Byte, t: Token): Byte
  {
    flags / 2 + (if t.Match? then 128 else 0)
  }

  lemma PushFlagMeans(flags: Byte, t: Token, left: nat)
    requires 1 <= left <= 8
    ensures PushFlag(flags, t) / Pow2(left - 1) == flags / Pow2(left) + (if t.Match? then Pow2(8 - left) else 0)
  {
    Pow2Values();
    assert Pow2(6) == 64 && Pow2(0) == 1;
  }

  lemma StoreToken(buf: seq<Byte>, codePos: nat, flagsPos: nat, left: nat, ts: seq<Token>, t: Token, buf2: seq<Byte>)
    requires Stored(buf, codePos, flagsPos, left, ts) && ValidToken(t)
    requires var c := TokenCode(t);
             && codePos + |c| < |buf| == |buf2|
             && buf2[flagsPos] == PushFlag(buf[flagsPos], t)
             && buf2[codePos..codePos + |c|] == c
             && forall i :: 0 <= i < codePos && i != flagsPos ==> buf2[i] == buf[i]
    ensures var end := codePos + |TokenCode(t)|;
            if left > 1 then Stored(buf2, end, flagsPos, left - 1, ts + [t])
            else Stored(buf2, end + 1, end, 8, ts + [t])
  {
    hide Codes, FlagsOf, Enc, TokenCode, ValidToken, Pow2;
    var n := |ts| - (8 - left);
    var full, part, end := ts[..n], ts[n..], codePos + |TokenCode(t)|;
    PushFlagMeans(buf[flagsPos], t, left);
    FlagsSnoc(part, t, 8);
    CodesSnoc(part, t);
    assert (ts + [t])[..n] == full && (ts + [t])[n..] == part + [t];
    assert buf2[..flagsPos] == buf[..flagsPos];
    assert buf2[flagsPos + 1..end] == buf[flagsPos + 1..codePos] + TokenCode(t);
    if left == 1 {
      GroupDone(buf2, flagsPos, end, full, part + [t]);
      assert (ts + [t])[..n + 8] == full + (part + [t]) && (ts + [t])[n + 8..] == [];
      EmptyGroup(buf2[end]);
    }
  }

  lemma CodesSnoc(ts: seq<Token>, t: Token)
    requires AllValid(ts) && ValidToken(t)
    ensures Codes(ts + [t]) == Codes(ts) + TokenCode(t)
  {
    assert (ts + [t])[..|ts|] == ts;
  }

  lemma EmptyGroup(b: Byte)
    ensures b / Pow2(8) == FlagsOf([], 8) && Codes([]) == []
  {
    Pow2Values();
  }

  lemma GroupDone(buf: seq<Byte>, flagsPos: nat, end: nat, full: seq<Token>, g: seq<Token>)
    requires AllValid(full) && AllValid(g) && |full| % 8 == 0 && |g| == 8 && flagsPos < end <= |buf|
    requires buf[..flagsPos] == Enc(full, 0) && buf[flagsPos + 1..end] == Codes(g) && buf[flagsPos] / Pow2(0) == FlagsOf(g, 8)
    ensures AllValid(full + g) && buf[..end] == Enc(full + g, 0)
  {
    hide Enc, Codes, FlagsOf, ValidToken, AllValid;
    EncParts(full, g);
    assert Pow2(0) == 1;
    assert buf[flagsPos] == FlagByte(g);
    assert buf[..end] == buf[..flagsPos] + [buf[flagsPos]] + buf[flagsPos + 1..end];
  }

  /** Shifting the last flag byte down, or dropping it if it has no codes, finishes the list
      (src/http/miniz.c:2177-2178). */
  lemma FinishStored(buf: seq<Byte>, codePos: nat, flagsPos: nat, left: nat, ts: seq<Token>)
    requires Stored(buf, codePos, flagsPos, left, ts)
    ensures 0 <= buf[flagsPos] / Pow2(left) < 256
    ensures var b := buf[flagsPos := buf[flagsPos] / Pow2(left)];
            b[..if left == 8 then codePos - 1 else codePos] == Enc(ts, 0)
  {
    var n := |ts| - (8 - left);
    var full, part := ts[..n], ts[n..];
    assert ts == full + part;
    EncParts(full, part);
    Pow2Values();
    var b := buf[flagsPos := FlagByte(part)];
    if left == 8 {
      assert part == [] && Codes(part) == [];
      assert b[..codePos - 1] == buf[..flagsPos];
    } else {
      assert b[..codePos] == buf[..flagsPos] + [FlagByte(part)] + buf[flagsPos + 1..codePos];
    }
  }

  lemma StoredLength(buf: seq<Byte>, codePos: nat, flagsPos: nat, left: nat, ts: seq<Token>)
    requires Stored(buf, codePos, flagsPos, left, ts)
    ensures |ts| < codePos
  {
    var n := |ts| - (8 - left);
    EncLength(ts[..n], 0);
    CodesLength(ts[n..]);
  }

  // ---------- recording ----------

  lemma {:induction false} CountsSum(s: seq<nat>, i: nat)
    requires i < |s|
    ensures Sum(s[i := s[i] + 1]) == Sum(s) + 1
  {
    if i == 0 {
      assert s[0 := s[0] + 1][1..] == s[1..];
    } else {
      assert s[i := s[i] + 1][1..] == s[1..][i - 1 := s[i] + 1];
      CountsSum(s[1..], i - 1);
    }
  }

  /** The fields of the compressor that record LZ codes and count symbols. */
  class LzCodes {
    const codeBuf: array<Byte>        // m_lz_code_buf
    const lit: HuffmanTable           // row 0: literals and lengths
    const dist: HuffmanTable          // row 1: distances
    var codePos: nat                  // m_pLZ_code_buf
    var flagsPos: nat                 // m_pLZ_flags
    var numFlagsLeft: nat
    var totalLzBytes: nat
    ghost var tokens: seq<Token>      // what is recorded

    predicate Shaped()
    {
      codeBuf.Length == LZ_CODE_BUF_SIZE && lit.Shaped() && dist.Shaped()
      && {lit.count, lit.sizes, lit.codes} !! {dist.count, dist.sizes, dist.codes}
    }

    ghost predicate Valid()
      reads this, codeBuf, lit.count, dist.count
    {
      && Shaped()
      && Stored(codeBuf[..], codePos, flagsPos, numFlagsLeft, tokens)
      && totalLzBytes == TotalLen(tokens)
      && Counted(lit.count[..], dist.count[..], tokens)
    }

    constructor ()
      ensures Valid() && tokens == [] && codePos == 1
      ensures fresh(codeBuf) && fresh(lit) && fresh(dist)
      ensures fresh(lit.count) && fresh(lit.sizes) && fresh(lit.codes) && fresh(dist.count) && fresh(dist.sizes) && fresh(dist.codes)
    {
      codeBuf := new Byte[LZ_CODE_BUF_SIZE](i => 0);
      lit := new HuffmanTable();
      dist := new HuffmanTable();
      codePos, flagsPos, numFlagsLeft, totalLzBytes, tokens := 1, 0, 8, 0, [];
      new;
      NothingStored(codeBuf[..], lit.count[..], dist.count[..]);
    }

    /** The end of both recorders: one flag more, and a new flag byte after eight. */
    method NextFlag(t: Token)
      requires Shaped() && 1 <= numFlagsLeft <= 8 && flagsPos < codePos < codeBuf.Length
      modifies this, codeBuf
      ensures tokens == old(tokens) && totalLzBytes == old(totalLzBytes)
      ensures codeBuf[old(flagsPos)] == PushFlag(old(codeBuf[flagsPos]), t)
      ensures forall i :: 0 <= i < codeBuf.Length && i != old(flagsPos) ==> codeBuf[i] == old(codeBuf[i])
      ensures if old(numFlagsLeft) > 1
              then numFlagsLeft == old(numFlagsLeft) - 1 && flagsPos == old(flagsPos) && codePos == old(codePos)
              else numFlagsLeft == 8 && flagsPos == old(codePos) && codePos == old(codePos) + 1
    {
      codeBuf[flagsPos] := PushFlag(codeBuf[flagsPos], t);
      numFlagsLeft := numFlagsLeft - 1;
      if numFlagsLeft == 0 {
        numFlagsLeft := 8;
        flagsPos := codePos;
        codePos := codePos + 1;
      }
    }

    /** tdefl_record_literal. */
    method RecordLiteral(b: Byte)
      requires Valid() && codePos + 2 <= LZ_CODE_BUF_SIZE
      modifies this, codeBuf, lit.count
      ensures Valid() && tokens == old(tokens) + [Literal(b)]
      ensures old(codePos) + 1 <= codePos <= old(codePos) + 2
    {
      hide Stored, Counted, TotalLen;
      ghost var buf0, pos0, flags0, left0 := codeBuf[..], codePos, flagsPos, numFlagsLeft;
      StoredFacts(buf0, codePos, flagsPos, numFlagsLeft, tokens);
      totalLzBytes := totalLzBytes + 1;
      codeBuf[codePos] := b;
      codePos := codePos + 1;
      NextFlag(Literal(b));
      lit.count[b] := lit.count[b] + 1;
      ghost var ts := tokens;
      tokens := tokens + [Literal(b)];
      assert codeBuf[pos0..pos0 + 1] == [b];
      StoreToken(buf0, pos0, flags0, left0, ts, Literal(b), codeBuf[..]);
      TotalSnoc(ts, Literal(b));
      CountedLiteral(old(lit.count[..]), dist.count[..], ts, b);
    }

    /** tdefl_record_match. */
    method RecordMatch(matchLen: nat, matchDist: nat)
      requires Valid() && codePos + 4 <= LZ_CODE_BUF_SIZE && ValidToken(Match(matchLen, matchDist))
      modifies this, codeBuf, lit.count, dist.count
      ensures Valid() && tokens == old(tokens) + [Match(matchLen, matchDist)]
      ensures old(codePos) + 3 <= codePos <= old(codePos) + 4
    {
      hide Stored, Counted, TotalLen, LenSym, DistSym, SmallDistSym, LargeDistSym;
      var t := Match(matchLen, matchDist);
      ghost var buf0, pos0, flags0, left0 := codeBuf[..], codePos, flagsPos, numFlagsLeft;
      StoredFacts(buf0, codePos, flagsPos, numFlagsLeft, tokens);
      totalLzBytes := totalLzBytes + matchLen;
      codeBuf[codePos] := matchLen - 3;
      var d := matchDist - 1;
      codeBuf[codePos + 1] := d % 256;
      codeBuf[codePos + 2] := d / 256;
      codePos := codePos + 3;
      NextFlag(t);
      var distSym := MatchDistSym(d);
      MatchSyms(matchLen, matchDist);
      dist.count[distSym] := dist.count[distSym] + 1;
      lit.count[LenSym(matchLen - 3)] := lit.count[LenSym(matchLen - 3)] + 1;
      ghost var ts := tokens;
      tokens := tokens + [t];
      assert codeBuf[pos0..pos0 + 3] == [matchLen - 3, d % 256, d / 256];
      StoreToken(buf0, pos0, flags0, left0, ts, t, codeBuf[..]);
      TotalSnoc(ts, t);
      CountedMatch(old(lit.count[..]), old(dist.count[..]), ts, matchLen, matchDist);
    }
  }

  /** `(match_dist < 512) ? s0 : s1` (src/http/miniz.c:2491-2492). */
  function MatchDistSym(d: nat): nat
    requires d < 32768
  {
    var s0, s1 := SmallDistSym(d % 512), LargeDistSym(d / 256 % 128);
    if d < 512 then s0 else s1
  }

  lemma MatchSyms(len: nat, dist: nat)
    requires ValidToken(Match(len, dist))
    ensures MatchDistSym(dist - 1) == DistSym(dist - 1) == DistSymOf(Match(len, dist)) < 30
    ensures LenSym(len - 3) == LitSymOf(Match(len, dist)) < 286
  {
    hide LenSym, SmallDistSym, LargeDistSym;
    var d := dist - 1;
    assert d / 256 % 128 == d / 256;
    assert d < 512 ==> d % 512 == d;
  }

  /** The counts are the frequencies of the recorded tokens' symbols. */
  ghost predicate Counted(lit: seq<nat>, dist: seq<nat>, ts: seq<Token>)
  {
    && |lit| == |dist| == MAX_SYMBOLS && AllValid(ts)
    && (forall s :: 0 <= s < |lit| ==> lit[s] == LitFreq(ts, s))
    && (forall s :: 0 <= s < |dist| ==> dist[s] == DistFreq(ts, s))
    && Sum(lit) == |ts| && Sum(dist) <= |ts|
  }

  lemma CountedLiteral(lit: seq<nat>, dist: seq<nat>, ts: seq<Token>, b: Byte)
    requires Counted(lit, dist, ts)
    ensures Counted(lit[b := lit[b] + 1], dist, ts + [Literal(b)])
  {
    assert (ts + [Literal(b)])[..|ts|] == ts;
    CountsSum(lit, b);
  }

  lemma CountedMatch(lit: seq<nat>, dist: seq<nat>, ts: seq<Token>, len: nat, d: nat)
    requires Counted(lit, dist, ts) && ValidToken(Match(len, d))
    ensures var ls, ds := LitSymOf(Match(len, d)), DistSymOf(Match(len, d));
            Counted(lit[ls := lit[ls] + 1], dist[ds := dist[ds] + 1], ts + [Match(len, d)])
  {
    hide LitSymOf, DistSymOf;
    assert (ts + [Match(len, d)])[..|ts|] == ts;
    CountsSum(lit, LitSymOf(Match(len, d)));
    CountsSum(dist, DistSymOf(Match(len, d)));
  }

  lemma TotalSnoc(ts: seq<Token>, t: Token)
    ensures TotalLen(ts + [t]) == TotalLen(ts) + TokenLen(t)
  {
    assert (ts + [t])[..|ts|] == ts;
  }

  lemma StoredFacts(buf: seq<Byte>, codePos: nat, flagsPos: nat, left: nat, ts: seq<Token>)
    requires Stored(buf, codePos, flagsPos, left, ts)
    ensures 1 <= left <= 8 && flagsPos < codePos && AllValid(ts)
  {
  }

  lemma {:induction false} SumOfZeros(s: seq<nat>)
    requires forall i :: 0 <= i < |s| ==> s[i] == 0
    ensures Sum(s) == 0
  {
    if s != [] {
      SumOfZeros(s[1..]);
    }
  }

  lemma NothingStored(buf: seq<Byte>, lit: seq<nat>, dist: seq<nat>)
    requires |buf| == LZ_CODE_BUF_SIZE && |lit| == |dist| == MAX_SYMBOLS
    requires forall i :: 0 <= i < MAX_SYMBOLS ==> lit[i] == dist[i] == 0
    ensures buf[0] / Pow2(8) == 0
    ensures Stored(buf, 1, 0, 8, []) && Counted(lit, dist, []) && TotalLen([]) == 0
  {
    EmptyGroup(buf[0]);
    SumOfZeros(lit);
    SumOfZeros(dist);
  }
}
