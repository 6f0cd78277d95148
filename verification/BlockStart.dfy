/** Setting up the tables of a block and writing its header (tdefl_start_dynamic_block and
    tdefl_start_static_block, src/http/miniz.c:1936-2013). */
module BlockStart {
  import opened Bits
  import opened CanonicalCode
  import opened MinRedundancy
  import opened LengthCounting
  import opened UsedSymbols
  import opened HuffTable
  import opened LzTokens
  import opened Blocks
  import opened BlockFormat
  import opened RunLength
  import opened BitWriter
  import opened LzBuffer
  import opened LzEmitter
  import Inflate

  // ---------- dropping the unused end of a table ----------

  predicate ZeroFrom(S: seq<nat>, n: nat)
  {
    n <= |S| && forall i :: n <= i < |S| ==> S[i] == 0
  }

  lemma TrimCounts(S: seq<nat>, n: nat)
    requires ZeroFrom(S, n)
    ensures forall l :: l >= 1 ==> CountLen(S[..n], l) == CountLen(S, l)
  {
    assert S == S[..n] + S[n..];
    forall l | l >= 1 ensures CountLen(S[..n], l) == CountLen(S, l) {
      CountLenAppend(S[..n], S[n..], l);
      CountLenNone(S[n..], l);
    }
  }

  lemma {:induction false} TrimNextCode(S: seq<nat>, n: nat, l: nat)
    requires ZeroFrom(S, n)
    ensures NextCode(S[..n], l) == NextCode(S, l)
  {
    if l > 1 {
      TrimNextCode(S, n, l - 1);
      TrimCounts(S, n);
    }
  }

  lemma {:induction false} TrimUsed(S: seq<nat>, n: nat)
    requires ZeroFrom(S, n)
    ensures Inflate.UsedSyms(S[..n]) == Inflate.UsedSyms(S)
  {
    if n < |S| {
      var T := S[..|S| - 1];
      TrimUsed(T, n);
      assert T[..n] == S[..n];
    } else {
      assert S[..n] == S;
    }
  }

  /** The decoder sees the same code in the trimmed table. */
  lemma TrimTable(S: seq<nat>, n: nat)
    requires ZeroFrom(S, n) && Fits(S, 15) && Inflate.Accepted(S)
    ensures Fits(S[..n], 15) && Inflate.Accepted(S[..n])
  {
    TrimNextCode(S, n, 16);
    TrimUsed(S, n);
  }

  lemma TrimCodeword(S: seq<nat>, n: nat, s: nat)
    requires ZeroFrom(S, n) && s < n
    ensures Codeword(S[..n], s) == Codeword(S, s)
  {
    TrimNextCode(S, n, S[s]);
    assert S[..n][..s] == S[..s];
  }

  lemma TrimToken(S0: seq<nat>, S1: seq<nat>, n: nat, m: nat, t: Token)
    requires ZeroFrom(S0, n) && ZeroFrom(S1, m) && Covered(S0, S1, t)
    ensures Covered(S0[..n], S1[..m], t) && TokenBits(S0[..n], S1[..m], t) == TokenBits(S0, S1, t)
  {
    hide Codeword, LenSym, DistSym;
    match t
    case Literal(b) => TrimCodeword(S0, n, b);
    case Match(len, d) =>
      TrimCodeword(S0, n, LenSym(len - 3));
      TrimCodeword(S1, m, DistSym(d - 1));
  }

  lemma {:induction false} TrimTokens(S0: seq<nat>, S1: seq<nat>, n: nat, m: nat, ts: seq<Token>)
    requires ZeroFrom(S0, n) && ZeroFrom(S1, m) && AllCovered(S0, S1, ts)
    ensures AllCovered(S0[..n], S1[..m], ts) && TokensBits(S0[..n], S1[..m], ts) == TokensBits(S0, S1, ts)
  {
    hide Covered, TokenBits;
    if ts != [] {
      TrimToken(S0, S1, n, m, ts[0]);
      TrimTokens(S0, S1, n, m, ts[1..]);
      forall i | 0 <= i < |ts| ensures Covered(S0[..n], S1[..m], ts[i]) {
        if i > 0 { assert ts[i] == ts[1..][i - 1]; }
      }
    }
  }

  lemma TrimCodes(S0: seq<nat>, S1: seq<nat>, n: nat, m: nat, ts: seq<Token>)
    requires ZeroFrom(S0, n) && ZeroFrom(S1, m) && AllCovered(S0, S1, ts) && n > 256
    ensures AllCovered(S0[..n], S1[..m], ts) && CodesBits(S0[..n], S1[..m], ts) == CodesBits(S0, S1, ts)
  {
    TrimTokens(S0, S1, n, m, ts);
    TrimCodeword(S0, n, 256);
  }

  // ---------- the tables of a dynamic block ----------

  /** Frequencies of a block with its end-of-block symbol. */
  lemma BlockFrequencies(lit: seq<nat>, dist: seq<nat>, ts: seq<Token>)
    requires Counted(lit, dist, ts) && |ts| < 0xFFFF
    ensures lit[256] == 0
    ensures Frequencies(lit[256 := 1], 15) && Frequencies(dist[..32], 15)
    ensures forall i :: 286 <= i < 288 ==> lit[i] == 0
    ensures forall i :: 30 <= i < 288 ==> dist[i] == 0
  {
    forall s | s == 256 || 286 <= s < 288 ensures LitFreq(ts, s) == 0 { NoLiteral(ts, s); }
    forall s | 30 <= s < 288 ensures DistFreq(ts, s) == 0 { NoDistance(ts, s); }
    SumAdd(lit, 256, 1);
    assert dist == dist[..32] + dist[32..];
    SumSplit(dist[..32], dist[32..]);
    UsedBound(lit[256 := 1]);
    UsedBound(dist[..32]);
    Pow2Values();
  }

  lemma {:induction false} NoLiteral(ts: seq<Token>, s: nat)
    requires AllValid(ts) && (s == 256 || s >= 286)
    ensures LitFreq(ts, s) == 0
  {
    if ts != [] {
      NoLiteral(ts[..|ts| - 1], s);
      LiteralRange(ts[|ts| - 1]);
    }
  }

  lemma LiteralRange(t: Token)
    requires ValidToken(t)
    ensures LitSymOf(t) != 256 && LitSymOf(t) < 286
  {
    hide LenSym;
    if t.Match? { LengthTables(t.len - 3); }
  }

  lemma {:induction false} NoDistance(ts: seq<Token>, s: nat)
    requires AllValid(ts) && s >= 30
    ensures DistFreq(ts, s) == 0
  {
    hide DistSymOf;
    if ts != [] {
      NoDistance(ts[..|ts| - 1], s);
    }
  }

  /** Everything recorded has a code in tables made from its frequencies. */
  lemma FrequenciesCover(lit: seq<nat>, dist: seq<nat>, ts: seq<Token>, S0: seq<nat>, S1: seq<nat>)
    requires Counted(lit, dist, ts)
    requires Optimized(lit[256 := 1], S0, 15) && Optimized(dist[..32], S1, 15)
    ensures |S0| == 288 && |S1| == 32 && AllCovered(S0, S1, ts) && S0[256] > 0
  {
    hide LitFreq, DistFreq, LenSym, DistSym, CountLen, NextCode;
    forall i | 0 <= i < |ts|
      ensures Covered(S0, S1, ts[i])
    {
      FreqPositive(ts, i);
      LiteralRange(ts[i]);
      SymbolsOfToken(ts[i]);
      assert lit[LitSymOf(ts[i])] > 0;
      if ts[i].Match? { assert dist[DistSymOf(ts[i])] > 0; }
    }
  }

  lemma SymbolsOfToken(t: Token)
    requires ValidToken(t)
    ensures t.Match? ==> LitSymOf(t) == LenSym(t.len - 3) && DistSymOf(t) == DistSym(t.dist - 1) < 30
    ensures t.Literal? ==> LitSymOf(t) == t.b
  {
    hide LenSym, DistSym;
  }

  /** The literal and distance tables of a block, made from its frequencies. */
  ghost predicate DynamicTables(S0: seq<nat>, S1: seq<nat>)
  {
    && |S0| == LIT_SYMBOLS && |S1| == DIST_SYMBOLS
    && ZeroFrom(S0, 286) && ZeroFrom(S1, 30) && S0[256] > 0
    && Fits(S0, 15) && Inflate.Accepted(S0) && Fits(S1, 15) && Inflate.Accepted(S1)
  }

  lemma TablesFromFrequencies(lit: seq<nat>, dist: seq<nat>, ts: seq<Token>, S0: seq<nat>, S1: seq<nat>)
    requires Counted(lit, dist, ts) && |ts| < 0xFFFF
    requires Optimized(lit[256 := 1], S0, 15) && Optimized(dist[..32], S1, 15)
    ensures DynamicTables(S0, S1) && AllCovered(S0, S1, ts)
  {
    hide Counted, AllCovered;
    CountedShape(lit, dist, ts);
    FrequenciesCover(lit, dist, ts, S0, S1);
    BlockFrequencies(lit, dist, ts);
    OptimizedTable(lit[256 := 1], S0, 15);
    OptimizedTable(dist[..32], S1, 15);
    UnusedZero(lit[256 := 1], S0, 15, 286);
    UnusedZero(dist[..32], S1, 15, 30);
  }

  lemma CountedShape(lit: seq<nat>, dist: seq<nat>, ts: seq<Token>)
    requires Counted(lit, dist, ts)
    ensures |lit| == |dist| == MAX_SYMBOLS
  {
  }

  lemma UnusedZero(count: seq<nat>, S: seq<nat>, limit: nat, n: nat)
    requires Optimized(count, S, limit) && n <= |count| && forall i :: n <= i < |count| ==> count[i] == 0
    ensures ZeroFrom(S, n)
  {
    hide Complete;
  }

  /** How often each symbol occurs in a block, with its end-of-block symbol. */
  ghost function LitCounts(ts: seq<Token>): (c: seq<nat>)
    requires AllValid(ts)
    ensures |c| == LIT_SYMBOLS && forall s :: 0 <= s < |c| ==> c[s] == LitFreq(ts, s)
  {
    seq(LIT_SYMBOLS, s requires 0 <= s => LitFreq(ts, s))
  }

  ghost function DistCounts(ts: seq<Token>): (c: seq<nat>)
    requires AllValid(ts)
    ensures |c| == DIST_SYMBOLS && forall s :: 0 <= s < |c| ==> c[s] == DistFreq(ts, s)
  {
    seq(DIST_SYMBOLS, s requires 0 <= s => DistFreq(ts, s))
  }

  /** Both tables are nearly the best for the block. */
  ghost predicate NearBest(ts: seq<Token>, S0: seq<nat>, S1: seq<nat>)
  {
    AllValid(ts) && NearOptimal(LitCounts(ts)[256 := 1], S0) && NearOptimal(DistCounts(ts), S1)
  }

  lemma CountsAre(lit: seq<nat>, dist: seq<nat>, ts: seq<Token>)
    requires Counted(lit, dist, ts)
    ensures AllValid(ts) && lit[256 := 1] == LitCounts(ts)[256 := 1] && dist[..32] == DistCounts(ts)
  {
  }

  /** The first two calls of tdefl_start_dynamic_block (src/http/miniz.c:1941-1944). */
  method BuildTables(c: LzCodes)
    requires c.Shaped() && Counted(c.lit.count[..], c.dist.count[..], c.tokens) && |c.tokens| < 0xFFFF
    modifies c.lit.count, c.lit.sizes, c.lit.codes, c.dist.sizes, c.dist.codes
    ensures Ready(c, c.tokens)
    ensures DynamicTables(c.lit.sizes[..LIT_SYMBOLS], c.dist.sizes[..DIST_SYMBOLS])
    ensures NearBest(c.tokens, c.lit.sizes[..LIT_SYMBOLS], c.dist.sizes[..DIST_SYMBOLS])
  {
    hide Counted, Stored, Optimized, Frequencies, AllCovered, TotalLen, NearOptimal;
    ghost var lit, dist := c.lit.count[..], c.dist.count[..];
    CountedShape(lit, dist, c.tokens);
    BlockFrequencies(lit, dist, c.tokens);
    assert dist[..32] == c.dist.count[..32];
    c.lit.count[256] := 1;
    assert c.lit.count[..LIT_SYMBOLS] == lit[256 := 1];
    OptimizeHuffmanTable(c.lit, LIT_SYMBOLS, 15);
    OptimizeHuffmanTable(c.dist, DIST_SYMBOLS, 15);
    ghost var S0, S1 := c.lit.sizes[..LIT_SYMBOLS], c.dist.sizes[..DIST_SYMBOLS];
    TablesFromFrequencies(lit, dist, c.tokens, S0, S1);
    TableIsReady(S0, c.lit.codes[..]);
    TableIsReady(S1, c.dist.codes[..]);
    CountsAre(lit, dist, c.tokens);
  }

  lemma TableIsReady(S: seq<nat>, codes: seq<nat>)
    requires CodesMatch(S, codes) && Fits(S, 15)
    ensures TableReady(S, codes)
  {
  }

  /** The loops that drop unused codes at the end (src/http/miniz.c:1946-1947). */
  method UsedEnd(sizes: array<nat>, most: nat, least: nat) returns (n: nat)
    requires 1 <= least <= most <= sizes.Length
    ensures least <= n <= most && (forall i :: n <= i < most ==> sizes[i] == 0) && (n > least ==> sizes[n - 1] != 0)
  {
    n := most;
    while n > least
      invariant least <= n <= most && forall i :: n <= i < most ==> sizes[i] == 0
    {
      if sizes[n - 1] != 0 { break; }
      n := n - 1;
    }
  }

  // ---------- writing the header ----------

  method PutClSizes(cl: HuffmanTable, w: Writer, n: nat)
    requires cl.Shaped() && w.Valid() && n <= 19 && forall s :: 0 <= s < 19 ==> cl.sizes[s] < 8
    modifies w, w.buf
    ensures w.Valid() && w.end == old(w.end) && w.stream == old(w.stream) + ClBits(cl.sizes[..19], 0, n)
    ensures old(w.len) <= w.len <= w.buf.Length && forall i :: 0 <= i < old(w.len) ==> w.buf[i] == old(w.buf[i])
  {
    hide Holds, ToBits;
    ghost var S := cl.sizes[..19];
    var i := 0;
    WriterBounds(w);
    while i < n
      invariant 0 <= i <= n && w.Valid() && w.end == old(w.end)
      invariant w.stream + ClBits(S, i, n) == old(w.stream) + ClBits(S, 0, n)
      invariant old(w.len) <= w.len <= w.buf.Length && forall k :: 0 <= k < old(w.len) ==> w.buf[k] == old(w.buf[k])
    {
      Pow2Values();
      ghost var s := w.stream;
      w.PutBits(cl.sizes[Inflate.Dezigzag(i)], 3);
      assert s + ClBits(S, i, n) == w.stream + ClBits(S, i + 1, n);
      i := i + 1;
    }
    assert w.stream + [] == w.stream;
  }

  lemma WriterBounds(w: Writer)
    requires w.Valid()
    ensures w.len <= w.buf.Length
  {
  }

  /** `"\02\03\07"[code - 16]` extra bits after the code (src/http/miniz.c:1990-1995). */
  method PutPacked(cl: HuffmanTable, w: Writer, packed: array<nat>, n: nat)
    requires cl.Shaped() && w.Valid() && n <= packed.Length
    requires TableReady(cl.sizes[..19], cl.codes[..]) && HasCodes(cl.sizes[..19], packed[..n]) && WellFormed([], packed[..n])
    modifies w, w.buf
    ensures w.Valid() && w.end == old(w.end) && w.stream == old(w.stream) + PackedBits(cl.sizes[..19], packed[..n])
    ensures old(w.len) <= w.len <= w.buf.Length && forall i :: 0 <= i < old(w.len) ==> w.buf[i] == old(w.buf[i])
  {
    hide Holds, ToBits, TableReady, Codeword, HasCodes, WellFormed, PackedBits;
    ghost var S, P := cl.sizes[..19], packed[..n];
    ghost var acc := [];
    var i := 0;
    assert packed[0..n] == P;
    WriterBounds(w);
    while i < n
      invariant 0 <= i <= n && w.Valid() && w.end == old(w.end)
      invariant HasCodes(S, packed[i..n]) && WellFormed(acc, packed[i..n])
      invariant w.stream + PackedBits(S, packed[i..n]) == old(w.stream) + PackedBits(S, P)
      invariant old(w.len) <= w.len <= w.buf.Length && forall k :: 0 <= k < old(w.len) ==> w.buf[k] == old(w.buf[k])
    {
      ghost var rest, s := packed[i..n], w.stream;
      PackedStep(S, acc, rest);
      var code := packed[i];
      PutSymbol(w, cl, 19, code);
      i := i + 1;
      if code >= 16 {
        w.PutBits(packed[i], Inflate.RepeatExtra(code));
        i := i + 1;
        acc := acc + Run(acc, rest[0], rest[1]);
        assert packed[i..n] == rest[2..];
      } else {
        acc := acc + [rest[0]];
        assert packed[i..n] == rest[1..];
      }
      assert s + PackedBits(S, rest) == w.stream + PackedBits(S, packed[i..n]);
    }
    PackedNone(S, packed[i..n]);
    assert w.stream + [] == w.stream;
  }

  lemma PackedNone(S: seq<nat>, rest: seq<nat>)
    requires rest == []
    ensures HasCodes(S, rest) && PackedBits(S, rest) == []
  {
  }

  lemma PackedStep(S: seq<nat>, acc: seq<nat>, rest: seq<nat>)
    requires rest != [] && HasCodes(S, rest) && WellFormed(acc, rest)
    ensures rest[0] < |S| && S[rest[0]] > 0 && rest[0] < 19
    ensures rest[0] < 16 ==> HasCodes(S, rest[1..]) && WellFormed(acc + [rest[0]], rest[1..])
                             && PackedBits(S, rest) == Codeword(S, rest[0]) + PackedBits(S, rest[1..])
    ensures rest[0] >= 16 ==> |rest| >= 2 && rest[1] < Pow2(Inflate.RepeatExtra(rest[0])) && Inflate.RepeatExtra(rest[0]) <= 7
                              && (rest[0] == 16 ==> acc != [])
                              && HasCodes(S, rest[2..]) && WellFormed(acc + Run(acc, rest[0], rest[1]), rest[2..])
                              && PackedBits(S, rest) == Codeword(S, rest[0]) + ToBits(rest[1], Inflate.RepeatExtra(rest[0])) + PackedBits(S, rest[2..])
  {
    hide Codeword, ToBits, Run;
  }

  // ---------- the two ways to start a block ----------

  /** The header that describes the tables set up in c and cl. */
  ghost predicate Describes(h: Header, S0: seq<nat>, S1: seq<nat>)
  {
    && ValidHeader(h) && |h.lit| <= |S0| && |h.dist| <= |S1|
    && h.lit == S0[..|h.lit|] && h.dist == S1[..|h.dist|] && ZeroFrom(S0, |h.lit|) && ZeroFrom(S1, |h.dist|)
  }

  /** No more code lengths are sent than have to be, and the packed form is the one of RunLength.Packed. */
  ghost predicate Compact(h: Header)
    requires ValidHeader(h)
  {
    && (|h.lit| > 257 ==> h.lit[|h.lit| - 1] != 0) && (|h.dist| > 1 ==> h.dist[|h.dist| - 1] != 0)
    && (h.clSent > 4 ==> h.cl[Inflate.Dezigzag(h.clSent - 1)] != 0) && h.packed == Packed(h.lit + h.dist, 0xFF)
  }

  lemma MakeHeader(S0: seq<nat>, S1: seq<nat>, n: nat, m: nat, cl: seq<nat>, count: seq<nat>, k: nat, packed: seq<nat>)
    requires DynamicTables(S0, S1) && 257 <= n <= 286 && 1 <= m <= 30
    requires forall i :: n <= i < 286 ==> S0[i] == 0
    requires forall i :: m <= i < 30 ==> S1[i] == 0
    requires |count| == 19 && Optimized(count, cl, 7) && 4 <= k <= 19 && forall i :: k <= i < 19 ==> cl[Inflate.Dezigzag(i)] == 0
    requires WellFormed([], packed) && HasCodes(count, packed) && Unpack([], packed) == S0[..n] + S1[..m]
    ensures Describes(Header(S0[..n], S1[..m], cl, k, packed), S0, S1)
  {
    hide Unpack, WellFormed, HasCodes, Fits, Inflate.Accepted;
    TrimTable(S0, n);
    TrimTable(S1, m);
    OptimizedTable(count, cl, 7);
    HasCodesMono(count, cl, packed);
    assert S0[..n][256] == S0[256];
  }

  /** The packed code lengths, and the code for them (src/http/miniz.c:1949-1979). */
  method PackTables(c: LzCodes, cl: HuffmanTable, numLitCodes: nat, numDistCodes: nat, ghost S0: seq<nat>, ghost S1: seq<nat>)
    returns (packed: array<nat>, numPacked: nat)
    requires c.Shaped() && cl.Shaped() && numLitCodes <= 286 && numDistCodes <= 30 && DynamicTables(S0, S1)
    requires S0 == c.lit.sizes[..LIT_SYMBOLS] && S1 == c.dist.sizes[..DIST_SYMBOLS]
    requires {cl.count, cl.sizes, cl.codes} !! {c.lit.sizes, c.dist.sizes}
    modifies cl.count, cl.sizes, cl.codes
    ensures fresh(packed) && numPacked <= packed.Length
    ensures Optimized(cl.count[..19], cl.sizes[..19], 7) && TableReady(cl.sizes[..19], cl.codes[..])
    ensures forall s :: 0 <= s < 19 ==> cl.sizes[s] < 8
    ensures WellFormed([], packed[..numPacked]) && HasCodes(cl.count[..19], packed[..numPacked])
    ensures Unpack([], packed[..numPacked]) == S0[..numLitCodes] + S1[..numDistCodes]
    ensures packed[..numPacked] == Packed(S0[..numLitCodes] + S1[..numDistCodes], 0xFF)
  {
    hide Optimized, HasCodes, WellFormed, Unpack, CodesMatch, DynamicTables, TableReady, Packed;
    packed := new nat[LIT_SYMBOLS + DIST_SYMBOLS](i => 0);
    var codeSizes := c.lit.sizes[..numLitCodes] + c.dist.sizes[..numDistCodes];
    assert codeSizes == S0[..numLitCodes] + S1[..numDistCodes];
    LengthsBelow16(S0, S1, numLitCodes, numDistCodes);
    numPacked := PackCodeSizes(codeSizes, packed, cl.count);
    PackedFrequencies(packed[..numPacked], cl.count[..]);
    assert cl.count[..][..19] == cl.count[..19];
    OptimizeHuffmanTable(cl, 19, 7);
    ClTable(cl.count[..19], cl.sizes[..19], cl.codes[..]);
    assert forall s :: 0 <= s < 19 ==> cl.sizes[..19][s] == cl.sizes[s];
  }

  /** tdefl_start_dynamic_block. */
  method StartDynamicBlock(c: LzCodes, cl: HuffmanTable, w: Writer) returns (ghost h: Header)
    requires c.Shaped() && Counted(c.lit.count[..], c.dist.count[..], c.tokens) && |c.tokens| < 0xFFFF
    requires cl.Shaped() && w.Valid() && w.buf != c.codeBuf
    requires {cl.count, cl.sizes, cl.codes} !! {c.lit.count, c.lit.sizes, c.lit.codes, c.dist.count, c.dist.sizes, c.dist.codes}
    modifies c.lit.count, c.lit.sizes, c.lit.codes, c.dist.sizes, c.dist.codes, cl.count, cl.sizes, cl.codes, w, w.buf
    ensures Ready(c, c.tokens)
    ensures Describes(h, c.lit.sizes[..LIT_SYMBOLS], c.dist.sizes[..DIST_SYMBOLS]) && ValidHeader(h) && Compact(h)
    ensures NearBest(c.tokens, c.lit.sizes[..LIT_SYMBOLS], c.dist.sizes[..DIST_SYMBOLS])
    ensures w.Valid() && w.end == old(w.end) && w.stream == old(w.stream) + (ToBits(2, 2) + HeaderBits(h))
    ensures old(w.len) <= w.len <= w.buf.Length && forall k :: 0 <= k < old(w.len) ==> w.buf[k] == old(w.buf[k])
  {
    hide Ready, Describes, Holds, HeaderBits, DynamicTables, Optimized, HasCodes, WellFormed, Unpack, ToBits, CodesMatch, Stored, Counted, TotalLen, NearBest, Compact, ValidHeader, Packed;
    hide TableReady;
    BuildTables(c);
    ghost var S0, S1 := c.lit.sizes[..LIT_SYMBOLS], c.dist.sizes[..DIST_SYMBOLS];
    var numLitCodes := UsedEnd(c.lit.sizes, 286, 257);
    var numDistCodes := UsedEnd(c.dist.sizes, 30, 1);
    var packed, numPacked := PackTables(c, cl, numLitCodes, numDistCodes, S0, S1);
    WriterBounds(w);
    h := PutHeader(c, cl, w, numLitCodes, numDistCodes, packed, numPacked, S0, S1);
    assert c.lit.sizes[..LIT_SYMBOLS] == S0 && c.dist.sizes[..DIST_SYMBOLS] == S1;
  }

  lemma LengthsBelow16(S0: seq<nat>, S1: seq<nat>, n: nat, m: nat)
    requires DynamicTables(S0, S1) && n <= |S0| && m <= |S1|
    ensures forall i :: 0 <= i < n + m ==> (S0[..n] + S1[..m])[i] < 16
  {
  }

  lemma PackedFrequencies(packed: seq<nat>, count: seq<nat>)
    requires PackedSoFar(packed, count) && |packed| <= 320
    ensures Frequencies(count[..19], 7) && WellFormed([], packed) && HasCodes(count[..19], packed)
  {
    UsedBound(count[..19]);
    Pow2Values();
  }

  lemma ClTable(count: seq<nat>, sizes: seq<nat>, codes: seq<nat>)
    requires Optimized(count, sizes, 7) && CodesMatch(sizes, codes) && |count| == 19
    ensures |sizes| == 19 && TableReady(sizes, codes) && forall s :: 0 <= s < 19 ==> sizes[s] < 8
  {
  }

  /** The fields of the header, in order (src/http/miniz.c:1981-1995). */
  method PutHeader(c: LzCodes, cl: HuffmanTable, w: Writer, numLitCodes: nat, numDistCodes: nat, packed: array<nat>, numPacked: nat,
                   ghost S0: seq<nat>, ghost S1: seq<nat>)
    returns (ghost h: Header)
    requires cl.Shaped() && w.Valid() && DynamicTables(S0, S1) && 257 <= numLitCodes <= 286 && 1 <= numDistCodes <= 30
    requires forall i :: numLitCodes <= i < 286 ==> S0[i] == 0
    requires forall i :: numDistCodes <= i < 30 ==> S1[i] == 0
    requires numPacked <= packed.Length && Optimized(cl.count[..19], cl.sizes[..19], 7) && TableReady(cl.sizes[..19], cl.codes[..])
    requires forall s :: 0 <= s < 19 ==> cl.sizes[s] < 8
    requires WellFormed([], packed[..numPacked]) && HasCodes(cl.count[..19], packed[..numPacked])
    requires Unpack([], packed[..numPacked]) == S0[..numLitCodes] + S1[..numDistCodes]
    requires packed[..numPacked] == Packed(S0[..numLitCodes] + S1[..numDistCodes], 0xFF)
    requires (numLitCodes > 257 ==> S0[numLitCodes - 1] != 0) && (numDistCodes > 1 ==> S1[numDistCodes - 1] != 0)
    modifies w, w.buf
    ensures Describes(h, S0, S1) && ValidHeader(h) && Compact(h)
    ensures w.Valid() && w.end == old(w.end) && w.stream == old(w.stream) + (ToBits(2, 2) + HeaderBits(h))
    ensures old(w.len) <= w.len <= w.buf.Length && forall k :: 0 <= k < old(w.len) ==> w.buf[k] == old(w.buf[k])
  {
    hide Describes, Holds, DynamicTables, Optimized, HasCodes, WellFormed, Unpack, ToBits, TableReady, ValidHeader, ClBits, PackedBits, Packed;
    ghost var s := w.stream;
    TablesShape(S0, S1);
    Pow2Values();
    w.PutBits(2, 2);
    w.PutBits(numLitCodes - 257, 5);
    w.PutBits(numDistCodes - 1, 5);
    var numBitLengths := LastSent(cl);
    w.PutBits(numBitLengths - 4, 4);
    h := Header(S0[..numLitCodes], S1[..numDistCodes], cl.sizes[..19], numBitLengths, packed[..numPacked]);
    MakeHeader(S0, S1, numLitCodes, numDistCodes, cl.sizes[..19], cl.count[..19], numBitLengths, packed[..numPacked]);
    DescribesValid(h, S0, S1);
    PutClSizes(cl, w, numBitLengths);
    PutPacked(cl, w, packed, numPacked);
    SixFields(s, ToBits(2, 2), ToBits(numLitCodes - 257, 5), ToBits(numDistCodes - 1, 5), ToBits(numBitLengths - 4, 4),
              ClBits(h.cl, 0, h.clSent), PackedBits(h.cl, h.packed));
  }

  lemma SixFields(s: seq<bool>, a: seq<bool>, b: seq<bool>, c: seq<bool>, d: seq<bool>, e: seq<bool>, f: seq<bool>)
    ensures s + a + b + c + d + e + f == s + (a + (b + (c + (d + (e + f)))))
  {
  }

  lemma TablesShape(S0: seq<nat>, S1: seq<nat>)
    requires DynamicTables(S0, S1)
    ensures |S0| == LIT_SYMBOLS && |S1| == DIST_SYMBOLS
  {
  }

  lemma DescribesValid(h: Header, S0: seq<nat>, S1: seq<nat>)
    requires Describes(h, S0, S1)
    ensures ValidHeader(h) && |h.cl| == 19 && h.clSent <= 19 && HasCodes(h.cl, h.packed)
  {
  }

  /** How many code length code lengths are sent (src/http/miniz.c:1986-1987). */
  method LastSent(cl: HuffmanTable) returns (n: nat)
    requires cl.Shaped()
    ensures 4 <= n <= 19 && (forall i :: n <= i < 19 ==> cl.sizes[Inflate.Dezigzag(i)] == 0) && (n > 4 ==> cl.sizes[Inflate.Dezigzag(n - 1)] != 0)
  {
    var k := 18;
    while k >= 0
      invariant -1 <= k <= 18 && forall i :: k < i < 19 ==> cl.sizes[Inflate.Dezigzag(i)] == 0
    {
      if cl.sizes[Inflate.Dezigzag(k)] != 0 { break; }
      k := k - 1;
    }
    n := if k + 1 >= 4 then k + 1 else 4;
  }

  /** num_codes over a fixed table (src/http/miniz.c:1876). */
  method CountSizes(sizes: array<nat>, n: nat) returns (num: array<int>)
    requires n <= sizes.Length && forall i :: 0 <= i < n ==> sizes[i] <= 32
    ensures fresh(num) && LengthCounts(num[..], sizes[..n])
  {
    hide CountLen;
    num := new int[33](i => 0);
    forall l | 0 <= l < 33 ensures CountLen([], l) == 0 { CountLenNone([], l); }
    assert sizes[..0] == [];
    var i := 0;
    while i < n
      invariant 0 <= i <= n && num.Length == 33 && LengthCounts(num[..], sizes[..i])
    {
      CountsSnoc(num[..], sizes[..i], sizes[i]);
      assert sizes[..i + 1] == sizes[..i] + [sizes[i]];
      num[sizes[i]] := num[sizes[i]] + 1;
      i := i + 1;
    }
  }

  /** tdefl_optimize_huffman_table with static_table true: codes for given lengths. */
  method StaticHuffmanTable(t: HuffmanTable, tableLen: nat)
    requires t.Shaped() && tableLen <= MAX_SYMBOLS && forall i :: 0 <= i < tableLen ==> t.sizes[i] <= 15
    modifies t.codes
    ensures CodesMatch(t.sizes[..tableLen], t.codes[..])
  {
    hide CountLen, CodesMatch;
    var num := CountSizes(t.sizes, tableLen);
    AssignCodes(t, tableLen, num[..], 15);
  }

  lemma StaticCovers(ts: seq<Token>)
    requires AllValid(ts)
    ensures AllCovered(Inflate.StaticLit(), Inflate.StaticDist(), ts) && Inflate.StaticLit()[256] > 0
  {
    hide LenSym, DistSym;
    forall i | 0 <= i < |ts| ensures Covered(Inflate.StaticLit(), Inflate.StaticDist(), ts[i]) {
      var t := ts[i];
      assert ValidToken(t);
      SymbolsOfToken(t);
    }
  }

  /** tdefl_start_static_block. */
  method StartStaticBlock(c: LzCodes, w: Writer)
    requires c.Shaped() && AllValid(c.tokens) && w.Valid() && w.buf != c.codeBuf
    modifies c.lit.sizes, c.lit.codes, c.dist.sizes, c.dist.codes, w, w.buf
    ensures Ready(c, c.tokens)
    ensures c.lit.sizes[..LIT_SYMBOLS] == Inflate.StaticLit() && c.dist.sizes[..DIST_SYMBOLS] == Inflate.StaticDist()
    ensures w.Valid() && w.end == old(w.end) && w.stream == old(w.stream) + ToBits(1, 2)
    ensures old(w.len) <= w.len <= w.buf.Length && forall k :: 0 <= k < old(w.len) ==> w.buf[k] == old(w.buf[k])
  {
    hide CodesMatch, Holds, ToBits, AllCovered;
    forall i | 0 <= i < 288 { c.lit.sizes[i] := if i <= 143 then 8 else if i <= 255 then 9 else if i <= 279 then 7 else 8; }
    forall i | 0 <= i < 32 { c.dist.sizes[i] := 5; }
    assert c.lit.sizes[..LIT_SYMBOLS] == Inflate.StaticLit();
    assert c.dist.sizes[..DIST_SYMBOLS] == Inflate.StaticDist();
    StaticHuffmanTable(c.lit, LIT_SYMBOLS);
    StaticHuffmanTable(c.dist, DIST_SYMBOLS);
    StaticCovers(c.tokens);
    Pow2Values();
    w.PutBits(1, 2);
  }
}
