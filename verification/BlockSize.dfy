/** How large a block with codes of its own gets: always small enough for the output buffer. The source
    calls the other case extremely unlikely, if not impossible (src/http/miniz.c:2208); it is impossible. */
module BlockSize {
  import opened Bits
  import opened CanonicalCode
  import opened MinRedundancy
  import opened MinRedundancyOptimal
  import opened LimitLoss
  import opened UsedSymbols
  import opened HuffTable
  import opened LzTokens
  import opened LzBuffer
  import opened LzEmitter
  import opened Blocks
  import opened RunLength
  import opened BlockFormat
  import opened BlockStart
  import Inflate

  // ---------- tokens, symbol by symbol ----------

  /** The bits of one token, with code lengths a and b for its symbols. */
  function TokenSize(t: Token, a: seq<nat>, b: seq<nat>): nat
    requires ValidToken(t) && |a| == LIT_SYMBOLS && |b| == DIST_SYMBOLS
  {
    a[LitSymOf(t)] + if t.Match? then LenExtra(t.len - 3) + b[DistSymOf(t)] + DistExtraOf(t.dist - 1) else 0
  }

  function ExtraSize(t: Token): nat
    requires ValidToken(t)
  {
    if t.Match? then LenExtra(t.len - 3) + DistExtraOf(t.dist - 1) else 0
  }

  function TokensSize(ts: seq<Token>, a: seq<nat>, b: seq<nat>): nat
    requires AllValid(ts) && |a| == LIT_SYMBOLS && |b| == DIST_SYMBOLS
  {
    if ts == [] then 0 else TokensSize(ts[..|ts| - 1], a, b) + TokenSize(ts[|ts| - 1], a, b)
  }

  function ExtrasSize(ts: seq<Token>): nat
    requires AllValid(ts)
  {
    if ts == [] then 0 else ExtrasSize(ts[..|ts| - 1]) + ExtraSize(ts[|ts| - 1])
  }

  lemma BitsOfToken(t: Token, S0: seq<nat>, S1: seq<nat>)
    requires Covered(S0, S1, t) && |S0| == LIT_SYMBOLS && |S1| == DIST_SYMBOLS
    ensures |TokenBits(S0, S1, t)| == TokenSize(t, S0, S1)
  {
    hide LenSym, DistSym, LenExtra, DistExtraOf;
    SymbolsOfToken(t);
  }

  lemma {:induction false} BitsOfTokens(ts: seq<Token>, S0: seq<nat>, S1: seq<nat>)
    requires AllCovered(S0, S1, ts) && AllValid(ts) && |S0| == LIT_SYMBOLS && |S1| == DIST_SYMBOLS
    ensures |TokensBits(S0, S1, ts)| == TokensSize(ts, S0, S1)
  {
    hide TokenBits, Covered, TokenSize, ValidToken;
    if ts != [] {
      var t := ts[|ts| - 1];
      BitsOfTokens(ts[..|ts| - 1], S0, S1);
      TokensBitsSnoc(S0, S1, ts[..|ts| - 1], t);
      assert ts == ts[..|ts| - 1] + [t];
      BitsOfToken(t, S0, S1);
    }
  }

  lemma CountsSnocLit(ts: seq<Token>)
    requires AllValid(ts) && ts != []
    ensures var r, s := ts[..|ts| - 1], LitSymOf(ts[|ts| - 1]);
            s < 286 && LitCounts(ts) == LitCounts(r)[s := LitCounts(r)[s] + 1]
  {
    hide LitSymOf;
  }

  lemma CountsSnocDist(ts: seq<Token>)
    requires AllValid(ts) && ts != []
    ensures var r, t := ts[..|ts| - 1], ts[|ts| - 1];
            DistCounts(ts) == if t.Match? then DistCounts(r)[DistSymOf(t) := DistCounts(r)[DistSymOf(t)] + 1] else DistCounts(r)
  {
    hide DistSymOf;
  }

  lemma OneMoreCost(ws: seq<nat>, ls: seq<nat>, s: nat)
    requires |ws| == |ls| && s < |ws|
    ensures Cost(ws[s := ws[s] + 1], ls) == Cost(ws, ls) + ls[s]
  {
    hide Cost;
    CostUpdate(ws, ls, s, ws[s] + 1, ls[s]);
    assert ls[s := ls[s]] == ls;
    assert (ws[s] + 1) * ls[s] == ws[s] * ls[s] + ls[s];
  }

  /** The size of the tokens is the cost of both codes, and the extra bits. */
  lemma {:induction false} TokensCost(ts: seq<Token>, a: seq<nat>, b: seq<nat>)
    requires AllValid(ts) && |a| == LIT_SYMBOLS && |b| == DIST_SYMBOLS
    ensures TokensSize(ts, a, b) == Cost(LitCounts(ts), a) + Cost(DistCounts(ts), b) + ExtrasSize(ts)
  {
    hide Cost, LitSymOf, DistSymOf, LenExtra, DistExtraOf;
    if ts == [] {
      NoCost(LitCounts(ts), a);
      NoCost(DistCounts(ts), b);
    } else {
      var r, t := ts[..|ts| - 1], ts[|ts| - 1];
      TokensCost(r, a, b);
      CountsSnocLit(ts);
      CountsSnocDist(ts);
      OneMoreCost(LitCounts(r), a, LitSymOf(t));
      if t.Match? { OneMoreCost(DistCounts(r), b, DistSymOf(t)); }
    }
  }

  lemma {:induction false} NoCost(ws: seq<nat>, ls: seq<nat>)
    requires |ws| == |ls| && forall i :: 0 <= i < |ws| ==> ws[i] == 0
    ensures Cost(ws, ls) == 0
  {
    if ws != [] {
      NoCost(ws[1..], ls[1..]);
    }
  }

  // ---------- a fixed code to compare with ----------

  /** 9 bits for a literal, 6 for a length or the end, 5 for a distance. */
  function PlainLit(): (s: seq<nat>)
    ensures |s| == LIT_SYMBOLS
  {
    Inflate.Fill(9, 256) + Inflate.Fill(6, 32)
  }

  function PlainDist(): (s: seq<nat>)
    ensures |s| == DIST_SYMBOLS
  {
    Inflate.Fill(5, 32)
  }

  lemma {:induction false} KraftFill(v: nat, n: nat, max: nat)
    requires v <= max
    ensures Kraft(Inflate.Fill(v, n), max) == n * Pow2(max - v)
  {
    if n > 0 {
      KraftFill(v, n - 1, max);
      assert Inflate.Fill(v, n)[1..] == Inflate.Fill(v, n - 1);
      assert n * Pow2(max - v) == Pow2(max - v) + (n - 1) * Pow2(max - v);
    }
  }

  lemma PlainFeasible()
    ensures Feasible(PlainLit(), 9) && Feasible(PlainDist(), 5)
  {
    hide Kraft;
    KraftFill(9, 256, 9);
    KraftFill(6, 32, 9);
    KraftFill(5, 32, 5);
    KraftAppend(Inflate.Fill(9, 256), Inflate.Fill(6, 32), 9);
    Pow2Values();
    assert Pow2(9) == 512 && Pow2(0) == 1;
  }

  /** A token with that code, and the loss of two limited codes on it, against its share of the code buffer. */
  lemma PlainToken(t: Token)
    requires ValidToken(t)
    ensures 25 * (5 * TokenSize(t, PlainLit(), PlainDist()) + (if t.Match? then 16 else 8)) <= 161 * (8 * |TokenCode(t)| + 1)
  {
    hide LenSym, DistSym;
    SymbolsOfToken(t);
    if t.Match? {
      LengthTables(t.len - 3);
      assert DistExtraOf(t.dist - 1) <= 13;
    }
  }

  lemma {:induction false} PlainTokens(ts: seq<Token>)
    requires AllValid(ts)
    ensures 25 * (5 * TokensSize(ts, PlainLit(), PlainDist()) + 8 * Sum(LitCounts(ts)) + 8 * Sum(DistCounts(ts))) <= 161 * (8 * |Codes(ts)| + |ts|)
  {
    hide TokenSize, TokenCode, Sum, LitSymOf, DistSymOf, ValidToken;
    if ts == [] {
      ZerosSum(LitCounts(ts));
      ZerosSum(DistCounts(ts));
    } else {
      var r, t := ts[..|ts| - 1], ts[|ts| - 1];
      PlainTokens(r);
      PlainToken(t);
      CountsSnocLit(ts);
      CountsSnocDist(ts);
      SumAdd(LitCounts(r), LitSymOf(t), 1);
      if t.Match? { SumAdd(DistCounts(r), DistSymOf(t), 1); }
    }
  }

  // ---------- a block with codes of its own ----------

  lemma NearCost(count: seq<nat>, sizes: seq<nat>, ls: seq<nat>, max: nat)
    requires NearOptimal(count, sizes) && |ls| == |count| && Feasible(ls, max)
    ensures |sizes| == |count| && 5 * Cost(count, sizes) <= 5 * Cost(count, ls) + 8 * Sum(count)
  {
  }

  lemma EndOfBlock(ts: seq<Token>, a: seq<nat>)
    requires AllValid(ts) && |a| == LIT_SYMBOLS
    ensures Cost(LitCounts(ts)[256 := 1], a) == Cost(LitCounts(ts), a) + a[256]
    ensures Sum(LitCounts(ts)[256 := 1]) == Sum(LitCounts(ts)) + 1
  {
    hide Cost, Sum;
    NoLiteral(ts, 256);
    OneMoreCost(LitCounts(ts), a, 256);
    SumAdd(LitCounts(ts), 256, 1);
  }

  /** All codes of a block, the end-of-block symbol included, against the codes recorded for it. */
  lemma CodesSize(ts: seq<Token>, S0: seq<nat>, S1: seq<nat>)
    requires NearBest(ts, S0, S1) && AllCovered(S0, S1, ts) && |S0| == LIT_SYMBOLS && |S1| == DIST_SYMBOLS
    ensures 125 * |CodesBits(S0, S1, ts)| <= 161 * (8 * |Codes(ts)| + |ts|) + 950
  {
    hide Cost, Sum, NearOptimal, Feasible, TokensSize, Codeword, LitSymOf, DistSymOf;
    var a, b := PlainLit(), PlainDist();
    PlainFeasible();
    BitsOfTokens(ts, S0, S1);
    TokensCost(ts, S0, S1);
    TokensCost(ts, a, b);
    EndOfBlock(ts, S0);
    EndOfBlock(ts, a);
    NearCost(LitCounts(ts)[256 := 1], S0, a, 9);
    NearCost(DistCounts(ts), S1, b, 5);
    PlainTokens(ts);
  }

  lemma {:induction false} PackedSize(cl: seq<nat>, acc: seq<nat>, packed: seq<nat>)
    requires HasCodes(cl, packed) && WellFormed(acc, packed) && forall i :: 0 <= i < |cl| ==> cl[i] <= 7
    ensures |PackedBits(cl, packed)| <= 7 * |packed|
    decreases |packed|
  {
    hide Codeword, ToBits, Run;
    if packed == [] {
    } else if packed[0] < 16 {
      PackedSize(cl, acc + [packed[0]], packed[1..]);
    } else {
      PackedSize(cl, acc + Run(acc, packed[0], packed[1]), packed[2..]);
    }
  }

  lemma HeaderSize(h: Header)
    requires ValidHeader(h)
    ensures |HeaderBits(h)| <= 2283
  {
    hide Fits, Inflate.Accepted, WellFormed, HasCodes, Unpack, PackedBits, ToBits;
    assert |Unpack([], h.packed)| >= |h.packed|;
    PackedSize(h.cl, [], h.packed);
  }

  /** A full LZ code buffer takes at most 84704 bytes with codes of its own, with room to spare for
      what else a flush writes. */
  lemma DynamicFits(ts: seq<Token>, h: Header, S0: seq<nat>, S1: seq<nat>, used: nat)
    requires NearBest(ts, S0, S1) && AllCovered(S0, S1, ts) && |S0| == LIT_SYMBOLS && |S1| == DIST_SYMBOLS && ValidHeader(h)
    requires |Enc(ts, 0)| <= LZ_CODE_BUF_SIZE && used <= 64
    ensures (used + (2 + |HeaderBits(h)| + |CodesBits(S0, S1, ts)|)) / 8 <= 84704
  {
    hide NearOptimal, Covered, Enc, Codes, ValidHeader, HeaderBits, CodesBits;
    CodesSize(ts, S0, S1);
    HeaderSize(h);
    EncSize(ts, 0);
  }

  /** What the flags and codes of a token list take in the code buffer. */
  lemma {:induction false} EncSize(ts: seq<Token>, left: nat)
    requires AllValid(ts)
    ensures 8 * |Enc(ts, left)| + left >= 8 * |Codes(ts)| + |ts|
    decreases |ts|, if left == 0 then 1 else 0
  {
    hide TokenCode;
    if ts != [] {
      if left == 0 {
        EncSize(ts, 8);
      } else {
        EncSize(ts[1..], left - 1);
        CodesCons(ts);
      }
    }
  }
}
