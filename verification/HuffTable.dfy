/** Huffman tables of the compressor (tdefl_optimize_huffman_table, src/http/miniz.c:1871-1904). */
module HuffTable {
  import opened Bits
  import opened CanonicalCode
  import opened MinRedundancy
  import opened MinRedundancyOptimal
  import opened LengthLimit
  import opened LengthCounting
  import opened LimitLoss
  import opened UsedSymbols
  import opened RadixSort
  import Inflate

  const MAX_SYMBOLS := 288

  /** One row of m_huff_count, m_huff_code_sizes and m_huff_codes. */
  class HuffmanTable {
    const count: array<nat>
    const sizes: array<nat>
    const codes: array<nat>

    constructor ()
      ensures fresh(count) && fresh(sizes) && fresh(codes) && Shaped()
      ensures forall i :: 0 <= i < MAX_SYMBOLS ==> count[i] == 0
    {
      count := new nat[MAX_SYMBOLS](i => 0);
      sizes := new nat[MAX_SYMBOLS](i => 0);
      codes := new nat[MAX_SYMBOLS](i => 0);
    }

    predicate Shaped()
    {
      count.Length == sizes.Length == codes.Length == MAX_SYMBOLS && count != sizes && count != codes && sizes != codes
    }
  }

  // ---------- symbols in use ----------

  /** Frequencies and indices of the symbols in use, in symbol order. */
  function SymbolsInUse(count: seq<nat>): seq<SymFreq>
  {
    if count == [] then []
    else
      var i := |count| - 1;
      SymbolsInUse(count[..i]) + (if count[i] > 0 then [SymFreq(count[i], i)] else [])
  }

  lemma {:induction false} InUseMembers(count: seq<nat>)
    ensures forall e :: e in SymbolsInUse(count) <==> e.sym < |count| && e.key > 0 && count[e.sym] == e.key
    ensures forall p, q :: 0 <= p < q < |SymbolsInUse(count)| ==> SymbolsInUse(count)[p].sym < SymbolsInUse(count)[q].sym
    ensures |SymbolsInUse(count)| <= |count|
  {
    if count != [] {
      var i := |count| - 1;
      InUseMembers(count[..i]);
      var s := SymbolsInUse(count[..i]);
      forall e ensures e in SymbolsInUse(count) <==> e.sym < |count| && e.key > 0 && count[e.sym] == e.key {
        assert e in SymbolsInUse(count) <==> e in s || (count[i] > 0 && e == SymFreq(count[i], i));
        if e.sym < i { assert count[e.sym] == count[..i][e.sym]; }
      }
      assert forall p :: 0 <= p < |s| ==> s[p] in s;
    }
  }

  lemma {:induction false} InUseSum(count: seq<nat>)
    ensures Sum(Keys(SymbolsInUse(count))) == Sum(count)
  {
    if count == [] {
      assert Keys([]) == [];
    } else {
      var i := |count| - 1;
      InUseSum(count[..i]);
      SumSnoc(count[..i], count[i]);
      assert count == count[..i] + [count[i]];
      if count[i] > 0 {
        assert Keys(SymbolsInUse(count)) == Keys(SymbolsInUse(count[..i])) + [count[i]];
        SumSnoc(Keys(SymbolsInUse(count[..i])), count[i]);
      } else {
        assert SymbolsInUse(count) == SymbolsInUse(count[..i]);
      }
    }
  }

  // ---------- a stable sort is a permutation ----------

  lemma {:induction false} KeyMultiset(s: seq<SymFreq>, e: SymFreq)
    ensures multiset(WithKey(s, e.key))[e] == multiset(s)[e]
  {
    if s != [] {
      var s', x := s[..|s| - 1], s[|s| - 1];
      KeyMultiset(s', e);
      assert s == s' + [x];
    }
  }

  lemma StablePermutation(s: seq<SymFreq>, t: seq<SymFreq>)
    requires StableSort(s, t)
    ensures multiset(s) == multiset(t) && |s| == |t|
    ensures Sum(Keys(s)) == Sum(Keys(t))
  {
    forall e ensures multiset(s)[e] == multiset(t)[e] {
      KeyMultiset(s, e);
      KeyMultiset(t, e);
      assert WithKey(t, e.key) == WithKey(s, e.key);
    }
    assert |multiset(s)| == |s| && |multiset(t)| == |t|;
    PermutedSum(s, t);
  }

  lemma {:induction false} PermutedSum(s: seq<SymFreq>, t: seq<SymFreq>)
    requires multiset(s) == multiset(t)
    ensures Sum(Keys(s)) == Sum(Keys(t))
  {
    hide Sum, Keys;
    assert |multiset(s)| == |s| && |multiset(t)| == |t|;
    if s != [] {
      var k := LastInOther(s, t);
      PermutedSum(s[..|s| - 1], t[..k] + t[k + 1..]);
      KeysRemove(t, k);
      KeysRemove(s, |s| - 1);
      assert s[..|s| - 1] + s[|s| - 1 + 1..] == s[..|s| - 1];
    }
  }

  lemma LastInOther(s: seq<SymFreq>, t: seq<SymFreq>) returns (k: nat)
    requires s != [] && multiset(s) == multiset(t)
    ensures k < |t| && t[k] == s[|s| - 1] && multiset(s[..|s| - 1]) == multiset(t[..k] + t[k + 1..])
  {
    var x := s[|s| - 1];
    assert x in multiset(t);
    k :| 0 <= k < |t| && t[k] == x;
    var s', t' := s[..|s| - 1], t[..k] + t[k + 1..];
    assert s == s' + [x] && t == t[..k] + [x] + t[k + 1..];
    assert multiset(s) == multiset(s') + multiset{x} && multiset(t) == multiset(t') + multiset{x};
    assert multiset(s') == multiset(s) - multiset{x} && multiset(t') == multiset(t) - multiset{x};
  }

  lemma KeysRemove(t: seq<SymFreq>, k: nat)
    requires k < |t|
    ensures Sum(Keys(t)) == Sum(Keys(t[..k] + t[k + 1..])) + t[k].key
  {
    var a, b, x := Keys(t[..k]), Keys(t[k + 1..]), t[k].key;
    assert Keys(t) == a + [x] + b && Keys(t[..k] + t[k + 1..]) == a + b;
    SumSnoc(a, x);
    SumSplit(a + [x], b);
    SumSplit(a, b);
  }

  lemma SortedSymbols(count: seq<nat>, s: seq<SymFreq>, t: seq<SymFreq>)
    requires s == SymbolsInUse(count) && StableSort(s, t)
    ensures SymbolsOf(count, t) && |t| == |s| && Sum(Keys(t)) == Sum(count)
  {
    hide StableSort, SymbolsInUse;
    InUseMembers(count);
    InUseSum(count);
    StablePermutation(s, t);
    SameMembers(s, t);
    DistinctAfter(count, s, t);
    forall i | 0 <= i < |count| && count[i] > 0
      ensures exists p :: 0 <= p < |t| && t[p].sym == i
    {
      var e := SymFreq(count[i], i);
      assert e in s;
      var p :| 0 <= p < |t| && t[p] == e;
    }
  }

  lemma SameMembers(s: seq<SymFreq>, t: seq<SymFreq>)
    requires multiset(s) == multiset(t)
    ensures forall e :: e in s <==> e in t
  {
    assert forall e :: e in s <==> e in multiset(s);
    assert forall e :: e in t <==> e in multiset(t);
  }

  lemma DistinctAfter(count: seq<nat>, s: seq<SymFreq>, t: seq<SymFreq>)
    requires multiset(s) == multiset(t)
    requires forall p, q :: 0 <= p < q < |s| ==> s[p].sym < s[q].sym
    requires forall e :: e in t ==> e.sym < |count| && count[e.sym] == e.key
    ensures forall p, q :: 0 <= p < q < |t| ==> t[p].sym != t[q].sym
  {
    forall p, q | 0 <= p < q < |t|
      ensures t[p].sym != t[q].sym
    {
      OnceInMultiset(s, t[p]);
      assert t[p] in t && t[q] in t;
      if t[p].sym == t[q].sym {
        TwiceInMultiset(t, p, q);
      }
    }
  }

  lemma TwiceInMultiset(t: seq<SymFreq>, p: nat, q: nat)
    requires p < q < |t| && t[p] == t[q]
    ensures multiset(t)[t[p]] >= 2
  {
    assert t == t[..p] + [t[p]] + t[p + 1..q] + [t[q]] + t[q + 1..];
  }

  lemma {:induction false} OnceInMultiset(s: seq<SymFreq>, e: SymFreq)
    requires forall p, q :: 0 <= p < q < |s| ==> s[p].sym < s[q].sym
    ensures multiset(s)[e] <= 1
  {
    if s != [] {
      var s', x := s[..|s| - 1], s[|s| - 1];
      OnceInMultiset(s', e);
      assert s == s' + [x];
    }
  }

  // ---------- complete codes ----------

  /** A full Kraft sum is a complete code in the sense of the decoder's table builder. */
  lemma {:induction false} NextCodeKraft(lens: seq<nat>, num: seq<int>, k: nat)
    requires k < |num| && forall l :: 1 <= l <= k ==> num[l] == CountLen(lens, l)
    ensures NextCode(lens, k + 1) == 2 * KraftTo(num, k, k)
  {
    if k > 0 {
      NextCodeKraft(lens, num, k - 1);
      KraftToScale(num, k - 1, k - 1, 1);
      assert Pow2(1) == 2 && Pow2(0) == 1;
    }
  }

  lemma {:induction false} NextCodeAbove(lens: seq<nat>, m: nat, k: nat)
    requires 1 <= m <= k && forall l :: m < l <= k ==> CountLen(lens, l) == 0
    requires NextCode(lens, m + 1) == Pow2(m + 1)
    ensures NextCode(lens, k + 1) == Pow2(k + 1)
    decreases k
  {
    if m < k {
      NextCodeAbove(lens, m, k - 1);
    }
  }

  lemma {:induction false} CountLenUpdate(lens: seq<nat>, i: nat, v: nat, l: nat)
    requires i < |lens|
    ensures CountLen(lens[i := v], l) == CountLen(lens, l) - (if lens[i] == l then 1 else 0) + (if v == l then 1 else 0)
  {
    var last := |lens| - 1;
    if i == last {
      assert lens[i := v][..last] == lens[..last];
    } else {
      assert lens[i := v][..last] == lens[..last][i := v];
      CountLenUpdate(lens[..last], i, v, l);
    }
  }

  // ---------- lengths to symbols: shortest to the most frequent ----------

  /** While lengths are given out from the end of the sorted symbols: i is the current length,
      rem of its codes are left, and j symbols still wait. */
  ghost predicate Assigning(S: seq<nat>, s: seq<SymFreq>, num: seq<int>, limit: nat, i: nat, rem: int, j: int)
  {
    && |S| == MAX_SYMBOLS && |num| == 33 && 1 <= i <= limit + 1 <= 33 && 0 <= j <= |s| && 0 <= rem
    && (forall p :: 0 <= p < |s| ==> s[p].sym < MAX_SYMBOLS)
    && (i <= limit ==> rem <= num[i] && j == Total(num, i, limit) + rem)
    && (i == limit + 1 ==> rem == j == 0)
    && GivenSizes(S, s, i, j) && (forall x :: 0 <= x < |S| ==> S[x] <= limit)
    && (forall l :: 1 <= l <= limit ==> CountLen(S, l) == if l < i then num[l] else if l == i then num[i] - rem else 0)
  }

  ghost predicate GivenSizes(S: seq<nat>, s: seq<SymFreq>, i: nat, j: int)
    requires 0 <= j <= |s| && forall p :: 0 <= p < |s| ==> s[p].sym < |S|
  {
    && (forall p :: 0 <= p < j ==> S[s[p].sym] == 0)
    && (forall p :: j <= p < |s| ==> 1 <= S[s[p].sym] <= i)
    && (forall p, q :: j <= p <= q < |s| ==> S[s[p].sym] >= S[s[q].sym])
    && (forall x :: 0 <= x < |S| && S[x] > 0 ==> exists p :: j <= p < |s| && s[p].sym == x)
  }

  lemma GiveSize(S: seq<nat>, s: seq<SymFreq>, i: nat, j: int)
    requires 1 <= j <= |s| && 1 <= i && forall p :: 0 <= p < |s| ==> s[p].sym < |S|
    requires forall p, q :: 0 <= p < q < |s| ==> s[p].sym != s[q].sym
    requires GivenSizes(S, s, i, j)
    ensures S[s[j - 1].sym] == 0 && GivenSizes(S[s[j - 1].sym := i], s, i, j - 1)
  {
    var S2 := S[s[j - 1].sym := i];
    forall x | 0 <= x < |S2| && S2[x] > 0
      ensures exists p :: j - 1 <= p < |s| && s[p].sym == x
    {
      if x == s[j - 1].sym {
      } else {
        assert S[x] > 0;
        var p :| j <= p < |s| && s[p].sym == x;
      }
    }
  }

  lemma AssignOne(S: seq<nat>, s: seq<SymFreq>, num: seq<int>, limit: nat, i: nat, rem: int, j: int)
    requires Assigning(S, s, num, limit, i, rem, j) && rem > 0 && i <= limit
    requires forall p, q :: 0 <= p < q < |s| ==> s[p].sym != s[q].sym
    requires Nonneg(num)
    ensures j >= 1 && Assigning(S[s[j - 1].sym := i], s, num, limit, i, rem - 1, j - 1)
  {
    hide GivenSizes, Total, CountLen;
    TotalNonneg(num, i, limit);
    GiveSize(S, s, i, j);
    forall l | 1 <= l <= limit
      ensures CountLen(S[s[j - 1].sym := i], l) == if l < i then num[l] else if l == i then num[i] - (rem - 1) else 0
    {
      CountLenUpdate(S, s[j - 1].sym, i, l);
    }
  }

  lemma NextLength(S: seq<nat>, s: seq<SymFreq>, num: seq<int>, limit: nat, i: nat, j: int)
    requires Assigning(S, s, num, limit, i, 0, j) && i <= limit && Nonneg(num)
    ensures Assigning(S, s, num, limit, i + 1, if i + 1 <= limit then num[i + 1] else 0, j)
  {
    if i + 1 <= limit {
      TotalSplit(num, i, i + 1, limit);
      assert Total(num, i, i + 1) == num[i + 1];
    }
  }

  lemma StartAssigning(s: seq<SymFreq>, num: seq<int>, limit: nat)
    requires |num| == 33 && 1 <= limit <= 32 && Nonneg(num) && Total(num, 0, limit) == |s|
    requires forall p :: 0 <= p < |s| ==> s[p].sym < MAX_SYMBOLS
    ensures Assigning(Zeros(), s, num, limit, 1, num[1], |s|)
  {
    TotalSplit(num, 0, 1, limit);
    assert Total(num, 0, 1) == num[1];
    forall l | 1 <= l <= limit ensures CountLen(Zeros(), l) == 0 { CountLenNone(Zeros(), l); }
  }

  function Zeros(): (z: seq<nat>)
    ensures |z| == MAX_SYMBOLS && forall i :: 0 <= i < |z| ==> z[i] == 0
  {
    seq(MAX_SYMBOLS, i => 0)
  }

  /** Clear the row, then give out lengths (src/http/miniz.c:1891-1893). */
  method AssignSizes(t: HuffmanTable, sorted: array<SymFreq>, num: array<int>, limit: nat)
    requires t.Shaped() && num.Length == 33 && 1 <= limit <= 32 && Nonneg(num[..])
    requires Total(num[..], 0, limit) == sorted.Length
    requires forall p :: 0 <= p < sorted.Length ==> sorted[p].sym < MAX_SYMBOLS
    requires forall p, q :: 0 <= p < q < sorted.Length ==> sorted[p].sym != sorted[q].sym
    modifies t.sizes, t.codes
    ensures Assigning(t.sizes[..], sorted[..], num[..], limit, limit + 1, 0, 0)
  {
    hide Assigning, GivenSizes, Total, CountLen;
    ghost var n, s := num[..], sorted[..];
    forall k | 0 <= k < MAX_SYMBOLS { t.sizes[k] := 0; }
    forall k | 0 <= k < MAX_SYMBOLS { t.codes[k] := 0; }
    StartAssigning(s, n, limit);
    assert t.sizes[..] == Zeros();
    var i, j := 1, sorted.Length;
    while i <= limit
      invariant 1 <= i <= limit + 1 && 0 <= j <= sorted.Length && num[..] == n && sorted[..] == s
      invariant Assigning(t.sizes[..], s, n, limit, i, if i <= limit then n[i] else 0, j)
    {
      var l := num[i];
      while l > 0
        invariant 0 <= l <= n[i] && 0 <= j <= sorted.Length && num[..] == n && sorted[..] == s
        invariant Assigning(t.sizes[..], s, n, limit, i, l, j)
        decreases l
      {
        AssignOne(t.sizes[..], s, n, limit, i, l, j);
        j := j - 1;
        t.sizes[sorted[j].sym] := i;
        l := l - 1;
      }
      NextLength(t.sizes[..], s, n, limit, i, j);
      i := i + 1;
    }
    AssigningEnd(t.sizes[..], s, n, limit, j);
  }

  lemma AssigningEnd(S: seq<nat>, s: seq<SymFreq>, num: seq<int>, limit: nat, j: int)
    requires Assigning(S, s, num, limit, limit + 1, 0, j)
    ensures j == 0
  {
  }

  // ---------- codes from lengths ----------

  /** codes[i], written least significant bit first, is the canonical codeword of symbol i. */
  ghost predicate CodesMatch(sizes: seq<nat>, codes: seq<nat>)
  {
    |codes| >= |sizes| && forall i :: 0 <= i < |sizes| && sizes[i] > 0 ==> codes[i] == Reverse(Code(sizes, i), sizes[i])
  }

  /** next_code after the symbols below i have their codes. */
  ghost predicate NextCodes(next: seq<nat>, sizes: seq<nat>, i: nat, limit: nat)
  {
    && i <= |sizes| && limit < |next|
    && forall l :: 1 <= l <= limit ==> next[l] == NextCode(sizes, l) + CountLen(sizes[..i], l)
  }

  /** The bit reversal loop (src/http/miniz.c:1901). */
  method ReverseCode(code0: nat, codeSize: nat) returns (revCode: nat)
    ensures revCode == Reverse(code0, codeSize)
  {
    var code, l := code0, codeSize;
    revCode := 0;
    while l > 0
      invariant 0 <= l <= codeSize
      invariant revCode * Pow2(l) + Reverse(code, l) == Reverse(code0, codeSize)
    {
      ReverseStep(revCode, code, l);
      revCode := revCode * 2 + code % 2;
      code := code / 2;
      l := l - 1;
    }
    assert revCode * Pow2(0) == revCode;
  }

  lemma ReverseStep(r: nat, code: nat, l: nat)
    requires l > 0
    ensures (r * 2 + code % 2) * Pow2(l - 1) + Reverse(code / 2, l - 1) == r * Pow2(l) + Reverse(code, l)
  {
    var p := Pow2(l - 1);
    assert (r * 2 + code % 2) * p == r * (2 * p) + (code % 2) * p;
  }

  /** The code assignment (src/http/miniz.c:1896-1903). */
  method AssignCodes(t: HuffmanTable, tableLen: nat, num: seq<int>, limit: nat)
    requires t.Shaped() && tableLen <= MAX_SYMBOLS && |num| == 33 && 1 <= limit <= 32
    requires forall l :: 1 <= l <= limit ==> num[l] == CountLen(t.sizes[..tableLen], l)
    requires forall i :: 0 <= i < tableLen ==> t.sizes[i] <= limit
    modifies t.codes
    ensures CodesMatch(t.sizes[..tableLen], t.codes[..])
    ensures forall i :: 0 <= i < MAX_SYMBOLS && (i >= tableLen || t.sizes[i] == 0) ==> t.codes[i] == old(t.codes[i])
  {
    hide Reverse, CountLen;
    ghost var S := t.sizes[..tableLen];
    var nextCode := FirstCodes(S, num, limit);
    var i := 0;
    while i < tableLen
      invariant 0 <= i <= tableLen && S == t.sizes[..tableLen]
      invariant NextCodes(nextCode[..], S, i, limit)
      invariant forall k :: 0 <= k < i && S[k] > 0 ==> t.codes[k] == Reverse(Code(S, k), S[k])
      invariant forall k :: 0 <= k < MAX_SYMBOLS && (k >= i || t.sizes[k] == 0) ==> t.codes[k] == old(t.codes[k])
    {
      var codeSize := t.sizes[i];
      NextSymbol(S, i, codeSize);
      if codeSize != 0 {
        var code := nextCode[codeSize];
        nextCode[codeSize] := nextCode[codeSize] + 1;
        var revCode := ReverseCode(code, codeSize);
        t.codes[i] := revCode;
      }
      i := i + 1;
    }
  }

  lemma NextSymbol(S: seq<nat>, i: nat, v: nat)
    requires i < |S| && v == S[i]
    ensures forall l :: CountLen(S[..i + 1], l) == CountLen(S[..i], l) + (if l == v then 1 else 0)
  {
    assert S[..i + 1][..i] == S[..i];
  }

  method FirstCodes(ghost S: seq<nat>, num: seq<int>, limit: nat) returns (nextCode: array<nat>)
    requires |num| == 33 && 1 <= limit <= 32 && forall l :: 1 <= l <= limit ==> num[l] == CountLen(S, l)
    ensures fresh(nextCode) && NextCodes(nextCode[..], S, 0, limit)
  {
    hide *;
    nextCode := new nat[33](i => 0);
    var j, i: nat := 0, 2;
    FirstCode(S);
    while i <= limit
      invariant 2 <= i && i - 1 <= limit && j == NextCode(S, i - 1) && nextCode.Length == 33
      invariant forall l :: 1 <= l < i ==> nextCode[l] == NextCode(S, l)
    {
      NextCodeStep(S, i);
      j := (j + num[i - 1]) * 2;
      nextCode[i] := j;
      i := i + 1;
    }
    NextCodesStart(nextCode[..], S, limit);
  }

  lemma FirstCode(S: seq<nat>)
    ensures NextCode(S, 1) == 0
  {
  }

  lemma NextCodesStart(next: seq<nat>, S: seq<nat>, limit: nat)
    requires limit < |next| && forall l :: 1 <= l <= limit ==> next[l] == NextCode(S, l)
    ensures NextCodes(next, S, 0, limit)
  {
    hide NextCode;
    assert S[..0] == [];
    forall l | 1 <= l <= limit ensures CountLen(S[..0], l) == 0 { CountLenNone([], l); }
  }

  lemma NextCodeStep(S: seq<nat>, l: nat)
    requires l >= 2
    ensures NextCode(S, l) == (NextCode(S, l - 1) + CountLen(S, l - 1)) * 2
  {
    hide CountLen;
  }

  // ---------- the whole function ----------

  /** Code lengths for symbol frequencies: exactly the symbols in use get one, up to the limit;
      they make a complete code, or the one code of a single symbol; and a more frequent symbol
      never has a longer code. */
  ghost predicate Optimized(count: seq<nat>, sizes: seq<nat>, limit: nat)
  {
    && |sizes| == |count|
    && (forall i :: 0 <= i < |sizes| ==> sizes[i] <= limit && (sizes[i] > 0 <==> count[i] > 0))
    && (forall i, j :: 0 <= i < |count| && 0 <= j < |count| && count[i] > count[j] > 0 ==> sizes[i] <= sizes[j])
    && (Inflate.UsedSyms(count) >= 2 ==> Complete(sizes, limit))
    && (Inflate.UsedSyms(count) <= 1 ==> forall i :: 0 <= i < |sizes| ==> sizes[i] <= 1)
  }

  lemma {:induction false} InUseCount(count: seq<nat>)
    ensures |SymbolsInUse(count)| == Inflate.UsedSyms(count)
  {
    if count != [] {
      InUseCount(count[..|count| - 1]);
    }
  }

  lemma {:induction false} SameUsed(a: seq<nat>, b: seq<nat>)
    requires |a| == |b| && forall i :: 0 <= i < |a| ==> (a[i] > 0 <==> b[i] > 0)
    ensures Inflate.UsedSyms(a) == Inflate.UsedSyms(b)
  {
    if a != [] {
      SameUsed(a[..|a| - 1], b[..|b| - 1]);
    }
  }

  lemma {:induction false} FewUsedCount(sizes: seq<nat>)
    ensures CountLen(sizes, 1) <= Inflate.UsedSyms(sizes)
  {
    if sizes != [] {
      FewUsedCount(sizes[..|sizes| - 1]);
    }
  }

  lemma CountsAboveZero(sizes: seq<nat>, m: nat)
    requires forall i :: 0 <= i < |sizes| ==> sizes[i] <= m
    ensures forall l :: l > m ==> CountLen(sizes, l) == 0
  {
    forall l | l > m ensures CountLen(sizes, l) == 0 { CountLenNone(sizes, l); }
  }

  lemma {:induction false} NextCodeSmall(sizes: seq<nat>, k: nat)
    requires k >= 1 && CountLen(sizes, 1) <= 1 && forall l :: l > 1 ==> CountLen(sizes, l) == 0
    ensures NextCode(sizes, k + 1) <= Pow2(k + 1)
  {
    if k > 1 {
      NextCodeSmall(sizes, k - 1);
    } else {
      assert NextCode(sizes, 1) == 0 && Pow2(2) == 4;
    }
  }

  /** Tables made by the compressor are prefix codes, and the decompressor takes them. */
  lemma OptimizedTable(count: seq<nat>, sizes: seq<nat>, limit: nat)
    requires Optimized(count, sizes, limit) && 1 <= limit <= 15
    ensures Fits(sizes, 15) && Inflate.Accepted(sizes)
  {
    SameUsed(sizes, count);
    if Inflate.UsedSyms(count) >= 2 {
      CountsAboveZero(sizes, limit);
      NextCodeAbove(sizes, limit, 15);
    } else {
      CountsAboveZero(sizes, 1);
      FewUsedCount(sizes);
      NextCodeSmall(sizes, 15);
    }
  }

  /** From the state after the last length is given out. */
  lemma SizesOptimized(count: seq<nat>, S: seq<nat>, s: seq<SymFreq>, num: seq<int>, limit: nat)
    requires |count| <= MAX_SYMBOLS && SymbolsOf(count, s)
    requires forall p, q :: 0 <= p <= q < |s| ==> s[p].key <= s[q].key
    requires |s| == Inflate.UsedSyms(count)
    requires Assigning(S, s, num, limit, limit + 1, 0, 0) && 1 <= limit <= 32 && Nonneg(num) && Total(num, 0, limit) == |s|
    requires |s| > 1 ==> KraftTo(num, limit, limit) == Pow2(limit)
    requires |s| == 1 ==> num[1] == 1
    ensures Optimized(count, S[..|count|], limit)
    ensures forall i :: |count| <= i < MAX_SYMBOLS ==> S[i] == 0
    ensures forall l :: 1 <= l <= limit ==> num[l] == CountLen(S[..|count|], l)
  {
    hide CountLen, Total, KraftTo, NextCode, SymbolsOf, GivenSizes;
    SizesOfUsed(count, S, s, limit);
    CountsOfRow(count, S, num, limit);
    if |s| >= 2 {
      NextCodeKraft(S[..|count|], num, limit);
      assert Pow2(limit + 1) == 2 * Pow2(limit);
    } else {
      FewSymbols(S[..|count|], num, limit, |s|);
    }
  }

  lemma CountsOfRow(count: seq<nat>, S: seq<nat>, num: seq<int>, limit: nat)
    requires |count| <= |S| && limit < |num| && forall i :: |count| <= i < |S| ==> S[i] == 0
    requires forall l :: 1 <= l <= limit ==> CountLen(S, l) == num[l]
    ensures forall l :: 1 <= l <= limit ==> num[l] == CountLen(S[..|count|], l)
  {
    var n := |count|;
    assert S == S[..n] + S[n..];
    forall l | 1 <= l <= limit ensures num[l] == CountLen(S[..n], l) {
      CountLenAppend(S[..n], S[n..], l);
      CountLenNone(S[n..], l);
    }
  }

  /** A single symbol has length 1. */
  lemma FewSymbols(sizes: seq<nat>, num: seq<int>, limit: nat, n: nat)
    requires |num| == 33 && 1 <= limit <= 32 && Nonneg(num) && Total(num, 0, limit) == n <= 1 && (n == 1 ==> num[1] == 1)
    requires forall l :: 1 <= l <= limit ==> num[l] == CountLen(sizes, l)
    requires forall i :: 0 <= i < |sizes| ==> sizes[i] <= limit
    ensures forall i :: 0 <= i < |sizes| ==> sizes[i] <= 1
  {
    if n == 1 { OnlyLengthOne(num, limit, 1); } else { AllZero(num, 0, limit); }
    forall i | 0 <= i < |sizes| ensures sizes[i] <= 1 {
      if sizes[i] > 1 { CountLenSome(sizes, i); }
    }
  }

  /** With one code in all, of length 1, there is none of any other length. */
  lemma {:induction false} OnlyLengthOne(num: seq<int>, limit: nat, k: nat)
    requires 1 <= k <= limit < |num| && Nonneg(num) && Total(num, 0, limit) == 1 && num[1] == 1
    ensures forall l :: k < l <= limit ==> num[l] == 0
    decreases limit - k
  {
    TotalSplit(num, 0, 1, limit);
    assert Total(num, 0, 1) == num[1];
    AllZero(num, 1, limit);
  }

  lemma {:induction false} AllZero(num: seq<int>, lo: nat, hi: nat)
    requires lo <= hi < |num| && Nonneg(num) && Total(num, lo, hi) == 0
    ensures forall l :: lo < l <= hi ==> num[l] == 0
  {
    if lo < hi {
      TotalNonneg(num, lo, hi - 1);
      AllZero(num, lo, hi - 1);
    }
  }

  lemma {:induction false} CountLenSome(lens: seq<nat>, i: nat)
    requires i < |lens|
    ensures CountLen(lens, lens[i]) >= 1
  {
    CountLenStrict(lens, i, |lens|);
    assert lens[..|lens|] == lens;
  }

  lemma SizesOfUsed(count: seq<nat>, S: seq<nat>, s: seq<SymFreq>, limit: nat)
    requires |count| <= |S| && SymbolsOf(count, s) && GivenSizes(S, s, limit + 1, 0) && (forall x :: 0 <= x < |S| ==> S[x] <= limit)
    requires forall p, q :: 0 <= p <= q < |s| ==> s[p].key <= s[q].key
    ensures forall i :: 0 <= i < |count| ==> S[i] <= limit && (S[i] > 0 <==> count[i] > 0)
    ensures forall i :: |count| <= i < |S| ==> S[i] == 0
    ensures forall i, j :: 0 <= i < |count| && 0 <= j < |count| && count[i] > count[j] > 0 ==> S[i] <= S[j]
  {
    forall i, j | 0 <= i < |count| && 0 <= j < |count| && count[i] > count[j] > 0
      ensures S[i] <= S[j]
    {
      var p :| 0 <= p < |s| && s[p].sym == i;
      var q :| 0 <= q < |s| && s[q].sym == j;
      assert s[p].key > s[q].key;
      assert q < p;
    }
  }

  /** The collecting loop (src/http/miniz.c:1883). */
  method CollectSymbols(count: array<nat>, tableLen: nat) returns (used: seq<SymFreq>)
    requires tableLen <= count.Length
    ensures used == SymbolsInUse(count[..tableLen])
  {
    used := [];
    var i := 0;
    while i < tableLen
      invariant 0 <= i <= tableLen && used == SymbolsInUse(count[..i])
    {
      assert count[..i + 1][..i] == count[..i];
      if count[i] != 0 {
        used := used + [SymFreq(count[i], i)];
      }
      i := i + 1;
    }
  }

  /** num_codes[size]++ over the sorted symbols (src/http/miniz.c:1887). */
  method CountLengths(sorted: array<SymFreq>) returns (num: array<int>)
    requires forall p :: 0 <= p < sorted.Length ==> sorted[p].key <= 32
    ensures fresh(num) && LengthCounts(num[..], Keys(sorted[..]))
  {
    num := new int[33](i => 0);
    assert Keys(sorted[..0]) == [];
    var i := 0;
    while i < sorted.Length
      invariant 0 <= i <= sorted.Length && num.Length == 33 && LengthCounts(num[..], Keys(sorted[..i]))
    {
      CountsSnoc(num[..], Keys(sorted[..i]), sorted[i].key);
      assert Keys(sorted[..i + 1]) == Keys(sorted[..i]) + [sorted[i].key];
      num[sorted[i].key] := num[sorted[i].key] + 1;
      i := i + 1;
    }
    assert sorted[..sorted.Length] == sorted[..];
  }

  /** Frequencies the compressor has: their sum, and so every key of the merge, fits 16 bits. */
  predicate Frequencies(count: seq<nat>, limit: nat)
  {
    Sum(count) < 0x10000 && Inflate.UsedSyms(count) <= Pow2(limit)
  }

  lemma {:induction false} SumMember(count: seq<nat>, i: nat)
    requires i < |count|
    ensures count[i] <= Sum(count)
  {
    if i > 0 {
      SumMember(count[1..], i - 1);
    }
  }

  /** The sorted symbols meet what the length computation asks. */
  lemma SortedInput(count: seq<nat>, s: seq<SymFreq>, t: seq<SymFreq>)
    requires s == SymbolsInUse(count) && StableSort(s, t)
    ensures SymbolsOf(count, t) && |t| == |s| == Inflate.UsedSyms(count) && Sum(Keys(t)) == Sum(count)
    ensures Sorted(Keys(t)) && Positive(Keys(t))
    ensures forall p, q :: 0 <= p <= q < |t| ==> t[p].key <= t[q].key
  {
    SortedSymbols(count, s, t);
    InUseCount(count);
  }

  lemma KeysBelow(count: seq<nat>, s: seq<SymFreq>)
    requires s == SymbolsInUse(count) && Sum(count) < 0x10000
    ensures forall i :: 0 <= i < |s| ==> s[i].key < 0x10000 && s[i].key > 0
    ensures |s| <= |count|
  {
    InUseMembers(count);
    forall i | 0 <= i < |s| ensures s[i].key < 0x10000 && s[i].key > 0 {
      assert s[i] in s;
      SumMember(count, s[i].sym);
    }
  }

  /** Code lengths of the used symbols as counts per length, before limiting. */
  lemma LengthsToCounts(f: seq<nat>, lens: seq<nat>, num: seq<int>)
    requires |lens| == |f| && LengthCounts(num, lens)
    requires |lens| == 1 ==> lens[0] == 1
    requires |lens| >= 2 ==> MinimumRedundancy(f, lens)
    ensures Nonneg(num) && Total(num, 0, 32) == |lens|
    ensures |lens| > 1 ==> KraftTo(num, 32, 32) == Pow2(32)
    ensures |lens| == 1 ==> num[1] == 1
    ensures |lens| <= 1 ==> forall l :: 2 <= l < 33 ==> num[l] == 0
  {
    hide Optimal;
    CountsKraft(num, lens);
    if |lens| == 1 {
      assert lens[..0] == [];
    }
  }

  lemma FewCodesTotal(num: seq<int>, m: nat, n: nat)
    requires |num| == 33 && 1 <= m <= 32 && Nonneg(num) && Total(num, 0, 32) == n && forall l :: 2 <= l < 33 ==> num[l] == 0
    ensures Total(num, 0, m) == n
  {
    TotalSplit(num, 0, m, 32);
    TailZero(num, m, 32);
  }

  lemma {:induction false} TailZero(num: seq<int>, m: nat, k: nat)
    requires 1 <= m <= k < |num| && forall l :: 2 <= l < |num| ==> num[l] == 0
    ensures Total(num, m, k) == 0
    decreases k
  {
    if m < k {
      TailZero(num, m, k - 1);
    }
  }

  /** How many codes of each length the symbols of s are to get, after limiting. */
  ghost predicate LimitedCounts(count: seq<nat>, s: seq<SymFreq>, num: seq<int>, limit: nat)
    requires 1 <= limit <= 15
  {
    && SymbolsOf(count, s) && |s| == Inflate.UsedSyms(count)
    && (forall p, q :: 0 <= p <= q < |s| ==> s[p].key <= s[q].key)
    && |num| == 33 && Nonneg(num) && Total(num, 0, limit) == |s|
    && (|s| > 1 ==> KraftTo(num, limit, limit) == Pow2(limit))
    && (|s| == 1 ==> num[1] == 1)
  }

  /** The code lengths before limiting, their counts, and the length from which on limiting changed them. */
  datatype Best = Best(lens: seq<nat>, num: seq<int>, from: nat)

  /** Sort, minimum-redundancy lengths, counts per length, limit (src/http/miniz.c:1881-1889). */
  method SortAndLimit(count: array<nat>, tableLen: nat, limit: nat)
    returns (sorted: array<SymFreq>, num: array<int>, ghost s: seq<SymFreq>, ghost best: Best)
    requires tableLen <= count.Length < 0x10000 && tableLen <= MAX_SYMBOLS && 1 <= limit <= 15 && Frequencies(count[..tableLen], limit)
    ensures fresh(sorted) && fresh(num) && SameSyms(sorted[..], s)
    ensures LimitedCounts(count[..tableLen], s, num[..], limit) && Sum(Keys(s)) == Sum(count[..tableLen])
    ensures limit == 15 && |s| > 1 ==> Limited(Keys(s), best.lens, best.num, num[..], best.from)
  {
    hide MinimumRedundancy, SymbolsOf, StableSort, SymbolsInUse, Sum, Total, KraftTo, CountLen, Sorted, Positive, LengthCounts, Frontier, Nonneg;
    ghost var cnt := count[..tableLen];
    sorted := SortSymbols(count, tableLen, limit);
    s := sorted[..];
    CalculateMinimumRedundancy(sorted);
    ghost var lens := Keys(sorted[..]);
    LengthsFit(Keys(s), lens);
    num := CountLengths(sorted);
    LengthsToCounts(Keys(s), lens, num[..]);
    ghost var num0 := num[..];
    ghost var i := EnforceMaxCodeSize(num, sorted.Length, limit);
    best := Best(lens, num0, i);
    if |s| <= 1 { FewCodesTotal(num0, limit, |s|); }
  }

  lemma {:induction false} UsedBound(s: seq<nat>)
    ensures Inflate.UsedSyms(s) <= |s|
  {
    if s != [] {
      UsedBound(s[..|s| - 1]);
    }
  }

  /** The symbols in use, sorted by frequency. */
  method SortSymbols(count: array<nat>, tableLen: nat, ghost limit: nat) returns (sorted: array<SymFreq>)
    requires tableLen <= count.Length < 0x10000 && Frequencies(count[..tableLen], limit)
    ensures fresh(sorted) && SymbolsOf(count[..tableLen], sorted[..]) && sorted.Length == Inflate.UsedSyms(count[..tableLen]) <= tableLen
    ensures Sum(Keys(sorted[..])) == Sum(count[..tableLen]) && Sorted(Keys(sorted[..])) && Positive(Keys(sorted[..]))
    ensures forall p, q :: 0 <= p <= q < sorted.Length ==> sorted[p].key <= sorted[q].key
  {
    hide SymbolsOf, StableSort, SymbolsInUse, Sum, Sorted, Positive;
    ghost var cnt := count[..tableLen];
    var used := CollectSymbols(count, tableLen);
    KeysBelow(cnt, used);
    var syms0 := new SymFreq[|used|](i requires 0 <= i < |used| => used[i]);
    var syms1 := new SymFreq[|used|](i requires 0 <= i < |used| => used[i]);
    assert syms0[..] == used;
    sorted := RadixSortSyms(syms0, syms1);
    SortedInput(cnt, used, sorted[..]);
    UsedBound(cnt);
  }

  /** tdefl_optimize_huffman_table with static_table false: from frequencies to lengths and codes. */
  method OptimizeHuffmanTable(t: HuffmanTable, tableLen: nat, limit: nat)
    requires t.Shaped() && tableLen <= MAX_SYMBOLS && 1 <= limit <= 15
    requires Frequencies(t.count[..tableLen], limit)
    modifies t.sizes, t.codes
    ensures Optimized(t.count[..tableLen], t.sizes[..tableLen], limit)
    ensures forall i :: tableLen <= i < MAX_SYMBOLS ==> t.sizes[i] == 0
    ensures CodesMatch(t.sizes[..tableLen], t.codes[..])
    ensures limit == 15 ==> NearOptimal(t.count[..tableLen], t.sizes[..tableLen])
  {
    hide Optimized, CodesMatch, SymbolsOf, Total, KraftTo, Assigning, CountLen, Frequencies, Limited, NearOptimal, Sum;
    ghost var count := t.count[..tableLen];
    var sorted, num;
    ghost var s, best;
    sorted, num, s, best := SortAndLimit(t.count, tableLen, limit);
    RelabelledSymbols(count, s, sorted[..]);
    AssignSizes(t, sorted, num, limit);
    AssigningSyms(t.sizes[..], s, sorted[..], num[..], limit);
    SizesOptimized(count, t.sizes[..], s, num[..], limit);
    assert t.sizes[..][..tableLen] == t.sizes[..tableLen];
    OptimizedBound(count, t.sizes[..tableLen], limit);
    if limit == 15 { OptimizedNear(count, t.sizes[..], s, num[..], best); }
    AssignCodes(t, tableLen, num[..], limit);
  }

  lemma OptimizedNear(count: seq<nat>, S: seq<nat>, s: seq<SymFreq>, num: seq<int>, best: Best)
    requires |count| <= |S| && Optimized(count, S[..|count|], 15) && LimitedCounts(count, s, num, 15) && Assigning(S, s, num, 15, 16, 0, 0)
    requires Sum(Keys(s)) == Sum(count) && (|s| > 1 ==> Limited(Keys(s), best.lens, best.num, num, best.from))
    requires forall l :: 1 <= l <= 15 ==> num[l] == CountLen(S[..|count|], l)
    ensures NearOptimal(count, S[..|count|])
  {
    hide NearOptimal, Limited, Sum, CountLen, Total, KraftTo, Complete;
    if |s| <= 1 {
      FewNearOptimal(count, S[..|count|]);
    } else {
      TableNearOptimal(count, s, best.lens, best.num, num, best.from, S[..|count|]);
    }
  }

  lemma OptimizedBound(count: seq<nat>, sizes: seq<nat>, limit: nat)
    requires Optimized(count, sizes, limit)
    ensures |sizes| == |count| && forall i :: 0 <= i < |sizes| ==> sizes[i] <= limit
  {
  }

  lemma LengthsFit(f: seq<nat>, lens: seq<nat>)
    requires |lens| == |f| && (|lens| == 1 ==> lens[0] == 1) && (|lens| >= 2 ==> MinimumRedundancy(f, lens))
    ensures forall p :: 0 <= p < |lens| ==> lens[p] <= 32
  {
    hide Optimal;
  }

  lemma RelabelledSymbols(count: seq<nat>, s: seq<SymFreq>, t: seq<SymFreq>)
    requires SymbolsOf(count, s) && SameSyms(t, s)
    ensures forall p :: 0 <= p < |t| ==> t[p].sym < |count|
    ensures forall p, q :: 0 <= p < q < |t| ==> t[p].sym != t[q].sym
  {
  }

  lemma AssigningSyms(S: seq<nat>, s: seq<SymFreq>, t: seq<SymFreq>, num: seq<int>, limit: nat)
    requires SameSyms(t, s) && Assigning(S, t, num, limit, limit + 1, 0, 0)
    ensures Assigning(S, s, num, limit, limit + 1, 0, 0)
  {
    forall x | 0 <= x < |S| && S[x] > 0
      ensures exists p :: 0 <= p < |s| && s[p].sym == x
    {
      var p :| 0 <= p < |t| && t[p].sym == x;
      assert s[p].sym == x;
    }
  }
}
