/** What limiting the code lengths costs. The repair of tdefl_huffman_enforce_max_code_size is not
    optimal, but with at most 288 symbols and lengths up to 15 it adds no more than 8/5 of a bit to
    a symbol on the average. */
module LimitLoss {
  import opened Bits
  import opened CanonicalCode
  import opened MinRedundancy
  import opened MinRedundancyOptimal
  import opened LengthLimit
  import opened LengthCounting

  // ---------- lengths in falling order, and their counts ----------

  predicate Falling(ls: seq<nat>)
  {
    forall i, j :: 0 <= i <= j < |ls| ==> ls[i] >= ls[j]
  }

  predicate Lengths(ls: seq<nat>)
  {
    forall i :: 0 <= i < |ls| ==> 1 <= ls[i] <= 32
  }

  /** The codes of length l or less are the last ones. */
  lemma {:induction false} Rank(num: seq<int>, ls: seq<nat>, l: nat)
    requires LengthCounts(num, ls) && Falling(ls) && Lengths(ls) && l <= 32
    ensures 0 <= Total(num, 0, l) <= |ls|
    ensures forall p :: 0 <= p < |ls| ==> (ls[p] <= l <==> p >= |ls| - Total(num, 0, l))
    decreases |ls|
  {
    if ls == [] {
      NoCodesUpTo(num, l);
    } else {
      var s, x := ls[..|ls| - 1], ls[|ls| - 1];
      var num' := num[x := num[x] - 1];
      LessOne(num, ls);
      Rank(num', s, l);
      TotalUpdate(num, 0, l, x, num[x] - 1);
      if x > l && s != [] { assert s[|s| - 1] >= x; }
    }
  }

  lemma NoCodesUpTo(num: seq<int>, l: nat)
    requires LengthCounts(num, []) && l <= 32
    ensures Total(num, 0, l) == 0
  {
    forall k | 0 <= k < 33 ensures num[k] == 0 { CountLenNone([], k); }
    NoCodes(num, l);
  }

  lemma LessOne(num: seq<int>, ls: seq<nat>)
    requires LengthCounts(num, ls) && ls != [] && ls[|ls| - 1] <= 32
    ensures var x := ls[|ls| - 1]; LengthCounts(num[x := num[x] - 1], ls[..|ls| - 1])
  {
    var s, x := ls[..|ls| - 1], ls[|ls| - 1];
    forall l | 0 <= l < 33 ensures num[x := num[x] - 1][l] == CountLen(s, l) { }
  }

  lemma {:induction false} TotalSame(a: seq<int>, b: seq<int>, l: nat)
    requires l < |a| && l < |b| && forall j :: 0 <= j <= l ==> a[j] == b[j]
    ensures Total(a, 0, l) == Total(b, 0, l)
  {
    if l > 0 {
      TotalSame(a, b, l - 1);
    }
  }

  /** Two lists of lengths with the same counts up to i, and no more of length i in the second,
      are equal where the second has length i or less. */
  lemma SameShort(num0: seq<int>, ls: seq<nat>, num: seq<int>, ns: seq<nat>, i: nat)
    requires LengthCounts(num0, ls) && Falling(ls) && Lengths(ls) && LengthCounts(num, ns) && Falling(ns) && Lengths(ns)
    requires |ls| == |ns| && 1 <= i <= 32 && (forall j :: 0 <= j < i ==> num[j] == num0[j]) && num[i] <= num0[i]
    ensures 0 <= Total(num, 0, i) <= |ns|
    ensures forall p :: 0 <= p < |ns| && p >= |ns| - Total(num, 0, i) ==> ns[p] == ls[p] <= i
    ensures forall p :: 0 <= p < |ns| && p < |ns| - Total(num, 0, i) ==> ns[p] > i && ls[p] >= i
  {
    hide LengthCounts, Total, Falling;
    CountRange(num, ns);
    Rank(num, ns, i);
    forall p | 0 <= p < |ns|
      ensures if p >= |ns| - Total(num, 0, i) then ns[p] == ls[p] <= i else ns[p] > i && ls[p] >= i
    {
      if p >= |ns| - Total(num, 0, i) {
        NotLonger(num0, ls, num, ns, i, p);
        NotShorter(num0, ls, num, ns, i, p);
      } else if ls[p] < i {
        NotLonger(num0, ls, num, ns, i, p);
      }
    }
  }

  lemma NotLonger(num0: seq<int>, ls: seq<nat>, num: seq<int>, ns: seq<nat>, i: nat, p: nat)
    requires LengthCounts(num0, ls) && Falling(ls) && Lengths(ls) && LengthCounts(num, ns) && Falling(ns) && Lengths(ns)
    requires |ls| == |ns| && 1 <= i <= 32 && (forall j :: 0 <= j < i ==> num[j] == num0[j]) && p < |ns|
    ensures ls[p] < i ==> ns[p] <= ls[p]
  {
    if ls[p] < i {
      Rank(num0, ls, ls[p]);
      Rank(num, ns, ls[p]);
      TotalSame(num, num0, ls[p]);
    }
  }

  lemma NotShorter(num0: seq<int>, ls: seq<nat>, num: seq<int>, ns: seq<nat>, i: nat, p: nat)
    requires LengthCounts(num0, ls) && Falling(ls) && Lengths(ls) && LengthCounts(num, ns) && Falling(ns) && Lengths(ns)
    requires |ls| == |ns| && 1 <= i <= 32 && (forall j :: 0 <= j < i ==> num[j] == num0[j]) && num[i] <= num0[i] && p < |ns|
    ensures ns[p] <= i ==> ls[p] <= ns[p]
  {
    if ns[p] <= i {
      Rank(num, ns, ns[p]);
      Rank(num0, ls, ns[p]);
      if ns[p] < i {
        TotalSame(num, num0, ns[p]);
      } else {
        TotalSame(num, num0, i - 1);
      }
    }
  }

  // ---------- the codes that are not short weigh little ----------

  lemma {:induction false} KraftAppend(a: seq<nat>, b: seq<nat>, max: nat)
    ensures Kraft(a + b, max) == Kraft(a, max) + Kraft(b, max)
  {
    if a == [] {
      assert a + b == b;
    } else {
      assert (a + b)[1..] == a[1..] + b;
      KraftAppend(a[1..], b, max);
    }
  }

  function Cut(num: seq<int>, i: nat): (r: seq<int>)
    ensures |r| == |num| && forall j :: 0 <= j < |num| ==> r[j] == if j <= i then num[j] else 0
  {
    seq(|num|, j requires 0 <= j < |num| => if j <= i then num[j] else 0)
  }

  /** The Kraft sum of the longer codes is what is missing above length i. */
  lemma LongKraft(num: seq<int>, ns: seq<nat>, b: nat, i: nat)
    requires LengthCounts(num, ns) && Lengths(ns) && b <= |ns| && i <= 32
    requires forall p :: 0 <= p < |ns| ==> (ns[p] > i <==> p < b)
    ensures Kraft(ns[..b], 32) == KraftTo(num, 32, 32) - KraftTo(num, i, 32)
  {
    hide Kraft, KraftTo, CountLen;
    CountsKraft(num, ns);
    assert ns == ns[..b] + ns[b..];
    KraftAppend(ns[..b], ns[b..], 32);
    var c := Cut(num, i);
    forall l | 0 <= l < 33 ensures c[l] == CountLen(ns[b..], l) {
      CountLenAppend(ns[..b], ns[b..], l);
      if l <= i { CountLenNone(ns[..b], l); } else { CountLenNone(ns[b..], l); }
    }
    CountsKraft(c, ns[b..]);
    KraftZero(c, i, 32, 32);
    KraftSame(c, num, i, 32);
  }

  lemma LongKraftBound(num0: seq<int>, num: seq<int>, ns: seq<nat>, b: nat, i: nat)
    requires LengthCounts(num, ns) && b <= |ns| <= 288 && Frontier(num0, num, |ns|, 15, i) && i < 15
    requires forall p :: 0 <= p < |ns| ==> 1 <= ns[p] <= 15 && (ns[p] > i <==> p < b)
    ensures i >= 7 && Kraft(ns[..b], 32) <= 544 * Pow2(17)
  {
    hide Kraft, KraftTo, CountLen, Pow2;
    LongKraft(num, ns, b, i);
    forall l | 15 < l <= 32 ensures num[l] == 0 { CountLenNone(ns, l); }
    KraftZero(num, 15, 32, 32);
    KraftToScale(num, 15, 15, 17);
    KraftToScale(num, i, 15, 17);
    LastTerm(num);
    AtMost8(15 - i);
    Gap(KraftTo(num, 15, 15), KraftTo(num, i, 15), Pow2(17));
  }

  lemma AtMost8(k: nat)
    requires Pow2(k) < 288
    ensures k <= 8 && Pow2(k) <= 256
  {
    Pow2Values();
    assert Pow2(9) == 512;
    if k >= 9 { Pow2Mono(9, k); } else { Pow2Mono(k, 8); }
  }

  lemma LastTerm(num: seq<int>)
    requires |num| == 33
    ensures KraftTo(num, 15, 15) == KraftTo(num, 14, 15) + num[15]
  {
    assert Pow2(0) == 1;
  }

  lemma Gap(a: int, b: int, p: nat)
    requires a - b <= 544
    ensures a * p - b * p <= 544 * p
  {
    assert (544 - (a - b)) * p >= 0;
  }

  // ---------- the exchange ----------

  /** Shortening some codes by up to four bits, and others not, in units half as large. */
  lemma {:induction false} KraftShorter(ls: seq<nat>, ks: seq<nat>)
    requires |ls| == |ks| && forall p :: 0 <= p < |ls| ==> ls[p] <= 32 && ks[p] <= 33 && ks[p] + 4 >= ls[p]
    ensures Kraft(ks, 33) <= 32 * Kraft(ls, 32)
  {
    hide Pow2;
    if ls != [] {
      KraftShorter(ls[1..], ks[1..]);
      FourShorter(ls[0], ks[0]);
    }
  }

  lemma FourShorter(l: nat, k: nat)
    requires l <= 32 && k <= 33 && k + 4 >= l
    ensures Pow2(33 - k) <= 32 * Pow2(32 - l)
  {
    Pow2Mono(33 - k, 37 - l);
    Pow2Add(32 - l, 5);
    assert Pow2(5) == 32;
  }

  lemma {:induction false} KraftLonger(ls: seq<nat>, ks: seq<nat>)
    requires |ls| == |ks| && forall p :: 0 <= p < |ls| ==> ls[p] <= 32 && ks[p] == ls[p] + 1
    ensures Kraft(ks, 33) == Kraft(ls, 32)
  {
    if ls != [] {
      KraftLonger(ls[1..], ks[1..]);
    }
  }

  /** The costs of three lists of lengths that differ by multiples of u, or by one. */
  lemma {:induction false} CostLinear(f: seq<nat>, ls: seq<nat>, ns: seq<nat>, ks: seq<nat>, u: seq<nat>)
    requires |f| == |ls| == |ns| == |ks| == |u|
    requires forall p :: 0 <= p < |f| ==> ns[p] <= ls[p] + 8 * u[p] && ks[p] + 5 * u[p] == ls[p] + 1
    ensures Cost(f, ns) <= Cost(f, ls) + 8 * Cost(f, u)
    ensures Cost(f, ks) + 5 * Cost(f, u) == Cost(f, ls) + Sum(f)
  {
    if f != [] {
      CostLinear(f[1..], ls[1..], ns[1..], ks[1..], u[1..]);
      Terms(f[0], ls[0], ns[0], ks[0], u[0]);
    }
  }

  lemma Terms(f: nat, l: nat, n: nat, k: nat, u: nat)
    requires n <= l + 8 * u && k + 5 * u == l + 1
    ensures f * n <= f * l + 8 * (f * u) && f * k + 5 * (f * u) == f * l + f
  {
    assert f * (l + 8 * u - n) >= 0;
    assert f * (k + 5 * u) == f * (l + 1);
  }

  /** Which codes got longer, at most: those of length i to 14 that are not short. */
  function Touched(ls: seq<nat>, b: nat): (u: seq<nat>)
    ensures |u| == |ls| && forall p :: 0 <= p < |ls| ==> u[p] == if p < b && ls[p] < 15 then 1 else 0
  {
    seq(|ls|, p requires 0 <= p < |ls| => if p < b && ls[p] < 15 then 1 else 0)
  }

  /** Those codes shortened by four bits, all others lengthened by one. */
  function Exchanged(ls: seq<nat>, b: nat): (ks: seq<nat>)
    requires forall p :: 0 <= p < |ls| && p < b ==> ls[p] >= 4
    ensures |ks| == |ls| && forall p :: 0 <= p < |ls| ==> ks[p] == if p < b && ls[p] < 15 then ls[p] - 4 else ls[p] + 1
  {
    seq(|ls|, p requires 0 <= p < |ls| => if p < b && ls[p] < 15 then ls[p] - 4 else ls[p] + 1)
  }

  lemma ExchangedFeasible(ls: seq<nat>, b: nat)
    requires b <= |ls| && (forall p :: 0 <= p < |ls| ==> ls[p] <= 32) && forall p :: 0 <= p < b ==> ls[p] >= 4
    requires Kraft(ls, 32) == Pow2(32) && Kraft(ls[..b], 32) <= 544 * Pow2(17)
    ensures Feasible(Exchanged(ls, b), 33)
  {
    hide Kraft, Pow2;
    var ks := Exchanged(ls, b);
    assert ls == ls[..b] + ls[b..] && ks == ks[..b] + ks[b..];
    KraftAppend(ls[..b], ls[b..], 32);
    KraftAppend(ks[..b], ks[b..], 33);
    KraftShorter(ls[..b], ks[..b]);
    KraftLonger(ls[b..], ks[b..]);
    Room(Kraft(ls[..b], 32), Kraft(ls[b..], 32));
  }

  lemma Room(x: nat, y: nat)
    requires x + y == Pow2(32) && x <= 544 * Pow2(17)
    ensures 32 * x + y <= Pow2(33)
  {
    Pow2Add(17, 15);
    assert Pow2(15) == 32768 by { Pow2Add(7, 8); Pow2Values(); }
    assert Pow2(33) == 2 * Pow2(32);
    assert Pow2(17) * 32768 == Pow2(32);
  }

  lemma FullKraft(num: seq<int>, ns: seq<nat>)
    requires LengthCounts(num, ns) && KraftTo(num, 15, 15) == Pow2(15)
    requires forall p :: 0 <= p < |ns| ==> 1 <= ns[p] <= 15
    ensures Kraft(ns, 32) == Pow2(32)
  {
    hide Kraft, KraftTo, CountLen;
    CountsKraft(num, ns);
    forall l | 15 < l <= 32 ensures num[l] == 0 { CountLenNone(ns, l); }
    KraftZero(num, 15, 32, 32);
    KraftToScale(num, 15, 15, 17);
    Pow2Add(15, 17);
  }

  /** An optimal code of sorted frequencies f, and the code that limiting makes of it. */
  ghost predicate Limited(f: seq<nat>, ls: seq<nat>, num0: seq<int>, num: seq<int>, i: nat)
  {
    && 2 <= |f| <= 288 && MinimumRedundancy(f, ls)
    && LengthCounts(num0, ls) && Frontier(num0, num, |f|, 15, i) && (i == 15 ==> num[15] == num0[15])
    && KraftTo(num, 15, 15) == Pow2(15)
  }

  /** Limiting the lengths costs at most 8/5 of a bit a symbol: what it makes longer is at most
      a fifth of all symbols, or else the code was not optimal, and no code grows by more than 8 bits. */
  lemma SmallLoss(f: seq<nat>, ls: seq<nat>, num0: seq<int>, num: seq<int>, i: nat, ns: seq<nat>)
    requires Limited(f, ls, num0, num, i) && LengthCounts(num, ns) && |ns| == |f| && Falling(ns)
    requires forall p :: 0 <= p < |ns| ==> 1 <= ns[p] <= 15
    ensures 5 * Cost(f, ns) <= 5 * Cost(f, ls) + 8 * Sum(f)
  {
    hide Cost, Kraft, CountLen, KraftTo, Total, Sum, LengthCounts, Optimal, Pow2;
    CountRange(num0, ls);
    SameShort(num0, ls, num, ns, i);
    var b: nat := |ns| - Total(num, 0, i);
    if i == 15 {
      Rank(num, ns, 15);
      assert ns == ls;
    } else {
      LongKraftBound(num0, num, ns, b, i);
      FullKraft(num, ns);
      SameKraft(num, ls, ns, b);
      TouchedLoss(f, ls, ns, b);
    }
  }

  lemma TouchedLoss(f: seq<nat>, ls: seq<nat>, ns: seq<nat>, b: nat)
    requires |f| == |ls| == |ns| && b <= |ls| && MinimumRedundancy(f, ls) && Kraft(ls[..b], 32) <= 544 * Pow2(17)
    requires forall p :: 0 <= p < |ns| ==> ns[p] <= 15 && if p < b then ls[p] >= 7 else ns[p] == ls[p]
    ensures 5 * Cost(f, ns) <= 5 * Cost(f, ls) + 8 * Sum(f)
  {
    hide Cost, Kraft, Sum, Optimal, Pow2;
    ExchangedFeasible(ls, b);
    BestIs(f, ls, Exchanged(ls, b));
    CostLinear(f, ls, ns, Exchanged(ls, b), Touched(ls, b));
  }

  lemma BestIs(f: seq<nat>, ls: seq<nat>, ks: seq<nat>)
    requires |f| == |ls| == |ks| && Optimal(f, ls) && Feasible(ks, 33)
    ensures Cost(f, ls) <= Cost(f, ks)
  {
  }

  lemma CountRange(num0: seq<int>, ls: seq<nat>)
    requires LengthCounts(num0, ls)
    ensures |num0| == 33
  {
  }

  lemma SameKraft(num: seq<int>, ls: seq<nat>, ns: seq<nat>, b: nat)
    requires |ls| == |ns| && b <= |ns| && ls[b..] == ns[b..] && Kraft(ls, 32) == Kraft(ns, 32)
    ensures Kraft(ls[..b], 32) == Kraft(ns[..b], 32)
  {
    assert ls == ls[..b] + ls[b..] && ns == ns[..b] + ns[b..];
    KraftAppend(ls[..b], ls[b..], 32);
    KraftAppend(ns[..b], ns[b..], 32);
  }
}
