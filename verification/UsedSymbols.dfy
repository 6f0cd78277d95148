/** Sums over the symbols in use, in table order and in the order of the sort; and how near the
    limited code lengths of a table come to the best. */
module UsedSymbols {
  import opened Bits
  import opened CanonicalCode
  import opened MinRedundancy
  import opened MinRedundancyOptimal
  import opened LengthLimit
  import opened LengthCounting
  import opened LimitLoss

  /** What the sort and the length computation know of the symbols in use. */
  ghost predicate SymbolsOf(count: seq<nat>, s: seq<SymFreq>)
  {
    && (forall p :: 0 <= p < |s| ==> s[p].sym < |count| && s[p].key > 0 && count[s[p].sym] == s[p].key)
    && (forall p, q :: 0 <= p < q < |s| ==> s[p].sym != s[q].sym)
    && (forall i :: 0 <= i < |count| && count[i] > 0 ==> exists p :: 0 <= p < |s| && s[p].sym == i)
  }

  /** Sum of v over the symbols with a count. */
  function SumBy(count: seq<nat>, v: seq<nat>): nat
    requires |count| == |v|
  {
    if count == [] then 0 else (if count[0] > 0 then v[0] else 0) + SumBy(count[1..], v[1..])
  }

  predicate Within(s: seq<SymFreq>, n: nat)
  {
    forall p :: 0 <= p < |s| ==> s[p].sym < n
  }

  /** v, in the order of s. */
  function At(v: seq<nat>, s: seq<SymFreq>): (r: seq<nat>)
    requires Within(s, |v|)
    ensures |r| == |s| && forall p :: 0 <= p < |s| ==> r[p] == v[s[p].sym]
  {
    seq(|s|, p requires 0 <= p < |s| => v[s[p].sym])
  }

  lemma {:induction false} SumByUpdate(count: seq<nat>, v: seq<nat>, i: nat)
    requires |count| == |v| && i < |count| && count[i] > 0
    ensures SumBy(count, v) == SumBy(count[i := 0], v) + v[i]
  {
    if i == 0 {
      assert count[0 := 0][1..] == count[1..];
    } else {
      assert count[i := 0][1..] == count[1..][i - 1 := 0];
      SumByUpdate(count[1..], v[1..], i - 1);
    }
  }

  lemma {:induction false} SumByNone(count: seq<nat>, v: seq<nat>)
    requires |count| == |v| && forall i :: 0 <= i < |count| ==> count[i] == 0
    ensures SumBy(count, v) == 0
  {
    if count != [] {
      SumByNone(count[1..], v[1..]);
    }
  }

  lemma WithoutFirst(count: seq<nat>, s: seq<SymFreq>)
    requires SymbolsOf(count, s) && s != []
    ensures SymbolsOf(count[s[0].sym := 0], s[1..])
  {
    var c := count[s[0].sym := 0];
    forall i | 0 <= i < |c| && c[i] > 0
      ensures exists p :: 0 <= p < |s[1..]| && s[1..][p].sym == i
    {
      var p :| 0 <= p < |s| && s[p].sym == i;
      assert s[1..][p - 1].sym == i;
    }
  }

  /** The order does not matter. */
  lemma {:induction false} Reordered(count: seq<nat>, s: seq<SymFreq>, v: seq<nat>)
    requires SymbolsOf(count, s) && |v| == |count|
    ensures Within(s, |v|) && Sum(At(v, s)) == SumBy(count, v)
    decreases |s|
  {
    if s == [] {
      SumByNone(count, v);
    } else {
      WithoutFirst(count, s);
      Reordered(count[s[0].sym := 0], s[1..], v);
      SumByUpdate(count, v, s[0].sym);
      assert At(v, s)[1..] == At(v, s[1..]);
    }
  }

  // ---------- costs, Kraft sums and counts of lengths ----------

  function Products(ws: seq<nat>, ls: seq<nat>): (r: seq<nat>)
    requires |ws| == |ls|
    ensures |r| == |ws| && forall i :: 0 <= i < |ws| ==> r[i] == ws[i] * ls[i]
  {
    seq(|ws|, i requires 0 <= i < |ws| => ws[i] * ls[i])
  }

  lemma {:induction false} CostIsSum(ws: seq<nat>, ls: seq<nat>)
    requires |ws| == |ls|
    ensures Cost(ws, ls) == Sum(Products(ws, ls)) == SumBy(ws, Products(ws, ls))
  {
    if ws != [] {
      CostIsSum(ws[1..], ls[1..]);
      assert Products(ws, ls)[1..] == Products(ws[1..], ls[1..]);
    }
  }

  lemma CostReordered(count: seq<nat>, s: seq<SymFreq>, ls: seq<nat>)
    requires SymbolsOf(count, s) && |ls| == |count|
    ensures Within(s, |ls|) && Cost(Keys(s), At(ls, s)) == Cost(count, ls)
  {
    var v := Products(count, ls);
    Reordered(count, s, v);
    CostIsSum(count, ls);
    CostIsSum(Keys(s), At(ls, s));
    assert Products(Keys(s), At(ls, s)) == At(v, s);
  }

  function Powers(ls: seq<nat>, max: nat): (r: seq<nat>)
    ensures |r| == |ls| && forall i :: 0 <= i < |ls| ==> r[i] == if ls[i] <= max then Pow2(max - ls[i]) else 0
  {
    seq(|ls|, i requires 0 <= i < |ls| => if ls[i] <= max then Pow2(max - ls[i]) else 0)
  }

  lemma {:induction false} KraftIsSum(ls: seq<nat>, max: nat)
    ensures Kraft(ls, max) == Sum(Powers(ls, max))
  {
    if ls != [] {
      KraftIsSum(ls[1..], max);
      assert Powers(ls, max)[1..] == Powers(ls[1..], max);
    }
  }

  lemma {:induction false} SumByLess(count: seq<nat>, v: seq<nat>)
    requires |count| == |v|
    ensures SumBy(count, v) <= Sum(v)
  {
    if count != [] {
      SumByLess(count[1..], v[1..]);
    }
  }

  /** Lengths that a prefix code can have, of the symbols in use only. */
  lemma FeasibleReordered(count: seq<nat>, s: seq<SymFreq>, ls: seq<nat>, max: nat)
    requires SymbolsOf(count, s) && |ls| == |count| && Feasible(ls, max)
    ensures Within(s, |ls|) && Feasible(At(ls, s), max)
  {
    var v := Powers(ls, max);
    Reordered(count, s, v);
    SumByLess(count, v);
    KraftIsSum(ls, max);
    KraftIsSum(At(ls, s), max);
    assert Powers(At(ls, s), max) == At(v, s);
  }

  function Hits(ls: seq<nat>, l: nat): (r: seq<nat>)
    ensures |r| == |ls| && forall i :: 0 <= i < |ls| ==> r[i] == if ls[i] == l then 1 else 0
  {
    seq(|ls|, i requires 0 <= i < |ls| => if ls[i] == l then 1 else 0)
  }

  lemma {:induction false} CountIsSum(count: seq<nat>, ls: seq<nat>, l: nat)
    requires |count| == |ls| && forall i :: 0 <= i < |ls| && ls[i] == l ==> count[i] > 0
    ensures CountLen(ls, l) == Sum(Hits(ls, l)) == SumBy(count, Hits(ls, l))
  {
    if ls != [] {
      CountIsSum(count[1..], ls[1..], l);
      assert Hits(ls, l)[1..] == Hits(ls[1..], l);
      assert ls == [ls[0]] + ls[1..] && [ls[0]][..0] == [];
      CountLenAppend([ls[0]], ls[1..], l);
    }
  }

  lemma CountReordered(count: seq<nat>, s: seq<SymFreq>, ls: seq<nat>, l: nat)
    requires SymbolsOf(count, s) && |ls| == |count| && l >= 1 && forall i :: 0 <= i < |ls| ==> (ls[i] > 0 <==> count[i] > 0)
    ensures Within(s, |ls|) && CountLen(At(ls, s), l) == CountLen(ls, l)
  {
    var v := Hits(ls, l);
    Reordered(count, s, v);
    CountIsSum(count, ls, l);
    CountIsSum(Keys(s), At(ls, s), l);
    assert Hits(At(ls, s), l) == At(v, s);
  }

  // ---------- near to the best ----------

  /** No feasible lengths beat these by more than 8/5 of a bit a symbol. */
  ghost predicate NearOptimal(count: seq<nat>, sizes: seq<nat>)
  {
    && |sizes| == |count|
    && forall ls: seq<nat>, max: nat :: |ls| == |count| && Feasible(ls, max) ==> 5 * Cost(count, sizes) <= 5 * Cost(count, ls) + 8 * Sum(count)
  }

  /** A single code, of length 1. */
  lemma FewNearOptimal(count: seq<nat>, sizes: seq<nat>)
    requires |sizes| == |count| && forall i :: 0 <= i < |sizes| ==> sizes[i] <= 1
    ensures NearOptimal(count, sizes)
  {
    CostOfOnes(count, sizes);
  }

  lemma {:induction false} CostOfOnes(count: seq<nat>, sizes: seq<nat>)
    requires |sizes| == |count| && forall i :: 0 <= i < |sizes| ==> sizes[i] <= 1
    ensures Cost(count, sizes) <= Sum(count)
  {
    if count != [] {
      CostOfOnes(count[1..], sizes[1..]);
    }
  }

  function Histogram(ls: seq<nat>): (h: seq<int>)
    ensures LengthCounts(h, ls)
  {
    seq(33, l requires 0 <= l => CountLen(ls, l))
  }

  /** Only counts up to length 15 matter. */
  lemma SameLimited(f: seq<nat>, lens: seq<nat>, num0: seq<int>, num: seq<int>, h: seq<int>, i: nat)
    requires Limited(f, lens, num0, num, i) && |h| == 33 && forall j :: 0 <= j <= 15 ==> h[j] == num[j]
    ensures Limited(f, lens, num0, h, i)
  {
    hide KraftTo, MinimumRedundancy, LengthCounts;
    KraftSame(num, h, 15, 15);
    KraftSame(num, h, 14, 15);
    KraftSame(num, h, i, 15);
  }

  /** Lengths given out in the order of the sort, as many of each as limiting left. */
  lemma TableNearOptimal(count: seq<nat>, s: seq<SymFreq>, lens: seq<nat>, num0: seq<int>, num: seq<int>, i: nat, sizes: seq<nat>)
    requires SymbolsOf(count, s) && |sizes| == |count| && Limited(Keys(s), lens, num0, num, i) && Sum(Keys(s)) == Sum(count)
    requires forall x :: 0 <= x < |sizes| ==> sizes[x] <= 15 && (sizes[x] > 0 <==> count[x] > 0)
    requires Within(s, |sizes|) && Falling(At(sizes, s)) && forall l :: 1 <= l <= 15 ==> num[l] == CountLen(sizes, l)
    ensures NearOptimal(count, sizes)
  {
    hide Limited, CountLen, Sum, Cost, Feasible, SymbolsOf;
    var ns := At(sizes, s);
    var h := Histogram(ns);
    LimitedFacts(Keys(s), lens, num0, num, i);
    PositiveAt(count, s, sizes);
    CountLenNone(lens, 0);
    CountLenNone(ns, 0);
    forall l | 1 <= l <= 15 ensures h[l] == num[l] { CountReordered(count, s, sizes, l); }
    SameLimited(Keys(s), lens, num0, num, h, i);
    SmallLoss(Keys(s), lens, num0, h, i, ns);
    CostReordered(count, s, sizes);
    forall ls: seq<nat>, max: nat | |ls| == |count| && Feasible(ls, max)
      ensures 5 * Cost(count, sizes) <= 5 * Cost(count, ls) + 8 * Sum(count)
    {
      FeasibleReordered(count, s, ls, max);
      CostReordered(count, s, ls);
      LimitedBest(Keys(s), lens, num0, num, i, At(ls, s), max);
    }
  }

  lemma PositiveAt(count: seq<nat>, s: seq<SymFreq>, sizes: seq<nat>)
    requires SymbolsOf(count, s) && |sizes| == |count| && Within(s, |sizes|)
    requires forall x :: 0 <= x < |sizes| ==> sizes[x] <= 15 && (sizes[x] > 0 <==> count[x] > 0)
    ensures forall p :: 0 <= p < |s| ==> 1 <= At(sizes, s)[p] <= 15
  {
  }

  lemma LimitedFacts(f: seq<nat>, lens: seq<nat>, num0: seq<int>, num: seq<int>, i: nat)
    requires Limited(f, lens, num0, num, i)
    ensures |f| == |lens| && |num0| == |num| == 33 && num[0] == num0[0] == CountLen(lens, 0)
    ensures forall p :: 0 <= p < |lens| ==> lens[p] >= 1
  {
  }

  lemma LimitedBest(f: seq<nat>, lens: seq<nat>, num0: seq<int>, num: seq<int>, i: nat, ls: seq<nat>, max: nat)
    requires Limited(f, lens, num0, num, i) && |ls| == |f| && Feasible(ls, max)
    ensures |lens| == |f| && Cost(f, lens) <= Cost(f, ls)
  {
  }
}
