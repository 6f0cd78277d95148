/** Code lengths and the number of codes of each length. */
module LengthCounting {
  import opened Bits
  import opened CanonicalCode
  import opened MinRedundancy
  import opened LengthLimit

  /** num counts lens, length by length. */
  predicate LengthCounts(num: seq<int>, lens: seq<nat>)
  {
    |num| == 33 && forall l :: 0 <= l < 33 ==> num[l] == CountLen(lens, l)
  }

  lemma {:induction false} KraftSnoc(lens: seq<nat>, x: nat, max: nat)
    requires x <= max
    ensures Kraft(lens + [x], max) == Kraft(lens, max) + Pow2(max - x)
  {
    if lens == [] {
      assert ([] + [x])[1..] == [];
    } else {
      assert (lens + [x])[1..] == lens[1..] + [x];
      KraftSnoc(lens[1..], x, max);
    }
  }

  lemma CountsSnoc(num: seq<int>, lens: seq<nat>, x: nat)
    requires LengthCounts(num, lens) && x < 33
    ensures LengthCounts(num[x := num[x] + 1], lens + [x])
  {
    assert (lens + [x])[..|lens|] == lens;
  }

  /** Kraft sum and number of codes, read off the counts. */
  lemma {:induction false} CountsKraft(num: seq<int>, lens: seq<nat>)
    requires LengthCounts(num, lens) && forall i :: 0 <= i < |lens| ==> 1 <= lens[i] <= 32
    ensures KraftTo(num, 32, 32) == Kraft(lens, 32) && Total(num, 0, 32) == |lens|
    decreases |lens|
  {
    if lens == [] {
      NoCodes(num, 32);
    } else {
      var s, x := lens[..|lens| - 1], lens[|lens| - 1];
      assert lens == s + [x];
      var num' := num[x := num[x] - 1];
      forall l | 0 <= l < 33 ensures num'[l] == CountLen(s, l) { }
      CountsKraft(num', s);
      KraftSnoc(s, x, 32);
      KraftToUpdate(num, 32, 32, x, num[x] - 1);
      TotalUpdate(num, 0, 32, x, num[x] - 1);
      var p: int := Pow2(32 - x);
      assert (num[x] - 1 - num[x]) * p == -p;
    }
  }

  lemma {:induction false} NoCodes(num: seq<int>, k: nat)
    requires |num| == 33 && k <= 32 && forall l :: 0 <= l < 33 ==> num[l] == 0
    ensures KraftTo(num, k, 32) == 0 && Total(num, 0, k) == 0
  {
    if k > 0 {
      NoCodes(num, k - 1);
    }
  }

  lemma {:induction false} CountLenNone(lens: seq<nat>, l: nat)
    requires forall i :: 0 <= i < |lens| ==> lens[i] != l
    ensures CountLen(lens, l) == 0
  {
    if lens != [] {
      CountLenNone(lens[..|lens| - 1], l);
    }
  }
}
