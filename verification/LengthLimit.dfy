/** Limiting code lengths (tdefl_huffman_enforce_max_code_size, src/http/miniz.c:1858-1869).
    Only the number of codes of each length is looked at. */
module LengthLimit {
  import opened Bits

  const MAX_SUPPORTED := 32

  /** Sum over lengths 1..k of the number of codes times 2^(m - length). */
  function KraftTo(num: seq<int>, k: nat, m: nat): int
    requires k < |num| && k <= m
  {
    if k == 0 then 0 else KraftTo(num, k - 1, m) + num[k] * Pow2(m - k)
  }

  /** How many codes have a length lo < length <= hi. */
  function Total(num: seq<int>, lo: nat, hi: nat): int
    requires lo <= hi < |num|
  {
    if lo == hi then 0 else Total(num, lo, hi - 1) + num[hi]
  }

  predicate Nonneg(num: seq<int>)
  {
    forall i :: 0 <= i < |num| ==> num[i] >= 0
  }

  lemma {:induction false} KraftToUpdate(num: seq<int>, k: nat, m: nat, i: nat, v: int)
    requires k < |num| && k <= m && 0 < i < |num|
    ensures KraftTo(num[i := v], k, m) == KraftTo(num, k, m) + (if i <= k then (v - num[i]) * Pow2(m - i) else 0)
  {
    if k > 0 {
      KraftToUpdate(num, k - 1, m, i, v);
      if i == k {
        var p := Pow2(m - k);
        assert v * p == num[k] * p + (v - num[k]) * p;
      }
    }
  }

  lemma {:induction false} TotalUpdate(num: seq<int>, lo: nat, hi: nat, i: nat, v: int)
    requires lo <= hi < |num| && i < |num|
    ensures Total(num[i := v], lo, hi) == Total(num, lo, hi) + (if lo < i <= hi then v - num[i] else 0)
  {
    if lo < hi {
      TotalUpdate(num, lo, hi - 1, i, v);
    }
  }

  lemma {:induction false} TotalSplit(num: seq<int>, lo: nat, mid: nat, hi: nat)
    requires lo <= mid <= hi < |num|
    ensures Total(num, lo, hi) == Total(num, lo, mid) + Total(num, mid, hi)
  {
    if mid < hi {
      TotalSplit(num, lo, mid, hi - 1);
    }
  }

  lemma {:induction false} TotalNonneg(num: seq<int>, lo: nat, hi: nat)
    requires lo <= hi < |num| && Nonneg(num)
    ensures Total(num, lo, hi) >= 0
  {
    if lo < hi {
      TotalNonneg(num, lo, hi - 1);
    }
  }

  /** The same codes measured in finer units. */
  lemma {:induction false} KraftToScale(num: seq<int>, k: nat, m: nat, e: nat)
    requires k < |num| && k <= m
    ensures KraftTo(num, k, m + e) == KraftTo(num, k, m) * Pow2(e)
  {
    if k > 0 {
      KraftToScale(num, k - 1, m, e);
      Pow2Add(m - k, e);
      Scale(KraftTo(num, k - 1, m), num[k], Pow2(m - k), Pow2(e));
    }
  }

  lemma Scale(a: int, n: int, p: int, q: int)
    ensures a * q + n * (p * q) == (a + n * p) * q
  {
  }

  /** Codes longer than m take at least one unit each, and at most half of what a code of length m takes. */
  lemma {:induction false} LongCodes(num: seq<int>, m: nat, k: nat)
    requires m <= k <= 32 && |num| == 33 && Nonneg(num)
    ensures Total(num, m, k) <= KraftTo(num, k, 32) - KraftTo(num, m, 32)
    ensures 2 * (KraftTo(num, k, 32) - KraftTo(num, m, 32)) <= Total(num, m, k) * Pow2(32 - m)
  {
    if m < k {
      LongCodes(num, m, k - 1);
      var p, t, r := Pow2(32 - k), Total(num, m, k - 1), Pow2(32 - m);
      Pow2Mono(32 - k + 1, 32 - m);
      assert 2 * p <= r;
      OneCode(num[k], p, r, t);
    }
  }

  lemma OneCode(n: int, p: int, r: int, t: int)
    requires n >= 0 && 1 <= p && 2 * p <= r
    ensures n <= n * p
    ensures 2 * (n * p) + t * r <= (t + n) * r
  {
    assert n * p >= n * 1 by { assert n * (p - 1) >= 0; }
    assert n * (r - 2 * p) >= 0;
  }

  /** After folding, the excess over a full code is non-negative and below the number of codes folded. */
  lemma FoldExcess(num: seq<int>, m: nat)
    requires 1 <= m < 32 && |num| == 33 && Nonneg(num) && KraftTo(num, 32, 32) == Pow2(32)
    ensures var f, t := Total(num, m, 32), KraftTo(num, m, m);
            t + f >= Pow2(m) && (t + f == Pow2(m) || t + f - Pow2(m) < f)
            && (f == 0 <==> t + f == Pow2(m)) && (f > 0 ==> t < Pow2(m))
  {
    LongCodes(num, m, 32);
    KraftToScale(num, m, m, 32 - m);
    Pow2Add(m, 32 - m);
    TotalNonneg(num, m, 32);
    var f, t, p, q := Total(num, m, 32), KraftTo(num, m, m), Pow2(32 - m), Pow2(m);
    var r := KraftTo(num, 32, 32) - KraftTo(num, m, 32);
    assert p >= 2;
    Excess(f, t, p, q, r);
  }

  lemma Excess(f: int, t: int, p: int, q: int, r: int)
    requires p >= 2 && f >= 0 && t * p + r == q * p && f <= r && 2 * r <= f * p
    ensures t + f >= q && (f > 0 ==> t + f - q < f) && (f == 0 <==> t + f == q)
  {
    var e := t + f - q;
    assert e * p == f * p - r;
  }

  /** If no code is shorter than m there can not be more than 2^m of them, so one can be split. */
  lemma {:induction false} AllAtLimit(num: seq<int>, k: nat, m: nat)
    requires k <= m < |num| && forall i :: 1 <= i <= k ==> num[i] == 0
    ensures KraftTo(num, k, m) == 0 && Total(num, 0, k) == 0
  {
    if k > 0 {
      AllAtLimit(num, k - 1, m);
    }
  }

  /** What the folding loop (src/http/miniz.c:1861) leaves. */
  function Folded(num: seq<int>, m: nat): seq<int>
    requires m < 32 && |num| == 33
  {
    num[m := num[m] + Total(num, m, 32)]
  }

  /** The repair loop's state: codes 1..m, `total` their Kraft sum, too large by less than the
      number of codes of length m. */
  ghost predicate Repairing(num: seq<int>, count: nat, m: nat, total: int)
  {
    && 1 <= m < 32 && |num| == 33 && Nonneg(num)
    && total == KraftTo(num, m, m) >= Pow2(m)
    && (total > Pow2(m) ==> total - Pow2(m) < num[m])
    && Total(num, 0, m) == count <= Pow2(m)
  }

  lemma StartRepairing(num: seq<int>, count: nat, m: nat)
    requires 1 <= m < 32 && |num| == 33 && Nonneg(num)
    requires KraftTo(num, 32, 32) == Pow2(32) && Total(num, 0, 32) == count <= Pow2(m)
    ensures Repairing(Folded(num, m), count, m, KraftTo(Folded(num, m), m, m))
    ensures Total(num, m, 32) == 0 <==> KraftTo(Folded(num, m), m, m) == Pow2(m)
    ensures Total(num, m, 32) != 0 ==> KraftTo(num, m, m) < Pow2(m)
  {
    hide KraftTo, Total;
    FoldExcess(num, m);
    TotalNonneg(num, m, 32);
    var f := Total(num, m, 32);
    KraftToUpdate(num, m, m, m, num[m] + f);
    assert Pow2(m - m) == 1;
    assert (num[m] + f - num[m]) * Pow2(m - m) == f;
    TotalUpdate(num, 0, m, m, num[m] + f);
    TotalSplit(num, 0, m, 32);
  }

  /** Counts after a code of length m and one of length i gave way to two of length i + 1. */
  function SplitAt(num: seq<int>, m: nat, i: nat): seq<int>
    requires i + 1 <= m < |num|
  {
    var a := num[m := num[m] - 1];
    var b := a[i := a[i] - 1];
    b[i + 1 := b[i + 1] + 2]
  }

  lemma SplitKraft(num: seq<int>, m: nat, i: nat)
    requires 1 <= i < m < |num|
    ensures KraftTo(SplitAt(num, m, i), m, m) == KraftTo(num, m, m) - 1
  {
    hide KraftTo;
    var a := num[m := num[m] - 1];
    var b := a[i := a[i] - 1];
    KraftToUpdate(num, m, m, m, num[m] - 1);
    KraftToUpdate(a, m, m, i, a[i] - 1);
    KraftToUpdate(b, m, m, i + 1, b[i + 1] + 2);
    var p: int := Pow2(m - (i + 1));
    assert Pow2(m - i) == 2 * p && Pow2(m - m) == 1;
    assert (b[i + 1] + 2 - b[i + 1]) * p == 2 * p;
    assert (a[i] - 1 - a[i]) * (2 * p) == -2 * p;
    assert (num[m] - 1 - num[m]) * 1 == -1;
  }

  lemma SplitTotal(num: seq<int>, m: nat, i: nat)
    requires 1 <= i < m < |num|
    ensures Total(SplitAt(num, m, i), 0, m) == Total(num, 0, m)
  {
    hide Total;
    var a := num[m := num[m] - 1];
    var b := a[i := a[i] - 1];
    TotalUpdate(num, 0, m, m, num[m] - 1);
    TotalUpdate(a, 0, m, i, a[i] - 1);
    TotalUpdate(b, 0, m, i + 1, b[i + 1] + 2);
  }

  /** Splitting lowers the Kraft sum by one and keeps the number of codes. */
  lemma Split(num: seq<int>, count: nat, m: nat, total: int, i: nat)
    requires Repairing(num, count, m, total) && total > Pow2(m) && 1 <= i < m && num[i] > 0
    ensures Repairing(SplitAt(num, m, i), count, m, total - 1)
  {
    hide KraftTo, Total;
    SplitKraft(num, m, i);
    SplitTotal(num, m, i);
  }

  /** There is always a code to split. */
  lemma CanSplit(num: seq<int>, count: nat, m: nat, total: int)
    requires Repairing(num, count, m, total) && total > Pow2(m)
    ensures num[m] >= 1 && exists i :: 1 <= i < m && num[i] > 0
  {
    if forall i :: 1 <= i <= m - 1 ==> num[i] == 0 {
      AllAtLimit(num, m - 1, m);
      KraftAtLimit(num, m);
    }
  }

  lemma KraftAtLimit(num: seq<int>, m: nat)
    requires 1 <= m < |num| && KraftTo(num, m - 1, m) == 0 && Total(num, 0, m - 1) == 0
    ensures KraftTo(num, m, m) == num[m] == Total(num, 0, m)
  {
    assert Pow2(m - m) == 1;
  }

  // ---------- how much the repair changes ----------

  /** How far down the repair has come. Shorter lengths than i have the codes they had; no code of
      length i was added; the codes in between, up to length m - 1, weigh no more than one code of length i;
      and there are more codes than fit below one of length i. With i == m nothing is repaired. */
  ghost predicate Frontier(num0: seq<int>, num: seq<int>, count: nat, m: nat, i: nat)
  {
    && |num0| == |num| == 33 && 1 <= i <= m < 32
    && (forall j :: 0 <= j < i ==> num[j] == num0[j])
    && (i < m ==> num[i] <= num0[i] && KraftTo(num, m - 1, m) - KraftTo(num, i, m) <= Pow2(m - i) && Pow2(m - i) < count)
  }

  lemma {:induction false} KraftZero(num: seq<int>, lo: nat, hi: nat, m: nat)
    requires lo <= hi < |num| && hi <= m && forall j :: lo < j <= hi ==> num[j] == 0
    ensures KraftTo(num, hi, m) == KraftTo(num, lo, m)
  {
    if lo < hi {
      KraftZero(num, lo, hi - 1, m);
    }
  }

  /** Between lo and hi, the split takes from length k what it gives to length k + 1. */
  lemma SplitBetween(num: seq<int>, m: nat, k: nat, lo: nat, hi: nat)
    requires 1 <= k < m < |num| && lo <= hi < m
    ensures var d := KraftTo(SplitAt(num, m, k), hi, m) - KraftTo(SplitAt(num, m, k), lo, m) - (KraftTo(num, hi, m) - KraftTo(num, lo, m));
            d == (if lo < k + 1 <= hi then Pow2(m - k) else 0) - (if lo < k <= hi then Pow2(m - k) else 0)
  {
    SplitUpTo(num, m, k, lo);
    SplitUpTo(num, m, k, hi);
  }

  lemma SplitUpTo(num: seq<int>, m: nat, k: nat, h: nat)
    requires 1 <= k < m < |num| && h < m
    ensures KraftTo(SplitAt(num, m, k), h, m) - KraftTo(num, h, m) == (if k + 1 <= h then Pow2(m - k) else 0) - (if k <= h then Pow2(m - k) else 0)
  {
    hide KraftTo;
    var a := num[m := num[m] - 1];
    var b := a[k := a[k] - 1];
    KraftToUpdate(num, h, m, m, num[m] - 1);
    KraftToUpdate(a, h, m, k, a[k] - 1);
    KraftToUpdate(b, h, m, k + 1, b[k + 1] + 2);
    var p: int := Pow2(m - (k + 1));
    assert Pow2(m - k) == 2 * p;
    assert (b[k + 1] + 2 - b[k + 1]) * p == 2 * p;
    assert (a[k] - 1 - a[k]) * (2 * p) == -2 * p;
  }

  /** A split below the frontier, at a length whose codes are all there: there are too many codes of length m
      for them to hang below one code of length k. */
  lemma FreshSplit(num0: seq<int>, num: seq<int>, count: nat, m: nat, total: int, k: nat)
    requires |num0| == 33 && Repairing(num, count, m, total) && total > Pow2(m) && KraftTo(num0, m, m) < Pow2(m) && Nonneg(num0)
    requires 1 <= k < m && (forall j :: 0 <= j <= k ==> num[j] == num0[j]) && forall j :: k < j < m ==> num[j] == 0
    ensures Pow2(m - k) < count
  {
    hide Repairing;
    RepairingFacts(num, count, m, total);
    RepairingSums(num, count, m, total);
    KraftZero(num, k, m - 1, m);
    KraftSame(num0, num, k, m);
    KraftMono(num0, k, m, m);
    KraftToScale(num0, k, k, m - k);
    Pow2Add(k, m - k);
    TotalNonneg(num, 0, m - 1);
    assert Pow2(m - m) == 1;
    BelowMultiple(KraftTo(num0, k, k), Pow2(k), Pow2(m - k));
  }

  lemma BelowMultiple(a: int, q: int, p: int)
    requires p >= 1 && a * p < q * p
    ensures a * p <= q * p - p
  {
    if a >= q { Product(a - q, p); } else { Product(q - a - 1, p); }
  }

  lemma Product(x: nat, p: int)
    requires p >= 1
    ensures x * p >= 0
  {
  }

  lemma RepairingSums(num: seq<int>, count: nat, m: nat, total: int)
    requires Repairing(num, count, m, total)
    ensures total == KraftTo(num, m, m) && Total(num, 0, m) == count
  {
  }

  lemma {:induction false} KraftSame(a: seq<int>, b: seq<int>, k: nat, m: nat)
    requires k < |a| && k < |b| && k <= m && forall j :: 0 <= j <= k ==> a[j] == b[j]
    ensures KraftTo(a, k, m) == KraftTo(b, k, m)
  {
    if k > 0 {
      KraftSame(a, b, k - 1, m);
    }
  }

  lemma {:induction false} KraftMono(num: seq<int>, k: nat, h: nat, m: nat)
    requires k <= h < |num| && h <= m && Nonneg(num)
    ensures KraftTo(num, k, m) <= KraftTo(num, h, m)
  {
    if k < h {
      KraftMono(num, k, h - 1, m);
      assert num[h] * Pow2(m - h) >= 0;
    }
  }

  /** One round of the repair moves the frontier down only when nothing is left above it. */
  lemma FrontierStep(num0: seq<int>, num: seq<int>, count: nat, m: nat, total: int, i: nat, k: nat)
    requires Frontier(num0, num, count, m, i) && Nonneg(num0) && KraftTo(num0, m, m) < Pow2(m)
    requires Repairing(num, count, m, total) && total > Pow2(m) && 1 <= k < m && forall j :: k < j < m ==> num[j] == 0
    ensures Frontier(num0, SplitAt(num, m, k), count, m, if k < i then k else i)
  {
    hide KraftTo, Repairing;
    RepairingFacts(num, count, m, total);
    if k > i {
      SplitBetween(num, m, k, i, m - 1);
    } else {
      SplitBetween(num, m, k, k, m - 1);
      KraftZero(num, k, m - 1, m);
      if k < i { FreshSplit(num0, num, count, m, total, k); }
    }
  }

  /** tdefl_huffman_enforce_max_code_size. From a complete code of at most 2^m symbols it makes a
      complete code of as many symbols, all of length at most m; a code that needs no limiting is
      left alone, and of any other only the codes from a length i on are touched. */
  method EnforceMaxCodeSize(num: array<int>, count: nat, m: nat) returns (ghost i: nat)
    requires num.Length == 33 && 1 <= m < 32 && Nonneg(num[..])
    requires count > 1 ==> KraftTo(num[..], 32, 32) == Pow2(32) && Total(num[..], 0, 32) == count <= Pow2(m)
    modifies num
    ensures count <= 1 ==> num[..] == old(num[..])
    ensures count > 1 ==> Nonneg(num[..]) && KraftTo(num[..], m, m) == Pow2(m) && Total(num[..], 0, m) == count
    ensures count > 1 && Total(old(num[..]), m, 32) == 0 ==> num[..] == old(num[..])
    ensures count > 1 ==> Frontier(old(num[..]), num[..], count, m, i) && (i == m ==> num[..] == old(num[..]))
  {
    hide KraftTo, Total, Repairing, Frontier, Limiting;
    i := m;
    if count <= 1 { return; }
    ghost var num0 := num[..];
    FoldLonger(num, m);
    StartLimiting(num0, count, m);
    var total := KraftSum(num, m);
    LimitingIsRepairing(num0, num[..], count, m, total, i);
    while total != Pow2(m)
      invariant Limiting(num0, num[..], count, m, total, i) && Repairing(num[..], count, m, total) && total >= Pow2(m)
      decreases total - Pow2(m)
    {
      ghost var num1 := num[..];
      ghost var k := SplitOne(num, count, m, total);
      LimitingStep(num0, num1, count, m, total, i, k);
      i := if k < i then k else i;
      total := total - 1;
      LimitingIsRepairing(num0, num[..], count, m, total, i);
    }
    EndLimiting(num0, num[..], count, m, i);
  }

  /** The state of the repair, against the counts before it. */
  ghost predicate Limiting(num0: seq<int>, num: seq<int>, count: nat, m: nat, total: int, i: nat)
  {
    && Repairing(num, count, m, total) && Frontier(num0, num, count, m, i) && Nonneg(num0)
    && (total > Pow2(m) ==> KraftTo(num0, m, m) < Pow2(m))
    && (i == m ==> num == Folded(num0, m)) && (Total(num0, m, 32) == 0 <==> i == m && total == Pow2(m))
  }

  lemma StartLimiting(num0: seq<int>, count: nat, m: nat)
    requires 1 <= m < 32 && |num0| == 33 && Nonneg(num0) && KraftTo(num0, 32, 32) == Pow2(32) && Total(num0, 0, 32) == count <= Pow2(m)
    ensures Limiting(num0, Folded(num0, m), count, m, KraftTo(Folded(num0, m), m, m), m)
  {
    hide KraftTo, Total, Repairing;
    StartRepairing(num0, count, m);
    Repaired(Folded(num0, m), count, m, KraftTo(Folded(num0, m), m, m));
  }

  lemma LimitingIsRepairing(num0: seq<int>, num: seq<int>, count: nat, m: nat, total: int, i: nat)
    requires Limiting(num0, num, count, m, total, i)
    ensures Repairing(num, count, m, total) && total >= Pow2(m)
  {
  }

  lemma LimitingStep(num0: seq<int>, num: seq<int>, count: nat, m: nat, total: int, i: nat, k: nat)
    requires Limiting(num0, num, count, m, total, i) && total > Pow2(m) && 1 <= k < m && forall j :: k < j < m ==> num[j] == 0
    requires Repairing(SplitAt(num, m, k), count, m, total - 1)
    ensures Limiting(num0, SplitAt(num, m, k), count, m, total - 1, if k < i then k else i)
  {
    hide KraftTo, Total, Repairing;
    FrontierStep(num0, num, count, m, total, i, k);
    hide Frontier;
  }

  lemma EndLimiting(num0: seq<int>, num: seq<int>, count: nat, m: nat, i: nat)
    requires Limiting(num0, num, count, m, Pow2(m), i)
    ensures Nonneg(num) && KraftTo(num, m, m) == Pow2(m) && Total(num, 0, m) == count
    ensures Frontier(num0, num, count, m, i) && (i == m ==> num == num0) && (Total(num0, m, 32) == 0 ==> num == num0)
  {
    hide KraftTo, Total, Frontier;
    assert |num0| == 33 && m < 33 by { FrontierShape(num0, num, count, m, i); }
    RepairedSums(num, count, m);
  }

  lemma FrontierShape(num0: seq<int>, num: seq<int>, count: nat, m: nat, i: nat)
    requires Frontier(num0, num, count, m, i)
    ensures |num0| == |num| == 33 && 1 <= i <= m < 32
  {
  }

  /** All lengths above m count as m (src/http/miniz.c:1861). */
  method FoldLonger(num: array<int>, m: nat)
    requires num.Length == 33 && m < 32
    modifies num
    ensures num[..] == old(num[..])[m := old(num[m]) + Total(old(num[..]), m, 32)]
  {
    ghost var num0 := num[..];
    var i := m + 1;
    while i <= MAX_SUPPORTED
      invariant m + 1 <= i <= 33
      invariant num[..] == num0[m := num0[m] + Total(num0, m, i - 1)]
    {
      num[m] := num[m] + num[i];
      i := i + 1;
    }
  }

  /** The summing loop (src/http/miniz.c:1862). */
  method KraftSum(num: array<int>, m: nat) returns (total: int)
    requires m < num.Length
    ensures total == KraftTo(num[..], m, m)
  {
    total := 0;
    var i := m;
    while i > 0
      invariant 0 <= i <= m && total + KraftTo(num[..], i, m) == KraftTo(num[..], m, m)
    {
      total := total + num[i] * Pow2(m - i);
      i := i - 1;
    }
  }

  /** One round of the repair loop (src/http/miniz.c:1865-1866). */
  method SplitOne(num: array<int>, count: nat, m: nat, ghost total: int) returns (ghost k: nat)
    requires Repairing(num[..], count, m, total) && total > Pow2(m)
    modifies num
    ensures Repairing(num[..], count, m, total - 1)
    ensures 1 <= k < m && (forall j :: k < j < m ==> old(num[j]) == 0) && num[..] == SplitAt(old(num[..]), m, k)
  {
    hide Repairing, KraftTo, Total;
    ghost var num0 := num[..];
    RepairingFacts(num0, count, m, total);
    CanSplit(num0, count, m, total);
    num[m] := num[m] - 1;
    var i := m - 1;
    while i > 0
      invariant 0 <= i < m
      invariant num[..] == num0[m := num0[m] - 1]
      invariant forall j :: i < j < m ==> num0[j] <= 0
    {
      if num[i] != 0 {
        Split(num0, count, m, total, i);
        num[i] := num[i] - 1;
        num[i + 1] := num[i + 1] + 2;
        k := i;
        return;
      }
      i := i - 1;
    }
    assert false;
  }

  lemma Repaired(num: seq<int>, count: nat, m: nat, total: int)
    requires Repairing(num, count, m, total)
    ensures total >= Pow2(m)
  {
  }

  lemma RepairedSums(num: seq<int>, count: nat, m: nat)
    requires Repairing(num, count, m, Pow2(m))
    ensures Nonneg(num) && KraftTo(num, m, m) == Pow2(m) && Total(num, 0, m) == count
  {
  }

  lemma RepairingFacts(num: seq<int>, count: nat, m: nat, total: int)
    requires Repairing(num, count, m, total)
    ensures 1 <= m < 32 && |num| == 33 && forall i :: 0 <= i < |num| ==> num[i] >= 0
  {
  }
}
