/** The code lengths are optimal: no prefix code gives a smaller weighted length. */
module MinRedundancyOptimal {
  import opened Bits
  import opened MinRedundancy
  import opened MinRedundancyDepths

  /** Sum of weight * length: the size in bits of the coded symbols. */
  function Cost(ws: seq<nat>, ls: seq<nat>): nat
    requires |ws| == |ls|
  {
    if ws == [] then 0 else ws[0] * ls[0] + Cost(ws[1..], ls[1..])
  }

  /** Lengths that a prefix code can have (Kraft's inequality, with lengths up to max). */
  predicate Feasible(ls: seq<nat>, max: nat)
  {
    (forall i :: 0 <= i < |ls| ==> ls[i] <= max) && Kraft(ls, max) <= Pow2(max)
  }

  /** c is a lower bound on the cost of coding symbols with weights m. */
  ghost predicate LowerBound(m: multiset<nat>, c: nat)
  {
    forall ws: seq<nat>, ls: seq<nat>, max: nat :: |ws| == |ls| && multiset(ws) == m && Feasible(ls, max) ==> Cost(ws, ls) >= c
  }

  // ---------- sums under update ----------

  lemma {:induction false} CostUpdate(ws: seq<nat>, ls: seq<nat>, i: nat, w: nat, l: nat)
    requires i < |ws| == |ls|
    ensures Cost(ws[i := w], ls[i := l]) + ws[i] * ls[i] == Cost(ws, ls) + w * l
  {
    if i == 0 {
      assert ws[0 := w][1..] == ws[1..] && ls[0 := l][1..] == ls[1..];
    } else {
      assert ws[i := w][1..] == ws[1..][i - 1 := w] && ls[i := l][1..] == ls[1..][i - 1 := l];
      CostUpdate(ws[1..], ls[1..], i - 1, w, l);
    }
  }

  lemma {:induction false} KraftUpdate(ls: seq<nat>, max: nat, i: nat, l: nat)
    requires i < |ls| && ls[i] <= max && l <= max
    ensures Kraft(ls[i := l], max) + Pow2(max - ls[i]) == Kraft(ls, max) + Pow2(max - l)
  {
    if i == 0 {
      assert ls[0 := l][1..] == ls[1..];
    } else {
      assert ls[i := l][1..] == ls[1..][i - 1 := l];
      KraftUpdate(ls[1..], max, i - 1, l);
    }
  }

  lemma {:induction false} CostRemove(ws: seq<nat>, ls: seq<nat>, i: nat)
    requires i < |ws| == |ls|
    ensures Cost(ws[..i] + ws[i + 1..], ls[..i] + ls[i + 1..]) + ws[i] * ls[i] == Cost(ws, ls)
  {
    var ws', ls' := ws[..i] + ws[i + 1..], ls[..i] + ls[i + 1..];
    if i == 0 {
      assert ws' == ws[1..] && ls' == ls[1..];
    } else {
      assert ws'[1..] == ws[1..][..i - 1] + ws[1..][i..] && ls'[1..] == ls[1..][..i - 1] + ls[1..][i..];
      CostRemove(ws[1..], ls[1..], i - 1);
    }
  }

  lemma {:induction false} KraftRemove(ls: seq<nat>, max: nat, i: nat)
    requires i < |ls| && ls[i] <= max
    ensures Kraft(ls[..i] + ls[i + 1..], max) + Pow2(max - ls[i]) == Kraft(ls, max)
  {
    var ls' := ls[..i] + ls[i + 1..];
    if i == 0 {
      assert ls' == ls[1..];
    } else {
      assert ls'[1..] == ls[1..][..i - 1] + ls[1..][i..];
      KraftRemove(ls[1..], max, i - 1);
    }
  }

  // ---------- the longest codewords ----------

  lemma {:induction false} Longest(ls: seq<nat>) returns (d: nat, i: nat)
    requires ls != []
    ensures i < |ls| && ls[i] == d && forall k :: 0 <= k < |ls| ==> ls[k] <= d
  {
    if |ls| == 1 {
      d, i := ls[0], 0;
    } else {
      d, i := Longest(ls[1..]);
      i := i + 1;
      forall k | 0 <= k < |ls| ensures ls[k] <= (if ls[0] >= d then ls[0] else d) {
        if k > 0 { assert ls[k] == ls[1..][k - 1]; }
      }
      if ls[0] >= d { d, i := ls[0], 0; }
    }
  }

  lemma Distribute(a: nat, b: nat, p: nat)
    ensures a * p + b * p == (a + b) * p && p * a == a * p
  {
  }

  /** With one codeword of the greatest length d only, the Kraft sum is an odd multiple of 2^-d. */
  lemma {:induction false} KraftMultiple(ls: seq<nat>, max: nat, d: nat) returns (q: nat)
    requires d <= max && forall i :: 0 <= i < |ls| ==> ls[i] <= d
    ensures Kraft(ls, max) == q * Pow2(max - d)
  {
    if ls == [] {
      q := 0;
    } else {
      var q' := KraftMultiple(ls[1..], max, d);
      Pow2Add(max - d, d - ls[0]);
      q := Pow2(d - ls[0]) + q';
      Distribute(Pow2(d - ls[0]), q', Pow2(max - d));
    }
  }

  /** A single longest codeword can be shortened by one bit. */
  lemma LoneLongest(ls: seq<nat>, max: nat, i: nat)
    requires i < |ls| && ls[i] > 0 && Feasible(ls, max)
    requires forall k :: 0 <= k < |ls| && k != i ==> ls[k] < ls[i]
    ensures Feasible(ls[i := ls[i] - 1], max)
  {
    var d := ls[i];
    var rest := ls[..i] + ls[i + 1..];
    KraftRemove(ls, max, i);
    var q := KraftMultiple(rest, max, d - 1);
    KraftUpdate(ls, max, i, d - 1);
    var p := Pow2(max - d);
    assert Pow2(max - (d - 1)) == 2 * p;
    Pow2Add(max - d, d - 1);
    var t := Pow2(d - 1);
    assert Pow2(max - 1) == p * t && Pow2(max) == 2 * (p * t);
    assert q * (2 * p) + p <= 2 * (p * t);
    OddMultiple(q, p, t);
  }

  lemma OddMultiple(q: nat, p: nat, t: nat)
    requires p >= 1 && q * (2 * p) + p <= 2 * (p * t)
    ensures q * (2 * p) + 2 * p <= 2 * (p * t)
  {
    if q >= t {
      var k := q - t;
      assert q * (2 * p) == 2 * (p * t) + k * (2 * p);
    } else {
      var k := t - q - 1;
      assert 2 * (p * t) == q * (2 * p) + 2 * p + k * (2 * p);
    }
  }

  lemma KraftOfZeros(ls: seq<nat>, max: nat)
    requires |ls| >= 2 && ls[0] == ls[1] == 0
    ensures Kraft(ls, max) > Pow2(max)
  {
    assert ls[1..][0] == 0;
    assert Kraft(ls[1..], max) >= Pow2(max);
  }

  /** Some code at most as costly has two codewords of its greatest length. */
  lemma {:induction false} TwoLongest(ws: seq<nat>, ls: seq<nat>, max: nat) returns (ls': seq<nat>, i: nat, j: nat)
    requires 2 <= |ws| == |ls| && Feasible(ls, max)
    ensures |ls'| == |ls| && Feasible(ls', max) && Cost(ws, ls') <= Cost(ws, ls)
    ensures i < |ls| && j < |ls| && i != j && ls'[i] == ls'[j] >= 1
    ensures forall k :: 0 <= k < |ls| ==> ls'[k] <= ls'[i]
    decreases Sum(ls)
  {
    var d;
    d, i := Longest(ls);
    if d == 0 {
      KraftOfZeros(ls, max);
    }
    if j' :| 0 <= j' < |ls| && j' != i && ls[j'] == d {
      j := j';
      ls' := ls;
    } else {
      var short := ls[i := d - 1];
      LoneLongest(ls, max, i);
      CostUpdate(ws, ls, i, ws[i], d - 1);
      assert ws[i := ws[i]] == ws;
      Shorter(ws[i], d);
      SumUpdate(ls, i, d - 1);
      ls', i, j := TwoLongest(ws, short, max);
    }
  }

  lemma Shorter(w: nat, d: nat)
    requires d >= 1
    ensures w * (d - 1) <= w * d
  {
  }

  lemma {:induction false} SumUpdate(s: seq<nat>, i: nat, v: nat)
    requires i < |s|
    ensures Sum(s[i := v]) + s[i] == Sum(s) + v
  {
    if i == 0 {
      assert s[0 := v][1..] == s[1..];
    } else {
      assert s[i := v][1..] == s[1..][i - 1 := v];
      SumUpdate(s[1..], i - 1, v);
    }
  }

  // ---------- exchange and merge ----------

  /** Moving a light weight to a longest codeword costs nothing. */
  lemma Exchange(ws: seq<nat>, ls: seq<nat>, k: nat, i: nat) returns (ws': seq<nat>)
    requires k < |ws| == |ls| && i < |ws| && ws[k] <= ws[i] && ls[k] <= ls[i]
    ensures ws' == ws[k := ws[i]][i := ws[k]] && multiset(ws') == multiset(ws)
    ensures Cost(ws', ls) <= Cost(ws, ls)
  {
    ws' := ws[k := ws[i]][i := ws[k]];
    if k == i {
      assert ws' == ws;
    } else {
      CostUpdate(ws, ls, k, ws[i], ls[k]);
      var v := ws[k := ws[i]];
      CostUpdate(v, ls, i, ws[k], ls[i]);
      assert ls[k := ls[k]] == ls && ls[i := ls[i]] == ls;
      CrossTerms(ws[k], ws[i], ls[k], ls[i]);
    }
  }

  lemma CrossTerms(a: nat, b: nat, x: nat, y: nat)
    requires a <= b && x <= y
    ensures b * x + a * y <= a * x + b * y
  {
    var p, q := b - a, y - x;
    assert b * x + a * y + p * q == a * x + b * y;
  }

  lemma MultisetRemove(s: seq<nat>, i: nat)
    requires i < |s|
    ensures multiset(s[..i] + s[i + 1..]) == multiset(s) - multiset{s[i]}
  {
    assert s == s[..i] + [s[i]] + s[i + 1..];
  }

  /** Two sibling codewords give way to their common prefix. */
  lemma JoinSiblings(ws: seq<nat>, ls: seq<nat>, max: nat, i: nat, j: nat) returns (ws': seq<nat>, ls': seq<nat>)
    requires i < |ws| == |ls| && j < |ws| && i != j && ls[i] == ls[j] >= 1 && Feasible(ls, max)
    ensures |ws'| == |ls'| && Feasible(ls', max)
    ensures multiset(ws') == Merged(multiset(ws), ws[i], ws[j])
    ensures Cost(ws, ls) == Cost(ws', ls') + ws[i] + ws[j]
  {
    var d, x, y := ls[i], ws[i], ws[j];
    ls' := JoinLengths(ls, max, i, j);
    ws' := JoinWeights(ws, i, j);
    CostUpdate(ws, ls, i, x + y, d - 1);
    CostRemove(ws[i := x + y], ls[i := d - 1], j);
    JoinCost(x, y, d);
  }

  lemma JoinLengths(ls: seq<nat>, max: nat, i: nat, j: nat) returns (ls': seq<nat>)
    requires i < |ls| && j < |ls| && i != j && ls[i] == ls[j] >= 1 && Feasible(ls, max)
    ensures ls' == ls[i := ls[i] - 1][..j] + ls[i := ls[i] - 1][j + 1..] && Feasible(ls', max)
  {
    var d := ls[i];
    var lu := ls[i := d - 1];
    KraftUpdate(ls, max, i, d - 1);
    ls' := lu[..j] + lu[j + 1..];
    KraftRemove(lu, max, j);
    assert Pow2(max - (d - 1)) == 2 * Pow2(max - d);
  }

  lemma JoinWeights(ws: seq<nat>, i: nat, j: nat) returns (ws': seq<nat>)
    requires i < |ws| && j < |ws| && i != j
    ensures ws' == ws[i := ws[i] + ws[j]][..j] + ws[i := ws[i] + ws[j]][j + 1..]
    ensures multiset(ws') == Merged(multiset(ws), ws[i], ws[j])
  {
    var wu := ws[i := ws[i] + ws[j]];
    ws' := wu[..j] + wu[j + 1..];
    MultisetRemove(wu, j);
    MultisetUpdate(ws, i, ws[i] + ws[j]);
    TwoIn(ws, i, j);
    MultisetJoin(multiset(ws), ws[i], ws[j], ws[i] + ws[j]);
  }

  lemma MultisetUpdate(s: seq<nat>, i: nat, x: nat)
    requires i < |s|
    ensures multiset(s[i := x]) == multiset(s) - multiset{s[i]} + multiset{x}
  {
  }

  lemma TwoIn(s: seq<nat>, i: nat, j: nat)
    requires i < |s| && j < |s| && i != j
    ensures s[j] in multiset(s) - multiset{s[i]}
  {
    MultisetRemove(s, i);
    var t := s[..i] + s[i + 1..];
    assert s[j] == t[if j < i then j else j - 1];
  }

  lemma MultisetJoin(m: multiset<nat>, a: nat, b: nat, c: nat)
    requires b in m - multiset{a} && c == a + b
    ensures m - multiset{a} + multiset{c} - multiset{b} == Merged(m, a, b)
  {
  }

  lemma JoinCost(x: nat, y: nat, d: nat)
    requires d >= 1
    ensures x * d + y * d == (x + y) * (d - 1) + x + y
  {
  }

  lemma IndexOf(ws: seq<nat>, x: nat) returns (k: nat)
    requires x in multiset(ws)
    ensures k < |ws| && ws[k] == x
  {
    k :| 0 <= k < |ws| && ws[k] == x;
  }

  lemma IndexOfOther(ws: seq<nat>, i: nat, y: nat) returns (k: nat)
    requires i < |ws| && y in multiset(ws) - multiset{ws[i]}
    ensures k < |ws| && k != i && ws[k] == y
  {
    var t := ws[..i] + ws[i + 1..];
    MultisetRemove(ws, i);
    var k' := IndexOf(t, y);
    k := if k' < i then k' else k' + 1;
  }

  /** m with x and y replaced by their sum. */
  function Merged(m: multiset<nat>, x: nat, y: nat): multiset<nat>
  {
    var z: nat := x + y;
    m - multiset{x} - multiset{y} + multiset{z}
  }

  /** Huffman's step: merging two smallest weights x and y accounts for exactly x + y. */
  lemma MergeBound(m: multiset<nat>, x: nat, y: nat, c: nat)
    requires multiset{x, y} <= m
    requires forall v :: v in m - multiset{x, y} ==> v >= x && v >= y
    requires LowerBound(Merged(m, x, y), c)
    ensures LowerBound(m, c + x + y)
  {
    forall ws: seq<nat>, ls: seq<nat>, max: nat | |ws| == |ls| && multiset(ws) == m && Feasible(ls, max)
      ensures Cost(ws, ls) >= c + x + y
    {
      hide Cost, Feasible, LowerBound, Merged;
      MergedSwap(m, x, y);
      if x <= y { MergeBoundOn(ws, ls, max, x, y, c); } else { MergeBoundOn(ws, ls, max, y, x, c); }
    }
  }

  lemma MergedSwap(m: multiset<nat>, x: nat, y: nat)
    ensures multiset{x, y} == multiset{y, x} && Merged(m, x, y) == Merged(m, y, x)
  {
    assert multiset{x, y} == multiset{y, x};
  }

  lemma MergeBoundOn(ws: seq<nat>, ls: seq<nat>, max: nat, x: nat, y: nat, c: nat)
    requires |ws| == |ls| && Feasible(ls, max) && x <= y && multiset{x, y} <= multiset(ws)
    requires forall v :: v in multiset(ws) - multiset{x, y} ==> v >= y
    requires LowerBound(Merged(multiset(ws), x, y), c)
    ensures Cost(ws, ls) >= c + x + y
  {
    hide Cost, Feasible;
    assert |ws| >= 2 by { assert |multiset(ws)| == |ws| && |multiset{x, y}| == 2; }
    var ls2, i, j := TwoLongest(ws, ls, max);
    var ws2 := LightestDown(ws, ls2, i, j, x, y);
    var ws3, ls3 := JoinSiblings(ws2, ls2, max, i, j);
  }

  /** The two smallest weights move to two longest codewords. */
  lemma LightestDown(ws: seq<nat>, ls: seq<nat>, i: nat, j: nat, a: nat, b: nat) returns (ws2: seq<nat>)
    requires i < |ws| == |ls| && j < |ws| && i != j && ls[i] == ls[j]
    requires forall k :: 0 <= k < |ls| ==> ls[k] <= ls[i]
    requires a <= b && multiset{a, b} <= multiset(ws)
    requires forall v :: v in multiset(ws) - multiset{a, b} ==> v >= b
    ensures |ws2| == |ws| && ws2[i] == a && ws2[j] == b && multiset(ws2) == multiset(ws)
    ensures Cost(ws2, ls) <= Cost(ws, ls)
  {
    hide Cost;
    var k := IndexOf(ws, a);
    LeastWeight(ws, a, b, i);
    var ws1 := Exchange(ws, ls, k, i);
    var k2 := IndexOfOther(ws1, i, b);
    NextWeight(ws1, a, b, i, j);
    ws2 := Exchange(ws1, ls, k2, j);
  }

  lemma LeastWeight(ws: seq<nat>, a: nat, b: nat, i: nat)
    requires i < |ws| && a <= b && forall v :: v in multiset(ws) - multiset{a, b} ==> v >= b
    ensures ws[i] >= a
  {
    assert ws[i] in multiset(ws);
    if ws[i] != a && ws[i] != b {
      assert ws[i] in multiset(ws) - multiset{a, b};
    }
  }

  lemma NextWeight(ws: seq<nat>, a: nat, b: nat, i: nat, j: nat)
    requires i < |ws| && j < |ws| && i != j && ws[i] == a
    requires a <= b && multiset{a, b} <= multiset(ws) && forall v :: v in multiset(ws) - multiset{a, b} ==> v >= b
    ensures ws[j] >= b
  {
    var t := ws[..i] + ws[i + 1..];
    MultisetRemove(ws, i);
    assert ws[j] == t[if j < i then j else j - 1];
    assert ws[j] in multiset(ws) - multiset{a};
    if ws[j] != b {
      assert ws[j] in multiset(ws) - multiset{a, b};
    }
  }

  // ---------- the merge loop reaches the bound ----------

  /** The unused items before node k is made. */
  ghost function Items(f: seq<nat>, w: seq<nat>, taken: seq<nat>, k: nat): multiset<nat>
    requires Greedy(f, w, taken) && k <= |taken|
    requires k == |taken| ==> NodesUsed(taken, k - 1) <= k && 0 <= LeavesUsed(taken, k - 1) <= |f|
  {
    assert k < |taken| ==> MergedAt(f, w, taken, k);
    multiset(w[NodesUsed(taken, k - 1)..k]) + multiset(f[LeavesUsed(taken, k - 1)..])
  }

  lemma UsedBounds(f: seq<nat>, w: seq<nat>, taken: seq<nat>, k: nat)
    requires Greedy(f, w, taken) && k < |taken|
    ensures NodesUsed(taken, k - 1) <= NodesUsed(taken, k) <= k
    ensures 0 <= LeavesUsed(taken, k - 1) <= LeavesUsed(taken, k) <= |f|
  {
    assert MergedAt(f, w, taken, k);
  }

  /** Node k merges two items x and y, and leaves the heavier rest alone. */
  lemma ItemsStep(f: seq<nat>, w: seq<nat>, taken: seq<nat>, k: nat) returns (x: nat, y: nat)
    requires Greedy(f, w, taken) && k < |taken| && Sorted(w) && Sorted(f)
    requires k + 1 == |taken| ==> NodesUsed(taken, k) <= k + 1 && 0 <= LeavesUsed(taken, k) <= |f|
    ensures w[k] == x + y && multiset{x, y} <= Items(f, w, taken, k)
    ensures forall v :: v in Items(f, w, taken, k) - multiset{x, y} ==> v >= x && v >= y
    ensures Items(f, w, taken, k + 1) == Merged(Items(f, w, taken, k), x, y)
  {
    UsedBounds(f, w, taken, k);
    var r0, r1, l0, l1 := NodesUsed(taken, k - 1), NodesUsed(taken, k), LeavesUsed(taken, k - 1), LeavesUsed(taken, k);
    assert MergedAt(f, w, taken, k);
    x, y := ItemsPicks(f, w, r0, r1, l0, l1);
    ItemsCut(f, w, r0, r1, l0, l1, k, x, y);
    ItemsRest(f, w, r0, r1, l0, l1, k, x, y);
    ItemsOthers(Items(f, w, taken, k), w[r1..k], f[l1..], x, y);
  }

  lemma ItemsOthers(items: multiset<nat>, a: seq<nat>, b: seq<nat>, x: nat, y: nat)
    requires items - multiset{x, y} == multiset(a) + multiset(b)
    requires forall v :: v in a || v in b ==> v >= x && v >= y
    ensures forall v :: v in items - multiset{x, y} ==> v >= x && v >= y
  {
    forall v | v in items - multiset{x, y}
      ensures v >= x && v >= y
    {
      assert v in a || v in b;
    }
  }

  lemma ItemsPicks(f: seq<nat>, w: seq<nat>, r0: nat, r1: nat, l0: nat, l1: nat) returns (x: nat, y: nat)
    requires r0 <= r1 <= |w| && l0 <= l1 <= |f| && (r1 - r0) + (l1 - l0) == 2
    ensures w[r0..r1] + f[l0..l1] == [x, y] && x + y == Sum(w[r0..r1]) + Sum(f[l0..l1])
  {
    var picks := w[r0..r1] + f[l0..l1];
    x, y := picks[0], picks[1];
    assert picks == [x, y] && [x, y][1..] == [y] && [y][1..] == [];
    SumSplit(w[r0..r1], f[l0..l1]);
  }

  lemma ItemsCut(f: seq<nat>, w: seq<nat>, r0: nat, r1: nat, l0: nat, l1: nat, k: nat, x: nat, y: nat)
    requires r0 <= r1 <= k < |w| && l0 <= l1 <= |f| && w[k] == x + y && w[r0..r1] + f[l0..l1] == [x, y]
    ensures var m := multiset(w[r0..k]) + multiset(f[l0..]);
            && multiset{x, y} <= m
            && m - multiset{x, y} == multiset(w[r1..k]) + multiset(f[l1..])
            && Merged(m, x, y) == multiset(w[r1..k + 1]) + multiset(f[l1..])
  {
    assert w[r0..k] == w[r0..r1] + w[r1..k] && f[l0..] == f[l0..l1] + f[l1..];
    assert w[r1..k + 1] == w[r1..k] + [w[k]];
    assert multiset(w[r0..r1]) + multiset(f[l0..l1]) == multiset{x, y} by {
      assert multiset(w[r0..r1] + f[l0..l1]) == multiset([x, y]);
    }
    CutAlgebra(multiset(w[r0..r1]), multiset(w[r1..k]), multiset(f[l0..l1]), multiset(f[l1..]), x, y);
  }

  lemma CutAlgebra(a: multiset<nat>, b: multiset<nat>, c: multiset<nat>, d: multiset<nat>, x: nat, y: nat)
    requires a + c == multiset{x, y}
    ensures multiset{x, y} <= a + b + (c + d)
    ensures a + b + (c + d) - multiset{x, y} == b + d
    ensures var z: nat := x + y; Merged(a + b + (c + d), x, y) == b + multiset{z} + d
  {
    assert a + b + (c + d) == multiset{x, y} + (b + d);
  }

  lemma ItemsRest(f: seq<nat>, w: seq<nat>, r0: nat, r1: nat, l0: nat, l1: nat, k: nat, x: nat, y: nat)
    requires r0 <= r1 <= k <= |w| && l0 <= l1 <= |f| && Sorted(w) && Sorted(f)
    requires w[r0..r1] + f[l0..l1] == [x, y]
    requires forall i, j :: r0 <= i < r1 && l1 <= j < |f| ==> w[i] <= f[j]
    requires forall i, j :: r1 <= i < k && l0 <= j < l1 ==> f[j] <= w[i]
    ensures forall v :: v in w[r1..k] || v in f[l1..] ==> v >= x && v >= y
  {
    forall v, u | (v in w[r1..k] || v in f[l1..]) && u in [x, y]
      ensures u <= v
    {
      assert u in w[r0..r1] + f[l0..l1];
      if u in w[r0..r1] {
        var i :| r0 <= i < r1 && w[i] == u;
      } else {
        var j :| l0 <= j < l1 && f[j] == u;
      }
    }
    assert x in [x, y] && y in [x, y];
  }

  lemma {:induction false} ItemsBound(f: seq<nat>, w: seq<nat>, taken: seq<nat>, k: nat)
    requires Greedy(f, w, taken) && k <= |taken| && taken != [] && Sorted(w) && Sorted(f)
    requires NodesUsed(taken, |taken| - 1) <= |taken| && 0 <= LeavesUsed(taken, |taken| - 1) <= |f|
    ensures LowerBound(Items(f, w, taken, k), Sum(w[k..]))
    decreases |taken| - k
  {
    hide Cost, Feasible, MergedAt, Items;
    if k == |taken| {
      assert w[k..] == [];
    } else {
      ItemsBound(f, w, taken, k + 1);
      var x, y := ItemsStep(f, w, taken, k);
      MergeBound(Items(f, w, taken, k), x, y, Sum(w[k + 1..]));
      SumFrom(w, k);
    }
  }

  // ---------- the cost of the lengths given out ----------

  /** Sum of w[i] * d[i] over lo <= i < hi. */
  function CostOn(w: seq<nat>, d: seq<nat>, lo: nat, hi: nat): nat
    requires hi <= |w| == |d|
    decreases hi - lo
  {
    if lo >= hi then 0 else w[lo] * d[lo] + CostOn(w, d, lo + 1, hi)
  }

  lemma {:induction false} CostOnSplit(w: seq<nat>, d: seq<nat>, lo: nat, mid: nat, hi: nat)
    requires lo <= mid <= hi <= |w| == |d|
    ensures CostOn(w, d, lo, hi) == CostOn(w, d, lo, mid) + CostOn(w, d, mid, hi)
    decreases mid - lo
  {
    if lo < mid {
      CostOnSplit(w, d, lo + 1, mid, hi);
    }
  }

  lemma {:induction false} CostOnLevel(w: seq<nat>, d: seq<nat>, lo: nat, hi: nat, c: nat)
    requires lo <= hi <= |w| == |d| && forall i :: lo <= i < hi ==> d[i] == c
    ensures CostOn(w, d, lo, hi) == Sum(w[lo..hi]) * c
    decreases hi - lo
  {
    if lo < hi {
      CostOnLevel(w, d, lo + 1, hi, c);
      assert w[lo..hi][1..] == w[lo + 1..hi];
      Distribute(w[lo], Sum(w[lo + 1..hi]), c);
    } else {
      assert w[lo..hi] == [];
    }
  }

  lemma {:induction false} CostOnAll(w: seq<nat>, d: seq<nat>, lo: nat)
    requires lo <= |w| == |d|
    ensures Cost(w[lo..], d[lo..]) == CostOn(w, d, lo, |w|)
    decreases |w| - lo
  {
    if lo < |w| {
      assert w[lo..][1..] == w[lo + 1..] && d[lo..][1..] == d[lo + 1..];
      CostOnAll(w, d, lo + 1);
    }
  }

  ghost function Depths(p: seq<nat>): (d: seq<nat>)
    requires Links(p)
    ensures |d| == |p| + 1 && forall i :: 0 <= i <= |p| ==> d[i] == Depth(p, i)
  {
    seq(|p| + 1, i requires 0 <= i => Depth(p, i))
  }

  ghost function LeafDepths(p: seq<nat>, taken: seq<nat>): (d: seq<nat>)
    requires Tree(p, taken)
    ensures |d| == |p| + 2 && forall j :: 0 <= j < |d| ==> d[j] == LeafDepth(p, taken, j)
  {
    seq(|p| + 2, j requires 0 <= j < |p| + 2 => LeafDepth(p, taken, j))
  }

  /** Expanding node k, at depth d, into its two children adds its weight to the cost:
      all nodes from k up account for the cost of everything they have taken. */
  lemma {:induction false} CostOfNodes(f: seq<nat>, w: seq<nat>, p: seq<nat>, taken: seq<nat>, k: nat)
    requires Tree(p, taken) && Greedy(f, w, taken) && |f| == |p| + 2 && k <= |w|
    ensures var r, l := NodesUsed(taken, k - 1), LeavesUsed(taken, k - 1);
            && (r <= k && 0 <= l <= |f|)
            && CostOn(w, Depths(p), r, k) + CostOn(f, LeafDepths(p, taken), l, |f|) == Sum(w[k..])
    decreases |w| - k
  {
    hide Links, Parents, MergedAt;
    var d, ld := Depths(p), LeafDepths(p, taken);
    if k == |w| {
      assert w[k..] == [];
      assert d[|p|] == 0;
      assert CostOn(w, d, |p|, |p| + 1) == 0;
    } else {
      UsedBounds(f, w, taken, k);
      CostOfNodes(f, w, p, taken, k + 1);
      CostOfNode(f, w, p, taken, k);
      SumFrom(w, k);
    }
  }

  lemma CostOfNode(f: seq<nat>, w: seq<nat>, p: seq<nat>, taken: seq<nat>, k: nat)
    requires Tree(p, taken) && Greedy(f, w, taken) && |f| == |p| + 2 && k < |w| == |taken|
    ensures var r0, r1, l0, l1 := NodesUsed(taken, k - 1), NodesUsed(taken, k), LeavesUsed(taken, k - 1), LeavesUsed(taken, k);
            && (r0 <= r1 <= k && 0 <= l0 <= l1 <= |f|)
            && CostOn(w, Depths(p), r0, k) + CostOn(f, LeafDepths(p, taken), l0, |f|)
            == CostOn(w, Depths(p), r1, k + 1) + CostOn(f, LeafDepths(p, taken), l1, |f|) + w[k]
  {
    hide Links, Parents, MergedAt, Shape, Greedy, Sum, CostOn, Depth, LeafDepth;
    UsedBounds(f, w, taken, k);
    var r0, r1, l0, l1 := NodesUsed(taken, k - 1), NodesUsed(taken, k), LeavesUsed(taken, k - 1), LeavesUsed(taken, k);
    var d, ld := Depths(p), LeafDepths(p, taken);
    CostOnSplit(w, d, r1, k, k + 1);
    CostOnSplit(w, d, r0, r1, k);
    CostOnSplit(f, ld, l0, l1, |f|);
    ChildDepths(p, taken, k);
    CostOnLevel(w, d, r0, r1, d[k] + 1);
    CostOnLevel(f, ld, l0, l1, d[k] + 1);
    CostOnLevel(w, d, k, k + 1, d[k]);
    NodeWeight(f, w, taken, k);
    Distribute(Sum(w[r0..r1]), Sum(f[l0..l1]), d[k] + 1);
    OneMore(w[k], d[k]);
  }

  lemma OneMore(x: nat, d: nat)
    ensures x * (d + 1) == x * d + x
  {
  }

  lemma NodeWeight(f: seq<nat>, w: seq<nat>, taken: seq<nat>, k: nat)
    requires Greedy(f, w, taken) && k < |taken|
    ensures NodesUsed(taken, k - 1) <= NodesUsed(taken, k) <= k
    ensures 0 <= LeavesUsed(taken, k - 1) <= LeavesUsed(taken, k) <= |f|
    ensures w[k] == Sum(w[NodesUsed(taken, k - 1)..NodesUsed(taken, k)]) + Sum(f[LeavesUsed(taken, k - 1)..LeavesUsed(taken, k)])
    ensures Sum(w[k..k + 1]) == w[k]
  {
    assert MergedAt(f, w, taken, k);
    assert w[k..k + 1][1..] == [];
  }

  lemma ChildDepths(p: seq<nat>, taken: seq<nat>, k: nat)
    requires Tree(p, taken) && k <= |p|
    requires NodesUsed(taken, k) <= k && 0 <= LeavesUsed(taken, k) <= |p| + 2
    ensures forall i :: NodesUsed(taken, k - 1) <= i < NodesUsed(taken, k) ==> Depth(p, i) == Depth(p, k) + 1
    ensures forall j :: 0 <= j && LeavesUsed(taken, k - 1) <= j < LeavesUsed(taken, k) ==> LeafDepth(p, taken, j) == Depth(p, k) + 1
  {
    forall i | NodesUsed(taken, k - 1) <= i < NodesUsed(taken, k)
      ensures Depth(p, i) == Depth(p, k) + 1
    {
      assert taken[p[i] - 1] <= i < taken[p[i]];
    }
    forall j | 0 <= j && LeavesUsed(taken, k - 1) <= j < LeavesUsed(taken, k)
      ensures LeafDepth(p, taken, j) == Depth(p, k) + 1
    {
      LeafParentBelow(p, taken, j, k);
      LeafParentBelow(p, taken, j, k - 1);
    }
  }

  // ---------- the whole function ----------

  lemma LengthsOptimal(f: seq<nat>, w: seq<nat>, p: seq<nat>, taken: seq<nat>, ls: seq<nat>, max: nat)
    requires Tree(p, taken) && Greedy(f, w, taken) && Sorted(w) && Sorted(f) && |f| == |p| + 2
    requires |ls| == |f| && Feasible(ls, max)
    ensures Cost(f, LeafDepths(p, taken)) <= Cost(f, ls)
  {
    CostOfNodes(f, w, p, taken, 0);
    CostOnAll(f, LeafDepths(p, taken), 0);
    assert f[0..] == f && LeafDepths(p, taken)[0..] == LeafDepths(p, taken) && w[0..] == w;
    LeavesUsedBound(p, taken);
    ItemsBound(f, w, taken, 0);
    assert Items(f, w, taken, 0) == multiset(f);
  }

  lemma LeavesUsedBound(p: seq<nat>, taken: seq<nat>)
    requires Tree(p, taken)
    ensures NodesUsed(taken, |taken| - 1) <= |taken| && 0 <= LeavesUsed(taken, |taken| - 1) <= |p| + 2
  {
  }

  /** No other feasible code lengths make the coded symbols shorter. */
  ghost predicate Optimal(f: seq<nat>, lens: seq<nat>)
    requires |f| == |lens|
  {
    forall ls: seq<nat>, max: nat :: |ls| == |f| && Feasible(ls, max) ==> Cost(f, lens) <= Cost(f, ls)
  }

  /** What the program needs of code lengths for sorted frequencies f: a complete prefix code,
      no longer for a more frequent symbol, within 24 bits, and of least weighted length. */
  ghost predicate MinimumRedundancy(f: seq<nat>, lens: seq<nat>)
  {
    && |lens| == |f|
    && Kraft(lens, 32) == Pow2(32)
    && (forall i, j :: 0 <= i <= j < |lens| ==> lens[i] >= lens[j])
    && (forall i :: 0 <= i < |lens| ==> 1 <= lens[i] <= 24)
    && Optimal(f, lens)
  }

  lemma TreeIsMinimal(f: seq<nat>, w: seq<nat>, p: seq<nat>, taken: seq<nat>, lens: seq<nat>)
    requires Tree(p, taken) && Greedy(f, w, taken) && Sorted(w) && Sorted(f) && |f| == |p| + 2 == |lens|
    requires Shallow(p, taken) && Kraft(lens, 32) == Pow2(32)
    requires forall j :: 0 <= j < |lens| ==> lens[j] == LeafDepth(p, taken, j)
    ensures MinimumRedundancy(f, lens)
  {
    hide Cost, Feasible, Greedy, Shape, Parents, Links, Sorted, Kraft, LeafDepth;
    assert lens == LeafDepths(p, taken);
    forall i, j | 0 <= i <= j < |lens|
      ensures lens[i] >= lens[j]
    {
      LeafDepthMono(p, taken, i, j);
    }
    forall ls: seq<nat>, max: nat | |ls| == |f| && Feasible(ls, max)
      ensures Cost(f, lens) <= Cost(f, ls)
    {
      LengthsOptimal(f, w, p, taken, ls, max);
    }
  }

  lemma LeafDepthMono(p: seq<nat>, taken: seq<nat>, i: nat, j: nat)
    requires Tree(p, taken) && i <= j < |p| + 2
    ensures LeafDepth(p, taken, i) >= LeafDepth(p, taken, j)
  {
    LeafParentBelow(p, taken, i, LeafParent(taken, j, 0));
    DepthMono(p, LeafParent(taken, i, 0), LeafParent(taken, j, 0));
  }

  /** tdefl_calculate_minimum_redundancy: frequencies in, code lengths out, in place. */
  method CalculateMinimumRedundancy(A: array<SymFreq>)
    requires A.Length < 0x10000 && Sorted(Keys(A[..])) && Positive(Keys(A[..])) && Sum(Keys(A[..])) < 0x10000
    modifies A
    ensures SameSyms(A[..], old(A[..]))
    ensures A.Length == 1 ==> A[0].key == 1
    ensures A.Length >= 2 ==> MinimumRedundancy(old(Keys(A[..])), Keys(A[..]))
  {
    if A.Length == 0 {
      return;
    } else if A.Length == 1 {
      A[0] := A[0].(key := 1);
      return;
    }
    ThreePasses(A);
  }

  method ThreePasses(A: array<SymFreq>)
    requires 2 <= A.Length < 0x10000 && Sorted(Keys(A[..])) && Positive(Keys(A[..])) && Sum(Keys(A[..])) < 0x10000
    modifies A
    ensures SameSyms(A[..], old(A[..]))
    ensures MinimumRedundancy(old(Keys(A[..])), Keys(A[..]))
  {
    hide Growth, Greedy, Shape, Parents, Links, Sorted, Positive, Sum, Kraft, Depth, LeafDepth, MinimumRedundancy, Shallow, Merging, Tree;
    ghost var f := Keys(A[..]);
    ghost var w, p, taken, last := MergeNodes(A);
    TreeOfMerging(Keys(A[..]), f, w, p, taken, last);
    TreeIsShallow(w, p, taken);
    NodeDepths(A, p);
    LeafLengths(A, p, taken);
    TreeIsMinimal(f, w, p, taken, Keys(A[..]));
  }
}
