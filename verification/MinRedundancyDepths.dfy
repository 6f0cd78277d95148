/** Second and third pass of the minimum-redundancy code (src/http/miniz.c:1846-1853):
    depths of the internal nodes, then lengths of the leaves, still in the same array. */
module MinRedundancyDepths {
  import opened Bits
  import opened MinRedundancy

  /** Parent links go up, in order, to the root |p|. */
  predicate Links(p: seq<nat>)
  {
    && (forall i :: 0 <= i < |p| ==> i < p[i] <= |p|)
    && (forall i, j :: 0 <= i <= j < |p| ==> p[i] <= p[j])
  }

  /** The finished tree: n leaves, n - 1 nodes, the last of which is the root. */
  predicate Tree(p: seq<nat>, taken: seq<nat>)
  {
    && |taken| == |p| + 1 && taken[|p|] == |p|
    && Shape(taken, |p| + 2) && Parents(p, taken) && Links(p)
  }

  function Depth(p: seq<nat>, i: nat): nat
    requires Links(p)
    decreases |p| - i
  {
    if i >= |p| then 0 else 1 + Depth(p, p[i])
  }

  lemma TreeOfMerging(a: seq<nat>, f: seq<nat>, w: seq<nat>, p: seq<nat>, taken: seq<nat>, last: nat)
    requires |f| >= 2 && Merging(a, f, w, p, taken, |f| - 2, |f|, |f| - 1, last)
    ensures Tree(p, taken) && Links(p) && |p| == |f| - 2 && Sorted(f) && Sorted(w)
    ensures |w| == |p| + 1 && w[|p|] == Sum(f) && Positive(w) && Growth(w, p)
    ensures Greedy(f, w, taken)
    ensures forall i :: 0 <= i < |p| ==> a[i] == p[i]
  {
    hide Greedy;
    forall i, j | 0 <= i <= j < |p|
      ensures i < p[i] <= |p| && p[i] <= p[j]
    {
      assert taken[p[i] - 1] <= i < taken[p[i]] <= p[i];
      assert taken[p[j] - 1] <= j < taken[p[j]];
    }
    assert w[|p|..][1..] == [];
    assert f[|f|..] == [];
  }

  lemma {:induction false} DepthMono(p: seq<nat>, i: nat, j: nat)
    requires Links(p) && i <= j <= |p|
    ensures Depth(p, i) >= Depth(p, j)
    decreases |p| - i
  {
    if i < j < |p| {
      DepthMono(p, p[i], p[j]);
    }
  }

  // ---------- how deep a tree can be ----------

  function Fib(n: nat): nat
  {
    if n < 2 then n else Fib(n - 1) + Fib(n - 2)
  }

  /** Weights along a path to the root grow like Fibonacci numbers. */
  lemma {:induction false} PathWeight(w: seq<nat>, p: seq<nat>, i: nat)
    requires Links(p) && |w| == |p| + 1 && Growth(w, p) && i < |p|
    ensures w[|p|] >= Fib(Depth(p, i)) * w[p[i]] + Fib(Depth(p, i) - 1) * w[i]
    decreases |p| - i
  {
    var d := Depth(p, i);
    if p[i] == |p| {
      assert Depth(p, p[i]) == 0;
      assert Fib(1) == 1 && Fib(0) == 0;
    } else {
      PathWeight(w, p, p[i]);
      var a, b, x, y, z := Fib(d - 1), Fib(d - 2), w[p[p[i]]], w[p[i]], w[i];
      assert Depth(p, p[i]) == d - 1 && d >= 2;
      assert Fib(d) == a + b;
      FibStep(a, b, x, y, z);
    }
  }

  lemma FibStep(a: nat, b: nat, x: nat, y: nat, z: nat)
    requires x >= y + z
    ensures a * x + b * y >= (a + b) * y + a * z
  {
    assert a * x >= a * (y + z) by {
      var k := x - (y + z);
      assert a * x == a * (y + z) + a * k;
    }
  }

  lemma {:induction false} FibMono(m: nat, n: nat)
    requires m <= n
    ensures Fib(m) <= Fib(n)
    decreases n
  {
    if m < n {
      FibMono(m, n - 1);
    }
  }

  lemma Fib25()
    ensures Fib(25) == 75025
  {
    assert Fib(9) == 34 && Fib(10) == 55;
    assert Fib(17) == 1597 && Fib(18) == 2584;
  }

  lemma AtLeastOnce(a: nat, b: nat)
    requires b >= 1
    ensures a * b >= a
  {
  }

  /** With frequencies that sum below 2^16 no node is deeper than 23, so no code length ever
      leaves the 33 counters of num_codes (src/http/miniz.c:1873). */
  lemma DepthBound(w: seq<nat>, p: seq<nat>, i: nat)
    requires Links(p) && |w| == |p| + 1 && Growth(w, p) && Positive(w) && i <= |p|
    requires w[|p|] < 0x10000
    ensures Depth(p, i) <= 23
  {
    if i < |p| {
      hide Growth;
      var d := Depth(p, i);
      PathWeight(w, p, i);
      AtLeastOnce(Fib(d), w[p[i]]);
      AtLeastOnce(Fib(d - 1), w[i]);
      assert Fib(d + 1) == Fib(d) + Fib(d - 1);
      Fib25();
      if d >= 24 {
        FibMono(25, d + 1);
      }
    }
  }

  // ---------- second pass ----------

  method NodeDepths(A: array<SymFreq>, ghost p: seq<nat>)
    requires A.Length >= 2 && |p| == A.Length - 2 && Links(p)
    requires forall i :: 0 <= i < |p| ==> A[i].key == p[i]
    modifies A
    ensures SameSyms(A[..], old(A[..]))
    ensures forall i :: 0 <= i <= |p| ==> A[i].key == Depth(p, i)
  {
    var n := A.Length;
    A[n - 2] := A[n - 2].(key := 0);
    var next := n - 3;
    while next >= 0
      invariant -1 <= next <= n - 3
      invariant forall i :: 0 <= i <= next ==> A[i].key == p[i]
      invariant forall i :: next < i <= n - 2 ==> A[i].key == Depth(p, i)
      invariant SameSyms(A[..], old(A[..]))
    {
      A[next] := A[next].(key := A[A[next].key].key + 1);
      next := next - 1;
    }
  }

  // ---------- leaves of the tree ----------

  /** The node that took leaf j. */
  function LeafParent(taken: seq<nat>, j: nat, k: nat): (q: nat)
    requires k < |taken| && j < LeavesUsed(taken, |taken| - 1)
    ensures k <= q < |taken| && j < LeavesUsed(taken, q)
    ensures q > k ==> LeavesUsed(taken, q - 1) <= j
    decreases |taken| - k
  {
    if j < LeavesUsed(taken, k) then k else LeafParent(taken, j, k + 1)
  }

  function LeafDepth(p: seq<nat>, taken: seq<nat>, j: nat): nat
    requires Tree(p, taken) && j < |p| + 2
  {
    1 + Depth(p, LeafParent(taken, j, 0))
  }

  lemma LeafParentBelow(p: seq<nat>, taken: seq<nat>, j: nat, k: int)
    requires Tree(p, taken) && j < |p| + 2 && -1 <= k <= |p|
    ensures LeafParent(taken, j, 0) <= k <==> j < LeavesUsed(taken, k)
  {
    hide Links, Parents;
    var q := LeafParent(taken, j, 0);
    LeavesUsedMono(taken, |p| + 2, if q <= k then q else k, if q <= k then k else q - 1);
  }

  lemma {:induction false} LeavesUsedMono(taken: seq<nat>, leaves: nat, k: int, m: int)
    requires Shape(taken, leaves) && -1 <= k < |taken| && -1 <= m < |taken|
    ensures k <= m ==> LeavesUsed(taken, k) <= LeavesUsed(taken, m)
    decreases m - k
  {
    if k < m {
      LeavesUsedMono(taken, leaves, k, m - 1);
    }
  }

  /** The tree cut at depth d: nodes after root and leaves after next are above it. */
  ghost predicate Cut(p: seq<nat>, taken: seq<nat>, root: int, next: int, d: nat)
  {
    && Tree(p, taken) && -1 <= root <= |p| && -1 <= next <= |p| + 1
    && (forall i :: root < i <= |p| ==> Depth(p, i) < d)
    && (forall i :: 0 <= i <= root ==> Depth(p, i) >= d)
    && (forall j :: next < j <= |p| + 1 ==> LeafDepth(p, taken, j) < d)
    && (forall j :: 0 <= j <= next ==> LeafDepth(p, taken, j) >= d)
  }

  /** The cut one level down: what was given a parent above the old cut moves out. */
  lemma CutNodes(p: seq<nat>, taken: seq<nat>, root: int, next: int, d: nat)
    requires Cut(p, taken, root, next, d)
    ensures forall i :: NodesUsed(taken, root) <= i <= root ==> Depth(p, i) == d
    ensures forall i :: 0 <= i < NodesUsed(taken, root) ==> Depth(p, i) > d
    ensures root >= 0 ==> NodesUsed(taken, root) <= root
  {
    hide LeafDepth;
    forall i | 0 <= i <= root
      ensures if NodesUsed(taken, root) <= i then Depth(p, i) == d else Depth(p, i) > d
    {
      if i < |p| {
        assert taken[p[i] - 1] <= i < taken[p[i]];
        if p[i] > root { assert taken[root] <= taken[p[i] - 1]; } else { assert taken[p[i]] <= taken[root]; }
      }
    }
  }

  lemma CutLeaves(p: seq<nat>, taken: seq<nat>, root: int, next: int, d: nat)
    requires Cut(p, taken, root, next, d)
    ensures LeavesUsed(taken, root) <= next + 1
    ensures forall j :: LeavesUsed(taken, root) <= j <= next ==> LeafDepth(p, taken, j) == d
    ensures forall j :: 0 <= j < LeavesUsed(taken, root) && j < |p| + 2 ==> LeafDepth(p, taken, j) > d
  {
    forall j | 0 <= j < |p| + 2
      ensures LeavesUsed(taken, root) <= j ==> LeafDepth(p, taken, j) <= d
      ensures LeavesUsed(taken, root) > j ==> LeafDepth(p, taken, j) > d
    {
      hide Links, Parents, Shape;
      LeafParentBelow(p, taken, j, root);
    }
    LeavesUsedMono(taken, |p| + 2, root, |p|);
    if next < |p| + 1 {
      assert LeafDepth(p, taken, next + 1) < d;
    }
  }

  // ---------- third pass ----------

  /** Kraft sum of the lengths already given out, and of the avbl open places at depth d. */
  ghost predicate KraftOpen(a: seq<nat>, next: int, avbl: nat, d: nat)
  {
    && -1 <= next < |a|
    && (d <= 32 ==> Kraft(a[next + 1..], 32) + avbl * Pow2(32 - d) == Pow2(32))
    && (avbl > 0 ==> d <= 32)
  }

  lemma KraftGive(a: seq<nat>, b: seq<nat>, next: int, avbl: nat, d: nat)
    requires KraftOpen(a, next, avbl, d) && avbl > 0 && next >= 0
    requires |b| == |a| && b[next] == d && forall i :: next < i < |a| ==> b[i] == a[i]
    ensures KraftOpen(b, next - 1, avbl - 1, d)
  {
    assert b[next..] == [d] + a[next + 1..];
    assert b[next..][1..] == a[next + 1..];
    assert avbl * Pow2(32 - d) == (avbl - 1) * Pow2(32 - d) + Pow2(32 - d);
  }

  lemma KraftDown(a: seq<nat>, next: int, used: nat, d: nat)
    requires KraftOpen(a, next, used, d) && (used > 0 ==> d < 32)
    ensures KraftOpen(a, next, 2 * used, d + 1)
  {
    if d < 32 {
      assert Pow2(32 - d) == 2 * Pow2(32 - (d + 1));
      TwiceHalf(used, Pow2(32 - (d + 1)));
    }
  }

  lemma TwiceHalf(u: nat, p: nat)
    ensures u * (2 * p) == 2 * u * p
  {
  }

  /** Depth 24 is the last on which there can be a leaf. */
  ghost predicate Shallow(p: seq<nat>, taken: seq<nat>)
    requires Tree(p, taken)
  {
    forall j :: 0 <= j < |p| + 2 ==> 1 <= LeafDepth(p, taken, j) <= 24
  }

  lemma TreeIsShallow(w: seq<nat>, p: seq<nat>, taken: seq<nat>)
    requires Tree(p, taken) && |w| == |p| + 1 && Growth(w, p) && Positive(w) && w[|p|] < 0x10000
    ensures Shallow(p, taken)
  {
    hide Growth, Positive, Parents, Shape;
    forall j | 0 <= j < |p| + 2
      ensures 1 <= LeafDepth(p, taken, j) <= 24
    {
      DepthBound(w, p, LeafParent(taken, j, 0));
    }
  }

  /** Keys of the nodes not passed yet, and lengths of the leaves given out. */
  ghost predicate Lengths(a: seq<nat>, p: seq<nat>, taken: seq<nat>, root: int, next: int)
  {
    && Tree(p, taken) && |a| == |p| + 2 && root <= next < |a| && root <= |p|
    && (forall i :: 0 <= i <= root ==> a[i] == Depth(p, i))
    && (forall j :: 0 <= j && next < j < |a| ==> a[j] == LeafDepth(p, taken, j))
  }

  /** The leaves of one level get their length (src/http/miniz.c:1851). */
  method GiveLevel(A: array<SymFreq>, root: int, next0: int, avbl0: nat, used: nat, dpth: nat, ghost p: seq<nat>, ghost taken: seq<nat>)
    returns (next: int, avbl: nat)
    requires used <= avbl0 && -1 <= root <= next0 - (avbl0 - used) && next0 < A.Length && dpth < 0x10000
    requires Lengths(Keys(A[..]), p, taken, root, next0)
    requires KraftOpen(Keys(A[..]), next0, avbl0, dpth)
    requires forall j :: next0 - (avbl0 - used) < j <= next0 ==> LeafDepth(p, taken, j) == dpth
    modifies A
    ensures avbl == used && next == next0 - (avbl0 - used)
    ensures Lengths(Keys(A[..]), p, taken, root, next)
    ensures KraftOpen(Keys(A[..]), next, avbl, dpth)
    ensures SameSyms(A[..], old(A[..]))
  {
    hide Depth, LeafDepth, Links, Parents, Shape, Kraft;
    next, avbl := next0, avbl0;
    while avbl > used
      invariant used <= avbl && next0 - (avbl0 - used) <= next <= next0 && avbl - used == next - (next0 - (avbl0 - used))
      invariant Lengths(Keys(A[..]), p, taken, root, next)
      invariant KraftOpen(Keys(A[..]), next, avbl, dpth)
      invariant SameSyms(A[..], old(A[..]))
    {
      ghost var a := Keys(A[..]);
      A[next] := A[next].(key := U16(dpth));
      KraftGive(a, Keys(A[..]), next, avbl, dpth);
      next := next - 1;
      avbl := avbl - 1;
    }
  }

  /** Third pass (src/http/miniz.c:1847-1853). */
  method LeafLengths(A: array<SymFreq>, ghost p: seq<nat>, ghost taken: seq<nat>)
    requires A.Length >= 2 && |p| == A.Length - 2 && Tree(p, taken) && Shallow(p, taken)
    requires forall i :: 0 <= i <= |p| ==> A[i].key == Depth(p, i)
    modifies A
    ensures SameSyms(A[..], old(A[..]))
    ensures forall j :: 0 <= j < A.Length ==> A[j].key == LeafDepth(p, taken, j)
    ensures Kraft(Keys(A[..]), 32) == Pow2(32)
  {
    hide Depth, LeafDepth, Links, Parents, Shape, Kraft;
    var n := A.Length;
    var avbl, used, dpth, root, next := 1, 0, 0, n - 2, n - 1;
    StartCut(Keys(A[..]), p, taken);
    while avbl > 0
      invariant used == 0 && avbl == next - root && dpth <= 25 && (avbl == 0 ==> root == -1)
      invariant Cut(p, taken, root, next, dpth)
      invariant Lengths(Keys(A[..]), p, taken, root, next)
      invariant KraftOpen(Keys(A[..]), next, avbl, dpth)
      invariant SameSyms(A[..], old(A[..]))
      decreases root + 1, avbl
    {
      CutNodes(p, taken, root, next, dpth);
      CutLeaves(p, taken, root, next, dpth);
      ghost var root2, next2 := NodesUsed(taken, root) - 1, LeavesUsed(taken, root) - 1;
      assert dpth <= 24 by { assert LeafDepth(p, taken, next) <= 24; }
      ghost var root1, next1 := root, next;
      while root >= 0 && A[root].key == dpth
        invariant root2 <= root <= root1 && used == root1 - root
      {
        used := used + 1;
        root := root - 1;
      }
      assert root == root2 && next2 == next - (avbl - used);
      next, avbl := GiveLevel(A, root, next, avbl, used, dpth, p, taken);
      KraftDown(Keys(A[..]), next, used, dpth);
      avbl := 2 * used;
      dpth := dpth + 1;
      used := 0;
    }
    assert Keys(A[..])[0..] == Keys(A[..]);
  }

  lemma StartCut(a: seq<nat>, p: seq<nat>, taken: seq<nat>)
    requires |a| == |p| + 2 && Tree(p, taken)
    requires forall i :: 0 <= i <= |p| ==> a[i] == Depth(p, i)
    ensures Cut(p, taken, |p|, |p| + 1, 0)
    ensures Lengths(a, p, taken, |p|, |p| + 1)
    ensures KraftOpen(a, |p| + 1, 1, 0)
  {
    assert a[|p| + 2..] == [];
  }
}
