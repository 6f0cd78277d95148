/** The in-place minimum-redundancy code of Moffat and Katajainen
    (tdefl_calculate_minimum_redundancy, src/http/miniz.c:1836-1854).

    One array holds, in turn, symbol frequencies, node weights, parent links, node depths and
    code lengths. The three passes below are the three loops of the function. */
module MinRedundancy {
  import opened Bits

  datatype SymFreq = SymFreq(key: nat, sym: nat)

  function Keys(s: seq<SymFreq>): (k: seq<nat>)
    ensures |k| == |s| && forall i :: 0 <= i < |s| ==> k[i] == s[i].key
  {
    seq(|s|, i requires 0 <= i < |s| => s[i].key)
  }

  predicate SameSyms(s: seq<SymFreq>, t: seq<SymFreq>)
  {
    |s| == |t| && forall i :: 0 <= i < |s| ==> s[i].sym == t[i].sym
  }

  function Sum(s: seq<nat>): nat
  {
    if s == [] then 0 else s[0] + Sum(s[1..])
  }

  /** Sum of 2^(max - length): the Kraft sum in units of 2^-max. */
  function Kraft(lens: seq<nat>, max: nat): nat
  {
    if lens == [] then 0 else (if lens[0] <= max then Pow2(max - lens[0]) else 0) + Kraft(lens[1..], max)
  }

  predicate Sorted(s: seq<nat>)
  {
    forall i, j :: 0 <= i <= j < |s| ==> s[i] <= s[j]
  }

  predicate Positive(s: seq<nat>)
  {
    forall i :: 0 <= i < |s| ==> s[i] >= 1
  }

  /** The shape of a merge tree, by creation order of its nodes: after node k was made, taken[k]
      nodes and 2 * (k + 1) - taken[k] leaves had been given a parent, smallest first. */
  predicate Shape(taken: seq<nat>, leaves: nat)
  {
    && (|taken| > 0 ==> taken[0] == 0)
    && (forall k, m :: 0 <= k <= m < |taken| ==> taken[k] <= taken[m])
    && (forall k :: 0 < k < |taken| ==> taken[k] <= taken[k - 1] + 2)
    && (forall k :: 0 <= k < |taken| ==> taken[k] <= k && 2 * (k + 1) - taken[k] <= leaves)
  }

  /** p[i] is the node that took node i. */
  predicate Parents(p: seq<nat>, taken: seq<nat>)
  {
    forall i :: 0 <= i < |p| ==> 0 < p[i] < |taken| && taken[p[i] - 1] <= i < taken[p[i]]
  }

  /** Node weights: positive, and a grandparent weighs at least its child plus its grandchild. */
  predicate Growth(w: seq<nat>, p: seq<nat>)
  {
    forall i :: 0 <= i < |p| <= |w| && p[i] < |p| && p[p[i]] < |w| ==> i < p[i] && w[p[p[i]]] >= w[p[i]] + w[i]
  }

  /** How many nodes, and how many leaves, have a parent among the nodes 0..k. */
  function NodesUsed(taken: seq<nat>, k: int): nat
    requires -1 <= k < |taken|
  {
    if k < 0 then 0 else taken[k]
  }

  function LeavesUsed(taken: seq<nat>, k: int): int
    requires -1 <= k < |taken|
  {
    2 * (k + 1) - NodesUsed(taken, k)
  }

  /** The unused items when node k is made, and what is left of them afterwards:
      node k is the sum of two items, and these are no heavier than the rest. */
  ghost predicate MergedAt(f: seq<nat>, w: seq<nat>, taken: seq<nat>, k: nat)
    requires k < |taken| && k < |w|
  {
    var r0, r1, l0, l1 := NodesUsed(taken, k - 1), NodesUsed(taken, k), LeavesUsed(taken, k - 1), LeavesUsed(taken, k);
    && r0 <= r1 <= k && 0 <= l0 <= l1 <= |f|
    && w[k] == Sum(w[r0..r1]) + Sum(f[l0..l1])
    && (forall i, j :: r0 <= i < r1 && l1 <= j < |f| ==> w[i] <= f[j])
    && (forall i, j :: r1 <= i < k && l0 <= j < l1 ==> f[j] <= w[i])
  }

  /** Every node was made by merging two smallest items. */
  ghost predicate Greedy(f: seq<nat>, w: seq<nat>, taken: seq<nat>)
  {
    |w| == |taken| && forall k :: 0 <= k < |taken| ==> MergedAt(f, w, taken, k)
  }

  lemma {:induction false} SumSplit(s: seq<nat>, t: seq<nat>)
    ensures Sum(s + t) == Sum(s) + Sum(t)
  {
    if s == [] {
      assert s + t == t;
    } else {
      assert (s + t)[1..] == s[1..] + t;
      SumSplit(s[1..], t);
    }
  }

  lemma SumSnoc(s: seq<nat>, x: nat)
    ensures Sum(s + [x]) == Sum(s) + x
  {
    SumSplit(s, [x]);
    assert [x][1..] == [];
  }

  lemma SumFrom(s: seq<nat>, i: nat)
    requires i < |s|
    ensures Sum(s[i..]) == s[i] + Sum(s[i + 1..])
  {
    assert s[i..][1..] == s[i + 1..];
  }

  // ---------- first pass: merge nodes ----------

  /** What is true between merges. Leaves up to `leaf` and nodes up to `root` are used; the rest of
      the sum is unused; `last` bounds the weights merged last. */
  ghost predicate Merging(a: seq<nat>, f: seq<nat>, w: seq<nat>, p: seq<nat>, taken: seq<nat>, root: nat, leaf: nat, next: nat, last: nat)
  {
    && 2 <= |f| == |a| && Sorted(f) && Positive(f)
    && Counts(f, w, p, taken, root, leaf, next)
    && Layout(a, f, w, p, root, leaf, next)
    && Sum(w[root..]) + Sum(f[leaf..]) == Sum(f)
    && Shape(taken, |f|) && Parents(p, taken)
    && Ordered(f, w, root, leaf, last)
    && Growth(w, p) && Greedy(f, w, taken)
  }

  ghost predicate Counts(f: seq<nat>, w: seq<nat>, p: seq<nat>, taken: seq<nat>, root: nat, leaf: nat, next: nat)
  {
    && root < next < |f| && leaf == 2 * next - root <= |f|
    && |w| == |taken| == next && |p| == root && taken[next - 1] == root
  }

  /** The one array: parent links of used nodes, weights of unused ones, frequencies of unused leaves. */
  ghost predicate Layout(a: seq<nat>, f: seq<nat>, w: seq<nat>, p: seq<nat>, root: nat, leaf: nat, next: nat)
  {
    && |a| == |f| && |w| == next && |p| == root <= |f|
    && (forall i :: 0 <= i < root ==> a[i] == p[i])
    && (forall i :: root <= i < next && i < |a| ==> a[i] == w[i])
    && (forall i :: leaf <= i < |f| ==> a[i] == f[i])
  }

  /** Nodes are made in order of weight, and nothing unused is lighter than what was merged last. */
  ghost predicate Ordered(f: seq<nat>, w: seq<nat>, root: nat, leaf: nat, last: nat)
  {
    && Sorted(w) && Positive(w) && root < |w|
    && w[|w| - 1] <= 2 * last && w[root] >= last && (leaf < |f| ==> f[leaf] >= last)
    && (root > 0 && leaf < |f| ==> w[root - 1] <= f[leaf])
  }

  /** The two smallest unused items: `c1` and `c2` say whether each is a node or a leaf. */
  ghost predicate Picks(f: seq<nat>, w: seq<nat>, root: nat, leaf: nat, next: nat, c1: bool, c2: bool)
    requires root < next == |w| && leaf <= |f|
  {
    var root1 := if c1 then root + 1 else root;
    var leaf1 := if c1 then leaf else leaf + 1;
    && c1 == (leaf >= |f| || w[root] < f[leaf])
    && c2 == (leaf1 >= |f| || (root1 < next && w[root1] < f[leaf1]))
    && (c2 ==> root1 < next)
  }

  function PickWeight(f: seq<nat>, w: seq<nat>, root: nat, leaf: nat, c: bool): nat
    requires if c then root < |w| else leaf < |f|
  {
    if c then w[root] else f[leaf]
  }

  lemma MergeOrder(f: seq<nat>, w: seq<nat>, root: nat, leaf: nat, next: nat, last: nat, c1: bool, c2: bool)
    returns (last': nat)
    requires Sorted(f) && Positive(f) && Ordered(f, w, root, leaf, last)
    requires root < next == |w| && leaf <= |f| && Picks(f, w, root, leaf, next, c1, c2)
    ensures var root1 := if c1 then root + 1 else root;
            var leaf1 := if c1 then leaf else leaf + 1;
            var x, y := PickWeight(f, w, root, leaf, c1), PickWeight(f, w, root1, leaf1, c2);
            var root2 := if c2 then root1 + 1 else root1;
            var leaf2 := if c2 then leaf1 else leaf1 + 1;
            && Ordered(f, w + [x + y], root2, leaf2, last')
            && (forall q, i :: root <= q < root2 && 0 <= i < q ==> x + y >= w[q] + w[i])
            && (forall i, j :: root <= i < root2 && leaf2 <= j < |f| ==> w[i] <= f[j])
            && (forall i, j :: root2 <= i < next && leaf <= j < leaf2 ==> f[j] <= w[i])
  {
    var root1 := if c1 then root + 1 else root;
    var leaf1 := if c1 then leaf else leaf + 1;
    var x, y := PickWeight(f, w, root, leaf, c1), PickWeight(f, w, root1, leaf1, c2);
    last' := if x <= y then y else x;
  }

  /** The links after a merge that takes the nodes root and below root2. */
  lemma MergeLinks(p: seq<nat>, taken: seq<nat>, leaves: nat, root: nat, root2: nat)
    requires |p| == root <= root2 <= root + 2 && root2 <= |taken| && taken != []
    requires taken[|taken| - 1] == root && 2 * (|taken| + 1) - root2 <= leaves
    requires Shape(taken, leaves) && Parents(p, taken)
    ensures Shape(taken + [root2], leaves)
    ensures Parents(p + seq(root2 - root, i => |taken|), taken + [root2])
  {
  }

  lemma MergeSums(f: seq<nat>, w: seq<nat>, root: nat, leaf: nat, c1: bool, c2: bool)
    returns (root2: nat, leaf2: nat, z: nat)
    requires if c1 then root < |w| else leaf < |f|
    requires var root1 := if c1 then root + 1 else root;
             var leaf1 := if c1 then leaf else leaf + 1;
             if c2 then root1 < |w| else leaf1 < |f|
    requires leaf <= |f| && root <= |w|
    ensures var root1 := if c1 then root + 1 else root;
            var leaf1 := if c1 then leaf else leaf + 1;
            && root2 == (if c2 then root1 + 1 else root1)
            && leaf2 == (if c2 then leaf1 else leaf1 + 1)
            && z == PickWeight(f, w, root, leaf, c1) + PickWeight(f, w, root1, leaf1, c2)
    ensures root2 <= |w| && leaf2 <= |f|
    ensures Sum((w + [z])[root2..]) + Sum(f[leaf2..]) == Sum(w[root..]) + Sum(f[leaf..])
    ensures z == Sum(w[root..root2]) + Sum(f[leaf..leaf2]) <= Sum(w[root..]) + Sum(f[leaf..])
  {
    var root1 := if c1 then root + 1 else root;
    var leaf1 := if c1 then leaf else leaf + 1;
    root2 := if c2 then root1 + 1 else root1;
    leaf2 := if c2 then leaf1 else leaf1 + 1;
    if c1 { SumFrom(w, root); } else { SumFrom(f, leaf); }
    if c2 { SumFrom(w, root1); } else { SumFrom(f, leaf1); }
    z := PickWeight(f, w, root, leaf, c1) + PickWeight(f, w, root1, leaf1, c2);
    assert (w + [z])[root2..] == w[root2..] + [z];
    SumSnoc(w[root2..], z);
    assert w[root..] == w[root..root2] + w[root2..] && f[leaf..] == f[leaf..leaf2] + f[leaf2..];
    SumSplit(w[root..root2], w[root2..]);
    SumSplit(f[leaf..leaf2], f[leaf2..]);
  }

  /** A node that is merged after its own children weighs with them at most its parent. */
  lemma MergeGrowth(w: seq<nat>, p: seq<nat>, taken: seq<nat>, leaves: nat, root: nat, root2: nat, z: nat)
    requires |p| == root <= root2 <= |w| == |taken| && root2 <= root + 2
    requires taken != [] && taken[|taken| - 1] == root
    requires Shape(taken, leaves) && Parents(p, taken) && Growth(w, p)
    requires forall q, i :: root <= q < root2 && 0 <= i < q ==> z >= w[q] + w[i]
    ensures Growth(w + [z], p + seq(root2 - root, i => |taken|))
  {
    var p2, w2 := p + seq(root2 - root, i => |taken|), w + [z];
    forall i | 0 <= i < |p2| && p2[i] < |p2| && p2[p2[i]] < |w2|
      ensures i < p2[i] && w2[p2[p2[i]]] >= w2[p2[i]] + w2[i]
    {
      if i < root {
        assert p[i] < |taken| && taken[p[i]] <= p[i];
        if p[i] < root {
          assert p2[p[i]] == p[p[i]] < |w|;
        }
      }
    }
  }

  lemma MergeGreedy(f: seq<nat>, w: seq<nat>, taken: seq<nat>, root: nat, root2: nat, leaf: nat, leaf2: nat, z: nat)
    requires Greedy(f, w, taken) && taken != [] && taken[|taken| - 1] == root
    requires root <= root2 <= |w| && leaf == 2 * |w| - root && leaf2 == 2 * (|w| + 1) - root2 && leaf <= leaf2 <= |f|
    requires z == Sum(w[root..root2]) + Sum(f[leaf..leaf2])
    requires forall i, j :: root <= i < root2 && leaf2 <= j < |f| ==> w[i] <= f[j]
    requires forall i, j :: root2 <= i < |w| && leaf <= j < leaf2 ==> f[j] <= w[i]
    ensures Greedy(f, w + [z], taken + [root2])
  {
    hide Sum;
    var w2, taken2 := w + [z], taken + [root2];
    forall k | 0 <= k < |taken2|
      ensures MergedAt(f, w2, taken2, k)
    {
      var r0, r1 := NodesUsed(taken2, k - 1), NodesUsed(taken2, k);
      if k < |taken| {
        assert MergedAt(f, w, taken, k);
        assert r0 == NodesUsed(taken, k - 1) && r1 == NodesUsed(taken, k);
      }
      assert w2[r0..r1] == w[r0..r1];
    }
  }

  /** One merge keeps the invariant: the two smallest unused items become children of node next. */
  lemma MergeStep(a: seq<nat>, a': seq<nat>, f: seq<nat>, w: seq<nat>, p: seq<nat>, taken: seq<nat>,
                  root: nat, leaf: nat, next: nat, last: nat, c1: bool, c2: bool, root2: nat, leaf2: nat, z: nat)
    returns (last': nat)
    requires Merging(a, f, w, p, taken, root, leaf, next, last) && Picks(f, w, root, leaf, next, c1, c2)
    requires next < |f| - 1
    requires root2 == root + (if c1 then 1 else 0) + (if c2 then 1 else 0) && leaf2 == 2 * (next + 1) - root2
    requires var root1 := if c1 then root + 1 else root;
             var leaf1 := if c1 then leaf else leaf + 1;
             z == PickWeight(f, w, root, leaf, c1) + PickWeight(f, w, root1, leaf1, c2)
    requires |a'| == |a| && a'[next] == z
    requires forall i :: root <= i < root2 ==> a'[i] == next
    requires forall i :: 0 <= i < |a| && i != next && !(root <= i < root2) ==> a'[i] == a[i]
    ensures Merging(a', f, w + [z], p + seq(root2 - root, i => next), taken + [root2], root2, leaf2, next + 1, last')
  {
    hide Sum, Shape, Parents, Growth, Positive, Sorted, Ordered, Layout, Greedy;
    MergeCounts(f, w, p, taken, root, leaf, next, c1, c2, root2, leaf2, z);
    last' := MergeOrder(f, w, root, leaf, next, last, c1, c2);
    var r, l, z' := MergeSums(f, w, root, leaf, c1, c2);
    MergeLinks(p, taken, |f|, root, root2);
    MergeGrowth(w, p, taken, |f|, root, root2, z);
    MergeGreedy(f, w, taken, root, root2, leaf, leaf2, z);
    MergeArray(a, a', f, w, p, root, leaf, next, root2, leaf2, z);
  }

  lemma MergeCounts(f: seq<nat>, w: seq<nat>, p: seq<nat>, taken: seq<nat>, root: nat, leaf: nat, next: nat,
                    c1: bool, c2: bool, root2: nat, leaf2: nat, z: nat)
    requires Counts(f, w, p, taken, root, leaf, next) && Picks(f, w, root, leaf, next, c1, c2)
    requires next < |f| - 1
    requires root2 == root + (if c1 then 1 else 0) + (if c2 then 1 else 0) && leaf2 == 2 * (next + 1) - root2
    ensures Counts(f, w + [z], p + seq(root2 - root, i => next), taken + [root2], root2, leaf2, next + 1)
    ensures root <= root2 <= next < leaf <= leaf2 <= |f|
  {
  }

  lemma MergeArray(a: seq<nat>, a': seq<nat>, f: seq<nat>, w: seq<nat>, p: seq<nat>,
                   root: nat, leaf: nat, next: nat, root2: nat, leaf2: nat, z: nat)
    requires |a'| == |a| == |f| && root <= root2 <= next < leaf <= leaf2 <= |f|
    requires Layout(a, f, w, p, root, leaf, next)
    requires a'[next] == z
    requires forall i :: root <= i < root2 ==> a'[i] == next
    requires forall i :: 0 <= i < |a| && i != next && !(root <= i < root2) ==> a'[i] == a[i]
    ensures Layout(a', f, w + [z], p + seq(root2 - root, i => next), root2, leaf2, next + 1)
  {
  }

  /** `(mz_uint16)`. */
  function U16(x: nat): nat { x % 0x10000 }

  /** Is the next smallest item a node (or a leaf)? */
  predicate TakeNode(a: seq<nat>, root: nat, leaf: nat, next: nat)
    requires next <= |a| && leaf <= |a|
  {
    leaf >= |a| || (root < next && a[root] < a[leaf])
  }

  /** Move the smallest unused item's weight into node next, on top of acc
      (one of the two statements of the merge loop, src/http/miniz.c:1843-1844). */
  method TakeOne(A: array<SymFreq>, root: nat, leaf: nat, next: nat, acc: nat) returns (root': nat, leaf': nat)
    requires root <= next < leaf <= A.Length
    requires leaf == A.Length ==> root < next
    modifies A
    ensures TakeNode(old(Keys(A[..])), root, leaf, next) ==>
              root < next && root' == root + 1 && leaf' == leaf && A[next].key == U16(acc + old(A[root].key)) && A[root].key == U16(next)
    ensures !TakeNode(old(Keys(A[..])), root, leaf, next) ==>
              root' == root && leaf < A.Length && leaf' == leaf + 1 && A[next].key == U16(acc + old(A[leaf].key))
    ensures forall i :: 0 <= i < A.Length && i != next && !(root <= i < root') ==> A[i] == old(A[i])
    ensures SameSyms(A[..], old(A[..]))
  {
    if leaf >= A.Length || (root < next && A[root].key < A[leaf].key) {
      A[next] := A[next].(key := U16(acc + A[root].key));
      A[root] := A[root].(key := U16(next));
      root', leaf' := root + 1, leaf;
    } else {
      A[next] := A[next].(key := U16(acc + A[leaf].key));
      root', leaf' := root, leaf + 1;
    }
  }

  /** First pass (src/http/miniz.c:1840-1845). */
  method MergeNodes(A: array<SymFreq>)
    returns (ghost w: seq<nat>, ghost p: seq<nat>, ghost taken: seq<nat>, ghost last: nat)
    requires 2 <= A.Length < 0x10000 && Sorted(Keys(A[..])) && Positive(Keys(A[..])) && Sum(Keys(A[..])) < 0x10000
    modifies A
    ensures SameSyms(A[..], old(A[..]))
    ensures Merging(Keys(A[..]), old(Keys(A[..])), w, p, taken, A.Length - 2, A.Length, A.Length - 1, last)
  {
    hide Sum, Shape, Parents, Growth, Positive, Sorted, Ordered, Greedy;
    var n := A.Length;
    ghost var f := Keys(A[..]);
    last := A[1].key;
    StartMerging(f);
    A[0] := A[0].(key := U16(A[0].key + A[1].key));
    w, p, taken := [f[0] + f[1]], [], [0];
    var root, leaf, next := 0, 2, 1;
    assert Keys(A[..]) == f[0 := f[0] + f[1]];
    while next < n - 1
      invariant 1 <= next <= n - 1 && SameSyms(A[..], old(A[..]))
      invariant Merging(Keys(A[..]), f, w, p, taken, root, leaf, next, last)
    {
      root, leaf, w, p, taken, last := MergeOnce(A, root, leaf, next, f, w, p, taken, last);
      next := next + 1;
    }
  }

  /** One round of the loop: node next gets the two smallest unused items. */
  method MergeOnce(A: array<SymFreq>, root0: nat, leaf0: nat, next: nat, ghost f: seq<nat>, ghost w0: seq<nat>, ghost p0: seq<nat>,
                   ghost taken0: seq<nat>, ghost last0: nat)
    returns (root: nat, leaf: nat, ghost w: seq<nat>, ghost p: seq<nat>, ghost taken: seq<nat>, ghost last: nat)
    requires Merging(Keys(A[..]), f, w0, p0, taken0, root0, leaf0, next, last0) && next < |f| - 1 && |f| < 0x10000 && Sum(f) < 0x10000
    modifies A
    ensures SameSyms(A[..], old(A[..])) && Merging(Keys(A[..]), f, w, p, taken, root, leaf, next + 1, last)
  {
    hide Sum, Shape, Parents, Growth, Positive, Sorted, Ordered, Greedy;
    ghost var a := Keys(A[..]);
    ghost var c1 := TakeNode(a, root0, leaf0, next);
    root, leaf := TakeOne(A, root0, leaf0, next, 0);
    ghost var a1, root1, leaf1 := Keys(A[..]), root, leaf;
    ghost var c2 := TakeNode(a1, root, leaf, next);
    root, leaf := TakeOne(A, root, leaf, next, A[next].key);
    ghost var z;
    last, z := MergeRound(a, a1, Keys(A[..]), f, w0, p0, taken0, root0, leaf0, next, last0, c1, c2, root, leaf);
    w, p, taken := w0 + [z], p0 + seq(root - root0, i => next), taken0 + [root];
  }

  lemma SmallSum(z: nat, total: nat)
    requires z <= total < 0x10000
    ensures forall x: nat :: x <= z ==> U16(x) == x
  {
  }

  lemma RoundPicks(a: seq<nat>, f: seq<nat>, w: seq<nat>, p: seq<nat>, root: nat, leaf: nat, next: nat, c1: bool)
    requires Layout(a, f, w, p, root, leaf, next) && root < next <= |f| && leaf <= |f| && c1 == TakeNode(a, root, leaf, next)
    ensures c1 == (leaf >= |f| || w[root] < f[leaf])
    ensures a[root] == w[root] && (leaf < |f| ==> a[leaf] == f[leaf])
  {
  }

  /** The array after the two statements of one round is the array after one merge. */
  lemma MergeRound(a: seq<nat>, a1: seq<nat>, a2: seq<nat>, f: seq<nat>, w: seq<nat>, p: seq<nat>, taken: seq<nat>,
                   root: nat, leaf: nat, next: nat, last: nat, c1: bool, c2: bool, root2: nat, leaf2: nat)
    returns (last': nat, z: nat)
    requires Merging(a, f, w, p, taken, root, leaf, next, last) && next < |f| - 1 && |f| < 0x10000 && Sum(f) < 0x10000
    requires |a1| == |a2| == |a|
    requires c1 == TakeNode(a, root, leaf, next)
    requires c1 ==> a1[next] == U16(a[root]) && a1[root] == U16(next)
    requires !c1 ==> leaf < |a| && a1[next] == U16(a[leaf])
    requires forall i :: 0 <= i < |a| && i != next && !(c1 && i == root) ==> a1[i] == a[i]
    requires var root1, leaf1 := if c1 then root + 1 else root, if c1 then leaf else leaf + 1;
             && leaf1 <= |a|
             && c2 == TakeNode(a1, root1, leaf1, next)
             && (c2 ==> root1 < next && root2 == root1 + 1 && leaf2 == leaf1 && a2[next] == U16(a1[next] + a1[root1]) && a2[root1] == U16(next))
             && (!c2 ==> root2 == root1 && leaf1 < |a| && leaf2 == leaf1 + 1 && a2[next] == U16(a1[next] + a1[leaf1]))
             && (forall i :: 0 <= i < |a| && i != next && !(c2 && i == root1) ==> a2[i] == a1[i])
    ensures Merging(a2, f, w + [z], p + seq(root2 - root, i => next), taken + [root2], root2, leaf2, next + 1, last')
  {
    hide Sum, Shape, Parents, Growth, Positive, Sorted, Ordered, Greedy;
    RoundPicks(a, f, w, p, root, leaf, next, c1);
    var root1, leaf1 := if c1 then root + 1 else root, if c1 then leaf else leaf + 1;
    var r, l, z' := MergeSums(f, w, root, leaf, c1, c2);
    z := z';
    SmallSum(z, Sum(w[root..]) + Sum(f[leaf..]));
    last' := MergeStep(a, a2, f, w, p, taken, root, leaf, next, last, c1, c2, root2, leaf2, z);
  }

  lemma StartMerging(f: seq<nat>)
    requires 2 <= |f| && Sorted(f) && Positive(f)
    ensures Merging(f[0 := f[0] + f[1]], f, [f[0] + f[1]], [], [0], 0, 2, 1, f[1])
    ensures f[0] + f[1] <= Sum(f)
  {
    hide Sum, Greedy, Shape, Parents, Growth, Ordered, Layout, Counts;
    StartSums(f);
    StartGreedy(f);
    StartLinks(f);
    StartLayout(f);
  }

  lemma StartLinks(f: seq<nat>)
    requires 2 <= |f|
    ensures Shape([0], |f|) && Parents([], [0]) && Growth([f[0] + f[1]], [])
  {
  }

  lemma StartLayout(f: seq<nat>)
    requires 2 <= |f| && Sorted(f) && Positive(f)
    ensures Counts(f, [f[0] + f[1]], [], [0], 0, 2, 1) && Layout(f[0 := f[0] + f[1]], f, [f[0] + f[1]], [], 0, 2, 1)
    ensures Ordered(f, [f[0] + f[1]], 0, 2, f[1])
  {
  }

  lemma StartSums(f: seq<nat>)
    requires 2 <= |f|
    ensures Sum([f[0] + f[1]][0..]) == f[0] + f[1] == Sum(f[0..2]) && Sum([]) == 0
    ensures f[0] + f[1] + Sum(f[2..]) == Sum(f)
  {
    SumFrom(f, 0);
    SumFrom(f, 1);
    assert f[0..] == f;
    var w := [f[0] + f[1]];
    assert w[0..] == w && w[1..] == [];
    assert Sum(w) == w[0] + Sum(w[1..]);
    assert f[0..2] == [f[0], f[1]] && [f[0], f[1]][1..] == [f[1]] && [f[1]][1..] == [];
  }

  lemma StartGreedy(f: seq<nat>)
    requires 2 <= |f| && Sorted(f)
    ensures Greedy(f, [f[0] + f[1]], [0])
  {
    hide Sum;
    StartSums(f);
    var w := [f[0] + f[1]];
    assert w[0..0] == [];
    assert MergedAt(f, w, [0], 0);
  }
}
