/** The decoder's Huffman tables: a look-up of the next ten bits, and for longer codes a tree packed
    into negative entries (src/http/miniz.c:1508-1532 and 1418-1423). */
module TinflTable {
  import opened Bits
  import opened CanonicalCode
  import opened Covering
  import HuffTable
  import LengthCounting
  import Inflate

  const LOOKUP_BITS := 10       // TINFL_FAST_LOOKUP_BITS
  const LOOKUP_SIZE := 1024     // TINFL_FAST_LOOKUP_SIZE
  const TREE_SIZE := 576
  const MAX_SYMBOLS := 288

  // ---------- what the entries mean ----------

  /** The entry of the node that is number j in order of creation; its two slots are 2j and 2j + 1. */
  function NodeEntry(j: nat): int { -1 - 2 * j }

  /** e refers to the node at path p. */
  ghost predicate Refers(paths: seq<seq<bool>>, e: int, p: seq<bool>)
  {
    exists j: nat :: j < |paths| && paths[j] == p && e == NodeEntry(j)
  }

  /** The symbol s is among the first n, and its codeword has at most (or more than) ten bits. */
  predicate Short(S: seq<nat>, n: nat, s: nat) { s < n && s < |S| && 0 < S[s] <= LOOKUP_BITS }

  predicate Long(S: seq<nat>, n: nat, s: nat) { s < n && s < |S| && S[s] > LOOKUP_BITS }

  /** The look-up entry for ten bits p, once the first n symbols are in: the symbol whose codeword
      they start with, with its length; or a node; or nothing. */
  ghost predicate LookEntry(S: seq<nat>, n: nat, e: int, p: seq<bool>, paths: seq<seq<bool>>)
  {
    && (e > 0 ==> Short(S, n, e % 512) && S[e % 512] == e / 512 && Codeword(S, e % 512) <= p)
    && (e < 0 ==> Refers(paths, e, p))
    && (e == 0 ==> p !in paths && forall s :: Short(S, n, s) ==> !(Codeword(S, s) <= p))
  }

  /** The tree entry at path p: the symbol with this codeword, or a node, or nothing. An empty slot
      can not be told from a leaf of symbol 0. */
  ghost predicate TreeEntry(S: seq<nat>, n: nat, e: int, p: seq<bool>, paths: seq<seq<bool>>)
  {
    && (e > 0 ==> Long(S, n, e) && Codeword(S, e) == p)
    && (e < 0 ==> Refers(paths, e, p))
    && (e == 0 ==> p !in paths && forall s :: Long(S, n, s) && Codeword(S, s) == p ==> s == 0)
  }

  /** The nodes are the inner nodes of the code tree from depth 10 on, each made once, parents first. */
  ghost predicate Nodes(S: seq<nat>, paths: seq<seq<bool>>)
  {
    && Distinct(paths) && |paths| <= MAX_SYMBOLS
    && (forall j :: 0 <= j < |paths| ==> Inner(S, paths[j]) && |paths[j]| >= LOOKUP_BITS)
    && (forall j :: 0 <= j < |paths| && |paths[j]| > LOOKUP_BITS ==> Parent(paths[j]) in paths)
  }

  function Parent(p: seq<bool>): seq<bool>
    requires p != []
  {
    p[..|p| - 1]
  }

  /** The path of tree slot i. */
  function SlotPath(paths: seq<seq<bool>>, i: nat): seq<bool>
    requires i < 2 * |paths|
  {
    paths[i / 2] + [i % 2 == 1]
  }

  /** The tables hold the first n symbols. */
  ghost predicate Trie(S: seq<nat>, n: nat, look: seq<int>, tree: seq<int>, paths: seq<seq<bool>>)
  {
    && |look| == LOOKUP_SIZE && |tree| == TREE_SIZE && n <= |S| <= MAX_SYMBOLS && Nodes(S, paths)
    && (forall x :: 0 <= x < LOOKUP_SIZE ==> LookEntry(S, n, look[x], ToBits(x, LOOKUP_BITS), paths))
    && (forall i :: 0 <= i < 2 * |paths| ==> TreeEntry(S, n, tree[i], SlotPath(paths, i), paths))
    && (forall i :: 2 * |paths| <= i < TREE_SIZE ==> tree[i] == 0)
    && (forall s :: Long(S, n, s) ==> Parent(Codeword(S, s)) in paths)
  }

  // ---------- looking up ----------

  lemma RefersUnique(paths: seq<seq<bool>>, e: int, p: seq<bool>) returns (j: nat)
    requires Refers(paths, e, p)
    ensures j < |paths| && paths[j] == p && e == NodeEntry(j) && 2 * j == -e - 1
  {
    j :| j < |paths| && paths[j] == p && e == NodeEntry(j);
  }

  /** A codeword starts no inner node, and no inner node is a codeword. */
  lemma InnerNotLeaf(S: seq<nat>, p: seq<bool>, s: nat)
    requires Fits(S, 15) && Inner(S, p) && s < |S| && S[s] > 0
    ensures !(Codeword(S, s) <= p)
  {
    hide Codeword;
    var t :| Under(S, p, t);
    if Codeword(S, s) <= p {
      var c := Codeword(S, t);
      assert Codeword(S, s) <= c;
      NoPrefix(S, s, t);
      assert false;
    }
  }

  lemma SamePrefix(S: seq<nat>, s: nat, t: nat, p: seq<bool>)
    requires Fits(S, 15) && s < |S| && t < |S| && S[s] > 0 && S[t] > 0 && Codeword(S, s) <= p && Codeword(S, t) <= p
    ensures s == t
  {
    hide Codeword;
    PrefixAt(p, Codeword(S, s));
    PrefixAt(p, Codeword(S, t));
    PrefixFree(S, 15, s, t, p, 0);
  }

  /** A short code is found at once. */
  lemma LookShort(S: seq<nat>, look: seq<int>, tree: seq<int>, paths: seq<seq<bool>>, x: nat, s: nat)
    requires Trie(S, |S|, look, tree, paths) && Fits(S, 15) && x < LOOKUP_SIZE && Short(S, |S|, s)
    requires Codeword(S, s) <= ToBits(x, LOOKUP_BITS)
    ensures look[x] > 0 && look[x] % 512 == s && look[x] / 512 == S[s]
  {
    hide Codeword, ToBits, Nodes, TreeEntry;
    var p := ToBits(x, LOOKUP_BITS);
    assert LookEntry(S, |S|, look[x], p, paths);
    if look[x] > 0 {
      SamePrefix(S, s, look[x] % 512, p);
    } else if look[x] < 0 {
      var j := RefersUnique(paths, look[x], p);
      NodeIsInner(S, paths, j);
      InnerNotLeaf(S, p, s);
    }
  }

  lemma NodeIsInner(S: seq<nat>, paths: seq<seq<bool>>, j: nat)
    requires Nodes(S, paths) && j < |paths|
    ensures Inner(S, paths[j]) && |paths[j]| >= LOOKUP_BITS
  {
  }

  /** Ten bits that lead to a node refer to it. */
  lemma LookNode(S: seq<nat>, look: seq<int>, tree: seq<int>, paths: seq<seq<bool>>, x: nat)
    requires Trie(S, |S|, look, tree, paths) && Fits(S, 15) && x < LOOKUP_SIZE && ToBits(x, LOOKUP_BITS) in paths
    ensures Refers(paths, look[x], ToBits(x, LOOKUP_BITS))
  {
    hide Codeword, ToBits, Nodes, TreeEntry;
    var p := ToBits(x, LOOKUP_BITS);
    assert LookEntry(S, |S|, look[x], p, paths);
    var j :| 0 <= j < |paths| && paths[j] == p;
    NodeIsInner(S, paths, j);
    if look[x] > 0 {
      InnerNotLeaf(S, p, look[x] % 512);
    }
  }

  /** So does a slot whose path is a node's. */
  lemma SlotNode(S: seq<nat>, look: seq<int>, tree: seq<int>, paths: seq<seq<bool>>, i: nat)
    requires Trie(S, |S|, look, tree, paths) && Fits(S, 15) && i < 2 * |paths| <= TREE_SIZE && SlotPath(paths, i) in paths
    ensures Refers(paths, tree[i], SlotPath(paths, i))
  {
    hide Codeword, ToBits, Nodes, LookEntry, SlotPath;
    var p := SlotPath(paths, i);
    assert TreeEntry(S, |S|, tree[i], p, paths);
    var j :| 0 <= j < |paths| && paths[j] == p;
    NodeIsInner(S, paths, j);
    if tree[i] > 0 {
      InnerNotLeaf(S, p, tree[i]);
    }
  }

  /** A slot whose path is a codeword holds its symbol, though for symbol 0 it looks empty. */
  lemma SlotLeaf(S: seq<nat>, look: seq<int>, tree: seq<int>, paths: seq<seq<bool>>, i: nat, s: nat)
    requires Trie(S, |S|, look, tree, paths) && Fits(S, 15) && i < 2 * |paths| <= TREE_SIZE && Long(S, |S|, s) && SlotPath(paths, i) == Codeword(S, s)
    ensures tree[i] == s
  {
    hide Codeword, ToBits, Nodes, LookEntry, SlotPath;
    var p := SlotPath(paths, i);
    assert TreeEntry(S, |S|, tree[i], p, paths);
    if tree[i] > 0 {
      SamePrefix(S, s, tree[i], p);
    } else if tree[i] < 0 {
      var j := RefersUnique(paths, tree[i], p);
      NodeIsInner(S, paths, j);
      InnerNotLeaf(S, p, s);
    }
  }

  /** All prefixes of a long codeword are nodes. */
  lemma {:induction false} PrefixesAreNodes(S: seq<nat>, paths: seq<seq<bool>>, c: seq<bool>, k: nat)
    requires Nodes(S, paths) && LOOKUP_BITS <= k < |c| && Parent(c) in paths
    ensures c[..k] in paths
    decreases |c| - k
  {
    if k < |c| - 1 {
      PrefixesAreNodes(S, paths, c, k + 1);
      assert Parent(c[..k + 1]) == c[..k];
    }
  }

  lemma {:induction false} BitAt(v: nat, n: nat, k: nat)
    requires k < n
    ensures ToBits(v, n)[k] == (Shr(v, k) % 2 == 1)
  {
    if k == 0 {
      assert Shr(v, 0) == v;
    } else {
      BitAt(v / 2, n - 1, k - 1);
      ShrShr(v, k);
    }
  }

  lemma LowTen(v: nat)
    ensures v % LOOKUP_SIZE == Mask(v, LOOKUP_BITS) && ToBits(v, 15)[..LOOKUP_BITS] == ToBits(v % LOOKUP_SIZE, LOOKUP_BITS)
  {
    hide ToBits;
    assert Pow2(10) == 1024;
    ToBitsSplit(v, 10, 5);
  }

  /** TINFL_HUFF_DECODE once at least fifteen bits, or all there are, have been read: whatever
      codeword the bits start with is the one found. */
  method LookUp(lookUp: array<int>, tree: array<int>, bitBuf: nat, ghost S: seq<nat>, ghost paths: seq<seq<bool>>, ghost s: nat)
    returns (sym: nat, codeLen: nat)
    requires Trie(S, |S|, lookUp[..], tree[..], paths) && Fits(S, 15)
    requires s < |S| && S[s] > 0 && Codeword(S, s) <= ToBits(bitBuf, 15)
    ensures sym == s && codeLen == S[s]
  {
    hide Codeword, ToBits, Trie, Refers, Fits, Shr;
    ghost var w, c := ToBits(bitBuf, 15), Codeword(S, s);
    LowTen(bitBuf);
    TrieSizes(S, lookUp[..], tree[..], paths);
    var x := bitBuf % LOOKUP_SIZE;
    var temp := lookUp[x];
    if S[s] <= LOOKUP_BITS {
      assert c <= w[..LOOKUP_BITS];
      LookShort(S, lookUp[..], tree[..], paths, x, s);
    } else {
      OnTheWay(S, lookUp[..], tree[..], paths, s, LOOKUP_BITS);
      assert c[..LOOKUP_BITS] == w[..LOOKUP_BITS];
      LookNode(S, lookUp[..], tree[..], paths, x);
      RefersNegative(paths, temp, c[..LOOKUP_BITS]);
    }
    if temp >= 0 {
      return temp % 512, temp / 512;
    }
    codeLen := LOOKUP_BITS;
    while temp < 0
      invariant temp < 0 ==> LOOKUP_BITS <= codeLen < S[s] && Refers(paths, temp, c[..codeLen])
      invariant temp >= 0 ==> temp == s && codeLen == S[s]
      decreases S[s] - codeLen
    {
      ghost var j := RefersUnique(paths, temp, c[..codeLen]);
      BitAt(bitBuf, 15, codeLen);
      assert c[codeLen] == w[codeLen];
      var slot := -temp - 1 + Shr(bitBuf, codeLen) % 2;
      SlotIs(paths, j, slot, c, codeLen);
      temp := tree[slot];
      codeLen := codeLen + 1;
      if codeLen == S[s] {
        assert c[..codeLen] == c;
        SlotLeaf(S, lookUp[..], tree[..], paths, slot, s);
      } else {
        OnTheWay(S, lookUp[..], tree[..], paths, s, codeLen);
        SlotNode(S, lookUp[..], tree[..], paths, slot);
        RefersNegative(paths, temp, c[..codeLen]);
      }
    }
    sym := temp;
  }

  lemma RefersNegative(paths: seq<seq<bool>>, e: int, p: seq<bool>)
    requires Refers(paths, e, p)
    ensures e < 0
  {
  }

  lemma TrieSizes(S: seq<nat>, look: seq<int>, tree: seq<int>, paths: seq<seq<bool>>)
    requires Trie(S, |S|, look, tree, paths)
    ensures |look| == LOOKUP_SIZE && |tree| == TREE_SIZE && 2 * |paths| <= TREE_SIZE
  {
  }

  lemma OnTheWay(S: seq<nat>, look: seq<int>, tree: seq<int>, paths: seq<seq<bool>>, s: nat, k: nat)
    requires Trie(S, |S|, look, tree, paths) && Long(S, |S|, s) && LOOKUP_BITS <= k < S[s]
    ensures Codeword(S, s)[..k] in paths
  {
    hide Codeword, Nodes, LookEntry, TreeEntry;
    PrefixesAreNodes(S, paths, Codeword(S, s), k);
  }

  lemma SlotIs(paths: seq<seq<bool>>, j: nat, slot: nat, c: seq<bool>, k: nat)
    requires j < |paths| && k < |c| && paths[j] == c[..k] && slot == 2 * j + (if c[k] then 1 else 0)
    ensures slot < 2 * |paths| && SlotPath(paths, slot) == c[..k + 1]
  {
    assert slot / 2 == j && slot % 2 == (if c[k] then 1 else 0);
  }

  // ---------- growing the tables, on values ----------

  /** Other entries do not mind a new node. */
  lemma LookKept(S: seq<nat>, n: nat, e: int, q: seq<bool>, paths: seq<seq<bool>>, p: seq<bool>)
    requires LookEntry(S, n, e, q, paths) && p != q
    ensures LookEntry(S, n, e, q, paths + [p])
  {
    hide Codeword;
    if e < 0 {
      var j := RefersUnique(paths, e, q);
      assert (paths + [p])[j] == q;
    }
  }

  lemma TreeKept(S: seq<nat>, n: nat, e: int, q: seq<bool>, paths: seq<seq<bool>>, p: seq<bool>)
    requires TreeEntry(S, n, e, q, paths) && p != q
    ensures TreeEntry(S, n, e, q, paths + [p])
  {
    hide Codeword;
    if e < 0 {
      var j := RefersUnique(paths, e, q);
      assert (paths + [p])[j] == q;
    }
  }

  lemma NewRefers(paths: seq<seq<bool>>, p: seq<bool>)
    ensures Refers(paths + [p], NodeEntry(|paths|), p)
  {
    assert (paths + [p])[|paths|] == p;
  }

  lemma MoreNodes(S: seq<nat>, paths: seq<seq<bool>>, p: seq<bool>, s: nat)
    requires Nodes(S, paths) && Inflate.Accepted(S) && |S| <= MAX_SYMBOLS && p !in paths && Under(S, p, s) && |p| >= LOOKUP_BITS
    requires |p| > LOOKUP_BITS ==> Parent(p) in paths
    ensures Nodes(S, paths + [p])
  {
    hide Codeword, Inflate.Accepted;
    var t := paths + [p];
    assert Inner(S, p);
    forall i, j | 0 <= i < j < |t| ensures t[i] != t[j] {
      assert t[i] in paths;
    }
    InnerNodesBound(S, t);
  }

  lemma SlotsDistinct(S: seq<nat>, paths: seq<seq<bool>>, i: nat, k: nat)
    requires Nodes(S, paths) && i < 2 * |paths| && k < 2 * |paths| && SlotPath(paths, i) == SlotPath(paths, k)
    ensures i == k
  {
    var p, q := SlotPath(paths, i), SlotPath(paths, k);
    assert p[..|p| - 1] == paths[i / 2] && q[..|q| - 1] == paths[k / 2];
    assert p[|p| - 1] == (i % 2 == 1) && q[|q| - 1] == (k % 2 == 1);
  }

  /** The slots of a node just made are rightly empty. */
  lemma FreshSlot(S: seq<nat>, n: nat, look: seq<int>, tree: seq<int>, paths: seq<seq<bool>>, p: seq<bool>, i: nat)
    requires Trie(S, n, look, tree, paths) && p !in paths && |p| >= LOOKUP_BITS && 2 * |paths| <= i < 2 * |paths| + 2
    ensures TreeEntry(S, n, 0, SlotPath(paths + [p], i), paths + [p])
  {
    hide Codeword, LookEntry;
    var q := SlotPath(paths + [p], i);
    assert q[..|q| - 1] == p;
    assert Parent(q) == p;
    forall s | Long(S, n, s) ensures Codeword(S, s) != q {
      assert Parent(Codeword(S, s)) in paths;
    }
  }

  lemma OldSlot(paths: seq<seq<bool>>, p: seq<bool>, i: nat)
    requires i < 2 * |paths|
    ensures SlotPath(paths + [p], i) == SlotPath(paths, i)
  {
  }

  /** A node under the look-up table. */
  lemma LookGrows(S: seq<nat>, n: nat, look: seq<int>, tree: seq<int>, paths: seq<seq<bool>>, x: nat, s: nat)
    requires Trie(S, n, look, tree, paths) && Inflate.Accepted(S) && x < LOOKUP_SIZE && look[x] == 0 && Under(S, ToBits(x, LOOKUP_BITS), s)
    ensures Trie(S, n, look[x := NodeEntry(|paths|)], tree, paths + [ToBits(x, LOOKUP_BITS)])
  {
    hide Codeword, ToBits, LookEntry, TreeEntry, SlotPath, Nodes, Inflate.Accepted, Refers, Under;
    var p := ToBits(x, LOOKUP_BITS);
    var paths2 := paths + [p];
    EmptyLook(S, n, look[x], p, paths);
    MoreNodes(S, paths, p, s);
    TrieNodes(S, paths2);
    forall y | 0 <= y < LOOKUP_SIZE ensures LookEntry(S, n, look[x := NodeEntry(|paths|)][y], ToBits(y, LOOKUP_BITS), paths2) {
      if y == x {
        NewLookEntry(S, n, paths, p);
      } else {
        if ToBits(y, LOOKUP_BITS) == p { SameIndex(x, y); }
        LookKept(S, n, look[y], ToBits(y, LOOKUP_BITS), paths, p);
      }
    }
    forall i | 0 <= i < 2 * |paths2| ensures TreeEntry(S, n, tree[i], SlotPath(paths2, i), paths2) {
      if i < 2 * |paths| {
        OldSlot(paths, p, i);
        SlotLonger(S, paths, i);
        TreeKept(S, n, tree[i], SlotPath(paths, i), paths, p);
      } else {
        FreshSlot(S, n, look, tree, paths, p, i);
      }
    }
  }

  lemma TrieNodes(S: seq<nat>, paths: seq<seq<bool>>)
    requires Nodes(S, paths)
    ensures |paths| <= MAX_SYMBOLS
  {
  }

  lemma EmptyLook(S: seq<nat>, n: nat, e: int, p: seq<bool>, paths: seq<seq<bool>>)
    requires LookEntry(S, n, e, p, paths) && e == 0
    ensures p !in paths
  {
  }

  lemma NewLookEntry(S: seq<nat>, n: nat, paths: seq<seq<bool>>, p: seq<bool>)
    ensures LookEntry(S, n, NodeEntry(|paths|), p, paths + [p]) && TreeEntry(S, n, NodeEntry(|paths|), p, paths + [p])
  {
    hide Codeword, Refers;
    NewRefers(paths, p);
  }

  lemma SameIndex(x: nat, y: nat)
    requires x < LOOKUP_SIZE && y < LOOKUP_SIZE && ToBits(x, LOOKUP_BITS) == ToBits(y, LOOKUP_BITS)
    ensures x == y
  {
    assert Pow2(10) == 1024;
    ToBitsInjective(x, y, LOOKUP_BITS);
  }

  lemma SlotLonger(S: seq<nat>, paths: seq<seq<bool>>, i: nat)
    requires Nodes(S, paths) && i < 2 * |paths|
    ensures |SlotPath(paths, i)| > LOOKUP_BITS && Parent(SlotPath(paths, i)) in paths
  {
    assert Parent(SlotPath(paths, i)) == paths[i / 2];
  }

  /** A node under another node. */
  lemma TreeGrows(S: seq<nat>, n: nat, look: seq<int>, tree: seq<int>, paths: seq<seq<bool>>, i: nat, s: nat)
    requires Trie(S, n, look, tree, paths) && Inflate.Accepted(S) && i < 2 * |paths| <= TREE_SIZE && tree[i] == 0 && Under(S, SlotPath(paths, i), s)
    ensures Trie(S, n, look, tree[i := NodeEntry(|paths|)], paths + [SlotPath(paths, i)])
  {
    hide Codeword, ToBits, LookEntry, TreeEntry, SlotPath, Nodes, Inflate.Accepted, Refers, Under;
    var p := SlotPath(paths, i);
    var paths2 := paths + [p];
    EmptySlot(S, n, tree[i], p, paths);
    SlotLonger(S, paths, i);
    MoreNodes(S, paths, p, s);
    TrieNodes(S, paths2);
    forall y | 0 <= y < LOOKUP_SIZE ensures LookEntry(S, n, look[y], ToBits(y, LOOKUP_BITS), paths2) {
      LookKept(S, n, look[y], ToBits(y, LOOKUP_BITS), paths, p);
    }
    forall k | 0 <= k < 2 * |paths2| ensures TreeEntry(S, n, tree[i := NodeEntry(|paths|)][k], SlotPath(paths2, k), paths2) {
      if k < 2 * |paths| {
        OldSlot(paths, p, k);
        if k == i {
          NewLookEntry(S, n, paths, p);
        } else {
          if SlotPath(paths, k) == p { SlotsDistinct(S, paths, i, k); }
          TreeKept(S, n, tree[k], SlotPath(paths, k), paths, p);
        }
      } else {
        FreshSlot(S, n, look, tree, paths, p, k);
      }
    }
  }

  lemma EmptySlot(S: seq<nat>, n: nat, e: int, p: seq<bool>, paths: seq<seq<bool>>)
    requires TreeEntry(S, n, e, p, paths) && e == 0
    ensures p !in paths
  {
  }

  /** The leaf of the next symbol. */
  lemma LeafGrows(S: seq<nat>, n: nat, look: seq<int>, tree: seq<int>, paths: seq<seq<bool>>, i: nat)
    requires Trie(S, n, look, tree, paths) && Fits(S, 15) && i < 2 * |paths| <= TREE_SIZE && Long(S, n + 1, n) && SlotPath(paths, i) == Codeword(S, n)
    ensures Trie(S, n + 1, look, tree[i := n], paths)
  {
    hide Codeword, ToBits, LookEntry, TreeEntry, SlotPath, Nodes, Refers, Fits;
    var c := Codeword(S, n);
    SlotLonger(S, paths, i);
    forall y | 0 <= y < LOOKUP_SIZE ensures LookEntry(S, n + 1, look[y], ToBits(y, LOOKUP_BITS), paths) {
      LookMore(S, n, look[y], ToBits(y, LOOKUP_BITS), paths);
    }
    forall k | 0 <= k < 2 * |paths| ensures TreeEntry(S, n + 1, tree[i := n][k], SlotPath(paths, k), paths) {
      if k == i {
        LeafEntry(S, n, paths);
      } else {
        if SlotPath(paths, k) == c { SlotsDistinct(S, paths, i, k); }
        TreeMore(S, n, tree[k], SlotPath(paths, k), paths);
      }
    }
  }

  lemma LookMore(S: seq<nat>, n: nat, e: int, p: seq<bool>, paths: seq<seq<bool>>)
    requires LookEntry(S, n, e, p, paths) && n < |S| && (Short(S, n + 1, n) ==> !(Codeword(S, n) <= p))
    ensures LookEntry(S, n + 1, e, p, paths)
  {
    hide Codeword, Refers;
  }

  lemma TreeMore(S: seq<nat>, n: nat, e: int, p: seq<bool>, paths: seq<seq<bool>>)
    requires TreeEntry(S, n, e, p, paths) && n < |S| && (Long(S, n + 1, n) ==> Codeword(S, n) != p)
    ensures TreeEntry(S, n + 1, e, p, paths)
  {
    hide Codeword, Refers;
  }

  lemma LeafEntry(S: seq<nat>, n: nat, paths: seq<seq<bool>>)
    requires Nodes(S, paths) && Fits(S, 15) && Long(S, n + 1, n)
    ensures TreeEntry(S, n + 1, n, Codeword(S, n), paths)
  {
    hide Codeword, Refers, Fits;
    if Codeword(S, n) in paths {
      var j :| 0 <= j < |paths| && paths[j] == Codeword(S, n);
      InnerNotLeaf(S, paths[j], n);
      assert false;
    }
    forall s | Long(S, n + 1, s) && Codeword(S, s) == Codeword(S, n) ensures s == n {
      SamePrefix(S, s, n, Codeword(S, n));
    }
  }

  /** All entries for a short codeword. */
  lemma ShortGrows(S: seq<nat>, n: nat, look: seq<int>, look2: seq<int>, tree: seq<int>, paths: seq<seq<bool>>)
    requires Trie(S, n, look, tree, paths) && Short(S, n + 1, n) && |look2| == LOOKUP_SIZE
    requires forall x :: 0 <= x < LOOKUP_SIZE ==> look2[x] == if Codeword(S, n) <= ToBits(x, LOOKUP_BITS) then S[n] * 512 + n else look[x]
    ensures Trie(S, n + 1, look2, tree, paths)
  {
    hide Codeword, ToBits, LookEntry, TreeEntry, SlotPath, Nodes, Refers, Fits;
    TrieNodes(S, paths);
    forall y | 0 <= y < LOOKUP_SIZE ensures LookEntry(S, n + 1, look2[y], ToBits(y, LOOKUP_BITS), paths) {
      if Codeword(S, n) <= ToBits(y, LOOKUP_BITS) {
        ShortEntry(S, n, ToBits(y, LOOKUP_BITS), paths);
      } else {
        LookMore(S, n, look[y], ToBits(y, LOOKUP_BITS), paths);
      }
    }
    forall k | 0 <= k < 2 * |paths| ensures TreeEntry(S, n + 1, tree[k], SlotPath(paths, k), paths) {
      TreeMore(S, n, tree[k], SlotPath(paths, k), paths);
    }
  }

  lemma ShortEntry(S: seq<nat>, n: nat, p: seq<bool>, paths: seq<seq<bool>>)
    requires Short(S, n + 1, n) && |S| <= MAX_SYMBOLS && Codeword(S, n) <= p
    ensures LookEntry(S, n + 1, S[n] * 512 + n, p, paths)
  {
    hide Codeword, Refers;
    assert (S[n] * 512 + n) / 512 == S[n] && (S[n] * 512 + n) % 512 == n;
  }

  /** A symbol that is not used. */
  lemma UnusedGrows(S: seq<nat>, n: nat, look: seq<int>, tree: seq<int>, paths: seq<seq<bool>>)
    requires Trie(S, n, look, tree, paths) && n < |S| && S[n] == 0
    ensures Trie(S, n + 1, look, tree, paths)
  {
    hide Codeword, ToBits, LookEntry, TreeEntry, SlotPath, Nodes, Refers, Fits;
    TrieNodes(S, paths);
    forall y | 0 <= y < LOOKUP_SIZE ensures LookEntry(S, n + 1, look[y], ToBits(y, LOOKUP_BITS), paths) {
      LookMore(S, n, look[y], ToBits(y, LOOKUP_BITS), paths);
    }
    forall k | 0 <= k < 2 * |paths| ensures TreeEntry(S, n + 1, tree[k], SlotPath(paths, k), paths) {
      TreeMore(S, n, tree[k], SlotPath(paths, k), paths);
    }
  }

  lemma EmptyTrie(S: seq<nat>, look: seq<int>, tree: seq<int>)
    requires |look| == LOOKUP_SIZE && |tree| == TREE_SIZE && |S| <= MAX_SYMBOLS
    requires (forall x :: 0 <= x < LOOKUP_SIZE ==> look[x] == 0) && (forall i :: 0 <= i < TREE_SIZE ==> tree[i] == 0)
    ensures Trie(S, 0, look, tree, [])
  {
    hide Codeword, ToBits;
  }

  // ---------- building the tables ----------

  /** tinfl_huff_table. */
  class Table {
    const codeSize: array<nat>
    const lookUp: array<int>
    const tree: array<int>

    predicate Shaped()
    {
      codeSize.Length == MAX_SYMBOLS && lookUp.Length == LOOKUP_SIZE && tree.Length == TREE_SIZE
      && lookUp != tree && codeSize as object != lookUp && codeSize as object != tree
    }

    constructor ()
      ensures Shaped() && fresh(codeSize) && fresh(lookUp) && fresh(tree)
    {
      codeSize := new nat[MAX_SYMBOLS](i => 0);
      lookUp := new int[LOOKUP_SIZE](i => 0);
      tree := new int[TREE_SIZE](i => 0);
    }

    /** The table for the code that the first n lengths make. */
    ghost predicate Holds(S: seq<nat>, n: nat, paths: seq<seq<bool>>)
      reads lookUp, tree
    {
      Shaped() && Trie(S, n, lookUp[..], tree[..], paths)
    }

    /** `while (rev_code < TINFL_FAST_LOOKUP_SIZE) { m_look_up[rev_code] = k; rev_code += 1 << code_size; }` */
    method FillShort(rev0: nat, size: nat, k: int)
      requires Shaped() && rev0 < Pow2(size)
      modifies lookUp
      ensures forall x :: 0 <= x < LOOKUP_SIZE ==> lookUp[x] == if Mask(x, size) == rev0 then k else old(lookUp[x])
    {
      hide Mask;
      var p := Pow2(size);
      var rev := rev0;
      SmallMask(rev0, size);
      while rev < LOOKUP_SIZE
        invariant rev0 <= rev && Mask(rev, size) == rev0
        invariant forall x :: 0 <= x < LOOKUP_SIZE ==> lookUp[x] == if x < rev && Mask(x, size) == rev0 then k else old(lookUp[x])
      {
        NextSame(rev, size);
        lookUp[rev] := k;
        rev := rev + p;
      }
    }

    method InsertShort(rev: nat, ghost S: seq<nat>, n: nat, size: nat, ghost paths: seq<seq<bool>>)
      requires Holds(S, n, paths) && Short(S, n + 1, n) && size == S[n] && rev < Pow2(size) && ToBits(rev, size) == Codeword(S, n)
      modifies lookUp
      ensures Holds(S, n + 1, paths)
    {
      hide Codeword, ToBits, Trie, Mask;
      ghost var look := lookUp[..];
      FillShort(rev, size, size * 512 + n);
      forall x | 0 <= x < LOOKUP_SIZE ensures Mask(x, size) == rev <==> Codeword(S, n) <= ToBits(x, LOOKUP_BITS) {
        StartsWith(x, rev, size);
      }
      ShortGrows(S, n, look, lookUp[..], tree[..], paths);
    }

    /** The node at a slot, made if there is none. */
    method Child(slot: nat, treeNext0: int, ghost S: seq<nat>, ghost n: nat, ghost paths0: seq<seq<bool>>)
      returns (treeCur: int, treeNext: int, ghost paths: seq<seq<bool>>)
      requires Holds(S, n, paths0) && Inflate.Accepted(S) && Long(S, n + 1, n) && slot < 2 * |paths0| && treeNext0 == NodeEntry(|paths0|)
      requires SlotPath(paths0, slot) < Codeword(S, n)
      modifies tree
      ensures Holds(S, n, paths) && treeNext == NodeEntry(|paths|) && Refers(paths, treeCur, SlotPath(paths0, slot))
    {
      hide Codeword, Trie, SlotPath, Inflate.Accepted, Refers;
      AnySizes(S, n, lookUp[..], tree[..], paths0);
      ghost var p := SlotPath(paths0, slot);
      paths, treeNext := paths0, treeNext0;
      if tree[slot] == 0 {
        TreeGrows(S, n, lookUp[..], tree[..], paths, slot, n);
        NewRefers(paths, p);
        tree[slot] := treeNext;
        treeCur := treeNext;
        treeNext := treeNext - 2;
        paths := paths + [p];
      } else {
        AcceptedFits(S);
        NotLeaf(S, n, lookUp[..], tree[..], paths, slot);
        treeCur := tree[slot];
      }
    }

    /** The same in the look-up table. */
    method Root(x: nat, treeNext0: int, ghost S: seq<nat>, ghost n: nat, ghost paths0: seq<seq<bool>>)
      returns (treeCur: int, treeNext: int, ghost paths: seq<seq<bool>>)
      requires Holds(S, n, paths0) && Inflate.Accepted(S) && Long(S, n + 1, n) && x < LOOKUP_SIZE && treeNext0 == NodeEntry(|paths0|)
      requires ToBits(x, LOOKUP_BITS) < Codeword(S, n)
      modifies lookUp
      ensures Holds(S, n, paths) && treeNext == NodeEntry(|paths|) && Refers(paths, treeCur, ToBits(x, LOOKUP_BITS))
    {
      hide Codeword, Trie, ToBits, Inflate.Accepted, Refers;
      ghost var p := ToBits(x, LOOKUP_BITS);
      paths, treeNext := paths0, treeNext0;
      if lookUp[x] == 0 {
        LookGrows(S, n, lookUp[..], tree[..], paths, x, n);
        NewRefers(paths, p);
        lookUp[x] := treeNext;
        treeCur := treeNext;
        treeNext := treeNext - 2;
        paths := paths + [p];
      } else {
        AcceptedFits(S);
        NotShort(S, n, lookUp[..], tree[..], paths, x);
        treeCur := lookUp[x];
      }
    }

    /** A long code: down the tree, with nodes made where they are missing, to its leaf
        (src/http/miniz.c:1524-1531). */
    method InsertLong(rev: nat, treeNext0: int, ghost S: seq<nat>, n: nat, size: nat, ghost paths0: seq<seq<bool>>)
      returns (treeNext: int, ghost paths: seq<seq<bool>>)
      requires Holds(S, n, paths0) && Inflate.Accepted(S) && Long(S, n + 1, n) && treeNext0 == NodeEntry(|paths0|)
      requires size == S[n] && ToBits(rev, size) == Codeword(S, n)
      modifies lookUp, tree
      ensures Holds(S, n + 1, paths) && treeNext == NodeEntry(|paths|)
    {
      hide Codeword, Trie, ToBits, Inflate.Accepted, Refers, SlotPath, Shr;
      ghost var c := Codeword(S, n);
      LowTenOf(rev, size);
      var treeCur;
      treeCur, treeNext, paths := Root(rev % LOOKUP_SIZE, treeNext0, S, n, paths0);
      var revCode := Shr(rev, LOOKUP_BITS - 1);
      ghost var k: nat := LOOKUP_BITS;
      var j := size;
      while j > LOOKUP_BITS + 1
        invariant LOOKUP_BITS <= k < size && k == LOOKUP_BITS + size - j && revCode == Shr(rev, k - 1)
        invariant Holds(S, n, paths) && treeNext == NodeEntry(|paths|) && Refers(paths, treeCur, c[..k])
      {
        ghost var node := RefersUnique(paths, treeCur, c[..k]);
        BitAt(rev, size, k);
        ShrNext(rev, k);
        revCode := revCode / 2;
        treeCur := treeCur - revCode % 2;
        SlotIs(paths, node, -treeCur - 1, c, k);
        treeCur, treeNext, paths := Child(-treeCur - 1, treeNext, S, n, paths);
        j, k := j - 1, k + 1;
      }
      ghost var node := RefersUnique(paths, treeCur, c[..k]);
      BitAt(rev, size, k);
      ShrNext(rev, k);
      revCode := revCode / 2;
      treeCur := treeCur - revCode % 2;
      SlotIs(paths, node, -treeCur - 1, c, k);
      assert c[..k + 1] == c;
      AnySizes(S, n, lookUp[..], tree[..], paths);
      AcceptedFits(S);
      LeafGrows(S, n, lookUp[..], tree[..], paths, -treeCur - 1);
      tree[-treeCur - 1] := n;
    }
  }

  lemma SmallMask(v: nat, n: nat)
    requires v < Pow2(n)
    ensures Mask(v, n) == v
    ensures forall x: nat :: x < v ==> Mask(x, n) != v
  {
    hide Pow2;
    ModSmall(v, Pow2(n));
    forall x: nat | x < v ensures Mask(x, n) != v { ModSmall(x, Pow2(n)); }
  }

  lemma ModSmall(v: nat, p: nat)
    requires v < p
    ensures v % p == v
  {
  }

  /** The next number with the same low bits. */
  lemma NextSame(v: nat, n: nat)
    ensures Mask(v + Pow2(n), n) == Mask(v, n)
    ensures forall x :: v < x < v + Pow2(n) ==> Mask(x, n) != Mask(v, n)
  {
    hide Pow2;
    ModNext(v, Pow2(n));
    forall x | v < x < v + Pow2(n) ensures Mask(x, n) != Mask(v, n) { ModBetween(v, x, Pow2(n)); }
  }

  lemma ModNext(v: nat, p: nat)
    requires p > 0
    ensures (v + p) % p == v % p
  {
    DivMod(v, p);
    NextMultiple(v / p, p);
    DivUnique(v + p, p, v / p + 1, v % p);
  }

  lemma NextMultiple(q: nat, p: nat)
    ensures (q + 1) * p == q * p + p
  {
  }

  lemma ModBetween(v: nat, x: nat, p: nat)
    requires v < x < v + p
    ensures x % p != v % p
  {
    DivMod(v, p);
    DivMod(x, p);
    Quotients(x / p, v / p, p);
  }

  lemma Quotients(a: nat, b: nat, p: nat)
    ensures a > b ==> a * p >= b * p + p
    ensures a <= b ==> a * p <= b * p
  {
    if a > b {
      MulMono(b + 1, a, p);
      NextMultiple(b, p);
    } else {
      MulMono(a, b, p);
    }
  }

  lemma StartsWith(x: nat, rev: nat, size: nat)
    requires size <= LOOKUP_BITS && rev < Pow2(size)
    ensures Mask(x, size) == rev <==> ToBits(rev, size) <= ToBits(x, LOOKUP_BITS)
  {
    hide ToBits;
    ToBitsSplit(x, size, LOOKUP_BITS - size);
    var a := ToBits(Mask(x, size), size);
    assert ToBits(x, LOOKUP_BITS)[..size] == a;
    if a == ToBits(rev, size) {
      ToBitsInjective(Mask(x, size), rev, size);
    }
  }

  lemma LowTenOf(v: nat, size: nat)
    requires size > LOOKUP_BITS
    ensures ToBits(v % LOOKUP_SIZE, LOOKUP_BITS) == ToBits(v, size)[..LOOKUP_BITS] && ToBits(v % LOOKUP_SIZE, LOOKUP_BITS) < ToBits(v, size)
  {
    hide ToBits;
    assert Pow2(10) == 1024;
    ToBitsSplit(v, 10, size - 10);
  }

  lemma ShrNext(v: nat, k: nat)
    requires k >= 1
    ensures Shr(v, k - 1) / 2 == Shr(v, k)
  {
    var p, q, r := Pow2(k - 1), Shr(v, k - 1), Mask(v, k - 1);
    assert v == q / 2 * (2 * p) + (q % 2 * p + r) by { HalfAlgebra(q, p); }
    DivUnique(v, 2 * p, q / 2, q % 2 * p + r);
  }

  lemma HalfAlgebra(q: nat, p: nat)
    ensures q * p == q / 2 * (2 * p) + q % 2 * p
  {
    assert q == 2 * (q / 2) + q % 2;
    var h, b := q / 2, q % 2;
    assert (2 * h + b) * p == h * (2 * p) + b * p;
  }

  lemma AnySizes(S: seq<nat>, n: nat, look: seq<int>, tree: seq<int>, paths: seq<seq<bool>>)
    requires Trie(S, n, look, tree, paths)
    ensures |look| == LOOKUP_SIZE && |tree| == TREE_SIZE && 2 * |paths| <= TREE_SIZE
  {
  }

  /** An entry on the way to the codeword of n is no other symbol's. */
  lemma NotLeaf(S: seq<nat>, n: nat, look: seq<int>, tree: seq<int>, paths: seq<seq<bool>>, i: nat)
    requires Trie(S, n, look, tree, paths) && Fits(S, 15) && i < 2 * |paths| <= TREE_SIZE && n < |S| && S[n] > 0
    requires SlotPath(paths, i) < Codeword(S, n) && tree[i] != 0
    ensures Refers(paths, tree[i], SlotPath(paths, i))
  {
    hide Codeword, SlotPath, Refers, LookEntry, Nodes;
    assert TreeEntry(S, n, tree[i], SlotPath(paths, i), paths);
    if tree[i] > 0 {
      NoPrefix(S, tree[i], n);
      assert false;
    }
  }

  lemma NotShort(S: seq<nat>, n: nat, look: seq<int>, tree: seq<int>, paths: seq<seq<bool>>, x: nat)
    requires Trie(S, n, look, tree, paths) && Fits(S, 15) && x < LOOKUP_SIZE && n < |S| && S[n] > 0
    requires ToBits(x, LOOKUP_BITS) < Codeword(S, n) && look[x] != 0
    ensures Refers(paths, look[x], ToBits(x, LOOKUP_BITS))
  {
    hide Codeword, ToBits, Refers, TreeEntry, Nodes;
    assert LookEntry(S, n, look[x], ToBits(x, LOOKUP_BITS), paths);
    if look[x] > 0 {
      NoPrefix(S, look[x] % 512, n);
      assert false;
    }
  }

  // ---------- the whole table ----------

  /** Used symbols, counted by length. */
  function UsedUpTo(S: seq<nat>, k: nat): nat
  {
    if k == 0 then 0 else UsedUpTo(S, k - 1) + CountLen(S, k)
  }

  lemma {:induction false} UsedUpToSnoc(S: seq<nat>, k: nat)
    requires S != []
    ensures UsedUpTo(S, k) == UsedUpTo(S[..|S| - 1], k) + (if 1 <= S[|S| - 1] <= k then 1 else 0)
  {
    if k > 0 {
      UsedUpToSnoc(S, k - 1);
    }
  }

  lemma {:induction false} UsedUpToNone(k: nat)
    ensures UsedUpTo([], k) == 0
  {
    if k > 0 {
      UsedUpToNone(k - 1);
    }
  }

  lemma {:induction false} UsedIsUsed(S: seq<nat>)
    requires forall i :: 0 <= i < |S| ==> S[i] <= 15
    ensures UsedUpTo(S, 15) == Inflate.UsedSyms(S)
  {
    hide UsedUpTo;
    if S == [] {
      UsedUpToNone(15);
    } else {
      UsedUpToSnoc(S, 15);
      UsedIsUsed(S[..|S| - 1]);
    }
  }

  method CountSyms(sizes: array<nat>, n: nat) returns (totalSyms: array<nat>)
    requires n <= sizes.Length && forall i :: 0 <= i < n ==> sizes[i] <= 15
    ensures fresh(totalSyms) && totalSyms.Length == 16 && forall l :: 0 <= l < 16 ==> totalSyms[l] == CountLen(sizes[..n], l)
  {
    hide CountLen;
    totalSyms := new nat[16](i => 0);
    forall l | 0 <= l < 16 ensures CountLen(sizes[..0], l) == 0 { LengthCounting.CountLenNone(sizes[..0], l); }
    var i := 0;
    while i < n
      invariant 0 <= i <= n && totalSyms.Length == 16 && forall l :: 0 <= l < 16 ==> totalSyms[l] == CountLen(sizes[..i], l)
    {
      HuffTable.NextSymbol(sizes[..n], i, sizes[i]);
      assert sizes[..n][..i + 1] == sizes[..i + 1] && sizes[..n][..i] == sizes[..i];
      totalSyms[sizes[i]] := totalSyms[sizes[i]] + 1;
      i := i + 1;
    }
  }

  /** `next_code`, `used_syms` and `total` (src/http/miniz.c:1513-1514). */
  method FirstCodes(totalSyms: array<nat>, ghost S: seq<nat>) returns (nextCode: array<nat>, used: nat, total: nat)
    requires totalSyms.Length == 16 && forall l :: 0 <= l < 16 ==> totalSyms[l] == CountLen(S, l)
    ensures fresh(nextCode) && HuffTable.NextCodes(nextCode[..], S, 0, 15)
    ensures used == UsedUpTo(S, 15) && total == NextCode(S, 16)
  {
    hide *;
    nextCode := new nat[17](i => 0);
    var i: nat := 1;
    used, total := 0, 0;
    NoCodeYet(S);
    while i <= 15
      invariant 1 <= i <= 16 && nextCode.Length == 17 && total == NextCode(S, i) && used == UsedUpTo(S, i - 1)
      invariant forall l :: 1 <= l <= i ==> nextCode[l] == NextCode(S, l)
    {
      CodeStep(S, i, total, used, totalSyms[i]);
      used := used + totalSyms[i];
      total := (total + totalSyms[i]) * 2;
      nextCode[i + 1] := total;
      i := i + 1;
    }
    HuffTable.NextCodesStart(nextCode[..], S, 15);
  }

  lemma NoCodeYet(S: seq<nat>)
    ensures NextCode(S, 1) == 0 && UsedUpTo(S, 0) == 0
  {
  }

  lemma CodeStep(S: seq<nat>, k: nat, total: nat, used: nat, count: nat)
    requires k >= 1 && total == NextCode(S, k) && used == UsedUpTo(S, k - 1) && count == CountLen(S, k)
    ensures used + count == UsedUpTo(S, k) && (total + count) * 2 == NextCode(S, k + 1)
  {
  }

  lemma AcceptedIs(S: seq<nat>, used: nat, total: nat)
    requires (forall i :: 0 <= i < |S| ==> S[i] <= 15) && used == UsedUpTo(S, 15) && total == NextCode(S, 16)
    ensures !(65536 != total && used > 1) <==> Inflate.Accepted(S)
  {
    hide UsedUpTo, NextCode;
    UsedIsUsed(S);
    assert Pow2(16) == 65536 by { Pow2Values(); }
  }

  /** The table build of tinfl_decompress: it takes exactly the complete codes and those of at most one
      symbol, and then the tables hold the code. */
  method Build(t: Table, n: nat) returns (ok: bool, ghost paths: seq<seq<bool>>)
    requires t.Shaped() && n <= MAX_SYMBOLS && forall i :: 0 <= i < n ==> t.codeSize[i] <= 15
    modifies t.lookUp, t.tree
    ensures ok == Inflate.Accepted(t.codeSize[..n])
    ensures ok ==> t.Holds(t.codeSize[..n], n, paths)
  {
    hide NextCode, CountLen, Trie, UsedUpTo, Inflate.Accepted, HuffTable.NextCodes;
    ghost var S := t.codeSize[..n];
    paths := [];
    forall x | 0 <= x < LOOKUP_SIZE { t.lookUp[x] := 0; }
    forall i | 0 <= i < TREE_SIZE { t.tree[i] := 0; }
    assert S == t.codeSize[..n];
    EmptyTrie(S, t.lookUp[..], t.tree[..]);
    var totalSyms := CountSyms(t.codeSize, n);
    var nextCode, used, total := FirstCodes(totalSyms, S);
    AcceptedIs(S, used, total);
    if 65536 != total && used > 1 { return false, paths; }
    var treeNext, symIndex := -1, 0;
    while symIndex < n
      invariant 0 <= symIndex <= n && S == t.codeSize[..n] && t.Holds(S, symIndex, paths) && treeNext == NodeEntry(|paths|)
      invariant HuffTable.NextCodes(nextCode[..], S, symIndex, 15)
    {
      treeNext, paths := Insert(t, nextCode, treeNext, S, symIndex, paths);
      symIndex := symIndex + 1;
    }
    ok := true;
  }

  /** One symbol. */
  method Insert(t: Table, nextCode: array<nat>, treeNext0: int, ghost S: seq<nat>, n: nat, ghost paths0: seq<seq<bool>>)
    returns (treeNext: int, ghost paths: seq<seq<bool>>)
    requires t.Holds(S, n, paths0) && n < |S| <= MAX_SYMBOLS && S == t.codeSize[..|S|] && Inflate.Accepted(S) && treeNext0 == NodeEntry(|paths0|)
    requires HuffTable.NextCodes(nextCode[..], S, n, 15) && nextCode != t.codeSize && nextCode as object != t.lookUp && nextCode as object != t.tree
    modifies t.lookUp, t.tree, nextCode
    ensures t.Holds(S, n + 1, paths) && treeNext == NodeEntry(|paths|) && HuffTable.NextCodes(nextCode[..], S, n + 1, 15)
  {
    hide Trie, Inflate.Accepted, HuffTable.NextCodes, Codeword, Fits, Code, Reverse, ToBits, Pow2, NextCode, CountLen;
    treeNext, paths := treeNext0, paths0;
    var codeSize := t.codeSize[n];
    AcceptedFits(S);
    NextCodesGrow(nextCode[..], S, n);
    if codeSize == 0 {
      UnusedGrows(S, n, t.lookUp[..], t.tree[..], paths);
      return;
    }
    var curCode := nextCode[codeSize];
    nextCode[codeSize] := curCode + 1;
    var revCode := HuffTable.ReverseCode(curCode, codeSize);
    RevIsCode(S, n, curCode);
    if codeSize <= LOOKUP_BITS {
      t.InsertShort(revCode, S, n, codeSize, paths);
    } else {
      treeNext, paths := t.InsertLong(revCode, treeNext, S, n, codeSize, paths);
    }
  }

  lemma NextCodesGrow(next: seq<nat>, S: seq<nat>, n: nat)
    requires HuffTable.NextCodes(next, S, n, 15) && n < |S| && Fits(S, 15)
    ensures S[n] < |next| && S[n] <= 15
    ensures S[n] == 0 ==> HuffTable.NextCodes(next, S, n + 1, 15)
    ensures S[n] > 0 ==> next[S[n]] == Code(S, n) && HuffTable.NextCodes(next[S[n] := next[S[n]] + 1], S, n + 1, 15)
  {
    hide NextCode, CountLen;
    HuffTable.NextSymbol(S, n, S[n]);
  }

  lemma RevIsCode(S: seq<nat>, n: nat, code: nat)
    requires n < |S| && code == Code(S, n)
    ensures ToBits(Reverse(code, S[n]), S[n]) == Codeword(S, n)
  {
    ReverseBits(code, S[n]);
  }

  /** What the tables are for: on a table that holds a complete code, the look-up of any fifteen bits gives
      the symbol that the reference decoder reads there, and its length; no other codeword is there. */
  method LookUpDecodes(t: Table, bitBuf: nat, ghost S: seq<nat>, ghost paths: seq<seq<bool>>, ghost bits: seq<bool>, ghost pos: nat)
    returns (sym: nat, codeLen: nat)
    requires t.Holds(S, |S|, paths) && Complete(S, 15) && pos + 15 <= |bits| && bits[pos..pos + 15] == ToBits(bitBuf, 15)
    ensures DecodeSym(S, bits, pos) == Some(sym) && codeLen == S[sym]
    ensures forall s :: 0 <= s < |S| && S[s] > 0 ==> (At(bits, pos, Codeword(S, s)) <==> s == sym)
  {
    hide Codeword, ToBits, Trie, NextCode, DecodeSym;
    ghost var w := ToBits(bitBuf, 15);
    ghost var s := CompleteCovers(S, w);
    assert bits[pos..pos + S[s]] == w[..S[s]];
    sym, codeLen := LookUp(t.lookUp, t.tree, bitBuf, S, paths, s);
    DecodeCodeword(S, 15, s, bits, pos);
    forall x | 0 <= x < |S| && S[x] > 0 && At(bits, pos, Codeword(S, x)) ensures x == s { PrefixFree(S, 15, x, s, bits, pos); }
  }
}
