/** The heap sort of the directory's entry indices by file name
    (mz_zip_reader_sort_central_dir_offsets_by_filename, src/http/miniz.c:3127-3166). */
module ZipSort {
  import opened Bits
  import opened ZipNames

  // ---------- the order of entries ----------

  /** Entry i does not come after entry j. */
  ghost predicate Le(names: seq<Name>, i: nat, j: nat)
  {
    i < |names| && j < |names| && !Before(names[j], names[i])
  }

  lemma LeTransitive(names: seq<Name>, i: nat, j: nat, k: nat)
    requires Le(names, i, j) && Le(names, j, k)
    ensures Le(names, i, k)
  {
    hide Before, SameName;
    var a, b, c := names[i], names[j], names[k];
    if Before(c, a) {
      AgreeNone(a, b);
      BeforeTotal(a, b, 0);
      if SameName(a, b) { BeforeSame(a, b, c); } else { BeforeTransitive(c, a, b); }
    }
  }

  lemma AgreeNone(a: Name, b: Name)
    ensures Agree(a, b, 0)
  {
  }

  lemma LessIsLe(names: seq<Name>, i: nat, j: nat)
    requires i < |names| && j < |names| && Before(names[i], names[j])
    ensures Le(names, i, j)
  {
    hide Before;
    BeforeAsymmetric(names[i], names[j]);
  }

  // ---------- heaps, on sequences ----------

  function Up(c: nat): (p: nat)
    requires c >= 1
    ensures p < c
  {
    (c - 1) / 2
  }

  /** All indices are entries. */
  predicate Entries(names: seq<Name>, s: seq<nat>)
  {
    forall i :: 0 <= i < |s| ==> s[i] < |names|
  }

  ghost predicate Child(names: seq<Name>, s: seq<nat>, c: nat)
  {
    1 <= c < |s| && Le(names, s[c], s[Up(c)])
  }

  /** From lo on, below hi, no child comes after its parent. */
  ghost predicate Heap(names: seq<Name>, s: seq<nat>, lo: nat, hi: nat)
  {
    forall c :: 1 <= c < hi && Up(c) >= lo ==> Child(names, s, c)
  }

  /** A heap but for the children of root, which may come after it, though not after root's parent. */
  ghost predicate HeapBut(names: seq<Name>, s: seq<nat>, lo: nat, hi: nat, root: nat)
  {
    && (forall c :: 1 <= c < hi && Up(c) >= lo && Up(c) != root ==> Child(names, s, c))
    && (forall c :: 1 <= c < hi && Up(c) == root && root >= 1 && Up(root) >= lo ==> Grandchild(names, s, c, root))
  }

  ghost predicate Grandchild(names: seq<Name>, s: seq<nat>, c: nat, root: nat)
  {
    c < |s| && 1 <= root < |s| && Le(names, s[c], s[Up(root)])
  }

  function Swap(s: seq<nat>, i: nat, j: nat): (t: seq<nat>)
    requires i < |s| && j < |s|
    ensures |t| == |s| && t[i] == s[j] && t[j] == s[i] && forall k :: 0 <= k < |s| && k != i && k != j ==> t[k] == s[k]
  {
    s[i := s[j]][j := s[i]]
  }

  /** The same elements below hi, and the same ones after it, where they were. */
  ghost predicate Shuffled(s: seq<nat>, t: seq<nat>, hi: nat)
  {
    hi <= |s| == |t| && multiset(s[..hi]) == multiset(t[..hi]) && s[hi..] == t[hi..]
  }

  lemma SwapShuffles(s: seq<nat>, t: seq<nat>, hi: nat, i: nat, j: nat)
    requires Shuffled(s, t, hi) && i < hi && j < hi
    ensures Shuffled(s, Swap(t, i, j), hi)
  {
    var u := Swap(t, i, j);
    assert u[..hi] == t[..hi][i := t[j]][j := t[i]];
    assert u[hi..] == t[hi..];
    SwapMultiset(t[..hi], i, j);
  }

  lemma SwapMultiset(s: seq<nat>, i: nat, j: nat)
    requires i < |s| && j < |s|
    ensures multiset(s[i := s[j]][j := s[i]]) == multiset(s)
  {
  }

  /** One level down: the larger child goes up. */
  lemma SiftStep(names: seq<Name>, s: seq<nat>, lo: nat, hi: nat, root: nat, child: nat)
    requires HeapBut(names, s, lo, hi, root) && Entries(names, s) && lo <= root < hi <= |s| && 1 <= child < hi && Up(child) == root
    requires Le(names, s[root], s[child])
    requires forall c :: 1 <= c < hi && Up(c) == root ==> Le(names, s[c], s[child])
    ensures HeapBut(names, Swap(s, root, child), lo, hi, child) && Entries(names, Swap(s, root, child))
  {
    hide Le, Up;
    var t := Swap(s, root, child);
    UpBelow(child);
    forall c | 1 <= c < hi && Up(c) >= lo && Up(c) != child ensures Child(names, t, c) {
      UpBelow(c);
      if Up(c) == root {
      } else if c == root {
        assert Grandchild(names, s, child, root);
      } else {
        assert Child(names, s, c);
      }
    }
    forall c | 1 <= c < hi && Up(c) == child ensures Grandchild(names, t, c, child) {
      UpBelow(c);
      assert Child(names, s, c);
    }
  }

  lemma UpBelow(c: nat)
    requires c >= 1
    ensures Up(c) < c
  {
  }

  /** The end of a sift: root has no child that comes after it. */
  lemma SiftDone(names: seq<Name>, s: seq<nat>, lo: nat, hi: nat, root: nat)
    requires HeapBut(names, s, lo, hi, root) && hi <= |s|
    requires forall c :: 1 <= c < hi && Up(c) == root ==> Child(names, s, c)
    ensures Heap(names, s, lo, hi)
  {
  }

  lemma ChildrenOf(c: nat, root: nat)
    requires c >= 1
    ensures Up(c) == root <==> c == 2 * root + 1 || c == 2 * root + 2
  {
  }

  /** One more root, whose children are heaps. */
  lemma HeapGrows(names: seq<Name>, s: seq<nat>, root: nat, hi: nat)
    requires Heap(names, s, root + 1, hi)
    ensures HeapBut(names, s, root, hi, root)
  {
  }

  /** The root of a heap comes after nothing in it. */
  lemma {:induction false} RootIsLast(names: seq<Name>, s: seq<nat>, hi: nat, i: nat)
    requires Heap(names, s, 0, hi) && Entries(names, s) && i < hi <= |s|
    ensures Le(names, s[i], s[0])
  {
    hide Le;
    if i == 0 {
      LeReflexive(names, s[0]);
    } else {
      assert Child(names, s, i);
      RootIsLast(names, s, hi, Up(i));
      LeTransitive(names, s[i], s[Up(i)], s[0]);
    }
  }

  lemma LeReflexive(names: seq<Name>, i: nat)
    requires i < |names|
    ensures Le(names, i, i)
  {
    BeforeIrreflexive(names[i]);
  }

  // ---------- the sort ----------

  /** What the comparisons look at. */
  ghost predicate Directory(dir: seq<Byte>, offsets: seq<nat>, names: seq<Name>)
  {
    |names| == |offsets| && forall i :: 0 <= i < |offsets| ==> EntryName(dir, offsets, names, i)
  }

  ghost predicate EntryName(dir: seq<Byte>, offsets: seq<nat>, names: seq<Name>, i: nat)
    requires |names| == |offsets|
  {
    i < |offsets| && HasName(dir, offsets[i]) && NameAt(dir, offsets[i]) == names[i]
  }

  method Less(dir: seq<Byte>, offsets: seq<nat>, ghost names: seq<Name>, l: nat, r: nat) returns (less: bool)
    requires Directory(dir, offsets, names) && l < |offsets| && r < |offsets|
    ensures less == Before(names[l], names[r])
    ensures if less then Le(names, l, r) else Le(names, r, l)
  {
    hide Before;
    assert EntryName(dir, offsets, names, l) && EntryName(dir, offsets, names, r);
    less := FilenameLess(dir, offsets, l, r);
    if less { LessIsLe(names, l, r); }
  }

  /** The inner loops: root goes down to where it belongs in the heap below hi. */
  method SiftDown(dir: seq<Byte>, offsets: seq<nat>, indices: array<nat>, root0: nat, hi: nat, ghost names: seq<Name>)
    requires Directory(dir, offsets, names) && Entries(names, indices[..]) && root0 < hi <= indices.Length
    requires HeapBut(names, indices[..], root0, hi, root0)
    modifies indices
    ensures Entries(names, indices[..]) && Heap(names, indices[..], root0, hi) && Shuffled(old(indices[..]), indices[..], hi)
  {
    hide Le, Up, HeapBut, Shuffled, Heap;
    var root := root0;
    ghost var s0 := indices[..];
    SelfShuffled(s0, hi);
    while true
      invariant root0 <= root < hi && Entries(names, indices[..]) && HeapBut(names, indices[..], root0, hi, root) && Shuffled(s0, indices[..], hi)
      decreases hi - root
    {
      var child := 2 * root + 1;
      if child >= hi {
        NoChildren(names, indices[..], root0, hi, root);
        return;
      }
      if child + 1 < hi {
        var less := Less(dir, offsets, names, indices[child], indices[child + 1]);
        child := child + (if less then 1 else 0);
      }
      BothChildren(names, indices[..], hi, root, child);
      var below := Less(dir, offsets, names, indices[root], indices[child]);
      if !below {
        ChildrenBelow(names, indices[..], root0, hi, root, child);
        return;
      }
      SiftStep(names, indices[..], root0, hi, root, child);
      SwapShuffles(s0, indices[..], hi, root, child);
      ghost var s := indices[..];
      indices[root], indices[child] := indices[child], indices[root];
      assert indices[..] == Swap(s, root, child);
      root := child;
    }
  }

  lemma SelfShuffled(s: seq<nat>, hi: nat)
    requires hi <= |s|
    ensures Shuffled(s, s, hi)
  {
  }

  lemma NoChildren(names: seq<Name>, s: seq<nat>, lo: nat, hi: nat, root: nat)
    requires HeapBut(names, s, lo, hi, root) && hi <= |s| && 2 * root + 1 >= hi
    ensures Heap(names, s, lo, hi)
  {
    forall c | 1 <= c < hi ensures Up(c) != root { ChildrenOf(c, root); }
    SiftDone(names, s, lo, hi, root);
  }

  /** The chosen child comes after its sibling, if there is one. */
  lemma BothChildren(names: seq<Name>, s: seq<nat>, hi: nat, root: nat, child: nat)
    requires hi <= |s| && Entries(names, s) && (child == 2 * root + 1 || child == 2 * root + 2) && child < hi
    requires child == 2 * root + 1 && child + 1 < hi ==> Le(names, s[child + 1], s[child])
    requires child == 2 * root + 2 ==> Le(names, s[child - 1], s[child])
    ensures Up(child) == root && forall c :: 1 <= c < hi && Up(c) == root ==> Le(names, s[c], s[child])
  {
    hide Le;
    ChildrenOf(child, root);
    LeReflexive(names, s[child]);
    forall c | 1 <= c < hi && Up(c) == root ensures Le(names, s[c], s[child]) { ChildrenOf(c, root); }
  }

  lemma ChildrenBelow(names: seq<Name>, s: seq<nat>, lo: nat, hi: nat, root: nat, child: nat)
    requires HeapBut(names, s, lo, hi, root) && hi <= |s| && Entries(names, s) && root < hi && child < hi
    requires Le(names, s[child], s[root]) && forall c :: 1 <= c < hi && Up(c) == root ==> Le(names, s[c], s[child])
    ensures Heap(names, s, lo, hi)
  {
    hide Le;
    forall c | 1 <= c < hi && Up(c) == root ensures Child(names, s, c) {
      LeTransitive(names, s[c], s[child], s[root]);
    }
    SiftDone(names, s, lo, hi, root);
  }

  /** From `from` on the entries are in order. */
  ghost predicate SortedFrom(names: seq<Name>, s: seq<nat>, from: nat)
  {
    forall i, j :: from <= i < j < |s| ==> Le(names, s[i], s[j])
  }

  /** Nothing before `at` comes after anything from there on. */
  ghost predicate Parted(names: seq<Name>, s: seq<nat>, at: nat)
  {
    forall i, j :: 0 <= i < at <= j < |s| ==> Le(names, s[i], s[j])
  }

  /** The index is a permutation of all entries, sorted by lower-case name. */
  ghost predicate SortedIndex(names: seq<Name>, s: seq<nat>)
  {
    |s| == |names| && Entries(names, s) && SortedFrom(names, s, 0) && forall i :: 0 <= i < |names| ==> i in s
  }

  lemma ShuffledParted(names: seq<Name>, s: seq<nat>, t: seq<nat>, hi: nat)
    requires Shuffled(s, t, hi) && Parted(names, s, hi) && SortedFrom(names, s, hi)
    ensures Parted(names, t, hi) && SortedFrom(names, t, hi)
  {
    hide Le;
    forall i, j | 0 <= i < hi <= j < |t| ensures Le(names, t[i], t[j]) {
      assert t[..hi][i] in multiset(t[..hi]);
      assert t[i] in s[..hi];
      assert s[hi..][j - hi] == t[hi..][j - hi];
    }
    forall i, j | hi <= i < j < |t| ensures Le(names, t[i], t[j]) {
      assert s[hi..][j - hi] == t[hi..][j - hi] && s[hi..][i - hi] == t[hi..][i - hi];
    }
  }

  /** The last entry of the heap goes to the end of the unsorted part. */
  lemma SwapMax(names: seq<Name>, s: seq<nat>, end: nat)
    requires Entries(names, s) && 0 < end < |s| && Heap(names, s, 0, end + 1) && Parted(names, s, end + 1) && SortedFrom(names, s, end + 1)
    ensures var t := Swap(s, end, 0);
            Entries(names, t) && HeapBut(names, t, 0, end, 0) && Parted(names, t, end) && SortedFrom(names, t, end)
  {
    hide Le, Up;
    var t := Swap(s, end, 0);
    forall i | 0 <= i <= end ensures Le(names, s[i], s[0]) { RootIsLast(names, s, end + 1, i); }
    forall c | 1 <= c < end && Up(c) != 0 ensures Child(names, t, c) {
      UpBelow(c);
      assert Child(names, s, c);
    }
    forall i, j | 0 <= i < end <= j < |t| ensures Le(names, t[i], t[j]) { }
  }

  /** All elements stay, wherever the shuffling was. */
  lemma ShuffledElements(s: seq<nat>, t: seq<nat>, hi: nat)
    requires Shuffled(s, t, hi)
    ensures multiset(s) == multiset(t)
  {
    assert s == s[..hi] + s[hi..] && t == t[..hi] + t[hi..];
  }

  lemma AllIn(n: nat, s: seq<nat>, t: seq<nat>)
    requires multiset(s) == multiset(t) && forall i :: 0 <= i < n ==> i in s
    ensures forall i :: 0 <= i < n ==> i in t
  {
    forall i | 0 <= i < n ensures i in t {
      assert i in s;
      assert i in multiset(s);
    }
  }

  /** The whole sort. */
  method SortByFilename(dir: seq<Byte>, offsets: seq<nat>, indices: array<nat>, ghost names: seq<Name>)
    requires Directory(dir, offsets, names) && indices.Length == |offsets| && forall i :: 0 <= i < indices.Length ==> indices[i] == i
    modifies indices
    ensures SortedIndex(names, indices[..]) && multiset(indices[..]) == multiset(old(indices[..]))
  {
    hide Le, Up, HeapBut, Shuffled, Heap, Directory;
    ghost var s0 := indices[..];
    var size := indices.Length;
    var start := if size >= 2 then (size - 2) / 2 else -1;
    NamesMatch(dir, offsets, names);
    assert forall i :: 0 <= i < size ==> s0[i] == i;
    NoHeap(names, s0, start + 1, size);
    while start >= 0
      invariant -1 <= start < size && Entries(names, indices[..]) && Heap(names, indices[..], start + 1, size) && multiset(indices[..]) == multiset(s0)
    {
      HeapGrows(names, indices[..], start, size);
      ghost var s := indices[..];
      SiftDown(dir, offsets, indices, start, size, names);
      ShuffledElements(s, indices[..], size);
      start := start - 1;
    }
    var end := size - 1;
    AllHeap(names, indices[..], size);
    while end > 0
      invariant -1 <= end < size && (size > 0 ==> end >= 0) && Entries(names, indices[..]) && multiset(indices[..]) == multiset(s0)
      invariant Heap(names, indices[..], 0, end + 1) && Parted(names, indices[..], end + 1) && SortedFrom(names, indices[..], end + 1)
    {
      SwapOut(dir, offsets, indices, end, names);
      end := end - 1;
    }
    LastOne(names, indices[..], end);
    forall i | 0 <= i < size ensures i in s0 { assert s0[i] == i; }
    AllIn(size, s0, indices[..]);
  }

  lemma NamesMatch(dir: seq<Byte>, offsets: seq<nat>, names: seq<Name>)
    requires Directory(dir, offsets, names)
    ensures |names| == |offsets|
  {
  }

  lemma NoHeap(names: seq<Name>, s: seq<nat>, lo: nat, size: nat)
    requires size == |s| && lo == (if size >= 2 then (size - 2) / 2 + 1 else 0)
    ensures Heap(names, s, lo, size)
  {
  }

  lemma AllHeap(names: seq<Name>, s: seq<nat>, size: nat)
    requires size == |s|
    ensures Parted(names, s, size) && SortedFrom(names, s, size)
  {
  }

  lemma LastOne(names: seq<Name>, s: seq<nat>, end: int)
    requires -1 <= end <= 0 && end < |s| && Parted(names, s, end + 1) && SortedFrom(names, s, end + 1)
    ensures SortedFrom(names, s, 0)
  {
    hide Le;
  }

  /** One round of the second loop (src/http/miniz.c:3151-3165). */
  method SwapOut(dir: seq<Byte>, offsets: seq<nat>, indices: array<nat>, end: nat, ghost names: seq<Name>)
    requires Directory(dir, offsets, names) && Entries(names, indices[..]) && 0 < end < indices.Length
    requires Heap(names, indices[..], 0, end + 1) && Parted(names, indices[..], end + 1) && SortedFrom(names, indices[..], end + 1)
    modifies indices
    ensures Entries(names, indices[..]) && Heap(names, indices[..], 0, end) && Parted(names, indices[..], end) && SortedFrom(names, indices[..], end)
    ensures multiset(indices[..]) == multiset(old(indices[..]))
  {
    hide Le, Up, HeapBut, Shuffled, Heap, Directory, Parted, SortedFrom;
    ghost var s := indices[..];
    SwapMax(names, s, end);
    SwapMultiset(s, end, 0);
    indices[end], indices[0] := indices[0], indices[end];
    ghost var t := indices[..];
    assert t == Swap(s, end, 0);
    SiftDown(dir, offsets, indices, 0, end, names);
    ShuffledParted(names, t, indices[..], end);
    ShuffledElements(t, indices[..], end);
  }
}
