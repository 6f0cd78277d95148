/** A complete canonical code leaves no bit string undecoded, and its code tree has fewer inner nodes
    than symbols. This is what the table test at src/http/miniz.c:1515 is for. */
module Covering {
  import opened Bits
  import opened CanonicalCode
  import Inflate

  // ---------- every window starts with a codeword ----------

  /** The number that the first l bits spell, most significant first. */
  function MsbValue(w: seq<bool>, l: nat): (v: nat)
    requires l <= |w|
    ensures v < Pow2(l) && MsbBits(v, l) == w[..l]
  {
    if l == 0 then 0 else
    var v := MsbValue(w, l - 1);
    assert w[..l] == w[..l - 1] + [w[l - 1]];
    2 * v + (if w[l - 1] then 1 else 0)
  }

  /** The rank-th symbol of length l. */
  lemma {:induction false} SymbolOfRank(lens: seq<nat>, l: nat, rank: nat) returns (s: nat)
    requires rank < CountLen(lens, l)
    ensures s < |lens| && lens[s] == l && CountLen(lens[..s], l) == rank
  {
    var init := lens[..|lens| - 1];
    if rank < CountLen(init, l) {
      s := SymbolOfRank(init, l, rank);
      assert init[..s] == lens[..s];
    } else {
      s := |lens| - 1;
    }
  }

  lemma LastLevel(lens: seq<nat>)
    requires Complete(lens, 15)
    ensures NextCode(lens, 15) + CountLen(lens, 15) == Pow2(15)
  {
    hide CountLen;
    assert NextCode(lens, 16) == 2 * (NextCode(lens, 15) + CountLen(lens, 15));
  }

  /** Going down the lengths: the codeword is found at the first length where the value is below the
      end of that length's codes. */
  lemma {:induction false} CoveringFrom(lens: seq<nat>, w: seq<bool>, l: nat) returns (s: nat)
    requires 1 <= l <= 15 <= |w| && Complete(lens, 15) && MsbValue(w, l) >= NextCode(lens, l)
    ensures s < |lens| && lens[s] > 0 && Codeword(lens, s) <= w
    decreases 15 - l
  {
    hide CountLen;
    LastLevel(lens);
    var v := MsbValue(w, l);
    if v < NextCode(lens, l) + CountLen(lens, l) {
      s := SymbolOfRank(lens, l, v - NextCode(lens, l));
      assert Code(lens, s) == v;
    } else {
      assert MsbValue(w, l + 1) >= 2 * v;
      assert NextCode(lens, l + 1) == 2 * (NextCode(lens, l) + CountLen(lens, l));
      s := CoveringFrom(lens, w, l + 1);
    }
  }

  /** With a complete code, any 15 bits start with exactly one codeword. */
  lemma CompleteCovers(lens: seq<nat>, w: seq<bool>) returns (s: nat)
    requires Complete(lens, 15) && |w| >= 15
    ensures s < |lens| && lens[s] > 0 && Codeword(lens, s) <= w
    ensures forall t :: 0 <= t < |lens| && lens[t] > 0 && Codeword(lens, t) <= w ==> t == s
  {
    hide CountLen, Codeword;
    s := CoveringFrom(lens, w, 1);
    assert Fits(lens, 15);
    forall t | 0 <= t < |lens| && lens[t] > 0 && Codeword(lens, t) <= w ensures t == s {
      PrefixAt(w, Codeword(lens, t));
      PrefixAt(w, Codeword(lens, s));
      PrefixFree(lens, 15, t, s, w, 0);
    }
  }

  lemma PrefixAt(w: seq<bool>, c: seq<bool>)
    requires c <= w
    ensures At(w, 0, c)
  {
  }

  /** One codeword does not start another. */
  lemma NoPrefix(lens: seq<nat>, s: nat, t: nat)
    requires Fits(lens, 15) && s < |lens| && t < |lens| && lens[s] > 0 && lens[t] > 0 && Codeword(lens, s) <= Codeword(lens, t)
    ensures s == t
  {
    hide Codeword;
    var w := Codeword(lens, t);
    PrefixAt(w, Codeword(lens, s));
    PrefixAt(w, w);
    PrefixFree(lens, 15, s, t, w, 0);
  }

  // ---------- a single symbol ----------

  lemma {:induction false} OneSymbol(lens: seq<nat>, s: nat, t: nat)
    requires Inflate.UsedSyms(lens) <= 1 && s < |lens| && t < |lens| && lens[s] > 0 && lens[t] > 0
    ensures s == t
  {
    if s != t {
      UsedTwo(lens, s, t);
    }
  }

  lemma {:induction false} UsedOne(lens: seq<nat>, s: nat)
    requires s < |lens| && lens[s] > 0
    ensures Inflate.UsedSyms(lens) >= 1
  {
    if s < |lens| - 1 {
      UsedOne(lens[..|lens| - 1], s);
    }
  }

  lemma {:induction false} UsedTwo(lens: seq<nat>, s: nat, t: nat)
    requires s < |lens| && t < |lens| && s != t && lens[s] > 0 && lens[t] > 0
    ensures Inflate.UsedSyms(lens) >= 2
  {
    var init := lens[..|lens| - 1];
    if s == |lens| - 1 { UsedOne(init, t); }
    else if t == |lens| - 1 { UsedOne(init, s); }
    else { UsedTwo(init, s, t); }
  }

  lemma {:induction false} CountUsed(lens: seq<nat>, l: nat)
    requires l > 0
    ensures CountLen(lens, l) <= Inflate.UsedSyms(lens)
  {
    if lens != [] {
      CountUsed(lens[..|lens| - 1], l);
    }
  }

  lemma {:induction false} CountUsed2(lens: seq<nat>, l: nat, k: nat)
    requires l > 0 && k > 0 && l != k
    ensures CountLen(lens, l) + CountLen(lens, k) <= Inflate.UsedSyms(lens)
  {
    if lens != [] {
      CountUsed2(lens[..|lens| - 1], l, k);
    }
  }

  /** A code of one symbol leaves room, too. */
  lemma {:induction false} FewNextCode(lens: seq<nat>, l: nat)
    requires Inflate.UsedSyms(lens) <= 1 && l >= 1
    ensures NextCode(lens, l) <= Pow2(l) && (NextCode(lens, l) > 0 ==> exists k :: 1 <= k < l && CountLen(lens, k) == 1)
    ensures NextCode(lens, l) <= Pow2(l - 1)
  {
    hide CountLen;
    if l > 1 {
      FewNextCode(lens, l - 1);
      CountUsed(lens, l - 1);
      if NextCode(lens, l - 1) > 0 {
        var k :| 1 <= k < l - 1 && CountLen(lens, k) == 1;
        CountUsed2(lens, l - 1, k);
      } else if CountLen(lens, l - 1) == 1 {
        assert NextCode(lens, l) == 2;
      }
    }
  }

  lemma AcceptedFits(lens: seq<nat>)
    requires Inflate.Accepted(lens)
    ensures Fits(lens, 15)
  {
    if Inflate.UsedSyms(lens) <= 1 {
      FewNextCode(lens, 16);
    }
  }

  // ---------- inner nodes of the code tree ----------

  /** A proper prefix of a codeword. */
  ghost predicate Inner(lens: seq<nat>, p: seq<bool>)
  {
    exists s :: Under(lens, p, s)
  }

  predicate Under(lens: seq<nat>, p: seq<bool>, s: nat)
  {
    s < |lens| && lens[s] > 0 && p < Codeword(lens, s)
  }

  function Zeros(n: nat): (z: seq<bool>)
    ensures |z| == n
  {
    seq(n, i => false)
  }

  /** The leaf that one step to the right and then all steps to the left lead to. */
  ghost predicate RightLeft(lens: seq<nat>, p: seq<bool>, s: nat)
  {
    s < |lens| && lens[s] > |p| && Codeword(lens, s) == p + [true] + Zeros(lens[s] - |p| - 1)
  }

  lemma InnerLeaf(lens: seq<nat>, p: seq<bool>) returns (s: nat)
    requires Complete(lens, 15) && Inner(lens, p)
    ensures RightLeft(lens, p, s)
  {
    hide Codeword, NextCode, CountLen;
    var t :| Under(lens, p, t);
    var w := p + [true] + Zeros(15);
    s := CompleteCovers(lens, w);
    var c := Codeword(lens, s);
    if |c| <= |p| {
      assert c == w[..|c|] == p[..|c|];
      assert Codeword(lens, t)[..|c|] == c;
      NoPrefix(lens, s, t);
      assert false;
    }
    assert c == w[..|c|];
    assert c == p + [true] + Zeros(15)[..|c| - |p| - 1];
    assert Zeros(15)[..|c| - |p| - 1] == Zeros(|c| - |p| - 1);
  }

  /** Different inner nodes lead to different leaves. */
  lemma RightLeftInjective(lens: seq<nat>, p: seq<bool>, q: seq<bool>, s: nat)
    requires RightLeft(lens, p, s) && RightLeft(lens, q, s)
    ensures p == q
  {
    hide Codeword;
    RightLeftBits(lens, p, s);
    RightLeftBits(lens, q, s);
  }

  lemma RightLeftBits(lens: seq<nat>, p: seq<bool>, s: nat)
    requires RightLeft(lens, p, s)
    ensures var c := Codeword(lens, s); |p| < |c| && p == c[..|p|] && c[|p|] && forall k :: |p| < k < |c| ==> !c[k]
  {
    hide Codeword;
    var c, z := Codeword(lens, s), Zeros(lens[s] - |p| - 1);
    forall k | |p| < k < |c| ensures !c[k] {
      assert c[k] == z[k - |p| - 1];
    }
  }

  predicate Distinct<T(==)>(s: seq<T>)
  {
    forall i, j :: 0 <= i < j < |s| ==> s[i] != s[j]
  }

  lemma {:induction false} DistinctBelow(s: seq<nat>, n: nat)
    requires Distinct(s) && forall i :: 0 <= i < |s| ==> s[i] < n
    ensures |s| <= n
    decreases n
  {
    if s != [] {
      assert s[0] < n;
      if k :| 0 <= k < |s| && s[k] == n - 1 {
        var t := s[..k] + s[k + 1..];
        DistinctBelow(t, n - 1);
      } else {
        DistinctBelow(s, n - 1);
      }
    }
  }

  lemma {:induction false} LeavesOf(lens: seq<nat>, paths: seq<seq<bool>>) returns (leaves: seq<nat>)
    requires Complete(lens, 15) && forall j :: 0 <= j < |paths| ==> Inner(lens, paths[j])
    ensures |leaves| == |paths| && forall j :: 0 <= j < |paths| ==> RightLeft(lens, paths[j], leaves[j])
  {
    hide RightLeft, Inner, Complete;
    if paths == [] {
      leaves := [];
    } else {
      var k := |paths| - 1;
      var init := LeavesOf(lens, paths[..k]);
      var s := InnerLeaf(lens, paths[k]);
      leaves := init + [s];
    }
  }

  /** A complete code has no more inner nodes than symbols. */
  lemma InnerNodesComplete(lens: seq<nat>, paths: seq<seq<bool>>)
    requires Complete(lens, 15) && Distinct(paths) && forall j :: 0 <= j < |paths| ==> Inner(lens, paths[j])
    ensures |paths| <= |lens|
  {
    hide RightLeft, Inner, Complete;
    var leaves := LeavesOf(lens, paths);
    forall i, j | 0 <= i < j < |leaves| ensures leaves[i] != leaves[j] {
      if leaves[i] == leaves[j] { RightLeftInjective(lens, paths[i], paths[j], leaves[i]); }
    }
    forall i | 0 <= i < |leaves| ensures leaves[i] < |lens| { LeafBelow(lens, paths[i], leaves[i]); }
    DistinctBelow(leaves, |lens|);
  }

  lemma LeafBelow(lens: seq<nat>, p: seq<bool>, s: nat)
    requires RightLeft(lens, p, s)
    ensures s < |lens|
  {
  }

  /** The inner nodes over one symbol's codeword, from length 10 on. */
  lemma InnerNodesSingle(lens: seq<nat>, paths: seq<seq<bool>>)
    requires Inflate.UsedSyms(lens) <= 1 && Distinct(paths) && (forall i :: 0 <= i < |lens| ==> lens[i] <= 15)
    requires forall j :: 0 <= j < |paths| ==> Inner(lens, paths[j]) && |paths[j]| >= 10
    ensures |paths| <= 15
  {
    hide Codeword, Inflate.UsedSyms;
    var depths := seq(|paths|, j requires 0 <= j < |paths| => |paths[j]|);
    forall i, j | 0 <= i < j < |paths| ensures depths[i] != depths[j] {
      var s :| Under(lens, paths[i], s);
      var t :| Under(lens, paths[j], t);
      OneSymbol(lens, s, t);
      assert paths[i] == Codeword(lens, s)[..|paths[i]|] && paths[j] == Codeword(lens, t)[..|paths[j]|];
    }
    forall j | 0 <= j < |paths| ensures depths[j] < 15 {
      var s :| Under(lens, paths[j], s);
    }
    DistinctBelow(depths, 15);
  }

  /** The tree array never overflows: at most 288 nodes, of two slots each. */
  lemma InnerNodesBound(lens: seq<nat>, paths: seq<seq<bool>>)
    requires Inflate.Accepted(lens) && Distinct(paths) && |lens| <= 288
    requires forall j :: 0 <= j < |paths| ==> Inner(lens, paths[j]) && |paths[j]| >= 10
    ensures |paths| <= 288
  {
    hide Complete, Inner;
    if Complete(lens, 15) { InnerNodesComplete(lens, paths); } else { InnerNodesSingle(lens, paths); }
  }
}
