/** The two-pass radix sort of symbols by frequency (tdefl_radix_sort_syms, src/http/miniz.c:1817-1833). */
module RadixSort {
  import opened MinRedundancy

  /** Byte `pass` of the key. */
  function Digit(e: SymFreq, pass: nat): (d: nat)
    ensures d < 256
  {
    if pass == 0 then e.key % 256 else e.key / 256 % 256
  }

  /** The elements with a given digit, in order. */
  function WithDigit(s: seq<SymFreq>, pass: nat, v: nat): seq<SymFreq>
  {
    if s == [] then []
    else WithDigit(s[..|s| - 1], pass, v) + (if Digit(s[|s| - 1], pass) == v then [s[|s| - 1]] else [])
  }

  /** The elements with a given key, in order. */
  function WithKey(s: seq<SymFreq>, k: nat): seq<SymFreq>
  {
    if s == [] then [] else WithKey(s[..|s| - 1], k) + (if s[|s| - 1].key == k then [s[|s| - 1]] else [])
  }

  /** The elements with digits below v, digit by digit: what one pass makes of s for v = 256. */
  function Buckets(s: seq<SymFreq>, pass: nat, v: nat): seq<SymFreq>
  {
    if v == 0 then [] else Buckets(s, pass, v - 1) + WithDigit(s, pass, v - 1)
  }

  predicate SortedByKey(s: seq<SymFreq>)
  {
    forall i, j :: 0 <= i <= j < |s| ==> s[i].key <= s[j].key
  }

  /** t is s sorted by key, with elements of equal keys in the order they had. */
  ghost predicate StableSort(s: seq<SymFreq>, t: seq<SymFreq>)
  {
    SortedByKey(t) && forall k :: WithKey(t, k) == WithKey(s, k)
  }

  // ---------- filters ----------

  lemma {:induction false} WithKeyAppend(s: seq<SymFreq>, t: seq<SymFreq>, k: nat)
    ensures WithKey(s + t, k) == WithKey(s, k) + WithKey(t, k)
  {
    if t == [] {
      assert s + t == s;
    } else {
      assert (s + t)[..|s + t| - 1] == s + t[..|t| - 1];
      WithKeyAppend(s, t[..|t| - 1], k);
    }
  }

  lemma {:induction false} WithDigitAppend(s: seq<SymFreq>, t: seq<SymFreq>, pass: nat, v: nat)
    ensures WithDigit(s + t, pass, v) == WithDigit(s, pass, v) + WithDigit(t, pass, v)
  {
    if t == [] {
      assert s + t == s;
    } else {
      assert (s + t)[..|s + t| - 1] == s + t[..|t| - 1];
      WithDigitAppend(s, t[..|t| - 1], pass, v);
    }
  }

  lemma {:induction false} WithDigitAll(s: seq<SymFreq>, pass: nat, v: nat)
    ensures forall i :: 0 <= i < |WithDigit(s, pass, v)| ==> Digit(WithDigit(s, pass, v)[i], pass) == v && WithDigit(s, pass, v)[i] in s
  {
    if s != [] {
      WithDigitAll(s[..|s| - 1], pass, v);
    }
  }

  /** A key has one digit per pass, so bucketing keeps the elements of each key. */
  lemma {:induction false} WithKeyOfDigit(s: seq<SymFreq>, pass: nat, v: nat, e: SymFreq)
    ensures WithKey(WithDigit(s, pass, v), e.key) == if Digit(e, pass) == v then WithKey(s, e.key) else []
  {
    if s != [] {
      var s', x := s[..|s| - 1], s[|s| - 1];
      WithKeyOfDigit(s', pass, v, e);
      if Digit(x, pass) == v {
        var d := WithDigit(s', pass, v);
        assert (d + [x])[..|d + [x]| - 1] == d;
      } else {
        assert WithDigit(s, pass, v) == WithDigit(s', pass, v);
      }
    }
  }

  lemma {:induction false} WithKeyOfBuckets(s: seq<SymFreq>, pass: nat, v: nat, e: SymFreq)
    ensures WithKey(Buckets(s, pass, v), e.key) == if Digit(e, pass) < v then WithKey(s, e.key) else []
  {
    if v > 0 {
      WithKeyOfBuckets(s, pass, v - 1, e);
      WithKeyOfDigit(s, pass, v - 1, e);
      WithKeyAppend(Buckets(s, pass, v - 1), WithDigit(s, pass, v - 1), e.key);
    }
  }

  lemma BucketsKeepKeys(s: seq<SymFreq>, pass: nat)
    ensures forall k :: WithKey(Buckets(s, pass, 256), k) == WithKey(s, k)
  {
    forall k: nat ensures WithKey(Buckets(s, pass, 256), k) == WithKey(s, k) {
      WithKeyOfBuckets(s, pass, 256, SymFreq(k, 0));
    }
  }

  // ---------- order ----------

  /** In order of the low byte among equal high bytes, up to where the high bytes are all equal. */
  predicate SortedByDigit(s: seq<SymFreq>, pass: nat)
  {
    forall i, j :: 0 <= i <= j < |s| ==> Digit(s[i], pass) <= Digit(s[j], pass)
  }

  lemma {:induction false} BucketsSorted(s: seq<SymFreq>, pass: nat, v: nat)
    ensures SortedByDigit(Buckets(s, pass, v), pass)
    ensures forall i :: 0 <= i < |Buckets(s, pass, v)| ==> Digit(Buckets(s, pass, v)[i], pass) < v && Buckets(s, pass, v)[i] in s
  {
    if v > 0 {
      BucketsSorted(s, pass, v - 1);
      WithDigitAll(s, pass, v - 1);
    }
  }

  lemma {:induction false} WithDigitOrder(s: seq<SymFreq>, v: nat)
    requires SortedByDigit(s, 0)
    ensures SortedByDigit(WithDigit(s, 1, v), 0)
    ensures forall i :: 0 <= i < |WithDigit(s, 1, v)| ==> s != [] && Digit(WithDigit(s, 1, v)[i], 0) <= Digit(s[|s| - 1], 0)
  {
    if s != [] {
      WithDigitOrder(s[..|s| - 1], v);
    }
  }

  /** Sorting by the high byte what is sorted by the low byte sorts by the whole key. */
  lemma {:induction false} BucketsSortKeys(s: seq<SymFreq>, v: nat)
    requires SortedByDigit(s, 0) && v <= 256
    requires forall i :: 0 <= i < |s| ==> s[i].key < 0x10000
    ensures SortedByKey(Buckets(s, 1, v))
  {
    if v > 0 {
      BucketsSortKeys(s, v - 1);
      var a, b := Buckets(s, 1, v - 1), WithDigit(s, 1, v - 1);
      BucketsSorted(s, 1, v - 1);
      WithDigitAll(s, 1, v - 1);
      WithDigitOrder(s, v - 1);
      var c: seq<SymFreq> := a + b;
      forall i, j | 0 <= i <= j < |c|
        ensures c[i].key <= c[j].key
      {
        var x, y := c[i], c[j];
        assert x in s && y in s;
        KeyOrder(x, y);
      }
    }
  }

  lemma KeyOrder(x: SymFreq, y: SymFreq)
    requires x.key < 0x10000 && y.key < 0x10000
    ensures Digit(x, 1) < Digit(y, 1) ==> x.key <= y.key
    ensures Digit(x, 1) == Digit(y, 1) && Digit(x, 0) <= Digit(y, 0) ==> x.key <= y.key
  {
  }

  lemma {:induction false} BucketsLength(s: seq<SymFreq>, e: SymFreq, pass: nat, v: nat)
    ensures |Buckets(s + [e], pass, v)| == |Buckets(s, pass, v)| + (if Digit(e, pass) < v then 1 else 0)
  {
    if v > 0 {
      BucketsLength(s, e, pass, v - 1);
      assert (s + [e])[..|s + [e]| - 1] == s;
    }
  }

  lemma {:induction false} BucketsAll(s: seq<SymFreq>, pass: nat)
    ensures |Buckets(s, pass, 256)| == |s|
  {
    if s == [] {
      BucketsOfNone(pass, 256);
    } else {
      BucketsAll(s[..|s| - 1], pass);
      BucketsLength(s[..|s| - 1], s[|s| - 1], pass, 256);
      assert s == s[..|s| - 1] + [s[|s| - 1]];
    }
  }

  lemma {:induction false} BucketsOfNone(pass: nat, v: nat)
    ensures Buckets([], pass, v) == []
  {
    if v > 0 {
      BucketsOfNone(pass, v - 1);
    }
  }

  lemma {:induction false} BucketsMono(s: seq<SymFreq>, pass: nat, u: nat, v: nat)
    requires u <= v
    ensures |Buckets(s, pass, u)| <= |Buckets(s, pass, v)|
    decreases v
  {
    if u < v {
      BucketsMono(s, pass, u, v - 1);
    }
  }

  // ---------- the sort ----------

  /** hist counts the digits of s, for both passes. */
  predicate Histogram(hist: seq<nat>, s: seq<SymFreq>)
  {
    |hist| == 512 && forall pass, v :: 0 <= pass < 2 && 0 <= v < 256 ==> hist[pass * 256 + v] == |WithDigit(s, pass, v)|
  }

  /** Where each bucket of the output stands after the first i elements: the next free place, and
      the elements placed so far. */
  ghost predicate Scattering(s: seq<SymFreq>, i: nat, t: seq<SymFreq>, offsets: seq<nat>, pass: nat)
  {
    && i <= |s| == |t| && |offsets| == 256
    && forall v :: 0 <= v < 256 ==> BucketSoFar(s, i, t, offsets[v], pass, v)
  }

  ghost predicate BucketSoFar(s: seq<SymFreq>, i: nat, t: seq<SymFreq>, ofs: nat, pass: nat, v: nat)
    requires i <= |s|
  {
    var start, part := |Buckets(s, pass, v)|, WithDigit(s[..i], pass, v);
    ofs == start + |part| <= |t| && t[start..ofs] == part
  }

  /** The bucket of the next element has room, and no other bucket is disturbed. */
  lemma ScatterOne(s: seq<SymFreq>, i: nat, t: seq<SymFreq>, offsets: seq<nat>, pass: nat)
    requires Scattering(s, i, t, offsets, pass) && i < |s|
    ensures var d := Digit(s[i], pass);
            && offsets[d] < |t|
            && Scattering(s, i + 1, t[offsets[d] := s[i]], offsets[d := offsets[d] + 1], pass)
  {
    var d := Digit(s[i], pass);
    var o := offsets[d];
    assert s[..i + 1][..i] == s[..i];
    assert BucketSoFar(s, i, t, o, pass, d);
    BucketRoom(s, i, pass, d);
    var t2, offsets2 := t[o := s[i]], offsets[d := o + 1];
    forall v | 0 <= v < 256
      ensures BucketSoFar(s, i + 1, t2, offsets2[v], pass, v)
    {
      assert BucketSoFar(s, i, t, offsets[v], pass, v);
      if v == d {
        var start := |Buckets(s, pass, d)|;
        assert t2[start..o + 1] == t[start..o] + [s[i]];
      } else {
        BucketApart(s, i, pass, d, v);
        var start := |Buckets(s, pass, v)|;
        assert t2[start..offsets[v]] == t[start..offsets[v]];
      }
    }
  }

  /** A bucket never outgrows its range. */
  lemma BucketRange(s: seq<SymFreq>, i: nat, pass: nat, v: nat)
    requires i <= |s| && v < 256
    ensures |Buckets(s, pass, v)| + |WithDigit(s[..i], pass, v)| <= |Buckets(s, pass, v + 1)| <= |s|
  {
    assert s == s[..i] + s[i..];
    WithDigitAppend(s[..i], s[i..], pass, v);
    BucketsMono(s, pass, v + 1, 256);
    BucketsAll(s, pass);
  }

  lemma BucketRoom(s: seq<SymFreq>, i: nat, pass: nat, d: nat)
    requires i < |s| && d == Digit(s[i], pass)
    ensures |Buckets(s, pass, d)| + |WithDigit(s[..i], pass, d)| < |s|
  {
    BucketRange(s, i + 1, pass, d);
    assert s[..i + 1][..i] == s[..i];
  }

  lemma BucketApart(s: seq<SymFreq>, i: nat, pass: nat, d: nat, v: nat)
    requires i < |s| && d == Digit(s[i], pass) && v != d && v < 256
    ensures var o := |Buckets(s, pass, d)| + |WithDigit(s[..i], pass, d)|;
            o < |Buckets(s, pass, v)| || o >= |Buckets(s, pass, v)| + |WithDigit(s[..i], pass, v)|
    ensures WithDigit(s[..i + 1], pass, v) == WithDigit(s[..i], pass, v)
  {
    hide Buckets, Digit;
    assert s[..i + 1][..i] == s[..i];
    BucketRange(s, i + 1, pass, d);
    BucketRange(s, i, pass, v);
    if v < d { BucketsMono(s, pass, v + 1, d); } else { BucketsMono(s, pass, d + 1, v); }
  }

  lemma {:induction false} AllPlaced(s: seq<SymFreq>, t: seq<SymFreq>, offsets: seq<nat>, pass: nat, v: nat)
    requires Scattering(s, |s|, t, offsets, pass) && v <= 256
    ensures |Buckets(s, pass, v)| <= |t| && t[..|Buckets(s, pass, v)|] == Buckets(s, pass, v)
  {
    if v > 0 {
      AllPlaced(s, t, offsets, pass, v - 1);
      assert BucketSoFar(s, |s|, t, offsets[v - 1], pass, v - 1);
      assert s[..|s|] == s;
      var a, b := |Buckets(s, pass, v - 1)|, |Buckets(s, pass, v)|;
      assert t[..b] == t[..a] + t[a..b];
    }
  }

  /** One pass: offsets, then the elements in order to the next place of their bucket. */
  method Scatter(cur: array<SymFreq>, out: array<SymFreq>, hist: seq<nat>, pass: nat)
    requires cur != out && cur.Length == out.Length && pass < 2 && Histogram(hist, cur[..])
    modifies out
    ensures out[..] == Buckets(cur[..], pass, 256)
  {
    hide WithDigit, Buckets, Scattering, Digit;
    var offsets := new nat[256];
    Offsets(hist, pass, offsets, cur[..]);
    ghost var s := cur[..];
    StartScattering(s, out[..], offsets[..], pass);
    var i := 0;
    while i < cur.Length
      invariant 0 <= i <= cur.Length && cur[..] == s
      invariant Scattering(s, i, out[..], offsets[..], pass)
    {
      ScatterOne(s, i, out[..], offsets[..], pass);
      var d := Digit(cur[i], pass);
      out[offsets[d]] := cur[i];
      offsets[d] := offsets[d] + 1;
      i := i + 1;
    }
    AllPlaced(s, out[..], offsets[..], pass, 256);
    BucketsAll(s, pass);
    assert out[..|s|] == out[..];
  }

  lemma StartScattering(s: seq<SymFreq>, t: seq<SymFreq>, offsets: seq<nat>, pass: nat)
    requires |s| == |t| && |offsets| == 256 && forall v :: 0 <= v < 256 ==> offsets[v] == |Buckets(s, pass, v)|
    ensures Scattering(s, 0, t, offsets, pass)
  {
    assert s[..0] == [];
    forall v | 0 <= v < 256
      ensures BucketSoFar(s, 0, t, offsets[v], pass, v)
    {
      BucketRange(s, 0, pass, v);
    }
  }

  method Offsets(hist: seq<nat>, pass: nat, offsets: array<nat>, ghost s: seq<SymFreq>)
    requires pass < 2 && Histogram(hist, s) && offsets.Length == 256
    modifies offsets
    ensures forall v :: 0 <= v < 256 ==> offsets[v] == |Buckets(s, pass, v)|
  {
    var curOfs, i := 0, 0;
    while i < 256
      invariant 0 <= i <= 256 && curOfs == |Buckets(s, pass, i)|
      invariant forall v :: 0 <= v < i ==> offsets[v] == |Buckets(s, pass, v)|
    {
      offsets[i] := curOfs;
      curOfs := curOfs + hist[pass * 256 + i];
      i := i + 1;
    }
  }

  method CountDigits(syms: array<SymFreq>) returns (hist: array<nat>)
    ensures fresh(hist) && Histogram(hist[..], syms[..])
  {
    hist := new nat[512](i => 0);
    var i := 0;
    assert syms[..0] == [];
    while i < syms.Length
      invariant 0 <= i <= syms.Length && hist.Length == 512 && fresh(hist)
      invariant Histogram(hist[..], syms[..i])
    {
      var e := syms[i];
      CountOne(hist[..], syms[..i], e);
      hist[Digit(e, 0)] := hist[Digit(e, 0)] + 1;
      hist[256 + Digit(e, 1)] := hist[256 + Digit(e, 1)] + 1;
      assert syms[..i + 1] == syms[..i] + [e];
      i := i + 1;
    }
    assert syms[..syms.Length] == syms[..];
  }

  lemma CountOne(hist: seq<nat>, s: seq<SymFreq>, e: SymFreq)
    requires Histogram(hist, s)
    ensures var h := hist[Digit(e, 0) := hist[Digit(e, 0)] + 1];
            Histogram(h[256 + Digit(e, 1) := h[256 + Digit(e, 1)] + 1], s + [e])
  {
    assert (s + [e])[..|s|] == s;
    var h := hist[Digit(e, 0) := hist[Digit(e, 0)] + 1];
    var h2 := h[256 + Digit(e, 1) := h[256 + Digit(e, 1)] + 1];
    forall pass, v | 0 <= pass < 2 && 0 <= v < 256
      ensures h2[pass * 256 + v] == |WithDigit(s + [e], pass, v)|
    {
      assert hist[pass * 256 + v] == |WithDigit(s, pass, v)|;
    }
  }

  /** If every element has high byte 0 the low byte is the key, and one pass is enough. */
  lemma {:induction false} HighByteZero(s: seq<SymFreq>)
    requires |WithDigit(s, 1, 0)| == |s| && forall i :: 0 <= i < |s| ==> s[i].key < 0x10000
    ensures forall i :: 0 <= i < |s| ==> s[i].key < 256
  {
    if s != [] {
      var s' := s[..|s| - 1];
      WithDigitLength(s', 1, 0);
      HighByteZero(s');
      assert Digit(s[|s| - 1], 1) == 0;
    }
  }

  lemma {:induction false} WithDigitLength(s: seq<SymFreq>, pass: nat, v: nat)
    ensures |WithDigit(s, pass, v)| <= |s|
  {
    if s != [] {
      WithDigitLength(s[..|s| - 1], pass, v);
    }
  }

  lemma OnePassSorts(s: seq<SymFreq>)
    requires forall i :: 0 <= i < |s| ==> s[i].key < 256
    ensures StableSort(s, Buckets(s, 0, 256))
  {
    hide WithDigit, Buckets, WithKey;
    BucketsSorted(s, 0, 256);
    BucketsKeepKeys(s, 0);
    var t := Buckets(s, 0, 256);
    forall i, j | 0 <= i <= j < |t|
      ensures t[i].key <= t[j].key
    {
      assert t[i] in s && t[j] in s;
    }
  }

  lemma TwoPassesSort(s: seq<SymFreq>)
    requires forall i :: 0 <= i < |s| ==> s[i].key < 0x10000
    ensures StableSort(s, Buckets(Buckets(s, 0, 256), 1, 256))
  {
    hide WithDigit, Buckets, WithKey;
    var t := Buckets(s, 0, 256);
    BucketsSorted(s, 0, 256);
    BucketsKeepKeys(s, 0);
    BucketsKeepKeys(t, 1);
    assert forall i :: 0 <= i < |t| ==> t[i] in s;
    BucketsSortKeys(t, 256);
  }

  /** tdefl_radix_sort_syms: the sorted symbols are in whichever buffer is returned. */
  method RadixSortSyms(syms0: array<SymFreq>, syms1: array<SymFreq>) returns (sorted: array<SymFreq>)
    requires syms0 != syms1 && syms0.Length == syms1.Length
    requires forall i :: 0 <= i < syms0.Length ==> syms0[i].key < 0x10000
    modifies syms0, syms1
    ensures sorted == syms0 || sorted == syms1
    ensures StableSort(old(syms0[..]), sorted[..])
  {
    hide WithDigit, Buckets, WithKey, StableSort;
    ghost var s := syms0[..];
    var hist := CountDigits(syms0);
    var totalPasses := 2;
    while totalPasses > 1 && syms0.Length == hist[(totalPasses - 1) * 256]
      invariant 1 <= totalPasses <= 2
      invariant totalPasses == 1 ==> |WithDigit(s, 1, 0)| == |s|
    {
      assert hist[1 * 256 + 0] == |WithDigit(s, 1, 0)|;
      totalPasses := totalPasses - 1;
    }
    var cur, new_, pass := syms0, syms1, 0;
    ghost var h := hist[..];
    while pass < totalPasses
      invariant 0 <= pass <= totalPasses && {cur, new_} == {syms0, syms1} && cur != new_ && hist[..] == h
      invariant Histogram(h, cur[..])
      invariant cur[..] == (if pass == 0 then s else if pass == 1 then Buckets(s, 0, 256) else Buckets(Buckets(s, 0, 256), 1, 256))
    {
      ghost var before := cur[..];
      Scatter(cur, new_, hist[..], pass);
      HistogramOfBuckets(h, before, pass);
      cur, new_ := new_, cur;
      pass := pass + 1;
    }
    if totalPasses == 1 {
      HighByteZero(s);
      OnePassSorts(s);
    } else {
      TwoPassesSort(s);
    }
    return cur;
  }

  lemma HistogramOfBuckets(hist: seq<nat>, s: seq<SymFreq>, pass: nat)
    requires Histogram(hist, s)
    ensures Histogram(hist, Buckets(s, pass, 256))
  {
    forall q, v | 0 <= q < 2 && 0 <= v < 256
      ensures |WithDigit(Buckets(s, pass, 256), q, v)| == |WithDigit(s, q, v)|
    {
      DigitsOfBuckets(s, pass, 256, q, v);
    }
  }

  /** Bucketing moves elements around without adding or dropping any. */
  lemma {:induction false} DigitsOfBuckets(s: seq<SymFreq>, pass: nat, u: nat, q: nat, v: nat)
    requires u == 256
    ensures |WithDigit(Buckets(s, pass, u), q, v)| == |WithDigit(s, q, v)|
  {
    if s == [] {
      BucketsOfNone(pass, u);
    } else {
      var s', e := s[..|s| - 1], s[|s| - 1];
      DigitsOfBuckets(s', pass, u, q, v);
      assert s == s' + [e];
      BucketsInsert(s', e, pass, u, q, v);
    }
  }

  lemma {:induction false} BucketsInsert(s: seq<SymFreq>, e: SymFreq, pass: nat, u: nat, q: nat, v: nat)
    ensures |WithDigit(Buckets(s + [e], pass, u), q, v)|
         == |WithDigit(Buckets(s, pass, u), q, v)| + (if Digit(e, pass) < u && Digit(e, q) == v then 1 else 0)
  {
    hide Digit;
    if u > 0 {
      BucketsInsert(s, e, pass, u - 1, q, v);
      WithDigitSnoc(s, e, pass, u - 1);
      var b, d := Buckets(s, pass, u - 1), WithDigit(s, pass, u - 1);
      var b2, d2 := Buckets(s + [e], pass, u - 1), WithDigit(s + [e], pass, u - 1);
      WithDigitAppend(b2, d2, q, v);
      WithDigitAppend(b, d, q, v);
      if Digit(e, pass) == u - 1 {
        WithDigitSnoc(d, e, q, v);
      } else {
        assert d2 == d;
      }
    }
  }

  lemma WithDigitSnoc(s: seq<SymFreq>, e: SymFreq, q: nat, v: nat)
    ensures WithDigit(s + [e], q, v) == WithDigit(s, q, v) + (if Digit(e, q) == v then [e] else [])
  {
    assert (s + [e])[..|s + [e]| - 1] == s;
  }
}
