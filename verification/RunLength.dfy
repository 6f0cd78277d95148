/** Run-length packing of code lengths in a dynamic block header (section 3.2.7 of RFC 1951;
    src/http/miniz.c:1917-1932 and 1949-1977), and its inverse. */
module RunLength {
  import opened Bits
  import opened CanonicalCode
  import opened Inflate
  import opened Blocks
  import opened MinRedundancy

  // ---------- meaning ----------

  /** packed holds symbols of the code length alphabet, each of 16, 17 and 18 with its extra bits after it. */
  predicate WellFormed(acc: seq<nat>, packed: seq<nat>)
    decreases |packed|
  {
    packed == [] ||
    (packed[0] < 19 &&
     if packed[0] < 16 then WellFormed(acc + [packed[0]], packed[1..])
     else |packed| >= 2 && packed[1] < Pow2(RepeatExtra(packed[0])) && (packed[0] == 16 ==> acc != []) &&
          WellFormed(acc + Run(acc, packed[0], packed[1]), packed[2..]))
  }

  function Run(acc: seq<nat>, sym: nat, x: nat): (r: seq<nat>)
    requires sym == 16 ==> acc != []
  {
    Fill(if sym == 16 then acc[|acc| - 1] else 0, RepeatBase(sym) + x)
  }

  /** acc followed by the lengths that packed stands for. */
  function Unpack(acc: seq<nat>, packed: seq<nat>): (r: seq<nat>)
    requires WellFormed(acc, packed)
    ensures |r| >= |acc| + |packed|
    decreases |packed|
  {
    if packed == [] then acc
    else if packed[0] < 16 then Unpack(acc + [packed[0]], packed[1..])
    else Unpack(acc + Run(acc, packed[0], packed[1]), packed[2..])
  }

  lemma {:induction false} UnpackAppend(acc: seq<nat>, p: seq<nat>, q: seq<nat>)
    requires WellFormed(acc, p) && WellFormed(Unpack(acc, p), q)
    ensures WellFormed(acc, p + q) && Unpack(acc, p + q) == Unpack(Unpack(acc, p), q)
    decreases |p|
  {
    if p == [] {
      assert p + q == q;
    } else if p[0] < 16 {
      assert (p + q)[1..] == p[1..] + q;
      UnpackAppend(acc + [p[0]], p[1..], q);
    } else {
      assert (p + q)[2..] == p[2..] + q;
      UnpackAppend(acc + Run(acc, p[0], p[1]), p[2..], q);
    }
  }

  /** The code table has a code for every symbol in packed. */
  predicate HasCodes(cl: seq<nat>, packed: seq<nat>)
    decreases |packed|
  {
    packed == [] ||
    (packed[0] < |cl| && cl[packed[0]] > 0 &&
     if packed[0] < 16 then HasCodes(cl, packed[1..]) else |packed| >= 2 && HasCodes(cl, packed[2..]))
  }

  function PackedBits(cl: seq<nat>, packed: seq<nat>): seq<bool>
    requires HasCodes(cl, packed)
    decreases |packed|
  {
    if packed == [] then []
    else if packed[0] < 16 then Codeword(cl, packed[0]) + PackedBits(cl, packed[1..])
    else Codeword(cl, packed[0]) + ToBits(packed[1], RepeatExtra(packed[0])) + PackedBits(cl, packed[2..])
  }

  // ---------- reading it back ----------

  lemma InflateLen(cl: seq<nat>, bits: seq<bool>, pos: nat, total: nat, acc: seq<nat>, sym: nat)
    requires Fits(cl, 15) && sym < |cl| && sym < 16 && cl[sym] > 0 && At(bits, pos, Codeword(cl, sym)) && |acc| < total
    ensures InflateLens(cl, bits, pos, total, acc) == InflateLens(cl, bits, pos + cl[sym], total, acc + [sym])
  {
    hide Codeword, Fits, DecodeSym;
    DecodeCodeword(cl, 15, sym, bits, pos);
  }

  lemma InflateRun(cl: seq<nat>, bits: seq<bool>, pos: nat, total: nat, acc: seq<nat>, sym: nat, x: nat)
    requires Fits(cl, 15) && sym < |cl| && 16 <= sym <= 18 && cl[sym] > 0 && (sym == 16 ==> acc != []) && x < Pow2(RepeatExtra(sym))
    requires At(bits, pos, Codeword(cl, sym) + ToBits(x, RepeatExtra(sym))) && |acc| < total
    ensures InflateLens(cl, bits, pos, total, acc)
         == InflateLens(cl, bits, pos + cl[sym] + RepeatExtra(sym), total, acc + Run(acc, sym, x))
  {
    hide Codeword, Fits, DecodeSym, ReadBits;
    AtSplit(bits, pos, Codeword(cl, sym), ToBits(x, RepeatExtra(sym)));
    DecodeCodeword(cl, 15, sym, bits, pos);
    ReadField(bits, pos + cl[sym], x, RepeatExtra(sym));
  }

  /** The decoder's expansion of the packed lengths is their meaning. */
  lemma {:induction false} InflatePacked(cl: seq<nat>, bits: seq<bool>, pos: nat, total: nat, acc: seq<nat>, packed: seq<nat>)
    requires Fits(cl, 15) && HasCodes(cl, packed) && WellFormed(acc, packed)
    requires At(bits, pos, PackedBits(cl, packed)) && total == |Unpack(acc, packed)|
    ensures InflateLens(cl, bits, pos, total, acc) == Some((Unpack(acc, packed), pos + |PackedBits(cl, packed)|))
    decreases |packed|
  {
    hide Fits, Codeword, ToBits, Run, ReadBits, DecodeSym, PackedBits, WellFormed, HasCodes, Unpack, At, InflateLens;
    if packed == [] {
      NothingLeft(cl, bits, pos, total, acc);
    } else if packed[0] < 16 {
      PlainFirst(cl, acc, packed);
      AtSplit(bits, pos, Codeword(cl, packed[0]), PackedBits(cl, packed[1..]));
      InflateLen(cl, bits, pos, total, acc, packed[0]);
      InflatePacked(cl, bits, pos + cl[packed[0]], total, acc + [packed[0]], packed[1..]);
    } else {
      RunFirst(cl, acc, packed);
      var w := Codeword(cl, packed[0]) + ToBits(packed[1], RepeatExtra(packed[0]));
      AtSplit(bits, pos, w, PackedBits(cl, packed[2..]));
      InflateRun(cl, bits, pos, total, acc, packed[0], packed[1]);
      InflatePacked(cl, bits, pos + |w|, total, acc + Run(acc, packed[0], packed[1]), packed[2..]);
    }
  }

  lemma NothingLeft(cl: seq<nat>, bits: seq<bool>, pos: nat, total: nat, acc: seq<nat>)
    requires HasCodes(cl, []) && WellFormed(acc, []) && total == |Unpack(acc, [])| && At(bits, pos, PackedBits(cl, []))
    ensures pos <= |bits| && InflateLens(cl, bits, pos, total, acc) == Some((Unpack(acc, []), pos + |PackedBits(cl, [])|))
  {
  }

  lemma PlainFirst(cl: seq<nat>, acc: seq<nat>, packed: seq<nat>)
    requires packed != [] && packed[0] < 16 && HasCodes(cl, packed) && WellFormed(acc, packed)
    ensures packed[0] < |cl| && cl[packed[0]] > 0 && HasCodes(cl, packed[1..]) && WellFormed(acc + [packed[0]], packed[1..])
    ensures PackedBits(cl, packed) == Codeword(cl, packed[0]) + PackedBits(cl, packed[1..])
    ensures Unpack(acc, packed) == Unpack(acc + [packed[0]], packed[1..]) && |acc| < |Unpack(acc, packed)|
  {
    hide Codeword;
  }

  lemma RunFirst(cl: seq<nat>, acc: seq<nat>, packed: seq<nat>)
    requires packed != [] && packed[0] >= 16 && HasCodes(cl, packed) && WellFormed(acc, packed)
    ensures 16 <= packed[0] <= 18 && packed[0] < |cl| && cl[packed[0]] > 0 && |packed| >= 2 && HasCodes(cl, packed[2..])
    ensures packed[1] < Pow2(RepeatExtra(packed[0])) && (packed[0] == 16 ==> acc != []) && WellFormed(acc + Run(acc, packed[0], packed[1]), packed[2..])
    ensures PackedBits(cl, packed) == Codeword(cl, packed[0]) + ToBits(packed[1], RepeatExtra(packed[0])) + PackedBits(cl, packed[2..])
    ensures Unpack(acc, packed) == Unpack(acc + Run(acc, packed[0], packed[1]), packed[2..]) && |acc| < |Unpack(acc, packed)|
  {
    hide Codeword, ToBits, Run;
  }

  // ---------- packing ----------

  lemma {:induction false} HasCodesAppend(cl: seq<nat>, p: seq<nat>, q: seq<nat>)
    requires HasCodes(cl, p) && HasCodes(cl, q)
    ensures HasCodes(cl, p + q)
    decreases |p|
  {
    if p == [] {
      assert p + q == q;
    } else if p[0] < 16 {
      assert (p + q)[1..] == p[1..] + q;
      HasCodesAppend(cl, p[1..], q);
    } else {
      assert (p + q)[2..] == p[2..] + q;
      HasCodesAppend(cl, p[2..], q);
    }
  }

  lemma {:induction false} HasCodesMono(a: seq<nat>, b: seq<nat>, p: seq<nat>)
    requires HasCodes(a, p) && |a| <= |b| && forall i :: 0 <= i < |a| && a[i] > 0 ==> b[i] > 0
    ensures HasCodes(b, p)
    decreases |p|
  {
    if p == [] {
    } else if p[0] < 16 {
      HasCodesMono(a, b, p[1..]);
    } else {
      HasCodesMono(a, b, p[2..]);
    }
  }

  /** What is packed so far, and the counts of its symbols. */
  ghost predicate PackedSoFar(packed: seq<nat>, count: seq<nat>)
  {
    && WellFormed([], packed) && |count| == 288
    && HasCodes(count[..19], packed) && Sum(count[..19]) <= |packed|
    && forall i :: 19 <= i < 288 ==> count[i] == 0
  }

  lemma {:induction false} SumAdd(s: seq<nat>, i: nat, v: nat)
    requires i < |s|
    ensures Sum(s[i := s[i] + v]) == Sum(s) + v
  {
    if i == 0 {
      assert s[0 := s[0] + v][1..] == s[1..];
    } else {
      assert s[i := s[i] + v][1..] == s[1..][i - 1 := s[i] + v];
      SumAdd(s[1..], i - 1, v);
    }
  }

  /** Counting v more of symbol c keeps the codes of what is packed. */
  lemma CountMore(packed: seq<nat>, count: seq<nat>, c: nat, v: nat)
    requires |count| == 288 && HasCodes(count[..19], packed) && c < 19
    ensures HasCodes(count[c := count[c] + v][..19], packed)
    ensures Sum(count[c := count[c] + v][..19]) == Sum(count[..19]) + v
  {
    assert count[c := count[c] + v][..19] == count[..19][c := count[..19][c] + v];
    SumAdd(count[..19], c, v);
    HasCodesMono(count[..19], count[c := count[c] + v][..19], packed);
  }

  /** A plain length after what is packed. */
  lemma AppendLength(packed: seq<nat>, v: nat)
    requires WellFormed([], packed) && v < 16
    ensures WellFormed([], packed + [v]) && Unpack([], packed + [v]) == Unpack([], packed) + [v]
    ensures forall cl :: HasCodes(cl, packed) && v < |cl| && cl[v] > 0 ==> HasCodes(cl, packed + [v])
  {
    UnpackAppend([], packed, [v]);
    assert Unpack(Unpack([], packed), [v]) == Unpack([], packed) + [v];
    forall cl | HasCodes(cl, packed) && v < |cl| && cl[v] > 0
      ensures HasCodes(cl, packed + [v])
    {
      HasCodesAppend(cl, packed, [v]);
    }
  }

  /** A run after what is packed. */
  lemma AppendRun(packed: seq<nat>, sym: nat, x: nat)
    requires WellFormed([], packed) && 16 <= sym <= 18 && x < Pow2(RepeatExtra(sym)) && (sym == 16 ==> Unpack([], packed) != [])
    ensures WellFormed([], packed + [sym, x])
    ensures Unpack([], packed + [sym, x]) == Unpack([], packed) + Run(Unpack([], packed), sym, x)
    ensures forall cl :: HasCodes(cl, packed) && sym < |cl| && cl[sym] > 0 ==> HasCodes(cl, packed + [sym, x])
  {
    hide Run, RepeatExtra;
    var acc := Unpack([], packed);
    assert [sym, x][2..] == [];
    assert WellFormed(acc, [sym, x]);
    UnpackAppend([], packed, [sym, x]);
    assert Unpack(acc, [sym, x]) == acc + Run(acc, sym, x);
    forall cl | HasCodes(cl, packed) && sym < |cl| && cl[sym] > 0
      ensures HasCodes(cl, packed + [sym, x])
    {
      HasCodesAppend(cl, packed, [sym, x]);
    }
  }

  // ---------- the packed form, run by run ----------

  /** How many entries at the start are v. */
  function Leading(s: seq<nat>, v: nat): (n: nat)
    ensures n <= |s| && (forall i :: 0 <= i < n ==> s[i] == v) && (n < |s| ==> s[n] != v)
  {
    if s == [] || s[0] != v then 0 else 1 + Leading(s[1..], v)
  }

  function AtMost(n: nat, most: nat): nat { if n < most then n else most }

  /** Zeros: plain ones if there are fewer than 3, else symbol 17 for up to 10 and 18 for up to 138. */
  function ZeroCode(n: nat): seq<nat>
  {
    if n < 3 then Fill(0, n) else if n <= 10 then [17, n - 3] else [18, n - 11]
  }

  /** More of the length before: plain ones if there are fewer than 3, else symbol 16. */
  function RepeatCode(v: nat, n: nat): seq<nat>
  {
    if n < 3 then Fill(v, n) else [16, n - 3]
  }

  /** The packed form of lengths that come after prev: zeros in runs as long as they can be, and repeats of the
      length before in runs of up to 6. */
  function Packed(s: seq<nat>, prev: nat): seq<nat>
    decreases |s|
  {
    if s == [] then []
    else if s[0] == 0 then
      var n := AtMost(Leading(s, 0), 138);
      ZeroCode(n) + Packed(s[n..], 0)
    else if s[0] == prev then
      var n := AtMost(Leading(s, prev), 6);
      RepeatCode(prev, n) + Packed(s[n..], prev)
    else [s[0]] + Packed(s[1..], s[0])
  }

  /** Pending zeros or repeats, that can not be more, are the next run. */
  lemma NextZeros(s: seq<nat>, j: nat, n: nat, prev: nat)
    requires 0 < n <= 138 && j + n <= |s| && (forall k :: j <= k < j + n ==> s[k] == 0) && (n == 138 || j + n == |s| || s[j + n] != 0)
    ensures Packed(s[j..], prev) == ZeroCode(n) + Packed(s[j + n..], 0)
  {
    assert s[j..][n..] == s[j + n..];
  }

  lemma NextRepeats(s: seq<nat>, j: nat, n: nat, prev: nat)
    requires 0 < n <= 6 && prev != 0 && j + n <= |s| && (forall k :: j <= k < j + n ==> s[k] == prev) && (n == 6 || j + n == |s| || s[j + n] != prev)
    ensures Packed(s[j..], prev) == RepeatCode(prev, n) + Packed(s[j + n..], prev)
  {
    assert s[j..][n..] == s[j + n..];
  }

  lemma NextPlain(s: seq<nat>, j: nat, prev: nat)
    requires j < |s| && s[j] != 0 && s[j] != prev
    ensures Packed(s[j..], prev) == [s[j]] + Packed(s[j + 1..], s[j])
  {
    assert s[j..][1..] == s[j + 1..];
  }

  /** Before zeros, the length before does not matter. */
  lemma ZeroNext(s: seq<nat>, j: nat, prev: nat)
    requires j < |s| && s[j] == 0
    ensures Packed(s[j..], prev) == Packed(s[j..], 0)
  {
  }

  /** All but the pending entries are packed, in the form that they have to have. */
  ghost predicate InForm(sizes: seq<nat>, i: nat, packed: seq<nat>, zeros: nat, repeat: nat, prev: nat)
  {
    && zeros + repeat <= i <= |sizes| && (zeros > 0 ==> repeat == 0 && prev == 0) && (repeat > 0 ==> prev != 0)
    && (forall k :: i - zeros - repeat <= k < i ==> sizes[k] == prev)
    && packed + Packed(sizes[i - zeros - repeat..], prev) == Packed(sizes, 0xFF)
  }

  /** The pending repeats go out before anything else. */
  lemma RepeatsOut(sizes: seq<nat>, i: nat, packed: seq<nat>, repeat: nat, prev: nat)
    requires InForm(sizes, i, packed, 0, repeat, prev) && repeat <= 6 && (repeat == 6 || i == |sizes| || sizes[i] != prev)
    ensures InForm(sizes, i, packed + RepeatCode(prev, repeat), 0, 0, prev)
  {
    hide Packed;
    if repeat > 0 {
      NextRepeats(sizes, i - repeat, repeat, prev);
      assert packed + (RepeatCode(prev, repeat) + Packed(sizes[i..], prev)) == packed + RepeatCode(prev, repeat) + Packed(sizes[i..], prev);
    } else {
      assert packed + RepeatCode(prev, 0) == packed;
    }
  }

  lemma ZerosOut(sizes: seq<nat>, i: nat, packed: seq<nat>, zeros: nat, prev: nat)
    requires InForm(sizes, i, packed, zeros, 0, prev) && zeros <= 138 && (zeros == 138 || i == |sizes| || sizes[i] != 0)
    ensures InForm(sizes, i, packed + ZeroCode(zeros), 0, 0, prev)
  {
    hide Packed;
    if zeros > 0 {
      NextZeros(sizes, i - zeros, zeros, prev);
      assert packed + (ZeroCode(zeros) + Packed(sizes[i..], 0)) == packed + ZeroCode(zeros) + Packed(sizes[i..], 0);
    } else {
      assert packed + ZeroCode(0) == packed;
    }
  }

  lemma PlainOut(sizes: seq<nat>, i: nat, packed: seq<nat>, prev: nat)
    requires InForm(sizes, i, packed, 0, 0, prev) && i < |sizes| && sizes[i] != 0 && sizes[i] != prev
    ensures InForm(sizes, i + 1, packed + Fill(sizes[i], 1), 0, 0, sizes[i])
  {
    hide Packed;
    NextPlain(sizes, i, prev);
    assert Fill(sizes[i], 1) == [sizes[i]];
    assert packed + ([sizes[i]] + Packed(sizes[i + 1..], sizes[i])) == packed + [sizes[i]] + Packed(sizes[i + 1..], sizes[i]);
  }

  lemma OneMore(sizes: seq<nat>, i: nat, packed: seq<nat>, zeros: nat, repeat: nat, prev: nat)
    requires InForm(sizes, i, packed, zeros, repeat, prev) && i < |sizes|
    ensures sizes[i] == 0 && repeat == 0 ==> InForm(sizes, i + 1, packed, zeros + 1, 0, 0)
    ensures sizes[i] == prev != 0 && zeros == 0 ==> InForm(sizes, i + 1, packed, 0, repeat + 1, prev)
  {
    hide Packed;
    if sizes[i] == 0 && repeat == 0 { ZeroNext(sizes, i - zeros, prev); }
  }

  /** A pending run of v is packed as plain lengths. */
  method PackPlain(packed: array<nat>, n0: nat, v: nat, run: nat, count: array<nat>) returns (n: nat)
    requires packed != count && count.Length == 288 && v < 16 && n0 + run <= packed.Length
    requires PackedSoFar(packed[..n0], count[..])
    modifies packed, count
    ensures n == n0 + run && PackedSoFar(packed[..n], count[..]) && packed[..n] == old(packed[..n0]) + Fill(v, run)
    ensures Unpack([], packed[..n]) == Unpack([], old(packed[..n0])) + Fill(v, run)
  {
    hide Unpack, WellFormed, HasCodes, Sum;
    CountMore(packed[..n0], count[..], v, run);
    ghost var sum0 := Sum(count[..19]);
    assert count[..][..19] == count[..19];
    count[v] := count[v] + run;
    assert count[..][..19] == count[..19];
    n := n0;
    var k := 0;
    assert packed[..n0] == old(packed[..n0]);
    while k < run
      invariant 0 <= k <= run && n == n0 + k
      invariant WellFormed([], packed[..n]) && HasCodes(count[..19], packed[..n])
      invariant Unpack([], packed[..n]) == Unpack([], old(packed[..n0])) + Fill(v, k)
      invariant packed[..n] == old(packed[..n0]) + Fill(v, k)
      invariant count[v] == old(count[v]) + run && Sum(count[..19]) == sum0 + run
      invariant forall i :: 19 <= i < 288 ==> count[i] == 0
    {
      AppendLength(packed[..n], v);
      ghost var before := packed[..n];
      packed[n] := v;
      assert packed[..n + 1] == before + [v];
      assert Fill(v, k + 1) == Fill(v, k) + [v];
      n := n + 1;
      k := k + 1;
    }
    assert count[..][..19] == count[..19];
  }

  /** A pending run is packed as one of the symbols 16, 17 and 18 with its length. */
  method PackRun(packed: array<nat>, n0: nat, sym: nat, x: nat, count: array<nat>) returns (n: nat)
    requires packed != count && count.Length == 288 && n0 + 2 <= packed.Length
    requires PackedSoFar(packed[..n0], count[..])
    requires 16 <= sym <= 18 && x < Pow2(RepeatExtra(sym)) && (sym == 16 ==> Unpack([], packed[..n0]) != [])
    modifies packed, count
    ensures n == n0 + 2 && PackedSoFar(packed[..n], count[..]) && packed[..n] == old(packed[..n0]) + [sym, x]
    ensures Unpack([], packed[..n]) == Unpack([], old(packed[..n0])) + Run(Unpack([], old(packed[..n0])), sym, x)
  {
    hide Unpack, WellFormed, HasCodes, Sum, Run;
    CountMore(packed[..n0], count[..], sym, 1);
    AppendRun(packed[..n0], sym, x);
    ghost var before := packed[..n0];
    count[sym] := count[sym] + 1;
    packed[n0] := sym;
    packed[n0 + 1] := x;
    assert packed[..n0 + 2] == before + [sym, x];
    n := n0 + 2;
  }

  /** TDEFL_RLE_PREV_CODE_SIZE. */
  method RlePrevCodeSize(packed: array<nat>, n0: nat, prev: nat, repeat: nat, count: array<nat>) returns (n: nat)
    requires packed != count && count.Length == 288 && repeat <= 6 && n0 + repeat <= packed.Length
    requires PackedSoFar(packed[..n0], count[..])
    requires repeat > 0 ==> prev < 16 && var u := Unpack([], packed[..n0]); u != [] && u[|u| - 1] == prev
    modifies packed, count
    ensures n <= n0 + repeat && n <= packed.Length && PackedSoFar(packed[..n], count[..])
    ensures Unpack([], packed[..n]) == Unpack([], old(packed[..n0])) + Fill(prev, repeat)
    ensures packed[..n] == old(packed[..n0]) + RepeatCode(prev, repeat)
  {
    hide Unpack, WellFormed, HasCodes, Sum, PackedSoFar;
    n := n0;
    if repeat > 0 {
      if repeat < 3 {
        n := PackPlain(packed, n0, prev, repeat, count);
      } else {
        assert Pow2(2) == 4;
        n := PackRun(packed, n0, 16, repeat - 3, count);
      }
    }
    PackedWellFormed(packed[..n], count[..]);
  }

  lemma PackedWellFormed(packed: seq<nat>, count: seq<nat>)
    requires PackedSoFar(packed, count)
    ensures WellFormed([], packed) && |Unpack([], packed)| >= |packed|
  {
  }

  /** TDEFL_RLE_ZERO_CODE_SIZE. */
  method RleZeroCodeSize(packed: array<nat>, n0: nat, run: nat, count: array<nat>) returns (n: nat)
    requires packed != count && count.Length == 288 && run <= 138 && n0 + run <= packed.Length
    requires PackedSoFar(packed[..n0], count[..])
    modifies packed, count
    ensures n <= n0 + run && n <= packed.Length && PackedSoFar(packed[..n], count[..])
    ensures Unpack([], packed[..n]) == Unpack([], old(packed[..n0])) + Fill(0, run)
    ensures packed[..n] == old(packed[..n0]) + ZeroCode(run)
  {
    hide Unpack, WellFormed, HasCodes, Sum, PackedSoFar;
    n := n0;
    if run > 0 {
      Pow2Values();
      if run < 3 {
        n := PackPlain(packed, n0, 0, run, count);
      } else if run <= 10 {
        n := PackRun(packed, n0, 17, run - 3, count);
      } else {
        n := PackRun(packed, n0, 18, run - 11, count);
      }
    }
    PackedWellFormed(packed[..n], count[..]);
  }

  /** While packing: what is packed, a pending run of zeros or of the last length, and nothing lost. */
  ghost predicate Packing(sizes: seq<nat>, i: nat, packed: seq<nat>, count: seq<nat>, zeros: nat, repeat: nat, prev: nat)
  {
    && i <= |sizes| && (forall k :: 0 <= k < |sizes| ==> sizes[k] < 16)
    && PackedSoFar(packed, count) && zeros < 138 && repeat < 6
    && Unpack([], packed) + Fill(0, zeros) + Fill(prev, repeat) == sizes[..i]
    && (i == 0 ==> zeros == repeat == 0 && prev == 0xFF)
    && (i > 0 ==> prev == sizes[i - 1])
    && (i > 0 && prev == 0 ==> repeat == 0)
    && (i > 0 && prev != 0 ==> zeros == 0 && var u := Unpack([], packed); u != [] && u[|u| - 1] == prev)
  }

  lemma PackingBounds(sizes: seq<nat>, i: nat, packed: seq<nat>, count: seq<nat>, zeros: nat, repeat: nat, prev: nat)
    requires Packing(sizes, i, packed, count, zeros, repeat, prev)
    ensures |packed| + zeros + repeat <= i && PackedSoFar(packed, count) && WellFormed([], packed)
    ensures zeros < 138 && repeat < 6 && (repeat > 0 ==> prev < 16)
    ensures Unpack([], packed) + Fill(0, zeros) + Fill(prev, repeat) == sizes[..i]
    ensures i > 0 && prev == 0 ==> repeat == 0
    ensures i == 0 ==> zeros == repeat == 0 && prev == 0xFF
    ensures i > 0 && prev != 0 ==> zeros == 0 && var u := Unpack([], packed); u != [] && u[|u| - 1] == prev
  {
    hide Unpack, WellFormed;
    assert |Unpack([], packed) + Fill(0, zeros) + Fill(prev, repeat)| == i;
  }

  /** A zero: the pending run of the last length goes out, and one more zero is pending. */
  method PackZero(sizes: seq<nat>, i: nat, packed: array<nat>, n0: nat, count: array<nat>, zeros0: nat, repeat0: nat, prev: nat)
    returns (n: nat, zeros: nat)
    requires packed != count && count.Length == 288 && |sizes| <= packed.Length && i < |sizes| && n0 <= packed.Length
    requires Packing(sizes, i, packed[..n0], count[..], zeros0, repeat0, prev) && InForm(sizes, i, packed[..n0], zeros0, repeat0, prev) && sizes[i] == 0
    modifies packed, count
    ensures n <= packed.Length && Packing(sizes, i + 1, packed[..n], count[..], zeros, 0, 0) && InForm(sizes, i + 1, packed[..n], zeros, 0, 0)
  {
    hide Unpack, WellFormed, HasCodes, Sum, PackedSoFar, Fill, InForm, RepeatCode, ZeroCode;
    assert sizes[..i + 1] == sizes[..i] + [0];
    PackingBounds(sizes, i, packed[..n0], count[..], zeros0, repeat0, prev);
    FormBounds(sizes, i, packed[..n0], zeros0, repeat0, prev);
    if repeat0 > 0 { RepeatsOut(sizes, i, packed[..n0], repeat0, prev); }
    ghost var before := packed[..n0];
    n := RlePrevCodeSize(packed, n0, prev, repeat0, count);
    NoRepeats(prev);
    assert before + [] == before;
    OneMore(sizes, i, packed[..n], zeros0, 0, prev);
    FillMore(0, zeros0);
    FillMore(prev, 0);
    FillMore(0, 0);
    PackedWellFormed(packed[..n], count[..]);
    zeros := zeros0 + 1;
    if zeros == 138 {
      ZerosOut(sizes, i + 1, packed[..n], zeros, 0);
      n := RleZeroCodeSize(packed, n, zeros, count);
      zeros := 0;
    }
  }

  lemma NoRepeats(v: nat)
    ensures RepeatCode(v, 0) == [] && ZeroCode(0) == []
  {
  }

  lemma FormBounds(sizes: seq<nat>, i: nat, packed: seq<nat>, zeros: nat, repeat: nat, prev: nat)
    requires InForm(sizes, i, packed, zeros, repeat, prev)
    ensures (zeros > 0 ==> repeat == 0 && prev == 0) && (repeat > 0 ==> prev != 0)
  {
    hide Packed;
  }

  lemma FillMore(v: nat, n: nat)
    ensures Fill(v, n + 1) == Fill(v, n) + [v] && Fill(v, 0) == []
  {
  }

  /** Another length: pending zeros go out, and the length itself goes out or repeats the last one. */
  method PackNonzero(sizes: seq<nat>, i: nat, packed: array<nat>, n0: nat, count: array<nat>, zeros0: nat, repeat0: nat, prev: nat)
    returns (n: nat, repeat: nat)
    requires packed != count && count.Length == 288 && |sizes| <= packed.Length && i < |sizes| && n0 <= packed.Length
    requires Packing(sizes, i, packed[..n0], count[..], zeros0, repeat0, prev) && InForm(sizes, i, packed[..n0], zeros0, repeat0, prev) && sizes[i] != 0
    modifies packed, count
    ensures n <= packed.Length && Packing(sizes, i + 1, packed[..n], count[..], 0, repeat, sizes[i]) && InForm(sizes, i + 1, packed[..n], 0, repeat, sizes[i])
  {
    hide Unpack, WellFormed, HasCodes, Sum, PackedSoFar, Fill, InForm, RepeatCode, ZeroCode;
    var codeSize := sizes[i];
    assert sizes[..i + 1] == sizes[..i] + [codeSize];
    repeat := repeat0;
    PackingBounds(sizes, i, packed[..n0], count[..], zeros0, repeat, prev);
    FillMore(0, 0);
    FillMore(prev, repeat);
    FillMore(codeSize, 0);
    FormBounds(sizes, i, packed[..n0], zeros0, repeat0, prev);
    if zeros0 > 0 { ZerosOut(sizes, i, packed[..n0], zeros0, prev); }
    ghost var before := packed[..n0];
    n := RleZeroCodeSize(packed, n0, zeros0, count);
    NoRepeats(prev);
    assert before + [] == before;
    PackedWellFormed(packed[..n], count[..]);
    if codeSize != prev {
      RepeatsOut(sizes, i, packed[..n], repeat, prev);
      n := RlePrevCodeSize(packed, n, prev, repeat, count);
      PackedWellFormed(packed[..n], count[..]);
      repeat := 0;
      PlainOut(sizes, i, packed[..n], prev);
      n := PackPlain(packed, n, codeSize, 1, count);
      PackedWellFormed(packed[..n], count[..]);
    } else {
      OneMore(sizes, i, packed[..n], 0, repeat, prev);
      repeat := repeat + 1;
      if repeat == 6 {
        RepeatsOut(sizes, i + 1, packed[..n], repeat, prev);
        n := RlePrevCodeSize(packed, n, prev, repeat, count);
        PackedWellFormed(packed[..n], count[..]);
        repeat := 0;
      }
    }
  }

  /** The packing loop of tdefl_start_dynamic_block (src/http/miniz.c:1953-1977): the packed list is
      never longer than the lengths, and stands for exactly them, in runs as long as they can be. */
  method PackCodeSizes(sizes: seq<nat>, packed: array<nat>, count: array<nat>) returns (n: nat)
    requires packed != count && count.Length == 288 && |sizes| <= packed.Length
    requires forall k :: 0 <= k < |sizes| ==> sizes[k] < 16
    modifies packed, count
    ensures n <= |sizes| <= packed.Length && PackedSoFar(packed[..n], count[..])
    ensures Unpack([], packed[..n]) == sizes && packed[..n] == Packed(sizes, 0xFF)
  {
    hide Unpack, WellFormed, HasCodes, Sum, PackedSoFar, InForm, RepeatCode, ZeroCode;
    forall k | 0 <= k < 288 { count[k] := 0; }
    NothingPacked(count[..]);
    var zeros: nat, repeat: nat, prev: nat, i: nat := 0, 0, 0xFF, 0;
    n := 0;
    NothingInForm(sizes);
    assert packed[..0] == [] && sizes[..0] == [] && Fill(0, 0) == [] && Fill(0xFF, 0) == [];
    while i < |sizes|
      invariant 0 <= i <= |sizes| && n <= packed.Length
      invariant Packing(sizes, i, packed[..n], count[..], zeros, repeat, prev) && InForm(sizes, i, packed[..n], zeros, repeat, prev)
    {
      if sizes[i] == 0 {
        n, zeros := PackZero(sizes, i, packed, n, count, zeros, repeat, prev);
        repeat := 0;
      } else {
        n, repeat := PackNonzero(sizes, i, packed, n, count, zeros, repeat, prev);
        zeros := 0;
      }
      prev := sizes[i];
      i := i + 1;
    }
    assert sizes[..|sizes|] == sizes;
    PackingBounds(sizes, i, packed[..n], count[..], zeros, repeat, prev);
    FormBounds(sizes, i, packed[..n], zeros, repeat, prev);
    if repeat > 0 {
      RepeatsOut(sizes, i, packed[..n], repeat, prev);
      n := RlePrevCodeSize(packed, n, prev, repeat, count);
    } else {
      ZerosOut(sizes, i, packed[..n], zeros, prev);
      n := RleZeroCodeSize(packed, n, zeros, count);
    }
    AllInForm(sizes, packed[..n], prev);
  }

  lemma NothingInForm(sizes: seq<nat>)
    ensures InForm(sizes, 0, [], 0, 0, 0xFF)
  {
    assert sizes[0..] == sizes;
  }

  lemma AllInForm(sizes: seq<nat>, packed: seq<nat>, prev: nat)
    requires InForm(sizes, |sizes|, packed, 0, 0, prev)
    ensures packed == Packed(sizes, 0xFF)
  {
    assert Packed([], prev) == [];
    assert sizes[|sizes|..] == [];
  }

  lemma NothingPacked(count: seq<nat>)
    requires |count| == 288 && forall k :: 0 <= k < 288 ==> count[k] == 0
    ensures PackedSoFar([], count) && Unpack([], []) == []
  {
    ZerosSum(count[..19]);
  }

  lemma {:induction false} ZerosSum(s: seq<nat>)
    requires forall i :: 0 <= i < |s| ==> s[i] == 0
    ensures Sum(s) == 0
  {
    if s != [] {
      ZerosSum(s[1..]);
    }
  }
}
