/** Canonical Huffman codes (section 3.2.2 of RFC 1951): code lengths determine the code.
    Both the compressor (src/http/miniz.c:1871) and the decompressor (src/http/miniz.c:1508)
    derive their tables from the definitions of this module. */
module CanonicalCode {
  import opened Bits

  datatype Option<T> = None | Some(value: T)

  /** How many symbols have length l. */
  function CountLen(lens: seq<nat>, l: nat): (c: nat)
    ensures c <= |lens|
  {
    if lens == [] then 0
    else
      var last := |lens| - 1;
      CountLen(lens[..last], l) + (if lens[last] == l then 1 else 0)
  }

  /** The first codeword of length l, by the recurrence `code = (code + bl_count[l-1]) << 1`. */
  function NextCode(lens: seq<nat>, l: nat): nat
  {
    if l <= 1 then 0 else 2 * (NextCode(lens, l - 1) + CountLen(lens, l - 1))
  }

  /** The codeword of symbol s: codes of one length are consecutive in symbol order. */
  function Code(lens: seq<nat>, s: nat): nat
    requires s < |lens|
  {
    NextCode(lens, lens[s]) + CountLen(lens[..s], lens[s])
  }

  /** The codeword as sent: most significant bit first. */
  function Codeword(lens: seq<nat>, s: nat): (w: seq<bool>)
    requires s < |lens|
    ensures |w| == lens[s]
  {
    MsbBits(Code(lens, s), lens[s])
  }

  /** The codeword space up to length max is not over-subscribed (Kraft sum at most 1). */
  predicate Fits(lens: seq<nat>, max: nat)
  {
    && NextCode(lens, max + 1) <= Pow2(max + 1)
    && forall i :: 0 <= i < |lens| ==> lens[i] <= max
  }

  /** The codeword space is used up (Kraft sum exactly 1): the test at src/http/miniz.c:1515. */
  predicate Complete(lens: seq<nat>, max: nat)
  {
    && NextCode(lens, max + 1) == Pow2(max + 1)
    && forall i :: 0 <= i < |lens| ==> lens[i] <= max
  }

  /** x occurs in bits at position pos. */
  predicate At(bits: seq<bool>, pos: nat, x: seq<bool>)
  {
    pos + |x| <= |bits| && bits[pos..pos + |x|] == x
  }

  /** Reference decoder for one symbol: the first symbol, from s on, whose codeword occurs at pos. */
  function FindSym(lens: seq<nat>, bits: seq<bool>, pos: nat, s: nat): (r: Option<nat>)
    requires s <= |lens|
    ensures r.Some? ==> s <= r.value < |lens| && lens[r.value] > 0 && At(bits, pos, Codeword(lens, r.value))
    ensures r.None? ==> forall t :: s <= t < |lens| && lens[t] > 0 ==> !At(bits, pos, Codeword(lens, t))
    decreases |lens| - s
  {
    if s == |lens| then None
    else if lens[s] > 0 && At(bits, pos, Codeword(lens, s)) then Some(s)
    else FindSym(lens, bits, pos, s + 1)
  }

  function DecodeSym(lens: seq<nat>, bits: seq<bool>, pos: nat): (r: Option<nat>)
    ensures r.Some? ==> r.value < |lens| && lens[r.value] > 0 && At(bits, pos, Codeword(lens, r.value))
  {
    FindSym(lens, bits, pos, 0)
  }

  // ---------- counting ----------

  lemma {:induction false} CountLenAppend(a: seq<nat>, b: seq<nat>, l: nat)
    ensures CountLen(a + b, l) == CountLen(a, l) + CountLen(b, l)
  {
    if b == [] {
      assert a + b == a;
    } else {
      var last := |b| - 1;
      assert (a + b)[..|a + b| - 1] == a + b[..last];
      CountLenAppend(a, b[..last], l);
    }
  }

  /** Ranks among equal lengths increase strictly with the symbol. */
  lemma CountLenStrict(lens: seq<nat>, s: nat, t: nat)
    requires s < t <= |lens|
    ensures CountLen(lens[..s], lens[s]) < CountLen(lens[..t], lens[s])
  {
    var l := lens[s];
    assert lens[..t] == lens[..s + 1] + lens[s + 1..t];
    CountLenAppend(lens[..s + 1], lens[s + 1..t], l);
    assert lens[..s + 1][..s] == lens[..s];
  }

  lemma CodeBelowEnd(lens: seq<nat>, s: nat)
    requires s < |lens|
    ensures Code(lens, s) < NextCode(lens, lens[s]) + CountLen(lens, lens[s])
  {
    CountLenStrict(lens, s, |lens|);
    assert lens[..|lens|] == lens;
  }

  // ---------- room at every length ----------

  lemma {:induction false} FitsBelow(lens: seq<nat>, max: nat, l: nat)
    requires NextCode(lens, max + 1) <= Pow2(max + 1)
    requires l <= max
    ensures NextCode(lens, l + 1) <= Pow2(l + 1)
    ensures l >= 1 ==> NextCode(lens, l) + CountLen(lens, l) <= Pow2(l)
    decreases max - l
  {
    if l < max {
      FitsBelow(lens, max, l + 1);
    }
  }

  lemma CodeFits(lens: seq<nat>, max: nat, s: nat)
    requires Fits(lens, max) && s < |lens| && lens[s] > 0
    ensures Code(lens, s) < Pow2(lens[s])
  {
    CodeBelowEnd(lens, s);
    FitsBelow(lens, max, lens[s]);
  }

  /** All codewords of a longer length extend past every codeword of length a. */
  lemma {:induction false} NextCodeGrows(lens: seq<nat>, a: nat, b: nat)
    requires 1 <= a < b
    ensures NextCode(lens, b) >= (NextCode(lens, a) + CountLen(lens, a)) * Pow2(b - a)
    decreases b
  {
    var x := NextCode(lens, a) + CountLen(lens, a);
    if a + 1 == b {
      assert Pow2(b - a) == 2;
    } else {
      NextCodeGrows(lens, a, b - 1);
      TimesPow2Step(x, b - a - 1);
    }
  }

  lemma TimesPow2Step(x: nat, n: nat)
    ensures x * Pow2(n + 1) == 2 * (x * Pow2(n))
  {
    var p := Pow2(n);
    assert x * (2 * p) == 2 * (x * p);
  }

  // ---------- prefix freedom and unique decoding ----------

  lemma ShrAtLeast(v: nat, m: nat, x: nat)
    requires v >= x * Pow2(m)
    ensures Shr(v, m) >= x
  {
    var p, q := Pow2(m), Shr(v, m);
    if q < x {
      assert q * p + p <= x * p by { MulMono(q + 1, x, p); }
    }
  }

  lemma MulMono(a: nat, b: nat, p: nat)
    requires a <= b
    ensures a * p <= b * p
  {
  }

  lemma PrefixFreeOrdered(lens: seq<nat>, max: nat, s: nat, t: nat, bits: seq<bool>, pos: nat)
    requires Fits(lens, max)
    requires s < |lens| && t < |lens| && 0 < lens[s] <= lens[t]
    requires At(bits, pos, Codeword(lens, s)) && At(bits, pos, Codeword(lens, t))
    ensures s == t
  {
    var a, b := lens[s], lens[t];
    var m := b - a;
    CodeFits(lens, max, s);
    CodeFits(lens, max, t);
    MsbBitsPrefix(Code(lens, t), a, m);
    assert bits[pos..pos + b][..a] == bits[pos..pos + a];
    assert MsbBits(Shr(Code(lens, t), m), a) == MsbBits(Code(lens, s), a);
    if a == b {
      assert Shr(Code(lens, t), 0) == Code(lens, t);
      MsbBitsInjective(Code(lens, t), Code(lens, s), a);
      if s < t { CountLenStrict(lens, s, t); } else if t < s { CountLenStrict(lens, t, s); }
    } else {
      NextCodeGrows(lens, a, b);
      CodeBelowEnd(lens, s);
      ShrAtLeast(Code(lens, t), m, NextCode(lens, a) + CountLen(lens, a));
      ShrBound(Code(lens, t), m, a);
      MsbBitsInjective(Shr(Code(lens, t), m), Code(lens, s), a);
    }
  }

  lemma ShrBound(v: nat, m: nat, a: nat)
    requires v < Pow2(a + m)
    ensures Shr(v, m) < Pow2(a)
  {
    Pow2Add(a, m);
    if Shr(v, m) >= Pow2(a) {
      MulMono(Pow2(a), Shr(v, m), Pow2(m));
    }
  }

  /** No codeword is a prefix of another: two symbols can not both be read at one place. */
  lemma PrefixFree(lens: seq<nat>, max: nat, s: nat, t: nat, bits: seq<bool>, pos: nat)
    requires Fits(lens, max)
    requires s < |lens| && t < |lens| && lens[s] > 0 && lens[t] > 0
    requires At(bits, pos, Codeword(lens, s)) && At(bits, pos, Codeword(lens, t))
    ensures s == t
  {
    if lens[s] <= lens[t] {
      PrefixFreeOrdered(lens, max, s, t, bits, pos);
    } else {
      PrefixFreeOrdered(lens, max, t, s, bits, pos);
    }
  }

  /** What was sent for s is decoded as s, whatever follows it. */
  lemma DecodeCodeword(lens: seq<nat>, max: nat, s: nat, bits: seq<bool>, pos: nat)
    requires Fits(lens, max)
    requires s < |lens| && lens[s] > 0 && At(bits, pos, Codeword(lens, s))
    ensures DecodeSym(lens, bits, pos) == Some(s)
  {
    var r := DecodeSym(lens, bits, pos);
    assert r.Some?;
    PrefixFree(lens, max, r.value, s, bits, pos);
  }
}
