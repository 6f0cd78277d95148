/** Bit strings in the order DEFLATE packs them (section 3.1.1 of RFC 1951):
    the first bit of a byte, and of a number, is its least significant one. */
module Bits {

  type Byte = x: int | 0 <= x < 256

  /** 2 to the power n; `1 << n` in the program. */
  function Pow2(n: nat): (p: nat)
    ensures p >= 1
  {
    if n == 0 then 1 else 2 * Pow2(n - 1)
  }

  /** `v & ((1 << n) - 1)`. */
  function Mask(v: nat, n: nat): (r: nat)
    ensures r < Pow2(n)
  {
    v % Pow2(n)
  }

  /** `v >> n`. */
  function Shr(v: nat, n: nat): (r: nat)
    ensures Mask(v, n) + r * Pow2(n) == v
  {
    DivMod(v, Pow2(n));
    v / Pow2(n)
  }

  /** The n low bits of v, least significant first. */
  function ToBits(v: nat, n: nat): (b: seq<bool>)
    ensures |b| == n
  {
    if n == 0 then [] else [v % 2 == 1] + ToBits(v / 2, n - 1)
  }

  /** The number that a bit string spells, least significant bit first. */
  function FromBits(b: seq<bool>): (v: nat)
    ensures v < Pow2(|b|)
  {
    if b == [] then 0 else (if b[0] then 1 else 0) + 2 * FromBits(b[1..])
  }

  /** The n low bits of v, most significant first: how Huffman codewords are packed. */
  function MsbBits(v: nat, n: nat): (b: seq<bool>)
    ensures |b| == n
  {
    if n == 0 then [] else MsbBits(v / 2, n - 1) + [v % 2 == 1]
  }

  function BytesToBits(s: seq<Byte>): (b: seq<bool>)
    ensures |b| == 8 * |s|
  {
    if s == [] then [] else ToBits(s[0], 8) + BytesToBits(s[1..])
  }

  // ---------- powers of two ----------

  lemma {:induction false} Pow2Add(a: nat, b: nat)
    ensures Pow2(a + b) == Pow2(a) * Pow2(b)
  {
    if a == 0 {
    } else {
      Pow2Add(a - 1, b);
    }
  }

  lemma {:induction false} Pow2Mono(a: nat, b: nat)
    requires a <= b
    ensures Pow2(a) <= Pow2(b)
    decreases b
  {
    if a < b {
      Pow2Mono(a, b - 1);
    }
  }

  /** Pow2 at the widths the program uses as constants. */
  lemma Pow2Values()
    ensures Pow2(1) == 2 && Pow2(2) == 4 && Pow2(3) == 8 && Pow2(4) == 16 && Pow2(5) == 32
    ensures Pow2(7) == 128 && Pow2(8) == 256 && Pow2(13) == 8192 && Pow2(15) == 32768 && Pow2(16) == 65536
  {
    assert Pow2(4) == 16;
    assert Pow2(8) == 256;
    assert Pow2(12) == 4096;
  }

  lemma DivMod(v: nat, p: nat)
    requires p > 0
    ensures v / p >= 0 && v % p + (v / p) * p == v
  {
  }

  // ---------- numbers and their bits ----------

  lemma {:induction false} FromToBits(v: nat, n: nat)
    requires v < Pow2(n)
    ensures FromBits(ToBits(v, n)) == v
  {
    if n == 0 {
    } else {
      FromToBits(v / 2, n - 1);
      assert ToBits(v, n)[1..] == ToBits(v / 2, n - 1);
    }
  }

  lemma {:induction false} ToFromBits(b: seq<bool>)
    ensures ToBits(FromBits(b), |b|) == b
  {
    if b == [] {
    } else {
      ToFromBits(b[1..]);
      assert FromBits(b) / 2 == FromBits(b[1..]);
    }
  }

  /** Writing w above the a low bits of v appends its bits: what `v | (w << a)` does. */
  lemma {:induction false} ToBitsAppend(v: nat, a: nat, w: nat, b: nat)
    requires v < Pow2(a)
    ensures v + w * Pow2(a) >= 0
    ensures ToBits(v + w * Pow2(a), a + b) == ToBits(v, a) + ToBits(w, b)
  {
    if a == 0 {
      assert v + w * Pow2(a) == w;
    } else {
      var p := Pow2(a - 1);
      assert w * Pow2(a) == 2 * (w * p);
      assert (v + w * Pow2(a)) / 2 == v / 2 + w * p;
      assert (v + w * Pow2(a)) % 2 == v % 2;
      ToBitsAppend(v / 2, a - 1, w, b);
    }
  }

  /** Splitting a number at bit a: `v & mask` below, `v >> a` above. */
  lemma {:induction false} ToBitsSplit(v: nat, a: nat, b: nat)
    ensures ToBits(v, a + b) == ToBits(Mask(v, a), a) + ToBits(Shr(v, a), b)
  {
    ToBitsAppend(Mask(v, a), a, Shr(v, a), b);
  }

  lemma {:induction false} ToBitsLow(v: nat, n: nat)
    ensures ToBits(Mask(v, n), n) == ToBits(v, n)
  {
    ToBitsSplit(v, n, 0);
    assert ToBits(v, n + 0) == ToBits(v, n);
  }

  lemma {:induction false} ToBitsInjective(v: nat, w: nat, n: nat)
    requires v < Pow2(n) && w < Pow2(n)
    requires ToBits(v, n) == ToBits(w, n)
    ensures v == w
  {
    FromToBits(v, n);
    FromToBits(w, n);
  }

  lemma DoubleProduct(p: nat, f: nat)
    ensures 2 * p * f == 2 * (p * f)
  {
  }

  lemma FirstBit(b: seq<bool>)
    requires b != []
    ensures FromBits(b) == (if b[0] then 1 else 0) + 2 * FromBits(b[1..])
  {
  }

  lemma {:induction false} FromBitsAppend(b: seq<bool>, c: seq<bool>)
    ensures FromBits(b + c) == FromBits(b) + Pow2(|b|) * FromBits(c)
  {
    if b == [] {
      assert b + c == c;
    } else {
      FromBitsAppend(b[1..], c);
      assert (b + c)[1..] == b[1..] + c;
      var p, f, g := Pow2(|b| - 1), FromBits(c), FromBits(b[1..]);
      assert FromBits(b[1..] + c) == g + p * f;
      assert Pow2(|b|) == 2 * p;
      hide Pow2, FromBits;
      DoubleProduct(p, f);
      FirstBit(b + c);
      FirstBit(b);
    }
  }

  // ---------- bytes and their bits ----------

  lemma {:induction false} BytesToBitsAppend(s: seq<Byte>, t: seq<Byte>)
    ensures BytesToBits(s + t) == BytesToBits(s) + BytesToBits(t)
  {
    if s == [] {
      assert s + t == t;
    } else {
      hide ToBits;
      BytesToBitsAppend(s[1..], t);
      assert (s + t)[1..] == s[1..] + t;
      assert ToBits(s[0], 8) + (BytesToBits(s[1..]) + BytesToBits(t)) == ToBits(s[0], 8) + BytesToBits(s[1..]) + BytesToBits(t);
    }
  }

  lemma BytesToBitsSnoc(s: seq<Byte>, b: Byte)
    ensures BytesToBits(s + [b]) == BytesToBits(s) + ToBits(b, 8)
  {
    BytesToBitsAppend(s, [b]);
    assert BytesToBits([b]) == ToBits(b, 8) + BytesToBits([]);
  }

  /** Bytes are recovered from their bits, so a bit string has one packing into bytes. */
  lemma {:induction false} BytesToBitsInjective(s: seq<Byte>, t: seq<Byte>)
    requires BytesToBits(s) == BytesToBits(t)
    ensures s == t
  {
    assert |s| == |t|;
    if s == [] {
    } else {
      var a, b := BytesToBits(s), BytesToBits(t);
      assert a[..8] == ToBits(s[0], 8) && b[..8] == ToBits(t[0], 8);
      assert a[8..] == BytesToBits(s[1..]) && b[8..] == BytesToBits(t[1..]);
      Pow2Values();
      ToBitsInjective(s[0], t[0], 8);
      BytesToBitsInjective(s[1..], t[1..]);
    }
  }

  // ---------- most-significant-first codewords ----------

  /** The bit reversal loop of the table builders (src/http/miniz.c:1901 and 1522). */
  function Reverse(code: nat, n: nat): (r: nat)
    ensures r < Pow2(n)
  {
    if n == 0 then 0 else (code % 2) * Pow2(n - 1) + Reverse(code / 2, n - 1)
  }

  /** Writing the reversed code least significant bit first sends the codeword most
      significant bit first. */
  lemma {:induction false} ReverseBits(code: nat, n: nat)
    ensures ToBits(Reverse(code, n), n) == MsbBits(code, n)
  {
    if n == 0 {
    } else {
      var r := Reverse(code / 2, n - 1);
      ReverseBits(code / 2, n - 1);
      ToBitsAppend(r, n - 1, code % 2, 1);
      assert ToBits(code % 2, 1) == [code % 2 == 1] + ToBits(code % 2 / 2, 0);
      assert r + (code % 2) * Pow2(n - 1) == Reverse(code, n);
      assert ToBits(Reverse(code, n), n - 1 + 1) == ToBits(r, n - 1) + [code % 2 == 1];
    }
  }

  lemma {:induction false} MsbBitsInjective(v: nat, w: nat, n: nat)
    requires v < Pow2(n) && w < Pow2(n)
    requires MsbBits(v, n) == MsbBits(w, n)
    ensures v == w
  {
    if n > 0 {
      var a, b := MsbBits(v, n), MsbBits(w, n);
      assert a[..n - 1] == MsbBits(v / 2, n - 1) && b[..n - 1] == MsbBits(w / 2, n - 1);
      assert a[n - 1] == (v % 2 == 1) && b[n - 1] == (w % 2 == 1);
      MsbBitsInjective(v / 2, w / 2, n - 1);
    }
  }

  /** The first n of n + m bits, most significant first, are the bits of v / 2^m. */
  lemma {:induction false} MsbBitsPrefix(v: nat, n: nat, m: nat)
    ensures MsbBits(v, n + m)[..n] == MsbBits(Shr(v, m), n)
  {
    if m == 0 {
      assert Shr(v, 0) == v;
    } else {
      MsbBitsPrefix(v / 2, n, m - 1);
      ShrShr(v, m);
      assert MsbBits(v, n + m) == MsbBits(v / 2, n + m - 1) + [v % 2 == 1];
      assert MsbBits(v, n + m)[..n] == MsbBits(v / 2, n + m - 1)[..n];
    }
  }

  lemma ShrShr(v: nat, m: nat)
    requires m > 0
    ensures Shr(v / 2, m - 1) == Shr(v, m)
  {
    var p, q, r := Pow2(m - 1), Shr(v, m), Mask(v, m);
    assert v == 2 * (q * p) + r by { assert q * (2 * p) == 2 * (q * p); }
    assert v / 2 == q * p + r / 2;
    DivUnique(v / 2, p, q, r / 2);
  }

  lemma ModPlus(x: nat, p: nat, k: nat)
    requires p > 0
    ensures (x + k * p) % p == x % p
  {
    DivMod(x, p);
    DivUnique(x + k * p, p, x / p + k, x % p);
  }

  lemma DivUnique(v: nat, p: nat, q: nat, r: nat)
    requires p > 0 && v == q * p + r && r < p
    ensures v / p == q && v % p == r
  {
    var d: int := v / p - q;
    DivMod(v, p);
    assert d * p == r - v % p;
  }
}
