/** LZ77 tokens, their meaning as bytes and their coding as DEFLATE symbols with extra bits
    (section 3.2.5 of RFC 1951). */
module LzTokens {
  import opened Bits
  import opened CanonicalCode
  import opened Inflate

  datatype Token = Literal(b: Byte) | Match(len: nat, dist: nat)

  // ---------- meaning ----------

  predicate ValidToken(t: Token)
  {
    t.Match? ==> 3 <= t.len <= 258 && 1 <= t.dist <= 32768
  }

  function TokenLen(t: Token): nat
  {
    if t.Literal? then 1 else t.len
  }

  /** Every match reaches back to bytes that exist. */
  predicate Applicable(size: nat, ts: seq<Token>)
    decreases |ts|
  {
    ts == [] || (ValidToken(ts[0]) && (ts[0].Match? ==> ts[0].dist <= size) && Applicable(size + TokenLen(ts[0]), ts[1..]))
  }

  function Apply(out: seq<Byte>, t: Token): (r: seq<Byte>)
    requires t.Match? ==> 1 <= t.dist <= |out|
    ensures |r| == |out| + TokenLen(t)
  {
    if t.Literal? then out + [t.b] else CopyMatch(out, t.dist, t.len)
  }

  function Expand(out: seq<Byte>, ts: seq<Token>): (r: seq<Byte>)
    requires Applicable(|out|, ts)
    decreases |ts|
  {
    if ts == [] then out else Expand(Apply(out, ts[0]), ts[1..])
  }

  function TotalLen(ts: seq<Token>): nat
  {
    if ts == [] then 0 else TotalLen(ts[..|ts| - 1]) + TokenLen(ts[|ts| - 1])
  }

  lemma {:induction false} ExpandAppend(out: seq<Byte>, ts: seq<Token>, t: Token)
    requires Applicable(|out|, ts)
    requires ValidToken(t) && (t.Match? ==> t.dist <= |Expand(out, ts)|)
    ensures Applicable(|out|, ts + [t])
    ensures Expand(out, ts + [t]) == Apply(Expand(out, ts), t)
    decreases |ts|
  {
    if ts == [] {
      assert (ts + [t])[1..] == [];
    } else {
      var o := Apply(out, ts[0]);
      assert (ts + [t])[1..] == ts[1..] + [t];
      ExpandAppend(o, ts[1..], t);
    }
  }

  // ---------- symbols: the tables of the compressor (src/http/miniz.c:1767-1815) ----------

  /** s_tdefl_len_sym, indexed by match length - 3. */
  function LenSym(i: nat): nat
    requires i < 256
  {
    if i < 8 then 257 + i
    else if i < 16 then 265 + (i - 8) / 2
    else if i < 32 then 269 + (i - 16) / 4
    else if i < 64 then 273 + (i - 32) / 8
    else if i < 128 then 277 + (i - 64) / 16
    else if i < 255 then 281 + (i - 128) / 32
    else 285
  }

  /** s_tdefl_len_extra. */
  function LenExtra(i: nat): nat
    requires i < 256
  {
    if i < 8 then 0 else if i < 16 then 1 else if i < 32 then 2 else if i < 64 then 3
    else if i < 128 then 4 else if i < 255 then 5 else 0
  }

  /** s_tdefl_small_dist_sym, indexed by match distance - 1. */
  function SmallDistSym(i: nat): nat
    requires i < 512
  {
    if i < 4 then i
    else if i < 8 then 4 + (i - 4) / 2
    else if i < 16 then 6 + (i - 8) / 4
    else if i < 32 then 8 + (i - 16) / 8
    else if i < 64 then 10 + (i - 32) / 16
    else if i < 128 then 12 + (i - 64) / 32
    else if i < 256 then 14 + (i - 128) / 64
    else 16 + (i - 256) / 128
  }

  /** s_tdefl_small_dist_extra. */
  function SmallDistExtra(i: nat): nat
    requires i < 512
  {
    if i < 4 then 0 else if i < 8 then 1 else if i < 16 then 2 else if i < 32 then 3
    else if i < 64 then 4 else if i < 128 then 5 else if i < 256 then 6 else 7
  }

  /** s_tdefl_large_dist_sym, indexed by (match distance - 1) >> 8. */
  function LargeDistSym(i: nat): nat
    requires i < 128
  {
    if i < 2 then 0
    else if i < 4 then 18 + (i - 2)
    else if i < 8 then 20 + (i - 4) / 2
    else if i < 16 then 22 + (i - 8) / 4
    else if i < 32 then 24 + (i - 16) / 8
    else if i < 64 then 26 + (i - 32) / 16
    else 28 + (i - 64) / 32
  }

  /** s_tdefl_large_dist_extra. */
  function LargeDistExtra(i: nat): nat
    requires i < 128
  {
    if i < 2 then 0 else if i < 4 then 8 else if i < 8 then 9 else if i < 16 then 10
    else if i < 32 then 11 else if i < 64 then 12 else 13
  }

  function DistSym(d: nat): nat
    requires d < 32768
  {
    if d < 512 then SmallDistSym(d) else LargeDistSym(d / 256)
  }

  function DistExtraOf(d: nat): nat
    requires d < 32768
  {
    if d < 512 then SmallDistExtra(d) else LargeDistExtra(d / 256)
  }

  /** Each length falls in the decoder's range for its symbol, at the offset that the
      extra bits `match_len & mask` spell. */
  lemma LengthTables(i: nat)
    requires i < 256
    ensures 257 <= LenSym(i) <= 285
    ensures LengthExtra(LenSym(i) - 257) == LenExtra(i)
    ensures LengthBase(LenSym(i) - 257) + Mask(i, LenExtra(i)) == i + 3
  {
    Pow2Values();
    if i < 64 { LengthTablesLow(i); } else { LengthTablesHigh(i); }
  }

  lemma LengthTablesLow(i: nat)
    requires i < 64
    ensures 257 <= LenSym(i) <= 285
    ensures LengthExtra(LenSym(i) - 257) == LenExtra(i)
    ensures LengthBase(LenSym(i) - 257) + Mask(i, LenExtra(i)) == i + 3
  {
    Pow2Values();
    var k := LenSym(i) - 257;
    assert Pow2(0) == 1;
    if i < 8 {
      assert LengthBase(k) == 3 + k;
    } else if i < 16 {
      assert LengthBase(k) == 11 + 2 * (k - 8);
    } else if i < 32 {
      assert LengthBase(k) == 19 + 4 * (k - 12);
    } else {
      assert LengthBase(k) == 35 + 8 * (k - 16);
    }
  }

  lemma LengthTablesHigh(i: nat)
    requires 64 <= i < 256
    ensures 257 <= LenSym(i) <= 285
    ensures LengthExtra(LenSym(i) - 257) == LenExtra(i)
    ensures LengthBase(LenSym(i) - 257) + Mask(i, LenExtra(i)) == i + 3
  {
    Pow2Values();
    var k := LenSym(i) - 257;
    assert Pow2(0) == 1;
    if i < 128 {
      assert LengthBase(k) == 67 + 16 * (k - 20);
    } else if i < 255 {
      assert LengthBase(k) == 131 + 32 * (k - 24);
    } else {
      assert LengthBase(k) == 258;
    }
  }

  lemma DistTables(d: nat)
    requires d < 32768
    ensures DistSym(d) <= 29
    ensures DistExtra(DistSym(d)) == DistExtraOf(d)
    ensures DistBase(DistSym(d)) + Mask(d, DistExtraOf(d)) == d + 1
  {
    if d < 512 { DistTablesSmall(d); } else { DistTablesLarge(d); }
  }
  lemma DistTablesSmall(d: nat)
    requires d < 512
    ensures SmallDistSym(d) <= 29
    ensures DistExtra(SmallDistSym(d)) == SmallDistExtra(d)
    ensures DistBase(SmallDistSym(d)) + Mask(d, SmallDistExtra(d)) == d + 1
  {
    if d < 32 { DistTablesTiny(d); } else { DistTablesMiddle(d); }
  }

  lemma DistTablesTiny(d: nat)
    requires d < 32
    ensures SmallDistSym(d) <= 29
    ensures DistExtra(SmallDistSym(d)) == SmallDistExtra(d)
    ensures DistBase(SmallDistSym(d)) + Mask(d, SmallDistExtra(d)) == d + 1
  {
    var k := SmallDistSym(d);
    Pow2Values();
    assert Pow2(0) == 1;
    if d < 4 {
      assert DistBase(k) == 1 + k;
    } else if d < 8 {
      assert DistBase(k) == 5 + 2 * (k - 4);
    } else if d < 16 {
      assert DistBase(k) == 9 + 4 * (k - 6);
    } else {
      assert DistBase(k) == 17 + 8 * (k - 8);
    }
  }

  lemma DistTablesMiddle(d: nat)
    requires 32 <= d < 512
    ensures SmallDistSym(d) <= 29
    ensures DistExtra(SmallDistSym(d)) == SmallDistExtra(d)
    ensures DistBase(SmallDistSym(d)) + Mask(d, SmallDistExtra(d)) == d + 1
  {
    var k := SmallDistSym(d);
    Pow2Values();
    assert Pow2(6) == 64;
    if d < 64 {
      assert DistBase(k) == 33 + 16 * (k - 10);
    } else if d < 128 {
      assert DistBase(k) == 65 + 32 * (k - 12);
    } else if d < 256 {
      assert DistBase(k) == 129 + 64 * (k - 14);
    } else {
      assert DistBase(k) == 257 + 128 * (k - 16);
    }
  }

  lemma DistTablesLarge(d: nat)
    requires 512 <= d < 32768
    ensures LargeDistSym(d / 256) <= 29
    ensures DistExtra(LargeDistSym(d / 256)) == LargeDistExtra(d / 256)
    ensures DistBase(LargeDistSym(d / 256)) + Mask(d, LargeDistExtra(d / 256)) == d + 1
  {
    var h, l := d / 256, d % 256;
    assert d == 256 * h + l;
    LargeTables(h);
    HighMask(h, l, LargeDistExtra(h));
  }

  /** The entry for the high byte h, and the offset of 256 * h in its range. */
  lemma LargeTables(h: nat)
    requires 2 <= h < 128
    ensures 18 <= LargeDistSym(h) <= 29 && LargeDistExtra(h) >= 8
    ensures DistExtra(LargeDistSym(h)) == LargeDistExtra(h)
    ensures DistBase(LargeDistSym(h)) + 256 * (h % Pow2(LargeDistExtra(h) - 8)) == 256 * h + 1
  {
    assert Pow2(0) == 1 && Pow2(1) == 2 && Pow2(2) == 4 && Pow2(3) == 8 && Pow2(4) == 16 && Pow2(5) == 32;
    if h < 16 { LargeTablesLow(h); } else { LargeTablesHigh(h); }
  }

  lemma LargeTablesLow(h: nat)
    requires 2 <= h < 16
    ensures 18 <= LargeDistSym(h) <= 23 && LargeDistExtra(h) >= 8
    ensures DistExtra(LargeDistSym(h)) == LargeDistExtra(h)
    ensures DistBase(LargeDistSym(h)) + 256 * (h % Pow2(LargeDistExtra(h) - 8)) == 256 * h + 1
  {
    assert Pow2(0) == 1 && Pow2(1) == 2 && Pow2(2) == 4;
  }

  lemma LargeTablesHigh(h: nat)
    requires 16 <= h < 128
    ensures 24 <= LargeDistSym(h) <= 29 && LargeDistExtra(h) >= 8
    ensures DistExtra(LargeDistSym(h)) == LargeDistExtra(h)
    ensures DistBase(LargeDistSym(h)) + 256 * (h % Pow2(LargeDistExtra(h) - 8)) == 256 * h + 1
  {
    assert Pow2(3) == 8 && Pow2(4) == 16 && Pow2(5) == 32;
  }

  lemma HighMask(h: nat, l: nat, x: nat)
    requires l < 256 && x >= 8
    ensures Mask(256 * h + l, x) == 256 * (h % Pow2(x - 8)) + l
  {
    Pow2Add(8, x - 8);
    Pow2Values();
    var q, r, p := h / Pow2(x - 8), h % Pow2(x - 8), Pow2(x - 8);
    assert h == q * p + r by { DivMod(h, p); }
    HighMaskAlgebra(h, l, q, r, p);
    DivUnique(256 * h + l, Pow2(x), q, 256 * r + l);
  }

  lemma HighMaskAlgebra(h: nat, l: nat, q: nat, r: nat, p: nat)
    requires h == q * p + r && r < p && l < 256
    ensures 256 * h + l == q * (256 * p) + (256 * r + l) && 256 * r + l < 256 * p
  {
  }
}
