/** What the decoder still has to do at each place where it can be suspended, as functions of the rest of
    the stream: the reference decoder (module Inflate) taken apart at the case labels of
    tinfl_decompress (src/http/miniz.c:1457-1670). */
module TinflSpec {
  import opened Bits
  import opened CanonicalCode
  import opened Inflate
  import opened Blocks
  import opened BlockFormat

  // ---------- between blocks ----------

  /** After a block: the end, or the next block. */
  function Rest(bits: seq<bool>, final: bool, x: Option<Result>): Option<Result>
  {
    match x
    case None => None
    case Some(b) => if final then x else InflateFrom(bits, b.pos, b.out)
  }

  /** The three bits of a block header. */
  lemma AtHead(bits: seq<bool>, pos: nat, out: seq<Byte>)
    requires InflateFrom(bits, pos, out).Some?
    ensures pos + 3 <= |bits| && InflateFrom(bits, pos, out) == Rest(bits, bits[pos], InflateBlock(bits, pos, out))
    ensures var v := FromBits(bits[pos..pos + 3]); (v % 2 == 1 <==> bits[pos]) && v / 2 == FromBits(bits[pos + 1..pos + 3])
  {
    hide InflateBlock;
    var w := bits[pos..pos + 3];
    FirstBit(w);
    assert w[1..] == bits[pos + 1..pos + 3];
  }

  // ---------- stored blocks ----------

  /** `left` bytes from pos on, to be copied. */
  function Copied(bits: seq<bool>, final: bool, pos: nat, left: nat, out: seq<Byte>): Option<Result>
    requires pos + 8 * left <= |bits|
  {
    Rest(bits, final, Some(Result(out + BytesAt(bits, pos, left), pos + 8 * left)))
  }

  /** The lengths are read: what is left is to copy the bytes. */
  lemma AtLengths(bits: seq<bool>, final: bool, p: nat, out: seq<Byte>)
    requires p % 8 == 0 && Rest(bits, final, InflateStored(bits, p, out)).Some?
    ensures p + 32 <= |bits|
    ensures var len, nlen := FromBits(bits[p..p + 16]), FromBits(bits[p + 16..p + 32]);
            len + nlen == 0xFFFF && p + 32 + 8 * len <= |bits| && Copied(bits, final, p + 32, len, out) == Rest(bits, final, InflateStored(bits, p, out))
  {
    hide FromBits, BytesAt, InflateFrom;
  }

  /** Four bytes are the two lengths. */
  lemma LengthBytes(bits: seq<bool>, p: nat)
    requires p + 16 <= |bits|
    ensures FromBits(bits[p..p + 16]) == FromBits(bits[p..p + 8]) + 256 * FromBits(bits[p + 8..p + 16])
  {
    hide FromBits;
    Pow2Values();
    assert bits[p..p + 16] == bits[p..p + 8] + bits[p + 8..p + 16];
    FromBitsAppend(bits[p..p + 8], bits[p + 8..p + 16]);
  }

  /** One byte copied. */
  lemma CopiedOne(bits: seq<bool>, final: bool, pos: nat, left: nat, out: seq<Byte>)
    requires pos + 8 * left <= |bits| && left > 0
    ensures FromBits(bits[pos..pos + 8]) < 256
    ensures Copied(bits, final, pos, left, out) == Copied(bits, final, pos + 8, left - 1, out + [FromBits(bits[pos..pos + 8])])
  {
    hide FromBits, InflateFrom;
    Pow2Values();
    var c := FromBits(bits[pos..pos + 8]);
    var b: Byte := c;
    assert BytesAt(bits, pos, left) == [b] + BytesAt(bits, pos + 8, left - 1);
    assert out + ([b] + BytesAt(bits, pos + 8, left - 1)) == out + [b] + BytesAt(bits, pos + 8, left - 1);
  }

  lemma CopiedNone(bits: seq<bool>, final: bool, pos: nat, out: seq<Byte>)
    requires pos <= |bits|
    ensures Copied(bits, final, pos, 0, out) == if final then Some(Result(out, pos)) else InflateFrom(bits, pos, out)
  {
    hide InflateFrom;
    assert out + BytesAt(bits, pos, 0) == out;
  }

  // ---------- code tables ----------

  function WithTables(bits: seq<bool>, final: bool, t: Option<Tables>, out: seq<Byte>): Option<Result>
    requires t.Some? ==> t.value.pos <= |bits|
  {
    match t
    case None => None
    case Some(t) => Rest(bits, final, InflateCodes(t.lit, t.dist, bits, t.pos, out))
  }

  /** The two code tables out of the list of code lengths. */
  function SplitTables(nlit: nat, r: Option<(seq<nat>, nat)>): Option<Tables>
    requires r.Some? ==> nlit <= |r.value.0|
  {
    match r
    case None => None
    case Some((lens, p)) =>
      if Accepted(lens[..nlit]) && Accepted(lens[nlit..]) then Some(Tables(lens[..nlit], lens[nlit..], p)) else None
  }

  /** From the code length code on. */
  function FromCl(bits: seq<bool>, nlit: nat, ndist: nat, cl: Option<seq<nat>>, p: nat): (r: Option<Tables>)
    requires p <= |bits|
    ensures r.Some? ==> r.value.pos <= |bits|
  {
    match cl
    case None => None
    case Some(c) => if !Accepted(c) then None else SplitTables(nlit, InflateLens(c, bits, p, nlit + ndist, []))
  }

  /** The three table sizes. */
  lemma AtSizes(bits: seq<bool>, pos: nat)
    requires pos <= |bits| && InflateTables(bits, pos).Some?
    ensures pos + 14 <= |bits|
    ensures var nlit, ndist, ncl := FromBits(bits[pos..pos + 5]) + 257, FromBits(bits[pos + 5..pos + 10]) + 1, FromBits(bits[pos + 10..pos + 14]) + 4;
            && nlit <= 288 && ndist <= 32 && ncl <= 19 && pos + 14 + 3 * ncl <= |bits|
            && InflateTables(bits, pos) == FromCl(bits, nlit, ndist, InflateCl(bits, pos + 14, 0, ncl, Fill(0, 19)), pos + 14 + 3 * ncl)
  {
    hide FromBits, InflateCl, InflateLens, Accepted;
    SizeBounds(bits, pos);
  }

  lemma SizeBounds(bits: seq<bool>, pos: nat)
    requires pos + 14 <= |bits|
    ensures FromBits(bits[pos..pos + 5]) < 32 && FromBits(bits[pos + 5..pos + 10]) < 32 && FromBits(bits[pos + 10..pos + 14]) < 16
  {
    hide FromBits;
    Pow2Values();
  }

  lemma AtCl(bits: seq<bool>, pos: nat, i: nat, n: nat, cl: seq<nat>)
    requires i < n <= 19 && |cl| == 19 && pos <= |bits| && InflateCl(bits, pos, i, n, cl).Some?
    ensures pos + 3 <= |bits| && FromBits(bits[pos..pos + 3]) < 8
    ensures InflateCl(bits, pos, i, n, cl) == InflateCl(bits, pos + 3, i + 1, n, cl[Dezigzag(i) := FromBits(bits[pos..pos + 3])])
  {
    hide FromBits, Dezigzag;
    Pow2Values();
  }

  /** The length symbol at hand, with its extra bits still to read. */
  function RepeatRest(cl: seq<nat>, bits: seq<bool>, p: nat, total: nat, acc: seq<nat>, sym: nat): (r: Option<(seq<nat>, nat)>)
    requires p <= |bits| && 16 <= sym <= 18 && (sym == 16 ==> acc != [])
    ensures r.Some? ==> |r.value.0| == total && r.value.1 <= |bits|
  {
    match ReadBits(bits, p, RepeatExtra(sym))
    case None => None
    case Some(x) => InflateLens(cl, bits, p + RepeatExtra(sym), total, acc + Fill(if sym == 16 then acc[|acc| - 1] else 0, RepeatBase(sym) + x))
  }

  lemma AtLens(cl: seq<nat>, bits: seq<bool>, pos: nat, total: nat, acc: seq<nat>)
    requires pos <= |bits| && InflateLens(cl, bits, pos, total, acc).Some?
    ensures |acc| <= total && (|acc| == total ==> InflateLens(cl, bits, pos, total, acc) == Some((acc, pos)))
    ensures |acc| < total ==>
      && DecodeSym(cl, bits, pos).Some?
      && var sym := DecodeSym(cl, bits, pos).value;
         && pos + cl[sym] <= |bits| && sym <= 18 && (sym == 16 ==> acc != [])
         && InflateLens(cl, bits, pos, total, acc)
            == if sym < 16 then InflateLens(cl, bits, pos + cl[sym], total, acc + [sym]) else RepeatRest(cl, bits, pos + cl[sym], total, acc, sym)
  {
    hide DecodeSym, ReadBits;
  }

  lemma AtRepeat(cl: seq<nat>, bits: seq<bool>, p: nat, total: nat, acc: seq<nat>, sym: nat)
    requires p <= |bits| && 16 <= sym <= 18 && (sym == 16 ==> acc != []) && RepeatRest(cl, bits, p, total, acc, sym).Some?
    ensures p + RepeatExtra(sym) <= |bits|
    ensures var x := FromBits(bits[p..p + RepeatExtra(sym)]);
            && x < 128 && RepeatRest(cl, bits, p, total, acc, sym)
               == InflateLens(cl, bits, p + RepeatExtra(sym), total, acc + Fill(if sym == 16 then acc[|acc| - 1] else 0, RepeatBase(sym) + x))
  {
    hide FromBits, InflateLens;
    Pow2Values();
  }

  // ---------- compressed data ----------

  /** After a distance symbol: its extra bits, the copy, and the rest. */
  function AfterDist(lit: seq<nat>, dist: seq<nat>, bits: seq<bool>, pos: nat, out: seq<Byte>, len: nat, base: nat, extra: nat): Option<Result>
  {
    match ReadBits(bits, pos, extra)
    case None => None
    case Some(dx) =>
      if base + dx > |out| || base + dx == 0 then None else InflateCodes(lit, dist, bits, pos + extra, CopyMatch(out, base + dx, len))
  }

  /** After a length: the distance, the copy, and the rest. */
  function AfterLen(lit: seq<nat>, dist: seq<nat>, bits: seq<bool>, pos: nat, out: seq<Byte>, len: nat): Option<Result>
  {
    match DecodeSym(dist, bits, pos)
    case None => None
    case Some(s) => if s > 29 then None else AfterDist(lit, dist, bits, pos + dist[s], out, len, DistBase(s), DistExtra(s))
  }

  /** After a length symbol: its extra bits, and so on. */
  function AfterSym(lit: seq<nat>, dist: seq<nat>, bits: seq<bool>, pos: nat, out: seq<Byte>, base: nat, extra: nat): Option<Result>
  {
    match ReadBits(bits, pos, extra)
    case None => None
    case Some(lx) => AfterLen(lit, dist, bits, pos + extra, out, base + lx)
  }

  lemma AtCodes(lit: seq<nat>, dist: seq<nat>, bits: seq<bool>, pos: nat, out: seq<Byte>)
    requires pos <= |bits| && InflateCodes(lit, dist, bits, pos, out).Some?
    ensures DecodeSym(lit, bits, pos).Some?
    ensures var sym := DecodeSym(lit, bits, pos).value;
            var p := pos + lit[sym];
            && p <= |bits| && sym <= 285
            && InflateCodes(lit, dist, bits, pos, out)
               == if sym < 256 then InflateCodes(lit, dist, bits, p, out + [sym])
                  else if sym == 256 then Some(Result(out, p))
                  else AfterSym(lit, dist, bits, p, out, LengthBase(sym - 257), LengthExtra(sym - 257))
  {
    hide DecodeSym, ReadBits, LengthBase, LengthExtra, DistBase, DistExtra, CopyMatch;
    var sym := DecodeSym(lit, bits, pos).value;
    DecodedInside(lit, bits, pos);
    if sym > 256 { MatchParts(lit, dist, bits, pos + lit[sym], out, sym); }
  }

  lemma DecodedInside(lens: seq<nat>, bits: seq<bool>, pos: nat)
    requires DecodeSym(lens, bits, pos).Some?
    ensures pos + lens[DecodeSym(lens, bits, pos).value] <= |bits|
  {
  }

  lemma MatchParts(lit: seq<nat>, dist: seq<nat>, bits: seq<bool>, p: nat, out: seq<Byte>, sym: nat)
    requires p <= |bits| && sym > 256 && InflateMatch(lit, dist, bits, p, out, sym).Some?
    ensures sym <= 285 && InflateMatch(lit, dist, bits, p, out, sym) == AfterSym(lit, dist, bits, p, out, LengthBase(sym - 257), LengthExtra(sym - 257))
  {
    hide DecodeSym, ReadBits, LengthBase, LengthExtra, DistBase, DistExtra, CopyMatch, InflateCodes;
  }

  lemma LengthBounds(sym: nat)
    requires 257 <= sym <= 285
    ensures LengthExtra(sym - 257) <= 5 && 3 <= LengthBase(sym - 257) <= 258
  {
  }

  /** No distance is beyond the window. */
  lemma DistanceBounds(sym: nat)
    requires sym < 30
    ensures DistExtra(sym) <= 13 && DistBase(sym) + Pow2(DistExtra(sym)) <= 32769
  {
    DistExtraIs(sym);
    hide DistBase, DistExtra, Pow2;
    if sym < 16 { DistLow(sym); } else { DistHigh(sym); }
    SmallPowers(DistExtra(sym));
  }

  lemma DistExtraIs(sym: nat)
    requires sym < 30
    ensures DistExtra(sym) == if sym < 4 then 0 else sym / 2 - 1
  {
  }

  lemma SmallPowers(x: nat)
    requires x <= 13
    ensures Pow2(x) == [1, 2, 4, 8, 16, 32, 64, 128, 256, 512, 1024, 2048, 4096, 8192][x]
  {
    if x > 0 { SmallPowers(x - 1); }
  }

  lemma DistLow(sym: nat)
    requires sym < 16
    ensures DistBase(sym) <= 193
  {
  }

  lemma DistHigh(sym: nat)
    requires 16 <= sym < 30
    ensures DistBase(sym) + [128, 256, 512, 1024, 2048, 4096, 8192][sym / 2 - 8] <= 32769
  {
  }

  lemma AtSymbol(lit: seq<nat>, dist: seq<nat>, bits: seq<bool>, pos: nat, out: seq<Byte>, base: nat, extra: nat)
    requires AfterSym(lit, dist, bits, pos, out, base, extra).Some?
    ensures pos + extra <= |bits|
    ensures AfterSym(lit, dist, bits, pos, out, base, extra) == AfterLen(lit, dist, bits, pos + extra, out, base + FromBits(bits[pos..pos + extra]))
    ensures extra == 0 ==> FromBits(bits[pos..pos + extra]) == 0
  {
    hide AfterLen;
  }

  lemma AtLength(lit: seq<nat>, dist: seq<nat>, bits: seq<bool>, pos: nat, out: seq<Byte>, len: nat)
    requires AfterLen(lit, dist, bits, pos, out, len).Some?
    ensures DecodeSym(dist, bits, pos).Some?
    ensures var s := DecodeSym(dist, bits, pos).value;
            s <= 29 && AfterLen(lit, dist, bits, pos, out, len) == AfterDist(lit, dist, bits, pos + dist[s], out, len, DistBase(s), DistExtra(s))
  {
    hide AfterDist, DecodeSym, DistBase, DistExtra;
  }

  lemma AtDistance(lit: seq<nat>, dist: seq<nat>, bits: seq<bool>, pos: nat, out: seq<Byte>, len: nat, base: nat, extra: nat)
    requires AfterDist(lit, dist, bits, pos, out, len, base, extra).Some?
    ensures pos + extra <= |bits|
    ensures var d := base + FromBits(bits[pos..pos + extra]);
            1 <= d <= |out| && AfterDist(lit, dist, bits, pos, out, len, base, extra) == InflateCodes(lit, dist, bits, pos + extra, CopyMatch(out, d, len))
    ensures FromBits(bits[pos..pos + extra]) < Pow2(extra)
    ensures extra == 0 ==> FromBits(bits[pos..pos + extra]) == 0
  {
    hide InflateCodes, CopyMatch;
    assert |bits[pos..pos + extra]| == extra;
  }

  // ---------- what is put out stays ----------

  lemma {:induction false} CodesExtend(lit: seq<nat>, dist: seq<nat>, bits: seq<bool>, pos: nat, out: seq<Byte>)
    requires pos <= |bits| && InflateCodes(lit, dist, bits, pos, out).Some?
    ensures out <= InflateCodes(lit, dist, bits, pos, out).value.out
    decreases |bits| - pos, 0
  {
    hide InflateCodes, DecodeSym, AfterSym, LengthBase, LengthExtra;
    AtCodes(lit, dist, bits, pos, out);
    var sym := DecodeSym(lit, bits, pos).value;
    Decreasing(lit, bits, pos);
    if sym < 256 {
      CodesExtend(lit, dist, bits, pos + lit[sym], out + [sym]);
    } else if sym > 256 {
      SymbolExtends(lit, dist, bits, pos + lit[sym], out, LengthBase(sym - 257), LengthExtra(sym - 257));
    }
  }

  lemma Decreasing(lit: seq<nat>, bits: seq<bool>, pos: nat)
    requires DecodeSym(lit, bits, pos).Some?
    ensures lit[DecodeSym(lit, bits, pos).value] > 0
  {
  }

  lemma {:induction false} SymbolExtends(lit: seq<nat>, dist: seq<nat>, bits: seq<bool>, pos: nat, out: seq<Byte>, base: nat, extra: nat)
    requires pos <= |bits| && AfterSym(lit, dist, bits, pos, out, base, extra).Some?
    ensures out <= AfterSym(lit, dist, bits, pos, out, base, extra).value.out
    decreases |bits| - pos, 3
  {
    hide AfterSym, AfterLen, FromBits;
    AtSymbol(lit, dist, bits, pos, out, base, extra);
    LengthExtends(lit, dist, bits, pos + extra, out, base + FromBits(bits[pos..pos + extra]));
  }

  lemma {:induction false} LengthExtends(lit: seq<nat>, dist: seq<nat>, bits: seq<bool>, pos: nat, out: seq<Byte>, len: nat)
    requires pos <= |bits| && AfterLen(lit, dist, bits, pos, out, len).Some?
    ensures out <= AfterLen(lit, dist, bits, pos, out, len).value.out
    decreases |bits| - pos, 2
  {
    hide AfterLen, AfterDist, DecodeSym, DistBase, DistExtra;
    AtLength(lit, dist, bits, pos, out, len);
    DecodedInside(dist, bits, pos);
    Decreasing(dist, bits, pos);
    var s := DecodeSym(dist, bits, pos).value;
    DistanceExtends(lit, dist, bits, pos + dist[s], out, len, DistBase(s), DistExtra(s));
  }

  lemma {:induction false} DistanceExtends(lit: seq<nat>, dist: seq<nat>, bits: seq<bool>, pos: nat, out: seq<Byte>, len: nat, base: nat, extra: nat)
    requires pos <= |bits| && AfterDist(lit, dist, bits, pos, out, len, base, extra).Some?
    ensures out <= AfterDist(lit, dist, bits, pos, out, len, base, extra).value.out
    decreases |bits| - pos, 1
  {
    hide AfterDist, InflateCodes, FromBits;
    AtDistance(lit, dist, bits, pos, out, len, base, extra);
    var d := base + FromBits(bits[pos..pos + extra]);
    CodesExtend(lit, dist, bits, pos + extra, CopyMatch(out, d, len));
    Longer(out, CopyMatch(out, d, len), AfterDist(lit, dist, bits, pos, out, len, base, extra).value.out);
  }

  lemma Longer(a: seq<Byte>, b: seq<Byte>, c: seq<Byte>)
    requires |a| <= |b| && b[..|a|] == a && b <= c
    ensures a <= c
  {
  }

  lemma BlockExtends(bits: seq<bool>, pos: nat, out: seq<Byte>)
    requires pos + 3 <= |bits| && InflateBlock(bits, pos, out).Some?
    ensures out <= InflateBlock(bits, pos, out).value.out
  {
    hide InflateCodes, FromBits, BytesAt, StaticLit, StaticDist, InflateTables;
    var kind := FromBits(bits[pos + 1..pos + 3]);
    if kind == 1 {
      CodesExtend(StaticLit(), StaticDist(), bits, pos + 3, out);
    } else if kind == 2 {
      var t := InflateTables(bits, pos + 3).value;
      CodesExtend(t.lit, t.dist, bits, t.pos, out);
    }
  }

  /** Whatever comes later, the output so far is the beginning of the whole. */
  lemma {:induction false} FromExtends(bits: seq<bool>, pos: nat, out: seq<Byte>)
    requires InflateFrom(bits, pos, out).Some?
    ensures out <= InflateFrom(bits, pos, out).value.out
    decreases |bits| - pos
  {
    hide InflateBlock;
    BlockExtends(bits, pos, out);
    var b := InflateBlock(bits, pos, out).value;
    if !bits[pos] {
      FromExtends(bits, b.pos, b.out);
    }
  }

  lemma RestExtends(bits: seq<bool>, final: bool, x: Option<Result>)
    requires Rest(bits, final, x).Some?
    ensures x.Some? && x.value.out <= Rest(bits, final, x).value.out
  {
    hide InflateFrom;
    if !final { FromExtends(bits, x.value.pos, x.value.out); }
  }

  lemma TablesExtend(bits: seq<bool>, final: bool, t: Option<Tables>, out: seq<Byte>)
    requires (t.Some? ==> t.value.pos <= |bits|) && WithTables(bits, final, t, out).Some?
    ensures out <= WithTables(bits, final, t, out).value.out
  {
    hide InflateCodes, Rest;
    RestExtends(bits, final, InflateCodes(t.value.lit, t.value.dist, bits, t.value.pos, out));
    CodesExtend(t.value.lit, t.value.dist, bits, t.value.pos, out);
  }

  lemma CopiedExtends(bits: seq<bool>, final: bool, pos: nat, left: nat, out: seq<Byte>)
    requires pos + 8 * left <= |bits| && Copied(bits, final, pos, left, out).Some?
    ensures out <= Copied(bits, final, pos, left, out).value.out && |out| + left <= |Copied(bits, final, pos, left, out).value.out|
  {
    hide Rest, BytesAt;
    RestExtends(bits, final, Some(Result(out + BytesAt(bits, pos, left), pos + 8 * left)));
  }

  lemma StoredExtends(bits: seq<bool>, final: bool, pos: nat, out: seq<Byte>)
    requires Rest(bits, final, InflateStored(bits, pos, out)).Some?
    ensures out <= Rest(bits, final, InflateStored(bits, pos, out)).value.out
  {
    hide Rest, BytesAt, FromBits;
    RestExtends(bits, final, InflateStored(bits, pos, out));
  }
}
