/** DEFLATE blocks as the compressor writes them, and the round trip: the reference decoder
    of module Inflate gives back the tokens, the code tables and the bytes of every block. */
module Blocks {
  import opened Bits
  import opened CanonicalCode
  import opened Inflate
  import opened LzTokens

  lemma AtSplit(bits: seq<bool>, pos: nat, x: seq<bool>, y: seq<bool>)
    requires At(bits, pos, x + y)
    ensures At(bits, pos, x) && At(bits, pos + |x|, y)
  {
    var z := bits[pos..pos + |x + y|];
    assert z[..|x|] == x && z[|x|..] == y;
  }

  lemma ReadField(bits: seq<bool>, pos: nat, v: nat, n: nat)
    requires v < Pow2(n) && At(bits, pos, ToBits(v, n))
    ensures ReadBits(bits, pos, n) == Some(v)
  {
    FromToBits(v, n);
  }

  // ---------- compressed data ----------

  function TokenBits(lit: seq<nat>, dist: seq<nat>, t: Token): seq<bool>
    requires Covered(lit, dist, t)
  {
    match t
    case Literal(b) => Codeword(lit, b)
    case Match(len, d) =>
      Codeword(lit, LenSym(len - 3)) + (ToBits(Mask(len - 3, LenExtra(len - 3)), LenExtra(len - 3)) +
      (Codeword(dist, DistSym(d - 1)) + ToBits(Mask(d - 1, DistExtraOf(d - 1)), DistExtraOf(d - 1))))
  }

  /** The code tables have codewords for the token's symbols: what the MZ_ASSERTs of the
      emitters ask (src/http/miniz.c:2041, 2053, 2060). */
  predicate Covered(lit: seq<nat>, dist: seq<nat>, t: Token)
  {
    && ValidToken(t)
    && match t
       case Literal(b) => b < |lit| && lit[b] > 0
       case Match(len, d) =>
         && LenSym(len - 3) < |lit| && lit[LenSym(len - 3)] > 0
         && DistSym(d - 1) < |dist| && dist[DistSym(d - 1)] > 0
  }

  predicate AllCovered(lit: seq<nat>, dist: seq<nat>, ts: seq<Token>)
  {
    forall i :: 0 <= i < |ts| ==> Covered(lit, dist, ts[i])
  }

  function TokensBits(lit: seq<nat>, dist: seq<nat>, ts: seq<Token>): seq<bool>
    requires AllCovered(lit, dist, ts)
  {
    if ts == [] then [] else TokenBits(lit, dist, ts[0]) + TokensBits(lit, dist, ts[1..])
  }

  function CodesBits(lit: seq<nat>, dist: seq<nat>, ts: seq<Token>): seq<bool>
    requires AllCovered(lit, dist, ts) && |lit| > 256
  {
    TokensBits(lit, dist, ts) + Codeword(lit, 256)
  }

  lemma {:induction false} TokensBitsSnoc(lit: seq<nat>, dist: seq<nat>, ts: seq<Token>, t: Token)
    requires AllCovered(lit, dist, ts) && Covered(lit, dist, t)
    ensures AllCovered(lit, dist, ts + [t])
    ensures TokensBits(lit, dist, ts + [t]) == TokensBits(lit, dist, ts) + TokenBits(lit, dist, t)
  {
    hide TokenBits, Covered;
    if ts == [] {
      assert (ts + [t])[1..] == [];
    } else {
      assert (ts + [t])[1..] == ts[1..] + [t];
      TokensBitsSnoc(lit, dist, ts[1..], t);
    }
  }

  /** One literal is read back. */
  lemma InflateLiteral(lit: seq<nat>, dist: seq<nat>, bits: seq<bool>, pos: nat, out: seq<Byte>, t: Token)
    requires Fits(lit, 15) && t.Literal? && Covered(lit, dist, t)
    requires At(bits, pos, TokenBits(lit, dist, t))
    ensures pos + |TokenBits(lit, dist, t)| <= |bits|
    ensures InflateCodes(lit, dist, bits, pos, out)
         == InflateCodes(lit, dist, bits, pos + |TokenBits(lit, dist, t)|, Apply(out, t))
  {
    DecodeCodeword(lit, 15, t.b, bits, pos);
  }

  /** The four fields of a match are read back. */
  lemma MatchFields(lit: seq<nat>, dist: seq<nat>, bits: seq<bool>, pos: nat, len: nat, d: nat)
    requires Fits(lit, 15) && Fits(dist, 15) && Covered(lit, dist, Match(len, d))
    requires At(bits, pos, TokenBits(lit, dist, Match(len, d)))
    ensures var ls, ds, i := LenSym(len - 3), DistSym(d - 1), len - 3;
            var p1 := pos + lit[ls];
            var p2 := p1 + LenExtra(i);
            var p3 := p2 + dist[ds];
            && DecodeSym(lit, bits, pos) == Some(ls)
            && ReadBits(bits, p1, LenExtra(i)) == Some(Mask(i, LenExtra(i)))
            && DecodeSym(dist, bits, p2) == Some(ds)
            && ReadBits(bits, p3, DistExtraOf(d - 1)) == Some(Mask(d - 1, DistExtraOf(d - 1)))
  {
    hide Codeword, DecodeSym, LenSym, DistSym, LenExtra, DistExtraOf, Mask, ToBits, Fits, ReadBits;
    var i := len - 3;
    var ls, ds := LenSym(i), DistSym(d - 1);
    var lx, dx := Mask(i, LenExtra(i)), Mask(d - 1, DistExtraOf(d - 1));
    var w1, w2 := Codeword(lit, ls), ToBits(lx, LenExtra(i));
    var w3, w4 := Codeword(dist, ds), ToBits(dx, DistExtraOf(d - 1));
    var p1 := pos + |w1|;
    var p2 := p1 + |w2|;
    AtSplit(bits, pos, w1, w2 + (w3 + w4));
    AtSplit(bits, p1, w2, w3 + w4);
    AtSplit(bits, p2, w3, w4);
    DecodeCodeword(lit, 15, ls, bits, pos);
    ReadField(bits, p1, lx, LenExtra(i));
    DecodeCodeword(dist, 15, ds, bits, p2);
    ReadField(bits, p2 + |w3|, dx, DistExtraOf(d - 1));
  }

  /** One match is read back: length symbol, extra bits, distance symbol, extra bits. */
  lemma InflateOneMatch(lit: seq<nat>, dist: seq<nat>, bits: seq<bool>, pos: nat, out: seq<Byte>, len: nat, d: nat)
    requires Fits(lit, 15) && Fits(dist, 15) && Covered(lit, dist, Match(len, d)) && d <= |out|
    requires At(bits, pos, TokenBits(lit, dist, Match(len, d)))
    ensures pos + |TokenBits(lit, dist, Match(len, d))| <= |bits|
    ensures InflateCodes(lit, dist, bits, pos, out)
         == InflateCodes(lit, dist, bits, pos + |TokenBits(lit, dist, Match(len, d))|, CopyMatch(out, d, len))
  {
    hide *;
    MatchLength(lit, dist, len, d);
    MatchFields(lit, dist, bits, pos, len, d);
    LengthTables(len - 3);
    DistTables(d - 1);
    var i := len - 3;
    var ls, ds := LenSym(i), DistSym(d - 1);
    AtEnd(bits, pos, TokenBits(lit, dist, Match(len, d)));
    InflateFields(lit, dist, bits, pos, out, ls, Mask(i, LenExtra(i)), ds, Mask(d - 1, DistExtraOf(d - 1)), d, len);
  }

  lemma MatchLength(lit: seq<nat>, dist: seq<nat>, len: nat, d: nat)
    requires Covered(lit, dist, Match(len, d))
    ensures 3 <= len <= 258 && 1 <= d <= 32768 && LenSym(len - 3) < |lit| && DistSym(d - 1) < |dist|
    ensures |TokenBits(lit, dist, Match(len, d))| == lit[LenSym(len - 3)] + LenExtra(len - 3) + dist[DistSym(d - 1)] + DistExtraOf(d - 1)
  {
    hide Codeword, LenSym, DistSym, LenExtra, DistExtraOf, Mask, ToBits;
  }

  lemma AtEnd(bits: seq<bool>, pos: nat, x: seq<bool>)
    requires At(bits, pos, x)
    ensures pos + |x| <= |bits|
  {
  }

  /** The decoder on four fields, whatever they hold. */
  lemma InflateFields(lit: seq<nat>, dist: seq<nat>, bits: seq<bool>, pos: nat, out: seq<Byte>, ls: nat, lx: nat, ds: nat, dx: nat, d: nat, len: nat)
    requires 257 <= ls <= 285 && ls < |lit| && ds <= 29 && ds < |dist| && pos <= |bits|
    requires DecodeSym(lit, bits, pos) == Some(ls) && ReadBits(bits, pos + lit[ls], LengthExtra(ls - 257)) == Some(lx)
    requires DecodeSym(dist, bits, pos + lit[ls] + LengthExtra(ls - 257)) == Some(ds)
    requires ReadBits(bits, pos + lit[ls] + LengthExtra(ls - 257) + dist[ds], DistExtra(ds)) == Some(dx)
    requires d == DistBase(ds) + dx <= |out| && len == LengthBase(ls - 257) + lx
    ensures pos + lit[ls] + LengthExtra(ls - 257) + dist[ds] + DistExtra(ds) <= |bits|
    ensures InflateCodes(lit, dist, bits, pos, out)
         == InflateCodes(lit, dist, bits, pos + lit[ls] + LengthExtra(ls - 257) + dist[ds] + DistExtra(ds), CopyMatch(out, d, len))
  {
    hide LengthBase, DistBase, LengthExtra, DistExtra, CopyMatch, FromBits;
    ReadWithin(bits, pos + lit[ls] + LengthExtra(ls - 257) + dist[ds], DistExtra(ds));
    InflateFields2(lit, dist, bits, pos + lit[ls], out, ls, lx, ds, dx, d, len);
    hide InflateMatch, ReadBits, DecodeSym;
    assert InflateCodes(lit, dist, bits, pos, out) == InflateMatch(lit, dist, bits, pos + lit[ls], out, ls);
  }

  lemma ReadWithin(bits: seq<bool>, pos: nat, n: nat)
    requires ReadBits(bits, pos, n).Some?
    ensures pos + n <= |bits|
  {
  }

  lemma InflateFields2(lit: seq<nat>, dist: seq<nat>, bits: seq<bool>, p1: nat, out: seq<Byte>, ls: nat, lx: nat, ds: nat, dx: nat, d: nat, len: nat)
    requires 257 <= ls <= 285 && ds <= 29 && ds < |dist| && ReadBits(bits, p1, LengthExtra(ls - 257)) == Some(lx)
    requires DecodeSym(dist, bits, p1 + LengthExtra(ls - 257)) == Some(ds)
    requires ReadBits(bits, p1 + LengthExtra(ls - 257) + dist[ds], DistExtra(ds)) == Some(dx)
    requires d == DistBase(ds) + dx <= |out| && len == LengthBase(ls - 257) + lx
    requires p1 + LengthExtra(ls - 257) + dist[ds] + DistExtra(ds) <= |bits|
    ensures InflateMatch(lit, dist, bits, p1, out, ls)
         == InflateCodes(lit, dist, bits, p1 + LengthExtra(ls - 257) + dist[ds] + DistExtra(ds), CopyMatch(out, d, len))
  {
    hide LengthBase, DistBase, LengthExtra, DistExtra, CopyMatch, ReadBits, DecodeSym, InflateCodes;
  }

  lemma InflateToken(lit: seq<nat>, dist: seq<nat>, bits: seq<bool>, pos: nat, out: seq<Byte>, t: Token)
    requires Fits(lit, 15) && Fits(dist, 15) && Covered(lit, dist, t) && (t.Match? ==> t.dist <= |out|)
    requires At(bits, pos, TokenBits(lit, dist, t))
    ensures pos + |TokenBits(lit, dist, t)| <= |bits|
    ensures InflateCodes(lit, dist, bits, pos, out)
         == InflateCodes(lit, dist, bits, pos + |TokenBits(lit, dist, t)|, Apply(out, t))
  {
    hide Codeword, DecodeSym, LenSym, DistSym, LenExtra, DistExtraOf, Mask, ToBits, Fits, ReadBits, At, CopyMatch;
    hide InflateCodes, TokenBits;
    if t.Literal? {
      InflateLiteral(lit, dist, bits, pos, out, t);
    } else {
      InflateOneMatch(lit, dist, bits, pos, out, t.len, t.dist);
    }
  }

  /** The decoder turns the emitted codes of a token list into the bytes the tokens stand for,
      and stops right after the end-of-block symbol. */
  lemma {:induction false} InflateCodesOfTokens(lit: seq<nat>, dist: seq<nat>, bits: seq<bool>, pos: nat, out: seq<Byte>, ts: seq<Token>)
    requires Fits(lit, 15) && Fits(dist, 15)
    requires |lit| > 256 && lit[256] > 0
    requires AllCovered(lit, dist, ts) && Applicable(|out|, ts)
    requires At(bits, pos, CodesBits(lit, dist, ts))
    ensures InflateCodes(lit, dist, bits, pos, out) == Some(Result(Expand(out, ts), pos + |CodesBits(lit, dist, ts)|))
    decreases |ts|
  {
    hide *;
    if ts == [] {
      InflateEnd(lit, dist, bits, pos, out);
    } else {
      ExpandCons(out, ts);
      CodesBitsCons(lit, dist, ts);
      var w, rest := TokenBits(lit, dist, ts[0]), CodesBits(lit, dist, ts[1..]);
      AtSplit(bits, pos, w, rest);
      InflateToken(lit, dist, bits, pos, out, ts[0]);
      InflateCodesOfTokens(lit, dist, bits, pos + |w|, Apply(out, ts[0]), ts[1..]);
    }
  }

  lemma InflateEnd(lit: seq<nat>, dist: seq<nat>, bits: seq<bool>, pos: nat, out: seq<Byte>)
    requires Fits(lit, 15) && |lit| > 256 && lit[256] > 0
    requires At(bits, pos, CodesBits(lit, dist, []))
    ensures InflateCodes(lit, dist, bits, pos, out) == Some(Result(Expand(out, []), pos + |CodesBits(lit, dist, [])|))
  {
    hide Codeword, DecodeSym, Fits;
    assert CodesBits(lit, dist, []) == Codeword(lit, 256);
    DecodeCodeword(lit, 15, 256, bits, pos);
  }

  lemma ExpandCons(out: seq<Byte>, ts: seq<Token>)
    requires ts != [] && Applicable(|out|, ts)
    ensures ts[0].Match? ==> 1 <= ts[0].dist <= |out|
    ensures Applicable(|Apply(out, ts[0])|, ts[1..])
    ensures Expand(out, ts) == Expand(Apply(out, ts[0]), ts[1..])
  {
  }

  lemma CodesBitsCons(lit: seq<nat>, dist: seq<nat>, ts: seq<Token>)
    requires AllCovered(lit, dist, ts) && |lit| > 256 && ts != []
    ensures Covered(lit, dist, ts[0]) && AllCovered(lit, dist, ts[1..])
    ensures CodesBits(lit, dist, ts) == TokenBits(lit, dist, ts[0]) + CodesBits(lit, dist, ts[1..])
  {
  }
}
