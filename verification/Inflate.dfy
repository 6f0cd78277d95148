/** The meaning of a DEFLATE bit stream: what the block loop of tinfl_decompress
    (src/http/miniz.c:1457-1670) computes on a whole stream, as functions on bit strings.
    None stands for TINFL_STATUS_FAILED and for a stream that ends too early. */
module Inflate {
  import opened Bits
  import opened CanonicalCode

  // ---------- length and distance symbols (section 3.2.5 of RFC 1951) ----------

  function LengthBase(k: nat): nat
    requires k < 29
  {
    [3, 4, 5, 6, 7, 8, 9, 10, 11, 13, 15, 17, 19, 23, 27, 31, 35, 43, 51, 59, 67, 83, 99, 115, 131, 163, 195, 227, 258][k]
  }

  function LengthExtra(k: nat): nat
    requires k < 29
  {
    [0, 0, 0, 0, 0, 0, 0, 0, 1, 1, 1, 1, 2, 2, 2, 2, 3, 3, 3, 3, 4, 4, 4, 4, 5, 5, 5, 5, 0][k]
  }

  function DistBase(k: nat): (b: nat)
    requires k < 30
    ensures b >= 1
  {
    [1, 2, 3, 4, 5, 7, 9, 13, 17, 25, 33, 49, 65, 97, 129, 193, 257, 385, 513, 769, 1025, 1537, 2049, 3073, 4097, 6145,
     8193, 12289, 16385, 24577][k]
  }

  function DistExtra(k: nat): nat
    requires k < 30
  {
    [0, 0, 0, 0, 1, 1, 2, 2, 3, 3, 4, 4, 5, 5, 6, 6, 7, 7, 8, 8, 9, 9, 10, 10, 11, 11, 12, 12, 13, 13][k]
  }

  // ---------- LZ77 copy ----------

  /** Append len bytes, each the byte dist places back: the byte at a time definition. */
  function CopyMatch(out: seq<Byte>, dist: nat, len: nat): (r: seq<Byte>)
    requires 1 <= dist <= |out|
    ensures |r| == |out| + len && r[..|out|] == out
    ensures forall i :: |out| <= i < |r| ==> r[i] == r[i - dist]
    decreases len
  {
    if len == 0 then out else CopyMatch(out + [out[|out| - dist]], dist, len - 1)
  }

  // ---------- compressed data ----------

  function ReadBits(bits: seq<bool>, pos: nat, n: nat): Option<nat>
  {
    if pos + n <= |bits| then Some(FromBits(bits[pos..pos + n])) else None
  }

  datatype Result = Result(out: seq<Byte>, pos: nat)

  /** Literals and matches up to the end-of-block symbol. */
  function InflateCodes(lit: seq<nat>, dist: seq<nat>, bits: seq<bool>, pos: nat, out: seq<Byte>): (r: Option<Result>)
    requires pos <= |bits|
    ensures r.Some? ==> pos < r.value.pos <= |bits|
    decreases |bits| - pos
  {
    match DecodeSym(lit, bits, pos)
    case None => None
    case Some(sym) =>
      var p1 := pos + lit[sym];
      if sym < 256 then InflateCodes(lit, dist, bits, p1, out + [sym])
      else if sym == 256 then Some(Result(out, p1))
      else InflateMatch(lit, dist, bits, p1, out, sym)
  }

  /** The rest of a match, after its length symbol. */
  function InflateMatch(lit: seq<nat>, dist: seq<nat>, bits: seq<bool>, p1: nat, out: seq<Byte>, sym: nat): (r: Option<Result>)
    requires p1 <= |bits| && sym > 256
    ensures r.Some? ==> p1 < r.value.pos <= |bits|
    decreases |bits| - p1
  {
    if sym > 285 then None else
    match ReadBits(bits, p1, LengthExtra(sym - 257))
    case None => None
    case Some(lx) =>
      var p2 := p1 + LengthExtra(sym - 257);
      match DecodeSym(dist, bits, p2)
      case None => None
      case Some(dsym) =>
        if dsym > 29 then None else
        var p3 := p2 + dist[dsym];
        match ReadBits(bits, p3, DistExtra(dsym))
        case None => None
        case Some(dx) =>
          var d := DistBase(dsym) + dx;
          if d > |out| then None
          else InflateCodes(lit, dist, bits, p3 + DistExtra(dsym), CopyMatch(out, d, LengthBase(sym - 257) + lx))
  }

  // ---------- code tables in a dynamic block header (section 3.2.7 of RFC 1951) ----------

  function UsedSyms(lens: seq<nat>): nat
  {
    if lens == [] then 0 else UsedSyms(lens[..|lens| - 1]) + (if lens[|lens| - 1] > 0 then 1 else 0)
  }

  /** The code tables that the decoder takes: complete, or with at most one symbol. */
  predicate Accepted(lens: seq<nat>)
  {
    Complete(lens, 15) || (UsedSyms(lens) <= 1 && forall i :: 0 <= i < |lens| ==> lens[i] <= 15)
  }

  function RepeatBase(sym: nat): nat { if sym == 18 then 11 else 3 }

  function RepeatExtra(sym: nat): nat { if sym == 16 then 2 else if sym == 17 then 3 else 7 }

  function Fill(v: nat, n: nat): (s: seq<nat>)
    ensures |s| == n && forall i :: 0 <= i < n ==> s[i] == v
  {
    seq(n, i => v)
  }

  /** Code lengths, run-length coded, until `total` of them are known. */
  function InflateLens(cl: seq<nat>, bits: seq<bool>, pos: nat, total: nat, acc: seq<nat>): (r: Option<(seq<nat>, nat)>)
    requires pos <= |bits|
    ensures r.Some? ==> |r.value.0| == total && pos <= r.value.1 <= |bits|
    decreases |bits| - pos
  {
    if |acc| == total then Some((acc, pos))
    else if |acc| > total then None
    else
      match DecodeSym(cl, bits, pos)
      case None => None
      case Some(sym) =>
        var p1 := pos + cl[sym];
        if sym < 16 then InflateLens(cl, bits, p1, total, acc + [sym])
        else if (sym == 16 && acc == []) || sym > 18 then None
        else
          match ReadBits(bits, p1, RepeatExtra(sym))
          case None => None
          case Some(x) =>
            var v := if sym == 16 then acc[|acc| - 1] else 0;
            InflateLens(cl, bits, p1 + RepeatExtra(sym), total, acc + Fill(v, RepeatBase(sym) + x))
  }

  /** The order in which code lengths for the code length alphabet are sent. */
  function Dezigzag(i: nat): (s: nat)
    requires i < 19
    ensures s < 19
  {
    [16, 17, 18, 0, 8, 7, 9, 6, 10, 5, 11, 4, 12, 3, 13, 2, 14, 1, 15][i]
  }

  /** n code lengths of 3 bits each, put at their places among the 19. */
  function InflateCl(bits: seq<bool>, pos: nat, i: nat, n: nat, cl: seq<nat>): (r: Option<seq<nat>>)
    requires i <= n <= 19 && |cl| == 19
    requires pos <= |bits|
    ensures r.Some? ==> |r.value| == 19 && pos + 3 * (n - i) <= |bits|
    decreases n - i
  {
    if i == n then Some(cl)
    else
      match ReadBits(bits, pos, 3)
      case None => None
      case Some(v) => InflateCl(bits, pos + 3, i + 1, n, cl[Dezigzag(i) := v])
  }

  datatype Tables = Tables(lit: seq<nat>, dist: seq<nat>, pos: nat)

  function InflateTables(bits: seq<bool>, pos: nat): (r: Option<Tables>)
    requires pos <= |bits|
    ensures r.Some? ==> pos <= r.value.pos <= |bits|
  {
    if pos + 14 > |bits| then None else
    var nlit := FromBits(bits[pos..pos + 5]) + 257;
    var ndist := FromBits(bits[pos + 5..pos + 10]) + 1;
    var ncl := FromBits(bits[pos + 10..pos + 14]) + 4;
    assert ncl <= 19 by { Pow2Values(); }
    match InflateCl(bits, pos + 14, 0, ncl, Fill(0, 19))
    case None => None
    case Some(cl) =>
      if !Accepted(cl) then None else
      match InflateLens(cl, bits, pos + 14 + 3 * ncl, nlit + ndist, [])
      case None => None
      case Some((lens, p)) =>
        if Accepted(lens[..nlit]) && Accepted(lens[nlit..]) then Some(Tables(lens[..nlit], lens[nlit..], p)) else None
  }

  function StaticLit(): (s: seq<nat>)
    ensures |s| == 288
  {
    Fill(8, 144) + Fill(9, 112) + Fill(7, 24) + Fill(8, 8)
  }

  function StaticDist(): (s: seq<nat>)
    ensures |s| == 32
  {
    Fill(5, 32)
  }

  // ---------- blocks ----------

  /** The next byte boundary at or after pos. */
  function AlignUp(pos: nat): (p: nat)
    ensures pos <= p < pos + 8
  {
    if pos % 8 == 0 then pos else pos + 8 - pos % 8
  }

  function BytesAt(bits: seq<bool>, pos: nat, n: nat): (s: seq<Byte>)
    requires pos + 8 * n <= |bits|
    ensures |s| == n
    decreases n
  {
    if n == 0 then [] else
    Pow2Values();
    [FromBits(bits[pos..pos + 8])] + BytesAt(bits, pos + 8, n - 1)
  }

  /** LEN, NLEN and LEN bytes at the next byte boundary (section 3.2.4 of RFC 1951). */
  function InflateStored(bits: seq<bool>, pos: nat, out: seq<Byte>): (r: Option<Result>)
    ensures r.Some? ==> pos < r.value.pos <= |bits|
  {
    var p := AlignUp(pos);
    if p + 32 > |bits| then None else
    var len, nlen := FromBits(bits[p..p + 16]), FromBits(bits[p + 16..p + 32]);
    if len + nlen != 0xFFFF || p + 32 + 8 * len > |bits| then None
    else Some(Result(out + BytesAt(bits, p + 32, len), p + 32 + 8 * len))
  }

  /** One block whose three header bits start at pos. */
  function InflateBlock(bits: seq<bool>, pos: nat, out: seq<Byte>): (r: Option<Result>)
    requires pos + 3 <= |bits|
    ensures r.Some? ==> pos + 3 < r.value.pos <= |bits|
  {
    var kind := FromBits(bits[pos + 1..pos + 3]);
    if kind == 0 then InflateStored(bits, pos + 3, out)
    else if kind == 1 then InflateCodes(StaticLit(), StaticDist(), bits, pos + 3, out)
    else if kind == 2 then
      match InflateTables(bits, pos + 3)
      case None => None
      case Some(t) => InflateCodes(t.lit, t.dist, bits, t.pos, out)
    else None
  }

  /** Blocks from pos to the one marked final. */
  function InflateFrom(bits: seq<bool>, pos: nat, out: seq<Byte>): (r: Option<Result>)
    decreases |bits| - pos
  {
    if pos + 3 > |bits| then None else
    match InflateBlock(bits, pos, out)
    case None => None
    case Some(b) => if bits[pos] then Some(b) else InflateFrom(bits, b.pos, b.out)
  }

  /** The bytes that a raw DEFLATE stream stands for. */
  function InflateAll(stream: seq<Byte>): Option<seq<Byte>>
  {
    match InflateFrom(BytesToBits(stream), 0, [])
    case None => None
    case Some(r) => Some(r.out)
  }
}
