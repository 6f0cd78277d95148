/** Whole blocks and streams as the compressor lays them out, and their round trip through the
    reference decoder (sections 3.2.3 to 3.2.7 of RFC 1951). */
module BlockFormat {
  import opened Bits
  import opened CanonicalCode
  import opened Inflate
  import opened LzTokens
  import opened Blocks
  import opened RunLength

  datatype Block =
    | Raw(data: seq<Byte>)
    | Static(tokens: seq<Token>)
    | Dynamic(header: Header, tokens: seq<Token>)

  /** Literal and distance code lengths, the code length code with the number of its entries that
      are sent, and the packed lengths. */
  datatype Header = Header(lit: seq<nat>, dist: seq<nat>, cl: seq<nat>, clSent: nat, packed: seq<nat>)

  // ---------- the code length code ----------

  function ClBits(cl: seq<nat>, i: nat, n: nat): (b: seq<bool>)
    requires |cl| == 19 && i <= n <= 19
    ensures |b| == 3 * (n - i)
    decreases n - i
  {
    if i == n then [] else ToBits(cl[Dezigzag(i)], 3) + ClBits(cl, i + 1, n)
  }

  /** cl with only the first i entries, in the order they are sent, in place. */
  function PartialCl(cl: seq<nat>, i: nat): (p: seq<nat>)
    requires |cl| == 19 && i <= 19
    ensures |p| == 19
  {
    if i == 0 then Fill(0, 19) else PartialCl(cl, i - 1)[Dezigzag(i - 1) := cl[Dezigzag(i - 1)]]
  }

  /** Where symbol s stands in the order of sending. */
  function Zigzag(s: nat): (i: nat)
    requires s < 19
    ensures i < 19
  {
    [3, 17, 15, 13, 11, 9, 7, 5, 4, 6, 8, 10, 12, 14, 16, 18, 0, 1, 2][s]
  }

  lemma ZigzagInverse(i: nat, s: nat)
    requires i < 19 && s < 19
    ensures Dezigzag(Zigzag(s)) == s && Zigzag(Dezigzag(i)) == i
  {
    assert Dezigzag(0) == 16 && Dezigzag(1) == 17 && Dezigzag(2) == 18 && Dezigzag(3) == 0 && Dezigzag(4) == 8;
  }

  lemma {:induction false} PartialClEntries(cl: seq<nat>, i: nat, s: nat)
    requires |cl| == 19 && i <= 19 && s < 19
    ensures PartialCl(cl, i)[s] == if Zigzag(s) < i then cl[s] else 0
  {
    hide Zigzag, Dezigzag;
    if i > 0 {
      ZigzagInverse(i - 1, s);
      PartialClEntries(cl, i - 1, s);
    }
  }

  lemma WholeCl(cl: seq<nat>, n: nat)
    requires |cl| == 19 && n <= 19 && forall i :: n <= i < 19 ==> cl[Dezigzag(i)] == 0
    ensures PartialCl(cl, n) == cl
  {
    hide Zigzag, Dezigzag, PartialCl;
    forall s | 0 <= s < 19 ensures PartialCl(cl, n)[s] == cl[s] {
      PartialClEntries(cl, n, s);
      ZigzagInverse(0, s);
    }
  }

  lemma {:induction false} InflateClOfBits(cl: seq<nat>, bits: seq<bool>, pos: nat, i: nat, n: nat)
    requires |cl| == 19 && i <= n <= 19 && pos <= |bits| && forall s :: 0 <= s < 19 ==> cl[s] < 8
    requires At(bits, pos, ClBits(cl, i, n))
    ensures InflateCl(bits, pos, i, n, PartialCl(cl, i)) == Some(PartialCl(cl, n))
    decreases n - i
  {
    hide Dezigzag, ToBits, ReadBits;
    if i < n {
      Pow2Values();
      AtSplit(bits, pos, ToBits(cl[Dezigzag(i)], 3), ClBits(cl, i + 1, n));
      ReadField(bits, pos, cl[Dezigzag(i)], 3);
      InflateClOfBits(cl, bits, pos + 3, i + 1, n);
    }
  }

  // ---------- the dynamic header ----------

  predicate ValidHeader(h: Header)
  {
    && 257 <= |h.lit| <= 286 && 1 <= |h.dist| <= 30
    && |h.cl| == 19 && 4 <= h.clSent <= 19
    && (forall s :: 0 <= s < 19 ==> h.cl[s] < 8) && (forall i :: h.clSent <= i < 19 ==> h.cl[Dezigzag(i)] == 0)
    && Fits(h.cl, 15) && Accepted(h.cl) && Fits(h.lit, 15) && Accepted(h.lit) && Fits(h.dist, 15) && Accepted(h.dist)
    && WellFormed([], h.packed) && HasCodes(h.cl, h.packed) && Unpack([], h.packed) == h.lit + h.dist
    && h.lit[256] > 0
  }

  /** What tdefl_start_dynamic_block writes after the two bits of the block type. */
  function HeaderBits(h: Header): seq<bool>
    requires ValidHeader(h)
  {
    ToBits(|h.lit| - 257, 5) + (ToBits(|h.dist| - 1, 5) + (ToBits(h.clSent - 4, 4) +
    (ClBits(h.cl, 0, h.clSent) + PackedBits(h.cl, h.packed))))
  }

  lemma ReadFieldAt(bits: seq<bool>, pos: nat, v: nat, n: nat)
    requires v < Pow2(n) && At(bits, pos, ToBits(v, n))
    ensures pos + n <= |bits| && FromBits(bits[pos..pos + n]) == v
  {
    FromToBits(v, n);
  }

  lemma HeaderFields(bits: seq<bool>, pos: nat, h: Header)
    requires ValidHeader(h) && At(bits, pos, HeaderBits(h))
    ensures pos + 14 + 3 * h.clSent <= |bits|
    ensures FromBits(bits[pos..pos + 5]) == |h.lit| - 257
    ensures FromBits(bits[pos + 5..pos + 10]) == |h.dist| - 1
    ensures FromBits(bits[pos + 10..pos + 14]) == h.clSent - 4
    ensures At(bits, pos + 14, ClBits(h.cl, 0, h.clSent))
    ensures At(bits, pos + 14 + 3 * h.clSent, PackedBits(h.cl, h.packed))
    ensures |HeaderBits(h)| == 14 + 3 * h.clSent + |PackedBits(h.cl, h.packed)|
  {
    hide ToBits, FromBits, ClBits, PackedBits, Accepted, Fits, WellFormed, HasCodes, Unpack, At;
    Pow2Values();
    var a, b, c := ToBits(|h.lit| - 257, 5), ToBits(|h.dist| - 1, 5), ToBits(h.clSent - 4, 4);
    var d, e := ClBits(h.cl, 0, h.clSent), PackedBits(h.cl, h.packed);
    AtSplit(bits, pos, a, b + (c + (d + e)));
    AtSplit(bits, pos + 5, b, c + (d + e));
    AtSplit(bits, pos + 10, c, d + e);
    AtSplit(bits, pos + 14, d, e);
    ReadFieldAt(bits, pos, |h.lit| - 257, 5);
    ReadFieldAt(bits, pos + 5, |h.dist| - 1, 5);
    ReadFieldAt(bits, pos + 10, h.clSent - 4, 4);
    assert pos + 14 + 3 * h.clSent <= |bits| by { AtBound(bits, pos + 14, d); }
  }

  lemma AtBound(bits: seq<bool>, pos: nat, x: seq<bool>)
    requires At(bits, pos, x)
    ensures pos + |x| <= |bits|
  {
  }

  /** The decoder rebuilds exactly the code lengths of both alphabets. */
  lemma InflateHeader(bits: seq<bool>, pos: nat, h: Header)
    requires ValidHeader(h) && At(bits, pos, HeaderBits(h))
    ensures pos <= |bits|
    ensures InflateTables(bits, pos) == Some(Tables(h.lit, h.dist, pos + |HeaderBits(h)|))
  {
    hide ToBits, FromBits, ClBits, PackedBits, Accepted, Fits, HasCodes, At, HeaderBits, InflateCl, InflateLens, WellFormed, Unpack;
    HeaderFields(bits, pos, h);
    InflateClOfBits(h.cl, bits, pos + 14, 0, h.clSent);
    assert PartialCl(h.cl, 0) == Fill(0, 19);
    WholeCl(h.cl, h.clSent);
    InflatePacked(h.cl, bits, pos + 14 + 3 * h.clSent, |h.lit| + |h.dist|, [], h.packed);
    assert (h.lit + h.dist)[..|h.lit|] == h.lit && (h.lit + h.dist)[|h.lit|..] == h.dist;
  }

  // ---------- blocks ----------

  /** The zero bits up to the next byte boundary. */
  function Padding(pos: nat): (b: seq<bool>)
    ensures |b| == AlignUp(pos) - pos && forall i :: 0 <= i < |b| ==> !b[i]
  {
    seq(AlignUp(pos) - pos, i => false)
  }

  predicate ValidBlock(size: nat, b: Block)
  {
    match b
    case Raw(data) => |data| < 0x10000
    case Static(ts) => AllCovered(StaticLit(), StaticDist(), ts) && Applicable(size, ts)
    case Dynamic(h, ts) => ValidHeader(h) && AllCovered(h.lit, h.dist, ts) && Applicable(size, ts)
  }

  /** out followed by the bytes of the block. */
  function BlockBytes(out: seq<Byte>, b: Block): seq<Byte>
    requires ValidBlock(|out|, b)
  {
    match b
    case Raw(data) => out + data
    case Static(ts) => Expand(out, ts)
    case Dynamic(h, ts) => Expand(out, ts)
  }

  /** The bits of a block that starts at bit position pos of the stream, after the first one. */
  function BodyBits(size: nat, pos: nat, b: Block): (r: seq<bool>)
    requires ValidBlock(size, b)
    ensures |r| >= 2
  {
    match b
    case Raw(data) =>
      ToBits(0, 2) + (Padding(pos + 3) + (ToBits(|data|, 16) + (ToBits(0xFFFF - |data|, 16) + BytesToBits(data))))
    case Static(ts) => ToBits(1, 2) + CodesBits(StaticLit(), StaticDist(), ts)
    case Dynamic(h, ts) => ToBits(2, 2) + (HeaderBits(h) + CodesBits(h.lit, h.dist, ts))
  }

  /** The bits of a block that starts at bit position pos of the stream. */
  function BlockBits(size: nat, pos: nat, final: bool, b: Block): (r: seq<bool>)
    requires ValidBlock(size, b)
    ensures |r| >= 3
  {
    [final] + BodyBits(size, pos, b)
  }

  lemma {:induction false} StoredBytes(bits: seq<bool>, p: nat, data: seq<Byte>)
    requires At(bits, p, BytesToBits(data))
    ensures BytesAt(bits, p, |data|) == data
    decreases |data|
  {
    if data != [] {
      Pow2Values();
      AtSplit(bits, p, ToBits(data[0], 8), BytesToBits(data[1..]));
      ReadFieldAt(bits, p, data[0], 8);
      StoredBytes(bits, p + 8, data[1..]);
    }
  }

  lemma RawFields(bits: seq<bool>, pos: nat, data: seq<Byte>)
    requires |data| < 0x10000
    requires At(bits, pos, Padding(pos) + (ToBits(|data|, 16) + (ToBits(0xFFFF - |data|, 16) + BytesToBits(data))))
    ensures var p := AlignUp(pos);
            && p + 32 + 8 * |data| <= |bits|
            && FromBits(bits[p..p + 16]) == |data| && FromBits(bits[p + 16..p + 32]) == 0xFFFF - |data|
            && BytesAt(bits, p + 32, |data|) == data
  {
    hide *;
    var p, len := AlignUp(pos), |data|;
    RawParts(bits, pos, p, Padding(pos), ToBits(len, 16), ToBits(0xFFFF - len, 16), BytesToBits(data));
    SixteenBits(len);
    SixteenBits(0xFFFF - len);
    RawLengths(bits, p, p + 16, p + 32, len);
    AtBound(bits, p + 32, BytesToBits(data));
    StoredBytes(bits, p + 32, data);
  }

  lemma RawLengths(bits: seq<bool>, p: nat, q: nat, r: nat, len: nat)
    requires q == p + 16 && r == q + 16 && len < 0x10000 && len < Pow2(16) && 0xFFFF - len < Pow2(16)
    requires At(bits, p, ToBits(len, 16)) && At(bits, q, ToBits(0xFFFF - len, 16))
    ensures r <= |bits| && FromBits(bits[p..q]) == len && FromBits(bits[q..r]) == 0xFFFF - len
  {
    hide *;
    ReadFieldAt(bits, p, len, 16);
    ReadFieldAt(bits, q, 0xFFFF - len, 16);
  }

  lemma SixteenBits(v: nat)
    requires v < 0x10000
    ensures v < Pow2(16)
  {
    Pow2Values();
  }

  lemma RawParts(bits: seq<bool>, pos: nat, p: nat, a: seq<bool>, b: seq<bool>, c: seq<bool>, d: seq<bool>)
    requires At(bits, pos, a + (b + (c + d))) && |b| == |c| == 16 && p == pos + |a|
    ensures At(bits, p, b) && At(bits, p + 16, c) && At(bits, p + 32, d)
  {
    hide *;
    AtSplit(bits, pos, a, b + (c + d));
    AtSplit(bits, p, b, c + d);
    AtSplit(bits, p + 16, c, d);
  }

  lemma InflateRaw(bits: seq<bool>, pos: nat, data: seq<Byte>, out: seq<Byte>)
    requires |data| < 0x10000
    requires At(bits, pos, Padding(pos) + (ToBits(|data|, 16) + (ToBits(0xFFFF - |data|, 16) + BytesToBits(data))))
    ensures InflateStored(bits, pos, out) == Some(Result(out + data, AlignUp(pos) + 32 + 8 * |data|))
  {
    hide *;
    RawFields(bits, pos, data);
    StoredFields(bits, pos, AlignUp(pos), out, data);
  }

  lemma StoredFields(bits: seq<bool>, pos: nat, p: nat, out: seq<Byte>, data: seq<Byte>)
    requires p == AlignUp(pos) && |data| < 0x10000 && p + 32 + 8 * |data| <= |bits|
    requires FromBits(bits[p..p + 16]) == |data| && FromBits(bits[p + 16..p + 32]) == 0xFFFF - |data|
    requires BytesAt(bits, p + 32, |data|) == data
    ensures InflateStored(bits, pos, out) == Some(Result(out + data, p + 32 + 8 * |data|))
  {
    hide FromBits, BytesAt, AlignUp;
  }

  lemma StaticTables()
    ensures Fits(StaticLit(), 15) && Fits(StaticDist(), 15) && StaticLit()[256] > 0
    ensures Complete(StaticLit(), 15) && Complete(StaticDist(), 15)
  {
    var s, d := StaticLit(), StaticDist();
    StaticCounts();
    assert NextCode(s, 7) == 0;
    assert NextCode(s, 8) == 48;
    assert NextCode(s, 9) == 400;
    assert NextCode(s, 10) == 1024;
    assert NextCode(s, 13) == 8192;
    assert NextCode(s, 16) == 65536;
    assert NextCode(d, 5) == 0;
    assert NextCode(d, 6) == 64;
    assert NextCode(d, 9) == 512;
    assert NextCode(d, 12) == 4096;
    assert NextCode(d, 15) == 32768;
    assert NextCode(d, 16) == 65536;
    assert Pow2(16) == 65536 by { Pow2Values(); }
  }

  lemma StaticCounts()
    ensures forall l :: CountLen(StaticLit(), l) == if l == 7 then 24 else if l == 8 then 152 else if l == 9 then 112 else 0
    ensures forall l :: CountLen(StaticDist(), l) == if l == 5 then 32 else 0
  {
    forall l ensures CountLen(StaticLit(), l) == (if l == 7 then 24 else if l == 8 then 152 else if l == 9 then 112 else 0) {
      CountLenAppend(Fill(8, 144) + Fill(9, 112) + Fill(7, 24), Fill(8, 8), l);
      CountLenAppend(Fill(8, 144) + Fill(9, 112), Fill(7, 24), l);
      CountLenAppend(Fill(8, 144), Fill(9, 112), l);
      CountFill(8, 144, l);
      CountFill(9, 112, l);
      CountFill(7, 24, l);
      CountFill(8, 8, l);
    }
    forall l ensures CountLen(StaticDist(), l) == (if l == 5 then 32 else 0) {
      CountFill(5, 32, l);
    }
  }

  lemma {:induction false} CountFill(v: nat, n: nat, l: nat)
    ensures CountLen(Fill(v, n), l) == if v == l then n else 0
  {
    if n > 0 {
      assert Fill(v, n)[..n - 1] == Fill(v, n - 1);
      CountFill(v, n - 1, l);
    }
  }

  /** The block type, as the decoder reads it. */
  lemma KindOf(bits: seq<bool>, pos: nat, final: bool, kind: nat, rest: seq<bool>)
    requires kind < 4 && At(bits, pos, [final] + (ToBits(kind, 2) + rest))
    ensures pos + 3 <= |bits| && bits[pos] == final && FromBits(bits[pos + 1..pos + 3]) == kind
    ensures At(bits, pos + 3, rest)
  {
    assert Pow2(2) == 4;
    AtSplit(bits, pos, [final], ToBits(kind, 2) + rest);
    AtSplit(bits, pos + 1, ToBits(kind, 2), rest);
    ReadFieldAt(bits, pos + 1, kind, 2);
    assert bits[pos] == bits[pos..pos + 1][0];
  }

  lemma InflateRawBlock(bits: seq<bool>, pos: nat, final: bool, data: seq<Byte>, out: seq<Byte>)
    requires |data| < 0x10000 && At(bits, pos, BlockBits(|out|, pos, final, Raw(data)))
    ensures pos + 3 <= |bits| && bits[pos] == final
    ensures InflateBlock(bits, pos, out) == Some(Result(out + data, pos + |BlockBits(|out|, pos, final, Raw(data))|))
  {
    hide ToBits, FromBits, BytesToBits, At, AlignUp, InflateStored, InflateCodes, InflateTables, StaticLit, StaticDist;
    KindOf(bits, pos, final, 0, Padding(pos + 3) + (ToBits(|data|, 16) + (ToBits(0xFFFF - |data|, 16) + BytesToBits(data))));
    InflateRaw(bits, pos + 3, data, out);
  }

  lemma InflateStaticBlock(bits: seq<bool>, pos: nat, final: bool, ts: seq<Token>, out: seq<Byte>)
    requires AllCovered(StaticLit(), StaticDist(), ts) && Applicable(|out|, ts) && At(bits, pos, BlockBits(|out|, pos, final, Static(ts)))
    ensures pos + 3 <= |bits| && bits[pos] == final
    ensures InflateBlock(bits, pos, out) == Some(Result(Expand(out, ts), pos + |BlockBits(|out|, pos, final, Static(ts))|))
  {
    hide ToBits, FromBits, At, InflateStored, InflateCodes, InflateTables, CodesBits, StaticLit, StaticDist, AllCovered, Applicable, Expand, Fits, Complete;
    KindOf(bits, pos, final, 1, CodesBits(StaticLit(), StaticDist(), ts));
    StaticTables();
    InflateCodesOfTokens(StaticLit(), StaticDist(), bits, pos + 3, out, ts);
  }

  lemma InflateDynamicBlock(bits: seq<bool>, pos: nat, final: bool, h: Header, ts: seq<Token>, out: seq<Byte>)
    requires ValidBlock(|out|, Dynamic(h, ts)) && At(bits, pos, BlockBits(|out|, pos, final, Dynamic(h, ts)))
    ensures pos + 3 <= |bits| && bits[pos] == final
    ensures InflateBlock(bits, pos, out) == Some(Result(Expand(out, ts), pos + |BlockBits(|out|, pos, final, Dynamic(h, ts))|))
  {
    hide ToBits, FromBits, At, InflateStored, InflateCodes, InflateTables, CodesBits, HeaderBits, StaticLit, StaticDist;
    hide ValidHeader, AllCovered, Applicable, Expand, Fits, Accepted;
    HeaderTables(h);
    var codes := CodesBits(h.lit, h.dist, ts);
    KindOf(bits, pos, final, 2, HeaderBits(h) + codes);
    AtSplit(bits, pos + 3, HeaderBits(h), codes);
    InflateHeader(bits, pos + 3, h);
    InflateCodesOfTokens(h.lit, h.dist, bits, pos + 3 + |HeaderBits(h)|, out, ts);
  }

  /** Every block is read back as the bytes it stands for, up to its last bit. */
  lemma InflateBlockOf(bits: seq<bool>, pos: nat, final: bool, b: Block, out: seq<Byte>)
    requires ValidBlock(|out|, b) && At(bits, pos, BlockBits(|out|, pos, final, b))
    ensures pos + 3 <= |bits| && bits[pos] == final
    ensures InflateBlock(bits, pos, out) == Some(Result(BlockBytes(out, b), pos + |BlockBits(|out|, pos, final, b)|))
  {
    hide At, BlockBits, InflateBlock, StaticLit, StaticDist, ValidHeader, AllCovered, Applicable, Expand;
    match b
    case Raw(data) => InflateRawBlock(bits, pos, final, data, out);
    case Static(ts) => InflateStaticBlock(bits, pos, final, ts, out);
    case Dynamic(h, ts) => InflateDynamicBlock(bits, pos, final, h, ts, out);
  }

  lemma HeaderTables(h: Header)
    requires ValidHeader(h)
    ensures Fits(h.lit, 15) && Fits(h.dist, 15) && |h.lit| > 256 && h.lit[256] > 0
  {
  }

  // ---------- streams ----------

  predicate ValidBlocks(bs: seq<Block>)
    decreases |bs|, 0
  {
    bs == [] || (ValidBlocks(bs[..|bs| - 1]) && ValidBlock(|StreamBytes(bs[..|bs| - 1])|, bs[|bs| - 1]))
  }

  function StreamBytes(bs: seq<Block>): seq<Byte>
    requires ValidBlocks(bs)
    decreases |bs|, 1
  {
    if bs == [] then [] else BlockBytes(StreamBytes(bs[..|bs| - 1]), bs[|bs| - 1])
  }

  /** Blocks one after the other, none of them marked final. */
  function StreamBits(bs: seq<Block>): seq<bool>
    requires ValidBlocks(bs)
  {
    if bs == [] then []
    else
      var init := bs[..|bs| - 1];
      StreamBits(init) + BlockBits(|StreamBytes(init)|, |StreamBits(init)|, false, bs[|bs| - 1])
  }

  /** Decoding a stream that starts with these blocks goes on after them, with their bytes. */
  lemma {:induction false} InflateBlocks(bits: seq<bool>, bs: seq<Block>)
    requires ValidBlocks(bs) && At(bits, 0, StreamBits(bs))
    ensures InflateFrom(bits, 0, []) == InflateFrom(bits, |StreamBits(bs)|, StreamBytes(bs))
  {
    hide InflateBlock, BlockBits, BlockBytes, ValidBlock;
    if bs != [] {
      var init, b := bs[..|bs| - 1], bs[|bs| - 1];
      var out, pos := StreamBytes(init), |StreamBits(init)|;
      AtSplit(bits, 0, StreamBits(init), BlockBits(|out|, pos, false, b));
      InflateBlocks(bits, init);
      InflateBlockOf(bits, pos, false, b, out);
    }
  }

  lemma InflateStreamFrom(bits: seq<bool>, bs: seq<Block>, last: Block, rest: seq<bool>)
    requires ValidBlocks(bs + [last])
    requires ValidBlocks(bs) && ValidBlock(|StreamBytes(bs)|, last)
    requires bits == StreamBits(bs) + BlockBits(|StreamBytes(bs)|, |StreamBits(bs)|, true, last) + rest
    ensures InflateFrom(bits, 0, []) == Some(Result(StreamBytes(bs + [last]), |bits| - |rest|))
  {
    hide BytesToBits, StreamBits, BlockBits, BlockBytes, ValidBlock, InflateBlock, InflateFrom;
    var a, b := StreamBits(bs), BlockBits(|StreamBytes(bs)|, |StreamBits(bs)|, true, last);
    assert bits == a + (b + rest);
    PartsAt(bits, a, b, rest);
    InflateBlocks(bits, bs);
    InflateBlockOf(bits, |a|, true, last, StreamBytes(bs));
    assert (bs + [last])[..|bs + [last]| - 1] == bs;
    InflateLast(bits, |a|, StreamBytes(bs));
  }

  /** The round trip: a stream of any valid blocks, the last one marked final, decodes to the bytes
      that the blocks stand for; what follows the final block does not matter. */
  lemma InflateStream(stream: seq<Byte>, bs: seq<Block>, last: Block, rest: seq<bool>)
    requires ValidBlocks(bs + [last])
    requires ValidBlocks(bs) && ValidBlock(|StreamBytes(bs)|, last)
    requires BytesToBits(stream) == StreamBits(bs) + BlockBits(|StreamBytes(bs)|, |StreamBits(bs)|, true, last) + rest
    ensures InflateAll(stream) == Some(StreamBytes(bs + [last]))
  {
    hide BytesToBits, StreamBits, BlockBits, BlockBytes, ValidBlock, InflateFrom;
    InflateStreamFrom(BytesToBits(stream), bs, last, rest);
  }

  lemma PartsAt(bits: seq<bool>, a: seq<bool>, b: seq<bool>, c: seq<bool>)
    requires bits == a + (b + c)
    ensures At(bits, 0, a) && At(bits, |a|, b)
  {
  }

  lemma InflateLast(bits: seq<bool>, pos: nat, out: seq<Byte>)
    requires pos + 3 <= |bits| && bits[pos] && InflateBlock(bits, pos, out).Some?
    ensures InflateFrom(bits, pos, out) == InflateBlock(bits, pos, out)
  {
    hide InflateBlock;
  }
}
