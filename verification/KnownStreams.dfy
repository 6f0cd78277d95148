/** The constants of DEFLATE and zlib, on which writer and reader have to agree with everyone else: laws for
    the tables, the codes of section 3.2 of RFC 1951, and whole streams with what they stand for. */
module KnownStreams {
  import opened Bits
  import opened CanonicalCode
  import opened Inflate
  import opened Blocks
  import opened BlockFormat
  import opened RunLength
  import Checksums
  import Zlib

  // ---------- the tables of section 3.2.5 ----------

  /** The ranges of the length symbols follow one another from 3 on, each as long as its extra bits allow; the last
      symbol stands for 258 alone. */
  lemma LengthRanges()
    ensures LengthBase(0) == 3 && LengthBase(28) == 258 && LengthExtra(28) == 0
    ensures forall k :: 0 <= k < 28 ==> LengthExtra(k) == if k < 8 then 0 else k / 4 - 1
    ensures forall k, l :: 0 <= k < 27 && l == k + 1 ==> LengthBase(l) == LengthBase(k) + Pow2(LengthExtra(k))
  {
    hide LengthBase, LengthExtra;
    LengthExtras();
    forall k, l | 0 <= k < 27 && l == k + 1 ensures LengthBase(l) == LengthBase(k) + Pow2(LengthExtra(k)) { NextLength(k); }
  }

  lemma LengthExtras()
    ensures LengthBase(0) == 3 && LengthBase(28) == 258 && LengthExtra(28) == 0
    ensures forall k :: 0 <= k < 28 ==> LengthExtra(k) == if k < 8 then 0 else k / 4 - 1
  {
  }

  lemma NextLength(k: nat)
    requires k < 27
    ensures LengthBase(k + 1) == LengthBase(k) + Pow2(LengthExtra(k))
  {
    Powers();
  }

  /** As do those of the distance symbols, from 1 on, and they reach 32768. */
  lemma DistRanges()
    ensures DistBase(0) == 1 && DistBase(29) + Pow2(DistExtra(29)) == 32769
    ensures forall k :: 0 <= k < 30 ==> DistExtra(k) == if k < 4 then 0 else k / 2 - 1
    ensures forall k, l :: 0 <= k < 29 && l == k + 1 ==> DistBase(l) == DistBase(k) + Pow2(DistExtra(k))
  {
    hide DistBase, DistExtra;
    DistExtras();
    Powers();
    forall k, l | 0 <= k < 29 && l == k + 1 ensures DistBase(l) == DistBase(k) + Pow2(DistExtra(k)) { NextDist(k); }
  }

  lemma DistExtras()
    ensures DistBase(0) == 1 && DistBase(29) == 24577
    ensures forall k :: 0 <= k < 30 ==> DistExtra(k) == if k < 4 then 0 else k / 2 - 1
  {
  }

  lemma NextDist(k: nat)
    requires k < 29
    ensures DistBase(k + 1) == DistBase(k) + Pow2(DistExtra(k))
  {
    Powers();
  }

  lemma Powers()
    ensures Pow2(0) == 1 && Pow2(1) == 2 && Pow2(2) == 4 && Pow2(3) == 8 && Pow2(4) == 16 && Pow2(5) == 32 && Pow2(6) == 64
    ensures Pow2(7) == 128 && Pow2(8) == 256 && Pow2(9) == 512 && Pow2(10) == 1024 && Pow2(11) == 2048 && Pow2(12) == 4096 && Pow2(13) == 8192
  {
    assert Pow2(4) == 16;
    assert Pow2(8) == 256;
    assert Pow2(12) == 4096;
  }

  // ---------- the order of section 3.2.7 ----------

  /** Field k of the code lengths that follow the 14 bits of counts. */
  function Field(bits: seq<bool>, pos: nat, k: nat): nat
    requires pos + 3 * k + 3 <= |bits|
  {
    FromBits(bits[pos + 3 * k..pos + 3 * k + 3])
  }

  /** What symbol s gets from its field, if that is sent at all. */
  ghost predicate Sent(cl: seq<nat>, s: int, bits: seq<bool>, pos: nat, k: nat, n: nat)
    requires pos + 3 * n <= |bits|
  {
    0 <= s < |cl| && cl[s] == if k < n then Field(bits, pos, k) else 0
  }

  /** Fields already read are in place, the others are still zero. */
  lemma {:induction false} ClFields(bits: seq<bool>, pos: nat, i: nat, n: nat, cl: seq<nat>, start: nat)
    requires i <= n <= 19 && |cl| == 19 && pos == start + 3 * i && start + 3 * n <= |bits|
    requires forall k :: 0 <= k < 19 ==> cl[Dezigzag(k)] == if k < i then Field(bits, start, k) else 0
    ensures var r := InflateCl(bits, pos, i, n, cl); r.Some? && forall k :: 0 <= k < 19 ==> Sent(r.value, Dezigzag(k), bits, start, k, n)
    decreases n - i
  {
    hide Dezigzag, FromBits, Zigzag;
    if i < n {
      var v := Field(bits, start, i);
      var next := cl[Dezigzag(i) := v];
      assert ReadBits(bits, pos, 3) == Some(v);
      forall k | 0 <= k < 19 ensures next[Dezigzag(k)] == if k < i + 1 then Field(bits, start, k) else 0 {
        ZigzagInverse(k, 0);
        ZigzagInverse(i, 0);
      }
      ClFields(bits, pos + 3, i + 1, n, next, start);
    }
  }

  /** The first four fields are for 16, 17, 18 and 0; then they go up from 8 and down from 7 by turns. A symbol
      whose field is not sent has length zero. */
  lemma ClOrder(bits: seq<bool>, pos: nat, n: nat)
    requires 4 <= n <= 19 && pos + 3 * n <= |bits|
    ensures InflateCl(bits, pos, 0, n, Fill(0, 19)).Some?
    ensures var cl := InflateCl(bits, pos, 0, n, Fill(0, 19)).value;
      && Sent(cl, 16, bits, pos, 0, n) && Sent(cl, 17, bits, pos, 1, n) && Sent(cl, 18, bits, pos, 2, n) && Sent(cl, 0, bits, pos, 3, n)
      && (forall j :: 0 <= j <= 7 ==> Sent(cl, 8 + j, bits, pos, 4 + 2 * j, n))
      && (forall j :: 0 <= j <= 6 ==> Sent(cl, 7 - j, bits, pos, 5 + 2 * j, n))
  {
    hide Sent, InflateCl, Field, Dezigzag;
    ClFields(bits, pos, 0, n, Fill(0, 19), pos);
    var cl := InflateCl(bits, pos, 0, n, Fill(0, 19)).value;
    Order();
    assert Sent(cl, Dezigzag(0), bits, pos, 0, n) && Sent(cl, Dezigzag(1), bits, pos, 1, n);
    assert Sent(cl, Dezigzag(2), bits, pos, 2, n) && Sent(cl, Dezigzag(3), bits, pos, 3, n);
    forall j | 0 <= j <= 7 ensures Sent(cl, 8 + j, bits, pos, 4 + 2 * j, n) { assert Sent(cl, Dezigzag(4 + 2 * j), bits, pos, 4 + 2 * j, n); }
    forall j | 0 <= j <= 6 ensures Sent(cl, 7 - j, bits, pos, 5 + 2 * j, n) { assert Sent(cl, Dezigzag(5 + 2 * j), bits, pos, 5 + 2 * j, n); }
  }

  lemma Order()
    ensures Dezigzag(0) == 16 && Dezigzag(1) == 17 && Dezigzag(2) == 18 && Dezigzag(3) == 0
    ensures (forall j :: 0 <= j <= 7 ==> Dezigzag(4 + 2 * j) == 8 + j) && forall j :: 0 <= j <= 6 ==> Dezigzag(5 + 2 * j) == 7 - j
  {
  }

  /** Symbol 16 stands for the length before it 3 to 6 times, 17 for 3 to 10 zeros, 18 for 11 to 138. */
  lemma RunRanges(acc: seq<nat>, x: nat)
    requires acc != []
    ensures Run(acc, 16, x) == Fill(acc[|acc| - 1], 3 + x) && Pow2(RepeatExtra(16)) == 4
    ensures Run(acc, 17, x) == Fill(0, 3 + x) && Pow2(RepeatExtra(17)) == 8
    ensures Run(acc, 18, x) == Fill(0, 11 + x) && Pow2(RepeatExtra(18)) == 128
  {
    Powers();
  }

  // ---------- the codes of sections 3.2.2 and 3.2.6 ----------

  /** The example of section 3.2.2: the lengths of A to H, and their codes. */
  lemma ExampleCode()
    ensures var lens: seq<nat> := [3, 3, 3, 3, 3, 2, 4, 4];
      && Codeword(lens, 0) == [false, true, false] && Codeword(lens, 1) == [false, true, true]
      && Codeword(lens, 2) == [true, false, false] && Codeword(lens, 3) == [true, false, true]
      && Codeword(lens, 4) == [true, true, false] && Codeword(lens, 5) == [false, false]
      && Codeword(lens, 6) == [true, true, true, false] && Codeword(lens, 7) == [true, true, true, true]
  {
    var lens: seq<nat> := [3, 3, 3, 3, 3, 2, 4, 4];
    hide Codeword, CountLen, NextCode;
    ExamplePrefixes(lens);
    ExampleStarts(lens);
    ExampleThrees(lens);
    ExampleOthers(lens);
  }

  lemma ExampleOthers(lens: seq<nat>)
    requires lens == [3, 3, 3, 3, 3, 2, 4, 4] && NextCode(lens, 2) == 0 && NextCode(lens, 4) == 14
    requires CountLen(lens[..5], 2) == 0 && CountLen(lens[..6], 4) == 0 && CountLen(lens[..7], 4) == 1
    ensures Codeword(lens, 5) == [false, false] && Codeword(lens, 6) == [true, true, true, false] && Codeword(lens, 7) == [true, true, true, true]
  {
    hide MsbBits, CountLen, NextCode;
    MsbOfTwo(0);
    MsbOfFour(14);
    MsbOfFour(15);
  }

  lemma ExampleThrees(lens: seq<nat>)
    requires lens == [3, 3, 3, 3, 3, 2, 4, 4] && NextCode(lens, 3) == 2
    requires CountLen(lens[..0], 3) == 0 && CountLen(lens[..1], 3) == 1 && CountLen(lens[..2], 3) == 2 && CountLen(lens[..3], 3) == 3 && CountLen(lens[..4], 3) == 4
    ensures Codeword(lens, 0) == [false, true, false] && Codeword(lens, 1) == [false, true, true]
    ensures Codeword(lens, 2) == [true, false, false] && Codeword(lens, 3) == [true, false, true] && Codeword(lens, 4) == [true, true, false]
  {
    hide MsbBits, CountLen, NextCode;
    MsbOfThree(2);
    MsbOfThree(3);
    MsbOfThree(4);
    MsbOfThree(5);
    MsbOfThree(6);
  }

  lemma ExampleStarts(lens: seq<nat>)
    requires CountLen(lens, 1) == 0 && CountLen(lens, 2) == 1 && CountLen(lens, 3) == 5
    ensures NextCode(lens, 2) == 0 && NextCode(lens, 3) == 2 && NextCode(lens, 4) == 14
  {
    hide CountLen;
    assert NextCode(lens, 2) == 0;
    assert NextCode(lens, 3) == 2;
  }

  lemma ExamplePrefixes(lens: seq<nat>)
    requires lens == [3, 3, 3, 3, 3, 2, 4, 4]
    ensures CountLen(lens, 1) == 0 && CountLen(lens, 2) == 1 && CountLen(lens, 3) == 5
    ensures CountLen(lens[..0], 3) == 0 && CountLen(lens[..1], 3) == 1 && CountLen(lens[..2], 3) == 2 && CountLen(lens[..3], 3) == 3 && CountLen(lens[..4], 3) == 4
    ensures CountLen(lens[..5], 2) == 0 && CountLen(lens[..6], 4) == 0 && CountLen(lens[..7], 4) == 1
  {
    PrefixesOf(lens, 1);
    PrefixesOf(lens, 2);
    PrefixesOf(lens, 3);
    PrefixesOf(lens, 4);
    assert lens[..8] == lens;
  }

  lemma PrefixesOf(lens: seq<nat>, l: nat)
    requires |lens| == 8
    ensures CountLen(lens[..0], l) == 0
    ensures CountLen(lens[..1], l) == CountLen(lens[..0], l) + if lens[0] == l then 1 else 0
    ensures CountLen(lens[..2], l) == CountLen(lens[..1], l) + if lens[1] == l then 1 else 0
    ensures CountLen(lens[..3], l) == CountLen(lens[..2], l) + if lens[2] == l then 1 else 0
    ensures CountLen(lens[..4], l) == CountLen(lens[..3], l) + if lens[3] == l then 1 else 0
    ensures CountLen(lens[..5], l) == CountLen(lens[..4], l) + if lens[4] == l then 1 else 0
    ensures CountLen(lens[..6], l) == CountLen(lens[..5], l) + if lens[5] == l then 1 else 0
    ensures CountLen(lens[..7], l) == CountLen(lens[..6], l) + if lens[6] == l then 1 else 0
    ensures CountLen(lens[..8], l) == CountLen(lens[..7], l) + if lens[7] == l then 1 else 0
  {
    hide CountLen;
    CountOne(lens, 0, l);
    CountOne(lens, 1, l);
    CountOne(lens, 2, l);
    CountOne(lens, 3, l);
    CountOne(lens, 4, l);
    CountOne(lens, 5, l);
    CountOne(lens, 6, l);
    CountOne(lens, 7, l);
    CountNone(l);
    assert lens[..0] == [];
  }

  lemma CountNone(l: nat)
    ensures CountLen([], l) == 0
  {
  }

  lemma CountOne(lens: seq<nat>, i: nat, l: nat)
    requires i < |lens|
    ensures CountLen(lens[..i + 1], l) == CountLen(lens[..i], l) + if lens[i] == l then 1 else 0
  {
    assert lens[..i + 1][..i] == lens[..i];
  }

  /** The fixed code: 8 bits from 00110000 for 0 to 143, 9 bits from 110010000 for 144 to 255, 7 bits from 0000000 for
      256 to 279, 8 bits from 11000000 for 280 to 287; distances are 5 bits that spell the symbol. */
  lemma StaticCodes(s: nat)
    requires s < 288
    ensures s < 144 ==> Codeword(StaticLit(), s) == MsbBits(0x30 + s, 8)
    ensures 144 <= s < 256 ==> Codeword(StaticLit(), s) == MsbBits(0x190 + (s - 144), 9)
    ensures 256 <= s < 280 ==> Codeword(StaticLit(), s) == MsbBits(s - 256, 7)
    ensures 280 <= s ==> Codeword(StaticLit(), s) == MsbBits(0xC0 + (s - 280), 8)
    ensures s < 32 ==> Codeword(StaticDist(), s) == MsbBits(s, 5)
  {
    hide StaticLit, MsbBits, CountLen, NextCode;
    StaticStarts();
    StaticRank(s);
    if s < 32 { assert StaticDist()[..s] == Fill(5, s); CountFill(5, s, 5); }
  }

  lemma StaticStarts()
    ensures NextCode(StaticLit(), 7) == 0 && NextCode(StaticLit(), 8) == 48 && NextCode(StaticLit(), 9) == 400
    ensures NextCode(StaticDist(), 5) == 0
  {
    hide StaticLit, StaticDist, CountLen;
    StaticCounts();
    assert NextCode(StaticLit(), 4) == 0;
    assert NextCode(StaticDist(), 3) == 0;
  }

  /** How many symbols before s have the length of s, and what that is. */
  lemma StaticRank(s: nat)
    requires s < 288
    ensures var l := StaticLit(); CountLen(l[..s], l[s]) == if s < 144 then s else if s < 256 then s - 144 else if s < 280 then s - 256 else 144 + (s - 280)
    ensures StaticLit()[s] == if s < 144 then 8 else if s < 256 then 9 else if s < 280 then 7 else 8
  {
    hide CountLen;
    var p := StaticLit()[..s];
    var l := StaticLit()[s];
    CountFill(8, 144, l);
    CountFill(9, 112, l);
    CountFill(7, 24, l);
    CountLenAppend(Fill(8, 144), Fill(9, 112), l);
    CountLenAppend(Fill(8, 144) + Fill(9, 112), Fill(7, 24), l);
    if s < 144 {
      assert p == Fill(8, s);
      CountFill(8, s, l);
    } else if s < 256 {
      assert p == Fill(8, 144) + Fill(9, s - 144);
      CountLenAppend(Fill(8, 144), Fill(9, s - 144), l);
      CountFill(9, s - 144, l);
    } else if s < 280 {
      assert p == Fill(8, 144) + Fill(9, 112) + Fill(7, s - 256);
      CountLenAppend(Fill(8, 144) + Fill(9, 112), Fill(7, s - 256), l);
      CountFill(7, s - 256, l);
    } else {
      assert p == Fill(8, 144) + Fill(9, 112) + Fill(7, 24) + Fill(8, s - 280);
      CountLenAppend(Fill(8, 144) + Fill(9, 112) + Fill(7, 24), Fill(8, s - 280), l);
      CountFill(8, s - 280, l);
    }
  }

  lemma MsbOfTwo(v: nat)
    ensures MsbBits(v, 2) == [v / 2 % 2 == 1, v % 2 == 1]
  {
    assert MsbBits(v / 2 / 2, 0) == [];
    assert MsbBits(v / 2, 1) == [v / 2 % 2 == 1];
  }

  lemma MsbOfThree(v: nat)
    ensures MsbBits(v, 3) == [v / 4 % 2 == 1, v / 2 % 2 == 1, v % 2 == 1]
  {
    MsbOfTwo(v / 2);
  }

  lemma MsbOfFour(v: nat)
    ensures MsbBits(v, 4) == [v / 8 % 2 == 1, v / 4 % 2 == 1, v / 2 % 2 == 1, v % 2 == 1]
  {
    MsbOfThree(v / 2);
  }

  // ---------- bits of a stream ----------

  /** A byte goes into the stream from its lowest bit on. */
  lemma {:induction false} BitAt(s: seq<Byte>, k: nat, i: nat)
    requires k < |s| && i < 8
    ensures BytesToBits(s)[8 * k + i] == Bit(s[k], Pow2(i))
  {
    hide ToBits, Bit, Pow2;
    var b := BytesToBits(s);
    if k == 0 {
      BitOf(s[0], 8, i);
      assert b[i] == ToBits(s[0], 8)[i];
    } else {
      BitAt(s[1..], k - 1, i);
      assert b[8 * k + i] == BytesToBits(s[1..])[8 * (k - 1) + i];
    }
  }

  /** The bit of weight w. */
  predicate Bit(v: nat, w: nat)
    requires w > 0
  {
    v / w % 2 == 1
  }

  lemma {:induction false} BitOf(v: nat, n: nat, i: nat)
    requires i < n
    ensures ToBits(v, n)[i] == Bit(v, Pow2(i))
  {
    if i > 0 {
      BitOf(v / 2, n - 1, i - 1);
      ShrShr(v, i);
      assert ToBits(v, n)[i] == ToBits(v / 2, n - 1)[i - 1];
    }
  }

  lemma EightAt(s: seq<Byte>, k: nat)
    requires k < |s|
    ensures var b := BytesToBits(s);
      && b[8 * k] == Bit(s[k], 1) && b[8 * k + 1] == Bit(s[k], 2) && b[8 * k + 2] == Bit(s[k], 4) && b[8 * k + 3] == Bit(s[k], 8)
      && b[8 * k + 4] == Bit(s[k], 16) && b[8 * k + 5] == Bit(s[k], 32) && b[8 * k + 6] == Bit(s[k], 64) && b[8 * k + 7] == Bit(s[k], 128)
  {
    hide BytesToBits, Bit, Pow2;
    Powers();
    BitAt(s, k, 0);
    BitAt(s, k, 1);
    BitAt(s, k, 2);
    BitAt(s, k, 3);
    BitAt(s, k, 4);
    BitAt(s, k, 5);
    BitAt(s, k, 6);
    BitAt(s, k, 7);
  }

  /** A codeword is there, its highest bit first. */
  lemma {:induction false} CodeBits(v: nat, n: nat, i: nat)
    requires i < n
    ensures MsbBits(v, n)[i] == Bit(v, Pow2(n - 1 - i))
  {
    if i < n - 1 {
      CodeBits(v / 2, n - 1, i);
      ShrShr(v, n - 1 - i);
    }
  }

  lemma BitwiseAt(bits: seq<bool>, p: nat, w: seq<bool>)
    requires p + |w| <= |bits| && forall i :: 0 <= i < |w| ==> bits[p + i] == w[i]
    ensures At(bits, p, w)
  {
  }

  lemma Code5(bits: seq<bool>, p: nat, v: nat)
    requires p + 5 <= |bits|
    requires bits[p] == Bit(v, 16) && bits[p + 1] == Bit(v, 8) && bits[p + 2] == Bit(v, 4) && bits[p + 3] == Bit(v, 2) && bits[p + 4] == Bit(v, 1)
    ensures At(bits, p, MsbBits(v, 5))
  {
    hide Bit, MsbBits, Pow2;
    Powers();
    CodeBits(v, 5, 0);
    CodeBits(v, 5, 1);
    CodeBits(v, 5, 2);
    CodeBits(v, 5, 3);
    CodeBits(v, 5, 4);
    BitwiseAt(bits, p, MsbBits(v, 5));
  }

  lemma Code7(bits: seq<bool>, p: nat, v: nat)
    requires p + 7 <= |bits|
    requires bits[p] == Bit(v, 64) && bits[p + 1] == Bit(v, 32) && bits[p + 2] == Bit(v, 16) && bits[p + 3] == Bit(v, 8)
    requires bits[p + 4] == Bit(v, 4) && bits[p + 5] == Bit(v, 2) && bits[p + 6] == Bit(v, 1)
    ensures At(bits, p, MsbBits(v, 7))
  {
    hide Bit, MsbBits, Pow2;
    Powers();
    CodeBits(v, 7, 0);
    CodeBits(v, 7, 1);
    CodeBits(v, 7, 2);
    CodeBits(v, 7, 3);
    CodeBits(v, 7, 4);
    CodeBits(v, 7, 5);
    CodeBits(v, 7, 6);
    BitwiseAt(bits, p, MsbBits(v, 7));
  }

  lemma Code8(bits: seq<bool>, p: nat, v: nat)
    requires p + 8 <= |bits|
    requires bits[p] == Bit(v, 128) && bits[p + 1] == Bit(v, 64) && bits[p + 2] == Bit(v, 32) && bits[p + 3] == Bit(v, 16)
    requires bits[p + 4] == Bit(v, 8) && bits[p + 5] == Bit(v, 4) && bits[p + 6] == Bit(v, 2) && bits[p + 7] == Bit(v, 1)
    ensures At(bits, p, MsbBits(v, 8))
  {
    hide Bit, MsbBits, Pow2;
    Powers();
    CodeBits(v, 8, 0);
    CodeBits(v, 8, 1);
    CodeBits(v, 8, 2);
    CodeBits(v, 8, 3);
    CodeBits(v, 8, 4);
    CodeBits(v, 8, 5);
    CodeBits(v, 8, 6);
    CodeBits(v, 8, 7);
    BitwiseAt(bits, p, MsbBits(v, 8));
  }

  /** Fields of up to three bits. */
  lemma Field1(bits: seq<bool>, p: nat)
    requires p < |bits|
    ensures FromBits(bits[p..p + 1]) == Weight(bits[p], 1)
  {
    assert bits[p..p + 1] == [bits[p]];
  }

  lemma Field2(bits: seq<bool>, p: nat)
    requires p + 2 <= |bits|
    ensures FromBits(bits[p..p + 2]) == Weight(bits[p], 1) + Weight(bits[p + 1], 2)
  {
    Field1(bits, p + 1);
    assert bits[p..p + 2][1..] == bits[p + 1..p + 2];
  }

  lemma Field3(bits: seq<bool>, p: nat)
    requires p + 3 <= |bits|
    ensures FromBits(bits[p..p + 3]) == Weight(bits[p], 1) + Weight(bits[p + 1], 2) + Weight(bits[p + 2], 4)
  {
    Field2(bits, p + 1);
    assert bits[p..p + 3][1..] == bits[p + 1..p + 3];
  }

  function Weight(b: bool, w: nat): nat { if b then w else 0 }

  // ---------- a block with the fixed code ----------

  /** "aab", the five bytes that begin two back, and the twenty that begin eight back. */
  const STATIC: seq<Byte> := [0x4B, 0x4C, 0x4C, 0x02, 0x43, 0x6C, 0x34, 0x00]

  lemma StaticLiterals(b: seq<bool>)
    requires b == BytesToBits(STATIC)
    ensures |b| == 64 && b[0] && FromBits(b[1..3]) == 1
    ensures At(b, 3, MsbBits(0x91, 8)) && At(b, 11, MsbBits(0x91, 8)) && At(b, 19, MsbBits(0x92, 8))
  {
    hide MsbBits, At, BytesToBits, FromBits;
    EightAt(STATIC, 0);
    EightAt(STATIC, 1);
    EightAt(STATIC, 2);
    EightAt(STATIC, 3);
    Field2(b, 1);
    Code8(b, 3, 0x91);
    Code8(b, 11, 0x91);
    Code8(b, 19, 0x92);
  }

  lemma StaticMatches(b: seq<bool>)
    requires b == BytesToBits(STATIC)
    ensures |b| == 64 && At(b, 27, MsbBits(3, 7)) && At(b, 34, MsbBits(1, 5))
  {
    hide MsbBits, At, BytesToBits, FromBits;
    EightAt(STATIC, 3);
    EightAt(STATIC, 4);
    Code7(b, 27, 3);
    Code5(b, 34, 1);
  }

  lemma StaticMatches2(b: seq<bool>)
    requires b == BytesToBits(STATIC)
    ensures |b| == 64 && At(b, 39, MsbBits(13, 7)) && FromBits(b[46..48]) == 1 && At(b, 48, MsbBits(5, 5)) && FromBits(b[53..54]) == 1
    ensures At(b, 54, MsbBits(0, 7))
  {
    hide MsbBits, At, BytesToBits, FromBits;
    EightAt(STATIC, 4);
    EightAt(STATIC, 5);
    EightAt(STATIC, 6);
    EightAt(STATIC, 7);
    Code7(b, 39, 13);
    Field2(b, 46);
    Code5(b, 48, 5);
    Field1(b, 53);
    Code7(b, 54, 0);
  }

  lemma StaticLiteral(b: seq<bool>, p: nat, out: seq<Byte>, x: Byte)
    requires x < 144 && At(b, p, MsbBits(0x30 + x, 8))
    ensures p + 8 <= |b|
    ensures InflateCodes(StaticLit(), StaticDist(), b, p, out) == InflateCodes(StaticLit(), StaticDist(), b, p + 8, out + [x])
  {
    hide Codeword, Fits, DecodeSym, MsbBits;
    StaticTables();
    StaticCodes(x);
    StaticRank(x);
    DecodeCodeword(StaticLit(), 15, x, b, p);
  }

  /** Length symbol s and distance symbol t are read at p and q. */
  lemma StaticSymbols(b: seq<bool>, p: nat, s: nat, q: nat, t: nat)
    requires 256 <= s < 280 && At(b, p, MsbBits(s - 256, 7)) && t < 30 && At(b, q, MsbBits(t, 5))
    ensures DecodeSym(StaticLit(), b, p) == Some(s) && StaticLit()[s] == 7 && DecodeSym(StaticDist(), b, q) == Some(t) && StaticDist()[t] == 5
  {
    hide Codeword, Fits, DecodeSym, MsbBits;
    StaticTables();
    StaticCodes(s);
    StaticRank(s);
    StaticCodes(t);
    DecodeCodeword(StaticLit(), 15, s, b, p);
    DecodeCodeword(StaticDist(), 15, t, b, q);
  }

  lemma StaticMatch(b: seq<bool>, p: nat, out: seq<Byte>, s: nat, x: nat, t: nat, y: nat)
    requires 256 < s < 280 && t < 30
    requires var q := p + 7 + LengthExtra(s - 257); var r := q + 5;
      && At(b, p, MsbBits(s - 256, 7)) && ReadBits(b, p + 7, LengthExtra(s - 257)) == Some(x)
      && At(b, q, MsbBits(t, 5)) && ReadBits(b, r, DistExtra(t)) == Some(y)
    requires DistBase(t) + y <= |out| && p <= |b|
    ensures var end := p + 7 + LengthExtra(s - 257) + 5 + DistExtra(t);
      && end <= |b|
      && InflateCodes(StaticLit(), StaticDist(), b, p, out) == InflateCodes(StaticLit(), StaticDist(), b, end, CopyMatch(out, DistBase(t) + y, LengthBase(s - 257) + x))
  {
    hide At, MsbBits, ReadBits, DecodeSym, LengthExtra, DistExtra, LengthBase, DistBase, InflateCodes, CopyMatch;
    StaticSymbols(b, p, s, p + 7 + LengthExtra(s - 257), t);
    InflateFields(StaticLit(), StaticDist(), b, p, out, s, x, t, y, DistBase(t) + y, LengthBase(s - 257) + x);
  }

  /** What a copy puts out is known by its distance. */
  lemma CopyIs(out: seq<Byte>, dist: nat, len: nat, r: seq<Byte>)
    requires 1 <= dist <= |out| && |r| == |out| + len && r[..|out|] == out && forall i :: |out| <= i < |r| ==> r[i] == r[i - dist]
    ensures CopyMatch(out, dist, len) == r
  {
    var c := CopyMatch(out, dist, len);
    CopySame(c, r, |out|, dist, |r|);
    assert c[..|r|] == c && r[..|r|] == r;
  }

  lemma {:induction false} CopySame(a: seq<Byte>, b: seq<Byte>, n: nat, dist: nat, k: nat)
    requires 1 <= dist <= n <= k <= |a| == |b| && a[..n] == b[..n]
    requires forall i :: n <= i < |a| ==> a[i] == a[i - dist] && b[i] == b[i - dist]
    ensures a[..k] == b[..k]
    decreases k
  {
    if k > n {
      CopySame(a, b, n, dist, k - 1);
      assert a[k - 1 - dist] == a[..k - 1][k - 1 - dist] && b[k - 1 - dist] == b[..k - 1][k - 1 - dist];
      assert a[..k] == a[..k - 1] + [a[k - 1]] && b[..k] == b[..k - 1] + [b[k - 1]];
    }
  }

  function Aab(): (s: seq<Byte>) { [0x61, 0x61, 0x62] }

  function Eight(): (s: seq<Byte>) { [0x61, 0x61, 0x62, 0x61, 0x62, 0x61, 0x62, 0x61] }

  lemma Copies()
    ensures CopyMatch(Aab(), 2, 5) == Eight()
    ensures CopyMatch(Eight(), 8, 20) == Eight() + Eight() + Eight() + Eight()[..4]
  {
    CopyIs(Aab(), 2, 5, Eight());
    var r := Eight() + Eight() + Eight() + Eight()[..4];
    CopyIs(Eight(), 8, 20, r);
  }

  /** A block with literals, matches and extra bits: "aababab" and so on, 28 bytes. */
  lemma StaticAnswer()
    ensures InflateAll(STATIC) == Some(Eight() + Eight() + Eight() + Eight()[..4])
  {
    hide At, MsbBits, BytesToBits, FromBits, InflateCodes, CopyMatch, StaticLit, StaticDist, Eight, Aab;
    var b := BytesToBits(STATIC);
    StaticLiterals(b);
    StaticMatches(b);
    StaticMatches2(b);
    StaticRun(b);
  }

  lemma StaticRun(b: seq<bool>)
    requires |b| == 64
    requires At(b, 3, MsbBits(0x91, 8)) && At(b, 11, MsbBits(0x91, 8)) && At(b, 19, MsbBits(0x92, 8)) && At(b, 27, MsbBits(3, 7)) && At(b, 34, MsbBits(1, 5))
    requires At(b, 39, MsbBits(13, 7)) && FromBits(b[46..48]) == 1 && At(b, 48, MsbBits(5, 5)) && FromBits(b[53..54]) == 1 && At(b, 54, MsbBits(0, 7))
    ensures InflateCodes(StaticLit(), StaticDist(), b, 3, []) == Some(Result(Eight() + Eight() + Eight() + Eight()[..4], 61))
  {
    hide At, MsbBits, FromBits, InflateCodes, CopyMatch, StaticLit, StaticDist, Eight, ReadBits, LengthBase, LengthExtra, DistBase, DistExtra;
    StaticLiteral(b, 3, [], 0x61);
    StaticLiteral(b, 11, [0x61], 0x61);
    StaticLiteral(b, 19, [0x61, 0x61], 0x62);
    assert [] + [0x61] == [0x61] && [0x61] + [0x61] == [0x61, 0x61] && [0x61, 0x61] + [0x62] == Aab();
    Copies();
    Extras(b);
    SomeLengths();
    SomeDistances();
    StaticMatch(b, 27, Aab(), 259, 0, 1, 0);
    StaticMatch(b, 39, Eight(), 269, 1, 5, 1);
    StaticEnd(b, 54, Eight() + Eight() + Eight() + Eight()[..4]);
  }

  lemma Extras(b: seq<bool>)
    requires |b| == 64 && FromBits(b[46..48]) == 1 && FromBits(b[53..54]) == 1
    ensures ReadBits(b, 34, 0) == Some(0) && ReadBits(b, 39, 0) == Some(0) && ReadBits(b, 46, 2) == Some(1) && ReadBits(b, 53, 1) == Some(1)
  {
  }

  lemma SomeLengths()
    ensures LengthBase(2) == 5 && LengthExtra(2) == 0 && LengthBase(12) == 19 && LengthExtra(12) == 2
  {
  }

  lemma SomeDistances()
    ensures DistBase(1) == 2 && DistExtra(1) == 0 && DistBase(5) == 7 && DistExtra(5) == 1
  {
  }

  lemma StaticEnd(b: seq<bool>, p: nat, out: seq<Byte>)
    requires At(b, p, MsbBits(0, 7))
    ensures p <= |b| && InflateCodes(StaticLit(), StaticDist(), b, p, out) == Some(Result(out, p + 7))
  {
    hide Codeword, Fits, DecodeSym, MsbBits;
    StaticTables();
    StaticCodes(256);
    StaticRank(256);
    DecodeCodeword(StaticLit(), 15, 256, b, p);
  }

  // ---------- stored blocks ----------

  lemma {:induction false} BytesOf(s: seq<Byte>, k: nat, n: nat)
    requires k + n <= |s|
    ensures BytesToBits(s)[8 * k..8 * (k + n)] == BytesToBits(s[k..k + n])
  {
    var a, b, c := s[..k], s[k..k + n], s[k + n..];
    assert s == a + b + c;
    BytesToBitsAppend(a + b, c);
    BytesToBitsAppend(a, b);
  }

  lemma BytesThere(s: seq<Byte>, k: nat, n: nat)
    requires k + n <= |s|
    ensures BytesAt(BytesToBits(s), 8 * k, n) == s[k..k + n]
  {
    hide BytesToBits, BytesAt;
    BytesOf(s, k, n);
    StoredBytes(BytesToBits(s), 8 * k, s[k..k + n]);
  }

  function Word(lo: nat, hi: nat): nat { lo + 256 * hi }

  /** A number of two bytes has its low byte first. */
  lemma WordAt(s: seq<Byte>, k: nat)
    requires k + 2 <= |s|
    ensures FromBits(BytesToBits(s)[8 * k..8 * k + 16]) == Word(s[k], s[k + 1])
  {
    hide FromBits, BytesToBits, ToBits, Pow2;
    BytesOf(s, k, 2);
    var w := s[k..k + 2];
    TwoBytes(w);
    Powers();
    FromBitsAppend(ToBits(w[0], 8), ToBits(w[1], 8));
    FromToBits(w[0], 8);
    FromToBits(w[1], 8);
  }

  lemma TwoBytes(w: seq<Byte>)
    requires |w| == 2
    ensures BytesToBits(w) == ToBits(w[0], 8) + ToBits(w[1], 8)
  {
    hide ToBits;
    assert BytesToBits(w[1..]) == ToBits(w[1], 8) + BytesToBits(w[1..][1..]);
    assert BytesToBits(w) == ToBits(w[0], 8) + BytesToBits(w[1..]);
  }

  /** A stored block whose next byte boundary is byte k: LEN and its complement, each with the low byte first, and LEN
      bytes. Any other lengths, and bytes that are not there, are refused. */
  lemma StoredBlock(s: seq<Byte>, pos: nat, k: nat, out: seq<Byte>)
    requires AlignUp(pos) == 8 * k
    ensures k + 4 > |s| ==> InflateStored(BytesToBits(s), pos, out) == None
    ensures k + 4 <= |s| ==> InflateStored(BytesToBits(s), pos, out) == StoredResult(s, k, out, Word(s[k], s[k + 1]), Word(s[k + 2], s[k + 3]))
  {
    hide BytesToBits, FromBits, BytesAt, AlignUp, InflateStored, Word, StoredResult;
    if k + 4 <= |s| {
      WordAt(s, k);
      WordAt(s, k + 2);
      var len, nlen := Word(s[k], s[k + 1]), Word(s[k + 2], s[k + 3]);
      StoredParts(BytesToBits(s), pos, 8 * k, out, len, nlen);
      StoredIs(s, BytesToBits(s), k, 8 * k, out, len, nlen);
    } else {
      StoredShort(BytesToBits(s), pos, out);
    }
  }

  lemma StoredIs(s: seq<Byte>, bits: seq<bool>, k: nat, p: nat, out: seq<Byte>, len: nat, nlen: nat)
    requires bits == BytesToBits(s) && k + 4 <= |s| && p == 8 * k
    ensures StoredResult(s, k, out, len, nlen) == if len + nlen != 0xFFFF || p + 32 + 8 * len > |bits| then None else Some(Result(out + BytesAt(bits, p + 32, len), p + 32 + 8 * len))
  {
    hide BytesToBits, BytesAt;
    if k + 4 + len <= |s| { BytesThere(s, k + 4, len); }
  }

  lemma StoredShort(bits: seq<bool>, pos: nat, out: seq<Byte>)
    requires AlignUp(pos) + 32 > |bits|
    ensures InflateStored(bits, pos, out) == None
  {
    hide AlignUp;
  }

  lemma StoredParts(bits: seq<bool>, pos: nat, p: nat, out: seq<Byte>, len: nat, nlen: nat)
    requires p == AlignUp(pos) && p + 32 <= |bits| && FromBits(bits[p..p + 16]) == len && FromBits(bits[p + 16..p + 32]) == nlen
    ensures InflateStored(bits, pos, out) == if len + nlen != 0xFFFF || p + 32 + 8 * len > |bits| then None else Some(Result(out + BytesAt(bits, p + 32, len), p + 32 + 8 * len))
  {
    hide AlignUp, FromBits, BytesAt;
  }

  function StoredResult(s: seq<Byte>, k: nat, out: seq<Byte>, len: nat, nlen: nat): Option<Result>
    requires k + 4 <= |s|
  {
    if len + nlen != 0xFFFF || k + 4 + len > |s| then None else Some(Result(out + s[k + 4..k + 4 + len], 8 * (k + 4 + len)))
  }

  const STORED: seq<Byte> := [0x01, 0x01, 0x00, 0xFE, 0xFF, 0x61]

  /** A stored block: "a". */
  lemma StoredAnswer()
    ensures InflateAll(STORED) == Some([0x61])
  {
    hide BytesToBits, FromBits, InflateStored, InflateCodes, InflateTables;
    var b := BytesToBits(STORED);
    EightAt(STORED, 0);
    Field2(b, 1);
    StoredOne();
  }

  lemma StoredOne()
    ensures InflateStored(BytesToBits(STORED), 3, []) == Some(Result([0x61], 48))
  {
    hide BytesToBits, InflateStored;
    StoredBlock(STORED, 3, 1, []);
    assert [] + STORED[5..6] == [0x61];
  }

  // ---------- the zlib wrapper ----------

  /** The deflate method in the low half of the first byte, no preset dictionary, and the two bytes, the first one
      high, a multiple of 31. */
  lemma SomeHeaders()
    ensures Zlib.HeaderOk(0x78, 0x01) && Zlib.HeaderOk(0x78, 0x5E) && Zlib.HeaderOk(0x78, 0x9C) && Zlib.HeaderOk(0x78, 0xDA)
    ensures !Zlib.HeaderOk(0x78, 0x02) && !Zlib.HeaderOk(0x01, 0x78) && !Zlib.HeaderOk(0x78, 0x20) && !Zlib.HeaderOk(0x79, 0x05)
  {
  }

  const ZLIB: seq<Byte> := [0x78, 0x9C, 0x4B, 0x04, 0x00, 0x00, 0x62, 0x00, 0x62]

  /** "a" in the wrapper, with its checksum after it, the high byte first. */
  lemma ZlibAnswer()
    ensures Zlib.InflateZlib(ZLIB) == Some([0x61])
  {
    hide InflateFrom, BytesToBits, BytesAt, Checksums.AdlerSums;
    SomeHeaders();
    var s := ZLIB[2..];
    PlainA(s);
    BytesThere(s, 3, 4);
    AdlerOfA();
  }

  lemma AdlerOfA()
    ensures Checksums.Adler32(1, [0x61]) == 0x0062_0062
  {
    Checksums.AdlerClosed(Checksums.Split(1), [0x61]);
  }

  lemma PlainA(s: seq<Byte>)
    requires s == [0x4B, 0x04, 0x00, 0x00, 0x62, 0x00, 0x62]
    ensures InflateFrom(BytesToBits(s), 0, []) == Some(Result([0x61], 18))
  {
    hide At, MsbBits, BytesToBits, FromBits, InflateCodes, StaticLit, StaticDist;
    var b := BytesToBits(s);
    EightAt(s, 0);
    EightAt(s, 1);
    EightAt(s, 2);
    Field2(b, 1);
    Code8(b, 3, 0x91);
    Code7(b, 11, 0);
    StaticLiteral(b, 3, [], 0x61);
    StaticEnd(b, 11, [] + [0x61]);
    assert [] + [0x61] == [0x61];
  }

  // ---------- a block with its own codes ----------

  /** Codes for "a" and the end of the block, sent with runs of 11 to 138 and of 3 to 10 zeros. */
  const DYNAMIC: seq<Byte> := [0x05, 0xC0, 0x21, 0x09, 0x00, 0x00, 0x00, 0x00, 0xA0, 0xAD, 0xFE, 0xEF, 0x5D, 0x04]

  function DynamicCl(): (cl: seq<nat>)
    ensures |cl| == 19
  {
    [2, 2] + Fill(0, 15) + [2, 2]
  }

  function DynamicLit(): (lit: seq<nat>)
    ensures |lit| == 257
  {
    Fill(0, 97) + [1] + Fill(0, 158) + [1]
  }

  /** A complete code with one length. */
  lemma {:induction false} OneLength(lens: seq<nat>, l: nat, m: nat)
    requires 1 <= l <= m && (forall k :: k != 0 && k != l ==> CountLen(lens, k) == 0) && CountLen(lens, l) == Pow2(l)
    ensures NextCode(lens, m + 1) == Pow2(m + 1) && NextCode(lens, l) == 0
    decreases m
  {
    hide CountLen;
    if m > l { OneLength(lens, l, m - 1); } else { NoShorter(lens, l, l); }
  }

  lemma {:induction false} NoShorter(lens: seq<nat>, l: nat, k: nat)
    requires k <= l && forall k :: k != 0 && k != l ==> CountLen(lens, k) == 0
    ensures NextCode(lens, k) == 0
  {
    hide CountLen;
    if k > 1 { NoShorter(lens, l, k - 1); }
  }

  lemma CountOf(v: nat, l: nat)
    ensures CountLen([v], l) == if v == l then 1 else 0
  {
    assert [v] == Fill(v, 1);
    CountFill(v, 1, l);
  }

  lemma CountTwo(v: nat, l: nat)
    ensures CountLen([v, v], l) == if v == l then 2 else 0
  {
    assert [v, v] == Fill(v, 2);
    CountFill(v, 2, l);
  }

  lemma ClCode()
    ensures Complete(DynamicCl(), 15)
    ensures Codeword(DynamicCl(), 0) == MsbBits(0, 2) && Codeword(DynamicCl(), 1) == MsbBits(1, 2)
    ensures Codeword(DynamicCl(), 17) == MsbBits(2, 2) && Codeword(DynamicCl(), 18) == MsbBits(3, 2)
  {
    hide CountLen, NextCode, MsbBits;
    var cl := DynamicCl();
    Powers();
    forall l ensures CountLen(cl, l) == (if l == 2 then 4 else if l == 0 then 15 else 0) {
      CountTwo(2, l);
      CountFill(0, 15, l);
      CountLenAppend([2, 2], Fill(0, 15), l);
      CountLenAppend([2, 2] + Fill(0, 15), [2, 2], l);
    }
    OneLength(cl, 2, 15);
    NoCount();
    CountOf(2, 2);
    CountTwo(2, 2);
    CountFill(0, 15, 2);
    CountLenAppend([2, 2], Fill(0, 15), 2);
    CountLenAppend([2, 2] + Fill(0, 15), [2], 2);
    assert cl[..0] == [] && cl[..1] == [2] && cl[..17] == [2, 2] + Fill(0, 15) && cl[..18] == [2, 2] + Fill(0, 15) + [2];
  }

  lemma NoCount()
    ensures forall l :: CountLen([], l) == 0
  {
  }

  lemma LitCode()
    ensures Complete(DynamicLit(), 15)
    ensures Codeword(DynamicLit(), 97) == MsbBits(0, 1) && Codeword(DynamicLit(), 256) == MsbBits(1, 1)
  {
    hide CountLen, NextCode, MsbBits;
    var lit := DynamicLit();
    Powers();
    forall l ensures CountLen(lit[..97], l) == (if l == 0 then 97 else 0) && CountLen(lit[..256], l) == (if l == 0 then 255 else if l == 1 then 1 else 0) && CountLen(lit, l) == (if l == 0 then 255 else if l == 1 then 2 else 0) {
      CountOf(1, l);
      CountFill(0, 97, l);
      CountFill(0, 158, l);
      CountLenAppend(Fill(0, 97), [1], l);
      CountLenAppend(Fill(0, 97) + [1], Fill(0, 158), l);
      CountLenAppend(Fill(0, 97) + [1] + Fill(0, 158), [1], l);
      assert lit[..97] == Fill(0, 97) && lit[..256] == Fill(0, 97) + [1] + Fill(0, 158);
    }
    OneLength(lit, 1, 15);
  }

  /** The fields in front: 257 lengths for literals, one for distances, 18 lengths of the code length code. */
  lemma DynamicCounts(b: seq<bool>)
    requires b == BytesToBits(DYNAMIC)
    ensures |b| == 112 && b[0] && FromBits(b[1..3]) == 2 && FromBits(b[3..8]) == 0 && FromBits(b[8..13]) == 0 && FromBits(b[13..17]) == 14
  {
    hide BytesToBits, FromBits;
    DynamicFront(b);
    Field2(b, 1);
    Field3(b, 3);
    Field2(b, 6);
    Field3(b, 8);
    Field2(b, 11);
    Field2(b, 13);
    Field2(b, 15);
    FieldJoin(b, 3, 3, 2);
    FieldJoin(b, 8, 3, 2);
    FieldJoin(b, 13, 2, 2);
    Powers();
  }

  lemma DynamicFront(b: seq<bool>)
    requires b == BytesToBits(DYNAMIC)
    ensures |b| == 112 && forall i :: 0 <= i < 17 ==> b[i] == (i == 0 || i == 2 || i == 14 || i == 15 || i == 16)
  {
    hide BytesToBits;
    EightAt(DYNAMIC, 0);
    EightAt(DYNAMIC, 1);
    EightAt(DYNAMIC, 2);
  }

  lemma FieldJoin(b: seq<bool>, p: nat, m: nat, n: nat)
    requires p + m + n <= |b|
    ensures FromBits(b[p..p + m + n]) == FromBits(b[p..p + m]) + Pow2(m) * FromBits(b[p + m..p + m + n])
  {
    hide FromBits, Pow2;
    FromBitsAppend(b[p..p + m], b[p + m..p + m + n]);
    assert b[p..p + m + n] == b[p..p + m] + b[p + m..p + m + n];
  }

  /** Which of the 18 fields are not zero. */
  function ClField(k: nat): nat { if k == 1 || k == 2 || k == 3 || k == 17 then 2 else 0 }

  lemma DynamicFields(b: seq<bool>)
    requires b == BytesToBits(DYNAMIC)
    ensures |b| == 112 && forall k :: 0 <= k < 18 ==> Field(b, 17, k) == ClField(k)
  {
    hide BytesToBits, Field;
    DynamicMiddle(b);
    forall k | 0 <= k < 18 ensures Field(b, 17, k) == ClField(k) { DynamicField(b, k); }
  }

  lemma DynamicField(b: seq<bool>, k: nat)
    requires |b| == 112 && k < 18 && forall i :: 17 <= i < 71 ==> b[i] == (i == 21 || i == 24 || i == 27 || i == 69)
    ensures Field(b, 17, k) == ClField(k)
  {
    hide FromBits;
    Field3(b, 17 + 3 * k);
  }

  lemma DynamicMiddle(b: seq<bool>)
    requires b == BytesToBits(DYNAMIC)
    ensures |b| == 112 && forall i :: 17 <= i < 71 ==> b[i] == (i == 21 || i == 24 || i == 27 || i == 69)
  {
    hide BytesToBits;
    EightAt(DYNAMIC, 2);
    EightAt(DYNAMIC, 3);
    EightAt(DYNAMIC, 4);
    EightAt(DYNAMIC, 5);
    EightAt(DYNAMIC, 6);
    EightAt(DYNAMIC, 7);
    EightAt(DYNAMIC, 8);
  }

  lemma DynamicLengths(b: seq<bool>)
    requires b == BytesToBits(DYNAMIC)
    ensures |b| == 112 && InflateCl(b, 17, 0, 18, Fill(0, 19)) == Some(DynamicCl())
  {
    hide InflateCl, BytesToBits, Field;
    DynamicFields(b);
    ClOrder(b, 17, 18);
    var cl := InflateCl(b, 17, 0, 18, Fill(0, 19)).value;
    forall s | 0 <= s < 19 ensures cl[s] == DynamicCl()[s] {
      if 8 <= s < 16 { assert Sent(cl, 8 + (s - 8), b, 17, 4 + 2 * (s - 8), 18); }
      if 1 <= s < 8 { assert Sent(cl, 7 - (7 - s), b, 17, 5 + 2 * (7 - s), 18); }
    }
    assert cl == DynamicCl();
  }

  lemma Code2(bits: seq<bool>, p: nat, v: nat)
    requires p + 2 <= |bits| && bits[p] == Bit(v, 2) && bits[p + 1] == Bit(v, 1)
    ensures At(bits, p, MsbBits(v, 2))
  {
    MsbOfTwo(v);
  }

  lemma Code1(bits: seq<bool>, p: nat, v: nat)
    requires p < |bits| && bits[p] == Bit(v, 1)
    ensures At(bits, p, MsbBits(v, 1))
  {
    assert MsbBits(v / 2, 0) == [];
    assert MsbBits(v, 1) == [v % 2 == 1];
  }

  /** The packed lengths and the codes after them. */
  lemma DynamicTail(b: seq<bool>)
    requires b == BytesToBits(DYNAMIC)
    ensures |b| == 112 && At(b, 71, MsbBits(3, 2)) && FromBits(b[73..80]) == 86 && At(b, 80, MsbBits(1, 2))
    ensures At(b, 82, MsbBits(3, 2)) && FromBits(b[84..91]) == 127
  {
    hide BytesToBits, FromBits, MsbBits, At;
    EightAt(DYNAMIC, 8);
    EightAt(DYNAMIC, 9);
    EightAt(DYNAMIC, 10);
    EightAt(DYNAMIC, 11);
    Code2(b, 71, 3);
    Field7(b, 73);
    Code2(b, 80, 1);
    Code2(b, 82, 3);
    Field7(b, 84);
  }

  lemma Field7(b: seq<bool>, p: nat)
    requires p + 7 <= |b|
    ensures FromBits(b[p..p + 7]) == Weight(b[p], 1) + Weight(b[p + 1], 2) + Weight(b[p + 2], 4) + Weight(b[p + 3], 8) + Weight(b[p + 4], 16) + Weight(b[p + 5], 32) + Weight(b[p + 6], 64)
  {
    hide FromBits, Pow2;
    Powers();
    Field3(b, p);
    Field3(b, p + 3);
    Field1(b, p + 6);
    FieldJoin(b, p, 3, 3);
    FieldJoin(b, p, 6, 1);
  }

  lemma DynamicTail2(b: seq<bool>)
    requires b == BytesToBits(DYNAMIC)
    ensures |b| == 112 && At(b, 91, MsbBits(2, 2)) && FromBits(b[93..96]) == 7 && At(b, 96, MsbBits(2, 2)) && FromBits(b[98..101]) == 7
    ensures At(b, 101, MsbBits(1, 2)) && At(b, 103, MsbBits(0, 2)) && At(b, 105, MsbBits(0, 1)) && At(b, 106, MsbBits(1, 1))
  {
    hide BytesToBits, FromBits, MsbBits, At;
    EightAt(DYNAMIC, 11);
    EightAt(DYNAMIC, 12);
    EightAt(DYNAMIC, 13);
    Code2(b, 91, 2);
    Field3(b, 93);
    Code2(b, 96, 2);
    Field3(b, 98);
    Code2(b, 101, 1);
    Code2(b, 103, 0);
    Code1(b, 105, 0);
    Code1(b, 106, 1);
  }

  /** One run is read. */
  lemma ReadRun(b: seq<bool>, p: nat, acc: seq<nat>, v: nat, sym: nat, x: nat)
    requires (sym == 17 && v == 2) || (sym == 18 && v == 3)
    requires At(b, p, MsbBits(v, 2)) && p + 2 + RepeatExtra(sym) <= |b| && FromBits(b[p + 2..p + 2 + RepeatExtra(sym)]) == x && |acc| < 258
    ensures InflateLens(DynamicCl(), b, p, 258, acc) == InflateLens(DynamicCl(), b, p + 2 + RepeatExtra(sym), 258, acc + Fill(0, RepeatBase(sym) + x))
  {
    hide MsbBits, Codeword, DecodeSym, Fits, Complete;
    ClCode();
    CompleteFits();
    DecodeCodeword(DynamicCl(), 15, sym, b, p);
  }

  lemma CompleteFits()
    ensures forall lens, max :: Complete(lens, max) ==> Fits(lens, max)
  {
  }

  lemma ReadLen(b: seq<bool>, p: nat, acc: seq<nat>, v: nat)
    requires v < 2 && At(b, p, MsbBits(v, 2)) && |acc| < 258
    ensures p + 2 <= |b| && InflateLens(DynamicCl(), b, p, 258, acc) == InflateLens(DynamicCl(), b, p + 2, 258, acc + [v])
  {
    hide MsbBits, Codeword, DecodeSym, Fits, Complete;
    ClCode();
    CompleteFits();
    DecodeCodeword(DynamicCl(), 15, v, b, p);
  }

  lemma DynamicPacked(b: seq<bool>)
    requires b == BytesToBits(DYNAMIC)
    ensures |b| == 112 && InflateLens(DynamicCl(), b, 71, 258, []) == Some((DynamicLit() + [0], 105))
  {
    hide BytesToBits, FromBits, MsbBits, At, InflateLens, DynamicCl;
    DynamicTail(b);
    DynamicTail2(b);
    ReadRun(b, 71, [], 3, 18, 86);
    var a := [] + Fill(0, 97);
    ReadLen(b, 80, a, 1);
    ReadRun(b, 82, a + [1], 3, 18, 127);
    var c := a + [1] + Fill(0, 138);
    ReadRun(b, 91, c, 2, 17, 7);
    ReadRun(b, 96, c + Fill(0, 10), 2, 17, 7);
    var d := c + Fill(0, 10) + Fill(0, 10);
    ReadLen(b, 101, d, 1);
    ReadLen(b, 103, d + [1], 0);
    assert d + [1] + [0] == DynamicLit() + [0];
    AllLens(b, 105, DynamicLit() + [0]);
  }

  lemma AllLens(b: seq<bool>, p: nat, acc: seq<nat>)
    requires p <= |b| && |acc| == 258
    ensures InflateLens(DynamicCl(), b, p, 258, acc) == Some((acc, p))
  {
  }

  lemma DynamicTables(b: seq<bool>)
    requires b == BytesToBits(DYNAMIC)
    ensures |b| == 112 && InflateTables(b, 3) == Some(Tables(DynamicLit(), [0], 105))
  {
    hide BytesToBits, FromBits, InflateLens, InflateCl, Complete, DynamicCl;
    DynamicCounts(b);
    DynamicLengths(b);
    DynamicPacked(b);
    ClCode();
    LitCode();
    assert (DynamicLit() + [0])[..257] == DynamicLit() && (DynamicLit() + [0])[257..] == [0];
  }

  /** A block with codes of its own: "a". */
  lemma DynamicAnswer()
    ensures InflateAll(DYNAMIC) == Some([0x61])
  {
    hide BytesToBits, FromBits, InflateTables, InflateCodes, DynamicLit;
    var b := BytesToBits(DYNAMIC);
    DynamicCounts(b);
    DynamicTables(b);
    DynamicCodes(b);
  }

  lemma DynamicCodes(b: seq<bool>)
    requires b == BytesToBits(DYNAMIC)
    ensures |b| == 112 && InflateCodes(DynamicLit(), [0], b, 105, []) == Some(Result([0x61], 107))
  {
    hide BytesToBits, FromBits, MsbBits, Codeword, DecodeSym, Fits, Complete, At;
    DynamicTail2(b);
    LitCode();
    CompleteFits();
    DecodeCodeword(DynamicLit(), 15, 97, b, 105);
    DecodeCodeword(DynamicLit(), 15, 256, b, 106);
    assert [] + [0x61] == [0x61];
  }
}
