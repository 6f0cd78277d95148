/** The resumable decoder (tinfl_decompress, src/http/miniz.c:1428-1680, on raw DEFLATE streams).

    The whole stream is known to the proof only; a call sees one piece of it, and an output buffer that
    may have any amount of room. Each place where the coroutine can be left is a label, and what holds
    there says that the rest of the stream, from the bits still to be read, leads to the result that the
    reference decoder gives for the whole stream. */
module Tinfl {
  import opened Bits
  import opened CanonicalCode
  import opened Inflate
  import opened Covering
  import opened TinflTable
  import opened TinflReader
  import opened TinflSpec
  import opened TinflCopy
  import BlockFormat

  const WINDOW := 32768
  const LEN_CODES := 457   // m_len_codes: 288 + 32 + 137

  // ---------- the output buffer ----------

  /** The caller's buffer, flat or a ring, and all that was put out. */
  class Output {
    var buf: array<Byte>     // pOut_buf_start .. pOut_buf_end
    var cur: nat             // pOut_buf_cur
    const flat: bool         // TINFL_FLAG_USING_NON_WRAPPING_OUTPUT_BUF
    ghost var hist: seq<Byte>
    ghost var turn: nat

    ghost predicate Valid()
      reads this, buf
    {
      Latest(buf[..], hist, turn) && cur + turn == |hist| && cur <= buf.Length && (flat ==> turn == 0) && (flat || buf.Length >= WINDOW)
    }

    constructor (buf: array<Byte>, flat: bool)
      requires flat || buf.Length >= WINDOW
      ensures Valid() && hist == [] && cur == 0 && this.buf == buf && this.flat == flat && turn == 0
    {
      this.buf, this.flat, cur, hist, turn := buf, flat, 0, [], 0;
    }

    /** A new call brings a buffer with the same output in it: a flat one may have grown, a full ring starts
        its next turn. */
    method Attach(buf2: array<Byte>, next: nat)
      requires Valid() && (!flat ==> buf2.Length == buf.Length)
      requires if !flat && next == 0 && cur == buf.Length then Latest(buf2[..], hist, turn + buf.Length) else next == cur && Latest(buf2[..], hist, turn)
      modifies this
      ensures Valid() && buf == buf2 && cur == next && hist == old(hist)
      ensures turn == old(turn) || (!flat && turn == old(turn) + buf.Length && old(cur) == buf.Length)
    {
      if !flat && next == 0 && cur == buf.Length {
        turn := turn + buf.Length;
      }
      LatestBounds(buf2[..], hist, turn);
      buf, cur := buf2, next;
    }

    /** `*pOut_buf_cur++ = b`. */
    method Put(b: Byte)
      requires Valid() && cur < buf.Length
      modifies `cur, `hist, buf
      ensures Valid() && hist == old(hist) + [b] && cur == old(cur) + 1
    {
      PutKeeps(buf[..], hist, turn, b);
      ghost var s := buf[..];
      buf[cur] := b;
      assert buf[..] == s[cur := b];
      cur, hist := cur + 1, hist + [b];
    }

    /** A match, as far as there is room. */
    method CopyFrom(counter0: nat, from0: nat, dist: nat) returns (counter: nat, from: nat)
      requires Valid() && InReach(buf.Length, hist, dist) && counter0 >= 3 && from0 == cur
      modifies `cur, `hist, buf
      ensures Valid() && old(hist) <= hist && Copying(buf[..], hist, turn, dist, counter, CopyMatch(old(hist), dist, counter0))
      ensures counter > 0 ==> cur == buf.Length && from == cur
      ensures counter == 0 ==> hist == CopyMatch(old(hist), dist, counter0)
    {
      hide Latest, CopyMatch;
      cur, counter, from, hist := CopyAny(buf, cur, counter0, from0, dist, hist, turn, 0);
      CopyingIs(buf[..], hist, turn, dist, counter, CopyMatch(old(hist), dist, counter0));
    }

    /** The rest of a match that was cut off. */
    method CopyMore(counter0: nat, from0: nat, dist: nat, ghost turns: nat, ghost whole: seq<Byte>) returns (counter: nat, from: nat)
      requires Valid() && Copying(buf[..], hist, turn, dist, counter0, whole) && from0 == cur + turns * buf.Length
      modifies `cur, `hist, buf
      ensures Valid() && old(hist) <= hist && Copying(buf[..], hist, turn, dist, counter, whole) && from == cur + turns * buf.Length
      ensures counter > 0 ==> cur == buf.Length
    {
      hide Latest, Copying;
      CopyingBounds(buf[..], hist, turn, dist, counter0, whole);
      cur, counter, from, hist := CopyBytes(buf, cur, counter0, from0, dist, hist, turn, turns, whole);
      CopyingIs(buf[..], hist, turn, dist, counter, whole);
    }
  }

  lemma CopyingIs(buf: seq<Byte>, hist: seq<Byte>, turn: nat, dist: nat, left: nat, whole: seq<Byte>)
    requires Copying(buf, hist, turn, dist, left, whole)
    ensures Latest(buf, hist, turn) && turn <= |hist| <= turn + |buf| && (left == 0 ==> hist == whole)
  {
  }

  /** The places where a call can end, or begin: the case labels, and the entries of the loops they are in. */
  datatype Label = Head | RawHeader | StoredBits | StoredPut | StoredCopy | Sizes | ClSizes | Lens | LensExtra
    | Codes | PutLiteral | LenExtra | DistSymbol | DistanceExtra | Copy | Finished

  datatype Status = NeedsMoreInput | HasMoreOutput | Done

  /** Blocks, tables or compressed data. */
  function Phase(l: Label): (p: nat)
    ensures p <= 2
  {
    match l
    case Head | RawHeader | StoredBits | StoredPut | StoredCopy | Finished => 0
    case Sizes | ClSizes | Lens | LensExtra => 1
    case _ => 2
  }

  /** How far it is, without reading bits, to the next block header. */
  function Rank(l: Label): nat
  {
    match l
    case Head => 0 case Finished => 0
    case RawHeader => 4 case StoredPut => 3 case StoredBits => 2 case StoredCopy => 1
    case Sizes => 5 case ClSizes => 4 case LensExtra => 3 case Lens => 2
    case Codes => 1 case PutLiteral => 2 case LenExtra => 5 case DistSymbol => 4 case DistanceExtra => 3 case Copy => 2
  }

  // ---------- the decoder ----------

  /** tinfl_decompressor. */
  class Inflator {
    const r: BitReader
    const o: Output
    const t0: Table              // m_tables[0]: literals and lengths
    const t1: Table              // m_tables[1]: distances
    const t2: Table              // m_tables[2]: code lengths
    const lenCodes: array<nat>   // m_len_codes
    var place: Label             // m_state, and where in the loops
    var rawHeader: seq<Byte>     // m_raw_header
    var final: bool              // m_final
    var size0: nat               // m_table_sizes
    var size1: nat
    var size2: nat
    var counter: nat
    var dist: nat
    var numExtra: nat
    var from: nat                // m_dist_from_out_buf_start
    ghost const target: Option<Result>
    ghost var start: nat         // where the table sizes begin
    ghost var S0: seq<nat>
    ghost var S1: seq<nat>
    ghost var S2: seq<nat>
    ghost var paths0: seq<seq<bool>>
    ghost var paths1: seq<seq<bool>>
    ghost var paths2: seq<seq<bool>>
    ghost var turns: nat
    ghost var whole: seq<Byte>   // the output once the match is copied

    constructor (r: BitReader, o: Output, t0: Table, t1: Table, t2: Table, lenCodes: array<nat>)
      requires Apart(t0, t1, t2, lenCodes) && o.buf as object !in DecoderArrays(t0, t1, t2, lenCodes)
      requires r.Valid() && r.Pos() == 0 && !r.filling && o.Valid() && o.hist == [] && InflateFrom(r.bits, 0, []).Some?
      ensures Valid() && this.r == r && this.o == o && target == InflateFrom(r.bits, 0, [])
      ensures this.t0 == t0 && this.t1 == t1 && this.t2 == t2 && this.lenCodes == lenCodes && place == Head
    {
      hide InflateFrom, BitReader.Valid, Output.Valid, Apart;
      this.r, this.o, this.t0, this.t1, this.t2, this.lenCodes := r, o, t0, t1, t2, lenCodes;
      place, rawHeader, final := Head, [0, 0, 0, 0], false;
      size0, size1, size2, counter, dist, numExtra, from := 0, 0, 0, 0, 0, 0, 0;
      target := InflateFrom(r.bits, 0, []);
      start, S0, S1, S2, paths0, paths1, paths2, turns, whole := 0, [], [], [], [], [], [], 0, [];
    }

    // ----- what holds at each label -----

    ghost predicate AtHeadLabel()
      requires r.numBits <= 8 * r.read
      reads this, r, o
    {
      InflateFrom(r.bits, r.Pos(), o.hist) == target
    }

    ghost predicate AtRawHeader()
      requires r.numBits <= 8 * r.read
      reads this, r, o
    {
      && counter <= 3 && |rawHeader| == 4 && r.numBits % 8 == 0 && 8 * counter <= r.Pos() <= |r.bits|
      && RawSoFar(r.bits, r.Pos() - 8 * counter, rawHeader, counter)
      && Rest(r.bits, final, InflateStored(r.bits, r.Pos() - 8 * counter, o.hist)) == target
    }

    ghost predicate AtStored()
      requires r.numBits <= 8 * r.read
      reads this, r, o
    {
      && r.numBits % 8 == 0 && r.Pos() + 8 * counter <= |r.bits| && (place == StoredCopy && counter > 0 ==> r.numBits == 0)
      && Copied(r.bits, final, r.Pos(), counter, o.hist) == target
    }

    ghost predicate AtStoredPut()
      requires r.numBits <= 8 * r.read
      reads this, r, o
    {
      && r.numBits % 8 == 0 && counter >= 1 && dist < 256 && r.Pos() + 8 * (counter - 1) <= |r.bits|
      && Copied(r.bits, final, r.Pos(), counter - 1, o.hist + [dist as Byte]) == target
    }

    ghost predicate AtSizesLabel()
      requires r.numBits <= 8 * r.read
      reads this, r, o
    {
      && counter <= 2 && start + 5 * counter == r.Pos() <= |r.bits|
      && (counter >= 1 ==> size0 == FromBits(r.bits[start..start + 5]) + 257)
      && (counter >= 2 ==> size1 == FromBits(r.bits[start + 5..start + 10]) + 1)
      && WithTables(r.bits, final, InflateTables(r.bits, start), o.hist) == target
    }

    ghost predicate AtClSizes()
      requires r.numBits <= 8 * r.read && t2.Shaped()
      reads this, r, o, t2.codeSize
    {
      && counter <= size2 <= 19 && size0 <= 288 && size1 <= 32 && r.Pos() + 3 * (size2 - counter) <= |r.bits|
      && (forall i :: 0 <= i < 19 ==> t2.codeSize[i] < 8)
      && WithTables(r.bits, final, FromCl(r.bits, size0, size1, InflateCl(r.bits, r.Pos(), counter, size2, t2.codeSize[..19]), r.Pos() + 3 * (size2 - counter)), o.hist) == target
    }

    ghost predicate LensReady()
      reads this, t2.lookUp, t2.tree
    {
      |S2| == 19 && t2.Holds(S2, 19, paths2) && Fits(S2, 15) && size0 <= 288 && size1 <= 32
    }

    ghost predicate AtLensLabel()
      requires r.numBits <= 8 * r.read && lenCodes.Length == LEN_CODES
      reads this, r, o, t2.lookUp, t2.tree, lenCodes
    {
      && LensReady() && counter <= size0 + size1 && (r.filling ==> counter < size0 + size1) && r.Pos() <= |r.bits|
      && (forall i :: 0 <= i < counter ==> lenCodes[i] <= 15)
      && WithTables(r.bits, final, SplitTables(size0, InflateLens(S2, r.bits, r.Pos(), size0 + size1, lenCodes[..counter])), o.hist) == target
    }

    ghost predicate AtLensExtra()
      requires r.numBits <= 8 * r.read && lenCodes.Length == LEN_CODES
      reads this, r, o, t2.lookUp, t2.tree, lenCodes
    {
      && LensReady() && 16 <= dist <= 18 && (dist == 16 ==> counter > 0) && numExtra == RepeatExtra(dist) && counter < size0 + size1
      && r.Pos() <= |r.bits| && (forall i :: 0 <= i < counter ==> lenCodes[i] <= 15)
      && WithTables(r.bits, final, SplitTables(size0, RepeatRest(S2, r.bits, r.Pos(), size0 + size1, lenCodes[..counter], dist)), o.hist) == target
    }

    ghost predicate Coding()
      reads this, t0.lookUp, t0.tree, t1.lookUp, t1.tree
    {
      t0.Holds(S0, |S0|, paths0) && Fits(S0, 15) && t1.Holds(S1, |S1|, paths1) && Fits(S1, 15)
    }

    ghost predicate AtCodesLabel(hist: seq<Byte>)
      requires r.numBits <= 8 * r.read
      reads this, r, t0.lookUp, t0.tree, t1.lookUp, t1.tree
    {
      Coding() && r.Pos() <= |r.bits| && Rest(r.bits, final, InflateCodes(S0, S1, r.bits, r.Pos(), hist)) == target
    }

    ghost predicate AtLenExtra()
      requires r.numBits <= 8 * r.read
      reads this, r, o, t0.lookUp, t0.tree, t1.lookUp, t1.tree
    {
      Coding() && counter >= 3 && numExtra <= 5 && Rest(r.bits, final, AfterSym(S0, S1, r.bits, r.Pos(), o.hist, counter, numExtra)) == target
    }

    ghost predicate AtDistSymbol()
      requires r.numBits <= 8 * r.read
      reads this, r, o, t0.lookUp, t0.tree, t1.lookUp, t1.tree
    {
      Coding() && counter >= 3 && Rest(r.bits, final, AfterLen(S0, S1, r.bits, r.Pos(), o.hist, counter)) == target
    }

    ghost predicate AtDistanceExtra()
      requires r.numBits <= 8 * r.read
      reads this, r, o, t0.lookUp, t0.tree, t1.lookUp, t1.tree
    {
      && Coding() && counter >= 3 && numExtra <= 13 && dist >= 1 && dist + Pow2(numExtra) <= WINDOW + 1
      && Rest(r.bits, final, AfterDist(S0, S1, r.bits, r.Pos(), o.hist, counter, dist, numExtra)) == target
    }

    ghost predicate AtCopy()
      requires r.numBits <= 8 * r.read
      reads this, r, o, o.buf, t0.lookUp, t0.tree, t1.lookUp, t1.tree
    {
      && counter > 0 && Copying(o.buf[..], o.hist, o.turn, dist, counter, whole)
      && from == o.cur + turns * o.buf.Length && (o.flat ==> turns == 0) && AtCodesLabel(whole)
    }

    ghost predicate AtLabel()
      requires r.numBits <= 8 * r.read && t2.Shaped() && lenCodes.Length == LEN_CODES
      reads this, r, o, o.buf, t0.lookUp, t0.tree, t1.lookUp, t1.tree, t2.codeSize, t2.lookUp, t2.tree, lenCodes
    {
      match place
      case Head => AtHeadLabel()
      case RawHeader => AtRawHeader()
      case StoredBits => AtStored()
      case StoredPut => AtStoredPut()
      case StoredCopy => AtStored()
      case Sizes => AtSizesLabel()
      case ClSizes => AtClSizes()
      case Lens => AtLensLabel()
      case LensExtra => AtLensExtra()
      case Codes => AtCodesLabel(o.hist)
      case PutLiteral => counter < 256 && AtCodesLabel(o.hist + [counter as Byte])
      case LenExtra => AtLenExtra()
      case DistSymbol => AtDistSymbol()
      case DistanceExtra => AtDistanceExtra()
      case Copy => AtCopy()
      case Finished => target == Some(Result(o.hist, r.Pos()))
    }

    ghost predicate Shaped()
    {
      Apart(t0, t1, t2, lenCodes)
    }

    /** What holds anywhere. */
    ghost predicate Base()
      reads this, r, o, o.buf
    {
      Shaped() && r.Valid() && o.Valid() && target.Some? && o.buf as object !in DecoderArrays(t0, t1, t2, lenCodes)
    }

    ghost predicate Valid()
      reads this, r, o, o.buf, t0.lookUp, t0.tree, t1.lookUp, t1.tree, t2.codeSize, t2.lookUp, t2.tree, lenCodes
    {
      Base() && (r.filling ==> r.numBits < 15 && place in {Lens, Codes, DistSymbol}) && AtLabel()
    }

    // ----- one label at a time -----

    lemma IsHead()
      requires place == Head
      ensures Valid() <==> Base() && !r.filling && r.numBits <= 8 * r.read && AtHeadLabel()
    {
    }

    lemma IsRawHeader()
      requires place == RawHeader
      ensures Valid() <==> Base() && !r.filling && r.numBits <= 8 * r.read && AtRawHeader()
    {
    }

    lemma IsStoredPut()
      requires place == StoredPut
      ensures Valid() <==> Base() && !r.filling && r.numBits <= 8 * r.read && AtStoredPut()
    {
    }

    lemma IsSizes()
      requires place == Sizes
      ensures Valid() <==> Base() && !r.filling && r.numBits <= 8 * r.read && AtSizesLabel()
    {
    }

    lemma IsClSizes()
      requires place == ClSizes
      ensures Valid() <==> Base() && !r.filling && r.numBits <= 8 * r.read && AtClSizes()
    {
    }

    lemma IsLensExtra()
      requires place == LensExtra
      ensures Valid() <==> Base() && !r.filling && r.numBits <= 8 * r.read && AtLensExtra()
    {
    }

    lemma IsLenExtra()
      requires place == LenExtra
      ensures Valid() <==> Base() && !r.filling && r.numBits <= 8 * r.read && AtLenExtra()
    {
    }

    lemma IsDistanceExtra()
      requires place == DistanceExtra
      ensures Valid() <==> Base() && !r.filling && r.numBits <= 8 * r.read && AtDistanceExtra()
    {
    }

    lemma IsCopy()
      requires place == Copy
      ensures Valid() <==> Base() && !r.filling && r.numBits <= 8 * r.read && AtCopy()
    {
    }

    lemma IsStored()
      requires place == StoredBits || place == StoredCopy
      ensures Valid() <==> Base() && !r.filling && r.numBits <= 8 * r.read && AtStored()
    {
    }

    lemma IsLens()
      requires place == Lens
      ensures Valid() <==> Base() && (r.filling ==> r.numBits < 15) && r.numBits <= 8 * r.read && AtLensLabel()
    {
    }

    lemma IsCodes()
      requires place == Codes
      ensures Valid() <==> Base() && (r.filling ==> r.numBits < 15) && r.numBits <= 8 * r.read && AtCodesLabel(o.hist)
    {
    }

    lemma IsDistSymbol()
      requires place == DistSymbol
      ensures Valid() <==> Base() && (r.filling ==> r.numBits < 15) && r.numBits <= 8 * r.read && AtDistSymbol()
    {
    }

    lemma IsPutLiteral()
      requires place == PutLiteral
      ensures Valid() <==> Base() && !r.filling && r.numBits <= 8 * r.read && counter < 256 && AtCodesLabel(o.hist + [counter as Byte])
    {
    }

    lemma IsFinished()
      requires place == Finished
      ensures Valid() <==> Base() && !r.filling && r.numBits <= 8 * r.read && target == Some(Result(o.hist, r.Pos()))
    {
    }

    // ----- the steps between labels -----

    /** Between blocks: on to the next one, or to the end (src/http/miniz.c:1670). */
    method NextBlock()
      requires Base() && r.Pos() <= |r.bits| && !r.filling
      requires target == if final then Some(Result(o.hist, r.Pos())) else InflateFrom(r.bits, r.Pos(), o.hist)
      modifies `place
      ensures Valid() && Rank(place) == 0
    {
      hide InflateFrom, BitReader.Valid, Output.Valid, Apart;
      place := if final then Finished else Head;
    }

    /** A stored block: on to the next byte. */
    method StartStored()
      requires Base() && r.Pos() <= |r.bits| && !r.filling && Rest(r.bits, final, InflateStored(r.bits, r.Pos(), o.hist)) == target
      modifies this, r`bitBuf, r`numBits
      ensures Valid() && r.Pos() >= old(r.Pos()) && place == RawHeader
    {
      hide Rest, InflateStored, BitReader.Valid, Output.Valid, Apart, FromBits, BytesToBits, Pow2, Valid, AtLabel, RawSoFar;
      r.Sound();
      NoRaw(r.bits, AlignUp(r.Pos()), [0, 0, 0, 0]);
      Aligned(r.bits, r.Pos(), r.numBits, r.read, o.hist);
      ModEight(r.numBits);
      var skipped := r.TakeBits(r.numBits % 8);
      r.Sound();
      counter := 0;
      rawHeader := [0, 0, 0, 0];
      place := RawHeader;
      IsRawHeader();
    }

    /** The fixed codes (src/http/miniz.c:1496-1501). */
    method StartStatic()
      requires Base() && r.Pos() <= |r.bits| && !r.filling && Rest(r.bits, final, InflateCodes(StaticLit(), StaticDist(), r.bits, r.Pos(), o.hist)) == target
      modifies this, t0.codeSize, t0.lookUp, t0.tree, t1.codeSize, t1.lookUp, t1.tree
      ensures Valid() && place == Codes
    {
      hide Rest, InflateCodes, BitReader.Valid, Output.Valid, Trie, Accepted, Fits, Complete;
      forall i | 0 <= i < 288 { t0.codeSize[i] := if i <= 143 then 8 else if i <= 255 then 9 else if i <= 279 then 7 else 8; }
      forall i | 0 <= i < 32 { t1.codeSize[i] := 5; }
      size0, size1 := 288, 32;
      assert t0.codeSize[..288] == StaticLit() && t1.codeSize[..32] == StaticDist();
      StaticAccepted();
      BuildCodes();
    }

    /** The two tables, the distance table first, and on to the compressed data. */
    method BuildCodes()
      requires Base() && r.Pos() <= |r.bits| && !r.filling && size0 <= 288 && size1 <= 32
      requires Accepted(t0.codeSize[..size0]) && Accepted(t1.codeSize[..size1])
      requires Rest(r.bits, final, InflateCodes(t0.codeSize[..size0], t1.codeSize[..size1], r.bits, r.Pos(), o.hist)) == target
      modifies this, t0.lookUp, t0.tree, t1.lookUp, t1.tree
      ensures Valid() && place == Codes
    {
      hide Rest, InflateCodes, BitReader.Valid, Output.Valid, Trie, Accepted, Fits, Apart;
      hide Valid, AtLabel;
      BuildBoth();
      place := Codes;
      IsCodes();
    }

    method BuildBoth()
      requires Shaped() && size0 <= 288 && size1 <= 32 && Accepted(t0.codeSize[..size0]) && Accepted(t1.codeSize[..size1])
      modifies `S0, `S1, `paths0, `paths1, t0.lookUp, t0.tree, t1.lookUp, t1.tree
      ensures Coding() && S0 == old(t0.codeSize[..size0]) && S1 == old(t1.codeSize[..size1])
    {
      hide Trie, Accepted, Fits, Apart;
      ApartArrays(this);
      S0, S1 := t0.codeSize[..size0], t1.codeSize[..size1];
      var ok0, ok1;
      ok1, paths1 := BuildAccepted(t1, size1);
      assert t0.codeSize[..size0] == S0;
      ok0, paths0 := BuildAccepted(t0, size0);
    }

    /** The block header (src/http/miniz.c:1459-1496). */
    method StepHead() returns (status: Option<Status>)
      requires Valid() && place == Head
      modifies this, r`inPos, r`bitBuf, r`numBits, r`filling, r`read, t0.codeSize, t0.lookUp, t0.tree, t1.codeSize, t1.lookUp, t1.tree
      ensures Valid() && status != Some(HasMoreOutput) && status != Some(Done)
      ensures status.None? ==> r.Pos() > old(r.Pos())
      ensures status.Some? ==> r.inPos == |r.inBuf| && r.read < |r.full|
    {
      hide InflateFrom, InflateStored, InflateCodes, InflateTables, BitReader.Valid, Output.Valid, Apart, FromBits, BytesToBits, Pow2, StaticLit, StaticDist, Valid, AtLabel;
      IsHead();
      r.Sound();
      ghost var pos := r.Pos();
      AtHead(r.bits, pos, o.hist);
      var ok, v := r.GetBits(3);
      r.Sound();
      if !ok {
        IsHead();
        return Some(NeedsMoreInput);
      }
      final := v % 2 == 1;
      var kind := v / 2;
      if kind == 0 {
        StartStored();
      } else if kind == 1 {
        StartStatic();
      } else if kind == 2 {
        start, counter, place := r.Pos(), 0, Sizes;
        IsSizes();
      } else {
        assert false;
      }
      status := None;
    }

    /** LEN and NLEN of a stored block (src/http/miniz.c:1463-1464). */
    method StepRawHeader() returns (status: Option<Status>)
      requires Valid() && place == RawHeader
      modifies this, r`inPos, r`bitBuf, r`numBits, r`filling, r`read
      ensures Valid() && status != Some(HasMoreOutput) && status != Some(Done)
      ensures status.None? ==> r.Pos() > old(r.Pos())
      ensures status.Some? ==> r.inPos == |r.inBuf| && r.read < |r.full|
    {
      hide Valid, AtLabel, Rest, InflateStored, BitReader.Valid, Output.Valid, Apart, FromBits, BytesToBits, Pow2, RawSoFar, Copied;
      IsRawHeader();
      r.Sound();
      ghost var p := r.Pos() - 8 * counter;
      RawAligned(r.bits, p, rawHeader, counter);
      AtLengths(r.bits, final, p, o.hist);
      var ok := RawHeaderByte(p);
      r.Sound();
      if !ok {
        IsRawHeader();
        return Some(NeedsMoreInput);
      }
      if counter < 4 {
        IsRawHeader();
        return None;
      }
      RawLengths(r.bits, p, rawHeader);
      counter := rawHeader[0] as nat + 256 * rawHeader[1] as nat;
      if counter != 0xFFFF - (rawHeader[2] as nat + 256 * rawHeader[3] as nat) {
        assert false;
      }
      place := StoredBits;
      IsStored();
      status := None;
    }

    /** `if (num_bits) TINFL_GET_BITS(6, ...) else TINFL_GET_BYTE(7, ...)`. */
    method RawHeaderByte(ghost p: nat) returns (ok: bool)
      requires Base() && counter <= 3 && |rawHeader| == 4 && r.numBits % 8 == 0 && p + 8 * counter == r.Pos() && p + 32 <= |r.bits|
      requires RawSoFar(r.bits, p, rawHeader, counter) && !r.filling
      modifies `rawHeader, `counter, r`inPos, r`bitBuf, r`numBits, r`read
      ensures Base() && |rawHeader| == 4 && r.numBits % 8 == 0 && p + 8 * counter == r.Pos() <= |r.bits| && RawSoFar(r.bits, p, rawHeader, counter)
      ensures counter == old(counter) + (if ok then 1 else 0)
      ensures !ok ==> r.inPos == |r.inBuf| && r.read < |r.full|
    {
      hide BitReader.Valid, Output.Valid, Apart, FromBits, BytesToBits, Pow2, RawSoFar;
      r.Sound();
      var c: nat;
      if r.numBits > 0 {
        WholeByte(r.numBits);
        ok, c := r.GetBits(8);
      } else {
        if r.inPos >= |r.inBuf| { return false; }
        c := r.GetByte();
      }
      r.Sound();
      OneMoreRaw(r.bits, p, rawHeader, counter, c);
      rawHeader := rawHeader[counter := c];
      counter := counter + 1;
      ok := true;
    }

    /** Bytes of a stored block that are in the register (src/http/miniz.c:1465-1467). */
    method StepStoredBits() returns (status: Option<Status>)
      requires Valid() && place == StoredBits
      modifies this, r`inPos, r`bitBuf, r`numBits, r`filling, r`read
      ensures Valid() && status == None
      ensures r.Pos() > old(r.Pos()) || (r.Pos() == old(r.Pos()) && Rank(place) < 2)
    {
      hide Valid, AtLabel, BitReader.Valid, Output.Valid, Apart, FromBits, BytesToBits, Copied, Pow2;
      IsStored();
      r.Sound();
      if counter > 0 && r.numBits > 0 {
        WholeByte(r.numBits);
        CopiedOne(r.bits, final, r.Pos(), counter, o.hist);
        var ok;
        ok, dist := r.GetBits(8);
        r.Sound();
        place := StoredPut;
        IsStoredPut();
      } else {
        place := StoredCopy;
        IsStored();
      }
      status := None;
    }

    /** src/http/miniz.c:1468-1470. */
    method StepStoredPut() returns (status: Option<Status>)
      requires Valid() && place == StoredPut
      modifies this, o, o.buf
      ensures Valid() && (status == None || (status == Some(HasMoreOutput) && o.cur >= o.buf.Length && Waiting()))
      ensures old(o.hist) <= o.hist && (status.None? ==> place == StoredBits) && o.buf == old(o.buf) && o.turn == old(o.turn)
    {
      hide Valid, AtLabel, BitReader.Valid, Output.Valid, Apart, BytesToBits, Copied;
      IsStoredPut();
      if o.cur >= o.buf.Length { return Some(HasMoreOutput); }
      o.Put(dist);
      counter := counter - 1;
      place := StoredBits;
      IsStored();
      status := None;
    }

    lemma StoredFacts()
      requires Base() && r.numBits <= 8 * r.read && AtStored()
      ensures r.Pos() <= |r.bits| && |r.bits| == 8 * |r.full| && r.inPos <= |r.inBuf| && o.cur <= o.buf.Length
      ensures place == StoredCopy && counter > 0 ==> r.numBits == 0 && r.read < |r.full|
    {
      hide BitReader.Valid, Latest, Copied;
      r.Sound();
    }

    lemma StoredDone()
      requires r.numBits <= 8 * r.read && AtStored() && counter == 0
      ensures target == if final then Some(Result(o.hist, r.Pos())) else InflateFrom(r.bits, r.Pos(), o.hist)
    {
      hide Copied;
      CopiedNone(r.bits, final, r.Pos(), o.hist);
    }

    /** The rest of a stored block, from the input to the output (src/http/miniz.c:1472-1488). */
    method StepStoredCopy() returns (status: Option<Status>)
      requires Valid() && place == StoredCopy
      modifies this, r`inPos, r`bitBuf, r`numBits, r`filling, r`read, o, o.buf
      ensures Valid() && status != Some(Done)
      ensures status.None? ==> r.Pos() > old(r.Pos()) || (r.Pos() == old(r.Pos()) && Rank(place) == 0)
      ensures status == Some(NeedsMoreInput) ==> r.inPos == |r.inBuf| && r.read < |r.full|
      ensures status == Some(HasMoreOutput) ==> o.cur >= o.buf.Length && Waiting()
      ensures old(o.hist) <= o.hist && o.buf == old(o.buf) && o.turn == old(o.turn)
    {
      hide Valid, AtLabel, Base, AtStored, BytesToBits, Copied;
      IsStored();
      StoredFacts();
      if counter > 0 {
        if o.cur >= o.buf.Length { return Some(HasMoreOutput); }
        if r.inPos >= |r.inBuf| { return Some(NeedsMoreInput); }
        CopyInput();
        StoredFacts();
        if counter > 0 {
          IsStored();
          return None;
        }
      }
      StoredDone();
      NextBlock();
      status := None;
    }

    /** One byte of it. */
    method CopyByte()
      requires Base() && AtStored() && place == StoredCopy && counter > 0 && o.cur < o.buf.Length && r.inPos < |r.inBuf| && !r.filling
      modifies `counter, r`inPos, r`bitBuf, r`numBits, r`read, o`cur, o`hist, o.buf
      ensures Base() && r.numBits <= 8 * r.read && AtStored() && r.Pos() == old(r.Pos()) + 8 && old(o.hist) <= o.hist
      ensures counter == old(counter) - 1 && o.cur == old(o.cur) + 1 && r.inPos == old(r.inPos) + 1
    {
      hide BitReader.Valid, Output.Valid, Apart, BytesToBits, Copied, FromBits;
      r.Sound();
      CopiedOne(r.bits, final, r.Pos(), counter, o.hist);
      var c := r.GetByte();
      r.Sound();
      o.Put(c);
      counter := counter - 1;
    }

    /** memcpy of as many bytes as there are, and as there is room for. */
    method CopyInput()
      requires Base() && AtStored() && place == StoredCopy && counter > 0 && o.cur < o.buf.Length && r.inPos < |r.inBuf| && !r.filling
      modifies `counter, r`inPos, r`bitBuf, r`numBits, r`read, o`cur, o`hist, o.buf
      ensures Base() && r.numBits <= 8 * r.read && AtStored() && r.Pos() > old(r.Pos()) && old(o.hist) <= o.hist
    {
      hide BitReader.Valid, Output.Valid, Apart, AtStored;
      var room, input := o.buf.Length - o.cur, |r.inBuf| - r.inPos;
      var n := if room <= input then room else input;
      n := if n <= counter then n else counter;
      CopyByte();
      n := n - 1;
      while n > 0
        invariant 0 <= n <= counter && n <= o.buf.Length - o.cur && n <= |r.inBuf| - r.inPos
        invariant r.numBits <= 8 * r.read && Base() && AtStored() && old(o.hist) <= o.hist && r.Pos() > old(r.Pos())
      {
        ghost var h := o.hist;
        CopyByte();
        assert h <= o.hist;
        n := n - 1;
      }
    }

    /** One of the three table sizes (src/http/miniz.c:1504). */
    method StepSizes() returns (status: Option<Status>)
      requires Valid() && place == Sizes
      modifies this, r`inPos, r`bitBuf, r`numBits, r`filling, r`read, t2.codeSize
      ensures Valid() && status != Some(HasMoreOutput) && status != Some(Done)
      ensures status.None? ==> r.Pos() > old(r.Pos())
      ensures status.Some? ==> r.inPos == |r.inBuf| && r.read < |r.full|
    {
      hide Valid, AtLabel, BitReader.Valid, Output.Valid, Apart, FromBits, WithTables, InflateTables, FromCl, InflateCl, Pow2, BytesToBits;
      IsSizes();
      r.Sound();
      ApartArrays(this);
      HaveTables(r.bits, final, start, o.hist);
      AtSizes(r.bits, start);
      var ok, v := r.GetBits(if counter == 2 then 4 else 5);
      r.Sound();
      if !ok {
        IsSizes();
        return Some(NeedsMoreInput);
      }
      status := None;
      if counter < 2 {
        KeepSize(v);
      } else {
        StartClSizes(v + 4);
      }
    }

    method KeepSize(v: nat)
      requires Base() && !r.filling && r.numBits <= 8 * r.read && place == Sizes && counter < 2 && start + 5 * counter + 5 == r.Pos() <= |r.bits|
      requires counter == 1 ==> size0 == FromBits(r.bits[start..start + 5]) + 257
      requires v == FromBits(r.bits[start + 5 * counter..start + 5 * counter + 5]) && WithTables(r.bits, final, InflateTables(r.bits, start), o.hist) == target
      modifies `size0, `size1, `counter
      ensures Valid() && place == Sizes
    {
      hide Valid, AtLabel, BitReader.Valid, Output.Valid, Apart, FromBits, WithTables, InflateTables;
      if counter == 0 {
        size0, counter := v + 257, 1;
        IsSizes();
      } else {
        size1, counter := v + 1, 2;
        IsSizes();
      }
    }

    /** All three are known: the code lengths of the code length code are cleared. */
    method StartClSizes(n: nat)
      requires Base() && !r.filling && r.numBits <= 8 * r.read && place == Sizes && start + 14 == r.Pos() <= |r.bits|
      requires InflateTables(r.bits, start).Some? && WithTables(r.bits, final, InflateTables(r.bits, start), o.hist) == target
      requires size0 == FromBits(r.bits[start..start + 5]) + 257 && size1 == FromBits(r.bits[start + 5..start + 10]) + 1
      requires n == FromBits(r.bits[start + 10..start + 14]) + 4
      modifies this, t2.codeSize
      ensures Valid() && place == ClSizes
    {
      hide Valid, AtLabel, BitReader.Valid, Output.Valid, Apart, FromBits, WithTables, InflateTables, FromCl, InflateCl, Pow2, BytesToBits;
      ApartArrays(this);
      AtSizes(r.bits, start);
      size2, counter := n, 0;
      forall i | 0 <= i < t2.codeSize.Length { t2.codeSize[i] := 0; }
      assert t2.codeSize[..19] == Fill(0, 19);
      place := ClSizes;
      IsClSizes();
    }

    /** One code length of the code length code, or all are there (src/http/miniz.c:1505-1506). */
    method StepClSizes() returns (status: Option<Status>)
      requires Valid() && place == ClSizes
      modifies this, r`inPos, r`bitBuf, r`numBits, r`filling, r`read, t2.codeSize, t2.lookUp, t2.tree
      ensures Valid() && status != Some(HasMoreOutput) && status != Some(Done)
      ensures status.None? ==> r.Pos() > old(r.Pos()) || (r.Pos() == old(r.Pos()) && Rank(place) < 4)
      ensures status.Some? ==> r.inPos == |r.inBuf| && r.read < |r.full|
    {
      hide Valid, AtLabel, BitReader.Valid, Output.Valid, Apart, FromBits, WithTables, FromCl, InflateCl, Dezigzag;
      IsClSizes();
      r.Sound();
      ApartArrays(this);
      HaveCl(r.bits, final, size0, size1, InflateCl(r.bits, r.Pos(), counter, size2, t2.codeSize[..19]), r.Pos() + 3 * (size2 - counter), o.hist);
      if counter == size2 {
        StartLens();
        return None;
      }
      ghost var cl := t2.codeSize[..19];
      AtCl(r.bits, r.Pos(), counter, size2, cl);
      var ok, v := r.GetBits(3);
      r.Sound();
      if !ok {
        IsClSizes();
        return Some(NeedsMoreInput);
      }
      KeepClSize(v, cl);
      status := None;
    }

    method KeepClSize(v: nat, ghost cl: seq<nat>)
      requires Base() && !r.filling && place == ClSizes && v < 8 && cl == t2.codeSize[..19] && forall i :: 0 <= i < 19 ==> t2.codeSize[i] < 8
      requires r.numBits <= 8 * r.read && counter < size2 <= 19 && size0 <= 288 && size1 <= 32 && r.Pos() + 3 * (size2 - counter - 1) <= |r.bits|
      requires WithTables(r.bits, final, FromCl(r.bits, size0, size1, InflateCl(r.bits, r.Pos(), counter + 1, size2, cl[Dezigzag(counter) := v]),
                                                r.Pos() + 3 * (size2 - counter - 1)), o.hist) == target
      modifies `counter, t2.codeSize
      ensures Valid() && place == ClSizes
    {
      hide Valid, AtLabel, BitReader.Valid, Output.Valid, Apart, WithTables, FromCl, InflateCl, Dezigzag;
      ApartArrays(this);
      t2.codeSize[Dezigzag(counter)] := v;
      assert t2.codeSize[..19] == cl[Dezigzag(counter) := v];
      counter := counter + 1;
      IsClSizes();
    }

    /** The table for the code lengths. */
    method StartLens()
      requires Base() && !r.filling && r.numBits <= 8 * r.read && place == ClSizes && AtClSizes() && counter == size2
      modifies this, t2.lookUp, t2.tree
      ensures Valid() && place == Lens
    {
      hide Valid, AtLabel, BitReader.Valid, Output.Valid, Apart, FromBits, WithTables, InflateLens, SplitTables, Accepted, Trie, Fits;
      r.Sound();
      ApartArrays(this);
      ghost var cl := t2.codeSize[..19];
      ClAccepted(r.bits, final, size0, size1, cl, r.Pos(), o.hist);
      var ok;
      ok, paths2 := BuildAccepted(t2, 19);
      S2 := cl;
      BeginLens();
    }

    method BeginLens()
      requires Base() && !r.filling && r.numBits <= 8 * r.read && LensReady() && r.Pos() <= |r.bits|
      requires WithTables(r.bits, final, SplitTables(size0, InflateLens(S2, r.bits, r.Pos(), size0 + size1, [])), o.hist) == target
      modifies `size2, `counter, `place
      ensures Valid() && place == Lens
    {
      hide Valid, AtLabel, BitReader.Valid, Output.Valid, Apart, WithTables, InflateLens, SplitTables;
      ApartArrays(this);
      size2, counter := 19, 0;
      assert lenCodes[..0] == [];
      place := Lens;
      IsLens();
    }

    /** One symbol of the code lengths, or all are there (src/http/miniz.c:1535-1546). */
    method StepLens() returns (status: Option<Status>)
      requires Valid() && place == Lens
      modifies this, r`inPos, r`bitBuf, r`numBits, r`filling, r`read, lenCodes, t0.codeSize, t0.lookUp, t0.tree, t1.codeSize, t1.lookUp, t1.tree
      ensures Valid() && status != Some(HasMoreOutput) && status != Some(Done)
      ensures status.None? ==> r.Pos() > old(r.Pos()) || (r.Pos() == old(r.Pos()) && Rank(place) < 2)
      ensures status.Some? ==> r.inPos == |r.inBuf| && r.read < |r.full|
    {
      hide Valid, AtLabel, BitReader.Valid, Output.Valid, Apart, WithTables, InflateLens, SplitTables, Trie, Fits, Codeword, DecodeSym, RepeatRest;
      IsLens();
      r.Sound();
      ApartArrays(this);
      HaveLens(r.bits, final, size0, InflateLens(S2, r.bits, r.Pos(), size0 + size1, lenCodes[..counter]), o.hist);
      AtLens(S2, r.bits, r.Pos(), size0 + size1, lenCodes[..counter]);
      if counter >= size0 + size1 {
        FinishLens();
        return None;
      }
      ghost var s := DecodeSym(S2, r.bits, r.Pos()).value;
      Decoded(S2, r.bits, r.Pos());
      var ok, sym := r.HuffDecode(t2, S2, paths2, s);
      r.Sound();
      if !ok {
        IsLens();
        return Some(NeedsMoreInput);
      }
      KeepLens(sym);
      status := None;
    }

    method KeepLens(sym: nat)
      requires Base() && !r.filling && r.numBits <= 8 * r.read && r.Pos() <= |r.bits| && place == Lens && LensReady() && counter < size0 + size1
      requires sym <= 18 && (sym == 16 ==> counter > 0) && (forall i :: 0 <= i < counter ==> lenCodes[i] <= 15)
      requires sym < 16 ==> WithTables(r.bits, final, SplitTables(size0, InflateLens(S2, r.bits, r.Pos(), size0 + size1, lenCodes[..counter] + [sym])), o.hist) == target
      requires sym >= 16 ==> WithTables(r.bits, final, SplitTables(size0, RepeatRest(S2, r.bits, r.Pos(), size0 + size1, lenCodes[..counter], sym)), o.hist) == target
      modifies `counter, `dist, `numExtra, `place, lenCodes
      ensures Valid() && (place == Lens || place == LensExtra)
    {
      hide Valid, AtLabel, BitReader.Valid, Output.Valid, Apart, WithTables, InflateLens, SplitTables, Trie, Fits, RepeatRest, Pow2, FromBits, BytesToBits;
      ApartArrays(this);
      if sym < 16 {
        ghost var acc := lenCodes[..counter];
        lenCodes[counter] := sym;
        assert lenCodes[..counter + 1] == acc + [sym];
        counter := counter + 1;
        IsLens();
      } else {
        dist := sym;
        numExtra := [2, 3, 7][sym - 16];
        place := LensExtra;
        IsLensExtra();
      }
    }

    /** The lengths go to their tables. */
    method FinishLens()
      requires Base() && !r.filling && r.numBits <= 8 * r.read && r.Pos() <= |r.bits| && size0 <= 288 && size1 <= 32 && counter == size0 + size1
      requires WithTables(r.bits, final, SplitTables(size0, Some((lenCodes[..counter], r.Pos()))), o.hist) == target
      modifies this, t0.codeSize, t0.lookUp, t0.tree, t1.codeSize, t1.lookUp, t1.tree
      ensures Valid() && place == Codes
    {
      hide Valid, AtLabel, BitReader.Valid, Output.Valid, Apart, WithTables, SplitTables, Accepted, Trie, Fits, Rest, InflateCodes;
      ApartArrays(this);
      ghost var lens := lenCodes[..counter];
      Splits(r.bits, final, size0, lens, r.Pos(), o.hist);
      forall i | 0 <= i < size0 { t0.codeSize[i] := lenCodes[i]; }
      forall i | 0 <= i < size1 { t1.codeSize[i] := lenCodes[size0 + i]; }
      assert t0.codeSize[..size0] == lens[..size0] && t1.codeSize[..size1] == lens[size0..];
      BuildCodes();
    }

    /** The extra bits of a repeat, and the repeated lengths. They may run past the end of the list by 137,
        never past the end of the array. */
    method StepLensExtra() returns (status: Option<Status>)
      requires Valid() && place == LensExtra
      modifies this, r`inPos, r`bitBuf, r`numBits, r`filling, r`read, lenCodes
      ensures Valid() && status != Some(HasMoreOutput) && status != Some(Done)
      ensures status.None? ==> r.Pos() > old(r.Pos())
      ensures status.Some? ==> r.inPos == |r.inBuf| && r.read < |r.full|
    {
      hide Valid, AtLabel, BitReader.Valid, Output.Valid, Apart, WithTables, InflateLens, SplitTables, Trie, Fits, RepeatRest, FromBits;
      IsLensExtra();
      r.Sound();
      ApartArrays(this);
      ghost var total, acc := size0 + size1, lenCodes[..counter];
      HaveLens(r.bits, final, size0, RepeatRest(S2, r.bits, r.Pos(), total, acc, dist), o.hist);
      AtRepeat(S2, r.bits, r.Pos(), total, acc, dist);
      var ok, s := r.GetBits(numExtra);
      r.Sound();
      if !ok {
        IsLensExtra();
        return Some(NeedsMoreInput);
      }
      Repeat(s);
      status := None;
    }

    method FillLens(v: nat, n: nat)
      requires lenCodes.Length == LEN_CODES && counter + n <= LEN_CODES && v <= 15 && forall i :: 0 <= i < counter ==> lenCodes[i] <= 15
      modifies `counter, lenCodes
      ensures counter == old(counter) + n && lenCodes[..counter] == old(lenCodes[..counter]) + Fill(v, n)
      ensures forall i :: 0 <= i < counter ==> lenCodes[i] <= 15
    {
      ghost var acc := lenCodes[..counter];
      forall i | counter <= i < counter + n { lenCodes[i] := v; }
      assert lenCodes[..counter + n] == acc + Fill(v, n);
      counter := counter + n;
    }

    /** memset of the repeated length. */
    method Repeat(s: nat)
      requires Base() && !r.filling && r.numBits <= 8 * r.read && r.Pos() <= |r.bits| && place == LensExtra && LensReady() && counter < size0 + size1
      requires 16 <= dist <= 18 && (dist == 16 ==> counter > 0) && s < 128 && (forall i :: 0 <= i < counter ==> lenCodes[i] <= 15)
      requires WithTables(r.bits, final, SplitTables(size0, InflateLens(S2, r.bits, r.Pos(), size0 + size1,
                 lenCodes[..counter] + Fill(if dist == 16 then lenCodes[..counter][counter - 1] else 0, RepeatBase(dist) + s))), o.hist) == target
      modifies `counter, `place, lenCodes
      ensures Valid() && place == Lens
    {
      hide Valid, AtLabel, BitReader.Valid, Output.Valid, Apart, WithTables, InflateLens, SplitTables, Trie, Fits;
      r.Sound();
      ApartArrays(this);
      var n := s + [3, 3, 11][dist - 16];
      FillLens(if dist == 16 then lenCodes[counter - 1] else 0, n);
      LensBounded(S2, r.bits, r.Pos(), size0 + size1, lenCodes[..counter], final, size0, o.hist);
      place := Lens;
      IsLens();
    }

    /** The end of the inner loop (src/http/miniz.c:1605): the end of the block, or a length. */
    method LongSymbol(sym: nat)
      requires Base() && !r.filling && r.numBits <= 8 * r.read && r.Pos() <= |r.bits| && Coding() && 256 <= sym <= 285
      requires sym == 256 ==> Rest(r.bits, final, Some(Result(o.hist, r.Pos()))) == target
      requires sym > 256 ==> Rest(r.bits, final, AfterSym(S0, S1, r.bits, r.Pos(), o.hist, LengthBase(sym - 257), LengthExtra(sym - 257))) == target
      modifies `place, `numExtra, `counter
      ensures Valid() && place in {Head, Finished, LenExtra}
    {
      hide Valid, AtLabel, BitReader.Valid, Output.Valid, Apart, AfterSym, LengthBase, LengthExtra, Trie, Fits, InflateFrom;
      if sym == 256 {
        NextBlock();
      } else {
        LengthBounds(sym);
        numExtra, counter := LengthExtra(sym - 257), LengthBase(sym - 257);
        place := LenExtra;
        IsLenExtra();
      }
    }

    /** One symbol, byte by byte if the input runs low (src/http/miniz.c:1556-1563). */
    method SlowCode() returns (status: Option<Status>)
      requires Valid() && place == Codes
      modifies this, r`inPos, r`bitBuf, r`numBits, r`filling, r`read
      ensures Valid() && status != Some(HasMoreOutput) && status != Some(Done)
      ensures status.None? ==> r.Pos() > old(r.Pos())
      ensures status.Some? ==> r.inPos == |r.inBuf| && r.read < |r.full|
    {
      hide Valid, AtLabel, BitReader.Valid, Output.Valid, Apart, InflateCodes, AfterSym, Rest, Trie, Fits, Codeword, DecodeSym, LengthBase, LengthExtra;
      IsCodes();
      r.Sound();
      HaveRest(r.bits, final, InflateCodes(S0, S1, r.bits, r.Pos(), o.hist));
      AtCodes(S0, S1, r.bits, r.Pos(), o.hist);
      ghost var s := DecodeSym(S0, r.bits, r.Pos()).value;
      Decoded(S0, r.bits, r.Pos());
      var ok, sym := r.HuffDecode(t0, S0, paths0, s);
      r.Sound();
      if !ok {
        IsCodes();
        return Some(NeedsMoreInput);
      }
      if sym >= 256 {
        LongSymbol(sym);
      } else {
        counter := sym;
        place := PutLiteral;
        IsPutLiteral();
      }
      status := None;
    }

    /** One symbol of the fast path, with fifteen bits or more in the register. */
    method FastSymbol() returns (sym: nat)
      requires Base() && !r.filling && r.numBits <= 8 * r.read && AtCodesLabel(o.hist) && r.numBits >= 15
      modifies r`bitBuf, r`numBits
      ensures Base() && r.numBits <= 8 * r.read && r.Pos() <= |r.bits| && Coding() && sym <= 285 && r.Pos() > old(r.Pos()) && r.numBits >= old(r.numBits) - 15
      ensures sym < 256 ==> AtCodesLabel(o.hist + [sym as Byte])
      ensures sym == 256 ==> Rest(r.bits, final, Some(Result(o.hist, r.Pos()))) == target
      ensures sym > 256 ==> Rest(r.bits, final, AfterSym(S0, S1, r.bits, r.Pos(), o.hist, LengthBase(sym - 257), LengthExtra(sym - 257))) == target
    {
      hide Valid, AtLabel, BitReader.Valid, Output.Valid, Apart, InflateCodes, AfterSym, Rest, Trie, Fits, Codeword, DecodeSym, LengthBase, LengthExtra;
      r.Sound();
      HaveRest(r.bits, final, InflateCodes(S0, S1, r.bits, r.Pos(), o.hist));
      AtCodes(S0, S1, r.bits, r.Pos(), o.hist);
      ghost var s := DecodeSym(S0, r.bits, r.Pos()).value;
      Decoded(S0, r.bits, r.Pos());
      LongestCode(S0, s);
      sym := r.Decode(t0, S0, paths0, s);
      r.Sound();
    }

    /** `*pOut_buf_cur++ = (mz_uint8)sym` on the fast path. */
    method FastPut(b: Byte)
      requires Base() && r.numBits <= 8 * r.read && AtCodesLabel(o.hist + [b]) && o.cur < o.buf.Length
      modifies o`cur, o`hist, o.buf
      ensures Base() && AtCodesLabel(o.hist) && o.hist == old(o.hist) + [b] && o.cur == old(o.cur) + 1
    {
      hide Valid, AtLabel, BitReader.Valid, Output.Valid, Apart, InflateCodes, Rest, Trie, Fits;
      BufApart(this);
      o.Put(b);
    }

    /** Two symbols at once: 32 bits are read ahead, and need not be looked for again
        (src/http/miniz.c:1564-1596). */
    method FastCodes()
      requires Valid() && place == Codes && !r.filling && r.inPos + 4 <= |r.inBuf| && o.cur + 2 <= o.buf.Length
      modifies this, r`inPos, r`bitBuf, r`numBits, r`filling, r`read, o, o.buf
      ensures Valid() && r.Pos() > old(r.Pos()) && old(o.hist) <= o.hist && o.buf == old(o.buf) && o.turn == old(o.turn)
    {
      hide Valid, AtLabel, BitReader.Valid, Output.Valid, Apart, InflateCodes, AfterSym, Rest, Trie, Fits, LengthBase, LengthExtra, Pow2, FromBits, BytesToBits;
      IsCodes();
      r.Sound();
      if r.numBits < 30 {
        r.PullWord();
        r.Sound();
      }
      var sym := FastSymbol();
      if sym >= 256 {
        LongSymbol(sym);
        return;
      }
      FastPut(sym);
      var sym2 := FastSymbol();
      if sym2 >= 256 {
        LongSymbol(sym2);
        return;
      }
      FastPut(sym2);
      IsCodes();
    }

    method StepCodes() returns (status: Option<Status>)
      requires Valid() && place == Codes
      modifies this, r`inPos, r`bitBuf, r`numBits, r`filling, r`read, o, o.buf
      ensures Valid() && status != Some(HasMoreOutput) && status != Some(Done)
      ensures status.None? ==> r.Pos() > old(r.Pos())
      ensures status.Some? ==> r.inPos == |r.inBuf| && r.read < |r.full|
      ensures old(o.hist) <= o.hist && o.buf == old(o.buf) && o.turn == old(o.turn)
    {
      hide Valid;
      if r.filling || r.inPos + 4 > |r.inBuf| || o.cur + 2 > o.buf.Length {
        status := SlowCode();
      } else {
        FastCodes();
        status := None;
      }
    }

    /** src/http/miniz.c:1561-1562. */
    method StepPutLiteral() returns (status: Option<Status>)
      requires Valid() && place == PutLiteral
      modifies this, o, o.buf
      ensures Valid() && (status == None || (status == Some(HasMoreOutput) && o.cur >= o.buf.Length && Waiting()))
      ensures old(o.hist) <= o.hist && (status.None? ==> place == Codes) && o.buf == old(o.buf) && o.turn == old(o.turn)
    {
      hide Valid, AtLabel, BitReader.Valid, Output.Valid, Apart, InflateCodes, Rest, Trie, Fits;
      IsPutLiteral();
      if o.cur >= o.buf.Length { return Some(HasMoreOutput); }
      FastPut(counter);
      place := Codes;
      IsCodes();
      status := None;
    }

    /** The extra bits of a length (src/http/miniz.c:1607-1608). */
    method StepLenExtra() returns (status: Option<Status>)
      requires Valid() && place == LenExtra
      modifies this, r`inPos, r`bitBuf, r`numBits, r`filling, r`read
      ensures Valid() && status != Some(HasMoreOutput) && status != Some(Done)
      ensures status.None? ==> r.Pos() >= old(r.Pos()) && place == DistSymbol
      ensures status.Some? ==> r.inPos == |r.inBuf| && r.read < |r.full|
    {
      hide Valid, AtLabel, BitReader.Valid, Output.Valid, Apart, AfterSym, AfterLen, Rest, Trie, Fits, FromBits, Pow2, BytesToBits;
      IsLenExtra();
      r.Sound();
      HaveRest(r.bits, final, AfterSym(S0, S1, r.bits, r.Pos(), o.hist, counter, numExtra));
      AtSymbol(S0, S1, r.bits, r.Pos(), o.hist, counter, numExtra);
      if numExtra > 0 {
        var ok, x := r.GetBits(numExtra);
        r.Sound();
        if !ok {
          IsLenExtra();
          return Some(NeedsMoreInput);
        }
        counter := counter + x;
      }
      place := DistSymbol;
      IsDistSymbol();
      status := None;
    }

    /** The distance symbol (src/http/miniz.c:1610-1611). */
    method StepDistSymbol() returns (status: Option<Status>)
      requires Valid() && place == DistSymbol
      modifies this, r`inPos, r`bitBuf, r`numBits, r`filling, r`read
      ensures Valid() && status != Some(HasMoreOutput) && status != Some(Done)
      ensures status.None? ==> r.Pos() > old(r.Pos())
      ensures status.Some? ==> r.inPos == |r.inBuf| && r.read < |r.full|
    {
      hide Valid, AtLabel, BitReader.Valid, Output.Valid, Apart, AfterLen, AfterDist, Rest, Trie, Fits, Codeword, DecodeSym, DistBase, DistExtra, Pow2, FromBits, BytesToBits;
      IsDistSymbol();
      r.Sound();
      HaveRest(r.bits, final, AfterLen(S0, S1, r.bits, r.Pos(), o.hist, counter));
      AtLength(S0, S1, r.bits, r.Pos(), o.hist, counter);
      ghost var s := DecodeSym(S1, r.bits, r.Pos()).value;
      Decoded(S1, r.bits, r.Pos());
      var ok, sym := r.HuffDecode(t1, S1, paths1, s);
      r.Sound();
      if !ok {
        IsDistSymbol();
        return Some(NeedsMoreInput);
      }
      DistanceBounds(sym);
      numExtra, dist := DistExtra(sym), DistBase(sym);
      place := DistanceExtra;
      IsDistanceExtra();
      status := None;
    }

    /** The extra bits of a distance, and the copy (src/http/miniz.c:1611-1668). */
    method StepDistanceExtra() returns (status: Option<Status>)
      requires Valid() && place == DistanceExtra
      modifies this, r`inPos, r`bitBuf, r`numBits, r`filling, r`read, o, o.buf
      ensures Valid() && status != Some(Done)
      ensures status.None? ==> r.Pos() >= old(r.Pos()) && place == Codes
      ensures status == Some(NeedsMoreInput) ==> r.inPos == |r.inBuf| && r.read < |r.full|
      ensures status == Some(HasMoreOutput) ==> o.cur >= o.buf.Length && Waiting()
      ensures old(o.hist) <= o.hist && o.buf == old(o.buf) && o.turn == old(o.turn)
    {
      hide Valid, AtLabel, BitReader.Valid, Output.Valid, Apart, AfterDist, InflateCodes, Rest, Trie, Fits, FromBits, Pow2;
      IsDistanceExtra();
      var ok := TakeDistance();
      if !ok {
        IsDistanceExtra();
        return Some(NeedsMoreInput);
      }
      status := StartCopy();
    }

    method TakeDistance() returns (ok: bool)
      requires Base() && !r.filling && r.numBits <= 8 * r.read && AtDistanceExtra()
      modifies `dist, r`inPos, r`bitBuf, r`numBits, r`read
      ensures Base() && r.numBits <= 8 * r.read && r.Pos() >= old(r.Pos())
      ensures !ok ==> AtDistanceExtra() && r.inPos == |r.inBuf| && r.read < |r.full|
      ensures ok ==> Coding() && r.Pos() <= |r.bits| && 1 <= dist <= |o.hist| && dist <= WINDOW
      ensures ok ==> Rest(r.bits, final, InflateCodes(S0, S1, r.bits, r.Pos(), CopyMatch(o.hist, dist, counter))) == target
    {
      hide BitReader.Valid, Output.Valid, Apart, AfterDist, InflateCodes, Rest, Trie, Fits, FromBits, Pow2, CopyMatch;
      r.Sound();
      HaveRest(r.bits, final, AfterDist(S0, S1, r.bits, r.Pos(), o.hist, counter, dist, numExtra));
      AtDistance(S0, S1, r.bits, r.Pos(), o.hist, counter, dist, numExtra);
      if numExtra > 0 {
        var x;
        ok, x := r.GetBits(numExtra);
        r.Sound();
        if !ok { return; }
        dist := dist + x;
      }
      ok := true;
    }

    /** The distance is known. It is not too far for a flat buffer; the copy may be cut off. */
    method StartCopy() returns (status: Option<Status>)
      requires Base() && !r.filling && r.numBits <= 8 * r.read && Coding() && r.Pos() <= |r.bits| && counter >= 3 && 1 <= dist <= |o.hist| && dist <= WINDOW
      requires Rest(r.bits, final, InflateCodes(S0, S1, r.bits, r.Pos(), CopyMatch(o.hist, dist, counter))) == target
      modifies this, o, o.buf
      ensures Valid() && (status == None || status == Some(HasMoreOutput)) && (status == None ==> place == Codes)
      ensures status == Some(HasMoreOutput) ==> o.cur >= o.buf.Length && Waiting()
      ensures old(o.hist) <= o.hist && o.buf == old(o.buf) && o.turn == old(o.turn)
    {
      hide Valid, AtLabel, BitReader.Valid, Output.Valid, Apart, InflateCodes, Rest, Trie, Fits, CopyMatch, Copying;
      BufApart(this);
      Reach(o, dist);
      from := o.cur;
      if dist > from && o.flat {
        assert false;
      }
      whole, turns := CopyMatch(o.hist, dist, counter), 0;
      assert AtCodesLabel(whole);
      status := CopyOut();
    }

    method CopyOut() returns (status: Option<Status>)
      requires Base() && !r.filling && r.numBits <= 8 * r.read && AtCodesLabel(whole) && counter >= 3 && from == o.cur && turns == 0
      requires InReach(o.buf.Length, o.hist, dist) && whole == CopyMatch(o.hist, dist, counter)
      modifies `counter, `from, `place, o`cur, o`hist, o.buf
      ensures Valid() && (status == None || status == Some(HasMoreOutput)) && (status == None ==> place == Codes)
      ensures status == Some(HasMoreOutput) ==> o.cur >= o.buf.Length && Waiting()
      ensures old(o.hist) <= o.hist
    {
      hide Valid, AtLabel, BitReader.Valid, Output.Valid, Apart, InflateCodes, Rest, Trie, Fits, CopyMatch, Copying, InReach;
      BufApart(this);
      counter, from := o.CopyFrom(counter, from, dist);
      status := AfterCopy();
    }

    /** All copied, or cut off. */
    method AfterCopy() returns (status: Option<Status>)
      requires Base() && !r.filling && r.numBits <= 8 * r.read && AtCodesLabel(whole) && Copying(o.buf[..], o.hist, o.turn, dist, counter, whole)
      requires counter > 0 ==> o.cur == o.buf.Length && from == o.cur + turns * o.buf.Length && (o.flat ==> turns == 0)
      modifies `place
      ensures Valid() && status == (if counter > 0 then Some(HasMoreOutput) else None) && place == (if counter == 0 then Codes else Copy)
    {
      hide Valid, AtLabel, BitReader.Valid, Output.Valid, Apart, InflateCodes, Rest, Trie, Fits, Copying;
      if counter > 0 {
        place := Copy;
        IsCopy();
        return Some(HasMoreOutput);
      }
      CopyingIs(o.buf[..], o.hist, o.turn, dist, 0, whole);
      place := Codes;
      IsCodes();
      status := None;
    }

    /** A copy that was cut off goes on (src/http/miniz.c:1624-1629). */
    method StepCopy() returns (status: Option<Status>)
      requires Valid() && place == Copy
      modifies this, o, o.buf
      ensures Valid() && (status == None || status == Some(HasMoreOutput)) && (status == None ==> place == Codes)
      ensures status == Some(HasMoreOutput) ==> o.cur >= o.buf.Length && Waiting()
      ensures old(o.hist) <= o.hist && o.buf == old(o.buf) && o.turn == old(o.turn)
    {
      hide Valid, AtLabel, BitReader.Valid, Output.Valid, Apart, InflateCodes, Rest, Trie, Fits, Copying;
      IsCopy();
      BufApart(this);
      counter, from := o.CopyMore(counter, from, dist, turns, whole);
      status := AfterCopy();
    }

    // ----- a call -----

    /** What holds at a label looks at the register, at the tables and at the output so far, not at the
        buffers; only a copy under way looks at the output buffer. */
    twostate lemma SameView()
      requires old(Valid()) && Base() && unchanged(this) && unchanged(t0.lookUp, t0.tree, t1.lookUp, t1.tree, t2.codeSize, t2.lookUp, t2.tree, lenCodes)
      requires r.numBits == old(r.numBits) && r.read == old(r.read) && r.filling == old(r.filling) && o.hist == old(o.hist)
      requires r.numBits <= 8 * r.read && place != Copy
      ensures Valid()
    {
      hide BitReader.Valid, Output.Valid, Apart, InflateFrom, InflateStored, InflateCodes, InflateTables, InflateCl, InflateLens, Rest, Copied, WithTables, SplitTables;
      hide FromCl, RepeatRest, AfterSym, AfterLen, AfterDist, Trie, Fits, FromBits, RawSoFar, Pow2;
      SameArrays();
    }

    twostate lemma SameArrays()
      requires unchanged(t0.lookUp, t0.tree, t1.lookUp, t1.tree, t2.codeSize, t2.lookUp, t2.tree, lenCodes)
      ensures t0.lookUp[..] == old(t0.lookUp[..]) && t0.tree[..] == old(t0.tree[..]) && t1.lookUp[..] == old(t1.lookUp[..]) && t1.tree[..] == old(t1.tree[..])
      ensures t2.codeSize[..] == old(t2.codeSize[..]) && t2.lookUp[..] == old(t2.lookUp[..]) && t2.tree[..] == old(t2.tree[..]) && lenCodes[..] == old(lenCodes[..])
      ensures forall n :: 0 <= n <= lenCodes.Length ==> lenCodes[..n] == old(lenCodes[..n])
      ensures forall n :: 0 <= n <= t2.codeSize.Length ==> t2.codeSize[..n] == old(t2.codeSize[..n])
    {
    }

    /** The input of a new call. */
    method TakeInput(chunk: seq<Byte>)
      requires Valid() && r.read + |chunk| <= |r.full| && chunk == r.full[r.read..r.read + |chunk|]
      modifies r`inBuf, r`inPos, r`base
      ensures Valid() && r.inBuf == chunk && r.inPos == 0 && r.base == r.read
    {
      hide Valid, AtLabel, BitReader.Valid, Output.Valid, Apart;
      ValidBase();
      r.Feed(chunk);
      r.Sound();
      if place == Copy { IsCopyKept(); } else { SameView(); }
    }

    lemma InputBound()
      requires Valid()
      ensures r.inPos <= |r.inBuf| && r.read == r.base + r.inPos
    {
      hide AtLabel, Output.Valid, Apart, Register;
    }

    lemma ValidBase()
      requires Valid()
      ensures Base() && r.numBits <= 8 * r.read <= |r.bits| && |r.bits| == 8 * |r.full|
    {
      hide AtLabel, BitReader.Valid, Output.Valid, Apart;
      r.Sound();
    }

    twostate lemma IsCopyKept()
      requires old(Valid()) && Base() && unchanged(this) && unchanged(t0.lookUp, t0.tree, t1.lookUp, t1.tree, t2.codeSize, t2.lookUp, t2.tree, lenCodes, o) && o.buf[..] == old(o.buf[..])
      requires r.numBits == old(r.numBits) && r.read == old(r.read) && r.filling == old(r.filling) && r.numBits <= 8 * r.read && place == Copy
      ensures Valid()
    {
      hide BitReader.Valid, Output.Valid, Apart, InflateCodes, Rest, Trie, Fits, Copying;
      SameArrays();
    }

    /** The buffer that a call may bring: the output so far is in it, and the call goes on where the last one
        ended, or at the start of a ring that is full. */
    ghost predicate Brings(buf2: array<Byte>, next: nat)
      reads o, o.buf, buf2
    {
      && buf2 as object !in DecoderArrays(t0, t1, t2, lenCodes) && (!o.flat ==> buf2.Length == o.buf.Length)
      && if !o.flat && next == 0 && o.cur == o.buf.Length then Latest(buf2[..], o.hist, o.turn + o.buf.Length)
         else next == o.cur && Latest(buf2[..], o.hist, o.turn)
    }

    /** The output buffer of a new call. */
    method TakeOutput(buf2: array<Byte>, next: nat)
      requires Valid() && Brings(buf2, next)
      modifies `turns, o
      ensures Valid() && o.buf == buf2 && o.cur == next && o.hist == old(o.hist) && |o.hist| == o.turn + next
    {
      hide Valid, AtLabel, BitReader.Valid, Apart, Latest;
      ValidBase();
      if place == Copy {
        CopyOutput(buf2, next);
      } else {
        o.Attach(buf2, next);
        SameView();
      }
    }

    /** A copy under way goes on in the new buffer; a turn of the ring more has passed if it was full. */
    method CopyOutput(buf2: array<Byte>, next: nat)
      requires Valid() && Brings(buf2, next) && place == Copy
      modifies `turns, o
      ensures Valid() && o.buf == buf2 && o.cur == next && o.hist == old(o.hist) && |o.hist| == o.turn + next
    {
      hide Valid, AtLabel, BitReader.Valid, Apart, Latest, InflateCodes, Rest, Trie, Fits, CopyMatch;
      IsCopy();
      if !o.flat && next == 0 && o.cur == o.buf.Length {
        OneTurnMore(turns, o.buf.Length);
        turns := turns + 1;
      }
      o.Attach(buf2, next);
      LatestBounds(buf2[..], o.hist, o.turn);
      IsCopy();
    }

    /** The next bit of the stream, for counting on. */
    ghost function Mark(): nat
      reads r
    {
      if r.numBits <= 8 * r.read then r.Pos() else 0
    }

    /** Block headers and stored blocks. */
    method StepBlock() returns (status: Option<Status>)
      requires Valid() && Phase(place) == 0
      modifies this, r`inPos, r`bitBuf, r`numBits, r`filling, r`read, o, o.buf, t0.codeSize, t0.lookUp, t0.tree, t1.codeSize, t1.lookUp, t1.tree
      ensures Valid() && old(o.hist) <= o.hist && o.buf == old(o.buf) && o.turn == old(o.turn)
      ensures status.None? ==> Mark() > old(Mark()) || (Mark() == old(Mark()) && Rank(place) < old(Rank(place)))
      ensures status == Some(NeedsMoreInput) ==> r.inPos == |r.inBuf| && r.read < |r.full|
      ensures status == Some(HasMoreOutput) ==> o.cur >= o.buf.Length && Waiting()
      ensures status == Some(Done) ==> place == Finished
    {
      hide Valid;
      ValidBase();
      match place
      case Head => status := StepHead();
      case RawHeader => status := StepRawHeader();
      case StoredBits => status := StepStoredBits();
      case StoredPut => status := StepStoredPut();
      case StoredCopy => status := StepStoredCopy();
      case Finished => status := Some(Done);
      ValidBase();
    }

    /** Table headers. */
    method StepTables() returns (status: Option<Status>)
      requires Valid() && Phase(place) == 1
      modifies this, r`inPos, r`bitBuf, r`numBits, r`filling, r`read, t0.codeSize, t0.lookUp, t0.tree, t1.codeSize, t1.lookUp, t1.tree, t2.codeSize, t2.lookUp, t2.tree, lenCodes
      ensures Valid() && old(o.hist) <= o.hist && o.buf == old(o.buf) && o.turn == old(o.turn)
      ensures status.None? ==> Mark() > old(Mark()) || (Mark() == old(Mark()) && Rank(place) < old(Rank(place)))
      ensures status == Some(NeedsMoreInput) ==> r.inPos == |r.inBuf| && r.read < |r.full|
      ensures status == Some(HasMoreOutput) ==> o.cur >= o.buf.Length && Waiting()
      ensures status == Some(Done) ==> place == Finished
    {
      hide Valid;
      ValidBase();
      match place
      case Sizes => status := StepSizes();
      case ClSizes => status := StepClSizes();
      case Lens => status := StepLens();
      case LensExtra => status := StepLensExtra();
      ValidBase();
    }

    /** Compressed data. */
    method StepData() returns (status: Option<Status>)
      requires Valid() && Phase(place) == 2
      modifies this, r`inPos, r`bitBuf, r`numBits, r`filling, r`read, o, o.buf
      ensures Valid() && old(o.hist) <= o.hist && o.buf == old(o.buf) && o.turn == old(o.turn)
      ensures status.None? ==> Mark() > old(Mark()) || (Mark() == old(Mark()) && Rank(place) < old(Rank(place)))
      ensures status == Some(NeedsMoreInput) ==> r.inPos == |r.inBuf| && r.read < |r.full|
      ensures status == Some(HasMoreOutput) ==> o.cur >= o.buf.Length && Waiting()
      ensures status == Some(Done) ==> place == Finished
    {
      hide Valid;
      ValidBase();
      match place
      case Codes => status := StepCodes();
      case PutLiteral => status := StepPutLiteral();
      case LenExtra => status := StepLenExtra();
      case DistSymbol => status := StepDistSymbol();
      case DistanceExtra => status := StepDistanceExtra();
      case Copy => status := StepCopy();
      ValidBase();
    }

    /** From one label to another, or out. */
    method Step() returns (status: Option<Status>)
      requires Valid()
      modifies this, r`inPos, r`bitBuf, r`numBits, r`filling, r`read, o, o.buf, DecoderArrays(t0, t1, t2, lenCodes)
      ensures Valid() && old(o.hist) <= o.hist && o.buf == old(o.buf) && o.turn == old(o.turn)
      ensures status.None? ==> Mark() > old(Mark()) || (Mark() == old(Mark()) && Rank(place) < old(Rank(place)))
      ensures status == Some(NeedsMoreInput) ==> r.inPos == |r.inBuf| && r.read < |r.full|
      ensures status == Some(HasMoreOutput) ==> o.cur >= o.buf.Length && Waiting()
      ensures status == Some(Done) ==> place == Finished
    {
      hide Valid;
      if Phase(place) == 0 {
        status := StepBlock();
      } else if Phase(place) == 1 {
        status := StepTables();
      } else {
        status := StepData();
      }
    }

    /** tinfl_decompress: one call, on the next piece of the stream and a buffer with any amount of room.
        It asks for input only when it used up what it got and the stream has more; it asks for room only
        when the buffer is full; and when it is done, everything it put out, over all calls, is what the
        reference decoder gives for the whole stream. */
    method Decompress(chunk: seq<Byte>, buf2: array<Byte>, next: nat) returns (status: Status, consumed: nat)
      requires Valid() && r.read + |chunk| <= |r.full| && chunk == r.full[r.read..r.read + |chunk|] && Brings(buf2, next)
      modifies this, r, o, buf2, DecoderArrays(t0, t1, t2, lenCodes)
      ensures Valid() && old(o.hist) <= o.hist && o.buf == buf2 && consumed <= |chunk| && r.read == old(r.read) + consumed && |old(o.hist)| == o.turn + next
      ensures consumed == r.inPos && r.inBuf == chunk
      ensures status == NeedsMoreInput ==> consumed == |chunk| && r.read < |r.full|
      ensures status == HasMoreOutput ==> o.cur >= buf2.Length && Waiting()
      ensures status == Done ==> place == Finished && target.value.out == o.hist
    {
      hide Valid, Brings, DecoderArrays;
      OnlyArrays(this);
      TakeInput(chunk);
      TakeOutput(buf2, next);
      ValidBase();
      var more: Option<Status> := None;
      while more.None?
        invariant Valid() && old(o.hist) <= o.hist && o.buf == buf2 && Mark() <= |r.bits| && r.inPos <= |r.inBuf| && r.inBuf == chunk && r.base == old(r.read) && |old(o.hist)| == o.turn + next
        invariant more == Some(NeedsMoreInput) ==> r.inPos == |r.inBuf| && r.read < |r.full|
        invariant more == Some(HasMoreOutput) ==> o.cur >= buf2.Length && Waiting()
        invariant more == Some(Done) ==> place == Finished
        decreases if more.None? then 1 else 0, |r.bits| - Mark(), Rank(place)
      {
        more := Step();
        ValidBase();
        InputBound();
      }
      status, consumed := more.value, r.inPos;
      InputBound();
      if status == Done { IsFinished(); }
    }

    /** Some byte of the whole output is not out yet. */
    predicate Waiting()
      reads this
    {
      place == PutLiteral || place == StoredPut || (place == StoredCopy && counter > 0) || place == Copy
    }

    /** At any label, what was put out is the beginning of the whole; and where the decoder waits for room,
        there is more of it. */
    lemma OutputIsPrefix()
      requires Valid()
      ensures target.Some? && o.hist <= target.value.out
      ensures Waiting() ==> |o.hist| < |target.value.out|
    {
      hide Valid, AtLabel, BitReader.Valid, Output.Valid, Apart, InflateFrom, InflateStored, InflateCodes, InflateTables, InflateCl, InflateLens;
      hide Rest, Copied, WithTables, SplitTables, FromCl, RepeatRest, AfterSym, AfterLen, AfterDist, Trie, Fits, FromBits, RawSoFar, Pow2, Copying;
      ValidBase();
      if Phase(place) == 0 { PrefixInBlocks(); } else if Phase(place) == 1 { PrefixInTables(); } else { PrefixInData(); }
    }

    lemma PrefixInBlocks()
      requires Valid() && Phase(place) == 0
      ensures o.hist <= target.value.out && (Waiting() ==> |o.hist| < |target.value.out|)
    {
      hide Valid, AtLabel, BitReader.Valid, Output.Valid, Apart, InflateFrom, InflateStored, Rest, Copied, RawSoFar;
      ValidBase();
      match place
      case Head =>
        IsHead();
        FromExtends(r.bits, r.Pos(), o.hist);
      case RawHeader =>
        IsRawHeader();
        StoredExtends(r.bits, final, r.Pos() - 8 * counter, o.hist);
      case StoredPut =>
        IsStoredPut();
        CopiedExtends(r.bits, final, r.Pos(), counter - 1, o.hist + [dist as Byte]);
      case Finished =>
        IsFinished();
      case StoredBits =>
        IsStored();
        CopiedExtends(r.bits, final, r.Pos(), counter, o.hist);
      case StoredCopy =>
        IsStored();
        CopiedExtends(r.bits, final, r.Pos(), counter, o.hist);
    }

    lemma PrefixInTables()
      requires Valid() && Phase(place) == 1
      ensures o.hist <= target.value.out
    {
      hide Valid, AtLabel, BitReader.Valid, Output.Valid, Apart, InflateTables, InflateCl, InflateLens, WithTables, SplitTables, FromCl, RepeatRest, Trie, Fits, FromBits, Pow2;
      ValidBase();
      ApartArrays(this);
      match place
      case Sizes =>
        IsSizes();
        TablesExtend(r.bits, final, InflateTables(r.bits, start), o.hist);
      case ClSizes =>
        IsClSizes();
        TablesExtend(r.bits, final, FromCl(r.bits, size0, size1, InflateCl(r.bits, r.Pos(), counter, size2, t2.codeSize[..19]), r.Pos() + 3 * (size2 - counter)), o.hist);
      case Lens =>
        IsLens();
        LensExtend(r.bits, final, size0, InflateLens(S2, r.bits, r.Pos(), size0 + size1, lenCodes[..counter]), o.hist);
      case LensExtra =>
        IsLensExtra();
        LensExtend(r.bits, final, size0, RepeatRest(S2, r.bits, r.Pos(), size0 + size1, lenCodes[..counter], dist), o.hist);
    }

    lemma PrefixInData()
      requires Valid() && Phase(place) == 2
      ensures o.hist <= target.value.out && (Waiting() ==> |o.hist| < |target.value.out|)
    {
      hide Valid, AtLabel, BitReader.Valid, Output.Valid, Apart, InflateCodes, Rest, AfterSym, AfterLen, AfterDist, Trie, Fits, Pow2, Copying, CopyMatch;
      ValidBase();
      match place
      case Codes =>
        IsCodes();
        CodesRestExtend(o.hist);
      case PutLiteral =>
        IsPutLiteral();
        CodesRestExtend(o.hist + [counter as Byte]);
      case Copy =>
        IsCopy();
        CodesRestExtend(whole);
        CopyGrows(o.buf[..], o.hist, o.turn, dist, counter, whole);
      case LenExtra =>
        IsLenExtra();
        RestExtends(r.bits, final, AfterSym(S0, S1, r.bits, r.Pos(), o.hist, counter, numExtra));
        SymbolExtends(S0, S1, r.bits, r.Pos(), o.hist, counter, numExtra);
      case DistSymbol =>
        IsDistSymbol();
        RestExtends(r.bits, final, AfterLen(S0, S1, r.bits, r.Pos(), o.hist, counter));
        LengthExtends(S0, S1, r.bits, r.Pos(), o.hist, counter);
      case DistanceExtra =>
        IsDistanceExtra();
        RestExtends(r.bits, final, AfterDist(S0, S1, r.bits, r.Pos(), o.hist, counter, dist, numExtra));
        DistanceExtends(S0, S1, r.bits, r.Pos(), o.hist, counter, dist, numExtra);
    }

    lemma CodesRestExtend(hist: seq<Byte>)
      requires r.numBits <= 8 * r.read && AtCodesLabel(hist) && target.Some?
      ensures hist <= target.value.out
    {
      hide InflateCodes, Rest, Trie, Fits;
      RestExtends(r.bits, final, InflateCodes(S0, S1, r.bits, r.Pos(), hist));
      CodesExtend(S0, S1, r.bits, r.Pos(), hist);
    }
  }

  lemma HaveCl(bits: seq<bool>, final: bool, nlit: nat, ndist: nat, cl: Option<seq<nat>>, p: nat, out: seq<Byte>)
    requires p <= |bits| && WithTables(bits, final, FromCl(bits, nlit, ndist, cl, p), out).Some?
    ensures cl.Some?
  {
    hide InflateCodes, InflateLens, SplitTables;
  }

  lemma ClAccepted(bits: seq<bool>, final: bool, nlit: nat, ndist: nat, cl: seq<nat>, p: nat, out: seq<Byte>)
    requires p <= |bits| && WithTables(bits, final, FromCl(bits, nlit, ndist, Some(cl), p), out).Some?
    ensures Accepted(cl) && FromCl(bits, nlit, ndist, Some(cl), p) == SplitTables(nlit, InflateLens(cl, bits, p, nlit + ndist, []))
  {
    hide InflateCodes, InflateLens, SplitTables;
  }

  lemma HaveLens(bits: seq<bool>, final: bool, nlit: nat, x: Option<(seq<nat>, nat)>, out: seq<Byte>)
    requires x.Some? ==> nlit <= |x.value.0| && x.value.1 <= |bits|
    requires WithTables(bits, final, SplitTables(nlit, x), out).Some?
    ensures x.Some?
  {
    hide InflateCodes, Accepted;
  }

  lemma LensBounded(cl: seq<nat>, bits: seq<bool>, pos: nat, total: nat, acc: seq<nat>, final: bool, nlit: nat, out: seq<Byte>)
    requires pos <= |bits| && nlit <= total && WithTables(bits, final, SplitTables(nlit, InflateLens(cl, bits, pos, total, acc)), out).Some?
    ensures |acc| <= total
  {
    hide WithTables, SplitTables, InflateLens;
    HaveLens(bits, final, nlit, InflateLens(cl, bits, pos, total, acc), out);
    AtLens(cl, bits, pos, total, acc);
  }

  lemma Splits(bits: seq<bool>, final: bool, nlit: nat, lens: seq<nat>, p: nat, out: seq<Byte>)
    requires nlit <= |lens| && p <= |bits| && WithTables(bits, final, SplitTables(nlit, Some((lens, p))), out).Some?
    ensures Accepted(lens[..nlit]) && Accepted(lens[nlit..])
    ensures WithTables(bits, final, SplitTables(nlit, Some((lens, p))), out) == Rest(bits, final, InflateCodes(lens[..nlit], lens[nlit..], bits, p, out))
  {
    hide InflateCodes, Accepted;
  }

  lemma Decoded(S: seq<nat>, bits: seq<bool>, pos: nat)
    requires DecodeSym(S, bits, pos).Some?
    ensures var s := DecodeSym(S, bits, pos).value; s < |S| && S[s] > 0 && At(bits, pos, Codeword(S, s))
  {
  }

  lemma HaveRest(bits: seq<bool>, final: bool, x: Option<Result>)
    requires Rest(bits, final, x).Some?
    ensures x.Some?
  {
    hide InflateFrom;
  }

  /** The output buffer is none of the decoder's arrays. */
  lemma BufApart(d: Inflator)
    requires d.Base()
    ensures d.o.buf as object !in {d.t0.codeSize as object, d.t0.lookUp as object, d.t0.tree as object, d.t1.codeSize as object, d.t1.lookUp as object, d.t1.tree as object}
    ensures d.o.buf as object !in {d.t2.codeSize as object, d.t2.lookUp as object, d.t2.tree as object, d.lenCodes as object}
  {
    hide BitReader.Valid, Output.Valid, Apart;
  }

  /** A distance within the output so far, and within the window, is within the buffer. */
  lemma Reach(o: Output, dist: nat)
    requires o.Valid() && 1 <= dist <= |o.hist| && dist <= WINDOW
    ensures InReach(o.buf.Length, o.hist, dist) && (o.flat ==> dist <= o.cur)
  {
    hide Latest;
    LatestBounds(o.buf[..], o.hist, o.turn);
  }

  lemma OneTurnMore(turns: nat, size: nat)
    ensures size + turns * size == 0 + (turns + 1) * size
  {
  }

  lemma OnlyArrays(d: Inflator)
    ensures d !in DecoderArrays(d.t0, d.t1, d.t2, d.lenCodes) && d.r !in DecoderArrays(d.t0, d.t1, d.t2, d.lenCodes) && d.o !in DecoderArrays(d.t0, d.t1, d.t2, d.lenCodes)
  {
  }

  lemma WholeByte(n: nat)
    requires n % 8 == 0 && n > 0
    ensures n >= 8 && (n - 8) % 8 == 0
  {
  }

  lemma ModEight(n: nat)
    ensures n % 8 <= n && (n - n % 8) % 8 == 0
  {
  }

  lemma NoRaw(bits: seq<bool>, p: nat, raw: seq<Byte>)
    ensures p % 8 == 0 && p <= |bits| ==> RawSoFar(bits, p, raw, 0)
  {
  }

  lemma LensExtend(bits: seq<bool>, final: bool, nlit: nat, x: Option<(seq<nat>, nat)>, out: seq<Byte>)
    requires (x.Some? ==> nlit <= |x.value.0| && x.value.1 <= |bits|) && WithTables(bits, final, SplitTables(nlit, x), out).Some?
    ensures out <= WithTables(bits, final, SplitTables(nlit, x), out).value.out
  {
    hide WithTables, Accepted;
    TablesExtend(bits, final, SplitTables(nlit, x), out);
  }

  lemma CopyGrows(buf: seq<Byte>, hist: seq<Byte>, turn: nat, dist: nat, left: nat, whole: seq<Byte>)
    requires Copying(buf, hist, turn, dist, left, whole)
    ensures hist <= whole && |whole| == |hist| + left
  {
    hide Latest;
  }

  lemma HaveTables(bits: seq<bool>, final: bool, pos: nat, out: seq<Byte>)
    requires pos <= |bits| && WithTables(bits, final, InflateTables(bits, pos), out).Some?
    ensures InflateTables(bits, pos).Some?
  {
    hide InflateTables, InflateCodes;
  }

  lemma RawAligned(bits: seq<bool>, p: nat, raw: seq<Byte>, n: nat)
    requires RawSoFar(bits, p, raw, n)
    ensures p % 8 == 0
  {
  }

  lemma OneMoreRaw(bits: seq<bool>, p: nat, raw: seq<Byte>, n: nat, c: nat)
    requires RawSoFar(bits, p, raw, n) && n < |raw| && p + 8 * n + 8 <= |bits| && c == FromBits(bits[p + 8 * n..p + 8 * n + 8])
    ensures c < 256 && RawSoFar(bits, p, raw[n := c], n + 1)
  {
    hide FromBits;
    assert Pow2(8) == 256 by { Pow2Values(); }
    var raw2, n2 := raw[n := c], n + 1;
    forall k | 0 <= k < n2 ensures RawByte(bits, p, raw2, k) {
      if k < n { assert RawByte(bits, p, raw, k); }
    }
  }

  /** The four bytes are the two lengths. */
  lemma RawLengths(bits: seq<bool>, p: nat, raw: seq<Byte>)
    requires RawSoFar(bits, p, raw, 4)
    ensures raw[0] as nat + 256 * raw[1] as nat == FromBits(bits[p..p + 16])
    ensures raw[2] as nat + 256 * raw[3] as nat == FromBits(bits[p + 16..p + 32])
  {
    hide FromBits;
    assert RawByte(bits, p, raw, 0) && RawByte(bits, p, raw, 1) && RawByte(bits, p, raw, 2) && RawByte(bits, p, raw, 3);
    LengthBytes(bits, p);
    LengthBytes(bits, p + 16);
  }

  lemma ApartArrays(d: Inflator)
    requires d.Shaped()
    ensures d.t0.Shaped() && d.t1.Shaped() && d.t2.Shaped() && d.lenCodes.Length == LEN_CODES
    ensures d.lenCodes as object !in {d.t0.codeSize as object, d.t1.codeSize as object, d.t2.codeSize as object, d.t2.lookUp as object, d.t2.tree as object}
    ensures d.t0.codeSize as object !in {d.t1.codeSize as object, d.t2.codeSize as object}
    ensures d.t1.lookUp as object !in {d.t0.codeSize as object, d.t0.lookUp as object, d.t0.tree as object, d.t2.lookUp as object, d.t2.tree as object, d.lenCodes as object}
    ensures d.t1.tree as object !in {d.t0.codeSize as object, d.t0.lookUp as object, d.t0.tree as object, d.t2.lookUp as object, d.t2.tree as object, d.lenCodes as object}
    ensures d.t0.lookUp as object !in {d.t1.codeSize as object, d.t1.lookUp as object, d.t1.tree as object, d.t2.lookUp as object, d.t2.tree as object, d.lenCodes as object}
    ensures d.t0.tree as object !in {d.t1.codeSize as object, d.t1.lookUp as object, d.t1.tree as object, d.t2.lookUp as object, d.t2.tree as object, d.lenCodes as object}
  {
  }

  /** A build that can not fail. */
  method BuildAccepted(t: Table, n: nat) returns (ok: bool, ghost paths: seq<seq<bool>>)
    requires t.Shaped() && n <= TinflTable.MAX_SYMBOLS && Accepted(t.codeSize[..n])
    modifies t.lookUp, t.tree
    ensures ok && t.codeSize[..n] == old(t.codeSize[..n]) && t.Holds(t.codeSize[..n], n, paths) && Fits(t.codeSize[..n], 15)
  {
    hide Accepted, Fits, Trie;
    ghost var S := t.codeSize[..n];
    LengthsBelow(S);
    assert forall i :: 0 <= i < n ==> S[i] == t.codeSize[i];
    ok, paths := Build(t, n);
    assert t.codeSize[..n] == S;
    AcceptedFits(S);
  }

  /** Dropping the bits short of a byte brings the reader to the next byte of the stream. */
  lemma Aligned(bits: seq<bool>, pos: nat, numBits: nat, read: nat, out: seq<Byte>)
    requires pos + numBits == 8 * read
    ensures pos + numBits % 8 == AlignUp(pos) && (pos + numBits % 8) % 8 == 0
    ensures InflateStored(bits, pos, out) == InflateStored(bits, AlignUp(pos), out)
  {
    hide FromBits, BytesAt;
  }

  lemma LengthsBelow(S: seq<nat>)
    requires Accepted(S)
    ensures forall i :: 0 <= i < |S| ==> S[i] <= 15
  {
  }

  lemma StaticAccepted()
    ensures Accepted(StaticLit()) && Accepted(StaticDist())
  {
    hide StaticLit, StaticDist;
    BlockFormat.StaticTables();
  }

  /** The arrays of the decoder are all different. */
  ghost predicate Apart(t0: Table, t1: Table, t2: Table, lenCodes: array<nat>)
  {
    && t0.Shaped() && t1.Shaped() && t2.Shaped() && lenCodes.Length == LEN_CODES
    && TableArrays(t0) !! TableArrays(t1) && TableArrays(t0) !! TableArrays(t2) && TableArrays(t1) !! TableArrays(t2)
    && lenCodes as object !in TableArrays(t0) + TableArrays(t1) + TableArrays(t2)
  }

  ghost function DecoderArrays(t0: Table, t1: Table, t2: Table, lenCodes: array<nat>): set<object>
  {
    TableArrays(t0) + TableArrays(t1) + TableArrays(t2) + {lenCodes as object}
  }

  /** tinfl_init: at the start of a stream that the reference decoder accepts. */
  method Init(buf: array<Byte>, flat: bool, ghost full: seq<Byte>) returns (d: Inflator)
    requires InflateFrom(BytesToBits(full), 0, []).Some? && (flat || buf.Length >= WINDOW)
    ensures d.Valid() && d.r.full == full && d.o.hist == [] && d.o.flat == flat && d.o.buf == buf && d.target == InflateFrom(BytesToBits(full), 0, [])
    ensures d.r.read == 0 && d.r.inPos == |d.r.inBuf| && d.o.cur == 0 && d.place == Head
    ensures fresh(d) && fresh(d.r) && fresh(d.o) && fresh(DecoderArrays(d.t0, d.t1, d.t2, d.lenCodes))
  {
    hide BytesToBits, InflateFrom, BitReader.Valid, Output.Valid, Inflator.Valid;
    var t0 := new Table();
    var t1 := new Table();
    var t2 := new Table();
    var lenCodes := new nat[LEN_CODES](i => 0);
    var r := new BitReader(full);
    var o := new Output(buf, flat);
    d := new Inflator(r, o, t0, t1, t2, lenCodes);
  }

  ghost function TableArrays(t: Table): set<object>
  {
    {t.codeSize as object, t.lookUp as object, t.tree as object}
  }

  /** The bytes of a stored block's header that have been read. */
  ghost predicate RawSoFar(bits: seq<bool>, p: nat, raw: seq<Byte>, n: nat)
  {
    p % 8 == 0 && n <= |raw| && p + 8 * n <= |bits| && forall k :: 0 <= k < n ==> RawByte(bits, p, raw, k)
  }

  predicate RawByte(bits: seq<bool>, p: nat, raw: seq<Byte>, k: nat)
  {
    k < |raw| && p + 8 * k + 8 <= |bits| && FromBits(bits[p + 8 * k..p + 8 * k + 8]) == raw[k]
  }

  /** Two decoders of the same stream, each with its own pieces of input, its own buffers and its own
      rooms: at any time what one of them has put out is the beginning of what the other has, and when
      both are done they have put out the same, which is what the stream stands for. */
  lemma SameOutput(d: Inflator, e: Inflator)
    requires d.Valid() && e.Valid() && d.target == e.target == InflateFrom(BytesToBits(d.r.full), 0, [])
    ensures d.o.hist <= e.o.hist || e.o.hist <= d.o.hist
    ensures d.place == Finished ==> InflateAll(d.r.full) == Some(d.o.hist)
    ensures d.place == Finished && e.place == Finished ==> d.o.hist == e.o.hist
  {
    hide Inflator.Valid, BytesToBits, InflateFrom;
    d.OutputIsPrefix();
    e.OutputIsPrefix();
    OneOfTwo(d.o.hist, e.o.hist, d.target.value.out);
    if d.place == Finished { d.IsFinished(); }
    if e.place == Finished { e.IsFinished(); }
  }

  lemma OneOfTwo(a: seq<Byte>, b: seq<Byte>, c: seq<Byte>)
    requires a <= c && b <= c
    ensures a <= b || b <= a
  {
    if |a| <= |b| { assert a == c[..|a|] == b[..|a|]; } else { assert b == c[..|b|] == a[..|b|]; }
  }
}
