/** The resumable decoder on zlib streams (TINFL_FLAG_PARSE_ZLIB_HEADER, src/http/miniz.c:1447-1455 and
    1671-1696): the two header bytes before, and the four checksum bytes after, what module Tinfl decodes. */
module TinflZlib {
  import opened Bits
  import opened CanonicalCode
  import opened Inflate
  import opened Blocks
  import opened Checksums
  import opened Zlib
  import opened TinflReader
  import opened TinflCopy
  import opened Tinfl
  import TinflHelpers

  // ---------- what a zlib stream is, part by part ----------

  function Body(stream: seq<Byte>): (bits: seq<bool>)
  {
    if |stream| < 2 then [] else BytesToBits(stream[2..])
  }

  /** A stream whose compressed part is valid, and whose checksum is there, right or wrong. */
  ghost predicate Wrapped(stream: seq<Byte>)
  {
    |stream| >= 2 && InflateFrom(Body(stream), 0, []).Some? && TrailerPos(stream) + 32 <= |Body(stream)|
  }

  ghost function Content(stream: seq<Byte>): seq<Byte>
    requires InflateFrom(Body(stream), 0, []).Some?
  {
    InflateFrom(Body(stream), 0, []).value.out
  }

  ghost function TrailerPos(stream: seq<Byte>): nat
    requires InflateFrom(Body(stream), 0, []).Some?
  {
    AlignUp(InflateFrom(Body(stream), 0, []).value.pos)
  }

  /** The checksum that the stream has at its end. */
  ghost function TrailerSum(stream: seq<Byte>): U32
    requires Wrapped(stream)
  {
    FromBigEndian(BytesAt(Body(stream), TrailerPos(stream), 4))
  }

  /** The test of the header bytes; a ring of `size` bytes has to hold the window that the first one asks for. */
  ghost predicate HeaderTaken(a: Byte, b: Byte, flat: bool, size: nat)
  {
    HeaderOk(a, b) && (flat || (Pow2(8 + a / 16) <= 32768 && Pow2(8 + a / 16) <= size))
  }

  lemma HeaderMeans(a: Byte, b: Byte)
    ensures HeaderOk(a, b) <==> !((a * 256 + b) % 31 != 0 || b / 32 % 2 == 1 || a % 16 != 8)
  {
  }

  /** For a stream with a sound header, the reference decoder takes it exactly if the checksum is right. */
  lemma TakenIff(stream: seq<Byte>)
    requires Wrapped(stream) && HeaderOk(stream[0], stream[1])
    ensures InflateZlib(stream) == if TrailerSum(stream) == Adler32(1, Content(stream)) then Some(Content(stream)) else None
  {
    hide InflateFrom, BytesToBits, BytesAt, Adler32, FromBigEndian, AlignUp, HeaderOk;
  }

  // ---------- the checksum, byte by byte ----------

  /** `m_z_adler32 = (m_z_adler32 << 8) | s` for each byte, from 1, in 32 bits. */
  function Shifting(s: seq<Byte>): (a: U32)
  {
    if s == [] then 1 else (Shifting(s[..|s| - 1]) * 256 + s[|s| - 1]) % 0x1_0000_0000
  }

  lemma FourShifted(s: seq<Byte>)
    requires |s| == 4
    ensures Shifting(s) == FromBigEndian(s)
  {
    var a: int, b: int, c: int, e: int := s[0], s[1], s[2], s[3];
    assert s[..1][..0] == [] && s[..2][..1] == s[..1] && s[..3][..2] == s[..2];
    assert Shifting(s[..1]) as int == 256 + a;
    assert Shifting(s[..2]) as int == 65536 + a * 256 + b;
    assert Shifting(s[..3]) as int == 16777216 + a * 65536 + b * 256 + c;
    Wraps(a * 16777216 + b * 65536 + c * 256 + e);
  }

  lemma Wraps(x: nat)
    requires x < 0x1_0000_0000
    ensures (0x1_0000_0000 + x) % 0x1_0000_0000 == x
  {
  }

  lemma ShiftingSnoc(s: seq<Byte>, v: nat)
    requires v < 256
    ensures Shifting(s + [v as Byte]) == (Shifting(s) * 256 + v) % 0x1_0000_0000
  {
    assert (s + [v as Byte])[..|s|] == s;
  }

  lemma BytesAtNext(bits: seq<bool>, pos: nat, n: nat)
    requires pos + 8 * (n + 1) <= |bits|
    ensures FromBits(bits[pos + 8 * n..pos + 8 * n + 8]) < 256
    ensures BytesAt(bits, pos, n + 1) == BytesAt(bits, pos, n) + [FromBits(bits[pos + 8 * n..pos + 8 * n + 8]) as Byte]
    decreases n
  {
    Pow2Values();
    if n > 0 {
      BytesAtNext(bits, pos + 8, n - 1);
    }
  }

  // ---------- the decoder ----------

  /** The header, the compressed data, the checksum; or the end, good or bad. */
  datatype Stage = Header0 | Header1 | Data | Trailer | Ended | Refused

  datatype ZlibStatus = Failed | AdlerMismatch | Done | NeedsMoreInput | HasMoreOutput

  class ZlibInflator {
    const d: Inflator
    var stage: Stage
    var zhdr0: Byte              // m_zhdr0
    var zAdler: U32              // m_z_adler32
    var checkAdler: U32          // m_check_adler32
    var counter: nat
    ghost const stream: seq<Byte>

    ghost predicate Taken()
    {
      |stream| >= 2 && HeaderOk(stream[0], stream[1])
    }

    ghost predicate Base()
      reads this, d.o
    {
      && Wrapped(stream) && d.r.full == stream[2..] && d.target == InflateFrom(Body(stream), 0, [])
      && checkAdler == Adler32(1, d.o.hist)
    }

    /** In the checksum: so many of its bytes are read. */
    ghost predicate AtTrailer()
      requires Wrapped(stream)
      reads this, d.r
    {
      && d.r.Valid() && d.r.numBits <= 8 * d.r.read && counter <= 4 && d.r.Pos() == TrailerPos(stream) + 8 * counter && d.r.numBits % 8 == 0
      && zAdler == Shifting(BytesAt(Body(stream), TrailerPos(stream), counter))
    }

    ghost predicate Valid()
      reads this, d, d.r, d.o, d.o.buf, d.t0.lookUp, d.t0.tree, d.t1.lookUp, d.t1.tree, d.t2.codeSize, d.t2.lookUp, d.t2.tree, d.lenCodes
    {
      && Base()
      && match stage
         case Header0 => d.Valid() && d.r.read == 0 && zAdler == 1
         case Header1 => d.Valid() && d.r.read == 0 && zAdler == 1 && zhdr0 == stream[0]
         case Data => d.Valid() && zAdler == 1 && Taken()
         case Trailer => Taken() && d.o.hist == Content(stream) && AtTrailer()
         case Ended => Taken() && d.o.hist == Content(stream) && AtTrailer() && counter == 4
         case Refused => d.r.read == 0 && !HeaderTaken(stream[0], stream[1], d.o.flat, d.o.buf.Length)
    }

    /** How much of the stream was given and used. */
    ghost function Given(): nat
      reads this, d.r
    {
      match stage
      case Header0 => 0
      case Header1 => 1
      case _ => 2 + d.r.read
    }

    constructor (d: Inflator, ghost stream: seq<Byte>)
      requires Wrapped(stream) && d.Valid() && d.r.full == stream[2..] && d.r.read == 0 && d.o.hist == [] && d.target == InflateFrom(Body(stream), 0, [])
      ensures Valid() && this.d == d && this.stream == stream && stage == Header0
    {
      hide Wrapped, Inflator.Valid, InflateFrom, BytesToBits;
      this.d, this.stream, stage, zhdr0, zAdler, checkAdler, counter := d, stream, Header0, 0, 1, 1, 0;
      new;
      NothingSummed();
    }

    /** The header bytes, straight from the input (src/http/miniz.c:1451-1454). */
    method ReadHeader(chunk: seq<Byte>) returns (pos: nat)
      requires Valid() && Given() + |chunk| <= |stream| && chunk == stream[Given()..Given() + |chunk|]
      modifies `stage, `zhdr0
      ensures Valid() && pos <= |chunk| && Given() == old(Given()) + pos
      ensures stage == Header0 || stage == Header1 ==> pos == |chunk| && Given() < |stream|
      ensures old(stage) != Header0 && old(stage) != Header1 ==> stage == old(stage) && pos == 0
      ensures old(stage) == Header0 || old(stage) == Header1 ==> stage != Trailer && stage != Ended
    {
      hide Inflator.Valid, Base, AtTrailer, HeaderOk, Pow2, Wrapped;
      pos := 0;
      BaseFacts();
      ghost var given := Given();
      if stage == Header0 {
        if |chunk| == 0 { return; }
        assert chunk[0] == stream[0];
        BeforeHeader();
        zhdr0, stage, pos := chunk[0], Header1, 1;
        SameBase();
      }
      if stage == Header1 {
        if pos == |chunk| { return; }
        assert chunk[pos] == stream[given + pos] == stream[1];
        var zhdr1 := chunk[pos];
        HeaderMeans(zhdr0, zhdr1);
        var unsound := (zhdr0 * 256 + zhdr1) % 31 != 0 || zhdr1 / 32 % 2 == 1 || zhdr0 % 16 != 8;
        if !d.o.flat {
          var window := Pow2(8 + zhdr0 / 16);
          unsound := unsound || window > 32768 || d.o.buf.Length < window;
        }
        stage := if unsound then Refused else Data;
        pos := pos + 1;
        SameBase();
      }
    }

    lemma BaseFacts()
      requires Base()
      ensures |stream| >= 2 && Wrapped(stream) && d.r.full == stream[2..] && |d.r.full| == |stream| - 2
    {
      hide InflateFrom;
    }

    lemma BeforeHeader()
      requires Valid() && stage == Header0
      ensures d.Valid() && d.r.read == 0
    {
    }

    twostate lemma SameBase()
      requires old(Base()) && d.o.hist == old(d.o.hist) && checkAdler == old(checkAdler)
      ensures Base()
    {
    }

    /** The compressed data, as far as it goes; the checksum of what comes out is kept
        (src/http/miniz.c:1681-1695). At the end, the bits short of a byte are dropped. */
    method RunData(chunk: seq<Byte>, buf2: array<Byte>, next: nat) returns (s: Status, used: nat)
      requires Valid() && stage == Data && Given() + |chunk| <= |stream| && chunk == stream[Given()..Given() + |chunk|] && d.Brings(buf2, next)
      modifies this, d, d.r, d.o, buf2, DecoderArrays(d.t0, d.t1, d.t2, d.lenCodes)
      ensures Valid() && Given() == old(Given()) + used && used <= |chunk| && old(d.o.hist) <= d.o.hist && d.o.buf == buf2
      ensures if s == Status.Done then stage == Trailer && used == d.r.inPos && d.r.inBuf == chunk else stage == Data
      ensures s == Status.NeedsMoreInput ==> used == |chunk| && Given() < |stream|
      ensures s == Status.HasMoreOutput ==> d.o.cur >= buf2.Length && d.Waiting()
      ensures d.o.Valid() && d.o.cur + d.o.turn == |d.o.hist|
    {
      hide Inflator.Valid, HeaderOk, InflateFrom, Adler32, BytesToBits, DecoderArrays, Inflator.Brings, Inflator.Waiting, BitReader.Valid, Wrapped, BytesAt, Shifting, AlignUp;
      BaseFacts();
      assert chunk == d.r.full[d.r.read..d.r.read + |chunk|];
      ghost var before, sum := d.o.hist, checkAdler;
      OnlyArrays(d);
      NoArray(this);
      s, used := d.Decompress(chunk, buf2, next);
      OutputOf(d);
      TinflHelpers.RingOutput(d, before, next);
      AdlerSplits(1, before, d.o.buf[next..d.o.cur]);
      checkAdler := ComputeAdler32(checkAdler, d.o.buf[next..d.o.cur]);
      if s == Status.Done {
        StartTrailer();
      }
    }

    /** Done with the data: everything is out, and the reader stands just after them. */
    lemma AtEnd()
      requires Base() && d.Valid() && d.place == Finished
      ensures d.r.Valid() && d.r.numBits <= 8 * d.r.read && d.o.hist == Content(stream) && d.r.Pos() + d.r.numBits % 8 == TrailerPos(stream)
      ensures d.r.bits == Body(stream) && d.r.numBits % 8 <= d.r.numBits && (d.r.numBits - d.r.numBits % 8) % 8 == 0
    {
      hide Inflator.AtLabel, InflateFrom, BytesToBits, Adler32, AlignUp, Register;
      d.IsFinished();
      d.r.Sound();
      Aligned(d.r.bits, d.r.Pos(), d.r.numBits, d.r.read, []);
      ModEight(d.r.numBits);
    }

    method StartTrailer()
      requires Base() && Taken() && zAdler == 1 && d.Valid() && d.place == Finished
      modifies `stage, `counter, d.r`bitBuf, d.r`numBits
      ensures Valid() && stage == Trailer
    {
      hide Inflator.Valid, BytesToBits, InflateFrom, Adler32, BytesAt, AlignUp, BitReader.Valid, HeaderOk, Shifting;
      AtEnd();
      NothingYet(Body(stream), TrailerPos(stream));
      counter := 0;
      var skipped := d.r.TakeBits(d.r.numBits % 8);
      d.r.Sound();
      stage := Trailer;
    }

    /** There is another byte of it, and what it makes of the sum. */
    lemma TrailerRoom()
      requires Valid() && stage == Trailer && counter < 4
      ensures d.r.Valid() && d.r.numBits <= 8 * d.r.read && d.r.bits == Body(stream) && d.r.Pos() + 8 <= |d.r.bits| && (d.r.numBits > 0 ==> d.r.numBits >= 8)
      ensures d.r.numBits == 0 ==> d.r.read < |d.r.full|
      ensures var v := FromBits(d.r.bits[d.r.Pos()..d.r.Pos() + 8]);
              Shifting(BytesAt(Body(stream), TrailerPos(stream), counter + 1)) == (zAdler * 256 + v) % 0x1_0000_0000
    {
      hide InflateFrom, BytesToBits, Adler32, BytesAt, FromBits, HeaderOk, AlignUp, Register;
      d.r.Sound();
      BytesAtNext(Body(stream), TrailerPos(stream), counter);
      ShiftingSnoc(BytesAt(Body(stream), TrailerPos(stream), counter), FromBits(d.r.bits[d.r.Pos()..d.r.Pos() + 8]));
    }

    /** One byte of the checksum (src/http/miniz.c:1673). */
    method TrailerByte() returns (ok: bool)
      requires Valid() && stage == Trailer && counter < 4
      modifies `zAdler, `counter, d.r`inPos, d.r`bitBuf, d.r`numBits, d.r`read
      ensures Valid() && counter == old(counter) + (if ok then 1 else 0)
      ensures Given() == old(Given()) + (d.r.inPos - old(d.r.inPos)) && old(d.r.inPos) <= d.r.inPos <= |d.r.inBuf|
      ensures !ok ==> d.r.inPos == |d.r.inBuf| && Given() < |stream|
    {
      hide InflateFrom, BytesToBits, Adler32, BitReader.Valid, BytesAt, FromBits, Wrapped, HeaderOk, AlignUp, Shifting;
      BaseFacts();
      d.r.Sound();
      TrailerRoom();
      var s;
      ok, s := NextByte(d.r);
      d.r.Sound();
      if ok {
        zAdler := (zAdler * 256 + s) % 0x1_0000_0000;
        counter := counter + 1;
      }
    }

    /** The checksum. */
    method ReadTrailer() returns (ok: bool)
      requires Valid() && stage == Trailer
      modifies `stage, `zAdler, `counter, d.r`inPos, d.r`bitBuf, d.r`numBits, d.r`read
      ensures Valid() && Given() == old(Given()) + (d.r.inPos - old(d.r.inPos)) && d.r.inPos <= |d.r.inBuf|
      ensures if ok then stage == Ended else stage == Trailer && d.r.inPos == |d.r.inBuf| && Given() < |stream|
    {
      hide Valid;
      CountIs();
      while counter < 4
        invariant Valid() && stage == Trailer && counter <= 4 && d.r.inPos <= |d.r.inBuf| && Given() == old(Given()) + (d.r.inPos - old(d.r.inPos))
        decreases 4 - counter
      {
        ok := TrailerByte();
        if !ok { return; }
      }
      EndIs();
      stage := Ended;
      EndIs();
      ok := true;
    }

    lemma CountIs()
      requires Valid() && stage == Trailer
      ensures counter <= 4 && d.r.inPos <= |d.r.inBuf|
    {
      hide InflateFrom, BytesToBits, Adler32, BytesAt, HeaderOk, AlignUp, Shifting, Register;
    }

    lemma EndIs()
      requires counter == 4 && (stage == Trailer || stage == Ended)
      ensures Valid() <==> Base() && Taken() && d.o.hist == Content(stream) && AtTrailer()
    {
      hide InflateFrom, BytesToBits, Adler32, BytesAt, HeaderOk, AlignUp, Shifting, BitReader.Valid;
    }

    /** A later call, with more of the checksum. */
    method TakeInput(chunk: seq<Byte>)
      requires Valid() && (stage == Trailer || stage == Ended) && Given() + |chunk| <= |stream| && chunk == stream[Given()..Given() + |chunk|]
      modifies d.r`inBuf, d.r`inPos, d.r`base
      ensures Valid() && d.r.inBuf == chunk && d.r.inPos == 0 && d.r.read == old(d.r.read)
    {
      hide Inflator.Valid, BitReader.Valid, InflateFrom, Adler32, BytesToBits, BytesAt, AlignUp, Shifting, HeaderOk;
      assert chunk == d.r.full[d.r.read..d.r.read + |chunk|];
      d.r.Feed(chunk);
      d.r.Sound();
    }

    lemma RefusedIs()
      requires Valid() && stage == Refused
      ensures !HeaderTaken(stream[0], stream[1], d.o.flat, d.o.buf.Length)
    {
      hide HeaderOk;
    }

    /** Both sums, at the end. */
    lemma SumIs()
      requires Valid() && stage == Ended
      ensures Wrapped(stream) && Taken() && d.o.hist == Content(stream) && zAdler == TrailerSum(stream) && checkAdler == Adler32(1, Content(stream))
      ensures InflateZlib(stream) == if zAdler == checkAdler then Some(d.o.hist) else None
    {
      hide BitReader.Valid, InflateFrom, Adler32, BytesToBits, BytesAt, AlignUp, Shifting, HeaderOk, FromBigEndian, InflateZlib;
      FourShifted(BytesAt(Body(stream), TrailerPos(stream), 4));
      TakenIff(stream);
    }

    /** tinfl_decompress with TINFL_FLAG_PARSE_ZLIB_HEADER: one call, on the next piece of the stream and a buffer
        with any amount of room. It fails exactly on a header that is not sound, or asks for more window than
        there is; and at the end it is done exactly when the checksum in the stream is that of all that
        was put out, which is what the reference decoder gives. */
    method Decompress(chunk: seq<Byte>, buf2: array<Byte>, next: nat) returns (status: ZlibStatus, consumed: nat)
      requires Valid() && Given() + |chunk| <= |stream| && chunk == stream[Given()..Given() + |chunk|]
      requires stage == Header0 || stage == Header1 || stage == Data ==> d.Brings(buf2, next)
      modifies this, d, d.r, d.o, buf2, DecoderArrays(d.t0, d.t1, d.t2, d.lenCodes)
      ensures Valid() && consumed <= |chunk| && Given() == old(Given()) + consumed && old(d.o.hist) <= d.o.hist
      ensures status == Failed ==> !HeaderTaken(stream[0], stream[1], d.o.flat, d.o.buf.Length)
      ensures status == ZlibStatus.NeedsMoreInput ==> consumed == |chunk| && Given() < |stream|
      ensures status == ZlibStatus.HasMoreOutput ==> stage == Data && d.o.buf == buf2 && d.o.cur >= buf2.Length && d.Waiting()
      ensures status == ZlibStatus.Done || status == AdlerMismatch ==> Taken() && d.o.hist == Content(stream)
      ensures status == ZlibStatus.Done || status == AdlerMismatch ==> (status == ZlibStatus.Done <==> TrailerSum(stream) == Adler32(1, Content(stream)))
      ensures status == ZlibStatus.Done ==> InflateZlib(stream) == Some(d.o.hist)
      ensures old(stage == Header0 || stage == Header1 || stage == Data) && (status == ZlibStatus.Done || status == ZlibStatus.AdlerMismatch || status == ZlibStatus.HasMoreOutput)
          ==> d.o.Valid() && d.o.buf == buf2
      ensures status == AdlerMismatch ==> InflateZlib(stream) == None
    {
      hide Valid, Inflator.Valid, Output.Valid, Inflator.Waiting, Inflator.Brings, DecoderArrays, InflateZlib, HeaderOk, Adler32, InflateFrom, TrailerSum;
      NoArray(this);
      consumed := ReadHeader(chunk);
      if stage == Refused {
        RefusedIs();
        return Failed, consumed;
      }
      if stage == Header0 || stage == Header1 { return ZlibStatus.NeedsMoreInput, consumed; }
      ghost var pos := consumed;
      if stage == Data {
        var s, used := RunData(chunk[consumed..], buf2, next);
        consumed := consumed + used;
        if s == Status.NeedsMoreInput { return ZlibStatus.NeedsMoreInput, consumed; }
        if s == Status.HasMoreOutput { return ZlibStatus.HasMoreOutput, consumed; }
      } else {
        TakeInput(chunk);
      }
      if stage == Trailer {
        var before := d.r.inPos;
        var ok := ReadTrailer();
        consumed := consumed + (d.r.inPos - before);
        if !ok { return ZlibStatus.NeedsMoreInput, consumed; }
      }
      SumIs();
      status := if zAdler == checkAdler then ZlibStatus.Done else AdlerMismatch;
    }
  }

  lemma OutputOf(d: Inflator)
    requires d.Valid()
    ensures d.o.Valid() && d.o.cur + d.o.turn == |d.o.hist|
  {
    hide Inflator.AtLabel, BitReader.Valid, Latest;
  }

  lemma NoArray(z: ZlibInflator)
    ensures z !in DecoderArrays(z.d.t0, z.d.t1, z.d.t2, z.d.lenCodes)
  {
  }

  /** A byte out of the register, or straight from the input. */
  method NextByte(r: BitReader) returns (ok: bool, s: nat)
    requires r.Valid() && r.numBits % 8 == 0 && r.numBits <= 8 * r.read
    modifies r`inPos, r`bitBuf, r`numBits, r`read
    ensures r.Valid() && r.numBits % 8 == 0 && r.numBits <= 8 * r.read && r.inPos >= old(r.inPos)
    ensures ok ==> r.Pos() == old(r.Pos()) + 8 <= |r.bits| && s == FromBits(r.bits[old(r.Pos())..old(r.Pos()) + 8]) && s < 256
    ensures !ok ==> r.numBits == 0 && r.Pos() == old(r.Pos()) && r.inPos == |r.inBuf| && r.read == old(r.read)
  {
    hide BitReader.Valid, FromBits;
    r.Sound();
    Pow2Values();
    if r.numBits > 0 {
      ok, s := r.GetBits(8);
      r.Sound();
    } else {
      if r.inPos >= |r.inBuf| { return false, 0; }
      var c := r.GetByte();
      r.Sound();
      ok, s := true, c;
    }
  }

  lemma NothingSummed()
    ensures Adler32(1, []) == 1
  {
  }

  lemma NothingYet(bits: seq<bool>, pos: nat)
    requires pos <= |bits|
    ensures BytesAt(bits, pos, 0) == [] && Shifting([]) == 1
  {
  }

  // ---------- a stream in memory ----------

  lemma OutputHeld(o: Output)
    requires o.Valid() && o.flat
    ensures o.cur == |o.hist| <= o.buf.Length && o.buf[..o.cur] == o.hist
  {
    hide Latest;
    TinflHelpers.FlatHolds(o.buf[..], o.hist);
    assert o.buf[..][..o.cur] == o.buf[..o.cur];
  }

  /** While data are read, the decoder inside is as it should be. */
  lemma InData(z: ZlibInflator)
    requires z.Valid() && z.stage == Data
    ensures z.d.Valid() && z.d.target == InflateFrom(Body(z.stream), 0, []) && Wrapped(z.stream)
  {
    hide InflateFrom, Inflator.Valid, HeaderOk;
  }

  /** tinfl_decompress_mem_to_mem with TINFL_FLAG_PARSE_ZLIB_HEADER (src/http/miniz.c:1729-1734): it succeeds exactly if
      the header is sound, there is room enough, and the checksum is right. */
  method DecompressZlibMemToMem(out: array<Byte>, src: seq<Byte>) returns (ok: bool, len: nat)
    requires Wrapped(src)
    modifies out
    ensures ok <==> HeaderOk(src[0], src[1]) && |Content(src)| <= out.Length && TrailerSum(src) == Adler32(1, Content(src))
    ensures ok ==> len <= out.Length && out[..len] == Content(src) && InflateZlib(src) == Some(Content(src))
  {
    hide InflateFrom, BytesToBits, InflateZlib, HeaderOk, Adler32, TrailerSum, Inflator.Valid, Inflator.Waiting, Inflator.Brings, DecoderArrays, ZlibInflator.Valid, Output.Valid;
    var d := Init(out, true, src[2..]);
    TinflHelpers.StartsEmpty(d);
    var z := new ZlibInflator(d, src);
    NoArray(z);
    var status, consumed := z.Decompress(src, out, 0);
    if status == ZlibStatus.HasMoreOutput {
      InData(z);
      z.d.OutputIsPrefix();
    }
    if status != ZlibStatus.Failed && status != ZlibStatus.NeedsMoreInput { OutputHeld(d.o); }
    ok, len := status == ZlibStatus.Done, d.o.cur;
  }
}
