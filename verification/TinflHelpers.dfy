/** The three ways to decompress a block that is in memory as a whole: to memory, to a growing heap
    block, and through a 32 KiB ring to a callback (src/http/miniz.c:1701-1766). */
module TinflHelpers {
  import opened Bits
  import opened CanonicalCode
  import opened Inflate
  import opened TinflCopy
  import opened Tinfl

  /** The bytes that the stream stands for. */
  function Meaning(src: seq<Byte>): seq<Byte>
    requires InflateAll(src).Some?
  {
    InflateAll(src).value
  }

  lemma MeaningIs(src: seq<Byte>)
    requires InflateAll(src).Some?
    ensures InflateFrom(BytesToBits(src), 0, []).Some? && InflateFrom(BytesToBits(src), 0, []).value.out == Meaning(src)
  {
    hide InflateFrom, BytesToBits;
  }

  /** A flat buffer holds all that was put out, from its start. */
  lemma FlatHolds(buf: seq<Byte>, hist: seq<Byte>)
    requires Latest(buf, hist, 0)
    ensures |hist| <= |buf| && buf[..|hist|] == hist
  {
    forall k | 0 <= k < |hist| ensures buf[k] == hist[k] {
      assert HeldAt(buf, hist, 0, k);
    }
  }

  /** As does any buffer that starts with it. */
  lemma FlatHeld(buf: seq<Byte>, hist: seq<Byte>)
    requires |hist| <= |buf| && buf[..|hist|] == hist
    ensures Latest(buf, hist, 0)
  {
    forall k | 0 <= k < |buf| ensures HeldAt(buf, hist, 0, k) {
      if k < |hist| { assert buf[..|hist|][k] == hist[k]; }
    }
  }

  lemma FlatOutput(d: Inflator)
    requires d.Valid() && d.o.flat
    ensures d.o.cur == |d.o.hist| <= d.o.buf.Length && d.o.buf[..d.o.cur] == d.o.hist && Latest(d.o.buf[..], d.o.hist, 0) && d.o.turn == 0
  {
    hide Inflator.AtLabel, Latest;
    FlatHolds(d.o.buf[..], d.o.hist);
  }

  /** tinfl_decompress_mem_to_mem: it succeeds exactly if there is room enough. */
  method DecompressMemToMem(out: array<Byte>, src: seq<Byte>) returns (ok: bool, len: nat)
    requires InflateAll(src).Some?
    modifies out
    ensures ok <==> |Meaning(src)| <= out.Length
    ensures ok ==> len <= out.Length && out[..len] == Meaning(src)
  {
    hide InflateFrom, BytesToBits, InflateAll, Meaning, Inflator.Valid, Latest, Inflator.Waiting;
    MeaningIs(src);
    var d := Init(out, true, src);
    StartsEmpty(d);
    assert src == d.r.full[d.r.read..d.r.read + |src|];
    var status, consumed := d.Decompress(src, out, 0);
    d.OutputIsPrefix();
    FlatOutput(d);
    ok, len := status == Done, d.o.cur;
  }

  /** A buffer brings nothing at the start. */
  lemma StartsEmpty(d: Inflator)
    requires d.Valid() && d.place == Head && d.o.hist == [] && d.o.cur == 0
    ensures d.Brings(d.o.buf, 0)
  {
    hide Inflator.AtLabel, Latest;
  }

  datatype Outcome = Success | NoMemory | Refused

  /** tinfl_decompress_mem_to_heap: the buffer is doubled as often as needed. Only memory can run out. */
  method DecompressMemToHeap(src: seq<Byte>) returns (outcome: Outcome, buf: array<Byte>, len: nat, ghost denied: bool)
    requires InflateAll(src).Some?
    ensures outcome == Success || (outcome == NoMemory && denied)
    ensures outcome == Success ==> len <= buf.Length && buf[..len] == Meaning(src)
  {
    hide InflateFrom, BytesToBits, InflateAll, Meaning, Inflator.Valid, Latest, Inflator.Waiting, DecoderArrays, Inflator.Brings;
    MeaningIs(src);
    buf, len := new Byte[0], 0;
    var d := Init(buf, true, src);
    StartsEmpty(d);
    var ofs: nat := 0;
    while true
      invariant d.Valid() && d.o.flat && d.o.cur == len && d.r.full == src && d.r.read == ofs <= |src| && d.Brings(buf, len)
      invariant d.target.Some? && d.target.value.out == Meaning(src)
      invariant fresh(d) && fresh(d.r) && fresh(d.o) && fresh(buf) && fresh(DecoderArrays(d.t0, d.t1, d.t2, d.lenCodes))
      invariant buf.Length <= 2 * |Meaning(src)| + 128
      decreases 2 * |Meaning(src)| + 128 - buf.Length
    {
      assert src[ofs..] == d.r.full[d.r.read..d.r.read + |src[ofs..]|];
      var status, consumed := d.Decompress(src[ofs..], buf, len);
      d.OutputIsPrefix();
      FlatOutput(d);
      ofs, len := ofs + consumed, d.o.cur;
      if status == NeedsMoreInput {
        assert false;
      }
      if status == Done { return Success, buf, len, false; }
      var granted: bool := *;
      if !granted { return NoMemory, buf, 0, !granted; }
      buf := Enlarge(buf, d);
      FlatBrings(d, buf);
    }
  }

  /** MZ_REALLOC to twice the size, or to 128 bytes. */
  method Enlarge(buf: array<Byte>, ghost d: Inflator) returns (bigger: array<Byte>)
    ensures bigger as object !in DecoderArrays(d.t0, d.t1, d.t2, d.lenCodes)
    ensures fresh(bigger) && bigger.Length == (if buf.Length * 2 < 128 then 128 else buf.Length * 2) && bigger[..buf.Length] == buf[..]
  {
    bigger := new Byte[if buf.Length * 2 < 128 then 128 else buf.Length * 2](i => 0);
    forall i | 0 <= i < buf.Length { bigger[i] := buf[i]; }
  }

  lemma FlatBrings(d: Inflator, buf: array<Byte>)
    requires d.Valid() && d.o.flat && d.o.cur <= buf.Length && buf[..d.o.cur] == d.o.hist && d.o.cur == |d.o.hist| && d.o.turn == 0
    requires buf as object !in DecoderArrays(d.t0, d.t1, d.t2, d.lenCodes)
    ensures d.Brings(buf, d.o.cur)
  {
    hide Inflator.AtLabel, Latest, DecoderArrays;
    FlatHeld(buf[..], d.o.hist);
  }

  // ---------- through a ring ----------

  /** The bytes of the ring between two places of one turn are the output of that time. */
  lemma RingPiece(buf: seq<Byte>, hist: seq<Byte>, turn: nat, from: nat)
    requires Latest(buf, hist, turn) && turn + from <= |hist|
    ensures |hist| - turn <= |buf| && buf[from..|hist| - turn] == hist[turn + from..]
  {
    var a, b := buf[from..|hist| - turn], hist[turn + from..];
    forall k | 0 <= k < |a| ensures a[k] == b[k] {
      assert HeldAt(buf, hist, turn, from + k);
    }
  }

  /** tinfl_decompress_mem_to_callback: 32 KiB at a time go to the callback, which may refuse. What it is
      given makes up the whole output. */
  method DecompressMemToCallback(src: seq<Byte>) returns (outcome: Outcome, delivered: seq<Byte>, ghost refused: bool)
    requires InflateAll(src).Some?
    ensures outcome == Success || (outcome == Refused && refused)
    ensures outcome == Success ==> delivered == Meaning(src)
    ensures delivered <= Meaning(src)
  {
    hide InflateFrom, BytesToBits, InflateAll, Meaning, Inflator.Valid, Latest, Inflator.Waiting, DecoderArrays, Inflator.Brings;
    MeaningIs(src);
    var ring := new Byte[WINDOW](i => 0);
    var d := Init(ring, false, src);
    StartsEmpty(d);
    var ofs: nat, dictOfs: nat := 0, 0;
    delivered := [];
    while true
      invariant d.Valid() && !d.o.flat && d.o.buf == ring && ring.Length == WINDOW && dictOfs < WINDOW && d.r.full == src && d.r.read == ofs <= |src| && d.Brings(ring, dictOfs)
      invariant d.target.Some? && d.target.value.out == Meaning(src) && delivered == d.o.hist <= Meaning(src)
      invariant fresh(d) && fresh(d.r) && fresh(d.o) && fresh(ring) && fresh(DecoderArrays(d.t0, d.t1, d.t2, d.lenCodes))
      decreases |Meaning(src)| - |delivered|
    {
      ghost var before := d.o.hist;
      assert src[ofs..] == d.r.full[d.r.read..d.r.read + |src[ofs..]|];
      var status, consumed := d.Decompress(src[ofs..], ring, dictOfs);
      d.OutputIsPrefix();
      RingOutput(d, before, dictOfs);
      ofs := ofs + consumed;
      var piece := ring[dictOfs..d.o.cur];
      if |piece| > 0 {
        var accepted: bool := *;
        if !accepted { return Refused, delivered, !accepted; }
      }
      delivered := delivered + piece;
      if status != HasMoreOutput {
        if status == NeedsMoreInput {
          assert false;
        }
        return Success, delivered, false;
      }
      dictOfs := (dictOfs + |piece|) % WINDOW;
      RingTurns(d);
    }
  }

  /** The buffer between the two places is the new part of the output. */
  lemma RingOutput(d: Inflator, before: seq<Byte>, from: nat)
    requires d.Valid() && before <= d.o.hist && |before| == d.o.turn + from
    ensures from <= d.o.cur <= d.o.buf.Length && d.o.hist == before + d.o.buf[from..d.o.cur]
  {
    hide Inflator.AtLabel, Latest;
    RingPiece(d.o.buf[..], d.o.hist, d.o.turn, from);
    assert d.o.buf[..][from..d.o.cur] == d.o.buf[from..d.o.cur];
    assert d.o.hist == before + d.o.hist[|before|..];
  }

  lemma RingTurns(d: Inflator)
    requires d.Valid() && !d.o.flat && d.o.cur == d.o.buf.Length
    ensures d.Brings(d.o.buf, 0)
  {
    hide Inflator.AtLabel, Latest;
    NextTurn(d.o.buf[..], d.o.hist, d.o.turn);
  }
}
