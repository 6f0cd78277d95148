/** Copying a match in the output buffer of the decoder: the byte loop on a flat or ring buffer, and
    the forms that move eight or three bytes at a time (src/http/miniz.c:1614-1667). */
module TinflCopy {
  import opened Bits
  import opened Inflate

  // ---------- the buffer and the output so far ----------

  /** The buffer holds the latest bytes of everything put out. Output byte k is at k - turn, or, if it
      is from the turn before, at k - turn + size. A flat buffer stays in its first turn. */
  ghost predicate Latest(buf: seq<Byte>, hist: seq<Byte>, turn: nat)
  {
    && turn <= |hist| <= turn + |buf|
    && (forall k :: 0 <= k < |buf| ==> HeldAt(buf, hist, turn, k))
  }

  /** What is at index k of the buffer. */
  predicate HeldAt(buf: seq<Byte>, hist: seq<Byte>, turn: nat, k: nat)
    requires k < |buf|
  {
    if turn + k < |hist| then buf[k] == hist[turn + k]
    else if turn + k >= |buf| && turn + k - |buf| < |hist| then buf[k] == hist[turn + k - |buf|]
    else true
  }

  /** Where the byte `dist` back from position cur is: `(cur - dist) & mask`. */
  function Source(size: nat, cur: nat, dist: nat): (src: nat)
    requires cur <= size && 1 <= dist <= size
    ensures src <= size
  {
    if dist <= cur then cur - dist else cur - dist + size
  }

  /** A match can be copied: it reaches no further back than the output, nor than the buffer. */
  predicate InReach(size: nat, hist: seq<Byte>, dist: nat)
  {
    1 <= dist <= |hist| && dist <= size
  }

  lemma SourceByte(buf: seq<Byte>, hist: seq<Byte>, turn: nat, dist: nat)
    requires Latest(buf, hist, turn) && InReach(|buf|, hist, dist)
    requires |hist| - turn < |buf|
    ensures var src := Source(|buf|, |hist| - turn, dist); src < |buf| && buf[src] == hist[|hist| - dist]
  {
    var src := Source(|buf|, |hist| - turn, dist);
    assert HeldAt(buf, hist, turn, src);
  }

  /** One byte more at the current position. */
  lemma PutKeeps(buf: seq<Byte>, hist: seq<Byte>, turn: nat, b: Byte)
    requires Latest(buf, hist, turn) && |hist| - turn < |buf|
    ensures Latest(buf[|hist| - turn := b], hist + [b], turn)
  {
    var buf2, hist2 := buf[|hist| - turn := b], hist + [b];
    forall k | 0 <= k < |buf2| ensures HeldAt(buf2, hist2, turn, k) {
      assert HeldAt(buf, hist, turn, k);
    }
  }

  /** A ring that is full starts its next turn. */
  lemma NextTurn(buf: seq<Byte>, hist: seq<Byte>, turn: nat)
    requires Latest(buf, hist, turn) && |hist| == turn + |buf|
    ensures Latest(buf, hist, turn + |buf|)
  {
    var next := turn + |buf|;
    forall k | 0 <= k < |buf| ensures HeldAt(buf, hist, next, k) {
      assert HeldAt(buf, hist, turn, k);
    }
  }

  /** The mask of the program takes the place modulo the size of the ring. */
  lemma MaskIsSource(size: nat, from: nat, turns: nat, cur: nat, dist: nat)
    requires cur < size && 1 <= dist <= size && from == cur + turns * size
    ensures (from - dist) % size == Source(size, cur, dist) < size
  {
    var q := if dist <= cur then turns as int else turns - 1;
    Multiple(turns, size);
    ModOf(from - dist, size, q, Source(size, cur, dist));
  }

  lemma Multiple(q: int, p: nat)
    ensures (q - 1) * p == q * p - p
  {
  }

  lemma ModOf(v: int, p: nat, q: int, r: nat)
    requires p > 0 && r < p && v == q * p + r
    ensures v % p == r
  {
    var m := v / p;
    QuotientOf(v, p);
    if m > q { Larger(m, q, p); } else if m < q { Larger(q, m, p); }
  }

  lemma QuotientOf(v: int, p: nat)
    requires p > 0
    ensures v == v / p * p + v % p
  {
  }

  lemma Larger(a: int, b: int, p: nat)
    requires a > b
    ensures a * p >= b * p + p
  {
    var d: nat := a - b - 1;
    assert a * p == b * p + p + d * p;
  }

  // ---------- one byte after another ----------

  /** State of a copy under way: `left` more bytes make the whole match. */
  ghost predicate Copying(buf: seq<Byte>, hist: seq<Byte>, turn: nat, dist: nat, left: nat, whole: seq<Byte>)
  {
    Latest(buf, hist, turn) && InReach(|buf|, hist, dist) && CopyMatch(hist, dist, left) == whole
  }

  lemma CopyOne(buf: seq<Byte>, hist: seq<Byte>, turn: nat, dist: nat, left: nat, whole: seq<Byte>)
    requires Copying(buf, hist, turn, dist, left, whole) && left > 0 && |hist| - turn < |buf|
    ensures var cur := |hist| - turn;
            var src := Source(|buf|, cur, dist);
            src < |buf| && Copying(buf[cur := buf[src]], hist + [hist[|hist| - dist]], turn, dist, left - 1, whole)
            && buf[src] == hist[|hist| - dist]
  {
    hide Latest;
    LatestBounds(buf, hist, turn);
    SourceByte(buf, hist, turn, dist);
    PutKeeps(buf, hist, turn, hist[|hist| - dist]);
  }

  lemma LatestBounds(buf: seq<Byte>, hist: seq<Byte>, turn: nat)
    requires Latest(buf, hist, turn)
    ensures turn <= |hist| <= turn + |buf|
  {
  }

  lemma CopyingBounds(buf: seq<Byte>, hist: seq<Byte>, turn: nat, dist: nat, left: nat, whole: seq<Byte>)
    requires Copying(buf, hist, turn, dist, left, whole)
    ensures turn <= |hist| <= turn + |buf| && 1 <= dist <= |buf| && dist <= |hist|
    ensures left == 0 ==> hist == whole
  {
  }

  /** One assignment of a copy: the byte at q goes to p, the current position. */
  method Move(out: array<Byte>, p: nat, q: nat, ghost hist0: seq<Byte>, ghost turn: nat, ghost dist: nat, ghost left: nat, ghost whole: seq<Byte>)
    returns (ghost hist: seq<Byte>)
    requires Copying(out[..], hist0, turn, dist, left, whole) && left > 0 && p == |hist0| - turn < out.Length
    requires dist <= out.Length && q == Source(out.Length, p, dist)
    modifies out
    ensures Copying(out[..], hist, turn, dist, left - 1, whole) && |hist| == |hist0| + 1 && hist[..|hist0|] == hist0
    ensures forall k :: 0 <= k < out.Length && k != p ==> out[k] == old(out[k])
    ensures q < out.Length && out[p] == old(out[q])
  {
    hide Copying;
    CopyingBounds(out[..], hist0, turn, dist, left, whole);
    CopyOne(out[..], hist0, turn, dist, left, whole);
    ghost var buf := out[..];
    hist := hist0 + [hist0[|hist0| - dist]];
    out[p] := out[q];
    assert out[..] == buf[p := buf[q]];
  }

  // ---------- the three loops ----------

  /** The byte loop (src/http/miniz.c:1624-1628), as far as there is room. It can be taken up again, with
      the state it saved, after the caller has made room. */
  method CopyBytes(out: array<Byte>, cur0: nat, counter0: nat, from0: nat, dist: nat, ghost hist0: seq<Byte>, ghost turn: nat, ghost turns: nat, ghost whole: seq<Byte>)
    returns (cur: nat, counter: nat, from: nat, ghost hist: seq<Byte>)
    requires Copying(out[..], hist0, turn, dist, counter0, whole) && cur0 == |hist0| - turn && from0 == cur0 + turns * out.Length && out.Length > 0
    modifies out
    ensures Copying(out[..], hist, turn, dist, counter, whole) && cur == |hist| - turn && from == cur + turns * out.Length
    ensures counter == 0 || cur == out.Length
    ensures |hist0| <= |hist| && hist[..|hist0|] == hist0
  {
    hide Copying;
    cur, counter, from, hist := cur0, counter0, from0, hist0;
    CopyingBounds(out[..], hist, turn, dist, counter, whole);
    while counter > 0
      invariant Copying(out[..], hist, turn, dist, counter, whole) && cur == |hist| - turn && from == cur + turns * out.Length
      invariant |hist0| <= |hist| && hist[..|hist0|] == hist0
    {
      CopyingBounds(out[..], hist, turn, dist, counter, whole);
      if cur >= out.Length { return; }
      MaskIsSource(out.Length, from, turns, cur, dist);
      hist := Move(out, cur, (from - dist) % out.Length, hist, turn, dist, counter, whole);
      cur, counter, from := cur + 1, counter - 1, from + 1;
    }
  }

  /** Four bytes at once: a 32-bit load and a 32-bit store. */
  method MoveFour(out: array<Byte>, p: nat, q: nat, ghost hist0: seq<Byte>, ghost turn: nat, ghost dist: nat, ghost left: nat, ghost whole: seq<Byte>)
    returns (ghost hist: seq<Byte>)
    requires Copying(out[..], hist0, turn, dist, left, whole) && left >= 4 && p == |hist0| - turn
    requires dist <= out.Length && q == Source(out.Length, p, dist) && p + 4 <= out.Length && q + 4 <= out.Length
    requires q + 4 <= p || q >= p
    modifies out
    ensures Copying(out[..], hist, turn, dist, left - 4, whole) && |hist| == |hist0| + 4
  {
    hide Copying;
    var a, b, c, d := out[q], out[q + 1], out[q + 2], out[q + 3];
    ghost var old0 := out[..];
    hist := FourMoves(out[..], p, q, hist0, turn, dist, left, whole);
    out[p], out[p + 1], out[p + 2], out[p + 3] := a, b, c, d;
    assert out[..] == old0[p := a][p + 1 := b][p + 2 := c][p + 3 := d];
  }

  /** Loading all four bytes first makes no difference, as none of them is overwritten in between. */
  lemma FourMoves(buf: seq<Byte>, p: nat, q: nat, hist0: seq<Byte>, turn: nat, dist: nat, left: nat, whole: seq<Byte>) returns (hist: seq<Byte>)
    requires Copying(buf, hist0, turn, dist, left, whole) && left >= 4 && p == |hist0| - turn
    requires dist <= |buf| && q == Source(|buf|, p, dist) && p + 4 <= |buf| && q + 4 <= |buf|
    requires q + 4 <= p || q >= p
    ensures |hist| == |hist0| + 4
    ensures Copying(buf[p := buf[q]][p + 1 := buf[q + 1]][p + 2 := buf[q + 2]][p + 3 := buf[q + 3]], hist, turn, dist, left - 4, whole)
  {
    hide Copying;
    var b1 := buf[p := buf[q]];
    var h1 := OneMove(buf, p, q, hist0, turn, dist, left, whole);
    var b2 := b1[p + 1 := buf[q + 1]];
    var h2 := OneMove(b1, p + 1, q + 1, h1, turn, dist, left - 1, whole);
    var b3 := b2[p + 2 := buf[q + 2]];
    var h3 := OneMove(b2, p + 2, q + 2, h2, turn, dist, left - 2, whole);
    hist := OneMove(b3, p + 3, q + 3, h3, turn, dist, left - 3, whole);
  }

  lemma OneMove(buf: seq<Byte>, p: nat, q: nat, hist0: seq<Byte>, turn: nat, dist: nat, left: nat, whole: seq<Byte>) returns (hist: seq<Byte>)
    requires Copying(buf, hist0, turn, dist, left, whole) && left > 0 && p == |hist0| - turn < |buf|
    requires dist <= |buf| && q == Source(|buf|, p, dist) < |buf|
    ensures |hist| == |hist0| + 1 && Copying(buf[p := buf[q]], hist, turn, dist, left - 1, whole)
    ensures p + 1 < |buf| && q + 1 < |buf| ==> q + 1 == Source(|buf|, p + 1, dist)
  {
    hide Copying;
    CopyingBounds(buf, hist0, turn, dist, left, whole);
    CopyOne(buf, hist0, turn, dist, left, whole);
    hist := hist0 + [hist0[|hist0| - dist]];
  }

  /** Where the next bytes are copied from and to. */
  ghost predicate Pointers(size: nat, p: nat, q: nat, hist: seq<Byte>, turn: nat, dist: nat, left: nat)
  {
    p + turn == |hist| && 1 <= dist <= size && p + left <= size && q + left <= size && (left > 0 ==> q == Source(size, p, dist))
  }

  /** Eight bytes at a time, for a match no longer than its distance (src/http/miniz.c:1632-1642). */
  method CopyEights(out: array<Byte>, p0: nat, q0: nat, counter: nat, ghost hist0: seq<Byte>, ghost turn: nat, dist: nat, ghost whole: seq<Byte>)
    returns (p: nat, q: nat, ghost hist: seq<Byte>)
    requires Copying(out[..], hist0, turn, dist, counter, whole) && Pointers(out.Length, p0, q0, hist0, turn, dist, counter)
    requires 9 <= counter <= dist
    modifies out
    ensures Copying(out[..], hist, turn, dist, counter % 8, whole) && Pointers(out.Length, p, q, hist, turn, dist, counter % 8)
  {
    hide Copying;
    p, q, hist := p0, q0, hist0;
    var end := q0 + counter / 8 * 8;
    ghost var left := counter;
    while true
      invariant left % 8 == counter % 8 && left >= 8 && q + left == q0 + counter && q < end
      invariant Copying(out[..], hist, turn, dist, left, whole) && Pointers(out.Length, p, q, hist, turn, dist, left) && left <= dist
      decreases left
    {
      CopyingBounds(out[..], hist, turn, dist, left, whole);
      hist := MoveFour(out, p, q, hist, turn, dist, left, whole);
      CopyingBounds(out[..], hist, turn, dist, left - 4, whole);
      hist := MoveFour(out, p + 4, q + 4, hist, turn, dist, left - 4, whole);
      p, q, left := p + 8, q + 8, left - 8;
      if q >= end { break; }
    }
  }

  /** Three bytes at a time, and then the one or two that are left (src/http/miniz.c:1654-1667). */
  method CopyThrees(out: array<Byte>, p0: nat, q0: nat, counter0: nat, ghost hist0: seq<Byte>, ghost turn: nat, dist: nat, ghost whole: seq<Byte>)
    returns (p: nat, ghost hist: seq<Byte>)
    requires Copying(out[..], hist0, turn, dist, counter0, whole) && Pointers(out.Length, p0, q0, hist0, turn, dist, counter0)
    requires counter0 >= 3
    modifies out
    ensures Copying(out[..], hist, turn, dist, 0, whole) && p + turn == |hist| && p == p0 + counter0
  {
    hide Copying;
    var q, counter := q0, counter0;
    p, hist := p0, hist0;
    while true
      invariant counter >= 3 && p + counter == p0 + counter0
      invariant Copying(out[..], hist, turn, dist, counter, whole) && Pointers(out.Length, p, q, hist, turn, dist, counter)
      decreases counter
    {
      hist := Move(out, p, q, hist, turn, dist, counter, whole);
      hist := Move(out, p + 1, q + 1, hist, turn, dist, counter - 1, whole);
      hist := Move(out, p + 2, q + 2, hist, turn, dist, counter - 2, whole);
      p, q, counter := p + 3, q + 3, counter - 3;
      if counter <= 2 { break; }
    }
    p, hist := CopyRest(out, p, q, counter, hist, turn, dist, whole);
  }

  /** The last one or two bytes. */
  method CopyRest(out: array<Byte>, p0: nat, q: nat, counter: nat, ghost hist0: seq<Byte>, ghost turn: nat, dist: nat, ghost whole: seq<Byte>)
    returns (p: nat, ghost hist: seq<Byte>)
    requires Copying(out[..], hist0, turn, dist, counter, whole) && Pointers(out.Length, p0, q, hist0, turn, dist, counter) && counter <= 2
    modifies out
    ensures Copying(out[..], hist, turn, dist, 0, whole) && p + turn == |hist| && p == p0 + counter
  {
    hide Copying;
    p, hist := p0, hist0;
    if counter > 0 {
      hist := Move(out, p, q, hist, turn, dist, counter, whole);
      if counter > 1 {
        hist := Move(out, p + 1, q + 1, hist, turn, dist, counter - 1, whole);
      }
      p := p + counter;
    }
  }

  /** The whole choice (src/http/miniz.c:1614-1667): every path leaves the bytes that the definition,
      one byte at a time, gives; the slow path may stop when the buffer is full, with the rest to do. */
  method CopyAny(out: array<Byte>, cur0: nat, counter0: nat, from0: nat, dist: nat, ghost hist0: seq<Byte>, ghost turn: nat, ghost turns: nat)
    returns (cur: nat, counter: nat, from: nat, ghost hist: seq<Byte>)
    requires Latest(out[..], hist0, turn) && InReach(out.Length, hist0, dist) && counter0 >= 3
    requires cur0 == |hist0| - turn && from0 == cur0 + turns * out.Length
    modifies out
    ensures Copying(out[..], hist, turn, dist, counter, CopyMatch(hist0, dist, counter0)) && cur == |hist| - turn
    ensures counter > 0 ==> cur == out.Length && from == cur + turns * out.Length
    ensures hist0 <= hist
    ensures counter == 0 ==> hist == CopyMatch(hist0, dist, counter0) && Latest(out[..], hist, turn)
  {
    hide Latest;
    ghost var whole := CopyMatch(hist0, dist, counter0);
    cur, counter, from, hist := cur0, counter0, from0, hist0;
    CopyingBounds(out[..], hist, turn, dist, counter, whole);
    var src := (from0 - dist) % out.Length;
    if cur0 < out.Length { MaskIsSource(out.Length, from0, turns, cur0, dist); }
    if (if cur0 >= src then cur0 else src) + counter0 > out.Length {
      cur, counter, from, hist := CopyBytes(out, cur0, counter0, from0, dist, hist0, turn, turns, whole);
    } else {
      var p, q := cur0, src;
      if 9 <= counter <= dist {
        p, q, hist := CopyEights(out, p, q, counter, hist, turn, dist, whole);
        counter := counter % 8;
        if counter < 3 {
          cur, hist := CopyRest(out, p, q, counter, hist, turn, dist, whole);
          counter := 0;
          return;
        }
      }
      cur, hist := CopyThrees(out, p, q, counter, hist, turn, dist, whole);
      counter := 0;
    }
  }
}
