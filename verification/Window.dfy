/** The 32 KiB sliding window of the compressor with its hash chains, and the match finder
    (tdefl_find_match, src/http/miniz.c:2265-2297; the form on 16-bit words). */
module Window {
  import opened Bits
  import opened Chains

  const DICT_SIZE := 32768
  const MIN_MATCH := 3
  const MAX_MATCH := 258
  const MIRROR := MAX_MATCH - 1
  const FAST_LOOKAHEAD := 4096   // TDEFL_COMP_FAST_LOOKAHEAD_SIZE

  type U16 = x: int | 0 <= x < 0x10000

  function Min(a: nat, b: nat): nat { if a <= b then a else b }

  // ---------- the ring ----------

  /** The input bytes lo..hi are in the ring, and again past its end where that starts a new turn. */
  ghost predicate InRing(dict: seq<Byte>, input: seq<Byte>, lo: nat, hi: nat)
  {
    && |dict| == DICT_SIZE + MIRROR && lo <= hi <= |input|
    && forall a {:trigger input[a]} :: lo <= a < hi ==> RingByte(dict, a, input[a])
  }

  predicate RingByte(dict: seq<Byte>, a: nat, b: Byte)
    requires |dict| == DICT_SIZE + MIRROR
  {
    dict[a % DICT_SIZE] == b && (a % DICT_SIZE < MIRROR ==> dict[DICT_SIZE + a % DICT_SIZE] == b)
  }

  /** Reading on from a ring position, past the end into the mirror, reads the following input. */
  lemma RingRead(dict: seq<Byte>, input: seq<Byte>, lo: nat, hi: nat, base: nat, k: nat)
    requires InRing(dict, input, lo, hi) && lo <= base + k < hi && k <= MIRROR
    ensures dict[base % DICT_SIZE + k] == input[base + k]
  {
    var r := base % DICT_SIZE;
    assert RingByte(dict, base + k, input[base + k]);
    if r + k < DICT_SIZE {
      WrapMod(base, k, r + k);
    } else {
      WrapMod(base, k, r + k - DICT_SIZE);
    }
  }

  lemma WrapMod(base: nat, k: nat, r: nat)
    requires r < DICT_SIZE && (base % DICT_SIZE + k == r || base % DICT_SIZE + k == r + DICT_SIZE)
    ensures (base + k) % DICT_SIZE == r
  {
  }

  /** Writing the next input byte at its place, and in the mirror, overwrites only the byte 32768 before. */
  lemma RingWrite(dict: seq<Byte>, dict2: seq<Byte>, input: seq<Byte>, lo: nat, lo2: nat, c: Byte)
    requires InRing(dict, input, lo, |input|) && lo <= lo2 <= |input| && |input| + 1 <= lo2 + DICT_SIZE
    requires var r := |input| % DICT_SIZE;
             && |dict2| == |dict| && dict2[r] == c && (r < MIRROR ==> dict2[DICT_SIZE + r] == c)
             && forall i :: 0 <= i < |dict| && i != r && i != DICT_SIZE + r ==> dict2[i] == dict[i]
    ensures InRing(dict2, input + [c], lo2, |input| + 1)
  {
    forall a | lo2 <= a < |input| + 1
      ensures RingByte(dict2, a, (input + [c])[a])
    {
      if a < |input| {
        assert RingByte(dict, a, input[a]);
        Apart(a, |input|);
      }
    }
  }

  lemma Apart(a: nat, b: nat)
    requires a < b < a + DICT_SIZE
    ensures a % DICT_SIZE != b % DICT_SIZE
  {
  }

  // ---------- matches ----------

  /** The len bytes at pos repeat the bytes dist before. */
  predicate IsMatch(input: seq<Byte>, pos: nat, dist: nat, len: nat)
  {
    1 <= dist <= pos && pos + len <= |input| && forall i :: pos <= i < pos + len ==> input[i] == input[i - dist]
  }

  /** Some of the len bytes at pos is not the one dist before. */
  predicate NoMatch(input: seq<Byte>, pos: nat, dist: nat, len: nat)
  {
    1 <= dist <= pos && pos + len <= |input| ==> exists i :: pos <= i < pos + len && input[i] != input[i - dist]
  }

  lemma NoMatchMono(input: seq<Byte>, pos: nat, dist: nat, len: nat, len2: nat)
    requires NoMatch(input, pos, dist, len) && len <= len2
    ensures NoMatch(input, pos, dist, len2)
  {
  }

  predicate SameAt(dict: seq<Byte>, s: nat, q: nat, k: nat)
  {
    s + k < |dict| && q + k < |dict| && dict[s + k] == dict[q + k]
  }

  /** The n bytes at s and at q are equal. */
  predicate SameBytes(dict: seq<Byte>, s: nat, q: nat, n: nat)
  {
    forall k :: 0 <= k < n ==> SameAt(dict, s, q, k)
  }

  lemma SameWord(dict: seq<Byte>, s: nat, q: nat, n: nat)
    requires SameBytes(dict, s, q, n) && s + n + 1 < |dict| && q + n + 1 < |dict|
    requires dict[s + n] == dict[q + n] && dict[s + n + 1] == dict[q + n + 1]
    ensures SameBytes(dict, s, q, n + 2)
  {
    assert SameAt(dict, s, q, n) && SameAt(dict, s, q, n + 1);
  }

  /** A 16-bit load. */
  function Word(dict: array<Byte>, i: nat): (w: (Byte, Byte))
    requires i + 1 < dict.Length
    reads dict
  {
    (dict[i], dict[i + 1])
  }

  /** The unrolled comparison of up to 129 words, the first of which are equal
      (src/http/miniz.c:2284-2286). words is the index of the first difference, or 128 with none. */
  method CompareWords(dict: array<Byte>, s: nat, q: nat) returns (words: nat, probeLen: nat)
    requires dict.Length == DICT_SIZE + MIRROR && s < DICT_SIZE && q < DICT_SIZE
    requires Word(dict, s) == Word(dict, q)
    ensures words <= 128 && SameBytes(dict[..], s, q, 2 * words)
    ensures probeLen == 0 ==> words == 128 && SameBytes(dict[..], s, q, 258)
    ensures probeLen > 0 ==> Word(dict, s + 2 * words) != Word(dict, q + 2 * words)
  {
    words, probeLen := 0, 32;
    SameWord(dict[..], s, q, 0);
    while true
      invariant 1 <= probeLen <= 32 && words == 4 * (32 - probeLen)
      invariant SameBytes(dict[..], s, q, 2 * words + 2)
      decreases probeLen
    {
      words := words + 1;
      if Word(dict, s + 2 * words) != Word(dict, q + 2 * words) { return; }
      SameWord(dict[..], s, q, 2 * words);
      words := words + 1;
      if Word(dict, s + 2 * words) != Word(dict, q + 2 * words) { return; }
      SameWord(dict[..], s, q, 2 * words);
      words := words + 1;
      if Word(dict, s + 2 * words) != Word(dict, q + 2 * words) { return; }
      SameWord(dict[..], s, q, 2 * words);
      words := words + 1;
      if Word(dict, s + 2 * words) != Word(dict, q + 2 * words) { return; }
      SameWord(dict[..], s, q, 2 * words);
      probeLen := probeLen - 1;
      if probeLen == 0 { return; }
    }
  }

  /** Equal dictionary bytes at two ring positions, up to the lookahead, are a match. */
  lemma EqualBytesMatch(dict: seq<Byte>, input: seq<Byte>, lo: nat, pos: nat, dist: nat, len: nat)
    requires InRing(dict, input, lo, |input|) && 1 <= dist && lo + dist <= pos && pos + len <= |input| && len <= MAX_MATCH
    requires SameBytes(dict, pos % DICT_SIZE, (pos - dist) % DICT_SIZE, len)
    ensures IsMatch(input, pos, dist, len)
  {
    forall i | pos <= i < pos + len ensures input[i] == input[i - dist] {
      var k := i - pos;
      RingRead(dict, input, lo, |input|, pos, k);
      RingRead(dict, input, lo, |input|, pos - dist, k);
      assert SameAt(dict, pos % DICT_SIZE, (pos - dist) % DICT_SIZE, k);
    }
  }

  /** The 16-bit distance to any chain entry names the ring position of that entry. */
  lemma ProbePosition(pos: nat, lookaheadPos: nat, nextProbePos: U16, dist: nat)
    requires lookaheadPos == pos % 0x1_0000_0000 && dist == (lookaheadPos - nextProbePos) % 0x10000 && dist <= pos
    ensures nextProbePos % DICT_SIZE == (pos - dist) % DICT_SIZE
  {
    var a := (lookaheadPos - nextProbePos) / 0x10000;
    var b := pos / 0x1_0000_0000;
    assert lookaheadPos - nextProbePos == 0x10000 * a + dist;
    assert pos == 0x1_0000_0000 * b + lookaheadPos;
    assert pos - dist == nextProbePos + DICT_SIZE * (131072 * b + 2 * a);
    ModAdd(nextProbePos, 131072 * b + 2 * a);
  }

  lemma ModAdd(x: int, q: int)
    ensures (x + DICT_SIZE * q) % DICT_SIZE == x % DICT_SIZE
  {
  }

  // ---------- the dictionary ----------

  /** The oldest of the bytes from `low` on that a ring of 32768 still holds once there are `size` bytes. */
  function RingLow(low: nat, size: nat): (r: nat)
    ensures r >= low && (low <= size ==> r <= size)
  {
    if size > low + DICT_SIZE then size - DICT_SIZE else low
  }

  lemma RingLowNext(low: nat, size: nat)
    requires low <= size
    ensures RingLow(low, size) <= RingLow(low, size + 1) <= size && size + 1 <= RingLow(low, size + 1) + DICT_SIZE
  {
  }

  lemma RingLowStart(low: nat, size: nat)
    requires size <= low + DICT_SIZE
    ensures RingLow(low, size) == low
  {
  }

  datatype Probing = Stop | Hit | Miss

  /** m_dict, m_hash, m_next and the counters that go with them. `input` is all that was put in. */
  class Dictionary {
    const dict: array<Byte>
    const hash: array<U16>
    const next: array<U16>
    const maxProbes: nat         // m_max_probes[0]
    const maxProbesLong: nat     // m_max_probes[1]
    const maxLookahead: nat      // how far the lookahead is filled
    var lookaheadPos: nat        // 32 bits wide
    var lookaheadSize: nat
    var dictSize: nat
    ghost var input: seq<Byte>
    ghost var since: nat         // no earlier position is in the chains

    predicate Shaped()
    {
      dict.Length == DICT_SIZE + MIRROR && hash.Length == HASH_SIZE && next.Length == DICT_SIZE && hash != next
      && maxProbes >= 1 && maxProbesLong >= 1 && (maxLookahead == MAX_MATCH || maxLookahead == FAST_LOOKAHEAD)
    }

    /** Everything but how dictSize and the lookahead share the ring. The dictionary goes back to `since`, or
        as far as the ring allows. */
    ghost predicate Placed()
      reads this
    {
      && lookaheadSize <= maxLookahead && lookaheadSize <= |input| && since + dictSize <= |input| - lookaheadSize
      && (since + dictSize == |input| - lookaheadSize || dictSize + maxLookahead >= DICT_SIZE)
      && lookaheadPos == (|input| - lookaheadSize) % 0x1_0000_0000
    }

    ghost predicate Valid()
      reads this, dict, hash, next
    {
      && Shaped() && Placed() && dictSize + lookaheadSize <= DICT_SIZE
      && InRing(dict[..], input, |input| - lookaheadSize - dictSize, |input|)
      && (maxLookahead == MAX_MATCH ==> Linked())
    }

    /** Every position whose three bytes are known is in its chain. */
    ghost predicate Linked()
      reads this, hash, next
    {
      Chained(hash[..], next[..], input, since, Inserted(|input|))
    }

    /** The first position that is not in the chains, of `size` bytes of input. */
    ghost function Inserted(size: nat): nat
      reads this
    {
      if size >= since + 2 then size - 2 else since
    }

    /** The input position of the lookahead. */
    ghost function Pos(): nat
      requires Placed()
      reads this
    {
      |input| - lookaheadSize
    }

    constructor (flags: nat, fast: bool)
      ensures maxLookahead == if fast then FAST_LOOKAHEAD else MAX_MATCH
      ensures flags % 0x1000 <= 3 * (maxProbes - 1) < flags % 0x1000 + 3
      ensures flags % 0x1000 / 4 <= 3 * (maxProbesLong - 1) < flags % 0x1000 / 4 + 3
      ensures Valid() && input == [] && lookaheadSize == 0 && dictSize == 0 && fresh(dict) && fresh(hash) && fresh(next)
    {
      dict := new Byte[DICT_SIZE + MIRROR](i => 0);
      hash := new U16[HASH_SIZE](i => 0);
      next := new U16[DICT_SIZE](i => 0);
      maxProbes := 1 + (flags % 0x1000 + 2) / 3;
      maxProbesLong := 1 + (flags % 0x1000 / 4 + 2) / 3;
      maxLookahead := if fast then FAST_LOOKAHEAD else MAX_MATCH;
      lookaheadPos, lookaheadSize, dictSize, input, since := 0, 0, 0, [], 0;
      new;
      ChainedNone(hash[..], next[..], input, since);
    }

    /** The distance that the link at ring position p leads to, in 16 bits. */
    function LinkDist(p: nat): nat
      requires Shaped() && p < DICT_SIZE
      reads this, next
    {
      (lookaheadPos - next[p]) % 0x10000
    }

    /** The chain ends at p: there is no link, or it leads too far. */
    predicate Ends(p: nat)
      requires Shaped()
      reads this, next
    {
      p < DICT_SIZE && (next[p] == 0 || LinkDist(p) > dictSize)
    }

    /** One link, from p to q at distance d. */
    ghost predicate Link(p: nat, q: nat, d: nat)
      requires Shaped()
      reads this, next
    {
      p < DICT_SIZE && q < DICT_SIZE && !Ends(p) && q == next[p] % DICT_SIZE && d == LinkDist(p)
    }

    /** ps are the ring positions that the links lead to, one after the other from p0, and ds their distances. */
    ghost predicate Walk(p0: nat, ps: seq<nat>, ds: seq<nat>)
      requires Shaped()
      reads this, next
    {
      |ps| == |ds| && forall i :: 0 <= i < |ps| ==> Link(Before(p0, ps, i), ps[i], ds[i])
    }

    ghost function Before(p0: nat, ps: seq<nat>, i: nat): nat
      requires i <= |ps|
    {
      if i == 0 then p0 else ps[i - 1]
    }

    ghost function Last(p0: nat, ps: seq<nat>): nat { Before(p0, ps, |ps|) }

    /** None of these distances has a match longer than len. */
    ghost predicate NoneLonger(ds: seq<nat>, len: nat)
      requires Placed()
      reads this
    {
      forall i :: 0 <= i < |ds| && ds[i] >= 1 ==> NoMatch(input, Pos(), ds[i], len + 1)
    }

    lemma WalkOn(p0: nat, ps: seq<nat>, ds: seq<nat>, q: nat, d: nat)
      requires Shaped() && Walk(p0, ps, ds) && Link(Last(p0, ps), q, d)
      ensures Walk(p0, ps + [q], ds + [d])
    {
      hide Link;
      forall i | 0 <= i < |ps| + 1 ensures Link(Before(p0, ps + [q], i), (ps + [q])[i], (ds + [d])[i]) {
        if i < |ps| { assert Link(Before(p0, ps, i), ps[i], ds[i]); }
      }
    }

    /** TDEFL_PROBE: follow one chain link. */
    method Probe(probePos0: nat, matchLen: nat, c01: (Byte, Byte), maxDist: nat) returns (r: Probing, probePos: nat, dist: nat)
      requires Valid() && probePos0 < DICT_SIZE && 1 <= matchLen <= MIRROR && maxDist == dictSize
      ensures probePos < DICT_SIZE && (r == Stop <==> Ends(probePos0))
      ensures r != Stop ==> dist <= maxDist && probePos == (Pos() - dist) % DICT_SIZE && Link(probePos0, probePos, dist)
      ensures r != Stop ==> (r == Hit <==> Word(dict, probePos + matchLen - 1) == c01)
    {
      var nextProbePos := next[probePos0];
      probePos := probePos0;
      dist := (lookaheadPos - nextProbePos) % 0x10000;
      if nextProbePos == 0 || dist > maxDist {
        return Stop, probePos, dist;
      }
      ProbePosition(Pos(), lookaheadPos, nextProbePos, dist);
      probePos := nextProbePos % DICT_SIZE;
      r := if Word(dict, probePos + matchLen - 1) == c01 then Hit else Miss;
    }

    /** A link that does not end in the right two bytes leads to nothing longer. */
    lemma MissMeans(probePos: nat, dist: nat, matchLen: nat)
      requires Valid() && 1 <= matchLen < lookaheadSize && matchLen <= MIRROR && dist <= dictSize && probePos == (Pos() - dist) % DICT_SIZE
      requires Word(dict, probePos + matchLen - 1) != Word(dict, Pos() % DICT_SIZE + matchLen - 1)
      ensures dist >= 1 ==> NoMatch(input, Pos(), dist, matchLen + 1)
    {
      hide InRing;
      if dist >= 1 {
        var lo := Pos() - dictSize;
        RingRead(dict[..], input, lo, |input|, Pos(), matchLen - 1);
        RingRead(dict[..], input, lo, |input|, Pos(), matchLen);
        RingRead(dict[..], input, lo, |input|, Pos() - dist, matchLen - 1);
        RingRead(dict[..], input, lo, |input|, Pos() - dist, matchLen);
      }
    }

    /** The inner loop: links are followed until one ends in the two bytes a longer match needs.
        Only every third link costs a probe. */
    method NextCandidate(probePos0: nat, matchLen: nat, c01: (Byte, Byte), maxDist: nat, probes0: nat, ghost p0: nat, ghost ps0: seq<nat>, ghost ds0: seq<nat>)
      returns (found: bool, probePos: nat, dist: nat, probes: nat, ghost ps: seq<nat>, ghost ds: seq<nat>)
      requires Valid() && probePos0 < DICT_SIZE && 1 <= matchLen < lookaheadSize && matchLen <= MIRROR && maxDist == dictSize && probes0 >= 1
      requires c01 == Word(dict, Pos() % DICT_SIZE + matchLen - 1) && Walk(p0, ps0, ds0) && |ds0| == |ps0| && Last(p0, ps0) == probePos0 && NoneLonger(ds0, matchLen)
      ensures found ==> probePos < DICT_SIZE && dist <= maxDist && probePos == (Pos() - dist) % DICT_SIZE && 1 <= probes < probes0
      ensures Walk(p0, ps, ds) && |ds| == |ps| && |ps| - |ps0| + probes >= probes0 - 1
      ensures found ==> ds != [] && Last(p0, ps) == probePos && ds[|ds| - 1] == dist && NoneLonger(ds[..|ds| - 1], matchLen) && |ps| - |ps0| + probes >= probes0
      ensures !found ==> NoneLonger(ds, matchLen) && (probes == 0 || Ends(Last(p0, ps)))
      ensures found ==> 3 * (probes0 - probes) - 2 <= |ps| - |ps0| <= 3 * (probes0 - probes)
      ensures !found && probes == 0 ==> |ps| - |ps0| == 3 * (probes0 - 1)
    {
      hide InRing, IsMatch, NoMatch, Ends, Link, Walk, NoneLonger, Linked;
      probePos, probes, dist, ps, ds := probePos0, probes0, 0, ps0, ds0;
      while true
        invariant 1 <= probes <= probes0 && probePos < DICT_SIZE && Walk(p0, ps, ds) && Last(p0, ps) == probePos && NoneLonger(ds, matchLen)
        invariant |ps| - |ps0| + probes >= probes0 && |ds| == |ps| && |ps| - |ps0| == 3 * (probes0 - probes)
        decreases probes
      {
        probes := probes - 1;
        if probes == 0 { return false, probePos, dist, probes, ps, ds; }
        var r;
        r, probePos, dist, ps, ds := OneProbe(probePos, matchLen, c01, maxDist, p0, ps, ds);
        if r != Miss { return r == Hit, probePos, dist, probes, ps, ds; }
        r, probePos, dist, ps, ds := OneProbe(probePos, matchLen, c01, maxDist, p0, ps, ds);
        if r != Miss { return r == Hit, probePos, dist, probes, ps, ds; }
        r, probePos, dist, ps, ds := OneProbe(probePos, matchLen, c01, maxDist, p0, ps, ds);
        if r != Miss { return r == Hit, probePos, dist, probes, ps, ds; }
      }
    }

    /** One of the three probes, with the record of the walk. */
    method OneProbe(probePos0: nat, matchLen: nat, c01: (Byte, Byte), maxDist: nat, ghost p0: nat, ghost ps0: seq<nat>, ghost ds0: seq<nat>)
      returns (r: Probing, probePos: nat, dist: nat, ghost ps: seq<nat>, ghost ds: seq<nat>)
      requires Valid() && probePos0 < DICT_SIZE && 1 <= matchLen < lookaheadSize && matchLen <= MIRROR && maxDist == dictSize
      requires c01 == Word(dict, Pos() % DICT_SIZE + matchLen - 1) && Walk(p0, ps0, ds0) && Last(p0, ps0) == probePos0 && NoneLonger(ds0, matchLen)
      ensures probePos < DICT_SIZE && Walk(p0, ps, ds)
      ensures r == Stop ==> ps == ps0 && ds == ds0 && Ends(Last(p0, ps))
      ensures r != Stop ==> |ps| == |ps0| + 1 && Last(p0, ps) == probePos && ds == ds0 + [dist] && dist <= maxDist && probePos == (Pos() - dist) % DICT_SIZE
      ensures r == Miss ==> NoneLonger(ds, matchLen)
    {
      hide InRing, IsMatch, NoMatch, Ends, Link, Walk, Linked;
      r, probePos, dist := Probe(probePos0, matchLen, c01, maxDist);
      ps, ds := ps0, ds0;
      if r != Stop {
        WalkOn(p0, ps, ds, probePos, dist);
        ps, ds := ps + [probePos], ds + [dist];
        if r == Miss { MissMeans(probePos, dist, matchLen); }
      }
    }

    /** No position of the window has a match longer than len, unless a position between looks like the end of the chain. */
    ghost predicate Exhausted(len: nat)
      requires Placed()
      reads this
    {
      forall j: nat {:trigger SlotAt(input, j)} :: Pos() - dictSize <= j < Pos() && !CutOff(input, Pos(), j) ==> NoMatch(input, Pos(), Pos() - j, len + 1)
    }

    lemma {:induction false} WalkOnTrack(ps: seq<nat>, ds: seq<nat>, n: nat) returns (c: nat)
      requires Valid() && maxLookahead == MAX_MATCH && lookaheadSize >= 3 && Walk(Pos() % DICT_SIZE, ps, ds) && n <= |ps|
      ensures OnTrack(input, Pos() - dictSize, Pos(), ds[..n], Before(Pos() % DICT_SIZE, ps, n), c) && Before(Pos() % DICT_SIZE, ps, n) < DICT_SIZE
    {
      hide InRing, Linked, OnTrack, Link;
      var p0, lo := Pos() % DICT_SIZE, Pos() - dictSize;
      if n == 0 {
        c := Pos();
        assert ds[..0] == [];
        TrackStart(input, lo, Pos());
      } else {
        var b := WalkOnTrack(ps, ds, n - 1);
        assert Link(Before(p0, ps, n - 1), ps[n - 1], ds[n - 1]);
        c := LinkOnTrack(ds[..n - 1], Before(p0, ps, n - 1), b, ps[n - 1], ds[n - 1]);
        assert ds[..n] == ds[..n - 1] + [ds[n - 1]];
      }
    }

    lemma LinkOnTrack(ds: seq<nat>, at: nat, b: nat, q: nat, d: nat) returns (c: nat)
      requires Valid() && maxLookahead == MAX_MATCH && lookaheadSize >= 3 && Link(at, q, d) && at < DICT_SIZE
      requires OnTrack(input, Pos() - dictSize, Pos(), ds, at, b)
      ensures OnTrack(input, Pos() - dictSize, Pos(), ds + [d], q, c) && q < DICT_SIZE
    {
      hide InRing, Chained, OnTrack, Seen, Ends, SlotAt, Link;
      LinkIs(at, q, d);
      c := TrackStep(hash[..], next[..], input, since, Inserted(|input|), Pos() - dictSize, Pos(), ds, at, b, next[at]);
    }

    lemma LinkIs(at: nat, q: nat, d: nat)
      requires Shaped() && Placed() && Link(at, q, d)
      ensures at < DICT_SIZE && next[at] != 0 && d == (Pos() - next[at]) % 0x10000 <= dictSize && q == next[at] % DICT_SIZE
    {
      SameDistance(Pos(), lookaheadPos, next[at]);
    }

    lemma EndIs(at: nat)
      requires Shaped() && Placed() && Ends(at)
      ensures at < DICT_SIZE && (next[at] == 0 || (Pos() - next[at]) % 0x10000 > dictSize)
    {
      SameDistance(Pos(), lookaheadPos, next[at]);
    }

    /** A walk that came to an end of the chain has seen all. */
    lemma WalkSeesAll(ps: seq<nat>, ds: seq<nat>)
      requires Valid() && maxLookahead == MAX_MATCH && lookaheadSize >= 3 && Walk(Pos() % DICT_SIZE, ps, ds)
      requires Ends(Last(Pos() % DICT_SIZE, ps)) || (ds != [] && ds[|ds| - 1] == 0)
      ensures Seen(input, Pos() - dictSize, Pos(), ds, Pos() - dictSize)
    {
      hide InRing, Chained, OnTrack, Seen, Ends, Link, SlotAt;
      var p0, lo := Pos() % DICT_SIZE, Pos() - dictSize;
      var n := if Ends(Last(p0, ps)) then |ps| else |ps| - 1;
      var b := WalkOnTrack(ps, ds, n);
      var at := Before(p0, ps, n);
      if n < |ps| { LinkIs(at, ps[n], ds[n]); } else { EndIs(at); }
      var c := TrackStep(hash[..], next[..], input, since, Inserted(|input|), lo, Pos(), ds[..n], at, b, next[at]);
      SeenPrefix(input, lo, Pos(), ds, n, lo);
    }

    lemma AllSeen(ds: seq<nat>, len: nat)
      requires Valid() && maxLookahead == MAX_MATCH && lookaheadSize >= 3 && len >= 2
      requires Seen(input, Pos() - dictSize, Pos(), ds, Pos() - dictSize) && NoneLonger(ds, len)
      ensures Exhausted(len)
    {
      hide InRing, Chained, CutOff, NoMatch, SlotAt;
      forall j: nat | Pos() - dictSize <= j < Pos() && !CutOff(input, Pos(), j)
        ensures NoMatch(input, Pos(), Pos() - j, len + 1)
      {
        if SlotAt(input, j) == SlotAt(input, Pos()) {
          assert Reachable(input, Pos() - dictSize, Pos(), j);
          var i :| 0 <= i < |ds| && ds[i] == Pos() - j;
        } else {
          OtherSlot(input, Pos(), j);
          NoMatchMono(input, Pos(), Pos() - j, 3, len + 1);
        }
      }
    }

    /** tdefl_find_match. Whatever the chains hold, a reported match that is longer than the one passed in
        is a real one: within reach, within the lookahead, and equal byte for byte. And it is the longest
        along the walk, and in the whole window, unless the probes ran out: every position with the same three
        bytes is in the chain. */
    method FindMatch(dist0: nat, len0: nat) returns (matchDist: nat, matchLen: nat, ghost ps: seq<nat>, ghost ds: seq<nat>)
      requires Valid() && maxLookahead == MAX_MATCH && 1 <= len0 <= MIRROR
      ensures (matchDist, matchLen) == (dist0, len0) || (len0 < matchLen <= lookaheadSize && 1 <= matchDist <= dictSize && IsMatch(input, Pos(), matchDist, matchLen))
      ensures Walk(Pos() % DICT_SIZE, ps, ds)
      ensures matchLen >= lookaheadSize || NoneLonger(ds, matchLen)
      ensures matchLen >= lookaheadSize || Ends(Last(Pos() % DICT_SIZE, ps)) || (ds != [] && ds[|ds| - 1] == 0)
           || |ps| + 1 >= (if len0 >= 32 then maxProbesLong else maxProbes)
      ensures matchLen >= lookaheadSize || (matchLen >= 2 ==> Exhausted(matchLen)) || |ps| + 1 >= (if len0 >= 32 then maxProbesLong else maxProbes)
    {
      matchDist, matchLen, ps, ds := FollowChain(dist0, len0);
      if 2 <= matchLen < lookaheadSize && |ps| + 1 < (if len0 >= 32 then maxProbesLong else maxProbes) {
        WalkSeesAll(ps, ds);
        AllSeen(ds, matchLen);
      }
    }

    /** The loops of tdefl_find_match. */
    method FollowChain(dist0: nat, len0: nat) returns (matchDist: nat, matchLen: nat, ghost ps: seq<nat>, ghost ds: seq<nat>)
      requires Valid() && maxLookahead == MAX_MATCH && 1 <= len0 <= MIRROR
      ensures (matchDist, matchLen) == (dist0, len0) || (len0 < matchLen <= lookaheadSize && 1 <= matchDist <= dictSize && IsMatch(input, Pos(), matchDist, matchLen))
      ensures Walk(Pos() % DICT_SIZE, ps, ds)
      ensures matchLen >= lookaheadSize || NoneLonger(ds, matchLen)
      ensures matchLen >= lookaheadSize || Ends(Last(Pos() % DICT_SIZE, ps)) || (ds != [] && ds[|ds| - 1] == 0)
           || |ps| + 1 >= (if len0 >= 32 then maxProbesLong else maxProbes)
    {
      hide InRing, IsMatch, NoMatch, SameBytes, Ends, Link, Walk, NoneLonger, Linked;
      var maxDist, maxMatchLen := dictSize, lookaheadSize;
      var pos := lookaheadPos % DICT_SIZE;
      PosInRing(Pos(), lookaheadPos);
      matchDist, matchLen := dist0, len0;
      ps, ds := [], [];
      StartWalk(pos);
      var probePos: nat, probes: nat := pos, if matchLen >= 32 then maxProbesLong else maxProbes;
      ghost var budget := probes;
      var c01, s01 := Word(dict, pos + matchLen - 1), Word(dict, pos);
      if maxMatchLen <= matchLen { return; }
      while true
        invariant probePos < DICT_SIZE && probes >= 1 && 1 <= matchLen < maxMatchLen && c01 == Word(dict, pos + matchLen - 1)
        invariant (matchDist, matchLen) == (dist0, len0) || (len0 < matchLen <= lookaheadSize && 1 <= matchDist <= dictSize && IsMatch(input, Pos(), matchDist, matchLen))
        invariant Walk(pos, ps, ds) && Last(pos, ps) == probePos && NoneLonger(ds, matchLen) && |ds| == |ps| && |ps| + probes >= budget
        decreases probes
      {
        var found, dist;
        found, probePos, dist, probes, ps, ds := NextCandidate(probePos, matchLen, c01, maxDist, probes, pos, ps, ds);
        if !found { return; }
        if dist == 0 {
          ZeroLonger(ds, matchLen);
          break;
        }
        if Word(dict, probePos) != s01 {
          OtherStart(probePos, dist, matchLen);
          OneLonger(ds, matchLen);
          continue;
        }
        var len := Measure(pos, probePos, dist, maxMatchLen);
        if len > matchLen {
          FewerLonger(ds[..|ds| - 1], matchLen, len);
          matchDist := dist;
          matchLen := len;
          if matchLen == maxMatchLen { break; }
          OneLonger(ds, matchLen);
          c01 := Word(dict, pos + matchLen - 1);
        } else {
          NoMatchMono(input, Pos(), dist, len + 1, matchLen + 1);
          OneLonger(ds, matchLen);
        }
      }
    }

    lemma StartWalk(p0: nat)
      requires Shaped() && Placed()
      ensures Walk(p0, [], []) && Last(p0, []) == p0 && forall len :: NoneLonger([], len)
    {
    }

    lemma ZeroLonger(ds: seq<nat>, len: nat)
      requires Placed() && ds != [] && NoneLonger(ds[..|ds| - 1], len) && ds[|ds| - 1] == 0
      ensures NoneLonger(ds, len)
    {
      hide NoMatch;
      assert forall i :: 0 <= i < |ds| - 1 ==> ds[..|ds| - 1][i] == ds[i];
    }

    lemma OneLonger(ds: seq<nat>, len: nat)
      requires Placed() && ds != [] && NoneLonger(ds[..|ds| - 1], len) && NoMatch(input, Pos(), ds[|ds| - 1], len + 1)
      ensures NoneLonger(ds, len)
    {
      hide NoMatch;
      assert forall i :: 0 <= i < |ds| - 1 ==> ds[..|ds| - 1][i] == ds[i];
    }

    lemma FewerLonger(ds: seq<nat>, len: nat, len2: nat)
      requires Placed() && NoneLonger(ds, len) && len <= len2
      ensures NoneLonger(ds, len2)
    {
      forall i | 0 <= i < |ds| && ds[i] >= 1 ensures NoMatch(input, Pos(), ds[i], len2 + 1) {
        NoMatchMono(input, Pos(), ds[i], len + 1, len2 + 1);
      }
    }

    /** A candidate that starts otherwise is no match of two bytes. */
    lemma OtherStart(probePos: nat, dist: nat, matchLen: nat)
      requires Valid() && 1 <= matchLen < lookaheadSize && 1 <= dist <= dictSize && probePos == (Pos() - dist) % DICT_SIZE
      requires Word(dict, probePos) != Word(dict, Pos() % DICT_SIZE)
      ensures NoMatch(input, Pos(), dist, matchLen + 1)
    {
      hide InRing;
      var lo := Pos() - dictSize;
      RingRead(dict[..], input, lo, |input|, Pos(), 0);
      RingRead(dict[..], input, lo, |input|, Pos(), 1);
      RingRead(dict[..], input, lo, |input|, Pos() - dist, 0);
      RingRead(dict[..], input, lo, |input|, Pos() - dist, 1);
    }

    /** How long the match at a candidate is, exactly, up to the lookahead (src/http/miniz.c:2284-2294). */
    method Measure(pos: nat, probePos: nat, dist: nat, maxMatchLen: nat) returns (len: nat)
      requires Valid() && pos == Pos() % DICT_SIZE && 1 <= dist <= dictSize && probePos == (Pos() - dist) % DICT_SIZE && maxMatchLen == Min(MAX_MATCH, lookaheadSize)
      requires Word(dict, pos) == Word(dict, probePos)
      ensures len <= maxMatchLen && IsMatch(input, Pos(), dist, len)
      ensures len < maxMatchLen ==> NoMatch(input, Pos(), dist, len + 1)
    {
      hide InRing, IsMatch, NoMatch, SameBytes;
      var words, probeLen := CompareWords(dict, pos, probePos);
      if probeLen == 0 {
        ShorterSame(dict[..], pos, probePos, 258, maxMatchLen);
        EqualBytesMatch(dict[..], input, Pos() - dictSize, Pos(), dist, maxMatchLen);
        return maxMatchLen;
      }
      probeLen := words * 2 + (if dict[pos + 2 * words] == dict[probePos + 2 * words] then 1 else 0);
      OneMoreByte(dict[..], pos, probePos, 2 * words, probeLen);
      len := Min(maxMatchLen, probeLen);
      ShorterSame(dict[..], pos, probePos, probeLen, len);
      EqualBytesMatch(dict[..], input, Pos() - dictSize, Pos(), dist, len);
      if len < maxMatchLen { Different(probePos, dist, len); }
    }

    lemma Different(probePos: nat, dist: nat, len: nat)
      requires Valid() && len < lookaheadSize && len <= MIRROR && 1 <= dist <= dictSize && probePos == (Pos() - dist) % DICT_SIZE
      requires dict[Pos() % DICT_SIZE + len] != dict[probePos + len]
      ensures NoMatch(input, Pos(), dist, len + 1)
    {
      hide InRing;
      var lo := Pos() - dictSize;
      RingRead(dict[..], input, lo, |input|, Pos(), len);
      RingRead(dict[..], input, lo, |input|, Pos() - dist, len);
    }

    /** The dictionary bytes still in the ring when the input is `size` bytes long. */
    ghost function Low(size: nat): nat
      requires Placed()
      reads this
    {
      var a := Pos() - dictSize;
      RingLow(a, size)
    }

    /** One byte into the ring, and into its mirror. */
    method PutByte(c: Byte, dstPos: nat, ghost low: nat)
      requires Shaped() && dstPos == |input| % DICT_SIZE && low <= |input|
      requires InRing(dict[..], input, RingLow(low, |input|), |input|)
      modifies dict, `input
      ensures input == old(input) + [c] && InRing(dict[..], input, RingLow(low, |input|), |input|)
    {
      hide InRing, RingLow;
      ghost var d := dict[..];
      ghost var lo, lo2 := RingLow(low, |input|), RingLow(low, |input| + 1);
      RingLowNext(low, |input|);
      dict[dstPos] := c;
      if dstPos < MIRROR { dict[DICT_SIZE + dstPos] := c; }
      RingWrite(d, dict[..], input, lo, lo2, c);
      input := input + [c];
    }

    /** The hash chain gets the position of the trigram that h hashes. */
    method Insert(h: nat, insPos: nat)
      requires Shaped() && h < HASH_SIZE
      modifies hash, next
      ensures hash[h] == insPos % 0x10000 && forall i :: 0 <= i < HASH_SIZE && i != h ==> hash[i] == old(hash[i])
      ensures next[insPos % DICT_SIZE] == old(hash[h]) && forall i :: 0 <= i < DICT_SIZE && i != insPos % DICT_SIZE ==> next[i] == old(next[i])
    {
      next[insPos % DICT_SIZE] := hash[h];
      hash[h] := insPos % 0x10000;
    }

    /** `lookahead_pos + lookahead_size + delta` in 32 bits. */
    function InsertPos(delta: int): nat
      reads this
    {
      (lookaheadPos + lookaheadSize + delta) % 0x1_0000_0000
    }

    /** The usual case: two bytes to hash with are there already (src/http/miniz.c:2506-2521). */
    method FillFast(src: seq<Byte>, srcPos0: nat) returns (srcPos: nat)
      requires Valid() && maxLookahead == MAX_MATCH && srcPos0 <= |src| && lookaheadSize + dictSize >= MIN_MATCH - 1
      modifies this`lookaheadSize, this`input, dict, hash, next
      ensures Shaped() && Placed() && lookaheadPos == old(lookaheadPos) && dictSize == old(dictSize) && Pos() == old(Pos())
      ensures srcPos0 <= srcPos <= |src| && input == old(input) + src[srcPos0..srcPos]
      ensures srcPos - srcPos0 == Min(|src| - srcPos0, MAX_MATCH - old(lookaheadSize))
      ensures lookaheadSize == old(lookaheadSize) + (srcPos - srcPos0)
      ensures InRing(dict[..], input, Low(|input|), |input|) && Linked()
    {
      hide InRing, RingLow, Chained, InsertsAt, HashesLast;
      var dstPos: nat, insPos: nat := (lookaheadPos + lookaheadSize) % DICT_SIZE, InsertPos(-2);
      SumInRing(Pos(), lookaheadPos, lookaheadSize);
      InsertPlace(Pos(), lookaheadPos, lookaheadSize, -2);
      var h := RunningHash(insPos);
      var n := Min(|src| - srcPos0, MAX_MATCH - lookaheadSize);
      ghost var in0, pos, low := input, Pos(), Pos() - dictSize;
      lookaheadSize := lookaheadSize + n;
      srcPos := srcPos0;
      assert src[srcPos0..srcPos] == [];
      RingLowStart(low, |input|);
      while srcPos != srcPos0 + n
        invariant srcPos0 <= srcPos <= srcPos0 + n && input == in0 + src[srcPos0..srcPos] && |input| >= since + 2
        invariant dstPos == |input| % DICT_SIZE && lookaheadSize == old(lookaheadSize) + n && InsertsAt(insPos, |input| - 2)
        invariant HashesLast(h, input)
        invariant InRing(dict[..], input, RingLow(low, |input|), |input|) && Linked()
      {
        var c := src[srcPos];
        h, dstPos, insPos := FillStep(c, h, dstPos, insPos, low);
        srcPos := srcPos + 1;
        assert src[srcPos0..srcPos] == src[srcPos0..srcPos - 1] + [c];
      }
      assert |input| == |in0| + n;
    }

    /** One turn of the loop. */
    method FillStep(c: Byte, h0: bv32, dstPos0: nat, insPos0: nat, ghost low: nat) returns (h: bv32, dstPos: nat, insPos: nat)
      requires Shaped() && dstPos0 == |input| % DICT_SIZE && low <= |input| && |input| >= since + 2 && Linked()
      requires InRing(dict[..], input, RingLow(low, |input|), |input|)
      requires InsertsAt(insPos0, |input| - 2) && HashesLast(h0, input)
      modifies dict, hash, next, `input
      ensures input == old(input) + [c] && InRing(dict[..], input, RingLow(low, |input|), |input|) && Linked()
      ensures dstPos == |input| % DICT_SIZE && InsertsAt(insPos, |input| - 2) && HashesLast(h, input)
    {
      hide InRing, RingLow, Chained, InsertsAt, HashesLast, SlotAt, Slot, HashStep;
      StepLast(h0, input, c);
      h := HashStep(h0, Wide(c));
      NextInRing(|input|);
      InsertNext(insPos0, |input| - 2);
      PutAndInsert(c, dstPos0, low, Slot(h), insPos0);
      dstPos, insPos := (dstPos0 + 1) % DICT_SIZE, (insPos0 + 1) % 0x1_0000_0000;
    }

    method RunningHash(insPos: nat) returns (h: bv32)
      requires Valid() && lookaheadSize + dictSize >= 2 && InsertsAt(insPos, |input| - 2)
      ensures HashesLast(h, input)
    {
      hide InRing, Chained, HashTwo, Hashes;
      RingRead(dict[..], input, Pos() - dictSize, |input|, |input| - 2, 0);
      RingRead(dict[..], input, Pos() - dictSize, |input|, |input| - 1, 0);
      InsertNext(insPos, |input| - 2);
      h := HashTwo(Wide(dict[insPos % DICT_SIZE]), Wide(dict[(insPos + 1) % DICT_SIZE]));
      TwoHashed(Wide(input[|input| - 2]), Wide(input[|input| - 1]));
    }

    /** One byte more, and the position two before it into its chain. */
    method PutAndInsert(c: Byte, dstPos: nat, ghost low: nat, h: nat, insPos: nat)
      requires Shaped() && dstPos == |input| % DICT_SIZE && low <= |input| && |input| >= since + 2 && Linked()
      requires InRing(dict[..], input, RingLow(low, |input|), |input|)
      requires InsertsAt(insPos, |input| - 2) && h == SlotAt(input + [c], |input| - 2)
      modifies dict, hash, next, `input
      ensures input == old(input) + [c] && InRing(dict[..], input, RingLow(low, |input|), |input|) && Linked()
    {
      hide InRing, RingLow, Chained, SlotAt, InsertsAt;
      ghost var k := |input| - 2;
      ChainedMore(hash[..], next[..], input, [c], since, k);
      PutByte(c, dstPos, low);
      LinkIn(h, insPos, k);
    }

    /** Position k goes into its chain. */
    method LinkIn(h: nat, insPos: nat, ghost k: nat)
      requires Shaped() && k + 2 < |input| && Chained(hash[..], next[..], input, since, k) && InsertsAt(insPos, k) && h == SlotAt(input, k) && h < HASH_SIZE
      modifies hash, next
      ensures Chained(hash[..], next[..], input, since, k + 1)
    {
      hide Chained, SlotAt, InsertsAt;
      InsertNext(insPos, k);
      ghost var hs: seq<int>, ns: seq<int> := hash[..], next[..];
      ChainedInsert(hs, ns, input, since, k);
      Insert(h, insPos);
      assert hash[..] == hs[h := k % 0x10000];
      assert next[..] == ns[k % DICT_SIZE := hs[h]];
    }

    /** At the very start there is nothing to hash with yet (src/http/miniz.c:2522-2539). */
    method FillSlow(src: seq<Byte>, srcPos0: nat) returns (srcPos: nat)
      requires Valid() && maxLookahead == MAX_MATCH && srcPos0 <= |src| && lookaheadSize + dictSize < MIN_MATCH - 1
      modifies this`lookaheadSize, this`input, dict, hash, next
      ensures Shaped() && Placed() && lookaheadPos == old(lookaheadPos) && dictSize == old(dictSize) && Pos() == old(Pos())
      ensures srcPos0 <= srcPos <= |src| && input == old(input) + src[srcPos0..srcPos]
      ensures srcPos - srcPos0 == Min(|src| - srcPos0, MAX_MATCH - old(lookaheadSize))
      ensures lookaheadSize == old(lookaheadSize) + (srcPos - srcPos0)
      ensures InRing(dict[..], input, Low(|input|), |input|) && Linked()
    {
      hide InRing, RingLow, Chained;
      srcPos := srcPos0;
      assert src[srcPos0..srcPos] == [];
      ghost var in0, low := input, Pos() - dictSize;
      RingLowStart(low, |input|);
      while srcPos < |src| && lookaheadSize < MAX_MATCH
        invariant srcPos0 <= srcPos <= |src| && input == in0 + src[srcPos0..srcPos] && since + dictSize == old(Pos()) && dictSize < 2
        invariant Placed() && Pos() == old(Pos()) && lookaheadSize == old(lookaheadSize) + (srcPos - srcPos0)
        invariant InRing(dict[..], input, Low(|input|), |input|) && Linked()
      {
        var c := src[srcPos];
        FillOne(c);
        srcPos := srcPos + 1;
        assert src[srcPos0..srcPos] == src[srcPos0..srcPos - 1] + [c];
      }
    }

    /** One byte, and a position into its chain once three bytes are there. */
    method FillOne(c: Byte)
      requires Shaped() && Placed() && maxLookahead == MAX_MATCH && lookaheadSize < MAX_MATCH && since + dictSize == Pos() && dictSize < 2
      requires InRing(dict[..], input, Low(|input|), |input|) && Linked()
      modifies this`lookaheadSize, this`input, dict, hash, next
      ensures Placed() && input == old(input) + [c] && lookaheadSize == old(lookaheadSize) + 1 && Pos() == old(Pos())
      ensures InRing(dict[..], input, Low(|input|), |input|) && Linked()
    {
      hide InRing, RingLow, Chained, SlotAt, HashThree, InsertsAt, Slot;
      var dstPos := (lookaheadPos + lookaheadSize) % DICT_SIZE;
      SumInRing(Pos(), lookaheadPos, lookaheadSize);
      ghost var low := Pos() - dictSize;
      ChainedMore(hash[..], next[..], input, [c], since, Inserted(|input|));
      PutByte(c, dstPos, low);
      lookaheadSize := lookaheadSize + 1;
      if lookaheadSize + dictSize >= MIN_MATCH {
        InsertLast(c);
      }
    }

    /** The position three bytes from the end. */
    method InsertLast(c: Byte)
      requires Shaped() && Placed() && since + dictSize == Pos() && lookaheadSize + dictSize >= MIN_MATCH && dictSize < 2 && |input| >= 3 && c == input[|input| - 1]
      requires InRing(dict[..], input, Low(|input|), |input|) && Chained(hash[..], next[..], input, since, Inserted(|input| - 1))
      modifies hash, next
      ensures Linked()
    {
      hide InRing, RingLow, Chained, SlotAt, HashThree, InsertsAt, Slot;
      ghost var low := Pos() - dictSize;
      var insPos := InsertPos(-3);
      InsertPlace(Pos(), lookaheadPos, lookaheadSize, -3);
      InsertNext(insPos, |input| - 3);
      RingLowStart(low, |input|);
      RingRead(dict[..], input, low, |input|, |input| - 3, 0);
      RingRead(dict[..], input, low, |input|, |input| - 2, 0);
      var h := Slot(HashThree(Wide(dict[insPos % DICT_SIZE]), Wide(dict[(insPos + 1) % DICT_SIZE]), Wide(c)));
      SlotIs(input, |input| - 3);
      LinkIn(h, insPos, |input| - 3);
    }

    /** Top the lookahead up to 258 bytes from the source; what no longer fits in the ring leaves the
        dictionary, and every new position goes into its chain (src/http/miniz.c:2506-2540). */
    method Fill(src: seq<Byte>, srcPos0: nat) returns (srcPos: nat)
      requires Valid() && maxLookahead == MAX_MATCH && srcPos0 <= |src|
      modifies this, dict, hash, next
      ensures Valid() && lookaheadPos == old(lookaheadPos) && Pos() == old(Pos()) && since == old(since)
      ensures dictSize == Min(DICT_SIZE - lookaheadSize, old(dictSize))
      ensures srcPos0 <= srcPos <= |src| && input == old(input) + src[srcPos0..srcPos]
      ensures lookaheadSize == old(lookaheadSize) + (srcPos - srcPos0)
      ensures lookaheadSize == MAX_MATCH || srcPos == |src|
    {
      hide Chained;
      if lookaheadSize + dictSize >= MIN_MATCH - 1 {
        srcPos := FillFast(src, srcPos0);
      } else {
        srcPos := FillSlow(src, srcPos0);
      }
      dictSize := Min(DICT_SIZE - lookaheadSize, dictSize);
    }

    // ----- the fast form (src/http/miniz.c:2329-2465) -----

    /** The lookahead is topped up to 4096 bytes (src/http/miniz.c:2338-2355). */
    method FillAhead(src: seq<Byte>, srcPos0: nat) returns (srcPos: nat)
      requires Valid() && maxLookahead == FAST_LOOKAHEAD && srcPos0 <= |src|
      modifies this, dict
      ensures Valid() && lookaheadPos == old(lookaheadPos) && Pos() == old(Pos()) && since == old(since)
      ensures dictSize == Min(DICT_SIZE - lookaheadSize, old(dictSize))
      ensures srcPos0 <= srcPos <= |src| && input == old(input) + src[srcPos0..srcPos]
      ensures lookaheadSize == old(lookaheadSize) + (srcPos - srcPos0)
      ensures lookaheadSize == FAST_LOOKAHEAD || srcPos == |src|
    {
      srcPos := FillRuns(src, srcPos0);
      dictSize := Min(DICT_SIZE - lookaheadSize, dictSize);
    }

    /** In one or two runs of the ring. */
    method FillRuns(src: seq<Byte>, srcPos0: nat) returns (srcPos: nat)
      requires Valid() && maxLookahead == FAST_LOOKAHEAD && srcPos0 <= |src|
      modifies this`lookaheadSize, this`input, dict
      ensures Shaped() && Placed() && lookaheadPos == old(lookaheadPos) && dictSize == old(dictSize) && Pos() == old(Pos())
      ensures srcPos0 <= srcPos <= |src| && input == old(input) + src[srcPos0..srcPos]
      ensures srcPos - srcPos0 == Min(|src| - srcPos0, FAST_LOOKAHEAD - old(lookaheadSize))
      ensures lookaheadSize == old(lookaheadSize) + (srcPos - srcPos0)
      ensures InRing(dict[..], input, Low(|input|), |input|)
    {
      hide InRing, RingLow;
      var dstPos: nat := (lookaheadPos + lookaheadSize) % DICT_SIZE;
      SumInRing(Pos(), lookaheadPos, lookaheadSize);
      var left := Min(|src| - srcPos0, FAST_LOOKAHEAD - lookaheadSize);
      ghost var total, in0, low := left, input, Pos() - dictSize;
      lookaheadSize := lookaheadSize + left;
      srcPos := srcPos0;
      assert src[srcPos0..srcPos] == [];
      RingLowStart(low, |input|);
      while left > 0
        invariant srcPos + left == srcPos0 + total && srcPos0 <= srcPos && input == in0 + src[srcPos0..srcPos]
        invariant dstPos == |input| % DICT_SIZE && lookaheadSize == old(lookaheadSize) + total
        invariant InRing(dict[..], input, RingLow(low, |input|), |input|)
      {
        var n := Min(DICT_SIZE - dstPos, left);
        ghost var before := srcPos;
        CopyRun(src, srcPos, dstPos, n, low);
        srcPos := srcPos + n;
        assert src[srcPos0..before] + src[before..srcPos] == src[srcPos0..srcPos];
        RunEnd(|input| - n, dstPos, n);
        dstPos := (dstPos + n) % DICT_SIZE;
        left := left - n;
      }
      assert |input| == |in0| + total;
    }

    /** The two memcpy calls: bytes in a row, and those of them that are mirrored. */
    method CopyRun(src: seq<Byte>, srcPos: nat, dstPos: nat, n: nat, ghost low: nat)
      requires Shaped() && srcPos + n <= |src| && dstPos + n <= DICT_SIZE && (n > 0 ==> dstPos == |input| % DICT_SIZE) && low <= |input|
      requires InRing(dict[..], input, RingLow(low, |input|), |input|)
      modifies dict, `input
      ensures input == old(input) + src[srcPos..srcPos + n] && InRing(dict[..], input, RingLow(low, |input|), |input|)
    {
      hide InRing, RingLow;
      var k := 0;
      assert src[srcPos..srcPos] == [];
      while k < n
        invariant 0 <= k <= n && input == old(input) + src[srcPos..srcPos + k]
        invariant InRing(dict[..], input, RingLow(low, |input|), |input|)
      {
        RunPlace(|input| - k, dstPos, k, n);
        PutByte(src[srcPos + k], dstPos + k, low);
        assert src[srcPos..srcPos + k + 1] == src[srcPos..srcPos + k] + [src[srcPos + k]];
        k := k + 1;
      }
    }

    /** The one place that the hash table knows for the next three bytes, and how long the match there is, up to
        258 bytes and the lookahead; 1 if there is none that is worth it (src/http/miniz.c:2360-2388). */
    method FastMatch(curPos: nat) returns (dist: nat, len: nat)
      requires Valid() && maxLookahead == FAST_LOOKAHEAD && lookaheadSize >= 4 && curPos == Pos() % DICT_SIZE
      modifies hash
      ensures Valid()
      ensures dist == (lookaheadPos - old(hash[FastHash(Trigram(dict, curPos))])) % 0x10000
      ensures hash[FastHash(Trigram(dict, curPos))] == lookaheadPos % 0x10000
      ensures len == 1 || (3 <= len <= Min(MAX_MATCH, lookaheadSize) && 1 <= dist <= dictSize && IsMatch(input, Pos(), dist, len) && (len == 3 ==> dist < 8 * 1024))
      ensures 1 < len < Min(MAX_MATCH, lookaheadSize) ==> NoMatch(input, Pos(), dist, len + 1)
      ensures len == 1 ==> dist == 0 || dist > dictSize || NoMatch(input, Pos(), dist, if dist >= 8 * 1024 then 4 else 3)
    {
      hide InRing, IsMatch, NoMatch, SameBytes;
      var t := Trigram(dict, curPos);
      var h := FastHash(t);
      var probePos: nat := hash[h];
      dist := (lookaheadPos - probePos) % 0x10000;
      ghost var p0: U16 := hash[h];
      hash[h] := lookaheadPos % 0x10000;
      len := 1;
      if dist > dictSize || dist == 0 { return; }
      ProbePosition(Pos(), lookaheadPos, p0, dist);
      probePos := probePos % DICT_SIZE;
      if Trigram(dict, probePos) != t {
        OtherTrigram(probePos, dist);
        NoMatchMono(input, Pos(), dist, 3, 4);
        return;
      }
      len := Measure(curPos, probePos, dist, Min(MAX_MATCH, lookaheadSize));
      AtLeastThree(probePos, dist, len);
      if len < MIN_MATCH || (len == MIN_MATCH && dist >= 8 * 1024) { len := 1; }
    }

    lemma OtherTrigram(probePos: nat, dist: nat)
      requires Valid() && lookaheadSize >= 3 && 1 <= dist <= dictSize && probePos == (Pos() - dist) % DICT_SIZE
      requires Trigram(dict, probePos) != Trigram(dict, Pos() % DICT_SIZE)
      ensures NoMatch(input, Pos(), dist, 3)
    {
      ByteThere(probePos, dist, 0);
      ByteThere(probePos, dist, 1);
      ByteThere(probePos, dist, 2);
    }

    /** The k-th bytes at the lookahead and at the candidate. */
    lemma ByteThere(probePos: nat, dist: nat, k: nat)
      requires Valid() && k < lookaheadSize && k <= MIRROR && 1 <= dist <= dictSize && probePos == (Pos() - dist) % DICT_SIZE
      ensures dict[Pos() % DICT_SIZE + k] == input[Pos() + k] && dict[probePos + k] == input[Pos() + k - dist]
    {
      hide InRing;
      RingRead(dict[..], input, Pos() - dictSize, |input|, Pos(), k);
      RingRead(dict[..], input, Pos() - dictSize, |input|, Pos() - dist, k);
    }

    /** Equal trigrams are a match of three bytes at least. */
    lemma AtLeastThree(probePos: nat, dist: nat, len: nat)
      requires Valid() && lookaheadSize >= 4 && 1 <= dist <= dictSize && probePos == (Pos() - dist) % DICT_SIZE
      requires Trigram(dict, probePos) == Trigram(dict, Pos() % DICT_SIZE) && (len < Min(MAX_MATCH, lookaheadSize) ==> NoMatch(input, Pos(), dist, len + 1))
      ensures len >= 3
    {
      hide InRing;
      ByteThere(probePos, dist, 0);
      ByteThere(probePos, dist, 1);
      ByteThere(probePos, dist, 2);
    }

    /** TDEFL_FULL_FLUSH: nothing before this point will be referred to (src/http/miniz.c:2686). */
    method Forget()
      requires Valid() && lookaheadSize == 0
      modifies this, hash, next
      ensures Valid() && dictSize == 0 && since == |input| && input == old(input) && lookaheadSize == old(lookaheadSize)
    {
      forall i | 0 <= i < hash.Length { hash[i] := 0; }
      forall i | 0 <= i < next.Length { next[i] := 0; }
      dictSize, since := 0, |input|;
      ChainedNone(hash[..], next[..], input, since);
    }

    /** The lookahead moves on by len bytes (src/http/miniz.c:2595-2599). */
    method Advance(len: nat)
      requires Valid() && len <= lookaheadSize
      modifies this
      ensures Valid() && input == old(input) && lookaheadSize == old(lookaheadSize) - len && dictSize == old(dictSize) + len && since == old(since)
    {
      hide Chained, InRing;
      NextPosition(Pos(), lookaheadPos, len);
      lookaheadPos := (lookaheadPos + len) % 0x1_0000_0000;
      lookaheadSize := lookaheadSize - len;
      dictSize := Min(dictSize + len, DICT_SIZE);
    }
  }

  /** The low three bytes of a 32-bit load. */
  function Trigram(dict: array<Byte>, i: nat): (t: (Byte, Byte, Byte))
    requires i + 3 < dict.Length
    reads dict
  {
    (dict[i], dict[i + 1], dict[i + 2])
  }

  /** `(first_trigram ^ (first_trigram >> 17)) & 4095`. */
  function FastHash(t: (Byte, Byte, Byte)): (h: nat)
    ensures h < 4096
  {
    var v: nat := t.0 + 256 * t.1 + 65536 * t.2;
    ((v as bv32 ^ ((v / 131072) as bv32)) as nat) % 4096
  }

  lemma RunPlace(size: nat, dstPos: nat, k: nat, n: nat)
    requires dstPos == size % DICT_SIZE && k < n && dstPos + n <= DICT_SIZE
    ensures dstPos + k == (size + k) % DICT_SIZE
  {
    WrapMod(size, k, dstPos + k);
  }

  lemma RunEnd(size: nat, dstPos: nat, n: nat)
    requires dstPos == size % DICT_SIZE
    ensures (dstPos + n) % DICT_SIZE == (size + n) % DICT_SIZE
  {
    assert size == dstPos + DICT_SIZE * (size / DICT_SIZE);
    ModAdd(dstPos + n, size / DICT_SIZE);
  }

  /** A 32-bit position that stands for k. */
  predicate InsertsAt(insPos: nat, k: nat)
  {
    insPos == k % 0x1_0000_0000
  }

  lemma InsertPlace(pos: nat, lookaheadPos: nat, size: nat, delta: int)
    requires lookaheadPos == pos % 0x1_0000_0000 && pos + size + delta >= 0
    ensures InsertsAt((lookaheadPos + size + delta) % 0x1_0000_0000, pos + size + delta)
  {
    assert pos + size + delta == lookaheadPos + size + delta + 0x1_0000_0000 * (pos / 0x1_0000_0000);
  }

  lemma InsertNext(insPos: nat, k: nat)
    requires InsertsAt(insPos, k)
    ensures InsertsAt((insPos + 1) % 0x1_0000_0000, k + 1)
    ensures insPos % DICT_SIZE == k % DICT_SIZE && insPos % 0x10000 == k % 0x10000 && (insPos + 1) % DICT_SIZE == (k + 1) % DICT_SIZE
  {
    var q := k / 0x1_0000_0000;
    assert k == insPos + 0x1_0000_0000 * q;
    WideMod(insPos, q);
    WideMod(insPos + 1, q);
    NextPosition(k, insPos, 1);
  }

  lemma WideMod(x: nat, q: nat)
    ensures (x + 0x1_0000_0000 * q) % DICT_SIZE == x % DICT_SIZE && (x + 0x1_0000_0000 * q) % 0x10000 == x % 0x10000
  {
    ModPlus(x, DICT_SIZE, 131072 * q);
    ModPlus(x, 0x10000, 0x10000 * q);
  }

  lemma SameDistance(pos: nat, lookaheadPos: nat, m: nat)
    requires lookaheadPos == pos % 0x1_0000_0000
    ensures (lookaheadPos - m) % 0x10000 == (pos - m) % 0x10000
  {
    assert pos - m == lookaheadPos - m + 0x10000 * (0x10000 * (pos / 0x1_0000_0000));
  }

  /** The running hash of the last two bytes. */
  predicate HashesLast(h: bv32, input: seq<Byte>)
  {
    |input| >= 2 && Hashes(h, Wide(input[|input| - 2]), Wide(input[|input| - 1]))
  }

  lemma StepLast(h: bv32, input: seq<Byte>, c: Byte)
    requires HashesLast(h, input)
    ensures HashesLast(HashStep(h, Wide(c)), input + [c])
    ensures Slot(HashStep(h, Wide(c))) == SlotAt(input + [c], |input| - 2)
  {
    hide Hashes, HashStep, HashThree, Slot;
    StepHashed(h, Wide(input[|input| - 2]), Wide(input[|input| - 1]), Wide(c));
    SlotIs(input + [c], |input| - 2);
  }

  lemma SlotIs(input: seq<Byte>, k: nat)
    requires k + 2 < |input|
    ensures SlotAt(input, k) == Slot(HashThree(Wide(input[k]), Wide(input[k + 1]), Wide(input[k + 2])))
  {
  }

  /** Positions with other hashes have other bytes. */
  lemma OtherSlot(input: seq<Byte>, pos: nat, j: nat)
    requires j < pos && SlotAt(input, j) != SlotAt(input, pos)
    ensures NoMatch(input, pos, pos - j, 3)
  {
    if pos + 3 <= |input| {
      assert input[j] != input[pos] || input[j + 1] != input[pos + 1] || input[j + 2] != input[pos + 2];
    }
  }

  lemma SeenPrefix(input: seq<Byte>, lo: nat, pos: nat, ds: seq<nat>, n: nat, c: nat)
    requires n <= |ds| && Seen(input, lo, pos, ds[..n], c)
    ensures Seen(input, lo, pos, ds, c)
  {
    hide Reachable;
    forall d | d in ds[..n] ensures d in ds { }
  }

  lemma NextInRing(size: nat)
    ensures (size % DICT_SIZE + 1) % DICT_SIZE == (size + 1) % DICT_SIZE
  {
  }

  lemma SumInRing(pos: nat, lookaheadPos: nat, size: nat)
    requires lookaheadPos == pos % 0x1_0000_0000
    ensures (lookaheadPos + size) % DICT_SIZE == (pos + size) % DICT_SIZE
  {
    assert pos + size == lookaheadPos + size + DICT_SIZE * (131072 * (pos / 0x1_0000_0000));
    ModAdd(lookaheadPos + size, 131072 * (pos / 0x1_0000_0000));
  }

  lemma NextPosition(pos: nat, lookaheadPos: nat, len: nat)
    requires lookaheadPos == pos % 0x1_0000_0000
    ensures (lookaheadPos + len) % 0x1_0000_0000 == (pos + len) % 0x1_0000_0000
  {
  }

  lemma PosInRing(pos: nat, lookaheadPos: nat)
    requires lookaheadPos == pos % 0x1_0000_0000
    ensures lookaheadPos % DICT_SIZE == pos % DICT_SIZE
  {
    assert pos == lookaheadPos + DICT_SIZE * (131072 * (pos / 0x1_0000_0000));
    ModAdd(lookaheadPos, 131072 * (pos / 0x1_0000_0000));
  }

  lemma ShorterSame(dict: seq<Byte>, s: nat, q: nat, n: nat, m: nat)
    requires SameBytes(dict, s, q, n) && m <= n
    ensures SameBytes(dict, s, q, m)
  {
  }

  lemma OneMoreByte(dict: seq<Byte>, s: nat, q: nat, n: nat, m: nat)
    requires SameBytes(dict, s, q, n) && s + n < |dict| && q + n < |dict|
    requires m == n || (m == n + 1 && dict[s + n] == dict[q + n])
    ensures SameBytes(dict, s, q, m)
  {
    if m == n + 1 {
      assert SameAt(dict, s, q, n);
    }
  }
}
