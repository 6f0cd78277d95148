/** The lazy and greedy parsing of the compressor (tdefl_compress_normal, src/http/miniz.c:2497-2613), and the
    fast greedy one (tdefl_compress_fast, src/http/miniz.c:2329-2465): one turn of the loop, and what it keeps. */
module Parsing {
  import opened Bits
  import opened Inflate
  import opened LzTokens
  import opened LzBuffer
  import opened Window

  // ---------- recorded codes and the input ----------

  /** The tokens, after the first `done` bytes, stand for the input up to `upTo`. */
  ghost predicate Covers(input: seq<Byte>, done: nat, ts: seq<Token>, upTo: nat)
  {
    done <= upTo <= |input| && Applicable(done, ts) && Expand(input[..done], ts) == input[..upTo]
  }

  /** A match put off by one step. len is 0 when there is none. */
  datatype Saved = Saved(dist: nat, len: nat, lit: Byte)

  /** The saved match, if any, is one for the byte before pos; it was too short to be taken at once. */
  ghost predicate Pending(input: seq<Byte>, pos: nat, s: Saved)
  {
    s.len > 0 ==> pos >= 1 && 3 <= s.len < 128 && s.dist <= DICT_SIZE && IsMatch(input, pos - 1, s.dist, s.len) && s.lit == input[pos - 1]
  }

  /** The input consumed so far is: what was done before, the recorded tokens, the byte of the saved
      match if there is one, and the lookahead that starts at pos. */
  ghost predicate Conserved(input: seq<Byte>, done: nat, ts: seq<Token>, pos: nat, s: Saved)
  {
    Pending(input, pos, s) && pos <= |input| && Covers(input, done, ts, if s.len > 0 then pos - 1 else pos)
  }

  /** Once the lookahead is empty, no match is pending, and the tokens stand for all of the input. */
  lemma NothingPending(input: seq<Byte>, done: nat, ts: seq<Token>, s: Saved)
    requires Conserved(input, done, ts, |input|, s)
    ensures s.len == 0 && Covers(input, done, ts, |input|)
  {
  }

  /** More input does not disturb what was parsed. */
  lemma MoreInput(input: seq<Byte>, more: seq<Byte>, done: nat, ts: seq<Token>, pos: nat, s: Saved)
    requires Conserved(input, done, ts, pos, s)
    ensures Conserved(input + more, done, ts, pos, s)
  {
    var upTo := if s.len > 0 then pos - 1 else pos;
    assert (input + more)[..done] == input[..done] && (input + more)[..upTo] == input[..upTo];
  }

  lemma {:induction false} CopiesMatch(input: seq<Byte>, k: nat, dist: nat, len: nat)
    requires IsMatch(input, k, dist, len)
    ensures CopyMatch(input[..k], dist, len) == input[..k + len]
    decreases len
  {
    if len > 0 {
      assert input[..k] + [input[..k][k - dist]] == input[..k + 1];
      CopiesMatch(input, k + 1, dist, len - 1);
    }
  }

  lemma CoversLiteral(input: seq<Byte>, done: nat, ts: seq<Token>, k: nat)
    requires Covers(input, done, ts, k) && k < |input|
    ensures Covers(input, done, ts + [Literal(input[k])], k + 1)
  {
    ExpandAppend(input[..done], ts, Literal(input[k]));
  }

  lemma CoversMatch(input: seq<Byte>, done: nat, ts: seq<Token>, k: nat, dist: nat, len: nat)
    requires Covers(input, done, ts, k) && IsMatch(input, k, dist, len) && ValidToken(Match(len, dist))
    ensures Covers(input, done, ts + [Match(len, dist)], k + len)
  {
    ExpandAppend(input[..done], ts, Match(len, dist));
    CopiesMatch(input, k, dist, len);
  }

  lemma {:induction false} ExpandedLength(out: seq<Byte>, ts: seq<Token>)
    requires Applicable(|out|, ts)
    ensures |Expand(out, ts)| == |out| + TotalLen(ts)
    decreases |ts|
  {
    if ts != [] {
      ExpandedLength(Apply(out, ts[0]), ts[1..]);
      TotalCons(ts);
    }
  }

  lemma {:induction false} TotalCons(ts: seq<Token>)
    requires ts != []
    ensures TotalLen(ts) == TokenLen(ts[0]) + TotalLen(ts[1..])
  {
    if |ts| == 1 {
      assert ts[..0] == [] && ts[1..] == [];
    } else {
      var a := ts[..|ts| - 1];
      TotalCons(a);
      assert a[1..] == ts[1..][..|ts| - 2];
    }
  }

  lemma CoveredLength(input: seq<Byte>, done: nat, ts: seq<Token>, upTo: nat)
    requires Covers(input, done, ts, upTo)
    ensures upTo == done + TotalLen(ts)
  {
    ExpandedLength(input[..done], ts);
  }

  // ---------- the parser ----------

  datatype Options = Options(greedy: bool, rle: bool, filter: bool, forceRaw: bool, forceStatic: bool, zlib: bool)

  /** The tokens that the options admit: no match in raw blocks, none but runs when asked for runs,
      none of up to 5 bytes when they are filtered, and never one of 3 bytes from 8 KiB away or more. */
  predicate Fits(o: Options, t: Token)
  {
    t.Match? ==> !o.forceRaw && (t.len == MIN_MATCH ==> t.dist < 8 * 1024) && (o.filter ==> t.len > 5) && (o.rle ==> t.dist == 1)
  }

  /** All recorded tokens are admitted, and so is the saved match; a greedy parser saves none. */
  predicate Fitting(o: Options, ts: seq<Token>, s: Saved)
  {
    (forall i :: 0 <= i < |ts| ==> Fits(o, ts[i])) && (s.len > 0 ==> Fits(o, Match(s.len, s.dist)) && !o.greedy && !o.rle)
  }

  /** Recorded tokens that went out in a block leave the saved match. */
  lemma FittingNone(o: Options, ts: seq<Token>, s: Saved)
    requires Fitting(o, ts, s)
    ensures Fitting(o, [], s)
  {
  }

  lemma FittingOn(o: Options, ts: seq<Token>, s: Saved, more: seq<Token>, s2: Saved)
    requires Fitting(o, ts, s) && Fitting(o, more, s2)
    ensures Fitting(o, ts + more, s2)
  {
  }

  /** The match the parser goes by, when (dist, len) was found: some are not worth it. */
  function Tested(o: Options, curPos: nat, dist: nat, len: nat): (r: (nat, nat))
  {
    if (len == MIN_MATCH && dist >= 8 * 1024) || curPos == dist || (o.filter && len <= 5) then (0, 0) else (dist, len)
  }

  /** What one turn does. */
  datatype Turn = Turn(tokens: seq<Token>, saved: Saved, move: nat)

  /** The turn of the lazy or greedy parser at a position with byte `lit` and match (dist, len), if dist > 0.
      A match saved at the position before is taken now, unless this one is longer: then only the byte
      before is a literal. A match that is not saved and not compared is a literal, or is taken at once
      if it is long or the parser greedy, or else saved. */
  function Decide(o: Options, s: Saved, lit: Byte, dist: nat, len: nat): (t: Turn)
  {
    if s.len > 0 && len <= s.len then Turn([Match(s.len, s.dist)], s.(len := 0), s.len - 1)
    else
      var t := DecideFresh(o, s, lit, dist, len);
      t.(tokens := (if s.len > 0 then [Literal(s.lit)] else []) + t.tokens)
  }

  function DecideFresh(o: Options, s: Saved, lit: Byte, dist: nat, len: nat): (t: Turn)
  {
    if s.len == 0 && dist == 0 then Turn([Literal(lit)], s, 1)
    else if len >= 128 || (s.len == 0 && (o.greedy || o.rle)) then Turn([Match(len, dist)], s.(len := 0), len)
    else Turn([], Saved(dist, len, lit), 1)
  }

  /** Lazy matching over two positions: a match of less than 128 bytes waits for the next position. If there is no longer
      one there, it is taken, and both turns together move past it; otherwise its first byte is a literal, and the longer
      one is taken if it has 128 bytes, or waits in its turn. */
  lemma LazyRule(o: Options, s: Saved, lit: Byte, dist: nat, len: nat, lit2: Byte, dist2: nat, len2: nat)
    requires s.len == 0 && dist > 0 && 3 <= len < 128 && !o.greedy && !o.rle
    ensures var t := Decide(o, s, lit, dist, len); t.tokens == [] && t.move == 1 && t.saved == Saved(dist, len, lit)
    ensures len2 <= len ==> var t2 := Decide(o, Saved(dist, len, lit), lit2, dist2, len2); t2.tokens == [Match(len, dist)] && 1 + t2.move == len && t2.saved.len == 0
    ensures len < len2 < 128 ==> Decide(o, Saved(dist, len, lit), lit2, dist2, len2) == Turn([Literal(lit)], Saved(dist2, len2, lit2), 1)
    ensures len2 >= 128 ==> var t2 := Decide(o, Saved(dist, len, lit), lit2, dist2, len2); t2.tokens == [Literal(lit), Match(len2, dist2)] && t2.move == len2 && t2.saved.len == 0
  {
  }

  /** With nothing pending, a byte without a match is a literal, and a match is taken at once if it has 128 bytes, or by
      a parser that is greedy or looks for runs. */
  lemma GreedyRule(o: Options, s: Saved, lit: Byte, dist: nat, len: nat)
    requires s.len == 0
    ensures dist == 0 ==> Decide(o, s, lit, dist, len) == Turn([Literal(lit)], s, 1)
    ensures dist > 0 && (len >= 128 || o.greedy || o.rle) ==> Decide(o, s, lit, dist, len) == Turn([Match(len, dist)], s, len)
  {
  }

  /** (dist, len) is a match at pos that the options admit, or there is none to compare with. */
  ghost predicate Candidate(o: Options, input: seq<Byte>, pos: nat, s: Saved, lit: Byte, dist: nat, len: nat)
  {
    && pos < |input| && lit == input[pos] && (dist == 0 ==> len <= s.len || s.len == 0)
    && (dist > 0 ==> 3 <= len <= MAX_MATCH && dist <= DICT_SIZE && IsMatch(input, pos, dist, len) && Fits(o, Match(len, dist)))
  }

  /** Whatever is decided, nothing is lost: tokens, saved byte and the rest are still the input. */
  lemma DecideConserves(o: Options, input: seq<Byte>, done: nat, ts: seq<Token>, pos: nat, s: Saved, lit: Byte, dist: nat, len: nat)
    requires Conserved(input, done, ts, pos, s) && Candidate(o, input, pos, s, lit, dist, len)
    ensures var t := Decide(o, s, lit, dist, len);
            1 <= t.move <= |input| - pos && Conserved(input, done, ts + t.tokens, pos + t.move, t.saved)
  {
    hide Conserved, Covers, IsMatch;
    var t := Decide(o, s, lit, dist, len);
    PendingBounds(input, done, ts, pos, s);
    if s.len > 0 && len <= s.len {
      SavedMatch(input, done, ts, pos, s);
    } else {
      var ts' := ts;
      if s.len > 0 {
        SavedLiteral(input, done, ts, pos, s);
        ts' := ts + [Literal(s.lit)];
      } else {
        Unsaved(input, done, ts, pos, s);
      }
      FreshConserves(o, input, done, ts', pos, s, lit, dist, len);
      assert ts + t.tokens == ts' + DecideFresh(o, s, lit, dist, len).tokens;
    }
    Moved(input, done, ts + t.tokens, pos, t.move, t.saved);
  }

  lemma FreshConserves(o: Options, input: seq<Byte>, done: nat, ts: seq<Token>, pos: nat, s: Saved, lit: Byte, dist: nat, len: nat)
    requires Covers(input, done, ts, pos) && Candidate(o, input, pos, s, lit, dist, len) && !(s.len > 0 && len <= s.len)
    ensures var t := DecideFresh(o, s, lit, dist, len);
            && pos + t.move <= |input|
            && if t.saved.len == 0 then Covers(input, done, ts + t.tokens, pos + t.move)
               else Covers(input, done, ts + t.tokens, pos) && t.move == 1 && t.saved == Saved(dist, len, lit) && len < 128
  {
    hide Covers;
    var t := DecideFresh(o, s, lit, dist, len);
    if s.len == 0 && dist == 0 {
      CoversLiteral(input, done, ts, pos);
    } else if t.saved.len == 0 {
      CoversMatch(input, done, ts, pos, dist, len);
    } else {
      assert ts + [] == ts;
    }
  }

  /** What the options do not admit is never recorded, nor saved. */
  lemma DecideFits(o: Options, input: seq<Byte>, ts: seq<Token>, pos: nat, s: Saved, lit: Byte, dist: nat, len: nat)
    requires Fitting(o, ts, s) && Candidate(o, input, pos, s, lit, dist, len)
    ensures var t := Decide(o, s, lit, dist, len); Fitting(o, ts + t.tokens, t.saved)
  {
    hide IsMatch;
    var t := Decide(o, s, lit, dist, len);
    FittingOn(o, ts, s, t.tokens, t.saved);
  }

  ghost function RingArrays(d: Dictionary): set<object> { {d.dict as object, d.hash as object, d.next as object} }

  ghost function CodeArrays(lz: LzCodes): set<object>
  {
    {lz.codeBuf as object, lz.lit.count as object, lz.lit.sizes as object, lz.lit.codes as object, lz.dist.count as object, lz.dist.sizes as object, lz.dist.codes as object}
  }

  /** The options that the fast form is for, on little-endian machines: one probe, greedy, and nothing else
      that the parser would have to look at (src/http/miniz.c:2663-2672). */
  ghost predicate UsesFast(o: Options, probes: nat)
  {
    probes % 0x1000 == 1 && o.greedy && !o.filter && !o.forceRaw && !o.rle
  }

  /** Every budget of probes is for three links, and is the least one for as many links as the flags ask for;
      a quarter of them after a long match. */
  predicate Probes(d: Dictionary, flags: nat)
  {
    && flags % 0x1000 <= 3 * (d.maxProbes - 1) < flags % 0x1000 + 3
    && flags % 0x1000 / 4 <= 3 * (d.maxProbesLong - 1) < flags % 0x1000 / 4 + 3
  }

  /** The parsing state of the compressor. */
  class Parser {
    const options: Options
    const fast: bool
    const dict: Dictionary
    const lz: LzCodes
    var savedDist: nat      // m_saved_match_dist
    var savedLen: nat       // m_saved_match_len
    var savedLit: Byte      // m_saved_lit
    ghost var done: nat     // the bytes in earlier blocks

    ghost predicate Shaped()
    {
      && dict.Shaped() && lz.Shaped() && RingArrays(dict) !! CodeArrays(lz)
      && dict.maxLookahead == (if fast then FAST_LOOKAHEAD else MAX_MATCH) && (fast ==> options.greedy && !options.filter && !options.forceRaw && !options.rle)
    }

    ghost function Pend(): Saved
      reads this
    {
      Saved(savedDist, savedLen, savedLit)
    }

    ghost predicate Valid()
      reads this, dict, dict.dict, dict.hash, dict.next, lz, lz.codeBuf, lz.lit.count, lz.dist.count
    {
      && Shaped() && dict.Valid() && lz.Valid()
      && Conserved(dict.input, done, lz.tokens, dict.Pos(), Pend()) && Fitting(options, lz.tokens, Pend())
    }

    constructor (options: Options, probes: nat)
      ensures Valid() && this.options == options && fast == UsesFast(options, probes) && dict.input == [] && done == 0 && lz.tokens == [] && lz.codePos == 1 && savedLen == 0
      ensures dict.lookaheadSize == 0 && Probes(dict, probes)
      ensures fresh(dict) && fresh(dict.dict) && fresh(dict.hash) && fresh(dict.next) && fresh(lz) && fresh(lz.codeBuf)
      ensures fresh(lz.lit.count) && fresh(lz.lit.sizes) && fresh(lz.lit.codes) && fresh(lz.dist.count) && fresh(lz.dist.sizes) && fresh(lz.dist.codes)
    {
      hide Dictionary.Linked, InRing, Stored, Counted, TotalLen;
      var isFast := probes % 0x1000 == 1 && options.greedy && !(options.filter || options.forceRaw || options.rle);
      this.options, fast := options, isFast;
      dict := new Dictionary(probes, isFast);
      lz := new LzCodes();
      savedDist, savedLen, savedLit, done := 0, 0, 0, 0;
      new;
      assert Covers([], 0, [], 0);
    }

    /** More input; what was parsed stays. */
    method Fill(src: seq<Byte>, srcPos0: nat) returns (srcPos: nat)
      requires Valid() && srcPos0 <= |src|
      modifies dict, dict.dict, dict.hash, dict.next
      ensures Valid() && srcPos0 <= srcPos <= |src| && dict.input == old(dict.input) + src[srcPos0..srcPos]
      ensures dict.lookaheadSize == old(dict.lookaheadSize) + (srcPos - srcPos0) && (dict.lookaheadSize == dict.maxLookahead || srcPos == |src|)
      ensures done <= |old(dict.input)|
    {
      hide Dictionary.Linked, InRing, Conserved, Stored, Counted, Fitting;
      DoneBound(dict.input, done, lz.tokens, dict.Pos(), Pend());
      ghost var input, pos := dict.input, dict.Pos();
      if fast {
        srcPos := dict.FillAhead(src, srcPos0);
      } else {
        srcPos := dict.Fill(src, srcPos0);
      }
      MoreInput(input, src[srcPos0..srcPos], done, lz.tokens, pos, Pend());
    }

    /** Matches reach back no further than here from now on. */
    method Forget()
      requires Valid() && dict.lookaheadSize == 0
      modifies dict, dict.hash, dict.next
      ensures Valid() && dict.input == old(dict.input) && dict.dictSize == 0 && dict.lookaheadSize == 0
    {
      hide Dictionary.Linked, InRing, Conserved, Stored, Counted;
      dict.Forget();
    }

    /** A run of the byte before the lookahead (src/http/miniz.c:2550-2552). */
    method FindRun(curPos: nat) returns (dist: nat, len: nat)
      requires dict.Valid() && dict.maxLookahead == MAX_MATCH && dict.dictSize > 0 && curPos == dict.Pos() % DICT_SIZE
      ensures dist == 0 ==> len == 0
      ensures dist > 0 ==> dist == 1 && 3 <= len <= dict.lookaheadSize && IsMatch(dict.input, dict.Pos(), dist, len)
      ensures NoMatch(dict.input, dict.Pos(), 1, if dist == 0 then 3 else len + 1)
    {
      hide Dictionary.Linked, InRing, NoMatch;
      ghost var pos, input := dict.Pos(), dict.input;
      ghost var lo := pos - dict.dictSize;
      PreviousInRing(pos, curPos);
      RingRead(dict.dict[..], input, lo, |input|, pos - 1, 0);
      var c := dict.dict[(curPos + DICT_SIZE - 1) % DICT_SIZE];
      len := 0;
      while len < dict.lookaheadSize
        invariant len <= dict.lookaheadSize && forall i :: pos <= i < pos + len ==> input[i] == c
        invariant c == input[pos - 1]
      {
        RingRead(dict.dict[..], input, lo, |input|, pos, len);
        if dict.dict[curPos + len] != c {
          RunEnds(input, pos, len, c);
          break;
        }
        len := len + 1;
      }
      if len == dict.lookaheadSize { NoneBeyond(input, pos, 1, len + 1); }
      if len < MIN_MATCH { NoMatchMono(input, pos, 1, len + 1, 3); }
      if len < MIN_MATCH { return 0, 0; }
      dist := 1;
    }

    /** The match that was found, whether or not it passes the parser's tests: along the hash chain, or as
        a run, or none at all. There was nothing longer in the window, if the probes did not run out. */
    ghost predicate Found(dist: nat, len: nat, ps: seq<nat>, ds: seq<nat>)
      requires dict.Shaped() && dict.Placed()
      reads this, dict, dict.next
    {
      if options.forceRaw then dist == 0
      else if options.rle then
        if dist == 0 then dict.dictSize == 0 || NoMatch(dict.input, dict.Pos(), 1, 3) else dist == 1 && NoMatch(dict.input, dict.Pos(), 1, len + 1)
      else
        && dict.Walk(dict.Pos() % DICT_SIZE, ps, ds)
        && (len >= dict.lookaheadSize || (dict.NoneLonger(ds, len) && (dict.Exhausted(len) || OutOfProbes(ps))))
    }

    /** As many links were followed as the options ask for, less for a long saved match. */
    predicate OutOfProbes(ps: seq<nat>)
      reads this
    {
      |ps| + 1 >= if savedLen >= 32 then dict.maxProbesLong else dict.maxProbes
    }

    /** The current match, if any, after the parser's tests (src/http/miniz.c:2545-2562). */
    method CurrentMatch(curPos: nat) returns (dist: nat, len: nat, ghost found: (nat, nat), ghost ps: seq<nat>, ghost ds: seq<nat>)
      requires Valid() && !fast && dict.lookaheadSize >= 1 && curPos == dict.Pos() % DICT_SIZE
      ensures dist > 0 ==> 3 <= len <= dict.lookaheadSize && dist <= dict.dictSize && IsMatch(dict.input, dict.Pos(), dist, len) && Fits(options, Match(len, dist))
      ensures dist == 0 ==> len <= savedLen || savedLen == 0
      ensures (dist, len) == Tested(options, curPos, found.0, found.1) && Found(found.0, found.1, ps, ds)
    {
      hide Dictionary.Linked, Conserved, Covers, InRing, IsMatch, Fitting, NoMatch, Dictionary.Walk, Dictionary.NoneLonger, Dictionary.Exhausted, Stored, Counted, TotalLen;
      PendingBounds(dict.input, done, lz.tokens, dict.Pos(), Pend());
      dist, len := 0, if savedLen > 0 then savedLen else MIN_MATCH - 1;
      ps, ds := [], [];
      if options.rle || options.forceRaw {
        if dict.dictSize > 0 && !options.forceRaw {
          dist, len := FindRun(curPos);
        }
      } else {
        dist, len, ps, ds := dict.FindMatch(dist, len);
      }
      found := (dist, len);
      if (len == MIN_MATCH && dist >= 8 * 1024) || curPos == dist || (options.filter && len <= 5) {
        dist, len := 0, 0;
      }
    }

    /** The current match as CurrentMatch reports it, with the byte at the lookahead. */
    ghost predicate Current(lit: Byte, dist: nat, len: nat)
      requires dict.Placed()
      reads this, dict
    {
      dict.lookaheadSize >= 1 && Candidate(options, dict.input, dict.Pos(), Pend(), lit, dist, len)
    }

    /** With a saved match (src/http/miniz.c:2563-2583). */
    method ResumeSaved(lit: Byte, dist: nat, len: nat) returns (lenToMove: nat)
      requires Valid() && lz.codePos <= LZ_CODE_BUF_SIZE - 8 && savedLen > 0 && Current(lit, dist, len)
      modifies this, lz, lz.codeBuf, lz.lit.count, lz.dist.count
      ensures Shaped() && dict.Valid() && lz.Valid() && done == old(done) && old(lz.codePos) <= lz.codePos <= old(lz.codePos) + 6
      ensures var t := Decide(options, old(Pend()), lit, dist, len); lz.tokens == old(lz.tokens) + t.tokens && Pend() == t.saved && lenToMove == t.move
    {
      hide Dictionary.Linked, Conserved, Covers, InRing, IsMatch, Stored, Counted, TotalLen, Fitting, Fits;
      PendingBounds(dict.input, done, lz.tokens, dict.Pos(), Pend());
      lenToMove := 1;
      if len > savedLen {
        lz.RecordLiteral(savedLit);
        if len >= 128 {
          lz.RecordMatch(len, dist);
          savedLen := 0;
          lenToMove := len;
        } else {
          savedLit, savedDist, savedLen := lit, dist, len;
        }
      } else {
        lz.RecordMatch(savedLen, savedDist);
        lenToMove := savedLen - 1;
        savedLen := 0;
      }
    }

    /** Without one (src/http/miniz.c:2584-2594). */
    method StepFresh(lit: Byte, dist: nat, len: nat) returns (lenToMove: nat)
      requires Valid() && lz.codePos <= LZ_CODE_BUF_SIZE - 8 && savedLen == 0 && Current(lit, dist, len)
      modifies this, lz, lz.codeBuf, lz.lit.count, lz.dist.count
      ensures Shaped() && dict.Valid() && lz.Valid() && done == old(done) && old(lz.codePos) <= lz.codePos <= old(lz.codePos) + 6
      ensures var t := Decide(options, old(Pend()), lit, dist, len); lz.tokens == old(lz.tokens) + t.tokens && Pend() == t.saved && lenToMove == t.move
    {
      hide Dictionary.Linked, Conserved, Covers, InRing, IsMatch, Stored, Counted, TotalLen, Fitting, Fits;
      lenToMove := 1;
      if dist == 0 {
        lz.RecordLiteral(lit);
      } else if options.greedy || options.rle || len >= 128 {
        lz.RecordMatch(len, dist);
        lenToMove := len;
      } else {
        savedLit, savedDist, savedLen := lit, dist, len;
      }
    }

    /** One turn of the lazy or greedy state machine, on one position (src/http/miniz.c:2545-2599): the longest
        match along the chain is looked for and tested, and what Decide says of it is done. */
    method Step() returns (ghost dist: nat, ghost len: nat, ghost found: (nat, nat), ghost ps: seq<nat>, ghost ds: seq<nat>)
      requires Valid() && !fast && lz.codePos <= LZ_CODE_BUF_SIZE - 8 && dict.lookaheadSize >= 1
      modifies this, dict, lz, lz.codeBuf, lz.lit.count, lz.dist.count
      ensures Valid() && dict.input == old(dict.input) && done == old(done)
      ensures dict.lookaheadSize < old(dict.lookaheadSize) && old(lz.codePos) <= lz.codePos <= old(lz.codePos) + 6
      ensures old(dict.Valid() && Found(found.0, found.1, ps, ds)) && (dist, len) == Tested(options, old(dict.Pos()) % DICT_SIZE, found.0, found.1)
      ensures var t := Decide(options, old(Pend()), dict.input[old(dict.Pos())], dist, len);
              lz.tokens == old(lz.tokens) + t.tokens && Pend() == t.saved && dict.Pos() == old(dict.Pos()) + t.move
    {
      hide Dictionary.Linked, Conserved, Covers, InRing, IsMatch, Stored, Counted, TotalLen, Fitting, Fits, Found, Decide;
      var curPos := dict.lookaheadPos % DICT_SIZE;
      PosInRing(dict.Pos(), dict.lookaheadPos);
      var lit := dict.dict[curPos];
      RingRead(dict.dict[..], dict.input, dict.Pos() - dict.dictSize, |dict.input|, dict.Pos(), 0);
      var curDist, curLen;
      curDist, curLen, found, ps, ds := CurrentMatch(curPos);
      dist, len := curDist, curLen;
      DecideConserves(options, dict.input, done, lz.tokens, dict.Pos(), Pend(), lit, curDist, curLen);
      DecideFits(options, dict.input, lz.tokens, dict.Pos(), Pend(), lit, curDist, curLen);
      var lenToMove;
      if savedLen > 0 {
        lenToMove := ResumeSaved(lit, curDist, curLen);
      } else {
        lenToMove := StepFresh(lit, curDist, curLen);
      }
      dict.Advance(lenToMove);
    }

    /** One turn of the fast form while four bytes are there (src/http/miniz.c:2360-2420): the match that the hash table
        leads to, if it is worth it, or else a literal. */
    method FastStep() returns (ghost dist: nat, ghost len: nat)
      requires Valid() && fast && lz.codePos <= LZ_CODE_BUF_SIZE - 8 && dict.lookaheadSize >= 4
      modifies dict, dict.hash, lz, lz.codeBuf, lz.lit.count, lz.dist.count
      ensures Valid() && dict.input == old(dict.input) && dict.Pos() == old(dict.Pos()) + len
      ensures dict.lookaheadSize < old(dict.lookaheadSize) && old(lz.codePos) <= lz.codePos <= old(lz.codePos) + 6
      ensures len > 1 ==> lz.tokens == old(lz.tokens) + [Match(len, dist)] && IsMatch(dict.input, old(dict.Pos()), dist, len)
      ensures 1 < len < Min(MAX_MATCH, old(dict.lookaheadSize)) ==> NoMatch(dict.input, old(dict.Pos()), dist, len + 1)
      ensures len == 1 ==> lz.tokens == old(lz.tokens) + [Literal(dict.input[old(dict.Pos())])]
      ensures len == 1 ==> dist == 0 || dist > old(dict.dictSize) || NoMatch(dict.input, old(dict.Pos()), dist, if dist >= 8 * 1024 then 4 else 3)
    {
      hide Dictionary.Linked, Conserved, Covers, InRing, IsMatch, NoMatch, Stored, Counted, TotalLen, Fitting, Fits, RingArrays, FastHash;
      var curPos := dict.lookaheadPos % DICT_SIZE;
      PosInRing(dict.Pos(), dict.lookaheadPos);
      RingRead(dict.dict[..], dict.input, dict.Pos() - dict.dictSize, |dict.input|, dict.Pos(), 0);
      GreedySavesNone(options, lz.tokens, Pend());
      Unsaved(dict.input, done, lz.tokens, dict.Pos(), Pend());
      ghost var input, pos, ts := dict.input, dict.Pos(), lz.tokens;
      assert dict.hash as object in RingArrays(dict) by { RingMembers(dict); }
      var d, n := dict.FastMatch(curPos);
      dist, len := d, n;
      FastConserves(options, input, done, ts, pos, Pend(), d, n);
      if n > 1 {
        lz.RecordMatch(n, d);
      } else {
        lz.RecordLiteral(dict.dict[curPos]);
      }
      dict.Advance(n);
    }

    /** The last bytes are literals (src/http/miniz.c:2433-2447). */
    method LiteralStep()
      requires Valid() && fast && lz.codePos <= LZ_CODE_BUF_SIZE - 8 && dict.lookaheadSize >= 1
      modifies dict, lz, lz.codeBuf, lz.lit.count, lz.dist.count
      ensures Valid() && dict.input == old(dict.input) && dict.Pos() == old(dict.Pos()) + 1
      ensures dict.lookaheadSize < old(dict.lookaheadSize) && old(lz.codePos) <= lz.codePos <= old(lz.codePos) + 6
      ensures lz.tokens == old(lz.tokens) + [Literal(dict.input[old(dict.Pos())])]
    {
      hide Dictionary.Linked, Conserved, Covers, InRing, Stored, Counted, TotalLen, Fitting, Fits;
      var curPos := dict.lookaheadPos % DICT_SIZE;
      PosInRing(dict.Pos(), dict.lookaheadPos);
      RingRead(dict.dict[..], dict.input, dict.Pos() - dict.dictSize, |dict.input|, dict.Pos(), 0);
      GreedySavesNone(options, lz.tokens, Pend());
      Unsaved(dict.input, done, lz.tokens, dict.Pos(), Pend());
      ghost var input, pos, ts := dict.input, dict.Pos(), lz.tokens;
      lz.RecordLiteral(dict.dict[curPos]);
      CoversLiteral(input, done, ts, pos);
      FastFits(options, ts, Pend(), Literal(input[pos]));
      Moved(input, done, lz.tokens, pos, 1, Pend());
      dict.Advance(1);
    }
  }

  lemma RingMembers(d: Dictionary)
    ensures d.dict as object in RingArrays(d) && d.hash as object in RingArrays(d) && d.next as object in RingArrays(d)
  {
  }

  lemma GreedySavesNone(o: Options, ts: seq<Token>, s: Saved)
    requires Fitting(o, ts, s) && o.greedy
    ensures s.len == 0
  {
  }

  /** A match, or a byte, more. */
  lemma FastConserves(o: Options, input: seq<Byte>, done: nat, ts: seq<Token>, pos: nat, s: Saved, dist: nat, len: nat)
    requires Fitting(o, ts, s) && o.greedy && !o.filter && !o.forceRaw && !o.rle && s.len == 0 && Covers(input, done, ts, pos) && pos < |input|
    requires len == 1 || (ValidToken(Match(len, dist)) && IsMatch(input, pos, dist, len) && (len == 3 ==> dist < 8 * 1024))
    ensures var t := if len > 1 then Match(len, dist) else Literal(input[pos]);
            pos + len <= |input| && Conserved(input, done, ts + [t], pos + len, s) && Fitting(o, ts + [t], s)
  {
    hide Conserved, Covers, Fitting, Fits;
    if len > 1 {
      CoversMatch(input, done, ts, pos, dist, len);
      FastFits(o, ts, s, Match(len, dist));
    } else {
      CoversLiteral(input, done, ts, pos);
      FastFits(o, ts, s, Literal(input[pos]));
    }
    Moved(input, done, ts + [if len > 1 then Match(len, dist) else Literal(input[pos])], pos, len, s);
  }

  lemma FastFits(o: Options, ts: seq<Token>, s: Saved, t: Token)
    requires Fitting(o, ts, s) && o.greedy && !o.filter && !o.forceRaw && !o.rle && (t.Match? && t.len == 3 ==> t.dist < 8 * 1024)
    ensures Fitting(o, ts + [t], s)
  {
  }

  // ---------- the steps, on values ----------

  lemma PendingBounds(input: seq<Byte>, done: nat, ts: seq<Token>, pos: nat, s: Saved)
    requires Conserved(input, done, ts, pos, s)
    ensures s.len > 0 ==> 3 <= s.len < 128 && 1 <= s.dist <= DICT_SIZE && pos - 1 + s.len <= |input|
    ensures pos <= |input|
  {
  }

  lemma DoneBound(input: seq<Byte>, done: nat, ts: seq<Token>, pos: nat, s: Saved)
    requires Conserved(input, done, ts, pos, s)
    ensures done <= |input|
  {
  }

  lemma NoneBeyond(input: seq<Byte>, pos: nat, dist: nat, len: nat)
    requires pos + len > |input|
    ensures NoMatch(input, pos, dist, len)
  {
  }

  lemma RunEnds(input: seq<Byte>, pos: nat, len: nat, c: Byte)
    requires 1 <= pos && pos + len < |input| && input[pos + len] != c
    requires input[pos - 1] == c && forall i :: pos <= i < pos + len ==> input[i] == c
    ensures NoMatch(input, pos, 1, len + 1)
  {
    assert input[pos + len] != input[pos + len - 1];
  }

  lemma PreviousInRing(pos: nat, curPos: nat)
    requires curPos == pos % DICT_SIZE && pos >= 1
    ensures (curPos + DICT_SIZE - 1) % DICT_SIZE == (pos - 1) % DICT_SIZE
  {
  }

  lemma Unsaved(input: seq<Byte>, done: nat, ts: seq<Token>, pos: nat, s: Saved)
    requires Conserved(input, done, ts, pos, s) && s.len == 0
    ensures Covers(input, done, ts, pos)
  {
  }

  lemma SavedLiteral(input: seq<Byte>, done: nat, ts: seq<Token>, pos: nat, s: Saved)
    requires Conserved(input, done, ts, pos, s) && s.len > 0
    ensures Covers(input, done, ts + [Literal(s.lit)], pos)
  {
    CoversLiteral(input, done, ts, pos - 1);
  }

  lemma SavedMatch(input: seq<Byte>, done: nat, ts: seq<Token>, pos: nat, s: Saved)
    requires Conserved(input, done, ts, pos, s) && s.len > 0
    ensures ValidToken(Match(s.len, s.dist)) && Covers(input, done, ts + [Match(s.len, s.dist)], pos + s.len - 1)
  {
    CoversMatch(input, done, ts, pos - 1, s.dist, s.len);
  }

  /** After a step: either all tokens are recorded, or a match at pos is put off by one. */
  lemma Moved(input: seq<Byte>, done: nat, ts: seq<Token>, pos: nat, step: nat, s: Saved)
    requires s.len == 0 ==> Covers(input, done, ts, pos + step)
    requires s.len > 0 ==> step == 1 && Covers(input, done, ts, pos) && pos < |input| && s.lit == input[pos]
    requires s.len > 0 ==> 3 <= s.len < 128 && s.dist <= DICT_SIZE && IsMatch(input, pos, s.dist, s.len)
    ensures Conserved(input, done, ts, pos + step, s)
  {
  }
}
