/** Reading bits and Huffman symbols from input that comes in pieces: TINFL_GET_BYTE, TINFL_NEED_BITS,
    TINFL_GET_BITS, TINFL_HUFF_BITBUF_FILL and TINFL_HUFF_DECODE (src/http/miniz.c:1369-1426). */
module TinflReader {
  import opened Bits
  import opened CanonicalCode
  import opened Inflate
  import opened Covering
  import opened TinflTable

  const MAX_PENDING := 61   // bits in the register at any time

  // ---------- the register, on values ----------

  /** The register holds the bits of the stream up to bit `end`. */
  ghost predicate Register(bits: seq<bool>, bitBuf: nat, numBits: nat, end: nat)
  {
    numBits <= end <= |bits| && bitBuf < Pow2(numBits) && ToBits(bitBuf, numBits) == bits[end - numBits..end]
  }

  /** One byte more above the bits that are there. */
  lemma RegisterByte(bits: seq<bool>, bitBuf: nat, numBits: nat, end: nat, c: Byte)
    requires Register(bits, bitBuf, numBits, end) && end + 8 <= |bits| && bits[end..end + 8] == ToBits(c, 8)
    ensures c * Pow2(numBits) >= 0 && Register(bits, bitBuf + c * Pow2(numBits), numBits + 8, end + 8)
  {
    hide ToBits, Pow2;
    ToBitsAppend(bitBuf, numBits, c, 8);
    ByteBelow(c);
    ShiftedSum(bitBuf, numBits, c);
    assert bits[end - numBits..end + 8] == bits[end - numBits..end] + bits[end..end + 8];
  }

  lemma ByteBelow(c: Byte)
    ensures c < Pow2(8)
  {
    Pow2Values();
  }

  lemma ShiftedSum(v: nat, n: nat, c: nat)
    requires v < Pow2(n) && c < Pow2(8)
    ensures 0 <= c * Pow2(n) && v + c * Pow2(n) < Pow2(n + 8)
  {
    hide Pow2;
    Pow2Add(n, 8);
    SumBelow(v, Pow2(n), c, Pow2(8));
  }

  lemma SumBelow(v: nat, p: nat, w: nat, q: nat)
    requires v < p && w < q
    ensures 0 <= w * p && v + w * p < p * q
  {
    var k := q - w - 1;
    assert p * q == w * p + p + k * p;
  }

  /** Taking the n lowest bits. */
  lemma RegisterTake(bits: seq<bool>, bitBuf: nat, numBits: nat, end: nat, n: nat)
    requires Register(bits, bitBuf, numBits, end) && n <= numBits
    ensures Register(bits, Shr(bitBuf, n), numBits - n, end)
    ensures var pos := end - numBits; Mask(bitBuf, n) == FromBits(bits[pos..pos + n])
  {
    hide ToBits, Pow2, FromBits, Mask, Shr;
    var pos := end - numBits;
    ToBitsSplit(bitBuf, n, numBits - n);
    var low, high := ToBits(Mask(bitBuf, n), n), ToBits(Shr(bitBuf, n), numBits - n);
    var all := bits[pos..end];
    assert all[..n] == low && all[..n] == bits[pos..pos + n];
    assert all[n..] == high && all[n..] == bits[pos + n..end];
    MaskBelow(bitBuf, n);
    FromToBits(Mask(bitBuf, n), n);
    ShrBelow(bitBuf, n, numBits);
  }

  lemma MaskBelow(v: nat, n: nat)
    ensures Mask(v, n) < Pow2(n)
  {
  }

  lemma ShrBelow(v: nat, n: nat, m: nat)
    requires n <= m && v < Pow2(m)
    ensures Shr(v, n) < Pow2(m - n)
  {
    hide Pow2;
    assert v < Pow2(m - n + n);
    ShrBound(v, n, m - n);
  }

  /** A codeword that is wholly in the register is what its low bits start with. */
  lemma CodewordInRegister(bits: seq<bool>, bitBuf: nat, numBits: nat, end: nat, c: seq<bool>)
    requires Register(bits, bitBuf, numBits, end) && |c| <= numBits && |c| <= 15 && At(bits, end - numBits, c)
    ensures c <= ToBits(bitBuf, 15)
  {
    hide ToBits, Pow2;
    var pos := end - numBits;
    LowBits(bitBuf, |c|, numBits - |c|);
    LowBits(bitBuf, |c|, 15 - |c|);
    assert ToBits(bitBuf, numBits)[..|c|] == bits[pos..end][..|c|];
    assert bits[pos..end][..|c|] == bits[pos..pos + |c|];
  }

  lemma LowBits(v: nat, a: nat, b: nat)
    ensures ToBits(v, a + b)[..a] == ToBits(v, a)
  {
    hide ToBits;
    ToBitsSplit(v, a, b);
    ToBitsLow(v, a);
  }

  lemma {:induction false} ByteBits(full: seq<Byte>, i: nat)
    requires i < |full|
    ensures |BytesToBits(full)| == 8 * |full| && BytesToBits(full)[8 * i..8 * i + 8] == ToBits(full[i], 8)
  {
    hide ToBits;
    var b := BytesToBits(full);
    if i == 0 {
      assert b[..8] == ToBits(full[0], 8);
    } else {
      ByteBits(full[1..], i - 1);
      assert b[8..] == BytesToBits(full[1..]);
      assert b[8 * i..8 * i + 8] == b[8..][8 * (i - 1)..8 * (i - 1) + 8];
    }
  }

  // ---------- the reader ----------

  /** The pieces of input that a call works on. `full` is the whole stream, of which the caller gives one
      piece after the other; `read` counts its bytes that went into the register or past it. */
  class BitReader {
    var inBuf: seq<Byte>     // pIn_buf_next .. pIn_buf_end
    var inPos: nat           // pIn_buf_cur
    var bitBuf: nat          // 64 bits wide
    var numBits: nat
    var filling: bool        // suspended within TINFL_HUFF_BITBUF_FILL
    ghost const full: seq<Byte>
    ghost const bits: seq<bool>
    ghost var read: nat
    ghost var base: nat      // `read` at the start of the call

    ghost predicate Valid()
      reads this
    {
      && bits == BytesToBits(full) && inPos <= |inBuf| && read == base + inPos && read + (|inBuf| - inPos) <= |full| && inBuf[inPos..] == full[read..read + (|inBuf| - inPos)]
      && numBits <= MAX_PENDING && numBits <= 8 * read <= |bits| && Register(bits, bitBuf, numBits, 8 * read)
    }

    /** The next bit of the stream. */
    ghost function Pos(): nat
      requires numBits <= 8 * read
      reads this
    {
      8 * read - numBits
    }

    lemma Sound()
      requires Valid()
      ensures numBits <= 8 * read <= |bits| && |bits| == 8 * |full| && numBits <= MAX_PENDING && inPos <= |inBuf| && read + (|inBuf| - inPos) <= |full| && read == base + inPos
    {
      hide Register;
      LengthInBits(full);
    }

    constructor (ghost full: seq<Byte>)
      ensures Valid() && Pos() == 0 && this.full == full && inPos == |inBuf| && !filling && read == 0
    {
      inBuf, inPos, bitBuf, numBits, filling := [], 0, 0, 0, false;
      this.full, this.bits, this.read, this.base := full, BytesToBits(full), 0, 0;
      new;
      StartRegister(bits);
    }

    /** A new call brings the next piece, or the rest of the last one with more. */
    method Feed(chunk: seq<Byte>)
      requires Valid() && read + |chunk| <= |full| && chunk == full[read..read + |chunk|]
      modifies `inBuf, `inPos, `base
      ensures Valid() && Pos() == old(Pos()) && inBuf == chunk && inPos == 0 && base == read
    {
      inBuf, inPos, base := chunk, 0, read;
    }

    /** The byte that the input is at, into the register. */
    method PullByte()
      requires Valid() && inPos < |inBuf| && numBits + 8 <= MAX_PENDING
      modifies `inPos, `bitBuf, `numBits, `read
      ensures Valid() && Pos() == old(Pos()) && numBits == old(numBits) + 8 && inPos == old(inPos) + 1 && read == old(read) + 1
    {
      hide Register, ToBits, Pow2, BytesToBits;
      LengthInBits(full);
      var c := inBuf[inPos];
      assert c == full[read] by { assert inBuf[inPos..][0] == c; }
      PullRegister(full, bits, bitBuf, numBits, read);
      bitBuf := bitBuf + c * Pow2(numBits);
      numBits := numBits + 8;
      inPos := inPos + 1;
      read := read + 1;
      assert inBuf[inPos..] == inBuf[inPos - 1..][1..];
    }

    /** TINFL_NEED_BITS. */
    method NeedBits(n: nat) returns (ok: bool)
      requires Valid() && n <= 32
      modifies `inPos, `bitBuf, `numBits, `read
      ensures Valid() && Pos() == old(Pos()) && read >= old(read)
      ensures ok ==> numBits >= n
      ensures !ok ==> numBits < n && inPos == |inBuf|
      ensures old(numBits) >= n ==> ok && numBits == old(numBits) && read == old(read)
    {
      hide Register;
      while numBits < n
        invariant Valid() && Pos() == old(Pos()) && read >= old(read) && (old(numBits) >= n ==> numBits == old(numBits) && read == old(read))
        decreases n - numBits
      {
        if inPos >= |inBuf| { return false; }
        PullByte();
      }
      ok := true;
    }

    /** n bits off the register. */
    method TakeBits(n: nat) returns (v: nat)
      requires Valid() && n <= numBits
      modifies `bitBuf, `numBits
      ensures Valid() && Pos() == old(Pos()) + n && Pos() <= |bits| && v == FromBits(bits[old(Pos())..old(Pos()) + n]) && numBits == old(numBits) - n
      ensures v < Pow2(n)
    {
      hide ToBits, Pow2, FromBits, Mask, Shr, Register, BytesToBits;
      RegisterTake(bits, bitBuf, numBits, 8 * read, n);
      MaskBelow(bitBuf, n);
      v := Mask(bitBuf, n);
      bitBuf, numBits := Shr(bitBuf, n), numBits - n;
    }

    /** TINFL_GET_BITS. Out of input, nothing is taken: the same call can be made again later. */
    method GetBits(n: nat) returns (ok: bool, v: nat)
      requires Valid() && n <= 16
      modifies `inPos, `bitBuf, `numBits, `read
      ensures Valid() && read >= old(read)
      ensures ok ==> Pos() == old(Pos()) + n && Pos() <= |bits| && v == FromBits(bits[old(Pos())..old(Pos()) + n]) && v < Pow2(n)
      ensures !ok ==> Pos() == old(Pos()) && inPos == |inBuf| && numBits < n
      ensures old(numBits) >= n ==> ok && numBits == old(numBits) - n && read == old(read)
    {
      hide FromBits, Register, Pow2;
      v := 0;
      ok := NeedBits(n);
      if ok { v := TakeBits(n); }
    }

    /** TINFL_GET_BYTE with an empty register, when there is input: the byte does not go through it. */
    method GetByte() returns (c: Byte)
      requires Valid() && numBits == 0 && inPos < |inBuf|
      modifies `inPos, `bitBuf, `numBits, `read
      ensures Valid() && Pos() == old(Pos()) + 8 && Pos() <= |bits| && numBits == 0 && c == FromBits(bits[old(Pos())..old(Pos()) + 8])
      ensures inPos == old(inPos) + 1 && read == old(read) + 1
    {
      hide FromBits, Register, BytesToBits, Pow2;
      PullByte();
      assert Pow2(8) == 256 by { Pow2Values(); }
      c := TakeBits(8);
    }

    /** Four bytes at once. */
    method PullWord()
      requires Valid() && inPos + 4 <= |inBuf| && numBits < 30
      modifies `inPos, `bitBuf, `numBits, `read
      ensures Valid() && Pos() == old(Pos()) && numBits == old(numBits) + 32
    {
      hide Register, BytesToBits;
      PullByte();
      PullByte();
      PullByte();
      PullByte();
    }

    /** The symbol that the reference decoder finds at the current position. */
    ghost predicate Next(S: seq<nat>, s: nat)
      requires numBits <= 8 * read
      reads this
    {
      Fits(S, 15) && s < |S| && S[s] > 0 && At(bits, Pos(), Codeword(S, s))
    }

    /** The test in TINFL_HUFF_BITBUF_FILL: do the bits that are there hold a whole code? The bits that are
        missing are taken for zeros, but that misleads nobody. */
    method Decodable(t: Table, ghost S: seq<nat>, ghost paths: seq<seq<bool>>, ghost s: nat) returns (yes: bool)
      requires Valid() && t.Holds(S, |S|, paths) && Next(S, s)
      ensures yes <==> S[s] <= numBits
    {
      hide Register, Codeword, ToBits, Trie, Refers, Fits, Shr, Pow2, BytesToBits;
      ghost var c := Codeword(S, s);
      TrieSizes(S, t.lookUp[..], t.tree[..], paths);
      var x := bitBuf % LOOKUP_SIZE;
      var temp := t.lookUp[x];
      WholeInTable(S, t.lookUp[..], t.tree[..], paths, bits, bitBuf, numBits, 8 * read, s);
      if temp >= 0 {
        var codeLen := temp / 512;
        return codeLen != 0 && numBits >= codeLen;
      }
      if numBits <= LOOKUP_BITS { return false; }
      var codeLen, more := LOOKUP_BITS, true;
      while more
        invariant more ==> LOOKUP_BITS <= codeLen < S[s] && codeLen < numBits && Refers(paths, temp, c[..codeLen])
        invariant !more ==> (temp >= 0 <==> S[s] <= numBits)
        decreases S[s] - codeLen, if more then 1 else 0
      {
        ghost var j := RefersUnique(paths, temp, c[..codeLen]);
        RegisterBit(bits, bitBuf, numBits, 8 * read, c, codeLen);
        var slot := -temp - 1 + Shr(bitBuf, codeLen) % 2;
        SlotIs(paths, j, slot, c, codeLen);
        temp := t.tree[slot];
        codeLen := codeLen + 1;
        if codeLen == S[s] {
          assert c[..codeLen] == c;
          SlotLeaf(S, t.lookUp[..], t.tree[..], paths, slot, s);
        } else {
          OnTheWay(S, t.lookUp[..], t.tree[..], paths, s, codeLen);
          SlotNode(S, t.lookUp[..], t.tree[..], paths, slot);
          RefersNegative(paths, temp, c[..codeLen]);
        }
        more := temp < 0 && numBits >= codeLen + 1;
      }
      yes := temp >= 0;
    }

    /** TINFL_HUFF_BITBUF_FILL: just enough bytes for the next code. If it has to wait for input, there is
        more to come. */
    method FillHuff(t: Table, ghost S: seq<nat>, ghost paths: seq<seq<bool>>, ghost s: nat) returns (ok: bool)
      requires numBits < 15 && Valid() && t.Holds(S, |S|, paths) && Next(S, s)
      modifies `inPos, `bitBuf, `numBits, `read
      ensures Valid() && Pos() == old(Pos()) && read >= old(read)
      ensures ok ==> S[s] <= numBits
      ensures !ok ==> inPos == |inBuf| && read < |full| && numBits < S[s]
    {
      hide Register, Codeword, Trie, Fits, BytesToBits;
      LongestCode(S, s);
      LengthInBits(full);
      while true
        invariant Valid() && Pos() == old(Pos()) && read >= old(read) && t.Holds(S, |S|, paths) && Next(S, s) && numBits < 15
        decreases MAX_PENDING - numBits
      {
        var yes := Decodable(t, S, paths, s);
        if yes { break; }
        if inPos >= |inBuf| { return false; }
        PullByte();
        if numBits >= 15 { break; }
      }
      ok := true;
    }

    /** TINFL_HUFF_DECODE: the symbol of the reference decoder. When it was suspended it goes on filling byte
        by byte. */
    method HuffDecode(t: Table, ghost S: seq<nat>, ghost paths: seq<seq<bool>>, ghost s: nat) returns (ok: bool, sym: nat)
      requires (filling ==> numBits < 15) && Valid() && t.Holds(S, |S|, paths) && Next(S, s)
      modifies `inPos, `bitBuf, `numBits, `filling, `read
      ensures Valid() && read >= old(read) && filling == !ok && (filling ==> numBits < 15)
      ensures ok ==> sym == s && Pos() == old(Pos()) + S[s] && Pos() <= |bits|
      ensures !ok ==> Pos() == old(Pos()) && inPos == |inBuf| && read < |full|
    {
      hide Register, Codeword, Trie, Fits, BytesToBits;
      LongestCode(S, s);
      sym := 0;
      if !filling && numBits < 15 {
        if |inBuf| - inPos < 2 {
          filling := true;
        } else {
          PullByte();
          PullByte();
        }
      }
      if filling {
        ok := FillHuff(t, S, paths, s);
        if !ok { return; }
        filling := false;
      }
      sym := Decode(t, S, paths, s);
      ok := true;
    }

    /** The end of TINFL_HUFF_DECODE: look up, and drop the code. */
    method Decode(t: Table, ghost S: seq<nat>, ghost paths: seq<seq<bool>>, ghost s: nat) returns (sym: nat)
      requires Valid() && t.Holds(S, |S|, paths) && Next(S, s) && S[s] <= numBits
      modifies `bitBuf, `numBits
      ensures Valid() && sym == s && Pos() == old(Pos()) + S[s] && Pos() <= |bits| && numBits == old(numBits) - S[s]
    {
      hide Register, Codeword, Trie, Fits, BytesToBits, ToBits, FromBits;
      LongestCode(S, s);
      CodewordInRegister(bits, bitBuf, numBits, 8 * read, Codeword(S, s));
      var codeLen;
      sym, codeLen := LookUp(t.lookUp, t.tree, bitBuf, S, paths, s);
      var dropped := TakeBits(codeLen);
    }
  }

  lemma LengthInBits(full: seq<Byte>)
    ensures |BytesToBits(full)| == 8 * |full|
  {
  }

  lemma StartRegister(bits: seq<bool>)
    ensures Register(bits, 0, 0, 0)
  {
  }

  lemma PullRegister(full: seq<Byte>, bits: seq<bool>, bitBuf: nat, numBits: nat, read: nat)
    requires bits == BytesToBits(full) && read < |full| && Register(bits, bitBuf, numBits, 8 * read)
    ensures 0 <= full[read] * Pow2(numBits) && Register(bits, bitBuf + full[read] * Pow2(numBits), numBits + 8, 8 * (read + 1))
  {
    hide ToBits, Pow2, Register, BytesToBits;
    ByteBits(full, read);
    var c := full[read];
    RegisterByte(bits, bitBuf, numBits, 8 * read, c);
  }

  /** Bit k of the register is the next but k of the stream. */
  lemma RegisterBit(bits: seq<bool>, bitBuf: nat, numBits: nat, end: nat, c: seq<bool>, k: nat)
    requires Register(bits, bitBuf, numBits, end) && k < numBits && k < |c| && At(bits, end - numBits, c)
    ensures c[k] == (Shr(bitBuf, k) % 2 == 1)
  {
    hide ToBits, Pow2, Shr;
    BitAt(bitBuf, numBits, k);
    var pos := end - numBits;
    assert bits[pos..end][k] == bits[pos + k] == bits[pos..pos + |c|][k];
  }

  /** What the look-up of the ten low bits says about a codeword, whole or not. */
  lemma WholeInTable(S: seq<nat>, look: seq<int>, tree: seq<int>, paths: seq<seq<bool>>, bits: seq<bool>, bitBuf: nat, numBits: nat, end: nat, s: nat)
    requires Trie(S, |S|, look, tree, paths) && Fits(S, 15) && |look| == LOOKUP_SIZE && Register(bits, bitBuf, numBits, end)
    requires s < |S| && S[s] > 0 && At(bits, end - numBits, Codeword(S, s))
    ensures var temp := look[bitBuf % LOOKUP_SIZE];
            && (temp >= 0 ==> (temp / 512 != 0 && numBits >= temp / 512 <==> S[s] <= numBits))
            && (temp < 0 && numBits > LOOKUP_BITS ==> S[s] > LOOKUP_BITS && Refers(paths, temp, Codeword(S, s)[..LOOKUP_BITS]))
            && (temp < 0 && numBits <= LOOKUP_BITS ==> S[s] > numBits)
  {
    hide Codeword, ToBits, Trie, Refers, Fits, Pow2, Register;
    var x := bitBuf % LOOKUP_SIZE;
    var temp, c := look[x], Codeword(S, s);
    if S[s] <= LOOKUP_BITS && S[s] <= numBits { ShortInRegister(S, look, tree, paths, bits, bitBuf, numBits, end, s); }
    if S[s] > LOOKUP_BITS && numBits >= LOOKUP_BITS { LongInRegister(S, look, tree, paths, bits, bitBuf, numBits, end, s); }
    if temp > 0 && temp / 512 <= numBits { OnlyOneSymbol(S, look, tree, paths, bits, bitBuf, numBits, end, s); }
  }

  lemma LongestCode(S: seq<nat>, s: nat)
    requires Fits(S, 15) && s < |S|
    ensures S[s] <= 15
  {
  }

  lemma ShortInRegister(S: seq<nat>, look: seq<int>, tree: seq<int>, paths: seq<seq<bool>>, bits: seq<bool>, bitBuf: nat, numBits: nat, end: nat, s: nat)
    requires Trie(S, |S|, look, tree, paths) && Fits(S, 15) && |look| == LOOKUP_SIZE && Register(bits, bitBuf, numBits, end)
    requires s < |S| && 0 < S[s] <= LOOKUP_BITS && S[s] <= numBits && At(bits, end - numBits, Codeword(S, s))
    ensures var temp := look[bitBuf % LOOKUP_SIZE]; temp > 0 && temp / 512 == S[s]
  {
    hide Codeword, ToBits, Trie, Fits, Pow2, Register;
    var x, c := bitBuf % LOOKUP_SIZE, Codeword(S, s);
    LowTen(bitBuf);
    CodewordInRegister(bits, bitBuf, numBits, end, c);
    assert c <= ToBits(x, LOOKUP_BITS);
    LookShort(S, look, tree, paths, x, s);
  }

  lemma LongInRegister(S: seq<nat>, look: seq<int>, tree: seq<int>, paths: seq<seq<bool>>, bits: seq<bool>, bitBuf: nat, numBits: nat, end: nat, s: nat)
    requires Trie(S, |S|, look, tree, paths) && Fits(S, 15) && |look| == LOOKUP_SIZE && Register(bits, bitBuf, numBits, end)
    requires s < |S| && S[s] > LOOKUP_BITS && numBits >= LOOKUP_BITS && At(bits, end - numBits, Codeword(S, s))
    ensures var temp := look[bitBuf % LOOKUP_SIZE]; temp < 0 && Refers(paths, temp, Codeword(S, s)[..LOOKUP_BITS])
  {
    hide Codeword, ToBits, Trie, Fits, Pow2, Refers;
    var x, c, pos := bitBuf % LOOKUP_SIZE, Codeword(S, s), end - numBits;
    LowTen(bitBuf);
    LowBits(bitBuf, LOOKUP_BITS, numBits - LOOKUP_BITS);
    LowBits(bitBuf, LOOKUP_BITS, 5);
    assert ToBits(x, LOOKUP_BITS) == bits[pos..end][..LOOKUP_BITS];
    assert bits[pos..end][..LOOKUP_BITS] == bits[pos..pos + |c|][..LOOKUP_BITS];
    OnTheWay(S, look, tree, paths, s, LOOKUP_BITS);
    LookNode(S, look, tree, paths, x);
    RefersNegative(paths, look[x], c[..LOOKUP_BITS]);
  }

  /** An entry for a code that is wholly in the register is the entry of the symbol that is there. */
  lemma OnlyOneSymbol(S: seq<nat>, look: seq<int>, tree: seq<int>, paths: seq<seq<bool>>, bits: seq<bool>, bitBuf: nat, numBits: nat, end: nat, s: nat)
    requires Trie(S, |S|, look, tree, paths) && Fits(S, 15) && |look| == LOOKUP_SIZE && Register(bits, bitBuf, numBits, end)
    requires s < |S| && S[s] > 0 && At(bits, end - numBits, Codeword(S, s))
    requires var temp := look[bitBuf % LOOKUP_SIZE]; temp > 0 && temp / 512 <= numBits
    ensures S[s] == look[bitBuf % LOOKUP_SIZE] / 512
  {
    hide Codeword, ToBits, Fits, Pow2, Nodes, TreeEntry;
    var x, pos := bitBuf % LOOKUP_SIZE, end - numBits;
    var e, n := look[x] % 512, look[x] / 512;
    assert LookEntry(S, |S|, look[x], ToBits(x, LOOKUP_BITS), paths);
    var d := Codeword(S, e);
    LowTen(bitBuf);
    LowBits(bitBuf, n, numBits - n);
    LowBits(bitBuf, n, 15 - n);
    assert d == ToBits(x, LOOKUP_BITS)[..n];
    assert d == ToBits(bitBuf, 15)[..LOOKUP_BITS][..n];
    assert d == bits[pos..end][..n];
    assert bits[pos..end][..n] == bits[pos..pos + n];
    PrefixFree(S, 15, e, s, bits, pos);
  }
}
