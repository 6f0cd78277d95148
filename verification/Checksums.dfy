/** The checksums: Adler-32 with the modulo put off (mz_adler32, src/http/miniz.c:977-991) and
    CRC-32 half a byte at a time (mz_crc32, src/http/miniz.c:993-1001). */
module Checksums {
  import opened Bits

  // ---------- Adler-32 (sections 2.2 and 8.2 of RFC 1950) ----------

  const ADLER_MOD := 65521
  const ADLER_BLOCK := 5552
  const TWO32 := 0x1_0000_0000

  type U32 = x: int | 0 <= x < 0x1_0000_0000

  datatype Sums = Sums(s1: nat, s2: nat)

  function AdlerStep(s: Sums, b: Byte): Sums
  {
    var s1 := (s.s1 + b) % ADLER_MOD;
    Sums(s1, (s.s2 + s1) % ADLER_MOD)
  }

  /** Both sums over the bytes, reduced at every byte. */
  function AdlerSums(s: Sums, data: seq<Byte>): Sums
  {
    if data == [] then s else AdlerStep(AdlerSums(s, data[..|data| - 1]), data[|data| - 1])
  }

  function Split(adler: U32): Sums { Sums(adler % 0x10000, adler / 0x10000) }

  /** The checksum: s2 * 65536 + s1. */
  function Adler32(adler: U32, data: seq<Byte>): (r: U32)
  {
    AdlerSmall(Split(adler), data);
    var s := AdlerSums(Split(adler), data);
    s.s2 * 0x10000 + s.s1
  }

  lemma AdlerSmall(s: Sums, data: seq<Byte>)
    requires s.s1 < 0x10000 && s.s2 < 0x10000
    ensures var r := AdlerSums(s, data); r.s1 < 0x10000 && r.s2 < 0x10000 && (data != [] ==> r.s1 < ADLER_MOD && r.s2 < ADLER_MOD)
  {
  }

  /** The checksum can be taken piece by piece, cut anywhere. */
  lemma {:induction false} AdlerSplits(adler: U32, a: seq<Byte>, b: seq<Byte>)
    ensures Adler32(Adler32(adler, a), b) == Adler32(adler, a + b)
    decreases |b|
  {
    if b == [] {
      assert a + b == a;
    } else {
      var c, x := b[..|b| - 1], b[|b| - 1];
      assert (a + b)[..|a + b| - 1] == a + c;
      AdlerSplits(adler, a, c);
      AdlerSnoc(Adler32(adler, a), c, x);
      AdlerSnoc(adler, a + c, x);
      assert c + [x] == b && (a + c) + [x] == a + b;
    }
  }

  lemma AdlerSnoc(adler: U32, c: seq<Byte>, x: Byte)
    ensures Adler32(adler, c + [x]) == Joined(AdlerStep(Split(Adler32(adler, c)), x))
  {
    assert (c + [x])[..|c|] == c;
    AdlerSmall(Split(adler), c);
    var s := AdlerSums(Split(adler), c);
    SplitJoin(s);
  }

  function Joined(s: Sums): nat { s.s2 * 0x10000 + s.s1 }

  lemma SplitJoin(s: Sums)
    requires s.s1 < 0x10000 && s.s2 < 0x10000
    ensures Split(Joined(s)) == s
  {
  }

  /** The sums without the modulo are right up to the modulo, and small enough for 32 bits: n bytes
      have been added since the last reduction. */
  ghost predicate Lazy(s: Sums, exact: Sums, n: nat)
  {
    && s.s1 % ADLER_MOD == exact.s1 % ADLER_MOD && s.s2 % ADLER_MOD == exact.s2 % ADLER_MOD
    && n <= ADLER_BLOCK && s.s1 <= 65535 + 255 * n && s.s2 <= SumBound(n)
  }

  /** What s2 can have grown to after n bytes. */
  function SumBound(n: nat): nat
  {
    if n == 0 then 65535 else SumBound(n - 1) + 65535 + 255 * n
  }

  lemma {:induction false} SumBoundIs(n: nat)
    ensures 2 * SumBound(n) == 131070 + 131070 * n + 255 * (n * (n + 1))
  {
    if n > 0 {
      SumBoundIs(n - 1);
      assert n * (n + 1) == (n - 1) * n + 2 * n;
    }
  }

  /** 5552 bytes are not too many (2^32 is not reached), even from sums not yet reduced. */
  lemma NoOverflow(n: nat)
    requires n <= ADLER_BLOCK
    ensures SumBound(n) < TWO32
  {
    SumBoundIs(n);
    ProductsGrow(n, ADLER_BLOCK);
  }

  lemma {:induction false} ProductsGrow(n: nat, m: nat)
    requires n <= m
    ensures n * (n + 1) <= m * (m + 1)
    decreases m
  {
    if n < m {
      ProductsGrow(n, m - 1);
      assert m * (m + 1) == (m - 1) * m + 2 * m;
    }
  }

  lemma ModOfSum(a: nat, b: nat, c: nat, d: nat)
    requires a % ADLER_MOD == b % ADLER_MOD && c % ADLER_MOD == d % ADLER_MOD
    ensures (a + c) % ADLER_MOD == (b + d) % ADLER_MOD
  {
  }

  lemma LazyStep(s: Sums, exact: Sums, n: nat, b: Byte)
    requires Lazy(s, exact, n) && n < ADLER_BLOCK
    ensures s.s1 + b < TWO32 && s.s2 + (s.s1 + b) < TWO32
    ensures Lazy(Sums(s.s1 + b, s.s2 + (s.s1 + b)), AdlerStep(exact, b), n + 1)
  {
    NoOverflow(n + 1);
    ModOfSum(s.s1, exact.s1, b, b);
    var e := AdlerStep(exact, b);
    assert (s.s1 + b) % ADLER_MOD == e.s1 % ADLER_MOD;
    ModOfSum(s.s2, exact.s2, s.s1 + b, e.s1);
  }

  lemma LazyReduce(s: Sums, exact: Sums, n: nat)
    requires Lazy(s, exact, n)
    ensures Lazy(Sums(s.s1 % ADLER_MOD, s.s2 % ADLER_MOD), exact, 0)
  {
  }

  /** `s1 += b, s2 += s1`, in 32 bits. */
  method AddByte(s1: U32, s2: U32, b: Byte, ghost start: Sums, ghost data: seq<Byte>, ghost k: nat, ghost n: nat) returns (t1: U32, t2: U32)
    requires k < |data| && data[k] == b && n < ADLER_BLOCK && Lazy(Sums(s1, s2), AdlerSums(start, data[..k]), n)
    ensures Lazy(Sums(t1, t2), AdlerSums(start, data[..k + 1]), n + 1)
  {
    hide Lazy, AdlerSums, AdlerStep;
    SumsNext(start, data, k);
    LazyStep(Sums(s1, s2), AdlerSums(start, data[..k]), n, b);
    t1 := (s1 + b) % TWO32;
    t2 := (s2 + t1) % TWO32;
  }

  lemma SumsNext(start: Sums, data: seq<Byte>, k: nat)
    requires k < |data|
    ensures AdlerSums(start, data[..k + 1]) == AdlerStep(AdlerSums(start, data[..k]), data[k])
  {
    assert data[..k + 1][..k] == data[..k];
  }

  /** One round of mz_adler32's outer loop without the modulo: blockLen bytes from k0. */
  method AddBlock(s1: U32, s2: U32, data: seq<Byte>, k0: nat, blockLen: nat, ghost start: Sums) returns (t1: U32, t2: U32)
    requires k0 + blockLen <= |data| && blockLen <= ADLER_BLOCK && Lazy(Sums(s1, s2), AdlerSums(start, data[..k0]), 0)
    ensures Lazy(Sums(t1, t2), AdlerSums(start, data[..k0 + blockLen]), blockLen)
  {
    hide Lazy, AdlerSums;
    t1, t2 := s1, s2;
    var i, k: nat := 0, k0;
    while i + 7 < blockLen
      invariant 0 <= i <= blockLen && k == k0 + i && Lazy(Sums(t1, t2), AdlerSums(start, data[..k]), i)
    {
      t1, t2 := AddByte(t1, t2, data[k], start, data, k, i);
      t1, t2 := AddByte(t1, t2, data[k + 1], start, data, k + 1, i + 1);
      t1, t2 := AddByte(t1, t2, data[k + 2], start, data, k + 2, i + 2);
      t1, t2 := AddByte(t1, t2, data[k + 3], start, data, k + 3, i + 3);
      t1, t2 := AddByte(t1, t2, data[k + 4], start, data, k + 4, i + 4);
      t1, t2 := AddByte(t1, t2, data[k + 5], start, data, k + 5, i + 5);
      t1, t2 := AddByte(t1, t2, data[k + 6], start, data, k + 6, i + 6);
      t1, t2 := AddByte(t1, t2, data[k + 7], start, data, k + 7, i + 7);
      i, k := i + 8, k + 8;
    }
    while i < blockLen
      invariant 0 <= i <= blockLen && k == k0 + i && Lazy(Sums(t1, t2), AdlerSums(start, data[..k]), i)
    {
      t1, t2 := AddByte(t1, t2, data[k], start, data, k, i);
      i, k := i + 1, k + 1;
    }
  }

  /** mz_adler32: eight bytes at a time, the modulo once for 5552 bytes. */
  method ComputeAdler32(adler: U32, data: seq<Byte>) returns (r: U32)
    ensures r == Adler32(adler, data)
  {
    hide Lazy, AdlerSums;
    ghost var start := Split(adler);
    var s1: U32, s2: U32 := adler % 0x10000, adler / 0x10000;
    var bufLen, blockLen := |data|, |data| % ADLER_BLOCK;
    assert data[..0] == [];
    StartSums(start);
    while bufLen > 0
      invariant 0 <= bufLen <= |data| && blockLen <= bufLen && (blockLen == ADLER_BLOCK || blockLen == bufLen % ADLER_BLOCK)
      invariant bufLen % ADLER_BLOCK == 0 || blockLen == bufLen % ADLER_BLOCK
      invariant bufLen == 0 ==> |data| > 0 ==> s1 < ADLER_MOD && s2 < ADLER_MOD
      invariant Lazy(Sums(s1, s2), AdlerSums(start, data[..|data| - bufLen]), 0)
      invariant |data| == 0 ==> s1 == start.s1 && s2 == start.s2
      decreases bufLen, ADLER_BLOCK - blockLen
    {
      var k := |data| - bufLen;
      s1, s2 := AddBlock(s1, s2, data, k, blockLen, start);
      LazyReduce(Sums(s1, s2), AdlerSums(start, data[..k + blockLen]), blockLen);
      s1, s2 := s1 % ADLER_MOD, s2 % ADLER_MOD;
      bufLen := bufLen - blockLen;
      blockLen := if bufLen == 0 then 0 else ADLER_BLOCK;
    }
    assert data[..|data|] == data;
    FinalSums(Sums(s1, s2), start, data);
    r := s2 * 0x10000 + s1;
  }

  lemma StartSums(s: Sums)
    requires s.s1 < 0x10000 && s.s2 < 0x10000
    ensures Lazy(s, AdlerSums(s, []), 0)
  {
  }

  lemma FinalSums(s: Sums, start: Sums, data: seq<Byte>)
    requires Lazy(s, AdlerSums(start, data), 0) && start.s1 < 0x10000 && start.s2 < 0x10000
    requires if data == [] then s == start else s.s1 < ADLER_MOD && s.s2 < ADLER_MOD
    ensures s == AdlerSums(start, data)
  {
    AdlerSmall(start, data);
  }

  // ---------- CRC-32 (section 8 of RFC 1952) ----------

  const CRC_POLY: bv32 := 0xEDB88320

  /** One bit of the division by the reflected polynomial. */
  function CrcBit(c: bv32): bv32
  {
    if c & 1 == 1 then (c >> 1) ^ CRC_POLY else c >> 1
  }

  function CrcBits4(c: bv32): bv32 { CrcBit(CrcBit(CrcBit(CrcBit(c)))) }

  /** The register after one more byte, a bit at a time. */
  function CrcByte(c: bv32, b: bv8): bv32
  {
    CrcBits4(CrcBits4(c ^ (b as bv32)))
  }

  function CrcRegister(c: bv32, data: seq<bv8>): bv32
  {
    if data == [] then c else CrcByte(CrcRegister(c, data[..|data| - 1]), data[|data| - 1])
  }

  function Complement(c: bv32): bv32 { !c }

  /** The checksum, continued from an earlier one. */
  function Crc32(crc: bv32, data: seq<bv8>): bv32
  {
    Complement(CrcRegister(Complement(crc), data))
  }

  /** s_crc32. */
  function CrcTable(i: bv32): bv32
    requires i < 16
  {
    if i == 0 then 0 else if i == 1 then 0x1db71064 else if i == 2 then 0x3b6e20c8 else if i == 3 then 0x26d930ac
    else if i == 4 then 0x76dc4190 else if i == 5 then 0x6b6b51f4 else if i == 6 then 0x4db26158 else if i == 7 then 0x5005713c
    else if i == 8 then 0xedb88320 else if i == 9 then 0xf00f9344 else if i == 10 then 0xd6d6a3e8 else if i == 11 then 0xcb61b38c
    else if i == 12 then 0x9b64c2b0 else if i == 13 then 0x86d3d2d4 else if i == 14 then 0xa00ae278 else 0xbdbdf21c
  }

  /** mz_crc32: two table look-ups a byte. */
  method ComputeCrc32(crc: bv32, data: seq<bv8>) returns (r: bv32)
    ensures r == Crc32(crc, data)
  {
    hide CrcByte;
    var c := Complement(crc);
    var k := 0;
    while k < |data|
      invariant 0 <= k <= |data| && c == CrcRegister(Complement(crc), data[..k])
    {
      var b := data[k];
      ByteStep(c, b);
      c := TableByte(c, b);
      assert data[..k + 1][..k] == data[..k];
      k := k + 1;
    }
    assert data[..k] == data;
    r := Complement(c);
  }

  function Low(c: bv32): (n: bv32)
    ensures n < 16
  {
    LowBound(c);
    c & 0xF
  }

  function High(c: bv32): bv32 { c >> 4 }

  function Xor(c: bv32, d: bv32): bv32 { c ^ d }

  function Wide(b: bv8): bv32 { b as bv32 }

  lemma LowBound(c: bv32)
    ensures c & 0xF < 16
  {
  }

  /** `(crc >> 4) ^ s_crc32[(crc & 0xF) ^ n]` for half a byte. */
  function TableNibble(c: bv32, n: bv32): bv32
    requires n < 16
  {
    XorBound(Low(c), n);
    Xor(High(c), CrcTable(Xor(Low(c), n)))
  }

  /** The two look-ups for one byte. */
  function TableByte(c: bv32, b: bv8): bv32
  {
    HighNibble(b);
    TableNibble(TableNibble(c, Low(Wide(b))), High(Wide(b)))
  }

  lemma HighNibble(b: bv8)
    ensures High(Wide(b)) < 16
  {
  }

  lemma XorBound(a: bv32, n: bv32)
    requires a < 16 && n < 16
    ensures Xor(a, n) < 16
  {
  }

  /** Four bits with half a byte in them are one look-up; the rest of the byte stays above. */
  lemma NibbleWith(c: bv32, w: bv32)
    ensures CrcBits4(Xor(c, w)) == Xor(TableNibble(c, Low(w)), High(w))
  {
    hide CrcBits4, CrcTable, Low, High, Xor;
    NibbleLookUp(Xor(c, w));
    XorNibbles(c, w);
    XorBound(Low(c), Low(w));
    XorSwap(High(c), High(w), CrcTable(Xor(Low(c), Low(w))));
  }

  /** One table look-up stands for four bits of division. */
  lemma NibbleLookUp(c: bv32)
    ensures CrcBits4(c) == Xor(High(c), CrcTable(Low(c)))
  {
    hide CrcBits4, CrcTable, Xor, High, Low;
    NibbleParts(c);
    CrcBits4Linear(UpperBits(c), Low(c));
    UpperShifts(c);
    LowLookUp(Low(c));
  }

  function UpperBits(c: bv32): bv32 { c & 0xFFFF_FFF0 }

  lemma NibbleParts(c: bv32)
    ensures Xor(UpperBits(c), Low(c)) == c
  {
  }

  predicate Even(c: bv32) { c & 1 == 0 }

  lemma EvenShifts(c: bv32)
    requires Even(c)
    ensures CrcBit(c) == Half(c)
  {
  }

  lemma UpperEven(c: bv32)
    ensures Even(UpperBits(c)) && Even(Half(UpperBits(c))) && Even(Half(Half(UpperBits(c)))) && Even(Half(Half(Half(UpperBits(c)))))
  {
  }

  lemma UpperDown(c: bv32)
    ensures Half(Half(Half(Half(UpperBits(c))))) == High(c)
  {
  }

  lemma UpperShifts(c: bv32)
    ensures CrcBits4(UpperBits(c)) == High(c)
  {
    hide CrcBit, Half, Even, UpperBits, High;
    var d := UpperBits(c);
    UpperEven(c);
    UpperDown(c);
    EvenShifts(d);
    EvenShifts(Half(d));
    EvenShifts(Half(Half(d)));
    EvenShifts(Half(Half(Half(d))));
  }

  lemma LowLookUp(n: bv32)
    requires n < 16
    ensures CrcBits4(n) == CrcTable(n)
  {
  }

  lemma ByteStep(c: bv32, b: bv8)
    ensures TableByte(c, b) == CrcByte(c, b)
  {
    hide CrcBits4, TableNibble, Low, High, Xor, Wide;
    var w := Wide(b);
    HighNibble(b);
    NibbleWith(c, w);
    var d := TableNibble(c, Low(w));
    NibbleWith(d, High(w));
    SmallShift(High(w), TableNibble(d, High(w)));
    CrcByteIs(c, b);
  }

  lemma CrcByteIs(c: bv32, b: bv8)
    ensures CrcByte(c, b) == CrcBits4(CrcBits4(Xor(c, Wide(b))))
  {
  }

  lemma XorNibbles(c: bv32, w: bv32)
    ensures Low(Xor(c, w)) == Xor(Low(c), Low(w)) && High(Xor(c, w)) == Xor(High(c), High(w))
  {
  }

  lemma SmallShift(h: bv32, d: bv32)
    requires h < 16
    ensures Low(h) == h && Xor(d, High(h)) == d
  {
  }

  lemma XorSwap(a: bv32, b: bv32, c: bv32)
    ensures Xor(Xor(a, b), c) == Xor(Xor(a, c), b)
  {
    hide Xor;
    XorAssoc(a, b, c);
    XorSame(b, c);
    XorAssoc(a, c, b);
  }

  lemma XorSame(a: bv32, b: bv32)
    ensures Xor(a, b) == Xor(b, a)
  {
  }

  lemma {:induction false} CrcRegisterSplits(c: bv32, a: seq<bv8>, b: seq<bv8>)
    ensures CrcRegister(CrcRegister(c, a), b) == CrcRegister(c, a + b)
    decreases |b|
  {
    if b == [] {
      assert a + b == a;
    } else {
      assert (a + b)[..|a + b| - 1] == a + b[..|b| - 1];
      CrcRegisterSplits(c, a, b[..|b| - 1]);
    }
  }

  /** The checksum can be taken piece by piece, cut anywhere. */
  lemma CrcSplits(crc: bv32, a: seq<bv8>, b: seq<bv8>)
    ensures Crc32(Crc32(crc, a), b) == Crc32(crc, a + b)
  {
    hide *;
    CrcRegisterSplits(Complement(crc), a, b);
    NotNot(CrcRegister(Complement(crc), a));
    Crc32Is(crc, a);
    Crc32Is(crc, a + b);
    Crc32Is(Crc32(crc, a), b);
  }

  lemma Crc32Is(crc: bv32, data: seq<bv8>)
    ensures Crc32(crc, data) == Complement(CrcRegister(Complement(crc), data))
  {
  }

  lemma NotNot(c: bv32)
    ensures Complement(Complement(c)) == c
  {
  }

  /** No step loses information about the register, or about the byte. */
  lemma CrcByteInjective(c: bv32, d: bv32, b: bv8)
    requires CrcByte(c, b) == CrcByte(d, b)
    ensures c == d
  {
    CrcBits4Injective(CrcBits4(c ^ (b as bv32)), CrcBits4(d ^ (b as bv32)));
    CrcBits4Injective(c ^ (b as bv32), d ^ (b as bv32));
  }

  lemma CrcByteInjective2(c: bv32, a: bv8, b: bv8)
    requires CrcByte(c, a) == CrcByte(c, b)
    ensures a == b
  {
    CrcBits4Injective(CrcBits4(c ^ (a as bv32)), CrcBits4(c ^ (b as bv32)));
    CrcBits4Injective(c ^ (a as bv32), c ^ (b as bv32));
  }

  lemma CrcBits4Injective(c: bv32, d: bv32)
    requires CrcBits4(c) == CrcBits4(d)
    ensures c == d
  {
    CrcBitInjective(CrcBit(CrcBit(CrcBit(c))), CrcBit(CrcBit(CrcBit(d))));
    CrcBitInjective(CrcBit(CrcBit(c)), CrcBit(CrcBit(d)));
    CrcBitInjective(CrcBit(c), CrcBit(d));
    CrcBitInjective(c, d);
  }

  lemma CrcBitInjective(c: bv32, d: bv32)
    requires CrcBit(c) == CrcBit(d)
    ensures c == d
  {
  }

  /** A change within any one byte changes the checksum. */
  lemma {:induction false} CrcSeesOneByte(crc: bv32, data: seq<bv8>, i: nat, b: bv8)
    requires i < |data| && b != data[i]
    ensures CrcRegister(crc, data[i := b]) != CrcRegister(crc, data)
    decreases |data|
  {
    var init, init2, last := data[..|data| - 1], data[i := b][..|data| - 1], data[|data| - 1];
    if i == |data| - 1 {
      assert init2 == init;
      if CrcByte(CrcRegister(crc, init), b) == CrcByte(CrcRegister(crc, init), last) { CrcByteInjective2(CrcRegister(crc, init), b, last); }
    } else {
      assert init2 == init[i := b];
      CrcSeesOneByte(crc, init, i, b);
      if CrcByte(CrcRegister(crc, init2), last) == CrcByte(CrcRegister(crc, init), last) { CrcByteInjective(CrcRegister(crc, init2), CrcRegister(crc, init), last); }
    }
  }

  // ---------- known answers ----------

  /** A checksum as it is put after the data: four bytes, the lowest first. */
  function LittleEndian(c: bv32): (b: seq<bv8>)
    ensures |b| == 4
  {
    [ByteOf(c), ByteOf(Down(c)), ByteOf(Down(Down(c))), ByteOf(Down(Down(Down(c))))]
  }

  function Down(c: bv32): bv32 { c >> 8 }

  function ByteOf(c: bv32): bv8 { (c & 0xFF) as bv8 }

  function CrcBits8(c: bv32): bv32 { CrcBits4(CrcBits4(c)) }

  lemma CrcBitLinear(a: bv32, b: bv32)
    ensures CrcBit(Xor(a, b)) == Xor(CrcBit(a), CrcBit(b))
  {
    hide CrcBit, Xor, Half, Feedback;
    CrcBitIs(a);
    CrcBitIs(b);
    CrcBitIs(Xor(a, b));
    HalfLinear(a, b);
    FeedbackLinear(a, b);
    XorFour(Half(a), Half(b), Feedback(a), Feedback(b));
  }

  function Half(c: bv32): bv32 { c >> 1 }

  function Feedback(c: bv32): bv32 { if c & 1 == 1 then CRC_POLY else 0 }

  lemma CrcBitIs(c: bv32)
    ensures CrcBit(c) == Xor(Half(c), Feedback(c))
  {
    XorZero(Half(c));
    assert c & 1 == 1 || c & 1 != 1;
  }

  lemma HalfLinear(a: bv32, b: bv32)
    ensures Half(Xor(a, b)) == Xor(Half(a), Half(b))
  {
  }

  lemma FeedbackLinear(a: bv32, b: bv32)
    ensures Feedback(Xor(a, b)) == Xor(Feedback(a), Feedback(b))
  {
  }

  lemma XorFour(a: bv32, b: bv32, c: bv32, d: bv32)
    ensures Xor(Xor(a, b), Xor(c, d)) == Xor(Xor(a, c), Xor(b, d))
  {
    hide Xor;
    XorAssoc(Xor(a, b), c, d);
    XorSwap(a, b, c);
    XorAssoc(Xor(a, c), b, d);
  }

  lemma CrcBits4Linear(a: bv32, b: bv32)
    ensures CrcBits4(Xor(a, b)) == Xor(CrcBits4(a), CrcBits4(b))
  {
    hide CrcBit, Xor;
    CrcBitLinear(a, b);
    CrcBitLinear(CrcBit(a), CrcBit(b));
    CrcBitLinear(CrcBit(CrcBit(a)), CrcBit(CrcBit(b)));
    CrcBitLinear(CrcBit(CrcBit(CrcBit(a))), CrcBit(CrcBit(CrcBit(b))));
  }

  lemma CrcBits8Linear(a: bv32, b: bv32)
    ensures CrcBits8(Xor(a, b)) == Xor(CrcBits8(a), CrcBits8(b))
  {
    hide CrcBits4, Xor;
    CrcBits4Linear(a, b);
    CrcBits4Linear(CrcBits4(a), CrcBits4(b));
  }

  function Above(c: bv32): bv32 { c & 0xFFFF_FF00 }

  /** Bits above the lowest eight only move down. */
  lemma AboveMoves(c: bv32)
    ensures CrcBits8(Above(c)) == Down(c)
  {
    hide CrcBits4, High, Low, Xor, Above, Down;
    AboveNibbles(c);
    NibbleLookUp(Above(c));
    NibbleLookUp(High(Above(c)));
    XorZero(High(Above(c)));
    XorZero(High(High(Above(c))));
  }

  lemma AboveNibbles(c: bv32)
    ensures Low(Above(c)) == 0 && Low(High(Above(c))) == 0 && High(High(Above(c))) == Down(c)
  {
  }

  /** The complement of the lowest byte makes it 0xFF, whatever is xored to both. */
  lemma FillsLowByte(q: bv32, k: bv32)
    ensures Xor(Xor(q, k), Wide(ByteOf(Complement(q)))) == Xor(Xor(Above(q), k), 0xFF)
  {
  }

  /** One byte of the complement of r: what was left of r goes one byte down, and the rest does not depend on r. */
  lemma ResidueStep(q: bv32, k: bv32, k2: bv32)
    requires k2 == Xor(CrcBits8(k), CrcBits8(0xFF))
    ensures CrcByte(Xor(q, k), ByteOf(Complement(q))) == Xor(Down(q), k2)
  {
    hide CrcBits4, CrcBits8, Xor, Above, ByteOf, Wide, Down, Complement;
    var c, b := Xor(q, k), ByteOf(Complement(q));
    CrcByteIs(c, b);
    FillsLowByte(q, k);
    CrcBits8Linear(Xor(Above(q), k), 0xFF);
    CrcBits8Linear(Above(q), k);
    AboveMoves(q);
    XorAssoc(Down(q), CrcBits8(k), CrcBits8(0xFF));
    CrcBits8Is(Xor(c, Wide(b)));
  }

  lemma CrcBits8Is(c: bv32)
    ensures CrcBits8(c) == CrcBits4(CrcBits4(c))
  {
  }

  lemma XorAssoc(a: bv32, b: bv32, c: bv32)
    ensures Xor(Xor(a, b), c) == Xor(a, Xor(b, c))
  {
  }

  lemma ResidueConstants()
    ensures Xor(CrcBits8(0), CrcBits8(0xFF)) == 0x2d02ef8d
    ensures Xor(CrcBits8(0x2d02ef8d), CrcBits8(0xFF)) == 0xbe2612ff
    ensures Xor(CrcBits8(0xbe2612ff), CrcBits8(0xFF)) == 0x00be2612
    ensures Xor(CrcBits8(0x00be2612), CrcBits8(0xFF)) == 0xdebb20e3
  {
  }

  lemma CrcSnoc(c: bv32, data: seq<bv8>, b: bv8)
    ensures CrcRegister(c, data + [b]) == CrcByte(CrcRegister(c, data), b)
  {
    hide CrcByte;
    assert (data + [b])[..|data|] == data;
  }

  /** The register after the complement of what is in it. */
  lemma ResidueRegister(c: bv32, data: seq<bv8>)
    ensures CrcRegister(c, data + LittleEndian(Complement(CrcRegister(c, data)))) == 0xdebb20e3
  {
    hide CrcByte, CrcRegister, CrcBits8, Xor, ByteOf, Down, Complement;
    var r := CrcRegister(c, data);
    ResidueConstants();
    AllDown(r);
    XorZero(r);
    XorZero(0xdebb20e3);
    ResidueStep(r, 0, 0x2d02ef8d);
    ResidueStep(Down(r), 0x2d02ef8d, 0xbe2612ff);
    ResidueStep(Down(Down(r)), 0xbe2612ff, 0x00be2612);
    ResidueStep(Down(Down(Down(r))), 0x00be2612, 0xdebb20e3);
    LowBytes(r);
    var b := LittleEndian(Complement(r));
    CrcSnoc(c, data, b[0]);
    CrcSnoc(c, data + [b[0]], b[1]);
    CrcSnoc(c, data + [b[0]] + [b[1]], b[2]);
    CrcSnoc(c, data + [b[0]] + [b[1]] + [b[2]], b[3]);
    assert data + [b[0]] + [b[1]] + [b[2]] + [b[3]] == data + b;
  }

  lemma XorZero(r: bv32)
    ensures Xor(r, 0) == r && Xor(0, r) == r
  {
  }

  lemma AllDown(r: bv32)
    ensures Down(Down(Down(Down(r)))) == 0
  {
  }

  /** The bytes of the complement are the complements of the bytes. */
  lemma LowBytes(r: bv32)
    ensures ByteOf(Down(Complement(r))) == ByteOf(Complement(Down(r)))
    ensures ByteOf(Down(Down(Complement(r)))) == ByteOf(Complement(Down(Down(r))))
    ensures ByteOf(Down(Down(Down(Complement(r))))) == ByteOf(Complement(Down(Down(Down(r)))))
  {
  }

  /** The residue: data followed by their own checksum have the same checksum, whatever they are. */
  lemma CrcResidue(data: seq<bv8>)
    ensures Crc32(0, data + LittleEndian(Crc32(0, data))) == 0x2144DF1C
  {
    hide CrcRegister, LittleEndian, Complement, Crc32;
    Complements();
    Crc32Is(0, data);
    ResidueRegister(0xFFFF_FFFF, data);
    Crc32Is(0, data + LittleEndian(Crc32(0, data)));
  }

  lemma Complements()
    ensures Complement(0) == 0xFFFF_FFFF && Complement(0xdebb20e3) == 0x2144DF1C
  {
  }

  /** The check value of CRC-32: that of "123456789". */
  lemma CrcOfDigits()
    ensures Crc32(0, [0x31, 0x32, 0x33, 0x34, 0x35, 0x36, 0x37, 0x38, 0x39]) == 0xCBF43926
  {
    hide CrcRegister;
    var d: seq<bv8> := [0x31, 0x32, 0x33, 0x34, 0x35, 0x36, 0x37, 0x38, 0x39];
    CrcSteps(d[..3], 0xFFFF_FFFF, 0x7c231048, 0xb0acbb32, 0x77b79c2d);
    CrcSteps(d[3..6], 0x77b79c2d, 0x641c1f5c, 0x340ac5e3, 0xf68d2c9e);
    CrcSteps(d[6..], 0xf68d2c9e, 0xaffc9660, 0x651f2550, 0x340bc6d9);
    CrcRegisterSplits(0xFFFF_FFFF, d[..3], d[3..6]);
    CrcRegisterSplits(0xFFFF_FFFF, d[..3] + d[3..6], d[6..]);
    assert d[..3] + d[3..6] + d[6..] == d;
  }

  lemma CrcSteps(d: seq<bv8>, c0: bv32, c1: bv32, c2: bv32, c3: bv32)
    requires |d| == 3 && c1 == CrcByte(c0, d[0]) && c2 == CrcByte(c1, d[1]) && c3 == CrcByte(c2, d[2])
    ensures CrcRegister(c0, d) == c3
  {
    hide CrcByte;
    assert d[..1] == [d[0]] && d[..2][..1] == d[..1] && d[..3] == d && d[..2][1] == d[1] && d[..1][..0] == [];
    assert CrcRegister(c0, []) == c0;
    assert CrcRegister(c0, d[..1]) == c1;
    assert CrcRegister(c0, d[..2]) == c2;
  }

  /** The sum of the bytes, and the sum in which each counts once for itself and once for every byte after it. */
  function ByteSum(data: seq<Byte>): nat
  {
    if data == [] then 0 else data[0] + ByteSum(data[1..])
  }

  function WeightedSum(data: seq<Byte>): nat
  {
    if data == [] then 0 else |data| * data[0] + WeightedSum(data[1..])
  }

  lemma {:induction false} SumsGrow(data: seq<Byte>)
    requires data != []
    ensures var c := data[..|data| - 1]; ByteSum(data) == ByteSum(c) + data[|data| - 1] && WeightedSum(data) == WeightedSum(c) + ByteSum(data)
  {
    var c := data[..|data| - 1];
    if |data| > 1 {
      SumsGrow(data[1..]);
      assert c[1..] == data[1..][..|data| - 2] && c[0] == data[0];
      assert |data| * data[0] == (|data| - 1) * data[0] + data[0];
    }
  }

  /** What Adler-32 is: the sum of the bytes, and the sum of its values after each byte, modulo 65521. */
  lemma {:induction false} AdlerClosed(s: Sums, data: seq<Byte>)
    requires data != []
    ensures var r := AdlerSums(s, data); r.s1 == (s.s1 + ByteSum(data)) % 65521 && r.s2 == (s.s2 + |data| * s.s1 + WeightedSum(data)) % 65521
    decreases |data|
  {
    hide AdlerStep;
    var n := |data| - 1;
    var c := data[..n];
    SumsGrow(data);
    if c != [] { AdlerClosed(s, c); }
    assert |data| * s.s1 == n * s.s1 + s.s1;
    ClosedStep(AdlerSums(s, c), s.s1 + ByteSum(c), s.s2 + n * s.s1 + WeightedSum(c), data[n]);
  }

  lemma ClosedStep(s: Sums, t1: nat, t2: nat, b: Byte)
    requires s.s1 % ADLER_MOD == t1 % ADLER_MOD && s.s2 % ADLER_MOD == t2 % ADLER_MOD
    ensures AdlerStep(s, b) == Sums((t1 + b) % ADLER_MOD, (t2 + (t1 + b)) % ADLER_MOD)
  {
    ModOfSum(s.s1, t1, b, b);
    ModOfSum(s.s2, t2, AdlerStep(s, b).s1, t1 + b);
  }

  /** The Adler-32 of "Wikipedia". */
  lemma AdlerOfWikipedia()
    ensures Adler32(1, [0x57, 0x69, 0x6B, 0x69, 0x70, 0x65, 0x64, 0x69, 0x61]) == 0x11E60398
  {
    var d: seq<Byte> := [0x57, 0x69, 0x6B, 0x69, 0x70, 0x65, 0x64, 0x69, 0x61];
    hide AdlerSums, ByteSum, WeightedSum;
    AdlerClosed(Split(1), d);
    WikipediaSums(d);
  }

  lemma WikipediaSums(d: seq<Byte>)
    requires d == [0x57, 0x69, 0x6B, 0x69, 0x70, 0x65, 0x64, 0x69, 0x61]
    ensures ByteSum(d) == 919 && WeightedSum(d) == 4573
  {
    hide ByteSum, WeightedSum;
    var e, f: seq<Byte> := [0x69, 0x70, 0x65, 0x64, 0x69, 0x61], [0x64, 0x69, 0x61];
    assert d[3..] == e && e[3..] == f && f[3..] == [];
    SumsOfThree(d);
    SumsOfThree(e);
    SumsOfThree(f);
    NoSums();
  }

  lemma NoSums()
    ensures ByteSum([]) == 0 == WeightedSum([])
  {
  }

  lemma SumsOfThree(d: seq<Byte>)
    requires |d| >= 3
    ensures ByteSum(d) == d[0] + d[1] + d[2] + ByteSum(d[3..])
    ensures WeightedSum(d) == |d| * d[0] + (|d| - 1) * d[1] + (|d| - 2) * d[2] + WeightedSum(d[3..])
  {
    assert d[1..][1..] == d[2..] && d[2..][1..] == d[3..];
  }
}
