/** Record layouts of a ZIP archive (sections 4.3.7, 4.3.12 and 4.3.16 of the PKWARE APPNOTE;
    src/http/miniz.c:2949-2968) and the writing of their headers (src/http/miniz.c:4157-4194, 4742-4747). */
module ZipFormat {
  import opened Bits
  import opened ZipNames

  const LDH_SIZE := 30    // MZ_ZIP_LOCAL_DIR_HEADER_SIZE
  const ECDH_SIZE := 22   // MZ_ZIP_END_OF_CENTRAL_DIR_HEADER_SIZE
  const LOCAL_SIG := 0x04034b50
  const CENTRAL_SIG := 0x02014b50
  const END_SIG := 0x06054b50
  const LIMIT := 0xFFFFFFFF

  /** MZ_READ_LE32. */
  function ReadLe32(s: seq<Byte>, i: nat): (v: nat)
    requires i + 4 <= |s|
    ensures v < 0x1_0000_0000
  {
    ReadLe16(s, i) + 0x1_0000 * ReadLe16(s, i + 2)
  }

  /** What a directory entry says about its file. */
  datatype Entry = Entry(name: Name, comment: seq<Byte>, uncompSize: nat, compSize: nat, crc: nat, storage: nat, dosTime: nat, dosDate: nat,
                         localOfs: nat, extAttr: nat)

  /** All fields fit where they go. */
  predicate Sized(e: Entry)
  {
    && |e.name| < 0x10000 && |e.comment| < 0x10000 && e.uncompSize < 0x1_0000_0000 && e.compSize < 0x1_0000_0000 && e.crc < 0x1_0000_0000
    && e.storage < 0x10000 && e.dosTime < 0x10000 && e.dosDate < 0x10000 && e.localOfs < 0x1_0000_0000 && e.extAttr < 0x1_0000_0000
  }

  // ---------- layouts ----------

  /** Byte d of v, counted from the lowest. */
  function Digit(v: nat, d: nat): Byte
  {
    if d == 0 then v % 0x100 else if d == 1 then v / 0x100 % 0x100 else if d == 2 then v / 0x1_0000 % 0x100 else v / 0x100_0000 % 0x100
  }

  function VersionNeeded(e: Entry): nat { if e.storage != 0 then 20 else 0 }

  /** Byte k of the central directory header. */
  function CentralByte(e: Entry, k: nat): Byte
  {
    if k < 4 then Digit(CENTRAL_SIG, k) else if k < 6 then 0 else if k < 8 then Digit(VersionNeeded(e), k - 6) else if k < 10 then 0
    else if k < 12 then Digit(e.storage, k - 10) else if k < 14 then Digit(e.dosTime, k - 12) else if k < 16 then Digit(e.dosDate, k - 14)
    else if k < 20 then Digit(e.crc, k - 16) else if k < 24 then Digit(e.compSize, k - 20) else if k < 28 then Digit(e.uncompSize, k - 24)
    else if k < 30 then Digit(|e.name|, k - 28) else if k < 32 then 0 else if k < 34 then Digit(|e.comment|, k - 32)
    else if k < 38 then 0 else if k < 42 then Digit(e.extAttr, k - 38) else Digit(e.localOfs, k - 42)
  }

  function CentralHeader(e: Entry): (h: seq<Byte>)
    ensures |h| == CDH_SIZE
  {
    seq(CDH_SIZE, k requires 0 <= k => CentralByte(e, k))
  }

  /** Byte k of the local header. */
  function LocalByte(e: Entry, k: nat): Byte
  {
    if k < 4 then Digit(LOCAL_SIG, k) else if k < 6 then Digit(VersionNeeded(e), k - 4) else if k < 8 then 0
    else if k < 10 then Digit(e.storage, k - 8) else if k < 12 then Digit(e.dosTime, k - 10) else if k < 14 then Digit(e.dosDate, k - 12)
    else if k < 18 then Digit(e.crc, k - 14) else if k < 22 then Digit(e.compSize, k - 18) else if k < 26 then Digit(e.uncompSize, k - 22)
    else if k < 28 then Digit(|e.name|, k - 26) else 0
  }

  function LocalHeader(e: Entry): (h: seq<Byte>)
    ensures |h| == LDH_SIZE
  {
    seq(LDH_SIZE, k requires 0 <= k => LocalByte(e, k))
  }

  /** Byte k of the end record: so many entries, in a directory of this size at this place. */
  function EndByte(total: nat, size: nat, ofs: nat, k: nat): Byte
  {
    if k < 4 then Digit(END_SIG, k) else if k < 8 then 0 else if k < 10 then Digit(total, k - 8) else if k < 12 then Digit(total, k - 10)
    else if k < 16 then Digit(size, k - 12) else if k < 20 then Digit(ofs, k - 16) else 0
  }

  function EndRecord(total: nat, size: nat, ofs: nat): (h: seq<Byte>)
    ensures |h| == ECDH_SIZE
  {
    seq(ECDH_SIZE, k requires 0 <= k => EndByte(total, size, ofs, k))
  }

  // ---------- reading fields ----------

  lemma TwoDigits(v: nat)
    requires v < 0x10000
    ensures (Digit(v, 0) as nat) + (Digit(v, 1) as nat) * 0x100 == v
  {
  }

  lemma FourDigits(v: nat)
    requires v < 0x1_0000_0000
    ensures (Digit(v, 0) as nat) + (Digit(v, 1) as nat) * 0x100 + 0x1_0000 * ((Digit(v, 2) as nat) + (Digit(v, 3) as nat) * 0x100) == v
  {
    assert v / 0x1_0000 / 0x100 == v / 0x100_0000;
    assert v / 0x1_0000 < 0x1_0000;
  }

  /** Two bytes of a layout that are the digits of v read as v. */
  lemma Field16(h: seq<Byte>, k: nat, v: nat)
    requires v < 0x10000 && k + 2 <= |h| && h[k] == Digit(v, 0) && h[k + 1] == Digit(v, 1)
    ensures ReadLe16(h, k) == v
  {
    hide Digit;
    TwoDigits(v);
  }

  lemma Field32(h: seq<Byte>, k: nat, v: nat)
    requires v < 0x1_0000_0000 && k + 4 <= |h| && h[k] == Digit(v, 0) && h[k + 1] == Digit(v, 1) && h[k + 2] == Digit(v, 2) && h[k + 3] == Digit(v, 3)
    ensures ReadLe32(h, k) == v
  {
    hide Digit;
    FourDigits(v);
  }

  /** The fields of the central directory header. */
  lemma CentralFields(e: Entry)
    requires Sized(e)
    ensures var h := CentralHeader(e);
            && ReadLe32(h, 0) == CENTRAL_SIG && ReadLe16(h, 4) == 0 && ReadLe16(h, 6) == VersionNeeded(e) && ReadLe16(h, 8) == 0 && ReadLe16(h, 10) == e.storage
            && ReadLe16(h, 12) == e.dosTime && ReadLe16(h, 14) == e.dosDate && ReadLe32(h, 16) == e.crc
            && ReadLe32(h, 20) == e.compSize && ReadLe32(h, 24) == e.uncompSize
            && ReadLe16(h, 28) == |e.name| && ReadLe16(h, 30) == 0 && ReadLe16(h, 32) == |e.comment|
            && ReadLe16(h, 34) == 0 && ReadLe16(h, 36) == 0 && ReadLe32(h, 38) == e.extAttr && ReadLe32(h, 42) == e.localOfs
  {
    hide Digit, ReadLe16, ReadLe32;
    var h := CentralHeader(e);
    ZeroDigits();
    Field32(h, 0, CENTRAL_SIG);
    Field16(h, 4, 0);
    Field16(h, 6, VersionNeeded(e));
    Field16(h, 8, 0);
    Field16(h, 10, e.storage);
    Field16(h, 12, e.dosTime);
    Field16(h, 14, e.dosDate);
    Field32(h, 16, e.crc);
    Field32(h, 20, e.compSize);
    Field32(h, 24, e.uncompSize);
    Field16(h, 28, |e.name|);
    Field16(h, 30, 0);
    Field16(h, 32, |e.comment|);
    Field16(h, 34, 0);
    Field16(h, 36, 0);
    Field32(h, 38, e.extAttr);
    Field32(h, 42, e.localOfs);
  }

  lemma ZeroDigits()
    ensures Digit(0, 0) == 0 && Digit(0, 1) == 0
  {
  }

  /** The fields of the local header. */
  lemma LocalFields(e: Entry)
    requires Sized(e)
    ensures var h := LocalHeader(e);
            && ReadLe32(h, 0) == LOCAL_SIG && ReadLe16(h, 4) == VersionNeeded(e) && ReadLe16(h, 6) == 0 && ReadLe16(h, 8) == e.storage
            && ReadLe16(h, 10) == e.dosTime && ReadLe16(h, 12) == e.dosDate && ReadLe32(h, 14) == e.crc && ReadLe32(h, 18) == e.compSize
            && ReadLe32(h, 22) == e.uncompSize && ReadLe16(h, 26) == |e.name| && ReadLe16(h, 28) == 0
  {
    hide Digit, ReadLe16, ReadLe32;
    var h := LocalHeader(e);
    ZeroDigits();
    Field32(h, 0, LOCAL_SIG);
    Field16(h, 4, VersionNeeded(e));
    Field16(h, 6, 0);
    Field16(h, 8, e.storage);
    Field16(h, 10, e.dosTime);
    Field16(h, 12, e.dosDate);
    Field32(h, 14, e.crc);
    Field32(h, 18, e.compSize);
    Field32(h, 22, e.uncompSize);
    Field16(h, 26, |e.name|);
    Field16(h, 28, 0);
  }

  lemma EndFields(total: nat, size: nat, ofs: nat)
    requires total < 0x10000 && size < 0x1_0000_0000 && ofs < 0x1_0000_0000
    ensures var h := EndRecord(total, size, ofs);
            && ReadLe32(h, 0) == END_SIG && ReadLe16(h, 4) == 0 && ReadLe16(h, 6) == 0 && ReadLe16(h, 8) == total && ReadLe16(h, 10) == total
            && ReadLe32(h, 12) == size && ReadLe32(h, 16) == ofs && ReadLe16(h, 20) == 0
  {
    hide Digit, ReadLe16, ReadLe32;
    var h := EndRecord(total, size, ofs);
    ZeroDigits();
    Field32(h, 0, END_SIG);
    Field16(h, 4, 0);
    Field16(h, 6, 0);
    Field16(h, 8, total);
    Field16(h, 10, total);
    Field32(h, 12, size);
    Field32(h, 16, ofs);
    Field16(h, 20, 0);
  }

  /** The first bytes of the three records, and the order of bytes in numbers. */
  lemma KnownBytes(e: Entry, total: nat, size: nat, ofs: nat)
    ensures LocalHeader(e)[..4] == ['P' as int, 'K' as int, 3, 4] && CentralHeader(e)[..4] == ['P' as int, 'K' as int, 1, 2]
    ensures EndRecord(total, size, ofs)[..4] == ['P' as int, 'K' as int, 5, 6]
    ensures ReadLe16([0x34, 0x12], 0) == 0x1234 && ReadLe32([0x78, 0x56, 0x34, 0x12], 0) == 0x1234_5678
  {
  }

  /** A field inside a larger string. */
  lemma Inside16(s: seq<Byte>, p: nat, h: seq<Byte>, k: nat)
    requires p + |h| <= |s| && s[p..p + |h|] == h && k + 2 <= |h|
    ensures ReadLe16(s, p + k) == ReadLe16(h, k)
  {
    assert s[p + k] == s[p..p + |h|][k] && s[p + k + 1] == s[p..p + |h|][k + 1];
  }

  lemma Inside32(s: seq<Byte>, p: nat, h: seq<Byte>, k: nat)
    requires p + |h| <= |s| && s[p..p + |h|] == h && k + 4 <= |h|
    ensures ReadLe32(s, p + k) == ReadLe32(h, k)
  {
    hide ReadLe16;
    Inside16(s, p, h, k);
    Inside16(s, p, h, k + 2);
  }

  // ---------- writing headers ----------

  /** MZ_WRITE_LE16. */
  method WriteLe16(a: array<Byte>, i: nat, v: nat)
    requires i + 2 <= a.Length
    modifies a
    ensures a[i] == Digit(v, 0) && a[i + 1] == Digit(v, 1)
    ensures forall k :: 0 <= k < a.Length && !(i <= k < i + 2) ==> a[k] == old(a[k])
  {
    a[i] := v % 0x100;
    a[i + 1] := v / 0x100 % 0x100;
  }

  /** MZ_WRITE_LE32. */
  method WriteLe32(a: array<Byte>, i: nat, v: nat)
    requires i + 4 <= a.Length
    modifies a
    ensures a[i] == Digit(v, 0) && a[i + 1] == Digit(v, 1) && a[i + 2] == Digit(v, 2) && a[i + 3] == Digit(v, 3)
    ensures forall k :: 0 <= k < a.Length && !(i <= k < i + 4) ==> a[k] == old(a[k])
  {
    WriteLe16(a, i, v);
    WriteLe16(a, i + 2, v / 0x10000);
    assert v / 0x1_0000 / 0x100 == v / 0x100_0000;
  }

  /** mz_zip_writer_create_central_dir_header. */
  method CreateCentralHeader(e: Entry) returns (h: array<Byte>)
    ensures fresh(h) && h[..] == CentralHeader(e)
  {
    hide CentralByte, Digit;
    h := new Byte[CDH_SIZE](i => 0);
    CentralFirst(h, e);
    CentralSizes(h, e);
    CentralRest(h, e);
  }

  method CentralFirst(h: array<Byte>, e: Entry)
    requires h.Length == CDH_SIZE && forall k :: 0 <= k < CDH_SIZE ==> h[k] == 0
    modifies h
    ensures forall k :: 0 <= k < CDH_SIZE ==> h[k] == if k < 16 then CentralByte(e, k) else 0
  {
    hide Digit;
    ZeroDigits();
    WriteLe32(h, 0, CENTRAL_SIG);
    WriteLe16(h, 6, VersionNeeded(e));
    WriteLe16(h, 8, 0);
    WriteLe16(h, 10, e.storage);
    WriteLe16(h, 12, e.dosTime);
    WriteLe16(h, 14, e.dosDate);
    forall k | 0 <= k < CDH_SIZE ensures h[k] == if k < 16 then CentralByte(e, k) else 0 { }
  }

  method CentralSizes(h: array<Byte>, e: Entry)
    requires h.Length == CDH_SIZE && forall k :: 0 <= k < CDH_SIZE ==> h[k] == if k < 16 then CentralByte(e, k) else 0
    modifies h
    ensures forall k :: 0 <= k < CDH_SIZE ==> h[k] == if k < 28 then CentralByte(e, k) else 0
  {
    hide Digit;
    WriteLe32(h, 16, e.crc);
    WriteLe32(h, 20, e.compSize);
    WriteLe32(h, 24, e.uncompSize);
    forall k | 0 <= k < CDH_SIZE ensures h[k] == if k < 28 then CentralByte(e, k) else 0 { }
  }

  method CentralRest(h: array<Byte>, e: Entry)
    requires h.Length == CDH_SIZE && forall k :: 0 <= k < CDH_SIZE ==> h[k] == if k < 28 then CentralByte(e, k) else 0
    modifies h
    ensures forall k :: 0 <= k < CDH_SIZE ==> h[k] == CentralByte(e, k)
  {
    hide Digit;
    ZeroDigits();
    WriteLe16(h, 28, |e.name|);
    WriteLe16(h, 30, 0);
    WriteLe16(h, 32, |e.comment|);
    WriteLe32(h, 38, e.extAttr);
    WriteLe32(h, 42, e.localOfs);
    forall k | 0 <= k < CDH_SIZE ensures h[k] == CentralByte(e, k) { }
  }

  /** mz_zip_writer_create_local_dir_header. */
  method CreateLocalHeader(e: Entry) returns (h: array<Byte>)
    ensures fresh(h) && h[..] == LocalHeader(e)
  {
    hide LocalByte, Digit;
    h := new Byte[LDH_SIZE](i => 0);
    LocalFirst(h, e);
    LocalRest(h, e);
  }

  method LocalFirst(h: array<Byte>, e: Entry)
    requires h.Length == LDH_SIZE && forall k :: 0 <= k < LDH_SIZE ==> h[k] == 0
    modifies h
    ensures forall k :: 0 <= k < LDH_SIZE ==> h[k] == if k < 14 then LocalByte(e, k) else 0
  {
    hide Digit;
    ZeroDigits();
    WriteLe32(h, 0, LOCAL_SIG);
    WriteLe16(h, 4, VersionNeeded(e));
    WriteLe16(h, 6, 0);
    WriteLe16(h, 8, e.storage);
    WriteLe16(h, 10, e.dosTime);
    WriteLe16(h, 12, e.dosDate);
    forall k | 0 <= k < LDH_SIZE ensures h[k] == if k < 14 then LocalByte(e, k) else 0 { }
  }

  method LocalRest(h: array<Byte>, e: Entry)
    requires h.Length == LDH_SIZE && forall k :: 0 <= k < LDH_SIZE ==> h[k] == if k < 14 then LocalByte(e, k) else 0
    modifies h
    ensures forall k :: 0 <= k < LDH_SIZE ==> h[k] == LocalByte(e, k)
  {
    hide Digit;
    ZeroDigits();
    WriteLe32(h, 14, e.crc);
    WriteLe32(h, 18, e.compSize);
    WriteLe32(h, 22, e.uncompSize);
    WriteLe16(h, 26, |e.name|);
    WriteLe16(h, 28, 0);
    forall k | 0 <= k < LDH_SIZE ensures h[k] == LocalByte(e, k) { }
  }

  /** The end record of mz_zip_writer_finalize_archive. */
  method CreateEndRecord(total: nat, size: nat, ofs: nat) returns (h: array<Byte>)
    ensures fresh(h) && h[..] == EndRecord(total, size, ofs)
  {
    hide Digit;
    h := new Byte[ECDH_SIZE](i => 0);
    WriteLe32(h, 0, END_SIG);
    WriteLe16(h, 8, total);
    WriteLe16(h, 10, total);
    assert forall k :: 0 <= k < ECDH_SIZE ==> h[k] == if k < 12 then EndByte(total, size, ofs, k) else 0;
    EndRest(h, total, size, ofs);
  }

  method EndRest(h: array<Byte>, ghost total: nat, size: nat, ofs: nat)
    requires h.Length == ECDH_SIZE && forall k :: 0 <= k < ECDH_SIZE ==> h[k] == if k < 12 then EndByte(total, size, ofs, k) else 0
    modifies h
    ensures forall k :: 0 <= k < ECDH_SIZE ==> h[k] == EndByte(total, size, ofs, k)
  {
    hide Digit;
    WriteLe32(h, 12, size);
    WriteLe32(h, 16, ofs);
    forall k | 0 <= k < ECDH_SIZE ensures h[k] == EndByte(total, size, ofs, k) { }
  }
}
