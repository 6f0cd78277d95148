/** Reading a central directory (mz_zip_reader_read_central_dir, src/http/miniz.c:3168-3260) and
    extracting an entry (src/http/miniz.c:3538-3665), for an archive in memory. */
module ZipReader {
  import opened Bits
  import opened CanonicalCode
  import opened ZipNames
  import opened ZipFormat
  import opened ZipWriter
  import ZipSort
  import ZipIndex
  import Checksums
  import Inflate

  const WINDOW := 4096

  // ---------- the end record ----------

  predicate SigAt(a: seq<Byte>, q: nat)
  {
    q + 4 <= |a| && ReadLe32(a, q) == END_SIG
  }

  /** The lowest place that the scan comes to, from a window at `cur` on. With a 64-bit size_t, the offset of
      the next window is reckoned without sign, so that a window that would start before the file ends the scan. */
  function LowestFrom(size: nat, cur: nat): (lo: nat)
    ensures lo <= cur && (lo == 0 || lo < WINDOW - 3 || size - lo >= 0xFFFF + ECDH_SIZE)
  {
    if cur == 0 || size - cur >= 0xFFFF + ECDH_SIZE || cur < WINDOW - 3 then cur else LowestFrom(size, cur - (WINDOW - 3))
  }

  function LowestScanned(size: nat): (lo: nat)
    ensures lo + WINDOW <= size || lo == 0
  {
    LowestFrom(size, if size > WINDOW then size - WINDOW else 0)
  }

  /** The scan for the end record, a window at a time from the end: the last place where its signature
      stands, if that is not below the lowest one scanned, or failure. */
  method FindEnd(a: seq<Byte>) returns (pos: int)
    requires |a| >= ECDH_SIZE
    ensures pos >= 0 ==> LowestScanned(|a|) <= pos && SigAt(a, pos) && forall q :: pos < q < |a| ==> !SigAt(a, q)
    ensures pos < 0 <==> forall q :: LowestScanned(|a|) <= q < |a| ==> !SigAt(a, q)
  {
    hide ReadLe32;
    var size := |a|;
    var cur := if size > WINDOW then size - WINDOW else 0;
    ghost var checked: nat := size;
    while true
      invariant 0 <= cur <= checked <= size && checked <= cur + WINDOW && LowestFrom(size, cur) == LowestScanned(size)
      invariant checked < size ==> checked + 4 <= size
      invariant cur + (if WINDOW < size - cur then WINDOW else size - cur) - 3 >= checked || checked == size
      invariant forall q :: checked <= q < size ==> !SigAt(a, q)
      decreases cur
    {
      var n := if WINDOW < size - cur then WINDOW else size - cur;
      var i := n - 4;
      while i >= 0
        invariant -1 <= i <= n - 4 || i == n - 4
        invariant forall q :: cur + i < q < size ==> !SigAt(a, q)
      {
        if ReadLe32(a, cur + i) == END_SIG { break; }
        i := i - 1;
      }
      if i >= 0 { return cur + i; }
      checked := cur;
      if cur == 0 || size - cur >= 0xFFFF + ECDH_SIZE { return -1; }
      if cur < WINDOW - 3 { return -1; }
      cur := cur - (WINDOW - 3);
    }
  }

  /** The scan comes to every place where an end record can start, the comment after it being of any length up
      to 65535, exactly for these sizes of archive. */
  lemma ScansAllIff(size: nat)
    requires size >= ECDH_SIZE
    ensures LowestScanned(size) + 0xFFFF + ECDH_SIZE <= size || LowestScanned(size) == 0
       <==> size <= WINDOW || (size - WINDOW) % (WINDOW - 3) == 0 || size >= WINDOW + 16 * (WINDOW - 3)
  {
    if size > WINDOW { ScansFrom(size, size - WINDOW, 0); }
  }

  lemma {:induction false} ScansFrom(size: nat, cur: nat, k: nat)
    requires size == cur + WINDOW + k * (WINDOW - 3) && k <= 16
    ensures LowestFrom(size, cur) + 0xFFFF + ECDH_SIZE <= size || LowestFrom(size, cur) == 0
       <==> (size - WINDOW) % (WINDOW - 3) == 0 || size >= WINDOW + 16 * (WINDOW - 3)
    decreases 16 - k
  {
    if k < 16 {
      if cur < WINDOW - 3 {
        assert (size - WINDOW) % (WINDOW - 3) == cur;
      } else {
        ScansFrom(size, cur - (WINDOW - 3), k + 1);
      }
    }
  }

  /** One of the others: an empty archive with a comment of 4978 bytes. Its end record is at the start, the scan
      ends at byte 904, and the archive is not opened. */
  lemma MissedEndRecord() returns (a: seq<Byte>)
    ensures |a| == 5000 && LowestScanned(|a|) == 904 && SigAt(a, 0) && forall q :: 904 <= q < |a| ==> !SigAt(a, q)
  {
    a := EndRecord(0, 0, 0)[..20] + [Digit(4978, 0), Digit(4978, 1)] + Blank(4978);
    EndFields(0, 0, 0);
    assert a[0..20] == EndRecord(0, 0, 0)[0..20];
    Inside32(a, 0, EndRecord(0, 0, 0)[..20], 0);
    Inside32(EndRecord(0, 0, 0), 0, EndRecord(0, 0, 0)[..20], 0);
  }

  // ---------- the directory ----------

  /** The checks on one record, with n bytes of the directory left (src/http/miniz.c:3242-3257). */
  predicate RecordOk(dir: seq<Byte>, p: nat, disk: nat, size: nat)
    requires p <= |dir|
  {
    && p + CDH_SIZE <= |dir| && ReadLe32(dir, p) == CENTRAL_SIG
    && SizesOk(ReadLe32(dir, p + 10), ReadLe32(dir, p + 20), ReadLe32(dir, p + 24))
    && (ReadLe16(dir, p + 34) == disk || ReadLe16(dir, p + 34) == 1)
    && ReadLe32(dir, p + 42) + LDH_SIZE + ReadLe32(dir, p + 20) <= size
    && p + RecordSize(dir, p) <= |dir|
  }

  predicate SizesOk(storage: nat, comp: nat, decomp: nat)
  {
    !((storage == 0 && decomp != comp) || (decomp > 0 && comp == 0) || decomp == LIMIT || comp == LIMIT)
  }

  function RecordSize(dir: seq<Byte>, p: nat): nat
    requires p + CDH_SIZE <= |dir|
  {
    CDH_SIZE + ReadLe16(dir, p + 28) + ReadLe16(dir, p + 30) + ReadLe16(dir, p + 32)
  }

  /** The checks on one record (src/http/miniz.c:3240-3257). */
  method CheckRecord(dir: seq<Byte>, p: nat, disk: nat, size: nat) returns (ok: bool, total: nat)
    requires p <= |dir|
    ensures ok == RecordOk(dir, p, disk, size) && (ok ==> total == RecordSize(dir, p))
  {
    hide ReadLe32, ReadLe16;
    total := 0;
    if |dir| - p < CDH_SIZE || ReadLe32(dir, p) != CENTRAL_SIG { return false, total; }
    var comp, decomp := ReadLe32(dir, p + 20), ReadLe32(dir, p + 24);
    if (ReadLe32(dir, p + 10) == 0 && decomp != comp) || (decomp > 0 && comp == 0) || decomp == LIMIT || comp == LIMIT { return false, total; }
    var diskIndex := ReadLe16(dir, p + 34);
    if diskIndex != disk && diskIndex != 1 { return false, total; }
    if ReadLe32(dir, p + 42) + LDH_SIZE + comp > size { return false, total; }
    total := CDH_SIZE + ReadLe16(dir, p + 28) + ReadLe16(dir, p + 30) + ReadLe16(dir, p + 32);
    ok := total <= |dir| - p;
  }

  /** Where the record after those at these offsets starts. */
  ghost predicate NextAt(dir: seq<Byte>, offsets: seq<nat>, p: nat)
  {
    if offsets == [] then p == 0 else
    var q := offsets[|offsets| - 1];
    q + CDH_SIZE <= |dir| && p == q + RecordSize(dir, q)
  }

  /** The records follow one another from the start, and each one is in order. */
  ghost predicate Index(dir: seq<Byte>, disk: nat, size: nat, offsets: seq<nat>)
  {
    forall i :: 0 <= i < |offsets| ==> RecordAs(dir, disk, size, offsets, i)
  }

  ghost predicate RecordAs(dir: seq<Byte>, disk: nat, size: nat, offsets: seq<nat>, i: nat)
    requires i < |offsets|
  {
    offsets[i] <= |dir| && RecordOk(dir, offsets[i], disk, size) && NextAt(dir, offsets[..i], offsets[i])
  }

  lemma IndexGrows(dir: seq<Byte>, disk: nat, size: nat, offsets: seq<nat>, p: nat)
    requires Index(dir, disk, size, offsets) && NextAt(dir, offsets, p) && p <= |dir| && RecordOk(dir, p, disk, size)
    ensures Index(dir, disk, size, offsets + [p]) && NextAt(dir, offsets + [p], p + RecordSize(dir, p))
  {
    hide RecordOk, NextAt, RecordSize;
    var t := offsets + [p];
    forall i | 0 <= i < |t| ensures RecordAs(dir, disk, size, t, i) {
      if i < |offsets| {
        assert RecordAs(dir, disk, size, offsets, i) && t[..i] == offsets[..i];
      } else {
        assert t[..i] == offsets;
      }
    }
    NextIs(dir, t, disk, size);
  }

  lemma NextIs(dir: seq<Byte>, offsets: seq<nat>, disk: nat, size: nat)
    requires offsets != [] && offsets[|offsets| - 1] <= |dir| && RecordOk(dir, offsets[|offsets| - 1], disk, size)
    ensures var q := offsets[|offsets| - 1]; q + CDH_SIZE <= |dir| && NextAt(dir, offsets, q + RecordSize(dir, q))
  {
    hide RecordSize;
  }

  /** There is one way only to go through a directory. */
  lemma {:induction false} OneIndex(dir: seq<Byte>, disk: nat, size: nat, a: seq<nat>, b: seq<nat>, p: nat)
    requires Index(dir, disk, size, a) && NextAt(dir, a, p) && Index(dir, disk, size, b) && |a| < |b|
    ensures b[..|a|] == a && b[|a|] == p && p <= |dir| && RecordOk(dir, p, disk, size)
    decreases |a|
  {
    hide RecordOk, NextAt, RecordSize;
    assert RecordAs(dir, disk, size, b, |a|);
    if a != [] {
      var k := |a| - 1;
      assert RecordAs(dir, disk, size, a, k);
      IndexPrefix(dir, disk, size, a, k);
      OneIndex(dir, disk, size, a[..k], b, a[k]);
      assert b[..|a|] == b[..k] + [b[k]] && a == a[..k] + [a[k]];
    } else {
      assert b[..0] == a;
    }
    NextOnce(dir, a, p, b[|a|]);
  }

  lemma NextOnce(dir: seq<Byte>, offsets: seq<nat>, p: nat, q: nat)
    requires NextAt(dir, offsets, p) && NextAt(dir, offsets, q)
    ensures p == q
  {
  }

  lemma IndexPrefix(dir: seq<Byte>, disk: nat, size: nat, offsets: seq<nat>, k: nat)
    requires Index(dir, disk, size, offsets) && k <= |offsets|
    ensures Index(dir, disk, size, offsets[..k])
  {
    hide RecordOk, NextAt;
    forall i | 0 <= i < k ensures RecordAs(dir, disk, size, offsets[..k], i) {
      assert RecordAs(dir, disk, size, offsets, i) && offsets[..k][..i] == offsets[..i];
    }
  }

  /** The index into the directory (src/http/miniz.c:3237-3259): it is made exactly if there are so many records in order. */
  method ReadRecords(dir: seq<Byte>, total: nat, disk: nat, size: nat, ghost es: seq<Entry>) returns (ok: bool, offsets: seq<nat>)
    ensures ok ==> |offsets| == total && Index(dir, disk, size, offsets) && forall i :: 0 <= i < total ==> HasName(dir, offsets[i])
    ensures !ok ==> forall o :: |o| == total ==> !Index(dir, disk, size, o)
    ensures Written(dir, es, size) && |es| == total && disk == 0 ==> (ok <==> AllReadable(es, |es|)) && (ok ==> offsets == Offsets(es))
  {
    hide ReadLe32, ReadLe16, Written, RecordOk, Readable, Directory, Offsets, Index, NextAt, RecordSize;
    var p: nat, i: nat := 0, 0;
    offsets := [];
    NothingRead(es);
    NoIndex(dir, disk, size);
    while i < total
      invariant 0 <= i <= total && p <= |dir| && |offsets| == i && forall k :: 0 <= k < i ==> HasName(dir, offsets[k])
      invariant Index(dir, disk, size, offsets) && NextAt(dir, offsets, p)
      invariant Written(dir, es, size) && |es| == total && disk == 0 ==> ReadUpTo(es, i, p, offsets)
    {
      if Written(dir, es, size) && |es| == total && disk == 0 { RecordOkIff(dir, es, i, size); }
      var headerSize;
      ok, headerSize := CheckRecord(dir, p, disk, size);
      if !ok {
        forall o | |o| == total ensures !Index(dir, disk, size, o) {
          if Index(dir, disk, size, o) { OneIndex(dir, disk, size, offsets, o, p); }
        }
        return false, offsets;
      }
      RecordNamed(dir, p, disk, size);
      IndexGrows(dir, disk, size, offsets, p);
      offsets := offsets + [p];
      p := p + headerSize;
      i := i + 1;
    }
    ok := true;
    assert es[..|es|] == es;
  }

  lemma NoIndex(dir: seq<Byte>, disk: nat, size: nat)
    ensures Index(dir, disk, size, []) && NextAt(dir, [], 0)
  {
  }

  lemma RecordNamed(dir: seq<Byte>, p: nat, disk: nat, size: nat)
    requires p <= |dir| && RecordOk(dir, p, disk, size)
    ensures HasName(dir, p) && p + RecordSize(dir, p) <= |dir|
  {
    hide ReadLe32, ReadLe16;
  }

  /** A directory as the writer makes it. */
  ghost predicate Written(dir: seq<Byte>, es: seq<Entry>, size: nat)
  {
    dir == Directory(es) && forall i :: 0 <= i < |es| ==> Sane(es[i], size)
  }

  predicate Sane(e: Entry, size: nat)
  {
    Sized(e) && LocalEnd(e) <= size <= LIMIT && (e.storage == 0 ==> e.compSize == e.uncompSize) && (e.compSize == 0 ==> e.uncompSize == 0)
  }

  /** The reader takes 0xFFFFFFFF for the mark of a zip64 entry, which it does not support. */
  predicate Readable(e: Entry)
  {
    e.uncompSize != LIMIT
  }

  predicate AllReadable(es: seq<Entry>, n: nat)
    requires n <= |es|
  {
    forall i :: 0 <= i < n ==> Readable(es[i])
  }

  /** The first i records are read, and could be. */
  ghost predicate ReadUpTo(es: seq<Entry>, i: nat, p: nat, offsets: seq<nat>)
  {
    i <= |es| && AllReadable(es, i) && p == |Directory(es[..i])| && offsets == Offsets(es[..i])
  }

  lemma NothingRead(es: seq<Entry>)
    ensures ReadUpTo(es, 0, 0, [])
  {
    assert es[..0] == [];
  }

  /** Where record i stands. */
  lemma {:induction false} RecordAt(es: seq<Entry>, i: nat)
    requires i < |es|
    ensures var p := |Directory(es[..i])|; p + |Record(es[i])| <= |Directory(es)| && Directory(es)[p..p + |Record(es[i])|] == Record(es[i])
    decreases |es|
  {
    hide Record;
    var k := |es| - 1;
    if i < k {
      RecordAt(es[..k], i);
      assert es[..k][..i] == es[..i];
      var p := |Directory(es[..i])|;
      assert Directory(es)[p..p + |Record(es[i])|] == Directory(es[..k])[p..p + |Record(es[i])|];
    }
  }

  lemma HeaderAt(dir: seq<Byte>, p: nat, e: Entry)
    requires p + |Record(e)| <= |dir| && dir[p..p + |Record(e)|] == Record(e)
    ensures dir[p..p + CDH_SIZE] == CentralHeader(e) && dir[p + CDH_SIZE..p + CDH_SIZE + |e.name|] == e.name
  {
    hide CentralHeader;
    Parts(CentralHeader(e), e.name, e.comment);
    SliceOfSlice(dir, p, |Record(e)|, 0, CDH_SIZE);
    SliceOfSlice(dir, p, |Record(e)|, CDH_SIZE, CDH_SIZE + |e.name|);
  }

  lemma Parts(a: seq<Byte>, b: seq<Byte>, c: seq<Byte>)
    ensures (a + b + c)[0..|a|] == a && (a + b + c)[|a|..|a| + |b|] == b
  {
  }

  lemma SliceOfSlice(s: seq<Byte>, p: nat, n: nat, a: nat, b: nat)
    requires p + n <= |s| && a <= b <= n
    ensures s[p..p + n][a..b] == s[p + a..p + b]
  {
    var t, u := s[p..p + n][a..b], s[p + a..p + b];
    assert forall i :: 0 <= i < |t| ==> t[i] == u[i];
  }

  /** The fields of a record in place. */
  lemma RecordFields(dir: seq<Byte>, p: nat, e: Entry)
    requires Sized(e) && p + |Record(e)| <= |dir| && dir[p..p + |Record(e)|] == Record(e)
    ensures ReadLe32(dir, p) == CENTRAL_SIG && ReadLe32(dir, p + 20) == e.compSize && ReadLe32(dir, p + 24) == e.uncompSize
    ensures ReadLe16(dir, p + 28) == |e.name| && ReadLe16(dir, p + 30) == 0 && ReadLe16(dir, p + 32) == |e.comment| && ReadLe16(dir, p + 34) == 0
    ensures ReadLe32(dir, p + 42) == e.localOfs && ReadLe16(dir, p + 10) == e.storage && ReadLe32(dir, p + 16) == e.crc
    ensures ReadLe16(dir, p + 8) == 0 && ReadLe32(dir, p + 38) == e.extAttr
    ensures RecordSize(dir, p) == |Record(e)| && HasName(dir, p) && NameAt(dir, p) == e.name
  {
    hide CentralHeader, ReadLe32, ReadLe16, Sized;
    var h := CentralHeader(e);
    HeaderAt(dir, p, e);
    CentralFields(e);
    Inside32(dir, p, h, 0);
    Inside32(dir, p, h, 20);
    Inside32(dir, p, h, 24);
    Inside32(dir, p, h, 42);
    Inside32(dir, p, h, 16);
    Inside16(dir, p, h, 8);
    Inside32(dir, p, h, 38);
    Inside16(dir, p, h, 10);
    Inside16(dir, p, h, 28);
    Inside16(dir, p, h, 30);
    Inside16(dir, p, h, 32);
    Inside16(dir, p, h, 34);
  }

  /** The checks pass exactly for the entries that are not taken for zip64. */
  lemma RecordOkIff(dir: seq<Byte>, es: seq<Entry>, i: nat, size: nat)
    requires Written(dir, es, size) && i < |es|
    ensures var p := |Directory(es[..i])|;
            p <= |dir| && (RecordOk(dir, p, 0, size) <==> Readable(es[i])) && p + CDH_SIZE <= |dir| && p + RecordSize(dir, p) == |Directory(es[..i + 1])|
    ensures Offsets(es[..i + 1]) == Offsets(es[..i]) + [|Directory(es[..i])|]
    ensures AllReadable(es, i + 1) <==> AllReadable(es, i) && Readable(es[i])
    ensures !Readable(es[i]) ==> !AllReadable(es, |es|)
  {
    hide ReadLe16, Record, Directory, Offsets, Sized;
    var p, e := |Directory(es[..i])|, es[i];
    assert Sane(e, size);
    RecordAt(es, i);
    RecordFields(dir, p, e);
    DirectoryGrows(es[..i], e);
    assert es[..i + 1] == es[..i] + [e];
    StorageField(dir, p, e.storage);
  }

  /** The method field is tested with 32 bits, those of the time included; if these are all zero, so is
      the method. */
  lemma StorageField(dir: seq<Byte>, p: nat, storage: nat)
    requires p + 14 <= |dir| && ReadLe16(dir, p + 10) == storage
    ensures ReadLe32(dir, p + 10) == 0 ==> storage == 0
  {
    hide ReadLe16;
  }

  // ---------- the whole directory ----------

  /** The signature of the end record occurs again inside it. */
  ghost predicate Recurs(a: seq<Byte>)
  {
    exists q: nat :: SigAt(a, q) && q + ECDH_SIZE > |a|
  }

  /** The archive as the writer left it: entries that fit, the directory and the end record. */
  ghost predicate Finished(a: seq<Byte>, ofs: nat, es: seq<Entry>)
  {
    FinalLayout(a, ofs, es) && forall i :: 0 <= i < |es| ==> Sane(es[i], |a|)
  }

  function NamesOf(es: seq<Entry>): (names: seq<Name>)
    ensures |names| == |es|
  {
    seq(|es|, i requires 0 <= i < |es| => es[i].name)
  }

  function NamesIn(dir: seq<Byte>, offsets: seq<nat>): (names: seq<Name>)
    requires forall i :: 0 <= i < |offsets| ==> HasName(dir, offsets[i])
    ensures |names| == |offsets|
  {
    seq(|offsets|, i requires 0 <= i < |offsets| => NameAt(dir, offsets[i]))
  }

  /** The last place where the signature of an end record stands, if the scan comes to it. */
  ghost predicate LastEnd(a: seq<Byte>, pos: nat)
  {
    |a| >= ECDH_SIZE && LowestScanned(|a|) <= pos && SigAt(a, pos) && forall q :: pos < q < |a| ==> !SigAt(a, q)
  }

  /** The end record there is whole and in order: one disk, numbered 0 or 1, as many entries on it as in all, and a
      directory that is long enough for them and lies in the archive. */
  ghost predicate EndOk(a: seq<Byte>, pos: nat)
  {
    && pos + ECDH_SIZE <= |a| && ReadLe16(a, pos + 8) == ReadLe16(a, pos + 10)
    && ReadLe16(a, pos + 4) == ReadLe16(a, pos + 6) <= 1
    && ReadLe16(a, pos + 10) * CDH_SIZE <= ReadLe32(a, pos + 12) && ReadLe32(a, pos + 16) + ReadLe32(a, pos + 12) <= |a|
  }

  /** The directory of an archive with this end record; it is not looked at if there are no entries. */
  function DirectoryAt(a: seq<Byte>, pos: nat): seq<Byte>
    requires pos + ECDH_SIZE <= |a| && ReadLe32(a, pos + 16) + ReadLe32(a, pos + 12) <= |a|
  {
    if ReadLe16(a, pos + 10) == 0 then [] else a[ReadLe32(a, pos + 16)..ReadLe32(a, pos + 16) + ReadLe32(a, pos + 12)]
  }

  /** With this end record, the archive can be opened, and these are the offsets of its records. */
  ghost predicate Opens(a: seq<Byte>, pos: nat, offsets: seq<nat>)
  {
    LastEnd(a, pos) && EndOk(a, pos) && |offsets| == ReadLe16(a, pos + 10) && Index(DirectoryAt(a, pos), ReadLe16(a, pos + 4), |a|, offsets)
  }

  ghost predicate OpensAs(a: seq<Byte>, dir: seq<Byte>, offsets: seq<nat>)
  {
    exists pos: nat :: Opens(a, pos, offsets) && dir == DirectoryAt(a, pos)
  }

  /** Some archives can not be opened. */
  ghost predicate Shut(a: seq<Byte>)
  {
    forall pos: nat, offsets: seq<nat> :: !Opens(a, pos, offsets)
  }

  lemma OneEnd(a: seq<Byte>, pos: nat, q: nat)
    requires LastEnd(a, pos)
    ensures LastEnd(a, q) ==> q == pos
  {
    hide ReadLe32;
  }

  lemma ShutEnd(a: seq<Byte>, pos: nat)
    requires LastEnd(a, pos) && !EndOk(a, pos)
    ensures Shut(a)
  {
    hide EndOk, Index, DirectoryAt, LastEnd;
    forall q: nat, o: seq<nat> ensures !Opens(a, q, o) { OneEnd(a, pos, q); }
  }

  lemma ShutBegin(a: seq<Byte>)
    requires |a| < ECDH_SIZE || forall q :: LowestScanned(|a|) <= q < |a| ==> !SigAt(a, q)
    ensures Shut(a)
  {
    hide EndOk, Index, DirectoryAt, ReadLe32;
  }

  lemma NotShut(a: seq<Byte>, pos: nat, offsets: seq<nat>)
    requires Opens(a, pos, offsets)
    ensures !Shut(a)
  {
  }

  lemma ShutIndex(a: seq<Byte>, pos: nat)
    requires LastEnd(a, pos) && EndOk(a, pos)
    requires forall o :: |o| == ReadLe16(a, pos + 10) ==> !Index(DirectoryAt(a, pos), ReadLe16(a, pos + 4), |a|, o)
    ensures Shut(a)
  {
    hide Index, DirectoryAt, ReadLe16, ReadLe32, LastEnd;
    forall q: nat, o: seq<nat> ensures !Opens(a, q, o) {
      OneEnd(a, pos, q);
    }
  }

  /** The end record that was found, checked (src/http/miniz.c:3199-3215). */
  method ReadEnd(a: seq<Byte>, ghost ofs: nat, ghost es: seq<Entry>) returns (ok: bool, total: nat, disk: nat, size: nat, cofs: nat, ghost pos: int)
    ensures ok ==> cofs + size <= |a| && pos >= 0 && LastEnd(a, pos) && EndOk(a, pos)
    ensures ok ==> total == ReadLe16(a, pos + 10) && disk == ReadLe16(a, pos + 4) && size == ReadLe32(a, pos + 12) && cofs == ReadLe32(a, pos + 16)
    ensures !ok ==> Shut(a)
    ensures Finished(a, ofs, es) ==> (ok <==> !Recurs(a))
    ensures Finished(a, ofs, es) && ok ==> total == |es| && disk == 0 && size == |Directory(es)| && cofs == (if |es| > 0 then ofs else 0)
  {
    hide Recurs, ReadLe16, ReadLe32, Sane, Directory, Shut;
    total, disk, size, cofs, pos := 0, 0, 0, 0, -1;
    if |a| < ECDH_SIZE {
      ShutBegin(a);
      return false, total, disk, size, cofs, pos;
    }
    var at := FindEnd(a);
    pos := at;
    if Finished(a, ofs, es) { LastSignature(a, ofs, es, pos); }
    if pos < 0 { ShutBegin(a); } else if !EndOk(a, pos) { ShutEnd(a, pos); }
    if at < 0 || at + ECDH_SIZE > |a| { return false, total, disk, size, cofs, pos; }
    total := ReadLe16(a, at + 10);
    if ReadLe32(a, at) != END_SIG || total != ReadLe16(a, at + 8) { return false, total, disk, size, cofs, pos; }
    disk := ReadLe16(a, at + 4);
    var cdirDisk := ReadLe16(a, at + 6);
    if (disk != 0 || cdirDisk != 0) && (disk != 1 || cdirDisk != 1) { return false, total, disk, size, cofs, pos; }
    size := ReadLe32(a, at + 12);
    if size < total * CDH_SIZE { return false, total, disk, size, cofs, pos; }
    cofs := ReadLe32(a, at + 16);
    if cofs + size > |a| { return false, total, disk, size, cofs, pos; }
    ok := true;
  }

  lemma {:induction false} DirectoryLength(es: seq<Entry>)
    ensures |Directory(es)| >= |es| * CDH_SIZE
  {
    if es != [] {
      DirectoryLength(es[..|es| - 1]);
    }
  }

  /** The scan stops at the end record, unless its signature recurs; then it stops too late to read 22
      bytes. */
  lemma LastSignature(a: seq<Byte>, ofs: nat, es: seq<Entry>, pos: int)
    requires Finished(a, ofs, es) && |a| >= ECDH_SIZE
    requires pos >= 0 ==> SigAt(a, pos) && forall q :: pos < q < |a| ==> !SigAt(a, q)
    requires pos < 0 ==> forall q :: LowestScanned(|a|) <= q < |a| ==> !SigAt(a, q)
    ensures pos >= 0 && (Recurs(a) <==> pos + ECDH_SIZE > |a|)
    ensures !Recurs(a) ==>
      && ReadLe32(a, pos) == END_SIG && ReadLe16(a, pos + 4) == 0 && ReadLe16(a, pos + 6) == 0 && ReadLe16(a, pos + 8) == |es|
      && ReadLe16(a, pos + 10) == |es| && ReadLe32(a, pos + 12) == |Directory(es)| && ReadLe32(a, pos + 16) == (if |es| > 0 then ofs else 0)
    ensures |Directory(es)| >= |es| * CDH_SIZE && ofs + |Directory(es)| <= |a|
  {
    hide ReadLe16, ReadLe32, Directory, EndRecord, Sane;
    var end := |a| - ECDH_SIZE;
    var h := EndRecord(|es|, |Directory(es)|, if |es| > 0 then ofs else 0);
    EndFields(|es|, |Directory(es)|, if |es| > 0 then ofs else 0);
    DirectoryLength(es);
    assert a[end..end + |h|] == h;
    Inside32(a, end, h, 0);
    assert SigAt(a, end);
    if pos == end {
      Inside16(a, end, h, 4);
      Inside16(a, end, h, 6);
      Inside16(a, end, h, 8);
      Inside16(a, end, h, 10);
      Inside32(a, end, h, 12);
      Inside32(a, end, h, 16);
    }
  }

  /** mz_zip_reader_read_central_dir, on an archive in memory. What the writer finished is read back,
      record by record, if and only if the signature of the end record does not occur again in its last
      18 bytes, and no size is 0xFFFFFFFF. */
  method ReadCentralDir(a: seq<Byte>, sort: bool, ghost ofs: nat, ghost es: seq<Entry>) returns (r: Option<ZipIndex.Reader>, ghost names: seq<Name>)
    ensures r.Some? ==> ZipIndex.Opened(r.value, names) && OpensAs(a, r.value.dir, r.value.offsets) && (sort <==> r.value.sorted.Some?)
    ensures r.None? <==> Shut(a)
    ensures Finished(a, ofs, es) ==> (r.Some? <==> !Recurs(a) && AllReadable(es, |es|))
    ensures Finished(a, ofs, es) && r.Some? ==> r.value.dir == Directory(es) && r.value.offsets == Offsets(es) && names == NamesOf(es)
  {
    hide Recurs, Readable, Directory, Offsets, Sane, ZipSort.SortedIndex, ReadLe16, ReadLe32, Shut, LastEnd, EndOk, Index;
    names := [];
    var ok, total, disk, size, cofs;
    ghost var pos;
    ok, total, disk, size, cofs, pos := ReadEnd(a, ofs, es);
    if !ok { return None, names; }
    EndWithin(a, pos);
    var dir, offsets := [], [];
    NoIndex(dir, disk, |a|);
    if total > 0 {
      dir := a[cofs..cofs + size];
      ok, offsets := ReadRecords(dir, total, disk, |a|, es);
      if !ok {
        ShutIndex(a, pos);
        return None, names;
      }
    }
    assert Opens(a, pos, offsets) && dir == DirectoryAt(a, pos);
    NotShut(a, pos, offsets);
    NoneWritten(es);
    names := NamesIn(dir, offsets);
    if Finished(a, ofs, es) { NamesBack(es, dir, offsets, |a|); }
    DirectoryIs(dir, offsets);
    if sort {
      var indices := new nat[|offsets|](i => i);
      ZipSort.SortByFilename(dir, offsets, indices, names);
      r := Some(ZipIndex.Reader(dir, offsets, Some(indices[..])));
    } else {
      r := Some(ZipIndex.Reader(dir, offsets, None));
    }
  }

  lemma EndWithin(a: seq<Byte>, pos: nat)
    requires EndOk(a, pos)
    ensures pos + ECDH_SIZE <= |a| && ReadLe32(a, pos + 16) + ReadLe32(a, pos + 12) <= |a|
  {
    hide ReadLe16, ReadLe32;
  }

  lemma NoneWritten(es: seq<Entry>)
    ensures es == [] ==> Directory(es) == [] && Offsets(es) == []
  {
  }

  lemma DirectoryIs(dir: seq<Byte>, offsets: seq<nat>)
    requires forall i :: 0 <= i < |offsets| ==> HasName(dir, offsets[i])
    ensures ZipSort.Directory(dir, offsets, NamesIn(dir, offsets))
  {
    hide HasName;
    forall i | 0 <= i < |offsets| ensures ZipSort.EntryName(dir, offsets, NamesIn(dir, offsets), i) { }
  }

  lemma {:induction false} OffsetAt(es: seq<Entry>, i: nat)
    requires i < |es|
    ensures Offsets(es)[i] == |Directory(es[..i])|
  {
    hide Record;
    var k := |es| - 1;
    if i < k {
      OffsetAt(es[..k], i);
      assert es[..k][..i] == es[..i];
    }
  }

  lemma NamesBack(es: seq<Entry>, dir: seq<Byte>, offsets: seq<nat>, size: nat)
    requires dir == Directory(es) && offsets == Offsets(es) && (forall i :: 0 <= i < |es| ==> Sane(es[i], size))
    requires forall i :: 0 <= i < |offsets| ==> HasName(dir, offsets[i])
    ensures NamesIn(dir, offsets) == NamesOf(es)
  {
    hide Directory, Offsets, Record, HasName, ReadLe16, ReadLe32, RecordSize;
    forall i | 0 <= i < |es| ensures NameAt(dir, offsets[i]) == es[i].name {
      OffsetAt(es, i);
      RecordAt(es, i);
      assert Sane(es[i], size);
      RecordFields(dir, |Directory(es[..i])|, es[i]);
    }
  }

  /** What the writer keeps is what the reader asks for. */
  lemma EntriesSane(a: seq<Byte>, alignment: nat, es: seq<Entry>, contents: seq<seq<Byte>>, ofs: nat)
    requires Entries(a, |a|, alignment, es, contents) && FinalLayout(a, ofs, es)
    ensures Finished(a, ofs, es)
  {
    hide LocalHeader, Sized, FinalLayout;
    assert |a| <= LIMIT by { LayoutLimit(a, ofs, es); }
    forall i | 0 <= i < |es| ensures Sane(es[i], |a|) {
      assert EntryOk(a, |a|, alignment, es[i], contents[i]);
      EmptyData(a[DataOfs(es[i])..LocalEnd(es[i])], es[i], contents[i]);
    }
  }

  lemma LayoutLimit(a: seq<Byte>, ofs: nat, es: seq<Entry>)
    requires FinalLayout(a, ofs, es)
    ensures |a| <= LIMIT
  {
    hide Directory, EndRecord;
  }

  /** No data stand for no content only. */
  lemma EmptyData(data: seq<Byte>, e: Entry, content: seq<Byte>)
    requires Represents(data, e, content)
    ensures (e.storage == 0 ==> e.compSize == e.uncompSize) && (e.compSize == 0 ==> e.uncompSize == 0)
  {
    hide Crc, Inflate.InflateBlock;
    if e.compSize == 0 {
      assert data == [] && BytesToBits(data) == [];
    }
  }

  // ---------- an archive that can not be read back ----------

  /** Whenever the directory starts at the number that spells the signature, the end record holds it twice. */
  lemma OffsetSpellsSignature(a: seq<Byte>, es: seq<Entry>)
    requires FinalLayout(a, END_SIG, es) && es != []
    ensures Recurs(a)
  {
    hide Directory, EndRecord, ReadLe32;
    var end, size := |a| - ECDH_SIZE, |Directory(es)|;
    EndFields(|es|, size, END_SIG);
    assert a[end..end + ECDH_SIZE] == EndRecord(|es|, size, END_SIG);
    Inside32(a, end, EndRecord(|es|, size, END_SIG), 16);
    assert SigAt(a, end + 16);
  }

  /** Such an archive: one empty file without a name after 0x06054b32 reserved bytes. The writer makes it,
      all of it is in order, and the reader does not take it. */
  lemma UnreadableArchive() returns (a: seq<Byte>, es: seq<Entry>, contents: seq<seq<Byte>>)
    ensures Entries(a, |a|, 0, es, contents) && Finished(a, END_SIG, es) && AllReadable(es, |es|) && Recurs(a)
  {
    var e := EmptyFile();
    es, contents := [e], [[]];
    var start := Blank(e.localOfs) + LocalHeader(e);
    OneRecord(e);
    a := start + (Record(e) + EndRecord(1, |Record(e)|, END_SIG));
    UnreadableEntry(a, start, e, Record(e) + EndRecord(1, |Record(e)|, END_SIG));
    UnreadableLayout(a, start, e);
    OffsetSpellsSignature(a, es);
    EntriesSane(a, 0, es, contents, END_SIG);
  }

  function EmptyFile(): Entry
  {
    Entry([], [], 0, 0, 0, 0, 0, 0, END_SIG - LDH_SIZE, 0)
  }

  lemma OneRecord(e: Entry)
    ensures Directory([e]) == Record(e)
  {
    hide Record;
    assert [e][..0] == [];
    assert Directory([]) == [];
  }

  lemma UnreadableEntry(a: seq<Byte>, start: seq<Byte>, e: Entry, rest: seq<Byte>)
    requires e == EmptyFile() && start == Blank(e.localOfs) + LocalHeader(e) && a == start + rest
    ensures Entries(a, |a|, 0, [e], [[]])
  {
    hide LocalHeader, Inflate.InflateAll;
    assert a[e.localOfs..e.localOfs + LDH_SIZE] == LocalHeader(e);
    assert Bytes8([]) == [] && Crc([]) == 0;
  }

  lemma UnreadableLayout(a: seq<Byte>, start: seq<Byte>, e: Entry)
    requires e == EmptyFile() && |start| == END_SIG && Directory([e]) == Record(e) && a == start + (Record(e) + EndRecord(1, |Record(e)|, END_SIG))
    ensures FinalLayout(a, END_SIG, [e])
  {
    hide Directory, Record, EndRecord;
    var d, h := Record(e), EndRecord(1, |Record(e)|, END_SIG);
    assert |d| == CDH_SIZE by { EmptyRecord(e); }
    assert a[|start|..|start| + |d|] == d && a[|start| + |d|..] == h;
  }

  lemma EmptyRecord(e: Entry)
    requires e == EmptyFile()
    ensures |Record(e)| == CDH_SIZE
  {
  }

  // ---------- extraction ----------

  /** mz_zip_reader_is_file_a_directory. */
  function IsDirectory(dir: seq<Byte>, p: nat): bool
    requires HasName(dir, p)
  {
    var n := ReadLe16(dir, p + 28);
    (n > 0 && dir[p + CDH_SIZE + n - 1] == '/' as int) || ReadLe32(dir, p + 38) / 0x10 % 2 == 1
  }

  /** Memory that nothing was written to; shown as zeros. */
  function Blank(n: nat): (s: seq<Byte>)
    ensures |s| == n && (n == 0 ==> s == [])
  {
    seq(n, k => 0)
  }

  /** mz_zip_reader_extract_to_heap with no flags. The decompressor is taken for what it computes on a
      whole stream. */
  method Extract(z: ZipIndex.Reader, a: seq<Byte>, i: nat) returns (r: Option<seq<Byte>>)
    requires i < |z.offsets| && HasName(z.dir, z.offsets[i])
    ensures r == Extracted(z.dir, z.offsets[i], a)
  {
    hide Inflate.InflateAll, Crc, ReadLe16, ReadLe32, RawData, IsDirectory;
    var p := z.offsets[i];
    var comp, uncomp, storage := ReadLe32(z.dir, p + 20), ReadLe32(z.dir, p + 24), ReadLe16(z.dir, p + 10);
    if comp == 0 || IsDirectory(z.dir, p) { return Some(Blank(uncomp)); }
    var flags := ReadLe16(z.dir, p + 8);
    if flags % 2 == 1 || flags / 32 % 2 == 1 { return None; }
    if storage != 0 && storage != 8 { return None; }
    var data := ReadData(z.dir, p, a);
    if data.None? { return None; }
    var content := data.value;
    if storage != 0 {
      var out := Inflate.InflateAll(data.value);
      if out.None? { return None; }
      content := out.value;
    }
    if |content| != uncomp { return None; }
    var crc := Checksums.ComputeCrc32(0, Bytes8(content));
    CrcBound(content);
    if crc as nat != ReadLe32(z.dir, p + 16) { return None; }
    r := Some(content);
  }

  /** The local header is looked up, and the data read that follow it. */
  method ReadData(dir: seq<Byte>, p: nat, a: seq<Byte>) returns (r: Option<seq<Byte>>)
    requires HasName(dir, p)
    ensures r == RawData(dir, p, a)
  {
    hide ReadLe16, ReadLe32;
    var comp, uncomp, storage, local := ReadLe32(dir, p + 20), ReadLe32(dir, p + 24), ReadLe16(dir, p + 10), ReadLe32(dir, p + 42);
    if local + LDH_SIZE > |a| || ReadLe32(a, local) != LOCAL_SIG { return None; }
    var cur := local + LDH_SIZE + ReadLe16(a, local + 26) + ReadLe16(a, local + 28);
    if cur + comp > |a| { return None; }
    if storage == 0 {
      if cur + uncomp > |a| { return None; }
      r := Some(a[cur..cur + uncomp]);
    } else {
      r := Some(a[cur..cur + comp]);
    }
  }

  /** Encrypted, or a patch file. */
  predicate Flagged(flags: nat) { flags % 2 == 1 || flags / 32 % 2 == 1 }

  /** The data of the entry whose record is at p. */
  function RawData(dir: seq<Byte>, p: nat, a: seq<Byte>): Option<seq<Byte>>
    requires HasName(dir, p)
  {
    var comp, uncomp, storage, local := ReadLe32(dir, p + 20), ReadLe32(dir, p + 24), ReadLe16(dir, p + 10), ReadLe32(dir, p + 42);
    if local + LDH_SIZE > |a| || ReadLe32(a, local) != LOCAL_SIG then None else
    var cur := local + LDH_SIZE + ReadLe16(a, local + 26) + ReadLe16(a, local + 28);
    if cur + comp > |a| || (storage == 0 && cur + uncomp > |a|) then None
    else Some(a[cur..cur + (if storage == 0 then uncomp else comp)])
  }

  /** The content that comes out, if the data are of the right length and checksum. */
  function Extracted(dir: seq<Byte>, p: nat, a: seq<Byte>): Option<seq<Byte>>
    requires HasName(dir, p)
  {
    var comp, uncomp, storage := ReadLe32(dir, p + 20), ReadLe32(dir, p + 24), ReadLe16(dir, p + 10);
    if comp == 0 || IsDirectory(dir, p) then Some(Blank(uncomp))
    else if Flagged(ReadLe16(dir, p + 8)) || (storage != 0 && storage != 8) then None else
    match RawData(dir, p, a)
    case None => None
    case Some(data) =>
      match (if storage == 0 then Some(data) else Inflate.InflateAll(data))
      case None => None
      case Some(content) => if |content| == uncomp && Crc(content) == ReadLe32(dir, p + 16) then Some(content) else None
  }

  /** There is a local header, with a name and extra data of any length after it, and then come the data. */
  predicate DataFrom(a: seq<Byte>, local: nat, cur: nat)
  {
    && local + LDH_SIZE <= |a| && ReadLe32(a, local) == LOCAL_SIG
    && cur == local + LDH_SIZE + ReadLe16(a, local + 26) + ReadLe16(a, local + 28)
  }

  /** This is what the entry holds: neither encrypted nor a patch, stored or deflated, with its length and checksum. */
  ghost predicate InOrder(dir: seq<Byte>, p: nat, a: seq<Byte>, content: seq<Byte>)
    requires HasName(dir, p)
  {
    var flags, storage, crc, comp, uncomp := ReadLe16(dir, p + 8), ReadLe16(dir, p + 10), ReadLe32(dir, p + 16), ReadLe32(dir, p + 20), ReadLe32(dir, p + 24);
    && flags % 2 == 0 && flags / 32 % 2 == 0 && |content| == uncomp && Crc(content) == crc
    && exists cur: nat :: DataFrom(a, ReadLe32(dir, p + 42), cur) && HoldsContent(a, cur, storage, comp, content)
  }

  predicate HoldsContent(a: seq<Byte>, cur: nat, storage: nat, comp: nat, content: seq<Byte>)
  {
    && cur + comp <= |a|
    && if storage == 0 then cur + |content| <= |a| && a[cur..cur + |content|] == content else storage == 8 && Inflate.InflateAll(a[cur..cur + comp]) == Some(content)
  }

  /** Data that come out are those of the entry, of the length and with the checksum recorded; and data for which all
      this is so do come out. */
  lemma ExtractedIff(dir: seq<Byte>, p: nat, a: seq<Byte>, content: seq<Byte>)
    requires HasName(dir, p) && ReadLe32(dir, p + 20) > 0 && !NamedDirectory(dir, p)
    ensures Extracted(dir, p, a) == Some(content) <==> InOrder(dir, p, a, content)
  {
    hide ReadLe16, ReadLe32, Crc, Inflate.InflateAll, NameAt, IsDirectory, NamedDirectory;
    DirectoryIff(dir, p);
    var local := ReadLe32(dir, p + 42);
    if local + LDH_SIZE <= |a| && ReadLe32(a, local) == LOCAL_SIG {
      var cur := local + LDH_SIZE + ReadLe16(a, local + 26) + ReadLe16(a, local + 28);
      assert DataFrom(a, local, cur);
      HeldIs(dir, p, a, cur, content);
    }
  }

  lemma HeldIs(dir: seq<Byte>, p: nat, a: seq<Byte>, cur: nat, content: seq<Byte>)
    requires HasName(dir, p) && DataFrom(a, ReadLe32(dir, p + 42), cur)
    ensures var storage := ReadLe16(dir, p + 10);
      && (RawData(dir, p, a).Some? && |content| == ReadLe32(dir, p + 24) && (storage == 0 || storage == 8)
          && (if storage == 0 then RawData(dir, p, a) else Inflate.InflateAll(RawData(dir, p, a).value)) == Some(content)
         <==> |content| == ReadLe32(dir, p + 24) && HoldsContent(a, cur, storage, ReadLe32(dir, p + 20), content))
  {
    hide ReadLe16, ReadLe32, Inflate.InflateAll;
  }

  /** No data at all, or a directory: zeros of the length recorded. */
  lemma ExtractedNothing(dir: seq<Byte>, p: nat, a: seq<Byte>)
    requires HasName(dir, p) && (ReadLe32(dir, p + 20) == 0 || NamedDirectory(dir, p))
    ensures Extracted(dir, p, a) == Some(Blank(ReadLe32(dir, p + 24)))
  {
    hide ReadLe16, ReadLe32, Crc, Inflate.InflateAll, NameAt, IsDirectory, NamedDirectory, RawData;
    DirectoryIff(dir, p);
  }

  /** Its name ends with a slash, or it has the DOS attribute of a directory. */
  predicate NamedDirectory(dir: seq<Byte>, p: nat)
    requires HasName(dir, p)
  {
    (NameAt(dir, p) != [] && NameAt(dir, p)[|NameAt(dir, p)| - 1] == '/' as int) || ReadLe32(dir, p + 38) % 0x20 >= 0x10
  }

  lemma DirectoryIff(dir: seq<Byte>, p: nat)
    requires HasName(dir, p)
    ensures IsDirectory(dir, p) <==> NamedDirectory(dir, p)
  {
    hide ReadLe16, ReadLe32;
  }

  /** The end of the way: every file that was added comes out with the content that went in. */
  lemma ExtractsContent(a: seq<Byte>, alignment: nat, es: seq<Entry>, contents: seq<seq<Byte>>, i: nat)
    requires Entries(a, |a|, alignment, es, contents) && i < |es|
    ensures var p := |Directory(es[..i])|; HasName(Directory(es), p) && Extracted(Directory(es), p, a) == Some(contents[i])
  {
    hide LocalHeader, ReadLe16, ReadLe32, Directory, Record, HasName, Inflate.InflateAll, Crc, RecordSize, IsDirectory, RawData;
    var e, c := es[i], contents[i];
    assert EntryOk(a, |a|, alignment, e, c);
    var dir, p := Directory(es), |Directory(es[..i])|;
    RecordAt(es, i);
    RecordFields(dir, p, e);
    var data := a[DataOfs(e)..LocalEnd(e)];
    EmptyData(data, e, c);
    DirectoryBit(dir, p, e);
    RawIsData(dir, p, a, e, c);
    RepresentsFacts(data, e, c);
    ExtractedIs(dir, p, a, e, c, data);
  }

  lemma RepresentsFacts(data: seq<Byte>, e: Entry, content: seq<Byte>)
    requires Represents(data, e, content)
    ensures e.crc == Crc(content) && e.uncompSize == |content| && (e.extAttr != 0 ==> content == []) && e.extAttr == DirAttr(e.name)
    ensures (e.storage == 0 && data == content) || (e.storage == 8 && Inflate.InflateAll(data) == Some(content))
  {
    hide Crc, Inflate.InflateAll;
  }

  lemma ExtractedIs(dir: seq<Byte>, p: nat, a: seq<Byte>, e: Entry, c: seq<Byte>, data: seq<Byte>)
    requires HasName(dir, p) && RawData(dir, p, a) == Some(data) && (IsDirectory(dir, p) <==> e.extAttr != 0)
    requires ReadLe32(dir, p + 20) == e.compSize && ReadLe32(dir, p + 24) == e.uncompSize && ReadLe16(dir, p + 10) == e.storage
    requires ReadLe16(dir, p + 8) == 0 && ReadLe32(dir, p + 16) == e.crc == Crc(c) && e.uncompSize == |c|
    requires (e.compSize == 0 ==> e.uncompSize == 0) && (e.extAttr != 0 ==> c == [])
    requires (e.storage == 0 && data == c) || (e.storage == 8 && Inflate.InflateAll(data) == Some(c))
    ensures Extracted(dir, p, a) == Some(c)
  {
    hide ReadLe16, ReadLe32, HasName, Inflate.InflateAll, Crc, IsDirectory, RawData;
  }

  lemma DirectoryBit(dir: seq<Byte>, p: nat, e: Entry)
    requires HasName(dir, p) && NameAt(dir, p) == e.name && ReadLe32(dir, p + 38) == e.extAttr == DirAttr(e.name)
    ensures IsDirectory(dir, p) <==> e.extAttr != 0
  {
    hide ReadLe16, ReadLe32;
    var n := ReadLe16(dir, p + 28);
    assert n == |e.name|;
    if n > 0 { assert e.name[n - 1] == dir[p + CDH_SIZE + n - 1]; }
  }

  lemma RawIsData(dir: seq<Byte>, p: nat, a: seq<Byte>, e: Entry, content: seq<Byte>)
    requires HasName(dir, p) && Stored(a, e, content)
    requires ReadLe32(dir, p + 20) == e.compSize && ReadLe32(dir, p + 24) == e.uncompSize && ReadLe16(dir, p + 10) == e.storage && ReadLe32(dir, p + 42) == e.localOfs
    ensures RawData(dir, p, a) == Some(a[DataOfs(e)..LocalEnd(e)])
  {
    hide ReadLe16, ReadLe32, LocalHeader, Inflate.InflateAll, Crc, Sized, HasName;
    var h := LocalHeader(e);
    LocalFields(e);
    Inside32(a, e.localOfs, h, 0);
    Inside16(a, e.localOfs, h, 26);
    Inside16(a, e.localOfs, h, 28);
  }
}
