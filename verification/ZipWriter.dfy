/** Adding files to a ZIP archive and finishing it (mz_zip_writer_add_mem_ex and
    mz_zip_writer_finalize_archive, src/http/miniz.c:4157-4409, 4713-4760), with writes and
    allocations that may fail at any time. */
module ZipWriter {
  import opened Bits
  import opened CanonicalCode
  import opened ZipNames
  import opened ZipFormat
  import opened Checksums
  import Parsing
  import Deflate
  import Inflate

  const MAX_FILES := 0xFFFF
  const UBER_COMPRESSION := 10

  // ---------- the archive, on values ----------

  /** A directory record: header, name, comment. */
  function Record(e: Entry): (r: seq<Byte>)
    ensures |r| == CDH_SIZE + |e.name| + |e.comment|
  {
    CentralHeader(e) + e.name + e.comment
  }

  function Directory(es: seq<Entry>): seq<Byte>
  {
    if es == [] then [] else Directory(es[..|es| - 1]) + Record(es[|es| - 1])
  }

  /** Where each record starts: the lengths of all records before it. */
  function Offsets(es: seq<Entry>): (o: seq<nat>)
    ensures |o| == |es|
  {
    if es == [] then [] else Offsets(es[..|es| - 1]) + [|Directory(es[..|es| - 1])|]
  }

  function DataOfs(e: Entry): nat { e.localOfs + LDH_SIZE + |e.name| }

  function LocalEnd(e: Entry): nat { DataOfs(e) + e.compSize }

  function Crc(data: seq<Byte>): nat
  {
    Crc32(0, Bytes8(data)) as nat
  }

  function Bytes8(data: seq<Byte>): seq<bv8>
  {
    seq(|data|, i requires 0 <= i < |data| => data[i] as bv8)
  }

  /** The local entry is there: header, name, and data that stand for the content. */
  ghost predicate Stored(file: seq<Byte>, e: Entry, content: seq<Byte>)
  {
    && Sized(e) && LocalEnd(e) <= |file|
    && file[e.localOfs..e.localOfs + LDH_SIZE] == LocalHeader(e)
    && file[e.localOfs + LDH_SIZE..DataOfs(e)] == e.name
    && Represents(file[DataOfs(e)..LocalEnd(e)], e, content)
  }

  /** The DOS attribute of a directory, which a name with a slash at its end gets. */
  function DirAttr(name: Name): nat
  {
    if |name| > 0 && name[|name| - 1] == '/' as int then 0x10 else 0
  }

  ghost predicate Represents(data: seq<Byte>, e: Entry, content: seq<Byte>)
  {
    && |data| == e.compSize && e.uncompSize == |content| && e.crc == Crc(content)
    && e.extAttr == DirAttr(e.name) && (e.extAttr != 0 ==> content == [])
    && (if e.storage == 0 then data == content else e.storage == 8 && Inflate.InflateAll(data) == Some(content))
  }

  ghost predicate EntryOk(file: seq<Byte>, size: nat, alignment: nat, e: Entry, content: seq<Byte>)
  {
    Stored(file, e, content) && LocalEnd(e) <= size && (alignment > 0 ==> e.localOfs % alignment == 0)
  }

  /** Local entries lie one after the other, and within the archive. */
  ghost predicate Entries(file: seq<Byte>, size: nat, alignment: nat, es: seq<Entry>, contents: seq<seq<Byte>>)
  {
    && |es| == |contents| && size <= |file|
    && (forall i :: 0 <= i < |es| ==> EntryOk(file, size, alignment, es[i], contents[i]))
    && (forall i, j :: 0 <= i < j < |es| ==> LocalEnd(es[i]) <= es[j].localOfs)
  }

  lemma EntryKept(file: seq<Byte>, file2: seq<Byte>, size: nat, size2: nat, alignment: nat, e: Entry, content: seq<Byte>)
    requires EntryOk(file, size, alignment, e, content) && size <= |file| && size <= size2 <= |file2| && file2[..size] == file[..size]
    ensures EntryOk(file2, size2, alignment, e, content)
  {
    hide Represents, LocalHeader, Sized;
    var a, b, c, d := e.localOfs, e.localOfs + LDH_SIZE, DataOfs(e), LocalEnd(e);
    SameSlice(file, file2, size, a, b);
    SameSlice(file, file2, size, b, c);
    SameSlice(file, file2, size, c, d);
  }

  lemma SameSlice(s: seq<Byte>, t: seq<Byte>, n: nat, a: nat, b: nat)
    requires n <= |s| && n <= |t| && s[..n] == t[..n] && a <= b <= n
    ensures s[a..b] == t[a..b]
  {
    assert s[a..b] == s[..n][a..b] && t[a..b] == t[..n][a..b];
  }

  /** What lies before `size` is all that matters. */
  lemma EntriesKept(file: seq<Byte>, file2: seq<Byte>, size: nat, size2: nat, alignment: nat, es: seq<Entry>, contents: seq<seq<Byte>>)
    requires Entries(file, size, alignment, es, contents) && size <= size2 <= |file2| && file2[..size] == file[..size]
    ensures Entries(file2, size2, alignment, es, contents)
  {
    hide EntryOk;
    forall i | 0 <= i < |es| ensures EntryOk(file2, size2, alignment, es[i], contents[i]) {
      EntryKept(file, file2, size, size2, alignment, es[i], contents[i]);
    }
  }

  lemma EntriesGrow(file: seq<Byte>, size: nat, size2: nat, alignment: nat, es: seq<Entry>, contents: seq<seq<Byte>>, e: Entry, content: seq<Byte>)
    requires Entries(file, size, alignment, es, contents) && size <= size2 <= |file|
    requires EntryOk(file, size2, alignment, e, content) && size <= e.localOfs
    ensures Entries(file, size2, alignment, es + [e], contents + [content])
  {
    hide EntryOk, LocalEnd;
    EntriesKept(file, file, size, size2, alignment, es, contents);
    var t := es + [e];
    forall i, j | 0 <= i < j < |t| ensures LocalEnd(t[i]) <= t[j].localOfs {
      if j == |es| { EntryEnds(file, size, alignment, es[i], contents[i]); }
    }
  }

  lemma EntryEnds(file: seq<Byte>, size: nat, alignment: nat, e: Entry, content: seq<Byte>)
    requires EntryOk(file, size, alignment, e, content)
    ensures LocalEnd(e) <= size
  {
  }

  /** The bytes d at o, as far as they got. */
  function Patch(file: seq<Byte>, o: nat, d: seq<Byte>): (r: seq<Byte>)
    requires o <= |file|
    ensures |r| >= |file| && |r| >= o + |d| && r[..o] == file[..o] && r[o..o + |d|] == d
    ensures forall i :: o + |d| <= i < |file| ==> r[i] == file[i]
  {
    file[..o] + d + (if o + |d| < |file| then file[o + |d|..] else [])
  }

  // ---------- growing arrays ----------

  /** mz_zip_array. */
  class ZipArray<T(==)> {
    var items: seq<T>
    var capacity: nat

    constructor ()
      ensures items == [] && capacity == 0
    {
      items, capacity := [], 0;
    }

    /** mz_zip_array_ensure_capacity, growing. It fails only if the allocation is not granted. */
    method EnsureCapacity(least: nat) returns (ok: bool, ghost granted: bool)
      modifies `capacity
      ensures capacity >= old(capacity) && (ok ==> capacity >= least) && (ok <==> granted) && (old(capacity) >= least ==> ok)
    {
      if capacity >= least { return true, true; }
      var newCapacity := if capacity > 1 then capacity else 1;
      while newCapacity < least
        invariant newCapacity >= 1 && newCapacity >= capacity
        decreases least - newCapacity
      {
        newCapacity := newCapacity * 2;
      }
      var memory: bool := *;
      granted := memory;
      if !memory { return false, granted; }
      capacity := newCapacity;
      ok := true;
    }

    method EnsureRoom(n: nat) returns (ok: bool, ghost granted: bool)
      modifies `capacity
      ensures capacity >= old(capacity) && (ok ==> |items| + n <= capacity) && (ok <==> granted)
    {
      ok, granted := EnsureCapacity(|items| + n);
    }

    /** mz_zip_array_push_back: it can not fail where room was made before. */
    method PushBack(xs: seq<T>) returns (ok: bool, ghost granted: bool)
      modifies this
      ensures ok <==> granted
      ensures capacity >= old(capacity) && items == (if ok then old(items) + xs else old(items))
      ensures old(|items| + |xs| <= capacity) ==> ok
    {
      ok, granted := EnsureCapacity(|items| + |xs|);
      if ok { items := items + xs; }
    }

    /** mz_zip_array_resize to a smaller size. */
    method Shrink(n: nat)
      requires n <= |items|
      modifies `items
      ensures items == old(items)[..n]
    {
      items := items[..n];
    }
  }

  // ---------- the writer ----------

  datatype Mode = Writing | Finalized

  /** The level and what it stands for (tdefl_create_comp_flags_from_zip_params, src/http/miniz.c:2779-2791). */
  function CompOptions(level: nat): Parsing.Options
  {
    Parsing.Options(level <= 3, false, false, level == 0, false, false)
  }

  function NumProbes(level: nat): nat
    requires level <= UBER_COMPRESSION
  {
    [0, 1, 6, 32, 16, 32, 128, 256, 512, 768, 1500][level]
  }

  /** Level 0 is for raw blocks, levels up to 3 for a greedy parser, and level 1 alone for the fast one; from level 5
      on, each one probes more than the one before. No other option is set. */
  lemma Levels(level: nat)
    requires level <= UBER_COMPRESSION
    ensures (CompOptions(level).forceRaw <==> level == 0) && (CompOptions(level).greedy <==> level <= 3) && NumProbes(level) <= 0xFFF
    ensures Parsing.UsesFast(CompOptions(level), NumProbes(level)) <==> level == 1
    ensures !CompOptions(level).rle && !CompOptions(level).filter && !CompOptions(level).forceStatic && !CompOptions(level).zlib
    ensures level >= 5 ==> NumProbes(level) > NumProbes(level - 1)
  {
  }

  /** Files of up to three bytes, and all at level 0, are not compressed. */
  predicate Stores(buf: seq<Byte>, level: nat)
  {
    level == 0 || |buf| <= 3
  }

  /** What the writer takes, apart from sizes. */
  predicate Addable(name: Name, buf: seq<Byte>, level: nat, uncompSize: nat)
  {
    ValidName(name) && |name| <= 0xFFFF && level <= UBER_COMPRESSION && uncompSize == 0 && |buf| <= LIMIT && (DirAttr(name) != 0 ==> buf == [])
  }

  /** An entry at this place and its record stay within 4 GiB. */
  predicate Room(at: nat, dirSize: nat, nameSize: nat, commentSize: nat, dataSize: nat)
  {
    && at + LDH_SIZE + CDH_SIZE + commentSize + nameSize <= LIMIT
    && at + LDH_SIZE + nameSize + dataSize <= LIMIT
    && dirSize + CDH_SIZE + nameSize + commentSize <= LIMIT
  }

  class ZipWriter {
    var file: seq<Byte>              // what m_pWrite wrote, by place
    var archiveSize: nat             // m_archive_size
    var totalFiles: nat              // m_total_files
    var mode: Mode                   // m_zip_mode
    const alignment: nat             // m_file_offset_alignment
    const centralDir: ZipArray<Byte>
    const offsets: ZipArray<nat>
    ghost var entries: seq<Entry>
    ghost var contents: seq<seq<Byte>>

    /** The directory is that of the entries, its index holds the offsets of the records, and the local
        entries are disjoint, aligned and as the directory says. */
    ghost predicate Valid()
      reads this, centralDir, offsets
    {
      && centralDir as object != offsets && totalFiles == |entries| <= MAX_FILES
      && centralDir.items == Directory(entries) && offsets.items == Offsets(entries) && |centralDir.items| <= LIMIT
      && Entries(file, archiveSize, alignment, entries, contents)
    }

    constructor (reserved: seq<Byte>, alignment: nat)
      ensures Valid() && entries == [] && mode == Writing && archiveSize == |reserved| && fresh(centralDir) && fresh(offsets)
      ensures this.alignment == alignment && contents == [] && centralDir.items == []
    {
      this.alignment := alignment;
      centralDir := new ZipArray<Byte>();
      offsets := new ZipArray<nat>();
      file, archiveSize, totalFiles, mode := reserved, |reserved|, 0, Writing;
      entries, contents := [], [];
    }

    /** m_pWrite: any number of the bytes may get written; the write is granted if they all are. */
    method Write(o: nat, data: seq<Byte>) returns (ok: bool, ghost granted: bool)
      requires o <= |file|
      modifies `file
      ensures ok <==> granted
      ensures |file| >= old(|file|) && file[..o] == old(file)[..o]
      ensures ok ==> file == Patch(old(file), o, data)
    {
      var k :| 0 <= k <= |data|;
      file := Patch(file, o, data[..k]);
      ok, granted := k == |data|, k == |data|;
      assert ok ==> data[..k] == data;
    }

    /** mz_zip_writer_write_zeros. */
    method WriteZeros(o0: nat, n0: nat) returns (ok: bool, ghost granted: bool)
      requires o0 <= |file|
      modifies `file
      ensures ok <==> granted
      ensures |file| >= old(|file|) && file[..o0] == old(file)[..o0] && (ok ==> |file| >= o0 + n0)
    {
      var o, n: nat := o0, n0;
      while n > 0
        invariant o + n == o0 + n0 && o0 <= o <= |file| && |file| >= old(|file|) && file[..o0] == old(file)[..o0]
      {
        var s := if n < 4096 then n else 4096;
        ghost var f := file;
        ok, granted := Write(o, seq(s, i => 0));
        assert file[..o0] == file[..o][..o0] && f[..o0] == f[..o][..o0];
        if !ok { return; }
        o, n := o + s, n - s;
      }
      ok, granted := true, true;
    }

    function Padding(): (n: nat)
      reads this
    {
      PaddingOf(archiveSize, alignment)
    }

    /** Stored or compressed: what goes into the archive for the data (src/http/miniz.c:4343-4387). */
    method MakeData(buf: seq<Byte>, level: nat) returns (ok: bool, data: seq<Byte>, storage: nat, ghost granted: bool)
      requires level <= UBER_COMPRESSION
      ensures granted ==> ok
      ensures storage == 0 <==> Stores(buf, level)
      ensures ok ==> if storage == 0 then data == buf else storage == 8 && Inflate.InflateAll(data) == Some(buf)
    {
      hide Inflate.InflateAll;
      if level == 0 || |buf| <= 3 { return true, buf, 0, true; }
      var status;
      ghost var refused;
      status, data, refused := Deflate.CompressMemToOutput(buf, CompOptions(level), NumProbes(level));
      if status == Deflate.Done { PlainDecodes(data, buf); }
      ok, storage, granted := status == Deflate.Done, 8, !refused;
    }

    /** The local entry goes to the end of the archive, its header last (src/http/miniz.c:4326-4400). */
    method WriteLocal(name: Name, comment: seq<Byte>, buf: seq<Byte>, level: nat, dosTime: nat, dosDate: nat, extAttr: nat, padding: nat)
      returns (ok: bool, e: Entry, ghost granted: bool, ghost dataSize: nat)
      requires archiveSize <= |file| && level <= UBER_COMPRESSION && |name| < 0x10000 && |comment| < 0x10000 && |buf| <= LIMIT
      requires dosTime < 0x10000 && dosDate < 0x10000 && extAttr == DirAttr(name) && (extAttr != 0 ==> buf == [])
      modifies `file
      ensures |file| >= old(|file|) && file[..archiveSize] == old(file)[..archiveSize]
      ensures ok ==> Stored(file, e, buf) && e.name == name && e.comment == comment && e.localOfs == archiveSize + padding && LocalEnd(e) <= LIMIT
      ensures ok ==> e.dosTime == dosTime && e.dosDate == dosDate && (e.storage == 0 <==> Stores(buf, level)) && e.compSize == dataSize
      ensures (ok ==> granted) && (granted && Stores(buf, level) ==> dataSize == |buf|)
      ensures granted ==> (ok <==> archiveSize + padding + LDH_SIZE + |name| + dataSize <= LIMIT)
    {
      hide Inflate.InflateAll, Stored, Crc, LocalHeader, Bytes8, Patch, Represents, Stores;
      var local := archiveSize + padding;
      var cur := local + LDH_SIZE;
      ghost var size := archiveSize;
      dataSize := 0;
      ok, granted := WriteZeros(archiveSize, padding + LDH_SIZE);
      e := Entry(name, comment, 0, 0, 0, 0, 0, 0, 0, 0);
      if !ok { return; }
      ghost var f1 := file;
      ok, granted := Write(cur, name);
      KeptBelow(f1, file, size, cur);
      if !ok { return; }
      cur := cur + |name|;
      var crc := ComputeCrc32(0, Bytes8(buf));
      var made, data, storage;
      ghost var compressed;
      made, data, storage, compressed := MakeData(buf, level);
      dataSize := |data|;
      ghost var f2 := file;
      ok, granted := Write(cur, data);
      KeptBelow(f2, file, size, cur);
      if !ok || !made { return false, e, granted && compressed, dataSize; }
      cur := cur + |data|;
      if |data| > LIMIT || cur > LIMIT { return false, e, true, dataSize; }
      e := Entry(name, comment, |buf|, |data|, crc as nat, storage, dosTime, dosDate, local, extAttr);
      CrcBound(buf);
      var h := CreateLocalHeader(e);
      ghost var f3 := file;
      ok, granted := Write(local, h[..]);
      KeptBelow(f3, file, size, local);
      if !ok { return; }
      DataRepresents(data, e, buf);
      LocalPieces(f1, f2, f3, file, e, data, buf);
    }

    /** mz_zip_writer_add_to_central_dir: all of the record, or nothing. */
    method AddToCentralDir(e: Entry) returns (ok: bool, ghost granted: bool)
      requires Sized(e) && centralDir as object != offsets && |centralDir.items| <= LIMIT
      modifies centralDir, offsets
      ensures ok ==> centralDir.items == old(centralDir.items) + Record(e) && offsets.items == old(offsets.items) + [old(|centralDir.items|)]
      ensures ok ==> |centralDir.items| <= LIMIT
      ensures (ok ==> granted) && (granted ==> (ok <==> old(|centralDir.items|) + |Record(e)| <= LIMIT))
      ensures !ok ==> centralDir.items == old(centralDir.items) && offsets.items == old(offsets.items)
    {
      hide CentralHeader;
      var ofs := |centralDir.items|;
      if |centralDir.items| + CDH_SIZE + |e.name| + |e.comment| > LIMIT { return false, true; }
      var h := CreateCentralHeader(e);
      ghost var dir := centralDir.items;
      ok, granted := centralDir.PushBack(h[..]);
      if ok { ok, granted := centralDir.PushBack(e.name); }
      if ok { ok, granted := centralDir.PushBack([]); }
      if ok { ok, granted := centralDir.PushBack(e.comment); }
      if ok { ok, granted := offsets.PushBack([ofs]); }
      if !ok {
        centralDir.Shrink(ofs);
        assert centralDir.items == dir;
      } else {
        assert dir + h[..] + e.name + [] + e.comment == dir + Record(e);
      }
    }

    /** mz_zip_writer_add_mem_ex, without MZ_ZIP_FLAG_COMPRESSED_DATA. If it fails, the archive is as it
        was: the same files in the same directory, and the same bytes up to its end. With all writes and allocations
        granted, it succeeds exactly if the archive is open and not full, the name is valid, and all fits in 4 GiB. */
    method AddMem(name: Name, buf: seq<Byte>, comment: seq<Byte>, level: nat, uncompSize: nat, dosTime: nat, dosDate: nat) returns (ok: bool, ghost granted: bool, ghost dataSize: nat)
      requires Valid() && |comment| < 0x10000 && dosTime < 0x10000 && dosDate < 0x10000
      modifies this, centralDir, offsets
      ensures Valid() && mode == old(mode) && |file| >= old(|file|) && file[..old(archiveSize)] == old(file[..archiveSize])
      ensures !ok ==> totalFiles == old(totalFiles) && archiveSize == old(archiveSize) && entries == old(entries) && contents == old(contents)
      ensures !ok ==> centralDir.items == old(centralDir.items) && offsets.items == old(offsets.items)
      ensures ok ==> |entries| == |old(entries)| + 1 && entries[..|old(entries)|] == old(entries) && contents == old(contents) + [buf]
      ensures ok ==> entries[|old(entries)|].name == name && entries[|old(entries)|].comment == comment && archiveSize == LocalEnd(entries[|old(entries)|])
      ensures ok ==> Added(entries[|old(entries)|], buf, level, dosTime, dosDate) && entries[|old(entries)|].localOfs == old(archiveSize + Padding())
      ensures ok ==> Addable(name, buf, level, uncompSize) && entries[|old(entries)|].compSize == dataSize
      ensures ok ==> granted && |centralDir.items| == old(|centralDir.items|) + CDH_SIZE + |name| + |comment|
      ensures granted && Stores(buf, level) ==> dataSize == |buf|
      ensures granted ==> (ok <==> old(Open()) && Addable(name, buf, level, uncompSize) && old(HasRoom(|name|, |comment|, dataSize)))
    {
      hide Entries, Stored, Directory, Offsets, ValidName;
      granted, dataSize := true, |buf|;
      if mode != Writing || totalFiles == MAX_FILES || level > UBER_COMPRESSION || uncompSize != 0 || |buf| > LIMIT { return false, granted, dataSize; }
      var valid := ValidateName(name);
      if !valid || |name| > 0xFFFF { return false, granted, dataSize; }
      var padding := Padding();
      if archiveSize + padding + LDH_SIZE + CDH_SIZE + |comment| + |name| > LIMIT { return false, granted, dataSize; }
      var extAttr := 0;
      if |name| > 0 && name[|name| - 1] == '/' as int {
        extAttr := 0x10;
        if |buf| > 0 { return false, granted, dataSize; }
      }
      ok, granted := centralDir.EnsureRoom(CDH_SIZE + |name| + |comment|);
      if !ok { return; }
      ok, granted := offsets.EnsureRoom(1);
      if !ok { return; }
      var memory: bool := *;
      if !memory && level > 0 && |buf| > 0 { return false, false, dataSize; }
      ok, granted, dataSize := AddEntry(name, comment, buf, level, dosTime, dosDate, extAttr, padding);
    }

    predicate Open()
      reads this
    {
      mode == Writing && totalFiles < MAX_FILES
    }

    ghost predicate HasRoom(nameSize: nat, commentSize: nat, dataSize: nat)
      reads this, centralDir
    {
      Room(archiveSize + Padding(), |centralDir.items|, nameSize, commentSize, dataSize)
    }

    /** The fields of a new entry that its content does not say. */
    ghost predicate Added(e: Entry, buf: seq<Byte>, level: nat, dosTime: nat, dosDate: nat)
    {
      e.dosTime == dosTime && e.dosDate == dosDate && (e.storage == 0 <==> Stores(buf, level))
    }

    method AddEntry(name: Name, comment: seq<Byte>, buf: seq<Byte>, level: nat, dosTime: nat, dosDate: nat, extAttr: nat, padding: nat) returns (ok: bool, ghost granted: bool, ghost dataSize: nat)
      requires Valid() && |comment| < 0x10000 && dosTime < 0x10000 && dosDate < 0x10000 && level <= UBER_COMPRESSION && |name| < 0x10000
      requires |buf| <= LIMIT && extAttr == DirAttr(name) && (extAttr != 0 ==> buf == []) && totalFiles < MAX_FILES && padding == Padding()
      modifies this, centralDir, offsets
      ensures Valid() && mode == old(mode) && |file| >= old(|file|) && file[..old(archiveSize)] == old(file[..archiveSize])
      ensures !ok ==> totalFiles == old(totalFiles) && archiveSize == old(archiveSize) && entries == old(entries) && contents == old(contents)
      ensures !ok ==> centralDir.items == old(centralDir.items) && offsets.items == old(offsets.items)
      ensures ok ==> |entries| == |old(entries)| + 1 && entries[..|old(entries)|] == old(entries) && contents == old(contents) + [buf]
      ensures ok ==> entries[|old(entries)|].name == name && entries[|old(entries)|].comment == comment && archiveSize == LocalEnd(entries[|old(entries)|])
      ensures ok ==> Added(entries[|old(entries)|], buf, level, dosTime, dosDate) && entries[|old(entries)|].localOfs == old(archiveSize) + padding
      ensures ok ==> entries[|old(entries)|].compSize == dataSize
      ensures ok ==> granted && |centralDir.items| == old(|centralDir.items|) + CDH_SIZE + |name| + |comment|
      ensures granted && Stores(buf, level) ==> dataSize == |buf|
      ensures granted ==> (ok <==> old(archiveSize) + padding + LDH_SIZE + |name| + dataSize <= LIMIT && old(|centralDir.items|) + CDH_SIZE + |name| + |comment| <= LIMIT)
    {
      hide Entries, Stored, Directory, Offsets, CentralHeader;
      ghost var f0 := file;
      EntriesSize(file, archiveSize, alignment, entries, contents);
      var e;
      ok, e, granted, dataSize := WriteLocal(name, comment, buf, level, dosTime, dosDate, extAttr, padding);
      EntriesKept(f0, file, archiveSize, archiveSize, alignment, entries, contents);
      if !ok { return; }
      StoredSized(file, e, buf);
      ok, granted := AddToCentralDir(e);
      if !ok { return; }
      totalFiles := totalFiles + 1;
      EntriesGrow(file, archiveSize, LocalEnd(e), alignment, entries, contents, e, buf);
      DirectoryGrows(entries, e);
      entries, contents := entries + [e], contents + [buf];
      archiveSize := LocalEnd(e);
    }

    /** mz_zip_writer_finalize_archive: the directory and the end record. */
    method Finalize() returns (ok: bool, ghost granted: bool)
      requires Valid()
      modifies this
      ensures Valid() && entries == old(entries) && contents == old(contents)
      ensures ok ==> old(mode) == Writing && mode == Finalized && FinalLayout(file[..archiveSize], old(archiveSize), entries)
      ensures ok ==> archiveSize <= |file| && Entries(file[..archiveSize], archiveSize, alignment, entries, contents)
      ensures !ok ==> mode == old(mode) && archiveSize >= old(archiveSize)
      ensures granted ==> (ok <==> old(mode) == Writing && old(archiveSize + |centralDir.items|) + ECDH_SIZE <= LIMIT)
    {
      hide Entries, Directory, Offsets, EndRecord, FinalLayout;
      EntriesSize(file, archiveSize, alignment, entries, contents);
      if mode != Writing || totalFiles > MAX_FILES || archiveSize + |centralDir.items| + ECDH_SIZE > LIMIT { return false, true; }
      var ofs, size := 0, 0;
      ghost var start := archiveSize;
      ok, granted := true, true;
      NoEntries(entries);
      if totalFiles > 0 {
        ofs, size := archiveSize, |centralDir.items|;
        ok, granted := PutDirectory();
        if !ok { return; }
      } else {
        assert file[start..start] == [];
      }
      EntriesSize(file, archiveSize, alignment, entries, contents);
      ok, granted := PutEndRecord(size, ofs, start);
    }

    /** The directory, at the end of the archive. */
    method PutDirectory() returns (ok: bool, ghost granted: bool)
      requires Valid()
      modifies `file, `archiveSize
      ensures ok <==> granted
      ensures Valid() && archiveSize >= old(archiveSize)
      ensures ok ==> archiveSize == old(archiveSize) + |centralDir.items| && file[old(archiveSize)..archiveSize] == centralDir.items
    {
      hide Entries, Directory, Offsets;
      EntriesSize(file, archiveSize, alignment, entries, contents);
      ghost var f0, size0 := file, archiveSize;
      ok, granted := Write(archiveSize, centralDir.items);
      EntriesKept(f0, file, size0, size0, alignment, entries, contents);
      if !ok { return; }
      PatchAt(f0, size0, centralDir.items);
      EntriesKept(file, file, size0, size0 + |centralDir.items|, alignment, entries, contents);
      archiveSize := archiveSize + |centralDir.items|;
    }

    /** The end record after it. */
    method PutEndRecord(size: nat, ofs: nat, ghost start: nat) returns (ok: bool, ghost granted: bool)
      requires Valid() && mode == Writing && archiveSize + ECDH_SIZE <= LIMIT && archiveSize == start + size && size == |Directory(entries)|
      requires start <= archiveSize <= |file| && file[start..archiveSize] == Directory(entries) && ofs == if |entries| > 0 then start else 0
      modifies `file, `archiveSize, `mode
      ensures ok <==> granted
      ensures Valid() && archiveSize <= |file|
      ensures if ok then mode == Finalized && FinalLayout(file[..archiveSize], start, entries) && Entries(file[..archiveSize], archiveSize, alignment, entries, contents)
              else mode == old(mode) && archiveSize == old(archiveSize)
    {
      hide Entries, Directory, Offsets, EndRecord, FinalLayout;
      var h := CreateEndRecord(totalFiles, size, ofs);
      ghost var f1, at := file, archiveSize;
      ok, granted := Write(archiveSize, h[..]);
      EntriesKept(f1, file, at, at, alignment, entries, contents);
      if !ok { return; }
      PatchAt(f1, at, h[..]);
      PatchElsewhere(f1, at, h[..], start, at);
      EntriesKept(file, file, at, at + ECDH_SIZE, alignment, entries, contents);
      EntriesKept(file, file[..at + ECDH_SIZE], at, at + ECDH_SIZE, alignment, entries, contents);
      FinalPieces(file, start, at, entries);
      archiveSize := archiveSize + ECDH_SIZE;
      mode := Finalized;
    }
  }

  /** mz_zip_writer_compute_padding_needed_for_file_alignment: the least that aligns the next entry; the alignment is
      a power of two. */
  function PaddingOf(size: nat, alignment: nat): (n: nat)
    ensures if alignment == 0 then n == 0 else n < alignment && (size + n) % alignment == 0
  {
    if alignment == 0 then 0 else
    PaddingAligns(size, alignment);
    (alignment - size % alignment) % alignment
  }

  lemma PaddingAligns(size: nat, a: nat)
    requires a > 0
    ensures (size + (a - size % a) % a) % a == 0
  {
    DivMod(size, a);
    var r, q := size % a, size / a;
    if r == 0 {
      assert a % a == 0 by { DivUnique(a, a, 1, 0); }
    } else {
      assert (a - r) % a == a - r by { DivUnique(a - r, a, 0, a - r); }
      assert size + (a - r) == (q + 1) * a by { assert (q + 1) * a == q * a + a; }
      DivUnique(size + (a - r), a, q + 1, 0);
    }
  }

  /** mz_zip_writer_validate_archive_name. */
  method ValidateName(name: Name) returns (ok: bool)
    ensures ok == ValidName(name)
  {
    if |name| > 0 && name[0] == '/' as int { return false; }
    var i := 0;
    while i < |name|
      invariant 0 <= i <= |name| && forall k :: 0 <= k < i ==> name[k] != '\\' as int && name[k] != ':' as int
    {
      if name[i] == '\\' as int || name[i] == ':' as int { return false; }
      i := i + 1;
    }
    ok := true;
  }

  predicate ValidName(name: Name)
  {
    (|name| > 0 ==> name[0] != '/' as int) && forall k :: 0 <= k < |name| ==> name[k] != '\\' as int && name[k] != ':' as int
  }

  /** A finished archive: the directory at `ofs`, and the end record that points to it. */
  ghost predicate FinalLayout(a: seq<Byte>, ofs: nat, es: seq<Entry>)
  {
    var size := |Directory(es)|;
    && |a| == ofs + size + ECDH_SIZE <= LIMIT && |es| <= MAX_FILES && a[ofs..ofs + size] == Directory(es)
    && a[ofs + size..] == EndRecord(|es|, size, if |es| > 0 then ofs else 0)
  }

  lemma FinalPieces(file: seq<Byte>, ofs: nat, at: nat, es: seq<Entry>)
    requires at == ofs + |Directory(es)| && at + ECDH_SIZE <= |file| && at + ECDH_SIZE <= LIMIT && |es| <= MAX_FILES
    requires file[ofs..at] == Directory(es) && file[at..at + ECDH_SIZE] == EndRecord(|es|, at - ofs, if |es| > 0 then ofs else 0)
    ensures FinalLayout(file[..at + ECDH_SIZE], ofs, es)
  {
    hide Directory, EndRecord;
    var a := file[..at + ECDH_SIZE];
    assert a[ofs..at] == file[ofs..at] && a[at..] == file[at..at + ECDH_SIZE];
  }

  lemma NoEntries(es: seq<Entry>)
    ensures es == [] ==> Directory(es) == []
  {
  }

  lemma PlainDecodes(data: seq<Byte>, buf: seq<Byte>)
    requires Deflate.Decodes(data, false, buf)
    ensures Inflate.InflateAll(data) == Some(buf)
  {
  }

  lemma KeptBelow(f: seq<Byte>, g: seq<Byte>, size: nat, cur: nat)
    requires size <= cur <= |f| <= |g| && g[..cur] == f[..cur]
    ensures g[..size] == f[..size]
  {
    assert g[..size] == g[..cur][..size] && f[..size] == f[..cur][..size];
  }

  lemma CrcBound(buf: seq<Byte>)
    ensures Crc(buf) < 0x1_0000_0000 && Crc32(0, Bytes8(buf)) as nat == Crc(buf)
  {
  }

  /** Name, data and header, written one after another, stay where they are. */
  lemma LocalPieces(f1: seq<Byte>, f2: seq<Byte>, f3: seq<Byte>, f4: seq<Byte>, e: Entry, data: seq<Byte>, buf: seq<Byte>)
    requires Sized(e) && Represents(data, e, buf) && e.localOfs + LDH_SIZE <= |f1|
    requires f2 == Patch(f1, e.localOfs + LDH_SIZE, e.name)
    requires f3 == Patch(f2, DataOfs(e), data)
    requires f4 == Patch(f3, e.localOfs, LocalHeader(e))
    ensures Stored(f4, e, buf)
  {
    hide LocalHeader, Represents, Sized, Patch;
    var a, b, c, d := e.localOfs, e.localOfs + LDH_SIZE, DataOfs(e), LocalEnd(e);
    RepresentsSize(data, e, buf);
    PatchAt(f1, b, e.name);
    PatchAt(f2, c, data);
    PatchAt(f3, a, LocalHeader(e));
    PatchElsewhere(f2, c, data, b, c);
    PatchElsewhere(f3, a, LocalHeader(e), b, c);
    PatchElsewhere(f3, a, LocalHeader(e), c, d);
  }

  lemma DataRepresents(data: seq<Byte>, e: Entry, content: seq<Byte>)
    requires |data| == e.compSize && e.uncompSize == |content| && e.crc == Crc(content) && e.extAttr == DirAttr(e.name) && (e.extAttr != 0 ==> content == [])
    requires if e.storage == 0 then data == content else e.storage == 8 && Inflate.InflateAll(data) == Some(content)
    ensures Represents(data, e, content)
  {
  }

  lemma RepresentsSize(data: seq<Byte>, e: Entry, content: seq<Byte>)
    requires Represents(data, e, content)
    ensures |data| == e.compSize
  {
  }

  lemma PatchAt(f: seq<Byte>, o: nat, d: seq<Byte>)
    requires o <= |f|
    ensures o + |d| <= |Patch(f, o, d)| && |Patch(f, o, d)| >= |f| && Patch(f, o, d)[o..o + |d|] == d
  {
  }

  lemma PatchElsewhere(f: seq<Byte>, o: nat, d: seq<Byte>, a: nat, b: nat)
    requires o <= |f| && a <= b <= |f| && (b <= o || o + |d| <= a)
    ensures b <= |Patch(f, o, d)| && Patch(f, o, d)[a..b] == f[a..b]
  {
    var g := Patch(f, o, d);
    if b <= o {
      assert g[a..b] == g[..o][a..b] && f[a..b] == f[..o][a..b];
    } else {
      assert forall i :: a <= i < b ==> g[i] == f[i];
    }
  }

  lemma EntriesSize(file: seq<Byte>, size: nat, alignment: nat, es: seq<Entry>, contents: seq<seq<Byte>>)
    requires Entries(file, size, alignment, es, contents)
    ensures size <= |file|
  {
  }

  lemma StoredSized(file: seq<Byte>, e: Entry, content: seq<Byte>)
    requires Stored(file, e, content)
    ensures Sized(e) && LocalEnd(e) <= |file|
  {
  }

  lemma DirectoryGrows(es: seq<Entry>, e: Entry)
    ensures Directory(es + [e]) == Directory(es) + Record(e)
    ensures Offsets(es + [e]) == Offsets(es) + [|Directory(es)|]
  {
    hide Record;
    assert (es + [e])[..|es|] == es;
  }
}
