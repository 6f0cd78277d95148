/** The cache of the web UI, filled from a ZIP archive (gui_request_handler::load_cache,
    src/http/gui_request_handler.cpp:95-144), and the way of a file through writer, reader and cache. */
module WebCache {
  import opened Bits
  import opened CanonicalCode
  import opened ZipNames
  import opened ZipFormat
  import opened ZW = ZipWriter
  import opened ZipReader
  import ZipSort
  import opened ZipIndex

  /** What extraction by index gives; None if it fails. */
  type Contents = seq<Option<seq<Byte>>>

  function ContentsOf(z: Reader, a: seq<Byte>): (c: Contents)
    requires forall i :: 0 <= i < |z.offsets| ==> HasName(z.dir, z.offsets[i])
    ensures |c| == |z.offsets| && forall i :: 0 <= i < |c| ==> c[i] == Extracted(z.dir, z.offsets[i], a)
  {
    seq(|z.offsets|, i requires 0 <= i < |z.offsets| => Extracted(z.dir, z.offsets[i], a))
  }

  /** The text that a failed or empty extraction leaves: an empty string. */
  function Text(contents: Contents, r: int): seq<Byte>
  {
    if 0 <= r < |contents| && contents[r].Some? then contents[r].value else []
  }

  /** gui_request_handler, as far as the cache goes. */
  class GuiRequestHandler {
    var cache: map<Name, seq<Byte>>   // cache_
    var useCache: bool                // use_cache_

    constructor ()
      ensures cache == map[] && !useCache
    {
      cache, useCache := map[], false;
    }

    /** mz_zip_reader_extract_file_to_heap. */
    method ExtractFile(z: Reader, a: seq<Byte>, name: Name, ghost names: seq<Name>) returns (data: seq<Byte>, ghost r: int)
      requires Opened(z, names) && forall i :: 0 <= i < |z.offsets| ==> HasName(z.dir, z.offsets[i])
      ensures Locates(z, names, name, r) && data == Text(ContentsOf(z, a), r)
    {
      hide Opened, Locates, Extracted, HasName;
      var k := LocateFile(z, name, names);
      r := k;
      if k < 0 { return [], r; }
      LocatesRange(z, names, name, k);
      var content := Extract(z, a, k);
      data := if content.Some? then content.value else [];
    }

    /** load_cache, with the bytes of the archive (None if there is no file to open). Entries are looked at one by
        one, but their content is fetched by name; a name that is there already is kept. */
    method LoadCache(file: Option<seq<Byte>>, ghost ofs: nat, ghost es: seq<Entry>) returns (ghost z: Reader, ghost names: seq<Name>)
      requires cache == map[] && !useCache
      modifies this
      ensures !useCache ==> cache == map[]
      ensures useCache <==> file.Some? && !Shut(file.value)
      ensures useCache ==> OpensAs(file.value, z.dir, z.offsets) && Opened(z, names) && (forall i :: 0 <= i < |z.offsets| ==> HasName(z.dir, z.offsets[i]))
      ensures useCache ==> CachedNames(cache, names, |names|) && Fetched(cache, z, names, ContentsOf(z, file.value))
      ensures useCache && Proper(names) ==> CachedContents(cache, names, ContentsOf(z, file.value), |names|)
      ensures file.Some? && Finished(file.value, ofs, es) ==>
        && (useCache <==> !Recurs(file.value) && AllReadable(es, |es|))
        && (useCache ==> z.dir == ZW.Directory(es) && z.offsets == Offsets(es) && names == NamesOf(es))
    {
      hide Opened, Locates, SameName, Shut, OpensAs, CachedNames, CachedContents, FindsItself, Finished, Recurs, AllReadable, HasName, Extracted, ZW.Directory, Offsets, Fetched;
      z, names := Reader([], [], None), [];
      if file.None? { return; }
      var read;
      read, names := ReadCentralDir(file.value, true, ofs, es);
      if read.None? { return; }
      var archive := read.value;
      z := archive;
      OpenedSizes(z, names);
      OpenedNames(z, names);
      if Proper(names) { AllFoundIff(z, names); }
      var i := 0;
      ghost var contents := ContentsOf(z, file.value);
      EmptyCache(archive, names, contents);
      while i < |archive.offsets|
        invariant 0 <= i <= |archive.offsets| && !useCache
        invariant CachedNames(cache, names, i) && Fetched(cache, archive, names, contents) && (Proper(names) ==> CachedContents(cache, names, contents, i))
      {
        OpenedEntry(z, names, i);
        var name := StatName(NameAt(archive.dir, archive.offsets[i]));
        var data;
        ghost var r;
        data, r := ExtractFile(archive, file.value, name, names);
        CacheGrows(cache, names, i, data);
        FetchedMore(cache, archive, names, contents, name, r);
        if Proper(names) {
          ItIsFound(z, names, i, r);
          CacheRight(cache, names, contents, i);
        }
        if name !in cache { cache := cache[name := data]; }
        i := i + 1;
      }
      useCache := true;
    }
  }

  lemma LocatesRange(z: Reader, names: seq<Name>, name: Name, r: int)
    requires Opened(z, names) && Locates(z, names, name, r) && r >= 0
    ensures r < |z.offsets|
  {
    LocateIsSame(z, names, name, r);
    OpenedSizes(z, names);
  }

  lemma OpenedNames(z: Reader, names: seq<Name>)
    requires Opened(z, names)
    ensures forall i :: 0 <= i < |z.offsets| ==> HasName(z.dir, z.offsets[i])
  {
    hide Opened, HasName;
    OpenedSizes(z, names);
    forall i | 0 <= i < |z.offsets| ensures HasName(z.dir, z.offsets[i]) { OpenedEntry(z, names, i); }
  }

  /** Names that can be told apart, and come through file_stat whole. */
  ghost predicate Proper(names: seq<Name>)
  {
    CaseDistinct(names) && forall i :: 0 <= i < |names| ==> Plain(names[i])
  }

  /** The keys are the names that file_stat gives for the first n entries. */
  ghost predicate CachedNames(cache: map<Name, seq<Byte>>, names: seq<Name>, n: nat)
  {
    forall s :: s in cache <==> exists k :: k < n && StatOf(names, k, s)
  }

  /** Each of the first n entries is there under its name, with its own content. */
  ghost predicate CachedContents(cache: map<Name, seq<Byte>>, names: seq<Name>, contents: Contents, n: nat)
  {
    n <= |names| && forall k :: 0 <= k < n ==> names[k] in cache && cache[names[k]] == Text(contents, k)
  }

  /** Whatever the names are: under each key is the content of an entry that searching for it by name gives. */
  ghost predicate Fetched(cache: map<Name, seq<Byte>>, z: Reader, names: seq<Name>, contents: Contents)
    requires Opened(z, names)
  {
    forall s :: s in cache ==> FetchedAs(cache[s], z, names, contents, s)
  }

  ghost predicate FetchedAs(data: seq<Byte>, z: Reader, names: seq<Name>, contents: Contents, s: Name)
    requires Opened(z, names)
  {
    exists r: int :: Locates(z, names, s, r) && data == Text(contents, r)
  }

  lemma FetchedMore(cache: map<Name, seq<Byte>>, z: Reader, names: seq<Name>, contents: Contents, s: Name, r: int)
    requires Opened(z, names) && Fetched(cache, z, names, contents) && Locates(z, names, s, r)
    ensures Fetched(cache[s := Text(contents, r)], z, names, contents)
  {
    hide Opened, Locates, Text;
    assert FetchedAs(Text(contents, r), z, names, contents, s);
  }

  lemma EmptyCache(z: Reader, names: seq<Name>, contents: Contents)
    requires Opened(z, names)
    ensures Fetched(map[], z, names, contents)
    ensures CachedNames(map[], names, 0) && CachedContents(map[], names, contents, 0)
  {
  }

  lemma CacheGrows(cache: map<Name, seq<Byte>>, names: seq<Name>, i: nat, data: seq<Byte>)
    requires CachedNames(cache, names, i) && i < |names|
    ensures var s := StatName(names[i]); CachedNames(if s in cache then cache else cache[s := data], names, i + 1)
  {
    hide StatName;
    var t := StatName(names[i]);
    assert StatOf(names, i, t);
    var c := if t in cache then cache else cache[t := data];
    forall s ensures s in c <==> exists k :: k < i + 1 && StatOf(names, k, s) {
      if s in c && s != t {
        var k :| k < i && StatOf(names, k, s);
      }
    }
  }

  lemma ItIsFound(z: Reader, names: seq<Name>, i: nat, r: int)
    requires Opened(z, names) && i < |names| && FindsItself(z, names, i) && Locates(z, names, StatName(names[i]), r)
    ensures r == i
  {
  }

  lemma CacheRight(cache: map<Name, seq<Byte>>, names: seq<Name>, contents: Contents, i: nat)
    requires CachedNames(cache, names, i) && CachedContents(cache, names, contents, i) && Proper(names) && i < |names|
    ensures var s := StatName(names[i]); s !in cache && CachedContents(cache[s := Text(contents, i)], names, contents, i + 1)
  {
    hide StatName, SameName, Plain, CaseDistinct, Text;
    DistinctNames(names, i);
    PlainStat(names[i]);
    var s := names[i];
    var c := cache[s := Text(contents, i)];
    assert forall k :: k < i ==> !StatOf(names, k, s);
    forall k | 0 <= k < i + 1 ensures names[k] in c && c[names[k]] == Text(contents, k) {
    }
  }

  /** n is the name that file_stat gives for entry i. */
  predicate StatOf(names: seq<Name>, i: int, n: Name)
  {
    0 <= i < |names| && n == StatName(names[i])
  }

  lemma OpenedSizes(z: Reader, names: seq<Name>)
    requires Opened(z, names)
    ensures |z.offsets| == |names|
  {
  }

  lemma OpenedEntry(z: Reader, names: seq<Name>, i: nat)
    requires Opened(z, names) && i < |names|
    ensures i < |z.offsets| && HasName(z.dir, z.offsets[i]) && NameAt(z.dir, z.offsets[i]) == names[i]
  {
    assert ZipSort.EntryName(z.dir, z.offsets, names, i);
  }

  lemma DistinctNames(names: seq<Name>, i: nat)
    requires CaseDistinct(names) && i < |names| && forall k :: 0 <= k < |names| ==> Plain(names[k])
    ensures forall k :: 0 <= k < i ==> StatName(names[k]) != StatName(names[i]) && names[k] != names[i]
  {
    forall k | 0 <= k < i ensures StatName(names[k]) != StatName(names[i]) && names[k] != names[i] {
      PlainStat(names[k]);
      PlainStat(names[i]);
      assert !SameName(names[k], names[i]);
    }
  }

  // ---------- from the writer to the cache ----------

  /** A file that goes into an archive. */
  datatype File = File(name: Name, data: seq<Byte>)

  function NamesOfFiles(files: seq<File>): (names: seq<Name>)
    ensures |names| == |files| && forall i :: 0 <= i < |files| ==> names[i] == files[i].name
  {
    seq(|files|, i requires 0 <= i < |files| => files[i].name)
  }

  /** Exactly the files, each under its name and with its data. */
  ghost predicate Serves(cache: map<Name, seq<Byte>>, files: seq<File>)
  {
    && (forall k :: 0 <= k < |files| ==> files[k].name in cache && cache[files[k].name] == files[k].data)
    && forall s :: s in cache ==> s in NamesOfFiles(files)
  }

  /** The entries hold these files. */
  ghost predicate Holding(es: seq<Entry>, contents: seq<seq<Byte>>, files: seq<File>)
  {
    |es| == |contents| == |files| && forall k :: 0 <= k < |files| ==> es[k].name == files[k].name && contents[k] == files[k].data
  }

  /** What goes into the archive for each file: as many bytes as it has, if it is stored. */
  ghost predicate SizesOf(sizes: seq<nat>, files: seq<File>, level: nat)
  {
    |sizes| == |files| && forall k :: 0 <= k < |files| ==> ZW.Stores(files[k].data, level) ==> sizes[k] == |files[k].data|
  }

  /** Where the last local entry ends, each being aligned. */
  function LocalsEnd(files: seq<File>, sizes: seq<nat>, alignment: nat): nat
    requires |sizes| == |files|
  {
    if files == [] then 0 else
    var n := |files| - 1;
    var at := LocalsEnd(files[..n], sizes[..n], alignment);
    at + ZW.PaddingOf(at, alignment) + LDH_SIZE + |files[n].name| + sizes[n]
  }

  function RecordsSize(files: seq<File>): nat
  {
    if files == [] then 0 else RecordsSize(files[..|files| - 1]) + CDH_SIZE + |files[|files| - 1].name|
  }

  /** Not too many files, none that the writer does not take, and an archive of at most 4 GiB. */
  ghost predicate Archivable(files: seq<File>, sizes: seq<nat>, level: nat, alignment: nat)
    requires |sizes| == |files|
  {
    && |files| <= ZW.MAX_FILES && AllAddable(files, level)
    && LocalsEnd(files, sizes, alignment) + RecordsSize(files) + ECDH_SIZE <= LIMIT
  }

  /** All files into a new archive. Writes and allocations may fail at any time; if none does (granted), the
      archive is made exactly if the files and what goes in for them are within the limits. */
  method WriteArchive(files: seq<File>, level: nat, alignment: nat)
    returns (archive: Option<seq<Byte>>, ghost ofs: nat, ghost es: seq<Entry>, ghost contents: seq<seq<Byte>>, ghost granted: bool, ghost sizes: seq<nat>)
    ensures archive.Some? ==> Entries(archive.value, |archive.value|, alignment, es, contents) && FinalLayout(archive.value, ofs, es) && Holding(es, contents, files)
    ensures granted ==> SizesOf(sizes, files, level) && (archive.Some? <==> Archivable(files, sizes, level, alignment))
  {
    hide Entries, FinalLayout, ZW.ZipWriter.Valid, ZW.PaddingOf, ZW.Addable, Archivable, LocalsEnd, RecordsSize, Holding, SizesOf, ZW.Room, ZW.ZipWriter.Added, ZW.Stores;
    var z := new ZW.ZipWriter([], alignment);
    ofs, es, contents, granted, sizes := 0, [], [], true, [];
    var k := 0;
    Same(z);
    NoFiles(files, level, alignment);
    while k < |files|
      invariant 0 <= k <= |files| && z.Valid() && z.mode == ZW.Writing && Holding(z.entries, z.contents, files[..k]) && fresh(z) && fresh(z.centralDir) && fresh(z.offsets)
      invariant z.alignment == alignment && granted && SizesOf(sizes, files[..k], level) && |sizes| == k && AllAddable(files[..k], level)
      invariant z.archiveSize == LocalsEnd(files[..k], sizes, alignment) && |z.centralDir.items| == RecordsSize(files[..k])
    {
      ghost var e0, c0 := z.entries, z.contents;
      ghost var at, dir := z.archiveSize + z.Padding(), |z.centralDir.items|;
      Same(z);
      HoldingSize(e0, c0, files[..k]);
      var ok;
      ghost var size;
      ok, granted, size := z.AddMem(files[k].name, files[k].data, [], level, 0, 0, 0);
      if !ok {
        ghost var s0 := sizes;
        sizes := sizes + [size] + SizesFrom(files, k + 1);
        if granted {
          SizesOne(s0, files, k, size, level);
          assert sizes[..k] == s0;
          NotArchivable(files, sizes, level, alignment, k, at, dir);
        }
        return None, ofs, es, contents, granted, sizes;
      }
      SizesOne(sizes, files, k, size, level);
      EndsAfter(files, sizes, k, size, alignment);
      AddableOne(files, k, level);
      sizes := sizes + [size];
      EntryEnd(z.entries[k]);
      HoldingOne(e0, c0, z.entries, z.contents, files, k);
      k := k + 1;
    }
    ofs := z.archiveSize;
    assert files[..|files|] == files;
    HoldingSize(z.entries, z.contents, files);
    Same(z);
    var ok;
    ok, granted := z.Finalize();
    ArchivableMeans(files, sizes, level, alignment);
    if !ok { return None, ofs, es, contents, granted, sizes; }
    archive, es, contents := Some(z.file[..z.archiveSize]), z.entries, z.contents;
  }

  ghost predicate AllAddable(files: seq<File>, level: nat)
  {
    forall k :: 0 <= k < |files| ==> ZW.Addable(files[k].name, files[k].data, level, 0)
  }

  lemma NoFiles(files: seq<File>, level: nat, alignment: nat)
    ensures LocalsEnd(files[..0], [], alignment) == 0 == RecordsSize(files[..0])
    ensures Holding([], [], files[..0]) && SizesOf([], files[..0], level)
  {
  }

  lemma HoldingSize(es: seq<Entry>, contents: seq<seq<Byte>>, files: seq<File>)
    requires Holding(es, contents, files)
    ensures |es| == |files| == |contents|
  {
  }

  lemma AddableOne(files: seq<File>, k: nat, level: nat)
    requires k < |files| && AllAddable(files[..k], level) && ZW.Addable(files[k].name, files[k].data, level, 0)
    ensures AllAddable(files[..k + 1], level)
  {
    hide ZW.Addable;
    assert forall i :: 0 <= i < k ==> files[..k + 1][i] == files[..k][i];
  }

  lemma EntryEnd(e: Entry)
    ensures ZW.LocalEnd(e) == e.localOfs + LDH_SIZE + |e.name| + e.compSize
  {
  }

  lemma ArchivableMeans(files: seq<File>, sizes: seq<nat>, level: nat, alignment: nat)
    requires |sizes| == |files| <= ZW.MAX_FILES && AllAddable(files, level)
    ensures Archivable(files, sizes, level, alignment) <==> LocalsEnd(files, sizes, alignment) + RecordsSize(files) + ECDH_SIZE <= LIMIT
  {
    hide ZW.Addable;
  }

  lemma Same(z: ZW.ZipWriter)
    requires z.Valid()
    ensures |z.entries| == |z.contents| && z.totalFiles == |z.entries| <= ZW.MAX_FILES && z.centralDir as object != z.offsets
  {
  }

  function SizesFrom(files: seq<File>, k: nat): (sizes: seq<nat>)
    requires k <= |files|
    ensures |sizes| == |files| - k && forall i :: 0 <= i < |sizes| ==> sizes[i] == |files[k + i].data|
  {
    seq(|files| - k, i requires 0 <= i < |files| - k => |files[k + i].data|)
  }

  lemma SizesOne(sizes: seq<nat>, files: seq<File>, k: nat, size: nat, level: nat)
    requires k < |files| && SizesOf(sizes, files[..k], level) && (ZW.Stores(files[k].data, level) ==> size == |files[k].data|)
    ensures SizesOf(sizes + [size], files[..k + 1], level) && SizesOf(sizes + [size] + SizesFrom(files, k + 1), files, level)
  {
    var t := sizes + [size] + SizesFrom(files, k + 1);
    forall i | 0 <= i < |files| && ZW.Stores(files[i].data, level) ensures t[i] == |files[i].data| {
      if i < k { assert files[i] == files[..k][i]; }
    }
    forall i | 0 <= i <= k && ZW.Stores(files[i].data, level) ensures t[i] == |files[i].data| {
    }
    assert forall i :: 0 <= i <= k ==> (sizes + [size])[i] == t[i] && files[..k + 1][i] == files[i];
  }

  lemma EndsAfter(files: seq<File>, sizes: seq<nat>, k: nat, size: nat, alignment: nat)
    requires |sizes| == k < |files|
    ensures LocalsEnd(files[..k + 1], sizes + [size], alignment) == ( var at := LocalsEnd(files[..k], sizes, alignment); at + ZW.PaddingOf(at, alignment) + LDH_SIZE + |files[k].name| + size )
    ensures RecordsSize(files[..k + 1]) == RecordsSize(files[..k]) + CDH_SIZE + |files[k].name|
  {
    hide ZW.PaddingOf;
    assert files[..k + 1][..k] == files[..k] && (sizes + [size])[..k] == sizes;
  }

  /** More files make no archive smaller. */
  lemma {:induction false} SizesGrow(files: seq<File>, sizes: seq<nat>, alignment: nat, k: nat)
    requires |sizes| == |files| && k <= |files|
    ensures LocalsEnd(files[..k], sizes[..k], alignment) <= LocalsEnd(files, sizes, alignment) && RecordsSize(files[..k]) <= RecordsSize(files)
  {
    hide ZW.PaddingOf;
    var n := |files| - 1;
    if k == |files| {
      assert files[..k] == files && sizes[..k] == sizes;
    } else {
      SizesGrow(files[..n], sizes[..n], alignment, k);
      assert files[..n][..k] == files[..k] && sizes[..n][..k] == sizes[..k];
    }
  }

  /** A file that the writer does not take spoils the archive, whatever else is in it. */
  lemma NotArchivable(files: seq<File>, sizes: seq<nat>, level: nat, alignment: nat, k: nat, at: nat, dir: nat)
    requires |sizes| == |files| && k < |files| && dir == RecordsSize(files[..k])
    requires var end := LocalsEnd(files[..k], sizes[..k], alignment); at == end + ZW.PaddingOf(end, alignment)
    requires !(k < ZW.MAX_FILES && ZW.Addable(files[k].name, files[k].data, level, 0) && ZW.Room(at, dir, |files[k].name|, 0, sizes[k]))
    ensures !Archivable(files, sizes, level, alignment)
  {
    hide ZW.PaddingOf, ZW.Addable;
    EndsAfter(files, sizes[..k], k, sizes[k], alignment);
    assert sizes[..k] + [sizes[k]] == sizes[..k + 1];
    SizesGrow(files, sizes, alignment, k + 1);
  }

  lemma HoldingOne(e0: seq<Entry>, c0: seq<seq<Byte>>, es: seq<Entry>, contents: seq<seq<Byte>>, files: seq<File>, k: nat)
    requires k < |files| && Holding(e0, c0, files[..k]) && |es| == |e0| + 1 && es[..|e0|] == e0 && contents == c0 + [files[k].data] && es[|e0|].name == files[k].name
    ensures Holding(es, contents, files[..k + 1])
  {
    forall i | 0 <= i < k ensures es[i].name == files[i].name && contents[i] == files[i].data {
      assert es[i] == es[..k][i] == e0[i] && contents[i] == c0[i] && files[..k][i] == files[i];
    }
  }

  /** From the writer to the web UI. With all writes and allocations granted, files within the limits get into an archive. An archive that was written and finished is loaded if and only if the signature
      of its end record does not recur and no file is 0xFFFFFFFF bytes long; and then, if no two names are
      equal but for case and all come through file_stat whole, the cache is exactly the files. */
  method WriteThenLoad(files: seq<File>, level: nat, alignment: nat)
    returns (archive: Option<seq<Byte>>, handler: GuiRequestHandler, ghost granted: bool, ghost sizes: seq<nat>)
    ensures granted ==> SizesOf(sizes, files, level) && (archive.Some? <==> Archivable(files, sizes, level, alignment))
    ensures archive.Some? ==> (handler.useCache <==> !Recurs(archive.value) && forall k :: 0 <= k < |files| ==> |files[k].data| != LIMIT)
    ensures archive.Some? && handler.useCache && Proper(NamesOfFiles(files)) ==> Serves(handler.cache, files)
  {
    hide Entries, FinalLayout, Recurs, SizesOf, Archivable, Proper, Finished, Extracted, Opened, CachedNames, CachedContents, HasName, ZW.Directory, Offsets;
    ghost var ofs, es, contents;
    archive, ofs, es, contents, granted, sizes := WriteArchive(files, level, alignment);
    handler := new GuiRequestHandler();
    if archive.Some? { EntriesSane(archive.value, alignment, es, contents, ofs); }
    ghost var z, names := handler.LoadCache(archive, ofs, es);
    if archive.Some? {
      ReadableFiles(archive.value, alignment, es, contents, files);
      if handler.useCache && Proper(NamesOfFiles(files)) {
        assert names == NamesOfFiles(files);
        ContentsAre(archive.value, alignment, es, contents, z, files);
        CacheServes(handler.cache, names, ContentsOf(z, archive.value), files);
      }
    }
  }

  lemma ReadableFiles(a: seq<Byte>, alignment: nat, es: seq<Entry>, contents: seq<seq<Byte>>, files: seq<File>)
    requires Entries(a, |a|, alignment, es, contents) && Holding(es, contents, files)
    ensures AllReadable(es, |es|) <==> forall k :: 0 <= k < |files| ==> |files[k].data| != LIMIT
  {
    hide EntryOk;
    forall k | 0 <= k < |es| ensures es[k].uncompSize == |files[k].data| { EntrySize(a, alignment, es[k], contents[k]); }
  }

  lemma EntrySize(a: seq<Byte>, alignment: nat, e: Entry, content: seq<Byte>)
    requires EntryOk(a, |a|, alignment, e, content)
    ensures e.uncompSize == |content|
  {
    hide LocalHeader, Sized;
  }

  /** Each entry's record gives the content of its file. */
  lemma ContentsAre(a: seq<Byte>, alignment: nat, es: seq<Entry>, contents: seq<seq<Byte>>, z: Reader, files: seq<File>)
    requires Entries(a, |a|, alignment, es, contents) && Holding(es, contents, files)
    requires z.dir == ZW.Directory(es) && z.offsets == Offsets(es) && forall i :: 0 <= i < |z.offsets| ==> HasName(z.dir, z.offsets[i])
    ensures |ContentsOf(z, a)| == |files| && forall k :: 0 <= k < |files| ==> ContentsOf(z, a)[k] == Some(files[k].data)
  {
    hide Entries, Extracted, HasName, ZW.Directory, Offsets;
    forall k | 0 <= k < |files| ensures ContentsOf(z, a)[k] == Some(files[k].data) {
      OffsetAt(es, k);
      ExtractsContent(a, alignment, es, contents, k);
    }
  }

  lemma CacheServes(cache: map<Name, seq<Byte>>, names: seq<Name>, contents: Contents, files: seq<File>)
    requires names == NamesOfFiles(files) && |contents| == |files| && forall k :: 0 <= k < |files| ==> contents[k] == Some(files[k].data)
    requires Proper(names) && CachedNames(cache, names, |names|) && CachedContents(cache, names, contents, |names|)
    ensures Serves(cache, files)
  {
    hide Plain, StatName, CaseDistinct;
    forall k | 0 <= k < |files| ensures files[k].name in cache && cache[files[k].name] == files[k].data {
      assert names[k] in cache && cache[names[k]] == Text(contents, k);
    }
    forall s | s in cache ensures s in names {
      var k :| k < |names| && StatOf(names, k, s);
      PlainStat(names[k]);
      assert names[k] == s;
    }
  }
}
