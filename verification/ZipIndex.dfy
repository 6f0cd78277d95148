/** Finding an entry by name, by the sorted index or by a scan (src/http/miniz.c:3449-3536), and the
    web UI cache that is filled by name (src/http/gui_request_handler.cpp:99-144). */
module ZipIndex {
  import opened Bits
  import opened CanonicalCode
  import opened ZipNames
  import opened ZipSort

  const MAX_FILENAME := 260   // MZ_ZIP_MAX_ARCHIVE_FILENAME_SIZE

  // ---------- searching ----------

  /** What the binary search comes to between positions l and h. */
  ghost function Search(names: seq<Name>, s: seq<nat>, name: Name, l: int, h: int): (r: int)
    requires Entries(names, s) && 0 <= l && h < |s|
    ensures r >= 0 ==> r < |names| && SameName(names[r], name)
    ensures r < 0 ==> r == -1
    decreases h - l + 1
  {
    if l > h then -1 else
    var m := (l + h) / 2;
    if SameName(names[s[m]], name) then s[m]
    else if Before(names[s[m]], name) then Search(names, s, name, m + 1, h)
    else Search(names, s, name, l, m - 1)
  }

  /** mz_zip_reader_locate_file_binary_search. */
  method LocateBinary(dir: seq<Byte>, offsets: seq<nat>, indices: seq<nat>, name: Name, ghost names: seq<Name>) returns (r: int)
    requires Directory(dir, offsets, names) && Entries(names, indices)
    ensures r == Search(names, indices, name, 0, |indices| - 1)
  {
    hide Before, SameName;
    var l, h := 0, |indices| - 1;
    NamesMatch(dir, offsets, names);
    while l <= h
      invariant 0 <= l && h < |indices| && Search(names, indices, name, l, h) == Search(names, indices, name, 0, |indices| - 1)
      decreases h - l + 1
    {
      var m := (l + h) / 2;
      var fileIndex := indices[m];
      assert EntryName(dir, offsets, names, fileIndex);
      var comp := FilenameCompare(dir, offsets, fileIndex, name);
      if comp == 0 {
        return fileIndex;
      } else if comp < 0 {
        l := m + 1;
      } else {
        h := m - 1;
      }
    }
    r := -1;
  }

  lemma LeBefore(names: seq<Name>, i: nat, j: nat, name: Name)
    requires Le(names, i, j)
    ensures Before(names[j], name) ==> Before(names[i], name) && !SameName(names[i], name)
    ensures Before(name, names[i]) ==> Before(name, names[j]) && !SameName(names[j], name)
  {
    hide Before, SameName;
    var a, b := names[i], names[j];
    AgreeNone(a, b);
    BeforeTotal(a, b, 0);
    if SameName(a, b) {
      BeforeSame(a, b, name);
    } else {
      if Before(b, name) { BeforeTransitive(a, b, name); }
      if Before(name, a) { BeforeTransitive(name, a, b); }
    }
    if Before(a, name) { BeforeAsymmetric(a, name); }
    if Before(name, b) { BeforeAsymmetric(name, b); SameSwap(b, name); }
  }

  lemma SameSwap(a: Name, b: Name)
    ensures SameName(a, b) <==> SameName(b, a)
  {
  }

  /** In a sorted index, an entry with the name is found if there is one between l and h. */
  lemma {:induction false} SearchFinds(names: seq<Name>, s: seq<nat>, name: Name, l: int, h: int)
    requires Entries(names, s) && SortedFrom(names, s, 0) && 0 <= l && h < |s| && Search(names, s, name, l, h) < 0
    ensures forall k :: l <= k <= h ==> !SameName(names[s[k]], name)
    decreases h - l + 1
  {
    hide Before, SameName, Le;
    if l <= h {
      var m := (l + h) / 2;
      if Before(names[s[m]], name) {
        SearchFinds(names, s, name, m + 1, h);
        forall k | l <= k <= m ensures !SameName(names[s[k]], name) {
          if k < m { LeBefore(names, s[k], s[m], name); }
        }
      } else {
        AgreeNone(names[s[m]], name);
        BeforeTotal(names[s[m]], name, 0);
        SearchFinds(names, s, name, l, m - 1);
        forall k | m <= k <= h ensures !SameName(names[s[k]], name) {
          if k > m { LeBefore(names, s[m], s[k], name); }
        }
      }
    }
  }

  /** Case makes no difference to the search. */
  lemma {:induction false} SearchSame(names: seq<Name>, s: seq<nat>, a: Name, b: Name, l: int, h: int)
    requires Entries(names, s) && 0 <= l && h < |s| && SameName(a, b)
    ensures Search(names, s, a, l, h) == Search(names, s, b, l, h)
    decreases h - l + 1
  {
    hide Before;
    if l <= h {
      var m := (l + h) / 2;
      BeforeSame(a, b, names[s[m]]);
      SearchSame(names, s, a, b, m + 1, h);
      SearchSame(names, s, a, b, l, m - 1);
    }
  }

  /** mz_zip_reader_string_equal, without MZ_ZIP_FLAG_CASE_SENSITIVE. */
  method StringEqual(a: Name, dir: seq<Byte>, ofs: nat, len: nat) returns (equal: bool)
    requires len == |a| && ofs + len <= |dir|
    ensures equal == SameName(a, dir[ofs..ofs + len])
  {
    hide SameName;
    ghost var b := dir[ofs..ofs + len];
    var i := 0;
    while i < len
      invariant 0 <= i <= len && Agree(a, b, i)
    {
      if Lower(a[i]) != Lower(dir[ofs + i]) {
        Differ(a, b, i);
        return false;
      }
      i := i + 1;
    }
    AgreeSame(a, b);
    equal := true;
  }

  lemma Differ(a: Name, b: Name, i: nat)
    requires i < |a| && i < |b| && Lower(a[i]) != Lower(b[i])
    ensures !SameName(a, b)
  {
    if SameName(a, b) { SameMeans(a, b); }
  }

  /** The first entry with this name, but for case. */
  ghost predicate First(names: seq<Name>, name: Name, r: int)
  {
    && (r < 0 ==> r == -1 && forall i :: 0 <= i < |names| ==> !SameName(names[i], name))
    && (r >= 0 ==> r < |names| && SameName(names[r], name) && forall i :: 0 <= i < r ==> !SameName(names[i], name))
  }

  /** mz_zip_reader_locate_file, the scan, with no flags and no comment. */
  method LocateScan(dir: seq<Byte>, offsets: seq<nat>, name: Name, ghost names: seq<Name>) returns (r: int)
    requires Directory(dir, offsets, names)
    ensures First(names, name, r)
  {
    hide SameName;
    NamesMatch(dir, offsets, names);
    if |name| > 0xFFFF {
      forall i | 0 <= i < |names| ensures !SameName(names[i], name) {
        assert EntryName(dir, offsets, names, i);
        if SameName(names[i], name) { SameMeans(names[i], name); }
      }
      return -1;
    }
    var i := 0;
    while i < |offsets|
      invariant 0 <= i <= |offsets| && forall k :: 0 <= k < i ==> !SameName(names[k], name)
    {
      assert EntryName(dir, offsets, names, i);
      var len := ReadLe16(dir, offsets[i] + CDH_FILENAME_LEN_OFS);
      if len == |name| {
        var equal := StringEqual(name, dir, offsets[i] + CDH_SIZE, len);
        SameSwap(name, names[i]);
        if equal { return i; }
      } else if SameName(names[i], name) {
        SameMeans(names[i], name);
      }
      i := i + 1;
    }
    r := -1;
  }

  /** Two entries of a directory never have the same name, in any case. */
  predicate CaseDistinct(names: seq<Name>)
  {
    forall i, j :: 0 <= i < j < |names| ==> !SameName(names[i], names[j])
  }

  /** The index agrees with the scan: both succeed or both fail, on names equal but for case; and if
      no two entries share a name they give the same entry. */
  lemma SearchAgrees(names: seq<Name>, s: seq<nat>, name: Name, scan: int)
    requires SortedIndex(names, s) && First(names, name, scan)
    ensures var r := Search(names, s, name, 0, |s| - 1);
            && (r >= 0 <==> scan >= 0)
            && (r >= 0 ==> SameName(names[r], names[scan]))
            && (CaseDistinct(names) ==> r == scan)
  {
    hide Before, Le;
    var r := Search(names, s, name, 0, |s| - 1);
    if scan >= 0 { assert (scan as nat) in s; }
    if r < 0 { SearchFinds(names, s, name, 0, |s| - 1); }
  }

  // ---------- the reader ----------

  /** A central directory read into memory, sorted or not. */
  datatype Reader = Reader(dir: seq<Byte>, offsets: seq<nat>, sorted: Option<seq<nat>>)

  ghost predicate Opened(z: Reader, names: seq<Name>)
  {
    Directory(z.dir, z.offsets, names) && (z.sorted.Some? ==> SortedIndex(names, z.sorted.value))
  }

  /** The entry that mz_zip_reader_locate_file gives. */
  ghost predicate Locates(z: Reader, names: seq<Name>, name: Name, r: int)
    requires Opened(z, names)
  {
    if z.sorted.Some? && |z.sorted.value| > 0 then r == Search(names, z.sorted.value, name, 0, |z.sorted.value| - 1)
    else First(names, name, r)
  }

  method LocateFile(z: Reader, name: Name, ghost names: seq<Name>) returns (r: int)
    requires Opened(z, names)
    ensures Locates(z, names, name, r)
  {
    hide First, SortedFrom;
    if z.sorted.Some? && |z.sorted.value| > 0 {
      r := LocateBinary(z.dir, z.offsets, z.sorted.value, name, names);
    } else {
      r := LocateScan(z.dir, z.offsets, name, names);
    }
  }

  /** What mz_zip_reader_file_stat makes of a name: at most 259 bytes, as a C string. */
  function StatName(n: Name): (r: Name)
    ensures |r| <= |n| && |r| < MAX_FILENAME
  {
    CString(if |n| <= MAX_FILENAME - 1 then n else n[..MAX_FILENAME - 1])
  }

  function CString(n: Name): (r: Name)
    ensures |r| <= |n| && (|r| == |n| ==> r == n)
    ensures 0 !in n ==> r == n
    ensures 0 in n ==> |r| < |n|
  {
    if n == [] || n[0] == 0 then [] else [n[0]] + CString(n[1..])
  }

  /** A name that comes through file_stat whole. */
  predicate Plain(n: Name)
  {
    |n| < MAX_FILENAME && 0 !in n
  }

  /** A name comes through whole if it has at most 259 bytes and no NUL; one that is too long is cut after 259. */
  lemma StatNames(n: Name)
    ensures StatName(n) == n <==> |n| <= 259 && 0 !in n
    ensures 0 !in n && |n| >= 260 ==> StatName(n) == n[..259]
  {
    if 0 !in n && |n| >= 260 { assert 0 !in n[..259]; }
  }

  lemma PlainStat(n: Name)
    ensures Plain(n) <==> StatName(n) == n
  {
  }

  lemma LocateIsSame(z: Reader, names: seq<Name>, name: Name, r: int)
    requires Opened(z, names) && Locates(z, names, name, r) && r >= 0
    ensures r < |names| && SameName(names[r], name)
  {
    hide SortedFrom, Le, Before;
  }

  /** A name that some entry has is found. */
  lemma LocateFinds(z: Reader, names: seq<Name>, i: nat, r: int)
    requires Opened(z, names) && i < |names| && Locates(z, names, names[i], r)
    ensures r >= 0
  {
    hide Le, Before;
    if z.sorted.Some? && |z.sorted.value| > 0 {
      assert i in z.sorted.value;
      if r < 0 { SearchFinds(names, z.sorted.value, names[i], 0, |z.sorted.value| - 1); }
    }
  }

  /** Names equal but for case are found as one entry. */
  lemma LocateSame(z: Reader, names: seq<Name>, a: Name, b: Name, r: int, q: int)
    requires Opened(z, names) && Locates(z, names, a, r) && Locates(z, names, b, q) && SameName(a, b)
    ensures r == q
  {
    hide Le, Before, SortedFrom;
    if z.sorted.Some? && |z.sorted.value| > 0 {
      SearchSame(names, z.sorted.value, a, b, 0, |z.sorted.value| - 1);
    }
  }

  /** Looking an entry up by the name that file_stat gives for it finds that entry. */
  ghost predicate FindsItself(z: Reader, names: seq<Name>, i: nat)
    requires Opened(z, names)
  {
    i < |names| && forall r: int :: Locates(z, names, StatName(names[i]), r) ==> r == i
  }

  /** Every entry is found under its own name exactly when no two names are equal but for case, and all
      of them come through file_stat whole. */
  lemma AllFoundIff(z: Reader, names: seq<Name>)
    requires Opened(z, names)
    ensures (forall i :: 0 <= i < |names| ==> FindsItself(z, names, i)) <==> CaseDistinct(names) && forall i :: 0 <= i < |names| ==> Plain(names[i])
  {
    hide Opened, Locates, SameName;
    if CaseDistinct(names) && forall i :: 0 <= i < |names| ==> Plain(names[i]) {
      forall i | 0 <= i < |names| ensures FindsItself(z, names, i) {
        PlainStat(names[i]);
        forall r: int | Locates(z, names, StatName(names[i]), r) ensures r == i {
          LocateFinds(z, names, i, r);
          LocateIsSame(z, names, names[i], r);
          SameSwap(names[r], names[i]);
        }
      }
    }
    if forall i :: 0 <= i < |names| ==> FindsItself(z, names, i) {
      forall i | 0 <= i < |names| ensures Plain(names[i]) {
        assert FindsItself(z, names, i);
        FoundIsPlain(z, names, i);
      }
      forall i, j | 0 <= i < j < |names| ensures !SameName(names[i], names[j]) {
        if SameName(names[i], names[j]) {
          assert FindsItself(z, names, i) && FindsItself(z, names, j);
          PlainStat(names[i]);
          PlainStat(names[j]);
          var r, q := SomeLocation(z, names, names[i]), SomeLocation(z, names, names[j]);
          LocateSame(z, names, names[i], names[j], r, q);
        }
      }
    }
  }

  /** There is always an answer. */
  ghost function SomeLocation(z: Reader, names: seq<Name>, name: Name): (r: int)
    requires Opened(z, names)
    ensures Locates(z, names, name, r)
  {
    FirstExists(names, name);
    if z.sorted.Some? && |z.sorted.value| > 0 then Search(names, z.sorted.value, name, 0, |z.sorted.value| - 1)
    else var r: int :| First(names, name, r); r
  }

  lemma FirstExists(names: seq<Name>, name: Name)
    ensures exists r: int :: First(names, name, r)
  {
    var r := FirstFrom(names, name, 0);
  }

  lemma {:induction false} FirstFrom(names: seq<Name>, name: Name, i: nat) returns (r: int)
    requires i <= |names| && forall k :: 0 <= k < i ==> !SameName(names[k], name)
    ensures First(names, name, r)
    decreases |names| - i
  {
    hide SameName;
    if i == |names| { r := -1; } else if SameName(names[i], name) { r := i; } else { r := FirstFrom(names, name, i + 1); }
  }

  /** A name that was cut short belongs to no entry of that length, or to another one. */
  lemma FoundIsPlain(z: Reader, names: seq<Name>, i: nat)
    requires Opened(z, names) && FindsItself(z, names, i)
    ensures Plain(names[i])
  {
    hide Opened, Locates, SameName;
    var name := StatName(names[i]);
    var r := SomeLocation(z, names, name);
    assert r == i;
    LocateIsSame(z, names, name, r);
    SameMeans(names[i], name);
    PlainStat(names[i]);
    SameLengthStat(names[i]);
  }

  lemma SameLengthStat(n: Name)
    requires |StatName(n)| == |n|
    ensures StatName(n) == n
  {
  }
}
