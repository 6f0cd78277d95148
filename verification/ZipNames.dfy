/** File names in a ZIP central directory (section 4.3.12 of the PKWARE APPNOTE), and their order:
    bytes in lower case, compared one by one (src/http/miniz.c:2947, 3107-3122, 3449-3474). */
module ZipNames {
  import opened Bits

  const CDH_SIZE := 46             // MZ_ZIP_CENTRAL_DIR_HEADER_SIZE
  const CDH_FILENAME_LEN_OFS := 28

  type Name = seq<Byte>

  // ---------- reading ----------

  /** MZ_READ_LE16. */
  function ReadLe16(s: seq<Byte>, i: nat): (v: nat)
    requires i + 2 <= |s|
    ensures v < 0x10000
  {
    var a: nat, b: nat := s[i], s[i + 1];
    a + b * 0x100
  }

  /** There is a record with its name at this offset. */
  predicate HasName(dir: seq<Byte>, ofs: nat)
  {
    ofs + CDH_SIZE <= |dir| && ofs + CDH_SIZE + ReadLe16(dir, ofs + CDH_FILENAME_LEN_OFS) <= |dir|
  }

  function NameAt(dir: seq<Byte>, ofs: nat): Name
    requires HasName(dir, ofs)
  {
    dir[ofs + CDH_SIZE..ofs + CDH_SIZE + ReadLe16(dir, ofs + CDH_FILENAME_LEN_OFS)]
  }

  // ---------- order ----------

  /** MZ_TOLOWER. */
  function Lower(c: Byte): Byte
  {
    if 'A' as int <= c <= 'Z' as int then c - 'A' as int + 'a' as int else c
  }

  function LowerCase(s: Name): (r: Name)
    ensures |r| == |s|
  {
    seq(|s|, i requires 0 <= i < |s| => Lower(s[i]))
  }

  /** Equal but for case. */
  predicate SameName(a: Name, b: Name)
  {
    LowerCase(a) == LowerCase(b)
  }

  /** Case does not count for the letters A to Z, and for no other bytes. */
  lemma CaseOfBytes(a: Byte, b: Byte)
    ensures SameName([a], [b]) <==> a == b || (0x41 <= a <= 0x5A && b == a + 0x20) || (0x41 <= b <= 0x5A && a == b + 0x20)
  {
    assert SameName([a], [b]) <==> Lower(a) == Lower(b) by {
      assert LowerCase([a])[0] == Lower(a) && LowerCase([b])[0] == Lower(b);
      if Lower(a) == Lower(b) { assert LowerCase([a]) == LowerCase([b]); }
    }
  }

  /** Both start with the same n bytes, but for case. */
  predicate Agree(a: Name, b: Name, n: nat)
  {
    n <= |a| && n <= |b| && forall i :: 0 <= i < n ==> Lower(a[i]) == Lower(b[i])
  }

  /** a comes before b: at the first difference, or as a proper prefix. */
  ghost predicate Before(a: Name, b: Name)
  {
    exists n: nat :: FirstDifference(a, b, n)
  }

  predicate FirstDifference(a: Name, b: Name, n: nat)
  {
    Agree(a, b, n) && ((n == |a| && n < |b|) || (n < |a| && n < |b| && Lower(a[n]) < Lower(b[n])))
  }

  lemma BeforeIrreflexive(a: Name)
    ensures !Before(a, a)
  {
  }

  lemma BeforeTransitive(a: Name, b: Name, c: Name)
    requires Before(a, b) && Before(b, c)
    ensures Before(a, c)
  {
    var n: nat :| FirstDifference(a, b, n);
    var m: nat :| FirstDifference(b, c, m);
    assert FirstDifference(a, c, if n <= m then n else m);
  }

  lemma BeforeAsymmetric(a: Name, b: Name)
    requires Before(a, b)
    ensures !Before(b, a) && !SameName(a, b)
  {
    if Before(b, a) {
      BeforeTransitive(a, b, a);
      BeforeIrreflexive(a);
    }
    var n: nat :| FirstDifference(a, b, n);
    if SameName(a, b) { SameMeans(a, b); }
  }

  lemma AgreeSame(a: Name, b: Name)
    requires |a| == |b| && Agree(a, b, |a|)
    ensures SameName(a, b)
  {
    assert LowerCase(a) == LowerCase(b);
  }

  /** The order is total up to case. */
  lemma {:induction false} BeforeTotal(a: Name, b: Name, n: nat)
    requires Agree(a, b, n)
    ensures Before(a, b) || Before(b, a) || SameName(a, b)
    decreases |a| - n
  {
    if n == |a| && n == |b| {
      AgreeSame(a, b);
    } else if n == |a| || (n < |b| && Lower(a[n]) < Lower(b[n])) {
      assert FirstDifference(a, b, n);
    } else if n == |b| || Lower(b[n]) < Lower(a[n]) {
      assert FirstDifference(b, a, n);
    } else {
      BeforeTotal(a, b, n + 1);
    }
  }

  lemma BeforeSame(a: Name, a2: Name, b: Name)
    requires SameName(a, a2)
    ensures Before(a, b) <==> Before(a2, b)
    ensures Before(b, a) <==> Before(b, a2)
  {
    SameMeans(a, a2);
    if Before(a, b) { var n: nat :| FirstDifference(a, b, n); assert FirstDifference(a2, b, n); }
    if Before(a2, b) { var n: nat :| FirstDifference(a2, b, n); assert FirstDifference(a, b, n); }
    if Before(b, a) { var n: nat :| FirstDifference(b, a, n); assert FirstDifference(b, a2, n); }
    if Before(b, a2) { var n: nat :| FirstDifference(b, a2, n); assert FirstDifference(b, a, n); }
  }

  lemma SameMeans(a: Name, b: Name)
    requires SameName(a, b)
    ensures |a| == |b| && forall i :: 0 <= i < |a| ==> Lower(a[i]) == Lower(b[i])
  {
    forall i | 0 <= i < |a| ensures Lower(a[i]) == Lower(b[i]) {
      assert LowerCase(a)[i] == LowerCase(b)[i];
    }
  }

  // ---------- the comparisons of the program ----------

  /** mz_zip_reader_filename_less, on the directory bytes. */
  method FilenameLess(dir: seq<Byte>, offsets: seq<nat>, l: nat, r: nat) returns (less: bool)
    requires l < |offsets| && r < |offsets| && HasName(dir, offsets[l]) && HasName(dir, offsets[r])
    ensures less == Before(NameAt(dir, offsets[l]), NameAt(dir, offsets[r]))
  {
    hide Before;
    var lLen, rLen := ReadLe16(dir, offsets[l] + CDH_FILENAME_LEN_OFS), ReadLe16(dir, offsets[r] + CDH_FILENAME_LEN_OFS);
    var pL, pR := offsets[l] + CDH_SIZE, offsets[r] + CDH_SIZE;
    var n := if lLen <= rLen then lLen else rLen;
    ghost var a, b := NameAt(dir, offsets[l]), NameAt(dir, offsets[r]);
    var i := 0;
    var x: int, y: int := 0, 0;
    while i < n
      invariant 0 <= i <= n && Agree(a, b, i)
    {
      x, y := Lower(dir[pL + i]), Lower(dir[pR + i]);
      if x != y { break; }
      i := i + 1;
    }
    Decided(a, b, i);
    less := if i == n then lLen < rLen else x < y;
  }

  /** At the first difference, or the end of the shorter name, the order is decided. */
  lemma Decided(a: Name, b: Name, n: nat)
    requires Agree(a, b, n) && (n == |a| || n == |b| || Lower(a[n]) != Lower(b[n]))
    ensures n == |a| || n == |b| ==> (Before(a, b) <==> |a| < |b|) && (Before(b, a) <==> |b| < |a|) && (SameName(a, b) <==> |a| == |b|)
    ensures n < |a| && n < |b| ==> (Before(a, b) <==> Lower(a[n]) < Lower(b[n])) && !SameName(a, b)
  {
    if n == |a| && n == |b| {
      AgreeSame(a, b);
      SameNotBefore(a, b);
    } else if n == |a| || (n < |b| && Lower(a[n]) < Lower(b[n])) {
      assert FirstDifference(a, b, n);
      BeforeAsymmetric(a, b);
    } else {
      assert FirstDifference(b, a, n);
      BeforeAsymmetric(b, a);
    }
  }

  lemma SameNotBefore(a: Name, b: Name)
    requires SameName(a, b)
    ensures !Before(a, b) && !Before(b, a)
  {
    BeforeSame(a, b, b);
    BeforeIrreflexive(b);
  }

  /** mz_zip_reader_filename_compare: negative, zero or positive. */
  method FilenameCompare(dir: seq<Byte>, offsets: seq<nat>, l: nat, name: Name) returns (comp: int)
    requires l < |offsets| && HasName(dir, offsets[l])
    ensures comp == 0 <==> SameName(NameAt(dir, offsets[l]), name)
    ensures comp < 0 <==> Before(NameAt(dir, offsets[l]), name)
    ensures comp > 0 <==> Before(name, NameAt(dir, offsets[l]))
  {
    hide Before, SameName;
    var lLen := ReadLe16(dir, offsets[l] + CDH_FILENAME_LEN_OFS);
    var pL := offsets[l] + CDH_SIZE;
    var n := if lLen <= |name| then lLen else |name|;
    ghost var a := NameAt(dir, offsets[l]);
    var i := 0;
    var x: int, y: int := 0, 0;
    while i < n
      invariant 0 <= i <= n && Agree(a, name, i)
    {
      x, y := Lower(dir[pL + i]), Lower(name[i]);
      if x != y { break; }
      i := i + 1;
    }
    Decided(a, name, i);
    AgreeSwap(a, name, i);
    Decided(name, a, i);
    comp := if i == n then lLen - |name| else x - y;
  }

  lemma AgreeSwap(a: Name, b: Name, n: nat)
    requires Agree(a, b, n)
    ensures Agree(b, a, n)
  {
  }
}
