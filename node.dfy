/**
 * The data-source side of the navigator: the capability record a view node wraps, and
 * the file-system node whose children are listed directories first, then by name.
 */
module Nodes {
  import opened Options

  /**
   * A node as the view layer sees it: its label and which capabilities it has.
   * `expandable` stands for `is Expandable`, `contentType` is `Some` exactly for a
   * `ContentReadable` node, and `openable` stands for `is Openable`.
   */
  datatype Node = Node(labelText: string, expandable: bool, contentType: Option<string>, openable: bool)

  /** What `File.listFiles` reports about one entry of a directory. */
  datatype FileInfo = FileInfo(name: string, isDirectory: bool)

  /** A node backed by a file; its label is the file's name. */
  datatype FileSystemNode = FileSystemNode(file: FileInfo) {
    function Label(): (name: string) { file.name }
  }

  /**
   * The UTF-16 code units that stand for `c` in a JVM string: the character itself
   * below U+10000, otherwise a high surrogate (U+D800..U+DBFF) followed by a low one
   * (U+DC00..U+DFFF).
   */
  function CodeUnits(c: char): (u: seq<int>)
    ensures |u| == 1 <==> c as int < 0x1_0000
    ensures |u| == 1 || |u| == 2
    ensures |u| == 1 ==> u[0] == c as int
    ensures |u| == 2 ==> 0xD800 <= u[0] < 0xDC00 && 0xDC00 <= u[1] < 0xE000
  {
    if c as int < 0x1_0000 then [c as int]
    else
      var v := c as int - 0x1_0000;
      [0xD800 + v / 0x400, 0xDC00 + v % 0x400]
  }

  /** A character's code units determine the character. */
  lemma CodeUnitsInjective(c: char, d: char)
    requires CodeUnits(c) == CodeUnits(d)
    ensures c == d
  {
  }

  /** The UTF-16 encoding of `s`, one code unit per element. */
  function Utf16(s: string): (u: seq<int>)
    ensures |s| <= |u| <= 2 * |s|
  {
    if |s| == 0 then [] else CodeUnits(s[0]) + Utf16(s[1..])
  }

  /**
   * Two strings with the same UTF-16 encoding are equal: a code unit outside the
   * surrogate range is a character of its own and a high surrogate opens a pair, so the
   * first unit says how long the first character's encoding is.
   */
  lemma {:induction false} Utf16Injective(a: string, b: string)
    requires Utf16(a) == Utf16(b)
    ensures a == b
  {
    if |a| > 0 && |b| > 0 {
      var ua, ub := CodeUnits(a[0]), CodeUnits(b[0]);
      assert Utf16(a) == ua + Utf16(a[1..]);
      assert Utf16(b) == ub + Utf16(b[1..]);
      assert ua[0] == Utf16(a)[0] == ub[0];
      assert |ua| == |ub|;
      assert ua == Utf16(a)[..|ua|] == ub;
      CodeUnitsInjective(a[0], b[0]);
      assert Utf16(a[1..]) == Utf16(a)[|ua|..] == Utf16(b[1..]);
      Utf16Injective(a[1..], b[1..]);
      assert a == [a[0]] + a[1..] && b == [b[0]] + b[1..];
    }
  }

  /** `k` is the first index at which `a` and `b` differ. */
  predicate DifferFirstAt(a: seq<int>, b: seq<int>, k: nat)
  {
    k < |a| && k < |b| && a[..k] == b[..k] && a[k] != b[k]
  }

  /**
   * The order `compareTo` documents: either `a` is a prefix of `b`, or at the first index
   * where the two differ the unit of `a` is the smaller.
   */
  ghost predicate LexicographicLe(a: seq<int>, b: seq<int>)
  {
    a <= b || exists k: nat :: DifferFirstAt(a, b, k) && a[k] < b[k]
  }

  /** Lexicographic order on code-unit sequences, one unit at a time. */
  predicate UnitsLe(a: seq<int>, b: seq<int>)
  {
    if |a| == 0 then true
    else if |b| == 0 then false
    else if a[0] != b[0] then a[0] < b[0]
    else UnitsLe(a[1..], b[1..])
  }

  /** With equal first elements, prefixes and first differences carry over to the tails. */
  lemma DifferFirstAtTail(a: seq<int>, b: seq<int>)
    requires |a| > 0 && |b| > 0 && a[0] == b[0]
    ensures a <= b <==> a[1..] <= b[1..]
    ensures forall k: nat :: DifferFirstAt(a, b, k) <==> k > 0 && DifferFirstAt(a[1..], b[1..], k - 1)
  {
    assert a == [a[0]] + a[1..] && b == [b[0]] + b[1..];
    forall k: nat
      ensures DifferFirstAt(a, b, k) <==> k > 0 && DifferFirstAt(a[1..], b[1..], k - 1)
    {
      if 0 < k <= |a| && k <= |b| {
        assert a[1..][..k - 1] == a[..k][1..];
        assert b[1..][..k - 1] == b[..k][1..];
        assert a[..k] == [a[0]] + a[1..][..k - 1];
        assert b[..k] == [b[0]] + b[1..][..k - 1];
      }
    }
  }

  /** `UnitsLe` is exactly the order `compareTo` documents. */
  lemma {:induction false} UnitsLeLexicographic(a: seq<int>, b: seq<int>)
    ensures UnitsLe(a, b) <==> LexicographicLe(a, b)
  {
    if |a| == 0 {
    } else if |b| == 0 {
    } else if a[0] != b[0] {
      assert DifferFirstAt(a, b, 0);
    } else {
      DifferFirstAtTail(a, b);
      UnitsLeLexicographic(a[1..], b[1..]);
      if exists j: nat :: DifferFirstAt(a[1..], b[1..], j) && a[1..][j] < b[1..][j] {
        var j: nat :| DifferFirstAt(a[1..], b[1..], j) && a[1..][j] < b[1..][j];
        assert DifferFirstAt(a, b, j + 1) && a[j + 1] < b[j + 1];
      }
      if exists k: nat :: DifferFirstAt(a, b, k) && a[k] < b[k] {
        var k: nat :| DifferFirstAt(a, b, k) && a[k] < b[k];
        assert DifferFirstAt(a[1..], b[1..], k - 1) && a[1..][k - 1] < b[1..][k - 1];
      }
    }
  }

  lemma {:induction false} UnitsLeReflexive(a: seq<int>)
    ensures UnitsLe(a, a)
  {
    if |a| > 0 { UnitsLeReflexive(a[1..]); }
  }

  lemma {:induction false} UnitsLeTotal(a: seq<int>, b: seq<int>)
    ensures UnitsLe(a, b) || UnitsLe(b, a)
  {
    if |a| > 0 && |b| > 0 && a[0] == b[0] { UnitsLeTotal(a[1..], b[1..]); }
  }

  lemma {:induction false} UnitsLeAntisymmetric(a: seq<int>, b: seq<int>)
    requires UnitsLe(a, b) && UnitsLe(b, a)
    ensures a == b
  {
    if |a| > 0 && |b| > 0 {
      UnitsLeAntisymmetric(a[1..], b[1..]);
      assert a == [a[0]] + a[1..] && b == [b[0]] + b[1..];
    }
  }

  lemma {:induction false} UnitsLeTransitive(a: seq<int>, b: seq<int>, c: seq<int>)
    requires UnitsLe(a, b) && UnitsLe(b, c)
    ensures UnitsLe(a, c)
  {
    if |a| > 0 && |b| > 0 && |c| > 0 && a[0] == b[0] && b[0] == c[0] {
      UnitsLeTransitive(a[1..], b[1..], c[1..]);
    }
  }

  /**
   * Kotlin's `String.compareTo(a, b) <= 0`: the strings' UTF-16 code units compared one
   * by one, a proper prefix before the longer string. This is code-point order except
   * where a character in U+E000..U+FFFF meets one above U+FFFF: the latter's high
   * surrogate is the smaller unit, so it comes first.
   */
  predicate NameLe(a: string, b: string)
  {
    UnitsLe(Utf16(a), Utf16(b))
  }

  lemma NameLeReflexive(a: string)
    ensures NameLe(a, a)
  {
    UnitsLeReflexive(Utf16(a));
  }

  lemma NameLeTotal(a: string, b: string)
    ensures NameLe(a, b) || NameLe(b, a)
  {
    UnitsLeTotal(Utf16(a), Utf16(b));
  }

  lemma NameLeAntisymmetric(a: string, b: string)
    requires NameLe(a, b) && NameLe(b, a)
    ensures a == b
  {
    UnitsLeAntisymmetric(Utf16(a), Utf16(b));
    Utf16Injective(a, b);
  }

  lemma NameLeTransitive(a: string, b: string, c: string)
    requires NameLe(a, b) && NameLe(b, c)
    ensures NameLe(a, c)
  {
    UnitsLeTransitive(Utf16(a), Utf16(b), Utf16(c));
  }

  /** A supplementary character sorts before one in U+E000..U+FFFF ("😀" before "ｱ"). */
  lemma SupplementaryBeforeHighBmp(s: char, h: char)
    requires s as int >= 0x1_0000 && 0xE000 <= h as int < 0x1_0000
    ensures NameLe([s], [h]) && !NameLe([h], [s])
  {
  }

  /**
   * The comparator `compareBy({ !it.isDirectory }, { it.name })` as "x may come before y":
   * `false < true` on the first key puts directories first, the name breaks ties.
   */
  predicate Precedes(x: FileInfo, y: FileInfo): (before: bool)
    ensures x.isDirectory && !y.isDirectory ==> before
    ensures !x.isDirectory && y.isDirectory ==> !before
    ensures x.isDirectory == y.isDirectory ==> (before <==> NameLe(x.name, y.name))
  {
    if x.isDirectory != y.isDirectory then x.isDirectory else NameLe(x.name, y.name)
  }

  lemma PrecedesTotal(x: FileInfo, y: FileInfo)
    ensures Precedes(x, y) || Precedes(y, x)
  {
    NameLeTotal(x.name, y.name);
  }

  lemma PrecedesTransitive(x: FileInfo, y: FileInfo, z: FileInfo)
    requires Precedes(x, y) && Precedes(y, z)
    ensures Precedes(x, z)
  {
    if x.isDirectory == y.isDirectory == z.isDirectory {
      NameLeTransitive(x.name, y.name, z.name);
    }
  }

  lemma PrecedesAntisymmetric(x: FileInfo, y: FileInfo)
    requires Precedes(x, y) && Precedes(y, x)
    ensures x == y
  {
    NameLeAntisymmetric(x.name, y.name);
  }

  ghost predicate Sorted(s: seq<FileInfo>)
  {
    forall i, j :: 0 <= i < j < |s| ==> Precedes(s[i], s[j])
  }

  /** `r` is the listing `l` rearranged into the comparator's order. */
  ghost predicate SortedListing(r: seq<FileInfo>, l: seq<FileInfo>)
  {
    multiset(r) == multiset(l) && Sorted(r)
  }

  function FilesOf(nodes: seq<FileSystemNode>): (files: seq<FileInfo>)
    ensures |files| == |nodes|
    ensures forall k :: 0 <= k < |nodes| ==> files[k] == nodes[k].file
  {
    seq(|nodes|, k requires 0 <= k < |nodes| => nodes[k].file)
  }

  /** `arrayOfFiles.sortWith(...)`: sorts the listed array in place. */
  method SortWith(a: array<FileInfo>)
    modifies a
    ensures Sorted(a[..])
    ensures multiset(a[..]) == old(multiset(a[..]))
  {
    var i := 0;
    while i < a.Length
      invariant 0 <= i <= a.Length
      invariant forall p, q :: 0 <= p < q < i ==> Precedes(a[p], a[q])
      invariant multiset(a[..]) == old(multiset(a[..]))
    {
      InsertAt(a, i);
      i := i + 1;
    }
  }

  /** One insertion step: moves `a[i]` down into the sorted prefix `a[..i]`. */
  method InsertAt(a: array<FileInfo>, i: nat)
    requires i < a.Length
    requires forall p, q :: 0 <= p < q < i ==> Precedes(a[p], a[q])
    modifies a
    ensures forall p, q :: 0 <= p < q <= i ==> Precedes(a[p], a[q])
    ensures multiset(a[..]) == old(multiset(a[..]))
  {
    var j := i;
    while 0 < j && !Precedes(a[j - 1], a[j])
      invariant 0 <= j <= i
      invariant forall p, q :: 0 <= p < q <= i && p != j && q != j ==> Precedes(a[p], a[q])
      invariant forall q :: j < q <= i ==> Precedes(a[j], a[q])
      invariant multiset(a[..]) == old(multiset(a[..]))
    {
      PrecedesTotal(a[j - 1], a[j]);
      a[j - 1], a[j] := a[j], a[j - 1];
      j := j - 1;
    }
    forall p, q | 0 <= p < q <= i
      ensures Precedes(a[p], a[q])
    {
      if q == j && p < j - 1 {
        PrecedesTransitive(a[p], a[j - 1], a[j]);
      }
    }
  }

  /**
   * `FileSystemNode.listChildren`, with the file system's answer to `listFiles()` passed
   * in: `None` stands for the `null` an unlistable directory returns.
   */
  method ListChildren(file: FileInfo, listFiles: Option<seq<FileInfo>>) returns (children: seq<FileSystemNode>)
    ensures !file.isDirectory ==> children == []
    ensures listFiles.None? ==> children == []
    ensures file.isDirectory && listFiles.Some? ==> SortedListing(FilesOf(children), listFiles.value)
    ensures forall i, j ::
      0 <= i < |children| && 0 <= j < |children| && children[i].file.isDirectory && !children[j].file.isDirectory
      ==> i < j
    ensures forall i, j ::
      0 <= i < j < |children| && children[i].file.isDirectory == children[j].file.isDirectory
      ==> NameLe(children[i].Label(), children[j].Label())
  {
    if file.isDirectory {
      match listFiles
      case None =>
        children := [];
      case Some(files) =>
        var arrayOfFiles := new FileInfo[|files|](k requires 0 <= k < |files| => files[k]);
        assert arrayOfFiles[..] == files;
        SortWith(arrayOfFiles);
        var sorted := arrayOfFiles[..];
        children := seq(|sorted|, k requires 0 <= k < |sorted| => FileSystemNode(sorted[k]));
        assert FilesOf(children) == sorted;
        forall i, j | 0 <= i < |children| && 0 <= j < |children| &&
          children[i].file.isDirectory && !children[j].file.isDirectory
          ensures i < j
        {
          assert !Precedes(sorted[j], sorted[i]);
        }
    } else {
      children := [];
    }
  }

  /**
   * The comparator is a total order on listed entries, so the sorted listing is unique:
   * any correct sorting of the same entries gives the same sequence.
   */
  lemma {:induction false} SortedListingUnique(r: seq<FileInfo>, r': seq<FileInfo>, l: seq<FileInfo>)
    requires SortedListing(r, l) && SortedListing(r', l)
    ensures r == r'
  {
    assert |r| == |multiset(r)| == |multiset(r')| == |r'|;
    if |r| > 0 {
      assert r[0] in multiset(r') && r'[0] in multiset(r);
      SortedHeadIsLeast(r', r[0]);
      SortedHeadIsLeast(r, r'[0]);
      PrecedesAntisymmetric(r[0], r'[0]);
      SameTail(r, r');
      SortedListingUnique(r[1..], r'[1..], r[1..]);
      assert r == [r[0]] + r[1..] && r' == [r'[0]] + r'[1..];
    }
  }

  lemma SortedHeadIsLeast(r: seq<FileInfo>, x: FileInfo)
    requires Sorted(r) && x in r
    ensures Precedes(r[0], x)
  {
    var k :| 0 <= k < |r| && r[k] == x;
    if k == 0 { NameLeReflexive(x.name); }
  }

  lemma SameTail(r: seq<FileInfo>, r': seq<FileInfo>)
    requires |r| > 0 && |r'| > 0 && r[0] == r'[0] && multiset(r) == multiset(r')
    ensures multiset(r[1..]) == multiset(r'[1..])
  {
    assert r == [r[0]] + r[1..] && r' == [r'[0]] + r'[1..];
    assert multiset(r) == multiset([r[0]]) + multiset(r[1..]);
    assert multiset(r') == multiset([r'[0]]) + multiset(r'[1..]);
    assert multiset(r[1..]) == multiset(r) - multiset([r[0]]);
    assert multiset(r'[1..]) == multiset(r') - multiset([r'[0]]);
  }

  /** The listing `[dirB, fileA, dirA, fileB]` sorts to `[dirA, dirB, fileA, fileB]`. */
  lemma MixedListingOrder(r: seq<FileInfo>)
    requires SortedListing(r, [FileInfo("dirB", true), FileInfo("fileA", false), FileInfo("dirA", true), FileInfo("fileB", false)])
    ensures r == [FileInfo("dirA", true), FileInfo("dirB", true), FileInfo("fileA", false), FileInfo("fileB", false)]
  {
    var dirA, dirB := FileInfo("dirA", true), FileInfo("dirB", true);
    var fileA, fileB := FileInfo("fileA", false), FileInfo("fileB", false);
    assert NameLe(dirA.name, dirB.name) && NameLe(fileA.name, fileB.name);
    TwoDirsTwoFiles(dirA, dirB, fileA, fileB);
    SortedListingUnique(r, [dirA, dirB, fileA, fileB], [dirB, fileA, dirA, fileB]);
  }

  /** Two ordered directories and two ordered files, listed as `[d2, f1, d1, f2]`, sort to `[d1, d2, f1, f2]`. */
  lemma TwoDirsTwoFiles(d1: FileInfo, d2: FileInfo, f1: FileInfo, f2: FileInfo)
    requires d1.isDirectory && d2.isDirectory && !f1.isDirectory && !f2.isDirectory
    requires NameLe(d1.name, d2.name) && NameLe(f1.name, f2.name)
    ensures SortedListing([d1, d2, f1, f2], [d2, f1, d1, f2])
  {
    var expected := [d1, d2, f1, f2];
    var listing := [d2, f1, d1, f2];
    assert Sorted(expected) by {
      forall i, j | 0 <= i < j < 4
        ensures Precedes(expected[i], expected[j])
      {
      }
    }
    assert multiset(listing) == multiset(expected) by {
      assert listing == [d2, f1] + [d1] + [f2];
      assert expected == [d1] + [d2, f1] + [f2];
      SwapBlocks([d2, f1], [d1], [f2]);
    }
  }

  /** Exchanging two leading blocks of a sequence keeps its elements. */
  lemma SwapBlocks<T>(x: seq<T>, y: seq<T>, z: seq<T>)
    ensures multiset(x + y + z) == multiset(y + x + z)
  {
    calc {
      multiset(x + y + z);
      multiset(x) + multiset(y) + multiset(z);
      multiset(y) + multiset(x) + multiset(z);
      multiset(y + x + z);
    }
  }
}
