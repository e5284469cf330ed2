/**
 * The structure scan: from the ideas directory to an ordered list of parts,
 * each with the ordered chapter names found in it. A part is an immediate
 * subdirectory; a chapter is an immediate regular file of that part whose
 * suffix is ".tex". Both levels are sorted by full entry name with Python's
 * code-point order, and a part with no chapter is dropped.
 */
module Structure {
  import opened Wrappers
  import opened Text

  /** A directory entry as `Path.iterdir()` lists it, classified the way
      `is_dir()` and `is_file()` classify it (both follow symbolic links). */
  datatype Node =
    | Dir(name: string, entries: seq<Node>)
    | File(name: string)
    | Special(name: string)   // neither a directory nor a regular file

  /** One part of the generated structure and its chapter names. */
  datatype Part = Part(name: string, chapters: seq<string>)

  datatype ScanError =
    | DirectoryNotFound   // `Path.exists()` is false: FileNotFoundError
    | NotADirectory       // the root exists but `iterdir()` cannot list it

  /** What `iterdir()` yields for a node: nothing unless it is a directory. */
  function Children(n: Node): seq<Node>
  {
    if n.Dir? then n.entries else []
  }

  // ---------------------------------------------------------------------
  // Path.suffix and Path.stem

  /** Python's `name.rfind('.')`: the index of the last dot, or -1. */
  function LastDot(name: string): (r: int)
    ensures -1 <= r < |name|
    ensures r >= 0 ==> name[r] == '.'
    decreases |name|
  {
    if |name| == 0 then -1
    else if name[|name| - 1] == '.' then |name| - 1
    else LastDot(name[..|name| - 1])
  }

  /** No dot follows the one `LastDot` finds. */
  lemma {:induction false} NoDotAfterLastDot(name: string, k: int)
    requires LastDot(name) < k < |name|
    ensures name[k] != '.'
    decreases |name|
  {
    if name[|name| - 1] != '.' && k < |name| - 1 {
      NoDotAfterLastDot(name[..|name| - 1], k);
    }
  }

  /** `Path(name).suffix`: from the last dot on, unless that dot leads the
      name or ends it. */
  function Suffix(name: string): string
  {
    var i := LastDot(name);
    if 0 < i < |name| - 1 then name[i..] else ""
  }

  /** `Path(name).stem`: the name without its suffix. */
  function Stem(name: string): string
  {
    var i := LastDot(name);
    if 0 < i < |name| - 1 then name[..i] else name
  }

  /** A name has suffix ".tex" exactly when it ends in ".tex" and has at
      least one character before it (so ".tex" alone has no suffix). */
  lemma TexSuffixIff(name: string)
    ensures Suffix(name) == ".tex" <==> |name| > 4 && EndsWith(name, ".tex")
  {
    var i := LastDot(name);
    if |name| > 4 && EndsWith(name, ".tex") {
      assert name[|name| - 4] == '.';
      assert name[|name| - 3..] == "tex";
      assert i == |name| - 4 by {
        if i < |name| - 4 { NoDotAfterLastDot(name, |name| - 4); }
      }
    }
    if Suffix(name) == ".tex" {
      assert |name[i..]| == 4;
    }
  }

  /** The stem of a ".tex" file is its name with the four characters
      ".tex" removed. */
  lemma StemOfTexFile(name: string)
    requires Suffix(name) == ".tex"
    ensures Stem(name) + ".tex" == name
    ensures Stem(name) == name[..|name| - 4] && |Stem(name)| > 0
  {
    var i := LastDot(name);
    assert name == name[..i] + name[i..];
  }

  // ---------------------------------------------------------------------
  // The two list comprehensions

  /** `[e for e in entries if keep(e)]`. */
  function Filter(entries: seq<Node>, keep: Node -> bool): seq<Node>
    decreases |entries|
  {
    if entries == [] then []
    else (if keep(entries[0]) then [entries[0]] else []) + Filter(entries[1..], keep)
  }

  /** A filtered list keeps exactly the entries that pass, each as often as before. */
  lemma {:induction false} FilterCounts(entries: seq<Node>, keep: Node -> bool)
    ensures forall x :: multiset(Filter(entries, keep))[x] == if keep(x) then multiset(entries)[x] else 0
    decreases |entries|
  {
    if entries != [] {
      FilterCounts(entries[1..], keep);
      assert entries == [entries[0]] + entries[1..];
    }
  }

  lemma FilterMembers(entries: seq<Node>, keep: Node -> bool)
    ensures forall x :: x in Filter(entries, keep) <==> x in entries && keep(x)
  {
    FilterCounts(entries, keep);
    forall x ensures x in Filter(entries, keep) <==> x in entries && keep(x) {
      assert x in Filter(entries, keep) <==> x in multiset(Filter(entries, keep));
      assert x in entries <==> x in multiset(entries);
    }
  }

  predicate IsPartDir(n: Node)
  {
    n.Dir?
  }

  /** `f.is_file() and f.suffix == '.tex'`. */
  predicate IsChapterFile(n: Node)
  {
    n.File? && Suffix(n.name) == ".tex"
  }

  /** The part directories among the entries of the ideas directory. */
  function PartDirs(entries: seq<Node>): seq<Node>
  {
    Filter(entries, IsPartDir)
  }

  /** The chapter files among the entries of a part directory. */
  function TexFiles(entries: seq<Node>): seq<Node>
  {
    Filter(entries, IsChapterFile)
  }

  // ---------------------------------------------------------------------
  // list.sort(key=lambda x: x.name)

  predicate SortedByName(s: seq<Node>)
  {
    forall i, j :: 0 <= i < j < |s| ==> LessEq(s[i].name, s[j].name)
  }

  /** No two different entries share a name, as in any real directory. */
  predicate UniqueNames(s: seq<Node>)
  {
    forall x, y :: x in s && y in s && x.name == y.name ==> x == y
  }

  /** Inserts `x` before the first element whose name is not smaller. */
  function Insert(x: Node, s: seq<Node>): (r: seq<Node>)
    requires SortedByName(s)
    ensures multiset(r) == multiset(s) + multiset{x}
    ensures SortedByName(r)
    decreases |s|
  {
    if s == [] then [x]
    else if LessEq(x.name, s[0].name) then
      InsertFront(x, s);
      [x] + s
    else
      var rest := Insert(x, s[1..]);
      LessConnected(x.name, s[0].name);
      InsertBehind(x, s, rest);
      [s[0]] + rest
  }

  /** An element no larger than the head of a sorted list can go in front. */
  lemma InsertFront(x: Node, s: seq<Node>)
    requires SortedByName(s) && |s| > 0 && LessEq(x.name, s[0].name)
    ensures SortedByName([x] + s)
  {
    forall j | 0 <= j < |s| ensures LessEq(x.name, s[j].name) {
      if j > 0 { LessEqTransitive(x.name, s[0].name, s[j].name); }
    }
    assert forall j :: 0 < j < |[x] + s| ==> ([x] + s)[j] == s[j - 1];
  }

  /** The head of a sorted list stays in front of the rest with an element
      larger than it inserted. */
  lemma InsertBehind(x: Node, s: seq<Node>, rest: seq<Node>)
    requires SortedByName(s) && |s| > 0 && LessEq(s[0].name, x.name)
    requires multiset(rest) == multiset(s[1..]) + multiset{x} && SortedByName(rest)
    ensures multiset([s[0]] + rest) == multiset(s) + multiset{x}
    ensures SortedByName([s[0]] + rest)
  {
    assert s == [s[0]] + s[1..];
    forall j | 0 <= j < |rest| ensures LessEq(s[0].name, rest[j].name) {
      var y := rest[j];
      assert y in multiset(rest);
      if y != x {
        assert y in multiset(s[1..]);
        var k :| 0 <= k < |s[1..]| && s[1..][k] == y;
        assert s[k + 1] == y;
      }
    }
    assert forall j :: 0 < j < |[s[0]] + rest| ==> ([s[0]] + rest)[j] == rest[j - 1];
  }

  /** Python's stable list sort keyed by entry name: a sorted permutation. */
  function SortByName(s: seq<Node>): (r: seq<Node>)
    ensures multiset(r) == multiset(s)
    ensures SortedByName(r)
    decreases |s|
  {
    if s == [] then []
    else
      assert s == [s[0]] + s[1..];
      Insert(s[0], SortByName(s[1..]))
  }

  /** When names are unique, a sorted arrangement of a collection of entries
      is determined by the collection alone. */
  lemma {:induction false} SortedArrangementUnique(a: seq<Node>, b: seq<Node>)
    requires SortedByName(a) && SortedByName(b)
    requires multiset(a) == multiset(b)
    requires UniqueNames(a)
    ensures a == b
    decreases |a|
  {
    assert |a| == |multiset(a)| == |multiset(b)| == |b|;
    if |a| > 0 {
      SortedHeadsAgree(a, b);
      TailMultiset(a, b);
      assert forall x :: x in a[1..] ==> x in a;
      SortedArrangementUnique(a[1..], b[1..]);
    }
  }

  /** Removing the same head from two arrangements of one collection leaves
      arrangements of one collection. */
  lemma TailMultiset<T>(a: seq<T>, b: seq<T>)
    requires multiset(a) == multiset(b) && |a| > 0 && |b| > 0 && a[0] == b[0]
    ensures multiset(a[1..]) == multiset(b[1..])
  {
    assert a == [a[0]] + a[1..];
    assert b == [b[0]] + b[1..];
    assert multiset(a[1..]) == multiset(a) - multiset{a[0]};
    assert multiset(b[1..]) == multiset(b) - multiset{b[0]};
  }

  lemma SortedHeadsAgree(a: seq<Node>, b: seq<Node>)
    requires SortedByName(a) && SortedByName(b)
    requires multiset(a) == multiset(b)
    requires UniqueNames(a)
    requires |a| > 0 && |b| > 0
    ensures a[0] == b[0]
  {
    assert a[0] in multiset(b);
    var k :| 0 <= k < |b| && b[k] == a[0];
    assert b[0] in multiset(a);
    var m :| 0 <= m < |a| && a[m] == b[0];
    assert LessEq(a[0].name, b[0].name) by {
      if m > 0 { assert LessEq(a[0].name, a[m].name); }
    }
    assert LessEq(b[0].name, a[0].name) by {
      if k > 0 { assert LessEq(b[0].name, b[k].name); }
    }
    LessAsymmetric(a[0].name, b[0].name);
    assert b[0] in a;
  }

  // ---------------------------------------------------------------------
  // The scan

  /** The chapter names of a part directory: the stems of its ".tex" files,
      in the order of their full names. */
  function Chapters(dir: Node): seq<string>
  {
    ChapterNames(SortByName(TexFiles(Children(dir))))
  }

  /** The stems of the given chapter files, in their order. */
  function ChapterNames(files: seq<Node>): seq<string>
    decreases |files|
  {
    if files == [] then []
    else ChapterNames(files[..|files| - 1]) + [Stem(files[|files| - 1].name)]
  }

  lemma {:induction false} ChapterNamesAt(files: seq<Node>)
    ensures |ChapterNames(files)| == |files|
    ensures forall k :: 0 <= k < |files| ==> ChapterNames(files)[k] == Stem(files[k].name)
    decreases |files|
  {
    if files != [] {
      var init := files[..|files| - 1];
      ChapterNamesAt(init);
      var names, initNames := ChapterNames(files), ChapterNames(init);
      assert names == initNames + [Stem(files[|files| - 1].name)];
      forall k | 0 <= k < |files|
        ensures names[k] == Stem(files[k].name)
      {
        if k < |init| {
          assert names[k] == initNames[k];
          assert init[k] == files[k];
        }
      }
    }
  }

  /** The parts contributed by the given part directories, in their order. */
  function ScanParts(dirs: seq<Node>): seq<Part>
    decreases |dirs|
  {
    if dirs == [] then []
    else
      var d := dirs[|dirs| - 1];
      var chapters := Chapters(d);
      ScanParts(dirs[..|dirs| - 1]) + (if chapters == [] then [] else [Part(d.name, chapters)])
  }

  /** One more directory adds its part, if it has chapters. */
  lemma ScanPartsStep(dirs: seq<Node>, i: nat)
    requires i < |dirs|
    ensures ScanParts(dirs[..i + 1]) == ScanParts(dirs[..i]) +
      (if Chapters(dirs[i]) == [] then [] else [Part(dirs[i].name, Chapters(dirs[i]))])
  {
    assert dirs[..i + 1][..i] == dirs[..i];
  }

  /** What `scan_ideas_directory` returns or raises for the given root. */
  function ScanIdeas(root: Option<Node>): Result<seq<Part>, ScanError>
  {
    match root
    case None => Failure(DirectoryNotFound)
    case Some(d) =>
      if !d.Dir? then Failure(NotADirectory)
      else Success(ScanParts(SortByName(PartDirs(d.entries))))
  }

  /** The inner loop of `scan_ideas_directory`: the stems of a part's
      sorted ".tex" files, appended one by one. */
  method CollectChapters(partDir: Node) returns (chapters: seq<string>)
    ensures chapters == Chapters(partDir)
  {
    var texFiles := SortByName(TexFiles(Children(partDir)));
    chapters := [];
    var j := 0;
    while j < |texFiles|
      invariant 0 <= j <= |texFiles|
      invariant chapters == ChapterNames(texFiles[..j])
    {
      chapters := chapters + [Stem(texFiles[j].name)];
      assert texFiles[..j + 1][..j] == texFiles[..j];
      j := j + 1;
    }
    assert texFiles[..j] == texFiles;
  }

  /** `scan_ideas_directory`: two nested loops that append chapter names and
      parts to lists. */
  method ScanIdeasDirectory(root: Option<Node>) returns (r: Result<seq<Part>, ScanError>)
    ensures r == ScanIdeas(root)
    ensures root.None? <==> r == Failure(DirectoryNotFound)
  {
    if root.None? {
      return Failure(DirectoryNotFound);
    }
    if !root.value.Dir? {
      return Failure(NotADirectory);
    }
    var partDirs := SortByName(PartDirs(root.value.entries));
    var parts: seq<Part> := [];
    var i := 0;
    while i < |partDirs|
      invariant 0 <= i <= |partDirs|
      invariant parts == ScanParts(partDirs[..i])
    {
      var partDir := partDirs[i];
      var chapters := CollectChapters(partDir);
      if chapters != [] {
        parts := parts + [Part(partDir.name, chapters)];
      }
      ScanPartsStep(partDirs, i);
      i := i + 1;
    }
    assert partDirs[..i] == partDirs;
    return Success(parts);
  }
}

module StructureFacts {
  import opened Wrappers
  import opened Text
  import opened Structure

  /** Every part the scan yields carries the chapters of one of the given
      directories, and that list is not empty. */
  lemma {:induction false} ScanPartsComeFromDirs(dirs: seq<Node>)
    ensures forall p :: p in ScanParts(dirs) ==>
      p.chapters != [] && exists d :: d in dirs && d.name == p.name && p.chapters == Chapters(d)
    decreases |dirs|
  {
    if dirs != [] {
      var init := dirs[..|dirs| - 1];
      ScanPartsComeFromDirs(init);
      forall p | p in ScanParts(init)
        ensures exists d :: d in dirs && d.name == p.name && p.chapters == Chapters(d)
      {
        var d :| d in init && d.name == p.name && p.chapters == Chapters(d);
        assert d in dirs;
      }
    }
  }

  /** Every given directory with at least one chapter contributes its part. */
  lemma {:induction false} ScanPartsKeepDirsWithChapters(dirs: seq<Node>)
    ensures forall d :: d in dirs && Chapters(d) != [] ==> Part(d.name, Chapters(d)) in ScanParts(dirs)
    decreases |dirs|
  {
    if dirs != [] {
      var init := dirs[..|dirs| - 1];
      ScanPartsKeepDirsWithChapters(init);
      assert dirs == init + [dirs[|dirs| - 1]];
    }
  }

  /** The parts appear in the order of the directories they come from. */
  lemma {:induction false} ScanPartsSorted(dirs: seq<Node>)
    requires SortedByName(dirs)
    ensures forall i, j :: 0 <= i < j < |ScanParts(dirs)| ==>
      LessEq(ScanParts(dirs)[i].name, ScanParts(dirs)[j].name)
    decreases |dirs|
  {
    if dirs != [] {
      var init := dirs[..|dirs| - 1];
      var last := dirs[|dirs| - 1];
      ScanPartsSorted(init);
      ScanPartsComeFromDirs(init);
      var parts := ScanParts(dirs);
      var before := ScanParts(init);
      forall i, j | 0 <= i < j < |parts|
        ensures LessEq(parts[i].name, parts[j].name)
      {
        if j >= |before| {
          assert parts[j].name == last.name;
          assert parts[i] in before;
          var d :| d in init && d.name == parts[i].name && parts[i].chapters == Chapters(d);
          NameBelowLast(dirs, d);
        }
      }
    }
  }

  /** An earlier entry of a sorted list has a name no larger than the last. */
  lemma NameBelowLast(dirs: seq<Node>, d: Node)
    requires SortedByName(dirs) && |dirs| > 0 && d in dirs[..|dirs| - 1]
    ensures LessEq(d.name, dirs[|dirs| - 1].name)
  {
    var a :| 0 <= a < |dirs| - 1 && dirs[..|dirs| - 1][a] == d;
    assert dirs[a] == d;
  }

  /** Filtering two listings of the same entries keeps the same entries. */
  lemma FilterSameMultiset(e1: seq<Node>, e2: seq<Node>, keep: Node -> bool)
    requires multiset(e1) == multiset(e2)
    ensures multiset(Filter(e1, keep)) == multiset(Filter(e2, keep))
  {
    FilterCounts(e1, keep);
    FilterCounts(e2, keep);
    assert forall x :: multiset(Filter(e1, keep))[x] == multiset(Filter(e2, keep))[x];
  }

  lemma SortedMembers(entries: seq<Node>, keep: Node -> bool)
    ensures forall x :: x in SortByName(Filter(entries, keep)) <==> x in entries && keep(x)
  {
    FilterMembers(entries, keep);
    forall x ensures x in SortByName(Filter(entries, keep)) <==> x in Filter(entries, keep) {
      assert x in SortByName(Filter(entries, keep)) <==> x in multiset(SortByName(Filter(entries, keep)));
      assert x in Filter(entries, keep) <==> x in multiset(Filter(entries, keep));
    }
  }

  /** The result of a scan is a list of parts, each named after a
      subdirectory of the root and holding that subdirectory's chapters,
      never an empty list. */
  lemma PartsAreDirectoriesWithChapters(root: Node)
    requires root.Dir?
    ensures ScanIdeas(Some(root)).Success?
    ensures forall p :: p in ScanIdeas(Some(root)).value ==>
      p.chapters != [] &&
      exists d :: d in root.entries && d.Dir? && d.name == p.name && p.chapters == Chapters(d)
  {
    var dirs := SortByName(PartDirs(root.entries));
    ScanPartsComeFromDirs(dirs);
    SortedMembers(root.entries, IsPartDir);
  }

  /** A subdirectory with at least one chapter always yields its part. */
  lemma EveryDirectoryWithChaptersIsAPart(root: Node)
    requires root.Dir?
    ensures forall d :: d in root.entries && d.Dir? && Chapters(d) != [] ==>
      Part(d.name, Chapters(d)) in ScanIdeas(Some(root)).value
  {
    var dirs := SortByName(PartDirs(root.entries));
    ScanPartsKeepDirsWithChapters(dirs);
    SortedMembers(root.entries, IsPartDir);
  }

  /** A part directory has chapters exactly when it holds a regular file
      with suffix ".tex". */
  lemma HasChaptersIff(d: Node)
    ensures Chapters(d) != [] <==> exists f :: f in Children(d) && IsChapterFile(f)
  {
    var files := SortByName(TexFiles(Children(d)));
    ChapterNamesAt(files);
    SortedMembers(Children(d), IsChapterFile);
    if files != [] {
      assert files[0] in files;
    }
  }

  /** An entry that is not a directory, or a directory without ".tex" files,
      gives no part (names in a directory are unique). */
  lemma EntriesWithoutChaptersOmitted(root: Node, d: Node)
    requires root.Dir? && UniqueNames(root.entries) && d in root.entries
    requires !d.Dir? || !(exists f :: f in d.entries && IsChapterFile(f))
    ensures forall p :: p in ScanIdeas(Some(root)).value ==> p.name != d.name
  {
    PartsAreDirectoriesWithChapters(root);
    HasChaptersIff(d);
  }

  /** Parts appear in ascending name order. */
  lemma PartsInNameOrder(root: Node)
    requires root.Dir?
    ensures var parts := ScanIdeas(Some(root)).value;
      forall i, j :: 0 <= i < j < |parts| ==> LessEq(parts[i].name, parts[j].name)
  {
    ScanPartsSorted(SortByName(PartDirs(root.entries)));
  }

  /** The chapters of a part are the stems of its ".tex" files taken in the
      order of their FULL names: chapter k plus ".tex" is the k-th file name. */
  lemma ChaptersAreSortedTexStems(d: Node)
    ensures var files := SortByName(TexFiles(Children(d)));
      |Chapters(d)| == |files| &&
      (forall k :: 0 <= k < |files| ==>
        IsChapterFile(files[k]) && Chapters(d)[k] + ".tex" == files[k].name) &&
      (forall i, j :: 0 <= i < j < |files| ==> LessEq(files[i].name, files[j].name))
  {
    var files := SortByName(TexFiles(Children(d)));
    ChapterNamesAt(files);
    SortedMembers(Children(d), IsChapterFile);
    forall k | 0 <= k < |files|
      ensures IsChapterFile(files[k]) && Chapters(d)[k] + ".tex" == files[k].name
    {
      assert files[k] in files;
      StemOfTexFile(files[k].name);
    }
  }

  lemma SortedFilterUnique(e1: seq<Node>, e2: seq<Node>, keep: Node -> bool)
    requires multiset(e1) == multiset(e2) && UniqueNames(e1)
    ensures SortByName(Filter(e1, keep)) == SortByName(Filter(e2, keep))
  {
    var a := SortByName(Filter(e1, keep));
    var b := SortByName(Filter(e2, keep));
    FilterSameMultiset(e1, e2, keep);
    SortedMembers(e1, keep);
    SortedArrangementUnique(a, b);
  }

  /** The order in which `iterdir()` lists a part's files does not matter. */
  lemma ChaptersIndependentOfListingOrder(n1: string, n2: string, e1: seq<Node>, e2: seq<Node>)
    requires multiset(e1) == multiset(e2) && UniqueNames(e1)
    ensures Chapters(Dir(n1, e1)) == Chapters(Dir(n2, e2))
  {
    SortedFilterUnique(e1, e2, IsChapterFile);
  }

  /** The order in which `iterdir()` lists the ideas directory does not
      matter: the scan is deterministic for a given directory state. */
  lemma ScanIndependentOfListingOrder(n1: string, n2: string, e1: seq<Node>, e2: seq<Node>)
    requires multiset(e1) == multiset(e2) && UniqueNames(e1)
    ensures ScanIdeas(Some(Dir(n1, e1))) == ScanIdeas(Some(Dir(n2, e2)))
  {
    SortedFilterUnique(e1, e2, IsPartDir);
  }

  lemma ChapterNamesPair(f: Node, g: Node)
    ensures ChapterNames([f, g]) == [Stem(f.name), Stem(g.name)]
  {
    assert [f][..0] == [];
    assert ChapterNames([f]) == [Stem(f.name)];
    assert [f, g][..1] == [f];
    assert ChapterNames([f, g]) == ChapterNames([f]) + [Stem(g.name)];
  }

  lemma ScanPartsPair(d: Node, e: Node)
    ensures ScanParts([d, e]) ==
      (if Chapters(d) == [] then [] else [Part(d.name, Chapters(d))]) +
      (if Chapters(e) == [] then [] else [Part(e.name, Chapters(e))])
  {
    assert [d][..0] == [];
    assert ScanParts([d]) == (if Chapters(d) == [] then [] else [Part(d.name, Chapters(d))]);
    assert [d, e][..1] == [d];
  }

  lemma FilterPair(f: Node, g: Node, keep: Node -> bool)
    ensures Filter([f, g], keep) ==
      (if keep(f) then [f] else []) + (if keep(g) then [g] else [])
  {
    assert [g][1..] == [];
    assert Filter([g], keep) == (if keep(g) then [g] else []);
    assert [f, g][1..] == [g];
  }

  /** Sorting two entries whose names are out of order swaps them. */
  lemma SortPairSwaps(f: Node, g: Node)
    requires Less(g.name, f.name)
    ensures SortByName([f, g]) == [g, f]
  {
    LessAsymmetric(g.name, f.name);
    assert [f, g][1..] == [g] && [g][1..] == [];
    assert SortByName([g]) == [g];
  }

  /** A ".tex" file name with a non-empty stem. */
  lemma ChapterFileName(stem: string)
    requires |stem| > 0
    ensures IsChapterFile(File(stem + ".tex")) && Stem(stem + ".tex") == stem
  {
    var name := stem + ".tex";
    assert name[|name| - 4..] == ".tex";
    TexSuffixIff(name);
    StemOfTexFile(name);
    assert name[..|name| - 4] == stem;
  }

  /** The worked example: `partA` holds two chapters, listed out of order;
      `partB` is empty and is not mentioned. */
  lemma TwoPartExample()
    ensures ScanIdeas(Some(Dir("ideas", [
              Dir("partB", []),
              Dir("partA", [File("chap2.tex"), File("chap1.tex")])])))
            == Success([Part("partA", ["chap1", "chap2"])])
  {
    TwoChaptersOutOfOrder();
    EmptyPart("partB");
    assert Less("partA", "partB");
    TwoPartDirs("ideas", Dir("partB", []), Dir("partA", [File("chap2.tex"), File("chap1.tex")]));
  }

  /** A directory without entries has no chapters. */
  lemma EmptyPart(name: string)
    ensures Chapters(Dir(name, [])) == []
  {
  }

  /** Two part directories listed against name order, the first of them
      without chapters: only the second one's part remains. */
  lemma TwoPartDirs(root: string, b: Node, a: Node)
    requires a.Dir? && b.Dir? && Less(a.name, b.name) && Chapters(b) == []
    ensures ScanIdeas(Some(Dir(root, [b, a]))) ==
      Success(if Chapters(a) == [] then [] else [Part(a.name, Chapters(a))])
  {
    var parts := if Chapters(a) == [] then [] else [Part(a.name, Chapters(a))];
    assert PartDirs([b, a]) == [b, a] by {
      FilterPair(b, a, IsPartDir);
    }
    assert SortByName([b, a]) == [a, b] by {
      SortPairSwaps(b, a);
    }
    assert ScanParts([a, b]) == parts by {
      ScanPartsPair(a, b);
      assert parts + [] == parts;
    }
  }

  /** A part whose two chapter files are listed out of order. */
  lemma TwoChaptersOutOfOrder()
    ensures Chapters(Dir("partA", [File("chap2.tex"), File("chap1.tex")])) == ["chap1", "chap2"]
  {
    assert "chap1" + ".tex" == "chap1.tex" && "chap2" + ".tex" == "chap2.tex";
    assert Less("chap1.tex", "chap2.tex");
    TwoChapterStems("partA", "chap1", "chap2");
  }

  /** Sorting by full file name can differ from sorting by stem:
      "a-b.tex" comes before "a.tex", yet "a" comes before "a-b". */
  lemma FileOrderIsNotStemOrder()
    ensures Chapters(Dir("p", [File("a.tex"), File("a-b.tex")])) == ["a-b", "a"]
    ensures Less("a", "a-b")
  {
    assert "a" + ".tex" == "a.tex" && "a-b" + ".tex" == "a-b.tex";
    assert Less("a-b.tex", "a.tex");
    TwoChapterStems("p", "a-b", "a");
  }

  /** Two chapter files listed against the order of their names. */
  lemma TwoChapterStems(p: string, s1: string, s2: string)
    requires |s1| > 0 && |s2| > 0 && Less(s1 + ".tex", s2 + ".tex")
    ensures Chapters(Dir(p, [File(s2 + ".tex"), File(s1 + ".tex")])) == [s1, s2]
  {
    ChapterFileName(s1);
    ChapterFileName(s2);
    TwoChapterFiles(p, File(s2 + ".tex"), File(s1 + ".tex"));
  }

  /** Two chapter files listed against name order come out swapped. */
  lemma TwoChapterFiles(p: string, f: Node, g: Node)
    requires IsChapterFile(f) && IsChapterFile(g) && Less(g.name, f.name)
    ensures Chapters(Dir(p, [f, g])) == [Stem(g.name), Stem(f.name)]
  {
    FilterPair(f, g, IsChapterFile);
    assert TexFiles([f, g]) == [f, g];
    SortPairSwaps(f, g);
    ChapterNamesPair(g, f);
  }
}
