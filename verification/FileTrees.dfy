/** Files in path order. A `BTreeMap` from paths is the strictly sorted sequence of its
    entries; so is a list of files after `sort_by` on the path, when no path repeats. */
module FileTrees {
  import opened Texts

  datatype Content = Text(text: string) | Binary(bytes: seq<Byte>)

  datatype File = File(path: string, content: Content)

  /** `str` order. UTF-8 keeps the order of code points. */
  predicate Less(a: string, b: string) {
    b != "" && (a == "" || a[0] < b[0] || (a[0] == b[0] && Less(a[1..], b[1..])))
  }

  lemma {:induction false} LessIrreflexive(a: string)
    ensures !Less(a, a)
  {
    if a != "" { LessIrreflexive(a[1..]); }
  }

  lemma {:induction false} LessTransitive(a: string, b: string, c: string)
    requires Less(a, b) && Less(b, c)
    ensures Less(a, c)
  {
    if a != "" && a[0] == b[0] && b[0] == c[0] {
      LessTransitive(a[1..], b[1..], c[1..]);
    }
  }

  lemma {:induction false} LessTotal(a: string, b: string)
    ensures Less(a, b) || a == b || Less(b, a)
  {
    if a != "" && b != "" && a[0] == b[0] {
      LessTotal(a[1..], b[1..]);
      assert a == [a[0]] + a[1..] && b == [b[0]] + b[1..];
    }
  }

  predicate Before(f: File, g: File) {
    Less(f.path, g.path)
  }

  predicate Sorted(files: seq<File>) {
    forall i, j :: 0 <= i < j < |files| ==> Before(files[i], files[j])
  }

  predicate HasPath(files: seq<File>, path: string) {
    exists f | f in files :: f.path == path
  }

  /** `BTreeMap::insert`: keeps the order; a repeated path replaces the entry. */
  function Insert(files: seq<File>, f: File): (r: seq<File>)
    ensures |r| >= 1
  {
    if files == [] || Less(f.path, files[0].path) then [f] + files
    else if files[0].path == f.path then [f] + files[1..]
    else [files[0]] + Insert(files[1..], f)
  }

  lemma {:induction false} InsertKeepsOrder(files: seq<File>, f: File)
    requires Sorted(files)
    ensures Sorted(Insert(files, f))
    ensures forall g :: g in Insert(files, f) <==> g == f || (g in files && g.path != f.path)
  {
    if files != [] {
      var head, tail := files[0], files[1..];
      assert files == [head] + tail;
      LessTotal(f.path, head.path);
      forall g | g in tail ensures Less(head.path, g.path) && g.path != head.path {
        LessIrreflexive(head.path);
        assert Before(head, g);
      }
      if Less(f.path, head.path) {
        LessIrreflexive(f.path);
        forall g | g in tail ensures Less(f.path, g.path) {
          LessTransitive(f.path, head.path, g.path);
        }
        OrderedBehind(f, files);
      } else if head.path == f.path {
        OrderedBehind(f, tail);
      } else {
        InsertKeepsOrder(tail, f);
        OrderedBehind(head, Insert(tail, f));
      }
    }
  }

  lemma OrderedBehind(f: File, files: seq<File>)
    requires Sorted(files) && forall g :: g in files ==> Less(f.path, g.path)
    ensures Sorted([f] + files)
  {
  }

  /** A sorted list is known by its members. */
  lemma {:induction false} SortedIsUnique(a: seq<File>, b: seq<File>)
    requires Sorted(a) && Sorted(b) && forall f :: f in a <==> f in b
    ensures a == b
  {
    if a == [] {
      FirstIsMember(b);
    } else {
      assert a[0] in b;
      var x, y := a[0], b[0];
      assert y in a;
      if x != y {
        assert Before(x, y) && Before(y, x);
        LessTransitive(x.path, y.path, x.path);
        LessIrreflexive(x.path);
      }
      TailMembers(a);
      TailMembers(b);
      SortedIsUnique(a[1..], b[1..]);
      assert a == [x] + a[1..] && b == [y] + b[1..];
    }
  }

  lemma FirstIsMember(a: seq<File>)
    ensures a == [] || a[0] in a
  {
  }

  lemma TailMembers(a: seq<File>)
    requires Sorted(a) && a != []
    ensures Sorted(a[1..]) && forall f :: f in a[1..] <==> f in a && f != a[0]
  {
    LessIrreflexive(a[0].path);
    forall f | f in a[1..] ensures f in a && f != a[0] {
      assert Before(a[0], f);
    }
    assert a == [a[0]] + a[1..];
  }

  /** `sort_by` on the path; what it does to repeated paths does not matter here. */
  function SortFiles(files: seq<File>): (r: seq<File>)
  {
    if files == [] then [] else Insert(SortFiles(files[..|files| - 1]), files[|files| - 1])
  }

  predicate DistinctPaths(files: seq<File>) {
    forall i, j :: 0 <= i < j < |files| ==> files[i].path != files[j].path
  }

  lemma {:induction false} SortSorts(files: seq<File>)
    requires DistinctPaths(files)
    ensures Sorted(SortFiles(files)) && forall f :: f in SortFiles(files) <==> f in files
  {
    if files != [] {
      var most, last := files[..|files| - 1], files[|files| - 1];
      SortSorts(most);
      InsertKeepsOrder(SortFiles(most), last);
      assert files == most + [last];
    }
  }

  /** Sorting what is sorted changes nothing. */
  lemma SortOfSorted(files: seq<File>)
    requires Sorted(files)
    ensures DistinctPaths(files) && SortFiles(files) == files
  {
    forall i, j | 0 <= i < j < |files| ensures files[i].path != files[j].path {
      assert Before(files[i], files[j]);
      LessIrreflexive(files[i].path);
    }
    SortSorts(files);
    SortedIsUnique(SortFiles(files), files);
  }
}
