/** The in-memory file bundle: `Bundle::new` of `src/bundle.rs`. */
module Bundles {
  import opened Wrappers
  import opened Texts
  import opened Paths
  import opened FileTrees

  const MAX_FILES: nat := 64

  datatype BundleError =
    | BadPath(path: string, error: PathError)
    | TooManyFiles(count: nat)
    | TooLarge(actual: nat, limit: nat)
    | Duplicate(path: string)
    | MissingMain(path: string)

  function Size(c: Content): nat {
    match c
    case Text(text) => ByteLength(text)
    case Binary(bytes) => |bytes|
  }

  function TotalSize(files: seq<File>): nat {
    if files == [] then 0 else TotalSize(files[..|files| - 1]) + Size(files[|files| - 1].content)
  }

  /** A tree with one more file, unless its path is bad or taken. */
  function Enter(tree: seq<File>, f: File): Result<seq<File>, BundleError> {
    match Normalised(f.path)
    case Err(e) => Err(BadPath(f.path, e))
    case Ok(path) => if HasPath(tree, path) then Err(Duplicate(path)) else Ok(Insert(tree, File(path, f.content)))
  }

  /** The tree after the first `n` files, or the first of them that cannot enter. */
  function Entered(files: seq<File>, n: nat): Result<seq<File>, BundleError>
    requires n <= |files|
  {
    if n == 0 then Ok([])
    else
      match Entered(files, n - 1)
      case Err(e) => Err(e)
      case Ok(tree) => Enter(tree, files[n - 1])
  }

  function BundleOf(main: string, files: seq<File>, maxBytes: nat): Result<seq<File>, BundleError> {
    if |files| > MAX_FILES then Err(TooManyFiles(|files|))
    else if TotalSize(files) > maxBytes then Err(TooLarge(TotalSize(files), maxBytes))
    else
      match Normalised(main)
      case Err(e) => Err(BadPath(main, e))
      case Ok(path) =>
        match Entered(files, |files|)
        case Err(e) => Err(e)
        case Ok(tree) => if HasPath(tree, path) then Ok(tree) else Err(MissingMain(path))
  }

  lemma {:induction false} EnteredErrorStays(files: seq<File>, n: nat, m: nat)
    requires n <= m <= |files| && Entered(files, n).Err?
    ensures Entered(files, m) == Entered(files, n)
    decreases m
  {
    if n < m { EnteredErrorStays(files, n, m - 1); }
  }

  method Measure(files: seq<File>) returns (total: nat)
    ensures total == TotalSize(files)
  {
    total := 0;
    for i := 0 to |files|
      invariant total == TotalSize(files[..i])
    {
      assert files[..i + 1][..i] == files[..i];
      total := total + Size(files[i].content);
    }
    assert files[..|files|] == files;
  }

  method EnterOne(tree: seq<File>, f: File) returns (r: Result<seq<File>, BundleError>)
    ensures r == Enter(tree, f)
  {
    var path := NormalisePath(f.path);
    if path.Err? {
      return Err(BadPath(f.path, path.error));
    }
    if HasPath(tree, path.value) {
      return Err(Duplicate(path.value));
    }
    r := Ok(Insert(tree, File(path.value, f.content)));
  }

  /** One step of the loop. */
  method EnterNext(files: seq<File>, i: nat, tree: seq<File>) returns (r: Result<seq<File>, BundleError>)
    requires i < |files| && Entered(files, i) == Ok(tree)
    ensures r == Entered(files, i + 1)
    ensures r.Err? ==> r == Entered(files, |files|)
  {
    r := EnterOne(tree, files[i]);
    if r.Err? {
      EnteredErrorStays(files, i + 1, |files|);
    }
  }

  /** The loop of `Bundle::new`, inserting file by file. */
  method EnterAll(files: seq<File>) returns (r: Result<seq<File>, BundleError>)
    ensures r == Entered(files, |files|)
  {
    var tree: seq<File> := [];
    for i := 0 to |files|
      invariant Entered(files, i) == Ok(tree)
    {
      r := EnterNext(files, i, tree);
      if r.Err? {
        return;
      }
      tree := r.value;
    }
    r := Ok(tree);
  }

  /** `Bundle::new`. */
  method NewBundle(main: string, files: seq<File>, maxBytes: nat) returns (r: Result<seq<File>, BundleError>)
    ensures r == BundleOf(main, files, maxBytes)
  {
    if |files| > MAX_FILES {
      return Err(TooManyFiles(|files|));
    }
    var total := Measure(files);
    if total > maxBytes {
      return Err(TooLarge(total, maxBytes));
    }
    var entry := NormalisePath(main);
    if entry.Err? {
      return Err(BadPath(main, entry.error));
    }
    r := EnterAll(files);
    if r.Ok? && !HasPath(r.value, entry.value) {
      r := Err(MissingMain(entry.value));
    }
  }

  predicate AllPaths(files: seq<File>) {
    forall f | f in files :: IsPath(f.path)
  }

  lemma EnterExactly(tree: seq<File>, f: File)
    ensures Enter(tree, f).Ok? <==> IsPath(f.path) && !HasPath(tree, f.path)
    ensures Enter(tree, f).Ok? ==> Enter(tree, f).value == Insert(tree, f)
  {
    PathIsKeptOrRefused(f.path);
  }

  lemma {:induction false} EnteredExactly(files: seq<File>, n: nat)
    requires n <= |files|
    ensures Entered(files, n).Ok? <==> AllPaths(files[..n]) && DistinctPaths(files[..n])
    ensures Entered(files, n).Ok? ==> Entered(files, n).value == SortFiles(files[..n])
    decreases n
  {
    if n > 0 {
      EnteredExactly(files, n - 1);
      var most, last := files[..n - 1], files[n - 1];
      assert files[..n] == most + [last] && files[..n][..n - 1] == most;
      if Entered(files, n - 1).Ok? {
        EnterExactly(SortFiles(most), last);
        LastPathIsNew(most, last);
      }
    }
  }

  lemma LastPathIsNew(most: seq<File>, last: File)
    requires DistinctPaths(most)
    ensures DistinctPaths(most + [last]) <==> !HasPath(most, last.path)
    ensures HasPath(SortFiles(most), last.path) <==> HasPath(most, last.path)
  {
    SortSorts(most);
    if HasPath(most, last.path) {
      var i :| 0 <= i < |most| && most[i].path == last.path;
      var all := most + [last];
      assert all[i].path == all[|most|].path;
    }
  }

  /** Small enough, all paths fine and different as they were given, the entrypoint there. */
  predicate Acceptable(main: string, files: seq<File>, maxBytes: nat) {
    && |files| <= MAX_FILES && TotalSize(files) <= maxBytes
    && IsPath(main) && HasPath(files, main)
    && AllPaths(files) && DistinctPaths(files)
  }

  /** A bundle is accepted exactly when it is acceptable; its tree is then its files. */
  lemma BundleExactly(main: string, files: seq<File>, maxBytes: nat)
    ensures BundleOf(main, files, maxBytes).Ok? <==> Acceptable(main, files, maxBytes)
    ensures BundleOf(main, files, maxBytes).Ok? ==>
              && BundleOf(main, files, maxBytes).value == SortFiles(files)
              && Sorted(SortFiles(files))
              && forall f :: f in SortFiles(files) <==> f in files
  {
    EnteredExactly(files, |files|);
    assert files[..|files|] == files;
    PathIsKeptOrRefused(main);
    if DistinctPaths(files) {
      SortSorts(files);
    }
  }

  // ---- What is reported ----

  /** File `k` cannot join the ones before it, which are fine. */
  ghost predicate CannotJoin(files: seq<File>, k: nat, e: BundleError) {
    && k < |files| && AllPaths(files[..k]) && DistinctPaths(files[..k])
    && match e
       case BadPath(path, error) => path == files[k].path && IsWrong(path, error)
       case Duplicate(path) => path == files[k].path && IsPath(path) && HasPath(files[..k], path)
       case _ => false
  }

  ghost function Cannot(files: seq<File>, e: BundleError): nat -> bool {
    (k: nat) => CannotJoin(files, k, e)
  }

  ghost predicate IsComplaint(main: string, files: seq<File>, maxBytes: nat, e: BundleError) {
    match e
    case TooManyFiles(count) => count == |files| && count > 64
    case TooLarge(actual, limit) => |files| <= 64 && actual == TotalSize(files) && limit == maxBytes && actual > limit
    case MissingMain(path) =>
      && |files| <= 64 && TotalSize(files) <= maxBytes && AllPaths(files) && DistinctPaths(files)
      && path == main && IsPath(main) && !HasPath(files, main)
    case _ =>
      && |files| <= 64 && TotalSize(files) <= maxBytes
      && if IsPath(main) then exists k: nat :: k < |files| && Cannot(files, e)(k)
         else e.BadPath? && e.path == main && IsWrong(main, e.error)
  }

  lemma JoinFails(files: seq<File>, k: nat, e: BundleError)
    requires k < |files| && Entered(files, k).Ok?
    ensures Entered(files, k + 1) == Err(e) <==> CannotJoin(files, k, e)
  {
    EnteredExactly(files, k);
    var path := files[k].path;
    PathIsKeptOrRefused(path);
    if e.BadPath? { PathErrorExactly(path, e.error); }
    if Normalised(path).Err? { PathErrorExactly(path, Normalised(path).error); }
    LastPathIsNew(files[..k], files[k]);
  }

  function Entering(files: seq<File>): nat -> Result<seq<File>, BundleError> {
    (k: nat) => if k <= |files| then Entered(files, k) else Ok([])
  }

  lemma NextFails(files: seq<File>, n: nat, e: BundleError)
    requires n < |files|
    ensures Entered(files, n + 1) == Err(e) <==> Entered(files, n) == Err(e) || CannotJoin(files, n, e)
  {
    if Entered(files, n).Ok? { JoinFails(files, n, e); } else { EnteredExactly(files, n); }
  }

  /** The same of whatever the files `enter` by. */
  lemma FailsAtSomeFile(enter: nat -> Result<seq<File>, BundleError>, cannot: nat -> bool, n: nat, e: BundleError)
    requires enter(0).Ok?
    requires forall k: nat :: k < n ==> (enter(k + 1) == Err(e) <==> enter(k) == Err(e) || cannot(k))
    ensures enter(n) == Err(e) <==> exists k: nat :: k < n && cannot(k)
  {
    HappensAtSomeStep((k: nat) => enter(k) == Err(e), cannot, n);
  }

  lemma EnteringFails(files: seq<File>, n: nat, e: BundleError)
    requires n < |files|
    ensures Entering(files)(n + 1) == Err(e) <==> Entering(files)(n) == Err(e) || Cannot(files, e)(n)
  {
    NextFails(files, n, e);
  }

  lemma EnteredFails(files: seq<File>, e: BundleError)
    ensures Entering(files)(|files|) == Err(e) <==> exists k: nat :: k < |files| && Cannot(files, e)(k)
  {
    forall k: nat | k < |files|
      ensures Entering(files)(k + 1) == Err(e) <==> Entering(files)(k) == Err(e) || Cannot(files, e)(k)
    {
      EnteringFails(files, k, e);
    }
    FailsAtSomeFile(Entering(files), Cannot(files, e), |files|, e);
  }

  /** A bundle is refused for the first of these: too many files, too many bytes, a bad
      entrypoint name, the first file with a bad or a taken path, no entrypoint among them. */
  lemma BundleErrorExactly(main: string, files: seq<File>, maxBytes: nat, e: BundleError)
    ensures BundleOf(main, files, maxBytes) == Err(e) <==> IsComplaint(main, files, maxBytes, e)
  {
    PathIsKeptOrRefused(main);
    if e.BadPath? { PathErrorExactly(main, e.error); }
    if Normalised(main).Err? { PathErrorExactly(main, Normalised(main).error); }
    EnteredFails(files, e);
    EnteredExactly(files, |files|);
    assert files[..|files|] == files;
    if DistinctPaths(files) { SortSorts(files); }
  }
}
