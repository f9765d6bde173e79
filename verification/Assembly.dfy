/** Putting a document together: `assemble_with_overrides` of `src/templates.rs`. */
module Assembly {
  import opened Wrappers
  import opened Texts
  import opened Paths
  import opened FileTrees
  import opened Bundles
  import opened SourceTrees
  import Entrypoint
  import EntrypointMeaning
  import opened Traces
  import SourceMaps
  import TypstValues

  const GENERATED_MAIN := "__main.typ"
  const DATA_FILE := "data.json"

  datatype AssemblyError =
    | SchemaViolation
    | BodyNotAllowed
    | BodyMissing
    | Reserved(path: string)
    | BadOverride(path: string, pathError: PathError)
    | UnknownOverride(path: string)
    | BadData(problem: Entrypoint.Problem)
    | NoBundle(error: BundleError)

  // ---- Overrides ----

  /** The first file of that path gets new content. */
  function Replace(files: seq<File>, path: string, content: Content): (r: seq<File>)
    ensures |r| == |files|
  {
    if files == [] then []
    else if files[0].path == path then [File(path, content)] + files[1..]
    else [files[0]] + Replace(files[1..], path, content)
  }

  function ReplaceOne(files: seq<File>, o: File): Result<seq<File>, AssemblyError> {
    if IsReserved(o.path) then Err(Reserved(o.path))
    else
      match Normalised(o.path)
      case Err(e) => Err(BadOverride(o.path, e))
      case Ok(path) => if HasPath(files, path) then Ok(Replace(files, path, o.content)) else Err(UnknownOverride(path))
  }

  /** The files after the first `n` overrides, or the first that fails. */
  function Overridden(files: seq<File>, overrides: seq<File>, n: nat): Result<seq<File>, AssemblyError>
    requires n <= |overrides|
  {
    Folded(ReplaceOne, files, overrides, n)
  }

  lemma OverrideErrorStays(files: seq<File>, overrides: seq<File>, n: nat)
    requires n <= |overrides| && Overridden(files, overrides, n).Err?
    ensures Overridden(files, overrides, |overrides|) == Overridden(files, overrides, n)
  {
    FailureStays(ReplaceOne, files, overrides, n, |overrides|);
  }

  lemma {:induction false} ReplaceAt(files: seq<File>, i: nat, path: string, content: Content)
    requires i < |files| && files[i].path == path && forall j :: 0 <= j < i ==> files[j].path != path
    ensures Replace(files, path, content) == files[i := File(path, content)]
  {
    if i > 0 {
      ReplaceAt(files[1..], i - 1, path, content);
      assert files == [files[0]] + files[1..];
    }
  }

  /** One override: find the file, replace it in place. */
  method OverrideOne(files: seq<File>, o: File) returns (r: Result<seq<File>, AssemblyError>)
    ensures r == ReplaceOne(files, o)
  {
    if IsReserved(o.path) {
      return Err(Reserved(o.path));
    }
    var path := NormalisePath(o.path);
    if path.Err? {
      return Err(BadOverride(o.path, path.error));
    }
    for i := 0 to |files|
      invariant forall j :: 0 <= j < i ==> files[j].path != path.value
    {
      if files[i].path == path.value {
        ReplaceAt(files, i, path.value, o.content);
        return Ok(files[i := File(path.value, o.content)]);
      }
    }
    r := Err(UnknownOverride(path.value));
  }

  method ApplyOverrides(files: seq<File>, overrides: seq<File>) returns (r: Result<seq<File>, AssemblyError>)
    ensures r == Overridden(files, overrides, |overrides|)
  {
    var current := files;
    for n := 0 to |overrides|
      invariant Overridden(files, overrides, n) == Ok(current)
    {
      r := OverrideOne(current, overrides[n]);
      if r.Err? {
        OverrideErrorStays(files, overrides, n + 1);
        return;
      }
      current := r.value;
    }
    r := Ok(current);
  }

  /** Files as a loaded template holds them. */
  predicate TemplateFiles(files: seq<File>) {
    DistinctPaths(files) && AllPaths(files) && forall f | f in files :: !IsReserved(f.path)
  }

  /** What the last of the first `n` overrides of a path says, or what was there. */
  function Latest(overrides: seq<File>, n: nat, path: string, original: Content): Content
    requires n <= |overrides|
  {
    if n == 0 then original
    else if overrides[n - 1].path == path then overrides[n - 1].content
    else Latest(overrides, n - 1, path, original)
  }

  predicate SamePaths(a: seq<File>, b: seq<File>) {
    |a| == |b| && forall i :: 0 <= i < |a| ==> a[i].path == b[i].path
  }

  lemma ReplaceMeans(files: seq<File>, path: string, content: Content)
    requires DistinctPaths(files) && HasPath(files, path)
    ensures SamePaths(Replace(files, path, content), files)
    ensures forall i :: 0 <= i < |files| ==>
              Replace(files, path, content)[i].content == if files[i].path == path then content else files[i].content
  {
    var i :| 0 <= i < |files| && files[i].path == path;
    ReplaceAt(files, i, path, content);
  }

  /** The files after `n` overrides: paths as they were, contents by the latest override. */
  predicate OverriddenBy(files: seq<File>, overrides: seq<File>, n: nat, after: seq<File>)
    requires n <= |overrides|
  {
    && SamePaths(after, files)
    && forall i :: 0 <= i < |files| ==> after[i].content == Latest(overrides, n, files[i].path, files[i].content)
  }

  lemma OverrideStep(files: seq<File>, overrides: seq<File>, n: nat, before: seq<File>)
    requires DistinctPaths(files) && n < |overrides| && OverriddenBy(files, overrides, n, before)
    requires HasPath(files, overrides[n].path)
    ensures OverriddenBy(files, overrides, n + 1, Replace(before, overrides[n].path, overrides[n].content))
  {
    SamePathsAgree(before, files, overrides[n].path);
    ReplaceMeans(before, overrides[n].path, overrides[n].content);
  }

  lemma NextOverride(files: seq<File>, overrides: seq<File>, n: nat, before: seq<File>)
    requires TemplateFiles(files) && n < |overrides| && OverriddenBy(files, overrides, n, before)
    ensures ReplaceOne(before, overrides[n]).Ok? <==> HasPath(files, overrides[n].path)
    ensures ReplaceOne(before, overrides[n]).Ok? ==>
              OverriddenBy(files, overrides, n + 1, ReplaceOne(before, overrides[n]).value)
  {
    OverrideAccepted(files, before, overrides[n]);
    if HasPath(files, overrides[n].path) {
      OverrideStep(files, overrides, n, before);
    }
  }

  predicate AllKnown(files: seq<File>, overrides: seq<File>, n: nat)
    requires n <= |overrides|
  {
    forall k :: 0 <= k < n ==> HasPath(files, overrides[k].path)
  }

  /** How one override goes, by whatever `step` takes it. */
  predicate StepsOn(step: (seq<File>, File) -> Result<seq<File>, AssemblyError>,
                    files: seq<File>, overrides: seq<File>, n: nat, before: seq<File>)
    requires n < |overrides|
  {
    && (step(before, overrides[n]).Ok? <==> HasPath(files, overrides[n].path))
    && (step(before, overrides[n]).Ok? ==> OverriddenBy(files, overrides, n + 1, step(before, overrides[n]).value))
  }

  lemma OverridesByStep(step: (seq<File>, File) -> Result<seq<File>, AssemblyError>, files: seq<File>,
                        overrides: seq<File>)
    requires forall k: nat, before ::
               k < |overrides| && OverriddenBy(files, overrides, k, before) ==>
                 StepsOn(step, files, overrides, k, before)
    ensures Folded(step, files, overrides, |overrides|).Ok? <==> AllKnown(files, overrides, |overrides|)
    ensures Folded(step, files, overrides, |overrides|).Ok? ==>
              OverriddenBy(files, overrides, |overrides|, Folded(step, files, overrides, |overrides|).value)
  {
    var good := (k: nat, before) => k <= |overrides| && OverriddenBy(files, overrides, k, before);
    var known := (k: nat) => k < |overrides| && HasPath(files, overrides[k].path);
    forall k: nat, before | k < |overrides| && good(k, before)
      ensures step(before, overrides[k]).Ok? <==> known(k)
      ensures step(before, overrides[k]).Ok? ==> good(k + 1, step(before, overrides[k]).value)
    {
      assert StepsOn(step, files, overrides, k, before);
    }
    FoldedExactly(step, files, overrides, |overrides|, good, known);
    assert forall k: nat :: k < |overrides| ==> (known(k) <==> HasPath(files, overrides[k].path));
  }

  lemma NextStepsOn(files: seq<File>, overrides: seq<File>, n: nat, before: seq<File>)
    requires TemplateFiles(files) && n < |overrides| && OverriddenBy(files, overrides, n, before)
    ensures StepsOn(ReplaceOne, files, overrides, n, before)
  {
    NextOverride(files, overrides, n, before);
  }

  /** Overriding is accepted exactly when every override names a file of the template. It
      then changes no path, and each file holds what its last override says. */
  lemma OverridesExactly(files: seq<File>, overrides: seq<File>)
    requires TemplateFiles(files)
    ensures Overridden(files, overrides, |overrides|).Ok? <==> AllKnown(files, overrides, |overrides|)
    ensures Overridden(files, overrides, |overrides|).Ok? ==>
              OverriddenBy(files, overrides, |overrides|, Overridden(files, overrides, |overrides|).value)
  {
    forall k: nat, before | k < |overrides| && OverriddenBy(files, overrides, k, before)
      ensures StepsOn(ReplaceOne, files, overrides, k, before)
    {
      NextStepsOn(files, overrides, k, before);
    }
    OverridesByStep(ReplaceOne, files, overrides);
  }

  lemma SamePathsAgree(a: seq<File>, b: seq<File>, path: string)
    requires SamePaths(a, b)
    ensures HasPath(a, path) <==> HasPath(b, path)
    ensures DistinctPaths(b) ==> DistinctPaths(a)
  {
    if HasPath(a, path) {
      var i :| 0 <= i < |a| && a[i].path == path;
      assert b[i] in b;
    }
    if HasPath(b, path) {
      var i :| 0 <= i < |b| && b[i].path == path;
      assert a[i] in a;
    }
  }

  lemma OverrideAccepted(files: seq<File>, before: seq<File>, o: File)
    requires TemplateFiles(files) && SamePaths(before, files)
    ensures ReplaceOne(before, o).Ok? <==> HasPath(files, o.path)
    ensures HasPath(files, o.path) ==> ReplaceOne(before, o) == Ok(Replace(before, o.path, o.content))
  {
    PathIsKeptOrRefused(o.path);
    SamePathsAgree(before, files, o.path);
    if HasPath(files, o.path) {
      var f :| f in files && f.path == o.path;
    }
  }

  // ---- The bundle ----

  /** A document request: the caller's data, its text as JSON, body, assets, overrides. */
  datatype Request = Request(
    data: Entrypoint.Json, dataText: string, body: Option<string>, extra: seq<File>, overrides: seq<File>)

  function Generated(names: seq<string>, main: string, body: Option<string>, data: string): seq<File>
    requires |names| == 3
  {
    [File(names[0], Text(main))]
    + (if body.Some? then [File(names[1], Text(body.value))] else [])
    + [File(names[2], Text(data))]
  }

  const GENERATED := [GENERATED_MAIN, Entrypoint.GENERATED_BODY, DATA_FILE]

  /** The generated files, in the order they are added. */
  function Mounted(m: Entrypoint.Manifest, main: string, rq: Request): seq<File> {
    Generated(GENERATED, main,
              if rq.body.Some? then Some(SourceMaps.GeneratedBody(m.entrypoint, rq.body.value)) else None, rq.dataText)
  }

  /** `assemble_with_overrides`; `valid` is the verdict of the template's schema. */
  function Assembled(m: Entrypoint.Manifest, files: seq<File>, valid: bool, rq: Request, maxBytes: nat)
    : Result<seq<File>, AssemblyError>
  {
    if !valid then Err(SchemaViolation)
    else if m.kind.Data? && rq.body.Some? then Err(BodyNotAllowed)
    else if m.kind.Wrapper? && rq.body.None? then Err(BodyMissing)
    else
      match Overridden(files, rq.overrides, |rq.overrides|)
      case Err(e) => Err(e)
      case Ok(sources) =>
        match Entrypoint.Generated(m, rq.data)
        case Err(e) => Err(BadData(e))
        case Ok(main) =>
          match BundleOf(GENERATED_MAIN, sources + rq.extra + Mounted(m, main, rq), maxBytes)
          case Err(e) => Err(NoBundle(e))
          case Ok(tree) => Ok(tree)
  }

  method Assemble(m: Entrypoint.Manifest, files: seq<File>, valid: bool, rq: Request, maxBytes: nat)
    returns (r: Result<seq<File>, AssemblyError>)
    ensures r == Assembled(m, files, valid, rq, maxBytes)
  {
    if !valid {
      return Err(SchemaViolation);
    }
    if m.kind.Data? && rq.body.Some? {
      return Err(BodyNotAllowed);
    }
    if m.kind.Wrapper? && rq.body.None? {
      return Err(BodyMissing);
    }
    var sources := ApplyOverrides(files, rq.overrides);
    if sources.Err? {
      return Err(sources.error);
    }
    var main := Entrypoint.GenerateMain(m, rq.data);
    if main.Err? {
      return Err(BadData(main.error));
    }
    var bundle := NewBundle(GENERATED_MAIN, sources.value + rq.extra + Mounted(m, main.value, rq), maxBytes);
    r := if bundle.Err? then Err(NoBundle(bundle.error)) else Ok(bundle.value);
  }

  predicate Disjoint(a: seq<File>, b: seq<File>) {
    forall f | f in a :: !HasPath(b, f.path)
  }

  lemma DistinctConcat(a: seq<File>, b: seq<File>)
    ensures DistinctPaths(a + b) <==> DistinctPaths(a) && DistinctPaths(b) && Disjoint(a, b)
  {
    var all := a + b;
    if DistinctPaths(all) {
      forall i, j | 0 <= i < j < |a| ensures a[i].path != a[j].path {
        assert all[i] == a[i] && all[j] == a[j];
      }
      forall i, j | 0 <= i < j < |b| ensures b[i].path != b[j].path {
        assert all[|a| + i] == b[i] && all[|a| + j] == b[j];
      }
      forall f | f in a ensures !HasPath(b, f.path) {
        var i :| 0 <= i < |a| && a[i] == f;
        forall j | 0 <= j < |b| ensures b[j].path != f.path {
          assert all[i].path != all[|a| + j].path;
        }
      }
    }
    if DistinctPaths(a) && DistinctPaths(b) && Disjoint(a, b) {
      forall i, j | 0 <= i < j < |all| ensures all[i].path != all[j].path {
        if i < |a| <= j {
          assert a[i] in a && b[j - |a|] in b;
        }
      }
    }
  }

  lemma {:induction false} TotalConcat(a: seq<File>, b: seq<File>)
    ensures TotalSize(a + b) == TotalSize(a) + TotalSize(b)
  {
    if b == [] {
      assert a + b == a;
    } else {
      var most := b[..|b| - 1];
      assert (a + b)[..|a + b| - 1] == a + most;
      TotalConcat(a, most);
    }
  }

  /** Names a caller's or a template's file must not have. */
  predicate IsTaken(path: string, rq: Request) {
    path == GENERATED_MAIN || path == DATA_FILE || (rq.body.Some? && path == Entrypoint.GENERATED_BODY)
  }

  lemma MountedPaths(m: Entrypoint.Manifest, main: string, rq: Request, path: string)
    ensures HasPath(Mounted(m, main, rq), path) <==> IsTaken(path, rq)
  {
    var mounted := Mounted(m, main, rq);
    assert mounted[0].path == GENERATED_MAIN && mounted[|mounted| - 1].path == DATA_FILE;
    assert mounted[0] in mounted && mounted[|mounted| - 1] in mounted;
    if rq.body.Some? {
      assert mounted[1].path == Entrypoint.GENERATED_BODY && mounted[1] in mounted;
    }
  }

  lemma {:induction false} AtMostFourBytes(s: string)
    ensures ByteLength(s) <= 4 * |s|
  {
    if s != "" { AtMostFourBytes(s[1..]); }
  }

  lemma OneSegmentIsPath(s: string)
    requires |s| <= 60 && Lacks(s, '/') && IsSegment(s) && forall c :: c in s ==> IsAllowed(c)
    ensures IsPath(s)
  {
    AtMostFourBytes(s);
    SplitFirst(s, "", '/');
  }

  lemma MainIsPath()
    ensures IsPath(GENERATED_MAIN) && IsReserved(GENERATED_MAIN)
  {
    OneSegmentIsPath(GENERATED_MAIN);
  }

  lemma BodyIsPath()
    ensures IsPath(Entrypoint.GENERATED_BODY) && IsReserved(Entrypoint.GENERATED_BODY)
  {
    OneSegmentIsPath(Entrypoint.GENERATED_BODY);
  }

  lemma BodyIsNotMain()
    ensures Entrypoint.GENERATED_BODY != GENERATED_MAIN
  {
    assert GENERATED_MAIN[2] == 'm' && Entrypoint.GENERATED_BODY[2] == 'b';
  }

  lemma DataIsPath()
    ensures IsPath(DATA_FILE) && !IsReserved(DATA_FILE)
  {
    OneSegmentIsPath(DATA_FILE);
    assert DATA_FILE[0] == 'd';
  }

  lemma GeneratedPaths(names: seq<string>, main: string, body: Option<string>, data: string)
    requires |names| == 3 && IsPath(names[0]) && IsPath(names[1]) && IsPath(names[2])
    requires names[0] != names[1] && names[1] != names[2] && names[0] != names[2]
    ensures AllPaths(Generated(names, main, body, data)) && DistinctPaths(Generated(names, main, body, data))
  {
  }

  lemma GeneratedPathsAreFine(m: Entrypoint.Manifest, main: string, rq: Request)
    ensures AllPaths(Mounted(m, main, rq)) && IsPath(GENERATED_MAIN) && DistinctPaths(Mounted(m, main, rq))
    ensures IsReserved(GENERATED_MAIN) && IsReserved(Entrypoint.GENERATED_BODY) && !IsReserved(DATA_FILE)
  {
    MainIsPath();
    BodyIsPath();
    BodyIsNotMain();
    DataIsPath();
    GeneratedPaths(GENERATED, main,
                   if rq.body.Some? then Some(SourceMaps.GeneratedBody(m.entrypoint, rq.body.value)) else None,
                   rq.dataText);
  }

  /** What the bundle of a request needs: room, and names that are nobody else's. */
  predicate HasRoom(m: Entrypoint.Manifest, main: string, sources: seq<File>, rq: Request, maxBytes: nat) {
    && |sources| + |rq.extra| + |Mounted(m, main, rq)| <= MAX_FILES
    && TotalSize(sources) + TotalSize(rq.extra) + TotalSize(Mounted(m, main, rq)) <= maxBytes
  }

  predicate NamesAreFree(files: seq<File>, rq: Request) {
    && AllPaths(rq.extra) && DistinctPaths(rq.extra) && Disjoint(files, rq.extra)
    && !HasPath(files, DATA_FILE)
    && forall f | f in rq.extra :: !IsTaken(f.path, rq)
  }

  lemma SourcesAvoidMounted(m: Entrypoint.Manifest, main: string, sources: seq<File>, rq: Request)
    requires TemplateFiles(sources)
    ensures Disjoint(sources + rq.extra, Mounted(m, main, rq)) <==>
              !HasPath(sources, DATA_FILE) && forall f | f in rq.extra :: !IsTaken(f.path, rq)
  {
    GeneratedPathsAreFine(m, main, rq);
    var mounted := Mounted(m, main, rq);
    forall f | f in sources ensures HasPath(mounted, f.path) <==> f.path == DATA_FILE {
      MountedPaths(m, main, rq, f.path);
    }
    forall f | f in rq.extra ensures HasPath(mounted, f.path) <==> IsTaken(f.path, rq) {
      MountedPaths(m, main, rq, f.path);
    }
    if HasPath(sources, DATA_FILE) {
      var f :| f in sources && f.path == DATA_FILE;
      assert f in sources + rq.extra;
    }
  }

  lemma BundleNames(m: Entrypoint.Manifest, main: string, sources: seq<File>, rq: Request)
    requires TemplateFiles(sources)
    ensures (AllPaths(sources + rq.extra + Mounted(m, main, rq))
             && DistinctPaths(sources + rq.extra + Mounted(m, main, rq)))
            <==> NamesAreFree(sources, rq)
  {
    var mounted := Mounted(m, main, rq);
    GeneratedPathsAreFine(m, main, rq);
    DistinctConcat(sources, rq.extra);
    DistinctConcat(sources + rq.extra, mounted);
    SourcesAvoidMounted(m, main, sources, rq);
    AllPathsConcat(sources, rq.extra);
    AllPathsConcat(sources + rq.extra, mounted);
  }

  lemma AllPathsConcat(a: seq<File>, b: seq<File>)
    ensures AllPaths(a + b) <==> AllPaths(a) && AllPaths(b)
  {
    assert forall f :: f in a + b <==> f in a || f in b;
  }

  lemma BundleTotals(m: Entrypoint.Manifest, main: string, sources: seq<File>, rq: Request, maxBytes: nat)
    ensures (var all := sources + rq.extra + Mounted(m, main, rq);
             |all| <= MAX_FILES && TotalSize(all) <= maxBytes) <==> HasRoom(m, main, sources, rq, maxBytes)
    ensures HasPath(sources + rq.extra + Mounted(m, main, rq), GENERATED_MAIN)
  {
    var mounted := Mounted(m, main, rq);
    TotalConcat(sources, rq.extra);
    TotalConcat(sources + rq.extra, mounted);
    assert mounted[0] in sources + rq.extra + mounted;
  }

  lemma BundleFits(m: Entrypoint.Manifest, main: string, sources: seq<File>, rq: Request, maxBytes: nat)
    requires TemplateFiles(sources)
    ensures Acceptable(GENERATED_MAIN, sources + rq.extra + Mounted(m, main, rq), maxBytes)
            <==> HasRoom(m, main, sources, rq, maxBytes) && NamesAreFree(sources, rq)
  {
    MainIsPath();
    BundleTotals(m, main, sources, rq, maxBytes);
    BundleNames(m, main, sources, rq);
  }

  lemma OverriddenIsTemplate(files: seq<File>, after: seq<File>, rq: Request)
    requires TemplateFiles(files) && SamePaths(after, files)
    ensures TemplateFiles(after) && (NamesAreFree(after, rq) <==> NamesAreFree(files, rq))
  {
    SamePathsAgree(after, files, DATA_FILE);
    forall f | f in after ensures IsPath(f.path) && !IsReserved(f.path) {
      var i :| 0 <= i < |after| && after[i] == f;
      assert files[i] in files;
    }
    SameDisjoint(after, files, rq.extra);
    SameDisjoint(files, after, rq.extra);
  }

  lemma SameDisjoint(a: seq<File>, b: seq<File>, extra: seq<File>)
    requires SamePaths(a, b)
    ensures Disjoint(a, extra) ==> Disjoint(b, extra)
  {
    if Disjoint(a, extra) {
      forall f | f in b ensures !HasPath(extra, f.path) {
        var i :| 0 <= i < |b| && b[i] == f;
        assert a[i] in a;
      }
    }
  }

  lemma AssembledInSteps(m: Entrypoint.Manifest, files: seq<File>, rq: Request, maxBytes: nat)
    requires m.kind.Wrapper? <==> rq.body.Some?
    ensures Assembled(m, files, true, rq, maxBytes).Ok? <==>
              && Overridden(files, rq.overrides, |rq.overrides|).Ok?
              && Entrypoint.Generated(m, rq.data).Ok?
              && BundleOf(GENERATED_MAIN, Overridden(files, rq.overrides, |rq.overrides|).value + rq.extra
                                          + Mounted(m, Entrypoint.Generated(m, rq.data).value, rq), maxBytes).Ok?
  {
  }

  lemma BundleInSteps(m: Entrypoint.Manifest, main: string, files: seq<File>, sources: seq<File>, rq: Request,
                      maxBytes: nat)
    requires TemplateFiles(files) && SamePaths(sources, files)
    ensures BundleOf(GENERATED_MAIN, sources + rq.extra + Mounted(m, main, rq), maxBytes).Ok?
            <==> HasRoom(m, main, sources, rq, maxBytes) && NamesAreFree(files, rq)
  {
    OverriddenIsTemplate(files, sources, rq);
    BundleFits(m, main, sources, rq, maxBytes);
    BundleExactly(GENERATED_MAIN, sources + rq.extra + Mounted(m, main, rq), maxBytes);
  }

  /** A template's files with what the last override of each says. */
  function Latests(files: seq<File>, overrides: seq<File>): (r: seq<File>)
    ensures SamePaths(r, files)
  {
    seq(|files|, i requires 0 <= i < |files| =>
      File(files[i].path, Latest(overrides, |overrides|, files[i].path, files[i].content)))
  }

  lemma OverriddenIsLatests(files: seq<File>, overrides: seq<File>)
    requires TemplateFiles(files) && AllKnown(files, overrides, |overrides|)
    ensures Overridden(files, overrides, |overrides|) == Ok(Latests(files, overrides))
  {
    OverridesExactly(files, overrides);
    assert Overridden(files, overrides, |overrides|).value == Latests(files, overrides);
  }

  /** A request that passes its schema and fits its template's kind becomes a bundle exactly
      when every override names a template file, every field given suits its declared type,
      the files with their last overrides, the caller's and the generated ones have room, and
      no name is taken twice. A template's own files never meet the generated ones, except
      that a template with a file called `data.json` can never be assembled. */
  lemma AssembledExactly(m: Entrypoint.Manifest, files: seq<File>, rq: Request, maxBytes: nat)
    requires TemplateFiles(files) && (m.kind.Wrapper? <==> rq.body.Some?)
    ensures Assembled(m, files, true, rq, maxBytes).Ok? <==>
              && AllKnown(files, rq.overrides, |rq.overrides|)
              && EntrypointMeaning.DataSuits(m.args, rq.data)
              && HasRoom(m, Entrypoint.Generated(m, rq.data).UnwrapOr(""), Latests(files, rq.overrides), rq, maxBytes)
              && NamesAreFree(files, rq)
  {
    OverridesExactly(files, rq.overrides);
    EntrypointMeaning.GeneratedExactly(m, rq.data);
    AssembledInSteps(m, files, rq, maxBytes);
    if AllKnown(files, rq.overrides, |rq.overrides|) && EntrypointMeaning.DataSuits(m.args, rq.data) {
      OverriddenIsLatests(files, rq.overrides);
      BundleInSteps(m, Entrypoint.Generated(m, rq.data).value, files, Latests(files, rq.overrides), rq, maxBytes);
    }
  }

  // ---- What a bundle holds ----

  /** The files of an assembled document, by path: the generated entrypoint, the data as it
      was given, a body behind the import of the template's bindings, the template's files with
      what the last override of each says, and the caller's own. */
  ghost predicate Holds(m: Entrypoint.Manifest, files: seq<File>, rq: Request, f: File) {
    || (f.path == "__main.typ" && f.content.Text? && Entrypoint.Generated(m, rq.data) == Ok(f.content.text))
    || f == File("data.json", Text(rq.dataText))
    || (rq.body.Some?
        && f == File("__body.typ",
                     Text("#import " + TypstValues.StringLiteral(m.entrypoint) + ": *\n" + rq.body.value)))
    || (exists i :: 0 <= i < |files| && OfTemplate(files, rq.overrides, i, f))
    || f in rq.extra
  }

  /** A template file, or the last override of its path. */
  predicate OfTemplate(files: seq<File>, overrides: seq<File>, i: nat, f: File)
    requires i < |files|
  {
    f.path == files[i].path && f.content == Latest(overrides, |overrides|, files[i].path, files[i].content)
  }

  lemma MountedHolds(m: Entrypoint.Manifest, main: string, rq: Request, f: File)
    ensures f in Mounted(m, main, rq) <==>
              || f == File("__main.typ", Text(main))
              || f == File("data.json", Text(rq.dataText))
              || (rq.body.Some? && f == File("__body.typ", Text(SourceMaps.GeneratedBody(m.entrypoint, rq.body.value))))
  {
  }

  lemma LatestsHold(files: seq<File>, overrides: seq<File>, f: File)
    ensures f in Latests(files, overrides) <==> exists i :: 0 <= i < |files| && OfTemplate(files, overrides, i, f)
  {
    var all := Latests(files, overrides);
    if f in all {
      var i :| 0 <= i < |all| && all[i] == f;
      assert OfTemplate(files, overrides, i, f);
    }
    if i :| 0 <= i < |files| && OfTemplate(files, overrides, i, f) {
      assert all[i] == f;
    }
  }

  lemma AssembledTree(m: Entrypoint.Manifest, files: seq<File>, rq: Request, maxBytes: nat)
    returns (main: string, tree: seq<File>)
    requires TemplateFiles(files) && Assembled(m, files, true, rq, maxBytes).Ok?
    ensures Entrypoint.Generated(m, rq.data) == Ok(main) && Assembled(m, files, true, rq, maxBytes) == Ok(tree)
    ensures Sorted(tree) && DistinctPaths(tree)
    ensures forall f :: f in tree <==> f in Latests(files, rq.overrides) + rq.extra + Mounted(m, main, rq)
  {
    OverridesExactly(files, rq.overrides);
    OverriddenIsLatests(files, rq.overrides);
    main := Entrypoint.Generated(m, rq.data).value;
    tree := Assembled(m, files, true, rq, maxBytes).value;
    BundleExactly(GENERATED_MAIN, Latests(files, rq.overrides) + rq.extra + Mounted(m, main, rq), maxBytes);
    SortOfSorted(tree);
  }

  lemma InThree(a: seq<File>, b: seq<File>, c: seq<File>, f: File)
    ensures f in a + b + c <==> f in a || f in b || f in c
  {
  }

  /** An accepted request gives exactly these files, each once, in path order. */
  lemma AssembledHoldsExactly(m: Entrypoint.Manifest, files: seq<File>, rq: Request, maxBytes: nat, f: File)
    requires TemplateFiles(files) && Assembled(m, files, true, rq, maxBytes).Ok?
    ensures f in Assembled(m, files, true, rq, maxBytes).value <==> Holds(m, files, rq, f)
    ensures Sorted(Assembled(m, files, true, rq, maxBytes).value)
    ensures DistinctPaths(Assembled(m, files, true, rq, maxBytes).value)
  {
    var main, tree := AssembledTree(m, files, rq, maxBytes);
    InThree(Latests(files, rq.overrides), rq.extra, Mounted(m, main, rq), f);
    MountedHolds(m, main, rq, f);
    LatestsHold(files, rq.overrides, f);
  }
}
