/** Which problem a document request is refused for: `assemble_with_overrides` of
    `src/templates.rs`, on the request and the template's files as they were loaded. */
module AssemblyProblems {
  import opened Wrappers
  import opened Traces
  import opened Paths
  import opened FileTrees
  import opened Bundles
  import opened Assembly
  import Entrypoint
  import EntrypointProblems

  predicate IsKnown(files: seq<File>, o: File) {
    HasPath(files, o.path)
  }

  /** Why an override is refused, by the files of the template: a reserved name, a bad path, or
      a path the template has no file for. */
  ghost predicate Refuses(files: seq<File>, o: File, e: AssemblyError) {
    if "__" <= o.path then e == Reserved(o.path)
    else if !IsPath(o.path) then e.BadOverride? && e.path == o.path && IsWrong(o.path, e.pathError)
    else e == UnknownOverride(o.path)
  }

  lemma OverrideRefused(files: seq<File>, before: seq<File>, o: File, e: AssemblyError)
    requires TemplateFiles(files) && SamePaths(before, files)
    ensures ReplaceOne(before, o) == Err(e) <==> !HasPath(files, o.path) && Refuses(files, o, e)
  {
    OverrideAccepted(files, before, o);
    PathIsKeptOrRefused(o.path);
    if e.BadOverride? { PathErrorExactly(o.path, e.pathError); }
    if Normalised(o.path).Err? { PathErrorExactly(o.path, Normalised(o.path).error); }
    SamePathsAgree(before, files, o.path);
  }

  /** The first override that names no file of the template, and why it is refused. */
  ghost predicate IsBadOverride(files: seq<File>, overrides: seq<File>, e: AssemblyError) {
    FirstRefused(overrides, |overrides|, o => IsKnown(files, o), (o, x) => Refuses(files, o, x), e)
  }

  /** How one override goes, by whatever `step` takes it. */
  ghost predicate StepRefuses(step: (seq<File>, File) -> Result<seq<File>, AssemblyError>, files: seq<File>,
                              overrides: seq<File>, n: nat, before: seq<File>, e: AssemblyError)
    requires n < |overrides|
  {
    && StepsOn(step, files, overrides, n, before)
    && (step(before, overrides[n]) == Err(e) <==>
          !IsKnown(files, overrides[n]) && Refuses(files, overrides[n], e))
  }

  lemma RefusedByStep(step: (seq<File>, File) -> Result<seq<File>, AssemblyError>, files: seq<File>,
                      overrides: seq<File>, e: AssemblyError)
    requires forall k: nat, before ::
               k < |overrides| && OverriddenBy(files, overrides, k, before) ==>
                 StepRefuses(step, files, overrides, k, before, e)
    ensures Folded(step, files, overrides, |overrides|) == Err(e) <==> IsBadOverride(files, overrides, e)
  {
    var good := (k: nat, before) => k <= |overrides| && OverriddenBy(files, overrides, k, before);
    var known, refuses := o => IsKnown(files, o), (o, x) => Refuses(files, o, x);
    forall k: nat, before | k < |overrides| && good(k, before)
      ensures step(before, overrides[k]).Ok? <==> known(overrides[k])
      ensures step(before, overrides[k]).Ok? ==> good(k + 1, step(before, overrides[k]).value)
      ensures step(before, overrides[k]) == Err(e) <==> !known(overrides[k]) && refuses(overrides[k], e)
    {
      assert StepRefuses(step, files, overrides, k, before, e);
    }
    FoldedRefuses(step, files, overrides, |overrides|, good, known, refuses, e);
  }

  lemma OverridesRefused(files: seq<File>, overrides: seq<File>, e: AssemblyError)
    requires TemplateFiles(files)
    ensures Overridden(files, overrides, |overrides|) == Err(e) <==> IsBadOverride(files, overrides, e)
  {
    forall k: nat, before | k < |overrides| && OverriddenBy(files, overrides, k, before)
      ensures StepRefuses(ReplaceOne, files, overrides, k, before, e)
    {
      NextStepsOn(files, overrides, k, before);
      OverrideRefused(files, before, overrides[k], e);
    }
    RefusedByStep(ReplaceOne, files, overrides, e);
  }

  /** Everything a bundle is made of. */
  function AllFiles(m: Entrypoint.Manifest, main: string, files: seq<File>, rq: Request): seq<File> {
    Latests(files, rq.overrides) + rq.extra + Mounted(m, main, rq)
  }

  /** The first problem of a request, in the order they are looked for. */
  ghost predicate IsRequestProblem(m: Entrypoint.Manifest, files: seq<File>, valid: bool, rq: Request,
                                   maxBytes: nat, e: AssemblyError)
  {
    if !valid then e == SchemaViolation
    else if m.kind.Data? && rq.body.Some? then e == BodyNotAllowed
    else if m.kind.Wrapper? && rq.body.None? then e == BodyMissing
    else if !AllKnown(files, rq.overrides, |rq.overrides|) then IsBadOverride(files, rq.overrides, e)
    else
      match e
      case BadData(p) => EntrypointProblems.IsDataProblem(m.args, rq.data, p)
      case NoBundle(b) =>
        && Entrypoint.Generated(m, rq.data).Ok?
        && IsComplaint(GENERATED_MAIN, AllFiles(m, Entrypoint.Generated(m, rq.data).value, files, rq), maxBytes, b)
      case _ => false
  }

  lemma AfterOverrides(m: Entrypoint.Manifest, files: seq<File>, sources: seq<File>, rq: Request, maxBytes: nat,
                       e: AssemblyError)
    requires Overridden(files, rq.overrides, |rq.overrides|) == Ok(sources) && (m.kind.Wrapper? <==> rq.body.Some?)
    ensures var main, outcome := Entrypoint.Generated(m, rq.data), Assembled(m, files, true, rq, maxBytes);
            && (e.BadData? ==> (outcome == Err(e) <==> main == Err(e.problem)))
            && (e.NoBundle? ==>
                  (outcome == Err(e) <==>
                     main.Ok? && BundleOf(GENERATED_MAIN, sources + rq.extra + Mounted(m, main.value, rq), maxBytes)
                                 == Err(e.error)))
            && (!e.BadData? && !e.NoBundle? ==> outcome != Err(e))
  {
  }

  lemma LaterProblem(m: Entrypoint.Manifest, files: seq<File>, rq: Request, maxBytes: nat, e: AssemblyError)
    requires TemplateFiles(files) && AllKnown(files, rq.overrides, |rq.overrides|)
    requires m.kind.Wrapper? <==> rq.body.Some?
    ensures Assembled(m, files, true, rq, maxBytes) == Err(e) <==> IsRequestProblem(m, files, true, rq, maxBytes, e)
  {
    OverridesExactly(files, rq.overrides);
    OverriddenIsLatests(files, rq.overrides);
    AfterOverrides(m, files, Latests(files, rq.overrides), rq, maxBytes, e);
    if e.BadData? { EntrypointProblems.DataProblemExactly(m, rq.data, e.problem); }
    if e.NoBundle? && Entrypoint.Generated(m, rq.data).Ok? {
      var all := AllFiles(m, Entrypoint.Generated(m, rq.data).value, files, rq);
      BundleErrorExactly(GENERATED_MAIN, all, maxBytes, e.error);
    }
  }

  /** A request is refused for the first of these, and for nothing else: the schema; a body where
      there must be none, or none where there must be one; the first override of no file; the
      data; the bundle. */
  lemma RequestProblemExactly(m: Entrypoint.Manifest, files: seq<File>, valid: bool, rq: Request, maxBytes: nat,
                              e: AssemblyError)
    requires TemplateFiles(files)
    ensures Assembled(m, files, valid, rq, maxBytes) == Err(e) <==> IsRequestProblem(m, files, valid, rq, maxBytes, e)
  {
    if valid && (m.kind.Wrapper? <==> rq.body.Some?) {
      if AllKnown(files, rq.overrides, |rq.overrides|) {
        LaterProblem(m, files, rq, maxBytes, e);
      } else {
        OverridesExactly(files, rq.overrides);
        OverridesRefused(files, rq.overrides, e);
      }
    }
  }
}
