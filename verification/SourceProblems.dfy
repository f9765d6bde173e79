/** Which problem an upload is refused for: `from_source_files` of `src/templates.rs`, on the
    files as they are sent. */
module SourceProblems {
  import opened Wrappers
  import opened Words
  import opened Texts
  import Paths
  import opened FileTrees
  import opened Bundles
  import opened SourceTrees
  import opened SourceRoundTrip

  // ---- The first in path order ----

  /** The least path of the files that have some property. */
  ghost predicate IsLeast(files: seq<File>, holds: File -> bool, path: string) {
    exists f :: f in files && f.path == path && holds(f) && forall g :: g in files && holds(g) ==> !Less(g.path, path)
  }

  lemma LeastOfSorted(tree: seq<File>, holds: File -> bool, path: string)
    requires Sorted(tree) && tree != []
    ensures IsLeast(tree, holds, path) <==>
              if holds(tree[0]) then path == tree[0].path else IsLeast(tree[1..], holds, path)
  {
    assert tree == [tree[0]] + tree[1..];
    if holds(tree[0]) {
      forall g | g in tree ensures !Less(g.path, tree[0].path) {
        LessIrreflexive(tree[0].path);
        if Less(g.path, tree[0].path) && g != tree[0] { LessTransitive(tree[0].path, g.path, tree[0].path); }
      }
      if IsLeast(tree, holds, path) { LessTotal(tree[0].path, path); HeadIsLess(tree, path); }
    }
  }

  lemma HeadIsLess(tree: seq<File>, path: string)
    requires Sorted(tree) && tree != [] && HasPath(tree, path)
    ensures path == tree[0].path || Less(tree[0].path, path)
  {
    var f :| f in tree && f.path == path;
    var i :| 0 <= i < |tree| && tree[i] == f;
    if i > 0 { assert Before(tree[0], tree[i]); }
  }

  lemma LeastOfSame(a: seq<File>, b: seq<File>, holds: File -> bool, path: string)
    requires forall f :: f in a && holds(f) <==> f in b && holds(f)
    ensures IsLeast(a, holds, path) <==> IsLeast(b, holds, path)
  {
  }

  predicate IsBinaryMetadata(f: File) {
    IsMetadata(f.path) && f.content.Binary?
  }

  predicate HasReservedName(f: File) {
    "__" <= f.path
  }

  lemma {:induction false} BinaryMetadataIsLeast(tree: seq<File>, path: string)
    requires Sorted(tree)
    ensures FirstBinaryMetadata(tree) == Some(path) <==> IsLeast(tree, IsBinaryMetadata, path)
  {
    if tree != [] {
      LeastOfSorted(tree, IsBinaryMetadata, path);
      BinaryMetadataIsLeast(tree[1..], path);
    }
  }

  lemma {:induction false} BadFileIsLeast(tree: seq<File>, p: Problem)
    requires Sorted(tree) && AllPaths(tree)
    ensures FirstBadFile(tree) == Some(p) <==> p.ReservedName? && IsLeast(tree, HasReservedName, p.path)
  {
    if tree != [] {
      assert tree == [tree[0]] + tree[1..];
      Paths.PathIsKeptOrRefused(tree[0].path);
      if p.ReservedName? { LeastOfSorted(tree, HasReservedName, p.path); }
      BadFileIsLeast(tree[1..], p);
    }
  }

  // ---- The problem ----

  /** What the manifest says of the function a wrapper calls. */
  ghost predicate NamesItsFunction(lib: Library, info: ManifestInfo) {
    info.wrapper ==> info.wrapperFn.Some? && lib.isIdent(info.wrapperFn.value)
  }

  /** What is wrong with text metadata and a tree of valid paths: the first thing in order. */
  ghost predicate IsTemplateProblem(lib: Library, files: seq<File>, toml: string, p: Problem) {
    match lib.manifest(toml)
    case None => p == BadManifest
    case Some(info) =>
      var named := NamesItsFunction(lib, info);
      var plain := named && forall f :: f in files ==> !HasReservedName(f);
      match p
      case NoWrapperFn => info.wrapper && info.wrapperFn.None?
      case BadWrapperFn(value) => info.wrapper && info.wrapperFn == Some(value) && !lib.isIdent(value)
      case ReservedName(path) => named && IsLeast(files, HasReservedName, path)
      case MissingEntrypoint(path) =>
        plain && path == info.entrypoint && (IsMetadata(path) || !HasPath(files, path))
      case BadSchema => plain && ManifestFits(lib, files, toml) && !TextPasses(files, "schema.json", lib.isSchema)
      case BadFixture =>
        && plain && ManifestFits(lib, files, toml) && TextPasses(files, "schema.json", lib.isSchema)
        && !TextPasses(files, "fixture.json", lib.isJson)
      case _ => false
  }

  ghost predicate IsProblem(lib: Library, files: seq<File>, maxBytes: nat, p: Problem) {
    if !Acceptable("template.toml", files, maxBytes) then
      p.BadBundle? && IsComplaint("template.toml", files, maxBytes, p.error)
    else if !MetadataIsText(files) then p.NonTextMetadata? && IsLeast(files, IsBinaryMetadata, p.path)
    else exists toml :: File("template.toml", Text(toml)) in files && IsTemplateProblem(lib, files, toml, p)
  }

  lemma PlainFilesAreFine(tree: seq<File>, path: string)
    requires Sorted(tree) && AllPaths(tree)
    ensures Sorted(PlainFiles(tree)) && AllPaths(PlainFiles(tree))
    ensures IsLeast(PlainFiles(tree), HasReservedName, path) <==> IsLeast(tree, HasReservedName, path)
  {
    PlainFilesExactly(tree);
    forall f | f in tree && IsMetadata(f.path) ensures !HasReservedName(f) { MetadataIsNotReserved(f.path); }
    LeastOfSame(PlainFiles(tree), tree, HasReservedName, path);
  }

  /** What the checks find: the first bad file, whether the entrypoint is there, and whether
      schema and fixture are valid. */
  datatype Findings = Findings(bad: Option<Problem>, there: bool, schema: bool, fixture: bool)

  ghost predicate Decides(lib: Library, info: ManifestInfo, found: Findings, p: Problem) {
    var named := NamesItsFunction(lib, info);
    match p
    case NoWrapperFn => info.wrapper && info.wrapperFn.None?
    case BadWrapperFn(value) => info.wrapper && info.wrapperFn == Some(value) && !lib.isIdent(value)
    case ReservedName(_) => named && found.bad == Some(p)
    case BadMemberPath(_, _) => named && found.bad == Some(p)
    case MissingEntrypoint(path) => named && found.bad.None? && path == info.entrypoint && !found.there
    case BadSchema => named && found.bad.None? && found.there && !found.schema
    case BadFixture => named && found.bad.None? && found.there && found.schema && !found.fixture
    case _ => false
  }

  /** Findings that are true of the files. */
  ghost predicate AreTrue(lib: Library, files: seq<File>, info: ManifestInfo, found: Findings, p: Problem) {
    && (found.bad == Some(p) <==> p.ReservedName? && IsLeast(files, HasReservedName, p.path))
    && (found.bad.None? <==> forall f :: f in files ==> !HasReservedName(f))
    && (found.there <==> !IsMetadata(info.entrypoint) && HasPath(files, info.entrypoint))
    && (found.schema <==> TextPasses(files, "schema.json", lib.isSchema))
    && (found.fixture <==> TextPasses(files, "fixture.json", lib.isJson))
  }

  lemma {:induction false} BadFileProblem(files: seq<File>)
    ensures FirstBadFile(files).Some? ==>
              FirstBadFile(files).value.ReservedName? || FirstBadFile(files).value.BadMemberPath?
  {
    if files != [] { BadFileProblem(files[1..]); }
  }

  function FindingsOf(lib: Library, parts: Parts, info: ManifestInfo): Findings {
    Findings(FirstBadFile(parts.files), HasPath(SortFiles(parts.files), info.entrypoint),
             parts.schemaJson.Some? ==> lib.isSchema(parts.schemaJson.value),
             parts.fixtureJson.Some? ==> lib.isJson(parts.fixtureJson.value))
  }

  lemma PartsDecide(lib: Library, parts: Parts, info: ManifestInfo, p: Problem)
    requires lib.manifest(parts.manifestToml) == Some(info)
    ensures AssembleFrom(lib, parts) == Err(p) <==> Decides(lib, info, FindingsOf(lib, parts, info), p)
  {
    BadFileProblem(parts.files);
  }

  lemma DecidesTheSame(lib: Library, files: seq<File>, toml: string, info: ManifestInfo, found: Findings, p: Problem)
    requires lib.manifest(toml) == Some(info) && AreTrue(lib, files, info, found, p)
    ensures Decides(lib, info, found, p) <==> IsTemplateProblem(lib, files, toml, p)
  {
  }

  lemma BadFilesOfTree(tree: seq<File>, p: Problem)
    requires Sorted(tree) && AllPaths(tree)
    ensures FirstBadFile(PlainFiles(tree)) == Some(p) <==> p.ReservedName? && IsLeast(tree, HasReservedName, p.path)
    ensures FirstBadFile(PlainFiles(tree)).None? <==> forall f :: f in tree ==> !HasReservedName(f)
  {
    PlainFilesAreFine(tree, if p.ReservedName? then p.path else "");
    BadFileIsLeast(PlainFiles(tree), p);
    BadFileExactly(PlainFiles(tree));
    PlainFilesExactly(tree);
    forall f | f in tree && IsMetadata(f.path) ensures !HasReservedName(f) { MetadataIsNotReserved(f.path); }
  }

  lemma TextsOfTree(lib: Library, tree: seq<File>, info: ManifestInfo, found: Findings)
    requires Sorted(tree) && DistinctPaths(tree) && found == FindingsOf(lib, PartsOf(tree), info)
    ensures found.there <==> !IsMetadata(info.entrypoint) && HasPath(tree, info.entrypoint)
    ensures found.schema <==> TextPasses(tree, "schema.json", lib.isSchema)
    ensures found.fixture <==> TextPasses(tree, "fixture.json", lib.isJson)
  {
    PassesExactly(tree, "schema.json", lib.isSchema);
    PassesExactly(tree, "fixture.json", lib.isJson);
    EntrypointThere(tree, info.entrypoint);
  }

  lemma FindingsAreTrue(lib: Library, tree: seq<File>, info: ManifestInfo, p: Problem) returns (found: Findings)
    requires Sorted(tree) && AllPaths(tree) && DistinctPaths(tree)
    ensures found == FindingsOf(lib, PartsOf(tree), info) && AreTrue(lib, tree, info, found, p)
  {
    found := FindingsOf(lib, PartsOf(tree), info);
    TextsOfTree(lib, tree, info, found);
    assert found.bad == FirstBadFile(PlainFiles(tree));
    BadFilesOfTree(tree, p);
  }

  lemma TemplateProblemExactly(lib: Library, tree: seq<File>, toml: string, p: Problem)
    requires Sorted(tree) && AllPaths(tree) && File("template.toml", Text(toml)) in tree
    ensures AssembleFrom(lib, PartsOf(tree)) == Err(p) <==> IsTemplateProblem(lib, tree, toml, p)
  {
    SortOfSorted(tree);
    TextAtExactly(tree, "template.toml", toml);
    if lib.manifest(toml).Some? {
      var info := lib.manifest(toml).value;
      var found := FindingsAreTrue(lib, tree, info, p);
      PartsDecide(lib, PartsOf(tree), info, p);
      DecidesTheSame(lib, tree, toml, info, found, p);
    }
  }

  lemma SameProblems(lib: Library, files: seq<File>, tree: seq<File>, toml: string, p: Problem)
    requires forall f :: f in tree <==> f in files
    ensures IsTemplateProblem(lib, tree, toml, p) <==> IsTemplateProblem(lib, files, toml, p)
  {
    SamePasses(lib, files, tree);
    if p.ReservedName? { LeastOfSame(tree, files, HasReservedName, p.path); }
  }

  lemma TreeProblemExactly(lib: Library, files: seq<File>, tree: seq<File>, p: Problem)
    requires Sorted(tree) && AllPaths(tree) && HasPath(files, "template.toml") && DistinctPaths(files)
    requires MetadataIsText(files) && forall f :: f in tree <==> f in files
    ensures AssembleFrom(lib, PartsOf(tree)) == Err(p) <==>
              exists toml :: File("template.toml", Text(toml)) in files && IsTemplateProblem(lib, files, toml, p)
  {
    var f :| f in files && f.path == "template.toml";
    assert IsMetadata(f.path);
    var toml := f.content.text;
    assert f == File("template.toml", Text(toml));
    OnlyOneManifest(files, f);
    TemplateProblemExactly(lib, tree, toml, p);
    SameProblems(lib, files, tree, toml, p);
  }

  lemma BinaryMetadataProblem(files: seq<File>, tree: seq<File>, path: string)
    requires Sorted(tree) && forall f :: f in tree <==> f in files
    ensures FirstBinaryMetadata(tree) == Some(path) <==> IsLeast(files, IsBinaryMetadata, path)
    ensures FirstBinaryMetadata(tree).None? <==> MetadataIsText(files)
  {
    BinaryMetadataIsLeast(tree, path);
    BinaryMetadataExactly(tree);
    LeastOfSame(tree, files, IsBinaryMetadata, path);
  }

  /** An upload is refused for the first of these, and for nothing else: the bundle; metadata
      that is no text; the manifest; a wrapper's function; a reserved name; the entrypoint; the
      schema; the fixture. Of several files it is the first in path order. */
  lemma SourceProblemExactly(lib: Library, files: seq<File>, maxBytes: nat, p: Problem)
    ensures FromSourceFiles(lib, files, maxBytes) == Err(p) <==> IsProblem(lib, files, maxBytes, p)
  {
    BundleExactly("template.toml", files, maxBytes);
    if p.BadBundle? { BundleErrorExactly("template.toml", files, maxBytes, p.error); }
    if Acceptable("template.toml", files, maxBytes) {
      var tree := SortFiles(files);
      BinaryMetadataProblem(files, tree, if p.NonTextMetadata? then p.path else "");
      if MetadataIsText(files) {
        SamePasses(lib, files, tree);
        TreeProblemExactly(lib, files, tree, p);
      }
    }
  }

  // ---- Members of an archive ----

  /** Why a member is refused. One that holds more than it declares is reported as one byte too
      many, however much there is of it, because no more than that is read. */
  ghost predicate IsMemberProblem(lib: Library, m: Member, count: nat, total: nat, maxBytes: nat, p: Problem) {
    match lib.decodeUtf8(m.path)
    case None => p == BadArchive
    case Some(path) =>
      if !Paths.IsPath(path) then p.BadMemberPath? && p.path == path && Paths.IsWrong(path, p.pathError)
      else if !m.isFile then p == NonFileMember(path)
      else if count >= 64 then p == BadBundle(TooManyFiles(count + 1))
      else if SaturatingAdd(total, m.declared) > maxBytes then
        p == BadBundle(TooLarge(SaturatingAdd(total, m.declared), maxBytes))
      else if |m.bytes| > maxBytes - total then p == BadBundle(TooLarge(maxBytes + 1, maxBytes))
      else !m.intact && p == BadArchive
  }

  lemma MemberProblemExactly(lib: Library, m: Member, count: nat, total: nat, maxBytes: nat, p: Problem)
    requires total <= maxBytes
    ensures DecodeMember(lib, m, count, total, maxBytes) == Err(p) <==>
              IsMemberProblem(lib, m, count, total, maxBytes, p)
  {
    if lib.decodeUtf8(m.path).Some? {
      var path := lib.decodeUtf8(m.path).value;
      Paths.PathIsKeptOrRefused(path);
      if p.BadMemberPath? { Paths.PathErrorExactly(path, p.pathError); }
      if Paths.Normalised(path).Err? { Paths.PathErrorExactly(path, Paths.Normalised(path).error); }
    }
  }

  /** An archive is refused for its first bad member, then for breaking off, then for its files. */
  lemma ArchiveProblem(lib: Library, bytes: seq<Byte>, members: seq<Member>, whole: bool, maxBytes: U64, n: nat,
                       files: seq<File>, p: Problem)
    requires !IsGzip(bytes) && n <= |members|
    requires lib.unpack(bytes, SaturatingAdd(maxBytes, MAX_ARCHIVE_OVERHEAD_BYTES)) == Unpacked(members, whole)
    requires Decoded(lib, members, n, maxBytes) == Ok(files)
    ensures (n < |members| && DecodeMember(lib, members[n], n, Contents(members[..n]), maxBytes) == Err(p) ==>
               FromArchive(lib, bytes, maxBytes) == Err(p))
    ensures (n == |members| ==>
               FromArchive(lib, bytes, maxBytes)
               == if whole then FromSourceFiles(lib, files, maxBytes) else Err(BadArchive))
  {
    if n < |members| && DecodeMember(lib, members[n], n, Contents(members[..n]), maxBytes) == Err(p) {
      DecodedErrorStays(MemberDecoding(lib, maxBytes), members, n + 1, |members|);
    }
  }
}
