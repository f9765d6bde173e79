/** A template gives back the files it was built from, directly and through its archive. */
module SourceRoundTrip {
  import opened Wrappers
  import opened Texts
  import opened Words
  import opened Paths
  import opened FileTrees
  import opened Bundles
  import opened SourceTrees

  // ---- Setting metadata aside and putting it back ----

  lemma {:induction false} TextAtExactly(files: seq<File>, path: string, text: string)
    requires DistinctPaths(files)
    ensures TextAt(files, path) == Some(text) <==> File(path, Text(text)) in files
  {
    if files != [] {
      var most, last := files[..|files| - 1], files[|files| - 1];
      assert files == most + [last];
      TextAtExactly(most, path, text);
      if last.path == path {
        assert File(path, Text(text)) !in most;
      }
    }
  }

  lemma {:induction false} PlainFilesExactly(files: seq<File>)
    ensures forall f :: f in PlainFiles(files) <==> f in files && !IsMetadata(f.path)
    ensures Sorted(files) ==> Sorted(PlainFiles(files))
  {
    if files != [] {
      var most, last := files[..|files| - 1], files[|files| - 1];
      assert files == most + [last];
      PlainFilesExactly(most);
      if Sorted(files) {
        forall f | f in most ensures Before(f, last) {
          var i :| 0 <= i < |most| && most[i] == f;
          assert Before(files[i], files[|files| - 1]);
        }
      }
    }
  }

  predicate MetadataIsText(files: seq<File>) {
    forall f | f in files :: IsMetadata(f.path) ==> f.content.Text?
  }

  lemma {:induction false} BinaryMetadataExactly(files: seq<File>)
    ensures FirstBinaryMetadata(files).None? <==> MetadataIsText(files)
  {
    if files != [] {
      assert files == [files[0]] + files[1..];
      BinaryMetadataExactly(files[1..]);
    }
  }

  lemma AppendedIsDistinct(files: seq<File>, path: string, text: Option<string>)
    requires DistinctPaths(files) && !HasPath(files, path)
    ensures DistinctPaths(files + TextFile(path, text))
    ensures forall other :: other != path ==>
              (HasPath(files + TextFile(path, text), other) <==> HasPath(files, other))
  {
    if text.Some? {
      LastPathIsNew(files, File(path, Text(text.value)));
    } else {
      assert files + TextFile(path, text) == files;
    }
  }

  /** All files of a template, metadata last. */
  function Gathered(t: Template): seq<File> {
    t.files + TextFile("template.toml", Some(t.manifestToml)) + TextFile("schema.json", t.schemaJson)
    + TextFile("fixture.json", t.fixtureJson) + TextFile("fixture.body.typ", t.exampleBody)
  }

  lemma GatheredIsDistinct(t: Template)
    requires DistinctPaths(t.files) && forall f :: f in t.files ==> !IsMetadata(f.path)
    ensures DistinctPaths(Gathered(t))
  {
    var a := t.files + TextFile("template.toml", Some(t.manifestToml));
    var b := a + TextFile("schema.json", t.schemaJson);
    var c := b + TextFile("fixture.json", t.fixtureJson);
    AppendedIsDistinct(t.files, "template.toml", Some(t.manifestToml));
    AppendedIsDistinct(a, "schema.json", t.schemaJson);
    AppendedIsDistinct(b, "fixture.json", t.fixtureJson);
    AppendedIsDistinct(c, "fixture.body.typ", t.exampleBody);
  }

  /** The template `from_source_files` builds from an accepted tree. */
  predicate BuiltFrom(t: Template, tree: seq<File>) {
    && Sorted(tree) && MetadataIsText(tree) && HasPath(tree, "template.toml")
    && t.files == SortFiles(PlainFiles(tree))
    && t.manifestToml == PartsOf(tree).manifestToml
    && t.schemaJson == TextAt(tree, "schema.json")
    && t.fixtureJson == TextAt(tree, "fixture.json")
    && t.exampleBody == TextAt(tree, "fixture.body.typ")
  }

  lemma AssembledFromParts(lib: Library, parts: Parts)
    requires AssembleFrom(lib, parts).Ok?
    ensures (AssembleFrom(lib, parts)
             == Ok(Template(parts.manifestToml, SortFiles(parts.files), parts.schemaJson,
                            parts.fixtureJson, parts.fixtureBody)))
  {
  }

  lemma BuiltExactly(lib: Library, files: seq<File>, maxBytes: nat)
    requires FromSourceFiles(lib, files, maxBytes).Ok?
    ensures BundleOf("template.toml", files, maxBytes) == Ok(SortFiles(files))
    ensures BuiltFrom(FromSourceFiles(lib, files, maxBytes).value, SortFiles(files))
    ensures AssembleFrom(lib, PartsOf(SortFiles(files))) == FromSourceFiles(lib, files, maxBytes)
  {
    BundleExactly("template.toml", files, maxBytes);
    BinaryMetadataExactly(SortFiles(files));
    var f :| f in files && f.path == "template.toml";
    assert f in SortFiles(files);
    AssembledFromParts(lib, PartsOf(SortFiles(files)));
  }

  lemma ManifestIsThere(tree: seq<File>)
    requires Sorted(tree) && MetadataIsText(tree) && HasPath(tree, "template.toml")
    ensures TextAt(tree, "template.toml") == Some(PartsOf(tree).manifestToml)
  {
    var f :| f in tree && f.path == "template.toml";
    SortOfSorted(tree);
    assert IsMetadata(f.path);
    TextAtExactly(tree, "template.toml", f.content.text);
  }

  lemma TextFileExactly(tree: seq<File>, path: string, f: File)
    requires Sorted(tree) && MetadataIsText(tree) && IsMetadata(path)
    ensures f in TextFile(path, TextAt(tree, path)) <==> f in tree && f.path == path
  {
    SortOfSorted(tree);
    if f in tree && f.path == path {
      TextAtExactly(tree, path, f.content.text);
    }
    if TextAt(tree, path).Some? {
      TextAtExactly(tree, path, TextAt(tree, path).value);
    }
  }

  lemma InFive<T>(a: seq<T>, b: seq<T>, c: seq<T>, d: seq<T>, e: seq<T>, x: T)
    ensures x in a + b + c + d + e <==> x in a || x in b || x in c || x in d || x in e
  {
  }

  lemma GatheredExactly(t: Template, tree: seq<File>, f: File)
    requires BuiltFrom(t, tree)
    ensures f in Gathered(t) <==> f in tree
  {
    ManifestIsThere(tree);
    PlainFilesExactly(tree);
    SortOfSorted(PlainFiles(tree));
    TextFileExactly(tree, "template.toml", f);
    TextFileExactly(tree, "schema.json", f);
    TextFileExactly(tree, "fixture.json", f);
    TextFileExactly(tree, "fixture.body.typ", f);
    InFive(t.files, TextFile("template.toml", Some(t.manifestToml)), TextFile("schema.json", t.schemaJson),
           TextFile("fixture.json", t.fixtureJson), TextFile("fixture.body.typ", t.exampleBody), f);
  }

  /** `source_files` is the tree the template was built from, contents and all. */
  lemma SourceFilesOfBuilt(t: Template, tree: seq<File>)
    requires BuiltFrom(t, tree)
    ensures SourceFiles(t) == tree
  {
    PlainFilesExactly(tree);
    SortOfSorted(PlainFiles(tree));
    GatheredIsDistinct(t);
    SortSorts(Gathered(t));
    assert SourceFiles(t) == SortFiles(Gathered(t));
    forall f ensures f in SortFiles(Gathered(t)) <==> f in tree {
      GatheredExactly(t, tree, f);
    }
    SortedIsUnique(SortFiles(Gathered(t)), tree);
  }

  /** The promotion contract: every uploaded file comes back, and no other, in path order. */
  lemma SourceFilesAreTheUpload(lib: Library, files: seq<File>, maxBytes: nat)
    requires FromSourceFiles(lib, files, maxBytes).Ok?
    ensures Sorted(SourceFiles(FromSourceFiles(lib, files, maxBytes).value))
    ensures forall f :: f in SourceFiles(FromSourceFiles(lib, files, maxBytes).value) <==> f in files
  {
    BuiltExactly(lib, files, maxBytes);
    BundleExactly("template.toml", files, maxBytes);
    SourceFilesOfBuilt(FromSourceFiles(lib, files, maxBytes).value, SortFiles(files));
  }

  // ---- What is accepted ----

  lemma {:induction false} BadFileExactly(files: seq<File>)
    ensures FirstBadFile(files).None? <==> forall f :: f in files ==> IsPath(f.path) && !IsReserved(f.path)
  {
    if files != [] {
      assert files == [files[0]] + files[1..];
      PathIsKeptOrRefused(files[0].path);
      BadFileExactly(files[1..]);
    }
  }

  /** Text of a metadata file that some check accepts, or no such file. */
  ghost predicate TextPasses(files: seq<File>, path: string, accepts: string -> bool) {
    forall text :: File(path, Text(text)) in files ==> accepts(text)
  }

  /** What a manifest must say for these files: a wrapper names its function by an identifier,
      and the entrypoint is one of the template's own files. */
  ghost predicate ManifestFits(lib: Library, files: seq<File>, toml: string) {
    match lib.manifest(toml)
    case None => false
    case Some(info) =>
      && (info.wrapper ==> info.wrapperFn.Some? && lib.isIdent(info.wrapperFn.value))
      && !IsMetadata(info.entrypoint) && HasPath(files, info.entrypoint)
  }

  lemma EntrypointThere(files: seq<File>, path: string)
    requires Sorted(files)
    ensures HasPath(SortFiles(PlainFiles(files)), path) <==> !IsMetadata(path) && HasPath(files, path)
  {
    PlainFilesExactly(files);
    SortOfSorted(PlainFiles(files));
    if !IsMetadata(path) && HasPath(files, path) {
      var f :| f in files && f.path == path;
      assert f in PlainFiles(files);
    }
    if HasPath(PlainFiles(files), path) {
      var f :| f in PlainFiles(files) && f.path == path;
      assert f in files;
    }
  }

  lemma PassesExactly(files: seq<File>, path: string, accepts: string -> bool)
    requires DistinctPaths(files)
    ensures TextPasses(files, path, accepts) <==> (TextAt(files, path).Some? ==> accepts(TextAt(files, path).value))
  {
    if TextAt(files, path).Some? { TextAtExactly(files, path, TextAt(files, path).value); }
    forall text | File(path, Text(text)) in files ensures TextAt(files, path) == Some(text) {
      TextAtExactly(files, path, text);
    }
  }

  lemma AssembledExactly(lib: Library, parts: Parts)
    ensures AssembleFrom(lib, parts).Ok? <==>
              && lib.manifest(parts.manifestToml).Some?
              && var info := lib.manifest(parts.manifestToml).value;
                 && (info.wrapper ==> info.wrapperFn.Some? && lib.isIdent(info.wrapperFn.value))
                 && FirstBadFile(parts.files).None?
                 && HasPath(SortFiles(parts.files), info.entrypoint)
                 && (parts.schemaJson.Some? ==> lib.isSchema(parts.schemaJson.value))
                 && (parts.fixtureJson.Some? ==> lib.isJson(parts.fixtureJson.value))
  {
  }

  /** The checks on a sorted tree of valid paths with a manifest. */
  lemma TreeExactly(lib: Library, tree: seq<File>, toml: string)
    requires Sorted(tree) && AllPaths(tree) && File("template.toml", Text(toml)) in tree
    ensures AssembleFrom(lib, PartsOf(tree)).Ok? <==>
              && ManifestFits(lib, tree, toml)
              && (forall f :: f in tree ==> !IsReserved(f.path))
              && TextPasses(tree, "schema.json", lib.isSchema)
              && TextPasses(tree, "fixture.json", lib.isJson)
  {
    SortOfSorted(tree);
    TextAtExactly(tree, "template.toml", toml);
    AssembledExactly(lib, PartsOf(tree));
    BadFileExactly(PlainFiles(tree));
    PlainFilesExactly(tree);
    PassesExactly(tree, "schema.json", lib.isSchema);
    PassesExactly(tree, "fixture.json", lib.isJson);
    if lib.manifest(toml).Some? { EntrypointThere(tree, lib.manifest(toml).value.entrypoint); }
    forall f | f in tree && IsMetadata(f.path) ensures !IsReserved(f.path) {
      MetadataIsNotReserved(f.path);
    }
  }

  lemma MetadataIsNotReserved(path: string)
    requires IsMetadata(path)
    ensures !IsReserved(path)
  {
    assert path[0] != '_';
  }

  /** Which uploads become a template, on the files as they are sent: a small enough bundle of
      valid, different paths, with text for metadata, a manifest that fits its files, no
      reserved name, a schema that is one, and a fixture that is JSON. */
  lemma SourceAcceptedExactly(lib: Library, files: seq<File>, maxBytes: nat)
    ensures FromSourceFiles(lib, files, maxBytes).Ok? <==>
              && Acceptable("template.toml", files, maxBytes)
              && MetadataIsText(files)
              && (exists toml :: File("template.toml", Text(toml)) in files && ManifestFits(lib, files, toml))
              && (forall f :: f in files ==> !("__" <= f.path))
              && TextPasses(files, "schema.json", lib.isSchema)
              && TextPasses(files, "fixture.json", lib.isJson)
  {
    BundleExactly("template.toml", files, maxBytes);
    if Acceptable("template.toml", files, maxBytes) {
      var tree := SortFiles(files);
      BinaryMetadataExactly(tree);
      SamePasses(lib, files, tree);
      if MetadataIsText(files) {
        assert IsMetadata("template.toml");
        var f :| f in files && f.path == "template.toml";
        TreeExactly(lib, tree, f.content.text);
        OnlyOneManifest(files, f);
      }
    }
  }

  lemma OnlyOneManifest(files: seq<File>, f: File)
    requires DistinctPaths(files) && f in files && f.content.Text? && f.path == "template.toml"
    ensures forall toml :: File("template.toml", Text(toml)) in files ==> toml == f.content.text
  {
  }

  lemma SamePasses(lib: Library, files: seq<File>, tree: seq<File>)
    requires forall f :: f in tree <==> f in files
    ensures MetadataIsText(tree) <==> MetadataIsText(files)
    ensures AllPaths(tree) <==> AllPaths(files)
    ensures forall path :: HasPath(tree, path) <==> HasPath(files, path)
    ensures forall toml :: ManifestFits(lib, tree, toml) <==> ManifestFits(lib, files, toml)
    ensures forall path, accepts :: TextPasses(tree, path, accepts) <==> TextPasses(files, path, accepts)
  {
    forall path ensures HasPath(tree, path) <==> HasPath(files, path) {
      if HasPath(tree, path) { var f :| f in tree && f.path == path; assert f in files; }
      if HasPath(files, path) { var f :| f in files && f.path == path; assert f in tree; }
    }
  }

  // ---- Through the archive ----

  /** A file as the archive gives it back: text or binary is decided afresh. */
  function Reread(lib: Library, f: File): File {
    File(f.path, ContentOf(lib, f.path, Bytes(lib, f.content)))
  }

  function RereadAll(lib: Library, files: seq<File>): (r: seq<File>)
    ensures |r| == |files|
  {
    seq(|files|, i requires 0 <= i < |files| => Reread(lib, files[i]))
  }

  lemma RereadKeepsBytes(lib: Library, f: File)
    requires Lawful(lib)
    ensures Bytes(lib, Reread(lib, f).content) == Bytes(lib, f.content)
    ensures Size(Reread(lib, f).content) == Size(f.content) == |Bytes(lib, f.content)|
  {
    var bytes := Bytes(lib, f.content);
    var text := lib.decodeUtf8(bytes);
    if text.Some? {
      assert lib.encodeUtf8(text.value) == bytes;
    }
    if f.content.Text? {
      assert |lib.encodeUtf8(f.content.text)| == ByteLength(f.content.text);
    }
  }

  lemma {:induction false} RereadKeepsSize(lib: Library, files: seq<File>, n: nat)
    requires Lawful(lib) && n <= |files|
    ensures TotalSize(RereadAll(lib, files)[..n]) == TotalSize(files[..n]) == Contents(MembersOf(lib, files)[..n])
  {
    if n > 0 {
      RereadKeepsSize(lib, files, n - 1);
      RereadKeepsBytes(lib, files[n - 1]);
      assert files[..n][..n - 1] == files[..n - 1];
      assert RereadAll(lib, files)[..n][..n - 1] == RereadAll(lib, files)[..n - 1];
      assert MembersOf(lib, files)[..n][..n - 1] == MembersOf(lib, files)[..n - 1];
    }
  }

  lemma {:induction false} TotalGrows(files: seq<File>, n: nat)
    requires n <= |files|
    ensures TotalSize(files[..n]) <= TotalSize(files)
    decreases |files| - n
  {
    if n == |files| {
      assert files[..n] == files;
    } else {
      assert files[..n + 1][..n] == files[..n];
      TotalGrows(files, n + 1);
    }
  }

  lemma DecodesOne(lib: Library, f: File, count: nat, total: nat, maxBytes: nat)
    requires Lawful(lib) && IsPath(f.path) && count < MAX_FILES
    requires total + |Bytes(lib, f.content)| <= maxBytes
    ensures DecodeMember(lib, MemberOf(lib, f), count, total, maxBytes) == Ok(Reread(lib, f))
  {
    PathIsKeptOrRefused(f.path);
    assert lib.decodeUtf8(lib.encodeUtf8(f.path)) == Some(f.path);
  }

  lemma NextFits(lib: Library, files: seq<File>, n: nat, maxBytes: nat)
    requires Lawful(lib) && TotalSize(files) <= maxBytes && n < |files|
    ensures Contents(MembersOf(lib, files)[..n]) + |Bytes(lib, files[n].content)| <= maxBytes
  {
    assert files[..n + 1][..n] == files[..n];
    RereadKeepsSize(lib, files, n);
    RereadKeepsBytes(lib, files[n]);
    TotalGrows(files, n + 1);
  }

  lemma DecodesNext(lib: Library, files: seq<File>, n: nat, maxBytes: nat)
    requires Lawful(lib) && AllPaths(files) && |files| <= MAX_FILES && TotalSize(files) <= maxBytes && n < |files|
    ensures (DecodeMember(lib, MembersOf(lib, files)[n], n, Contents(MembersOf(lib, files)[..n]), maxBytes)
             == Ok(Reread(lib, files[n])))
  {
    assert files[n] in files;
    NextFits(lib, files, n, maxBytes);
    DecodesOne(lib, files[n], n, Contents(MembersOf(lib, files)[..n]), maxBytes);
  }

  lemma DecodesAll(lib: Library, files: seq<File>, maxBytes: nat)
    requires Lawful(lib) && AllPaths(files) && |files| <= MAX_FILES && TotalSize(files) <= maxBytes
    ensures Decoded(lib, MembersOf(lib, files), |files|, maxBytes) == Ok(RereadAll(lib, files))
  {
    var decode, members, again := MemberDecoding(lib, maxBytes), MembersOf(lib, files), RereadAll(lib, files);
    forall k | 0 <= k < |files| ensures decode(members[k], k, Contents(members[..k])) == Ok(again[k]) {
      DecodesNext(lib, files, k, maxBytes);
    }
    DecodedExactly(decode, members, |files|, again);
  }

  lemma EntryIsSmall(lib: Library, f: File)
    requires Lawful(lib) && IsPath(f.path)
    ensures EntrySize(MemberOf(lib, f)) <= Size(f.content) + 2047
  {
    RereadKeepsBytes(lib, f);
    assert |lib.encodeUtf8(f.path)| == ByteLength(f.path);
  }

  lemma {:induction false} EntriesAreSmall(lib: Library, files: seq<File>, n: nat)
    requires Lawful(lib) && AllPaths(files) && n <= |files|
    ensures EntrySizes(MembersOf(lib, files)[..n]) <= TotalSize(files[..n]) + 2047 * n
  {
    if n > 0 {
      EntriesAreSmall(lib, files, n - 1);
      assert files[n - 1] in files;
      EntryIsSmall(lib, files[n - 1]);
      assert files[..n][..n - 1] == files[..n - 1];
      assert MembersOf(lib, files)[..n][..n - 1] == MembersOf(lib, files)[..n - 1];
    }
  }

  /** The framing of 64 files with the longest paths still fits the allowance. */
  lemma ArchiveFits(lib: Library, files: seq<File>, maxBytes: nat)
    requires Lawful(lib) && AllPaths(files) && |files| <= MAX_FILES && TotalSize(files) <= maxBytes
    ensures |lib.pack(MembersOf(lib, files))| <= maxBytes + MAX_ARCHIVE_OVERHEAD_BYTES
  {
    EntriesAreSmall(lib, files, |files|);
    assert files[..|files|] == files && MembersOf(lib, files)[..|files|] == MembersOf(lib, files);
  }

  lemma ArchiveIsNotGzip(lib: Library, files: seq<File>)
    requires Lawful(lib) && AllPaths(files) && files != []
    ensures !IsGzip(lib.pack(MembersOf(lib, files)))
  {
    var path := files[0].path;
    assert files[0] in files;
    PathIsKeptOrRefused(path);
    assert IsAllowed(path[0]);
    assert MembersOf(lib, files)[0].path == lib.encodeUtf8(path);
  }

  lemma RereadIsSorted(lib: Library, files: seq<File>)
    requires Sorted(files)
    ensures Sorted(RereadAll(lib, files)) && SortFiles(RereadAll(lib, files)) == RereadAll(lib, files)
    ensures DistinctPaths(RereadAll(lib, files))
  {
    var again := RereadAll(lib, files);
    forall i, j | 0 <= i < j < |again| ensures Before(again[i], again[j]) {
      assert Before(files[i], files[j]);
    }
    SortOfSorted(again);
  }

  lemma RereadHasPath(lib: Library, files: seq<File>, path: string)
    ensures HasPath(RereadAll(lib, files), path) <==> HasPath(files, path)
  {
    var again := RereadAll(lib, files);
    if HasPath(files, path) {
      var i :| 0 <= i < |files| && files[i].path == path;
      assert again[i] in again;
    }
    if HasPath(again, path) {
      var i :| 0 <= i < |again| && again[i].path == path;
      assert files[i] in files;
    }
  }

  lemma ExtensionMakesText(stem: string, extension: string)
    requires extension in TEXT_EXTENSIONS && Lacks(extension, '.')
    ensures IsText(stem + "." + extension)
  {
    LastPart(stem, extension, '.');
  }

  lemma MetadataNamesAreText(path: string)
    requires IsMetadata(path)
    ensures IsText(path)
  {
    assert TEXT_EXTENSIONS[0] == "typ" && TEXT_EXTENSIONS[1] == "json" && TEXT_EXTENSIONS[5] == "toml";
    if path == "template.toml" {
      ExtensionMakesText("template", "toml");
      assert "template" + "." + "toml" == path;
    } else if path == "schema.json" {
      ExtensionMakesText("schema", "json");
      assert "schema" + "." + "json" == path;
    } else if path == "fixture.json" {
      ExtensionMakesText("fixture", "json");
      assert "fixture" + "." + "json" == path;
    } else {
      ExtensionMakesText("fixture.body", "typ");
      assert "fixture.body" + "." + "typ" == path;
    }
  }

  /** Metadata is text by its names, so it stays text. */
  lemma RereadMetadata(lib: Library, f: File)
    requires Lawful(lib) && IsMetadata(f.path) && f.content.Text?
    ensures Reread(lib, f) == f
  {
    MetadataNamesAreText(f.path);
    assert lib.decodeUtf8(lib.encodeUtf8(f.content.text)) == Some(f.content.text);
  }

  lemma RereadMetadataAll(lib: Library, files: seq<File>)
    requires Lawful(lib) && MetadataIsText(files)
    ensures MetadataIsText(RereadAll(lib, files))
  {
    forall g | g in RereadAll(lib, files) ensures IsMetadata(g.path) ==> g.content.Text? {
      var i :| 0 <= i < |files| && RereadAll(lib, files)[i] == g;
      assert files[i] in files;
      if IsMetadata(g.path) {
        RereadMetadata(lib, files[i]);
      }
    }
  }

  lemma {:induction false} RereadText(lib: Library, files: seq<File>, n: nat, path: string)
    requires Lawful(lib) && MetadataIsText(files) && IsMetadata(path) && n <= |files|
    ensures TextAt(RereadAll(lib, files)[..n], path) == TextAt(files[..n], path)
  {
    if n > 0 {
      RereadText(lib, files, n - 1, path);
      assert files[..n][..n - 1] == files[..n - 1];
      assert RereadAll(lib, files)[..n][..n - 1] == RereadAll(lib, files)[..n - 1];
      assert files[n - 1] in files;
      if files[n - 1].path == path {
        RereadMetadata(lib, files[n - 1]);
      }
    }
  }

  lemma {:induction false} RereadPlain(lib: Library, files: seq<File>, n: nat)
    requires n <= |files|
    ensures PlainFiles(RereadAll(lib, files)[..n]) == RereadAll(lib, PlainFiles(files[..n]))
  {
    if n > 0 {
      RereadPlain(lib, files, n - 1);
      assert files[..n][..n - 1] == files[..n - 1];
      assert RereadAll(lib, files)[..n][..n - 1] == RereadAll(lib, files)[..n - 1];
    }
  }

  lemma {:induction false} RereadBadFile(lib: Library, files: seq<File>)
    ensures FirstBadFile(RereadAll(lib, files)) == FirstBadFile(files)
  {
    if files != [] {
      RereadBadFile(lib, files[1..]);
      assert RereadAll(lib, files)[1..] == RereadAll(lib, files[1..]);
    }
  }

  lemma RereadParts(lib: Library, tree: seq<File>)
    requires Lawful(lib) && MetadataIsText(tree)
    ensures PartsOf(RereadAll(lib, tree)) == PartsOf(tree).(files := RereadAll(lib, PlainFiles(tree)))
  {
    var again := RereadAll(lib, tree);
    assert tree[..|tree|] == tree && again[..|tree|] == again;
    RereadPlain(lib, tree, |tree|);
    RereadText(lib, tree, |tree|, "template.toml");
    RereadText(lib, tree, |tree|, "schema.json");
    RereadText(lib, tree, |tree|, "fixture.json");
    RereadText(lib, tree, |tree|, "fixture.body.typ");
  }

  /** Assembly looks at paths and metadata only. */
  lemma AssemblesAgain(lib: Library, parts: Parts)
    requires AssembleFrom(lib, parts).Ok? && Sorted(parts.files)
    ensures AssembleFrom(lib, parts.(files := RereadAll(lib, parts.files))).Ok?
  {
    var again := RereadAll(lib, parts.files);
    RereadBadFile(lib, parts.files);
    RereadIsSorted(lib, parts.files);
    SortOfSorted(parts.files);
    RereadHasPath(lib, parts.files, lib.manifest(parts.manifestToml).value.entrypoint);
  }

  lemma {:induction false} SizeFromFront(f: File, files: seq<File>)
    ensures TotalSize([f] + files) == Size(f.content) + TotalSize(files)
  {
    var all := [f] + files;
    if files == [] {
      assert all[..0] == [];
    } else {
      var most := files[..|files| - 1];
      assert all[..|all| - 1] == [f] + most;
      SizeFromFront(f, most);
    }
  }

  lemma {:induction false} InsertAddsOne(files: seq<File>, f: File)
    requires !HasPath(files, f.path)
    ensures |Insert(files, f)| == |files| + 1 && TotalSize(Insert(files, f)) == TotalSize(files) + Size(f.content)
  {
    SizeFromFront(f, files);
    if files != [] && !Less(f.path, files[0].path) {
      assert files[0] in files && files == [files[0]] + files[1..];
      InsertAddsOne(files[1..], f);
      SizeFromFront(files[0], files[1..]);
      SizeFromFront(files[0], Insert(files[1..], f));
    }
  }

  lemma {:induction false} SortKeepsSize(files: seq<File>)
    requires DistinctPaths(files)
    ensures |SortFiles(files)| == |files| && TotalSize(SortFiles(files)) == TotalSize(files)
  {
    if files != [] {
      var most, last := files[..|files| - 1], files[|files| - 1];
      assert files == most + [last];
      SortKeepsSize(most);
      LastPathIsNew(most, last);
      InsertAddsOne(SortFiles(most), last);
    }
  }

  lemma RereadIsPaths(lib: Library, files: seq<File>)
    requires AllPaths(files)
    ensures AllPaths(RereadAll(lib, files))
  {
    forall g | g in RereadAll(lib, files) ensures IsPath(g.path) {
      var i :| 0 <= i < |files| && RereadAll(lib, files)[i] == g;
      assert files[i] in files;
    }
  }

  /** The sorted tree is within the limits its files were within. */
  lemma TreeIsBundle(main: string, files: seq<File>, maxBytes: nat)
    requires BundleOf(main, files, maxBytes).Ok?
    ensures Sorted(SortFiles(files)) && BundleOf(main, SortFiles(files), maxBytes).Ok?
  {
    var tree := SortFiles(files);
    BundleExactly(main, files, maxBytes);
    SortKeepsSize(files);
    SortOfSorted(tree);
    var f :| f in files && f.path == main;
    assert f in tree;
    BundleExactly(main, tree, maxBytes);
  }

  lemma RereadIsAcceptable(lib: Library, main: string, tree: seq<File>, maxBytes: nat)
    requires Lawful(lib) && Sorted(tree) && Acceptable(main, tree, maxBytes)
    ensures Acceptable(main, RereadAll(lib, tree), maxBytes)
  {
    RereadHasPath(lib, tree, main);
    RereadIsPaths(lib, tree);
    RereadIsSorted(lib, tree);
    RereadTotal(lib, tree);
  }

  lemma RereadTotal(lib: Library, tree: seq<File>)
    requires Lawful(lib)
    ensures TotalSize(RereadAll(lib, tree)) == TotalSize(tree)
  {
    RereadKeepsSize(lib, tree, |tree|);
    assert tree[..|tree|] == tree && RereadAll(lib, tree)[..|tree|] == RereadAll(lib, tree);
  }

  /** ... and so is what is reread of it. */
  lemma RereadIsBundle(lib: Library, main: string, tree: seq<File>, maxBytes: nat)
    requires Lawful(lib) && Sorted(tree) && BundleOf(main, tree, maxBytes).Ok?
    ensures BundleOf(main, RereadAll(lib, tree), maxBytes).Ok?
  {
    BundleExactly(main, tree, maxBytes);
    RereadIsAcceptable(lib, main, tree, maxBytes);
    BundleExactly(main, RereadAll(lib, tree), maxBytes);
  }

  lemma RereadIsAccepted(lib: Library, files: seq<File>, maxBytes: nat)
    requires Lawful(lib) && FromSourceFiles(lib, files, maxBytes).Ok?
    ensures FromSourceFiles(lib, RereadAll(lib, SortFiles(files)), maxBytes).Ok?
  {
    var tree := SortFiles(files);
    var again := RereadAll(lib, tree);
    BuiltExactly(lib, files, maxBytes);
    TreeIsBundle("template.toml", files, maxBytes);
    RereadIsBundle(lib, "template.toml", tree, maxBytes);
    BundleExactly("template.toml", again, maxBytes);
    RereadIsSorted(lib, tree);
    RereadMetadataAll(lib, tree);
    BinaryMetadataExactly(again);
    RereadParts(lib, tree);
    PlainFilesExactly(tree);
    AssemblesAgain(lib, PartsOf(tree));
  }

  lemma SameMembers(lib: Library, files: seq<File>)
    requires Lawful(lib)
    ensures MembersOf(lib, RereadAll(lib, files)) == MembersOf(lib, files)
  {
    var again := RereadAll(lib, files);
    forall i | 0 <= i < |files| ensures MemberOf(lib, again[i]) == MemberOf(lib, files[i]) {
      RereadKeepsBytes(lib, files[i]);
    }
  }

  lemma ArchiveUnpacks(lib: Library, tree: seq<File>, maxBytes: U64)
    requires Lawful(lib) && AllPaths(tree) && |tree| <= MAX_FILES && TotalSize(tree) <= maxBytes && tree != []
    requires |lib.pack(MembersOf(lib, tree))| <= U64_MAX
    ensures !IsGzip(lib.pack(MembersOf(lib, tree)))
    ensures (lib.unpack(lib.pack(MembersOf(lib, tree)), SaturatingAdd(maxBytes, MAX_ARCHIVE_OVERHEAD_BYTES))
             == Unpacked(MembersOf(lib, tree), true))
  {
    ArchiveFits(lib, tree, maxBytes);
    ArchiveIsNotGzip(lib, tree);
  }

  lemma UnpackedIsDecoded(lib: Library, bytes: seq<Byte>, members: seq<Member>, maxBytes: U64, files: seq<File>)
    requires !IsGzip(bytes)
    requires lib.unpack(bytes, SaturatingAdd(maxBytes, MAX_ARCHIVE_OVERHEAD_BYTES)) == Unpacked(members, true)
    requires Decoded(lib, members, |members|, maxBytes) == Ok(files)
    ensures FromArchive(lib, bytes, maxBytes) == FromSourceFiles(lib, files, maxBytes)
  {
  }

  lemma AcceptableDecodes(lib: Library, main: string, tree: seq<File>, maxBytes: U64)
    requires Lawful(lib) && Acceptable(main, tree, maxBytes)
    ensures Decoded(lib, MembersOf(lib, tree), |tree|, maxBytes) == Ok(RereadAll(lib, tree)) && tree != []
  {
    DecodesAll(lib, tree, maxBytes);
  }

  /** What the archive of a tree decodes to. */
  lemma ArchiveDecodes(lib: Library, main: string, tree: seq<File>, maxBytes: U64)
    requires Lawful(lib) && Acceptable(main, tree, maxBytes)
    requires |lib.pack(MembersOf(lib, tree))| <= U64_MAX
    ensures (FromArchive(lib, lib.pack(MembersOf(lib, tree)), maxBytes)
             == FromSourceFiles(lib, RereadAll(lib, tree), maxBytes))
  {
    AcceptableDecodes(lib, main, tree, maxBytes);
    ArchiveUnpacks(lib, tree, maxBytes);
    UnpackedIsDecoded(lib, lib.pack(MembersOf(lib, tree)), MembersOf(lib, tree), maxBytes, RereadAll(lib, tree));
  }

  /** The source-tree round trip. A template built from files within a byte limit has an
      archive that decodes within the same limit, to a template with the same source: the
      same paths and bytes in the same order, and the same metadata text. Only whether a
      file counts as text is decided afresh. */
  lemma SourceTreeRoundTrip(lib: Library, files: seq<File>, maxBytes: U64) returns (t: Template, again: Template)
    requires Lawful(lib) && FromSourceFiles(lib, files, maxBytes).Ok?
    requires |ToArchive(lib, FromSourceFiles(lib, files, maxBytes).value)| <= U64_MAX
    ensures FromSourceFiles(lib, files, maxBytes) == Ok(t)
    ensures FromArchive(lib, ToArchive(lib, t), maxBytes) == Ok(again)
    ensures MembersOf(lib, SourceFiles(again)) == MembersOf(lib, SourceFiles(t))
    ensures ToArchive(lib, again) == ToArchive(lib, t)
    ensures again.manifestToml == t.manifestToml && again.schemaJson == t.schemaJson
    ensures again.fixtureJson == t.fixtureJson && again.exampleBody == t.exampleBody
  {
    var tree := SortFiles(files);
    t := FromSourceFiles(lib, files, maxBytes).value;
    BuiltExactly(lib, files, maxBytes);
    SourceFilesOfBuilt(t, tree);
    TreeIsBundle("template.toml", files, maxBytes);
    BundleExactly("template.toml", tree, maxBytes);
    ArchiveDecodes(lib, "template.toml", tree, maxBytes);
    RereadIsAccepted(lib, files, maxBytes);
    again := FromSourceFiles(lib, RereadAll(lib, tree), maxBytes).value;
    SameSource(lib, tree, maxBytes, t, again);
  }

  lemma SameSource(lib: Library, tree: seq<File>, maxBytes: nat, t: Template, again: Template)
    requires Lawful(lib) && BuiltFrom(t, tree) && FromSourceFiles(lib, RereadAll(lib, tree), maxBytes) == Ok(again)
    ensures SourceFiles(again) == RereadAll(lib, tree)
    ensures MembersOf(lib, SourceFiles(again)) == MembersOf(lib, tree)
    ensures again.manifestToml == t.manifestToml && again.schemaJson == t.schemaJson
    ensures again.fixtureJson == t.fixtureJson && again.exampleBody == t.exampleBody
  {
    BuiltExactly(lib, RereadAll(lib, tree), maxBytes);
    RereadIsSorted(lib, tree);
    SourceFilesOfBuilt(again, RereadAll(lib, tree));
    SameMembers(lib, tree);
    RereadParts(lib, tree);
  }

  lemma BeginsWith(two: seq<Byte>, s: seq<Byte>)
    requires |two| == 2
    ensures two <= s <==> |s| >= 2 && s[0] == two[0] && s[1] == two[1]
  {
    if two <= s { assert s[..2] == two; }
  }

  /** A gzip file of an archive, known by the magic number of section 2.3.1 of RFC 1952, is read
      as the archive in it. */
  lemma GzipIsTransparent(lib: Library, magic: seq<Byte>, archive: seq<Byte>, zipped: seq<Byte>, maxBytes: U64)
    requires magic == [0x1f, 0x8b] && magic <= zipped && !(magic <= archive) && lib.gunzip(zipped) == archive
    ensures FromArchive(lib, zipped, maxBytes) == FromArchive(lib, archive, maxBytes)
  {
    BeginsWith(magic, zipped);
    BeginsWith(magic, archive);
  }
}
