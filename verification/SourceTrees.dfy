/** A template's source tree and its archive: `from_source_files`, `source_files`,
    `to_archive` and `from_archive` of `src/templates.rs`. */
module SourceTrees {
  import opened Wrappers
  import opened Texts
  import opened Words
  import opened Paths
  import opened FileTrees
  import opened Bundles

  const MAX_ARCHIVE_OVERHEAD_BYTES: nat := 256 * 1024

  /** What the loader reads in a manifest. */
  datatype ManifestInfo = ManifestInfo(wrapper: bool, wrapperFn: Option<string>, entrypoint: string)

  /** One archive member: its path bytes, whether it is a regular file, the size its header
      declares, and the bytes it delivers before it ends or, when it is not intact, fails. */
  datatype Member = Member(path: seq<Byte>, isFile: bool, declared: nat, bytes: seq<Byte>, intact: bool)

  /** What reads of an archive: its members, and whether it ends after them or breaks off. */
  datatype Unpacked = Unpacked(members: seq<Member>, whole: bool)

  /** Members as an archive is written from: plain files of the size they declare. */
  predicate Written(members: seq<Member>) {
    forall m | m in members :: m.isFile && m.declared == |m.bytes| && m.intact
  }

  /** Foreign code: UTF-8, TOML, JSON, JSON Schema, tar and gzip. `unpack` reads a tar
      through a byte limit. */
  datatype Library = Library(
    encodeUtf8: string -> seq<Byte>,
    decodeUtf8: seq<Byte> -> Option<string>,
    manifest: string -> Option<ManifestInfo>,
    isIdent: string -> bool,
    isSchema: string -> bool,
    isJson: string -> bool,
    pack: seq<Member> -> seq<Byte>,
    unpack: (seq<Byte>, nat) -> Unpacked,
    gunzip: seq<Byte> -> seq<Byte>)

  function RoundUp(n: nat): nat {
    (n + 511) / 512 * 512
  }

  /** Bytes of one tar entry: a header block, padded contents, and for a long name two
      more blocks in front. */
  function EntrySize(m: Member): nat {
    512 + RoundUp(|m.bytes|) + (if |m.path| > 100 then 512 + RoundUp(|m.path| + 1) else 0)
  }

  function EntrySizes(members: seq<Member>): nat {
    if members == [] then 0 else EntrySizes(members[..|members| - 1]) + EntrySize(members[|members| - 1])
  }

  /** A tar is its entries and two closing blocks, and starts like its first path or with a
      dot; reading it back through a limit it fits gives its entries. */
  ghost predicate Lawful(lib: Library) {
    && (forall s: string :: lib.decodeUtf8(lib.encodeUtf8(s)) == Some(s) && |lib.encodeUtf8(s)| == ByteLength(s))
    && (forall b: seq<Byte> :: lib.decodeUtf8(b).Some? ==> lib.encodeUtf8(lib.decodeUtf8(b).value) == b)
    && (forall s: string :: s != "" && s[0] < '\U{80}' ==>
          lib.encodeUtf8(s) != [] && lib.encodeUtf8(s)[0] == s[0] as int)
    && (forall ms: seq<Member> :: Written(ms) ==> |lib.pack(ms)| == EntrySizes(ms) + 1024)
    && (forall ms: seq<Member> ::
          Written(ms) && ms != [] && ms[0].path != [] ==>
            lib.pack(ms)[0] == ms[0].path[0] || lib.pack(ms)[0] == '.' as int)
    && (forall ms: seq<Member>, limit: nat ::
          Written(ms) && |lib.pack(ms)| <= limit ==> lib.unpack(lib.pack(ms), limit) == Unpacked(ms, true))
  }

  datatype Problem =
    | BadManifest
    | NoWrapperFn
    | BadWrapperFn(value: string)
    | ReservedName(path: string)
    | BadMemberPath(path: string, pathError: PathError)
    | MissingEntrypoint(entrypoint: string)
    | BadSchema
    | BadFixture
    | NonTextMetadata(path: string)
    | NonFileMember(path: string)
    | BadArchive
    | BadBundle(error: BundleError)

  // ---- Building a template from its files ----

  datatype Parts = Parts(
    manifestToml: string, files: seq<File>,
    schemaJson: Option<string>, fixtureJson: Option<string>, fixtureBody: Option<string>)

  datatype Template = Template(
    manifestToml: string, files: seq<File>,
    schemaJson: Option<string>, fixtureJson: Option<string>, exampleBody: Option<string>)

  predicate IsReserved(path: string) {
    "__" <= path
  }

  /** The first file a template may not hold. */
  function FirstBadFile(files: seq<File>): Option<Problem> {
    if files == [] then None
    else if IsReserved(files[0].path) then Some(ReservedName(files[0].path))
    else
      match Normalised(files[0].path)
      case Err(e) => Some(BadMemberPath(files[0].path, e))
      case Ok(_) => FirstBadFile(files[1..])
  }

  /** `assemble_from`. */
  function AssembleFrom(lib: Library, parts: Parts): Result<Template, Problem> {
    match lib.manifest(parts.manifestToml)
    case None => Err(BadManifest)
    case Some(info) =>
      if info.wrapper && info.wrapperFn.None? then Err(NoWrapperFn)
      else if info.wrapper && !lib.isIdent(info.wrapperFn.value) then Err(BadWrapperFn(info.wrapperFn.value))
      else
        match FirstBadFile(parts.files)
        case Some(e) => Err(e)
        case None =>
          if !HasPath(SortFiles(parts.files), info.entrypoint) then Err(MissingEntrypoint(info.entrypoint))
          else if parts.schemaJson.Some? && !lib.isSchema(parts.schemaJson.value) then Err(BadSchema)
          else if parts.fixtureJson.Some? && !lib.isJson(parts.fixtureJson.value) then Err(BadFixture)
          else Ok(Template(parts.manifestToml, SortFiles(parts.files), parts.schemaJson,
                           parts.fixtureJson, parts.fixtureBody))
  }

  predicate IsMetadata(path: string) {
    path == "template.toml" || path == "schema.json" || path == "fixture.json" || path == "fixture.body.typ"
  }

  function PlainFiles(files: seq<File>): seq<File> {
    if files == [] then []
    else
      var last := files[|files| - 1];
      PlainFiles(files[..|files| - 1]) + (if IsMetadata(last.path) then [] else [last])
  }

  /** The text of a metadata file. */
  function TextAt(files: seq<File>, path: string): Option<string> {
    if files == [] then None
    else
      var last := files[|files| - 1];
      if last.path == path && last.content.Text? then Some(last.content.text)
      else TextAt(files[..|files| - 1], path)
  }

  function FirstBinaryMetadata(files: seq<File>): Option<string> {
    if files == [] then None
    else if IsMetadata(files[0].path) && files[0].content.Binary? then Some(files[0].path)
    else FirstBinaryMetadata(files[1..])
  }

  function PartsOf(tree: seq<File>): Parts {
    Parts(TextAt(tree, "template.toml").UnwrapOr(""), PlainFiles(tree), TextAt(tree, "schema.json"),
          TextAt(tree, "fixture.json"), TextAt(tree, "fixture.body.typ"))
  }

  /** `from_source_files`. */
  function FromSourceFiles(lib: Library, files: seq<File>, maxBytes: nat): Result<Template, Problem> {
    match BundleOf("template.toml", files, maxBytes)
    case Err(e) => Err(BadBundle(e))
    case Ok(tree) =>
      match FirstBinaryMetadata(tree)
      case Some(path) => Err(NonTextMetadata(path))
      case None => AssembleFrom(lib, PartsOf(tree))
  }

  function TextFile(path: string, text: Option<string>): seq<File> {
    if text.Some? then [File(path, Text(text.value))] else []
  }

  /** `source_files`. */
  function SourceFiles(t: Template): seq<File> {
    SortFiles(t.files
              + [File("template.toml", Text(t.manifestToml))]
              + TextFile("schema.json", t.schemaJson)
              + TextFile("fixture.json", t.fixtureJson)
              + TextFile("fixture.body.typ", t.exampleBody))
  }

  // ---- Archives ----

  function Bytes(lib: Library, c: Content): seq<Byte> {
    match c
    case Text(text) => lib.encodeUtf8(text)
    case Binary(bytes) => bytes
  }

  function MemberOf(lib: Library, f: File): Member {
    var bytes := Bytes(lib, f.content);
    Member(lib.encodeUtf8(f.path), true, |bytes|, bytes, true)
  }

  function MembersOf(lib: Library, files: seq<File>): (r: seq<Member>)
    ensures |r| == |files|
  {
    seq(|files|, i requires 0 <= i < |files| => MemberOf(lib, files[i]))
  }

  /** `to_archive`. */
  function ToArchive(lib: Library, t: Template): seq<Byte> {
    lib.pack(MembersOf(lib, SourceFiles(t)))
  }

  const TEXT_EXTENSIONS := ["typ", "json", "csv", "yaml", "yml", "toml", "svg", "txt"]

  /** `is_text`: by what follows the last dot. */
  predicate IsText(path: string) {
    var parts := Split(path, '.');
    parts[|parts| - 1] in TEXT_EXTENSIONS
  }

  function ContentOf(lib: Library, path: string, bytes: seq<Byte>): Content {
    match lib.decodeUtf8(bytes)
    case Some(text) => if IsText(path) then Text(text) else Binary(bytes)
    case None => Binary(bytes)
  }

  function Contents(members: seq<Member>): nat {
    if members == [] then 0 else Contents(members[..|members| - 1]) + |members[|members| - 1].bytes|
  }

  /** Reading at most `n` bytes of a member; what would fail later is not met. */
  function Taken(m: Member, n: nat): Option<seq<Byte>> {
    if |m.bytes| >= n then Some(m.bytes[..n]) else if m.intact then Some(m.bytes) else None
  }

  /** One member, after `count` others holding `total` bytes. */
  function DecodeMember(lib: Library, m: Member, count: nat, total: nat, maxBytes: nat): Result<File, Problem> {
    match lib.decodeUtf8(m.path)
    case None => Err(BadArchive)
    case Some(path) =>
      match Normalised(path)
      case Err(e) => Err(BadMemberPath(path, e))
      case Ok(_) =>
        if !m.isFile then Err(NonFileMember(path))
        else if count >= MAX_FILES then Err(BadBundle(TooManyFiles(count + 1)))
        else if SaturatingAdd(total, m.declared) > maxBytes then
          Err(BadBundle(TooLarge(SaturatingAdd(total, m.declared), maxBytes)))
        else
          match Taken(m, SaturatingSub(maxBytes, total) + 1)
          case None => Err(BadArchive)
          case Some(content) =>
            if total + |content| > maxBytes then Err(BadBundle(TooLarge(total + |content|, maxBytes)))
            else Ok(File(path, ContentOf(lib, path, content)))
  }

  /** How one member is decoded, after a number of others holding so many bytes. */
  type Decoding = (Member, nat, nat) -> Result<File, Problem>

  /** The files of the first `n` members, or the first problem among them. */
  function DecodedBy(decode: Decoding, members: seq<Member>, n: nat): Result<seq<File>, Problem>
    requires n <= |members|
  {
    if n == 0 then Ok([])
    else
      match DecodedBy(decode, members, n - 1)
      case Err(e) => Err(e)
      case Ok(files) =>
        match decode(members[n - 1], n - 1, Contents(members[..n - 1]))
        case Err(e) => Err(e)
        case Ok(f) => Ok(files + [f])
  }

  function MemberDecoding(lib: Library, maxBytes: nat): Decoding {
    (m: Member, count: nat, total: nat) => DecodeMember(lib, m, count, total, maxBytes)
  }

  function Decoded(lib: Library, members: seq<Member>, n: nat, maxBytes: nat): Result<seq<File>, Problem>
    requires n <= |members|
  {
    DecodedBy(MemberDecoding(lib, maxBytes), members, n)
  }

  predicate IsGzip(bytes: seq<Byte>) {
    |bytes| >= 2 && bytes[0] == 0x1f && bytes[1] == 0x8b
  }

  /** `from_archive`. */
  function FromArchive(lib: Library, bytes: seq<Byte>, maxBytes: U64): Result<Template, Problem> {
    var tar := if IsGzip(bytes) then lib.gunzip(bytes) else bytes;
    var Unpacked(members, whole) := lib.unpack(tar, SaturatingAdd(maxBytes, MAX_ARCHIVE_OVERHEAD_BYTES));
    match Decoded(lib, members, |members|, maxBytes)
    case Err(e) => Err(e)
    case Ok(files) => if whole then FromSourceFiles(lib, files, maxBytes) else Err(BadArchive)
  }

  lemma {:induction false} DecodedErrorStays(decode: Decoding, members: seq<Member>, n: nat, m: nat)
    requires n <= m <= |members| && DecodedBy(decode, members, n).Err?
    ensures DecodedBy(decode, members, m) == DecodedBy(decode, members, n)
    decreases m
  {
    if n < m { DecodedErrorStays(decode, members, n, m - 1); }
  }

  /** Decoding gives these files exactly when every member decodes to its own. */
  lemma {:induction false} DecodedExactly(decode: Decoding, members: seq<Member>, n: nat, files: seq<File>)
    requires n == |files| <= |members|
    ensures DecodedBy(decode, members, n) == Ok(files)
       <==> forall k :: 0 <= k < n ==> decode(members[k], k, Contents(members[..k])) == Ok(files[k])
    decreases n
  {
    if n > 0 {
      var most, last := files[..n - 1], files[n - 1];
      DecodedExactly(decode, members, n - 1, most);
      assert files == most + [last];
      if DecodedBy(decode, members, n) == Ok(files) {
        DecodedLength(decode, members, n - 1);
        var before := DecodedBy(decode, members, n - 1).value;
        assert before == files[..n - 1];
      }
    }
  }

  lemma {:induction false} DecodedLength(decode: Decoding, members: seq<Member>, n: nat)
    requires n <= |members| && DecodedBy(decode, members, n).Ok?
    ensures |DecodedBy(decode, members, n).value| == n
    decreases n
  {
    if n > 0 { DecodedLength(decode, members, n - 1); }
  }

  /** What an accepted member is: a regular file with a valid path, read to its end. */
  ghost predicate ReadWhole(lib: Library, m: Member, f: File) {
    && lib.decodeUtf8(m.path) == Some(f.path) && IsPath(f.path) && m.isFile && m.intact
    && f.content == ContentOf(lib, f.path, m.bytes)
  }

  lemma AcceptedMember(lib: Library, m: Member, count: nat, total: nat, maxBytes: nat)
    requires total <= maxBytes && DecodeMember(lib, m, count, total, maxBytes).Ok?
    ensures ReadWhole(lib, m, DecodeMember(lib, m, count, total, maxBytes).value)
    ensures count < MAX_FILES && total + |m.bytes| <= maxBytes
  {
    PathIsKeptOrRefused(lib.decodeUtf8(m.path).value);
  }

  /** Every accepted member is one of at most 64 and within the byte limit. */
  ghost predicate KeepsLimits(decode: Decoding, maxBytes: nat) {
    forall m: Member, count: nat, total: nat :: total <= maxBytes && decode(m, count, total).Ok? ==>
      count < MAX_FILES && total + |m.bytes| <= maxBytes
  }

  lemma MemberDecodingKeepsLimits(lib: Library, maxBytes: nat)
    ensures KeepsLimits(MemberDecoding(lib, maxBytes), maxBytes)
  {
    forall m: Member, count: nat, total: nat
      | total <= maxBytes && MemberDecoding(lib, maxBytes)(m, count, total).Ok?
      ensures count < MAX_FILES && total + |m.bytes| <= maxBytes
    {
      AcceptedMember(lib, m, count, total, maxBytes);
    }
  }

  lemma {:induction false} DecodedKeepsLimits(decode: Decoding, members: seq<Member>, n: nat, maxBytes: nat)
    requires n <= |members| && KeepsLimits(decode, maxBytes) && DecodedBy(decode, members, n).Ok?
    ensures Contents(members[..n]) <= maxBytes && n <= MAX_FILES
    decreases n
  {
    if n > 0 {
      DecodedKeepsLimits(decode, members, n - 1, maxBytes);
      assert decode(members[n - 1], n - 1, Contents(members[..n - 1])).Ok?;
      assert members[..n][..n - 1] == members[..n - 1];
    }
  }

  lemma EarlierDecoded(decode: Decoding, members: seq<Member>, k: nat, n: nat)
    requires k <= n <= |members| && DecodedBy(decode, members, n).Ok?
    ensures DecodedBy(decode, members, k).Ok?
  {
    if DecodedBy(decode, members, k).Err? { DecodedErrorStays(decode, members, k, n); }
  }

  lemma AcceptedMembers(lib: Library, members: seq<Member>, maxBytes: nat)
    requires Decoded(lib, members, |members|, maxBytes).Ok?
    ensures Contents(members) <= maxBytes && |members| <= MAX_FILES
    ensures var files := Decoded(lib, members, |members|, maxBytes).value;
            |files| == |members| && forall k :: 0 <= k < |members| ==> ReadWhole(lib, members[k], files[k])
  {
    var decode, n := MemberDecoding(lib, maxBytes), |members|;
    var files := DecodedBy(decode, members, n).value;
    DecodedLength(decode, members, n);
    DecodedExactly(decode, members, n, files);
    MemberDecodingKeepsLimits(lib, maxBytes);
    DecodedKeepsLimits(decode, members, n, maxBytes);
    assert members[..n] == members;
    forall k | 0 <= k < n ensures ReadWhole(lib, members[k], files[k]) {
      EarlierDecoded(decode, members, k, n);
      DecodedKeepsLimits(decode, members, k, maxBytes);
      assert decode(members[k], k, Contents(members[..k])) == Ok(files[k]);
      AcceptedMember(lib, members[k], k, Contents(members[..k]), maxBytes);
    }
  }

  /** No archive that breaks off while it is read becomes a template: an accepted one gave
      every member in full, and what its headers declared never stood in for what was read. */
  lemma AcceptedArchiveIsWhole(lib: Library, bytes: seq<Byte>, maxBytes: U64) returns (files: seq<File>)
    requires FromArchive(lib, bytes, maxBytes).Ok?
    ensures var tar := if IsGzip(bytes) then lib.gunzip(bytes) else bytes;
            var unpacked := lib.unpack(tar, SaturatingAdd(maxBytes, MAX_ARCHIVE_OVERHEAD_BYTES));
            && unpacked.whole && Contents(unpacked.members) <= maxBytes
            && |files| == |unpacked.members| <= MAX_FILES
            && (forall k :: 0 <= k < |files| ==> ReadWhole(lib, unpacked.members[k], files[k]))
            && FromArchive(lib, bytes, maxBytes) == FromSourceFiles(lib, files, maxBytes)
  {
    var tar := if IsGzip(bytes) then lib.gunzip(bytes) else bytes;
    var members := lib.unpack(tar, SaturatingAdd(maxBytes, MAX_ARCHIVE_OVERHEAD_BYTES)).members;
    files := Decoded(lib, members, |members|, maxBytes).value;
    AcceptedMembers(lib, members, maxBytes);
  }

  /** The decoding loop of `from_archive`, with its running total. */
  method DecodeMembers(lib: Library, members: seq<Member>, maxBytes: U64) returns (r: Result<seq<File>, Problem>)
    ensures r == Decoded(lib, members, |members|, maxBytes)
  {
    var files: seq<File> := [];
    var total := 0;
    for i := 0 to |members|
      invariant Decoded(lib, members, i, maxBytes) == Ok(files) && |files| == i
      invariant total == Contents(members[..i])
    {
      assert members[..i + 1][..i] == members[..i];
      var check := DecodeMember(lib, members[i], |files|, total, maxBytes);
      if check.Err? {
        DecodedErrorStays(MemberDecoding(lib, maxBytes), members, i + 1, |members|);
        return Err(check.error);
      }
      total := total + |members[i].bytes|;
      files := files + [check.value];
    }
    r := Ok(files);
  }

  /** The loop of `from_source_files` that sets the metadata aside. */
  method SortOut(tree: seq<File>) returns (r: Result<Parts, Problem>)
    ensures match FirstBinaryMetadata(tree)
            case Some(path) => r == Err(NonTextMetadata(path))
            case None => r == Ok(PartsOf(tree))
  {
    var manifest, schema, fixture, body := None, None, None, None;
    var files: seq<File> := [];
    assert tree[0..] == tree;
    for i := 0 to |tree|
      invariant FirstBinaryMetadata(tree) == FirstBinaryMetadata(tree[i..])
      invariant files == PlainFiles(tree[..i])
      invariant manifest == TextAt(tree[..i], "template.toml") && schema == TextAt(tree[..i], "schema.json")
      invariant fixture == TextAt(tree[..i], "fixture.json") && body == TextAt(tree[..i], "fixture.body.typ")
    {
      assert tree[i..][1..] == tree[i + 1..] && tree[..i + 1][..i] == tree[..i];
      var f := tree[i];
      if IsMetadata(f.path) {
        if f.content.Binary? {
          return Err(NonTextMetadata(f.path));
        }
        if f.path == "template.toml" {
          manifest := Some(f.content.text);
        } else if f.path == "schema.json" {
          schema := Some(f.content.text);
        } else if f.path == "fixture.json" {
          fixture := Some(f.content.text);
        } else {
          body := Some(f.content.text);
        }
      } else {
        files := files + [f];
      }
    }
    assert tree[..|tree|] == tree;
    r := Ok(Parts(manifest.UnwrapOr(""), files, schema, fixture, body));
  }

  /** `from_source_files` as it runs. */
  method ReadSourceFiles(lib: Library, files: seq<File>, maxBytes: nat) returns (r: Result<Template, Problem>)
    ensures r == FromSourceFiles(lib, files, maxBytes)
  {
    var tree := NewBundle("template.toml", files, maxBytes);
    if tree.Err? {
      return Err(BadBundle(tree.error));
    }
    var parts := SortOut(tree.value);
    if parts.Err? {
      return Err(parts.error);
    }
    r := AssembleFrom(lib, parts.value);
  }

  /** `from_archive` as it runs. */
  method ReadArchive(lib: Library, bytes: seq<Byte>, maxBytes: U64) returns (r: Result<Template, Problem>)
    ensures r == FromArchive(lib, bytes, maxBytes)
  {
    var tar := if IsGzip(bytes) then lib.gunzip(bytes) else bytes;
    var unpacked := lib.unpack(tar, SaturatingAdd(maxBytes, MAX_ARCHIVE_OVERHEAD_BYTES));
    var files := DecodeMembers(lib, unpacked.members, maxBytes);
    if files.Err? {
      return Err(files.error);
    }
    if !unpacked.whole {
      return Err(BadArchive);
    }
    r := ReadSourceFiles(lib, files.value, maxBytes);
  }
}
