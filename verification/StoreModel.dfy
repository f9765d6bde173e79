/** The tenant store of `src/store.rs` as values: what is on disk, what the in-memory
    index says, and what each operation does to both. */
module StoreModel {
  import opened Wrappers
  import opened MapSums
  import opened Texts
  import opened Words

  type Tenant = string
  type Bytes = seq<Byte>

  datatype Kind = Output | Asset | Template

  datatype AssetRole = Image | Font | Data

  datatype Meta = Meta(filename: Option<string>, contentType: Option<string>, assetRole: Option<AssetRole>)

  datatype Key = Key(tenant: Tenant, kind: Kind, id: string)

  datatype Entry = Entry(id: string, kind: Kind, bytes: nat, createdAt: nat, expiresAt: nat, meta: Meta)

  datatype StoreError =
    | NotFound | Expired | BadId | AlreadyExists | WriteFailed
    | TenantFull(size: nat, limit: nat)
    | TenantEntriesFull(limit: nat)

  datatype Limits = Limits(
    outputTtl: nat, assetTtl: nat, templateTtl: nat,
    maxTenantBytes: nat, maxStoreBytes: nat, maxTenantEntries: nat, maxStoreEntries: nat)
  {
    function Ttl(kind: Kind): nat {
      match kind
      case Output => outputTtl
      case Asset => assetTtl
      case Template => templateTtl
    }

    /** The byte ceilings leave room in 64 bits for one more payload. */
    predicate Fits() {
      maxTenantBytes + maxStoreBytes < U64_MAX
    }
  }

  /** JSON for metadata records: what is written can be read back. */
  datatype Codec = Codec(encode: Entry -> Bytes, decode: Bytes -> Option<Entry>)

  ghost predicate Lawful(codec: Codec) {
    forall e :: codec.decode(codec.encode(e)) == Some(e)
  }

  const META_FILE := "meta.json"

  /** One entry directory: its files by name. */
  type Dir = map<string, Bytes>

  type Disk = map<Key, Dir>

  datatype Index = Index(
    entries: map<Key, Entry>,
    perTenant: map<Tenant, nat>,
    perTenantEntries: map<Tenant, nat>,
    total: nat)

  datatype State = State(disk: Disk, index: Index)

  const NO_ENTRIES := Index(map[], map[], map[], 0)
  const EMPTY := State(map[], NO_ENTRIES)

  // ---- Names ----

  function Prefix(kind: Kind): string {
    match kind
    case Output => "job_"
    case Asset => "ast_"
    case Template => "tpl_"
  }

  /** `validate_id`: the kind's prefix and 26 ASCII letters or digits. */
  predicate IsId(kind: Kind, id: string) {
    && Prefix(kind) <= id && |id| == |Prefix(kind)| + 26
    && forall i :: |Prefix(kind)| <= i < |id| ==> IsAlphanumeric(id[i])
  }

  /** Ids as they are minted are valid for their kind. */
  lemma MintedIdIsValid(ulid: string)
    requires |ulid| == 26 && forall c :: c in ulid ==> IsAlphanumeric(c)
    ensures IsId(Output, "job_" + ulid) && IsId(Asset, "ast_" + ulid) && IsId(Template, "tpl_" + ulid)
  {
  }

  /** A valid id is a plain name of 30 characters, without dots, and tells its kind. */
  lemma IdStaysInside(kind: Kind, id: string)
    requires IsId(kind, id)
    ensures |id| == 30 && forall c :: c in id ==> IsAlphanumeric(c) || c == '_'
    ensures forall other :: IsId(other, id) ==> other == kind
  {
    forall c | c in id ensures IsAlphanumeric(c) || c == '_' {
      var i :| 0 <= i < |id| && id[i] == c;
      if i < |Prefix(kind)| { assert id[i] == Prefix(kind)[i]; }
    }
    forall other | IsId(other, id) ensures other == kind {
      assert id[0] == Prefix(kind)[0] && id[0] == Prefix(other)[0];
    }
  }

  function Filtered(name: string): string {
    if name == "" then ""
    else
      var c := name[0];
      (if IsAlphanumeric(c) || c in {'.', '-', '_'} then [c] else []) + Filtered(name[1..])
  }

  function SafeName(name: string): string {
    var cleaned := Filtered(name);
    if cleaned == "" || cleaned[0] == '.' then "file" else cleaned
  }

  lemma {:induction false} FilteredIsPlain(name: string)
    ensures forall c :: c in Filtered(name) ==> IsAlphanumeric(c) || c in {'.', '-', '_'}
  {
    if name != "" { FilteredIsPlain(name[1..]); }
  }

  /** A stored file never leaves its entry directory, nor is it hidden. */
  lemma SafeNameStaysInside(name: string)
    ensures |SafeName(name)| > 0 && SafeName(name)[0] != '.'
    ensures forall c :: c in SafeName(name) ==> c != '/' && c != '\\' && c != '\0'
  {
    FilteredIsPlain(name);
  }

  predicate IsPlain(c: char) {
    'a' <= c <= 'z' || 'A' <= c <= 'Z' || '0' <= c <= '9' || c == '.' || c == '-' || c == '_'
  }

  lemma {:induction false} FilteredKeeps(name: string)
    ensures |Filtered(name)| <= |name|
    ensures Filtered(name) == name <==> forall c :: c in name ==> IsPlain(c)
  {
    if name != "" {
      FilteredKeeps(name[1..]);
      assert name == [name[0]] + name[1..] && name[0] in name;
      if !IsPlain(name[0]) { assert Filtered(name) == Filtered(name[1..]); }
    }
  }

  /** Exactly a plain name that is not hidden is kept as it is; no other plain name is kept at all. */
  lemma SafeNameKeeps(name: string)
    ensures SafeName(name) == name <==> name != "" && name[0] != '.' && forall c :: c in name ==> IsPlain(c)
    ensures (name == "" || name[0] == '.') && (forall c :: c in name ==> IsPlain(c)) ==> SafeName(name) == "file"
  {
    FilteredKeeps(name);
  }

  /** Any other character goes without a trace, and only it. */
  lemma {:induction false} SafeNameDrops(before: string, c: char, after: string)
    requires !IsPlain(c)
    ensures SafeName(before + [c] + after) == SafeName(before + after)
  {
    FilteredDrops(before, c, after);
  }

  lemma {:induction false} FilteredDrops(before: string, c: char, after: string)
    requires !IsPlain(c)
    ensures Filtered(before + [c] + after) == Filtered(before + after)
  {
    var long, short := before + [c] + after, before + after;
    if before == "" {
      assert long[1..] == after && short == after;
    } else {
      FilteredDrops(before[1..], c, after);
      assert long[1..] == before[1..] + [c] + after && short[1..] == before[1..] + after;
    }
  }

  // ---- Reference accounting ----

  function Sizes(entries: map<Key, Entry>): map<Key, nat> {
    map k | k in entries :: entries[k].bytes
  }

  function Rows(entries: map<Key, Entry>, tenant: Tenant): map<Key, Entry> {
    map k | k in entries && k.tenant == tenant :: entries[k]
  }

  ghost function TotalBytes(entries: map<Key, Entry>): nat {
    Sum(Sizes(entries))
  }

  /** `per_tenant`, read the way every quota decision reads it. */
  function Used(index: Index, tenant: Tenant): nat {
    if tenant in index.perTenant then index.perTenant[tenant] else 0
  }

  function Count(index: Index, tenant: Tenant): nat {
    if tenant in index.perTenantEntries then index.perTenantEntries[tenant] else 0
  }

  /** The counters of one tenant say exactly what its rows add up to. A byte counter may
      be missing while rows remain (they are empty); an entry counter may not. */
  ghost predicate ExactFor(index: Index, t: Tenant) {
    var rows := Rows(index.entries, t);
    && Used(index, t) == TotalBytes(rows)
    && Count(index, t) == |rows|
    && (t in index.perTenantEntries ==> index.perTenantEntries[t] > 0)
    && (t in index.perTenant ==> |rows| > 0)
  }

  ghost predicate Exact(index: Index) {
    && index.total == TotalBytes(index.entries)
    && forall t :: ExactFor(index, t)
  }

  ghost predicate WithinStore(limits: Limits, entries: map<Key, Entry>) {
    TotalBytes(entries) <= limits.maxStoreBytes && |entries| <= limits.maxStoreEntries
  }

  ghost predicate WithinTenants(limits: Limits, entries: map<Key, Entry>) {
    forall t :: TotalBytes(Rows(entries, t)) <= limits.maxTenantBytes && |Rows(entries, t)| <= limits.maxTenantEntries
  }

  // ---- Disk ----

  function PayloadSizes(dir: Dir): map<string, nat> {
    map name | name in dir && name != META_FILE :: |dir[name]|
  }

  ghost function PayloadBytes(dir: Dir): nat {
    Sum(PayloadSizes(dir))
  }

  /** The row a start-up scan makes of a directory, if the directory is complete. */
  ghost function Readable(codec: Codec, k: Key, dir: Dir): Option<Entry> {
    if META_FILE !in dir || codec.decode(dir[META_FILE]).None? then None
    else
      var entry := codec.decode(dir[META_FILE]).value;
      if entry.id != k.id || entry.kind != k.kind || !IsId(k.kind, k.id) then None
      else Some(entry.(bytes := PayloadBytes(dir)))
  }

  ghost function Scanned(codec: Codec, disk: Disk): map<Key, Entry> {
    map k | k in disk && Readable(codec, k, disk[k]).Some? :: Readable(codec, k, disk[k]).value
  }

  /** Disk and index agree, except that the directories of `erased` may be gone already.
      A directory without a row is an empty leftover of a reported write error. */
  ghost predicate AgreesExcept(codec: Codec, s: State, erased: set<Key>) {
    && (forall k :: k in s.index.entries && k !in erased ==>
          k in s.disk && Readable(codec, k, s.disk[k]) == Some(s.index.entries[k]))
    && (forall k :: k in s.disk && s.disk[k] != map[] ==>
          k in s.index.entries && Readable(codec, k, s.disk[k]) == Some(s.index.entries[k]))
  }

  /** The same of one directory and its row. */
  ghost predicate AgreesAt(codec: Codec, s: State, k: Key) {
    && (k in s.index.entries ==> k in s.disk && Readable(codec, k, s.disk[k]) == Some(s.index.entries[k]))
    && (k in s.disk && s.disk[k] != map[] ==> k in s.index.entries)
  }

  ghost predicate Agrees(codec: Codec, s: State) {
    AgreesExcept(codec, s, {})
  }

  ghost predicate Good(limits: Limits, codec: Codec, s: State) {
    && Exact(s.index) && Agrees(codec, s)
    && WithinStore(limits, s.index.entries) && WithinTenants(limits, s.index.entries)
  }

  /** No payload on disk escapes the quotas: its directory has a row that counts as much. */
  ghost predicate Covered(s: State) {
    forall k :: k in s.disk && s.disk[k] != map[] ==>
      k in s.index.entries && PayloadBytes(s.disk[k]) <= s.index.entries[k].bytes
  }

  /** What the accounts alone promise, whatever the records on disk say. */
  ghost predicate Accounted(limits: Limits, s: State) {
    && Exact(s.index) && Covered(s)
    && WithinStore(limits, s.index.entries) && WithinTenants(limits, s.index.entries)
  }

  // ---- Operations ----

  /** `remove_from_index`. */
  function WithoutRow(index: Index, k: Key): Index {
    if k !in index.entries then index
    else
      var entry, t := index.entries[k], k.tenant;
      var used := SaturatingSub(Used(index, t), entry.bytes);
      var count := SaturatingSub(Count(index, t), 1);
      Index(
        index.entries - {k},
        if t !in index.perTenant then index.perTenant
        else if used == 0 then index.perTenant - {t} else index.perTenant[t := used],
        if t !in index.perTenantEntries then index.perTenantEntries
        else if count == 0 then index.perTenantEntries - {t} else index.perTenantEntries[t := count],
        SaturatingSub(index.total, entry.bytes))
  }

  /** The index update of a put of `size` bytes. */
  function WithRow(index: Index, k: Key, entry: Entry, size: nat): Index {
    Index(
      index.entries[k := entry],
      index.perTenant[k.tenant := Used(index, k.tenant) + size],
      if k in index.entries then index.perTenantEntries
      else index.perTenantEntries[k.tenant := Count(index, k.tenant) + 1],
      index.total + size)
  }

  datatype Upload = Upload(key: Key, name: string, bytes: Bytes, meta: Meta)

  /** A write error reported by the filesystem while a put commits. */
  datatype Fault = NoFault | PayloadFails | RecordFails

  function NewEntry(limits: Limits, index: Index, up: Upload, now: nat): Entry {
    var k, size := up.key, |up.bytes|;
    if k in index.entries then
      index.entries[k].(bytes := SaturatingAdd(index.entries[k].bytes, size), expiresAt := now + limits.Ttl(k.kind))
    else Entry(k.id, k.kind, size, now, now + limits.Ttl(k.kind), up.meta)
  }

  function Refusal(limits: Limits, index: Index, up: Upload): Option<StoreError> {
    var k, size := up.key, |up.bytes|;
    if !IsId(k.kind, k.id) then Some(BadId)
    else if SaturatingAdd(Used(index, k.tenant), size) > limits.maxTenantBytes then
      Some(TenantFull(size, limits.maxTenantBytes))
    else if k !in index.entries && Count(index, k.tenant) >= limits.maxTenantEntries then
      Some(TenantEntriesFull(limits.maxTenantEntries))
    else None
  }

  function DirOf(disk: Disk, k: Key): Dir {
    if k in disk then disk[k] else map[]
  }

  /** The disks a put goes through: directory, payload, metadata record. */
  function Stage1(s: State, up: Upload): Disk {
    s.disk[up.key := DirOf(s.disk, up.key)]
  }

  function Stage2(s: State, up: Upload): Disk {
    s.disk[up.key := DirOf(s.disk, up.key)[SafeName(up.name) := up.bytes]]
  }

  function Stage3(codec: Codec, s: State, up: Upload, entry: Entry): Disk {
    s.disk[up.key := DirOf(s.disk, up.key)[SafeName(up.name) := up.bytes][META_FILE := codec.encode(entry)]]
  }

  /** `put_with_id` up to, not including, the final eviction. */
  function Commit(limits: Limits, codec: Codec, s: State, up: Upload, now: nat, fault: Fault)
    : (State, Result<Entry, StoreError>)
  {
    var refusal := Refusal(limits, s.index, up);
    var entry := NewEntry(limits, s.index, up, now);
    if refusal.Some? then (s, Err(refusal.value))
    else if SafeName(up.name) in DirOf(s.disk, up.key) then (s.(disk := Stage1(s, up)), Err(AlreadyExists))
    else if fault.PayloadFails? then (s.(disk := Stage1(s, up)), Err(WriteFailed))
    else if fault.RecordFails? then (s.(disk := Stage1(s, up)), Err(WriteFailed))
    else (State(Stage3(codec, s, up, entry), WithRow(s.index, up.key, entry, |up.bytes|)), Ok(entry))
  }

  /** `kept` is what is left of `rows` while evicting oldest-first: every removed row is no
      newer than every kept one, and no row was removed needlessly: putting the newest
      removed row back would break a ceiling again. */
  ghost predicate Evicting(limits: Limits, rows: map<Key, Entry>, kept: map<Key, Entry>) {
    && (forall k :: k in kept ==> k in rows && kept[k] == rows[k])
    && (forall g, k :: g in rows && g !in kept && k in kept ==> rows[g].createdAt <= rows[k].createdAt)
    && (kept != rows ==> exists last :: LastEvicted(limits, rows, kept, last))
  }

  /** Eviction is over when both ceilings hold. */
  ghost predicate OldestFirst(limits: Limits, rows: map<Key, Entry>, kept: map<Key, Entry>) {
    Evicting(limits, rows, kept) && WithinStore(limits, kept)
  }

  ghost predicate LastEvicted(limits: Limits, rows: map<Key, Entry>, kept: map<Key, Entry>, last: Key) {
    && last in rows && last !in kept
    && (forall g :: g in rows && g !in kept ==> rows[g].createdAt <= rows[last].createdAt)
    && !WithinStore(limits, kept[last := rows[last]])
  }

  /** States on the way from `before` through `evict_locked`: rows go oldest first, and
      their directories go with them. */
  ghost predicate EvictingState(limits: Limits, before: State, s: State) {
    && Evicting(limits, before.index.entries, s.index.entries)
    && s.disk == before.disk - (before.index.entries.Keys - s.index.entries.Keys)
    && Exact(s.index)
  }

  ghost predicate Evicted(limits: Limits, before: State, after: State) {
    EvictingState(limits, before, after) && WithinStore(limits, after.index.entries)
  }

  function LiveRow(s: State, k: Key, now: nat): Result<Entry, StoreError> {
    if !IsId(k.kind, k.id) then Err(BadId)
    else if k !in s.index.entries then Err(NotFound)
    else if s.index.entries[k].expiresAt <= now then Err(Expired)
    else Ok(s.index.entries[k])
  }

  function Read(s: State, k: Key, name: string, now: nat): Result<Bytes, StoreError> {
    match LiveRow(s, k, now)
    case Err(e) => Err(e)
    case Ok(_) =>
      if SafeName(name) in DirOf(s.disk, k) then Ok(DirOf(s.disk, k)[SafeName(name)]) else Err(NotFound)
  }

  /** `remove`, both halves. */
  function Erased(s: State, k: Key): State {
    State(s.disk - {k}, WithoutRow(s.index, k))
  }

  /** `reap`: exactly the expired rows go, with their directories. */
  ghost predicate Reaped(s: State, now: nat, after: State) {
    && after.index.entries == (map k | k in s.index.entries && now < s.index.entries[k].expiresAt :: s.index.entries[k])
    && after.disk == s.disk - (s.index.entries.Keys - after.index.entries.Keys)
    && Exact(after.index)
  }

  /** `rebuild_index`: complete directories become rows, others are deleted, and the
      global ceilings are enforced. Every tenant with a row gets a byte counter. */
  ghost predicate Rebuilt(limits: Limits, codec: Codec, disk: Disk, after: State) {
    var scanned := Scanned(codec, disk);
    && OldestFirst(limits, scanned, after.index.entries)
    && after.disk == (map k | k in disk && k in after.index.entries :: disk[k])
    && Exact(after.index)
    && (after.index.entries == scanned ==>
          forall t :: t in after.index.perTenant <==> |Rows(scanned, t)| > 0)
  }
}
