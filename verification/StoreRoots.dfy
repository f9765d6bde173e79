/** What a store finds under its root when it opens: names that need not be text, directories
    that are not its own, and entry directories in any condition. */
module StoreRoots {
  import opened Wrappers
  import opened MapSums
  import opened Texts
  import opened Words
  import opened StoreModel
  import opened StoreSafety
  import TenantIds

  /** A name as the operating system gives it, and how it becomes text, if it does. */
  type OsName = seq<Byte>
  type Decoding = OsName -> Option<string>

  /** Where the walk of a root comes by: a tenant's directory, a kind, a name in it. */
  datatype Place = Place(tenant: OsName, kind: Kind, entry: OsName)

  /** What reading such a place gives: its metadata record, when that is a file that can be
      read, and its other files, unless it cannot be listed or holds something that is no
      file. */
  datatype Found = Found(record: Option<Bytes>, payload: Option<Dir>)

  type Root = map<Place, Found>

  /** Different names are different text. */
  ghost predicate Faithful(toText: Decoding) {
    forall a, b :: toText(a).Some? && toText(a) == toText(b) ==> a == b
  }

  function TenantAt(toText: Decoding, name: OsName): Option<Tenant> {
    match toText(name)
    case None => None
    case Some(text) => if "t_" <= text then TenantIds.Parse(text[2..]) else None
  }

  /** The entry a place belongs to. Others are none of the store's business. */
  function KeyAt(toText: Decoding, place: Place): Option<Key> {
    match (TenantAt(toText, place.tenant), toText(place.entry))
    case (Some(tenant), Some(id)) => Some(Key(tenant, place.kind, id))
    case _ => None
  }

  type Keying = Place -> Option<Key>

  function Keys(toText: Decoding): Keying {
    place => KeyAt(toText, place)
  }

  ghost predicate Separates(keyOf: Keying) {
    forall a, b :: keyOf(a).Some? && keyOf(a) == keyOf(b) ==> a == b
  }

  lemma KeyAtInjective(toText: Decoding, a: Place, b: Place)
    requires Faithful(toText) && KeyAt(toText, a).Some? && KeyAt(toText, a) == KeyAt(toText, b)
    ensures a == b
  {
    var x, y := toText(a.tenant).value, toText(b.tenant).value;
    assert x == "t_" + x[2..] && y == "t_" + y[2..];
  }

  /** Every entry has one place. */
  lemma KeysSeparate(toText: Decoding)
    requires Faithful(toText)
    ensures Separates(Keys(toText))
  {
    forall a, b | Keys(toText)(a).Some? && Keys(toText)(a) == Keys(toText)(b) ensures a == b {
      KeyAtInjective(toText, a, b);
    }
  }

  /** The walk finds an entry exactly where `entry_dir` puts it: under the name of its kind, in
      the directory named after a valid tenant, in one named by its id. */
  lemma KeyAtExactly(toText: Decoding, place: Place, k: Key)
    ensures KeyAt(toText, place) == Some(k) <==>
              && toText(place.tenant) == Some("t_" + k.tenant) && TenantIds.Parse(k.tenant) == Some(k.tenant)
              && place.kind == k.kind && toText(place.entry) == Some(k.id)
  {
    assert ("t_" + k.tenant)[2..] == k.tenant;
    if toText(place.tenant).Some? && "t_" <= toText(place.tenant).value {
      assert toText(place.tenant).value == "t_" + toText(place.tenant).value[2..];
    }
  }

  /** The files of a directory that can be read whole and counted in 64 bits. */
  ghost function Whole(found: Found): Option<Dir> {
    if found.record.None? || found.payload.None? || PayloadBytes(found.payload.value) > U64_MAX then None
    else Some(found.payload.value[META_FILE := found.record.value])
  }

  predicate Owned(keyOf: Keying, root: Root, place: Place) {
    place in root && keyOf(place).Some?
  }

  ghost predicate Usable(keyOf: Keying, root: Root, place: Place) {
    Owned(keyOf, root, place) && Whole(root[place]).Some?
  }

  /** The part of a root that is entry directories which can be read whole. */
  ghost function DiskOf(keyOf: Keying, root: Root): Disk
    requires Separates(keyOf)
  {
    map place | place in root && Usable(keyOf, root, place) :: keyOf(place).value := Whole(root[place]).value
  }

  // ---- The walk, place by place ----

  /** The directories that a set of rows keeps. */
  function Behind(found: Disk, rows: map<Key, Entry>): Disk {
    map k | k in found && k in rows :: found[k]
  }

  /** Some of a root read: exact rows for the complete directories, and only those left. */
  ghost predicate Walked(codec: Codec, found: Disk, disk: Disk, built: Index) {
    && Exact(built) && Listed(built) && built.entries == Scanned(codec, found)
    && disk == Behind(found, built.entries)
  }

  lemma NothingWalked(codec: Codec)
    ensures Walked(codec, map[], map[], NO_ENTRIES)
  {
    ExactOfNoEntries();
    assert Scanned(codec, map[]) == map[];
  }

  /** The same disk, told place by place. */
  ghost predicate IsDiskOf(keyOf: Keying, root: Root, disk: Disk) {
    && (forall place :: Usable(keyOf, root, place) ==>
          keyOf(place).value in disk && disk[keyOf(place).value] == Whole(root[place]).value)
    && (forall k :: k in disk ==> exists place :: Usable(keyOf, root, place) && keyOf(place) == Some(k))
  }

  lemma IsDiskOfNothing(keyOf: Keying)
    ensures IsDiskOf(keyOf, map[], map[])
  {
  }

  lemma IsDiskOfOneMore(keyOf: Keying, done: Root, disk: Disk, place: Place, found: Found)
    requires Separates(keyOf) && place !in done && IsDiskOf(keyOf, done, disk)
    ensures var more := done[place := found];
            if Usable(keyOf, more, place)
            then keyOf(place).value !in disk && IsDiskOf(keyOf, more, disk[keyOf(place).value := Whole(found).value])
            else IsDiskOf(keyOf, more, disk)
  {
    var more := done[place := found];
    var after := if Usable(keyOf, more, place) then disk[keyOf(place).value := Whole(found).value] else disk;
    forall p | Usable(keyOf, more, p) && p != place ensures Usable(keyOf, done, p) && more[p] == done[p] {
    }
    forall k | k in after ensures exists p :: Usable(keyOf, more, p) && keyOf(p) == Some(k) {
      if k in disk {
        var p :| Usable(keyOf, done, p) && keyOf(p) == Some(k);
        assert Usable(keyOf, more, p);
      }
    }
  }

  lemma IsDiskOfExactly(keyOf: Keying, root: Root, disk: Disk)
    requires Separates(keyOf) && IsDiskOf(keyOf, root, disk)
    ensures disk == DiskOf(keyOf, root)
  {
    forall k | k in disk ensures k in DiskOf(keyOf, root) && DiskOf(keyOf, root)[k] == disk[k] {
      var place :| Usable(keyOf, root, place) && keyOf(place) == Some(k);
      DiskOfPlace(keyOf, root, place);
    }
    forall k | k in DiskOf(keyOf, root) ensures k in disk {
      var place := PlaceOf(keyOf, root, k);
    }
  }

  lemma DiskOfPlace(keyOf: Keying, root: Root, place: Place)
    requires Separates(keyOf) && Usable(keyOf, root, place)
    ensures keyOf(place).value in DiskOf(keyOf, root)
    ensures DiskOf(keyOf, root)[keyOf(place).value] == Whole(root[place]).value
  {
  }

  lemma PlaceOf(keyOf: Keying, root: Root, k: Key) returns (place: Place)
    requires Separates(keyOf) && k in DiskOf(keyOf, root)
    ensures Usable(keyOf, root, place) && keyOf(place) == Some(k)
  {
    place :| place in root && Usable(keyOf, root, place) && keyOf(place).value == k;
  }

  /** The row a place gives. */
  ghost function RowOf(codec: Codec, k: Key, found: Found): Option<Entry> {
    match Whole(found)
    case None => None
    case Some(dir) => Readable(codec, k, dir)
  }

  lemma ScannedOneMore(codec: Codec, found: Disk, k: Key, dir: Dir)
    requires k !in found
    ensures Scanned(codec, found[k := dir])
         == match Readable(codec, k, dir)
            case None => Scanned(codec, found)
            case Some(entry) => Scanned(codec, found)[k := entry]
    ensures k !in Scanned(codec, found)
  {
  }

  lemma BehindSame(found: Disk, rows: map<Key, Entry>, k: Key, dir: Dir)
    requires k !in rows
    ensures Behind(found[k := dir], rows) == Behind(found, rows)
  {
  }

  lemma BehindOneMore(found: Disk, rows: map<Key, Entry>, k: Key, dir: Dir, entry: Entry)
    requires k !in rows
    ensures Behind(found[k := dir], rows[k := entry]) == Behind(found, rows)[k := dir]
  {
  }

  lemma WalkedOneMore(codec: Codec, found: Disk, disk: Disk, built: Index, k: Key, dir: Dir)
    requires Walked(codec, found, disk, built) && k !in found
    ensures match Readable(codec, k, dir)
            case None => Walked(codec, found[k := dir], disk, built)
            case Some(entry) => Walked(codec, found[k := dir], disk[k := dir], Counted(built, k, entry))
  {
    ScannedOneMore(codec, found, k, dir);
    match Readable(codec, k, dir)
    case None => BehindSame(found, built.entries, k, dir);
    case Some(entry) =>
      BehindOneMore(found, built.entries, k, dir, entry);
      CountedIsExact(built, k, entry);
  }

  lemma WalkStep(codec: Codec, keyOf: Keying, done: Root, place: Place, item: Found,
                 found: Disk, disk: Disk, built: Index)
    returns (more: Disk)
    requires Separates(keyOf) && place !in done && IsDiskOf(keyOf, done, found) && Walked(codec, found, disk, built)
    ensures IsDiskOf(keyOf, done[place := item], more)
    ensures match keyOf(place)
            case None => Walked(codec, more, disk, built)
            case Some(k) =>
              match RowOf(codec, k, item)
              case None => Walked(codec, more, disk, built)
              case Some(entry) => Walked(codec, more, disk[k := Whole(item).value], Counted(built, k, entry))
  {
    IsDiskOfOneMore(keyOf, done, found, place, item);
    if Usable(keyOf, done[place := item], place) {
      more := found[keyOf(place).value := Whole(item).value];
      WalkedOneMore(codec, found, disk, built, keyOf(place).value, Whole(item).value);
    } else {
      more := found;
    }
  }

  lemma TakenOut(root: Root, todo: set<Place>, place: Place)
    requires place in todo && todo <= root.Keys
    ensures root - (todo - {place}) == (root - todo)[place := root[place]]
  {
  }

  /** The counters after one more directory. */
  function Counted(index: Index, k: Key, entry: Entry): Index {
    Index(
      index.entries[k := entry],
      index.perTenant[k.tenant := Used(index, k.tenant) + entry.bytes],
      index.perTenantEntries[k.tenant := Count(index, k.tenant) + 1],
      index.total + entry.bytes)
  }

  lemma CountedIsExact(built: Index, k: Key, entry: Entry)
    requires Exact(built) && Listed(built) && k !in built.entries
    ensures Exact(Counted(built, k, entry)) && Listed(Counted(built, k, entry))
  {
    WithRowExact(built, k, entry, entry.bytes);
    assert Counted(built, k, entry) == WithRow(built, k, entry, entry.bytes);
  }

  lemma ListedTable(built: Index)
    requires Exact(built) && Listed(built)
    ensures forall t :: t in built.perTenant <==> |Rows(built.entries, t)| > 0
  {
    forall t ensures t in built.perTenant <==> |Rows(built.entries, t)| > 0 {
      ListedTenants(built, t);
    }
  }

  /** An eviction that kept all rows did nothing, so it unlisted no tenant. */
  lemma UnevictedIsUntouched(limits: Limits, before: State, after: State)
    requires Evicted(limits, before, after)
    requires WithinStore(limits, before.index.entries) ==> after == before
    requires forall t :: t in before.index.perTenant <==> |Rows(before.index.entries, t)| > 0
    ensures after.index.entries == before.index.entries ==>
              forall t :: t in after.index.perTenant <==> |Rows(before.index.entries, t)| > 0
  {
  }

  /** A walk followed by an eviction is a rebuild. */
  lemma WalkThenEvict(limits: Limits, codec: Codec, found: Disk, before: State, after: State)
    requires Walked(codec, found, before.disk, before.index) && Evicted(limits, before, after)
    requires WithinStore(limits, before.index.entries) ==> after == before
    ensures Rebuilt(limits, codec, found, after)
  {
    ListedTable(before.index);
    UnevictedIsUntouched(limits, before, after);
    DirectoriesOf(found, before.index.entries, after.index.entries, before.disk, after.disk);
  }

  lemma DirectoriesOf(root: Disk, rows: map<Key, Entry>, kept: map<Key, Entry>, before: Disk, after: Disk)
    requires before == (map k | k in root && k in rows :: root[k])
    requires after == before - (rows.Keys - kept.Keys)
    requires forall k :: k in kept ==> k in rows
    ensures after == (map k | k in root && k in kept :: root[k])
  {
  }
}
