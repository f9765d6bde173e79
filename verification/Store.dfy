/** The store of `src/store.rs` in its own form: an index of maps and a total, updated in
    place together with the directory tree. Every method is proved against the relations
    of `StoreModel`. */
module Store {
  import opened Wrappers
  import opened MapSums
  import opened Words
  import opened StoreModel
  import opened StoreSafety
  import opened StoreRoots

  /** `payload_bytes`: every file of the directory but the metadata record, added up with a
      check at every step. */
  method MeasurePayload(dir: Dir) returns (total: Option<nat>)
    ensures total == if PayloadBytes(dir) > U64_MAX then None else Some(PayloadBytes(dir))
  {
    var sum := 0;
    var todo := dir.Keys;
    ghost var left := PayloadSizes(dir);
    while todo != {}
      invariant todo <= dir.Keys
      invariant left == (map name | name in PayloadSizes(dir) && name in todo :: PayloadSizes(dir)[name])
      invariant sum + Sum(left) == PayloadBytes(dir) && sum <= U64_MAX
    {
      var name :| name in todo;
      if name == META_FILE {
        assert left - {name} == left;
      } else {
        SumRemove(left, name);
        if sum + |dir[name]| > U64_MAX {
          return None;
        }
        sum := sum + |dir[name]|;
      }
      todo := todo - {name};
      left := left - {name};
    }
    assert left == map[];
    total := Some(sum);
  }

  /** `read_meta`, the checks around it and `payload_bytes`: the row to index, if any, and the
      directory behind it. */
  method ReadDirectory(codec: Codec, k: Key, found: Found) returns (row: Option<Entry>, dir: Dir)
    ensures row == RowOf(codec, k, found)
    ensures row.Some? ==> Whole(found) == Some(dir)
  {
    row, dir := None, map[];
    if found.record.None? {
      return;
    }
    var record := codec.decode(found.record.value);
    if record.None? || record.value.id != k.id || record.value.kind != k.kind || !IsId(k.kind, k.id) {
      return;
    }
    if found.payload.None? {
      return;
    }
    var payload := MeasurePayload(found.payload.value);
    if payload.None? {
      return;
    }
    dir := found.payload.value[META_FILE := found.record.value];
    PayloadAfterRecord(found.payload.value, found.record.value);
    row := Some(record.value.(bytes := payload.value));
  }

  class Store {
    const limits: Limits
    const codec: Codec
    var disk: Disk
    var entries: map<Key, Entry>
    var perTenant: map<Tenant, nat>
    var perTenantEntries: map<Tenant, nat>
    var total: nat

    ghost function Contents(): State
      reads this
    {
      State(disk, Index(entries, perTenant, perTenantEntries, total))
    }

    /** `open`: index whatever is under the root. */
    constructor Open(root: Root, toText: Decoding, limits: Limits, codec: Codec)
      requires Separates(Keys(toText))
      ensures this.limits == limits && this.codec == codec
      ensures Rebuilt(limits, codec, DiskOf(Keys(toText), root), Contents())
    {
      this.limits := limits;
      this.codec := codec;
      disk := map[];
      entries, perTenant, perTenantEntries, total := map[], map[], map[], 0;
      new;
      RebuildIndex(root, Keys(toText));
    }

    method RemoveFromIndex(k: Key)
      modifies this`entries, this`perTenant, this`perTenantEntries, this`total
      ensures Contents() == old(Contents()).(index := WithoutRow(old(Contents()).index, k))
    {
      if k in entries {
        var entry, t := entries[k], k.tenant;
        entries := entries - {k};
        total := SaturatingSub(total, entry.bytes);
        if t in perTenant {
          var used := SaturatingSub(perTenant[t], entry.bytes);
          perTenant := perTenant[t := used];
          if used == 0 {
            perTenant := perTenant - {t};
          }
        }
        if t in perTenantEntries {
          var count := SaturatingSub(perTenantEntries[t], 1);
          perTenantEntries := perTenantEntries[t := count];
          if count == 0 {
            perTenantEntries := perTenantEntries - {t};
          }
        }
        assert old(perTenant)[t := 0] - {t} == old(perTenant) - {t};
        assert old(perTenantEntries)[t := 0] - {t} == old(perTenantEntries) - {t};
      }
    }

    /** Evict oldest-first. Rows of equal age go in any order. With exact counters the
        loop never meets an empty index. */
    method EvictLocked()
      requires Exact(Contents().index)
      modifies this
      ensures Evicted(limits, old(Contents()), Contents())
      ensures old(WithinStore(limits, entries)) ==> Contents() == old(Contents())
    {
      ghost var before := Contents();
      while total > limits.maxStoreBytes || |entries| > limits.maxStoreEntries
        invariant EvictingState(limits, before, Contents())
        invariant WithinStore(limits, before.index.entries) ==> Contents() == before
        decreases |entries|
      {
        if entries == map[] {
          NoRowsNoBytes(entries);
          assert false;
        }
        var k := Oldest();
        EvictionStep(limits, before, Contents(), k);
        Remove(k);
      }
    }

    /** A row no newer than any other. */
    method Oldest() returns (k: Key)
      requires entries != map[]
      ensures k in entries && forall o :: o in entries ==> entries[k].createdAt <= entries[o].createdAt
    {
      k :| k in entries;
      var todo := entries.Keys - {k};
      while todo != {}
        invariant k in entries && todo <= entries.Keys
        invariant forall o :: o in entries && o !in todo ==> entries[k].createdAt <= entries[o].createdAt
      {
        var o :| o in todo;
        if entries[o].createdAt < entries[k].createdAt {
          k := o;
        }
        todo := todo - {o};
      }
    }

    /** Walk the root: complete entry directories are counted and kept, other entry
        directories deleted, and places that belong to no entry passed over. */
    method ScanRoot(root: Root, keyOf: Keying) returns (built: Index, passed: set<Place>)
      requires Separates(keyOf)
      modifies this`disk
      ensures Walked(codec, DiskOf(keyOf, root), disk, built)
      ensures passed == set place | place in root && keyOf(place).None?
    {
      built, passed, disk := NO_ENTRIES, {}, map[];
      var todo := root.Keys;
      ghost var done: Root, found: Disk := map[], map[];
      NothingWalked(codec);
      IsDiskOfNothing(keyOf);
      while todo != {}
        invariant todo <= root.Keys && done == root - todo
        invariant IsDiskOf(keyOf, done, found) && Walked(codec, found, disk, built)
        invariant passed == set place | place in done && keyOf(place).None?
      {
        var place :| place in todo;
        TakenOut(root, todo, place);
        todo := todo - {place};
        found := WalkStep(codec, keyOf, done, place, root[place], found, disk, built);
        done := done[place := root[place]];
        match keyOf(place)
        case None =>
          passed := passed + {place};
        case Some(k) =>
          var row, dir := ReadDirectory(codec, k, root[place]);
          if row.Some? {
            disk := disk[k := dir];
            built := Counted(built, k, row.value);
          }
      }
      assert done == root;
      IsDiskOfExactly(keyOf, root, found);
    }

    /** Publish a rebuilt index, cut to the ceilings. */
    method Install(built: Index)
      requires Exact(built)
      modifies this
      ensures Evicted(limits, State(old(disk), built), Contents())
      ensures WithinStore(limits, built.entries) ==> Contents() == State(old(disk), built)
    {
      entries, perTenant, perTenantEntries, total :=
        built.entries, built.perTenant, built.perTenantEntries, built.total;
      assert Contents() == State(old(disk), built);
      EvictLocked();
    }

    method RebuildIndex(root: Root, keyOf: Keying)
      requires Separates(keyOf)
      modifies this
      ensures Rebuilt(limits, codec, DiskOf(keyOf, root), Contents())
    {
      var built, passed := ScanRoot(root, keyOf);
      ghost var before := State(disk, built);
      Install(built);
      WalkThenEvict(limits, codec, DiskOf(keyOf, root), before, Contents());
    }

    /** The quota decision. */
    method Admit(up: Upload) returns (refusal: Option<StoreError>)
      ensures refusal == Refusal(limits, Contents().index, up)
    {
      var k, size := up.key, |up.bytes|;
      if !IsId(k.kind, k.id) {
        return Some(BadId);
      }
      var used := if k.tenant in perTenant then perTenant[k.tenant] else 0;
      if SaturatingAdd(used, size) > limits.maxTenantBytes {
        return Some(TenantFull(size, limits.maxTenantBytes));
      }
      var count := if k.tenant in perTenantEntries then perTenantEntries[k.tenant] else 0;
      if k !in entries && count >= limits.maxTenantEntries {
        return Some(TenantEntriesFull(limits.maxTenantEntries));
      }
      return None;
    }

    /** Directory, payload and metadata record, in that order; a failed write is undone. */
    method WriteFiles(up: Upload, entry: Entry, fault: Fault) returns (error: Option<StoreError>)
      modifies this`disk
      ensures error.None? ==> disk == Stage3(codec, old(Contents()), up, entry)
      ensures error.Some? ==> disk == Stage1(old(Contents()), up)
      ensures error == if SafeName(up.name) in DirOf(old(disk), up.key) then Some(AlreadyExists)
                       else if fault.NoFault? then None else Some(WriteFailed)
    {
      var k, name := up.key, SafeName(up.name);
      var dir := if k in disk then disk[k] else map[];
      disk := disk[k := dir];
      if name in dir {
        return Some(AlreadyExists);
      }
      if fault.PayloadFails? {
        return Some(WriteFailed);
      }
      disk := disk[k := dir[name := up.bytes]];
      if fault.RecordFails? {
        disk := disk[k := disk[k] - {name}];
        assert disk[k] == dir;
        return Some(WriteFailed);
      }
      disk := disk[k := disk[k][META_FILE := codec.encode(entry)]];
      return None;
    }

    method InsertRow(k: Key, entry: Entry, size: nat)
      modifies this`entries, this`perTenant, this`perTenantEntries, this`total
      ensures Contents() == old(Contents()).(index := WithRow(old(Contents()).index, k, entry, size))
    {
      var isNew := k !in entries;
      entries := entries[k := entry];
      perTenant := perTenant[k.tenant := (if k.tenant in perTenant then perTenant[k.tenant] else 0) + size];
      total := total + size;
      if isNew {
        var count := if k.tenant in perTenantEntries then perTenantEntries[k.tenant] else 0;
        perTenantEntries := perTenantEntries[k.tenant := count + 1];
      }
    }

    /** `put_with_id`: quota, directory, payload, metadata, index, eviction, under one lock.
        `fault` is the write error the filesystem reports, if any. */
    method PutWithId(up: Upload, now: nat, fault: Fault) returns (r: Result<Entry, StoreError>)
      requires limits.Fits() && Exact(Contents().index)
      modifies this
      ensures r == Commit(limits, codec, old(Contents()), up, now, fault).1
      ensures r.Err? ==> Contents() == Commit(limits, codec, old(Contents()), up, now, fault).0
      ensures r.Ok? ==> Evicted(limits, Commit(limits, codec, old(Contents()), up, now, fault).0, Contents())
    {
      var refusal := Admit(up);
      if refusal.Some? {
        return Err(refusal.value);
      }
      var k, size := up.key, |up.bytes|;
      AcceptedFits(limits, Contents().index, up, now);
      var expiresAt := now + limits.Ttl(k.kind);
      var entry :=
        if k in entries then entries[k].(bytes := SaturatingAdd(entries[k].bytes, size), expiresAt := expiresAt)
        else Entry(k.id, k.kind, size, now, expiresAt, up.meta);
      var error := WriteFiles(up, entry, fault);
      if error.Some? {
        return Err(error.value);
      }
      WithRowExact(Contents().index, k, entry, size);
      InsertRow(k, entry, size);
      assert Contents() == Commit(limits, codec, old(Contents()), up, now, fault).0;
      EvictLocked();
      r := Ok(entry);
    }

    method CheckLive(k: Key, now: nat) returns (r: Result<Entry, StoreError>)
      requires IsId(k.kind, k.id)
      ensures r == LiveRow(Contents(), k, now)
    {
      if k !in entries {
        return Err(NotFound);
      }
      if entries[k].expiresAt <= now {
        return Err(Expired);
      }
      return Ok(entries[k]);
    }

    method Get(k: Key, name: string, now: nat) returns (r: Result<Bytes, StoreError>)
      ensures r == Read(Contents(), k, name, now)
    {
      if !IsId(k.kind, k.id) {
        return Err(BadId);
      }
      var live := CheckLive(k, now);
      if live.Err? {
        return Err(live.error);
      }
      if k in disk && SafeName(name) in disk[k] {
        return Ok(disk[k][SafeName(name)]);
      }
      return Err(NotFound);
    }

    method Remove(k: Key)
      modifies this
      ensures Contents() == Erased(old(Contents()), k)
    {
      disk := disk - {k};
      RemoveFromIndex(k);
    }

    method Delete(k: Key, now: nat) returns (r: Result<Entry, StoreError>)
      modifies this
      ensures r == LiveRow(old(Contents()), k, now)
      ensures Contents() == if r.Ok? then Erased(old(Contents()), k) else old(Contents())
    {
      if !IsId(k.kind, k.id) {
        return Err(BadId);
      }
      r := CheckLive(k, now);
      if r.Ok? {
        Remove(k);
      }
    }

    /** Exactly the expired rows go, with their directories, and they are counted. */
    method Reap(now: nat) returns (count: nat)
      requires Exact(Contents().index)
      modifies this
      ensures Reaped(old(Contents()), now, Contents())
      ensures count == |old(entries)| - |entries|
    {
      ghost var before := Contents();
      var expired := set k | k in entries && entries[k].expiresAt <= now;
      count := |expired|;
      while expired != {}
        invariant Reaping(before, now, Contents(), expired)
        invariant count == |before.index.entries| - |entries| + |expired|
      {
        var k :| k in expired;
        ReapStep(before, now, Contents(), expired, k);
        Remove(k);
        expired := expired - {k};
      }
    }
  }
}
