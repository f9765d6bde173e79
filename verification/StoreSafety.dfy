/** What the store's operations keep, one by one: exact accounting, agreement with the disk,
    and every ceiling. */
module StoreSafety {
  import opened Wrappers
  import opened MapSums
  import opened Words
  import opened StoreModel

  // ---- Sums over rows ----

  lemma RowsAfterUpdate(entries: map<Key, Entry>, k: Key, entry: Entry, t: Tenant)
    ensures Sizes(entries[k := entry]) == Sizes(entries)[k := entry.bytes]
    ensures Rows(entries[k := entry], t) == if t == k.tenant then Rows(entries, t)[k := entry] else Rows(entries, t)
  {
  }

  lemma RowsAfterRemoval(entries: map<Key, Entry>, k: Key, t: Tenant)
    ensures Sizes(entries - {k}) == Sizes(entries) - {k}
    ensures Rows(entries - {k}, t) == Rows(entries, t) - {k}
    ensures t != k.tenant ==> Rows(entries - {k}, t) == Rows(entries, t)
  {
    assert Rows(entries - {k}, t) == Rows(entries, t) - {k};
  }

  lemma BytesOfRow(entries: map<Key, Entry>, k: Key)
    requires k in entries
    ensures TotalBytes(entries) == entries[k].bytes + TotalBytes(entries - {k})
    ensures |entries - {k}| == |entries| - 1
  {
    SumRemove(Sizes(entries), k);
    RowsAfterRemoval(entries, k, k.tenant);
    assert (entries - {k}).Keys == entries.Keys - {k};
    assert |(entries - {k}).Keys| == |entries.Keys| - 1;
  }

  lemma BytesAfterUpdate(entries: map<Key, Entry>, k: Key, entry: Entry)
    ensures TotalBytes(entries[k := entry]) == entry.bytes + TotalBytes(entries - {k})
    ensures |entries[k := entry]| == |entries - {k}| + 1
  {
    RowsAfterUpdate(entries, k, entry, k.tenant);
    RowsAfterRemoval(entries, k, k.tenant);
    SumUpdate(Sizes(entries), k, entry.bytes);
    assert entries[k := entry].Keys == (entries - {k}).Keys + {k};
    assert |(entries - {k}).Keys + {k}| == |(entries - {k}).Keys| + 1;
  }

  lemma NoRow(entries: map<Key, Entry>, k: Key)
    requires k !in entries
    ensures entries - {k} == entries
  {
  }

  /** What the counters say about one row, so that subtracting it never saturates. */
  lemma RowFitsCounters(index: Index, k: Key)
    requires Exact(index) && k in index.entries
    ensures index.entries[k].bytes <= Used(index, k.tenant) <= index.total
    ensures 1 <= Count(index, k.tenant)
    ensures k.tenant in index.perTenantEntries
    ensures k.tenant !in index.perTenant ==> index.entries[k].bytes == 0
  {
    var rows := Rows(index.entries, k.tenant);
    assert k in rows;
    BytesOfRow(rows, k);
    assert ExactFor(index, k.tenant);
    SumDominated(Sizes(rows), Sizes(index.entries));
  }

  lemma OtherTenantUnchanged(index: Index, after: Index, t: Tenant)
    requires ExactFor(index, t) && Rows(after.entries, t) == Rows(index.entries, t)
    requires Used(after, t) == Used(index, t) && Count(after, t) == Count(index, t)
    requires t in after.perTenant ==> t in index.perTenant
    requires t in after.perTenantEntries ==> t in index.perTenantEntries
    ensures ExactFor(after, t)
  {
  }

  lemma NoRowsNoBytes(rows: map<Key, Entry>)
    requires |rows| == 0
    ensures rows == map[] && TotalBytes(rows) == 0
  {
    assert rows == map[];
    assert Sizes(rows) == map[];
  }

  lemma OwnerWithoutRow(index: Index, k: Key)
    requires Exact(index) && k in index.entries
    ensures ExactFor(WithoutRow(index, k), k.tenant)
  {
    var t, rows := k.tenant, Rows(index.entries, k.tenant);
    RowFitsCounters(index, k);
    RowsAfterRemoval(index.entries, k, t);
    assert k in rows;
    BytesOfRow(rows, k);
    assert ExactFor(index, t);
    if |rows| == 1 { NoRowsNoBytes(rows - {k}); }
  }

  lemma OtherWithoutRow(index: Index, k: Key, t: Tenant)
    requires Exact(index) && k in index.entries && t != k.tenant
    ensures ExactFor(WithoutRow(index, k), t)
  {
    assert ExactFor(index, t);
    RowsAfterRemoval(index.entries, k, t);
    CountersWithoutRow(index, k, t);
    OtherTenantUnchanged(index, WithoutRow(index, k), t);
  }

  lemma CountersWithoutRow(index: Index, k: Key, t: Tenant)
    requires k in index.entries && t != k.tenant
    ensures Used(WithoutRow(index, k), t) == Used(index, t) && Count(WithoutRow(index, k), t) == Count(index, t)
    ensures WithoutRow(index, k).entries == index.entries - {k}
    ensures t in WithoutRow(index, k).perTenant ==> t in index.perTenant
    ensures t in WithoutRow(index, k).perTenantEntries ==> t in index.perTenantEntries
  {
  }

  lemma TenantWithoutRow(index: Index, k: Key, t: Tenant)
    requires Exact(index) && k in index.entries
    ensures ExactFor(WithoutRow(index, k), t)
  {
    if t == k.tenant {
      OwnerWithoutRow(index, k);
    } else {
      OtherWithoutRow(index, k, t);
    }
  }

  /** Removing a row keeps the counters exact, and no subtraction saturates. */
  lemma WithoutRowExact(index: Index, k: Key)
    requires Exact(index)
    ensures Exact(WithoutRow(index, k))
    ensures k in index.entries ==>
              WithoutRow(index, k).total == index.total - index.entries[k].bytes
              && Used(WithoutRow(index, k), k.tenant) == Used(index, k.tenant) - index.entries[k].bytes
              && Count(WithoutRow(index, k), k.tenant) == Count(index, k.tenant) - 1
  {
    if k in index.entries {
      RowFitsCounters(index, k);
      BytesOfRow(index.entries, k);
      forall t ensures ExactFor(WithoutRow(index, k), t) {
        TenantWithoutRow(index, k, t);
      }
    }
  }

  lemma OwnerWithRow(index: Index, k: Key, entry: Entry, size: nat)
    requires Exact(index)
    requires entry.bytes == size + (if k in index.entries then index.entries[k].bytes else 0)
    ensures ExactFor(WithRow(index, k, entry, size), k.tenant)
  {
    var t, rows := k.tenant, Rows(index.entries, k.tenant);
    RowsAfterUpdate(index.entries, k, entry, t);
    BytesAfterUpdate(rows, k, entry);
    assert ExactFor(index, t);
    if k in index.entries { assert k in rows; BytesOfRow(rows, k); } else { NoRow(rows, k); }
  }

  lemma WithRowExact(index: Index, k: Key, entry: Entry, size: nat)
    requires Exact(index)
    requires entry.bytes == size + (if k in index.entries then index.entries[k].bytes else 0)
    ensures Exact(WithRow(index, k, entry, size))
  {
    var after := WithRow(index, k, entry, size);
    BytesAfterUpdate(index.entries, k, entry);
    if k in index.entries { BytesOfRow(index.entries, k); } else { NoRow(index.entries, k); }
    OwnerWithRow(index, k, entry, size);
    forall t ensures ExactFor(after, t) {
      if t != k.tenant {
        RowsAfterUpdate(index.entries, k, entry, t);
        OtherTenantUnchanged(index, after, t);
      }
    }
  }

  // ---- Directories ----

  lemma PayloadAfterWrite(dir: Dir, name: string, bytes: Bytes)
    requires name !in dir
    ensures PayloadBytes(dir[name := bytes]) == PayloadBytes(dir) + (if name == META_FILE then 0 else |bytes|)
  {
    if name == META_FILE {
      assert PayloadSizes(dir[name := bytes]) == PayloadSizes(dir);
    } else {
      assert PayloadSizes(dir[name := bytes]) == PayloadSizes(dir)[name := |bytes|];
      SumUpdate(PayloadSizes(dir), name, |bytes|);
      assert PayloadSizes(dir) - {name} == PayloadSizes(dir);
    }
  }

  lemma PayloadAfterRecord(dir: Dir, record: Bytes)
    ensures PayloadBytes(dir[META_FILE := record]) == PayloadBytes(dir)
  {
    assert PayloadSizes(dir[META_FILE := record]) == PayloadSizes(dir);
  }

  lemma EmptyDirIsUnreadable(codec: Codec, k: Key)
    ensures Readable(codec, k, map[]).None? && PayloadBytes(map[]) == 0
  {
    assert PayloadSizes(map[]) == map[];
  }

  /** An accepted upload fits its tenant, and no addition saturates on the way. */
  lemma AcceptedFits(limits: Limits, index: Index, up: Upload, now: nat)
    requires limits.Fits() && Exact(index) && Refusal(limits, index, up).None?
    ensures Used(index, up.key.tenant) + |up.bytes| <= limits.maxTenantBytes < U64_MAX
    ensures up.key !in index.entries ==> Count(index, up.key.tenant) < limits.maxTenantEntries
    ensures var entry := NewEntry(limits, index, up, now);
            && entry.bytes == |up.bytes| + (if up.key in index.entries then index.entries[up.key].bytes else 0)
            && (up.key in index.entries ==>
                  && entry.id == index.entries[up.key].id && entry.kind == index.entries[up.key].kind
                  && entry.createdAt == index.entries[up.key].createdAt)
  {
    if up.key in index.entries { RowFitsCounters(index, up.key); }
  }

  /** What the directory of an accepted upload held before. */
  lemma DirectoryBefore(codec: Codec, s: State, up: Upload)
    requires AgreesAt(codec, s, up.key)
    ensures (if up.key in s.index.entries
             then Readable(codec, up.key, DirOf(s.disk, up.key)) == Some(s.index.entries[up.key])
                  && PayloadBytes(DirOf(s.disk, up.key)) == s.index.entries[up.key].bytes
             else DirOf(s.disk, up.key) == map[])
  {
  }

  /** What is read back of a directory once its payload and its record are written. */
  lemma RecordedDirectory(codec: Codec, k: Key, dir: Dir, name: string, bytes: Bytes, entry: Entry)
    requires Lawful(codec) && name !in dir && entry.id == k.id && entry.kind == k.kind && IsId(k.kind, k.id)
    ensures (Readable(codec, k, dir[name := bytes][META_FILE := codec.encode(entry)])
             == Some(entry.(bytes := PayloadBytes(dir) + (if name == META_FILE then 0 else |bytes|))))
  {
    PayloadAfterWrite(dir, name, bytes);
    PayloadAfterRecord(dir[name := bytes], codec.encode(entry));
    assert codec.decode(codec.encode(entry)) == Some(entry);
    assert dir[name := bytes][META_FILE := codec.encode(entry)][META_FILE] == codec.encode(entry);
  }

  /** Payloads that can be stored: any, except that one under the metadata file's own name
      is overwritten by the record and no longer counted. */
  predicate Storable(up: Upload) {
    SafeName(up.name) != META_FILE || |up.bytes| == 0
  }

  /** What a successful commit leaves in the entry's directory. */
  lemma CommittedDirectory(limits: Limits, codec: Codec, s: State, up: Upload, now: nat)
    requires Lawful(codec) && limits.Fits() && Exact(s.index) && AgreesAt(codec, s, up.key)
    requires Commit(limits, codec, s, up, now, NoFault).1.Ok?
    ensures var after, entry := Commit(limits, codec, s, up, now, NoFault).0, NewEntry(limits, s.index, up, now);
            Readable(codec, up.key, after.disk[up.key]) == Some(entry) <==> Storable(up)
  {
    var k, name := up.key, SafeName(up.name);
    var dir, entry := DirOf(s.disk, k), NewEntry(limits, s.index, up, now);
    AcceptedFits(limits, s.index, up, now);
    EmptyDirIsUnreadable(codec, k);
    DirectoryBefore(codec, s, up);
    RecordedDirectory(codec, k, dir, name, up.bytes, entry);
  }

  // ---- A put, step by step ----

  /** Disk and index after one directory and its row changed together. */
  lemma AgreementAfterChange(codec: Codec, s: State, after: State, k: Key, erased: set<Key>)
    requires AgreesExcept(codec, s, erased)
    requires after.disk - {k} == s.disk - {k} && after.index.entries - {k} == s.index.entries - {k}
    requires k in after.index.entries ==>
               k in after.disk && Readable(codec, k, after.disk[k]) == Some(after.index.entries[k])
    requires k in after.disk && after.disk[k] != map[] ==> k in after.index.entries
    ensures AgreesExcept(codec, after, erased)
  {
    forall o | o in after.index.entries && o !in erased && o != k
      ensures o in after.disk && Readable(codec, o, after.disk[o]) == Some(after.index.entries[o])
    {
      assert o in after.index.entries - {k} && o in s.disk - {k};
    }
    forall o | o in after.disk && after.disk[o] != map[] && o != k
      ensures o in after.index.entries && Readable(codec, o, after.disk[o]) == Some(after.index.entries[o])
    {
      assert o in after.disk - {k} && o in s.index.entries - {k};
    }
  }

  lemma FailedCommitAgrees(limits: Limits, codec: Codec, s: State, up: Upload, now: nat, fault: Fault, erased: set<Key>)
    requires AgreesExcept(codec, s, erased) && Commit(limits, codec, s, up, now, fault).1.Err?
    ensures AgreesExcept(codec, Commit(limits, codec, s, up, now, fault).0, erased)
  {
    var after, k := Commit(limits, codec, s, up, now, fault).0, up.key;
    assert after.disk == s.disk || (k !in s.disk && after.disk == s.disk[k := map[]]) by {
      if k in s.disk { assert Stage1(s, up) == s.disk; }
    }
  }

  lemma DirectoriesAfterCommit(limits: Limits, codec: Codec, s: State, up: Upload, now: nat, fault: Fault,
                               erased: set<Key>)
    requires Lawful(codec) && limits.Fits() && Exact(s.index) && AgreesExcept(codec, s, erased)
    requires Commit(limits, codec, s, up, now, fault).1.Ok? ==> Storable(up) && up.key !in erased
    ensures AgreesExcept(codec, Commit(limits, codec, s, up, now, fault).0, erased)
  {
    var (after, result) := Commit(limits, codec, s, up, now, fault);
    if result.Ok? {
      CommittedDirectory(limits, codec, s, up, now);
      AgreementAfterChange(codec, s, after, up.key, erased);
    } else {
      FailedCommitAgrees(limits, codec, s, up, now, fault, erased);
    }
  }

  lemma TenantsAfterCommit(limits: Limits, codec: Codec, s: State, up: Upload, now: nat, fault: Fault)
    requires limits.Fits() && Exact(s.index) && WithinTenants(limits, s.index.entries)
    ensures Exact(Commit(limits, codec, s, up, now, fault).0.index)
    ensures WithinTenants(limits, Commit(limits, codec, s, up, now, fault).0.index.entries)
    ensures Commit(limits, codec, s, up, now, fault).0.index.total <= s.index.total + limits.maxTenantBytes
  {
    var after := Commit(limits, codec, s, up, now, fault);
    if after.1.Ok? {
      var entry := NewEntry(limits, s.index, up, now);
      AcceptedFits(limits, s.index, up, now);
      WithRowExact(s.index, up.key, entry, |up.bytes|);
      forall t
        ensures TotalBytes(Rows(after.0.index.entries, t)) <= limits.maxTenantBytes
        ensures |Rows(after.0.index.entries, t)| <= limits.maxTenantEntries
      {
        assert ExactFor(after.0.index, t) && ExactFor(s.index, t);
        RowsAfterUpdate(s.index.entries, up.key, entry, t);
      }
    }
  }

  // ---- Eviction ----

  lemma FewerRows(a: map<Key, Entry>, b: map<Key, Entry>)
    requires forall k :: k in a ==> k in b && a[k].bytes <= b[k].bytes
    ensures TotalBytes(a) <= TotalBytes(b) && |a| <= |b|
    ensures forall t :: TotalBytes(Rows(a, t)) <= TotalBytes(Rows(b, t)) && |Rows(a, t)| <= |Rows(b, t)|
  {
    SumDominated(Sizes(a), Sizes(b));
    SizeDominated(a, b);
    forall t ensures TotalBytes(Rows(a, t)) <= TotalBytes(Rows(b, t)) && |Rows(a, t)| <= |Rows(b, t)| {
      SumDominated(Sizes(Rows(a, t)), Sizes(Rows(b, t)));
      SizeDominated(Rows(a, t), Rows(b, t));
    }
  }

  lemma EvictionKeepsRest(limits: Limits, codec: Codec, before: State, after: State, erased: set<Key>)
    requires Evicted(limits, before, after) && AgreesExcept(codec, before, erased)
    requires WithinTenants(limits, before.index.entries)
    ensures AgreesExcept(codec, after, erased) && WithinTenants(limits, after.index.entries)
  {
    FewerRows(after.index.entries, before.index.entries);
  }

  /** Whatever was evicted, the rows before the eviction broke a ceiling. */
  lemma EvictionWasNeeded(limits: Limits, rows: map<Key, Entry>, kept: map<Key, Entry>)
    requires OldestFirst(limits, rows, kept) && kept != rows
    ensures !WithinStore(limits, rows)
  {
    var last :| LastEvicted(limits, rows, kept, last);
    var more := kept[last := rows[last]];
    SumDominated(Sizes(more), Sizes(rows));
    SizeDominated(more, rows);
  }

  /** Eviction does nothing once both ceilings hold. */
  lemma EvictionStopsInTime(limits: Limits, before: State, after: State)
    requires Evicted(limits, before, after) && WithinStore(limits, before.index.entries)
    ensures after.index.entries == before.index.entries && after.disk == before.disk
  {
    if before.index.entries != after.index.entries {
      EvictionWasNeeded(limits, before.index.entries, after.index.entries);
    }
  }

  lemma EvictingStep(limits: Limits, rows: map<Key, Entry>, kept: map<Key, Entry>, k: Key)
    requires Evicting(limits, rows, kept) && !WithinStore(limits, kept)
    requires k in kept && forall o :: o in kept ==> kept[k].createdAt <= kept[o].createdAt
    ensures Evicting(limits, rows, kept - {k})
  {
    assert (kept - {k})[k := rows[k]] == kept;
    assert LastEvicted(limits, rows, kept - {k}, k);
  }

  lemma EvictionStep(limits: Limits, before: State, s: State, k: Key)
    requires EvictingState(limits, before, s) && !WithinStore(limits, s.index.entries)
    requires k in s.index.entries
    requires forall o :: o in s.index.entries ==> s.index.entries[k].createdAt <= s.index.entries[o].createdAt
    ensures EvictingState(limits, before, Erased(s, k))
    ensures |Erased(s, k).index.entries| < |s.index.entries|
  {
    EvictingStep(limits, before.index.entries, s.index.entries, k);
    WithoutRowExact(s.index, k);
    ErasedTogether(before, s, k);
  }

  /** States on the way through `reap`: `todo` are the expired rows still there. */
  ghost predicate ReapedRows(rows: map<Key, Entry>, now: nat, kept: map<Key, Entry>, todo: set<Key>) {
    && (forall k :: k in kept ==> k in rows && kept[k] == rows[k])
    && (forall k :: k in rows ==> (k in kept <==> k in todo || now < rows[k].expiresAt))
    && (forall k :: k in todo ==> k in rows && rows[k].expiresAt <= now)
  }

  ghost predicate Reaping(before: State, now: nat, s: State, todo: set<Key>) {
    && ReapedRows(before.index.entries, now, s.index.entries, todo)
    && s.disk == before.disk - (before.index.entries.Keys - s.index.entries.Keys)
    && Exact(s.index)
  }

  lemma ErasedTogether(before: State, s: State, k: Key)
    requires k in s.index.entries && k in before.index.entries
    requires s.disk == before.disk - (before.index.entries.Keys - s.index.entries.Keys)
    ensures Erased(s, k).disk == before.disk - (before.index.entries.Keys - Erased(s, k).index.entries.Keys)
    ensures |Erased(s, k).index.entries| == |s.index.entries| - 1
  {
    BytesOfRow(s.index.entries, k);
    var rows, kept := before.index.entries.Keys, s.index.entries.Keys;
    assert Erased(s, k).index.entries.Keys == kept - {k};
    assert rows - (kept - {k}) == rows - kept + {k};
  }

  lemma ReapStep(before: State, now: nat, s: State, todo: set<Key>, k: Key)
    requires Reaping(before, now, s, todo) && k in todo
    ensures Reaping(before, now, Erased(s, k), todo - {k})
    ensures |Erased(s, k).index.entries| == |s.index.entries| - 1
  {
    WithoutRowExact(s.index, k);
    ErasedTogether(before, s, k);
  }

  lemma SingleRowFits(limits: Limits, k: Key, entry: Entry)
    ensures WithinStore(limits, map[k := entry]) <==> entry.bytes <= limits.maxStoreBytes && limits.maxStoreEntries >= 1
  {
    var one := map[k := entry];
    BytesOfRow(one, k);
    assert one - {k} == map[];
    NoRowsNoBytes(one - {k});
  }

  ghost predicate StrictlyNewest(rows: map<Key, Entry>, k: Key) {
    k in rows && forall o :: o in rows && o != k ==> rows[o].createdAt < rows[k].createdAt
  }

  /** The rows created no earlier than a given one, itself among them. */
  function NoOlder(rows: map<Key, Entry>, k: Key): map<Key, Entry>
    requires k in rows
  {
    map o | o in rows && rows[o].createdAt >= rows[k].createdAt :: rows[o]
  }

  /** The rows created strictly later, and the row itself. */
  function NewerWith(rows: map<Key, Entry>, k: Key): map<Key, Entry>
    requires k in rows
  {
    map o | o in rows && (o == k || rows[o].createdAt > rows[k].createdAt) :: rows[o]
  }

  lemma FewerFit(limits: Limits, a: map<Key, Entry>, b: map<Key, Entry>)
    requires WithinStore(limits, b) && forall k :: k in a ==> k in b && a[k] == b[k]
    ensures WithinStore(limits, a)
  {
    SumDominated(Sizes(a), Sizes(b));
    SizeDominated(a, b);
  }

  lemma GoneDoesNotFit(limits: Limits, rows: map<Key, Entry>, kept: map<Key, Entry>, k: Key)
    requires OldestFirst(limits, rows, kept) && k in rows && k !in kept
    ensures !WithinStore(limits, NoOlder(rows, k))
  {
    var last :| LastEvicted(limits, rows, kept, last);
    if WithinStore(limits, NoOlder(rows, k)) {
      FewerFit(limits, kept[last := rows[last]], NoOlder(rows, k));
    }
  }

  lemma KeptFits(limits: Limits, rows: map<Key, Entry>, kept: map<Key, Entry>, k: Key)
    requires OldestFirst(limits, rows, kept) && k in kept
    ensures WithinStore(limits, NewerWith(rows, k))
  {
    FewerFit(limits, NewerWith(rows, k), kept);
  }

  predicate OfItsOwnAge(rows: map<Key, Entry>, k: Key)
    requires k in rows
  {
    forall o | o in rows && o != k :: rows[o].createdAt != rows[k].createdAt
  }

  /** Which rows an oldest-first eviction keeps. A row is kept when it fits together with
      everything no older, and only if it fits with everything newer; without a tie in
      creation times the two are one condition. */
  lemma SurvivesExactly(limits: Limits, rows: map<Key, Entry>, kept: map<Key, Entry>, k: Key)
    requires OldestFirst(limits, rows, kept) && k in rows
    ensures WithinStore(limits, NoOlder(rows, k)) ==> k in kept
    ensures k in kept ==> WithinStore(limits, NewerWith(rows, k))
    ensures OfItsOwnAge(rows, k) ==> (k in kept <==> WithinStore(limits, NoOlder(rows, k)))
  {
    if k in kept {
      KeptFits(limits, rows, kept, k);
      if OfItsOwnAge(rows, k) {
        assert NoOlder(rows, k) == NewerWith(rows, k);
      }
    } else {
      GoneDoesNotFit(limits, rows, kept, k);
    }
  }

  /** A row strictly newer than every other survives eviction exactly when it fits the
      store on its own. */
  lemma NewestRowSurvives(limits: Limits, before: State, after: State, k: Key)
    requires Evicted(limits, before, after) && StrictlyNewest(before.index.entries, k)
    ensures k in after.index.entries
       <==> before.index.entries[k].bytes <= limits.maxStoreBytes && limits.maxStoreEntries >= 1
  {
    NewestStandsAlone(before.index.entries, k);
    SingleRowFits(limits, k, before.index.entries[k]);
    SurvivesExactly(limits, before.index.entries, after.index.entries, k);
  }

  lemma NewestStandsAlone(rows: map<Key, Entry>, k: Key)
    requires StrictlyNewest(rows, k)
    ensures NoOlder(rows, k) == map[k := rows[k]] && OfItsOwnAge(rows, k)
  {
  }

  /** A strictly oldest row survives exactly when nothing needs to go. */
  lemma OldestGoesFirst(limits: Limits, rows: map<Key, Entry>, kept: map<Key, Entry>, k: Key)
    requires OldestFirst(limits, rows, kept) && k in rows
    requires forall o :: o in rows && o != k ==> rows[k].createdAt < rows[o].createdAt
    ensures k in kept <==> WithinStore(limits, rows)
  {
    SurvivesExactly(limits, rows, kept, k);
    assert NoOlder(rows, k) == rows;
  }

  /** Whether some rows and `size` more bytes are within the ceilings of the store. */
  ghost predicate FitsWith(limits: Limits, rows: map<Key, Entry>, size: nat) {
    TotalBytes(rows) + size <= limits.maxStoreBytes && |rows| <= limits.maxStoreEntries
  }

  lemma GrownNeighbours(rows: map<Key, Entry>, k: Key, entry: Entry)
    requires k in rows && entry.createdAt == rows[k].createdAt
    ensures NoOlder(rows[k := entry], k) == NoOlder(rows, k)[k := entry]
    ensures NewerWith(rows[k := entry], k) == NewerWith(rows, k)[k := entry]
    ensures OfItsOwnAge(rows[k := entry], k) <==> OfItsOwnAge(rows, k)
  {
    var grown := rows[k := entry];
    assert forall o :: o in rows ==> grown[o].createdAt == rows[o].createdAt;
  }

  lemma GrownRow(limits: Limits, rows: map<Key, Entry>, k: Key, entry: Entry, size: nat)
    requires k in rows && entry.bytes == rows[k].bytes + size
    ensures WithinStore(limits, rows[k := entry]) <==> FitsWith(limits, rows, size)
  {
    BytesAfterUpdate(rows, k, entry);
    BytesOfRow(rows, k);
  }

  // ---- Restart ----

  lemma ExactIsDetermined(a: Index, b: Index)
    requires Exact(a) && Exact(b) && a.entries == b.entries
    ensures a.total == b.total && a.perTenantEntries == b.perTenantEntries
    ensures forall t :: Used(a, t) == Used(b, t)
  {
    forall t
      ensures t in a.perTenantEntries <==> t in b.perTenantEntries
      ensures Count(a, t) == Count(b, t) && Used(a, t) == Used(b, t)
    {
      assert ExactFor(a, t) && ExactFor(b, t);
    }
  }

  lemma ScanFindsTheRows(codec: Codec, s: State)
    requires Agrees(codec, s)
    ensures Scanned(codec, s.disk) == s.index.entries
  {
    forall k | k in s.disk && s.disk[k] == map[] ensures Readable(codec, k, s.disk[k]).None? {
      EmptyDirIsUnreadable(codec, k);
    }
  }

  lemma RestartKeepsRows(limits: Limits, codec: Codec, s: State, after: State)
    requires Agrees(codec, s) && WithinStore(limits, s.index.entries) && Rebuilt(limits, codec, s.disk, after)
    ensures Scanned(codec, s.disk) == after.index.entries == s.index.entries
  {
    ScanFindsTheRows(codec, s);
    if after.index.entries != s.index.entries {
      EvictionWasNeeded(limits, s.index.entries, after.index.entries);
    }
  }

  lemma RowsAreFullDirectories(codec: Codec, s: State, k: Key)
    requires Agrees(codec, s) && k in s.disk
    ensures k in s.index.entries <==> s.disk[k] != map[]
    ensures k in s.index.entries ==> Readable(codec, k, s.disk[k]) == Some(s.index.entries[k])
  {
    EmptyDirIsUnreadable(codec, k);
  }

  lemma RestartKeepsDirectories(limits: Limits, codec: Codec, s: State, after: State)
    requires Agrees(codec, s) && after.index.entries == s.index.entries
    requires after.disk == (map k | k in s.disk && k in after.index.entries :: s.disk[k])
    ensures after.disk == (map k | k in s.disk && s.disk[k] != map[] :: s.disk[k])
    ensures Agrees(codec, after)
  {
    forall k | k in s.disk
      ensures k in s.index.entries <==> s.disk[k] != map[]
      ensures k in s.index.entries ==> Readable(codec, k, s.disk[k]) == Some(s.index.entries[k])
    {
      RowsAreFullDirectories(codec, s, k);
    }
  }

  /** Rebuilding from disk gives back the running index: same rows, totals and counts, and
      the same bytes for every tenant. Only empty leftover directories disappear. */
  lemma RestartRestoresIndex(limits: Limits, codec: Codec, s: State, after: State)
    requires Good(limits, codec, s) && Rebuilt(limits, codec, s.disk, after)
    ensures after.index.entries == s.index.entries && after.index.total == s.index.total
    ensures after.index.perTenantEntries == s.index.perTenantEntries
    ensures forall t :: Used(after.index, t) == Used(s.index, t)
    ensures after.disk == (map k | k in s.disk && s.disk[k] != map[] :: s.disk[k])
    ensures Good(limits, codec, after)
  {
    RestartKeepsRows(limits, codec, s, after);
    ExactIsDetermined(s.index, after.index);
    RestartKeepsDirectories(limits, codec, s, after);
  }

  ghost predicate Listed(index: Index) {
    forall k :: k in index.entries ==> k.tenant in index.perTenant
  }

  lemma ListedTenants(index: Index, t: Tenant)
    requires Exact(index) && Listed(index)
    ensures t in index.perTenant <==> |Rows(index.entries, t)| > 0
  {
    assert ExactFor(index, t);
    TenantHasRow(index.entries, t);
  }

  lemma SameByteTable(full: Index, other: Index)
    requires Exact(full) && Exact(other) && full.entries == other.entries
    requires forall t :: t in full.perTenant <==> |Rows(full.entries, t)| > 0
    ensures full.perTenant == other.perTenant <==> Listed(other)
  {
    forall k | k in full.entries ensures k.tenant in full.perTenant {
      TenantHasRow(full.entries, k.tenant);
    }
    if Listed(other) {
      ExactIsDetermined(full, other);
      forall t ensures t in full.perTenant <==> t in other.perTenant {
        ListedTenants(other, t);
      }
      forall t | t in other.perTenant ensures full.perTenant[t] == other.perTenant[t] {
        assert Used(full, t) == Used(other, t);
      }
    }
  }

  /** The raw per-tenant byte table, as listed for metrics, is restored exactly when it
      still lists every tenant that has a row. */
  lemma RestartRestoresByteTable(limits: Limits, codec: Codec, s: State, after: State)
    requires Good(limits, codec, s) && Rebuilt(limits, codec, s.disk, after)
    ensures after.index.perTenant == s.index.perTenant <==> Listed(s.index)
  {
    RestartKeepsRows(limits, codec, s, after);
    SameByteTable(after.index, s.index);
  }

  /** It need not: removing the last row with bytes unlists a tenant that still has rows. */
  lemma RemovalCanUnlistTenant(index: Index, k: Key, other: Key)
    requires Exact(index) && k in index.entries && other in index.entries && k != other
    requires k.tenant == other.tenant && index.entries[k].bytes == Used(index, k.tenant) > 0
    ensures other in WithoutRow(index, k).entries && other.tenant !in WithoutRow(index, k).perTenant
    ensures !Listed(WithoutRow(index, k))
  {
    RowFitsCounters(index, k);
  }

  lemma TenantHasRow(entries: map<Key, Entry>, t: Tenant)
    ensures |Rows(entries, t)| > 0 <==> exists k :: k in entries && k.tenant == t
  {
    if |Rows(entries, t)| > 0 {
      assert Rows(entries, t) != map[];
      var k :| k in Rows(entries, t);
      assert k in entries && k.tenant == t;
    }
    if k :| k in entries && k.tenant == t { assert k in Rows(entries, t); }
  }

  // ---- Accounts without agreement ----

  lemma GoodIsAccounted(limits: Limits, codec: Codec, s: State)
    requires Good(limits, codec, s)
    ensures Accounted(limits, s)
  {
    forall k | k in s.disk && s.disk[k] != map[]
      ensures k in s.index.entries && PayloadBytes(s.disk[k]) <= s.index.entries[k].bytes
    {
      assert Readable(codec, k, s.disk[k]) == Some(s.index.entries[k]);
    }
  }

  /** No write of a put leaves more payload in its directory than the put accounts for. */
  lemma StagedPayload(limits: Limits, s: State, up: Upload, now: nat, record: Bytes)
    requires limits.Fits() && Exact(s.index) && Covered(s) && Refusal(limits, s.index, up).None?
    ensures var bytes, dir, name := NewEntry(limits, s.index, up, now).bytes, DirOf(s.disk, up.key), SafeName(up.name);
            && PayloadBytes(dir) <= bytes
            && (name !in dir ==> PayloadBytes(dir[name := up.bytes]) <= bytes)
            && (name !in dir ==> PayloadBytes(dir[name := up.bytes][META_FILE := record]) <= bytes)
  {
    var dir, name := DirOf(s.disk, up.key), SafeName(up.name);
    AcceptedFits(limits, s.index, up, now);
    assert PayloadSizes(map[]) == map[];
    if name !in dir {
      PayloadAfterWrite(dir, name, up.bytes);
      PayloadAfterRecord(dir[name := up.bytes], record);
    }
  }

  lemma CoveredAfterChange(s: State, after: State, k: Key, dir: Dir, entry: Entry)
    requires Covered(s) && PayloadBytes(dir) <= entry.bytes
    requires after.disk == s.disk[k := dir] && after.index.entries == s.index.entries[k := entry]
    ensures Covered(after)
  {
  }

  /** The directory and the row a successful commit leaves. */
  lemma Committed(limits: Limits, codec: Codec, s: State, up: Upload, now: nat) returns (dir: Dir, entry: Entry)
    requires Commit(limits, codec, s, up, now, NoFault).1.Ok?
    ensures var after := Commit(limits, codec, s, up, now, NoFault).0;
            && after.disk == s.disk[up.key := dir] && after.index.entries == s.index.entries[up.key := entry]
    ensures entry == NewEntry(limits, s.index, up, now) && Refusal(limits, s.index, up).None?
    ensures SafeName(up.name) !in DirOf(s.disk, up.key)
    ensures dir == DirOf(s.disk, up.key)[SafeName(up.name) := up.bytes][META_FILE := codec.encode(entry)]
  {
    entry := NewEntry(limits, s.index, up, now);
    dir := DirOf(s.disk, up.key)[SafeName(up.name) := up.bytes][META_FILE := codec.encode(entry)];
  }

  lemma SuccessKeepsCover(limits: Limits, codec: Codec, s: State, up: Upload, now: nat)
    requires limits.Fits() && Exact(s.index) && Covered(s) && Commit(limits, codec, s, up, now, NoFault).1.Ok?
    ensures Covered(Commit(limits, codec, s, up, now, NoFault).0)
  {
    var dir, entry := Committed(limits, codec, s, up, now);
    StagedPayload(limits, s, up, now, codec.encode(entry));
    CoveredAfterChange(s, Commit(limits, codec, s, up, now, NoFault).0, up.key, dir, entry);
  }

  lemma FailureKeepsCover(limits: Limits, codec: Codec, s: State, up: Upload, now: nat, fault: Fault)
    requires Covered(s) && Commit(limits, codec, s, up, now, fault).1.Err?
    ensures Covered(Commit(limits, codec, s, up, now, fault).0)
  {
  }

  lemma CommitKeepsCover(limits: Limits, codec: Codec, s: State, up: Upload, now: nat, fault: Fault)
    requires limits.Fits() && Exact(s.index) && Covered(s)
    ensures Covered(Commit(limits, codec, s, up, now, fault).0)
  {
    if Commit(limits, codec, s, up, now, fault).1.Ok? {
      SuccessHasNoFault(limits, codec, s, up, now, fault);
      SuccessKeepsCover(limits, codec, s, up, now);
    } else {
      FailureKeepsCover(limits, codec, s, up, now, fault);
    }
  }

  lemma EvictionKeepsCover(limits: Limits, before: State, after: State)
    requires Evicted(limits, before, after) && Covered(before) && WithinTenants(limits, before.index.entries)
    ensures Covered(after) && WithinTenants(limits, after.index.entries)
  {
    FewerRows(after.index.entries, before.index.entries);
  }

  // ---- One put ----

  /** A put with what follows it: nothing when it fails, the evictions when it does not. */
  ghost predicate PutStep(limits: Limits, codec: Codec, s: State, up: Upload, now: nat, fault: Fault, after: State) {
    var (committed, result) := Commit(limits, codec, s, up, now, fault);
    if result.Ok? then Evicted(limits, committed, after) else after == committed
  }

  lemma SmallerKeepsCeilings(limits: Limits, a: map<Key, Entry>, b: map<Key, Entry>)
    requires WithinStore(limits, b) && WithinTenants(limits, b)
    requires forall k :: k in a ==> k in b && a[k].bytes <= b[k].bytes
    ensures WithinStore(limits, a) && WithinTenants(limits, a)
  {
    FewerRows(a, b);
  }

  /** Whatever the payload is called, and whatever a record decodes to, a put keeps the
      accounts. */
  lemma PutKeepsAccounts(limits: Limits, codec: Codec, s: State, up: Upload, now: nat, fault: Fault, after: State)
    requires limits.Fits() && Accounted(limits, s) && PutStep(limits, codec, s, up, now, fault, after)
    ensures Accounted(limits, after)
  {
    CommitKeepsCover(limits, codec, s, up, now, fault);
    TenantsAfterCommit(limits, codec, s, up, now, fault);
    if Commit(limits, codec, s, up, now, fault).1.Ok? {
      EvictionKeepsCover(limits, Commit(limits, codec, s, up, now, fault).0, after);
    }
  }

  lemma CommitKeepsAgreementAt(limits: Limits, codec: Codec, s: State, up: Upload, now: nat, k: Key)
    requires Lawful(codec) && limits.Fits() && Exact(s.index) && AgreesAt(codec, s, k)
    requires Commit(limits, codec, s, up, now, NoFault).1.Ok? && (up.key == k ==> Storable(up))
    ensures AgreesAt(codec, Commit(limits, codec, s, up, now, NoFault).0, k)
  {
    if up.key == k { CommittedDirectory(limits, codec, s, up, now); }
  }

  lemma FailedCommitAgreesAt(limits: Limits, codec: Codec, s: State, up: Upload, now: nat, fault: Fault, k: Key)
    requires AgreesAt(codec, s, k) && Commit(limits, codec, s, up, now, fault).1.Err?
    ensures AgreesAt(codec, Commit(limits, codec, s, up, now, fault).0, k)
  {
  }

  lemma SuccessHasNoFault(limits: Limits, codec: Codec, s: State, up: Upload, now: nat, fault: Fault)
    requires Commit(limits, codec, s, up, now, fault).1.Ok?
    ensures Commit(limits, codec, s, up, now, fault) == Commit(limits, codec, s, up, now, NoFault)
  {
  }

  /** A put spoils the agreement of disk and index at no key but its own, and there only by an
      accepted payload that cannot be stored. */
  lemma PutKeepsAgreementAt(limits: Limits, codec: Codec, s: State, up: Upload, now: nat, fault: Fault, after: State,
                            k: Key)
    requires Lawful(codec) && limits.Fits() && Exact(s.index) && AgreesAt(codec, s, k)
    requires PutStep(limits, codec, s, up, now, fault, after)
    requires Commit(limits, codec, s, up, now, fault).1.Ok? && up.key == k ==> Storable(up)
    ensures AgreesAt(codec, after, k)
  {
    var (committed, result) := Commit(limits, codec, s, up, now, fault);
    if result.Ok? {
      SuccessHasNoFault(limits, codec, s, up, now, fault);
      CommitKeepsAgreementAt(limits, codec, s, up, now, k);
      EvictionKeepsAgreementAt(limits, codec, committed, after, k);
    } else {
      FailedCommitAgreesAt(limits, codec, s, up, now, fault, k);
    }
  }

  lemma EvictionKeepsAgreementAt(limits: Limits, codec: Codec, before: State, after: State, k: Key)
    requires Evicted(limits, before, after) && AgreesAt(codec, before, k)
    ensures AgreesAt(codec, after, k)
  {
  }

  lemma ExactOfNoEntries()
    ensures Exact(NO_ENTRIES)
    ensures forall t :: Rows(map[], t) == map[]
  {
    NoRowsNoBytes(map[]);
    forall t ensures ExactFor(NO_ENTRIES, t) && Rows(map[], t) == map[] {
      assert Rows(map[], t) == map[];
    }
  }

  lemma EmptyIsGood(limits: Limits, codec: Codec)
    ensures Good(limits, codec, EMPTY)
  {
    ExactOfNoEntries();
    NoRowsNoBytes(map[]);
  }
}
