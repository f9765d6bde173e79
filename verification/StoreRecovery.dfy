/** Crashes, reads after writes, and the one payload name the store cannot hold. */
module StoreRecovery {
  import opened Wrappers
  import opened MapSums
  import opened StoreModel
  import opened StoreSafety

  // ---- Crashes ----

  /** What an interrupted recursive delete can leave of a tree: any part of it. */
  ghost predicate Eroded(left: Disk, disk: Disk) {
    forall k :: k in left ==> k in disk && ErodedDir(left[k], disk[k])
  }

  ghost predicate ErodedDir(left: Dir, dir: Dir) {
    forall name :: name in left ==> name in dir && left[name] == dir[name]
  }

  /** The disks a process can leave behind when it dies inside a put: before or after each
      of the writes the put gets to, or anywhere in the evictions that follow. */
  ghost predicate PutCrash(limits: Limits, codec: Codec, s: State, up: Upload, now: nat, disk: Disk) {
    || disk == s.disk
    || (Refusal(limits, s.index, up).None? && disk == Stage1(s, up))
    || (Commit(limits, codec, s, up, now, NoFault).1.Ok?
        && (disk == Stage2(s, up) || Eroded(disk, Stage3(codec, s, up, NewEntry(limits, s.index, up, now)))))
  }

  ghost predicate Dominated(rows: map<Key, Entry>, entries: map<Key, Entry>) {
    forall k :: k in rows ==> k in entries && rows[k].bytes <= entries[k].bytes
  }

  lemma ErodedDirIsSmaller(left: Dir, dir: Dir)
    requires ErodedDir(left, dir)
    ensures PayloadBytes(left) <= PayloadBytes(dir)
  {
    SumDominated(PayloadSizes(left), PayloadSizes(dir));
  }

  lemma ErodedScan(codec: Codec, left: Disk, disk: Disk)
    requires Eroded(left, disk)
    ensures Dominated(Scanned(codec, left), Scanned(codec, disk))
  {
    forall k | k in Scanned(codec, left)
      ensures k in Scanned(codec, disk) && Scanned(codec, left)[k].bytes <= Scanned(codec, disk)[k].bytes
    {
      assert META_FILE in left[k];
      ErodedDirIsSmaller(left[k], disk[k]);
    }
  }

  /** A start-up scan of any disk whose readable rows are dominated by rows within the
      tenants' limits ends in a good state that counts exactly the payload bytes found. */
  lemma RebuiltFromSmaller(limits: Limits, codec: Codec, disk: Disk, entries: map<Key, Entry>, after: State)
    requires Rebuilt(limits, codec, disk, after)
    requires Dominated(Scanned(codec, disk), entries) && WithinTenants(limits, entries)
    ensures Good(limits, codec, after)
    ensures forall k :: k in after.index.entries ==>
              k in disk && after.disk[k] == disk[k] && after.index.entries[k].bytes == PayloadBytes(disk[k])
  {
    RebuiltRows(limits, codec, disk, after);
    assert WithinTenants(limits, after.index.entries) by { FewerRows(after.index.entries, entries); }
  }

  lemma RebuiltRow(limits: Limits, codec: Codec, disk: Disk, after: State, k: Key)
    requires Rebuilt(limits, codec, disk, after) && k in after.index.entries
    ensures k in Scanned(codec, disk) && after.index.entries[k] == Scanned(codec, disk)[k]
    ensures k in disk && k in after.disk && after.disk[k] == disk[k]
    ensures Readable(codec, k, disk[k]) == Some(after.index.entries[k])
    ensures after.index.entries[k].bytes == PayloadBytes(disk[k])
  {
    assert k in Scanned(codec, disk);
  }

  lemma RebuiltRows(limits: Limits, codec: Codec, disk: Disk, after: State)
    requires Rebuilt(limits, codec, disk, after)
    ensures Agrees(codec, after)
    ensures forall k :: k in after.index.entries ==>
              && k in Scanned(codec, disk) && after.index.entries[k] == Scanned(codec, disk)[k]
              && k in disk && k in after.disk && after.disk[k] == disk[k]
              && after.index.entries[k].bytes == PayloadBytes(disk[k])
  {
    var found := Scanned(codec, disk);
    forall k | k in after.index.entries
      ensures k in found && after.index.entries[k] == found[k]
      ensures k in disk && k in after.disk && after.disk[k] == disk[k]
      ensures Readable(codec, k, after.disk[k]) == Some(after.index.entries[k])
      ensures after.index.entries[k].bytes == PayloadBytes(disk[k])
    {
      RebuiltRow(limits, codec, disk, after, k);
    }
  }

  /** What a scan of the disk would find, at most. */
  lemma ScanIsCovered(codec: Codec, s: State)
    requires Covered(s)
    ensures Dominated(Scanned(codec, s.disk), s.index.entries)
  {
    forall k | k in Scanned(codec, s.disk)
      ensures k in s.index.entries && Scanned(codec, s.disk)[k].bytes <= s.index.entries[k].bytes
    {
      EmptyDirIsUnreadable(codec, k);
    }
  }

  /** The same of a disk with another directory in one place. */
  lemma ScanOfOneChange(codec: Codec, s: State, k: Key, disk: Disk, entry: Entry)
    requires Covered(s) && disk - {k} == s.disk - {k} && k in disk
    requires PayloadBytes(disk[k]) <= entry.bytes
    ensures Dominated(Scanned(codec, disk), s.index.entries[k := entry])
  {
    var found, rows := Scanned(codec, disk), s.index.entries[k := entry];
    ScanIsCovered(codec, s);
    forall o | o in found ensures o in rows && found[o].bytes <= rows[o].bytes {
      if o != k {
        assert o in disk - {k} && disk[o] == s.disk[o];
        assert o in Scanned(codec, s.disk);
      }
    }
  }

  lemma StageChangesOneDirectory(limits: Limits, codec: Codec, s: State, up: Upload, now: nat, stage: Disk, dir: Dir)
    requires Covered(s) && stage == s.disk[up.key := dir]
    requires PayloadBytes(dir) <= NewEntry(limits, s.index, up, now).bytes
    ensures Dominated(Scanned(codec, stage), s.index.entries[up.key := NewEntry(limits, s.index, up, now)])
  {
    assert stage - {up.key} == s.disk - {up.key};
    ScanOfOneChange(codec, s, up.key, stage, NewEntry(limits, s.index, up, now));
  }

  /** A disk left by a crashed put holds at most the rows the put would have committed. */
  lemma CrashedScan(limits: Limits, codec: Codec, s: State, up: Upload, now: nat, disk: Disk)
    requires limits.Fits() && Accounted(limits, s) && Refusal(limits, s.index, up).None?
    requires PutCrash(limits, codec, s, up, now, disk)
    ensures Dominated(Scanned(codec, disk), s.index.entries[up.key := NewEntry(limits, s.index, up, now)])
  {
    var entry, dir, name := NewEntry(limits, s.index, up, now), DirOf(s.disk, up.key), SafeName(up.name);
    var record := codec.encode(entry);
    StagedPayload(limits, s, up, now, record);
    if disk == s.disk {
      ScanIsCovered(codec, s);
      AcceptedFits(limits, s.index, up, now);
    } else if disk == Stage1(s, up) {
      StageChangesOneDirectory(limits, codec, s, up, now, disk, dir);
    } else if disk == Stage2(s, up) {
      StageChangesOneDirectory(limits, codec, s, up, now, disk, dir[name := up.bytes]);
    } else {
      var full := Stage3(codec, s, up, entry);
      StageChangesOneDirectory(limits, codec, s, up, now, full, dir[name := up.bytes][META_FILE := record]);
      ErodedScan(codec, disk, full);
    }
  }

  lemma WithoutRecordUnread(codec: Codec, k: Key, disk: Disk)
    requires META_FILE !in DirOf(disk, k)
    ensures k !in Scanned(codec, disk)
  {
  }

  /** The rows a put would leave, were it accepted, stay within the tenants' ceilings. */
  lemma AcceptedWithinTenants(limits: Limits, s: State, up: Upload, now: nat)
    requires limits.Fits() && Exact(s.index) && WithinTenants(limits, s.index.entries)
    requires Refusal(limits, s.index, up).None?
    ensures WithinTenants(limits, s.index.entries[up.key := NewEntry(limits, s.index, up, now)])
  {
    var entry := NewEntry(limits, s.index, up, now);
    var rows := s.index.entries[up.key := entry];
    AcceptedFits(limits, s.index, up, now);
    WithRowExact(s.index, up.key, entry, |up.bytes|);
    forall t ensures TotalBytes(Rows(rows, t)) <= limits.maxTenantBytes && |Rows(rows, t)| <= limits.maxTenantEntries {
      assert ExactFor(WithRow(s.index, up.key, entry, |up.bytes|), t) && ExactFor(s.index, t);
      RowsAfterUpdate(s.index.entries, up.key, entry, t);
    }
  }

  /** Whatever instant a put dies at, whatever its payload is called, the next start-up is in
      a good state: the index counts exactly the payload bytes on disk, all ceilings hold,
      and an entry whose metadata was not yet written does not exist. */
  lemma CrashedPutRecovers(limits: Limits, codec: Codec, s: State, up: Upload, now: nat, disk: Disk, after: State)
    requires limits.Fits() && Accounted(limits, s)
    requires PutCrash(limits, codec, s, up, now, disk) && Rebuilt(limits, codec, disk, after)
    ensures Good(limits, codec, after)
    ensures forall k :: k in after.index.entries ==>
              k in disk && after.disk[k] == disk[k] && after.index.entries[k].bytes == PayloadBytes(disk[k])
    ensures META_FILE !in DirOf(disk, up.key) ==> up.key !in after.index.entries
  {
    if Refusal(limits, s.index, up).None? {
      var rows := s.index.entries[up.key := NewEntry(limits, s.index, up, now)];
      AcceptedWithinTenants(limits, s, up, now);
      CrashedScan(limits, codec, s, up, now, disk);
      RebuiltFromSmaller(limits, codec, disk, rows, after);
    } else {
      ScanIsCovered(codec, s);
      RebuiltFromSmaller(limits, codec, disk, s.index.entries, after);
    }
    if META_FILE !in DirOf(disk, up.key) {
      WithoutRecordUnread(codec, up.key, disk);
    }
  }

  /** The same for a crash inside a delete, a reap or an eviction, and for a plain restart. */
  lemma CrashedEraseRecovers(limits: Limits, codec: Codec, s: State, disk: Disk, after: State)
    requires Accounted(limits, s) && Eroded(disk, s.disk) && Rebuilt(limits, codec, disk, after)
    ensures Good(limits, codec, after)
    ensures forall k :: k in after.index.entries ==>
              k in disk && after.disk[k] == disk[k] && after.index.entries[k].bytes == PayloadBytes(disk[k])
  {
    ErodedScan(codec, disk, s.disk);
    ScanIsCovered(codec, s);
    RebuiltFromSmaller(limits, codec, disk, s.index.entries, after);
  }

  // ---- The metadata file's own name ----

  lemma StorableAgrees(limits: Limits, codec: Codec, s: State, up: Upload, now: nat)
    requires Lawful(codec) && limits.Fits() && Good(limits, codec, s) && Storable(up)
    requires Commit(limits, codec, s, up, now, NoFault).1.Ok?
    ensures var committed := Commit(limits, codec, s, up, now, NoFault).0;
            Agrees(codec, committed) && Scanned(codec, committed.disk) == committed.index.entries
  {
    DirectoriesAfterCommit(limits, codec, s, up, now, NoFault, {});
    ScanFindsTheRows(codec, Commit(limits, codec, s, up, now, NoFault).0);
  }

  lemma UnreadableRow(codec: Codec, s: State, k: Key)
    requires k in s.index.entries && k in s.disk && Readable(codec, k, s.disk[k]) != Some(s.index.entries[k])
    ensures !Agrees(codec, s) && Scanned(codec, s.disk) != s.index.entries
  {
    if k in Scanned(codec, s.disk) {
      assert Scanned(codec, s.disk)[k] != s.index.entries[k];
    }
  }

  /** An accepted payload leaves disk and index in agreement, and a later scan finds the
      same rows, exactly when it is not stored as `meta.json` or is empty. */
  lemma MetadataNameBreaksAgreement(limits: Limits, codec: Codec, s: State, up: Upload, now: nat)
    requires Lawful(codec) && limits.Fits() && Good(limits, codec, s)
    requires Commit(limits, codec, s, up, now, NoFault).1.Ok?
    ensures var committed := Commit(limits, codec, s, up, now, NoFault).0;
            && (Agrees(codec, committed) <==> Storable(up))
            && (Scanned(codec, committed.disk) == committed.index.entries <==> Storable(up))
  {
    if Storable(up) {
      StorableAgrees(limits, codec, s, up, now);
    } else {
      CommittedDirectory(limits, codec, s, up, now);
      UnreadableRow(codec, Commit(limits, codec, s, up, now, NoFault).0, up.key);
    }
  }

  // ---- Reads ----

  lemma SurvivorsKeepDirectories(limits: Limits, before: State, after: State, k: Key)
    requires Evicted(limits, before, after) && k in after.index.entries
    ensures k in before.index.entries && after.index.entries[k] == before.index.entries[k]
    ensures DirOf(after.disk, k) == DirOf(before.disk, k)
  {
  }

  /** A put can be read back until it expires or is evicted. What comes back is the payload,
      byte for byte, exactly when it is not stored as `meta.json` or happens to be the very
      record that overwrote it. */
  lemma PutThenRead(limits: Limits, codec: Codec, s: State, up: Upload, now: nat, after: State, later: nat)
    requires Commit(limits, codec, s, up, now, NoFault).1.Ok?
    requires Evicted(limits, Commit(limits, codec, s, up, now, NoFault).0, after)
    ensures var record := codec.encode(NewEntry(limits, s.index, up, now));
            && Read(after, up.key, up.name, later)
               == (if up.key !in after.index.entries then Err(NotFound)
                   else if now + limits.Ttl(up.key.kind) <= later then Err(Expired)
                   else Ok(if SafeName(up.name) == META_FILE then record else up.bytes))
            && (Read(after, up.key, up.name, later) == Ok(up.bytes)
                <==> && up.key in after.index.entries && later < now + limits.Ttl(up.key.kind)
                     && (SafeName(up.name) == META_FILE ==> up.bytes == record))
  {
    var committed := Commit(limits, codec, s, up, now, NoFault).0;
    if up.key in after.index.entries { SurvivorsKeepDirectories(limits, committed, after, up.key); }
  }

  /** A put changes no live file of any other entry, whoever owns it. */
  lemma PutLeavesOtherEntries(limits: Limits, codec: Codec, s: State, up: Upload, now: nat, after: State,
                              k: Key, name: string, later: nat)
    requires Commit(limits, codec, s, up, now, NoFault).1.Ok?
    requires Evicted(limits, Commit(limits, codec, s, up, now, NoFault).0, after)
    requires k in after.index.entries && k != up.key
    ensures k in s.index.entries && Read(after, k, name, later) == Read(s, k, name, later)
  {
    SurvivorsKeepDirectories(limits, Commit(limits, codec, s, up, now, NoFault).0, after, k);
  }

  /** Nor any other payload of its own entry while that entry lives. */
  lemma PutLeavesSiblings(limits: Limits, codec: Codec, s: State, up: Upload, now: nat, after: State,
                          name: string, later: nat)
    requires Commit(limits, codec, s, up, now, NoFault).1.Ok?
    requires Evicted(limits, Commit(limits, codec, s, up, now, NoFault).0, after)
    requires up.key in after.index.entries && up.key in s.index.entries
    requires SafeName(name) != SafeName(up.name) && SafeName(name) != META_FILE
    requires later < s.index.entries[up.key].expiresAt && later < now + limits.Ttl(up.key.kind)
    ensures Read(after, up.key, name, later) == Read(s, up.key, name, later)
  {
    var committed := Commit(limits, codec, s, up, now, NoFault).0;
    SurvivorsKeepDirectories(limits, committed, after, up.key);
    var dir := DirOf(s.disk, up.key);
    assert SafeName(name) in DirOf(committed.disk, up.key) <==> SafeName(name) in dir;
  }

  // ---- Expiry ----

  /** An entry lives up to a second and no longer: reads find it before and say that it has
      expired from then on, and a reaper removes its row from then on and not before. */
  ghost predicate LivesUntil(s: State, k: Key, end: nat) {
    && k in s.index.entries
    && (forall name, at: nat :: Read(s, k, name, at) == Err(Expired) <==> end <= at)
    && (forall at: nat, after :: Reaped(s, at, after) ==> (k in after.index.entries <==> at < end))
  }

  lemma LivesUntilItsRowSays(s: State, k: Key)
    requires k in s.index.entries && IsId(k.kind, k.id)
    ensures LivesUntil(s, k, s.index.entries[k].expiresAt)
  {
    var end := s.index.entries[k].expiresAt;
    forall name, at: nat ensures Read(s, k, name, at) == Err(Expired) <==> end <= at {
    }
    forall at: nat, after | Reaped(s, at, after) ensures k in after.index.entries <==> at < end {
    }
  }

  /** How long a put keeps its entry: from its own second on, first file or second, an output
      for the time limits give outputs, an asset for that of assets, a template for that of
      templates. */
  lemma PutLivesForItsTtl(limits: Limits, codec: Codec, s: State, up: Upload, now: nat, after: State)
    requires Commit(limits, codec, s, up, now, NoFault).1.Ok?
    requires Evicted(limits, Commit(limits, codec, s, up, now, NoFault).0, after) && up.key in after.index.entries
    ensures up.key.kind == Output ==> LivesUntil(after, up.key, now + limits.outputTtl)
    ensures up.key.kind == Asset ==> LivesUntil(after, up.key, now + limits.assetTtl)
    ensures up.key.kind == Template ==> LivesUntil(after, up.key, now + limits.templateTtl)
  {
    var dir, entry := Committed(limits, codec, s, up, now);
    SurvivorsKeepDirectories(limits, Commit(limits, codec, s, up, now, NoFault).0, after, up.key);
    LivesUntilItsRowSays(after, up.key);
  }

  // ---- What a put needs ----

  /** How many rows the tenant would have, were the upload among them. */
  ghost function RowsWith(entries: map<Key, Entry>, up: Upload): nat {
    |Rows(entries, up.key.tenant).Keys + {up.key}|
  }

  /** ... and what they would weigh. */
  ghost function BytesWith(entries: map<Key, Entry>, up: Upload): nat {
    var before := if up.key in entries then entries[up.key].bytes else 0;
    Sum(Sizes(Rows(entries, up.key.tenant))[up.key := before + |up.bytes|])
  }

  lemma CountersWith(index: Index, up: Upload)
    requires Exact(index)
    ensures BytesWith(index.entries, up) == Used(index, up.key.tenant) + |up.bytes|
    ensures RowsWith(index.entries, up) == Count(index, up.key.tenant) + if up.key in index.entries then 0 else 1
  {
    var k, rows := up.key, Rows(index.entries, up.key.tenant);
    assert ExactFor(index, k.tenant);
    SumUpdate(Sizes(rows), k, (if k in index.entries then index.entries[k].bytes else 0) + |up.bytes|);
    if k in index.entries {
      assert rows.Keys + {k} == rows.Keys;
      SumRemove(Sizes(rows), k);
    } else {
      assert Sizes(rows) - {k} == Sizes(rows);
    }
  }

  /** A put is accepted exactly when its id is well formed, the tenant with the upload stays
      within both its ceilings, and no file of that name is stored; otherwise the first of these
      that does not hold is reported, bytes before rows. */
  lemma PutIsAcceptedExactly(limits: Limits, codec: Codec, s: State, up: Upload, now: nat)
    requires limits.Fits() && Exact(s.index) && WithinTenants(limits, s.index.entries)
    ensures var answer := Commit(limits, codec, s, up, now, NoFault).1;
            var bytesFit := BytesWith(s.index.entries, up) <= limits.maxTenantBytes;
            var rowsFit := RowsWith(s.index.entries, up) <= limits.maxTenantEntries;
            var named, stored := IsId(up.key.kind, up.key.id), SafeName(up.name) in DirOf(s.disk, up.key);
            && (answer.Ok? <==> named && bytesFit && rowsFit && !stored)
            && (answer == Err(BadId) <==> !named)
            && (answer == Err(TenantFull(|up.bytes|, limits.maxTenantBytes)) <==> named && !bytesFit)
            && (answer == Err(TenantEntriesFull(limits.maxTenantEntries)) <==> named && bytesFit && !rowsFit)
            && (answer == Err(AlreadyExists) <==> named && bytesFit && rowsFit && stored)
  {
    CountersWith(s.index, up);
    assert ExactFor(s.index, up.key.tenant);
  }

  /** A write error is reported where the put would have been accepted, and then no row changes
      and no file; at most an empty directory is new. */
  lemma FaultIsReported(limits: Limits, codec: Codec, s: State, up: Upload, now: nat, fault: Fault)
    requires fault != NoFault
    ensures var clean, faulty := Commit(limits, codec, s, up, now, NoFault).1, Commit(limits, codec, s, up, now, fault);
            && faulty.1 == (if clean.Ok? then Err(WriteFailed) else clean)
            && faulty.0.index == s.index
            && (faulty.0.disk == s.disk || faulty.0.disk == s.disk[up.key := DirOf(s.disk, up.key)])
  {
  }

  /** What the row of a put says: the first file gives it its name, its second of creation and
      its description; a later one adds its bytes and changes nothing else but the expiry. */
  lemma PutIsRecorded(limits: Limits, codec: Codec, s: State, up: Upload, now: nat, after: State)
    requires limits.Fits() && Exact(s.index) && Commit(limits, codec, s, up, now, NoFault).1.Ok?
    requires Evicted(limits, Commit(limits, codec, s, up, now, NoFault).0, after) && up.key in after.index.entries
    ensures var row := after.index.entries[up.key];
            if up.key in s.index.entries
            then var old_ := s.index.entries[up.key];
                 row == old_.(bytes := old_.bytes + |up.bytes|, expiresAt := row.expiresAt)
            else && row.id == up.key.id && row.kind == up.key.kind && row.meta == up.meta
                 && row.bytes == |up.bytes| && row.createdAt == now
  {
    var dir, entry := Committed(limits, codec, s, up, now);
    AcceptedFits(limits, s.index, up, now);
    SurvivorsKeepDirectories(limits, Commit(limits, codec, s, up, now, NoFault).0, after, up.key);
  }
}
