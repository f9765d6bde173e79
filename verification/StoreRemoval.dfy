/** Removal in two steps: the directory is deleted without the index lock, the row under
    it (`remove`, `src/store.rs`). Deletes, reaps, uploads and evictions interleave. */
module StoreRemoval {
  import opened Wrappers
  import opened StoreModel
  import opened StoreSafety

  /** A delete or reap working on one key. */
  datatype Remover = Remover(key: Key, erased: bool)

  datatype Shared = Shared(store: State, removers: map<nat, Remover>)

  datatype Step =
    | Begin(id: nat, key: Key)
    | EraseDirectory(id: nat)
    | EraseRow(id: nat)
    | Upload(up: Upload, now: nat, fault: Fault)

  /** Keys whose directory is deleted but whose row may still be there. */
  ghost function Halfway(s: Shared): set<Key> {
    set id | id in s.removers && s.removers[id].erased :: s.removers[id].key
  }

  /** A remover starts from a row it saw under the lock. An upload may come at any time. */
  ghost predicate Next(limits: Limits, codec: Codec, s: Shared, step: Step, after: Shared) {
    match step
    case Begin(id, key) =>
      id !in s.removers && key in s.store.index.entries
      && after == s.(removers := s.removers[id := Remover(key, false)])
    case EraseDirectory(id) =>
      id in s.removers && !s.removers[id].erased
      && after == Shared(s.store.(disk := s.store.disk - {s.removers[id].key}),
                         s.removers[id := s.removers[id].(erased := true)])
    case EraseRow(id) =>
      id in s.removers && s.removers[id].erased
      && after == Shared(s.store.(index := WithoutRow(s.store.index, s.removers[id].key)), s.removers - {id})
    case Upload(up, now, fault) =>
      PutStep(limits, codec, s.store, up, now, fault, after.store) && after.removers == s.removers
  }

  predicate Accepts(limits: Limits, codec: Codec, s: Shared, step: Step) {
    step.Upload? && Commit(limits, codec, s.store, step.up, step.now, step.fault).1.Ok?
  }

  /** No upload is accepted between the two halves of a removal of its own key. */
  ghost predicate Timely(limits: Limits, codec: Codec, s: Shared, step: Step) {
    Accepts(limits, codec, s, step) ==> step.up.key !in Halfway(s)
  }

  /** Nor one whose payload cannot be stored; `UploadIsSafeExactly` shows that nothing less
      keeps disk and index in step. */
  ghost predicate Safe(limits: Limits, codec: Codec, s: Shared, step: Step) {
    Accepts(limits, codec, s, step) ==> step.up.key !in Halfway(s) && Storable(step.up)
  }

  // ---- The accounts ----

  /** What the index promises by itself. */
  ghost predicate Kept(limits: Limits, s: Shared) {
    && Exact(s.store.index)
    && WithinStore(limits, s.store.index.entries) && WithinTenants(limits, s.store.index.entries)
  }

  /** No payload without a row that counts as much, and nothing where a removal is halfway. */
  ghost predicate Tracked(s: Shared) {
    Covered(s.store) && forall k :: k in Halfway(s) ==> DirOf(s.store.disk, k) == map[]
  }

  lemma PutKeepsCeilings(limits: Limits, codec: Codec, s: State, up: Upload, now: nat, fault: Fault, after: State)
    requires limits.Fits() && PutStep(limits, codec, s, up, now, fault, after)
    requires Exact(s.index) && WithinStore(limits, s.index.entries) && WithinTenants(limits, s.index.entries)
    ensures Exact(after.index) && WithinStore(limits, after.index.entries) && WithinTenants(limits, after.index.entries)
  {
    TenantsAfterCommit(limits, codec, s, up, now, fault);
    if Commit(limits, codec, s, up, now, fault).1.Ok? {
      FewerRows(after.index.entries, Commit(limits, codec, s, up, now, fault).0.index.entries);
    }
  }

  lemma StepKeepsAccounts(limits: Limits, codec: Codec, s: Shared, step: Step, after: Shared)
    requires limits.Fits() && Kept(limits, s) && Next(limits, codec, s, step, after)
    ensures Kept(limits, after)
  {
    match step
    case Begin(id, key) =>
    case EraseDirectory(id) =>
    case EraseRow(id) =>
      WithoutRowExact(s.store.index, s.removers[id].key);
      SmallerKeepsCeilings(limits, after.store.index.entries, s.store.index.entries);
    case Upload(up, now, fault) => PutKeepsCeilings(limits, codec, s.store, up, now, fault, after.store);
  }

  lemma HalfwayAfterErasure(s: Shared, id: nat, disk: Disk)
    requires id in s.removers && !s.removers[id].erased
    ensures (Halfway(Shared(s.store.(disk := disk), s.removers[id := s.removers[id].(erased := true)]))
             == Halfway(s) + {s.removers[id].key})
  {
    var after := Shared(s.store.(disk := disk), s.removers[id := s.removers[id].(erased := true)]);
    forall j ensures j in Halfway(after) <==> j == s.removers[id].key || j in Halfway(s) {
      if j in Halfway(s) {
        var other :| other in s.removers && s.removers[other].erased && s.removers[other].key == j;
        assert after.removers[other] == s.removers[other];
      }
      if j == s.removers[id].key { assert after.removers[id].erased && after.removers[id].key == j; }
    }
  }

  lemma HalfwayAfterBegin(s: Shared, id: nat, key: Key)
    requires id !in s.removers
    ensures Halfway(s.(removers := s.removers[id := Remover(key, false)])) == Halfway(s)
  {
    var after := s.(removers := s.removers[id := Remover(key, false)]);
    forall j ensures j in Halfway(after) <==> j in Halfway(s) {
      if j in Halfway(s) {
        var other :| other in s.removers && s.removers[other].erased && s.removers[other].key == j;
        assert after.removers[other] == s.removers[other];
      }
    }
  }

  lemma HalfwayAfterEnd(s: Shared, id: nat, store: State)
    requires id in s.removers && s.removers[id].erased
    ensures s.removers[id].key in Halfway(s)
    ensures Halfway(s) - {s.removers[id].key} <= Halfway(Shared(store, s.removers - {id})) <= Halfway(s)
  {
    var after := Shared(store, s.removers - {id});
    forall j | j in Halfway(s) && j != s.removers[id].key ensures j in Halfway(after) {
      var other :| other in s.removers && s.removers[other].erased && s.removers[other].key == j;
      assert other in after.removers;
    }
  }

  lemma PutKeepsEmptiness(limits: Limits, codec: Codec, s: State, up: Upload, now: nat, fault: Fault, after: State,
                          k: Key)
    requires PutStep(limits, codec, s, up, now, fault, after) && DirOf(s.disk, k) == map[]
    requires Commit(limits, codec, s, up, now, fault).1.Ok? ==> up.key != k
    ensures DirOf(after.disk, k) == map[]
  {
  }

  lemma UploadKeepsTracked(limits: Limits, codec: Codec, s: Shared, up: Upload, now: nat, fault: Fault, after: Shared)
    requires limits.Fits() && Kept(limits, s) && Tracked(s)
    requires Next(limits, codec, s, Step.Upload(up, now, fault), after)
    requires Timely(limits, codec, s, Step.Upload(up, now, fault))
    ensures Tracked(after)
  {
    assert Halfway(after) == Halfway(s);
    PutKeepsAccounts(limits, codec, s.store, up, now, fault, after.store);
    forall k | k in Halfway(s) ensures DirOf(after.store.disk, k) == map[] {
      PutKeepsEmptiness(limits, codec, s.store, up, now, fault, after.store, k);
    }
  }

  lemma CoveredWithoutRow(store: State, k: Key)
    requires Covered(store) && DirOf(store.disk, k) == map[]
    ensures Covered(store.(index := WithoutRow(store.index, k)))
  {
    assert WithoutRow(store.index, k).entries == store.index.entries - {k};
  }

  lemma StepKeepsTracked(limits: Limits, codec: Codec, s: Shared, step: Step, after: Shared)
    requires limits.Fits() && Kept(limits, s) && Tracked(s)
    requires Next(limits, codec, s, step, after) && Timely(limits, codec, s, step)
    ensures Tracked(after)
  {
    match step
    case Begin(id, key) => HalfwayAfterBegin(s, id, key);
    case EraseDirectory(id) => HalfwayAfterErasure(s, id, after.store.disk);
    case EraseRow(id) =>
      HalfwayAfterEnd(s, id, after.store);
      CoveredWithoutRow(s.store, s.removers[id].key);
    case Upload(up, now, fault) => UploadKeepsTracked(limits, codec, s, up, now, fault, after);
  }

  ghost predicate Run(limits: Limits, codec: Codec, steps: seq<Step>, states: seq<Shared>) {
    && |states| == |steps| + 1 && states[0] == Shared(EMPTY, map[])
    && forall i :: 0 <= i < |steps| ==> Next(limits, codec, states[i], steps[i], states[i + 1])
  }

  ghost predicate AllTimely(limits: Limits, codec: Codec, steps: seq<Step>, states: seq<Shared>)
    requires |states| == |steps| + 1
  {
    forall i :: 0 <= i < |steps| ==> Timely(limits, codec, states[i], steps[i])
  }

  ghost predicate AllSafe(limits: Limits, codec: Codec, steps: seq<Step>, states: seq<Shared>)
    requires |states| == |steps| + 1
  {
    forall i :: 0 <= i < |steps| ==> Safe(limits, codec, states[i], steps[i])
  }

  lemma NothingIsTracked(limits: Limits, codec: Codec)
    ensures Kept(limits, Shared(EMPTY, map[])) && Tracked(Shared(EMPTY, map[]))
  {
    EmptyIsGood(limits, codec);
  }

  /** Under every interleaving, whenever uploads come and whatever they are called, the
      counters are exact sums of the rows, so no row is subtracted twice, and all four
      ceilings hold. If none is accepted halfway through a removal of its own key, no payload
      on disk is without a row that counts as much. */
  lemma {:induction false} AccountsSurviveRemovals(limits: Limits, codec: Codec, steps: seq<Step>, states: seq<Shared>)
    requires limits.Fits() && Run(limits, codec, steps, states)
    ensures Kept(limits, states[|steps|])
    ensures AllTimely(limits, codec, steps, states) ==> Tracked(states[|steps|])
  {
    if steps == [] {
      NothingIsTracked(limits, codec);
    } else {
      var n := |steps| - 1;
      assert Run(limits, codec, steps[..n], states[..|steps|]);
      AccountsSurviveRemovals(limits, codec, steps[..n], states[..|steps|]);
      StepKeepsAccounts(limits, codec, states[n], steps[n], states[n + 1]);
      if AllTimely(limits, codec, steps, states) {
        assert AllTimely(limits, codec, steps[..n], states[..|steps|]);
        StepKeepsTracked(limits, codec, states[n], steps[n], states[n + 1]);
      }
    }
  }

  // ---- Agreement ----

  ghost predicate Invariant(limits: Limits, codec: Codec, s: Shared) {
    && Kept(limits, s) && AgreesExcept(codec, s.store, Halfway(s))
    && (forall k :: k in Halfway(s) ==> DirOf(s.store.disk, k) == map[])
  }

  lemma PutKeepsAgreement(limits: Limits, codec: Codec, s: State, up: Upload, now: nat, fault: Fault, after: State,
                          halfway: set<Key>)
    requires Lawful(codec) && limits.Fits()
    requires Commit(limits, codec, s, up, now, fault).1.Ok? ==> up.key !in halfway && Storable(up)
    requires Exact(s.index) && AgreesExcept(codec, s, halfway) && WithinTenants(limits, s.index.entries)
    requires PutStep(limits, codec, s, up, now, fault, after)
    ensures AgreesExcept(codec, after, halfway)
  {
    DirectoriesAfterCommit(limits, codec, s, up, now, fault, halfway);
    TenantsAfterCommit(limits, codec, s, up, now, fault);
    if Commit(limits, codec, s, up, now, fault).1.Ok? {
      EvictionKeepsRest(limits, codec, Commit(limits, codec, s, up, now, fault).0, after, halfway);
    }
  }

  lemma UploadKeepsInvariant(limits: Limits, codec: Codec, s: Shared, up: Upload, now: nat, fault: Fault, after: Shared)
    requires Lawful(codec) && limits.Fits() && Invariant(limits, codec, s)
    requires Next(limits, codec, s, Step.Upload(up, now, fault), after)
    requires Safe(limits, codec, s, Step.Upload(up, now, fault))
    ensures Invariant(limits, codec, after)
  {
    assert Halfway(after) == Halfway(s);
    PutKeepsAgreement(limits, codec, s.store, up, now, fault, after.store, Halfway(s));
    PutKeepsCeilings(limits, codec, s.store, up, now, fault, after.store);
    forall k | k in Halfway(s) ensures DirOf(after.store.disk, k) == map[] {
      PutKeepsEmptiness(limits, codec, s.store, up, now, fault, after.store, k);
    }
  }

  lemma AgreementWithoutRow(codec: Codec, store: State, k: Key, before: set<Key>, after: set<Key>)
    requires AgreesExcept(codec, store, before) && DirOf(store.disk, k) == map[] && before - {k} <= after
    ensures AgreesExcept(codec, store.(index := WithoutRow(store.index, k)), after)
  {
    assert WithoutRow(store.index, k).entries == store.index.entries - {k};
  }

  lemma EraseRowKeepsInvariant(limits: Limits, codec: Codec, s: Shared, id: nat, after: Shared)
    requires limits.Fits() && Invariant(limits, codec, s) && Next(limits, codec, s, EraseRow(id), after)
    ensures Invariant(limits, codec, after)
  {
    StepKeepsAccounts(limits, codec, s, EraseRow(id), after);
    HalfwayAfterEnd(s, id, after.store);
    AgreementWithoutRow(codec, s.store, s.removers[id].key, Halfway(s), Halfway(after));
  }

  lemma AgreementWithoutDirectory(codec: Codec, store: State, k: Key, halfway: set<Key>)
    requires AgreesExcept(codec, store, halfway)
    ensures AgreesExcept(codec, store.(disk := store.disk - {k}), halfway + {k})
  {
  }

  lemma EraseDirectoryKeepsInvariant(limits: Limits, codec: Codec, s: Shared, id: nat, after: Shared)
    requires Invariant(limits, codec, s) && Next(limits, codec, s, EraseDirectory(id), after)
    ensures Invariant(limits, codec, after)
  {
    var k := s.removers[id].key;
    HalfwayAfterErasure(s, id, s.store.disk - {k});
    AgreementWithoutDirectory(codec, s.store, k, Halfway(s));
  }

  lemma StepKeepsInvariant(limits: Limits, codec: Codec, s: Shared, step: Step, after: Shared)
    requires Lawful(codec) && limits.Fits() && Invariant(limits, codec, s)
    requires Next(limits, codec, s, step, after) && Safe(limits, codec, s, step)
    ensures Invariant(limits, codec, after)
  {
    match step
    case Begin(id, key) => HalfwayAfterBegin(s, id, key);
    case EraseDirectory(id) => EraseDirectoryKeepsInvariant(limits, codec, s, id, after);
    case EraseRow(id) => EraseRowKeepsInvariant(limits, codec, s, id, after);
    case Upload(up, now, fault) => UploadKeepsInvariant(limits, codec, s, up, now, fault, after);
  }

  lemma {:induction false} RunKeepsInvariant(limits: Limits, codec: Codec, steps: seq<Step>, states: seq<Shared>)
    requires Lawful(codec) && limits.Fits()
    requires Run(limits, codec, steps, states) && AllSafe(limits, codec, steps, states)
    ensures Invariant(limits, codec, states[|steps|])
  {
    if steps == [] {
      EmptyIsGood(limits, codec);
    } else {
      var n := |steps| - 1;
      assert Run(limits, codec, steps[..n], states[..|steps|]);
      assert AllSafe(limits, codec, steps[..n], states[..|steps|]);
      RunKeepsInvariant(limits, codec, steps[..n], states[..|steps|]);
      StepKeepsInvariant(limits, codec, states[n], steps[n], states[n + 1]);
    }
  }

  /** Under every interleaving of removals with safe uploads, each directory with any file in
      it has a row with exactly its bytes, and once no removal is under way, index and disk
      agree completely. */
  lemma RemovalIsSafe(limits: Limits, codec: Codec, steps: seq<Step>, states: seq<Shared>)
    requires Lawful(codec) && limits.Fits()
    requires Run(limits, codec, steps, states) && AllSafe(limits, codec, steps, states)
    ensures var s := states[|steps|];
            && (forall k :: k in s.store.disk && s.store.disk[k] != map[] ==>
                  k in s.store.index.entries && Readable(codec, k, s.store.disk[k]) == Some(s.store.index.entries[k]))
            && (s.removers == map[] ==> Good(limits, codec, s.store))
  {
    RunKeepsInvariant(limits, codec, steps, states);
    var s := states[|steps|];
    if s.removers == map[] { assert Halfway(s) == {}; }
  }

  /** What an accepted put leaves of the other entries: each keeps its row and its directory,
      or loses both. */
  ghost predicate Untouched(s: State, after: State, k: Key) {
    && (forall o :: o in after.index.entries && o != k ==>
          o in s.index.entries && after.index.entries[o] == s.index.entries[o])
    && (forall o :: o in after.disk && o != k ==> o in s.disk && after.disk[o] == s.disk[o])
    && (forall o :: o in s.disk && o in after.index.entries && o != k ==> o in after.disk)
    && (forall o :: o in s.index.entries && o in after.disk && o != k ==> o in after.index.entries)
  }

  lemma PutTouchesOneKey(limits: Limits, codec: Codec, s: State, up: Upload, now: nat, after: State)
    requires Commit(limits, codec, s, up, now, NoFault).1.Ok?
    requires Evicted(limits, Commit(limits, codec, s, up, now, NoFault).0, after)
    ensures Untouched(s, after, up.key)
    ensures up.key in after.index.entries <==> up.key in after.disk
  {
  }

  lemma AgreementOfUntouched(codec: Codec, s: State, after: State, k: Key, halfway: set<Key>)
    requires AgreesExcept(codec, s, halfway) && Untouched(s, after, k)
    requires k !in after.index.entries && k !in after.disk
    ensures AgreesExcept(codec, after, halfway)
    ensures forall o :: DirOf(s.disk, o) == map[] ==> DirOf(after.disk, o) == map[]
  {
  }

  lemma CeilingsAfterPut(limits: Limits, codec: Codec, s: State, up: Upload, now: nat, after: State)
    requires limits.Fits() && Exact(s.index) && WithinTenants(limits, s.index.entries)
    requires Commit(limits, codec, s, up, now, NoFault).1.Ok?
    requires Evicted(limits, Commit(limits, codec, s, up, now, NoFault).0, after)
    ensures WithinTenants(limits, after.index.entries)
  {
    TenantsAfterCommit(limits, codec, s, up, now, NoFault);
    FewerRows(after.index.entries, Commit(limits, codec, s, up, now, NoFault).0.index.entries);
  }

  lemma UploadEvicted(limits: Limits, codec: Codec, s: Shared, up: Upload, now: nat, after: State)
    requires limits.Fits() && Invariant(limits, codec, s)
    requires Commit(limits, codec, s.store, up, now, NoFault).1.Ok? && up.key !in after.index.entries
    requires Evicted(limits, Commit(limits, codec, s.store, up, now, NoFault).0, after)
    ensures Invariant(limits, codec, Shared(after, s.removers))
  {
    CeilingsAfterPut(limits, codec, s.store, up, now, after);
    PutTouchesOneKey(limits, codec, s.store, up, now, after);
    AgreementOfUntouched(codec, s.store, after, up.key, Halfway(s));
    assert Halfway(Shared(after, s.removers)) == Halfway(s);
  }

  /** The row and the directory of a put that its own evictions left alone. */
  lemma KeptPut(limits: Limits, codec: Codec, s: State, up: Upload, now: nat, after: State)
    requires Commit(limits, codec, s, up, now, NoFault).1.Ok?
    requires Evicted(limits, Commit(limits, codec, s, up, now, NoFault).0, after) && up.key in after.index.entries
    ensures up.key in after.disk && after.index.entries[up.key] == NewEntry(limits, s.index, up, now)
    ensures after.disk[up.key] == Commit(limits, codec, s, up, now, NoFault).0.disk[up.key]
    ensures after.disk[up.key] == DirOf(s.disk, up.key)[SafeName(up.name) := up.bytes]
                                    [META_FILE := codec.encode(NewEntry(limits, s.index, up, now))]
    ensures META_FILE in after.disk[up.key]
  {
  }

  lemma UnreadableKept(codec: Codec, after: State, k: Key, halfway: set<Key>)
    requires k in after.index.entries && k in after.disk && k !in halfway
    requires Readable(codec, k, after.disk[k]) != Some(after.index.entries[k])
    ensures !AgreesExcept(codec, after, halfway)
  {
  }

  lemma UnstorableKept(limits: Limits, codec: Codec, s: Shared, up: Upload, now: nat, after: State)
    requires Lawful(codec) && limits.Fits() && Invariant(limits, codec, s) && !Storable(up)
    requires Commit(limits, codec, s.store, up, now, NoFault).1.Ok?
    requires Evicted(limits, Commit(limits, codec, s.store, up, now, NoFault).0, after)
    requires up.key in after.index.entries && up.key !in Halfway(s)
    ensures !AgreesExcept(codec, after, Halfway(s))
  {
    CommittedDirectory(limits, codec, s.store, up, now);
    KeptPut(limits, codec, s.store, up, now, after);
    UnreadableKept(codec, after, up.key, Halfway(s));
  }

  /** When a payload may be put. From any state the interleavings can reach, a put that is
      accepted keeps the invariant, whatever it evicts, exactly when the new entry is itself
      evicted at once, or its payload is storable and its key not between the two halves of
      a removal. */
  lemma UploadIsSafeExactly(limits: Limits, codec: Codec, s: Shared, up: Upload, now: nat, after: State)
    requires Lawful(codec) && limits.Fits() && Invariant(limits, codec, s)
    requires Commit(limits, codec, s.store, up, now, NoFault).1.Ok?
    requires Evicted(limits, Commit(limits, codec, s.store, up, now, NoFault).0, after)
    ensures Invariant(limits, codec, Shared(after, s.removers))
       <==> up.key !in after.index.entries || (Storable(up) && up.key !in Halfway(s))
  {
    var next := Shared(after, s.removers);
    assert Halfway(next) == Halfway(s);
    if up.key !in after.index.entries {
      UploadEvicted(limits, codec, s, up, now, after);
    } else if up.key in Halfway(s) {
      KeptPut(limits, codec, s.store, up, now, after);
    } else if Storable(up) {
      UploadKeepsInvariant(limits, codec, s, up, now, NoFault, next);
    } else {
      UnstorableKept(limits, codec, s, up, now, after);
    }
  }

  /** What the unsafe put comes to: once the removal finishes, the new files are on disk and
      no row, and so no quota, accounts for them. */
  lemma UploadHalfwayOrphans(limits: Limits, codec: Codec, s: Shared, up: Upload, now: nat, after: State, id: nat)
    requires limits.Fits() && Invariant(limits, codec, s)
    requires id in s.removers && s.removers[id] == Remover(up.key, true)
    requires Commit(limits, codec, s.store, up, now, NoFault).1.Ok?
    requires Evicted(limits, Commit(limits, codec, s.store, up, now, NoFault).0, after) && up.key in after.index.entries
    ensures var final := after.(index := WithoutRow(after.index, up.key));
            && Next(limits, codec, Shared(after, s.removers), EraseRow(id), Shared(final, s.removers - {id}))
            && up.key in final.disk && up.key !in final.index.entries
            && final.disk[up.key] == (map[SafeName(up.name) := up.bytes]
                                      + map[META_FILE := codec.encode(NewEntry(limits, s.store.index, up, now))])
  {
    assert up.key in Halfway(s);
    KeptPut(limits, codec, s.store, up, now, after);
  }

  /** A second file put on an entry between the two halves of its removal survives as a
      complete directory that no row, and so no quota, accounts for. */
  lemma UploadDuringRemovalOrphans(limits: Limits, codec: Codec, s: State, up: Upload, now: nat)
    requires Lawful(codec) && limits.Fits() && Good(limits, codec, s) && up.key in s.index.entries
    requires Refusal(limits, s.index, up).None?
    ensures var erased := s.(disk := s.disk - {up.key});
            var committed := Commit(limits, codec, erased, up, now, NoFault);
            var final := committed.0.(index := WithoutRow(committed.0.index, up.key));
            && committed.1.Ok?
            && up.key in final.disk && Readable(codec, up.key, final.disk[up.key]).Some?
            && up.key !in final.index.entries && !Agrees(codec, final)
  {
    var erased := s.(disk := s.disk - {up.key});
    var committed := Commit(limits, codec, erased, up, now, NoFault).0;
    var entry := NewEntry(limits, s.index, up, now);
    AcceptedFits(limits, s.index, up, now);
    assert Readable(codec, up.key, s.disk[up.key]) == Some(s.index.entries[up.key]);
    assert committed.disk[up.key][META_FILE] == codec.encode(entry);
    assert codec.decode(codec.encode(entry)) == Some(entry);
    assert committed.disk[up.key] != map[];
  }
}
