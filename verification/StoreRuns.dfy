/** Runs of the store from an empty root: puts, failing puts, deletes, reaps, evictions,
    restarts and crashes in any order. */
module StoreRuns {
  import opened Wrappers
  import opened StoreModel
  import opened StoreSafety
  import opened StoreRecovery

  /** What can happen to a store. A process that dies leaves `disk` behind, and the next one
      starts up from it. */
  datatype Op =
    | Put(up: Upload, now: nat, fault: Fault)
    | Delete(key: Key, now: nat)
    | Reap(now: nat)
    | Restart
    | DieInPut(up: Upload, now: nat, disk: Disk)
    | DieErasing(disk: Disk)

  ghost predicate Next(limits: Limits, codec: Codec, s: State, op: Op, after: State) {
    match op
    case Put(up, now, fault) => PutStep(limits, codec, s, up, now, fault, after)
    case Delete(k, now) => after == if LiveRow(s, k, now).Ok? then Erased(s, k) else s
    case Reap(now) => Reaped(s, now, after)
    case Restart => Rebuilt(limits, codec, s.disk, after)
    case DieInPut(up, now, disk) =>
      PutCrash(limits, codec, s, up, now, disk) && Rebuilt(limits, codec, disk, after)
    case DieErasing(disk) => Eroded(disk, s.disk) && Rebuilt(limits, codec, disk, after)
  }

  predicate StartsUp(op: Op) {
    op.Restart? || op.DieInPut? || op.DieErasing?
  }

  /** A start-up leaves disk and index in agreement, whatever state the process died in. */
  lemma StartUpIsGood(limits: Limits, codec: Codec, s: State, op: Op, after: State)
    requires limits.Fits() && Accounted(limits, s) && StartsUp(op) && Next(limits, codec, s, op, after)
    ensures Good(limits, codec, after)
  {
    match op
    case Restart => CrashedEraseRecovers(limits, codec, s, s.disk, after);
    case DieInPut(up, now, disk) => CrashedPutRecovers(limits, codec, s, up, now, disk, after);
    case DieErasing(disk) => CrashedEraseRecovers(limits, codec, s, disk, after);
  }

  /** Every operation and every crash keeps the counters exact, the ceilings, and every
      payload on disk accounted for, whatever it is called. */
  lemma NextKeepsAccounts(limits: Limits, codec: Codec, s: State, op: Op, after: State)
    requires limits.Fits() && Accounted(limits, s) && Next(limits, codec, s, op, after)
    ensures Accounted(limits, after)
  {
    match op
    case Put(up, now, fault) => PutKeepsAccounts(limits, codec, s, up, now, fault, after);
    case Delete(k, now) =>
      WithoutRowExact(s.index, k);
      SmallerKeepsCeilings(limits, after.index.entries, s.index.entries);
    case Reap(now) => SmallerKeepsCeilings(limits, after.index.entries, s.index.entries);
    case _ =>
      StartUpIsGood(limits, codec, s, op, after);
      GoodIsAccounted(limits, codec, after);
  }

  /** The one step that sets disk and index at odds: an accepted payload that cannot be
      stored, see `MetadataNameBreaksAgreement`. */
  predicate Spoils(limits: Limits, codec: Codec, s: State, op: Op, k: Key) {
    op.Put? && op.up.key == k && Commit(limits, codec, s, op.up, op.now, op.fault).1.Ok? && !Storable(op.up)
  }

  lemma NextKeepsAgreementAt(limits: Limits, codec: Codec, s: State, op: Op, after: State, k: Key)
    requires Lawful(codec) && limits.Fits() && Accounted(limits, s) && Next(limits, codec, s, op, after)
    requires AgreesAt(codec, s, k) && !Spoils(limits, codec, s, op, k)
    ensures AgreesAt(codec, after, k)
  {
    match op
    case Put(up, now, fault) => PutKeepsAgreementAt(limits, codec, s, up, now, fault, after, k);
    case Delete(j, now) =>
    case Reap(now) =>
    case _ => StartUpIsGood(limits, codec, s, op, after);
  }

  /** States visited by running `ops` from an empty root. */
  ghost predicate Run(limits: Limits, codec: Codec, ops: seq<Op>, states: seq<State>) {
    && |states| == |ops| + 1 && states[0] == EMPTY
    && forall i :: 0 <= i < |ops| ==> Next(limits, codec, states[i], ops[i], states[i + 1])
  }

  /** After any run of puts (also failing ones, and of payloads under any name), deletes,
      reaps, evictions, restarts and crashes at any instant: the counters are exact sums of
      the rows, all four ceilings hold, and no payload on disk is without its row. */
  lemma {:induction false} EveryRunIsAccounted(limits: Limits, codec: Codec, ops: seq<Op>, states: seq<State>)
    requires limits.Fits() && Run(limits, codec, ops, states)
    ensures Accounted(limits, states[|ops|])
  {
    if ops == [] {
      EmptyIsGood(limits, codec);
    } else {
      var n := |ops| - 1;
      assert Run(limits, codec, ops[..n], states[..|ops|]);
      EveryRunIsAccounted(limits, codec, ops[..n], states[..|ops|]);
      NextKeepsAccounts(limits, codec, states[n], ops[n], states[n + 1]);
    }
  }

  /** An entry was spoiled, and no start-up has come since. */
  ghost predicate Spoiled(limits: Limits, codec: Codec, ops: seq<Op>, states: seq<State>, k: Key)
    requires |states| == |ops| + 1
  {
    var n := |ops| - 1;
    && ops != [] && !StartsUp(ops[n])
    && (Spoils(limits, codec, states[n], ops[n], k) || Spoiled(limits, codec, ops[..n], states[..|ops|], k))
  }

  lemma NextAgrees(limits: Limits, codec: Codec, s: State, op: Op, after: State, k: Key)
    requires Lawful(codec) && limits.Fits() && Accounted(limits, s) && Next(limits, codec, s, op, after)
    requires StartsUp(op) || (AgreesAt(codec, s, k) && !Spoils(limits, codec, s, op, k))
    ensures AgreesAt(codec, after, k)
  {
    if StartsUp(op) {
      StartUpIsGood(limits, codec, s, op, after);
    } else {
      NextKeepsAgreementAt(limits, codec, s, op, after, k);
    }
  }

  /** In any run disk and index agree on every entry, but those for which a payload that
      cannot be stored was accepted since the last start-up. */
  lemma {:induction false} EveryRunAgrees(limits: Limits, codec: Codec, ops: seq<Op>, states: seq<State>, k: Key)
    requires Lawful(codec) && limits.Fits() && Run(limits, codec, ops, states)
    ensures AgreesAt(codec, states[|ops|], k) || Spoiled(limits, codec, ops, states, k)
  {
    if ops != [] {
      var n := |ops| - 1;
      var s, op := states[n], ops[n];
      assert Run(limits, codec, ops[..n], states[..|ops|]);
      EveryRunIsAccounted(limits, codec, ops[..n], states[..|ops|]);
      EveryRunAgrees(limits, codec, ops[..n], states[..|ops|], k);
      if StartsUp(op) || (AgreesAt(codec, s, k) && !Spoils(limits, codec, s, op, k)) {
        NextAgrees(limits, codec, s, op, states[n + 1], k);
      }
    }
  }

  lemma AgreesEverywhere(codec: Codec, s: State)
    requires forall k :: AgreesAt(codec, s, k)
    ensures Agrees(codec, s)
  {
    forall k ensures k in s.index.entries ==>
                       k in s.disk && Readable(codec, k, s.disk[k]) == Some(s.index.entries[k])
             ensures k in s.disk && s.disk[k] != map[] ==> k in s.index.entries
    {
      assert AgreesAt(codec, s, k);
    }
  }

  /** So a run without such payloads since its last start-up ends in a good state. */
  lemma EveryRunIsGood(limits: Limits, codec: Codec, ops: seq<Op>, states: seq<State>)
    requires Lawful(codec) && limits.Fits() && Run(limits, codec, ops, states)
    requires forall k :: !Spoiled(limits, codec, ops, states, k)
    ensures Good(limits, codec, states[|ops|])
  {
    EveryRunIsAccounted(limits, codec, ops, states);
    forall k ensures AgreesAt(codec, states[|ops|], k) {
      EveryRunAgrees(limits, codec, ops, states, k);
    }
    AgreesEverywhere(codec, states[|ops|]);
  }

  lemma ReadSurvivesRestart(codec: Codec, s: State, after: State, k: Key, name: string, now: nat)
    requires after.index.entries == s.index.entries
    requires after.disk == (map k | k in s.disk && s.disk[k] != map[] :: s.disk[k])
    ensures Read(after, k, name, now) == Read(s, k, name, now)
  {
    assert DirOf(after.disk, k) == DirOf(s.disk, k);
  }

  /** Only a disk that agrees with the index gives the same rows back. */
  lemma SameRowsAgree(limits: Limits, codec: Codec, s: State, after: State)
    requires Accounted(limits, s) && Rebuilt(limits, codec, s.disk, after)
    requires after.index.entries == s.index.entries
    ensures Agrees(codec, s)
  {
    forall k | k in s.index.entries
      ensures k in s.disk && Readable(codec, k, s.disk[k]) == Some(s.index.entries[k])
    {
      RebuiltRow(limits, codec, s.disk, after, k);
    }
  }

  /** After any run a restart gives a good state, and the rows are those of before exactly
      when disk and index agreed. Then nothing changes that a caller or a quota can see. */
  lemma RunThenRestart(limits: Limits, codec: Codec, ops: seq<Op>, states: seq<State>, after: State)
    requires limits.Fits() && Run(limits, codec, ops, states)
    requires Rebuilt(limits, codec, states[|ops|].disk, after)
    ensures Good(limits, codec, after)
    ensures after.index.entries == states[|ops|].index.entries <==> Agrees(codec, states[|ops|])
    ensures Agrees(codec, states[|ops|]) ==>
              && after.index.total == states[|ops|].index.total
              && after.index.perTenantEntries == states[|ops|].index.perTenantEntries
              && (forall t :: Used(after.index, t) == Used(states[|ops|].index, t))
              && (forall k, name, now :: Read(after, k, name, now) == Read(states[|ops|], k, name, now))
  {
    var s := states[|ops|];
    EveryRunIsAccounted(limits, codec, ops, states);
    StartUpIsGood(limits, codec, s, Restart, after);
    if Agrees(codec, s) {
      RestartRestoresIndex(limits, codec, s, after);
      forall k, name, now ensures Read(after, k, name, now) == Read(s, k, name, now) {
        ReadSurvivesRestart(codec, s, after, k, name, now);
      }
    } else if after.index.entries == s.index.entries {
      SameRowsAgree(limits, codec, s, after);
    }
  }
}
