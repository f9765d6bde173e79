/** What an oldest-first eviction can end in. The source leaves open which of several rows of
    the same second goes first; here every choice is followed to its end. */
module StoreEvictions {
  import opened Wrappers
  import opened MapSums
  import opened StoreModel
  import opened StoreSafety

  // ---- Oldest and newest of some rows ----

  lemma {:induction false} OldestOf(rows: map<Key, Entry>, some: set<Key>) returns (k: Key)
    requires some <= rows.Keys && some != {}
    ensures k in some && forall o :: o in some ==> rows[k].createdAt <= rows[o].createdAt
    decreases |some|
  {
    k :| k in some;
    if some != {k} {
      var other := OldestOf(rows, some - {k});
      if rows[other].createdAt < rows[k].createdAt { k := other; }
    }
  }

  lemma {:induction false} NewestOf(rows: map<Key, Entry>, some: set<Key>) returns (k: Key)
    requires some <= rows.Keys && some != {}
    ensures k in some && forall o :: o in some ==> rows[o].createdAt <= rows[k].createdAt
    decreases |some|
  {
    k :| k in some;
    if some != {k} {
      var other := NewestOf(rows, some - {k});
      if rows[other].createdAt > rows[k].createdAt { k := other; }
    }
  }

  // ---- Evictions can be carried on ----

  /** An eviction under way can be finished, and takes no row back. */
  lemma {:induction false} CanFinish(limits: Limits, rows: map<Key, Entry>, kept: map<Key, Entry>)
    returns (final: map<Key, Entry>)
    requires Evicting(limits, rows, kept)
    ensures OldestFirst(limits, rows, final) && final.Keys <= kept.Keys
    decreases |kept|
  {
    if WithinStore(limits, kept) {
      final := kept;
    } else {
      if kept.Keys == {} { NoRowsNoBytes(kept); }
      var k := OldestOf(kept, kept.Keys);
      EvictingStep(limits, rows, kept, k);
      BytesOfRow(kept, k);
      final := CanFinish(limits, rows, kept - {k});
    }
  }

  lemma SameRows(a: map<Key, Entry>, b: map<Key, Entry>)
    requires a.Keys == b.Keys && forall k :: k in a ==> a[k] == b[k]
    ensures a == b
  {
  }

  lemma SomeMissing(a: map<Key, Entry>, b: map<Key, Entry>)
    requires a != b && forall k :: k in a ==> k in b && a[k] == b[k]
    ensures b.Keys - a.Keys != {}
  {
    if b.Keys <= a.Keys {
      SameRows(a, b);
    } else {
      var k :| k in b.Keys && k !in a.Keys;
      assert k in b.Keys - a.Keys;
    }
  }

  /** While the ceilings are broken there is a row to evict other than a given one and those
      newer, if these fit. */
  lemma AnotherOldest(limits: Limits, kept: map<Key, Entry>, k: Key) returns (o: Key)
    requires k in kept && WithinStore(limits, NewerWith(kept, k)) && !WithinStore(limits, kept)
    ensures o in kept && o !in NewerWith(kept, k)
    ensures forall x :: x in kept ==> kept[o].createdAt <= kept[x].createdAt
  {
    var newer := NewerWith(kept, k);
    SomeMissing(newer, kept);
    o := OldestOf(kept, kept.Keys - newer.Keys);
    forall x | x in kept ensures kept[o].createdAt <= kept[x].createdAt {
      assert x in newer || x in kept.Keys - newer.Keys;
    }
  }

  lemma NewerAmongKept(rows: map<Key, Entry>, kept: map<Key, Entry>, k: Key)
    requires k in rows && NewerWith(rows, k).Keys <= kept.Keys
    requires forall o :: o in kept ==> o in rows && kept[o] == rows[o]
    ensures k in kept && NewerWith(kept, k) == NewerWith(rows, k)
  {
    assert k in NewerWith(rows, k);
  }

  /** It can even spare one row, as long as that row fits with everything newer. */
  lemma {:induction false} CanSpare(limits: Limits, rows: map<Key, Entry>, kept: map<Key, Entry>, k: Key)
    returns (final: map<Key, Entry>)
    requires Evicting(limits, rows, kept) && k in rows && NewerWith(rows, k).Keys <= kept.Keys
    requires WithinStore(limits, NewerWith(rows, k))
    ensures OldestFirst(limits, rows, final) && k in final
    decreases |kept|
  {
    NewerAmongKept(rows, kept, k);
    if WithinStore(limits, kept) {
      final := kept;
    } else {
      var o := AnotherOldest(limits, kept, k);
      EvictingStep(limits, rows, kept, o);
      BytesOfRow(kept, o);
      final := CanSpare(limits, rows, kept - {o}, k);
    }
  }

  lemma EvictsAllOlder(limits: Limits, rows: map<Key, Entry>, k: Key)
    requires k in rows && !WithinStore(limits, NoOlder(rows, k))
    ensures Evicting(limits, rows, NoOlder(rows, k))
  {
    var kept := NoOlder(rows, k);
    if kept != rows {
      SomeMissing(kept, rows);
      var last := NewestOf(rows, rows.Keys - kept.Keys);
      if WithinStore(limits, kept[last := rows[last]]) {
        FewerFit(limits, kept, kept[last := rows[last]]);
      }
      assert LastEvicted(limits, rows, kept, last);
    }
  }

  /** It can also drop a row that does not fit with everything no older. */
  lemma CanDrop(limits: Limits, rows: map<Key, Entry>, k: Key) returns (final: map<Key, Entry>)
    requires k in rows && !WithinStore(limits, NoOlder(rows, k))
    ensures OldestFirst(limits, rows, final) && k !in final
  {
    EvictsAllOlder(limits, rows, k);
    EvictingStep(limits, rows, NoOlder(rows, k), k);
    final := CanFinish(limits, rows, NoOlder(rows, k) - {k});
  }

  // ---- Which rows survive ----

  /** With ties left open, a row survives every eviction exactly when it fits with everything
      no older, and some eviction exactly when it fits with everything newer. */
  lemma SurvivesByChoice(limits: Limits, rows: map<Key, Entry>, k: Key)
    requires k in rows
    ensures (forall kept :: OldestFirst(limits, rows, kept) ==> k in kept) <==> WithinStore(limits, NoOlder(rows, k))
    ensures (exists kept :: OldestFirst(limits, rows, kept) && k in kept) <==> WithinStore(limits, NewerWith(rows, k))
  {
    if WithinStore(limits, NoOlder(rows, k)) {
      forall kept | OldestFirst(limits, rows, kept) ensures k in kept { SurvivesExactly(limits, rows, kept, k); }
    } else {
      var final := CanDrop(limits, rows, k);
    }
    if WithinStore(limits, NewerWith(rows, k)) {
      var final := CanSpare(limits, rows, rows, k);
    }
    forall kept | OldestFirst(limits, rows, kept) && k in kept ensures WithinStore(limits, NewerWith(rows, k)) {
      SurvivesExactly(limits, rows, kept, k);
    }
  }

  // ---- Whole states ----

  /** The index with exact counters for some rows. */
  ghost function IndexOf(entries: map<Key, Entry>): Index {
    var tenants := set k | k in entries :: k.tenant;
    Index(entries,
          map t | t in tenants :: TotalBytes(Rows(entries, t)),
          map t | t in tenants :: |Rows(entries, t)|,
          TotalBytes(entries))
  }

  lemma IndexOfIsExact(entries: map<Key, Entry>)
    ensures Exact(IndexOf(entries))
  {
    forall t ensures ExactFor(IndexOf(entries), t) {
      TenantHasRow(entries, t);
      if |Rows(entries, t)| == 0 { NoRowsNoBytes(Rows(entries, t)); }
    }
  }

  /** What is left of a state when only these rows are kept. */
  ghost function Cut(before: State, kept: map<Key, Entry>): State {
    State(before.disk - (before.index.entries.Keys - kept.Keys), IndexOf(kept))
  }

  lemma CutIsEvicted(limits: Limits, before: State, kept: map<Key, Entry>)
    requires OldestFirst(limits, before.index.entries, kept)
    ensures Evicted(limits, before, Cut(before, kept))
  {
    IndexOfIsExact(kept);
  }

  /** An entry that every eviction of a state leaves, and one that some eviction leaves. */
  ghost predicate AlwaysLeft(limits: Limits, before: State, k: Key) {
    forall after :: Evicted(limits, before, after) ==> k in after.index.entries
  }

  ghost predicate CanBeLeft(limits: Limits, before: State, k: Key) {
    exists after :: Evicted(limits, before, after) && k in after.index.entries
  }

  lemma EntrySurvivesByChoice(limits: Limits, before: State, k: Key)
    requires k in before.index.entries
    ensures AlwaysLeft(limits, before, k) <==> WithinStore(limits, NoOlder(before.index.entries, k))
    ensures CanBeLeft(limits, before, k) <==> WithinStore(limits, NewerWith(before.index.entries, k))
  {
    var rows := before.index.entries;
    SurvivesByChoice(limits, rows, k);
    if !WithinStore(limits, NoOlder(rows, k)) {
      var kept :| OldestFirst(limits, rows, kept) && k !in kept;
      CutIsEvicted(limits, before, kept);
      assert k !in Cut(before, kept).index.entries;
    }
    if WithinStore(limits, NewerWith(rows, k)) {
      var kept :| OldestFirst(limits, rows, kept) && k in kept;
      CutIsEvicted(limits, before, kept);
      assert k in Cut(before, kept).index.entries;
    }
  }

  lemma GrownByChoice(limits: Limits, before: State, rows: map<Key, Entry>, k: Key, entry: Entry, size: nat)
    requires k in rows && before.index.entries == rows[k := entry]
    requires entry.createdAt == rows[k].createdAt && entry.bytes == rows[k].bytes + size
    ensures AlwaysLeft(limits, before, k) <==> FitsWith(limits, NoOlder(rows, k), size)
    ensures CanBeLeft(limits, before, k) <==> FitsWith(limits, NewerWith(rows, k), size)
  {
    EntrySurvivesByChoice(limits, before, k);
    GrownNeighbours(rows, k, entry);
    GrownRow(limits, NoOlder(rows, k), k, entry, size);
    GrownRow(limits, NewerWith(rows, k), k, entry, size);
  }

  lemma AloneInItsSecond(rows: map<Key, Entry>, k: Key)
    requires k in rows
    ensures OfItsOwnAge(rows, k) ==> NoOlder(rows, k) == NewerWith(rows, k)
  {
    if OfItsOwnAge(rows, k) { assert NoOlder(rows, k) == NewerWith(rows, k); }
  }

  /** A second file keeps its entry's old timestamp, so a put can evict the entry it reports.
      The entry is safe, whichever of the rows of its second goes first, exactly when it fits,
      grown, with every entry no older; it can survive exactly when it fits with the newer. If no
      other entry is of its second, the two are one condition. */
  lemma SecondFileEvictsItsOwnEntry(limits: Limits, codec: Codec, s: State, up: Upload, now: nat)
    requires limits.Fits() && Exact(s.index) && up.key in s.index.entries
    requires Commit(limits, codec, s, up, now, NoFault).1.Ok?
    ensures AlwaysLeft(limits, Commit(limits, codec, s, up, now, NoFault).0, up.key)
       <==> FitsWith(limits, NoOlder(s.index.entries, up.key), |up.bytes|)
    ensures CanBeLeft(limits, Commit(limits, codec, s, up, now, NoFault).0, up.key)
       <==> FitsWith(limits, NewerWith(s.index.entries, up.key), |up.bytes|)
    ensures OfItsOwnAge(s.index.entries, up.key) ==>
              NoOlder(s.index.entries, up.key) == NewerWith(s.index.entries, up.key)
  {
    var dir, entry := Committed(limits, codec, s, up, now);
    AcceptedFits(limits, s.index, up, now);
    GrownByChoice(limits, Commit(limits, codec, s, up, now, NoFault).0, s.index.entries, up.key, entry, |up.bytes|);
    AloneInItsSecond(s.index.entries, up.key);
  }
}
