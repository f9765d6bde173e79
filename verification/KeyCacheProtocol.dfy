/** Every interleaving of key lookups (`TokenValidator::key`, `src/oidc.rs`).

    A lookup inspects the cache, queues for the single-flight refresh lock, inspects
    again, fetches, and records the outcome. Any lookup can be dropped at any point,
    which releases the lock and records nothing. */
module KeyCacheProtocol {
  import opened Wrappers
  import opened KeyCache

  type Id = nat

  datatype Phase =
    | Arrived(kid: Kid)
    | Waiting(kid: Kid)
    | Owner(kid: Kid)
    | Fetching(kid: Kid, since: Instant)

  /** A finished fetch: its key set, or `None` when the provider failed. */
  datatype Completion = Completion(started: Instant, at: Instant, outcome: Option<map<Kid, Key>>)

  /** An answer, with the number of fetches finished when it was given. */
  datatype Reply = Reply(kid: Kid, answer: Answer, at: Instant, seen: nat)

  datatype System = System(
    now: Instant,
    keys: Keys,
    callers: map<Id, Phase>,
    owner: Option<Id>,
    history: seq<Completion>,
    starts: nat,
    dropped: nat,
    replies: seq<Reply>)

  const START := System(0, NO_KEYS, map[], None, [], 0, 0, [])

  datatype Step =
    | Tick(now: Instant)
    | Arrive(id: Id, kid: Kid)
    | FirstLook(id: Id, r: Readings)
    | Acquire(id: Id)
    | SecondLook(id: Id, r: Readings)
    | Finish(id: Id, outcome: Option<map<Kid, Key>>, fetched: Instant, noted: Instant)
    | Drop(id: Id)

  /** When a step can happen. Publishing a key set is a few map operations under the
      cache lock; it is taken to last at most 30 seconds. */
  predicate Enabled(s: System, step: Step) {
    match step
    case Tick(now) => s.now <= now
    case Arrive(id, kid) => id !in s.callers
    case FirstLook(id, r) => id in s.callers && s.callers[id].Arrived? && s.now <= r.entry && Ordered(r)
    case Acquire(id) => id in s.callers && s.callers[id].Waiting? && s.owner.None?
    case SecondLook(id, r) => id in s.callers && s.callers[id].Owner? && s.now <= r.entry && Ordered(r)
    case Finish(id, outcome, fetched, noted) =>
      id in s.callers && s.callers[id].Fetching? && s.now <= fetched <= noted <= fetched + UNKNOWN_KID_TTL
    case Drop(id) => id in s.callers
  }

  function Answered(s: System, kid: Kid, answer: Answer, at: Instant): System {
    s.(replies := s.replies + [Reply(kid, answer, at, |s.history|)])
  }

  function Leave(s: System, id: Id): System {
    s.(callers := s.callers - {id}, owner := if s.owner == Some(id) then None else s.owner)
  }

  /** An inspection either answers its caller or moves it to the phase `next`. */
  function Look(s: System, id: Id, r: Readings, next: Phase): System
    requires id in s.callers
  {
    var kid := s.callers[id].kid;
    var seen := Inspect(s.keys, kid, r);
    var after := s.(now := r.failure, keys := seen.keys);
    match seen.answer
    case Some(answer) => Leave(Answered(after, kid, answer, seen.at), id)
    case None => after.(callers := s.callers[id := next], starts := s.starts + (if next.Fetching? then 1 else 0))
  }

  function Finished(s: System, id: Id, outcome: Option<map<Kid, Key>>, fetched: Instant, noted: Instant): System
    requires id in s.callers && s.callers[id].Fetching?
  {
    var kid := s.callers[id].kid;
    var history := s.history + [Completion(s.callers[id].since, fetched, outcome)];
    match outcome
    case Some(keys) =>
      var after := s.(now := noted, keys := Publish(s.keys, kid, keys, fetched, noted), history := history);
      Leave(Answered(after, kid, Ok(Lookup(keys, kid)), fetched), id)
    case None =>
      var after := s.(now := noted, keys := s.keys.(lastFailure := Some(fetched)), history := history);
      Leave(Answered(after, kid, Err(ProviderUnavailable), fetched), id)
  }

  function Apply(s: System, step: Step): System
    requires Enabled(s, step)
  {
    match step
    case Tick(now) => s.(now := now)
    case Arrive(id, kid) => s.(callers := s.callers[id := Arrived(kid)])
    case FirstLook(id, r) => Look(s, id, r, Waiting(s.callers[id].kid))
    case Acquire(id) => s.(callers := s.callers[id := Owner(s.callers[id].kid)], owner := Some(id))
    case SecondLook(id, r) => Look(s, id, r, Fetching(s.callers[id].kid, r.failure))
    case Finish(id, outcome, fetched, noted) => Finished(s, id, outcome, fetched, noted)
    case Drop(id) => Leave(s.(dropped := s.dropped + (if s.callers[id].Fetching? then 1 else 0)), id)
  }

  /** The system after a whole run, or `None` when some step was not possible. */
  function Run(from: System, steps: seq<Step>): Option<System> {
    if steps == [] then Some(from)
    else
      var before := Run(from, steps[..|steps| - 1]);
      var last := steps[|steps| - 1];
      if before.Some? && Enabled(before.value, last) then Some(Apply(before.value, last)) else None
  }

  // ---- What every run keeps ----

  /** The newest key set a history published. */
  function LastKeySet(history: seq<Completion>): Option<KeySet> {
    if history == [] then None
    else
      var last := history[|history| - 1];
      if last.outcome.Some? then Some(KeySet(last.outcome.value, last.at))
      else LastKeySet(history[..|history| - 1])
  }

  /** The failure a history ends with, if it ends with one. */
  function LastFailure(history: seq<Completion>): Option<Instant> {
    if history == [] || history[|history| - 1].outcome.Some? then None else Some(history[|history| - 1].at)
  }

  /** A fetch may start at `start` only well after everything that finished before. */
  predicate MayStart(history: seq<Completion>, start: Instant) {
    && (LastKeySet(history).Some? ==> start >= LastKeySet(history).value.fetchedAt + JWKS_REFRESH_INTERVAL)
    && (LastFailure(history).Some? ==> start >= LastFailure(history).value + FETCH_FAILURE_BACKOFF)
  }

  ghost predicate Spaced(history: seq<Completion>) {
    forall i :: 0 <= i < |history| ==>
      MayStart(history[..i], history[i].started) && history[i].started <= history[i].at
  }

  /** A finished fetch that lacked `kid`, at most `age` before `t`. */
  ghost predicate LackedWithin(history: seq<Completion>, kid: Kid, t: Instant, age: nat) {
    exists i :: 0 <= i < |history| && history[i].outcome.Some? && kid !in history[i].outcome.value
                && history[i].at <= t <= history[i].at + age
  }

  ghost predicate Past(history: seq<Completion>, now: Instant) {
    forall i :: 0 <= i < |history| ==> history[i].at <= now
  }

  /** What an answer promises about the fetches finished before it. */
  ghost predicate Justified(history: seq<Completion>, reply: Reply) {
    && reply.seen <= |history|
    && var known := history[..reply.seen];
       match reply.answer
       case Ok(None) =>
         exists i :: 0 <= i < |known| && known[i].outcome.Some? && reply.kid !in known[i].outcome.value
                     && known[i].at <= reply.at < known[i].at + JWKS_REFRESH_INTERVAL + UNKNOWN_KID_TTL
       case Ok(Some(key)) =>
         && LastKeySet(known).Some?
         && reply.kid in LastKeySet(known).value.keys && key == LastKeySet(known).value.keys[reply.kid]
         && LastKeySet(known).value.fetchedAt <= reply.at < LastKeySet(known).value.fetchedAt + JWKS_TTL
       case Err(_) =>
         && LastFailure(known).Some?
         && LastFailure(known).value <= reply.at < LastFailure(known).value + FETCH_FAILURE_BACKOFF
  }

  ghost predicate AllJustified(history: seq<Completion>, replies: seq<Reply>) {
    forall i :: 0 <= i < |replies| ==> Justified(history, replies[i])
  }

  ghost predicate Locked(s: System) {
    && (forall id :: id in s.callers && (s.callers[id].Owner? || s.callers[id].Fetching?) ==> s.owner == Some(id))
    && (s.owner.Some? ==> s.owner.value in s.callers
                          && (s.callers[s.owner.value].Owner? || s.callers[s.owner.value].Fetching?))
  }

  ghost predicate InFlightJustified(s: System) {
    forall id :: id in s.callers && s.callers[id].Fetching? ==>
      MayStart(s.history, s.callers[id].since) && s.callers[id].since <= s.now
  }

  ghost predicate UnknownJustified(s: System) {
    forall kid :: kid in s.keys.unknown ==>
      s.keys.unknown[kid] <= s.now && LackedWithin(s.history, kid, s.keys.unknown[kid], JWKS_REFRESH_INTERVAL)
  }

  /** Where the newest key set stands: an id it has was noted absent no later than it came. */
  ghost predicate NotedBefore(s: System) {
    forall kid :: kid in s.keys.unknown && LastKeySet(s.history).Some? && kid in LastKeySet(s.history).value.keys ==>
      s.keys.unknown[kid] <= LastKeySet(s.history).value.fetchedAt
  }

  /** An absence reported of an id that the newest set has comes soon after that set. */
  ghost predicate SoonAfter(history: seq<Completion>, reply: Reply) {
    reply.seen <= |history|
    && var newest := LastKeySet(history[..reply.seen]);
       reply.answer == Ok(None) && newest.Some? && reply.kid in newest.value.keys ==>
         newest.value.fetchedAt <= reply.at < newest.value.fetchedAt + UNKNOWN_KID_TTL
  }

  ghost predicate AllSoonAfter(history: seq<Completion>, replies: seq<Reply>) {
    forall i :: 0 <= i < |replies| ==> SoonAfter(history, replies[i])
  }

  predicate InFlight(s: System) {
    s.owner.Some? && s.owner.value in s.callers && s.callers[s.owner.value].Fetching?
  }

  /** Who holds the refresh lock, and what a fetch in flight may rely on. */
  ghost predicate Control(s: System) {
    && Locked(s)
    && InFlightJustified(s)
    && s.starts == |s.history| + s.dropped + (if InFlight(s) then 1 else 0)
  }

  /** The cached set and failure are those of the finished fetches. */
  ghost predicate Cached(s: System) {
    && s.keys.cache == LastKeySet(s.history)
    && s.keys.lastFailure == LastFailure(s.history)
    && Past(s.history, s.now)
    && Spaced(s.history)
  }

  ghost predicate Honest(s: System) {
    && UnknownJustified(s)
    && |s.keys.unknown| <= UNKNOWN_KID_CAP
    && AllJustified(s.history, s.replies)
  }

  ghost predicate Invariant(s: System) {
    Control(s) && Cached(s) && Honest(s)
  }

  lemma {:induction false} LastKeySetIsFinished(history: seq<Completion>) returns (i: int)
    requires LastKeySet(history).Some?
    ensures 0 <= i < |history| && history[i].outcome.Some?
    ensures LastKeySet(history).value == KeySet(history[i].outcome.value, history[i].at)
  {
    var n := |history| - 1;
    if history[n].outcome.Some? { i := n; } else { i := LastKeySetIsFinished(history[..n]); }
  }

  lemma HistoryAppend(history: seq<Completion>, c: Completion)
    ensures (history + [c])[..|history|] == history
    ensures LastKeySet(history + [c])
         == if c.outcome.Some? then Some(KeySet(c.outcome.value, c.at)) else LastKeySet(history)
    ensures LastFailure(history + [c]) == if c.outcome.Some? then None else Some(c.at)
  {
    assert (history + [c])[..|history|] == history;
  }

  lemma JustifiedSurvives(history: seq<Completion>, c: Completion, reply: Reply)
    requires Justified(history, reply)
    ensures Justified(history + [c], reply)
  {
    assert (history + [c])[..reply.seen] == history[..reply.seen];
  }

  lemma LackedSurvives(history: seq<Completion>, c: Completion, kid: Kid, t: Instant, age: nat)
    requires LackedWithin(history, kid, t, age)
    ensures LackedWithin(history + [c], kid, t, age)
  {
    var i :| 0 <= i < |history| && history[i].outcome.Some? && kid !in history[i].outcome.value
             && history[i].at <= t <= history[i].at + age;
    assert (history + [c])[i] == history[i];
  }

  lemma RetainedIsSmaller(unknown: map<Kid, Instant>, now: Instant)
    ensures |Retained(unknown, now)| <= |unknown|
  {
    var kept := Retained(unknown, now);
    assert kept.Keys <= unknown.Keys;
    SubsetSize(kept.Keys, unknown.Keys);
  }

  lemma {:induction false} SubsetSize<T>(a: set<T>, b: set<T>)
    requires a <= b
    ensures |a| <= |b|
  {
    assert b == a + (b - a);
    assert |a + (b - a)| == |a| + |b - a|;
  }

  lemma RememberStaysBounded(keys: Keys, kid: Kid, now: Instant)
    requires |keys.unknown| <= UNKNOWN_KID_CAP
    ensures |Remember(keys, kid, now).unknown| <= UNKNOWN_KID_CAP
  {
    var after := Remember(keys, kid, now).unknown;
    assert after.Keys <= keys.unknown.Keys + {kid};
    SubsetSize(after.Keys, keys.unknown.Keys + {kid});
    if kid in keys.unknown { assert keys.unknown.Keys + {kid} == keys.unknown.Keys; }
  }

  /** The negative cache after an inspection: what is retained, and perhaps the id itself. */
  lemma InspectedUnknown(keys: Keys, kid: Kid, r: Readings)
    ensures var kept := keys.(unknown := Retained(keys.unknown, r.entry));
            Inspect(keys, kid, r).keys == kept
            || (keys.cache.Some? && kid !in keys.cache.value.keys
                && r.refresh < keys.cache.value.fetchedAt + JWKS_REFRESH_INTERVAL
                && Inspect(keys, kid, r).keys == Remember(kept, kid, r.entry))
  {
  }

  /** An inspection keeps the negative cache honest. */
  lemma InspectionKeepsUnknown(s: System, kid: Kid, r: Readings)
    requires Invariant(s) && s.now <= r.entry && Ordered(r)
    ensures UnknownJustified(s.(now := r.failure, keys := Inspect(s.keys, kid, r).keys))
    ensures |Inspect(s.keys, kid, r).keys.unknown| <= UNKNOWN_KID_CAP
  {
    var kept := s.keys.(unknown := Retained(s.keys.unknown, r.entry));
    RetainedIsSmaller(s.keys.unknown, r.entry);
    RememberStaysBounded(kept, kid, r.entry);
    InspectedUnknown(s.keys, kid, r);
    if Inspect(s.keys, kid, r).keys != kept {
      var i := LastKeySetIsFinished(s.history);
      assert LackedWithin(s.history, kid, r.entry, JWKS_REFRESH_INTERVAL);
    }
  }

  /** An absence reported at an inspection has a fetch behind it. */
  lemma AbsenceIsJustified(s: System, kid: Kid, r: Readings)
    requires Invariant(s) && s.now <= r.entry && Ordered(r) && Inspect(s.keys, kid, r).answer == Some(Ok(None))
    ensures Justified(s.history, Reply(kid, Ok(None), Inspect(s.keys, kid, r).at, |s.history|))
  {
    var h := s.history;
    assert h[..|h|] == h;
    if kid in Retained(s.keys.unknown, r.entry) {
      var noted := s.keys.unknown[kid];
      var i :| 0 <= i < |h| && h[i].outcome.Some? && kid !in h[i].outcome.value
               && h[i].at <= noted <= h[i].at + JWKS_REFRESH_INTERVAL;
      assert h[i].at <= r.entry < h[i].at + JWKS_REFRESH_INTERVAL + UNKNOWN_KID_TTL;
    } else {
      var i := LastKeySetIsFinished(h);
      assert h[i].at <= r.refresh < h[i].at + JWKS_REFRESH_INTERVAL + UNKNOWN_KID_TTL;
    }
  }

  lemma OtherAnswersAreJustified(s: System, kid: Kid, r: Readings)
    requires Cached(s) && s.now <= r.entry && Ordered(r) && Inspect(s.keys, kid, r).answer != Some(Ok(None))
    ensures var seen := Inspect(s.keys, kid, r);
            match seen.answer
            case Some(answer) => Justified(s.history, Reply(kid, answer, seen.at, |s.history|))
            case None => MayStart(s.history, r.failure)
  {
    var h := s.history;
    assert h[..|h|] == h;
    if LastKeySet(h).Some? { var i := LastKeySetIsFinished(h); }
  }

  /** An inspection answers only what the finished fetches justify, and lets a fetch
      start only when the intervals have passed. */
  lemma InspectionIsJustified(s: System, kid: Kid, r: Readings)
    requires Invariant(s) && s.now <= r.entry && Ordered(r)
    ensures var seen := Inspect(s.keys, kid, r);
            match seen.answer
            case Some(answer) => Justified(s.history, Reply(kid, answer, seen.at, |s.history|))
            case None => MayStart(s.history, r.failure)
  {
    if Inspect(s.keys, kid, r).answer == Some(Ok(None)) {
      AbsenceIsJustified(s, kid, r);
    } else {
      OtherAnswersAreJustified(s, kid, r);
    }
  }

  lemma LookKeepsControl(s: System, id: Id, r: Readings, next: Phase)
    requires Control(s) && id in s.callers && s.now <= r.entry && Ordered(r)
    requires (s.callers[id].Arrived? && next == Waiting(s.callers[id].kid))
          || (s.callers[id].Owner? && next == Fetching(s.callers[id].kid, r.failure))
    requires Inspect(s.keys, s.callers[id].kid, r).answer.None? ==> MayStart(s.history, r.failure)
    ensures Control(Look(s, id, r, next))
  {
    var kid := s.callers[id].kid;
    match Inspect(s.keys, kid, r).answer
    case Some(_) =>
      var after := Look(s, id, r, next);
      assert after.callers == s.callers - {id};
    case None =>
  }

  /** The parts of a look that do not concern the callers. */
  lemma LookOutcome(s: System, id: Id, r: Readings, next: Phase)
    requires id in s.callers
    ensures var seen, after := Inspect(s.keys, s.callers[id].kid, r), Look(s, id, r, next);
            && after.history == s.history && after.keys == seen.keys && after.now == r.failure
            && after.replies == s.replies + (match seen.answer
                 case None => []
                 case Some(answer) => [Reply(s.callers[id].kid, answer, seen.at, |s.history|)])
  {
  }

  lemma InspectLeavesCache(keys: Keys, kid: Kid, r: Readings)
    ensures Inspect(keys, kid, r).keys.cache == keys.cache
    ensures Inspect(keys, kid, r).keys.lastFailure == keys.lastFailure
  {
  }

  lemma LookKeepsHonest(s: System, id: Id, r: Readings, next: Phase)
    requires Invariant(s) && id in s.callers && s.now <= r.entry && Ordered(r)
    ensures Honest(Look(s, id, r, next))
  {
    var kid := s.callers[id].kid;
    InspectionKeepsUnknown(s, kid, r);
    InspectionIsJustified(s, kid, r);
    LookOutcome(s, id, r, next);
    assert UnknownJustified(Look(s, id, r, next));
  }

  lemma LookKeepsInvariant(s: System, id: Id, r: Readings, next: Phase)
    requires Invariant(s) && id in s.callers && s.now <= r.entry && Ordered(r)
    requires (s.callers[id].Arrived? && next == Waiting(s.callers[id].kid))
          || (s.callers[id].Owner? && next == Fetching(s.callers[id].kid, r.failure))
    ensures Invariant(Look(s, id, r, next))
  {
    InspectionIsJustified(s, s.callers[id].kid, r);
    LookKeepsControl(s, id, r, next);
    LookKeepsHonest(s, id, r, next);
    LookOutcome(s, id, r, next);
    InspectLeavesCache(s.keys, s.callers[id].kid, r);
    assert Cached(Look(s, id, r, next));
  }

  lemma PublishKeepsUnknown(s: System, kid: Kid, keys: map<Kid, Key>, c: Completion, noted: Instant)
    requires UnknownJustified(s) && |s.keys.unknown| <= UNKNOWN_KID_CAP
    requires c.outcome == Some(keys) && s.now <= c.at <= noted <= c.at + UNKNOWN_KID_TTL
    ensures var published := Publish(s.keys, kid, keys, c.at, noted);
            && |published.unknown| <= UNKNOWN_KID_CAP
            && UnknownJustified(s.(now := noted, keys := published, history := s.history + [c]))
  {
    RememberStaysBounded(Keys(Some(KeySet(keys, c.at)), s.keys.unknown, None), kid, noted);
    var published := Publish(s.keys, kid, keys, c.at, noted);
    forall k | k in published.unknown
      ensures published.unknown[k] <= noted
              && LackedWithin(s.history + [c], k, published.unknown[k], JWKS_REFRESH_INTERVAL)
    {
      if k == kid && kid !in keys && published.unknown[k] == noted {
        assert (s.history + [c])[|s.history|] == c;
      } else {
        LackedSurvives(s.history, c, k, s.keys.unknown[k], JWKS_REFRESH_INTERVAL);
      }
    }
  }

  lemma PastGrows(s: System, c: Completion, now: Instant)
    requires Past(s.history, s.now) && Spaced(s.history)
    requires MayStart(s.history, c.started) && c.started <= s.now <= c.at <= now
    ensures Past(s.history + [c], now) && Spaced(s.history + [c])
  {
    var h := s.history + [c];
    forall i | 0 <= i < |h| ensures MayStart(h[..i], h[i].started) && h[i].started <= h[i].at && h[i].at <= now {
      assert h[..i] == s.history[..i];
      if i == |s.history| { assert h[..i] == s.history; }
    }
  }

  lemma HistoryGrows(s: System, c: Completion, now: Instant)
    requires Invariant(s) && MayStart(s.history, c.started) && c.started <= s.now <= c.at <= now
    ensures Past(s.history + [c], now) && Spaced(s.history + [c])
    ensures AllJustified(s.history + [c], s.replies)
  {
    var h := s.history + [c];
    PastGrows(s, c, now);
    forall i | 0 <= i < |s.replies| ensures Justified(h, s.replies[i]) {
      JustifiedSurvives(s.history, c, s.replies[i]);
    }
  }

  lemma FinishKeepsControl(s: System, id: Id, outcome: Option<map<Kid, Key>>, fetched: Instant, noted: Instant)
    requires Control(s) && Enabled(s, Finish(id, outcome, fetched, noted))
    ensures Control(Finished(s, id, outcome, fetched, noted))
  {
    var after := Finished(s, id, outcome, fetched, noted);
    assert s.owner == Some(id) && after.owner == None && after.callers == s.callers - {id};
  }

  /** A caller's own fetch justifies the answer it is given. */
  lemma OwnFetchJustifies(history: seq<Completion>, c: Completion, kid: Kid)
    ensures c.outcome.Some? ==> Justified(history + [c],
              Reply(kid, Ok(Lookup(c.outcome.value, kid)), c.at, |history| + 1))
    ensures c.outcome.None? ==> Justified(history + [c],
              Reply(kid, Err(ProviderUnavailable), c.at, |history| + 1))
  {
    HistoryAppend(history, c);
    var h := history + [c];
    assert h[..|h|] == h && h[|history|] == c;
  }

  lemma FailureKeepsUnknown(s: System, c: Completion, now: Instant)
    requires UnknownJustified(s) && s.now <= now
    ensures UnknownJustified(s.(now := now, keys := s.keys.(lastFailure := Some(c.at)), history := s.history + [c]))
  {
    forall k | k in s.keys.unknown
      ensures LackedWithin(s.history + [c], k, s.keys.unknown[k], JWKS_REFRESH_INTERVAL)
    {
      LackedSurvives(s.history, c, k, s.keys.unknown[k], JWKS_REFRESH_INTERVAL);
    }
  }

  lemma FinishOutcome(s: System, id: Id, outcome: Option<map<Kid, Key>>, fetched: Instant, noted: Instant)
    requires Enabled(s, Finish(id, outcome, fetched, noted))
    ensures var after, kid := Finished(s, id, outcome, fetched, noted), s.callers[id].kid;
            && after.now == noted
            && after.history == s.history + [Completion(s.callers[id].since, fetched, outcome)]
            && match outcome
            case Some(keys) =>
              && after.keys == Publish(s.keys, kid, keys, fetched, noted)
              && after.replies == s.replies + [Reply(kid, Ok(Lookup(keys, kid)), fetched, |s.history| + 1)]
            case None =>
              && after.keys == s.keys.(lastFailure := Some(fetched))
              && after.replies == s.replies + [Reply(kid, Err(ProviderUnavailable), fetched, |s.history| + 1)]
  {
  }

  lemma FinishKeepsUnknown(s: System, id: Id, outcome: Option<map<Kid, Key>>, fetched: Instant, noted: Instant)
    requires Invariant(s) && Enabled(s, Finish(id, outcome, fetched, noted))
    ensures UnknownJustified(Finished(s, id, outcome, fetched, noted))
    ensures |Finished(s, id, outcome, fetched, noted).keys.unknown| <= UNKNOWN_KID_CAP
  {
    var c := Completion(s.callers[id].since, fetched, outcome);
    FinishOutcome(s, id, outcome, fetched, noted);
    if outcome.Some? {
      PublishKeepsUnknown(s, s.callers[id].kid, outcome.value, c, noted);
    } else {
      FailureKeepsUnknown(s, c, noted);
    }
  }

  lemma FinishKeepsReplies(s: System, id: Id, outcome: Option<map<Kid, Key>>, fetched: Instant, noted: Instant)
    requires Invariant(s) && Enabled(s, Finish(id, outcome, fetched, noted))
    ensures var after := Finished(s, id, outcome, fetched, noted);
            AllJustified(after.history, after.replies)
  {
    var c := Completion(s.callers[id].since, fetched, outcome);
    HistoryGrows(s, c, noted);
    OwnFetchJustifies(s.history, c, s.callers[id].kid);
    FinishOutcome(s, id, outcome, fetched, noted);
  }

  lemma FinishKeepsHonest(s: System, id: Id, outcome: Option<map<Kid, Key>>, fetched: Instant, noted: Instant)
    requires Invariant(s) && Enabled(s, Finish(id, outcome, fetched, noted))
    ensures Honest(Finished(s, id, outcome, fetched, noted))
  {
    FinishKeepsUnknown(s, id, outcome, fetched, noted);
    FinishKeepsReplies(s, id, outcome, fetched, noted);
  }

  lemma FinishKeepsCached(s: System, id: Id, outcome: Option<map<Kid, Key>>, fetched: Instant, noted: Instant)
    requires Control(s) && Cached(s) && Enabled(s, Finish(id, outcome, fetched, noted))
    ensures Cached(Finished(s, id, outcome, fetched, noted))
  {
    var c := Completion(s.callers[id].since, fetched, outcome);
    HistoryAppend(s.history, c);
    PastGrows(s, c, noted);
    FinishOutcome(s, id, outcome, fetched, noted);
  }

  lemma FinishKeepsInvariant(s: System, id: Id, outcome: Option<map<Kid, Key>>, fetched: Instant, noted: Instant)
    requires Invariant(s) && Enabled(s, Finish(id, outcome, fetched, noted))
    ensures Invariant(Finished(s, id, outcome, fetched, noted))
  {
    FinishKeepsControl(s, id, outcome, fetched, noted);
    FinishKeepsCached(s, id, outcome, fetched, noted);
    FinishKeepsHonest(s, id, outcome, fetched, noted);
  }

  lemma StepKeepsInvariant(s: System, step: Step)
    requires Invariant(s) && Enabled(s, step)
    ensures Invariant(Apply(s, step))
  {
    match step
    case Tick(now) =>
    case Arrive(id, kid) =>
    case FirstLook(id, r) => LookKeepsInvariant(s, id, r, Waiting(s.callers[id].kid));
    case Acquire(id) =>
    case SecondLook(id, r) => LookKeepsInvariant(s, id, r, Fetching(s.callers[id].kid, r.failure));
    case Finish(id, outcome, fetched, noted) => FinishKeepsInvariant(s, id, outcome, fetched, noted);
    case Drop(id) =>
  }

  lemma {:induction false} RunKeepsInvariant(steps: seq<Step>)
    requires Run(START, steps).Some?
    ensures Invariant(Run(START, steps).value)
  {
    if steps != [] {
      var n := |steps| - 1;
      RunKeepsInvariant(steps[..n]);
      StepKeepsInvariant(Run(START, steps[..n]).value, steps[n]);
    }
  }

  // ---- Absence and the newest key set ----

  ghost predicate Current(s: System) {
    NotedBefore(s) && AllSoonAfter(s.history, s.replies)
  }

  /** A look says that an id of the cached set is absent exactly when the id is still noted,
      and says so at its first reading. */
  lemma CachedIdReportedAbsent(keys: Keys, kid: Kid, r: Readings)
    requires keys.cache.Some? && kid in keys.cache.value.keys
    ensures Inspect(keys, kid, r).answer == Some(Ok(None)) <==> kid in Retained(keys.unknown, r.entry)
    ensures Inspect(keys, kid, r).answer == Some(Ok(None)) ==> Inspect(keys, kid, r).at == r.entry
  {
  }

  lemma LookIsSoonAfter(s: System, kid: Kid, r: Readings)
    requires Invariant(s) && NotedBefore(s) && s.now <= r.entry && Ordered(r)
    requires Inspect(s.keys, kid, r).answer.Some?
    ensures var seen := Inspect(s.keys, kid, r);
            SoonAfter(s.history, Reply(kid, seen.answer.value, seen.at, |s.history|))
  {
    var h := s.history;
    assert h[..|h|] == h;
    if LastKeySet(h).Some? && kid in LastKeySet(h).value.keys {
      CachedIdReportedAbsent(s.keys, kid, r);
      var i := LastKeySetIsFinished(h);
    }
  }

  lemma LookKeepsNoted(s: System, kid: Kid, r: Readings)
    requires Invariant(s) && NotedBefore(s)
    ensures NotedBefore(s.(now := r.failure, keys := Inspect(s.keys, kid, r).keys))
  {
    InspectedUnknown(s.keys, kid, r);
  }

  lemma LookKeepsCurrent(s: System, id: Id, r: Readings, next: Phase)
    requires Invariant(s) && Current(s) && id in s.callers && s.now <= r.entry && Ordered(r)
    ensures Current(Look(s, id, r, next))
  {
    var kid, after := s.callers[id].kid, Look(s, id, r, next);
    LookKeepsNoted(s, kid, r);
    LookOutcome(s, id, r, next);
    assert NotedBefore(after);
    if Inspect(s.keys, kid, r).answer.Some? { LookIsSoonAfter(s, kid, r); }
  }

  lemma SoonAfterSurvives(history: seq<Completion>, c: Completion, reply: Reply)
    requires SoonAfter(history, reply)
    ensures SoonAfter(history + [c], reply)
  {
    assert (history + [c])[..reply.seen] == history[..reply.seen];
  }

  lemma OwnAbsenceIsTrue(history: seq<Completion>, c: Completion, kid: Kid)
    ensures c.outcome.Some? ==>
              SoonAfter(history + [c], Reply(kid, Ok(Lookup(c.outcome.value, kid)), c.at, |history| + 1))
    ensures SoonAfter(history + [c], Reply(kid, Err(ProviderUnavailable), c.at, |history| + 1))
  {
    HistoryAppend(history, c);
    assert (history + [c])[..|history| + 1] == history + [c];
  }

  lemma FinishKeepsCurrent(s: System, id: Id, outcome: Option<map<Kid, Key>>, fetched: Instant, noted: Instant)
    requires Invariant(s) && Current(s) && Enabled(s, Finish(id, outcome, fetched, noted))
    ensures Current(Finished(s, id, outcome, fetched, noted))
  {
    var c, after := Completion(s.callers[id].since, fetched, outcome), Finished(s, id, outcome, fetched, noted);
    FinishOutcome(s, id, outcome, fetched, noted);
    HistoryAppend(s.history, c);
    OwnAbsenceIsTrue(s.history, c, s.callers[id].kid);
    forall i | 0 <= i < |s.replies| ensures SoonAfter(after.history, s.replies[i]) {
      SoonAfterSurvives(s.history, c, s.replies[i]);
    }
  }

  lemma StepKeepsCurrent(s: System, step: Step)
    requires Invariant(s) && Current(s) && Enabled(s, step)
    ensures Current(Apply(s, step))
  {
    match step
    case FirstLook(id, r) => LookKeepsCurrent(s, id, r, Waiting(s.callers[id].kid));
    case SecondLook(id, r) => LookKeepsCurrent(s, id, r, Fetching(s.callers[id].kid, r.failure));
    case Finish(id, outcome, fetched, noted) => FinishKeepsCurrent(s, id, outcome, fetched, noted);
    case _ =>
  }

  lemma {:induction false} RunKeepsCurrent(steps: seq<Step>)
    requires Run(START, steps).Some?
    ensures Current(Run(START, steps).value)
  {
    if steps != [] {
      var n := |steps| - 1;
      RunKeepsCurrent(steps[..n]);
      RunKeepsInvariant(steps[..n]);
      StepKeepsCurrent(Run(START, steps[..n]).value, steps[n]);
    }
  }

  /** An absence reported of an id that the newest key set has, finished before the answer,
      comes less than thirty seconds after that set, in every run. */
  lemma FalseAbsenceIsBrief(steps: seq<Step>, i: nat)
    requires Run(START, steps).Some? && i < |Run(START, steps).value.replies|
    ensures var s, reply := Run(START, steps).value, Run(START, steps).value.replies[i];
            && reply.seen <= |s.history|
            && var newest := LastKeySet(s.history[..reply.seen]);
               reply.answer == Ok(None) && newest.Some? && reply.kid in newest.value.keys ==>
                 newest.value.fetchedAt <= reply.at < newest.value.fetchedAt + 30 * SECOND
  {
    RunKeepsCurrent(steps);
    assert SoonAfter(Run(START, steps).value.history, Run(START, steps).value.replies[i]);
  }

  // ---- The negative cache at work ----

  /** A look at a noted id says that it is absent, at its first reading, for thirty seconds,
      whatever the cached set holds. */
  lemma NotedIsReportedAbsent(keys: Keys, kid: Kid, r: Readings)
    requires kid in keys.unknown && r.entry < keys.unknown[kid] + 30 * SECOND
    ensures Inspect(keys, kid, r).answer == Some(Ok(None)) && Inspect(keys, kid, r).at == r.entry
  {
    assert kid in Retained(keys.unknown, r.entry);
  }

  /** An id found absent is noted, unless the cache is full: by a look, at its first reading;
      by a fetch of its own, when the fetched set is published. */
  lemma AbsenceIsNoted(keys: Keys, kid: Kid, r: Readings, fetched: map<Kid, Key>, at: Instant, noted: Instant)
    ensures var after := Inspect(keys, kid, r).keys;
            Inspect(keys, kid, r).answer == Some(Ok(None)) && |Retained(keys.unknown, r.entry)| < 1024 ==>
              kid in after.unknown && (kid !in Retained(keys.unknown, r.entry) ==> after.unknown[kid] == r.entry)
    ensures kid !in fetched && |keys.unknown| < 1024 ==>
              kid in Publish(keys, kid, fetched, at, noted).unknown
              && Publish(keys, kid, fetched, at, noted).unknown[kid] == noted
  {
  }

  ghost predicate Noted(s: System, kid: Kid, t: Instant) {
    kid in s.keys.unknown && t <= s.keys.unknown[kid]
  }

  lemma LookKeepsNote(s: System, id: Id, r: Readings, next: Phase, kid: Kid, t: Instant)
    requires Invariant(s) && Noted(s, kid, t) && id in s.callers && s.now <= r.entry && Ordered(r)
    requires r.failure < t + 30 * SECOND
    ensures Noted(Look(s, id, r, next), kid, t)
  {
    InspectedUnknown(s.keys, s.callers[id].kid, r);
    LookOutcome(s, id, r, next);
    assert kid in Retained(s.keys.unknown, r.entry);
  }

  lemma NowGrows(s: System, step: Step)
    requires Enabled(s, step)
    ensures s.now <= Apply(s, step).now
  {
  }

  lemma StepKeepsNote(s: System, step: Step, kid: Kid, t: Instant)
    requires Invariant(s) && Noted(s, kid, t) && Enabled(s, step) && Apply(s, step).now < t + 30 * SECOND
    ensures Noted(Apply(s, step), kid, t)
  {
    match step
    case FirstLook(id, r) =>
      LookOutcome(s, id, r, Waiting(s.callers[id].kid));
      LookKeepsNote(s, id, r, Waiting(s.callers[id].kid), kid, t);
    case SecondLook(id, r) =>
      LookOutcome(s, id, r, Fetching(s.callers[id].kid, r.failure));
      LookKeepsNote(s, id, r, Fetching(s.callers[id].kid, r.failure), kid, t);
    case Finish(id, outcome, fetched, noted) => FinishOutcome(s, id, outcome, fetched, noted);
    case _ =>
  }

  /** A note lasts: from any point of a run on, until thirty seconds have passed. */
  lemma {:induction false} NoteLasts(steps: seq<Step>, n: nat, kid: Kid, t: Instant)
    requires n <= |steps| && Run(START, steps).Some? && Run(START, steps[..n]).Some?
    requires Noted(Run(START, steps[..n]).value, kid, t) && Run(START, steps).value.now < t + 30 * SECOND
    ensures Noted(Run(START, steps).value, kid, t)
  {
    if n == |steps| {
      assert steps[..n] == steps;
    } else {
      var m := |steps| - 1;
      var before := Run(START, steps[..m]).value;
      assert steps[..m][..n] == steps[..n];
      NowGrows(before, steps[m]);
      NoteLasts(steps[..m], n, kid, t);
      RunKeepsInvariant(steps[..m]);
      StepKeepsNote(before, steps[m], kid, t);
    }
  }

  predicate LooksFor(s: System, step: Step, kid: Kid) {
    (step.FirstLook? || step.SecondLook?) && step.id in s.callers && s.callers[step.id].kid == kid
  }

  lemma LookAnswers(s: System, id: Id, r: Readings, next: Phase)
    requires id in s.callers && Inspect(s.keys, s.callers[id].kid, r).answer == Some(Ok(None))
    ensures var kid, after := s.callers[id].kid, Look(s, id, r, next);
            && after.replies == s.replies + [Reply(kid, Ok(None), Inspect(s.keys, kid, r).at, |s.history|)]
            && id !in after.callers && after.starts == s.starts
  {
  }

  /** The promise of the negative cache. Once an id is noted, every look at it in the next
      thirty seconds, in any interleaving and whatever the cache holds then, answers at once
      that it is absent, and starts no fetch. */
  lemma NotedIdStartsNoFetch(steps: seq<Step>, n: nat, kid: Kid, step: Step)
    requires n <= |steps| && Run(START, steps).Some? && Run(START, steps[..n]).Some?
    requires kid in Run(START, steps[..n]).value.keys.unknown
    requires Enabled(Run(START, steps).value, step) && LooksFor(Run(START, steps).value, step, kid)
    requires step.r.entry < Run(START, steps[..n]).value.keys.unknown[kid] + 30 * SECOND
    ensures var s, after := Run(START, steps).value, Apply(Run(START, steps).value, step);
            && after.replies == s.replies + [Reply(kid, Ok(None), step.r.entry, |s.history|)]
            && step.id !in after.callers && after.starts == s.starts
  {
    var s, t := Run(START, steps).value, Run(START, steps[..n]).value.keys.unknown[kid];
    NoteLasts(steps, n, kid, t);
    NotedIsReportedAbsent(s.keys, kid, step.r);
    LookAnswers(s, step.id, step.r, if step.FirstLook? then Waiting(kid) else Fetching(kid, step.r.failure));
  }

  // ---- Main results ----

  /** Every answer of every run is boundedly stale. `None` means some fetch finished less
      than 60 seconds ago did not have the id; a key is the newest published one and was
      fetched less than an hour ago; an error means the newest fetch failed, less than
      five seconds ago. Only fetches finished before the answer count. */
  lemma AnswersAreBoundedlyStale(steps: seq<Step>, i: nat)
    requires Run(START, steps).Some? && i < |Run(START, steps).value.replies|
    ensures var s, reply := Run(START, steps).value, Run(START, steps).value.replies[i];
            && reply.seen <= |s.history|
            && var known := s.history[..reply.seen];
               match reply.answer
               case Ok(None) =>
                 exists k :: 0 <= k < |known| && known[k].outcome.Some? && reply.kid !in known[k].outcome.value
                             && known[k].at <= reply.at < known[k].at + 60 * SECOND
               case Ok(Some(key)) =>
                 && LastKeySet(known).Some?
                 && Lookup(LastKeySet(known).value.keys, reply.kid) == Some(key)
                 && LastKeySet(known).value.fetchedAt <= reply.at < LastKeySet(known).value.fetchedAt + 3600 * SECOND
               case Err(_) =>
                 && LastFailure(known).Some?
                 && LastFailure(known).value <= reply.at < LastFailure(known).value + 5 * SECOND
  {
    RunKeepsInvariant(steps);
    assert Justified(Run(START, steps).value.history, Run(START, steps).value.replies[i]);
  }

  /** At most one fetch is in flight, the negative cache is bounded, and every fetch that
      started is finished, dropped or the one in flight. */
  lemma RefreshIsSingleFlight(steps: seq<Step>)
    requires Run(START, steps).Some?
    ensures var s := Run(START, steps).value;
            && (forall a, b :: a in s.callers && b in s.callers && s.callers[a].Fetching? && s.callers[b].Fetching?
                               ==> a == b)
            && |s.keys.unknown| <= UNKNOWN_KID_CAP
            && s.starts == |s.history| + s.dropped
                           + (if exists a :: a in s.callers && s.callers[a].Fetching? then 1 else 0)
  {
    RunKeepsInvariant(steps);
    var s := Run(START, steps).value;
    if InFlight(s) { assert s.owner.value in s.callers && s.callers[s.owner.value].Fetching?; }
  }

  /** When a fetch finished, oldest first; and the same for successful ones only. */
  function Times(history: seq<Completion>): (times: seq<Instant>)
    ensures |times| == |history| && forall i :: 0 <= i < |times| ==> times[i] == history[i].at
  {
    seq(|history|, i requires 0 <= i < |history| => history[i].at)
  }

  function Successes(history: seq<Completion>): seq<Instant> {
    if history == [] then []
    else
      var last := history[|history| - 1];
      Successes(history[..|history| - 1]) + (if last.outcome.Some? then [last.at] else [])
  }

  ghost predicate Apart(times: seq<Instant>, gap: nat) {
    forall i, j :: 0 <= i < j < |times| ==> times[i] + gap <= times[j]
  }

  function CountWithin(times: seq<Instant>, from: Instant, width: nat): nat {
    if times == [] then 0
    else
      var last := times[|times| - 1];
      CountWithin(times[..|times| - 1], from, width) + (if from <= last <= from + width then 1 else 0)
  }

  lemma {:induction false} NoneWithin(times: seq<Instant>, from: Instant, width: nat)
    requires forall i :: 0 <= i < |times| ==> times[i] < from
    ensures CountWithin(times, from, width) == 0
  {
    if times != [] { NoneWithin(times[..|times| - 1], from, width); }
  }

  lemma {:induction false} NarrowWindow(times: seq<Instant>, from: Instant, width: nat, narrow: nat)
    requires narrow <= width && forall i :: 0 <= i < |times| ==> times[i] <= from + narrow
    ensures CountWithin(times, from, width) == CountWithin(times, from, narrow)
  {
    if times != [] { NarrowWindow(times[..|times| - 1], from, width, narrow); }
  }

  lemma OneMore(count: int, gap: nat)
    ensures count * gap == (count - 1) * gap + gap
  {
  }

  /** A window that ends in the last time holds no more than a window shorter by the gap
      does, and one. */
  lemma ShorterWindow(rest: seq<Instant>, last: Instant, gap: nat, from: Instant, width: nat)
    requires gap <= width && from + gap <= last <= from + width
    requires forall i :: 0 <= i < |rest| ==> rest[i] + gap <= last
    ensures CountWithin(rest, from, width) == CountWithin(rest, from, width - gap)
  {
    NarrowWindow(rest, from, width, last - gap - from);
    NarrowWindow(rest, from, width - gap, last - gap - from);
  }

  lemma CountOfLast(times: seq<Instant>, from: Instant, width: nat)
    requires times != []
    ensures var n := |times| - 1;
            CountWithin(times, from, width)
            == CountWithin(times[..n], from, width) + (if from <= times[n] <= from + width then 1 else 0)
  {
  }

  lemma {:induction false} WindowCount(times: seq<Instant>, gap: nat, from: Instant, width: nat)
    requires gap > 0 && Apart(times, gap)
    ensures CountWithin(times, from, width) == 0 || (CountWithin(times, from, width) - 1) * gap <= width
    decreases |times|
  {
    if times != [] {
      var rest, last := times[..|times| - 1], times[|times| - 1];
      CountOfLast(times, from, width);
      if !(from <= last <= from + width) {
        WindowCount(rest, gap, from, width);
      } else if last < from + gap {
        NoneWithin(rest, from, width);
      } else {
        ShorterWindow(rest, last, gap, from, width);
        WindowCount(rest, gap, from, width - gap);
        OneMore(CountWithin(rest, from, width), gap);
      }
    }
  }

  lemma {:induction false} NewestSetIsNewest(history: seq<Completion>, i: nat)
    requires i < |history| && history[i].outcome.Some?
    requires forall j, k :: 0 <= j < k < |history| ==> history[j].at <= history[k].at
    ensures LastKeySet(history).Some? && history[i].at <= LastKeySet(history).value.fetchedAt
  {
    var n := |history| - 1;
    if history[n].outcome.None? { NewestSetIsNewest(history[..n], i); }
  }

  lemma {:induction false} SpacedTimes(history: seq<Completion>, i: nat, j: nat)
    requires Spaced(history) && i < j < |history|
    ensures history[i].at + FETCH_FAILURE_BACKOFF <= history[j].started <= history[j].at
    decreases j
  {
    assert MayStart(history[..j], history[j].started);
    assert history[..j][j - 1] == history[j - 1];
    if i < j - 1 { SpacedTimes(history, i, j - 1); }
  }

  lemma SpacedSuccesses(history: seq<Completion>, i: nat, j: nat)
    requires Spaced(history) && i < j < |history| && history[i].outcome.Some?
    ensures history[i].at + JWKS_REFRESH_INTERVAL <= history[j].at
  {
    assert MayStart(history[..j], history[j].started);
    forall a, b | 0 <= a < b < j ensures history[..j][a].at <= history[..j][b].at {
      SpacedTimes(history, a, b);
    }
    NewestSetIsNewest(history[..j], i);
  }

  ghost predicate SucceededAt(history: seq<Completion>, t: Instant) {
    exists k :: 0 <= k < |history| && history[k].outcome.Some? && history[k].at == t
  }

  lemma {:induction false} SuccessesApart(history: seq<Completion>)
    requires Spaced(history)
    ensures Apart(Successes(history), JWKS_REFRESH_INTERVAL)
    ensures forall i :: 0 <= i < |Successes(history)| ==> SucceededAt(history, Successes(history)[i])
  {
    if history != [] {
      var n := |history| - 1;
      var rest, last := history[..n], history[n];
      assert Spaced(rest) by {
        forall i | 0 <= i < n ensures MayStart(rest[..i], rest[i].started) && rest[i].started <= rest[i].at {
          assert rest[..i] == history[..i];
        }
      }
      SuccessesApart(rest);
      var older := Successes(rest);
      var all := Successes(history);
      forall i | 0 <= i < |older| ensures older[i] + JWKS_REFRESH_INTERVAL <= last.at {
        assert SucceededAt(rest, older[i]);
        var k :| 0 <= k < n && rest[k].outcome.Some? && rest[k].at == older[i];
        SpacedSuccesses(history, k, n);
      }
      forall i | 0 <= i < |all| ensures SucceededAt(history, all[i]) {
        if i < |older| {
          assert SucceededAt(rest, older[i]);
          var k :| 0 <= k < n && rest[k].outcome.Some? && rest[k].at == older[i];
          assert history[k] == rest[k] && all[i] == older[i];
        } else {
          assert history[n].outcome.Some? && all[i] == last.at;
        }
      }
    }
  }

  lemma PerInterval(count: int, width: nat)
    ensures (count - 1) * 5_000_000_000 <= width ==> count <= width / 5_000_000_000 + 1
    ensures (count - 1) * 30_000_000_000 <= width ==> count <= width / 30_000_000_000 + 1
  {
  }

  /** In any window of `width`, at most one fetch per five seconds finishes, and at most
      one per thirty seconds succeeds, whatever the interleaving and however many
      lookups are dropped. */
  lemma FetchesAreRateBounded(steps: seq<Step>, from: Instant, width: nat)
    requires Run(START, steps).Some?
    ensures var history := Run(START, steps).value.history;
            && CountWithin(Times(history), from, width) <= width / 5_000_000_000 + 1
            && CountWithin(Successes(history), from, width) <= width / 30_000_000_000 + 1
  {
    RunKeepsInvariant(steps);
    var history := Run(START, steps).value.history;
    forall i, j | 0 <= i < j < |history| ensures Times(history)[i] + 5 * SECOND <= Times(history)[j] {
      SpacedTimes(history, i, j);
    }
    WindowCount(Times(history), 5_000_000_000, from, width);
    PerInterval(CountWithin(Times(history), from, width), width);
    SuccessesApart(history);
    WindowCount(Successes(history), 30_000_000_000, from, width);
    PerInterval(CountWithin(Successes(history), from, width), width);
  }

  /** When each fetch that was not dropped started: the finished ones, oldest first, and the
      one in flight. */
  function StartTimes(s: System): seq<Instant> {
    var finished := seq(|s.history|, i requires 0 <= i < |s.history| => s.history[i].started);
    finished + (if InFlight(s) then [s.callers[s.owner.value].since] else [])
  }

  /** A fetch in flight started as late as if it had finished. */
  lemma InFlightIsLast(history: seq<Completion>, since: Instant, i: nat)
    requires Spaced(history) && MayStart(history, since) && i < |history|
    ensures history[i].at + FETCH_FAILURE_BACKOFF <= since
  {
    var c := Completion(since, since, None);
    var h := history + [c];
    HistoryAppend(history, c);
    forall k | 0 <= k < |h| ensures MayStart(h[..k], h[k].started) && h[k].started <= h[k].at {
      assert h[..k] == history[..k];
      if k == |history| { assert h[..k] == history; }
    }
    SpacedTimes(h, i, |history|);
  }

  lemma StartsApart(s: System)
    requires Control(s) && Cached(s)
    ensures Apart(StartTimes(s), 5 * SECOND)
  {
    var times := StartTimes(s);
    forall i, j | 0 <= i < j < |times| ensures times[i] + 5 * SECOND <= times[j] {
      if j < |s.history| {
        SpacedTimes(s.history, i, j);
      } else {
        InFlightIsLast(s.history, s.callers[s.owner.value].since, i);
      }
      assert s.history[i].started <= s.history[i].at;
    }
  }

  /** "At most once per interval", of the starts: it holds of all that were not dropped, in
      any window, and these are all but the dropped ones. */
  lemma StartsAreRateBounded(steps: seq<Step>, from: Instant, width: nat)
    requires Run(START, steps).Some?
    ensures var s := Run(START, steps).value;
            && CountWithin(StartTimes(s), from, width) <= width / 5_000_000_000 + 1
            && s.starts == |StartTimes(s)| + s.dropped
  {
    RunKeepsInvariant(steps);
    var s := Run(START, steps).value;
    StartsApart(s);
    WindowCount(StartTimes(s), 5_000_000_000, from, width);
    PerInterval(CountWithin(StartTimes(s), from, width), width);
  }

  /** A lookup is answered with a key on its first look, without the refresh lock,
      exactly when the id is not negatively cached and the set is under an hour old and
      has it; whoever holds the lock keeps it. */
  lemma CachedKeyNeedsNoLock(s: System, id: Id, r: Readings)
    requires Invariant(s) && Enabled(s, FirstLook(id, r))
    ensures var kid, after := s.callers[id].kid, Apply(s, FirstLook(id, r));
            && after.owner == s.owner
            && ((|after.replies| > |s.replies| && after.replies[|s.replies|].answer.Ok?
                 && after.replies[|s.replies|].answer.value.Some?)
                <==> (&& kid !in Retained(s.keys.unknown, r.entry)
                      && s.keys.cache.Some? && r.age < s.keys.cache.value.fetchedAt + 3600 * SECOND
                      && kid in s.keys.cache.value.keys))
  {
    LookOutcome(s, id, r, Waiting(s.callers[id].kid));
    if LastKeySet(s.history).Some? { var i := LastKeySetIsFinished(s.history); }
  }

  // ---- What is not promised ----

  function AtOnce(t: Instant): Readings {
    Readings(t, t, t, t)
  }

  /** A lookup that is answered on its first look, and one that fetches. */
  function Glance(kid: Kid, t: Instant): seq<Step> {
    [Arrive(0, kid), FirstLook(0, AtOnce(t))]
  }

  function Begin(kid: Kid, t: Instant): seq<Step> {
    Glance(kid, t) + [Acquire(0), SecondLook(0, AtOnce(t))]
  }

  predicate Idle(s: System) {
    s.callers == map[] && s.owner.None?
  }

  lemma {:induction false} RunAppend(from: System, a: seq<Step>, b: seq<Step>)
    requires Run(from, a).Some?
    ensures Run(from, a + b) == Run(Run(from, a).value, b)
  {
    if b == [] {
      assert a + b == a;
    } else {
      var n := |b| - 1;
      RunAppend(from, a, b[..n]);
      assert (a + b)[..|a + b| - 1] == a + b[..n];
    }
  }

  lemma RunStep(from: System, steps: seq<Step>, step: Step)
    requires Run(from, steps).Some? && Enabled(Run(from, steps).value, step)
    ensures Run(from, steps + [step]) == Some(Apply(Run(from, steps).value, step))
  {
    assert (steps + [step])[..|steps|] == steps;
  }

  lemma GlanceRuns(s: System, kid: Kid, t: Instant)
    requires Idle(s) && s.now <= t
    ensures var seen := Inspect(s.keys, kid, AtOnce(t));
            Run(s, Glance(kid, t)) == Some(match seen.answer
              case Some(answer) =>
                s.(now := t, keys := seen.keys, replies := s.replies + [Reply(kid, answer, seen.at, |s.history|)])
              case None => s.(now := t, keys := seen.keys, callers := map[0 := Waiting(kid)]))
  {
    var first, second := Arrive(0, kid), FirstLook(0, AtOnce(t));
    RunStep(s, [], first);
    RunStep(s, [first], second);
    assert [] + [first] == [first] && [first] + [second] == Glance(kid, t);
    var arrived := Apply(s, first);
    assert arrived.callers == map[0 := Arrived(kid)];
    assert arrived.callers - {0} == map[];
    assert arrived.callers[0 := Waiting(kid)] == map[0 := Waiting(kid)];
  }

  lemma RetainedTwice(unknown: map<Kid, Instant>, t: Instant)
    ensures Retained(Retained(unknown, t), t) == Retained(unknown, t)
  {
  }

  /** Looking again at the same instant changes nothing. */
  lemma LookAgain(keys: Keys, kid: Kid, t: Instant)
    requires Inspect(keys, kid, AtOnce(t)).answer.None?
    ensures var after := keys.(unknown := Retained(keys.unknown, t));
            && Inspect(keys, kid, AtOnce(t)) == Inspection(after, None, t)
            && Inspect(after, kid, AtOnce(t)) == Inspection(after, None, t)
  {
    RetainedTwice(keys.unknown, t);
  }

  lemma AcquireEffect(s: System, kid: Kid)
    requires s.callers == map[0 := Waiting(kid)] && s.owner.None?
    ensures Enabled(s, Acquire(0))
    ensures Apply(s, Acquire(0)) == s.(callers := map[0 := Owner(kid)], owner := Some(0))
  {
    assert s.callers[0 := Owner(kid)] == map[0 := Owner(kid)];
  }

  lemma SecondLookEffect(s: System, kid: Kid, t: Instant)
    requires s.callers == map[0 := Owner(kid)] && s.now <= t
    requires Inspect(s.keys, kid, AtOnce(t)) == Inspection(s.keys, None, t)
    ensures Enabled(s, SecondLook(0, AtOnce(t)))
    ensures Apply(s, SecondLook(0, AtOnce(t)))
         == s.(now := t, callers := map[0 := Fetching(kid, t)], starts := s.starts + 1)
  {
    assert s.callers[0 := Fetching(kid, t)] == map[0 := Fetching(kid, t)];
  }

  lemma TakesLockAndFetches(from: System, steps: seq<Step>, s: System, kid: Kid, t: Instant)
    requires Run(from, steps) == Some(s) && s.callers == map[0 := Waiting(kid)] && s.owner.None? && s.now <= t
    requires Inspect(s.keys, kid, AtOnce(t)) == Inspection(s.keys, None, t)
    ensures Run(from, steps + [Acquire(0)] + [SecondLook(0, AtOnce(t))])
         == Some(s.(now := t, callers := map[0 := Fetching(kid, t)], owner := Some(0), starts := s.starts + 1))
  {
    AcquireEffect(s, kid);
    RunStep(from, steps, Acquire(0));
    SecondLookEffect(Apply(s, Acquire(0)), kid, t);
    RunStep(from, steps + [Acquire(0)], SecondLook(0, AtOnce(t)));
  }

  lemma BeginRuns(s: System, kid: Kid, t: Instant)
    requires Idle(s) && s.now <= t && Inspect(s.keys, kid, AtOnce(t)).answer.None?
    ensures Run(s, Begin(kid, t)) == Some(s.(
              now := t, keys := s.keys.(unknown := Retained(s.keys.unknown, t)),
              callers := map[0 := Fetching(kid, t)], owner := Some(0), starts := s.starts + 1))
  {
    GlanceRuns(s, kid, t);
    LookAgain(s.keys, kid, t);
    var glance := Glance(kid, t);
    TakesLockAndFetches(s, glance, Run(s, glance).value, kid, t);
    assert glance + [Acquire(0)] + [SecondLook(0, AtOnce(t))] == Begin(kid, t);
  }

  function DroppedFetches(n: nat): seq<Step> {
    if n == 0 then [] else DroppedFetches(n - 1) + (Begin("k", 0) + [Drop(0)])
  }

  lemma DroppedFetchRuns(s: System)
    requires Idle(s) && s.now == 0 && s.keys == NO_KEYS
    ensures Run(s, Begin("k", 0) + [Drop(0)]) == Some(s.(starts := s.starts + 1, dropped := s.dropped + 1))
  {
    assert Retained(map[], 0) == map[];
    BeginRuns(s, "k", 0);
    var fetching := Run(s, Begin("k", 0)).value;
    assert fetching.callers - {0} == map[];
    RunStep(s, Begin("k", 0), Drop(0));
  }

  /** Dropped lookups escape the rate bound: any number of fetches can start in the same
      instant, because a dropped one leaves nothing behind. */
  lemma {:induction false} DroppedFetchesAreUnbounded(n: nat)
    ensures Run(START, DroppedFetches(n)) == Some(START.(starts := n, dropped := n))
  {
    if n > 0 {
      DroppedFetchesAreUnbounded(n - 1);
      DroppedFetchRuns(START.(starts := n - 1, dropped := n - 1));
      RunAppend(START, DroppedFetches(n - 1), Begin("k", 0) + [Drop(0)]);
    }
  }

  function FetchSteps(kid: Kid, t: Instant, keys: map<Kid, Key>): seq<Step> {
    Begin(kid, t) + [Finish(0, Some(keys), t, t)]
  }

  lemma FinishEffect(s: System, kid: Kid, t: Instant, keys: map<Kid, Key>)
    requires s.callers == map[0 := Fetching(kid, t)] && s.owner == Some(0) && s.now <= t
    requires kid !in keys && |s.keys.unknown| < UNKNOWN_KID_CAP
    ensures Enabled(s, Finish(0, Some(keys), t, t))
    ensures Apply(s, Finish(0, Some(keys), t, t)) == s.(
              now := t, callers := map[], owner := None,
              keys := Keys(Some(KeySet(keys, t)), s.keys.unknown[kid := t], None),
              history := s.history + [Completion(t, t, Some(keys))],
              replies := s.replies + [Reply(kid, Ok(None), t, |s.history| + 1)])
  {
    assert s.callers - {0} == map[];
  }

  lemma FetchRuns(s: System, kid: Kid, t: Instant, keys: map<Kid, Key>)
    requires Idle(s) && s.now <= t && Inspect(s.keys, kid, AtOnce(t)).answer.None? && kid !in keys
    requires |s.keys.unknown| < UNKNOWN_KID_CAP
    ensures Run(s, FetchSteps(kid, t, keys)) == Some(s.(
              now := t, starts := s.starts + 1,
              keys := Keys(Some(KeySet(keys, t)), Retained(s.keys.unknown, t)[kid := t], None),
              history := s.history + [Completion(t, t, Some(keys))],
              replies := s.replies + [Reply(kid, Ok(None), t, |s.history| + 1)]))
  {
    BeginRuns(s, kid, t);
    RetainedIsSmaller(s.keys.unknown, t);
    FinishEffect(Run(s, Begin(kid, t)).value, kid, t, keys);
    RunStep(s, Begin(kid, t), Finish(0, Some(keys), t, t));
  }

  const ROTATED := map["b" := Key("new")]
  const EMPTY_SET := KeySet(map[], 0)
  const AT_29 := 29 * SECOND
  const AT_30 := 30 * SECOND
  const AT_31 := 31 * SECOND

  /** A fetch for "a" finds nothing; just before the next one, "b" is looked up. */
  lemma BeforeRotation() returns (steps: seq<Step>, s: System)
    ensures Run(START, steps) == Some(s) && Idle(s) && s.now == AT_29
    ensures s.keys == Keys(Some(EMPTY_SET), map["a" := 0, "b" := AT_29], None)
  {
    var fetch := FetchSteps("a", 0, map[]);
    assert Retained(map[], 0) == map[];
    FetchRuns(START, "a", 0, map[]);
    var s1 := Run(START, fetch).value;
    assert s1.keys == Keys(Some(EMPTY_SET), map["a" := 0], None);
    assert Retained(map["a" := 0], AT_29) == map["a" := 0];
    GlanceRuns(s1, "b", AT_29);
    RunAppend(START, fetch, Glance("b", AT_29));
    steps := fetch + Glance("b", AT_29);
    s := Run(START, steps).value;
    assert map["a" := 0]["b" := AT_29] == map["a" := 0, "b" := AT_29];
    assert Inspect(s1.keys, "b", AtOnce(AT_29)).keys == Remember(s1.keys, "b", AT_29);
  }

  /** The next fetch publishes "b", which is still negatively cached. */
  lemma AfterRotation() returns (steps: seq<Step>, s: System)
    ensures Run(START, steps) == Some(s) && Idle(s) && s.now == AT_30
    ensures s.keys == Keys(Some(KeySet(ROTATED, AT_30)), map["b" := AT_29, "c" := AT_30], None)
    ensures LastKeySet(s.history) == Some(KeySet(ROTATED, AT_30))
  {
    var before, s2 := BeforeRotation();
    assert Retained(s2.keys.unknown, AT_30) == map["b" := AT_29];
    assert |s2.keys.unknown.Keys| <= 2 by { assert s2.keys.unknown.Keys == {"a", "b"}; }
    FetchRuns(s2, "c", AT_30, ROTATED);
    RunAppend(START, before, FetchSteps("c", AT_30, ROTATED));
    HistoryAppend(s2.history, Completion(AT_30, AT_30, Some(ROTATED)));
    steps := before + FetchSteps("c", AT_30, ROTATED);
    s := Run(START, steps).value;
    assert map["b" := AT_29]["c" := AT_30] == map["b" := AT_29, "c" := AT_30];
  }

  /** `None` does not mean that the newest key set lacks the id: an id looked up just
      before a rotation stays negatively cached after a fetch that has it. */
  lemma NegativeCacheOutlivesRotation() returns (steps: seq<Step>, s: System)
    ensures Run(START, steps) == Some(s) && |s.replies| > 0
    ensures var reply := s.replies[|s.replies| - 1];
            && reply.answer == Ok(None) && reply.seen == |s.history|
            && LastKeySet(s.history).Some? && reply.kid in LastKeySet(s.history).value.keys
  {
    var before, s3 := AfterRotation();
    assert "b" in Retained(s3.keys.unknown, AT_31);
    GlanceRuns(s3, "b", AT_31);
    RunAppend(START, before, Glance("b", AT_31));
    steps := before + Glance("b", AT_31);
    s := Run(START, steps).value;
  }
}
