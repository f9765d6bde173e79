/** The signing-key cache of `src/oidc.rs`: one shared `KeyState`, read and updated under
    a short lock by every lookup. The class has the source's fields and branches; the
    functions on `Keys` say what each critical section does to them.

    Inside one critical section the source reads the clock several times. Every reading
    is a separate value here, and readings never go backwards. */
module KeyCache {
  import opened Wrappers

  type Kid = string
  datatype Key = Key(material: string)

  /** Instants are nanoseconds of a monotone clock. */
  type Instant = nat

  const SECOND: nat := 1_000_000_000
  const JWKS_TTL: nat := 3600 * SECOND
  const JWKS_REFRESH_INTERVAL: nat := 30 * SECOND
  const FETCH_FAILURE_BACKOFF: nat := 5 * SECOND
  const UNKNOWN_KID_TTL: nat := 30 * SECOND
  const UNKNOWN_KID_CAP: nat := 1024

  datatype TokenError = ProviderUnavailable

  type Answer = Result<Option<Key>, TokenError>

  datatype KeySet = KeySet(keys: map<Kid, Key>, fetchedAt: Instant)

  datatype Keys = Keys(cache: Option<KeySet>, unknown: map<Kid, Instant>, lastFailure: Option<Instant>)

  const NO_KEYS := Keys(None, map[], None)

  /** The clock readings of one inspection, in the order they are taken. */
  datatype Readings = Readings(entry: Instant, age: Instant, refresh: Instant, failure: Instant)

  predicate Ordered(r: Readings) {
    r.entry <= r.age <= r.refresh <= r.failure
  }

  /** `duration_since` and `elapsed`, which never go below zero. */
  function Since(now: Instant, then_: Instant): nat {
    if now >= then_ then now - then_ else 0
  }

  function Retained(unknown: map<Kid, Instant>, now: Instant): map<Kid, Instant> {
    map kid | kid in unknown && Since(now, unknown[kid]) < UNKNOWN_KID_TTL :: unknown[kid]
  }

  function Remember(s: Keys, kid: Kid, now: Instant): Keys {
    if |s.unknown| < UNKNOWN_KID_CAP || kid in s.unknown then s.(unknown := s.unknown[kid := now]) else s
  }

  /** What an inspection leaves behind and answers; `at` is the reading that decided. */
  datatype Inspection = Inspection(keys: Keys, answer: Option<Answer>, at: Instant)

  function Inspect(s: Keys, kid: Kid, r: Readings): Inspection {
    var kept := s.(unknown := Retained(s.unknown, r.entry));
    var live := s.cache.Some? && Since(r.age, s.cache.value.fetchedAt) < JWKS_TTL;
    if kid in kept.unknown then Inspection(kept, Some(Ok(None)), r.entry)
    else if live && kid in s.cache.value.keys then
      Inspection(kept, Some(Ok(Some(s.cache.value.keys[kid]))), r.age)
    else if live && Since(r.refresh, s.cache.value.fetchedAt) < JWKS_REFRESH_INTERVAL then
      Inspection(Remember(kept, kid, r.entry), Some(Ok(None)), r.refresh)
    else if s.lastFailure.Some? && Since(r.failure, s.lastFailure.value) < FETCH_FAILURE_BACKOFF then
      Inspection(kept, Some(Err(ProviderUnavailable)), r.failure)
    else Inspection(kept, None, r.failure)
  }

  function Lookup(keys: map<Kid, Key>, kid: Kid): Option<Key> {
    if kid in keys then Some(keys[kid]) else None
  }

  /** Publishing a fetched key set: `fetched` stamps the set, `noted` an absent id. */
  function Publish(s: Keys, kid: Kid, keys: map<Kid, Key>, fetched: Instant, noted: Instant): Keys {
    var updated := Keys(Some(KeySet(keys, fetched)), s.unknown, None);
    if kid in keys then updated else Remember(updated, kid, noted)
  }

  class KeyState {
    var cache: Option<KeySet>
    var unknownKids: map<Kid, Instant>
    var lastFailure: Option<Instant>

    ghost function Contents(): Keys
      reads this
    {
      Keys(cache, unknownKids, lastFailure)
    }

    constructor ()
      ensures Contents() == NO_KEYS
    {
      cache, unknownKids, lastFailure := None, map[], None;
    }

    method RememberUnknown(kid: Kid, now: Instant)
      modifies this`unknownKids
      ensures Contents() == Remember(old(Contents()), kid, now)
    {
      if |unknownKids| < UNKNOWN_KID_CAP || kid in unknownKids {
        unknownKids := unknownKids[kid := now];
      }
    }

    method InspectKeyState(kid: Kid, r: Readings) returns (answer: Option<Answer>)
      modifies this`unknownKids
      ensures Contents() == Inspect(old(Contents()), kid, r).keys
      ensures answer == Inspect(old(Contents()), kid, r).answer
    {
      unknownKids := map k | k in unknownKids && Since(r.entry, unknownKids[k]) < UNKNOWN_KID_TTL :: unknownKids[k];
      if kid in unknownKids {
        return Some(Ok(None));
      }
      if cache.Some? && Since(r.age, cache.value.fetchedAt) < JWKS_TTL {
        if kid in cache.value.keys {
          return Some(Ok(Some(cache.value.keys[kid])));
        }
        if Since(r.refresh, cache.value.fetchedAt) < JWKS_REFRESH_INTERVAL {
          RememberUnknown(kid, r.entry);
          return Some(Ok(None));
        }
      }
      if lastFailure.Some? && Since(r.failure, lastFailure.value) < FETCH_FAILURE_BACKOFF {
        return Some(Err(ProviderUnavailable));
      }
      return None;
    }

    /** The end of `key`: record the outcome of a fetch and answer its caller. */
    method RecordFetch(kid: Kid, outcome: Option<map<Kid, Key>>, fetched: Instant, noted: Instant)
      returns (answer: Answer)
      modifies this
      ensures outcome.Some? ==> Contents() == Publish(old(Contents()), kid, outcome.value, fetched, noted)
      ensures outcome.Some? ==> answer == Ok(Lookup(outcome.value, kid))
      ensures outcome.None? ==> Contents() == old(Contents()).(lastFailure := Some(fetched))
      ensures outcome.None? ==> answer == Err(ProviderUnavailable)
    {
      match outcome
      case Some(keys) =>
        var found := if kid in keys then Some(keys[kid]) else None;
        cache := Some(KeySet(keys, fetched));
        lastFailure := None;
        if found.None? {
          RememberUnknown(kid, noted);
        }
        answer := Ok(found);
      case None =>
        lastFailure := Some(fetched);
        answer := Err(ProviderUnavailable);
    }
  }
}
