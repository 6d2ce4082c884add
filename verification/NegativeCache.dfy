/**
 The negative-result cache (pkg/controllers/disruption/negativeresultcache.go): an entry per
 candidate, evicted by expiry, by a changed fingerprint, or all at once. Times are in nanoseconds
 of the injected clock.
 */
module NegativeCache {
  datatype Entry = Entry(fingerprint: string, expiresAt: int)

  type Entries = map<string, Entry>

  datatype Event =
    | Lookup(now: int, id: string, fingerprint: string)
    | Store(now: int, id: string, fingerprint: string, ttl: int)
    | Clear(now: int)
    | DropExpired(now: int)

  predicate Hit(entries: Entries, now: int, id: string, fingerprint: string) {
    id in entries && now <= entries[id].expiresAt && entries[id].fingerprint == fingerprint
  }

  /** Storing writes an entry unless the same verdict is still alive. */
  predicate Writes(entries: Entries, now: int, id: string, fingerprint: string, ttl: int) {
    ttl > 0 && !(id in entries && entries[id].fingerprint == fingerprint && now < entries[id].expiresAt)
  }

  function Next(entries: Entries, e: Event): Entries {
    match e
    case Lookup(now, id, fingerprint) =>
      if Hit(entries, now, id, fingerprint) then entries else entries - {id}
    case Store(now, id, fingerprint, ttl) =>
      if Writes(entries, now, id, fingerprint, ttl) then entries[id := Entry(fingerprint, now + ttl)] else entries
    case Clear(_) => map[]
    case DropExpired(now) => map id | id in entries && now <= entries[id].expiresAt :: entries[id]
  }

  /** The cache holds the verdict for this fingerprint and it has time left. */
  ghost predicate IsLive(entries: Entries, now: int, id: string, fingerprint: string) {
    id in entries && entries[id].fingerprint == fingerprint && now < entries[id].expiresAt
  }

  /** Storing a verdict again while it has time left changes nothing, so it does not live longer for it. */
  lemma RestoringKeeps(entries: Entries, now: int, id: string, fingerprint: string, ttl: int)
    requires id in entries && entries[id].fingerprint == fingerprint && now < entries[id].expiresAt
    ensures Next(entries, Store(now, id, fingerprint, ttl)) == entries
  {
  }

  class NegativeResultCache {
    var entries: Entries

    constructor ()
      ensures entries == map[]
    {
      entries := map[];
    }

    method ShouldSkip(now: int, id: string, fingerprint: string) returns (skip: bool)
      modifies this
      ensures skip <==> Hit(old(entries), now, id, fingerprint)
      ensures entries == Next(old(entries), Lookup(now, id, fingerprint))
    {
      if id !in entries {
        return false;
      }
      if now > entries[id].expiresAt {
        entries := entries - {id};
        return false;
      }
      if entries[id].fingerprint != fingerprint {
        entries := entries - {id};
        return false;
      }
      return true;
    }

    method StoreNegative(now: int, id: string, fingerprint: string, ttl: int)
      modifies this
      ensures entries == Next(old(entries), Store(now, id, fingerprint, ttl))
      ensures IsLive(old(entries), now, id, fingerprint) || ttl <= 0 ==> entries == old(entries)
      ensures !IsLive(old(entries), now, id, fingerprint) && ttl > 0 ==>
              entries == old(entries)[id := Entry(fingerprint, now + ttl)]
    {
      if ttl <= 0 {
        return;
      }
      if id in entries && entries[id].fingerprint == fingerprint && now < entries[id].expiresAt {
        return;
      }
      entries := entries[id := Entry(fingerprint, now + ttl)];
    }

    method Clear()
      modifies this
      ensures forall now :: entries == Next(old(entries), Event.Clear(now))
    {
      entries := map[];
    }

    method DropExpired(now: int)
      modifies this
      ensures entries == Next(old(entries), Event.DropExpired(now))
    {
      var rest := entries.Keys;
      while rest != {}
        invariant rest <= old(entries).Keys
        invariant entries ==
                  map id | id in old(entries) && (id in rest || now <= old(entries)[id].expiresAt) :: old(entries)[id]
      {
        var id :| id in rest;
        if now > entries[id].expiresAt {
          entries := entries - {id};
        }
        rest := rest - {id};
      }
    }
  }

  // Whole traces of calls

  /** The entries after the first n calls. */
  ghost function After(trace: seq<Event>, n: nat): Entries
    requires n <= |trace|
  {
    if n == 0 then map[] else Next(After(trace, n - 1), trace[n - 1])
  }

  ghost predicate Monotone(trace: seq<Event>) {
    forall i, j | 0 <= i < j < |trace| :: trace[i].now <= trace[j].now
  }

  /** Call s is a store that wrote its entry. */
  ghost predicate Effective(trace: seq<Event>, s: nat) {
    && s < |trace| && trace[s].Store?
    && Writes(After(trace, s), trace[s].now, trace[s].id, trace[s].fingerprint, trace[s].ttl)
  }

  /** Call j removes or replaces the entry that call s wrote. */
  ghost predicate Evicts(trace: seq<Event>, s: nat, j: nat)
    requires s < |trace| && j < |trace| && trace[s].Store?
  {
    var expiresAt := trace[s].now + trace[s].ttl;
    match trace[j]
    case Lookup(now, id, fingerprint) => id == trace[s].id && (now > expiresAt || fingerprint != trace[s].fingerprint)
    case Store(_, id, _, _) => id == trace[s].id && Effective(trace, j)
    case Clear(_) => true
    case DropExpired(now) => now > expiresAt
  }

  /** The entry written by call s is the one in the cache after n calls. */
  ghost predicate Survives(trace: seq<Event>, s: nat, n: nat) {
    && s < n <= |trace| && Effective(trace, s)
    && forall j | s < j < n :: !Evicts(trace, s, j)
  }

  lemma {:induction false} SurvivorIsCached(trace: seq<Event>, s: nat, n: nat)
    requires Survives(trace, s, n)
    ensures trace[s].id in After(trace, n)
    ensures After(trace, n)[trace[s].id] == Entry(trace[s].fingerprint, trace[s].now + trace[s].ttl)
  {
    if n > s + 1 {
      SurvivorIsCached(trace, s, n - 1);
      assert !Evicts(trace, s, n - 1);
    }
  }

  lemma {:induction false} CachedHasSurvivor(trace: seq<Event>, n: nat, id: string) returns (s: nat)
    requires n <= |trace| && id in After(trace, n)
    ensures Survives(trace, s, n) && trace[s].id == id
    ensures After(trace, n)[id] == Entry(trace[s].fingerprint, trace[s].now + trace[s].ttl)
  {
    var e := trace[n - 1];
    if e.Store? && e.id == id && Effective(trace, n - 1) {
      s := n - 1;
    } else {
      assert id in After(trace, n - 1);
      s := CachedHasSurvivor(trace, n - 1, id);
      assert !Evicts(trace, s, n - 1);
    }
  }

  /**
   A lookup hits exactly when some earlier effective store of the same candidate and fingerprint is
   not yet expired and has not been evicted since.
   */
  lemma HitIff(trace: seq<Event>, k: nat)
    requires k < |trace| && trace[k].Lookup?
    ensures Hit(After(trace, k), trace[k].now, trace[k].id, trace[k].fingerprint) <==>
            exists s: nat :: && Survives(trace, s, k) && trace[s].id == trace[k].id
                        && trace[s].fingerprint == trace[k].fingerprint && trace[k].now <= trace[s].now + trace[s].ttl
  {
    var e := trace[k];
    if Hit(After(trace, k), e.now, e.id, e.fingerprint) {
      var s := CachedHasSurvivor(trace, k, e.id);
    }
    forall s: nat | && Survives(trace, s, k) && trace[s].id == e.id
               && trace[s].fingerprint == e.fingerprint && e.now <= trace[s].now + trace[s].ttl
      ensures Hit(After(trace, k), e.now, e.id, e.fingerprint)
    {
      SurvivorIsCached(trace, s, k);
    }
  }

  /**
   With a clock that does not run backwards, a hit at time t names a store at some time s with
   s <= t <= s + ttl that found no live entry for that candidate and fingerprint, without a clear in
   between. Every store for the candidate meanwhile found the verdict alive and changed nothing, so
   repeating a verdict never extends its life.
   */
  lemma HitIsFresh(trace: seq<Event>, k: nat) returns (s: nat)
    requires Monotone(trace) && k < |trace| && trace[k].Lookup?
    requires Hit(After(trace, k), trace[k].now, trace[k].id, trace[k].fingerprint)
    ensures s < k && Effective(trace, s) && trace[s].id == trace[k].id && trace[s].fingerprint == trace[k].fingerprint
    ensures trace[s].now <= trace[k].now <= trace[s].now + trace[s].ttl && trace[s].ttl > 0
    ensures !IsLive(After(trace, s), trace[s].now, trace[s].id, trace[s].fingerprint)
    ensures forall j | s < j < k && trace[j].Store? && trace[j].id == trace[k].id ::
              trace[j].ttl <= 0 || IsLive(After(trace, j), trace[j].now, trace[j].id, trace[j].fingerprint)
    ensures forall j | s < j < k :: !trace[j].Clear?
    ensures forall j | s < j < k && trace[j].Store? && trace[j].id == trace[k].id :: !Effective(trace, j)
  {
    s := CachedHasSurvivor(trace, k, trace[k].id);
    forall j | s < j < k ensures !trace[j].Clear? {
      assert !Evicts(trace, s, j);
    }
    forall j | s < j < k && trace[j].Store? && trace[j].id == trace[k].id ensures !Effective(trace, j) {
      assert !Evicts(trace, s, j);
    }
  }
}
