/** The registry of outstanding challenges: the global `activeChallenges`
    map with its insert, lookup, delete, expiry sweep and size. Each method
    is one critical section of `challengeMutex`; the lock itself is not
    modelled. Instants and durations are integers counting nanoseconds, as
    `time.Time` and `time.Duration` do. */
module ChallengeStore {
  import opened Geometry
  import opened Generator

  const Second: int := 1_000_000_000
  /** Answers later than this after issue are refused. */
  const AnswerDeadline: int := Second
  /** The sweep drops records created before `now - MaxAge`. */
  const MaxAge: int := 2 * Second

  datatype Option<T> = None | Some(value: T)

  /** What is kept per issued challenge (`ChallengeData`). */
  datatype ChallengeData = ChallengeData(
    challenge: TargetChallenge,
    expectedAnswer: string,
    createdAt: int)

  /** `data.CreatedAt.Before(cutoff)` with `cutoff = now - 2s`. */
  predicate Expired(data: ChallengeData, now: int) {
    data.createdAt < now - MaxAge
  }

  /** The records a sweep at `now` keeps. */
  function Unexpired(m: map<string, ChallengeData>, now: int): (r: map<string, ChallengeData>)
    ensures r.Keys <= m.Keys
    ensures forall id :: id in r ==> r[id] == m[id] && !Expired(r[id], now)
    ensures forall id :: id in m && !Expired(m[id], now) ==> id in r
  {
    map id | id in m && !Expired(m[id], now) :: m[id]
  }

  /** Sweeping twice at the same instant removes nothing more. */
  lemma UnexpiredIdempotent(m: map<string, ChallengeData>, now: int)
    ensures Unexpired(Unexpired(m, now), now) == Unexpired(m, now)
  {
  }

  /** A sweep at a later instant removes at least what an earlier one did:
      sweeping at `t1` and then at `t2 >= t1` is the same as sweeping at
      `t2` alone. */
  lemma UnexpiredLater(m: map<string, ChallengeData>, t1: int, t2: int)
    requires t1 <= t2
    ensures Unexpired(Unexpired(m, t1), t2) == Unexpired(m, t2)
  {
  }

  /** A record stored by the issuing handler: filed under its own
      identifier, holding the answer computed from its own targets when it
      was stored, and shaped as the generator makes challenges. */
  ghost predicate RecordConsistent(id: string, data: ChallengeData) {
    && data.challenge.challengeId == id
    && data.expectedAnswer == ClosestTargetId(data.challenge.playerPos, data.challenge.targets)
    && WellFormed(data.challenge)
  }

  class Store {
    var active: map<string, ChallengeData>

    ghost predicate Valid()
      reads this
    {
      forall id :: id in active ==> RecordConsistent(id, active[id])
    }

    constructor ()
      ensures active == map[] && Valid()
    {
      active := map[];
    }

    /** `activeChallenges[id] = data`: adds or overwrites one entry. */
    method Put(id: string, data: ChallengeData)
      modifies this
      ensures active == old(active)[id := data]
    {
      active := active[id := data];
    }

    /** `data, exists := activeChallenges[id]` under the read lock. */
    method Get(id: string) returns (found: Option<ChallengeData>)
      ensures found.Some? <==> id in active
      ensures found.Some? ==> found.value == active[id]
    {
      if id in active {
        found := Some(active[id]);
      } else {
        found := None;
      }
    }

    /** `delete(activeChallenges, id)`: a no-op for an absent key. */
    method Delete(id: string)
      modifies this
      ensures active == old(active) - {id}
    {
      active := active - {id};
    }

    /** `cleanupExpiredChallenges`: walks the entries and deletes each one
        created strictly before `now - 2s`. */
    method CleanupExpired(now: int)
      modifies this
      ensures active == Unexpired(old(active), now)
      ensures old(Valid()) ==> Valid()
    {
      var cutoff := now - MaxAge;
      var pending := active.Keys;
      ghost var before := active;
      while pending != {}
        invariant pending <= before.Keys
        invariant active.Keys <= before.Keys
        invariant forall id :: id in active ==> active[id] == before[id]
        invariant forall id :: id in before ==> (id in active <==> id in pending || !Expired(before[id], now))
        decreases pending
      {
        var id :| id in pending;
        if active[id].createdAt < cutoff {
          active := active - {id};
        }
        pending := pending - {id};
      }
      assert active.Keys == Unexpired(before, now).Keys;
    }

    /** Every record in a valid store is filed under its own identifier,
        has targets with distinct identifiers, and expects the identifier
        of its first closest target. */
    lemma StoredRecordConsistent(id: string)
      requires Valid() && id in active
      ensures active[id].challenge.challengeId == id
      ensures DistinctIds(active[id].challenge.targets)
      ensures active[id].expectedAnswer
        == ClosestTargetId(active[id].challenge.playerPos, active[id].challenge.targets)
    {
    }

    /** `len(activeChallenges)`, as the status report shows it. */
    method ActiveCount() returns (count: nat)
      ensures count == |active|
    {
      count := |active|;
    }
  }
}
