/**
 * Per-user memory of the last resolved entity, kept in a module-level map
 * with a fixed time-to-live that is checked lazily on read
 * (app/utils/contextMemory.ts). The clock (`Date.now()`) is a parameter `now`
 * in milliseconds.
 */
module ContextMemory {
  import opened Wrappers

  /** `EXPIRY_DURATION_MS`: fifteen minutes in milliseconds. */
  const ExpiryDurationMs: int := 15 * 60 * 1000

  datatype MemoryEntry = MemoryEntry(entity: string, expiresAt: int)

  type MemoryMap = map<string, MemoryEntry>

  /** What a read of `userId` at time `now` returns: the stored entity while
      `now` has not passed its expiry time, and nothing otherwise. */
  function Lookup(m: MemoryMap, userId: string, now: int): Option<string> {
    if userId !in m then None
    else if now > m[userId].expiresAt then None
    else Some(m[userId].entity)
  }

  /** The map a read of `userId` at time `now` leaves behind: an expired entry
      of that user is evicted, nothing else changes. */
  function AfterGet(m: MemoryMap, userId: string, now: int): MemoryMap {
    if userId in m && now > m[userId].expiresAt then m - {userId} else m
  }

  /** The entries of every user other than `userId` are the same in `m` and `m'`. */
  ghost predicate OthersUnchanged(m: MemoryMap, m': MemoryMap, userId: string) {
    forall v :: v != userId ==> (v in m <==> v in m') && (v in m ==> m[v] == m'[v])
  }

  /** The store itself: the `memoryMap` that `setLastEntity`, `getLastEntity`
      and `clearEntityMemory` share. */
  class EntityMemory {
    var memoryMap: MemoryMap

    constructor ()
      ensures memoryMap == map[]
    {
      memoryMap := map[];
    }

    /** `setLastEntity`: store `entity` for `userId`, expiring one time-to-live
        from `now`, replacing whatever that user had. */
    method SetLastEntity(userId: string, entity: string, now: int)
      modifies this
      ensures memoryMap == old(memoryMap)[userId := MemoryEntry(entity, now + ExpiryDurationMs)]
      ensures OthersUnchanged(old(memoryMap), memoryMap, userId)
    {
      memoryMap := memoryMap[userId := MemoryEntry(entity, now + ExpiryDurationMs)];
    }

    /** `getLastEntity`: the live entity of `userId`; an expired entry is
        deleted on the way. */
    method GetLastEntity(userId: string, now: int) returns (r: Option<string>)
      modifies this
      ensures r == Lookup(old(memoryMap), userId, now)
      ensures memoryMap == AfterGet(old(memoryMap), userId, now)
      ensures OthersUnchanged(old(memoryMap), memoryMap, userId)
    {
      if userId !in memoryMap {
        return None;
      }
      var entry := memoryMap[userId];
      if now > entry.expiresAt {
        memoryMap := memoryMap - {userId};
        return None;
      }
      return Some(entry.entity);
    }

    /** `clearEntityMemory`: forget `userId` whatever the state of its entry. */
    method ClearEntityMemory(userId: string)
      modifies this
      ensures memoryMap == old(memoryMap) - {userId}
      ensures OthersUnchanged(old(memoryMap), memoryMap, userId)
    {
      memoryMap := memoryMap - {userId};
    }
  }

  /** A read of a user with no entry finds nothing and changes nothing. */
  lemma GetAbsent(m: MemoryMap, userId: string, now: int)
    requires userId !in m
    ensures Lookup(m, userId, now) == None && AfterGet(m, userId, now) == m
  {
  }

  /** A read after the expiry time finds nothing and deletes the entry, so
      every later read finds nothing too, whatever its time. */
  lemma GetExpiredEvicts(m: MemoryMap, userId: string, now: int, later: int)
    requires userId in m && now > m[userId].expiresAt
    ensures Lookup(m, userId, now) == None
    ensures userId !in AfterGet(m, userId, now)
    ensures Lookup(AfterGet(m, userId, now), userId, later) == None
  {
  }

  /** A read up to and including the expiry time returns the stored entity and
      changes nothing. */
  lemma GetLive(m: MemoryMap, userId: string, now: int)
    requires userId in m && now <= m[userId].expiresAt
    ensures Lookup(m, userId, now) == Some(m[userId].entity)
    ensures AfterGet(m, userId, now) == m
  {
  }

  /** Round trip: what was set at `setAt` is read back at any time up to one
      time-to-live later, and is gone afterwards. */
  lemma SetThenGet(m: MemoryMap, userId: string, entity: string, setAt: int, now: int)
    ensures var m' := m[userId := MemoryEntry(entity, setAt + ExpiryDurationMs)];
      Lookup(m', userId, now) == (if now <= setAt + ExpiryDurationMs then Some(entity) else None)
  {
  }

  /** A cleared user reads as absent at every time. */
  lemma ClearForgets(m: MemoryMap, userId: string, now: int)
    ensures Lookup(m - {userId}, userId, now) == None
  {
  }

  /** Set, get and clear on one user leave what every other user reads intact. */
  lemma OtherUsersIsolated(m: MemoryMap, userId: string, other: string, entity: string, t: int, now: int)
    requires other != userId
    ensures Lookup(m[userId := MemoryEntry(entity, t + ExpiryDurationMs)], other, now) == Lookup(m, other, now)
    ensures Lookup(AfterGet(m, userId, t), other, now) == Lookup(m, other, now)
    ensures Lookup(m - {userId}, other, now) == Lookup(m, other, now)
  {
  }
}
