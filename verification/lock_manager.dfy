/**
  The registry of locked cells. A monkey locks both cells of its task before
  starting it and releases them when it returns. The registry is a plain
  value here; the source's `@Synchronized` has no sequential counterpart.
 */
module LockManager {
  import opened GridModel

  /** The positions of a `vararg` list, as a set. */
  function Positions(ps: seq<Pos>): set<Pos> {
    set p | p in ps
  }

  /** `positions.any { it in lockedPositions }`. */
  function AnyLocked(locks: set<Pos>, ps: seq<Pos>): (r: bool)
    ensures r <==> exists i :: 0 <= i < |ps| && ps[i] in locks
  {
    if |ps| == 0 then false
    else ps[0] in locks || AnyLocked(locks, ps[1..])
  }

  /** The outcome of `tryLock`: whether it succeeded, and the registry afterwards. */
  datatype LockResult = LockResult(ok: bool, locks: set<Pos>)

  /**
    `tryLock(positions)`: fail and change nothing when any position is
    already held; otherwise take them all.
   */
  function TryLock(locks: set<Pos>, ps: seq<Pos>): (r: LockResult)
    ensures r.ok <==> forall q :: q in ps ==> q !in locks
    ensures r.ok ==> forall q :: q in r.locks <==> q in locks || q in ps
    ensures !r.ok ==> r.locks == locks
  {
    if AnyLocked(locks, ps) then LockResult(false, locks)
    else LockResult(true, locks + Positions(ps))
  }

  /** `unlock(positions)`: exactly the given positions are released. */
  function Unlock(locks: set<Pos>, ps: seq<Pos>): (r: set<Pos>)
    ensures forall q :: q in r <==> q in locks && q !in ps
  {
    locks - Positions(ps)
  }

  /** `clear()`: the registry is emptied. */
  function Clear(locks: set<Pos>): (r: set<Pos>)
    ensures forall q :: q !in r
  {
    {}
  }

  /** Locking a task's two cells is all or nothing: both become held, or the registry is as before. */
  lemma TryLockPairAllOrNothing(locks: set<Pos>, a: Pos, b: Pos)
    ensures var r := TryLock(locks, [a, b]);
      (r.ok && r.locks == locks + {a, b} && a !in locks && b !in locks)
      || (!r.ok && r.locks == locks && (a in locks || b in locks))
  {
  }

  /** A successful lock is exclusive: locking the same position again fails, and changes nothing. */
  lemma {:induction false} RelockFails(locks: set<Pos>, p: Pos)
    requires TryLock(locks, [p]).ok
    ensures !TryLock(TryLock(locks, [p]).locks, [p]).ok
    ensures TryLock(TryLock(locks, [p]).locks, [p]).locks == TryLock(locks, [p]).locks
  {
    assert p in TryLock(locks, [p]).locks;
  }

  /** After `unlock(p)` the position can be locked again. */
  lemma UnlockThenRelock(locks: set<Pos>, p: Pos)
    ensures TryLock(Unlock(locks, [p]), [p]).ok
    ensures TryLock(Unlock(locks, [p]), [p]).locks == locks + {p}
  {
    assert Unlock(locks, [p]) + {p} == locks + {p};
  }

  /** Releasing positions that a successful lock just took restores the registry it started from. */
  lemma UnlockUndoesTryLock(locks: set<Pos>, ps: seq<Pos>)
    requires TryLock(locks, ps).ok
    ensures Unlock(TryLock(locks, ps).locks, ps) == locks
  {
  }

  /** After `clear()` any set of positions can be locked. */
  lemma ClearThenLock(locks: set<Pos>, ps: seq<Pos>)
    ensures TryLock(Clear(locks), ps).ok
    ensures TryLock(Clear(locks), ps).locks == Positions(ps)
  {
  }
}
