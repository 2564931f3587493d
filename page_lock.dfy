/** The lock of one page: an optional exclusive holder and a set of shared
    holders. `Acquire` and `Release` are the transitions of `PageLock`; the
    buffer pool keeps one `LockState` per page. */
module LockTable {
  import opened Wrappers
  import opened Ids

  /** A transaction, by its id (`TransactionId.equals` compares the ids). */
  type Tid = int

  /** The access a transaction asks for. */
  datatype Permissions = READ_ONLY | READ_WRITE

  /** `_ex_lock` (None for null) and `_shared_locks`. */
  datatype LockState = LockState(ex: Option<Tid>, shared: set<Tid>)

  /** A fresh `PageLock`: nobody holds it. */
  const Unlocked := LockState(None, {})

  /** An exclusive holder excludes every shared holder. */
  predicate LockInv(s: LockState)
  {
    s.ex.Some? ==> s.shared == {}
  }

  /** Transaction `t` holds the lock, in either mode. */
  predicate Holds(s: LockState, t: Tid)
  {
    s.ex == Some(t) || t in s.shared
  }

  /** `acquireLock(tid, p)`: whether the request is granted, and the lock
      afterwards. A shared request is granted when nobody or the requester
      holds the lock exclusively; an exclusive one when the requester holds
      it exclusively already, or nobody does and no other transaction shares
      it (the upgrade from sole shared holder). A refusal changes nothing,
      and no other transaction's holding ever changes. */
  function Acquire(s: LockState, tid: Tid, p: Permissions): (r: (bool, LockState))
    ensures r.0 <==> match p
                     case READ_ONLY => s.ex.None? || s.ex == Some(tid)
                     case READ_WRITE => s.ex == Some(tid) || (s.ex.None? && s.shared <= {tid})
    ensures !r.0 ==> r.1 == s
    ensures r.0 ==> Holds(r.1, tid)
    ensures r.0 && p == READ_WRITE ==> r.1.ex == Some(tid)
    ensures r.0 && p == READ_ONLY && s.ex.None? ==> tid in r.1.shared
    ensures s.ex == Some(tid) ==> r == (true, s)
    ensures r.0 && s.ex.None? && p == READ_ONLY ==> r.1 == s.(shared := s.shared + {tid})
    ensures r.0 && s.ex.None? && p == READ_WRITE ==> r.1 == LockState(Some(tid), {})
    ensures LockInv(s) ==> LockInv(r.1)
    ensures forall t :: t != tid ==> (Holds(r.1, t) <==> Holds(s, t))
  {
    match p
    case READ_ONLY =>
      if s.ex.None? then (true, s.(shared := s.shared + {tid}))
      else (s.ex.value == tid, s)
    case READ_WRITE =>
      if s.ex.Some? then (s.ex.value == tid, s)
      else if s.shared == {} || (|s.shared| == 1 && tid in s.shared) then
        SoleHolder(s.shared, tid);
        (true, LockState(Some(tid), {}))
      else
        SoleHolder(s.shared, tid);
        (false, s)
  }

  /** The upgrade test of `acquireLock`: empty, or exactly the requester. */
  lemma SoleHolder(shared: set<Tid>, tid: Tid)
    ensures (shared == {} || (|shared| == 1 && tid in shared)) <==> shared <= {tid}
  {
    if |shared| == 1 && tid in shared {
      var others := shared - {tid};
      assert |others| == 0;
      assert shared == {tid} by {
        forall t | t in shared ensures t == tid {
          assert t !in others;
        }
      }
    }
    if shared <= {tid} && shared != {} {
      assert shared == {tid};
    }
  }

  /** `releaseLock(tid)`: frees the exclusive slot if `tid` holds it, and
      otherwise drops `tid` from the shared holders. Under the lock
      invariant `tid` holds nothing afterwards; nobody else is affected. */
  function Release(s: LockState, tid: Tid): (r: LockState)
    ensures LockInv(s) ==> LockInv(r) && !Holds(r, tid)
    ensures forall t :: t != tid ==> (Holds(r, t) <==> Holds(s, t))
  {
    if s.ex == Some(tid) then s.(ex := None) else s.(shared := s.shared - {tid})
  }

  /** `getHolders()`: every transaction holding the lock, in either mode. */
  function Holders(s: LockState): (h: set<Tid>)
    ensures forall t :: t in h <==> Holds(s, t)
  {
    (if s.ex.Some? then {s.ex.value} else {}) + s.shared
  }

  /** `holdsLock(tid)`: the source compares the exclusive holder first, so
      with no exclusive holder the call fails (`None`) even for a shared
      holder; otherwise it answers whether `tid` holds the lock. */
  function HoldsLockResult(s: LockState, tid: Tid): (r: Option<bool>)
    ensures r.None? <==> s.ex.None?
    ensures r.Some? ==> (r.value <==> Holds(s, tid))
    ensures r.Some? && LockInv(s) ==> (r.value <==> s.ex == Some(tid))
  {
    if s.ex.None? then None else Some(s.ex.value == tid || tid in s.shared)
  }

  /** `PageLock`: the lock object of one page. */
  class PageLock {
    const pageId: HeapPageId
    var sharedLocks: set<Tid>
    var exLock: Option<Tid>

    function State(): LockState
      reads this
    {
      LockState(exLock, sharedLocks)
    }

    ghost predicate Valid()
      reads this
    {
      LockInv(State())
    }

    /** `PageLock(pid)`: nobody holds the new lock. */
    constructor (pid: HeapPageId)
      ensures pageId == pid && State() == Unlocked && Valid()
    {
      pageId := pid;
      sharedLocks := {};
      exLock := None;
    }

    /** `acquireLock(tid, p)`. */
    method AcquireLock(tid: Tid, p: Permissions) returns (granted: bool)
      requires Valid()
      modifies this
      ensures Valid()
      ensures (granted, State()) == Acquire(old(State()), tid, p)
    {
      if p == READ_ONLY {
        if exLock.None? {
          sharedLocks := sharedLocks + {tid};
          return true;
        } else {
          return exLock.value == tid;
        }
      } else {
        if exLock.Some? {
          return exLock.value == tid;
        }
        if sharedLocks == {} || (|sharedLocks| == 1 && tid in sharedLocks) {
          exLock := Some(tid);
          sharedLocks := {};
          return true;
        }
        return false;
      }
    }

    /** `releaseLock(tid)`. */
    method ReleaseLock(tid: Tid)
      requires Valid()
      modifies this
      ensures Valid()
      ensures State() == Release(old(State()), tid)
    {
      if exLock == Some(tid) {
        exLock := None;
      } else {
        sharedLocks := sharedLocks - {tid};
      }
    }

    /** `holdsLock(tid)`; `None` where the source dereferences a null
        exclusive holder. */
    method HoldsLock(tid: Tid) returns (r: Option<bool>)
      requires Valid()
      ensures r == HoldsLockResult(State(), tid)
      ensures r.Some? ==> (r.value <==> exLock == Some(tid))
    {
      if exLock.None? {
        return None;
      }
      return Some(exLock.value == tid || tid in sharedLocks);
    }

    /** `hasEx()`: somebody holds the lock exclusively. */
    method HasEx() returns (b: bool)
      requires Valid()
      ensures b ==> exLock.Some? && Holds(State(), exLock.value) && sharedLocks == {}
      ensures !b ==> forall t :: Holds(State(), t) <==> t in sharedLocks
    {
      b := exLock.Some?;
    }

    /** `getHolders()`. */
    method GetHolders() returns (holders: set<Tid>)
      ensures holders == Holders(State())
      ensures forall t :: t in holders <==> Holds(State(), t)
    {
      holders := {};
      if exLock.Some? {
        holders := holders + {exLock.value};
      }
      holders := holders + sharedLocks;
    }
  }
}
