/** `BufferPool`: the page cache over the table files, the lock of each
    page, the pages each transaction holds a lock on, and the wait-for
    graph that detects deadlocks. One call of a method is one atomic step;
    the source's threads and its retry loop are not modelled. */
module Buffers {
  import opened Wrappers
  import opened Ids
  import opened LockTable
  import opened WaitFor
  import opened PageCache

  /** How one attempt at a page lock ends: granted; refused while the
      requester waits (the source tries again); or refused because the
      requester is deadlocked (`TransactionAbortedException`). */
  datatype LockOutcome = Granted | Blocked | Aborted

  /** What `getPage` yields: the page, or why there is none. */
  datatype PageResult =
    | Fetched(page: Page)
    | Waiting     // the lock was refused and the requester waits
    | TxAborted   // `TransactionAbortedException` from the deadlock check
    | CacheFull   // `DbException` from `evictPage`: every cached page is dirty
    | NoSuchPage  // the table file has no page with this id

  /** The lock of `pid`; a fresh one when the page has none yet, as
      `putIfAbsent(pid, new PageLock(pid))` supplies. */
  function LockOf(locks: map<HeapPageId, LockState>, pid: HeapPageId): (l: LockState)
    ensures pid !in locks ==> l == Unlocked
    ensures pid in locks ==> l == locks[pid]
  {
    if pid in locks then locks[pid] else Unlocked
  }

  /** The pages recorded for `tid`, none when it has no entry. */
  function PagesOf(tidToPid: map<Tid, set<HeapPageId>>, tid: Tid): (ps: set<HeapPageId>)
    ensures tid !in tidToPid ==> ps == {}
    ensures tid in tidToPid ==> ps == tidToPid[tid]
  {
    if tid in tidToPid then tidToPid[tid] else {}
  }

  /** Every page lock keeps its own invariant. */
  ghost predicate LocksOk(locks: map<HeapPageId, LockState>)
  {
    forall pid :: pid in locks ==> LockInv(locks[pid])
  }

  /** `tidToPid` records exactly the pages on which each transaction holds
      a lock, in either mode. */
  ghost predicate Recorded(locks: map<HeapPageId, LockState>, tidToPid: map<Tid, set<HeapPageId>>)
  {
    forall t, pid :: pid in PagesOf(tidToPid, t) <==> pid in locks && Holds(locks[pid], t)
  }

  /** Every resident page is dirty, so nothing can be evicted. */
  ghost predicate AllDirty(c: Cache)
  {
    forall q :: q in c.pages ==> c.pages[q].dirtier.Some?
  }

  /** A granted request: the page's lock becomes `lock'`, which `tid` now
      holds, and the page joins `tid`'s recorded pages; the records stay
      exact. */
  lemma RecordGrant(locks: map<HeapPageId, LockState>, tidToPid: map<Tid, set<HeapPageId>>, pid: HeapPageId, tid: Tid, lock': LockState)
    requires LocksOk(locks) && Recorded(locks, tidToPid)
    requires LockInv(lock') && Holds(lock', tid)
    requires forall t :: t != tid ==> (Holds(lock', t) <==> Holds(LockOf(locks, pid), t))
    ensures LocksOk(locks[pid := lock'])
    ensures Recorded(locks[pid := lock'], tidToPid[tid := PagesOf(tidToPid, tid) + {pid}])
  {
    var locks', tidToPid' := locks[pid := lock'], tidToPid[tid := PagesOf(tidToPid, tid) + {pid}];
    forall t, q ensures q in PagesOf(tidToPid', t) <==> q in locks' && Holds(locks'[q], t) {
      if t == tid {
        assert PagesOf(tidToPid', t) == PagesOf(tidToPid, t) + {pid};
      } else {
        assert PagesOf(tidToPid', t) == PagesOf(tidToPid, t);
        if q == pid {
          assert Holds(lock', t) <==> Holds(LockOf(locks, pid), t);
        }
      }
    }
  }

  /** Releasing `tid` from the lock of `pid` and dropping `pid` from its
      recorded pages keeps the records exact; a transaction without an
      entry holds nothing, so the release changes no holder at all. */
  lemma RecordRelease(locks: map<HeapPageId, LockState>, tidToPid: map<Tid, set<HeapPageId>>, pid: HeapPageId, tid: Tid)
    requires LocksOk(locks) && Recorded(locks, tidToPid) && pid in locks
    ensures LocksOk(locks[pid := Release(locks[pid], tid)])
    ensures Recorded(locks[pid := Release(locks[pid], tid)],
                     if tid in tidToPid then tidToPid[tid := tidToPid[tid] - {pid}] else tidToPid)
  {
    var locks' := locks[pid := Release(locks[pid], tid)];
    var tidToPid' := if tid in tidToPid then tidToPid[tid := tidToPid[tid] - {pid}] else tidToPid;
    forall t, q ensures q in PagesOf(tidToPid', t) <==> q in locks' && Holds(locks'[q], t) {
      if t == tid {
        assert PagesOf(tidToPid', t) == PagesOf(tidToPid, t) - {pid};
        assert !Holds(locks'[pid], t);
      } else {
        assert PagesOf(tidToPid', t) == PagesOf(tidToPid, t);
        assert Holds(locks'[pid], t) <==> Holds(locks[pid], t);
      }
    }
  }

  /** After `transactionComplete` released `tid` from every recorded page
      and dropped its entry, `tid` holds no lock and the records stay
      exact. */
  lemma RecordComplete(locks: map<HeapPageId, LockState>, tidToPid: map<Tid, set<HeapPageId>>, tid: Tid,
                       locks': map<HeapPageId, LockState>)
    requires LocksOk(locks) && Recorded(locks, tidToPid)
    requires LocksReleased(tid, locks, PagesOf(tidToPid, tid), locks')
    ensures LocksOk(locks') && Recorded(locks', tidToPid - {tid})
    ensures forall q :: q in locks' ==> !Holds(locks'[q], tid)
  {
    var ps := PagesOf(tidToPid, tid);
    forall q | q in locks' ensures LockInv(locks'[q]) && !Holds(locks'[q], tid) {
      if q !in ps {
        assert !Holds(locks[q], tid);
      }
    }
    forall t, q ensures q in PagesOf(tidToPid - {tid}, t) <==> q in locks' && Holds(locks'[q], t) {
      if t != tid {
        assert PagesOf(tidToPid - {tid}, t) == PagesOf(tidToPid, t);
        if q in locks {
          assert Holds(locks'[q], t) <==> Holds(locks[q], t);
        }
      }
    }
  }

  /** With exact records, the pages `transactionComplete` completes for
      `tid` (recorded, resident, locked exclusively by somebody) are
      exactly the resident pages `tid` itself holds exclusively. */
  lemma CoveredIffExclusive(locks: map<HeapPageId, LockState>, tidToPid: map<Tid, set<HeapPageId>>, tid: Tid, c: Cache, q: HeapPageId)
    requires LocksOk(locks) && Recorded(locks, tidToPid)
    ensures Covered(PagesOf(tidToPid, tid), c, locks, q) <==> q in c.pages && q in locks && locks[q].ex == Some(tid)
  {
    if q in locks && locks[q].ex == Some(tid) {
      assert Holds(locks[q], tid);
    }
  }

  /** The cache part of `getPage`, once the lock is held. A hit returns
      the cached page and changes nothing. A miss first evicts when the
      cache is full (failing, unchanged, when every page is dirty), then
      reads the page from its table file and caches it with its
      before-image set. The cache never outgrows its capacity, the disk is
      not written, and no dirty page leaves the cache. */
  method FetchPage(s: Store, capacity: nat, pid: HeapPageId) returns (res: PageResult, r: Store)
    requires CacheOk(s.cache) && Size(s.cache) <= capacity
    ensures CacheOk(r.cache) && Size(r.cache) <= capacity && r.disk == s.disk
    ensures pid in s.cache.pages ==> res == Fetched(s.cache.pages[pid]) && r == s
    ensures res.CacheFull? <==> pid !in s.cache.pages && Size(s.cache) >= capacity && AllDirty(s.cache)
    ensures res.CacheFull? ==> r == s
    ensures res.NoSuchPage? <==> pid !in s.cache.pages && pid !in s.disk && !(Size(s.cache) >= capacity && AllDirty(s.cache))
    ensures res.Fetched? || res.CacheFull? || res.NoSuchPage?
    ensures res.Fetched? ==> pid in r.cache.pages && r.cache.pages[pid] == res.page
    ensures res.Fetched? && pid !in s.cache.pages ==> pid in s.disk && res.page == ReadPage(pid, s.disk[pid])
    ensures forall q :: q in r.cache.pages && q != pid ==> q in s.cache.pages && r.cache.pages[q] == s.cache.pages[q]
    ensures forall q :: q in s.cache.pages && s.cache.pages[q].dirtier.Some? ==> q in r.cache.pages && r.cache.pages[q] == s.cache.pages[q]
    ensures res.Fetched? && pid !in s.cache.pages ==> Admit(s.cache, capacity, res.page) == Some(r.cache)
    ensures res.NoSuchPage? ==> MakeRoom(s.cache, capacity) == Some(r.cache)
  {
    if pid in s.cache.pages {
      return Fetched(s.cache.pages[pid]), s;
    }
    var c := s.cache;
    if Size(c) >= capacity {
      var ok;
      ok, c := Evict(c);
      if !ok {
        return CacheFull, s;
      }
    }
    if pid !in s.disk {
      return NoSuchPage, Store(c, s.disk);
    }
    // `readPage` yields a page whose before-image is its content, so the
    // `setBeforeImage()` that follows changes nothing.
    var page := ReadPage(pid, s.disk[pid]);
    return Fetched(page), Store(Put(c, pid, page), s.disk);
  }

  class BufferPool {
    /** `_capacity`, the `numPages` of the constructor. */
    const capacity: nat
    var pidToLock: map<HeapPageId, LockState>
    var tidToPid: map<Tid, set<HeapPageId>>
    const dependencyGraph: DependencyGraph
    /** `_page_cache`, with the table files the catalog leads to. */
    var store: Store

    ghost predicate Valid()
      reads this
    {
      && CacheOk(store.cache) && Size(store.cache) <= capacity
      && LocksOk(pidToLock)
      && Recorded(pidToLock, tidToPid)
    }

    /** `BufferPool(numPages)`: an empty cache over the table files `disk`,
        no locks, no recorded pages, no wait-for edges. */
    constructor (numPages: nat, disk: map<HeapPageId, Data>)
      ensures Valid()
      ensures capacity == numPages && store == Store(EmptyCache, disk)
      ensures pidToLock == map[] && tidToPid == map[]
      ensures fresh(dependencyGraph) && dependencyGraph.graph == map[]
    {
      capacity := numPages;
      pidToLock := map[];
      tidToPid := map[];
      dependencyGraph := new DependencyGraph();
      store := Store(EmptyCache, disk);
    }

    /** One attempt of `acquireLock(pid, tid, p)`. The page gets a lock if
        it has none, and the request is put to it. A grant clears `tid`'s
        wait-for edges and records the page for `tid`. A refusal points
        `tid` at every holder of the lock and runs the deadlock check:
        `tid` is aborted exactly when a cycle is reachable from it, which
        is always the case for a refused upgrade, where `tid` waits for
        itself. */
    method AcquireLock(pid: HeapPageId, tid: Tid, p: Permissions) returns (outcome: LockOutcome)
      requires Valid()
      modifies this, dependencyGraph
      ensures Valid() && store == old(store)
      ensures pidToLock == old(pidToLock)[pid := Acquire(LockOf(old(pidToLock), pid), tid, p).1]
      ensures outcome.Granted? <==> Acquire(LockOf(old(pidToLock), pid), tid, p).0
      ensures outcome.Granted? ==> Holds(pidToLock[pid], tid)
      ensures outcome.Granted? ==> tidToPid == old(tidToPid)[tid := PagesOf(old(tidToPid), tid) + {pid}]
      ensures outcome.Granted? ==> dependencyGraph.graph == old(dependencyGraph.graph)[tid := {}]
      ensures !outcome.Granted? ==> tidToPid == old(tidToPid)
      ensures !outcome.Granted? ==>
        dependencyGraph.graph == old(dependencyGraph.graph)[tid := Holders(LockOf(old(pidToLock), pid))]
      ensures !outcome.Granted? ==> (outcome.Aborted? <==> CycleReachable(dependencyGraph.graph, tid))
      ensures p == READ_WRITE && LockOf(old(pidToLock), pid).ex.None?
              && tid in LockOf(old(pidToLock), pid).shared && LockOf(old(pidToLock), pid).shared != {tid}
              ==> outcome.Aborted?
    {
      var lock := LockOf(pidToLock, pid);
      var r := Acquire(lock, tid, p);
      if r.0 {
        RecordGrant(pidToLock, tidToPid, pid, tid, r.1);
        pidToLock := pidToLock[pid := r.1];
        dependencyGraph.UpdateGraph(tid, None);
        tidToPid := tidToPid[tid := PagesOf(tidToPid, tid) + {pid}];
        return Granted;
      }
      RecordGrantless(pidToLock, tidToPid, pid);
      pidToLock := pidToLock[pid := lock];
      dependencyGraph.UpdateGraph(tid, Some(Holders(lock)));
      var abort := dependencyGraph.CheckDeadlock(tid);
      if p == READ_WRITE && lock.ex.None? && tid in lock.shared && lock.shared != {tid} {
        SelfEdgeDeadlocks(dependencyGraph.graph, tid);
        DeadlockIffCycle(dependencyGraph.graph, tid);
      }
      outcome := if abort then Aborted else Blocked;
    }

    /** `getPage(tid, pid, perm)`: takes the lock, then looks the page up,
        reading it from its table file on a miss. Without the lock the
        cache is untouched; a fetched page is held by `tid`. */
    method GetPage(tid: Tid, pid: HeapPageId, perm: Permissions) returns (res: PageResult)
      requires Valid()
      modifies this, dependencyGraph
      ensures Valid() && store.disk == old(store.disk)
      ensures pidToLock == old(pidToLock)[pid := Acquire(LockOf(old(pidToLock), pid), tid, perm).1]
      ensures res.Waiting? || res.TxAborted? <==> !Acquire(LockOf(old(pidToLock), pid), tid, perm).0
      ensures res.Waiting? || res.TxAborted? ==> store == old(store)
      ensures res.Fetched? ==> Holds(pidToLock[pid], tid) && pid in store.cache.pages && store.cache.pages[pid] == res.page
      ensures res.Fetched? && pid in old(store.cache.pages) ==> res.page == old(store.cache.pages[pid]) && store == old(store)
      ensures res.Fetched? && pid !in old(store.cache.pages) ==> pid in store.disk && res.page == ReadPage(pid, store.disk[pid])
      ensures res.CacheFull? ==> AllDirty(store.cache) && Size(store.cache) == capacity && store == old(store)
      ensures forall q :: q in old(store.cache.pages) && old(store.cache.pages[q]).dirtier.Some? ==>
                q in store.cache.pages && store.cache.pages[q] == old(store.cache.pages[q])
      ensures res.Fetched? && pid !in old(store.cache.pages) ==> Admit(old(store.cache), capacity, res.page) == Some(store.cache)
      ensures res.NoSuchPage? ==> MakeRoom(old(store.cache), capacity) == Some(store.cache)
      ensures Acquire(LockOf(old(pidToLock), pid), tid, perm).0 && pid in old(store.cache.pages) ==>
                res == Fetched(old(store.cache.pages[pid])) && store == old(store)
      ensures res.CacheFull? <==> Acquire(LockOf(old(pidToLock), pid), tid, perm).0 && pid !in old(store.cache.pages)
                                  && Size(old(store.cache)) >= capacity && AllDirty(old(store.cache))
      ensures res.NoSuchPage? <==> Acquire(LockOf(old(pidToLock), pid), tid, perm).0 && pid !in old(store.cache.pages)
                                   && pid !in old(store.disk) && !(Size(old(store.cache)) >= capacity && AllDirty(old(store.cache)))
      ensures Acquire(LockOf(old(pidToLock), pid), tid, perm).0 ==>
                tidToPid == old(tidToPid)[tid := PagesOf(old(tidToPid), tid) + {pid}]
                && dependencyGraph.graph == old(dependencyGraph.graph)[tid := {}]
      ensures !Acquire(LockOf(old(pidToLock), pid), tid, perm).0 ==>
                tidToPid == old(tidToPid)
                && dependencyGraph.graph == old(dependencyGraph.graph)[tid := Holders(LockOf(old(pidToLock), pid))]
      ensures res.TxAborted? <==> !Acquire(LockOf(old(pidToLock), pid), tid, perm).0 && CycleReachable(dependencyGraph.graph, tid)
      ensures perm == READ_WRITE && LockOf(old(pidToLock), pid).ex.None?
              && tid in LockOf(old(pidToLock), pid).shared && LockOf(old(pidToLock), pid).shared != {tid}
              ==> res.TxAborted?
    {
      var outcome := AcquireLock(pid, tid, perm);
      if outcome == Blocked {
        return Waiting;
      } else if outcome == Aborted {
        return TxAborted;
      }
      var s;
      res, s := FetchPage(store, capacity, pid);
      store := s;
    }

    /** `releasePage(tid, pid)`: releases `tid`'s lock on the page and
        drops the page from `tid`'s records. It fails, changing nothing,
        when the page never had a lock, and fails after the release when
        `tid` has no records. */
    method ReleasePage(tid: Tid, pid: HeapPageId) returns (ok: bool)
      requires Valid()
      modifies this
      ensures Valid() && store == old(store)
      ensures ok <==> pid in old(pidToLock) && tid in old(tidToPid)
      ensures pid !in old(pidToLock) ==> pidToLock == old(pidToLock) && tidToPid == old(tidToPid)
      ensures pid in old(pidToLock) ==> pidToLock == old(pidToLock)[pid := Release(old(pidToLock)[pid], tid)]
      ensures pid in pidToLock ==> !Holds(pidToLock[pid], tid) && pid !in PagesOf(tidToPid, tid)
      ensures tidToPid == if ok then old(tidToPid)[tid := old(tidToPid)[tid] - {pid}] else old(tidToPid)
    {
      if pid !in pidToLock {
        return false;
      }
      RecordRelease(pidToLock, tidToPid, pid, tid);
      pidToLock := pidToLock[pid := Release(pidToLock[pid], tid)];
      if tid !in tidToPid {
        return false;
      }
      tidToPid := tidToPid[tid := tidToPid[tid] - {pid}];
      ok := true;
    }

    /** `holdsLock(tid, pid)`: fails when the page never had a lock, and
        where `PageLock.holdsLock` fails (no exclusive holder). An answer
        agrees with `tid`'s records. */
    method HoldsLock(tid: Tid, pid: HeapPageId) returns (r: Option<bool>)
      requires Valid()
      ensures pid !in pidToLock ==> r.None?
      ensures pid in pidToLock ==> r == HoldsLockResult(pidToLock[pid], tid)
      ensures r.Some? ==> (r.value <==> pid in PagesOf(tidToPid, tid))
    {
      if pid !in pidToLock {
        return None;
      }
      r := HoldsLockResult(pidToLock[pid], tid);
    }

    /** `transactionComplete(tid, commit)`: drops `tid`'s records and, for
        each page recorded for it, completes the page when it is resident
        and exclusively locked (commit: flush a dirty page and re-baseline
        it; abort: restore its before-image), then releases `tid`'s lock.
        Afterwards `tid` holds no lock at all. */
    method TransactionComplete(tid: Tid, commit: bool)
      requires Valid()
      modifies this
      ensures Valid()
      ensures tidToPid == old(tidToPid) - {tid}
      ensures forall q :: q in pidToLock ==> !Holds(pidToLock[q], tid)
      ensures CompletedUpTo(tid, commit, PagesOf(old(tidToPid), tid), old(store), old(pidToLock),
                            PagesOf(old(tidToPid), tid), store, pidToLock)
      ensures forall q :: q in old(store.cache.pages) ==>
        store.cache.pages[q] == if q in old(pidToLock) && old(pidToLock)[q].ex == Some(tid)
                                then Completed(old(store.cache.pages[q]), commit) else old(store.cache.pages[q])
    {
      if tid !in tidToPid {
        RecordComplete(pidToLock, tidToPid, tid, pidToLock);
        forall q | q in store.cache.pages ensures !Covered({}, store.cache, pidToLock, q) {}
        tidToPid := tidToPid - {tid};
        return;
      }
      var ps := tidToPid[tid];
      assert ps <= pidToLock.Keys by {
        forall q | q in ps ensures q in pidToLock {
          assert q in PagesOf(tidToPid, tid);
        }
      }
      var r, locks' := CompletePages(tid, commit, ps, store, pidToLock);
      RecordComplete(pidToLock, tidToPid, tid, locks');
      forall q | q in store.cache.pages
        ensures Covered(ps, store.cache, pidToLock, q) <==> q in pidToLock && pidToLock[q].ex == Some(tid)
      {
        CoveredIffExclusive(pidToLock, tidToPid, tid, store.cache, q);
      }
      tidToPid := tidToPid - {tid};
      store, pidToLock := r, locks';
    }

    /** `transactionComplete(tid)`: commits. */
    method Commit(tid: Tid)
      requires Valid()
      modifies this
      ensures Valid()
      ensures tidToPid == old(tidToPid) - {tid}
      ensures forall q :: q in pidToLock ==> !Holds(pidToLock[q], tid)
      ensures forall q :: q in store.cache.pages <==> q in old(store.cache.pages)
      ensures forall q :: q in old(store.cache.pages) ==>
        store.cache.pages[q] == if q in old(pidToLock) && old(pidToLock)[q].ex == Some(tid)
                                then Completed(old(store.cache.pages[q]), true) else old(store.cache.pages[q])
      ensures CompletedUpTo(tid, true, PagesOf(old(tidToPid), tid), old(store), old(pidToLock),
                            PagesOf(old(tidToPid), tid), store, pidToLock)
    {
      TransactionComplete(tid, true);
    }

    /** `insertTuple(tid, tableId, t)`: `pages` are the pages the table
        file reports dirtied by the insertion. Each is cached, marked dirty
        by `tid`, over any older copy; the loop stops when an eviction
        fails. Locks and disk are untouched. */
    method InsertTuple(tid: Tid, pages: seq<Page>) returns (ok: bool)
      requires Valid()
      modifies this
      ensures Valid()
      ensures pidToLock == old(pidToLock) && tidToPid == old(tidToPid) && store.disk == old(store.disk)
      ensures ok ==> CachedOver(old(store.cache), store.cache, Batch(pages, |pages|, tid))
      ensures !ok ==> exists i :: 0 <= i < |pages| && CachedOver(old(store.cache), store.cache, Batch(pages, i, tid))
      ensures !ok ==> Size(store.cache) == capacity && AllDirty(store.cache)
      ensures (ok, store.cache) == CacheRun(old(store.cache), capacity, tid, pages, 0)
    {
      var c;
      ok, c := CachePages(store.cache, capacity, tid, pages);
      store := store.(cache := c);
    }

    /** `deleteTuple(tid, t)`: `pages` are the pages the file of the
        tuple's table reports dirtied by the deletion; they are cached as
        by `insertTuple`. */
    method DeleteTuple(tid: Tid, pages: seq<Page>) returns (ok: bool)
      requires Valid()
      modifies this
      ensures Valid()
      ensures pidToLock == old(pidToLock) && tidToPid == old(tidToPid) && store.disk == old(store.disk)
      ensures ok ==> CachedOver(old(store.cache), store.cache, Batch(pages, |pages|, tid))
      ensures !ok ==> exists i :: 0 <= i < |pages| && CachedOver(old(store.cache), store.cache, Batch(pages, i, tid))
      ensures !ok ==> Size(store.cache) == capacity && AllDirty(store.cache)
      ensures (ok, store.cache) == CacheRun(old(store.cache), capacity, tid, pages, 0)
    {
      var okCache, c := CachePages(store.cache, capacity, tid, pages);
      store := store.(cache := c);
      ok := okCache;
    }

    /** `flushAllPages()`: every resident page is written if dirty and
        marked clean; the disk then holds the content of each page that
        was dirty. */
    method FlushAllPages()
      requires Valid()
      modifies this
      ensures Valid()
      ensures pidToLock == old(pidToLock) && tidToPid == old(tidToPid)
      ensures store.cache.order == old(store.cache.order)
      ensures forall q :: q in store.cache.pages <==> q in old(store.cache.pages)
      ensures forall q :: q in old(store.cache.pages) ==> store.cache.pages[q] == Cleaned(old(store.cache.pages[q]))
      ensures FlushedDisk(old(store.cache), old(store.cache.pages).Keys, old(store.disk), store.disk)
    {
      store := FlushAll(store);
    }

    /** `discardPage(pid)`: the page leaves the cache, unwritten. */
    method DiscardPage(pid: HeapPageId)
      requires Valid()
      modifies this
      ensures Valid()
      ensures pidToLock == old(pidToLock) && tidToPid == old(tidToPid) && store.disk == old(store.disk)
      ensures store.cache.pages == old(store.cache.pages) - {pid}
      ensures store.cache == Remove(old(store.cache), pid)
    {
      store := store.(cache := Remove(store.cache, pid));
    }
  }

  /** A refused request leaves the lock as it was, so putting a fresh lock
      in for a page that had none keeps the records exact. */
  lemma RecordGrantless(locks: map<HeapPageId, LockState>, tidToPid: map<Tid, set<HeapPageId>>, pid: HeapPageId)
    requires LocksOk(locks) && Recorded(locks, tidToPid)
    ensures LocksOk(locks[pid := LockOf(locks, pid)])
    ensures Recorded(locks[pid := LockOf(locks, pid)], tidToPid)
  {
    var locks' := locks[pid := LockOf(locks, pid)];
    forall t, q ensures q in PagesOf(tidToPid, t) <==> q in locks' && Holds(locks'[q], t) {
      if q == pid && pid !in locks {
        assert !Holds(locks'[q], t);
      }
    }
  }
}
