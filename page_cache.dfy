/** The pages the buffer pool caches and the disk behind them: the
    insertion-ordered page cache (a LinkedHashMap from page id to page),
    eviction under the no-steal rule, flushing, and the loops of
    `insertTuple`/`deleteTuple` and `transactionComplete` over values. */
module PageCache {
  import opened Wrappers
  import opened Ids
  import opened LockTable

  /** The bytes of a page. */
  type Data = seq<bv8>

  /** A page as the buffer pool handles it: its id, its content, the
      transaction that dirtied it (`isDirty()`, None when clean) and its
      before-image, the content at its last `setBeforeImage()`. */
  datatype Page = Page(id: HeapPageId, data: Data, dirtier: Option<Tid>, before: Data)

  /** `markDirty(true, tid)`. */
  function DirtiedBy(p: Page, tid: Tid): Page
  {
    p.(dirtier := Some(tid))
  }

  /** `markDirty(false, null)`. */
  function Cleaned(p: Page): Page
  {
    p.(dirtier := None)
  }

  /** `setBeforeImage()`: the current content becomes the before-image. */
  function Rebased(p: Page): Page
  {
    p.(before := p.data)
  }

  /** `getBeforeImage()`: a clean page holding the before-image. */
  function BeforeImage(p: Page): Page
  {
    Page(p.id, p.before, None, p.before)
  }

  /** `readPage(pid)`: a clean page of the content on disk. */
  function ReadPage(pid: HeapPageId, d: Data): Page
  {
    Page(pid, d, None, d)
  }

  /** The insertion order of the keys, and the key-to-page map. */
  datatype Cache = Cache(order: seq<HeapPageId>, pages: map<HeapPageId, Page>)

  ghost predicate Distinct(s: seq<HeapPageId>)
  {
    forall i, j :: 0 <= i < j < |s| ==> s[i] != s[j]
  }

  /** The order lists each resident page id exactly once. */
  ghost predicate CacheOk(c: Cache)
  {
    Distinct(c.order) && forall pid :: pid in c.pages <==> pid in c.order
  }

  /** `size()`. */
  function Size(c: Cache): nat
  {
    |c.order|
  }

  const EmptyCache := Cache([], map[])

  /** `put(pid, p)`: a new key goes last, a known key keeps its place. */
  function Put(c: Cache, pid: HeapPageId, p: Page): (r: Cache)
    requires CacheOk(c)
    ensures CacheOk(r)
    ensures r.pages == c.pages[pid := p]
    ensures Size(r) == if pid in c.pages then Size(c) else Size(c) + 1
    ensures pid in c.pages ==> r.order == c.order
  {
    if pid in c.pages then Cache(c.order, c.pages[pid := p])
    else Cache(c.order + [pid], c.pages[pid := p])
  }

  /** The position of `x` in `s`. */
  function IndexOf(s: seq<HeapPageId>, x: HeapPageId): (j: nat)
    requires x in s
    ensures j < |s| && s[j] == x
  {
    if s[0] == x then 0 else 1 + IndexOf(s[1..], x)
  }

  /** Dropping the entry at position `j` of a list without repetitions
      leaves the other ids, still without repetitions. */
  lemma RemoveAtOk(s: seq<HeapPageId>, j: nat)
    requires j < |s| && Distinct(s)
    ensures Distinct(s[..j] + s[j + 1..])
    ensures forall q :: q in s[..j] + s[j + 1..] <==> q in s && q != s[j]
  {
    var o := s[..j] + s[j + 1..];
    assert forall m :: 0 <= m < |o| ==> o[m] == if m < j then s[m] else s[m + 1];
    forall q | q in s && q != s[j] ensures q in o {
      var k :| 0 <= k < |s| && s[k] == q;
      if k < j {
        assert o[k] == q;
      } else {
        assert o[k - 1] == q;
      }
    }
  }

  /** `remove(pid)`: the key leaves the map and the order; a missing key
      changes nothing. */
  function Remove(c: Cache, pid: HeapPageId): (r: Cache)
    requires CacheOk(c)
    ensures CacheOk(r)
    ensures r.pages == c.pages - {pid}
    ensures Size(r) == if pid in c.pages then Size(c) - 1 else Size(c)
  {
    if pid in c.pages then
      var j := IndexOf(c.order, pid);
      RemoveAtOk(c.order, j);
      Cache(c.order[..j] + c.order[j + 1..], c.pages - {pid})
    else c
  }

  /** The position, in insertion order, of the first clean page, if any. */
  function FirstClean(c: Cache, from: nat): (r: Option<nat>)
    requires CacheOk(c) && from <= |c.order|
    ensures r.Some? ==> from <= r.value < |c.order| && c.pages[c.order[r.value]].dirtier.None?
    ensures r.Some? ==> forall j :: from <= j < r.value ==> c.pages[c.order[j]].dirtier.Some?
    ensures r.None? ==> forall j :: from <= j < |c.order| ==> c.pages[c.order[j]].dirtier.Some?
    decreases |c.order| - from
  {
    if from == |c.order| then None
    else if c.pages[c.order[from]].dirtier.None? then Some(from)
    else FirstClean(c, from + 1)
  }

  /** The loop of `evictPage()`: walks the entries in insertion order and
      discards the first clean page. It fails, changing nothing, when every
      resident page is dirty (no-steal: a dirty page is never evicted). */
  method Evict(c: Cache) returns (ok: bool, r: Cache)
    requires CacheOk(c)
    ensures CacheOk(r)
    ensures ok <==> exists pid :: pid in c.pages && c.pages[pid].dirtier.None?
    ensures ok ==> FirstClean(c, 0).Some? && r == Remove(c, c.order[FirstClean(c, 0).value])
    ensures ok ==> Size(r) == Size(c) - 1
    ensures ok ==> exists victim :: victim in c.pages && c.pages[victim].dirtier.None? && r.pages == c.pages - {victim}
    ensures forall pid :: pid in c.pages && c.pages[pid].dirtier.Some? ==> pid in r.pages && r.pages[pid] == c.pages[pid]
    ensures !ok ==> r == c
  {
    var i := 0;
    while i < |c.order|
      invariant 0 <= i <= |c.order|
      invariant FirstClean(c, 0) == FirstClean(c, i)
    {
      var pid := c.order[i];
      var page := c.pages[pid];
      if page.dirtier.None? {
        return true, Remove(c, pid);
      }
      i := i + 1;
    }
    forall pid | pid in c.pages ensures c.pages[pid].dirtier.Some? {
      var k :| 0 <= k < |c.order| && c.order[k] == pid;
    }
    return false, c;
  }

  /** Room for one more page, as `getPage`, `insertTuple` and
      `deleteTuple` make it: a cache below capacity is left alone; a full
      one loses its first clean page in insertion order (`evictPage()`),
      and None when every page is dirty. */
  function MakeRoom(c: Cache, capacity: nat): (r: Option<Cache>)
    requires CacheOk(c)
    ensures r.Some? ==> CacheOk(r.value)
  {
    if Size(c) < capacity then Some(c)
    else
      match FirstClean(c, 0)
      case None => None
      case Some(j) => Some(Remove(c, c.order[j]))
  }

  /** Making room fails exactly when the cache is full of dirty pages;
      otherwise a full cache loses one clean page, the first in insertion
      order, and every page before it is dirty. */
  lemma MakeRoomEvictsFirstClean(c: Cache, capacity: nat)
    requires CacheOk(c)
    ensures MakeRoom(c, capacity).None? <==>
      Size(c) >= capacity && forall q :: q in c.pages ==> c.pages[q].dirtier.Some?
    ensures Size(c) < capacity ==> MakeRoom(c, capacity) == Some(c)
    ensures MakeRoom(c, capacity).Some? && Size(c) >= capacity ==>
      exists j :: 0 <= j < |c.order| && c.pages[c.order[j]].dirtier.None?
        && (forall k :: 0 <= k < j ==> c.pages[c.order[k]].dirtier.Some?)
        && MakeRoom(c, capacity).value == Remove(c, c.order[j])
        && Size(MakeRoom(c, capacity).value) == Size(c) - 1
  {
    if Size(c) >= capacity {
      match FirstClean(c, 0)
      case None =>
        forall q | q in c.pages ensures c.pages[q].dirtier.Some? {
          var k :| 0 <= k < |c.order| && c.order[k] == q;
        }
      case Some(j) =>
        var q := c.order[j];
        assert q in c.pages && c.pages[q].dirtier.None?;
        assert 0 <= j < |c.order| && c.pages[c.order[j]].dirtier.None?
          && (forall k :: 0 <= k < j ==> c.pages[c.order[k]].dirtier.Some?)
          && MakeRoom(c, capacity).value == Remove(c, c.order[j])
          && Size(MakeRoom(c, capacity).value) == Size(c) - 1;
    }
  }

  /** Caching page `p` (`_page_cache.put(pid, p)`): a resident id is
      overwritten in place; a new id needs room first and then goes last
      in insertion order. None when no room can be made. */
  function Admit(c: Cache, capacity: nat, p: Page): (r: Option<Cache>)
    requires CacheOk(c)
    ensures r.Some? ==> CacheOk(r.value) && p.id in r.value.pages && r.value.pages[p.id] == p
    ensures r.Some? && p.id !in c.pages ==> r.value.order[|r.value.order| - 1] == p.id
  {
    if p.id in c.pages then Some(Put(c, p.id, p))
    else
      match MakeRoom(c, capacity)
      case None => None
      case Some(c') => Some(Put(c', p.id, p))
  }

  /** The cache together with the table files on disk, as a map from page
      id to content (what `writePage` and `readPage` see). */
  datatype Store = Store(cache: Cache, disk: map<HeapPageId, Data>)

  /** `flushPage(pid)`: fails when the page is not resident; a dirty page
      is written to disk and marked clean, a clean one is left alone. */
  function FlushPage(s: Store, pid: HeapPageId): (r: (bool, Store))
    requires CacheOk(s.cache)
    ensures CacheOk(r.1.cache) && r.1.cache.order == s.cache.order
    ensures r.0 <==> pid in s.cache.pages
    ensures !r.0 ==> r.1 == s
    ensures r.0 ==> r.1.cache.pages == s.cache.pages[pid := Cleaned(s.cache.pages[pid])]
    ensures r.0 && s.cache.pages[pid].dirtier.Some? ==> r.1.disk == s.disk[pid := s.cache.pages[pid].data]
    ensures r.0 && s.cache.pages[pid].dirtier.None? ==> r.1 == s
  {
    if pid !in s.cache.pages then (false, s)
    else
      var page := s.cache.pages[pid];
      if page.dirtier.None? then (true, s)
      else (true, Store(Put(s.cache, pid, Cleaned(page)), s.disk[pid := page.data]))
  }

  /** The disk after flushing the pages of `c` whose ids are in `done`:
      each of them that was dirty now has its content on disk. */
  ghost predicate FlushedDisk(c: Cache, done: set<HeapPageId>, disk: map<HeapPageId, Data>, disk': map<HeapPageId, Data>)
  {
    && (forall q :: q in disk' <==> q in disk || (q in done && q in c.pages && c.pages[q].dirtier.Some?))
    && (forall q :: q in disk' ==>
          disk'[q] == if q in done && q in c.pages && c.pages[q].dirtier.Some? then c.pages[q].data else disk[q])
  }

  /** `r` is `s` after flushing the resident pages whose ids are in `done`. */
  ghost predicate FlushedUpTo(s: Store, r: Store, done: set<HeapPageId>)
  {
    && CacheOk(r.cache) && r.cache.order == s.cache.order
    && (forall q :: q in r.cache.pages <==> q in s.cache.pages)
    && (forall q :: q in s.cache.pages ==>
          r.cache.pages[q] == if q in done then Cleaned(s.cache.pages[q]) else s.cache.pages[q])
    && FlushedDisk(s.cache, done, s.disk, r.disk)
  }

  /** Flushing one more resident page extends the flushed set by it. */
  lemma FlushStep(s: Store, r: Store, done: set<HeapPageId>, pid: HeapPageId)
    requires CacheOk(s.cache) && FlushedUpTo(s, r, done)
    requires pid in s.cache.pages && pid !in done
    ensures FlushedUpTo(s, FlushPage(r, pid).1, done + {pid})
  {
  }

  /** The ids of the first `i` pages in insertion order, extended by the
      next one, which is not among them. */
  lemma PrefixStep(order: seq<HeapPageId>, i: nat, done: set<HeapPageId>)
    requires Distinct(order) && i < |order|
    requires forall q :: q in done <==> q in order[..i]
    ensures order[i] !in done
    ensures forall q :: q in done + {order[i]} <==> q in order[..i + 1]
  {
    assert order[..i + 1] == order[..i] + [order[i]];
  }

  /** The loop of `flushAllPages()`: flushes every resident page in key
      order. Afterwards every page is clean with its content unchanged, and
      the disk holds the content of each page that was dirty. */
  method FlushAll(s: Store) returns (r: Store)
    requires CacheOk(s.cache)
    ensures CacheOk(r.cache) && r.cache.order == s.cache.order
    ensures forall q :: q in r.cache.pages <==> q in s.cache.pages
    ensures forall q :: q in s.cache.pages ==> r.cache.pages[q] == Cleaned(s.cache.pages[q])
    ensures FlushedDisk(s.cache, s.cache.pages.Keys, s.disk, r.disk)
  {
    r := s;
    ghost var done: set<HeapPageId> := {};
    var i := 0;
    while i < |s.cache.order|
      invariant 0 <= i <= |s.cache.order|
      invariant forall q :: q in done <==> q in s.cache.order[..i]
      invariant FlushedUpTo(s, r, done)
    {
      var pid := s.cache.order[i];
      PrefixStep(s.cache.order, i, done);
      FlushStep(s, r, done, pid);
      var res := FlushPage(r, pid);
      r := res.1;
      done := done + {pid};
      i := i + 1;
    }
    assert s.cache.order[..i] == s.cache.order;
    assert done == s.cache.pages.Keys;
  }

  /** The pages the first `n` pages of a batch leave in the cache: each
      page under its id, dirtied by `tid`, a later page replacing an
      earlier one with the same id. */
  function Batch(pages: seq<Page>, n: nat, tid: Tid): map<HeapPageId, Page>
    requires n <= |pages|
  {
    if n == 0 then map[]
    else Batch(pages, n - 1, tid)[pages[n - 1].id := DirtiedBy(pages[n - 1], tid)]
  }

  /** Every page of the batch is dirtied by `tid`. */
  lemma {:induction false} BatchDirty(pages: seq<Page>, n: nat, tid: Tid)
    requires n <= |pages|
    ensures forall q :: q in Batch(pages, n, tid) ==> Batch(pages, n, tid)[q].dirtier == Some(tid)
  {
    if n > 0 {
      BatchDirty(pages, n - 1, tid);
    }
  }

  /** Each page of the batch ends up in it under its id, marked dirty by
      `tid`; the last page carrying an id is the one kept. */
  lemma {:induction false} BatchHolds(pages: seq<Page>, n: nat, tid: Tid)
    requires n <= |pages|
    ensures forall k :: 0 <= k < n ==>
      pages[k].id in Batch(pages, n, tid) && Batch(pages, n, tid)[pages[k].id].dirtier == Some(tid)
    ensures forall k :: 0 <= k < n && (forall k' :: k < k' < n ==> pages[k'].id != pages[k].id) ==>
      Batch(pages, n, tid)[pages[k].id] == DirtiedBy(pages[k], tid)
  {
    if n > 0 {
      BatchHolds(pages, n - 1, tid);
      forall k | 0 <= k < n - 1 && pages[k].id != pages[n - 1].id
        ensures pages[k].id in Batch(pages, n - 1, tid)
      {
      }
    }
  }

  /** The batch holds no id but those of its pages. */
  lemma {:induction false} BatchOnlyIds(pages: seq<Page>, n: nat, tid: Tid)
    requires n <= |pages|
    ensures forall q :: q in Batch(pages, n, tid) ==> exists k :: 0 <= k < n && pages[k].id == q
  {
    if n > 0 {
      BatchOnlyIds(pages, n - 1, tid);
      forall q | q in Batch(pages, n, tid)
        ensures exists k :: 0 <= k < n && pages[k].id == q
      {
        if q != pages[n - 1].id {
          assert q in Batch(pages, n - 1, tid);
          var k :| 0 <= k < n - 1 && pages[k].id == q;
        }
      }
    }
  }

  /** `r` holds the batch `b` on top of `c`: the batch pages are resident;
      any other resident page is as it was in `c`; and only clean pages of
      `c` may have gone (no-steal). */
  ghost predicate CachedOver(c: Cache, r: Cache, b: map<HeapPageId, Page>)
  {
    && (forall q :: q in b ==> q in r.pages && r.pages[q] == b[q])
    && (forall q :: q in r.pages && q !in b ==> q in c.pages && r.pages[q] == c.pages[q])
    && (forall q :: q in c.pages && q !in b && c.pages[q].dirtier.Some? ==> q in r.pages)
  }

  /** The batch pages are dirty, so an eviction keeps them; putting the
      next page extends the batch by it. */
  lemma CacheStep(c: Cache, r: Cache, r': Cache, pages: seq<Page>, i: nat, tid: Tid)
    requires CacheOk(r) && CacheOk(r') && i < |pages|
    requires CachedOver(c, r, Batch(pages, i, tid))
    requires forall q :: q in r.pages && r.pages[q].dirtier.Some? ==> q in r'.pages && r'.pages[q] == r.pages[q]
    requires forall q :: q in r'.pages ==> q in r.pages && r'.pages[q] == r.pages[q]
    ensures CachedOver(c, Put(r', pages[i].id, DirtiedBy(pages[i], tid)), Batch(pages, i + 1, tid))
  {
    BatchDirty(pages, i, tid);
    var b, b' := Batch(pages, i, tid), Batch(pages, i + 1, tid);
    var pid, p := pages[i].id, DirtiedBy(pages[i], tid);
    var r2 := Put(r', pid, p);
    assert b' == b[pid := p];
    assert r2.pages == r'.pages[pid := p];
    forall q | q in b' ensures q in r2.pages && r2.pages[q] == b'[q] {
      if q != pid {
        assert b[q].dirtier.Some? && r.pages[q] == b[q];
      }
    }
    forall q | q in r2.pages && q !in b' ensures q in c.pages && r2.pages[q] == c.pages[q] {
      assert q in r'.pages;
    }
    forall q | q in c.pages && q !in b' && c.pages[q].dirtier.Some? ensures q in r2.pages {
      assert q in r.pages && r.pages[q] == c.pages[q];
    }
  }

  /** The loop of `insertTuple` and `deleteTuple` from page `i` on, as a
      function: each page, dirtied by `tid`, is admitted in turn; the loop
      stops at the first page no room can be made for, reporting false
      and the cache as it was then. */
  function CacheRun(c: Cache, capacity: nat, tid: Tid, pages: seq<Page>, i: nat): (bool, Cache)
    requires CacheOk(c)
    decreases |pages| - i
  {
    if i >= |pages| then (true, c)
    else
      match Admit(c, capacity, DirtiedBy(pages[i], tid))
      case None => (false, c)
      case Some(c') => CacheRun(c', capacity, tid, pages, i + 1)
  }

  /** One step of CacheRun: page `i` is admitted, or the run stops there. */
  lemma CacheRunAt(c: Cache, capacity: nat, tid: Tid, pages: seq<Page>, i: nat)
    requires CacheOk(c) && i < |pages|
    ensures Admit(c, capacity, DirtiedBy(pages[i], tid)).None? ==>
      CacheRun(c, capacity, tid, pages, i) == (false, c)
    ensures Admit(c, capacity, DirtiedBy(pages[i], tid)).Some? ==>
      CacheRun(c, capacity, tid, pages, i) == CacheRun(Admit(c, capacity, DirtiedBy(pages[i], tid)).value, capacity, tid, pages, i + 1)
  {
  }

  /** The loop of `insertTuple` and `deleteTuple` after its first `i`
      pages: within capacity, those pages cached over `c`, and the rest of
      the run still ahead. */
  ghost predicate CachedSoFar(c: Cache, r: Cache, capacity: nat, tid: Tid, pages: seq<Page>, i: nat)
  {
    && CacheOk(c) && CacheOk(r) && Size(r) <= capacity && i <= |pages|
    && CachedOver(c, r, Batch(pages, i, tid))
    && CacheRun(c, capacity, tid, pages, 0) == CacheRun(r, capacity, tid, pages, i)
  }

  /** One pass of the loop of `insertTuple` and `deleteTuple`: page `i`,
      marked dirty by `tid`, replaces any cached copy, after an eviction
      when it is new and the cache is full. A failed eviction leaves the
      cache as it was, full of dirty pages. */
  method CacheOne(c: Cache, r: Cache, capacity: nat, tid: Tid, pages: seq<Page>, i: nat) returns (ok: bool, r': Cache)
    requires CachedSoFar(c, r, capacity, tid, pages, i) && i < |pages|
    ensures ok ==> CachedSoFar(c, r', capacity, tid, pages, i + 1)
    ensures !ok ==> r' == r && Size(r) == capacity && forall q :: q in r.pages ==> r.pages[q].dirtier.Some?
    ensures !ok ==> CacheRun(c, capacity, tid, pages, 0) == (false, r)
    ensures ok <==> Admit(r, capacity, DirtiedBy(pages[i], tid)).Some?
    ensures ok ==> r' == Admit(r, capacity, DirtiedBy(pages[i], tid)).value
  {
    CacheRunAt(r, capacity, tid, pages, i);
    var pid := pages[i].id;
    var e := r;
    ok := true;
    if pid !in r.pages && Size(r) >= capacity {
      ok, e := Evict(r);
      if !ok {
        return false, r;
      }
    }
    CacheStep(c, r, e, pages, i, tid);
    r' := Put(e, pid, DirtiedBy(pages[i], tid));
  }

  /** The loop of `insertTuple` and `deleteTuple` over the pages the table
      file reports dirtied: each page, marked dirty by `tid`, replaces any
      cached copy; a new page first evicts one when the cache is full. The
      cache never outgrows its capacity. The loop stops when an eviction
      fails, which happens only when the cache is full of dirty pages. */
  method CachePages(c: Cache, capacity: nat, tid: Tid, pages: seq<Page>) returns (ok: bool, r: Cache)
    requires CacheOk(c) && Size(c) <= capacity
    ensures CacheOk(r) && Size(r) <= capacity
    ensures ok ==> CachedOver(c, r, Batch(pages, |pages|, tid))
    ensures !ok ==> exists i :: 0 <= i < |pages| && CachedOver(c, r, Batch(pages, i, tid))
    ensures !ok ==> Size(r) == capacity && forall q :: q in r.pages ==> r.pages[q].dirtier.Some?
    ensures (ok, r) == CacheRun(c, capacity, tid, pages, 0)
  {
    r := c;
    var i := 0;
    while i < |pages|
      invariant CachedSoFar(c, r, capacity, tid, pages, i)
    {
      ok, r := CacheOne(c, r, capacity, tid, pages, i);
      if !ok {
        assert 0 <= i < |pages| && CachedOver(c, r, Batch(pages, i, tid));
        return;
      }
      i := i + 1;
    }
    ok := true;
  }

  /** What `transactionComplete` does to a page it covers: on commit a
      dirty page is flushed and re-baselined (clean, its content as its
      before-image); on abort the page is replaced by its before-image. */
  function Completed(p: Page, commit: bool): Page
  {
    if !commit then BeforeImage(p)
    else if p.dirtier.Some? then Rebased(Cleaned(p))
    else p
  }

  /** `transactionComplete` touches page `q`: it is recorded for the
      transaction, resident, and somebody holds its lock exclusively. */
  ghost predicate Covered(ps: set<HeapPageId>, c: Cache, locks: map<HeapPageId, LockState>, q: HeapPageId)
  {
    q in ps && q in c.pages && q in locks && locks[q].ex.Some?
  }

  /** Page `q` is written to disk: covered, committing, and dirty. */
  ghost predicate Written(ps: set<HeapPageId>, c: Cache, locks: map<HeapPageId, LockState>, commit: bool, q: HeapPageId)
  {
    commit && Covered(ps, c, locks, q) && c.pages[q].dirtier.Some?
  }

  /** The cache of `r` is that of `s` with the covered pages of `done`
      completed. */
  ghost predicate CacheCompleted(commit: bool, ps: set<HeapPageId>, s: Store, locks: map<HeapPageId, LockState>,
                                 done: set<HeapPageId>, r: Store)
  {
    && CacheOk(r.cache) && r.cache.order == s.cache.order
    && (forall q :: q in r.cache.pages <==> q in s.cache.pages)
    && (forall q :: q in s.cache.pages ==>
          r.cache.pages[q] == if q in done && Covered(ps, s.cache, locks, q) then Completed(s.cache.pages[q], commit) else s.cache.pages[q])
  }

  /** The disk of `r` is that of `s` with the written pages of `done`
      stored. */
  ghost predicate DiskCompleted(commit: bool, ps: set<HeapPageId>, s: Store, locks: map<HeapPageId, LockState>,
                                done: set<HeapPageId>, disk: map<HeapPageId, Data>)
  {
    && (forall q :: q in disk <==> q in s.disk || (q in done && Written(ps, s.cache, locks, commit, q)))
    && (forall q :: q in disk ==>
          disk[q] == if q in done && Written(ps, s.cache, locks, commit, q) then s.cache.pages[q].data else s.disk[q])
  }

  /** `locks'` is `locks` with `tid` released from every page of `done`. */
  ghost predicate LocksReleased(tid: Tid, locks: map<HeapPageId, LockState>, done: set<HeapPageId>, locks': map<HeapPageId, LockState>)
  {
    && (forall q :: q in locks' <==> q in locks)
    && (forall q :: q in locks ==> locks'[q] == if q in done then Release(locks[q], tid) else locks[q])
  }

  /** `r` and `locks'` are `s` and `locks` after completing the pages of
      `done`. */
  ghost predicate CompletedUpTo(tid: Tid, commit: bool, ps: set<HeapPageId>, s: Store, locks: map<HeapPageId, LockState>,
                                done: set<HeapPageId>, r: Store, locks': map<HeapPageId, LockState>)
  {
    && CacheCompleted(commit, ps, s, locks, done, r)
    && DiskCompleted(commit, ps, s, locks, done, r.disk)
    && LocksReleased(tid, locks, done, locks')
  }

  /** One pass of the loop body of `transactionComplete`, on page `pid`. */
  function CompleteOne(tid: Tid, commit: bool, pid: HeapPageId, s: Store, locks: map<HeapPageId, LockState>): (r: (Store, map<HeapPageId, LockState>))
    requires CacheOk(s.cache) && pid in locks
    ensures CacheOk(r.0.cache) && r.0.cache.order == s.cache.order
    ensures forall q :: q in r.0.cache.pages <==> q in s.cache.pages
    ensures forall q :: q in s.cache.pages && q != pid ==> r.0.cache.pages[q] == s.cache.pages[q]
    ensures pid in s.cache.pages ==>
      r.0.cache.pages[pid] == if locks[pid].ex.Some? then Completed(s.cache.pages[pid], commit) else s.cache.pages[pid]
    ensures r.0.disk == if pid in s.cache.pages && locks[pid].ex.Some? && commit && s.cache.pages[pid].dirtier.Some?
                        then s.disk[pid := s.cache.pages[pid].data] else s.disk
    ensures r.1 == locks[pid := Release(locks[pid], tid)]
  {
    var s' :=
      if pid in s.cache.pages && locks[pid].ex.Some? then
        var page := s.cache.pages[pid];
        if commit then
          if page.dirtier.Some? then
            var f := FlushPage(s, pid).1;
            Store(Put(f.cache, pid, Rebased(f.cache.pages[pid])), f.disk)
          else s
        else Store(Put(s.cache, pid, BeforeImage(page)), s.disk)
      else s;
    (s', locks[pid := Release(locks[pid], tid)])
  }

  /** Completing one more recorded page extends the completed cache. */
  lemma CompleteCacheStep(commit: bool, ps: set<HeapPageId>, s: Store, locks: map<HeapPageId, LockState>,
                   done: set<HeapPageId>, r: Store, locks': map<HeapPageId, LockState>, pid: HeapPageId, tid: Tid)
    requires CacheCompleted(commit, ps, s, locks, done, r)
    requires pid in ps && pid !in done && pid in locks && pid in locks' && locks'[pid] == locks[pid]
    ensures CacheCompleted(commit, ps, s, locks, done + {pid}, CompleteOne(tid, commit, pid, r, locks').0)
  {
  }

  /** Completing one more recorded page extends the written disk. */
  lemma CompleteDiskStep(commit: bool, ps: set<HeapPageId>, s: Store, locks: map<HeapPageId, LockState>,
                 done: set<HeapPageId>, r: Store, locks': map<HeapPageId, LockState>, pid: HeapPageId, tid: Tid)
    requires CacheCompleted(commit, ps, s, locks, done, r) && DiskCompleted(commit, ps, s, locks, done, r.disk)
    requires pid in ps && pid !in done && pid in locks && pid in locks' && locks'[pid] == locks[pid]
    ensures DiskCompleted(commit, ps, s, locks, done + {pid}, CompleteOne(tid, commit, pid, r, locks').0.disk)
  {
    var w := Written(ps, s.cache, locks, commit, pid);
    assert pid in s.cache.pages ==> r.cache.pages[pid] == s.cache.pages[pid];
    assert CompleteOne(tid, commit, pid, r, locks').0.disk == if w then r.disk[pid := s.cache.pages[pid].data] else r.disk;
    DiskWrite(commit, ps, s, locks, done, r.disk, pid);
  }

  /** Writing one more page that completion writes extends the disk. */
  lemma DiskWrite(commit: bool, ps: set<HeapPageId>, s: Store, locks: map<HeapPageId, LockState>,
                  done: set<HeapPageId>, disk: map<HeapPageId, Data>, pid: HeapPageId)
    requires DiskCompleted(commit, ps, s, locks, done, disk) && pid !in done
    ensures DiskCompleted(commit, ps, s, locks, done + {pid},
                          if Written(ps, s.cache, locks, commit, pid) then disk[pid := s.cache.pages[pid].data] else disk)
  {
  }

  /** Completing one more recorded page releases its lock. */
  lemma CompleteStep(tid: Tid, commit: bool, ps: set<HeapPageId>, s: Store, locks: map<HeapPageId, LockState>,
                     done: set<HeapPageId>, r: Store, locks': map<HeapPageId, LockState>, pid: HeapPageId)
    requires CompletedUpTo(tid, commit, ps, s, locks, done, r, locks')
    requires pid in ps && pid !in done && pid in locks
    ensures CompletedUpTo(tid, commit, ps, s, locks, done + {pid}, CompleteOne(tid, commit, pid, r, locks').0, CompleteOne(tid, commit, pid, r, locks').1)
  {
    CompleteCacheStep(commit, ps, s, locks, done, r, locks', pid, tid);
    CompleteDiskStep(commit, ps, s, locks, done, r, locks', pid, tid);
  }

  /** The loop of `transactionComplete(tid, commit)` over the pages `ps`
      recorded for `tid`, in any order: each covered page is completed, and
      `tid`'s lock on every recorded page is released. */
  method CompletePages(tid: Tid, commit: bool, ps: set<HeapPageId>, s: Store, locks: map<HeapPageId, LockState>)
    returns (r: Store, locks': map<HeapPageId, LockState>)
    requires CacheOk(s.cache) && ps <= locks.Keys
    ensures CompletedUpTo(tid, commit, ps, s, locks, ps, r, locks')
  {
    r, locks' := s, locks;
    var rest := ps;
    ghost var done: set<HeapPageId> := {};
    while rest != {}
      invariant rest <= ps && forall q :: q in done <==> q in ps && q !in rest
      invariant CompletedUpTo(tid, commit, ps, s, locks, done, r, locks')
      decreases rest
    {
      ghost var some := HasElement(rest);
      var pid :| pid in rest;
      CompleteStep(tid, commit, ps, s, locks, done, r, locks', pid);
      ghost var next := CompleteOne(tid, commit, pid, r, locks');
      var page := if pid in r.cache.pages then Some(r.cache.pages[pid]) else None;
      if page.Some? && locks'[pid].ex.Some? {
        if commit {
          if page.value.dirtier.Some? {
            var f := FlushPage(r, pid).1;
            r := Store(Put(f.cache, pid, Rebased(f.cache.pages[pid])), f.disk);
          }
        } else {
          r := Store(Put(r.cache, pid, BeforeImage(page.value)), r.disk);
        }
      }
      locks' := locks'[pid := Release(locks'[pid], tid)];
      assert (r, locks') == next;
      rest := rest - {pid};
      done := done + {pid};
    }
    assert done == ps;
  }
}
