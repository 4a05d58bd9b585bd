/**
 * BufferPool: a cache of at most numPages pages in front of the database
 * files. pageMap holds the cached pages, lruMap how often each was fetched,
 * and the lock manager decides every fetch. A miss on a full cache first
 * evicts the clean page fetched least often; transaction completion flushes
 * (commit) or re-reads from disk (abort) the pages a transaction dirtied.
 */
module BufferPools {
  import opened Wrappers
  import opened JavaInts
  import opened Ids
  import opened Locks
  import opened Disks
  import Records
  import Catalogs

  /** DEFAULT_PAGE_SIZE and DEFAULT_PAGES. */
  const DEFAULT_PAGE_SIZE: nat := 4096
  const DEFAULT_PAGES: int32 := 500

  /**
   * A cached page as the pool deals with it: its id, its contents and what
   * isDirty() answers, the transaction that dirtied it or None when clean.
   */
  datatype Page = Page(id: PageId, image: Image, dirtier: Option<TransactionId>)

  type PageMap = map<PageId, Page>
  type CountMap = map<PageId, int32>

  predicate Clean(page: Page)
  {
    page.dirtier.None?
  }

  /** Every cached page is filed under its own id (pageMap.put(page.getId(), page)). */
  predicate Keyed(pm: PageMap)
  {
    forall p :: p in pm ==> pm[p].id == p
  }

  /** A clean cached page holds exactly what the disk holds for it. */
  predicate CleanOnDisk(pm: PageMap, disk: map<PageId, Image>, pageSize: nat)
  {
    forall p :: p in pm && Clean(pm[p]) ==> pm[p].image == ReadImage(disk, pageSize, p)
  }

  /** lruMap.merge(pid, 1, Integer::sum): a first fetch counts 1, a later one adds 1 in 32-bit arithmetic. */
  function Bump(lm: CountMap, pid: PageId): (r: CountMap)
    ensures r.Keys == lm.Keys + {pid}
    ensures forall q :: q in lm && q != pid ==> r[q] == lm[q]
    ensures pid !in lm ==> r[pid] == 1
    ensures pid in lm && lm[pid] as int < INT_MAX ==> r[pid] as int == lm[pid] as int + 1
  {
    lm[pid := if pid in lm then Wrap32(lm[pid] as int + 1) else 1]
  }

  /** A map with the evicted page, if any, taken out. */
  function Evicted<V>(m: map<PageId, V>, e: Option<PageId>): (r: map<PageId, V>)
    ensures e.None? ==> r == m
    ensures e.Some? ==> r.Keys == m.Keys - {e.value} && forall q :: q in r ==> r[q] == m[q]
  {
    if e.Some? then m - {e.value} else m
  }

  /**
   * evictPage's choice: a clean cached page whose count is no larger than
   * that of any other clean cached page (every clean page having a count).
   */
  predicate IsVictim(pm: PageMap, lm: CountMap, v: PageId)
  {
    v in pm && Clean(pm[v]) && v in lm &&
    forall q :: q in pm && Clean(pm[q]) ==> q in lm && lm[v] <= lm[q]
  }

  /**
   * Why evictPage throws, if it does: unboxing the missing count of a clean
   * page is a NullPointerException, and a cache with no clean page at all is
   * a DbException.
   */
  function EvictFailure(pm: PageMap, lm: CountMap): Option<Error>
  {
    if exists q :: q in pm && Clean(pm[q]) && q !in lm then Some(NullPointerException)
    else if forall q :: q in pm ==> !Clean(pm[q]) then Some(DbException)
    else None
  }

  /** Whenever evictPage does not throw, a victim exists. */
  lemma {:induction false} VictimExists(pm: PageMap, lm: CountMap)
    requires EvictFailure(pm, lm).None?
    ensures exists v :: IsVictim(pm, lm, v)
  {
    var c :| c in pm && Clean(pm[c]);
    var v := LeastClean(pm, lm, pm.Keys, c);
    assert IsVictim(pm, lm, v);
  }

  /** The clean page with the smallest count among those of s. */
  lemma {:induction false} LeastClean(pm: PageMap, lm: CountMap, s: set<PageId>, c: PageId) returns (v: PageId)
    requires s <= pm.Keys && c in s && Clean(pm[c])
    requires forall q :: q in s && Clean(pm[q]) ==> q in lm
    ensures v in s && Clean(pm[v]) && v in lm
    ensures forall q :: q in s && Clean(pm[q]) ==> lm[v] <= lm[q]
    decreases |s|
  {
    var rest := s - {c};
    if c' :| c' in rest && Clean(pm[c']) {
      var w := LeastClean(pm, lm, rest, c');
      v := if lm[c] < lm[w] then c else w;
    } else {
      v := c;
    }
  }

  /** Every page the file returns, marked dirty by tid and put under its id, in order. */
  function PutDirty(pm: PageMap, pages: seq<Page>, tid: TransactionId): (r: PageMap)
    decreases |pages|
  {
    if |pages| == 0 then pm
    else
      var last := pages[|pages| - 1];
      PutDirty(pm, pages[..|pages| - 1], tid)[last.id := last.(dirtier := Some(tid))]
  }

  /** Some page of the list has id p. */
  predicate Returned(pages: seq<Page>, p: PageId)
  {
    exists i :: 0 <= i < |pages| && pages[i].id == p
  }

  /**
   * insertTuple/deleteTuple: the ids cached afterwards are those cached
   * before and those the file returned, and an id the file did not return
   * keeps its page.
   */
  lemma {:induction false} PutDirtyKeys(pm: PageMap, pages: seq<Page>, tid: TransactionId)
    ensures var r := PutDirty(pm, pages, tid);
            (forall p :: p in r <==> p in pm || Returned(pages, p)) &&
            (forall p :: p in pm && !Returned(pages, p) ==> r[p] == pm[p])
    decreases |pages|
  {
    if |pages| > 0 {
      var n := |pages| - 1;
      var front := pages[..n];
      PutDirtyKeys(pm, front, tid);
      forall p
        ensures Returned(pages, p) <==> Returned(front, p) || pages[n].id == p
      {
        if Returned(pages, p) {
          var i :| 0 <= i < |pages| && pages[i].id == p;
          if i < n { assert front[i].id == p; }
        }
        if Returned(front, p) {
          var i :| 0 <= i < |front| && front[i].id == p;
          assert pages[i].id == p;
        }
      }
    }
  }

  /** The page left under a returned id is the last one the file returned under it, marked dirty by tid. */
  lemma {:induction false} PutDirtyLast(pm: PageMap, pages: seq<Page>, tid: TransactionId, i: nat)
    requires i < |pages| && forall j :: i < j < |pages| ==> pages[j].id != pages[i].id
    ensures var r := PutDirty(pm, pages, tid);
            pages[i].id in r && r[pages[i].id] == pages[i].(dirtier := Some(tid))
    decreases |pages|
  {
    var n := |pages| - 1;
    if i < n {
      var front := pages[..n];
      assert pages[n].id != pages[i].id;
      assert front[i] == pages[i];
      forall j | i < j < |front| ensures front[j].id != front[i].id {
        assert front[j] == pages[j];
      }
      PutDirtyLast(pm, front, tid, i);
    }
  }

  /** Caching the pages an update returned keeps every page under its id, and dirty pages owe the disk nothing. */
  lemma {:induction false} PutDirtyKeeps(pm: PageMap, pages: seq<Page>, tid: TransactionId, disk: map<PageId, Image>, pageSize: nat)
    requires Keyed(pm) && CleanOnDisk(pm, disk, pageSize)
    ensures Keyed(PutDirty(pm, pages, tid)) && CleanOnDisk(PutDirty(pm, pages, tid), disk, pageSize)
    decreases |pages|
  {
    if |pages| > 0 {
      PutDirtyKeeps(pm, pages[..|pages| - 1], tid, disk, pageSize);
    }
  }

  /** The cached pages isDirty() attributes to tid. */
  function DirtyBy(pm: PageMap, tid: TransactionId): (s: set<PageId>)
    ensures forall p :: p in s <==> p in pm && pm[p].dirtier == Some(tid)
  {
    set p | p in pm && pm[p].dirtier == Some(tid)
  }

  /** The cached pages isDirty() attributes to some transaction. */
  function Dirty(pm: PageMap): (s: set<PageId>)
    ensures forall p :: p in s <==> p in pm && !Clean(pm[p])
  {
    set p | p in pm && !Clean(pm[p])
  }

  /** The cache after markDirty(false, null) on the pages of s. */
  function Cleaned(pm: PageMap, s: set<PageId>): (r: PageMap)
  {
    map p | p in pm :: if p in s then pm[p].(dirtier := None) else pm[p]
  }

  /** The disk after writePage of the cached pages of s. */
  function Stored(disk: map<PageId, Image>, pm: PageMap, s: set<PageId>): (r: map<PageId, Image>)
    requires s <= pm.Keys
  {
    map p | p in disk.Keys + s :: if p in s then pm[p].image else disk[p]
  }

  /**
   * Flushing the pages of s: they are clean and the disk holds their images,
   * every other page and every other disk page is unchanged, and a cache
   * whose clean pages matched the disk still does.
   */
  lemma {:induction false} FlushWrites(pm: PageMap, disk: map<PageId, Image>, pageSize: nat, s: set<PageId>)
    requires s <= pm.Keys && Keyed(pm) && CleanOnDisk(pm, disk, pageSize)
    ensures var pm', disk' := Cleaned(pm, s), Stored(disk, pm, s);
            pm'.Keys == pm.Keys &&
            (forall p :: p in s ==> Clean(pm'[p]) && ReadImage(disk', pageSize, p) == pm[p].image) &&
            (forall p :: p in pm && p !in s ==> pm'[p] == pm[p]) &&
            (forall p :: p !in s ==> ReadImage(disk', pageSize, p) == ReadImage(disk, pageSize, p)) &&
            Keyed(pm') && CleanOnDisk(pm', disk', pageSize)
  {
  }

  /** recoverAllPages: the pages of s replaced by a fresh, clean read from disk. */
  function Recovered(pm: PageMap, disk: map<PageId, Image>, pageSize: nat, s: set<PageId>): (r: PageMap)
  {
    map p | p in pm :: if p in s then Page(p, ReadImage(disk, pageSize, p), None) else pm[p]
  }

  /**
   * After an abort no cached page is dirty by tid any more, each page it had
   * dirtied holds the disk's image again, and every other page is unchanged.
   */
  lemma {:induction false} AbortRestores(pm: PageMap, disk: map<PageId, Image>, pageSize: nat, tid: TransactionId)
    requires Keyed(pm) && CleanOnDisk(pm, disk, pageSize)
    ensures var r := Recovered(pm, disk, pageSize, DirtyBy(pm, tid));
            r.Keys == pm.Keys && DirtyBy(r, tid) == {} &&
            (forall p :: p in DirtyBy(pm, tid) ==> r[p] == Page(p, ReadImage(disk, pageSize, p), None)) &&
            (forall p :: p in pm && p !in DirtyBy(pm, tid) ==> r[p] == pm[p]) &&
            Keyed(r) && CleanOnDisk(r, disk, pageSize)
  {
    var r := Recovered(pm, disk, pageSize, DirtyBy(pm, tid));
    forall p | p in r ensures r[p].dirtier != Some(tid) {
      if p in DirtyBy(pm, tid) {
        assert r[p].dirtier == None;
      } else {
        assert pm[p].dirtier != Some(tid);
      }
    }
  }

  /** The lists of the pages of s with each page's dirtier taken out once. */
  function DropDirtiers(m: LockMap, pm: PageMap, s: set<PageId>): (r: LockMap)
    ensures r.Keys == m.Keys
  {
    map p | p in m :: if p in s && p in pm && pm[p].dirtier.Some? then RemoveFirst(m[p], pm[p].dirtier.value) else m[p]
  }

  /** flushAllPages' effect on the locks: each flushed page's dirtier releases its lock on that page. */
  function UnlockDirtiers(t: LockTable, pm: PageMap, s: set<PageId>): LockTable
  {
    LockTable(DropDirtiers(t.readers, pm, s), DropDirtiers(t.writers, pm, s))
  }

  /** Releasing one more flushed page's lock: pid leaves the keys still to visit. */
  lemma {:induction false} DropDirtiersStep(m: LockMap, pm: PageMap, s: set<PageId>, keys: set<PageId>, pid: PageId)
    requires pid in pm && pid in s && pid in keys && pm[pid].dirtier.Some?
    ensures Drop(DropDirtiers(m, pm, s - keys), pid, pm[pid].dirtier.value) == DropDirtiers(m, pm, s - (keys - {pid}))
  {
    assert s - (keys - {pid}) == (s - keys) + {pid};
  }

  /** releaseLock(tid, pid) whose failure is ignored: tid taken out of the page's two lists. */
  lemma {:induction false} ReleaseIsDrop(t: LockTable, tid: TransactionId, pid: PageId)
    ensures (if Release(t, tid, pid).Ok? then Release(t, tid, pid).value else t) ==
            LockTable(Drop(t.readers, pid, tid), Drop(t.writers, pid, tid))
  {
  }

  /** The lists flushAllPages leaves on one page, and why: the page's dirtier taken out once, or untouched. */
  lemma {:induction false} UnlockDirtiersAt(t: LockTable, pm: PageMap, s: set<PageId>, p: PageId)
    requires Consistent(t)
    ensures var t' := UnlockDirtiers(t, pm, s);
            if p in s && p in pm && pm[p].dirtier.Some? then
              var x := pm[p].dirtier.value;
              Unique(Holders(t'.readers, p)) && Unique(Holders(t'.writers, p)) &&
              |Holders(t'.writers, p)| <= |Holders(t.writers, p)| && |Holders(t'.readers, p)| <= |Holders(t.readers, p)| &&
              (forall y :: y in Holders(t'.readers, p) <==> y in Holders(t.readers, p) && y != x) &&
              (forall y :: y in Holders(t'.writers, p) <==> y in Holders(t.writers, p) && y != x)
            else
              Holders(t'.readers, p) == Holders(t.readers, p) && Holders(t'.writers, p) == Holders(t.writers, p)
  {
    var t' := UnlockDirtiers(t, pm, s);
    if p in s && p in pm && pm[p].dirtier.Some? {
      var x := pm[p].dirtier.value;
      if p in t.readers { RemoveFirstUnique(t.readers[p], x); }
      if p in t.writers { RemoveFirstUnique(t.writers[p], x); }
    }
  }

  /** flushAllPages keeps the lock table consistent. */
  lemma {:induction false} UnlockDirtiersConsistent(t: LockTable, pm: PageMap, s: set<PageId>)
    requires Consistent(t)
    ensures Consistent(UnlockDirtiers(t, pm, s))
  {
    var t' := UnlockDirtiers(t, pm, s);
    forall p ensures (p in t'.readers ==> Unique(t'.readers[p])) &&
                     (p in t'.writers ==> Unique(t'.writers[p]) && |t'.writers[p]| <= 1) &&
                     (p in t'.writers && |t'.writers[p]| > 0 ==> |Holders(t'.readers, p)| == 0)
    {
      UnlockDirtiersAt(t, pm, s, p);
    }
  }

  /**
   * After flushAllPages no flushed page's dirtier holds a lock on it, and
   * every other lock is kept.
   */
  lemma {:induction false} UnlockDirtiersFrees(t: LockTable, pm: PageMap, s: set<PageId>)
    requires Consistent(t)
    ensures forall p :: p in s && p in pm && pm[p].dirtier.Some? ==>
                        !HoldsLock(UnlockDirtiers(t, pm, s), pm[p].dirtier.value, p)
    ensures forall p, u :: (p !in s || p !in pm || pm[p].dirtier != Some(u)) ==>
                           (HoldsLock(UnlockDirtiers(t, pm, s), u, p) <==> HoldsLock(t, u, p))
  {
    forall p {
      UnlockDirtiersAt(t, pm, s, p);
    }
  }

  /**
   * What getPage does once the lock is held. A hit returns the cached page
   * and counts the fetch. A miss on a cache holding numPages pages first
   * evicts a victim (and fails as evictPage does); the page read from disk
   * is then cached, clean, with one more fetch counted.
   */
  ghost predicate Fetched(pm: PageMap, lm: CountMap, disk: map<PageId, Image>, pageSize: nat, numPages: int, pid: PageId,
                          r: Result<Page>, evicted: Option<PageId>, pm': PageMap, lm': CountMap, disk': map<PageId, Image>)
  {
    if pid in pm then
      r == Ok(pm[pid]) && evicted.None? && pm' == pm && lm' == Bump(lm, pid) && disk' == disk
    else if |pm| == numPages && EvictFailure(pm, lm).Some? then
      r == Err(EvictFailure(pm, lm).value) && evicted.None? && pm' == pm && lm' == lm && disk' == disk
    else
      (evicted.Some? <==> |pm| == numPages) &&
      (evicted.Some? ==> IsVictim(pm, lm, evicted.value) && disk' == disk[evicted.value := pm[evicted.value].image]) &&
      (evicted.None? ==> disk' == disk) &&
      r == Ok(Page(pid, ReadImage(disk, pageSize, pid), None)) &&
      pm' == Evicted(pm, evicted)[pid := r.value] &&
      lm' == Bump(Evicted(lm, evicted), pid)
  }

  /** A fetch keeps every page under its id and every clean page equal to the disk. */
  lemma {:induction false} FetchKeeps(pm: PageMap, lm: CountMap, disk: map<PageId, Image>, pageSize: nat, numPages: int, pid: PageId,
                                      r: Result<Page>, evicted: Option<PageId>, pm': PageMap, lm': CountMap, disk': map<PageId, Image>)
    requires Keyed(pm) && CleanOnDisk(pm, disk, pageSize)
    requires Fetched(pm, lm, disk, pageSize, numPages, pid, r, evicted, pm', lm', disk')
    ensures Keyed(pm') && CleanOnDisk(pm', disk', pageSize)
  {
    if pid in pm {
    } else if |pm| == numPages && EvictFailure(pm, lm).Some? {
    } else {
      InstallKeeps(pm, disk, pageSize, evicted, pid);
    }
  }

  /** A page read from disk, cached clean beside the pages left after the eviction, keeps both invariants. */
  lemma {:induction false} InstallKeeps(pm: PageMap, disk: map<PageId, Image>, pageSize: nat, evicted: Option<PageId>, pid: PageId)
    requires Keyed(pm) && CleanOnDisk(pm, disk, pageSize) && pid !in pm
    requires evicted.Some? ==> evicted.value in pm
    ensures var disk' := if evicted.Some? then disk[evicted.value := pm[evicted.value].image] else disk;
            var pm' := Evicted(pm, evicted)[pid := Page(pid, ReadImage(disk, pageSize, pid), None)];
            Keyed(pm') && CleanOnDisk(pm', disk', pageSize)
  {
    if evicted.Some? {
      var v := evicted.value;
      var disk' := disk[v := pm[v].image];
      var rest := pm - {v};
      forall p | p in rest && Clean(rest[p])
        ensures rest[p].image == ReadImage(disk', pageSize, p)
      {
        assert p != v;
      }
      assert ReadImage(disk', pageSize, pid) == ReadImage(disk, pageSize, pid);
    }
  }

  /** The page getPage returns is the one it leaves cached under pid, with a count. */
  lemma {:induction false} FetchReturns(pm: PageMap, lm: CountMap, disk: map<PageId, Image>, pageSize: nat, numPages: int, pid: PageId,
                                        r: Result<Page>, evicted: Option<PageId>, pm': PageMap, lm': CountMap, disk': map<PageId, Image>)
    requires Keyed(pm)
    requires Fetched(pm, lm, disk, pageSize, numPages, pid, r, evicted, pm', lm', disk')
    ensures r.Ok? ==> r.value.id == pid && pid in pm' && pm'[pid] == r.value && pid in lm'
  {
  }

  /** A fetch never takes a cache holding at most numPages pages beyond numPages. */
  lemma {:induction false} FetchBound(pm: PageMap, lm: CountMap, disk: map<PageId, Image>, pageSize: nat, numPages: int, pid: PageId,
                                      r: Result<Page>, evicted: Option<PageId>, pm': PageMap, lm': CountMap, disk': map<PageId, Image>)
    requires Fetched(pm, lm, disk, pageSize, numPages, pid, r, evicted, pm', lm', disk')
    ensures |pm| <= numPages ==> |pm'| <= numPages
  {
    if pid !in pm && r.Ok? && evicted.Some? {
      var rest := pm - {evicted.value};
      assert rest.Keys == pm.Keys - {evicted.value};
      assert |rest.Keys| == |pm.Keys| - 1;
    }
  }

  class BufferPool {
    const numPages: int32
    var pageMap: PageMap
    var lruMap: CountMap
    const locks: TxLockManager
    const disk: Disk

    /** What the pool keeps true between calls. */
    ghost predicate Valid()
      reads this, locks, disk
    {
      Consistent(locks.Table()) && Keyed(pageMap) && CleanOnDisk(pageMap, disk.pages, disk.pageSize)
    }

    /** BufferPool(numPages), over the given database files. */
    constructor (numPages: int32, disk: Disk)
      ensures this.numPages == numPages && this.disk == disk
      ensures pageMap == map[] && lruMap == map[] && fresh(locks) && locks.Table() == LockTable(map[], map[])
      ensures Valid()
    {
      this.numPages := numPages;
      this.disk := disk;
      pageMap := map[];
      lruMap := map[];
      locks := new TxLockManager();
    }

    /**
     * getPage: the lock is requested first, and a request that would wait
     * ends in a TransactionAbortedException; otherwise the cache answers as
     * Fetched describes.
     */
    method GetPage(tid: TransactionId, pid: PageId, perm: Permissions) returns (r: Result<Page>, ghost evicted: Option<PageId>)
      requires Valid()
      modifies this, locks, disk
      ensures Valid()
      ensures locks.Table() == Acquire(old(locks.Table()), tid, pid, perm).0
      ensures Acquire(old(locks.Table()), tid, pid, perm).1 == Blocked ==>
                r == Err(TransactionAbortedException) && evicted.None? &&
                pageMap == old(pageMap) && lruMap == old(lruMap) && disk.pages == old(disk.pages)
      ensures Acquire(old(locks.Table()), tid, pid, perm).1 != Blocked ==>
                Fetched(old(pageMap), old(lruMap), old(disk.pages), disk.pageSize, numPages as int, pid,
                        r, evicted, pageMap, lruMap, disk.pages)
      ensures |old(pageMap)| <= numPages as int ==> |pageMap| <= numPages as int
    {
      var first := locks.AcquireLock(tid, pid, perm);
      AcquireKeeps(old(locks.Table()), tid, pid, perm);
      if first == Blocked {
        return Err(TransactionAbortedException), None;
      }
      AcquireProvides(old(locks.Table()), tid, pid, perm);
      r, evicted := Fetch(tid, pid, perm);
      FetchKeeps(old(pageMap), old(lruMap), old(disk.pages), disk.pageSize, numPages as int, pid,
                 r, evicted, pageMap, lruMap, disk.pages);
      FetchBound(old(pageMap), old(lruMap), old(disk.pages), disk.pageSize, numPages as int, pid,
                 r, evicted, pageMap, lruMap, disk.pages);
    }

    /** getPage once tid holds a lock strong enough: the cache lookup, eviction and disk read. */
    method Fetch(tid: TransactionId, pid: PageId, perm: Permissions) returns (r: Result<Page>, ghost evicted: Option<PageId>)
      requires Sufficient(locks.Table(), tid, pid, perm)
      modifies this, locks, disk
      ensures locks.Table() == old(locks.Table())
      ensures Fetched(old(pageMap), old(lruMap), old(disk.pages), disk.pageSize, numPages as int, pid,
                      r, evicted, pageMap, lruMap, disk.pages)
    {
      if pid in pageMap {
        lruMap := Bump(lruMap, pid);
        return Ok(pageMap[pid]), None;
      }
      ghost var pm0, lm0, d0 := pageMap, lruMap, disk.pages;
      evicted := None;
      if |pageMap| == numPages as int {
        var e, victim := EvictPage();
        if e.Fail? {
          return Err(e.error), None;
        }
        evicted := Some(victim);
      }
      assert pageMap == Evicted(pm0, evicted) && lruMap == Evicted(lm0, evicted);
      assert evicted.Some? ==> disk.pages == d0[evicted.value := pm0[evicted.value].image];
      assert evicted.None? ==> disk.pages == d0;
      // tid already holds the lock, so the second request finds it held.
      AcquireHeld(locks.Table(), tid, pid, perm);
      var again := locks.AcquireLock(tid, pid, perm);
      assert again == AlreadyHeld;
      var image := disk.ReadPage(pid);
      assert image == ReadImage(d0, disk.pageSize, pid) by {
        if evicted.Some? {
          assert evicted.value != pid;
        }
      }
      var page := Page(pid, image, None);
      pageMap := pageMap[pid := page];
      lruMap := Bump(lruMap, pid);
      r := Ok(page);
    }

    /**
     * evictPage: a clean page with the least count is flushed and leaves both
     * maps; it throws when a clean page has no count or no page is clean.
     */
    method EvictPage() returns (r: Outcome, ghost victim: PageId)
      modifies this, disk
      ensures r.Fail? <==> EvictFailure(old(pageMap), old(lruMap)).Some?
      ensures r.Fail? ==> r.error == EvictFailure(old(pageMap), old(lruMap)).value &&
                          pageMap == old(pageMap) && lruMap == old(lruMap) && disk.pages == old(disk.pages)
      ensures r.Done? ==> IsVictim(old(pageMap), old(lruMap), victim) &&
                          pageMap == old(pageMap) - {victim} && lruMap == old(lruMap) - {victim} &&
                          disk.pages == old(disk.pages)[victim := old(pageMap)[victim].image]
    {
      victim := HeapPageId(0, 0);
      var found: Option<PageId> := None;
      var min: int32 := INT_MAX as int32;
      var keys := pageMap.Keys;
      while keys != {}
        decreases |keys|
        invariant keys <= pageMap.Keys
        invariant found.Some? ==> found.value in pageMap && Clean(pageMap[found.value]) &&
                                  found.value in lruMap && lruMap[found.value] == min
        invariant forall q :: q in pageMap && q !in keys && Clean(pageMap[q]) ==>
                                q in lruMap && found.Some? && min <= lruMap[q]
      {
        var id :| id in keys;
        keys := keys - {id};
        if Clean(pageMap[id]) {
          if id !in lruMap {
            return Fail(NullPointerException), id;
          }
          if found.None? || lruMap[id] < min {
            found := Some(id);
            min := lruMap[id];
          }
        }
      }
      if found.None? {
        return Fail(DbException), victim;
      }
      var v := found.value;
      FlushPage(v);
      lruMap := lruMap - {v};
      pageMap := pageMap - {v};
      return Done, v;
    }
    /** flushPage: a cached page is written to disk and marked clean; an uncached id changes nothing. */
    method FlushPage(pid: PageId)
      modifies this, disk
      ensures pid in old(pageMap) ==> pageMap == old(pageMap)[pid := old(pageMap)[pid].(dirtier := None)] &&
                                      disk.pages == old(disk.pages)[pid := old(pageMap)[pid].image]
      ensures pid !in old(pageMap) ==> pageMap == old(pageMap) && disk.pages == old(disk.pages)
      ensures lruMap == old(lruMap)
    {
      if pid in pageMap {
        var page := pageMap[pid];
        disk.WritePage(pid, page.image);
        pageMap := pageMap[pid := page.(dirtier := None)];
      }
    }

    /** holdsLock. */
    function HoldsLock(tid: TransactionId, p: PageId): (r: bool)
      reads this, locks
      ensures r <==> Locks.HoldsLock(locks.Table(), tid, p)
    {
      locks.HasHoldsLock(tid, p)
    }

    /** unsafeReleasePage: releaseLock(tid, pid), its exception swallowed. */
    method UnsafeReleasePage(tid: TransactionId, pid: PageId)
      requires Valid()
      modifies locks
      ensures Valid()
      ensures var e := Release(old(locks.Table()), tid, pid);
              locks.Table() == if e.Ok? then e.value else old(locks.Table())
    {
      ReleaseFrees(locks.Table(), tid, pid);
      var _ := locks.ReleaseLock(tid, pid);
    }

    /**
     * insertTuple: the catalog finds the table's file, an unknown tableId being
     * a NoSuchElementException. The file's insertTuple is not part of this
     * model; `dirtied` is its answer, the pages it dirtied or the exception it
     * threw. Every returned page is marked dirty by tid and replaces the cached
     * version; counts are untouched. A failure changes nothing.
     */
    method InsertTuple(tid: TransactionId, tableId: int32, catalog: Catalogs.Catalog, dirtied: Result<seq<Page>>)
      returns (r: Outcome)
      requires Valid()
      modifies this
      ensures Valid()
      ensures catalog.GetDatabaseFile(tableId).Err? ==> r == Fail(NoSuchElementException)
      ensures catalog.GetDatabaseFile(tableId).Ok? && dirtied.Err? ==> r == Fail(dirtied.error)
      ensures r.Done? <==> catalog.GetDatabaseFile(tableId).Ok? && dirtied.Ok?
      ensures r.Done? ==> pageMap == PutDirty(old(pageMap), dirtied.value, tid) && lruMap == old(lruMap)
      ensures r.Fail? ==> unchanged(this)
    {
      r := CacheDirtied(tid, tableId, catalog, dirtied);
    }

    /**
     * deleteTuple: the table is the one of the tuple's record id, so a tuple
     * without one is a NullPointerException; then as insertTuple, with
     * `dirtied` the answer of the file's deleteTuple.
     */
    method DeleteTuple(tid: TransactionId, t: Records.Tuple, catalog: Catalogs.Catalog, dirtied: Result<seq<Page>>)
      returns (r: Outcome)
      requires Valid()
      modifies this
      ensures Valid()
      ensures t.recordId.None? ==> r == Fail(NullPointerException)
      ensures t.recordId.Some? ==>
                var tableId := t.recordId.value.pageId.value.tableId;
                (catalog.GetDatabaseFile(tableId).Err? ==> r == Fail(NoSuchElementException)) &&
                (catalog.GetDatabaseFile(tableId).Ok? && dirtied.Err? ==> r == Fail(dirtied.error)) &&
                (r.Done? <==> catalog.GetDatabaseFile(tableId).Ok? && dirtied.Ok?)
      ensures r.Done? ==> pageMap == PutDirty(old(pageMap), dirtied.value, tid) && lruMap == old(lruMap)
      ensures r.Fail? ==> unchanged(this)
    {
      if t.recordId.None? {
        return Fail(NullPointerException);
      }
      r := CacheDirtied(tid, t.recordId.value.pageId.value.tableId, catalog, dirtied);
    }

    /** What insertTuple and deleteTuple share once the table id is known: the file lookup, then the file's pages cached. */
    method CacheDirtied(tid: TransactionId, tableId: int32, catalog: Catalogs.Catalog, dirtied: Result<seq<Page>>)
      returns (r: Outcome)
      requires Valid()
      modifies this
      ensures Valid()
      ensures catalog.GetDatabaseFile(tableId).Err? ==> r == Fail(NoSuchElementException)
      ensures catalog.GetDatabaseFile(tableId).Ok? && dirtied.Err? ==> r == Fail(dirtied.error)
      ensures r.Done? <==> catalog.GetDatabaseFile(tableId).Ok? && dirtied.Ok?
      ensures r.Done? ==> pageMap == PutDirty(old(pageMap), dirtied.value, tid) && lruMap == old(lruMap)
      ensures r.Fail? ==> unchanged(this)
    {
      var file := catalog.GetDatabaseFile(tableId);
      if file.Err? {
        return Fail(file.error);
      }
      if dirtied.Err? {
        return Fail(dirtied.error);
      }
      PutDirtyKeeps(pageMap, dirtied.value, tid, disk.pages, disk.pageSize);
      CachePages(tid, dirtied.value);
      r := Done;
    }

    /** The loop insertTuple and deleteTuple share: markDirty(true, tid), then pageMap.put. */
    method CachePages(tid: TransactionId, pages: seq<Page>)
      modifies this
      ensures pageMap == PutDirty(old(pageMap), pages, tid) && lruMap == old(lruMap)
    {
      for i := 0 to |pages|
        invariant pageMap == PutDirty(old(pageMap), pages[..i], tid) && lruMap == old(lruMap)
      {
        var page := pages[i].(dirtier := Some(tid));
        assert pages[..i + 1][..i] == pages[..i];
        pageMap := pageMap[page.id := page];
      }
      assert pages[..|pages|] == pages;
    }

    /** removePage: pid leaves both maps and nothing is written. */
    method RemovePage(pid: PageId)
      requires Valid()
      modifies this
      ensures Valid()
      ensures pageMap == old(pageMap) - {pid} && lruMap == old(lruMap) - {pid}
    {
      pageMap := pageMap - {pid};
      lruMap := lruMap - {pid};
    }

    /** flushPages(tid): exactly the pages tid dirtied are written and marked clean. */
    method FlushPages(tid: TransactionId)
      modifies this, disk
      ensures pageMap == Cleaned(old(pageMap), DirtyBy(old(pageMap), tid))
      ensures disk.pages == Stored(old(disk.pages), old(pageMap), DirtyBy(old(pageMap), tid))
      ensures lruMap == old(lruMap)
    {
      ghost var pm0, d0 := pageMap, disk.pages;
      ghost var s := DirtyBy(pm0, tid);
      var keys := pageMap.Keys;
      NothingFlushed(pm0, d0, locks.Table());
      assert s - keys == {};
      while keys != {}
        decreases |keys|
        invariant keys <= pm0.Keys
        invariant pageMap == Cleaned(pm0, s - keys) && disk.pages == Stored(d0, pm0, s - keys)
        invariant lruMap == old(lruMap)
      {
        var pid :| pid in keys;
        FlushIfDirtiedBy(tid, pid, pm0, d0, keys);
        keys := keys - {pid};
      }
      assert s - keys == s;
    }

    /** One pass of the flushPages loop: pid is flushed when tid dirtied it. */
    method FlushIfDirtiedBy(tid: TransactionId, pid: PageId, ghost pm0: PageMap, ghost d0: map<PageId, Image>, ghost keys: set<PageId>)
      requires keys <= pm0.Keys && pid in keys
      requires pageMap == Cleaned(pm0, DirtyBy(pm0, tid) - keys) && disk.pages == Stored(d0, pm0, DirtyBy(pm0, tid) - keys)
      modifies this, disk
      ensures pageMap == Cleaned(pm0, DirtyBy(pm0, tid) - (keys - {pid}))
      ensures disk.pages == Stored(d0, pm0, DirtyBy(pm0, tid) - (keys - {pid}))
      ensures lruMap == old(lruMap)
    {
      ghost var s := DirtyBy(pm0, tid);
      FlushStep(pm0, d0, s, keys, pid);
      if pageMap[pid].dirtier == Some(tid) {
        assert pid in s;
        FlushPage(pid);
      } else {
        assert pid !in s;
      }
    }

    /** Flushing one more page: pid leaves the keys still to visit. */
    static lemma {:induction false} FlushStep(pm: PageMap, disk: map<PageId, Image>, s: set<PageId>, keys: set<PageId>, pid: PageId)
      requires s <= pm.Keys && pid in keys && keys <= pm.Keys
      ensures Cleaned(pm, s - keys)[pid] == pm[pid]
      ensures pid in s ==> Cleaned(pm, s - keys)[pid := pm[pid].(dirtier := None)] == Cleaned(pm, s - (keys - {pid})) &&
                           Stored(disk, pm, s - keys)[pid := pm[pid].image] == Stored(disk, pm, s - (keys - {pid}))
      ensures pid !in s ==> s - (keys - {pid}) == s - keys
    {
      if pid in s {
        assert s - (keys - {pid}) == (s - keys) + {pid};
      }
    }

    /**
     * flushAllPages: every dirty page is written, its dirtier's lock on it is
     * released (a failed release is ignored) and it is marked clean.
     */
    method FlushAllPages()
      requires Valid()
      modifies this, disk, locks
      ensures Valid()
      ensures pageMap == Cleaned(old(pageMap), Dirty(old(pageMap)))
      ensures disk.pages == Stored(old(disk.pages), old(pageMap), Dirty(old(pageMap)))
      ensures locks.Table() == UnlockDirtiers(old(locks.Table()), old(pageMap), Dirty(old(pageMap)))
      ensures lruMap == old(lruMap)
    {
      ghost var pm0, d0, t0 := pageMap, disk.pages, locks.Table();
      ghost var s := Dirty(pm0);
      FlushWrites(pm0, d0, disk.pageSize, s);
      UnlockDirtiersConsistent(t0, pm0, s);
      FlushDirty();
    }

    /** The loop of flushAllPages. */
    method FlushDirty()
      requires Keyed(pageMap)
      modifies this, disk, locks
      ensures pageMap == Cleaned(old(pageMap), Dirty(old(pageMap)))
      ensures disk.pages == Stored(old(disk.pages), old(pageMap), Dirty(old(pageMap)))
      ensures locks.Table() == UnlockDirtiers(old(locks.Table()), old(pageMap), Dirty(old(pageMap)))
      ensures lruMap == old(lruMap)
    {
      ghost var pm0, d0, t0 := pageMap, disk.pages, locks.Table();
      ghost var s := Dirty(pm0);
      var keys := pageMap.Keys;
      NothingFlushed(pm0, d0, t0);
      assert s - keys == {};
      while keys != {}
        decreases |keys|
        invariant keys <= pm0.Keys
        invariant pageMap == Cleaned(pm0, s - keys) && disk.pages == Stored(d0, pm0, s - keys)
        invariant locks.Table() == UnlockDirtiers(t0, pm0, s - keys)
        invariant lruMap == old(lruMap)
      {
        var pid :| pid in keys;
        FlushIfDirty(pid, pm0, d0, t0, keys);
        keys := keys - {pid};
      }
      assert s - keys == s;
    }

    /** One pass of the flushAllPages loop: a dirty page is written, released by its dirtier and marked clean. */
    method FlushIfDirty(pid: PageId, ghost pm0: PageMap, ghost d0: map<PageId, Image>, ghost t0: LockTable, ghost keys: set<PageId>)
      requires Keyed(pm0) && keys <= pm0.Keys && pid in keys
      requires pageMap == Cleaned(pm0, Dirty(pm0) - keys) && disk.pages == Stored(d0, pm0, Dirty(pm0) - keys)
      requires locks.Table() == UnlockDirtiers(t0, pm0, Dirty(pm0) - keys)
      modifies this, disk, locks
      ensures pageMap == Cleaned(pm0, Dirty(pm0) - (keys - {pid}))
      ensures disk.pages == Stored(d0, pm0, Dirty(pm0) - (keys - {pid}))
      ensures locks.Table() == UnlockDirtiers(t0, pm0, Dirty(pm0) - (keys - {pid}))
      ensures lruMap == old(lruMap)
    {
      ghost var s := Dirty(pm0);
      FlushStep(pm0, d0, s, keys, pid);
      var page := pageMap[pid];
      if page.dirtier.Some? {
        assert pid in s && page.id == pid;
        DropDirtiersStep(t0.readers, pm0, s, keys, pid);
        DropDirtiersStep(t0.writers, pm0, s, keys, pid);
        ReleaseIsDrop(locks.Table(), page.dirtier.value, pid);
        disk.WritePage(page.id, page.image);
        var _ := locks.ReleaseLock(page.dirtier.value, page.id);
        pageMap := pageMap[pid := page.(dirtier := None)];
      } else {
        assert pid !in s;
      }
    }

    /** Before the first page nothing is flushed or released. */
    static lemma {:induction false} NothingFlushed(pm: PageMap, disk: map<PageId, Image>, t: LockTable)
      ensures Cleaned(pm, {}) == pm && Stored(disk, pm, {}) == disk && UnlockDirtiers(t, pm, {}) == t
    {
    }

    /** recoverAllPages(tid): each page tid dirtied is replaced by a fresh read from disk; counts are untouched. */
    method RecoverAllPages(tid: TransactionId)
      requires Keyed(pageMap)
      modifies this
      ensures pageMap == Recovered(old(pageMap), disk.pages, disk.pageSize, DirtyBy(old(pageMap), tid))
      ensures lruMap == old(lruMap)
    {
      ghost var pm0 := pageMap;
      ghost var s := DirtyBy(pm0, tid);
      var keys := pageMap.Keys;
      NothingRecovered(pm0, disk.pages, disk.pageSize);
      assert s - keys == {};
      while keys != {}
        decreases |keys|
        invariant keys <= pm0.Keys
        invariant pageMap == Recovered(pm0, disk.pages, disk.pageSize, s - keys)
        invariant lruMap == old(lruMap)
      {
        var pid :| pid in keys;
        RecoverIfDirtiedBy(tid, pid, pm0, keys);
        keys := keys - {pid};
      }
      assert s - keys == s;
    }

    /** Before the first page nothing is re-read. */
    static lemma {:induction false} NothingRecovered(pm: PageMap, disk: map<PageId, Image>, pageSize: nat)
      ensures Recovered(pm, disk, pageSize, {}) == pm
    {
    }

    /** One pass of the recoverAllPages loop: a page tid dirtied is read again from disk. */
    method RecoverIfDirtiedBy(tid: TransactionId, pid: PageId, ghost pm0: PageMap, ghost keys: set<PageId>)
      requires Keyed(pm0) && keys <= pm0.Keys && pid in keys
      requires pageMap == Recovered(pm0, disk.pages, disk.pageSize, DirtyBy(pm0, tid) - keys)
      modifies this
      ensures pageMap == Recovered(pm0, disk.pages, disk.pageSize, DirtyBy(pm0, tid) - (keys - {pid}))
      ensures lruMap == old(lruMap)
    {
      ghost var s := DirtyBy(pm0, tid);
      RecoverStep(pm0, disk.pages, disk.pageSize, s, keys, pid);
      var page := pageMap[pid];
      if page.dirtier == Some(tid) {
        assert pid in s;
        var image := disk.ReadPage(page.id);
        pageMap := pageMap[pid := Page(page.id, image, None)];
      } else {
        assert pid !in s;
      }
    }

    /** Re-reading one more page: pid leaves the keys still to visit. */
    static lemma {:induction false} RecoverStep(pm: PageMap, disk: map<PageId, Image>, pageSize: nat,
                                                s: set<PageId>, keys: set<PageId>, pid: PageId)
      requires Keyed(pm) && s <= pm.Keys && pid in keys && keys <= pm.Keys
      ensures Recovered(pm, disk, pageSize, s - keys)[pid] == pm[pid] && pm[pid].id == pid
      ensures pid in s ==> Recovered(pm, disk, pageSize, s - keys)[pid := Page(pid, ReadImage(disk, pageSize, pid), None)] ==
                           Recovered(pm, disk, pageSize, s - (keys - {pid}))
      ensures pid !in s ==> s - (keys - {pid}) == s - keys
    {
      if pid in s {
        assert s - (keys - {pid}) == (s - keys) + {pid};
      }
    }

    /**
     * transactionComplete(tid, commit): a commit flushes the pages tid
     * dirtied, an abort re-reads them from disk; either way every lock tid
     * holds is then released.
     */
    method TransactionComplete(tid: TransactionId, commit: bool)
      requires Valid()
      modifies this, disk, locks
      ensures Valid()
      ensures commit ==> pageMap == Cleaned(old(pageMap), DirtyBy(old(pageMap), tid)) &&
                         disk.pages == Stored(old(disk.pages), old(pageMap), DirtyBy(old(pageMap), tid))
      ensures !commit ==> pageMap == Recovered(old(pageMap), old(disk.pages), disk.pageSize, DirtyBy(old(pageMap), tid)) &&
                          disk.pages == old(disk.pages)
      ensures lruMap == old(lruMap)
      ensures locks.Table() == ReleaseAll(old(locks.Table()), tid)
    {
      ghost var pm0, d0 := pageMap, disk.pages;
      if commit {
        FlushWrites(pm0, d0, disk.pageSize, DirtyBy(pm0, tid));
        FlushPages(tid);
      } else {
        AbortRestores(pm0, d0, disk.pageSize, tid);
        RecoverAllPages(tid);
      }
      ReleaseAllFrees(locks.Table(), tid);
      locks.ReleaseAllLocks(tid);
    }

    /** transactionComplete(tid): a commit. */
    method Commit(tid: TransactionId)
      requires Valid()
      modifies this, disk, locks
      ensures Valid()
      ensures pageMap == Cleaned(old(pageMap), DirtyBy(old(pageMap), tid))
      ensures disk.pages == Stored(old(disk.pages), old(pageMap), DirtyBy(old(pageMap), tid))
      ensures lruMap == old(lruMap) && locks.Table() == ReleaseAll(old(locks.Table()), tid)
    {
      TransactionComplete(tid, true);
    }
  }
}
