/**
 * TxLockManager: page-level shared and exclusive locks. For every page it
 * keeps the list of transactions holding a read lock and the list holding a
 * write lock. A request is granted and recorded, found already held, or
 * blocked; blocking is an outcome here (the waiting, the retries and the
 * timeout that turns a long wait into an abort are not part of this model).
 */
module Locks {
  import opened Wrappers
  import opened Ids

  datatype Permissions = ReadOnly | ReadWrite

  /** What acquireLock decides: the lock is already held, is granted now, or has to wait. */
  datatype LockResult = AlreadyHeld | Granted | Blocked

  /** page2TxReadLockMap / page2TxWriteLockMap: a page's lock holders, in the order they locked it. */
  type LockMap = map<PageId, seq<TransactionId>>

  /** The holders listed for a page; none when the page has no list. */
  function Holders(m: LockMap, pid: PageId): seq<TransactionId>
  {
    if pid in m then m[pid] else []
  }

  /** List.remove(x): the first occurrence of x taken out. */
  function RemoveFirst(s: seq<TransactionId>, x: TransactionId): (r: seq<TransactionId>)
    ensures x !in s ==> r == s
    ensures |r| == if x in s then |s| - 1 else |s|
  {
    if |s| == 0 then []
    else if s[0] == x then s[1..]
    else
      assert s == [s[0]] + s[1..];
      [s[0]] + RemoveFirst(s[1..], x)
  }

  /** No transaction is listed twice. */
  predicate Unique(s: seq<TransactionId>)
  {
    |s| == 0 || (s[0] !in s[1..] && Unique(s[1..]))
  }

  /** Removing from a list without repeats removes x entirely and keeps every other entry. */
  lemma {:induction false} RemoveFirstUnique(s: seq<TransactionId>, x: TransactionId)
    requires Unique(s)
    ensures Unique(RemoveFirst(s, x))
    ensures forall y :: y in RemoveFirst(s, x) <==> y in s && y != x
  {
    if |s| > 0 && s[0] != x {
      RemoveFirstUnique(s[1..], x);
      assert s == [s[0]] + s[1..];
    }
  }

  /** addLockIntoPage2TxMap: tid appended to the page's list, which is created when missing. */
  function AddHolder(m: LockMap, pid: PageId, tid: TransactionId): (r: LockMap)
    ensures r.Keys == m.Keys + {pid}
    ensures Holders(r, pid) == Holders(m, pid) + [tid]
    ensures forall p :: p != pid ==> Holders(r, p) == Holders(m, p)
  {
    m[pid := Holders(m, pid) + [tid]]
  }

  /** Both lock maps. */
  datatype LockTable = LockTable(readers: LockMap, writers: LockMap)

  /** hasHoldsLock: p lists tid as a writer or as a reader. */
  predicate HoldsLock(t: LockTable, tid: TransactionId, p: PageId)
  {
    tid in Holders(t.writers, p) || tid in Holders(t.readers, p)
  }

  /**
   * The lock table every reachable state keeps: no list repeats a
   * transaction, a page has at most one writer, and a page with a writer has
   * no reader.
   */
  predicate Consistent(t: LockTable)
  {
    (forall p :: p in t.readers ==> Unique(t.readers[p])) &&
    (forall p :: p in t.writers ==> Unique(t.writers[p]) && |t.writers[p]| <= 1) &&
    (forall p :: p in t.writers && |t.writers[p]| > 0 ==> |Holders(t.readers, p)| == 0)
  }

  /** A held lock answers the request: a read lock or the write lock for READ_ONLY, the write lock for READ_WRITE. */
  predicate Sufficient(t: LockTable, tid: TransactionId, pid: PageId, perm: Permissions)
  {
    (perm == ReadOnly && tid in Holders(t.readers, pid)) ||
    (perm == ReadWrite && tid in Holders(t.writers, pid)) ||
    (perm == ReadOnly && tid in Holders(t.writers, pid))
  }

  /**
   * acquireLock's decision, without the waiting. A READ_ONLY request is
   * granted unless the page has a writer. A READ_WRITE request upgrades the
   * sole reader, is granted on an unlocked page and waits otherwise.
   */
  function Acquire(t: LockTable, tid: TransactionId, pid: PageId, perm: Permissions): (LockTable, LockResult)
  {
    var rd := Holders(t.readers, pid);
    var wr := Holders(t.writers, pid);
    if Sufficient(t, tid, pid, perm) then (t, AlreadyHeld)
    else if perm == ReadOnly then
      if |wr| > 0 then (t, Blocked)
      else (LockTable(AddHolder(t.readers, pid, tid), t.writers), Granted)
    else if |wr| == 0 && tid in rd && |rd| == 1 then
      (LockTable(t.readers[pid := RemoveFirst(rd, tid)], AddHolder(t.writers, pid, tid)), Granted)
    else if |wr| > 0 || |rd| > 0 then (t, Blocked)
    else (LockTable(t.readers, AddHolder(t.writers, pid, tid)), Granted)
  }

  /** A request for a lock already strong enough is answered at once and changes nothing. */
  lemma {:induction false} AcquireHeld(t: LockTable, tid: TransactionId, pid: PageId, perm: Permissions)
    ensures Acquire(t, tid, pid, perm).1 == AlreadyHeld <==> Sufficient(t, tid, pid, perm)
    ensures Acquire(t, tid, pid, perm).1 != Granted ==> Acquire(t, tid, pid, perm).0 == t
  {
  }

  /** READ_ONLY: granted exactly when the page has no writer, and then tid is appended to its readers. */
  lemma {:induction false} AcquireRead(t: LockTable, tid: TransactionId, pid: PageId)
    requires !Sufficient(t, tid, pid, ReadOnly)
    ensures var (t', r) := Acquire(t, tid, pid, ReadOnly);
            (r == Granted <==> |Holders(t.writers, pid)| == 0) &&
            (r == Granted ==> Holders(t'.readers, pid) == Holders(t.readers, pid) + [tid] && t'.writers == t.writers)
  {
  }

  /**
   * READ_WRITE: granted exactly when the page has no writer and either no
   * reader or tid as its only reader; tid is then the page's only writer and
   * no longer among its readers.
   */
  lemma {:induction false} AcquireWrite(t: LockTable, tid: TransactionId, pid: PageId)
    requires Consistent(t) && !Sufficient(t, tid, pid, ReadWrite)
    ensures var (t', r) := Acquire(t, tid, pid, ReadWrite);
            (r == Granted <==> |Holders(t.writers, pid)| == 0 &&
                               (|Holders(t.readers, pid)| == 0 || Holders(t.readers, pid) == [tid])) &&
            (r == Granted ==> Holders(t'.writers, pid) == [tid] && Holders(t'.readers, pid) == [])
  {
    var rd := Holders(t.readers, pid);
    if |rd| == 1 {
      assert tid in rd <==> rd == [tid];
    }
  }

  /** Whatever acquireLock answers without waiting, tid then holds a lock strong enough for perm. */
  lemma {:induction false} AcquireProvides(t: LockTable, tid: TransactionId, pid: PageId, perm: Permissions)
    requires Acquire(t, tid, pid, perm).1 != Blocked
    ensures Sufficient(Acquire(t, tid, pid, perm).0, tid, pid, perm)
  {
  }

  /** acquireLock keeps the table consistent: one writer at most, never beside a reader. */
  lemma {:induction false} AcquireKeeps(t: LockTable, tid: TransactionId, pid: PageId, perm: Permissions)
    requires Consistent(t)
    ensures Consistent(Acquire(t, tid, pid, perm).0)
  {
    var t' := Acquire(t, tid, pid, perm).0;
    var rd := Holders(t.readers, pid);
    if Acquire(t, tid, pid, perm).1 == Granted {
      if perm == ReadOnly {
        assert tid !in rd;
        UniqueAppend(rd, tid);
      } else if tid in rd {
        RemoveFirstUnique(rd, tid);
        assert Holders(t'.readers, pid) == [];
      }
    }
  }

  lemma {:induction false} UniqueAppend(s: seq<TransactionId>, x: TransactionId)
    requires Unique(s) && x !in s
    ensures Unique(s + [x])
  {
    if |s| > 0 {
      UniqueAppend(s[1..], x);
      assert (s + [x])[1..] == s[1..] + [x];
    }
  }

  /** Drops tid from the page's list when it is listed there; every other list is kept. */
  function Drop(m: LockMap, pid: PageId, tid: TransactionId): (r: LockMap)
    ensures r.Keys == m.Keys
    ensures forall p :: p != pid ==> Holders(r, p) == Holders(m, p)
    ensures Holders(r, pid) == RemoveFirst(Holders(m, pid), tid)
  {
    if pid in m && tid in m[pid] then m[pid := RemoveFirst(m[pid], tid)] else m
  }

  /**
   * releaseLock(tid, pid): a TransactionAbortedException when tid holds no lock
   * on pid; otherwise tid leaves the page's reader and writer lists.
   */
  function Release(t: LockTable, tid: TransactionId, pid: PageId): (r: Result<LockTable>)
  {
    if !HoldsLock(t, tid, pid) then Err(TransactionAbortedException)
    else Ok(LockTable(Drop(t.readers, pid, tid), Drop(t.writers, pid, tid)))
  }

  /**
   * After a release tid holds nothing on pid, every other transaction keeps
   * exactly its locks, and the table stays consistent.
   */
  lemma {:induction false} ReleaseFrees(t: LockTable, tid: TransactionId, pid: PageId)
    requires Consistent(t)
    ensures Release(t, tid, pid).Err? <==> !HoldsLock(t, tid, pid)
    ensures Release(t, tid, pid).Ok? ==>
            var t' := Release(t, tid, pid).value;
            Consistent(t') && !HoldsLock(t', tid, pid) &&
            (forall p :: p != pid ==> Holders(t'.readers, p) == Holders(t.readers, p) && Holders(t'.writers, p) == Holders(t.writers, p)) &&
            (forall u :: u != tid ==> (u in Holders(t'.readers, pid) <==> u in Holders(t.readers, pid)) &&
                                      (u in Holders(t'.writers, pid) <==> u in Holders(t.writers, pid)))
  {
    if HoldsLock(t, tid, pid) {
      var t' := Release(t, tid, pid).value;
      var rd, wr := Holders(t.readers, pid), Holders(t.writers, pid);
      RemoveFirstUnique(rd, tid);
      RemoveFirstUnique(wr, tid);
      assert Holders(t'.readers, pid) == RemoveFirst(rd, tid);
      assert Holders(t'.writers, pid) == RemoveFirst(wr, tid);
    }
  }

  /** Every list of a map with tid taken out once. */
  function Without(m: LockMap, tid: TransactionId): (r: LockMap)
    ensures r.Keys == m.Keys
  {
    map p | p in m :: RemoveFirst(m[p], tid)
  }

  /** The lists of the pages in done with tid taken out once, the others as they were. */
  function WithoutOn(m: LockMap, tid: TransactionId, done: set<PageId>): (r: LockMap)
    ensures r.Keys == m.Keys
  {
    map p | p in m :: if p in done then RemoveFirst(m[p], tid) else m[p]
  }

  /**
   * Taking tid out of one more page's list: the map as it stands with that
   * list replaced. When tid is not listed the list is already the same.
   */
  lemma {:induction false} WithoutOnStep(m: LockMap, tid: TransactionId, done: set<PageId>, pid: PageId)
    requires pid in m && pid !in done
    ensures WithoutOn(m, tid, done)[pid] == m[pid]
    ensures WithoutOn(m, tid, done + {pid}) == WithoutOn(m, tid, done)[pid := RemoveFirst(m[pid], tid)]
    ensures Drop(WithoutOn(m, tid, done), pid, tid) == WithoutOn(m, tid, done + {pid})
  {
  }

  lemma {:induction false} WithoutOnAll(m: LockMap, tid: TransactionId)
    ensures WithoutOn(m, tid, m.Keys) == Without(m, tid)
  {
  }

  /** releaseLock(tid) on a consistent table: tid leaves every list. */
  function ReleaseAll(t: LockTable, tid: TransactionId): LockTable
  {
    LockTable(Without(t.readers, tid), Without(t.writers, tid))
  }

  /** After releaseLock(tid), tid holds no lock anywhere, and every other transaction keeps its locks. */
  lemma {:induction false} ReleaseAllFrees(t: LockTable, tid: TransactionId)
    requires Consistent(t)
    ensures Consistent(ReleaseAll(t, tid))
    ensures forall p :: !HoldsLock(ReleaseAll(t, tid), tid, p)
    ensures forall p, u :: u != tid ==> (HoldsLock(ReleaseAll(t, tid), u, p) <==> HoldsLock(t, u, p))
  {
    forall p {
      ReleaseAllAt(t, tid, p);
    }
  }

  /** The lists releaseLock(tid) leaves on one page: tid taken out of both, the rest kept, none longer. */
  lemma {:induction false} ReleaseAllAt(t: LockTable, tid: TransactionId, p: PageId)
    requires Consistent(t)
    ensures var t' := ReleaseAll(t, tid);
            Unique(Holders(t'.readers, p)) && Unique(Holders(t'.writers, p)) &&
            |Holders(t'.writers, p)| <= |Holders(t.writers, p)| && |Holders(t'.readers, p)| <= |Holders(t.readers, p)| &&
            (p in t'.readers <==> p in t.readers) && (p in t'.writers <==> p in t.writers) &&
            (forall y :: y in Holders(t'.readers, p) <==> y in Holders(t.readers, p) && y != tid) &&
            (forall y :: y in Holders(t'.writers, p) <==> y in Holders(t.writers, p) && y != tid)
  {
    if p in t.readers { RemoveFirstUnique(t.readers[p], tid); }
    if p in t.writers { RemoveFirstUnique(t.writers[p], tid); }
  }

  class TxLockManager {
    var readers: LockMap
    var writers: LockMap

    ghost function Table(): LockTable
      reads this
    {
      LockTable(readers, writers)
    }

    constructor ()
      ensures readers == map[] && writers == map[] && Consistent(Table())
    {
      readers := map[];
      writers := map[];
    }

    /** hasHoldsLock. */
    function HasHoldsLock(tid: TransactionId, p: PageId): (r: bool)
      reads this
      ensures r <==> tid in Holders(writers, p) || tid in Holders(readers, p)
    {
      (p in writers && tid in writers[p]) || (p in readers && tid in readers[p])
    }

    /** acquireLock: the decision Acquire describes, applied to both maps. */
    method AcquireLock(tid: TransactionId, pid: PageId, perm: Permissions) returns (r: LockResult)
      modifies this
      ensures (Table(), r) == Acquire(old(Table()), tid, pid, perm)
    {
      if (perm == ReadOnly && pid in readers && tid in readers[pid]) ||
         (perm == ReadWrite && pid in writers && tid in writers[pid]) ||
         (perm == ReadOnly && pid in writers && tid in writers[pid]) {
        return AlreadyHeld;
      }
      if perm == ReadOnly {
        if pid in writers && |writers[pid]| > 0 {
          return Blocked;
        }
        readers := AddHolder(readers, pid, tid);
        return Granted;
      }
      if !(pid in writers) || |writers[pid]| == 0 {
        if pid in readers && tid in readers[pid] && |readers[pid]| == 1 {
          readers := readers[pid := RemoveFirst(readers[pid], tid)];
          writers := AddHolder(writers, pid, tid);
          return Granted;
        }
      }
      if (pid in writers && |writers[pid]| > 0) || (pid in readers && |readers[pid]| > 0) {
        return Blocked;
      }
      writers := AddHolder(writers, pid, tid);
      r := Granted;
    }

    /** releaseLock(tid, pid). */
    method ReleaseLock(tid: TransactionId, pid: PageId) returns (r: Outcome)
      modifies this
      ensures var e := Release(old(Table()), tid, pid);
              if e.Ok? then r == Done && Table() == e.value
              else r == Fail(e.error) && Table() == old(Table())
    {
      if !HasHoldsLock(tid, pid) {
        return Fail(TransactionAbortedException);
      }
      if pid in readers && tid in readers[pid] {
        readers := readers[pid := RemoveFirst(readers[pid], tid)];
      }
      if pid in writers && tid in writers[pid] {
        writers := writers[pid := RemoveFirst(writers[pid], tid)];
      }
      r := Done;
    }

    /**
     * releaseLock(tid): releases tid's lock on every page whose writers list
     * it, then on every page whose readers still list it.
     */
    method ReleaseAllLocks(tid: TransactionId)
      requires Consistent(Table())
      modifies this
      ensures Table() == ReleaseAll(old(Table()), tid)
    {
      ghost var t0 := Table();
      forall p | p in writers
        ensures tid !in Without(writers, tid)[p]
      {
        RemoveFirstUnique(writers[p], tid);
      }
      ReleaseWriteLocks(tid);
      ReleaseReadLocks(tid);
    }

    /** The first loop of releaseLock(tid): the pages tid writes. */
    method ReleaseWriteLocks(tid: TransactionId)
      requires forall p :: p in writers && tid in writers[p] ==> |Holders(readers, p)| == 0
      modifies this
      ensures readers == old(readers) && writers == Without(old(writers), tid)
    {
      ghost var w0 := writers;
      var keys := writers.Keys;
      while keys != {}
        decreases |keys|
        invariant keys <= w0.Keys
        invariant readers == old(readers)
        invariant writers == WithoutOn(w0, tid, w0.Keys - keys)
      {
        var pid :| pid in keys;
        ghost var done := w0.Keys - keys;
        WithoutOnStep(w0, tid, done, pid);
        if tid in writers[pid] {
          var _ := ReleaseLock(tid, pid);
        }
        keys := keys - {pid};
        assert w0.Keys - keys == done + {pid};
      }
      WithoutOnAll(w0, tid);
    }

    /** The second loop of releaseLock(tid): the pages tid still reads. */
    method ReleaseReadLocks(tid: TransactionId)
      requires forall p :: p in writers ==> tid !in writers[p]
      modifies this
      ensures writers == old(writers) && readers == Without(old(readers), tid)
    {
      ghost var r0 := readers;
      var keys := readers.Keys;
      while keys != {}
        decreases |keys|
        invariant keys <= r0.Keys
        invariant writers == old(writers)
        invariant readers == WithoutOn(r0, tid, r0.Keys - keys)
      {
        var pid :| pid in keys;
        ghost var done := r0.Keys - keys;
        WithoutOnStep(r0, tid, done, pid);
        if tid in readers[pid] {
          var _ := ReleaseLock(tid, pid);
        }
        keys := keys - {pid};
        assert r0.Keys - keys == done + {pid};
      }
      WithoutOnAll(r0, tid);
    }
  }
}
