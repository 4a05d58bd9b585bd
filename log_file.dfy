/**
 * LogFile: the write-ahead log. The file is its header (the offset of the
 * last checkpoint record, or -1) and its records in order; the class keeps
 * them decoded (LogRecords gives their bytes), with the append offset, the
 * record counter, whether recovery is still undecided and
 * tidToFirstLogRecord. Rollback and recovery write pages through the buffer
 * pool's database files.
 */
module WriteAheadLog {
  import opened Wrappers
  import opened JavaInts
  import opened Ids
  import opened Disks
  import opened BufferPools
  import opened LogLayout
  import opened LogRecords
  import opened LogRecovery

  /** The header and records preAppend leaves: a log whose recovery is undecided is thrown away first. */
  function Prepared(undecided: bool, header: Option<int>, recs: seq<LogRecord>): (Option<int>, seq<LogRecord>)
  {
    if undecided then (Some(NO_CHECKPOINT_ID as int), []) else (header, recs)
  }

  /** The log logCheckpoint writes: the CHECKPOINT record with list xs appended at the end of rs. */
  function CheckpointLog(rs: seq<LogRecord>, xs: seq<Outstanding>): (log: seq<LogRecord>)
    ensures |log| == |rs| + 1 && log[..|rs|] == rs && log[|rs|].CheckpointRecord?
  {
    rs + [CheckpointRecord(xs, End(HEADER_SIZE, rs))]
  }

  /** The truncation logCheckpoint ends with, the header pointing at the new checkpoint. */
  function CheckpointTruncation(rs: seq<LogRecord>, xs: seq<Outstanding>, m: FirstRecords): Result<Truncation>
  {
    Truncate(Some(End(HEADER_SIZE, rs)), CheckpointLog(rs, xs), m)
  }

  /** Two preAppend calls count two records. */
  /** totalRecords after k more calls of preAppend: the int counter wraps around. */
  function Counted(n: int32, k: nat): int32
  {
    Wrap32(n as int + k)
  }

  /** Counting k records and then one more counts k + 1. */
  lemma {:induction false} CountOneMore(n: int32, k: nat, once: int32, twice: int32)
    requires once == Counted(n, k) && twice == Counted(once, 1)
    ensures twice == Counted(n, k + 1)
  {
    Wrap32Add(n as int + k, 1);
  }

  /** Writing a page the pool does not cache keeps every clean cached page equal to its file image. */
  lemma {:induction false} WriteUncached(pm: PageMap, disk: map<PageId, Image>, pageSize: nat, pid: PageId, image: Image)
    requires CleanOnDisk(pm, disk, pageSize) && pid !in pm
    ensures CleanOnDisk(pm, disk[pid := image], pageSize)
  {
    forall p | p in pm && Clean(pm[p]) ensures pm[p].image == ReadImage(disk[pid := image], pageSize, p) {
      assert p != pid;
    }
  }

  /**
   * The undo loop's bookkeeping: the transactions rolled back so far, in
   * order and each once, are exactly the keys no longer waiting.
   */
  predicate Progress(m: FirstRecords, keys: set<int64>, order: seq<int64>)
  {
    keys <= m.Keys && Distinct(order) &&
    (forall i :: 0 <= i < |order| ==> order[i] in m && order[i] !in keys) &&
    (forall t :: t in m && t !in keys ==> t in order)
  }

  /** Rolling back one more waiting transaction keeps the bookkeeping. */
  lemma {:induction false} ProgressNext(m: FirstRecords, keys: set<int64>, order: seq<int64>, t: int64)
    requires Progress(m, keys, order) && t in keys
    ensures Progress(m, keys - {t}, order + [t])
  {
    assert t !in order;
    DistinctAppend(order, t);
    var o := order + [t];
    assert forall i :: 0 <= i < |order| ==> o[i] == order[i];
  }

  class LogFile {
    var header: Option<int>
    var records: seq<LogRecord>
    var currentOffset: int
    var totalRecords: int32
    var recoveryUndecided: bool
    var firstRecords: FirstRecords
    const pool: BufferPool

    /** Once decided, the log has a header and currentOffset is the end of the file. */
    ghost predicate Valid()
      reads this
    {
      !recoveryUndecided ==> header.Some? && currentOffset == End(HEADER_SIZE, records)
    }

    /** Every record holds its own start offset. */
    ghost predicate WellFormed()
      reads this
    {
      !recoveryUndecided ==> Aligned(HEADER_SIZE, records)
    }

    /** LogFile(f) over a file holding header and records; nothing is read or decided yet. */
    constructor (header: Option<int>, records: seq<LogRecord>, pool: BufferPool)
      ensures this.header == header && this.records == records && this.pool == pool
      ensures currentOffset == -1 && totalRecords == 0 && recoveryUndecided && firstRecords == map[]
      ensures Valid() && WellFormed()
    {
      this.header := header;
      this.records := records;
      this.pool := pool;
      currentOffset := -1;
      totalRecords := 0;
      recoveryUndecided := true;
      firstRecords := map[];
    }

    /** preAppend: counts the record and, while recovery is undecided, truncates the log to a bare header. */
    method PreAppend()
      requires Valid()
      modifies this
      ensures Valid() && !recoveryUndecided
      ensures (header, records) == Prepared(old(recoveryUndecided), old(header), old(records))
      ensures totalRecords == Counted(old(totalRecords), 1) && firstRecords == old(firstRecords)
      ensures old(WellFormed()) ==> WellFormed()
    {
      totalRecords := Wrap32(totalRecords as int + 1);
      if recoveryUndecided {
        recoveryUndecided := false;
        header := Some(NO_CHECKPOINT_ID as int);
        records := [];
        currentOffset := HEADER_SIZE;
      }
    }

    /** Writes r at currentOffset and moves currentOffset past it. */
    method Append(r: LogRecord)
      requires Valid() && !recoveryUndecided && r.start == currentOffset
      modifies this
      ensures Valid() && !recoveryUndecided
      ensures records == old(records) + [r] && currentOffset == old(currentOffset) + RecordSize(r)
      ensures header == old(header) && firstRecords == old(firstRecords) && totalRecords == old(totalRecords)
      ensures old(WellFormed()) ==> WellFormed()
    {
      if WellFormed() {
        AlignedAppend(HEADER_SIZE, records, r);
      }
      SizeAppend(records, [r]);
      assert [r][1..] == [];
      records := records + [r];
      currentOffset := currentOffset + RecordSize(r);
    }

    /**
     * logXactionBegin: a transaction already in tidToFirstLogRecord is an
     * IOException and changes nothing; otherwise a BEGIN record is appended
     * and the map points at it.
     */
    method LogXactionBegin(tid: TransactionId) returns (r: Outcome)
      requires Valid()
      modifies this
      ensures Valid()
      ensures r.Fail? <==> tid.id in old(firstRecords)
      ensures r.Fail? ==> (r.error == IOException && header == old(header) && records == old(records) &&
        firstRecords == old(firstRecords) && totalRecords == old(totalRecords) &&
        recoveryUndecided == old(recoveryUndecided) && currentOffset == old(currentOffset))
      ensures r.Done? ==> (var rs := Prepared(old(recoveryUndecided), old(header), old(records)).1;
        header == Prepared(old(recoveryUndecided), old(header), old(records)).0 &&
        records == rs + [BeginRecord(tid.id, End(HEADER_SIZE, rs))] &&
        firstRecords == old(firstRecords)[tid.id := End(HEADER_SIZE, rs)] &&
        totalRecords == Counted(old(totalRecords), 1))
      ensures r.Done? ==> RollbackStart(HEADER_SIZE, records, firstRecords, tid.id) == Ok(|records| - 1)
      ensures old(WellFormed()) ==> WellFormed()
    {
      if tid.id in firstRecords {
        return Fail(IOException);
      }
      PreAppend();
      ghost var rs := records;
      var start := currentOffset;
      Append(BeginRecord(tid.id, start));
      firstRecords := firstRecords[tid.id := start];
      BeginAfterRecover(rs, old(firstRecords), tid.id);
      r := Done;
    }

    /** logCommit: a COMMIT record, and the transaction leaves tidToFirstLogRecord. */
    method LogCommit(tid: TransactionId)
      requires Valid()
      modifies this
      ensures Valid() && !recoveryUndecided
      ensures var rs := Prepared(old(recoveryUndecided), old(header), old(records)).1;
        header == Prepared(old(recoveryUndecided), old(header), old(records)).0 &&
        records == rs + [CommitRecord(tid.id, End(HEADER_SIZE, rs))] &&
        firstRecords == old(firstRecords) - {tid.id} &&
        totalRecords == Counted(old(totalRecords), 1)
      ensures old(WellFormed()) ==> WellFormed()
    {
      PreAppend();
      Append(CommitRecord(tid.id, currentOffset));
      firstRecords := firstRecords - {tid.id};
    }

    /** logWrite: an UPDATE record with the page's before- and after-image. */
    method LogWrite(tid: TransactionId, before: PageImage, after: PageImage)
      requires Valid()
      modifies this
      ensures Valid() && !recoveryUndecided
      ensures var rs := Prepared(old(recoveryUndecided), old(header), old(records)).1;
        header == Prepared(old(recoveryUndecided), old(header), old(records)).0 &&
        records == rs + [UpdateRecord(tid.id, before, after, End(HEADER_SIZE, rs))] &&
        firstRecords == old(firstRecords) &&
        totalRecords == Counted(old(totalRecords), 1)
      ensures old(WellFormed()) ==> WellFormed()
    {
      PreAppend();
      Append(UpdateRecord(tid.id, before, after, currentOffset));
    }

    /**
     * rollback(tid): tid must have a first record (NoSuchElementException)
     * that is a BEGIN (IOException); then every page tid updated after it is
     * written back with its earliest before-image and dropped from the pool.
     */
    method Rollback(tid: int64) returns (r: Outcome)
      requires Valid() && pool.Valid()
      modifies this, pool, pool.disk
      ensures Valid() && pool.Valid() && !recoveryUndecided
      ensures (header, records) == Prepared(old(recoveryUndecided), old(header), old(records))
      ensures firstRecords == old(firstRecords) && totalRecords == Counted(old(totalRecords), 1)
      ensures var p := RollbackPages(old(pool.disk.pages), records, firstRecords, tid);
        (r.Fail? <==> p.Err?) && (r.Fail? ==> r.error == p.error && pool.disk.pages == old(pool.disk.pages)) &&
        (r.Done? ==> pool.disk.pages == p.value)
      ensures var gone := RollbackTouched(records, firstRecords, tid);
        pool.pageMap == old(pool.pageMap) - gone && pool.lruMap == old(pool.lruMap) - gone
      ensures old(WellFormed()) ==> WellFormed()
    {
      PreAppend();
      var start := RollbackStart(HEADER_SIZE, records, firstRecords, tid);
      if start.Err? {
        return Fail(start.error);
      }
      UndoFrom(start.value + 1, tid);
      UndoSeen(UndoState(old(pool.disk.pages), {}), records[start.value + 1..], tid);
      r := Done;
    }

    /** The scan of rollback after the BEGIN: the first update of each page by tid restores its before-image. */
    method UndoFrom(from: nat, tid: int64)
      requires from <= |records| && pool.Valid()
      modifies pool, pool.disk
      ensures pool.Valid()
      ensures var u := Undo(UndoState(old(pool.disk.pages), {}), records[from..], tid);
        pool.disk.pages == u.pages && pool.pageMap == old(pool.pageMap) - u.seen &&
        pool.lruMap == old(pool.lruMap) - u.seen
    {
      ghost var d0, pm0, lm0 := pool.disk.pages, pool.pageMap, pool.lruMap;
      var seen: set<PageId> := {};
      var i := from;
      while i < |records|
        invariant from <= i <= |records| && pool.Valid()
        invariant UndoState(pool.disk.pages, seen) == Undo(UndoState(d0, {}), records[from..i], tid)
        invariant pool.pageMap == pm0 - seen && pool.lruMap == lm0 - seen
      {
        var rec := records[i];
        if rec.UpdateRecord? && rec.tid == tid && rec.before.id !in seen {
          seen := seen + {rec.before.id};
          RestorePage(rec.before.id, rec.before.data);
        }
        UndoNext(UndoState(d0, {}), records, from, i, tid);
        i := i + 1;
      }
      assert records[from..i] == records[from..];
    }

    /**
     * writePage(before) on the page's file and removePage(pid) on the pool.
     * The two touch disjoint state; dropping the page first keeps the pool's
     * clean pages equal to their files throughout.
     */
    method RestorePage(pid: PageId, image: Image)
      requires pool.Valid()
      modifies pool, pool.disk
      ensures pool.Valid()
      ensures pool.disk.pages == old(pool.disk.pages)[pid := image]
      ensures pool.pageMap == old(pool.pageMap) - {pid} && pool.lruMap == old(pool.lruMap) - {pid}
    {
      pool.RemovePage(pid);
      WriteUncached(pool.pageMap, pool.disk.pages, pool.disk.pageSize, pid, image);
      pool.disk.WritePage(pid, image);
    }

    /**
     * logAbort: the transaction is rolled back, then an ABORT record is
     * appended and it leaves tidToFirstLogRecord; a failed rollback writes no
     * ABORT record.
     */
    method LogAbort(tid: TransactionId) returns (r: Outcome)
      requires Valid() && pool.Valid()
      modifies this, pool, pool.disk
      ensures Valid() && pool.Valid()
      ensures var rs := Prepared(old(recoveryUndecided), old(header), old(records)).1;
        var p := RollbackPages(old(pool.disk.pages), rs, old(firstRecords), tid.id);
        header == Prepared(old(recoveryUndecided), old(header), old(records)).0 &&
        totalRecords == Counted(old(totalRecords), 2) &&
        (r.Fail? <==> p.Err?) &&
        (r.Fail? ==> (r.error == p.error && records == rs && firstRecords == old(firstRecords) &&
          pool.disk.pages == old(pool.disk.pages))) &&
        (r.Done? ==> (records == rs + [AbortRecord(tid.id, End(HEADER_SIZE, rs))] &&
          firstRecords == old(firstRecords) - {tid.id} && pool.disk.pages == p.value))
      ensures var gone := RollbackTouched(Prepared(old(recoveryUndecided), old(header), old(records)).1,
          old(firstRecords), tid.id);
        pool.pageMap == old(pool.pageMap) - gone && pool.lruMap == old(pool.lruMap) - gone
      ensures old(WellFormed()) ==> WellFormed()
    {
      PreAppend();
      ghost var n1 := totalRecords;
      r := Rollback(tid.id);
      CountOneMore(old(totalRecords), 1, n1, totalRecords);
      if r.Fail? {
        return;
      }
      Append(AbortRecord(tid.id, currentOffset));
      firstRecords := firstRecords - {tid.id};
    }

    /** The keys of tidToFirstLogRecord with their first records, in the order the key set yields them. */
    method Outstandings() returns (xs: seq<Outstanding>)
      ensures Listed(xs, firstRecords)
    {
      var keys := firstRecords.Keys;
      xs := [];
      while keys != {}
        invariant keys <= firstRecords.Keys
        invariant forall i :: 0 <= i < |xs| ==>
          xs[i].tid in firstRecords && xs[i].tid !in keys && xs[i].first == firstRecords[xs[i].tid]
        invariant forall i, j :: 0 <= i < j < |xs| ==> xs[i].tid != xs[j].tid
        invariant forall t :: t in firstRecords ==> t in keys || exists i :: 0 <= i < |xs| && xs[i].tid == t
        decreases keys
      {
        var t :| t in keys;
        ghost var before := xs;
        xs := xs + [Outstanding(t, firstRecords[t])];
        keys := keys - {t};
        assert forall i :: 0 <= i < |before| ==> xs[i] == before[i];
        assert xs[|xs| - 1].tid == t;
      }
    }

    /**
     * logCheckpoint: every dirty page is flushed, a CHECKPOINT record listing
     * the live transactions is appended, the header points at it, and the log
     * is truncated (with the corrected map of LogTruncate).
     */
    method LogCheckpoint() returns (r: Outcome, xs: seq<Outstanding>)
      requires Valid() && pool.Valid()
      modifies this, pool, pool.disk, pool.locks
      ensures Valid() && pool.Valid()
      ensures Listed(xs, old(firstRecords))
      ensures totalRecords == Counted(old(totalRecords), 2)
      ensures var rs := Prepared(old(recoveryUndecided), old(header), old(records)).1;
        var t := CheckpointTruncation(rs, xs, old(firstRecords));
        (r.Fail? <==> t.Err?) &&
        (r.Fail? ==> (r.error == t.error && header == Some(End(HEADER_SIZE, rs)) &&
          records == CheckpointLog(rs, xs) && firstRecords == old(firstRecords))) &&
        (r.Done? ==> header == Some(t.value.header) && records == t.value.records && firstRecords == t.value.first)
      ensures pool.pageMap == Cleaned(old(pool.pageMap), Dirty(old(pool.pageMap)))
      ensures pool.disk.pages == Stored(old(pool.disk.pages), old(pool.pageMap), Dirty(old(pool.pageMap)))
      ensures pool.locks.Table() == UnlockDirtiers(old(pool.locks.Table()), old(pool.pageMap), Dirty(old(pool.pageMap)))
      ensures pool.lruMap == old(pool.lruMap)
      ensures old(WellFormed()) ==> WellFormed()
    {
      ghost var pm0, d0 := pool.pageMap, pool.disk.pages;
      PreAppend();
      ghost var rs := records;
      ghost var n1 := totalRecords;
      assert rs == Prepared(old(recoveryUndecided), old(header), old(records)).1;
      xs := Outstandings();
      pool.FlushAllPages();
      assert pool.pageMap == Cleaned(pm0, Dirty(pm0)) && pool.disk.pages == Stored(d0, pm0, Dirty(pm0)) && pool.Valid();
      r := CheckpointAndTruncate(xs);
      CountOneMore(old(totalRecords), 1, n1, totalRecords);
    }

    /** The part of logCheckpoint after the flush: the CHECKPOINT record, then logTruncate. */
    method CheckpointAndTruncate(xs: seq<Outstanding>) returns (r: Outcome)
      requires Valid() && !recoveryUndecided
      modifies this
      ensures Valid() && !recoveryUndecided
      ensures totalRecords == Counted(old(totalRecords), 1)
      ensures var t := CheckpointTruncation(old(records), xs, old(firstRecords));
        (r.Fail? <==> t.Err?) &&
        (r.Fail? ==> (r.error == t.error && header == Some(End(HEADER_SIZE, old(records))) &&
          records == CheckpointLog(old(records), xs) && firstRecords == old(firstRecords))) &&
        (r.Done? ==> header == Some(t.value.header) && records == t.value.records && firstRecords == t.value.first)
      ensures old(WellFormed()) ==> WellFormed()
    {
      WriteCheckpoint(xs);
      r := LogTruncate();
    }

    /** The CHECKPOINT record appended at currentOffset and the header pointed at it. */
    method WriteCheckpoint(xs: seq<Outstanding>)
      requires Valid() && !recoveryUndecided
      modifies this
      ensures Valid() && !recoveryUndecided
      ensures header == Some(End(HEADER_SIZE, old(records))) && records == CheckpointLog(old(records), xs)
      ensures Truncate(header, records, firstRecords) == CheckpointTruncation(old(records), xs, firstRecords)
      ensures firstRecords == old(firstRecords) && totalRecords == old(totalRecords)
      ensures old(WellFormed()) ==> WellFormed()
    {
      var start := currentOffset;
      Append(CheckpointRecord(xs, start));
      header := Some(start);
    }

    /**
     * logTruncate: the records from minLogRecord on are copied to the front
     * of a new file with every offset relocated, and tidToFirstLogRecord
     * re-points live transactions at their copied BEGIN records. The map is
     * the corrected LogRecovery.TruncMap; the source's copy loop puts every
     * copied BEGIN (LogRecovery.TruncMapAsWritten).
     */
    method LogTruncate() returns (r: Outcome)
      requires Valid()
      modifies this
      ensures Valid() && !recoveryUndecided
      ensures totalRecords == Counted(old(totalRecords), 1)
      ensures var p := Prepared(old(recoveryUndecided), old(header), old(records));
        var t := Truncate(p.0, p.1, old(firstRecords));
        (r.Fail? <==> t.Err?) &&
        (r.Fail? ==> (r.error == t.error && header == p.0 && records == p.1 && firstRecords == old(firstRecords))) &&
        (r.Done? ==> header == Some(t.value.header) && records == t.value.records && firstRecords == t.value.first)
      ensures r.Done? ==> WellFormed()
      ensures r.Fail? && old(WellFormed()) ==> WellFormed()
    {
      PreAppend();
      ghost var h1, recs1, m1 := header, records, firstRecords;
      ghost var t := Truncate(h1, recs1, m1);
      var cut := FindCut();
      if cut.Err? {
        assert t == Err(cut.error);
        return Fail(cut.error);
      }
      var c := cut.value;
      var out, m, pos := CopyRecords(records[c.k..], c.min, firstRecords);
      CopyAligned(records[c.k..], c.min, HEADER_SIZE);
      assert t == Ok(Truncation(Relocate(h1.value, c.min), out, m));
      header := Some(Relocate(header.value, c.min));
      records := out;
      firstRecords := m;
      currentOffset := pos;
      r := Done;
    }

    /** The reads of logTruncate before the copy: the checkpoint, its list and minLogRecord. */
    method FindCut() returns (r: Result<Cut>)
      requires Valid() && !recoveryUndecided
      ensures r == TruncationCut(header, records)
    {
      var cp := header.value;
      if cp == NO_CHECKPOINT_ID as int {
        return Err(IOException);
      }
      var at := PointerAt(HEADER_SIZE, records, cp);
      if at.Err? {
        return Err(at.error);
      }
      var c := at.value;
      if !records[c].CheckpointRecord? {
        return Err(RuntimeException);
      }
      var min := MinLogRecord(cp, records[c].outstanding);
      if min < 0 {
        return Err(IOException);
      }
      var k := IndexAt(HEADER_SIZE, records, min);
      if k.None? {
        return Err(IOException);
      }
      r := Ok(Cut(c, k.value, min));
    }

    /** The loop over the checkpoint's list that finds minLogRecord. */
    static method MinLogRecord(cp: int, xs: seq<Outstanding>) returns (min: int)
      ensures min == MinFirst(cp, xs)
    {
      min := cp;
      var i := 0;
      while i < |xs|
        invariant i <= |xs| && min == MinFirst(cp, xs[..i])
      {
        assert xs[..i + 1][..i] == xs[..i];
        if xs[i].first < min {
          min := xs[i].first;
        }
        i := i + 1;
      }
      assert xs[..i] == xs;
    }

    /** The copy loop of logTruncate, writing the new file from offset LONG_SIZE; a copied BEGIN re-points only a live transaction (corrected). */
    static method CopyRecords(src: seq<LogRecord>, min: int, m: FirstRecords)
      returns (out: seq<LogRecord>, m': FirstRecords, pos: int)
      ensures out == Copy(src, min, HEADER_SIZE) && m' == TruncMap(m, out) && pos == End(HEADER_SIZE, out)
    {
      out, m', pos := [], m, HEADER_SIZE;
      var j := 0;
      while j < |src|
        invariant j <= |src| && out == Copy(src[..j], min, HEADER_SIZE) && m' == TruncMap(m, out)
        invariant pos == HEADER_SIZE + Size(src[..j])
      {
        var rec := src[j];
        var moved := MoveRecord(rec, min, pos);
        CopyNext(src, min, HEADER_SIZE, j);
        TruncMapNext(m, out, moved);
        ghost var copied := Copy(src[..j + 1], min, HEADER_SIZE);
        out := out + [moved];
        assert out == copied;
        if moved.BeginRecord? && moved.tid in m' {
          m' := m'[moved.tid := pos];
        }
        pos := pos + RecordSize(rec);
        j := j + 1;
      }
      assert src[..j] == src;
      CopySize(src, min, HEADER_SIZE);
    }

    /** One record of the copy, written at pos: a checkpoint's entries are relocated, any other record keeps its payload. */
    static method MoveRecord(rec: LogRecord, min: int, pos: int) returns (moved: LogRecord)
      ensures moved == Moved(rec, min, pos)
    {
      if rec.CheckpointRecord? {
        var ys := RelocateEntries(rec.outstanding, min);
        moved := CheckpointRecord(ys, pos);
      } else {
        moved := Moved(rec, min, pos);
      }
    }

    /** The inner loop of the copy: each listed first record relocated. */
    static method RelocateEntries(xs: seq<Outstanding>, min: int) returns (ys: seq<Outstanding>)
      ensures ys == RelocateAll(xs, min)
    {
      ys := [];
      var i := 0;
      while i < |xs|
        invariant i <= |xs| && |ys| == i
        invariant forall j :: 0 <= j < i ==> ys[j] == Outstanding(xs[j].tid, Relocate(xs[j].first, min))
      {
        ys := ys + [Outstanding(xs[i].tid, xs[i].first - min + LONG_SIZE)];
        i := i + 1;
      }
    }

    /**
     * recover: the losers are found from the checkpoint pointer, each is
     * rolled back in the order the key set of tidToFirstLogRecord yields
     * them (order), and the updates of every other transaction are redone
     * from the start of the log. The log itself is kept and appends resume
     * at its end.
     */
    method Recover() returns (r: Outcome, ghost order: seq<int64>)
      requires Valid() && pool.Valid()
      modifies this, pool, pool.disk
      ensures !recoveryUndecided && header == old(header) && records == old(records)
      ensures totalRecords == Counted(old(totalRecords), |order|)
      ensures old(header).Some? ==> Valid()
      ensures var l := RecoveredLosers(old(header), old(records), old(firstRecords));
        (l.Err? ==> (r == Fail(IOException) && order == [] && firstRecords == old(firstRecords) &&
          pool.disk.pages == old(pool.disk.pages))) &&
        (l.Ok? ==> (firstRecords == l.value && Distinct(order) &&
          (forall i :: 0 <= i < |order| ==> order[i] in l.value)))
      ensures var l := RecoveredLosers(old(header), old(records), old(firstRecords));
        l.Ok? ==> (var u := UndoAll(old(pool.disk.pages), old(records), l.value, order);
          (r.Done? <==> u.Ok?) &&
          (r.Done? ==> ((forall t :: t in l.value ==> t in order) &&
            pool.disk.pages == Redo(u.value, old(records), l.value.Keys))))
      ensures pool.pageMap.Keys <= old(pool.pageMap).Keys
      ensures var l := RecoveredLosers(old(header), old(records), old(firstRecords));
        var gone := if l.Ok? then TouchedAll(old(records), l.value, order) else {};
        pool.pageMap == old(pool.pageMap) - gone && pool.lruMap == old(pool.lruMap) - gone
      ensures old(pool.pageMap) == map[] ==> pool.Valid()
    {
      currentOffset := End(HEADER_SIZE, records);
      recoveryUndecided := false;
      order := [];
      var losers := FindLosers();
      if losers.Err? {
        return Fail(losers.error), [];
      }
      firstRecords := losers.value;
      r, order := UndoLosers();
      if r.Fail? {
        return;
      }
      RedoPages(firstRecords.Keys);
      if old(pool.pageMap) == map[] {
        assert pool.pageMap == map[];
      }
    }

    /**
     * The first half of recover: the map of loser transactions to their first
     * records. On the checkpoint path the records after the checkpoint are
     * scanned too (the corrected path; the source uses the list alone).
     */
    method FindLosers() returns (r: Result<FirstRecords>)
      ensures r == RecoveredLosers(header, records, firstRecords)
    {
      if header.None? {
        return Err(IOException);
      }
      var cp := header.value;
      if cp == NO_CHECKPOINT_ID as int {
        var m := ScanLosers(firstRecords, records, 0);
        assert records[0..] == records;
        return Ok(m);
      }
      var c := IndexAt(HEADER_SIZE, records, cp);
      if c.None? || !records[c.value].CheckpointRecord? {
        return Err(IOException);
      }
      var m := PutEntries(firstRecords, records[c.value].outstanding);
      m := ScanLosers(m, records, c.value + 1);
      r := Ok(m);
    }

    /** The scan with toBuildMap: BEGIN records put, COMMIT records remove. */
    static method ScanLosers(m: FirstRecords, recs: seq<LogRecord>, from: nat) returns (m': FirstRecords)
      requires from <= |recs|
      ensures m' == Losers(m, recs[from..])
    {
      m' := m;
      var i := from;
      while i < |recs|
        invariant from <= i <= |recs| && m' == Losers(m, recs[from..i])
      {
        assert recs[from..i + 1][..i - from] == recs[from..i];
        match recs[i] {
          case BeginRecord(t, start) => m' := m'[t := start];
          case CommitRecord(t, _) => m' := m' - {t};
          case _ =>
        }
        i := i + 1;
      }
      assert recs[from..i] == recs[from..];
    }

    /** The checkpoint's list read into the map. */
    static method PutEntries(m: FirstRecords, xs: seq<Outstanding>) returns (m': FirstRecords)
      ensures m' == PutAll(m, xs)
    {
      m' := m;
      var i := 0;
      while i < |xs|
        invariant i <= |xs| && m' == PutAll(m, xs[..i])
      {
        PutAllLast(m, xs[..i + 1]);
        assert xs[..i + 1][..i] == xs[..i];
        m' := m'[xs[i].tid := xs[i].first];
        i := i + 1;
      }
      assert xs[..i] == xs;
    }

    /** The undo pass of recover: rollback of every key of tidToFirstLogRecord, stopping at the first failure. */
    method UndoLosers() returns (r: Outcome, ghost order: seq<int64>)
      requires Valid() && !recoveryUndecided && pool.Valid()
      modifies this, pool, pool.disk
      ensures Valid() && !recoveryUndecided && pool.Valid()
      ensures header == old(header) && records == old(records) && firstRecords == old(firstRecords)
      ensures totalRecords == Counted(old(totalRecords), |order|)
      ensures Distinct(order) && forall i :: 0 <= i < |order| ==> order[i] in firstRecords
      ensures var u := UndoAll(old(pool.disk.pages), records, firstRecords, order);
        (r.Done? <==> u.Ok?) && (r.Done? ==> pool.disk.pages == u.value)
      ensures r.Done? ==> forall t :: t in firstRecords ==> t in order
      ensures pool.pageMap.Keys <= old(pool.pageMap).Keys
      ensures var gone := TouchedAll(records, firstRecords, order);
        pool.pageMap == old(pool.pageMap) - gone && pool.lruMap == old(pool.lruMap) - gone
    {
      ghost var d0, pm0, lm0 := pool.disk.pages, pool.pageMap, pool.lruMap;
      var keys := firstRecords.Keys;
      order := [];
      r := Done;
      while keys != {}
        invariant Valid() && !recoveryUndecided && pool.Valid()
        invariant header == old(header) && records == old(records) && firstRecords == old(firstRecords)
        invariant Progress(firstRecords, keys, order) && totalRecords == Counted(old(totalRecords), |order|)
        invariant UndoAll(d0, records, firstRecords, order) == Ok(pool.disk.pages)
        invariant pool.pageMap.Keys <= pm0.Keys && r.Done?
        invariant pool.pageMap == pm0 - TouchedAll(records, firstRecords, order)
        invariant pool.lruMap == lm0 - TouchedAll(records, firstRecords, order)
        decreases keys
      {
        var t :| t in keys;
        ghost var n0 := totalRecords;
        ProgressNext(firstRecords, keys, order, t);
        UndoAllNext(d0, records, firstRecords, order, t, pool.disk.pages);
        r := Rollback(t);
        CountOneMore(old(totalRecords), |order|, n0, totalRecords);
        assert (order + [t])[..|order|] == order;
        order := order + [t];
        if r.Fail? {
          return;
        }
        keys := keys - {t};
      }
    }

    /**
     * The redo pass of recover: the after-image of every update by a
     * transaction that is not a loser, over the decoded records, so a
     * CHECKPOINT record is passed over whole (the corrected react).
     */
    method RedoPages(losers: set<int64>)
      modifies pool.disk
      ensures pool.disk.pages == Redo(old(pool.disk.pages), records, losers)
    {
      ghost var d0 := pool.disk.pages;
      var i := 0;
      while i < |records|
        invariant i <= |records| && pool.disk.pages == Redo(d0, records[..i], losers)
      {
        assert records[..i + 1][..i] == records[..i];
        var rec := records[i];
        if rec.UpdateRecord? && rec.tid !in losers {
          pool.disk.WritePage(rec.after.id, rec.after.data);
        }
        i := i + 1;
      }
      assert records[..i] == records;
    }

    /** getTotalRecords. */
    method GetTotalRecords() returns (n: int32)
      ensures n == totalRecords
    {
      n := totalRecords;
    }
  }
}
