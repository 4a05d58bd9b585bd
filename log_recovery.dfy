/**
 * What LogFile's scans compute, as functions of the record sequence: the
 * first-record map that recover builds (the "losers"), the before-images
 * rollback writes back, the after-images the redo pass installs, and the
 * relocation logTruncate applies.
 */
module LogRecovery {
  import opened Wrappers
  import opened JavaInts
  import opened Ids
  import opened Disks
  import opened LogLayout
  import opened LogRecords

  /** tidToFirstLogRecord: each live transaction and the offset of its BEGIN. */
  type FirstRecords = map<int64, int>

  type Pages = map<PageId, Image>

  // ---------------------------------------------------------------- losers

  /** react(type, tid, raf, toBuildMap = true, _): BEGIN puts, COMMIT removes, the rest keep the map. */
  function Step(m: FirstRecords, r: LogRecord): FirstRecords
  {
    match r
    case BeginRecord(t, start) => m[t := start]
    case CommitRecord(t, _) => m - {t}
    case _ => m
  }

  /** The map after scanning recs in log order from m. */
  function Losers(m: FirstRecords, recs: seq<LogRecord>): FirstRecords
  {
    if recs == [] then m else Step(Losers(m, recs[..|recs| - 1]), recs[|recs| - 1])
  }

  /** Scanning a log in two parts is scanning it whole. */
  lemma {:induction false} LosersAppend(m: FirstRecords, a: seq<LogRecord>, b: seq<LogRecord>)
    ensures Losers(m, a + b) == Losers(Losers(m, a), b)
    decreases |b|
  {
    if b == [] {
      assert a + b == a;
    } else {
      var n := |b| - 1;
      assert (a + b)[..|a + b| - 1] == a + b[..n];
      LosersAppend(m, a, b[..n]);
    }
  }

  /** A BEGIN or COMMIT of t: the records the loser scan reacts to for t. */
  predicate Touches(r: LogRecord, t: int64)
  {
    (r.BeginRecord? || r.CommitRecord?) && r.tid == t
  }

  /** The last record that touches t. */
  function LastTouch(recs: seq<LogRecord>, t: int64): (r: Option<nat>)
    ensures r.Some? ==> (r.value < |recs| && Touches(recs[r.value], t) &&
      forall j :: r.value < j < |recs| ==> !Touches(recs[j], t))
    ensures r.None? ==> forall j :: 0 <= j < |recs| ==> !Touches(recs[j], t)
  {
    if recs == [] then None
    else if Touches(recs[|recs| - 1], t) then Some(|recs| - 1)
    else
      var front := recs[..|recs| - 1];
      var r := LastTouch(front, t);
      assert forall j :: 0 <= j < |front| ==> front[j] == recs[j];
      r
  }

  /**
   * t is in the map after the scan iff the last BEGIN/COMMIT of t is a BEGIN,
   * or, when the log never touches t, iff it was in the map before; its
   * offset is that BEGIN's start.
   */
  lemma {:induction false} LosersLastTouch(m: FirstRecords, recs: seq<LogRecord>, t: int64)
    ensures LastTouch(recs, t).None? ==>
      (t in Losers(m, recs) <==> t in m) && (t in m ==> Losers(m, recs)[t] == m[t])
    ensures LastTouch(recs, t).Some? ==> var i := LastTouch(recs, t).value;
      (t in Losers(m, recs) <==> recs[i].BeginRecord?) &&
      (recs[i].BeginRecord? ==> Losers(m, recs)[t] == recs[i].start)
  {
    if recs != [] {
      var n := |recs| - 1;
      var front := recs[..n];
      LosersLastTouch(m, front, t);
      assert forall j :: 0 <= j < |front| ==> front[j] == recs[j];
      if !Touches(recs[n], t) {
        assert LastTouch(recs, t) == LastTouch(front, t);
      }
    }
  }

  /**
   * Recovery without a checkpoint, from an empty map: t is a loser iff the log
   * has a BEGIN of t with no later COMMIT of t. An ABORT does not end it.
   */
  lemma {:induction false} LoserIff(recs: seq<LogRecord>, t: int64)
    ensures t in Losers(map[], recs) <==>
      exists i :: 0 <= i < |recs| && recs[i].BeginRecord? && recs[i].tid == t &&
        forall j :: i < j < |recs| ==> !(recs[j].CommitRecord? && recs[j].tid == t)
  {
    LosersLastTouch(map[], recs, t);
    var last := LastTouch(recs, t);
    if t in Losers(map[], recs) {
      var i := last.value;
      assert forall j :: i < j < |recs| ==> !Touches(recs[j], t);
    }
    if exists i :: 0 <= i < |recs| && recs[i].BeginRecord? && recs[i].tid == t &&
        forall j :: i < j < |recs| ==> !(recs[j].CommitRecord? && recs[j].tid == t) {
      var i :| 0 <= i < |recs| && recs[i].BeginRecord? && recs[i].tid == t &&
        forall j :: i < j < |recs| ==> !(recs[j].CommitRecord? && recs[j].tid == t);
      assert Touches(recs[i], t);
      var k := last.value;
      assert i <= k;
    }
  }

  /** logCheckpoint's list written into a map, later entries last (tidToFirstLogRecord.put). */
  function PutAll(m: FirstRecords, xs: seq<Outstanding>): (r: FirstRecords)
    ensures r.Keys == m.Keys + set i | 0 <= i < |xs| :: xs[i].tid
  {
    if xs == [] then m
    else
      var n := |xs| - 1;
      var r := PutAll(m, xs[..n]);
      assert forall i :: 0 <= i < n ==> xs[..n][i] == xs[i];
      r[xs[n].tid := xs[n].first]
  }

  /**
   * The map recover rolls back from, on the checkpoint path: the checkpoint's
   * list, then the records after the checkpoint scanned as on the other path.
   */
  function CheckpointLosers(m: FirstRecords, recs: seq<LogRecord>, c: nat): FirstRecords
    requires c < |recs| && recs[c].CheckpointRecord?
  {
    Losers(PutAll(m, recs[c].outstanding), recs[c + 1..])
  }

  /**
   * When the checkpoint's list is what a scan had found by then, starting at
   * the checkpoint gives the same losers as scanning the whole log.
   */
  lemma {:induction false} CheckpointLosersComplete(m: FirstRecords, recs: seq<LogRecord>, c: nat)
    requires c < |recs| && recs[c].CheckpointRecord?
    requires PutAll(m, recs[c].outstanding) == Losers(m, recs[..c + 1])
    ensures CheckpointLosers(m, recs, c) == Losers(m, recs)
  {
    assert recs == recs[..c + 1] + recs[c + 1..];
    LosersAppend(m, recs[..c + 1], recs[c + 1..]);
  }

  // -------------------------------------------------------------- rollback

  /**
   * The first part of rollback(tid): the offset tidToFirstLogRecord holds
   * for tid must be the start of a BEGIN record. Returns that record's index.
   */
  function RollbackStart(base: int, recs: seq<LogRecord>, m: FirstRecords, t: int64): (r: Result<nat>)
    ensures r.Ok? ==> r.value < |recs| && recs[r.value].BeginRecord? && t in m && Offset(base, recs, r.value) == m[t]
    ensures r.Err? ==> r.error == NoSuchElementException || r.error == IOException
  {
    if t !in m then Err(NoSuchElementException)
    else
      match IndexAt(base, recs, m[t])
      case None => Err(IOException)
      case Some(k) => if recs[k].BeginRecord? then Ok(k) else Err(IOException)
  }

  /** Rollback's failures: the map has no entry, or its entry is not a BEGIN. */
  lemma {:induction false} RollbackStartFails(base: int, recs: seq<LogRecord>, m: FirstRecords, t: int64)
    ensures RollbackStart(base, recs, m, t) == Err(NoSuchElementException) <==> t !in m
    ensures RollbackStart(base, recs, m, t) == Err(IOException) <==>
      t in m && forall k :: 0 <= k < |recs| && Offset(base, recs, k) == m[t] ==> !recs[k].BeginRecord?
  {
    if t in m {
      match IndexAt(base, recs, m[t])
      case None =>
      case Some(k) =>
        forall k' | 0 <= k' < |recs| && Offset(base, recs, k') == m[t]
          ensures k' == k
        {
          if k' < k { OffsetsIncrease(base, recs, k', k); }
          if k < k' { OffsetsIncrease(base, recs, k, k'); }
        }
    }
  }

  /** The pages written back so far and the set of pages already seen (pageIds). */
  datatype UndoState = UndoState(pages: Pages, seen: set<PageId>)

  predicate UpdateOf(r: LogRecord, t: int64, pid: PageId)
  {
    r.UpdateRecord? && r.tid == t && r.before.id == pid
  }

  /** One record of rollback's scan: the first update of a page by t writes its before-image. */
  function UndoStep(u: UndoState, r: LogRecord, t: int64): UndoState
  {
    if r.UpdateRecord? && r.tid == t && r.before.id !in u.seen then
      UndoState(u.pages[r.before.id := r.before.data], u.seen + {r.before.id})
    else u
  }

  function Undo(u: UndoState, recs: seq<LogRecord>, t: int64): UndoState
  {
    if recs == [] then u else UndoStep(Undo(u, recs[..|recs| - 1], t), recs[|recs| - 1], t)
  }

  /** The earliest update of pid by t. */
  lemma {:induction false} UndoNext(u: UndoState, recs: seq<LogRecord>, from: nat, i: nat, t: int64)
    requires from <= i < |recs|
    ensures Undo(u, recs[from..i + 1], t) == UndoStep(Undo(u, recs[from..i], t), recs[i], t)
  {
    assert recs[from..i + 1][..i - from] == recs[from..i];
  }

  function FirstUpdate(recs: seq<LogRecord>, t: int64, pid: PageId): (r: Option<nat>)
    ensures r.Some? ==> (r.value < |recs| && UpdateOf(recs[r.value], t, pid) &&
      forall j :: 0 <= j < r.value ==> !UpdateOf(recs[j], t, pid))
    ensures r.None? ==> forall j :: 0 <= j < |recs| ==> !UpdateOf(recs[j], t, pid)
  {
    if recs == [] then None
    else
      var n := |recs| - 1;
      var front := recs[..n];
      var r := FirstUpdate(front, t, pid);
      assert forall j :: 0 <= j < n ==> front[j] == recs[j];
      if r.Some? then r else if UpdateOf(recs[n], t, pid) then Some(n) else None
  }

  /** The pages t's updates in recs touch. */
  function UpdatedBy(recs: seq<LogRecord>, t: int64): (s: set<PageId>)
    ensures forall pid :: pid in s <==> exists j :: 0 <= j < |recs| && UpdateOf(recs[j], t, pid)
  {
    if recs == [] then {}
    else
      var n := |recs| - 1;
      var front := recs[..n];
      var s := UpdatedBy(front, t);
      assert forall j :: 0 <= j < n ==> front[j] == recs[j];
      if recs[n].UpdateRecord? && recs[n].tid == t then s + {recs[n].before.id} else s
  }

  /** Rollback has seen, and removed from the cache, exactly the pages t updated. */
  lemma {:induction false} UndoSeen(u: UndoState, recs: seq<LogRecord>, t: int64)
    ensures Undo(u, recs, t).seen == u.seen + UpdatedBy(recs, t)
  {
    if recs != [] {
      UndoSeen(u, recs[..|recs| - 1], t);
    }
  }

  /**
   * rollback writes back, for every page t updated that it had not seen, the
   * before-image of t's EARLIEST update of that page; every other page keeps
   * its contents.
   */
  lemma {:induction false} UndoEarliest(u: UndoState, recs: seq<LogRecord>, t: int64, pid: PageId)
    ensures var r := Undo(u, recs, t);
      match FirstUpdate(recs, t, pid)
      case Some(i) => pid !in u.seen ==> pid in r.pages && r.pages[pid] == recs[i].before.data
      case None => (pid in r.pages <==> pid in u.pages) && (pid in u.pages ==> r.pages[pid] == u.pages[pid])
    ensures pid in u.seen ==> ((pid in Undo(u, recs, t).pages <==> pid in u.pages) &&
      (pid in u.pages ==> Undo(u, recs, t).pages[pid] == u.pages[pid]))
  {
    if recs != [] {
      var n := |recs| - 1;
      var front := recs[..n];
      UndoEarliest(u, front, t, pid);
      UndoSeen(u, front, t);
      var f := FirstUpdate(front, t, pid);
      if f.Some? {
        assert UpdateOf(front[f.value], t, pid);
        assert pid in UpdatedBy(front, t);
      }
    }
  }

  // ------------------------------------------------------------------ redo

  /** react(..., redo = true) on an UPDATE: the after-image goes to its page. */
  function RedoStep(pages: Pages, r: LogRecord, losers: set<int64>): Pages
  {
    if r.UpdateRecord? && r.tid !in losers then pages[r.after.id := r.after.data] else pages
  }

  function Redo(pages: Pages, recs: seq<LogRecord>, losers: set<int64>): Pages
  {
    if recs == [] then pages else RedoStep(Redo(pages, recs[..|recs| - 1], losers), recs[|recs| - 1], losers)
  }

  predicate RedoneBy(r: LogRecord, losers: set<int64>, pid: PageId)
  {
    r.UpdateRecord? && r.tid !in losers && r.after.id == pid
  }

  /** The last update of pid by a transaction that is not a loser. */
  function LastRedo(recs: seq<LogRecord>, losers: set<int64>, pid: PageId): (r: Option<nat>)
    ensures r.Some? ==> (r.value < |recs| && RedoneBy(recs[r.value], losers, pid) &&
      forall j :: r.value < j < |recs| ==> !RedoneBy(recs[j], losers, pid))
    ensures r.None? ==> forall j :: 0 <= j < |recs| ==> !RedoneBy(recs[j], losers, pid)
  {
    if recs == [] then None
    else if RedoneBy(recs[|recs| - 1], losers, pid) then Some(|recs| - 1)
    else
      var front := recs[..|recs| - 1];
      var r := LastRedo(front, losers, pid);
      assert forall j :: 0 <= j < |front| ==> front[j] == recs[j];
      r
  }

  /**
   * After the redo pass a page holds the after-image of its last update by a
   * transaction that is not a loser, or what it held before if there is none.
   */
  lemma {:induction false} RedoLatest(pages: Pages, recs: seq<LogRecord>, losers: set<int64>, pid: PageId)
    ensures var r := Redo(pages, recs, losers);
      match LastRedo(recs, losers, pid)
      case Some(i) => pid in r && r[pid] == recs[i].after.data
      case None => (pid in r <==> pid in pages) && (pid in pages ==> r[pid] == pages[pid])
  {
    if recs != [] {
      var front := recs[..|recs| - 1];
      RedoLatest(pages, front, losers, pid);
      if !RedoneBy(recs[|recs| - 1], losers, pid) {
        assert LastRedo(recs, losers, pid) == LastRedo(front, losers, pid);
      }
    }
  }

  // ------------------------------------------------------------- recovery

  /** A checkpoint list that names every live transaction once, with its first record. */
  predicate Listed(xs: seq<Outstanding>, m: FirstRecords)
  {
    (forall i :: 0 <= i < |xs| ==> xs[i].tid in m && xs[i].first == m[xs[i].tid]) &&
    (forall i, j :: 0 <= i < j < |xs| ==> xs[i].tid != xs[j].tid) &&
    (forall t :: t in m ==> exists i :: 0 <= i < |xs| && xs[i].tid == t)
  }

  /** Reading a checkpoint list back gives the map it was written from. */
  lemma {:induction false} ListedPutAll(xs: seq<Outstanding>, m: FirstRecords)
    requires Listed(xs, m)
    ensures PutAll(map[], xs) == m
  {
    if xs == [] {
      ListedNone(m);
    } else {
      var n := |xs| - 1;
      ListedFront(xs, m);
      ListedPutAll(xs[..n], m - {xs[n].tid});
      PutAllBack(xs, m);
    }
  }

  lemma {:induction false} ListedNone(m: FirstRecords)
    requires Listed([], m)
    ensures PutAll(map[], []) == m
  {
    assert forall t :: t !in m;
  }

  lemma {:induction false} PutAllBack(xs: seq<Outstanding>, m: FirstRecords)
    requires xs != [] && xs[|xs| - 1].tid in m && xs[|xs| - 1].first == m[xs[|xs| - 1].tid]
    requires PutAll(map[], xs[..|xs| - 1]) == m - {xs[|xs| - 1].tid}
    ensures PutAll(map[], xs) == m
  {
    var t := xs[|xs| - 1].tid;
    PutAllLast(map[], xs);
    assert (m - {t})[t := m[t]] == m;
  }

  /** Without its last entry a list names the other transactions. */
  lemma {:induction false} ListedFront(xs: seq<Outstanding>, m: FirstRecords)
    requires Listed(xs, m) && xs != []
    ensures var n := |xs| - 1;
      xs[n].tid in m && xs[n].first == m[xs[n].tid] && Listed(xs[..n], m - {xs[n].tid})
  {
    var n := |xs| - 1;
    var front := xs[..n];
    var t := xs[n].tid;
    var m' := m - {t};
    assert forall i :: 0 <= i < n ==> front[i] == xs[i];
    assert forall i :: 0 <= i < n ==> front[i].tid in m' && front[i].first == m'[front[i].tid] by {
      forall i | 0 <= i < n ensures front[i].tid != t {
        assert xs[i].tid != xs[n].tid;
      }
    }
    forall u | u in m' ensures exists i :: 0 <= i < n && front[i].tid == u {
      var i :| 0 <= i < |xs| && xs[i].tid == u;
      assert front[i] == xs[i];
    }
  }

  lemma {:induction false} PutAllLast(m: FirstRecords, xs: seq<Outstanding>)
    requires xs != []
    ensures PutAll(m, xs) == PutAll(m, xs[..|xs| - 1])[xs[|xs| - 1].tid := xs[|xs| - 1].first]
  {
  }

  /**
   * The losers recover settles on. It reads the checkpoint pointer: with no
   * header an IOException; without a checkpoint the whole log is scanned; a
   * pointer that reaches no CHECKPOINT record is an IOException; otherwise
   * the checkpoint's list and the records after it decide (the corrected
   * checkpoint path of CheckpointLosers; the source's is
   * CheckpointLosersAsWritten).
   */
  function RecoveredLosers(header: Option<int>, recs: seq<LogRecord>, m: FirstRecords): (r: Result<FirstRecords>)
    ensures r.Err? ==> r.error == IOException
    ensures header == Some(NO_CHECKPOINT_ID as int) ==> r == Ok(Losers(m, recs))
    ensures header.Some? && header.value != NO_CHECKPOINT_ID as int ==>
              var c := IndexAt(HEADER_SIZE, recs, header.value);
              (r.Ok? <==> c.Some? && recs[c.value].CheckpointRecord?) &&
              (r.Ok? ==> r == Ok(CheckpointLosers(m, recs, c.value)))
  {
    if header.None? then Err(IOException)
    else if header.value == NO_CHECKPOINT_ID as int then Ok(Losers(m, recs))
    else
      match IndexAt(HEADER_SIZE, recs, header.value)
      case None => Err(IOException)
      case Some(c) => if recs[c].CheckpointRecord? then Ok(CheckpointLosers(m, recs, c)) else Err(IOException)
  }

  /** rollback(t) on the files: the before-images of t's updates after its BEGIN. */
  function RollbackPages(pages: Pages, recs: seq<LogRecord>, m: FirstRecords, t: int64): (r: Result<Pages>)
    ensures r.Err? <==> RollbackStart(HEADER_SIZE, recs, m, t).Err?
  {
    match RollbackStart(HEADER_SIZE, recs, m, t)
    case Err(e) => Err(e)
    case Ok(k) => Ok(Undo(UndoState(pages, {}), recs[k + 1..], t).pages)
  }

  /** The pages rollback(t) writes back and drops from the buffer pool. */
  function RollbackTouched(recs: seq<LogRecord>, m: FirstRecords, t: int64): set<PageId>
  {
    match RollbackStart(HEADER_SIZE, recs, m, t)
    case Err(_) => {}
    case Ok(k) => UpdatedBy(recs[k + 1..], t)
  }

  /** The pages recover's undo pass drops from the buffer pool: those each rollback, in order, touched. */
  function TouchedAll(recs: seq<LogRecord>, m: FirstRecords, order: seq<int64>): (r: set<PageId>)
    ensures forall i :: 0 <= i < |order| ==> RollbackTouched(recs, m, order[i]) <= r
  {
    if order == [] then {}
    else TouchedAll(recs, m, order[..|order| - 1]) + RollbackTouched(recs, m, order[|order| - 1])
  }

  /** recover's undo pass: every loser rolled back, in the order the map's key set yields them. */
  function UndoAll(pages: Pages, recs: seq<LogRecord>, m: FirstRecords, order: seq<int64>): (r: Result<Pages>)
  {
    if order == [] then Ok(pages)
    else
      var n := |order| - 1;
      match UndoAll(pages, recs, m, order[..n])
      case Err(e) => Err(e)
      case Ok(p) => RollbackPages(p, recs, m, order[n])
  }

  /** One more loser rolled back after the ones before it. */
  lemma {:induction false} UndoAllNext(pages: Pages, recs: seq<LogRecord>, m: FirstRecords, order: seq<int64>, t: int64, prev: Pages)
    requires UndoAll(pages, recs, m, order) == Ok(prev)
    ensures UndoAll(pages, recs, m, order + [t]) == RollbackPages(prev, recs, m, t)
  {
    assert (order + [t])[..|order|] == order;
  }

  /** The undo pass fails exactly when one of the losers' first records is not a BEGIN. */
  lemma {:induction false} UndoAllFails(pages: Pages, recs: seq<LogRecord>, m: FirstRecords, order: seq<int64>)
    ensures UndoAll(pages, recs, m, order).Err? <==>
      exists i :: 0 <= i < |order| && RollbackStart(HEADER_SIZE, recs, m, order[i]).Err?
  {
    if order != [] {
      var n := |order| - 1;
      UndoAllFails(pages, recs, m, order[..n]);
      assert forall i :: 0 <= i < n ==> order[..n][i] == order[i];
      if RollbackStart(HEADER_SIZE, recs, m, order[n]).Err? {
        if UndoAll(pages, recs, m, order[..n]).Ok? {
          assert RollbackPages(UndoAll(pages, recs, m, order[..n]).value, recs, m, order[n]).Err?;
        }
      }
    }
  }

  // -------------------------------------------------------------- pointers

  /**
   * seek(x) then readInt: a negative x fails the seek and an x at or past the
   * end of the file hits EOF (both IOException). Inside a record the bytes are
   * not a record's type; the model reports that as RuntimeException.
   */
  function PointerAt(base: int, recs: seq<LogRecord>, x: int): (r: Result<nat>)
    ensures r.Ok? ==> r.value < |recs| && Offset(base, recs, r.value) == x
    ensures r == Err(IOException) ==> x < 0 || x >= End(base, recs)
  {
    if x < 0 || x >= End(base, recs) then Err(IOException)
    else
      match IndexAt(base, recs, x)
      case None => Err(RuntimeException)
      case Some(k) => Ok(k)
  }

  // ------------------------------------------------------------- truncate

  /** minLogRecord: the checkpoint's own offset or the smallest first record in its list. */
  function MinFirst(cp: int, xs: seq<Outstanding>): (r: int)
    ensures r <= cp && forall i :: 0 <= i < |xs| ==> r <= xs[i].first
    ensures r == cp || exists i :: 0 <= i < |xs| && r == xs[i].first
  {
    if xs == [] then cp
    else
      var n := |xs| - 1;
      var r := MinFirst(cp, xs[..n]);
      assert forall i :: 0 <= i < n ==> xs[..n][i] == xs[i];
      if xs[n].first < r then xs[n].first else r
  }

  /** (x - minLogRecord) + LONG_SIZE: where offset x of the old file lands in the new one. */
  function Relocate(x: int, min: int): int
  {
    x - min + LONG_SIZE
  }

  function RelocateAll(xs: seq<Outstanding>, min: int): (ys: seq<Outstanding>)
    ensures |ys| == |xs| && forall i :: 0 <= i < |xs| ==> ys[i] == Outstanding(xs[i].tid, Relocate(xs[i].first, min))
  {
    seq(|xs|, i requires 0 <= i < |xs| => Outstanding(xs[i].tid, Relocate(xs[i].first, min)))
  }

  /** A record as the copy loop writes it at offset at of the new file. */
  function Moved(r: LogRecord, min: int, at: int): (m: LogRecord)
    ensures m.start == at && Tag(m) == Tag(r) && RecordSize(m) == RecordSize(r)
  {
    match r
    case AbortRecord(t, _) => AbortRecord(t, at)
    case CommitRecord(t, _) => CommitRecord(t, at)
    case UpdateRecord(t, b, a, _) => UpdateRecord(t, b, a, at)
    case BeginRecord(t, _) => BeginRecord(t, at)
    case CheckpointRecord(xs, _) => CheckpointRecord(RelocateAll(xs, min), at)
  }

  /** The records the copy loop writes, the first at offset at. */
  function Copy(recs: seq<LogRecord>, min: int, at: int): (out: seq<LogRecord>)
    ensures |out| == |recs|
  {
    if recs == [] then []
    else
      var n := |recs| - 1;
      Copy(recs[..n], min, at) + [Moved(recs[n], min, at + Size(recs[..n]))]
  }

  /** One more record copied: the copy grows by that record, moved to the end of the copy so far. */
  lemma {:induction false} CopyNext(src: seq<LogRecord>, min: int, at: int, j: nat)
    requires j < |src|
    ensures Copy(src[..j + 1], min, at) == Copy(src[..j], min, at) + [Moved(src[j], min, at + Size(src[..j]))]
    ensures Size(src[..j + 1]) == Size(src[..j]) + RecordSize(src[j])
  {
    assert src[..j + 1][..j] == src[..j];
    SizeAppend(src[..j], [src[j]]);
    assert [src[j]][1..] == [] && src[..j + 1] == src[..j] + [src[j]];
  }

  lemma {:induction false} CopySize(recs: seq<LogRecord>, min: int, at: int)
    ensures Size(Copy(recs, min, at)) == Size(recs)
  {
    if recs != [] {
      var n := |recs| - 1;
      var r := Moved(recs[n], min, at + Size(recs[..n]));
      CopySize(recs[..n], min, at);
      SizeAppend(Copy(recs[..n], min, at), [r]);
      SizeAppend(recs[..n], [recs[n]]);
      assert [r][1..] == [] && [recs[n]][1..] == [];
      assert recs == recs[..n] + [recs[n]];
    }
  }

  /** Every copied record holds its new offset: the new log is aligned whatever the old one held. */
  lemma {:induction false} CopyAligned(recs: seq<LogRecord>, min: int, at: int)
    ensures Aligned(at, Copy(recs, min, at))
  {
    if recs != [] {
      var n := |recs| - 1;
      var front := Copy(recs[..n], min, at);
      CopyAligned(recs[..n], min, at);
      CopySize(recs[..n], min, at);
      AlignedAppend(at, front, Moved(recs[n], min, at + Size(recs[..n])));
    }
  }

  /** Record j of the copy is record j of the source, moved to the same offset relative to at. */
  lemma {:induction false} CopyAt(recs: seq<LogRecord>, min: int, at: int, j: nat)
    requires j < |recs|
    ensures Copy(recs, min, at)[j] == Moved(recs[j], min, Offset(at, recs, j))
    ensures Offset(at, Copy(recs, min, at), j) == Offset(at, recs, j)
    decreases |recs|
  {
    var n := |recs| - 1;
    var out := Copy(recs, min, at);
    var front := Copy(recs[..n], min, at);
    assert out[..n] == front;
    if j < n {
      CopyAt(recs[..n], min, at, j);
      assert recs[..n][..j] == recs[..j];
      assert out[..j] == front[..j];
    } else {
      CopySize(recs[..n], min, at);
    }
  }

  /**
   * Offsets move uniformly: record j of the copy of recs[k..] sits at the
   * relocated offset of record k + j of the old file.
   */
  lemma {:induction false} CopyShift(base: int, recs: seq<LogRecord>, k: nat, j: nat)
    requires k + j < |recs|
    ensures Offset(HEADER_SIZE, Copy(recs[k..], Offset(base, recs, k), HEADER_SIZE), j) ==
      Relocate(Offset(base, recs, k + j), Offset(base, recs, k))
  {
    var tail := recs[k..];
    var min := Offset(base, recs, k);
    var a := Size(recs[..k]);
    var b := Size(tail[..j]);
    CopyAt(tail, min, HEADER_SIZE, j);
    assert Offset(HEADER_SIZE, Copy(tail, min, HEADER_SIZE), j) == HEADER_SIZE + b;
    PrefixJoin(recs, k, j);
    SizeAppend(recs[..k], tail[..j]);
    assert Offset(base, recs, k + j) == base + a + b;
    assert min == base + a;
  }

  /** An offset of the old file at or after minLogRecord that named record i names its copy. */
  lemma {:induction false} RelocatedPointer(base: int, recs: seq<LogRecord>, k: nat, i: nat)
    requires k <= i < |recs|
    ensures var min := Offset(base, recs, k);
      var out := Copy(recs[k..], min, HEADER_SIZE);
      IndexAt(HEADER_SIZE, out, Relocate(Offset(base, recs, i), min)) == Some(i - k) &&
      Tag(out[i - k]) == Tag(recs[i])
  {
    var min := Offset(base, recs, k);
    var tail := recs[k..];
    var out := Copy(tail, min, HEADER_SIZE);
    var j := i - k;
    assert k + j == i && tail[j] == recs[i];
    CopyShift(base, recs, k, j);
    var at := Offset(HEADER_SIZE, out, j);
    assert at == Relocate(Offset(base, recs, i), min);
    IndexAtOffset(HEADER_SIZE, out, j);
    assert IndexAt(HEADER_SIZE, out, at) == Some(j);
    CopyAt(tail, min, HEADER_SIZE, j);
    assert out[j] == Moved(tail[j], min, Offset(HEADER_SIZE, tail, j));
  }

  /** The corrected first-record map after truncation: a BEGIN copied re-points its transaction if still live. */
  function TruncMap(m: FirstRecords, out: seq<LogRecord>): (r: FirstRecords)
    ensures r.Keys == m.Keys
  {
    if out == [] then m
    else
      var n := |out| - 1;
      var r := TruncMap(m, out[..n]);
      if out[n].BeginRecord? && out[n].tid in r then r[out[n].tid := out[n].start] else r
  }

  lemma {:induction false} TruncMapNext(m: FirstRecords, out: seq<LogRecord>, r: LogRecord)
    ensures var t := TruncMap(m, out);
      TruncMap(m, out + [r]) == if r.BeginRecord? && r.tid in t then t[r.tid := r.start] else t
  {
    assert (out + [r])[..|out|] == out;
  }

  /** Each live transaction keeps its old offset or takes the new start of a copied BEGIN of its own. */
  lemma {:induction false} TruncMapRepoints(m: FirstRecords, out: seq<LogRecord>, t: int64)
    requires t in m
    ensures TruncMap(m, out)[t] == m[t] ||
      exists j :: 0 <= j < |out| && out[j].BeginRecord? && out[j].tid == t && out[j].start == TruncMap(m, out)[t]
  {
    if out != [] {
      var n := |out| - 1;
      TruncMapRepoints(m, out[..n], t);
      assert forall j :: 0 <= j < n ==> out[..n][j] == out[j];
    }
  }

  /** What logTruncate leaves: the new checkpoint pointer, the copied records and the map. */
  datatype Truncation = Truncation(header: int, records: seq<LogRecord>, first: FirstRecords)

  /** Where logTruncate cuts: the checkpoint's index c, minLogRecord min and its index k. */
  datatype Cut = Cut(c: nat, k: nat, min: int)

  /**
   * The reads logTruncate makes before copying. A file without a header
   * reads no checkpoint pointer (IOException). Without a checkpoint,
   * minLogRecord is -1 and seek(-1) fails (IOException). A pointer that does
   * not reach a CHECKPOINT record is a RuntimeException, or an IOException at
   * EOF.
   */
  function TruncationCut(header: Option<int>, recs: seq<LogRecord>): (r: Result<Cut>)
    ensures r.Ok? ==> (header.Some? && r.value.c < |recs| && r.value.k < |recs| &&
      Offset(HEADER_SIZE, recs, r.value.c) == header.value && recs[r.value.c].CheckpointRecord? &&
      r.value.min == MinFirst(header.value, recs[r.value.c].outstanding) &&
      Offset(HEADER_SIZE, recs, r.value.k) == r.value.min)
  {
    if header.None? || header.value == NO_CHECKPOINT_ID as int then Err(IOException)
    else
      var cp := header.value;
      match PointerAt(HEADER_SIZE, recs, cp)
      case Err(e) => Err(e)
      case Ok(c) =>
        if !recs[c].CheckpointRecord? then Err(RuntimeException)
        else
          var min := MinFirst(cp, recs[c].outstanding);
          if min < 0 then Err(IOException)
          else
            match IndexAt(HEADER_SIZE, recs, min)
            case None => Err(IOException)
            case Some(k) => Ok(Cut(c, k, min))
  }

  /**
   * logTruncate after its preAppend: the records from minLogRecord on, moved to
   * the front of a new file, with the corrected first-record map TruncMap.
   */
  function Truncate(header: Option<int>, recs: seq<LogRecord>, m: FirstRecords): (r: Result<Truncation>)
    ensures r.Ok? <==> TruncationCut(header, recs).Ok?
  {
    match TruncationCut(header, recs)
    case Err(e) => Err(e)
    case Ok(cut) =>
      var out := Copy(recs[cut.k..], cut.min, HEADER_SIZE);
      Ok(Truncation(Relocate(header.value, cut.min), out, TruncMap(m, out)))
  }

  /** Every record from index k on is named, in out, by its relocated offset, and keeps its type. */
  ghost predicate RelocatesFrom(recs: seq<LogRecord>, k: nat, min: int, out: seq<LogRecord>)
    requires k <= |recs| && |out| == |recs| - k
  {
    forall i :: k <= i < |recs| ==>
      IndexAt(HEADER_SIZE, out, Relocate(Offset(HEADER_SIZE, recs, i), min)) == Some(i - k) &&
      Tag(out[i - k]) == Tag(recs[i])
  }

  /** The truncation of recs from record k, with minLogRecord min and the checkpoint at record c. */
  lemma {:induction false} CopyFrom(recs: seq<LogRecord>, c: nat, k: nat, min: int)
    requires c < |recs| && k < |recs| && Offset(HEADER_SIZE, recs, k) == min
    requires min <= Offset(HEADER_SIZE, recs, c)
    ensures var out := Copy(recs[k..], min, HEADER_SIZE);
      k <= c && Aligned(HEADER_SIZE, out) && |out| == |recs| - k &&
      IndexAt(HEADER_SIZE, out, Relocate(Offset(HEADER_SIZE, recs, c), min)) == Some(c - k) &&
      out[c - k] == Moved(recs[c], min, Offset(HEADER_SIZE, recs[k..], c - k)) &&
      RelocatesFrom(recs, k, min, out)
  {
    var out := Copy(recs[k..], min, HEADER_SIZE);
    if c < k {
      OffsetsIncrease(HEADER_SIZE, recs, c, k);
    }
    CopyAligned(recs[k..], min, HEADER_SIZE);
    RelocatedPointer(HEADER_SIZE, recs, k, c);
    CopyAt(recs[k..], min, HEADER_SIZE, c - k);
    forall i | k <= i < |recs|
      ensures IndexAt(HEADER_SIZE, out, Relocate(Offset(HEADER_SIZE, recs, i), min)) == Some(i - k) &&
        Tag(out[i - k]) == Tag(recs[i])
    {
      RelocatedPointer(HEADER_SIZE, recs, k, i);
    }
  }

  /**
   * A successful truncation keeps the records from minLogRecord on, each
   * holding its new offset; the new header points at the relocated
   * checkpoint, whose list is the old one relocated; every record of the old
   * file from minLogRecord on is named, in the new file, by its relocated
   * offset; and the first-record map keeps its transactions.
   */
  lemma {:induction false} TruncateRelocates(header: Option<int>, recs: seq<LogRecord>, m: FirstRecords)
    requires Truncate(header, recs, m).Ok?
    ensures var t := Truncate(header, recs, m).value;
      var cut := TruncationCut(header, recs).value;
      cut.k <= cut.c && Aligned(HEADER_SIZE, t.records) && |t.records| == |recs| - cut.k &&
      IndexAt(HEADER_SIZE, t.records, t.header) == Some(cut.c - cut.k) &&
      t.records[cut.c - cut.k] == CheckpointRecord(RelocateAll(recs[cut.c].outstanding, cut.min),
        t.header) &&
      t.first.Keys == m.Keys &&
      RelocatesFrom(recs, cut.k, cut.min, t.records)
  {
    var cut := TruncationCut(header, recs).value;
    CopyFrom(recs, cut.c, cut.k, cut.min);
    CopyShift(HEADER_SIZE, recs, cut.k, cut.c - cut.k);
  }

  // -------------------------------------------------------------- findings

  /** The bytes react consumes after a record's type and tid, as written: nothing for a CHECKPOINT. */
  function ReactPayloadAsWritten(r: LogRecord): nat
  {
    match r
    case UpdateRecord(_, b, a, _) => PageDataSize(b) + PageDataSize(a) + LONG_SIZE
    case CheckpointRecord(_, _) => 0
    case _ => LONG_SIZE
  }

  /** react with a CHECKPOINT case reading the count, the list and the trailing offset. */
  function ReactPayload(r: LogRecord): (n: nat)
    ensures n == RecordSize(r) - RECORD_HEAD
  {
    match r
    case UpdateRecord(_, b, a, _) => PageDataSize(b) + PageDataSize(a) + LONG_SIZE
    case CheckpointRecord(xs, _) => INT_SIZE + 2 * LONG_SIZE * |xs| + LONG_SIZE
    case _ => LONG_SIZE
  }

  /** An offset strictly between two neighbouring records starts no record. */
  lemma {:induction false} InsideRecord(base: int, recs: seq<LogRecord>, i: nat, x: int)
    requires i < |recs| && Offset(base, recs, i) < x < Offset(base, recs, i + 1)
    ensures IndexAt(base, recs, x) == None
  {
    forall j | 0 <= j < |recs| ensures Offset(base, recs, j) != x {
      if j < i {
        OffsetsIncrease(base, recs, j, i);
      } else if j > i + 1 {
        OffsetsIncrease(base, recs, i + 1, j);
      }
    }
  }

  /**
   * As written, the recover scans stop inside a CHECKPOINT record: after its
   * type and tid they read its count as the next record's type.
   */
  lemma {:induction false} ReactStopsInsideCheckpoint(base: int, recs: seq<LogRecord>, i: nat)
    requires i < |recs| && recs[i].CheckpointRecord?
    ensures var x := Offset(base, recs, i) + RECORD_HEAD + ReactPayloadAsWritten(recs[i]);
      x < End(base, recs) && IndexAt(base, recs, x) == None
  {
    OffsetNext(base, recs, i);
    OffsetBounds(base, recs, i);
    InsideRecord(base, recs, i, Offset(base, recs, i) + RECORD_HEAD);
  }

  /** With the CHECKPOINT case every record is consumed whole and the scan reaches the next one. */
  lemma {:induction false} ReactReachesNext(base: int, recs: seq<LogRecord>, i: nat)
    requires i < |recs|
    ensures Offset(base, recs, i) + RECORD_HEAD + ReactPayload(recs[i]) == Offset(base, recs, i + 1)
    ensures i + 1 < |recs| ==> IndexAt(base, recs, Offset(base, recs, i + 1)) == Some(i + 1)
    ensures i + 1 == |recs| ==> Offset(base, recs, i + 1) == End(base, recs)
  {
    OffsetNext(base, recs, i);
    if i + 1 < |recs| {
      IndexAtOffset(base, recs, i + 1);
    } else {
      OffsetEnd(base, recs);
    }
  }

  /**
   * As written, recover leaves currentOffset at 0, so a BEGIN logged after
   * recovery records start 0 in tidToFirstLogRecord and its rollback finds no
   * BEGIN there.
   */
  lemma {:induction false} BeginAfterRecoverAsWritten(recs: seq<LogRecord>, m: FirstRecords, t: int64)
    ensures RollbackStart(HEADER_SIZE, recs + [BeginRecord(t, 0)], m[t := 0], t) == Err(IOException)
  {
    var recs' := recs + [BeginRecord(t, 0)];
    forall i | 0 <= i < |recs'| ensures Offset(HEADER_SIZE, recs', i) != 0 {
      OffsetBounds(HEADER_SIZE, recs', i);
    }
  }

  /** With currentOffset at the end of the log the BEGIN is found where the map says. */
  lemma {:induction false} BeginAfterRecover(recs: seq<LogRecord>, m: FirstRecords, t: int64)
    ensures var e := End(HEADER_SIZE, recs);
      RollbackStart(HEADER_SIZE, recs + [BeginRecord(t, e)], m[t := e], t) == Ok(|recs|)
  {
    var e := End(HEADER_SIZE, recs);
    var recs' := recs + [BeginRecord(t, e)];
    assert recs'[..|recs|] == recs;
    IndexAtOffset(HEADER_SIZE, recs', |recs|);
  }

  /** The losers recover's checkpoint path keeps, as written: the checkpoint's list and nothing after it. */
  function CheckpointLosersAsWritten(m: FirstRecords, recs: seq<LogRecord>, c: nat): FirstRecords
    requires c < |recs| && recs[c].CheckpointRecord?
  {
    PutAll(m, recs[c].outstanding)
  }

  /** The log of the checkpoint counterexample: transaction 7 is live at the checkpoint and commits after it. */
  predicate LateCommitLog(recs: seq<LogRecord>)
  {
    recs == [BeginRecord(7, 8), CheckpointRecord([Outstanding(7, 8)], 28), CommitRecord(7, 68)]
  }

  /**
   * A transaction live at the checkpoint that commits after it: as written it
   * is rolled back and not redone; the scan past the checkpoint drops it.
   */
  lemma {:induction false} CommitAfterCheckpoint(recs: seq<LogRecord>)
    requires LateCommitLog(recs)
    ensures Aligned(HEADER_SIZE, recs) && IndexAt(HEADER_SIZE, recs, 28) == Some(1)
    ensures 7 in CheckpointLosersAsWritten(map[], recs, 1)
    ensures 7 !in CheckpointLosers(map[], recs, 1) && 7 !in Losers(map[], recs)
  {
    assert recs[..0] == [] && recs[..1] == [recs[0]] && recs[..2] == [recs[0], recs[1]];
    assert Size(recs[..1]) == 20 by { assert recs[..1][1..] == []; }
    assert Size(recs[..2]) == 60 by { assert recs[..2][1..] == [recs[1]] && [recs[1]][1..] == []; }
    IndexAtOffset(HEADER_SIZE, recs, 1);
    assert recs[2..] == [recs[2]];
    LoserIff(recs, 7);
  }

  /** Cutting at the first record of an aligned log rewrites every record as it was. */
  lemma {:induction false} CopyInPlace(recs: seq<LogRecord>)
    requires Aligned(HEADER_SIZE, recs)
    ensures Copy(recs, HEADER_SIZE, HEADER_SIZE) == recs
  {
    if recs != [] {
      var n := |recs| - 1;
      var front := recs[..n];
      AlignedFront(recs);
      CopyInPlace(front);
      var r := recs[n];
      assert r.start == HEADER_SIZE + Size(front);
      MovedInPlace(r);
      FrontLast(recs);
    }
  }

  /** The records before the last of an aligned log are aligned. */
  lemma {:induction false} AlignedFront(recs: seq<LogRecord>)
    requires recs != [] && Aligned(HEADER_SIZE, recs)
    ensures Aligned(HEADER_SIZE, recs[..|recs| - 1])
  {
    var front := recs[..|recs| - 1];
    forall i | 0 <= i < |front| ensures front[i].start == Offset(HEADER_SIZE, front, i) {
      assert front[..i] == recs[..i];
    }
  }

  /** A record moved to its own offset by a cut at the header is unchanged. */
  lemma {:induction false} MovedInPlace(r: LogRecord)
    ensures Moved(r, HEADER_SIZE, r.start) == r
  {
    if r.CheckpointRecord? {
      assert RelocateAll(r.outstanding, HEADER_SIZE) == r.outstanding;
    }
  }

  /** The first-record map as logTruncate leaves it, as written: every copied BEGIN is put. */
  function TruncMapAsWritten(m: FirstRecords, out: seq<LogRecord>): FirstRecords
  {
    if out == [] then m
    else
      var n := |out| - 1;
      var r := TruncMapAsWritten(m, out[..n]);
      if out[n].BeginRecord? then r[out[n].tid := out[n].start] else r
  }

  /** The log of the truncation counterexample: transaction 2 begins and commits after transaction 1 began. */
  predicate RevivalLog(recs: seq<LogRecord>)
  {
    recs == [BeginRecord(1, 8), BeginRecord(2, 28), CommitRecord(2, 48), CheckpointRecord([Outstanding(1, 8)], 68)]
  }

  /**
   * Transaction 2 begins and commits after minLogRecord: the truncation keeps
   * every record where it was, and as written the copy loop puts transaction
   * 2 back into tidToFirstLogRecord, so the next checkpoint lists a committed
   * transaction as live.
   */
  lemma {:induction false} CommittedRevived(recs: seq<LogRecord>, m: FirstRecords)
    requires RevivalLog(recs) && m == map[1 := 8]
    ensures Truncate(Some(68), recs, m) == Ok(Truncation(68, recs, TruncMap(m, recs)))
    ensures 2 in TruncMapAsWritten(m, recs) && 2 !in TruncMap(m, recs)
  {
    CounterLogAligned(recs);
    IndexAtOffset(HEADER_SIZE, recs, 3);
    IndexAtOffset(HEADER_SIZE, recs, 0);
    OffsetEnd(HEADER_SIZE, recs);
    assert TruncationCut(Some(68), recs) == Ok(Cut(3, 0, 8));
    CopyInPlace(recs);
    assert recs[0..] == recs;
    AsWrittenRevives(recs, m);
  }

  lemma {:induction false} AsWrittenRevives(recs: seq<LogRecord>, m: FirstRecords)
    requires RevivalLog(recs)
    ensures 2 in TruncMapAsWritten(m, recs)
  {
    assert recs[..3][..2] == recs[..2];
    assert 2 in TruncMapAsWritten(m, recs[..2]);
  }

  lemma {:induction false} CounterLogAligned(recs: seq<LogRecord>)
    requires RevivalLog(recs)
    ensures Aligned(HEADER_SIZE, recs) && End(HEADER_SIZE, recs) == 108
  {
    assert RecordSize(recs[3]) == 40;
    assert Size(recs[3..]) == 40 by { assert recs[3..][1..] == []; }
    assert Size(recs[2..]) == 60 by { assert recs[2..][1..] == recs[3..]; }
    assert Size(recs[1..]) == 80 by { assert recs[1..][1..] == recs[2..]; }
    assert Size(recs) == 100;
    assert Size(recs[..1]) == 20 by { assert recs[..1][1..] == []; }
    assert Size(recs[..2]) == 40 by { assert recs[..2][1..] == recs[1..2] && recs[1..2][1..] == []; }
    assert Size(recs[2..3]) == 20 by { assert recs[2..3][1..] == []; }
    assert Size(recs[1..3]) == 40 by { assert recs[1..3][1..] == recs[2..3]; }
    assert Size(recs[..3]) == 60 by { assert recs[..3][1..] == recs[1..3]; }
    assert recs[..0] == [];
  }
}
