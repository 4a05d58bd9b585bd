/**
 * The records of the write-ahead log (LogFile.java) as values, their byte
 * layout, and the offsets at which they sit in the file. A record is
 *   [int type][long tid][payload][long start]
 * and `start` is what the writer held in currentOffset when it appended the
 * record; in a well-formed log that is the record's own offset.
 */
module LogRecords {
  import opened Wrappers
  import opened JavaInts
  import opened Bits
  import opened ByteCodec
  import opened LogLayout

  /** One entry of a checkpoint's list: a live transaction and its first record. */
  datatype Outstanding = Outstanding(tid: int64, first: int)

  datatype LogRecord =
    | AbortRecord(tid: int64, start: int)
    | CommitRecord(tid: int64, start: int)
    | UpdateRecord(tid: int64, before: PageImage, after: PageImage, start: int)
    | BeginRecord(tid: int64, start: int)
    | CheckpointRecord(outstanding: seq<Outstanding>, start: int)

  function Tag(r: LogRecord): int32
  {
    match r
    case AbortRecord(_, _) => ABORT_RECORD
    case CommitRecord(_, _) => COMMIT_RECORD
    case UpdateRecord(_, _, _, _) => UPDATE_RECORD
    case BeginRecord(_, _) => BEGIN_RECORD
    case CheckpointRecord(_, _) => CHECKPOINT_RECORD
  }

  /** The long after the type: the transaction, or -1 in a checkpoint. */
  function TidField(r: LogRecord): int64
  {
    if r.CheckpointRecord? then NO_CHECKPOINT_ID else r.tid
  }

  predicate InLong(x: int)
  {
    -0x8000_0000_0000_0000 <= x < 0x8000_0000_0000_0000
  }

  /** What writeInt/writeLong and writePageData can write of r. */
  predicate Encodable(r: LogRecord)
  {
    InLong(r.start) &&
    match r
    case UpdateRecord(_, b, a, _) => Writable(b) && Writable(a)
    case CheckpointRecord(xs, _) => |xs| <= INT_MAX && forall i :: 0 <= i < |xs| ==> InLong(xs[i].first)
    case _ => true
  }

  /** The bytes a record takes in the file. */
  function RecordSize(r: LogRecord): (n: nat)
  {
    match r
    case UpdateRecord(_, b, a, _) => RECORD_HEAD + PageDataSize(b) + PageDataSize(a) + LONG_SIZE
    case CheckpointRecord(xs, _) => RECORD_HEAD + INT_SIZE + 2 * LONG_SIZE * |xs| + LONG_SIZE
    case _ => RECORD_HEAD + LONG_SIZE
  }

  function EncodeOutstanding(xs: seq<Outstanding>): (e: seq<byte>)
    requires forall i :: 0 <= i < |xs| ==> InLong(xs[i].first)
    ensures |e| == 16 * |xs|
  {
    if xs == [] then []
    else
      assert InLong(xs[0].first);
      EncodeLong(xs[0].tid) + EncodeLong(xs[0].first as int64) + EncodeOutstanding(xs[1..])
  }

  /** What comes between the tid and the trailing start offset. */
  function Payload(r: LogRecord): (e: seq<byte>)
    requires Encodable(r)
  {
    match r
    case UpdateRecord(_, b, a, _) => EncodePageData(b) + EncodePageData(a)
    case CheckpointRecord(xs, _) => EncodeInt(|xs| as int32) + EncodeOutstanding(xs)
    case _ => []
  }

  /** The writeInt/writeLong calls of logAbort, logCommit, logWrite, logXactionBegin, logCheckpoint. */
  function EncodeRecord(r: LogRecord): (e: seq<byte>)
    requires Encodable(r)
    ensures |e| == RecordSize(r)
  {
    EncodeInt(Tag(r)) + EncodeLong(TidField(r)) + Payload(r) + EncodeLong(r.start as int64)
  }

  /**
   * Wherever a record sits in the stream, readInt at its start gives its
   * type, the following readLong its tid, and the last eight bytes its start.
   */
  lemma {:induction false} RecordReadsBack(pre: seq<byte>, r: LogRecord, post: seq<byte>)
    requires Encodable(r)
    ensures var s := pre + EncodeRecord(r) + post;
      |pre| + RecordSize(r) <= |s| &&
      DecodeInt(s, |pre|) == Tag(r) &&
      DecodeLong(s, |pre| + INT_SIZE) == TidField(r) &&
      DecodeLong(s, |pre| + RecordSize(r) - LONG_SIZE) == r.start as int64
  {
    var tag, tid, pay, st := EncodeInt(Tag(r)), EncodeLong(TidField(r)), Payload(r), EncodeLong(r.start as int64);
    assert EncodeRecord(r) == tag + tid + pay + st;
    Regroup(pre, tag, tid, pay, st, post);
    IntRoundTrip(Tag(r), pre, tid + pay + st + post);
    LongRoundTrip(TidField(r), pre + tag, pay + st + post);
    LongRoundTrip(r.start as int64, pre + tag + tid + pay, post);
  }

  /** The three ways RecordReadsBack cuts a record in its stream. */
  lemma {:induction false} Regroup(pre: seq<byte>, a: seq<byte>, b: seq<byte>, c: seq<byte>, d: seq<byte>, post: seq<byte>)
    ensures pre + (a + b + c + d) + post == pre + a + (b + c + d + post)
    ensures pre + (a + b + c + d) + post == (pre + a) + b + (c + d + post)
    ensures pre + (a + b + c + d) + post == (pre + a + b + c) + d + post
  {
  }

  /** The total length of a run of records. */
  function Size(recs: seq<LogRecord>): nat
  {
    if recs == [] then 0 else RecordSize(recs[0]) + Size(recs[1..])
  }

  lemma {:induction false} SizeAppend(a: seq<LogRecord>, b: seq<LogRecord>)
    ensures Size(a + b) == Size(a) + Size(b)
  {
    if a == [] {
      assert a + b == b;
    } else {
      assert (a + b)[1..] == a[1..] + b;
      SizeAppend(a[1..], b);
    }
  }

  /** The offset of record i in a log whose records start at base. */
  function Offset(base: int, recs: seq<LogRecord>, i: nat): int
    requires i <= |recs|
  {
    base + Size(recs[..i])
  }

  /** The length of the file: where the next record goes. */
  function End(base: int, recs: seq<LogRecord>): int
  {
    base + Size(recs)
  }

  lemma {:induction false} OffsetNext(base: int, recs: seq<LogRecord>, i: nat)
    requires i < |recs|
    ensures Offset(base, recs, i + 1) == Offset(base, recs, i) + RecordSize(recs[i])
  {
    assert recs[..i + 1] == recs[..i] + [recs[i]];
    SizeAppend(recs[..i], [recs[i]]);
    assert [recs[i]][1..] == [];
  }

  lemma {:induction false} OffsetEnd(base: int, recs: seq<LogRecord>)
    ensures Offset(base, recs, |recs|) == End(base, recs)
  {
    assert recs[..|recs|] == recs;
  }

  /** Offsets in the tail of a log are offsets in the log, one record on. */
  lemma {:induction false} OffsetTail(base: int, recs: seq<LogRecord>, i: nat)
    requires i < |recs|
    ensures Offset(base, recs, i + 1) == Offset(base + RecordSize(recs[0]), recs[1..], i)
  {
    assert recs[..i + 1][1..] == recs[1..][..i];
  }

  /** Every record takes at least 20 bytes, so offsets strictly increase. */
  lemma {:induction false} OffsetsIncrease(base: int, recs: seq<LogRecord>, i: nat, j: nat)
    requires i < j <= |recs|
    ensures Offset(base, recs, i) < Offset(base, recs, j)
    decreases j
  {
    OffsetNext(base, recs, j - 1);
    if i < j - 1 {
      OffsetsIncrease(base, recs, i, j - 1);
    }
  }

  /** Records lie inside the file: every offset is at least base and at most End. */
  lemma {:induction false} OffsetBounds(base: int, recs: seq<LogRecord>, i: nat)
    requires i < |recs|
    ensures base <= Offset(base, recs, i) && Offset(base, recs, i) + RecordSize(recs[i]) <= End(base, recs)
  {
    assert recs[..0] == [];
    OffsetNext(base, recs, i);
    OffsetEnd(base, recs);
    if i + 1 < |recs| {
      OffsetsIncrease(base, recs, i + 1, |recs|);
    }
    if 0 < i {
      OffsetsIncrease(base, recs, 0, i);
    }
  }

  /** The record that starts at offset x, if one does. */
  function IndexAt(base: int, recs: seq<LogRecord>, x: int): (r: Option<nat>)
    ensures r.Some? ==> r.value < |recs| && Offset(base, recs, r.value) == x
    ensures r.None? ==> forall i :: 0 <= i < |recs| ==> Offset(base, recs, i) != x
    decreases |recs|
  {
    if recs == [] then None
    else
      assert recs[..0] == [];
      if x == base then Some(0)
      else
        var rest := IndexAt(base + RecordSize(recs[0]), recs[1..], x);
        OffsetsTail(base, recs);
        match rest
        case None => None
        case Some(i) => Some(i + 1)
  }

  lemma {:induction false} OffsetsTail(base: int, recs: seq<LogRecord>)
    requires recs != []
    ensures forall i :: 1 <= i <= |recs| ==> Offset(base, recs, i) == Offset(base + RecordSize(recs[0]), recs[1..], i - 1)
  {
    forall i | 1 <= i <= |recs|
      ensures Offset(base, recs, i) == Offset(base + RecordSize(recs[0]), recs[1..], i - 1)
    {
      OffsetTail(base, recs, i - 1);
    }
  }

  /** The record at record i's offset is record i. */
  lemma {:induction false} IndexAtOffset(base: int, recs: seq<LogRecord>, i: nat)
    requires i < |recs|
    ensures IndexAt(base, recs, Offset(base, recs, i)) == Some(i)
  {
    var r := IndexAt(base, recs, Offset(base, recs, i));
    assert r.Some?;
    if r.value < i {
      OffsetsIncrease(base, recs, r.value, i);
    } else if i < r.value {
      OffsetsIncrease(base, recs, i, r.value);
    }
  }

  /** Every record holds its own offset. */
  predicate Aligned(base: int, recs: seq<LogRecord>)
  {
    forall i :: 0 <= i < |recs| ==> recs[i].start == Offset(base, recs, i)
  }

  /** Appending a record that holds the current end keeps the log aligned. */
  lemma {:induction false} AlignedAppend(base: int, recs: seq<LogRecord>, r: LogRecord)
    requires Aligned(base, recs) && r.start == End(base, recs)
    ensures Aligned(base, recs + [r])
    ensures End(base, recs + [r]) == End(base, recs) + RecordSize(r)
  {
    var recs' := recs + [r];
    forall i | 0 <= i < |recs'| ensures recs'[i].start == Offset(base, recs', i) {
      assert recs'[..i] == if i < |recs| then recs[..i] else recs;
    }
    SizeAppend(recs, [r]);
    assert [r][1..] == [];
  }

  /** Records, back to back. */
  function EncodeRecords(recs: seq<LogRecord>): (e: seq<byte>)
    requires forall i :: 0 <= i < |recs| ==> Encodable(recs[i])
    ensures |e| == Size(recs)
  {
    if recs == [] then [] else EncodeRecord(recs[0]) + EncodeRecords(recs[1..])
  }

  /** The whole file: the checkpoint pointer, when the file has one, then the records. */
  function EncodeLog(header: Option<int>, recs: seq<LogRecord>): (e: seq<byte>)
    requires header.Some? ==> InLong(header.value)
    requires forall i :: 0 <= i < |recs| ==> Encodable(recs[i])
    ensures |e| == End(Base(header), recs)
  {
    (if header.Some? then EncodeLong(header.value as int64) else []) + EncodeRecords(recs)
  }

  /** Where the records begin: after the 8-byte header, or at 0 in a file without one. */
  function Base(header: Option<int>): nat
  {
    if header.Some? then HEADER_SIZE else 0
  }

  lemma {:induction false} RecordsAppend(a: seq<LogRecord>, b: seq<LogRecord>)
    requires forall k :: 0 <= k < |a| ==> Encodable(a[k])
    requires forall k :: 0 <= k < |b| ==> Encodable(b[k])
    ensures forall k :: 0 <= k < |a + b| ==> Encodable((a + b)[k])
    ensures EncodeRecords(a + b) == EncodeRecords(a) + EncodeRecords(b)
  {
    if a == [] {
      assert a + b == b;
    } else {
      assert (a + b)[1..] == a[1..] + b;
      RecordsAppend(a[1..], b);
      AppendAssoc(EncodeRecord(a[0]), EncodeRecords(a[1..]), EncodeRecords(b));
    }
  }

  lemma {:induction false} RecordsSplit(recs: seq<LogRecord>, i: nat)
    requires i < |recs| && forall k :: 0 <= k < |recs| ==> Encodable(recs[k])
    ensures EncodeRecords(recs) == EncodeRecords(recs[..i]) + (EncodeRecord(recs[i]) + EncodeRecords(recs[i + 1..]))
  {
    var r := recs[i];
    assert recs[i..] == [r] + recs[i + 1..];
    assert [r][1..] == [];
    assert EncodeRecords([r] + recs[i + 1..]) == EncodeRecord(r) + EncodeRecords(recs[i + 1..]);
    assert recs == recs[..i] + recs[i..];
    RecordsAppend(recs[..i], recs[i..]);
  }


  /** The file holds the bytes of record i at the record's offset. */
  lemma {:induction false} LogHoldsRecord(header: Option<int>, recs: seq<LogRecord>, i: nat)
    requires header.Some? ==> InLong(header.value)
    requires i < |recs| && forall k :: 0 <= k < |recs| ==> Encodable(recs[k])
    ensures var s, x := EncodeLog(header, recs), Offset(Base(header), recs, i);
      0 <= x && x + RecordSize(recs[i]) <= |s| && s[x..x + RecordSize(recs[i])] == EncodeRecord(recs[i])
  {
    var head := if header.Some? then EncodeLong(header.value as int64) else [];
    var pre := head + EncodeRecords(recs[..i]);
    var post := EncodeRecords(recs[i + 1..]);
    RecordsSplit(recs, i);
    assert EncodeLog(header, recs) == head + (EncodeRecords(recs[..i]) + (EncodeRecord(recs[i]) + post));
    AppendAssoc(EncodeRecords(recs[..i]), EncodeRecord(recs[i]), post);
    AppendAssoc(head, EncodeRecords(recs[..i]) + EncodeRecord(recs[i]), post);
    AppendAssoc(head, EncodeRecords(recs[..i]), EncodeRecord(recs[i]));
    Middle(EncodeLog(header, recs), pre, EncodeRecord(recs[i]), post, Offset(Base(header), recs, i));
  }

  lemma {:induction false} Middle(s: seq<byte>, pre: seq<byte>, w: seq<byte>, post: seq<byte>, at: nat)
    requires s == pre + w + post && at == |pre|
    ensures at + |w| <= |s| && s[at..at + |w|] == w
  {
    assert forall k :: 0 <= k < |w| ==> s[at + k] == w[k];
  }
}
