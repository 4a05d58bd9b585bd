/**
 * HeapPage: one page of a heap file, held in memory. The header bitmap and the
 * slot array are fixed-size buffers updated in place; tupleList and unusedList
 * are the slot lists getNumUnusedSlots rebuilds from the bitmap. The class
 * keeps the corrected, duplicate-free cache of HeapPageSlots.ScanCaches; the
 * source's cache, which can repeat a slot, is HeapPageSlots.ScanAsWritten.
 *
 * A slot's tuple is kept as its row of fields. Every tuple a page reads or
 * takes in carries the record id (page id, slot number), so the record id is
 * implied by the slot and not stored here.
 */
module HeapPages {
  import opened Wrappers
  import opened Bits
  import opened ByteCodec
  import opened Ids
  import opened Schema
  import opened Records
  import opened FieldCodec
  import opened HeapPageFormat
  import opened HeapPageSlots

  class HeapPage {
    const pid: PageIdObject
    const td: TupleDesc
    const pageSize: nat
    const numSlots: nat
    const header: array<byte>
    const tuples: array<Option<Row>>
    var tupleList: seq<nat>
    var unusedList: seq<nat>
    var isDirty: bool
    var transactionId: Option<TransactionId>
    var oldData: seq<byte>

    /** The layout of the page, and slot lists that agree with its bitmap. */
    ghost predicate Valid()
      reads this, header
    {
      Shaped() &&
      ListsValid(UsedBits(header[..], numSlots), SlotLists(tupleList, unusedList), numSlots)
    }

    /** The header has one bit per slot and there is one tuple cell per slot. */
    ghost predicate Shaped()
      reads this
    {
      numSlots == NumTuples(pageSize, td.GetSize()) && header.Length == HeaderSize(numSlots) &&
      tuples.Length == numSlots
    }

    /** The page as a value: its header bytes and its slots. */
    ghost function Content(): PageContent
      reads this, header, tuples
    {
      PageContent(header[..], tuples[..])
    }

    /** The used bits of the page's slots. */
    ghost function Used(): (u: seq<bool>)
      reads this, header
      requires Valid()
      ensures |u| == numSlots
    {
      UsedBits(header[..], numSlots)
    }

    ghost function Lists(): SlotLists
      reads this
    {
      SlotLists(tupleList, unusedList)
    }

    /** A page built from a header and slots already read; both lists start empty. */
    constructor (id: PageIdObject, desc: TupleDesc, size: nat, h: array<byte>, t: array<Option<Row>>)
      requires h.Length == HeaderSize(NumTuples(size, desc.GetSize())) && t.Length == NumTuples(size, desc.GetSize())
      ensures Valid() && pid == id && td == desc && pageSize == size && header == h && tuples == t
      ensures tupleList == [] && unusedList == [] && !isDirty && transactionId == None && oldData == []
    {
      pid := id;
      td := desc;
      pageSize := size;
      numSlots := NumTuples(size, desc.GetSize());
      header := h;
      tuples := t;
      tupleList := [];
      unusedList := [];
      isDirty := false;
      transactionId := None;
      oldData := [];
    }

    /**
     * new HeapPage(id, data): reads the header bytes one by one (running out is
     * an IOException), then the slots in order until one fails to read, which
     * ends the reading and leaves the remaining slots null; finally takes the
     * before-image, which fails on a null used slot. The schema and the page
     * size, which the source looks up in the catalog and the buffer pool, are
     * parameters.
     */
    static method Decode(id: PageIdObject, desc: TupleDesc, size: nat, data: seq<byte>) returns (r: Result<HeapPage>)
      ensures r.Err? <==> DecodePage(desc, size, data).Err?
      ensures r.Err? ==> r.error == DecodePage(desc, size, data).error
      ensures r.Ok? ==> fresh(r.value) && fresh(r.value.header) && fresh(r.value.tuples) && r.value.Valid()
      ensures r.Ok? ==> r.value.pid == id && r.value.td == desc && r.value.pageSize == size
      ensures r.Ok? ==> r.value.Content() == DecodePage(desc, size, data).value
      ensures r.Ok? ==> r.value.tupleList == [] && r.value.unusedList == [] && !r.value.isDirty && r.value.transactionId == None
      ensures r.Ok? ==> EncodePage(desc, size, r.value.Content()) == Ok(r.value.oldData)
    {
      var n := NumTuples(size, desc.GetSize());
      var readHeader := ReadHeader(data, HeaderSize(n));
      if readHeader.Err? {
        return Err(readHeader.error);
      }
      var header := readHeader.value;
      var tuples, k, stopped := ReadSlots(desc, data, header, n);
      SlotLoopDone(desc, size, data, tuples[..], k, stopped);
      var page := new HeapPage(id, desc, size, header, tuples);
      var before := page.SetBeforeImage();
      if before.Fail? {
        return Err(before.error);
      }
      r := Ok(page);
    }

    /** The header loop of new HeapPage(id, data): the first h bytes, an IOException when data is shorter. */
    static method ReadHeader(data: seq<byte>, h: nat) returns (r: Result<array<byte>>)
      ensures r.Err? <==> |data| < h
      ensures r.Err? ==> r.error == IOException
      ensures r.Ok? ==> fresh(r.value) && r.value[..] == data[..h]
    {
      var header := new byte[h];
      for i := 0 to h
        invariant i <= |data| && header[..i] == data[..i]
      {
        if i >= |data| {
          return Err(IOException);
        }
        header[i] := data[i];
      }
      assert header[..] == header[..h];
      r := Ok(header);
    }

    /**
     * The slot loop of new HeapPage(id, data): readNextTuple slot by slot
     * from the end of the header, until a slot fails (stopped, at slot k).
     */
    static method ReadSlots(desc: TupleDesc, data: seq<byte>, header: array<byte>, n: nat)
      returns (tuples: array<Option<Row>>, ghost k: nat, ghost stopped: bool)
      requires n <= 8 * header.Length
      ensures fresh(tuples) && tuples.Length == n
      ensures k <= n && (!stopped ==> k == n) && (stopped ==> k < n && Stop(desc, data, header[..], k))
      ensures forall j :: 0 <= j < k ==> tuples[j] == ReadSlot(desc, data, header[..], j)
      ensures forall j :: k <= j < n ==> tuples[j] == None
    {
      ghost var hdr := header[..];
      var h := header.Length;
      var w := desc.GetSize();
      tuples := new Option<Row>[n](_ => None);
      var pos := h;
      var i := 0;
      while i < n
        invariant 0 <= i <= n && pos == SlotOffset(h, i, w)
        invariant forall j :: 0 <= j < i ==> tuples[j] == ReadSlot(desc, data, hdr, j)
        invariant forall j :: i <= j < n ==> tuples[j] == None
      {
        var t, next := ReadNextTuple(desc, data, pos, header[..], i);
        if t.Err? {
          assert Stop(desc, data, hdr, i);
          return tuples, i, true;
        }
        assert t.value == ReadSlot(desc, data, hdr, i);
        tuples[i] := t.value;
        assert (i + 1) * w == i * w + w;
        pos := next;
        i := i + 1;
      }
      k, stopped := n, false;
    }

    /**
     * readNextTuple: the tuple of slot slotId starting at pos. An empty slot
     * skips td.getSize() bytes and yields null; a used one parses the fields in
     * order. Running out of bytes or a field that does not parse is a
     * NoSuchElementException.
     */
    static method ReadNextTuple(desc: TupleDesc, data: seq<byte>, pos: nat, hdr: seq<byte>, slotId: nat)
      returns (r: Result<Option<Row>>, next: nat)
      requires slotId < 8 * |hdr|
      ensures r.Ok? <==> if SlotUsed(hdr, slotId) then ParseRow(desc.Items(), |desc.Items()|, data, pos).Some?
                         else desc.GetSize() == 0 || pos + desc.GetSize() <= |data|
      ensures r.Ok? ==> r.value == (if SlotUsed(hdr, slotId) then ParseRow(desc.Items(), |desc.Items()|, data, pos) else None)
      ensures r.Ok? ==> next == pos + desc.GetSize()
      ensures r.Err? ==> r.error == NoSuchElementException
    {
      if !SlotUsed(hdr, slotId) {
        r, next := SkipSlot(desc.GetSize(), data, pos);
        return;
      }
      var row;
      row, next := ReadRow(desc.Items(), data, pos);
      if row.None? {
        return Err(NoSuchElementException), next;
      }
      GetSizeIsWidth(desc);
      r := Ok(row);
    }

    /** readNextTuple on an empty slot: size bytes skipped, each of them required to be there. */
    static method SkipSlot(size: nat, data: seq<byte>, pos: nat) returns (r: Result<Option<Row>>, next: nat)
      ensures r.Ok? <==> size == 0 || pos + size <= |data|
      ensures r.Ok? ==> r.value == None && next == pos + size
      ensures r.Err? ==> r.error == NoSuchElementException
    {
      for i := 0 to size
        invariant i == 0 || pos + i <= |data|
      {
        if pos + i >= |data| {
          return Err(NoSuchElementException), pos + i;
        }
      }
      return Ok(None), pos + size;
    }

    /** readNextTuple on a used slot: the fields read one after the other; None when one does not parse. */
    static method ReadRow(items: seq<TDItem>, data: seq<byte>, pos: nat) returns (r: Option<Row>, next: nat)
      ensures r == ParseRow(items, |items|, data, pos)
      ensures r.Some? ==> next == pos + PrefixWidth(items, |items|)
    {
      var row: Row := [];
      var p := pos;
      for j := 0 to |items|
        invariant ParseRow(items, j, data, pos) == Some(row)
        invariant p == pos + PrefixWidth(items, j)
      {
        var f := ParseField(items[j].fieldType, data, p);
        ParseRowNext(items, j, data, pos, row, f);
        if f.None? {
          ParseRowNoneExtends(items, j + 1, |items|, data, pos);
          return None, p;
        }
        row := row + [f];
        p := p + TypeLen(items[j].fieldType);
      }
      return Some(row), p;
    }

    /** isSlotUsed: the slot's header bit; past the header an IndexOutOfBoundsException. */
    function IsSlotUsed(i: nat): (r: Result<bool>)
      reads header
      ensures r.Ok? <==> i < 8 * header.Length
      ensures r.Ok? ==> r.value == SlotUsed(header[..], i)
    {
      if i / 8 < header.Length then Ok(GetBit(header[i / 8], i % 8) == 1) else Err(IndexOutOfBoundsException)
    }

    /** markSlotUsed: the slot's header bit set to value, every other bit kept. */
    method MarkSlotUsed(i: nat, value: bool)
      requires i < 8 * header.Length
      modifies header
      ensures header[..] == MarkSlot(old(header[..]), i, value)
    {
      var index := i / 8;
      header[index] := SetBit(header[index], i % 8, if value then 1 else 0);
    }

    /**
     * getNumUnusedSlots: walks the slots, cursor `index` on the header byte of
     * slot i, and counts the clear ones; a clear slot leaves tupleList and is
     * cached in unusedList, a used slot not yet listed joins tupleList. The
     * cache is the corrected one: a clear slot is added only when absent.
     */
    method GetNumUnusedSlots() returns (count: nat)
      requires Valid()
      modifies this`tupleList, this`unusedList
      ensures Valid()
      ensures Lists() == Scan(Used(), old(Lists()), numSlots)
      ensures Synced(Used(), Lists(), numSlots)
      ensures count == CountClear(header[..], numSlots) && count == |unusedList|
    {
      ghost var used := Used();
      ghost var l0 := Lists();
      count := ScanSlots();
      ScanCaches(used, l0, numSlots);
      CountClearBits(header[..], numSlots);
      assert used[..numSlots] == used;
    }

    /** The loop of getNumUnusedSlots: every slot's bit, in order, with the clear ones counted. */
    method ScanSlots() returns (count: nat)
      requires Shaped()
      modifies this`tupleList, this`unusedList
      ensures Lists() == Scan(UsedBits(header[..], numSlots), old(Lists()), numSlots)
      ensures count == CountFree(UsedBits(header[..], numSlots)[..numSlots])
    {
      ghost var used := UsedBits(header[..], numSlots);
      ghost var l0 := Lists();
      count := 0;
      var index := -1;
      var i := 0;
      while i < numSlots
        invariant 0 <= i <= numSlots && |used| == numSlots
        invariant index == (i - 1) / 8
        invariant used == UsedBits(header[..], numSlots)
        invariant Lists() == Scan(used, l0, i)
        invariant count == CountFree(used[..i])
      {
        NextByte(i, index);
        if i % 8 == 0 {
          index := index + 1;
        }
        ghost var before := Lists();
        var clear := ScanStep(i, index);
        assert clear == !used[i] && Lists() == ScanSlot(used, before, i);
        if clear {
          count := count + 1;
        }
        CountFreeStep(used, i);
        i := i + 1;
      }
    }

    /** getNumUnusedSlots moves to the next header byte exactly when i % 8 == 0. */
    static lemma NextByte(i: nat, index: int)
      requires index == (i - 1) / 8
      ensures (if i % 8 == 0 then index + 1 else index) == i / 8
    {
    }

    /** One pass of getNumUnusedSlots' loop: reads slot i's bit and updates both lists for it (corrected cache). */
    method ScanStep(i: nat, index: int) returns (clear: bool)
      requires numSlots <= 8 * header.Length && i < numSlots && index == i / 8
      modifies this`tupleList, this`unusedList
      ensures clear == !UsedBits(header[..], numSlots)[i]
      ensures Lists() == ScanSlot(UsedBits(header[..], numSlots), old(Lists()), i)
    {
      BitAt(header[..], numSlots, i, index);
      var bit := GetBit(header[index], i % 8);
      clear := bit == 0;
      if bit == 0 {
        tupleList := Remove(tupleList, i);
        unusedList := AddOnce(unusedList, i);
      } else if i !in tupleList {
        tupleList := tupleList + [i];
        unusedList := Remove(unusedList, i);
      }
    }

    /**
     * insertTuple: rescans the slots; a full page or a tuple of another schema
     * is a DbException. Otherwise the first cached slot takes the tuple and
     * is marked used, and the tuple gets the record id (page, slot). With the
     * corrected cache that slot is always clear.
     */
    method InsertTuple(t: Tuple) returns (r: Outcome)
      requires Valid()
      modifies this`tupleList, this`unusedList, header, tuples, t`recordId
      ensures Valid()
      ensures var l := Scan(old(Used()), old(Lists()), numSlots);
              if CountClear(old(header[..]), numSlots) == 0 || !td.Equals(t.tupleDesc) then
                r == Fail(DbException) && Lists() == l &&
                header[..] == old(header[..]) && tuples[..] == old(tuples[..]) && t.recordId == old(t.recordId)
              else
                r == Done && |l.unusedList| > 0 && l.unusedList[0] < numSlots &&
                var s := l.unusedList[0];
                !old(Used())[s] && s !in l.tupleList &&
                header[..] == MarkSlot(old(header[..]), s, true) &&
                tuples[..] == old(tuples[..])[s := Some(t.fields)] &&
                Lists() == SlotLists(l.tupleList + [s], l.unusedList[1..]) &&
                t.recordId == Some(RecordId(pid, s))
    {
      ghost var used := Used();
      var count := GetNumUnusedSlots();
      if count == 0 || !td.Equals(t.tupleDesc) {
        return Fail(DbException);
      }
      PopKeeps(used, Lists(), numSlots);
      var index := unusedList[0];
      unusedList := unusedList[1..];
      tuples[index] := Some(t.fields);
      MarkSlotUsed(index, true);
      UsedBitsMark(old(header[..]), numSlots, index, true);
      tupleList := tupleList + [index];
      t.recordId := Some(RecordId(pid, index));
      r := Done;
    }

    /**
     * deleteTuple: a tuple without a record id is a NullPointerException; one
     * whose record id names another page object, or an empty slot, a
     * DbException; a slot past the header an IndexOutOfBoundsException.
     * Otherwise the slot is cleared, leaves tupleList and, if it is a slot of
     * the page, is cached in unusedList when absent (the corrected cache).
     */
    method DeleteTuple(t: Tuple) returns (r: Outcome)
      requires Valid()
      modifies this`tupleList, this`unusedList, header
      ensures Valid()
      ensures t.recordId.None? ==> r == Fail(NullPointerException)
      ensures t.recordId.Some? && t.recordId.value.pageId != pid ==> r == Fail(DbException)
      ensures t.recordId.Some? && t.recordId.value.pageId == pid ==>
                var s := t.recordId.value.tupleNumber;
                if s >= 8 * header.Length then r == Fail(IndexOutOfBoundsException)
                else if !SlotUsed(old(header[..]), s) then r == Fail(DbException)
                else r == Done && header[..] == MarkSlot(old(header[..]), s, false) &&
                     Lists() == DeleteSlot(old(Lists()), s, numSlots) &&
                     (Synced(old(Used()), old(Lists()), numSlots) ==> Synced(Used(), Lists(), numSlots))
      ensures r.Fail? ==> header[..] == old(header[..]) && Lists() == old(Lists())
    {
      if t.recordId.None? {
        return Fail(NullPointerException);
      }
      var rid := t.recordId.value;
      var index := rid.tupleNumber;
      if rid.pageId != pid {
        return Fail(DbException);
      }
      var used := IsSlotUsed(index);
      if used.Err? {
        return Fail(IndexOutOfBoundsException);
      }
      if !used.value {
        return Fail(DbException);
      }
      ghost var bits := Used();
      ghost var l0 := Lists();
      MarkSlotUsed(index, false);
      UsedBitsMark(old(header[..]), numSlots, index, false);
      tupleList := Remove(tupleList, index);
      if index < numSlots {
        unusedList := AddOnce(unusedList, index);
        UsedBitsAt(old(header[..]), numSlots, index);
        DeleteKeeps(bits, l0, index, numSlots);
      } else {
        RemoveKeepsDistinct(l0.tupleList, index);
      }
      r := Done;
    }

    /**
     * The bytes getPageData writes for slot i: td.getSize() zeros for an empty
     * slot, the serialized fields for a used one; a null tuple or field is a
     * NullPointerException.
     */
    method SlotRecord(i: nat) returns (r: Result<seq<byte>>)
      requires Shaped() && i < tuples.Length
      ensures r == SlotBytes(td, Content(), i)
      ensures r.Err? ==> r.error == NullPointerException
    {
      if !IsSlotUsed(i).value {
        var slot: seq<byte> := [];
        for j := 0 to td.GetSize()
          invariant slot == Zeros(j)
        {
          slot := slot + [0];
        }
        return Ok(slot);
      }
      var n := |td.Items()|;
      if tuples[i].None? {
        return if n == 0 then Ok([]) else Err(NullPointerException);
      }
      r := RowRecord(tuples[i].value, n);
    }

    /** The fields of a used slot's tuple serialized one after the other; a null field is a NullPointerException. */
    static method RowRecord(row: Row, n: nat) returns (r: Result<seq<byte>>)
      ensures r == RowBytes(row, n)
    {
      var slot: seq<byte> := [];
      for j := 0 to n
        invariant slot == Concat(FieldParts(row, j))
        invariant forall k :: 0 <= k < j ==> GetAt(row, k).Some?
      {
        var f := GetAt(row, j);
        if f.None? {
          return Err(NullPointerException);
        }
        assert FieldParts(row, j + 1)[..j] == FieldParts(row, j);
        slot := slot + SerializeField(f.value);
      }
      r := Ok(slot);
    }

    /**
     * getPageData: the header bytes, then each slot's record, then zero padding
     * up to the page size.
     */
    method GetPageData() returns (r: Result<seq<byte>>)
      requires Shaped()
      ensures r == EncodePage(td, pageSize, Content())
    {
      ghost var c := Content();
      ghost var parts := SlotParts(td, c);
      var out: seq<byte> := [];
      for b := 0 to header.Length
        invariant out == header[..b]
      {
        out := out + [header[b]];
      }
      for i := 0 to tuples.Length
        invariant out == c.header + Concat(parts[..i])
        invariant SlotsWritable(td, c, i)
      {
        var slot := SlotRecord(i);
        if slot.Err? {
          SlotFails(i);
          return Err(NullPointerException);
        }
        assert parts[i] == slot.value;
        ConcatNext(c.header, parts, i);
        out := out + slot.value;
      }
      var zerolen := pageSize - (header.Length + td.GetSize() * tuples.Length);
      EncodeWritable(td, pageSize, c, zerolen);
      if zerolen < 0 {
        return Err(NegativeArraySizeException);
      }
      assert parts[..tuples.Length] == parts;
      r := Ok(out + Zeros(zerolen));
    }

    /** A slot without record bytes makes the whole page fail to write with a NullPointerException. */
    lemma SlotFails(i: nat)
      requires Shaped() && i < tuples.Length && SlotBytes(td, Content(), i).Err?
      ensures EncodePage(td, pageSize, Content()) == Err(NullPointerException)
    {
    }

    /** setBeforeImage: oldData becomes the page's current bytes; getPageData's failure passes through. */
    method SetBeforeImage() returns (r: Outcome)
      requires Valid()
      modifies this`oldData
      ensures Valid()
      ensures var e := EncodePage(td, pageSize, Content());
              if e.Ok? then r == Done && oldData == e.value else r == Fail(e.error) && oldData == old(oldData)
    {
      var data := GetPageData();
      if data.Err? {
        return Fail(data.error);
      }
      oldData := data.value;
      r := Done;
    }

    /**
     * getBeforeImage: a new page parsed from oldData. An IOException of the
     * constructor is caught and ends the process (System.exit); any other
     * failure escapes. When oldData came from setBeforeImage on a well-formed
     * page, RoundTrip says the new page shows what this one showed then.
     */
    method GetBeforeImage() returns (r: Result<HeapPage>)
      ensures r.Err? <==> DecodePage(td, pageSize, oldData).Err?
      ensures r.Err? ==> var e := DecodePage(td, pageSize, oldData).error;
                         r.error == (if e == IOException then SystemExit else e)
      ensures r.Ok? ==> fresh(r.value) && r.value.Valid() && r.value.pid == pid && r.value.td == td
      ensures r.Ok? ==> r.value.Content() == DecodePage(td, pageSize, oldData).value
      ensures r.Ok? ==> EncodePage(td, pageSize, r.value.Content()) == Ok(r.value.oldData)
    {
      r := Decode(pid, td, pageSize, oldData);
      if r.Err? && r.error == IOException {
        r := Err(SystemExit);
      }
    }

    /** markDirty: the dirty flag, and the dirtying transaction only while dirty. */
    method MarkDirty(dirty: bool, tid: Option<TransactionId>)
      modifies this`isDirty, this`transactionId
      ensures isDirty == dirty && IsDirty() == (if dirty then tid else None)
    {
      isDirty := dirty;
      if dirty {
        transactionId := tid;
      } else {
        transactionId := None;
      }
    }

    /** isDirty: the transaction that last dirtied the page, none when clean. */
    function IsDirty(): Option<TransactionId>
      reads this
    {
      transactionId
    }

    /**
     * iterator: rescans the slots, then yields the tuples of tupleList in its
     * order: with the corrected cache, every used slot of the page, each
     * once, and no empty one.
     */
    method Iterator() returns (ts: seq<Option<Row>>)
      requires Valid()
      modifies this`tupleList, this`unusedList
      ensures Valid() && Lists() == Scan(Used(), old(Lists()), numSlots)
      ensures Distinct(tupleList) && Synced(Used(), Lists(), numSlots)
      ensures forall k :: 0 <= k < |tupleList| ==> tupleList[k] < tuples.Length
      ensures |ts| == |tupleList| && forall k :: 0 <= k < |ts| ==> ts[k] == tuples[tupleList[k]]
    {
      var _ := GetNumUnusedSlots();
      var slots := tuples[..];
      var list := tupleList;
      assert ListsValid(Used(), Lists(), numSlots);
      ListedBelow(list, |slots|);
      ts := Pick(slots, list);
    }
  }

  /** Every entry of a list whose members are below n is below n. */
  lemma {:induction false} ListedBelow(list: seq<nat>, n: nat)
    requires forall x :: x in list ==> x < n
    ensures forall k :: 0 <= k < |list| ==> list[k] < n
  {
    forall k | 0 <= k < |list|
      ensures list[k] < n
    {
      assert list[k] in list;
    }
  }

  /** The slots named by list, in the list's order. */
  function Pick(slots: seq<Option<Row>>, list: seq<nat>): (ts: seq<Option<Row>>)
    requires forall k :: 0 <= k < |list| ==> list[k] < |slots|
    ensures |ts| == |list| && forall k :: 0 <= k < |ts| ==> ts[k] == slots[list[k]]
  {
    seq(|list|, k requires 0 <= k < |list| => slots[list[k]])
  }

  /**
   * Slots read in full: the page bytes decode to these slots exactly when the
   * page they make can be written out, and decoding fails, on a null used slot,
   * exactly when writing fails.
   */
  lemma {:induction false} ReadSlotsDecode(desc: TupleDesc, size: nat, data: seq<byte>, tuples: seq<Option<Row>>)
    requires var n := NumTuples(size, desc.GetSize());
             HeaderSize(n) <= |data| && |tuples| == n &&
             forall j :: 0 <= j < n ==> tuples[j] == ReadSlot(desc, data, data[..HeaderSize(n)], j)
    ensures var c := PageContent(data[..HeaderSize(NumTuples(size, desc.GetSize()))], tuples);
            if DecodePage(desc, size, data).Ok? then DecodePage(desc, size, data).value == c && EncodePage(desc, size, c).Ok?
            else DecodePage(desc, size, data) == Err(NullPointerException) && EncodePage(desc, size, c) == Err(NullPointerException)
  {
    var n := NumTuples(size, desc.GetSize());
    var hdr := data[..HeaderSize(n)];
    var c := PageContent(hdr, tuples);
    assert tuples == seq(n, i requires 0 <= i < n => ReadSlot(desc, data, hdr, i));
    if DecodePage(desc, size, data).Ok? {
      DecodedPageWellFormed(desc, size, data);
      WellFormedEncodable(desc, size, c);
      EncodePageLength(desc, size, c);
    } else {
      var i :| 0 <= i < n && SlotUsed(hdr, i) && ReadSlot(desc, data, hdr, i).None?;
      assert |desc.Items()| > 0;
      assert SlotBytes(desc, c, i).Err?;
    }
  }

  /** Why the slot loop of new HeapPage(id, data) breaks at slot k. */
  predicate Stop(desc: TupleDesc, data: seq<byte>, hdr: seq<byte>, k: nat)
    requires k < 8 * |hdr|
  {
    if SlotUsed(hdr, k) then ReadSlot(desc, data, hdr, k).None?
    else desc.GetSize() > 0 && SlotOffset(|hdr|, k, desc.GetSize()) + desc.GetSize() > |data|
  }

  /**
   * After the slot loop: the tuples read, with null from the slot where it
   * stopped on, are the decoded page's, or decoding and writing both fail with
   * a NullPointerException.
   */
  lemma {:induction false} SlotLoopDone(desc: TupleDesc, size: nat, data: seq<byte>, tuples: seq<Option<Row>>, k: nat, stopped: bool)
    requires HeaderSize(NumTuples(size, desc.GetSize())) <= |data|
    requires var n := NumTuples(size, desc.GetSize());
             var hdr := data[..HeaderSize(n)];
             |tuples| == n && k <= n && (!stopped ==> k == n) && (stopped ==> k < n && Stop(desc, data, hdr, k)) &&
             (forall j :: 0 <= j < k ==> tuples[j] == ReadSlot(desc, data, hdr, j)) &&
             (forall j :: k <= j < n ==> tuples[j] == None)
    ensures var c := PageContent(data[..HeaderSize(NumTuples(size, desc.GetSize()))], tuples);
            if DecodePage(desc, size, data).Ok? then DecodePage(desc, size, data).value == c && EncodePage(desc, size, c).Ok?
            else DecodePage(desc, size, data) == Err(NullPointerException) && EncodePage(desc, size, c) == Err(NullPointerException)
  {
    var n := NumTuples(size, desc.GetSize());
    var hdr := data[..HeaderSize(n)];
    if stopped && SlotUsed(hdr, k) {
      StoppedAtUsed(desc, size, data, tuples, k);
    } else {
      if stopped {
        forall j | k <= j < n
          ensures tuples[j] == ReadSlot(desc, data, hdr, j)
        {
          if j > k {
            StoppedAtShort(desc, size, data, k, j);
          }
        }
      }
      ReadSlotsDecode(desc, size, data, tuples);
    }
  }

  /** Reading stopped at a used slot that does not parse: decoding and writing both fail. */
  lemma {:induction false} StoppedAtUsed(desc: TupleDesc, size: nat, data: seq<byte>, tuples: seq<Option<Row>>, k: nat)
    requires HeaderSize(NumTuples(size, desc.GetSize())) <= |data|
    requires var n := NumTuples(size, desc.GetSize());
             var hdr := data[..HeaderSize(n)];
             |tuples| == n && k < n && tuples[k].None? && SlotUsed(hdr, k) && ReadSlot(desc, data, hdr, k).None?
    ensures DecodePage(desc, size, data) == Err(NullPointerException)
    ensures EncodePage(desc, size, PageContent(data[..HeaderSize(NumTuples(size, desc.GetSize()))], tuples)) == Err(NullPointerException)
  {
    var n := NumTuples(size, desc.GetSize());
    var c := PageContent(data[..HeaderSize(n)], tuples);
    assert |desc.Items()| > 0;
    assert SlotBytes(desc, c, k).Err?;
  }

  /** Reading stopped at an empty slot that runs past the data: no later used slot parses either. */
  lemma {:induction false} StoppedAtShort(desc: TupleDesc, size: nat, data: seq<byte>, k: nat, j: nat)
    requires var n := NumTuples(size, desc.GetSize());
             var h := HeaderSize(n);
             h <= |data| && k < j < n && SlotOffset(h, k, desc.GetSize()) + desc.GetSize() > |data|
    ensures ReadSlot(desc, data, data[..HeaderSize(NumTuples(size, desc.GetSize()))], j) == None
  {
    var n := NumTuples(size, desc.GetSize());
    var h := HeaderSize(n);
    var hdr := data[..h];
    var w := desc.GetSize();
    var items := desc.Items();
    SlotOffsetLater(h, k, j, w);
    GetSizeIsWidth(desc);
    ParseRowNeedsBytes(items, |items|, data, SlotOffset(h, j, w));
  }
}
