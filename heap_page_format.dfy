/**
 * The byte layout of a heap page: a header bitmap of ceil(numSlots / 8) bytes
 * (slot i is bit i % 8, least significant first, of byte i / 8), then numSlots
 * records of tupleSize bytes each (zeros for an empty slot), then zero padding
 * up to the page size. numSlots is the largest n with n * (8 * tupleSize + 1)
 * bits fitting in the page.
 */
module HeapPageFormat {
  import opened Wrappers
  import opened ByteCodec
  import opened Bits
  import opened Schema
  import opened Records
  import opened FieldCodec
  import JavaInts

  /** getNumTuples: floor(pageSize * 8 / (tupleSize * 8 + 1)), in integers. */
  function NumTuples(pageSize: nat, tupleSize: nat): nat
  {
    JavaInts.DivNat(pageSize * 8, tupleSize * 8 + 1)
  }

  /** numSlots is the largest count whose records and header bits fit in the page. */
  lemma {:induction false} NumTuplesIsFloor(pageSize: nat, tupleSize: nat)
    ensures var n := NumTuples(pageSize, tupleSize);
      n * (tupleSize * 8 + 1) <= pageSize * 8 < (n + 1) * (tupleSize * 8 + 1)
  {
    JavaInts.DivBounds(pageSize * 8, tupleSize * 8 + 1);
  }

  /** getHeaderSize: ceil(numSlots / 8). */
  function HeaderSize(numSlots: nat): (h: nat)
    ensures numSlots <= 8 * h < numSlots + 8
  {
    (numSlots + 7) / 8
  }

  /** The header and the records always fit in the page, leaving a padding of at least zero bytes. */
  lemma {:induction false} LayoutFits(pageSize: nat, tupleSize: nat)
    ensures HeaderSize(NumTuples(pageSize, tupleSize)) + NumTuples(pageSize, tupleSize) * tupleSize <= pageSize
  {
    var n := NumTuples(pageSize, tupleSize);
    NumTuplesIsFloor(pageSize, tupleSize);
    var h := HeaderSize(n);
    var x := n * tupleSize;
    assert n * (tupleSize * 8 + 1) == 8 * x + n;
    assert 8 * (h + x) <= 8 * pageSize + 7;
  }

  /** Where the record of slot i starts: after the header and i records of tupleSize bytes. */
  function SlotOffset(headerSize: nat, i: nat, tupleSize: nat): nat
  {
    headerSize + i * tupleSize
  }

  /** setBit: x with bit n replaced by v (0 or 1), every other bit unchanged. */
  function SetBit(x: byte, n: nat, v: int): (r: byte)
    requires n < 8 && (v == 0 || v == 1)
    ensures GetBit(r, n) == v
    ensures forall m :: 0 <= m < 8 && m != n ==> GetBit(r, m) == GetBit(x, m)
  {
    WithBit(x, n, v == 1)
  }

  /** isSlotUsed: bit i % 8 of header byte i / 8. */
  predicate SlotUsed(header: seq<byte>, i: nat)
    requires i < 8 * |header|
  {
    GetBit(header[i / 8], i % 8) == 1
  }

  /** markSlotUsed on a header value: slot i takes the value, no other slot changes. */
  function MarkSlot(header: seq<byte>, i: nat, value: bool): (r: seq<byte>)
    requires i < 8 * |header|
    ensures |r| == |header|
    ensures SlotUsed(r, i) == value
    ensures forall j :: 0 <= j < 8 * |header| && j != i ==> SlotUsed(r, j) == SlotUsed(header, j)
  {
    var r := header[i / 8 := SetBit(header[i / 8], i % 8, if value then 1 else 0)];
    assert forall j :: 0 <= j < 8 * |header| && j != i && j / 8 == i / 8 ==> j % 8 != i % 8;
    r
  }

  /** The number of clear slots among the first n. */
  function CountClear(header: seq<byte>, n: nat): (c: nat)
    requires n <= 8 * |header|
    ensures c <= n
  {
    if n == 0 then 0 else CountClear(header, n - 1) + (if SlotUsed(header, n - 1) then 0 else 1)
  }

  /** There is a clear slot below n exactly when the count is positive. */
  lemma {:induction false} CountClearPositive(header: seq<byte>, n: nat)
    requires n <= 8 * |header|
    ensures CountClear(header, n) > 0 <==> exists i :: 0 <= i < n && !SlotUsed(header, i)
  {
    if n > 0 {
      CountClearPositive(header, n - 1);
    }
  }

  /** A page's header and its slots' tuples, as values. */
  datatype PageContent = PageContent(header: seq<byte>, tuples: seq<Option<Row>>)

  /** Byte strings written one after another. */
  function Concat(parts: seq<seq<byte>>): seq<byte>
  {
    if |parts| == 0 then [] else Concat(parts[..|parts| - 1]) + parts[|parts| - 1]
  }

  /** A prefix written after a head grows by the next part. */
  lemma {:induction false} ConcatNext(head: seq<byte>, parts: seq<seq<byte>>, i: nat)
    requires i < |parts|
    ensures head + Concat(parts[..i + 1]) == (head + Concat(parts[..i])) + parts[i]
  {
    assert parts[..i + 1][..i] == parts[..i];
    AppendAssoc(head, Concat(parts[..i]), parts[i]);
  }

  /** Part j sits in the concatenation right after the parts before it. */
  lemma {:induction false} ConcatAt(parts: seq<seq<byte>>, j: nat)
    requires j < |parts|
    ensures |Concat(parts[..j])| + |parts[j]| <= |Concat(parts)|
    ensures Concat(parts)[|Concat(parts[..j])|..|Concat(parts[..j])| + |parts[j]|] == parts[j]
  {
    var k := |parts| - 1;
    var init := parts[..k];
    assert Concat(parts) == Concat(init) + parts[k];
    if j == k {
      assert init == parts[..j];
    } else {
      assert init[..j] == parts[..j];
      assert init[j] == parts[j];
      ConcatAt(init, j);
    }
  }

  /** Parts all of width w concatenate to |parts| * w bytes. */
  lemma {:induction false} ConcatUniform(parts: seq<seq<byte>>, w: nat)
    requires forall i :: 0 <= i < |parts| ==> |parts[i]| == w
    ensures |Concat(parts)| == |parts| * w
  {
    if |parts| > 0 {
      var k := |parts| - 1;
      ConcatUniform(parts[..k], w);
      assert k * w + w == |parts| * w;
    }
  }

  /** Parts as wide as the schema's fields concatenate to the schema's prefix width. */
  lemma {:induction false} ConcatWidths(parts: seq<seq<byte>>, items: seq<TDItem>)
    requires |parts| <= |items|
    requires forall i :: 0 <= i < |parts| ==> |parts[i]| == TypeLen(items[i].fieldType)
    ensures |Concat(parts)| == PrefixWidth(items, |parts|)
  {
    if |parts| > 0 {
      ConcatWidths(parts[..|parts| - 1], items);
    }
  }

  /** The bytes field.serialize writes for a field; nothing for null. */
  function FieldBytes(g: Option<Field>): seq<byte>
  {
    if g.None? then [] else SerializeField(g.value)
  }

  /** The serialized images of a tuple's first n fields. */
  function FieldParts(row: Row, n: nat): (parts: seq<seq<byte>>)
    ensures |parts| == n
  {
    seq(n, j => FieldBytes(GetAt(row, j)))
  }

  /** The bytes a tuple's first n fields serialize to; a null field is a NullPointerException. */
  function RowBytes(row: Row, n: nat): Result<seq<byte>>
  {
    if exists j :: 0 <= j < n && GetAt(row, j).None? then Err(NullPointerException)
    else Ok(Concat(FieldParts(row, n)))
  }

  predicate FieldsWellFormed(row: Row)
  {
    forall i :: 0 <= i < |row| ==> row[i].Some? && WellFormed(row[i].value)
  }

  /** A tuple whose fields match the schema's types and can be parsed back. */
  predicate RowFits(td: TupleDesc, row: Row)
  {
    WellTyped(row, td.Types()) && FieldsWellFormed(row)
  }

  /** A well-typed row serializes to exactly the width of the schema's prefix. */
  lemma {:induction false} RowBytesWidth(items: seq<TDItem>, row: Row, n: nat)
    requires |row| == |items| && n <= |items|
    requires forall i :: 0 <= i < |row| ==> row[i].Some? && FieldType(row[i].value) == items[i].fieldType
    ensures RowBytes(row, n).Ok? && |RowBytes(row, n).value| == PrefixWidth(items, n)
  {
    var parts := FieldParts(row, n);
    assert forall i :: 0 <= i < n ==> parts[i] == SerializeField(row[i].value);
    ConcatWidths(parts, items);
  }

  /** The record bytes of slot i of a page. */
  function SlotBytes(td: TupleDesc, c: PageContent, i: nat): Result<seq<byte>>
    requires i < |c.tuples| && i < 8 * |c.header|
  {
    var n := |td.Items()|;
    if !SlotUsed(c.header, i) then Ok(Zeros(td.GetSize()))
    else if c.tuples[i].None? then (if n == 0 then Ok([]) else Err(NullPointerException))
    else RowBytes(c.tuples[i].value, n)
  }

  /** The record bytes of every slot, in slot order; nothing for a slot that fails. */
  function SlotParts(td: TupleDesc, c: PageContent): (parts: seq<seq<byte>>)
    requires |c.tuples| <= 8 * |c.header|
    ensures |parts| == |c.tuples|
  {
    seq(|c.tuples|, i requires 0 <= i < |c.tuples| => if SlotBytes(td, c, i).Ok? then SlotBytes(td, c, i).value else [])
  }

  /**
   * getPageData: header, records, then zero padding to the page size; a used
   * slot with a null field is a NullPointerException, and a page whose records
   * overrun the page size a NegativeArraySizeException.
   */
  function EncodePage(td: TupleDesc, pageSize: nat, c: PageContent): Result<seq<byte>>
    requires |c.tuples| <= 8 * |c.header|
  {
    var zerolen := pageSize - (|c.header| + td.GetSize() * |c.tuples|);
    if exists i :: 0 <= i < |c.tuples| && SlotBytes(td, c, i).Err? then Err(NullPointerException)
    else if zerolen < 0 then Err(NegativeArraySizeException)
    else Ok(c.header + Concat(SlotParts(td, c)) + Zeros(zerolen))
  }

  /** Type.parse of the first n fields of a record starting at pos; None where a field does not parse. */
  function ParseRow(items: seq<TDItem>, n: nat, data: seq<byte>, pos: nat): (r: Option<Row>)
    requires n <= |items|
    ensures r.Some? ==> |r.value| == n
  {
    if n == 0 then Some([])
    else
      var prefix := ParseRow(items, n - 1, data, pos);
      if prefix.None? then None
      else
        var f := ParseField(items[n - 1].fieldType, data, pos + PrefixWidth(items, n - 1));
        if f.None? then None else Some(prefix.value + [f])
  }

  /** A parsed record holds well-formed fields of the listed types, and needed all its bytes. */
  lemma {:induction false} ParseRowShape(items: seq<TDItem>, n: nat, data: seq<byte>, pos: nat)
    requires n <= |items| && ParseRow(items, n, data, pos).Some?
    ensures n > 0 ==> pos + PrefixWidth(items, n) <= |data|
    ensures FieldsWellFormed(ParseRow(items, n, data, pos).value)
    ensures forall i :: 0 <= i < n ==> FieldType(ParseRow(items, n, data, pos).value[i].value) == items[i].fieldType
  {
    if n > 0 {
      ParseRowShape(items, n - 1, data, pos);
    }
  }

  /** The tuple readNextTuple builds for slot i: null for an empty slot, None where a used slot fails to parse. */
  function ReadSlot(td: TupleDesc, data: seq<byte>, header: seq<byte>, i: nat): Option<Row>
    requires i < 8 * |header|
  {
    if !SlotUsed(header, i) then None
    else ParseRow(td.Items(), |td.Items()|, data, SlotOffset(|header|, i, td.GetSize()))
  }

  /**
   * new HeapPage(id, data): the header bytes (an IOException if data is too short),
   * then every slot; a used slot that does not parse is left null, and the
   * before-image taken at the end of the constructor then dereferences it.
   */
  function DecodePage(td: TupleDesc, pageSize: nat, data: seq<byte>): Result<PageContent>
  {
    var n := NumTuples(pageSize, td.GetSize());
    var h := HeaderSize(n);
    if |data| < h then Err(IOException)
    else
      var header := data[..h];
      var tuples := seq(n, i requires 0 <= i < n => ReadSlot(td, data, header, i));
      if exists i :: 0 <= i < n && SlotUsed(header, i) && ReadSlot(td, data, header, i).None? then
        Err(NullPointerException)
      else Ok(PageContent(header, tuples))
  }

  /** A record parses only when all its bytes are there. */
  lemma {:induction false} ParseRowNeedsBytes(items: seq<TDItem>, n: nat, data: seq<byte>, pos: nat)
    requires n <= |items|
    ensures ParseRow(items, n, data, pos).Some? && n > 0 ==> pos + PrefixWidth(items, n) <= |data|
  {
    if n > 0 {
      ParseRowNeedsBytes(items, n - 1, data, pos);
    }
  }

  /** Reading field j after the first j fields: the record grows by it, or fails with it. */
  lemma {:induction false} ParseRowNext(items: seq<TDItem>, j: nat, data: seq<byte>, pos: nat, row: Row, f: Option<Field>)
    requires j < |items| && ParseRow(items, j, data, pos) == Some(row)
    requires f == ParseField(items[j].fieldType, data, pos + PrefixWidth(items, j))
    ensures ParseRow(items, j + 1, data, pos) == if f.None? then None else Some(row + [f])
    ensures PrefixWidth(items, j + 1) == PrefixWidth(items, j) + TypeLen(items[j].fieldType)
  {
  }

  /** A record that fails to parse within its first j fields fails within any longer prefix. */
  lemma {:induction false} ParseRowNoneExtends(items: seq<TDItem>, j: nat, n: nat, data: seq<byte>, pos: nat)
    requires j <= n <= |items| && ParseRow(items, j, data, pos).None?
    ensures ParseRow(items, n, data, pos).None?
  {
    if n > j {
      ParseRowNoneExtends(items, j, n - 1, data, pos);
    }
  }

  /** Slots lie one after another: a later slot starts at or past the end of an earlier one. */
  lemma {:induction false} SlotOffsetLater(h: nat, i: nat, j: nat, w: nat)
    requires i < j
    ensures SlotOffset(h, i, w) + w <= SlotOffset(h, j, w)
  {
    assert j * w == (j - 1) * w + w;
    if j - 1 > i {
      SlotOffsetLater(h, i, j - 1, w);
    }
  }

  /** A page value whose used slots hold tuples of the schema's shape. */
  predicate WellFormedPage(td: TupleDesc, pageSize: nat, c: PageContent)
  {
    var n := NumTuples(pageSize, td.GetSize());
    |c.header| == HeaderSize(n) && |c.tuples| == n &&
    forall i :: 0 <= i < n && SlotUsed(c.header, i) ==> c.tuples[i].Some? && RowFits(td, c.tuples[i].value)
  }

  /** What a page shows on disk: empty slots hold nothing. */
  function Visible(c: PageContent): (v: PageContent)
    requires |c.tuples| <= 8 * |c.header|
    ensures v.header == c.header && |v.tuples| == |c.tuples|
  {
    PageContent(c.header, seq(|c.tuples|, i requires 0 <= i < |c.tuples| => if SlotUsed(c.header, i) then c.tuples[i] else None))
  }

  lemma {:induction false} SubSlice(data: seq<byte>, pos: nat, n: nat, a: nat, b: nat)
    requires pos + n <= |data| && a <= b <= n
    ensures data[pos..pos + n][a..b] == data[pos + a..pos + b]
  {
    var t := data[pos..pos + n][a..b];
    forall k | 0 <= k < |t|
      ensures t[k] == data[pos + a + k]
    {
    }
  }

  /** In bytes holding the parts of a record, part j sits at the schema offset of field j. */
  lemma {:induction false} PartAtOffset(items: seq<TDItem>, parts: seq<seq<byte>>, data: seq<byte>, pos: nat, j: nat)
    requires j < |parts| <= |items|
    requires forall i :: 0 <= i < |parts| ==> |parts[i]| == TypeLen(items[i].fieldType)
    requires pos + |Concat(parts)| <= |data| && data[pos..pos + |Concat(parts)|] == Concat(parts)
    ensures pos + PrefixWidth(items, j) + |parts[j]| <= |data|
    ensures data[pos + PrefixWidth(items, j)..pos + PrefixWidth(items, j) + |parts[j]|] == parts[j]
  {
    var bytes := Concat(parts);
    var init := parts[..j];
    assert forall i :: 0 <= i < |init| ==> |init[i]| == TypeLen(items[i].fieldType);
    ConcatAt(parts, j);
    ConcatWidths(init, items);
    var off := PrefixWidth(items, j);
    var len := |parts[j]|;
    assert off == |Concat(init)|;
    assert bytes[off..off + len] == parts[j];
    SubSlice(data, pos, |bytes|, off, off + len);
  }

  /** The bytes of field j of a row, found at off, parse back to field j. */
  lemma {:induction false} FieldPartParses(row: Row, j: nat, data: seq<byte>, off: nat)
    requires j < |row| && row[j].Some? && WellFormed(row[j].value)
    requires off + |FieldParts(row, |row|)[j]| <= |data|
    requires data[off..off + |FieldParts(row, |row|)[j]|] == FieldParts(row, |row|)[j]
    ensures ParseField(FieldType(row[j].value), data, off) == row[j]
  {
    var f := row[j].value;
    var bytes := FieldParts(row, |row|)[j];
    assert bytes == SerializeField(f);
    ParseSerialized(FieldType(f), f, bytes, data, off);
  }

  /** Field j of a serialized row parses back at its offset. */
  lemma {:induction false} FieldParses(items: seq<TDItem>, row: Row, data: seq<byte>, pos: nat, j: nat)
    requires |row| == |items| && j < |row| && row[j].Some? && WellFormed(row[j].value)
    requires forall i {:trigger row[i]} :: 0 <= i < |row| ==> row[i].Some? && FieldType(row[i].value) == items[i].fieldType
    requires pos + PrefixWidth(items, |items|) <= |data|
    requires data[pos..pos + PrefixWidth(items, |items|)] == Concat(FieldParts(row, |row|))
    ensures ParseField(items[j].fieldType, data, pos + PrefixWidth(items, j)) == Some(row[j].value)
  {
    FieldAtOffset(items, row, data, pos, j);
    var f := row[j].value;
    assert row[j] == Some(f);
    assert FieldType(f) == items[j].fieldType;
    FieldPartParses(row, j, data, pos + PrefixWidth(items, j));
  }

  /** The bytes of field j of a serialized row sit at the field's offset. */
  lemma {:induction false} FieldAtOffset(items: seq<TDItem>, row: Row, data: seq<byte>, pos: nat, j: nat)
    requires |row| == |items| && j < |row|
    requires forall i {:trigger row[i]} :: 0 <= i < |row| ==> row[i].Some? && FieldType(row[i].value) == items[i].fieldType
    requires pos + PrefixWidth(items, |items|) <= |data|
    requires data[pos..pos + PrefixWidth(items, |items|)] == Concat(FieldParts(row, |row|))
    ensures var part := FieldParts(row, |row|)[j]; var off := pos + PrefixWidth(items, j);
            off + |part| <= |data| && data[off..off + |part|] == part
  {
    var parts := FieldParts(row, |row|);
    assert forall i :: 0 <= i < |parts| ==> |parts[i]| == TypeLen(items[i].fieldType);
    ConcatWidths(parts, items);
    assert |parts| == |items|;
    assert data[pos..pos + |Concat(parts)|] == Concat(parts);
    PartAtOffset(items, parts, data, pos, j);
  }

  /** Each field of a serialized row parses back at its offset. */
  lemma {:induction false} FieldsParse(items: seq<TDItem>, row: Row, data: seq<byte>, pos: nat)
    requires |row| == |items| && FieldsWellFormed(row)
    requires forall i {:trigger row[i]} :: 0 <= i < |row| ==> FieldType(row[i].value) == items[i].fieldType
    requires pos + PrefixWidth(items, |items|) <= |data|
    requires RowBytes(row, |items|).Ok? && data[pos..pos + PrefixWidth(items, |items|)] == RowBytes(row, |items|).value
    ensures forall j {:trigger row[j]} :: 0 <= j < |items| ==> ParseField(items[j].fieldType, data, pos + PrefixWidth(items, j)) == Some(row[j].value)
  {
    forall j {:trigger row[j]} | 0 <= j < |row|
      ensures ParseField(items[j].fieldType, data, pos + PrefixWidth(items, j)) == Some(row[j].value)
    {
      FieldParses(items, row, data, pos, j);
    }
  }

  /** A record whose every field parses at its offset parses to the row. */
  lemma {:induction false} ParseRowFields(items: seq<TDItem>, row: Row, n: nat, data: seq<byte>, pos: nat)
    requires |row| == |items| && n <= |items|
    requires forall i :: 0 <= i < |row| ==> row[i].Some?
    requires forall j {:trigger row[j]} :: 0 <= j < n ==> ParseField(items[j].fieldType, data, pos + PrefixWidth(items, j)) == Some(row[j].value)
    ensures ParseRow(items, n, data, pos) == Some(row[..n])
  {
    if n > 0 {
      ParseRowFields(items, row, n - 1, data, pos);
      assert row[..n] == row[..n - 1] + [row[n - 1]];
    }
  }

  /** Parsing the bytes of a well-typed, well-formed row gives the row back. */
  lemma {:induction false} ParseRowBytes(items: seq<TDItem>, row: Row, data: seq<byte>, pos: nat)
    requires |row| == |items| && FieldsWellFormed(row)
    requires forall i {:trigger row[i]} :: 0 <= i < |row| ==> FieldType(row[i].value) == items[i].fieldType
    requires pos + PrefixWidth(items, |items|) <= |data|
    requires RowBytes(row, |items|).Ok? && data[pos..pos + PrefixWidth(items, |items|)] == RowBytes(row, |items|).value
    ensures ParseRow(items, |items|, data, pos) == Some(row)
  {
    FieldsParse(items, row, data, pos);
    ParseRowFields(items, row, |items|, data, pos);
    assert row[..|items|] == row;
  }

  /** The bytes of one slot of a well-formed page: exactly tupleSize of them. */
  lemma {:induction false} SlotBytesWidth(td: TupleDesc, pageSize: nat, c: PageContent, i: nat)
    requires WellFormedPage(td, pageSize, c) && i < |c.tuples|
    ensures SlotBytes(td, c, i).Ok? && |SlotBytes(td, c, i).value| == td.GetSize()
  {
    GetSizeIsWidth(td);
    if SlotUsed(c.header, i) {
      var items := td.Items();
      RowBytesWidth(items, c.tuples[i].value, |items|);
    }
  }

  /** The first k slots of a page all have record bytes. */
  predicate SlotsWritable(td: TupleDesc, c: PageContent, k: nat)
    requires k <= |c.tuples| && |c.tuples| <= 8 * |c.header|
  {
    k == 0 || (SlotsWritable(td, c, k - 1) && SlotBytes(td, c, k - 1).Ok?)
  }

  lemma {:induction false} SlotsWritableAll(td: TupleDesc, c: PageContent, k: nat)
    requires k <= |c.tuples| && |c.tuples| <= 8 * |c.header| && SlotsWritable(td, c, k)
    ensures forall i :: 0 <= i < k ==> SlotBytes(td, c, i).Ok?
  {
    if k > 0 {
      SlotsWritableAll(td, c, k - 1);
    }
  }

  /** A page whose slots all have record bytes writes out unless its records overrun the page. */
  lemma {:induction false} EncodeWritable(td: TupleDesc, pageSize: nat, c: PageContent, zerolen: int)
    requires |c.tuples| <= 8 * |c.header| && SlotsWritable(td, c, |c.tuples|)
    requires zerolen == pageSize - (|c.header| + td.GetSize() * |c.tuples|)
    ensures EncodePage(td, pageSize, c) ==
            if zerolen < 0 then Err(NegativeArraySizeException) else Ok(c.header + Concat(SlotParts(td, c)) + Zeros(zerolen))
  {
    SlotsWritableAll(td, c, |c.tuples|);
  }

  /** What getPageData needs of a page: every slot yields tupleSize bytes, and they fit. */
  predicate Encodable(td: TupleDesc, pageSize: nat, c: PageContent)
  {
    |c.tuples| <= 8 * |c.header| && |c.header| + td.GetSize() * |c.tuples| <= pageSize &&
    forall i :: 0 <= i < |c.tuples| ==> SlotBytes(td, c, i).Ok? && |SlotBytes(td, c, i).value| == td.GetSize()
  }

  /** A well-formed page can be written out. */
  lemma {:induction false} WellFormedEncodable(td: TupleDesc, pageSize: nat, c: PageContent)
    requires WellFormedPage(td, pageSize, c)
    ensures Encodable(td, pageSize, c)
  {
    forall i | 0 <= i < |c.tuples|
      ensures SlotBytes(td, c, i).Ok? && |SlotBytes(td, c, i).value| == td.GetSize()
    {
      SlotBytesWidth(td, pageSize, c, i);
    }
    LayoutFits(pageSize, td.GetSize());
  }

  /** Every slot of a writable page contributes exactly tupleSize bytes. */
  lemma {:induction false} SlotPartsWidth(td: TupleDesc, pageSize: nat, c: PageContent)
    requires Encodable(td, pageSize, c)
    ensures forall i :: 0 <= i < |c.tuples| ==> SlotParts(td, c)[i] == SlotBytes(td, c, i).value
    ensures forall i :: 0 <= i < |c.tuples| ==> |SlotParts(td, c)[i]| == td.GetSize()
  {
  }

  /** Parts all of width w: part i occupies bytes [i * w, (i + 1) * w) of their concatenation. */
  lemma {:induction false} UniformPartAt(parts: seq<seq<byte>>, w: nat, i: nat)
    requires i < |parts|
    requires forall k :: 0 <= k < |parts| ==> |parts[k]| == w
    ensures |Concat(parts)| == |parts| * w
    ensures i * w + w <= |Concat(parts)| && Concat(parts)[i * w..i * w + w] == parts[i]
  {
    var init := parts[..i];
    assert forall k :: 0 <= k < |init| ==> |init[k]| == w;
    ConcatUniform(parts, w);
    ConcatUniform(init, w);
    ConcatAt(parts, i);
  }

  /** A writable page encodes to exactly pageSize bytes. */
  lemma {:induction false} EncodePageLength(td: TupleDesc, pageSize: nat, c: PageContent)
    requires Encodable(td, pageSize, c)
    ensures EncodePage(td, pageSize, c).Ok? && |EncodePage(td, pageSize, c).value| == pageSize
  {
    SlotPartsWidth(td, pageSize, c);
    ConcatUniform(SlotParts(td, c), td.GetSize());
  }

  /** Behind a header, part i of equal-width parts starts at |header| + i * w. */
  lemma {:induction false} UniformPartBehind(header: seq<byte>, parts: seq<seq<byte>>, pad: seq<byte>, w: nat, i: nat)
    requires i < |parts|
    requires forall k :: 0 <= k < |parts| ==> |parts[k]| == w
    ensures |header| + i * w + w <= |header + Concat(parts) + pad|
    ensures (header + Concat(parts) + pad)[|header| + i * w..|header| + i * w + w] == parts[i]
  {
    UniformPartAt(parts, w, i);
    var data := header + Concat(parts) + pad;
    assert data[|header|..|header| + |Concat(parts)|] == Concat(parts);
    SubSlice(data, |header|, |Concat(parts)|, i * w, i * w + w);
  }

  /** In the encoded page, slot i's record bytes start at headerSize + i * tupleSize. */
  lemma {:induction false} EncodedSlotBytes(td: TupleDesc, pageSize: nat, c: PageContent, i: nat)
    requires Encodable(td, pageSize, c) && i < |c.tuples|
    ensures EncodePage(td, pageSize, c).Ok? && |EncodePage(td, pageSize, c).value| == pageSize
    ensures SlotBytes(td, c, i).Ok?
    ensures SlotOffset(|c.header|, i, td.GetSize()) + td.GetSize() <= pageSize
    ensures EncodePage(td, pageSize, c).value[SlotOffset(|c.header|, i, td.GetSize())..SlotOffset(|c.header|, i, td.GetSize()) + td.GetSize()]
            == SlotBytes(td, c, i).value
  {
    EncodePageLength(td, pageSize, c);
    SlotPartsWidth(td, pageSize, c);
    var zerolen := pageSize - (|c.header| + td.GetSize() * |c.tuples|);
    UniformPartBehind(c.header, SlotParts(td, c), Zeros(zerolen), td.GetSize(), i);
  }

  /** Reading slot i back from the encoded page gives what the slot shows. */
  lemma {:induction false} ReadEncodedSlot(td: TupleDesc, pageSize: nat, c: PageContent, i: nat)
    requires WellFormedPage(td, pageSize, c) && i < |c.tuples|
    ensures EncodePage(td, pageSize, c).Ok?
    ensures ReadSlot(td, EncodePage(td, pageSize, c).value, c.header, i) == Visible(c).tuples[i]
  {
    WellFormedEncodable(td, pageSize, c);
    EncodedSlotBytes(td, pageSize, c, i);
    if SlotUsed(c.header, i) {
      var items := td.Items();
      var row := c.tuples[i].value;
      GetSizeIsWidth(td);
      RowBytesWidth(items, row, |items|);
      ParseRowBytes(items, row, EncodePage(td, pageSize, c).value, SlotOffset(|c.header|, i, td.GetSize()));
    }
  }

  /** Decoding the bytes getPageData writes reproduces the page as it shows on disk. */
  lemma {:induction false} RoundTrip(td: TupleDesc, pageSize: nat, c: PageContent)
    requires WellFormedPage(td, pageSize, c)
    ensures EncodePage(td, pageSize, c).Ok?
    ensures DecodePage(td, pageSize, EncodePage(td, pageSize, c).value) == Ok(Visible(c))
  {
    WellFormedEncodable(td, pageSize, c);
    EncodePageLength(td, pageSize, c);
    var n := |c.tuples|;
    var h := |c.header|;
    var data := EncodePage(td, pageSize, c).value;
    assert data[..h] == c.header;
    forall i | 0 <= i < n
      ensures ReadSlot(td, data, c.header, i) == Visible(c).tuples[i]
    {
      ReadEncodedSlot(td, pageSize, c, i);
    }
    var tuples := seq(n, i requires 0 <= i < n => ReadSlot(td, data, c.header, i));
    assert tuples == Visible(c).tuples;
  }

  /** createEmptyPageData: a page image of pageSize zero bytes. */
  function EmptyPageData(pageSize: nat): (r: seq<byte>)
    ensures |r| == pageSize
  {
    Zeros(pageSize)
  }

  /** An empty page image decodes to a page whose every slot is clear and holds nothing. */
  lemma {:induction false} EmptyPageDecodes(td: TupleDesc, pageSize: nat)
    ensures var n := NumTuples(pageSize, td.GetSize());
      DecodePage(td, pageSize, EmptyPageData(pageSize)) == Ok(PageContent(Zeros(HeaderSize(n)), seq(n, _ => None)))
    ensures var n := NumTuples(pageSize, td.GetSize());
      CountClear(Zeros(HeaderSize(n)), n) == n
  {
    var n := NumTuples(pageSize, td.GetSize());
    var h := HeaderSize(n);
    var data := EmptyPageData(pageSize);
    LayoutFits(pageSize, td.GetSize());
    assert data[..h] == Zeros(h);
    forall i | 0 <= i < n
      ensures !SlotUsed(Zeros(h), i)
    {
      ZeroHasNoBits(i % 8);
    }
    var tuples := seq(n, i requires 0 <= i < n => ReadSlot(td, data, data[..h], i));
    assert tuples == seq(n, _ => None);
    ZerosCountClear(h, n);
  }

  lemma {:induction false} ZerosCountClear(h: nat, n: nat)
    requires n <= 8 * h
    ensures CountClear(Zeros(h), n) == n
  {
    if n > 0 {
      ZerosCountClear(h, n - 1);
      ZeroHasNoBits((n - 1) % 8);
    }
  }

  /** A page decoded from any bytes is well formed and shows exactly what it holds. */
  lemma {:induction false} DecodedPageWellFormed(td: TupleDesc, pageSize: nat, data: seq<byte>)
    requires DecodePage(td, pageSize, data).Ok?
    ensures WellFormedPage(td, pageSize, DecodePage(td, pageSize, data).value)
    ensures Visible(DecodePage(td, pageSize, data).value) == DecodePage(td, pageSize, data).value
  {
    var c := DecodePage(td, pageSize, data).value;
    var items := td.Items();
    forall i | 0 <= i < |c.tuples| && SlotUsed(c.header, i)
      ensures c.tuples[i].Some? && RowFits(td, c.tuples[i].value)
    {
      assert c.tuples[i] == ReadSlot(td, data, c.header, i);
      ParseRowShape(items, |items|, data, SlotOffset(|c.header|, i, td.GetSize()));
    }
  }
}
