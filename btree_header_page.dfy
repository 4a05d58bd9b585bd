/**
 * BTreeHeaderPage: a page of a B-tree file that records which of the file's
 * pages are in use. On disk it is the next and the previous header page's
 * numbers (four bytes each, 0 for none) followed by a bitmap with one bit per
 * page, addressed like a heap page's header: bit i % 8 of byte i / 8.
 */
module BTreeHeaderPages {
  import opened Wrappers
  import opened JavaInts
  import opened Bits
  import opened ByteCodec
  import opened Ids
  import opened HeapPageFormat

  /** INDEX_SIZE: the bytes of one page pointer (an int). */
  const INDEX_SIZE: nat := 4

  /** getHeaderSize: the page minus the two pointers; negative for pages under eight bytes. */
  function HeaderBytes(pageSize: nat): int
  {
    pageSize - 2 * INDEX_SIZE
  }

  /** getNumSlots: eight slots per header byte, in int arithmetic. */
  function NumSlots(pageSize: nat): (r: int32)
    ensures 8 <= pageSize < 0x1000_0008 ==> r as int == 8 * HeaderBytes(pageSize)
  {
    Wrap32(HeaderBytes(pageSize) * 8)
  }

  /** A header page as a value: its two pointers and its bitmap bytes. */
  datatype HeaderContent = HeaderContent(nextPage: int32, prevPage: int32, header: seq<byte>)

  /** getPageData: writeInt(nextPage), writeInt(prevPage), then every header byte. */
  function EncodeHeaderPage(c: HeaderContent): (r: seq<byte>)
    ensures |r| == 2 * INDEX_SIZE + |c.header|
  {
    EncodeInt(c.nextPage) + EncodeInt(c.prevPage) + c.header
  }

  /**
   * new BTreeHeaderPage(id, data). A pointer that cannot be read (fewer than
   * four bytes left) raises a ParseException that the constructor catches, so
   * the pointer keeps its default 0. A negative header size fails allocating
   * the header; running out of bytes inside the header is an EOFException.
   */
  function DecodeHeaderPage(pageSize: nat, data: seq<byte>): (r: Result<HeaderContent>)
  {
    var next := if 4 <= |data| then DecodeInt(data, 0) else 0;
    var prev := if 8 <= |data| then DecodeInt(data, 4) else 0;
    var hs := HeaderBytes(pageSize);
    if hs < 0 then Err(NegativeArraySizeException)
    else if hs > 0 && |data| < 8 + hs then Err(IOException)
    else Ok(HeaderContent(next, prev, if hs == 0 then [] else data[8..8 + hs]))
  }

  /** Decoding fails exactly for pages under eight bytes and for data too short for the header. */
  lemma {:induction false} DecodeHeaderPageFails(pageSize: nat, data: seq<byte>)
    ensures DecodeHeaderPage(pageSize, data).Err? <==>
            pageSize < 8 || (pageSize > 8 && |data| < pageSize)
    ensures DecodeHeaderPage(pageSize, data).Ok? ==> |DecodeHeaderPage(pageSize, data).value.header| == pageSize - 8
  {
  }

  /** The documented round trip: the constructor reads back what getPageData wrote. */
  lemma {:induction false} HeaderRoundTrip(pageSize: nat, c: HeaderContent)
    requires |c.header| == HeaderBytes(pageSize)
    ensures |EncodeHeaderPage(c)| == pageSize
    ensures DecodeHeaderPage(pageSize, EncodeHeaderPage(c)) == Ok(c)
  {
    var data := EncodeHeaderPage(c);
    IntRoundTrip(c.nextPage, [], EncodeInt(c.prevPage) + c.header);
    assert data == [] + EncodeInt(c.nextPage) + (EncodeInt(c.prevPage) + c.header);
    IntRoundTrip(c.prevPage, EncodeInt(c.nextPage), c.header);
    assert data[8..8 + |c.header|] == c.header;
  }

  /** The other way round: writing a decoded page gives back the bytes it was read from. */
  lemma {:induction false} HeaderBytesRoundTrip(pageSize: nat, data: seq<byte>)
    requires DecodeHeaderPage(pageSize, data).Ok? && 8 <= |data|
    ensures EncodeHeaderPage(DecodeHeaderPage(pageSize, data).value) == data[..pageSize]
  {
    var c := DecodeHeaderPage(pageSize, data).value;
    IntBytesRoundTrip(data, 0);
    IntBytesRoundTrip(data, 4);
    assert data[..pageSize] == data[0..4] + data[4..8] + data[8..pageSize];
  }

  /** createEmptyPageData gives a page with no neighbours whose every slot is free. */
  lemma {:induction false} EmptyHeaderPage(pageSize: nat)
    requires pageSize >= 8
    ensures DecodeHeaderPage(pageSize, EmptyPageData(pageSize)) == Ok(HeaderContent(0, 0, Zeros(pageSize - 8)))
    ensures AllFree(Zeros(pageSize - 8))
  {
    var data := EmptyPageData(pageSize);
    assert data[0..4] == Zeros(4) && data[4..8] == Zeros(4);
    DecodeZeros(4);
    Pow256Four();
    assert data[8..pageSize] == Zeros(pageSize - 8);
    var z := Zeros(pageSize - 8);
    forall i | 0 <= i < 8 * |z|
      ensures !SlotUsed(z, i)
    {
      ZeroHasNoBits(i % 8);
    }
  }

  /** No slot of the header is used. */
  predicate AllFree(header: seq<byte>)
  {
    forall i :: 0 <= i < 8 * |header| ==> !SlotUsed(header, i)
  }

  /** Java's (int) cast of a byte: the signed value, -128 to 127. */
  function SignedByte(b: byte): (r: int)
    ensures -128 <= r < 128
    ensures (r - b as int) % 256 == 0
  {
    if b < 128 then b as int else b as int - 256
  }

  /** A byte with all eight bits set. */
  lemma {:induction false} AllBitsSet(k: nat)
    requires k < 8
    ensures Bit(255, k)
  {
    if k > 0 {
      assert Bit(255, k) == Bit(127, k - 1);
      if k > 1 {
        assert Bit(127, k - 1) == Bit(63, k - 2);
        if k > 2 {
          assert Bit(63, k - 2) == Bit(31, k - 3);
          if k > 3 {
            assert Bit(31, k - 3) == Bit(15, k - 4);
            if k > 4 {
              assert Bit(15, k - 4) == Bit(7, k - 5);
              if k > 5 {
                assert Bit(7, k - 5) == Bit(3, k - 6);
                if k > 6 {
                  assert Bit(3, k - 6) == Bit(1, k - 7);
                }
              }
            }
          }
        }
      }
    }
  }

  /** A header of 0xFF bytes has every slot used. */
  lemma {:induction false} FullHeader(header: seq<byte>)
    requires forall b :: 0 <= b < |header| ==> header[b] == 0xFF
    ensures forall i :: 0 <= i < 8 * |header| ==> SlotUsed(header, i)
  {
    forall i | 0 <= i < 8 * |header|
      ensures SlotUsed(header, i)
    {
      AllBitsSet(i % 8);
    }
  }

  /** The stored form of a pointer argument: 0 for null, else the page number of a HEADER page of this table. */
  function PointerFor(self: PageId, id: Option<PageId>): (r: Result<int32>)
    requires id.Some? ==> id.value.BTreePageId?
  {
    if id.None? then Ok(0)
    else if id.value.tableId != self.tableId then Err(DbException)
    else if id.value.category != HEADER then Err(DbException)
    else Ok(id.value.pageNumber)
  }

  /** The page id a stored pointer stands for: none for 0, else a HEADER page of this table. */
  function PageIdFor(self: PageId, ptr: int32): (r: Option<PageId>)
  {
    if ptr == 0 then None else Some(BTreePageId(self.tableId, ptr, HEADER))
  }

  /** A pointer the setter accepts comes back from the getter; only a page number of 0 reads back as null. */
  lemma {:induction false} PointerRoundTrip(self: PageId, id: Option<PageId>)
    requires id.Some? ==> id.value.BTreePageId?
    ensures PointerFor(self, id).Err? <==>
            id.Some? && (id.value.tableId != self.tableId || id.value.category != HEADER)
    ensures PointerFor(self, id).Ok? ==>
            PageIdFor(self, PointerFor(self, id).value) == (if id.Some? && id.value.pageNumber == 0 then None else id)
  {
  }

  /** Every pointer the getter can produce the setter stores unchanged. */
  lemma {:induction false} StoredPointerRoundTrip(self: PageId, ptr: int32)
    ensures PointerFor(self, PageIdFor(self, ptr)) == Ok(ptr)
  {
  }

  class BTreeHeaderPage {
    const pid: PageId
    const pageSize: nat
    const numSlots: int32
    const header: array<byte>
    var nextPage: int32
    var prevPage: int32
    var dirty: bool
    var dirtier: Option<TransactionId>
    var oldData: seq<byte>

    ghost predicate Valid()
      reads this
    {
      pid.BTreePageId? && header.Length == HeaderBytes(pageSize) && numSlots == NumSlots(pageSize)
    }

    /** The page as a value. */
    ghost function Content(): HeaderContent
      reads this, header
    {
      HeaderContent(nextPage, prevPage, header[..])
    }

    constructor (id: PageId, size: nat, h: array<byte>, next: int32, prev: int32)
      requires id.BTreePageId? && h.Length == HeaderBytes(size)
      ensures Valid() && pid == id && pageSize == size && header == h
      ensures nextPage == next && prevPage == prev
      ensures !dirty && dirtier == None && oldData == []
    {
      pid := id;
      pageSize := size;
      numSlots := NumSlots(size);
      header := h;
      nextPage := next;
      prevPage := prev;
      dirty := false;
      dirtier := None;
      oldData := [];
    }

    /**
     * new BTreeHeaderPage(id, data): both pointers, then the header byte by
     * byte, then setBeforeImage.
     */
    static method Decode(id: PageId, size: nat, data: seq<byte>) returns (r: Result<BTreeHeaderPage>)
      requires id.BTreePageId?
      ensures r.Err? <==> DecodeHeaderPage(size, data).Err?
      ensures r.Err? ==> r.error == DecodeHeaderPage(size, data).error
      ensures r.Ok? ==> fresh(r.value) && fresh(r.value.header) && r.value.Valid()
      ensures r.Ok? ==> r.value.pid == id && r.value.pageSize == size
      ensures r.Ok? ==> r.value.Content() == DecodeHeaderPage(size, data).value
      ensures r.Ok? ==> !r.value.dirty && r.value.dirtier == None
      ensures r.Ok? ==> r.value.oldData == EncodeHeaderPage(r.value.Content())
    {
      var pos := 0;
      var next: int32 := 0;
      if pos + 4 <= |data| {
        next := DecodeInt(data, pos);
        pos := pos + 4;
      } else {
        pos := |data|;
      }
      var prev: int32 := 0;
      if pos + 4 <= |data| {
        prev := DecodeInt(data, pos);
        pos := pos + 4;
      } else {
        pos := |data|;
      }
      var hs := HeaderBytes(size);
      if hs < 0 {
        return Err(NegativeArraySizeException);
      }
      var header := new byte[hs];
      for i := 0 to hs
        invariant pos == (if |data| < 8 then |data| else 8) + i
        invariant i > 0 ==> 8 + i <= |data|
        invariant 8 + i <= |data| ==> header[..i] == data[8..8 + i]
      {
        if pos >= |data| {
          return Err(IOException);
        }
        header[i] := data[pos];
        pos := pos + 1;
      }
      assert hs > 0 ==> header[..] == data[8..8 + hs];
      var page := new BTreeHeaderPage(id, size, header, next, prev);
      page.SetBeforeImage();
      r := Ok(page);
    }

    /** init: every header byte becomes 0xFF, so every slot is used. */
    method Init()
      modifies header
      ensures forall b :: 0 <= b < header.Length ==> header[b] == 0xFF
      ensures forall i :: 0 <= i < 8 * header.Length ==> SlotUsed(header[..], i)
    {
      forall b | 0 <= b < header.Length {
        header[b] := 0xFF;
      }
      FullHeader(header[..]);
    }

    /** getBeforeImage: a new page decoded from oldData; a caught IOException ends the process (System.exit). */
    method GetBeforeImage() returns (r: Result<BTreeHeaderPage>)
      requires Valid()
      ensures r.Err? <==> DecodeHeaderPage(pageSize, oldData).Err?
      ensures r.Err? ==> var e := DecodeHeaderPage(pageSize, oldData).error;
                         r.error == (if e == IOException then SystemExit else e)
      ensures r.Ok? ==> fresh(r.value) && r.value.Valid() && r.value.pid == pid
      ensures r.Ok? ==> r.value.Content() == DecodeHeaderPage(pageSize, oldData).value
    {
      r := Decode(pid, pageSize, oldData);
      if r.Err? && r.error == IOException {
        r := Err(SystemExit);
      }
    }

    /** setBeforeImage: oldData becomes the page's current bytes. */
    method SetBeforeImage()
      requires Valid()
      modifies this`oldData
      ensures oldData == EncodeHeaderPage(Content())
    {
      oldData := GetPageData();
    }

    /** getPageData: both pointers, then the header bytes, in order. */
    method GetPageData() returns (r: seq<byte>)
      requires Valid()
      ensures r == EncodeHeaderPage(Content())
      ensures |r| == pageSize
    {
      r := EncodeInt(nextPage) + EncodeInt(prevPage);
      for b := 0 to header.Length
        invariant r == EncodeInt(nextPage) + EncodeInt(prevPage) + header[..b]
      {
        r := r + [header[b]];
        assert header[..b + 1] == header[..b] + [header[b]];
      }
      assert header[..header.Length] == header[..];
    }

    /** getPrevPageId: null for pointer 0, else the HEADER page of this table with that number. */
    function GetPrevPageId(): (r: Option<PageId>)
      reads this
      ensures r.None? <==> prevPage == 0
      ensures r.Some? ==> r.value == BTreePageId(pid.tableId, prevPage, HEADER)
    {
      PageIdFor(pid, prevPage)
    }

    /** getNextPageId: null for pointer 0, else the HEADER page of this table with that number. */
    function GetNextPageId(): (r: Option<PageId>)
      reads this
      ensures r.None? <==> nextPage == 0
      ensures r.Some? ==> r.value == BTreePageId(pid.tableId, nextPage, HEADER)
    {
      PageIdFor(pid, nextPage)
    }

    /** setPrevPageId: null stores 0; another table or a non-HEADER page is a DbException and changes nothing. */
    method SetPrevPageId(id: Option<PageId>) returns (r: Outcome)
      requires id.Some? ==> id.value.BTreePageId?
      modifies this`prevPage
      ensures r.Fail? <==> PointerFor(pid, id).Err?
      ensures r.Fail? ==> r.error == DbException && prevPage == old(prevPage)
      ensures r.Done? ==> prevPage == PointerFor(pid, id).value
    {
      if id.None? {
        prevPage := 0;
      } else {
        if id.value.tableId != pid.tableId {
          return Fail(DbException);
        }
        if id.value.category != HEADER {
          return Fail(DbException);
        }
        prevPage := id.value.pageNumber;
      }
      r := Done;
    }

    /** setNextPageId: null stores 0; another table or a non-HEADER page is a DbException and changes nothing. */
    method SetNextPageId(id: Option<PageId>) returns (r: Outcome)
      requires id.Some? ==> id.value.BTreePageId?
      modifies this`nextPage
      ensures r.Fail? <==> PointerFor(pid, id).Err?
      ensures r.Fail? ==> r.error == DbException && nextPage == old(nextPage)
      ensures r.Done? ==> nextPage == PointerFor(pid, id).value
    {
      if id.None? {
        nextPage := 0;
      } else {
        if id.value.tableId != pid.tableId {
          return Fail(DbException);
        }
        if id.value.category != HEADER {
          return Fail(DbException);
        }
        nextPage := id.value.pageNumber;
      }
      r := Done;
    }

    /** markDirty: the flag, and the dirtier only when marking dirty. */
    method MarkDirty(d: bool, tid: Option<TransactionId>)
      modifies this`dirty, this`dirtier
      ensures dirty == d && dirtier == (if d then tid else old(dirtier))
      ensures IsDirty() == (if d then tid else None)
    {
      dirty := d;
      if d {
        dirtier := tid;
      }
    }

    /** isDirty: the dirtier while the page is dirty, null otherwise. */
    function IsDirty(): (r: Option<TransactionId>)
      reads this
      ensures !dirty ==> r == None
      ensures dirty ==> r == dirtier
    {
      if dirty then dirtier else None
    }

    /** isSlotUsed: bit i % 8 of header byte i / 8; beyond the header the array access fails. */
    function IsSlotUsed(i: nat): (r: Result<bool>)
      reads header
      ensures r.Ok? <==> i < 8 * header.Length
      ensures r.Ok? ==> r.value == SlotUsed(header[..], i)
      ensures r.Err? ==> r.error == IndexOutOfBoundsException
    {
      if i / 8 < header.Length then Ok(GetBit(header[i / 8], i % 8) == 1)
      else Err(IndexOutOfBoundsException)
    }

    /** markSlotUsed: sets or clears bit i % 8 of byte i / 8 and no other. */
    method MarkSlotUsed(i: nat, value: bool) returns (r: Outcome)
      modifies header
      ensures r.Done? <==> i < 8 * header.Length
      ensures r.Fail? ==> r.error == IndexOutOfBoundsException && header[..] == old(header[..])
      ensures r.Done? ==> header[..] == MarkSlot(old(header[..]), i, value)
    {
      if i / 8 >= header.Length {
        return Fail(IndexOutOfBoundsException);
      }
      header[i / 8] := SetBit(header[i / 8], i % 8, if value then 1 else 0);
      r := Done;
    }

    /**
     * getEmptySlot: the least unused slot, or -1 when every slot is used. The
     * test that would skip a full byte compares a signed byte with 0xFF and
     * never holds, so every byte's bits are examined.
     */
    method GetEmptySlot() returns (r: int)
      ensures -1 <= r < 8 * header.Length
      ensures r == -1 <==> forall i :: 0 <= i < 8 * header.Length ==> SlotUsed(header[..], i)
      ensures r >= 0 ==> !SlotUsed(header[..], r) && forall i :: 0 <= i < r ==> SlotUsed(header[..], i)
    {
      ghost var h := header[..];
      var i := 0;
      while i < header.Length
        invariant 0 <= i <= header.Length
        invariant forall k :: 0 <= k < 8 * i ==> SlotUsed(h, k)
      {
        if SignedByte(header[i]) != 0xFF {
          var j := 0;
          while j < 8
            invariant 0 <= j <= 8
            invariant forall k :: 0 <= k < 8 * i + j ==> SlotUsed(h, k)
          {
            var used := IsSlotUsed(i * 8 + j);
            if !used.value {
              return i * 8 + j;
            }
            j := j + 1;
          }
        }
        i := i + 1;
      }
      r := -1;
    }
  }
}
