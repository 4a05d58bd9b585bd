/**
 * The byte layout of the write-ahead log (LogFile.java). The file starts with
 * an 8-byte header holding the offset of the last checkpoint record (or
 * NO_CHECKPOINT_ID), followed by records of the form
 *   [int type][long tid][payload][long start]
 * where start is the offset the writer believed the record began at. Page
 * images inside UPDATE records are written by writePageData as
 *   [UTF page class][UTF id class][int n][n ints][int len][len bytes].
 * readPageData rebuilds pages by reflection; here the page classes form a
 * closed variant of the two page kinds of this model.
 */
module LogLayout {
  import opened Wrappers
  import opened JavaInts
  import opened Bits
  import opened ByteCodec
  import opened Ids
  import opened Disks

  const ABORT_RECORD: int32 := 1
  const COMMIT_RECORD: int32 := 2
  const UPDATE_RECORD: int32 := 3
  const BEGIN_RECORD: int32 := 4
  const CHECKPOINT_RECORD: int32 := 5
  const NO_CHECKPOINT_ID: int64 := -1

  const INT_SIZE: nat := 4
  const LONG_SIZE: nat := 8
  /** The checkpoint pointer at offset 0. */
  const HEADER_SIZE: nat := LONG_SIZE
  /** Every record begins with its type and transaction id. */
  const RECORD_HEAD: nat := INT_SIZE + LONG_SIZE

  /** The page classes readPageData can instantiate. */
  datatype PageKind = HeapPageKind | BTreeHeaderPageKind

  /** A page as writePageData sees it: its class, its id and getPageData(). */
  datatype PageImage = PageImage(kind: PageKind, id: PageId, data: Image)

  /** The id class that goes with each page class. */
  predicate Kinded(p: PageImage)
  {
    p.kind.HeapPageKind? <==> p.id.HeapPageId?
  }

  /** A page whose length fits writeInt and whose id matches its class. */
  predicate Writable(p: PageImage)
  {
    Kinded(p) && |p.data| <= INT_MAX
  }

  /** "simpledb.storage.HeapPage" in ASCII, as writeUTF emits it. */
  const HEAP_PAGE_CLASS: seq<byte> := [115, 105, 109, 112, 108, 101, 100, 98, 46, 115, 116, 111, 114, 97, 103,
    101, 46, 72, 101, 97, 112, 80, 97, 103, 101]
  /** "simpledb.index.BTreeHeaderPage". */
  const BTREE_HEADER_PAGE_CLASS: seq<byte> := [115, 105, 109, 112, 108, 101, 100, 98, 46, 105, 110, 100, 101,
    120, 46, 66, 84, 114, 101, 101, 72, 101, 97, 100, 101, 114, 80, 97, 103, 101]
  /** "simpledb.storage.HeapPageId". */
  const HEAP_PAGE_ID_CLASS: seq<byte> := [115, 105, 109, 112, 108, 101, 100, 98, 46, 115, 116, 111, 114, 97,
    103, 101, 46, 72, 101, 97, 112, 80, 97, 103, 101, 73, 100]
  /** "simpledb.index.BTreePageId". */
  const BTREE_PAGE_ID_CLASS: seq<byte> := [115, 105, 109, 112, 108, 101, 100, 98, 46, 105, 110, 100, 101, 120,
    46, 66, 84, 114, 101, 101, 80, 97, 103, 101, 73, 100]

  function PageClassName(k: PageKind): (r: seq<byte>)
    ensures 0 < |r| < 65536
  {
    match k
    case HeapPageKind => HEAP_PAGE_CLASS
    case BTreeHeaderPageKind => BTREE_HEADER_PAGE_CLASS
  }

  function IdClassName(pid: PageId): (r: seq<byte>)
    ensures 0 < |r| < 65536
  {
    match pid
    case HeapPageId(_, _) => HEAP_PAGE_ID_CLASS
    case BTreePageId(_, _, _) => BTREE_PAGE_ID_CLASS
  }

  /** The class names are told apart by their bytes. */
  lemma {:induction false} ClassNamesDiffer()
    ensures PageClassName(HeapPageKind) != PageClassName(BTreeHeaderPageKind)
    ensures IdClassName(HeapPageId(0, 0)) != IdClassName(BTreePageId(0, 0, 0))
  {
    assert |PageClassName(HeapPageKind)| == 25;
    assert |PageClassName(BTreeHeaderPageKind)| == 30;
    assert |IdClassName(HeapPageId(0, 0))| == 27;
    assert |IdClassName(BTreePageId(0, 0, 0))| == 26;
  }

  /** Class.forName on a page class name; any other name is not found. */
  function PageKindNamed(name: seq<byte>): (r: Option<PageKind>)
    ensures r.Some? ==> PageClassName(r.value) == name
  {
    if name == PageClassName(HeapPageKind) then Some(HeapPageKind)
    else if name == PageClassName(BTreeHeaderPageKind) then Some(BTreeHeaderPageKind)
    else None
  }

  /** Class.forName on an id class name: true for HeapPageId, false for BTreePageId. */
  function IdKindNamed(name: seq<byte>): (r: Option<bool>)
    ensures r.Some? ==> IdClassName(if r.value then HeapPageId(0, 0) else BTreePageId(0, 0, 0)) == name
  {
    if name == IdClassName(HeapPageId(0, 0)) then Some(true)
    else if name == IdClassName(BTreePageId(0, 0, 0)) then Some(false)
    else None
  }

  /** Each class name is found as the class it names. */
  lemma {:induction false} ClassesNamed(k: PageKind, pid: PageId)
    ensures PageKindNamed(PageClassName(k)) == Some(k)
    ensures IdKindNamed(IdClassName(pid)) == Some(pid.HeapPageId?)
  {
    ClassNamesDiffer();
  }

  /** writeUTF of an ASCII string: an unsigned 2-byte length, then the bytes. */
  function EncodeUTF(s: seq<byte>): (r: seq<byte>)
    requires |s| < 65536
    ensures |r| == 2 + |s|
  {
    EncodeUnsigned(|s|, 2) + s
  }

  /** readUTF: the bytes of the string and the position after it. */
  function DecodeUTF(s: seq<byte>, pos: nat): (r: Result<(seq<byte>, nat)>)
    ensures r.Ok? ==> r.value.1 <= |s|
  {
    if pos + 2 > |s| then Err(IOException)
    else
      var n := DecodeUnsigned(s[pos..pos + 2]);
      if pos + 2 + n > |s| then Err(IOException)
      else Ok((s[pos + 2..pos + 2 + n], pos + 2 + n))
  }

  /** writeInt of each int in turn. */
  function EncodeInts(xs: seq<int32>): (r: seq<byte>)
    ensures |r| == 4 * |xs|
  {
    if xs == [] then [] else EncodeInt(xs[0]) + EncodeInts(xs[1..])
  }

  /** readInt n times. */
  function DecodeInts(s: seq<byte>, pos: nat, n: nat): (r: Result<seq<int32>>)
    ensures r.Ok? ==> |r.value| == n
    decreases n
  {
    if n == 0 then Ok([])
    else if pos + 4 > |s| then Err(IOException)
    else
      match DecodeInts(s, pos + 4, n - 1)
      case Err(e) => Err(e)
      case Ok(rest) => Ok([DecodeInt(s, pos)] + rest)
  }

  /** The length of a page image in the log. */
  function PageDataSize(p: PageImage): (r: nat)
    ensures r > 0
  {
    (2 + |PageClassName(p.kind)|) + (2 + |IdClassName(p.id)|)
      + 4 + 4 * |Serialize(p.id)| + 4 + |p.data|
  }

  /** writePageData. */
  function EncodePageData(p: PageImage): (r: seq<byte>)
    requires |p.data| <= INT_MAX
    ensures |r| == PageDataSize(p)
  {
    EncodeUTF(PageClassName(p.kind)) + (EncodeUTF(IdClassName(p.id)) + EncodePageBody(p))
  }

  /** What follows the class names: the id's ints, then the page's bytes. */
  function EncodePageBody(p: PageImage): (r: seq<byte>)
    requires |p.data| <= INT_MAX
    ensures |r| == 8 + 4 * |Serialize(p.id)| + |p.data|
  {
    var ints := Serialize(p.id);
    EncodeInt(|ints| as int32) + (EncodeInts(ints) + (EncodeInt(|p.data| as int32) + p.data))
  }

  /**
   * raf.read into a fresh array of n bytes: as many bytes as the file still
   * holds, the rest of the array left zero.
   */
  function ReadFully(s: seq<byte>, pos: nat, n: nat): (r: (seq<byte>, nat))
    ensures |r.0| == n && r.1 <= pos + n
  {
    if pos + n <= |s| then (s[pos..pos + n], pos + n)
    else if pos <= |s| then (s[pos..] + Zeros(pos + n - |s|), |s|)
    else (Zeros(n), pos)
  }

  /**
   * readPageData: the page image at pos and the position after it. A class
   * name that is not one of this model's classes fails as ClassNotFoundException
   * (rethrown as IOException), a negative count or length as
   * NegativeArraySizeException, and ints that do not fit the id class's
   * constructor, or an id class that does not fit the page class, as
   * IllegalArgumentException.
   */
  function DecodePageData(s: seq<byte>, pos: nat): (r: Result<(PageImage, nat)>)
  {
    match DecodeUTF(s, pos)
    case Err(e) => Err(e)
    case Ok((pageClass, p1)) =>
      match DecodeUTF(s, p1)
      case Err(e) => Err(e)
      case Ok((idClass, p2)) =>
        match (IdKindNamed(idClass), PageKindNamed(pageClass))
        case (None, _) => Err(IOException)
        case (_, None) => Err(IOException)
        case (Some(heap), Some(kind)) => DecodePageBody(s, p2, heap, kind)
  }

  /** The id ints and page bytes that follow the two class names. */
  function DecodePageBody(s: seq<byte>, pos: nat, heap: bool, kind: PageKind): (r: Result<(PageImage, nat)>)
  {
    if pos + 4 > |s| then Err(IOException)
    else
      var n := DecodeInt(s, pos);
      if n < 0 then Err(NegativeArraySizeException)
      else
        match DecodeInts(s, pos + 4, n as nat)
        case Err(e) => Err(e)
        case Ok(ints) =>
          match Deserialize(heap, ints)
          case None => Err(IllegalArgumentException)
          case Some(pid) => DecodePageBytes(s, pos + 4 + 4 * (n as nat), pid, kind)
  }

  /** The page length and bytes, handed with the id to the page constructor. */
  function DecodePageBytes(s: seq<byte>, pos: nat, pid: PageId, kind: PageKind): (r: Result<(PageImage, nat)>)
  {
    if pos + 4 > |s| then Err(IOException)
    else
      var len := DecodeInt(s, pos);
      if len < 0 then Err(NegativeArraySizeException)
      else if kind.HeapPageKind? != pid.HeapPageId? then Err(IllegalArgumentException)
      else
        var (data, next) := ReadFully(s, pos + 4, len as nat);
        Ok((PageImage(kind, pid, data), next))
  }

  /** Bytes a, then b, at pos in the stream s. */
  lemma {:induction false} SplitWindow(s: seq<byte>, pos: nat, a: seq<byte>, b: seq<byte>)
    requires pos <= |s| && a + b <= s[pos..]
    ensures a <= s[pos..] && pos + |a| <= |s| && b <= s[pos + |a|..]
  {
    assert forall i :: 0 <= i < |b| ==> b[i] == (a + b)[|a| + i];
  }

  /** The bytes at pos are those of w. */
  lemma {:induction false} WindowSlice(s: seq<byte>, pos: nat, w: seq<byte>)
    requires pos <= |s| && w <= s[pos..]
    ensures pos + |w| <= |s| && s[pos..pos + |w|] == w
  {
    assert s[pos..pos + |w|] == s[pos..][..|w|];
  }

  lemma {:induction false} IntWindow(s: seq<byte>, pos: nat, x: int32)
    requires pos <= |s| && EncodeInt(x) <= s[pos..]
    ensures pos + 4 <= |s| && DecodeInt(s, pos) == x
  {
    WindowSlice(s, pos, EncodeInt(x));
    Pow256Four();
    DecodeEncodeSigned(x as int, 4);
  }

  lemma {:induction false} UTFWindow(s: seq<byte>, pos: nat, x: seq<byte>)
    requires |x| < 65536 && pos <= |s| && EncodeUTF(x) <= s[pos..]
    ensures DecodeUTF(s, pos) == Ok((x, pos + 2 + |x|))
  {
    SplitWindow(s, pos, EncodeUnsigned(|x|, 2), x);
    WindowSlice(s, pos, EncodeUnsigned(|x|, 2));
    WindowSlice(s, pos + 2, x);
    assert Pow256(2) == 65536;
    DecodeEncodeUnsigned(|x|, 2);
  }

  lemma {:induction false} IntsWindow(s: seq<byte>, pos: nat, xs: seq<int32>)
    requires pos <= |s| && EncodeInts(xs) <= s[pos..]
    ensures DecodeInts(s, pos, |xs|) == Ok(xs)
    decreases |xs|
  {
    if xs != [] {
      SplitWindow(s, pos, EncodeInt(xs[0]), EncodeInts(xs[1..]));
      IntWindow(s, pos, xs[0]);
      IntsWindow(s, pos + 4, xs[1..]);
      assert xs == [xs[0]] + xs[1..];
    }
  }

  lemma {:induction false} PageBytesWindow(s: seq<byte>, pos: nat, p: PageImage)
    requires Writable(p)
    requires pos <= |s| && EncodeInt(|p.data| as int32) + p.data <= s[pos..]
    ensures DecodePageBytes(s, pos, p.id, p.kind) == Ok((p, pos + 4 + |p.data|))
  {
    SplitWindow(s, pos, EncodeInt(|p.data| as int32), p.data);
    IntWindow(s, pos, |p.data| as int32);
    WindowSlice(s, pos + 4, p.data);
  }

  lemma {:induction false} PageBodyWindow(s: seq<byte>, pos: nat, p: PageImage, end: nat)
    requires Writable(p)
    requires pos <= |s| && EncodePageBody(p) <= s[pos..] && end == pos + |EncodePageBody(p)|
    ensures DecodePageBody(s, pos, p.id.HeapPageId?, p.kind) == Ok((p, end))
  {
    var ints := Serialize(p.id);
    var ix, rest := EncodeInts(ints), EncodeInt(|p.data| as int32) + p.data;
    SplitWindow(s, pos, EncodeInt(|ints| as int32), ix + rest);
    IntWindow(s, pos, |ints| as int32);
    SplitWindow(s, pos + 4, ix, rest);
    IntsWindow(s, pos + 4, ints);
    SerializeRoundTrip(p.id);
    PageBytesWindow(s, pos + 4 + 4 * |ints|, p);
  }

  /** Once both class names are read, readPageData goes on to the body. */
  lemma {:induction false} PageHead(s: seq<byte>, pos: nat, p: PageImage, p1: nat, p2: nat, end: nat)
    requires DecodeUTF(s, pos) == Ok((PageClassName(p.kind), p1))
    requires DecodeUTF(s, p1) == Ok((IdClassName(p.id), p2))
    requires DecodePageBody(s, p2, p.id.HeapPageId?, p.kind) == Ok((p, end))
    ensures DecodePageData(s, pos) == Ok((p, end))
  {
    ClassesNamed(p.kind, p.id);
  }

  /** readPageData reads back the class, id and bytes writePageData wrote. */
  lemma {:induction false} PageDataRoundTrip(s: seq<byte>, pos: nat, p: PageImage, end: nat)
    requires Writable(p)
    requires pos <= |s| && EncodePageData(p) <= s[pos..] && end == pos + PageDataSize(p)
    ensures DecodePageData(s, pos) == Ok((p, end))
  {
    var n1, n2 := PageClassName(p.kind), IdClassName(p.id);
    var body := EncodePageBody(p);
    SplitWindow(s, pos, EncodeUTF(n1), EncodeUTF(n2) + body);
    UTFWindow(s, pos, n1);
    SplitWindow(s, pos + 2 + |n1|, EncodeUTF(n2), body);
    UTFWindow(s, pos + 2 + |n1|, n2);
    PageBodyWindow(s, pos + 4 + |n1| + |n2|, p, end);
    PageHead(s, pos, p, pos + 2 + |n1|, pos + 4 + |n1| + |n2|, end);
  }

  /** The stream a page image is written to and read back from. */
  lemma {:induction false} PageDataReadsBack(pre: seq<byte>, p: PageImage, post: seq<byte>)
    requires Writable(p)
    ensures DecodePageData(pre + EncodePageData(p) + post, |pre|) == Ok((p, |pre| + PageDataSize(p)))
  {
    assert (pre + EncodePageData(p) + post)[|pre|..] == EncodePageData(p) + post;
    var end: nat := |pre| + PageDataSize(p);
    var r: Result<(PageImage, nat)> := Ok((p, end));
    assert r == Ok((p, |pre| + PageDataSize(p)));
    PageDataRoundTrip(pre + EncodePageData(p) + post, |pre|, p, end);
    assert DecodePageData(pre + EncodePageData(p) + post, |pre|) == r;
  }
}
