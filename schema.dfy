/**
 * TupleDesc: the schema of a tuple, an ordered list of (type, optional name)
 * items. A TupleDesc built from a null or empty type array has no list at all,
 * which the source reports as numFields == -1.
 */
module Schema {
  import opened Wrappers

  /**
   * Field types. Type.java is not part of this model: INT is 4 bytes wide and
   * STRING is a length int followed by STRING_LEN bytes.
   */
  datatype Type = IntType | StringType

  const STRING_LEN: nat := 128

  function TypeLen(t: Type): (n: nat)
    ensures n > 0
  {
    match t
    case IntType => 4
    case StringType => STRING_LEN + 4
  }

  datatype TDItem = TDItem(fieldType: Type, fieldName: Option<string>)

  /** TDItem.equals: the same type, and names both null or both present and equal. */
  function ItemEquals(a: TDItem, b: TDItem): (r: bool)
    ensures r <==> a == b
  {
    a.fieldType == b.fieldType &&
    ((a.fieldName.None? && b.fieldName.None?) ||
     (a.fieldName.Some? && b.fieldName.Some? && a.fieldName.value == b.fieldName.value))
  }

  /** The byte width of the first n items. */
  function PrefixWidth(items: seq<TDItem>, n: nat): nat
    requires n <= |items|
  {
    if n == 0 then 0 else PrefixWidth(items, n - 1) + TypeLen(items[n - 1].fieldType)
  }

  /** The total byte width of a list of items. */
  function SizeOf(items: seq<TDItem>): nat
  {
    PrefixWidth(items, |items|)
  }

  /** The width of a prefix depends only on the items in it. */
  lemma {:induction false} PrefixWidthAgree(a: seq<TDItem>, b: seq<TDItem>, n: nat)
    requires n <= |a| && n <= |b| && a[..n] == b[..n]
    ensures PrefixWidth(a, n) == PrefixWidth(b, n)
  {
    if n > 0 {
      assert a[n - 1] == a[..n][n - 1] == b[..n][n - 1] == b[n - 1];
      assert a[..n - 1] == a[..n][..n - 1];
      assert b[..n - 1] == b[..n][..n - 1];
      PrefixWidthAgree(a, b, n - 1);
    }
  }

  lemma {:induction false} PrefixWidthAppend(a: seq<TDItem>, b: seq<TDItem>, k: nat)
    requires k <= |b|
    ensures PrefixWidth(a + b, |a| + k) == SizeOf(a) + PrefixWidth(b, k)
  {
    if k == 0 {
      PrefixWidthAgree(a + b, a, |a|);
    } else {
      PrefixWidthAppend(a, b, k - 1);
      assert (a + b)[|a| + k - 1] == b[k - 1];
    }
  }

  /** Widths add up over concatenation, which is what a merged schema needs. */
  lemma {:induction false} SizeOfAppend(a: seq<TDItem>, b: seq<TDItem>)
    ensures SizeOf(a + b) == SizeOf(a) + SizeOf(b)
  {
    PrefixWidthAppend(a, b, |b|);
  }

  /** Every field has a positive width, so only an empty prefix has width 0. */
  lemma {:induction false} PrefixWidthAtLeastCount(items: seq<TDItem>, n: nat)
    requires n <= |items|
    ensures PrefixWidth(items, n) >= n
  {
    if n > 0 {
      PrefixWidthAtLeastCount(items, n - 1);
    }
  }

  lemma {:induction false} SizeOfAtLeastCount(items: seq<TDItem>)
    ensures SizeOf(items) >= |items|
    ensures SizeOf(items) == 0 <==> |items| == 0
  {
    PrefixWidthAtLeastCount(items, |items|);
  }

  /** The position of the first item named `name` at or after `from`, or |items| if none. */
  function FindName(items: seq<TDItem>, name: Option<string>, from: nat): (k: nat)
    requires from <= |items|
    ensures from <= k <= |items|
    ensures k < |items| ==> items[k].fieldName == name
    ensures forall j :: from <= j < k ==> items[j].fieldName != name
    decreases |items| - from
  {
    if from == |items| then from
    else if items[from].fieldName == name then from
    else FindName(items, name, from + 1)
  }

  /** Whether items[i..] and other[i..] agree item by item under TDItem.equals. */
  function ItemsMatchFrom(items: seq<TDItem>, other: seq<TDItem>, i: nat): (r: bool)
    requires |items| == |other| && i <= |items|
    ensures r <==> items[i..] == other[i..]
    decreases |items| - i
  {
    if i == |items| then true
    else ItemEquals(items[i], other[i]) && ItemsMatchFrom(items, other, i + 1)
  }

  datatype TupleDesc = TupleDesc(typeList: Option<seq<TDItem>>)
  {
    /** numFields: -1 when there is no list. */
    function NumFields(): int
    {
      if typeList.None? then -1 else |typeList.value|
    }

    /** The items, none when there is no list. */
    function Items(): seq<TDItem>
    {
      if typeList.None? then [] else typeList.value
    }

    function Types(): (ts: seq<Type>)
      ensures |ts| == |Items()|
      ensures forall i :: 0 <= i < |ts| ==> ts[i] == Items()[i].fieldType
    {
      seq(|Items()|, i requires 0 <= i < |Items()| => Items()[i].fieldType)
    }

    function GetFieldName(i: int): (r: Result<Option<string>>)
      ensures r.Ok? <==> 0 <= i < NumFields()
      ensures r.Ok? ==> r.value == Items()[i].fieldName
      ensures r.Err? ==> r.error == NoSuchElementException
    {
      if i < 0 || typeList.None? || i >= |typeList.value| then Err(NoSuchElementException)
      else Ok(typeList.value[i].fieldName)
    }

    function GetFieldType(i: int): (r: Result<Type>)
      ensures r.Ok? <==> 0 <= i < NumFields()
      ensures r.Ok? ==> r.value == Items()[i].fieldType
      ensures r.Err? ==> r.error == NoSuchElementException
    {
      if i < 0 || typeList.None? || i >= |typeList.value| then Err(NoSuchElementException)
      else Ok(typeList.value[i].fieldType)
    }

    /** getItem: null (None) out of range instead of an exception. */
    function GetItem(i: int): (r: Option<TDItem>)
      ensures r.Some? <==> 0 <= i < NumFields()
      ensures r.Some? ==> r.value == Items()[i]
    {
      if typeList.None? || |typeList.value| == 0 || i < 0 || i >= |typeList.value| then None
      else Some(typeList.value[i])
    }

    /** indexForFieldName: the first item whose name equals `name` (a null name matches a null name). */
    function IndexForFieldName(name: Option<string>): (r: Result<nat>)
      ensures r.Ok? <==> exists k :: 0 <= k < |Items()| && Items()[k].fieldName == name
      ensures r.Ok? ==> r.value < NumFields() && Items()[r.value].fieldName == name
      ensures r.Ok? ==> forall j :: 0 <= j < r.value ==> Items()[j].fieldName != name
      ensures r.Err? ==> r.error == NoSuchElementException
    {
      if typeList.None? || |typeList.value| == 0 then Err(NoSuchElementException)
      else
        var k := FindName(typeList.value, name, 0);
        if k == |typeList.value| then Err(NoSuchElementException)
        else assert Items()[k].fieldName == name; Ok(k)
    }

    /** getSize: the byte width of a tuple of this schema. */
    function GetSize(): nat
    {
      if typeList.None? || |typeList.value| == 0 then 0 else SizeOf(typeList.value)
    }

    /** equals: false for null; otherwise the same number of fields, each of the same type and name. */
    function Equals(o: Option<TupleDesc>): (r: bool)
      ensures r <==> o == Some(this)
    {
      o.Some? && NumFields() == o.value.NumFields() &&
      (typeList.None? || ItemsMatchFrom(typeList.value, o.value.typeList.value, 0))
    }
  }

  /** The byte width of a list of items, summed from the first item on. */
  function WidthFromFront(items: seq<TDItem>): nat
  {
    if |items| == 0 then 0 else TypeLen(items[0].fieldType) + WidthFromFront(items[1..])
  }

  /** Summing the widths from the back (SizeOf) or from the front gives the same total. */
  lemma {:induction false} SizeOfFromFront(items: seq<TDItem>)
    ensures SizeOf(items) == WidthFromFront(items)
  {
    if |items| > 0 {
      assert items == [items[0]] + items[1..];
      SizeOfAppend([items[0]], items[1..]);
      assert SizeOf([items[0]]) == PrefixWidth([items[0]], 0) + TypeLen(items[0].fieldType);
      SizeOfFromFront(items[1..]);
    }
  }

  /**
   * getSize is the sum of the field widths (SizeOf, the form the page proofs
   * use, and the front-first sum), 0 exactly when there are no fields.
   */
  lemma {:induction false} GetSizeIsWidth(td: TupleDesc)
    ensures td.GetSize() == WidthFromFront(td.Items())
    ensures td.GetSize() == SizeOf(td.Items())
    ensures td.GetSize() == 0 <==> td.NumFields() <= 0
  {
    SizeOfAtLeastCount(td.Items());
    SizeOfFromFront(td.Items());
  }

  /**
   * new TupleDesc(typeAr, fieldAr): item i is (typeAr[i], fieldAr[i]), or unnamed
   * when fieldAr is null. A missing or empty typeAr leaves no list; a fieldAr
   * shorter than typeAr makes the loop index out of bounds.
   */
  method NewTupleDesc(typeAr: Option<seq<Type>>, fieldAr: Option<seq<Option<string>>>)
    returns (r: Result<TupleDesc>)
    ensures typeAr.None? || |typeAr.value| == 0 ==> r == Ok(TupleDesc(None))
    ensures typeAr.Some? && |typeAr.value| > 0 && fieldAr.Some? && |fieldAr.value| < |typeAr.value| ==>
              r == Err(IndexOutOfBoundsException)
    ensures r.Ok? && typeAr.Some? && |typeAr.value| > 0 ==>
              r.value.NumFields() == |typeAr.value| &&
              forall i :: 0 <= i < |typeAr.value| ==>
                r.value.Items()[i] == TDItem(typeAr.value[i], if fieldAr.Some? then fieldAr.value[i] else None)
    ensures typeAr.Some? && |typeAr.value| > 0 && (fieldAr.None? || |fieldAr.value| >= |typeAr.value|) ==> r.Ok?
  {
    if typeAr.None? || |typeAr.value| == 0 {
      return Ok(TupleDesc(None));
    }
    var types := typeAr.value;
    var list: seq<TDItem> := [];
    var i := 0;
    while i < |types|
      invariant 0 <= i <= |types| && |list| == i
      invariant fieldAr.Some? ==> i <= |fieldAr.value|
      invariant forall j :: 0 <= j < i ==>
                  list[j] == TDItem(types[j], if fieldAr.Some? then fieldAr.value[j] else None)
    {
      if fieldAr.Some? {
        if i >= |fieldAr.value| {
          return Err(IndexOutOfBoundsException);
        }
        list := list + [TDItem(types[i], fieldAr.value[i])];
      } else {
        list := list + [TDItem(types[i], None)];
      }
      i := i + 1;
    }
    r := Ok(TupleDesc(Some(list)));
  }

  /** new TupleDesc(): an empty list, so numFields is 0 rather than -1. */
  function EmptyTupleDesc(): (td: TupleDesc)
    ensures td.NumFields() == 0 && td.GetSize() == 0
  {
    TupleDesc(Some([]))
  }

  /**
   * merge(td1, td2): a fresh descriptor with td1's items followed by td2's; a
   * null argument gives null. A descriptor without a list contributes nothing.
   */
  method Merge(td1: Option<TupleDesc>, td2: Option<TupleDesc>) returns (r: Option<TupleDesc>)
    ensures td1.None? || td2.None? ==> r.None?
    ensures td1.Some? && td2.Some? ==> r == Some(TupleDesc(Some(td1.value.Items() + td2.value.Items())))
  {
    if td1.None? || td2.None? {
      return None;
    }
    var a, b := td1.value, td2.value;
    var list: seq<TDItem> := [];
    var i := 0;
    while i < a.NumFields()
      invariant 0 <= i <= |a.Items()|
      invariant list == a.Items()[..i]
    {
      list := list + [a.GetItem(i).value];
      i := i + 1;
    }
    assert i == |a.Items()|;
    assert list == a.Items();
    i := 0;
    while i < b.NumFields()
      invariant 0 <= i <= |b.Items()|
      invariant list == a.Items() + b.Items()[..i]
    {
      list := list + [b.GetItem(i).value];
      i := i + 1;
    }
    assert i == |b.Items()|;
    assert b.Items()[..i] == b.Items();
    r := Some(TupleDesc(Some(list)));
  }

  /** A merged schema has the sum of the field counts (a missing list counting 0) and of the widths. */
  lemma {:induction false} MergeCounts(td1: TupleDesc, td2: TupleDesc, m: TupleDesc)
    requires m == TupleDesc(Some(td1.Items() + td2.Items()))
    ensures m.NumFields() == |td1.Items()| + |td2.Items()|
    ensures m.NumFields() == (if td1.NumFields() < 0 then 0 else td1.NumFields()) +
                             (if td2.NumFields() < 0 then 0 else td2.NumFields())
    ensures m.GetSize() == td1.GetSize() + td2.GetSize()
    ensures forall i :: 0 <= i < m.NumFields() ==>
              m.GetItem(i) == (if i < |td1.Items()| then td1.GetItem(i) else td2.GetItem(i - |td1.Items()|))
  {
    SizeOfAppend(td1.Items(), td2.Items());
    GetSizeIsWidth(td1);
    GetSizeIsWidth(td2);
    GetSizeIsWidth(m);
  }
}
