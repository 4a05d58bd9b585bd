/**
 * Tuple: a row of fields with a schema and an optional record id. The list
 * entries are nullable in the source (setField accepts null), so a row is a
 * sequence of optional fields.
 */
module Records {
  import opened Wrappers
  import opened JavaInts
  import opened Ids
  import opened Schema

  /** IntField.java and StringField.java are not part of this model; a field is its value. */
  datatype Field = IntField(intValue: int32) | StringField(stringValue: string)

  function FieldType(f: Field): Type
  {
    match f
    case IntField(_) => IntType
    case StringField(_) => StringType
  }

  /** The field a fresh tuple holds for a column of type t. */
  function DefaultField(t: Type): (f: Field)
    ensures FieldType(f) == t
  {
    match t
    case IntType => IntField(0)
    case StringType => StringField("")
  }

  type Row = seq<Option<Field>>

  /** The location of a tuple: its page (as an object) and its slot. */
  datatype RecordId = RecordId(pageId: PageIdObject, tupleNumber: nat)

  /** A row holding a present field of the listed type in every column. */
  predicate WellTyped(row: Row, types: seq<Type>)
  {
    |row| == |types| && forall i :: 0 <= i < |row| ==> row[i].Some? && FieldType(row[i].value) == types[i]
  }

  /** The schema `new Tuple(td)` keeps: none for a null or field-less descriptor. */
  function DefaultDesc(td: Option<TupleDesc>): Option<TupleDesc>
  {
    if td.None? || td.value.NumFields() < 1 then None else td
  }

  /** The fields `new Tuple(td)` starts with: the default field of each column type. */
  function DefaultRow(td: Option<TupleDesc>): (row: Row)
    ensures DefaultDesc(td).None? ==> row == []
    ensures DefaultDesc(td).Some? ==> |row| == td.value.NumFields() && WellTyped(row, td.value.Types())
    ensures forall i :: 0 <= i < |row| ==> row[i] == Some(DefaultField(td.value.Items()[i].fieldType))
  {
    if DefaultDesc(td).None? then []
    else
      var ts := td.value.Types();
      seq(|ts|, i requires 0 <= i < |ts| => Some(DefaultField(ts[i])))
  }

  /** setField on a row value: only an index inside the row changes. */
  function SetAt(row: Row, i: int, f: Option<Field>): (r: Row)
    ensures |r| == |row|
  {
    if 0 <= i < |row| then row[i := f] else row
  }

  /** getField on a row value: null outside the row. */
  function GetAt(row: Row, i: int): Option<Field>
  {
    if 0 <= i < |row| then row[i] else None
  }

  /** Setting then getting field i returns what was set; every other field is unchanged. */
  lemma {:induction false} SetThenGet(row: Row, i: int, j: int, f: Option<Field>)
    ensures GetAt(SetAt(row, i, f), j) == (if 0 <= i < |row| && j == i then f else GetAt(row, j))
  {
  }

  class Tuple {
    var fields: Row
    var tupleDesc: Option<TupleDesc>
    var recordId: Option<RecordId>

    constructor (td: Option<TupleDesc>)
      ensures fields == DefaultRow(td) && tupleDesc == DefaultDesc(td) && recordId == None
    {
      recordId := None;
      if td.None? || td.value.NumFields() < 1 {
        fields := [];
        tupleDesc := None;
      } else {
        tupleDesc := td;
        var len := td.value.NumFields();
        var list: Row := [];
        var i := 0;
        while i < len
          invariant 0 <= i <= len && |list| == i
          invariant forall j :: 0 <= j < i ==> list[j] == Some(DefaultField(td.value.Items()[j].fieldType))
        {
          var t := td.value.GetFieldType(i).value;
          var f := if t == IntType then IntField(0) else StringField("");
          list := list + [Some(f)];
          i := i + 1;
        }
        assert list == DefaultRow(td);
        fields := list;
      }
    }

    function GetTupleDesc(): Option<TupleDesc>
      reads this
    {
      tupleDesc
    }

    function GetRecordId(): Option<RecordId>
      reads this
    {
      recordId
    }

    method SetRecordId(rid: Option<RecordId>)
      modifies this`recordId
      ensures recordId == rid
    {
      recordId := rid;
    }

    /** setField: out of range it does nothing. */
    method SetField(i: int, f: Option<Field>)
      modifies this`fields
      ensures fields == SetAt(old(fields), i, f)
    {
      if i >= |fields| || i < 0 {
        return;
      }
      fields := fields[i := f];
    }

    /** getField: the stored entry, or null out of range. */
    function GetField(i: int): (r: Option<Field>)
      reads this
      ensures 0 <= i < |fields| ==> r == fields[i]
      ensures !(0 <= i < |fields|) ==> r.None?
    {
      if i >= |fields| || i < 0 then None else fields[i]
    }

    /** resetTupleDesc: the schema and fields of a fresh tuple of td; the record id stays. */
    method ResetTupleDesc(td: Option<TupleDesc>)
      modifies this`fields, this`tupleDesc
      ensures fields == DefaultRow(td) && tupleDesc == DefaultDesc(td)
      ensures recordId == old(recordId)
    {
      var newTuple := new Tuple(td);
      fields := newTuple.fields;
      tupleDesc := newTuple.tupleDesc;
    }
  }
}
