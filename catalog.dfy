/**
 * Catalog: the tables of the database, each a file with a name and a
 * primary key, found by name or by the file's id, and the parser of the
 * text description `name (field type [pk], ...)` that loadSchema reads.
 */
module Catalogs {
  import opened Wrappers
  import opened JavaInts
  import opened Schema
  import opened JavaStrings

  /** DbFile is not part of this model; a table's file is its id and its schema. */
  datatype DbFile = DbFile(id: int32, desc: TupleDesc)

  /** One table: its file, its name and its primary key field. */
  datatype CatalogEntry = CatalogEntry(file: DbFile, name: string, pkeyField: string)

  /** One line of a schema description, parsed. */
  datatype TableSchema = TableSchema(name: string, fieldNames: seq<string>, fieldTypes: seq<Type>, primaryKey: string)

  /** One `field type [pk]` entry, parsed. */
  datatype FieldSpec = FieldSpec(name: string, fieldType: Type, isKey: bool)

  /** The type a type word names, ignoring case. */
  function TypeNamed(w: string): Option<Type>
  {
    if EqualsIgnoreCase(w, "int") then Some(IntType)
    else if EqualsIgnoreCase(w, "string") then Some(StringType)
    else None
  }

  /**
   * One field entry: a name, a type word and optionally `pk`. A missing
   * type word is an index out of bounds, an unknown type or annotation a
   * call to System.exit; loadSchema ends the process on either.
   */
  function ParseField(e: string): (r: Result<FieldSpec>)
    ensures r.Err? ==> r.error == SystemExit
  {
    var ws := Split(Trim(e), ' ');
    if |ws| < 2 then Err(SystemExit)
    else
      match TypeNamed(Trim(ws[1]))
      case None => Err(SystemExit)
      case Some(t) =>
        if |ws| == 3 && Trim(ws[2]) != "pk" then Err(SystemExit)
        else Ok(FieldSpec(Trim(ws[0]), t, |ws| == 3))
  }

  /** The field entries in order; the primary key is the last field marked pk, key before any. */
  function ParseFields(els: seq<string>, key: string): (r: Result<(seq<string>, seq<Type>, string)>)
    ensures r.Ok? ==> |r.value.0| == |r.value.1| == |els|
    ensures r.Ok? ==> r.value.2 == key || r.value.2 in r.value.0
    ensures r.Err? ==> r.error == SystemExit
  {
    if |els| == 0 then Ok(([], [], key))
    else
      match ParseField(els[0])
      case Err(e) => Err(e)
      case Ok(f) =>
        match ParseFields(els[1..], if f.isKey then f.name else key)
        case Err(e) => Err(e)
        case Ok(rest) => Ok(([f.name] + rest.0, [f.fieldType] + rest.1, rest.2))
  }

  /**
   * One line of loadSchema: the table name before the first `(`, the
   * entries between it and the first `)` split at commas. A line without
   * both brackets in that order is an index out of bounds.
   */
  function ParseSchemaLine(line: string): (r: Result<TableSchema>)
    ensures r.Ok? ==> |r.value.fieldNames| == |r.value.fieldTypes|
    ensures r.Ok? ==> r.value.primaryKey == "" || r.value.primaryKey in r.value.fieldNames
    ensures r.Err? ==> r.error == SystemExit
  {
    var open := IndexOf(line, '(');
    var close := IndexOf(line, ')');
    match Substring(line, 0, open)
    case Err(_) => Err(SystemExit)
    case Ok(head) =>
      match Substring(line, open + 1, close)
      case Err(_) => Err(SystemExit)
      case Ok(body) => ParseParts(head, body)
  }

  /** The table name is the text before the bracket, trimmed; the fields are the entries between the brackets. */
  function ParseParts(head: string, body: string): (r: Result<TableSchema>)
    ensures r.Ok? ==> |r.value.fieldNames| == |r.value.fieldTypes|
    ensures r.Ok? ==> r.value.primaryKey == "" || r.value.primaryKey in r.value.fieldNames
    ensures r.Err? ==> r.error == SystemExit
  {
    match ParseFields(Split(Trim(body), ','), "")
    case Err(e) => Err(e)
    case Ok(fs) => Ok(TableSchema(Trim(head), fs.0, fs.1, fs.2))
  }

  /** The descriptor `new TupleDesc(typeAr, namesAr)` builds for a parsed line: every field named. */
  function SchemaDesc(s: TableSchema): (td: TupleDesc)
    requires |s.fieldNames| == |s.fieldTypes|
    ensures td.NumFields() == (if |s.fieldTypes| == 0 then -1 else |s.fieldTypes|)
  {
    if |s.fieldTypes| == 0 then TupleDesc(None)
    else TupleDesc(Some(seq(|s.fieldTypes|, i requires 0 <= i < |s.fieldTypes| => TDItem(s.fieldTypes[i], Some(s.fieldNames[i])))))
  }

  // ---- The catalog's three structures, as a value ----

  /** cataLogEntries, nameIdMap and idList. */
  datatype Tables = Tables(entries: map<int32, CatalogEntry>, nameIds: map<string, int32>, idList: seq<int32>)

  /** addTable: the entry stored under the file's id, the name mapped to it, the id appended to the list. */
  function Add(t: Tables, file: DbFile, name: string, pkeyField: string): Tables
  {
    Tables(t.entries[file.id := CatalogEntry(file, name, pkeyField)], t.nameIds[name := file.id], t.idList + [file.id])
  }

  /** getTableId: NoSuchElementException for an unknown name. */
  function TableId(t: Tables, name: string): (r: Result<int32>)
    ensures r.Err? ==> r.error == NoSuchElementException
  {
    if name in t.nameIds then Ok(t.nameIds[name]) else Err(NoSuchElementException)
  }

  /** The entry the id lookups read: NoSuchElementException for an unknown id. */
  function EntryOf(t: Tables, id: int32): (r: Result<CatalogEntry>)
    ensures r.Err? ==> r.error == NoSuchElementException
  {
    if id in t.entries then Ok(t.entries[id]) else Err(NoSuchElementException)
  }

  /**
   * After addTable the name finds the file's id and the id finds the new
   * entry; every other name and id finds what it found before. So the last
   * table added under a name wins, and re-adding an id overwrites its entry.
   */
  lemma {:induction false} AddLookups(t: Tables, file: DbFile, name: string, pkeyField: string, n: string, id: int32)
    ensures TableId(Add(t, file, name, pkeyField), n) == if n == name then Ok(file.id) else TableId(t, n)
    ensures EntryOf(Add(t, file, name, pkeyField), id) ==
      if id == file.id then Ok(CatalogEntry(file, name, pkeyField)) else EntryOf(t, id)
    ensures Add(t, file, name, pkeyField).idList == t.idList + [file.id]
  {
  }

  /** Every line of the schema file, parsed. */
  function ParseAll(lines: seq<string>): (rs: seq<Result<TableSchema>>)
    ensures |rs| == |lines| && Parses(rs)
  {
    seq(|lines|, i requires 0 <= i < |lines| => ParseSchemaLine(lines[i]))
  }

  /**
   * loadSchema over the lines parsed so far: each line that parses becomes a
   * table whose file has the id fileId gives its name; the first line that
   * does not ends the process, keeping the tables added before it.
   */
  function LoadParsed(t: Tables, parsed: seq<Result<TableSchema>>, fileId: string -> int32): (r: (Tables, Outcome))
    requires Parses(parsed)
  {
    if |parsed| == 0 then (t, Done)
    else
      var n := |parsed| - 1;
      ParsesPrefix(parsed, n);
      var before := LoadParsed(t, parsed[..n], fileId);
      if before.1.Fail? then before
      else
        match parsed[n]
        case Err(e) => (before.0, Fail(e))
        case Ok(s) => (Add(before.0, DbFile(fileId(s.name), SchemaDesc(s)), s.name, s.primaryKey), Done)
  }

  /** A list of parse results as ParseSchemaLine gives them. */
  predicate Parses(parsed: seq<Result<TableSchema>>)
  {
    forall i :: 0 <= i < |parsed| && parsed[i].Ok? ==> |parsed[i].value.fieldNames| == |parsed[i].value.fieldTypes|
  }

  lemma {:induction false} ParsesPrefix(parsed: seq<Result<TableSchema>>, k: nat)
    requires Parses(parsed) && k <= |parsed|
    ensures Parses(parsed[..k])
  {
    assert forall i :: 0 <= i < k ==> parsed[..k][i] == parsed[i];
  }

  /** loadSchema over the first k parsed lines. */
  function LoadPrefix(t: Tables, parsed: seq<Result<TableSchema>>, k: nat, fileId: string -> int32): (r: (Tables, Outcome))
    requires Parses(parsed) && k <= |parsed|
  {
    ParsesPrefix(parsed, k);
    LoadParsed(t, parsed[..k], fileId)
  }

  /** Once a line has failed, the lines after it change nothing. */
  lemma {:induction false} LoadStaysFailed(t: Tables, parsed: seq<Result<TableSchema>>, k: nat, fileId: string -> int32)
    requires Parses(parsed) && k <= |parsed| && LoadParsed(t, parsed[..k], fileId).1.Fail?
    ensures LoadParsed(t, parsed, fileId) == LoadParsed(t, parsed[..k], fileId)
    decreases |parsed|
  {
    if k < |parsed| {
      var n := |parsed| - 1;
      assert parsed[..n][..k] == parsed[..k];
      LoadStaysFailed(t, parsed[..n], k, fileId);
    } else {
      assert parsed[..k] == parsed;
    }
  }

  /** loadSchema fails exactly when some line does not parse, and then with System.exit. */
  lemma {:induction false} LoadFails(t: Tables, parsed: seq<Result<TableSchema>>, fileId: string -> int32)
    requires Parses(parsed)
    requires forall i :: 0 <= i < |parsed| && parsed[i].Err? ==> parsed[i].error == SystemExit
    ensures var r := LoadParsed(t, parsed, fileId);
      (r.1 == Done <==> forall i :: 0 <= i < |parsed| ==> parsed[i].Ok?) && (r.1.Fail? ==> r.1 == Fail(SystemExit))
    decreases |parsed|
  {
    if |parsed| > 0 {
      var n := |parsed| - 1;
      assert forall i :: 0 <= i < n ==> parsed[..n][i] == parsed[i];
      LoadFails(t, parsed[..n], fileId);
      if LoadParsed(t, parsed[..n], fileId).1.Fail? {
        var k :| 0 <= k < n && parsed[..n][k].Err?;
        assert parsed[k].Err?;
      }
    }
  }

  /**
   * When loadSchema succeeds it appends one id per line and maps every
   * table name to the id of that table's file.
   */
  lemma {:induction false} LoadSchemaAll(t: Tables, parsed: seq<Result<TableSchema>>, fileId: string -> int32)
    requires Parses(parsed) && forall i :: 0 <= i < |parsed| ==> parsed[i].Ok?
    ensures var r := LoadParsed(t, parsed, fileId);
      |r.0.idList| == |t.idList| + |parsed| &&
      forall i :: 0 <= i < |parsed| ==> TableId(r.0, parsed[i].value.name) == Ok(fileId(parsed[i].value.name))
    decreases |parsed|
  {
    if |parsed| > 0 {
      var n := |parsed| - 1;
      assert forall i :: 0 <= i < n ==> parsed[..n][i] == parsed[i];
      LoadSchemaAll(t, parsed[..n], fileId);
      LoadFails(t, parsed[..n], fileId);
    }
  }

  /** One more line that parses adds its table. */
  lemma {:induction false} LoadStep(t: Tables, parsed: seq<Result<TableSchema>>, s: TableSchema, fileId: string -> int32)
    requires Parses(parsed) && |parsed| > 0 && parsed[|parsed| - 1] == Ok(s)
    requires LoadParsed(t, parsed[..|parsed| - 1], fileId).1 == Done
    ensures LoadParsed(t, parsed, fileId) ==
      (Add(LoadParsed(t, parsed[..|parsed| - 1], fileId).0, DbFile(fileId(s.name), SchemaDesc(s)), s.name, s.primaryKey), Done)
  {
  }

  /** The descriptor NewTupleDesc builds for a parsed line is SchemaDesc's. */
  lemma {:induction false} ParsedDesc(s: TableSchema, td: TupleDesc)
    requires |s.fieldNames| == |s.fieldTypes| >= 1
    requires td.NumFields() == |s.fieldTypes|
    requires forall i :: 0 <= i < |s.fieldTypes| ==> td.Items()[i] == TDItem(s.fieldTypes[i], Some(s.fieldNames[i]))
    ensures td == SchemaDesc(s)
  {
    assert td.typeList.Some?;
    assert td.typeList.value == SchemaDesc(s).typeList.value;
  }

  /** The catalog: its three structures, updated in place. */
  class Catalog {
    var entries: map<int32, CatalogEntry>
    var nameIds: map<string, int32>
    var idList: seq<int32>

    function State(): Tables
      reads this
    {
      Tables(entries, nameIds, idList)
    }

    constructor ()
      ensures State() == Tables(map[], map[], [])
    {
      entries := map[];
      nameIds := map[];
      idList := [];
    }

    /** addTable(file, name, pkeyField). */
    method AddTable(file: DbFile, name: string, pkeyField: string)
      modifies this
      ensures State() == Add(old(State()), file, name, pkeyField)
      ensures GetTableId(name) == Ok(file.id) && GetTableName(file.id) == Ok(name)
      ensures GetDatabaseFile(file.id) == Ok(file) && GetTupleDesc(file.id) == Ok(file.desc)
      ensures GetPrimaryKey(file.id) == Ok(pkeyField)
    {
      var entry := CatalogEntry(file, name, pkeyField);
      var id := file.id;
      entries := entries[id := entry];
      idList := idList + [id];
      nameIds := nameIds[name := id];
    }

    /** addTable(file, name): the primary key is the empty string. */
    method AddTableWithoutKey(file: DbFile, name: string)
      modifies this
      ensures State() == Add(old(State()), file, name, "")
      ensures GetPrimaryKey(file.id) == Ok("")
    {
      AddTable(file, name, "");
    }

    /** addTable(file): the name is a random UUID string, given here as a parameter. */
    method AddUnnamedTable(file: DbFile, uuid: string)
      modifies this
      ensures State() == Add(old(State()), file, uuid, "")
    {
      AddTableWithoutKey(file, uuid);
    }

    function GetTableId(name: string): (r: Result<int32>)
      reads this
      ensures r.Ok? <==> name in nameIds
    {
      TableId(State(), name)
    }

    function GetTupleDesc(id: int32): (r: Result<TupleDesc>)
      reads this
      ensures r.Ok? <==> id in entries
      ensures r.Err? ==> r.error == NoSuchElementException
    {
      match EntryOf(State(), id)
      case Err(e) => Err(e)
      case Ok(entry) => Ok(entry.file.desc)
    }

    function GetDatabaseFile(id: int32): (r: Result<DbFile>)
      reads this
      ensures r.Ok? <==> id in entries
      ensures r.Err? ==> r.error == NoSuchElementException
    {
      match EntryOf(State(), id)
      case Err(e) => Err(e)
      case Ok(entry) => Ok(entry.file)
    }

    function GetPrimaryKey(id: int32): (r: Result<string>)
      reads this
      ensures r.Ok? <==> id in entries
      ensures r.Err? ==> r.error == NoSuchElementException
    {
      match EntryOf(State(), id)
      case Err(e) => Err(e)
      case Ok(entry) => Ok(entry.pkeyField)
    }

    function GetTableName(id: int32): (r: Result<string>)
      reads this
      ensures r.Ok? <==> id in entries
      ensures r.Err? ==> r.error == NoSuchElementException
    {
      match EntryOf(State(), id)
      case Err(e) => Err(e)
      case Ok(entry) => Ok(entry.name)
    }

    /** tableIdIterator: the ids in the order they were added, repeats included. */
    function TableIds(): seq<int32>
      reads this
    {
      idList
    }

    /** clear: no table is left. */
    method Clear()
      modifies this
      ensures State() == Tables(map[], map[], [])
      ensures forall name :: GetTableId(name) == Err(NoSuchElementException)
      ensures forall id :: GetTableName(id) == Err(NoSuchElementException)
    {
      entries := map[];
      idList := [];
      nameIds := map[];
    }

    /**
     * loadSchema over the lines of the catalog file. The file reading is
     * left out; fileId stands for the id of the HeapFile opened for a
     * table name.
     */
    method LoadSchema(lines: seq<string>, fileId: string -> int32) returns (r: Outcome)
      modifies this
      ensures (State(), r) == LoadParsed(old(State()), ParseAll(lines), fileId)
    {
      ghost var t0 := State();
      ghost var parsed := ParseAll(lines);
      var i := 0;
      while i < |lines|
        invariant i <= |lines| && (State(), Done) == LoadPrefix(t0, parsed, i, fileId)
      {
        r := LoadLine(lines[i], fileId, t0, parsed, i);
        if r.Fail? {
          LoadStaysFailed(t0, parsed, i + 1, fileId);
          return;
        }
        i := i + 1;
      }
      assert parsed[..i] == parsed;
      r := Done;
    }

    /** Line k of loadSchema: parsed, then added as a table, or the end of the process. */
    method LoadLine(line: string, fileId: string -> int32, ghost t0: Tables, ghost parsed: seq<Result<TableSchema>>, ghost k: nat)
      returns (r: Outcome)
      requires Parses(parsed) && k < |parsed| && parsed[k] == ParseSchemaLine(line)
      requires (State(), Done) == LoadPrefix(t0, parsed, k, fileId)
      modifies this
      ensures (State(), r) == LoadPrefix(t0, parsed, k + 1, fileId)
    {
      ParsesPrefix(parsed, k + 1);
      var p := parsed[..k + 1];
      assert p[..k] == parsed[..k];
      var s := ParseSchemaLine(line);
      if s.Err? {
        return Fail(s.error);
      }
      AddParsed(s.value, fileId);
      LoadStep(t0, p, s.value, fileId);
      r := Done;
    }

    /** The end of one line of loadSchema: the descriptor, the table's file and addTable. */
    method AddParsed(table: TableSchema, fileId: string -> int32)
      requires |table.fieldNames| == |table.fieldTypes|
      modifies this
      ensures State() == Add(old(State()), DbFile(fileId(table.name), SchemaDesc(table)), table.name, table.primaryKey)
    {
      var names := seq(|table.fieldNames|, k requires 0 <= k < |table.fieldNames| => Some(table.fieldNames[k]));
      var desc := NewTupleDesc(Some(table.fieldTypes), Some(names));
      if |table.fieldTypes| > 0 {
        ParsedDesc(table, desc.value);
      }
      AddTable(DbFile(fileId(table.name), desc.value), table.name, table.primaryKey);
    }
  }

  // ---- The description format, and the parser reading it back ----

  /** A name usable in a schema line: no white space, brackets or commas. */
  predicate Word(w: string)
  {
    |w| > 0 && forall i :: 0 <= i < |w| ==> !IsSpace(w[i]) && w[i] != '(' && w[i] != ')' && w[i] != ','
  }

  function TypeWord(t: Type): (w: string)
    ensures TypeNamed(w) == Some(t)
  {
    match t
    case IntType => "int"
    case StringType => "string"
  }

  function FieldText(n: string, t: Type, isKey: bool): string
  {
    n + " " + TypeWord(t) + (if isKey then " pk" else "")
  }

  /** The field entries of a line, each after a separating space but the first. */
  function FieldParts(ns: seq<string>, ts: seq<Type>, key: string, lead: string): (ps: seq<string>)
    requires |ns| == |ts|
    ensures |ps| == |ns|
  {
    if |ns| == 0 then []
    else [lead + FieldText(ns[0], ts[0], ns[0] == key)] + FieldParts(ns[1..], ts[1..], key, " ")
  }

  /** The table written as a schema line: `name (f1 t1, f2 t2 pk, ...)`. */
  function SchemaLine(s: TableSchema): string
    requires |s.fieldNames| == |s.fieldTypes| >= 1
  {
    s.name + " (" + Join(FieldParts(s.fieldNames, s.fieldTypes, s.primaryKey, ""), ',') + ")"
  }

  /** A table a schema line can describe: words for names, at least one field, a key among the fields or none. */
  predicate Describable(s: TableSchema)
  {
    Word(s.name) && |s.fieldNames| == |s.fieldTypes| >= 1 &&
    (forall i :: 0 <= i < |s.fieldNames| ==> Word(s.fieldNames[i])) &&
    (s.primaryKey == "" || s.primaryKey in s.fieldNames)
  }

  /** The words of a field entry. */
  function FieldWords(n: string, t: Type, isKey: bool): (ws: seq<string>)
  {
    if isKey then [n, TypeWord(t), "pk"] else [n, TypeWord(t)]
  }

  /** A field entry is its words joined by single spaces, and split gives them back. */
  lemma {:induction false} FieldTextSplit(n: string, t: Type, isKey: bool)
    requires Word(n)
    ensures Split(FieldText(n, t, isKey), ' ') == FieldWords(n, t, isKey)
  {
    var w := TypeWord(t);
    var parts := FieldWords(n, t, isKey);
    if isKey {
      assert Join(parts[1..], ' ') == w + [' '] + "pk";
      assert Join(parts, ' ') == n + [' '] + (w + [' '] + "pk");
    } else {
      assert Join(parts[1..], ' ') == w;
    }
    assert Join(parts, ' ') == FieldText(n, t, isKey);
    assert forall i :: 0 <= i < |n| ==> n[i] != ' ';
    SplitJoin(parts, ' ');
  }

  /** A field entry starts with its name and ends with a letter. */
  lemma {:induction false} FieldTextEnds(n: string, t: Type, isKey: bool)
    requires Word(n)
    ensures var ft := FieldText(n, t, isKey); |ft| > 0 && ft[0] == n[0] && !IsSpace(ft[|ft| - 1])
  {
    var ft := FieldText(n, t, isKey);
    var w := TypeWord(t);
    if isKey {
      assert ft[|ft| - 1] == 'k';
    } else {
      assert ft[|ft| - 1] == w[|w| - 1];
    }
  }

  /** A field entry written out parses back to its name, type and mark. */
  lemma {:induction false} ParseFieldText(lead: string, n: string, t: Type, isKey: bool)
    requires forall i :: 0 <= i < |lead| ==> IsSpace(lead[i])
    requires Word(n)
    ensures ParseField(lead + FieldText(n, t, isKey)) == Ok(FieldSpec(n, t, isKey))
  {
    var ft := FieldText(n, t, isKey);
    FieldTextEnds(n, t, isKey);
    TrimSpaced(lead, ft);
    FieldTextSplit(n, t, isKey);
    var ws := Split(Trim(lead + ft), ' ');
    assert ws == FieldWords(n, t, isKey);
    TrimTrimmed(n);
    TrimTrimmed(TypeWord(t));
    TrimTrimmed("pk");
    assert Trim(ws[0]) == n && Trim(ws[1]) == TypeWord(t);
    assert |ws| == 3 ==> Trim(ws[2]) == "pk";
  }

  /** The written field entries parse back to the names, the types and the key. */
  lemma {:induction false} ParseFieldParts(ns: seq<string>, ts: seq<Type>, key: string, lead: string, acc: string)
    requires |ns| == |ts| && forall i :: 0 <= i < |ns| ==> Word(ns[i])
    requires forall i :: 0 <= i < |lead| ==> IsSpace(lead[i])
    ensures ParseFields(FieldParts(ns, ts, key, lead), acc) == Ok((ns, ts, if key in ns then key else acc))
    decreases |ns|
  {
    if |ns| > 0 {
      var ps := FieldParts(ns, ts, key, lead);
      var f := FieldSpec(ns[0], ts[0], ns[0] == key);
      var acc' := if f.isKey then f.name else acc;
      ParseFieldText(lead, ns[0], ts[0], ns[0] == key);
      assert ps[1..] == FieldParts(ns[1..], ts[1..], key, " ");
      WordsTail(ns);
      ParseFieldParts(ns[1..], ts[1..], key, " ", acc');
      ParseFieldsCons(ps, acc, f, (ns[1..], ts[1..], if key in ns[1..] then key else acc'));
      ConsSlice(ns);
      ConsSlice(ts);
    }
  }

  lemma {:induction false} WordsTail(ns: seq<string>)
    requires |ns| > 0 && forall i :: 0 <= i < |ns| ==> Word(ns[i])
    ensures forall i :: 0 <= i < |ns| - 1 ==> Word(ns[1..][i])
  {
    assert forall i :: 0 <= i < |ns| - 1 ==> ns[1..][i] == ns[i + 1];
  }

  lemma {:induction false} ConsSlice<T>(xs: seq<T>)
    requires |xs| > 0
    ensures xs == [xs[0]] + xs[1..]
  {
  }

  /** ParseFields on a non-empty list: the first entry, then the rest with the key it sets. */
  lemma {:induction false} ParseFieldsCons(els: seq<string>, acc: string, f: FieldSpec, rest: (seq<string>, seq<Type>, string))
    requires |els| > 0 && ParseField(els[0]) == Ok(f)
    requires ParseFields(els[1..], if f.isKey then f.name else acc) == Ok(rest)
    ensures ParseFields(els, acc) == Ok(([f.name] + rest.0, [f.fieldType] + rest.1, rest.2))
  {
  }

  /** No written field entry holds a bracket or a comma. */
  lemma {:induction false} FieldPartsFree(ns: seq<string>, ts: seq<Type>, key: string, lead: string, c: char)
    requires |ns| == |ts| && forall i :: 0 <= i < |ns| ==> Word(ns[i])
    requires forall i :: 0 <= i < |lead| ==> IsSpace(lead[i])
    requires c == '(' || c == ')' || c == ','
    ensures forall i :: 0 <= i < |ns| ==> c !in FieldParts(ns, ts, key, lead)[i]
    decreases |ns|
  {
    if |ns| > 0 {
      var ps := FieldParts(ns, ts, key, lead);
      var tail := FieldParts(ns[1..], ts[1..], key, " ");
      FieldTextFree(ns[0], ts[0], ns[0] == key, lead, c);
      assert forall i :: 0 <= i < |ns| - 1 ==> ns[1..][i] == ns[i + 1];
      FieldPartsFree(ns[1..], ts[1..], key, " ", c);
      assert ps == [lead + FieldText(ns[0], ts[0], ns[0] == key)] + tail;
      assert forall i :: 1 <= i < |ns| ==> ps[i] == tail[i - 1];
    }
  }

  /** One written field entry holds no bracket or comma. */
  lemma {:induction false} FieldTextFree(n: string, t: Type, isKey: bool, lead: string, c: char)
    requires Word(n) && forall i :: 0 <= i < |lead| ==> IsSpace(lead[i])
    requires c == '(' || c == ')' || c == ','
    ensures c !in lead + FieldText(n, t, isKey)
  {
    assert c !in TypeWord(t);
  }

  /** The last written field entry ends with a letter. */
  lemma {:induction false} LastPart(ns: seq<string>, ts: seq<Type>, key: string, lead: string)
    requires |ns| == |ts| >= 1 && Word(ns[|ns| - 1])
    ensures var ps := FieldParts(ns, ts, key, lead); var n := |ns| - 1;
      ps[n] != [] && !IsSpace(ps[n][|ps[n]| - 1])
    decreases |ns|
  {
    var ps := FieldParts(ns, ts, key, lead);
    var n := |ns| - 1;
    if n > 0 {
      LastPart(ns[1..], ts[1..], key, " ");
      assert ns[1..][n - 1] == ns[n];
    } else {
      FieldTextEnds(ns[0], ts[0], ns[0] == key);
    }
  }

  /** The body of a schema line: its field entries, and its ends. */
  lemma {:induction false} SchemaBody(s: TableSchema)
    requires Describable(s)
    ensures var body := Join(FieldParts(s.fieldNames, s.fieldTypes, s.primaryKey, ""), ',');
      '(' !in body && ')' !in body && Trim(body) == body &&
      Split(body, ',') == FieldParts(s.fieldNames, s.fieldTypes, s.primaryKey, "")
  {
    var ps := FieldParts(s.fieldNames, s.fieldTypes, s.primaryKey, "");
    var body := Join(ps, ',');
    FieldPartsFree(s.fieldNames, s.fieldTypes, s.primaryKey, "", '(');
    FieldPartsFree(s.fieldNames, s.fieldTypes, s.primaryKey, "", ')');
    FieldPartsFree(s.fieldNames, s.fieldTypes, s.primaryKey, "", ',');
    JoinWithout(ps, ',', '(');
    JoinWithout(ps, ',', ')');
    FieldTextEnds(s.fieldNames[0], s.fieldTypes[0], s.fieldNames[0] == s.primaryKey);
    assert ps[0] == FieldText(s.fieldNames[0], s.fieldTypes[0], s.fieldNames[0] == s.primaryKey);
    JoinFirst(ps, ',');
    assert !IsSpace(body[0]) by {
      assert body[0] == s.fieldNames[0][0];
      assert Word(s.fieldNames[0]);
    }
    BodyLast(s, ps, body);
    TrimTrimmed(body);
    SplitJoin(ps, ',');
  }

  lemma {:induction false} BodyLast(s: TableSchema, ps: seq<string>, body: string)
    requires Describable(s)
    requires ps == FieldParts(s.fieldNames, s.fieldTypes, s.primaryKey, "") && body == Join(ps, ',')
    ensures ps[|ps| - 1] != [] && |body| > 0 && !IsSpace(body[|body| - 1])
  {
    assert Word(s.fieldNames[|s.fieldNames| - 1]);
    LastPart(s.fieldNames, s.fieldTypes, s.primaryKey, "");
    var lp := ps[|ps| - 1];
    JoinLast(ps, ',');
    assert body[|body| - 1] == lp[|lp| - 1];
  }

  /** The brackets of a schema line: the first `(` ends the name, the first `)` ends the body. */
  lemma {:induction false} SchemaBrackets(name: string, body: string)
    requires Word(name) && '(' !in body && ')' !in body
    ensures var line := name + " (" + body + ")";
      IndexOf(line, '(') == |name| + 1 && IndexOf(line, ')') == |name| + 2 + |body| &&
      line[0..|name| + 1] == name + " " && line[|name| + 2..|name| + 2 + |body|] == body
  {
    var line := name + " (" + body + ")";
    assert forall i :: 0 <= i < |name| ==> name[i] != '(' && name[i] != ')';
    assert '(' !in name + " " && ')' !in name + " (" + body;
    assert line == (name + " ") + ("(" + body + ")");
    IndexOfAfter(name + " ", "(" + body + ")", '(');
    assert line == (name + " (" + body) + ")";
    IndexOfAfter(name + " (" + body, ")", ')');
  }

  /** A describable table written as a schema line parses back to itself. */
  lemma {:induction false} ParseSchemaLineRoundTrip(s: TableSchema)
    requires Describable(s)
    ensures ParseSchemaLine(SchemaLine(s)) == Ok(s)
  {
    var ps := FieldParts(s.fieldNames, s.fieldTypes, s.primaryKey, "");
    var body := Join(ps, ',');
    SchemaBody(s);
    SchemaBrackets(s.name, body);
    TrimSpaceAfter(s.name);
    ParseFieldParts(s.fieldNames, s.fieldTypes, s.primaryKey, "", "");
    ParsePartsOf(s.name + " ", body, s);
    ParseLineOf(SchemaLine(s), s.name + " ", body, s);
  }

  /** ParseSchemaLine once the text before the first `(` and between it and the first `)` are known. */
  lemma {:induction false} ParseLineOf(line: string, head: string, body: string, s: TableSchema)
    requires 0 <= IndexOf(line, '(') < IndexOf(line, ')')
    requires head == line[0..IndexOf(line, '(')] && body == line[IndexOf(line, '(') + 1..IndexOf(line, ')')]
    requires ParseParts(head, body) == Ok(s)
    ensures ParseSchemaLine(line) == Ok(s)
  {
  }

  lemma {:induction false} ParsePartsOf(head: string, body: string, s: TableSchema)
    requires Trim(head) == s.name
    requires ParseFields(Split(Trim(body), ','), "") == Ok((s.fieldNames, s.fieldTypes, s.primaryKey))
    ensures ParseParts(head, body) == Ok(s)
  {
  }
}
