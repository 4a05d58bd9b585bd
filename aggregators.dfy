/**
 * IntegerAggregator and StringAggregator: group-by aggregation of the
 * tuples merged one at a time, and the tuples their iterators yield. A
 * group key is the group-by field as getField returns it (null when the
 * column is out of range), or a fixed key when there is no grouping.
 */
module Aggregators {
  import opened Wrappers
  import opened JavaInts
  import opened Schema
  import opened Records

  const NO_GROUPING: int := -1

  /** The five operators the integer aggregator's switch handles. Aggregator.java is not part of this model. */
  datatype Op = Min | Max | Sum | Avg | Count

  type GroupKey = Option<Field>

  /** The key every tuple goes to when there is no grouping (emptyFiled). */
  const INT_EMPTY_KEY: GroupKey := Some(IntField(-1))
  const STRING_EMPTY_KEY: GroupKey := Some(StringField(""))

  /** The output schema: [INT] without grouping, [gbfieldtype, INT] with it, all columns unnamed. */
  function AggSchema(gbfield: int, gbfieldtype: Type): (td: TupleDesc)
    ensures td.NumFields() == (if gbfield == NO_GROUPING then 1 else 2)
    ensures td.Types() == if gbfield == NO_GROUPING then [IntType] else [gbfieldtype, IntType]
  {
    if gbfield == NO_GROUPING then TupleDesc(Some([TDItem(IntType, None)]))
    else TupleDesc(Some([TDItem(gbfieldtype, None), TDItem(IntType, None)]))
  }

  /** Both constructors build the schema with new TupleDesc(types). */
  method NewAggSchema(gbfield: int, gbfieldtype: Type) returns (td: TupleDesc)
    ensures td == AggSchema(gbfield, gbfieldtype)
  {
    var types: seq<Type>;
    if gbfield == NO_GROUPING {
      types := [IntType];
    } else {
      types := [gbfieldtype, IntType];
    }
    var r := NewTupleDesc(Some(types), None);
    td := r.value;
    assert td.Items() == AggSchema(gbfield, gbfieldtype).Items();
  }

  /** The group a tuple goes to. */
  function GroupOf(gbfield: int, row: Row, empty: GroupKey): GroupKey
  {
    if gbfield != NO_GROUPING then GetAt(row, gbfield) else empty
  }

  /** ((IntField) tup.getField(afield)).getValue(): null is a NullPointerException, a string a ClassCastException. */
  function IntValueOf(row: Row, afield: int): (r: Result<int32>)
    ensures r.Ok? <==> GetAt(row, afield).Some? && GetAt(row, afield).value.IntField?
    ensures r.Ok? ==> GetAt(row, afield) == Some(IntField(r.value))
    ensures r.Err? ==> r.error == if GetAt(row, afield).None? then NullPointerException else ClassCastException
  {
    match GetAt(row, afield)
    case None => Err(NullPointerException)
    case Some(IntField(v)) => Ok(v)
    case Some(StringField(_)) => Err(ClassCastException)
  }

  /** The values in h merged into group g, in merge order. */
  function ValuesOf(h: seq<(GroupKey, int32)>, g: GroupKey): seq<int32>
  {
    if |h| == 0 then []
    else ValuesOf(h[..|h| - 1], g) + (if h[|h| - 1].0 == g then [h[|h| - 1].1] else [])
  }

  lemma {:induction false} ValuesOfAppend(h: seq<(GroupKey, int32)>, g: GroupKey, v: int32, k: GroupKey)
    ensures ValuesOf(h + [(g, v)], k) == ValuesOf(h, k) + (if g == k then [v] else [])
  {
    assert (h + [(g, v)])[..|h|] == h;
  }

  lemma {:induction false} ValuesOfAppendAll(h: seq<(GroupKey, int32)>, g: GroupKey, v: int32)
    ensures forall k :: ValuesOf(h + [(g, v)], k) == ValuesOf(h, k) + (if g == k then [v] else [])
  {
    forall k
      ensures ValuesOf(h + [(g, v)], k) == ValuesOf(h, k) + (if g == k then [v] else [])
    {
      ValuesOfAppend(h, g, v, k);
    }
  }

  function MinOf(xs: seq<int32>): (m: int32)
    requires |xs| >= 1
    ensures m in xs && forall i :: 0 <= i < |xs| ==> m <= xs[i]
  {
    if |xs| == 1 then xs[0]
    else
      var m := MinOf(xs[..|xs| - 1]);
      assert forall i :: 0 <= i < |xs| - 1 ==> xs[..|xs| - 1][i] == xs[i];
      if xs[|xs| - 1] < m then xs[|xs| - 1] else m
  }

  function MaxOf(xs: seq<int32>): (m: int32)
    requires |xs| >= 1
    ensures m in xs && forall i :: 0 <= i < |xs| ==> xs[i] <= m
  {
    if |xs| == 1 then xs[0]
    else
      var m := MaxOf(xs[..|xs| - 1]);
      assert forall i :: 0 <= i < |xs| - 1 ==> xs[..|xs| - 1][i] == xs[i];
      if xs[|xs| - 1] > m then xs[|xs| - 1] else m
  }

  /** The exact sum; Java's running `int` sum is this wrapped. */
  function SumOf(xs: seq<int32>): int
  {
    if |xs| == 0 then 0 else SumOf(xs[..|xs| - 1]) + xs[|xs| - 1] as int
  }

  /** What the source keeps for a group whose merged values are xs. */
  function Aggregate(what: Op, xs: seq<int32>): int32
    requires |xs| >= 1
  {
    match what
    case Min => MinOf(xs)
    case Max => MaxOf(xs)
    case Sum => Wrap32(SumOf(xs))
    case Avg => Wrap32(JavaDiv(Wrap32(SumOf(xs)) as int, |xs|))
    case Count => Wrap32(|xs|)
  }

  /** Math.min of the running result and the new value is the minimum of the extended list. */
  lemma {:induction false} MinStep(xs: seq<int32>, v: int32)
    requires |xs| >= 1
    ensures MinOf(xs + [v]) == if MinOf(xs) < v then MinOf(xs) else v
  {
    assert (xs + [v])[..|xs|] == xs;
  }

  /** Math.max of the running result and the new value is the maximum of the extended list. */
  lemma {:induction false} MaxStep(xs: seq<int32>, v: int32)
    requires |xs| >= 1
    ensures MaxOf(xs + [v]) == if MaxOf(xs) > v then MaxOf(xs) else v
  {
    assert (xs + [v])[..|xs|] == xs;
  }

  /** Integer.sum of the running sum and the new value is the wrapped sum of the extended list. */
  lemma {:induction false} SumStep(xs: seq<int32>, v: int32)
    ensures Wrap32(SumOf(xs + [v])) == Wrap32(v as int + Wrap32(SumOf(xs)) as int)
  {
    assert (xs + [v])[..|xs|] == xs;
    Wrap32Add(SumOf(xs), v as int);
  }

  /** An average truncates toward zero: the largest whole multiple of the count that fits the wrapped sum. */
  lemma {:induction false} AvgTruncates(xs: seq<int32>)
    requires |xs| >= 1
    ensures var s := Wrap32(SumOf(xs)) as int; var a := Aggregate(Avg, xs) as int;
      Abs(a) * |xs| <= Abs(s) < (Abs(a) + 1) * |xs| && (a == 0 || ((a < 0) <==> (s < 0)))
  {
    var s := Wrap32(SumOf(xs)) as int;
    var n := |xs|;
    var q := JavaDiv(s, n);
    JavaDivTruncates(s, n);
    QuotientSmaller(Abs(s), n);
    assert Wrap32(q) as int == q;
  }

  /** The first value merged into a group is its aggregate under every operator but COUNT and AVG's division by 1. */
  lemma {:induction false} AggregateSingle(what: Op, v: int32)
    ensures Aggregate(what, [v]) == if what == Count then 1 else v
  {
    assert [v][..0] == [];
    assert SumOf([v]) == v as int;
    match what {
      case Min =>
      case Max =>
      case Sum =>
      case Avg =>
        assert JavaDiv(v as int, 1) == v as int;
      case Count =>
    }
  }

  /** The row an iterator tuple carries: (group, result), or (result) without grouping. */
  function ResultRow(grouped: bool, g: GroupKey, v: int32): Row
  {
    if grouped then [g, Some(IntField(v))] else [Some(IntField(v))]
  }

  /**
   * new Tuple(aggSchema) followed by the iterator's setField calls: the
   * schema's default row with the group and the result written in.
   */
  method ResultTuple(schema: TupleDesc, grouped: bool, g: GroupKey, v: int32) returns (t: Tuple)
    requires schema.NumFields() == (if grouped then 2 else 1)
    ensures fresh(t) && t.fields == ResultRow(grouped, g, v) && t.tupleDesc == Some(schema) && t.recordId == None
  {
    t := new Tuple(Some(schema));
    if !grouped {
      t.SetField(0, Some(IntField(v)));
    } else {
      t.SetField(0, g);
      t.SetField(1, Some(IntField(v)));
    }
  }

  /**
   * Each group's list holds exactly the values merged into it, in order,
   * and its result is the aggregate of that list.
   */
  ghost predicate Grouped(what: Op, lists: map<GroupKey, seq<int32>>, results: map<GroupKey, int32>, h: seq<(GroupKey, int32)>)
  {
    lists.Keys == results.Keys &&
    (forall g :: g in lists ==> lists[g] == ValuesOf(h, g) && |lists[g]| >= 1) &&
    (forall g :: g !in lists ==> ValuesOf(h, g) == []) &&
    forall g :: g in results ==> results[g] == Aggregate(what, lists[g])
  }

  /** The lists after v is merged into group g: appended to g's list, or a new list [v]. */
  function Appended(lists: map<GroupKey, seq<int32>>, g: GroupKey, v: int32): (r: map<GroupKey, seq<int32>>)
    ensures r.Keys == lists.Keys + {g} && |r[g]| >= 1 && r[g][|r[g]| - 1] == v
  {
    lists[g := (if g in lists then lists[g] else []) + [v]]
  }

  /** Appending v to g's list and storing its new aggregate keeps the lists and results in step with the history. */
  lemma {:induction false} MergeKeepsGrouped(what: Op, lists: map<GroupKey, seq<int32>>, results: map<GroupKey, int32>,
                                           h: seq<(GroupKey, int32)>, g: GroupKey, v: int32)
    requires Grouped(what, lists, results, h)
    ensures var xs := Appended(lists, g, v)[g];
      Grouped(what, Appended(lists, g, v), results[g := Aggregate(what, xs)], h + [(g, v)])
  {
    MergeKeepsLists(what, lists, results, h, g, v);
    MergeKeepsResults(what, lists, results, h, g, v);
  }

  /** Storing g's new aggregate keeps every result the aggregate of its list. */
  lemma {:induction false} MergeKeepsResults(what: Op, lists: map<GroupKey, seq<int32>>, results: map<GroupKey, int32>,
                                           h: seq<(GroupKey, int32)>, g: GroupKey, v: int32)
    requires Grouped(what, lists, results, h)
    ensures var lists' := Appended(lists, g, v); var results' := results[g := Aggregate(what, lists'[g])];
      results'.Keys == lists'.Keys && forall k :: k in results' ==> results'[k] == Aggregate(what, lists'[k])
  {
    var lists' := Appended(lists, g, v);
    var results' := results[g := Aggregate(what, lists'[g])];
    assert results'.Keys == lists'.Keys;
    forall k | k in results'
      ensures results'[k] == Aggregate(what, lists'[k])
    {
      if k != g {
        assert results'[k] == results[k] && lists'[k] == lists[k];
      }
    }
  }

  /** The lists after a merge hold the values of the extended history. */
  lemma {:induction false} MergeKeepsLists(what: Op, lists: map<GroupKey, seq<int32>>, results: map<GroupKey, int32>,
                                         h: seq<(GroupKey, int32)>, g: GroupKey, v: int32)
    requires Grouped(what, lists, results, h)
    ensures var lists' := Appended(lists, g, v);
      (forall k :: k in lists' ==> lists'[k] == ValuesOf(h + [(g, v)], k) && |lists'[k]| >= 1) &&
      forall k :: k !in lists' ==> ValuesOf(h + [(g, v)], k) == []
  {
    var lists', h' := Appended(lists, g, v), h + [(g, v)];
    ValuesOfAppendAll(h, g, v);
    forall k | k in lists'
      ensures lists'[k] == ValuesOf(h', k) && |lists'[k]| >= 1
    {
      if k == g {
        assert ValuesOf(h', k) == ValuesOf(h, k) + [v];
      } else {
        assert ValuesOf(h', k) == ValuesOf(h, k);
      }
    }
    forall k | k !in lists'
      ensures ValuesOf(h', k) == []
    {
      assert ValuesOf(h', k) == ValuesOf(h, k);
    }
  }

  /**
   * The update doMin, doMax, doSum, doCount or doAVG applies to the stored
   * result of g (absent for a new group) is the aggregate of g's extended
   * list.
   */
  lemma {:induction false} RunningUpdate(what: Op, lists: map<GroupKey, seq<int32>>, results: map<GroupKey, int32>,
                                       g: GroupKey, v: int32)
    requires g in lists <==> g in results
    requires g in lists ==> |lists[g]| >= 1 && results[g] == Aggregate(what, lists[g])
    ensures var xs := Appended(lists, g, v)[g];
      var r := match what
        case Min => if g in results && results[g] < v then results[g] else v
        case Max => if g in results && results[g] > v then results[g] else v
        case Sum => if g in results then Wrap32(v as int + results[g] as int) else v
        case Count => Wrap32(|xs|)
        case Avg => Wrap32(JavaDiv(Wrap32(SumOf(xs)) as int, |xs|));
      r == Aggregate(what, xs)
  {
    var xs := Appended(lists, g, v)[g];
    if g !in lists {
      assert xs == [v] && g !in results;
      AggregateSingle(what, v);
    } else {
      var before := lists[g];
      assert xs == before + [v];
      match what {
        case Min => MinStep(before, v);
        case Max => MaxStep(before, v);
        case Sum => SumStep(before, v);
        case Avg =>
        case Count =>
      }
    }
  }

  class IntegerAggregator {
    const gbfield: int
    const afield: int
    const what: Op
    const aggSchema: TupleDesc
    var aggregation: map<GroupKey, seq<int32>>
    var aggResult: map<GroupKey, int32>
    /** The (group, value) pairs merged so far. */
    ghost var history: seq<(GroupKey, int32)>

    ghost predicate Valid()
      reads this
    {
      aggSchema.NumFields() == (if gbfield == NO_GROUPING then 1 else 2) &&
      Grouped(what, aggregation, aggResult, history)
    }

    constructor (gbfield: int, gbfieldtype: Type, afield: int, what: Op)
      ensures this.gbfield == gbfield && this.afield == afield && this.what == what
      ensures aggSchema == AggSchema(gbfield, gbfieldtype)
      ensures aggregation == map[] && aggResult == map[] && history == [] && Valid()
    {
      this.gbfield := gbfield;
      this.afield := afield;
      this.what := what;
      aggregation := map[];
      aggResult := map[];
      history := [];
      var td := NewAggSchema(gbfield, gbfieldtype);
      aggSchema := td;
    }

    /**
     * mergeTupleIntoGroup: the afield value is appended to its group's list
     * and the group's result is updated; a null or string afield throws and
     * changes nothing.
     */
    method MergeTupleIntoGroup(tup: Tuple) returns (r: Outcome)
      requires Valid()
      modifies this
      ensures Valid()
      ensures var g := GroupOf(gbfield, tup.fields, INT_EMPTY_KEY); var v := IntValueOf(tup.fields, afield);
        (r.Fail? <==> v.Err?) &&
        (r.Fail? ==> (r.error == v.error && aggregation == old(aggregation) && aggResult == old(aggResult) &&
          history == old(history))) &&
        (r.Done? ==> (history == old(history) + [(g, v.value)] &&
          aggregation == Appended(old(aggregation), g, v.value) &&
          aggResult == old(aggResult)[g := Aggregate(what, aggregation[g])]))
    {
      var field: GroupKey;
      if gbfield != NO_GROUPING {
        field := tup.GetField(gbfield);
      } else {
        field := INT_EMPTY_KEY;
      }
      var a := tup.GetField(afield);
      if a.None? {
        return Fail(NullPointerException);
      }
      if a.value.StringField? {
        return Fail(ClassCastException);
      }
      var value := a.value.intValue;
      assert field == GroupOf(gbfield, tup.fields, INT_EMPTY_KEY) && IntValueOf(tup.fields, afield) == Ok(value);
      ghost var lists0, results0, h0 := aggregation, aggResult, history;
      ghost var xs := Appended(lists0, field, value)[field];
      MergeKeepsGrouped(what, lists0, results0, h0, field, value);
      AppendValue(field, value);
      history := history + [(field, value)];
      UpdateResult(field, value, lists0);
      assert aggResult == results0[field := Aggregate(what, xs)];
      assert Grouped(what, aggregation, aggResult, history);
      r := Done;
    }

    /** The switch of mergeTupleIntoGroup: the operator's update leaves g's result at the aggregate of its list. */
    method UpdateResult(field: GroupKey, value: int32, ghost lists0: map<GroupKey, seq<int32>>)
      requires field in lists0 <==> field in aggResult
      requires field in lists0 ==> |lists0[field]| >= 1 && aggResult[field] == Aggregate(what, lists0[field])
      requires aggregation == Appended(lists0, field, value)
      modifies this`aggResult
      ensures aggResult == old(aggResult)[field := Aggregate(what, aggregation[field])]
    {
      ghost var results0 := aggResult;
      RunningUpdate(what, lists0, results0, field, value);
      match what {
        case Min => DoMin(field, value);
        case Max => DoMax(field, value);
        case Avg => DoAvg(field);
        case Sum => DoSum(field, value);
        case Count => DoCount(field);
      }
    }

    /** The list half of the merge: the value joins its group's list, which is created on first use. */
    method AppendValue(field: GroupKey, value: int32)
      modifies this`aggregation
      ensures aggregation == Appended(old(aggregation), field, value)
    {
      if field in aggregation {
        aggregation := aggregation[field := aggregation[field] + [value]];
      } else {
        assert [] + [value] == [value];
        aggregation := aggregation[field := [value]];
      }
    }

    method DoMin(f: GroupKey, value: int32)
      modifies this`aggResult
      ensures aggResult == old(aggResult)[f := if f in old(aggResult) && old(aggResult)[f] < value then old(aggResult)[f] else value]
    {
      if f !in aggResult {
        aggResult := aggResult[f := value];
      } else {
        aggResult := aggResult[f := if value < aggResult[f] then value else aggResult[f]];
      }
    }

    method DoMax(f: GroupKey, value: int32)
      modifies this`aggResult
      ensures aggResult == old(aggResult)[f := if f in old(aggResult) && old(aggResult)[f] > value then old(aggResult)[f] else value]
    {
      if f !in aggResult {
        aggResult := aggResult[f := value];
      } else {
        aggResult := aggResult[f := if value > aggResult[f] then value else aggResult[f]];
      }
    }

    method DoSum(f: GroupKey, value: int32)
      modifies this`aggResult
      ensures aggResult == old(aggResult)[f := if f in old(aggResult) then Wrap32(value as int + old(aggResult)[f] as int) else value]
    {
      if f !in aggResult {
        aggResult := aggResult[f := value];
      } else {
        aggResult := aggResult[f := Wrap32(value as int + aggResult[f] as int)];
      }
    }

    method DoCount(f: GroupKey)
      requires f in aggregation
      modifies this`aggResult
      ensures aggResult == old(aggResult)[f := Wrap32(|aggregation[f]|)]
    {
      aggResult := aggResult[f := Wrap32(|aggregation[f]|)];
    }

    method DoAvg(f: GroupKey)
      requires f in aggregation && |aggregation[f]| >= 1
      modifies this`aggResult
      ensures aggResult == old(aggResult)[f := Aggregate(Avg, aggregation[f])]
    {
      var integers := aggregation[f];
      var sum := SumList(integers);
      var avg := Wrap32(JavaDiv(sum as int, |integers|));
      aggResult := aggResult[f := avg];
    }

    /** IntAggIterator.open: one tuple per group, carrying its result. */
    method Open() returns (tuples: seq<Tuple>, ghost order: seq<GroupKey>)
      requires Valid()
      ensures |tuples| == |order| && Distinct(order) && (forall g :: g in order <==> g in aggResult)
      ensures forall i :: 0 <= i < |tuples| ==> (fresh(tuples[i]) && tuples[i].tupleDesc == Some(aggSchema) &&
        tuples[i].fields == ResultRow(gbfield != NO_GROUPING, order[i], aggResult[order[i]]))
    {
      tuples, order := ResultTuples(aggSchema, gbfield != NO_GROUPING, aggResult);
    }
  }

  /** How many entries of h are g. */
  function Occurrences(h: seq<GroupKey>, g: GroupKey): nat
  {
    if |h| == 0 then 0 else Occurrences(h[..|h| - 1], g) + (if h[|h| - 1] == g then 1 else 0)
  }

  lemma {:induction false} OccurrencesAppendAll(h: seq<GroupKey>, g: GroupKey)
    ensures forall k :: Occurrences(h + [g], k) == Occurrences(h, k) + (if g == k then 1 else 0)
  {
    assert (h + [g])[..|h|] == h;
  }

  /** Each group's count is the number of tuples merged into it, as a Java int. */
  ghost predicate Counted(counts: map<GroupKey, int32>, h: seq<GroupKey>)
  {
    (forall g :: g in counts ==> counts[g] == Wrap32(Occurrences(h, g)) && Occurrences(h, g) >= 1) &&
    forall g :: g !in counts ==> Occurrences(h, g) == 0
  }

  /** merge(field, 1, (a, b) -> a + 1) keeps every count equal to the tuples merged into its group. */
  lemma {:induction false} MergeKeepsCounted(counts: map<GroupKey, int32>, h: seq<GroupKey>, g: GroupKey)
    requires Counted(counts, h)
    ensures Counted(counts[g := if g in counts then Wrap32(counts[g] as int + 1) else 1], h + [g])
  {
    OccurrencesAppendAll(h, g);
    if g in counts {
      Wrap32Add(Occurrences(h, g), 1);
    }
  }

  class StringAggregator {
    const gbfield: int
    const what: Op
    const aggSchema: TupleDesc
    var aggregation: map<GroupKey, int32>
    /** The groups of the tuples merged so far. */
    ghost var history: seq<GroupKey>

    ghost predicate Valid()
      reads this
    {
      aggSchema.NumFields() == (if gbfield == NO_GROUPING then 1 else 2) &&
      Counted(aggregation, history)
    }

    constructor Init(gbfield: int, gbfieldtype: Type, what: Op)
      ensures this.gbfield == gbfield && this.what == what && aggSchema == AggSchema(gbfield, gbfieldtype)
      ensures aggregation == map[] && history == [] && Valid()
    {
      this.gbfield := gbfield;
      this.what := what;
      aggregation := map[];
      history := [];
      var td := NewAggSchema(gbfield, gbfieldtype);
      aggSchema := td;
    }

    /** new StringAggregator(...): only COUNT is supported. The aggregate field is never read. */
    static method New(gbfield: int, gbfieldtype: Type, afield: int, what: Op) returns (r: Result<StringAggregator>)
      ensures r.Err? <==> what != Count
      ensures r.Err? ==> r.error == IllegalArgumentException
      ensures r.Ok? ==> (fresh(r.value) && r.value.gbfield == gbfield && r.value.what == Count &&
        r.value.aggSchema == AggSchema(gbfield, gbfieldtype) && r.value.aggregation == map[] &&
        r.value.history == [] && r.value.Valid())
    {
      if what != Count {
        return Err(IllegalArgumentException);
      }
      var a := new StringAggregator.Init(gbfield, gbfieldtype, what);
      r := Ok(a);
    }

    /** mergeTupleIntoGroup: a new group starts at 1, an existing one adds 1. */
    method MergeTupleIntoGroup(tup: Tuple)
      requires Valid()
      modifies this
      ensures Valid()
      ensures var g := GroupOf(gbfield, tup.fields, STRING_EMPTY_KEY);
        history == old(history) + [g] &&
        aggregation == old(aggregation)[g := if g in old(aggregation) then Wrap32(old(aggregation)[g] as int + 1) else 1]
    {
      var field: GroupKey;
      if gbfield != NO_GROUPING {
        field := tup.GetField(gbfield);
      } else {
        field := STRING_EMPTY_KEY;
      }
      assert field == GroupOf(gbfield, tup.fields, STRING_EMPTY_KEY);
      MergeKeepsCounted(aggregation, history, field);
      CountOne(field);
      history := history + [field];
    }

    /** aggregation.merge(field, 1, (a, b) -> a + 1). */
    method CountOne(field: GroupKey)
      modifies this`aggregation
      ensures aggregation == old(aggregation)[field := if field in old(aggregation) then Wrap32(old(aggregation)[field] as int + 1) else 1]
    {
      if field in aggregation {
        aggregation := aggregation[field := Wrap32(aggregation[field] as int + 1)];
      } else {
        aggregation := aggregation[field := 1];
      }
    }

    /** StringAggIterator.open: one tuple per group, carrying its count. */
    method Open() returns (tuples: seq<Tuple>, ghost order: seq<GroupKey>)
      requires Valid()
      ensures |tuples| == |order| && Distinct(order) && (forall g :: g in order <==> g in aggregation)
      ensures forall i :: 0 <= i < |tuples| ==> (fresh(tuples[i]) && tuples[i].tupleDesc == Some(aggSchema) &&
        tuples[i].fields == ResultRow(gbfield != NO_GROUPING, order[i], aggregation[order[i]]))
    {
      tuples, order := ResultTuples(aggSchema, gbfield != NO_GROUPING, aggregation);
    }
  }

  /** The `int sum = 0; for (int k : integers) sum += k;` loop of doAVG. */
  method SumList(xs: seq<int32>) returns (sum: int32)
    ensures sum == Wrap32(SumOf(xs))
  {
    sum := 0;
    var i := 0;
    while i < |xs|
      invariant 0 <= i <= |xs| && sum == Wrap32(SumOf(xs[..i]))
    {
      assert xs[..i + 1][..i] == xs[..i];
      Wrap32Add(SumOf(xs[..i]), xs[i] as int);
      sum := Wrap32(sum as int + xs[i] as int);
      i := i + 1;
    }
    assert xs[..i] == xs;
  }

  /** The loop of both iterators' open: a tuple per key of the result map, in the map's iteration order. */
  method ResultTuples(schema: TupleDesc, grouped: bool, results: map<GroupKey, int32>)
    returns (tuples: seq<Tuple>, ghost order: seq<GroupKey>)
    requires schema.NumFields() == (if grouped then 2 else 1)
    ensures |tuples| == |order| && Distinct(order) && (forall g :: g in order <==> g in results)
    ensures forall i :: 0 <= i < |tuples| ==> (fresh(tuples[i]) && tuples[i].tupleDesc == Some(schema) &&
      tuples[i].fields == ResultRow(grouped, order[i], results[order[i]]))
  {
    tuples, order := [], [];
    var keys := results.Keys;
    while keys != {}
      invariant keys <= results.Keys && |tuples| == |order| && Distinct(order)
      invariant forall g :: g in order <==> g in results && g !in keys
      invariant forall i :: 0 <= i < |tuples| ==> (fresh(tuples[i]) && tuples[i].tupleDesc == Some(schema) &&
        order[i] in results && tuples[i].fields == ResultRow(grouped, order[i], results[order[i]]))
      decreases |keys|
    {
      var f :| f in keys;
      var t := ResultTuple(schema, grouped, f, results[f]);
      tuples := tuples + [t];
      order := order + [f];
      keys := keys - {f};
    }
  }
}
