/** Evaluation of one parsed query over the rows of one source, and its typing without rows. */
module SqlEval {
  import opened Common
  import opened JsonDecoding
  import opened JsonText
  import opened Numerals
  import opened RowStore
  import opened SqlAst
  import opened TableSchemas
  import RustStr
  import StableSort
  import Utf8

  // --- which rows: WHERE ---

  predicate Holds(op: ComparisonOp, c: Ordering) {
    match op
    case Eq => c == Equal
    case NotEq => c != Equal
    case Gt => c == Greater
    case Ge => c != Less
    case Lt => c == Less
    case Le => c != Greater
  }

  predicate MatchesCondition(d: Decoder, row: Row, c: Condition) {
    var cell := Get(row.cells, c.field);
    && cell.Some?
    && !IsJsonNull(cell.value)
    && Holds(c.op, CompareRaw(d, cell.value, Utf8.Encode(c.literal))) != c.negated
  }

  predicate MatchesAll(d: Decoder, row: Row, conditions: seq<Condition>) {
    forall i :: 0 <= i < |conditions| ==> MatchesCondition(d, row, conditions[i])
  }

  /** `row_matches_query`. */
  predicate Matches(d: Decoder, row: Row, q: Query) {
    q.groups == [] || exists i :: 0 <= i < |q.groups| && MatchesAll(d, row, q.groups[i])
  }

  function Filtered(d: Decoder, rows: seq<Row>, q: Query): seq<Row> {
    if rows == [] then []
    else
      var n := |rows| - 1;
      Filtered(d, rows[..n], q) + (if Matches(d, rows[n], q) then [rows[n]] else [])
  }

  /** Filtering looks at the condition only. */
  lemma {:induction false} FilterByGroups(d: Decoder, rows: seq<Row>, q: Query, p: Query)
    requires q.groups == p.groups
    ensures Filtered(d, rows, p) == Filtered(d, rows, q)
  {
    hide MatchesAll;
    if rows != [] { FilterByGroups(d, rows[..|rows| - 1], q, p); }
  }

  // --- the columns of a result ---

  /** `fields_for_query`. */
  function SelectedFields(schema: seq<Field>, selected: seq<string>): Result<seq<Field>, QueryError> {
    if selected == ["*"] then Ok(schema) else NamedFields(schema, selected)
  }

  function NamedFields(schema: seq<Field>, names: seq<string>): Result<seq<Field>, QueryError> {
    if names == [] then Ok([])
    else if FieldNamed(schema, names[0]).None? then Err(NoSelectedField(names[0]))
    else
      var rest := NamedFields(schema, names[1..]);
      if rest.Err? then rest else Ok([FieldNamed(schema, names[0]).value] + rest.value)
  }

  /** `aggregate_field`. */
  function AggregateField(schema: seq<Field>, a: Aggregate): Option<Field> {
    if a.field == "*" then None else FirstFieldNamed(schema, a.field)
  }

  /** `aggregate_numeric_type`. */
  function NumericType(field: Field): string {
    if IsIntegerField(field) then "INTEGER"
    else
      var kind := RustStr.Upper(DefaultString(field.fieldType, "FLOAT"));
      if kind == "FLOAT64" then "FLOAT" else kind
  }

  /** `aggregate_dry_run_fields`. */
  function AggregateFields(schema: seq<Field>, a: Aggregate): (r: Result<seq<Field>, QueryError>)
    ensures r.Ok? ==> |r.value| == 1
  {
    var name := DefaultString(a.alias, "f0_");
    if a.field == "*" then
      if a.function_ != Count then Err(NeedsField(a.function_)) else Ok([Nullable(name, "INTEGER")])
    else if AggregateField(schema, a).None? then Err(NoAggregateField(a.field))
    else
      var field := AggregateField(schema, a).value;
      match a.function_
      case Count => Ok([Nullable(name, "INTEGER")])
      case Sum => if !IsNumericField(field) then Err(NeedsNumeric(Sum)) else Ok([Nullable(name, NumericType(field))])
      case Avg => if !IsNumericField(field) then Err(NeedsNumeric(Avg)) else Ok([Nullable(name, "FLOAT")])
      case Min => Ok([Nullable(name, DefaultString(field.fieldType, "STRING"))])
      case Max => Ok([Nullable(name, DefaultString(field.fieldType, "STRING"))])
  }

  /** `grouped_aggregate_dry_run_fields`. */
  function GroupedFields(schema: seq<Field>, groupBy: string, a: Aggregate): (r: Result<seq<Field>, QueryError>)
    ensures r.Ok? ==> r.value != []
  {
    var left := SelectedFields(schema, [groupBy]);
    if left.Err? then left
    else
      var right := AggregateFields(schema, a);
      if right.Err? then right else Ok(left.value + right.value)
  }

  // --- aggregates ---

  /** The cell an aggregate looks at: one that is there and not null. */
  function Present(row: Row, name: string): Option<Bytes> {
    var cell := Get(row.cells, name);
    if cell.Some? && !IsJsonNull(cell.value) then cell else None
  }

  function CountPresent(rows: seq<Row>, name: string): nat {
    if rows == [] then 0
    else CountPresent(rows[..|rows| - 1], name) + (if Present(rows[|rows| - 1], name).Some? then 1 else 0)
  }

  /** An accumulated number and how many cells went into it. */
  datatype Total<T> = Total(sum: T, count: nat)

  /** What the integer loop of `sum_aggregate` has after the rows. */
  function IntegerTotal(d: Decoder, rows: seq<Row>, name: string): Result<Total<int>, QueryError> {
    if rows == [] then Ok(Total(0, 0))
    else
      var before, cell := IntegerTotal(d, rows[..|rows| - 1], name), Present(rows[|rows| - 1], name);
      if before.Err? || cell.None? then before
      else if RawInt(d, cell.value).None? then Err(NonInteger)
      else Ok(Total(Wrap(before.value.sum + RawInt(d, cell.value).value), before.value.count + 1))
  }

  /** What `float_aggregate` has after the rows. */
  function FloatTotal(d: Decoder, rows: seq<Row>, name: string): Result<Total<Float>, QueryError> {
    if rows == [] then Ok(Total(Fin(0.0), 0))
    else
      var before, cell := FloatTotal(d, rows[..|rows| - 1], name), Present(rows[|rows| - 1], name);
      if before.Err? || cell.None? then before
      else if RawFloat(d, cell.value).None? then Err(NonNumeric)
      else Ok(Total(d.addFloat(before.value.sum, RawFloat(d, cell.value).value), before.value.count + 1))
  }

  predicate Replaces(d: Decoder, fn: AggregateFunction, cell: Bytes, current: Bytes) {
    var c := CompareRaw(d, cell, current);
    (fn == Min && c == Less) || (fn == Max && c == Greater)
  }

  /** What `min_max_aggregate` has selected after the rows. */
  function Extreme(d: Decoder, rows: seq<Row>, name: string, fn: AggregateFunction): Option<Bytes> {
    if rows == [] then None
    else
      var before, cell := Extreme(d, rows[..|rows| - 1], name, fn), Present(rows[|rows| - 1], name);
      if cell.None? then before
      else if before.None? || Replaces(d, fn, cell.value, before.value) then cell
      else before
  }

  function Single(name: string, fieldType: string, v: Value): QueryResult {
    QueryResult([Nullable(name, fieldType)], [[v]])
  }

  /** `execute_aggregate_query`. */
  function AggregateResult(d: Decoder, rows: seq<Row>, schema: seq<Field>,
      a: Aggregate): (r: Result<QueryResult, QueryError>)
    ensures r.Ok? ==> |r.value.fields| == 1 && |r.value.rows| == 1 && |r.value.rows[0]| == 1
  {
    var name := DefaultString(a.alias, "f0_");
    if a.field == "*" then
      if a.function_ != Count then Err(NeedsField(a.function_))
      else Ok(Single(name, "INTEGER", Str(ShowInt(|rows|))))
    else if AggregateField(schema, a).None? then Err(NoAggregateField(a.field))
    else FieldAggregate(d, rows, name, AggregateField(schema, a).value, a)
  }

  function FieldAggregate(d: Decoder, rows: seq<Row>, name: string, field: Field,
      a: Aggregate): (r: Result<QueryResult, QueryError>)
    ensures r.Ok? ==> |r.value.fields| == 1 && |r.value.rows| == 1 && |r.value.rows[0]| == 1
  {
    match a.function_
    case Count => Ok(Single(name, "INTEGER", Str(ShowInt(CountPresent(rows, a.field)))))
    case Sum =>
      if !IsNumericField(field) then Err(NeedsNumeric(Sum))
      else if IsIntegerField(field) then
        var t := IntegerTotal(d, rows, a.field);
        if t.Err? then Err(t.error)
        else Ok(Single(name, NumericType(field), if t.value.count == 0 then Null else Str(ShowInt(t.value.sum))))
      else
        var t := FloatTotal(d, rows, a.field);
        if t.Err? then Err(t.error)
        else Ok(Single(name, NumericType(field), if t.value.count == 0 then Null else Str(d.showFloat(t.value.sum))))
    case Avg =>
      if !IsNumericField(field) then Err(NeedsNumeric(Avg))
      else
        var t := FloatTotal(d, rows, a.field);
        if t.Err? then Err(t.error)
        else Ok(Single(name, "FLOAT", if t.value.count == 0 then Null
                                      else Str(d.showFloat(d.divideFloat(t.value.sum, t.value.count)))))
    case _ =>
      var best := Extreme(d, rows, a.field, a.function_);
      var cell := if best.None? then Null else ForResponse(d, best.value);
      Ok(Single(name, DefaultString(field.fieldType, "STRING"), cell))
  }

  // --- groups ---

  const NULL_TEXT: Bytes := [110, 117, 108, 108]

  /** The text by which a row is grouped. */
  function GroupKey(row: Row, groupBy: string): Bytes {
    if Get(row.cells, groupBy).Some? then Get(row.cells, groupBy).value else NULL_TEXT
  }

  /** The group keys in the order in which they are first seen. */
  function Keys(rows: seq<Row>, groupBy: string): seq<Bytes> {
    if rows == [] then []
    else
      var before, key := Keys(rows[..|rows| - 1], groupBy), GroupKey(rows[|rows| - 1], groupBy);
      if key in before then before else before + [key]
  }

  function GroupOf(rows: seq<Row>, groupBy: string, key: Bytes): seq<Row> {
    if rows == [] then []
    else
      GroupOf(rows[..|rows| - 1], groupBy, key)
      + (if GroupKey(rows[|rows| - 1], groupBy) == key then [rows[|rows| - 1]] else [])
  }

  // --- order and window ---

  predicate InOrder(c: Ordering, desc: bool) {
    if desc then c != Less else c != Greater
  }

  function RowOrder(d: Decoder, orderBy: string, desc: bool): (Row, Row) -> bool {
    (a: Row, b: Row) => InOrder(CompareRaw(d, RawField(a, orderBy), RawField(b, orderBy)), desc)
  }

  function KeyOrder(d: Decoder, desc: bool): (Bytes, Bytes) -> bool {
    (a: Bytes, b: Bytes) => InOrder(CompareRaw(d, a, b), desc)
  }

  function Ordered(d: Decoder, rows: seq<Row>, q: Query): seq<Row> {
    if q.orderBy == "" then rows else StableSort.Sort(RowOrder(d, q.orderBy, q.orderDesc), rows)
  }

  function OrderedKeys(d: Decoder, rows: seq<Row>, q: Query): seq<Bytes> {
    StableSort.Sort(KeyOrder(d, q.orderDesc), Keys(rows, q.groupBy))
  }

  /** OFFSET, then LIMIT. */
  function Window<T>(s: seq<T>, limit: int, offset: int): seq<T> {
    var rest := if offset <= 0 then s else if offset >= |s| then [] else s[offset..];
    if 0 <= limit < |rest| then rest[..limit] else rest
  }

  // --- the whole query ---

  /** `format_row_values`. */
  function FormatRow(d: Decoder, row: Row, fields: seq<Field>): seq<Value> {
    seq(|fields|, i requires 0 <= i < |fields| =>
      var cell := Present(row, fields[i].name);
      if cell.Some? then ForField(d, cell.value, fields[i]) else Null)
  }

  function FormatRows(d: Decoder, rows: seq<Row>, fields: seq<Field>): seq<seq<Value>> {
    seq(|rows|, i requires 0 <= i < |rows| => FormatRow(d, rows[i], fields))
  }

  function KeyCell(d: Decoder, key: Bytes, field: Field): Value {
    if IsJsonNull(key) then Null else ForField(d, key, field)
  }

  /** The aggregate's cell for one key. */
  function GroupCell(d: Decoder, rows: seq<Row>, schema: seq<Field>, groupBy: string, a: Aggregate,
      key: Bytes): Result<Value, QueryError> {
    var r := AggregateResult(d, GroupOf(rows, groupBy, key), schema, a);
    if r.Err? then Err(r.error) else Ok(r.value.rows[0][0])
  }

  /** One row per key, up to the first aggregate that fails. */
  function GroupRows(d: Decoder, rows: seq<Row>, schema: seq<Field>, groupBy: string, a: Aggregate, field: Field,
      keys: seq<Bytes>)
      : (r: Result<seq<seq<Value>>, QueryError>)
    ensures r.Ok? ==> |r.value| == |keys| && forall i :: 0 <= i < |r.value| ==> |r.value[i]| == 2
  {
    if keys == [] then Ok([])
    else
      var (n, last) := (|keys| - 1, keys[|keys| - 1]);
      var before := GroupRows(d, rows, schema, groupBy, a, field, keys[..n]);
      if before.Err? then before
      else
        var cell := GroupCell(d, rows, schema, groupBy, a, last);
        if cell.Err? then Err(cell.error) else Ok(before.value + [[KeyCell(d, last, field), cell.value]])
  }

  /** `execute_grouped_aggregate_query`. */
  function GroupedResult(d: Decoder, rows: seq<Row>, schema: seq<Field>, q: Query,
      a: Aggregate): Result<QueryResult, QueryError> {
    var fields := GroupedFields(schema, q.groupBy, a);
    if fields.Err? then Err(fields.error)
    else if q.orderBy != "" && q.orderBy != q.groupBy then Err(OrderByNotGrouped)
    else
      var r := GroupRows(d, rows, schema, q.groupBy, a, fields.value[0],
          Window(OrderedKeys(d, rows, q), q.limit, q.offset));
      if r.Err? then Err(r.error) else Ok(QueryResult(fields.value, r.value))
  }

  /** `execute_parsed_query`. */
  function Evaluate(d: Decoder, schema: seq<Field>, rows: seq<Row>, q: Query): Result<QueryResult, QueryError> {
    var fields := SelectedFields(schema, q.selected);
    if fields.Err? then Err(fields.error)
    else
      var kept := Filtered(d, rows, q);
      if q.aggregate.Some? && q.groupBy != "" then GroupedResult(d, kept, schema, q, q.aggregate.value)
      else if q.aggregate.Some? then AggregateResult(d, kept, schema, q.aggregate.value)
      else Ok(QueryResult(fields.value, FormatRows(d, Window(Ordered(d, kept, q), q.limit, q.offset), fields.value)))
  }

  /** The typing part of `dry_run_query_with_depth`. */
  function TypeOf(schema: seq<Field>, q: Query): Result<QueryResult, QueryError> {
    var fields :=
      if q.aggregate.Some? && q.groupBy != "" then GroupedFields(schema, q.groupBy, q.aggregate.value)
      else if q.aggregate.Some? then AggregateFields(schema, q.aggregate.value)
      else SelectedFields(schema, q.selected);
    if fields.Err? then Err(fields.error) else Ok(QueryResult(fields.value, []))
  }

  // --- the loops ---

  /** The integer loop of `sum_aggregate`. */
  method SumIntegers(d: Decoder, rows: seq<Row>, name: string) returns (r: Result<Total<int>, QueryError>)
    ensures r == IntegerTotal(d, rows, name)
  {
    hide Present, RawInt, Wrap;
    var sum, count := 0, 0;
    for i := 0 to |rows|
      invariant IntegerTotal(d, rows[..i], name) == Ok(Total(sum, count))
    {
      assert rows[..i + 1][..i] == rows[..i];
      var cell := Present(rows[i], name);
      if cell.Some? {
        var n := RawInt(d, cell.value);
        if n.None? {
          ErrorStays(d, rows, name, i + 1);
          return Err(NonInteger);
        }
        sum, count := Wrap(sum + n.value), count + 1;
      }
    }
    assert rows[..|rows|] == rows;
    return Ok(Total(sum, count));
  }

  lemma {:induction false} ErrorStays(d: Decoder, rows: seq<Row>, name: string, n: nat)
    requires n <= |rows| && IntegerTotal(d, rows[..n], name).Err?
    ensures IntegerTotal(d, rows, name) == IntegerTotal(d, rows[..n], name)
  {
    if n < |rows| {
      assert rows[..|rows| - 1][..n] == rows[..n];
      ErrorStays(d, rows[..|rows| - 1], name, n);
    } else {
      assert rows[..n] == rows;
    }
  }

  /** `float_aggregate`. */
  method SumFloats(d: Decoder, rows: seq<Row>, name: string) returns (r: Result<Total<Float>, QueryError>)
    ensures r == FloatTotal(d, rows, name)
  {
    hide Present, RawFloat;
    var sum, count := Fin(0.0), 0;
    for i := 0 to |rows|
      invariant FloatTotal(d, rows[..i], name) == Ok(Total(sum, count))
    {
      assert rows[..i + 1][..i] == rows[..i];
      var cell := Present(rows[i], name);
      if cell.Some? {
        var x := RawFloat(d, cell.value);
        if x.None? {
          FloatErrorStays(d, rows, name, i + 1);
          return Err(NonNumeric);
        }
        sum, count := d.addFloat(sum, x.value), count + 1;
      }
    }
    assert rows[..|rows|] == rows;
    return Ok(Total(sum, count));
  }

  lemma {:induction false} FloatErrorStays(d: Decoder, rows: seq<Row>, name: string, n: nat)
    requires n <= |rows| && FloatTotal(d, rows[..n], name).Err?
    ensures FloatTotal(d, rows, name) == FloatTotal(d, rows[..n], name)
  {
    if n < |rows| {
      assert rows[..|rows| - 1][..n] == rows[..n];
      FloatErrorStays(d, rows[..|rows| - 1], name, n);
    } else {
      assert rows[..n] == rows;
    }
  }

  /** `min_max_aggregate`. */
  method SelectExtreme(d: Decoder, rows: seq<Row>, name: string, fn: AggregateFunction)
      returns (selected: Option<Bytes>)
    ensures selected == Extreme(d, rows, name, fn)
  {
    hide Present, Replaces;
    selected := None;
    for i := 0 to |rows|
      invariant selected == Extreme(d, rows[..i], name, fn)
    {
      assert rows[..i + 1][..i] == rows[..i];
      var cell := Present(rows[i], name);
      if cell.Some? && (selected.None? || Replaces(d, fn, cell.value, selected.value)) { selected := cell; }
    }
    assert rows[..|rows|] == rows;
  }

  /** The loop that sorts rows into groups. */
  method CollectGroups(rows: seq<Row>, groupBy: string) returns (keys: seq<Bytes>, groups: map<Bytes, seq<Row>>)
    ensures keys == Keys(rows, groupBy)
    ensures forall k :: k in groups <==> k in keys
    ensures forall k :: k in groups ==> groups[k] == GroupOf(rows, groupBy, k)
  {
    hide GroupKey;
    keys, groups := [], map[];
    for i := 0 to |rows|
      invariant keys == Keys(rows[..i], groupBy)
      invariant forall k :: k in groups <==> k in keys
      invariant forall k :: k in groups ==> groups[k] == GroupOf(rows[..i], groupBy, k)
    {
      assert rows[..i + 1][..i] == rows[..i];
      var key := GroupKey(rows[i], groupBy);
      if key !in groups {
        KeysAreTheGroups(rows[..i], groupBy, key);
        keys := keys + [key];
        groups := groups[key := []];
      }
      groups := groups[key := groups[key] + [rows[i]]];
    }
    assert rows[..|rows|] == rows;
  }

  /** A key has a group exactly when it was seen. */
  lemma {:induction false} KeysAreTheGroups(rows: seq<Row>, groupBy: string, key: Bytes)
    ensures key in Keys(rows, groupBy) <==> GroupOf(rows, groupBy, key) != []
  {
    hide GroupKey;
    if rows != [] { KeysAreTheGroups(rows[..|rows| - 1], groupBy, key); }
  }

  /** The loop behind COUNT of a field. */
  method CountRows(rows: seq<Row>, name: string) returns (count: nat)
    ensures count == CountPresent(rows, name)
  {
    hide Present;
    count := 0;
    for i := 0 to |rows|
      invariant count == CountPresent(rows[..i], name)
    {
      assert rows[..i + 1][..i] == rows[..i];
      if Present(rows[i], name).Some? { count := count + 1; }
    }
    assert rows[..|rows|] == rows;
  }

  /** `execute_aggregate_query`, with its loops. */
  method ExecuteAggregate(d: Decoder, rows: seq<Row>, schema: seq<Field>, a: Aggregate)
      returns (r: Result<QueryResult, QueryError>)
    ensures r == AggregateResult(d, rows, schema, a)
  {
    hide IntegerTotal, FloatTotal, Extreme, CountPresent, NumericType, IsNumericField, IsIntegerField, ForResponse,
      ShowInt;
    var name := DefaultString(a.alias, "f0_");
    var found := AggregateField(schema, a);
    if a.field == "*" {
      if a.function_ != Count { return Err(NeedsField(a.function_)); }
      return Ok(Single(name, "INTEGER", Str(ShowInt(|rows|))));
    }
    if found.None? { return Err(NoAggregateField(a.field)); }
    var field := found.value;
    match a.function_
    case Count =>
      var count := CountRows(rows, a.field);
      return Ok(Single(name, "INTEGER", Str(ShowInt(count))));
    case Sum =>
      if !IsNumericField(field) { return Err(NeedsNumeric(Sum)); }
      if IsIntegerField(field) {
        var t := SumIntegers(d, rows, a.field);
        if t.Err? { return Err(t.error); }
        return Ok(Single(name, NumericType(field), if t.value.count == 0 then Null else Str(ShowInt(t.value.sum))));
      }
      var t := SumFloats(d, rows, a.field);
      if t.Err? { return Err(t.error); }
      return Ok(Single(name, NumericType(field), if t.value.count == 0 then Null else Str(d.showFloat(t.value.sum))));
    case Avg =>
      if !IsNumericField(field) { return Err(NeedsNumeric(Avg)); }
      var t := SumFloats(d, rows, a.field);
      if t.Err? { return Err(t.error); }
      if t.value.count == 0 { return Ok(Single(name, "FLOAT", Null)); }
      return Ok(Single(name, "FLOAT", Str(d.showFloat(d.divideFloat(t.value.sum, t.value.count)))));
    case _ =>
      var best := SelectExtreme(d, rows, a.field, a.function_);
      var cell := if best.None? then Null else ForResponse(d, best.value);
      return Ok(Single(name, DefaultString(field.fieldType, "STRING"), cell));
  }

  /** The loop that makes one row of each group. */
  method AggregateGroups(d: Decoder, rows: seq<Row>, schema: seq<Field>, groupBy: string, a: Aggregate, field: Field,
                         keys: seq<Bytes>, groups: map<Bytes, seq<Row>>)
      returns (r: Result<seq<seq<Value>>, QueryError>)
    requires forall k :: k in keys ==> k in groups && groups[k] == GroupOf(rows, groupBy, k)
    ensures r == GroupRows(d, rows, schema, groupBy, a, field, keys)
  {
    hide GroupOf, KeyCell, AggregateResult;
    var responseRows := [];
    for i := 0 to |keys|
      invariant GroupRows(d, rows, schema, groupBy, a, field, keys[..i]) == Ok(responseRows)
    {
      assert keys[..i + 1][..i] == keys[..i];
      var cell := ExecuteAggregate(d, groups[keys[i]], schema, a);
      if cell.Err? {
        GroupErrorStays(d, rows, schema, groupBy, a, field, keys, i + 1);
        return Err(cell.error);
      }
      responseRows := responseRows + [[KeyCell(d, keys[i], field), cell.value.rows[0][0]]];
    }
    assert keys[..|keys|] == keys;
    return Ok(responseRows);
  }

  lemma WindowIsPart<T>(s: seq<T>, limit: int, offset: int)
    ensures forall x :: x in Window(s, limit, offset) ==> x in s
  {
  }

  /** `execute_grouped_aggregate_query`, with its loops. */
  method ExecuteGrouped(d: Decoder, rows: seq<Row>, schema: seq<Field>, q: Query, a: Aggregate)
      returns (r: Result<QueryResult, QueryError>)
    ensures r == GroupedResult(d, rows, schema, q, a)
  {
    hide GroupKey, GroupedFields, Keys, GroupOf, GroupRows, KeyOrder, StableSort.Sort;
    var fields := GroupedFields(schema, q.groupBy, a);
    if fields.Err? { return Err(fields.error); }
    var keys, groups := CollectGroups(rows, q.groupBy);
    StableSort.SortIsPermutation(KeyOrder(d, q.orderDesc), keys);
    StableSort.SameElements(StableSort.Sort(KeyOrder(d, q.orderDesc), keys), keys);
    keys := StableSort.Sort(KeyOrder(d, q.orderDesc), keys);
    if q.orderBy != "" && q.orderBy != q.groupBy { return Err(OrderByNotGrouped); }
    WindowIsPart(keys, q.limit, q.offset);
    if q.offset > 0 {
      keys := if q.offset >= |keys| then [] else keys[q.offset..];
    }
    if 0 <= q.limit < |keys| { keys := keys[..q.limit]; }
    var responseRows := AggregateGroups(d, rows, schema, q.groupBy, a, fields.value[0], keys, groups);
    if responseRows.Err? { return Err(responseRows.error); }
    return Ok(QueryResult(fields.value, responseRows.value));
  }

  lemma {:induction false} GroupErrorStays(d: Decoder, rows: seq<Row>, schema: seq<Field>, groupBy: string,
      a: Aggregate,
                                           field: Field, keys: seq<Bytes>, n: nat)
    requires n <= |keys| && GroupRows(d, rows, schema, groupBy, a, field, keys[..n]).Err?
    ensures GroupRows(d, rows, schema, groupBy, a, field, keys)
            == GroupRows(d, rows, schema, groupBy, a, field, keys[..n])
  {
    hide GroupCell;
    if n < |keys| {
      assert keys[..|keys| - 1][..n] == keys[..n];
      GroupErrorStays(d, rows, schema, groupBy, a, field, keys[..|keys| - 1], n);
    } else {
      assert keys[..n] == keys;
    }
  }

  /** `execute_parsed_query`, with its local vector of rows. */
  method ExecuteParsed(d: Decoder, schema: seq<Field>, rows: seq<Row>, q: Query)
      returns (r: Result<QueryResult, QueryError>)
    ensures r == Evaluate(d, schema, rows, q)
  {
    hide SelectedFields, Filtered, GroupedResult, AggregateResult, StableSort.Sort, FormatRows;
    var fields := SelectedFields(schema, q.selected);
    if fields.Err? { return Err(fields.error); }
    var filtered := Filtered(d, rows, q);
    if q.aggregate.Some? {
      if q.groupBy != "" {
        r := ExecuteGrouped(d, filtered, schema, q, q.aggregate.value);
        return;
      }
      r := ExecuteAggregate(d, filtered, schema, q.aggregate.value);
      return;
    }
    if q.orderBy != "" { filtered := StableSort.Sort(RowOrder(d, q.orderBy, q.orderDesc), filtered); }
    if q.offset > 0 {
      filtered := if q.offset >= |filtered| then [] else filtered[q.offset..];
    }
    if 0 <= q.limit < |filtered| { filtered := filtered[..q.limit]; }
    return Ok(QueryResult(fields.value, FormatRows(d, filtered, fields.value)));
  }
}
