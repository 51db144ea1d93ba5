/** What a result shows, said without the loops that make it: the cells of a plain result, the value of an
    aggregate, and the rows of a grouped result. */
module SqlResults {
  import opened Common
  import opened JsonDecoding
  import opened JsonText
  import opened Numerals
  import opened RowStore
  import opened SqlAst
  import opened SqlEval
  import opened SqlWhere
  import opened TableSchemas
  import C = JsonCells
  import G = SqlGroups
  import RustStr
  import StableSort
  import Utf8

  // --- the values of a column ---

  /** The row's cell of that name, if there is one that is not null. */
  ghost predicate HasValue(row: Row, name: string, raw: Bytes) {
    HasCell(row, name, raw) && !IsJsonNull(raw)
  }

  /** The values of a column, row by row, and the positions of their rows. */
  ghost predicate AreValues(rows: seq<Row>, name: string, at: seq<nat>, cells: seq<Bytes>) {
    && IsSelection(at, |rows|) && |cells| == |at|
    && (forall k :: 0 <= k < |at| ==> HasValue(rows[at[k]], name, cells[k]))
    && (forall i: nat, raw :: i < |rows| && HasValue(rows[i], name, raw) ==> i in at)
  }

  lemma PresentIsValue(row: Row, name: string)
    ensures forall raw :: HasValue(row, name, raw) <==> Present(row, name) == Some(raw)
  {
    hide HasCell, IsJsonNull, Get;
    forall raw ensures HasCell(row, name, raw) <==> Get(row.cells, name) == Some(raw) {
      GetIsHasCell(row, name, raw);
    }
  }

  // --- what is added up ---

  function SumOf(d: Decoder, cells: seq<Bytes>): int
    requires forall k :: 0 <= k < |cells| ==> RawInt(d, cells[k]).Some?
  {
    if cells == [] then 0 else SumOf(d, cells[..|cells| - 1]) + RawInt(d, cells[|cells| - 1]).value
  }

  /** Added one after the other, in the order of the rows. */
  function FloatSumOf(d: Decoder, cells: seq<Bytes>): Float
    requires forall k :: 0 <= k < |cells| ==> RawFloat(d, cells[k]).Some?
  {
    if cells == [] then Fin(0.0)
    else d.addFloat(FloatSumOf(d, cells[..|cells| - 1]), RawFloat(d, cells[|cells| - 1]).value)
  }

  /** What the loops of the aggregates have found in a column with these values. */
  ghost predicate LoopsFind(d: Decoder, rows: seq<Row>, name: string, cells: seq<Bytes>) {
    && CountPresent(rows, name) == |cells|
    && (IntegerTotal(d, rows, name).Ok? ==>
          && (forall k :: 0 <= k < |cells| ==> RawInt(d, cells[k]).Some?)
          && IntegerTotal(d, rows, name).value == Total(Wrap(SumOf(d, cells)), |cells|))
    && (FloatTotal(d, rows, name).Ok? ==>
          && (forall k :: 0 <= k < |cells| ==> RawFloat(d, cells[k]).Some?)
          && FloatTotal(d, rows, name).value == Total(FloatSumOf(d, cells), |cells|))
    && IsExtreme(d, Extreme(d, rows, name, Min), cells, true) && IsExtreme(d, Extreme(d, rows, name, Max), cells, false)
  }

  ghost predicate NoneIsBeyond(d: Decoder, cells: seq<Bytes>, k: int, least: bool)
    requires 0 <= k < |cells|
  {
    forall l :: k < l < |cells| ==> !(if least then Below(d, cells[l], cells[k]) else Below(d, cells[k], cells[l]))
  }

  /** None where there is no value; else a value that no later one is below, or above. */
  ghost predicate IsExtreme(d: Decoder, best: Option<Bytes>, cells: seq<Bytes>, least: bool) {
    if best.None? then cells == []
    else exists k :: 0 <= k < |cells| && cells[k] == best.value && NoneIsBeyond(d, cells, k, least)
  }

  lemma NewExtreme(d: Decoder, best: Option<Bytes>, cells: seq<Bytes>, cell: Bytes, least: bool)
    requires IsExtreme(d, best, cells, least)
    ensures var fn := if least then Min else Max;
            var now := if best.None? || Replaces(d, fn, cell, best.value) then Some(cell) else best;
            IsExtreme(d, now, cells + [cell], least)
  {
    hide CompareRaw, Below;
    var all := cells + [cell];
    if best.None? {
      assert all == [cell] && all[0] == cell;
    } else {
      ValuesCompare(d, cell, best.value);
      if Replaces(d, if least then Min else Max, cell, best.value) {
        assert all[|cells|] == cell;
      } else {
        var k :| 0 <= k < |cells| && cells[k] == best.value && NoneIsBeyond(d, cells, k, least);
        assert all[k] == best.value;
      }
    }
  }

  lemma NoValues(d: Decoder, name: string)
    ensures AreValues([], name, [], []) && LoopsFind(d, [], name, [])
  {
    assert Wrap(0) == 0;
  }

  lemma OneValueMore(rows: seq<Row>, name: string, at: seq<nat>, cells: seq<Bytes>)
    requires rows != [] && AreValues(rows[..|rows| - 1], name, at, cells)
    ensures var cell := Present(rows[|rows| - 1], name);
            if cell.None? then AreValues(rows, name, at, cells)
            else AreValues(rows, name, at + [|rows| - 1], cells + [cell.value])
  {
    hide HasValue, Present;
    var n := |rows| - 1;
    PresentIsValue(rows[n], name);
    assert forall i: nat :: i < n ==> rows[..n][i] == rows[i];
  }

  lemma LoopStep(d: Decoder, rows: seq<Row>, name: string, cells: seq<Bytes>)
    requires rows != [] && LoopsFind(d, rows[..|rows| - 1], name, cells)
    ensures var cell := Present(rows[|rows| - 1], name);
            LoopsFind(d, rows, name, if cell.None? then cells else cells + [cell.value])
  {
    hide Present, RawInt, RawFloat, Wrap, IsExtreme, Replaces;
    var (n, cell) := (|rows| - 1, Present(rows[|rows| - 1], name));
    if cell.Some? {
      var all := cells + [cell.value];
      assert all[..|all| - 1] == cells;
      NewExtreme(d, Extreme(d, rows[..n], name, Min), cells, cell.value, true);
      NewExtreme(d, Extreme(d, rows[..n], name, Max), cells, cell.value, false);
      if IntegerTotal(d, rows, name).Ok? { WrapAdds(SumOf(d, cells), RawInt(d, cell.value).value); }
    }
  }

  lemma {:induction false} ColumnHasValues(d: Decoder, rows: seq<Row>, name: string)
      returns (at: seq<nat>, cells: seq<Bytes>)
    ensures AreValues(rows, name, at, cells) && LoopsFind(d, rows, name, cells)
  {
    if rows == [] {
      at, cells := [], [];
      NoValues(d, name);
    } else {
      var n := |rows| - 1;
      at, cells := ColumnHasValues(d, rows[..n], name);
      hide AreValues, LoopsFind, Present;
      OneValueMore(rows, name, at, cells);
      LoopStep(d, rows, name, cells);
      var cell := Present(rows[n], name);
      if cell.Some? { at, cells := at + [n], cells + [cell.value]; }
    }
  }

  // --- aggregates ---

  /** The column and the value of an aggregate over `n` rows with these values in its column. */
  ghost predicate ShowsAggregate(d: Decoder, schema: seq<Field>, a: Aggregate, n: nat, cells: seq<Bytes>, column: Field,
      v: Value) {
    && column == Nullable(if a.alias == "" then "f0_" else a.alias, column.fieldType)
    && if a.function_ == Count then
         column.fieldType == "INTEGER" && v == Str(ShowInt(if a.field == "*" then n else |cells|))
       else
         && a.field != "*"
         && exists f :: IsFirstNamed(schema, a.field, f) && ShowsValue(d, f, a, cells, column.fieldType, v)
  }

  /** The first column of the name. */
  ghost predicate IsFirstNamed(schema: seq<Field>, name: string, f: Field) {
    exists k :: 0 <= k < |schema| && schema[k] == f && f.name == name
                && forall l :: 0 <= l < k ==> schema[l].name != name
  }

  lemma {:induction false} FirstNamed(schema: seq<Field>, name: string)
    ensures FirstFieldNamed(schema, name).Some? ==> IsFirstNamed(schema, name, FirstFieldNamed(schema, name).value)
    ensures FirstFieldNamed(schema, name).None? ==> forall f :: f in schema ==> f.name != name
    ensures forall f :: IsFirstNamed(schema, name, f) ==> FirstFieldNamed(schema, name) == Some(f)
  {
    if schema != [] {
      FirstNamed(schema[1..], name);
      if schema[0].name != name {
        forall f ensures IsFirstNamed(schema, name, f) <==> IsFirstNamed(schema[1..], name, f) {
          OneFurther(schema, name, f);
        }
      } else {
        assert IsFirstNamed(schema, name, schema[0]);
      }
    }
  }

  lemma OneFurther(schema: seq<Field>, name: string, f: Field)
    requires schema != [] && schema[0].name != name
    ensures IsFirstNamed(schema, name, f) <==> IsFirstNamed(schema[1..], name, f)
  {
    var rest := schema[1..];
    if IsFirstNamed(schema, name, f) {
      var k :| 0 <= k < |schema| && schema[k] == f && f.name == name
               && forall l :: 0 <= l < k ==> schema[l].name != name;
      assert rest[k - 1] == f && forall l :: 0 <= l < k - 1 ==> rest[l] == schema[l + 1];
    }
    if IsFirstNamed(rest, name, f) {
      var k :| 0 <= k < |rest| && rest[k] == f && f.name == name && forall l :: 0 <= l < k ==> rest[l].name != name;
      assert schema[k + 1] == f && forall l :: 1 <= l < k + 1 ==> schema[l] == rest[l - 1];
    }
  }

  /** The other aggregates: NULL where there is no value. */
  ghost predicate ShowsValue(d: Decoder, f: Field, a: Aggregate, cells: seq<Bytes>, kind: string, v: Value) {
    match a.function_
    case Count => true
    case Sum =>
      && KindOf(f) in {"INTEGER", "INT64", "FLOAT", "FLOAT64", "NUMERIC", "BIGNUMERIC"}
      && if KindOf(f) in {"INTEGER", "INT64"} then
           && kind == "INTEGER" && (forall k :: 0 <= k < |cells| ==> RawInt(d, cells[k]).Some?)
           && v == if cells == [] then Null else Str(ShowInt(Wrap(SumOf(d, cells))))
         else
           && kind == (if KindOf(f) == "FLOAT64" then "FLOAT" else KindOf(f))
           && (forall k :: 0 <= k < |cells| ==> RawFloat(d, cells[k]).Some?)
           && v == if cells == [] then Null else Str(d.showFloat(FloatSumOf(d, cells)))
    case Avg =>
      && KindOf(f) in {"INTEGER", "INT64", "FLOAT", "FLOAT64", "NUMERIC", "BIGNUMERIC"} && kind == "FLOAT"
      && (forall k :: 0 <= k < |cells| ==> RawFloat(d, cells[k]).Some?)
      && v == if cells == [] then Null else Str(d.showFloat(d.divideFloat(FloatSumOf(d, cells), |cells|)))
    case Min => kind == DefaultString(f.fieldType, "STRING") && ShowsExtreme(d, cells, true, v)
    case Max => kind == DefaultString(f.fieldType, "STRING") && ShowsExtreme(d, cells, false, v)
  }

  ghost predicate ShowsExtreme(d: Decoder, cells: seq<Bytes>, least: bool, v: Value) {
    if cells == [] then v == Null
    else exists best :: IsExtreme(d, Some(best), cells, least) && v == ForResponse(d, best)
  }

  lemma NumericTypes(f: Field)
    ensures IsNumericField(f) <==> KindOf(f) in {"INTEGER", "INT64", "FLOAT", "FLOAT64", "NUMERIC", "BIGNUMERIC"}
    ensures IsIntegerField(f) <==> KindOf(f) in {"INTEGER", "INT64"}
    ensures IsNumericField(f) ==>
              NumericType(f)
              == if IsIntegerField(f) then "INTEGER" else if KindOf(f) == "FLOAT64" then "FLOAT" else KindOf(f)
  {
    if f.fieldType == "" { assert RustStr.Upper("STRING") == "STRING"; }
    hide RustStr.Upper;
  }

  lemma SumsShow(d: Decoder, rows: seq<Row>, name: string, f: Field, a: Aggregate, cells: seq<Bytes>)
    requires a.function_ in {Sum, Avg} && LoopsFind(d, rows, a.field, cells)
    requires FieldAggregate(d, rows, name, f, a).Ok?
    ensures var r := FieldAggregate(d, rows, name, f, a).value;
            r == Single(name, r.fields[0].fieldType, r.rows[0][0])
            && ShowsValue(d, f, a, cells, r.fields[0].fieldType, r.rows[0][0])
  {
    hide IntegerTotal, FloatTotal, CountPresent, Extreme, NumericType, IsNumericField, IsIntegerField, KindOf;
    hide RawInt, RawFloat, IsExtreme, SumOf, FloatSumOf, ShowInt, Wrap;
    NumericTypes(f);
  }

  lemma ExtremesShow(d: Decoder, rows: seq<Row>, name: string, f: Field, a: Aggregate, cells: seq<Bytes>)
    requires a.function_ in {Min, Max} && LoopsFind(d, rows, a.field, cells)
    ensures var r := FieldAggregate(d, rows, name, f, a).value;
            r == Single(name, r.fields[0].fieldType, r.rows[0][0])
            && ShowsValue(d, f, a, cells, r.fields[0].fieldType, r.rows[0][0])
  {
    hide IntegerTotal, FloatTotal, CountPresent, Extreme, RawInt, RawFloat, IsExtreme, SumOf, FloatSumOf, ForResponse;
    ExtremeIsThere(d, Extreme(d, rows, a.field, Min), cells, true);
    ExtremeIsThere(d, Extreme(d, rows, a.field, Max), cells, false);
  }

  /** An aggregate shows the number of rows, or what its function makes of the values of its column. */
  lemma AggregateShows(d: Decoder, rows: seq<Row>, schema: seq<Field>, a: Aggregate)
      returns (at: seq<nat>, cells: seq<Bytes>)
    requires AggregateResult(d, rows, schema, a).Ok?
    ensures AreValues(rows, a.field, at, cells)
    ensures var r := AggregateResult(d, rows, schema, a).value;
            && |r.fields| == 1 && |r.rows| == 1 && |r.rows[0]| == 1
            && ShowsAggregate(d, schema, a, |rows|, cells, r.fields[0], r.rows[0][0])
  {
    hide AreValues, FirstFieldNamed, IsFirstNamed, ShowsValue, ShowInt;
    FirstNamed(schema, a.field);
    at, cells := ColumnHasValues(d, rows, a.field);
    if a.field == "*" {
    } else if a.function_ == Count {
      hide IntegerTotal, FloatTotal, IsExtreme, CountPresent;
    } else {
      hide FieldAggregate, LoopsFind;
      var (name, f) := (DefaultString(a.alias, "f0_"), FirstFieldNamed(schema, a.field).value);
      if a.function_ in {Sum, Avg} {
        SumsShow(d, rows, name, f, a, cells);
      } else {
        ExtremesShow(d, rows, name, f, a, cells);
      }
    }
  }

  lemma ExtremeIsThere(d: Decoder, best: Option<Bytes>, cells: seq<Bytes>, least: bool)
    requires IsExtreme(d, best, cells, least)
    ensures best.None? <==> cells == []
  {
    hide Below;
  }

  // --- plain results ---

  /** How a row's cell is shown in a column. */
  ghost predicate ShowsCell(d: Decoder, row: Row, f: Field, v: Value) {
    if exists raw :: HasValue(row, f.name, raw) then
      exists raw :: HasValue(row, f.name, raw) && ShowsText(d, raw, f, v)
    else v == Null
  }

  /** Integers, truth values and decimals as strings, the rest as the JSON value it is. */
  predicate ShowsText(d: Decoder, raw: Bytes, f: Field, v: Value) {
    if RustStr.EqIgnoreAsciiCase(f.mode, "REPEATED") then v == ForResponse(d, raw)
    else if KindOf(f) in {"INTEGER", "INT64"} && RawInt(d, raw).Some? then v == Str(ShowInt(RawInt(d, raw).value))
    else if KindOf(f) in {"BOOLEAN", "BOOL"} && d.asBool(raw) == Some(true) then
      v == Str(Utf8.Encode("true"))
    else if KindOf(f) in {"BOOLEAN", "BOOL"} && d.asBool(raw) == Some(false) then
      v == Str(Utf8.Encode("false"))
    else if KindOf(f) in {"NUMERIC", "BIGNUMERIC"} && d.asString(raw).Some? then v == Str(d.asString(raw).value)
    else if KindOf(f) in {"NUMERIC", "BIGNUMERIC"} && d.first(raw).Some? && d.first(raw).value.Number? then
      v == Str(d.first(raw).value.text)
    else v == ForResponse(d, raw)
  }

  lemma CellIsShown(d: Decoder, row: Row, f: Field)
    ensures var cell := Present(row, f.name);
            ShowsCell(d, row, f, if cell.Some? then ForField(d, cell.value, f) else Null)
  {
    hide HasValue, Present, ShowsText, ForField;
    PresentIsValue(row, f.name);
    if Present(row, f.name).Some? { TextIsShown(d, Present(row, f.name).value, f); }
  }

  lemma TextIsShown(d: Decoder, raw: Bytes, f: Field)
    ensures ShowsText(d, raw, f, ForField(d, raw, f))
  {
    hide RawInt, KindOf, RustStr.EqIgnoreAsciiCase, ForResponse, ShowInt, Utf8.Encode;
    EncodedSigns();
  }

  /** The columns asked for: all, or of each name the schema's last. */
  ghost predicate AreColumns(schema: seq<Field>, selected: seq<string>, fields: seq<Field>) {
    if selected == ["*"] then fields == schema
    else
      && |fields| == |selected|
      && forall i :: 0 <= i < |fields| ==> IsLastNamed(schema, selected[i], fields[i])
  }

  ghost predicate IsLastNamed(schema: seq<Field>, name: string, f: Field) {
    exists k :: 0 <= k < |schema| && schema[k] == f && f.name == name
                && forall l :: k < l < |schema| ==> schema[l].name != name
  }

  lemma {:induction false} WhereNamed(schema: seq<Field>, name: string) returns (k: nat)
    requires FieldNamed(schema, name).Some?
    ensures k < |schema| && schema[k] == FieldNamed(schema, name).value && schema[k].name == name
    ensures forall l :: k < l < |schema| ==> schema[l].name != name
  {
    var n := |schema| - 1;
    if schema[n].name == name {
      k := n;
    } else {
      k := WhereNamed(schema[..n], name);
      assert forall l :: 0 <= l < n ==> schema[..n][l] == schema[l];
    }
  }

  lemma NamedIsLast(schema: seq<Field>, name: string)
    requires FieldNamed(schema, name).Some?
    ensures IsLastNamed(schema, name, FieldNamed(schema, name).value)
  {
    hide FieldNamed;
    var k := WhereNamed(schema, name);
  }

  lemma {:induction false} NamedAreColumns(schema: seq<Field>, names: seq<string>)
    requires NamedFields(schema, names).Ok?
    ensures var fields := NamedFields(schema, names).value;
            |fields| == |names| && forall i :: 0 <= i < |fields| ==> IsLastNamed(schema, names[i], fields[i])
  {
    hide IsLastNamed, FieldNamed;
    if names != [] {
      NamedAreColumns(schema, names[1..]);
      NamedIsLast(schema, names[0]);
    }
  }

  /** How many rows are left out at the start, and how many follow. */
  function Skipped(n: nat, q: Query): nat {
    if q.offset <= 0 then 0 else if q.offset < n then q.offset else n
  }

  function Shown(n: nat, q: Query): nat {
    if 0 <= q.limit < n - Skipped(n, q) then q.limit else n - Skipped(n, q)
  }

  lemma WindowShows<T>(s: seq<T>, q: Query)
    ensures var w := Window(s, q.limit, q.offset);
            |w| == Shown(|s|, q) && forall k :: 0 <= k < |w| ==> w[k] == s[Skipped(|s|, q) + k]
  {
  }

  /** A plain result without a WHERE clause: the columns asked for, and of the rows in the order asked for those
      after the offset up to the limit, each cell as it is shown. */
  lemma PlainShows(d: Decoder, schema: seq<Field>, rows: seq<Row>, q: Query)
    requires q.aggregate.None? && q.groups == [] && Evaluate(d, schema, rows, q).Ok?
    ensures var r := Evaluate(d, schema, rows, q).value;
            var sorted := if q.orderBy == "" then rows else StableSort.Sort(RowOrder(d, q.orderBy, q.orderDesc), rows);
            && AreColumns(schema, q.selected, r.fields)
            && |r.rows| == Shown(|sorted|, q)
            && forall k :: 0 <= k < |r.rows| ==>
                 && |r.rows[k]| == |r.fields|
                 && forall j :: 0 <= j < |r.fields| ==>
                      ShowsCell(d, sorted[Skipped(|sorted|, q) + k], r.fields[j], r.rows[k][j])
  {
    hide Filtered, Window, AreColumns, ShowsCell, ForField, Present, SelectedFields, StableSort.Sort, RowOrder;
    NoConditionKeepsAll(d, rows, q);
    var sorted := Ordered(d, rows, q);
    WindowShows(sorted, q);
    ColumnsAreSelected(schema, q.selected);
    var r := Evaluate(d, schema, rows, q).value;
    forall k, j | 0 <= k < |r.rows| && 0 <= j < |r.fields|
      ensures ShowsCell(d, sorted[Skipped(|sorted|, q) + k], r.fields[j], r.rows[k][j])
    {
      CellIsShown(d, sorted[Skipped(|sorted|, q) + k], r.fields[j]);
    }
  }

  lemma ColumnsAreSelected(schema: seq<Field>, selected: seq<string>)
    requires SelectedFields(schema, selected).Ok?
    ensures AreColumns(schema, selected, SelectedFields(schema, selected).value)
  {
    hide IsLastNamed, NamedFields;
    if selected != ["*"] { NamedAreColumns(schema, selected); }
  }

  /** An aggregate query without groups and conditions shows its aggregate over all rows, whatever its window. */
  lemma UngroupedShows(d: Decoder, schema: seq<Field>, rows: seq<Row>, q: Query)
      returns (at: seq<nat>, cells: seq<Bytes>)
    requires q.aggregate.Some? && q.groupBy == "" && q.groups == [] && Evaluate(d, schema, rows, q).Ok?
    ensures AreValues(rows, q.aggregate.value.field, at, cells)
    ensures var r := Evaluate(d, schema, rows, q).value;
            && |r.fields| == 1 && |r.rows| == 1 && |r.rows[0]| == 1
            && ShowsAggregate(d, schema, q.aggregate.value, |rows|, cells, r.fields[0], r.rows[0][0])
  {
    hide Filtered, SelectedFields, AggregateResult, AreValues, ShowsAggregate;
    NoConditionKeepsAll(d, rows, q);
    at, cells := AggregateShows(d, rows, schema, q.aggregate.value);
  }

  // --- typing ---

  /** No column has the name. */
  predicate IsUnknown(schema: seq<Field>, name: string) {
    forall f :: f in schema ==> f.name != name
  }

  /** Why an aggregate has no type. */
  ghost predicate IsIllTypedAggregate(schema: seq<Field>, a: Aggregate, e: QueryError) {
    || (a.field == "*" && a.function_ != Count && e == NeedsField(a.function_))
    || (a.field != "*" && IsUnknown(schema, a.field) && e == NoAggregateField(a.field))
    || (a.field != "*" && a.function_ in {Sum, Avg} && e == NeedsNumeric(a.function_)
        && exists f :: IsFirstNamed(schema, a.field, f)
                       && !C.HasType(f, {"INTEGER", "INT64", "FLOAT", "FLOAT64", "NUMERIC", "BIGNUMERIC"}))
  }

  /** The first of the names that is no column's. */
  ghost predicate IsFirstUnknown(schema: seq<Field>, names: seq<string>, e: QueryError) {
    exists i :: 0 <= i < |names| && IsUnknown(schema, names[i]) && e == NoSelectedField(names[i])
                && forall j :: 0 <= j < i ==> !IsUnknown(schema, names[j])
  }

  /** Why a query has no type: a name that is no column's, or its aggregate. */
  ghost predicate IsIllTyped(schema: seq<Field>, q: Query, e: QueryError) {
    match q.aggregate
    case None =>
      q.selected != ["*"] && IsFirstUnknown(schema, q.selected, e)
    case Some(a) =>
      if q.groupBy !in {"", "*"} && IsUnknown(schema, q.groupBy) then e == NoSelectedField(q.groupBy)
      else IsIllTypedAggregate(schema, a, e)
  }

  lemma {:induction false} UnknownNames(schema: seq<Field>, name: string)
    ensures FieldNamed(schema, name).None? <==> IsUnknown(schema, name)
  {
    if schema != [] {
      UnknownNames(schema[..|schema| - 1], name);
      assert schema == schema[..|schema| - 1] + [schema[|schema| - 1]];
    }
  }

  lemma {:induction false} NamesUnknown(schema: seq<Field>, names: seq<string>)
    ensures forall e :: NamedFields(schema, names) == Err(e) <==> IsFirstUnknown(schema, names, e)
  {
    hide IsUnknown, FieldNamed;
    if names != [] {
      UnknownNames(schema, names[0]);
      NamesUnknown(schema, names[1..]);
      if !IsUnknown(schema, names[0]) {
        forall e ensures IsFirstUnknown(schema, names, e) <==> IsFirstUnknown(schema, names[1..], e) {
          FirstIsFurther(schema, names, e);
        }
      } else {
        assert IsFirstUnknown(schema, names, NoSelectedField(names[0]));
      }
    }
  }

  lemma FirstIsFurther(schema: seq<Field>, names: seq<string>, e: QueryError)
    requires names != [] && !IsUnknown(schema, names[0])
    ensures IsFirstUnknown(schema, names, e) <==> IsFirstUnknown(schema, names[1..], e)
  {
    hide IsUnknown;
    var rest := names[1..];
    if IsFirstUnknown(schema, names, e) {
      var i :| 0 <= i < |names| && IsUnknown(schema, names[i]) && e == NoSelectedField(names[i])
               && forall j :: 0 <= j < i ==> !IsUnknown(schema, names[j]);
      assert rest[i - 1] == names[i] && forall j :: 0 <= j < i - 1 ==> rest[j] == names[j + 1];
    }
    if IsFirstUnknown(schema, rest, e) {
      var i :| 0 <= i < |rest| && IsUnknown(schema, rest[i]) && e == NoSelectedField(rest[i])
               && forall j :: 0 <= j < i ==> !IsUnknown(schema, rest[j]);
      assert names[i + 1] == rest[i] && forall j :: 1 <= j < i + 1 ==> names[j] == rest[j - 1];
    }
  }

  lemma NumericIsNamed(f: Field)
    ensures IsNumericField(f) <==> C.HasType(f, {"INTEGER", "INT64", "FLOAT", "FLOAT64", "NUMERIC", "BIGNUMERIC"})
  {
    hide KindOf;
    NumericTypes(f);
    C.TypesAreInCapitals();
    hide RustStr.InCapitals;
    C.TypeIsKind(f, {"INTEGER", "INT64", "FLOAT", "FLOAT64", "NUMERIC", "BIGNUMERIC"});
  }

  lemma AggregateTypes(schema: seq<Field>, a: Aggregate)
    ensures forall e :: AggregateFields(schema, a) == Err(e) <==> IsIllTypedAggregate(schema, a, e)
  {
    hide IsFirstNamed, FirstFieldNamed, IsNumericField, NumericType, C.HasType;
    FirstNamed(schema, a.field);
    var f := FirstFieldNamed(schema, a.field);
    if f.Some? {
      NumericIsNamed(f.value);
      FirstIsThere(schema, a.field, f.value);
    }
  }

  lemma FirstIsThere(schema: seq<Field>, name: string, f: Field)
    requires IsFirstNamed(schema, name, f)
    ensures !IsUnknown(schema, name)
  {
  }

  lemma OneName(schema: seq<Field>, name: string)
    ensures forall e :: IsFirstUnknown(schema, [name], e) <==> IsUnknown(schema, name) && e == NoSelectedField(name)
  {
    hide IsUnknown;
    if IsUnknown(schema, name) {
      var names := [name];
      assert IsUnknown(schema, names[0]);
    }
  }

  /** A query is refused without looking at a row exactly when it has no type, and with the first reason for that. */
  lemma TypeFailsExactly(schema: seq<Field>, q: Query)
    ensures forall e :: TypeOf(schema, q) == Err(e) <==> IsIllTyped(schema, q, e)
  {
    hide AggregateFields, IsIllTypedAggregate, NamedFields, IsUnknown, IsFirstUnknown;
    if q.aggregate.None? {
      NamesUnknown(schema, q.selected);
    } else {
      AggregateTypes(schema, q.aggregate.value);
      NamesUnknown(schema, [q.groupBy]);
      OneName(schema, q.groupBy);
      var (names, fields) := (NamedFields(schema, [q.groupBy]), AggregateFields(schema, q.aggregate.value));
      forall e ensures TypeOf(schema, q) == Err(e) <==> IsIllTyped(schema, q, e) {
        assert fields == Err(e) <==> IsIllTypedAggregate(schema, q.aggregate.value, e);
        if q.groupBy !in {"", "*"} {
          assert IsUnknown(schema, q.groupBy) ==> IsFirstUnknown(schema, [q.groupBy], NoSelectedField(q.groupBy));
          assert names.Ok? || names == Err(NoSelectedField(q.groupBy));
        }
      }
    }
  }

  // --- grouped results ---

  /** The text by which a row is grouped: its cell, or `null`. */
  ghost predicate HasKey(row: Row, name: string, key: Bytes) {
    HasCell(row, name, key) || ((forall raw :: !HasCell(row, name, raw)) && key == Utf8.Encode("null"))
  }

  lemma KeyIsText(row: Row, name: string, key: Bytes)
    ensures HasKey(row, name, key) <==> GroupKey(row, name) == key
  {
    hide HasCell, Get, Utf8.Encode;
    Letters("null", NULL_TEXT);
    forall raw ensures HasCell(row, name, raw) <==> Get(row.cells, name) == Some(raw) {
      GetIsHasCell(row, name, raw);
    }
  }

  /** The positions of the rows of one group. */
  ghost predicate AreOfGroup(rows: seq<Row>, name: string, key: Bytes, at: seq<nat>) {
    IsSelection(at, |rows|) && forall i: nat :: i < |rows| ==> (i in at <==> HasKey(rows[i], name, key))
  }

  lemma {:induction false} GroupIsPicked(rows: seq<Row>, name: string, key: Bytes) returns (at: seq<nat>)
    ensures AreOfGroup(rows, name, key, at) && GroupOf(rows, name, key) == Picked(rows, at)
  {
    if rows == [] {
      at := [];
    } else {
      var n := |rows| - 1;
      var before := GroupIsPicked(rows[..n], name, key);
      KeyIsText(rows[n], name, key);
      hide HasKey, GroupKey, Picked, IsSelection;
      SelectionOfGroup(rows[..n], name, key, before);
      PickMore(rows, before);
      at := if GroupKey(rows[n], name) == key then before + [n] else before;
      OneMoreInGroup(rows, name, key, before);
    }
  }

  lemma SelectionOfGroup(rows: seq<Row>, name: string, key: Bytes, at: seq<nat>)
    requires AreOfGroup(rows, name, key, at)
    ensures IsSelection(at, |rows|)
  {
    hide HasKey;
  }

  lemma OneMoreInGroup(rows: seq<Row>, name: string, key: Bytes, before: seq<nat>)
    requires rows != [] && AreOfGroup(rows[..|rows| - 1], name, key, before)
    ensures var n := |rows| - 1;
            AreOfGroup(rows, name, key, if HasKey(rows[n], name, key) then before + [n] else before)
  {
    hide HasKey;
    assert forall i: nat :: i < |rows| - 1 ==> rows[..|rows| - 1][i] == rows[i];
  }

  /** One row of a grouped result: the group's key, and the aggregate of exactly its rows. */
  ghost predicate ShowsGroup(d: Decoder, schema: seq<Field>, rows: seq<Row>, groupBy: string, a: Aggregate,
      field: Field,
      key: Bytes, shown: seq<Value>) {
    && |shown| == 2 && (if IsJsonNull(key) then shown[0] == Null else ShowsText(d, key, field, shown[0]))
    && exists at :: AreOfGroup(rows, groupBy, key, at) && AggregateResult(d, Picked(rows, at), schema, a).Ok?
         && shown[1] == AggregateResult(d, Picked(rows, at), schema, a).value.rows[0][0]
  }

  lemma {:induction false} GroupsAreShown(d: Decoder, rows: seq<Row>, schema: seq<Field>, groupBy: string, a: Aggregate,
      field: Field, keys: seq<Bytes>)
    requires GroupRows(d, rows, schema, groupBy, a, field, keys).Ok?
    ensures var r := GroupRows(d, rows, schema, groupBy, a, field, keys).value;
            |r| == |keys|
            && forall i :: 0 <= i < |r| ==> ShowsGroup(d, schema, rows, groupBy, a, field, keys[i], r[i])
  {
    hide ShowsGroup, GroupCell, KeyCell;
    if keys != [] {
      var n := |keys| - 1;
      GroupsAreShown(d, rows, schema, groupBy, a, field, keys[..n]);
      OneGroupIsShown(d, rows, schema, groupBy, a, field, keys[n]);
      assert forall i :: 0 <= i < n ==> keys[..n][i] == keys[i];
    }
  }

  lemma OneGroupIsShown(d: Decoder, rows: seq<Row>, schema: seq<Field>, groupBy: string, a: Aggregate, field: Field,
      key: Bytes)
    requires GroupCell(d, rows, schema, groupBy, a, key).Ok?
    ensures var shown := [KeyCell(d, key, field), GroupCell(d, rows, schema, groupBy, a, key).value];
            ShowsGroup(d, schema, rows, groupBy, a, field, key, shown)
  {
    hide AggregateResult, AreOfGroup, Picked, ForField, ShowsText, IsJsonNull;
    TextIsShown(d, key, field);
    var at := GroupIsPicked(rows, groupBy, key);
    GroupSelection(rows, groupBy, key, at);
  }

  lemma GroupSelection(rows: seq<Row>, groupBy: string, key: Bytes, at: seq<nat>)
    requires AreOfGroup(rows, groupBy, key, at)
    ensures IsSelection(at, |rows|)
  {
    SelectionOfGroup(rows, groupBy, key, at);
  }

  lemma GroupedEvaluates(d: Decoder, schema: seq<Field>, rows: seq<Row>, q: Query)
    requires q.aggregate.Some? && q.groupBy != "" && q.groups == [] && Evaluate(d, schema, rows, q).Ok?
    ensures GroupedResult(d, rows, schema, q, q.aggregate.value) == Evaluate(d, schema, rows, q)
  {
    hide GroupedResult, SelectedFields, Filtered;
    NoConditionKeepsAll(d, rows, q);
  }

  /** Each text by which some row is grouped, once. */
  ghost predicate AreKeys(rows: seq<Row>, groupBy: string, keys: seq<Bytes>) {
    && (forall i, j :: 0 <= i < j < |keys| ==> keys[i] != keys[j])
    && forall key :: key in keys <==> exists row :: row in rows && HasKey(row, groupBy, key)
  }

  lemma KeysAreThose(rows: seq<Row>, groupBy: string)
    ensures AreKeys(rows, groupBy, Keys(rows, groupBy))
  {
    hide HasKey, Keys, G.Distinct;
    var keys := Keys(rows, groupBy);
    G.KeysCover(rows, groupBy);
    DistinctKeys(keys);
    forall key ensures key in keys <==> exists row :: row in rows && HasKey(row, groupBy, key) {
      KeyIsThere(rows, groupBy, key);
    }
  }

  /** A grouped result without a WHERE clause: for each key, in order and within the window, the key and the
      aggregate of the rows that have it. */
  lemma GroupedShows(d: Decoder, schema: seq<Field>, rows: seq<Row>, q: Query) returns (keys: seq<Bytes>)
    requires q.aggregate.Some? && q.groupBy !in {"", "*"} && q.groups == [] && Evaluate(d, schema, rows, q).Ok?
    ensures AreKeys(rows, q.groupBy, keys)
    ensures var r := Evaluate(d, schema, rows, q).value;
            var sorted := StableSort.Sort(KeyOrder(d, q.orderDesc), keys);
            && |sorted| == |keys| && |r.fields| == 2 && |r.rows| == Shown(|keys|, q)
            && IsLastNamed(schema, q.groupBy, r.fields[0])
            && forall i :: 0 <= i < |r.rows| ==>
                 ShowsGroup(d, schema, rows, q.groupBy, q.aggregate.value, r.fields[0],
                            sorted[Skipped(|keys|, q) + i], r.rows[i])
  {
    hide Window, ShowsGroup, GroupRows, SelectedFields, AggregateFields, StableSort.Sort, KeyOrder, HasKey, Evaluate;
    hide Keys, Skipped, Shown, IsLastNamed, AreKeys;
    GroupedEvaluates(d, schema, rows, q);
    keys := Keys(rows, q.groupBy);
    KeysAreThose(rows, q.groupBy);
    var sorted := OrderedKeys(d, rows, q);
    StableSort.SortIsPermutation(KeyOrder(d, q.orderDesc), keys);
    SameLength(sorted, keys);
    WindowShows(sorted, q);
    var a := q.aggregate.value;
    GroupColumn(schema, q.groupBy);
    GroupsAreShown(d, rows, schema, q.groupBy, a, GroupedFields(schema, q.groupBy, a).value[0],
                   Window(sorted, q.limit, q.offset));
  }

  lemma DistinctKeys(keys: seq<Bytes>)
    requires G.Distinct(keys)
    ensures forall i, j :: 0 <= i < j < |keys| ==> keys[i] != keys[j]
  {
  }

  lemma {:induction false} KeyIsThere(rows: seq<Row>, name: string, key: Bytes)
    ensures key in Keys(rows, name) <==> exists row :: row in rows && HasKey(row, name, key)
  {
    hide HasKey, GroupKey;
    if rows != [] {
      var n := |rows| - 1;
      KeyIsThere(rows[..n], name, key);
      KeyIsText(rows[n], name, key);
      assert rows == rows[..n] + [rows[n]];
    }
  }

  lemma GroupColumn(schema: seq<Field>, groupBy: string)
    requires SelectedFields(schema, [groupBy]).Ok?
    ensures groupBy != "*" ==>
              var fields := SelectedFields(schema, [groupBy]).value;
              |fields| == 1 && IsLastNamed(schema, groupBy, fields[0])
  {
    hide IsLastNamed, FieldNamed;
    ColumnsAreSelected(schema, [groupBy]);
    assert [groupBy][1..] == [];
    if groupBy != "*" { NamedIsLast(schema, groupBy); }
  }

  lemma KeysAreInOrder(d: Decoder, keys: seq<Bytes>, desc: bool)
    requires StableSort.PreorderOn(KeyOrder(d, desc), keys)
    ensures var sorted := StableSort.Sort(KeyOrder(d, desc), keys);
            forall i, j :: 0 <= i < j < |sorted| ==>
              !(if desc then Below(d, sorted[i], sorted[j]) else Below(d, sorted[j], sorted[i]))
  {
    hide Below, CompareRaw;
    var sorted := StableSort.Sort(KeyOrder(d, desc), keys);
    StableSort.SortIsSorted(KeyOrder(d, desc), keys);
    forall i, j | 0 <= i < j < |sorted|
      ensures !(if desc then Below(d, sorted[i], sorted[j]) else Below(d, sorted[j], sorted[i]))
    {
      ValuesCompare(d, sorted[i], sorted[j]);
      assert KeyOrder(d, desc)(sorted[i], sorted[j]);
    }
  }

  lemma SameLength<T>(a: seq<T>, b: seq<T>)
    requires multiset(a) == multiset(b)
    ensures |a| == |b|
  {
    assert |multiset(a)| == |a| && |multiset(b)| == |b|;
  }

  // --- ORDER BY, on any column that can be ordered ---

  /** Where the comparison is a total preorder, no row of the result is below one before it, or above it where the
      order is descending; and rows between which there is no difference keep their order. */
  lemma OrderedShows(d: Decoder, rows: seq<Row>, name: string, desc: bool)
    requires StableSort.PreorderOn(RowOrder(d, name, desc), rows)
    ensures var sorted := StableSort.Sort(RowOrder(d, name, desc), rows);
            && multiset(sorted) == multiset(rows)
            && (forall i, j :: 0 <= i < j < |sorted| ==>
                  !(if desc then Below(d, RawField(sorted[i], name), RawField(sorted[j], name))
                    else Below(d, RawField(sorted[j], name), RawField(sorted[i], name))))
            && (forall p :: p in rows ==>
                  var le := RowOrder(d, name, desc);
                  StableSort.Ties(le, p, sorted) == StableSort.Ties(le, p, rows))
  {
    hide Below, CompareRaw, RawField;
    var le := RowOrder(d, name, desc);
    var sorted := StableSort.Sort(le, rows);
    StableSort.SortIsTheStableSort(le, rows, sorted);
    forall i, j | 0 <= i < j < |sorted|
      ensures !(if desc then Below(d, RawField(sorted[i], name), RawField(sorted[j], name))
                else Below(d, RawField(sorted[j], name), RawField(sorted[i], name)))
    {
      ValuesCompare(d, RawField(sorted[i], name), RawField(sorted[j], name));
      assert le(sorted[i], sorted[j]);
    }
  }

  /** Every cell is a string that is no numeral. */
  predicate IsTextColumn(d: Decoder, rows: seq<Row>, name: string) {
    forall row :: row in rows ==> d.asString(RawField(row, name)).Some? && RawFloat(d, RawField(row, name)).None?
  }

  lemma {:induction false} BytesAreTransitive(a: Bytes, b: Bytes, c: Bytes)
    requires CompareBytes(a, b) != Greater && CompareBytes(b, c) != Greater
    ensures CompareBytes(a, c) != Greater
  {
    if a != [] && b != [] && c != [] && a[0] == b[0] == c[0] { BytesAreTransitive(a[1..], b[1..], c[1..]); }
  }

  lemma {:induction false} BytesMirror(a: Bytes, b: Bytes)
    ensures CompareBytes(a, b) == Less <==> CompareBytes(b, a) == Greater
  {
    if a != [] && b != [] { BytesMirror(a[1..], b[1..]); }
  }

  lemma TextCompares(d: Decoder, rows: seq<Row>, name: string, a: Row, b: Row)
    requires Lawful(d) && IsTextColumn(d, rows, name) && a in rows && b in rows
    ensures CompareRaw(d, RawField(a, name), RawField(b, name))
            == CompareBytes(d.asString(RawField(a, name)).value, d.asString(RawField(b, name)).value)
  {
    hide RawFloat, RawField, IsJsonNull, WellFormed, CompareBytes;
  }

  /** On such a column the comparison is a total preorder. */
  lemma TextColumnsCanBeOrdered(d: Decoder, rows: seq<Row>, name: string, desc: bool)
    requires Lawful(d) && IsTextColumn(d, rows, name)
    ensures StableSort.PreorderOn(RowOrder(d, name, desc), rows)
  {
    hide CompareRaw, RawField, CompareBytes;
    var le := RowOrder(d, name, desc);
    forall a, b | a in rows && b in rows
      ensures le(a, b) || le(b, a)
    {
      TextCompares(d, rows, name, a, b);
      TextCompares(d, rows, name, b, a);
      BytesMirror(d.asString(RawField(a, name)).value, d.asString(RawField(b, name)).value);
      BytesMirror(d.asString(RawField(b, name)).value, d.asString(RawField(a, name)).value);
    }
    forall a, b, c | a in rows && b in rows && c in rows && le(a, b) && le(b, c)
      ensures le(a, c)
    {
      TextOrderIsTransitive(d, rows, name, desc, a, b, c);
    }
  }

  lemma TextOrderIsTransitive(d: Decoder, rows: seq<Row>, name: string, desc: bool, a: Row, b: Row, c: Row)
    requires Lawful(d) && IsTextColumn(d, rows, name) && a in rows && b in rows && c in rows
    requires RowOrder(d, name, desc)(a, b) && RowOrder(d, name, desc)(b, c)
    ensures RowOrder(d, name, desc)(a, c)
  {
    hide CompareRaw, RawField, CompareBytes;
    var (x, y, z) := (d.asString(RawField(a, name)), d.asString(RawField(b, name)), d.asString(RawField(c, name)));
    TextCompares(d, rows, name, a, b);
    TextCompares(d, rows, name, b, c);
    TextCompares(d, rows, name, a, c);
    BytesMirror(x.value, y.value);
    BytesMirror(y.value, z.value);
    BytesMirror(x.value, z.value);
    BytesMirror(y.value, x.value);
    BytesMirror(z.value, y.value);
    BytesMirror(z.value, x.value);
    if desc { BytesAreTransitive(z.value, y.value, x.value); } else { BytesAreTransitive(x.value, y.value, z.value); }
  }
}
