/** Dry runs agree with runs, the depth bound only cuts off, and a view means the table made from it. */
module QueryEngineProofs {
  import opened Common
  import opened JsonDecoding
  import opened JsonText
  import opened QueryEngine
  import opened RowStore
  import opened SqlAst
  import opened SqlEval
  import opened TableSchemas
  import SqlParser
  import SqlPrinter
  import SqlRoundTrip
  import RustStr
  import WireJson
  import Words

  // --- dry runs ---

  predicate OnlyInValues(e: QueryError) {
    e == NonInteger || e == NonNumeric || e == OrderByNotGrouped || e.NoSelectedField?
  }

  lemma AggregateAgrees(d: Decoder, rows: seq<Row>, schema: seq<Field>, a: Aggregate)
    ensures var (r, t) := (AggregateResult(d, rows, schema, a), AggregateFields(schema, a));
            && (r.Ok? ==> t == Ok(r.value.fields))
            && (t.Err? ==> r == Err(t.error))
            && (t.Ok? && r.Err? ==> OnlyInValues(r.error))
  {
    hide IsNumericField, NumericType, ForResponse, Extreme, CountPresent, FirstFieldNamed;
    TotalsFailOnValues(d, rows, a.field);
  }

  lemma {:induction false} TotalsFailOnValues(d: Decoder, rows: seq<Row>, name: string)
    ensures IntegerTotal(d, rows, name).Err? ==> IntegerTotal(d, rows, name).error == NonInteger
    ensures FloatTotal(d, rows, name).Err? ==> FloatTotal(d, rows, name).error == NonNumeric
  {
    hide Present, RawInt, RawFloat;
    if rows != [] { TotalsFailOnValues(d, rows[..|rows| - 1], name); }
  }

  lemma {:induction false} GroupErrors(d: Decoder, rows: seq<Row>, schema: seq<Field>, groupBy: string, a: Aggregate,
      field: Field, keys: seq<Bytes>)
    requires AggregateFields(schema, a).Ok?
    ensures var r := GroupRows(d, rows, schema, groupBy, a, field, keys); r.Err? ==> OnlyInValues(r.error)
  {
    hide AggregateResult, AggregateFields, GroupOf, KeyCell;
    if keys != [] {
      GroupErrors(d, rows, schema, groupBy, a, field, keys[..|keys| - 1]);
      AggregateAgrees(d, GroupOf(rows, groupBy, keys[|keys| - 1]), schema, a);
    }
  }

  lemma GroupedAgrees(d: Decoder, rows: seq<Row>, schema: seq<Field>, q: Query, a: Aggregate)
    ensures var (r, t) := (GroupedResult(d, rows, schema, q, a), GroupedFields(schema, q.groupBy, a));
            && (r.Ok? ==> t == Ok(r.value.fields))
            && (t.Ok? && r.Err? ==> OnlyInValues(r.error))
  {
    hide GroupRows, SelectedFields, AggregateFields, OrderedKeys, Window;
    if GroupedFields(schema, q.groupBy, a).Ok? {
      GroupErrors(d, rows, schema, q.groupBy, a, GroupedFields(schema, q.groupBy, a).value[0],
                  Window(OrderedKeys(d, rows, q), q.limit, q.offset));
    }
  }

  /** Evaluating gives the fields that typing gives, and fails beyond it only over values, over an ORDER BY
      of a grouped query, or over a selected field. */
  lemma EvaluateAgrees(d: Decoder, schema: seq<Field>, rows: seq<Row>, q: Query)
    ensures var (r, t) := (Evaluate(d, schema, rows, q), TypeOf(schema, q));
            && (r.Ok? ==> t == Ok(QueryResult(r.value.fields, [])))
            && (t.Ok? && r.Err? ==> OnlyInValues(r.error))
  {
    hide GroupedResult, GroupedFields, AggregateResult, AggregateFields, Filtered, FormatRows, Window, Ordered;
    SelectedErrors(schema, q.selected);
    if q.aggregate.Some? {
      GroupedAgrees(d, Filtered(d, rows, q), schema, q, q.aggregate.value);
      AggregateAgrees(d, Filtered(d, rows, q), schema, q.aggregate.value);
    }
  }

  lemma SelectedErrors(schema: seq<Field>, selected: seq<string>)
    ensures SelectedFields(schema, selected).Err? ==> SelectedFields(schema, selected).error.NoSelectedField?
  {
    NamedErrors(schema, selected);
  }

  lemma {:induction false} NamedErrors(schema: seq<Field>, names: seq<string>)
    ensures NamedFields(schema, names).Err? ==> NamedFields(schema, names).error.NoSelectedField?
  {
    if names != [] { NamedErrors(schema, names[1..]); }
  }

  /** In every catalog, with whatever chains or cycles of views, at every depth: a run that succeeds has a
      dry run that succeeds with the same fields and no rows; and a run can fail where the dry run does not
      only over values, over an ORDER BY of a grouped query, or over a selected field. */
  lemma {:induction false} DryRunAgrees(d: Decoder, cat: Catalog, project: string, text: string, depth: nat)
    ensures var (run, dry) := (Execute(d, cat, project, text, depth), DryRun(d, cat, project, text, depth));
            && (run.Ok? ==> dry == Ok(QueryResult(run.value.fields, [])))
            && (dry.Ok? && run.Err? ==> OnlyInValues(run.error))
    decreases Levels(depth)
  {
    hide SqlParser.ParseSelect, Evaluate, TypeOf, QuerySource, OnlyInValues;
    var parsed := SqlParser.ParseSelect(d, text, project);
    if parsed.Ok? {
      var q := parsed.value;
      var (live, dry) := (QuerySource(d, cat, q, false, depth), QuerySource(d, cat, q, true, depth));
      SourcesAgree(d, cat, q, depth);
      if live.Ok? { EvaluateAgrees(d, live.value.schema, live.value.rows, q); }
    }
  }

  lemma {:induction false} SourcesAgree(d: Decoder, cat: Catalog, q: Query, depth: nat)
    ensures var (live, dry) := (QuerySource(d, cat, q, false, depth), QuerySource(d, cat, q, true, depth));
            && (live.Ok? ==> dry == Ok(Source(live.value.schema, [])))
            && (dry.Ok? && live.Err? ==> OnlyInValues(live.error))
    decreases Levels(depth), 0
  {
    hide Execute, DryRun, OnlyInValues, StoredRows;
    if q.source in cat.tables && ViewQuery(cat.tables[q.source], depth).Ok? {
      DryRunAgrees(d, cat, q.source.project, ViewQuery(cat.tables[q.source], depth).value, depth + 1);
    }
  }

  // --- depth ---

  /** The depth bound only cuts off: a run that is not cut off gives the same one level further out. */
  lemma {:induction false} DepthOnlyCutsOff(d: Decoder, cat: Catalog, project: string, text: string, depth: nat)
    requires Execute(d, cat, project, text, depth + 1) != Err(ViewTooDeep)
    ensures Execute(d, cat, project, text, depth) == Execute(d, cat, project, text, depth + 1)
    decreases Levels(depth)
  {
    hide SqlParser.ParseSelect, Evaluate, QuerySource;
    var parsed := SqlParser.ParseSelect(d, text, project);
    if parsed.Ok? {
      SourceDepth(d, cat, parsed.value, depth);
    }
  }

  lemma {:induction false} SourceDepth(d: Decoder, cat: Catalog, q: Query, depth: nat)
    requires QuerySource(d, cat, q, false, depth + 1) != Err(ViewTooDeep)
    ensures QuerySource(d, cat, q, false, depth) == QuerySource(d, cat, q, false, depth + 1)
    decreases Levels(depth), 0
  {
    hide Execute, DryRun, StoredRows;
    if q.source in cat.tables && IsView(cat.tables[q.source]) && ViewQuery(cat.tables[q.source], depth + 1).Ok? {
      DepthOnlyCutsOff(d, cat, q.source.project, ViewQuery(cat.tables[q.source], depth).value, depth + 1);
    }
  }

  // --- what results are made of ---

  predicate AllWellFormed(rows: seq<seq<Value>>) {
    forall i, j :: 0 <= i < |rows| && 0 <= j < |rows[i]| ==> WellFormed(rows[i][j])
  }

  lemma CellsAreWellFormed(d: Decoder, raw: Bytes, field: Field)
    requires Lawful(d)
    ensures WellFormed(ForResponse(d, raw)) && WellFormed(ForField(d, raw, field))
  {
    hide RawInt, NumeralOf, KindOf, IsIntegerField, IsJsonNull;
  }

  lemma AggregateIsWellFormed(d: Decoder, rows: seq<Row>, schema: seq<Field>, a: Aggregate)
    requires Lawful(d)
    ensures var r := AggregateResult(d, rows, schema, a); r.Ok? ==> AllWellFormed(r.value.rows)
  {
    hide IntegerTotal, FloatTotal, CountPresent, Lawful, NumericType, FirstFieldNamed, ForResponse;
    var best := Extreme(d, rows, a.field, a.function_);
    if best.Some? { CellsAreWellFormed(d, best.value, Nullable("", "")); }
    hide Extreme;
  }

  lemma {:induction false} GroupsAreWellFormed(d: Decoder, rows: seq<Row>, schema: seq<Field>, groupBy: string,
      a: Aggregate, field: Field, keys: seq<Bytes>)
    requires Lawful(d)
    ensures var r := GroupRows(d, rows, schema, groupBy, a, field, keys); r.Ok? ==> AllWellFormed(r.value)
  {
    hide AggregateResult, GroupOf, Lawful, WellFormed, ForField;
    if keys != [] {
      var n := |keys| - 1;
      GroupsAreWellFormed(d, rows, schema, groupBy, a, field, keys[..n]);
      AggregateIsWellFormed(d, GroupOf(rows, groupBy, keys[n]), schema, a);
      CellsAreWellFormed(d, keys[n], field);
      NullIsWellFormed();
    }
  }

  lemma NullIsWellFormed()
    ensures WellFormed(Null)
  {
  }

  lemma FormattedIsWellFormed(d: Decoder, rows: seq<Row>, fields: seq<Field>)
    requires Lawful(d)
    ensures AllWellFormed(FormatRows(d, rows, fields))
  {
    hide Lawful, ForField, WellFormed, Present;
    NullIsWellFormed();
    forall i, j | 0 <= i < |rows| && 0 <= j < |fields|
      ensures WellFormed(FormatRow(d, rows[i], fields)[j])
    {
      var cell := Present(rows[i], fields[j].name);
      if cell.Some? { CellsAreWellFormed(d, cell.value, fields[j]); }
    }
  }

  lemma EvaluateIsWellFormed(d: Decoder, schema: seq<Field>, rows: seq<Row>, q: Query)
    requires Lawful(d)
    ensures var r := Evaluate(d, schema, rows, q); r.Ok? ==> AllWellFormed(r.value.rows)
  {
    hide Lawful, AllWellFormed, AggregateResult, GroupRows, GroupedFields, SelectedFields, FormatRows, Window,
      Ordered, OrderedKeys, Filtered;
    var kept := Filtered(d, rows, q);
    if q.aggregate.Some? {
      var a := q.aggregate.value;
      AggregateIsWellFormed(d, kept, schema, a);
      if GroupedFields(schema, q.groupBy, a).Ok? {
        GroupsAreWellFormed(d, kept, schema, q.groupBy, a, GroupedFields(schema, q.groupBy, a).value[0],
                            Window(OrderedKeys(d, kept, q), q.limit, q.offset));
      }
    } else if SelectedFields(schema, q.selected).Ok? {
      FormattedIsWellFormed(d, Window(Ordered(d, kept, q), q.limit, q.offset),
          SelectedFields(schema, q.selected).value);
    }
  }

  lemma ExecuteIsWellFormed(d: Decoder, cat: Catalog, project: string, text: string, depth: nat)
    requires Lawful(d)
    ensures var r := Execute(d, cat, project, text, depth); r.Ok? ==> AllWellFormed(r.value.rows)
  {
    hide Lawful, AllWellFormed, SqlParser.ParseSelect, Evaluate, QuerySource;
    var parsed := SqlParser.ParseSelect(d, text, project);
    if parsed.Ok? {
      var source := QuerySource(d, cat, parsed.value, false, depth);
      if source.Ok? { EvaluateIsWellFormed(d, source.value.schema, source.value.rows, parsed.value); }
    }
  }

  // --- stored result rows ---

  /** Every cell is in the form that storage gives to cells. */
  predicate AllStored(cells: seq<Cell>) {
    forall i :: 0 <= i < |cells| ==> WireJson.Stored(cells[i].raw) == cells[i].raw
  }

  lemma {:induction false} PutKeepsStored(cells: seq<Cell>, c: Cell)
    requires AllStored(cells) && WireJson.Stored(c.raw) == c.raw
    ensures AllStored(PutCell(cells, c))
  {
    hide WireJson.Stored;
    if cells != [] { PutKeepsStored(cells[1..], c); }
  }

  lemma {:induction false} CellsAreStored(fields: seq<Field>, values: seq<Value>, n: nat)
    requires n <= |fields| && forall j :: 0 <= j < |values| ==> WellFormed(values[j])
    ensures AllStored(CellsOf(fields, values, n))
  {
    hide WellFormed, Marshal, WireJson.Stored;
    if n > 0 {
      CellsAreStored(fields, values, n - 1);
      NullIsWellFormed();
      MarshalledIsStored(ValueAt(values, n - 1));
      PutKeepsStored(CellsOf(fields, values, n - 1), Cell(fields[n - 1].name, Marshal(ValueAt(values, n - 1))));
    }
  }

  /** Writing result rows to a table changes nothing in them. */
  lemma ResultRowsAreStored(r: QueryResult)
    requires AllWellFormed(r.rows)
    ensures AllOnDisk(StoredRows(r)) == StoredRows(r)
  {
    hide WellFormed, WireJson.Stored, CellsOf;
    var s := StoredRows(r);
    forall i | 0 <= i < |s|
      ensures OnDisk(s[i]) == s[i]
    {
      CellsAreStored(r.fields, r.rows[i], |r.fields|);
      assert MapCells(s[i].cells, WireJson.Stored) == s[i].cells;
    }
  }

  // --- a view and its table ---

  /** The table does not exist, and neither does a row buffer of that name. */
  predicate Fresh(cat: Catalog, t: TableRef) {
    t !in cat.tables && t !in cat.rows
  }

  /** A destination that is not there yet, and may be created. */
  predicate CanBeMade(cat: Catalog, datasets: set<(string, string)>, config: Config) {
    var t := config.destination;
    && Fresh(cat, t) && IsTableReference(t) && (t.project, t.dataset) in datasets
    && config.create in {"", "CREATE_IF_NEEDED"}
    && config.write in {"", "WRITE_EMPTY", "WRITE_TRUNCATE", "WRITE_APPEND"}
  }

  lemma FreshTableIsWritten(cat: Catalog, datasets: set<(string, string)>, project: string, config: Config,
      r: QueryResult)
    requires CanBeMade(cat, datasets, config)
    ensures Refusal(cat, datasets, project, config, r).None?
    ensures var (t, after) := (config.destination, Written(cat, project, config, r));
            && t in after.tables && !IsView(after.tables[t]) && after.tables[t].schema == r.fields
            && RowsOf(after, t) == AllOnDisk(StoredRows(r))
            && after.tables - {t} == cat.tables && after.rows - {t} == cat.rows
  {
    hide StoredRows, AllOnDisk, TotalBytes, IsTableReference, Normalized, RowsOf, IsView, DestinationTable;
    DestinationIsNormal(config.destination, project);
    FreshHasNoRows(cat, config.destination);
    NewTableIsPlain(WriteMode(config), r.fields);
    RowsAfterWrite(cat, project, config, r);
  }

  lemma FreshHasNoRows(cat: Catalog, t: TableRef)
    requires Fresh(cat, t)
    ensures RowsOf(cat, t) == [] && t !in cat.tables && t !in cat.rows
  {
  }

  lemma NewTableIsPlain(write: string, fields: seq<Field>)
    ensures var t := DestinationTable(None, write, fields);
            t.schema == fields && forall n, b :: !IsView(t.(numRows := n, numBytes := b))
  {
    TableIsNoView();
  }

  lemma RowsAfterWrite(cat: Catalog, project: string, config: Config, r: QueryResult)
    requires Normalized(config.destination, project) == config.destination && Fresh(cat, config.destination)
    ensures RowsOf(Written(cat, project, config, r), config.destination) == AllOnDisk(StoredRows(r))
  {
    hide StoredRows, AllOnDisk, TotalBytes, Normalized, DestinationTable, WriteMode;
    var added := AllOnDisk(StoredRows(r));
    assert [] + added == added;
    assert |StoredRows(r)| == |r.rows| && |added| == |r.rows|;
  }

  lemma DestinationIsNormal(t: TableRef, project: string)
    requires IsTableReference(t)
    ensures Normalized(t, project) == t
  {
    assert t.project != "";
  }

  lemma TableIsNoView()
    ensures !RustStr.EqIgnoreAsciiCase("TABLE", "VIEW")
  {
  }

  /** A view that can be run: it has a query, and not a legacy one. */
  predicate IsSoundView(cat: Catalog, v: TableRef) {
    v in cat.tables && IsView(cat.tables[v]) && ViewQuery(cat.tables[v], 0).Ok?
  }

  /** The catalog after the view's query has been run as a job of the view's project with a destination. */
  function Materialised(d: Decoder, cat: Catalog, v: TableRef, config: Config): Catalog
    requires IsSoundView(cat, v) && Execute(d, cat, v.project, cat.tables[v].view.value.query, 0).Ok?
  {
    Written(cat, v.project, config, Execute(d, cat, v.project, cat.tables[v].view.value.query, 0).value)
  }

  lemma SourceOfView(d: Decoder, cat: Catalog, q: Query)
    requires IsSoundView(cat, q.source)
    requires Execute(d, cat, q.source.project, cat.tables[q.source].view.value.query, 1) != Err(ViewTooDeep)
    ensures var r := Execute(d, cat, q.source.project, cat.tables[q.source].view.value.query, 0);
            QuerySource(d, cat, q, false, 0)
            == if r.Err? then Err(r.error) else Ok(Source(r.value.fields, StoredRows(r.value)))
  {
    hide Execute, StoredRows;
    DepthOnlyCutsOff(d, cat, q.source.project, cat.tables[q.source].view.value.query, 0);
  }

  lemma SourceOfTable(d: Decoder, cat: Catalog, q: Query)
    requires q.source in cat.tables && !IsView(cat.tables[q.source])
    ensures QuerySource(d, cat, q, false, 0) == Ok(Source(cat.tables[q.source].schema, RowsOf(cat, q.source)))
  {
  }

  lemma {:induction false} FilterIgnoresSource(d: Decoder, rows: seq<Row>, q: Query, t: TableRef)
    ensures Filtered(d, rows, q.(source := t)) == Filtered(d, rows, q)
  {
    hide MatchesAll;
    if rows != [] { FilterIgnoresSource(d, rows[..|rows| - 1], q, t); }
  }

  lemma EvaluateIgnoresSource(d: Decoder, schema: seq<Field>, rows: seq<Row>, q: Query, t: TableRef)
    ensures Evaluate(d, schema, rows, q.(source := t)) == Evaluate(d, schema, rows, q)
  {
    hide Filtered, AggregateResult, GroupedFields, GroupRows, SelectedFields, FormatRows, Window, Keys, KeyOrder,
      RowOrder;
    FilterIgnoresSource(d, rows, q, t);
  }

  /** Any query on a view gives, rows and errors alike, what the same query gives on a fresh table that was
      filled by running the view's query in its project with that table as destination, unless running the
      view is cut off by the depth bound.  If the view's query fails, so does every query on the view,
      with the same error. */
  lemma ViewMeansItsTable(d: Decoder, cat: Catalog, datasets: set<(string, string)>, config: Config,
                          onView: string, onTable: string, project: string, q: Query)
    requires Lawful(d) && CanBeMade(cat, datasets, config) && IsSoundView(cat, q.source)
    requires SqlParser.ParseSelect(d, onView, project) == Ok(q)
    requires SqlParser.ParseSelect(d, onTable, project) == Ok(q.(source := config.destination))
    requires Execute(d, cat, q.source.project, cat.tables[q.source].view.value.query, 1) != Err(ViewTooDeep)
    ensures var r := Execute(d, cat, q.source.project, cat.tables[q.source].view.value.query, 0);
            if r.Err? then Execute(d, cat, project, onView, 0) == Err(r.error)
            else
              && Refusal(cat, datasets, q.source.project, config, r.value).None?
              && Execute(d, Materialised(d, cat, q.source, config), project, onTable, 0)
                 == Execute(d, cat, project, onView, 0)
  {
    var v := q.source;
    var text := cat.tables[v].view.value.query;
    var r := Execute(d, cat, v.project, text, 0);
    SourceOfView(d, cat, q);
    ExecuteIsWellFormed(d, cat, v.project, text, 0);
    ExecuteUnfolds(d, cat, project, onView);
    hide Execute, SqlParser.ParseSelect, Evaluate, QuerySource, Written, StoredRows, AllOnDisk, Refusal, CanBeMade,
      Lawful, AllWellFormed;
    if r.Ok? {
      var after := Written(cat, v.project, config, r.value);
      FreshTableIsWritten(cat, datasets, v.project, config, r.value);
      ResultRowsAreStored(r.value);
      SourceOfTable(d, after, q.(source := config.destination));
      EvaluateIgnoresSource(d, r.value.fields, StoredRows(r.value), q, config.destination);
      ExecuteUnfolds(d, after, project, onTable);
    }
  }

  lemma ExecuteUnfolds(d: Decoder, cat: Catalog, project: string, text: string)
    ensures var parsed := SqlParser.ParseSelect(d, text, project);
            parsed.Ok? ==>
              var source := QuerySource(d, cat, parsed.value, false, 0);
              Execute(d, cat, project, text, 0)
              == if source.Err? then Err(source.error)
                 else Evaluate(d, source.value.schema, source.value.rows, parsed.value)
  {
    hide SqlParser.ParseSelect, Evaluate, QuerySource;
  }

  /** The same for every clean query, written out over the view and over the table with a semicolon after it;
      and without one, where neither text ends in one of its own. */
  lemma PrintedQueriesAgree(d: Decoder, cat: Catalog, datasets: set<(string, string)>, config: Config,
      project: string, q: Query)
    requires Lawful(d) && CanBeMade(cat, datasets, config) && IsSoundView(cat, q.source) && SqlPrinter.Clean(d, q)
    requires Execute(d, cat, q.source.project, cat.tables[q.source].view.value.query, 0).Ok?
    requires Execute(d, cat, q.source.project, cat.tables[q.source].view.value.query, 1) != Err(ViewTooDeep)
    ensures var (onView, onTable) := (SqlPrinter.Print(q), SqlPrinter.Print(q.(source := config.destination)));
            var after := Materialised(d, cat, q.source, config);
            && Execute(d, after, project, onTable + ";", 0) == Execute(d, cat, project, onView + ";", 0)
            && (!SqlRoundTrip.EndsInSemicolon(onView) && !SqlRoundTrip.EndsInSemicolon(onTable) ==>
                  Execute(d, after, project, onTable, 0) == Execute(d, cat, project, onView, 0))
  {
    DestinationIsClean(d, cat, datasets, config, q);
    hide *;
    var p := q.(source := config.destination);
    var (onView, onTable) := (SqlPrinter.Print(q), SqlPrinter.Print(p));
    SqlRoundTrip.PrintThenParse(d, q, project);
    SqlRoundTrip.PrintThenParse(d, p, project);
    var meant := SqlPrinter.Meant(d, q);
    MeantHasItsSource(d, q, config.destination);
    ViewMeansItsTable(d, cat, datasets, config, onView + ";", onTable + ";", project, meant);
    if !SqlRoundTrip.EndsInSemicolon(onView) && !SqlRoundTrip.EndsInSemicolon(onTable) {
      ViewMeansItsTable(d, cat, datasets, config, onView, onTable, project, meant);
    }
  }

  lemma MeantHasItsSource(d: Decoder, q: Query, t: TableRef)
    ensures SqlPrinter.Meant(d, q).source == q.source
    ensures SqlPrinter.Meant(d, q.(source := t)) == SqlPrinter.Meant(d, q).(source := t)
  {
  }

  lemma DestinationIsClean(d: Decoder, cat: Catalog, datasets: set<(string, string)>, config: Config, q: Query)
    requires SqlPrinter.Clean(d, q) && CanBeMade(cat, datasets, config)
    ensures SqlPrinter.Clean(d, q.(source := config.destination))
  {
    hide SqlPrinter.CleanGroup, SqlPrinter.IsName, SqlPrinter.CleanAggregate;
  }

  // --- other queries ---

  /** A fresh table leaves every run that succeeded as it was. */
  lemma {:induction false} FreshTableLeavesRunsAlone(d: Decoder, cat: Catalog, after: Catalog, t: TableRef,
      project: string, text: string, depth: nat)
    requires Fresh(cat, t) && after.tables - {t} == cat.tables && after.rows - {t} == cat.rows
    requires Execute(d, cat, project, text, depth).Ok?
    ensures Execute(d, after, project, text, depth) == Execute(d, cat, project, text, depth)
    decreases Levels(depth)
  {
    hide SqlParser.ParseSelect, Evaluate, QuerySource;
    var q := SqlParser.ParseSelect(d, text, project).value;
    SourceIsLeftAlone(d, cat, after, t, q, depth);
  }

  lemma {:induction false} SourceIsLeftAlone(d: Decoder, cat: Catalog, after: Catalog, t: TableRef, q: Query,
      depth: nat)
    requires Fresh(cat, t) && after.tables - {t} == cat.tables && after.rows - {t} == cat.rows
    requires QuerySource(d, cat, q, false, depth).Ok?
    ensures QuerySource(d, after, q, false, depth) == QuerySource(d, cat, q, false, depth)
    decreases Levels(depth), 0
  {
    hide Execute, DryRun, StoredRows;
    var s := q.source;
    assert s in cat.tables && s != t;
    SameEntry(cat.tables, after.tables, t, s);
    SameBuffer(cat, after, t, s);
    if IsView(cat.tables[s]) {
      FreshTableLeavesRunsAlone(d, cat, after, t, s.project, ViewQuery(cat.tables[s], depth).value, depth + 1);
    }
  }

  lemma SameEntry(before: map<TableRef, Table>, after: map<TableRef, Table>, t: TableRef, s: TableRef)
    requires after - {t} == before && s in before && s != t
    ensures s in after && after[s] == before[s]
  {
    assert s in after - {t} && (after - {t})[s] == after[s];
  }

  lemma SameBuffer(cat: Catalog, after: Catalog, t: TableRef, s: TableRef)
    requires after.rows - {t} == cat.rows && s != t
    ensures RowsOf(after, s) == RowsOf(cat, s)
  {
    assert s in after.rows <==> s in after.rows - {t};
    if s in cat.rows { assert (after.rows - {t})[s] == after.rows[s]; }
  }

  // --- jobs ---

  /** A job that was done under a given id is refused when it is sent again, and changes nothing then. */
  lemma RetryIsRefused(d: Decoder, s: JobState, project: string, jobId: string, fresh1: string, fresh2: string,
      config: Config)
    requires RustStr.Trim(jobId) != ""
    requires JobEffect(d, s, project, jobId, fresh1, config, false, false).1.Ok?
    ensures var after := JobEffect(d, s, project, jobId, fresh1, config, false, false).0;
            JobEffect(d, after, project, jobId, fresh2, config, false, false) == (after, Err(JobExists))
  {
    hide Execute, Written, Refusal, IsResourceId;
  }

  /** A job that fails, and a dry run, change no table and no row. */
  lemma FailedJobChangesNothing(d: Decoder, s: JobState, project: string, jobId: string, freshId: string,
      config: Config, dryRun: bool, legacy: bool)
    ensures var (after, r) := JobEffect(d, s, project, jobId, freshId, config, dryRun, legacy);
            && (r.Err? ==> after == s)
            && (dryRun ==> after.catalog == s.catalog)
  {
    hide Execute, DryRun, Written, Refusal, IsResourceId;
  }

  // --- what a query reads ---

  /** The rows of a view's result, as rows without an id and a time: one cell for each field name. */
  ghost predicate AreRowsOf(r: QueryResult, rows: seq<Row>) {
    && |rows| == |r.rows|
    && forall i :: 0 <= i < |rows| ==> rows[i].insertId == "" && rows[i].insertedAt == ""
                                       && AreCellsOf(r.fields, r.rows[i], |r.fields|, rows[i].cells)
  }

  function Run(d: Decoder, cat: Catalog, project: string, text: string, dryRun: bool, depth: nat)
      : Result<QueryResult, QueryError> {
    if dryRun then DryRun(d, cat, project, text, depth) else Execute(d, cat, project, text, depth)
  }

  /** The query on this schema and, in a run that is not dry, these rows. */
  function On(d: Decoder, schema: seq<Field>, rows: seq<Row>, q: Query, dryRun: bool): Result<QueryResult, QueryError> {
    if dryRun then TypeOf(schema, q) else Evaluate(d, schema, rows, q)
  }

  /** A query reads the table it names, or the result of the view's own query, which runs in the view's project,
      one level deeper, of at most eight; a view without a query or in legacy SQL cannot be read. */
  ghost predicate ReadsItsSource(d: Decoder, cat: Catalog, q: Query, dryRun: bool, depth: nat,
      run: Result<QueryResult, QueryError>) {
    if q.source !in cat.tables then run == Err(TableNotFound(q.source))
    else
      var table := cat.tables[q.source];
      if !RustStr.Spells(table.kind, "VIEW") then
        run == On(d, table.schema, if q.source in cat.rows then cat.rows[q.source] else [], q, dryRun)
      else if table.view == None || Words.IsBlank(table.view.value.query) then run == Err(ViewWithoutQuery)
      else if table.view.value.useLegacySql then run == Err(LegacyView)
      else if depth >= 8 then run == Err(ViewTooDeep)
      else
        var inner := Run(d, cat, q.source.project, table.view.value.query, dryRun, depth + 1);
        if inner.Err? then run == Err(inner.error)
        else exists rows :: AreRowsOf(inner.value, rows) && run == On(d, inner.value.fields, rows, q, dryRun)
  }

  lemma StoredAreRowsOf(r: QueryResult)
    ensures AreRowsOf(r, StoredRows(r))
  {
    hide CellsOf, AreCellsOf;
    forall i | 0 <= i < |r.rows|
      ensures AreCellsOf(r.fields, r.rows[i], |r.fields|, CellsOf(r.fields, r.rows[i], |r.fields|))
    {
      CellsAreCellsOf(r.fields, r.rows[i], |r.fields|);
    }
  }

  lemma ViewIsSpelled(table: Table)
    ensures IsView(table) <==> RustStr.Spells(table.kind, "VIEW")
  {
    assert RustStr.InCapitals("VIEW") && RustStr.Upper("VIEW") == "VIEW";
    RustStr.SpelledIsUpper(table.kind, "VIEW");
  }

  lemma RunUnfolds(d: Decoder, cat: Catalog, project: string, text: string, dryRun: bool, depth: nat)
    ensures var (q, run) := (SqlParser.ParseSelect(d, text, project), Run(d, cat, project, text, dryRun, depth));
            if q.Err? then run == Err(q.error)
            else
              var source := QuerySource(d, cat, q.value, dryRun, depth);
              run == if source.Err? then Err(source.error)
                     else On(d, source.value.schema, source.value.rows, q.value, dryRun)
  {
    hide SqlParser.ParseSelect, Evaluate, TypeOf, QuerySource;
  }

  lemma SourceUnfolds(d: Decoder, cat: Catalog, q: Query, dryRun: bool, depth: nat)
    requires q.source in cat.tables && IsView(cat.tables[q.source])
    ensures var (text, source) := (ViewQuery(cat.tables[q.source], depth), QuerySource(d, cat, q, dryRun, depth));
            if text.Err? then source == Err(text.error)
            else
              var inner := Run(d, cat, q.source.project, text.value, dryRun, depth + 1);
              source == if inner.Err? then Err(inner.error)
                        else Ok(Source(inner.value.fields, if dryRun then [] else StoredRows(inner.value)))
  {
    hide IsView, StoredRows, Execute, DryRun;
  }

  lemma ViewQueryIs(table: Table, depth: nat)
    ensures ViewQuery(table, depth)
            == if table.view == None || Words.IsBlank(table.view.value.query) then Err(ViewWithoutQuery)
               else if table.view.value.useLegacySql then Err(LegacyView)
               else if depth >= 8 then Err(ViewTooDeep)
               else Ok(table.view.value.query)
  {
    hide RustStr.Trim, Words.IsBlank;
    if table.view.Some? { Words.TrimAfterSpace(table.view.value.query); }
  }

  /** What a text answers, in a run and in a dry run: its parse error, or what its source gives. */
  lemma EveryQueryReadsItsSource(d: Decoder, cat: Catalog, project: string, text: string, dryRun: bool, depth: nat)
    ensures var (q, run) := (SqlParser.ParseSelect(d, text, project), Run(d, cat, project, text, dryRun, depth));
            if q.Err? then run == Err(q.error) else ReadsItsSource(d, cat, q.value, dryRun, depth, run)
  {
    hide SqlParser.ParseSelect, Evaluate, TypeOf, IsView, StoredRows, AreRowsOf, ViewQuery, Run, RustStr.Spells,
         Words.IsBlank;
    RunUnfolds(d, cat, project, text, dryRun, depth);
    var q := SqlParser.ParseSelect(d, text, project);
    if q.Ok? && q.value.source in cat.tables {
      var table := cat.tables[q.value.source];
      ViewIsSpelled(table);
      if IsView(table) {
        SourceUnfolds(d, cat, q.value, dryRun, depth);
        ViewQueryIs(table, depth);
        var text := ViewQuery(table, depth);
        if text.Ok? {
          var inner := Run(d, cat, q.value.source.project, text.value, dryRun, depth + 1);
          if inner.Ok? { StoredAreRowsOf(inner.value); }
        }
      }
    }
  }
}
