/** A dry run accepts some queries that fail when they are run: exactly which. */
module DryRunExactly {
  import opened Common
  import opened JsonDecoding
  import opened QueryEngine
  import opened RowStore
  import opened SqlAst
  import opened SqlEval
  import opened TableSchemas
  import G = SqlGroups
  import P = QueryEngineProofs
  import RustStr
  import SqlParser
  import SqlPrinter
  import SqlRoundTrip

  // --- one query on given rows ---

  predicate AllNumbers(d: Decoder, rows: seq<Row>, name: string) {
    forall i :: 0 <= i < |rows| ==> Present(rows[i], name).Some? ==> RawFloat(d, Present(rows[i], name).value).Some?
  }

  /** The cells that an aggregate adds up are what it adds: integers for the SUM of an integer column,
      numbers for the other sums and for AVG. */
  predicate CanAdd(d: Decoder, rows: seq<Row>, schema: seq<Field>, a: Aggregate) {
    a.function_ in {Sum, Avg} && AggregateField(schema, a).Some? ==>
      if a.function_ == Sum && IsIntegerField(AggregateField(schema, a).value) then G.AllIntegers(d, rows, a.field)
      else AllNumbers(d, rows, a.field)
  }

  /** What only a run looks at, apart from the values: the selected fields beside an aggregate, and the
      ORDER BY of a grouped query. */
  predicate ShapeFails(schema: seq<Field>, q: Query) {
    q.aggregate.Some?
    && (SelectedFields(schema, q.selected).Err? || (q.groupBy != "" && q.orderBy !in {"", q.groupBy}))
  }

  /** Some group of the window, or all rows without groups, cannot be added up. */
  predicate ValuesFail(d: Decoder, schema: seq<Field>, rows: seq<Row>, q: Query) {
    var kept := Filtered(d, rows, q);
    && q.aggregate.Some?
    && if q.groupBy == "" then !CanAdd(d, kept, schema, q.aggregate.value)
       else
         var keys := Window(OrderedKeys(d, kept, q), q.limit, q.offset);
         exists i :: 0 <= i < |keys| && !CanAdd(d, GroupOf(kept, q.groupBy, keys[i]), schema, q.aggregate.value)
  }

  lemma {:induction false} FloatTotalFailsExactly(d: Decoder, rows: seq<Row>, name: string)
    ensures FloatTotal(d, rows, name).Ok? <==> AllNumbers(d, rows, name)
  {
    hide Present, RawFloat;
    if rows != [] {
      var n := |rows| - 1;
      FloatTotalFailsExactly(d, rows[..n], name);
      assert forall i :: 0 <= i < n ==> rows[..n][i] == rows[i];
    }
  }

  lemma AggregateFailsExactly(d: Decoder, rows: seq<Row>, schema: seq<Field>, a: Aggregate)
    requires AggregateFields(schema, a).Ok?
    ensures AggregateResult(d, rows, schema, a).Ok? <==> CanAdd(d, rows, schema, a)
    ensures var r := AggregateResult(d, rows, schema, a); r.Err? ==> r.error == NonInteger || r.error == NonNumeric
  {
    hide G.AllIntegers, AllNumbers, IntegerTotal, FloatTotal, CountPresent, Extreme, ForResponse, NumericType;
    hide FirstFieldNamed, IsNumericField, IsIntegerField;
    G.IntegerTotalIsWrappedSum(d, rows, a);
    FloatTotalFailsExactly(d, rows, a.field);
    P.TotalsFailOnValues(d, rows, a.field);
  }

  lemma {:induction false} GroupsFailExactly(d: Decoder, rows: seq<Row>, schema: seq<Field>, groupBy: string,
                                             a: Aggregate, field: Field, keys: seq<Bytes>)
    requires AggregateFields(schema, a).Ok?
    ensures var r := GroupRows(d, rows, schema, groupBy, a, field, keys);
            && (r.Ok? <==> forall i :: 0 <= i < |keys| ==> CanAdd(d, GroupOf(rows, groupBy, keys[i]), schema, a))
            && (r.Err? ==> r.error == NonInteger || r.error == NonNumeric)
  {
    hide AggregateResult, AggregateFields, CanAdd, GroupOf, KeyCell;
    if keys != [] {
      var n := |keys| - 1;
      GroupsFailExactly(d, rows, schema, groupBy, a, field, keys[..n]);
      AggregateFailsExactly(d, GroupOf(rows, groupBy, keys[n]), schema, a);
      assert forall i :: 0 <= i < n ==> keys[..n][i] == keys[i];
    }
  }

  lemma GroupedNeedsAggregate(schema: seq<Field>, q: Query, a: Aggregate)
    requires GroupedFields(schema, q.groupBy, a).Ok?
    ensures AggregateFields(schema, a).Ok?
  {
    hide AggregateFields, SelectedFields;
  }

  lemma GroupedFailsExactly(d: Decoder, rows: seq<Row>, schema: seq<Field>, q: Query, a: Aggregate)
    requires GroupedFields(schema, q.groupBy, a).Ok?
    ensures var (r, keys) := (GroupedResult(d, rows, schema, q, a), Window(OrderedKeys(d, rows, q), q.limit, q.offset));
            if q.orderBy !in {"", q.groupBy} then r == Err(OrderByNotGrouped)
            else
              && (r.Err? <==> exists i :: 0 <= i < |keys| && !CanAdd(d, GroupOf(rows, q.groupBy, keys[i]), schema, a))
              && (r.Err? ==> r.error == NonInteger || r.error == NonNumeric)
  {
    hide GroupRows, AggregateFields, OrderedKeys, Window, CanAdd, GroupOf, GroupedFields;
    GroupedNeedsAggregate(schema, q, a);
    var keys := Window(OrderedKeys(d, rows, q), q.limit, q.offset);
    GroupsFailExactly(d, rows, schema, q.groupBy, a, GroupedFields(schema, q.groupBy, a).value[0], keys);
  }

  /** A well typed query fails on given rows exactly when its shape fails or its values cannot be added up;
      and with another error than one about values exactly when its shape fails. */
  lemma EvaluateFailsExactly(d: Decoder, schema: seq<Field>, rows: seq<Row>, q: Query)
    requires TypeOf(schema, q).Ok?
    ensures var r := Evaluate(d, schema, rows, q);
            && (r.Err? <==> ShapeFails(schema, q) || ValuesFail(d, schema, rows, q))
            && (r.Err? && r.error != NonInteger && r.error != NonNumeric <==> ShapeFails(schema, q))
  {
    hide GroupedResult, GroupedFields, AggregateResult, AggregateFields, Filtered, FormatRows, Window, Ordered;
    hide OrderedKeys, CanAdd, GroupOf, SelectedFields;
    var kept := Filtered(d, rows, q);
    P.SelectedErrors(schema, q.selected);
    if q.aggregate.Some? {
      if q.groupBy != "" {
        GroupedFailsExactly(d, kept, schema, q, q.aggregate.value);
      } else {
        AggregateFailsExactly(d, kept, schema, q.aggregate.value);
      }
    }
  }

  // --- through the catalog ---

  /** Whether a run fails though its dry run does not: at some view on the way, or at the query itself. */
  predicate RunFails(d: Decoder, cat: Catalog, project: string, text: string, depth: nat)
    decreases Levels(depth)
  {
    var parsed := SqlParser.ParseSelect(d, text, project);
    && parsed.Ok? && parsed.value.source in cat.tables
    && var (q, table) := (parsed.value, cat.tables[parsed.value.source]);
       if IsView(table) then
         var view := ViewQuery(table, depth);
         && view.Ok?
         && (|| RunFails(d, cat, q.source.project, view.value, depth + 1)
             || var r := Execute(d, cat, q.source.project, view.value, depth + 1);
                r.Ok? && (ShapeFails(r.value.fields, q) || ValuesFail(d, r.value.fields, StoredRows(r.value), q)))
       else ShapeFails(table.schema, q) || ValuesFail(d, table.schema, RowsOf(cat, q.source), q)
  }

  /** The part of it that is seen without looking at a row. */
  predicate RunFailsByShape(d: Decoder, cat: Catalog, project: string, text: string, depth: nat)
    decreases Levels(depth)
  {
    var parsed := SqlParser.ParseSelect(d, text, project);
    && parsed.Ok? && parsed.value.source in cat.tables
    && var (q, table) := (parsed.value, cat.tables[parsed.value.source]);
       if IsView(table) then
         var view := ViewQuery(table, depth);
         && view.Ok?
         && (|| RunFailsByShape(d, cat, q.source.project, view.value, depth + 1)
             || var r := DryRun(d, cat, q.source.project, view.value, depth + 1);
                r.Ok? && ShapeFails(r.value.fields, q))
       else ShapeFails(table.schema, q)
  }

  lemma DryRunNeedsItsSource(d: Decoder, cat: Catalog, project: string, text: string, depth: nat)
    requires DryRun(d, cat, project, text, depth).Ok?
    ensures SqlParser.ParseSelect(d, text, project).Ok?
    ensures var q := SqlParser.ParseSelect(d, text, project).value;
            && QuerySource(d, cat, q, true, depth).Ok?
            && TypeOf(QuerySource(d, cat, q, true, depth).value.schema, q).Ok?
            && q.source in cat.tables
            && (IsView(cat.tables[q.source]) ==>
                  && ViewQuery(cat.tables[q.source], depth).Ok?
                  && DryRun(d, cat, q.source.project, ViewQuery(cat.tables[q.source], depth).value, depth + 1).Ok?)
  {
    hide SqlParser.ParseSelect, TypeOf, ViewQuery, IsView;
  }

  /** Where a dry run succeeds, the run fails exactly when `RunFails` says so. */
  lemma {:induction false} RunFailsExactly(d: Decoder, cat: Catalog, project: string, text: string, depth: nat)
    requires DryRun(d, cat, project, text, depth).Ok?
    ensures Execute(d, cat, project, text, depth).Err? <==> RunFails(d, cat, project, text, depth)
    decreases Levels(depth)
  {
    hide SqlParser.ParseSelect, TypeOf, Evaluate, ShapeFails, ValuesFail, StoredRows, IsView, DryRun;
    DryRunNeedsItsSource(d, cat, project, text, depth);
    var q := SqlParser.ParseSelect(d, text, project).value;
    P.SourcesAgree(d, cat, q, depth);
    var source := QuerySource(d, cat, q, false, depth);
    if IsView(cat.tables[q.source]) {
      RunFailsExactly(d, cat, q.source.project, ViewQuery(cat.tables[q.source], depth).value, depth + 1);
    }
    if source.Ok? { EvaluateFailsExactly(d, source.value.schema, source.value.rows, q); }
  }

  predicate IsValueError(e: QueryError) {
    e == NonInteger || e == NonNumeric
  }

  /** Where a dry run succeeds: if some shape on the way fails, the run fails; and if the run fails with
      another error than one about values, some shape on the way fails. */
  lemma {:induction false} ShapesDecideOtherErrors(d: Decoder, cat: Catalog, project: string, text: string, depth: nat)
    requires DryRun(d, cat, project, text, depth).Ok?
    ensures var r := Execute(d, cat, project, text, depth);
            && (RunFailsByShape(d, cat, project, text, depth) ==> r.Err?)
            && (r.Err? && !IsValueError(r.error) ==> RunFailsByShape(d, cat, project, text, depth))
    decreases Levels(depth)
  {
    hide SqlParser.ParseSelect, TypeOf, Evaluate, ShapeFails, ValuesFail, StoredRows, IsView;
    DryRunNeedsItsSource(d, cat, project, text, depth);
    var q := SqlParser.ParseSelect(d, text, project).value;
    P.SourcesAgree(d, cat, q, depth);
    var source := QuerySource(d, cat, q, false, depth);
    if IsView(cat.tables[q.source]) {
      var view := ViewQuery(cat.tables[q.source], depth).value;
      ShapesDecideOtherErrors(d, cat, q.source.project, view, depth + 1);
      P.DryRunAgrees(d, cat, q.source.project, view, depth + 1);
    }
    if source.Ok? { EvaluateFailsExactly(d, source.value.schema, source.value.rows, q); }
  }

  // --- a query for each way to fail ---

  const TABLE: TableRef := TableRef("p", "d", "t")

  function OneTable(schema: seq<Field>, rows: seq<Row>): Catalog {
    Catalog(map[TABLE := Table("TABLE", schema, None, 0, 0)], map[TABLE := rows])
  }

  /** `SELECT g, COUNT(*) FROM p.d.t`, on a table without a field `g`. */
  const UNGROUPED: Query := Query(TABLE, ["g"], Some(Aggregate(Count, "*", "")), [], "", "", false, -1, 0)

  /** `SELECT g, COUNT(*) FROM p.d.t GROUP BY g ORDER BY h`. */
  const MISORDERED: Query := Query(TABLE, ["g"], Some(Aggregate(Count, "*", "")), [], "g", "h", false, -1, 0)

  /** `SELECT SUM(n) FROM p.d.t`. */
  const SUMMED: Query := Query(TABLE, [], Some(Aggregate(Sum, "n", "")), [], "", "", false, -1, 0)

  lemma WitnessesAreClean(d: Decoder)
    ensures SqlPrinter.Clean(d, UNGROUPED) && SqlPrinter.Clean(d, MISORDERED) && SqlPrinter.Clean(d, SUMMED)
  {
    hide SqlPrinter.CleanGroup;
    assert SqlPrinter.IsName("g") && SqlPrinter.IsName("h") && SqlPrinter.IsName("*") && SqlPrinter.IsName("n");
    hide SqlPrinter.IsName;
  }

  lemma OnOneTable(d: Decoder, q: Query, schema: seq<Field>, rows: seq<Row>,
      project: string)
    requires q.source == TABLE && SqlPrinter.Clean(d, q) && q.groups == []
    ensures var text := SqlPrinter.Print(q) + ";";
            && DryRun(d, OneTable(schema, rows), project, text, 0) == TypeOf(schema, q)
            && Execute(d, OneTable(schema, rows), project, text, 0) == Evaluate(d, schema, rows, q)
  {
    SqlRoundTrip.PrintThenParse(d, q, project);
    SqlRoundTrip.MeantIsItself(d, q);
    P.TableIsNoView();
    hide SqlParser.ParseSelect, TypeOf, Evaluate, SqlPrinter.Print, SqlPrinter.Clean, IsView;
    assert !IsView(OneTable(schema, rows).tables[TABLE]) by { NoView(schema, rows); }
  }

  lemma NoView(schema: seq<Field>, rows: seq<Row>)
    ensures !IsView(OneTable(schema, rows).tables[TABLE])
  {
    P.TableIsNoView();
  }

  /** The selected field beside an ungrouped aggregate is looked up only by the run. */
  lemma UngroupedFieldIsMissed(d: Decoder, project: string)
    ensures var text := SqlPrinter.Print(UNGROUPED) + ";";
            && DryRun(d, OneTable([], []), project, text, 0) == Ok(QueryResult([Nullable("f0_", "INTEGER")], []))
            && Execute(d, OneTable([], []), project, text, 0) == Err(NoSelectedField("g"))
  {
    assert FieldNamed([], "g").None?;
    assert TypeOf([], UNGROUPED) == Ok(QueryResult([Nullable("f0_", "INTEGER")], []));
    assert Evaluate(d, [], [], UNGROUPED) == Err(NoSelectedField("g")) by { hide Filtered; }
    hide *;
    WitnessesAreClean(d);
    OnOneTable(d, UNGROUPED, [], [], project);
  }

  lemma MisorderedIsTyped(g: Field)
    requires g == Nullable("g", "STRING")
    ensures SelectedFields([g], ["g"]) == Ok([g])
    ensures GroupedFields([g], "g", MISORDERED.aggregate.value) == Ok([g, Nullable("f0_", "INTEGER")])
    ensures TypeOf([g], MISORDERED) == Ok(QueryResult([g, Nullable("f0_", "INTEGER")], []))
  {
    assert FieldNamed([g], "g") == Some(g);
    assert ["g"][1..] == [] && NamedFields([g], ["g"]) == Ok([g] + []);
    assert [g] + [] == [g];
    hide FieldNamed, NamedFields;
    assert [g] + [Nullable("f0_", "INTEGER")] == [g, Nullable("f0_", "INTEGER")];
  }

  lemma MisorderedFails(d: Decoder, g: Field)
    requires g == Nullable("g", "STRING")
    ensures Evaluate(d, [g], [], MISORDERED) == Err(OrderByNotGrouped)
  {
    MisorderedIsTyped(g);
    hide SelectedFields, GroupedFields, GroupRows, OrderedKeys, Filtered;
  }

  /** The ORDER BY of a grouped query is compared with its group only by the run. */
  lemma MisorderedGroupsAreMissed(d: Decoder, project: string)
    ensures var (text, g) := (SqlPrinter.Print(MISORDERED) + ";", Nullable("g", "STRING"));
            && DryRun(d, OneTable([g], []), project, text, 0) == Ok(QueryResult([g, Nullable("f0_", "INTEGER")], []))
            && Execute(d, OneTable([g], []), project, text, 0) == Err(OrderByNotGrouped)
  {
    var g := Nullable("g", "STRING");
    assert MISORDERED.source == TABLE;
    hide *;
    WitnessesAreClean(d);
    OnOneTable(d, MISORDERED, [g], [], project);
    MisorderedIsTyped(g);
    MisorderedFails(d, g);
  }

  /** A NUMERIC column takes any string, which only the run tries to add up. */
  lemma NonNumberIsMissed(d: Decoder, raw: Bytes, project: string)
    requires !IsJsonNull(raw) && d.asString(raw).Some? && d.parseFloat(d.asString(raw).value).None?
    ensures var (text, n) := (SqlPrinter.Print(SUMMED) + ";", Nullable("n", "NUMERIC"));
            var cat := OneTable([n], [Row("", [Cell("n", raw)], "")]);
            && FitsField(d, raw, n)
            && DryRun(d, cat, project, text, 0) == Ok(QueryResult([Nullable("f0_", "NUMERIC")], []))
            && Execute(d, cat, project, text, 0) == Err(NonNumeric)
  {
    var (n, row) := (Nullable("n", "NUMERIC"), Row("", [Cell("n", raw)], ""));
    NumericColumn(d, raw, n);
    SumOfOne(d, raw, n, row);
    hide *;
    WitnessesAreClean(d);
    OnOneTable(d, SUMMED, [n], [row], project);
  }

  lemma NumericColumn(d: Decoder, raw: Bytes, n: Field)
    requires n == Nullable("n", "NUMERIC") && !IsJsonNull(raw) && d.asString(raw).Some?
    ensures FitsField(d, raw, n) && FirstFieldNamed([n], "n") == Some(n)
    ensures IsNumericField(n) && !IsIntegerField(n) && NumericType(n) == "NUMERIC"
    ensures TypeOf([n], SUMMED) == Ok(QueryResult([Nullable("f0_", "NUMERIC")], []))
  {
    hide IsJsonNull;
    NumericKind(n);
  }

  lemma NumericKind(n: Field)
    requires n == Nullable("n", "NUMERIC")
    ensures KindOf(n) == "NUMERIC" && RustStr.Upper("NUMERIC") == "NUMERIC"
    ensures !RustStr.EqIgnoreAsciiCase(n.mode, "REPEATED")
  {
    assert RustStr.Upper("NULLABLE")[0] != RustStr.Upper("REPEATED")[0];
  }

  lemma SumOfOne(d: Decoder, raw: Bytes, n: Field, row: Row)
    requires n == Nullable("n", "NUMERIC") && row == Row("", [Cell("n", raw)], "")
    requires !IsJsonNull(raw) && d.asString(raw).Some? && d.parseFloat(d.asString(raw).value).None?
    ensures Evaluate(d, [n], [row], SUMMED) == Err(NonNumeric)
  {
    TotalOfOne(d, raw, row);
    NumericColumn(d, raw, n);
    AllRowsMatch(d, row);
    hide Filtered, FloatTotal, FirstFieldNamed, IsNumericField, IsIntegerField, NumericType;
    assert AggregateResult(d, [row], [n], SUMMED.aggregate.value) == Err(NonNumeric);
    hide AggregateResult;
    assert SelectedFields([n], []) == Ok([]);
  }

  lemma TotalOfOne(d: Decoder, raw: Bytes, row: Row)
    requires row == Row("", [Cell("n", raw)], "")
    requires !IsJsonNull(raw) && d.asString(raw).Some? && d.parseFloat(d.asString(raw).value).None?
    ensures FloatTotal(d, [row], "n") == Err(NonNumeric)
  {
    assert Present(row, "n") == Some(raw) && RawFloat(d, raw).None? by { hide IsJsonNull; }
    hide Present, RawFloat;
    assert [row][..0] == [];
  }

  lemma AllRowsMatch(d: Decoder, row: Row)
    ensures Filtered(d, [row], SUMMED) == [row]
  {
    assert [row][..0] == [] && Filtered(d, [], SUMMED) == [];
  }
}
