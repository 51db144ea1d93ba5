/** LIMIT n OFFSET 0, n, 2n, ...: the windows put together are the whole result. */
module SqlWindows {
  import opened Common
  import opened JsonDecoding
  import opened JsonText
  import opened RowStore
  import opened SqlAst
  import opened SqlEval
  import opened TableSchemas
  import StableSort

  /** The `i`-th window of width `n`. */
  function Page(q: Query, n: nat, i: nat): Query {
    q.(limit := n, offset := i * n)
  }

  function Whole(q: Query): Query {
    q.(limit := -1, offset := 0)
  }

  /** The rows of the first `m` windows, one after the other, up to the first that fails. */
  function Pages(d: Decoder, schema: seq<Field>, rows: seq<Row>, q: Query, n: nat,
      m: nat): Result<seq<seq<Value>>, QueryError> {
    if m == 0 then Ok([])
    else
      var (before, page) := (Pages(d, schema, rows, q, n, m - 1), Evaluate(d, schema, rows, Page(q, n, m - 1)));
      if before.Err? then before
      else if page.Err? then Err(page.error)
      else Ok(before.value + page.value.rows)
  }

  /** How many rows the query has without LIMIT and OFFSET. */
  function Available(d: Decoder, rows: seq<Row>, q: Query): nat {
    if q.aggregate.Some? then |Keys(Filtered(d, rows, q), q.groupBy)| else |Filtered(d, rows, q)|
  }

  // --- windows of a sequence ---

  function Min(a: int, b: int): int {
    if a <= b then a else b
  }

  lemma NextWindow<T>(s: seq<T>, n: nat, m: nat)
    requires m > 0
    ensures 0 <= (m - 1) * n <= m * n
    ensures s[..Min((m - 1) * n, |s|)] + Window(s, n, (m - 1) * n) == s[..Min(m * n, |s|)]
  {
    var k := (m - 1) * n;
    assert m * n == k + n;
    NextPart(s, n, k);
  }

  lemma NextPart<T>(s: seq<T>, n: nat, k: nat)
    ensures s[..Min(k, |s|)] + Window(s, n, k) == s[..Min(k + n, |s|)]
  {
  }

  // --- plain queries ---

  lemma SameFilter(d: Decoder, rows: seq<Row>, q: Query, n: nat, i: nat)
    ensures Filtered(d, rows, Page(q, n, i)) == Filtered(d, rows, q)
            && Filtered(d, rows, Whole(q)) == Filtered(d, rows, q)
  {
    FilterByGroups(d, rows, q, Page(q, n, i));
    FilterByGroups(d, rows, q, Whole(q));
  }

  lemma FormatConcat(d: Decoder, a: seq<Row>, b: seq<Row>, fields: seq<Field>)
    ensures FormatRows(d, a + b, fields) == FormatRows(d, a, fields) + FormatRows(d, b, fields)
  {
    hide FormatRow;
  }

  lemma {:induction false} PlainPages(d: Decoder, schema: seq<Field>, rows: seq<Row>, q: Query, n: nat, m: nat)
    requires q.aggregate.None? && SelectedFields(schema, q.selected).Ok? && 0 <= m * n
    ensures var all := Ordered(d, Filtered(d, rows, q), q);
            Pages(d, schema, rows, q, n, m)
            == Ok(FormatRows(d, all[..Min(m * n, |all|)], SelectedFields(schema, q.selected).value))
  {
    hide SelectedFields, Filtered, FormatRows, Window, StableSort.Sort, RowOrder;
    var (all, fields) := (Ordered(d, Filtered(d, rows, q), q), SelectedFields(schema, q.selected).value);
    if m == 0 {
      assert all[..0] == [];
      assert FormatRows(d, [], fields) == [] by { FormatConcat(d, [], [], fields); NoRowsFormatted(d, fields); }
    } else {
      NextWindow(all, n, m);
      PlainPages(d, schema, rows, q, n, m - 1);
      SameFilter(d, rows, q, n, m - 1);
      FormatConcat(d, all[..Min((m - 1) * n, |all|)], Window(all, n, (m - 1) * n), fields);
    }
  }

  lemma NoRowsFormatted(d: Decoder, fields: seq<Field>)
    ensures FormatRows(d, [], fields) == []
  {
  }

  // --- grouped queries ---

  lemma {:induction false} GroupRowsConcat(d: Decoder, rows: seq<Row>, schema: seq<Field>, groupBy: string,
      a: Aggregate,
                                           field: Field, x: seq<Bytes>, y: seq<Bytes>)
    ensures var l := GroupRows(d, rows, schema, groupBy, a, field, x);
            var r := GroupRows(d, rows, schema, groupBy, a, field, y);
            GroupRows(d, rows, schema, groupBy, a, field, x + y)
            == if l.Err? then l else if r.Err? then r else Ok(l.value + r.value)
  {
    hide GroupCell, KeyCell;
    if y == [] {
      assert x + y == x;
      var l := GroupRows(d, rows, schema, groupBy, a, field, x);
      if l.Ok? { assert l.value + [] == l.value; }
    } else {
      var n := |y| - 1;
      assert (x + y)[..|x + y| - 1] == x + y[..n];
      GroupRowsConcat(d, rows, schema, groupBy, a, field, x, y[..n]);
      var l := GroupRows(d, rows, schema, groupBy, a, field, x);
      var r := GroupRows(d, rows, schema, groupBy, a, field, y[..n]);
      if l.Ok? && r.Ok? && GroupCell(d, rows, schema, groupBy, a, y[n]).Ok? {
        var row := [KeyCell(d, y[n], field), GroupCell(d, rows, schema, groupBy, a, y[n]).value];
        assert (l.value + r.value) + [row] == l.value + (r.value + [row]);
      }
    }
  }

  lemma {:induction false} GroupedPages(d: Decoder, schema: seq<Field>, rows: seq<Row>, q: Query, n: nat, m: nat)
    requires q.aggregate.Some? && q.groupBy != "" && SelectedFields(schema, q.selected).Ok? && 0 <= m * n
    requires GroupedFields(schema, q.groupBy, q.aggregate.value).Ok? && (q.orderBy == "" || q.orderBy == q.groupBy)
    ensures var (kept, a) := (Filtered(d, rows, q), q.aggregate.value);
            var all := OrderedKeys(d, kept, q);
            Pages(d, schema, rows, q, n, m)
            == GroupRows(d, kept, schema, q.groupBy, a, GroupedFields(schema, q.groupBy, a).value[0],
                         all[..Min(m * n, |all|)])
  {
    hide SelectedFields, GroupedFields, Filtered, GroupRows, Window, StableSort.Sort, KeyOrder, Keys;
    var (kept, a) := (Filtered(d, rows, q), q.aggregate.value);
    var (all, field) := (OrderedKeys(d, kept, q), GroupedFields(schema, q.groupBy, a).value[0]);
    if m == 0 {
      assert all[..0] == [];
      NoGroups(d, kept, schema, q.groupBy, a, field);
    } else {
      NextWindow(all, n, m);
      GroupedPages(d, schema, rows, q, n, m - 1);
      SameFilter(d, rows, q, n, m - 1);
      GroupRowsConcat(d, kept, schema, q.groupBy, a, field, all[..Min((m - 1) * n, |all|)],
          Window(all, n, (m - 1) * n));
    }
  }

  lemma NoGroups(d: Decoder, rows: seq<Row>, schema: seq<Field>, groupBy: string, a: Aggregate, field: Field)
    ensures GroupRows(d, rows, schema, groupBy, a, field, []) == Ok([])
  {
  }

  // --- the theorem ---

  lemma WholeWindow<T>(s: seq<T>)
    ensures Window(s, -1, 0) == s
  {
  }

  lemma WhatAlwaysFails(d: Decoder, schema: seq<Field>, rows: seq<Row>, q: Query, n: nat, m: nat)
    requires q.aggregate.Some? ==> q.groupBy != ""
    requires m > 0
    requires SelectedFields(schema, q.selected).Err?
             || (q.aggregate.Some? && (GroupedFields(schema, q.groupBy, q.aggregate.value).Err?
                 || (q.orderBy != "" && q.orderBy != q.groupBy)))
    ensures Evaluate(d, schema, rows, Whole(q)).Err?
    ensures Pages(d, schema, rows, q, n, m) == Err(Evaluate(d, schema, rows, Whole(q)).error)
    decreases m
  {
    hide SelectedFields, GroupedFields, Filtered, Window, StableSort.Sort, Keys;
    if m > 1 {
      WhatAlwaysFails(d, schema, rows, q, n, m - 1);
    } else {
      assert Pages(d, schema, rows, q, n, 0) == Ok([]);
    }
  }

  /** For plain and for grouped queries: as many windows as it takes, put together, are the result without
      LIMIT and OFFSET; and if that result is an error, they end in the same error. */
  lemma WindowsMakeTheWhole(d: Decoder, schema: seq<Field>, rows: seq<Row>, q: Query, n: nat, m: nat)
    requires q.aggregate.Some? ==> q.groupBy != ""
    requires m > 0 && m * n >= Available(d, rows, q)
    ensures var whole := Evaluate(d, schema, rows, Whole(q));
            Pages(d, schema, rows, q, n, m) == if whole.Err? then Err(whole.error) else Ok(whole.value.rows)
  {
    hide SelectedFields, GroupedFields, Filtered, GroupRows, Pages, Window, FormatRows, Keys, KeyOrder, RowOrder,
      StableSort.Sort;
    var kept := Filtered(d, rows, q);
    SameFilter(d, rows, q, 0, 0);
    if SelectedFields(schema, q.selected).Err?
       || (q.aggregate.Some? && (GroupedFields(schema, q.groupBy, q.aggregate.value).Err?
           || (q.orderBy != "" && q.orderBy != q.groupBy))) {
      WhatAlwaysFails(d, schema, rows, q, n, m);
    } else if q.aggregate.None? {
      PlainPages(d, schema, rows, q, n, m);
      var all := Ordered(d, kept, q);
      StableSort.SortIsPermutation(RowOrder(d, q.orderBy, q.orderDesc), kept);
      WholeWindow(all);
      assert all[..|all|] == all;
    } else {
      GroupedPages(d, schema, rows, q, n, m);
      var all := OrderedKeys(d, kept, q);
      StableSort.SortIsPermutation(KeyOrder(d, q.orderDesc), Keys(kept, q.groupBy));
      WholeWindow(all);
      assert all[..|all|] == all;
    }
  }

  /** Every window that succeeds has the columns of the whole. */
  lemma WindowsHaveTheSameColumns(d: Decoder, schema: seq<Field>, rows: seq<Row>, q: Query, n: nat, i: nat)
    requires Evaluate(d, schema, rows, Page(q, n, i)).Ok? && Evaluate(d, schema, rows, Whole(q)).Ok?
    ensures Evaluate(d, schema, rows, Page(q, n, i)).value.fields == Evaluate(d, schema, rows, Whole(q)).value.fields
  {
    hide SelectedFields, GroupedFields, Filtered, GroupRows, Window, FormatRows, AggregateResult, StableSort.Sort;
    SameFilter(d, rows, q, n, i);
  }
}
