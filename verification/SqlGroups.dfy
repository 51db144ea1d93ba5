/** GROUP BY conserves: what the groups count and sum is what the ungrouped query counts and sums. */
module SqlGroups {
  import opened Common
  import opened JsonDecoding
  import opened JsonText
  import opened Numerals
  import opened RowStore
  import opened SqlAst
  import opened SqlEval
  import opened TableSchemas
  import StableSort

  // --- sums over rows and over groups ---

  function Sum<T>(w: T -> int, s: seq<T>): int {
    if s == [] then 0 else Sum(w, s[..|s| - 1]) + w(s[|s| - 1])
  }

  /** The sum over the groups with these keys. */
  function SumOfGroups(w: Row -> int, rows: seq<Row>, groupBy: string, keys: seq<Bytes>): int {
    if keys == [] then 0
    else SumOfGroups(w, rows, groupBy, keys[..|keys| - 1]) + Sum(w, GroupOf(rows, groupBy, keys[|keys| - 1]))
  }

  predicate Distinct<T(==)>(s: seq<T>) {
    forall i, j :: 0 <= i < j < |s| ==> s[i] != s[j]
  }

  predicate Covers(keys: seq<Bytes>, rows: seq<Row>, groupBy: string) {
    forall i :: 0 <= i < |rows| ==> GroupKey(rows[i], groupBy) in keys
  }

  lemma {:induction false} OneMoreRow(w: Row -> int, rows: seq<Row>, groupBy: string, keys: seq<Bytes>)
    requires rows != [] && Distinct(keys)
    ensures var n := |rows| - 1;
            SumOfGroups(w, rows, groupBy, keys)
            == SumOfGroups(w, rows[..n], groupBy, keys) + (if GroupKey(rows[n], groupBy) in keys then w(rows[n]) else 0)
  {
    hide GroupKey;
    if keys != [] {
      var (m, last) := (|keys| - 1, keys[|keys| - 1]);
      OneMoreRow(w, rows, groupBy, keys[..m]);
      assert keys == keys[..m] + [last];
      var (row, before) := (rows[|rows| - 1], GroupOf(rows[..|rows| - 1], groupBy, last));
      assert (before + [row])[..|before|] == before;
      assert before + [] == before;
    }
  }

  /** Groups with distinct keys that cover all rows split the rows: nothing is lost, nothing counted twice. */
  lemma {:induction false} GroupsPartition(w: Row -> int, rows: seq<Row>, groupBy: string, keys: seq<Bytes>)
    requires Distinct(keys) && Covers(keys, rows, groupBy)
    ensures SumOfGroups(w, rows, groupBy, keys) == Sum(w, rows)
  {
    hide GroupKey;
    if rows == [] {
      NoRows(w, groupBy, keys);
    } else {
      GroupsPartition(w, rows[..|rows| - 1], groupBy, keys);
      OneMoreRow(w, rows, groupBy, keys);
    }
  }

  lemma {:induction false} NoRows(w: Row -> int, groupBy: string, keys: seq<Bytes>)
    ensures SumOfGroups(w, [], groupBy, keys) == 0
  {
    if keys != [] { NoRows(w, groupBy, keys[..|keys| - 1]); }
  }

  lemma {:induction false} KeysCover(rows: seq<Row>, groupBy: string)
    ensures Distinct(Keys(rows, groupBy)) && Covers(Keys(rows, groupBy), rows, groupBy)
  {
    hide GroupKey;
    if rows != [] { KeysCover(rows[..|rows| - 1], groupBy); }
  }

  lemma {:induction false} DistinctCounts<T>(s: seq<T>)
    ensures Distinct(s) <==> forall x :: multiset(s)[x] <= 1
  {
    if s != [] {
      var n := |s| - 1;
      DistinctCounts(s[..n]);
      assert s == s[..n] + [s[n]];
      if Distinct(s) {
        forall x
          ensures multiset(s)[x] <= 1
        {
          assert x == s[n] ==> x !in multiset(s[..n]);
        }
      } else if Distinct(s[..n]) {
        assert s[n] in s[..n];
        assert s[n] in multiset(s[..n]);
        assert multiset(s)[s[n]] > 1;
      } else {
        var x :| multiset(s[..n])[x] > 1;
        assert multiset(s)[x] > 1;
      }
    }
  }

  lemma OrderedKeysCover(d: Decoder, rows: seq<Row>, q: Query)
    ensures Distinct(OrderedKeys(d, rows, q)) && Covers(OrderedKeys(d, rows, q), rows, q.groupBy)
  {
    hide GroupKey, Keys, StableSort.Sort;
    KeysCover(rows, q.groupBy);
    var (keys, sorted) := (Keys(rows, q.groupBy), OrderedKeys(d, rows, q));
    StableSort.SortIsPermutation(KeyOrder(d, q.orderDesc), keys);
    StableSort.SameElements(sorted, keys);
    DistinctCounts(keys);
    DistinctCounts(sorted);
  }

  // --- what a cell says ---

  /** The integer a result cell shows; NULL counts for nothing. */
  function CellInt(v: Value): int {
    if v.Str? && ParseInt(v.s).Some? then ParseInt(v.s).value else 0
  }

  /** The sum of the second column. */
  function SumOfColumn(rows: seq<seq<Value>>): int
    requires forall i :: 0 <= i < |rows| ==> |rows[i]| == 2
  {
    if rows == [] then 0 else SumOfColumn(rows[..|rows| - 1]) + CellInt(rows[|rows| - 1][1])
  }

  function CountWeight(a: Aggregate): Row -> int {
    (row: Row) => if a.field == "*" || Present(row, a.field).Some? then 1 else 0
  }

  function IntegerIn(d: Decoder, row: Row, name: string): int {
    var cell := Present(row, name);
    if cell.Some? && RawInt(d, cell.value).Some? then RawInt(d, cell.value).value else 0
  }

  function SumWeight(d: Decoder, a: Aggregate): Row -> int {
    (row: Row) => IntegerIn(d, row, a.field)
  }

  predicate AllIntegers(d: Decoder, rows: seq<Row>, name: string) {
    forall i :: 0 <= i < |rows| ==> Present(rows[i], name).Some? ==> RawInt(d, Present(rows[i], name).value).Some?
  }

  lemma {:induction false} CountIsSum(rows: seq<Row>, a: Aggregate)
    ensures Sum(CountWeight(a), rows) == if a.field == "*" then |rows| else CountPresent(rows, a.field)
  {
    hide Present;
    if rows != [] { CountIsSum(rows[..|rows| - 1], a); }
  }

  lemma CountCell(d: Decoder, rows: seq<Row>, schema: seq<Field>, a: Aggregate)
    requires a.function_ == Count && AggregateResult(d, rows, schema, a).Ok?
    ensures CellInt(AggregateResult(d, rows, schema, a).value.rows[0][0]) == Sum(CountWeight(a), rows)
  {
    hide ParseInt, ShowInt, CountPresent, CountWeight, Sum;
    CountIsSum(rows, a);
    ShowIntReadsBack(Sum(CountWeight(a), rows));
  }

  /** The loop's total is the sum of the integers, wrapped once; it fails exactly on a non-integer. */
  lemma {:induction false} IntegerTotalIsWrappedSum(d: Decoder, rows: seq<Row>, a: Aggregate)
    ensures IntegerTotal(d, rows, a.field).Ok? <==> AllIntegers(d, rows, a.field)
    ensures var t := IntegerTotal(d, rows, a.field);
            t.Ok? ==> t.value.sum == Wrap(Sum(SumWeight(d, a), rows)) && (t.value.count == 0 ==> t.value.sum == 0)
  {
    hide Present, RawInt, Wrap;
    if rows == [] {
      assert Wrap(0) == 0;
    } else {
      var n := |rows| - 1;
      IntegerTotalIsWrappedSum(d, rows[..n], a);
      WrapAdds(Sum(SumWeight(d, a), rows[..n]), IntegerIn(d, rows[n], a.field));
      AllIntegersStep(d, rows, a.field);
    }
  }

  lemma AllIntegersStep(d: Decoder, rows: seq<Row>, name: string)
    requires rows != []
    ensures var (n, cell) := (|rows| - 1, Present(rows[|rows| - 1], name));
            AllIntegers(d, rows, name)
            <==> AllIntegers(d, rows[..n], name) && (cell.Some? ==> RawInt(d, cell.value).Some?)
  {
    hide Present, RawInt;
    var n := |rows| - 1;
    if AllIntegers(d, rows[..n], name)
        && (Present(rows[n], name).Some? ==> RawInt(d, Present(rows[n], name).value).Some?) {
      forall i | 0 <= i < |rows| && Present(rows[i], name).Some?
        ensures RawInt(d, Present(rows[i], name).value).Some?
      {
        if i < n { assert rows[..n][i] == rows[i]; }
      }
    }
    if AllIntegers(d, rows, name) {
      forall i | 0 <= i < n && Present(rows[..n][i], name).Some?
        ensures RawInt(d, Present(rows[..n][i], name).value).Some?
      {
        assert rows[..n][i] == rows[i];
      }
    }
  }

  predicate SumsIntegers(schema: seq<Field>, a: Aggregate) {
    && a.function_ == AggregateFunction.Sum && AggregateField(schema, a).Some?
    && IsIntegerField(AggregateField(schema, a).value)
  }

  lemma SumCell(d: Decoder, rows: seq<Row>, schema: seq<Field>, a: Aggregate)
    requires SumsIntegers(schema, a)
    ensures AggregateResult(d, rows, schema, a).Ok? <==> AllIntegers(d, rows, a.field)
    ensures var r := AggregateResult(d, rows, schema, a);
            r.Ok? ==> CellInt(r.value.rows[0][0]) == Wrap(Sum(SumWeight(d, a), rows))
  {
    hide ParseInt, ShowInt, IntegerTotal, AllIntegers, SumWeight, Sum, Wrap, FirstFieldNamed, NumericType;
    IntegerTotalIsWrappedSum(d, rows, a);
    ShowIntReadsBack(Wrap(Sum(SumWeight(d, a), rows)));
  }

  // --- a column of groups ---

  lemma {:induction false} CountColumn(d: Decoder, rows: seq<Row>, schema: seq<Field>, q: Query, a: Aggregate,
      field: Field, keys: seq<Bytes>)
    requires a.function_ == Count && GroupRows(d, rows, schema, q.groupBy, a, field, keys).Ok?
    ensures SumOfColumn(GroupRows(d, rows, schema, q.groupBy, a, field, keys).value)
            == SumOfGroups(CountWeight(a), rows, q.groupBy, keys)
  {
    hide AggregateResult, CellInt, KeyCell, CountWeight, Sum, GroupOf;
    if keys != [] {
      var n := |keys| - 1;
      CountColumn(d, rows, schema, q, a, field, keys[..n]);
      CountCell(d, GroupOf(rows, q.groupBy, keys[n]), schema, a);
    }
  }

  lemma {:induction false} SumColumn(d: Decoder, rows: seq<Row>, schema: seq<Field>, q: Query, a: Aggregate,
      field: Field, keys: seq<Bytes>)
    requires SumsIntegers(schema, a) && GroupRows(d, rows, schema, q.groupBy, a, field, keys).Ok?
    ensures Wrap(SumOfColumn(GroupRows(d, rows, schema, q.groupBy, a, field, keys).value))
            == Wrap(SumOfGroups(SumWeight(d, a), rows, q.groupBy, keys))
  {
    hide AggregateResult, CellInt, KeyCell, SumWeight, Sum, GroupOf, SumsIntegers, Wrap;
    if keys != [] {
      var n := |keys| - 1;
      SumColumn(d, rows, schema, q, a, field, keys[..n]);
      var group := GroupOf(rows, q.groupBy, keys[n]);
      SumCell(d, group, schema, a);
      var (x, y) := (SumOfColumn(GroupRows(d, rows, schema, q.groupBy, a, field, keys[..n]).value),
                     SumOfGroups(SumWeight(d, a), rows, q.groupBy, keys[..n]));
      var z := Sum(SumWeight(d, a), group);
      WrapAdds(x, Wrap(z));
      WrapAdds(y, Wrap(z));
      WrapAdds(z, y);
    }
  }

  lemma {:induction false} GroupRowsFailOnAnyCell(d: Decoder, rows: seq<Row>, schema: seq<Field>, q: Query,
      a: Aggregate, field: Field, keys: seq<Bytes>)
    ensures GroupRows(d, rows, schema, q.groupBy, a, field, keys).Ok?
            <==> forall i :: 0 <= i < |keys| ==> GroupCell(d, rows, schema, q.groupBy, a, keys[i]).Ok?
  {
    hide GroupCell, KeyCell;
    if keys != [] {
      var n := |keys| - 1;
      GroupRowsFailOnAnyCell(d, rows, schema, q, a, field, keys[..n]);
      assert forall i :: 0 <= i < n ==> keys[..n][i] == keys[i];
    }
  }

  lemma {:induction false} GroupOfMembers(rows: seq<Row>, groupBy: string, key: Bytes)
    ensures forall row :: row in GroupOf(rows, groupBy, key) <==> row in rows && GroupKey(row, groupBy) == key
  {
    hide GroupKey;
    if rows != [] {
      var n := |rows| - 1;
      GroupOfMembers(rows[..n], groupBy, key);
      assert rows == rows[..n] + [rows[n]];
    }
  }

  /** Some group holds a non-integer exactly when some row does. */
  lemma GroupsFailTogether(d: Decoder, rows: seq<Row>, groupBy: string, keys: seq<Bytes>, name: string)
    requires Covers(keys, rows, groupBy)
    ensures (forall i :: 0 <= i < |keys| ==> AllIntegers(d, GroupOf(rows, groupBy, keys[i]), name))
            <==> AllIntegers(d, rows, name)
  {
    hide Present, RawInt, GroupKey, GroupOf;
    forall i | 0 <= i < |keys| { GroupOfMembers(rows, groupBy, keys[i]); }
    if forall i :: 0 <= i < |keys| ==> AllIntegers(d, GroupOf(rows, groupBy, keys[i]), name) {
      forall j | 0 <= j < |rows| && Present(rows[j], name).Some?
        ensures RawInt(d, Present(rows[j], name).value).Some?
      {
        assert GroupKey(rows[j], groupBy) in keys;
        var i :| 0 <= i < |keys| && keys[i] == GroupKey(rows[j], groupBy);
        assert rows[j] in GroupOf(rows, groupBy, keys[i]);
      }
    }
    if AllIntegers(d, rows, name) {
      forall i | 0 <= i < |keys|
        ensures AllIntegers(d, GroupOf(rows, groupBy, keys[i]), name)
      {
        var group := GroupOf(rows, groupBy, keys[i]);
        forall j | 0 <= j < |group| && Present(group[j], name).Some?
          ensures RawInt(d, Present(group[j], name).value).Some?
        {
          assert group[j] in rows;
        }
      }
    }
  }

  // --- the theorems ---

  /** The same query without its groups. */
  function Ungrouped(q: Query): Query {
    q.(groupBy := "", selected := [], orderBy := "", orderDesc := false)
  }

  predicate IsGrouped(q: Query) {
    q.aggregate.Some? && q.groupBy != "" && q.selected == [q.groupBy] && q.limit < 0 && q.offset <= 0
  }

  /** What the two evaluations come down to. */
  lemma Evaluations(d: Decoder, schema: seq<Field>, rows: seq<Row>, q: Query)
    requires IsGrouped(q)
    ensures var kept := Filtered(d, rows, q);
            && Evaluate(d, schema, rows, Ungrouped(q)) == AggregateResult(d, kept, schema, q.aggregate.value)
            && Evaluate(d, schema, rows, q) == GroupedResult(d, kept, schema, q, q.aggregate.value)
            && Window(OrderedKeys(d, kept, q), q.limit, q.offset) == OrderedKeys(d, kept, q)
  {
    hide Filtered, AggregateResult, GroupedResult, OrderedKeys, FieldNamed;
    FilterByGroups(d, rows, q, Ungrouped(q));
    if SelectedFields(schema, q.selected).Err? { GroupedResultNeedsItsField(d, schema, Filtered(d, rows, q), q); }
  }

  lemma GroupedResultNeedsItsField(d: Decoder, schema: seq<Field>, rows: seq<Row>, q: Query)
    requires IsGrouped(q) && SelectedFields(schema, q.selected).Err?
    ensures GroupedResult(d, rows, schema, q, q.aggregate.value) == Err(SelectedFields(schema, q.selected).error)
  {
  }

  /** The COUNT values of all groups add up to the ungrouped COUNT. */
  lemma GroupByConservesCount(d: Decoder, schema: seq<Field>, rows: seq<Row>, q: Query)
    requires IsGrouped(q) && q.aggregate.value.function_ == Count && Evaluate(d, schema, rows, q).Ok?
    ensures var (grouped, whole) := (Evaluate(d, schema, rows, q), Evaluate(d, schema, rows, Ungrouped(q)));
            && whole.Ok? && |whole.value.rows| == 1 && |whole.value.rows[0]| == 1
            && (forall i :: 0 <= i < |grouped.value.rows| ==> |grouped.value.rows[i]| == 2)
            && SumOfColumn(grouped.value.rows) == CellInt(whole.value.rows[0][0])
  {
    hide Evaluate, GroupRows, SumOfColumn, CellInt, OrderedKeys, AggregateFields, SelectedFields, Sum, SumOfGroups;
    var (kept, a) := (Filtered(d, rows, q), q.aggregate.value);
    Evaluations(d, schema, rows, q);
    CountTyped(d, kept, schema, q);
    CountCell(d, kept, schema, a);
    CountColumn(d, kept, schema, q, a, GroupedFields(schema, q.groupBy, a).value[0], OrderedKeys(d, kept, q));
    OrderedKeysCover(d, kept, q);
    GroupsPartition(CountWeight(a), kept, q.groupBy, OrderedKeys(d, kept, q));
  }

  lemma CountTyped(d: Decoder, rows: seq<Row>, schema: seq<Field>, q: Query)
    requires IsGrouped(q) && q.aggregate.value.function_ == Count
    requires GroupedFields(schema, q.groupBy, q.aggregate.value).Ok?
    ensures AggregateResult(d, rows, schema, q.aggregate.value).Ok?
  {
    hide SelectedFields, FirstFieldNamed, CountPresent, ShowInt;
  }

  /** The SUM values of all groups add up, modulo 2^64, to the ungrouped SUM of an integer column; and where
      the grouped query is well typed, it fails exactly when the ungrouped one does. */
  lemma GroupByConservesSum(d: Decoder, schema: seq<Field>, rows: seq<Row>, q: Query)
    requires IsGrouped(q) && SumsIntegers(schema, q.aggregate.value)
    requires GroupedFields(schema, q.groupBy, q.aggregate.value).Ok? && (q.orderBy == "" || q.orderBy == q.groupBy)
    ensures var (grouped, whole) := (Evaluate(d, schema, rows, q), Evaluate(d, schema, rows, Ungrouped(q)));
            && (grouped.Ok? <==> whole.Ok?)
            && (grouped.Ok? ==>
                 && |whole.value.rows| == 1 && |whole.value.rows[0]| == 1
                 && (forall i :: 0 <= i < |grouped.value.rows| ==> |grouped.value.rows[i]| == 2)
                 && Wrap(SumOfColumn(grouped.value.rows)) == CellInt(whole.value.rows[0][0]))
  {
    hide Evaluate, GroupRows, SumOfColumn, CellInt, OrderedKeys, AggregateResult, AggregateFields, SelectedFields;
    hide Sum, SumOfGroups, SumsIntegers, AllIntegers, SumWeight, Wrap, GroupedFields;
    var (kept, a) := (Filtered(d, rows, q), q.aggregate.value);
    var (keys, field) := (OrderedKeys(d, kept, q), GroupedFields(schema, q.groupBy, a).value[0]);
    Evaluations(d, schema, rows, q);
    SumCell(d, kept, schema, a);
    OrderedKeysCover(d, kept, q);
    GroupsFailTogether(d, kept, q.groupBy, keys, a.field);
    GroupRowsFailOnAnyCell(d, kept, schema, q, a, field, keys);
    forall i | 0 <= i < |keys|
      ensures GroupCell(d, kept, schema, q.groupBy, a, keys[i]).Ok?
              <==> AllIntegers(d, GroupOf(kept, q.groupBy, keys[i]), a.field)
    {
      SumCell(d, GroupOf(kept, q.groupBy, keys[i]), schema, a);
    }
    if GroupRows(d, kept, schema, q.groupBy, a, field, keys).Ok? {
      SumColumn(d, kept, schema, q, a, field, keys);
      GroupsPartition(SumWeight(d, a), kept, q.groupBy, keys);
    }
  }
}
