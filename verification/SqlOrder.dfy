/** ORDER BY on a validated INTEGER column, and LIMIT/OFFSET windows. */
module SqlOrder {
  import opened Common
  import opened JsonDecoding
  import opened JsonText
  import opened Numerals
  import opened RowStore
  import opened SqlAst
  import opened SqlEval
  import opened TableSchemas
  import RustStr
  import StableSort

  // --- the order of a column ---

  /** What a cell of an INTEGER column means to the order: nothing there, an integer (as its nearest
      floating-point number), or null. */
  datatype Rank = Missing | Integer(value: real) | NullValue

  predicate RankLe(a: Rank, b: Rank) {
    match a
    case Missing => true
    case Integer(x) => b.NullValue? || (b.Integer? && x <= b.value)
    case NullValue => b.NullValue?
  }

  function RankOf(d: Decoder, raw: Bytes): Rank {
    if raw == [] then Missing
    else if RawInt(d, raw).Some? then Integer(d.nearest(RawInt(d, raw).value))
    else NullValue
  }

  /** The text of a cell that passed `validate_field_value` for an INTEGER column, or the empty text that
      stands for a missing cell. */
  predicate IntegerText(d: Decoder, raw: Bytes) {
    raw == [] || RawInt(d, raw).Some? || d.first(raw) == Some(Null)
  }

  /** The column's cells are JSON and pass validation. */
  predicate Validated(d: Decoder, rows: seq<Row>, field: Field) {
    forall i :: 0 <= i < |rows| ==>
      var cell := Get(rows[i].cells, field.name);
      cell.Some? ==> d.first(cell.value).Some? && FitsField(d, cell.value, field)
  }

  predicate IsIntegerColumn(field: Field) {
    IsIntegerField(field) && !RustStr.EqIgnoreAsciiCase(field.mode, "REPEATED")
  }

  lemma ValidatedTexts(d: Decoder, rows: seq<Row>, field: Field, row: Row)
    requires Lawful(d) && IsIntegerColumn(field) && Validated(d, rows, field) && row in rows
    ensures IntegerText(d, RawField(row, field.name))
  {
    hide RawInt, Get;
    var cell := Get(row.cells, field.name);
    if cell.Some? { IntegerCells(d, cell.value, field); }
  }

  lemma IntegerCells(d: Decoder, raw: Bytes, field: Field)
    requires IsIntegerColumn(field) && FitsField(d, raw, field)
    ensures IsJsonNull(raw) || RawInt(d, raw).Some?
  {
    hide RawInt, IsJsonNull;
  }

  predicate NumeralByte(b: Byte) {
    48 <= b <= 57 || b == 43 || b == 45
  }

  /** An integer is shown as a text that starts with a digit or a sign. */
  lemma IntegersShow(d: Decoder, raw: Bytes)
    requires Lawful(d) && RawInt(d, raw).Some?
    ensures var s := Sprint(ForResponse(d, raw)); s != [] && NumeralByte(s[0])
    ensures RawFloat(d, raw) == Some(Fin(d.nearest(RawInt(d, raw).value)))
    ensures raw != [] && d.first(raw) != Some(Null)
  {
    hide DigitsValue, IsJsonNull, WellFormed;
    assert d.asString(raw).Some? ==> d.first(raw) == Some(Str(d.asString(raw).value));
  }

  lemma OthersHaveNoNumeral(d: Decoder, raw: Bytes)
    requires Lawful(d) && (raw == [] || d.first(raw) == Some(Null))
    ensures RawFloat(d, raw).None? && RawInt(d, raw).None?
    ensures Sprint(ForResponse(d, raw)) == if raw == [] then [] else [60, 110, 105, 108, 62]
  {
    hide ParseI64, IsJsonNull, WellFormed;
    assert d.asString(raw).None?;
  }

  lemma {:induction false} SameBytes(s: Bytes)
    ensures CompareBytes(s, s) == Equal
  {
    if s != [] { SameBytes(s[1..]); }
  }

  /** On such texts `compare_raw_values` is the order of ranks: missing, then the integers, then null. */
  lemma CompareIsRankOrder(d: Decoder, a: Bytes, b: Bytes)
    requires Lawful(d) && IntegerText(d, a) && IntegerText(d, b)
    ensures (CompareRaw(d, a, b) != Greater) == RankLe(RankOf(d, a), RankOf(d, b))
    ensures (CompareRaw(d, a, b) != Less) == RankLe(RankOf(d, b), RankOf(d, a))
  {
    hide RawInt, RawFloat, Sprint, ForResponse, Lawful;
    TextFacts(d, a);
    TextFacts(d, b);
    SameBytes(Sprint(ForResponse(d, a)));
  }

  lemma TextFacts(d: Decoder, a: Bytes)
    requires Lawful(d) && IntegerText(d, a)
    ensures var (n, s) := (RawInt(d, a), Sprint(ForResponse(d, a)));
            if n.Some? then a != [] && RawFloat(d, a) == Some(Fin(d.nearest(n.value))) && s != [] && NumeralByte(s[0])
            else RawFloat(d, a).None? && s == if a == [] then [] else [60, 110, 105, 108, 62]
  {
    hide RawInt, RawFloat, Sprint, ForResponse, Lawful;
    if RawInt(d, a).Some? { IntegersShow(d, a); } else { OthersHaveNoNumeral(d, a); }
  }

  /** Larger integers never rank lower. */
  lemma RanksFollowIntegers(d: Decoder, a: Bytes, b: Bytes)
    requires Lawful(d) && RawInt(d, a).Some? && RawInt(d, b).Some? && RawInt(d, a).value <= RawInt(d, b).value
    ensures RankLe(RankOf(d, a), RankOf(d, b)) && CompareRaw(d, a, b) != Greater
  {
    hide RawInt, IsJsonNull, WellFormed, CompareRaw, ParseI64;
    assert RankLe(RankOf(d, a), RankOf(d, b)) by {
      IntegersShow(d, a);
      IntegersShow(d, b);
    }
    CompareIsRankOrder(d, a, b);
  }

  // --- ORDER BY ---

  function RankIn(d: Decoder, row: Row, name: string): Rank {
    RankOf(d, RawField(row, name))
  }

  /** `a` may stand before `b` in the result. */
  predicate MayPrecede(d: Decoder, a: Row, b: Row, name: string, desc: bool) {
    if desc then RankLe(RankIn(d, b, name), RankIn(d, a, name)) else RankLe(RankIn(d, a, name), RankIn(d, b, name))
  }

  lemma RowOrderIsRankOrder(d: Decoder, rows: seq<Row>, field: Field, desc: bool, a: Row, b: Row)
    requires Lawful(d) && IsIntegerColumn(field) && Validated(d, rows, field) && a in rows && b in rows
    ensures RowOrder(d, field.name, desc)(a, b) == MayPrecede(d, a, b, field.name, desc)
  {
    hide CompareRaw, RankOf, RankLe, IsIntegerColumn, Validated, Lawful, RawField;
    ValidatedTexts(d, rows, field, a);
    ValidatedTexts(d, rows, field, b);
    CompareIsRankOrder(d, RawField(a, field.name), RawField(b, field.name));
  }

  /** On a validated INTEGER column the comparison is a total preorder, in either direction. */
  lemma RowOrderIsTotalPreorder(d: Decoder, rows: seq<Row>, field: Field, desc: bool)
    requires Lawful(d) && IsIntegerColumn(field) && Validated(d, rows, field)
    ensures StableSort.PreorderOn(RowOrder(d, field.name, desc), rows)
  {
    hide RowOrder, RankOf, IsIntegerColumn, Validated, Lawful, RawField;
    forall a, b | a in rows && b in rows
      ensures RowOrder(d, field.name, desc)(a, b) == MayPrecede(d, a, b, field.name, desc)
    {
      RowOrderIsRankOrder(d, rows, field, desc, a, b);
    }
  }

  /** ORDER BY such a column gives a permutation of the rows, by rank in the direction asked for, in which
      rows of equal rank keep their order; and no other result has these properties. */
  lemma OrderByIsTheStableOrder(d: Decoder, rows: seq<Row>, field: Field, q: Query, r: seq<Row>)
    requires Lawful(d) && IsIntegerColumn(field) && Validated(d, rows, field)
    requires q.orderBy == field.name && field.name != ""
    ensures r == Ordered(d, rows, q)
            <==> && multiset(r) == multiset(rows)
                 && (forall i, j :: 0 <= i < j < |r| ==> MayPrecede(d, r[i], r[j], field.name, q.orderDesc))
                 && (forall p :: p in rows ==> SameRank(d, p, r, field.name) == SameRank(d, p, rows, field.name))
  {
    hide RowOrder, MayPrecede, SameRank, StableSort.Ties, StableSort.Sort, IsIntegerColumn, Validated, Lawful;
    var le := RowOrder(d, q.orderBy, q.orderDesc);
    RowOrderIsTotalPreorder(d, rows, field, q.orderDesc);
    StableSort.SortIsTheStableSort(le, rows, r);
    if multiset(r) == multiset(rows) {
      StableSort.SameElements(r, rows);
      forall i, j | 0 <= i < j < |r|
        ensures le(r[i], r[j]) == MayPrecede(d, r[i], r[j], field.name, q.orderDesc)
      {
        RowOrderIsRankOrder(d, rows, field, q.orderDesc, r[i], r[j]);
      }
      forall p | p in rows
        ensures StableSort.Ties(le, p, r) == SameRank(d, p, r, field.name)
        ensures StableSort.Ties(le, p, rows) == SameRank(d, p, rows, field.name)
      {
        TiesAreSameRank(d, rows, field, q.orderDesc, p, r);
        TiesAreSameRank(d, rows, field, q.orderDesc, p, rows);
      }
    }
  }

  /** The rows that rank as `p` does, in their order. */
  function SameRank(d: Decoder, p: Row, rows: seq<Row>, name: string): seq<Row> {
    if rows == [] then []
    else (if RankIn(d, rows[0], name) == RankIn(d, p, name) then [rows[0]] else []) + SameRank(d, p, rows[1..], name)
  }

  lemma {:induction false} TiesAreSameRank(d: Decoder, rows: seq<Row>, field: Field, desc: bool, p: Row, part: seq<Row>)
    requires Lawful(d) && IsIntegerColumn(field) && Validated(d, rows, field)
    requires p in rows && forall x :: x in part ==> x in rows
    ensures StableSort.Ties(RowOrder(d, field.name, desc), p, part) == SameRank(d, p, part, field.name)
  {
    hide RowOrder, RankOf, IsIntegerColumn, Validated, Lawful, RawField;
    if part != [] {
      TiesAreSameRank(d, rows, field, desc, p, part[1..]);
      RowOrderIsRankOrder(d, rows, field, desc, p, part[0]);
      RowOrderIsRankOrder(d, rows, field, desc, part[0], p);
    }
  }

  // --- MIN and MAX ---

  /** `best` is a cell of the column that is not null, and none is beyond it. */
  predicate IsExtreme(d: Decoder, rows: seq<Row>, name: string, fn: AggregateFunction, best: Bytes) {
    && (exists i :: 0 <= i < |rows| && Present(rows[i], name) == Some(best))
    && (forall i :: 0 <= i < |rows| && Present(rows[i], name).Some? ==>
          Bounds(d, fn, best, Present(rows[i], name).value))
  }

  predicate Bounds(d: Decoder, fn: AggregateFunction, best: Bytes, cell: Bytes) {
    if fn == Max then RankLe(RankOf(d, cell), RankOf(d, best)) else RankLe(RankOf(d, best), RankOf(d, cell))
  }

  lemma PresentIsInteger(d: Decoder, rows: seq<Row>, field: Field, i: nat)
    requires IsIntegerColumn(field) && Validated(d, rows, field) && i < |rows| && Present(rows[i], field.name).Some?
    ensures RawInt(d, Present(rows[i], field.name).value).Some?
  {
    hide RawInt, IsJsonNull, IsIntegerColumn;
    IntegerCells(d, Present(rows[i], field.name).value, field);
  }

  lemma NewBest(d: Decoder, fn: AggregateFunction, cell: Bytes, current: Bytes)
    requires Lawful(d) && RawInt(d, cell).Some? && RawInt(d, current).Some? && fn in {Min, Max}
    ensures Replaces(d, fn, cell, current) ==> Bounds(d, fn, cell, current)
    ensures !Replaces(d, fn, cell, current) ==> Bounds(d, fn, current, cell)
    ensures RankOf(d, cell).Integer? && RankOf(d, current).Integer?
  {
    hide RawInt, CompareRaw, Lawful;
    CompareIsRankOrder(d, cell, current);
    TextFacts(d, cell);
    TextFacts(d, current);
  }

  /** On a validated INTEGER column MIN and MAX select nothing exactly when there is no value, and otherwise
      an integer that bounds the others. */
  lemma {:induction false} ExtremeBounds(d: Decoder, rows: seq<Row>, field: Field, fn: AggregateFunction)
    requires Lawful(d) && IsIntegerColumn(field) && Validated(d, rows, field) && fn in {Min, Max}
    ensures var best := Extreme(d, rows, field.name, fn);
            if best.None? then forall i :: 0 <= i < |rows| ==> Present(rows[i], field.name).None?
            else IsExtreme(d, rows, field.name, fn, best.value) && RawInt(d, best.value).Some?
  {
    hide Present, RawInt, Replaces, RankOf, RankLe, Bounds, IsIntegerColumn, Lawful;
    if rows != [] {
      var n := |rows| - 1;
      assert forall i :: 0 <= i < n ==> rows[..n][i] == rows[i];
      ExtremeBounds(d, rows[..n], field, fn);
      var (before, cell) := (Extreme(d, rows[..n], field.name, fn), Present(rows[n], field.name));
      if cell.Some? {
        PresentIsInteger(d, rows, field, n);
        if before.Some? {
          BestOfMore(d, rows, field, fn, before.value, cell.value);
        } else {
          NewBest(d, fn, cell.value, cell.value);
        }
      } else if before.Some? {
        var i :| 0 <= i < n && Present(rows[..n][i], field.name) == Some(before.value);
        assert Present(rows[i], field.name) == Some(before.value);
      }
    }
  }

  lemma BestOfMore(d: Decoder, rows: seq<Row>, field: Field, fn: AggregateFunction, before: Bytes, cell: Bytes)
    requires Lawful(d) && IsIntegerColumn(field) && Validated(d, rows, field) && fn in {Min, Max} && rows != []
    requires IsExtreme(d, rows[..|rows| - 1], field.name, fn, before) && RawInt(d, before).Some?
    requires Present(rows[|rows| - 1], field.name) == Some(cell) && RawInt(d, cell).Some?
    ensures IsExtreme(d, rows, field.name, fn, if Replaces(d, fn, cell, before) then cell else before)
  {
    hide Present, RawInt, Replaces, IsIntegerColumn, RankOf, Lawful;
    var n := |rows| - 1;
    NewBest(d, fn, cell, before);
    NewBest(d, fn, cell, cell);
    var w :| 0 <= w < n && Present(rows[..n][w], field.name) == Some(before);
    assert Present(rows[w], field.name) == Some(before) && Present(rows[n], field.name) == Some(cell);
    forall i | 0 <= i < n && Present(rows[i], field.name).Some?
      ensures Bounds(d, fn, before, Present(rows[i], field.name).value)
    {
      assert rows[..n][i] == rows[i];
    }
  }
}
