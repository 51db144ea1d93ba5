/** `insertAll`: what one request does to a table, as a function and as the handler that does it. */
module InsertAll {
  import opened Common
  import opened RowStore
  import opened TableSchemas
  import RustStr
  import WireJson

  /** One row of a request, before validation. */
  datatype NewRow = NewRow(insertId: string, cells: seq<Cell>)

  datatype Request = Request(rows: seq<NewRow>, skipInvalidRows: bool, ignoreUnknownValues: bool)

  datatype RowError = NoSuchField(key: string) | BadValue(key: string) | MissingRequired(field: string)

  datatype Verdict = Verdict(values: seq<Cell>, errors: seq<RowError>)

  /** What the handler consults beside the table: `validate_field_value` and `is_json_null` (as functions
      of the raw text), the timestamp of the insertion, and the row limit. */
  datatype Env = Env(valueFits: (Bytes, Field) -> bool, isNull: Bytes -> bool, insertedAt: string, maxRows: nat)

  // --- validate_row_json ---

  function ValidateCells(env: Env, cells: seq<Cell>, schema: seq<Field>, ignoreUnknown: bool): Verdict {
    if cells == [] then Verdict([], [])
    else
      var c, before := cells[|cells| - 1], ValidateCells(env, cells[..|cells| - 1], schema, ignoreUnknown);
      match FieldNamed(schema, c.key)
      case None =>
        if ignoreUnknown then before else before.(errors := before.errors + [NoSuchField(c.key)])
      case Some(field) =>
        if env.valueFits(c.raw, field) then before.(values := before.values + [c])
        else before.(errors := before.errors + [BadValue(c.key)])
  }

  predicate HasValue(env: Env, values: seq<Cell>, name: string) {
    exists i :: 0 <= i < |values| && values[i].key == name && !env.isNull(values[i].raw)
  }

  function MissingFields(env: Env, values: seq<Cell>, schema: seq<Field>): seq<RowError> {
    if schema == [] then []
    else
      var f, before := schema[|schema| - 1], MissingFields(env, values, schema[..|schema| - 1]);
      if RustStr.EqIgnoreAsciiCase(f.mode, "REQUIRED") && !HasValue(env, values, f.name) then
        before + [MissingRequired(f.name)]
      else before
  }

  function ValidateRow(env: Env, cells: seq<Cell>, schema: seq<Field>, ignoreUnknown: bool): Verdict {
    var v := ValidateCells(env, cells, schema, ignoreUnknown);
    v.(errors := v.errors + MissingFields(env, v.values, schema))
  }

  // --- the rows one request adds ---

  function IdsOf(rows: seq<Row>): (ids: set<string>)
    ensures forall id :: id in ids <==> id != "" && exists i :: 0 <= i < |rows| && rows[i].insertId == id
  {
    set i | 0 <= i < |rows| && rows[i].insertId != "" :: rows[i].insertId
  }

  predicate IsValid(env: Env, row: NewRow, schema: seq<Field>, ignoreUnknown: bool) {
    ValidateRow(env, row.cells, schema, ignoreUnknown).errors == []
  }

  function ToStored(env: Env, row: NewRow, schema: seq<Field>, ignoreUnknown: bool): Row {
    Row(row.insertId, ValidateRow(env, row.cells, schema, ignoreUnknown).values, env.insertedAt)
  }

  /** The rows taken from the head of a request, given the insert ids already in the table. */
  function Taken(env: Env, req: Request, schema: seq<Field>, seen: set<string>, n: nat): seq<Row>
    requires n <= |req.rows|
  {
    if n == 0 then []
    else
      var row, before := req.rows[n - 1], Taken(env, req, schema, seen, n - 1);
      if !IsValid(env, row, schema, req.ignoreUnknownValues) then before
      else if row.insertId != "" && row.insertId in seen + IdsOf(before) then before
      else before + [ToStored(env, row, schema, req.ignoreUnknownValues)]
  }

  /** The positions of the invalid rows among the first `n`. */
  function Invalid(env: Env, req: Request, schema: seq<Field>, n: nat): seq<nat>
    requires n <= |req.rows|
  {
    if n == 0 then []
    else
      Invalid(env, req, schema, n - 1)
      + (if IsValid(env, req.rows[n - 1], schema, req.ignoreUnknownValues) then [] else [n - 1])
  }

  /** The rows a request adds to a table that holds `existing`, before the row limit is looked at. */
  function Accepted(env: Env, req: Request, schema: seq<Field>, existing: seq<Row>): seq<Row> {
    if Invalid(env, req, schema, |req.rows|) != [] && !req.skipInvalidRows then []
    else Taken(env, req, schema, IdsOf(existing), |req.rows|)
  }

  predicate OverQuota(env: Env, req: Request, schema: seq<Field>, existing: seq<Row>) {
    var accepted := Accepted(env, req, schema, existing);
    accepted != [] && |existing| + |accepted| > env.maxRows
  }

  /** The table's rows after a request that had the table to itself. */
  function Apply(env: Env, req: Request, schema: seq<Field>, existing: seq<Row>): seq<Row> {
    if OverQuota(env, req, schema, existing) then existing
    else existing + AllOnDisk(Accepted(env, req, schema, existing))
  }

  datatype Response = QuotaExceeded | Inserted(insertErrors: seq<nat>)

  // --- the handler, alone on the table ---

  /** The loop of `insert_rows` over the rows of a request. */
  method TakeRows(env: Env, req: Request, schema: seq<Field>, existing: seq<Row>)
      returns (accepted: seq<Row>, insertErrors: seq<nat>)
    ensures accepted == Taken(env, req, schema, IdsOf(existing), |req.rows|)
    ensures insertErrors == Invalid(env, req, schema, |req.rows|)
  {
    hide ValidateRow;
    var seen := IdsOf(existing);
    accepted, insertErrors := [], [];
    for i := 0 to |req.rows|
      invariant accepted == Taken(env, req, schema, IdsOf(existing), i)
      invariant insertErrors == Invalid(env, req, schema, i)
      invariant seen == IdsOf(existing) + IdsOf(accepted)
    {
      var row := req.rows[i];
      var v := ValidateRow(env, row.cells, schema, req.ignoreUnknownValues);
      if v.errors != [] {
        insertErrors := insertErrors + [i];
        continue;
      }
      if row.insertId != "" {
        if row.insertId in seen { continue; }
        seen := seen + {row.insertId};
      }
      var stored := Row(row.insertId, v.values, env.insertedAt);
      IdsOfAppend(accepted, stored);
      accepted := accepted + [stored];
    }
  }

  lemma IdsOfAppend(rows: seq<Row>, row: Row)
    ensures IdsOf(rows + [row]) == IdsOf(rows) + (if row.insertId == "" then {} else {row.insertId})
  {
    var all := rows + [row];
    forall id
      ensures id in IdsOf(all) <==> id in IdsOf(rows) || (id != "" && id == row.insertId)
    {
      if id in IdsOf(rows) {
        var i :| 0 <= i < |rows| && rows[i].insertId == id;
        assert all[i].insertId == id;
      }
      if id != "" && id == row.insertId { assert all[|rows|].insertId == id; }
    }
  }

  /** `insert_rows`, while it holds the table's lock. */
  method InsertRows(files: TableFiles, env: Env, req: Request, schema: seq<Field>) returns (r: Response)
    requires files.StatsMatch()
    modifies files
    ensures files.buffer == Apply(env, req, schema, old(files.buffer))
    ensures files.StatsMatch()
    ensures r == if OverQuota(env, req, schema, old(files.buffer)) then QuotaExceeded
                 else Inserted(Invalid(env, req, schema, |req.rows|))
    ensures Inserts(env, req, schema, old(files.buffer), files.buffer, r)
  {
    hide Taken, Invalid, Inserts;
    var existing := files.ReadRows();
    ApplyInserts(env, req, schema, existing);
    var accepted, insertErrors := TakeRows(env, req, schema, existing);
    if insertErrors != [] && !req.skipInvalidRows { accepted := []; }
    if accepted != [] {
      if |existing| + |accepted| > env.maxRows { return QuotaExceeded; }
      files.AppendRows(accepted);
      files.RefreshRowStatsIncremental(existing, accepted);
    } else {
      assert existing + AllOnDisk(accepted) == existing;
    }
    return Inserted(insertErrors);
  }

  // --- what a request keeps ---

  /** No two rows carry the same non-empty insert id. */
  predicate DistinctIds(rows: seq<Row>) {
    forall i, j :: 0 <= i < j < |rows| && rows[i].insertId != "" ==> rows[i].insertId != rows[j].insertId
  }

  lemma {:induction false} TakenIsDistinct(env: Env, req: Request, schema: seq<Field>, seen: set<string>, n: nat)
    requires n <= |req.rows|
    ensures DistinctIds(Taken(env, req, schema, seen, n))
    ensures IdsOf(Taken(env, req, schema, seen, n)) !! seen
  {
    hide ValidateRow;
    if n > 0 {
      TakenIsDistinct(env, req, schema, seen, n - 1);
      var before := Taken(env, req, schema, seen, n - 1);
      IdsOfAppend(before, ToStored(env, req.rows[n - 1], schema, req.ignoreUnknownValues));
    }
  }

  lemma AcceptedIsDistinct(env: Env, req: Request, schema: seq<Field>, existing: seq<Row>)
    requires DistinctIds(existing)
    ensures DistinctIds(existing + Accepted(env, req, schema, existing))
  {
    hide Invalid, Taken;
    TakenIsDistinct(env, req, schema, IdsOf(existing), |req.rows|);
    var (a, all) := (Accepted(env, req, schema, existing), existing + Accepted(env, req, schema, existing));
    forall i, j | 0 <= i < j < |all| && all[i].insertId != ""
      ensures all[i].insertId != all[j].insertId
    {
      if i < |existing| <= j {
        assert existing[i].insertId in IdsOf(existing);
        assert a[j - |existing|].insertId != "" ==> a[j - |existing|].insertId in IdsOf(a);
      }
    }
  }

  lemma OnDiskKeepsIds(rows: seq<Row>, added: seq<Row>)
    ensures DistinctIds(rows + AllOnDisk(added)) <==> DistinctIds(rows + added)
    ensures IdsOf(AllOnDisk(added)) == IdsOf(added)
  {
    var (x, y) := (rows + AllOnDisk(added), rows + added);
    assert forall i :: 0 <= i < |x| ==> x[i].insertId == y[i].insertId;
    assert forall i :: 0 <= i < |added| ==> AllOnDisk(added)[i].insertId == added[i].insertId;
  }

  /** A request leaves the rows that are there as they are, keeps non-empty insert ids distinct, and
      never takes the table past its row limit. */
  lemma ApplyKeeps(env: Env, req: Request, schema: seq<Field>, existing: seq<Row>)
    ensures existing <= Apply(env, req, schema, existing)
    ensures DistinctIds(existing) ==> DistinctIds(Apply(env, req, schema, existing))
    ensures |existing| <= env.maxRows ==> |Apply(env, req, schema, existing)| <= env.maxRows
  {
    hide Invalid, Taken;
    if DistinctIds(existing) {
      AcceptedIsDistinct(env, req, schema, existing);
      OnDiskKeepsIds(existing, Accepted(env, req, schema, existing));
    }
  }

  // --- replaying a request ---

  predicate AllRowsHaveIds(req: Request) {
    forall i :: 0 <= i < |req.rows| ==> req.rows[i].insertId != ""
  }

  lemma {:induction false} TakenIdsCoverValid(env: Env, req: Request, schema: seq<Field>, seen: set<string>, n: nat,
      k: nat)
    requires k < n <= |req.rows| && AllRowsHaveIds(req)
    requires IsValid(env, req.rows[k], schema, req.ignoreUnknownValues)
    ensures req.rows[k].insertId in seen + IdsOf(Taken(env, req, schema, seen, n))
  {
    hide IsValid, ValidateRow;
    var before := Taken(env, req, schema, seen, n - 1);
    IdsOfAppend(before, ToStored(env, req.rows[n - 1], schema, req.ignoreUnknownValues));
    if k < n - 1 { TakenIdsCoverValid(env, req, schema, seen, n - 1, k); }
  }

  lemma {:induction false} NothingTakenTwice(env: Env, req: Request, schema: seq<Field>, seen: set<string>, n: nat)
    requires n <= |req.rows|
    requires forall k :: 0 <= k < n && IsValid(env, req.rows[k], schema, req.ignoreUnknownValues) ==>
                           req.rows[k].insertId != "" && req.rows[k].insertId in seen
    ensures Taken(env, req, schema, seen, n) == []
  {
    hide IsValid, ValidateRow;
    if n > 0 { NothingTakenTwice(env, req, schema, seen, n - 1); }
  }

  lemma {:induction false} SameInvalid(env: Env, env': Env, req: Request, schema: seq<Field>, n: nat)
    requires n <= |req.rows| && env' == env.(insertedAt := env'.insertedAt, maxRows := env'.maxRows)
    ensures Invalid(env, req, schema, n) == Invalid(env', req, schema, n)
  {
    hide ValidateRow;
    if n > 0 {
      SameInvalid(env, env', req, schema, n - 1);
      SameVerdict(env, env', req.rows[n - 1].cells, schema, req.ignoreUnknownValues);
    }
  }

  lemma {:induction false} SameVerdict(env: Env, env': Env, cells: seq<Cell>, schema: seq<Field>, ignoreUnknown: bool)
    requires env' == env.(insertedAt := env'.insertedAt, maxRows := env'.maxRows)
    ensures ValidateRow(env, cells, schema, ignoreUnknown) == ValidateRow(env', cells, schema, ignoreUnknown)
  {
    SameCellVerdict(env, env', cells, schema, ignoreUnknown);
    SameMissing(env, env', ValidateCells(env, cells, schema, ignoreUnknown).values, schema);
  }

  lemma {:induction false} SameCellVerdict(env: Env, env': Env, cells: seq<Cell>, schema: seq<Field>,
      ignoreUnknown: bool)
    requires env' == env.(insertedAt := env'.insertedAt, maxRows := env'.maxRows)
    ensures ValidateCells(env, cells, schema, ignoreUnknown) == ValidateCells(env', cells, schema, ignoreUnknown)
  {
    if cells != [] { SameCellVerdict(env, env', cells[..|cells| - 1], schema, ignoreUnknown); }
  }

  lemma {:induction false} SameMissing(env: Env, env': Env, values: seq<Cell>, schema: seq<Field>)
    requires env' == env.(insertedAt := env'.insertedAt, maxRows := env'.maxRows)
    ensures MissingFields(env, values, schema) == MissingFields(env', values, schema)
  {
    if schema != [] { SameMissing(env, env', values, schema[..|schema| - 1]); }
  }

  /** A request whose rows all carry insert ids, once taken, changes nothing when it comes again: not
      at any later time, not under another row limit, and whatever rows were added in between. */
  lemma ReplayChangesNothing(env: Env, env': Env, req: Request, schema: seq<Field>, existing: seq<Row>, later: seq<Row>)
    requires AllRowsHaveIds(req) && env' == env.(insertedAt := env'.insertedAt, maxRows := env'.maxRows)
    requires !OverQuota(env, req, schema, existing) && Apply(env, req, schema, existing) <= later
    ensures Apply(env', req, schema, later) == later
  {
    hide Invalid, Taken, IsValid;
    SameInvalid(env, env', req, schema, |req.rows|);
    if Accepted(env', req, schema, later) != [] {
      var taken := Taken(env, req, schema, IdsOf(existing), |req.rows|);
      forall k | 0 <= k < |req.rows| && IsValid(env', req.rows[k], schema, req.ignoreUnknownValues)
        ensures req.rows[k].insertId in IdsOf(later)
      {
        SameValid(env, env', req.rows[k], schema, req.ignoreUnknownValues);
        TakenIdsCoverValid(env, req, schema, IdsOf(existing), |req.rows|, k);
        OnDiskKeepsIds([], taken);
        IdsOfPrefix(existing, later);
        IdsOfTail(existing, AllOnDisk(taken), later);
      }
      NothingTakenTwice(env', req, schema, IdsOf(later), |req.rows|);
    }
    assert later + AllOnDisk([]) == later;
  }

  lemma SameValid(env: Env, env': Env, row: NewRow, schema: seq<Field>, ignoreUnknown: bool)
    requires env' == env.(insertedAt := env'.insertedAt, maxRows := env'.maxRows)
    ensures IsValid(env, row, schema, ignoreUnknown) == IsValid(env', row, schema, ignoreUnknown)
  {
    SameVerdict(env, env', row.cells, schema, ignoreUnknown);
  }

  lemma IdsOfPrefix(a: seq<Row>, b: seq<Row>)
    requires a <= b
    ensures IdsOf(a) <= IdsOf(b)
  {
    assert forall i :: 0 <= i < |a| ==> b[i].insertId == a[i].insertId;
  }

  lemma IdsOfTail(a: seq<Row>, t: seq<Row>, b: seq<Row>)
    requires a + t <= b
    ensures IdsOf(t) <= IdsOf(b)
  {
    assert forall i :: 0 <= i < |t| ==> b[|a| + i].insertId == t[i].insertId;
  }

  /** Sent twice in a row, also when the row limit refused it. */
  lemma ReplayAtOnce(env: Env, env': Env, req: Request, schema: seq<Field>, existing: seq<Row>)
    requires AllRowsHaveIds(req) && env' == env.(insertedAt := env'.insertedAt)
    ensures var once := Apply(env, req, schema, existing); Apply(env', req, schema, once) == once
  {
    hide Invalid;
    if OverQuota(env, req, schema, existing) {
      SameInvalid(env, env', req, schema, |req.rows|);
      SameLength(env, env', req, schema, IdsOf(existing), |req.rows|);
    } else {
      ReplayChangesNothing(env, env', req, schema, existing, Apply(env, req, schema, existing));
    }
  }

  lemma {:induction false} SameLength(env: Env, env': Env, req: Request, schema: seq<Field>, seen: set<string>, n: nat)
    requires n <= |req.rows| && env' == env.(insertedAt := env'.insertedAt)
    ensures var (a, b) := (Taken(env, req, schema, seen, n), Taken(env', req, schema, seen, n));
            |a| == |b| && IdsOf(a) == IdsOf(b)
  {
    hide ValidateRow, IsValid;
    if n > 0 {
      var row := req.rows[n - 1];
      SameLength(env, env', req, schema, seen, n - 1);
      SameValid(env, env', row, schema, req.ignoreUnknownValues);
      IdsOfAppend(Taken(env, req, schema, seen, n - 1), ToStored(env, row, schema, req.ignoreUnknownValues));
      IdsOfAppend(Taken(env', req, schema, seen, n - 1), ToStored(env', row, schema, req.ignoreUnknownValues));
    }
  }

  // --- what validation lets in ---

  /** A cell of a known field that passed the field's check. */
  predicate CellFits(env: Env, c: Cell, schema: seq<Field>) {
    FieldNamed(schema, c.key).Some? && env.valueFits(c.raw, FieldNamed(schema, c.key).value)
  }

  /** Such a cell, or one of no field where those may be ignored. */
  predicate CellPasses(env: Env, c: Cell, schema: seq<Field>, ignoreUnknown: bool) {
    CellFits(env, c, schema) || (ignoreUnknown && FieldNamed(schema, c.key).None?)
  }

  lemma OneMoreCell(env: Env, cells: seq<Cell>, schema: seq<Field>, ignoreUnknown: bool)
    requires cells != []
    ensures var (c, before) := (cells[|cells| - 1], ValidateCells(env, cells[..|cells| - 1], schema, ignoreUnknown));
            var v := ValidateCells(env, cells, schema, ignoreUnknown);
            && (v.errors == [] <==> before.errors == [] && CellPasses(env, c, schema, ignoreUnknown))
            && v.values == if CellFits(env, c, schema) then before.values + [c] else before.values
  {
    hide FieldNamed;
  }

  lemma {:induction false} ValidCellsFit(env: Env, cells: seq<Cell>, schema: seq<Field>, ignoreUnknown: bool)
    ensures var v := ValidateCells(env, cells, schema, ignoreUnknown);
            && (forall i :: 0 <= i < |v.values| ==> CellFits(env, v.values[i], schema))
            && (v.errors == [] && !ignoreUnknown ==> v.values == cells)
  {
    if cells != [] {
      var n := |cells| - 1;
      OneMoreCell(env, cells, schema, ignoreUnknown);
      ValidCellsFit(env, cells[..n], schema, ignoreUnknown);
      hide *;
      assert cells == cells[..n] + [cells[n]];
      CellFitsPasses(env, cells[n], schema);
    }
  }

  lemma CellFitsPasses(env: Env, c: Cell, schema: seq<Field>)
    ensures CellPasses(env, c, schema, false) == CellFits(env, c, schema)
  {
  }

  lemma {:induction false} NoErrorsMeans(env: Env, cells: seq<Cell>, schema: seq<Field>, ignoreUnknown: bool)
    ensures ValidateCells(env, cells, schema, ignoreUnknown).errors == []
            <==> forall i :: 0 <= i < |cells| ==> CellPasses(env, cells[i], schema, ignoreUnknown)
  {
    if cells != [] {
      var n := |cells| - 1;
      OneMoreCell(env, cells, schema, ignoreUnknown);
      NoErrorsMeans(env, cells[..n], schema, ignoreUnknown);
      hide *;
      assert forall i :: 0 <= i < n ==> cells[..n][i] == cells[i];
    }
  }

  predicate RequiredFilled(env: Env, values: seq<Cell>, f: Field) {
    RustStr.EqIgnoreAsciiCase(f.mode, "REQUIRED") ==> HasValue(env, values, f.name)
  }

  lemma {:induction false} MissingMeans(env: Env, values: seq<Cell>, schema: seq<Field>)
    ensures MissingFields(env, values, schema) == []
            <==> forall i :: 0 <= i < |schema| ==> RequiredFilled(env, values, schema[i])
  {
    hide HasValue, RustStr.EqIgnoreAsciiCase;
    if schema != [] {
      var n := |schema| - 1;
      MissingMeans(env, values, schema[..n]);
      assert schema == schema[..n] + [schema[n]];
    }
  }

  /** A row is valid exactly when each of its cells fits its field, or is of no field and may be ignored,
      and every required field is filled; what is stored then fits, and is the whole row if nothing is ignored. */
  lemma RowIsValidExactly(env: Env, row: NewRow, schema: seq<Field>, ignoreUnknown: bool)
    ensures var values := ValidateCells(env, row.cells, schema, ignoreUnknown).values;
            IsValid(env, row, schema, ignoreUnknown) <==>
            && (forall i :: 0 <= i < |row.cells| ==> CellPasses(env, row.cells[i], schema, ignoreUnknown))
            && (forall i :: 0 <= i < |schema| ==> RequiredFilled(env, values, schema[i]))
    ensures var stored := ToStored(env, row, schema, ignoreUnknown).cells;
            && (forall i :: 0 <= i < |stored| ==> CellFits(env, stored[i], schema))
            && (IsValid(env, row, schema, ignoreUnknown) && !ignoreUnknown ==> stored == row.cells)
  {
    hide ValidateCells, MissingFields, CellFits, CellPasses, RequiredFilled;
    var v := ValidateCells(env, row.cells, schema, ignoreUnknown);
    NoErrorsMeans(env, row.cells, schema, ignoreUnknown);
    ValidCellsFit(env, row.cells, schema, ignoreUnknown);
    MissingMeans(env, v.values, schema);
  }

  // --- what one request does, said row by row ---

  /** Each cell fits the field of its name, or has no field where that may be ignored; and each required field
      has a cell that is not null. */
  ghost predicate RowIsRight(env: Env, row: NewRow, schema: seq<Field>, ignoreUnknown: bool) {
    && (forall i :: 0 <= i < |row.cells| ==>
          var field := FieldNamed(schema, row.cells[i].key);
          if field.Some? then env.valueFits(row.cells[i].raw, field.value) else ignoreUnknown)
    && (forall f :: f in schema && RustStr.EqIgnoreAsciiCase(f.mode, "REQUIRED") ==>
          exists i :: 0 <= i < |row.cells| && row.cells[i].key == f.name && !env.isNull(row.cells[i].raw))
  }

  ghost predicate IsRight(env: Env, req: Request, schema: seq<Field>, k: nat)
    requires k < |req.rows|
  {
    RowIsRight(env, req.rows[k], schema, req.ignoreUnknownValues)
  }

  /** A right row without an id, or with one that is neither in the table nor on an earlier right row. */
  ghost predicate IsNew(env: Env, req: Request, schema: seq<Field>, before: seq<Row>, k: nat)
    requires k < |req.rows|
  {
    var id := req.rows[k].insertId;
    && IsRight(env, req, schema, k)
    && (id == "" || (&& (forall i :: 0 <= i < |before| ==> before[i].insertId != id)
                     && (forall j: nat :: j < k && IsRight(env, req, schema, j) ==> req.rows[j].insertId != id)))
  }

  /** The cells whose names are in the schema, in stored form. */
  function Kept(cells: seq<Cell>, schema: seq<Field>): seq<Cell> {
    if cells == [] then []
    else (if FieldNamed(schema, cells[0].key).Some? then [Cell(cells[0].key, WireJson.Stored(cells[0].raw))] else [])
         + Kept(cells[1..], schema)
  }

  /** Positions below `n` in increasing order. */
  predicate Increasing(at: seq<nat>, n: nat) {
    && (forall k :: 0 <= k < |at| ==> at[k] < n)
    && (forall k, l :: 0 <= k < l < |at| ==> at[k] < at[l])
  }

  /** Exactly the positions of the new rows, in order; and exactly those of the rows that are not right. */
  ghost predicate AreNew(env: Env, req: Request, schema: seq<Field>, before: seq<Row>, at: seq<nat>, n: nat)
    requires n <= |req.rows|
  {
    Increasing(at, n) && forall k: nat :: k < n ==> (k in at <==> IsNew(env, req, schema, before, k))
  }

  ghost predicate AreWrong(env: Env, req: Request, schema: seq<Field>, at: seq<nat>, n: nat)
    requires n <= |req.rows|
  {
    Increasing(at, n) && forall k: nat :: k < n ==> (k in at <==> !IsRight(env, req, schema, k))
  }

  /** The rows at these positions as they are stored. */
  function StoredAt(env: Env, req: Request, schema: seq<Field>, at: seq<nat>): (r: seq<Row>)
    requires Increasing(at, |req.rows|)
    ensures |r| == |at|
    ensures forall k :: 0 <= k < |r| ==>
              r[k] == Row(req.rows[at[k]].insertId, Kept(req.rows[at[k]].cells, schema), env.insertedAt)
  {
    seq(|at|, k requires 0 <= k < |at| =>
      Row(req.rows[at[k]].insertId, Kept(req.rows[at[k]].cells, schema), env.insertedAt))
  }

  /** A wrong row keeps all out unless those are to be skipped; the new rows are added as one, or none where
      they would pass the limit. */
  ghost predicate Inserts(env: Env, req: Request, schema: seq<Field>, before: seq<Row>, after: seq<Row>, r: Response) {
    exists added: seq<nat>, wrong: seq<nat> ::
      && AreNew(env, req, schema, before, added, |req.rows|) && AreWrong(env, req, schema, wrong, |req.rows|)
      && if wrong != [] && !req.skipInvalidRows then after == before && r == Inserted(wrong)
         else if added != [] && |before| + |added| > env.maxRows then after == before && r == QuotaExceeded
         else after == before + StoredAt(env, req, schema, added) && r == Inserted(wrong)
  }

  lemma {:induction false} KeptMore(a: seq<Cell>, b: seq<Cell>, schema: seq<Field>)
    ensures Kept(a + b, schema) == Kept(a, schema) + Kept(b, schema)
  {
    hide FieldNamed;
    if a == [] {
      assert a + b == b;
    } else {
      assert (a + b)[1..] == a[1..] + b;
      KeptMore(a[1..], b, schema);
    }
  }

  lemma StoredMore(cells: seq<Cell>, c: Cell)
    ensures MapCells(cells + [c], WireJson.Stored)
            == MapCells(cells, WireJson.Stored) + [Cell(c.key, WireJson.Stored(c.raw))]
    ensures MapCells([], WireJson.Stored) == []
  {
    hide WireJson.Stored;
  }

  lemma KeptOne(c: Cell, schema: seq<Field>)
    ensures Kept([c], schema)
            == if FieldNamed(schema, c.key).Some? then [Cell(c.key, WireJson.Stored(c.raw))] else []
  {
    hide FieldNamed;
    assert [c][1..] == [];
  }

  lemma NoCellsAreKept(env: Env, schema: seq<Field>, ignoreUnknown: bool)
    ensures MapCells(ValidateCells(env, [], schema, ignoreUnknown).values, WireJson.Stored) == Kept([], schema)
  {
    hide WireJson.Stored, FieldNamed;
  }

  /** What validation leaves of a row without errors: the cells with a field, and of each name what was there. */
  lemma {:induction false} ValidCellsAreKept(env: Env, cells: seq<Cell>, schema: seq<Field>, ignoreUnknown: bool)
    requires ValidateCells(env, cells, schema, ignoreUnknown).errors == []
    ensures MapCells(ValidateCells(env, cells, schema, ignoreUnknown).values, WireJson.Stored) == Kept(cells, schema)
  {
    hide ValidateCells, FieldNamed, Kept, MapCells, WireJson.Stored;
    if cells == [] {
      NoCellsAreKept(env, schema, ignoreUnknown);
    } else {
      var (n, c) := (|cells| - 1, cells[|cells| - 1]);
      OneMoreCell(env, cells, schema, ignoreUnknown);
      KeptMore(cells[..n], [c], schema);
      KeptOne(c, schema);
      assert cells == cells[..n] + [c];
      StoredMore(ValidateCells(env, cells[..n], schema, ignoreUnknown).values, c);
      ValidCellsAreKept(env, cells[..n], schema, ignoreUnknown);
    }
  }

  lemma {:induction false} ValuesAreThere(env: Env, cells: seq<Cell>, schema: seq<Field>, ignoreUnknown: bool,
      name: string)
    requires ValidateCells(env, cells, schema, ignoreUnknown).errors == [] && FieldNamed(schema, name).Some?
    ensures HasValue(env, ValidateCells(env, cells, schema, ignoreUnknown).values, name)
            <==> exists i :: 0 <= i < |cells| && cells[i].key == name && !env.isNull(cells[i].raw)
  {
    if cells != [] {
      var (n, c) := (|cells| - 1, cells[|cells| - 1]);
      OneMoreCell(env, cells, schema, ignoreUnknown);
      hide ValidateCells, FieldNamed;
      ValuesAreThere(env, cells[..n], schema, ignoreUnknown, name);
      var (v, w) := (ValidateCells(env, cells[..n], schema, ignoreUnknown).values,
          ValidateCells(env, cells, schema, ignoreUnknown).values);
      HasValueMore(env, v, c, name);
      assert forall i :: 0 <= i < n ==> cells[..n][i] == cells[i];
    }
  }

  lemma HasValueMore(env: Env, values: seq<Cell>, c: Cell, name: string)
    ensures HasValue(env, values + [c], name)
            <==> HasValue(env, values, name) || (c.key == name && !env.isNull(c.raw))
  {
    var all := values + [c];
    assert forall i :: 0 <= i < |values| ==> all[i] == values[i];
    assert all[|values|] == c;
  }

  lemma {:induction false} NamesAreNamed(schema: seq<Field>, f: Field)
    requires f in schema
    ensures FieldNamed(schema, f.name).Some?
  {
    var n := |schema| - 1;
    if schema[n] != f {
      assert schema == schema[..n] + [schema[n]];
      NamesAreNamed(schema[..n], f);
    }
  }

  lemma RequiredAreThere(env: Env, cells: seq<Cell>, schema: seq<Field>, ignoreUnknown: bool)
    requires ValidateCells(env, cells, schema, ignoreUnknown).errors == []
    ensures var values := ValidateCells(env, cells, schema, ignoreUnknown).values;
            (forall k :: 0 <= k < |schema| ==> RequiredFilled(env, values, schema[k]))
            <==> (forall f :: f in schema && RustStr.EqIgnoreAsciiCase(f.mode, "REQUIRED") ==>
                    exists i :: 0 <= i < |cells| && cells[i].key == f.name && !env.isNull(cells[i].raw))
  {
    hide ValidateCells, FieldNamed, HasValue, RustStr.EqIgnoreAsciiCase;
    forall f | f in schema
      ensures HasValue(env, ValidateCells(env, cells, schema, ignoreUnknown).values, f.name)
              <==> exists i :: 0 <= i < |cells| && cells[i].key == f.name && !env.isNull(cells[i].raw)
    {
      NamesAreNamed(schema, f);
      ValuesAreThere(env, cells, schema, ignoreUnknown, f.name);
    }
  }

  lemma CellsPass(env: Env, cells: seq<Cell>, schema: seq<Field>, ignoreUnknown: bool)
    ensures (forall i :: 0 <= i < |cells| ==> CellPasses(env, cells[i], schema, ignoreUnknown))
            <==> forall i :: 0 <= i < |cells| ==>
                   var field := FieldNamed(schema, cells[i].key);
                   if field.Some? then env.valueFits(cells[i].raw, field.value) else ignoreUnknown
  {
    hide FieldNamed;
  }

  lemma RightIsValid(env: Env, row: NewRow, schema: seq<Field>, ignoreUnknown: bool)
    ensures IsValid(env, row, schema, ignoreUnknown) <==> RowIsRight(env, row, schema, ignoreUnknown)
    ensures IsValid(env, row, schema, ignoreUnknown) ==>
              OnDisk(ToStored(env, row, schema, ignoreUnknown))
              == Row(row.insertId, Kept(row.cells, schema), env.insertedAt)
  {
    hide ValidateCells, MissingFields, CellPasses, RequiredFilled, FieldNamed, Kept, MapCells;
    NoErrorsMeans(env, row.cells, schema, ignoreUnknown);
    CellsPass(env, row.cells, schema, ignoreUnknown);
    MissingMeans(env, ValidateCells(env, row.cells, schema, ignoreUnknown).values, schema);
    if ValidateCells(env, row.cells, schema, ignoreUnknown).errors == [] {
      RequiredAreThere(env, row.cells, schema, ignoreUnknown);
      ValidCellsAreKept(env, row.cells, schema, ignoreUnknown);
    }
  }

  lemma {:induction false} InvalidAreWrong(env: Env, req: Request, schema: seq<Field>, n: nat)
    requires n <= |req.rows|
    ensures AreWrong(env, req, schema, Invalid(env, req, schema, n), n)
  {
    hide IsValid, RowIsRight;
    if n > 0 {
      InvalidAreWrong(env, req, schema, n - 1);
      RightIsValid(env, req.rows[n - 1], schema, req.ignoreUnknownValues);
    }
  }

  /** The ids seen so far are those of the table and of the right rows. */
  lemma {:induction false} SeenAreRight(env: Env, req: Request, schema: seq<Field>, seen: set<string>, n: nat,
      id: string)
    requires n <= |req.rows| && id != ""
    ensures id in seen + IdsOf(Taken(env, req, schema, seen, n))
            <==> id in seen || exists j: nat :: j < n && IsRight(env, req, schema, j) && req.rows[j].insertId == id
  {
    hide IsValid, RowIsRight, ToStored;
    if n > 0 {
      SeenAreRight(env, req, schema, seen, n - 1, id);
      var (row, before) := (req.rows[n - 1], Taken(env, req, schema, seen, n - 1));
      RightIsValid(env, row, schema, req.ignoreUnknownValues);
      StoredHasId(env, row, schema, req.ignoreUnknownValues);
      IdsOfAppend(before, ToStored(env, row, schema, req.ignoreUnknownValues));
    }
  }

  lemma StoredHasId(env: Env, row: NewRow, schema: seq<Field>, ignoreUnknown: bool)
    ensures ToStored(env, row, schema, ignoreUnknown).insertId == row.insertId
  {
    hide ValidateRow;
  }

  lemma TakenIsNew(env: Env, req: Request, schema: seq<Field>, before: seq<Row>, k: nat)
    requires k < |req.rows|
    ensures IsNew(env, req, schema, before, k)
            <==> && IsValid(env, req.rows[k], schema, req.ignoreUnknownValues)
                 && (req.rows[k].insertId == ""
                     || req.rows[k].insertId !in IdsOf(before) + IdsOf(Taken(env, req, schema, IdsOf(before), k)))
  {
    hide IsValid, RowIsRight, Taken;
    RightIsValid(env, req.rows[k], schema, req.ignoreUnknownValues);
    if req.rows[k].insertId != "" { SeenAreRight(env, req, schema, IdsOf(before), k, req.rows[k].insertId); }
  }

  lemma OneMorePosition(env: Env, req: Request, schema: seq<Field>, before: seq<Row>, at: seq<nat>, n: nat)
    requires n < |req.rows| && AreNew(env, req, schema, before, at, n)
    ensures AreNew(env, req, schema, before, if IsNew(env, req, schema, before, n) then at + [n] else at, n + 1)
  {
    hide IsNew;
  }

  lemma StoredMorePositions(env: Env, req: Request, schema: seq<Field>, at: seq<nat>, n: nat)
    requires n < |req.rows| && Increasing(at, n)
    ensures Increasing(at, |req.rows|) && Increasing(at + [n], |req.rows|)
    ensures StoredAt(env, req, schema, at + [n])
            == StoredAt(env, req, schema, at)
               + [Row(req.rows[n].insertId, Kept(req.rows[n].cells, schema), env.insertedAt)]
  {
    hide Kept;
  }

  lemma OnDiskMore(rows: seq<Row>, row: Row)
    ensures AllOnDisk(rows + [row]) == AllOnDisk(rows) + [OnDisk(row)]
  {
    hide OnDisk;
  }

  lemma TakenStep(env: Env, req: Request, schema: seq<Field>, before: seq<Row>, k: nat)
    requires k < |req.rows|
    ensures AllOnDisk(Taken(env, req, schema, IdsOf(before), k + 1))
            == AllOnDisk(Taken(env, req, schema, IdsOf(before), k))
               + if IsNew(env, req, schema, before, k)
                 then [Row(req.rows[k].insertId, Kept(req.rows[k].cells, schema), env.insertedAt)] else []
  {
    hide IsValid, IsNew, ToStored, OnDisk, IdsOf, Kept, AllOnDisk;
    TakenIsNew(env, req, schema, before, k);
    RightIsValid(env, req.rows[k], schema, req.ignoreUnknownValues);
    OnDiskMore(Taken(env, req, schema, IdsOf(before), k),
               ToStored(env, req.rows[k], schema, req.ignoreUnknownValues));
  }

  lemma NothingTaken(env: Env, req: Request, schema: seq<Field>, before: seq<Row>)
    ensures AllOnDisk(Taken(env, req, schema, IdsOf(before), 0)) == StoredAt(env, req, schema, [])
    ensures AreNew(env, req, schema, before, [], 0)
  {
  }

  lemma {:induction false} TakenAreNew(env: Env, req: Request, schema: seq<Field>, before: seq<Row>, n: nat)
      returns (at: seq<nat>)
    requires n <= |req.rows|
    ensures AreNew(env, req, schema, before, at, n) && Increasing(at, |req.rows|)
    ensures AllOnDisk(Taken(env, req, schema, IdsOf(before), n)) == StoredAt(env, req, schema, at)
  {
    hide *;
    if n == 0 {
      at := [];
      NothingTaken(env, req, schema, before);
      NoPositions(|req.rows|);
    } else {
      var earlier := TakenAreNew(env, req, schema, before, n - 1);
      NewAreIncreasing(env, req, schema, before, earlier, n - 1);
      TakenStep(env, req, schema, before, n - 1);
      OneMorePosition(env, req, schema, before, earlier, n - 1);
      StoredMorePositions(env, req, schema, earlier, n - 1);
      at := if IsNew(env, req, schema, before, n - 1) then earlier + [n - 1] else earlier;
    }
  }

  lemma NoPositions(n: nat)
    ensures Increasing([], n)
  {
  }

  lemma NewAreIncreasing(env: Env, req: Request, schema: seq<Field>, before: seq<Row>, at: seq<nat>, n: nat)
    requires n <= |req.rows| && AreNew(env, req, schema, before, at, n)
    ensures Increasing(at, n)
  {
    hide IsNew;
  }

  /** One request does what `Inserts` says. */
  lemma ApplyInserts(env: Env, req: Request, schema: seq<Field>, existing: seq<Row>)
    ensures Inserts(env, req, schema, existing, Apply(env, req, schema, existing),
                    if OverQuota(env, req, schema, existing) then QuotaExceeded
                    else Inserted(Invalid(env, req, schema, |req.rows|)))
  {
    hide AreNew, AreWrong, Taken, Invalid, IdsOf;
    var n := |req.rows|;
    InvalidAreWrong(env, req, schema, n);
    var at := TakenAreNew(env, req, schema, existing, n);
    assert AllOnDisk([]) == [] && existing + [] == existing;
    assert |Taken(env, req, schema, IdsOf(existing), n)| == |at|;
  }
}
