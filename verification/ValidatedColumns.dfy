/** What `insertAll` lets into an INTEGER column is what the evaluation of queries needs there. */
module ValidatedColumns {
  import opened Common
  import opened WireJson
  import opened RowStore
  import opened TableSchemas
  import opened InsertAll
  import opened InsertAllRuns
  import opened JsonDecoding
  import opened SqlOrder
  import JsonText

  /** `isJson`: the text is one JSON value without space around it, as a `RawValue` holds it.  Compacting
      and escaping such a text change neither its value nor what it is as a string. */
  ghost predicate KeepsValues(d: Decoder, isJson: Bytes -> bool) {
    forall raw :: isJson(raw) ==>
      && raw != [] && !IsSpace(raw[0]) && !IsSpace(raw[|raw| - 1]) && d.first(raw).Some?
      && d.first(Stored(raw)) == d.first(raw) && d.asString(Stored(raw)) == d.asString(raw)
  }

  /** The handler's check of a cell is `validate_field_value`. */
  ghost predicate Checks(env: Env, d: Decoder) {
    forall raw, field :: env.valueFits(raw, field) ==> FitsField(d, raw, field)
  }

  predicate CellsAreJson(isJson: Bytes -> bool, cells: seq<Cell>) {
    forall i :: 0 <= i < |cells| ==> isJson(cells[i].raw)
  }

  predicate RequestIsJson(isJson: Bytes -> bool, req: Request) {
    forall k :: 0 <= k < |req.rows| ==> CellsAreJson(isJson, req.rows[k].cells)
  }

  // --- a nested record is a row ---

  lemma {:induction false} NamedFieldIsThere(schema: seq<Field>, name: string) returns (k: nat)
    requires FieldNamed(schema, name).Some?
    ensures k < |schema| && schema[k] == FieldNamed(schema, name).value
  {
    var n := |schema| - 1;
    if schema[n].name == name {
      k := n;
    } else {
      k := NamedFieldIsThere(schema[..n], name);
    }
  }

  lemma RecordCellsFit(d: Decoder, env: Env, members: seq<Cell>, fields: seq<Field>)
    requires forall raw, field :: env.valueFits(raw, field) == FitsField(d, raw, field)
    ensures (forall i :: 0 <= i < |members| ==> CellPasses(env, members[i], fields, false))
            <==> && (forall i :: 0 <= i < |members| ==> FieldNamed(fields, members[i].key).Some?)
                 && (forall i, k :: 0 <= i < |members| && 0 <= k < |fields|
                       && FieldNamed(fields, members[i].key) == Some(fields[k])
                       ==> FitsField(d, members[i].raw, fields[k]))
  {
    hide FitsField, FieldNamed;
    forall i | 0 <= i < |members| && FieldNamed(fields, members[i].key).Some?
      ensures exists k :: 0 <= k < |fields| && FieldNamed(fields, members[i].key) == Some(fields[k])
    {
      var k := NamedFieldIsThere(fields, members[i].key);
    }
  }

  /** A nested record is accepted exactly when its members, as a row of their own, are valid for the record's
      fields with nothing ignored. */
  lemma RecordIsAValidRow(d: Decoder, env: Env, id: string, members: seq<Cell>, fields: seq<Field>)
    requires forall raw, field :: env.valueFits(raw, field) == FitsField(d, raw, field)
    requires forall raw :: env.isNull(raw) == IsJsonNull(raw)
    ensures FitsRecord(d, members, fields) <==> IsValid(env, NewRow(id, members), fields, false)
  {
    hide FitsField, FieldNamed, IsJsonNull, CellPasses, CellFits, ValidateCells, IsValid;
    var row := NewRow(id, members);
    RowIsValidExactly(env, row, fields, false);
    RecordCellsFit(d, env, members, fields);
    ValidCellsFit(env, members, fields, false);
    NoErrorsMeans(env, members, fields, false);
  }

  // --- one cell ---

  lemma NullIsStoredAsIs(raw: Bytes)
    requires IsJsonNull(raw) && raw != [] && !IsSpace(raw[0]) && !IsSpace(raw[|raw| - 1])
    ensures Stored(raw) == raw
  {
    assert TrimSpace(raw) == raw;
    JsonText.PlainIsClosed(raw);
    TightIsCompact(Outside, raw);
    NothingToEscape(raw);
  }

  lemma StoredIntegerFits(d: Decoder, isJson: Bytes -> bool, raw: Bytes, field: Field)
    requires Lawful(d) && KeepsValues(d, isJson) && isJson(raw)
    requires IsIntegerColumn(field) && FitsField(d, raw, field)
    ensures d.first(Stored(raw)).Some? && FitsField(d, Stored(raw), field)
  {
    hide IsJsonNull, Stored;
    IntegerCells(d, raw, field);
    if IsJsonNull(raw) {
      NullIsStoredAsIs(raw);
    } else {
      IntegersShow(d, raw);
    }
  }

  // --- one request ---

  /** The rows' cells of the column, if there, are JSON that fits it; before they are stored. */
  predicate Fitting(d: Decoder, isJson: Bytes -> bool, row: Row, field: Field) {
    var cell := Get(row.cells, field.name);
    cell.Some? ==> isJson(cell.value) && FitsField(d, cell.value, field)
  }

  lemma {:induction false} GetFinds(cells: seq<Cell>, name: string) returns (i: nat)
    requires Get(cells, name).Some?
    ensures i < |cells| && cells[i] == Cell(name, Get(cells, name).value)
  {
    if cells[0].key == name {
      i := 0;
    } else {
      i := GetFinds(cells[1..], name);
      i := i + 1;
    }
  }

  lemma {:induction false} GetStored(cells: seq<Cell>, name: string)
    ensures Get(MapCells(cells, Stored), name)
            == if Get(cells, name).Some? then Some(Stored(Get(cells, name).value)) else None
  {
    hide Stored;
    if cells != [] {
      assert MapCells(cells, Stored)[1..] == MapCells(cells[1..], Stored);
      GetStored(cells[1..], name);
    }
  }

  lemma {:induction false} ValidCellsAreJson(isJson: Bytes -> bool, env: Env, cells: seq<Cell>, schema: seq<Field>,
      ignoreUnknown: bool)
    requires CellsAreJson(isJson, cells)
    ensures CellsAreJson(isJson, ValidateCells(env, cells, schema, ignoreUnknown).values)
  {
    if cells != [] {
      var n := |cells| - 1;
      OneMoreCell(env, cells, schema, ignoreUnknown);
      hide ValidateCells, CellFits, CellPasses;
      ValidCellsAreJson(isJson, env, cells[..n], schema, ignoreUnknown);
    }
  }

  lemma TakenRowFits(d: Decoder, isJson: Bytes -> bool, env: Env, row: NewRow, schema: seq<Field>,
      ignoreUnknown: bool, field: Field)
    requires Checks(env, d) && CellsAreJson(isJson, row.cells) && FieldNamed(schema, field.name) == Some(field)
    ensures Fitting(d, isJson, ToStored(env, row, schema, ignoreUnknown), field)
  {
    hide ValidateCells, FitsField, MissingFields;
    var cells := ToStored(env, row, schema, ignoreUnknown).cells;
    ValidCellsAreJson(isJson, env, row.cells, schema, ignoreUnknown);
    ValidCellsFit(env, row.cells, schema, ignoreUnknown);
    if Get(cells, field.name).Some? {
      var i := GetFinds(cells, field.name);
      assert CellFits(env, cells[i], schema);
    }
  }

  lemma {:induction false} TakenRowsFit(d: Decoder, isJson: Bytes -> bool, env: Env, req: Request, schema: seq<Field>,
      seen: set<string>, n: nat, field: Field)
    requires Checks(env, d) && RequestIsJson(isJson, req) && FieldNamed(schema, field.name) == Some(field)
    requires n <= |req.rows|
    ensures forall r :: r in Taken(env, req, schema, seen, n) ==> Fitting(d, isJson, r, field)
  {
    hide Checks, Fitting, ToStored, CellsAreJson, IsValid;
    if n > 0 {
      TakenRowsFit(d, isJson, env, req, schema, seen, n - 1, field);
      TakenRowFits(d, isJson, env, req.rows[n - 1], schema, req.ignoreUnknownValues, field);
    }
  }

  /** One request on an INTEGER column of the schema: if the rows there are validated, so are the rows after it. */
  lemma ApplyKeepsValidated(d: Decoder, isJson: Bytes -> bool, env: Env, req: Request, schema: seq<Field>,
      existing: seq<Row>, field: Field)
    requires Lawful(d) && KeepsValues(d, isJson) && Checks(env, d) && RequestIsJson(isJson, req)
    requires FieldNamed(schema, field.name) == Some(field) && IsIntegerColumn(field) && Validated(d, existing, field)
    ensures Validated(d, Apply(env, req, schema, existing), field)
  {
    hide Lawful, KeepsValues, Checks, Taken, Invalid, RequestIsJson, IsIntegerColumn, Stored, FitsField;
    var (accepted, rows) := (Accepted(env, req, schema, existing), Apply(env, req, schema, existing));
    TakenRowsFit(d, isJson, env, req, schema, IdsOf(existing), |req.rows|, field);
    forall i | 0 <= i < |rows| && Get(rows[i].cells, field.name).Some?
      ensures var raw := Get(rows[i].cells, field.name).value; d.first(raw).Some? && FitsField(d, raw, field)
    {
      if i < |existing| {
        assert rows[i] == existing[i];
      } else {
        var row := accepted[i - |existing|];
        assert row in accepted && Fitting(d, isJson, row, field);
        GetStored(row.cells, field.name);
        StoredIntegerFits(d, isJson, Get(row.cells, field.name).value, field);
      }
    }
  }

  // --- every table ---

  ghost predicate HandlersFit(d: Decoder, isJson: Bytes -> bool, handlers: seq<Handler>) {
    forall h :: 0 <= h < |handlers| ==> Checks(handlers[h].env, d) && RequestIsJson(isJson, handlers[h].req)
  }

  lemma {:induction false} SerialKeepsValidated(d: Decoder, isJson: Bytes -> bool, rows: seq<Row>,
      handlers: seq<Handler>, schema: seq<Field>, log: seq<nat>, field: Field)
    requires Lawful(d) && KeepsValues(d, isJson) && HandlersFit(d, isJson, handlers)
    requires FieldNamed(schema, field.name) == Some(field) && IsIntegerColumn(field) && Validated(d, rows, field)
    requires forall i :: 0 <= i < |log| ==> log[i] < |handlers|
    ensures Validated(d, Serial(rows, handlers, schema, log), field)
  {
    hide Lawful, KeepsValues, Checks, RequestIsJson, IsIntegerColumn, Validated, Apply, FieldNamed;
    if log != [] {
      var n := |log| - 1;
      SerialKeepsValidated(d, isJson, rows, handlers, schema, log[..n], field);
      var h := handlers[log[n]];
      ApplyKeepsValidated(d, isJson, h.env, h.req, schema, Serial(rows, handlers, schema, log[..n]), field);
    }
  }

  lemma PrefixIsValidated(d: Decoder, a: seq<Row>, b: seq<Row>, field: Field)
    requires a <= b && Validated(d, b, field)
    ensures Validated(d, a, field)
  {
    assert forall i :: 0 <= i < |a| ==> a[i] == b[i];
  }

  /** In every state of every run of `insertAll` requests, an INTEGER column that was validated at the start
      (as it is in an empty table) is validated, also while a request is at work: what ORDER BY, MIN and MAX
      do on such columns they do on the table. */
  lemma EveryTableIsValidated(d: Decoder, isJson: Bytes -> bool, run: seq<State>, maxRows: nat, i: nat, field: Field)
    requires Lawful(d) && KeepsValues(d, isJson) && IsRun(run, maxRows) && i < |run|
    requires HandlersFit(d, isJson, run[0].handlers) && Validated(d, run[0].rows, field)
    requires FieldNamed(run[0].meta.schema, field.name) == Some(field) && IsIntegerColumn(field)
    ensures Validated(d, run[i].rows, field)
  {
    hide Lawful, KeepsValues, Checks, RequestIsJson, IsIntegerColumn, Validated, Apply, FieldNamed, Serial, StepOf,
      HolderFits;
    RunKeepsTheInvariant(run, maxRows, i);
    var (s, first) := (run[i], run[0]);
    var schema := first.meta.schema;
    SerialKeepsValidated(d, isJson, first.rows, first.handlers, schema, s.log, field);
    if s.lock.Some? {
      var next := RowsAreBetweenSerialResults(s, first);
      var me := first.handlers[s.lock.value];
      ApplyKeepsValidated(d, isJson, me.env, me.req, schema, Serial(first.rows, first.handlers, schema, s.log), field);
      PrefixIsValidated(d, s.rows, next, field);
    }
  }
}
