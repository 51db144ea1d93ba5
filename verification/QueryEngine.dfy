/** The query engine over a catalog of tables and views: dry runs, execution, destination tables, jobs. */
module QueryEngine {
  import opened Common
  import opened JsonDecoding
  import opened JsonText
  import opened RowStore
  import opened SqlAst
  import opened SqlEval
  import opened TableSchemas
  import RustStr
  import SqlParser
  import Text
  import WireJson

  datatype View = View(query: string, useLegacySql: bool)

  datatype Table = Table(kind: string, schema: seq<Field>, view: Option<View>, numRows: nat, numBytes: nat)

  /** `rows`: the row buffers that exist as files; a table without one has no rows. */
  datatype Catalog = Catalog(tables: map<TableRef, Table>, rows: map<TableRef, seq<Row>>)

  function RowsOf(cat: Catalog, t: TableRef): seq<Row> {
    if t in cat.rows then cat.rows[t] else []
  }

  // --- result rows as stored rows ---

  /** `BTreeMap::insert`: cells stay in key order, the last value of a key wins. */
  function PutCell(cells: seq<Cell>, c: Cell): seq<Cell> {
    if cells == [] || Text.LexLess(c.key, cells[0].key) then [c] + cells
    else if cells[0].key == c.key then [c] + cells[1..]
    else [cells[0]] + PutCell(cells[1..], c)
  }

  function ValueAt(values: seq<Value>, i: nat): Value {
    if i < |values| then values[i] else Null
  }

  /** The cells made from the first `n` fields. */
  function CellsOf(fields: seq<Field>, values: seq<Value>, n: nat): seq<Cell>
    requires n <= |fields|
  {
    if n == 0 then []
    else PutCell(CellsOf(fields, values, n - 1), Cell(fields[n - 1].name, Marshal(ValueAt(values, n - 1))))
  }

  /** `query_result_rows_to_stored_rows`. */
  function StoredRows(r: QueryResult): (s: seq<Row>)
    ensures |s| == |r.rows|
    ensures forall i :: 0 <= i < |s| ==> s[i] == Row("", CellsOf(r.fields, r.rows[i], |r.fields|), "")
  {
    seq(|r.rows|, i requires 0 <= i < |r.rows| => Row("", CellsOf(r.fields, r.rows[i], |r.fields|), ""))
  }

  // --- running a query ---

  const MAX_DEPTH: nat := 8

  function Levels(depth: nat): nat {
    if depth >= MAX_DEPTH then 0 else MAX_DEPTH - depth
  }

  /** The view's query, or why it cannot be run. */
  function ViewQuery(table: Table, depth: nat): Result<string, QueryError> {
    if table.view.None? || RustStr.Trim(table.view.value.query) == "" then Err(ViewWithoutQuery)
    else if table.view.value.useLegacySql then Err(LegacyView)
    else if depth >= MAX_DEPTH then Err(ViewTooDeep)
    else Ok(table.view.value.query)
  }

  predicate IsView(table: Table) {
    RustStr.EqIgnoreAsciiCase(table.kind, "VIEW")
  }

  /** A schema and rows to run a query on. */
  datatype Source = Source(schema: seq<Field>, rows: seq<Row>)

  /** `query_source`; of the two functions for the two kinds of run, `execute_query_for_view` is the choice. */
  function QuerySource(d: Decoder, cat: Catalog, q: Query, dryRun: bool, depth: nat): Result<Source, QueryError>
    decreases Levels(depth), 0
  {
    if q.source !in cat.tables then Err(TableNotFound(q.source))
    else
      var table := cat.tables[q.source];
      if IsView(table) then
        var text := ViewQuery(table, depth);
        if text.Err? then Err(text.error)
        else
          var r := if dryRun then DryRun(d, cat, q.source.project, text.value, depth + 1)
                   else Execute(d, cat, q.source.project, text.value, depth + 1);
          if r.Err? then Err(r.error) else Ok(Source(r.value.fields, if dryRun then [] else StoredRows(r.value)))
      else Ok(Source(table.schema, if dryRun then [] else RowsOf(cat, q.source)))
  }

  /** `dry_run_query_with_depth`. */
  function DryRun(d: Decoder, cat: Catalog, project: string, text: string, depth: nat): Result<QueryResult, QueryError>
    decreases Levels(depth), 1
  {
    var q := SqlParser.ParseSelect(d, text, project);
    if q.Err? then Err(q.error)
    else
      var source := QuerySource(d, cat, q.value, true, depth);
      if source.Err? then Err(source.error) else TypeOf(source.value.schema, q.value)
  }

  /** `execute_query_with_depth`. */
  function Execute(d: Decoder, cat: Catalog, project: string, text: string, depth: nat): Result<QueryResult, QueryError>
    decreases Levels(depth), 1
  {
    var q := SqlParser.ParseSelect(d, text, project);
    if q.Err? then Err(q.error)
    else
      var source := QuerySource(d, cat, q.value, false, depth);
      if source.Err? then Err(source.error) else Evaluate(d, source.value.schema, source.value.rows, q.value)
  }

  // --- destination tables ---

  datatype Config = Config(query: string, destination: TableRef, create: string, write: string)

  predicate IsResourceId(s: string) {
    s != "" && forall i :: 0 <= i < |s| ==>
      'a' <= s[i] <= 'z' || 'A' <= s[i] <= 'Z' || '0' <= s[i] <= '9' || s[i] == '_' || s[i] == '-'
  }

  predicate IsTableReference(t: TableRef) {
    IsResourceId(t.project) && IsResourceId(t.dataset) && IsResourceId(t.table)
  }

  /** `normalize_table_reference`. */
  function Normalized(t: TableRef, project: string): TableRef {
    if t.project == "" then t.(project := DefaultString(project, "devcloud")) else t
  }

  function CreateMode(config: Config): string {
    DefaultString(config.create, "CREATE_IF_NEEDED")
  }

  function WriteMode(config: Config): string {
    DefaultString(config.write, "WRITE_EMPTY")
  }

  /** Why a result cannot be written to its destination. */
  function Refusal(cat: Catalog, datasets: set<(string, string)>, project: string, config: Config,
      r: QueryResult): Option<QueryError> {
    var t := Normalized(config.destination, project);
    if !IsTableReference(t) then Some(BadId)
    else if (t.project, t.dataset) !in datasets then Some(DatasetNotFound)
    else if CreateMode(config) !in {"CREATE_IF_NEEDED", "CREATE_NEVER"} then Some(BadCreateDisposition)
    else if WriteMode(config) !in {"WRITE_EMPTY", "WRITE_TRUNCATE", "WRITE_APPEND"} then Some(BadWriteDisposition)
    else if t !in cat.tables && CreateMode(config) == "CREATE_NEVER" then Some(TableNotFound(t))
    else if t in cat.tables && WriteMode(config) == "WRITE_EMPTY" && RowsOf(cat, t) != [] then Some(DestinationNotEmpty)
    else if t in cat.tables && WriteMode(config) == "WRITE_APPEND" && cat.tables[t].schema != r.fields then
      Some(DestinationSchemaDiffers)
    else None
  }

  /** The destination's resource once its schema is written. */
  function DestinationTable(existing: Option<Table>, write: string, fields: seq<Field>): Table {
    if existing.Some? && write != "WRITE_TRUNCATE" then
      existing.value.(kind := DefaultString(existing.value.kind, "TABLE"), schema := fields)
    else Table("TABLE", fields, None, 0, 0)
  }

  /** The catalog after a result has been written. */
  function Written(cat: Catalog, project: string, config: Config, r: QueryResult): Catalog {
    var t := Normalized(config.destination, project);
    var existing := if t in cat.tables then Some(cat.tables[t]) else None;
    var kept := if WriteMode(config) == "WRITE_TRUNCATE" then [] else RowsOf(cat, t);
    var rows := kept + AllOnDisk(StoredRows(r));
    var table := DestinationTable(existing, WriteMode(config), r.fields)
                 .(numRows := |rows|, numBytes := TotalBytes(rows));
    Catalog(cat.tables[t := table],
            if r.rows != [] then cat.rows[t := rows]
            else if WriteMode(config) == "WRITE_TRUNCATE" then cat.rows - {t}
            else cat.rows)
  }

  // --- what a written destination holds, said without the code ---

  /** Strictly increasing names. */
  predicate InKeyOrder(cells: seq<Cell>) {
    forall i, j :: 0 <= i < j < |cells| ==> Text.LexLess(cells[i].key, cells[j].key)
  }

  /** No later field has this field's name. */
  predicate IsLast(fields: seq<Field>, k: nat, n: nat)
    requires k < n <= |fields|
  {
    forall l :: k < l < n ==> fields[l].name != fields[k].name
  }

  /** The text of the value under the last field of its name. */
  ghost predicate IsCellOf(fields: seq<Field>, values: seq<Value>, n: nat, c: Cell)
    requires n <= |fields|
  {
    exists k: nat :: k < n && IsLast(fields, k, n)
                     && c == Cell(fields[k].name, Marshal(if k < |values| then values[k] else Null))
  }

  /** In name order, one cell for each field name. */
  ghost predicate AreCellsOf(fields: seq<Field>, values: seq<Value>, n: nat, cells: seq<Cell>)
    requires n <= |fields|
  {
    && InKeyOrder(cells)
    && (forall c :: c in cells ==> IsCellOf(fields, values, n, c))
    && (forall k: nat :: k < n ==> exists c :: c in cells && c.key == fields[k].name)
  }

  /** Each result row as a row without an id and a time. */
  ghost predicate AreStoredRows(r: QueryResult, rows: seq<Row>) {
    && |rows| == |r.rows|
    && forall i :: 0 <= i < |rows| ==>
         && rows[i].insertId == "" && rows[i].insertedAt == ""
         && exists cells :: AreCellsOf(r.fields, r.rows[i], |r.fields|, cells)
                            && rows[i].cells == MapCells(cells, WireJson.Stored)
  }

  /** The table that a destination names. */
  function DestinationOf(config: Config, project: string): TableRef {
    var t := config.destination;
    if t.project != "" then t else if project != "" then t.(project := project) else t.(project := "devcloud")
  }

  /** The result is in the destination, after what was there unless that is truncated, and nowhere else. */
  ghost predicate IsWritten(before: Catalog, after: Catalog, project: string, config: Config, r: QueryResult) {
    var t := DestinationOf(config, project);
    var (was, buffer) := (RowsOf(before, t), RowsOf(after, t));
    && (exists added :: AreStoredRows(r, added)
          && buffer == if config.write == "WRITE_TRUNCATE" then added else was + added)
    && (config.write in {"", "WRITE_EMPTY"} && t in before.tables ==> was == [])
    && (config.write == "WRITE_APPEND" && t in before.tables ==> before.tables[t].schema == r.fields)
    && t in after.tables && after.tables[t].schema == r.fields
    && after.tables[t].numRows == |buffer| && after.tables[t].numBytes == TotalBytes(buffer)
    && (if t in before.tables && config.write != "WRITE_TRUNCATE"
        then && after.tables[t].view == before.tables[t].view
             && (before.tables[t].kind != "" ==> after.tables[t].kind == before.tables[t].kind)
        else after.tables[t].view == None && after.tables[t].kind == "TABLE")
    && (forall u :: u != t ==> (u in after.tables <==> u in before.tables) && (u in after.rows <==> u in before.rows))
    && (forall u :: u != t && u in before.tables ==> after.tables[u] == before.tables[u])
    && (forall u :: u != t && u in before.rows ==> after.rows[u] == before.rows[u])
  }

  /** Why a destination is refused; of several reasons the first is given. */
  ghost predicate IsRefused(cat: Catalog, datasets: set<(string, string)>, project: string, config: Config,
      r: QueryResult, error: QueryError) {
    var t := DestinationOf(config, project);
    match error
    case BadId => !IsResourceId(t.project) || !IsResourceId(t.dataset) || !IsResourceId(t.table)
    case DatasetNotFound => (t.project, t.dataset) !in datasets
    case BadCreateDisposition => config.create !in {"", "CREATE_IF_NEEDED", "CREATE_NEVER"}
    case BadWriteDisposition => config.write !in {"", "WRITE_EMPTY", "WRITE_TRUNCATE", "WRITE_APPEND"}
    case TableNotFound(u) => u == t && t !in cat.tables && config.create == "CREATE_NEVER"
    case DestinationNotEmpty => t in cat.tables && config.write in {"", "WRITE_EMPTY"} && RowsOf(cat, t) != []
    case DestinationSchemaDiffers =>
      t in cat.tables && config.write == "WRITE_APPEND" && cat.tables[t].schema != r.fields
    case _ => false
  }

  const SMALL_LETTERS := "abcdefghijklmnopqrstuvwxyz"
  const CAPITALS := "ABCDEFGHIJKLMNOPQRSTUVWXYZ"
  const DIGITS_AND_MARKS := "0123456789_-"

  lemma SmallLetters(c: char)
    ensures c in SMALL_LETTERS <==> 'a' <= c <= 'z'
  {
    if 'a' <= c <= 'z' { assert SMALL_LETTERS[c as int - 'a' as int] == c; }
  }

  lemma Capitals(c: char)
    ensures c in CAPITALS <==> 'A' <= c <= 'Z'
  {
    if 'A' <= c <= 'Z' { assert CAPITALS[c as int - 'A' as int] == c; }
  }

  lemma DigitsAndMarks(c: char)
    ensures c in DIGITS_AND_MARKS <==> '0' <= c <= '9' || c == '_' || c == '-'
  {
    if '0' <= c <= '9' { assert DIGITS_AND_MARKS[c as int - '0' as int] == c; }
    if c == '_' { assert DIGITS_AND_MARKS[10] == c; }
    if c == '-' { assert DIGITS_AND_MARKS[11] == c; }
  }

  predicate IsIdCharacter(c: char) {
    c in SMALL_LETTERS || c in CAPITALS || c in DIGITS_AND_MARKS
  }

  /** Identifiers are of letters, digits, underscores and hyphens. */
  lemma IdentifiersAre(s: string)
    ensures IsResourceId(s) <==> s != "" && forall c :: c in s ==> IsIdCharacter(c)
  {
    forall i | 0 <= i < |s|
      ensures IsIdCharacter(s[i])
              <==> 'a' <= s[i] <= 'z' || 'A' <= s[i] <= 'Z' || '0' <= s[i] <= '9' || s[i] == '_' || s[i] == '-'
    {
      var c := s[i];
      SmallLetters(c);
      Capitals(c);
      DigitsAndMarks(c);
    }
    hide IsIdCharacter;
    assert forall i :: 0 <= i < |s| ==> s[i] in s;
  }

  lemma DestinationIsNormalized(config: Config, project: string)
    ensures DestinationOf(config, project) == Normalized(config.destination, project)
  {
  }

  /** The order in which the reasons are looked for. */
  function Place(error: QueryError): nat {
    match error
    case BadId => 0
    case DatasetNotFound => 1
    case BadCreateDisposition => 2
    case BadWriteDisposition => 3
    case TableNotFound(_) => 4
    case DestinationNotEmpty => 5
    case _ => 6
  }

  /** A result is refused exactly when there is a reason, and with the first. */
  lemma RefusedExactly(cat: Catalog, datasets: set<(string, string)>, project: string, config: Config, r: QueryResult)
    ensures var e := Refusal(cat, datasets, project, config, r);
            && (e.Some? ==>
                  && IsRefused(cat, datasets, project, config, r, e.value)
                  && forall other :: IsRefused(cat, datasets, project, config, r, other) ==>
                       Place(e.value) <= Place(other))
            && (e.None? ==> forall error :: !IsRefused(cat, datasets, project, config, r, error))
  {
    hide IsResourceId;
    DestinationIsNormalized(config, project);
  }

  lemma {:induction false} LexLessIsTransitive(a: string, b: string, c: string)
    requires Text.LexLess(a, b) && Text.LexLess(b, c)
    ensures Text.LexLess(a, c)
  {
    if a != [] && a[0] == b[0] == c[0] { LexLessIsTransitive(a[1..], b[1..], c[1..]); }
  }

  lemma {:induction false} LexLessIsTotal(a: string, b: string)
    ensures Text.LexLess(a, b) || a == b || Text.LexLess(b, a)
  {
    if a != [] && b != [] {
      LexLessIsTotal(a[1..], b[1..]);
      assert a == [a[0]] + a[1..] && b == [b[0]] + b[1..];
    }
  }

  lemma {:induction false} LexLessIsStrict(a: string)
    ensures !Text.LexLess(a, a)
  {
    if a != [] { LexLessIsStrict(a[1..]); }
  }

  lemma RestInKeyOrder(cells: seq<Cell>)
    requires InKeyOrder(cells) && cells != []
    ensures InKeyOrder(cells[1..]) && forall x :: x in cells[1..] ==> Text.LexLess(cells[0].key, x.key)
    ensures forall x :: x in cells <==> x == cells[0] || x in cells[1..]
  {
    hide Text.LexLess;
    assert cells == [cells[0]] + cells[1..];
  }

  lemma AheadInKeyOrder(c: Cell, cells: seq<Cell>)
    requires InKeyOrder(cells) && forall x :: x in cells ==> Text.LexLess(c.key, x.key)
    ensures InKeyOrder([c] + cells) && forall x :: x in cells ==> x.key != c.key
  {
    hide Text.LexLess;
    LexLessIsStrict(c.key);
  }

  lemma {:induction false} PutCellKeepsOrder(cells: seq<Cell>, c: Cell)
    requires InKeyOrder(cells)
    ensures InKeyOrder(PutCell(cells, c))
    ensures forall x :: x in PutCell(cells, c) <==> x == c || (x in cells && x.key != c.key)
  {
    hide Text.LexLess, InKeyOrder;
    if cells == [] {
      NothingInOrder();
      AheadInKeyOrder(c, []);
      assert PutCell(cells, c) == [c];
    } else {
      RestInKeyOrder(cells);
      LexLessIsTotal(c.key, cells[0].key);
      if Text.LexLess(c.key, cells[0].key) {
        forall x | x in cells ensures Text.LexLess(c.key, x.key) {
          if x != cells[0] { LexLessIsTransitive(c.key, cells[0].key, x.key); }
        }
        AheadInKeyOrder(c, cells);
      } else if cells[0].key == c.key {
        AheadInKeyOrder(c, cells[1..]);
      } else {
        PutCellKeepsOrder(cells[1..], c);
        AheadInKeyOrder(cells[0], PutCell(cells[1..], c));
      }
    }
  }

  lemma NothingInOrder()
    ensures InKeyOrder([])
  {
  }

  lemma {:induction false} CellsAreCellsOf(fields: seq<Field>, values: seq<Value>, n: nat)
    requires n <= |fields|
    ensures AreCellsOf(fields, values, n, CellsOf(fields, values, n))
  {
    hide PutCell, InKeyOrder, Marshal, AreCellsOf;
    if n == 0 {
      NoFields(fields, values);
    } else {
      CellsAreCellsOf(fields, values, n - 1);
      var c := Cell(fields[n - 1].name, Marshal(ValueAt(values, n - 1)));
      OneMoreField(fields, values, n - 1, CellsOf(fields, values, n - 1), c);
    }
  }

  lemma NoFields(fields: seq<Field>, values: seq<Value>)
    ensures AreCellsOf(fields, values, 0, [])
  {
  }

  lemma OneMoreField(fields: seq<Field>, values: seq<Value>, n: nat, before: seq<Cell>, c: Cell)
    requires n < |fields| && AreCellsOf(fields, values, n, before)
    requires c == Cell(fields[n].name, Marshal(ValueAt(values, n)))
    ensures AreCellsOf(fields, values, n + 1, PutCell(before, c))
  {
    hide InKeyOrder, Marshal, IsCellOf, PutCell;
    PutCellKeepsOrder(before, c);
    var after := PutCell(before, c);
    LastFieldsCell(fields, values, n, c);
    forall x | x in before && x.key != c.key
      ensures IsCellOf(fields, values, n + 1, x)
    {
      StillLast(fields, values, n, x);
    }
    forall k: nat | k < n + 1
      ensures exists x :: x in after && x.key == fields[k].name
    {
      if fields[k].name == c.key {
        assert c in after;
      } else {
        var x :| x in before && x.key == fields[k].name;
        assert x in after;
      }
    }
  }

  lemma LastFieldsCell(fields: seq<Field>, values: seq<Value>, n: nat, c: Cell)
    requires n < |fields| && c == Cell(fields[n].name, Marshal(ValueAt(values, n)))
    ensures IsCellOf(fields, values, n + 1, c)
  {
    hide Marshal;
    assert IsLast(fields, n, n + 1);
  }

  lemma StillLast(fields: seq<Field>, values: seq<Value>, n: nat, x: Cell)
    requires n < |fields| && IsCellOf(fields, values, n, x) && x.key != fields[n].name
    ensures IsCellOf(fields, values, n + 1, x)
  {
    hide Marshal;
    var k: nat :| k < n && IsLast(fields, k, n)
                  && x == Cell(fields[k].name, Marshal(if k < |values| then values[k] else Null));
    assert IsLast(fields, k, n + 1);
  }

  lemma StoredAreStoredRows(r: QueryResult)
    ensures AreStoredRows(r, AllOnDisk(StoredRows(r)))
  {
    hide CellsOf, AreCellsOf, MapCells;
    forall i | 0 <= i < |r.rows|
      ensures AreCellsOf(r.fields, r.rows[i], |r.fields|, CellsOf(r.fields, r.rows[i], |r.fields|))
    {
      CellsAreCellsOf(r.fields, r.rows[i], |r.fields|);
    }
  }

  lemma BuffersAfterWrite(cat: Catalog, t: TableRef, truncate: bool, r: QueryResult, after: Catalog)
    requires var rows := (if truncate then [] else RowsOf(cat, t)) + AllOnDisk(StoredRows(r));
             after.rows == if r.rows != [] then cat.rows[t := rows] else if truncate then cat.rows - {t} else cat.rows
    ensures RowsOf(after, t) == if truncate then AllOnDisk(StoredRows(r)) else RowsOf(cat, t) + AllOnDisk(StoredRows(r))
    ensures forall u :: u != t ==> (u in after.rows <==> u in cat.rows)
    ensures forall u :: u != t && u in cat.rows ==> after.rows[u] == cat.rows[u]
  {
    hide StoredRows, AllOnDisk;
    assert |StoredRows(r)| == |r.rows| && |AllOnDisk(StoredRows(r))| == |r.rows|;
    assert [] + AllOnDisk(StoredRows(r)) == AllOnDisk(StoredRows(r));
  }

  /** Where there is no reason to refuse it, the result is written as `IsWritten` says. */
  lemma WrittenIsWritten(cat: Catalog, datasets: set<(string, string)>, project: string, config: Config, r: QueryResult)
    requires Refusal(cat, datasets, project, config, r).None?
    ensures IsWritten(cat, Written(cat, project, config, r), project, config, r)
  {
    hide IsTableReference, Normalized, AllOnDisk, StoredRows, TotalBytes, AreStoredRows, RowsOf, DestinationOf;
    DestinationIsNormalized(config, project);
    var (t, after) := (DestinationOf(config, project), Written(cat, project, config, r));
    StoredAreStoredRows(r);
    var truncate := WriteMode(config) == "WRITE_TRUNCATE";
    BuffersAfterWrite(cat, t, truncate, r, after);
    if truncate {
      assert [] + AllOnDisk(StoredRows(r)) == AllOnDisk(StoredRows(r));
    }
  }

  lemma BufferAfterWrite(cat: Catalog, t: TableRef, truncate: bool, added: seq<Row>)
    ensures var rows := (if truncate then [] else RowsOf(cat, t)) + AllOnDisk(added);
            var start := if truncate then cat.rows - {t} else cat.rows;
            && RowsOf(cat.(rows := start), t) == (if truncate then [] else RowsOf(cat, t))
            && start[t := rows] == cat.rows[t := rows]
            && RowsOf(cat.(rows := if added == [] then start else start[t := rows]), t) == rows
  {
    hide OnDisk;
  }

  lemma TableTwice(tables: map<TableRef, Table>, t: TableRef, a: Table, b: Table)
    ensures tables[t := a][t := b] == tables[t := b]
  {
  }

  /** The state the engine writes: datasets, tables, row buffers and query jobs. */
  class Engine {
    var datasets: set<(string, string)>
    var tables: map<TableRef, Table>
    var rows: map<TableRef, seq<Row>>
    var jobs: set<(string, string)>

    constructor (datasets: set<(string, string)>, catalog: Catalog)
      ensures this.datasets == datasets && Cat() == catalog && jobs == {}
    {
      this.datasets := datasets;
      tables, rows, jobs := catalog.tables, catalog.rows, {};
    }

    function Cat(): Catalog
      reads this
    {
      Catalog(tables, rows)
    }

    /** `append_rows` on one table's buffer. */
    method AppendRows(t: TableRef, added: seq<Row>)
      modifies this`rows
      ensures rows == old(rows)[t := RowsOf(old(Cat()), t) + AllOnDisk(added)]
    {
      var before := if t in rows then rows[t] else [];
      rows := rows[t := before + AllOnDisk(added)];
    }

    /** `refresh_table_row_stats`. */
    method RefreshRowStats(t: TableRef, table: Table)
      modifies this`tables
      ensures var n := RowsOf(old(Cat()), t);
              tables == old(tables)[t := table.(numRows := |n|, numBytes := TotalBytes(n))]
    {
      var all := if t in rows then rows[t] else [];
      tables := tables[t := table.(numRows := |all|, numBytes := TotalBytes(all))];
    }

    /** `write_query_destination_table`. */
    method WriteDestination(project: string, config: Config, r: QueryResult) returns (error: Option<QueryError>)
      modifies this`tables, this`rows
      ensures error.Some? ==> Cat() == old(Cat()) && IsRefused(old(Cat()), datasets, project, config, r, error.value)
      ensures error.Some? ==> forall other :: IsRefused(old(Cat()), datasets, project, config, r, other) ==>
                                                Place(error.value) <= Place(other)
      ensures error.None? ==> IsWritten(old(Cat()), Cat(), project, config, r)
      ensures error.None? ==> forall e :: !IsRefused(old(Cat()), datasets, project, config, r, e)
      ensures error == Refusal(old(Cat()), datasets, project, config, r)
      ensures Cat() == if error.Some? then old(Cat()) else Written(old(Cat()), project, config, r)
    {
      hide IsTableReference, TotalBytes, StoredRows, AllOnDisk, IsWritten, IsRefused;
      RefusedExactly(Cat(), datasets, project, config, r);
      if Refusal(Cat(), datasets, project, config, r).None? {
        WrittenIsWritten(Cat(), datasets, project, config, r);
      }
      var t := Normalized(config.destination, project);
      if !IsTableReference(t) { return Some(BadId); }
      if (t.project, t.dataset) !in datasets { return Some(DatasetNotFound); }
      var create, write := CreateMode(config), WriteMode(config);
      if create != "CREATE_IF_NEEDED" && create != "CREATE_NEVER" { return Some(BadCreateDisposition); }
      if write != "WRITE_EMPTY" && write != "WRITE_TRUNCATE" && write != "WRITE_APPEND" {
        return Some(BadWriteDisposition);
      }
      var destination := if t in tables then Some(tables[t]) else None;
      if destination.None? && create == "CREATE_NEVER" { return Some(TableNotFound(t)); }
      if destination.Some? && write == "WRITE_EMPTY" && RowsOf(Cat(), t) != [] { return Some(DestinationNotEmpty); }
      if destination.Some? && write == "WRITE_APPEND" && destination.value.schema != r.fields {
        return Some(DestinationSchemaDiffers);
      }
      var table := DestinationTable(destination, write, r.fields);
      tables := tables[t := table];
      if write == "WRITE_TRUNCATE" { rows := rows - {t}; }
      var stored := StoredRows(r);
      if stored != [] { AppendRows(t, stored); }
      RefreshRowStats(t, table);
      BufferAfterWrite(old(Cat()), t, write == "WRITE_TRUNCATE", stored);
      TableTwice(old(tables), t, table, tables[t]);
      return None;
    }

    /** `create_query_job`, for a query without parameters. */
    method CreateQueryJob(d: Decoder, project: string, jobId: string, freshId: string, config: Config, dryRun: bool,
        useLegacySql: bool)
        returns (r: Result<QueryResult, QueryError>)
      modifies this
      ensures datasets == old(datasets)
      ensures var s := old(JobState(Cat(), datasets, jobs));
              (JobState(Cat(), datasets, jobs), r)
              == JobEffect(d, s, project, jobId, freshId, config, dryRun, useLegacySql)
      ensures var id := if RustStr.Trim(jobId) == "" then freshId else RustStr.Trim(jobId);
              var run := if dryRun then DryRun(d, old(Cat()), project, config.query, 0)
                         else Execute(d, old(Cat()), project, config.query, 0);
              if r.Err? then
                && Cat() == old(Cat()) && jobs == old(jobs)
                && if useLegacySql then r == Err(LegacySql)
                   else if RustStr.Trim(jobId) != "" && !IsResourceId(id) then r == Err(BadId)
                   else if RustStr.Trim(jobId) != "" && (project, id) in old(jobs) then r == Err(JobExists)
                   else if run.Err? then r == run
                   else !dryRun && config.destination.table != ""
                        && IsRefused(old(Cat()), datasets, project, config, run.value, r.error)
              else
                && !useLegacySql && jobs == old(jobs) + {(project, id)}
                && (RustStr.Trim(jobId) != "" ==> IsResourceId(id) && (project, id) !in old(jobs))
                && r == run
                && (if dryRun || config.destination.table == "" then Cat() == old(Cat())
                    else IsWritten(old(Cat()), Cat(), project, config, r.value))
    {
      hide Execute, DryRun, Written, Refusal, IsResourceId, IsWritten, IsRefused;
      if useLegacySql { return Err(LegacySql); }
      var id := RustStr.Trim(jobId);
      if id == "" {
        id := freshId;
      } else {
        if !IsResourceId(id) { return Err(BadId); }
        if (project, id) in jobs { return Err(JobExists); }
      }
      r := if dryRun then DryRun(d, Cat(), project, config.query, 0) else Execute(d, Cat(), project, config.query, 0);
      if r.Err? { return; }
      if config.destination.table != "" && !dryRun {
        var error := WriteDestination(project, config, r.value);
        if error.Some? { return Err(error.value); }
      }
      jobs := jobs + {(project, id)};
    }
  }

  datatype JobState = JobState(catalog: Catalog, datasets: set<(string, string)>, jobs: set<(string, string)>)

  /** What a query job does: the new state and the answer. */
  function JobEffect(d: Decoder, s: JobState, project: string, jobId: string, freshId: string, config: Config,
                     dryRun: bool, useLegacySql: bool): (JobState, Result<QueryResult, QueryError>)
  {
    var id := if RustStr.Trim(jobId) == "" then freshId else RustStr.Trim(jobId);
    if useLegacySql then (s, Err(LegacySql))
    else if RustStr.Trim(jobId) != "" && !IsResourceId(id) then (s, Err(BadId))
    else if RustStr.Trim(jobId) != "" && (project, id) in s.jobs then (s, Err(JobExists))
    else
      var r := if dryRun then DryRun(d, s.catalog, project, config.query, 0)
               else Execute(d, s.catalog, project, config.query, 0);
      if r.Err? then (s, r)
      else if config.destination.table == "" || dryRun then (s.(jobs := s.jobs + {(project, id)}), r)
      else
        var error := Refusal(s.catalog, s.datasets, project, config, r.value);
        if error.Some? then (s, Err(error.value))
        else (s.(catalog := Written(s.catalog, project, config, r.value), jobs := s.jobs + {(project, id)}), r)
  }
}
