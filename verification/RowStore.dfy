/** The streaming buffer of a table and its row statistics: `append_rows`, `read_rows`,
    `refresh_table_row_stats` and its incremental form. */
module RowStore {
  import opened Common
  import opened WireJson
  import JsonText
  import Utf8

  /** One column of a row: its name and the raw text of its JSON value. */
  datatype Cell = Cell(key: string, raw: Bytes)

  /** A row as the services hold it; cells in key order, as in a `BTreeMap`. */
  datatype Row = Row(insertId: string, cells: seq<Cell>, insertedAt: string)

  // --- the text of a row ---

  function RenderCells(cells: seq<Cell>): Bytes {
    if cells == [] then []
    else JsonText.StringText(Utf8.Encode(cells[0].key)) + [58] + cells[0].raw
         + (if |cells| > 1 then [44] else []) + RenderCells(cells[1..])
  }

  /** `serde_json::to_vec` of the map of a row: raw values are copied as they are. */
  function Render(cells: seq<Cell>): Bytes {
    [123] + RenderCells(cells) + [125]
  }

  /** `marshal(&row.json).len()`. */
  function RowBytes(row: Row): nat {
    |Escape(Render(row.cells))|
  }

  function TotalBytes(rows: seq<Row>): nat {
    if rows == [] then 0 else TotalBytes(rows[..|rows| - 1]) + RowBytes(rows[|rows| - 1])
  }

  function MapCells(cells: seq<Cell>, f: Bytes -> Bytes): (r: seq<Cell>)
    ensures |r| == |cells|
    ensures forall i :: 0 <= i < |r| ==> r[i] == Cell(cells[i].key, f(cells[i].raw))
  {
    seq(|cells|, i requires 0 <= i < |cells| => Cell(cells[i].key, f(cells[i].raw)))
  }

  /** `compact_row`. */
  function CompactRow(row: Row): Row {
    row.(cells := MapCells(row.cells, Compact))
  }

  /** The row that is read back from the line written for `row`: each cell went through `compact`,
      and the whole line through `html_escape`. */
  function OnDisk(row: Row): Row {
    row.(cells := MapCells(row.cells, Stored))
  }

  function AllOnDisk(rows: seq<Row>): (r: seq<Row>)
    ensures |r| == |rows|
    ensures forall i :: 0 <= i < |r| ==> r[i] == OnDisk(rows[i])
  {
    seq(|rows|, i requires 0 <= i < |rows| => OnDisk(rows[i]))
  }

  function AllCompact(rows: seq<Row>): (r: seq<Row>)
    ensures |r| == |rows|
    ensures forall i :: 0 <= i < |r| ==> r[i] == CompactRow(rows[i])
  {
    seq(|rows|, i requires 0 <= i < |rows| => CompactRow(rows[i]))
  }

  // --- the store ---

  class TableFiles {
    /** The rows of `streaming-buffer.jsonl`. */
    var buffer: seq<Row>
    /** `numRows` and `numBytes` of `table.json`. */
    var numRows: nat
    var numBytes: nat

    constructor ()
      ensures buffer == [] && numRows == 0 && numBytes == 0
    {
      buffer, numRows, numBytes := [], 0, 0;
    }

    /** The statistics are those of the buffer. */
    ghost predicate StatsMatch()
      reads this
    {
      numRows == |buffer| && numBytes == TotalBytes(buffer)
    }

    /** `append_rows`: one line per row, after what is there. */
    method AppendRows(rows: seq<Row>)
      modifies this`buffer
      ensures buffer == old(buffer) + AllOnDisk(rows)
    {
      for i := 0 to |rows|
        invariant buffer == old(buffer) + AllOnDisk(rows[..i])
      {
        buffer := buffer + [OnDisk(rows[i])];
        assert AllOnDisk(rows[..i + 1]) == AllOnDisk(rows[..i]) + [OnDisk(rows[i])];
      }
      assert rows[..|rows|] == rows;
    }

    method ReadRows() returns (rows: seq<Row>)
      ensures rows == buffer
    {
      rows := buffer;
    }

    /** `refresh_table_row_stats`: counts from a full re-read. */
    method RefreshRowStats()
      modifies this`numRows, this`numBytes
      ensures StatsMatch()
    {
      hide RowBytes;
      var rows := ReadRows();
      var bytes := 0;
      for i := 0 to |rows|
        invariant bytes == TotalBytes(rows[..i])
      {
        bytes := bytes + RowBytes(rows[i]);
        assert rows[..i + 1][..i] == rows[..i];
      }
      assert rows[..|rows|] == rows;
      numRows, numBytes := |rows|, bytes;
    }

    /** `refresh_table_row_stats_incremental`: counts from the rows in memory, without reading the
        buffer.  After these rows have been appended the result is that of a full re-read. */
    method RefreshRowStatsIncremental(existing: seq<Row>, added: seq<Row>)
      modifies this`numRows, this`numBytes
      ensures numRows == |existing| + |added|
      ensures numBytes == TotalBytes(existing) + TotalBytes(AllCompact(added))
      ensures buffer == existing + AllOnDisk(added) ==> StatsMatch()
    {
      hide RowBytes;
      var bytes := 0;
      for i := 0 to |existing|
        invariant bytes == TotalBytes(existing[..i])
      {
        bytes := bytes + RowBytes(existing[i]);
        assert existing[..i + 1][..i] == existing[..i];
      }
      assert existing[..|existing|] == existing;
      for i := 0 to |added|
        invariant bytes == TotalBytes(existing) + TotalBytes(AllCompact(added[..i]))
      {
        bytes := bytes + RowBytes(CompactRow(added[i]));
        assert AllCompact(added[..i + 1])[..i] == AllCompact(added[..i]);
      }
      assert added[..|added|] == added;
      numRows, numBytes := |existing| + |added|, bytes;
      IncrementalBytesAreFullBytes(existing, added);
    }
  }

  // --- a row takes as many bytes compacted as stored ---

  lemma EscapeParts(a: Bytes, sep: Byte, b: Bytes)
    requires sep < 0x80
    ensures Escape(a + [sep] + b) == Escape(a) + Escape([sep]) + Escape(b)
  {
    EscapeConcat(a, [sep]);
    EscapeConcat(a + [sep], b);
  }

  lemma {:induction false} StoredCellsEscapeAlike(cells: seq<Cell>)
    ensures Escape(RenderCells(MapCells(cells, Compact))) == Escape(RenderCells(MapCells(cells, Stored)))
  {
    hide Escape, Compact;
    if cells != [] {
      var c, d := MapCells(cells, Compact), MapCells(cells, Stored);
      assert c[1..] == MapCells(cells[1..], Compact) && d[1..] == MapCells(cells[1..], Stored);
      StoredCellsEscapeAlike(cells[1..]);
      var k := JsonText.StringText(Utf8.Encode(cells[0].key));
      assert d[0].raw == Escape(c[0].raw);
      EscapeIsIdempotent(c[0].raw);
      EscapeParts(k, 58, c[0].raw);
      EscapeParts(k, 58, d[0].raw);
      if |cells| > 1 {
        EscapeParts(k + [58] + c[0].raw, 44, RenderCells(c[1..]));
        EscapeParts(k + [58] + d[0].raw, 44, RenderCells(d[1..]));
      } else {
        assert RenderCells(c) == k + [58] + c[0].raw;
        assert RenderCells(d) == k + [58] + d[0].raw;
      }
    }
  }

  lemma CompactRowBytesAreStoredBytes(row: Row)
    ensures RowBytes(CompactRow(row)) == RowBytes(OnDisk(row))
  {
    hide Escape, RenderCells, MapCells;
    var c, d := RenderCells(CompactRow(row).cells), RenderCells(OnDisk(row).cells);
    StoredCellsEscapeAlike(row.cells);
    EscapeParts([], 123, c);
    EscapeParts([], 123, d);
    EscapeParts([123] + c, 125, []);
    EscapeParts([123] + d, 125, []);
    assert [] + [123] + c == [123] + c && [] + [123] + d == [123] + d;
    assert [123] + c + [125] + [] == Render(CompactRow(row).cells);
    assert [123] + d + [125] + [] == Render(OnDisk(row).cells);
  }

  // --- the bytes of a written row ---

  /** A column's name as it stands in a written line. */
  function WrittenKey(name: string): Bytes {
    Escape(JsonText.StringText(Utf8.Encode(name)))
  }

  /** The members of a written row: each name, and its cell in stored form. */
  function WrittenCells(cells: seq<Cell>): Bytes {
    if cells == [] then []
    else WrittenKey(cells[0].key) + [58] + Stored(cells[0].raw) + (if |cells| > 1 then [44] else [])
         + WrittenCells(cells[1..])
  }

  lemma {:induction false} WrittenMembers(cells: seq<Cell>)
    ensures Escape(RenderCells(MapCells(cells, Compact))) == WrittenCells(cells)
  {
    hide Escape, Compact;
    if cells == [] {
      EscapeOfNothing();
    } else {
      var c := MapCells(cells, Compact);
      assert c[1..] == MapCells(cells[1..], Compact);
      WrittenMembers(cells[1..]);
      var k := JsonText.StringText(Utf8.Encode(cells[0].key));
      var rest := RenderCells(c[1..]);
      EscapeParts(k, 58, c[0].raw);
      EscapeOfOne(58);
      if |cells| > 1 {
        EscapeParts(k + [58] + c[0].raw, 44, rest);
        EscapeOfOne(44);
      } else {
        assert rest == [] && RenderCells(c) == k + [58] + c[0].raw;
      }
    }
  }

  lemma EscapeOfOne(b: Byte)
    requires !NeedsEscape(b)
    ensures Escape([b]) == [b]
  {
    NothingToEscape([b]);
  }

  /** Compacting each cell and escaping the whole row writes the row of the escaped names and the stored
      cells; and a row of stored cells is written as the same bytes. */
  lemma RowIsWrittenInStoredForm(row: Row)
    ensures Escape(Render(CompactRow(row).cells)) == [123] + WrittenCells(row.cells) + [125]
    ensures Escape(Render(CompactRow(OnDisk(row)).cells)) == Escape(Render(CompactRow(row).cells))
  {
    hide Escape, RenderCells, MapCells, Stored;
    RowIsBraced(row);
    RowIsBraced(OnDisk(row));
    StoredCellsAreWrittenAlike(row.cells);
  }

  lemma RowIsBraced(row: Row)
    ensures Escape(Render(CompactRow(row).cells)) == [123] + WrittenCells(row.cells) + [125]
  {
    hide Escape, RenderCells, MapCells;
    var c := RenderCells(CompactRow(row).cells);
    WrittenMembers(row.cells);
    EscapeOfNothing();
    EscapeOfOne(123);
    EscapeOfOne(125);
    EscapeParts([], 123, c);
    EscapeParts([123] + c, 125, []);
    assert [] + [123] + c == [123] + c && [123] + c + [125] + [] == Render(CompactRow(row).cells);
  }

  lemma {:induction false} StoredCellsAreWrittenAlike(cells: seq<Cell>)
    ensures WrittenCells(MapCells(cells, Stored)) == WrittenCells(cells)
  {
    hide Stored, WrittenKey;
    if cells != [] {
      var d := MapCells(cells, Stored);
      assert d[1..] == MapCells(cells[1..], Stored);
      StoredCellsAreWrittenAlike(cells[1..]);
      StoredIsFixpoint(cells[0].raw);
    }
  }

  // --- the incremental count ---

  lemma OneRowMore(rows: seq<Row>, r: Row)
    ensures TotalBytes(rows + [r]) == TotalBytes(rows) + RowBytes(r)
  {
    hide RowBytes;
    assert (rows + [r])[..|rows|] == rows;
  }

  lemma AllOnDiskStep(rows: seq<Row>)
    requires rows != []
    ensures AllOnDisk(rows) == AllOnDisk(rows[..|rows| - 1]) + [OnDisk(rows[|rows| - 1])]
    ensures AllCompact(rows) == AllCompact(rows[..|rows| - 1]) + [CompactRow(rows[|rows| - 1])]
  {
    hide OnDisk, CompactRow;
  }

  /** The count kept from the rows in memory is the count a full re-read of the buffer gives. */
  lemma {:induction false} IncrementalBytesAreFullBytes(existing: seq<Row>, added: seq<Row>)
    ensures TotalBytes(existing) + TotalBytes(AllCompact(added)) == TotalBytes(existing + AllOnDisk(added))
  {
    hide RowBytes, OnDisk, CompactRow, AllOnDisk, AllCompact, TotalBytes;
    if added == [] {
      NothingAdded(existing);
    } else {
      var (before, last) := (added[..|added| - 1], added[|added| - 1]);
      IncrementalBytesAreFullBytes(existing, before);
      AllOnDiskStep(added);
      CompactRowBytesAreStoredBytes(last);
      OneRowMore(AllCompact(before), CompactRow(last));
      OneRowMore(existing + AllOnDisk(before), OnDisk(last));
      assert existing + (AllOnDisk(before) + [OnDisk(last)]) == (existing + AllOnDisk(before)) + [OnDisk(last)];
    }
  }

  lemma NothingAdded(existing: seq<Row>)
    ensures existing + AllOnDisk([]) == existing && TotalBytes(AllCompact([])) == 0
  {
  }

  /** Writing a row that was read back leaves it as it is. */
  lemma OnDiskIsFixpoint(row: Row)
    ensures OnDisk(OnDisk(row)) == OnDisk(row)
  {
    forall i | 0 <= i < |row.cells|
      ensures Stored(Stored(row.cells[i].raw)) == Stored(row.cells[i].raw)
    {
      StoredIsFixpoint(row.cells[i].raw);
    }
  }
}
