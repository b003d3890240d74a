/** The nested `generate_table` of `update_dataset_readme`: a markdown table
    with a header row of column names, a `---` separator row and one row per
    sampled record, each cell escaped so that a record stays on one line. */
module Table {
  import opened Results
  import opened Text

  /** A sampled split: its column names and its records, each record mapping
      column names to the text `str()` gives for the value. */
  datatype Sample = Sample(columns: seq<string>, rows: seq<map<string, string>>)

  const Separator: string := "---"

  /** One table row: `"| " + " | ".join(cells) + " |\n"`. */
  function Row(cells: seq<string>): string
  {
    "| " + JoinCells(cells) + " |\n"
  }

  function Repeat(s: string, n: nat): (r: seq<string>)
    ensures |r| == n && forall j :: 0 <= j < n ==> r[j] == s
  {
    seq(n, _ => s)
  }

  /** The cells of one record in column order, each escaped; the first
      column missing from the record raises KeyError. */
  function RowCells(headers: seq<string>, row: map<string, string>): Result<seq<string>>
  {
    if headers == [] then Ok([])
    else if headers[0] !in row then Err(KeyError(headers[0]))
    else
      match RowCells(headers[1..], row)
      case Err(e) => Err(e)
      case Ok(cells) => Ok([Escape(row[headers[0]])] + cells)
  }

  /** The data rows of the table, one after the other; the first record that
      fails decides the error. */
  function DataRows(headers: seq<string>, rows: seq<map<string, string>>): Result<string>
    decreases |rows|
  {
    if rows == [] then Ok("")
    else
      match DataRows(headers, rows[..|rows| - 1])
      case Err(e) => Err(e)
      case Ok(text) =>
        match RowCells(headers, rows[|rows| - 1])
        case Err(e) => Err(e)
        case Ok(cells) => Ok(text + Row(cells))
  }

  /** What `generate_table(data)` returns, or the exception it raises. */
  function RenderTable(data: Sample): Result<string>
  {
    match DataRows(data.columns, data.rows)
    case Err(e) => Err(e)
    case Ok(text) => Ok(Row(data.columns) + Row(Repeat(Separator, |data.columns|)) + text)
  }

  /** Every record has every column. */
  predicate Complete(data: Sample)
  {
    forall k, j :: 0 <= k < |data.rows| && 0 <= j < |data.columns| ==> data.columns[j] in data.rows[k]
  }

  /** A record gives cells exactly when it has every column; then there is
      one cell per column, in column order, holding the escaped value. */
  lemma {:induction false} RowCellsCorrect(headers: seq<string>, row: map<string, string>)
    ensures RowCells(headers, row).Ok? <==> forall j :: 0 <= j < |headers| ==> headers[j] in row
    ensures RowCells(headers, row).Err? ==>
              (RowCells(headers, row).error.KeyError? &&
               RowCells(headers, row).error.key in headers &&
               RowCells(headers, row).error.key !in row)
    ensures RowCells(headers, row).Ok? ==>
              |RowCells(headers, row).value| == |headers| &&
              forall j :: 0 <= j < |headers| ==> RowCells(headers, row).value[j] == Escape(row[headers[j]])
    decreases |headers|
  {
    if headers != [] {
      RowCellsCorrect(headers[1..], row);
      if headers[0] in row && RowCells(headers[1..], row).Ok? {
        var cells := RowCells(headers[1..], row).value;
        assert forall j :: 1 <= j < |headers| ==> headers[j] == headers[1..][j - 1];
        assert forall j :: 1 <= j < |headers| ==> ([Escape(row[headers[0]])] + cells)[j] == cells[j - 1];
      } else if headers[0] in row {
        assert forall j :: 0 <= j < |headers| - 1 ==> headers[1..][j] == headers[j + 1];
      }
    }
  }

  /** Once a prefix of the records fails, the whole table fails the same way. */
  lemma {:induction false} DataRowsErrPersists(headers: seq<string>, rows: seq<map<string, string>>, i: nat)
    requires i <= |rows|
    requires DataRows(headers, rows[..i]).Err?
    ensures DataRows(headers, rows) == DataRows(headers, rows[..i])
    decreases |rows| - i
  {
    if i < |rows| {
      assert rows[..i + 1][..i] == rows[..i];
      DataRowsErrPersists(headers, rows, i + 1);
    } else {
      assert rows[..i] == rows;
    }
  }

  /** The data rows fail exactly when some record misses a column, and the
      KeyError names a column that some record misses. */
  lemma {:induction false} DataRowsOk(headers: seq<string>, rows: seq<map<string, string>>)
    ensures DataRows(headers, rows).Ok? <==> Complete(Sample(headers, rows))
    ensures DataRows(headers, rows).Err? ==>
              DataRows(headers, rows).error.KeyError? &&
              DataRows(headers, rows).error.key in headers &&
              exists k :: 0 <= k < |rows| && DataRows(headers, rows).error.key !in rows[k]
    decreases |rows|
  {
    if rows != [] {
      var prefix := rows[..|rows| - 1];
      var last := rows[|rows| - 1];
      DataRowsOk(headers, prefix);
      RowCellsCorrect(headers, last);
      assert forall k :: 0 <= k < |prefix| ==> prefix[k] == rows[k];
    }
  }

  /** The rows of records that all give cells, one per record. */
  function RowList(headers: seq<string>, rows: seq<map<string, string>>): (r: seq<string>)
    requires forall k :: 0 <= k < |rows| ==> RowCells(headers, rows[k]).Ok?
    ensures |r| == |rows|
  {
    seq(|rows|, k requires 0 <= k < |rows| => Row(RowCells(headers, rows[k]).value))
  }

  /** When every record gives cells, the data rows are their rows written one
      after the other. */
  lemma {:induction false} DataRowsConcat(headers: seq<string>, rows: seq<map<string, string>>)
    requires forall k :: 0 <= k < |rows| ==> RowCells(headers, rows[k]).Ok?
    ensures DataRows(headers, rows) == Ok(Concat(RowList(headers, rows)))
    decreases |rows|
  {
    if rows != [] {
      var prefix := rows[..|rows| - 1];
      assert forall k :: 0 <= k < |prefix| ==> prefix[k] == rows[k];
      DataRowsConcat(headers, prefix);
      var all := RowList(headers, rows);
      assert all[..|all| - 1] == RowList(headers, prefix);
    }
  }

  /** The lines of the data rows: one per record, holding its cells. */
  lemma DataRowsLines(headers: seq<string>, rows: seq<map<string, string>>)
    requires Complete(Sample(headers, rows))
    ensures DataRows(headers, rows).Ok?
    ensures |Lines(DataRows(headers, rows).value)| == |rows|
    ensures forall k :: 0 <= k < |rows| ==>
              (RowCells(headers, rows[k]).Ok? &&
               Lines(DataRows(headers, rows).value)[k] == Row(RowCells(headers, rows[k]).value))
  {
    forall k | 0 <= k < |rows| ensures RowCells(headers, rows[k]).Ok? {
      RowCellsCorrect(headers, rows[k]);
    }
    var parts := RowList(headers, rows);
    forall k | 0 <= k < |parts| ensures IsLine(parts[k]) {
      RowCellsCorrect(headers, rows[k]);
      RowIsLine(RowCells(headers, rows[k]).value);
    }
    DataRowsConcat(headers, rows);
    LinesConcat(parts);
  }

  /** A row of cells without newlines is a single line. */
  lemma RowIsLine(cells: seq<string>)
    requires forall j :: 0 <= j < |cells| ==> '\n' !in cells[j]
    ensures IsLine(Row(cells))
  {
    JoinCellsNoNewline(cells);
    var inner := "| " + JoinCells(cells) + " |";
    assert '\n' !in inner;
    assert Row(cells) == inner + "\n";
    assert Row(cells)[..|Row(cells)| - 1] == inner;
  }

  /** A row of cells without newlines is one line. */
  lemma RowLine(cells: seq<string>)
    requires forall j :: 0 <= j < |cells| ==> '\n' !in cells[j]
    ensures Lines(Row(cells)) == [Row(cells)]
  {
    JoinCellsNoNewline(cells);
    assert '\n' !in "| " + JoinCells(cells) + " |";
    LinesOfLine("| " + JoinCells(cells) + " |");
    assert Row(cells) == "| " + JoinCells(cells) + " |" + "\n";
  }

  /** The shape of a rendered table: when every record has every column and
      no column name holds a newline, the table is `|rows| + 2` lines — the
      header with the column names, the separator with one `---` per column,
      then one line per record with its escaped values in column order. */
  lemma TableLines(data: Sample)
    requires Complete(data)
    requires forall j :: 0 <= j < |data.columns| ==> '\n' !in data.columns[j]
    ensures RenderTable(data).Ok?
    ensures |Lines(RenderTable(data).value)| == |data.rows| + 2
    ensures Lines(RenderTable(data).value)[0] == Row(data.columns)
    ensures Lines(RenderTable(data).value)[1] == Row(Repeat(Separator, |data.columns|))
    ensures forall k :: 0 <= k < |data.rows| ==>
              (RowCells(data.columns, data.rows[k]).Ok? &&
               Lines(RenderTable(data).value)[k + 2] == Row(RowCells(data.columns, data.rows[k]).value))
  {
    var h := data.columns;
    DataRowsLines(h, data.rows);
    var text := DataRows(h, data.rows).value;
    var sep := Repeat(Separator, |h|);
    RowLine(h);
    RowLine(sep);
    LinesAppend(Row(h), Row(sep) + text);
    LinesAppend(Row(sep), text);
    assert RenderTable(data).value == Row(h) + (Row(sep) + text);
  }

  /** A row starts with `"| "` and ends with `" |\n"`. */
  lemma RowFramed(cells: seq<string>)
    ensures |Row(cells)| >= 4
    ensures Row(cells)[..2] == "| " && Row(cells)[|Row(cells)| - 3..] == " |\n"
  {
    var inner := JoinCells(cells);
    assert Row(cells) == "| " + (inner + " |\n");
    assert Row(cells) == ("| " + inner) + " |\n";
  }

  /** Every line of a rendered table, the header and the separator included,
      starts with `"| "` and ends with `" |\n"`. */
  lemma TableFramed(data: Sample)
    requires Complete(data)
    requires forall j :: 0 <= j < |data.columns| ==> '\n' !in data.columns[j]
    ensures RenderTable(data).Ok?
    ensures forall k :: 0 <= k < |Lines(RenderTable(data).value)| ==>
              (|Lines(RenderTable(data).value)[k]| >= 4 &&
               Lines(RenderTable(data).value)[k][..2] == "| " &&
               Lines(RenderTable(data).value)[k][|Lines(RenderTable(data).value)[k]| - 3..] == " |\n")
  {
    TableLines(data);
    var lines := Lines(RenderTable(data).value);
    forall k | 0 <= k < |lines|
      ensures |lines[k]| >= 4 && lines[k][..2] == "| " && lines[k][|lines[k]| - 3..] == " |\n"
    {
      if k == 0 {
        RowFramed(data.columns);
      } else if k == 1 {
        RowFramed(Repeat(Separator, |data.columns|));
      } else {
        RowFramed(RowCells(data.columns, data.rows[k - 2]).value);
      }
    }
  }

  /** A record's line has the row frame and no newline but the last
      character. */
  lemma RecordLine(headers: seq<string>, row: map<string, string>)
    requires forall j :: 0 <= j < |headers| ==> headers[j] in row
    ensures RowCells(headers, row).Ok?
    ensures var line := Row(RowCells(headers, row).value);
      line[..2] == "| " && line[|line| - 3..] == " |\n" &&
      '\n' !in line[..|line| - 1]
  {
    RowCellsCorrect(headers, row);
    var cells := RowCells(headers, row).value;
    JoinCellsNoNewline(cells);
    var line := Row(cells);
    assert line[..|line| - 1] == "| " + JoinCells(cells) + " |";
  }

  /** One more complete record adds its row to the data rows. */
  lemma DataRowsSnoc(headers: seq<string>, rows: seq<map<string, string>>, i: nat)
    requires i < |rows|
    requires DataRows(headers, rows[..i]).Ok? && RowCells(headers, rows[i]).Ok?
    ensures DataRows(headers, rows[..i + 1]) ==
              Ok(DataRows(headers, rows[..i]).value + Row(RowCells(headers, rows[i]).value))
  {
    assert rows[..i + 1][..i] == rows[..i] && rows[..i + 1][i] == rows[i];
  }

  /** A record that misses a column after complete ones decides the error. */
  lemma DataRowsFail(headers: seq<string>, rows: seq<map<string, string>>, i: nat)
    requires i < |rows|
    requires DataRows(headers, rows[..i]).Ok? && RowCells(headers, rows[i]).Err?
    ensures DataRows(headers, rows) == Err(RowCells(headers, rows[i]).error)
  {
    assert rows[..i + 1][..i] == rows[..i] && rows[..i + 1][i] == rows[i];
    DataRowsErrPersists(headers, rows, i + 1);
  }

  /** `generate_table(data)`: the header and separator, then one row per
      record appended in a loop. */
  method GenerateTable(data: Sample) returns (r: Result<string>)
    ensures r == RenderTable(data)
  {
    var headers := data.columns;
    var table := Row(headers);
    table := table + Row(Repeat(Separator, |headers|));
    ghost var top := table;
    ghost var done := "";
    var i := 0;
    assert data.rows[..0] == [];
    while i < |data.rows|
      invariant 0 <= i <= |data.rows|
      invariant table == top + done
      invariant DataRows(headers, data.rows[..i]) == Ok(done)
    {
      var cells := RowCells(headers, data.rows[i]);
      if cells.Err? {
        DataRowsFail(headers, data.rows, i);
        return Err(cells.error);
      }
      DataRowsSnoc(headers, data.rows, i);
      AppendAssoc(top, done, Row(cells.value));
      table := table + Row(cells.value);
      done := done + Row(cells.value);
      i := i + 1;
    }
    assert data.rows[..i] == data.rows;
    return Ok(table);
  }
}
