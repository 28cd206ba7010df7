/**
 * Turning the CSV export into records: the first line is a header and is
 * dropped, lines whose text is only white space are dropped, and every other
 * line is split on commas and its cells are read by position (timestamp, then
 * nine counts).
 */
module RowParsing {
  import opened JsRuntime
  import opened JsDate
  import opened DateFormat
  import opened Visitor

  /** Destructuring `cells` at position `i`: the cell, or `undefined` past the end. */
  function Cell(cells: seq<string>, i: nat): (c: Option<string>)
    ensures i < |cells| <==> c.Some?
    ensures i < |cells| ==> c.value == cells[i]
  {
    if i < |cells| then Some(cells[i]) else None
  }

  /** One line of the export as a record. */
  function ParseRow(row: string): VisitorData
  {
    var cells := Split(row, ',');
    VisitorData(
      ParseTimestamp(cells[0]),
      ParseIntField(Cell(cells, 1)),
      ParseIntField(Cell(cells, 2)),
      ParseIntField(Cell(cells, 3)),
      ParseIntField(Cell(cells, 4)),
      ParseIntField(Cell(cells, 5)),
      ParseIntField(Cell(cells, 6)),
      ParseIntField(Cell(cells, 7)),
      ParseIntField(Cell(cells, 8)),
      ParseIntField(Cell(cells, 9)))
  }

  /** `row.trim()` is truthy. */
  predicate HasContent(row: string)
  {
    !IsBlank(row)
  }

  /** The lines that carry data, as records, in file order. */
  function ParseRows(rows: seq<string>): (r: seq<VisitorData>)
    ensures |r| <= |rows|
  {
    Map(Filter(rows, HasContent), ParseRow)
  }

  /** The whole export: the lines after the first, parsed. */
  function ParseExport(text: string): seq<VisitorData>
  {
    ParseRows(Split(text, '\n')[1..])
  }

  // ---------------------------------------------------------------------------
  // Properties

  /** The first line is dropped whatever it holds, and the rest are the data lines. */
  lemma HeaderDropped(header: string, rows: seq<string>)
    requires '\n' !in header
    requires forall i :: 0 <= i < |rows| ==> '\n' !in rows[i]
    ensures ParseExport(Join([header] + rows, '\n')) == ParseRows(rows)
  {
    var lines := [header] + rows;
    assert forall i :: 0 <= i < |lines| ==> '\n' !in lines[i] by {
      forall i | 0 <= i < |lines| ensures '\n' !in lines[i] {
        if i > 0 { assert lines[i] == rows[i - 1]; }
      }
    }
    SplitJoin(lines, '\n');
    assert Split(Join(lines, '\n'), '\n')[1..] == rows;
  }

  /** Parsing works line by line: the records of two blocks of lines are the records
      of the first block followed by those of the second. */
  lemma ParseRowsConcat(a: seq<string>, b: seq<string>)
    ensures ParseRows(a + b) == ParseRows(a) + ParseRows(b)
  {
    FilterConcat(a, b, HasContent);
    MapConcat(Filter(a, HasContent), Filter(b, HasContent), ParseRow);
  }

  /** A single line yields no record when it is blank and its own record otherwise. */
  lemma ParseRowsSingle(row: string)
    ensures IsBlank(row) ==> ParseRows([row]) == []
    ensures !IsBlank(row) ==> ParseRows([row]) == [ParseRow(row)]
  {
    assert [row][1..] == [];
    assert Filter([row], HasContent) == (if HasContent(row) then [row] else []) + Filter([], HasContent);
  }

  /** Cells are taken by position: a row with fewer than ten cells has NaN counts in
      the missing columns, and cells after the tenth are ignored. */
  lemma CellsByPosition(cells: seq<string>, extra: seq<string>)
    requires |cells| >= 1
    requires forall i :: 0 <= i < |cells| ==> ',' !in cells[i]
    requires forall i :: 0 <= i < |extra| ==> ',' !in extra[i]
    ensures ParseRow(Join(cells, ',')).timestamp == ParseTimestamp(cells[0])
    ensures |cells| >= 2 ==> ParseRow(Join(cells, ',')).visitorsEntering == ParseInt(cells[1])
    ensures |cells| >= 10 ==> ParseRow(Join(cells, ',')).passersby == ParseInt(cells[9])
    ensures |cells| < 10 ==> ParseRow(Join(cells, ',')).passersby == NaN
    ensures |cells| < 2 ==> ParseRow(Join(cells, ',')).visitorsEntering == NaN
    ensures |cells| >= 10 ==> ParseRow(Join(cells + extra, ',')) == ParseRow(Join(cells, ','))
  {
    SplitJoin(cells, ',');
    if |cells| >= 10 {
      var all := cells + extra;
      assert forall i :: 0 <= i < |all| ==> ',' !in all[i];
      SplitJoin(all, ',');
      assert forall i :: 0 <= i < 10 ==> all[i] == cells[i];
    }
  }

  /** The cells of a line written back from a reading: the timestamp as
      "dd/MM/yyyy H:mm", the nine counts as decimal numerals, and `ws` (a carriage
      return, say) after the last one. */
  function WriteRowCells(d: Timestamp, counts: seq<nat>, ws: string): (cells: seq<string>)
    requires d.year >= 0 && |counts| == 9
    ensures |cells| == 10
  {
    [FormatTimestamp(d)] +
    seq(9, i requires 0 <= i < 9 => Decimal(counts[i]) + (if i == 8 then ws else []))
  }

  /** Only the separators '/', ' ' and ':' and digits make up a written timestamp. */
  lemma NoCommaInTimestamp(d: Timestamp)
    requires d.year >= 0
    ensures ',' !in FormatTimestamp(d)
  {
    forall n: nat, w: nat ensures ',' !in Pad(n, w) {
      assert forall i :: 0 <= i < |Pad(n, w)| ==> Pad(n, w)[i] != ',';
    }
    assert forall i :: 0 <= i < |Decimal(d.hour)| ==> Decimal(d.hour)[i] != ',';
  }

  /** A count cell written as a decimal numeral and trailing white space reads back as
      that count and holds no comma. */
  lemma ParseWrittenCount(n: nat, ws: string)
    requires IsBlank(ws)
    ensures ',' !in Decimal(n) + ws
    ensures ParseInt(Decimal(n) + ws) == Int(n)
  {
    assert ws == [] || (!IsDecimalDigit(ws[0]) && ws[0] != 'x' && ws[0] != 'X') by {
      if ws != [] { assert IsWhitespace(ws[0]); }
    }
    var e: string := [];
    var cell := Decimal(n) + ws;
    assert e + Decimal(n) + ws == cell;
    ParseIntDecimal(e, n, ws);
    CountCellCommaFree(Decimal(n), ws);
  }

  lemma CountCellCommaFree(digits: string, ws: string)
    requires forall i :: 0 <= i < |digits| ==> IsDecimalDigit(digits[i])
    requires IsBlank(ws)
    ensures ',' !in digits + ws
  {
    var c := digits + ws;
    forall k | 0 <= k < |c| ensures c[k] != ',' {
      if k < |digits| {
        assert c[k] == digits[k];
      } else {
        assert c[k] == ws[k - |digits|];
      }
    }
  }

  /** A line of ten comma-free cells reads each cell at its own position. */
  lemma RowOfCells(cells: seq<string>)
    requires |cells| == 10
    requires forall i :: 0 <= i < |cells| ==> ',' !in cells[i]
    ensures ParseRow(Join(cells, ',')) ==
            VisitorData(ParseTimestamp(cells[0]), ParseInt(cells[1]), ParseInt(cells[2]),
                        ParseInt(cells[3]), ParseInt(cells[4]), ParseInt(cells[5]),
                        ParseInt(cells[6]), ParseInt(cells[7]), ParseInt(cells[8]),
                        ParseInt(cells[9]))
  {
    SplitJoin(cells, ',');
  }

  /** The cells of a written reading: none holds a comma, the first reads back as the
      timestamp and the others as the counts. */
  lemma WrittenCells(d: Timestamp, counts: seq<nat>, ws: string)
    requires 1 <= d.year <= 9999 && |counts| == 9
    requires IsBlank(ws)
    ensures var cells := WriteRowCells(d, counts, ws);
            (forall i :: 0 <= i < 10 ==> ',' !in cells[i]) &&
            ParseTimestamp(cells[0]) == ValidDate(d) &&
            forall i :: 1 <= i < 10 ==> ParseInt(cells[i]) == Int(counts[i - 1])
  {
    var cells := WriteRowCells(d, counts, ws);
    WrittenTimestampCell(d, counts, ws);
    forall i | 1 <= i < 10
      ensures ',' !in cells[i]
      ensures ParseInt(cells[i]) == Int(counts[i - 1])
    {
      WrittenCountCell(d, counts, ws, i);
    }
  }

  lemma WrittenTimestampCell(d: Timestamp, counts: seq<nat>, ws: string)
    requires 1 <= d.year <= 9999 && |counts| == 9
    ensures var cell := WriteRowCells(d, counts, ws)[0];
            ',' !in cell && ParseTimestamp(cell) == ValidDate(d)
  {
    var cell := WriteRowCells(d, counts, ws)[0];
    assert cell == FormatTimestamp(d) + [];
    NoCommaInTimestamp(d);
    ParseFormatTimestamp(d, []);
  }

  lemma WrittenCountCell(d: Timestamp, counts: seq<nat>, ws: string, i: int)
    requires d.year >= 0 && |counts| == 9
    requires IsBlank(ws)
    requires 1 <= i < 10
    ensures var cell := WriteRowCells(d, counts, ws)[i];
            ',' !in cell && ParseInt(cell) == Int(counts[i - 1])
  {
    var tail := if i == 9 then ws else [];
    assert WriteRowCells(d, counts, ws)[i] == Decimal(counts[i - 1]) + tail;
    assert IsBlank(tail);
    ParseWrittenCount(counts[i - 1], tail);
  }

  /** Writing a reading (year 1 to 9999, non-negative counts) as a line and reading it
      back gives that reading, whatever white space ends the line. */
  lemma ParseWrittenRow(d: Timestamp, counts: seq<nat>, ws: string)
    requires 1 <= d.year <= 9999 && |counts| == 9
    requires IsBlank(ws)
    ensures ParseRow(Join(WriteRowCells(d, counts, ws), ',')) ==
            VisitorData(ValidDate(d), Int(counts[0]), Int(counts[1]), Int(counts[2]),
                        Int(counts[3]), Int(counts[4]), Int(counts[5]), Int(counts[6]),
                        Int(counts[7]), Int(counts[8]))
  {
    var cells := WriteRowCells(d, counts, ws);
    WrittenCells(d, counts, ws);
    RowOfCells(cells);
  }
}
