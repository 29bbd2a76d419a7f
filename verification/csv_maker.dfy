/** The CSV serialiser (csvMaker.js), a relaxed form of section 2 of RFC 4180:
    `AddRow` escapes the cells of a row in place and appends the row to the
    table; `ToCSV` writes a byte-order mark and then every row, its cells
    joined with commas and the row ended by CRLF. Rows of different lengths
    are accepted as they are. */
module CsvMaker {
  import opened Strings

  /** The byte-order mark U+FEFF that opens every export */
  const Bom: string := "\U{FEFF}"

  /** A cell must be quoted when it holds a quote, a line feed, a carriage
      return or a comma. */
  predicate NeedsQuotes(cell: string) {
    '"' in cell || '\n' in cell || '\r' in cell || ',' in cell
  }

  /** Every quote of `cell` doubled */
  function DoubleQuotes(cell: string): string {
    ReplaceAll(cell, '"', "\"\"")
  }

  /** A cell as it is written out: a cell that needs quotes is put between
      quotes with each of its own quotes doubled; any other cell is unchanged. */
  function EscapeCell(cell: string): (escaped: string)
    ensures !NeedsQuotes(cell) ==> escaped == cell
    ensures NeedsQuotes(cell) ==> escaped == "\"" + DoubleQuotes(cell) + "\""
  {
    if '"' in cell then "\"" + DoubleQuotes(cell) + "\""
    else if NeedsQuotes(cell) then "\"" + cell + "\""
    else cell
  }

  function EscapeRow(row: seq<string>): (escaped: seq<string>)
    ensures |escaped| == |row|
    ensures forall i :: 0 <= i < |row| ==> escaped[i] == EscapeCell(row[i])
  {
    seq(|row|, i requires 0 <= i < |row| => EscapeCell(row[i]))
  }

  /** Doubling keeps a quote in a cell that had one. */
  lemma {:induction false} DoubledKeepsQuote(cell: string)
    requires '"' in cell
    ensures '"' in DoubleQuotes(cell)
  {
    if cell[0] != '"' {
      assert '"' in cell[1..];
      DoubledKeepsQuote(cell[1..]);
      assert DoubleQuotes(cell) == [cell[0]] + DoubleQuotes(cell[1..]);
    } else {
      assert DoubleQuotes(cell)[0] == '"';
    }
  }

  /** The rows of a table, as a JavaScript array of row arrays. Rows are
      held by reference, as `push` keeps them. */
  class CsvData {
    var rows: seq<array<string>>

    constructor ()
      ensures rows == []
    {
      rows := [];
    }

    /** The cells of every row, as they stand now */
    function Contents(): (contents: seq<seq<string>>)
      reads this, rows
      ensures |contents| == |rows|
      ensures forall i :: 0 <= i < |rows| ==> contents[i] == rows[i][..]
    {
      Snapshot(rows)
    }
  }

  function Snapshot(rs: seq<array<string>>): (contents: seq<seq<string>>)
    reads rs
    ensures |contents| == |rs|
    ensures forall i :: 0 <= i < |rs| ==> contents[i] == rs[i][..]
  {
    if rs == [] then [] else Snapshot(rs[..|rs| - 1]) + [rs[|rs| - 1][..]]
  }

  /** `addRow`: overwrite each cell of `csvrow` with its escaped form, then
      push the row itself onto `csvdata`. The row keeps its length, earlier
      rows are left alone, and no column count is checked. */
  method AddRow(csvdata: CsvData, csvrow: array<string>)
    modifies csvdata, csvrow
    ensures csvrow[..] == EscapeRow(old(csvrow[..]))
    ensures csvdata.rows == old(csvdata.rows) + [csvrow]
    ensures csvrow !in old(csvdata.rows) ==>
      csvdata.Contents() == old(csvdata.Contents()) + [EscapeRow(old(csvrow[..]))]
  {
    for i := 0 to csvrow.Length
      invariant forall k :: 0 <= k < i ==> csvrow[k] == EscapeCell(old(csvrow[k]))
      invariant forall k :: i <= k < csvrow.Length ==> csvrow[k] == old(csvrow[k])
      invariant csvdata.rows == old(csvdata.rows)
      invariant csvrow !in old(csvdata.rows) ==> csvdata.Contents() == old(csvdata.Contents())
    {
      var cell := csvrow[i];
      if '"' in cell {
        // double the quotes
        DoubledKeepsQuote(cell);
        cell := ReplaceAll(cell, '"', "\"\"");
      }
      if '"' in cell {
        cell := "\"" + cell + "\"";
      } else if '\n' in cell {
        cell := "\"" + cell + "\"";
      } else if '\r' in cell {
        cell := "\"" + cell + "\"";
      } else if ',' in cell {
        cell := "\"" + cell + "\"";
      }
      csvrow[i] := cell;
    }
    csvdata.rows := csvdata.rows + [csvrow];
  }

  /** One row as it is written out: its cells joined with commas, then CRLF */
  function Line(row: seq<string>): string {
    Join(row, ",") + "\r\n"
  }

  /** The serialised rows, without the byte-order mark */
  function Serialize(rows: seq<seq<string>>): string {
    if rows == [] then "" else Line(rows[0]) + Serialize(rows[1..])
  }

  /** Serialising one more row appends that row's line. */
  lemma {:induction false} SerializeAppendRow(rows: seq<seq<string>>, row: seq<string>)
    ensures Serialize(rows + [row]) == Serialize(rows) + Line(row)
  {
    if rows == [] {
      assert rows + [row] == [row];
    } else {
      assert (rows + [row])[1..] == rows[1..] + [row];
      SerializeAppendRow(rows[1..], row);
    }
  }

  /** `toCSV`: the byte-order mark, then every row in order, its cells joined
      with commas and followed by CRLF. */
  method ToCSV(csvdata: CsvData) returns (data: string)
    ensures data == Bom + Serialize(csvdata.Contents())
  {
    var contents := csvdata.Contents();
    data := Bom;
    for i := 0 to |csvdata.rows|
      invariant data == Bom + Serialize(contents[..i])
    {
      var row := csvdata.rows[i];
      assert contents[..i + 1] == contents[..i] + [row[..]];
      SerializeAppendRow(contents[..i], row[..]);
      data := data + Join(row[..], ",") + "\r\n";
    }
    assert contents[..|contents|] == contents;
  }

  /** An empty table is just the byte-order mark. */
  lemma EmptyTable(csvdata: CsvData)
    requires csvdata.rows == []
    ensures Bom + Serialize(csvdata.Contents()) == Bom
  {
  }
}
