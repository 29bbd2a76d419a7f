/** A reader for the CSV that the serialiser writes, following section 2 of
    RFC 4180 (fields separated by commas, records ended by CRLF, a quoted
    field may hold commas, line breaks and doubled quotes). It is the
    serialiser's partner: reading back an export gives the table that was
    exported. */
module CsvReader {
  import opened Wrappers
  import opened Strings
  import opened CsvMaker

  /** The rest of a quoted field, read up to its closing quote (a doubled
      quote stands for one quote): the value and the text after the closing quote */
  function ReadQuoted(s: string): (r: Option<(string, string)>)
    ensures r.Some? ==> |r.value.1| < |s|
    decreases |s|
  {
    if s == [] then None
    else if s[0] == '"' then
      if |s| >= 2 && s[1] == '"' then
        match ReadQuoted(s[2..])
        case None => None
        case Some((value, rest)) => Some((['"'] + value, rest))
      else Some(("", s[1..]))
    else
      match ReadQuoted(s[1..])
      case None => None
      case Some((value, rest)) => Some(([s[0]] + value, rest))
  }

  /** The length of an unquoted field: up to a comma or a carriage return */
  function BareLength(s: string): (n: nat)
    ensures n <= |s|
  {
    if s == [] || s[0] == ',' || s[0] == '\r' then 0 else 1 + BareLength(s[1..])
  }

  /** One field: its value and the text after it */
  function ReadField(s: string): (r: Option<(string, string)>)
    ensures r.Some? ==> |r.value.1| <= |s|
  {
    if s != [] && s[0] == '"' then ReadQuoted(s[1..])
    else
      var n := BareLength(s);
      Some((s[..n], s[n..]))
  }

  /** One record, up to and including its CRLF: its fields and the text after it */
  function ReadRecord(s: string): (r: Option<(seq<string>, string)>)
    ensures r.Some? ==> |r.value.1| < |s|
    decreases |s|
  {
    match ReadField(s)
    case None => None
    case Some((field, rest)) =>
      if |rest| >= 1 && rest[0] == ',' then
        match ReadRecord(rest[1..])
        case None => None
        case Some((fields, after)) => Some(([field] + fields, after))
      else if |rest| >= 2 && rest[0] == '\r' && rest[1] == '\n' then
        Some(([field], rest[2..]))
      else None
  }

  /** Every record of `s` */
  function ReadRecords(s: string): Option<seq<seq<string>>>
    decreases |s|
  {
    if s == [] then Some([])
    else
      match ReadRecord(s)
      case None => None
      case Some((record, rest)) =>
        match ReadRecords(rest)
        case None => None
        case Some(records) => Some([record] + records)
  }

  /** A whole export: the byte-order mark, then the records */
  function ReadCsv(data: string): Option<seq<seq<string>>> {
    if |data| >= 1 && data[0] == '\U{FEFF}' then ReadRecords(data[1..]) else None
  }

  /** Every row of a table escaped, as `AddRow` leaves them */
  function EscapeRows(rows: seq<seq<string>>): (escaped: seq<seq<string>>)
    ensures |escaped| == |rows|
    ensures forall i :: 0 <= i < |rows| ==> escaped[i] == EscapeRow(rows[i])
  {
    seq(|rows|, i requires 0 <= i < |rows| => EscapeRow(rows[i]))
  }

  /** A cell's doubled quotes followed by a closing quote read back as the cell. */
  lemma {:induction false} ReadDoubledQuotes(cell: string, rest: string)
    requires rest == [] || rest[0] != '"'
    ensures ReadQuoted(DoubleQuotes(cell) + "\"" + rest) == Some((cell, rest))
  {
    var s := DoubleQuotes(cell) + "\"" + rest;
    if cell == [] {
      assert s == "\"" + rest;
      assert s[1..] == rest;
    } else {
      ReadDoubledQuotes(cell[1..], rest);
      var tail := DoubleQuotes(cell[1..]) + "\"" + rest;
      if cell[0] == '"' {
        assert s == "\"\"" + tail;
        assert s[2..] == tail;
      } else {
        assert s == [cell[0]] + tail;
        assert s[1..] == tail;
      }
      assert [cell[0]] + cell[1..] == cell;
    }
  }

  /** An unquoted field runs to the end of a cell without commas and carriage returns. */
  lemma {:induction false} BareLengthOfCell(cell: string, rest: string)
    requires ',' !in cell && '\r' !in cell
    requires rest == [] || rest[0] == ',' || rest[0] == '\r'
    ensures BareLength(cell + rest) == |cell|
  {
    if cell == [] {
      assert cell + rest == rest;
    } else {
      assert (cell + rest)[1..] == cell[1..] + rest;
      BareLengthOfCell(cell[1..], rest);
    }
  }

  /** An escaped cell followed by a comma, a CRLF or the end reads back as the cell. */
  lemma ReadEscapedCell(cell: string, rest: string)
    requires rest == [] || rest[0] == ',' || rest[0] == '\r'
    ensures ReadField(EscapeCell(cell) + rest) == Some((cell, rest))
  {
    var e := EscapeCell(cell);
    if NeedsQuotes(cell) {
      var d := DoubleQuotes(cell);
      assert e == "\"" + d + "\"";
      var s := e + rest;
      assert s == "\"" + (d + "\"" + rest);
      assert s[1..] == d + "\"" + rest;
      ReadDoubledQuotes(cell, rest);
    } else {
      assert e == cell;
      BareLengthOfCell(cell, rest);
      var s := cell + rest;
      assert s[..|cell|] == cell && s[|cell|..] == rest;
      if cell != [] {
        assert s[0] == cell[0];
      }
    }
  }

  /** The last cell of a line: the escaped cell, then CRLF, reads back as a one-field record. */
  lemma ReadLastCell(cell: string, rest: string)
    ensures ReadRecord(EscapeCell(cell) + ("\r\n" + rest)) == Some(([cell], rest))
  {
    var after := "\r\n" + rest;
    ReadEscapedCell(cell, after);
    assert after[0] == '\r' && after[1] == '\n' && after[2..] == rest;
  }

  /** A cell followed by a comma and a readable record reads back as one more field. */
  lemma ReadCellThenRecord(cell: string, after: string, fields: seq<string>, rest: string)
    requires ReadRecord(after) == Some((fields, rest))
    ensures ReadRecord(EscapeCell(cell) + ("," + after)) == Some(([cell] + fields, rest))
  {
    ReadEscapedCell(cell, "," + after);
    assert ("," + after)[1..] == after;
  }

  /** An escaped, non-empty row followed by CRLF reads back as the row. */
  lemma {:induction false} ReadEscapedRow(row: seq<string>, rest: string)
    requires |row| >= 1
    ensures ReadRecord(Line(EscapeRow(row)) + rest) == Some((row, rest))
  {
    var escaped := EscapeRow(row);
    var s := Line(escaped) + rest;
    if |row| == 1 {
      assert s == EscapeCell(row[0]) + ("\r\n" + rest);
      ReadLastCell(row[0], rest);
      assert [row[0]] == row;
    } else {
      var after := Line(EscapeRow(row[1..])) + rest;
      assert escaped[1..] == EscapeRow(row[1..]);
      assert s == EscapeCell(row[0]) + ("," + after);
      ReadEscapedRow(row[1..], rest);
      ReadCellThenRecord(row[0], after, row[1..], rest);
      assert [row[0]] + row[1..] == row;
    }
  }

  /** Reading back the serialised escaped rows gives the rows. */
  lemma {:induction false} ReadSerialized(rows: seq<seq<string>>)
    requires forall i :: 0 <= i < |rows| ==> |rows[i]| >= 1
    ensures ReadRecords(Serialize(EscapeRows(rows))) == Some(rows)
  {
    if rows != [] {
      var escaped := EscapeRows(rows);
      assert escaped[1..] == EscapeRows(rows[1..]);
      var rest := Serialize(EscapeRows(rows[1..]));
      assert Serialize(escaped) == Line(EscapeRow(rows[0])) + rest;
      ReadEscapedRow(rows[0], rest);
      ReadSerialized(rows[1..]);
      assert [rows[0]] + rows[1..] == rows;
    }
  }

  /** Round trip: exporting a table whose rows each have at least one cell,
      after `AddRow` has escaped them, and reading the export back gives the
      table. (A row without cells is written as an empty line, which reads
      back as one empty cell.) */
  lemma CsvRoundTrip(rows: seq<seq<string>>)
    requires forall i :: 0 <= i < |rows| ==> |rows[i]| >= 1
    ensures ReadCsv(Bom + Serialize(EscapeRows(rows))) == Some(rows)
  {
    ReadSerialized(rows);
    assert (Bom + Serialize(EscapeRows(rows)))[1..] == Serialize(EscapeRows(rows));
  }
}
