/** The row-level TSV check run when the target file's content arrives
    (the validation effect of TargetFile.context.js): the header row must be
    the fixed nine-column header and every later row must split into exactly
    nine tab-separated columns. Each violation becomes a critical notice
    `[link, line, message]` that links to the offending line. */
module TsvValidator {
  import opened Wrappers
  import opened Strings
  import opened Gitea

  /** The nine column names, in order */
  const HeaderNames: seq<string> :=
    ["Book", "Chapter", "Verse", "ID", "SupportReference", "OrigQuote", "Occurrence", "GLQuote", "OccurrenceNote"]

  /** The header every translation-notes TSV file starts with: the column names separated by tabs */
  const Header: string := Join(HeaderNames, "\t")
  const ExpectedColumns: nat := 9

  /** The message of a bad header: the expected header with its tabs shown as ", " */
  const HeaderMessage: string := "Bad TSV Header, expecting \"" + ReplaceAll(Header, '\t', ", ") + "\""

  /** The expected header has exactly the nine expected columns, and the bad-header
      message lists them comma-separated. */
  lemma HeaderShape()
    ensures Split(Header, '\t') == HeaderNames
    ensures ColumnCount(Header) == ExpectedColumns
    ensures HeaderMessage == "Bad TSV Header, expecting \"" + Join(HeaderNames, ", ") + "\""
  {
    SplitJoin(HeaderNames, '\t');
    ReplaceAllJoin(HeaderNames, '\t', ", ");
  }

  lemma HeaderHasNoLineFeed()
    ensures '\n' !in Header
  {
    JoinAvoids(HeaderNames, "\t", '\n');
  }

  /** What is wrong with one line: the header row, or a later row with the wrong
      number of columns (`line` is 1-based). */
  datatype Issue = BadHeader | WrongColumnCount(line: nat, found: nat)

  /** A critical notice as the page receives it: link, line number as text, message */
  datatype Notice = Notice(link: string, line: string, message: string)

  /** What one run of the validation effect reports through its callbacks:
      `onValidated(ok)`, `onCriticalErrors(notices)`, or neither. */
  datatype Outcome = Validated(ok: bool) | CriticalErrors(notices: seq<Notice>) | NoCallback

  /** As written: the rows of a document are its text with trailing whitespace
      trimmed, then split on line feeds. */
  function Rows(content: string): (rows: seq<string>)
    ensures |rows| >= 1
    ensures forall i :: 0 <= i < |rows| ==> '\n' !in rows[i]
    ensures Join(rows, "\n") == TrimEnd(content)
  {
    JoinSplit(TrimEnd(content), '\n');
    Split(TrimEnd(content), '\n')
  }

  /** The number of tab-separated columns of a row: one more than its tabs */
  function ColumnCount(row: string): (n: nat)
    ensures n == Count(row, '\t') + 1
  {
    |Split(row, '\t')|
  }

  function HeaderIssues(rows: seq<string>): seq<Issue>
    requires |rows| >= 1
  {
    if rows[0] != Header then [BadHeader] else []
  }

  /** The issue, if any, of row `i` (line `i + 1`) */
  function RowIssue(rows: seq<string>, i: nat): seq<Issue>
    requires 1 <= i < |rows|
  {
    var n := ColumnCount(rows[i]);
    if n != ExpectedColumns then [WrongColumnCount(i + 1, n)] else []
  }

  /** The issues of rows 1 .. n - 1, in row order */
  function RowIssues(rows: seq<string>, n: nat): seq<Issue>
    requires n <= |rows|
  {
    if n <= 1 then [] else RowIssues(rows, n - 1) + RowIssue(rows, n - 1)
  }

  /** Every issue of a document, header first */
  function Issues(rows: seq<string>): seq<Issue>
    requires |rows| >= 1
  {
    HeaderIssues(rows) + RowIssues(rows, |rows|)
  }

  function IssueLine(issue: Issue): nat {
    match issue
    case BadHeader => 1
    case WrongColumnCount(line, _) => line
  }

  /** The link to a file's blame view: the first "/src/" of its browse URL
      becomes "/blame/". */
  function BlameLink(htmlUrl: string): (link: string)
    ensures (forall k :: !OccursAt(htmlUrl, "/src/", k)) ==> link == htmlUrl
    ensures forall k ::
              OccursAt(htmlUrl, "/src/", k) && (forall j :: 0 <= j < k ==> !OccursAt(htmlUrl, "/src/", j))
              ==> link == htmlUrl[..k] + "/blame/" + htmlUrl[k + 5..]
  {
    ReplaceFirst(htmlUrl, "/src/", "/blame/")
  }

  function Message(issue: Issue): string {
    match issue
    case BadHeader => HeaderMessage
    case WrongColumnCount(_, found) =>
      (if found < ExpectedColumns then "Not enough columns, expecting 9, found "
       else "Too many columns, expecting 9, found ") + NatToString(found)
  }

  function ToNotice(link: string, issue: Issue): Notice {
    var line := NatToString(IssueLine(issue));
    Notice(link + "#L" + line, line, Message(issue))
  }

  function ToNotices(link: string, issues: seq<Issue>): seq<Notice> {
    seq(|issues|, i requires 0 <= i < |issues| => ToNotice(link, issues[i]))
  }

  lemma ToNoticesAppend(link: string, a: seq<Issue>, b: seq<Issue>)
    ensures ToNotices(link, a + b) == ToNotices(link, a) + ToNotices(link, b)
  {
  }

  /** The notice the loop pushes for row `i` is the rendering of that row's issue. */
  lemma RowNotice(link: string, rows: seq<string>, i: nat)
    requires 1 <= i < |rows|
    ensures var n := |Split(rows[i], '\t')|;
      ToNotices(link, RowIssue(rows, i))
      == if n < ExpectedColumns then
           [Notice(link + "#L" + NatToString(i + 1), NatToString(i + 1),
                   "Not enough columns, expecting 9, found " + NatToString(n))]
         else if n > ExpectedColumns then
           [Notice(link + "#L" + NatToString(i + 1), NatToString(i + 1),
                   "Too many columns, expecting 9, found " + NatToString(n))]
         else []
  {
  }

  lemma HeaderNotice(link: string, rows: seq<string>)
    requires |rows| >= 1
    ensures ToNotices(link, HeaderIssues(rows))
      == if Header != rows[0] then [Notice(link + "#L1", "1", HeaderMessage)] else []
  {
    assert DigitChar(1) == '1';
    assert NatToString(1) == "1";
    if Header != rows[0] {
      assert HeaderIssues(rows) == [BadHeader];
      assert ToNotice(link, BadHeader) == Notice(link + "#L1", "1", HeaderMessage);
    }
  }

  /** Every row issue up to row n - 1 belongs to a bad row and carries that
      row's actual column count. */
  lemma {:induction false} RowIssuesSound(rows: seq<string>, n: nat)
    requires n <= |rows|
    ensures forall x :: x in RowIssues(rows, n) ==>
      && x.WrongColumnCount?
      && 2 <= x.line <= n
      && x.found == ColumnCount(rows[x.line - 1]) != ExpectedColumns
  {
    if n > 1 {
      RowIssuesSound(rows, n - 1);
    }
  }

  /** Every bad row up to row n - 1 has its issue. */
  lemma {:induction false} RowIssuesComplete(rows: seq<string>, n: nat)
    requires n <= |rows|
    ensures forall i :: 1 <= i < n && ColumnCount(rows[i]) != ExpectedColumns ==>
      WrongColumnCount(i + 1, ColumnCount(rows[i])) in RowIssues(rows, n)
  {
    if n > 1 {
      RowIssuesComplete(rows, n - 1);
    }
  }

  /** Row issues come in strictly ascending line order. */
  lemma {:induction false} RowIssuesAscending(rows: seq<string>, n: nat)
    requires n <= |rows|
    ensures forall a, b :: 0 <= a < b < |RowIssues(rows, n)| ==>
      IssueLine(RowIssues(rows, n)[a]) < IssueLine(RowIssues(rows, n)[b])
  {
    if n > 1 {
      RowIssuesAscending(rows, n - 1);
      RowIssuesSound(rows, n - 1);
      var prev := RowIssues(rows, n - 1);
      forall a | 0 <= a < |prev|
        ensures IssueLine(prev[a]) < n
      {
        assert prev[a] in prev;
      }
    }
  }

  /** There are as many row issues as bad rows. */
  lemma {:induction false} RowIssuesCount(rows: seq<string>, n: nat)
    requires n <= |rows|
    ensures |RowIssues(rows, n)| == |BadRows(rows, n)|
  {
    if n > 1 {
      RowIssuesCount(rows, n - 1);
      var bad := BadRows(rows, n - 1);
      if ColumnCount(rows[n - 1]) != ExpectedColumns {
        assert BadRows(rows, n) == bad + {n - 1};
        assert n - 1 !in bad;
      } else {
        assert BadRows(rows, n) == bad;
      }
    } else {
      assert BadRows(rows, n) == {};
    }
  }

  /** The rows among 1 .. n - 1 whose column count is wrong */
  ghost function BadRows(rows: seq<string>, n: nat): set<nat>
    requires n <= |rows|
  {
    set i: nat | 1 <= i < n && ColumnCount(rows[i]) != ExpectedColumns
  }

  /** Exactly the bad lines are reported: line 1 when the header differs, and
      line i + 1 for every later row i whose column count is not nine, with
      that count. */
  lemma IssuesAreTheBadLines(rows: seq<string>)
    requires |rows| >= 1
    ensures BadHeader in Issues(rows) <==> rows[0] != Header
    ensures forall i :: 1 <= i < |rows| ==>
      (WrongColumnCount(i + 1, ColumnCount(rows[i])) in Issues(rows) <==> ColumnCount(rows[i]) != ExpectedColumns)
    ensures forall x :: x in Issues(rows) && x.WrongColumnCount? ==>
      2 <= x.line <= |rows| && x.found == ColumnCount(rows[x.line - 1]) != ExpectedColumns
  {
    RowIssuesSound(rows, |rows|);
    RowIssuesComplete(rows, |rows|);
  }

  /** Issues come in strictly ascending line order, so no line is reported twice. */
  lemma IssuesInLineOrder(rows: seq<string>)
    requires |rows| >= 1
    ensures forall a, b :: 0 <= a < b < |Issues(rows)| ==> IssueLine(Issues(rows)[a]) < IssueLine(Issues(rows)[b])
  {
    RowIssuesAscending(rows, |rows|);
    RowIssuesSound(rows, |rows|);
    var rowIssues := RowIssues(rows, |rows|);
    forall b | 0 <= b < |rowIssues|
      ensures IssueLine(rowIssues[b]) > 1
    {
      assert rowIssues[b] in rowIssues;
    }
  }

  /** The line numbers the notices carry, read back as numbers, strictly increase. */
  lemma NoticesInLineOrder(link: string, rows: seq<string>)
    requires |rows| >= 1
    ensures var notices := ToNotices(link, Issues(rows));
      forall a, b :: 0 <= a < b < |notices| ==> DecimalValue(notices[a].line) < DecimalValue(notices[b].line)
  {
    var issues := Issues(rows);
    var notices := ToNotices(link, issues);
    IssuesInLineOrder(rows);
    forall a | 0 <= a < |notices|
      ensures DecimalValue(notices[a].line) == IssueLine(issues[a])
    {
      NatToStringRoundTrip(IssueLine(issues[a]));
    }
  }

  /** The number of notices is one for a bad header plus one per bad row. */
  lemma IssueCount(rows: seq<string>)
    requires |rows| >= 1
    ensures |Issues(rows)| == (if rows[0] != Header then 1 else 0) + |BadRows(rows, |rows|)|
  {
    RowIssuesCount(rows, |rows|);
  }

  /** A document whose first row is the header and whose every later row has
      nine columns has no issues, whatever its cells hold. */
  lemma WellFormedRowsHaveNoIssues(rows: seq<string>)
    requires |rows| >= 1 && rows[0] == Header
    requires forall i :: 1 <= i < |rows| ==> ColumnCount(rows[i]) == ExpectedColumns
    ensures Issues(rows) == []
  {
    RowIssuesCount(rows, |rows|);
    assert BadRows(rows, |rows|) == {};
  }

  /** Trailing whitespace, blank lines included, adds no rows. */
  lemma TrailingWhitespaceAddsNoRows(content: string, w: string)
    requires forall i :: 0 <= i < |w| ==> IsWhitespace(w[i])
    ensures Rows(content + w) == Rows(content)
  {
    TrimEndIgnoresTrailingWhitespace(content, w);
  }

  /** The last row is never empty, unless the whole document is blank. */
  lemma LastRowNotEmpty(content: string)
    ensures var rows := Rows(content);
      rows[|rows| - 1] == [] ==> rows == [""]
  {
    var s := TrimEnd(content);
    if s != [] {
      LastPieceNotEmpty(s, '\n');
    }
  }

  /** The header check: one notice at line 1 when the first row is not the header */
  method CheckHeader(link: string, firstRow: string, criticalNotices: seq<Notice>) returns (notices: seq<Notice>)
    ensures notices == criticalNotices + ToNotices(link, HeaderIssues([firstRow]))
  {
    notices := criticalNotices;
    if Header != firstRow {
      notices := notices + [Notice(link + "#L1", "1", HeaderMessage)];
    }
    HeaderNotice(link, [firstRow]);
  }

  /** The notices of one TSV file: the file's issues, each rendered with a
      link into the file's blame view, in line order. The rows are split as
      `IntendedRows` does, so that a last row keeps its empty trailing cells
      (see `TrimEndDropsEmptyLastCell`). */
  method CollectNotices(htmlUrl: string, content: string) returns (criticalNotices: seq<Notice>)
    ensures criticalNotices == ToNotices(BlameLink(htmlUrl), Issues(IntendedRows(content)))
  {
    var link := BlameLink(htmlUrl);
    var rows := IntendedRows(content);
    criticalNotices := CheckRows(link, rows);
  }

  /** The checks of the validation effect over the rows of a file: the header
      check, then one notice for each later row without nine columns. */
  method CheckRows(link: string, rows: seq<string>) returns (criticalNotices: seq<Notice>)
    requires |rows| >= 1
    ensures criticalNotices == ToNotices(link, Issues(rows))
  {
    criticalNotices := [];
    criticalNotices := CheckHeader(link, rows[0], criticalNotices);
    assert criticalNotices == ToNotices(link, HeaderIssues(rows));
    assert HeaderIssues(rows) + RowIssues(rows, 1) == HeaderIssues(rows);
    if |rows| > 1 {
      for i := 1 to |rows|
        invariant criticalNotices == ToNotices(link, HeaderIssues(rows) + RowIssues(rows, i))
      {
        ToNoticesAppend(link, HeaderIssues(rows) + RowIssues(rows, i), RowIssue(rows, i));
        criticalNotices := CheckRow(link, rows, i, criticalNotices);
        assert HeaderIssues(rows) + RowIssues(rows, i + 1)
            == (HeaderIssues(rows) + RowIssues(rows, i)) + RowIssue(rows, i);
      }
    }
  }

  /** The column check of one row: a notice for line `i + 1` when the row
      does not split into nine columns. */
  method CheckRow(link: string, rows: seq<string>, i: nat, criticalNotices: seq<Notice>) returns (notices: seq<Notice>)
    requires 1 <= i < |rows|
    ensures notices == criticalNotices + ToNotices(link, RowIssue(rows, i))
  {
    RowNotice(link, rows, i);
    notices := criticalNotices;
    var line := i + 1;
    var cols := Split(rows[i], '\t');
    if |cols| < ExpectedColumns {
      notices := notices + [Notice(
        link + "#L" + NatToString(line),
        NatToString(line),
        "Not enough columns, expecting 9, found " + NatToString(|cols|))];
    } else if |cols| > ExpectedColumns {
      notices := notices + [Notice(
        link + "#L" + NatToString(line),
        NatToString(line),
        "Too many columns, expecting 9, found " + NatToString(|cols|))];
    }
  }

  /** One run of the validation effect. Without a loaded file it reports
      "not validated"; a file already validated is left alone; a file whose
      name does not end in ".tsv" is valid whatever it holds; a TSV file is
      valid exactly when it has no issues, and otherwise its notices are
      reported in line order. */
  method ValidationPass(state: Option<FileState>, validated: bool) returns (outcome: Outcome)
    ensures state.None? || state.value.content.None? ==> outcome == Validated(false)
    ensures state.Some? && state.value.content.Some? && validated ==> outcome == NoCallback
    ensures state.Some? && state.value.content.Some? && !validated && !EndsWith(state.value.name, ".tsv")
      ==> outcome == Validated(true)
    ensures state.Some? && state.value.content.Some? && !validated && EndsWith(state.value.name, ".tsv") ==>
      var issues := Issues(IntendedRows(state.value.content.value));
      && (issues == [] ==> outcome == Validated(true))
      && (issues != [] ==> outcome == CriticalErrors(ToNotices(BlameLink(state.value.htmlUrl), issues)))
  {
    if state.None? || state.value.content.None? {
      return Validated(false);
    }
    if validated {
      return NoCallback;
    }
    var file := state.value;
    if !EndsWith(file.name, ".tsv") {
      return Validated(true);
    }
    var criticalNotices := CollectNotices(file.htmlUrl, file.content.value);
    if |criticalNotices| > 0 {
      outcome := CriticalErrors(criticalNotices);
    } else {
      outcome := Validated(true);
    }
  }

  // Trailing empty cells of the last row.
  //
  // `trimEnd` runs over the whole document, so besides trailing blank lines
  // it also strips the tabs that end a last row whose final cells are empty.

  /** A row whose last cell is empty ends in a tab; without it, it has one column less. */
  lemma EmptyLastCell(cells: seq<string>)
    requires |cells| == ExpectedColumns && cells[8] == ""
    requires forall i :: 0 <= i < |cells| ==> '\t' !in cells[i] && '\n' !in cells[i]
    requires cells[7] != [] && !IsWhitespace(cells[7][|cells[7]| - 1])
    ensures var kept := Join(cells[..8], "\t");
      && Join(cells, "\t") == kept + "\t"
      && ColumnCount(Join(cells, "\t")) == ExpectedColumns
      && ColumnCount(kept) == 8
      && '\n' !in kept
      && kept != [] && !IsWhitespace(kept[|kept| - 1])
  {
    var front := cells[..8];
    assert cells == front + [""];
    JoinAppend(front, [""], "\t");
    SplitJoin(cells, '\t');
    SplitJoin(front, '\t');
    assert front == front[..7] + [cells[7]];
    JoinAppend(front[..7], [cells[7]], "\t");
    JoinAvoids(front, "\t", '\n');
  }

  /** Two lines followed by whitespace make two rows. */
  lemma TwoRows(first: string, second: string, w: string)
    requires '\n' !in first && '\n' !in second
    requires second != [] && !IsWhitespace(second[|second| - 1])
    requires forall i :: 0 <= i < |w| ==> IsWhitespace(w[i])
    ensures Rows(first + "\n" + (second + w)) == [first, second]
  {
    var s := first + "\n" + second;
    assert first + "\n" + (second + w) == s + w;
    TrimEndIgnoresTrailingWhitespace(s, w);
    assert TrimEnd(s) == s;
    SplitAtFirst(first, '\n', second);
    SplitWithoutSeparator(second, '\n');
  }

  /** As written: a document made of the header and one nine-cell row whose
      last cell (OccurrenceNote) is empty and whose eighth cell ends in a
      non-whitespace character is reported as having a row of eight columns at
      line 2. Each further empty cell at the end of the row costs one more
      column, since `trimEnd` removes every trailing tab. */
  lemma TrimEndDropsEmptyLastCell(cells: seq<string>)
    requires |cells| == ExpectedColumns && cells[8] == ""
    requires forall i :: 0 <= i < |cells| ==> '\t' !in cells[i] && '\n' !in cells[i]
    requires cells[7] != [] && !IsWhitespace(cells[7][|cells[7]| - 1])
    ensures ColumnCount(Join(cells, "\t")) == ExpectedColumns
    ensures Issues(Rows(Header + "\n" + Join(cells, "\t"))) == [WrongColumnCount(2, 8)]
  {
    EmptyLastCell(cells);
    var kept := Join(cells[..8], "\t");
    HeaderHasNoLineFeed();
    TwoRows(Header, kept, "\t");
    var rows := [Header, kept];
    assert RowIssues(rows, 2) == RowIssue(rows, 1);
  }

  /** A row made of whitespace only */
  predicate IsBlank(row: string) {
    forall i :: 0 <= i < |row| ==> IsWhitespace(row[i])
  }

  /** The rows with the trailing blank rows removed (at least one row is kept) */
  function DropTrailingBlankRows(rows: seq<string>): (kept: seq<string>)
    requires |rows| >= 1
    ensures 1 <= |kept| <= |rows| && kept == rows[..|kept|]
    ensures |kept| > 1 ==> !IsBlank(kept[|kept| - 1])
    ensures forall i :: |kept| <= i < |rows| ==> IsBlank(rows[i])
  {
    if |rows| > 1 && IsBlank(rows[|rows| - 1]) then DropTrailingBlankRows(rows[..|rows| - 1]) else rows
  }

  /** The whitespace the correction trims from the end of the last row: all
      of `trimEnd`'s whitespace except the tab, which separates cells. */
  predicate IsLineEndSpace(c: char) {
    IsWhitespace(c) && c != '\t'
  }

  /** The last row without its trailing spaces, carriage returns and other
      non-tab whitespace */
  function TrimLineEnd(row: string): (r: string)
    ensures r <= row
    ensures r == [] || !IsLineEndSpace(r[|r| - 1])
    ensures forall i :: |r| <= i < |row| ==> IsLineEndSpace(row[i])
  {
    if |row| > 0 && IsLineEndSpace(row[|row| - 1]) then TrimLineEnd(row[..|row| - 1]) else row
  }

  /** Corrected: split on line feeds, drop the blank trailing lines, then trim
      the trailing non-tab whitespace of the last row. Only the tabs that
      end a last row with empty final cells are kept, where `trimEnd`
      removes them too. */
  function IntendedRows(content: string): (rows: seq<string>)
    ensures |rows| >= 1
  {
    TrimLastRow(DropTrailingBlankRows(Split(content, '\n')))
  }

  /** The rows with the last one trimmed of its trailing non-tab whitespace */
  function TrimLastRow(rows: seq<string>): (trimmed: seq<string>)
    requires |rows| >= 1
    ensures |trimmed| == |rows|
    ensures forall i :: 0 <= i < |rows| - 1 ==> trimmed[i] == rows[i]
    ensures trimmed[|rows| - 1] == TrimLineEnd(rows[|rows| - 1])
  {
    rows[..|rows| - 1] + [TrimLineEnd(rows[|rows| - 1])]
  }

  lemma {:induction false} DropBlanks(rows: seq<string>, blanks: seq<string>)
    requires |rows| >= 1 && !IsBlank(rows[|rows| - 1])
    requires forall i :: 0 <= i < |blanks| ==> IsBlank(blanks[i])
    ensures DropTrailingBlankRows(rows + blanks) == rows
  {
    if blanks == [] {
      assert rows + blanks == rows;
    } else {
      var n := |blanks| - 1;
      assert (rows + blanks)[..|rows + blanks| - 1] == rows + blanks[..n];
      DropBlanks(rows, blanks[..n]);
    }
  }

  /** Trimming a row that is a body followed by non-tab whitespace gives the body. */
  lemma TrimLineEndOf(body: string, ws: string)
    requires body == [] || !IsLineEndSpace(body[|body| - 1])
    requires forall i :: 0 <= i < |ws| ==> IsLineEndSpace(ws[i])
    ensures TrimLineEnd(body + ws) == body
  {
    var row := body + ws;
    var r := TrimLineEnd(row);
    if body != [] {
      assert !IsLineEndSpace(row[|body| - 1]);
    }
    assert |r| >= |body|;
    assert |r| <= |body|;
    assert r == row[..|body|] == body;
  }

  /** The trimmed row has the same tabs, hence the same columns. */
  lemma TrimLineEndKeepsColumns(row: string)
    ensures ColumnCount(TrimLineEnd(row)) == ColumnCount(row)
  {
    var r := TrimLineEnd(row);
    var cut := row[|r|..];
    assert row == r + cut;
    CountAppend(r, cut, '\t');
    assert forall i :: 0 <= i < |cut| ==> cut[i] == row[|r| + i];
    CountAbsent(cut, '\t');
  }

  /** The corrected rows of a document are its lines, the last one trimmed,
      whatever blank lines follow them. */
  lemma IntendedRowsIgnoreTrailingBlankLines(rows: seq<string>, blanks: seq<string>)
    requires |rows| >= 1 && !IsBlank(rows[|rows| - 1])
    requires forall i :: 0 <= i < |rows| ==> '\n' !in rows[i]
    requires forall i :: 0 <= i < |blanks| ==> '\n' !in blanks[i] && IsBlank(blanks[i])
    ensures IntendedRows(Join(rows + blanks, "\n")) == TrimLastRow(rows)
  {
    var all := rows + blanks;
    forall i | 0 <= i < |all|
      ensures '\n' !in all[i]
    {
      if i >= |rows| {
        assert all[i] == blanks[i - |rows|];
      }
    }
    SplitJoin(all, '\n');
    DropBlanks(rows, blanks);
  }

  /** The expected header ends in a letter, so trimming leaves it alone. */
  lemma HeaderUntrimmed()
    ensures TrimLineEnd(Header) == Header
  {
    HeaderIsOneLine();
    TrimLineEndOf(Header, "");
    assert Header + "" == Header;
  }

  /** Trimming the last row keeps a well-formed document well formed. */
  lemma TrimmedRowsWellFormed(rows: seq<string>)
    requires |rows| >= 1 && rows[0] == Header
    requires forall i :: 1 <= i < |rows| ==> ColumnCount(rows[i]) == ExpectedColumns
    ensures TrimLastRow(rows)[0] == Header
    ensures forall i :: 1 <= i < |rows| ==> ColumnCount(TrimLastRow(rows)[i]) == ExpectedColumns
  {
    var n := |rows|;
    TrimLineEndKeepsColumns(rows[n - 1]);
    if n == 1 {
      HeaderUntrimmed();
    }
  }

  /** Corrected: a document whose lines are the header and nine-column rows has
      no issues, whatever its cells hold and whatever blank lines follow it. */
  lemma IntendedAcceptsWellFormed(rows: seq<string>, blanks: seq<string>)
    requires |rows| >= 1 && rows[0] == Header && !IsBlank(rows[|rows| - 1])
    requires forall i :: 0 <= i < |rows| ==> '\n' !in rows[i]
    requires forall i :: 1 <= i < |rows| ==> ColumnCount(rows[i]) == ExpectedColumns
    requires forall i :: 0 <= i < |blanks| ==> '\n' !in blanks[i] && IsBlank(blanks[i])
    ensures Issues(IntendedRows(Join(rows + blanks, "\n"))) == []
  {
    IntendedRowsIgnoreTrailingBlankLines(rows, blanks);
    var trimmed := TrimLastRow(rows);
    TrimmedRowsWellFormed(rows);
    WellFormedRowsHaveNoIssues(trimmed);
  }

  /** Blank lines joined by line feeds are whitespace throughout. */
  lemma {:induction false} JoinBlank(blanks: seq<string>)
    requires forall i :: 0 <= i < |blanks| ==> IsBlank(blanks[i])
    ensures IsBlank(Join(blanks, "\n"))
  {
    if |blanks| > 1 {
      JoinBlank(blanks[1..]);
      var j := Join(blanks, "\n");
      assert j == blanks[0] + "\n" + Join(blanks[1..], "\n");
      forall i | 0 <= i < |j|
        ensures IsWhitespace(j[i])
      {
        if i < |blanks[0]| {
          assert j[i] == blanks[0][i];
        } else if i > |blanks[0]| {
          assert j[i] == Join(blanks[1..], "\n")[i - |blanks[0]| - 1];
        }
      }
    }
  }

  /** The blank lines after the last row, with their line feeds */
  lemma JoinBlankTail(rows: seq<string>, blanks: seq<string>) returns (tail: string)
    requires |rows| >= 1
    requires forall i :: 0 <= i < |blanks| ==> IsBlank(blanks[i])
    ensures Join(rows + blanks, "\n") == Join(rows, "\n") + tail
    ensures forall i :: 0 <= i < |tail| ==> IsWhitespace(tail[i])
  {
    if blanks == [] {
      assert rows + blanks == rows;
      tail := "";
    } else {
      JoinAppend(rows, blanks, "\n");
      JoinBlank(blanks);
      tail := "\n" + Join(blanks, "\n");
      forall i | 0 <= i < |tail|
        ensures IsWhitespace(tail[i])
      {
        if i > 0 {
          assert tail[i] == Join(blanks, "\n")[i - 1];
        }
      }
    }
  }

  /** Extending the last part extends the join. */
  lemma JoinLastExtended(front: seq<string>, last: string, ws: string)
    ensures Join(front + [last + ws], "\n") == Join(front + [last], "\n") + ws
    ensures Join(front + [last], "\n") == (if front == [] then last else Join(front, "\n") + "\n" + last)
  {
    if front == [] {
      assert front + [last + ws] == [last + ws];
      assert front + [last] == [last];
    } else {
      JoinAppend(front, [last + ws], "\n");
      JoinAppend(front, [last], "\n");
    }
  }

  /** A body followed by non-tab whitespace, as a last line */
  predicate TrailingLine(body: string, ws: string) {
    && body != [] && '\n' !in body && !IsWhitespace(body[|body| - 1])
    && forall i :: 0 <= i < |ws| ==> IsLineEndSpace(ws[i]) && ws[i] != '\n'
  }

  /** Such a last line contains no line feed and is not blank. */
  lemma TrailingLineShape(body: string, ws: string)
    requires TrailingLine(body, ws)
    ensures '\n' !in body + ws && !IsBlank(body + ws)
  {
    var last := body + ws;
    forall j | 0 <= j < |last|
      ensures last[j] != '\n'
    {
      if j < |body| {
        assert last[j] == body[j];
      } else {
        assert last[j] == ws[j - |body|];
      }
    }
    assert last[|body| - 1] == body[|body| - 1];
  }

  /** Lines without line feeds, extended by one more */
  lemma LinesAppend(front: seq<string>, last: string)
    requires forall i :: 0 <= i < |front| ==> '\n' !in front[i]
    requires '\n' !in last
    ensures forall i :: 0 <= i < |front + [last]| ==> '\n' !in (front + [last])[i]
  {
    forall i | 0 <= i < |front + [last]|
      ensures '\n' !in (front + [last])[i]
    {
      if i < |front| {
        assert (front + [last])[i] == front[i];
      }
    }
  }

  /** The corrected rows of such a document end in the body. */
  lemma IntendedRowsOfTrailingLine(front: seq<string>, body: string, ws: string, blanks: seq<string>)
    requires forall i :: 0 <= i < |front| ==> '\n' !in front[i]
    requires TrailingLine(body, ws)
    requires forall i :: 0 <= i < |blanks| ==> '\n' !in blanks[i] && IsBlank(blanks[i])
    ensures IntendedRows(Join(front + [body + ws] + blanks, "\n")) == front + [body]
  {
    var rows := front + [body + ws];
    TrailingLineShape(body, ws);
    LinesAppend(front, body + ws);
    IntendedRowsIgnoreTrailingBlankLines(rows, blanks);
    TrimLineEndOf(body, ws);
    var trimmed := TrimLastRow(rows);
    assert trimmed == front + [body];
  }

  /** As written, the rows of such a document end in the body too. */
  lemma RowsOfTrailingLine(front: seq<string>, body: string, ws: string, blanks: seq<string>)
    requires forall i :: 0 <= i < |front| ==> '\n' !in front[i]
    requires TrailingLine(body, ws)
    requires forall i :: 0 <= i < |blanks| ==> IsBlank(blanks[i])
    ensures Rows(Join(front + [body + ws] + blanks, "\n")) == front + [body]
  {
    var text := Join(front + [body], "\n");
    var w := TrailingText(front, body, ws, blanks);
    TrimEndIgnoresTrailingWhitespace(text, w);
    JoinLastExtended(front, body, "");
    TrimEndOfText(text, body, front);
    LinesAppend(front, body);
    SplitJoin(front + [body], '\n');
  }

  /** Such a document is the joined lines up to the body, then whitespace only. */
  lemma TrailingText(front: seq<string>, body: string, ws: string, blanks: seq<string>) returns (w: string)
    requires TrailingLine(body, ws)
    requires forall i :: 0 <= i < |blanks| ==> IsBlank(blanks[i])
    ensures Join(front + [body + ws] + blanks, "\n") == Join(front + [body], "\n") + w
    ensures forall i :: 0 <= i < |w| ==> IsWhitespace(w[i])
  {
    var rows := front + [body + ws];
    var tail := JoinBlankTail(rows, blanks);
    JoinLastExtended(front, body, ws);
    w := ws + tail;
    WhitespaceAppend(ws, tail);
  }

  /** Whitespace followed by whitespace is whitespace. */
  lemma WhitespaceAppend(ws: string, tail: string)
    requires forall i :: 0 <= i < |ws| ==> IsLineEndSpace(ws[i])
    requires forall i :: 0 <= i < |tail| ==> IsWhitespace(tail[i])
    ensures forall i :: 0 <= i < |ws + tail| ==> IsWhitespace((ws + tail)[i])
  {
    forall i | 0 <= i < |ws + tail|
      ensures IsWhitespace((ws + tail)[i])
    {
      if i < |ws| {
        assert (ws + tail)[i] == ws[i];
      } else {
        assert (ws + tail)[i] == tail[i - |ws|];
      }
    }
  }

  /** A join that ends in a non-whitespace character is left alone by `trimEnd`. */
  lemma TrimEndOfText(text: string, body: string, front: seq<string>)
    requires body != [] && !IsWhitespace(body[|body| - 1])
    requires text == (if front == [] then body else Join(front, "\n") + "\n" + body)
    ensures TrimEnd(text) == text
  {
    assert text[|text| - 1] == body[|body| - 1];
    var r := TrimEnd(text);
    assert r == text[..|r|];
    assert |r| == |text|;
  }

  /** The correction agrees with `trimEnd` then `split` whenever the last line
      is a body not ending in whitespace, followed by non-tab whitespace (a
      carriage return, spaces), and then blank lines: both give the lines
      with that body as the last row. */
  lemma IntendedRowsAgreeWithRows(front: seq<string>, body: string, ws: string, blanks: seq<string>)
    requires forall i :: 0 <= i < |front| ==> '\n' !in front[i]
    requires body != [] && '\n' !in body && !IsWhitespace(body[|body| - 1])
    requires forall i :: 0 <= i < |ws| ==> IsLineEndSpace(ws[i]) && ws[i] != '\n'
    requires forall i :: 0 <= i < |blanks| ==> '\n' !in blanks[i] && IsBlank(blanks[i])
    ensures var content := Join(front + [body + ws] + blanks, "\n");
      IntendedRows(content) == Rows(content) == front + [body]
  {
    IntendedRowsOfTrailingLine(front, body, ws, blanks);
    RowsOfTrailingLine(front, body, ws, blanks);
  }

  /** One line ended by CRLF gives that line as the only row, as written and corrected. */
  lemma LineWithCrLf(line: string)
    requires line != [] && '\n' !in line && !IsWhitespace(line[|line| - 1])
    ensures Rows(line + "\r\n") == [line] && IntendedRows(line + "\r\n") == [line]
  {
    assert TrailingLine(line, "\r");
    IntendedRowsAgreeWithRows([], line, "\r", [""]);
    assert [] + [line + "\r"] + [""] == [line + "\r", ""];
    assert Join([line + "\r", ""], "\n") == line + "\r\n";
    assert [] + [line] == [line];
  }

  /** The expected header is one non-empty line ending in a letter. */
  lemma HeaderIsOneLine()
    ensures Header != [] && '\n' !in Header && !IsWhitespace(Header[|Header| - 1])
  {
    var names := HeaderNames;
    assert names == names[..8] + [names[8]];
    JoinAppend(names[..8], [names[8]], "\t");
    assert Header[|Header| - 1] == 'e';
    HeaderHasNoLineFeed();
  }

  /** A header-only file whose header line ends in CRLF: the source accepts it,
      and so does the correction. */
  lemma HeaderLineWithCrLf()
    ensures Issues(Rows(Header + "\r\n")) == []
    ensures Issues(IntendedRows(Header + "\r\n")) == []
  {
    HeaderIsOneLine();
    LineWithCrLf(Header);
    WellFormedRowsHaveNoIssues([Header]);
  }

  /** One line followed by a tab: `trimEnd` removes the tab, the correction keeps it. */
  lemma LineWithStrayTab(line: string)
    requires line != [] && '\n' !in line && !IsWhitespace(line[|line| - 1])
    ensures Rows(line + "\t") == [line] && IntendedRows(line + "\t") == [line + "\t"]
  {
    TrimEndIgnoresTrailingWhitespace(line, "\t");
    assert TrimEnd(line) == line;
    SplitWithoutSeparator(line, '\n');
    var row := line + "\t";
    assert '\n' !in row;
    SplitWithoutSeparator(row, '\n');
    TrimLineEndOf(row, "");
    assert row + "" == row;
  }

  /** A header line followed by a stray tab: `trimEnd` removes the tab and the
      source accepts the file, while the correction keeps the tab and reports
      the header. */
  lemma HeaderWithStrayTab()
    ensures Issues(Rows(Header + "\t")) == []
    ensures Issues(IntendedRows(Header + "\t")) == [BadHeader]
  {
    HeaderIsOneLine();
    LineWithStrayTab(Header);
    WellFormedRowsHaveNoIssues([Header]);
    var rows := [Header + "\t"];
    assert |rows[0]| != |Header|;
    assert Issues(rows) == [BadHeader];
  }

  /** Two lines, the second not blank, make two corrected rows, the second trimmed. */
  lemma IntendedTwoRows(first: string, second: string)
    requires '\n' !in first && '\n' !in second && !IsBlank(second)
    ensures IntendedRows(first + "\n" + second) == [first, TrimLineEnd(second)]
  {
    SplitAtFirst(first, '\n', second);
    SplitWithoutSeparator(second, '\n');
  }

  /** Corrected: the same document as in TrimEndDropsEmptyLastCell has no issues. */
  lemma IntendedKeepsEmptyLastCell(cells: seq<string>)
    requires |cells| == ExpectedColumns && cells[8] == ""
    requires forall i :: 0 <= i < |cells| ==> '\t' !in cells[i] && '\n' !in cells[i]
    requires cells[7] != [] && !IsWhitespace(cells[7][|cells[7]| - 1])
    ensures Issues(IntendedRows(Header + "\n" + Join(cells, "\t"))) == []
  {
    EmptyLastCell(cells);
    var kept := Join(cells[..8], "\t");
    var row := Join(cells, "\t");
    assert row[|kept| - 1] == kept[|kept| - 1];
    TrimLineEndOf(row, "");
    assert row + "" == row;
    HeaderHasNoLineFeed();
    IntendedTwoRows(Header, row);
    var rows := [Header, row];
    assert RowIssues(rows, 2) == RowIssue(rows, 1);
  }
}
