/** The text of the CSV table: one column for the time and one for each semantic type. */
module CsvTable {
  import opened Bytes
  import opened Wrappers

  /** How times and numbers are written and read back. Neither is fixed here; `numberOf` is empty for a text
      that does not start with a number. */
  datatype Format = Format(
    timeText: int -> bytes,
    timeOf: bytes -> int,
    numberText: real -> bytes,
    numberOf: bytes -> Option<real>)

  predicate Plain(s: bytes) {
    COMMA !in s && NEWLINE !in s && RETURN !in s
  }

  /** What is asked of it: times are read back exactly, numbers as some number, and neither text holds a
      separator. */
  ghost predicate Faithful(f: Format) {
    && (forall t :: Plain(f.timeText(t)) && f.timeOf(f.timeText(t)) == t)
    && (forall v :: Plain(f.numberText(v)) && f.numberText(v) != [] && f.numberOf(f.numberText(v)).Some?)
  }

  /** A number after it was written and read back. */
  function Reread(f: Format, v: real): real {
    match f.numberOf(f.numberText(v)) case Some(w) => w case None => v
  }

  // ----- cells -----

  function Join(cells: seq<bytes>): bytes
    requires cells != []
  {
    if |cells| == 1 then cells[0] else cells[0] + [COMMA] + Join(cells[1..])
  }

  /** The part before the first comma, as `strsep` and `strchr` see it. */
  function Cell(line: bytes): (r: bytes)
    ensures r <= line && COMMA !in r && (|r| < |line| ==> line[|r|] == COMMA)
  {
    if line == [] || line[0] == COMMA then [] else [line[0]] + Cell(line[1..])
  }

  /** What is left after that comma. */
  function Rest(line: bytes): Option<bytes> {
    if |Cell(line)| == |line| then None else Some(line[|Cell(line)| + 1..])
  }

  /** All cells of a line: at least one, even of an empty line. */
  function Cells(line: bytes): (r: seq<bytes>)
    ensures r != []
    decreases |line|
  {
    match Rest(line)
    case None => [line]
    case Some(rest) => [Cell(line)] + Cells(rest)
  }

  lemma {:induction false} CellOf(s: bytes, t: bytes)
    requires COMMA !in s
    ensures Cell(s) == s && Cell(s + [COMMA] + t) == s
  {
    if s == [] {
      assert (s + [COMMA] + t)[0] == COMMA;
    } else {
      CellOf(s[1..], t);
      assert (s + [COMMA] + t)[1..] == s[1..] + [COMMA] + t;
    }
  }

  /** Splitting undoes joining. */
  lemma {:induction false} CellsOfJoin(cells: seq<bytes>)
    requires cells != [] && forall c :: c in cells ==> COMMA !in c
    ensures Cells(Join(cells)) == cells
  {
    if |cells| == 1 {
      CellOf(cells[0], []);
    } else {
      var t := Join(cells[1..]);
      CellOf(cells[0], t);
      assert (cells[0] + [COMMA] + t)[|cells[0]| + 1..] == t;
      CellsOfJoin(cells[1..]);
    }
  }

  /** The line without anything from its first line break on. */
  function Chomp(line: bytes): (r: bytes)
    ensures r <= line
  {
    if line == [] || line[0] == NEWLINE || line[0] == RETURN then [] else [line[0]] + Chomp(line[1..])
  }

  /** A line ends before its first line feed or carriage return. */
  lemma {:induction false} ChompEnds(s: bytes, b: byte, t: bytes)
    requires 10 !in s && 13 !in s && (b == 10 || b == 13)
    ensures Chomp(s + [b] + t) == s
  {
    var line := s + [b] + t;
    if s != [] {
      assert s[0] in s;
      ChompEnds(s[1..], b, t);
      assert line[1..] == s[1..] + [b] + t;
    }
  }

  // ----- rows -----

  /** A flushed row: every column's value at that time, if it has one. `cells[i]` is column `i + 1`. */
  datatype Row = Row(time: int, cells: seq<Option<real>>)

  function CellText(f: Format, c: Option<real>): bytes {
    match c case None => [] case Some(v) => f.numberText(v)
  }

  function CellTexts(f: Format, cells: seq<Option<real>>): (r: seq<bytes>)
    ensures |r| == |cells| && forall i :: 0 <= i < |r| ==> r[i] == CellText(f, cells[i])
  {
    if cells == [] then [] else [CellText(f, cells[0])] + CellTexts(f, cells[1..])
  }

  function RowLine(f: Format, row: Row): bytes {
    Join([f.timeText(row.time)] + CellTexts(f, row.cells))
  }

  function RowLines(f: Format, rows: seq<Row>): (r: seq<bytes>)
    ensures |r| == |rows|
  {
    if rows == [] then [] else [RowLine(f, rows[0])] + RowLines(f, rows[1..])
  }

  /** A line that was written as a row is read as that row. */
  lemma CellsOfRow(f: Format, row: Row)
    requires Faithful(f)
    ensures Cells(RowLine(f, row)) == [f.timeText(row.time)] + CellTexts(f, row.cells)
    ensures Chomp(RowLine(f, row)) == RowLine(f, row)
  {
    var cells := [f.timeText(row.time)] + CellTexts(f, row.cells);
    forall c | c in cells
      ensures Plain(c)
    {
      if c != cells[0] {
        var i :| 1 <= i < |cells| && cells[i] == c;
        assert c == CellText(f, row.cells[i - 1]);
      }
    }
    CellsOfJoin(cells);
    JoinPlain(cells);
    ChompPlain(RowLine(f, row));
  }

  lemma {:induction false} JoinPlain(cells: seq<bytes>)
    requires cells != [] && forall c :: c in cells ==> Plain(c)
    ensures NEWLINE !in Join(cells) && RETURN !in Join(cells)
  {
    assert Plain(cells[0]);
    if |cells| > 1 {
      JoinPlain(cells[1..]);
    }
  }

  lemma {:induction false} ChompPlain(line: bytes)
    requires NEWLINE !in line && RETURN !in line
    ensures Chomp(line) == line
  {
    if line != [] {
      ChompPlain(line[1..]);
    }
  }

  // ----- reading the table back -----

  /** A column's latest value and its time. */
  datatype Reading = Reading(value: real, time: int)

  /** What replaying one line leaves in column `i`: its cell, when there is one that holds a number. */
  function ReplayCell(f: Format, line: bytes, i: nat, known: Option<Reading>): Option<Reading> {
    var cells := Cells(Chomp(line));
    if i < |cells| && cells[i] != [] && f.numberOf(cells[i]).Some?
      then Some(Reading(f.numberOf(cells[i]).value, f.timeOf(cells[0])))
      else known
  }

  /** What replaying all lines leaves in column `i`. */
  function Replay(f: Format, lines: seq<bytes>, i: nat): Option<Reading> {
    if lines == [] then None
    else ReplayCell(f, lines[|lines| - 1], i, Replay(f, lines[..|lines| - 1], i))
  }

  lemma ReplayRow(f: Format, row: Row, i: nat, known: Option<Reading>)
    requires Faithful(f) && 1 <= i <= |row.cells|
    ensures ReplayCell(f, RowLine(f, row), i, known) ==
            if row.cells[i - 1].Some? then Some(Reading(Reread(f, row.cells[i - 1].value), row.time)) else known
  {
    CellsOfRow(f, row);
    assert ([f.timeText(row.time)] + CellTexts(f, row.cells))[i] == CellText(f, row.cells[i - 1]);
  }

  lemma ReplayLast(f: Format, lines: seq<bytes>, line: bytes, i: nat)
    ensures Replay(f, lines + [line], i) == ReplayCell(f, line, i, Replay(f, lines, i))
  {
    assert (lines + [line])[..|lines|] == lines;
  }

  // ----- scanning a column -----

  /** What a scan of column `col` finds in one line: a cell that is not empty, at a time in range. Cells are
      cut at commas only; a text that is no number counts as 0. */
  function ScanLine(f: Format, line: bytes, col: nat, from: int, to: int): seq<Reading> {
    var cells := Cells(line);
    if |cells| < 2 || !(from <= f.timeOf(cells[0]) <= to) || col >= |cells| || cells[col] == [] then []
    else [Reading(match f.numberOf(cells[col]) case Some(v) => v case None => 0.0, f.timeOf(cells[0]))]
  }

  /** What is found in any line made of such cells: nothing without a second cell, outside the times, or in an empty or
      missing cell, and 0 in a cell that is no number. */
  lemma ScanOfCells(f: Format, cells: seq<bytes>, col: nat, from: int, to: int)
    requires cells != [] && forall c :: c in cells ==> COMMA !in c
    ensures var found, time := ScanLine(f, Join(cells), col, from, to), f.timeOf(cells[0]);
            && (|cells| == 1 || time < from || to < time || col >= |cells| || cells[col] == [] <==> found == [])
            && (found != [] ==>
                  |found| == 1 && found[0].time == time &&
                  found[0].value == if f.numberOf(cells[col]).Some? then f.numberOf(cells[col]).value else 0.0)
  {
    CellsOfJoin(cells);
  }

  /** What replaying any line made of such cells leaves in a column: a cell that holds a number replaces what is
      known. */
  lemma ReplayOfCells(f: Format, cells: seq<bytes>, i: nat, known: Option<Reading>)
    requires cells != [] && forall c :: c in cells ==> Plain(c)
    ensures var after := ReplayCell(f, Join(cells), i, known);
            if i < |cells| && cells[i] != [] && f.numberOf(cells[i]).Some? then
              after.Some? && after.value.value == f.numberOf(cells[i]).value && after.value.time == f.timeOf(cells[0])
            else after == known
  {
    CellsOfJoin(cells);
    JoinPlain(cells);
    ChompPlain(Join(cells));
  }

  function ScanLines(f: Format, lines: seq<bytes>, col: nat, from: int, to: int): seq<Reading> {
    if lines == [] then []
    else ScanLines(f, lines[..|lines| - 1], col, from, to) + ScanLine(f, lines[|lines| - 1], col, from, to)
  }

  lemma ScanMore(f: Format, lines: seq<bytes>, line: bytes, col: nat, from: int, to: int)
    ensures ScanLines(f, lines + [line], col, from, to) ==
            ScanLines(f, lines, col, from, to) + ScanLine(f, line, col, from, to)
  {
    assert (lines + [line])[..|lines|] == lines;
  }

  /** The readings of one column among the rows that were written, in order. */
  function Readings(f: Format, rows: seq<Row>, col: nat, from: int, to: int): seq<Reading> {
    if rows == [] then []
    else
      var row, before := rows[|rows| - 1], Readings(f, rows[..|rows| - 1], col, from, to);
      if from <= row.time <= to && 1 <= col <= |row.cells| && row.cells[col - 1].Some?
        then before + [Reading(Reread(f, row.cells[col - 1].value), row.time)]
        else before
  }

  /** Those are the readings of exactly the rows at times from `from` to `to`, both included, that have a value there.
      */
  lemma {:induction false} ReadingsMean(f: Format, rows: seq<Row>, col: nat, from: int, to: int)
    ensures forall r :: r in Readings(f, rows, col, from, to) <==>
              exists k :: 0 <= k < |rows| && IsReading(f, rows[k], col, r) && from <= r.time && r.time <= to
  {
    if rows != [] {
      var n := |rows| - 1;
      ReadingsMean(f, rows[..n], col, from, to);
      forall r
        ensures r in Readings(f, rows, col, from, to) <==>
                exists k :: 0 <= k < |rows| && IsReading(f, rows[k], col, r) && from <= r.time && r.time <= to
      {
        assert forall k :: 0 <= k < n ==> rows[..n][k] == rows[k];
        assert IsReading(f, rows[n], col, r) && from <= r.time && r.time <= to ==>
            r in Readings(f, rows, col, from, to);
      }
    }
  }

  /** What a row says of a column. */
  predicate IsReading(f: Format, row: Row, col: nat, r: Reading) {
    HasCell(row, col) && r == Reading(Reread(f, row.cells[col - 1].value), row.time)
  }

  /** The last row that has a value there says this of a column, or no row has one. */
  ghost predicate IsLast(f: Format, rows: seq<Row>, col: nat, r: Option<Reading>) {
    if r.None? then forall k :: 0 <= k < |rows| ==> !HasCell(rows[k], col)
    else exists k :: 0 <= k < |rows| && IsReading(f, rows[k], col, r.value) &&
           forall l :: k < l < |rows| ==> !HasCell(rows[l], col)
  }

  predicate HasCell(row: Row, col: nat) {
    1 <= col <= |row.cells| && row.cells[col - 1].Some?
  }

  lemma IsLastMore(f: Format, rows: seq<Row>, row: Row, col: nat, r: Option<Reading>)
    requires IsLast(f, rows, col, r) && 1 <= col <= |row.cells|
    ensures IsLast(f, rows + [row], col,
                   if row.cells[col - 1].Some? then Some(Reading(Reread(f, row.cells[col - 1].value), row.time)) else r)
  {
    var more, n := rows + [row], |rows|;
    assert more[n] == row;
    if row.cells[col - 1].Some? {
      assert IsReading(f, more[n], col, Reading(Reread(f, row.cells[col - 1].value), row.time));
    } else if r.Some? {
      var k :| 0 <= k < n && IsReading(f, rows[k], col, r.value) && forall l :: k < l < n ==> !HasCell(rows[l], col);
      assert more[k] == rows[k];
    }
  }

  /** Replaying the written rows leaves in a column what the last row that has a value there says, or nothing. */
  lemma {:induction false} ReplayFindsLast(f: Format, rows: seq<Row>, col: nat)
    requires Faithful(f) && col >= 1 && forall k :: 0 <= k < |rows| ==> col <= |rows[k].cells|
    ensures IsLast(f, rows, col, Replay(f, RowLines(f, rows), col))
  {
    if rows == [] {
      assert RowLines(f, rows) == [];
    } else {
      hide RowLine, RowLines, ReplayCell, Replay, Faithful, IsLast, Reread;
      var before, row := rows[..|rows| - 1], rows[|rows| - 1];
      assert rows == before + [row];
      ReplayFindsLast(f, before, col);
      var r := Replay(f, RowLines(f, before), col);
      RowLinesLast(f, before, row);
      ReplayLast(f, RowLines(f, before), RowLine(f, row), col);
      ReplayRow(f, row, col, r);
      IsLastMore(f, before, row, col, r);
    }
  }

  lemma {:induction false} RowLinesLast(f: Format, rows: seq<Row>, row: Row)
    ensures RowLines(f, rows + [row]) == RowLines(f, rows) + [RowLine(f, row)]
  {
    if rows != [] {
      RowLinesLast(f, rows[1..], row);
      assert (rows + [row])[1..] == rows[1..] + [row];
    } else {
      assert rows + [row] == [row];
    }
  }

  /** Scanning the written rows finds exactly the readings that were written. */
  lemma {:induction false} ScanFindsReadings(f: Format, rows: seq<Row>, col: nat, from: int, to: int)
    requires Faithful(f) && col >= 1 && forall row :: row in rows ==> row.cells != []
    ensures ScanLines(f, RowLines(f, rows), col, from, to) == Readings(f, rows, col, from, to)
  {
    if rows != [] {
      hide RowLine, RowLines, ScanLine, ScanLines, Faithful;
      var n := |rows| - 1;
      var before, row := rows[..n], rows[n];
      ScanFindsReadings(f, before, col, from, to);
      assert rows == before + [row];
      RowLinesLast(f, before, row);
      ScanMore(f, RowLines(f, before), RowLine(f, row), col, from, to);
      ScanOfRow(f, row, col, from, to);
    } else {
      assert RowLines(f, rows) == [];
    }
  }

  lemma ScanOfRow(f: Format, row: Row, col: nat, from: int, to: int)
    requires Faithful(f) && col >= 1 && row.cells != []
    ensures ScanLine(f, RowLine(f, row), col, from, to) ==
            if from <= row.time <= to && col <= |row.cells| && row.cells[col - 1].Some?
            then [Reading(Reread(f, row.cells[col - 1].value), row.time)] else []
  {
    hide Cells, RowLine;
    CellsOfRow(f, row);
    if col <= |row.cells| {
      assert Cells(RowLine(f, row))[col] == CellText(f, row.cells[col - 1]);
    }
  }

  lemma {:induction false} JoinMore(cells: seq<bytes>, c: bytes)
    requires cells != []
    ensures Join(cells + [c]) == Join(cells) + [COMMA] + c
  {
    if |cells| == 1 {
      assert (cells + [c])[1..] == [c];
    } else {
      JoinMore(cells[1..], c);
      assert (cells + [c])[1..] == cells[1..] + [c];
    }
  }

  lemma {:induction false} CellTextsMore(f: Format, cells: seq<Option<real>>, c: Option<real>)
    ensures CellTexts(f, cells + [c]) == CellTexts(f, cells) + [CellText(f, c)]
  {
    if cells != [] {
      CellTextsMore(f, cells[1..], c);
      assert (cells + [c])[1..] == cells[1..] + [c];
    }
  }

  // ----- finding a column -----

  const TIMESTAMP: bytes := [116, 105, 109, 101, 115, 116, 97, 109, 112]

  function HeaderLine(names: seq<bytes>): bytes {
    Join([TIMESTAMP] + names)
  }

  /** The tokens `strtok` finds: cells that are not empty. */
  function Tokens(cells: seq<bytes>): seq<bytes> {
    if cells == [] then []
    else (if cells[0] == [] then [] else [cells[0]]) + Tokens(cells[1..])
  }

  /** Empty cells are passed over wherever they stand, all others are tokens. */
  lemma {:induction false} TokensAppend(before: seq<bytes>, cell: bytes, after: seq<bytes>)
    ensures Tokens(before + [cell] + after) == Tokens(before) + (if cell == [] then [] else [cell]) + Tokens(after)
  {
    var all := before + [cell] + after;
    if before == [] {
      assert all[1..] == after;
    } else {
      assert all[1..] == before[1..] + [cell] + after;
      TokensAppend(before[1..], cell, after);
    }
  }

  /** `timestamp,a,b` */
  lemma HeaderExample()
    ensures HeaderLine([[97], [98]]) == TIMESTAMP + [44] + ([97] + [44] + [98])
    ensures |TIMESTAMP| == 9 && forall i :: 0 <= i < 9 ==> TIMESTAMP[i] == "timestamp"[i] as int
  {
    var cells: seq<bytes>, names: seq<bytes> := [TIMESTAMP, [97], [98]], [[97], [98]];
    assert [TIMESTAMP] + names == cells && cells[1..] == names && names[1..] == [[98]];
    assert Join(names) == [97] + [44] + [98];
    assert Join(cells) == TIMESTAMP + [44] + Join(names);
  }

  lemma {:induction false} TokensOfFull(cells: seq<bytes>)
    requires forall i :: 0 <= i < |cells| ==> cells[i] != []
    ensures Tokens(cells) == cells
  {
    if cells != [] {
      TokensOfFull(cells[1..]);
      assert cells == [cells[0]] + cells[1..];
    }
  }

  /** Where the first token of that name is. */
  function IndexOf(tokens: seq<bytes>, name: bytes): Option<nat> {
    if tokens == [] then None
    else if tokens[0] == name then Some(0)
    else match IndexOf(tokens[1..], name) case None => None case Some(k) => Some(k + 1)
  }

  lemma {:induction false} IndexOfFirst(tokens: seq<bytes>, k: nat)
    requires k < |tokens| && forall j :: 0 <= j < k ==> tokens[j] != tokens[k]
    ensures IndexOf(tokens, tokens[k]) == Some(k)
  {
    if k > 0 {
      IndexOfFirst(tokens[1..], k - 1);
    }
  }

  /** A range query over the lines of a file that has a first one. */
  function Query(f: Format, lines: seq<bytes>, name: bytes, from: int, to: int): seq<Reading>
    requires lines != []
  {
    match IndexOf(Tokens(Cells(lines[0])), name)
    case None => []
    case Some(col) => ScanLines(f, lines[1..], if col == 0 then 1 else col, from, to)
  }

  /** Column names that can be told apart in a header. */
  ghost predicate GoodNames(names: seq<bytes>) {
    && (forall i :: 0 <= i < |names| ==> names[i] != [] && Plain(names[i]) && names[i] != TIMESTAMP)
    && (forall i, j :: 0 <= i < j < |names| ==> names[i] != names[j])
  }

  /** In a file that this store began, a range query finds exactly the readings that were written. */
  lemma QueryFindsReadings(f: Format, names: seq<bytes>, lines: seq<bytes>, rows: seq<Row>, type_: nat,
                           from: int, to: int)
    requires Faithful(f) && GoodNames(names) && 1 <= type_ <= |names|
    requires IsTable(f, names, lines, rows)
    ensures lines != [] && Query(f, lines, names[type_ - 1], from, to) == Readings(f, rows, type_, from, to)
  {
    var cells := [TIMESTAMP] + names;
    CellsOfJoin(cells);
    TokensOfFull(cells);
    assert cells[type_] == names[type_ - 1];
    IndexOfFirst(cells, type_);
    assert lines[1..] == RowLines(f, rows);
    ScanFindsReadings(f, rows, type_, from, to);
  }

  /** The lines of a file that this store began and wrote these rows to. */
  ghost predicate IsTable(f: Format, names: seq<bytes>, lines: seq<bytes>, rows: seq<Row>) {
    lines == [HeaderLine(names)] + RowLines(f, rows) && forall row :: row in rows ==> |row.cells| == |names|
  }

  lemma TableMore(f: Format, names: seq<bytes>, lines: seq<bytes>, rows: seq<Row>, row: Row)
    requires IsTable(f, names, lines, rows) && |row.cells| == |names|
    ensures IsTable(f, names, lines + [RowLine(f, row)], rows + [row])
  {
    RowLinesLast(f, rows, row);
  }
}
