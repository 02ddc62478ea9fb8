/** The CSV store: latest readings in memory, rows in a file that is only ever appended to. The file is its
    lines without their line ends; lines are taken to be shorter than the 4096 bytes that are read at once. */
module CsvStore {
  import opened Bytes
  import opened Wrappers
  import opened CsvTable
  import opened Json
  import opened Numbers

  const OK: int := 0
  const NO_LINE: int := -1
  const NOT_FOUND: int := -2
  const EEXIST: int := 17
  const EINVAL: int := 22

  class CsvFile {
    var present: bool
    var lines: seq<bytes>

    constructor (present: bool, lines: seq<bytes>)
      ensures this.present == present && this.lines == lines
    {
      this.present, this.lines := present, lines;
    }
  }

  /** The next token of a text, and what is left of the text. */
  method StrSep(ptr: Option<bytes>) returns (token: Option<bytes>, rest: Option<bytes>)
    ensures ptr.None? ==> token.None? && rest.None?
    ensures ptr.Some? ==> token == Some(Cells(ptr.value)[0])
    ensures ptr.Some? ==> Left(rest) == Cells(ptr.value)[1..]
  {
    if ptr.None? {
      return None, None;
    }
    token, rest := Some(Cell(ptr.value)), Rest(ptr.value);
    assert rest.None? ==> Cell(ptr.value) == ptr.value;
  }

  /** The cells still to be read. */
  function Left(ptr: Option<bytes>): seq<bytes> {
    match ptr case None => [] case Some(s) => Cells(s)
  }

  /** The lines after the header. */
  function Data(lines: seq<bytes>): seq<bytes> {
    if lines == [] then [] else lines[1..]
  }

  /** A column after closing and opening again: its value as reread, at the time of the last row. */
  function Restored(f: Format, c: Option<Reading>, time: int): Option<Reading> {
    match c case None => None case Some(r) => Some(Reading(Reread(f, r.value), time))
  }

  /** `write_header` */
  method WriteHeader(names: seq<bytes>) returns (line: bytes)
    ensures line == HeaderLine(names)
  {
    line := TIMESTAMP;
    for i := 0 to |names|
      invariant line == Join([TIMESTAMP] + names[..i])
    {
      line := line + [COMMA] + names[i];
      JoinMore([TIMESTAMP] + names[..i], names[i]);
      assert [TIMESTAMP] + names[..i + 1] == [TIMESTAMP] + names[..i] + [names[i]];
    }
    assert names[..|names|] == names;
  }

  class Csv {
    const f: Format
    /** The names of columns 1 onwards. */
    const names: seq<bytes>
    const file: CsvFile
    const values: array<real>
    const hasValue: array<bool>
    const lastTs: array<int>
    var intervalSec: int
    var lastFlush: int

    ghost predicate Sized() {
      && values.Length == hasValue.Length == lastTs.Length == |names| + 1
      && values as object != hasValue && hasValue as object != lastTs && values as object != lastTs
    }

    ghost function Column(i: int): Option<Reading>
      requires Sized() && 1 <= i <= |names|
      reads values, hasValue, lastTs
    {
      if hasValue[i] then Some(Reading(values[i], lastTs[i])) else None
    }

    /** A column that a row in the file has a value for has one in memory. */
    ghost predicate Valid()
      reads this, file, values, hasValue, lastTs
    {
      && Sized() && file.present && Faithful(f) && !hasValue[0]
      && forall i :: 1 <= i <= |names| && Replay(f, Data(file.lines), i).Some? ==> Column(i).Some?
    }

    lemma ValidIsSized()
      requires Valid()
      ensures Sized() && Faithful(f)
    {
    }

    /** `csv_open`: a new file gets its header; one that is there is replayed, its first line skipped. */
    constructor Open(file: CsvFile, f: Format, names: seq<bytes>, now: int)
      requires Faithful(f)
      modifies file
      ensures Valid() && this.file == file && this.f == f && this.names == names
      ensures lastFlush == now && intervalSec == 60
      ensures fresh(values) && fresh(hasValue) && fresh(lastTs)
      ensures file.lines == if old(file.present) then old(file.lines) else [HeaderLine(names)]
      ensures forall i :: 1 <= i <= |names| ==> Column(i) == Replay(f, Data(file.lines), i)
    {
      this.file, this.f, this.names := file, f, names;
      values, hasValue, lastTs :=
        new real[|names| + 1](i => 0.0), new bool[|names| + 1](i => false), new int[|names| + 1](i => 0);
      intervalSec, lastFlush := 60, now;
      new;
      if !file.present {
        var line := WriteHeader(names);
        file.present, file.lines := true, [line];
      } else if file.lines != [] {
        ReplayAll(file.lines);
      }
    }

    /** The lines after the first one. */
    method ReplayAll(lines: seq<bytes>)
      requires Sized() && lines != [] && forall i :: 1 <= i <= |names| ==> Column(i).None?
      modifies values, hasValue, lastTs
      ensures hasValue[0] == old(hasValue[0])
      ensures forall i :: 1 <= i <= |names| ==> Column(i) == Replay(f, lines[1..], i)
    {
      hide ReplayCell, Column;
      for n := 1 to |lines|
        invariant hasValue[0] == old(hasValue[0])
        invariant forall i :: 1 <= i <= |names| ==> Column(i) == Replay(f, lines[1..n], i)
      {
        ReplayOne(lines[n]);
        assert lines[1..n + 1] == lines[1..n] + [lines[n]];
        forall i | 1 <= i <= |names|
          ensures Column(i) == Replay(f, lines[1..n + 1], i)
        {
          ReplayLast(f, lines[1..n], lines[n], i);
        }
      }
      assert lines[1..|lines|] == lines[1..];
    }

    /** One line of the replay. */
    method ReplayOne(line: bytes)
      requires Sized()
      modifies values, hasValue, lastTs
      ensures hasValue[0] == old(hasValue[0])
      ensures forall i :: 1 <= i <= |names| ==> Column(i) == ReplayCell(f, line, i, old(Column(i)))
    {
      hide Cells, Chomp;
      ghost var cells := Cells(Chomp(line));
      var token, ptr := StrSep(Some(Chomp(line)));
      var rowTs := f.timeOf(token.value);
      for i := 1 to |names| + 1
        invariant hasValue[0] == old(hasValue[0])
        invariant Left(ptr) == if i <= |cells| then cells[i..] else []
        invariant forall k :: 1 <= k < i ==> Column(k) == ReplayCell(f, line, k, old(Column(k)))
        invariant forall k :: i <= k <= |names| ==> Column(k) == old(Column(k))
      {
        token, ptr := StrSep(ptr);
        if token.Some? && token.value != [] {
          var val := f.numberOf(token.value);
          if val.Some? {
            values[i] := val.value;
            hasValue[i] := true;
            lastTs[i] := rowTs;
          }
        }
      }
    }

    /** All columns; `r[i]` is column `i + 1`. */
    ghost function Columns(n: nat): (r: seq<Option<Reading>>)
      requires Sized() && n <= |names|
      reads values, hasValue, lastTs
      ensures |r| == n && forall i :: 0 <= i < n ==> r[i] == Column(i + 1)
    {
      if n == 0 then [] else Columns(n - 1) + [Column(n)]
    }

    /** What is known in memory, with the rows written so far. */
    ghost function Now(rows: seq<Row>): Store
      requires Sized()
      reads this`lastFlush, values, hasValue, lastTs
    {
      Store(Columns(|names|), lastFlush, rows)
    }

    /** The cells of a row flushed now, up to column `n`. */
    ghost function Latest(n: nat): (r: seq<Option<real>>)
      requires Sized() && n <= |names|
      reads values, hasValue, lastTs
      ensures |r| == n && forall i :: 0 <= i < n ==> r[i] == ValueOf(Column(i + 1))
    {
      if n == 0 then [] else Latest(n - 1) + [ValueOf(Column(n))]
    }

    /** `flush_row` */
    method FlushRow(now: int)
      requires Valid()
      modifies file
      ensures Valid() && file.lines == old(file.lines) + [RowLine(f, Row(now, Latest(|names|)))]
    {
      hide Replay, Faithful;
      var line := f.timeText(now);
      for i := 1 to |names| + 1
        invariant line == Join([f.timeText(now)] + CellTexts(f, Latest(i - 1))) && unchanged(file)
      {
        ghost var cells := Latest(i - 1);
        line := line + [COMMA];
        if hasValue[i] {
          line := line + f.numberText(values[i]);
        }
        OneMoreCell(now, cells, ValueOf(Column(i)));
      }
      file.lines := file.lines + [line];
      StillKnown(old(file.lines), now);
    }

    lemma OneMoreCell(now: int, cells: seq<Option<real>>, c: Option<real>)
      ensures Join([f.timeText(now)] + CellTexts(f, cells + [c])) ==
              Join([f.timeText(now)] + CellTexts(f, cells)) + [COMMA] + CellText(f, c)
    {
      CellTextsMore(f, cells, c);
      JoinMore([f.timeText(now)] + CellTexts(f, cells), CellText(f, c));
      assert [f.timeText(now)] + (CellTexts(f, cells) + [CellText(f, c)]) ==
             [f.timeText(now)] + CellTexts(f, cells) + [CellText(f, c)];
    }

    /** What a replay of the file finds after a row of the latest values was added. */
    lemma AfterFlush(lines: seq<bytes>, now: int, i: nat)
      requires Sized() && Faithful(f) && 1 <= i <= |names|
      ensures Replay(f, Data(lines + [RowLine(f, Row(now, Latest(|names|)))]), i) ==
              if lines == [] then None
              else if Column(i).Some? then Restored(f, Column(i), now)
              else Replay(f, Data(lines), i)
    {
      var row := Row(now, Latest(|names|));
      var more := lines + [RowLine(f, row)];
      if lines != [] {
        assert more[1..] == lines[1..] + [RowLine(f, row)];
        ReplayLast(f, lines[1..], RowLine(f, row), i);
        ReplayRow(f, row, i, Replay(f, lines[1..], i));
      }
    }

    lemma StillKnown(lines: seq<bytes>, now: int)
      requires Sized() && Faithful(f)
      requires forall i :: 1 <= i <= |names| && Replay(f, Data(lines), i).Some? ==> Column(i).Some?
      ensures forall i :: 1 <= i <= |names| &&
                Replay(f, Data(lines + [RowLine(f, Row(now, Latest(|names|)))]), i).Some?
                ==> Column(i).Some?
    {
      forall i: nat | 1 <= i <= |names| && Replay(f, Data(lines + [RowLine(f, Row(now, Latest(|names|)))]), i).Some?
        ensures Column(i).Some?
      {
        AfterFlush(lines, now, i);
      }
    }

    /** `csv_insert_tier1` */
    method Insert(type_: int, timestamp: int, value: real) returns (r: int)
      requires Valid()
      modifies values, hasValue, lastTs
      ensures Valid()
      ensures r == -EINVAL <==> type_ <= 0 || type_ > |names|
      ensures r == -EEXIST <==>
                1 <= type_ <= |names| && old(Column(type_)).Some? && old(Column(type_)).value.time == timestamp
      ensures r == OK || r == -EINVAL || r == -EEXIST
      ensures forall i :: 1 <= i <= |names| ==>
                Column(i) == if r == OK && i == type_ then Some(Reading(value, timestamp)) else old(Column(i))
    {
      if type_ <= 0 || type_ >= |names| + 1 {
        return -EINVAL;
      }
      if hasValue[type_] && lastTs[type_] == timestamp {
        return -EEXIST;
      }
      values[type_] := value;
      hasValue[type_] := true;
      lastTs[type_] := timestamp;
      r := OK;
    }

    /** `csv_query_latest_tier1`. Types are unsigned, and no value is ever known for type 0. */
    method QueryLatest(type_: nat) returns (r: int, reading: Option<Reading>)
      requires Valid()
      ensures r == (if type_ > |names| then -EINVAL else if reading.Some? then OK else NOT_FOUND)
      ensures reading == if 1 <= type_ <= |names| then Column(type_) else None
    {
      if type_ >= |names| + 1 {
        return -EINVAL, None;
      }
      if hasValue[type_] {
        return OK, Some(Reading(values[type_], lastTs[type_]));
      }
      return NOT_FOUND, None;
    }

    /** `csv_tick` */
    method Tick(now: int) returns (flushed: bool)
      requires Valid()
      modifies file, this`lastFlush
      ensures Valid() && (flushed <==> now - old(lastFlush) >= intervalSec)
      ensures lastFlush == if flushed then now else old(lastFlush)
      ensures file.lines == old(file.lines) + if flushed then [RowLine(f, Row(now, Latest(|names|)))] else []
    {
      flushed := now - lastFlush >= intervalSec;
      if flushed {
        FlushRow(now);
        lastFlush := now;
      }
    }

    ghost predicate HasTime(i: int, time: int)
      requires Sized()
      reads values, hasValue, lastTs
    {
      1 <= i <= |names| && Column(i).Some? && Column(i).value.time == time
    }

    /** The greatest time of any column if one is positive, else the time of the clock. */
    ghost predicate IsLatestTime(time: int, now: int)
      requires Sized()
      reads values, hasValue, lastTs
    {
      if exists i, t :: HasTime(i, t) && t > 0
      then (exists i :: HasTime(i, time)) && forall i, t :: HasTime(i, t) ==> t <= time
      else time == now
    }

    lemma OneTime(time: int, now: int)
      requires Sized() && |names| == 1 && IsLatestTime(time, now)
      requires Column(1).Some? && Column(1).value.time > 0
      ensures time == Column(1).value.time
    {
      assert HasTime(1, Column(1).value.time);
    }

    method LatestTime(now: int) returns (flushTs: int)
      requires Sized()
      ensures IsLatestTime(flushTs, now)
    {
      flushTs := now;
      var maxTs := 0;
      for i := 1 to |names| + 1
        invariant maxTs >= 0
        invariant forall k, t :: k < i && HasTime(k, t) ==> t <= maxTs
        invariant maxTs > 0 ==> exists k :: HasTime(k, maxTs)
      {
        assert hasValue[i] ==> HasTime(i, lastTs[i]);
        if hasValue[i] && lastTs[i] > maxTs {
          maxTs := lastTs[i];
        }
      }
      if maxTs > 0 {
        flushTs := maxTs;
      }
    }

    /** `csv_close` */
    method Close(now: int) returns (flushTs: int)
      requires Valid()
      modifies file
      ensures Valid() && file.lines == old(file.lines) + [RowLine(f, Row(flushTs, Latest(|names|)))]
      ensures IsLatestTime(flushTs, now)
    {
      flushTs := LatestTime(now);
      FlushRow(flushTs);
    }

    /** The loop over the header's tokens. */
    method FindColumn(header: bytes, name: bytes) returns (colIdx: int)
      ensures colIdx == match IndexOf(Tokens(Cells(header)), name) case None => -1 case Some(k) => k
    {
      colIdx := -1;
      var currentCol := 0;
      var token, ptr := StrTok(Some(header));
      while token.Some?
        invariant currentCol >= 0
        invariant token.None? ==> IndexOf(Tokens(Cells(header)), name).None?
        invariant token.Some? ==>
          match IndexOf([token.value] + Tokens(Left(ptr)), name)
          case None => IndexOf(Tokens(Cells(header)), name).None?
          case Some(k) => IndexOf(Tokens(Cells(header)), name) == Some(currentCol + k)
        decreases token.Some?, |Left(ptr)|
      {
        assert ([token.value] + Tokens(Left(ptr)))[1..] == Tokens(Left(ptr));
        if token.value == name {
          return currentCol;
        }
        token, ptr := StrTok(ptr);
        currentCol := currentCol + 1;
      }
    }

    /** The cell of column `colIdx` in what follows the first comma of a line. */
    method CellAt(line: bytes, colIdx: nat) returns (cell: Option<bytes>)
      requires |Cells(line)| > 1 && colIdx > 0
      ensures cell == if colIdx < |Cells(line)| then Some(Cells(line)[colIdx]) else None
    {
      var rowCursor := Rest(line);
      var c: nat := 1;
      while c < colIdx && rowCursor.Some?
        invariant 1 <= c <= colIdx
        invariant rowCursor.Some? ==> c < |Cells(line)| && Cells(rowCursor.value) == Cells(line)[c..]
        invariant rowCursor.None? ==> colIdx >= |Cells(line)|
        decreases rowCursor.Some?, colIdx - c
      {
        var nextComma := Rest(rowCursor.value);
        if nextComma.None? {
          rowCursor := None;
        } else {
          rowCursor := nextComma;
          c := c + 1;
        }
      }
      cell := if rowCursor.None? then None else Some(Cell(rowCursor.value));
      assert rowCursor.Some? && Rest(rowCursor.value).None? ==> Cell(rowCursor.value) == rowCursor.value;
    }

    /** One line of the scan. */
    method ScanOne(line: bytes, colIdx: nat, from: int, to: int) returns (found: seq<Reading>)
      requires colIdx > 0
      ensures found == ScanLine(f, line, colIdx, from, to)
    {
      if Rest(line).None? {
        return [];
      }
      var rowTs := f.timeOf(Cell(line));
      if !(from <= rowTs <= to) {
        return [];
      }
      var cell := CellAt(line, colIdx);
      if cell.None? || cell.value == [] {
        return [];
      }
      var v := f.numberOf(cell.value);
      return [Reading(if v.Some? then v.value else 0.0, rowTs)];
    }

    /** `csv_query_range_tier1` */
    method QueryRange(type_: int, from: int, to: int) returns (r: int, readings: seq<Reading>)
      requires Valid()
      ensures r == if file.lines == [] then NO_LINE else if 1 <= type_ <= |names| then OK else -EINVAL
      ensures readings == if r == OK then Query(f, file.lines, names[type_ - 1], from, to) else []
    {
      hide ScanLine, Tokens, IndexOf, Cells, Replay;
      if file.lines == [] {
        return NO_LINE, [];
      }
      if type_ <= 0 || type_ >= |names| + 1 {
        return -EINVAL, [];
      }
      var lines := file.lines;
      var colIdx := FindColumn(lines[0], names[type_ - 1]);
      readings := [];
      if colIdx == -1 {
        return OK, [];
      }
      var col: nat := if colIdx == 0 then 1 else colIdx;
      for n := 1 to |lines|
        invariant readings == ScanLines(f, lines[1..n], col, from, to)
      {
        var found := ScanOne(lines[n], col, from, to);
        readings := readings + found;
        ScanMore(f, lines[1..n], lines[n], col, from, to);
        assert lines[1..n + 1] == lines[1..n] + [lines[n]];
      }
      assert lines[1..|lines|] == lines[1..];
      r := OK;
    }
  }

  /** `strtok`: the next cell that is not empty, and what is left. */
  method StrTok(ptr: Option<bytes>) returns (token: Option<bytes>, rest: Option<bytes>)
    ensures token.None? ==> Tokens(Left(ptr)) == []
    ensures token.Some? ==> Tokens(Left(ptr)) == [token.value] + Tokens(Left(rest)) && |Left(rest)| < |Left(ptr)|
  {
    token, rest := StrSep(ptr);
    while token.Some? && token.value == []
      invariant token.None? ==> Tokens(Left(ptr)) == []
      invariant token.Some? ==> Tokens(Left(ptr)) == Tokens([token.value] + Left(rest)) && |Left(rest)| < |Left(ptr)|
      decreases token.Some?, |Left(rest)|
    {
      assert ([token.value] + Left(rest))[1..] == Left(rest);
      token, rest := StrSep(rest);
    }
    if token.Some? {
      assert ([token.value] + Left(rest))[1..] == Left(rest);
    }
  }

  // ----- runs -----

  datatype Operation = Insertion(type_: int, timestamp: int, value: real) | Ticking(now: int)

  /** Latest readings, `columns[i]` being column `i + 1`; when a row was last flushed; all rows written. */
  datatype Store = Store(columns: seq<Option<Reading>>, lastFlush: int, rows: seq<Row>)

  /** The row of the latest values. */
  function ValuesOf(columns: seq<Option<Reading>>): (r: seq<Option<real>>)
    ensures |r| == |columns| && forall i :: 0 <= i < |r| ==> r[i] == ValueOf(columns[i])
  {
    if columns == [] then [] else [ValueOf(columns[0])] + ValuesOf(columns[1..])
  }

  function Apply(s: Store, interval: int, op: Operation): Store {
    match op
    case Insertion(type_, timestamp, value) =>
      if type_ < 1 || type_ > |s.columns| then s
      else if s.columns[type_ - 1].Some? && s.columns[type_ - 1].value.time == timestamp then s
      else s.(columns := s.columns[type_ - 1 := Some(Reading(value, timestamp))])
    case Ticking(now) =>
      if now - s.lastFlush < interval then s
      else Store(s.columns, now, s.rows + [Row(now, ValuesOf(s.columns))])
  }

  function ApplyAll(s: Store, interval: int, ops: seq<Operation>): Store {
    if ops == [] then s else Apply(ApplyAll(s, interval, ops[..|ops| - 1]), interval, ops[|ops| - 1])
  }

  /** One operation does to the store what `Apply` says. */
  method Perform(c: Csv, op: Operation, ghost rows: seq<Row>) returns (ghost after: seq<Row>)
    requires c.Valid() && IsTable(c.f, c.names, c.file.lines, rows)
    modifies c`lastFlush, c.file, c.values, c.hasValue, c.lastTs
    ensures c.Valid() && IsTable(c.f, c.names, c.file.lines, after)
    ensures c.Now(after) == Apply(old(c.Now(rows)), c.intervalSec, op)
  {
    hide IsTable, Csv.Valid, ValuesOf, Csv.Columns, Csv.Latest;
    c.ValidIsSized();
    after := rows;
    match op {
      case Insertion(t, timestamp, value) =>
        ghost var was := c.Columns(|c.names|);
        var _ := c.Insert(t, timestamp, value);
        c.ValidIsSized();
        assert c.Columns(|c.names|) == Apply(old(c.Now(rows)), c.intervalSec, op).columns;
      case Ticking(now) =>
        ghost var lines, row := c.file.lines, Row(now, c.Latest(|c.names|));
        assert c.Latest(|c.names|) == ValuesOf(c.Columns(|c.names|));
        var flushed := c.Tick(now);
        if flushed {
          TableMore(c.f, c.names, lines, rows, row);
          after := rows + [row];
        } else {
          assert lines + [] == lines;
        }
    }
  }

  /** Any run of inserts and flushes leaves in memory and in the file what the operations make of them, and a range
      query then finds exactly the readings of the rows written. */
  method RunAndQuery(c: Csv, operations: seq<Operation>, type_: nat, from: int, to: int, ghost before: seq<Row>)
    returns (readings: seq<Reading>)
    requires c.Valid() && GoodNames(c.names) && 1 <= type_ <= |c.names|
    requires IsTable(c.f, c.names, c.file.lines, before)
    modifies c`lastFlush, c.file, c.values, c.hasValue, c.lastTs
    ensures c.Valid()
    ensures var end := ApplyAll(old(c.Now(before)), c.intervalSec, operations);
            && c.Now(end.rows) == end
            && IsTable(c.f, c.names, c.file.lines, end.rows)
            && readings == Readings(c.f, end.rows, type_, from, to)
  {
    hide IsTable, GoodNames, Csv.Valid, Csv.Columns, Apply;
    c.ValidIsSized();
    ghost var rows, start := before, c.Now(before);
    for n := 0 to |operations|
      invariant c.Valid() && c.Sized() && IsTable(c.f, c.names, c.file.lines, rows)
      invariant c.Now(rows) == ApplyAll(start, c.intervalSec, operations[..n])
    {
      rows := Perform(c, operations[n], rows);
      c.ValidIsSized();
      assert operations[..n + 1][..n] == operations[..n];
    }
    assert operations[..|operations|] == operations;
    var _, found := c.QueryRange(type_, from, to);
    readings := found;
    QueryFindsReadings(c.f, c.names, c.file.lines, rows, type_, from, to);
  }

  /** Closing and opening again brings back every value and no other, all at the time of the last row, exactly
      when the file began with a header or there is nothing to bring back. */
  method CloseAndReopen(c: Csv, now: int, later: int) returns (d: Csv, time: int)
    requires c.Valid()
    modifies c.file
    ensures d.Valid() && d.names == c.names && c.IsLatestTime(time, now)
    ensures c.file.lines == old(c.file.lines) + [RowLine(c.f, Row(time, c.Latest(|c.names|)))]
    ensures (forall i :: 1 <= i <= |c.names| ==> d.Column(i) == Restored(c.f, c.Column(i), time))
       <==> old(c.file.lines) != [] || forall i :: 1 <= i <= |c.names| ==> c.Column(i).None?
    ensures old(c.file.lines) == [] ==> forall i :: 1 <= i <= |c.names| ==> d.Column(i).None?
  {
    time := c.Close(now);
    forall i: nat | 1 <= i <= |c.names|
      ensures Replay(c.f, Data(c.file.lines), i) ==
              if old(c.file.lines) == [] then None else Restored(c.f, c.Column(i), time)
    {
      c.AfterFlush(old(c.file.lines), time, i);
    }
    d := new Csv.Open(c.file, c.f, c.names, later);
  }

  function ValueOf(c: Option<Reading>): Option<real> {
    match c case Some(r) => Some(r.value) case None => None
  }

  // ----- an example -----

  /** Whole numbers, written in decimal. */
  function Decimal(): Format {
    Format(
      (t: int) => DecimalText(t),
      (s: bytes) => match Strtod(s) case Some((x, _)) => x.Floor case None => 0,
      (v: real) => DecimalText(v.Floor),
      (s: bytes) => match Strtod(s) case Some((x, _)) => Some(x) case None => None)
  }

  lemma DecimalIsFaithful()
    ensures Faithful(Decimal())
  {
    forall n: int
      ensures Plain(DecimalText(n)) && DecimalText(n) != []
    {
      assert forall i :: 0 <= i < |DecimalText(n)| ==> DecimalText(n)[i] == MINUS || DecimalText(n)[i] >= DIGIT_0;
    }
    forall n: int
      ensures Strtod(DecimalText(n)) == Some((n as real, |DecimalText(n)|))
    {
      StrtodOfDecimal(n);
    }
  }

  /** A file that is there but empty: the value inserted is written at closing, as the only line, and not read back. */
  method EmptyFileLoses(file: CsvFile) returns (before: Option<Reading>, after: Option<Reading>)
    requires file.present && file.lines == []
    modifies file
    ensures file.lines == [RowLine(Decimal(), Row(5, [Some(3.0)]))]
    ensures before == Some(Reading(3.0, 5)) && after == None
  {
    hide Faithful, Csv.Valid, Csv.Column, Replay, Data, Decimal, Restored, CellText, Csv.IsLatestTime;
    DecimalIsFaithful();
    NothingReplayed(Decimal());
    var c := new Csv.Open(file, Decimal(), [[97]], 0);
    c.ValidIsSized();
    assert c.Column(1).None?;
    var r := c.Insert(1, 5, 3.0);
    r, before := c.QueryLatest(1);
    assert c.Latest(1) == [Some(3.0)] by { assert c.Latest(1)[0] == ValueOf(c.Column(1)); }
    var d, time := CloseAndReopen(c, 9, 9);
    c.OneTime(time, 9);
    r, after := d.QueryLatest(1);
  }

  lemma NothingReplayed(f: Format)
    ensures forall i :: Replay(f, Data([]), i).None?
  {
  }
}
