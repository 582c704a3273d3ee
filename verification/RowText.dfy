/**
  What a measurement file looks like, byte for byte, and that the reader's rows are what it says.
 */
module RowText {
  import opened Wrappers
  import Sequences
  import opened Strings
  import opened Aggregates
  import opened Measurements
  import Report
  import Utf8

  /**
    A line: the station, a semicolon, the temperature with its optional minus, one or two digits, a
    point and a digit, and the line's end, which may hold a carriage return and, last, lack a newline.
   */
  datatype Line = Line(station: seq<byte>, minus: bool, whole: seq<byte>, tenth: byte, ending: seq<byte>)

  predicate Decimal(b: byte) {
    48 <= b <= 57
  }

  function Temperature(l: Line): seq<byte> {
    (if l.minus then [45] else []) + (l.whole + [46, l.tenth])
  }

  function Body(l: Line): seq<byte> {
    l.station + [59] + Temperature(l)
  }

  function Bytes(l: Line): seq<byte> {
    Body(l) + l.ending
  }

  predicate WellFormed(l: Line) {
    && l.station != [] && 59 !in l.station && 10 !in l.station
    && 1 <= |l.whole| <= 2 && (forall k | 0 <= k < |l.whole| :: Decimal(l.whole[k])) && Decimal(l.tenth)
    && (l.ending == [] || l.ending == [13] || l.ending == [10] || l.ending == [13, 10])
    && |Body(l)| + (if 13 in l.ending then 1 else 0) < 131072
  }

  predicate EndsInNewline(l: Line) {
    l.ending == [10] || l.ending == [13, 10]
  }

  /** The temperature in tenths. */
  function Tenths(l: Line): int
    requires WellFormed(l)
  {
    var whole := if |l.whole| == 1 then l.whole[0] - 48 else (l.whole[0] - 48) * 10 + (l.whole[1] - 48);
    (if l.minus then -1 else 1) * (whole * 10 + (l.tenth - 48))
  }

  /** A file: only its last line may lack a newline. */
  predicate IsFile(lines: seq<Line>) {
    && (forall k | 0 <= k < |lines| :: WellFormed(lines[k]))
    && (forall k | 0 <= k < |lines| - 1 :: EndsInNewline(lines[k]))
  }

  function FileBytes(lines: seq<Line>): seq<byte> {
    if lines == [] then [] else Bytes(lines[0]) + FileBytes(lines[1..])
  }

  function FileRows(lines: seq<Line>): seq<Row>
    requires forall k | 0 <= k < |lines| :: WellFormed(lines[k])
  {
    seq(|lines|, k requires 0 <= k < |lines| => Row(lines[k].station, Tenths(lines[k])))
  }

  // ----- A line is read as its row -----

  lemma TemperatureReads(l: Line)
    requires WellFormed(l)
    ensures ParseTemperature(Temperature(l)) == Some(Tenths(l))
  {
    var digits := l.whole + [46, l.tenth];
    assert l.minus ==> Temperature(l)[1..] == digits;
    assert !l.minus ==> Temperature(l) == digits;
  }

  /** The first semicolon is the one behind the station. */
  lemma StationEnds(l: Line)
    requires WellFormed(l)
    ensures IndexByte(Body(l), 59) == |l.station|
    ensures Body(l)[..|l.station|] == l.station && Body(l)[|l.station| + 1..] == Temperature(l)
  {
    var b, n := Body(l), |l.station|;
    assert b[n] == 59 && forall k | 0 <= k < n :: b[k] == l.station[k];
  }

  lemma BodyReads(l: Line)
    requires WellFormed(l)
    ensures ParseRow(Body(l)) == Ok(Row(l.station, Tenths(l)))
  {
    StationEnds(l);
    TemperatureReads(l);
  }

  lemma BodyIsPlain(l: Line)
    requires WellFormed(l)
    ensures 10 !in Body(l) && Body(l)[|Body(l)| - 1] == l.tenth
  {
    forall x | x in Body(l)
      ensures x != 10
    {
      assert x in l.station || x == 59 || x == 45 || x in l.whole || x == 46 || x == l.tenth;
    }
  }

  /** What is before the newline, or before the end. */
  function Visible(l: Line): seq<byte> {
    Body(l) + if 13 in l.ending then [13] else []
  }

  lemma VisibleEnds(l: Line)
    requires WellFormed(l)
    ensures WithoutEnd(Visible(l), 13) == Body(l) && 10 !in Visible(l) && |Visible(l)| < 131072
    ensures Bytes(l) == Visible(l) + if EndsInNewline(l) then [10] else []
  {
    BodyIsPlain(l);
    assert 13 in l.ending ==> Visible(l)[..|Visible(l)| - 1] == Body(l);
    assert [13, 10] == [13] + [10];
  }

  lemma NewlineAt(visible: seq<byte>, rest: seq<byte>)
    requires 10 !in visible
    ensures var s := visible + [10] + rest;
            IndexByte(s, NEWLINE) == |visible| && s[..|visible|] == visible && s[|visible| + 1..] == rest
    ensures IndexByte(visible, NEWLINE) == |visible| && visible[..|visible|] == visible
  {
    var s := visible + [10] + rest;
    assert s[|visible|] == 10 && forall k | 0 <= k < |visible| :: s[k] == visible[k];
  }

  lemma LineReads(l: Line, rest: seq<byte>)
    requires WellFormed(l) && (EndsInNewline(l) || rest == [])
    ensures var s := Bytes(l) + rest;
            s != [] && FirstRow(s) == Ok(Row(l.station, Tenths(l))) && AfterLine(s) == rest
  {
    VisibleEnds(l);
    BodyReads(l);
    NewlineAt(Visible(l), rest);
    if EndsInNewline(l) {
      assert Bytes(l) + rest == Visible(l) + [10] + rest;
    } else {
      assert Bytes(l) + rest == Visible(l);
    }
  }

  lemma OneMoreLine(l: Line, rest: seq<byte>, rows: seq<Row>)
    requires WellFormed(l) && (EndsInNewline(l) || rest == []) && Rows(rest) == Ok(rows)
    ensures Rows(Bytes(l) + rest) == Ok([Row(l.station, Tenths(l))] + rows)
  {
    LineReads(l, rest);
    OneMoreRow(Bytes(l) + rest, Row(l.station, Tenths(l)), rest, rows);
  }

  lemma TailIsFile(lines: seq<Line>)
    requires IsFile(lines) && lines != []
    ensures IsFile(lines[1..]) && (EndsInNewline(lines[0]) || FileBytes(lines[1..]) == [])
    ensures FileRows(lines) == [Row(lines[0].station, Tenths(lines[0]))] + FileRows(lines[1..])
  {
    assert forall k | 0 <= k < |lines[1..]| :: lines[1..][k] == lines[k + 1];
    assert |lines| == 1 ==> FileBytes(lines[1..]) == [];
  }

  /** Reading that takes a file apart line by line gives the rows it shows. */
  lemma {:induction false} FileReadsBy(read: Reading, lines: seq<Line>)
    requires IsFile(lines) && read([]) == Ok([])
    requires forall l, rest, rows | WellFormed(l) && (EndsInNewline(l) || rest == []) && read(rest) == Ok(rows) ::
               read(Bytes(l) + rest) == Ok([Row(l.station, Tenths(l))] + rows)
    ensures read(FileBytes(lines)) == Ok(FileRows(lines))
  {
    if lines != [] {
      TailIsFile(lines);
      FileReadsBy(read, lines[1..]);
      assert read(Bytes(lines[0]) + FileBytes(lines[1..])) == Ok(FileRows(lines));
    } else {
      assert FileRows(lines) == [];
    }
  }

  /** Every file reads as the rows it shows. */
  lemma FileReads(lines: seq<Line>)
    requires IsFile(lines)
    ensures Rows(FileBytes(lines)) == Ok(FileRows(lines))
  {
    forall l, rest, rows | WellFormed(l) && (EndsInNewline(l) || rest == []) && Rows(rest) == Ok(rows)
      ensures Rows(Bytes(l) + rest) == Ok([Row(l.station, Tenths(l))] + rows)
    {
      OneMoreLine(l, rest, rows);
    }
    FileReadsBy(s => Rows(s), lines);
  }

  // ----- Everything readable is such a file -----

  lemma TemperatureIsText(value: seq<byte>, station: seq<byte>, ending: seq<byte>) returns (l: Line)
    requires value != [] && ParseTemperature(value).Some?
    ensures Temperature(l) == value && l.station == station && l.ending == ending
    ensures 1 <= |l.whole| <= 2 && (forall k | 0 <= k < |l.whole| :: Decimal(l.whole[k])) && Decimal(l.tenth)
  {
    var minus := value[0] == 45;
    var digits := if minus then value[1..] else value;
    var n := |digits| - 2;
    l := Line(station, minus, digits[..n], digits[n + 1], ending);
    assert digits == digits[..n] + [46, digits[n + 1]];
    assert minus ==> value == [45] + digits;
  }

  lemma RowIsLine(line: seq<byte>, ending: seq<byte>) returns (l: Line)
    requires ParseRow(line).Ok?
    ensures Body(l) == line && l.ending == ending && l.station != [] && 59 !in l.station
    ensures 1 <= |l.whole| <= 2 && (forall k | 0 <= k < |l.whole| :: Decimal(l.whole[k])) && Decimal(l.tenth)
  {
    var n := IndexByte(line, 59);
    l := TemperatureIsText(line[n + 1..], line[..n], ending);
    assert line == line[..n] + [59] + line[n + 1..];
  }

  function Returned(visible: seq<byte>): seq<byte> {
    if WithoutEnd(visible, 13) == visible then [] else [13]
  }

  lemma VisibleIs(visible: seq<byte>)
    ensures visible == WithoutEnd(visible, 13) + Returned(visible)
  {
    if visible != [] && visible[|visible| - 1] == 13 {
      assert visible == visible[..|visible| - 1] + [13];
    }
  }

  lemma NoNewlineBefore(s: seq<byte>)
    ensures 10 !in s[..IndexByte(s, NEWLINE)]
  {
  }

  lemma LineFromVisible(visible: seq<byte>, newline: seq<byte>) returns (l: Line)
    requires ParseRow(WithoutEnd(visible, 13)).Ok? && 10 !in visible && |visible| < 131072
    requires newline == [] || newline == [10]
    ensures WellFormed(l) && Bytes(l) == visible + newline && (newline == [10] ==> EndsInNewline(l))
  {
    var line, returned := WithoutEnd(visible, 13), Returned(visible);
    VisibleIs(visible);
    l := RowIsLine(line, returned + newline);
    assert forall x | x in l.station :: x in Body(l);
    EndingIs(returned, newline);
    Sequences.Regroup(line, returned, newline);
  }

  lemma EndingIs(returned: seq<byte>, newline: seq<byte>)
    requires (returned == [] || returned == [13]) && (newline == [] || newline == [10])
    ensures var ending := returned + newline;
            && (newline == [] ==> ending == [] || ending == [13])
            && (newline == [10] ==> ending == [10] || ending == [13, 10])
  {
  }

  /** A line that is read is well formed, and is the first of the input. */
  lemma FirstLineIs(s: seq<byte>) returns (l: Line)
    requires s != [] && FirstRow(s).Ok?
    ensures WellFormed(l) && s == Bytes(l) + AfterLine(s) && (EndsInNewline(l) || AfterLine(s) == [])
  {
    var n := IndexByte(s, NEWLINE);
    NoNewlineBefore(s);
    l := LineFromVisible(s[..n], if n < |s| then [10] else []);
    if n < |s| {
      assert s == s[..n] + [10] + s[n + 1..];
    } else {
      assert s == s[..n] + [] + [];
    }
  }

  lemma LineBefore(l: Line, rest: seq<Line>)
    requires WellFormed(l) && IsFile(rest) && (rest == [] || EndsInNewline(l))
    ensures IsFile([l] + rest) && FileBytes([l] + rest) == Bytes(l) + FileBytes(rest)
    ensures FileRows([l] + rest) == [Row(l.station, Tenths(l))] + FileRows(rest)
  {
    assert ([l] + rest)[1..] == rest;
  }

  lemma {:induction false} ReadableIsFile(s: seq<byte>) returns (lines: seq<Line>)
    requires Rows(s).Ok?
    ensures IsFile(lines) && FileBytes(lines) == s
    decreases |s|
  {
    if s == [] {
      lines := [];
    } else {
      var l := FirstLineIs(s);
      var rest := ReadableIsFile(AfterLine(s));
      lines := [l] + rest;
      if rest != [] {
        FileIsNotEmpty(rest);
      }
      LineBefore(l, rest);
    }
  }

  lemma FileIsNotEmpty(lines: seq<Line>)
    requires lines != []
    ensures FileBytes(lines) != []
  {
    assert |Body(lines[0])| >= 3;
  }

  /**
    An input is readable, and as these rows, exactly if it is a file of well-formed lines that show
    them: station, semicolon, temperature, each line shorter than the scanner's buffer.
   */
  lemma ReadsAsIff(s: seq<byte>, rows: seq<Row>)
    ensures Rows(s) == Ok(rows) <==> exists lines :: IsFile(lines) && FileBytes(lines) == s && FileRows(lines) == rows
  {
    if Rows(s) == Ok(rows) {
      var lines := ReadableIsFile(s);
      FileReads(lines);
    }
    if lines :| IsFile(lines) && FileBytes(lines) == s && FileRows(lines) == rows {
      FileReads(lines);
    }
  }

  // ----- Printed temperatures -----

  /**
    A temperature as the report prints it is that of a line: a minus exactly below zero, and two
    digits before the point exactly from ten degrees on.
   */
  lemma PrintedTemperature(station: seq<byte>, value: int, ending: seq<byte>) returns (l: Line)
    requires -999 <= value <= 999 && station != [] && 59 !in station && 10 !in station && |station| < 131000
    requires ending == [] || ending == [13] || ending == [10] || ending == [13, 10]
    ensures WellFormed(l) && l.station == station && l.ending == ending && Tenths(l) == value
    ensures Temperature(l) == Utf8.Encode(Report.FormatTenths(value))
    ensures (l.minus <==> value < 0) && (|l.whole| == 2 <==> value <= -100 || value >= 100)
  {
    var m := if value < 0 then -value else value;
    Report.DigitsOfTenths(m);
    l := Line(station, value < 0, WholeDigits(m), 48 + m % 10, ending);
    TemperatureIsPrinted(l, value);
  }

  function WholeDigits(m: nat): seq<byte>
    requires m < 1000
  {
    if m < 100 then [48 + m / 10] else [48 + m / 100, 48 + m / 10 % 10]
  }

  lemma TemperatureIsPrinted(l: Line, value: int)
    requires -999 <= value <= 999
    requires var m := if value < 0 then -value else value;
             l.minus == (value < 0) && l.whole == WholeDigits(m) && l.tenth == 48 + m % 10
    ensures Temperature(l) == Utf8.Encode(Report.FormatTenths(value))
  {
    Report.FormattedBytes(value);
    Report.DigitsOfTenths(if value < 0 then -value else value);
  }

  predicate Printable(row: Row) {
    && row.station != [] && 59 !in row.station && 10 !in row.station && |row.station| < 131000
    && -999 <= row.temperature <= 999
  }

  /** Line ends, each with or without a carriage return, the last with or without a newline. */
  predicate LineEnds(endings: seq<seq<byte>>) {
    && (forall k | 0 <= k < |endings| - 1 :: endings[k] == [10] || endings[k] == [13, 10])
    && (forall k | 0 <= k < |endings| :: endings[k] == [] || endings[k] == [13] || endings[k] == [10] || endings[k] == [13, 10])
  }

  function PrintedRow(row: Row): seq<byte> {
    row.station + [59] + Utf8.Encode(Report.FormatTenths(row.temperature))
  }

  function PrintedRows(rows: seq<Row>, endings: seq<seq<byte>>): seq<byte>
    requires |rows| == |endings|
  {
    if rows == [] then [] else (PrintedRow(rows[0]) + endings[0]) + PrintedRows(rows[1..], endings[1..])
  }

  lemma {:induction false} PrintedRowsAreFile(rows: seq<Row>, endings: seq<seq<byte>>) returns (lines: seq<Line>)
    requires |rows| == |endings| && LineEnds(endings) && forall k | 0 <= k < |rows| :: Printable(rows[k])
    ensures IsFile(lines) && FileBytes(lines) == PrintedRows(rows, endings) && FileRows(lines) == rows
  {
    if rows == [] {
      lines := [];
    } else {
      assert forall k | 0 <= k < |rows[1..]| :: rows[1..][k] == rows[k + 1];
      assert forall k | 0 <= k < |endings[1..]| :: endings[1..][k] == endings[k + 1];
      var l := PrintedTemperature(rows[0].station, rows[0].temperature, endings[0]);
      var rest := PrintedRowsAreFile(rows[1..], endings[1..]);
      lines := [l] + rest;
      assert |FileRows(rest)| == |rest|;
      LineBefore(l, rest);
      assert rows == [rows[0]] + rows[1..];
    }
  }

  /** Printed rows read back. */
  lemma PrintedRowsReadBack(rows: seq<Row>, endings: seq<seq<byte>>)
    requires |rows| == |endings| && LineEnds(endings) && forall k | 0 <= k < |rows| :: Printable(rows[k])
    ensures Rows(PrintedRows(rows, endings)) == Ok(rows)
  {
    var lines := PrintedRowsAreFile(rows, endings);
    FileReads(lines);
  }
}
