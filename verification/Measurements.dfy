/**
  One sequential pass over measurement bytes: the line scanner, the row parser and the reader
  that folds rows into an aggregation.
 */
module Measurements {
  import opened Wrappers
  import opened Aggregates
  import opened Strings

  datatype ReadError = InvalidRow | InvalidTemperature | LineTooLong | InvalidWorkers | NegativeOffset

  const NEWLINE: byte := 10
  const RETURN: byte := 13
  const SEMICOLON: byte := 59
  const MINUS: byte := 45
  const POINT: byte := 46

  /** The scanner's buffer bound, also the size of the boundary probe: 128 KiB. */
  const MAX_TOKEN: nat := 131072

  // ----- Lines -----

  /** Position of the first b in s, or |s|. */
  function IndexByte(s: seq<byte>, b: byte): (i: nat)
    ensures i <= |s|
    ensures i < |s| ==> s[i] == b
    ensures forall k | 0 <= k < i :: s[k] != b
  {
    if s == [] || s[0] == b then 0 else 1 + IndexByte(s[1..], b)
  }

  /** What is left of s after its first line and that line's newline, if it has one. */
  function AfterLine(s: seq<byte>): (rest: seq<byte>)
    requires s != []
    ensures |rest| < |s|
  {
    var n := IndexByte(s, NEWLINE);
    if n < |s| then s[n + 1..] else []
  }

  // ----- Rows -----

  predicate Digit(b: byte) {
    48 <= b <= 57
  }

  function DigitValue(b: byte): int {
    b - 48
  }

  function ParseTemperature(value: seq<byte>): (t: Option<int>)
    requires value != []
    ensures t.Some? ==> -999 <= t.value <= 999
  {
    var sign: int := if value[0] == MINUS then -1 else 1;
    var remaining := if value[0] == MINUS then value[1..] else value;
    if |remaining| == 3 && Digit(remaining[0]) && remaining[1] == POINT && Digit(remaining[2]) then
      Some(sign * (DigitValue(remaining[0]) * 10 + DigitValue(remaining[2])))
    else if |remaining| == 4 && Digit(remaining[0]) && Digit(remaining[1]) && remaining[2] == POINT
            && Digit(remaining[3]) then
      Some(sign * (DigitValue(remaining[0]) * 100 + DigitValue(remaining[1]) * 10 + DigitValue(remaining[3])))
    else
      None
  }

  function ParseRow(line: seq<byte>): Result<Row, ReadError> {
    var separator := IndexByte(line, SEMICOLON);
    if separator == |line| || separator == 0 || separator == |line| - 1 then Err(InvalidRow)
    else
      match ParseTemperature(line[separator + 1..])
      case None => Err(InvalidTemperature)
      case Some(t) => Ok(Row(line[..separator], t))
  }

  /** The row on the first line of s. */
  function FirstRow(s: seq<byte>): Result<Row, ReadError>
    requires s != []
  {
    var n := IndexByte(s, NEWLINE);
    if n >= MAX_TOKEN then Err(LineTooLong) else ParseRow(WithoutEnd(s[..n], RETURN))
  }

  /** The rows of a whole input, or the first error met when reading it from its start. */
  function Rows(s: seq<byte>): Result<seq<Row>, ReadError>
    decreases |s|
  {
    if s == [] then Ok([])
    else
      match FirstRow(s)
      case Err(e) => Err(e)
      case Ok(row) => Prepend([row], Rows(AfterLine(s)))
  }

  function Prepend(rows: seq<Row>, r: Result<seq<Row>, ReadError>): Result<seq<Row>, ReadError> {
    match r
    case Err(e) => Err(e)
    case Ok(more) => Ok(rows + more)
  }

  /** `at` is a position where the scanner starts a line, or the end of the input. */
  predicate LineStart(s: seq<byte>, at: int) {
    0 <= at <= |s| && (at == 0 || at == |s| || s[at - 1] == NEWLINE)
  }

  lemma NewlineInPrefix(s: seq<byte>, at: nat)
    requires LineStart(s, at) && 0 < at < |s|
    ensures IndexByte(s[..at], NEWLINE) == IndexByte(s, NEWLINE) < at
  {
    var n, m := IndexByte(s, NEWLINE), IndexByte(s[..at], NEWLINE);
    assert s[at - 1] == NEWLINE;
    assert s[..at][n] == s[n];
    assert m <= n && s[m] == s[..at][m];
  }

  lemma RestOfPrefix(s: seq<byte>, at: nat, n: nat)
    requires LineStart(s, at) && n < at < |s|
    ensures s[..at][..n] == s[..n]
    ensures s[..at][n + 1..] == s[n + 1..][..at - n - 1]
    ensures s[n + 1..][at - n - 1..] == s[at..]
    ensures LineStart(s[n + 1..], at - n - 1)
  {
  }

  lemma FirstRowOfPrefix(s: seq<byte>, at: nat) returns (k: nat)
    requires LineStart(s, at) && 0 < at < |s|
    ensures FirstRow(s[..at]) == FirstRow(s) && LineStart(AfterLine(s), k)
    ensures AfterLine(s[..at]) == AfterLine(s)[..k] && AfterLine(s)[k..] == s[at..]
  {
    NewlineInPrefix(s, at);
    RestOfPrefix(s, at, IndexByte(s, NEWLINE));
    k := at - IndexByte(s, NEWLINE) - 1;
  }

  ghost predicate Joins(whole: Result<seq<Row>, ReadError>, a: Result<seq<Row>, ReadError>, b: Result<seq<Row>, ReadError>) {
    && (whole.Ok? <==> a.Ok? && b.Ok?)
    && (whole.Ok? ==> whole.value == a.value + b.value)
  }

  lemma PrependSplit(row: Row, whole: Result<seq<Row>, ReadError>,
                     a: Result<seq<Row>, ReadError>, b: Result<seq<Row>, ReadError>)
    requires Joins(whole, a, b)
    ensures Joins(Prepend([row], whole), Prepend([row], a), b)
  {
  }

  /** Cutting an input at a line start cuts its rows: nothing is lost, joined or read twice. */
  lemma {:induction false} RowsSplit(s: seq<byte>, at: nat)
    requires LineStart(s, at)
    ensures Joins(Rows(s), Rows(s[..at]), Rows(s[at..]))
    decreases |s|
  {
    if at == 0 {
      assert s[..at] == [] && s[at..] == s;
    } else if at == |s| {
      assert s[..at] == s && s[at..] == [];
    } else {
      var k := FirstRowOfPrefix(s, at);
      var rest := AfterLine(s);
      RowsSplit(rest, k);
      if FirstRow(s).Ok? {
        PrependSplit(FirstRow(s).value, Rows(rest), Rows(rest[..k]), Rows(s[at..]));
      }
    }
  }

  /** A piece cut out at line starts reads without error whenever the whole input does. */
  lemma RowsOfPiece(s: seq<byte>, a: nat, b: nat)
    requires a <= b && LineStart(s, a) && LineStart(s, b) && Rows(s).Ok?
    ensures Rows(s[a..b]).Ok?
  {
    RowsSplit(s, b);
    assert LineStart(s[..b], a);
    RowsSplit(s[..b], a);
    assert s[..b][a..] == s[a..b];
  }

  function Copies(line: seq<byte>, n: nat): seq<byte> {
    if n == 0 then [] else line + Copies(line, n - 1)
  }

  /** At the head of any input the line is read as the row and leaves the rest. */
  ghost predicate ReadsAs(line: seq<byte>, row: Row) {
    line != [] && forall rest :: FirstRow(line + rest) == Ok(row) && AfterLine(line + rest) == rest
  }

  function Repeated(row: Row, n: nat): seq<Row> {
    if n == 0 then [] else [row] + Repeated(row, n - 1)
  }

  lemma {:induction false} CopiesLength(line: seq<byte>, n: nat)
    ensures |Copies(line, n)| == |line| * n
  {
    if n > 0 {
      CopiesLength(line, n - 1);
      assert |line| * n == |line| + |line| * (n - 1);
    }
  }

  type Reading = seq<byte> -> Result<seq<Row>, ReadError>

  /** Before anything readable the line adds the row. */
  ghost predicate Extends(read: Reading, line: seq<byte>, row: Row) {
    forall rest, rows | read(rest) == Ok(rows) :: read(line + rest) == Ok([row] + rows)
  }

  lemma {:induction false} ExtendedCopies(read: Reading, line: seq<byte>, row: Row, n: nat)
    requires read([]) == Ok([]) && Extends(read, line, row)
    ensures read(Copies(line, n)) == Ok(Repeated(row, n))
  {
    if n > 0 {
      ExtendedCopies(read, line, row, n - 1);
    }
  }

  lemma CopiesRead(line: seq<byte>, row: Row, n: nat)
    requires ReadsAs(line, row)
    ensures Rows(Copies(line, n)) == Ok(Repeated(row, n))
  {
    forall rest, rows | Rows(rest) == Ok(rows)
      ensures Rows(line + rest) == Ok([row] + rows)
    {
      OneMoreRow(line + rest, row, rest, rows);
    }
    ExtendedCopies(s => Rows(s), line, row, n);
  }

  lemma OneMoreRow(s: seq<byte>, row: Row, rest: seq<byte>, rows: seq<Row>)
    requires s != [] && FirstRow(s) == Ok(row) && AfterLine(s) == rest && Rows(rest) == Ok(rows)
    ensures Rows(s) == Ok([row] + rows)
  {
  }

  /** `a;1.0` and a newline. */
  const ROW: seq<byte> := [97, 59, 49, 46, 48, 10]

  lemma RowReads()
    ensures ReadsAs(ROW, Row([97], 10))
  {
    forall rest: seq<byte>
      ensures FirstRow(ROW + rest) == Ok(Row([97], 10)) && AfterLine(ROW + rest) == rest
    {
      var s, line := ROW + rest, ROW[..5];
      assert s[5] == NEWLINE && IndexByte(s, NEWLINE) == 5;
      assert s[..5] == line == [97, 59, 49, 46, 48];
      assert line[1] == SEMICOLON && IndexByte(line, SEMICOLON) == 1;
      assert line[2..] == [49, 46, 48] && line[..1] == [97];
    }
  }

  lemma RowTakesFiveBytes(line: seq<byte>)
    requires ParseRow(line).Ok?
    ensures |line| >= 5
  {
  }

  /** A row takes six bytes with its newline. */
  lemma {:induction false} RowsTakeSixBytes(s: seq<byte>)
    requires Rows(s).Ok?
    ensures 6 * |Rows(s).value| <= |s| + 1
    decreases |s|
  {
    if s != [] {
      var n := IndexByte(s, NEWLINE);
      RowTakesFiveBytes(WithoutEnd(s[..n], RETURN));
      RowsTakeSixBytes(AfterLine(s));
    }
  }

  /** No line of a readable input fills the scanner's buffer. */
  lemma {:induction false} ReadableLineIsShort(s: seq<byte>, at: nat)
    requires Rows(s).Ok? && LineStart(s, at) && at + MAX_TOKEN <= |s|
    ensures exists k :: at <= k < at + MAX_TOKEN && s[k] == NEWLINE
  {
    RowsSplit(s, at);
    var n := IndexByte(s[at..], NEWLINE);
    assert s[at..] != [] && n < MAX_TOKEN;
    assert s[at + n] == NEWLINE;
  }

  // ----- The reader -----

  /** Reads line by line into a new aggregation, stopping at the first error. */
  method AggregateReader(content: seq<byte>) returns (r: Result<Aggregation, ReadError>)
    ensures r.Ok? <==> Rows(content).Ok?
    ensures r.Err? ==> Rows(content) == Err(r.error)
    ensures r.Ok? ==> r.value.Valid() && fresh(r.value.Repr) && r.value.View == Summary(Rows(content).value)
  {
    var aggregates := new Aggregation();
    var rest := content;
    ghost var read: seq<Row> := [];
    NothingRead(Rows(content));
    while rest != []
      invariant aggregates.Valid() && fresh(aggregates.Repr) && aggregates.View == Summary(read)
      invariant Rows(content) == Prepend(read, Rows(rest))
      decreases |rest|
    {
      var first := FirstRow(rest);
      if first.Err? {
        return Err(first.error);
      }
      NextRow(read, first.value, Rows(AfterLine(rest)));
      aggregates.Observe(first.value, read);
      read, rest := read + [first.value], AfterLine(rest);
    }
    assert read + [] == read;
    return Ok(aggregates);
  }

  lemma NothingRead(r: Result<seq<Row>, ReadError>)
    ensures Prepend([], r) == r
  {
    if r.Ok? {
      assert [] + r.value == r.value;
    }
  }

  lemma NextRow(read: seq<Row>, row: Row, r: Result<seq<Row>, ReadError>)
    ensures Prepend(read, Prepend([row], r)) == Prepend(read + [row], r)
  {
    if r.Ok? {
      assert read + ([row] + r.value) == (read + [row]) + r.value;
    }
  }
}
