/**
  Numbering the rows of a unified diff.

  `Fold` reads lines as the parser does.  For a diff printed from hunks the rows carry, under each
  old or new number, the line of the old or new file with that number.
 */
module UnifiedDiff {
  import opened Wrappers
  import Sequences
  import opened Strings
  import opened TextLines
  import opened Decimal

  const MAX_ROWS: nat := 50000
  const MAX_SHOWN: nat := 8000

  datatype Kind = HunkHeader | Added | Deleted | Unchanged
  datatype Row = Row(before: Option<nat>, after: Option<nat>, kind: Kind, text: string)
  datatype State = State(before: nat, after: nat, hunk: bool, rows: seq<Row>)

  const START: State := State(0, 0, false, [])

  // ----- Words of a hunk header -----

  function WordEnd(s: string): (n: nat)
    ensures n <= |s|
    ensures forall k | 0 <= k < n :: !White(s[k])
    ensures n < |s| ==> White(s[n])
  {
    if s == "" || White(s[0]) then 0 else 1 + WordEnd(s[1..])
  }

  /** `split_whitespace`. */
  function Words(s: string): seq<string>
    decreases |s|
  {
    if s == "" then []
    else if White(s[0]) then Words(s[1..])
    else [s[..WordEnd(s)]] + Words(s[WordEnd(s)..])
  }

  lemma {:induction false} WordEndAt(w: string, rest: string)
    requires (forall k | 0 <= k < |w| :: !White(w[k])) && (rest == "" || White(rest[0]))
    ensures WordEnd(w + rest) == |w|
  {
    if w == "" {
      assert w + rest == rest;
    } else {
      assert (w + rest)[1..] == w[1..] + rest && !White((w + rest)[0]);
      assert forall k | 0 <= k < |w[1..]| :: w[1..][k] == w[k + 1];
      WordEndAt(w[1..], rest);
    }
  }

  lemma FirstWord(w: string, rest: string)
    requires w != "" && (forall k | 0 <= k < |w| :: !White(w[k])) && (rest == "" || White(rest[0]))
    ensures Words(w + rest) == [w] + Words(rest)
  {
    var s := w + rest;
    WordEndAt(w, rest);
    assert s[0] == w[0] && s[..|w|] == w && s[|w|..] == rest;
  }

  function TrimStart(s: string, c: char): string {
    if s != "" && s[0] == c then TrimStart(s[1..], c) else s
  }

  /** The line number a header word such as `-12,3` starts with, or 0. */
  function HeaderNumber(words: seq<string>, k: nat, sign: char): nat {
    if k >= |words| then 0
    else
      match ParseUsize(Split(TrimStart(words[k], sign), ',')[0])
      case Some(n) => n
      case None => 0
  }

  // ----- One line at a time -----

  function Next(n: nat): nat {
    (n + 1) % USIZE_LIMIT
  }

  function HeaderState(s: State, line: string): State {
    var words := Words(line);
    State(HeaderNumber(words, 1, '-'), HeaderNumber(words, 2, '+'), true, s.rows + [Row(None, None, HunkHeader, line)])
  }

  function BodyState(s: State, sign: char, text: string): State {
    if sign == '+' then s.(after := Next(s.after), rows := s.rows + [Row(None, Some(s.after), Added, text)])
    else if sign == '-' then s.(before := Next(s.before), rows := s.rows + [Row(Some(s.before), None, Deleted, text)])
    else if sign == ' ' then
      s.(before := Next(s.before), after := Next(s.after),
         rows := s.rows + [Row(Some(s.before), Some(s.after), Unchanged, text)])
    else s
  }

  function Step(s: State, line: string): State {
    if StartsWith(line, "@@ ") then HeaderState(s, line)
    else if !s.hunk || line == "" then s
    else BodyState(s, line[0], Take(line[1..], MAX_SHOWN))
  }

  function Fold(s: State, lines: seq<string>): State
    decreases lines
  {
    if lines == [] then s else Fold(Step(s, lines[0]), lines[1..])
  }

  function AllRows(lines: seq<string>): seq<Row> {
    Fold(START, lines).rows
  }

  lemma {:induction false} FoldAppends(s: State, a: seq<string>, b: seq<string>)
    ensures Fold(s, a + b) == Fold(Fold(s, a), b)
    decreases a
  {
    if a == [] {
      assert a + b == b;
    } else {
      assert (a + b)[1..] == a[1..] + b;
      FoldAppends(Step(s, a[0]), a[1..], b);
    }
  }

  lemma {:induction false} RowsGrow(s: State, lines: seq<string>)
    ensures s.rows <= Fold(s, lines).rows
    decreases lines
  {
    if lines != [] {
      RowsGrow(Step(s, lines[0]), lines[1..]);
    }
  }

  /** An added line has a new number only, a deleted one an old number only, an unchanged one both, a header none. */
  predicate KindFits(r: Row) {
    && (r.kind == Added <==> r.before.None? && r.after.Some?)
    && (r.kind == Deleted <==> r.before.Some? && r.after.None?)
    && (r.kind == Unchanged <==> r.before.Some? && r.after.Some?)
    && (r.kind == HunkHeader <==> r.before.None? && r.after.None?)
  }

  lemma {:induction false} KindsFit(s: State, lines: seq<string>)
    requires forall k | 0 <= k < |s.rows| :: KindFits(s.rows[k])
    ensures forall k | 0 <= k < |Fold(s, lines).rows| :: KindFits(Fold(s, lines).rows[k])
    decreases lines
  {
    if lines != [] {
      StepFits(s, lines[0]);
      KindsFit(Step(s, lines[0]), lines[1..]);
    }
  }

  lemma StepFits(s: State, line: string)
    requires forall k | 0 <= k < |s.rows| :: KindFits(s.rows[k])
    ensures forall k | 0 <= k < |Step(s, line).rows| :: KindFits(Step(s, line).rows[k])
  {
  }

  lemma FoldOneMore(s: State, lines: seq<string>, k: nat)
    requires k < |lines|
    ensures Fold(s, lines[..k + 1]) == Step(Fold(s, lines[..k]), lines[k])
    ensures Fold(s, lines[..k + 1]).rows <= Fold(s, lines).rows
  {
    assert lines[..k + 1] == lines[..k] + [lines[k]];
    FoldAppends(s, lines[..k], [lines[k]]);
    var last := Fold(s, lines[..k]);
    assert Fold(last, [lines[k]]) == Fold(Step(last, lines[k]), [lines[k]][1..]);
    assert lines == lines[..k + 1] + lines[k + 1..];
    FoldAppends(s, lines[..k + 1], lines[k + 1..]);
    RowsGrow(Fold(s, lines[..k + 1]), lines[k + 1..]);
  }

  /** All 50000 rows are there before one of the first n lines. */
  ghost predicate FullBefore(lines: seq<string>, n: nat) {
    exists k: nat | k < n && k <= |lines| :: |AllRows(lines[..k])| >= MAX_ROWS
  }

  lemma FullBeforeNext(lines: seq<string>, i: nat)
    requires i < |lines|
    ensures FullBefore(lines, i + 1) <==> FullBefore(lines, i) || |AllRows(lines[..i])| >= MAX_ROWS
  {
  }

  lemma FullStays(lines: seq<string>, i: nat, j: nat)
    requires i <= j && FullBefore(lines, i)
    ensures FullBefore(lines, j)
  {
  }

  /**
    Parses a diff.  The rows are an exact prefix of all rows, cut at 50000; `truncated` tells that
    some line, perhaps one that makes no row, came after the 50000th row.
   */
  method Parse(raw: string) returns (rows: seq<Row>, truncated: bool)
    ensures var lines := StrLines(raw, '\n', '\r');
            && rows == Take(AllRows(lines), MAX_ROWS)
            && (truncated <==> FullBefore(lines, |lines|))
  {
    var lines := StrLines(raw, '\n', '\r');
    var before: nat, after: nat, hunk := 0, 0, false;
    rows := [];
    for i := 0 to |lines|
      invariant State(before, after, hunk, rows) == Fold(START, lines[..i]) && |rows| <= MAX_ROWS
      invariant !FullBefore(lines, i)
    {
      FoldOneMore(START, lines, i);
      FullBeforeNext(lines, i);
      if |rows| >= MAX_ROWS {
        PrefixRows(lines, i);
        FullStays(lines, i + 1, |lines|);
        return rows, true;
      }
      before, after, hunk, rows := ReadLine(before, after, hunk, rows, lines[i]);
    }
    assert lines[..|lines|] == lines;
    return rows, false;
  }

  lemma FullBeforeIff(lines: seq<string>)
    ensures FullBefore(lines, |lines|) <==> lines != [] && |AllRows(lines[..|lines| - 1])| >= MAX_ROWS
  {
    if k: nat :| k < |lines| && |AllRows(lines[..k])| >= MAX_ROWS {
      RowsOnlyGrow(lines, k, |lines| - 1);
    }
  }

  lemma RowsOnlyGrow(lines: seq<string>, i: nat, j: nat)
    requires i <= j <= |lines|
    ensures |AllRows(lines[..i])| <= |AllRows(lines[..j])|
  {
    assert lines[..j] == lines[..i] + lines[i..j];
    FoldAppends(START, lines[..i], lines[i..j]);
    RowsGrow(Fold(START, lines[..i]), lines[i..j]);
  }

  /** Each line makes at most one row. */
  lemma OneRowMore(s: State, line: string)
    ensures |s.rows| <= |Step(s, line).rows| <= |s.rows| + 1
  {
  }

  /** The rows there are, and whether the last line made none of them. */
  predicate EndsQuietly(lines: seq<string>) {
    lines != [] && |AllRows(lines)| == |AllRows(lines[..|lines| - 1])|
  }

  /**
    `truncated` says something else than that rows were cut off exactly if there are 50000 rows and
    the last line makes none.
   */
  lemma TruncatedMisleadsIff(lines: seq<string>)
    ensures FullBefore(lines, |lines|) != (|AllRows(lines)| > MAX_ROWS) <==>
            |AllRows(lines)| == MAX_ROWS && EndsQuietly(lines)
  {
    FullBeforeIff(lines);
    if lines != [] {
      FoldOneMore(START, lines, |lines| - 1);
      assert lines[..|lines| - 1 + 1] == lines;
      OneRowMore(Fold(START, lines[..|lines| - 1]), lines[|lines| - 1]);
    }
  }

  lemma PrefixRows(lines: seq<string>, i: nat)
    requires i <= |lines| && |AllRows(lines[..i])| == MAX_ROWS
    ensures AllRows(lines[..i]) == Take(AllRows(lines), MAX_ROWS)
  {
    assert lines == lines[..i] + lines[i..];
    FoldAppends(START, lines[..i], lines[i..]);
    RowsGrow(Fold(START, lines[..i]), lines[i..]);
  }

  /** The body of the parser's loop. */
  method ReadLine(before: nat, after: nat, hunk: bool, rows: seq<Row>, text: string)
    returns (before': nat, after': nat, hunk': bool, rows': seq<Row>)
    ensures State(before', after', hunk', rows') == Step(State(before, after, hunk, rows), text)
    ensures |rows'| <= |rows| + 1
  {
    before', after', hunk', rows' := before, after, hunk, rows;
    if StartsWith(text, "@@ ") {
      var words := Words(text);
      before', after' := HeaderNumber(words, 1, '-'), HeaderNumber(words, 2, '+');
      rows' := rows + [Row(None, None, HunkHeader, text)];
      hunk' := true;
    } else if hunk && text != "" {
      var shown := Take(text[1..], MAX_SHOWN);
      if text[0] == '+' {
        rows' := rows + [Row(None, Some(after), Added, shown)];
        after' := Next(after);
      } else if text[0] == '-' {
        rows' := rows + [Row(Some(before), None, Deleted, shown)];
        before' := Next(before);
      } else if text[0] == ' ' {
        rows' := rows + [Row(Some(before), Some(after), Unchanged, shown)];
        before', after' := Next(before), Next(after);
      }
    }
  }

  // ----- Diffs printed from hunks -----

  datatype Line = Context(text: string) | Delete(text: string) | Add(text: string) | Note(text: string)

  /** The numbers are those of the first old and new line; they mean nothing on a side without lines. */
  datatype Hunk = Hunk(oldAt: nat, newAt: nat, lines: seq<Line>, section: string)

  datatype Side = Before | After

  /** The line belongs to that side of the hunk. */
  predicate On(l: Line, side: Side) {
    l.Context? || (if side.Before? then l.Delete? else l.Add?)
  }

  /** The number after a line that comes at number i of a side. */
  function Move(i: nat, l: Line, side: Side): nat {
    if On(l, side) then i + 1 else i
  }

  function SideOf(lines: seq<Line>, side: Side): seq<string> {
    if lines == [] then []
    else (if On(lines[0], side) then [lines[0].text] else []) + SideOf(lines[1..], side)
  }

  predicate Holds(file: seq<string>, at: nat, side: seq<string>) {
    side == [] || (1 <= at && at - 1 + |side| <= |file| && file[at - 1..at - 1 + |side|] == side)
  }

  /** The hunk's sides are the lines of the old and of the new file at its numbers. */
  predicate Relates(h: Hunk, before: seq<string>, after: seq<string>) {
    && Holds(before, h.oldAt, SideOf(h.lines, Before)) && Holds(after, h.newAt, SideOf(h.lines, After))
  }

  function Range(at: nat, count: nat): string {
    Digits(at) + if count == 1 then "" else "," + Digits(count)
  }

  function Header(h: Hunk): string {
    "@@" + (" " + (OldRange(h) + (" " + (NewRange(h) + (" @@" + h.section)))))
  }

  function OldRange(h: Hunk): string {
    ['-'] + Range(h.oldAt, |SideOf(h.lines, Before)|)
  }

  function NewRange(h: Hunk): string {
    ['+'] + Range(h.newAt, |SideOf(h.lines, After)|)
  }

  function PrintLine(l: Line): string {
    match l
    case Context(t) => " " + t
    case Delete(t) => "-" + t
    case Add(t) => "+" + t
    case Note(t) => "\\" + t
  }

  function PrintLines(lines: seq<Line>): seq<string> {
    if lines == [] then [] else [PrintLine(lines[0])] + PrintLines(lines[1..])
  }

  function PrintHunks(hunks: seq<Hunk>): seq<string> {
    if hunks == [] then [] else PrintHunk(hunks[0]) + PrintHunks(hunks[1..])
  }

  // ----- The rows they must give -----

  /** A file line as a row shows it: without a final carriage return, 8000 characters of it. */
  function Shown(line: string): string {
    Take(WithoutEnd(line, '\r'), MAX_SHOWN)
  }

  /** The row of a line that comes at numbers i and j. */
  function RowOf(l: Line, i: nat, j: nat): seq<Row> {
    match l
    case Context(t) => [Row(Some(i), Some(j), Unchanged, Shown(t))]
    case Delete(t) => [Row(Some(i), None, Deleted, Shown(t))]
    case Add(t) => [Row(None, Some(j), Added, Shown(t))]
    case Note(_) => []
  }

  function LineRows(lines: seq<Line>, i: nat, j: nat): seq<Row> {
    if lines == [] then []
    else RowOf(lines[0], i, j) + LineRows(lines[1..], Move(i, lines[0], Before), Move(j, lines[0], After))
  }

  function HunkRows(hunks: seq<Hunk>): seq<Row> {
    if hunks == [] then [] else RowsOfHunk(hunks[0]) + HunkRows(hunks[1..])
  }

  function Stripped(lines: seq<string>): seq<string> {
    if lines == [] then [] else [WithoutEnd(lines[0], '\r')] + Stripped(lines[1..])
  }

  lemma {:induction false} StrippedAppends(a: seq<string>, b: seq<string>)
    ensures Stripped(a + b) == Stripped(a) + Stripped(b)
  {
    if a == [] {
      assert a + b == b;
    } else {
      assert (a + b)[1..] == a[1..] + b;
      StrippedAppends(a[1..], b);
    }
  }

  predicate WithoutNewlines(lines: seq<string>) {
    forall k | 0 <= k < |lines| :: '\n' !in lines[k]
  }

  /** Cutting a text of newline-terminated lines into lines gives them back, without final returns. */
  lemma {:induction false} LinesOfTerminated(lines: seq<string>)
    requires WithoutNewlines(lines)
    ensures StrLines(Ended(lines, '\n'), '\n', '\r') == Stripped(lines)
  {
    var text := Ended(lines, '\n');
    if lines != [] {
      var line, rest := lines[0], Ended(lines[1..], '\n');
      FirstEndOfLine(line, '\n', rest);
      assert text[..|line| + 1] == line + "\n" && text[|line| + 1..] == rest;
      assert Segments(text, '\n') == [line + "\n"] + Segments(rest, '\n');
      assert (line + "\n")[..|line|] == line;
      assert forall k | 0 <= k < |lines[1..]| :: lines[1..][k] == lines[k + 1];
      LinesOfTerminated(lines[1..]);
      assert StrLines(text, '\n', '\r') == [WithoutEnd(line, '\r')] + StrLines(rest, '\n', '\r');
    }
  }

  // ----- Reading a printed diff -----

  lemma RangeHasNoBlank(at: nat, count: nat, sign: char)
    requires sign == '-' || sign == '+'
    ensures forall c | c in [sign] + Range(at, count) :: !White(c)
  {
  }

  lemma SignTrimmed(sign: char, r: string)
    requires r != "" && r[0] != sign
    ensures TrimStart([sign] + r, sign) == r
  {
    assert ([sign] + r)[1..] == r;
  }

  lemma RangeStarts(at: nat, count: nat)
    ensures Split(Range(at, count), ',')[0] == Digits(at)
    ensures Range(at, count) != "" && IsDigit(Range(at, count)[0])
  {
    var d := Digits(at);
    assert d[0] in d;
    if count == 1 {
      assert Range(at, count) == d;
      SplitOne(d, ',');
    } else {
      assert Range(at, count) == d + [','] + Digits(count);
      SplitFirst(d, Digits(count), ',');
    }
  }

  lemma RangeWord(at: nat, count: nat, sign: char)
    requires at < USIZE_LIMIT && (sign == '-' || sign == '+')
    ensures var w := [sign] + Range(at, count);
            && (forall k | 0 <= k < |w| :: !White(w[k]))
            && ParseUsize(Split(TrimStart(w, sign), ',')[0]) == Some(at)
  {
    RangeHasNoBlank(at, count, sign);
    RangeStarts(at, count);
    SignTrimmed(sign, Range(at, count));
    ParseDigits(at);
  }

  lemma WithoutReturnOfTail(x: string, y: string)
    requires y != ""
    ensures WithoutEnd(x + y, '\r') == x + WithoutEnd(y, '\r')
  {
  }

  lemma HeaderShape(h: Hunk) returns (tail: string)
    ensures tail != "" && tail[0] == ' '
    ensures WithoutEnd(Header(h), '\r') == "@@" + (" " + (OldRange(h) + (" " + (NewRange(h) + tail))))
  {
    var a, b, end := OldRange(h), NewRange(h), " @@" + h.section;
    tail := WithoutEnd(end, '\r');
    WithoutReturnOfTail(b, end);
    WithoutReturnOfTail(" ", b + end);
    WithoutReturnOfTail(a, " " + (b + end));
    WithoutReturnOfTail(" ", a + (" " + (b + end)));
    WithoutReturnOfTail("@@", " " + (a + (" " + (b + end))));
  }

  lemma HeaderWords(a: string, b: string, tail: string)
    requires a != "" && (forall k | 0 <= k < |a| :: !White(a[k]))
    requires b != "" && (forall k | 0 <= k < |b| :: !White(b[k]))
    requires tail != "" && tail[0] == ' '
    ensures Words("@@" + (" " + (a + (" " + (b + tail))))) == ["@@"] + ([a] + ([b] + Words(tail)))
  {
    FirstWord("@@", " " + (a + (" " + (b + tail))));
    SkipSpace(a + (" " + (b + tail)));
    FirstWord(a, " " + (b + tail));
    SkipSpace(b + tail);
    FirstWord(b, tail);
  }

  lemma SkipSpace(s: string)
    ensures Words(" " + s) == Words(s)
  {
    assert (" " + s)[1..] == s;
  }

  lemma HeaderStep(s: State, h: Hunk)
    requires h.oldAt < USIZE_LIMIT && h.newAt < USIZE_LIMIT
    ensures Step(s, WithoutEnd(Header(h), '\r')) ==
            State(h.oldAt, h.newAt, true, s.rows + [Row(None, None, HunkHeader, WithoutEnd(Header(h), '\r'))])
  {
    var a, b := OldRange(h), NewRange(h);
    var tail := HeaderShape(h);
    RangeWord(h.oldAt, |SideOf(h.lines, Before)|, '-');
    RangeWord(h.newAt, |SideOf(h.lines, After)|, '+');
    HeaderWords(a, b, tail);
    HeaderRead(s, WithoutEnd(Header(h), '\r'), a, b, Words(tail), h);
  }

  lemma HeaderRead(s: State, line: string, a: string, b: string, rest: seq<string>, h: Hunk)
    requires StartsWith(line, "@@ ") && Words(line) == ["@@"] + ([a] + ([b] + rest))
    requires ParseUsize(Split(TrimStart(a, '-'), ',')[0]) == Some(h.oldAt)
    requires ParseUsize(Split(TrimStart(b, '+'), ',')[0]) == Some(h.newAt)
    ensures Step(s, line) == State(h.oldAt, h.newAt, true, s.rows + [Row(None, None, HunkHeader, line)])
  {
  }

  lemma SignedLine(s: State, sign: char, t: string)
    requires s.hunk && (sign == ' ' || sign == '-' || sign == '+')
    ensures Step(s, WithoutEnd([sign] + t, '\r')) == BodyState(s, sign, Shown(t))
  {
    var line := [sign] + t;
    assert WithoutEnd(line, '\r') == [sign] + WithoutEnd(t, '\r');
    assert ([sign] + WithoutEnd(t, '\r'))[1..] == WithoutEnd(t, '\r');
  }

  lemma NoteLine(s: State, t: string)
    ensures Step(s, WithoutEnd("\\" + t, '\r')) == s
  {
    var line := "\\" + t;
    assert WithoutEnd(line, '\r')[0] == '\\';
  }

  /** The state after the line l, with numbers that have not run out. */
  function AfterLine(s: State, l: Line): State {
    State(Move(s.before, l, Before), Move(s.after, l, After), s.hunk, s.rows + RowOf(l, s.before, s.after))
  }

  lemma BodyIsAfterLine(s: State, l: Line)
    requires s.hunk && s.before + 1 < USIZE_LIMIT && s.after + 1 < USIZE_LIMIT && !l.Note?
    ensures BodyState(s, PrintLine(l)[0], Shown(l.text)) == AfterLine(s, l)
    ensures PrintLine(l) == [PrintLine(l)[0]] + l.text && PrintLine(l)[0] in {' ', '-', '+'}
  {
  }

  lemma NoteIsAfterLine(s: State, l: Line)
    requires l.Note?
    ensures AfterLine(s, l) == s && PrintLine(l) == "\\" + l.text
  {
  }

  lemma LineStep(s: State, l: Line)
    requires s.hunk && s.before + 1 < USIZE_LIMIT && s.after + 1 < USIZE_LIMIT
    ensures Step(s, WithoutEnd(PrintLine(l), '\r')) == AfterLine(s, l)
  {
    if l.Note? {
      NoteLine(s, l.text);
      NoteIsAfterLine(s, l);
    } else {
      SignedLine(s, PrintLine(l)[0], l.text);
      BodyIsAfterLine(s, l);
    }
  }

  lemma FirstPrinted(lines: seq<Line>)
    requires lines != []
    ensures Stripped(PrintLines(lines)) == [WithoutEnd(PrintLine(lines[0]), '\r')] + Stripped(PrintLines(lines[1..]))
  {
    var printed := PrintLines(lines);
    assert printed[0] == PrintLine(lines[0]) && printed[1..] == PrintLines(lines[1..]);
  }

  lemma FoldLine(s: State, lines: seq<Line>)
    requires lines != [] && s.hunk && s.before + 1 < USIZE_LIMIT && s.after + 1 < USIZE_LIMIT
    ensures Fold(s, Stripped(PrintLines(lines))) == Fold(AfterLine(s, lines[0]), Stripped(PrintLines(lines[1..])))
  {
    FirstPrinted(lines);
    LineStep(s, lines[0]);
    var stripped := Stripped(PrintLines(lines));
    assert stripped[1..] == Stripped(PrintLines(lines[1..]));
  }

  lemma {:induction false} LinesStep(s: State, lines: seq<Line>)
    requires s.hunk && s.before + |lines| < USIZE_LIMIT && s.after + |lines| < USIZE_LIMIT
    ensures Fold(s, Stripped(PrintLines(lines))).rows == s.rows + LineRows(lines, s.before, s.after)
    decreases lines
  {
    if lines != [] {
      var l, next := lines[0], AfterLine(s, lines[0]);
      assert next.before == Move(s.before, l, Before) && next.after == Move(s.after, l, After);
      FoldLine(s, lines);
      LinesStep(next, lines[1..]);
      FirstRows(lines, s.before, s.after, Row(None, None, HunkHeader, ""));
      Sequences.Regroup(s.rows, RowOf(lines[0], s.before, s.after), LineRows(lines[1..], next.before, next.after));
    }
  }

  predicate Numbered(h: Hunk) {
    h.oldAt + |h.lines| < USIZE_LIMIT && h.newAt + |h.lines| < USIZE_LIMIT
  }

  lemma FirstRows(lines: seq<Line>, i: nat, j: nat, r: Row)
    requires lines != []
    ensures var rest := LineRows(lines[1..], Move(i, lines[0], Before), Move(j, lines[0], After));
            && LineRows(lines, i, j) == RowOf(lines[0], i, j) + rest
            && (r in LineRows(lines, i, j) <==> r in RowOf(lines[0], i, j) || r in rest)
  {
  }

  function RowsOfHunk(h: Hunk): seq<Row> {
    [Row(None, None, HunkHeader, WithoutEnd(Header(h), '\r'))] + LineRows(h.lines, h.oldAt, h.newAt)
  }

  function PrintHunk(h: Hunk): seq<string> {
    [Header(h)] + PrintLines(h.lines)
  }

  lemma HunkStep(s: State, h: Hunk)
    requires Numbered(h)
    ensures Fold(s, Stripped(PrintHunk(h))).rows == s.rows + RowsOfHunk(h)
  {
    var header, body := WithoutEnd(Header(h), '\r'), PrintLines(h.lines);
    HeaderStep(s, h);
    LinesStep(Step(s, header), h.lines);
    assert PrintHunk(h)[1..] == body;
    assert ([header] + Stripped(body))[1..] == Stripped(body);
    Sequences.Regroup(s.rows, [Row(None, None, HunkHeader, header)], LineRows(h.lines, h.oldAt, h.newAt));
  }

  lemma {:induction false} HunksStep(s: State, hunks: seq<Hunk>)
    requires forall k | 0 <= k < |hunks| :: Numbered(hunks[k])
    ensures Fold(s, Stripped(PrintHunks(hunks))).rows == s.rows + HunkRows(hunks)
    decreases hunks
  {
    if hunks != [] {
      var first, rest := PrintHunk(hunks[0]), PrintHunks(hunks[1..]);
      StrippedAppends(first, rest);
      FoldAppends(s, Stripped(first), Stripped(rest));
      HunkStep(s, hunks[0]);
      assert forall k | 0 <= k < |hunks[1..]| :: hunks[1..][k] == hunks[k + 1];
      HunksStep(Fold(s, Stripped(first)), hunks[1..]);
      Sequences.Regroup(s.rows, RowsOfHunk(hunks[0]), HunkRows(hunks[1..]));
    }
  }

  lemma {:induction false} PreludeIsIgnored(prelude: seq<string>)
    requires forall k | 0 <= k < |prelude| :: !StartsWith(prelude[k], "@@ ")
    ensures Fold(START, Stripped(prelude)) == START
  {
    if prelude != [] {
      var line := WithoutEnd(prelude[0], '\r');
      assert |line| >= 3 ==> prelude[0][..3] == line[..3];
      assert forall k | 0 <= k < |prelude[1..]| :: prelude[1..][k] == prelude[k + 1];
      PreludeIsIgnored(prelude[1..]);
    }
  }

  /** A printed diff reads back as the rows of its hunks, whatever the lines look like. */
  lemma PrintedDiffReadsBack(prelude: seq<string>, hunks: seq<Hunk>)
    requires forall k | 0 <= k < |prelude| :: !StartsWith(prelude[k], "@@ ")
    requires forall k | 0 <= k < |hunks| :: Numbered(hunks[k])
    requires WithoutNewlines(prelude + PrintHunks(hunks))
    ensures AllRows(StrLines(Ended(prelude + PrintHunks(hunks), '\n'), '\n', '\r')) == HunkRows(hunks)
  {
    LinesOfTerminated(prelude + PrintHunks(hunks));
    PrintedLinesFold(prelude, hunks);
  }

  lemma PrintedLinesFold(prelude: seq<string>, hunks: seq<Hunk>)
    requires forall k | 0 <= k < |prelude| :: !StartsWith(prelude[k], "@@ ")
    requires forall k | 0 <= k < |hunks| :: Numbered(hunks[k])
    ensures AllRows(Stripped(prelude + PrintHunks(hunks))) == HunkRows(hunks)
  {
    StrippedAppends(prelude, PrintHunks(hunks));
    FoldAppends(START, Stripped(prelude), Stripped(PrintHunks(hunks)));
    PreludeIsIgnored(prelude);
    HunksStep(START, hunks);
  }

  // ----- What the numbers say -----

  function At(i: nat, j: nat, side: Side): nat {
    if side.Before? then i else j
  }

  lemma MoveAt(i: nat, j: nat, l: Line, side: Side)
    ensures At(Move(i, l, Before), Move(j, l, After), side) == Move(At(i, j, side), l, side)
  {
  }

  function NumberOf(r: Row, side: Side): Option<nat> {
    if side.Before? then r.before else r.after
  }

  lemma HoldsFirst(file: seq<string>, at: nat, lines: seq<Line>, side: Side)
    requires lines != [] && Holds(file, at, SideOf(lines, side))
    ensures Holds(file, Move(at, lines[0], side), SideOf(lines[1..], side))
    ensures On(lines[0], side) ==> 1 <= at <= |file| && file[at - 1] == lines[0].text
  {
    SideOfFirst(lines, side);
    if On(lines[0], side) {
      HoldsTail(file, at, lines[0].text, SideOf(lines[1..], side));
    }
  }

  lemma SideOfFirst(lines: seq<Line>, side: Side)
    requires lines != []
    ensures SideOf(lines, side) ==
            if On(lines[0], side) then [lines[0].text] + SideOf(lines[1..], side) else SideOf(lines[1..], side)
  {
  }

  lemma HoldsTail(file: seq<string>, at: nat, first: string, rest: seq<string>)
    requires Holds(file, at, [first] + rest)
    ensures 1 <= at <= |file| && file[at - 1] == first && Holds(file, at + 1, rest)
  {
    var all := [first] + rest;
    var part := file[at - 1..at - 1 + |all|];
    assert part[0] == all[0] && part[1..] == all[1..] == rest;
    assert part[1..] == file[at..at + |rest|];
  }

  lemma RowShowsLine(l: Line, i: nat, j: nat, side: Side, r: Row)
    requires r in RowOf(l, i, j) && NumberOf(r, side).Some?
    ensures On(l, side) && NumberOf(r, side).value == At(i, j, side) && r.text == Shown(l.text)
  {
  }

  lemma {:induction false} RowsShowLines(lines: seq<Line>, i: nat, j: nat, side: Side, file: seq<string>, r: Row)
    requires Holds(file, At(i, j, side), SideOf(lines, side))
    requires r in LineRows(lines, i, j) && NumberOf(r, side).Some?
    ensures var n := NumberOf(r, side).value; 1 <= n <= |file| && r.text == Shown(file[n - 1])
    decreases lines
  {
    var l, rest := lines[0], lines[1..];
    var i', j' := Move(i, l, Before), Move(j, l, After);
    MoveAt(i, j, l, side);
    HoldsFirst(file, At(i, j, side), lines, side);
    FirstRows(lines, i, j, r);
    if r in RowOf(l, i, j) {
      RowShowsLine(l, i, j, side, r);
    } else {
      RowsShowLines(rest, i', j', side, file, r);
    }
  }

  /**
    Every row read back from hunks that relate two files shows, under each of its numbers, the
    line of that file with that number.
   */
  lemma {:induction false} RowsFollowFiles(hunks: seq<Hunk>, before: seq<string>, after: seq<string>, side: Side, r: Row)
    requires forall k | 0 <= k < |hunks| :: Relates(hunks[k], before, after)
    requires r in HunkRows(hunks) && NumberOf(r, side).Some?
    ensures var n, file := NumberOf(r, side).value, if side.Before? then before else after;
            1 <= n <= |file| && r.text == Shown(file[n - 1])
  {
    var h := hunks[0];
    assert Relates(h, before, after);
    if r in LineRows(h.lines, h.oldAt, h.newAt) {
      RowsShowLines(h.lines, h.oldAt, h.newAt, side, if side.Before? then before else after, r);
    } else {
      assert r in HunkRows(hunks[1..]);
      assert forall k | 0 <= k < |hunks[1..]| :: hunks[1..][k] == hunks[k + 1];
      RowsFollowFiles(hunks[1..], before, after, side, r);
    }
  }

  /** The numbers on one side of the rows, in order. */
  function Numbers(rows: seq<Row>, side: Side): seq<nat> {
    if rows == [] then []
    else (if NumberOf(rows[0], side).Some? then [NumberOf(rows[0], side).value] else []) + Numbers(rows[1..], side)
  }

  function From(at: nat, count: nat): seq<nat>
    decreases count
  {
    if count == 0 then [] else [at] + From(at + 1, count - 1)
  }

  lemma FirstNumber(row: seq<Row>, rest: seq<Row>, side: Side)
    requires |row| <= 1
    ensures Numbers(row + rest, side) ==
            (if row != [] && NumberOf(row[0], side).Some? then [NumberOf(row[0], side).value] else []) + Numbers(rest, side)
  {
    if row == [] {
      assert row + rest == rest;
    } else {
      assert (row + rest)[1..] == rest;
    }
  }

  /** Within a hunk the numbers on each side run without a gap over that side's lines. */
  lemma {:induction false} NumbersHaveNoGap(lines: seq<Line>, i: nat, j: nat, side: Side)
    ensures Numbers(LineRows(lines, i, j), side) == From(At(i, j, side), |SideOf(lines, side)|)
    decreases lines
  {
    if lines != [] {
      var l := lines[0];
      var i', j' := Move(i, l, Before), Move(j, l, After);
      MoveAt(i, j, l, side);
      NumbersHaveNoGap(lines[1..], i', j', side);
      FirstNumber(RowOf(l, i, j), LineRows(lines[1..], i', j'), side);
      assert LineRows(lines, i, j) == RowOf(l, i, j) + LineRows(lines[1..], i', j');
    }
  }

  // ----- A whole diff that is called truncated -----

  function Additions(n: nat): seq<Line> {
    seq(n, _ => Add(""))
  }

  lemma {:induction false} AddedRows(n: nat, i: nat, j: nat)
    ensures |LineRows(Additions(n) + [Note("")], i, j)| == n
  {
    var lines := Additions(n) + [Note("")];
    if n == 0 {
      assert lines == [Note("")] && lines[1..] == [];
    } else {
      assert lines[1..] == Additions(n - 1) + [Note("")];
      AddedRows(n - 1, Move(i, lines[0], Before), Move(j, lines[0], After));
    }
  }

  lemma {:induction false} PrintedHaveNoNewlines(lines: seq<Line>)
    requires forall k | 0 <= k < |lines| :: '\n' !in PrintLine(lines[k])
    ensures WithoutNewlines(PrintLines(lines))
  {
    if lines != [] {
      assert forall k | 0 <= k < |lines[1..]| :: lines[1..][k] == lines[k + 1];
      PrintedHaveNoNewlines(lines[1..]);
    }
  }

  /** 49999 added lines, their hunk's header and the note that the file ends without a newline. */
  lemma WholeDiffCalledTruncated() returns (raw: string)
    ensures var lines := StrLines(raw, '\n', '\r');
            |AllRows(lines)| == MAX_ROWS && EndsQuietly(lines) && FullBefore(lines, |lines|)
  {
    var hunk := Hunk(0, 1, Additions(MAX_ROWS - 1) + [Note("")], "");
    var printed := PrintHunk(hunk);
    raw := Ended(printed, '\n');
    var lines := StrLines(raw, '\n', '\r');
    PrintedHunkIsWhole(hunk);
    LinesOfTerminated(printed);
    AddedRows(MAX_ROWS - 1, 0, 1);
    HunkStep(START, hunk);
    LastIsNote(hunk, MAX_ROWS - 1);
    NoteIsQuiet(lines);
    FullBeforeIff(lines);
  }

  lemma HeaderHasNoNewline(h: Hunk)
    requires '\n' !in h.section
    ensures '\n' !in Header(h)
  {
    RangeHasNoBlank(h.oldAt, |SideOf(h.lines, Before)|, '-');
    RangeHasNoBlank(h.newAt, |SideOf(h.lines, After)|, '+');
  }

  lemma PrintedHunkIsWhole(h: Hunk)
    requires '\n' !in h.section && forall k | 0 <= k < |h.lines| :: '\n' !in PrintLine(h.lines[k])
    ensures WithoutNewlines(PrintHunk(h))
  {
    HeaderHasNoNewline(h);
    PrintedHaveNoNewlines(h.lines);
  }

  /** The last line read is the note. */
  lemma LastIsNote(h: Hunk, n: nat)
    requires h.lines == Additions(n) + [Note("")]
    ensures var lines := Stripped(PrintHunk(h)); lines != [] && lines[|lines| - 1] == "\\"
  {
    LastStripped(PrintHunk(h));
    LastPrinted(h.lines);
  }

  lemma {:induction false} LastPrinted(lines: seq<Line>)
    requires lines != []
    ensures PrintLines(lines) != [] && PrintLines(lines)[|PrintLines(lines)| - 1] == PrintLine(lines[|lines| - 1])
  {
    if |lines| > 1 {
      LastPrinted(lines[1..]);
    }
  }

  lemma {:induction false} LastStripped(lines: seq<string>)
    requires lines != []
    ensures Stripped(lines) != [] && Stripped(lines)[|Stripped(lines)| - 1] == WithoutEnd(lines[|lines| - 1], '\r')
  {
    if |lines| > 1 {
      LastStripped(lines[1..]);
    }
  }

  lemma NoteIsQuiet(lines: seq<string>)
    requires lines != [] && lines[|lines| - 1] == "\\"
    ensures EndsQuietly(lines)
  {
    FoldOneMore(START, lines, |lines| - 1);
    assert lines[..|lines| - 1 + 1] == lines;
    NoteLine(Fold(START, lines[..|lines| - 1]), "");
    assert WithoutEnd("\\" + "", '\r') == "\\";
  }
}
