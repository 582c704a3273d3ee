/**
  What the parser of diffs is really given: Git's output for one or more files, its end trimmed.
 */
module DiffOutput {
  import opened Wrappers
  import Sequences
  import Strings
  import TextLines
  import opened UnifiedDiff

  /** The rows read from a text. */
  function RowsOf(raw: string): seq<Row> {
    AllRows(TextLines.StrLines(raw, '\n', '\r'))
  }

  function Text(lines: seq<string>): string {
    Strings.Ended(lines, '\n')
  }

  predicate Preludes(lines: seq<string>) {
    forall k | 0 <= k < |lines| :: !Strings.StartsWith(lines[k], "@@ ")
  }

  predicate AllNumbered(hunks: seq<Hunk>) {
    forall k | 0 <= k < |hunks| :: Numbered(hunks[k])
  }

  // ----- Once in a hunk, always -----

  lemma {:induction false} HunkStays(s: State, lines: seq<string>)
    requires s.hunk
    ensures Fold(s, lines).hunk
    decreases lines
  {
    if lines != [] {
      HunkStays(Step(s, lines[0]), lines[1..]);
    }
  }

  lemma HunksBegin(s: State, hunks: seq<Hunk>)
    requires hunks != [] && AllNumbered(hunks)
    ensures Fold(s, Stripped(PrintHunks(hunks))).hunk
  {
    var lines := Stripped(PrintHunks(hunks));
    StrippedAppends(PrintHunk(hunks[0]), PrintHunks(hunks[1..]));
    assert lines[0] == Strings.WithoutEnd(Header(hunks[0]), '\r');
    HeaderStep(s, hunks[0]);
    HunkStays(Step(s, lines[0]), lines[1..]);
  }

  // ----- A second file -----

  /** Behind a hunk the line is taken for one of its lines. */
  predicate MakesRow(line: string) {
    line != "" && line[0] in {'+', '-', ' '}
  }

  lemma LineMakesRowIff(s: State, line: string)
    requires s.hunk && !Strings.StartsWith(line, "@@ ")
    ensures var next := Step(s, Strings.WithoutEnd(line, '\r'));
            && next.hunk
            && |next.rows| == |s.rows| + if MakesRow(line) then 1 else 0
  {
    var seen := Strings.WithoutEnd(line, '\r');
    assert |seen| >= 3 ==> seen[..3] == line[..3];
  }

  lemma {:induction false} PreludeMakesNoRowIff(s: State, lines: seq<string>)
    requires s.hunk && Preludes(lines)
    ensures |Fold(s, Stripped(lines)).rows| >= |s.rows|
    ensures |Fold(s, Stripped(lines)).rows| == |s.rows| <==> forall k | 0 <= k < |lines| :: !MakesRow(lines[k])
    decreases lines
  {
    if lines != [] {
      var next := Step(s, Strings.WithoutEnd(lines[0], '\r'));
      LineMakesRowIff(s, lines[0]);
      assert forall k | 0 <= k < |lines[1..]| :: lines[1..][k] == lines[k + 1];
      PreludeMakesNoRowIff(next, lines[1..]);
      assert Stripped(lines)[1..] == Stripped(lines[1..]);
    }
  }

  lemma RowsOfTwo(prelude: seq<string>, first: seq<Hunk>, second: seq<string>, hunks: seq<Hunk>) returns (between: State)
    requires Preludes(prelude) && AllNumbered(first) && AllNumbered(hunks) && first != []
    requires WithoutNewlines(prelude + PrintHunks(first) + (second + PrintHunks(hunks)))
    ensures between.hunk && between.rows == HunkRows(first)
    ensures RowsOf(Text(prelude + PrintHunks(first) + (second + PrintHunks(hunks))))
            == Fold(between, Stripped(second)).rows + HunkRows(hunks)
  {
    var a, b := prelude + PrintHunks(first), second + PrintHunks(hunks);
    LinesOfTerminated(a + b);
    StrippedAppends(a, b);
    FoldAppends(START, Stripped(a), Stripped(b));
    between := Fold(START, Stripped(a));
    PrintedLinesFold(prelude, first);
    StrippedAppends(prelude, PrintHunks(first));
    FoldAppends(START, Stripped(prelude), Stripped(PrintHunks(first)));
    HunksBegin(Fold(START, Stripped(prelude)), first);
    StrippedAppends(second, PrintHunks(hunks));
    FoldAppends(between, Stripped(second), Stripped(PrintHunks(hunks)));
    HunksStep(Fold(between, Stripped(second)), hunks);
  }

  /**
    A diff of two files reads back as the rows of both exactly if no line that introduces the second
    one looks like a line of a hunk.
   */
  lemma SecondFileReadsBackIff(prelude: seq<string>, first: seq<Hunk>, second: seq<string>, hunks: seq<Hunk>)
    requires Preludes(prelude) && Preludes(second) && AllNumbered(first) && AllNumbered(hunks) && first != []
    requires WithoutNewlines(prelude + PrintHunks(first) + (second + PrintHunks(hunks)))
    ensures RowsOf(Text(prelude + PrintHunks(first) + (second + PrintHunks(hunks)))) == HunkRows(first) + HunkRows(hunks)
            <==> forall k | 0 <= k < |second| :: !MakesRow(second[k])
  {
    var between := RowsOfTwo(prelude, first, second, hunks);
    PreludeMakesNoRowIff(between, second);
    var after := Fold(between, Stripped(second)).rows;
    RowsGrow(between, Stripped(second));
    if |after| == |between.rows| {
      assert after == between.rows;
    } else {
      assert |after + HunkRows(hunks)| > |between.rows + HunkRows(hunks)|;
    }
  }

  // ----- The trimmed end -----

  /** What the row of a line shows, or the whole header; a note shows nothing. */
  function ShownOf(line: string): string {
    if Strings.StartsWith(line, "@@ ") then line
    else if MakesRow(line) then TextLines.Take(line[1..], MAX_SHOWN)
    else ""
  }

  /** The row of the last printed line survives trimming: nothing that it shows is white space at its end. */
  predicate Harmless(line: string) {
    Strings.TrimEnd(line) != "" && ShownOf(Strings.TrimEnd(line)) == ShownOf(Strings.WithoutEnd(line, '\r'))
  }

  /** A line that hunks are printed with. */
  predicate HunkLine(line: string) {
    line != "" && (Strings.StartsWith(line, "@@ ") || MakesRow(line) || line[0] == '\\')
  }

  lemma OneMoreLine(front: seq<string>, last: string)
    requires WithoutNewlines(front) && '\n' !in last
    ensures TextLines.StrLines(Text(front + [last]), '\n', '\r') == Stripped(front) + [Strings.WithoutEnd(last, '\r')]
    ensures Text(front + [last]) == Text(front) + (last + "\n")
  {
    LinesOfTerminated(front + [last]);
    StrippedAppends(front, [last]);
    TextAppends(front, last);
  }

  lemma {:induction false} TextAppends(front: seq<string>, last: string)
    ensures Text(front + [last]) == Text(front) + (last + "\n")
  {
    if front == [] {
      assert front + [last] == [last] && [last][1..] == [];
      assert Text([last]) == last + "\n" + Text([]);
    } else {
      TextAppends(front[1..], last);
      assert (front + [last])[1..] == front[1..] + [last];
    }
  }

  /** A last line without a newline is a line all the same. */
  lemma {:induction false} OpenLastLine(front: seq<string>, last: string)
    requires WithoutNewlines(front) && '\n' !in last && last != ""
    ensures TextLines.StrLines(Text(front) + last, '\n', '\r') == Stripped(front) + [last]
  {
    var text := Text(front) + last;
    if front == [] {
      TextLines.OneLine(last, '\n', '\r');
      assert text == last;
    } else {
      var line, rest := front[0], Text(front[1..]) + last;
      assert text == line + ['\n'] + rest;
      assert forall k | 0 <= k < |front[1..]| :: front[1..][k] == front[k + 1];
      OpenLastLine(front[1..], last);
      FirstStrLine(line, rest);
    }
  }

  lemma FirstStrLine(line: string, rest: string)
    requires '\n' !in line
    ensures TextLines.StrLines(line + ['\n'] + rest, '\n', '\r')
            == [Strings.WithoutEnd(line, '\r')] + TextLines.StrLines(rest, '\n', '\r')
  {
    TextLines.FirstEndOfLine(line, '\n', rest);
    TextLines.SegmentsCut(line + ['\n'], rest, '\n');
    TextLines.StrLinesFirst(line + ['\n'], rest, '\n', '\r');
    StrippedLine(line);
  }

  lemma StrippedLine(line: string)
    ensures TextLines.Stripped(line + ['\n'], '\n', '\r') == Strings.WithoutEnd(line, '\r')
  {
    assert (line + ['\n'])[..|line|] == line;
  }

  lemma TrimmedText(front: seq<string>, last: string)
    requires WithoutNewlines(front) && '\n' !in last
    ensures var cut, raw := Strings.TrimEnd(last), Strings.TrimEnd(Text(front + [last]));
            raw == if cut == "" then Strings.TrimEnd(Text(front)) else Text(front) + cut
  {
    TextAppends(front, last);
    Strings.TrimEndDrops(last, "\n");
    Strings.TrimEndOfLast(Text(front), last + "\n");
  }

  lemma TrimmedLine(last: string)
    requires Strings.TrimEnd(last) != ""
    ensures var cut, seen := Strings.TrimEnd(last), Strings.WithoutEnd(last, '\r');
            cut <= seen && (forall c | c in cut :: c in last)
  {
    var white := Strings.TrimEndIs(last);
    var cut := Strings.TrimEnd(last);
    if last[|last| - 1] == '\r' {
      assert white != "";
    }
  }

  lemma TrimmedRows(front: seq<string>, last: string)
    requires WithoutNewlines(front) && '\n' !in last && Strings.TrimEnd(last) != ""
    ensures RowsOf(Strings.TrimEnd(Text(front + [last]))) == Step(Fold(START, Stripped(front)), Strings.TrimEnd(last)).rows
  {
    var cut := Strings.TrimEnd(last);
    TrimmedText(front, last);
    TrimmedLine(last);
    OpenLastLine(front, cut);
    FoldLast(Stripped(front), cut);
  }

  lemma FoldLast(front: seq<string>, last: string)
    ensures Fold(START, front + [last]) == Step(Fold(START, front), last)
  {
    FoldAppends(START, front, [last]);
    var s := Fold(START, front);
    assert [last][1..] == [];
    assert Fold(s, [last]) == Fold(Step(s, last), []);
  }

  lemma WholeRows(front: seq<string>, last: string)
    requires WithoutNewlines(front) && '\n' !in last
    ensures RowsOf(Text(front + [last])) == Step(Fold(START, Stripped(front)), Strings.WithoutEnd(last, '\r')).rows
  {
    OneMoreLine(front, last);
    FoldLast(Stripped(front), Strings.WithoutEnd(last, '\r'));
  }

  /** A prefix of a line makes no row that the line does not make. */
  lemma PrefixMakesNoMore(s: State, cut: string, seen: string)
    requires cut != "" && cut <= seen
    ensures |s.rows| <= |Step(s, cut).rows| <= |Step(s, seen).rows|
  {
    assert Strings.StartsWith(cut, "@@ ") ==> Strings.StartsWith(seen, "@@ ") by {
      assert |cut| >= 3 ==> cut[..3] == seen[..3];
    }
  }

  lemma {:induction false} TrimmingAddsNoRows(lines: seq<string>)
    requires WithoutNewlines(lines)
    ensures |RowsOf(Strings.TrimEnd(Text(lines)))| <= |AllRows(Stripped(lines))|
  {
    if lines == [] {
      assert Text(lines) == "" && TextLines.StrLines("", '\n', '\r') == [];
    } else {
      var front, last := lines[..|lines| - 1], lines[|lines| - 1];
      assert lines == front + [last];
      StrippedAppends(front, [last]);
      assert Stripped([last]) == [Strings.WithoutEnd(last, '\r')];
      FoldLast(Stripped(front), Strings.WithoutEnd(last, '\r'));
      OneRowMore(Fold(START, Stripped(front)), Strings.WithoutEnd(last, '\r'));
      if Strings.TrimEnd(last) == "" {
        TrimmedText(front, last);
        TrimmingAddsNoRows(front);
      } else {
        TrimmedRows(front, last);
        TrimmedLine(last);
        PrefixMakesNoMore(Fold(START, Stripped(front)), Strings.TrimEnd(last), Strings.WithoutEnd(last, '\r'));
      }
    }
  }

  /** The row a line of a hunk makes there, if any. */
  function RowAt(s: State, line: string): Row {
    if Strings.StartsWith(line, "@@ ") then Row(None, None, HunkHeader, line)
    else if Strings.StartsWith(line, "+") then Row(None, Some(s.after), Added, ShownOf(line))
    else if Strings.StartsWith(line, "-") then Row(Some(s.before), None, Deleted, ShownOf(line))
    else Row(Some(s.before), Some(s.after), Unchanged, ShownOf(line))
  }

  lemma RowMade(s: State, line: string)
    requires s.hunk && line != ""
    ensures Step(s, line).rows ==
            if Strings.StartsWith(line, "@@ ") || MakesRow(line) then s.rows + [RowAt(s, line)] else s.rows
  {
  }

  lemma SameRowIff(s: State, cut: string, seen: string)
    requires s.hunk && cut != "" && cut <= seen && HunkLine(seen) && (Strings.StartsWith(seen, "@@ ") <==> Strings.StartsWith(cut, "@@ "))
    ensures Step(s, cut).rows == Step(s, seen).rows <==> ShownOf(cut) == ShownOf(seen)
  {
    assert cut[0] == seen[0] && cut[..1] == seen[..1] == [seen[0]];
    RowMade(s, cut);
    RowMade(s, seen);
    Sequences.SameLast(s.rows, RowAt(s, cut), RowAt(s, seen));
  }

  // ----- Headers and lines as Git prints them -----

  lemma HeaderStarts(h: Hunk)
    ensures |Header(h)| > 4 && Header(h)[..4] == "@@ -"
  {
    assert OldRange(h)[0] == '-';
  }

  /** Trimming leaves a header a header. */
  lemma TrimmedHeader(last: string)
    requires |last| > 4 && last[..4] == "@@ -"
    ensures Strings.TrimEnd(last) != "" && Strings.StartsWith(Strings.TrimEnd(last), "@@ ")
    ensures Strings.StartsWith(Strings.WithoutEnd(last, '\r'), "@@ ")
  {
    assert last[3] == last[..4][3] == '-';
    Strings.TrimEndKeepsUpTo(last, 3);
    assert Strings.TrimEnd(last)[..3] == last[..4][..3] == last[..3];
  }

  /** The last line of printed hunks, with what comes before it. */
  lemma LastHunkLine(hunks: seq<Hunk>) returns (front: seq<string>, last: string)
    requires hunks != [] && AllNumbered(hunks)
    ensures PrintHunks(hunks) == front + [last]
    ensures (|last| > 4 && last[..4] == "@@ -") || (MakesRow(last) && last[0] != '@') || (last != "" && last[0] == '\\')
    ensures !(|last| > 4 && last[..4] == "@@ -") ==> forall s :: Fold(s, Stripped(front)).hunk
  {
    var init, h := hunks[..|hunks| - 1], hunks[|hunks| - 1];
    LastHunk(hunks);
    if h.lines == [] {
      front, last := PrintHunks(init), Header(h);
      HeaderStarts(h);
      assert PrintHunk(h) == [Header(h)];
    } else {
      var body;
      body, last := LastBodyLine(h);
      front := PrintHunks(init) + body;
      Sequences.Regroup(PrintHunks(init), body, [last]);
      forall s
        ensures Fold(s, Stripped(front)).hunk
      {
        BodyIsInHunk(s, PrintHunks(init), h, body[1..]);
        assert body == [Header(h)] + body[1..];
      }
    }
  }

  lemma LastBodyLine(h: Hunk) returns (body: seq<string>, last: string)
    requires h.lines != []
    ensures PrintHunk(h) == body + [last] && body != [] && body[0] == Header(h)
    ensures last != "" && last[0] in {'+', '-', ' ', '\\'}
  {
    var lines := PrintLines(h.lines);
    LastPrinted(h.lines);
    last := lines[|lines| - 1];
    body := [Header(h)] + lines[..|lines| - 1];
  }

  lemma {:induction false} LastHunk(hunks: seq<Hunk>)
    requires hunks != []
    ensures PrintHunks(hunks) == PrintHunks(hunks[..|hunks| - 1]) + PrintHunk(hunks[|hunks| - 1])
  {
    if |hunks| > 1 {
      LastHunk(hunks[1..]);
      assert hunks[1..][..|hunks| - 2] == hunks[..|hunks| - 1][1..];
      Sequences.Regroup(PrintHunk(hunks[0]), PrintHunks(hunks[..|hunks| - 1][1..]), PrintHunk(hunks[|hunks| - 1]));
    } else {
      assert hunks[..0] == [] && hunks[1..] == [];
    }
  }

  lemma BodyIsInHunk(s: State, before: seq<string>, h: Hunk, body: seq<string>)
    requires Numbered(h)
    ensures Fold(s, Stripped(before + ([Header(h)] + body))).hunk
  {
    StrippedAppends(before, [Header(h)] + body);
    FoldAppends(s, Stripped(before), Stripped([Header(h)] + body));
    var t, lines := Fold(s, Stripped(before)), Stripped([Header(h)] + body);
    assert ([Header(h)] + body)[1..] == body;
    HeaderStep(t, h);
    HunkStays(Step(t, lines[0]), lines[1..]);
  }

  /**
    The trimmed output of a diff reads back as the rows of its hunks exactly if there are none or
    trimming is harmless to the last line printed: something is left of it, and nothing of what its
    row shows is lost.
   */
  lemma TrimmedDiffReadsBackIff(prelude: seq<string>, hunks: seq<Hunk>)
    requires Preludes(prelude) && AllNumbered(hunks) && WithoutNewlines(prelude + PrintHunks(hunks))
    ensures RowsOf(Strings.TrimEnd(Text(prelude + PrintHunks(hunks)))) == HunkRows(hunks) <==>
            hunks == [] || Harmless(LastLine(hunks))
  {
    if hunks == [] {
      assert prelude + PrintHunks(hunks) == prelude;
      TrimmingAddsNoRows(prelude);
      PreludeIsIgnored(prelude);
    } else {
      TrimmedHunksReadBackIff(prelude, hunks);
    }
  }

  /** The last line printed for some hunks. */
  function LastLine(hunks: seq<Hunk>): string
    requires hunks != []
  {
    var printed := PrintHunks(hunks);
    if printed == [] then "" else printed[|printed| - 1]
  }

  lemma TrimmedHunksReadBackIff(prelude: seq<string>, hunks: seq<Hunk>)
    requires Preludes(prelude) && AllNumbered(hunks) && hunks != [] && WithoutNewlines(prelude + PrintHunks(hunks))
    ensures RowsOf(Strings.TrimEnd(Text(prelude + PrintHunks(hunks)))) == HunkRows(hunks) <==> Harmless(LastLine(hunks))
  {
    var tail, last := LastHunkLine(hunks);
    var front := prelude + tail;
    assert prelude + PrintHunks(hunks) == front + [last];
    assert (front + [last])[|front|] == last;
    assert forall k | 0 <= k < |front| :: front[k] == (front + [last])[k];
    PrintedDiffReadsBack(prelude, hunks);
    StrippedAppends(prelude, tail);
    FoldAppends(START, Stripped(prelude), Stripped(tail));
    TrimmingKeepsRowsIff(front, last);
  }

  lemma TrimmingKeepsRowsIff(front: seq<string>, last: string)
    requires WithoutNewlines(front) && '\n' !in last && last != ""
    requires (|last| > 4 && last[..4] == "@@ -") || (Fold(START, Stripped(front)).hunk && last[0] in {'+', '-', ' ', '\\'})
    ensures RowsOf(Strings.TrimEnd(Text(front + [last]))) == RowsOf(Text(front + [last])) <==> Harmless(last)
  {
    if Strings.TrimEnd(last) == "" {
      WhiteIsContext(last);
      WhiteLineIsLost(front, last);
    } else {
      WholeRows(front, last);
      TrimmedRows(front, last);
      LastLineIff(Fold(START, Stripped(front)), last);
    }
  }

  lemma WhiteIsContext(last: string)
    requires Strings.TrimEnd(last) == "" && last != ""
    ensures Strings.White(last[0])
  {
    var white := Strings.TrimEndIs(last);
    assert last == white;
  }

  lemma OneRowFor(front: seq<string>, last: string)
    requires WithoutNewlines(front) && '\n' !in last
    requires MakesRow(last) && Fold(START, Stripped(front)).hunk
    ensures |RowsOf(Text(front + [last]))| == |AllRows(Stripped(front))| + 1
  {
    var s := Fold(START, Stripped(front));
    assert s.rows == AllRows(Stripped(front));
    WholeRows(front, last);
    RowMadeBehindHunk(s, last);
  }

  lemma RowMadeBehindHunk(s: State, last: string)
    requires s.hunk && MakesRow(last)
    ensures |Step(s, Strings.WithoutEnd(last, '\r')).rows| == |s.rows| + 1
  {
    assert !Strings.StartsWith(last, "@@ ") by {
      assert "@@ "[0] == '@';
    }
    LineMakesRowIff(s, last);
  }

  lemma WhiteLineIsLost(front: seq<string>, last: string)
    requires WithoutNewlines(front) && '\n' !in last && Strings.TrimEnd(last) == ""
    requires MakesRow(last) && Fold(START, Stripped(front)).hunk
    ensures |RowsOf(Strings.TrimEnd(Text(front + [last])))| < |RowsOf(Text(front + [last]))|
  {
    TrimmedText(front, last);
    TrimmingAddsNoRows(front);
    OneRowFor(front, last);
  }

  lemma LastLineIff(s: State, last: string)
    requires Strings.TrimEnd(last) != ""
    requires (|last| > 4 && last[..4] == "@@ -") || (s.hunk && last[0] in {'+', '-', ' ', '\\'})
    ensures Step(s, Strings.TrimEnd(last)).rows == Step(s, Strings.WithoutEnd(last, '\r')).rows <==> Harmless(last)
  {
    TrimmedLine(last);
    if |last| > 4 && last[..4] == "@@ -" {
      HeaderIff(s, last);
    } else {
      BodyIff(s, last);
    }
  }

  lemma HeaderIff(s: State, last: string)
    requires |last| > 4 && last[..4] == "@@ -"
    ensures Step(s, Strings.TrimEnd(last)).rows == Step(s, Strings.WithoutEnd(last, '\r')).rows <==> Harmless(last)
  {
    var cut, seen := Strings.TrimEnd(last), Strings.WithoutEnd(last, '\r');
    TrimmedHeader(last);
    Sequences.SameLast(s.rows, Row(None, None, HunkHeader, cut), Row(None, None, HunkHeader, seen));
  }

  lemma NotHeader(line: string)
    requires line != "" && line[0] != '@'
    ensures !Strings.StartsWith(line, "@@ ")
  {
    assert "@@ "[0] == '@';
  }

  lemma BodyIff(s: State, last: string)
    requires Strings.TrimEnd(last) != "" && s.hunk && last[0] in {'+', '-', ' ', '\\'}
    ensures Step(s, Strings.TrimEnd(last)).rows == Step(s, Strings.WithoutEnd(last, '\r')).rows <==> Harmless(last)
  {
    var cut, seen := Strings.TrimEnd(last), Strings.WithoutEnd(last, '\r');
    TrimmedLine(last);
    assert cut[0] == seen[0] == last[0];
    NotHeader(cut);
    NotHeader(seen);
    SameRowIff(s, cut, seen);
  }

  // ----- Diffs that lose or gain rows -----

  /** A new last line with a blank at its end, which its row does not show. */
  lemma TrailingBlankIsLost() returns (hunks: seq<Hunk>)
    ensures AllNumbered(hunks) && WithoutNewlines(PrintHunks(hunks))
    ensures RowsOf(Text(PrintHunks(hunks))) == HunkRows(hunks) != RowsOf(Strings.TrimEnd(Text(PrintHunks(hunks))))
  {
    var h := Hunk(0, 1, [Add("x ")], "");
    hunks := [h];
    EndsWith(h, "+x ");
    BlankEndIsNotHarmless();
    TrimmedDiffReadsBackIff([], hunks);
  }

  lemma BlankEndIsNotHarmless()
    ensures !Harmless("+x ")
  {
    Strings.TrimEndDrops("+x", " ");
    assert "+x" + " " == "+x ";
    assert Strings.TrimEnd("+x ") == "+x";
    assert "+x"[1..] == "x" && "+x "[1..] == "x ";
  }

  /** Unchanged blank lines at the end, whose rows are missing. */
  lemma BlankContextIsLost() returns (hunks: seq<Hunk>)
    ensures AllNumbered(hunks) && WithoutNewlines(PrintHunks(hunks))
    ensures RowsOf(Text(PrintHunks(hunks))) == HunkRows(hunks) != RowsOf(Strings.TrimEnd(Text(PrintHunks(hunks))))
  {
    var h := Hunk(1, 1, [Add("x"), Context("")], "");
    hunks := [h];
    EndsWith(h, " ");
    Strings.TrimEndDrops("", " ");
    assert "" + " " == " ";
    TrimmedDiffReadsBackIff([], hunks);
  }

  lemma EndsWith(h: Hunk, last: string)
    requires Numbered(h) && '\n' !in h.section && h.lines != [] && PrintLine(h.lines[|h.lines| - 1]) == last
    requires forall k | 0 <= k < |h.lines| :: '\n' !in PrintLine(h.lines[k])
    ensures var printed := PrintHunks([h]);
            && WithoutNewlines([] + printed) && [] + printed == printed && printed != [] && printed[|printed| - 1] == last
            && RowsOf(Text(printed)) == HunkRows([h])
  {
    assert PrintHunks([h]) == PrintHunk(h) + PrintHunks([]) == PrintHunk(h);
    PrintedHunkIsWhole(h);
    LastPrinted(h.lines);
    assert [] + PrintHunks([h]) == PrintHunks([h]);
    PrintedDiffReadsBack([], [h]);
  }

  /** The lines that name the two sides of a file. */
  function Names(path: string): seq<string> {
    ["--- a/" + path, "+++ b/" + path]
  }

  /** Those that introduce the second file of a diff become a deleted and an added line. */
  lemma SecondFileMakesRows(first: seq<Hunk>, path: string, hunks: seq<Hunk>)
    requires AllNumbered(first) && AllNumbered(hunks) && first != [] && '\n' !in path
    requires WithoutNewlines(PrintHunks(first)) && WithoutNewlines(PrintHunks(hunks))
    ensures RowsOf(Text(PrintHunks(first) + (Names(path) + PrintHunks(hunks)))) != HunkRows(first) + HunkRows(hunks)
  {
    NamesMakeRows(path);
    assert [] + PrintHunks(first) == PrintHunks(first);
    SecondFileReadsBackIff([], first, Names(path), hunks);
  }

  lemma NamesMakeRows(path: string)
    requires '\n' !in path
    ensures WithoutNewlines(Names(path)) && Preludes(Names(path)) && MakesRow(Names(path)[0]) && MakesRow(Names(path)[1])
  {
    assert Names(path)[0][0] == '-' && Names(path)[1][0] == '+';
  }
}
