/** Lines of a text, as Rust's standard library cuts them, over characters or over bytes. */
module TextLines {
  import opened Wrappers
  import opened Utf8
  import Sequences

  const LF: byte := 10
  const CR: byte := 13

  /** Length of the first line with its newline, or of all the text when it has none. */
  function FirstEnd<T(==)>(text: seq<T>, nl: T): (n: nat)
    ensures n <= |text| && (text != [] ==> n > 0)
    ensures forall k | 0 <= k < n - 1 :: text[k] != nl
    ensures n < |text| ==> text[n - 1] == nl
  {
    if text == [] then 0
    else if text[0] == nl then 1
    else 1 + FirstEnd(text[1..], nl)
  }

  lemma {:induction false} FirstEndOfLine<T>(line: seq<T>, nl: T, rest: seq<T>)
    requires nl !in line
    ensures FirstEnd(line + [nl] + rest, nl) == |line| + 1
  {
    var s := line + [nl] + rest;
    if line != [] {
      assert s[1..] == line[1..] + [nl] + rest;
      assert s[0] == line[0] && line[0] in line;
      assert forall c | c in line[1..] :: c in line;
      FirstEndOfLine(line[1..], nl, rest);
    }
  }

  /** The lines with their newlines (`split_inclusive`). */
  function Segments<T(==)>(text: seq<T>, nl: T): seq<seq<T>> {
    if text == [] then []
    else
      var n := FirstEnd(text, nl);
      [text[..n]] + Segments(text[n..], nl)
  }

  /** One line without its newline, and without the carriage return before that newline. */
  function Stripped<T(==)>(segment: seq<T>, nl: T, cr: T): seq<T> {
    if segment == [] || segment[|segment| - 1] != nl then segment
    else
      var line := segment[..|segment| - 1];
      if line == [] || line[|line| - 1] != cr then line else line[..|line| - 1]
  }

  /** `str::lines`. */
  function StrLines<T(==)>(text: seq<T>, nl: T, cr: T): (lines: seq<seq<T>>)
    ensures |lines| == |Segments(text, nl)|
    ensures forall k | 0 <= k < |lines| :: lines[k] == Stripped(Segments(text, nl)[k], nl, cr)
  {
    var segments := Segments(text, nl);
    seq(|segments|, k requires 0 <= k < |segments| => Stripped(segments[k], nl, cr))
  }

  lemma OneLine<T>(text: seq<T>, nl: T, cr: T)
    requires text != [] && nl !in text
    ensures StrLines(text, nl, cr) == [text]
  {
    assert FirstEnd(text, nl) == |text|;
    assert text[..|text|] == text && text[|text|..] == [];
    assert Segments(text[|text|..], nl) == [];
    assert Segments(text, nl) == [text];
  }

  function TrimEnd<T(==)>(s: seq<T>, a: T, b: T): seq<T> {
    if s != [] && (s[|s| - 1] == a || s[|s| - 1] == b) then TrimEnd(s[..|s| - 1], a, b) else s
  }

  lemma TrimStripped<T>(segment: seq<T>, nl: T, cr: T)
    ensures TrimEnd(Stripped(segment, nl, cr), cr, nl) == TrimEnd(segment, cr, nl)
  {
  }

  function Flatten<T>(parts: seq<seq<T>>): seq<T> {
    if parts == [] then [] else parts[0] + Flatten(parts[1..])
  }

  lemma {:induction false} SegmentsJoin<T>(text: seq<T>, nl: T)
    ensures Flatten(Segments(text, nl)) == text
    decreases |text|
  {
    if text != [] {
      var n := FirstEnd(text, nl);
      SegmentsJoin(text[n..], nl);
      assert text[..n] + text[n..] == text;
    }
  }

  // ----- Lines of an encoded text -----

  lemma {:induction false} FirstEndSkips(e: seq<byte>, rest: seq<byte>)
    requires forall b | b in e :: b != LF
    ensures FirstEnd(e + rest, LF) == |e| + FirstEnd(rest, LF)
  {
    if e == [] {
      assert e + rest == rest;
    } else {
      assert (e + rest)[1..] == e[1..] + rest && e[0] in e;
      assert forall b | b in e[1..] :: b in e;
      FirstEndSkips(e[1..], rest);
    }
  }

  lemma {:induction false} FirstEndEncoded(text: string)
    ensures FirstEnd(Encode(text), LF) == |Encode(text[..FirstEnd(text, '\n')])|
  {
    if text != "" {
      var c, e := text[0], EncodeChar(text[0]);
      var n := FirstEnd(text, '\n');
      assert text[..n] == [c] + text[1..][..n - 1];
      if c == '\n' {
        assert text[..n] == [c] && Encode([c]) == e + Encode([]) == [LF];
      } else {
        FirstEndEncoded(text[1..]);
        FirstEndSkips(e, Encode(text[1..]));
        assert text[..n][1..] == text[1..][..n - 1];
      }
    }
  }

  lemma SegmentsCut<T>(a: seq<T>, b: seq<T>, nl: T)
    requires a != [] && FirstEnd(a + b, nl) == |a|
    ensures Segments(a + b, nl) == [a] + Segments(b, nl)
  {
    assert (a + b)[..|a|] == a && (a + b)[|a|..] == b;
  }

  lemma StrLinesFirst<T>(first: seq<T>, rest: seq<T>, nl: T, cr: T)
    requires Segments(first + rest, nl) == [first] + Segments(rest, nl)
    ensures StrLines(first + rest, nl, cr) == [Stripped(first, nl, cr)] + StrLines(rest, nl, cr)
  {
  }

  lemma EncodeAllFirst(part: string, parts: seq<string>)
    ensures EncodeAll([part] + parts) == [Encode(part)] + EncodeAll(parts)
  {
  }

  /** Cutting an encoded text into lines gives the encodings of the text's lines. */
  lemma {:induction false} SegmentsEncoded(text: string)
    ensures Segments(Encode(text), LF) == EncodeAll(Segments(text, '\n'))
    decreases |text|
  {
    if text != "" {
      var n := FirstEnd(text, '\n');
      var first, rest := text[..n], text[n..];
      assert text == first + rest;
      EncodeAppends(first, rest);
      FirstEndEncoded(text);
      SegmentsCut(Encode(first), Encode(rest), LF);
      SegmentsEncoded(rest);
      EncodeAllFirst(first, Segments(rest, '\n'));
    }
  }

  // ----- Character counts on bytes -----

  predicate Lead(b: byte) {
    b < 0x80 || b >= 0xC0
  }

  /** The bytes of the first n characters (`chars().take(n)`). */
  function TakeChars(bytes: seq<byte>, n: nat): seq<byte> {
    if bytes == [] || (Lead(bytes[0]) && n == 0) then []
    else [bytes[0]] + TakeChars(bytes[1..], if Lead(bytes[0]) then n - 1 else n)
  }

  function Take<T>(s: seq<T>, n: nat): seq<T> {
    if |s| <= n then s else s[..n]
  }

  lemma {:induction false} TakeCharsKeepsTail(tail: seq<byte>, rest: seq<byte>, n: nat)
    requires forall b | b in tail :: !Lead(b)
    ensures TakeChars(tail + rest, n) == tail + TakeChars(rest, n)
  {
    if tail == [] {
      assert tail + rest == rest;
    } else {
      assert (tail + rest)[1..] == tail[1..] + rest && tail[0] in tail;
      assert forall b | b in tail[1..] :: b in tail;
      TakeCharsKeepsTail(tail[1..], rest, n);
    }
  }

  lemma EncodedCharShape(c: char)
    ensures var e := EncodeChar(c);
            && Lead(e[0]) && (forall b | b in e[1..] :: !Lead(b))
            && (c == '\r' ==> e == [CR]) && (c == '\n' ==> e == [LF])
            && (c != '\r' && c != '\n' ==> e[|e| - 1] != CR && e[|e| - 1] != LF)
  {
  }

  lemma TakeOneChar(e: seq<byte>, rest: seq<byte>, n: nat)
    requires e != [] && n > 0 && Lead(e[0]) && forall b | b in e[1..] :: !Lead(b)
    ensures TakeChars(e + rest, n) == e + TakeChars(rest, n - 1)
  {
    assert (e + rest)[1..] == e[1..] + rest;
    TakeCharsKeepsTail(e[1..], rest, n - 1);
    assert [e[0]] + (e[1..] + TakeChars(rest, n - 1)) == e + TakeChars(rest, n - 1);
  }

  lemma TakeTail<T>(s: seq<T>, n: nat)
    requires s != [] && n > 0
    ensures Take(s, n) != [] && Take(s, n)[0] == s[0] && Take(s, n)[1..] == Take(s[1..], n - 1)
  {
    if n < |s| {
      assert s[..n][1..] == s[1..][..n - 1];
    }
  }

  lemma {:induction false} TakeCharsEncoded(text: string, n: nat)
    ensures TakeChars(Encode(text), n) == Encode(Take(text, n))
  {
    if text != "" {
      EncodedCharShape(text[0]);
      if n > 0 {
        TakeCharsEncoded(text[1..], n - 1);
        TakeOneChar(EncodeChar(text[0]), Encode(text[1..]), n);
        TakeTail(text, n);
      }
    }
  }

  predicate AllAre<T(==)>(s: seq<T>, a: T, b: T) {
    forall k | 0 <= k < |s| :: s[k] == a || s[k] == b
  }

  predicate EndsOtherwise<T(==)>(s: seq<T>, a: T, b: T) {
    s != [] ==> s[|s| - 1] != a && s[|s| - 1] != b
  }

  /** Trimming takes off line ends only, and all of them. */
  lemma {:induction false} TrimEndParts<T>(s: seq<T>, a: T, b: T) returns (ends: seq<T>)
    ensures s == TrimEnd(s, a, b) + ends && AllAre(ends, a, b) && EndsOtherwise(TrimEnd(s, a, b), a, b)
  {
    ends := [];
    if s != [] && (s[|s| - 1] == a || s[|s| - 1] == b) {
      var front, last := s[..|s| - 1], s[|s| - 1];
      ends := TrimEndParts(front, a, b);
      Sequences.Regroup(TrimEnd(front, a, b), ends, [last]);
      assert s == front + [last];
      ends := ends + [last];
    }
  }

  lemma {:induction false} TrimEndOfParts<T>(core: seq<T>, ends: seq<T>, a: T, b: T)
    requires AllAre(ends, a, b) && EndsOtherwise(core, a, b)
    ensures TrimEnd(core + ends, a, b) == core
  {
    var s := core + ends;
    if ends == [] {
      assert s == core;
    } else {
      assert s[|s| - 1] == ends[|ends| - 1];
      assert s[..|s| - 1] == core + ends[..|ends| - 1];
      TrimEndOfParts(core, ends[..|ends| - 1], a, b);
    }
  }

  lemma EndsEncoded(ends: string)
    requires AllAre(ends, '\r', '\n')
    ensures AllAre(Encode(ends), CR, LF)
  {
    AsciiBytes(ends);
  }

  lemma EncodedLastChar(text: string)
    requires text != "" && text[|text| - 1] != '\r' && text[|text| - 1] != '\n'
    ensures var bytes := Encode(text);
            bytes != [] && bytes[|bytes| - 1] != CR && bytes[|bytes| - 1] != LF
  {
    EncodeOneMore(text, |text| - 1);
    assert text[..|text|] == text;
    EncodedCharShape(text[|text| - 1]);
  }

  lemma TrimEndEncoded(text: string)
    ensures TrimEnd(Encode(text), CR, LF) == Encode(TrimEnd(text, '\r', '\n'))
  {
    var core := TrimEnd(text, '\r', '\n');
    var ends := TrimEndParts(text, '\r', '\n');
    EncodeAppends(core, ends);
    EndsEncoded(ends);
    if core != "" {
      EncodedLastChar(core);
    }
    TrimEndOfParts(Encode(core), Encode(ends), CR, LF);
  }
}
