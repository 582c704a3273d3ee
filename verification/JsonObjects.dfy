/**
  Finding JSON objects in the prose of a model's answer.

  The scanner makes one pass over the bytes.  On any text its outputs are disjoint, ordered slices
  that are balanced outside strings; on JSON objects separated by prose they are those objects.
 */
module JsonObjects {
  import opened Wrappers
  import opened Utf8

  const QUOTE: byte := 34
  const BACKSLASH: byte := 92
  const OPEN: byte := 123
  const CLOSE: byte := 125

  /** What the scanner remembers between bytes, besides where the current object began. */
  datatype Machine = Machine(depth: nat, inString: bool, escape: bool)

  const OUTSIDE: Machine := Machine(0, false, false)
  const INSIDE: Machine := Machine(1, false, false)

  function Feed(m: Machine, b: byte): Machine {
    if m.escape then m.(escape := false)
    else if m.inString then
      if b == BACKSLASH then m.(escape := true) else if b == QUOTE then m.(inString := false) else m
    else if b == QUOTE then m.(inString := true)
    else if b == OPEN then m.(depth := m.depth + 1)
    else if b == CLOSE && m.depth > 0 then m.(depth := m.depth - 1)
    else m
  }

  function FeedAll(m: Machine, bytes: seq<byte>): Machine
    decreases bytes
  {
    if bytes == [] then m else FeedAll(Feed(m, bytes[0]), bytes[1..])
  }

  /** The depth never drops below d, neither before nor after any of the bytes. */
  predicate Keeps(m: Machine, bytes: seq<byte>, d: nat)
    decreases bytes
  {
    m.depth >= d && (bytes == [] || Keeps(Feed(m, bytes[0]), bytes[1..], d))
  }

  /** An opening brace, then bytes that stay inside it, then the closing brace that matches it. */
  predicate Balanced(slice: seq<byte>) {
    && |slice| >= 2 && slice[0] == OPEN
    && Keeps(INSIDE, slice[1..|slice| - 1], 1)
    && FeedAll(INSIDE, slice[1..|slice| - 1]) == INSIDE && slice[|slice| - 1] == CLOSE
  }

  /** The objects the scanner outputs for the rest of its input; `current` began the open one. */
  function Objects(m: Machine, current: seq<byte>, rest: seq<byte>): seq<seq<byte>>
    decreases rest
  {
    if rest == [] then []
    else
      var next, seen := Feed(m, rest[0]), current + [rest[0]];
      if m.depth > 0 && next.depth == 0 then [seen] + Objects(next, [], rest[1..])
      else Objects(next, if next.depth > 0 then seen else [], rest[1..])
  }

  datatype Span = Span(start: nat, end: nat)

  predicate Ordered(spans: seq<Span>, bytes: seq<byte>) {
    && (forall k | 0 <= k < |spans| :: spans[k].start < spans[k].end < |bytes|)
    && (forall k, l | 0 <= k < l < |spans| :: spans[k].end < spans[l].start)
  }

  function Slice(bytes: seq<byte>, span: Span): seq<byte>
    requires span.start < span.end < |bytes|
  {
    bytes[span.start..span.end + 1]
  }

  lemma {:induction false} FeedOneMore(m: Machine, bytes: seq<byte>, b: byte, d: nat)
    ensures FeedAll(m, bytes + [b]) == Feed(FeedAll(m, bytes), b)
    ensures Keeps(m, bytes + [b], d) <==> Keeps(m, bytes, d) && Feed(FeedAll(m, bytes), b).depth >= d
    decreases bytes
  {
    if bytes == [] {
      assert bytes + [b] == [b];
      assert [b][1..] == [];
    } else {
      assert (bytes + [b])[1..] == bytes[1..] + [b];
      FeedOneMore(Feed(m, bytes[0]), bytes[1..], b, d);
    }
  }

  /** What is known while scanning: the open object began at `start` and has stayed open. */
  ghost predicate Tracks(bytes: seq<byte>, i: nat, m: Machine, start: Option<nat>) {
    && i <= |bytes|
    && (m.depth > 0 <==> start.Some?)
    && (start.Some? ==>
          && start.value < i && bytes[start.value] == OPEN
          && Keeps(INSIDE, bytes[start.value + 1..i], 1)
          && FeedAll(INSIDE, bytes[start.value + 1..i]) == m)
    && (m.escape ==> m.inString) && m.depth <= i
  }

  function Current(bytes: seq<byte>, i: nat, start: Option<nat>): seq<byte>
    requires i <= |bytes|
  {
    if start.Some? && start.value <= i then bytes[start.value..i] else []
  }

  lemma SliceInside(bytes: seq<byte>, start: nat, end: nat)
    requires start < end < |bytes|
    ensures var slice := bytes[start..end + 1];
            slice[0] == bytes[start] && slice[|slice| - 1] == bytes[end] && slice[1..|slice| - 1] == bytes[start + 1..end]
  {
    var slice := bytes[start..end + 1];
    assert |slice| - 1 == end - start;
    var inner, body := slice[1..end - start], bytes[start + 1..end];
    forall k | 0 <= k < |inner|
      ensures inner[k] == body[k]
    {
      assert slice[k + 1] == bytes[start + k + 1];
    }
    assert inner == body;
  }

  lemma TrackStep(bytes: seq<byte>, i: nat, m: Machine, start: Option<nat>)
    requires Tracks(bytes, i, m, start) && i < |bytes|
    ensures var next := Feed(m, bytes[i]);
            if next.depth == 0 then
              && Tracks(bytes, i + 1, next, None)
              && (m.depth > 0 ==> Balanced(bytes[start.value..i + 1]))
            else if m.depth == 0 then Tracks(bytes, i + 1, next, Some(i))
            else Tracks(bytes, i + 1, next, start)
  {
    var next := Feed(m, bytes[i]);
    if start.Some? {
      var s := start.value;
      var inner := bytes[s + 1..i];
      FeedOneMore(INSIDE, inner, bytes[i], 1);
      assert inner + [bytes[i]] == bytes[s + 1..i + 1];
      if next.depth == 0 {
        SliceInside(bytes, s, i);
      }
    } else if next.depth > 0 {
      assert bytes[i + 1..i + 1] == [];
    }
  }

  lemma ObjectsStep(bytes: seq<byte>, i: nat, m: Machine, start: Option<nat>)
    requires Tracks(bytes, i, m, start) && i < |bytes|
    ensures var next := Feed(m, bytes[i]);
            Objects(m, Current(bytes, i, start), bytes[i..]) ==
            if m.depth > 0 && next.depth == 0 then [bytes[start.value..i + 1]] + Objects(next, [], bytes[i + 1..])
            else if next.depth > 0 && m.depth == 0 then Objects(next, Current(bytes, i + 1, Some(i)), bytes[i + 1..])
            else Objects(next, Current(bytes, i + 1, start), bytes[i + 1..])
  {
    assert bytes[i..][1..] == bytes[i + 1..];
    if start.Some? {
      assert Current(bytes, i, start) + [bytes[i]] == bytes[start.value..i + 1];
    } else {
      assert Current(bytes, i, start) + [bytes[i]] == [bytes[i]] == bytes[i..i + 1];
    }
  }

  /** The texts found so far are exactly the slices at the spans, all before `limit`. */
  ghost predicate Collected(bytes: seq<byte>, out: seq<string>, spans: seq<Span>, limit: nat) {
    && Ordered(spans, bytes) && |out| == |spans|
    && (forall k | 0 <= k < |spans| :: spans[k].end < limit)
    && (forall k | 0 <= k < |out| :: Encode(out[k]) == Slice(bytes, spans[k]) && Balanced(Slice(bytes, spans[k])))
  }

  /** A slice from an opening to a closing brace passes the UTF-8 check. */
  lemma SliceIsText(text: string, start: nat, end: nat)
    requires start <= end < |Encode(text)| && Encode(text)[start] == OPEN && Encode(text)[end] == CLOSE
    ensures var found := Decode(Encode(text)[start..end + 1]);
            found.Some? && Encode(found.value) == Encode(text)[start..end + 1]
  {
    var i, j := SliceAtAscii(text, start, end);
    DecodeEncode(text[i..j]);
  }

  /** The state between two bytes: what was output and what the rest will still output. */
  ghost predicate Scanned(bytes: seq<byte>, i: nat, m: Machine, start: Option<nat>, out: seq<string>, spans: seq<Span>) {
    && Tracks(bytes, i, m, start)
    && Collected(bytes, out, spans, if start.Some? then start.value else i)
    && Objects(OUTSIDE, [], bytes) == EncodeAll(out) + Objects(m, Current(bytes, i, start), bytes[i..])
  }

  /** The texts output so far, and one more. */
  lemma OneMoreOutput(out: seq<string>, found: string, slice: seq<byte>, rest: seq<seq<byte>>)
    requires Encode(found) == slice
    ensures EncodeAll(out) + ([slice] + rest) == EncodeAll(out + [found]) + rest
  {
    assert EncodeAll(out + [found]) == EncodeAll(out) + [slice];
  }

  lemma EmitStep(bytes: seq<byte>, i: nat, m: Machine, start: Option<nat>, out: seq<string>, spans: seq<Span>, found: string)
    requires Scanned(bytes, i, m, start, out, spans) && i < |bytes|
    requires m.depth > 0 && Feed(m, bytes[i]).depth == 0
    requires Encode(found) == bytes[start.value..i + 1]
    ensures Scanned(bytes, i + 1, Feed(m, bytes[i]), None, out + [found], spans + [Span(start.value, i)])
  {
    TrackStep(bytes, i, m, start);
    ObjectsStep(bytes, i, m, start);
    OneMoreOutput(out, found, bytes[start.value..i + 1], Objects(Feed(m, bytes[i]), [], bytes[i + 1..]));
    CollectOne(bytes, out, spans, start.value, i, found);
  }

  lemma OrderedOneMore(bytes: seq<byte>, spans: seq<Span>, start: nat, end: nat)
    requires Ordered(spans, bytes) && start < end < |bytes| && forall k | 0 <= k < |spans| :: spans[k].end < start
    ensures Ordered(spans + [Span(start, end)], bytes)
  {
  }

  lemma CollectOne(bytes: seq<byte>, out: seq<string>, spans: seq<Span>, start: nat, end: nat, found: string)
    requires Collected(bytes, out, spans, start) && start < end < |bytes|
    requires Encode(found) == bytes[start..end + 1] && Balanced(bytes[start..end + 1])
    ensures Collected(bytes, out + [found], spans + [Span(start, end)], end + 1)
  {
    OrderedOneMore(bytes, spans, start, end);
  }

  lemma QuietStep(bytes: seq<byte>, i: nat, m: Machine, start: Option<nat>, out: seq<string>, spans: seq<Span>)
    requires Scanned(bytes, i, m, start, out, spans) && i < |bytes|
    requires m.depth == 0 || Feed(m, bytes[i]).depth > 0
    ensures var next := Feed(m, bytes[i]);
            Scanned(bytes, i + 1, next, if m.depth == 0 && next.depth > 0 then Some(i) else start, out, spans)
  {
    TrackStep(bytes, i, m, start);
    ObjectsStep(bytes, i, m, start);
  }

  predicate Closes(m: Machine, b: byte) {
    m.depth > 0 && Feed(m, b).depth == 0
  }

  /** One byte on: an object that closes is text and is output, one that opens starts here. */
  lemma ScanStep(text: string, i: nat, m: Machine, start: Option<nat>, out: seq<string>, spans: seq<Span>)
    requires i < |Encode(text)| && Scanned(Encode(text), i, m, start, out, spans)
    ensures var bytes := Encode(text);
            var next := Feed(m, bytes[i]);
            if Closes(m, bytes[i]) then
              && start.Some? && start.value < i
              && var slice := Decode(bytes[start.value..i + 1]);
                 slice.Some? && Scanned(bytes, i + 1, next, None, out + [slice.value], spans + [Span(start.value, i)])
            else Scanned(bytes, i + 1, next, if m.depth == 0 && next.depth > 0 then Some(i) else start, out, spans)
  {
    if Closes(m, Encode(text)[i]) {
      SliceIsText(text, start.value, i);
      EmitStep(Encode(text), i, m, start, out, spans, Decode(Encode(text)[start.value..i + 1]).value);
    } else {
      QuietStep(Encode(text), i, m, start, out, spans);
    }
  }

  /** The texts that byte strings encode. */
  function Texts(parts: seq<seq<byte>>): seq<string> {
    seq(|parts|, k requires 0 <= k < |parts| => match Decode(parts[k]) case Some(text) => text case None => "")
  }

  lemma TextsOfEncoded(texts: seq<string>)
    ensures Texts(EncodeAll(texts)) == texts
  {
    forall k | 0 <= k < |texts|
      ensures Texts(EncodeAll(texts))[k] == texts[k]
    {
      DecodeEncode(texts[k]);
    }
  }

  /** The texts of the objects in a text. */
  function Candidates(text: string): seq<string> {
    Texts(Objects(OUTSIDE, [], Encode(text)))
  }

  lemma OutputsAreCandidates(text: string, out: seq<string>)
    requires EncodeAll(out) == Objects(OUTSIDE, [], Encode(text))
    ensures out == Candidates(text)
  {
    TextsOfEncoded(out);
  }

  // ----- The scanner, whose depth is an i32 -----

  const I32_LIMIT: int := 0x8000_0000

  function Wrap32(x: int): int {
    (x + I32_LIMIT) % (2 * I32_LIMIT) - I32_LIMIT
  }

  /** What the scanner keeps between two bytes. */
  datatype Scan = Scan(depth: int, inString: bool, escape: bool, start: Option<nat>, out: seq<string>)

  const SCAN_START: Scan := Scan(0, false, false, None, [])

  /** An open object starts before the i-th byte. */
  predicate StartsBefore(s: Scan, i: nat) {
    s.start.Some? ==> s.start.value < i
  }

  /** What the i-th byte makes of it; a slice that is no text would be left out. */
  function ByteScanned(bytes: seq<byte>, i: nat, s: Scan): (t: Scan)
    requires i < |bytes| && StartsBefore(s, i)
    ensures StartsBefore(t, i + 1)
  {
    var b := bytes[i];
    if s.escape then s.(escape := false)
    else if s.inString then
      if b == BACKSLASH then s.(escape := true) else if b == QUOTE then s.(inString := false) else s
    else if b == QUOTE then s.(inString := true)
    else if b == OPEN then s.(depth := Wrap32(s.depth + 1), start := if s.depth == 0 then Some(i) else s.start)
    else if b == CLOSE && s.depth > 0 then
      if s.depth == 1 && s.start.Some? then
        var slice := Decode(bytes[s.start.value..i + 1]);
        s.(depth := 0, start := None, out := if slice.Some? then s.out + [slice.value] else s.out)
      else s.(depth := s.depth - 1)
    else s
  }

  function ScanOf(bytes: seq<byte>, n: nat): (s: Scan)
    requires n <= |bytes|
    ensures StartsBefore(s, n)
  {
    if n == 0 then SCAN_START else ByteScanned(bytes, n - 1, ScanOf(bytes, n - 1))
  }

  /** What the scanner outputs for any text. */
  function Outputs(text: string): seq<string> {
    ScanOf(Encode(text), |Encode(text)|).out
  }

  method ScanByte(bytes: seq<byte>, i: nat, s: Scan) returns (t: Scan)
    requires i < |bytes| && StartsBefore(s, i)
    ensures t == ByteScanned(bytes, i, s)
  {
    var b := bytes[i];
    var Scan(depth, inString, escape, start, out) := s;
    if escape {
      escape := false;
    } else if inString {
      if b == BACKSLASH {
        escape := true;
      } else if b == QUOTE {
        inString := false;
      }
    } else if b == QUOTE {
      inString := true;
    } else if b == OPEN {
      if depth == 0 {
        start := Some(i);
      }
      depth := Wrap32(depth + 1);
    } else if b == CLOSE && depth > 0 {
      depth := depth - 1;
      if depth == 0 && start.Some? {
        var slice := Decode(bytes[start.value..i + 1]);
        start := None;
        if slice.Some? {
          out := out + [slice.value];
        }
      }
    }
    t := Scan(depth, inString, escape, start, out);
  }

  // ----- Where the depth does not wrap -----

  /** Nowhere are 2^31 braces open. */
  ghost predicate Shallow(bytes: seq<byte>, n: nat)
    requires n <= |bytes|
  {
    forall i | 0 <= i <= n :: FeedAll(OUTSIDE, bytes[..i]).depth < I32_LIMIT
  }

  lemma {:induction false} DepthGrowsByOne(m: Machine, bytes: seq<byte>)
    ensures FeedAll(m, bytes).depth <= m.depth + |bytes|
    decreases bytes
  {
    if bytes != [] {
      DepthGrowsByOne(Feed(m, bytes[0]), bytes[1..]);
    }
  }

  /** Every text of less than 2^31 bytes is shallow. */
  lemma ShortIsShallow(bytes: seq<byte>)
    requires |bytes| < I32_LIMIT
    ensures Shallow(bytes, |bytes|)
  {
    forall i | 0 <= i <= |bytes|
      ensures FeedAll(OUTSIDE, bytes[..i]).depth < I32_LIMIT
    {
      DepthGrowsByOne(OUTSIDE, bytes[..i]);
    }
  }

  predicate Agrees(s: Scan, m: Machine) {
    s.depth == m.depth && s.inString == m.inString && s.escape == m.escape
  }

  lemma FedNext(bytes: seq<byte>, i: nat)
    requires i < |bytes|
    ensures FeedAll(OUTSIDE, bytes[..i + 1]) == Feed(FeedAll(OUTSIDE, bytes[..i]), bytes[i])
  {
    assert bytes[..i + 1] == bytes[..i] + [bytes[i]];
    FeedOneMore(OUTSIDE, bytes[..i], bytes[i], 0);
  }

  ghost function SpansAfter(bytes: seq<byte>, i: nat, m: Machine, s: Scan, spans: seq<Span>): seq<Span>
    requires i < |bytes|
  {
    if Closes(m, bytes[i]) && s.start.Some? then spans + [Span(s.start.value, i)] else spans
  }

  /** One byte keeps what is known, unless the depth wraps. */
  lemma ByteKeepsScanned(text: string, i: nat, m: Machine, s: Scan, spans: seq<Span>)
    requires i < |Encode(text)| && StartsBefore(s, i) && Agrees(s, m) && Feed(m, Encode(text)[i]).depth < I32_LIMIT
    requires Scanned(Encode(text), i, m, s.start, s.out, spans)
    ensures var bytes := Encode(text);
            var t, next := ByteScanned(bytes, i, s), Feed(m, bytes[i]);
            Agrees(t, next) && Scanned(bytes, i + 1, next, t.start, t.out, SpansAfter(bytes, i, m, s, spans))
  {
    ScanStep(text, i, m, s.start, s.out, spans);
    ByteFollows(Encode(text), i, m, s);
  }

  lemma ByteFollows(bytes: seq<byte>, i: nat, m: Machine, s: Scan)
    requires i < |bytes| && StartsBefore(s, i) && Agrees(s, m) && Feed(m, bytes[i]).depth < I32_LIMIT
    requires m.depth > 0 <==> s.start.Some?
    ensures var t, next := ByteScanned(bytes, i, s), Feed(m, bytes[i]);
            && Agrees(t, next)
            && if Closes(m, bytes[i]) then
                 && t.start == None
                 && var slice := Decode(bytes[s.start.value..i + 1]);
                    t.out == if slice.Some? then s.out + [slice.value] else s.out
               else t.start == (if m.depth == 0 && next.depth > 0 then Some(i) else s.start) && t.out == s.out
  {
  }

  /** All that is known after some bytes, if they are shallow. */
  ghost predicate Known(text: string, i: nat, s: Scan, spans: seq<Span>)
    requires i <= |Encode(text)|
  {
    Shallow(Encode(text), i) ==>
      && Agrees(s, FeedAll(OUTSIDE, Encode(text)[..i]))
      && Scanned(Encode(text), i, FeedAll(OUTSIDE, Encode(text)[..i]), s.start, s.out, spans)
  }

  lemma KnownNext(text: string, i: nat, s: Scan, spans: seq<Span>)
    requires i < |Encode(text)| && StartsBefore(s, i) && Known(text, i, s, spans)
    ensures var bytes := Encode(text);
            Known(text, i + 1, ByteScanned(bytes, i, s), SpansAfter(bytes, i, FeedAll(OUTSIDE, bytes[..i]), s, spans))
  {
    var bytes := Encode(text);
    if Shallow(bytes, i + 1) {
      assert Shallow(bytes, i);
      FedNext(bytes, i);
      assert FeedAll(OUTSIDE, bytes[..i + 1]).depth < I32_LIMIT;
      ByteKeepsScanned(text, i, FeedAll(OUTSIDE, bytes[..i]), s, spans);
    }
  }

  lemma KnownFirst(text: string)
    ensures Known(text, 0, SCAN_START, [])
  {
    assert Encode(text)[..0] == [];
    ScanBegins(Encode(text));
  }

  lemma KnownLast(text: string, s: Scan, spans: seq<Span>)
    requires Known(text, |Encode(text)|, s, spans) && Shallow(Encode(text), |Encode(text)|)
    ensures Collected(Encode(text), s.out, spans, |Encode(text)|)
    ensures EncodeAll(s.out) == Objects(OUTSIDE, [], Encode(text)) && s.out == Candidates(text)
  {
    var bytes := Encode(text);
    ScanEnds(bytes, FeedAll(OUTSIDE, bytes[..|bytes|]), s.start, s.out, spans);
    OutputsAreCandidates(text, s.out);
  }

  lemma {:induction false} KnownAfter(text: string, n: nat) returns (spans: seq<Span>)
    requires n <= |Encode(text)|
    ensures Known(text, n, ScanOf(Encode(text), n), spans)
  {
    if n == 0 {
      KnownFirst(text);
      spans := [];
    } else {
      spans := KnownAfter(text, n - 1);
      KnownNext(text, n - 1, ScanOf(Encode(text), n - 1), spans);
      spans := SpansAfter(Encode(text), n - 1, FeedAll(OUTSIDE, Encode(text)[..n - 1]), ScanOf(Encode(text), n - 1), spans);
    }
  }

  /** What the scanner outputs for a shallow text are its objects. */
  lemma OutputsOfShallow(text: string)
    requires Shallow(Encode(text), |Encode(text)|)
    ensures Outputs(text) == Candidates(text) && EncodeAll(Outputs(text)) == Objects(OUTSIDE, [], Encode(text))
  {
    var spans := KnownAfter(text, |Encode(text)|);
    KnownLast(text, ScanOf(Encode(text), |Encode(text)|), spans);
  }

  /**
    The one-pass scanner.  `spans` locates its outputs: unless 2^31 braces are open somewhere, they
    are ordered, disjoint and balanced, they are all that the text holds, and since an object begins
    and ends at an ASCII byte none is lost to the UTF-8 check.
   */
  method ScanJsonObjects(text: string) returns (out: seq<string>, ghost spans: seq<Span>)
    ensures out == Outputs(text)
    ensures Shallow(Encode(text), |Encode(text)|) ==> Collected(Encode(text), out, spans, |Encode(text)|)
    ensures Shallow(Encode(text), |Encode(text)|) ==>
              EncodeAll(out) == Objects(OUTSIDE, [], Encode(text)) && out == Candidates(text)
  {
    var bytes := Encode(text);
    var s := SCAN_START;
    spans := [];
    KnownFirst(text);
    for i := 0 to |bytes|
      invariant s == ScanOf(bytes, i) && Known(text, i, s, spans)
    {
      KnownNext(text, i, s, spans);
      spans := SpansAfter(bytes, i, FeedAll(OUTSIDE, bytes[..i]), s, spans);
      s := ScanByte(bytes, i, s);
    }
    out := s.out;
    if Shallow(bytes, |bytes|) {
      KnownLast(text, s, spans);
    }
  }

  lemma ScanEnds(bytes: seq<byte>, m: Machine, start: Option<nat>, out: seq<string>, spans: seq<Span>)
    requires Scanned(bytes, |bytes|, m, start, out, spans)
    ensures Collected(bytes, out, spans, |bytes|) && EncodeAll(out) == Objects(OUTSIDE, [], bytes)
  {
    assert bytes[|bytes|..] == [];
  }

  lemma ScanBegins(bytes: seq<byte>)
    ensures Scanned(bytes, 0, OUTSIDE, None, [], [])
  {
    assert bytes[0..] == bytes;
    assert EncodeAll([]) == [];
  }
}
