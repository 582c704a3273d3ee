/**
  JSON texts (RFC 8259, sections 2 to 7) as concrete syntax with arbitrary white space, and the
  theorem that the scanner extracts exactly the objects of an answer from its prose.
 */
module JsonText {
  import opened Wrappers
  import opened JsonObjects
  import Utf8

  type White = seq<byte>

  datatype Character = Plain(b: byte) | Escape(b: byte) | Unicode(hex: seq<byte>)
  datatype Value =
    | Literal(text: seq<byte>)
    | Text(chars: seq<Character>)
    | Array(items: seq<Item>, blank: White)
    | Object(members: seq<Member>, blank: White)
  datatype Item = Item(before: White, value: Value, after: White)
  datatype Member = Member(before: White, name: seq<Character>, middle: White, item: Item)

  predicate IsWhite(w: White) {
    forall k | 0 <= k < |w| :: w[k] in {9, 10, 13, 32}
  }

  predicate HexDigit(b: byte) {
    48 <= b <= 57 || 65 <= b <= 70 || 97 <= b <= 102
  }

  predicate IsCharacter(c: Character) {
    match c
    case Plain(b) => b >= 32 && b != QUOTE && b != BACKSLASH
    case Escape(b) => b in {34, 92, 47, 98, 102, 110, 114, 116}
    case Unicode(hex) => |hex| == 4 && forall k | 0 <= k < 4 :: HexDigit(hex[k])
  }

  predicate IsString(chars: seq<Character>) {
    forall k | 0 <= k < |chars| :: IsCharacter(chars[k])
  }

  /** Numbers and the three names; only the bytes they are made of matter to the scanner. */
  predicate IsLiteral(text: seq<byte>) {
    text != [] && forall k | 0 <= k < |text| ::
      48 <= text[k] <= 57 || text[k] in {43, 45, 46, 69} || 97 <= text[k] <= 122
  }

  predicate IsValue(v: Value)
    decreases v, 1
  {
    match v
    case Literal(text) => IsLiteral(text)
    case Text(chars) => IsString(chars)
    case Array(items, blank) => IsWhite(blank) && IsItems(items)
    case Object(members, blank) => IsWhite(blank) && IsMembers(members)
  }

  predicate IsItem(i: Item)
    decreases i, 2
  {
    IsWhite(i.before) && IsValue(i.value) && IsWhite(i.after)
  }

  predicate IsItems(items: seq<Item>)
    decreases items, 0
  {
    items == [] || (IsItem(items[0]) && IsItems(items[1..]))
  }

  predicate IsMembers(members: seq<Member>)
    decreases members, 0
  {
    members == [] || (IsWhite(members[0].before) && IsString(members[0].name) && IsWhite(members[0].middle)
                      && IsItem(members[0].item) && IsMembers(members[1..]))
  }

  // ----- Printing -----

  function PrintChar(c: Character): seq<byte> {
    match c
    case Plain(b) => [b]
    case Escape(b) => [BACKSLASH, b]
    case Unicode(hex) => [BACKSLASH, 117] + hex
  }

  function PrintChars(chars: seq<Character>): seq<byte> {
    if chars == [] then [] else PrintChar(chars[0]) + PrintChars(chars[1..])
  }

  function PrintString(chars: seq<Character>): seq<byte> {
    [QUOTE] + PrintChars(chars) + [QUOTE]
  }

  function Print(v: Value): seq<byte>
    decreases v, 1
  {
    match v
    case Literal(text) => text
    case Text(chars) => PrintString(chars)
    case Array(items, blank) => [91] + (blank + PrintItems(items)) + [93]
    case Object(members, blank) => [OPEN] + (blank + PrintMembers(members)) + [CLOSE]
  }

  function PrintItem(i: Item): seq<byte>
    decreases i, 2
  {
    i.before + Print(i.value) + i.after
  }

  function PrintItems(items: seq<Item>): seq<byte>
    decreases items, 0
  {
    if items == [] then []
    else PrintItem(items[0]) + (if |items| == 1 then [] else [44]) + PrintItems(items[1..])
  }

  function PrintMembers(members: seq<Member>): seq<byte>
    decreases members, 0
  {
    if members == [] then []
    else
      var m := members[0];
      m.before + PrintString(m.name) + m.middle + [58] + PrintItem(m.item)
      + (if |members| == 1 then [] else [44]) + PrintMembers(members[1..])
  }

  // ----- Inside an object the scanner comes back to where it was after every value -----

  /** Outside strings, the bytes leave the machine as it was and never below its depth. */
  ghost predicate Returns(bytes: seq<byte>, depth: nat) {
    var m := Machine(depth, false, false);
    FeedAll(m, bytes) == m && Keeps(m, bytes, depth)
  }

  lemma {:induction false} FeedAppends(m: Machine, a: seq<byte>, b: seq<byte>, d: nat)
    ensures FeedAll(m, a + b) == FeedAll(FeedAll(m, a), b)
    ensures Keeps(m, a + b, d) <==> Keeps(m, a, d) && Keeps(FeedAll(m, a), b, d)
    decreases a
  {
    if a == [] {
      assert a + b == b;
    } else {
      assert (a + b)[1..] == a[1..] + b;
      FeedAppends(Feed(m, a[0]), a[1..], b, d);
    }
  }

  lemma {:induction false} KeepsLess(m: Machine, bytes: seq<byte>, d: nat, e: nat)
    requires Keeps(m, bytes, d) && e <= d
    ensures Keeps(m, bytes, e)
    decreases bytes
  {
    if bytes != [] {
      KeepsLess(Feed(m, bytes[0]), bytes[1..], d, e);
    }
  }

  lemma ReturnsAppend(a: seq<byte>, b: seq<byte>, depth: nat)
    requires Returns(a, depth) && Returns(b, depth)
    ensures Returns(a + b, depth)
  {
    FeedAppends(Machine(depth, false, false), a, b, depth);
  }

  predicate Neutral(bytes: seq<byte>) {
    forall k | 0 <= k < |bytes| :: bytes[k] != QUOTE && bytes[k] != OPEN && bytes[k] != CLOSE
  }

  lemma {:induction false} NeutralReturns(bytes: seq<byte>, depth: nat)
    requires Neutral(bytes)
    ensures Returns(bytes, depth)
    decreases bytes
  {
    if bytes != [] {
      assert bytes[0] != QUOTE;
      assert forall k | 0 <= k < |bytes[1..]| :: bytes[1..][k] == bytes[k + 1];
      NeutralReturns(bytes[1..], depth);
    }
  }

  lemma {:induction false} CharsStayInString(chars: seq<Character>, depth: nat)
    requires IsString(chars)
    ensures var m := Machine(depth, true, false);
            FeedAll(m, PrintChars(chars)) == m && Keeps(m, PrintChars(chars), depth)
  {
    if chars != [] {
      var m, c := Machine(depth, true, false), chars[0];
      var bytes := PrintChar(c);
      CharStaysInString(c, depth);
      CharsStayInString(chars[1..], depth);
      FeedAppends(m, bytes, PrintChars(chars[1..]), depth);
    }
  }

  lemma CharStaysInString(c: Character, depth: nat)
    requires IsCharacter(c)
    ensures var m := Machine(depth, true, false);
            FeedAll(m, PrintChar(c)) == m && Keeps(m, PrintChar(c), depth)
  {
    var m := Machine(depth, true, false);
    var bytes := PrintChar(c);
    match c
    case Plain(b) =>
      assert bytes[1..] == [];
    case Escape(b) =>
      assert bytes[1..] == [b] && [b][1..] == [];
      var escaped := Feed(m, BACKSLASH);
      assert FeedAll(escaped, [b]) == FeedAll(Feed(escaped, b), []) == m;
    case Unicode(hex) =>
      assert bytes[1..] == [117] + hex && ([117] + hex)[1..] == hex;
      PlainInString(hex, depth);
  }

  lemma {:induction false} PlainInString(bytes: seq<byte>, depth: nat)
    requires forall k | 0 <= k < |bytes| :: bytes[k] != QUOTE && bytes[k] != BACKSLASH
    ensures var m := Machine(depth, true, false);
            FeedAll(m, bytes) == m && Keeps(m, bytes, depth)
    decreases bytes
  {
    if bytes != [] {
      assert bytes[0] != QUOTE;
      assert forall k | 0 <= k < |bytes[1..]| :: bytes[1..][k] == bytes[k + 1];
      PlainInString(bytes[1..], depth);
    }
  }

  lemma StringReturns(chars: seq<Character>, depth: nat)
    requires IsString(chars)
    ensures Returns(PrintString(chars), depth)
  {
    var m, inside := Machine(depth, false, false), Machine(depth, true, false);
    var body := PrintChars(chars);
    CharsStayInString(chars, depth);
    FeedOneMore(inside, body, QUOTE, depth);
    assert PrintString(chars)[1..] == body + [QUOTE];
  }

  lemma WhiteReturns(w: White, depth: nat)
    requires IsWhite(w)
    ensures Returns(w, depth)
  {
    forall k | 0 <= k < |w|
      ensures w[k] != QUOTE && w[k] != OPEN && w[k] != CLOSE
    {
      assert w[k] in {9, 10, 13, 32};
    }
    NeutralReturns(w, depth);
  }

  lemma BracesReturn(inner: seq<byte>, depth: nat)
    requires Returns(inner, depth + 1)
    ensures Returns([OPEN] + inner + [CLOSE], depth)
  {
    var m, inside := Machine(depth, false, false), Machine(depth + 1, false, false);
    KeepsLess(inside, inner, depth + 1, depth);
    FeedOneMore(inside, inner, CLOSE, depth);
    assert ([OPEN] + inner + [CLOSE])[1..] == inner + [CLOSE];
  }

  lemma {:induction false} ValueReturns(v: Value, depth: nat)
    requires IsValue(v)
    ensures Returns(Print(v), depth)
    decreases v, 1
  {
    match v
    case Literal(text) =>
      NeutralReturns(text, depth);
    case Text(chars) =>
      StringReturns(chars, depth);
    case Array(items, blank) =>
      WhiteReturns(blank, depth);
      ItemsReturn(items, depth);
      ReturnsAppend(blank, PrintItems(items), depth);
      NeutralReturns([91], depth);
      NeutralReturns([93], depth);
      ReturnsAppend([91], blank + PrintItems(items), depth);
      ReturnsAppend([91] + (blank + PrintItems(items)), [93], depth);
    case Object(members, blank) =>
      InteriorReturns(members, blank, depth);
      BracesReturn(blank + PrintMembers(members), depth);
  }

  lemma {:induction false} InteriorReturns(members: seq<Member>, blank: White, depth: nat)
    requires IsWhite(blank) && IsMembers(members)
    ensures Returns(blank + PrintMembers(members), depth + 1)
    decreases members, 1
  {
    WhiteReturns(blank, depth + 1);
    MembersReturn(members, depth + 1);
    ReturnsAppend(blank, PrintMembers(members), depth + 1);
  }

  lemma {:induction false} ItemReturns(i: Item, depth: nat)
    requires IsItem(i)
    ensures Returns(PrintItem(i), depth)
    decreases i, 2
  {
    WhiteReturns(i.before, depth);
    ValueReturns(i.value, depth);
    WhiteReturns(i.after, depth);
    ReturnsAppend(i.before, Print(i.value), depth);
    ReturnsAppend(i.before + Print(i.value), i.after, depth);
  }

  lemma {:induction false} ItemsReturn(items: seq<Item>, depth: nat)
    requires IsItems(items)
    ensures Returns(PrintItems(items), depth)
    decreases items, 0
  {
    if items != [] {
      ItemReturns(items[0], depth);
      ItemsReturn(items[1..], depth);
      var comma := if |items| == 1 then [] else [44];
      NeutralReturns(comma, depth);
      ReturnsAppend(PrintItem(items[0]), comma, depth);
      ReturnsAppend(PrintItem(items[0]) + comma, PrintItems(items[1..]), depth);
    }
  }

  lemma {:induction false} MembersReturn(members: seq<Member>, depth: nat)
    requires IsMembers(members)
    ensures Returns(PrintMembers(members), depth)
    decreases members, 0
  {
    if members != [] {
      var m := members[0];
      var comma := if |members| == 1 then [] else [44];
      WhiteReturns(m.before, depth);
      StringReturns(m.name, depth);
      WhiteReturns(m.middle, depth);
      NeutralReturns([58], depth);
      ItemReturns(m.item, depth);
      NeutralReturns(comma, depth);
      MembersReturn(members[1..], depth);
      var a := m.before + PrintString(m.name);
      var b := a + m.middle + [58];
      ReturnsAppend(m.before, PrintString(m.name), depth);
      ReturnsAppend(a, m.middle, depth);
      ReturnsAppend(a + m.middle, [58], depth);
      ReturnsAppend(b, PrintItem(m.item), depth);
      ReturnsAppend(b + PrintItem(m.item), comma, depth);
      ReturnsAppend(b + PrintItem(m.item) + comma, PrintMembers(members[1..]), depth);
    }
  }

  // ----- Objects in prose -----

  /** Text a model may write around its objects: no quotation mark and no opening brace. */
  predicate IsProse(p: seq<byte>) {
    forall k | 0 <= k < |p| :: p[k] != QUOTE && p[k] != OPEN
  }

  /** Text around which objects are found: the scanner outputs nothing and is outside again behind it. */
  predicate IsQuiet(p: seq<byte>) {
    Objects(OUTSIDE, [], p) == [] && FeedAll(OUTSIDE, p) == OUTSIDE
  }

  datatype Block = Block(prose: seq<byte>, json: Value)

  predicate IsBlock(b: Block) {
    IsQuiet(b.prose) && b.json.Object? && IsValue(b.json)
  }

  function Answer(blocks: seq<Block>, tail: seq<byte>): seq<byte> {
    if blocks == [] then tail
    else blocks[0].prose + (Print(blocks[0].json) + Answer(blocks[1..], tail))
  }

  function PrintedObjects(blocks: seq<Block>): seq<seq<byte>> {
    if blocks == [] then [] else [Print(blocks[0].json)] + PrintedObjects(blocks[1..])
  }

  /** What an open object has gathered after some bytes. */
  function CurrentAfter(m: Machine, current: seq<byte>, bytes: seq<byte>): seq<byte>
    decreases bytes
  {
    if bytes == [] then current
    else
      var next := Feed(m, bytes[0]);
      CurrentAfter(next, if next.depth > 0 then current + [bytes[0]] else [], bytes[1..])
  }

  lemma {:induction false} ObjectsAppend(m: Machine, current: seq<byte>, a: seq<byte>, b: seq<byte>)
    ensures Objects(m, current, a + b) == Objects(m, current, a) + Objects(FeedAll(m, a), CurrentAfter(m, current, a), b)
    decreases a
  {
    if a == [] {
      assert a + b == b;
    } else {
      var next := Feed(m, a[0]);
      assert (a + b)[0] == a[0] && (a + b)[1..] == a[1..] + b;
      ObjectsAppend(next, if next.depth > 0 then current + [a[0]] else [], a[1..], b);
    }
  }

  lemma {:induction false} NothingGathered(m: Machine, current: seq<byte>, bytes: seq<byte>)
    requires FeedAll(m, bytes).depth == 0 && (bytes == [] ==> current == [])
    ensures CurrentAfter(m, current, bytes) == []
    decreases bytes
  {
    if bytes != [] {
      var next := Feed(m, bytes[0]);
      if bytes[1..] == [] {
        assert FeedAll(next, []) == next;
      } else {
        NothingGathered(next, if next.depth > 0 then current + [bytes[0]] else [], bytes[1..]);
      }
    }
  }

  lemma QuietIsIgnored(p: seq<byte>, rest: seq<byte>)
    requires IsQuiet(p)
    ensures Objects(OUTSIDE, [], p + rest) == Objects(OUTSIDE, [], rest)
  {
    ObjectsAppend(OUTSIDE, [], p, rest);
    NothingGathered(OUTSIDE, [], p);
  }

  lemma {:induction false} ProseIsQuiet(p: seq<byte>)
    requires IsProse(p)
    ensures IsQuiet(p)
  {
    if p != [] {
      assert p[0] != QUOTE && p[0] != OPEN;
      assert forall k | 0 <= k < |p[1..]| :: p[1..][k] == p[k + 1];
      ProseIsQuiet(p[1..]);
    }
  }

  lemma {:induction false} EscapesAreInStrings(m: Machine, bytes: seq<byte>)
    requires m.escape ==> m.inString
    ensures FeedAll(m, bytes).escape ==> FeedAll(m, bytes).inString
    decreases bytes
  {
    if bytes != [] {
      EscapesAreInStrings(Feed(m, bytes[0]), bytes[1..]);
    }
  }

  lemma ObjectsOfByte(m: Machine, current: seq<byte>, b: byte)
    ensures Objects(m, current, [b]) == if m.depth > 0 && Feed(m, b).depth == 0 then [current + [b]] else []
  {
    assert [b][1..] == [];
  }

  /** Only from outside does the scanner find an empty object in two braces. */
  lemma EmptyObjectIsMissed(m: Machine, current: seq<byte>)
    requires m != OUTSIDE && (m.escape ==> m.inString)
    ensures Objects(m, current, [OPEN, CLOSE]) == []
  {
    var next := Feed(m, OPEN);
    assert [OPEN, CLOSE][1..] == [CLOSE];
    ObjectsOfByte(next, if next.depth > 0 then current + [OPEN] else [], CLOSE);
  }

  /** `{}` and `{ }`. */
  lemma TwoObjects() returns (a: Value, b: Value)
    ensures a.Object? && IsValue(a) && Print(a) == [OPEN, CLOSE]
    ensures b.Object? && IsValue(b) && Print(b) == [OPEN, 32, CLOSE]
  {
    a, b := Object([], []), Object([], [32]);
  }

  /** The object is found behind the text, and nothing else. */
  predicate FoundBehind(p: seq<byte>, json: Value) {
    Objects(OUTSIDE, [], p + Print(json)) == [Print(json)]
  }

  /** Every object is found behind a text, and nothing else, exactly if the text is quiet. */
  lemma HarmlessIffQuiet(p: seq<byte>)
    ensures IsQuiet(p) <==> forall json: Value | json.Object? && IsValue(json) :: FoundBehind(p, json)
  {
    if IsQuiet(p) {
      forall json: Value | json.Object? && IsValue(json)
        ensures FoundBehind(p, json)
      {
        QuietIsIgnored(p, Print(json));
        ObjectIsFound(json, []);
        assert Print(json) + [] == Print(json);
      }
    } else {
      var a, b := TwoObjects();
      if FoundBehind(p, a) && FoundBehind(p, b) {
        BothFoundIsQuiet(p);
      }
    }
  }

  lemma BothFoundIsQuiet(p: seq<byte>)
    requires Objects(OUTSIDE, [], p + [OPEN, CLOSE]) == [[OPEN, CLOSE]]
    requires Objects(OUTSIDE, [], p + [OPEN, 32, CLOSE]) == [[OPEN, 32, CLOSE]]
    ensures IsQuiet(p)
  {
    var found, m, current := Objects(OUTSIDE, [], p), FeedAll(OUTSIDE, p), CurrentAfter(OUTSIDE, [], p);
    ObjectsAppend(OUTSIDE, [], p, [OPEN, CLOSE]);
    ObjectsAppend(OUTSIDE, [], p, [OPEN, 32, CLOSE]);
    OnlyOne(found, Objects(m, current, [OPEN, CLOSE]), Objects(m, current, [OPEN, 32, CLOSE]), [OPEN, CLOSE], [OPEN, 32, CLOSE]);
    EscapesAreInStrings(OUTSIDE, p);
    if m != OUTSIDE {
      EmptyObjectIsMissed(m, current);
    }
  }

  lemma OnlyOne<T>(found: seq<T>, x: seq<T>, y: seq<T>, a: T, b: T)
    requires found + x == [a] && found + y == [b] && a != b
    ensures found == []
  {
  }

  /** A lone quote hides the object behind it. */
  lemma LoneQuoteHides()
    ensures !IsQuiet([QUOTE]) && Objects(OUTSIDE, [], [QUOTE] + [OPEN, CLOSE]) == []
  {
    var open := Feed(OUTSIDE, QUOTE);
    assert [QUOTE][1..] == [];
    assert FeedAll(OUTSIDE, [QUOTE]) == FeedAll(open, []) == open;
    ObjectsAppend(OUTSIDE, [], [QUOTE], [OPEN, CLOSE]);
    ObjectsOfByte(OUTSIDE, [], QUOTE);
    EmptyObjectIsMissed(open, CurrentAfter(OUTSIDE, [], [QUOTE]));
  }

  lemma {:induction false} InteriorIsCollected(m: Machine, current: seq<byte>, inner: seq<byte>, rest: seq<byte>)
    requires Keeps(m, inner, 1)
    ensures Objects(m, current, inner + rest) == Objects(FeedAll(m, inner), current + inner, rest)
    decreases inner
  {
    if inner == [] {
      assert inner + rest == rest && current + inner == current;
    } else {
      assert (inner + rest)[1..] == inner[1..] + rest;
      var next := Feed(m, inner[0]);
      assert Keeps(next, inner[1..], 1);
      InteriorIsCollected(next, current + [inner[0]], inner[1..], rest);
      assert current + inner == (current + [inner[0]]) + inner[1..];
    }
  }

  lemma ObjectIsFound(json: Value, rest: seq<byte>)
    requires json.Object? && IsValue(json)
    ensures Objects(OUTSIDE, [], Print(json) + rest) == [Print(json)] + Objects(OUTSIDE, [], rest)
  {
    var inner := json.blank + PrintMembers(json.members);
    InteriorReturns(json.members, json.blank, 0);
    var whole := Print(json) + rest;
    assert whole[1..] == inner + ([CLOSE] + rest);
    assert [] + [OPEN] == [OPEN];
    InteriorIsCollected(INSIDE, [OPEN], inner, [CLOSE] + rest);
    assert ([CLOSE] + rest)[1..] == rest;
    assert ([OPEN] + inner) + [CLOSE] == Print(json);
  }

  /**
    On JSON objects separated by quiet texts, such as prose without quotes and opening braces, the
    scanner outputs exactly their texts, in order, if it outputs nothing for what comes last.
   */
  lemma {:induction false} AnswerYieldsItsObjects(blocks: seq<Block>, tail: seq<byte>)
    requires Objects(OUTSIDE, [], tail) == [] && forall k | 0 <= k < |blocks| :: IsBlock(blocks[k])
    ensures Objects(OUTSIDE, [], Answer(blocks, tail)) == PrintedObjects(blocks)
  {
    if blocks != [] {
      var b, rest := blocks[0], Answer(blocks[1..], tail);
      assert IsBlock(b);
      assert forall k | 0 <= k < |blocks[1..]| :: blocks[1..][k] == blocks[k + 1];
      QuietIsIgnored(b.prose, Print(b.json) + rest);
      ObjectIsFound(b.json, rest);
      AnswerYieldsItsObjects(blocks[1..], tail);
    }
  }

  /** So for the scanner with its i32, unless 2^31 braces are open somewhere. */
  lemma ShallowAnswerYieldsItsObjects(text: string, blocks: seq<Block>, tail: seq<byte>)
    requires Utf8.Encode(text) == Answer(blocks, tail) && Shallow(Answer(blocks, tail), |Answer(blocks, tail)|)
    requires Objects(OUTSIDE, [], tail) == [] && forall k | 0 <= k < |blocks| :: IsBlock(blocks[k])
    ensures Utf8.EncodeAll(Outputs(text)) == PrintedObjects(blocks)
  {
    OutputsOfShallow(text);
    AnswerYieldsItsObjects(blocks, tail);
  }

  // ----- A text that is too deep -----

  function Braces(n: nat, brace: char): string {
    seq(n, _ => brace)
  }

  /** n opening and n closing braces. */
  function Nest(n: nat): seq<byte> {
    if n == 0 then [] else [OPEN] + Nest(n - 1) + [CLOSE]
  }

  lemma {:induction false} NestReturns(n: nat, depth: nat)
    ensures Returns(Nest(n), depth)
  {
    if n > 0 {
      NestReturns(n - 1, depth + 1);
      BracesReturn(Nest(n - 1), depth);
    }
  }

  lemma {:induction false} NestBytes(n: nat)
    ensures |Nest(n)| == 2 * n
    ensures forall k | 0 <= k < 2 * n :: Nest(n)[k] == if k < n then OPEN else CLOSE
  {
    if n > 0 {
      NestBytes(n - 1);
    }
  }

  lemma NestIsText(n: nat) returns (text: string)
    ensures Utf8.Encode(text) == Nest(n)
  {
    text := Braces(n, '{') + Braces(n, '}');
    NestBytes(n);
    Utf8.AsciiBytes(text);
    assert |text| == 2 * n;
  }

  /** The text of a nest is one object. */
  lemma NestIsObject(n: nat)
    requires n > 0
    ensures Objects(OUTSIDE, [], Nest(n)) == [Nest(n)]
  {
    var inner, whole := Nest(n - 1), Nest(n);
    NestReturns(n - 1, 1);
    assert whole[0] == OPEN && whole[1..] == inner + [CLOSE];
    assert [] + [OPEN] == [OPEN];
    InteriorIsCollected(INSIDE, [OPEN], inner, [CLOSE]);
    ObjectsOfByte(INSIDE, [OPEN] + inner, CLOSE);
  }

  lemma {:induction false} OpeningNest(bytes: seq<byte>, n: nat)
    requires n <= |bytes| && n <= I32_LIMIT && forall k | 0 <= k < n :: bytes[k] == OPEN
    ensures var s := ScanOf(bytes, n);
            s.depth == (if n < I32_LIMIT then n else -I32_LIMIT) && !s.inString && !s.escape && s.out == []
  {
    if n > 0 {
      OpeningNest(bytes, n - 1);
      WrapNext(n - 1);
    }
  }

  lemma WrapNext(n: nat)
    requires n < I32_LIMIT
    ensures Wrap32(n + 1) == if n + 1 < I32_LIMIT then n + 1 else -I32_LIMIT
  {
  }

  lemma {:induction false} ClosingNest(bytes: seq<byte>, n: nat)
    requires I32_LIMIT <= n <= |bytes|
    requires forall k | 0 <= k < n :: bytes[k] == if k < I32_LIMIT then OPEN else CLOSE
    ensures var s := ScanOf(bytes, n);
            s.depth == -I32_LIMIT && !s.inString && !s.escape && s.out == []
  {
    if n == I32_LIMIT {
      OpeningNest(bytes, n);
    } else {
      ClosingNest(bytes, n - 1);
    }
  }

  /** 2^31 opening and closing braces are one object, and the scanner outputs nothing. */
  lemma DeepObjectIsMissed() returns (text: string)
    ensures Outputs(text) == [] && Objects(OUTSIDE, [], Utf8.Encode(text)) == [Utf8.Encode(text)]
  {
    text := NestIsText(I32_LIMIT);
    NestBytes(I32_LIMIT);
    NestIsObject(I32_LIMIT);
    ClosingNest(Nest(I32_LIMIT), 2 * I32_LIMIT);
  }

  // ----- The action of an answer -----

  datatype ActionError = NoObject | NoAction

  /** The last object that deserializes as an action, whatever deserialization accepts. */
  method ExtractAction<A>(text: string, parse: string -> Option<A>) returns (action: Result<A, ActionError>)
    ensures action == Err(NoObject) <==> Outputs(text) == []
    ensures action == Err(NoAction) <==> Outputs(text) != [] && NoneParses(Outputs(text), parse, 0)
    ensures action.Ok? ==> exists k | 0 <= k < |Outputs(text)| ::
              parse(Outputs(text)[k]) == Some(action.value) && NoneParses(Outputs(text), parse, k + 1)
  {
    var candidates, _ := ScanJsonObjects(text);
    if candidates == [] {
      return Err(NoObject);
    }
    var last := LastParsed(candidates, parse);
    action := if last.Some? then Ok(last.value) else Err(NoAction);
  }

  /** From the k-th candidate on nothing is an action. */
  predicate NoneParses<A>(candidates: seq<string>, parse: string -> Option<A>, k: nat) {
    forall j | k <= j < |candidates| :: parse(candidates[j]).None?
  }

  method LastParsed<A>(candidates: seq<string>, parse: string -> Option<A>) returns (last: Option<A>)
    ensures last.None? <==> NoneParses(candidates, parse, 0)
    ensures last.Some? ==> exists k | 0 <= k < |candidates| ::
              parse(candidates[k]) == last && NoneParses(candidates, parse, k + 1)
  {
    for i := |candidates| downto 0
      invariant NoneParses(candidates, parse, i)
    {
      last := parse(candidates[i]);
      if last.Some? {
        return;
      }
    }
    return None;
  }
}
