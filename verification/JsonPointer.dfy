/**
  Resolving JSON Pointers (RFC 6901) inside a canonical receipt.

  `ResolvesIffPathLeads` ties the resolver to paths: it answers with a node exactly when some path
  of keys and indices leads there and is written as that pointer.
 */
module JsonPointer {
  import opened Wrappers
  import opened Strings
  import opened Decimal

  datatype Json =
    | Null
    | Bool(b: bool)
    | Number(n: real)
    | Text(s: string)
    | Array(items: seq<Json>)
    | Object(members: map<string, Json>)

  datatype PointerError = Unbounded | BadEscape | BadIndex | Unresolved | Empty

  const MAX_POINTER: nat := 512

  // ----- Escapes -----

  /** No tilde except before 0 or 1. */
  predicate ValidEscapes(c: string) {
    forall i | 0 <= i < |c| && c[i] == '~' :: i + 1 < |c| && (c[i + 1] == '0' || c[i + 1] == '1')
  }

  /** Python's `s.replace(a + b, [c])`: occurrences from left to right, without overlap. */
  function Replace(s: string, a: char, b: char, c: char): string {
    if |s| < 2 then s
    else if s[0] == a && s[1] == b then [c] + Replace(s[2..], a, b, c)
    else [s[0]] + Replace(s[1..], a, b, c)
  }

  /** The two replacements the resolver makes, in its order. */
  function TwoReplacements(component: string): string {
    Replace(Replace(component, '~', '1', '/'), '~', '0', '~')
  }

  /** Section 4 of RFC 6901: one pass over the escapes. */
  function Unescape(c: string): string {
    if c == "" then ""
    else if c[0] == '~' && |c| > 1 then [if c[1] == '1' then '/' else '~'] + Unescape(c[2..])
    else [c[0]] + Unescape(c[1..])
  }

  function Escape(key: string): string {
    if key == "" then ""
    else (if key[0] == '~' then "~0" else if key[0] == '/' then "~1" else [key[0]]) + Escape(key[1..])
  }

  lemma ValidTail(c: string, n: nat)
    requires ValidEscapes(c) && n <= |c| && (n == 1 ==> c[0] != '~')
    ensures ValidEscapes(c[n..])
  {
    assert forall i | 0 <= i < |c[n..]| :: c[n..][i] == c[n + i];
  }

  lemma PlainIsKept(c: string, a: char, b: char, to: char)
    requires c != "" && c[0] != a
    ensures Replace(c, a, b, to) == [c[0]] + Replace(c[1..], a, b, to)
  {
  }

  lemma OtherPairIsKept(c: string, a: char, b: char, to: char)
    requires |c| > 1 && c[0] == a && c[1] != b && c[1] != a
    ensures Replace(c, a, b, to) == [a, c[1]] + Replace(c[2..], a, b, to)
  {
    PlainIsKept(c[1..], a, b, to);
    assert c[1..][1..] == c[2..];
  }

  lemma PairIsReplaced(rest: string, a: char, b: char, to: char)
    ensures Replace([a, b] + rest, a, b, to) == [to] + Replace(rest, a, b, to)
  {
    assert ([a, b] + rest)[2..] == rest;
  }

  lemma PlainIsKeptBefore(x: char, rest: string, a: char, b: char, to: char)
    requires x != a
    ensures Replace([x] + rest, a, b, to) == [x] + Replace(rest, a, b, to)
  {
    PlainIsKept([x] + rest, a, b, to);
    assert ([x] + rest)[1..] == rest;
  }

  /** On a valid component the two whole-string replacements are one pass over its escapes. */
  lemma {:induction false} ReplacementsUnescape(c: string)
    requires ValidEscapes(c)
    ensures TwoReplacements(c) == Unescape(c)
    decreases |c|
  {
    if c != "" {
      var n := if c[0] == '~' then 2 else 1;
      ValidTail(c, n);
      ReplacementsUnescape(c[n..]);
      var rest := Replace(c[n..], '~', '1', '/');
      if c[0] != '~' {
        PlainIsKept(c, '~', '1', '/');
        PlainIsKeptBefore(c[0], rest, '~', '0', '~');
      } else if c[1] == '1' {
        PlainIsKeptBefore('/', rest, '~', '0', '~');
      } else {
        OtherPairIsKept(c, '~', '1', '/');
        PairIsReplaced(rest, '~', '0', '~');
      }
    }
  }

  lemma {:induction false} EscapeIsValid(key: string)
    ensures ValidEscapes(Escape(key)) && '/' !in Escape(key) && Unescape(Escape(key)) == key
  {
    if key != "" {
      EscapeIsValid(key[1..]);
      var head := if key[0] == '~' then "~0" else if key[0] == '/' then "~1" else [key[0]];
      var tail := Escape(key[1..]);
      var e := head + tail;
      assert e[|head|..] == tail;
      forall i | 0 <= i < |e| && e[i] == '~'
        ensures i + 1 < |e| && (e[i + 1] == '0' || e[i + 1] == '1')
      {
        if i >= |head| {
          assert tail[i - |head|] == '~';
          assert e[i + 1] == tail[i - |head| + 1];
        }
      }
      assert Unescape(e) == [key[0]] + Unescape(tail);
    }
  }

  /** The first escape or plain character, unescaped and escaped again. */
  lemma UnescapeOne(c: string, n: nat)
    requires c != "" && ValidEscapes(c) && c[0] != '/' && n == if c[0] == '~' then 2 else 1
    ensures n <= |c| && Escape(Unescape(c)) == c[..n] + Escape(Unescape(c[n..]))
  {
  }

  lemma {:induction false} EscapeUnescape(c: string)
    requires ValidEscapes(c) && '/' !in c
    ensures Escape(Unescape(c)) == c
    decreases |c|
  {
    if c != "" {
      var n := if c[0] == '~' then 2 else 1;
      assert c[0] in c && forall x | x in c[n..] :: x in c;
      ValidTail(c, n);
      EscapeUnescape(c[n..]);
      UnescapeOne(c, n);
      assert c == c[..n] + c[n..];
    }
  }

  lemma {:induction false} DigitsNeedNoEscape(s: string)
    requires AllDigits(s)
    ensures Escape(s) == s && Unescape(s) == s && ValidEscapes(s) && '/' !in s
  {
    if s != "" {
      assert s[0] in s && forall c | c in s[1..] :: c in s;
      DigitsNeedNoEscape(s[1..]);
      assert [s[0]] + s[1..] == s;
    }
    NoTilde(s);
  }

  lemma NoTilde(s: string)
    requires AllDigits(s)
    ensures ValidEscapes(s) && '/' !in s
  {
    assert forall i | 0 <= i < |s| :: s[i] in s;
  }

  // ----- The resolver -----

  predicate IsIndex(c: string) {
    c != "" && (forall k | 0 <= k < |c| :: IsDigit(c[k])) && (c[0] == '0' ==> |c| == 1)
  }

  /** One component of the pointer. */
  function ResolveComponent(value: Json, component: string): Result<Json, PointerError> {
    if !ValidEscapes(component) then Err(BadEscape)
    else
      var c := TwoReplacements(component);
      match value
      case Array(items) =>
        if !IsIndex(c) then Err(BadIndex)
        else
          var i := Value(c);
          if i < |items| then Ok(items[i]) else Err(Unresolved)
      case Object(members) => if c in members then Ok(members[c]) else Err(Unresolved)
      case _ => Err(Unresolved)
  }

  function Resolve(value: Json, components: seq<string>): Result<Json, PointerError> {
    if components == [] then Ok(value)
    else
      match ResolveComponent(value, components[0])
      case Err(e) => Err(e)
      case Ok(next) => Resolve(next, components[1..])
  }

  predicate IsEmpty(value: Json) {
    value == Null || value == Array([]) || value == Object(map[]) || value == Text("")
  }

  method ResolvePointer(root: Json, pointer: string, requireNonempty: bool) returns (r: Result<Json, PointerError>)
    ensures r == Resolved(root, pointer, requireNonempty)
  {
    if !StartsWith(pointer, "/") || |pointer| > MAX_POINTER {
      return Err(Unbounded);
    }
    var components := Split(pointer[1..], '/');
    var value := root;
    for i := 0 to |components|
      invariant Resolve(root, components) == Resolve(value, components[i..])
    {
      assert components[i..][1..] == components[i + 1..];
      var next := ResolveComponent(value, components[i]);
      if next.Err? {
        return Err(next.error);
      }
      value := next.value;
    }
    if requireNonempty && IsEmpty(value) {
      return Err(Empty);
    }
    return Ok(value);
  }

  function Resolved(root: Json, pointer: string, requireNonempty: bool): Result<Json, PointerError> {
    if !StartsWith(pointer, "/") || |pointer| > MAX_POINTER then Err(Unbounded)
    else
      var r := Resolve(root, Split(pointer[1..], '/'));
      if r.Ok? && requireNonempty && IsEmpty(r.value) then Err(Empty) else r
  }

  // ----- Paths -----

  datatype Step = Key(name: string) | Index(i: nat)

  function Child(value: Json, step: Step): Option<Json> {
    match step
    case Key(name) => if value.Object? && name in value.members then Some(value.members[name]) else None
    case Index(i) => if value.Array? && i < |value.items| then Some(value.items[i]) else None
  }

  function NodeAt(value: Json, path: seq<Step>): Option<Json> {
    if path == [] then Some(value)
    else
      match Child(value, path[0])
      case None => None
      case Some(next) => NodeAt(next, path[1..])
  }

  function Written(step: Step): string {
    match step
    case Key(name) => Escape(name)
    case Index(i) => Digits(i)
  }

  function WrittenAll(path: seq<Step>): (r: seq<string>)
    ensures |r| == |path|
  {
    if path == [] then [] else [Written(path[0])] + WrittenAll(path[1..])
  }

  /** Section 3 of RFC 6901: each reference token after a slash. */
  function PointerTo(path: seq<Step>): string {
    if path == [] then "" else "/" + Join(WrittenAll(path), '/')
  }

  lemma DigitsAreIndex(i: nat)
    ensures IsIndex(Digits(i)) && Value(Digits(i)) == i
    ensures ValidEscapes(Digits(i)) && TwoReplacements(Digits(i)) == Digits(i)
  {
    var c := Digits(i);
    DigitsNeedNoEscape(c);
    ReplacementsUnescape(c);
    ValueOfDigits(i);
    assert forall k | 0 <= k < |c| :: c[k] in c;
  }

  lemma WrittenResolves(value: Json, step: Step)
    requires Child(value, step).Some?
    ensures ResolveComponent(value, Written(step)) == Ok(Child(value, step).value)
  {
    match step
    case Key(name) =>
      EscapeIsValid(name);
      ReplacementsUnescape(Escape(name));
    case Index(i) =>
      DigitsAreIndex(i);
  }

  lemma ResolvedIsWritten(value: Json, component: string) returns (step: Step)
    requires ResolveComponent(value, component).Ok? && '/' !in component
    ensures Child(value, step) == Some(ResolveComponent(value, component).value) && Written(step) == component
  {
    ReplacementsUnescape(component);
    EscapeUnescape(component);
    var c := Unescape(component);
    if value.Array? {
      assert forall x | x in c :: IsDigit(x);
      DigitsNeedNoEscape(c);
      DigitsOfValue(c);
      step := Index(Value(c));
    } else {
      step := Key(c);
    }
  }

  lemma WrittenIsUnambiguous(value: Json, a: Step, b: Step)
    requires Child(value, a).Some? && Child(value, b).Some? && Written(a) == Written(b)
    ensures a == b
  {
    if value.Array? {
      ValueOfDigits(a.i);
      ValueOfDigits(b.i);
    } else {
      EscapeIsValid(a.name);
      EscapeIsValid(b.name);
    }
  }

  lemma {:induction false} WrittenAllSplits(path: seq<Step>)
    ensures forall c | c in WrittenAll(path) :: '/' !in c
  {
    if path != [] {
      WrittenAllSplits(path[1..]);
      match path[0]
      case Key(name) => EscapeIsValid(name);
      case Index(i) => DigitsNeedNoEscape(Digits(i));
    }
  }

  lemma {:induction false} PathResolves(value: Json, path: seq<Step>)
    requires NodeAt(value, path).Some?
    ensures Resolve(value, WrittenAll(path)) == Ok(NodeAt(value, path).value)
    decreases path
  {
    if path != [] {
      WrittenResolves(value, path[0]);
      PathResolves(Child(value, path[0]).value, path[1..]);
    }
  }

  lemma {:induction false} ResolvedHasPath(value: Json, components: seq<string>) returns (path: seq<Step>)
    requires Resolve(value, components).Ok? && forall c | c in components :: '/' !in c
    ensures WrittenAll(path) == components && NodeAt(value, path) == Some(Resolve(value, components).value)
    decreases components
  {
    if components == [] {
      path := [];
    } else {
      assert components[0] in components && forall c | c in components[1..] :: c in components;
      var step := ResolvedIsWritten(value, components[0]);
      var rest := ResolvedHasPath(Child(value, step).value, components[1..]);
      path := [step] + rest;
    }
  }

  /**
    A pointer resolves to a node exactly when it has at most 512 characters and is how some nonempty
    path to that node is written; where evidence is asked for, the node must hold something, too.
   */
  lemma ResolvesIffPathLeads(root: Json, pointer: string, node: Json, evidence: bool)
    ensures Resolved(root, pointer, evidence) == Ok(node) <==>
            && |pointer| <= 512 && (evidence ==> HoldsSomething(node))
            && exists path :: path != [] && NodeAt(root, path) == Some(node) && PointerTo(path) == pointer
  {
    if Resolved(root, pointer, false) == Ok(node) {
      var path := ResolvedIsPath(root, pointer);
    }
    if path :| path != [] && NodeAt(root, path) == Some(node) && PointerTo(path) == pointer {
      PathIsResolved(root, path);
    }
  }

  lemma ResolvedIsPath(root: Json, pointer: string) returns (path: seq<Step>)
    requires Resolved(root, pointer, false).Ok?
    ensures path != [] && NodeAt(root, path) == Some(Resolved(root, pointer, false).value) && PointerTo(path) == pointer
  {
    path := ResolvedHasPath(root, Split(pointer[1..], '/'));
    JoinSplit(pointer[1..], '/');
    assert pointer == "/" + pointer[1..];
  }

  lemma PathIsResolved(root: Json, path: seq<Step>)
    requires path != [] && NodeAt(root, path).Some?
    ensures |PointerTo(path)| <= 512 ==> Resolved(root, PointerTo(path), false) == Ok(NodeAt(root, path).value)
  {
    PathResolves(root, path);
    WrittenAllSplits(path);
    SplitJoin(WrittenAll(path), '/');
    assert PointerTo(path)[1..] == Join(WrittenAll(path), '/');
  }

  /** Numbers and truth values do, whatever they are. */
  ghost predicate HoldsSomething(node: Json) {
    match node
    case Null => false
    case Bool(_) => true
    case Number(_) => true
    case Text(s) => s != ""
    case Array(items) => |items| > 0
    case Object(members) => members.Keys != {}
  }

  /** Two of the errors: a pointer that is none or too long, and evidence that holds nothing. */
  lemma RefusedAs(root: Json, pointer: string, evidence: bool)
    ensures Resolved(root, pointer, evidence) == Err(Unbounded) <==> pointer == "" || pointer[0] != '/' || |pointer| > 512
    ensures Resolved(root, pointer, evidence) == Err(Empty) <==>
              evidence && Resolved(root, pointer, false).Ok? && !HoldsSomething(Resolved(root, pointer, false).value)
  {
    if pointer != "" && pointer[0] == '/' && |pointer| <= 512 {
      OnlyStepErrors(root, Split(pointer[1..], '/'));
    }
  }

  lemma {:induction false} OnlyStepErrors(value: Json, components: seq<string>)
    ensures var r := Resolve(value, components); r.Err? ==> r.error in {BadEscape, BadIndex, Unresolved}
    decreases components
  {
    if components != [] && ResolveComponent(value, components[0]).Ok? {
      OnlyStepErrors(ResolveComponent(value, components[0]).value, components[1..]);
    }
  }

  lemma {:induction false} PathsAreUnambiguous(value: Json, a: seq<Step>, b: seq<Step>)
    requires NodeAt(value, a).Some? && NodeAt(value, b).Some? && WrittenAll(a) == WrittenAll(b)
    ensures a == b
    decreases a
  {
    if a != [] {
      assert WrittenAll(a)[0] == WrittenAll(b)[0] && WrittenAll(a)[1..] == WrittenAll(b)[1..];
      WrittenIsUnambiguous(value, a[0], b[0]);
      PathsAreUnambiguous(Child(value, a[0]).value, a[1..], b[1..]);
      assert a == [a[0]] + a[1..] && b == [b[0]] + b[1..];
    }
  }

  /** Different paths through a value are written as different pointers. */
  lemma PointersAreUnambiguous(root: Json, a: seq<Step>, b: seq<Step>)
    requires NodeAt(root, a).Some? && NodeAt(root, b).Some? && PointerTo(a) == PointerTo(b)
    ensures a == b
  {
    if a != [] && b != [] {
      WrittenAllSplits(a);
      WrittenAllSplits(b);
      SplitJoin(WrittenAll(a), '/');
      SplitJoin(WrittenAll(b), '/');
      assert PointerTo(a)[1..] == Join(WrittenAll(a), '/') && PointerTo(b)[1..] == Join(WrittenAll(b), '/');
      PathsAreUnambiguous(root, a, b);
    }
  }
}
