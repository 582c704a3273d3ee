/** String operations of the standard libraries that several components rely on. */
module Strings {
  import Sequences

  /** Splitting at every separator; there is always one piece more than there are separators. */
  function Split<T(==)>(s: seq<T>, sep: T): (parts: seq<seq<T>>)
    ensures parts != []
    ensures forall p | p in parts :: sep !in p
  {
    if s == [] then [[]]
    else
      var rest := Split(s[1..], sep);
      if s[0] == sep then [[]] + rest
      else
        assert rest[0] in rest;
        [[s[0]] + rest[0]] + rest[1..]
  }

  function Join<T>(parts: seq<seq<T>>, sep: T): seq<T> {
    if parts == [] then []
    else if |parts| == 1 then parts[0]
    else parts[0] + [sep] + Join(parts[1..], sep)
  }

  lemma {:induction false} SplitOne<T>(s: seq<T>, sep: T)
    requires sep !in s
    ensures Split(s, sep) == [s]
  {
    if s != [] {
      assert s[0] in s && forall c | c in s[1..] :: c in s;
      SplitOne(s[1..], sep);
      assert [s[0]] + s[1..] == s;
    }
  }

  lemma {:induction false} SplitFirst<T>(s: seq<T>, rest: seq<T>, sep: T)
    requires sep !in s
    ensures Split(s + [sep] + rest, sep) == [s] + Split(rest, sep)
  {
    var whole := s + [sep] + rest;
    if s == [] {
      assert whole[1..] == rest;
    } else {
      assert s[0] in s && forall c | c in s[1..] :: c in s;
      assert whole[1..] == s[1..] + [sep] + rest;
      SplitFirst(s[1..], rest, sep);
      assert [s[0]] + s[1..] == s;
    }
  }

  lemma {:induction false} SplitBehind<T>(s: seq<T>, rest: seq<T>, sep: T)
    ensures Split(s + [sep] + rest, sep) == Split(s, sep) + Split(rest, sep)
  {
    var whole := s + [sep] + rest;
    if s == [] {
      assert whole == [sep] + rest && whole[1..] == rest;
    } else {
      assert whole[0] == s[0] && whole[1..] == s[1..] + [sep] + rest;
      SplitBehind(s[1..], rest, sep);
    }
  }

  /** Splitting undoes joining, for pieces without the separator. */
  lemma {:induction false} SplitJoin<T>(parts: seq<seq<T>>, sep: T)
    requires parts != [] && forall p | p in parts :: sep !in p
    ensures Split(Join(parts, sep), sep) == parts
  {
    assert parts[0] in parts;
    if |parts| == 1 {
      SplitOne(parts[0], sep);
    } else {
      assert forall p | p in parts[1..] :: p in parts;
      SplitJoin(parts[1..], sep);
      SplitFirst(parts[0], Join(parts[1..], sep), sep);
      assert [parts[0]] + parts[1..] == parts;
    }
  }

  /** Joining undoes splitting. */
  lemma {:induction false} JoinSplit<T>(s: seq<T>, sep: T)
    ensures Join(Split(s, sep), sep) == s
  {
    if s != [] {
      JoinSplit(s[1..], sep);
      var rest, parts := Split(s[1..], sep), Split(s, sep);
      if s[0] == sep {
        assert parts[1..] == rest;
        assert [] + [sep] + s[1..] == s;
      } else {
        assert parts[1..] == rest[1..];
        assert [s[0]] + s[1..] == s;
        if |rest| > 1 {
          assert ([s[0]] + rest[0]) + [sep] + Join(rest[1..], sep) == [s[0]] + (rest[0] + [sep] + Join(rest[1..], sep));
        }
      }
    }
  }

  /** Every piece followed by a separator. */
  function Ended<T>(parts: seq<seq<T>>, sep: T): seq<T> {
    if parts == [] then [] else parts[0] + [sep] + Ended(parts[1..], sep)
  }

  lemma {:induction false} SplitEnded<T>(parts: seq<seq<T>>, sep: T)
    requires forall p | p in parts :: sep !in p
    ensures Split(Ended(parts, sep), sep) == parts + [[]]
  {
    if parts != [] {
      assert parts[0] in parts && forall p | p in parts[1..] :: p in parts;
      SplitEnded(parts[1..], sep);
      SplitFirst(parts[0], Ended(parts[1..], sep), sep);
      assert [parts[0]] + (parts[1..] + [[]]) == parts + [[]];
    }
  }

  /** Up to a separator or the start, and from a separator or the end: what Split takes for a piece. */
  ghost predicate Piece<T(!new)>(s: seq<T>, piece: seq<T>, sep: T) {
    sep !in piece && exists before, after :: Around(s, before, piece, after, sep)
  }

  predicate Around<T(==)>(s: seq<T>, before: seq<T>, piece: seq<T>, after: seq<T>, sep: T) {
    s == before + piece + after && (before == [] || before[|before| - 1] == sep) && (after == [] || after[0] == sep)
  }

  lemma {:induction false} JoinedAt<T>(parts: seq<seq<T>>, k: nat, sep: T)
    requires k < |parts|
    ensures Join(parts, sep)
            == Ended(parts[..k], sep) + parts[k] + if k == |parts| - 1 then [] else [sep] + Join(parts[k + 1..], sep)
  {
    if k > 0 {
      JoinedAt(parts[1..], k - 1, sep);
      assert parts[..k][1..] == parts[1..][..k - 1] && parts[1..][k..] == parts[k + 1..];
    }
  }

  lemma {:induction false} EndedEnds<T>(parts: seq<seq<T>>, sep: T)
    ensures Ended(parts, sep) == [] || Ended(parts, sep)[|Ended(parts, sep)| - 1] == sep
  {
    if parts != [] {
      EndedEnds(parts[1..], sep);
    }
  }

  lemma FirstPiece<T>(piece: seq<T>, after: seq<T>, sep: T)
    requires sep !in piece && (after == [] || after[0] == sep)
    ensures piece in Split(piece + after, sep)
  {
    if after == [] {
      assert piece + after == piece;
      SplitOne(piece, sep);
    } else {
      assert piece + after == piece + [sep] + after[1..];
      SplitFirst(piece, after[1..], sep);
    }
  }

  lemma PieceSplits<T>(before: seq<T>, rest: seq<T>, piece: seq<T>, sep: T)
    requires piece in Split(rest, sep) && (before == [] || before[|before| - 1] == sep)
    ensures piece in Split(before + rest, sep)
  {
    if before == [] {
      assert before + rest == rest;
    } else {
      var front := before[..|before| - 1];
      assert before + rest == front + [sep] + rest;
      SplitBehind(front, rest, sep);
    }
  }

  lemma SplitIsPiece<T(!new)>(s: seq<T>, k: nat, sep: T)
    requires k < |Split(s, sep)|
    ensures Piece(s, Split(s, sep)[k], sep)
  {
    var parts := Split(s, sep);
    assert parts[k] in parts;
    JoinedAt(parts, k, sep);
    JoinSplit(s, sep);
    EndedEnds(parts[..k], sep);
    var after := if k == |parts| - 1 then [] else [sep] + Join(parts[k + 1..], sep);
    assert Around(s, Ended(parts[..k], sep), parts[k], after, sep);
  }

  /** The pieces of a split are the pieces of the text. */
  lemma SplitsIff<T(!new)>(s: seq<T>, piece: seq<T>, sep: T)
    ensures piece in Split(s, sep) <==> Piece(s, piece, sep)
  {
    if piece in Split(s, sep) {
      var k :| 0 <= k < |Split(s, sep)| && Split(s, sep)[k] == piece;
      SplitIsPiece(s, k, sep);
    }
    if Piece(s, piece, sep) {
      var before, after :| Around(s, before, piece, after, sep);
      FirstPiece(piece, after, sep);
      PieceSplits(before, piece + after, piece, sep);
      Sequences.Regroup(before, piece, after);
    }
  }

  /** Without its last element, if that is `end`. */
  function WithoutEnd<T(==)>(s: seq<T>, end: T): seq<T> {
    if s != [] && s[|s| - 1] == end then s[..|s| - 1] else s
  }

  predicate StartsWith<T(==)>(s: seq<T>, prefix: seq<T>) {
    |prefix| <= |s| && s[..|prefix|] == prefix
  }

  predicate EndsWith(s: string, suffix: string) {
    |suffix| <= |s| && s[|s| - |suffix|..] == suffix
  }

  function AsciiLower(s: string): string {
    seq(|s|, i requires 0 <= i < |s| => if 'A' <= s[i] <= 'Z' then (s[i] as int + 32) as char else s[i])
  }

  /** Unicode's White_Space property. */
  predicate White(c: char) {
    var n := c as int;
    || 9 <= n <= 13 || n == 0x20 || n == 0x85 || n == 0xA0 || n == 0x1680 || 0x2000 <= n <= 0x200A
    || n == 0x2028 || n == 0x2029 || n == 0x202F || n == 0x205F || n == 0x3000
  }

  /** `str::trim`. */
  function Trim(s: string): string {
    if s != "" && White(s[0]) then Trim(s[1..])
    else if s != "" && White(s[|s| - 1]) then Trim(s[..|s| - 1])
    else s
  }

  /** `str::trim_end`. */
  function TrimEnd(s: string): string {
    if s != "" && White(s[|s| - 1]) then TrimEnd(s[..|s| - 1]) else s
  }

  predicate AllWhite(s: string) {
    forall k | 0 <= k < |s| :: White(s[k])
  }

  lemma {:induction false} TrimEndDrops(s: string, white: string)
    requires AllWhite(white)
    ensures TrimEnd(s + white) == TrimEnd(s)
  {
    if white == "" {
      assert s + white == s;
    } else {
      assert (s + white)[..|s + white| - 1] == s + white[..|white| - 1];
      TrimEndDrops(s, white[..|white| - 1]);
    }
  }

  /** What is trimmed is a prefix, ends without white space, and lacks white space only. */
  lemma {:induction false} TrimEndIs(s: string) returns (white: string)
    ensures s == TrimEnd(s) + white && AllWhite(white)
    ensures TrimEnd(s) != "" ==> !White(TrimEnd(s)[|TrimEnd(s)| - 1])
  {
    white := "";
    if s != "" && White(s[|s| - 1]) {
      white := TrimEndIs(s[..|s| - 1]);
      assert s == s[..|s| - 1] + [s[|s| - 1]];
      white := white + [s[|s| - 1]];
    }
  }

  lemma TrimEndKeeps(s: string)
    requires s != "" && !White(s[|s| - 1])
    ensures TrimEnd(s) == s
  {
  }

  /** Trimming a text trims its last part, and the rest only if nothing of that is left. */
  lemma TrimEndOfLast(a: string, b: string)
    ensures TrimEnd(a + b) == if TrimEnd(b) == "" then TrimEnd(a) else a + TrimEnd(b)
  {
    var white := TrimEndIs(b);
    assert a + b == (a + TrimEnd(b)) + white;
    TrimEndDrops(a + TrimEnd(b), white);
    if TrimEnd(b) == "" {
      assert a + TrimEnd(b) == a;
    } else {
      TrimEndKeeps(a + TrimEnd(b));
    }
  }

  /** Nothing up to a character that is not white space is trimmed. */
  lemma {:induction false} TrimEndKeepsUpTo(s: string, k: nat)
    requires k < |s| && !White(s[k])
    ensures k < |TrimEnd(s)| && TrimEnd(s)[..k + 1] == s[..k + 1]
  {
    if White(s[|s| - 1]) {
      TrimEndKeepsUpTo(s[..|s| - 1], k);
      assert s[..|s| - 1][..k + 1] == s[..k + 1];
    }
  }
}
