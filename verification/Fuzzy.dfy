/** Fuzzy path ranking: greedy matching, scores, and the first hundred paths. */
module Fuzzy {
  import opened Wrappers
  import opened Sequences
  import Strings
  import TextLines
  import Utf8

  const MAX_RESULTS: nat := 100

  datatype Ranked = Ranked(score: int, path: string)

  /** The characters of the query occur in the text in order, at the given positions. */
  predicate Embeds(query: string, text: string, at: seq<nat>) {
    && |at| == |query|
    && (forall k | 0 <= k < |at| :: at[k] < |text| && text[at[k]] == query[k])
    && (forall k, l | 0 <= k < l < |at| :: at[k] < at[l])
  }

  ghost predicate Subsequence(query: string, text: string) {
    exists at :: Embeds(query, text, at)
  }

  /** What is left of the query after matching each next character as early as possible. */
  function Unmatched(query: string, text: string): string {
    if query == "" || text == "" then query
    else if query[0] == text[0] then Unmatched(query[1..], text[1..])
    else Unmatched(query, text[1..])
  }

  function Later(at: seq<nat>): (r: seq<nat>)
    ensures |r| == |at| && forall k | 0 <= k < |at| :: r[k] == at[k] + 1
  {
    seq(|at|, k requires 0 <= k < |at| => at[k] + 1)
  }

  function Earlier(at: seq<nat>): (r: seq<nat>)
    requires forall k | 0 <= k < |at| :: at[k] > 0
    ensures |r| == |at| && forall k | 0 <= k < |at| :: r[k] == at[k] - 1
  {
    seq(|at|, k requires 0 <= k < |at| => at[k] - 1)
  }

  /** Each character of the query is matched at its first occurrence behind the match before. */
  predicate Earliest(query: string, text: string, at: seq<nat>) {
    && Embeds(query, text, at)
    && forall k, i | 0 <= k < |at| && 0 <= i < at[k] && (k == 0 || at[k - 1] < i) :: Differ(text, i, query, k)
  }

  predicate Differ(text: string, i: nat, query: string, k: nat) {
    i < |text| && k < |query| && text[i] != query[k]
  }

  lemma EmbedsHere(query: string, text: string, rest: seq<nat>)
    requires query != "" && text != "" && query[0] == text[0] && Embeds(query[1..], text[1..], rest)
    ensures Embeds(query, text, [0] + Later(rest))
  {
    var at := [0] + Later(rest);
    forall k | 0 <= k < |at|
      ensures at[k] < |text| && text[at[k]] == query[k]
    {
      assert k > 0 ==> text[1..][rest[k - 1]] == query[1..][k - 1];
    }
  }

  lemma EarliestHere(query: string, text: string, rest: seq<nat>)
    requires query != "" && text != "" && query[0] == text[0] && Earliest(query[1..], text[1..], rest)
    ensures Earliest(query, text, [0] + Later(rest))
  {
    EmbedsHere(query, text, rest);
    var at := [0] + Later(rest);
    forall k, i | 0 <= k < |at| && 0 <= i < at[k] && (k == 0 || at[k - 1] < i)
      ensures Differ(text, i, query, k)
    {
      assert k > 0 && at[k] == rest[k - 1] + 1 && (k > 1 ==> at[k - 1] == rest[k - 2] + 1);
      assert Differ(text[1..], i - 1, query[1..], k - 1);
    }
  }

  lemma EarliestLater(query: string, text: string, rest: seq<nat>)
    requires query != "" && text != "" && query[0] != text[0] && Earliest(query, text[1..], rest)
    ensures Earliest(query, text, Later(rest))
  {
    var at := Later(rest);
    forall k | 0 <= k < |at|
      ensures at[k] < |text| && text[at[k]] == query[k]
    {
      assert text[1..][rest[k]] == query[k];
    }
    forall k, i | 0 <= k < |at| && 0 <= i < at[k] && (k == 0 || at[k - 1] < i)
      ensures Differ(text, i, query, k)
    {
      assert i > 0 ==> Differ(text[1..], i - 1, query, k);
    }
  }

  lemma {:induction false} GreedyEmbeds(query: string, text: string) returns (at: seq<nat>)
    requires Unmatched(query, text) == ""
    ensures Earliest(query, text, at)
    decreases |text|
  {
    if query == "" {
      at := [];
    } else if query[0] == text[0] {
      var rest := GreedyEmbeds(query[1..], text[1..]);
      EarliestHere(query, text, rest);
      at := [0] + Later(rest);
    } else {
      var rest := GreedyEmbeds(query, text[1..]);
      EarliestLater(query, text, rest);
      at := Later(rest);
    }
  }

  lemma {:induction false} GreedyMissesNothing(query: string, text: string, at: seq<nat>)
    requires Embeds(query, text, at)
    ensures Unmatched(query, text) == ""
    decreases |text|
  {
    if query != "" {
      assert at[0] < |text|;
      assert forall k | 0 < k < |at| :: at[0] < at[k];
      if query[0] == text[0] {
        GreedyMissesNothing(query[1..], text[1..], Earlier(at[1..]));
      } else {
        GreedyMissesNothing(query, text[1..], Earlier(at));
      }
    }
  }

  /** Greedy matching uses up the query exactly when the query is a subsequence of the text. */
  lemma GreedyIsComplete(query: string, text: string)
    ensures Unmatched(query, text) == "" <==> Subsequence(query, text)
  {
    if Unmatched(query, text) == "" {
      var at := GreedyEmbeds(query, text);
    } else if Subsequence(query, text) {
      var at :| Embeds(query, text, at);
      GreedyMissesNothing(query, text, at);
    }
  }

  /** Twelve points for a character right after the last matched byte, one for any other match. */
  function MatchScore(query: string, text: string, byteAt: nat, last: Option<nat>): int {
    if query == "" || text == "" then 0
    else
      var next := byteAt + |Utf8.EncodeChar(text[0])|;
      if query[0] == text[0] then
        (if last == Some(if byteAt == 0 then 0 else byteAt - 1) then 12 else 1)
        + MatchScore(query[1..], text[1..], next, Some(byteAt))
      else MatchScore(query, text[1..], next, last)
  }

  function FileName(path: string): string {
    var parts := Strings.Split(path, '/');
    parts[|parts| - 1]
  }

  function Score(query: string, path: string, lower: string): int {
    MatchScore(query, lower, 0, None)
    + (if Strings.StartsWith(FileName(lower), query) then 100 else 0)
    - Utf8.ByteLength(path) / 8
  }

  type Lowercase = string -> string

  function RankedPaths(paths: seq<string>, query: string, lowercase: Lowercase): seq<Ranked> {
    if paths == [] then []
    else
      RankedPaths(paths[..|paths| - 1], query, lowercase) + Ranking(paths[|paths| - 1], query, lowercase)
  }

  function Ranking(path: string, query: string, lowercase: Lowercase): seq<Ranked> {
    if Unmatched(query, lowercase(path)) == "" then [Ranked(Score(query, path, lowercase(path)), path)] else []
  }

  predicate Before(a: Ranked, b: Ranked) {
    a.score > b.score || (a.score == b.score && LexLe(Codes(a.path), Codes(b.path)))
  }

  function Paths(ranked: seq<Ranked>): (paths: seq<string>)
    ensures |paths| == |ranked| && forall k | 0 <= k < |paths| :: paths[k] == ranked[k].path
  {
    seq(|ranked|, k requires 0 <= k < |ranked| => ranked[k].path)
  }

  function Best(paths: seq<string>, query: string, lowercase: Lowercase): seq<string> {
    Paths(TextLines.Take(Sort(RankedPaths(paths, lowercase(query), lowercase), Before), MAX_RESULTS))
  }

  /** Matches the query greedily against one lowercased path; None when some of it is left over. */
  method MatchPath(query: string, lower: string) returns (score: Option<int>)
    ensures score.Some? <==> Unmatched(query, lower) == ""
    ensures score.Some? ==> score.value == MatchScore(query, lower, 0, None)
  {
    var taken: nat, total: int, last: Option<nat>, byteAt: nat := 0, 0, None, 0;
    for i := 0 to |lower|
      invariant taken <= |query|
      invariant Unmatched(query, lower) == Unmatched(query[taken..], lower[i..])
      invariant MatchScore(query, lower, 0, None) == total + MatchScore(query[taken..], lower[i..], byteAt, last)
    {
      if taken < |query| && query[taken] == lower[i] {
        total := total + if last == Some(if byteAt == 0 then 0 else byteAt - 1) then 12 else 1;
        last := Some(byteAt);
        taken := taken + 1;
      }
      byteAt := byteAt + |Utf8.EncodeChar(lower[i])|;
    }
    score := if taken == |query| then Some(total) else None;
  }

  method ScorePath(query: string, path: string, lower: string) returns (score: Option<int>)
    ensures score == if Unmatched(query, lower) == "" then Some(Score(query, path, lower)) else None
  {
    score := MatchPath(query, lower);
    if score.Some? {
      var bonus := if Strings.StartsWith(FileName(lower), query) then 100 else 0;
      score := Some(score.value + bonus - Utf8.ByteLength(path) / 8);
    }
  }

  lemma RankOneMore(paths: seq<string>, query: string, lowercase: Lowercase, i: nat)
    requires i < |paths|
    ensures RankedPaths(paths[..i + 1], query, lowercase) == RankedPaths(paths[..i], query, lowercase) + Ranking(paths[i], query, lowercase)
  {
    assert paths[..i + 1][..i] == paths[..i];
  }

  method Fuzzy(paths: seq<string>, query: string, lowercase: Lowercase) returns (best: seq<string>)
    ensures best == Best(paths, query, lowercase)
  {
    var wanted := lowercase(query);
    var ranked: seq<Ranked> := [];
    for i := 0 to |paths|
      invariant ranked == RankedPaths(paths[..i], wanted, lowercase)
    {
      RankOneMore(paths, wanted, lowercase, i);
      var lower := lowercase(paths[i]);
      var score := ScorePath(wanted, paths[i], lower);
      if score.Some? {
        ranked := ranked + [Ranked(score.value, paths[i])];
      }
    }
    assert paths[..|paths|] == paths;
    ranked := Sort(ranked, Before);
    best := Paths(TextLines.Take(ranked, MAX_RESULTS));
  }

  // ----- What the ranking means -----

  /** Where the i-th character starts, in bytes. */
  function ByteAt(text: string, i: nat): nat
    requires i <= |text|
  {
    |Utf8.Encode(text[..i])|
  }

  /** The bytes at which the matched characters start. */
  predicate Starts(text: string, at: seq<nat>, bytes: seq<nat>) {
    |bytes| == |at| && forall k | 0 <= k < |at| :: at[k] < |text| && bytes[k] == ByteAt(text, at[k])
  }

  /** One point for a match, twelve if the match before is of the byte in front of it. */
  function Points(bytes: seq<nat>): int {
    if bytes == [] then 0
    else
      var n := |bytes| - 1;
      Points(bytes[..n]) + if n > 0 && bytes[n - 1] + 1 == bytes[n] then 12 else 1
  }

  function Last(bytes: seq<nat>): Option<nat> {
    if bytes == [] then None else Some(bytes[|bytes| - 1])
  }

  lemma PointsGrow(bytes: seq<nat>, b: nat)
    requires b == 0 ==> bytes == []
    ensures Points(bytes + [b]) == Points(bytes) + if Last(bytes) == Some(if b == 0 then 0 else b - 1) then 12 else 1
    ensures Last(bytes + [b]) == Some(b)
  {
    assert (bytes + [b])[..|bytes|] == bytes;
  }

  lemma ByteAtNext(text: string, i: nat)
    requires i < |text|
    ensures ByteAt(text, i + 1) == ByteAt(text, i) + |Utf8.EncodeChar(text[i])|
    ensures i > 0 ==> ByteAt(text, i) > 0
  {
    Utf8.EncodeOneMore(text, i);
  }

  lemma MatchScoreAt(query: string, text: string, k: nat, i: nat, byteAt: nat, last: Option<nat>)
    requires k < |query| && i < |text|
    ensures var next := byteAt + |Utf8.EncodeChar(text[i])|;
            MatchScore(query[k..], text[i..], byteAt, last) ==
            if query[k] == text[i] then
              (if last == Some(if byteAt == 0 then 0 else byteAt - 1) then 12 else 1)
              + MatchScore(query[k + 1..], text[i + 1..], next, Some(byteAt))
            else MatchScore(query[k..], text[i + 1..], next, last)
  {
    assert text[i..][1..] == text[i + 1..] && query[k..][1..] == query[k + 1..];
  }

  lemma NothingLeft(query: string, text: string, byteAt: nat, last: Option<nat>)
    ensures query == "" ==> MatchScore(query, text, byteAt, last) == 0
  {
  }

  /** What greedy matching still scores from the i-th character on, with k matches behind it. */
  function Left(query: string, text: string, bytes: seq<nat>, k: nat, i: nat): int
    requires k <= |query| && k <= |bytes| && i <= |text|
  {
    MatchScore(query[k..], text[i..], ByteAt(text, i), Last(bytes[..k]))
  }

  lemma MatchScores(query: string, text: string, bytes: seq<nat>, k: nat, i: nat)
    requires k < |query| && k < |bytes| && i < |text| && query[k] == text[i] && bytes[k] == ByteAt(text, i) && (i == 0 ==> k == 0)
    ensures Left(query, text, bytes, k, i) + Points(bytes[..k]) == Left(query, text, bytes, k + 1, i + 1) + Points(bytes[..k + 1])
  {
    ByteAtNext(text, i);
    MatchScoreAt(query, text, k, i, ByteAt(text, i), Last(bytes[..k]));
    assert bytes[..k + 1] == bytes[..k] + [bytes[k]];
    PointsGrow(bytes[..k], bytes[k]);
  }

  lemma OtherDoesNot(query: string, text: string, bytes: seq<nat>, k: nat, i: nat)
    requires k < |query| && k < |bytes| && i < |text| && Differ(text, i, query, k)
    ensures Left(query, text, bytes, k, i) == Left(query, text, bytes, k, i + 1)
  {
    ByteAtNext(text, i);
    MatchScoreAt(query, text, k, i, ByteAt(text, i), Last(bytes[..k]));
  }

  lemma {:induction false} ScoresFrom(query: string, text: string, at: seq<nat>, bytes: seq<nat>, k: nat, i: nat)
    requires Earliest(query, text, at) && Starts(text, at, bytes) && k <= |query| && i <= |text|
    requires (k > 0 ==> at[k - 1] < i) && (k < |query| ==> i <= at[k])
    ensures Left(query, text, bytes, k, i) + Points(bytes[..k]) == Points(bytes)
    decreases |text| - i
  {
    if k == |query| {
      NothingLeft(query[k..], text[i..], ByteAt(text, i), Last(bytes[..k]));
      assert bytes[..k] == bytes;
    } else if i == at[k] {
      MatchScores(query, text, bytes, k, i);
      ScoresFrom(query, text, at, bytes, k + 1, i + 1);
    } else {
      assert Differ(text, i, query, k);
      OtherDoesNot(query, text, bytes, k, i);
      ScoresFrom(query, text, at, bytes, k, i + 1);
    }
  }

  /** The greedy score is that of the earliest matches. */
  lemma MatchScoreIs(query: string, text: string, at: seq<nat>, bytes: seq<nat>)
    requires Earliest(query, text, at) && Starts(text, at, bytes)
    ensures Unmatched(query, text) == "" && MatchScore(query, text, 0, None) == Points(bytes)
  {
    GreedyMissesNothing(query, text, at);
    ScoresFrom(query, text, at, bytes, 0, 0);
    assert text[0..] == text && query[0..] == query && text[..0] == [] && bytes[..0] == [];
  }

  lemma StartsOf(text: string, at: seq<nat>) returns (bytes: seq<nat>)
    requires forall k | 0 <= k < |at| :: at[k] < |text|
    ensures Starts(text, at, bytes)
  {
    bytes := seq(|at|, k requires 0 <= k < |at| => ByteAt(text, at[k]));
  }

  /** The last of the parts between slashes. */
  lemma {:induction false} FileNameIs(path: string) returns (directory: string)
    ensures '/' !in FileName(path) && path == directory + FileName(path)
    ensures directory == "" || directory[|directory| - 1] == '/'
  {
    directory := "";
    if path != "" {
      var rest := FileNameIs(path[1..]);
      if rest != "" || path[0] == '/' {
        directory := [path[0]] + rest;
      }
      NameOfTail(path);
      assert path == [path[0]] + path[1..];
    }
  }

  lemma NameOfTail(path: string)
    requires path != ""
    ensures FileName(path) == if path[0] == '/' || '/' in path[1..] then FileName(path[1..]) else path
  {
    var rest := Strings.Split(path[1..], '/');
    if '/' !in path[1..] {
      Strings.SplitOne(path[1..], '/');
      assert path == [path[0]] + path[1..];
    } else if |rest| == 1 {
      Strings.JoinSplit(path[1..], '/');
    }
  }

  /** Points for the earliest matches, a hundred if the file name starts with the query, less an eighth of the bytes. */
  predicate ScoredBy(query: string, path: string, lower: string, score: int, at: seq<nat>, bytes: seq<nat>, directory: string, name: string) {
    && Earliest(query, lower, at) && Starts(lower, at, bytes)
    && lower == directory + name && '/' !in name && (directory == "" || directory[|directory| - 1] == '/')
    && score == Points(bytes) + (if query <= name then 100 else 0) - |Utf8.Encode(path)| / 8
  }

  ghost predicate Scored(query: string, path: string, lower: string, score: int) {
    exists at, bytes, directory, name :: ScoredBy(query, path, lower, score, at, bytes, directory, name)
  }

  lemma NotDeeper(a: string, name: string, b: string)
    requires b <= a + name && '/' !in name && (b == "" || b[|b| - 1] == '/')
    ensures |b| <= |a|
  {
    assert forall k | |a| <= k < |a + name| :: (a + name)[k] == name[k - |a|];
    assert b != "" ==> (a + name)[|b| - 1] == b[|b| - 1];
  }

  lemma NameIsUnique(a: string, name: string, b: string, other: string)
    requires a + name == b + other && '/' !in name && '/' !in other
    requires (a == "" || a[|a| - 1] == '/') && (b == "" || b[|b| - 1] == '/')
    ensures name == other
  {
    assert b <= b + other && a <= a + name;
    NotDeeper(a, name, b);
    NotDeeper(b, other, a);
    assert name == (a + name)[|a|..] && other == (b + other)[|b|..];
  }

  lemma NameIs(path: string, directory: string, name: string)
    requires path == directory + name && '/' !in name && (directory == "" || directory[|directory| - 1] == '/')
    ensures FileName(path) == name
  {
    var other := FileNameIs(path);
    NameIsUnique(other, FileName(path), directory, name);
  }

  lemma ScoreOfEarliest(query: string, path: string, lower: string, score: int, at: seq<nat>, bytes: seq<nat>, directory: string, name: string)
    requires ScoredBy(query, path, lower, score, at, bytes, directory, name)
    ensures Unmatched(query, lower) == "" && score == Score(query, path, lower)
  {
    MatchScoreIs(query, lower, at, bytes);
    NameIs(lower, directory, name);
  }

  lemma HasScore(query: string, path: string, lower: string)
    requires Unmatched(query, lower) == ""
    ensures Scored(query, path, lower, Score(query, path, lower))
  {
    var at := GreedyEmbeds(query, lower);
    var bytes := StartsOf(lower, at);
    MatchScoreIs(query, lower, at, bytes);
    var directory := FileNameIs(lower);
    assert ScoredBy(query, path, lower, Score(query, path, lower), at, bytes, directory, FileName(lower));
  }

  /** A path is scored exactly if the query is a subsequence, and has one score. */
  lemma ScoredIff(query: string, path: string, lower: string, score: int)
    ensures Scored(query, path, lower, score) <==> Unmatched(query, lower) == "" && score == Score(query, path, lower)
  {
    if Unmatched(query, lower) == "" {
      HasScore(query, path, lower);
    }
    if at, bytes, directory, name :| ScoredBy(query, path, lower, score, at, bytes, directory, name) {
      ScoreOfEarliest(query, path, lower, score, at, bytes, directory, name);
    }
  }

  /** How often a path is to be ranked with this score. */
  ghost function Occurrences(paths: seq<string>, query: string, lowercase: Lowercase, r: Ranked): nat {
    if Scored(query, r.path, lowercase(r.path), r.score) then multiset(paths)[r.path] else 0
  }

  lemma RankingCounts(path: string, query: string, lowercase: Lowercase, r: Ranked)
    ensures multiset(Ranking(path, query, lowercase))[r]
            == if path == r.path && Scored(query, r.path, lowercase(r.path), r.score) then 1 else 0
  {
    ScoredIff(query, path, lowercase(path), r.score);
  }

  lemma CountsAdd<T>(a: seq<T>, b: seq<T>, x: T)
    ensures multiset(a + b)[x] == multiset(a)[x] + multiset(b)[x]
  {
  }

  lemma OccurrencesGrow(front: seq<string>, last: string, query: string, lowercase: Lowercase, r: Ranked)
    ensures Occurrences(front + [last], query, lowercase, r)
            == Occurrences(front, query, lowercase, r) + if last == r.path && Scored(query, r.path, lowercase(r.path), r.score) then 1 else 0
  {
    CountsAdd(front, [last], r.path);
  }

  /** Each path is ranked as often as it is given, with its score, exactly if the query is a subsequence of it. */
  lemma {:induction false} RankedExactly(paths: seq<string>, query: string, lowercase: Lowercase, r: Ranked)
    ensures multiset(RankedPaths(paths, query, lowercase))[r] == Occurrences(paths, query, lowercase, r)
  {
    if paths != [] {
      var front, last := paths[..|paths| - 1], paths[|paths| - 1];
      RankedExactly(front, query, lowercase, r);
      RankingCounts(last, query, lowercase, r);
      CountsAdd(RankedPaths(front, query, lowercase), Ranking(last, query, lowercase), r);
      OccurrencesGrow(front, last, query, lowercase, r);
      assert paths == front + [last];
    }
  }

  lemma RankingOrder()
    ensures Order(Before)
  {
    forall a: Ranked, b: Ranked
      ensures Before(a, b) || Before(b, a)
      ensures Before(a, b) && Before(b, a) ==> a == b
      ensures Before(a, a)
    {
      LexTotal(Codes(a.path), Codes(b.path));
      LexTotal(Codes(a.path), Codes(a.path));
      if Codes(a.path) == Codes(b.path) {
        CodesDetermine(a.path, b.path);
      }
    }
    forall a: Ranked, b: Ranked, c: Ranked | Before(a, b) && Before(b, c)
      ensures Before(a, c)
    {
      if a.score == b.score == c.score {
        LexTransitive(Codes(a.path), Codes(b.path), Codes(c.path));
      }
    }
  }

  /** A higher score, or the path that comes first, byte by byte. */
  ghost predicate Outranks(a: Ranked, b: Ranked) {
    a.score > b.score || (a.score == b.score && (a.path == b.path || LexBefore(Codes(a.path), Codes(b.path))))
  }

  lemma BeforeOutranks(a: Ranked, b: Ranked)
    requires Before(a, b)
    ensures Outranks(a, b)
  {
    if Codes(a.path) == Codes(b.path) {
      CodesDetermine(a.path, b.path);
    } else if a.score == b.score {
      LexIsBefore(Codes(a.path), Codes(b.path));
    }
  }

  lemma CountOfPart<T>(s: seq<T>, n: nat, x: T)
    requires n <= |s|
    ensures multiset(s[..n])[x] <= multiset(s)[x]
    ensures multiset(s[..n])[x] < multiset(s)[x] ==> exists i :: n <= i < |s| && s[i] == x
  {
    assert s == s[..n] + s[n..];
    if multiset(s[n..])[x] > 0 {
      assert x in s[n..];
    }
  }

  lemma LeftOutIsOutranked(all: seq<Ranked>, n: nat, r: Ranked)
    requires Sorted(all, Before) && n <= |all|
    ensures multiset(all[..n])[r] <= multiset(all)[r]
    ensures multiset(all[..n])[r] < multiset(all)[r] ==> n < |all| && forall i | 0 <= i < n :: Outranks(all[i], r)
  {
    CountOfPart(all, n, r);
    if multiset(all[..n])[r] < multiset(all)[r] {
      var k :| n <= k < |all| && all[k] == r;
      forall i | 0 <= i < n
        ensures Outranks(all[i], r)
      {
        BeforeOutranks(all[i], all[k]);
      }
    }
  }

  /**
    The result lists at most a hundred matches, in rank order, each no more often than the path is
    given; what it leaves out ranks behind all of a full list.
   */
  lemma BestAreFirst(paths: seq<string>, query: string, lowercase: Lowercase) returns (top: seq<Ranked>)
    ensures |top| <= 100 && Best(paths, query, lowercase) == Paths(top)
    ensures forall i, j | 0 <= i < j < |top| :: Outranks(top[i], top[j])
    ensures forall r :: multiset(top)[r] <= Occurrences(paths, lowercase(query), lowercase, r)
    ensures forall r | multiset(top)[r] < Occurrences(paths, lowercase(query), lowercase, r) ::
              |top| == 100 && forall i | 0 <= i < |top| :: Outranks(top[i], r)
  {
    RankingOrder();
    var ranked := RankedPaths(paths, lowercase(query), lowercase);
    SortSorts(ranked, Before);
    var all := Sort(ranked, Before);
    var n := if |all| <= 100 then |all| else 100;
    top := all[..n];
    forall i, j | 0 <= i < j < |top|
      ensures Outranks(top[i], top[j])
    {
      BeforeOutranks(all[i], all[j]);
    }
    forall r
      ensures multiset(top)[r] <= Occurrences(paths, lowercase(query), lowercase, r)
      ensures multiset(top)[r] < Occurrences(paths, lowercase(query), lowercase, r) ==>
                |top| == 100 && forall i | 0 <= i < |top| :: Outranks(top[i], r)
    {
      RankedExactly(paths, lowercase(query), lowercase, r);
      LeftOutIsOutranked(all, n, r);
    }
  }

  lemma {:induction false} RankedAppends(a: seq<string>, b: seq<string>, query: string, lowercase: Lowercase)
    ensures RankedPaths(a + b, query, lowercase) == RankedPaths(a, query, lowercase) + RankedPaths(b, query, lowercase)
  {
    if b == [] {
      assert a + b == a;
    } else {
      var front := b[..|b| - 1];
      assert (a + b)[..|a + b| - 1] == a + front;
      RankedAppends(a, front, query, lowercase);
    }
  }

  lemma {:induction false} RankedIgnoresOrder(a: seq<string>, b: seq<string>, query: string, lowercase: Lowercase)
    requires multiset(a) == multiset(b)
    ensures multiset(RankedPaths(a, query, lowercase)) == multiset(RankedPaths(b, query, lowercase))
  {
    if a == [] {
      assert |multiset(b)| == 0;
    } else {
      var i := FindInPermutation(a, b);
      var l, r := b[..i], b[i + 1..];
      assert a == [a[0]] + a[1..] && b == (l + [a[0]]) + r;
      RankedIgnoresOrder(a[1..], l + r, query, lowercase);
      RankedAppends([a[0]], a[1..], query, lowercase);
      RankedAppends(l + [a[0]], r, query, lowercase);
      RankedAppends(l, [a[0]], query, lowercase);
      RankedAppends(l, r, query, lowercase);
    }
  }

  /** The ranking depends on which paths there are, not on the order they come in. */
  lemma BestIgnoresOrder(a: seq<string>, b: seq<string>, query: string, lowercase: Lowercase)
    requires multiset(a) == multiset(b)
    ensures Best(a, query, lowercase) == Best(b, query, lowercase)
  {
    RankedIgnoresOrder(a, b, lowercase(query), lowercase);
    RankingOrder();
    SortIgnoresOrder(RankedPaths(a, lowercase(query), lowercase), RankedPaths(b, lowercase(query), lowercase), Before);
  }
}
