/**
  Literal and whole-identifier search over the indexed documents.

  The reference search asks the matches of `match_indices`, which never overlap, for one that
  stands alone as an identifier.  `ScanIsCompleteIff` says for which queries that misses nothing.
 */
module Search {
  import opened Wrappers
  import opened Strings
  import opened Snapshots
  import opened SourceIndex
  import Sequences
  import TextLines
  import Utf8

  const MAX_QUERY: nat := 512
  const MAX_HITS: nat := 300
  const MAX_SHOWN: nat := 300

  /** Which characters are alphanumeric is Unicode's business; the program adds `_` and `$`. */
  type Alphanumeric = char -> bool

  predicate Ident(alnum: Alphanumeric, c: char) {
    alnum(c) || c == '_' || c == '$'
  }

  predicate OccursAt(text: string, query: string, p: int) {
    0 <= p && p + |query| <= |text| && text[p..p + |query|] == query
  }

  /** The occurrence at p is not part of a longer identifier. */
  predicate WholeAt(alnum: Alphanumeric, text: string, query: string, p: int) {
    && OccursAt(text, query, p)
    && (p == 0 || !Ident(alnum, text[p - 1]))
    && (p + |query| == |text| || !Ident(alnum, text[p + |query|]))
  }

  /** The first occurrence at or after `from`. */
  function NextMatch(text: string, query: string, from: nat): (m: Option<nat>)
    requires from <= |text|
    ensures m.Some? ==> from <= m.value && m.value + |query| <= |text|
    decreases |text| - from
  {
    if from + |query| > |text| then None
    else if OccursAt(text, query, from) then Some(from)
    else if from == |text| then None
    else NextMatch(text, query, from + 1)
  }

  lemma {:induction false} NextMatchIsFirst(text: string, query: string, from: nat)
    requires from <= |text|
    ensures var m := NextMatch(text, query, from);
            && (m.Some? ==> OccursAt(text, query, m.value) && forall p | from <= p < m.value :: !OccursAt(text, query, p))
            && (m.None? ==> forall p | from <= p :: !OccursAt(text, query, p))
    decreases |text| - from
  {
    if from + |query| <= |text| && !OccursAt(text, query, from) && from < |text| {
      NextMatchIsFirst(text, query, from + 1);
    }
  }

  lemma NextMatchOccurs(text: string, query: string, from: nat)
    requires from <= |text| && NextMatch(text, query, from).Some?
    ensures OccursAt(text, query, NextMatch(text, query, from).value)
  {
    NextMatchIsFirst(text, query, from);
  }

  /** The matches found from `from` on, each search starting where the last match ended. */
  function MatchIndices(text: string, query: string, from: nat): seq<nat>
    requires query != "" && from <= |text|
    decreases |text| - from
  {
    match NextMatch(text, query, from)
    case None => []
    case Some(m) => [m] + MatchIndices(text, query, m + |query|)
  }

  /** One of the matches from `from` on stands alone. */
  predicate FindsFrom(alnum: Alphanumeric, text: string, query: string, from: nat)
    requires query != "" && from <= |text|
    decreases |text| - from
  {
    match NextMatch(text, query, from)
    case None => false
    case Some(m) => WholeAt(alnum, text, query, m) || FindsFrom(alnum, text, query, m + |query|)
  }

  predicate ScanFinds(alnum: Alphanumeric, text: string, query: string)
    requires query != ""
  {
    FindsFrom(alnum, text, query, 0)
  }

  lemma {:induction false} FindsAmongMatches(alnum: Alphanumeric, text: string, query: string, from: nat)
    requires query != "" && from <= |text|
    ensures FindsFrom(alnum, text, query, from) <==>
            exists m | m in MatchIndices(text, query, from) :: WholeAt(alnum, text, query, m)
    decreases |text| - from
  {
    if NextMatch(text, query, from).Some? {
      var m := NextMatch(text, query, from).value;
      FindsAmongMatches(alnum, text, query, m + |query|);
      var rest := MatchIndices(text, query, m + |query|);
      assert MatchIndices(text, query, from) == [m] + rest;
      assert m in [m] + rest && forall x | x in rest :: x in [m] + rest;
    }
  }

  ghost predicate HoldsWhole(alnum: Alphanumeric, text: string, query: string) {
    exists p :: WholeAt(alnum, text, query, p)
  }

  method HasReference(alnum: Alphanumeric, text: string, query: string) returns (found: bool)
    requires query != ""
    ensures found <==> ScanFinds(alnum, text, query)
  {
    var from := 0;
    ghost var finds := ScanFinds(alnum, text, query);
    while true
      invariant from <= |text|
      invariant finds <==> FindsFrom(alnum, text, query, from)
      decreases |text| - from
    {
      var next := NextMatch(text, query, from);
      if next.None? {
        return false;
      }
      var start := next.value;
      NextMatchOccurs(text, query, from);
      if (start == 0 || !Ident(alnum, text[start - 1]))
         && (start + |query| == |text| || !Ident(alnum, text[start + |query|])) {
        return true;
      }
      from := start + |query|;
    }
  }

  // ----- When skipping overlapping matches loses nothing -----

  /** Two occurrences of the query can overlap at distance d. */
  predicate OverlapsAt(query: string, d: int) {
    0 < d < |query| && query[d..] == query[..|query| - d]
  }

  /** Wherever the query can overlap itself, the overlapped occurrence follows an identifier character. */
  ghost predicate OverlapsInsideIdentifiers(alnum: Alphanumeric, query: string) {
    forall d | OverlapsAt(query, d) :: Ident(alnum, query[d - 1])
  }

  lemma OverlapDistance(text: string, query: string, m: int, p: int)
    requires OccursAt(text, query, m) && OccursAt(text, query, p) && m < p < m + |query|
    ensures OverlapsAt(query, p - m) && text[p - 1] == query[p - m - 1]
  {
  }

  /** No other occurrence begins before p and reaches beyond it. */
  predicate NeverStraddled(text: string, query: string, p: int) {
    forall m | 0 <= m < p && p < m + |query| :: !OccursAt(text, query, m)
  }

  lemma WholeIsNeverStraddled(alnum: Alphanumeric, text: string, query: string, p: int)
    requires WholeAt(alnum, text, query, p) && OverlapsInsideIdentifiers(alnum, query)
    ensures NeverStraddled(text, query, p)
  {
    forall m | 0 <= m < p && p < m + |query|
      ensures !OccursAt(text, query, m)
    {
      if OccursAt(text, query, m) {
        OverlapDistance(text, query, m, p);
      }
    }
  }

  lemma FirstMatch(text: string, query: string, from: nat, p: nat)
    requires query != "" && from <= |text| && NextMatch(text, query, from).Some?
    ensures var m := NextMatch(text, query, from).value;
            p in MatchIndices(text, query, from) <==> p == m || p in MatchIndices(text, query, m + |query|)
  {
    var m := NextMatch(text, query, from).value;
    assert MatchIndices(text, query, from) == [m] + MatchIndices(text, query, m + |query|);
  }

  lemma {:induction false} NeverStraddledIsMatched(text: string, query: string, from: nat, p: int)
    requires query != "" && from <= p && OccursAt(text, query, p) && NeverStraddled(text, query, p)
    ensures p in MatchIndices(text, query, from)
    decreases |text| - from
  {
    NextMatchIsFirst(text, query, from);
    FirstMatch(text, query, from, p);
    var m := NextMatch(text, query, from).value;
    if m < p {
      NeverStraddledIsMatched(text, query, m + |query|, p);
    }
  }

  lemma NoWholeMatchIsSkipped(alnum: Alphanumeric, text: string, query: string, p: int)
    requires query != "" && WholeAt(alnum, text, query, p) && OverlapsInsideIdentifiers(alnum, query)
    ensures ScanFinds(alnum, text, query)
  {
    WholeIsNeverStraddled(alnum, text, query, p);
    NeverStraddledIsMatched(text, query, 0, p);
    FindsAmongMatches(alnum, text, query, 0);
  }

  /** Behind a mark and its own first part, the query stands where it overlaps itself. */
  lemma OverlappingText(mark: char, query: string, d: int)
    requires OverlapsAt(query, d) && mark != query[0]
    ensures var text := [mark] + query[..d] + query;
            && !OccursAt(text, query, 0) && OccursAt(text, query, 1) && OccursAt(text, query, 1 + d)
            && text[0] == mark && text[d] == query[d - 1]
  {
  }

  lemma OnlyFirstMatch(text: string, query: string, d: nat)
    requires query != "" && d < |query| && |text| == 1 + d + |query|
    requires !OccursAt(text, query, 0) && OccursAt(text, query, 1)
    ensures MatchIndices(text, query, 0) == [1]
  {
    NextMatchIsFirst(text, query, 0);
    assert NextMatch(text, query, 0) == Some(1);
    assert NextMatch(text, query, 1 + |query|) == None;
    assert MatchIndices(text, query, 1 + |query|) == [];
  }

  /** A text whose only whole occurrence of the query overlaps an earlier match. */
  lemma SkippedOccurrence(alnum: Alphanumeric, query: string, d: int) returns (text: string)
    requires OverlapsAt(query, d) && !Ident(alnum, query[d - 1])
    ensures HoldsWhole(alnum, text, query) && !ScanFinds(alnum, text, query)
  {
    var mark := if query[0] == '_' then '$' else '_';
    text := [mark] + query[..d] + query;
    OverlappingText(mark, query, d);
    OnlyFirstMatch(text, query, d);
    FindsAmongMatches(alnum, text, query, 0);
    assert WholeAt(alnum, text, query, 1 + d);
  }

  /** Two dots are such a query, wherever a dot is not alphanumeric. */
  lemma TwoDotsAreMissed(alnum: Alphanumeric) returns (text: string)
    requires !alnum('.')
    ensures HoldsWhole(alnum, text, "..") && !ScanFinds(alnum, text, "..")
  {
    var query := "..";
    assert query[1..] == "." == query[..1];
    text := SkippedOccurrence(alnum, query, 1);
  }

  /**
    Looking only at non-overlapping matches finds a whole-identifier occurrence in every text that
    has one, exactly for the queries whose overlaps all follow an identifier character.
   */
  lemma ScanIsCompleteIff(alnum: Alphanumeric, query: string)
    requires query != ""
    ensures OverlapsInsideIdentifiers(alnum, query) <==>
            forall text :: ScanFinds(alnum, text, query) <==> HoldsWhole(alnum, text, query)
  {
    if OverlapsInsideIdentifiers(alnum, query) {
      forall text
        ensures ScanFinds(alnum, text, query) <==> HoldsWhole(alnum, text, query)
      {
        FindsAmongMatches(alnum, text, query, 0);
        if HoldsWhole(alnum, text, query) {
          var p :| WholeAt(alnum, text, query, p);
          NoWholeMatchIsSkipped(alnum, text, query, p);
        }
      }
    } else {
      var d :| OverlapsAt(query, d) && !Ident(alnum, query[d - 1]);
      var text := SkippedOccurrence(alnum, query, d);
      assert ScanFinds(alnum, text, query) != HoldsWhole(alnum, text, query);
    }
  }

  /** For an identifier the reference search marks exactly the lines that hold it as a whole. */
  lemma IdentifierScanIsComplete(alnum: Alphanumeric, query: string, text: string)
    requires query != "" && forall c | c in query :: Ident(alnum, c)
    ensures ScanFinds(alnum, text, query) <==> HoldsWhole(alnum, text, query)
  {
    assert OverlapsInsideIdentifiers(alnum, query);
    ScanIsCompleteIff(alnum, query);
  }

  // ----- Searching the index -----

  datatype Location = Location(path: string, line: nat, text: string, kind: string)
  datatype Found = Found(locations: seq<Location>, complete: bool, truncated: bool)

  function TextOf(doc: SourceIndex.Documents.Document): string {
    var text := Utf8.Decode(doc.text);
    if text.Some? then text.value else ""
  }

  function LinesOf(source: Source): seq<string> {
    TextLines.StrLines(TextOf(source.doc), '\n', '\r')
  }

  predicate Matches(alnum: Alphanumeric, line: string, query: string, reference: bool)
    requires query != ""
  {
    if reference then ScanFinds(alnum, line, query) else NextMatch(line, query, 0).Some?
  }

  function Hit(path: string, n: nat, line: string, reference: bool): Location {
    Location(path, n + 1, TextLines.Take(line, MAX_SHOWN), if reference then "text reference candidate" else "text match")
  }

  /** The hits on the first n lines of a document. */
  function LineHits(alnum: Alphanumeric, path: string, lines: seq<string>, query: string, reference: bool, n: nat): seq<Location>
    requires query != "" && n <= |lines|
  {
    if n == 0 then []
    else
      var line := lines[n - 1];
      LineHits(alnum, path, lines, query, reference, n - 1)
      + if Matches(alnum, line, query, reference) then [Hit(path, n - 1, line, reference)] else []
  }

  function DocumentHits(alnum: Alphanumeric, source: Source, query: string, reference: bool): seq<Location>
    requires query != ""
  {
    LineHits(alnum, source.path, LinesOf(source), query, reference, |LinesOf(source)|)
  }

  /** Every hit in every document, in order. */
  function AllHits(alnum: Alphanumeric, documents: seq<Source>, query: string, reference: bool): seq<Location>
    requires query != ""
  {
    Sequences.FlatMap(documents, d => DocumentHits(alnum, d, query, reference))
  }

  predicate Blank(query: string) {
    forall k | 0 <= k < |query| :: White(query[k])
  }

  /** The answer to a search of what a reader of the index sees. */
  function Searched(alnum: Alphanumeric, seen: Seen, query: string, reference: bool): Result<Found, string> {
    if Blank(query) then Ok(Found([], false, false))
    else if Utf8.ByteLength(query) > MAX_QUERY then Err("Search query exceeds 512 bytes.")
    else
      var hits := AllHits(alnum, seen.progress.documents, query, reference);
      Ok(Found(TextLines.Take(hits, MAX_HITS), seen.done && seen.progress.skipped == 0, |hits| > MAX_HITS))
  }

  /** The first 300 hits; `truncated` tells whether there is one more. */
  method Search(alnum: Alphanumeric, index: Index, query: string, reference: bool) returns (r: Result<Found, string>)
    ensures r == Searched(alnum, Seen(index.View(), index.done), query, reference)
    ensures Blank(query) ==> r == Ok(Found([], false, false))
    ensures !Blank(query) ==> (r.Err? <==> Utf8.ByteLength(query) > MAX_QUERY)
    ensures !Blank(query) && r.Ok? ==>
              var hits := AllHits(alnum, index.documents, query, reference);
              && r.value.locations == TextLines.Take(hits, MAX_HITS)
              && (r.value.truncated <==> |hits| > MAX_HITS)
              && (r.value.complete <==> index.done && index.skipped == 0)
  {
    if Blank(query) {
      return Ok(Found([], false, false));
    }
    if Utf8.ByteLength(query) > MAX_QUERY {
      return Err("Search query exceeds 512 bytes.");
    }
    var locations, truncated := ScanDocuments(alnum, index.documents, query, reference);
    return Ok(Found(locations, index.done && index.skipped == 0, truncated));
  }

  method ScanDocuments(alnum: Alphanumeric, documents: seq<Source>, query: string, reference: bool)
    returns (locations: seq<Location>, truncated: bool)
    requires query != ""
    ensures locations == TextLines.Take(AllHits(alnum, documents, query, reference), MAX_HITS)
    ensures truncated <==> |AllHits(alnum, documents, query, reference)| > MAX_HITS
  {
    locations, truncated := [], false;
    for d := 0 to |documents|
      invariant |locations| <= MAX_HITS && !truncated && locations == AllHits(alnum, documents[..d], query, reference)
    {
      assert documents[..d + 1][..d] == documents[..d];
      AllHitsGrow(alnum, documents, query, reference, d + 1);
      locations, truncated := ScanLines(alnum, documents[d].path, LinesOf(documents[d]), query, reference, locations);
      if truncated {
        return;
      }
    }
    assert documents[..|documents|] == documents;
  }

  method LineMatches(alnum: Alphanumeric, line: string, query: string, reference: bool) returns (found: bool)
    requires query != ""
    ensures found <==> Matches(alnum, line, query, reference)
  {
    if reference {
      found := HasReference(alnum, line, query);
    } else {
      found := NextMatch(line, query, 0).Some?;
    }
  }

  /** Adds the hits of one document, unless a hit is met when 300 are there already. */
  method ScanLines(alnum: Alphanumeric, path: string, lines: seq<string>, query: string, reference: bool, seen: seq<Location>)
    returns (locations: seq<Location>, full: bool)
    requires query != "" && |seen| <= MAX_HITS
    ensures |locations| <= MAX_HITS
    ensures var hits := seen + LineHits(alnum, path, lines, query, reference, |lines|);
            if full then |locations| == MAX_HITS && locations < hits else locations == hits
  {
    locations, full := seen, false;
    for n := 0 to |lines|
      invariant |locations| <= MAX_HITS && locations == seen + LineHits(alnum, path, lines, query, reference, n)
    {
      OneLineMore(alnum, path, lines, query, reference, n, seen);
      var found := LineMatches(alnum, lines[n], query, reference);
      if found {
        if |locations| == MAX_HITS {
          OneHitTooMany(alnum, path, lines, query, reference, seen, n);
          return locations, true;
        }
        locations := locations + [Hit(path, n, lines[n], reference)];
      }
    }
  }

  lemma OneLineMore(alnum: Alphanumeric, path: string, lines: seq<string>, query: string, reference: bool, n: nat, seen: seq<Location>)
    requires query != "" && n < |lines|
    ensures var before, line := LineHits(alnum, path, lines, query, reference, n), lines[n];
            seen + LineHits(alnum, path, lines, query, reference, n + 1)
            == if Matches(alnum, line, query, reference) then (seen + before) + [Hit(path, n, line, reference)]
               else seen + before
  {
  }

  lemma {:induction false} LineHitsGrow(alnum: Alphanumeric, path: string, lines: seq<string>, query: string, reference: bool, n: nat, m: nat)
    requires query != "" && n <= m <= |lines|
    ensures LineHits(alnum, path, lines, query, reference, n) <= LineHits(alnum, path, lines, query, reference, m)
    decreases m
  {
    if n < m {
      LineHitsGrow(alnum, path, lines, query, reference, n, m - 1);
      var before := LineHits(alnum, path, lines, query, reference, m - 1);
      assert before <= LineHits(alnum, path, lines, query, reference, m);
    }
  }

  lemma OneHitTooMany(alnum: Alphanumeric, path: string, lines: seq<string>, query: string, reference: bool, seen: seq<Location>, n: nat)
    requires query != "" && n < |lines| && Matches(alnum, lines[n], query, reference)
    ensures seen + LineHits(alnum, path, lines, query, reference, n) < seen + LineHits(alnum, path, lines, query, reference, |lines|)
  {
    LineHitsGrow(alnum, path, lines, query, reference, n + 1, |lines|);
    var before, after := LineHits(alnum, path, lines, query, reference, n), LineHits(alnum, path, lines, query, reference, |lines|);
    assert before < after;
  }

  lemma AllHitsGrow(alnum: Alphanumeric, documents: seq<Source>, query: string, reference: bool, d: nat)
    requires query != "" && d <= |documents|
    ensures AllHits(alnum, documents[..d], query, reference) <= AllHits(alnum, documents, query, reference)
  {
    assert documents == documents[..d] + documents[d..];
    AllHitsAppends(alnum, documents[..d], documents[d..], query, reference);
  }

  // ----- What a complete search says about the snapshot -----

  /** The document holds the line at 0-based position n, the line matches, and h is its hit. */
  predicate HitAt(alnum: Alphanumeric, path: string, lines: seq<string>, query: string, reference: bool, n: nat, h: Location)
    requires query != ""
  {
    && n < |lines|
    && Matches(alnum, lines[n], query, reference)
    && h == Hit(path, n, lines[n], reference)
  }

  lemma LastLineHits(alnum: Alphanumeric, path: string, lines: seq<string>, query: string, reference: bool, m: nat, h: Location)
    requires query != "" && 0 < m <= |lines|
    ensures h in LineHits(alnum, path, lines, query, reference, m) <==>
            h in LineHits(alnum, path, lines, query, reference, m - 1) || HitAt(alnum, path, lines, query, reference, m - 1, h)
  {
  }

  ghost predicate HitBefore(alnum: Alphanumeric, path: string, lines: seq<string>, query: string, reference: bool, m: nat, h: Location)
    requires query != ""
  {
    exists n: nat :: n < m && HitAt(alnum, path, lines, query, reference, n, h)
  }

  lemma HitBeforeNext(alnum: Alphanumeric, path: string, lines: seq<string>, query: string, reference: bool, m: nat, h: Location)
    requires query != ""
    ensures HitBefore(alnum, path, lines, query, reference, m + 1, h) <==>
            HitBefore(alnum, path, lines, query, reference, m, h) || HitAt(alnum, path, lines, query, reference, m, h)
  {
  }

  /** The hits of a document are those of its matching lines. */
  lemma {:induction false} LineHitsMembers(alnum: Alphanumeric, path: string, lines: seq<string>, query: string, reference: bool, m: nat, h: Location)
    requires query != "" && m <= |lines|
    ensures h in LineHits(alnum, path, lines, query, reference, m) <==> HitBefore(alnum, path, lines, query, reference, m, h)
  {
    if m > 0 {
      LineHitsMembers(alnum, path, lines, query, reference, m - 1, h);
      LastLineHits(alnum, path, lines, query, reference, m, h);
      HitBeforeNext(alnum, path, lines, query, reference, m - 1, h);
    }
  }

  lemma AllHitsMembers(alnum: Alphanumeric, documents: seq<Source>, query: string, reference: bool, h: Location)
    requires query != ""
    ensures h in AllHits(alnum, documents, query, reference) <==>
            exists d | d in documents :: h in DocumentHits(alnum, d, query, reference)
  {
    Sequences.FlatMapMembers(documents, d => DocumentHits(alnum, d, query, reference), h);
  }

  lemma SourcesMembers(entries: seq<Entry>, load: Entry -> Loaded)
    requires FullyIndexable(entries, load)
    ensures forall e | e in entries :: Indexable(e, load) && SourceOf(e, load) in Sources(entries, load)
    ensures forall d | d in Sources(entries, load) :: exists e | e in entries :: d == SourceOf(e, load)
  {
  }

  /**
    When the indexer went through the whole snapshot and skipped nothing, a search that is not
    truncated returns exactly the matching lines of the snapshot's files.
   */
  lemma CompleteSearchCoversSnapshot(alnum: Alphanumeric, snapshot: seq<Entry>, priority: Entry -> int,
                                     load: Entry -> Loaded, query: string, reference: bool, h: Location)
    requires query != "" && IndexAll(Ordered(snapshot, priority), load).skipped == 0
    ensures forall e | e in snapshot :: Indexable(e, load)
    ensures h in AllHits(alnum, IndexAll(Ordered(snapshot, priority), load).documents, query, reference) <==>
            exists e, n: nat :: e in snapshot && HitAt(alnum, e.path, LinesOf(SourceOf(e, load)), query, reference, n, h)
  {
    var entries := Ordered(snapshot, priority);
    NothingSkippedIff(entries, load);
    Sequences.SameMembers(entries, snapshot);
    SourcesMembers(entries, load);
    AllHitsMembers(alnum, Sources(entries, load), query, reference, h);
    forall e | e in snapshot
      ensures h in DocumentHits(alnum, SourceOf(e, load), query, reference) <==>
              exists n: nat :: HitAt(alnum, e.path, LinesOf(SourceOf(e, load)), query, reference, n, h)
    {
      var source := SourceOf(e, load);
      LineHitsMembers(alnum, source.path, LinesOf(source), query, reference, |LinesOf(source)|, h);
    }
  }

  /** What a line is looked for to hold: the query, or the query as a whole identifier. */
  ghost predicate Holds(alnum: Alphanumeric, line: string, query: string, reference: bool) {
    if reference then HoldsWhole(alnum, line, query) else exists p :: OccursAt(line, query, p)
  }

  lemma MatchesIffHolds(alnum: Alphanumeric, line: string, query: string, reference: bool)
    requires query != "" && (reference ==> OverlapsInsideIdentifiers(alnum, query))
    ensures Matches(alnum, line, query, reference) <==> Holds(alnum, line, query, reference)
  {
    if reference {
      ScanIsCompleteIff(alnum, query);
    } else {
      NextMatchIsFirst(line, query, 0);
      if Matches(alnum, line, query, reference) {
        assert OccursAt(line, query, NextMatch(line, query, 0).value);
      }
    }
  }

  lemma CompleteIsLast(alnum: Alphanumeric, snapshot: seq<Entry>, priority: Entry -> int, load: Entry -> Loaded,
                       cancelled: nat -> bool, reached: nat, observable: seq<Seen>, m: nat, query: string, reference: bool)
    requires Indexing(snapshot, priority, load, cancelled, reached, observable) && m < |observable|
    requires Searched(alnum, observable[m], query, reference).Ok?
    requires Searched(alnum, observable[m], query, reference).value.complete
    ensures m == reached + 1 && !Blank(query)
    ensures observable[m].progress == IndexAll(Ordered(snapshot, priority)[..reached], load)
    ensures observable[m].progress.skipped == 0
  {
    if m <= reached {
      NotDoneBefore(observable, Ordered(snapshot, priority), load, reached, m);
    }
  }

  lemma NotDoneBefore(observable: seq<Seen>, entries: seq<Entry>, load: Entry -> Loaded, reached: nat, m: nat)
    requires Observed(observable, entries, load, reached) && m <= reached
    ensures !observable[m].done
  {
    assert observable[..reached + 1][m] == observable[m];
  }

  /**
    Whenever a reader searches while an indexer that is not cancelled runs: if the answer reports
    itself complete and not truncated, its locations are exactly the lines of the snapshot's files
    that hold the query.  A reference search needs a query that is never missed, as identifiers are.
   */
  lemma CompleteSearchIsExact(alnum: Alphanumeric, snapshot: seq<Entry>, priority: Entry -> int, load: Entry -> Loaded,
                              cancelled: nat -> bool, reached: nat, observable: seq<Seen>, m: nat,
                              query: string, reference: bool, h: Location)
    requires Indexing(snapshot, priority, load, cancelled, reached, observable) && m < |observable|
    requires forall k :: !cancelled(k)
    requires reference ==> OverlapsInsideIdentifiers(alnum, query)
    requires Searched(alnum, observable[m], query, reference).Ok?
    ensures var found := Searched(alnum, observable[m], query, reference).value;
            found.complete && !found.truncated ==>
              && (forall e | e in snapshot :: Indexable(e, load))
              && (h in found.locations <==>
                    exists e, n: nat :: e in snapshot && n < |LinesOf(SourceOf(e, load))|
                      && Holds(alnum, LinesOf(SourceOf(e, load))[n], query, reference)
                      && h == Hit(e.path, n, LinesOf(SourceOf(e, load))[n], reference))
  {
    var found := Searched(alnum, observable[m], query, reference).value;
    if found.complete && !found.truncated {
      CompleteIsLast(alnum, snapshot, priority, load, cancelled, reached, observable, m, query, reference);
      var entries := Ordered(snapshot, priority);
      assert entries[..reached] == entries;
      CompleteSearchCoversSnapshot(alnum, snapshot, priority, load, query, reference, h);
      forall e, n: nat | e in snapshot && n < |LinesOf(SourceOf(e, load))|
        ensures HitAt(alnum, e.path, LinesOf(SourceOf(e, load)), query, reference, n, h) <==>
                && Holds(alnum, LinesOf(SourceOf(e, load))[n], query, reference)
                && h == Hit(e.path, n, LinesOf(SourceOf(e, load))[n], reference)
      {
        MatchesIffHolds(alnum, LinesOf(SourceOf(e, load))[n], query, reference);
      }
    }
  }

  // ----- What it says after a cancellation -----

  /** Some line of the document matches. */
  ghost predicate HasMatch(alnum: Alphanumeric, source: Source, query: string, reference: bool)
    requires query != ""
  {
    exists n: nat :: MatchesAt(alnum, LinesOf(source), query, reference, n)
  }

  function HitsUpTo(alnum: Alphanumeric, path: string, lines: seq<string>, query: string, reference: bool, n: nat): seq<Location>
    requires query != ""
  {
    if n <= |lines| then LineHits(alnum, path, lines, query, reference, n) else []
  }

  predicate MatchesAt(alnum: Alphanumeric, lines: seq<string>, query: string, reference: bool, n: nat)
    requires query != ""
  {
    n < |lines| && Matches(alnum, lines[n], query, reference)
  }

  lemma NoLineHitsIff(alnum: Alphanumeric, path: string, lines: seq<string>, query: string, reference: bool, m: nat)
    requires query != "" && m <= |lines|
    ensures LineHits(alnum, path, lines, query, reference, m) == [] <==>
            forall n: nat | n < m :: !MatchesAt(alnum, lines, query, reference, n)
  {
    forall n: nat | n < m
      ensures HitsUpTo(alnum, path, lines, query, reference, n + 1) == [] <==>
              HitsUpTo(alnum, path, lines, query, reference, n) == [] && !MatchesAt(alnum, lines, query, reference, n)
    {
      LineHitsNext(alnum, path, lines, query, reference, n);
    }
    NoneYetIff((n: nat) => HitsUpTo(alnum, path, lines, query, reference, n),
               (n: nat) => MatchesAt(alnum, lines, query, reference, n), m);
  }

  lemma {:induction false} NoneYetIff(hits: nat -> seq<Location>, matches: nat -> bool, m: nat)
    requires hits(0) == [] && forall n: nat | n < m :: hits(n + 1) == [] <==> hits(n) == [] && !matches(n)
    ensures hits(m) == [] <==> forall n: nat | n < m :: !matches(n)
  {
    if m > 0 {
      NoneYetIff(hits, matches, m - 1);
    }
  }

  lemma LineHitsNext(alnum: Alphanumeric, path: string, lines: seq<string>, query: string, reference: bool, n: nat)
    requires query != "" && n < |lines|
    ensures LineHits(alnum, path, lines, query, reference, n + 1) == [] <==>
            LineHits(alnum, path, lines, query, reference, n) == [] && !Matches(alnum, lines[n], query, reference)
  {
  }

  lemma AllHitsAppends(alnum: Alphanumeric, a: seq<Source>, b: seq<Source>, query: string, reference: bool)
    requires query != ""
    ensures AllHits(alnum, a + b, query, reference) == AllHits(alnum, a, query, reference) + AllHits(alnum, b, query, reference)
  {
    Sequences.FlatMapAppends(a, b, d => DocumentHits(alnum, d, query, reference));
  }

  ghost predicate NoneMatches(alnum: Alphanumeric, documents: seq<Source>, query: string, reference: bool)
    requires query != ""
  {
    forall d | d in documents :: !HasMatch(alnum, d, query, reference)
  }

  lemma DocumentHitsNoneIff(alnum: Alphanumeric, source: Source, query: string, reference: bool)
    requires query != ""
    ensures DocumentHits(alnum, source, query, reference) == [] <==> !HasMatch(alnum, source, query, reference)
  {
    NoLineHitsIff(alnum, source.path, LinesOf(source), query, reference, |LinesOf(source)|);
  }

  lemma NoHitsIff(alnum: Alphanumeric, documents: seq<Source>, query: string, reference: bool)
    requires query != ""
    ensures AllHits(alnum, documents, query, reference) == [] <==> NoneMatches(alnum, documents, query, reference)
  {
    Sequences.FlatMapEmptyIff(documents, d => DocumentHits(alnum, d, query, reference));
    forall d | d in documents
      ensures DocumentHits(alnum, d, query, reference) == [] <==> !HasMatch(alnum, d, query, reference)
    {
      DocumentHitsNoneIff(alnum, d, query, reference);
    }
  }

  /** An entry that the indexer did not get to and that can be read. */
  predicate Unreached(entries: seq<Entry>, load: Entry -> Loaded, reached: nat, k: nat) {
    reached <= k < |entries| && load(entries[k]).Ok?
  }

  /**
    With nothing skipped so far, the hits in the index are those of the whole snapshot exactly if no
    entry that was not reached holds a matching line.
   */
  lemma IndexedHitsAreAllIff(alnum: Alphanumeric, entries: seq<Entry>, load: Entry -> Loaded, reached: nat,
                             query: string, reference: bool)
    requires query != "" && reached <= |entries| && IndexAll(entries[..reached], load).skipped == 0
    ensures AllHits(alnum, IndexAll(entries[..reached], load).documents, query, reference)
            == AllHits(alnum, Readable(entries, load), query, reference) <==>
            forall k: nat | Unreached(entries, load, reached, k) ::
              !HasMatch(alnum, Source(entries[k].path, load(entries[k]).value), query, reference)
  {
    var before, behind := Readable(entries[..reached], load), Readable(entries[reached..], load);
    NothingSkippedIsReadable(entries[..reached], load);
    ReadableHitsSplit(alnum, entries, load, reached, query, reference);
    Sequences.SameWithout(AllHits(alnum, before, query, reference), AllHits(alnum, behind, query, reference));
    NoHitsIff(alnum, behind, query, reference);
    UnreachedAreBehind(alnum, entries, load, reached, query, reference);
  }

  lemma ReadableHitsSplit(alnum: Alphanumeric, entries: seq<Entry>, load: Entry -> Loaded, reached: nat,
                          query: string, reference: bool)
    requires query != "" && reached <= |entries|
    ensures AllHits(alnum, Readable(entries, load), query, reference) ==
            AllHits(alnum, Readable(entries[..reached], load), query, reference)
            + AllHits(alnum, Readable(entries[reached..], load), query, reference)
  {
    assert entries == entries[..reached] + entries[reached..];
    ReadableAppends(entries[..reached], entries[reached..], load);
    AllHitsAppends(alnum, Readable(entries[..reached], load), Readable(entries[reached..], load), query, reference);
  }

  lemma UnreachedAreBehind(alnum: Alphanumeric, entries: seq<Entry>, load: Entry -> Loaded, reached: nat,
                           query: string, reference: bool)
    requires query != "" && reached <= |entries|
    ensures NoneMatches(alnum, Readable(entries[reached..], load), query, reference) <==>
            forall k: nat | Unreached(entries, load, reached, k) ::
              !HasMatch(alnum, Source(entries[k].path, load(entries[k]).value), query, reference)
  {
    var behind := entries[reached..];
    ReadableMembers(behind, load);
    forall k: nat | Unreached(entries, load, reached, k)
      ensures Source(entries[k].path, load(entries[k]).value) in Readable(behind, load)
    {
      assert behind[k - reached] == entries[k];
    }
    forall d | d in Readable(behind, load)
      ensures exists k: nat :: Unreached(entries, load, reached, k) && d == Source(entries[k].path, load(entries[k]).value)
    {
      var e :| e in behind && load(e).Ok? && d == Source(e.path, load(e).value);
      var i :| 0 <= i < |behind| && behind[i] == e;
      assert entries[reached + i] == e && Unreached(entries, load, reached, reached + i);
    }
  }

  /**
    A cancelled indexer also reports itself done.  An answer that then calls itself complete and not
    truncated lists every hit of the snapshot exactly if no entry that was not reached holds a
    matching line.
   */
  lemma CompleteSearchIsRightIff(alnum: Alphanumeric, snapshot: seq<Entry>, priority: Entry -> int, load: Entry -> Loaded,
                                 cancelled: nat -> bool, reached: nat, observable: seq<Seen>, m: nat,
                                 query: string, reference: bool)
    requires Indexing(snapshot, priority, load, cancelled, reached, observable) && m < |observable|
    requires Searched(alnum, observable[m], query, reference).Ok?
    ensures var found, entries := Searched(alnum, observable[m], query, reference).value, Ordered(snapshot, priority);
            found.complete && !found.truncated ==>
              && query != ""
              && (found.locations == AllHits(alnum, Readable(entries, load), query, reference) <==>
                    forall k: nat | Unreached(entries, load, reached, k) ::
                      !HasMatch(alnum, Source(entries[k].path, load(entries[k]).value), query, reference))
  {
    var found := Searched(alnum, observable[m], query, reference).value;
    if found.complete && !found.truncated {
      CompleteIsLast(alnum, snapshot, priority, load, cancelled, reached, observable, m, query, reference);
      IndexedHitsAreAllIff(alnum, Ordered(snapshot, priority), load, reached, query, reference);
    }
  }

  /** The hits in the index are those of the snapshot for every query a search takes. */
  ghost predicate AllAnswersRight(alnum: Alphanumeric, entries: seq<Entry>, load: Entry -> Loaded, reached: nat)
    requires reached <= |entries|
  {
    forall query, reference | !Blank(query) && Utf8.ByteLength(query) <= MAX_QUERY ::
      AllHits(alnum, IndexAll(entries[..reached], load).documents, query, reference)
      == AllHits(alnum, Readable(entries, load), query, reference)
  }

  ghost predicate OnlyBlankLines(source: Source) {
    forall n: nat | n < |LinesOf(source)| :: Blank(LinesOf(source)[n])
  }

  lemma MatchOccurs(alnum: Alphanumeric, line: string, query: string, reference: bool) returns (p: int)
    requires query != "" && Matches(alnum, line, query, reference)
    ensures OccursAt(line, query, p)
  {
    FindsAmongMatches(alnum, line, query, 0);
    NextMatchIsFirst(line, query, 0);
    if reference {
      var m :| m in MatchIndices(line, query, 0) && WholeAt(alnum, line, query, m);
      p := m;
    } else {
      p := NextMatch(line, query, 0).value;
    }
  }

  lemma BlankLineHoldsBlank(line: string, query: string, p: int)
    requires Blank(line) && OccursAt(line, query, p)
    ensures Blank(query)
  {
    forall k | 0 <= k < |query|
      ensures White(query[k])
    {
      assert line[p..p + |query|][k] == line[p + k];
    }
  }

  lemma BlankLineHasNoMatch(alnum: Alphanumeric, line: string, query: string, reference: bool)
    requires !Blank(query) && Blank(line)
    ensures !Matches(alnum, line, query, reference)
  {
    if Matches(alnum, line, query, reference) {
      var p := MatchOccurs(alnum, line, query, reference);
      BlankLineHoldsBlank(line, query, p);
    }
  }

  lemma LineIsFound(alnum: Alphanumeric, line: string) returns (query: string)
    requires !Blank(line)
    ensures !Blank(query) && Utf8.ByteLength(query) <= MAX_QUERY && Matches(alnum, line, query, false)
  {
    var k :| 0 <= k < |line| && !White(line[k]);
    query := [line[k]];
    assert OccursAt(line, query, k);
    NextMatchIsFirst(line, query, 0);
    assert Utf8.Encode(query[1..]) == [];
  }

  /** That is so for every query exactly if the entries that were not reached hold nothing but blank lines. */
  lemma AllAnswersRightIff(alnum: Alphanumeric, entries: seq<Entry>, load: Entry -> Loaded, reached: nat)
    requires reached <= |entries| && IndexAll(entries[..reached], load).skipped == 0
    ensures AllAnswersRight(alnum, entries, load, reached) <==>
            forall k: nat | Unreached(entries, load, reached, k) ::
              OnlyBlankLines(Source(entries[k].path, load(entries[k]).value))
  {
    if AllAnswersRight(alnum, entries, load, reached) {
      forall k: nat | Unreached(entries, load, reached, k)
        ensures OnlyBlankLines(Source(entries[k].path, load(entries[k]).value))
      {
        var source := Source(entries[k].path, load(entries[k]).value);
        forall n: nat | n < |LinesOf(source)|
          ensures Blank(LinesOf(source)[n])
        {
          if !Blank(LinesOf(source)[n]) {
            var query := LineIsFound(alnum, LinesOf(source)[n]);
            IndexedHitsAreAllIff(alnum, entries, load, reached, query, false);
            assert MatchesAt(alnum, LinesOf(source), query, false, n);
          }
        }
      }
    }
    if forall k: nat | Unreached(entries, load, reached, k) :: OnlyBlankLines(Source(entries[k].path, load(entries[k]).value)) {
      forall query, reference | !Blank(query) && Utf8.ByteLength(query) <= MAX_QUERY
        ensures AllHits(alnum, IndexAll(entries[..reached], load).documents, query, reference)
                == AllHits(alnum, Readable(entries, load), query, reference)
      {
        forall k: nat | Unreached(entries, load, reached, k)
          ensures !HasMatch(alnum, Source(entries[k].path, load(entries[k]).value), query, reference)
        {
          var source := Source(entries[k].path, load(entries[k]).value);
          forall n: nat | n < |LinesOf(source)|
            ensures !MatchesAt(alnum, LinesOf(source), query, reference, n)
          {
            BlankLineHasNoMatch(alnum, LinesOf(source)[n], query, reference);
          }
        }
        IndexedHitsAreAllIff(alnum, entries, load, reached, query, reference);
      }
    }
  }

  /** What readers see of an indexer that is cancelled before its first entry. */
  function CancelledAtOnce(): seq<Seen> {
    [Seen(NOTHING, false), Seen(NOTHING, true)]
  }

  /** Its empty index answers every query with nothing and calls that complete. */
  lemma CancelledAtOnceFindsNothing(alnum: Alphanumeric, snapshot: seq<Entry>, priority: Entry -> int, load: Entry -> Loaded,
                                    query: string, reference: bool)
    requires !Blank(query) && Utf8.ByteLength(query) <= MAX_QUERY
    ensures Indexing(snapshot, priority, load, _ => true, 0, CancelledAtOnce())
    ensures Searched(alnum, CancelledAtOnce()[1], query, reference) == Ok(Found([], true, false))
  {
    assert Ordered(snapshot, priority)[..0] == [];
    assert CancelledAtOnce()[..1] == [Seen(NOTHING, false)];
  }

  lemma LetterIsFound(alnum: Alphanumeric, path: string) returns (doc: SourceIndex.Documents.Document)
    ensures !doc.binary && |doc.text| == 1 && HasMatch(alnum, Source(path, doc), "x", false)
  {
    var text := "x";
    Utf8.AsciiBytes(text);
    Utf8.DecodeEncode(text);
    doc := SourceIndex.Documents.Built("", Utf8.Encode(text));
    TextLines.OneLine(text, '\n', '\r');
    assert LinesOf(Source(path, doc)) == [text];
    NextMatchIsFirst(text, text, 0);
    assert OccursAt(text, text, 0);
    assert MatchesAt(alnum, LinesOf(Source(path, doc)), text, false, 0);
  }

  /** A session closed before its one file is indexed: a search calls its empty answer complete. */
  lemma CancelledSearchCanMiss(alnum: Alphanumeric)
    returns (snapshot: seq<Entry>, priority: Entry -> int, load: Entry -> Loaded, query: string)
    ensures Indexing(snapshot, priority, load, _ => true, 0, CancelledAtOnce())
    ensures Searched(alnum, CancelledAtOnce()[1], query, false) == Ok(Found([], true, false))
    ensures query != "" && |snapshot| == 1 && Indexable(snapshot[0], load)
    ensures HasMatch(alnum, SourceOf(snapshot[0], load), query, false)
  {
    query := "x";
    assert query[0] == 'x';
    var doc := LetterIsFound(alnum, "a");
    PlainPathsAreAllowed('a');
    snapshot, priority, load := [Entry("a", "", 1, "100644", "", None)], _ => 0, _ => Ok(doc);
    Utf8.AsciiBytes(query);
    CancelledAtOnceFindsNothing(alnum, snapshot, priority, load, query, false);
  }
}
