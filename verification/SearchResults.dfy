/**
  What the locations of a search mean to its reader: the line of the document with that number holds
  the query, and the document shows it under that number.
 */
module SearchResults {
  import opened Wrappers
  import opened Snapshots
  import opened SourceIndex
  import opened Search
  import Documents
  import TextLines
  import Utf8

  /** A document as it is built from a file: line starts indexed, text in UTF-8. */
  ghost predicate Proper(doc: Documents.Document) {
    Documents.Indexes(doc.offsets, doc.text) && exists text :: doc.text == Utf8.Encode(text)
  }

  lemma BuiltIsProper(blob: string, bytes: seq<Wrappers.byte>)
    ensures Proper(Documents.Built(blob, bytes))
  {
    var doc := Documents.Built(blob, bytes);
    Documents.BuiltIndexes(blob, bytes);
    if doc.text == [] {
      assert doc.text == Utf8.Encode("");
    } else {
      Utf8.EncodeDecode(bytes);
    }
  }

  /** The location names the n-th line, counted from 0, of the document, which holds the query. */
  ghost predicate Describes(alnum: Alphanumeric, h: Location, source: Source, n: nat, query: string, reference: bool) {
    exists text | source.doc.text == Utf8.Encode(text) ::
      var lines := TextLines.StrLines(text, '\n', '\r');
      && n < |lines| <= |source.doc.offsets|
      && var line := lines[n];
         && Holds(alnum, line, query, reference)
         && h.path == source.path && h.line == n + 1 && 1 <= h.line <= |source.doc.offsets|
         && Documents.Lines(source.doc, h.line, 1)
            == [Utf8.Encode(TextLines.Take(TextLines.TrimEnd(line, '\r', '\n'), 8000))]
         && h.text == (if |line| <= 300 then line else line[..300])
         && h.kind == if reference then "text reference candidate" else "text match"
  }

  /** The n-th line of the document holds the query. */
  ghost predicate HoldsAt(alnum: Alphanumeric, source: Source, n: nat, query: string, reference: bool) {
    n < |LinesOf(source)| && Holds(alnum, LinesOf(source)[n], query, reference)
  }

  lemma TextIsRead(doc: Documents.Document, text: string)
    requires doc.text == Utf8.Encode(text)
    ensures TextOf(doc) == text
  {
    Utf8.DecodeEncode(text);
  }

  lemma HitIsDescribed(alnum: Alphanumeric, h: Location, source: Source, n: nat, query: string, reference: bool)
    requires Proper(source.doc)
    ensures HoldsAt(alnum, source, n, query, reference) && h == Hit(source.path, n, LinesOf(source)[n], reference) <==>
            Describes(alnum, h, source, n, query, reference)
  {
    if HoldsAt(alnum, source, n, query, reference) && h == Hit(source.path, n, LinesOf(source)[n], reference) {
      var text :| source.doc.text == Utf8.Encode(text);
      TextIsRead(source.doc, text);
      Documents.SearchLineIsDocumentLine(source.doc, text, n);
    }
    if Describes(alnum, h, source, n, query, reference) {
      var text :| source.doc.text == Utf8.Encode(text) && n < |TextLines.StrLines(text, '\n', '\r')|
        && Holds(alnum, TextLines.StrLines(text, '\n', '\r')[n], query, reference)
        && h.text == (if |TextLines.StrLines(text, '\n', '\r')[n]| <= 300 then TextLines.StrLines(text, '\n', '\r')[n]
                      else TextLines.StrLines(text, '\n', '\r')[n][..300]);
      TextIsRead(source.doc, text);
    }
  }

  // ----- All hits, in order -----

  /** The document and, counted from 0, the line of a hit. */
  datatype Place = Place(document: nat, line: nat)

  predicate Comes(a: Place, b: Place) {
    a.document < b.document || (a.document == b.document && a.line < b.line)
  }

  predicate InOrder(at: seq<Place>) {
    forall i, j | 0 <= i < j < |at| :: Comes(at[i], at[j])
  }

  predicate MatchesIn(alnum: Alphanumeric, documents: seq<Source>, p: Place, query: string, reference: bool)
    requires query != ""
  {
    p.document < |documents| && MatchesAt(alnum, LinesOf(documents[p.document]), query, reference, p.line)
  }

  /** Hits at these places, which are all the places with a match, in order. */
  ghost predicate HitsAt(alnum: Alphanumeric, documents: seq<Source>, query: string, reference: bool,
                         hits: seq<Location>, at: seq<Place>)
    requires query != ""
  {
    && |at| == |hits| && InOrder(at)
    && (forall p :: p in at <==> MatchesIn(alnum, documents, p, query, reference))
    && (forall i | 0 <= i < |at| && MatchesIn(alnum, documents, at[i], query, reference) ::
          var d := documents[at[i].document];
          hits[i] == Hit(d.path, at[i].line, LinesOf(d)[at[i].line], reference))
  }

  /** The places of the hits on the first m lines of one document. */
  ghost predicate LinesAt(alnum: Alphanumeric, path: string, lines: seq<string>, query: string, reference: bool,
                          m: nat, d: nat, at: seq<Place>)
    requires query != "" && m <= |lines|
  {
    var hits := LineHits(alnum, path, lines, query, reference, m);
    && |at| == |hits| && InOrder(at)
    && (forall p :: p in at <==> p.document == d && p.line < m && MatchesAt(alnum, lines, query, reference, p.line))
    && (forall i | 0 <= i < |at| && at[i].line < m :: hits[i] == Hit(path, at[i].line, lines[at[i].line], reference))
  }

  lemma PlacesAreEarlier(alnum: Alphanumeric, path: string, lines: seq<string>, query: string, reference: bool, m: nat, d: nat, at: seq<Place>)
    requires query != "" && m <= |lines| && LinesAt(alnum, path, lines, query, reference, m, d, at)
    ensures forall i | 0 <= i < |at| :: at[i].document == d && at[i].line < m
  {
    forall i | 0 <= i < |at|
      ensures at[i].document == d && at[i].line < m
    {
      assert at[i] in at;
    }
  }

  lemma LinesAtMatch(alnum: Alphanumeric, path: string, lines: seq<string>, query: string, reference: bool, m: nat, d: nat, at: seq<Place>)
    requires query != "" && m < |lines| && LinesAt(alnum, path, lines, query, reference, m, d, at)
    requires Matches(alnum, lines[m], query, reference)
    ensures LinesAt(alnum, path, lines, query, reference, m + 1, d, at + [Place(d, m)])
  {
    PlacesAreEarlier(alnum, path, lines, query, reference, m, d, at);
    forall p
      ensures p in at + [Place(d, m)] <==> p.document == d && p.line < m + 1 && MatchesAt(alnum, lines, query, reference, p.line)
    {
      assert p in at + [Place(d, m)] <==> p in at || p == Place(d, m);
    }
  }

  lemma LinesAtNoMatch(alnum: Alphanumeric, path: string, lines: seq<string>, query: string, reference: bool, m: nat, d: nat, at: seq<Place>)
    requires query != "" && m < |lines| && LinesAt(alnum, path, lines, query, reference, m, d, at)
    requires !Matches(alnum, lines[m], query, reference)
    ensures LinesAt(alnum, path, lines, query, reference, m + 1, d, at)
  {
    PlacesAreEarlier(alnum, path, lines, query, reference, m, d, at);
  }

  lemma {:induction false} PlacesOfLines(alnum: Alphanumeric, path: string, lines: seq<string>, query: string, reference: bool, m: nat, d: nat)
    returns (at: seq<Place>)
    requires query != "" && m <= |lines|
    ensures LinesAt(alnum, path, lines, query, reference, m, d, at)
  {
    if m == 0 {
      at := [];
    } else {
      at := PlacesOfLines(alnum, path, lines, query, reference, m - 1, d);
      if Matches(alnum, lines[m - 1], query, reference) {
        LinesAtMatch(alnum, path, lines, query, reference, m - 1, d, at);
        at := at + [Place(d, m - 1)];
      } else {
        LinesAtNoMatch(alnum, path, lines, query, reference, m - 1, d, at);
      }
    }
  }

  lemma OrderJoins(at: seq<Place>, more: seq<Place>, d: nat)
    requires InOrder(at) && InOrder(more)
    requires (forall p | p in at :: p.document < d) && forall p | p in more :: p.document == d
    ensures InOrder(at + more)
  {
    var all := at + more;
    forall i, j | 0 <= i < j < |all|
      ensures Comes(all[i], all[j])
    {
      assert i < |at| ==> all[i] == at[i] && at[i] in at;
      assert j >= |at| ==> all[j] == more[j - |at|] && more[j - |at|] in more;
    }
  }

  lemma MatchesInJoined(alnum: Alphanumeric, front: seq<Source>, last: Source, query: string, reference: bool, p: Place)
    requires query != ""
    ensures MatchesIn(alnum, front + [last], p, query, reference) <==>
              || MatchesIn(alnum, front, p, query, reference)
              || (p.document == |front| && MatchesAt(alnum, LinesOf(last), query, reference, p.line))
    ensures p.document < |front| ==> (front + [last])[p.document] == front[p.document]
    ensures p.document == |front| ==> (front + [last])[p.document] == last
  {
  }

  predicate IsHitOf(h: Location, source: Source, n: nat, reference: bool) {
    n < |LinesOf(source)| && h == Hit(source.path, n, LinesOf(source)[n], reference)
  }

  lemma HitOfFront(alnum: Alphanumeric, front: seq<Source>, query: string, reference: bool,
                   hits: seq<Location>, at: seq<Place>, i: nat)
    requires query != "" && HitsAt(alnum, front, query, reference, hits, at) && i < |at|
    ensures at[i].document < |front| && IsHitOf(hits[i], front[at[i].document], at[i].line, reference)
  {
    assert at[i] in at;
  }

  lemma HitOfLast(alnum: Alphanumeric, last: Source, query: string, reference: bool, d: nat, more: seq<Place>, i: nat)
    requires query != "" && i < |more|
    requires LinesAt(alnum, last.path, LinesOf(last), query, reference, |LinesOf(last)|, d, more)
    ensures var hits := DocumentHits(alnum, last, query, reference);
            |hits| == |more| && more[i].document == d && IsHitOf(hits[i], last, more[i].line, reference)
  {
    assert more[i] in more;
  }

  lemma HitOfJoined(alnum: Alphanumeric, front: seq<Source>, last: Source, query: string, reference: bool,
                    hits: seq<Location>, at: seq<Place>, more: seq<Place>, i: nat)
    requires query != "" && HitsAt(alnum, front, query, reference, hits, at)
    requires LinesAt(alnum, last.path, LinesOf(last), query, reference, |LinesOf(last)|, |front|, more)
    requires i < |at + more|
    ensures var all, p := hits + DocumentHits(alnum, last, query, reference), (at + more)[i];
            |all| == |at + more| && p.document <= |front| && IsHitOf(all[i], (front + [last])[p.document], p.line, reference)
  {
    assert (at + more)[i] == if i < |at| then at[i] else more[i - |at|];
    assert |hits| == |at| && |DocumentHits(alnum, last, query, reference)| == |more|;
    if i < |at| {
      HitOfFront(alnum, front, query, reference, hits, at, i);
    } else {
      HitOfLast(alnum, last, query, reference, |front|, more, i - |at|);
    }
  }

  lemma PlacesJoin(alnum: Alphanumeric, documents: seq<Source>, front: seq<Source>, last: Source, query: string, reference: bool,
                   hits: seq<Location>, at: seq<Place>, more: seq<Place>)
    requires query != "" && HitsAt(alnum, front, query, reference, hits, at) && documents == front + [last]
    requires LinesAt(alnum, last.path, LinesOf(last), query, reference, |LinesOf(last)|, |front|, more)
    ensures HitsAt(alnum, documents, query, reference, hits + DocumentHits(alnum, last, query, reference), at + more)
  {
    OrderJoins(at, more, |front|);
    forall p
      ensures p in at + more <==> MatchesIn(alnum, front + [last], p, query, reference)
    {
      MatchesInJoined(alnum, front, last, query, reference, p);
      assert p in at + more <==> p in at || p in more;
      assert p in more <==> p.document == |front| && p.line < |LinesOf(last)| && MatchesAt(alnum, LinesOf(last), query, reference, p.line);
    }
    forall i | 0 <= i < |at + more|
      ensures var all, p := hits + DocumentHits(alnum, last, query, reference), (at + more)[i];
              |all| == |at + more| && p.document <= |front| && IsHitOf(all[i], (front + [last])[p.document], p.line, reference)
    {
      HitOfJoined(alnum, front, last, query, reference, hits, at, more, i);
    }
    assert |at| == |hits| && |more| == |DocumentHits(alnum, last, query, reference)|;
  }

  lemma AllHitsOfLast(alnum: Alphanumeric, documents: seq<Source>, query: string, reference: bool)
    requires query != "" && documents != []
    ensures var front, last := documents[..|documents| - 1], documents[|documents| - 1];
            AllHits(alnum, documents, query, reference) == AllHits(alnum, front, query, reference) + DocumentHits(alnum, last, query, reference)
  {
  }

  lemma {:induction false} PlacesOf(alnum: Alphanumeric, documents: seq<Source>, query: string, reference: bool) returns (at: seq<Place>)
    requires query != ""
    ensures HitsAt(alnum, documents, query, reference, AllHits(alnum, documents, query, reference), at)
  {
    if documents == [] {
      at := [];
    } else {
      var front, last := documents[..|documents| - 1], documents[|documents| - 1];
      at := PlacesOf(alnum, front, query, reference);
      var more := PlacesOfLines(alnum, last.path, LinesOf(last), query, reference, |LinesOf(last)|, |front|);
      assert front + [last] == documents;
      AllHitsOfLast(alnum, documents, query, reference);
      PlacesJoin(alnum, documents, front, last, query, reference, AllHits(alnum, front, query, reference), at, more);
      at := at + more;
    }
  }

  // ----- Answers -----

  /** An answer lists the lines at the first of these places. */
  ghost predicate Lists(alnum: Alphanumeric, documents: seq<Source>, query: string, reference: bool,
                        locations: seq<Location>, at: seq<Place>) {
    && |locations| == (if |at| <= 300 then |at| else 300) && InOrder(at)
    && forall i | 0 <= i < |locations| ::
         at[i].document < |documents|
         && Describes(alnum, locations[i], documents[at[i].document], at[i].line, query, reference)
  }

  lemma MatchHolds(alnum: Alphanumeric, line: string, query: string, reference: bool)
    requires query != "" && Matches(alnum, line, query, reference)
    ensures Holds(alnum, line, query, reference)
  {
    if reference {
      FindsAmongMatches(alnum, line, query, 0);
    } else {
      var p := MatchOccurs(alnum, line, query, reference);
    }
  }

  /**
    Whatever a search answers, its locations are lines that hold the query, each described as the
    document shows it, in the order of documents and lines.  They are the first 300 of all there are,
    if the query is never missed, and `truncated` tells exactly whether there are more.
   */
  lemma AnswerListsLines(alnum: Alphanumeric, seen: Seen, query: string, reference: bool) returns (at: seq<Place>)
    requires !Blank(query) && Searched(alnum, seen, query, reference).Ok?
    requires forall d | d in seen.progress.documents :: Proper(d.doc)
    ensures var found, documents := Searched(alnum, seen, query, reference).value, seen.progress.documents;
            && Lists(alnum, documents, query, reference, found.locations, at)
            && (found.truncated <==> |at| > 300)
            && (reference ==> OverlapsInsideIdentifiers(alnum, query) ==> AllHolding(alnum, documents, query, reference, at))
            && (!reference ==> AllHolding(alnum, documents, query, reference, at))
  {
    var found, documents := Searched(alnum, seen, query, reference).value, seen.progress.documents;
    at := PlacesOf(alnum, documents, query, reference);
    var hits := AllHits(alnum, documents, query, reference);
    forall i | 0 <= i < |found.locations|
      ensures at[i].document < |documents|
              && Describes(alnum, found.locations[i], documents[at[i].document], at[i].line, query, reference)
    {
      assert at[i] in at;
      var d := documents[at[i].document];
      MatchHolds(alnum, LinesOf(d)[at[i].line], query, reference);
      HitIsDescribed(alnum, hits[i], d, at[i].line, query, reference);
    }
    if reference ==> OverlapsInsideIdentifiers(alnum, query) {
      AllHoldingIfMatching(alnum, documents, query, reference, at);
    }
  }

  /** Every line that holds the query is at one of the places. */
  ghost predicate AllHolding(alnum: Alphanumeric, documents: seq<Source>, query: string, reference: bool, at: seq<Place>) {
    forall d: nat, n: nat | d < |documents| && HoldsAt(alnum, documents[d], n, query, reference) :: Place(d, n) in at
  }

  lemma AllHoldingIfMatching(alnum: Alphanumeric, documents: seq<Source>, query: string, reference: bool, at: seq<Place>)
    requires query != "" && (reference ==> OverlapsInsideIdentifiers(alnum, query))
    requires forall p :: p in at <==> MatchesIn(alnum, documents, p, query, reference)
    ensures AllHolding(alnum, documents, query, reference, at)
  {
    forall d: nat, n: nat | d < |documents| && HoldsAt(alnum, documents[d], n, query, reference)
      ensures Place(d, n) in at
    {
      MatchesIffHolds(alnum, LinesOf(documents[d])[n], query, reference);
      assert MatchesIn(alnum, documents, Place(d, n), query, reference);
    }
  }

  /** A complete and untruncated answer lists exactly what describes a holding line of the snapshot's files. */
  lemma CompleteAnswerIsExact(alnum: Alphanumeric, snapshot: seq<Entry>, priority: Entry -> int, load: Entry -> Loaded,
                              cancelled: nat -> bool, reached: nat, observable: seq<Seen>, m: nat,
                              query: string, reference: bool, h: Location)
    requires Indexing(snapshot, priority, load, cancelled, reached, observable) && m < |observable|
    requires forall k :: !cancelled(k)
    requires reference ==> OverlapsInsideIdentifiers(alnum, query)
    requires forall e | e in snapshot && load(e).Ok? :: Proper(load(e).value)
    requires Searched(alnum, observable[m], query, reference).Ok?
    ensures var found := Searched(alnum, observable[m], query, reference).value;
            found.complete && !found.truncated ==>
              (h in found.locations <==>
                 exists e, n: nat :: e in snapshot && load(e).Ok?
                   && Describes(alnum, h, Source(e.path, load(e).value), n, query, reference))
  {
    var found := Searched(alnum, observable[m], query, reference).value;
    if found.complete && !found.truncated {
      CompleteSearchIsExact(alnum, snapshot, priority, load, cancelled, reached, observable, m, query, reference, h);
      forall e, n: nat | e in snapshot
        ensures n < |LinesOf(SourceOf(e, load))| && Holds(alnum, LinesOf(SourceOf(e, load))[n], query, reference)
                && h == Hit(e.path, n, LinesOf(SourceOf(e, load))[n], reference) <==>
                Describes(alnum, h, Source(e.path, load(e).value), n, query, reference)
      {
        HitIsDescribed(alnum, h, SourceOf(e, load), n, query, reference);
      }
    }
  }
}
