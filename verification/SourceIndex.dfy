/**
  The background indexer of a session.

  Each entry of the snapshot is handled under one write of the lock, so what readers can see is
  the progress after some number of entries; `IndexAll` is that progress.
 */
module SourceIndex {
  import opened Wrappers
  import opened Sequences
  import opened Snapshots
  import Documents

  const MAX_FILE: nat := 2097152
  const MAX_INDEX: nat := 33554432

  type Loaded = Result<Documents.Document, string>
  datatype Source = Source(path: string, doc: Documents.Document)

  datatype Progress = Progress(files: nat, bytes: nat, skipped: nat, documents: seq<Source>, issue: Option<string>)

  const NOTHING: Progress := Progress(0, 0, 0, [], None)

  predicate Eligible(e: Entry) {
    SourceAllowed(e.path) && e.status != "D" && e.size <= MAX_FILE && (e.mode == "100644" || e.mode == "100755")
  }

  function Skip(p: Progress): Progress {
    p.(skipped := p.skipped + 1)
  }

  function IndexEntry(p: Progress, e: Entry, load: Entry -> Loaded): Progress {
    if !Eligible(e) then Skip(p)
    else
      match load(e)
      case Err(error) => Skip(p).(issue := Some(error))
      case Ok(doc) =>
        if doc.binary || |doc.text| > MAX_FILE then Skip(p)
        else if p.bytes + |doc.text| > MAX_INDEX then Skip(p)
        else p.(files := p.files + 1, bytes := p.bytes + |doc.text|, documents := p.documents + [Source(e.path, doc)])
  }

  function IndexAll(entries: seq<Entry>, load: Entry -> Loaded): Progress {
    if entries == [] then NOTHING
    else IndexEntry(IndexAll(entries[..|entries| - 1], load), entries[|entries| - 1], load)
  }

  /** What a reader of the index sees. */
  datatype Seen = Seen(progress: Progress, done: bool)

  /** One state for each number of entries handled, from none to n, and none of them done. */
  ghost predicate Underway(observable: seq<Seen>, entries: seq<Entry>, load: Entry -> Loaded, n: nat) {
    && |observable| == n + 1 && n <= |entries|
    && forall k | 0 <= k <= n :: observable[k] == Seen(IndexAll(entries[..k], load), false)
  }

  /** Those states, and at last the same progress as the n-th, done. */
  ghost predicate Observed(observable: seq<Seen>, entries: seq<Entry>, load: Entry -> Loaded, n: nat) {
    && |observable| == n + 2
    && Underway(observable[..n + 1], entries, load, n)
    && observable[n + 1] == Seen(IndexAll(entries[..n], load), true)
  }

  /** An indexer's run: entries in priority order, all of them or those before a cancellation was seen. */
  ghost predicate Indexing(snapshot: seq<Entry>, priority: Entry -> int, load: Entry -> Loaded, cancelled: nat -> bool,
                           reached: nat, observable: seq<Seen>) {
    var entries := Ordered(snapshot, priority);
    && reached <= |entries| && (reached == |entries| || cancelled(reached))
    && (forall k | 0 <= k < reached :: !cancelled(k))
    && Observed(observable, entries, load, reached)
  }

  lemma UnderwayOneMore(observable: seq<Seen>, entries: seq<Entry>, load: Entry -> Loaded, n: nat)
    requires Underway(observable, entries, load, n) && n < |entries|
    ensures var next := IndexEntry(IndexAll(entries[..n], load), entries[n], load);
            next == IndexAll(entries[..n + 1], load) && Underway(observable + [Seen(next, false)], entries, load, n + 1)
  {
    assert entries[..n + 1][..n] == entries[..n];
  }

  lemma IsIndexing(snapshot: seq<Entry>, priority: Entry -> int, load: Entry -> Loaded, cancelled: nat -> bool,
                   n: nat, observable: seq<Seen>)
    requires var entries := Ordered(snapshot, priority);
             && n <= |entries| && (n == |entries| || cancelled(n)) && (forall k | 0 <= k < n :: !cancelled(k))
             && Underway(observable, entries, load, n)
    ensures var last := Seen(IndexAll(Ordered(snapshot, priority)[..n], load), true);
            Indexing(snapshot, priority, load, cancelled, n, observable + [last])
  {
    var last := Seen(IndexAll(Ordered(snapshot, priority)[..n], load), true);
    assert (observable + [last])[..n + 1] == observable;
  }

  class Index {
    var files: nat
    var bytes: nat
    var skipped: nat
    var documents: seq<Source>
    var issue: Option<string>
    var done: bool
    var started: bool

    constructor ()
      ensures View() == NOTHING && !done && !started
    {
      files, bytes, skipped, documents, issue, done, started := 0, 0, 0, [], None, false, false;
    }

    function View(): Progress
      reads this
    {
      Progress(files, bytes, skipped, documents, issue)
    }

    /**
      Indexes the snapshot in priority order until it is finished or a cancellation is seen before
      some entry.  `observable` lists what a reader can see, one state for each release of the lock.
     */
    method Start(snapshot: seq<Entry>, priority: Entry -> int, load: Entry -> Loaded, cancelled: nat -> bool)
      returns (ghost reached: nat, ghost observable: seq<Seen>)
      modifies this
      requires !started ==> View() == NOTHING && !done
      ensures started
      ensures old(started) ==> View() == old(View()) && done == old(done)
      ensures !old(started) ==>
                && done && Indexing(snapshot, priority, load, cancelled, reached, observable)
                && View() == IndexAll(Ordered(snapshot, priority)[..reached], load)
    {
      reached, observable := 0, [];
      if started {
        return;
      }
      started := true;
      var entries := Ordered(snapshot, priority);
      var i := 0;
      observable := [Seen(View(), done)];
      while i < |entries| && !cancelled(i)
        invariant started && !done && i <= |entries| && View() == IndexAll(entries[..i], load)
        invariant forall k | 0 <= k < i :: !cancelled(k)
        invariant Underway(observable, entries, load, i)
      {
        UnderwayOneMore(observable, entries, load, i);
        Handle(entries[i], load);
        observable := observable + [Seen(View(), done)];
        i := i + 1;
      }
      done := true;
      reached := i;
      IsIndexing(snapshot, priority, load, cancelled, i, observable);
      observable := observable + [Seen(View(), done)];
    }

    /** One entry: decided without the lock, recorded under one write of it. */
    method Handle(entry: Entry, load: Entry -> Loaded)
      modifies this
      ensures View() == IndexEntry(old(View()), entry, load)
      ensures done == old(done) && started == old(started)
    {
      if !Eligible(entry) {
        skipped := skipped + 1;
        return;
      }
      match load(entry) {
        case Ok(doc) =>
          if !doc.binary && |doc.text| <= MAX_FILE {
            if bytes + |doc.text| > MAX_INDEX {
              skipped := skipped + 1;
              return;
            }
            files := files + 1;
            bytes := bytes + |doc.text|;
            documents := documents + [Source(entry.path, doc)];
          } else {
            skipped := skipped + 1;
          }
        case Err(error) =>
          skipped := skipped + 1;
          issue := Some(error);
      }
    }
  }

  function Ordered(snapshot: seq<Entry>, priority: Entry -> int): (entries: seq<Entry>)
    ensures multiset(entries) == multiset(snapshot)
  {
    Sort(snapshot, NoLater(priority))
  }

  function NoLater(priority: Entry -> int): (Entry, Entry) -> bool {
    (a, b) => priority(a) <= priority(b)
  }

  function OfPriority(entries: seq<Entry>, priority: Entry -> int, rank: int): seq<Entry> {
    if entries == [] then []
    else (if priority(entries[0]) == rank then [entries[0]] else []) + OfPriority(entries[1..], priority, rank)
  }

  lemma OfPriorityFirst(e: Entry, rest: seq<Entry>, priority: Entry -> int, rank: int)
    ensures OfPriority([e] + rest, priority, rank) == (if priority(e) == rank then [e] else []) + OfPriority(rest, priority, rank)
  {
    assert ([e] + rest)[1..] == rest;
  }

  lemma InsertBehind(e: Entry, entries: seq<Entry>, priority: Entry -> int)
    requires entries != [] && priority(e) > priority(entries[0])
    ensures Insert(e, entries, NoLater(priority)) == [entries[0]] + Insert(e, entries[1..], NoLater(priority))
  {
  }

  lemma {:induction false} InsertIsStable(e: Entry, entries: seq<Entry>, priority: Entry -> int, rank: int)
    ensures OfPriority(Insert(e, entries, NoLater(priority)), priority, rank) == OfPriority([e] + entries, priority, rank)
  {
    if entries != [] && priority(e) > priority(entries[0]) {
      var x, tail := entries[0], entries[1..];
      InsertBehind(e, entries, priority);
      InsertIsStable(e, tail, priority, rank);
      assert entries == [x] + tail;
      OfPriorityFirst(x, Insert(e, tail, NoLater(priority)), priority, rank);
      OfPriorityFirst(e, tail, priority, rank);
      OfPriorityFirst(e, entries, priority, rank);
      OfPriorityFirst(x, tail, priority, rank);
    }
  }

  /** The order of indexing: entries of lower priority numbers first, those of one as in the snapshot. */
  lemma {:induction false} OrderedByPriority(snapshot: seq<Entry>, priority: Entry -> int)
    ensures var entries := Ordered(snapshot, priority);
            && (forall i, j | 0 <= i < j < |entries| :: priority(entries[i]) <= priority(entries[j]))
            && forall rank :: OfPriority(entries, priority, rank) == OfPriority(snapshot, priority, rank)
  {
    if snapshot != [] {
      OrderedByPriority(snapshot[1..], priority);
      SortSorts(snapshot, NoLater(priority));
      assert [snapshot[0]] + snapshot[1..] == snapshot;
      forall rank
        ensures OfPriority(Ordered(snapshot, priority), priority, rank) == OfPriority(snapshot, priority, rank)
      {
        InsertIsStable(snapshot[0], Ordered(snapshot[1..], priority), priority, rank);
        assert ([snapshot[0]] + Ordered(snapshot[1..], priority))[1..] == Ordered(snapshot[1..], priority);
      }
    }
  }

  // ----- What readers may rely on -----

  function TotalBytes(documents: seq<Source>): nat {
    if documents == [] then 0 else TotalBytes(documents[..|documents| - 1]) + |documents[|documents| - 1].doc.text|
  }

  /** At every moment: the byte count is that of the documents, bounded, and every entry is counted once. */
  lemma {:induction false} ProgressInvariant(entries: seq<Entry>, load: Entry -> Loaded)
    ensures var p := IndexAll(entries, load);
            && p.bytes == TotalBytes(p.documents) <= MAX_INDEX
            && p.files == |p.documents|
            && p.files + p.skipped == |entries|
            && forall d | d in p.documents :: exists e | e in entries :: Eligible(e) && d.path == e.path && load(e) == Ok(d.doc)
  {
    if entries != [] {
      var front, last := entries[..|entries| - 1], entries[|entries| - 1];
      ProgressInvariant(front, load);
      var p, q := IndexAll(front, load), IndexAll(entries, load);
      if q.documents != p.documents {
        assert q.documents[..|p.documents|] == p.documents;
        assert last in entries;
      }
      assert forall e | e in front :: e in entries;
    }
  }

  /** A plain file of the head, not too large and allowed to be read. */
  ghost predicate PlainSource(e: Entry) {
    SourceAllowed(e.path) && e.status != "D" && e.size <= 2 * 1024 * 1024 && e.mode in {"100644", "100755"}
  }

  /** It is kept exactly if it is one, can be read as text of at most 2 MiB, and all then takes at most 32 MiB. */
  lemma EntryIsKeptIff(p: Progress, e: Entry, load: Entry -> Loaded)
    ensures var q := IndexEntry(p, e, load);
            if PlainSource(e) && load(e).Ok? && !load(e).value.binary && |load(e).value.text| <= 2 * 1024 * 1024
               && p.bytes + |load(e).value.text| <= 32 * 1024 * 1024
            then q.documents == p.documents + [Source(e.path, load(e).value)] && q.skipped == p.skipped && q.issue == p.issue
            else q.documents == p.documents && q.skipped == p.skipped + 1
  {
  }

  /** The last plain file that cannot be read, if there is one. */
  ghost predicate FailsLast(entries: seq<Entry>, load: Entry -> Loaded, k: nat) {
    && k < |entries| && PlainSource(entries[k]) && load(entries[k]).Err?
    && forall l | k < l < |entries| && PlainSource(entries[l]) :: load(entries[l]).Ok?
  }

  lemma IssueAfter(p: Progress, e: Entry, load: Entry -> Loaded)
    ensures IndexEntry(p, e, load).issue == if PlainSource(e) && load(e).Err? then Some(load(e).error) else p.issue
  {
  }

  lemma FailsLastOfMore(front: seq<Entry>, last: Entry, load: Entry -> Loaded, k: nat)
    ensures FailsLast(front + [last], load, k) <==>
              if PlainSource(last) && load(last).Err? then k == |front| else FailsLast(front, load, k)
  {
    var entries := front + [last];
    assert entries[|front|] == last;
    assert forall l | 0 <= l < |front| :: entries[l] == front[l];
  }

  /** The issue shown is the error of the last plain file that could not be read. */
  lemma {:induction false} IssueIsLatest(entries: seq<Entry>, load: Entry -> Loaded)
    ensures var issue := IndexAll(entries, load).issue;
            && (issue.None? <==> forall k: nat :: !FailsLast(entries, load, k))
            && forall k: nat | FailsLast(entries, load, k) :: issue == Some(load(entries[k]).error)
  {
    if entries != [] {
      var front, last := entries[..|entries| - 1], entries[|entries| - 1];
      IssueIsLatest(front, load);
      IssueAfter(IndexAll(front, load), last, load);
      assert entries == front + [last] && entries[|front|] == last && forall k | 0 <= k < |front| :: entries[k] == front[k];
      var failed := PlainSource(last) && load(last).Err?;
      FailsLastOfMore(front, last, load, |front|);
      forall k: nat
        ensures FailsLast(entries, load, k) ==> if failed then k == |front| else FailsLast(front, load, k)
      {
        FailsLastOfMore(front, last, load, k);
      }
      forall k: nat | FailsLast(front, load, k)
        ensures failed || FailsLast(entries, load, k)
      {
        FailsLastOfMore(front, last, load, k);
      }
    }
  }

  predicate Indexable(e: Entry, load: Entry -> Loaded) {
    Eligible(e) && load(e).Ok? && !load(e).value.binary && |load(e).value.text| <= MAX_FILE
  }

  function SourceOf(e: Entry, load: Entry -> Loaded): Source
    requires Indexable(e, load)
  {
    Source(e.path, load(e).value)
  }

  /** The document of every entry, in order. */
  function Sources(entries: seq<Entry>, load: Entry -> Loaded): (sources: seq<Source>)
    requires forall k | 0 <= k < |entries| :: Indexable(entries[k], load)
    ensures |sources| == |entries|
    ensures forall k | 0 <= k < |entries| :: sources[k] == SourceOf(entries[k], load)
  {
    if entries == [] then []
    else Sources(entries[..|entries| - 1], load) + [SourceOf(entries[|entries| - 1], load)]
  }

  predicate FullyIndexable(entries: seq<Entry>, load: Entry -> Loaded) {
    && (forall k | 0 <= k < |entries| :: Indexable(entries[k], load))
    && TotalBytes(Sources(entries, load)) <= MAX_INDEX
  }

  lemma FullyIndexableStep(entries: seq<Entry>, load: Entry -> Loaded)
    requires entries != []
    ensures var front, last := entries[..|entries| - 1], entries[|entries| - 1];
            FullyIndexable(entries, load) <==>
            && FullyIndexable(front, load) && Indexable(last, load)
            && TotalBytes(Sources(front, load)) + |load(last).value.text| <= MAX_INDEX
  {
    var front, last := entries[..|entries| - 1], entries[|entries| - 1];
    assert forall k | 0 <= k < |front| :: front[k] == entries[k];
    if (forall k | 0 <= k < |front| :: Indexable(front[k], load)) && Indexable(last, load) {
      assert forall k | 0 <= k < |entries| :: entries[k] == if k < |front| then front[k] else last;
      var sources := Sources(entries, load);
      assert sources[..|sources| - 1] == Sources(front, load);
    }
  }

  lemma EntryKeptIff(p: Progress, e: Entry, load: Entry -> Loaded)
    ensures IndexEntry(p, e, load).skipped == 0 <==>
              p.skipped == 0 && Indexable(e, load) && p.bytes + |load(e).value.text| <= MAX_INDEX
    ensures Indexable(e, load) && p.bytes + |load(e).value.text| <= MAX_INDEX ==>
              IndexEntry(p, e, load).documents == p.documents + [SourceOf(e, load)]
  {
  }

  lemma BytesAreTotal(entries: seq<Entry>, load: Entry -> Loaded)
    ensures IndexAll(entries, load).bytes == TotalBytes(IndexAll(entries, load).documents)
  {
    ProgressInvariant(entries, load);
  }

  /** Nothing is skipped exactly when every entry can be indexed and all fit together; then all are there. */
  lemma {:induction false} NothingSkippedIff(entries: seq<Entry>, load: Entry -> Loaded)
    ensures IndexAll(entries, load).skipped == 0 <==> FullyIndexable(entries, load)
    ensures FullyIndexable(entries, load) ==> IndexAll(entries, load).documents == Sources(entries, load)
  {
    if entries != [] {
      var front, last := entries[..|entries| - 1], entries[|entries| - 1];
      NothingSkippedIff(front, load);
      BytesAreTotal(front, load);
      FullyIndexableStep(entries, load);
      EntryKeptIff(IndexAll(front, load), last, load);
    }
  }

  /** The documents of all entries that can be read, in order. */
  function Readable(entries: seq<Entry>, load: Entry -> Loaded): seq<Source> {
    if entries == [] then []
    else
      var last := entries[|entries| - 1];
      Readable(entries[..|entries| - 1], load) + if load(last).Ok? then [Source(last.path, load(last).value)] else []
  }

  lemma {:induction false} ReadableAppends(a: seq<Entry>, b: seq<Entry>, load: Entry -> Loaded)
    ensures Readable(a + b, load) == Readable(a, load) + Readable(b, load)
  {
    if b == [] {
      assert a + b == a;
    } else {
      var front := b[..|b| - 1];
      ReadableAppends(a, front, load);
      assert (a + b)[..|a + b| - 1] == a + front;
    }
  }

  lemma {:induction false} IndexedAreReadable(entries: seq<Entry>, load: Entry -> Loaded)
    requires forall k | 0 <= k < |entries| :: Indexable(entries[k], load)
    ensures Sources(entries, load) == Readable(entries, load)
  {
    if entries != [] {
      IndexedAreReadable(entries[..|entries| - 1], load);
    }
  }

  /** With nothing skipped the index holds every document that can be read. */
  lemma NothingSkippedIsReadable(entries: seq<Entry>, load: Entry -> Loaded)
    requires IndexAll(entries, load).skipped == 0
    ensures IndexAll(entries, load).documents == Readable(entries, load)
    ensures forall k | 0 <= k < |entries| :: Indexable(entries[k], load)
  {
    NothingSkippedIff(entries, load);
    IndexedAreReadable(entries, load);
  }

  lemma {:induction false} ReadableMembers(entries: seq<Entry>, load: Entry -> Loaded)
    ensures forall e | e in entries && load(e).Ok? :: Source(e.path, load(e).value) in Readable(entries, load)
    ensures forall d | d in Readable(entries, load) :: exists e | e in entries :: load(e).Ok? && d == Source(e.path, load(e).value)
  {
    if entries != [] {
      var front, last := entries[..|entries| - 1], entries[|entries| - 1];
      ReadableMembers(front, load);
      assert entries == front + [last];
    }
  }
}
