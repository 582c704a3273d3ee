/**
  The bounded cache of source documents of a session.

  A call checks its request, looks into the cache under the lock, reads without the lock, and
  stores under the lock.  Calls interleave at these steps; `Run` is any such interleaving.
 */
module SourceCache {
  import opened Wrappers
  import opened Snapshots
  import Documents
  import Utf8

  const MAX_FILE: nat := 67108864
  const MAX_CACHE: nat := 100663296

  type Doc = Documents.Document
  type Answer = Result<Doc, string>
  type Cache = map<string, Doc>

  datatype Side = Head | Base

  /** A session over an immutable repository: `resolve` names the blob of a path at a revision. */
  datatype Session = Session(
    local: bool, head: string, base: Option<string>, files: seq<Entry>,
    resolve: (string, string) -> Result<string, string>,
    blobs: string -> Option<seq<byte>>)

  function Key(side: Side, path: string): string {
    (if side.Base? then "base" else "head") + ":" + path
  }

  lemma KeysAreDistinct(a: Side, p: string, b: Side, q: string)
    requires Key(a, p) == Key(b, q)
    ensures a == b && p == q
  {
    assert Key(a, p)[5..] == p && Key(b, q)[5..] == q;
    assert Key(a, p)[0] == Key(b, q)[0];
  }

  function SourcePath(entry: Entry, side: Side, path: string): string {
    if side.Base? && entry.oldPath.Some? then entry.oldPath.value else path
  }

  /** The checks before the cache is consulted. */
  function Check(session: Session, side: Side, path: string): Result<Entry, string> {
    if !SourceAllowed(path) then Err("Protected")
    else
      match Find(session.files, path)
      case None => Err("File is not in this snapshot")
      case Some(entry) =>
        if entry.mode == "160000" then Err("Submodule")
        else if entry.mode == "120000" then Err("Symbolic link")
        else if !SourceAllowed(SourcePath(entry, side, path)) then Err("The historical source path is protected.")
        else Ok(entry)
  }

  /** Only the head side of a local session reads the working tree. */
  predicate FromDisk(session: Session, side: Side) {
    session.local && side.Head?
  }

  predicate IsSha(blob: string) {
    (|blob| == 40 || |blob| == 64)
    && forall k | 0 <= k < |blob| :: '0' <= blob[k] <= '9' || 'a' <= blob[k] <= 'f' || 'A' <= blob[k] <= 'F'
  }

  /** Reads a blob of the repository, without the cache. */
  function ReadBlob(session: Session, side: Side, path: string, entry: Entry): Answer {
    var revision := if side.Base? && session.base.Some? then session.base.value else session.head;
    var named := if side.Head? then Ok(entry.blob) else session.resolve(revision, SourcePath(entry, side, path));
    match named
    case Err(e) => Err(e)
    case Ok(blob) =>
      if !IsSha(blob) then Err("Invalid source blob identity")
      else
        match session.blobs(blob)
        case None => Err("Missing blob")
        case Some(bytes) =>
          if |bytes| > MAX_FILE then Err("File exceeds the 64 MiB source bound.")
          else Ok(Documents.Built(blob, bytes))
  }

  /** What a call that finds an empty cache answers, for everything but the working tree. */
  function Uncached(session: Session, side: Side, path: string): Answer {
    match Check(session, side, path)
    case Err(e) => Err(e)
    case Ok(entry) => ReadBlob(session, side, path, entry)
  }

  // ----- Which file a call answers with -----

  /** The document is that of some bytes, under the name of their blob. */
  ghost predicate IsDocumentOf(doc: Doc, blob: string, bytes: seq<byte>) {
    && doc.blob == blob && (doc.binary <==> 0 in bytes || forall s :: bytes != Utf8.Encode(s))
    && doc.text == (if doc.binary then [] else bytes) && Documents.Indexes(doc.offsets, doc.text)
  }

  lemma BuiltIsDocumentOf(blob: string, bytes: seq<byte>, doc: Doc)
    ensures doc == Documents.Built(blob, bytes) <==> IsDocumentOf(doc, blob, bytes)
  {
    Documents.DecodesIffUtf8(bytes);
    Documents.BuiltIndexes(blob, bytes);
    var built := Documents.Built(blob, bytes);
    assert built.binary <==> 0 in bytes || forall s :: bytes != Utf8.Encode(s);
    if IsDocumentOf(doc, blob, bytes) {
      assert doc.binary == built.binary && doc.text == built.text;
      Documents.IndexIsUnique(doc.offsets, built.offsets, doc.text);
    }
  }

  /** The entry is the first of the snapshot with the path. */
  predicate IsEntryOf(files: seq<Entry>, path: string, k: nat) {
    k < |files| && files[k].path == path && forall j | 0 <= j < k :: files[j].path != path
  }

  /** Forty or sixty-four hexadecimal digits. */
  predicate NamesBlob(blob: string) {
    && (|blob| == 40 || |blob| == 64)
    && forall k | 0 <= k < |blob| :: '0' <= blob[k] <= '9' || 'a' <= blob[k] <= 'f' || 'A' <= blob[k] <= 'F'
  }

  /**
    The entry's file may be shown, and the document is that of its blob: on the head side the blob of
    the entry, on the base side the one that the base revision, or the head if there is none, has at
    its old path, if it has one.
   */
  ghost predicate ServesEntry(session: Session, side: Side, path: string, entry: Entry, doc: Doc) {
    && entry.mode != "160000" && entry.mode != "120000"
    && (side.Head? ==> doc.blob == entry.blob)
    && (side.Base? ==>
          && (entry.oldPath.Some? ==> SourceAllowed(entry.oldPath.value))
          && session.resolve(if session.base.Some? then session.base.value else session.head,
                             if entry.oldPath.Some? then entry.oldPath.value else path) == Ok(doc.blob))
    && NamesBlob(doc.blob) && session.blobs(doc.blob).Some?
    && |session.blobs(doc.blob).value| <= 64 * 1024 * 1024
    && IsDocumentOf(doc, doc.blob, session.blobs(doc.blob).value)
  }

  ghost predicate Serves(session: Session, side: Side, path: string, doc: Doc) {
    && SourceAllowed(path)
    && exists k: nat | IsEntryOf(session.files, path, k) :: ServesEntry(session, side, path, session.files[k], doc)
  }

  lemma FoundIsEntry(files: seq<Entry>, path: string, k: nat)
    ensures IsEntryOf(files, path, k) <==> Find(files, path).Some? && IndexOf(files, path) == k
  {
  }

  /** The checks, said of the entry. */
  lemma CheckedEntry(session: Session, side: Side, path: string, entry: Entry)
    ensures Check(session, side, path) == Ok(entry) <==>
            && SourceAllowed(path) && Find(session.files, path) == Some(entry)
            && entry.mode != "160000" && entry.mode != "120000"
            && (side.Base? && entry.oldPath.Some? ==> SourceAllowed(entry.oldPath.value))
  {
  }

  /** The named blob is there and not too large, and the document is its text. */
  ghost predicate HoldsBlob(session: Session, blob: string, doc: Doc) {
    && doc.blob == blob && NamesBlob(blob) && session.blobs(blob).Some? && |session.blobs(blob).value| <= 64 * 1024 * 1024
    && IsDocumentOf(doc, blob, session.blobs(blob).value)
  }

  lemma NamedBlobServes(session: Session, blob: string, doc: Doc)
    ensures HoldsBlob(session, blob, doc) <==>
              && IsSha(blob) && session.blobs(blob).Some? && |session.blobs(blob).value| <= MAX_FILE
              && doc == Documents.Built(blob, session.blobs(blob).value)
  {
    if session.blobs(blob).Some? {
      BuiltIsDocumentOf(blob, session.blobs(blob).value, doc);
    }
  }

  lemma BlobServes(session: Session, side: Side, path: string, entry: Entry, doc: Doc)
    requires Check(session, side, path) == Ok(entry)
    ensures ReadBlob(session, side, path, entry) == Ok(doc) <==> ServesEntry(session, side, path, entry, doc)
  {
    CheckedEntry(session, side, path, entry);
    NamedBlobServes(session, doc.blob, doc);
  }

  lemma UncachedServes(session: Session, side: Side, path: string, doc: Doc)
    ensures Uncached(session, side, path) == Ok(doc) <==> Serves(session, side, path, doc)
  {
    var k := IndexOf(session.files, path);
    FoundIsEntry(session.files, path, k);
    if Uncached(session, side, path) == Ok(doc) {
      var entry := Check(session, side, path).value;
      CheckedEntry(session, side, path, entry);
      BlobServes(session, side, path, entry, doc);
      assert IsEntryOf(session.files, path, k);
    }
    if Serves(session, side, path, doc) {
      var j: nat :| IsEntryOf(session.files, path, j) && ServesEntry(session, side, path, session.files[j], doc);
      FoundIsEntry(session.files, path, j);
      CheckedEntry(session, side, path, session.files[j]);
      BlobServes(session, side, path, session.files[j], doc);
    }
  }

  /** A read of the working tree: the size seen first, then the bytes, hashed as read. */
  datatype Disk = Missing(error: string) | Disk(size: nat, bytes: seq<byte>, blob: string)

  function ReadDisk(disk: Disk): Answer {
    match disk
    case Missing(error) => Err(error)
    case Disk(size, bytes, blob) =>
      if size > MAX_FILE then Err("File exceeds the 64 MiB source bound.") else Ok(Documents.Built(blob, bytes))
  }

  // ----- The cache -----

  ghost function Total(cache: Cache): nat {
    if cache == map[] then 0
    else
      var key :| key in cache;
      |cache[key].text| + Total(cache - {key})
  }

  lemma {:induction false} TotalWithout(cache: Cache, key: string)
    requires key in cache
    ensures Total(cache) == |cache[key].text| + Total(cache - {key})
    decreases |cache|
  {
    var first :| first in cache && Total(cache) == |cache[first].text| + Total(cache - {first});
    if first != key {
      TotalWithout(cache - {first}, key);
      TotalWithout(cache - {key}, first);
      assert cache - {first} - {key} == cache - {key} - {first};
    }
  }

  lemma TotalAfterInsert(cache: Cache, key: string, doc: Doc)
    ensures Total(cache[key := doc]) <= Total(cache) + |doc.text|
  {
    var after := cache[key := doc];
    TotalWithout(after, key);
    assert after - {key} == cache - {key};
    if key in cache {
      TotalWithout(cache, key);
    } else {
      assert cache - {key} == cache;
    }
  }

  /** The second critical section: everything is evicted when the new document does not fit. */
  ghost function Stored(cache: Cache, key: string, doc: Doc): Cache {
    if Total(cache) + |doc.text| > MAX_CACHE then map[key := doc] else cache[key := doc]
  }

  lemma StoredIsBounded(cache: Cache, key: string, doc: Doc)
    requires |doc.text| <= MAX_CACHE
    ensures Total(Stored(cache, key, doc)) <= MAX_CACHE
  {
    TotalAfterInsert(cache, key, doc);
    TotalAfterInsert(map[], key, doc);
    assert map[][key := doc] == map[key := doc];
  }

  /** The session object: its documents are changed under the lock. */
  class SourceSession {
    const session: Session
    var documents: Cache

    constructor (session: Session)
      ensures this.session == session && documents == map[]
    {
      this.session := session;
      documents := map[];
    }

    method SumOfLengths() returns (sum: nat)
      ensures sum == Total(documents)
    {
      sum := 0;
      var rest := documents;
      while rest != map[]
        invariant sum + Total(rest) == Total(documents)
        decreases |rest|
      {
        var key :| key in rest;
        TotalWithout(rest, key);
        sum := sum + |rest[key].text|;
        rest := rest - {key};
      }
    }

    method Store(key: string, doc: Doc)
      modifies this`documents
      ensures documents == Stored(old(documents), key, doc)
    {
      var sum := SumOfLengths();
      if sum + |doc.text| > MAX_CACHE {
        documents := map[];
      }
      documents := documents[key := doc];
    }

    /** One call with no other running; `disk` is what the working tree would give. */
    method Document(path: string, side: Side, disk: Disk) returns (answer: Answer)
      modifies this`documents
      ensures Check(session, side, path).Err? ==> answer == Err(Check(session, side, path).error) && documents == old(documents)
      ensures Check(session, side, path).Ok? && Key(side, path) in old(documents) ==>
                answer == Ok(old(documents)[Key(side, path)]) && documents == old(documents)
      ensures Check(session, side, path).Ok? && Key(side, path) !in old(documents) ==>
                && answer == (if FromDisk(session, side) then ReadDisk(disk)
                              else ReadBlob(session, side, path, Check(session, side, path).value))
                && documents == if answer.Ok? then Stored(old(documents), Key(side, path), answer.value) else old(documents)
      ensures !FromDisk(session, side) && Key(side, path) !in old(documents) ==>
                forall doc :: answer == Ok(doc) <==> Serves(session, side, path, doc)
      ensures FromDisk(session, side) && Key(side, path) !in old(documents) && answer.Ok? ==>
                disk.Disk? && disk.size <= 64 * 1024 * 1024 && IsDocumentOf(answer.value, disk.blob, disk.bytes)
    {
      forall doc
        ensures Uncached(session, side, path) == Ok(doc) <==> Serves(session, side, path, doc)
      {
        UncachedServes(session, side, path, doc);
      }
      if disk.Disk? {
        BuiltIsDocumentOf(disk.blob, disk.bytes, Documents.Built(disk.blob, disk.bytes));
      }
      var checked := Check(session, side, path);
      if checked.Err? {
        return Err(checked.error);
      }
      var key := Key(side, path);
      if key in documents {
        return Ok(documents[key]);
      }
      answer := if FromDisk(session, side) then ReadDisk(disk) else ReadBlob(session, side, path, checked.value);
      if answer.Ok? {
        Store(key, answer.value);
      }
    }
  }

  // ----- Interleaved calls -----

  datatype Call =
    | Asked(side: Side, path: string)
    | Reading(side: Side, path: string, entry: Entry)
    | Holding(side: Side, path: string, doc: Doc)
    | Answered(side: Side, path: string, answer: Answer)

  datatype System = System(cache: Cache, calls: map<nat, Call>)

  datatype Event =
    | Begin(id: nat, side: Side, path: string)
    | Lookup(id: nat)
    | Read(id: nat, disk: Disk)
    | Store(id: nat)

  /** One step of one call; an event that its call is not ready for changes nothing. */
  ghost function Next(session: Session, s: System, e: Event): System {
    match e
    case Begin(id, side, path) =>
      if id in s.calls then s else s.(calls := s.calls[id := Asked(side, path)])
    case Lookup(id) =>
      if id !in s.calls || !s.calls[id].Asked? then s
      else
        var Asked(side, path) := s.calls[id];
        s.(calls := s.calls[id :=
          match Check(session, side, path)
          case Err(e) => Answered(side, path, Err(e))
          case Ok(entry) =>
            if Key(side, path) in s.cache then Answered(side, path, Ok(s.cache[Key(side, path)]))
            else Reading(side, path, entry)])
    case Read(id, disk) =>
      if id !in s.calls || !s.calls[id].Reading? then s
      else
        var Reading(side, path, entry) := s.calls[id];
        s.(calls := s.calls[id :=
          match if FromDisk(session, side) then ReadDisk(disk) else ReadBlob(session, side, path, entry)
          case Err(e) => Answered(side, path, Err(e))
          case Ok(doc) => Holding(side, path, doc)])
    case Store(id) =>
      if id !in s.calls || !s.calls[id].Holding? then s
      else
        var Holding(side, path, doc) := s.calls[id];
        System(Stored(s.cache, Key(side, path), doc), s.calls[id := Answered(side, path, Ok(doc))])
  }

  const START: System := System(map[], map[])

  ghost function Run(session: Session, events: seq<Event>): System {
    if events == [] then START
    else Next(session, Run(session, events[..|events| - 1]), events[|events| - 1])
  }

  /** What the call knows so far agrees with an uncached read. */
  predicate Agrees(session: Session, call: Call) {
    FromDisk(session, call.side) ||
    match call
    case Asked(_, _) => true
    case Reading(side, path, entry) => Check(session, side, path) == Ok(entry)
    case Holding(side, path, doc) => Uncached(session, side, path) == Ok(doc)
    case Answered(side, path, answer) => answer == Uncached(session, side, path)
  }

  ghost predicate Transparent(session: Session, s: System) {
    && (forall id | id in s.calls :: Agrees(session, s.calls[id]))
    && (forall side, path | Key(side, path) in s.cache && !FromDisk(session, side) ::
          Uncached(session, side, path) == Ok(s.cache[Key(side, path)]))
  }

  lemma NextIsTransparent(session: Session, s: System, e: Event)
    requires Transparent(session, s)
    ensures Transparent(session, Next(session, s, e))
  {
    var t := Next(session, s, e);
    if e.Store? && t != s {
      var Holding(side, path, doc) := s.calls[e.id];
      forall a, p | Key(a, p) in t.cache && !FromDisk(session, a)
        ensures Uncached(session, a, p) == Ok(t.cache[Key(a, p)])
      {
        if Key(a, p) == Key(side, path) {
          KeysAreDistinct(a, p, side, path);
        }
      }
    }
  }

  /**
    Whatever the interleaving and whatever was evicted, every finished call that does not read the
    working tree answered what an uncached read answers.
   */
  lemma {:induction false} EveryRunIsTransparent(session: Session, events: seq<Event>)
    ensures Transparent(session, Run(session, events))
  {
    if events != [] {
      EveryRunIsTransparent(session, events[..|events| - 1]);
      NextIsTransparent(session, Run(session, events[..|events| - 1]), events[|events| - 1]);
    }
  }

  /** So every finished call that does not read the working tree answers with the file it was asked for. */
  lemma EveryAnswerServes(session: Session, events: seq<Event>, id: nat, doc: Doc)
    requires id in Run(session, events).calls && Run(session, events).calls[id].Answered?
    requires !(session.local && Run(session, events).calls[id].side.Head?)
    ensures var call := Run(session, events).calls[id];
            call.answer == Ok(doc) <==> Serves(session, call.side, call.path, doc)
  {
    EveryRunIsTransparent(session, events);
    var call := Run(session, events).calls[id];
    assert Agrees(session, call);
    UncachedServes(session, call.side, call.path, doc);
  }

  // ----- The bound -----

  /** The event stores a document: its call holds one. */
  predicate Stores(s: System, e: Event) {
    e.Store? && e.id in s.calls && s.calls[e.id].Holding?
  }

  function KeyStored(s: System, e: Event): string
    requires Stores(s, e)
  {
    Key(s.calls[e.id].side, s.calls[e.id].path)
  }

  function DocStored(s: System, e: Event): Doc
    requires Stores(s, e)
  {
    s.calls[e.id].doc
  }

  ghost function Before(session: Session, events: seq<Event>, k: nat): System
    requires k <= |events|
  {
    Run(session, events[..k])
  }

  lemma BeforeNext(session: Session, events: seq<Event>, k: nat)
    requires k < |events|
    ensures Before(session, events, k + 1) == Next(session, Before(session, events, k), events[k])
  {
    assert events[..k + 1][..k] == events[..k];
  }

  /** A document that does not fit in the cache at all is stored by the k-th event. */
  ghost predicate StoresTooLarge(session: Session, events: seq<Event>, k: nat)
    requires k < |events|
  {
    var s := Before(session, events, k);
    Stores(s, events[k]) && |DocStored(s, events[k]).text| > MAX_CACHE
  }

  lemma StoredFitsIff(cache: Cache, key: string, doc: Doc)
    requires Total(cache) <= MAX_CACHE
    ensures Total(Stored(cache, key, doc)) <= MAX_CACHE <==> |doc.text| <= MAX_CACHE
  {
    if |doc.text| <= MAX_CACHE {
      StoredIsBounded(cache, key, doc);
    } else {
      TotalWithout(map[key := doc], key);
    }
  }

  lemma StepFitsIff(session: Session, s: System, e: Event)
    requires Total(s.cache) <= MAX_CACHE
    ensures Total(Next(session, s, e).cache) <= MAX_CACHE <==>
            !(Stores(s, e) && |DocStored(s, e).text| > MAX_CACHE)
  {
    if Stores(s, e) {
      StoredFitsIff(s.cache, KeyStored(s, e), DocStored(s, e));
    }
  }

  ghost predicate AlwaysBounded(session: Session, events: seq<Event>, n: nat)
    requires n <= |events|
  {
    forall k | 0 <= k <= n :: Total(Before(session, events, k).cache) <= MAX_CACHE
  }

  lemma {:induction false} BoundedSoFarIff(session: Session, events: seq<Event>, n: nat)
    requires n <= |events|
    ensures AlwaysBounded(session, events, n) <==> forall k | 0 <= k < n :: !StoresTooLarge(session, events, k)
  {
    if n == 0 {
      assert Before(session, events, 0) == START;
    } else {
      BoundedSoFarIff(session, events, n - 1);
      BeforeNext(session, events, n - 1);
      var tooLarge := StoresTooLarge(session, events, n - 1);
      if AlwaysBounded(session, events, n - 1) {
        assert Total(Before(session, events, n - 1).cache) <= MAX_CACHE;
        StepFitsIff(session, Before(session, events, n - 1), events[n - 1]);
        assert Total(Before(session, events, n).cache) <= MAX_CACHE <==> !tooLarge;
      }
    }
  }

  /**
    The cached text is within 96 MiB at every moment of a run exactly if no document stored on the
    way is longer than that by itself.
   */
  lemma EveryRunIsBoundedIff(session: Session, events: seq<Event>)
    ensures AlwaysBounded(session, events, |events|) <==>
            forall k | 0 <= k < |events| :: !StoresTooLarge(session, events, k)
  {
    BoundedSoFarIff(session, events, |events|);
  }

  /** Working-tree reads gave no more bytes than the size seen just before. */
  predicate Steady(e: Event) {
    e.Read? && e.disk.Disk? ==> |e.disk.bytes| <= e.disk.size
  }

  ghost predicate Bounded(s: System) {
    && Total(s.cache) <= MAX_CACHE
    && forall id | id in s.calls && s.calls[id].Holding? :: |s.calls[id].doc.text| <= MAX_FILE
  }

  /** So it is if no file grows while it is read. */
  lemma {:induction false} EveryRunIsBounded(session: Session, events: seq<Event>)
    requires forall k | 0 <= k < |events| :: Steady(events[k])
    ensures Bounded(Run(session, events))
  {
    if events != [] {
      var front, e := events[..|events| - 1], events[|events| - 1];
      EveryRunIsBounded(session, front);
      var s := Run(session, front);
      if e.Store? && e.id in s.calls && s.calls[e.id].Holding? {
        StoredIsBounded(s.cache, Key(s.calls[e.id].side, s.calls[e.id].path), s.calls[e.id].doc);
      }
    }
  }

  // ----- The pin of a working-tree file -----

  ghost predicate Pinned(session: Session, events: seq<Event>, k: nat, key: string, doc: Doc)
    requires k <= |events|
  {
    var cache := Before(session, events, k).cache;
    key in cache && cache[key] == doc
  }

  /** The event stores another document under the key, or one under another key for which there is no room. */
  ghost predicate Unpins(s: System, e: Event, key: string, doc: Doc) {
    Stores(s, e) &&
    if KeyStored(s, e) == key then DocStored(s, e) != doc
    else Total(s.cache) + |DocStored(s, e).text| > MAX_CACHE
  }

  lemma StepUnpinsIff(session: Session, s: System, e: Event, key: string, doc: Doc)
    requires key in s.cache && s.cache[key] == doc
    ensures var cache := Next(session, s, e).cache;
            !(key in cache && cache[key] == doc) <==> Unpins(s, e, key, doc)
  {
  }

  ghost predicate StaysPinned(session: Session, events: seq<Event>, first: nat, last: nat, key: string, doc: Doc)
    requires first <= last <= |events|
  {
    forall k | first <= k <= last :: Pinned(session, events, k, key, doc)
  }

  ghost predicate UnpinnedAt(session: Session, events: seq<Event>, k: nat, key: string, doc: Doc)
    requires k < |events|
  {
    Unpins(Before(session, events, k), events[k], key, doc)
  }

  /**
    From any moment of any interleaving at which a document is cached, it is the cached one at every
    later moment exactly if no store on the way puts another document under its key or finds no room
    for one under another key.  Stores of the same document again do no harm.
   */
  lemma {:induction false} PinHoldsIff(session: Session, events: seq<Event>, first: nat, last: nat, key: string, doc: Doc)
    requires first <= last <= |events| && Pinned(session, events, first, key, doc)
    ensures StaysPinned(session, events, first, last, key, doc) <==>
            forall k | first <= k < last :: !UnpinnedAt(session, events, k, key, doc)
    decreases last
  {
    if first < last {
      PinHoldsIff(session, events, first, last - 1, key, doc);
      BeforeNext(session, events, last - 1);
      var unpinned := UnpinnedAt(session, events, last - 1, key, doc);
      if StaysPinned(session, events, first, last - 1, key, doc) {
        assert Pinned(session, events, last - 1, key, doc);
        StepUnpinsIff(session, Before(session, events, last - 1), events[last - 1], key, doc);
        assert Pinned(session, events, last, key, doc) <==> !unpinned;
      }
    }
  }

  // ----- Runs that lose the pin or the bound -----

  lemma RunOneMore(session: Session, events: seq<Event>, e: Event)
    ensures Run(session, events + [e]) == Next(session, Run(session, events), e)
  {
    assert (events + [e])[..|events|] == events;
  }

  lemma RunTwoMore(session: Session, events: seq<Event>, e: Event, f: Event)
    ensures Run(session, events + [e, f]) == Next(session, Next(session, Run(session, events), e), f)
  {
    RunOneMore(session, events, e);
    RunOneMore(session, events + [e], f);
    assert events + [e] + [f] == events + [e, f];
  }

  /** The working tree gave this text for the path. */
  predicate Gives(session: Session, path: string, disk: Disk, doc: Doc) {
    session.local && Check(session, Head, path).Ok? && ReadDisk(disk) == Ok(doc)
  }

  /** A call that is reading reads and stores. */
  lemma ReadStores(session: Session, events: seq<Event>, id: nat, path: string, disk: Disk, doc: Doc)
    requires Gives(session, path, disk, doc)
    requires id in Run(session, events).calls && Run(session, events).calls[id] == Reading(Head, path, Check(session, Head, path).value)
    ensures var s := Run(session, events);
            && Run(session, events + [Read(id, disk)]) == System(s.cache, s.calls[id := Holding(Head, path, doc)])
            && Run(session, events + [Read(id, disk), Store(id)]) ==
               System(Stored(s.cache, Key(Head, path), doc), s.calls[id := Answered(Head, path, Ok(doc))])
  {
    RunOneMore(session, events, Read(id, disk));
    RunTwoMore(session, events, Read(id, disk), Store(id));
  }

  /** A call that finds its path not cached, up to the moment it stores. */
  function CallReads(id: nat, path: string, disk: Disk): seq<Event> {
    [Begin(id, Head, path), Lookup(id)] + [Read(id, disk), Store(id)]
  }

  lemma CallStores(session: Session, events: seq<Event>, id: nat, path: string, disk: Disk, doc: Doc)
    requires Gives(session, path, disk, doc)
    requires id !in Run(session, events).calls && Key(Head, path) !in Run(session, events).cache
    ensures var s := Run(session, events);
            Run(session, events + CallReads(id, path, disk)) ==
            System(Stored(s.cache, Key(Head, path), doc), s.calls[id := Answered(Head, path, Ok(doc))])
  {
    var look := [Begin(id, Head, path), Lookup(id)];
    RunTwoMore(session, events, look[0], look[1]);
    var s, entry := Run(session, events), Check(session, Head, path).value;
    assert Run(session, events + look) == System(s.cache, s.calls[id := Reading(Head, path, entry)]);
    ReadStores(session, events + look, id, path, disk, doc);
    assert events + look + [Read(id, disk), Store(id)] == events + CallReads(id, path, disk);
  }

  /** Both calls look before either stores. */
  function BothLook(path: string): seq<Event> {
    [Begin(1, Head, path), Begin(2, Head, path)] + [Lookup(1), Lookup(2)]
  }

  function OverlappingReads(path: string, a: Disk, b: Disk): seq<Event> {
    BothLook(path) + [Read(1, a), Store(1)] + [Read(2, b), Store(2)]
  }

  lemma BothAreReading(session: Session, path: string)
    requires session.local && Check(session, Head, path).Ok?
    ensures var entry := Check(session, Head, path).value;
            Run(session, BothLook(path)) == System(map[], map[1 := Reading(Head, path, entry), 2 := Reading(Head, path, entry)])
  {
    var begun := [Begin(1, Head, path), Begin(2, Head, path)];
    assert [] + begun == begun;
    RunTwoMore(session, [], begun[0], begun[1]);
    assert Run(session, begun) == System(map[], map[1 := Asked(Head, path), 2 := Asked(Head, path)]);
    RunTwoMore(session, begun, Lookup(1), Lookup(2));
  }

  /**
    Two overlapping first reads of a file that changes in between: with room for both, the second
    replaces the first, and each caller is answered with its own.
   */
  lemma OverlappingReadsRepin(session: Session, path: string, a: Disk, b: Disk, first: Doc, second: Doc)
    requires Gives(session, path, a, first) && Gives(session, path, b, second) && first != second
    requires |first.text| + |second.text| <= MAX_CACHE
    ensures var events, key := OverlappingReads(path, a, b), Key(Head, path);
            && |events| == 8 && Pinned(session, events, 6, key, first) && Pinned(session, events, 8, key, second)
            && Run(session, events).calls ==
               map[1 := Answered(Head, path, Ok(first)), 2 := Answered(Head, path, Ok(second))]
            && Total(Before(session, events, 7).cache) + |second.text| <= MAX_CACHE
  {
    var key, looked, events := Key(Head, path), BothLook(path), OverlappingReads(path, a, b);
    var once := looked + [Read(1, a), Store(1)];
    BothAreReading(session, path);
    ReadStores(session, looked, 1, path, a, first);
    TotalAfterInsert(map[], key, first);
    assert Run(session, once).cache == map[key := first];
    ReadStores(session, once, 2, path, b, second);
    OverlappingPrefixes(path, a, b);
    TotalWithout(map[key := first], key);
  }

  lemma OverlappingPrefixes(path: string, a: Disk, b: Disk)
    ensures var events, once := OverlappingReads(path, a, b), BothLook(path) + [Read(1, a), Store(1)];
            && |events| == 8 && events[..6] == once && events[..7] == once + [Read(2, b)] && events[..8] == events
            && events == once + [Read(2, b), Store(2)]
  {
  }

  /**
    A file that was read, another file for which there is then no room, and the first file again,
    changed: its pin is gone and it is answered with its new bytes.
   */
  lemma OverflowUnpins(session: Session, p: string, q: string, a: Disk, b: Disk, c: Disk, first: Doc, other: Doc, again: Doc)
    requires Gives(session, p, a, first) && Gives(session, q, b, other) && Gives(session, p, c, again) && p != q
    requires |first.text| <= MAX_CACHE < |first.text| + |other.text|
    ensures var key := Key(Head, p);
            var once := CallReads(1, p, a);
            var twice := once + CallReads(2, q, b);
            var thrice := twice + CallReads(3, p, c);
            && key in Run(session, once).cache && Run(session, once).cache[key] == first
            && key !in Run(session, twice).cache
            && 1 in Run(session, thrice).calls && 3 in Run(session, thrice).calls
            && Run(session, thrice).calls[1] == Answered(Head, p, Ok(first))
            && Run(session, thrice).calls[3] == Answered(Head, p, Ok(again))
  {
    KeysDiffer(p, q);
    var once := CallReads(1, p, a);
    CallStores(session, [], 1, p, a, first);
    assert [] + once == once;
    TotalAfterInsert(map[], Key(Head, p), first);
    assert Run(session, once).cache == map[Key(Head, p) := first];
    TotalWithout(map[Key(Head, p) := first], Key(Head, p));
    CallStores(session, once, 2, q, b, other);
    var twice := once + CallReads(2, q, b);
    assert Run(session, twice).cache == map[Key(Head, q) := other];
    CallStores(session, twice, 3, p, c, again);
  }

  lemma KeysDiffer(p: string, q: string)
    requires p != q
    ensures Key(Head, p) != Key(Head, q)
  {
    if Key(Head, p) == Key(Head, q) {
      KeysAreDistinct(Head, p, Head, q);
    }
  }

  /** A file that grew past 96 MiB between its size check and its read is cached whole. */
  lemma GrownFileExceedsBound(session: Session, path: string, disk: Disk, doc: Doc)
    requires Gives(session, path, disk, doc) && |doc.text| > MAX_CACHE
    ensures Total(Run(session, CallReads(1, path, disk)).cache) > MAX_CACHE
  {
    var events := CallReads(1, path, disk);
    CallStores(session, [], 1, path, disk, doc);
    assert [] + events == events;
    TotalWithout(map[Key(Head, path) := doc], Key(Head, path));
  }

  // ----- That there are such files -----

  lemma LettersAreText(n: nat, blob: string) returns (bytes: seq<byte>)
    ensures |bytes| == n && Documents.Built(blob, bytes).text == bytes
  {
    var text := seq(n, _ => 'a');
    Utf8.AsciiBytes(text);
    bytes := Utf8.Encode(text);
    Utf8.DecodeEncode(text);
    assert forall k | 0 <= k < n :: bytes[k] == text[k] as int;
  }

  /** A local session with two plain files. */
  lemma TwoFiles() returns (session: Session)
    ensures session.local && Check(session, Head, "a").Ok? && Check(session, Head, "b").Ok?
  {
    var files := [Entry("a", "", 0, "100644", "", None), Entry("b", "", 0, "100644", "", None)];
    session := Session(true, "", None, files, (_, _) => Err(""), _ => None);
    PlainPathsAreAllowed('a');
    PlainPathsAreAllowed('b');
    assert files[1..][0] == files[1];
  }

  /** The comment that local bytes are pinned on first read fails for these runs, and so does the bound. */
  lemma PinAndBoundCanFail() returns (session: Session, a: Disk, b: Disk, large: Disk, grown: Disk)
    ensures a.Disk? && b.Disk? && large.Disk? && grown.Disk?
    ensures Steady(Read(1, a)) && Steady(Read(1, b)) && Steady(Read(1, large))
    ensures exists first, second | first != second ::
              var events := OverlappingReads("a", a, b);
              Pinned(session, events, 6, Key(Head, "a"), first) && Pinned(session, events, 8, Key(Head, "a"), second)
    ensures Key(Head, "a") in Run(session, CallReads(1, "a", large)).cache
    ensures Key(Head, "a") !in Run(session, CallReads(1, "a", large) + CallReads(2, "b", large)).cache
    ensures grown.size <= MAX_FILE && Total(Run(session, CallReads(1, "a", grown)).cache) > MAX_CACHE
  {
    session := TwoFiles();
    var one := LettersAreText(1, "first");
    var two := LettersAreText(2, "second");
    a, b := Disk(1, one, "first"), Disk(2, two, "second");
    var first, second := Documents.Built("first", one), Documents.Built("second", two);
    OverlappingReadsRepin(session, "a", a, b, first, second);
    var much := LettersAreText(MAX_FILE, "much");
    large := Disk(MAX_FILE, much, "much");
    var doc := Documents.Built("much", much);
    OverflowUnpins(session, "a", "b", large, large, a, doc, doc, first);
    var more := LettersAreText(MAX_CACHE + 1, "more");
    grown := Disk(0, more, "more");
    GrownFileExceedsBound(session, "a", grown, Documents.Built("more", more));
  }
}
