/**
  The invocation ledger: recorded runs, their receipts and the assessments of their usefulness.

  A ledger changes by starting and finishing invocations, by recording assessments, by a recorder
  dying, and by anything outside that rewrites a receipt file.  `Run` is any sequence of these.
 */
module Ledger {
  import opened Wrappers
  import opened Supervision
  import opened JsonPointer
  import Strings
  import Utf8

  const MAX_SUMMARY: nat := 2000
  const MAX_POINTERS: nat := 8

  type Id = nat

  /** The digest function and JSON parsing, which the model leaves open. */
  datatype Outside = Outside(sha: seq<byte> -> string, parse: seq<byte> -> Option<Json>)

  /** `born` counts the invocations recorded before; identifiers are fresh. */
  datatype Invocation = Invocation(repo: string, task: Option<string>, parent: Option<Id>, born: nat,
                                   state: State, digest: Option<string>)

  datatype Outcome = Helped | DidNotHelp | Inconclusive | Blocked
  datatype Evidence = Evidence(digest: string, pointer: string)
  datatype Assessment = Assessment(outcome: Outcome, summary: string, evidence: seq<Evidence>)

  datatype Books = Books(
    invocations: map<Id, Invocation>,
    receipts: map<Id, seq<byte>>,
    assessments: map<Id, map<Id, Assessment>>)

  datatype Refusal =
    | BadSummary | BadPointers | NoInvocation | StillRunning | NoReceipt | ReceiptChanged
    | PointerUnresolved | NoEvidence | Incomplete

  const EMPTY: Books := Books(map[], map[], map[])

  // ----- Recording an assessment -----

  datatype Request = Request(id: Id, outcome: Outcome, summary: string, pointers: seq<string>)

  /** White space as Python's `str.strip` sees it: Unicode's, and four separators besides. */
  predicate Space(c: char) {
    Strings.White(c) || 0x1C <= c as int <= 0x1F
  }

  function Stripped(s: string): string {
    if s != "" && Space(s[0]) then Stripped(s[1..])
    else if s != "" && Space(s[|s| - 1]) then Stripped(s[..|s| - 1])
    else s
  }

  predicate AllSpaces(s: string) {
    forall k | 0 <= k < |s| :: Space(s[k])
  }

  lemma PutBack(first: char, before: string, kept: string, after: string, last: char)
    ensures [first] + (before + kept + after) == ([first] + before) + kept + after
    ensures (before + kept + after) + [last] == before + kept + (after + [last])
  {
  }

  /** Spaces are taken off both ends, and all that are there. */
  lemma {:induction false} StrippedIs(s: string) returns (before: string, after: string)
    ensures s == before + Stripped(s) + after && AllSpaces(before) && AllSpaces(after)
    ensures Stripped(s) != "" ==> !Space(Stripped(s)[0]) && !Space(Stripped(s)[|Stripped(s)| - 1])
  {
    before, after := "", "";
    if s != "" && Space(s[0]) {
      before, after := StrippedIs(s[1..]);
      PutBack(s[0], before, Stripped(s), after, s[0]);
      before := [s[0]] + before;
      assert s == [s[0]] + s[1..];
    } else if s != "" && Space(s[|s| - 1]) {
      before, after := StrippedIs(s[..|s| - 1]);
      PutBack(s[0], before, Stripped(s), after, s[|s| - 1]);
      after := after + [s[|s| - 1]];
      assert s == s[..|s| - 1] + [s[|s| - 1]];
    }
  }

  predicate Unique(pointers: seq<string>) {
    forall i, j | 0 <= i < j < |pointers| :: pointers[i] != pointers[j]
  }

  /** The receipt the pointers are resolved in: the file on disk, if it still has the recorded digest. */
  function Receipt(o: Outside, books: Books, id: Id): Result<Json, Refusal>
    requires id in books.invocations
  {
    if id !in books.receipts || |books.receipts[id]| > MAX_RECEIPT then Err(NoReceipt)
    else
      var raw := books.receipts[id];
      if Some(o.sha(raw)) != books.invocations[id].digest then Err(ReceiptChanged)
      else
        match o.parse(raw)
        case None => Err(NoReceipt)
        case Some(receipt) => Ok(receipt)
  }

  predicate AllResolve(receipt: Json, pointers: seq<string>) {
    forall k | 0 <= k < |pointers| :: Resolved(receipt, pointers[k], true).Ok?
  }

  function EvidenceFor(digest: string, pointers: seq<string>): seq<Evidence> {
    if pointers == [] then []
    else EvidenceFor(digest, pointers[..|pointers| - 1]) + [Evidence(digest, pointers[|pointers| - 1])]
  }

  /** Resolves the pointers one after the other; None if one does not resolve. */
  method Cite(receipt: Json, digest: string, pointers: seq<string>) returns (evidence: Option<seq<Evidence>>)
    ensures evidence.Some? <==> AllResolve(receipt, pointers)
    ensures evidence.Some? ==> evidence.value == EvidenceFor(digest, pointers) && |evidence.value| == |pointers|
  {
    var cited: seq<Evidence> := [];
    for i := 0 to |pointers|
      invariant cited == EvidenceFor(digest, pointers[..i]) && |cited| == i
      invariant forall k | 0 <= k < i :: Resolved(receipt, pointers[k], true).Ok?
    {
      assert pointers[..i + 1][..i] == pointers[..i];
      var resolved := ResolvePointer(receipt, pointers[i], true);
      if resolved.Err? {
        return None;
      }
      cited := cited + [Evidence(digest, pointers[i])];
    }
    assert pointers[..|pointers|] == pointers;
    evidence := Some(cited);
  }

  /** The files of one ledger directory. */
  class Directory {
    var books: Books

    constructor ()
      ensures books == EMPTY
    {
      books := EMPTY;
    }

    /** Appends an assessment under a fresh identifier, or refuses and leaves everything as it was. */
    method RecordAssessment(o: Outside, request: Request, fresh_: Id) returns (r: Result<Assessment, Refusal>)
      modifies this
      ensures r == Assessed(o, old(books), request)
      ensures books == if r.Ok? then Appended(old(books), request.id, fresh_, r.value) else old(books)
    {
      var summary := Stripped(request.summary);
      if summary == "" || Utf8.ByteLength(summary) > MAX_SUMMARY {
        return Err(BadSummary);
      }
      if |request.pointers| > MAX_POINTERS || !Unique(request.pointers) {
        return Err(BadPointers);
      }
      if request.id !in books.invocations {
        return Err(NoInvocation);
      }
      var invocation := books.invocations[request.id];
      if invocation.state == Running {
        return Err(StillRunning);
      }
      var evidence: seq<Evidence> := [];
      if request.pointers != [] {
        var receipt := Receipt(o, books, request.id);
        if receipt.Err? {
          return Err(receipt.error);
        }
        var digest := o.sha(books.receipts[request.id]);
        var cited := Cite(receipt.value, digest, request.pointers);
        if cited.None? {
          return Err(PointerUnresolved);
        }
        evidence := cited.value;
      }
      if request.outcome == Helped && evidence == [] {
        return Err(NoEvidence);
      }
      if request.outcome == Helped && invocation.state in {Unavailable, Interrupted, TimedOut, OutputLimit} {
        return Err(Incomplete);
      }
      var assessment := Assessment(request.outcome, summary, evidence);
      books := Appended(books, request.id, fresh_, assessment);
      return Ok(assessment);
    }
  }

  /** What recording answers: the first refusal that applies, or the assessment it writes. */
  function Assessed(o: Outside, books: Books, q: Request): Result<Assessment, Refusal> {
    var summary := Stripped(q.summary);
    if summary == "" || Utf8.ByteLength(summary) > MAX_SUMMARY then Err(BadSummary)
    else if |q.pointers| > MAX_POINTERS || !Unique(q.pointers) then Err(BadPointers)
    else if q.id !in books.invocations then Err(NoInvocation)
    else
      var invocation := books.invocations[q.id];
      if invocation.state == Running then Err(StillRunning)
      else if q.pointers != [] && Receipt(o, books, q.id).Err? then Err(Receipt(o, books, q.id).error)
      else if q.pointers != [] && !AllResolve(Receipt(o, books, q.id).value, q.pointers) then Err(PointerUnresolved)
      else if q.outcome == Helped && q.pointers == [] then Err(NoEvidence)
      else if q.outcome == Helped && invocation.state in {Unavailable, Interrupted, TimedOut, OutputLimit} then Err(Incomplete)
      else
        var digest := if q.pointers == [] then "" else invocation.digest.value;
        Ok(Assessment(q.outcome, summary, EvidenceFor(digest, q.pointers)))
  }

  /** The file on disk is the receipt recorded for the invocation, whole, and JSON. */
  ghost predicate Intact(o: Outside, books: Books, id: Id) {
    && id in books.invocations && id in books.receipts && |books.receipts[id]| <= 2 * 1024 * 1024
    && books.invocations[id].digest == Some(o.sha(books.receipts[id])) && o.parse(books.receipts[id]).Some?
  }

  /** The pointer is the writing of a path to something in the receipt. */
  ghost predicate Cites(receipt: Json, pointer: string) {
    |pointer| <= 512 && exists path ::
      path != [] && PointerTo(path) == pointer && NodeAt(receipt, path).Some? && HoldsSomething(NodeAt(receipt, path).value)
  }

  lemma CitesIff(receipt: Json, pointer: string)
    ensures Resolved(receipt, pointer, true).Ok? <==> Cites(receipt, pointer)
  {
    if Resolved(receipt, pointer, true).Ok? {
      ResolvesIffPathLeads(receipt, pointer, Resolved(receipt, pointer, true).value, true);
    }
    if Cites(receipt, pointer) {
      var path :| path != [] && PointerTo(path) == pointer && NodeAt(receipt, path).Some? && HoldsSomething(NodeAt(receipt, path).value);
      ResolvesIffPathLeads(receipt, pointer, NodeAt(receipt, path).value, true);
    }
  }

  ghost predicate AllCite(receipt: Json, pointers: seq<string>) {
    forall k | 0 <= k < |pointers| :: Cites(receipt, pointers[k])
  }

  lemma AllCiteIff(receipt: Json, pointers: seq<string>)
    ensures AllResolve(receipt, pointers) <==> AllCite(receipt, pointers)
  {
    forall k | 0 <= k < |pointers|
      ensures Resolved(receipt, pointers[k], true).Ok? <==> Cites(receipt, pointers[k])
    {
      CitesIff(receipt, pointers[k]);
    }
  }

  /** What may be recorded: a short summary of a finished run, and up to eight citations of its receipt. */
  ghost predicate Acceptable(o: Outside, books: Books, q: Request) {
    && Stripped(q.summary) != "" && Utf8.ByteLength(Stripped(q.summary)) <= 2000
    && |q.pointers| <= 8 && (forall i, j | 0 <= i < j < |q.pointers| :: q.pointers[i] != q.pointers[j])
    && q.id in books.invocations && books.invocations[q.id].state != Running
    && (q.pointers != [] ==> Intact(o, books, q.id) && AllCite(o.parse(books.receipts[q.id]).value, q.pointers))
    && (q.outcome == Helped ==> q.pointers != [] && books.invocations[q.id].state in {Completed, Failed})
  }

  /** What is then recorded: what was asked for, with the digest of the receipt beside each citation. */
  ghost predicate RecordsRequest(books: Books, q: Request, a: Assessment) {
    && a.outcome == q.outcome && a.summary == Stripped(q.summary) && |a.evidence| == |q.pointers|
    && forall k | 0 <= k < |q.pointers| ::
         && a.evidence[k].pointer == q.pointers[k]
         && q.id in books.invocations && books.invocations[q.id].digest == Some(a.evidence[k].digest)
  }

  /** An assessment is recorded, as asked for, exactly if it is acceptable. */
  lemma AcceptedIff(o: Outside, books: Books, q: Request)
    ensures Assessed(o, books, q).Ok? <==> Acceptable(o, books, q)
    ensures Assessed(o, books, q).Ok? ==> RecordsRequest(books, q, Assessed(o, books, q).value)
  {
    if q.id in books.invocations {
      var invocation := books.invocations[q.id];
      ReceiptOkIff(o, books, q.id);
      if Intact(o, books, q.id) {
        AllCiteIff(o.parse(books.receipts[q.id]).value, q.pointers);
      }
      EvidenceCites(if q.pointers == [] || invocation.digest.None? then "" else invocation.digest.value, q.pointers);
    }
  }

  lemma ReceiptOkIff(o: Outside, books: Books, id: Id)
    requires id in books.invocations
    ensures Receipt(o, books, id).Ok? <==> Intact(o, books, id)
    ensures Receipt(o, books, id).Ok? ==> Receipt(o, books, id).value == o.parse(books.receipts[id]).value
  {
  }

  /** What each refusal says. */
  lemma RefusedBecause(o: Outside, books: Books, q: Request)
    ensures match Assessed(o, books, q)
            case Ok(_) => true
            case Err(why) =>
              && (why == BadSummary <==> Stripped(q.summary) == "" || Utf8.ByteLength(Stripped(q.summary)) > 2000)
              && (why == BadPointers ==> |q.pointers| > 8 || exists i, j :: 0 <= i < j < |q.pointers| && q.pointers[i] == q.pointers[j])
              && (why == NoInvocation ==> q.id !in books.invocations)
              && (why in {StillRunning, NoReceipt, ReceiptChanged, PointerUnresolved, NoEvidence, Incomplete} ==>
                    q.id in books.invocations && (why == StillRunning <==> books.invocations[q.id].state == Running))
              && (why == ReceiptChanged ==>
                    q.id in books.receipts && books.invocations[q.id].digest != Some(o.sha(books.receipts[q.id])))
              && (why == PointerUnresolved ==>
                    Intact(o, books, q.id) && exists k :: 0 <= k < |q.pointers| && !Cites(o.parse(books.receipts[q.id]).value, q.pointers[k]))
              && (why == NoEvidence ==> q.outcome == Helped && q.pointers == [])
              && (why == Incomplete ==> books.invocations[q.id].state in {Unavailable, Interrupted, TimedOut, OutputLimit})
  {
    if Assessed(o, books, q) == Err(PointerUnresolved) {
      ReceiptOkIff(o, books, q.id);
      var receipt := Receipt(o, books, q.id).value;
      var k :| 0 <= k < |q.pointers| && !Resolved(receipt, q.pointers[k], true).Ok?;
      CitesIff(receipt, q.pointers[k]);
    }
  }

  function AssessmentsOf(books: Books, id: Id): map<Id, Assessment> {
    if id in books.assessments then books.assessments[id] else map[]
  }

  function Appended(books: Books, id: Id, fresh_: Id, a: Assessment): Books {
    books.(assessments := books.assessments[id := AssessmentsOf(books, id)[fresh_ := a]])
  }

  // ----- Runs of the ledger -----

  datatype Event =
    | Begin(id: Id, repo: string, task: Option<string>, parent: Option<Id>)
    | Finish(id: Id, record: Record, data: Option<seq<byte>>)
    | Assess(request: Request, fresh_: Id)
    | Tamper(id: Id, bytes: seq<byte>)

  /** A parent is an invocation of the same repository and task; it needs a task. */
  predicate ParentAllowed(books: Books, repo: string, task: Option<string>, parent: Option<Id>) {
    parent.Some? ==>
      && task.Some? && parent.value in books.invocations
      && books.invocations[parent.value].repo == repo && books.invocations[parent.value].task == task
  }

  /** The record is one that supervision can return. */
  predicate Supervised(o: Outside, record: Record, data: Option<seq<byte>>) {
    record.state != Running && (record.digest.Some? ==> data.Some? && record.digest == Some(o.sha(data.value)))
  }

  /** One event; what the recorder refuses changes nothing. */
  function Next(o: Outside, books: Books, e: Event): Books {
    match e
    case Begin(id, repo, task, parent) =>
      if id in books.invocations || !ParentAllowed(books, repo, task, parent) then books
      else books.(invocations := books.invocations[id := Invocation(repo, task, parent, |books.invocations|, Running, None)])
    case Finish(id, record, data) =>
      if id !in books.invocations || books.invocations[id].state != Running || !Supervised(o, record, data) then books
      else
        var done := books.(invocations := books.invocations[id := books.invocations[id].(state := record.state, digest := record.digest)]);
        if record.digest.Some? then done.(receipts := done.receipts[id := data.value]) else done
    case Assess(q, fresh_) =>
      var r := Assessed(o, books, q);
      if r.Ok? && fresh_ !in AssessmentsOf(books, q.id) then Appended(books, q.id, fresh_, r.value) else books
    case Tamper(id, bytes) => books.(receipts := books.receipts[id := bytes])
  }

  function Run(o: Outside, events: seq<Event>): Books {
    if events == [] then EMPTY else Next(o, Run(o, events[..|events| - 1]), events[|events| - 1])
  }

  // ----- Assessments rest on their receipts -----

  /** Some bytes with the recorded digest hold, as JSON, a nonempty value under every pointer cited. */
  ghost predicate Grounded(o: Outside, invocation: Invocation, a: Assessment) {
    a.evidence != [] ==>
      invocation.digest.Some? && exists raw ::
        && |raw| <= MAX_RECEIPT && o.sha(raw) == invocation.digest.value && o.parse(raw).Some?
        && forall k | 0 <= k < |a.evidence| ::
             && a.evidence[k].digest == invocation.digest.value
             && Resolved(o.parse(raw).value, a.evidence[k].pointer, true).Ok?
  }

  /** The invocation is over; "helped" rests on evidence and on a run that was not cut short. */
  ghost predicate Justified(o: Outside, books: Books, id: Id, a: Assessment) {
    && id in books.invocations && books.invocations[id].state != Running
    && Grounded(o, books.invocations[id], a)
    && (a.outcome == Helped ==> a.evidence != [] && books.invocations[id].state in {Completed, Failed})
  }

  ghost predicate AllJustified(o: Outside, books: Books) {
    forall id, aid | id in books.assessments && aid in books.assessments[id] ::
      Justified(o, books, id, books.assessments[id][aid])
  }

  lemma {:induction false} EvidenceCites(digest: string, pointers: seq<string>)
    ensures |EvidenceFor(digest, pointers)| == |pointers|
    ensures forall k | 0 <= k < |pointers| :: EvidenceFor(digest, pointers)[k] == Evidence(digest, pointers[k])
  {
    if pointers != [] {
      EvidenceCites(digest, pointers[..|pointers| - 1]);
    }
  }

  lemma AcceptedIsJustified(o: Outside, books: Books, q: Request)
    requires Assessed(o, books, q).Ok?
    ensures Justified(o, books, q.id, Assessed(o, books, q).value)
  {
    EvidenceCites("", []);
    if q.pointers != [] {
      var raw, digest := books.receipts[q.id], books.invocations[q.id].digest.value;
      EvidenceCites(digest, q.pointers);
      CitedIsGrounded(o, books.invocations[q.id], Assessed(o, books, q).value, raw, q.pointers);
    }
  }

  lemma CitedIsGrounded(o: Outside, invocation: Invocation, a: Assessment, raw: seq<byte>, pointers: seq<string>)
    requires |raw| <= MAX_RECEIPT && invocation.digest == Some(o.sha(raw)) && o.parse(raw).Some?
    requires a.evidence == EvidenceFor(invocation.digest.value, pointers) && AllResolve(o.parse(raw).value, pointers)
    ensures Grounded(o, invocation, a)
  {
    EvidenceCites(invocation.digest.value, pointers);
  }

  lemma NextIsJustified(o: Outside, books: Books, e: Event)
    requires AllJustified(o, books)
    ensures AllJustified(o, Next(o, books, e))
  {
    var after := Next(o, books, e);
    if e.Assess? && after != books {
      AcceptedIsJustified(o, books, e.request);
    }
    forall id, aid | id in after.assessments && aid in after.assessments[id]
      ensures Justified(o, after, id, after.assessments[id][aid])
    {
      var a := after.assessments[id][aid];
      assert Justified(o, books, id, a);
      assert after.invocations[id] == books.invocations[id];
    }
  }

  /**
    In every reachable ledger, also after outside changes to receipt files, each assessment is
    justified: its evidence has the digest recorded for its finished invocation and resolves in
    bytes with that digest, and "helped" has evidence from a completed or failed run.
   */
  lemma {:induction false} EveryLedgerIsJustified(o: Outside, events: seq<Event>)
    ensures AllJustified(o, Run(o, events))
  {
    if events != [] {
      EveryLedgerIsJustified(o, events[..|events| - 1]);
      NextIsJustified(o, Run(o, events[..|events| - 1]), events[|events| - 1]);
    }
  }

  // ----- Looking at what was cited -----

  datatype Shown =
    | Field(digest: string, value: Json)
    | Detail(invocation: Invocation, receipt: Option<Json>, assessments: map<Id, Assessment>)

  /** One field of the receipt, empty or not, or all there is; never a receipt that has changed. */
  function Inspected(o: Outside, books: Books, id: Id, pointer: Option<string>): Result<Shown, Refusal> {
    if id !in books.invocations then Err(NoInvocation)
    else
      var invocation := books.invocations[id];
      if invocation.digest.Some? && Receipt(o, books, id).Err? then Err(Receipt(o, books, id).error)
      else
        var receipt := if invocation.digest.None? then None else Some(Receipt(o, books, id).value);
        match pointer
        case None => Ok(Detail(invocation, receipt, AssessmentsOf(books, id)))
        case Some(p) =>
          if receipt.None? then Err(NoReceipt)
          else
            match Resolved(receipt.value, p, false)
            case Err(_) => Err(PointerUnresolved)
            case Ok(value) => Ok(Field(invocation.digest.value, value))
  }

  /**
    Inspection succeeds exactly for a recorded invocation whose receipt, if it has one, is intact,
    and, for a field, a pointer to something in it, empty or not.  It shows that or all there is.
   */
  lemma InspectedIff(o: Outside, books: Books, id: Id, pointer: Option<string>)
    ensures var r := Inspected(o, books, id, pointer);
            && (r.Ok? <==>
                  && id in books.invocations && (books.invocations[id].digest.Some? ==> Intact(o, books, id))
                  && (pointer.Some? ==> books.invocations[id].digest.Some? && exists node :: Leads(o, books, id, pointer.value, node)))
            && (r.Ok? && pointer.Some? ==>
                  r.value.Field? && Some(r.value.digest) == books.invocations[id].digest && Leads(o, books, id, pointer.value, r.value.value))
            && (r.Ok? && pointer.None? ==>
                  r.value == Detail(books.invocations[id], if books.invocations[id].digest.Some? then o.parse(books.receipts[id]) else None,
                                    if id in books.assessments then books.assessments[id] else map[]))
  {
    if id in books.invocations {
      ReceiptOkIff(o, books, id);
      if Intact(o, books, id) && pointer.Some? {
        FieldIff(o, books, id, pointer.value);
      }
    }
  }

  /** The node at the end of the path that is written as this pointer. */
  ghost predicate Leads(o: Outside, books: Books, id: Id, pointer: string, node: Json)
  {
    && Intact(o, books, id) && |pointer| <= 512
    && exists path :: path != [] && NodeAt(o.parse(books.receipts[id]).value, path) == Some(node) && PointerTo(path) == pointer
  }

  lemma FieldIff(o: Outside, books: Books, id: Id, pointer: string)
    requires Intact(o, books, id)
    ensures var r := Resolved(o.parse(books.receipts[id]).value, pointer, false);
            && (r.Ok? <==> exists node :: Leads(o, books, id, pointer, node))
            && (r.Ok? ==> Leads(o, books, id, pointer, r.value))
  {
    var receipt := o.parse(books.receipts[id]).value;
    if Resolved(receipt, pointer, false).Ok? {
      ResolvesIffPathLeads(receipt, pointer, Resolved(receipt, pointer, false).value, false);
      assert Leads(o, books, id, pointer, Resolved(receipt, pointer, false).value);
    }
    if node :| Leads(o, books, id, pointer, node) {
      ResolvesIffPathLeads(receipt, pointer, node, false);
    }
  }

  /**
    When no two byte strings share a digest, the evidence an assessment of a reachable ledger cites
    can be inspected exactly while the receipt on disk has the recorded digest: then its pointer
    shows a nonempty value and the digest cited.
   */
  lemma CitedEvidenceCanBeInspected(o: Outside, events: seq<Event>, id: Id, aid: Id, k: nat)
    requires forall x, y :: o.sha(x) == o.sha(y) ==> x == y
    requires id in Run(o, events).assessments && aid in Run(o, events).assessments[id]
    requires k < |Run(o, events).assessments[id][aid].evidence|
    ensures var books := Run(o, events);
            var cited := books.assessments[id][aid].evidence[k];
            && id in books.invocations
            && (Inspected(o, books, id, Some(cited.pointer)).Ok? <==>
                  id in books.receipts && Some(o.sha(books.receipts[id])) == books.invocations[id].digest)
            && (Inspected(o, books, id, Some(cited.pointer)).Ok? ==>
                  var shown := Inspected(o, books, id, Some(cited.pointer)).value;
                  shown.Field? && shown.digest == cited.digest && !IsEmpty(shown.value))
  {
    EveryLedgerIsJustified(o, events);
    var books := Run(o, events);
    assert Justified(o, books, id, books.assessments[id][aid]);
  }

  lemma RunMore(o: Outside, events: seq<Event>, e: Event)
    ensures Run(o, events + [e]) == Next(o, Run(o, events), e)
  {
  }

  /**
    In any ledger a new invocation may begin, with a parent of its repository and task or without
    one; when it has finished as supervision says, what is acceptable of it can be assessed, and
    everything that the assessment cites inspected.
   */
  lemma FinishedRunIsAssessed(o: Outside, events: seq<Event>, begin: Event, record: Record, data: seq<byte>, q: Request, fresh_: Id)
    requires begin.Begin? && begin.id !in Run(o, events).invocations
    requires begin.parent.None? ||
               (&& begin.task.Some? && begin.parent.value in Run(o, events).invocations
                && Run(o, events).invocations[begin.parent.value].repo == begin.repo
                && Run(o, events).invocations[begin.parent.value].task == begin.task)
    requires record.state != Running && record.digest == Some(o.sha(data)) && |data| <= 2 * 1024 * 1024 && o.parse(data).Some?
    requires q.id == begin.id && Stripped(q.summary) != "" && Utf8.ByteLength(Stripped(q.summary)) <= 2000
    requires |q.pointers| <= 8 && Unique(q.pointers) && AllCite(o.parse(data).value, q.pointers)
    requires q.outcome == Helped ==> q.pointers != [] && record.state in {Completed, Failed}
    ensures var books := Run(o, events + [begin] + [Finish(begin.id, record, Some(data))] + [Assess(q, fresh_)]);
            && begin.id in books.invocations && begin.id in books.assessments && fresh_ in books.assessments[begin.id]
            && RecordsRequest(books, q, books.assessments[begin.id][fresh_])
            && books.invocations[begin.id].repo == begin.repo && books.invocations[begin.id].task == begin.task
            && books.invocations[begin.id].parent == begin.parent && books.invocations[begin.id].state == record.state
            && forall k | 0 <= k < |q.pointers| :: Inspected(o, books, begin.id, Some(q.pointers[k])).Ok?
  {
    NoneAssessedYet(o, events, begin.id);
    RunMore(o, events, begin);
    RunMore(o, events + [begin], Finish(begin.id, record, Some(data)));
    RunMore(o, events + [begin] + [Finish(begin.id, record, Some(data))], Assess(q, fresh_));
    var done := FinishedBooks(o, Run(o, events), begin, record, data);
    assert AssessmentsOf(done, q.id) == AssessmentsOf(Run(o, events), q.id);
    AcceptableIsRecorded(o, done, q, fresh_);
    var books := Next(o, done, Assess(q, fresh_));
    forall k | 0 <= k < |q.pointers|
      ensures Inspected(o, books, begin.id, Some(q.pointers[k])).Ok?
    {
      CitedIsShown(o, books, begin.id, q.pointers[k]);
    }
  }

  lemma FinishedBooks(o: Outside, books: Books, begin: Event, record: Record, data: seq<byte>) returns (done: Books)
    requires begin.Begin? && begin.id !in books.invocations && ParentAllowed(books, begin.repo, begin.task, begin.parent)
    requires record.state != Running && record.digest == Some(o.sha(data)) && |data| <= 2 * 1024 * 1024 && o.parse(data).Some?
    ensures done == Next(o, Next(o, books, begin), Finish(begin.id, record, Some(data)))
    ensures Intact(o, done, begin.id) && done.receipts[begin.id] == data && done.assessments == books.assessments
    ensures var i := done.invocations[begin.id];
            i.repo == begin.repo && i.task == begin.task && i.parent == begin.parent && i.state == record.state
  {
    done := Next(o, Next(o, books, begin), Finish(begin.id, record, Some(data)));
  }

  lemma AcceptableIsRecorded(o: Outside, books: Books, q: Request, fresh_: Id)
    requires Acceptable(o, books, q) && fresh_ !in AssessmentsOf(books, q.id)
    ensures var after := Next(o, books, Assess(q, fresh_));
            && after.invocations == books.invocations && after.receipts == books.receipts
            && q.id in after.assessments && fresh_ in after.assessments[q.id]
            && RecordsRequest(after, q, after.assessments[q.id][fresh_])
  {
    AcceptedIff(o, books, q);
  }

  lemma CitedIsShown(o: Outside, books: Books, id: Id, pointer: string)
    requires Intact(o, books, id) && Cites(o.parse(books.receipts[id]).value, pointer)
    ensures Inspected(o, books, id, Some(pointer)).Ok?
  {
    CitesIff(o.parse(books.receipts[id]).value, pointer);
    ReceiptOkIff(o, books, id);
  }

  lemma AssessedIsRecorded(o: Outside, events: seq<Event>, id: Id, aid: Id)
    requires aid in AssessmentsOf(Run(o, events), id)
    ensures id in Run(o, events).invocations
  {
    EveryLedgerIsJustified(o, events);
    assert Justified(o, Run(o, events), id, AssessmentsOf(Run(o, events), id)[aid]);
  }

  lemma NoneAssessedYet(o: Outside, events: seq<Event>, id: Id)
    requires id !in Run(o, events).invocations
    ensures forall aid :: aid !in AssessmentsOf(Run(o, events), id)
  {
    forall aid
      ensures aid !in AssessmentsOf(Run(o, events), id)
    {
      if aid in AssessmentsOf(Run(o, events), id) {
        AssessedIsRecorded(o, events, id, aid);
      }
    }
  }

  // ----- Nothing recorded is taken back -----

  /** Every finished invocation and every assessment of `books` is in `after`, unchanged. */
  ghost predicate Retains(books: Books, after: Books) {
    && (forall id | id in books.invocations ::
          && id in after.invocations
          && (books.invocations[id].state != Running ==> after.invocations[id] == books.invocations[id])
          && after.invocations[id].(state := Running, digest := None) == books.invocations[id].(state := Running, digest := None))
    && (forall id | id in books.assessments ::
          id in after.assessments && forall aid | aid in books.assessments[id] ::
            aid in after.assessments[id] && after.assessments[id][aid] == books.assessments[id][aid])
  }

  lemma NextRetains(o: Outside, books: Books, e: Event)
    ensures Retains(books, Next(o, books, e))
  {
  }

  lemma RetainsTransitive(a: Books, b: Books, c: Books)
    requires Retains(a, b) && Retains(b, c)
    ensures Retains(a, c)
  {
  }

  /** Along every run a terminal state never changes and existing assessments are never altered. */
  lemma {:induction false} HistoryIsRetained(o: Outside, events: seq<Event>, n: nat)
    requires n <= |events|
    ensures Retains(Run(o, events[..n]), Run(o, events))
    decreases |events| - n
  {
    if n == |events| {
      assert events[..n] == events;
    } else {
      assert events[..n + 1][..n] == events[..n];
      NextRetains(o, Run(o, events[..n]), events[n]);
      HistoryIsRetained(o, events, n + 1);
      RetainsTransitive(Run(o, events[..n]), Run(o, events[..n + 1]), Run(o, events));
    }
  }

  // ----- Parent links -----

  ghost predicate LinksGoBack(books: Books) {
    forall id | id in books.invocations ::
      && books.invocations[id].born < |books.invocations|
      && (books.invocations[id].parent.Some? ==>
            var p := books.invocations[id].parent.value;
            && p in books.invocations
            && books.invocations[p].born < books.invocations[id].born
            && books.invocations[p].repo == books.invocations[id].repo
            && books.invocations[p].task == books.invocations[id].task)
  }

  lemma BeginLinksBack(books: Books, id: Id, repo: string, task: Option<string>, parent: Option<Id>)
    requires LinksGoBack(books) && id !in books.invocations && ParentAllowed(books, repo, task, parent)
    ensures LinksGoBack(books.(invocations := books.invocations[id := Invocation(repo, task, parent, |books.invocations|, Running, None)]))
  {
  }

  lemma FinishLinksBack(books: Books, after: Books, id: Id, state: State, digest: Option<string>)
    requires LinksGoBack(books) && id in books.invocations
    requires after.invocations == books.invocations[id := books.invocations[id].(state := state, digest := digest)]
    ensures LinksGoBack(after)
  {
    assert after.invocations.Keys == books.invocations.Keys;
    assert |after.invocations.Keys| == |after.invocations| && |books.invocations.Keys| == |books.invocations|;
  }

  lemma NextLinksGoBack(o: Outside, books: Books, e: Event)
    requires LinksGoBack(books)
    ensures LinksGoBack(Next(o, books, e))
  {
    match e
    case Begin(id, repo, task, parent) =>
      if id !in books.invocations && ParentAllowed(books, repo, task, parent) {
        BeginLinksBack(books, id, repo, task, parent);
      }
    case Finish(id, record, data) =>
      if id in books.invocations && books.invocations[id].state == Running && Supervised(o, record, data) {
        FinishLinksBack(books, Next(o, books, e), id, record.state, record.digest);
      }
    case _ =>
  }

  lemma {:induction false} LinksAlwaysGoBack(o: Outside, events: seq<Event>)
    ensures LinksGoBack(Run(o, events))
  {
    if events != [] {
      LinksAlwaysGoBack(o, events[..|events| - 1]);
      NextLinksGoBack(o, Run(o, events[..|events| - 1]), events[|events| - 1]);
    }
  }

  /** The invocation n parent links up, if the chain is that long. */
  function Ancestor(books: Books, id: Id, n: nat): Option<Id>
    decreases n
  {
    if id !in books.invocations then None
    else if n == 0 then Some(id)
    else if books.invocations[id].parent.None? then None
    else Ancestor(books, books.invocations[id].parent.value, n - 1)
  }

  /** Parent chains stay in one repository and task and never come round again. */
  lemma {:induction false} AncestorsAreOlder(o: Outside, events: seq<Event>, id: Id, n: nat)
    requires Ancestor(Run(o, events), id, n).Some?
    ensures var books := Run(o, events);
            var a := Ancestor(books, id, n).value;
            && id in books.invocations && a in books.invocations
            && books.invocations[a].born + n <= books.invocations[id].born
            && books.invocations[a].repo == books.invocations[id].repo
            && books.invocations[a].task == books.invocations[id].task
            && (n > 0 ==> a != id)
    decreases n
  {
    LinksAlwaysGoBack(o, events);
    if n > 0 {
      AncestorsAreOlder(o, events, Run(o, events).invocations[id].parent.value, n - 1);
    }
  }
}
