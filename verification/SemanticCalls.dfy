/**
  Questions to the language server: one request at a time, answers matched by identifier, anything
  the server itself asks for refused, and answers kept per question.
 */
module SemanticCalls {
  import opened Wrappers
  import opened Sequences
  import opened Strings
  import opened Decimal
  import opened JsonPointer

  const MAX_CACHED: nat := 2048

  datatype Id = Numbered(n: nat) | Named(s: string) | Nil

  datatype Message = Message(id: Option<Id>, verb: Option<string>, error: bool, result: Json)

  /** What the reader thread delivers, or that nothing comes before the deadline. */
  datatype Event = Arrived(message: Message) | ReadFailed | Silence

  datatype Sent = Request(id: nat, verb: string, about: Option<string>) | Opened(path: string) | Refused(request: Id)

  datatype CallError = InputUnavailable | TimedOut | BadFrame | Unanswerable | OutsideSnapshot

  predicate Answers(m: Message, id: nat) {
    m.id == Some(Numbered(id)) && m.verb.None?
  }

  predicate Asks(m: Message) {
    m.id.Some? && m.verb.Some?
  }

  // ----- Waiting for an answer -----

  datatype Waited = Waited(result: Result<Json, CallError>, consumed: nat, refused: seq<Sent>)

  /** Taking events until the answer comes; `room` messages can still be sent. */
  function Wait(events: seq<Event>, id: nat, room: nat): (w: Waited)
    ensures w.consumed <= |events| && |w.refused| <= room
  {
    if events == [] then Waited(Err(TimedOut), 0, [])
    else
      match events[0]
      case Silence => Waited(Err(TimedOut), 1, [])
      case ReadFailed => Waited(Err(BadFrame), 1, [])
      case Arrived(m) =>
        if Answers(m, id) then Waited(if m.error then Err(Unanswerable) else Ok(m.result), 1, [])
        else if Asks(m) then
          if room == 0 then Waited(Err(InputUnavailable), 1, [])
          else
            var w := Wait(events[1..], id, room - 1);
            Waited(w.result, 1 + w.consumed, [Refused(m.id.value)] + w.refused)
        else
          var w := Wait(events[1..], id, room);
          Waited(w.result, 1 + w.consumed, w.refused)
  }

  /** Messages, none of them the answer to the request. */
  predicate Chatter(events: seq<Event>, id: nat) {
    forall k | 0 <= k < |events| :: events[k].Arrived? && !Answers(events[k].message, id)
  }

  /** The refusals due for what the server asks, in order. */
  function Refusals(events: seq<Event>): seq<Sent> {
    if events == [] then []
    else if events[0].Arrived? && Asks(events[0].message) then [Refused(events[0].message.id.value)] + Refusals(events[1..])
    else Refusals(events[1..])
  }

  /** A refusal is due for every message with both an identifier and a verb. */
  function Due(event: Event): seq<Sent> {
    match event
    case Arrived(Message(Some(id), Some(_), _, _)) => [Refused(id)]
    case _ => []
  }

  lemma {:induction false} RefusalsAreDue(events: seq<Event>)
    ensures Refusals(events) == FlatMap(events, Due)
  {
    if events != [] {
      RefusalsAreDue(events[1..]);
      FlatMapAppends(events[..1], events[1..], Due);
      assert events == events[..1] + events[1..];
      assert FlatMap(events[..1], Due) == FlatMap([], Due) + Due(events[0]);
    }
  }

  function Skipped(w: Waited, n: nat, refused: seq<Sent>): Waited {
    Waited(w.result, n + w.consumed, refused + w.refused)
  }

  lemma ChatterTail(events: seq<Event>, id: nat, n: nat)
    requires 0 < n <= |events| && Chatter(events[..n], id)
    ensures events[..n][0] == events[0] && events[..n][1..] == events[1..][..n - 1] && Chatter(events[1..][..n - 1], id)
    ensures events[0].Arrived? && !Answers(events[0].message, id)
  {
    var rest := events[1..][..n - 1];
    assert forall k | 0 <= k < |rest| :: rest[k] == events[..n][k + 1];
    assert events[..n][0] == events[0];
  }

  lemma SkippedTwice(w: Waited, m: nat, n: nat, a: seq<Sent>, b: seq<Sent>)
    ensures Skipped(Skipped(w, n, b), m, a) == Skipped(w, m + n, a + b)
  {
  }

  function Refusal(event: Event): seq<Sent> {
    if event.Arrived? && Asks(event.message) then [Refused(event.message.id.value)] else []
  }

  lemma RefusalsOfFirst(events: seq<Event>, id: nat, n: nat)
    requires 0 < n <= |events| && Chatter(events[..n], id)
    ensures Refusals(events[..n]) == Refusal(events[0]) + Refusals(events[1..][..n - 1])
  {
    ChatterTail(events, id, n);
  }

  lemma WaitOnce(events: seq<Event>, id: nat, room: nat)
    requires events != [] && events[0].Arrived? && !Answers(events[0].message, id)
    requires |Refusal(events[0])| <= room
    ensures Wait(events, id, room) == Skipped(Wait(events[1..], id, room - |Refusal(events[0])|), 1, Refusal(events[0]))
  {
  }

  lemma {:induction false} WaitPassesChatter(events: seq<Event>, id: nat, room: nat, n: nat)
    requires n <= |events| && Chatter(events[..n], id) && |Refusals(events[..n])| <= room
    ensures Wait(events, id, room) == Skipped(Wait(events[n..], id, room - |Refusals(events[..n])|), n, Refusals(events[..n]))
  {
    if n == 0 {
      assert events[0..] == events && Refusals(events[..0]) == [];
    } else {
      ChatterTail(events, id, n);
      RefusalsOfFirst(events, id, n);
      WaitOnce(events, id, room);
      var refused, more := Refusal(events[0]), Refusals(events[1..][..n - 1]);
      WaitPassesChatter(events[1..], id, room - |refused|, n - 1);
      assert events[1..][n - 1..] == events[n..];
      SkippedTwice(Wait(events[n..], id, room - |refused| - |more|), 1, n - 1, refused, more);
    }
  }

  /**
    How a call ends behind other messages: with the answer, unanswerable if that is an error, timed
    out on silence or at the end, with a bad frame if reading fails, and without input if it is
    asked for something when no message can be sent.
   */
  lemma CallEnds(events: seq<Event>, id: nat, room: nat, n: nat)
    requires n <= |events| && Chatter(events[..n], id) && |Refusals(events[..n])| <= room
    ensures var w := Wait(events, id, room);
            && (n == |events| ==> w == Waited(Err(TimedOut), n, Refusals(events[..n])))
            && (n < |events| && events[n] == Silence ==> w == Waited(Err(TimedOut), n + 1, Refusals(events[..n])))
            && (n < |events| && events[n] == ReadFailed ==> w == Waited(Err(BadFrame), n + 1, Refusals(events[..n])))
            && (n < |events| && events[n].Arrived? && events[n].message.id == Some(Numbered(id)) && events[n].message.verb == None ==>
                  w == Waited(if events[n].message.error then Err(Unanswerable) else Ok(events[n].message.result), n + 1, Refusals(events[..n])))
            && (n < |events| && Due(events[n]) != [] && |Refusals(events[..n])| == room ==>
                  w == Waited(Err(InputUnavailable), n + 1, Refusals(events[..n])))
  {
    WaitPassesChatter(events, id, room, n);
  }

  lemma {:induction false} WaitedForAnswer(events: seq<Event>, id: nat, room: nat)
    requires Wait(events, id, room).result.Ok?
    ensures var n := Wait(events, id, room).consumed - 1;
            && 0 <= n && Chatter(events[..n], id) && |Refusals(events[..n])| <= room
            && events[n].Arrived? && Answers(events[n].message, id) && !events[n].message.error
  {
    var n := Wait(events, id, room).consumed - 1;
    if n > 0 {
      WaitedForAnswer(events[1..], id, if Asks(events[0].message) then room - 1 else room);
      assert events[..n][0] == events[0] && events[..n][1..] == events[1..][..n - 1];
      assert forall k | 1 <= k < n :: events[..n][k] == events[1..][..n - 1][k - 1];
    }
  }

  /**
    A call succeeds exactly when its answer arrives after nothing but other messages and all that
    the server asked for meanwhile can be refused.  It then returns that answer, has consumed
    nothing behind it and has refused each of those requests once, in order.
   */
  lemma CallSucceedsIff(events: seq<Event>, id: nat, room: nat, n: nat, value: Json)
    requires n < |events|
    ensures Wait(events, id, room) == Waited(Ok(value), n + 1, Refusals(events[..n])) <==>
              && Chatter(events[..n], id) && |Refusals(events[..n])| <= room
              && events[n] == Arrived(Message(Some(Numbered(id)), None, false, value))
    ensures Wait(events, id, room).result.Ok? && Wait(events, id, room).consumed == n + 1 ==>
              Wait(events, id, room).refused == Refusals(events[..n])
  {
    if Wait(events, id, room).result.Ok? && Wait(events, id, room).consumed == n + 1 {
      WaitedForAnswer(events, id, room);
      CallEnds(events, id, room, n);
    }
    if && Chatter(events[..n], id) && |Refusals(events[..n])| <= room
       && events[n] == Arrived(Message(Some(Numbered(id)), None, false, value)) {
      CallEnds(events, id, room, n);
    }
  }

  // ----- Conversations -----

  /** The results of calls made one after the other; None as soon as one fails. */
  function Calls(events: seq<Event>, id: nat, room: nat, count: nat): Option<seq<Json>>
    decreases count
  {
    if count == 0 then Some([])
    else if room == 0 then None
    else
      var w := Wait(events, id, room - 1);
      match w.result
      case Err(_) => None
      case Ok(value) =>
        match Calls(events[w.consumed..], id + 1, room - 1 - |w.refused|, count - 1)
        case None => None
        case Some(more) => Some([value] + more)
  }

  /** What the server says up to and including one answer. */
  datatype Turn = Turn(chatter: seq<Event>, result: Json)

  function Said(turns: seq<Turn>, id: nat): seq<Event> {
    if turns == [] then []
    else turns[0].chatter + [Arrived(Message(Some(Numbered(id)), None, false, turns[0].result))] + Said(turns[1..], id + 1)
  }

  function Results(turns: seq<Turn>): seq<Json> {
    if turns == [] then [] else [turns[0].result] + Results(turns[1..])
  }

  /** Requests to make and refusals to give in all. */
  function Traffic(turns: seq<Turn>): nat {
    if turns == [] then 0 else 1 + |Refusals(turns[0].chatter)| + Traffic(turns[1..])
  }

  predicate Conversation(turns: seq<Turn>, id: nat) {
    turns == [] || (Chatter(turns[0].chatter, id) && Conversation(turns[1..], id + 1))
  }

  /**
    Whatever a server says between its answers, notifications, requests of its own or answers to
    other calls, each call returns its own answer, as long as the writer keeps up.
   */
  lemma {:induction false} EveryCallGetsItsAnswer(turns: seq<Turn>, id: nat, room: nat)
    requires Conversation(turns, id) && Traffic(turns) <= room
    ensures Calls(Said(turns, id), id, room, |turns|) == Some(Results(turns))
    decreases turns
  {
    if turns != [] {
      var chatter := turns[0].chatter;
      TurnIsHeard(chatter, Message(Some(Numbered(id)), None, false, turns[0].result), Said(turns[1..], id + 1), id, room - 1);
      EveryCallGetsItsAnswer(turns[1..], id + 1, room - 1 - |Refusals(chatter)|);
    }
  }

  lemma TurnIsHeard(chatter: seq<Event>, answer: Message, rest: seq<Event>, id: nat, room: nat)
    requires Chatter(chatter, id) && |Refusals(chatter)| <= room && Answers(answer, id) && !answer.error
    ensures var said := chatter + [Arrived(answer)] + rest;
            && Wait(said, id, room) == Waited(Ok(answer.result), |chatter| + 1, Refusals(chatter))
            && said[|chatter| + 1..] == rest
  {
    var said := chatter + [Arrived(answer)] + rest;
    assert said[..|chatter|] == chatter && said[|chatter|] == Arrived(answer);
    CallEnds(said, id, room, |chatter|);
  }

  // ----- Questions -----

  datatype Question = Question(path: string, line: nat, column: nat, query: Query)
  datatype Query = Definition | References

  function Method(query: Query): string {
    match query
    case Definition => "textDocument/definition"
    case References => "textDocument/references"
  }

  function CacheKey(q: Question): string {
    q.path + ":" + Digits(q.line) + ":" + Digits(q.column) + ":" + Method(q.query)
  }

  lemma MethodHasNoColon(query: Query)
    ensures ':' !in Method(query)
    ensures Method(Definition) != Method(References)
  {
    assert Method(Definition)[13] == 'd' && Method(References)[13] == 'r';
  }

  lemma KeySplits(q: Question)
    ensures Split(CacheKey(q), ':') == Split(q.path, ':') + [Digits(q.line), Digits(q.column), Method(q.query)]
  {
    var line, column, verb := Digits(q.line), Digits(q.column), Method(q.query);
    MethodHasNoColon(q.query);
    var c := column + [':'] + verb;
    var b := line + [':'] + c;
    assert CacheKey(q) == q.path + [':'] + b;
    SplitBehind(q.path, b, ':');
    SplitFirst(line, c, ':');
    SplitFirst(column, verb, ':');
    SplitOne(verb, ':');
    assert [line] + ([column] + [verb]) == [line, column, verb];
  }

  /** Questions have different keys, even though paths may hold colons. */
  lemma KeysAreUnambiguous(a: Question, b: Question)
    requires CacheKey(a) == CacheKey(b)
    ensures a == b
  {
    KeySplits(a);
    KeySplits(b);
    var parts := Split(CacheKey(a), ':');
    var n := |parts| - 3;
    assert parts[..n] == Split(a.path, ':') && parts[..n] == Split(b.path, ':');
    JoinSplit(a.path, ':');
    JoinSplit(b.path, ':');
    assert parts[n] == Digits(a.line) == Digits(b.line);
    assert parts[n + 1] == Digits(a.column) == Digits(b.column);
    assert parts[n + 2] == Method(a.query) == Method(b.query);
    ValueOfDigits(a.line);
    ValueOfDigits(b.line);
    ValueOfDigits(a.column);
    ValueOfDigits(b.column);
    MethodHasNoColon(a.query);
  }

  // ----- Files opened before they are asked about -----

  /**
    `announced` files were to be opened, `unopened` are those for which that could not be sent.  A
    request about a file comes behind its opening exactly if the file is not one of these.
   */
  predicate Introduced(sent: seq<Sent>, announced: set<string>, unopened: set<string>) {
    && unopened <= announced
    && (forall p | p in announced :: p in unopened <==> Opened(p) !in sent)
    && (forall x | x in sent && x.Opened? :: x.path in announced)
    && (forall k | 0 <= k < |sent| && IsAbout(sent[k]) ::
          sent[k].about.value in announced && (Precedes(sent, k) <==> sent[k].about.value !in unopened))
  }

  predicate IsAbout(x: Sent) {
    x.Request? && x.about.Some?
  }

  /** The file of the k-th request was opened before. */
  predicate Precedes(sent: seq<Sent>, k: nat)
    requires k < |sent| && IsAbout(sent[k])
  {
    Opened(sent[k].about.value) in sent[..k]
  }

  /** Every request about a file comes behind its opening. */
  predicate AllIntroduced(sent: seq<Sent>) {
    forall k | 0 <= k < |sent| && IsAbout(sent[k]) :: Precedes(sent, k)
  }

  lemma EarlierPrecede(sent: seq<Sent>, x: Sent)
    ensures forall k | 0 <= k < |sent| && IsAbout(sent[k]) :: Precedes(sent + [x], k) <==> Precedes(sent, k)
  {
    forall k | 0 <= k < |sent| && IsAbout(sent[k])
      ensures Precedes(sent + [x], k) <==> Precedes(sent, k)
    {
      assert (sent + [x])[..k] == sent[..k];
    }
  }

  lemma SentOther(sent: seq<Sent>, announced: set<string>, unopened: set<string>, x: Sent)
    requires Introduced(sent, announced, unopened) && x.Refused?
    ensures Introduced(sent + [x], announced, unopened)
  {
    EarlierPrecede(sent, x);
  }

  lemma {:induction false} SentOthers(sent: seq<Sent>, announced: set<string>, unopened: set<string>, others: seq<Sent>)
    requires Introduced(sent, announced, unopened) && forall x | x in others :: x.Refused?
    ensures Introduced(sent + others, announced, unopened)
  {
    if others == [] {
      assert sent + others == sent;
    } else {
      var front, last := others[..|others| - 1], others[|others| - 1];
      SentOthers(sent, announced, unopened, front);
      SentOther(sent + front, announced, unopened, last);
      assert sent + others == sent + front + [last];
    }
  }

  lemma SentOpening(sent: seq<Sent>, announced: set<string>, unopened: set<string>, path: string)
    requires Introduced(sent, announced, unopened) && path !in announced
    ensures Introduced(sent + [Opened(path)], announced + {path}, unopened)
  {
    EarlierPrecede(sent, Opened(path));
  }

  lemma OpeningNotSent(sent: seq<Sent>, announced: set<string>, unopened: set<string>, path: string)
    requires Introduced(sent, announced, unopened) && path !in announced
    ensures Introduced(sent, announced + {path}, unopened + {path})
  {
  }

  lemma SentRequest(sent: seq<Sent>, announced: set<string>, unopened: set<string>, x: Sent)
    requires Introduced(sent, announced, unopened) && IsAbout(x) && x.about.value in announced
    ensures Introduced(sent + [x], announced, unopened)
  {
    EarlierPrecede(sent, x);
    assert (sent + [x])[..|sent|] == sent;
  }

  lemma {:induction false} WaitOnlyRefuses(events: seq<Event>, id: nat, room: nat)
    ensures forall x | x in Wait(events, id, room).refused :: x.Refused?
  {
    if events != [] && events[0].Arrived? && !Answers(events[0].message, id) {
      var asks := Asks(events[0].message);
      if !(asks && room == 0) {
        WaitOnlyRefuses(events[1..], id, if asks then room - 1 else room);
      }
    }
  }

  /** All requests come behind the opening of their files exactly if none is about a file that could not be opened. */
  lemma AllIntroducedIff(sent: seq<Sent>, announced: set<string>, unopened: set<string>)
    requires Introduced(sent, announced, unopened)
    ensures AllIntroduced(sent) <==> forall k | 0 <= k < |sent| && IsAbout(sent[k]) :: sent[k].about.value !in unopened
  {
  }

  /** The opening of a file that was not opened before, if it can be sent. */
  function Opening(path: string, announced: set<string>, room: nat): (opening: seq<Sent>)
    ensures |opening| <= room
  {
    if path !in announced && room > 0 then [Opened(path)] else []
  }

  /**
    The file was opened unless it was before, and if that and one message more could be sent the
    question was asked about it, the answer awaited and what the server asked for refused.
   */
  predicate AskedFor(q: Question, before: seq<Sent>, sent: seq<Sent>, events: seq<Event>, incoming: seq<Event>,
                     room: nat, announced: set<string>, id: nat, r: Result<Json, CallError>) {
    var opening := Opening(q.path, announced, room);
    if room > |opening| then
      var w := Wait(events, id, room - |opening| - 1);
      var verb := if q.query.Definition? then "textDocument/definition" else "textDocument/references";
      && sent == before + opening + [Request(id, verb, Some(q.path))] + w.refused
      && r == w.result && incoming == events[w.consumed..]
    else
      sent == before + opening && r == Err(InputUnavailable) && incoming == events
  }

  // ----- The server -----

  /** `room` is how many messages the writer takes before it falls behind; it may catch up again. */
  class SemanticServer {
    var next: nat
    var incoming: seq<Event>
    var sent: seq<Sent>
    var room: nat
    var paths: set<string>
    var announced: set<string>
    var cache: map<string, Json>
    /** The server's latest answer to each question. */
    ghost var given: map<Question, Json>
    /** Files marked as opened whose opening could not be sent. */
    ghost var unopened: set<string>

    ghost predicate Valid()
      reads this
    {
      && |cache| <= MAX_CACHED && Introduced(sent, announced, unopened)
      && forall q | CacheKey(q) in cache :: q in given && cache[CacheKey(q)] == given[q]
    }

    constructor (incoming: seq<Event>, room: nat, paths: set<string>)
      ensures Valid()
      ensures next == 0 && sent == [] && cache == map[] && announced == {} && given == map[] && unopened == {}
      ensures this.incoming == incoming && this.room == room && this.paths == paths
    {
      next, sent, cache, announced, given, unopened := 0, [], map[], {}, map[], {};
      this.incoming, this.room, this.paths := incoming, room, paths;
    }

    /** The writer takes some messages. */
    method CatchUp(taken: nat)
      requires Valid()
      modifies this`room
      ensures Valid() && room == old(room) + taken && unchanged(this`announced, this`unopened, this`cache, this`paths)
    {
      room := room + taken;
    }

    /** `about` is the file asked about, if it is about one. */
    method Call(verb: string, about: Option<string>) returns (r: Result<Json, CallError>)
      modifies this`next, this`incoming, this`sent, this`room
      ensures next == old(next) + 1
      ensures old(room) == 0 ==>
                r == Err(InputUnavailable) && incoming == old(incoming) && sent == old(sent) && room == 0
      ensures old(room) > 0 ==>
                var w := Wait(old(incoming), next, old(room) - 1);
                && r == w.result && incoming == old(incoming)[w.consumed..]
                && sent == old(sent) + [Request(next, verb, about)] + w.refused
                && room == old(room) - 1 - |w.refused|
    {
      next := next + 1;
      if room == 0 {
        return Err(InputUnavailable);
      }
      sent, room := sent + [Request(next, verb, about)], room - 1;
      r := Await();
    }

    /** Takes messages up to the answer to the latest request, refusing what the server asks for. */
    method Await() returns (r: Result<Json, CallError>)
      modifies this`incoming, this`sent, this`room
      ensures var w := Wait(old(incoming), next, old(room));
              && r == w.result && incoming == old(incoming)[w.consumed..]
              && sent == old(sent) + w.refused && room == old(room) - |w.refused|
    {
      ghost var w := Wait(incoming, next, room);
      ghost var refused, taken := [], 0;
      while incoming != []
        invariant taken <= |old(incoming)| && incoming == old(incoming)[taken..]
        invariant sent == old(sent) + refused && room == old(room) - |refused|
        invariant w == Skipped(Wait(incoming, next, room), taken, refused)
        decreases |incoming|
      {
        var event := incoming[0];
        ghost var events, space, already := incoming, room, refused;
        assert incoming[1..] == old(incoming)[taken + 1..];
        incoming, taken := incoming[1..], taken + 1;
        match event {
          case Silence =>
            return Err(TimedOut);
          case ReadFailed =>
            return Err(BadFrame);
          case Arrived(m) =>
            if Answers(m, next) {
              return if m.error then Err(Unanswerable) else Ok(m.result);
            }
            if Asks(m) {
              if room == 0 {
                return Err(InputUnavailable);
              }
              sent, room, refused := sent + [Refused(m.id.value)], room - 1, refused + [Refused(m.id.value)];
            }
            WaitOnce(events, next, space);
            SkippedTwice(Wait(incoming, next, room), taken - 1, 1, already, Refusal(event));
        }
      }
      return Err(TimedOut);
    }

    /** What the server last answered to this question: now, or before if the answer is still kept. */
    method Navigate(q: Question) returns (r: Result<Json, CallError>)
      requires Valid()
      modifies this
      ensures Valid()
      ensures r.Ok? ==> q in given && given[q] == r.value
      ensures forall p | p != q && p in old(given) :: p in given && given[p] == old(given)[p]
      ensures CacheKey(q) in old(cache) ==> r == Ok(old(cache)[CacheKey(q)]) && unchanged(this)
      ensures CacheKey(q) !in old(cache) && q.path !in paths ==> r == Err(OutsideSnapshot) && unchanged(this)
      ensures CacheKey(q) !in old(cache) && q.path in paths ==>
                AskedFor(q, old(sent), sent, old(incoming), incoming, old(room), old(announced), next, r)
      ensures r.Ok? ==> CacheKey(q) in cache && cache[CacheKey(q)] == r.value
      ensures r.Ok? && |old(cache)| < MAX_CACHED ==> cache == old(cache)[CacheKey(q) := r.value]
      ensures r.Err? ==> cache == old(cache) && given == old(given)
      ensures old(unopened) <= unopened && (r.Ok? ==> unopened == old(unopened)) && paths == old(paths)
      ensures CacheKey(q) !in old(cache) && q.path in paths ==>
                && unopened == (if q.path !in old(announced) && old(room) == 0 then old(unopened) + {q.path} else old(unopened))
                && announced == old(announced) + {q.path}
    {
      var key := CacheKey(q);
      if key in cache {
        return Ok(cache[key]);
      }
      if q.path !in paths {
        return Err(OutsideSnapshot);
      }
      r := Ask(q);
      if r.Ok? {
        Remember(q, r.value);
      }
    }

    /** Keeps an answer; all others are dropped when there are too many. */
    method Remember(q: Question, value: Json)
      requires Valid()
      modifies this`cache, this`given
      ensures Valid() && given == old(given)[q := value]
      ensures cache == (if |old(cache)| >= MAX_CACHED then map[] else old(cache))[CacheKey(q) := value]
    {
      if |cache| >= MAX_CACHED {
        cache := map[];
      }
      Keep(q, value);
    }

    /** False if the opening could not be sent; the mark stays. */
    method Open(path: string) returns (ok: bool)
      requires Valid()
      modifies this`sent, this`room, this`announced, this`unopened
      ensures Valid() && announced == old(announced) + {path}
      ensures ok <==> path in old(announced) || old(room) > 0
      ensures unopened == if ok then old(unopened) else old(unopened) + {path}
      ensures sent == old(sent) + Opening(path, old(announced), old(room))
      ensures room == old(room) - |Opening(path, old(announced), old(room))|
    {
      if path in announced {
        return true;
      }
      if room == 0 {
        OpeningNotSent(sent, announced, unopened, path);
        announced, unopened := announced + {path}, unopened + {path};
        return false;
      }
      SentOpening(sent, announced, unopened, path);
      announced := announced + {path};
      sent, room := sent + [Opened(path)], room - 1;
      return true;
    }

    /** The file is marked as opened and then opened, once; after that the request is sent. */
    method Ask(q: Question) returns (r: Result<Json, CallError>)
      requires Valid()
      modifies this`next, this`incoming, this`sent, this`room, this`announced, this`unopened
      ensures Valid() && announced == old(announced) + {q.path}
      ensures unopened == if q.path !in old(announced) && old(room) == 0 then old(unopened) + {q.path} else old(unopened)
      ensures AskedFor(q, old(sent), sent, old(incoming), incoming, old(room), old(announced), next, r)
    {
      var ok := Open(q.path);
      if !ok {
        return Err(InputUnavailable);
      }
      ghost var opening, left := sent, room;
      r := Call(Method(q.query), Some(q.path));
      if left > 0 {
        SentRequest(opening, announced, unopened, Request(next, Method(q.query), Some(q.path)));
        WaitOnlyRefuses(old(incoming), next, left - 1);
        SentOthers(opening + [Request(next, Method(q.query), Some(q.path))], announced, unopened,
                   Wait(old(incoming), next, left - 1).refused);
      }
    }

    method Keep(q: Question, value: Json)
      requires Valid() && |cache| < MAX_CACHED
      modifies this`cache, this`given
      ensures Valid() && given == old(given)[q := value] && cache == old(cache)[CacheKey(q) := value]
    {
      forall p | CacheKey(p) == CacheKey(q)
        ensures p == q
      {
        KeysAreUnambiguous(p, q);
      }
      assert (cache[CacheKey(q) := value]).Keys == cache.Keys + {CacheKey(q)};
      assert |cache.Keys| == |cache|;
      cache := cache[CacheKey(q) := value];
      assert |cache.Keys| == |cache|;
      given := given[q := value];
    }
  }

  /** One question of a session: a server that fails is dropped, so one that is kept opened every file in time. */
  method NavigateSide(server: SemanticServer, q: Question) returns (r: Result<Json, CallError>, keep: bool)
    requires server.Valid() && server.unopened == {}
    modifies server
    ensures keep <==> r.Ok?
    ensures keep ==> server.Valid() && server.unopened == {} && AllIntroduced(server.sent)
    ensures r.Ok? ==> q in server.given && server.given[q] == r.value
  {
    r := server.Navigate(q);
    keep := r.Ok?;
    AllIntroducedIff(server.sent, server.announced, server.unopened);
  }

  /** Kept in spite of a refused opening, a server is asked about a file it was never shown. */
  method UnopenedIsAsked(server: SemanticServer, q: Question, taken: nat)
    requires server.Valid() && q.path in server.paths && q.path !in server.announced && server.room == 0
    requires CacheKey(q) !in server.cache && taken > 0
    modifies server
    ensures server.Valid() && !AllIntroduced(server.sent)
  {
    var refused := server.Navigate(q);
    server.CatchUp(taken);
    ghost var before := server.sent;
    var r := server.Navigate(q);
    assert server.sent[|before|].Request? && server.sent[|before|].about == Some(q.path);
    UnopenedIsNotPreceded(server.sent, server.announced, server.unopened, |before|);
  }

  lemma UnopenedIsNotPreceded(sent: seq<Sent>, announced: set<string>, unopened: set<string>, k: nat)
    requires Introduced(sent, announced, unopened) && k < |sent| && IsAbout(sent[k]) && sent[k].about.value in unopened
    ensures !AllIntroduced(sent)
  {
  }
}
