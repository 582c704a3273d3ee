/**
  The agent run loop: look at the page, ask the brain, act, until the brain is done or gives up,
  it fails twice in a row, or the step budget is spent.

  The brain, the browser and the page are arbitrary: each may answer differently at every step, and
  the brain may use everything it is shown.
 */
module AgentRun {
  import opened Wrappers
  import Decimal

  const DEFAULT_MAX_STEPS: nat := 30
  const MAX_CONSECUTIVE_BRAIN_FAILURES: nat := 2

  datatype Action =
    | Click(selector: string, reasoning: string)
    | Type(selector: string, text: string, reasoning: string)
    | Key(key: string, reasoning: string)
    | Scroll(delta: int, reasoning: string)
    | Goto(url: string, reasoning: string)
    | Done(reasoning: string)
    | GiveUp(reasoning: string)

  datatype Page = Page(url: string, title: string, elements: string)

  datatype Context = Context(goal: string, history: seq<string>, page: Page)

  datatype Step = Step(index: nat, action: Action, url: string, title: string, error: Option<string>)

  datatype Input = Input(goal: string, url: string, maxSteps: Option<nat>)

  /** `quote` renders a text as a quoted literal; the others answer for the step with that index. */
  datatype World = World(
    snapshot: nat -> Result<Page, string>,
    brain: (nat, Context) -> Result<Action, string>,
    execute: (nat, Action) -> Option<string>,
    quote: string -> string)

  datatype Outcome = Outcome(completed: bool, gaveUp: bool, finalUrl: string, finalTitle: string, steps: seq<Step>)

  function Budget(input: Input): nat {
    if input.maxSteps.Some? then input.maxSteps.value else DEFAULT_MAX_STEPS
  }

  // ----- What the brain is told -----

  function Described(w: World, action: Action): string {
    match action
    case Click(selector, _) => "clicked " + selector
    case Type(selector, text, _) => "typed into " + selector + ": " + w.quote(text)
    case Key(key, _) => "pressed " + key
    case Scroll(delta, _) => "scrolled " + (if delta < 0 then "-" + Decimal.Digits(-delta) else Decimal.Digits(delta)) + "px"
    case Goto(url, _) => "navigated to " + url
    case Done(reasoning) => "done: " + reasoning
    case GiveUp(reasoning) => "gave up: " + reasoning
  }

  function HistoryEntry(w: World, step: Step): string {
    match step.error
    case Some(error) => Described(w, step.action) + " (error: " + error + ")"
    case None => Described(w, step.action)
  }

  function History(w: World, steps: seq<Step>): seq<string> {
    if steps == [] then [] else History(w, steps[..|steps| - 1]) + [HistoryEntry(w, steps[|steps| - 1])]
  }

  // ----- Runs, step by step -----

  /** The brain failed at this step: what it says itself, giving up included, carries no error. */
  predicate BrainFailed(step: Step) {
    step.action.GiveUp? && step.error.Some?
  }

  function TrailingFailures(steps: seq<Step>): nat {
    if steps == [] || !BrainFailed(steps[|steps| - 1]) then 0 else 1 + TrailingFailures(steps[..|steps| - 1])
  }

  /** The last step is one the run does not go beyond. */
  predicate Over(steps: seq<Step>) {
    steps != [] &&
    (|| steps[|steps| - 1].action.Done?
     || (steps[|steps| - 1].action.GiveUp? && steps[|steps| - 1].error.None?)
     || TrailingFailures(steps) >= MAX_CONSECUTIVE_BRAIN_FAILURES)
  }

  function Answer(w: World, input: Input, before: seq<Step>, page: Page): Result<Action, string> {
    w.brain(|before|, Context(input.goal, History(w, before), page))
  }

  function Excuse(failures: nat, error: string): string {
    var limit := Decimal.Digits(MAX_CONSECUTIVE_BRAIN_FAILURES);
    if failures < MAX_CONSECUTIVE_BRAIN_FAILURES
    then "brain error (retry " + Decimal.Digits(failures) + "/" + limit + "): " + error
    else "brain failed " + limit + " consecutive times: " + error
  }

  /** The step that follows `before` when the browser shows this page. */
  function StepAfter(w: World, input: Input, before: seq<Step>, page: Page): Step {
    match Answer(w, input, before, page)
    case Ok(action) =>
      var error := if action.Done? || action.GiveUp? then None else w.execute(|before|, action);
      Step(|before|, action, page.url, page.title, error)
    case Err(error) =>
      Step(|before|, GiveUp(Excuse(TrailingFailures(before) + 1, error)), page.url, page.title, Some(error))
  }

  /** Every step follows the steps before it, which do not end the run. */
  ghost predicate IsTrace(w: World, input: Input, steps: seq<Step>) {
    steps == [] ||
    (var before := steps[..|steps| - 1];
     && IsTrace(w, input, before) && !Over(before)
     && w.snapshot(|before|).Ok?
     && steps[|steps| - 1] == StepAfter(w, input, before, w.snapshot(|before|).value))
  }

  /** How a run may end; `emitted` are the steps announced while it went on. */
  ghost predicate IsRun(w: World, input: Input, emitted: seq<Step>, r: Result<Outcome, string>) {
    && IsTrace(w, input, emitted) && |emitted| <= Budget(input)
    && match r
       case Ok(run) =>
         && run.steps == emitted && (Over(emitted) || |emitted| == Budget(input))
         && (run.completed <==> emitted != [] && emitted[|emitted| - 1].action.Done?)
         && (run.gaveUp <==> Over(emitted) && emitted[|emitted| - 1].action.GiveUp?)
         && run.finalUrl == (if emitted == [] then input.url else emitted[|emitted| - 1].url)
         && run.finalTitle == (if emitted == [] then "" else emitted[|emitted| - 1].title)
       case Err(error) =>
         |emitted| < Budget(input) && !Over(emitted) && w.snapshot(|emitted|) == Err(error)
  }

  // ----- The loop -----

  lemma TraceGrows(w: World, input: Input, steps: seq<Step>, step: Step)
    requires IsTrace(w, input, steps) && !Over(steps) && w.snapshot(|steps|).Ok?
    requires step == StepAfter(w, input, steps, w.snapshot(|steps|).value)
    ensures var longer := steps + [step];
            && IsTrace(w, input, longer)
            && History(w, longer) == History(w, steps) + [HistoryEntry(w, step)]
            && TrailingFailures(longer) == if BrainFailed(step) then TrailingFailures(steps) + 1 else 0
  {
    assert (steps + [step])[..|steps|] == steps;
  }

  method RunWithBrain(w: World, input: Input) returns (r: Result<Outcome, string>, emitted: seq<Step>)
    ensures IsRun(w, input, emitted, r)
  {
    var maxSteps := Budget(input);
    var steps: seq<Step> := [];
    var history: seq<string> := [];
    var completed, gaveUp := false, false;
    var lastUrl, lastTitle := input.url, "";
    var consecutiveFailures := 0;
    emitted := [];
    var index := 0;
    while index < maxSteps && !completed && !gaveUp
      invariant index == |steps| <= maxSteps && emitted == steps
      invariant IsTrace(w, input, steps) && history == History(w, steps)
      invariant consecutiveFailures == TrailingFailures(steps)
      invariant completed <==> steps != [] && steps[|steps| - 1].action.Done?
      invariant gaveUp <==> Over(steps) && steps[|steps| - 1].action.GiveUp?
      invariant lastUrl == if steps == [] then input.url else steps[|steps| - 1].url
      invariant lastTitle == if steps == [] then "" else steps[|steps| - 1].title
      decreases maxSteps - index
    {
      var state := w.snapshot(index);
      if state.Err? {
        return Err(state.error), emitted;
      }
      lastUrl, lastTitle := state.value.url, state.value.title;
      var answer := w.brain(index, Context(input.goal, history, state.value));
      var step: Step;
      match answer {
        case Err(error) =>
          consecutiveFailures := consecutiveFailures + 1;
          step := Step(index, GiveUp(Excuse(consecutiveFailures, error)), lastUrl, lastTitle, Some(error));
          gaveUp := consecutiveFailures >= MAX_CONSECUTIVE_BRAIN_FAILURES;
        case Ok(action) =>
          consecutiveFailures := 0;
          var error := if action.Done? || action.GiveUp? then None else w.execute(index, action);
          step := Step(index, action, lastUrl, lastTitle, error);
          completed, gaveUp := action.Done?, action.GiveUp?;
      }
      TraceGrows(w, input, steps, step);
      emitted := emitted + [step];
      history := history + [HistoryEntry(w, step)];
      steps := steps + [step];
      index := index + 1;
    }
    r := Ok(Outcome(completed, gaveUp, lastUrl, lastTitle, steps));
  }

  // ----- What holds of every run -----

  lemma {:induction false} TracePrefix(w: World, input: Input, steps: seq<Step>, n: nat)
    requires IsTrace(w, input, steps) && n <= |steps|
    ensures IsTrace(w, input, steps[..n])
    ensures n < |steps| ==> !Over(steps[..n]) && w.snapshot(n).Ok? && steps[n] == StepAfter(w, input, steps[..n], w.snapshot(n).value)
  {
    if n == |steps| {
      assert steps[..n] == steps;
    } else if n < |steps| - 1 {
      var before := steps[..|steps| - 1];
      assert before[..n] == steps[..n];
      TracePrefix(w, input, before, n);
    }
  }

  lemma {:induction false} HistoryAt(w: World, steps: seq<Step>, i: nat)
    requires i < |steps|
    ensures |History(w, steps)| == |steps| && History(w, steps)[i] == HistoryEntry(w, steps[i])
  {
    var before := steps[..|steps| - 1];
    if before == [] {
      assert History(w, before) == [];
    } else {
      HistoryAt(w, before, if i < |before| then i else 0);
    }
  }

  predicate Says(w: World, action: Action, said: string) {
    && (action.Click? ==> said == "clicked " + action.selector)
    && (action.Type? ==> said == "typed into " + action.selector + ": " + w.quote(action.text))
    && (action.Key? ==> said == "pressed " + action.key)
    && (action.Scroll? && action.delta >= 0 ==> said == "scrolled " + Decimal.Digits(action.delta) + "px")
    && (action.Scroll? && action.delta < 0 ==> said == "scrolled -" + Decimal.Digits(-action.delta) + "px")
    && (action.Goto? ==> said == "navigated to " + action.url)
    && (action.Done? ==> said == "done: " + action.reasoning)
    && (action.GiveUp? ==> said == "gave up: " + action.reasoning)
  }

  /** What an entry of the history says; it closes with the step's error exactly if there is one. */
  ghost predicate Tells(w: World, step: Step, entry: string) {
    exists said :: Says(w, step.action, said) && entry == if step.error.None? then said else said + " (error: " + step.error.value + ")"
  }

  lemma DescribedSays(w: World, action: Action)
    ensures Says(w, action, Described(w, action))
  {
    if action.Scroll? && action.delta < 0 {
      var digits := Decimal.Digits(-action.delta);
      assert "scrolled " + ("-" + digits) + "px" == "scrolled -" + digits + "px";
    }
  }

  /** The brain is told of every step before, in order: what was done and what went wrong. */
  lemma HistoryTells(w: World, steps: seq<Step>)
    ensures |History(w, steps)| == |steps| && forall k | 0 <= k < |steps| :: Tells(w, steps[k], History(w, steps)[k])
  {
    if steps == [] {
      assert History(w, steps) == [];
    }
    forall k | 0 <= k < |steps|
      ensures |History(w, steps)| == |steps| && Tells(w, steps[k], History(w, steps)[k])
    {
      HistoryAt(w, steps, k);
      DescribedSays(w, steps[k].action);
    }
  }

  /** What is recorded when the brain fails; `again` if it failed at the step before too. */
  ghost predicate Excuses(reasoning: string, error: string, again: bool) {
    reasoning == if again then "brain failed 2 consecutive times: " + error else "brain error (retry 1/2): " + error
  }

  /** What becomes of the brain's answer. */
  ghost predicate Records(w: World, step: Step, answer: Result<Action, string>, again: bool) {
    && (BrainFailed(step) <==> answer.Err?)
    && (answer.Ok? ==>
          && step.action == answer.value
          && step.error == if answer.value.Done? || answer.value.GiveUp? then None else w.execute(step.index, answer.value))
    && (answer.Err? ==> step.action.GiveUp? && step.error == Some(answer.error) && Excuses(step.action.reasoning, answer.error, again))
  }

  /** In a trace that goes on at most one failure trails. */
  lemma ExcuseSays(w: World, input: Input, before: seq<Step>, error: string)
    requires IsTrace(w, input, before) && !Over(before)
    ensures Excuses(Excuse(TrailingFailures(before) + 1, error), error, before != [] && BrainFailed(before[|before| - 1]))
  {
    OneTwo();
    var again := before != [] && BrainFailed(before[|before| - 1]);
    assert TrailingFailures(before) == if again then 1 else 0;
    assert "brain failed " + "2" + " consecutive times: " + error == "brain failed 2 consecutive times: " + error;
    assert "brain error (retry " + "1" + "/" + "2" + "): " + error == "brain error (retry 1/2): " + error;
  }

  lemma OneTwo()
    ensures Decimal.Digits(1) == "1" && Decimal.Digits(2) == "2"
  {
  }

  /**
    Step i has index i, shows the page of its own snapshot and holds the brain's answer to exactly
    the history of the steps before it.  The browser carries out the answer unless it is done or
    gives up, and the step's error is the browser's.  A failure of the brain is recorded as giving up.
   */
  lemma StepsRecordAnswers(w: World, input: Input, steps: seq<Step>, i: nat)
    requires IsTrace(w, input, steps) && i < |steps|
    ensures steps[i].index == i && w.snapshot(i).Ok?
    ensures var page := w.snapshot(i).value;
            var answer := Answer(w, input, steps[..i], page);
            && steps[i].url == page.url && steps[i].title == page.title
            && Records(w, steps[i], answer, i > 0 && BrainFailed(steps[i - 1]))
    ensures |History(w, steps[..i])| == i && forall k | 0 <= k < i :: Tells(w, steps[k], History(w, steps[..i])[k])
  {
    TracePrefix(w, input, steps, i);
    AnswerIsRecorded(w, input, steps[..i], w.snapshot(i).value);
    HistoryTells(w, steps[..i]);
  }

  lemma AnswerIsRecorded(w: World, input: Input, before: seq<Step>, page: Page)
    requires IsTrace(w, input, before) && !Over(before)
    ensures var step := StepAfter(w, input, before, page);
            && step.index == |before| && step.url == page.url && step.title == page.title
            && Records(w, step, Answer(w, input, before, page), before != [] && BrainFailed(before[|before| - 1]))
  {
    var answer := Answer(w, input, before, page);
    if answer.Err? {
      ExcuseSays(w, input, before, answer.error);
    }
  }

  /** Step i ends the run by what the brain did there and one step before. */
  predicate Stops(steps: seq<Step>, i: nat)
    requires i < |steps|
  {
    || steps[i].action.Done?
    || (steps[i].action.GiveUp? && steps[i].error.None?)
    || (i > 0 && BrainFailed(steps[i - 1]) && BrainFailed(steps[i]))
  }

  /** In a trace at most two failures trail, so the counter is a look at the last two steps. */
  lemma OverIffStops(w: World, input: Input, steps: seq<Step>)
    requires IsTrace(w, input, steps) && steps != []
    ensures Over(steps) <==> Stops(steps, |steps| - 1)
  {
  }

  /**
    The run stops at the first done, the first give-up of the brain's own or the second of two
    consecutive failures, and nowhere else while there is budget: every earlier step stops nothing,
    and a run that ends early ends at a step that stops it.
   */
  lemma StopsAtFirst(w: World, input: Input, emitted: seq<Step>, r: Result<Outcome, string>)
    requires IsRun(w, input, emitted, r)
    ensures forall i | 0 <= i < |emitted| - 1 :: !Stops(emitted, i)
    ensures r.Ok? && |emitted| < Budget(input) ==> emitted != [] && Stops(emitted, |emitted| - 1)
    ensures r.Err? && emitted != [] ==> !Stops(emitted, |emitted| - 1)
  {
    if emitted != [] {
      OverIffStops(w, input, emitted);
    }
    forall i | 0 <= i < |emitted| - 1 ensures !Stops(emitted, i) {
      TracePrefix(w, input, emitted, i + 1);
      OverIffStops(w, input, emitted[..i + 1]);
    }
  }

  /**
    Two adjacent failures are the last two steps of a run that gave up.  `completed` and `gaveUp`
    exclude each other and neither is set exactly when the budget ran out with nothing to stop it;
    a single failure at the end, though it is recorded as giving up, does not set `gaveUp`.
   */
  lemma FlagsSayHowItEnded(w: World, input: Input, emitted: seq<Step>, run: Outcome)
    requires IsRun(w, input, emitted, Ok(run))
    ensures forall i | 0 <= i < |emitted| - 1 && BrainFailed(emitted[i]) && BrainFailed(emitted[i + 1]) ::
              i + 2 == |emitted| && run.gaveUp
    ensures !(run.completed && run.gaveUp)
    ensures !run.completed && !run.gaveUp <==>
              |emitted| == Budget(input) && (emitted == [] || !Stops(emitted, |emitted| - 1))
    ensures emitted != [] && BrainFailed(emitted[|emitted| - 1]) ==>
              (run.gaveUp <==> |emitted| > 1 && BrainFailed(emitted[|emitted| - 2]))
  {
    StopsAtFirst(w, input, emitted, Ok(run));
    if emitted != [] {
      OverIffStops(w, input, emitted);
    }
    forall i | 0 <= i < |emitted| - 1 && BrainFailed(emitted[i]) && BrainFailed(emitted[i + 1])
      ensures i + 2 == |emitted| && run.gaveUp
    {
      assert Stops(emitted, i + 1);
    }
  }

  // ----- One run per world -----

  lemma {:induction false} TracesAgree(w: World, input: Input, a: seq<Step>, b: seq<Step>)
    requires IsTrace(w, input, a) && IsTrace(w, input, b) && |a| <= |b|
    ensures b[..|a|] == a
  {
    if a != [] {
      var n := |a| - 1;
      TracesAgree(w, input, a[..n], b);
      TracePrefix(w, input, b, n);
      assert b[..n + 1] == b[..n] + [b[n]];
    }
  }

  /**
    A larger budget only goes on where the smaller one ran out: a run that was stopped, by the brain
    or by a snapshot, is the same, and any other is extended.  With equal budgets: a world has one run.
   */
  lemma BudgetOnlyExtends(w: World, small: Input, large: Input, a: seq<Step>, ra: Result<Outcome, string>,
                          b: seq<Step>, rb: Result<Outcome, string>)
    requires IsRun(w, small, a, ra) && IsRun(w, large, b, rb)
    requires large == small.(maxSteps := large.maxSteps) && Budget(small) <= Budget(large)
    ensures a <= b
    ensures ra.Err? || ra.value.completed || ra.value.gaveUp || Budget(small) == Budget(large) ==> a == b && ra == rb
  {
    SameTraces(w, small, large, a);
    if |a| <= |b| {
      TracesAgree(w, large, a, b);
      if |a| < |b| {
        TracePrefix(w, large, b, |a|);
      }
    } else {
      TracesAgree(w, large, b, a);
      TracePrefix(w, large, a, |b|);
    }
  }

  lemma {:induction false} SameTraces(w: World, small: Input, large: Input, steps: seq<Step>)
    requires IsTrace(w, small, steps) && large == small.(maxSteps := large.maxSteps)
    ensures IsTrace(w, large, steps)
  {
    if steps != [] {
      SameTraces(w, small, large, steps[..|steps| - 1]);
    }
  }
}
