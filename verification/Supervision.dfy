/**
  Supervising one recorded CLI run.

  What the operating system does is a script: the polls that find the child alive, its exit, what
  the capture files hold then, and where an OS error strikes.  `Supervise` follows any script.
 */
module Supervision {
  import opened Wrappers

  const MAX_RECEIPT: nat := 2097152
  const GRACE: int := 10

  datatype State = Running | Completed | Failed | Unavailable | Interrupted | TimedOut | OutputLimit

  /** One poll that finds the child alive; `signals` arrived since the poll before. */
  datatype Poll = Poll(signals: seq<nat>, elapsed: int, size: nat, statFault: bool, signalFault: bool, sinceTermination: int)

  /** After the child is gone: sizes and contents of the captures, and the OS errors met. */
  datatype Captures = Captures(size: nat, raw: seq<byte>, statFault: bool, readFault: bool, replaceFault: bool, errorsFault: bool)

  datatype Script = Script(launchFault: bool, polls: seq<Poll>, exit: int, captures: Captures)

  datatype Record = Record(state: State, exitCode: int, cliExit: Option<int>, digest: Option<string>)

  // ----- What the script says -----

  /** Why the run is to be stopped at a poll; `before` are the signals that arrived earlier. */
  function ReasonAt(p: Poll, before: seq<nat>, timeout: int): Option<State> {
    if before + p.signals != [] then Some(Interrupted)
    else if p.elapsed >= timeout then Some(TimedOut)
    else if p.size > MAX_RECEIPT then Some(OutputLimit)
    else None
  }

  /** The size is looked at only when there is neither a signal nor a timeout. */
  predicate LooksAtSize(p: Poll, before: seq<nat>, timeout: int) {
    before + p.signals == [] && p.elapsed < timeout
  }

  /** How the polls end: with the first stop reason, if any, and the signals by then, or in an OS error. */
  datatype Ending = Ended(reason: Option<State>, signals: seq<nat>) | Broken

  function Polled(polls: seq<Poll>, reason: Option<State>, before: seq<nat>, timeout: int): Ending {
    if polls == [] then Ended(reason, before)
    else
      var p := polls[0];
      var now := before + p.signals;
      if LooksAtSize(p, before, timeout) && p.statFault then Broken
      else if reason.None? && ReasonAt(p, before, timeout).Some? then
        if p.signalFault then Broken else Polled(polls[1..], ReasonAt(p, before, timeout), now, timeout)
      else if reason.Some? && p.sinceTermination > GRACE then
        if p.signalFault then Broken else Ended(reason, now)
      else Polled(polls[1..], reason, now, timeout)
  }

  function EndingOf(script: Script, timeout: int): Ending {
    if script.launchFault then Broken else Polled(script.polls, None, [], timeout)
  }

  // ----- What ends the polling -----

  function SignalsBefore(polls: seq<Poll>, i: nat): seq<nat>
    requires i <= |polls|
  {
    if i == 0 then [] else SignalsBefore(polls, i - 1) + polls[i - 1].signals
  }

  function PollReason(polls: seq<Poll>, i: nat, timeout: int): Option<State>
    requires i < |polls|
  {
    ReasonAt(polls[i], SignalsBefore(polls, i), timeout)
  }

  /** The first poll from the i-th on with a reason to stop, or their number. */
  function FirstStop(polls: seq<Poll>, i: nat, timeout: int): (f: nat)
    requires i <= |polls|
    ensures i <= f <= |polls| && (f < |polls| ==> PollReason(polls, f, timeout).Some?)
    ensures forall m | i <= m < f :: PollReason(polls, m, timeout).None?
    decreases |polls| - i
  {
    if i == |polls| || PollReason(polls, i, timeout).Some? then i else FirstStop(polls, i + 1, timeout)
  }

  /** The first poll from the i-th on that finds the child alive after the grace period, or their number. */
  function FirstKill(polls: seq<Poll>, i: nat): (k: nat)
    requires i <= |polls|
    ensures i <= k <= |polls| && (k < |polls| ==> polls[k].sinceTermination > GRACE)
    ensures forall m | i <= m < k :: polls[m].sinceTermination <= GRACE
    decreases |polls| - i
  {
    if i == |polls| || polls[i].sinceTermination > GRACE then i else FirstKill(polls, i + 1)
  }

  /** The poll at which the child is killed: the first such after the one that stopped it. */
  function KillPoll(polls: seq<Poll>, timeout: int): (k: nat)
    ensures k <= |polls|
  {
    var f := FirstStop(polls, 0, timeout);
    if f < |polls| then FirstKill(polls, f + 1) else |polls|
  }

  /** How many polls there are up to the kill. */
  function PollsMade(polls: seq<Poll>, timeout: int): (n: nat)
    ensures n <= |polls|
  {
    var k := KillPoll(polls, timeout);
    if k < |polls| then k + 1 else |polls|
  }

  /** An OS error at a poll: in looking at the size, or in signalling the child to stop or to die. */
  predicate FaultAt(polls: seq<Poll>, j: nat, timeout: int)
    requires j < |polls|
  {
    || (LooksAtSize(polls[j], SignalsBefore(polls, j), timeout) && polls[j].statFault)
    || ((j == FirstStop(polls, 0, timeout) || j == KillPoll(polls, timeout)) && polls[j].signalFault)
  }

  ghost predicate FaultFrom(polls: seq<Poll>, i: nat, timeout: int) {
    exists j: nat | i <= j < PollsMade(polls, timeout) :: FaultAt(polls, j, timeout)
  }

  function StopReason(polls: seq<Poll>, timeout: int): Option<State> {
    var f := FirstStop(polls, 0, timeout);
    if f < |polls| then PollReason(polls, f, timeout) else None
  }

  lemma PolledStep(polls: seq<Poll>, i: nat, reason: Option<State>, timeout: int)
    requires i < |polls|
    ensures var p, before, now := polls[i], SignalsBefore(polls, i), SignalsBefore(polls, i + 1);
            Polled(polls[i..], reason, before, timeout) ==
            if LooksAtSize(p, before, timeout) && p.statFault then Broken
            else if reason.None? && PollReason(polls, i, timeout).Some? then
              if p.signalFault then Broken else Polled(polls[i + 1..], PollReason(polls, i, timeout), now, timeout)
            else if reason.Some? && p.sinceTermination > GRACE then
              if p.signalFault then Broken else Ended(reason, now)
            else Polled(polls[i + 1..], reason, now, timeout)
  {
    assert polls[i..][1..] == polls[i + 1..] && polls[i..][0] == polls[i];
  }

  /** Where the i-th poll leads. */
  lemma PollLeads(polls: seq<Poll>, i: nat, timeout: int)
    requires i < |polls| && i <= KillPoll(polls, timeout)
    ensures var f, k := FirstStop(polls, 0, timeout), KillPoll(polls, timeout);
            && (i < f ==> PollReason(polls, i, timeout).None?)
            && (i == f ==> PollReason(polls, i, timeout) == StopReason(polls, timeout) && StopReason(polls, timeout).Some? && i < k)
            && (f < i ==> StopReason(polls, timeout).Some? && (polls[i].sinceTermination > GRACE <==> i == k))
            && PollsMade(polls, timeout) > i && (i == k ==> PollsMade(polls, timeout) == i + 1)
  {
  }

  /** The reason known before the i-th poll. */
  function ReasonBefore(polls: seq<Poll>, i: nat, timeout: int): Option<State> {
    if i <= FirstStop(polls, 0, timeout) then None else StopReason(polls, timeout)
  }

  function PolledAt(polls: seq<Poll>, i: nat, timeout: int): Ending
    requires i <= |polls|
  {
    Polled(polls[i..], ReasonBefore(polls, i, timeout), SignalsBefore(polls, i), timeout)
  }

  lemma PolledNext(polls: seq<Poll>, i: nat, timeout: int)
    requires i < |polls| && i <= KillPoll(polls, timeout)
    ensures PolledAt(polls, i, timeout) ==
            if FaultAt(polls, i, timeout) then Broken
            else if i == KillPoll(polls, timeout) then Ended(StopReason(polls, timeout), SignalsBefore(polls, i + 1))
            else PolledAt(polls, i + 1, timeout)
  {
    PolledStep(polls, i, ReasonBefore(polls, i, timeout), timeout);
    PollLeads(polls, i, timeout);
  }

  /** Steps that each lead on to the next until a fault, if there is one. */
  lemma {:induction false} StepsLead(at: nat -> Ending, fault: nat -> bool, i: nat, n: nat)
    requires i <= n && forall j: nat | i <= j < n :: at(j) == if fault(j) then Broken else at(j + 1)
    ensures at(i) == if exists j: nat :: i <= j < n && fault(j) then Broken else at(n)
    decreases n - i
  {
    if i < n {
      StepsLead(at, fault, i + 1, n);
    }
  }

  function EndOf(polls: seq<Poll>, timeout: int): Ending {
    Ended(StopReason(polls, timeout), SignalsBefore(polls, PollsMade(polls, timeout)))
  }

  function LedTo(polls: seq<Poll>, timeout: int, j: nat): Ending {
    if j < PollsMade(polls, timeout) then PolledAt(polls, j, timeout) else EndOf(polls, timeout)
  }

  lemma NonePolled(polls: seq<Poll>, timeout: int)
    requires KillPoll(polls, timeout) == |polls|
    ensures PolledAt(polls, |polls|, timeout) == EndOf(polls, timeout)
  {
  }

  lemma LeadsOn(polls: seq<Poll>, timeout: int, j: nat)
    requires j < PollsMade(polls, timeout)
    ensures LedTo(polls, timeout, j) == if FaultAt(polls, j, timeout) then Broken else LedTo(polls, timeout, j + 1)
  {
    PolledNext(polls, j, timeout);
    PollLeads(polls, j, timeout);
    if KillPoll(polls, timeout) == |polls| {
      NonePolled(polls, timeout);
    }
  }

  lemma PolledEnds(polls: seq<Poll>, timeout: int)
    ensures LedTo(polls, timeout, 0) == if FaultFrom(polls, 0, timeout) then Broken else EndOf(polls, timeout)
  {
    var n := PollsMade(polls, timeout);
    var fault := (j: nat) => j < n && FaultAt(polls, j, timeout);
    forall j: nat | j < n
      ensures LedTo(polls, timeout, j) == if fault(j) then Broken else LedTo(polls, timeout, j + 1)
    {
      LeadsOn(polls, timeout, j);
    }
    StepsLead((j: nat) => LedTo(polls, timeout, j), fault, 0, n);
    FaultsAgree(polls, timeout, fault);
  }

  lemma FaultsAgree(polls: seq<Poll>, timeout: int, fault: nat -> bool)
    requires forall j: nat | j < PollsMade(polls, timeout) :: fault(j) <==> FaultAt(polls, j, timeout)
    ensures FaultFrom(polls, 0, timeout) <==> exists j: nat :: 0 <= j < PollsMade(polls, timeout) && fault(j)
  {
    if j: nat :| j < PollsMade(polls, timeout) && fault(j) {
      assert FaultAt(polls, j, timeout);
    }
    if FaultFrom(polls, 0, timeout) {
      var j: nat :| j < PollsMade(polls, timeout) && FaultAt(polls, j, timeout);
      assert fault(j);
    }
  }

  /**
    Unless an OS error strikes on the way, the reason to stop is that of the first poll with a
    signal, a timeout or too much output, there is none exactly if no poll has one, and the signals
    are all that arrived up to the last poll made.
   */
  lemma PolledIs(polls: seq<Poll>, timeout: int)
    ensures var ending := Polled(polls, None, [], timeout);
            && (ending.Broken? <==> FaultFrom(polls, 0, timeout))
            && (ending.Ended? ==>
                  && ending.signals == SignalsBefore(polls, PollsMade(polls, timeout))
                  && (ending.reason.None? <==> forall i: nat | i < |polls| :: PollReason(polls, i, timeout).None?)
                  && forall s :: ending.reason == Some(s) <==> StopsWith(polls, timeout, s))
  {
    PolledEnds(polls, timeout);
    PolledFromStart(polls, timeout);
    forall s
      ensures StopReason(polls, timeout) == Some(s) <==> StopsWith(polls, timeout, s)
    {
      StopIsFirst(polls, timeout, s);
    }
  }

  lemma PolledFromStart(polls: seq<Poll>, timeout: int)
    ensures LedTo(polls, timeout, 0) == Polled(polls, None, [], timeout)
  {
    assert polls[0..] == polls;
  }

  /** Some poll has this reason to stop and none before it has any. */
  ghost predicate StopsWith(polls: seq<Poll>, timeout: int, s: State) {
    exists i: nat | i < |polls| ::
      PollReason(polls, i, timeout) == Some(s) && forall j: nat | j < i :: PollReason(polls, j, timeout).None?
  }

  lemma StopIsFirst(polls: seq<Poll>, timeout: int, s: State)
    ensures StopReason(polls, timeout) == Some(s) <==> StopsWith(polls, timeout, s)
  {
    var f := FirstStop(polls, 0, timeout);
    if i: nat :| i < |polls| && PollReason(polls, i, timeout) == Some(s)
                 && forall j: nat | j < i :: PollReason(polls, j, timeout).None? {
      assert f == i;
    }
  }

  // ----- What the polls show -----

  /** Nothing is wrong: no signal, time left, and no more than two MiB of output. */
  predicate QuietPoll(p: Poll, timeout: int) {
    p.signals == [] && p.elapsed < timeout && p.size <= 2 * 1024 * 1024
  }

  predicate QuietBefore(polls: seq<Poll>, i: nat, timeout: int)
    requires i <= |polls|
  {
    forall j | 0 <= j < i :: QuietPoll(polls[j], timeout)
  }

  /** The first poll that is not quiet comes with a signal. */
  predicate InterruptedAt(polls: seq<Poll>, i: nat, timeout: int) {
    i < |polls| && QuietBefore(polls, i, timeout) && polls[i].signals != []
  }

  /** It comes too late, without a signal. */
  predicate TimedOutAt(polls: seq<Poll>, i: nat, timeout: int) {
    i < |polls| && QuietBefore(polls, i, timeout) && polls[i].signals == [] && polls[i].elapsed >= timeout
  }

  /** It finds too much output, in time and without a signal. */
  predicate OverflowsAt(polls: seq<Poll>, i: nat, timeout: int) {
    && i < |polls| && QuietBefore(polls, i, timeout)
    && polls[i].signals == [] && polls[i].elapsed < timeout && polls[i].size > 2 * 1024 * 1024
  }

  ghost predicate StopsAs(polls: seq<Poll>, i: nat, timeout: int, s: State) {
    || (s == Interrupted && InterruptedAt(polls, i, timeout))
    || (s == TimedOut && TimedOutAt(polls, i, timeout))
    || (s == OutputLimit && OverflowsAt(polls, i, timeout))
  }

  lemma {:induction false} NoneArrivedIff(polls: seq<Poll>, n: nat)
    requires n <= |polls|
    ensures SignalsBefore(polls, n) == [] <==> forall k | 0 <= k < n :: polls[k].signals == []
  {
    if n > 0 {
      NoneArrivedIff(polls, n - 1);
    }
  }

  lemma {:induction false} QuietIffNoReason(polls: seq<Poll>, i: nat, timeout: int)
    requires i <= |polls|
    ensures QuietBefore(polls, i, timeout) <==> forall j | 0 <= j < i :: PollReason(polls, j, timeout).None?
    ensures QuietBefore(polls, i, timeout) ==> SignalsBefore(polls, i) == []
  {
    if i > 0 {
      QuietIffNoReason(polls, i - 1, timeout);
      if QuietBefore(polls, i - 1, timeout) {
        assert PollReason(polls, i - 1, timeout).None? <==> QuietPoll(polls[i - 1], timeout);
      }
    }
  }

  lemma ReasonShown(polls: seq<Poll>, i: nat, timeout: int, s: State)
    requires i < |polls| && QuietBefore(polls, i, timeout)
    ensures PollReason(polls, i, timeout) == Some(s) <==> StopsAs(polls, i, timeout, s)
  {
    QuietIffNoReason(polls, i, timeout);
  }

  /** The stop reasons, said of the polls themselves. */
  lemma StopsShown(polls: seq<Poll>, timeout: int, s: State)
    ensures StopsWith(polls, timeout, s) <==> exists i: nat :: StopsAs(polls, i, timeout, s)
  {
    if i: nat :| i < |polls| && PollReason(polls, i, timeout) == Some(s)
                 && forall j: nat | j < i :: PollReason(polls, j, timeout).None? {
      QuietIffNoReason(polls, i, timeout);
      ReasonShown(polls, i, timeout, s);
    }
    if i: nat :| StopsAs(polls, i, timeout, s) {
      QuietIffNoReason(polls, i, timeout);
      ReasonShown(polls, i, timeout, s);
    }
  }

  /** An interruption is by the first signal of all. */
  lemma {:induction false} FirstSignal(polls: seq<Poll>, i: nat, n: nat)
    requires i < n <= |polls| && polls[i].signals != [] && forall j | 0 <= j < i :: polls[j].signals == []
    ensures SignalsBefore(polls, n) != [] && SignalsBefore(polls, n)[0] == polls[i].signals[0]
    decreases n
  {
    if n == i + 1 {
      NoneArrivedIff(polls, i);
    } else {
      FirstSignal(polls, i, n - 1);
    }
  }

  /** The size is looked at exactly when no signal has arrived and time is left. */
  lemma SizeLookedAt(polls: seq<Poll>, j: nat, timeout: int)
    requires j < |polls|
    ensures LooksAtSize(polls[j], SignalsBefore(polls, j), timeout) <==>
              polls[j].elapsed < timeout && forall k | 0 <= k <= j :: polls[k].signals == []
  {
    NoneArrivedIff(polls, j + 1);
    assert SignalsBefore(polls, j + 1) == SignalsBefore(polls, j) + polls[j].signals;
  }

  /** Poll f is the first that is not quiet: the child is asked to stop there. */
  predicate StopsAt(polls: seq<Poll>, f: nat, timeout: int) {
    f < |polls| && QuietBefore(polls, f, timeout) && !QuietPoll(polls[f], timeout)
  }

  /** Poll k is the first behind poll f that finds the child alive more than ten seconds later: it is killed there. */
  predicate KillsAt(polls: seq<Poll>, f: nat, k: nat) {
    f < k < |polls| && polls[k].sinceTermination > 10 && forall m | f < m < k :: polls[m].sinceTermination <= 10
  }

  lemma FirstStopShown(polls: seq<Poll>, f: nat, timeout: int)
    ensures f < |polls| && FirstStop(polls, 0, timeout) == f <==> StopsAt(polls, f, timeout)
  {
    if f < |polls| {
      QuietIffNoReason(polls, f, timeout);
      if QuietBefore(polls, f, timeout) {
        assert PollReason(polls, f, timeout).None? <==> QuietPoll(polls[f], timeout);
      }
    }
  }

  lemma KillShown(polls: seq<Poll>, k: nat, timeout: int)
    ensures k < |polls| && KillPoll(polls, timeout) == k <==>
              exists f: nat :: StopsAt(polls, f, timeout) && KillsAt(polls, f, k)
  {
    var f := FirstStop(polls, 0, timeout);
    FirstStopShown(polls, f, timeout);
    if k < |polls| && KillPoll(polls, timeout) == k {
      assert StopsAt(polls, f, timeout) && KillsAt(polls, f, k);
    }
    if g: nat :| StopsAt(polls, g, timeout) && KillsAt(polls, g, k) {
      FirstStopShown(polls, g, timeout);
    }
  }

  /** Where an OS error at a poll counts: looking at the size, asking the child to stop, killing it. */
  lemma FaultShown(polls: seq<Poll>, j: nat, timeout: int)
    requires j < |polls|
    ensures FaultAt(polls, j, timeout) <==>
              || (polls[j].statFault && polls[j].elapsed < timeout && forall k | 0 <= k <= j :: polls[k].signals == [])
              || (polls[j].signalFault && StopsAt(polls, j, timeout))
              || (polls[j].signalFault && exists f: nat :: StopsAt(polls, f, timeout) && KillsAt(polls, f, j))
  {
    SizeLookedAt(polls, j, timeout);
    FirstStopShown(polls, j, timeout);
    KillShown(polls, j, timeout);
  }

  // ----- What else can go wrong -----

  /** No poll has a reason to stop the run. */
  ghost predicate Undisturbed(script: Script, timeout: int) {
    forall i: nat | i < |script.polls| :: PollReason(script.polls, i, timeout).None?
  }

  predicate Oversized(script: Script) {
    script.captures.size > MAX_RECEIPT
  }

  /** The capture was read and is a versioned canonical object. */
  predicate Canonical(script: Script, valid: seq<byte> -> bool) {
    !Oversized(script) && valid(script.captures.raw)
  }

  /** An OS error strikes somewhere the supervisor goes. */
  predicate Faulty(script: Script, timeout: int, valid: seq<byte> -> bool) {
    var c, ending := script.captures, EndingOf(script, timeout);
    || ending.Broken?
    || c.statFault
    || (!Oversized(script) && (c.readFault || (valid(c.raw) && c.replaceFault)))
    || (c.errorsFault && (script.exit != 0
                          || (!Canonical(script, valid) && !Oversized(script) && ending.reason.None?)))
  }

  /** The capture outgrows the bound between its size check and its read. */
  predicate Grows(script: Script) {
    script.captures.size <= MAX_RECEIPT < |script.captures.raw|
  }

  /** No OS error strikes, nothing stops the run, and the child exits with 0 and a receipt. */
  ghost predicate Completes(script: Script, timeout: int, valid: seq<byte> -> bool) {
    && !Faulty(script, timeout, valid) && Undisturbed(script, timeout)
    && script.exit == 0 && Canonical(script, valid)
  }

  lemma NoReasonIffUndisturbed(script: Script, timeout: int)
    requires EndingOf(script, timeout).Ended?
    ensures EndingOf(script, timeout).reason.None? <==> Undisturbed(script, timeout)
  {
    PolledIs(script.polls, timeout);
  }

  /** For any valid output beyond the bound there is a run that completes and retains it. */
  lemma GrowingCaptureIsRetained(raw: seq<byte>, timeout: int, valid: seq<byte> -> bool) returns (script: Script)
    requires valid(raw) && |raw| > MAX_RECEIPT
    ensures Completes(script, timeout, valid) && Grows(script) && script.captures.raw == raw
  {
    script := Script(false, [], 0, Captures(0, raw, false, false, false, false));
  }

  /** How the polls of a script end, said of the polls; if with an interruption, at which. */
  lemma Shown(script: Script, timeout: int) returns (i: nat)
    ensures var ending, polls := EndingOf(script, timeout), script.polls;
            ending.Ended? ==>
              && (ending.reason == Some(Interrupted) <==> exists i: nat :: InterruptedAt(polls, i, timeout))
              && (ending.reason == Some(TimedOut) <==> exists i: nat :: TimedOutAt(polls, i, timeout))
              && (ending.reason == Some(OutputLimit) <==> exists i: nat :: OverflowsAt(polls, i, timeout))
              && (ending.reason.None? <==> QuietBefore(polls, |polls|, timeout))
              && (ending.reason == Some(Interrupted) ==>
                    InterruptedAt(polls, i, timeout) && ending.signals != [] && ending.signals[0] == polls[i].signals[0])
  {
    i := 0;
    var ending, polls := EndingOf(script, timeout), script.polls;
    if ending.Ended? {
      PolledIs(polls, timeout);
      EachStopShown(polls, timeout);
      QuietIffNoReason(polls, |polls|, timeout);
      if ending.reason == Some(Interrupted) {
        i :| InterruptedAt(polls, i, timeout);
        FirstIsMade(polls, i, timeout);
        FirstSignal(polls, i, PollsMade(polls, timeout));
      }
    }
  }

  lemma EachStopShown(polls: seq<Poll>, timeout: int)
    ensures StopsWith(polls, timeout, Interrupted) <==> exists i: nat :: InterruptedAt(polls, i, timeout)
    ensures StopsWith(polls, timeout, TimedOut) <==> exists i: nat :: TimedOutAt(polls, i, timeout)
    ensures StopsWith(polls, timeout, OutputLimit) <==> exists i: nat :: OverflowsAt(polls, i, timeout)
  {
    StopsShown(polls, timeout, Interrupted);
    StopsShown(polls, timeout, TimedOut);
    StopsShown(polls, timeout, OutputLimit);
    if i: nat :| InterruptedAt(polls, i, timeout) {
      assert StopsAs(polls, i, timeout, Interrupted);
    }
    if i: nat :| TimedOutAt(polls, i, timeout) {
      assert StopsAs(polls, i, timeout, TimedOut);
    }
    if i: nat :| OverflowsAt(polls, i, timeout) {
      assert StopsAs(polls, i, timeout, OutputLimit);
    }
  }

  lemma FirstIsMade(polls: seq<Poll>, i: nat, timeout: int)
    requires InterruptedAt(polls, i, timeout)
    ensures i < PollsMade(polls, timeout)
  {
    QuietIffNoReason(polls, i, timeout);
    ReasonShown(polls, i, timeout, Interrupted);
  }

  // ----- The supervisor -----

  /** The polling loop: the state the record is left in, the signals received, or an OS error. */
  method Watch(polls: seq<Poll>, timeout: int) returns (ending: Ending)
    ensures ending == Polled(polls, None, [], timeout)
    ensures ending.Broken? <==> FaultFrom(polls, 0, timeout)
    ensures ending.Ended? ==> ending.signals == SignalsBefore(polls, PollsMade(polls, timeout))
    ensures ending.Ended? ==> forall s :: ending.reason == Some(s) <==> StopsWith(polls, timeout, s)
  {
    PolledIs(polls, timeout);
    var state: Option<State> := None;
    var interrupted: seq<nat> := [];
    var i := 0;
    while i < |polls|
      invariant i <= |polls|
      invariant Polled(polls, None, [], timeout) == Polled(polls[i..], state, interrupted, timeout)
    {
      var p := polls[i];
      assert polls[i..][1..] == polls[i + 1..];
      ghost var before := interrupted;
      interrupted := interrupted + p.signals;
      var reason: Option<State> := None;
      if interrupted != [] {
        reason := Some(Interrupted);
      } else if p.elapsed >= timeout {
        reason := Some(TimedOut);
      } else if p.statFault {
        return Broken;
      } else if p.size > MAX_RECEIPT {
        reason := Some(OutputLimit);
      }
      assert reason == ReasonAt(p, before, timeout);
      if reason.Some? && state.None? {
        state := reason;
        if p.signalFault {
          return Broken;
        }
      } else if state.Some? && p.sinceTermination > GRACE {
        if p.signalFault {
          return Broken;
        }
        return Ended(state, interrupted);
      }
      i := i + 1;
    }
    return Ended(state, interrupted);
  }

  /**
    The final record.  It is never running, its exit code is 0 exactly when it is completed, and it
    is completed exactly when no OS error struck, nothing stopped the run, the child exited with 0
    and its output is a canonical receipt, measured within the bound, whose digest is then recorded.
    What is retained is within the bound too unless the capture grew between its check and its read.
   */
  method Supervise(script: Script, timeout: int, valid: seq<byte> -> bool, sha: seq<byte> -> string)
    returns (record: Record, data: Option<seq<byte>>)
    requires !valid([])
    ensures record.state != Running && (record.exitCode == 0 <==> record.state == Completed)
    ensures record.state == Completed <==> Completes(script, timeout, valid)
    ensures record.digest.Some? ==>
              data == Some(script.captures.raw) && (|data.value| <= MAX_RECEIPT <==> !Grows(script))
    ensures record.digest.Some? && |script.captures.raw| <= script.captures.size ==> |data.value| <= MAX_RECEIPT
    ensures record.state == Completed ==>
              && record.cliExit == Some(0) && data == Some(script.captures.raw)
              && record.digest == Some(sha(script.captures.raw)) && script.captures.size <= MAX_RECEIPT
    ensures record.state == Unavailable <==> Faulty(script, timeout, valid)
    ensures record.state in {Interrupted, TimedOut} ==>
              EndingOf(script, timeout).reason == Some(record.state) && !Oversized(script)
    ensures record.state == Interrupted ==>
              && EndingOf(script, timeout).signals != []
              && record.exitCode == 128 + EndingOf(script, timeout).signals[0]
    ensures record.state == TimedOut ==> record.exitCode == 124
    ensures record.state == OutputLimit <==>
              && !Faulty(script, timeout, valid)
              && (Oversized(script) || EndingOf(script, timeout).reason == Some(OutputLimit))
    ensures record.state == Failed && script.exit < 0 ==> record.exitCode == 128 - script.exit
    ensures record.state == Failed && script.exit > 0 ==> record.exitCode == script.exit
    ensures record.state == Failed && script.exit == 0 ==> record.exitCode == 2
    ensures record.digest.Some? ==> data.Some? && record.digest == Some(sha(data.value))
    ensures var polls := script.polls;
            !Faulty(script, timeout, valid) && !Oversized(script) ==>
              && (record.state == Interrupted <==> exists i: nat :: InterruptedAt(polls, i, timeout))
              && (record.state == TimedOut <==> exists i: nat :: TimedOutAt(polls, i, timeout))
              && (record.state == OutputLimit <==> exists i: nat :: OverflowsAt(polls, i, timeout))
              && (record.state in {Completed, Failed} <==> QuietBefore(polls, |polls|, timeout))
    ensures record.state == Interrupted ==>
              exists i: nat :: InterruptedAt(script.polls, i, timeout) && record.exitCode == 128 + script.polls[i].signals[0]
    ensures record.state == OutputLimit ==> record.exitCode == 2
    ensures record.state == Unavailable ==> record.exitCode == 127
    ensures record.cliExit == if EndingOf(script, timeout).Broken? then None else Some(script.exit)
  {
    ghost var interrupted := Shown(script, timeout);
    if EndingOf(script, timeout).Ended? {
      NoReasonIffUndisturbed(script, timeout);
    }
    ReasonsStop(script.polls, None, [], timeout);
    record, data := Record(Running, 127, None, None), None;
    var ending := Broken;
    if !script.launchFault {
      ending := Watch(script.polls, timeout);
    }
    if ending.Broken? {
      // The child, if there is one, is reaped; failing at that is reported the same way.
      return Record(Unavailable, 127, None, None), None;
    }
    var state := if ending.reason.Some? then ending.reason.value else Running;
    var exitCode := script.exit;
    record := record.(cliExit := Some(exitCode));
    if script.captures.statFault {
      return record.(state := Unavailable, exitCode := 127), None;
    }
    if script.captures.size > MAX_RECEIPT {
      state := OutputLimit;
    } else {
      if script.captures.readFault {
        return record.(state := Unavailable, exitCode := 127), None;
      }
      var raw := script.captures.raw;
      if valid(raw) {
        data := Some(raw);
        if script.captures.replaceFault {
          return record.(state := Unavailable, exitCode := 127), data;
        }
        record := record.(digest := Some(sha(raw)));
      }
    }
    if exitCode != 0 || (data.None? && state == Running) {
      if script.captures.errorsFault {
        return record.(state := Unavailable, exitCode := 127), data;
      }
    }
    if state == Running {
      state := if exitCode == 0 && data.Some? && data.value != [] then Completed else Failed;
    }
    if state == Interrupted {
      exitCode := 128 + ending.signals[0];
    } else if state == TimedOut {
      exitCode := 124;
    } else if state == OutputLimit {
      exitCode := 2;
    } else if exitCode < 0 {
      exitCode := 128 - exitCode;
    } else if exitCode == 0 && data.None? {
      exitCode := 2;
    }
    record := record.(state := state, exitCode := exitCode);
  }

  /** A stop reason is one of three states, and an interruption comes with its signal. */
  lemma {:induction false} ReasonsStop(polls: seq<Poll>, reason: Option<State>, before: seq<nat>, timeout: int)
    requires reason.Some? ==> reason.value in {Interrupted, TimedOut, OutputLimit} && (reason.value == Interrupted ==> before != [])
    ensures var ending := Polled(polls, reason, before, timeout);
            ending.Ended? && ending.reason.Some? ==>
              && ending.reason.value in {Interrupted, TimedOut, OutputLimit}
              && (ending.reason.value == Interrupted ==> ending.signals != [])
    decreases polls
  {
    if polls != [] {
      var p := polls[0];
      var now := before + p.signals;
      if reason.None? && ReasonAt(p, before, timeout).Some? {
        ReasonsStop(polls[1..], ReasonAt(p, before, timeout), now, timeout);
      } else {
        ReasonsStop(polls[1..], reason, now, timeout);
      }
    }
  }
}
