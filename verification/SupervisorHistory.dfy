/** What the supervisor reports, told by the events of a run alone. */
module SupervisorHistory {
  import opened Options
  import opened Text
  import opened Supervisor
  import opened SupervisorSafety
  import OutputCapture

  // ----- the events of one run

  datatype Kind = Output | ErrorOutput | Timeout | Kill | Failure | Closing | Signalling | Starting

  function KindOf(e: Event): Kind {
    match e
    case Start(_, _) => Starting
    case Stdout(_, _) => Output
    case Stderr(_, _) => ErrorOutput
    case TimeoutFires(_, _) => Timeout
    case KillTimerFires(_, _, _) => Kill
    case ErrorEvent(_) => Failure
    case Close(_, _, _) => Closing
    case ParentSignal(_, _, _, _) => Signalling
  }

  predicate IsOf(e: Event, i: nat) { !e.Start? && e.run == i }

  /** Run `i` had an event of this kind. */
  ghost predicate Saw(es: seq<Event>, i: nat, kind: Kind) {
    exists m :: 0 <= m < |es| && IsOf(es[m], i) && KindOf(es[m]) == kind
  }

  /** What the child wrote to stdout. */
  function StdoutIn(es: seq<Event>, i: nat): seq<string> {
    if es == [] then []
    else StdoutIn(es[..|es| - 1], i) + (if IsOf(es[|es| - 1], i) && es[|es| - 1].Stdout? then [es[|es| - 1].chunk] else [])
  }

  /** What it wrote to stderr, and the notes on failed signals. */
  function StderrIn(es: seq<Event>, i: nat): seq<string> {
    if es == [] then []
    else StderrIn(es[..|es| - 1], i) + (if IsOf(es[|es| - 1], i) then StderrOf(es[|es| - 1]) else [])
  }

  function StderrOf(e: Event): seq<string> {
    if e.Stderr? then [e.chunk] else if e.TimeoutFires? || e.KillTimerFires? || e.ParentSignal? then [e.note] else []
  }

  /** The signals its group was sent. */
  function SentIn(es: seq<Event>, i: nat): set<Signal> {
    if es == [] then {}
    else SentIn(es[..|es| - 1], i) + (if IsOf(es[|es| - 1], i) then SentOf(es[|es| - 1]) else {})
  }

  function SentOf(e: Event): set<Signal> {
    if e.TimeoutFires? then {SIGTERM} else if e.KillTimerFires? then {SIGKILL} else if e.ParentSignal? then {e.signal} else {}
  }

  /** A missing exit code is reported as 1. */
  function CodeOf(result: CloseResult): int { match result.code case Some(code) => code case None => 1 }

  predicate ReportsCode(outcome: Outcome, code: int) {
    (outcome.Resolved? && outcome.code == code) || (outcome.ExitFailure? && outcome.code == code)
  }

  /** The child of run `i` closed with this exit code. */
  ghost predicate ClosedWith(es: seq<Event>, i: nat, code: int) {
    exists n :: 0 <= n < |es| && es[n].Close? && es[n].run == i && CodeOf(es[n].result) == code
  }

  // ----- the variables of a run are a record of its events

  ghost predicate IsOutputRecord(es: seq<Event>, i: nat, r: RunState) {
    r.chunks == StdoutIn(es, i) && r.errorChunks == StderrIn(es, i) && r.sent == SentIn(es, i)
  }

  ghost predicate IsFlagRecord(es: seq<Event>, i: nat, r: RunState) {
    && (r.timedOut <==> Saw(es, i, Timeout)) && (r.errored <==> Saw(es, i, Failure))
    && (r.closed <==> Saw(es, i, Closing)) && (r.signal.Some? <==> Saw(es, i, Signalling))
  }

  /** The kill timer of an unsettled run that relays nothing is armed from its timeout until it fires. */
  ghost predicate IsKillRecord(es: seq<Event>, i: nat, r: RunState) {
    r.signal.None? && !r.settled ==>
      (KillTimerArmed(r) <==> Saw(es, i, Timeout) && !Saw(es, i, Kill)) && (Saw(es, i, Kill) ==> Saw(es, i, Timeout))
  }

  /** Every reported exit code is one the child closed with. */
  ghost predicate IsCodeRecord(es: seq<Event>, i: nat, r: RunState) {
    forall k, code :: 0 <= k < |r.outcomes| && ReportsCode(r.outcomes[k], code) ==> ClosedWith(es, i, code)
  }

  /** The run with the event recorded. */
  function RecordOf(r: RunState, e: Event): RunState {
    match e
    case Start(_, _) => r
    case Stdout(_, chunk) => r.(chunks := r.chunks + [chunk])
    case Stderr(_, chunk) => r.(errorChunks := r.errorChunks + [chunk])
    case TimeoutFires(_, note) => r.(timedOut := true, errorChunks := r.errorChunks + [note], sent := r.sent + {SIGTERM})
    case KillTimerFires(_, _, note) => r.(errorChunks := r.errorChunks + [note], sent := r.sent + {SIGKILL})
    case ErrorEvent(_) => r.(errored := true)
    case Close(_, _, _) => r.(closed := true)
    case ParentSignal(_, signal, note, _) =>
      r.(signal := Some(signal), errorChunks := r.errorChunks + [note], sent := r.sent + {signal})
  }

  /** The two states record the same events and options. */
  predicate SameRecord(r: RunState, r': RunState) {
    && r'.chunks == r.chunks && r'.errorChunks == r.errorChunks && r'.sent == r.sent && r'.timedOut == r.timedOut
    && r'.errored == r.errored && r'.closed == r.closed && r'.signal == r.signal
    && r'.maxOutputChars == r.maxOutputChars && r'.rejectOnFailure == r.rejectOnFailure
  }

  lemma SettleSameRecord(r: RunState, outcome: Outcome)
    ensures SameRecord(r, Settle(r, outcome))
  {
  }

  lemma TimeoutRecords(r: RunState, note: string)
    ensures SameRecord(r.(timedOut := true, errorChunks := r.errorChunks + [note], sent := r.sent + {SIGTERM}), OnTimeout(r, note))
  {
  }

  lemma KillTimerRecords(r: RunState, timer: Timer, note: string)
    ensures SameRecord(r.(errorChunks := r.errorChunks + [note], sent := r.sent + {SIGKILL}), OnKillTimer(r, timer, note))
  {
    var target := r.(errorChunks := r.errorChunks + [note], sent := r.sent + {SIGKILL});
    var killed := SignalChild(r.(armed := r.armed - {timer}, waitingForKillGrace := false, killTimer := None), SIGKILL, note);
    assert SameRecord(target, killed);
    KilledThenFinished(killed, timer);
    SameRecordTwice(target, killed, OnKillTimer(r, timer, note));
  }

  /** What a kill timer does after the group was sent SIGKILL. */
  function Finished(killed: RunState, timer: Timer): RunState {
    match timer.callback
    case AfterRelay(_) => killed.(done := true)
    case AfterTimeout =>
      if killed.childClosedResult.Some? then FinishClose(killed, killed.childClosedResult.value) else killed
  }

  lemma KilledThenFinished(killed: RunState, timer: Timer)
    ensures SameRecord(killed, Finished(killed, timer))
  {
    if timer.callback.AfterRelay? {
      assert Finished(killed, timer) == killed.(done := true);
    } else if killed.childClosedResult.Some? {
      SettleSameRecord(killed, CloseOutcome(killed, killed.childClosedResult.value));
      assert Finished(killed, timer) == Settle(killed, CloseOutcome(killed, killed.childClosedResult.value));
    } else {
      assert Finished(killed, timer) == killed;
    }
  }

  lemma SameRecordTwice(a: RunState, b: RunState, c: RunState)
    requires SameRecord(a, b) && SameRecord(b, c)
    ensures SameRecord(a, c)
  {
  }

  lemma CloseUnrelayedRecords(r: RunState, result: CloseResult, alive: bool)
    ensures SameRecord(r.(closed := true), CloseUnrelayed(r, result, alive))
  {
    var closed := r.(closed := true, reportedDead := r.reportedDead || r.waitingForKillGrace);
    SettleSameRecord(closed, CloseOutcome(closed, result));
  }

  lemma CloseRecords(r: RunState, result: CloseResult, alive: bool)
    ensures SameRecord(r.(closed := true), OnClose(r, result, alive))
  {
    if r.parentSignalPending.Some? {
      assert OnClose(r, result, alive) == CloseRelayed(r, result, alive);
    } else {
      CloseUnrelayedRecords(r, result, alive);
    }
  }

  lemma SignalRecords(r: RunState, signal: Signal, note: string, alive: bool)
    ensures SameRecord(r.(signal := Some(signal), errorChunks := r.errorChunks + [note], sent := r.sent + {signal}),
                       OnParentSignal(r, signal, note, alive))
  {
  }

  lemma StepRecords(r: RunState, e: Event)
    requires !e.Start?
    ensures SameRecord(RecordOf(r, e), StepRun(r, e))
  {
    match e
    case Stdout(_, _) =>
    case Stderr(_, _) =>
    case TimeoutFires(_, note) => TimeoutRecords(r, note);
    case KillTimerFires(_, timer, note) => KillTimerRecords(r, timer, note);
    case ErrorEvent(_) => SettleSameRecord(r.(errored := true), ChildError);
    case Close(_, result, alive) => CloseRecords(r, result, alive);
    case ParentSignal(_, signal, note, alive) => SignalRecords(r, signal, note, alive);
  }

  // ----- what an event does to the kill timer and to the outcome

  /** The kill timer is armed by the timeout and disarmed by firing. */
  predicate StepsKillTimer(r: RunState, e: Event, r': RunState) {
    r'.signal.None? && !r'.settled ==>
      && r.signal.None? && !r.settled && (KillTimerArmed(r') <==> e.TimeoutFires? || (KillTimerArmed(r) && !e.KillTimerFires?))
      && (e.TimeoutFires? ==> !r.timedOut) && (e.KillTimerFires? ==> KillTimerArmed(r))
  }

  lemma TimeoutArms(r: RunState, i: nat, note: string)
    requires RunInv(r) && r.timeoutArmed
    ensures StepsKillTimer(r, TimeoutFires(i, note), OnTimeout(r, note))
  {
  }

  lemma KillTimerDisarms(r: RunState, i: nat, timer: Timer, note: string)
    requires RunInv(r) && timer in r.armed
    ensures StepsKillTimer(r, KillTimerFires(i, timer, note), OnKillTimer(r, timer, note))
  {
    KillTimerPersists(r, timer, note);
    FiringDisarms(r, timer);
  }

  lemma CloseKeepsTimer(r: RunState, i: nat, result: CloseResult, alive: bool)
    requires RunInv(r)
    ensures StepsKillTimer(r, Close(i, result, alive), OnClose(r, result, alive))
  {
  }

  lemma StepsTimer(w: World, e: Event)
    requires Enabled(w, e) && !e.Start? && RunInv(w.runs[e.run])
    ensures StepsKillTimer(w.runs[e.run], e, StepRun(w.runs[e.run], e))
  {
    var r := w.runs[e.run];
    match e
    case Stdout(_, _) =>
    case Stderr(_, _) =>
    case TimeoutFires(i, note) => TimeoutArms(r, i, note);
    case KillTimerFires(i, timer, note) => KillTimerDisarms(r, i, timer, note);
    case ErrorEvent(_) =>
    case Close(i, result, alive) => CloseKeepsTimer(r, i, result, alive);
    case ParentSignal(_, signal, note, alive) => RelayKeepsSignal(r, signal, note, alive);
  }

  /** A new outcome is the close's own, with its exit code, or reports no exit code. */
  predicate StepsOutcome(r: RunState, e: Event, r': RunState) {
    r'.outcomes == r.outcomes || (|r'.outcomes| == 1 && StepOutcome(e, r'.outcomes[0]))
  }

  predicate StepOutcome(e: Event, outcome: Outcome) {
    if outcome.Resolved? || outcome.ExitFailure? then e.Close? && outcome.code == CodeOf(e.result) else true
  }

  lemma KillTimerSettles(r: RunState, timer: Timer, note: string)
    requires RunInv(r) && timer in r.armed
    ensures var r' := OnKillTimer(r, timer, note);
            && (r'.settled <==> r.settled || (timer.callback.AfterTimeout? && r.childClosedResult.Some?))
            && r'.outcomes == if r'.settled && !r.settled then [TimedOut] else r.outcomes
  {
    var r' := OnKillTimer(r, timer, note);
    var killed := SignalChild(r.(armed := r.armed - {timer}, waitingForKillGrace := false, killTimer := None), SIGKILL, note);
    FiringDisarms(r, timer);
    if timer.callback.AfterRelay? {
      assert r' == killed.(done := true);
    } else if killed.childClosedResult.Some? {
      assert KillTimerArmed(r) && killed.timedOut;
      assert CloseOutcome(killed, killed.childClosedResult.value) == TimedOut;
      assert r' == Settle(killed, TimedOut);
    } else {
      assert r' == killed;
    }
  }

  /** A close settles an unsettled run that relays nothing, unless its group is being killed and still alive. */
  lemma CloseSettles(r: RunState, result: CloseResult, alive: bool)
    requires RunInv(r)
    ensures var r' := OnClose(r, result, alive);
            && (r'.settled <==> r.settled || (r.signal.None? && !(alive && KillTimerArmed(r))))
            && r'.outcomes == if r'.settled && !r.settled then [CloseOutcome(r, result)] else r.outcomes
  {
    if r.parentSignalPending.Some? {
      assert OnClose(r, result, alive) == CloseRelayed(r, result, alive);
    } else {
      var closed := r.(closed := true, reportedDead := r.reportedDead || r.waitingForKillGrace);
      assert CloseOutcome(closed, result) == CloseOutcome(r, result);
    }
  }

  lemma SignalSettlesNothing(r: RunState, signal: Signal, note: string, alive: bool)
    ensures OnParentSignal(r, signal, note, alive).settled == r.settled
    ensures OnParentSignal(r, signal, note, alive).outcomes == r.outcomes
  {
  }

  lemma TimeoutSettlesNothing(r: RunState, note: string)
    ensures OnTimeout(r, note).settled == r.settled && OnTimeout(r, note).outcomes == r.outcomes
  {
  }

  lemma StepsItsOutcome(w: World, e: Event)
    requires Enabled(w, e) && !e.Start? && RunInv(w.runs[e.run])
    ensures StepsOutcome(w.runs[e.run], e, StepRun(w.runs[e.run], e))
  {
    var r := w.runs[e.run];
    match e
    case Stdout(_, _) =>
    case Stderr(_, _) =>
    case TimeoutFires(_, note) => TimeoutSettlesNothing(r, note);
    case KillTimerFires(_, timer, note) => KillTimerSettles(r, timer, note);
    case ErrorEvent(_) =>
    case Close(_, result, alive) => CloseSettles(r, result, alive);
    case ParentSignal(_, signal, note, alive) => SignalSettlesNothing(r, signal, note, alive);
  }

  // ----- the record grows with the history

  /** What the event does to the record. */
  predicate Records(r: RunState, e: Event, r': RunState) {
    SameRecord(RecordOf(r, e), r') && StepsKillTimer(r, e, r') && StepsOutcome(r, e, r')
  }

  ghost predicate IsRecord(es: seq<Event>, i: nat, r: RunState) {
    IsOutputRecord(es, i, r) && IsFlagRecord(es, i, r) && IsKillRecord(es, i, r) && IsCodeRecord(es, i, r)
  }

  lemma SawSnoc(es: seq<Event>, e: Event, i: nat, kind: Kind)
    ensures Saw(es + [e], i, kind) <==> Saw(es, i, kind) || (IsOf(e, i) && KindOf(e) == kind)
  {
    var more := es + [e];
    if Saw(es, i, kind) {
      var m :| 0 <= m < |es| && IsOf(es[m], i) && KindOf(es[m]) == kind;
      assert more[m] == es[m];
    }
    assert more[|es|] == e;
  }

  lemma OutputSnoc(es: seq<Event>, e: Event, i: nat)
    ensures StdoutIn(es + [e], i) == StdoutIn(es, i) + (if IsOf(e, i) && e.Stdout? then [e.chunk] else [])
    ensures StderrIn(es + [e], i) == StderrIn(es, i) + (if IsOf(e, i) then StderrOf(e) else [])
    ensures SentIn(es + [e], i) == SentIn(es, i) + (if IsOf(e, i) then SentOf(e) else {})
  {
    assert (es + [e])[..|es|] == es;
  }

  lemma OutputRecordGrows(es: seq<Event>, e: Event, i: nat, r: RunState, r': RunState)
    requires IsOutputRecord(es, i, r) && if IsOf(e, i) then SameRecord(RecordOf(r, e), r') else r' == r
    ensures IsOutputRecord(es + [e], i, r')
  {
    OutputSnoc(es, e, i);
  }

  lemma FlagRecordGrows(es: seq<Event>, e: Event, i: nat, r: RunState, r': RunState)
    requires IsFlagRecord(es, i, r) && if IsOf(e, i) then SameRecord(RecordOf(r, e), r') else r' == r
    ensures IsFlagRecord(es + [e], i, r')
  {
    SawSnoc(es, e, i, Timeout);
    SawSnoc(es, e, i, Failure);
    SawSnoc(es, e, i, Closing);
    SawSnoc(es, e, i, Signalling);
  }

  lemma KillRecordGrows(es: seq<Event>, e: Event, i: nat, r: RunState, r': RunState)
    requires IsKillRecord(es, i, r) && IsFlagRecord(es, i, r) && if IsOf(e, i) then StepsKillTimer(r, e, r') else r' == r
    ensures IsKillRecord(es + [e], i, r')
  {
    SawSnoc(es, e, i, Timeout);
    SawSnoc(es, e, i, Kill);
  }

  lemma CodeRecordGrows(es: seq<Event>, e: Event, i: nat, r: RunState, r': RunState)
    requires IsCodeRecord(es, i, r) && if IsOf(e, i) then StepsOutcome(r, e, r') else r' == r
    ensures IsCodeRecord(es + [e], i, r')
  {
    var more := es + [e];
    assert more[|es|] == e;
    forall code | ClosedWith(es, i, code) ensures ClosedWith(more, i, code) {
      var n :| 0 <= n < |es| && es[n].Close? && es[n].run == i && CodeOf(es[n].result) == code;
      assert more[n] == es[n];
    }
  }

  lemma RecordGrows(es: seq<Event>, e: Event, i: nat, r: RunState, r': RunState)
    requires IsRecord(es, i, r) && if IsOf(e, i) then Records(r, e, r') else r' == r
    ensures IsRecord(es + [e], i, r')
  {
    OutputRecordGrows(es, e, i, r, r');
    FlagRecordGrows(es, e, i, r, r');
    KillRecordGrows(es, e, i, r, r');
    CodeRecordGrows(es, e, i, r, r');
  }

  /** A step either leaves a run alone or records its event in it. */
  lemma StepRecordsIn(w: World, e: Event, i: nat)
    requires WorldInv(w) && Enabled(w, e) && i < |w.runs|
    ensures i < |Step(w, e).runs|
    ensures if IsOf(e, i) then Records(w.runs[i], e, Step(w, e).runs[i]) else Step(w, e).runs[i] == w.runs[i]
  {
    StepTouchesOneRun(w, e);
    if IsOf(e, i) {
      assert RunInv(w.runs[i]);
      StepRecords(w.runs[i], e);
      StepsTimer(w, e);
      StepsItsOutcome(w, e);
    }
  }

  lemma RecordStep(w: World, e: Event, es: seq<Event>, i: nat)
    requires WorldInv(w) && Enabled(w, e) && i < |w.runs| && IsRecord(es, i, w.runs[i])
    ensures i < |Step(w, e).runs| && IsRecord(es + [e], i, Step(w, e).runs[i])
  {
    StepRecordsIn(w, e, i);
    RecordGrows(es, e, i, w.runs[i], Step(w, e).runs[i]);
  }

  lemma {:induction false} FreshRecord(es: seq<Event>, i: nat, r: RunState)
    requires forall m :: 0 <= m < |es| ==> !IsOf(es[m], i)
    requires r == StartRun(r.maxOutputChars, r.rejectOnFailure)
    ensures IsRecord(es, i, r)
  {
    if es != [] {
      var init, last := es[..|es| - 1], es[|es| - 1];
      FreshRecord(init, i, r);
      assert es == init + [last] && !IsOf(last, i);
      RecordGrows(init, last, i, r, r);
    }
  }

  lemma {:induction false} RunsOnlyGrow(ws: seq<World>, es: seq<Event>, j: nat, k: nat)
    requires Execution(ws, es) && j <= k < |ws|
    ensures |ws[j].runs| <= |ws[k].runs|
    decreases k - j
  {
    if j < k {
      StepTouchesOneRun(ws[j], es[j]);
      RunsOnlyGrow(ws, es, j + 1, k);
    }
  }

  /** A run that is not there yet has no events. */
  lemma NoEventsYet(ws: seq<World>, es: seq<Event>, k: nat, i: nat)
    requires Execution(ws, es) && k < |ws| && |ws[k].runs| <= i
    ensures forall m :: 0 <= m < |es[..k]| ==> !IsOf(es[..k][m], i)
  {
    forall m | 0 <= m < k ensures !IsOf(es[m], i) {
      RunsOnlyGrow(ws, es, m, k);
    }
  }

  lemma StartedRun(w: World, e: Event, i: nat)
    requires Enabled(w, e) && |w.runs| <= i < |Step(w, e).runs|
    ensures e.Start? && Step(w, e).runs[i] == StartRun(e.maxOutputChars, e.rejectOnFailure)
  {
    StepTouchesOneRun(w, e);
  }

  lemma FreshAfterStart(es: seq<Event>, e: Event, i: nat, r: RunState)
    requires e.Start? && r == StartRun(e.maxOutputChars, e.rejectOnFailure)
    requires forall m :: 0 <= m < |es| ==> !IsOf(es[m], i)
    ensures IsRecord(es + [e], i, r)
  {
    FreshRecord(es, i, r);
    RecordGrows(es, e, i, r, r);
  }

  /** One more event of a history. */
  lemma RecordNext(w: World, e: Event, past: seq<Event>, i: nat)
    requires WorldInv(w) && Enabled(w, e) && i < |Step(w, e).runs|
    requires if i < |w.runs| then IsRecord(past, i, w.runs[i]) else forall m :: 0 <= m < |past| ==> !IsOf(past[m], i)
    ensures IsRecord(past + [e], i, Step(w, e).runs[i])
  {
    if i < |w.runs| {
      RecordStep(w, e, past, i);
    } else {
      StartedRun(w, e, i);
      FreshAfterStart(past, e, i, Step(w, e).runs[i]);
    }
  }

  /** In every state of every history the variables of a run are a record of its events. */
  lemma {:induction false} RunIsRecord(ws: seq<World>, es: seq<Event>, k: nat, i: nat)
    requires Execution(ws, es) && k < |ws| && i < |ws[k].runs|
    ensures IsRecord(es[..k], i, ws[k].runs[i])
  {
    if k > 0 {
      if i < |ws[k - 1].runs| {
        RunIsRecord(ws, es, k - 1, i);
      } else {
        NoEventsYet(ws, es, k - 1, i);
      }
      ExecutionKeeps(ws, es, k - 1);
      RecordNext(ws[k - 1], es[k - 1], es[..k - 1], i);
      assert es[..k] == es[..k - 1] + [es[k - 1]];
    }
  }

  /** A run keeps the options it was started with. */
  lemma {:induction false} RunKeepsOptions(ws: seq<World>, es: seq<Event>, m: nat, k: nat)
    requires Execution(ws, es) && m < k < |ws| && es[m].Start?
    ensures var i := |ws[m].runs|;
            && i < |ws[k].runs| && ws[k].runs[i].maxOutputChars == es[m].maxOutputChars
            && ws[k].runs[i].rejectOnFailure == es[m].rejectOnFailure
  {
    if m < k - 1 {
      RunKeepsOptions(ws, es, m, k - 1);
      ExecutionKeeps(ws, es, k - 1);
      StepRecordsIn(ws[k - 1], es[k - 1], |ws[m].runs|);
    }
  }

  // ----- what is reported, by the events

  /** Whatever exit code a run reports, its child closed with it; none is reported as 1. */
  lemma ReportedCodeIsReal(ws: seq<World>, es: seq<Event>, k: nat, i: nat, outcome: Outcome) returns (n: nat)
    requires Execution(ws, es) && k < |ws| && i < |ws[k].runs|
    requires outcome in ws[k].runs[i].outcomes && (outcome.Resolved? || outcome.ExitFailure?)
    ensures n < k && es[n].Close? && es[n].run == i
    ensures es[n].result.code == Some(outcome.code) || (es[n].result.code == None && outcome.code == 1)
  {
    RunIsRecord(ws, es, k, i);
    n := CloseOfCode(es[..k], i, ws[k].runs[i], outcome);
  }

  lemma CloseOfCode(es: seq<Event>, i: nat, r: RunState, outcome: Outcome) returns (n: nat)
    requires IsCodeRecord(es, i, r) && outcome in r.outcomes && (outcome.Resolved? || outcome.ExitFailure?)
    ensures n < |es| && es[n].Close? && es[n].run == i && CodeOf(es[n].result) == outcome.code
  {
    var k :| 0 <= k < |r.outcomes| && r.outcomes[k] == outcome;
    assert ReportsCode(r.outcomes[k], outcome.code);
    assert ClosedWith(es, i, outcome.code);
    var m :| 0 <= m < |es| && es[m].Close? && es[m].run == i && CodeOf(es[m].result) == outcome.code;
    n := m;
  }

  /** The last `n` characters. */
  function Tail(s: string, n: nat): string { if |s| <= n then s else s[|s| - n..] }

  /** The output as it is shown: its tail, after a note on what is missing. */
  function Shown(s: string, n: nat): string {
    if |s| <= n then s else "[output truncated " + Decimal(|s| - n) + " chars; showing tail]\n" + Tail(s, n)
  }

  /** What a run that was not timed out reports on closing with this code. */
  ghost predicate Reports(outcome: Outcome, code: int, out: string, err: string, maxOutputChars: nat, rejectOnFailure: bool) {
    && (outcome.Resolved? <==> (if code == 0 then |out| <= maxOutputChars else !rejectOnFailure))
    && (outcome.Resolved? ==> outcome == Resolved(code, Tail(out, maxOutputChars), Shown(err, maxOutputChars)))
    && (outcome.ExitFailure? <==> code != 0 && rejectOnFailure) && (outcome.ExitFailure? ==> outcome.code == code)
    && (outcome.StdoutTooLong? <==> code == 0 && |out| > maxOutputChars)
  }

  lemma CaptureIsTail(chunks: seq<string>, maxChars: nat)
    requires maxChars >= 1
    ensures var capture := OutputCapture.AppendAll(chunks, maxChars);
            && capture.text == Tail(Flatten(chunks), maxChars) && OutputCapture.Format(capture) == Shown(Flatten(chunks), maxChars)
            && (capture.truncatedChars == 0 <==> |Flatten(chunks)| <= maxChars)
  {
    OutputCapture.CaptureKeepsLongestTail(chunks, maxChars);
    var all := Flatten(chunks);
    assert all[0..] == all;
  }

  lemma CloseReports(r: RunState, result: CloseResult)
    requires OutputInv(r) && !r.timedOut
    ensures Reports(CloseOutcome(r, result), CodeOf(result), Flatten(r.chunks), Flatten(r.errorChunks), r.maxOutputChars, r.rejectOnFailure)
  {
    CaptureIsTail(r.chunks, r.maxOutputChars);
    CaptureIsTail(r.errorChunks, r.maxOutputChars);
  }

  /** A run without child error, timeout and parent signal that closes reports, then and for ever, what its exit code, its
      output and the options it was started with say. */
  lemma CloseDecidesOutcome(ws: seq<World>, es: seq<Event>, m: nat, n: nat, k: nat, i: nat)
    requires Execution(ws, es) && m < n < k < |ws| && es[m].Start? && i == |ws[m].runs|
    requires es[n].Close? && es[n].run == i
    requires !Saw(es[..n], i, Failure) && !Saw(es[..n], i, Timeout) && !Saw(es[..n], i, Signalling)
    ensures i < |ws[k].runs| && |ws[k].runs[i].outcomes| == 1
    ensures Reports(ws[k].runs[i].outcomes[0], CodeOf(es[n].result), Flatten(StdoutIn(es[..n], i)), Flatten(StderrIn(es[..n], i)),
                    es[m].maxOutputChars, es[m].rejectOnFailure)
  {
    var r := ws[n].runs[i];
    RunIsRecord(ws, es, n, i);
    RunKeepsOptions(ws, es, m, n);
    ExecutionKeeps(ws, es, n);
    assert RunInv(r) && !r.settled;
    CloseSettles(r, es[n].result, es[n].alive);
    CloseReports(r, es[n].result);
    StepTouchesOneRun(ws[n], es[n]);
    HistoryPersists(ws, es, n + 1, k, i);
  }

  /** A settled run without a child error reports a timeout exactly if it timed out. */
  lemma TimeoutIsReported(ws: seq<World>, es: seq<Event>, k: nat, i: nat)
    requires Execution(ws, es) && k < |ws| && i < |ws[k].runs| && ws[k].runs[i].settled && !Saw(es[..k], i, Failure)
    ensures ws[k].runs[i].outcomes == [TimedOut] <==> Saw(es[..k], i, Timeout)
  {
    RunIsRecord(ws, es, k, i);
    ExecutionKeeps(ws, es, k);
    assert RunInv(ws[k].runs[i]);
  }

  /** A child error settles a run that is not settled yet, as a child error, for ever. */
  lemma ErrorIsReported(ws: seq<World>, es: seq<Event>, n: nat, k: nat, i: nat)
    requires Execution(ws, es) && n < k < |ws| && es[n] == ErrorEvent(i) && !ws[n].runs[i].settled
    ensures i < |ws[k].runs| && ws[k].runs[i].outcomes == [ChildError]
  {
    ExecutionKeeps(ws, es, n);
    assert RunInv(ws[n].runs[i]);
    StepTouchesOneRun(ws[n], es[n]);
    HistoryPersists(ws, es, n + 1, k, i);
  }

  /** A close settles an unsettled run without parent signal exactly unless the group is alive and its kill timer, armed by the
      timeout, is yet to fire; the timer then settles it when it fires. */
  lemma CloseSettlesExactly(ws: seq<World>, es: seq<Event>, n: nat, i: nat)
    requires Execution(ws, es) && n < |es| && IsOf(es[n], i) && !Saw(es[..n], i, Signalling) && !ws[n].runs[i].settled
    ensures es[n].Close? ==> (ws[n + 1].runs[i].settled <==>
              !es[n].alive || !Saw(es[..n], i, Timeout) || Saw(es[..n], i, Kill))
    ensures es[n].KillTimerFires? ==> (ws[n + 1].runs[i].settled <==> Saw(es[..n], i, Closing))
  {
    var r := ws[n].runs[i];
    RunIsRecord(ws, es, n, i);
    ExecutionKeeps(ws, es, n);
    assert RunInv(r);
    StepTouchesOneRun(ws[n], es[n]);
    match es[n]
    case Close(_, result, alive) => CloseSettles(r, result, alive);
    case KillTimerFires(_, timer, note) => KillTimerSettles(r, timer, note);
    case _ =>
  }

  // ----- when a signal is re-raised

  /** The event completes the relay of a parent signal: the signal or the close finds the group dead, or the group is killed. */
  predicate CompletesRelay(r: RunState, e: Event) {
    || (e.ParentSignal? && !e.alive)
    || (e.Close? && !e.alive && r.signal.Some?)
    || (e.KillTimerFires? && e.timer.callback.AfterRelay?)
  }

  lemma RelayCompletedBy(r: RunState, e: Event)
    requires RelayInv(r)
    ensures RelayCompleted(r, e).Some? <==> CompletesRelay(r, e)
  {
  }

  lemma DoneStays(w: World, e: Event)
    requires Enabled(w, e) && !e.Start? && RunInv(w.runs[e.run])
    ensures StepRun(w.runs[e.run], e).done <==> w.runs[e.run].done || RelayCompleted(w.runs[e.run], e).Some?
  {
    StepRunPersists(w, e);
    if !w.runs[e.run].done {
      DoneExactly(w.runs[e.run], e);
    }
  }

  /** Exactly such an event makes a run done, and it re-raises exactly if then every registered run is done. */
  lemma ReraisesExactly(w: World, e: Event)
    requires WorldInv(w) && Enabled(w, e) && !e.Start?
    ensures Step(w, e).runs[e.run].done <==> w.runs[e.run].done || CompletesRelay(w.runs[e.run], e)
    ensures Step(w, e).reraised != w.reraised <==> CompletesRelay(w.runs[e.run], e) && AllDone(Step(w, e).runs)
  {
    assert RunInv(w.runs[e.run]);
    StepTouchesOneRun(w, e);
    DoneStays(w, e);
    RelayCompletedBy(w.runs[e.run], e);
  }
}
