/** Invariants and whole-history theorems of the child-process supervisor. */
module SupervisorSafety {
  import opened Options
  import opened Text
  import OutputCapture
  import opened Supervisor

  // ----- the building blocks of every handler

  lemma CloseIsExplained(r: RunState, result: CloseResult)
    requires r.maxOutputChars >= 1 && r.stdout == OutputCapture.AppendAll(r.chunks, r.maxOutputChars)
    requires r.closed && (r.timedOut ==> Forced(r))
    ensures Explains(r, CloseOutcome(r, result))
  {
    OutputCapture.CaptureKeepsLongestTail(r.chunks, r.maxOutputChars);
    var all := Flatten(r.chunks);
    assert |r.stdout.text| == |all| ==> r.stdout.text == all[0..] == all;
  }

  lemma AppendedChunk(chunks: seq<string>, chunk: string, maxChars: nat)
    ensures OutputCapture.Append(OutputCapture.AppendAll(chunks, maxChars), chunk, maxChars)
         == OutputCapture.AppendAll(chunks + [chunk], maxChars)
  {
    assert (chunks + [chunk])[..|chunks|] == chunks;
  }

  // ----- each handler keeps the invariant of its run

  lemma OnStdoutKeeps(r: RunState, i: nat, chunk: string)
    requires RunInv(r) && !r.closed
    ensures RunInv(StepRun(r, Stdout(i, chunk)))
  {
    AppendedChunk(r.chunks, chunk, r.maxOutputChars);
  }

  lemma OnStderrKeeps(r: RunState, i: nat, chunk: string)
    requires RunInv(r)
    ensures RunInv(StepRun(r, Stderr(i, chunk)))
  {
    AppendedChunk(r.errorChunks, chunk, r.maxOutputChars);
  }

  lemma OnTimeoutKeeps(r: RunState, note: string)
    requires RunInv(r) && r.timeoutArmed
    ensures RunInv(OnTimeout(r, note))
  {
    AppendedChunk(r.errorChunks, note, r.maxOutputChars);
    var r' := OnTimeout(r, note);
    if !r.waitingForKillGrace {
      assert r'.armed == {Timer(r.nextTimer, AfterTimeout)};
    }
  }

  /** A firing timer is the one the handle names, and none stays armed. */
  lemma FiringDisarms(r: RunState, timer: Timer)
    requires TimerInv(r) && timer in r.armed
    ensures r.killTimer == Some(timer) && r.armed - {timer} == {}
  {
  }

  lemma OnRelayTimerKeeps(r: RunState, timer: Timer, note: string)
    requires RunInv(r) && timer in r.armed && timer.callback.AfterRelay?
    ensures RunInv(OnKillTimer(r, timer, note))
  {
    AppendedChunk(r.errorChunks, note, r.maxOutputChars);
    FiringDisarms(r, timer);
  }

  lemma OnTimeoutTimerKeeps(r: RunState, timer: Timer, note: string)
    requires RunInv(r) && timer in r.armed && timer.callback.AfterTimeout?
    ensures RunInv(OnKillTimer(r, timer, note))
  {
    AppendedChunk(r.errorChunks, note, r.maxOutputChars);
    FiringDisarms(r, timer);
    var fired := r.(armed := {}, waitingForKillGrace := false, killTimer := None);
    var killed := SignalChild(fired, SIGKILL, note);
    if killed.childClosedResult.Some? {
      CloseIsExplained(killed, killed.childClosedResult.value);
    }
  }

  /** Clearing the handle's timer leaves none armed. */
  lemma ClearsEveryTimer(r: RunState)
    requires TimerInv(r)
    ensures ClearKillTimer(r).armed == {}
  {
  }

  lemma FinishCloseKeeps(r: RunState, result: CloseResult)
    requires RunInv(r) && !r.closed && r.parentSignalPending.None?
    ensures RunInv(FinishClose(r.(closed := true, reportedDead := r.reportedDead || r.waitingForKillGrace), result))
  {
    ClearsEveryTimer(r);
    var c := r.(closed := true, reportedDead := r.reportedDead || r.waitingForKillGrace);
    CloseIsExplained(c, result);
  }

  lemma CloseRelayedKeeps(r: RunState, result: CloseResult, alive: bool)
    requires RunInv(r) && !r.closed && r.parentSignalPending.Some?
    ensures RunInv(CloseRelayed(r, result, alive))
  {
    ClearsEveryTimer(r);
  }

  lemma CloseUnrelayedKeeps(r: RunState, result: CloseResult, alive: bool)
    requires RunInv(r) && !r.closed && r.parentSignalPending.None?
    ensures RunInv(CloseUnrelayed(r, result, alive))
  {
    if !(r.waitingForKillGrace && alive) {
      FinishCloseKeeps(r, result);
    }
  }

  lemma OnCloseKeeps(r: RunState, result: CloseResult, alive: bool)
    requires RunInv(r) && !r.closed
    ensures RunInv(OnClose(r, result, alive))
  {
    if r.parentSignalPending.Some? {
      CloseRelayedKeeps(r, result, alive);
    } else {
      CloseUnrelayedKeeps(r, result, alive);
    }
  }

  lemma RelayToDeadGroupKeeps(r: RunState, signal: Signal, note: string)
    requires RunInv(r) && r.handlersInstalled
    ensures RunInv(OnParentSignal(r, signal, note, false))
  {
    AppendedChunk(r.errorChunks, note, r.maxOutputChars);
  }

  lemma RelayToLiveGroupKeeps(r: RunState, signal: Signal, note: string)
    requires RunInv(r) && r.handlersInstalled
    ensures RunInv(OnParentSignal(r, signal, note, true))
  {
    AppendedChunk(r.errorChunks, note, r.maxOutputChars);
    ClearsEveryTimer(r);
    var r' := OnParentSignal(r, signal, note, true);
    assert r'.armed == {Timer(r.nextTimer, AfterRelay(signal))};
  }

  lemma OnParentSignalKeeps(r: RunState, signal: Signal, note: string, alive: bool)
    requires RunInv(r) && r.handlersInstalled
    ensures RunInv(OnParentSignal(r, signal, note, alive))
  {
    if alive {
      RelayToLiveGroupKeeps(r, signal, note);
    } else {
      RelayToDeadGroupKeeps(r, signal, note);
    }
  }

  lemma SettleOnErrorKeeps(r: RunState)
    requires RunInv(r)
    ensures RunInv(Settle(r.(errored := true), ChildError))
  {
  }

  lemma StepRunKeeps(w: World, e: Event)
    requires Enabled(w, e) && !e.Start? && RunInv(w.runs[e.run])
    ensures RunInv(StepRun(w.runs[e.run], e))
  {
    var r := w.runs[e.run];
    match e
    case Stdout(i, chunk) => OnStdoutKeeps(r, i, chunk);
    case Stderr(i, chunk) => OnStderrKeeps(r, i, chunk);
    case TimeoutFires(_, note) => OnTimeoutKeeps(r, note);
    case KillTimerFires(_, timer, note) =>
      if timer.callback.AfterRelay? {
        OnRelayTimerKeeps(r, timer, note);
      } else {
        OnTimeoutTimerKeeps(r, timer, note);
      }
    case ErrorEvent(_) => SettleOnErrorKeeps(r);
    case Close(_, result, alive) => OnCloseKeeps(r, result, alive);
    case ParentSignal(_, signal, note, alive) => OnParentSignalKeeps(r, signal, note, alive);
  }

  lemma StepTouchesOneRun(w: World, e: Event)
    requires Enabled(w, e)
    ensures Step(w, e).runs == if e.Start? then w.runs + [StartRun(e.maxOutputChars, e.rejectOnFailure)]
                               else w.runs[e.run := StepRun(w.runs[e.run], e)]
  {
  }

  lemma StepKeeps(w: World, e: Event)
    requires WorldInv(w) && Enabled(w, e)
    ensures WorldInv(Step(w, e))
  {
    StepTouchesOneRun(w, e);
    if !e.Start? {
      StepRunKeeps(w, e);
    }
  }

  lemma {:induction false} ExecutionKeeps(ws: seq<World>, es: seq<Event>, k: nat)
    requires Execution(ws, es) && k < |ws|
    ensures WorldInv(ws[k])
  {
    if k > 0 {
      ExecutionKeeps(ws, es, k - 1);
      StepKeeps(ws[k - 1], es[k - 1]);
    }
  }

  // ----- theorems over whole histories

  /** What holds of every run in every state of every history. */
  lemma EveryReachableRun(ws: seq<World>, es: seq<Event>, k: nat, i: nat)
    requires Execution(ws, es) && k < |ws| && i < |ws[k].runs|
    ensures var r := ws[k].runs[i];
            // a pending parent signal is relayed to completion or its force-kill timer is armed
            && (r.parentSignalPending.Some? ==> r.done || ForceTimerArmed(r))
            // a pending parent signal was sent on to the group, and a timed-out group was sent SIGTERM
            && (r.parentSignalPending.Some? ==> r.parentSignalPending.value in r.sent)
            && (r.timedOut ==> SIGTERM in r.sent)
            // a done relay left a group that was reported dead or was sent SIGKILL
            && (r.done ==> r.reportedDead || SIGKILL in r.sent)
            // a closed run without a parent signal is settled or waits for its kill timer
            && (r.closed && r.parentSignalPending.None? ==>
                  r.settled || (r.childClosedResult.Some? && KillTimerArmed(r)))
            // the registry holds exactly the runs that are unsettled or have a parent signal
            && (r.registered <==> !r.settled || r.parentSignalPending.Some?)
            // a run settled without a parent signal has no timer and no handler left
            && (r.settled && r.parentSignalPending.None? ==>
                  r.armed == {} && !r.timeoutArmed && !r.handlersInstalled)
            // the promise is settled at most once
            && |r.outcomes| == (if r.settled then 1 else 0)
            // at most one kill timer is armed, and the handle can clear it
            && (forall t :: t in r.armed ==> r.killTimer == Some(t))
            // a run reported as timed out left a group that was reported dead or was sent SIGKILL
            && (r.outcomes == [TimedOut] ==> r.reportedDead || SIGKILL in r.sent)
  {
    ExecutionKeeps(ws, es, k);
    assert RunInv(ws[k].runs[i]);
  }

  /** Without any further event from the child, a timer drives every run that is neither settled nor
      done, except one already sent SIGKILL whose close is still to come. */
  lemma NoRunIsStuck(ws: seq<World>, es: seq<Event>, k: nat, i: nat)
    requires Execution(ws, es) && k < |ws| && i < |ws[k].runs|
    ensures var r := ws[k].runs[i];
            r.settled || r.done || r.timeoutArmed || Ticking(r) || (SIGKILL in r.sent && !r.closed)
  {
    ExecutionKeeps(ws, es, k);
    assert RunInv(ws[k].runs[i]);
  }

  /** Every settled run has one outcome, and its history explains it. */
  lemma OutcomeIsExplained(ws: seq<World>, es: seq<Event>, k: nat, i: nat)
    requires Execution(ws, es) && k < |ws| && i < |ws[k].runs| && ws[k].runs[i].settled
    ensures |ws[k].runs[i].outcomes| == 1 && Explains(ws[k].runs[i], ws[k].runs[i].outcomes[0])
  {
    ExecutionKeeps(ws, es, k);
    assert RunInv(ws[k].runs[i]);
  }

  /** A run that resolves with code 0 never timed out and returns all the stdout it ever received. */
  lemma ResolvedZeroReturnsAllOutput(ws: seq<World>, es: seq<Event>, k: nat, i: nat, out: string, err: string)
    requires Execution(ws, es) && k < |ws| && i < |ws[k].runs|
    requires Resolved(0, out, err) in ws[k].runs[i].outcomes
    ensures !ws[k].runs[i].timedOut && out == Flatten(ws[k].runs[i].chunks)
  {
    ExecutionKeeps(ws, es, k);
    assert RunInv(ws[k].runs[i]);
  }

  /** What a run never takes back. */
  predicate Persists(r: RunState, r': RunState) {
    && (r.settled ==> r'.settled && r'.outcomes == r.outcomes)
    && (r.signal.Some? ==> r'.signal == r.signal)
    && (r.done ==> r'.done)
    && (!r.registered ==> !r'.registered)
    && r.sent <= r'.sent
  }

  lemma SettlePersists(r: RunState, outcome: Outcome)
    ensures Persists(r, Settle(r, outcome)) && Settle(r, outcome).signal == r.signal && Settle(r, outcome).closed == r.closed
    ensures Settle(r, outcome).armed <= r.armed && Settle(r, outcome).sent == r.sent && Settle(r, outcome).done == r.done
  {
  }

  lemma KillTimerPersists(r: RunState, timer: Timer, note: string)
    ensures Persists(r, OnKillTimer(r, timer, note)) && OnKillTimer(r, timer, note).signal == r.signal
    ensures OnKillTimer(r, timer, note).armed <= r.armed - {timer} && SIGKILL in OnKillTimer(r, timer, note).sent
  {
    var r' := OnKillTimer(r, timer, note);
    var killed := SignalChild(r.(armed := r.armed - {timer}, waitingForKillGrace := false, killTimer := None), SIGKILL, note);
    if timer.callback.AfterRelay? {
      assert r' == killed.(done := true);
    } else if killed.childClosedResult.Some? {
      SettlePersists(killed, CloseOutcome(killed, killed.childClosedResult.value));
      assert r' == Settle(killed, CloseOutcome(killed, killed.childClosedResult.value));
    } else {
      assert r' == killed;
    }
  }

  lemma CloseRelayedPersists(r: RunState, result: CloseResult, alive: bool)
    ensures Persists(r, CloseRelayed(r, result, alive))
    ensures CloseRelayed(r, result, alive).signal == r.signal && CloseRelayed(r, result, alive).closed
    ensures CloseRelayed(r, result, alive).done <==> r.done || !alive
  {
  }

  lemma CloseUnrelayedPersists(r: RunState, result: CloseResult, alive: bool)
    ensures Persists(r, CloseUnrelayed(r, result, alive))
    ensures CloseUnrelayed(r, result, alive).signal == r.signal && CloseUnrelayed(r, result, alive).closed
    ensures CloseUnrelayed(r, result, alive).done == r.done
  {
    var d := r.(closed := true, reportedDead := r.reportedDead || r.waitingForKillGrace);
    SettlePersists(d, CloseOutcome(d, result));
  }

  lemma ClosePersists(r: RunState, result: CloseResult, alive: bool)
    ensures Persists(r, OnClose(r, result, alive))
    ensures OnClose(r, result, alive).signal == r.signal && OnClose(r, result, alive).closed
    ensures OnClose(r, result, alive).done <==> r.done || (r.parentSignalPending.Some? && !alive)
  {
    CloseRelayedPersists(r, result, alive);
    CloseUnrelayedPersists(r, result, alive);
  }

  lemma RelayPersists(r: RunState, signal: Signal, note: string, alive: bool)
    requires r.signal.None?
    ensures Persists(r, OnParentSignal(r, signal, note, alive))
  {
  }

  lemma StepRunPersists(w: World, e: Event)
    requires Enabled(w, e) && !e.Start? && RelayInv(w.runs[e.run])
    ensures Persists(w.runs[e.run], StepRun(w.runs[e.run], e))
  {
    var r := w.runs[e.run];
    match e
    case KillTimerFires(_, timer, note) => KillTimerPersists(r, timer, note);
    case Close(_, result, alive) => ClosePersists(r, result, alive);
    case ParentSignal(_, signal, note, alive) => RelayPersists(r, signal, note, alive);
    case TimeoutFires(_, note) => TimeoutPersists(r, note);
    case ErrorEvent(_) => SettlePersists(r.(errored := true), ChildError);
    case Stdout(_, _) =>
    case Stderr(_, _) =>
  }

  lemma TimeoutPersists(r: RunState, note: string)
    ensures Persists(r, OnTimeout(r, note)) && OnTimeout(r, note).done == r.done
  {
  }

  lemma StepPersists(w: World, e: Event, i: nat)
    requires WorldInv(w) && Enabled(w, e) && i < |w.runs|
    ensures i < |Step(w, e).runs| && Persists(w.runs[i], Step(w, e).runs[i])
  {
    StepTouchesOneRun(w, e);
    if !e.Start? && i == e.run {
      StepRunPersists(w, e);
    }
  }

  /** A settled promise keeps its outcome, a received signal and a finished relay stay, and a run that
      left the registry never comes back, whatever happens later. */
  lemma {:induction false} HistoryPersists(ws: seq<World>, es: seq<Event>, j: nat, k: nat, i: nat)
    requires Execution(ws, es) && j <= k < |ws| && i < |ws[j].runs|
    ensures i < |ws[k].runs| && Persists(ws[j].runs[i], ws[k].runs[i])
    decreases k - j
  {
    if j < k {
      ExecutionKeeps(ws, es, j);
      StepPersists(ws[j], es[j], i);
      HistoryPersists(ws, es, j + 1, k, i);
    }
  }

  /** A run the parent no longer owes anything: settled with nothing left behind, or relayed to the end. */
  predicate Accounted(r: RunState) {
    || (r.settled && r.signal.None? && !r.registered && r.armed == {} && !r.timeoutArmed && !r.handlersInstalled)
    || (r.signal.Some? && r.done && (r.reportedDead || SIGKILL in r.sent))
  }

  /** What is re-raised is the signal received by the run whose relay has just completed. */
  lemma ReraisedWasReceived(w: World, e: Event)
    requires WorldInv(w) && Enabled(w, e) && Step(w, e).reraised != w.reraised
    ensures !e.Start? && Step(w, e).runs[e.run].signal.Some?
    ensures Step(w, e).reraised == w.reraised + [Step(w, e).runs[e.run].signal.value]
  {
    var r := w.runs[e.run];
    assert RunInv(r);
    assert Step(w, e).runs[e.run] == StepRun(r, e);
    CompletedIsReceived(r, e);
  }

  lemma CompletedIsReceived(r: RunState, e: Event)
    requires TimerInv(r) && RelayInv(r) && RelayCompleted(r, e).Some? && (e.KillTimerFires? ==> e.timer in r.armed)
    ensures StepRun(r, e).signal == RelayCompleted(r, e)
  {
  }

  /** The parent re-raises a signal only when every run it ever started is accounted for. */
  lemma ReraiseAccountsForEveryRun(ws: seq<World>, es: seq<Event>, k: nat, i: nat)
    requires Execution(ws, es) && k < |es|
    requires ws[k + 1].reraised != ws[k].reraised
    requires i < |ws[k + 1].runs|
    ensures Accounted(ws[k + 1].runs[i])
  {
    ExecutionKeeps(ws, es, k + 1);
    assert RunInv(ws[k + 1].runs[i]);
    assert AllDone(ws[k + 1].runs);
  }

  /** A run becomes done only in a step that asks for a re-raise, and such a step keeps it registered. */
  lemma DoneOnlyByRelay(w: World, e: Event)
    requires Enabled(w, e) && !e.Start? && RunInv(w.runs[e.run]) && !w.runs[e.run].done
    ensures StepRun(w.runs[e.run], e).done <==> RelayCompleted(w.runs[e.run], e).Some?
    ensures StepRun(w.runs[e.run], e).done ==> StepRun(w.runs[e.run], e).registered
  {
    StepRunKeeps(w, e);
    DoneExactly(w.runs[e.run], e);
    assert SettleInv(StepRun(w.runs[e.run], e)) && RelayInv(StepRun(w.runs[e.run], e));
  }

  lemma DoneExactly(r: RunState, e: Event)
    requires !r.done
    ensures StepRun(r, e).done <==> RelayCompleted(r, e).Some?
  {
    match e
    case KillTimerFires(_, timer, note) => KillTimerDone(r, timer, note);
    case Close(_, result, alive) => ClosePersists(r, result, alive);
    case TimeoutFires(_, note) => TimeoutPersists(r, note);
    case _ =>
  }

  lemma KillTimerDone(r: RunState, timer: Timer, note: string)
    ensures OnKillTimer(r, timer, note).done <==> r.done || timer.callback.AfterRelay?
  {
    var killed := SignalChild(r.(armed := r.armed - {timer}, waitingForKillGrace := false, killTimer := None), SIGKILL, note);
    if timer.callback.AfterTimeout? && killed.childClosedResult.Some? {
      SettlePersists(killed, CloseOutcome(killed, killed.childClosedResult.value));
    }
  }

  lemma SignalOnlyFromParent(r: RunState, e: Event)
    ensures StepRun(r, e).signal.Some? <==> r.signal.Some? || e.ParentSignal?
  {
    match e
    case KillTimerFires(_, timer, note) => KillTimerPersists(r, timer, note);
    case Close(_, result, alive) => ClosePersists(r, result, alive);
    case ParentSignal(_, signal, note, alive) => RelayKeepsSignal(r, signal, note, alive);
    case _ =>
  }

  lemma RelayKeepsSignal(r: RunState, signal: Signal, note: string, alive: bool)
    ensures OnParentSignal(r, signal, note, alive).signal == Some(signal)
  {
  }

  /** When a step completes the registry, the parent re-raises exactly if the run that stepped had received a signal or
      receives it now; it does not when the last unfinished run merely settled without one. */
  lemma CompletionReraises(w: World, e: Event)
    requires WorldInv(w) && Enabled(w, e) && !e.Start?
    requires !AllDone(w.runs) && AllDone(Step(w, e).runs)
    ensures Step(w, e).reraised != w.reraised <==> w.runs[e.run].signal.Some? || e.ParentSignal?
  {
    CompletedByStepped(w, e);
    DoneOnlyByRelay(w, e);
    StepRunKeeps(w, e);
    SignalOnlyFromParent(w.runs[e.run], e);
    assert SettleInv(StepRun(w.runs[e.run], e)) && RelayInv(StepRun(w.runs[e.run], e));
  }

  /** The run that stepped was the last unfinished one, and is finished or gone. */
  lemma CompletedByStepped(w: World, e: Event)
    requires WorldInv(w) && Enabled(w, e) && !e.Start? && !AllDone(w.runs) && AllDone(Step(w, e).runs)
    ensures !w.runs[e.run].done
    ensures var r' := StepRun(w.runs[e.run], e); r'.registered ==> r'.signal.Some? && r'.done
  {
    StepTouchesOneRun(w, e);
    var runs' := w.runs[e.run := StepRun(w.runs[e.run], e)];
    assert forall j :: 0 <= j < |w.runs| && j != e.run ==> runs'[j] == w.runs[j];
    assert runs'[e.run] == StepRun(w.runs[e.run], e) && RunInv(w.runs[e.run]);
  }

  /** Starting a run never completes the registry. */
  lemma StartNeverCompletes(w: World, maxOutputChars: nat, rejectOnFailure: bool)
    requires maxOutputChars >= 1
    ensures !AllDone(Step(w, Start(maxOutputChars, rejectOnFailure)).runs)
  {
    assert Step(w, Start(maxOutputChars, rejectOnFailure)).runs[|w.runs|] == StartRun(maxOutputChars, rejectOnFailure);
  }

  /** The last unfinished run that relayed a signal has an armed timer whose firing re-raises it. */
  lemma LastForceTimerReraises(w: World, i: nat, note: string)
    requires WorldInv(w) && i < |w.runs|
    requires w.runs[i].signal.Some? && !w.runs[i].done
    requires forall j :: 0 <= j < |w.runs| && j != i && w.runs[j].registered ==> w.runs[j].signal.Some? && w.runs[j].done
    ensures w.runs[i].killTimer.Some?
    ensures var fires := KillTimerFires(i, w.runs[i].killTimer.value, note);
            Enabled(w, fires) && Step(w, fires).reraised == w.reraised + [w.runs[i].signal.value]
  {
    assert RunInv(w.runs[i]);
    var fires := KillTimerFires(i, w.runs[i].killTimer.value, note);
    var runs := w.runs[i := StepRun(w.runs[i], fires)];
    assert AllDone(runs);
  }

  /** What every step leaves behind: the invariants, everything that persists, and a re-raise only when all is accounted for. */
  ghost predicate Follows(w: World, w': World) {
    && WorldInv(w')
    && |w.runs| <= |w'.runs| && (forall i :: 0 <= i < |w.runs| ==> Persists(w.runs[i], w'.runs[i]))
    && (w'.reraised != w.reraised ==> forall i :: 0 <= i < |w'.runs| ==> Accounted(w'.runs[i]))
  }

  lemma AllDoneAreAccounted(w: World, i: nat)
    requires WorldInv(w) && AllDone(w.runs) && i < |w.runs|
    ensures Accounted(w.runs[i])
  {
    assert RunInv(w.runs[i]);
  }

  lemma StepFollows(w: World, e: Event)
    requires WorldInv(w) && Enabled(w, e)
    ensures Follows(w, Step(w, e))
  {
    StepKeeps(w, e);
    StepTouchesOneRun(w, e);
    forall i | 0 <= i < |w.runs| ensures Persists(w.runs[i], Step(w, e).runs[i]) {
      StepPersists(w, e, i);
    }
    if Step(w, e).reraised != w.reraised {
      forall i | 0 <= i < |Step(w, e).runs| ensures Accounted(Step(w, e).runs[i]) {
        AllDoneAreAccounted(Step(w, e), i);
      }
    }
  }
}
