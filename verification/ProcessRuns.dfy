/**
  The supervisor's handlers as they run, statement by statement, on the shared list of runs.
  Every handler is exactly one step of the state machine in `Supervisor`, keeps its invariants, takes
  nothing back, and re-raises only when every run is accounted for.
 */
module ProcessRuns {
  import opened Options
  import opened Text
  import opened Supervisor
  import opened SupervisorSafety
  import SupervisorHistory
  import OutputCapture

  class ProcessSupervisor {
    /** The closure variables of every call so far; `registered` marks the members of the registry. */
    var runs: seq<RunState>
    var reraised: seq<Signal>

    ghost function View(): World
      reads this
    {
      World(runs, reraised)
    }

    ghost predicate Valid()
      reads this
    {
      WorldInv(View())
    }

    constructor ()
      ensures Valid() && View() == EMPTY_WORLD
    {
      runs, reraised := [], [];
    }

    /** Scans the registry and re-raises the signal unless some registered run is unsignalled or unfinished. */
    method MaybeReraiseParentSignal(signal: Signal)
      modifies this`reraised
      ensures View() == MaybeReraise(old(View()), signal)
    {
      for i := 0 to |runs|
        invariant reraised == old(reraised)
        invariant forall j :: 0 <= j < i && runs[j].registered ==> runs[j].signal.Some? && runs[j].done
      {
        if runs[i].registered {
          if runs[i].signal.None? || !runs[i].done {
            return;
          }
        }
      }
      reraised := reraised + [signal];
    }

    /** The new run is the last one; until it is done or gone, nothing is re-raised. */
    method RunProcess(maxOutputChars: nat, rejectOnFailure: bool)
      requires Valid() && Enabled(View(), Start(maxOutputChars, rejectOnFailure))
      modifies this
      ensures Valid() && Follows(old(View()), View())
      ensures View() == Step(old(View()), Start(maxOutputChars, rejectOnFailure))
      ensures |runs| == |old(runs)| + 1 && runs[..|old(runs)|] == old(runs) && !AllDone(runs)
    {
      StepFollows(View(), Start(maxOutputChars, rejectOnFailure));
      StartNeverCompletes(View(), maxOutputChars, rejectOnFailure);
      runs := runs + [StartRun(maxOutputChars, rejectOnFailure)];
    }

    /** The capture is the longest tail of all stdout so far, this chunk included. */
    method HandleStdout(i: nat, chunk: string)
      requires Valid() && Enabled(View(), Stdout(i, chunk))
      modifies this
      ensures Valid() && Follows(old(View()), View())
      ensures View() == Step(old(View()), Stdout(i, chunk))
      ensures OutputCapture.KeepsLongestTail(runs[i].stdout, Flatten(old(runs[i].chunks)) + chunk, runs[i].maxOutputChars)
    {
      StepFollows(View(), Stdout(i, chunk));
      TailSoFar(runs[i].chunks, runs[i].maxOutputChars, chunk);
      assert RunInv(runs[i]);
      var r := runs[i];
      r := r.(stdout := OutputCapture.Append(r.stdout, chunk, r.maxOutputChars));
      r := r.(chunks := r.chunks + [chunk]);
      runs := runs[i := r];
    }

    /** The same for stderr, which also takes the notes on failed signals. */
    method HandleStderr(i: nat, chunk: string)
      requires Valid() && Enabled(View(), Stderr(i, chunk))
      modifies this
      ensures Valid() && Follows(old(View()), View())
      ensures View() == Step(old(View()), Stderr(i, chunk))
      ensures OutputCapture.KeepsLongestTail(runs[i].stderr, Flatten(old(runs[i].errorChunks)) + chunk, runs[i].maxOutputChars)
    {
      StepFollows(View(), Stderr(i, chunk));
      TailSoFar(runs[i].errorChunks, runs[i].maxOutputChars, chunk);
      assert RunInv(runs[i]);
      var r := runs[i];
      r := r.(stderr := OutputCapture.Append(r.stderr, chunk, r.maxOutputChars));
      r := r.(errorChunks := r.errorChunks + [chunk]);
      runs := runs[i := r];
    }

    /** The group has been asked to end and will be forced to, unless it is dead or killed already. */
    method HandleTimeout(i: nat, note: string)
      requires Valid() && Enabled(View(), TimeoutFires(i, note))
      modifies this
      ensures Valid() && Follows(old(View()), View())
      ensures View() == Step(old(View()), TimeoutFires(i, note))
      ensures runs[i].timedOut && SIGTERM in runs[i].sent && (Ticking(runs[i]) || Forced(runs[i]))
    {
      StepFollows(View(), TimeoutFires(i, note));
      assert RunInv(Step(View(), TimeoutFires(i, note)).runs[i]);
      var r := TimeOut(runs[i], note);
      runs := runs[i := r];
    }

    /** The group has been sent SIGKILL and no timer of the run is left. */
    method HandleKillTimer(i: nat, timer: Timer, note: string)
      requires Valid() && Enabled(View(), KillTimerFires(i, timer, note))
      modifies this
      ensures Valid() && Follows(old(View()), View())
      ensures View() == Step(old(View()), KillTimerFires(i, timer, note))
      ensures SIGKILL in runs[i].sent && runs[i].armed == {}
    {
      StepFollows(View(), KillTimerFires(i, timer, note));
      FiringDisarms(runs[i], timer);
      KillTimerPersists(runs[i], timer, note);
      var r := FireKillTimer(runs[i], timer, note);
      runs := runs[i := r];
      if timer.callback.AfterRelay? {
        MaybeReraiseParentSignal(timer.callback.signal);
      }
    }

    /** The run is settled, once, and unless it relays a signal nothing of it is left. */
    method HandleError(i: nat)
      requires Valid() && Enabled(View(), ErrorEvent(i))
      modifies this
      ensures Valid() && Follows(old(View()), View())
      ensures View() == Step(old(View()), ErrorEvent(i))
      ensures runs[i].settled && |runs[i].outcomes| == 1 && (!old(runs[i]).settled ==> runs[i].outcomes == [ChildError])
      ensures runs[i].signal.None? ==>
                !runs[i].registered && runs[i].armed == {} && !runs[i].timeoutArmed && !runs[i].handlersInstalled
    {
      StepFollows(View(), ErrorEvent(i));
      assert RunInv(Step(View(), ErrorEvent(i)).runs[i]);
      var r := runs[i].(errored := true);
      r := Settle(r, ChildError);
      runs := runs[i := r];
    }

    /** A closed run is settled, done, or waits for its timer.  Without a parent signal it is settled at once unless its group,
        being killed, is alive; and if it has not timed out it reports what its exit code, its output and its options say. */
    method HandleClose(i: nat, result: CloseResult, alive: bool)
      requires Valid() && Enabled(View(), Close(i, result, alive))
      modifies this
      ensures Valid() && Follows(old(View()), View())
      ensures View() == Step(old(View()), Close(i, result, alive))
      ensures runs[i].settled || runs[i].done || Ticking(runs[i])
      ensures !old(runs[i]).settled ==>
                (runs[i].settled <==> old(runs[i]).signal.None? && !(alive && KillTimerArmed(old(runs[i]))))
      ensures !old(runs[i]).settled && runs[i].settled && !old(runs[i]).timedOut ==>
                |runs[i].outcomes| == 1
                && SupervisorHistory.Reports(runs[i].outcomes[0], SupervisorHistory.CodeOf(result),
                                             Flatten(old(runs[i]).chunks), Flatten(old(runs[i]).errorChunks),
                                             old(runs[i]).maxOutputChars, old(runs[i]).rejectOnFailure)
    {
      SupervisorHistory.CloseSettles(runs[i], result, alive);
      if !runs[i].timedOut {
        SupervisorHistory.CloseReports(runs[i], result);
      }
      StepFollows(View(), Close(i, result, alive));
      assert RunInv(Step(View(), Close(i, result, alive)).runs[i]);
      ClosePersists(runs[i], result, alive);
      var pending := runs[i].parentSignalPending;
      var r := CloseRun(runs[i], result, alive);
      runs := runs[i := r];
      if pending.Some? && !alive {
        MaybeReraiseParentSignal(pending.value);
      }
    }

    /** The signal has been sent on, and the relay is done or its force-kill timer is armed. */
    method HandleParentSignal(i: nat, signal: Signal, note: string, alive: bool)
      requires Valid() && Enabled(View(), ParentSignal(i, signal, note, alive))
      modifies this
      ensures Valid() && Follows(old(View()), View())
      ensures View() == Step(old(View()), ParentSignal(i, signal, note, alive))
      ensures runs[i].signal == Some(signal) && signal in runs[i].sent && (runs[i].done || ForceTimerArmed(runs[i]))
    {
      StepFollows(View(), ParentSignal(i, signal, note, alive));
      assert RunInv(Step(View(), ParentSignal(i, signal, note, alive)).runs[i]);
      RelayKeepsSignal(runs[i], signal, note, alive);
      var r := RelaySignal(runs[i], signal, note, alive);
      runs := runs[i := r];
      if !alive {
        MaybeReraiseParentSignal(signal);
      }
    }
  }

  // ----- what the handlers do to the variables of one run

  method TimeOut(r0: RunState, note: string) returns (r: RunState)
    ensures r == OnTimeout(r0, note)
  {
    r := r0.(timeoutArmed := false, timedOut := true);
    r := SignalChild(r, SIGTERM, note);
    if r.waitingForKillGrace {
      return;
    }
    r := ArmKillTimer(r, AfterTimeout);
  }

  method FireKillTimer(r0: RunState, timer: Timer, note: string) returns (r: RunState)
    ensures r == OnKillTimer(r0, timer, note)
  {
    r := r0.(armed := r0.armed - {timer}, waitingForKillGrace := false, killTimer := None);
    r := SignalChild(r, SIGKILL, note);
    if timer.callback.AfterRelay? {
      r := r.(done := true);
    } else if r.childClosedResult.Some? {
      r := FinishClose(r, r.childClosedResult.value);
    }
  }

  method CloseRun(r0: RunState, result: CloseResult, alive: bool) returns (r: RunState)
    ensures r == OnClose(r0, result, alive)
  {
    if r0.parentSignalPending.Some? {
      if alive {
        return r0.(closed := true, childClosedResult := Some(result));
      }
      return ClearKillTimer(r0).(closed := true, reportedDead := true, killTimer := None, done := true);
    }
    if r0.waitingForKillGrace && alive {
      return r0.(closed := true, childClosedResult := Some(result));
    }
    r := r0.(closed := true, reportedDead := r0.reportedDead || r0.waitingForKillGrace);
    return FinishClose(r, result);
  }

  method RelaySignal(r0: RunState, signal: Signal, note: string, alive: bool) returns (r: RunState)
    ensures r == OnParentSignal(r0, signal, note, alive)
  {
    r := r0.(parentSignalPending := Some(signal), signal := Some(signal));
    r := SignalChild(r, signal, note);
    r := r.(handlersInstalled := false);
    if !alive {
      r := r.(done := true, reportedDead := true);
      return;
    }
    r := ClearKillTimer(r);
    r := ArmKillTimer(r, AfterRelay(signal));
  }

  lemma TailSoFar(chunks: seq<string>, maxChars: nat, chunk: string)
    ensures maxChars >= 1 ==>
              OutputCapture.KeepsLongestTail(OutputCapture.Append(OutputCapture.AppendAll(chunks, maxChars), chunk, maxChars),
                                             Flatten(chunks) + chunk, maxChars)
  {
    if maxChars >= 1 {
      OutputCapture.CaptureKeepsLongestTail(chunks, maxChars);
      OutputCapture.AppendKeepsLongestTail(OutputCapture.AppendAll(chunks, maxChars), Flatten(chunks), chunk, maxChars);
    }
  }

}
