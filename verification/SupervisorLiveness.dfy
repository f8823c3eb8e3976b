/** When a parent signal can still be re-raised, and when it never will be. */
module SupervisorLiveness {
  import opened Options
  import opened Supervisor
  import opened SupervisorSafety

  /** The run can still complete a relay: of the signal it received, by its close or its force-kill timer, or of one
      it may yet receive. */
  predicate CanComplete(r: RunState) {
    if r.signal.Some? then !r.closed || ForceTimerArmed(r) else !r.settled
  }

  ghost predicate SomeCanComplete(w: World) {
    exists i :: 0 <= i < |w.runs| && CanComplete(w.runs[i])
  }

  /** The events lead from one state to the other, and none of them starts a run. */
  ghost predicate Leads(w: World, es: seq<Event>, w': World)
    decreases |es|
  {
    if es == [] then w' == w
    else !es[0].Start? && Enabled(w, es[0]) && Leads(Step(w, es[0]), es[1..], w')
  }

  /** Some continuation that starts no further run re-raises a signal. */
  ghost predicate CanReraise(w: World) {
    exists es, w' :: Leads(w, es, w') && w'.reraised != w.reraised
  }

  // ----- when no run can complete a relay, nothing is ever re-raised

  lemma SpentRunStays(w: World, e: Event)
    requires WorldInv(w) && Enabled(w, e) && !e.Start? && !CanComplete(w.runs[e.run])
    ensures !CanComplete(StepRun(w.runs[e.run], e)) && RelayCompleted(w.runs[e.run], e).None?
  {
    var r := w.runs[e.run];
    assert RunInv(r);
    match e
    case KillTimerFires(_, timer, note) => assert timer.callback.AfterTimeout?;
    case _ =>
  }

  lemma SpentStep(w: World, e: Event)
    requires WorldInv(w) && Enabled(w, e) && !e.Start? && !SomeCanComplete(w)
    ensures !SomeCanComplete(Step(w, e)) && Step(w, e).reraised == w.reraised
  {
    SpentRunStays(w, e);
    StepTouchesOneRun(w, e);
  }

  lemma {:induction false} SpentForever(w: World, es: seq<Event>, w': World)
    requires WorldInv(w) && !SomeCanComplete(w) && Leads(w, es, w')
    ensures w'.reraised == w.reraised
    decreases |es|
  {
    if es != [] {
      SpentStep(w, es[0]);
      StepKeeps(w, es[0]);
      SpentForever(Step(w, es[0]), es[1..], w');
    }
  }

  // ----- when some run can, the others can be finished first and then that one

  predicate IsUnfinished(r: RunState) { r.registered && !(r.signal.Some? && r.done) }

  function UnfinishedOthers(w: World, i: nat): set<nat> {
    set j: nat | 0 <= j < |w.runs| && j != i && IsUnfinished(w.runs[j])
  }

  /** The event that finishes a run: the force-kill timer of its relay, or a signal that finds its group dead. */
  function Finish(w: World, j: nat): Event
    requires j < |w.runs|
  {
    if w.runs[j].signal.Some? && w.runs[j].killTimer.Some? then KillTimerFires(j, w.runs[j].killTimer.value, "")
    else ParentSignal(j, SIGTERM, "", false)
  }

  lemma FinishFinishes(w: World, j: nat)
    requires WorldInv(w) && j < |w.runs| && IsUnfinished(w.runs[j])
    ensures Enabled(w, Finish(w, j)) && !IsUnfinished(StepRun(w.runs[j], Finish(w, j)))
  {
    assert RunInv(w.runs[j]);
  }

  /** The event that completes a relay of the run. */
  function Complete(w: World, i: nat): Event
    requires i < |w.runs|
  {
    var r := w.runs[i];
    if r.signal.None? then ParentSignal(i, SIGTERM, "", false)
    else if !r.closed then Close(i, CloseResult(None, None), false)
    else if r.killTimer.Some? then KillTimerFires(i, r.killTimer.value, "")
    else ErrorEvent(i)
  }

  lemma CompleteCompletes(w: World, i: nat)
    requires WorldInv(w) && i < |w.runs| && CanComplete(w.runs[i])
    ensures Enabled(w, Complete(w, i)) && RelayCompleted(w.runs[i], Complete(w, i)).Some?
    ensures !IsUnfinished(StepRun(w.runs[i], Complete(w, i)))
  {
    assert RunInv(w.runs[i]);
  }

  lemma CompletesLast(w: World, i: nat)
    requires WorldInv(w) && i < |w.runs| && CanComplete(w.runs[i]) && UnfinishedOthers(w, i) == {}
    ensures Enabled(w, Complete(w, i)) && Step(w, Complete(w, i)).reraised != w.reraised
  {
    CompleteCompletes(w, i);
    var e := Complete(w, i);
    var runs := w.runs[i := StepRun(w.runs[i], e)];
    forall j | 0 <= j < |runs| && runs[j].registered ensures runs[j].signal.Some? && runs[j].done {
      if j != i {
        assert j !in UnfinishedOthers(w, i);
      }
    }
    assert AllDone(runs);
  }

  lemma FinishLeavesFewer(w: World, i: nat, j: nat)
    requires WorldInv(w) && i < |w.runs| && j in UnfinishedOthers(w, i)
    ensures Enabled(w, Finish(w, j))
    ensures var w' := Step(w, Finish(w, j));
            |w'.runs| == |w.runs| && w'.runs[i] == w.runs[i] && UnfinishedOthers(w', i) == UnfinishedOthers(w, i) - {j}
  {
    FinishFinishes(w, j);
    StepTouchesOneRun(w, Finish(w, j));
  }

  lemma OneStepLeads(w: World, e: Event)
    requires Enabled(w, e) && !e.Start?
    ensures Leads(w, [e], Step(w, e))
  {
    assert [e][1..] == [];
  }

  lemma StepThenLeads(w: World, e: Event, es: seq<Event>, w': World)
    requires Enabled(w, e) && !e.Start? && Leads(Step(w, e), es, w')
    ensures Leads(w, [e] + es, w')
  {
    assert ([e] + es)[1..] == es;
  }

  lemma StepThenReraise(w: World, e: Event)
    requires Enabled(w, e) && !e.Start? && (Step(w, e).reraised != w.reraised || CanReraise(Step(w, e)))
    ensures CanReraise(w)
  {
    var next := Step(w, e);
    if next.reraised != w.reraised {
      OneStepLeads(w, e);
    } else {
      var es, w' :| Leads(next, es, w') && w'.reraised != next.reraised;
      StepThenLeads(w, e, es, w');
    }
  }

  lemma {:induction false} ReachesReraise(w: World, i: nat)
    requires WorldInv(w) && i < |w.runs| && CanComplete(w.runs[i])
    ensures CanReraise(w)
    decreases |UnfinishedOthers(w, i)|
  {
    if UnfinishedOthers(w, i) == {} {
      CompletesLast(w, i);
      StepThenReraise(w, Complete(w, i));
    } else {
      var j :| j in UnfinishedOthers(w, i);
      FinishLeavesFewer(w, i, j);
      StepKeeps(w, Finish(w, j));
      assert |UnfinishedOthers(w, i) - {j}| == |UnfinishedOthers(w, i)| - 1;
      ReachesReraise(Step(w, Finish(w, j)), i);
      StepThenReraise(w, Finish(w, j));
    }
  }

  lemma ReraisableExactly(w: World)
    requires WorldInv(w)
    ensures CanReraise(w) <==> SomeCanComplete(w)
  {
    if SomeCanComplete(w) {
      var i :| 0 <= i < |w.runs| && CanComplete(w.runs[i]);
      ReachesReraise(w, i);
    } else if CanReraise(w) {
      var es, w' :| Leads(w, es, w') && w'.reraised != w.reraised;
      SpentForever(w, es, w');
    }
  }

  // ----- theorems over whole histories

  /** In every state of every history a signal can still be re-raised, without starting another run, exactly when some
      run that received one has not closed or has its force-kill timer armed, or some run that received none is not
      settled. */
  lemma ReraiseStaysPossible(ws: seq<World>, es: seq<Event>, k: nat)
    requires Execution(ws, es) && k < |ws|
    ensures CanReraise(ws[k]) <==>
              exists i :: 0 <= i < |ws[k].runs| &&
                if ws[k].runs[i].signal.Some? then !ws[k].runs[i].closed || ForceTimerArmed(ws[k].runs[i])
                else !ws[k].runs[i].settled
  {
    ExecutionKeeps(ws, es, k);
    ReraisableExactly(ws[k]);
    if SomeCanComplete(ws[k]) {
      var i :| 0 <= i < |ws[k].runs| && CanComplete(ws[k].runs[i]);
    } else {
      assert forall i :: 0 <= i < |ws[k].runs| ==> !CanComplete(ws[k].runs[i]);
    }
  }

  /** Every run of the registry has received a signal. */
  predicate AllSignalled(runs: seq<RunState>) {
    forall i :: 0 <= i < |runs| && runs[i].registered ==> runs[i].signal.Some?
  }

  predicate NoForceTimer(runs: seq<RunState>) { forall i :: 0 <= i < |runs| ==> !ForceTimerArmed(runs[i]) }

  lemma StepKeepsSignalled(w: World, e: Event)
    requires WorldInv(w) && Enabled(w, e) && !e.Start? && AllSignalled(w.runs)
    ensures AllSignalled(Step(w, e).runs)
    ensures !AllDone(w.runs) && AllDone(Step(w, e).runs) ==> w.runs[e.run].signal.Some?
  {
    StepTouchesOneRun(w, e);
    StepPersists(w, e, e.run);
    var next := Step(w, e).runs;
    assert forall j :: 0 <= j < |w.runs| && j != e.run ==> next[j] == w.runs[j];
    forall j | 0 <= j < |next| && next[j].registered ensures next[j].signal.Some? { }
    if !AllDone(w.runs) && AllDone(next) {
      var j :| 0 <= j < |w.runs| && w.runs[j].registered && !(w.runs[j].signal.Some? && w.runs[j].done);
    }
  }

  lemma {:induction false} ReraisedOnlyGrows(w: World, es: seq<Event>, w': World)
    requires Leads(w, es, w')
    ensures |w'.reraised| >= |w.reraised|
    decreases |es|
  {
    if es != [] {
      ReraisedOnlyGrows(Step(w, es[0]), es[1..], w');
    }
  }

  /** Someone in the registry still has a force-kill timer. */
  lemma UnfinishedHasTimer(w: World)
    requires WorldInv(w) && AllSignalled(w.runs) && !AllDone(w.runs)
    ensures !NoForceTimer(w.runs)
  {
    var j :| 0 <= j < |w.runs| && w.runs[j].registered && !(w.runs[j].signal.Some? && w.runs[j].done);
    assert RunInv(w.runs[j]) && ForceTimerArmed(w.runs[j]);
  }

  /** Once every run of the registry has received a signal, and as long as no run is started, a re-raise cannot be missed: when
      the last force-kill timer is gone, fired or cleared, the signal has been re-raised. */
  lemma {:induction false} ReraiseIsInevitable(w: World, es: seq<Event>, w': World)
    requires WorldInv(w) && AllSignalled(w.runs) && !AllDone(w.runs)
    requires Leads(w, es, w') && NoForceTimer(w'.runs)
    ensures |w'.reraised| > |w.reraised|
    decreases |es|
  {
    if es == [] {
      UnfinishedHasTimer(w);
    } else {
      var e, next := es[0], Step(w, es[0]);
      StepKeeps(w, e);
      StepKeepsSignalled(w, e);
      if AllDone(next.runs) {
        CompletionReraises(w, e);
        ReraisedOnlyGrows(next, es[1..], w');
      } else {
        ReraiseIsInevitable(next, es[1..], w');
      }
    }
  }

  /** Starting another run always makes it possible again. */
  lemma StartingRevives(ws: seq<World>, es: seq<Event>, k: nat)
    requires Execution(ws, es) && k < |es| && es[k].Start?
    ensures CanReraise(ws[k + 1])
  {
    ExecutionKeeps(ws, es, k + 1);
    assert CanComplete(ws[k + 1].runs[|ws[k].runs|]);
    ReraisableExactly(ws[k + 1]);
  }

  /** A run that was just relayed a signal, and one that has just started. */
  predicate IsRelaying(r: RunState) { r.registered && r.signal == Some(SIGTERM) && r.parentSignalPending.Some? && !r.closed }

  predicate IsRunning(r: RunState) {
    r.registered && r.signal.None? && r.parentSignalPending.None? && !r.closed && !r.settled && !r.waitingForKillGrace
  }

  lemma RelayThenStart() returns (ws: seq<World>, es: seq<Event>, a: RunState, b: RunState)
    ensures Execution(ws, es) && ws[|ws| - 1] == World([a, b], []) && IsRelaying(a) && IsRunning(b)
  {
    b := StartRun(1, false);
    a := OnParentSignal(b, SIGTERM, "", true);
    ws, es := [EMPTY_WORLD], [];
    StartAdds([], 1, false);
    ws, es := Extend(ws, es, Start(1, false));
    LoneRelay(b, SIGTERM);
    ws, es := Extend(ws, es, ParentSignal(0, SIGTERM, "", true));
    StartAdds([a], 1, false);
    ws, es := Extend(ws, es, Start(1, false));
  }

  lemma StrandedHistory() returns (ws: seq<World>, es: seq<Event>)
    ensures Execution(ws, es)
    ensures var w := ws[|ws| - 1];
            w.reraised == [] && |w.runs| == 2 && IsStranded(w.runs[0]) && w.runs[1].signal.None? && w.runs[1].settled
  {
    var a, b;
    ws, es, a, b := RelayThenStart();
    var result := CloseResult(Some(0), None);
    StrandedRuns(a, b, result);
    CloseWaitsForOther(a, b, result);
    ws, es := Extend(ws, es, Close(0, result, false));
    OtherClosesNormally(OnClose(a, result, false), b, result);
    ws, es := Extend(ws, es, Close(1, result, false));
  }

  /** One more event of a history. */
  lemma Extend(ws: seq<World>, es: seq<Event>, e: Event) returns (ws': seq<World>, es': seq<Event>)
    requires Execution(ws, es) && Enabled(ws[|ws| - 1], e)
    ensures Execution(ws', es') && ws'[|ws'| - 1] == Step(ws[|ws| - 1], e)
  {
    ws', es' := ws + [Step(ws[|ws| - 1], e)], es + [e];
  }

  lemma StrandedRuns(a: RunState, b: RunState, result: CloseResult)
    requires IsRelaying(a) && IsRunning(b)
    ensures IsStranded(OnClose(a, result, false))
    ensures OnClose(b, result, false).signal.None? && OnClose(b, result, false).settled
  {
  }

  lemma StartAdds(runs: seq<RunState>, maxOutputChars: nat, rejectOnFailure: bool)
    requires maxOutputChars >= 1
    ensures Step(World(runs, []), Start(maxOutputChars, rejectOnFailure)) == World(runs + [StartRun(maxOutputChars, rejectOnFailure)], [])
  {
  }

  lemma LoneRelay(a: RunState, signal: Signal)
    requires a.handlersInstalled && signal != SIGKILL
    ensures Step(World([a], []), ParentSignal(0, signal, "", true)) == World([OnParentSignal(a, signal, "", true)], [])
  {
    assert [a][0 := OnParentSignal(a, signal, "", true)] == [OnParentSignal(a, signal, "", true)];
  }

  /** The run received a signal and its relay is complete, with nothing left that could complete it again. */
  predicate IsStranded(r: RunState) { r.registered && r.signal == Some(SIGTERM) && r.done && r.closed && r.killTimer.None? }

  /** A history after which the signal a run received is never re-raised, unless another run is started: a second run
      starts after the signal, the first one closes while the second is still running, and then the second one closes
      normally. */
  lemma StrandedRegistry() returns (ws: seq<World>, es: seq<Event>)
    ensures Execution(ws, es)
    ensures var w := ws[|ws| - 1];
            && w.runs != [] && w.runs[0].registered && w.runs[0].signal == Some(SIGTERM) && AllDone(w.runs)
            && w.reraised == [] && forall more, w' :: Leads(w, more, w') ==> w'.reraised == []
  {
    ws, es := StrandedHistory();
    var w := ws[|ws| - 1];
    ExecutionKeeps(ws, es, |ws| - 1);
    assert RunInv(w.runs[1]) && !SomeCanComplete(w);
    forall more, w' | Leads(w, more, w') ensures w'.reraised == [] {
      SpentForever(w, more, w');
    }
  }

  lemma OtherIsNotDone(a: RunState, b: RunState)
    requires b.registered && b.signal.None?
    ensures !AllDone([a, b])
  {
    assert [a, b][1] == b;
  }

  lemma CloseWaitsForOther(a: RunState, b: RunState, result: CloseResult)
    requires !a.closed && b.registered && b.signal.None?
    ensures Step(World([a, b], []), Close(0, result, false)) == World([OnClose(a, result, false), b], [])
  {
    OtherIsNotDone(OnClose(a, result, false), b);
    assert [a, b][0 := OnClose(a, result, false)] == [OnClose(a, result, false), b];
  }

  lemma OtherClosesNormally(a: RunState, b: RunState, result: CloseResult)
    requires !b.closed && b.parentSignalPending.None?
    ensures Step(World([a, b], []), Close(1, result, false)) == World([a, OnClose(b, result, false)], [])
  {
    assert [a, b][1 := OnClose(b, result, false)] == [a, OnClose(b, result, false)];
  }
}
