/**
  The child-process supervisor, as a state machine over any number of
  concurrent runs.  A `RunState` holds the variables of one call's closure, what the
  event loop still holds for it (armed timers, installed handlers) and what has
  been observed.  A `World` is every run ever started plus the signals the parent
  re-raised on itself.  The environment chooses the events, their order and every answer
  to "is the process group alive".
 */
module Supervisor {
  import opened Options
  import opened Text
  import OutputCapture

  datatype Signal = SIGINT | SIGTERM | SIGHUP | SIGKILL

  /** The callback a kill timer was armed with. */
  datatype KillCallback =
    | AfterTimeout              // armed by `scheduleKill`
    | AfterRelay(signal: Signal) // armed by the relay of a parent signal

  datatype Timer = Timer(id: nat, callback: KillCallback)

  datatype CloseResult = CloseResult(code: Option<int>, signal: Option<Signal>)

  datatype Outcome =
    | Resolved(code: int, stdout: string, stderr: string)
    | TimedOut
    | ExitFailure(code: int)
    | StdoutTooLong
    | ChildError

  datatype RunState = RunState(
    rejectOnFailure: bool,
    maxOutputChars: nat,
    // variables of the closure
    stdout: OutputCapture.Capture,
    stderr: OutputCapture.Capture,
    timedOut: bool,
    settled: bool,
    waitingForKillGrace: bool,
    childClosedResult: Option<CloseResult>,
    killTimer: Option<Timer>,
    parentSignalPending: Option<Signal>,
    // the run's parent-signal record, and whether the shared registry holds it
    signal: Option<Signal>,
    done: bool,
    registered: bool,
    // held by the event loop
    handlersInstalled: bool,
    timeoutArmed: bool,
    armed: set<Timer>,
    nextTimer: nat,
    // observed
    closed: bool,
    errored: bool,
    chunks: seq<string>,
    errorChunks: seq<string>,
    sent: set<Signal>,
    reportedDead: bool,
    outcomes: seq<Outcome>)

  datatype World = World(runs: seq<RunState>, reraised: seq<Signal>)

  datatype Event =
    | Start(maxOutputChars: nat, rejectOnFailure: bool)
    | Stdout(run: nat, chunk: string)
    | Stderr(run: nat, chunk: string)
    | TimeoutFires(run: nat, note: string)
    | KillTimerFires(run: nat, timer: Timer, note: string)
    | ErrorEvent(run: nat)
    | Close(run: nat, result: CloseResult, alive: bool)
    | ParentSignal(run: nat, signal: Signal, note: string, alive: bool)

  const EMPTY_WORLD := World([], [])

  // ----- one run

  function StartRun(maxOutputChars: nat, rejectOnFailure: bool): RunState {
    RunState(rejectOnFailure, maxOutputChars, OutputCapture.EMPTY, OutputCapture.EMPTY,
             false, false, false, None, None, None,
             None, false, true,
             true, true, {}, 0,
             false, false, [], [], {}, false, [])
  }

  /** `note` is the failure text that a failed group kill leaves on stderr, empty when there is none. */
  function SignalChild(r: RunState, signal: Signal, note: string): RunState {
    r.(sent := r.sent + {signal},
       stderr := OutputCapture.Append(r.stderr, note, r.maxOutputChars),
       errorChunks := r.errorChunks + [note])
  }

  /** `clearTimeout` on the handle, when there is one. */
  function DisarmHandle(killTimer: Option<Timer>, armed: set<Timer>): set<Timer> {
    if killTimer.Some? then armed - {killTimer.value} else armed
  }

  function ClearKillTimer(r: RunState): RunState {
    r.(armed := DisarmHandle(r.killTimer, r.armed))
  }

  function ArmKillTimer(r: RunState, callback: KillCallback): RunState {
    var timer := Timer(r.nextTimer, callback);
    r.(waitingForKillGrace := true,
       killTimer := Some(timer),
       armed := r.armed + {timer},
       nextTimer := r.nextTimer + 1)
  }

  /** Only the first call settles the run; without a pending parent signal it also disarms and deregisters it. */
  function Settle(r: RunState, outcome: Outcome): RunState {
    var first := !r.settled;
    var final := first && r.parentSignalPending.None?;
    r.(settled := true,
       timeoutArmed := r.timeoutArmed && !first,
       armed := if final then DisarmHandle(r.killTimer, r.armed) else r.armed,
       registered := r.registered && !final,
       handlersInstalled := r.handlersInstalled && !first,
       outcomes := if first then r.outcomes + [outcome] else r.outcomes)
  }

  function CloseOutcome(r: RunState, result: CloseResult): Outcome {
    var code := if result.code.Some? then result.code.value else 1;
    if r.timedOut then TimedOut
    else if code != 0 && r.rejectOnFailure then ExitFailure(code)
    else if code == 0 && r.stdout.truncatedChars > 0 then StdoutTooLong
    else Resolved(code, r.stdout.text, OutputCapture.Format(r.stderr))
  }

  function FinishClose(r: RunState, result: CloseResult): RunState {
    Settle(r, CloseOutcome(r, result))
  }

  function ScheduleKill(r: RunState): RunState {
    if r.waitingForKillGrace then r else ArmKillTimer(r, AfterTimeout)
  }

  function OnTimeout(r: RunState, note: string): RunState {
    ScheduleKill(SignalChild(r.(timeoutArmed := false, timedOut := true), SIGTERM, note))
  }

  /** A kill timer fires: the group is sent SIGKILL, then its callback finishes the close or the relay. */
  function OnKillTimer(r: RunState, timer: Timer, note: string): RunState {
    var fired := r.(armed := r.armed - {timer}, waitingForKillGrace := false, killTimer := None);
    var killed := SignalChild(fired, SIGKILL, note);
    match timer.callback
    case AfterRelay(_) => killed.(done := true)
    case AfterTimeout =>
      if killed.childClosedResult.Some? then FinishClose(killed, killed.childClosedResult.value) else killed
  }

  /** A close while a parent signal is pending: a dead group completes the relay, a live one is left to the timer. */
  function CloseRelayed(r: RunState, result: CloseResult, alive: bool): RunState {
    r.(closed := true,
       childClosedResult := if alive then Some(result) else r.childClosedResult,
       armed := if alive then r.armed else DisarmHandle(r.killTimer, r.armed),
       killTimer := if alive then r.killTimer else None,
       done := r.done || !alive,
       reportedDead := r.reportedDead || !alive)
  }

  /** Any other close: a live group that is being killed is left to the timer, else the run is finished. */
  function CloseUnrelayed(r: RunState, result: CloseResult, alive: bool): RunState {
    if r.waitingForKillGrace && alive then r.(closed := true, childClosedResult := Some(result))
    else FinishClose(r.(closed := true, reportedDead := r.reportedDead || r.waitingForKillGrace), result)
  }

  function OnClose(r: RunState, result: CloseResult, alive: bool): RunState {
    if r.parentSignalPending.Some? then CloseRelayed(r, result, alive) else CloseUnrelayed(r, result, alive)
  }

  function OnParentSignal(r: RunState, signal: Signal, note: string, alive: bool): RunState {
    var relayed :=
      SignalChild(r.(parentSignalPending := Some(signal), signal := Some(signal)), signal, note)
      .(handlersInstalled := false);
    if alive then ArmKillTimer(ClearKillTimer(relayed), AfterRelay(signal))
    else relayed.(done := true, reportedDead := true)
  }

  // ----- the world

  predicate AllDone(runs: seq<RunState>) {
    forall i :: 0 <= i < |runs| && runs[i].registered ==> runs[i].signal.Some? && runs[i].done
  }

  function MaybeReraise(w: World, signal: Signal): World {
    if AllDone(w.runs) then w.(reraised := w.reraised + [signal]) else w
  }

  predicate Enabled(w: World, e: Event) {
    match e
    case Start(maxOutputChars, _) => maxOutputChars >= 1
    case Stdout(i, _) => i < |w.runs| && !w.runs[i].closed
    case Stderr(i, _) => i < |w.runs| && !w.runs[i].closed
    case TimeoutFires(i, _) => i < |w.runs| && w.runs[i].timeoutArmed
    case KillTimerFires(i, timer, _) => i < |w.runs| && timer in w.runs[i].armed
    case ErrorEvent(i) => i < |w.runs| && !w.runs[i].errored
    case Close(i, _, _) => i < |w.runs| && !w.runs[i].closed
    case ParentSignal(i, signal, _, _) => i < |w.runs| && w.runs[i].handlersInstalled && signal != SIGKILL
  }

  /** The state the event leaves its run in. */
  function StepRun(r: RunState, e: Event): RunState {
    match e
    case Start(_, _) => r
    case Stdout(_, chunk) =>
      r.(stdout := OutputCapture.Append(r.stdout, chunk, r.maxOutputChars), chunks := r.chunks + [chunk])
    case Stderr(_, chunk) =>
      r.(stderr := OutputCapture.Append(r.stderr, chunk, r.maxOutputChars), errorChunks := r.errorChunks + [chunk])
    case TimeoutFires(_, note) => OnTimeout(r, note)
    case KillTimerFires(_, timer, note) => OnKillTimer(r, timer, note)
    case ErrorEvent(_) => Settle(r.(errored := true), ChildError)
    case Close(_, result, alive) => OnClose(r, result, alive)
    case ParentSignal(_, signal, note, alive) => OnParentSignal(r, signal, note, alive)
  }

  /** The signal the event asks the parent to re-raise, when it completes the relay of one. */
  function RelayCompleted(r: RunState, e: Event): Option<Signal> {
    match e
    case KillTimerFires(_, timer, _) =>
      (match timer.callback case AfterRelay(signal) => Some(signal) case AfterTimeout => None)
    case Close(_, _, alive) => if alive then None else r.parentSignalPending
    case ParentSignal(_, signal, _, alive) => if alive then None else Some(signal)
    case _ => None
  }

  function Step(w: World, e: Event): World
    requires Enabled(w, e)
  {
    if e.Start? then w.(runs := w.runs + [StartRun(e.maxOutputChars, e.rejectOnFailure)])
    else
      var next := w.(runs := w.runs[e.run := StepRun(w.runs[e.run], e)]);
      var completed := RelayCompleted(w.runs[e.run], e);
      if completed.Some? then MaybeReraise(next, completed.value) else next
  }

  /** A whole history of the parent process: its states and the events between them. */
  ghost predicate Execution(ws: seq<World>, es: seq<Event>) {
    && |ws| == |es| + 1
    && ws[0] == EMPTY_WORLD
    && forall k :: 0 <= k < |es| ==> Enabled(ws[k], es[k]) && ws[k + 1] == Step(ws[k], es[k])
  }

  // ----- what every run keeps

  predicate Forced(r: RunState) { r.reportedDead || SIGKILL in r.sent }

  /** The timer named by the `killTimer` handle is still armed. */
  predicate Ticking(r: RunState) { r.killTimer.Some? && r.killTimer.value in r.armed }

  predicate ForceTimerArmed(r: RunState) { Ticking(r) && r.killTimer.value.callback.AfterRelay? }

  predicate KillTimerArmed(r: RunState) { Ticking(r) && r.killTimer.value.callback.AfterTimeout? }

  /** Every armed kill timer is the one the handle names, so none is ever orphaned. */
  predicate TimerInv(r: RunState) {
    && r.armed == (if Ticking(r) then {r.killTimer.value} else {})
    && (Ticking(r) ==> r.waitingForKillGrace)
    && (r.killTimer.Some? ==> r.killTimer.value.id < r.nextTimer)
    && (ForceTimerArmed(r) ==> r.parentSignalPending == Some(r.killTimer.value.callback.signal))
    && (r.timeoutArmed <==> !r.timedOut && !r.settled)
  }

  /** A relayed parent signal is always on its way to completion. */
  predicate RelayInv(r: RunState) {
    && r.signal == r.parentSignalPending
    && (r.parentSignalPending.Some? ==> !r.handlersInstalled && (r.done || ForceTimerArmed(r)))
    && (r.parentSignalPending.None? && !r.settled ==> r.handlersInstalled)
    && (r.parentSignalPending.Some? ==> r.parentSignalPending.value in r.sent)
    && (r.done ==> r.parentSignalPending.Some? && Forced(r))
  }

  /** The promise is settled at most once, and a settled run that relayed nothing leaves nothing behind. */
  predicate SettleInv(r: RunState) {
    && |r.outcomes| == (if r.settled then 1 else 0)
    && (r.registered <==> !(r.settled && r.parentSignalPending.None?))
    && (r.settled && r.parentSignalPending.None? ==> r.armed == {} && !r.handlersInstalled && !r.timeoutArmed)
  }

  /** A closed run is settled, relaying, or holds its close result until the kill timer fires. */
  predicate CloseInv(r: RunState) {
    && (r.childClosedResult.Some? ==> r.closed)
    && (r.closed && r.parentSignalPending.None? ==>
          r.settled || (r.childClosedResult.Some? && KillTimerArmed(r)))
    && (r.waitingForKillGrace && r.parentSignalPending.None? && !r.settled ==> KillTimerArmed(r))
    && (KillTimerArmed(r) ==> r.timedOut)
    && (r.timedOut ==> SIGTERM in r.sent && (r.waitingForKillGrace || SIGKILL in r.sent))
  }

  /** Why a run was settled the way it was. */
  predicate Explains(r: RunState, outcome: Outcome) {
    match outcome
    case Resolved(code, stdout, _) =>
      && r.closed && !r.timedOut && stdout == r.stdout.text
      && (if code == 0 then stdout == Flatten(r.chunks) else !r.rejectOnFailure)
    case TimedOut => r.timedOut && Forced(r)
    case ExitFailure(code) => r.closed && !r.timedOut && code != 0 && r.rejectOnFailure
    case StdoutTooLong => r.closed && !r.timedOut && |Flatten(r.chunks)| > r.maxOutputChars
    case ChildError => r.errored
  }

  predicate OutputInv(r: RunState) {
    && r.maxOutputChars >= 1
    && r.stdout == OutputCapture.AppendAll(r.chunks, r.maxOutputChars)
    && r.stderr == OutputCapture.AppendAll(r.errorChunks, r.maxOutputChars)
    && (r.outcomes != [] ==> Explains(r, r.outcomes[0]))
  }

  predicate RunInv(r: RunState) {
    TimerInv(r) && RelayInv(r) && SettleInv(r) && CloseInv(r) && OutputInv(r)
  }

  ghost predicate WorldInv(w: World) {
    forall i :: 0 <= i < |w.runs| ==> RunInv(w.runs[i])
  }
}
