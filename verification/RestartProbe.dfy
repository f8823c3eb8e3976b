/** The probe of a restarting gateway: polls a health endpoint until an outage has come and gone. */
module RestartProbe {
  import opened Options

  datatype Attempt = Attempt(elapsed: real, status: Option<nat>, errorKind: Option<string>)

  /** One turn of the loop before the deadline: what it is told and what its request would answer. */
  datatype Poll = Poll(processDone: bool, done: bool, attempt: Attempt)

  datatype Transition = Transition(ms: real, status: Option<nat>, errorKind: Option<string>)

  datatype ProbeResult = ProbeResult(
    downtimeMs: Option<real>,
    firstErrorKind: Option<string>,
    firstRecoveryMs: Option<real>,
    ms: Option<real>,
    status: Option<nat>,
    transitions: seq<Transition>,
    unavailableMs: Option<real>)

  predicate IsUp(a: Attempt) { a.status == Some(200) }

  /** The state key: the status and the kind of error, `ok` when there is none. */
  function Key(a: Attempt): (Option<nat>, string) {
    (a.status, if a.errorKind.Some? then a.errorKind.value else "ok")
  }

  predicate HasErrorKind(a: Attempt) { a.errorKind.Some? && a.errorKind.value != "" }

  function ToTransition(a: Attempt): Transition {
    Transition(a.elapsed, a.status, if HasErrorKind(a) then a.errorKind else None)
  }

  // ----- the trace, described

  function Attempts(polls: seq<Poll>): (attempts: seq<Attempt>)
    ensures |attempts| == |polls|
  {
    seq(|polls|, k requires 0 <= k < |polls| => polls[k].attempt)
  }

  /** The attempts whose state differs from the one before: the trace without adjacent repeats. */
  function Changes(attempts: seq<Attempt>): seq<Attempt> {
    if attempts == [] then []
    else
      var last := attempts[|attempts| - 1];
      Changes(attempts[..|attempts| - 1])
      + (if |attempts| == 1 || Key(last) != Key(attempts[|attempts| - 2]) then [last] else [])
  }

  function Transitions(attempts: seq<Attempt>): seq<Transition> {
    var changes := Changes(attempts);
    seq(|changes|, k requires 0 <= k < |changes| => ToTransition(changes[k]))
  }

  /** The first attempt that is down. */
  ghost predicate FirstDown(attempts: seq<Attempt>, b: nat) {
    b < |attempts| && !IsUp(attempts[b]) && forall k :: 0 <= k < b ==> IsUp(attempts[k])
  }

  ghost predicate AllUp(attempts: seq<Attempt>) { forall k :: 0 <= k < |attempts| ==> IsUp(attempts[k]) }

  /** The first attempt that is up again after the outage began at `b`. */
  ghost predicate FirstUpAfter(attempts: seq<Attempt>, b: nat, r: nat) {
    b < r < |attempts| && IsUp(attempts[r]) && forall k :: b <= k < r ==> !IsUp(attempts[k])
  }

  function FirstErrorKind(attempts: seq<Attempt>): Option<string> {
    if attempts == [] then None
    else
      var before := FirstErrorKind(attempts[..|attempts| - 1]);
      if before.Some? then before
      else if HasErrorKind(attempts[|attempts| - 1]) then attempts[|attempts| - 1].errorKind
      else None
  }

  /** Down from `b` to the end. */
  ghost predicate StaysDown(attempts: seq<Attempt>, b: nat) {
    forall k :: b <= k < |attempts| ==> !IsUp(attempts[k])
  }

  /** No outage: no downtime, and the time of the last success. */
  ghost predicate ReportsNoOutage(attempts: seq<Attempt>, result: ProbeResult) {
    && result.unavailableMs == None && result.downtimeMs == None && result.firstRecoveryMs == None
    && result.ms == if attempts == [] then None else Some(attempts[|attempts| - 1].elapsed)
  }

  /** An outage from `b` on that did not end: neither downtime nor a time. */
  ghost predicate ReportsOpenOutage(attempts: seq<Attempt>, b: nat, result: ProbeResult)
    requires b < |attempts|
  {
    && result.unavailableMs == Some(attempts[b].elapsed)
    && result.downtimeMs == None && result.firstRecoveryMs == None && result.ms == None
  }

  /** An outage from `b` to `r`: the downtime is the gap between the two attempts. */
  ghost predicate ReportsOutage(attempts: seq<Attempt>, b: nat, r: nat, result: ProbeResult)
    requires b < r < |attempts|
  {
    && result.unavailableMs == Some(attempts[b].elapsed)
    && result.downtimeMs == Some(attempts[r].elapsed - attempts[b].elapsed)
    && result.firstRecoveryMs == Some(attempts[r].elapsed) && result.ms == Some(attempts[r].elapsed)
  }

  /** What the probe reports about the attempts it made. */
  ghost predicate Reports(attempts: seq<Attempt>, result: ProbeResult) {
    && result.transitions == Transitions(attempts)
    && result.firstErrorKind == FirstErrorKind(attempts)
    && result.status == (if attempts == [] then None else attempts[|attempts| - 1].status)
    && (AllUp(attempts) ==> ReportsNoOutage(attempts, result))
    && (forall b: nat | FirstDown(attempts, b) ::
          && (StaysDown(attempts, b) ==> ReportsOpenOutage(attempts, b, result))
          && (forall r: nat | FirstUpAfter(attempts, b, r) :: ReportsOutage(attempts, b, r, result)))
  }

  /** The outage began at some attempt and ended with the last one. */
  ghost predicate HasRecovered(attempts: seq<Attempt>) {
    exists b: nat :: FirstDown(attempts, b) && FirstUpAfter(attempts, b, |attempts| - 1)
  }

  /** The probe makes no attempt after the first `made`: the deadline, the end of the process, a finished
      restart without an outage, or a recovery. */
  ghost predicate StopsAt(polls: seq<Poll>, made: nat)
    requires made <= |polls|
  {
    || made == |polls|
    || HasRecovered(Attempts(polls[..made]))
    || polls[made].processDone
    || (polls[made].done && made > 0 && AllUp(Attempts(polls[..made])))
  }

  /** Nothing stopped the probe before attempt number `made`. */
  ghost predicate RunsUntil(polls: seq<Poll>, made: nat)
    requires made <= |polls|
  {
    forall k :: 0 <= k < made ==> !StopsAt(polls, k)
  }

  lemma AttemptsSnoc(polls: seq<Poll>, i: nat)
    requires i < |polls|
    ensures Attempts(polls[..i + 1]) == Attempts(polls[..i]) + [polls[i].attempt]
  {
  }

  lemma TransitionsSnoc(attempts: seq<Attempt>, a: Attempt)
    ensures Transitions(attempts + [a]) == Transitions(attempts)
         + (if attempts == [] || Key(a) != Key(attempts[|attempts| - 1]) then [ToTransition(a)] else [])
  {
    assert (attempts + [a])[..|attempts|] == attempts;
    var more := if attempts == [] || Key(a) != Key(attempts[|attempts| - 1]) then [a] else [];
    assert Changes(attempts + [a]) == Changes(attempts) + more;
  }

  lemma FirstErrorKindSnoc(attempts: seq<Attempt>, a: Attempt)
    ensures FirstErrorKind(attempts + [a]) == if FirstErrorKind(attempts).Some? then FirstErrorKind(attempts)
                                             else if HasErrorKind(a) then a.errorKind else None
  {
    assert (attempts + [a])[..|attempts|] == attempts;
  }

  lemma FirstDownUnique(attempts: seq<Attempt>, b: nat, b': nat)
    requires FirstDown(attempts, b) && FirstDown(attempts, b')
    ensures b == b'
  {
  }

  /** An open outage: the probe is down since `b`. */
  ghost predicate DownSince(attempts: seq<Attempt>, b: nat) { FirstDown(attempts, b) && StaysDown(attempts, b) }

  lemma OpenOutageReport(attempts: seq<Attempt>, b: nat, result: ProbeResult)
    requires DownSince(attempts, b) && ReportsOpenOutage(attempts, b, result)
    requires result.transitions == Transitions(attempts) && result.firstErrorKind == FirstErrorKind(attempts)
    requires result.status == attempts[|attempts| - 1].status
    ensures Reports(attempts, result)
  {
    forall b': nat | FirstDown(attempts, b') ensures b' == b { FirstDownUnique(attempts, b, b'); }
  }

  lemma RecoveredReport(attempts: seq<Attempt>, b: nat, result: ProbeResult)
    requires FirstDown(attempts, b) && FirstUpAfter(attempts, b, |attempts| - 1)
    requires ReportsOutage(attempts, b, |attempts| - 1, result)
    requires result.transitions == Transitions(attempts) && result.firstErrorKind == FirstErrorKind(attempts)
    requires result.status == attempts[|attempts| - 1].status
    ensures Reports(attempts, result) && HasRecovered(attempts)
  {
    forall b': nat | FirstDown(attempts, b') ensures b' == b { FirstDownUnique(attempts, b, b'); }
    assert IsUp(attempts[|attempts| - 1]);
    forall r: nat | FirstUpAfter(attempts, b, r) ensures r == |attempts| - 1 { }
  }

  /** The variables of the loop. */
  datatype Progress = Progress(
    firstErrorKind: Option<string>,
    lastStatus: Option<nat>,
    lastStateKey: Option<(Option<nat>, string)>,
    lastSuccessMs: Option<real>,
    unavailableMs: Option<real>,
    transitions: seq<Transition>)

  /** The variables describe the attempts so far, of which the outage, if any, began at `down`. */
  ghost predicate Tracks(attempts: seq<Attempt>, down: nat, p: Progress) {
    && p.transitions == Transitions(attempts) && p.firstErrorKind == FirstErrorKind(attempts)
    && p.lastStateKey == (if attempts == [] then None else Some(Key(attempts[|attempts| - 1])))
    && p.lastStatus == (if attempts == [] then None else attempts[|attempts| - 1].status)
    && (if p.unavailableMs.None?
        then AllUp(attempts)
             && p.lastSuccessMs == (if attempts == [] then None else Some(attempts[|attempts| - 1].elapsed))
        else DownSince(attempts, down) && p.unavailableMs == Some(attempts[down].elapsed))
  }

  /** The variables after one attempt more. */
  function Observe(p: Progress, a: Attempt): Progress {
    Progress(if HasErrorKind(a) && p.firstErrorKind.None? then a.errorKind else p.firstErrorKind,
             a.status,
             Some(Key(a)),
             if IsUp(a) then Some(a.elapsed) else p.lastSuccessMs,
             if !IsUp(a) && p.unavailableMs.None? then Some(a.elapsed) else p.unavailableMs,
             if p.lastStateKey != Some(Key(a)) then p.transitions + [ToTransition(a)] else p.transitions)
  }

  /** The report without a recovery. */
  function ReportSoFar(p: Progress): ProbeResult {
    ProbeResult(None, p.firstErrorKind, None, if p.unavailableMs.None? then p.lastSuccessMs else None,
                p.lastStatus, p.transitions, p.unavailableMs)
  }

  /** The report when attempt `a` ends the outage. */
  function RecoveryReport(p: Progress, a: Attempt): ProbeResult
    requires p.unavailableMs.Some?
  {
    ProbeResult(Some(a.elapsed - p.unavailableMs.value), p.firstErrorKind, Some(a.elapsed), Some(a.elapsed),
                a.status, p.transitions, p.unavailableMs)
  }

  lemma OutageStep(attempts: seq<Attempt>, down: nat, a: Attempt)
    ensures AllUp(attempts) && IsUp(a) ==> AllUp(attempts + [a])
    ensures AllUp(attempts) && !IsUp(a) ==> DownSince(attempts + [a], |attempts|)
    ensures DownSince(attempts, down) && !IsUp(a) ==> DownSince(attempts + [a], down)
    ensures DownSince(attempts, down) && IsUp(a) ==>
              FirstDown(attempts + [a], down) && FirstUpAfter(attempts + [a], down, |attempts|)
  {
    var more := attempts + [a];
    assert forall k :: 0 <= k < |attempts| ==> more[k] == attempts[k];
  }

  lemma ObserveStep(attempts: seq<Attempt>, down: nat, p: Progress, a: Attempt)
    requires Tracks(attempts, down, p)
    ensures Observe(p, a).transitions == Transitions(attempts + [a])
    ensures Observe(p, a).firstErrorKind == FirstErrorKind(attempts + [a])
  {
    TransitionsSnoc(attempts, a);
    FirstErrorKindSnoc(attempts, a);
  }

  /** Unless the outage has just ended, the variables are brought up to date. */
  lemma TrackStep(attempts: seq<Attempt>, down: nat, p: Progress, a: Attempt)
    requires Tracks(attempts, down, p) && !(IsUp(a) && p.unavailableMs.Some?)
    ensures Tracks(attempts + [a], if p.unavailableMs.None? then |attempts| else down, Observe(p, a))
  {
    ObserveStep(attempts, down, p, a);
    OutageStep(attempts, down, a);
  }

  /** The first attempt that is up again completes the report. */
  lemma RecoveryStep(attempts: seq<Attempt>, down: nat, p: Progress, a: Attempt)
    requires Tracks(attempts, down, p) && IsUp(a) && p.unavailableMs.Some?
    ensures Reports(attempts + [a], RecoveryReport(Observe(p, a), a)) && HasRecovered(attempts + [a])
  {
    ObserveStep(attempts, down, p, a);
    OutageStep(attempts, down, a);
    var more := attempts + [a];
    assert more[|more| - 1] == a && more[down] == attempts[down];
    RecoveredReport(more, down, RecoveryReport(Observe(p, a), a));
  }

  /** Until then the variables make the report. */
  lemma TrackedReport(attempts: seq<Attempt>, down: nat, p: Progress)
    requires Tracks(attempts, down, p)
    ensures Reports(attempts, ReportSoFar(p))
    ensures p.unavailableMs.None? && p.lastSuccessMs.Some? ==> p.lastStatus == Some(200) && AllUp(attempts) && attempts != []
  {
    if p.unavailableMs.Some? {
      OpenOutageReport(attempts, down, ReportSoFar(p));
    } else {
      assert forall b: nat :: !FirstDown(attempts, b);
    }
  }

  /** While the variables are up to date there was no recovery. */
  lemma TrackingIsNotRecovered(attempts: seq<Attempt>, down: nat)
    requires AllUp(attempts) || DownSince(attempts, down)
    ensures !HasRecovered(attempts)
  {
    forall b: nat | FirstDown(attempts, b) ensures !FirstUpAfter(attempts, b, |attempts| - 1) { }
  }

  lemma NoReasonToStop(polls: seq<Poll>, made: nat, down: nat, p: Progress)
    requires made < |polls| && RunsUntil(polls, made) && Tracks(Attempts(polls[..made]), down, p)
    requires !polls[made].processDone && !(polls[made].done && p.unavailableMs.None? && p.lastSuccessMs.Some?)
    ensures RunsUntil(polls, made + 1)
  {
    TrackingIsNotRecovered(Attempts(polls[..made]), down);
    assert !StopsAt(polls, made);
  }

  /** The probe's report on the attempts it made, and where it stops: at the first reason to. */
  method WaitForRestartProbe(polls: seq<Poll>) returns (result: ProbeResult, made: nat)
    ensures made <= |polls| && StopsAt(polls, made) && RunsUntil(polls, made)
    ensures Reports(Attempts(polls[..made]), result)
  {
    var progress := Progress(None, None, None, None, None, []);
    ghost var down: nat := 0;
    made := 0;
    while made < |polls|
      invariant made <= |polls| && RunsUntil(polls, made)
      invariant Tracks(Attempts(polls[..made]), down, progress) == true  // kept whole
    {
      if polls[made].processDone {
        break;
      }
      if polls[made].done && progress.unavailableMs.None? && progress.lastSuccessMs.Some? {
        TrackedReport(Attempts(polls[..made]), down, progress);
        return ReportSoFar(progress).(status := Some(200)), made;
      }
      NoReasonToStop(polls, made, down, progress);
      AttemptsSnoc(polls, made);
      var attempt := polls[made].attempt;
      if IsUp(attempt) && progress.unavailableMs.Some? {
        RecoveryStep(Attempts(polls[..made]), down, progress, attempt);
        return RecoveryReport(Observe(progress, attempt), attempt), made + 1;
      }
      TrackStep(Attempts(polls[..made]), down, progress, attempt);
      if progress.unavailableMs.None? {
        down := made;
      }
      progress := Observe(progress, attempt);
      made := made + 1;
    }
    TrackedReport(Attempts(polls[..made]), down, progress);
    result := ReportSoFar(progress);
  }

  // ----- what the report means

  ghost predicate HasOpenOutage(attempts: seq<Attempt>) { exists b: nat :: DownSince(attempts, b) }

  /** The attempts of a probe are all up, end in an open outage, or end with its recovery. */
  lemma {:induction false} ProbeShape(polls: seq<Poll>, made: nat)
    requires made <= |polls| && RunsUntil(polls, made)
    ensures var attempts := Attempts(polls[..made]); AllUp(attempts) || HasOpenOutage(attempts) || HasRecovered(attempts)
    decreases made
  {
    if made > 0 {
      var before := Attempts(polls[..made - 1]);
      ProbeShape(polls, made - 1);
      assert !StopsAt(polls, made - 1);
      AttemptsSnoc(polls, made - 1);
      var a := polls[made - 1].attempt;
      if AllUp(before) {
        OutageStep(before, 0, a);
      } else {
        var b: nat :| DownSince(before, b);
        OutageStep(before, b, a);
      }
    }
  }

  /** The time is missing exactly when no attempt was made or an outage never ended. */
  lemma MissingTime(polls: seq<Poll>, made: nat, result: ProbeResult)
    requires made <= |polls| && RunsUntil(polls, made) && Reports(Attempts(polls[..made]), result)
    ensures result.ms == None <==> made == 0 || HasOpenOutage(Attempts(polls[..made]))
  {
    ProbeShape(polls, made);
    var attempts := Attempts(polls[..made]);
    if HasRecovered(attempts) {
      var b: nat :| FirstDown(attempts, b) && FirstUpAfter(attempts, b, |attempts| - 1);
      assert ReportsOutage(attempts, b, |attempts| - 1, result);
    }
  }

  /** With a clock that does not run backwards no reported downtime is negative. */
  lemma DowntimeIsNotNegative(attempts: seq<Attempt>, result: ProbeResult, b: nat)
    requires Reports(attempts, result) && FirstDown(attempts, b) && FirstUpAfter(attempts, b, |attempts| - 1)
    requires forall j, k :: 0 <= j < k < |attempts| ==> attempts[j].elapsed <= attempts[k].elapsed
    ensures result.downtimeMs.Some? && result.downtimeMs.value >= 0.0
  {
    assert ReportsOutage(attempts, b, |attempts| - 1, result);
  }

  /** The attempt is the first of a run of attempts with the same state. */
  predicate IsChange(attempts: seq<Attempt>, k: nat)
    requires k < |attempts|
  {
    k == 0 || Key(attempts[k]) != Key(attempts[k - 1])
  }

  /** The positions of the changes. */
  function ChangePositions(attempts: seq<Attempt>): seq<nat> {
    if attempts == [] then []
    else
      var n := |attempts| - 1;
      ChangePositions(attempts[..n]) + (if IsChange(attempts, n) then [n] else [])
  }

  lemma {:induction false} PositionsHold(attempts: seq<Attempt>, k: nat)
    ensures k in ChangePositions(attempts) <==> k < |attempts| && IsChange(attempts, k)
  {
    if attempts != [] {
      PositionsHold(attempts[..|attempts| - 1], k);
    }
  }

  lemma {:induction false} PositionsIncrease(attempts: seq<Attempt>, i: nat, j: nat)
    requires i < j < |ChangePositions(attempts)|
    ensures ChangePositions(attempts)[i] < ChangePositions(attempts)[j]
  {
    var init := attempts[..|attempts| - 1];
    var at := ChangePositions(init);
    if j < |at| {
      PositionsIncrease(init, i, j);
    } else {
      PositionsHold(init, at[i]);
    }
  }

  lemma {:induction false} ChangeAt(attempts: seq<Attempt>, i: nat)
    requires i < |Changes(attempts)|
    ensures i < |ChangePositions(attempts)| && ChangePositions(attempts)[i] < |attempts|
    ensures Changes(attempts)[i] == attempts[ChangePositions(attempts)[i]]
  {
    SameNumber(attempts);
    SameNumber(attempts[..|attempts| - 1]);
    if i < |Changes(attempts[..|attempts| - 1])| {
      ChangeAt(attempts[..|attempts| - 1], i);
    }
  }

  lemma {:induction false} SameNumber(attempts: seq<Attempt>)
    ensures |ChangePositions(attempts)| == |Changes(attempts)|
  {
    if attempts != [] {
      SameNumber(attempts[..|attempts| - 1]);
    }
  }

  /** The changes are the trace with adjacent repeats removed: in order, the attempts at exactly the positions where the state
      differs from the one before. */
  lemma ChangesDropRepeats(attempts: seq<Attempt>)
    ensures var at := ChangePositions(attempts);
            && |at| == |Changes(attempts)| && (forall i :: 0 <= i < |at| ==> at[i] < |attempts| && Changes(attempts)[i] == attempts[at[i]])
            && (forall i, j :: 0 <= i < j < |at| ==> at[i] < at[j])
            && (forall k: nat :: k in at <==> k < |attempts| && IsChange(attempts, k))
  {
    var at := ChangePositions(attempts);
    SameNumber(attempts);
    forall i | 0 <= i < |at| ensures at[i] < |attempts| && Changes(attempts)[i] == attempts[at[i]] {
      ChangeAt(attempts, i);
    }
    forall i, j | 0 <= i < j < |at| ensures at[i] < at[j] {
      PositionsIncrease(attempts, i, j);
    }
    forall k: nat ensures k in at <==> k < |attempts| && IsChange(attempts, k) {
      PositionsHold(attempts, k);
    }
  }

  /** The two attempts are in the same state: the same status, and the same kind of error or lack of it. */
  predicate SameState(a: Attempt, b: Attempt) {
    a.status == b.status
    && (if a.errorKind.Some? then a.errorKind.value else "ok") == (if b.errorKind.Some? then b.errorKind.value else "ok")
  }

  /** The reported transitions: for every attempt whose state differs from the one before, in order, its time, its status and
      the kind of its error. */
  lemma TransitionsAreReported(attempts: seq<Attempt>)
    ensures var at, transitions := ChangePositions(attempts), Transitions(attempts);
            && |transitions| == |at| && (forall i, j :: 0 <= i < j < |at| ==> at[i] < at[j])
            && (forall k: nat :: k in at <==> k < |attempts| && (k == 0 || !SameState(attempts[k - 1], attempts[k])))
            && (forall i :: 0 <= i < |at| ==>
                  && at[i] < |attempts|
                  && transitions[i].ms == attempts[at[i]].elapsed && transitions[i].status == attempts[at[i]].status
                  && transitions[i].errorKind == if attempts[at[i]].errorKind == Some("") then None else attempts[at[i]].errorKind)
  {
    ChangesDropRepeats(attempts);
    var at := ChangePositions(attempts);
    forall k: nat ensures k in at <==> k < |attempts| && (k == 0 || !SameState(attempts[k - 1], attempts[k])) {
      PositionsHold(attempts, k);
    }
    forall i | 0 <= i < |at| ensures at[i] < |attempts| && Transitions(attempts)[i] == ToTransition(attempts[at[i]]) { }
  }

  /** The reported kind of error is that of the first attempt that has one. */
  lemma {:induction false} FirstErrorKindIsFirst(attempts: seq<Attempt>)
    ensures FirstErrorKind(attempts).None? <==>
              forall k :: 0 <= k < |attempts| ==> attempts[k].errorKind == None || attempts[k].errorKind == Some("")
    ensures FirstErrorKind(attempts).Some? ==>
              exists k :: 0 <= k < |attempts| && attempts[k].errorKind == FirstErrorKind(attempts) && attempts[k].errorKind != Some("")
                          && forall j :: 0 <= j < k ==> attempts[j].errorKind == None || attempts[j].errorKind == Some("")
  {
    if attempts != [] {
      var n := |attempts| - 1;
      FirstErrorKindIsFirst(attempts[..n]);
      if FirstErrorKind(attempts[..n]).Some? {
        var k :| 0 <= k < n && attempts[..n][k].errorKind == FirstErrorKind(attempts[..n]) && attempts[..n][k].errorKind != Some("")
                 && forall j :: 0 <= j < k ==> attempts[..n][j].errorKind == None || attempts[..n][j].errorKind == Some("");
        assert attempts[..n][k] == attempts[k] && forall j :: 0 <= j < k ==> attempts[..n][j] == attempts[j];
      }
    }
  }

  /** So neighbouring changes differ, and the last one has the state of the last attempt. */
  lemma {:induction false} ChangesAlternate(attempts: seq<Attempt>)
    ensures attempts != [] ==> (Changes(attempts) != []
              && Key(Changes(attempts)[|Changes(attempts)| - 1]) == Key(attempts[|attempts| - 1]))
    ensures forall k :: 0 <= k < |Changes(attempts)| - 1 ==> Key(Changes(attempts)[k]) != Key(Changes(attempts)[k + 1])
  {
    if attempts != [] {
      ChangesAlternate(attempts[..|attempts| - 1]);
    }
  }
}
