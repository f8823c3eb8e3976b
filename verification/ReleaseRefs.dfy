/**
  Recording an uploaded build as a Git ref: read the remote, push with a lease that demands
  the ref be absent, read back.  Any number of recorders interleave on one remote, at the
  granularity of single Git commands.
 */
module ReleaseRefs {
  import opened Options

  type Ref = string
  type Sha = string

  datatype Status = Created | AlreadyRecorded

  datatype Reason =
    | InspectFailed      // the remote could not be read
    | PointsElsewhere    // preflight found another commit
    | PushFailed
    | NotRecorded        // the read-back contradicts the push

  datatype Pc =
    | Starting
    | Available          // preflight saw no ref
    | Pushed             // the push reported success
    | Succeeded(status: Status)
    | Failed(reason: Reason)

  datatype Recorder = Recorder(ref: Ref, sha: Sha, pc: Pc)

  datatype State = State(remote: map<Ref, Sha>, recorders: seq<Recorder>)

  /** What the environment decides about a push: whether an absent ref is created, and what is reported. */
  datatype PushAnswer = PushAnswer(applied: bool, reportedOk: bool)

  datatype Action =
    | Join(ref: Ref, sha: Sha)
    | Preflight(who: nat, readable: bool)
    | Push(who: nat, answer: PushAnswer)
    | ReadBack(who: nat, readable: bool)
    | Recover(ref: Ref, sha: Sha, answer: PushAnswer) // the printed recovery command, run by hand

  function ReadRef(remote: map<Ref, Sha>, ref: Ref): Option<Sha> {
    if ref in remote then Some(remote[ref]) else None
  }

  /** `--force-with-lease=<ref>:` lets a push through only while the ref does not exist.  What is reported may be wrong:
      the command may fail after the push, or push to another place than is read. */
  predicate LeaseAllows(remote: map<Ref, Sha>, ref: Ref, answer: PushAnswer) {
    ref in remote ==> !answer.applied
  }

  /** A report of success leaves the ref at the pushed commit. */
  predicate IsTruthful(remote: map<Ref, Sha>, ref: Ref, sha: Sha, answer: PushAnswer) {
    answer.reportedOk ==> ReadRef(PushRef(remote, ref, sha, answer), ref) == Some(sha)
  }

  function PushRef(remote: map<Ref, Sha>, ref: Ref, sha: Sha, answer: PushAnswer): map<Ref, Sha> {
    if answer.applied then remote[ref := sha] else remote
  }

  function PreflightPc(remote: map<Ref, Sha>, ref: Ref, sha: Sha, readable: bool): Pc {
    if !readable then Failed(InspectFailed)
    else match ReadRef(remote, ref)
      case None => Available
      case Some(existing) => if existing == sha then Succeeded(AlreadyRecorded) else Failed(PointsElsewhere)
  }

  function PushPc(answer: PushAnswer): Pc {
    if answer.reportedOk then Pushed else Failed(PushFailed)
  }

  function ReadBackPc(remote: map<Ref, Sha>, ref: Ref, sha: Sha, readable: bool): Pc {
    if !readable then Failed(InspectFailed)
    else if ReadRef(remote, ref) == Some(sha) then Succeeded(Created)
    else Failed(NotRecorded)
  }

  predicate Enabled(s: State, a: Action) {
    match a
    case Join(_, _) => true
    case Preflight(i, _) => i < |s.recorders| && s.recorders[i].pc == Starting
    case Push(i, answer) =>
      i < |s.recorders| && s.recorders[i].pc == Available
      && LeaseAllows(s.remote, s.recorders[i].ref, answer)
    case ReadBack(i, _) => i < |s.recorders| && s.recorders[i].pc == Pushed
    case Recover(ref, _, answer) => LeaseAllows(s.remote, ref, answer)
  }

  function Step(s: State, a: Action): State
    requires Enabled(s, a)
  {
    match a
    case Join(ref, sha) => s.(recorders := s.recorders + [Recorder(ref, sha, Starting)])
    case Preflight(i, readable) =>
      var r := s.recorders[i];
      s.(recorders := s.recorders[i := r.(pc := PreflightPc(s.remote, r.ref, r.sha, readable))])
    case Push(i, answer) =>
      var r := s.recorders[i];
      State(PushRef(s.remote, r.ref, r.sha, answer), s.recorders[i := r.(pc := PushPc(answer))])
    case ReadBack(i, readable) =>
      var r := s.recorders[i];
      s.(recorders := s.recorders[i := r.(pc := ReadBackPc(s.remote, r.ref, r.sha, readable))])
    case Recover(ref, sha, answer) => s.(remote := PushRef(s.remote, ref, sha, answer))
  }

  /** Any interleaving, from any remote and before anyone has joined. */
  ghost predicate Execution(ss: seq<State>, actions: seq<Action>) {
    && |ss| == |actions| + 1
    && ss[0].recorders == []
    && forall k :: 0 <= k < |actions| ==> Enabled(ss[k], actions[k]) && ss[k + 1] == Step(ss[k], actions[k])
  }

  /** The result of the `resolve` command in a state. */
  function Resolve(s: State, ref: Ref): Option<Sha> { ReadRef(s.remote, ref) }

  // ----- invariants

  predicate Holds(remote: map<Ref, Sha>, r: Recorder) {
    && (r.pc.Succeeded? ==> ReadRef(remote, r.ref) == Some(r.sha))
    && (r.pc == Failed(PointsElsewhere) ==> r.ref in remote && remote[r.ref] != r.sha)
  }

  ghost predicate Inv(s: State) {
    forall i :: 0 <= i < |s.recorders| ==> Holds(s.remote, s.recorders[i])
  }

  lemma StepKeepsInv(s: State, a: Action)
    requires Inv(s) && Enabled(s, a)
    ensures Inv(Step(s, a))
  {
    var s' := Step(s, a);
    forall i | 0 <= i < |s'.recorders| ensures Holds(s'.remote, s'.recorders[i]) {
      if i < |s.recorders| {
        assert Holds(s.remote, s.recorders[i]);
      }
    }
  }

  lemma {:induction false} ExecutionKeepsInv(ss: seq<State>, actions: seq<Action>, k: nat)
    requires Execution(ss, actions) && k < |ss|
    ensures Inv(ss[k])
  {
    if k > 0 {
      ExecutionKeepsInv(ss, actions, k - 1);
      StepKeepsInv(ss[k - 1], actions[k - 1]);
    }
  }

  // ----- theorems over every interleaving

  /** A release ref never changes once set. */
  lemma {:induction false} RefNeverChanges(ss: seq<State>, actions: seq<Action>, j: nat, k: nat, ref: Ref)
    requires Execution(ss, actions) && j <= k < |ss| && ref in ss[j].remote
    ensures ref in ss[k].remote && ss[k].remote[ref] == ss[j].remote[ref]
    decreases k - j
  {
    if j < k {
      RefNeverChanges(ss, actions, j + 1, k, ref);
    }
  }

  /** What a successful recorder reported is what every later resolve returns. */
  lemma SuccessIsResolvedForever(ss: seq<State>, actions: seq<Action>, j: nat, k: nat, i: nat)
    requires Execution(ss, actions) && j <= k < |ss|
    requires i < |ss[j].recorders| && ss[j].recorders[i].pc.Succeeded?
    ensures Resolve(ss[k], ss[j].recorders[i].ref) == Some(ss[j].recorders[i].sha)
  {
    ExecutionKeepsInv(ss, actions, j);
    assert Holds(ss[j].remote, ss[j].recorders[i]);
    RefNeverChanges(ss, actions, j, k, ss[j].recorders[i].ref);
  }

  /** All recorders that ever succeed on one ref report the same commit. */
  lemma SuccessfulRecordersAgree(ss: seq<State>, actions: seq<Action>, j: nat, a: nat, k: nat, b: nat)
    requires Execution(ss, actions) && j <= k < |ss|
    requires a < |ss[j].recorders| && ss[j].recorders[a].pc.Succeeded?
    requires b < |ss[k].recorders| && ss[k].recorders[b].pc.Succeeded?
    requires ss[j].recorders[a].ref == ss[k].recorders[b].ref
    ensures ss[j].recorders[a].sha == ss[k].recorders[b].sha
  {
    SuccessIsResolvedForever(ss, actions, j, k, a);
    SuccessIsResolvedForever(ss, actions, k, k, b);
  }

  /** A refusal at preflight is final: the ref holds another commit, now and in every later state, so no recorder that
      brings the refused commit ever succeeds on it. */
  lemma RefusalIsFinal(ss: seq<State>, actions: seq<Action>, j: nat, i: nat, k: nat, b: nat)
    requires Execution(ss, actions) && j <= k < |ss| && i < |ss[j].recorders| && b < |ss[k].recorders|
    requires ss[j].recorders[i].pc == Failed(PointsElsewhere)
    requires ss[k].recorders[b].ref == ss[j].recorders[i].ref && ss[k].recorders[b].sha == ss[j].recorders[i].sha
    ensures Resolve(ss[k], ss[j].recorders[i].ref).Some?
    ensures Resolve(ss[k], ss[j].recorders[i].ref) != Some(ss[j].recorders[i].sha)
    ensures !ss[k].recorders[b].pc.Succeeded?
  {
    ExecutionKeepsInv(ss, actions, j);
    assert Holds(ss[j].remote, ss[j].recorders[i]);
    RefNeverChanges(ss, actions, j, k, ss[j].recorders[i].ref);
    ExecutionKeepsInv(ss, actions, k);
    assert Holds(ss[k].remote, ss[k].recorders[b]);
  }

  lemma {:induction false} RecorderStays(ss: seq<State>, actions: seq<Action>, j: nat, k: nat, i: nat)
    requires Execution(ss, actions) && j <= k < |ss| && i < |ss[j].recorders|
    ensures i < |ss[k].recorders|
    ensures ss[k].recorders[i].ref == ss[j].recorders[i].ref && ss[k].recorders[i].sha == ss[j].recorders[i].sha
    decreases k - j
  {
    if j < k {
      assert i < |ss[j + 1].recorders| && ss[j + 1].recorders[i].ref == ss[j].recorders[i].ref
             && ss[j + 1].recorders[i].sha == ss[j].recorders[i].sha;
      RecorderStays(ss, actions, j + 1, k, i);
    }
  }

  /** The push whose report a recorder goes by. */
  lemma {:induction false} PushOf(ss: seq<State>, actions: seq<Action>, k: nat, i: nat) returns (j: nat)
    requires Execution(ss, actions) && k < |ss| && i < |ss[k].recorders| && ss[k].recorders[i].pc.Pushed?
    ensures j < k && actions[j].Push? && actions[j].who == i && actions[j].answer.reportedOk
  {
    if actions[k - 1].Push? && actions[k - 1].who == i {
      j := k - 1;
    } else {
      assert i < |ss[k - 1].recorders| && ss[k - 1].recorders[i] == ss[k].recorders[i];
      j := PushOf(ss, actions, k - 1, i);
    }
  }

  /** The read-back that contradicted it. */
  lemma {:induction false} ReadBackOf(ss: seq<State>, actions: seq<Action>, k: nat, i: nat) returns (m: nat)
    requires Execution(ss, actions) && k < |ss| && i < |ss[k].recorders| && ss[k].recorders[i].pc == Failed(NotRecorded)
    ensures m < k && i < |ss[m].recorders| && ss[m].recorders[i].pc.Pushed?
    ensures ReadRef(ss[m].remote, ss[m].recorders[i].ref) != Some(ss[m].recorders[i].sha)
  {
    if actions[k - 1].ReadBack? && actions[k - 1].who == i {
      m := k - 1;
    } else {
      assert i < |ss[k - 1].recorders| && ss[k - 1].recorders[i].pc == Failed(NotRecorded);
      m := ReadBackOf(ss, actions, k - 1, i);
    }
  }

  /** The read-back fails a recorder only for an untruthful push report: with truthful reports it never does. */
  lemma ReadBackCatchesFalseReports(ss: seq<State>, actions: seq<Action>, k: nat, i: nat) returns (j: nat)
    requires Execution(ss, actions) && k < |ss| && i < |ss[k].recorders| && ss[k].recorders[i].pc == Failed(NotRecorded)
    ensures j < k && actions[j].Push? && actions[j].who == i && i < |ss[j].recorders|
    ensures !IsTruthful(ss[j].remote, ss[j].recorders[i].ref, ss[j].recorders[i].sha, actions[j].answer)
  {
    var m := ReadBackOf(ss, actions, k, i);
    j := PushOf(ss, actions, m, i);
    var r := ss[j].recorders[i];
    RecorderStays(ss, actions, j, m, i);
    if IsTruthful(ss[j].remote, r.ref, r.sha, actions[j].answer) {
      assert ReadRef(ss[j + 1].remote, r.ref) == Some(r.sha);
      RefNeverChanges(ss, actions, j + 1, m, r.ref);
      assert false;
    }
  }

  /** A push that was applied but reported as failed is healed by recording again: once a ref is set, a
      fresh recorder that can read it succeeds exactly when it brings the recorded commit. */
  lemma RecordingAgainHeals(ss: seq<State>, actions: seq<Action>, j: nat, k: nat, i: nat)
    requires Execution(ss, actions) && j <= k < |actions| && actions[k] == Preflight(i, true)
    requires ss[k].recorders[i].ref in ss[j].remote
    ensures var r, r' := ss[k].recorders[i], ss[k + 1].recorders[i];
            r'.pc == if ss[j].remote[r.ref] == r.sha then Succeeded(AlreadyRecorded) else Failed(PointsElsewhere)
  {
    RefNeverChanges(ss, actions, j, k, ss[k].recorders[i].ref);
  }

  /** A readable preflight of an absent ref goes on to push, whatever other refs the remote holds. */
  lemma AbsentRefIsAvailable(ss: seq<State>, actions: seq<Action>, k: nat, i: nat)
    requires Execution(ss, actions) && k < |actions| && actions[k] == Preflight(i, true)
    ensures ss[k + 1].recorders[i].pc == Available <==> Resolve(ss[k], ss[k].recorders[i].ref).None?
  {
  }

  /** A truthfully reported push followed by a readable read-back succeeds, whatever the other recorders do in between. */
  lemma TruthfulPushSucceeds(ss: seq<State>, actions: seq<Action>, j: nat, k: nat, i: nat)
    requires Execution(ss, actions) && j < k < |actions|
    requires actions[j].Push? && actions[j].who == i && actions[k] == ReadBack(i, true)
    requires IsTruthful(ss[j].remote, ss[j].recorders[i].ref, ss[j].recorders[i].sha, actions[j].answer)
    requires actions[j].answer.reportedOk
    ensures ss[k + 1].recorders[i].pc == Succeeded(Created)
  {
    var r := ss[j].recorders[i];
    RecorderStays(ss, actions, j, k, i);
    assert ReadRef(ss[j + 1].remote, r.ref) == Some(r.sha);
    RefNeverChanges(ss, actions, j + 1, k, r.ref);
  }

  /** The action accounts for a recorder's failure. */
  predicate Fails(i: nat, remote: map<Ref, Sha>, r: Recorder, a: Action, reason: Reason) {
    match reason
    case InspectFailed => a == Preflight(i, false) || a == ReadBack(i, false)
    case PointsElsewhere => a == Preflight(i, true) && r.ref in remote && remote[r.ref] != r.sha
    case PushFailed => a.Push? && a.who == i && !a.answer.reportedOk
    case NotRecorded => a == ReadBack(i, true) && (r.ref in remote ==> remote[r.ref] != r.sha)
  }

  /** A recorder fails only for a read that did not work, a ref that holds another commit, a push that was reported as failed,
      or a read-back that contradicts it: the action that failed it is in the history. */
  lemma {:induction false} FailureIsExplained(ss: seq<State>, actions: seq<Action>, k: nat, i: nat) returns (j: nat)
    requires Execution(ss, actions) && k < |ss| && i < |ss[k].recorders| && ss[k].recorders[i].pc.Failed?
    ensures j < k && i < |ss[j].recorders|
    ensures Fails(i, ss[j].remote, ss[j].recorders[i], actions[j], ss[k].recorders[i].pc.reason)
  {
    var a := actions[k - 1];
    if i < |ss[k - 1].recorders| && ss[k - 1].recorders[i].pc == ss[k].recorders[i].pc {
      j := FailureIsExplained(ss, actions, k - 1, i);
    } else {
      j := k - 1;
    }
  }

  // ----- the commands as they run

  class GitRemote {
    var refs: map<Ref, Sha>

    method LsRemote(ref: Ref) returns (sha: Option<Sha>)
      ensures sha == ReadRef(refs, ref)
    {
      sha := if ref in refs then Some(refs[ref]) else None;
    }

    method PushWithLease(ref: Ref, sha: Sha, answer: PushAnswer)
      requires LeaseAllows(refs, ref, answer)
      modifies this
      ensures refs == PushRef(old(refs), ref, sha, answer)
    {
      if answer.applied {
        refs := refs[ref := sha];
      }
    }
  }

  method PreflightMobileReleaseRef(remote: GitRemote, ref: Ref, sha: Sha, readable: bool) returns (pc: Pc)
    ensures pc == PreflightPc(remote.refs, ref, sha, readable)
  {
    if !readable {
      return Failed(InspectFailed);
    }
    var existing := remote.LsRemote(ref);
    if existing.None? {
      return Available;
    }
    if existing.value == sha {
      return Succeeded(AlreadyRecorded);
    }
    return Failed(PointsElsewhere);
  }

  /** An undisturbed recording takes the recorder's steps one after the other: what it leaves behind is the
      state machine's state after them. */
  method RecordMobileReleaseRef(remote: GitRemote, ref: Ref, sha: Sha, readable: bool, answer: PushAnswer, readableAgain: bool)
    returns (pc: Pc)
    modifies remote
    ensures var before := State(old(remote.refs), [Recorder(ref, sha, Starting)]);
            var preflighted := Step(before, Preflight(0, readable));
            if preflighted.recorders[0].pc != Available then State(remote.refs, [Recorder(ref, sha, pc)]) == preflighted
            else
              var pushed := Step(preflighted, Push(0, answer));
              if pushed.recorders[0].pc != Pushed then State(remote.refs, [Recorder(ref, sha, pc)]) == pushed
              else State(remote.refs, [Recorder(ref, sha, pc)]) == Step(pushed, ReadBack(0, readableAgain))
    ensures pc.Succeeded? ==> ReadRef(remote.refs, ref) == Some(sha)
    // an absent ref is created, and no other touched, exactly if both reads work and the push is applied and reported
    ensures ref !in old(remote.refs) ==>
              (pc == Succeeded(Created) && remote.refs == old(remote.refs)[ref := sha]
               <==> readable && answer.applied && answer.reportedOk && readableAgain)
    ensures ref !in old(remote.refs) && pc != Succeeded(Created) ==>
              pc == Failed(if !readable then InspectFailed
                           else if !answer.reportedOk then PushFailed
                           else if !readableAgain then InspectFailed
                           else NotRecorded)
    ensures remote.refs != old(remote.refs) ==>
              readable && answer.applied && ref !in old(remote.refs) && remote.refs == old(remote.refs)[ref := sha]
    // a ref that exists is left alone
    ensures ref in old(remote.refs) && readable ==>
              pc == if old(remote.refs)[ref] == sha then Succeeded(AlreadyRecorded) else Failed(PointsElsewhere)
  {
    pc := PreflightMobileReleaseRef(remote, ref, sha, readable);
    if pc != Available {
      return;
    }
    remote.PushWithLease(ref, sha, answer);
    if !answer.reportedOk {
      return Failed(PushFailed);
    }
    if !readableAgain {
      return Failed(InspectFailed);
    }
    var recorded := remote.LsRemote(ref);
    if recorded != Some(sha) {
      return Failed(NotRecorded);
    }
    return Succeeded(Created);
  }
}
