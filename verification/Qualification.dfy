/**
 The seven-lane release qualification (qualify-phase6.py): the lane loop, its exception handlers
 and the evidence files, with an exception or interrupt possible at every step.

 What the world does is a `Plan`: for every step of the run whether it raises, and for a step that
 changes the evidence directory on which side of the change. The directory is private to the run.
 Each file is a value, replaced atomically; the hash of `attempt.json` is a parameter. A ghost
 history keeps every state the directory passes through, with what the lane runner had done by then.
 */
module Qualification {
  import opened Wrappers

  datatype Lane =
    | Phase5AtspiLive
    | ProductionLifecycle
    | Phase4LiveFixtures
    | Phase4EventFlood
    | Novnc
    | DesktopAppMatrix
    | PublicQuickstarts

  /** The frozen lane table. */
  const LANES: seq<Lane> := [
    Phase5AtspiLive, ProductionLifecycle, Phase4LiveFixtures, Phase4EventFlood, Novnc, DesktopAppMatrix,
    PublicQuickstarts]

  /** Lanes run under the heavy-build lock taken here; the others take it themselves. */
  predicate LocksOutside(lane: Lane) {
    lane in {Phase5AtspiLive, Phase4LiveFixtures, Novnc, DesktopAppMatrix}
  }

  lemma OthersLockThemselves(lane: Lane)
    ensures !LocksOutside(lane) <==> lane in {ProductionLifecycle, Phase4EventFlood, PublicQuickstarts}
  {
  }

  datatype Exit = Code(code: int) | RunnerError | Interrupted | EvidenceError | FinalEvidenceError

  datatype Verdict = Passed | Rejected

  datatype Record = Record(name: Lane, verdict: Verdict, exit: Exit, log: Option<string>)

  datatype Status = Running | Refused | LanesPassed

  /** `attempt.json`; the image and source identities it also holds never change. */
  datatype Attempt = Attempt(status: Status, failedLane: Option<Lane>, exit: Option<Exit>, lanes: seq<Record>)

  /** `qualification.json`: the summary of the quick-start lane and the hash of the attempt. */
  datatype Certificate = Certificate(summary: string, attemptHash: string)

  datatype Raised = QualificationError | OtherError | Interrupt | MissingKey
  {
    /** Whether `except Exception` sees it. */
    predicate Ordinary() {
      !Interrupt?
    }
  }

  /** A step that changes the directory: it may raise before or after it has taken effect. */
  datatype Step = Fine | Before(error: Raised) | After(error: Raised)

  /** What the world does while a failure is recorded: the log of the failed lane, and two signals. */
  datatype Recording = Recording(signalLog: bool, log: Option<string>, signalRejecting: bool, write: Step)
  {
    predicate Undisturbed() {
      !signalLog && !signalRejecting && write.Fine?
    }
  }

  /** How an error is recorded: an interrupt as such, anything else by where it happened. */
  function ExitFor(error: Raised, ordinary: Exit): Exit {
    if error == Interrupt then Interrupted else ordinary
  }

  /** What the world does with one lane; a signal may also come outside the guarded blocks. */
  datatype LanePlan = LanePlan(
    signalEntering: bool, lock: Option<Raised>, runner: Result<int, Raised>, unlock: Option<Raised>,
    signalBetween: bool, hashing: Result<Option<string>, Raised>, signalRecorded: bool,
    summary: Result<string, Raised>, probe: Result<bool, Raised>, save: Step, recording: Recording)
  {
    function Log(): Option<string> {
      if hashing.Success? then hashing.value else None
    }

    /** What taking the lock, the runner or releasing the lock raised. */
    function RunnerRaised(lane: Lane): Option<Raised> {
      if LocksOutside(lane) && lock.Some? then lock
      else if LocksOutside(lane) && unlock.Some? then unlock
      else if runner.Failure? then Some(runner.error)
      else None
    }

    /** What was raised in admitting a lane that exited with 0 and left a log. */
    function AdmittingRaised(lane: Lane): Option<Raised> {
      if lane == PublicQuickstarts && summary.Failure? then Some(summary.error)
      else if probe.Failure? then Some(probe.error)
      else if !probe.value then Some(QualificationError)
      else if !save.Fine? then Some(save.error)
      else None
    }

    /**
     The record with which a failed lane is rejected: by its exit where it had one and nothing was
     raised, and otherwise by what was raised. There is none for a signal between the guarded blocks.
     */
    function Reported(lane: Lane): Option<Record> {
      if signalEntering then None
      else if RunnerRaised(lane).Some? then
        Some(Record(lane, Rejected, ExitFor(RunnerRaised(lane).value, RunnerError), recording.log))
      else if signalBetween || runner.Failure? then None
      else if hashing.Failure? then Some(Record(lane, Rejected, ExitFor(hashing.error, EvidenceError), recording.log))
      else if signalRecorded then
        Some(Record(lane, Rejected, Interrupted, if Log().Some? then Log() else recording.log))
      else if runner.value != 0 || Log().None? then
        Some(Record(lane, if runner.value == 0 then Passed else Rejected, Code(runner.value), Log()))
      else if AdmittingRaised(lane).Some? then
        Some(Record(lane, Rejected, ExitFor(AdmittingRaised(lane).value, EvidenceError), Log()))
      else None
    }

    /** Nothing is raised, the lane exits with 0 and a log, and the source is unchanged. */
    predicate Good(lane: Lane) {
      && !signalEntering && !signalBetween && !signalRecorded
      && (LocksOutside(lane) ==> lock.None? && unlock.None?)
      && runner == Success(0)
      && hashing.Success? && hashing.value.Some?
      && (lane == PublicQuickstarts ==> summary.Success?)
      && probe == Success(true)
      && save.Fine?
    }
  }

  /** What the world does at the end, with the removal in the handler and the session lock's release. */
  datatype Ending = Ending(
    signalEntering: bool, save: Step, syncSaved: Option<Raised>, link: Step,
    syncLinked: Option<Raised>, signalCleared: bool, signalLeaving: bool, remove: Step, recording: Recording,
    release: Option<Raised>)
  {
    /** Everything up to the second directory sync went well. */
    predicate Synced() {
      save.Fine? && syncSaved.None? && link.Fine? && syncLinked.None?
    }

    /** What was raised in the guarded end. */
    function EndRaised(): Option<Raised> {
      if !save.Fine? then Some(save.error)
      else if syncSaved.Some? then syncSaved
      else if !link.Fine? then Some(link.error)
      else if syncLinked.Some? then syncLinked
      else if signalCleared || signalLeaving then Some(Interrupt)
      else None
    }

    /** The failure of the guarded end is recorded, unless the signal came while the dictionary was cleared. */
    predicate Records() {
      && !signalEntering && EndRaised().Some? && !(Synced() && signalCleared)
      && remove.Fine? && recording.Undisturbed()
    }

    /** The guarded end is left by its `return`. */
    predicate GuardHolds() {
      && !signalEntering && save.Fine? && syncSaved.None? && link.Fine? && syncLinked.None?
      && !signalCleared && !signalLeaving
    }

    /** The certificate was put in place. */
    predicate Linked() {
      !signalEntering && save.Fine? && syncSaved.None? && !link.Before?
    }
  }

  datatype Plan = Plan(first: Step, lanes: seq<LanePlan>, ending: Ending)
  {
    predicate LanesPass() {
      && first.Fine? && |lanes| == |LANES|
      && forall i :: 0 <= i < |LANES| ==> lanes[i].Good(LANES[i])
    }

    /** All lanes before this one are good, and this one is not. */
    predicate FailsAt(i: nat) {
      && first.Fine? && |lanes| == |LANES| && i < |LANES|
      && (forall k :: 0 <= k < i ==> lanes[k].Good(LANES[k])) && !lanes[i].Good(LANES[i])
    }

    predicate Succeeds() {
      LanesPass() && ending.GuardHolds() && ending.release.None?
    }

    /** The certificate is there when the run is over. */
    predicate KeepsCertificate() {
      LanesPass() && ending.Linked() && (ending.GuardHolds() || ending.remove.Before?)
    }
  }

  /** One call of the lane runner, and what was found out about it afterwards. */
  datatype Call = Call(lane: Lane, exit: Option<int>, log: Option<string>, sourceMatched: bool)
  {
    predicate Good() {
      exit == Some(0) && log.Some? && sourceMatched
    }
  }

  datatype Snapshot = Snapshot(attempt: Option<Attempt>, certificate: Option<Certificate>, calls: seq<Call>)

  // ------------------------------------------------------------ what the evidence says

  /** The records of the first lanes, all passed. */
  function PassedLanes(lanes: seq<LanePlan>, i: nat): seq<Record>
    requires i <= |lanes| && i <= |LANES|
  {
    seq(i, k requires 0 <= k < i => Record(LANES[k], Passed, Code(0), lanes[k].Log()))
  }

  lemma OneMorePassed(lanes: seq<LanePlan>, i: nat)
    requires i < |lanes| && i < |LANES|
    ensures |PassedLanes(lanes, i)| == i
    ensures PassedLanes(lanes, i + 1) == PassedLanes(lanes, i) + [Record(LANES[i], Passed, Code(0), lanes[i].Log())]
    ensures PassedLanes(lanes, i + 1)[..i] == PassedLanes(lanes, i)
  {
  }

  /** `attempt.json` rejects the attempt for its last lane, recorded so, behind these. */
  predicate RejectedFor(file: Option<Attempt>, before: seq<Record>, record: Record) {
    file == Some(Attempt(Refused, Some(record.name), Some(record.exit), before + [record]))
  }

  // ------------------------------------------------------------ what the evidence may say

  predicate Passing(r: Record) {
    r.verdict == Passed && r.exit == Code(0) && r.log.Some?
  }

  /** A lane reads as passed exactly when it exited with 0. */
  predicate Consistent(r: Record) {
    r.verdict == Passed <==> r.exit == Code(0)
  }

  /** The lane runner was called once per lane, in table order, and only past good lanes. */
  predicate CallsInOrder(calls: seq<Call>) {
    && |calls| <= |LANES|
    && (forall i :: 0 <= i < |calls| ==> calls[i].lane == LANES[i])
    && (forall i :: 0 <= i < |calls| - 1 ==> calls[i].Good())
  }

  /** Lane `i` is attested: recorded as passing, with the log of a good call. */
  predicate Attested(a: Attempt, calls: seq<Call>, i: nat)
    requires i < |a.lanes|
  {
    Passing(a.lanes[i]) && i < |calls| && calls[i].Good() && calls[i].log == a.lanes[i].log
  }

  /**
   The recorded lanes are a prefix of the table, all attested but possibly the last, and that one
   too unless the attempt was rejected, in which case it is the failed lane and not passing.
   */
  predicate Faithful(a: Attempt, calls: seq<Call>) {
    && |a.lanes| <= |LANES|
    && (forall i :: 0 <= i < |a.lanes| ==> a.lanes[i].name == LANES[i])
    && (forall i :: 0 <= i < |a.lanes| - 1 ==> Attested(a, calls, i))
    && (a.status != Refused ==> forall i :: 0 <= i < |a.lanes| ==> Attested(a, calls, i))
    && (a.status == Refused ==>
          && a.lanes != [] && a.failedLane == Some(a.lanes[|a.lanes| - 1].name)
          && Consistent(a.lanes[|a.lanes| - 1]) && !Passing(a.lanes[|a.lanes| - 1]))
    && (a.status == LanesPassed ==> |a.lanes| == |LANES|)
  }

  /** The directory tells the truth: a certificate stands only beside the attempt it certifies. */
  predicate Honest(hash: Attempt -> string, s: Snapshot) {
    && CallsInOrder(s.calls)
    && (s.attempt.Some? ==> Faithful(s.attempt.value, s.calls))
    && (s.certificate.Some? ==>
          && s.attempt.Some? && s.attempt.value.status == LanesPassed
          && s.certificate.value.attemptHash == hash(s.attempt.value))
  }

  /** What a certificate means, spelled out. */
  lemma CertificateMeansAllLanesPassed(hash: Attempt -> string, s: Snapshot)
    requires Honest(hash, s) && s.certificate.Some?
    ensures |s.calls| == |LANES|
    ensures forall i :: 0 <= i < |LANES| ==> s.calls[i].lane == LANES[i] && s.calls[i].Good()
    ensures s.attempt.Some? && s.certificate.value.attemptHash == hash(s.attempt.value)
    ensures forall i :: 0 <= i < |LANES| ==>
              |s.attempt.value.lanes| == |LANES| && s.attempt.value.lanes[i].name == LANES[i]
              && Passing(s.attempt.value.lanes[i]) && s.attempt.value.lanes[i].log == s.calls[i].log
  {
    var a := s.attempt.value;
    assert Attested(a, s.calls, |LANES| - 1);
    forall i | 0 <= i < |LANES| ensures s.calls[i].Good() && s.calls[i].log == a.lanes[i].log && Passing(a.lanes[i]) {
      assert Attested(a, s.calls, i);
    }
  }

  /**
   In an honest directory the failed lane of a rejected attempt reads as passed exactly when it
   exited with 0 and left no log.
   */
  lemma FailedLaneReadsPassedIff(hash: Attempt -> string, s: Snapshot)
    requires Honest(hash, s) && s.attempt.Some? && s.attempt.value.status == Refused
    ensures var failed := s.attempt.value.lanes[|s.attempt.value.lanes| - 1];
      failed.verdict == Passed <==> failed.exit == Code(0) && failed.log.None?
  {
  }

  /** Such a record is honest: it is what a lane with exit 0 and no log is rejected with. */
  lemma FailedLaneMayReadPassed(hash: Attempt -> string)
    ensures var failed := Record(LANES[0], Passed, Code(0), None);
      Honest(hash, Snapshot(Some(Attempt(Refused, Some(LANES[0]), Some(Code(0)), [failed])), None,
                            [Call(LANES[0], Some(0), None, false)]))
  {
  }

  // ------------------------------------------------------------ when a failed run keeps its certificate

  /** Two ways to end so: the session lock cannot be released, or a second signal reaches the handler. */
  lemma CertificateMayOutliveFailure(plan: Plan, e: Raised, calm: Recording)
    requires plan.LanesPass()
    ensures var late := plan.(ending := Ending(false, Fine, None, Fine, None, false, false, Fine, calm, Some(e)));
      !late.Succeeds() && late.KeepsCertificate()
    ensures var twice := plan.(ending := Ending(false, Fine, None, Fine, None, false, true, Before(Interrupt), calm, None));
      !twice.Succeeds() && twice.KeepsCertificate()
  {
  }

  // ------------------------------------------------------------ the run

  class Qualifier {
    const hash: Attempt -> string
    var attemptFile: Option<Attempt>
    var certificateFile: Option<Certificate>
    /** The `attempt` dictionary; `None` once cleared. */
    var attempt: Option<Attempt>
    ghost var calls: seq<Call>
    ghost var history: seq<Snapshot>

    constructor (hash: Attempt -> string)
      ensures this.hash == hash
      ensures attemptFile == None && certificateFile == None && attempt == None
      ensures calls == [] && history == [Now()]
    {
      this.hash := hash;
      attemptFile := None;
      certificateFile := None;
      attempt := None;
      calls := [];
      history := [Snapshot(None, None, [])];
    }

    ghost function Now(): Snapshot
      reads this
    {
      Snapshot(attemptFile, certificateFile, calls)
    }

    /** Every state so far, this one included, is in the history and was honest. */
    ghost predicate Truthful()
      reads this
    {
      && history != [] && history[|history| - 1] == Now() && Honest(hash, Now())
      && (forall s :: s in history ==> Honest(hash, s))
    }

    ghost method Note()
      requires Honest(hash, Now()) && forall s :: s in history ==> Honest(hash, s)
      modifies `history
      ensures old(history) <= history
      ensures Truthful()
      ensures history == old(history) + [Now()]
    {
      history := history + [Now()];
    }

    /** `_atomic_json` on `attempt.json`: it may fail before or after the replacement. */
    method WriteAttempt(a: Attempt, step: Step) returns (fault: Option<Raised>)
      requires Truthful() && certificateFile == None && Faithful(a, calls)
      modifies `attemptFile, `history
      ensures old(history) <= history
      ensures Truthful()
      ensures fault == (if step.Fine? then None else Some(step.error))
      ensures attemptFile == if step.Before? then old(attemptFile) else Some(a)
    {
      hide Faithful;
      if step.Before? {
        return Some(step.error);
      }
      attemptFile := Some(a);
      Note();
      return if step.After? then Some(step.error) else None;
    }

    /** `_atomic_json` on `qualification.json`: exclusive, and it too may fail on either side. */
    method LinkCertificate(c: Certificate, step: Step) returns (fault: Option<Raised>)
      requires Truthful()
      requires attemptFile.Some? && attemptFile.value.status == LanesPassed && c.attemptHash == hash(attemptFile.value)
      modifies `certificateFile, `history
      ensures old(history) <= history
      ensures Truthful()
      ensures old(certificateFile).Some? ==> fault == Some(QualificationError) && certificateFile == old(certificateFile)
      ensures old(certificateFile).None? ==>
        && fault == (if step.Fine? then None else Some(step.error))
        && certificateFile == if step.Before? then None else Some(c)
    {
      hide Faithful;
      if certificateFile.Some? {
        return Some(QualificationError);
      }
      if step.Before? {
        return Some(step.error);
      }
      certificateFile := Some(c);
      Note();
      return if step.After? then Some(step.error) else None;
    }

    /** The handler's `unlink`: an error or a second signal may come before or after it. */
    method RemoveCertificate(step: Step) returns (fault: Option<Raised>)
      requires Truthful()
      modifies `certificateFile, `history
      ensures old(history) <= history
      ensures Truthful()
      ensures fault == (if step.Fine? then None else Some(step.error))
      ensures certificateFile == if step.Before? then old(certificateFile) else None
    {
      hide Faithful;
      if step.Before? {
        return Some(step.error);
      }
      certificateFile := None;
      Note();
      return if step.After? then Some(step.error) else None;
    }

    // ---------------------------------------------------------- recording failures

    /** `_write_rejection`; `lanes` ends with the failed lane. */
    method WriteRejection(lane: Lane, exit: Exit, recording: Recording) returns (fault: Option<Raised>)
      requires Truthful() && certificateFile == None && attempt.Some?
      requires Faithful(attempt.value.(status := Refused, failedLane := Some(lane), exit := Some(exit)), calls)
      modifies `attempt, `attemptFile, `history
      ensures old(history) <= history
      ensures Truthful()
      ensures attempt.Some? && attempt.value.status == Refused
      ensures attempt.value.lanes == old(attempt.value.lanes)
      ensures fault.None? <==> !recording.signalRejecting && recording.write.Fine?
      ensures fault.None? ==> attemptFile == Some(Attempt(Refused, Some(lane), Some(exit), old(attempt.value.lanes)))
    {
      hide Faithful;
      attempt := Some(attempt.value.(status := Refused));
      if recording.signalRejecting {
        return Some(Interrupt);
      }
      attempt := Some(attempt.value.(failedLane := Some(lane), exit := Some(exit)));
      fault := WriteAttempt(attempt.value, recording.write);
    }

    /** `_ensure_failure_log` with its callers' `except Exception`: a hash, none, or an interrupt. */
    method EnsureFailureLog(recording: Recording) returns (r: Result<Option<string>, Raised>)
      ensures r == if recording.signalLog then Failure(Interrupt) else Success(recording.log)
    {
      if recording.signalLog {
        return Failure(Interrupt);
      }
      return Success(recording.log);
    }

    /** `_record_runner_failure`. */
    method RecordRunnerFailure(i: nat, exit: Exit, recording: Recording) returns (fault: Option<Raised>)
      requires i < |LANES| && Truthful() && certificateFile == None
      requires attempt.Some? && |attempt.value.lanes| == i && Judging(attempt.value, calls, i)
      requires !exit.Code?
      modifies `attempt, `attemptFile, `history
      ensures old(history) <= history
      ensures Truthful()
      ensures fault.None? <==> recording.Undisturbed()
      ensures fault.None? ==>
        RejectedFor(attemptFile, old(attempt.value.lanes), Record(LANES[i], Rejected, exit, recording.log))
    {
      var log := EnsureFailureLog(recording);
      if log.Failure? {
        return Some(log.error);
      }
      var record := Record(LANES[i], Rejected, exit, log.value);
      JudgedIsFaithful(attempt.value, calls, i, record, exit);
      assert attempt.value.lanes[..i] == attempt.value.lanes;
      attempt := Some(attempt.value.(lanes := attempt.value.lanes + [record]));
      fault := WriteRejection(LANES[i], exit, recording);
    }

    /** `_record_post_lane_failure`: the lane's record is amended, or added if there is none yet. */
    method RecordPostLaneFailure(i: nat, exit: Exit, recording: Recording) returns (fault: Option<Raised>)
      requires i < |LANES| && Truthful() && certificateFile == None
      requires attempt.Some? ==> Judging(attempt.value, calls, i)
      requires !exit.Code?
      modifies `attempt, `attemptFile, `history
      ensures old(history) <= history
      ensures Truthful()
      ensures fault.None? <==> old(attempt).Some? && recording.Undisturbed()
      ensures old(attempt).None? ==> attemptFile == old(attemptFile)
      ensures old(attempt).None? && !recording.signalLog ==> fault == Some(MissingKey)
      ensures fault.None? ==>
        var lanes := old(attempt.value.lanes);
        RejectedFor(attemptFile, lanes[..i],
                    Record(LANES[i], Rejected, exit,
                           if |lanes| == i + 1 && lanes[i].log.Some? then lanes[i].log else recording.log))
      ensures certificateFile == old(certificateFile)
    {
      hide Honest, Faithful, Judging;
      var log := EnsureFailureLog(recording);
      if log.Failure? {
        return Some(log.error);
      }
      if attempt.None? {
        return Some(MissingKey);
      }
      var lanes := attempt.value.lanes;
      LastRecord(attempt.value, calls, i);
      var record := Record(LANES[i], Rejected, exit, log.value);
      if lanes != [] && lanes[|lanes| - 1].name == LANES[i] {
        record := lanes[i].(verdict := Rejected, exit := exit);
        if record.log.None? {
          record := record.(log := log.value);
        }
      }
      JudgedIsFaithful(attempt.value, calls, i, record, exit);
      attempt := Some(attempt.value.(lanes := lanes[..i] + [record]));
      fault := WriteRejection(LANES[i], exit, recording);
    }

    // ---------------------------------------------------------- one lane

    /** What the loop knows before lane `i`: every lane so far is recorded, attested and good. */
    ghost predicate Ready(i: nat)
      reads this
    {
      && i <= |LANES| && Truthful() && certificateFile == None
      && attempt.Some? && attempt.value.status == Running && |attempt.value.lanes| == i
      && Faithful(attempt.value, calls)
      && (attemptFile.Some? ==> |attemptFile.value.lanes| <= i)
      && |calls| == i && (forall k :: 0 <= k < i ==> calls[k].Good())
    }

    /** The lane's runner, under the heavy-build lock where the table says so. */
    method CallRunner(i: nat, plan: LanePlan) returns (r: Result<int, Raised>)
      requires i < |LANES| && Ready(i)
      modifies `calls, `history
      ensures old(history) <= history
      ensures Truthful() && Judging(attempt.value, calls, i)
      ensures r.Success? <==> plan.RunnerRaised(LANES[i]).None?
      ensures r.Failure? ==> plan.RunnerRaised(LANES[i]) == Some(r.error)
      ensures r.Success? ==>
        r == plan.runner && calls == old(calls) + [Call(LANES[i], Some(r.value), None, false)]
    {
      var lane := LANES[i];
      ReadyIsJudging(attempt.value, calls, i);
      if LocksOutside(lane) && plan.lock.Some? {
        return Failure(plan.lock.value);
      }
      ghost var call := Call(lane, if plan.runner.Success? then Some(plan.runner.value) else None, None, false);
      CallKeepsHonest(hash, Now(), call);
      CallKeepsJudging(attempt.value, calls, i, call);
      calls := calls + [call];
      Note();
      if LocksOutside(lane) && plan.unlock.Some? {
        return Failure(plan.unlock.value);
      }
      return plan.runner;
    }

    /** Lane `i` has been called and is being judged. */
    ghost predicate Called(i: nat, call: Call)
      reads this
    {
      && i < |LANES| && Truthful() && certificateFile == None
      && attempt.Some? && attempt.value.status == Running && Judging(attempt.value, calls, i)
      && (attemptFile.Some? ==> |attemptFile.value.lanes| <= i)
      && |calls| == i + 1 && calls[i] == call && call.lane == LANES[i]
    }

    /** Something more is known of the call. */
    ghost method Learn(i: nat, before: Call, call: Call)
      requires Called(i, before) && call.lane == LANES[i]
      modifies `calls, `history
      ensures old(history) <= history
      ensures Called(i, call)
    {
      hide Honest, Faithful, Judging;
      LearnKeepsTruth(i, call);
      calls := calls[i := call];
      Note();
    }

    /**
     The log is hashed and the lane recorded; anything short of a clean exit with a log is rejected.
     A signal behind the recording leaves that to the handler.
     */
    method RecordLane(i: nat, exit: int, plan: LanePlan) returns (fault: Option<Raised>)
      requires i < |LANES| && Called(i, Call(LANES[i], Some(exit), None, false)) && |attempt.value.lanes| == i
      modifies `attempt, `attemptFile, `calls, `history
      ensures old(history) <= history
      ensures Truthful()
      ensures fault.None? <==> exit == 0 && plan.hashing.Success? && plan.hashing.value.Some? && !plan.signalRecorded
      ensures fault.None? ==>
        && Called(i, Call(LANES[i], Some(0), plan.hashing.value, false))
        && attempt.value == old(attempt.value).(
             lanes := old(attempt.value.lanes) + [Record(LANES[i], Passed, Code(0), plan.hashing.value)])
      ensures fault.Some? ==> attempt.Some? && (attempt.value.status == Refused || Judging(attempt.value, calls, i))
      ensures fault.Some? && plan.hashing.Success? ==>
        && attempt.value.status == (if plan.signalRecorded then Running else Refused)
        && attempt.value.lanes == old(attempt.value.lanes)
             + [Record(LANES[i], if exit == 0 then Passed else Rejected, Code(exit), plan.hashing.value)]
      ensures plan.hashing.Failure? ==> fault == Some(plan.hashing.error) && attempt == old(attempt)
      ensures plan.hashing.Success? && plan.signalRecorded ==> fault == Some(Interrupt)
      ensures fault.Some? && plan.hashing.Success? && !plan.signalRecorded && plan.recording.Undisturbed() ==>
        && fault == Some(QualificationError)
        && RejectedFor(attemptFile, old(attempt.value.lanes),
                       Record(LANES[i], if exit == 0 then Passed else Rejected, Code(exit), plan.hashing.value))
    {
      hide Honest, Faithful, Judging;
      if plan.hashing.Failure? {
        return Some(plan.hashing.error);
      }
      var log := plan.hashing.value;
      Learn(i, Call(LANES[i], Some(exit), None, false), Call(LANES[i], Some(exit), log, false));
      var record := Record(LANES[i], if exit == 0 then Passed else Rejected, Code(exit), log);
      assert attempt.value.lanes[..i] == attempt.value.lanes;
      if plan.signalRecorded {
        RecordKeepsJudging(attempt.value, calls, i, record);
        attempt := Some(attempt.value.(lanes := attempt.value.lanes + [record]));
        return Some(Interrupt);
      }
      if exit != 0 || log.None? {
        JudgedIsFaithful(attempt.value, calls, i, record, Code(exit));
        attempt := Some(attempt.value.(lanes := attempt.value.lanes + [record]));
        var unwritten := WriteRejection(LANES[i], Code(exit), plan.recording);
        return Some(if unwritten.Some? then unwritten.value else QualificationError);
      }
      RecordKeepsJudging(attempt.value, calls, i, record);
      attempt := Some(attempt.value.(lanes := attempt.value.lanes + [record]));
      return None;
    }

    /** The quick-start summary, the source identity, and the attempt saved with the lane in it. */
    method AdmitLane(i: nat, plan: LanePlan) returns (fault: Option<Raised>, summary: Option<string>)
      requires i < |LANES| && plan.hashing.Success? && plan.hashing.value.Some?
      requires Called(i, Call(LANES[i], Some(0), plan.hashing.value, false))
      requires |attempt.value.lanes| == i + 1
      requires attempt.value.lanes[i] == Record(LANES[i], Passed, Code(0), plan.hashing.value)
      modifies `attemptFile, `calls, `history
      ensures old(history) <= history
      ensures Truthful() && Judging(attempt.value, calls, i)
      ensures fault == plan.AdmittingRaised(LANES[i])
      ensures fault.None? ==> Ready(i + 1) && attemptFile == attempt
      ensures fault.None? && LANES[i] == PublicQuickstarts ==> plan.summary.Success? && summary == Some(plan.summary.value)
    {
      hide Honest, Faithful, Judging;
      summary := None;
      if LANES[i] == PublicQuickstarts {
        if plan.summary.Failure? {
          return Some(plan.summary.error), None;
        }
        summary := Some(plan.summary.value);
      }
      if plan.probe.Failure? {
        return Some(plan.probe.error), None;
      }
      var log, matched := plan.hashing.value, plan.probe.value;
      Learn(i, Call(LANES[i], Some(0), log, false), Call(LANES[i], Some(0), log, matched));
      if !matched {
        return Some(QualificationError), None;
      }
      GoodLaneIsFaithful(attempt.value, calls, i);
      fault := WriteAttempt(attempt.value, plan.save);
      GoodCalls(Now(), hash, i);
    }

    /** How far the judging of a failed lane came: rejected by its exit, or still to be recorded for an error. */
    ghost predicate JudgedAs(i: nat, exit: int, plan: LanePlan, error: Raised, before: seq<Record>)
      reads this
      requires i < |LANES| && attempt.Some?
    {
      var record := Record(LANES[i], if exit == 0 then Passed else Rejected, Code(exit), plan.Log());
      if plan.hashing.Failure? then
        error == plan.hashing.error && attempt.value.status == Running && attempt.value.lanes == before
      else if plan.signalRecorded then
        error == Interrupt && attempt.value.status == Running && attempt.value.lanes == before + [record]
      else if exit != 0 || plan.Log().None? then
        && attempt.value.status == Refused
        && (plan.recording.Undisturbed() ==> error == QualificationError && RejectedFor(attemptFile, before, record))
      else
        && plan.AdmittingRaised(LANES[i]) == Some(error)
        && attempt.value.status == Running && attempt.value.lanes == before + [record]
    }

    /** The guarded part after the runner returned. */
    method JudgeLane(i: nat, exit: int, plan: LanePlan) returns (fault: Option<Raised>, summary: Option<string>)
      requires i < |LANES| && Called(i, Call(LANES[i], Some(exit), None, false)) && |attempt.value.lanes| == i
      modifies `attempt, `attemptFile, `calls, `history
      ensures old(history) <= history
      ensures Truthful()
      ensures fault.None? <==>
        && exit == 0 && plan.hashing.Success? && plan.hashing.value.Some? && !plan.signalRecorded
        && plan.AdmittingRaised(LANES[i]).None?
      ensures fault.None? ==>
        && Ready(i + 1) && attemptFile == attempt
        && attempt.value == old(attempt.value).(
             lanes := old(attempt.value.lanes) + [Record(LANES[i], Passed, Code(0), plan.Log())])
      ensures fault.None? && LANES[i] == PublicQuickstarts ==> plan.summary.Success? && summary == Some(plan.summary.value)
      ensures fault.Some? ==> attempt.Some? && (attempt.value.status == Refused || Judging(attempt.value, calls, i))
      ensures fault.Some? ==> JudgedAs(i, exit, plan, fault.value, old(attempt.value.lanes))
    {
      hide Honest, Faithful, Judging, Truthful;
      summary := None;
      fault := RecordLane(i, exit, plan);
      if fault.None? {
        fault, summary := AdmitLane(i, plan);
      }
    }

    /** Learning more about the last call leaves everything written true. */
    lemma LearnKeepsTruth(i: nat, call: Call)
      requires i < |LANES| && Truthful() && certificateFile == None && |calls| == i + 1 && call.lane == LANES[i]
      requires attempt.Some? && Judging(attempt.value, calls, i)
      requires attemptFile.Some? ==> |attemptFile.value.lanes| <= i
      ensures Honest(hash, Snapshot(attemptFile, certificateFile, calls[i := call]))
      ensures Judging(attempt.value, calls[i := call], i)
    {
      ghost var later := calls[i := call];
      if attemptFile.Some? {
        SameCallsSameTruth(attemptFile.value, calls, later, i);
      }
      forall k | 0 <= k < i ensures Attested(attempt.value, later, k) {
        assert Attested(attempt.value, calls, k);
      }
    }

    /** One pass of the lane loop with its two exception handlers. */
    method RunLane(i: nat, plan: LanePlan) returns (fault: Option<Raised>, summary: Option<string>)
      requires i < |LANES| && Ready(i)
      modifies `attempt, `attemptFile, `calls, `history
      ensures old(history) <= history
      ensures Truthful()
      ensures fault.None? <==> plan.Good(LANES[i])
      ensures fault.None? ==>
        && Ready(i + 1) && attemptFile == attempt
        && attempt.value == old(attempt.value).(
             lanes := old(attempt.value.lanes) + [Record(LANES[i], Passed, Code(0), plan.Log())])
      ensures fault.None? && LANES[i] == PublicQuickstarts ==> plan.summary.Success? && summary == Some(plan.summary.value)
      ensures fault.Some? && plan.Reported(LANES[i]).None? ==> fault == Some(Interrupt) && attemptFile == old(attemptFile)
      ensures fault.Some? && plan.Reported(LANES[i]).Some? && plan.recording.Undisturbed() ==>
        var record := plan.Reported(LANES[i]).value;
        && RejectedFor(attemptFile, old(attempt.value.lanes), record)
        && fault == Some(if record.exit == Interrupted then Interrupt else QualificationError)
    {
      hide Honest, Faithful, Judging, Truthful;
      summary := None;
      if plan.signalEntering {
        return Some(Interrupt), None;
      }
      var exit := CallRunner(i, plan);
      if exit.Failure? {
        var unrecorded := RecordRunnerFailure(i, if exit.error.Ordinary() then RunnerError else Interrupted, plan.recording);
        return Some(Outer(exit.error, unrecorded)), None;
      }
      if plan.signalBetween {
        return Some(Interrupt), None;
      }
      ghost var before := attempt.value.lanes;
      assert before[..i] == before && forall r: Record :: (before + [r])[..i] == before;
      var error;
      error, summary := JudgeLane(i, exit.value, plan);
      if error.None? {
        return None, summary;
      }
      var unrecorded: Option<Raised> := None;
      if attempt.value.status != Refused {
        unrecorded :=
          RecordPostLaneFailure(i, if error.value.Ordinary() then EvidenceError else Interrupted, plan.recording);
      }
      return Some(Outer(error.value, unrecorded)), None;
    }

    // ---------------------------------------------------------- the end

    /** The guarded end: the admitted attempt is saved before the certificate that hashes it. */
    method Certify(summary: Option<string>, plan: Ending) returns (fault: Option<Raised>)
      requires Ready(|LANES|) && !plan.signalEntering
      modifies `attempt, `attemptFile, `certificateFile, `history
      ensures old(history) <= history
      ensures Truthful()
      ensures attempt.Some? ==> Judging(attempt.value, calls, |LANES| - 1)
      ensures fault.None? <==> summary.Some? && plan.GuardHolds()
      ensures fault.None? ==> attempt == attemptFile == Some(old(attempt.value).(status := LanesPassed))
      ensures certificateFile.Some? <==> summary.Some? && plan.Linked()
      ensures certificateFile.Some? ==> certificateFile.value.summary == summary.value
      ensures summary.Some? ==> fault == plan.EndRaised()
      ensures summary.Some? && plan.Synced() && plan.signalCleared ==>
        attempt == None && attemptFile == Some(old(attempt.value).(status := LanesPassed))
      ensures !(summary.Some? && plan.Synced() && plan.signalCleared) ==>
        attempt.Some? && attempt.value.lanes == old(attempt.value.lanes) && attempt.value.status != Refused
    {
      hide Honest, Faithful, Judging;
      AllLanesJudging(attempt.value, calls);
      if summary.None? {
        return Some(QualificationError);
      }
      var admitted := attempt.value.(status := LanesPassed);
      AdmittedIsFaithful(attempt.value, calls);
      fault := WriteAttempt(admitted, plan.save);
      if fault.Some? {
        return;
      }
      if plan.syncSaved.Some? {
        return plan.syncSaved;
      }
      fault := LinkCertificate(Certificate(summary.value, hash(admitted)), plan.link);
      if fault.Some? {
        return;
      }
      if plan.syncLinked.Some? {
        return plan.syncLinked;
      }
      attempt := None;
      if plan.signalCleared {
        return Some(Interrupt);
      }
      attempt := Some(admitted);
      return if plan.signalLeaving then Some(Interrupt) else None;
    }

    /** The end with its handler: the certificate goes first, then the attempt is rejected. */
    method Finish(summary: Option<string>, plan: Ending) returns (fault: Option<Raised>)
      requires Ready(|LANES|)
      modifies `attempt, `attemptFile, `certificateFile, `history
      ensures old(history) <= history
      ensures Truthful()
      ensures fault.None? <==> summary.Some? && plan.GuardHolds()
      ensures fault.None? ==> attempt == attemptFile == Some(old(attempt.value).(status := LanesPassed))
      ensures certificateFile.Some? <==>
        summary.Some? && plan.Linked() && (plan.GuardHolds() || plan.remove.Before?)
      ensures certificateFile.Some? ==> certificateFile.value.summary == summary.value
      ensures summary.Some? && plan.Records() ==>
        var lanes := old(attempt.value.lanes);
        && RejectedFor(attemptFile, lanes[..|LANES| - 1],
                       Record(LANES[|LANES| - 1], Rejected, FinalEvidenceError, lanes[|LANES| - 1].log))
        && fault == Some(if plan.EndRaised().value == Interrupt then Interrupt else QualificationError)
      ensures summary.Some? && !plan.signalEntering && plan.Synced() && plan.signalCleared
              && plan.remove.Fine? && !plan.recording.signalLog ==>
        && fault == Some(MissingKey) && certificateFile == None
        && attemptFile == Some(old(attempt.value).(status := LanesPassed))
    {
      hide Honest, Faithful, Judging;
      if plan.signalEntering {
        return Some(Interrupt);
      }
      AllLanesJudging(attempt.value, calls);
      var error := Certify(summary, plan);
      if error.None? {
        return None;
      }
      fault := RemoveCertificate(plan.remove);
      if fault.Some? {
        return;
      }
      var unrecorded: Option<Raised> := None;
      if attempt.None? || attempt.value.status != Refused {
        unrecorded := RecordPostLaneFailure(|LANES| - 1, FinalEvidenceError, plan.recording);
      }
      return Some(Outer(error.value, unrecorded));
    }

    /**
     The run stopped at lane `i`: its rejection is on file behind the lanes that passed, unless its
     recording was disturbed or a signal between the guarded blocks left nothing to record.
     */
    ghost predicate FailureRecorded(plan: Plan, i: nat)
      reads `attemptFile
      requires plan.FailsAt(i)
    {
      var reported := plan.lanes[i].Reported(LANES[i]);
      if reported.None? then
        attemptFile == Some(Attempt(Running, None, None, PassedLanes(plan.lanes, i)))
      else
        plan.lanes[i].recording.Undisturbed() ==>
          RejectedFor(attemptFile, PassedLanes(plan.lanes, i), reported.value)
    }

    /** Everything done while the session lock is held. */
    method UnderLock(plan: Plan) returns (fault: Option<Raised>)
      requires attemptFile == None && certificateFile == None && calls == [] && history == [Now()]
      requires |plan.lanes| == |LANES|
      modifies this
      ensures old(history) <= history
      ensures Truthful()
      ensures fault.None? <==> plan.LanesPass() && plan.ending.GuardHolds()
      ensures fault.None? ==> attempt == attemptFile == Some(Attempt(LanesPassed, None, None, PassedLanes(plan.lanes, |LANES|)))
      ensures certificateFile.Some? <==> plan.KeepsCertificate()
      ensures certificateFile.Some? ==>
        && plan.lanes[|LANES| - 1].summary.Success?
        && certificateFile.value.summary == plan.lanes[|LANES| - 1].summary.value
      ensures forall i: nat :: plan.FailsAt(i) ==> FailureRecorded(plan, i)
      ensures plan.LanesPass() && plan.ending.Records() ==>
        RejectedFor(attemptFile, PassedLanes(plan.lanes, |LANES| - 1),
                    Record(LANES[|LANES| - 1], Rejected, FinalEvidenceError, plan.lanes[|LANES| - 1].Log()))
      ensures plan.LanesPass() && !plan.ending.signalEntering && plan.ending.Synced() && plan.ending.signalCleared
              && plan.ending.remove.Fine? && !plan.ending.recording.signalLog ==>
        attemptFile == Some(Attempt(LanesPassed, None, None, PassedLanes(plan.lanes, |LANES|)))
    {
      hide Honest, Faithful, Truthful;
      attempt := Some(Attempt(Running, None, None, []));
      FreshIsFaithful();
      StartsTruthful();
      fault := WriteAttempt(attempt.value, plan.first);
      if fault.Some? {
        return;
      }
      var summary: Option<string> := None;
      assert PassedLanes(plan.lanes, 0) == [];
      hide PassedLanes;
      for i := 0 to |LANES|
        invariant Ready(i) && old(history) <= history
        invariant attempt == attemptFile == Some(Attempt(Running, None, None, PassedLanes(plan.lanes, i)))
        invariant i == |LANES| ==>
          plan.lanes[|LANES| - 1].summary.Success? && summary == Some(plan.lanes[|LANES| - 1].summary.value)
        invariant forall k :: 0 <= k < i ==> plan.lanes[k].Good(LANES[k])
      {
        var parsed;
        fault, parsed := RunLane(i, plan.lanes[i]);
        if fault.Some? {
          return;
        }
        if parsed.Some? {
          summary := parsed;
        }
        assert i == 6 ==> LANES[i] == PublicQuickstarts;
        OneMorePassed(plan.lanes, i);
      }
      OneMorePassed(plan.lanes, |LANES| - 1);
      fault := Finish(summary, plan.ending);
    }

    /**
     The whole run. Every state the evidence directory passes through, in every run, is honest.
     The run succeeds exactly when every lane is good and nothing is raised, and it leaves the
     certificate exactly when that was put in place and not taken back. So a run that fails leaves
     it exactly when the handler's removal raised before taking effect, or when what failed was
     the release of the session lock behind the guarded end.
     */
    method Qualify(plan: Plan) returns (fault: Option<Raised>)
      requires attemptFile == None && certificateFile == None && calls == [] && history == [Now()]
      requires |plan.lanes| == |LANES|
      modifies this
      ensures old(history) <= history
      ensures Truthful()
      ensures fault.None? <==> plan.Succeeds()
      ensures fault.None? ==> attempt == attemptFile == Some(Attempt(LanesPassed, None, None, PassedLanes(plan.lanes, |LANES|)))
      ensures certificateFile.Some? <==> plan.KeepsCertificate()
      ensures certificateFile.Some? ==>
        && plan.lanes[|LANES| - 1].summary.Success?
        && certificateFile.value.summary == plan.lanes[|LANES| - 1].summary.value
      ensures forall i: nat :: plan.FailsAt(i) ==> FailureRecorded(plan, i)
      ensures plan.LanesPass() && plan.ending.Records() ==>
        RejectedFor(attemptFile, PassedLanes(plan.lanes, |LANES| - 1),
                    Record(LANES[|LANES| - 1], Rejected, FinalEvidenceError, plan.lanes[|LANES| - 1].Log()))
      ensures plan.LanesPass() && !plan.ending.signalEntering && plan.ending.Synced() && plan.ending.signalCleared
              && plan.ending.remove.Fine? && !plan.ending.recording.signalLog ==>
        attemptFile == Some(Attempt(LanesPassed, None, None, PassedLanes(plan.lanes, |LANES|)))
      ensures fault.Some? && certificateFile.Some? <==>
        && plan.LanesPass() && plan.ending.Linked()
        && if plan.ending.GuardHolds() then plan.ending.release.Some? else plan.ending.remove.Before?
    {
      fault := UnderLock(plan);
      if plan.ending.release.Some? {
        fault := plan.ending.release;
      }
    }

    lemma StartsTruthful()
      requires attemptFile == None && certificateFile == None && calls == [] && history == [Now()]
      ensures Truthful()
    {
      EmptyIsHonest(hash);
    }
  }

  /** What is raised to the caller: a handler's own failure, or the error it was handling. */
  function Outer(error: Raised, unrecorded: Option<Raised>): Raised {
    if unrecorded.Some? then unrecorded.value
    else if error.Ordinary() then QualificationError else error
  }

  // ------------------------------------------------------------ the records in memory

  /** The dictionary while lane `i` is judged: the lanes before it are attested. */
  predicate Judging(a: Attempt, calls: seq<Call>, i: nat) {
    && i < |LANES| && (|a.lanes| == i || |a.lanes| == i + 1)
    && (forall k :: 0 <= k < |a.lanes| ==> a.lanes[k].name == LANES[k])
    && (forall k :: 0 <= k < i ==> Attested(a, calls, k))
  }

  lemma LanesDistinct(i: nat, j: nat)
    requires i < |LANES| && j < |LANES| && LANES[i] == LANES[j]
    ensures i == j
  {
    assert |LANES| == 7;
  }

  /** The last record is the lane's own exactly when it has one. */
  lemma LastRecord(a: Attempt, calls: seq<Call>, i: nat)
    requires Judging(a, calls, i)
    ensures |a.lanes| == i || |a.lanes| == i + 1
    ensures a.lanes != [] && a.lanes[|a.lanes| - 1].name == LANES[i] <==> |a.lanes| == i + 1
  {
    if |a.lanes| == i && i > 0 && LANES[i - 1] == LANES[i] {
      LanesDistinct(i - 1, i);
    }
  }

  /** Whatever record that does not pass is put down for the failed lane, the rejected attempt is faithful. */
  lemma JudgedIsFaithful(a: Attempt, calls: seq<Call>, i: nat, r: Record, exit: Exit)
    requires Judging(a, calls, i) && r.name == LANES[i] && Consistent(r) && !Passing(r)
    ensures var b := a.(lanes := a.lanes[..i] + [r]);
      Faithful(b.(status := Refused, failedLane := Some(r.name), exit := Some(exit)), calls)
  {
    var b := a.(lanes := a.lanes[..i] + [r], status := Refused, failedLane := Some(r.name), exit := Some(exit));
    forall k | 0 <= k < |b.lanes| - 1 ensures Attested(b, calls, k) {
      assert Attested(a, calls, k);
    }
  }

  lemma EmptyIsHonest(hash: Attempt -> string)
    ensures Honest(hash, Snapshot(None, None, []))
  {
  }

  lemma FreshIsFaithful()
    ensures Faithful(Attempt(Running, None, None, []), [])
  {
  }

  lemma ReadyIsJudging(a: Attempt, calls: seq<Call>, i: nat)
    requires i < |LANES| && |a.lanes| == i && a.status == Running && Faithful(a, calls)
    ensures Judging(a, calls, i)
  {
  }

  lemma CallKeepsHonest(hash: Attempt -> string, s: Snapshot, call: Call)
    requires Honest(hash, s) && s.certificate == None && |s.calls| < |LANES| && call.lane == LANES[|s.calls|]
    requires forall k :: 0 <= k < |s.calls| ==> s.calls[k].Good()
    ensures Honest(hash, s.(calls := s.calls + [call]))
  {
    if s.attempt.Some? {
      var a := s.attempt.value;
      var later := s.calls + [call];
      forall k | 0 <= k < |a.lanes| && Attested(a, s.calls, k) ensures Attested(a, later, k) {
      }
    }
  }

  lemma CallKeepsJudging(a: Attempt, calls: seq<Call>, i: nat, call: Call)
    requires Judging(a, calls, i)
    ensures Judging(a, calls + [call], i)
  {
    forall k | 0 <= k < i ensures Attested(a, calls + [call], k) {
      assert Attested(a, calls, k);
    }
  }

  /** Calls that agree on the recorded lanes bear out the same records. */
  lemma SameCallsSameTruth(a: Attempt, calls: seq<Call>, later: seq<Call>, i: nat)
    requires Faithful(a, calls) && |a.lanes| <= i <= |calls| && i <= |later| && later[..i] == calls[..i]
    ensures Faithful(a, later)
  {
    forall k | 0 <= k < |a.lanes| && Attested(a, calls, k) ensures Attested(a, later, k) {
      assert calls[k] == calls[..i][k] == later[..i][k] == later[k];
    }
  }

  lemma RecordKeepsJudging(a: Attempt, calls: seq<Call>, i: nat, r: Record)
    requires Judging(a, calls, i) && |a.lanes| == i && r.name == LANES[i]
    ensures Judging(a.(lanes := a.lanes + [r]), calls, i)
  {
    var b := a.(lanes := a.lanes + [r]);
    forall k | 0 <= k < i ensures Attested(b, calls, k) {
      assert Attested(a, calls, k);
    }
  }

  lemma GoodLaneIsFaithful(a: Attempt, calls: seq<Call>, i: nat)
    requires Judging(a, calls, i) && |a.lanes| == i + 1 && |calls| == i + 1 && a.status == Running
    requires Passing(a.lanes[i]) && calls[i].Good() && calls[i].log == a.lanes[i].log
    ensures Faithful(a, calls)
  {
    forall k | 0 <= k < |a.lanes| ensures Attested(a, calls, k) {
    }
  }

  lemma GoodCalls(s: Snapshot, hash: Attempt -> string, i: nat)
    requires Honest(hash, s) && |s.calls| == i + 1 && s.calls[i].Good()
    ensures forall k :: 0 <= k <= i ==> s.calls[k].Good()
  {
  }

  lemma AllLanesJudging(a: Attempt, calls: seq<Call>)
    requires Faithful(a, calls) && a.status == Running && |a.lanes| == |LANES|
    ensures Judging(a, calls, |LANES| - 1)
    ensures Judging(a.(status := LanesPassed), calls, |LANES| - 1)
    ensures a.lanes[|LANES| - 1].log.Some?
  {
    assert |LANES| == 7;
    assert Attested(a, calls, 6);
    forall k | 0 <= k < |a.lanes| ensures Attested(a, calls, k) && Attested(a.(status := LanesPassed), calls, k) {
    }
  }

  lemma AdmittedIsFaithful(a: Attempt, calls: seq<Call>)
    requires Faithful(a, calls) && a.status == Running && |a.lanes| == |LANES|
    ensures Faithful(a.(status := LanesPassed), calls)
  {
    var b := a.(status := LanesPassed);
    forall k | 0 <= k < |b.lanes| ensures Attested(b, calls, k) {
      assert Attested(a, calls, k);
    }
  }
}
