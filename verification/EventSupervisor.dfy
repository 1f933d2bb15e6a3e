/**
 * The crash-safe event supervisor: a supervisor, a detached runner and the job's command, sharing
 * one event directory. Every step below is one atomic action of one process (a file read with the
 * decisions taken on it, an atomic save, the start of a process); between any two steps any process
 * may die, and the machine may reboot.
 */
module EventSupervisor {

  import opened Options

  type Pid = nat
  type Digest = nat

  // ---------------------------------------------------------------- what is on disk

  datatype Status = Starting | Running | Finished | Interrupted

  /** The fields that a completed runner receipt and a completed execution record have in common. */
  datatype Summary = Summary(exitCode: int, after: nat, outcome: nat, finishedAt: int)

  /** runner.json. The log digest is that of the log when the runner finished. */
  datatype Receipt = Receipt(specDigest: Digest, status: Status, summary: Summary, logDigest: nat)

  /**
   * execution.json. `child` is the recorded process identity of the runner. `sealed` stands for the
   * digest of the completed receipt: a copy of what was digested.
   */
  datatype Execution = Execution(specDigest: Digest, status: Status, preflightFailed: bool, child: Option<Pid>,
                                 summary: Summary, sealed: Option<Receipt>)

  datatype Kind = FinishedEvent | InterruptedEvent | TimeoutEvent | PreflightFailedEvent
                | RegistrationInvalidEvent | EvidenceInvalidEvent

  /** The stored delivery state of an event file. */
  datatype Delivery = Pending | Attempting | Queued | Unknown

  // ---------------------------------------------------------------- the processes

  /** Where a notification stands; `Ended` carries how the queue command ended. */
  datatype Stage = Look | SavePending | SaveAttempting | Send | Ended(result: SendResult)

  /**
   * How a queue command ends. The last two are exceptions that `notify` does not catch: one raised before
   * the command is run (a spec without the fields it needs), one raised after it ended (output that is
   * not text), with its exit code zero or not.
   */
  datatype SendResult = ReturnedZero | ReturnedNonzero | TimedOut | NotStarted | RaisedBefore | RaisedAfter(zero: bool)

  predicate Raises(result: SendResult) {
    result.RaisedBefore? || result.RaisedAfter?
  }

  /** Was the queue command run? */
  predicate Ran(result: SendResult) {
    !result.NotStarted? && !result.RaisedBefore?
  }

  /** Did it return zero? */
  predicate Zero(result: SendResult) {
    result.ReturnedZero? || (result.RaisedAfter? && result.zero)
  }

  /** Why a receipt is being promoted, which decides what happens when it is not complete. */
  datatype Reason = Restarted | Rejoined(alive: bool) | OwnRunner

  datatype SupervisorPc =
    | Open
    | Preflight
    | SavePreflightFailure
    | SaveStarting
    | Launch
    | SaveRunning
    | Wait(warned: bool)
    | Rejoin
    | Promote(reason: Reason)
    | SaveFinished(own: bool)
    | SaveInterrupted
    | Notify(kind: Kind, stage: Stage, next: Next)

  /**
   * What follows a notification. `ThenReturn` ends a supervisor that has waited for its own runner; there,
   * and before waiting on, an exception is caught and makes the record interrupted.
   */
  datatype Next = ThenExit | ThenRejoin | ThenWait | ThenReturn

  /** A process holding the directory's lock, with its copy of the execution record. */
  datatype Supervisor = Supervisor(specDigest: Digest, reconcileOnly: bool, pc: SupervisorPc, record: Execution)

  datatype RunnerPc =
    | ReadExecution
    | TakeLock
    | CheckReceipt
    | SaveReceipt
    | ObserveBefore
    | StartCommand
    | SaveCommandRunning
    | WaitCommand
    | SaveComplete(summary: Summary, logDigest: nat)
    | SaveFailed

  datatype Runner = Runner(specDigest: Digest, pc: RunnerPc)

  /**
   * The event directory, the processes, and three counters: commands started, runners launched by
   * supervisors, and for each kind of event the ends of the queue commands run (true for exit code 0).
   */
  datatype State = State(
    execution: Option<Execution>,
    receipt: Option<Receipt>,
    events: map<Kind, Delivery>,
    log: nat,
    holder: Option<Supervisor>,
    runners: map<Pid, Runner>,
    runnerLock: Option<Pid>,
    nextPid: Pid,
    commandsStarted: nat,
    runnersLaunched: nat,
    sends: map<Kind, seq<bool>>)

  const NO_SUMMARY := Summary(0, 0, 0, 0)
  const NO_RECORD := Execution(0, Starting, false, None, NO_SUMMARY, None)

  function Initial(): State {
    State(None, None, map[], 0, None, map[], None, 0, 0, 0, map[])
  }

  function SendsOf(s: State, kind: Kind): seq<bool> {
    if kind in s.sends then s.sends[kind] else []
  }

  // ---------------------------------------------------------------- the steps

  /**
   * What the surroundings answer during a step: whether observation and validation (or starting a
   * process) succeed, whether a deadline has passed, how a queue command ends, the spec a new runner
   * reads, and how a command ends.
   */
  datatype Answers = Answers(ok: bool, expired: bool, send: SendResult, specRead: Digest, summary: Summary)

  datatype Action =
    | StartSupervisor(specDigest: Digest, reconcileOnly: bool)
    | StartNotifier(invalidRegistration: bool)
    | SupervisorStep(answers: Answers)
    | StartStrayRunner(specRead: Digest)
    | RunnerStep(pid: Pid, runnerAnswers: Answers)
    | CrashSupervisor
    | CrashRunner(victim: Pid)
    | Reboot
    | WriteLog

  function Step(s: State, a: Action): State {
    match a
    case StartSupervisor(digest, reconcileOnly) =>
      // The lock is tried without waiting; a loser exits.
      if s.holder.Some? then s
      else s.(holder := Some(Supervisor(digest, reconcileOnly, Open, NO_RECORD)))
    case StartNotifier(invalidRegistration) =>
      // The service wrapper reports a rejected registration or evidence, waiting for the lock.
      if s.holder.Some? then s
      else
        var kind := if invalidRegistration then RegistrationInvalidEvent else EvidenceInvalidEvent;
        s.(holder := Some(Supervisor(0, false, Notify(kind, Look, ThenExit), NO_RECORD)))
    case SupervisorStep(answers) =>
      if s.holder.None? then s else SuperviseStep(s, s.holder.value, answers)
    case StartStrayRunner(digest) =>
      s.(runners := s.runners[s.nextPid := Runner(digest, ReadExecution)], nextPid := s.nextPid + 1)
    case RunnerStep(pid, answers) =>
      if pid in s.runners then ExecuteStep(s, pid, s.runners[pid], answers) else s
    case CrashSupervisor => s.(holder := None)
    case CrashRunner(victim) => if victim in s.runners then RunnerExit(s, victim) else s
    case Reboot => s.(holder := None, runners := map[], runnerLock := None)
    case WriteLog => s.(log := s.log + 1)
  }

  function At(s: State, p: Supervisor, pc: SupervisorPc): State {
    s.(holder := Some(p.(pc := pc)))
  }

  function Exit(s: State): State {
    s.(holder := None)
  }

  /** Is the receipt complete, for this record's spec, with the log as it was? */
  predicate Promotable(s: State, record: Execution) {
    && s.receipt.Some? && s.receipt.value.status == Finished
    && s.receipt.value.specDigest == record.specDigest
    && s.receipt.value.logDigest == s.log
  }

  /** `completed_receipt`: the preserved evidence behind a finished record. */
  predicate EvidenceIntact(s: State, record: Execution) {
    && Promotable(s, record)
    && record.sealed == s.receipt
    && record.summary == s.receipt.value.summary
  }

  function SuperviseStep(s: State, p: Supervisor, answers: Answers): State {
    match p.pc
    case Open => Resume(s, p)
    case Preflight =>
      At(s, p, if answers.ok then SaveStarting else SavePreflightFailure)
    case SavePreflightFailure =>
      var record := Execution(p.specDigest, Finished, true, None, NO_SUMMARY, None);
      At(s.(execution := Some(record)), p.(record := record), Notify(PreflightFailedEvent, Look, ThenExit))
    case SaveStarting =>
      var record := Execution(p.specDigest, Starting, false, None, NO_SUMMARY, None);
      At(s.(execution := Some(record)), p.(record := record), Launch)
    case Launch =>
      if !answers.ok then At(s, p, SaveInterrupted)
      else
        var child := s.nextPid;
        At(s.(runners := s.runners[child := Runner(answers.specRead, ReadExecution)], nextPid := child + 1,
              runnersLaunched := s.runnersLaunched + 1),
           p.(record := p.record.(status := Running, child := Some(child))), SaveRunning)
    case SaveRunning =>
      At(s.(execution := Some(p.record)), p, Wait(false))
    case Wait(warned) =>
      if p.record.child.Some? && p.record.child.value in s.runners then
        if answers.expired && !warned then At(s, p, Notify(TimeoutEvent, Look, ThenWait)) else s
      else At(s, p, Promote(OwnRunner))
    case Rejoin =>
      At(s, p, Promote(Rejoined(p.record.child.Some? && p.record.child.value in s.runners)))
    case Promote(reason) => PromoteStep(s, p, reason, answers)
    case SaveFinished(own) =>
      At(s.(execution := Some(p.record)), p, Notify(FinishedEvent, Look, if own then ThenReturn else ThenExit))
    case SaveInterrupted =>
      var record := p.record.(status := Interrupted);
      At(s.(execution := Some(record)), p.(record := record), Notify(InterruptedEvent, Look, ThenExit))
    case Notify(kind, stage, next) => NotifyStep(s, p, kind, stage, next, answers)
  }

  /** What a supervisor that has just taken the lock makes of the execution record it finds. */
  function Resume(s: State, p: Supervisor): State {
    if s.execution.Some? then
      var found := s.execution.value;
      if found.specDigest != p.specDigest then Exit(s)
      else if found.status != Finished then At(s, p.(record := found), Promote(Restarted))
      else if found.preflightFailed then At(s, p.(record := found), Notify(PreflightFailedEvent, Look, ThenExit))
      else if !EvidenceIntact(s, found) then Exit(s)
      else At(s, p.(record := found), Notify(FinishedEvent, Look, ThenExit))
    else if p.reconcileOnly then Exit(s)
    else At(s, p, Preflight)
  }

  /** `promote_receipt`, and what its callers do with a receipt that is missing, incomplete or rejected. */
  function PromoteStep(s: State, p: Supervisor, reason: Reason, answers: Answers): State {
    if s.receipt.None? || s.receipt.value.status != Finished then
      match reason
      case Restarted => At(s, p, Notify(InterruptedEvent, Look, ThenRejoin))
      case Rejoined(alive) =>
        if !alive then Exit(s)
        else if answers.expired then At(s, p, Notify(TimeoutEvent, Look, ThenRejoin))
        else At(s, p, Rejoin)
      case OwnRunner => At(s, p, SaveInterrupted)
    else if !Promotable(s, p.record) || !answers.ok then
      if reason == OwnRunner then At(s, p, SaveInterrupted) else Exit(s)
    else
      At(s, p.(record := p.record.(status := Finished, summary := s.receipt.value.summary, sealed := s.receipt)),
         SaveFinished(reason == OwnRunner))
  }

  /** The queue commands run, once one has ended this way. */
  function SendsAfter(s: State, kind: Kind, result: SendResult): map<Kind, seq<bool>> {
    if Ran(result) then s.sends[kind := SendsOf(s, kind) + [Zero(result)]] else s.sends
  }

  function NotifyStep(s: State, p: Supervisor, kind: Kind, stage: Stage, next: Next, answers: Answers): State {
    match stage
    case Look =>
      if kind in s.events then Continue(s, p, next)
      else if answers.send.RaisedBefore? then Raise(s, p, next)
      else At(s, p, Notify(kind, SavePending, next))
    case SavePending =>
      At(s.(events := s.events[kind := Pending]), p, Notify(kind, SaveAttempting, next))
    case SaveAttempting =>
      At(s.(events := s.events[kind := Attempting]), p, Notify(kind, Send, next))
    case Send =>
      var t := s.(sends := SendsAfter(s, kind, answers.send));
      if Raises(answers.send) then Raise(t, p, next) else At(t, p, Notify(kind, Ended(answers.send), next))
    case Ended(result) =>
      Continue(s.(events := s.events[kind := if result == ReturnedZero then Queued else Unknown]), p, next)
  }

  function Continue(s: State, p: Supervisor, next: Next): (t: State)
    ensures t == s.(holder := t.holder)
    ensures t.holder.Some? ==>
              var q := t.holder.value;
              q == p.(pc := q.pc) && ((next.ThenRejoin? && q.pc.Rejoin?) || (next.ThenWait? && q.pc.Wait?))
  {
    match next
    case ThenExit => Exit(s)
    case ThenRejoin => At(s, p, Rejoin)
    case ThenWait => At(s, p, Wait(true))
    case ThenReturn => Exit(s)
  }

  /** An exception out of a notification: caught while the supervisor attends to its own runner, else its end. */
  function Raise(s: State, p: Supervisor, next: Next): (t: State)
    ensures t == s.(holder := t.holder)
    ensures t.holder.Some? ==>
              t.holder.value == p.(pc := SaveInterrupted) && (next.ThenWait? || next.ThenReturn?)
  {
    if next.ThenWait? || next.ThenReturn? then At(s, p, SaveInterrupted) else Exit(s)
  }

  /** A runner's end, whatever its cause, releases its lock. */
  function RunnerExit(s: State, pid: Pid): State {
    s.(runners := s.runners - {pid}, runnerLock := if s.runnerLock == Some(pid) then None else s.runnerLock)
  }

  function RunnerAt(s: State, pid: Pid, r: Runner, pc: RunnerPc): State {
    s.(runners := s.runners[pid := r.(pc := pc)])
  }

  function ExecuteStep(s: State, pid: Pid, r: Runner, answers: Answers): State {
    match r.pc
    case ReadExecution =>
      if s.execution.None? || s.execution.value.specDigest != r.specDigest then RunnerExit(s, pid)
      else RunnerAt(s, pid, r, TakeLock)
    case TakeLock =>
      if s.runnerLock.Some? then RunnerExit(s, pid)
      else RunnerAt(s.(runnerLock := Some(pid)), pid, r, CheckReceipt)
    case CheckReceipt =>
      if s.receipt.Some? then RunnerExit(s, pid) else RunnerAt(s, pid, r, SaveReceipt)
    case SaveReceipt =>
      RunnerAt(s.(receipt := Some(Receipt(r.specDigest, Starting, NO_SUMMARY, 0))), pid, r, ObserveBefore)
    case ObserveBefore =>
      RunnerAt(s, pid, r, if answers.ok then StartCommand else SaveFailed)
    case StartCommand =>
      if answers.ok then RunnerAt(s.(commandsStarted := s.commandsStarted + 1), pid, r, SaveCommandRunning)
      else RunnerAt(s, pid, r, SaveFailed)
    case SaveCommandRunning =>
      RunnerAt(s.(receipt := Some(Receipt(r.specDigest, Running, NO_SUMMARY, 0))), pid, r, WaitCommand)
    case WaitCommand =>
      RunnerAt(s, pid, r, if answers.ok then SaveComplete(answers.summary, s.log) else SaveFailed)
    case SaveComplete(summary, logDigest) =>
      RunnerExit(s.(receipt := Some(Receipt(r.specDigest, Finished, summary, logDigest))), pid)
    case SaveFailed =>
      RunnerExit(s.(receipt := Some(Receipt(r.specDigest, Interrupted, NO_SUMMARY, 0))), pid)
  }

  /** The state after a sequence of actions, in the order they happened. */
  function Run(s: State, actions: seq<Action>): State {
    if actions == [] then s else Step(Run(s, actions[..|actions| - 1]), actions[|actions| - 1])
  }

  // ---------------------------------------------------------------- the invariants

  predicate HoldsLock(pc: RunnerPc) {
    !pc.ReadExecution? && !pc.TakeLock?
  }

  predicate HasReceipt(pc: RunnerPc) {
    HoldsLock(pc) && !pc.CheckReceipt? && !pc.SaveReceipt?
  }

  /** What is known of one runner: from its lock to the command. */
  ghost predicate RunnerInv(s: State, pid: Pid, r: Runner) {
    && pid < s.nextPid
    && (!r.pc.ReadExecution? ==> s.execution.Some? && s.execution.value.specDigest == r.specDigest)
    && (HoldsLock(r.pc) ==> s.runnerLock == Some(pid))
    && (r.pc.SaveReceipt? ==> s.receipt.None?)
    && (HasReceipt(r.pc) ==> s.receipt.Some? && s.receipt.value.status != Finished)
    && (r.pc.ObserveBefore? || r.pc.StartCommand? ==> s.commandsStarted == 0)
  }

  /** The command is started at most once, and only behind a receipt for the reserved spec. */
  ghost predicate CommandInv(s: State) {
    && (forall pid :: pid in s.runners ==> RunnerInv(s, pid, s.runners[pid]))
    && s.commandsStarted <= 1
    && (s.receipt.None? ==> s.commandsStarted == 0)
    && (s.receipt.Some? ==> s.execution.Some? && s.execution.value.specDigest == s.receipt.value.specDigest)
  }

  predicate BeforeReservation(pc: SupervisorPc) {
    pc.Preflight? || pc.SavePreflightFailure? || pc.SaveStarting?
  }

  predicate WithRecord(pc: SupervisorPc) {
    !pc.Open? && !pc.Notify? && !BeforeReservation(pc)
  }

  /** Does the supervisor come back to its record after this notification? */
  predicate ComesBack(pc: SupervisorPc) {
    pc.Notify? && !pc.next.ThenExit?
  }

  /** Past a finished record, or past an exception that may have come after one. */
  predicate Ending(pc: SupervisorPc) {
    pc.SaveInterrupted? || (pc.Notify? && pc.next.ThenReturn?)
  }

  /** A runner is launched at most once, behind an execution record whose spec never changes. */
  ghost predicate LaunchInv(s: State) {
    && s.runnersLaunched <= 1
    && (s.execution.None? ==> s.runnersLaunched == 0)
    && (s.holder.Some? ==>
          var p := s.holder.value;
          && (BeforeReservation(p.pc) ==> s.execution.None?)
          && (p.pc.Launch? ==> s.runnersLaunched == 0)
          && (WithRecord(p.pc) || ComesBack(p.pc) ==>
                && s.execution.Some? && !s.execution.value.preflightFailed
                && s.execution.value.specDigest == p.record.specDigest && !p.record.preflightFailed
                && (!Ending(p.pc) ==>
                      && s.execution.value.status != Finished
                      && (!p.pc.SaveFinished? ==> p.record.status != Finished))))
  }

  /** The record carries the receipt's own spec, exit code, observation, outcome and time, and its digest. */
  predicate Agrees(record: Execution, receipt: Option<Receipt>) {
    && receipt.Some? && receipt.value.status == Finished
    && record.specDigest == receipt.value.specDigest
    && record.summary == receipt.value.summary
    && record.sealed == receipt
  }

  ghost predicate RecordInv(s: State) {
    && (s.execution.Some? && s.execution.value.preflightFailed ==> s.execution.value.status == Finished)
    && (s.execution.Some? && s.execution.value.status == Finished && !s.execution.value.preflightFailed ==>
          Agrees(s.execution.value, s.receipt))
    && (s.holder.Some? && s.holder.value.pc.SaveFinished? ==>
          && s.holder.value.record.status == Finished
          && !s.holder.value.record.preflightFailed
          && Agrees(s.holder.value.record, s.receipt))
  }

  /** What a stored delivery says about the queue commands run for that event. */
  predicate Truthful(delivery: Option<Delivery>, sends: seq<bool>) {
    match delivery
    case None => sends == []
    case Some(Pending) => sends == []
    case Some(Attempting) => |sends| <= 1
    case Some(Queued) => sends == [true]
    case Some(Unknown) => sends == [] || sends == [false]
  }

  function DeliveryOf(s: State, kind: Kind): Option<Delivery> {
    if kind in s.events then Some(s.events[kind]) else None
  }

  predicate StageInv(stage: Stage, delivery: Option<Delivery>, sends: seq<bool>) {
    match stage
    case Look => true
    case SavePending => delivery == None
    case SaveAttempting => delivery == Some(Pending)
    case Send => delivery == Some(Attempting) && sends == []
    case Ended(result) =>
      && delivery == Some(Attempting)
      && !Raises(result)
      && sends == if result == NotStarted then [] else [result == ReturnedZero]
  }

  ghost predicate NotifyInv(s: State) {
    && (forall kind: Kind :: Truthful(DeliveryOf(s, kind), SendsOf(s, kind)))
    && (s.holder.Some? && s.holder.value.pc.Notify? ==>
          var pc := s.holder.value.pc;
          StageInv(pc.stage, DeliveryOf(s, pc.kind), SendsOf(s, pc.kind)))
  }

  ghost predicate Inv(s: State) {
    CommandInv(s) && LaunchInv(s) && RecordInv(s) && NotifyInv(s)
  }

  // ---------------------------------------------------------------- every step keeps them

  /** What a runner may rely on while another process takes a step. */
  lemma RunnerFrame(s: State, t: State, pid: Pid)
    requires pid in s.runners && RunnerInv(s, pid, s.runners[pid])
    requires pid in t.runners && t.runners[pid] == s.runners[pid]
    requires s.nextPid <= t.nextPid && t.runnerLock == s.runnerLock
    requires t.receipt == s.receipt && t.commandsStarted == s.commandsStarted
    requires s.execution.Some? ==> t.execution.Some? && t.execution.value.specDigest == s.execution.value.specDigest
    ensures RunnerInv(t, pid, t.runners[pid])
  {
  }

  lemma ResumeFrame(s: State, p: Supervisor)
    requires s.holder == Some(p)
    ensures var t := Resume(s, p);
      && t == s.(holder := t.holder)
      && (t.holder.Some? && t.holder.value.pc.Notify? ==> t.holder.value.pc.stage.Look?)
  {
  }

  lemma PromoteFrame(s: State, p: Supervisor, reason: Reason, answers: Answers)
    requires s.holder == Some(p)
    ensures var t := PromoteStep(s, p, reason, answers);
      && t == s.(holder := t.holder)
      && (t.holder.Some? && t.holder.value.pc.Notify? ==> t.holder.value.pc.stage.Look?)
  {
  }

  lemma NotifyFrame(s: State, p: Supervisor, kind: Kind, stage: Stage, next: Next, answers: Answers)
    requires s.holder == Some(p)
    ensures var t := NotifyStep(s, p, kind, stage, next, answers);
      && t == s.(holder := t.holder, events := t.events, sends := t.sends)
      && (t.holder.Some? ==>
            var q := t.holder.value;
            && q == p.(pc := q.pc)
            && ((q.pc.Notify? && q.pc.kind == kind && q.pc.next == next)
                || (next.ThenRejoin? && q.pc.Rejoin?)
                || (next.ThenWait? && q.pc.Wait?)
                || ((next.ThenWait? || next.ThenReturn?) && q.pc.SaveInterrupted?)))
  {
    hide Continue, Raise, SendsAfter;
  }

  /** The one write of each stage. */
  lemma NotifyWrites(s: State, p: Supervisor, kind: Kind, stage: Stage, next: Next, answers: Answers)
    ensures var t := NotifyStep(s, p, kind, stage, next, answers);
      && t.sends == (if stage.Send? then SendsAfter(s, kind, answers.send) else s.sends)
      && t.events == match stage {
           case SavePending => s.events[kind := Pending]
           case SaveAttempting => s.events[kind := Attempting]
           case Ended(result) => s.events[kind := if result == ReturnedZero then Queued else Unknown]
           case _ => s.events
         }
  {
    hide Continue, Raise, SendsAfter;
  }

  /** A notification touches its own event only. */
  lemma NotifyOnly(s: State, p: Supervisor, kind: Kind, stage: Stage, next: Next, answers: Answers, other: Kind)
    requires s.holder == Some(p) && other != kind
    ensures var t := NotifyStep(s, p, kind, stage, next, answers);
      DeliveryOf(t, other) == DeliveryOf(s, other) && SendsOf(t, other) == SendsOf(s, other)
  {
    NotifyWrites(s, p, kind, stage, next, answers);
    hide NotifyStep;
  }

  /** A supervisor's step leaves the receipt, the lock of the runner and its command alone. */
  lemma SuperviseFrame(s: State, p: Supervisor, answers: Answers)
    requires s.holder == Some(p) && LaunchInv(s)
    ensures var t := SuperviseStep(s, p, answers);
      && t.receipt == s.receipt && t.log == s.log && t.runnerLock == s.runnerLock
      && t.commandsStarted == s.commandsStarted
      && s.nextPid <= t.nextPid
      && (s.execution.Some? ==> t.execution.Some? && t.execution.value.specDigest == s.execution.value.specDigest)
      && (t.runners == s.runners
          || (t.runners == s.runners[s.nextPid := Runner(answers.specRead, ReadExecution)]
              && t.nextPid == s.nextPid + 1))
  {
    hide Resume, PromoteStep, NotifyStep;
    match p.pc
    case Open => ResumeFrame(s, p);
    case Promote(reason) => PromoteFrame(s, p, reason, answers);
    case Notify(kind, stage, next) => NotifyFrame(s, p, kind, stage, next, answers);
    case _ =>
  }

  lemma SuperviseKeepsCommand(s: State, p: Supervisor, answers: Answers)
    requires s.holder == Some(p) && CommandInv(s) && LaunchInv(s)
    ensures CommandInv(SuperviseStep(s, p, answers))
  {
    var t := SuperviseStep(s, p, answers);
    SuperviseFrame(s, p, answers);
    hide SuperviseStep;
    forall pid | pid in t.runners
      ensures RunnerInv(t, pid, t.runners[pid])
    {
      if pid != s.nextPid || pid in s.runners {
        RunnerFrame(s, t, pid);
      }
    }
  }

  /** The lock keeps every other runner away from the receipt and the command. */
  lemma ExecuteKeepsOthers(s: State, pid: Pid, r: Runner, answers: Answers, other: Pid)
    requires CommandInv(s) && pid in s.runners && s.runners[pid] == r
    requires other in s.runners && other != pid
    ensures var t := ExecuteStep(s, pid, r, answers);
      other in t.runners && RunnerInv(t, other, t.runners[other])
  {
    assert RunnerInv(s, other, s.runners[other]);
    assert RunnerInv(s, pid, r);
  }

  lemma ExecuteKeepsOwn(s: State, pid: Pid, r: Runner, answers: Answers)
    requires CommandInv(s) && pid in s.runners && s.runners[pid] == r
    ensures var t := ExecuteStep(s, pid, r, answers);
      && (pid in t.runners ==> RunnerInv(t, pid, t.runners[pid]))
      && t.runners.Keys <= s.runners.Keys
      && t.commandsStarted <= 1
      && (t.receipt.None? ==> t.commandsStarted == 0)
      && (t.receipt.Some? ==> t.execution.Some? && t.execution.value.specDigest == t.receipt.value.specDigest)
  {
    assert RunnerInv(s, pid, r);
  }

  lemma ExecuteKeepsCommand(s: State, pid: Pid, r: Runner, answers: Answers)
    requires CommandInv(s) && pid in s.runners && s.runners[pid] == r
    ensures CommandInv(ExecuteStep(s, pid, r, answers))
  {
    var t := ExecuteStep(s, pid, r, answers);
    ExecuteKeepsOwn(s, pid, r, answers);
    forall other | other in t.runners
      ensures RunnerInv(t, other, t.runners[other])
    {
      if other != pid {
        ExecuteKeepsOthers(s, pid, r, answers, other);
      }
    }
  }

  lemma StepKeepsCommand(s: State, a: Action)
    requires CommandInv(s) && LaunchInv(s)
    ensures CommandInv(Step(s, a))
  {
    hide SuperviseStep, ExecuteStep, LaunchInv;
    if a.SupervisorStep? && s.holder.Some? {
      SuperviseKeepsCommand(s, s.holder.value, a.answers);
    } else if a.RunnerStep? && a.pid in s.runners {
      ExecuteKeepsCommand(s, a.pid, s.runners[a.pid], a.runnerAnswers);
    } else if !a.SupervisorStep? && !a.RunnerStep? {
      var t := Step(s, a);
      forall pid | pid in t.runners
        ensures RunnerInv(t, pid, t.runners[pid])
      {
        assert pid in s.runners ==> RunnerInv(s, pid, s.runners[pid]);
      }
    }
  }

  /** A runner's step leaves the supervisor, its record and its events alone. */
  lemma ExecuteFrame(s: State, pid: Pid, r: Runner, answers: Answers)
    requires CommandInv(s) && pid in s.runners && s.runners[pid] == r
    ensures var t := ExecuteStep(s, pid, r, answers);
      && t.(receipt := s.receipt, runners := s.runners, runnerLock := s.runnerLock,
            commandsStarted := s.commandsStarted) == s
      && (t.receipt == s.receipt || s.receipt.None? || s.receipt.value.status != Finished)
      && (s.receipt.Some? && s.receipt.value.status == Finished ==> t.commandsStarted == s.commandsStarted)
  {
    assert RunnerInv(s, pid, r);
  }

  ghost predicate HolderInv(s: State) {
    LaunchInv(s) && RecordInv(s)
  }

  lemma ResumeKeepsLaunch(s: State, p: Supervisor)
    requires s.holder == Some(p) && p.pc.Open? && LaunchInv(s) && RecordInv(s)
    ensures LaunchInv(Resume(s, p))
  {
    hide Agrees, EvidenceIntact;
  }

  lemma ResumeKeepsRecord(s: State, p: Supervisor)
    requires s.holder == Some(p) && p.pc.Open? && RecordInv(s)
    ensures RecordInv(Resume(s, p))
  {
    hide Agrees, EvidenceIntact;
  }

  lemma ResumeKeepsHolder(s: State, p: Supervisor)
    requires s.holder == Some(p) && p.pc.Open? && HolderInv(s)
    ensures HolderInv(Resume(s, p))
  {
    ResumeKeepsLaunch(s, p);
    ResumeKeepsRecord(s, p);
    hide Resume;
  }

  lemma PromoteKeepsHolder(s: State, p: Supervisor, reason: Reason, answers: Answers)
    requires s.holder == Some(p) && p.pc.Promote? && HolderInv(s)
    ensures HolderInv(PromoteStep(s, p, reason, answers))
  {
    PromoteKeepsLaunch(s, p, reason, answers);
    PromoteKeepsRecord(s, p, reason, answers);
    hide PromoteStep;
  }

  lemma PromoteKeepsLaunch(s: State, p: Supervisor, reason: Reason, answers: Answers)
    requires s.holder == Some(p) && p.pc.Promote? && LaunchInv(s)
    ensures LaunchInv(PromoteStep(s, p, reason, answers))
  {
  }

  lemma PromoteKeepsRecord(s: State, p: Supervisor, reason: Reason, answers: Answers)
    requires s.holder == Some(p) && p.pc.Promote? && HolderInv(s)
    ensures RecordInv(PromoteStep(s, p, reason, answers))
  {
  }

  lemma NotifyKeepsHolder(s: State, p: Supervisor, kind: Kind, stage: Stage, next: Next, answers: Answers)
    requires s.holder == Some(p) && p.pc == Notify(kind, stage, next) && HolderInv(s)
    ensures HolderInv(NotifyStep(s, p, kind, stage, next, answers))
  {
    NotifyFrame(s, p, kind, stage, next, answers);
    hide NotifyStep;
  }

  /** The steps that are not `Open`, `Promote` or a notification. */
  lemma PlainKeepsLaunch(s: State, p: Supervisor, answers: Answers)
    requires s.holder == Some(p) && HolderInv(s)
    requires !p.pc.Open? && !p.pc.Promote? && !p.pc.Notify?
    ensures LaunchInv(SuperviseStep(s, p, answers))
  {
    hide Agrees;
  }

  lemma PlainKeepsRecord(s: State, p: Supervisor, answers: Answers)
    requires s.holder == Some(p) && HolderInv(s)
    requires !p.pc.Open? && !p.pc.Promote? && !p.pc.Notify?
    ensures RecordInv(SuperviseStep(s, p, answers))
  {
    hide Agrees;
  }

  lemma SuperviseKeepsHolder(s: State, p: Supervisor, answers: Answers)
    requires s.holder == Some(p) && HolderInv(s)
    ensures HolderInv(SuperviseStep(s, p, answers))
  {
    hide Resume, PromoteStep, NotifyStep, LaunchInv, RecordInv;
    match p.pc
    case Open => ResumeKeepsHolder(s, p);
    case Promote(reason) => PromoteKeepsHolder(s, p, reason, answers);
    case Notify(kind, stage, next) => NotifyKeepsHolder(s, p, kind, stage, next, answers);
    case _ =>
      PlainKeepsLaunch(s, p, answers);
      PlainKeepsRecord(s, p, answers);
  }

  /** Whatever another process does, as long as a finished receipt stays, the supervisor's invariants stay. */
  lemma HolderFrame(s: State, t: State)
    requires HolderInv(s)
    requires t.execution == s.execution && t.runnersLaunched == s.runnersLaunched
    requires t.receipt == s.receipt || s.receipt.None? || s.receipt.value.status != Finished
    requires t.holder == s.holder || t.holder.None?
    ensures HolderInv(t)
  {
  }

  lemma StepKeepsHolder(s: State, a: Action)
    requires CommandInv(s) && HolderInv(s)
    ensures HolderInv(Step(s, a))
  {
    hide CommandInv, SuperviseStep, ExecuteStep;
    if a.SupervisorStep? && s.holder.Some? {
      SuperviseKeepsHolder(s, s.holder.value, a.answers);
    } else if a.RunnerStep? && a.pid in s.runners {
      ExecuteFrame(s, a.pid, s.runners[a.pid], a.runnerAnswers);
      HolderFrame(s, Step(s, a));
    } else if !a.StartSupervisor? && !a.StartNotifier? {
      HolderFrame(s, Step(s, a));
    }
  }

  /** Outside a notification no event changes, and a notification begins by looking for its event. */
  lemma SuperviseNotifies(s: State, p: Supervisor, answers: Answers)
    requires s.holder == Some(p) && !p.pc.Notify?
    ensures var t := SuperviseStep(s, p, answers);
      && t.events == s.events && t.sends == s.sends
      && (t.holder.Some? && t.holder.value.pc.Notify? ==> t.holder.value.pc.stage.Look?)
  {
    hide Resume, PromoteStep;
    match p.pc
    case Open => ResumeFrame(s, p);
    case Promote(reason) => PromoteFrame(s, p, reason, answers);
    case _ =>
  }

  lemma SendingIsTruthful(s: State, p: Supervisor, kind: Kind, stage: Stage, next: Next, answers: Answers)
    requires s.holder == Some(p) && p.pc == Notify(kind, stage, next)
    requires Truthful(DeliveryOf(s, kind), SendsOf(s, kind))
    requires StageInv(stage, DeliveryOf(s, kind), SendsOf(s, kind))
    ensures var t := NotifyStep(s, p, kind, stage, next, answers);
      Truthful(DeliveryOf(t, kind), SendsOf(t, kind))
  {
    NotifyWrites(s, p, kind, stage, next, answers);
    hide NotifyStep;
    var t := NotifyStep(s, p, kind, stage, next, answers);
    var was, now := SendsOf(s, kind), SendsOf(t, kind);
    match stage
    case Look =>
    case SavePending => assert DeliveryOf(t, kind) == Some(Pending) && now == was;
    case SaveAttempting => assert DeliveryOf(t, kind) == Some(Attempting) && now == was;
    case Send => assert DeliveryOf(t, kind) == Some(Attempting) && |now| <= 1;
    case Ended(result) =>
      assert DeliveryOf(t, kind) == Some(if result == ReturnedZero then Queued else Unknown) && now == was;
  }

  lemma SendingKeepsStage(s: State, p: Supervisor, kind: Kind, stage: Stage, next: Next, answers: Answers)
    requires s.holder == Some(p) && p.pc == Notify(kind, stage, next)
    requires StageInv(stage, DeliveryOf(s, kind), SendsOf(s, kind))
    requires Truthful(DeliveryOf(s, kind), SendsOf(s, kind))
    ensures var t := NotifyStep(s, p, kind, stage, next, answers);
      t.holder.Some? && t.holder.value.pc.Notify? ==>
        && t.holder.value.pc.kind == kind
        && StageInv(t.holder.value.pc.stage, DeliveryOf(t, kind), SendsOf(t, kind))
  {
    hide Continue, Raise;
  }

  lemma SameEvents(s: State, t: State)
    requires NotifyInv(s) && t.events == s.events && t.sends == s.sends
    requires t.holder == s.holder || t.holder.None? || !t.holder.value.pc.Notify? || t.holder.value.pc.stage.Look?
    ensures NotifyInv(t)
  {
    forall kind: Kind
      ensures Truthful(DeliveryOf(t, kind), SendsOf(t, kind))
    {
      assert DeliveryOf(t, kind) == DeliveryOf(s, kind) && SendsOf(t, kind) == SendsOf(s, kind);
    }
  }

  lemma SuperviseKeepsNotify(s: State, p: Supervisor, answers: Answers)
    requires s.holder == Some(p) && NotifyInv(s)
    ensures NotifyInv(SuperviseStep(s, p, answers))
  {
    var t := SuperviseStep(s, p, answers);
    match p.pc
    case Notify(kind, stage, next) =>
      assert t == NotifyStep(s, p, kind, stage, next, answers);
      assert Truthful(DeliveryOf(s, kind), SendsOf(s, kind));
      SendingIsTruthful(s, p, kind, stage, next, answers);
      SendingKeepsStage(s, p, kind, stage, next, answers);
      hide SuperviseStep, NotifyStep, Truthful, StageInv, DeliveryOf, SendsOf;
      forall other | other != kind
        ensures Truthful(DeliveryOf(t, other), SendsOf(t, other))
      {
        NotifyOnly(s, p, kind, stage, next, answers, other);
        assert Truthful(DeliveryOf(s, other), SendsOf(s, other));
      }
    case _ =>
      SuperviseNotifies(s, p, answers);
      SameEvents(s, t);
  }

  lemma StepKeepsNotify(s: State, a: Action)
    requires CommandInv(s) && NotifyInv(s)
    ensures NotifyInv(Step(s, a))
  {
    hide CommandInv, SuperviseStep, Truthful;
    if a.SupervisorStep? && s.holder.Some? {
      SuperviseKeepsNotify(s, s.holder.value, a.answers);
    } else {
      if a.RunnerStep? && a.pid in s.runners {
        ExecuteFrame(s, a.pid, s.runners[a.pid], a.runnerAnswers);
        hide ExecuteStep;
      }
      SameEvents(s, Step(s, a));
    }
  }

  lemma StepKeepsInv(s: State, a: Action)
    requires Inv(s)
    ensures Inv(Step(s, a))
  {
    StepKeepsCommand(s, a);
    StepKeepsHolder(s, a);
    StepKeepsNotify(s, a);
    hide Step, CommandInv, LaunchInv, RecordInv, NotifyInv;
  }

  lemma {:induction false} RunKeepsInv(s: State, actions: seq<Action>)
    requires Inv(s)
    ensures Inv(Run(s, actions))
  {
    if actions != [] {
      var before := actions[..|actions| - 1];
      RunKeepsInv(s, before);
      hide Inv, Step;
      StepKeepsInv(Run(s, before), actions[|actions| - 1]);
    }
  }

  // ---------------------------------------------------------------- safety over whole runs

  /** Whatever crashes, reboots, restarts and stray runners happen: one command, one launched runner. */
  lemma AtMostOnce(actions: seq<Action>)
    ensures var s := Run(Initial(), actions); s.commandsStarted <= 1 && s.runnersLaunched <= 1
  {
    RunKeepsInv(Initial(), actions);
  }

  /** A finished record that is not a failed preflight agrees with a finished receipt. */
  lemma FinishedAgrees(actions: seq<Action>)
    ensures var s := Run(Initial(), actions);
      s.execution.Some? && s.execution.value.status == Finished && !s.execution.value.preflightFailed ==>
        var record := s.execution.value;
        && s.receipt.Some? && s.receipt.value.status == Finished
        && record.specDigest == s.receipt.value.specDigest && record.summary == s.receipt.value.summary
        && record.sealed == s.receipt
  {
    RunKeepsInv(Initial(), actions);
  }

  /** The queue command of an event runs at most once, and its stored delivery tells the truth. */
  lemma NotificationTruth(actions: seq<Action>, kind: Kind)
    ensures var s := Run(Initial(), actions);
      var delivery, sends := DeliveryOf(s, kind), SendsOf(s, kind);
      && |sends| <= 1
      && (delivery == None || delivery == Some(Pending) ==> sends == [])
      && (delivery == Some(Queued) ==> sends == [true])
      && (delivery == Some(Unknown) ==> sends == [] || sends == [false])
  {
    RunKeepsInv(Initial(), actions);
    var s := Run(Initial(), actions);
    assert Truthful(DeliveryOf(s, kind), SendsOf(s, kind));
  }

  /** What no later step takes back. */
  ghost predicate Kept(s: State, t: State) {
    && (s.execution.Some? ==> t.execution.Some? && t.execution.value.specDigest == s.execution.value.specDigest)
    && (s.execution.Some? && s.execution.value.preflightFailed ==> t.execution == s.execution)
    && (s.receipt.Some? && s.receipt.value.status == Finished ==>
          t.receipt == s.receipt && t.commandsStarted == s.commandsStarted)
    && s.events.Keys <= t.events.Keys
  }

  predicate IsFinished(s: State) {
    s.execution.Some? && s.execution.value.status == Finished
  }

  /** An exception has been caught, and its record is about to be saved as interrupted. */
  predicate Overwriting(s: State) {
    s.holder.Some? && s.holder.value.pc.SaveInterrupted?
  }

  lemma SuperviseKept(s: State, p: Supervisor, answers: Answers)
    requires s.holder == Some(p) && HolderInv(s)
    ensures Kept(s, SuperviseStep(s, p, answers))
    ensures IsFinished(s) && !p.pc.SaveInterrupted? ==> SuperviseStep(s, p, answers).execution == s.execution
  {
    SuperviseFrame(s, p, answers);
    hide Resume, PromoteStep, NotifyStep;
    match p.pc
    case Open => ResumeFrame(s, p);
    case Promote(reason) => PromoteFrame(s, p, reason, answers);
    case Notify(kind, stage, next) =>
      NotifyFrame(s, p, kind, stage, next, answers);
      NotifyKeepsEvents(s, p, kind, stage, next, answers);
    case _ =>
  }

  lemma NotifyKeepsEvents(s: State, p: Supervisor, kind: Kind, stage: Stage, next: Next, answers: Answers)
    ensures s.events.Keys <= NotifyStep(s, p, kind, stage, next, answers).events.Keys
  {
    hide Continue, Raise;
  }

  lemma StepKept(s: State, a: Action)
    requires CommandInv(s) && HolderInv(s)
    ensures Kept(s, Step(s, a))
    ensures IsFinished(s) && !Overwriting(s) ==> Step(s, a).execution == s.execution
  {
    hide SuperviseStep, ExecuteStep, CommandInv, HolderInv;
    if a.SupervisorStep? && s.holder.Some? {
      SuperviseKept(s, s.holder.value, a.answers);
    } else if a.RunnerStep? && a.pid in s.runners {
      ExecuteFrame(s, a.pid, s.runners[a.pid], a.runnerAnswers);
    }
  }

  /**
   * Over every continuation of every run the spec digest of the directory, the record of a failed
   * preflight, a finished receipt (with the number of commands started) and the events stay.
   */
  lemma {:induction false} EvidenceIsFinal(s: State, actions: seq<Action>)
    requires Inv(s)
    ensures Kept(s, Run(s, actions))
  {
    if actions != [] {
      var before := actions[..|actions| - 1];
      EvidenceIsFinal(s, before);
      RunKeepsInv(s, before);
      StepKept(Run(s, before), actions[|actions| - 1]);
      hide Step;
    }
  }

  // ---------------------------------------------------------------- when a finished record stays

  /** The notification of its own runner's finish is under way, and may still raise. */
  predicate MayRaise(s: State) {
    && s.holder.Some? && s.holder.value.pc.Notify? && s.holder.value.pc.next.ThenReturn?
    && !s.holder.value.pc.stage.Ended?
    && (s.holder.value.pc.stage.Look? ==> s.holder.value.pc.kind !in s.events)
  }

  predicate Vulnerable(s: State) {
    Overwriting(s) || MayRaise(s)
  }

  predicate SendRaises(a: Action) {
    a.SupervisorStep? && Raises(a.answers.send)
  }

  lemma ResumeSafe(s: State, p: Supervisor)
    requires s.holder == Some(p) && IsFinished(s)
    ensures !Vulnerable(Resume(s, p))
  {
  }

  lemma NotifySafe(s: State, p: Supervisor, kind: Kind, stage: Stage, next: Next, answers: Answers)
    requires s.holder == Some(p) && p.pc == Notify(kind, stage, next) && (next.ThenExit? || next.ThenReturn?)
    ensures var t := NotifyStep(s, p, kind, stage, next, answers);
      && (!MayRaise(s) ==> !Vulnerable(t))
      && (!Raises(answers.send) ==> !Overwriting(t))
  {
  }

  /** A finished record that is not in danger never is again; and without an exception it is not overwritten. */
  lemma SuperviseSafe(s: State, p: Supervisor, answers: Answers)
    requires s.holder == Some(p) && HolderInv(s) && IsFinished(s) && !Overwriting(s)
    ensures var t := SuperviseStep(s, p, answers);
      && (!Vulnerable(s) ==> !Vulnerable(t))
      && (!Raises(answers.send) ==> !Overwriting(t))
  {
    hide Resume, PromoteStep, NotifyStep, RecordInv;
    match p.pc
    case Open => ResumeSafe(s, p);
    case Notify(kind, stage, next) => NotifySafe(s, p, kind, stage, next, answers);
    case _ =>
  }

  lemma StepSafe(s: State, a: Action)
    requires CommandInv(s) && HolderInv(s) && IsFinished(s) && !Overwriting(s)
    ensures !Vulnerable(s) ==> !Vulnerable(Step(s, a))
    ensures !SendRaises(a) ==> !Overwriting(Step(s, a))
  {
    hide SuperviseStep, ExecuteStep, CommandInv, HolderInv;
    if a.SupervisorStep? && s.holder.Some? {
      SuperviseSafe(s, s.holder.value, a.answers);
    } else if a.RunnerStep? && a.pid in s.runners {
      ExecuteFrame(s, a.pid, s.runners[a.pid], a.runnerAnswers);
    }
  }

  /** Without an exception out of a notification a finished record stays, over every continuation of every run. */
  lemma {:induction false} FinishedIsFinal(s: State, actions: seq<Action>)
    requires Inv(s) && IsFinished(s) && !Overwriting(s)
    requires forall a :: a in actions ==> !SendRaises(a)
    ensures Run(s, actions).execution == s.execution && !Overwriting(Run(s, actions))
  {
    if actions != [] {
      var before, last := actions[..|actions| - 1], actions[|actions| - 1];
      assert last in actions;
      FinishedIsFinal(s, before);
      RunKeepsInv(s, before);
      hide Step, CommandInv, NotifyInv, LaunchInv, RecordInv, Overwriting;
      StepKept(Run(s, before), last);
      StepSafe(Run(s, before), last);
    }
  }

  lemma {:induction false} OutOfDanger(s: State, actions: seq<Action>)
    requires Inv(s) && IsFinished(s) && !Vulnerable(s)
    ensures Run(s, actions).execution == s.execution && !Vulnerable(Run(s, actions))
  {
    if actions != [] {
      var before, last := actions[..|actions| - 1], actions[|actions| - 1];
      OutOfDanger(s, before);
      RunKeepsInv(s, before);
      hide Step, CommandInv, NotifyInv, LaunchInv, RecordInv, Overwriting, MayRaise;
      StepKept(Run(s, before), last);
      StepSafe(Run(s, before), last);
    }
  }

  lemma Overwritten(s: State, answers: Answers)
    requires s.execution.Some? && Overwriting(s)
    ensures var t := Step(s, SupervisorStep(answers));
      t.execution.Some? && t.execution.value.status == Interrupted
  {
  }

  /** The supervisor's steps to an exception after the queue command, and to the overwritten record. */
  lemma {:induction false} RaisingOverwrites(s: State, raising: Answers) returns (actions: seq<Action>)
    requires s.execution.Some? && Vulnerable(s) && raising.send.RaisedAfter?
    ensures var t := Run(s, actions); t.execution.Some? && t.execution.value.status == Interrupted
    decreases if Overwriting(s) then 0 else match s.holder.value.pc.stage
              case Look => 4 case SavePending => 3 case SaveAttempting => 2 case Send => 1 case Ended(_) => 0
  {
    var a := SupervisorStep(raising);
    var t := Step(s, a);
    if Overwriting(s) {
      Overwritten(s, raising);
      actions := [a];
      RunOne(s, a);
    } else {
      var rest := RaisingOverwrites(t, raising);
      actions := [a] + rest;
      RunOne(s, a);
      RunConcat(s, [a], rest);
    }
  }

  lemma RunAppend(s: State, actions: seq<Action>, a: Action)
    ensures Run(s, actions + [a]) == Step(Run(s, actions), a)
  {
    assert (actions + [a])[..|actions|] == actions;
  }

  lemma {:induction false} RunConcat(s: State, first: seq<Action>, second: seq<Action>)
    ensures Run(s, first + second) == Run(Run(s, first), second)
  {
    if second == [] {
      assert first + second == first;
    } else {
      var before, last := second[..|second| - 1], second[|second| - 1];
      assert first + second == (first + before) + [last];
      RunAppend(s, first + before, last);
      RunConcat(s, first, before);
    }
  }

  lemma RunOne(s: State, a: Action)
    ensures Run(s, [a]) == Step(s, a)
  {
    assert [a][..0] == [] && Run(s, []) == s;
  }

  /**
   * A finished record stays over every continuation exactly when no exception can still come, or has come,
   * out of the notification by the supervisor that waited for its own runner.
   */
  lemma FinishedStaysExactly(s: State)
    requires Inv(s) && IsFinished(s)
    ensures (forall actions :: Run(s, actions).execution == s.execution) <==> !Vulnerable(s)
  {
    if Vulnerable(s) {
      var raising := Answers(true, false, RaisedAfter(true), 0, NO_SUMMARY);
      var actions := RaisingOverwrites(s, raising);
      assert Run(s, actions).execution != s.execution;
    } else {
      forall actions: seq<Action>
        ensures Run(s, actions).execution == s.execution
      {
        OutOfDanger(s, actions);
      }
    }
  }

  // ---------------------------------------------------------------- recovery

  /** The receipt is finished and the log is still the one it digests. */
  ghost predicate Recoverable(s: State) {
    && s.execution.Some? && !s.execution.value.preflightFailed
    && s.receipt.Some? && s.receipt.value.status == Finished && s.receipt.value.logDigest == s.log
  }

  /** The record is finished, and the finished event is on disk. */
  ghost predicate Recovered(s: State) {
    && s.execution.Some? && s.execution.value.status == Finished && !s.execution.value.preflightFailed
    && FinishedEvent in s.events
  }

  /**
   * Anything but the death of the supervisor, a write to the log, a rejected observation, or an exception
   * that keeps a notification from being saved.
   */
  predicate Undisturbed(a: Action) {
    match a
    case CrashSupervisor => false
    case Reboot => false
    case WriteLog => false
    case SupervisorStep(answers) => answers.ok && !answers.send.RaisedBefore?
    case _ => true
  }

  function SupervisorSteps(actions: seq<Action>): nat {
    if actions == [] then 0
    else SupervisorSteps(actions[..|actions| - 1]) + if actions[|actions| - 1].SupervisorStep? then 1 else 0
  }

  /** A supervisor from the launch of its own runner to the end of its wait for it. */
  predicate OwnPhase(pc: SupervisorPc) {
    || pc.Launch? || pc.SaveRunning? || pc.Wait? || pc == Promote(OwnRunner) || pc == SaveFinished(true)
    || pc.SaveInterrupted? || (pc.Notify? && (pc.next.ThenWait? || pc.next.ThenReturn?))
  }

  /** A supervisor that found a record launches nothing. */
  predicate NoLaunch(s: State) {
    s.holder.Some? ==> !OwnPhase(s.holder.value.pc) && !BeforeReservation(s.holder.value.pc)
  }

  /** How far the supervisor still has to go: the number of its steps until the finished event is saved. */
  ghost predicate Approaching(s: State, p: Supervisor, left: nat)
    requires s.execution.Some?
  {
    match p.pc
    case Open => left >= 5 && p.specDigest == s.execution.value.specDigest
    case Promote(reason) => left >= 4 && reason == Restarted
    case SaveFinished(_) => left >= 3
    case Notify(kind, stage, _) =>
      && kind == FinishedEvent && s.execution.value.status == Finished
      && ((stage == Look && left >= 2) || (stage == SavePending && left >= 1))
    case _ => false
  }

  ghost predicate OnTrack(s: State, left: nat) {
    && Recoverable(s)
    && NoLaunch(s)
    && (Recovered(s) || (s.holder.Some? && Approaching(s, s.holder.value, left)))
  }

  lemma SuperviseLaunchesNothing(s: State, p: Supervisor, answers: Answers)
    requires s.holder == Some(p) && s.execution.Some? && NoLaunch(s) && LaunchInv(s)
    ensures var t := SuperviseStep(s, p, answers);
      && NoLaunch(t) && t.runnersLaunched == s.runnersLaunched
      && t.execution.Some? && (!s.execution.value.preflightFailed ==> !t.execution.value.preflightFailed)
  {
    hide PromoteStep, NotifyStep;
    match p.pc
    case Promote(reason) => PromoteLaunchesNothing(s, p, reason, answers);
    case Notify(kind, stage, next) => NotifyFrame(s, p, kind, stage, next, answers);
    case _ =>
  }

  lemma PromoteLaunchesNothing(s: State, p: Supervisor, reason: Reason, answers: Answers)
    requires s.holder == Some(p) && reason != OwnRunner
    ensures var t := PromoteStep(s, p, reason, answers);
      NoLaunch(t) && t.runnersLaunched == s.runnersLaunched && t.execution == s.execution
  {
  }

  lemma ResumeApproaches(s: State, p: Supervisor, left: nat)
    requires CommandInv(s) && RecordInv(s) && s.holder == Some(p) && Recoverable(s)
    requires p.pc.Open? && Approaching(s, p, left)
    ensures var t := Resume(s, p); t.holder.Some? && Approaching(t, t.holder.value, left - 1)
  {
  }

  lemma PromoteApproaches(s: State, p: Supervisor, reason: Reason, answers: Answers, left: nat)
    requires CommandInv(s) && LaunchInv(s) && s.holder == Some(p) && Recoverable(s) && answers.ok
    requires p.pc == Promote(reason) && Approaching(s, p, left)
    ensures var t := PromoteStep(s, p, reason, answers);
      t.holder.Some? && Approaching(t, t.holder.value, left - 1)
  {
  }

  lemma NotifyApproaches(s: State, p: Supervisor, kind: Kind, stage: Stage, next: Next, answers: Answers, left: nat)
    requires s.holder == Some(p) && Recoverable(s) && !Recovered(s) && !answers.send.RaisedBefore?
    requires p.pc == Notify(kind, stage, next) && Approaching(s, p, left)
    ensures var t := NotifyStep(s, p, kind, stage, next, answers);
      Recovered(t) || (t.holder.Some? && t.execution == s.execution && Approaching(t, t.holder.value, left - 1))
  {
  }

  lemma SuperviseApproaches(s: State, p: Supervisor, answers: Answers, left: nat)
    requires CommandInv(s) && HolderInv(s) && s.holder == Some(p) && Recoverable(s) && !Recovered(s)
    requires answers.ok && !answers.send.RaisedBefore?
    requires Approaching(s, p, left)
    ensures var t := SuperviseStep(s, p, answers);
      && t.execution.Some? && left > 0
      && (Recovered(t) || (t.holder.Some? && Approaching(t, t.holder.value, left - 1)))
  {
    hide Resume, PromoteStep, NotifyStep;
    match p.pc
    case Open => ResumeFrame(s, p); ResumeApproaches(s, p, left);
    case Promote(reason) => PromoteFrame(s, p, reason, answers); PromoteApproaches(s, p, reason, answers, left);
    case Notify(kind, stage, next) =>
      NotifyFrame(s, p, kind, stage, next, answers);
      NotifyApproaches(s, p, kind, stage, next, answers, left);
    case _ =>
  }

  lemma StepOnTrack(s: State, a: Action, left: nat)
    requires Inv(s) && OnTrack(s, left) && Undisturbed(a)
    ensures OnTrack(Step(s, a), if a.SupervisorStep? && left > 0 then left - 1 else left)
    ensures Step(s, a).runnersLaunched == s.runnersLaunched
  {
    var t := Step(s, a);
    StepKept(s, a);
    hide SuperviseStep, ExecuteStep, CommandInv, LaunchInv, RecordInv, NotifyInv;
    if a.SupervisorStep? && s.holder.Some? {
      var p := s.holder.value;
      SuperviseLaunchesNothing(s, p, a.answers);
      SuperviseFrame(s, p, a.answers);
      if !Recovered(s) {
        SuperviseApproaches(s, p, a.answers, left);
      }
    } else if a.RunnerStep? && a.pid in s.runners {
      ExecuteFrame(s, a.pid, s.runners[a.pid], a.runnerAnswers);
    }
  }

  function Remaining(left: nat, taken: nat): nat {
    if taken < left then left - taken else 0
  }

  lemma {:induction false} RunOnTrack(s: State, actions: seq<Action>, left: nat)
    requires Inv(s) && OnTrack(s, left) && forall a :: a in actions ==> Undisturbed(a)
    ensures OnTrack(Run(s, actions), Remaining(left, SupervisorSteps(actions)))
    ensures Run(s, actions).runnersLaunched == s.runnersLaunched
  {
    hide Step, OnTrack, Inv;
    if actions != [] {
      var before, last := actions[..|actions| - 1], actions[|actions| - 1];
      assert last in actions;
      RunOnTrack(s, before, left);
      RunKeepsInv(s, before);
      StepOnTrack(Run(s, before), last, Remaining(left, SupervisorSteps(before)));
    }
  }

  /**
   * Recovery. From any reachable state without a supervisor in which the receipt is finished and the log
   * unchanged, a supervisor for the same spec that takes five steps undisturbed, whatever runners and
   * other supervisors do in between, leaves the record finished and agreeing with the receipt, and the
   * finished event on disk. No runner is launched and no command is started.
   */
  lemma Recovery(past: seq<Action>, reconcileOnly: bool, actions: seq<Action>)
    requires var s := Run(Initial(), past); Recoverable(s) && s.holder.None?
    requires forall a :: a in actions ==> Undisturbed(a)
    requires SupervisorSteps(actions) >= 5
    ensures var s := Run(Initial(), past);
      var t := Run(Step(s, StartSupervisor(s.execution.value.specDigest, reconcileOnly)), actions);
      && Recovered(t) && Agrees(t.execution.value, s.receipt)
      && t.runnersLaunched == s.runnersLaunched && t.commandsStarted == s.commandsStarted
  {
    RunKeepsInv(Initial(), past);
    var s := Run(Initial(), past);
    var start := StartSupervisor(s.execution.value.specDigest, reconcileOnly);
    StepKeepsInv(s, start);
    StepKept(s, start);
    var u := Step(s, start);
    assert OnTrack(u, 5);
    assert u.runnersLaunched == s.runnersLaunched && u.receipt == s.receipt;
    hide Step, Run;
    RunOnTrack(u, actions, 5);
    EvidenceIsFinal(u, actions);
    RunKeepsInv(u, actions);
    hide OnTrack, CommandInv, LaunchInv, NotifyInv, Approaching, SupervisorSteps;
    assert OnTrack(Run(u, actions), 0);
    OnTrackZero(Run(u, actions));
  }

  lemma OnTrackZero(s: State)
    requires OnTrack(s, 0)
    ensures Recovered(s)
  {
  }

  // ---------------------------------------------------------------- the log behind a receipt

  /** The receipt is finished with this summary and log digest, or nothing else can become of it. */
  ghost predicate Sealing(s: State, summary: Summary, log: nat) {
    && s.receipt.Some?
    && (if s.receipt.value.status == Finished then
          s.receipt.value.summary == summary && s.receipt.value.logDigest == log
        else forall p :: p in s.runners && HasReceipt(s.runners[p].pc) ==>
               s.runners[p].pc == SaveComplete(summary, log))
  }

  lemma ExecuteKeepsSealing(s: State, pid: Pid, r: Runner, answers: Answers, summary: Summary, log: nat)
    requires CommandInv(s) && pid in s.runners && s.runners[pid] == r && Sealing(s, summary, log)
    ensures Sealing(ExecuteStep(s, pid, r, answers), summary, log)
  {
    assert RunnerInv(s, pid, r);
  }

  lemma StepKeepsSealing(s: State, a: Action, summary: Summary, log: nat)
    requires CommandInv(s) && LaunchInv(s) && Sealing(s, summary, log)
    ensures Sealing(Step(s, a), summary, log)
  {
    hide SuperviseStep, ExecuteStep, CommandInv, LaunchInv;
    if a.SupervisorStep? && s.holder.Some? {
      SuperviseFrame(s, s.holder.value, a.answers);
    } else if a.RunnerStep? && a.pid in s.runners {
      ExecuteKeepsSealing(s, a.pid, s.runners[a.pid], a.runnerAnswers, summary, log);
    }
  }

  lemma {:induction false} RunKeepsSealing(s: State, actions: seq<Action>, summary: Summary, log: nat)
    requires Inv(s) && Sealing(s, summary, log)
    ensures Sealing(Run(s, actions), summary, log)
  {
    if actions != [] {
      var before := actions[..|actions| - 1];
      RunKeepsSealing(s, before, summary, log);
      RunKeepsInv(s, before);
      hide Step, Sealing;
      StepKeepsSealing(Run(s, before), actions[|actions| - 1], summary, log);
    }
  }

  lemma EndSeals(s: State, pid: Pid, good: Answers)
    requires CommandInv(s) && pid in s.runners && s.runners[pid].pc.WaitCommand? && good.ok
    ensures Sealing(Step(s, RunnerStep(pid, good)), good.summary, s.log)
  {
    assert RunnerInv(s, pid, s.runners[pid]);
    forall p | p in s.runners && HasReceipt(s.runners[p].pc)
      ensures p == pid
    {
      assert RunnerInv(s, p, s.runners[p]);
    }
  }

  /**
   * Whatever had been logged when the command ended, and whatever happens afterwards: a finished receipt
   * carries the command's own outcome and the digest of the log at that moment.
   */
  lemma ReceiptDigestsLog(past: seq<Action>, pid: Pid, good: Answers, actions: seq<Action>)
    requires var s := Run(Initial(), past); pid in s.runners && s.runners[pid].pc.WaitCommand?
    requires good.ok
    ensures var s := Run(Initial(), past);
      var t := Run(Step(s, RunnerStep(pid, good)), actions);
      t.receipt.Some? && (t.receipt.value.status == Finished ==>
        t.receipt.value.summary == good.summary && t.receipt.value.logDigest == s.log)
  {
    RunKeepsInv(Initial(), past);
    var s := Run(Initial(), past);
    StepKeepsInv(s, RunnerStep(pid, good));
    EndSeals(s, pid, good);
    hide Step, Run, Inv;
    RunKeepsSealing(Step(s, RunnerStep(pid, good)), actions, good.summary, s.log);
  }

  /** The log only grows, and a receipt digests no more of it than there is. */
  ghost predicate LogInv(s: State) {
    && (s.receipt.Some? && s.receipt.value.status == Finished ==> s.receipt.value.logDigest <= s.log)
    && (forall p :: p in s.runners && s.runners[p].pc.SaveComplete? ==> s.runners[p].pc.logDigest <= s.log)
  }

  /** A supervisor's child has a number that no later process gets. */
  ghost predicate ChildInv(s: State) {
    && (s.execution.Some? && s.execution.value.child.Some? ==> s.execution.value.child.value < s.nextPid)
    && (s.holder.Some? && s.holder.value.record.child.Some? ==> s.holder.value.record.child.value < s.nextPid)
  }

  lemma SuperviseKeepsChild(s: State, p: Supervisor, answers: Answers)
    requires s.holder == Some(p) && ChildInv(s)
    ensures ChildInv(SuperviseStep(s, p, answers))
  {
    hide PromoteStep, NotifyStep, EvidenceIntact;
    match p.pc
    case Promote(reason) => PromoteKeepsChild(s, p, reason, answers);
    case Notify(kind, stage, next) => NotifyFrame(s, p, kind, stage, next, answers);
    case _ =>
  }

  lemma PromoteKeepsChild(s: State, p: Supervisor, reason: Reason, answers: Answers)
    requires s.holder == Some(p)
    ensures var t := PromoteStep(s, p, reason, answers);
      t == s.(holder := t.holder) && (t.holder.Some? ==> t.holder.value.record.child == p.record.child)
  {
  }

  lemma ExecuteKeepsLog(s: State, pid: Pid, r: Runner, answers: Answers)
    requires pid in s.runners && s.runners[pid] == r && LogInv(s)
    ensures LogInv(ExecuteStep(s, pid, r, answers))
  {
  }

  lemma StepKeepsLog(s: State, a: Action)
    requires CommandInv(s) && LaunchInv(s) && LogInv(s) && ChildInv(s)
    ensures LogInv(Step(s, a)) && ChildInv(Step(s, a)) && s.log <= Step(s, a).log
  {
    hide SuperviseStep, ExecuteStep, CommandInv, LaunchInv;
    if a.SupervisorStep? && s.holder.Some? {
      SuperviseFrame(s, s.holder.value, a.answers);
      SuperviseKeepsChild(s, s.holder.value, a.answers);
    } else if a.RunnerStep? && a.pid in s.runners {
      ExecuteFrame(s, a.pid, s.runners[a.pid], a.runnerAnswers);
      ExecuteKeepsLog(s, a.pid, s.runners[a.pid], a.runnerAnswers);
    }
  }

  lemma {:induction false} RunKeepsLog(actions: seq<Action>)
    ensures LogInv(Run(Initial(), actions)) && ChildInv(Run(Initial(), actions))
  {
    if actions != [] {
      var before := actions[..|actions| - 1];
      RunKeepsLog(before);
      RunKeepsInv(Initial(), before);
      hide Step, LogInv, ChildInv, CommandInv, LaunchInv;
      StepKeepsLog(Run(Initial(), before), actions[|actions| - 1]);
    }
  }

  /** The log has been written to behind the back of a finished receipt that has not been promoted. */
  ghost predicate Outdated(s: State) {
    && s.receipt.Some? && s.receipt.value.status == Finished && s.receipt.value.logDigest < s.log
    && s.execution.Some? && s.execution.value.status != Finished
    && (s.holder.Some? ==> !s.holder.value.pc.SaveFinished?)
  }

  lemma SuperviseStaysOutdated(s: State, p: Supervisor, answers: Answers)
    requires s.holder == Some(p) && LaunchInv(s) && Outdated(s)
    ensures Outdated(SuperviseStep(s, p, answers))
  {
    SuperviseFrame(s, p, answers);
    hide Resume, PromoteStep, NotifyStep;
    match p.pc
    case Open => ResumeFrame(s, p); ResumeStaysOutdated(s, p);
    case Promote(reason) => PromoteStaysOutdated(s, p, reason, answers);
    case Notify(kind, stage, next) => NotifyFrame(s, p, kind, stage, next, answers);
    case _ =>
  }

  lemma ResumeStaysOutdated(s: State, p: Supervisor)
    ensures var t := Resume(s, p); t.holder.Some? ==> !t.holder.value.pc.SaveFinished?
  {
  }

  lemma PromoteStaysOutdated(s: State, p: Supervisor, reason: Reason, answers: Answers)
    requires s.holder == Some(p) && Outdated(s)
    ensures Outdated(PromoteStep(s, p, reason, answers))
  {
  }

  lemma StepStaysOutdated(s: State, a: Action)
    requires CommandInv(s) && LaunchInv(s) && Outdated(s)
    ensures Outdated(Step(s, a))
  {
    hide SuperviseStep, ExecuteStep, CommandInv, LaunchInv;
    if a.SupervisorStep? && s.holder.Some? {
      SuperviseStaysOutdated(s, s.holder.value, a.answers);
    } else if a.RunnerStep? && a.pid in s.runners {
      ExecuteFrame(s, a.pid, s.runners[a.pid], a.runnerAnswers);
    }
  }

  lemma {:induction false} RunStaysOutdated(s: State, actions: seq<Action>)
    requires Inv(s) && Outdated(s)
    ensures Outdated(Run(s, actions))
  {
    if actions != [] {
      var before := actions[..|actions| - 1];
      RunStaysOutdated(s, before);
      RunKeepsInv(s, before);
      hide Step, Outdated;
      StepStaysOutdated(Run(s, before), actions[|actions| - 1]);
    }
  }

  /**
   * One write to the log after the receipt was finished, and before the receipt was read for promotion: from
   * then on nothing makes the record finished.
   */
  lemma LaterWriteForbids(past: seq<Action>, actions: seq<Action>)
    requires var s := Run(Initial(), past);
      && s.receipt.Some? && s.receipt.value.status == Finished
      && s.execution.Some? && s.execution.value.status != Finished
      && (s.holder.Some? ==> !s.holder.value.pc.SaveFinished?)
    ensures var t := Run(Step(Run(Initial(), past), WriteLog), actions);
      t.execution.Some? && t.execution.value.status != Finished
  {
    RunKeepsInv(Initial(), past);
    RunKeepsLog(past);
    var s := Run(Initial(), past);
    StepKeepsInv(s, WriteLog);
    assert Outdated(Step(s, WriteLog));
    hide Step, Run, Inv;
    RunStaysOutdated(Step(s, WriteLog), actions);
  }

  // ---------------------------------------------------------------- the ordinary finish

  /** How far a supervisor has to go from the end of its own runner to the finished record. */
  ghost predicate Finishing(s: State, left: nat) {
    && Recoverable(s) && ChildInv(s)
    && (s.execution.value.status == Finished ==> !Overwriting(s))
    && (s.execution.value.status != Finished ==> s.holder.Some? && OnOwnWay(s, s.holder.value, left))
  }

  predicate OnOwnWay(s: State, p: Supervisor, left: nat) {
    match p.pc
    case Wait(_) => left >= 3 && (p.record.child.Some? ==> p.record.child.value !in s.runners)
    case Promote(reason) => left >= 2 && reason == OwnRunner
    case SaveFinished(own) => left >= 1 && own
    case _ => false
  }

  lemma SuperviseFinishes(s: State, p: Supervisor, answers: Answers, left: nat)
    requires Inv(s) && s.holder == Some(p) && Finishing(s, left) && answers.ok && !Raises(answers.send)
    ensures Finishing(SuperviseStep(s, p, answers), if left > 0 then left - 1 else left)
  {
    SuperviseFrame(s, p, answers);
    SuperviseKept(s, p, answers);
    SuperviseKeepsChild(s, p, answers);
    if IsFinished(s) {
      SuperviseSafe(s, p, answers);
      hide SuperviseStep, CommandInv, LaunchInv, RecordInv, NotifyInv;
    } else {
      hide NotifyStep, Resume, NotifyInv;
    }
  }

  lemma StepFinishes(s: State, a: Action, left: nat)
    requires Inv(s) && Finishing(s, left) && Undisturbed(a) && !SendRaises(a)
    ensures Finishing(Step(s, a), if a.SupervisorStep? && left > 0 then left - 1 else left)
  {
    StepKept(s, a);
    hide SuperviseStep, ExecuteStep, CommandInv, LaunchInv, RecordInv, NotifyInv;
    if a.SupervisorStep? && s.holder.Some? {
      SuperviseFinishes(s, s.holder.value, a.answers, left);
    } else if a.RunnerStep? && a.pid in s.runners {
      ExecuteFrame(s, a.pid, s.runners[a.pid], a.runnerAnswers);
      ExecuteStartsNone(s, a.pid, s.runners[a.pid], a.runnerAnswers);
    }
  }

  lemma ExecuteStartsNone(s: State, pid: Pid, r: Runner, answers: Answers)
    requires pid in s.runners
    ensures ExecuteStep(s, pid, r, answers).runners.Keys <= s.runners.Keys
  {
  }

  lemma {:induction false} RunFinishes(s: State, actions: seq<Action>, left: nat)
    requires Inv(s) && Finishing(s, left) && forall a :: a in actions ==> Undisturbed(a) && !SendRaises(a)
    ensures Finishing(Run(s, actions), Remaining(left, SupervisorSteps(actions)))
  {
    hide Step, Finishing, Inv;
    if actions != [] {
      var before, last := actions[..|actions| - 1], actions[|actions| - 1];
      assert last in actions;
      RunFinishes(s, before, left);
      RunKeepsInv(s, before);
      StepFinishes(Run(s, before), last, Remaining(left, SupervisorSteps(before)));
    }
  }

  /**
   * The ordinary finish. However a supervisor came to wait for its own runner, and whatever its command has
   * logged: once the command has ended and the receipt is saved, three steps of the supervisor without
   * another write, a crash or an exception leave a finished record with the command's own outcome, agreeing
   * with a receipt that digests the log as the command left it.
   */
  lemma OwnRunFinishes(past: seq<Action>, pid: Pid, good: Answers, other: Answers, actions: seq<Action>)
    requires var s := Run(Initial(), past);
      && s.holder.Some? && s.holder.value.pc.Wait? && s.holder.value.record.child == Some(pid)
      && pid in s.runners && s.runners[pid].pc.WaitCommand?
    requires good.ok && forall a :: a in actions ==> Undisturbed(a) && !SendRaises(a)
    requires SupervisorSteps(actions) >= 3
    ensures var s := Run(Initial(), past);
      var t := Run(Step(Step(s, RunnerStep(pid, good)), RunnerStep(pid, other)), actions);
      && IsFinished(t) && !t.execution.value.preflightFailed && t.execution.value.summary == good.summary
      && Agrees(t.execution.value, t.receipt) && t.receipt.value.logDigest == s.log
  {
    RunKeepsInv(Initial(), past);
    RunKeepsLog(past);
    var s := Run(Initial(), past);
    var s1 := Step(s, RunnerStep(pid, good));
    var s2 := Step(s1, RunnerStep(pid, other));
    StepKeepsInv(s, RunnerStep(pid, good));
    StepKeepsInv(s1, RunnerStep(pid, other));
    EndSeals(s, pid, good);
    ReceiptSaved(s, pid, good, other);
    hide Step, Run, CommandInv, LaunchInv, RecordInv, NotifyInv;
    RunFinishes(s2, actions, 3);
    RunKeepsSealing(s2, actions, good.summary, s.log);
    RunKeepsInv(s2, actions);
    FinishedIs(Run(s2, actions));
  }

  lemma FinishedIs(s: State)
    requires RecordInv(s) && Finishing(s, 0)
    ensures IsFinished(s) && !s.execution.value.preflightFailed && Agrees(s.execution.value, s.receipt)
  {
  }

  lemma ReceiptSaved(s: State, pid: Pid, good: Answers, other: Answers)
    requires CommandInv(s) && LaunchInv(s) && ChildInv(s)
    requires s.holder.Some? && s.holder.value.pc.Wait? && s.holder.value.record.child == Some(pid)
    requires pid in s.runners && s.runners[pid].pc.WaitCommand? && good.ok
    ensures var t := Step(Step(s, RunnerStep(pid, good)), RunnerStep(pid, other));
      Finishing(t, 3) && Sealing(t, good.summary, s.log)
  {
    assert RunnerInv(s, pid, s.runners[pid]);
    var r := s.runners[pid];
    var s1 := RunnerAt(s, pid, r, SaveComplete(good.summary, s.log));
    assert Step(s, RunnerStep(pid, good)) == s1;
    var done := Receipt(r.specDigest, Finished, good.summary, s.log);
    assert Step(s1, RunnerStep(pid, other)) == RunnerExit(s1.(receipt := Some(done)), pid);
    hide Step;
  }

  // ---------------------------------------------------------------- when a command may start

  ghost predicate LaunchedInv(s: State) {
    && (s.runnersLaunched == 0 ==> s.runners == map[] && s.commandsStarted == 0)
    && (s.execution.Some? && s.execution.value.preflightFailed ==> s.runnersLaunched == 0)
  }

  lemma SuperviseKeepsLaunched(s: State, p: Supervisor, answers: Answers)
    requires s.holder == Some(p) && HolderInv(s) && LaunchedInv(s)
    ensures LaunchedInv(SuperviseStep(s, p, answers))
  {
    hide Resume, PromoteStep, NotifyStep;
    match p.pc
    case Open => ResumeFrame(s, p);
    case Promote(reason) => PromoteFrame(s, p, reason, answers);
    case Notify(kind, stage, next) => NotifyFrame(s, p, kind, stage, next, answers);
    case _ =>
  }

  lemma StepKeepsLaunched(s: State, a: Action)
    requires CommandInv(s) && HolderInv(s) && LaunchedInv(s) && !a.StartStrayRunner?
    ensures LaunchedInv(Step(s, a))
  {
    hide SuperviseStep, ExecuteStep, CommandInv, HolderInv;
    if a.SupervisorStep? && s.holder.Some? {
      SuperviseKeepsLaunched(s, s.holder.value, a.answers);
    } else if a.RunnerStep? && a.pid in s.runners {
      ExecuteFrame(s, a.pid, s.runners[a.pid], a.runnerAnswers);
    }
  }

  lemma {:induction false} RunKeepsLaunched(actions: seq<Action>)
    requires forall a :: a in actions ==> !a.StartStrayRunner?
    ensures LaunchedInv(Run(Initial(), actions))
  {
    if actions != [] {
      var before, last := actions[..|actions| - 1], actions[|actions| - 1];
      assert last in actions;
      RunKeepsLaunched(before);
      RunKeepsInv(Initial(), before);
      StepKeepsLaunched(Run(Initial(), before), last);
      hide Step, LaunchedInv;
    }
  }

  /** When nobody else runs the runner script, only a launched runner starts a command, and never after a
   * failed preflight. */
  lemma CommandNeedsLaunch(actions: seq<Action>)
    requires forall a :: a in actions ==> !a.StartStrayRunner?
    ensures var s := Run(Initial(), actions);
      && s.commandsStarted <= s.runnersLaunched
      && (s.execution.Some? && s.execution.value.preflightFailed ==> s.commandsStarted == 0)
  {
    AtMostOnce(actions);
    RunKeepsLaunched(actions);
    hide Run;
  }

  /** A run through these states, one for each action. */
  lemma {:induction false} RunThrough(states: seq<State>, actions: seq<Action>)
    requires |states| == |actions| + 1
    requires forall i :: 0 <= i < |actions| ==> Step(states[i], actions[i]) == states[i + 1]
    ensures Run(states[0], actions) == states[|actions|]
  {
    hide Step;
    var n := |actions|;
    if n > 0 {
      RunThrough(states[..n], actions[..n - 1]);
    }
  }

  /** A runner from its first look at the record to the start of the command. */
  function SixSteps(pid: Pid, answers: Answers): seq<Action> {
    var a := RunnerStep(pid, answers);
    [a, a, a, a, a, a]
  }

  lemma RunnerStarts(s: State, pid: Pid, answers: Answers)
    requires s.execution.Some? && s.receipt.None? && s.runnerLock.None? && answers.ok
    requires pid in s.runners && s.runners[pid] == Runner(s.execution.value.specDigest, ReadExecution)
    ensures var digest := s.execution.value.specDigest;
      Run(s, SixSteps(pid, answers))
      == s.(runners := s.runners[pid := Runner(digest, SaveCommandRunning)], runnerLock := Some(pid),
            receipt := Some(Receipt(digest, Starting, NO_SUMMARY, 0)), commandsStarted := s.commandsStarted + 1)
  {
    var r := s.runners[pid];
    var a := RunnerStep(pid, answers);
    var begun := Receipt(r.specDigest, Starting, NO_SUMMARY, 0);
    var s1 := RunnerAt(s, pid, r, TakeLock);
    var s2 := RunnerAt(s.(runnerLock := Some(pid)), pid, r, CheckReceipt);
    var s3 := RunnerAt(s2, pid, r, SaveReceipt);
    var s4 := RunnerAt(s2.(receipt := Some(begun)), pid, r, ObserveBefore);
    var s5 := RunnerAt(s4, pid, r, StartCommand);
    var s6 := RunnerAt(s4.(commandsStarted := s.commandsStarted + 1), pid, r, SaveCommandRunning);
    assert Step(s, a) == s1;
    assert Step(s1, a) == s2;
    assert Step(s2, a) == s3;
    assert Step(s3, a) == s4;
    assert Step(s4, a) == s5;
    assert Step(s5, a) == s6;
    hide Step, Run;
    RunThrough([s, s1, s2, s3, s4, s5, s6], SixSteps(pid, answers));
  }

  /** A runner invoked by hand, up to the start of the command. */
  function StrayRun(pid: Pid, specRead: Digest, answers: Answers): seq<Action> {
    [StartStrayRunner(specRead)] + SixSteps(pid, answers)
  }

  /**
   * The runner checks the reserved spec digest only, not that the preflight succeeded: in every state
   * with a free runner lock and no receipt, a runner invoked by hand for the reserved spec starts the
   * command, even behind the record of a failed preflight.
   */
  lemma StrayRunnerStarts(s: State, answers: Answers)
    requires s.execution.Some? && s.receipt.None? && s.runnerLock.None? && answers.ok
    ensures var t := Run(s, StrayRun(s.nextPid, s.execution.value.specDigest, answers));
      && t.commandsStarted == s.commandsStarted + 1
      && t.execution == s.execution && t.runnersLaunched == s.runnersLaunched
  {
    var start := StartStrayRunner(s.execution.value.specDigest);
    RunOne(s, start);
    RunConcat(s, [start], SixSteps(s.nextPid, answers));
    RunnerStarts(Step(s, start), s.nextPid, answers);
    hide Run;
  }

  /** So there is a run in which the command starts although the preflight failed and nothing was launched. */
  lemma CommandAfterFailedPreflight(good: Answers, bad: Answers)
    requires good.ok && !bad.ok
    ensures var failing := [StartSupervisor(7, false)] + [SupervisorStep(good)] + [SupervisorStep(bad)]
                           + [SupervisorStep(good)];
      var s := Run(Initial(), failing + StrayRun(0, 7, good));
      && s.execution.Some? && s.execution.value.preflightFailed
      && s.commandsStarted == 1 && s.runnersLaunched == 0
  {
    var a0, a1, a2 := StartSupervisor(7, false), SupervisorStep(good), SupervisorStep(bad);
    var failing := [a0] + [a1] + [a2] + [a1];
    var p := Supervisor(7, false, Open, NO_RECORD);
    var record := Execution(7, Finished, true, None, NO_SUMMARY, None);
    var s0 := Initial().(holder := Some(p));
    var s1 := At(Initial(), p, Preflight);
    var s2 := At(Initial(), p, SavePreflightFailure);
    var s3 := At(Initial().(execution := Some(record)), p.(record := record),
                 Notify(PreflightFailedEvent, Look, ThenExit));
    assert Run(Initial(), [a0]) == s0 by {
      RunAppend(Initial(), [], a0);
      assert [] + [a0] == [a0];
    }
    assert Step(s0, a1) == s1 && Step(s1, a2) == s2 && Step(s2, a1) == s3;
    hide Step;
    RunAppend(Initial(), [a0], a1);
    RunAppend(Initial(), [a0] + [a1], a2);
    RunAppend(Initial(), [a0] + [a1] + [a2], a1);
    hide Run;
    assert Run(Initial(), failing) == s3;
    RunConcat(Initial(), failing, StrayRun(0, 7, good));
    StrayRunnerStarts(s3, good);
    hide StrayRun;
  }

  // ---------------------------------------------------------------- the overwritten record

  function Launching(good: Answers): seq<Action> {
    var a := SupervisorStep(good);
    [StartSupervisor(7, false), a, a, a, a, a]
  }

  /** A supervisor for spec 7 that waits for its own runner, which is about to begin. */
  function Waiting(): State {
    var record := Execution(7, Running, false, Some(0), NO_SUMMARY, None);
    Initial().(execution := Some(record), runners := Initial().runners[0 := Runner(7, ReadExecution)], nextPid := 1,
               runnersLaunched := 1, holder := Some(Supervisor(7, false, Wait(false), record)))
  }

  lemma LaunchingWaits(good: Answers)
    requires good.ok && good.specRead == 7
    ensures Run(Initial(), Launching(good)) == Waiting()
  {
    var start, a := StartSupervisor(7, false), SupervisorStep(good);
    var p := Supervisor(7, false, Open, NO_RECORD);
    var record := Execution(7, Starting, false, None, NO_SUMMARY, None);
    var reserved := Initial().(execution := Some(record));
    var w := Waiting();
    var s0, s1, s2 := At(Initial(), p, Open), At(Initial(), p, Preflight), At(Initial(), p, SaveStarting);
    var s3 := At(reserved, p.(record := record), Launch);
    var s4 := At(w.(execution := Some(record)), w.holder.value, SaveRunning);
    assert Step(Initial(), start) == s0;
    assert Step(s0, a) == s1;
    assert Step(s1, a) == s2;
    assert Step(s2, a) == s3;
    assert Step(s3, a) == s4;
    assert Step(s4, a) == w;
    hide Step, Run;
    RunThrough([Initial(), s0, s1, s2, s3, s4, w], Launching(good));
  }

  /** The same, when the runner has finished with this summary. */
  function RunnerDone(summary: Summary): State {
    Waiting().(runners := Waiting().runners - {0}, receipt := Some(Receipt(7, Finished, summary, 0)),
               commandsStarted := 1)
  }

  lemma RunnerFinishes(good: Answers)
    requires good.ok
    ensures var a := RunnerStep(0, good);
      Run(Waiting(), SixSteps(0, good) + [a, a, a]) == RunnerDone(good.summary)
  {
    var a, w := RunnerStep(0, good), Waiting();
    var r := Runner(7, SaveCommandRunning);
    var s0 := RunnerAt(w.(runnerLock := Some(0), commandsStarted := 1,
                          receipt := Some(Receipt(7, Starting, NO_SUMMARY, 0))), 0, r, SaveCommandRunning);
    var s1 := RunnerAt(s0.(receipt := Some(Receipt(7, Running, NO_SUMMARY, 0))), 0, r, WaitCommand);
    var s2 := RunnerAt(s1, 0, r, SaveComplete(good.summary, 0));
    var s3 := RunnerDone(good.summary);
    assert Step(s0, a) == s1;
    assert Step(s1, a) == s2;
    assert Step(s2, a) == s3;
    RunnerStarts(w, 0, good);
    hide Step, Run;
    RunConcat(w, SixSteps(0, good), [a, a, a]);
    RunThrough([s0, s1, s2, s3], [a, a, a]);
  }

  /** The finished record is saved, and the queue command of its notification is about to be run. */
  function Sending(summary: Summary): State {
    var done := RunnerDone(summary);
    var record := done.execution.value.(status := Finished, summary := summary, sealed := done.receipt);
    done.(execution := Some(record), events := done.events[FinishedEvent := Attempting],
          holder := Some(Supervisor(7, false, Notify(FinishedEvent, Send, ThenReturn), record)))
  }

  lemma PromotionSends(good: Answers)
    requires good.ok && !Raises(good.send)
    ensures var a := SupervisorStep(good);
      Run(RunnerDone(good.summary), [a, a, a, a, a, a]) == Sending(good.summary)
  {
    var a, s0, s6 := SupervisorStep(good), RunnerDone(good.summary), Sending(good.summary);
    var q, record := s6.holder.value, s6.execution;
    var s1 := At(s0, s0.holder.value, Promote(OwnRunner));
    var s2 := At(s0, q, SaveFinished(true));
    var saved := s0.(execution := record);
    var s3 := At(saved, q, Notify(FinishedEvent, Look, ThenReturn));
    var s4 := At(saved, q, Notify(FinishedEvent, SavePending, ThenReturn));
    var s5 := At(saved.(events := saved.events[FinishedEvent := Pending]), q,
                 Notify(FinishedEvent, SaveAttempting, ThenReturn));
    assert Step(s0, a) == s1;
    assert Step(s1, a) == s2;
    assert Step(s2, a) == s3;
    assert Step(s3, a) == s4;
    assert Step(s4, a) == s5;
    assert Step(s5, a) == s6;
    hide Step, Run;
    RunThrough([s0, s1, s2, s3, s4, s5, s6], [a, a, a, a, a, a]);
  }

  lemma RaisingInterrupts(summary: Summary, raising: Answers)
    requires raising.send.RaisedAfter?
    ensures var s, a := Sending(summary), SupervisorStep(raising);
      var t := Run(s, [a, a]);
      && t.execution == Some(s.execution.value.(status := Interrupted))
      && t.receipt == s.receipt && t.events == s.events && SendsOf(t, FinishedEvent) == [raising.send.zero]
  {
    var s, a := Sending(summary), SupervisorStep(raising);
    var caught := At(s.(sends := SendsAfter(s, FinishedEvent, raising.send)), s.holder.value, SaveInterrupted);
    assert Step(s, a) == caught;
    var t := Step(caught, a);
    assert t.execution == Some(s.execution.value.(status := Interrupted)) && t.receipt == s.receipt
      && t.events == s.events && t.sends == caught.sends;
    hide Step, Run;
    RunThrough([s, caught, t], [a, a]);
  }

  function FinishingRun(good: Answers): seq<Action> {
    var r, a := RunnerStep(0, good), SupervisorStep(good);
    Launching(good) + (SixSteps(0, good) + [r, r, r]) + [a, a, a, a, a, a]
  }

  /**
   * The danger is real: in a run without a crash, after the command succeeded and the finished record was
   * saved, a queue command that is run and then raises makes the record interrupted and exits.
   */
  lemma FinishedOverwritten(good: Answers, raising: Answers)
    requires good == Answers(true, false, ReturnedZero, 7, good.summary)
    requires raising.send.RaisedAfter?
    ensures var s := Run(Initial(), FinishingRun(good));
      && IsFinished(s) && Agrees(s.execution.value, s.receipt) && s.commandsStarted == 1
      && var a := SupervisorStep(raising);
      var t := Run(Initial(), FinishingRun(good) + [a, a]);
      && t.execution == Some(s.execution.value.(status := Interrupted))
      && t.receipt == s.receipt && DeliveryOf(t, FinishedEvent) == Some(Attempting)
      && SendsOf(t, FinishedEvent) == [raising.send.zero]
  {
    var r, a, b := RunnerStep(0, good), SupervisorStep(good), SupervisorStep(raising);
    var whole := FinishingRun(good);
    LaunchingWaits(good);
    RunnerFinishes(good);
    PromotionSends(good);
    var s := Sending(good.summary);
    RaisingInterrupts(good.summary, raising);
    hide Step, Run;
    RunConcat(Initial(), Launching(good), SixSteps(0, good) + [r, r, r]);
    RunConcat(Initial(), Launching(good) + (SixSteps(0, good) + [r, r, r]), [a, a, a, a, a, a]);
    RunConcat(Initial(), whole, [b, b]);
  }

  // ---------------------------------------------------------------- a command that writes to its log

  function Writes(n: nat): (r: seq<Action>)
    ensures |r| == n
  {
    if n == 0 then [] else Writes(n - 1) + [WriteLog]
  }

  lemma OneWrite(s: State)
    ensures Step(s, WriteLog) == s.(log := s.log + 1)
  {
  }

  lemma {:induction false} WritesAdd(s: State, n: nat)
    ensures Run(s, Writes(n)) == s.(log := s.log + n)
  {
    if n == 0 {
      assert Writes(0) == [] && Run(s, []) == s;
    } else {
      hide Step, Run;
      WritesAdd(s, n - 1);
      RunAppend(s, Writes(n - 1), WriteLog);
      OneWrite(Run(s, Writes(n - 1)));
    }
  }

  function LoggingRun(good: Answers, n: nat): seq<Action> {
    Launching(good) + (SixSteps(0, good) + [RunnerStep(0, good)]) + Writes(n)
  }

  /** The supervisor waits while its runner's command has written to the log so many times. */
  lemma LoggingWaits(good: Answers, n: nat)
    requires good.ok && good.specRead == 7
    ensures var s := Run(Initial(), LoggingRun(good, n));
      && s.log == n && s.holder.Some? && s.holder.value.pc.Wait? && s.holder.value.record.child == Some(0)
      && 0 in s.runners && s.runners[0].pc.WaitCommand?
  {
    var a, w := RunnerStep(0, good), Waiting();
    var s0 := Run(w, SixSteps(0, good));
    LaunchingWaits(good);
    RunnerStarts(w, 0, good);
    var s1 := Step(s0, a);
    assert s1.holder == w.holder && s1.log == 0 && 0 in s1.runners && s1.runners[0].pc.WaitCommand?;
    hide Step, Run;
    RunOne(s0, a);
    RunConcat(w, SixSteps(0, good), [a]);
    RunConcat(Initial(), Launching(good), SixSteps(0, good) + [a]);
    RunConcat(Initial(), Launching(good) + (SixSteps(0, good) + [a]), Writes(n));
    WritesAdd(s1, n);
  }

  /** A run from the initial state in which the command writes to its log any number of times and ends well. */
  lemma LoggedRunFinishes(good: Answers, n: nat)
    requires good == Answers(true, false, ReturnedZero, 7, good.summary)
    ensures var r, a := RunnerStep(0, good), SupervisorStep(good);
      var t := Run(Initial(), LoggingRun(good, n) + [r, r] + [a, a, a]);
      && IsFinished(t) && t.execution.value.summary == good.summary
      && Agrees(t.execution.value, t.receipt) && t.receipt.value.logDigest == n
  {
    var r, a := RunnerStep(0, good), SupervisorStep(good);
    var past := LoggingRun(good, n);
    LoggingWaits(good, n);
    assert [a, a, a][..2] == [a, a] && [a, a][..1] == [a] && [a][..0] == [];
    assert SupervisorSteps([]) == 0 && SupervisorSteps([a]) == 1 && SupervisorSteps([a, a]) == 2;
    assert SupervisorSteps([a, a, a]) == 3;
    hide Run, Step, LoggingRun, SupervisorSteps;
    OwnRunFinishes(past, 0, good, good, [a, a, a]);
    var s := Run(Initial(), past);
    RunThrough([s, Step(s, r), Step(Step(s, r), r)], [r, r]);
    RunConcat(Initial(), past, [r, r]);
    RunConcat(Initial(), past + [r, r], [a, a, a]);
  }
}
