/**
 * Where the event supervisor's branches lead: what each answer of the surroundings leads to on disk, over
 * several steps, and what never happens when an answer keeps failing.
 */
module SupervisorPaths {

  import opened Options
  import opened EventSupervisor

  /** Supervisor steps under one answer. */
  function Times(answers: Answers, n: nat): (r: seq<Action>)
    ensures |r| == n
  {
    if n == 0 then [] else Times(answers, n - 1) + [SupervisorStep(answers)]
  }

  lemma TimesNext(s: State, answers: Answers, n: nat, t: State)
    requires Run(s, Times(answers, n)) == t
    ensures Run(s, Times(answers, n + 1)) == Step(t, SupervisorStep(answers))
  {
    RunAppend(s, Times(answers, n), SupervisorStep(answers));
  }

  lemma TimesNone(s: State, answers: Answers)
    ensures Run(s, Times(answers, 0)) == s
  {
  }

  // ---------------------------------------------------------------- notifications

  /** What is stored when a queue command has ended this way, if it is stored at all. */
  function StoredFor(result: SendResult): Delivery {
    if result == ReturnedZero then Queued else Unknown
  }

  /** Where a supervisor goes after a notification. */
  function After(p: Supervisor, next: Next): Option<Supervisor> {
    match next
    case ThenExit => None
    case ThenReturn => None
    case ThenRejoin => Some(p.(pc := Rejoin))
    case ThenWait => Some(p.(pc := Wait(true)))
  }

  /**
   * A notification that nobody disturbs takes five steps: afterwards the event is stored with how its queue
   * command ended, the command was run once, unless it could not be started, and the supervisor goes on.
   */
  lemma NotificationDelivers(s: State, p: Supervisor, kind: Kind, next: Next, answers: Answers)
    requires s.holder == Some(p.(pc := Notify(kind, Look, next))) && kind !in s.events && !Raises(answers.send)
    ensures var result := answers.send;
      Run(s, Times(answers, 5))
      == s.(events := s.events[kind := StoredFor(result)], holder := After(p, next),
            sends := if result == NotStarted then s.sends
                     else s.sends[kind := SendsOf(s, kind) + [result == ReturnedZero]])
  {
    var result := answers.send;
    var attempting := s.(events := s.events[kind := Attempting]);
    var s3 := At(attempting, p, Notify(kind, Send, next));
    NotificationSaved(s, p, kind, next, answers);
    NotificationSent(attempting, p, kind, next, answers);
    var a := SupervisorStep(answers);
    hide Step, Run, Times;
    TimesNext(s, answers, 3, s3);
    TimesNext(s, answers, 4, Step(s3, a));
    assert attempting.events[kind := StoredFor(result)] == s.events[kind := StoredFor(result)];
  }

  lemma StepIsNotify(s: State, p: Supervisor, kind: Kind, stage: Stage, next: Next, answers: Answers)
    requires s.holder == Some(p.(pc := Notify(kind, stage, next)))
    ensures Step(s, SupervisorStep(answers)) == NotifyStep(s, p.(pc := Notify(kind, stage, next)), kind, stage, next, answers)
  {
    hide NotifyStep, Resume, PromoteStep;
  }

  lemma NotificationSaved(s: State, p: Supervisor, kind: Kind, next: Next, answers: Answers)
    requires s.holder == Some(p.(pc := Notify(kind, Look, next))) && kind !in s.events && !Raises(answers.send)
    ensures Run(s, Times(answers, 3)) == At(s.(events := s.events[kind := Attempting]), p, Notify(kind, Send, next))
  {
    hide Step, Run, Times;
    var a := SupervisorStep(answers);
    var s1 := At(s, p, Notify(kind, SavePending, next));
    var s2 := At(s.(events := s.events[kind := Pending]), p, Notify(kind, SaveAttempting, next));
    StepIsNotify(s, p, kind, Look, next, answers);
    StepIsNotify(s1, p, kind, SavePending, next, answers);
    StepIsNotify(s2, p, kind, SaveAttempting, next, answers);
    assert Step(s, a) == s1;
    assert Step(s1, a) == s2;
    assert Step(s2, a) == At(s.(events := s.events[kind := Attempting]), p, Notify(kind, Send, next));
    TimesNone(s, answers);
    TimesNext(s, answers, 0, s);
    TimesNext(s, answers, 1, s1);
    TimesNext(s, answers, 2, s2);
  }

  lemma NotificationSent(s: State, p: Supervisor, kind: Kind, next: Next, answers: Answers)
    requires !Raises(answers.send)
    ensures var result, a := answers.send, SupervisorStep(answers);
      Step(Step(At(s, p, Notify(kind, Send, next)), a), a)
      == s.(events := s.events[kind := StoredFor(result)], holder := After(p, next),
            sends := if result == NotStarted then s.sends
                     else s.sends[kind := SendsOf(s, kind) + [result == ReturnedZero]])
  {
    var result, a := answers.send, SupervisorStep(answers);
    var sent := if result == NotStarted then s.sends else s.sends[kind := SendsOf(s, kind) + [result == ReturnedZero]];
    var s4 := At(s.(sends := sent), p, Notify(kind, Ended(result), next));
    assert Step(At(s, p, Notify(kind, Send, next)), a) == s4;
    assert Step(s4, a) == s.(events := s.events[kind := StoredFor(result)], holder := After(p, next), sends := sent);
  }

  /**
   * An exception on the way to the queue command: the event is left attempting, the command counts as run
   * only if the exception came after it, and the supervisor ends, or marks its own record interrupted.
   */
  lemma NotificationRaises(s: State, p: Supervisor, kind: Kind, next: Next, answers: Answers)
    requires s.holder == Some(p.(pc := Notify(kind, Send, next))) && Raises(answers.send)
    ensures var t := Step(s, SupervisorStep(answers));
      && t.events == s.events && t.execution == s.execution
      && SendsOf(t, kind) == (if answers.send.RaisedAfter? then SendsOf(s, kind) + [answers.send.zero] else SendsOf(s, kind))
      && t.holder == if next == ThenWait || next == ThenReturn then Some(p.(pc := SaveInterrupted)) else None
  {
  }

  /** An exception before the event is saved: nothing is stored, and the supervisor goes the same way. */
  lemma NotificationNeverBegins(s: State, p: Supervisor, kind: Kind, next: Next, answers: Answers)
    requires s.holder == Some(p.(pc := Notify(kind, Look, next))) && kind !in s.events && answers.send.RaisedBefore?
    ensures Step(s, SupervisorStep(answers))
      == s.(holder := if next == ThenWait || next == ThenReturn then Some(p.(pc := SaveInterrupted)) else None)
  {
  }

  /** An event that is already on disk is not notified again, however its delivery ended. */
  lemma NoSecondNotification(s: State, p: Supervisor, kind: Kind, next: Next, answers: Answers)
    requires s.holder == Some(p.(pc := Notify(kind, Look, next))) && kind in s.events
    ensures Step(s, SupervisorStep(answers)) == s.(holder := After(p, next))
  {
  }

  /** The service wrapper's report names what was rejected: the registration or the evidence. */
  lemma RejectionReported(s: State, invalidRegistration: bool, answers: Answers)
    requires s.holder.None? && !Raises(answers.send)
    ensures var kind := if invalidRegistration then RegistrationInvalidEvent else EvidenceInvalidEvent;
      var t := Run(Step(s, StartNotifier(invalidRegistration)), Times(answers, 5));
      kind !in s.events ==>
        t.events == s.events[kind := StoredFor(answers.send)] && t.holder.None? && t.execution == s.execution
  {
    var kind := if invalidRegistration then RegistrationInvalidEvent else EvidenceInvalidEvent;
    var p := Supervisor(0, false, Open, NO_RECORD);
    var u := Step(s, StartNotifier(invalidRegistration));
    assert u == s.(holder := Some(p.(pc := Notify(kind, Look, ThenExit))));
    hide Step, Run, Times;
    if kind !in s.events {
      NotificationDelivers(u, p, kind, ThenExit, answers);
    }
  }

  // ---------------------------------------------------------------- waiting for a runner

  /** A deadline that passes is reported once, and the waiting goes on. */
  lemma DeadlineReported(s: State, p: Supervisor, late: Answers)
    requires s.holder == Some(p) && p.pc == Wait(false) && TimeoutEvent !in s.events
    requires p.record.child.Some? && p.record.child.value in s.runners && late.expired && !Raises(late.send)
    ensures var t := Run(s, Times(late, 6));
      && t == s.(events := s.events[TimeoutEvent := StoredFor(late.send)], holder := Some(p.(pc := Wait(true))),
                 sends := t.sends)
      && Step(t, SupervisorStep(late)) == t
  {
    var a := SupervisorStep(late);
    var s1 := At(s, p, Notify(TimeoutEvent, Look, ThenWait));
    assert Step(s, a) == s1;
    NotificationDelivers(s1, p, TimeoutEvent, ThenWait, late);
    var t := Run(s1, Times(late, 5));
    assert Step(t, a) == t;
    hide Step, Run, Times;
    TimesFirst(s, late, 5);
  }

  lemma {:induction false} TimesFirst(s: State, answers: Answers, n: nat)
    ensures Run(s, Times(answers, n + 1)) == Run(Step(s, SupervisorStep(answers)), Times(answers, n))
  {
    var a := SupervisorStep(answers);
    if n == 0 {
      assert Times(answers, 1) == [] + [a] == [a];
      RunOne(s, a);
    } else {
      TimesFirst(s, answers, n - 1);
      RunAppend(s, Times(answers, n), a);
      RunAppend(Step(s, a), Times(answers, n - 1), a);
    }
    hide Step;
  }

  /** A supervisor that has rejoined a runner which is still at work. */
  ghost predicate Rejoined(s: State) {
    && s.holder.Some? && s.receipt.Some? && s.receipt.value.status != Finished
    && s.holder.value.record.child.Some? && s.holder.value.record.child.value in s.runners
    && match s.holder.value.pc {
         case Rejoin => true
         case Promote(reason) => reason == EventSupervisor.Rejoined(true)
         case Notify(kind, _, next) => kind == TimeoutEvent && next == ThenRejoin
         case _ => false
       }
  }

  /** It goes on watching for as long as the runner lives, whatever deadlines pass, and changes no record. */
  lemma RejoinedStays(s: State, answers: Answers)
    requires Rejoined(s) && !Raises(answers.send)
    ensures var t := Step(s, SupervisorStep(answers));
      Rejoined(t) && t.execution == s.execution && t.runners == s.runners && t.receipt == s.receipt
  {
    var p := s.holder.value;
    hide NotifyStep, Resume, Promotable;
    if p.pc.Notify? {
      NotifyFrame(s, p, p.pc.kind, p.pc.stage, p.pc.next, answers);
      NotifyGoesOn(s, p, p.pc.kind, p.pc.stage, answers);
    }
  }

  lemma NotifyGoesOn(s: State, p: Supervisor, kind: Kind, stage: Stage, answers: Answers)
    requires !Raises(answers.send)
    ensures NotifyStep(s, p, kind, stage, ThenRejoin, answers).holder.Some?
  {
  }

  /** One look at a runner that is still at work: a deadline that has passed is reported, and the next look follows. */
  lemma RejoinedLooks(s: State, p: Supervisor, answers: Answers)
    requires s.holder == Some(p) && p.pc == Rejoin && !Raises(answers.send)
    requires p.record.child.Some? && p.record.child.value in s.runners
    requires (s.receipt.Some? ==> s.receipt.value.status != Finished) && TimeoutEvent !in s.events
    ensures if answers.expired then
              var t := Run(s, Times(answers, 7));
              t == s.(events := s.events[TimeoutEvent := StoredFor(answers.send)], sends := t.sends)
            else Run(s, Times(answers, 2)) == s
  {
    var a := SupervisorStep(answers);
    var s1 := At(s, p, Promote(EventSupervisor.Rejoined(true)));
    assert Step(s, a) == s1;
    if answers.expired {
      var s2 := At(s, p, Notify(TimeoutEvent, Look, ThenRejoin));
      assert Step(s1, a) == s2;
      NotificationDelivers(s2, p, TimeoutEvent, ThenRejoin, answers);
      hide Step, Run, Times;
      TimesFirst(s, answers, 6);
      TimesFirst(s1, answers, 5);
    } else {
      assert Step(s1, a) == s;
      hide Step, Run, Times;
      TimesNone(s, answers);
      TimesNext(s, answers, 0, s);
      TimesNext(s, answers, 1, s1);
    }
  }

  /**
   * A finished receipt that is not accepted, because it is of another spec, its log has changed or the
   * observation is rejected: the supervisor that waited for its own runner makes the record interrupted, any
   * other ends and leaves it.
   */
  lemma RejectedPromotion(s: State, p: Supervisor, reason: Reason, answers: Answers)
    requires s.holder == Some(p) && p.pc == Promote(reason) && s.receipt.Some? && s.receipt.value.status == Finished
    requires !answers.ok || s.receipt.value.specDigest != p.record.specDigest || s.receipt.value.logDigest != s.log
    ensures reason == OwnRunner ==> Run(s, Times(answers, 2)).execution == Some(p.record.(status := Interrupted))
    ensures reason != OwnRunner ==> Run(s, Times(answers, 1)) == s.(holder := None)
  {
    var a := SupervisorStep(answers);
    var s1 := if reason == OwnRunner then At(s, p, SaveInterrupted) else s.(holder := None);
    assert Step(s, a) == s1;
    assert reason == OwnRunner ==> Step(s1, a).execution == Some(p.record.(status := Interrupted));
    hide Step, Run, Times;
    TimesNone(s, answers);
    TimesNext(s, answers, 0, s);
    TimesNext(s, answers, 1, s1);
  }

  /** The record that a promotion saves. */
  function Promoted(s: State, record: Execution): Execution
    requires s.receipt.Some?
  {
    record.(status := Finished, summary := s.receipt.value.summary, sealed := s.receipt)
  }

  /** Two steps promote a receipt that is accepted, whatever they are promoting it for. */
  lemma PromotionSaves(s: State, p: Supervisor, reason: Reason, good: Answers)
    requires s.holder == Some(p) && p.pc == Promote(reason) && good.ok && Promotable(s, p.record)
    ensures var t := Run(s, Times(good, 2));
      && t.execution == Some(Promoted(s, p.record)) && t.events == s.events && t.receipt == s.receipt
      && t.holder.Some? && t.holder.value.pc == Notify(FinishedEvent, Look, if reason == OwnRunner then ThenReturn else ThenExit)
  {
    var a, record := SupervisorStep(good), Promoted(s, p.record);
    var q := p.(record := record);
    var s1 := At(s, q, SaveFinished(reason == OwnRunner));
    assert Step(s, a) == s1;
    var s2 := Step(s1, a);
    assert s2.execution == Some(record) && s2.events == s.events && s2.receipt == s.receipt && s2.holder.Some?
      && s2.holder.value.pc == Notify(FinishedEvent, Look, if reason == OwnRunner then ThenReturn else ThenExit);
    hide Step, Run, Times;
    TimesNone(s, good);
    TimesNext(s, good, 0, s);
    TimesNext(s, good, 1, s1);
  }

  /** Once the runner has finished, three steps save the finished record. */
  lemma RejoinedFinishes(s: State, p: Supervisor, good: Answers)
    requires s.holder == Some(p) && p.pc == Rejoin && good.ok && Promotable(s, p.record)
    ensures var t := Run(s, Times(good, 3));
      && t.execution == Some(Promoted(s, p.record))
      && t.holder.Some? && t.holder.value.pc == Notify(FinishedEvent, Look, ThenExit)
  {
    var alive := p.record.child.Some? && p.record.child.value in s.runners;
    var q := p.(pc := Promote(EventSupervisor.Rejoined(alive)));
    var s1 := s.(holder := Some(q));
    assert Step(s, SupervisorStep(good)) == s1;
    hide Step, Run, Times;
    TimesFirst(s, good, 2);
    PromotionSaves(s1, q, EventSupervisor.Rejoined(alive), good);
  }

  /** When it is gone without a finished receipt, the supervisor gives up and leaves the record as it is. */
  lemma RejoinedGivesUp(s: State, p: Supervisor, answers: Answers)
    requires s.holder == Some(p) && p.pc == Rejoin
    requires p.record.child.Some? ==> p.record.child.value !in s.runners
    requires s.receipt.Some? ==> s.receipt.value.status != Finished
    ensures Run(s, Times(answers, 2)) == s.(holder := None)
  {
    var s1 := At(s, p, Promote(EventSupervisor.Rejoined(false)));
    assert Step(s, SupervisorStep(answers)) == s1;
    assert Step(s1, SupervisorStep(answers)) == s.(holder := None);
    hide Step, Run, Times;
    TimesNone(s, answers);
    TimesNext(s, answers, 0, s);
    TimesNext(s, answers, 1, s1);
  }

  /** A restart behind an unfinished run reports the interruption before it rejoins the runner. */
  lemma RestartReports(s: State, reconcileOnly: bool, answers: Answers)
    requires s.holder.None? && s.execution.Some? && s.execution.value.status != Finished && !Raises(answers.send)
    requires (s.receipt.Some? ==> s.receipt.value.status != Finished) && InterruptedEvent !in s.events
    ensures var found := s.execution.value;
      var t := Run(Step(s, StartSupervisor(found.specDigest, reconcileOnly)), Times(answers, 7));
      && t.execution == s.execution && t.events == s.events[InterruptedEvent := StoredFor(answers.send)]
      && t.holder == Some(Supervisor(found.specDigest, reconcileOnly, Rejoin, found))
      && t.runners == s.runners && t.runnersLaunched == s.runnersLaunched
  {
    var found, a := s.execution.value, SupervisorStep(answers);
    var p := Supervisor(found.specDigest, reconcileOnly, Open, NO_RECORD);
    var q := p.(record := found);
    var s0 := At(s, p, Open);
    var s1 := At(s, q, Promote(Restarted));
    var s2 := At(s, q, Notify(InterruptedEvent, Look, ThenRejoin));
    assert Step(s, StartSupervisor(found.specDigest, reconcileOnly)) == s0;
    assert Step(s0, a) == s1;
    assert Step(s1, a) == s2;
    NotificationDelivers(s2, q, InterruptedEvent, ThenRejoin, answers);
    hide Step, Run, Times;
    TimesFirst(s0, answers, 6);
    TimesFirst(s1, answers, 5);
  }

  // ---------------------------------------------------------------- what goes wrong

  /** An own runner that is gone without a finished receipt makes the record interrupted. */
  lemma LostRunnerInterrupts(s: State, p: Supervisor, answers: Answers)
    requires s.holder == Some(p) && p.pc.Wait?
    requires p.record.child.Some? ==> p.record.child.value !in s.runners
    requires s.receipt.Some? ==> s.receipt.value.status != Finished
    ensures var t := Run(s, Times(answers, 3));
      && t.execution == Some(p.record.(status := Interrupted))
      && t.holder.Some? && t.holder.value.pc == Notify(InterruptedEvent, Look, ThenExit)
  {
    var a, record := SupervisorStep(answers), p.record.(status := Interrupted);
    var s1, s2 := At(s, p, Promote(OwnRunner)), At(s, p, SaveInterrupted);
    var s3 := At(s.(execution := Some(record)), p.(record := record), Notify(InterruptedEvent, Look, ThenExit));
    assert Step(s, a) == s1;
    assert Step(s1, a) == s2;
    assert Step(s2, a) == s3;
    hide Step, Run, Times;
    TimesNone(s, answers);
    TimesNext(s, answers, 0, s);
    TimesNext(s, answers, 1, s1);
    TimesNext(s, answers, 2, s2);
  }

  /** A runner that cannot be launched makes the record interrupted too. */
  lemma FailedLaunchInterrupts(s: State, p: Supervisor, bad: Answers)
    requires s.holder == Some(p) && p.pc.Launch? && !bad.ok
    ensures var t := Run(s, Times(bad, 2));
      t.execution == Some(p.record.(status := Interrupted)) && t.runners == s.runners
      && t.runnersLaunched == s.runnersLaunched
  {
    var s1 := At(s, p, SaveInterrupted);
    assert Step(s, SupervisorStep(bad)) == s1;
    var t := Step(s1, SupervisorStep(bad));
    assert t.execution == Some(p.record.(status := Interrupted)) && t.runners == s.runners
      && t.runnersLaunched == s.runnersLaunched;
    hide Step, Run, Times;
    TimesNone(s, bad);
    TimesNext(s, bad, 0, s);
    TimesNext(s, bad, 1, s1);
  }

  /** A runner that fails before, at or after the start of its command leaves an interrupted receipt. */
  lemma FailingRunnerSays(s: State, pid: Pid, bad: Answers)
    requires pid in s.runners && !bad.ok
    requires s.runners[pid].pc.ObserveBefore? || s.runners[pid].pc.StartCommand? || s.runners[pid].pc.WaitCommand?
    ensures var a := RunnerStep(pid, bad);
      var t := Step(Step(s, a), a);
      && t.receipt == Some(Receipt(s.runners[pid].specDigest, Interrupted, NO_SUMMARY, 0))
      && pid !in t.runners && t.commandsStarted == s.commandsStarted && t.runnerLock != Some(pid)
  {
  }

  // ---------------------------------------------------------------- what never happens

  /** Is the answer to every supervisor step a rejection? */
  predicate AllRejected(actions: seq<Action>) {
    forall a :: a in actions && a.SupervisorStep? ==> !a.answers.ok
  }

  ghost predicate Unpromoted(s: State) {
    && (s.execution.Some? && s.execution.value.status == Finished ==> s.execution.value.preflightFailed)
    && (s.holder.Some? ==> !s.holder.value.pc.SaveFinished?
                           && (s.holder.value.record.status == Finished ==> s.holder.value.record.preflightFailed))
  }

  lemma RejectedStaysUnpromoted(s: State, p: Supervisor, answers: Answers)
    requires s.holder == Some(p) && LaunchInv(s) && Unpromoted(s) && !answers.ok
    ensures Unpromoted(SuperviseStep(s, p, answers))
  {
    hide NotifyStep, EvidenceIntact, Promotable;
    match p.pc
    case Notify(kind, stage, next) =>
      NotifyFrame(s, p, kind, stage, next, answers);
      NotifyNeverPromotes(s, p, kind, stage, next, answers);
    case _ =>
  }

  lemma NotifyNeverPromotes(s: State, p: Supervisor, kind: Kind, stage: Stage, next: Next, answers: Answers)
    requires s.holder == Some(p)
    ensures var t := NotifyStep(s, p, kind, stage, next, answers);
      t.holder.Some? ==> !t.holder.value.pc.SaveFinished?
  {
    hide Continue, Raise;
  }

  lemma {:induction false} RejectedRun(actions: seq<Action>)
    requires AllRejected(actions)
    ensures Unpromoted(Run(Initial(), actions))
  {
    if actions != [] {
      var before, last := actions[..|actions| - 1], actions[|actions| - 1];
      assert last in actions && forall a :: a in before ==> a in actions;
      RejectedRun(before);
      RunKeepsInv(Initial(), before);
      RejectedStep(Run(Initial(), before), last);
      hide Step, Inv, Unpromoted;
    }
  }

  lemma RejectedStep(s: State, a: Action)
    requires CommandInv(s) && LaunchInv(s) && Unpromoted(s) && (a.SupervisorStep? ==> !a.answers.ok)
    ensures Unpromoted(Step(s, a))
  {
    hide SuperviseStep, ExecuteStep, CommandInv, LaunchInv;
    if a.SupervisorStep? && s.holder.Some? {
      RejectedStaysUnpromoted(s, s.holder.value, a.answers);
    } else if a.RunnerStep? && a.pid in s.runners {
      ExecuteFrame(s, a.pid, s.runners[a.pid], a.runnerAnswers);
    }
  }

  /**
   * Where every observation is rejected, no record ever becomes finished, except as a failed preflight, even
   * when stray runners finish receipts.
   */
  lemma RejectedNeverFinishes(actions: seq<Action>)
    requires AllRejected(actions)
    ensures var s := Run(Initial(), actions);
      s.execution.Some? && s.execution.value.status == Finished ==> s.execution.value.preflightFailed
  {
    RejectedRun(actions);
  }

  /** A reconciling supervisor reserves nothing and launches nothing. */
  lemma {:induction false} ReconcilingReservesNothing(actions: seq<Action>)
    requires forall a :: a in actions && a.StartSupervisor? ==> a.reconcileOnly
    ensures var s := Run(Initial(), actions);
      && s.execution.None? && s.runnersLaunched == 0 && s.commandsStarted == 0
      && (s.holder.Some? ==> if s.holder.value.pc.Open? then s.holder.value.reconcileOnly
                             else s.holder.value.pc.Notify? && s.holder.value.pc.next == ThenExit)
  {
    if actions != [] {
      var before, last := actions[..|actions| - 1], actions[|actions| - 1];
      assert last in actions && forall a :: a in before ==> a in actions;
      ReconcilingReservesNothing(before);
      RunKeepsInv(Initial(), before);
      var s := Run(Initial(), before);
      hide Run;
      NothingReserved(s, last);
      StepKeepsInv(s, last);
    }
  }

  lemma NothingReserved(s: State, a: Action)
    requires CommandInv(s) && s.execution.None? && s.runnersLaunched == 0 && s.commandsStarted == 0
    requires a.StartSupervisor? ==> a.reconcileOnly
    requires s.holder.Some? ==> if s.holder.value.pc.Open? then s.holder.value.reconcileOnly
                                else s.holder.value.pc.Notify? && s.holder.value.pc.next == ThenExit
    ensures var t := Step(s, a);
      && t.execution.None? && t.runnersLaunched == 0 && t.commandsStarted == 0
      && (t.holder.Some? ==> if t.holder.value.pc.Open? then t.holder.value.reconcileOnly
                             else t.holder.value.pc.Notify? && t.holder.value.pc.next == ThenExit)
  {
    hide ExecuteStep, NotifyStep, CommandInv;
    if a.SupervisorStep? && s.holder.Some? {
      var p := s.holder.value;
      if p.pc.Notify? {
        NotifyFrame(s, p, p.pc.kind, p.pc.stage, p.pc.next, a.answers);
      }
    } else if a.RunnerStep? && a.pid in s.runners {
      ExecuteFrame(s, a.pid, s.runners[a.pid], a.runnerAnswers);
      NoCommandYet(s, a.pid, s.runners[a.pid], a.runnerAnswers);
    }
  }

  lemma NoCommandYet(s: State, pid: Pid, r: Runner, answers: Answers)
    requires CommandInv(s) && s.execution.None? && pid in s.runners && s.runners[pid] == r
    ensures ExecuteStep(s, pid, r, answers).commandsStarted == s.commandsStarted
  {
    assert RunnerInv(s, pid, r);
  }

  /** A finished record whose receipt digests less than the log has by now. */
  ghost predicate Tampered(s: State) {
    && s.execution.Some? && s.execution.value.status == Finished && !s.execution.value.preflightFailed
    && s.receipt.Some? && s.receipt.value.status == Finished && s.receipt.value.logDigest < s.log
    && (s.holder.Some? ==> s.holder.value.pc.Open?
                           || (s.holder.value.pc.Notify? && s.holder.value.pc.next == ThenExit
                               && (s.holder.value.pc.kind == RegistrationInvalidEvent
                                   || s.holder.value.pc.kind == EvidenceInvalidEvent)))
  }

  lemma TamperedStays(s: State, a: Action)
    requires CommandInv(s) && LaunchInv(s) && Tampered(s)
    ensures Tampered(Step(s, a)) && (FinishedEvent in Step(s, a).events ==> FinishedEvent in s.events)
  {
    hide ExecuteStep, NotifyStep, CommandInv, LaunchInv;
    if a.SupervisorStep? && s.holder.Some? {
      var p := s.holder.value;
      if p.pc.Notify? {
        NotifyFrame(s, p, p.pc.kind, p.pc.stage, p.pc.next, a.answers);
        NotifyOnly(s, p, p.pc.kind, p.pc.stage, p.pc.next, a.answers, FinishedEvent);
      }
    } else if a.RunnerStep? && a.pid in s.runners {
      ExecuteFrame(s, a.pid, s.runners[a.pid], a.runnerAnswers);
    }
  }

  /** Behind a log that was written to after the finish, no later supervisor announces the finish. */
  lemma {:induction false} TamperedNotAnnounced(s: State, actions: seq<Action>)
    requires Inv(s) && Tampered(s) && FinishedEvent !in s.events
    ensures FinishedEvent !in Run(s, actions).events && Tampered(Run(s, actions))
  {
    if actions != [] {
      var before := actions[..|actions| - 1];
      TamperedNotAnnounced(s, before);
      RunKeepsInv(s, before);
      hide Step, Tampered;
      TamperedStays(Run(s, before), actions[|actions| - 1]);
    }
  }

  /**
   * A supervisor that finds a finished record goes on to announce it exactly when receipt and log are still
   * what was promoted: finished, of the same spec, with the same log, the same receipt and the same summary.
   * Otherwise it ends and leaves everything as it was; so it does when its own spec is another.
   */
  lemma ReplayChecksEvidence(s: State, specDigest: Digest, reconcileOnly: bool, answers: Answers)
    requires s.holder.None? && s.execution.Some?
    requires s.execution.value.status == Finished && !s.execution.value.preflightFailed
    ensures var found := s.execution.value;
      var t := Step(Step(s, StartSupervisor(specDigest, reconcileOnly)), SupervisorStep(answers));
      var intact := && found.specDigest == specDigest && s.receipt.Some? && s.receipt.value.status == Finished
                    && s.receipt.value.specDigest == specDigest && s.receipt.value.logDigest == s.log
                    && found.sealed == s.receipt && found.summary == s.receipt.value.summary;
      t == if intact then s.(holder := Some(Supervisor(specDigest, reconcileOnly, Notify(FinishedEvent, Look, ThenExit), found)))
           else s
  {
    var p := Supervisor(specDigest, reconcileOnly, Open, NO_RECORD);
    assert Step(s, StartSupervisor(specDigest, reconcileOnly)) == s.(holder := Some(p));
  }

  /** The record of a failed preflight is announced again as such, without any receipt. */
  lemma ReplayOfPreflight(s: State, reconcileOnly: bool, answers: Answers)
    requires s.holder.None? && s.execution.Some?
    requires s.execution.value.status == Finished && s.execution.value.preflightFailed
    ensures var found := s.execution.value;
      Step(Step(s, StartSupervisor(found.specDigest, reconcileOnly)), SupervisorStep(answers))
      == s.(holder := Some(Supervisor(found.specDigest, reconcileOnly, Notify(PreflightFailedEvent, Look, ThenExit), found)))
  {
    var p := Supervisor(s.execution.value.specDigest, reconcileOnly, Open, NO_RECORD);
    assert Step(s, StartSupervisor(s.execution.value.specDigest, reconcileOnly)) == s.(holder := Some(p));
  }

  // ---------------------------------------------------------------- crashes

  /** A crash takes the process and leaves the disk; a reboot takes every process. */
  lemma CrashesLeaveDisk(s: State, victim: Pid)
    ensures var a, b, c := Step(s, CrashSupervisor), Step(s, CrashRunner(victim)), Step(s, Reboot);
      && a == s.(holder := None)
      && b == s.(runners := s.runners - {victim}, runnerLock := b.runnerLock)
      && (victim in s.runners && s.runnerLock == Some(victim) ==> b.runnerLock.None?)
      && c == s.(holder := None, runners := map[], runnerLock := None)
  {
    assert victim !in s.runners ==> s.runners - {victim} == s.runners;
  }

  /** Recovery after a crash or a reboot: a supervisor started anew finishes the record. */
  lemma RecoveryAfterCrash(past: seq<Action>, crash: Action, actions: seq<Action>)
    requires Recoverable(Run(Initial(), past)) && (crash == CrashSupervisor || crash == Reboot)
    requires (forall a :: a in actions ==> Undisturbed(a)) && SupervisorSteps(actions) >= 5
    ensures var s := Run(Initial(), past);
      var t := Run(Initial(), past + [crash] + [StartSupervisor(s.execution.value.specDigest, false)] + actions);
      && Recovered(t) && Agrees(t.execution.value, s.receipt)
      && t.runnersLaunched == s.runnersLaunched && t.commandsStarted == s.commandsStarted
  {
    var s := Run(Initial(), past);
    var start := StartSupervisor(s.execution.value.specDigest, false);
    RunAppend(Initial(), past, crash);
    var u := Run(Initial(), past + [crash]);
    assert u.holder.None? && Recoverable(u) && u.execution == s.execution && u.receipt == s.receipt
      && u.runnersLaunched == s.runnersLaunched && u.commandsStarted == s.commandsStarted;
    RunAppend(Initial(), past + [crash], start);
    hide Run, Step, SupervisorSteps, Recoverable, Agrees, Recovered;
    RunConcat(Initial(), past + [crash] + [start], actions);
    Recovery(past + [crash], false, actions);
  }
}
