/**
 * What the checks of the installer and of the service wrapper are good for, over whole runs: no entry
 * without a verified runtime and spec, no change of a registration that is not idle, no second spec.
 */
module RegistrationChecks {

  import opened Bytes
  import opened Options
  import opened Registration

  // ---------------------------------------------------------------- entries

  /** At this place of a run a service verified runtime and spec of an installed record at its own runtime. */
  ghost predicate Checked(home: string, actions: seq<Action>, i: nat, key: Key, here: string, record: Record) {
    && i < |actions| && actions[i].ServiceStep? && actions[i].valid
    && var s := Run(Initial(home), actions[..i]);
      key in s.registry && s.registry[key] == record && record.lifecycle == Installed && record.runtime == here
  }

  ghost predicate WasChecked(home: string, actions: seq<Action>, key: Key, here: string, record: Record) {
    exists i: nat :: Checked(home, actions, i, key, here, record)
  }

  lemma CheckedStays(home: string, actions: seq<Action>, a: Action, key: Key, here: string, record: Record)
    requires WasChecked(home, actions, key, here, record)
    ensures WasChecked(home, actions + [a], key, here, record)
  {
    hide Run;
    var i: nat :| Checked(home, actions, i, key, here, record);
    assert (actions + [a])[..i] == actions[..i];
    assert Checked(home, actions + [a], i, key, here, record);
  }

  /** What a service step reads, and what it enters. */
  lemma ServiceReads(s: State, a: Action)
    ensures var t := Step(s, a);
      && (forall pid :: pid in t.services && t.services[pid].seen.Some? ==>
            var p := t.services[pid];
            || (pid in s.services && s.services[pid] == p)
            || (a.ServiceStep? && a.valid && p.key in s.registry && s.registry[p.key] == p.seen.value
                && p.seen.value.lifecycle == Installed && p.seen.value.runtime == p.here))
      && (forall e :: e in t.entered ==>
            || e in s.entered
            || exists pid :: pid in s.services && s.services[pid] == Service(e.key, e.here, Some(e.record)))
  {
    hide InstallStep, BeginRegister, BeginChange;
    match a
    case Register(spec, python, runtime, freshDir) => RegisterFrame(s, spec, python, runtime, freshDir);
    case ChangeLifecycle(other, change, idle) => ChangeFrame(s, other, change, idle);
    case InstallerStep(ok) => if s.installer.Some? { InstallFrame(s, s.installer.value); }
    case _ =>
  }

  /** So it is with every record a service has read, and with every entry. */
  ghost predicate AllChecked(home: string, actions: seq<Action>, s: State) {
    && (forall pid :: pid in s.services && s.services[pid].seen.Some? ==>
          WasChecked(home, actions, s.services[pid].key, s.services[pid].here, s.services[pid].seen.value))
    && (forall e :: e in s.entered ==> WasChecked(home, actions, e.key, e.here, e.record))
  }

  lemma {:induction false} EveryEntryChecked(home: string, actions: seq<Action>)
    ensures AllChecked(home, actions, Run(Initial(home), actions))
  {
    if actions != [] {
      var n := |actions| - 1;
      EveryEntryChecked(home, actions[..n]);
      assert actions == actions[..n] + [actions[n]];
      hide AllChecked, Step;
      OneMoreChecked(home, actions[..n], actions[n]);
    }
  }

  lemma OneMoreChecked(home: string, before: seq<Action>, a: Action)
    requires AllChecked(home, before, Run(Initial(home), before))
    ensures AllChecked(home, before + [a], Step(Run(Initial(home), before), a))
  {
    var actions, s := before + [a], Run(Initial(home), before);
    var t := Step(s, a);
    ServiceReads(s, a);
    assert actions[..|before|] == before;
    hide Run, Step;
    forall pid | pid in t.services && t.services[pid].seen.Some?
      ensures WasChecked(home, actions, t.services[pid].key, t.services[pid].here, t.services[pid].seen.value)
    {
      var p := t.services[pid];
      if pid in s.services && s.services[pid] == p {
        CheckedStays(home, before, a, p.key, p.here, p.seen.value);
      } else {
        CheckedNow(home, actions, |before|, p.key, p.here, p.seen.value);
      }
    }
    forall e | e in t.entered
      ensures WasChecked(home, actions, e.key, e.here, e.record)
    {
      if e !in s.entered {
        var pid :| pid in s.services && s.services[pid] == Service(e.key, e.here, Some(e.record));
        assert s.services[pid].seen.Some?;
      }
      CheckedStays(home, before, a, e.key, e.here, e.record);
    }
  }

  lemma CheckedNow(home: string, actions: seq<Action>, n: nat, key: Key, here: string, record: Record)
    requires Checked(home, actions, n, key, here, record)
    ensures WasChecked(home, actions, key, here, record)
  {
  }

  /**
   * Every entry into the supervisor goes back to a step at which runtime and spec were verified, while the
   * record was installed and named the runtime the service ran from.
   */
  lemma EntryWasChecked(home: string, actions: seq<Action>, e: Entry)
    requires e in Run(Initial(home), actions).entered
    ensures WasChecked(home, actions, e.key, e.here, e.record)
  {
    EveryEntryChecked(home, actions);
  }

  /** So the supervisor is only entered in runs in which some verification succeeded. */
  lemma EntryNeedsValid(home: string, actions: seq<Action>, e: Entry)
    requires e in Run(Initial(home), actions).entered
    ensures exists a :: a in actions && a.ServiceStep? && a.valid
  {
    EntryWasChecked(home, actions, e);
    var i: nat :| Checked(home, actions, i, e.key, e.here, e.record);
    assert actions[i] in actions;
  }

  /** A verified service on an installed record at its own runtime does enter, with its second step. */
  lemma ValidEnters(s: State, pid: Pid, key: Key, again: bool)
    requires pid !in s.services && key in s.registry && s.registry[key].lifecycle == Installed
    ensures var record := s.registry[key];
      var t := Step(Step(Step(s, StartService(pid, key, record.runtime)), ServiceStep(pid, true)), ServiceStep(pid, again));
      t == s.(entered := s.entered + [Entry(key, record.runtime, record)])
  {
    var record := s.registry[key];
    var s1 := s.(services := s.services[pid := Service(key, record.runtime, None)]);
    var s2 := s.(services := s.services[pid := Service(key, record.runtime, Some(record))]);
    assert Step(s, StartService(pid, key, record.runtime)) == s1;
    assert Step(s1, ServiceStep(pid, true)) == s2;
    assert s2.services - {pid} == s.services;
  }

  // ---------------------------------------------------------------- registering

  /**
   * A registration begins exactly when no installer is at work, no other key has the event directory and,
   * for a key that is known, spec digest and path are the known ones, for a new key, the directory is fresh.
   * Otherwise nothing changes.
   */
  lemma RegisterExactly(s: State, spec: Spec, python: string, runtime: string, freshDir: bool)
    ensures var t := Step(s, Register(spec, python, runtime, freshDir));
      && (t != s <==>
            && s.installer.None?
            && (forall other :: other in s.registry && s.registry[other].eventDir == spec.eventDir ==> other == spec.key)
            && (if spec.key in s.registry
                then s.registry[spec.key].digest == spec.digest && s.registry[spec.key].path == spec.path
                else freshDir))
      && (t != s ==> t.installer.Some? && t == s.(installer := t.installer) && t.installer.value.key == spec.key)
  {
  }

  /** A spec with another digest, or from another path, than the one registered changes nothing, ever. */
  lemma {:induction false} OtherSpecRefused(s: State, key: Key, actions: seq<Action>)
    requires Inv(s) && key in s.registry && s.installer.None?
    requires forall a :: a in actions ==>
               a.Register? && a.spec.key == key
               && (a.spec.digest != s.registry[key].digest || a.spec.path != s.registry[key].path)
    ensures Run(s, actions) == s
  {
    if actions != [] {
      var n := |actions| - 1;
      assert actions[n] in actions;
      OtherSpecRefused(s, key, actions[..n]);
      RegisterExactly(s, actions[n].spec, actions[n].python, actions[n].runtime, actions[n].freshDir);
      hide Step;
    }
  }

  // ---------------------------------------------------------------- changing

  /**
   * An upgrade or an uninstall begins exactly when no installer is at work and the key is registered and idle,
   * its unit file is absent, as registered or the recorded previous one, and, for an upgrade, the key is
   * installed. Otherwise nothing changes; a unit edited by hand is never touched.
   */
  lemma ChangeExactly(s: State, key: Key, change: Change, idle: bool)
    ensures var t := Step(s, ChangeLifecycle(key, change, idle));
      && (t != s <==>
            && s.installer.None? && key in s.registry && idle
            && Text(s.home, key, s.registry[key]).Ok?
            && (key in s.units ==>
                  Ok(s.units[key]) == Text(s.home, key, s.registry[key])
                  || s.registry[key].previousUnit == Some(s.units[key]))
            && (change.Upgrade? ==> s.registry[key].lifecycle == Installed))
      && (t != s ==> t.installer.Some? && t == s.(installer := t.installer) && t.installer.value.key == key)
  {
    hide Text;
  }

  /** Crashes and reboots take processes, and leave registrations, units and what was entered. */
  lemma CrashesLeaveRegistrations(s: State, pid: Pid)
    ensures Step(s, CrashInstaller) == s.(installer := None)
    ensures Step(s, CrashService(pid)) == s.(services := s.services - {pid})
    ensures Step(s, Reboot) == s.(installer := None, services := map[])
  {
  }

  /** An upgrade or an uninstall of this key is under way. */
  predicate Changing(s: State, key: Key) {
    s.installer.Some? && s.installer.value.key == key
    && match s.installer.value.pc {
         case SaveNew => false
         case CheckUnit => false
         case SaveReinstalled => false
         case WriteUnit => false
         case _ => true
       }
  }

  /** The registration stands, at its runtime, with its unit. */
  ghost predicate Stands(s: State, t: State, key: Key) {
    && key in s.registry && key in t.registry
    && t.registry[key].runtime == s.registry[key].runtime
    && t.registry[key].previousUnit == s.registry[key].previousUnit
    && t.registry[key].history == s.registry[key].history
    && (s.registry[key].lifecycle == Installed ==> t.registry[key].lifecycle == Installed)
    && (key in s.units ==> key in t.units && t.units[key] == s.units[key])
  }

  lemma InstallStands(s: State, p: Installer, key: Key)
    requires s.installer == Some(p) && InstallerInv(s, p) && key in s.registry && !Changing(s, key)
    ensures Stands(s, InstallStep(s, p), key) && !Changing(InstallStep(s, p), key)
  {
    if p.key == key {
      OwnStands(s, p);
    } else {
      OtherStands(s, p, key);
    }
    hide *;
  }

  lemma OtherStands(s: State, p: Installer, key: Key)
    requires s.installer == Some(p) && key in s.registry && p.key != key
    ensures Stands(s, InstallStep(s, p), key) && !Changing(InstallStep(s, p), key)
  {
    hide Text;
  }

  lemma OwnStands(s: State, p: Installer)
    requires s.installer == Some(p) && InstallerInv(s, p) && p.key in s.registry
    requires p.pc == CheckUnit || p.pc == SaveReinstalled || p.pc == WriteUnit || p.pc == SaveNew
    ensures Stands(s, InstallStep(s, p), p.key) && !Changing(InstallStep(s, p), p.key)
  {
    hide Text, RecordInv, UnitInv, SameIdentity;
  }

  lemma RegisterStands(s: State, spec: Spec, python: string, runtime: string, freshDir: bool, key: Key)
    requires key in s.registry && !Changing(s, key)
    ensures var t := BeginRegister(s, spec, python, runtime, freshDir); Stands(s, t, key) && !Changing(t, key)
  {
    hide DirTaken;
  }

  lemma ChangeStands(s: State, other: Key, change: Change, idle: bool, key: Key)
    requires key in s.registry && !Changing(s, key) && (other == key ==> !idle)
    ensures var t := BeginChange(s, other, change, idle); Stands(s, t, key) && !Changing(t, key)
  {
    if other == key {
      hide Text;
    } else {
      ChangeFrame(s, other, change, idle);
      hide BeginChange;
    }
  }

  lemma StepStands(s: State, a: Action, key: Key)
    requires s.installer.Some? ==> InstallerInv(s, s.installer.value)
    requires key in s.registry && !Changing(s, key)
    requires a.ChangeLifecycle? && a.key == key ==> !a.idle
    ensures Stands(s, Step(s, a), key) && !Changing(Step(s, a), key)
  {
    hide InstallStep, BeginRegister, BeginChange, InstallerInv;
    match a
    case Register(spec, python, runtime, freshDir) => RegisterStands(s, spec, python, runtime, freshDir, key);
    case ChangeLifecycle(other, change, idle) => ChangeStands(s, other, change, idle, key);
    case InstallerStep(ok) => if s.installer.Some? && ok { InstallStands(s, s.installer.value, key); }
    case _ =>
  }

  /**
   * As long as the service of a registration is never found idle, no change begins: it keeps its runtime, its
   * unit and its place among the installed, whatever is attempted on it or done to others.
   */
  lemma {:induction false} BusyStands(s: State, actions: seq<Action>, key: Key)
    requires Inv(s) && key in s.registry && !Changing(s, key)
    requires forall a :: a in actions && a.ChangeLifecycle? && a.key == key ==> !a.idle
    ensures Stands(s, Run(s, actions), key) && !Changing(Run(s, actions), key)
  {
    if actions != [] {
      var before, last := actions[..|actions| - 1], actions[|actions| - 1];
      assert last in actions && forall a :: a in before ==> a in actions;
      BusyStands(s, before, key);
      RunKeepsInv(s, before);
      hide Step, Changing, RecordInv, UnitInv, EntryInv, InstallerInv;
      StepStands(Run(s, before), last, key);
    }
  }
}
