/**
 * Installing, upgrading and uninstalling a durable event supervisor: registration records and systemd
 * unit files, each saved atomically. The installer may die or fail between any two saves; a service
 * process reads its record in one step and enters the supervisor in another.
 */
module Registration {

  import opened Bytes
  import opened Options
  import opened ServiceUnit

  type Key = string
  type Digest = nat
  type Pid = nat

  /** The parts of a job spec that registration looks at. The key digests the execution identity. */
  datatype Spec = Spec(key: Key, path: string, eventDir: string, digest: Digest)

  datatype Lifecycle = Installed | Uninstalled

  /** A registration record; `history` holds the runtimes it was upgraded from. */
  datatype Record = Record(path: string, eventDir: string, digest: Digest, python: string, runtime: string,
                           lifecycle: Lifecycle, previousUnit: Option<string>, history: seq<string>)

  datatype InstallerPc =
    | SaveNew
    | CheckUnit
    | SaveReinstalled
    | WriteUnit
    | SaveTombstone
    | RemoveUnit
    | SaveUpgrade
    | WriteUpgrade
    | SaveUpgraded

  /** The process holding the registry lock, with its copy of the record. */
  datatype Installer = Installer(key: Key, pc: InstallerPc, record: Record)

  /** A service process run from the runtime `here`; once it has read its record it is about to enter. */
  datatype Service = Service(key: Key, here: string, seen: Option<Record>)

  /** One entry into the supervisor: for which key, from which runtime, on which record. */
  datatype Entry = Entry(key: Key, here: string, record: Record)

  datatype State = State(home: string, registry: map<Key, Record>, units: map<Key, string>,
                         installer: Option<Installer>, services: map<Pid, Service>, entered: seq<Entry>)

  function Initial(home: string): State {
    State(home, map[], map[], None, map[], [])
  }

  function RecordPath(home: string, key: Key): string {
    home + "/registrations/" + key + ".json"
  }

  /** The unit text of a key for an interpreter and a runtime. */
  function TextAt(home: string, key: Key, python: string, runtime: string): Outcome<string> {
    UnitText(python, runtime, RecordPath(home, key))
  }

  function Text(home: string, key: Key, record: Record): Outcome<string> {
    TextAt(home, key, record.python, record.runtime)
  }

  // ---------------------------------------------------------------- the steps

  datatype Change = Uninstall | Upgrade(runtime: string)

  /**
   * `freshDir`: the event directory is absent or empty. `idle`: the service is inactive, the event
   * directory's lock is free and its execution is finished. `valid`: runtime and spec verify.
   */
  datatype Action =
    | Register(spec: Spec, python: string, runtime: string, freshDir: bool)
    | ChangeLifecycle(key: Key, change: Change, idle: bool)
    | InstallerStep(ok: bool)
    | CrashInstaller
    | StartService(pid: Pid, service: Key, here: string)
    | ServiceStep(pid: Pid, valid: bool)
    | CrashService(pid: Pid)
    | Reboot

  predicate DirTaken(s: State, spec: Spec) {
    exists other :: other in s.registry && other != spec.key && s.registry[other].eventDir == spec.eventDir
  }

  function Step(s: State, a: Action): State {
    match a
    case Register(spec, python, runtime, freshDir) => BeginRegister(s, spec, python, runtime, freshDir)
    case ChangeLifecycle(key, change, idle) => BeginChange(s, key, change, idle)
    case InstallerStep(ok) =>
      if s.installer.None? then s
      else if !ok then s.(installer := None)
      else InstallStep(s, s.installer.value)
    case CrashInstaller => s.(installer := None)
    case StartService(pid, key, here) =>
      if pid in s.services then s else s.(services := s.services[pid := Service(key, here, None)])
    case ServiceStep(pid, valid) =>
      if pid in s.services then RunService(s, pid, s.services[pid], valid) else s
    case CrashService(pid) => s.(services := s.services - {pid})
    case Reboot => s.(installer := None, services := map[])
  }

  /** `register`, up to its first save; a rejected registration changes nothing. */
  function BeginRegister(s: State, spec: Spec, python: string, runtime: string, freshDir: bool): State {
    if s.installer.Some? || DirTaken(s, spec) then s
    else if spec.key in s.registry then
      var record := s.registry[spec.key];
      if record.digest != spec.digest || record.path != spec.path then s
      else s.(installer := Some(Installer(spec.key, CheckUnit, record)))
    else if !freshDir then s
    else
      var record := Record(spec.path, spec.eventDir, spec.digest, python, runtime, Installed, None, []);
      s.(installer := Some(Installer(spec.key, SaveNew, record)))
  }

  /** `lifecycle`, up to its first save. */
  function BeginChange(s: State, key: Key, change: Change, idle: bool): State {
    if s.installer.Some? || key !in s.registry || !idle then s
    else
      var record := s.registry[key];
      var expected := Text(s.home, key, record);
      if expected.Rejected? then s
      else if key in s.units && s.units[key] != expected.value && Some(s.units[key]) != record.previousUnit then s
      else
        match change
        case Uninstall => s.(installer := Some(Installer(key, SaveTombstone, record.(lifecycle := Uninstalled))))
        case Upgrade(runtime) =>
          if record.lifecycle != Installed then s
          else
            var previous := if key in s.units then s.units[key] else expected.value;
            var changed := record.(runtime := runtime, previousUnit := Some(previous),
                                   history := record.history + [record.runtime]);
            s.(installer := Some(Installer(key, SaveUpgrade, changed)))
  }

  function Saved(s: State, p: Installer, next: Option<Installer>): State {
    s.(registry := s.registry[p.key := p.record], installer := next)
  }

  function InstallStep(s: State, p: Installer): State {
    match p.pc
    case SaveNew => Saved(s, p, Some(p.(pc := CheckUnit)))
    case CheckUnit =>
      var content := Text(s.home, p.key, p.record);
      if content.Rejected? || (p.key in s.units && s.units[p.key] != content.value) then s.(installer := None)
      else if p.record.lifecycle == Uninstalled then
        s.(installer := Some(p.(pc := SaveReinstalled, record := p.record.(lifecycle := Installed))))
      else s.(installer := Some(p.(pc := WriteUnit)))
    case SaveReinstalled => Saved(s, p, Some(p.(pc := WriteUnit)))
    case WriteUnit =>
      var content := Text(s.home, p.key, p.record);
      if p.key in s.units || content.Rejected? then s.(installer := None)
      else s.(installer := None, units := s.units[p.key := content.value])
    case SaveTombstone => Saved(s, p, Some(p.(pc := RemoveUnit)))
    case RemoveUnit => s.(installer := None, units := s.units - {p.key})
    case SaveUpgrade => Saved(s, p, Some(p.(pc := WriteUpgrade)))
    case WriteUpgrade =>
      var content := Text(s.home, p.key, p.record);
      if content.Rejected? then s.(installer := None)
      else s.(installer := Some(p.(pc := SaveUpgraded, record := p.record.(previousUnit := None))),
              units := s.units[p.key := content.value])
    case SaveUpgraded => Saved(s, p, None)
  }

  /** `run`: read the record and check it, then enter the supervisor. */
  function RunService(s: State, pid: Pid, p: Service, valid: bool): State {
    var ended := s.(services := s.services - {pid});
    match p.seen
    case None =>
      if p.key !in s.registry || s.registry[p.key].lifecycle != Installed then ended
      else if !valid || p.here != s.registry[p.key].runtime then ended
      else s.(services := s.services[pid := p.(seen := Some(s.registry[p.key]))])
    case Some(record) => ended.(entered := s.entered + [Entry(p.key, p.here, record)])
  }

  function Run(s: State, actions: seq<Action>): State {
    if actions == [] then s else Step(Run(s, actions[..|actions| - 1]), actions[|actions| - 1])
  }

  // ---------------------------------------------------------------- the invariant

  predicate SameIdentity(a: Record, b: Record) {
    a.path == b.path && a.eventDir == b.eventDir && a.digest == b.digest && a.python == b.python
  }

  /** The text of a record's unit at one of the runtimes it was upgraded from. */
  ghost predicate TextOfEarlier(home: string, key: Key, python: string, history: seq<string>, text: string) {
    exists i :: 0 <= i < |history| && TextAt(home, key, python, history[i]) == Ok(text)
  }

  ghost predicate RecordInv(home: string, key: Key, record: Record) {
    record.previousUnit.Some? ==> TextOfEarlier(home, key, record.python, record.history, record.previousUnit.value)
  }

  ghost predicate UnitInv(home: string, units: map<Key, string>, key: Key, record: Record) {
    key in units ==> Text(home, key, record) == Ok(units[key]) || record.previousUnit == Some(units[key])
  }

  ghost predicate InstallerInv(s: State, p: Installer) {
    && RecordInv(s.home, p.key, p.record)
    && (p.pc == SaveNew ==>
          && p.key !in s.registry && p.record.previousUnit.None?
          && (forall k :: k in s.registry ==> s.registry[k].eventDir != p.record.eventDir))
    && (p.pc != SaveNew ==>
          && p.key in s.registry && SameIdentity(p.record, s.registry[p.key])
          && UnitInv(s.home, s.units, p.key, p.record))
    && (p.pc != SaveNew && p.pc != SaveUpgrade && p.pc != SaveUpgraded ==>
          var saved := s.registry[p.key];
          p.record == saved.(lifecycle := p.record.lifecycle))
    && (p.pc == SaveTombstone ==> p.record.lifecycle == Uninstalled)
    && (p.pc == SaveReinstalled ==> p.record.lifecycle == Installed)
    && (p.pc == RemoveUnit ==> s.registry[p.key].lifecycle == Uninstalled)
  }

  ghost predicate EntryInv(s: State, key: Key, here: string, record: Record) {
    && key in s.registry && SameIdentity(record, s.registry[key])
    && record.lifecycle == Installed && record.runtime == here
  }

  ghost predicate Inv(s: State) {
    && (forall k, k' :: k in s.registry && k' in s.registry && k != k' ==>
          s.registry[k].eventDir != s.registry[k'].eventDir)
    && (forall k :: k in s.registry ==> RecordInv(s.home, k, s.registry[k]) && UnitInv(s.home, s.units, k, s.registry[k]))
    && s.units.Keys <= s.registry.Keys
    && (s.installer.Some? ==> InstallerInv(s, s.installer.value))
    && (forall pid :: pid in s.services && s.services[pid].seen.Some? ==>
          EntryInv(s, s.services[pid].key, s.services[pid].here, s.services[pid].seen.value))
    && (forall e :: e in s.entered ==> EntryInv(s, e.key, e.here, e.record))
  }

  lemma RegisterKeepsInv(s: State, spec: Spec, python: string, runtime: string, freshDir: bool)
    requires Inv(s)
    ensures Inv(BeginRegister(s, spec, python, runtime, freshDir))
  {
    hide UnitText;
  }

  lemma UpgradedRecord(home: string, key: Key, record: Record, runtime: string, previous: string)
    requires RecordInv(home, key, record)
    requires Text(home, key, record) == Ok(previous) || record.previousUnit == Some(previous)
    ensures RecordInv(home, key, record.(runtime := runtime, previousUnit := Some(previous),
                                         history := record.history + [record.runtime]))
  {
    var changed := record.(runtime := runtime, previousUnit := Some(previous),
                           history := record.history + [record.runtime]);
    if Text(home, key, record) == Ok(previous) {
      assert TextAt(home, key, record.python, changed.history[|record.history|]) == Ok(previous);
    } else {
      var i :| 0 <= i < |record.history| && TextAt(home, key, record.python, record.history[i]) == Ok(previous);
      assert TextAt(home, key, record.python, changed.history[i]) == Ok(previous);
    }
  }

  lemma UninstallBegins(s: State, key: Key, idle: bool)
    requires s.installer.None? && key in s.registry
    requires RecordInv(s.home, key, s.registry[key]) && UnitInv(s.home, s.units, key, s.registry[key])
    ensures var t := BeginChange(s, key, Uninstall, idle);
      t == s || (t.installer.Some? && t == s.(installer := t.installer) && InstallerInv(s, t.installer.value))
  {
    hide TextAt, TextOfEarlier;
  }

  lemma UpgradeInstaller(s: State, key: Key, changed: Record)
    requires key in s.registry && SameIdentity(changed, s.registry[key])
    requires RecordInv(s.home, key, changed) && UnitInv(s.home, s.units, key, changed)
    ensures InstallerInv(s, Installer(key, SaveUpgrade, changed))
  {
    hide RecordInv, UnitInv, SameIdentity;
  }

  lemma UpgradeBegins(s: State, key: Key, runtime: string, idle: bool)
    requires s.installer.None? && key in s.registry
    requires RecordInv(s.home, key, s.registry[key]) && UnitInv(s.home, s.units, key, s.registry[key])
    ensures var t := BeginChange(s, key, Upgrade(runtime), idle);
      t == s || (t.installer.Some? && t == s.(installer := t.installer) && InstallerInv(s, t.installer.value))
  {
    var record := s.registry[key];
    var expected := Text(s.home, key, record);
    if expected.Ok? {
      var previous := if key in s.units then s.units[key] else expected.value;
      var changed := record.(runtime := runtime, previousUnit := Some(previous),
                             history := record.history + [record.runtime]);
      UpgradedRecord(s.home, key, record, runtime, previous);
      UpgradeInstaller(s, key, changed);
      hide Text, RecordInv, UnitInv, InstallerInv;
    }
  }

  lemma BeginningKeepsInv(s: State, t: State)
    requires Inv(s) && t.installer.Some? && t == s.(installer := t.installer)
    requires InstallerInv(s, t.installer.value)
    ensures Inv(t)
  {
    hide RecordInv, UnitInv;
  }

  lemma ChangeKeepsInv(s: State, key: Key, change: Change, idle: bool)
    requires Inv(s)
    ensures Inv(BeginChange(s, key, change, idle))
  {
    var t := BeginChange(s, key, change, idle);
    if t != s {
      match change {
        case Uninstall => UninstallBegins(s, key, idle);
        case Upgrade(runtime) => UpgradeBegins(s, key, runtime, idle);
      }
      hide Inv, InstallerInv, BeginChange;
      BeginningKeepsInv(s, t);
    }
  }

  /** Saving changes no registration's identity, and gives away no directory twice. */
  lemma SavedIdentities(s: State, p: Installer, next: Option<Installer>)
    requires Inv(s) && s.installer == Some(p)
    ensures var t := Saved(s, p, next);
      && (forall k :: k in s.registry ==> k in t.registry && SameIdentity(s.registry[k], t.registry[k]))
      && (forall k, k' :: k in t.registry && k' in t.registry && k != k' ==>
            t.registry[k].eventDir != t.registry[k'].eventDir)
  {
    hide RecordInv, UnitInv, EntryInv;
  }

  lemma SavedRecords(s: State, p: Installer, next: Option<Installer>)
    requires Inv(s) && s.installer == Some(p)
    requires p.pc == SaveNew || UnitInv(s.home, s.units, p.key, p.record)
    ensures var t := Saved(s, p, next);
      forall k :: k in t.registry ==> RecordInv(s.home, k, t.registry[k]) && UnitInv(s.home, s.units, k, t.registry[k])
  {
    if p.pc == SaveNew {
      NoUnit(s.home, s.units, p.key, p.record);
    }
    hide RecordInv, UnitInv, EntryInv, SameIdentity;
  }

  lemma EntryKept(s: State, t: State, key: Key, here: string, record: Record)
    requires EntryInv(s, key, here, record) && key in t.registry && SameIdentity(s.registry[key], t.registry[key])
    ensures EntryInv(t, key, here, record)
  {
  }

  /** Entries stay as registered as long as registrations keep their identity. */
  lemma EntriesKept(s: State, t: State)
    requires Inv(s) && t.services == s.services && t.entered == s.entered
    requires forall k :: k in s.registry ==> k in t.registry && SameIdentity(s.registry[k], t.registry[k])
    ensures forall pid :: pid in t.services && t.services[pid].seen.Some? ==>
              EntryInv(t, t.services[pid].key, t.services[pid].here, t.services[pid].seen.value)
    ensures forall e :: e in t.entered ==> EntryInv(t, e.key, e.here, e.record)
  {
    hide SameIdentity, RecordInv, UnitInv, InstallerInv;
    forall pid | pid in t.services && t.services[pid].seen.Some?
      ensures EntryInv(t, t.services[pid].key, t.services[pid].here, t.services[pid].seen.value)
    {
      EntryKept(s, t, t.services[pid].key, t.services[pid].here, t.services[pid].seen.value);
    }
    forall e | e in t.entered
      ensures EntryInv(t, e.key, e.here, e.record)
    {
      EntryKept(s, t, e.key, e.here, e.record);
    }
  }

  /** Saving the installer's record keeps everything, for any installer whose record matches the disk. */
  lemma SaveKeepsInv(s: State, p: Installer, next: Option<Installer>)
    requires Inv(s) && s.installer == Some(p)
    requires p.pc == SaveNew || UnitInv(s.home, s.units, p.key, p.record)
    requires next.Some? ==> InstallerInv(Saved(s, p, next), next.value)
    ensures Inv(Saved(s, p, next))
  {
    SavedIdentities(s, p, next);
    SavedRecords(s, p, next);
    EntriesKept(s, Saved(s, p, next));
    hide InstallerInv, RecordInv, UnitInv, EntryInv, SameIdentity;
  }

  lemma NoUnit(home: string, units: map<Key, string>, key: Key, record: Record)
    requires key !in units
    ensures UnitInv(home, units, key, record)
  {
  }

  /** A step that saves no record may touch the unit of its own key. */
  lemma UnitStepKeepsInv(s: State, p: Installer, t: State)
    requires Inv(s) && s.installer == Some(p) && p.key in s.registry
    requires t == s.(units := t.units, installer := t.installer)
    requires t.units.Keys <= s.registry.Keys
    requires forall k :: k in t.units && k != p.key ==> k in s.units && t.units[k] == s.units[k]
    requires UnitInv(s.home, t.units, p.key, s.registry[p.key])
    requires t.installer.Some? ==> InstallerInv(t, t.installer.value)
    ensures Inv(t)
  {
    hide Text, RecordInv, InstallerInv;
  }

  lemma UnitStep(s: State, p: Installer)
    requires s.installer == Some(p) && InstallerInv(s, p)
    requires p.pc == CheckUnit || p.pc == WriteUnit || p.pc == RemoveUnit || p.pc == WriteUpgrade
    requires UnitInv(s.home, s.units, p.key, s.registry[p.key])
    ensures var t := InstallStep(s, p);
      && t == s.(units := t.units, installer := t.installer)
      && t.units.Keys <= s.units.Keys + {p.key}
      && (forall k :: k in t.units && k != p.key ==> k in s.units && t.units[k] == s.units[k])
      && UnitInv(s.home, t.units, p.key, s.registry[p.key])
      && (t.installer.Some? ==> InstallerInv(t, t.installer.value))
  {
    hide TextAt, TextOfEarlier;
  }

  lemma InstallKeepsInv(s: State, p: Installer)
    requires Inv(s) && s.installer == Some(p)
    ensures Inv(InstallStep(s, p))
  {
    hide TextAt, TextOfEarlier;
    match p.pc
    case SaveNew => SaveKeepsInv(s, p, Some(p.(pc := CheckUnit)));
    case SaveReinstalled => SaveKeepsInv(s, p, Some(p.(pc := WriteUnit)));
    case SaveTombstone => SaveKeepsInv(s, p, Some(p.(pc := RemoveUnit)));
    case SaveUpgrade => SaveKeepsInv(s, p, Some(p.(pc := WriteUpgrade)));
    case SaveUpgraded => SaveKeepsInv(s, p, None);
    case _ =>
      UnitStep(s, p);
      hide InstallStep;
      UnitStepKeepsInv(s, p, InstallStep(s, p));
  }

  lemma ServiceKeepsInv(s: State, pid: Pid, p: Service, valid: bool)
    requires Inv(s) && pid in s.services && s.services[pid] == p
    ensures Inv(RunService(s, pid, p, valid))
  {
    hide UnitText;
  }

  /** What happens to processes alone keeps the invariant. */
  lemma ProcessesKeepInv(s: State, t: State)
    requires Inv(s)
    requires t == s.(services := t.services, installer := t.installer)
    requires t.installer == s.installer || t.installer.None?
    requires forall pid :: pid in t.services && t.services[pid].seen.Some? ==>
               pid in s.services && t.services[pid] == s.services[pid]
    ensures Inv(t)
  {
    hide RecordInv, UnitInv;
  }

  lemma StepKeepsInv(s: State, a: Action)
    requires Inv(s)
    ensures Inv(Step(s, a))
  {
    hide BeginRegister, BeginChange, InstallStep, RunService, Inv;
    match a
    case Register(spec, python, runtime, freshDir) => RegisterKeepsInv(s, spec, python, runtime, freshDir);
    case ChangeLifecycle(key, change, idle) => ChangeKeepsInv(s, key, change, idle);
    case InstallerStep(ok) =>
      if ok && s.installer.Some? {
        InstallKeepsInv(s, s.installer.value);
      } else {
        ProcessesKeepInv(s, Step(s, a));
      }
    case ServiceStep(pid, valid) => if pid in s.services { ServiceKeepsInv(s, pid, s.services[pid], valid); }
    case _ => ProcessesKeepInv(s, Step(s, a));
  }

  lemma {:induction false} RunKeepsInv(s: State, actions: seq<Action>)
    requires Inv(s)
    ensures Inv(Run(s, actions))
  {
    if actions != [] {
      var before := actions[..|actions| - 1];
      RunKeepsInv(s, before);
      hide Inv, Step;
      StepKeepsInv(Run(s, before), actions[|actions| - 1]);
    }
  }

  // ---------------------------------------------------------------- safety over whole runs

  /** Different execution keys never share an event directory. */
  lemma DistinctDirectories(home: string, actions: seq<Action>, key: Key, other: Key)
    requires var s := Run(Initial(home), actions); key in s.registry && other in s.registry && key != other
    ensures var s := Run(Initial(home), actions); s.registry[key].eventDir != s.registry[other].eventDir
  {
    RunKeepsInv(Initial(home), actions);
  }

  /**
   * A unit file is the text for its registration at its current runtime, or else exactly the text that the
   * record keeps as the previous one, which is that of a runtime it was upgraded from.
   */
  lemma UnitNamesKnownRuntime(home: string, actions: seq<Action>, key: Key)
    requires key in Run(Initial(home), actions).units
    ensures var s := Run(Initial(home), actions);
      && key in s.registry
      && var record := s.registry[key];
      || UnitText(record.python, record.runtime, RecordPath(s.home, key)) == Ok(s.units[key])
      || (record.previousUnit == Some(s.units[key])
          && exists runtime :: runtime in record.history
               && UnitText(record.python, runtime, RecordPath(s.home, key)) == Ok(s.units[key]))
  {
    RunKeepsInv(Initial(home), actions);
    var s := Run(Initial(home), actions);
    var record := s.registry[key];
    assert RecordInv(s.home, key, record) && UnitInv(s.home, s.units, key, record);
    if Text(s.home, key, record) != Ok(s.units[key]) {
      var i :| 0 <= i < |record.history| && TextAt(s.home, key, record.python, record.history[i]) == Ok(s.units[key]);
      assert UnitText(record.python, record.history[i], RecordPath(s.home, key)) == Ok(s.units[key]);
    }
  }

  /** The supervisor is entered only on an installed record, from that record's runtime, for the registered spec. */
  lemma EnteredAsRegistered(home: string, actions: seq<Action>, e: Entry)
    requires e in Run(Initial(home), actions).entered
    ensures var s := Run(Initial(home), actions);
      && e.key in s.registry && SameIdentity(e.record, s.registry[e.key])
      && e.record.lifecycle == Installed && e.record.runtime == e.here
  {
    RunKeepsInv(Initial(home), actions);
  }

  lemma InstallRemoves(s: State, p: Installer, key: Key)
    requires s.installer == Some(p) && InstallerInv(s, p)
    ensures var t := InstallStep(s, p);
      key in s.units && key !in t.units ==>
        t.registry == s.registry && key in s.registry && s.registry[key].lifecycle == Uninstalled
  {
    hide Text, RecordInv, UnitInv, SameIdentity;
  }

  /** A unit file is only ever removed behind a tombstone. */
  lemma UnitRemovedBehindTombstone(home: string, past: seq<Action>, a: Action, key: Key)
    requires var s := Run(Initial(home), past); key in s.units && key !in Step(s, a).units
    ensures var s := Run(Initial(home), past);
      key in s.registry && s.registry[key].lifecycle == Uninstalled && Step(s, a).registry == s.registry
  {
    RunKeepsInv(Initial(home), past);
    RemovesBehindTombstone(Run(Initial(home), past), a, key);
    hide Run, Step, Inv;
  }

  lemma RemovesBehindTombstone(s: State, a: Action, key: Key)
    requires Inv(s) && key in s.units && key !in Step(s, a).units
    ensures key in s.registry && s.registry[key].lifecycle == Uninstalled && Step(s, a).registry == s.registry
  {
    assert s.installer.Some? ==> InstallerInv(s, s.installer.value);
    OthersKeepUnits(s, a);
    hide Inv, InstallerInv, InstallStep, BeginRegister, BeginChange, RunService;
    if a.InstallerStep? && s.installer.Some? {
      InstallRemoves(s, s.installer.value, key);
    }
  }

  lemma OthersKeepUnits(s: State, a: Action)
    ensures !a.InstallerStep? ==> Step(s, a).units == s.units
  {
    hide InstallStep, BeginRegister, BeginChange;
    match a
    case Register(spec, python, runtime, freshDir) => RegisterFrame(s, spec, python, runtime, freshDir);
    case ChangeLifecycle(other, change, idle) => ChangeFrame(s, other, change, idle);
    case _ =>
  }

  /** What no later step takes back: registrations with their spec, and entries. */
  ghost predicate Kept(s: State, t: State) {
    && (forall k :: k in s.registry ==> k in t.registry && SameIdentity(s.registry[k], t.registry[k]))
    && s.entered <= t.entered
  }

  lemma RegisterFrame(s: State, spec: Spec, python: string, runtime: string, freshDir: bool)
    ensures var t := BeginRegister(s, spec, python, runtime, freshDir);
      && t == s.(installer := t.installer)
      && (t == s || (t.installer.Some? && t.installer.value.key == spec.key))
  {
  }

  lemma ChangeFrame(s: State, key: Key, change: Change, idle: bool)
    ensures var t := BeginChange(s, key, change, idle);
      && t == s.(installer := t.installer)
      && (t == s
          || (key in s.registry && t.installer.Some? && t.installer.value.key == key
              && (s.registry[key].lifecycle == Uninstalled ==> t.installer.value.pc == SaveTombstone)
              && (t.installer.value.pc == SaveTombstone ==> t.installer.value.record.lifecycle == Uninstalled)))
  {
    hide Text;
  }

  lemma InstallFrame(s: State, p: Installer)
    requires s.installer == Some(p)
    ensures var t := InstallStep(s, p);
      && t == s.(registry := t.registry, units := t.units, installer := t.installer)
      && (t.registry == s.registry || t.registry == s.registry[p.key := p.record])
      && (t.installer.Some? ==> t.installer.value.key == p.key)
      && (p.pc == SaveTombstone ==> t.installer == Some(p.(pc := RemoveUnit)))
      && (p.pc == RemoveUnit ==> t.installer.None? && t.registry == s.registry)
  {
    hide Text;
  }

  lemma StepKept(s: State, a: Action)
    requires Inv(s)
    ensures Kept(s, Step(s, a))
  {
    hide BeginRegister, BeginChange, InstallStep, RecordInv, UnitInv, EntryInv;
    match a
    case Register(spec, python, runtime, freshDir) => RegisterFrame(s, spec, python, runtime, freshDir);
    case ChangeLifecycle(key, change, idle) => ChangeFrame(s, key, change, idle);
    case InstallerStep(ok) => if s.installer.Some? { InstallFrame(s, s.installer.value); }
    case _ =>
  }

  /** The spec digest, spec path, event directory and interpreter of a key never change. */
  lemma {:induction false} IdentityNeverChanges(s: State, actions: seq<Action>)
    requires Inv(s)
    ensures Kept(s, Run(s, actions))
  {
    if actions != [] {
      var before := actions[..|actions| - 1];
      IdentityNeverChanges(s, before);
      RunKeepsInv(s, before);
      StepKept(Run(s, before), actions[|actions| - 1]);
      hide Step, Inv;
    }
  }

  // ---------------------------------------------------------------- tombstones

  /** A service process for the key that has read its record and not yet entered the supervisor. */
  ghost predicate AboutToEnter(s: State, key: Key) {
    exists pid :: pid in s.services && s.services[pid].key == key && s.services[pid].seen.Some?
  }

  /** Uninstalled, and nobody is bringing the registration back. */
  ghost predicate Down(s: State, key: Key) {
    && key in s.registry && s.registry[key].lifecycle == Uninstalled
    && (s.installer.Some? && s.installer.value.key == key ==>
          && (s.installer.value.pc == SaveTombstone || s.installer.value.pc == RemoveUnit)
          && s.installer.value.record.lifecycle == Uninstalled)
  }

  predicate Reinstalls(a: Action, key: Key) {
    a.Register? && a.spec.key == key
  }

  function EntriesFor(entered: seq<Entry>, key: Key): nat {
    if entered == [] then 0
    else EntriesFor(entered[..|entered| - 1], key) + if entered[|entered| - 1].key == key then 1 else 0
  }

  lemma ServiceStaysDown(s: State, pid: Pid, p: Service, valid: bool, key: Key)
    requires pid in s.services && s.services[pid] == p
    requires key in s.registry && s.registry[key].lifecycle == Uninstalled && !AboutToEnter(s, key)
    ensures var t := RunService(s, pid, p, valid);
      && t == s.(services := t.services, entered := t.entered)
      && !AboutToEnter(t, key)
      && EntriesFor(t.entered, key) == EntriesFor(s.entered, key)
  {
    var t := RunService(s, pid, p, valid);
    if p.seen.Some? {
      assert t.entered[..|t.entered| - 1] == s.entered;
    }
  }

  lemma StepStaysDown(s: State, a: Action, key: Key)
    requires Down(s, key) && !AboutToEnter(s, key) && !Reinstalls(a, key)
    ensures var t := Step(s, a);
      && Down(t, key) && !AboutToEnter(t, key)
      && EntriesFor(t.entered, key) == EntriesFor(s.entered, key)
  {
    hide BeginRegister, BeginChange, InstallStep, RunService, EntriesFor;
    match a
    case Register(spec, python, runtime, freshDir) => RegisterFrame(s, spec, python, runtime, freshDir);
    case ChangeLifecycle(other, change, idle) => ChangeFrame(s, other, change, idle);
    case InstallerStep(ok) => if s.installer.Some? { InstallFrame(s, s.installer.value); }
    case ServiceStep(pid, valid) =>
      if pid in s.services { ServiceStaysDown(s, pid, s.services[pid], valid, key); }
    case _ =>
  }

  /**
   * Once a registration is uninstalled, with no service between its two steps, the supervisor is never
   * entered for it again until the spec is registered anew: whatever services are started by hand or at
   * a boot, from whatever runtime, through whatever crashes and lifecycle changes.
   */
  lemma {:induction false} TombstoneHolds(s: State, actions: seq<Action>, key: Key)
    requires Down(s, key) && !AboutToEnter(s, key)
    requires forall a :: a in actions ==> !Reinstalls(a, key)
    ensures var t := Run(s, actions);
      && Down(t, key) && !AboutToEnter(t, key)
      && EntriesFor(t.entered, key) == EntriesFor(s.entered, key)
  {
    if actions != [] {
      var before, last := actions[..|actions| - 1], actions[|actions| - 1];
      assert last in actions;
      TombstoneHolds(s, before, key);
      StepStaysDown(Run(s, before), last, key);
      hide Step, EntriesFor, Down, AboutToEnter;
    }
  }

  /** A service that read its record before the tombstone enters all the same: its record is not read again. */
  lemma StaleServiceEnters(s: State, key: Key)
    requires AboutToEnter(s, key)
    ensures exists a :: !Reinstalls(a, key) && EntriesFor(Step(s, a).entered, key) == EntriesFor(s.entered, key) + 1
  {
    var pid :| pid in s.services && s.services[pid].key == key && s.services[pid].seen.Some?;
    var a := ServiceStep(pid, true);
    var t := Step(s, a);
    assert t.entered[..|t.entered| - 1] == s.entered;
    assert EntriesFor(t.entered, key) == EntriesFor(s.entered, key) + 1;
  }

  lemma RunOne(s: State, a: Action)
    ensures Run(s, [a]) == Step(s, a)
  {
    assert [a][..0] == [] && Run(s, []) == s;
  }

  /** So an uninstalled registration can be entered again exactly when a service is between its two steps. */
  lemma TombstoneExactly(s: State, key: Key)
    requires Down(s, key)
    ensures (exists actions :: (forall a :: a in actions ==> !Reinstalls(a, key))
                 && EntriesFor(Run(s, actions).entered, key) > EntriesFor(s.entered, key))
            <==> AboutToEnter(s, key)
  {
    hide EntriesFor, Step, AboutToEnter, Down;
    if AboutToEnter(s, key) {
      StaleServiceEnters(s, key);
      var a :| !Reinstalls(a, key) && EntriesFor(Step(s, a).entered, key) == EntriesFor(s.entered, key) + 1;
      var actions := [a];
      RunOne(s, a);
      assert forall b :: b in actions ==> !Reinstalls(b, key);
      assert EntriesFor(Run(s, actions).entered, key) > EntriesFor(s.entered, key);
    } else {
      forall actions: seq<Action> | forall a :: a in actions ==> !Reinstalls(a, key)
        ensures EntriesFor(Run(s, actions).entered, key) == EntriesFor(s.entered, key)
      {
        TombstoneHolds(s, actions, key);
      }
    }
  }

  // ---------------------------------------------------------------- repeating an interrupted change

  const STEP := InstallerStep(true)

  lemma RunThree(s: State, a: Action, b: Action, c: Action)
    ensures Run(s, [a, b, c]) == Step(Step(Step(s, a), b), c)
  {
    assert [a, b, c][..2] == [a, b] && [a, b][..1] == [a] && [a][..0] == [];
    assert Run(s, [a]) == Step(s, a);
    assert Run(s, [a, b]) == Step(Run(s, [a]), b);
  }

  lemma RunFour(s: State, a: Action, b: Action, c: Action, d: Action)
    ensures Run(s, [a, b, c, d]) == Step(Step(Step(Step(s, a), b), c), d)
  {
    RunThree(s, a, b, c);
    assert [a, b, c, d][..3] == [a, b, c];
  }

  /** The record is installed at this runtime, and its unit is on disk, with no previous text left over. */
  ghost predicate Settled(s: State, key: Key, runtime: string) {
    && s.installer.None? && key in s.registry && key in s.units
    && s.registry[key].runtime == runtime && s.registry[key].lifecycle == Installed
    && Text(s.home, key, s.registry[key]) == Ok(s.units[key])
  }

  lemma UpgradeSteps(s: State, key: Key, runtime: string)
    requires s.installer.None? && key in s.registry && s.registry[key].lifecycle == Installed
    requires UnitInv(s.home, s.units, key, s.registry[key])
    requires Text(s.home, key, s.registry[key]).Ok?
    requires TextAt(s.home, key, s.registry[key].python, runtime).Ok?
    ensures var t := Step(Step(Step(Step(s, ChangeLifecycle(key, Upgrade(runtime), true)), STEP), STEP), STEP);
      Settled(t, key, runtime) && t.registry[key].previousUnit.None?
  {
    hide TextAt;
  }

  /** Wherever an earlier change was interrupted, repeating the upgrade of an idle installed registration completes. */
  lemma UpgradeCompletes(home: string, past: seq<Action>, key: Key, runtime: string)
    requires var s := Run(Initial(home), past);
      && s.installer.None? && key in s.registry && s.registry[key].lifecycle == Installed
      && Text(s.home, key, s.registry[key]).Ok?
      && TextAt(s.home, key, s.registry[key].python, runtime).Ok?
    ensures var t := Run(Run(Initial(home), past), [ChangeLifecycle(key, Upgrade(runtime), true), STEP, STEP, STEP]);
      Settled(t, key, runtime) && t.registry[key].previousUnit.None?
  {
    RunKeepsInv(Initial(home), past);
    var s := Run(Initial(home), past);
    RunFour(s, ChangeLifecycle(key, Upgrade(runtime), true), STEP, STEP, STEP);
    hide Run;
    UpgradeSteps(s, key, runtime);
  }

  lemma UninstallSteps(s: State, key: Key)
    requires s.installer.None? && key in s.registry
    requires UnitInv(s.home, s.units, key, s.registry[key])
    requires Text(s.home, key, s.registry[key]).Ok?
    ensures var t := Step(Step(Step(s, ChangeLifecycle(key, Uninstall, true)), STEP), STEP);
      Down(t, key) && key !in t.units && t.installer.None?
  {
    hide TextAt;
  }

  /** Wherever an earlier change was interrupted, uninstalling an idle registration completes. */
  lemma UninstallCompletes(home: string, past: seq<Action>, key: Key)
    requires var s := Run(Initial(home), past);
      s.installer.None? && key in s.registry && Text(s.home, key, s.registry[key]).Ok?
    ensures var t := Run(Run(Initial(home), past), [ChangeLifecycle(key, Uninstall, true), STEP, STEP]);
      Down(t, key) && key !in t.units && t.installer.None?
  {
    RunKeepsInv(Initial(home), past);
    var s := Run(Initial(home), past);
    RunThree(s, ChangeLifecycle(key, Uninstall, true), STEP, STEP);
    hide Run;
    UninstallSteps(s, key);
  }

  lemma ReinstallSteps(s: State, spec: Spec, python: string, runtime: string)
    requires s.installer.None? && spec.key in s.registry && s.registry[spec.key].lifecycle == Uninstalled
    requires var record := s.registry[spec.key];
      && record.path == spec.path && record.digest == spec.digest && !DirTaken(s, spec)
      && Text(s.home, spec.key, record).Ok?
    ensures var t := Step(Step(Step(Step(s, Register(spec, python, runtime, false)), STEP), STEP), STEP);
      var matches := spec.key !in s.units || Ok(s.units[spec.key]) == Text(s.home, spec.key, s.registry[spec.key]);
      && (matches ==> Settled(t, spec.key, s.registry[spec.key].runtime))
      && (!matches ==> t == s)
  {
    hide TextAt, DirTaken;
  }

  /**
   * Registering the spec of an uninstalled registration again installs it at its runtime exactly when
   * no unit, or the unit of that runtime, is on disk; otherwise nothing changes. The unit of an earlier
   * runtime stays behind when an upgrade and then the uninstall after it were both interrupted, and
   * repeating the uninstall removes it.
   */
  lemma ReinstallExactly(home: string, past: seq<Action>, spec: Spec, python: string, runtime: string)
    requires var s := Run(Initial(home), past);
      && s.installer.None? && spec.key in s.registry && s.registry[spec.key].lifecycle == Uninstalled
      && var record := s.registry[spec.key];
      && record.path == spec.path && record.eventDir == spec.eventDir && record.digest == spec.digest
      && Text(s.home, spec.key, record).Ok?
    ensures var s := Run(Initial(home), past);
      var t := Run(s, [Register(spec, python, runtime, false), STEP, STEP, STEP]);
      && (Settled(t, spec.key, s.registry[spec.key].runtime)
          <==> spec.key !in s.units || Ok(s.units[spec.key]) == Text(s.home, spec.key, s.registry[spec.key]))
      && (!Settled(t, spec.key, s.registry[spec.key].runtime) ==> t == s)
  {
    RunKeepsInv(Initial(home), past);
    var s := Run(Initial(home), past);
    RunFour(s, Register(spec, python, runtime, false), STEP, STEP, STEP);
    hide Run;
    ReinstallSteps(s, spec, python, runtime);
    hide Step;
  }

  // ---------------------------------------------------------------- two runs

  lemma {:induction false} RunConcat(s: State, first: seq<Action>, second: seq<Action>)
    ensures Run(s, first + second) == Run(Run(s, first), second)
  {
    if second == [] {
      assert first + second == first;
    } else {
      var n := |second| - 1;
      assert (first + second)[..|first| + n] == first + second[..n];
      RunConcat(s, first, second[..n]);
      hide Step;
    }
  }

  lemma RunFive(s: State, a: Action, b: Action, c: Action, d: Action, e: Action)
    ensures Run(s, [a, b, c, d, e]) == Step(Step(Step(Step(Step(s, a), b), c), d), e)
  {
    RunFour(s, a, b, c, d);
    assert [a, b, c, d, e][..4] == [a, b, c, d];
    hide Step;
  }

  function Fresh(spec: Spec, python: string, runtime: string): Record {
    Record(spec.path, spec.eventDir, spec.digest, python, runtime, Installed, None, [])
  }

  function Install(spec: Spec, python: string, runtime: string): seq<Action> {
    [Register(spec, python, runtime, true), STEP, STEP, STEP]
  }

  /** A first installation, without interruption. */
  lemma FirstInstall(home: string, spec: Spec, python: string, runtime: string)
    requires TextAt(home, spec.key, python, runtime).Ok?
    ensures Run(Initial(home), Install(spec, python, runtime))
      == State(home, map[spec.key := Fresh(spec, python, runtime)],
               map[spec.key := TextAt(home, spec.key, python, runtime).value], None, map[], [])
  {
    var s, record := Initial(home), Fresh(spec, python, runtime);
    RunFour(s, Register(spec, python, runtime, true), STEP, STEP, STEP);
    hide Run, TextAt;
    var s1 := s.(installer := Some(Installer(spec.key, SaveNew, record)));
    var s2 := s.(registry := map[spec.key := record], installer := Some(Installer(spec.key, CheckUnit, record)));
    var s3 := s2.(installer := Some(Installer(spec.key, WriteUnit, record)));
    assert Step(s, Register(spec, python, runtime, true)) == s1;
    assert Step(s1, STEP) == s2;
    assert Step(s2, STEP) == s3;
  }

  /** A service is started, and reads its record, between the idle check of an uninstall and its first save. */
  function RacingUninstall(key: Key, runtime: string): seq<Action> {
    [ChangeLifecycle(key, Uninstall, true), StartService(0, key, runtime), ServiceStep(0, true), STEP, STEP]
  }

  lemma RacingSteps(s: State, key: Key)
    requires s.installer.None? && s.services == map[] && key in s.registry
    requires s.registry[key].lifecycle == Installed && Text(s.home, key, s.registry[key]).Ok?
    requires key in s.units && Ok(s.units[key]) == Text(s.home, key, s.registry[key])
    ensures var t := Run(s, RacingUninstall(key, s.registry[key].runtime));
      Down(t, key) && AboutToEnter(t, key) && t.installer.None? && key !in t.units
  {
    var record := s.registry[key];
    var gone := record.(lifecycle := Uninstalled);
    var start := StartService(0, key, record.runtime);
    RunFive(s, ChangeLifecycle(key, Uninstall, true), start, ServiceStep(0, true), STEP, STEP);
    hide Run, TextAt;
    var s1 := s.(installer := Some(Installer(key, SaveTombstone, gone)));
    var s2 := s1.(services := map[0 := Service(key, record.runtime, None)]);
    var s3 := s1.(services := map[0 := Service(key, record.runtime, Some(record))]);
    assert Step(s, ChangeLifecycle(key, Uninstall, true)) == s1;
    assert Step(s1, start) == s2;
    assert Step(s2, ServiceStep(0, true)) == s3;
    RemoveSteps(s3, key, gone);
    var t := Step(Step(s3, STEP), STEP);
    assert 0 in t.services && t.services[0].key == key && t.services[0].seen.Some?;
  }

  lemma RemoveSteps(s: State, key: Key, gone: Record)
    requires s.installer == Some(Installer(key, SaveTombstone, gone))
    ensures Step(Step(s, STEP), STEP)
      == s.(registry := s.registry[key := gone], units := s.units - {key}, installer := None)
  {
  }

  /** So a service can stand behind a tombstone, about to enter, although the idle check told the truth. */
  lemma StaleServiceOccurs(home: string, spec: Spec, python: string, runtime: string)
    requires !HasLineBreak(home) && !HasLineBreak(spec.key) && !HasLineBreak(python) && !HasLineBreak(runtime)
    ensures var s := Run(Initial(home), Install(spec, python, runtime) + RacingUninstall(spec.key, runtime));
      Down(s, spec.key) && AboutToEnter(s, spec.key) && s.installer.None? && spec.key !in s.units
  {
    TextExists(home, spec.key, python, runtime);
    FirstInstall(home, spec, python, runtime);
    RunConcat(Initial(home), Install(spec, python, runtime), RacingUninstall(spec.key, runtime));
    hide Run, TextAt, Install, RacingUninstall, AboutToEnter, Down;
    RacingSteps(Run(Initial(home), Install(spec, python, runtime)), spec.key);
  }

  /** An upgrade and then an uninstall, each interrupted after its first save. */
  function InterruptedTwice(key: Key, runtime: string): seq<Action> {
    [ChangeLifecycle(key, Upgrade(runtime), true), STEP, CrashInstaller]
    + [ChangeLifecycle(key, Uninstall, true), STEP, CrashInstaller]
  }

  lemma InterruptedUpgrade(s: State, key: Key, runtime: string)
    requires s.installer.None? && key in s.registry && s.registry[key].lifecycle == Installed && key in s.units
    requires Text(s.home, key, s.registry[key]) == Ok(s.units[key])
    ensures var record := s.registry[key];
      Run(s, [ChangeLifecycle(key, Upgrade(runtime), true), STEP, CrashInstaller])
      == s.(registry := s.registry[key := record.(runtime := runtime, previousUnit := Some(s.units[key]),
                                                  history := record.history + [record.runtime])])
  {
    RunThree(s, ChangeLifecycle(key, Upgrade(runtime), true), STEP, CrashInstaller);
    hide Run, TextAt;
  }

  lemma InterruptedUninstall(s: State, key: Key)
    requires s.installer.None? && key in s.registry && key in s.units
    requires Text(s.home, key, s.registry[key]).Ok? && s.registry[key].previousUnit == Some(s.units[key])
    ensures Run(s, [ChangeLifecycle(key, Uninstall, true), STEP, CrashInstaller])
      == s.(registry := s.registry[key := s.registry[key].(lifecycle := Uninstalled)])
  {
    RunThree(s, ChangeLifecycle(key, Uninstall, true), STEP, CrashInstaller);
    hide Run, TextAt;
  }

  lemma RefusedInstall(s: State, spec: Spec, python: string, runtime: string)
    requires s.installer.None? && spec.key in s.registry && spec.key in s.units && !DirTaken(s, spec)
    requires Text(s.home, spec.key, s.registry[spec.key]) != Ok(s.units[spec.key])
    ensures Run(s, Install(spec, python, runtime)) == s
  {
    RunFour(s, Register(spec, python, runtime, true), STEP, STEP, STEP);
    hide Run, TextAt, DirTaken;
  }

  /** They leave a tombstoned record at the new runtime with the unit of the old one, which a new install refuses. */
  lemma StaleUnitOccurs(home: string, spec: Spec, python: string, runtime: string, runtime': string)
    requires !HasLineBreak(home) && !HasLineBreak(spec.key) && !HasLineBreak(python)
    requires !HasLineBreak(runtime) && !HasLineBreak(runtime') && runtime != runtime'
    ensures var s := Run(Initial(home), Install(spec, python, runtime) + InterruptedTwice(spec.key, runtime'));
      && Down(s, spec.key) && s.installer.None? && spec.key in s.units
      && Text(s.home, spec.key, s.registry[spec.key]).Ok?
      && Ok(s.units[spec.key]) != Text(s.home, spec.key, s.registry[spec.key])
      && Run(s, Install(spec, python, runtime')) == s
  {
    var key, start := spec.key, Initial(home);
    TextExists(home, key, python, runtime);
    TextExists(home, key, python, runtime');
    TextsDiffer(home, key, python, runtime, runtime');
    FirstInstall(home, spec, python, runtime);
    hide Run, TextAt, Install, Step;
    var s := Run(start, Install(spec, python, runtime));
    InterruptedUpgrade(s, key, runtime');
    var first := [ChangeLifecycle(key, Upgrade(runtime'), true), STEP, CrashInstaller];
    var second := [ChangeLifecycle(key, Uninstall, true), STEP, CrashInstaller];
    var u := Run(s, first);
    InterruptedUninstall(u, key);
    RunConcat(start, Install(spec, python, runtime), first + second);
    RunConcat(s, first, second);
    RefusedInstall(Run(u, second), spec, python, runtime');
  }

  lemma TextsDiffer(home: string, key: Key, python: string, runtime: string, runtime': string)
    requires TextAt(home, key, python, runtime).Ok? && runtime != runtime'
    ensures TextAt(home, key, python, runtime) != TextAt(home, key, python, runtime')
  {
    if TextAt(home, key, python, runtime) == TextAt(home, key, python, runtime') {
      UnitTextInjective(python, runtime, RecordPath(home, key), python, runtime', RecordPath(home, key));
    }
  }

  /** There is a unit text exactly when no part of an argument has a line break. */
  lemma TextExists(home: string, key: Key, python: string, runtime: string)
    ensures TextAt(home, key, python, runtime).Ok?
      <==> !HasLineBreak(home) && !HasLineBreak(key) && !HasLineBreak(python) && !HasLineBreak(runtime)
  {
  }
}
