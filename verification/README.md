# Verified model of the Atms evidence, packaging and supervision core

A Dafny model of the parts of Atms whose correctness rests on byte layouts, on state that survives
crashes, and on arithmetic: the HRP plugin archive, the event supervisor and its installer, the
Worker's credential broker registry, the two SHA-256 copies, and six algorithms around Skills,
credentials, drafts, surfaces, review evidence and content migrations. `dafny verify dfyconfig.toml`
checks everything.

## What is modelled, and how

**Archives** (`HrpPath`, `HrpFiles`, `ZipFormat`, `RangeCover`, `HrpZip`, `HrpLock`, `Crc32`). `ZipFormat` writes down
the stored-only ZIP layout of PKWARE APPNOTE.TXT (sections 4.3.7, 4.3.12, 4.3.16) as byte strings. The
writer fills its buffers field by field; the reader runs its checks in the order of the source. `Encoded`
and `Decoded` say what the two compute, and the lemmas about these two functions give the round trip,
the independence of input order, and that the accepted archives are exactly the writer's own. The lock file
is carried by a record of functions standing for SHA-256, JSON text and Ed25519 (`HrpLock.Host`), of which
only this is used: digests look like digests, and parsing undoes printing of well-formed locks. The CRC-32
is specified one bit at a time from its polynomial; the table-driven loop works on Numbers with JavaScript's signed 32-bit
operators (`JsNumber`).

**SHA-256** (`Sha256Spec`, `Sha256Constants`, `Sha256`, `ChangedFiles`). The specification is FIPS 180-4 over 32-bit
words, its tables proved to be the roots they are said to be. The
implementation keeps the source's in-place schedule and state arrays, its signed intermediates and its
`>>> 0` reductions; every sum is proved to stay below 2^53, so that no rounding can happen before the
reduction. The copy in `atms_protocol/src/dag-worker-skill-context.ts:242-306` is the same program line for
line, so the same method is its model (`SkillContext.Sha256Utf8`). `Utf16` is the order of JavaScript's sort.

**Event supervisor** (`EventSupervisor`, `SupervisorPaths`). One event directory with its files, the supervisor that holds the
lock, any number of runner processes, and counters for commands started, runners launched and queue
commands run. The processes rewrite files step by step and may die between any two steps, which no
method of one process could express, so each process is a program counter with its local record, `Step` is
one atomic action (a read with the decisions taken on it, a save, the start of a process), and the theorems
quantify over every sequence of actions: steps in any interleaving, crashes of either process, reboots,
restarts, writes to the log and runner scripts run by hand. An action that is not enabled changes nothing.

**Installer** (`ServiceUnit`, `Registration`, `RegistrationChecks`). Registration records and unit files under install, upgrade,
uninstall and service starts, in the same style. Unit texts are real strings: `systemd`'s reading of a
quoted argument is written down separately and shown to undo the quoting.

**Credential broker registry** (`BrokerIdentity`, `CredentialBroker`). The class keeps the source's `pending`
map; every call ever made stays in a list with what the outside world saw of it. Each method is proved to
change the whole state as a function says, and the lemmas about sequences of these functions say what
every run keeps.

**Algorithms.** `SkillContext` (the size written inside the text it measures), `Redaction`, `DraftTail`,
`SurfaceDepth` with `SurfaceGraph`, `EvidencePacking` and `KindMigration`, each with the loops of the source
and a reference definition. `Texts`, `Utf8`, `Decimals`, `Sorting`, `Words`, `Bytes` and `Options` are shared.

## Where the code does not do what one might expect

- An exception out of the notification that follows a supervisor's own finished run (output of the queue
  command that is not text, a spec without the fields it needs) is caught by the handler meant for the run
  itself, which overwrites the finished record as interrupted (`EventSupervisor.FinishedStaysExactly`,
  `EventSupervisor.FinishedOverwritten`). The receipt stays, and the next undisturbed restart finishes the
  record again (`EventSupervisor.EvidenceIsFinal`, `EventSupervisor.Recovery`).
- After a failed preflight a runner script run by hand still starts the command, because
  `execute.py` compares the spec digest only (`EventSupervisor.StrayRunnerStarts`,
  `EventSupervisor.CommandAfterFailedPreflight`). Without such runs it never happens
  (`EventSupervisor.CommandNeedsLaunch`).
- A service that read its record before the tombstone was saved still enters the supervisor
  (`Registration.TombstoneExactly` gives the exact condition, `Registration.StaleServiceOccurs` a run).
- An upgrade and then an uninstall, each interrupted after its first save, leave a unit that a new
  install refuses; repeating the uninstall removes it (`Registration.ReinstallExactly`,
  `Registration.StaleUnitOccurs`, `Registration.UninstallCompletes`).
- A complete evidence projection is one byte longer than the one whose size was tested, so the builder can
  return what the validator refuses (`EvidencePacking.BuiltValidatesExactly`,
  `EvidencePacking.OneByteTooLong`).
- A secret that begins or ends with an asterisk, or contains three in a row, can survive its own redaction
  (`Redaction.RemovedExactly`, `Redaction.SelectionsCleanExactly`).
- On a surface with a cycle the depth rule by itself passes over long paths or not, by the order in which
  children are listed (`SurfaceDepth.CycleHidesPath`); the cycle rule that runs beside it makes the two
  together exact (`SurfaceGraph.ShapeAccepted`).
- A rename into the renamed value itself succeeds and deletes the value (`KindMigration.RenameKeepsExactly`).
- File names with line breaks inside can share a coverage digest and count (`ChangedFiles.SharesTextExactly`,
  `ChangedFiles.LineBreaksCollide`).
- A result authored by the Manager may carry any outcome code; the truthfulness about dispatch is that
  of the registry's own resolutions (`CredentialBroker.ResolutionsAreTruthful`).

## Model

| member | source | states |
|---|---|---|
| Crc32.CrcTable | atms_plugin_sdk/src/archive.ts:101-111 | each of the 256 entries is eight division steps by the CRC-32 polynomial from its index |
| Crc32.CrcTableEntry | atms_plugin_sdk/src/archive.ts:104-108 | the inner loop, on signed and unsigned 32-bit Numbers, divides one byte by the polynomial |
| Crc32.Crc32 | atms_plugin_sdk/src/archive.ts:113-117 | for every buffer the table-driven loop computes the bit-at-a-time CRC-32 of section 4.4.7 of APPNOTE.TXT |
| Crc32.PatternPolynomial | atms_plugin_sdk/src/archive.ts:106 | the constant 0xedb88320 is the generator polynomial with its exponents written out, bit-reversed |
| Crc32.TableStep | atms_plugin_sdk/src/archive.ts:115 | one table look-up stands for eight single-bit steps |
| Crc32.FeedBitInjective | atms_plugin_sdk/src/archive.ts:104-107 | a single step never maps two register states to one |
| Crc32.FeedBitsInjective | atms_plugin_sdk/src/archive.ts:115 | nor does feeding a whole message |
| Crc32.FeedBitsInjectiveInMessage | atms_plugin_sdk/src/archive.ts:115 | from one state, different messages of at most 32 bits lead to different states |
| Crc32.BurstDetected | atms_plugin_sdk/src/archive.ts:113-117 | contents that differ only inside one window of at most four bytes never share a checksum |
| Crc32.OneByteDetected | atms_plugin_sdk/src/archive.ts:113-117 | contents of equal length that differ in exactly one byte never share a checksum |
| Sha256.PatternRotate | atms_protocol/src/sha256.ts:33-35 | the shift-and-or rotation with signed intermediates is the rotation of the 32-bit word |
| Sha256.ExpandSchedule | atms_protocol/src/sha256.ts:53-66 | the words array, filled in place, is the message schedule of FIPS 180-4, every sum staying below 2^53 before it is reduced |
| Sha256.RunRounds | atms_protocol/src/sha256.ts:68-91 | the 64 rounds over a..h are the rounds of FIPS 180-4, every sum staying below 2^53 before it is reduced |
| Sha256.CompressBlock | atms_protocol/src/sha256.ts:68-100 | the state array after a block is the compression of FIPS 180-4 of the state before |
| Sha256.PadMessage | atms_protocol/src/sha256.ts:40-48 | the padded buffer is the message, a one bit, the least number of zero bytes and the 64-bit length |
| Sha256Spec.ZeroBytes | atms_protocol/src/sha256.ts:40 | the zero bytes are the fewest that fill whole blocks |
| Sha256.HexTextIs | atms_protocol/src/sha256.ts:103 | the joined toString(16).padStart(8) texts are the digest in lower-case hexadecimal |
| Sha256.Sha256Hex | atms_protocol/src/sha256.ts:38-104 | for every string the result is the SHA-256 of FIPS 180-4 of its UTF-8 encoding, in lower-case hexadecimal |
| Sha256Constants.FirstPrimes | atms_protocol/src/sha256.ts:9-31 | the list used below holds exactly the primes below 312, in order: the first sixty-four |
| Sha256Constants.RoundConstants | atms_protocol/src/sha256.ts:14-31 | each round constant is the first 32 bits of the fractional part of the cube root of its prime |
| Sha256Constants.InitialHash | atms_protocol/src/sha256.ts:9-12 | the initial hash words are the same of the square roots of the first eight primes |
| ChangedFiles.CanonicalIs | atms_protocol/src/sha256.ts:107-116 | the canonical list is sorted, without repetition, and holds exactly the trimmed names that are not blank |
| Texts.TrimIs | atms_protocol/src/sha256.ts:111 | what is trimmed away is blank, on either side, and what is left neither begins nor ends with a blank |
| Texts.BlanksAre | atms_protocol/src/sha256.ts:111 | the white space and line terminators, one by one |
| ChangedFiles.ChangedFileCoverageDigest | atms_protocol/src/sha256.ts:127-136 | the count is the number of distinct names, the digest that of their list in the order of UTF-16 code units |
| ChangedFiles.SameNamesSameList | atms_protocol/src/sha256.ts:107-116 | two lists have one canonical list exactly when they have the same set of names, whatever their order and repetitions |
| ChangedFiles.TextDeterminesNames | atms_protocol/src/sha256.ts:127-136 | when no name has a line break inside, the hashed text and the set of names determine each other |
| ChangedFiles.CountAndTextDetermine | atms_protocol/src/sha256.ts:127-136 | when one list alone has no line break inside a name, or only one name, no other set of as many names shares its text, whatever line breaks that has |
| ChangedFiles.SharesTextExactly | atms_protocol/src/sha256.ts:133 | another set of as many names shares the text exactly when the text can be cut at other line breaks of its own into as many trimmed names in ascending order |
| ChangedFiles.LineBreaksCollide | atms_protocol/src/sha256.ts:127-136 | it happens: two different sets of two names get one digest and one count |
| Utf16.JsOrderAntisymmetric | atms_protocol/src/sha256.ts:115 | the order of the sort, by UTF-16 code units, has no ties between different names |
| Utf16.PairIs | atms_protocol/src/sha256.ts:115 | a character above U+FFFF is a pair of surrogates with ten bits each |
| Utf16.BasicPlaneOrder | atms_protocol/src/sha256.ts:115 | for names of characters below U+10000 it is the order by characters |
| Utf16.OrdersDiffer | atms_protocol/src/sha256.ts:115 | above it is not: U+FFFD comes before U+10000, but after it in units |
| HrpPath.NormalizeHrpPath | atms_plugin_sdk/src/archive.ts:290-317 | a path is accepted exactly when every segment is portable and it is not too long, and is then returned as it is |
| HrpPath.PortableChars | atms_plugin_sdk/src/archive.ts:91 | the characters accepted in a name, written out |
| HrpPath.FoldedChars | atms_plugin_sdk/src/archive.ts:319-323 | folding identifies each capital with its small letter and nothing else |
| HrpPath.FoldedAlphabet | atms_plugin_sdk/src/archive.ts:319-323 | the twenty-six pairs, by their codes |
| HrpPath.DeviceNames | atms_plugin_sdk/src/archive.ts:95 | a name is reserved exactly when it is one of the twenty-two devices in any case, alone or in front of a dot |
| HrpPath.LengthLimit | atms_plugin_sdk/src/archive.ts:303-305 | a path of one letter repeated is accepted exactly up to 240 characters |
| HrpPath.AssertNoPortablePathCollisions | atms_plugin_sdk/src/archive.ts:325-347 | the one-pass map check accepts a list exactly when no two case-folded paths are equal and none is a proper segment prefix of another |
| HrpPath.PrefixKey | atms_plugin_sdk/src/archive.ts:338-341 | a prefix of segments and another path share a key exactly when their case-folded segments agree |
| HrpFiles.NormalizedFiles | atms_plugin_sdk/src/archive.ts:349-362 | the file list is accepted exactly when it is within the limits and free of collisions, and is then returned in path order |
| HrpFiles.CanonicalPermutes | atms_plugin_sdk/src/archive.ts:359 | the path order does not depend on the order in which files are supplied |
| ZipFormat.LocalHeaderUnique | atms_plugin_sdk/src/archive.ts:416-428 | a byte string with the fields of the local header of section 4.3.7 of APPNOTE.TXT is that header, byte for byte |
| ZipFormat.CentralHeaderUnique | atms_plugin_sdk/src/archive.ts:431-449 | likewise for the central directory header of section 4.3.12 |
| ZipFormat.EndRecordUnique | atms_plugin_sdk/src/archive.ts:455-463 | likewise for the end of central directory record of section 4.3.16 |
| ZipFormat.LocalBytes | atms_plugin_sdk/src/archive.ts:416-422 | the fixed bytes of a local header, written out |
| ZipFormat.CentralBytes | atms_plugin_sdk/src/archive.ts:431-448 | those of a central header, with the Unix file type and mode |
| ZipFormat.EndBytes | atms_plugin_sdk/src/archive.ts:455-458 | those of the end record |
| HrpZip.WriteLocalHeader | atms_plugin_sdk/src/archive.ts:416-428 | the buffer written field by field is the local header |
| HrpZip.WriteCentralHeader | atms_plugin_sdk/src/archive.ts:431-449 | the buffer written field by field is the central directory header with its offset |
| HrpZip.WriteEndRecord | atms_plugin_sdk/src/archive.ts:455-463 | the buffer written field by field is the end record |
| HrpZip.EncodeHrpZip | atms_plugin_sdk/src/archive.ts:405-467 | the writer accepts exactly the acceptable file lists that fit, and returns their archive laid out by accumulated offsets |
| HrpZip.EncodedPermutes | atms_plugin_sdk/src/archive.ts:409 | the order in which files are supplied never changes the archive |
| ZipFormat.ArchiveInjective | atms_plugin_sdk/src/archive.ts:405-467 | equal archives hold equal file lists |
| HrpZip.EncodedInjective | atms_plugin_sdk/src/archive.ts:405-467 | equal archives were written from lists with equal file maps |
| HrpZip.EncodedByMap | atms_plugin_sdk/src/archive.ts:405-467 | lists with equal file maps are written to one archive |
| HrpZip.FindEndOfCentralDirectory | atms_plugin_sdk/src/archive.ts:521-530 | the backward scan finds the last end record in range, or there is none |
| HrpZip.ReadEntry | atms_plugin_sdk/src/archive.ts:564-621 | one turn of the reader's loop accepts the entry that the writer would have put there, and whatever it accepts has a portable path in both headers, equal flags, sizes and names there, the checksum of its content, and is within the limits |
| RangeCover.CoversExactly | atms_plugin_sdk/src/archive.ts:624-632 | the ranges are accepted exactly when each byte before the directory is in one of them, no two overlap and none is empty, in whatever order they are listed |
| HrpZip.RangesCover | atms_plugin_sdk/src/archive.ts:624-632 | the local records of a written archive are such ranges |
| HrpZip.DecodeHrpZip | atms_plugin_sdk/src/archive.ts:532-636 | whatever is accepted was written by the writer from the returned files; for limits up to and beyond the defaults everything the writer returns is accepted |
| HrpZip.DecodedEncoded | atms_plugin_sdk/src/archive.ts:532-636 | reading what was written gives back the same paths and contents |
| HrpZip.DecodedInjective | atms_plugin_sdk/src/archive.ts:633-634 | two accepted archives with equal file maps are byte-identical |
| HrpZip.DefaultsReadable | atms_plugin_sdk/src/archive.ts:532-558 | the default limits are among those for which the reader accepts everything the writer returns |
| HrpLock.CreateHrpLock | atms_plugin_sdk/src/archive.ts:380-403 | a lock is created exactly for acceptable files with a manifest and without metadata, and lists them with their sizes and digests |
| HrpLock.BuildHrpArchive | atms_plugin_sdk/src/archive.ts:469-479 | the archive is the encoding of the files and their lock; it is refused only when they cannot be locked or do not fit |
| HrpLock.LockCovers | atms_plugin_sdk/src/archive.ts:390-394 | the lock of a file list is strictly sorted and lists exactly the payload files, with their true sizes and digests |
| HrpLock.BuiltIsSealed | atms_plugin_sdk/src/archive.ts:469-479 | a built archive carries a lock that tells the truth about it |
| HrpLock.ParseLock | atms_plugin_sdk/src/archive.ts:638-703 | a lock text is accepted exactly when it is the canonical text of a well-formed lock, which is returned |
| HrpLock.SortedPayloadPaths | atms_plugin_sdk/src/archive.ts:728-730 | the sorted list holds exactly the paths that are not metadata, each once |
| HrpLock.VerifyHrpArchive | atms_plugin_sdk/src/archive.ts:705-759 | an archive is accepted exactly when it is the writer's own, its lock covers exactly its files with true sizes and digests, and the policy is met by the signature file itself: required trust only by a signature found verified, forbidden signatures only by their absence; the reported state is that verdict, or unsigned without the file |
| HrpLock.BuildThenVerify | atms_plugin_sdk/src/archive.ts:469-479 | whatever is built verifies, with the same lock, files and digest, unless the policy requires a trusted signature, and then it is refused |
| HrpLock.SignatureKeepsSeal | atms_plugin_sdk/src/archive.ts:728-730 | adding a signature file, whatever it holds, changes nothing about what the lock covers |
| HrpLock.IdentityIs | atms_plugin_sdk/src/archive.ts:364-378 | a manifest names its plugin exactly when it can be read and neither name is empty |
| HrpLock.DigestsAre | atms_plugin_sdk/src/archive.ts:92 | a digest is sixty-four lower-case hexadecimal digits |
| EventSupervisor.StepKeepsInv | scripts/event-supervisor/supervise.py:66-251 | every atomic step of supervisor, runner, crash, reboot or outsider keeps all four invariants |
| EventSupervisor.AtMostOnce | scripts/event-supervisor/execute.py:34-60 | over every run the command of an event directory is started at most once and at most one runner is launched |
| EventSupervisor.FinishedAgrees | scripts/event-supervisor/supervise.py:118-156 | in every reachable state a finished record that is not a failed preflight agrees with a finished receipt: spec, exit code, observation, outcome, time and digest |
| EventSupervisor.NotificationTruth | scripts/event-supervisor/supervise.py:66-94 | over every run an event's queue command runs at most once, and its stored delivery tells how it went: pending none, queued one that returned 0, unknown none or one that did not |
| EventSupervisor.EvidenceIsFinal | scripts/event-supervisor/supervise.py:187-223 | over every continuation the spec digest, the record of a failed preflight, a finished receipt with the number of commands started, and the events on disk stay |
| EventSupervisor.FinishedIsFinal | scripts/event-supervisor/supervise.py:82-92 | over every continuation in which no exception comes out of a notification, and unless one has already been caught and its record is about to be saved, a finished record stays |
| EventSupervisor.FinishedStaysExactly | scripts/event-supervisor/supervise.py:246-250 | a finished record stays over every continuation exactly when the supervisor that waited for its own runner is neither past a caught exception nor still before the end of the finished notification |
| EventSupervisor.FinishedOverwritten | scripts/event-supervisor/supervise.py:152-156 | the danger is real: from the initial state, without a crash, the finished record is saved, its queue command runs and raises, and the record becomes interrupted |
| EventSupervisor.Recovery | scripts/event-supervisor/supervise.py:138-204 | from every reachable state without supervisor whose receipt is finished and log unchanged, five undisturbed steps of one supervisor end with the record finished and agreeing and the finished event on disk, with no process launched, whatever runners and others do in between |
| EventSupervisor.RunOnTrack | scripts/event-supervisor/supervise.py:138-204 | while a supervisor is on its way to the finished event, each of its steps brings it one closer and nothing else takes it back |
| EventSupervisor.ReceiptDigestsLog | scripts/event-supervisor/execute.py:62-73 | whatever has been logged when the command ends, and whatever happens later: a finished receipt carries that command's outcome and the digest of the log at that moment |
| EventSupervisor.OwnRunFinishes | scripts/event-supervisor/supervise.py:226-245 | however a supervisor came to wait for its own runner: once the command has ended, three undisturbed steps leave a finished record with the command's outcome, agreeing with a receipt that digests the log as it then was |
| EventSupervisor.LoggedRunFinishes | scripts/event-supervisor/execute.py:38-75 | so it does in a run from the initial state in which the command writes to its log any number of times |
| EventSupervisor.LaterWriteForbids | scripts/event-supervisor/supervise.py:146-148 | one write to the log between the finished receipt and its promotion, and nothing ever makes the record finished |
| EventSupervisor.CommandNeedsLaunch | scripts/event-supervisor/execute.py:38-58 | when nobody else runs the runner script, only a launched runner starts the command, and never after a failed preflight |
| EventSupervisor.StrayRunnerStarts | scripts/event-supervisor/execute.py:34-58 | in every state without a receipt, a runner invoked by hand for the reserved spec starts the command: only the spec digest is checked |
| EventSupervisor.CommandAfterFailedPreflight | scripts/event-supervisor/supervise.py:217-223 | so there is a run in which the command starts although the preflight failed and nothing was launched |
| SupervisorPaths.NotificationDelivers | scripts/event-supervisor/supervise.py:66-94 | an undisturbed notification runs its queue command once and stores how that ended, and the supervisor goes on where it was |
| SupervisorPaths.NotificationRaises | scripts/event-supervisor/supervise.py:82-92 | an exception leaves the event attempting; it ends the supervisor or, while it attends to its own runner, makes the record interrupted |
| SupervisorPaths.NotificationNeverBegins | scripts/event-supervisor/supervise.py:67-78 | an exception before the event is saved stores nothing, and the supervisor goes the same way |
| SupervisorPaths.NoSecondNotification | scripts/event-supervisor/supervise.py:67-69 | an event on disk is not notified again, however its delivery ended |
| SupervisorPaths.RejectionReported | scripts/event-supervisor/durable.py:302-324 | the service wrapper reports a rejected registration and rejected evidence each by its own event |
| SupervisorPaths.DeadlineReported | scripts/event-supervisor/supervise.py:231-240 | a deadline that passes is reported once, and the waiting goes on |
| SupervisorPaths.RejoinedStays | scripts/event-supervisor/supervise.py:159-171 | a supervisor that has rejoined a runner watches it for as long as it lives, whatever deadlines pass |
| SupervisorPaths.RejoinedLooks | scripts/event-supervisor/supervise.py:159-171 | a deadline that has passed is reported while it watches, and it looks again |
| SupervisorPaths.RejoinedFinishes | scripts/event-supervisor/supervise.py:159-171 | and saves the finished record three steps after the runner finished |
| SupervisorPaths.RejoinedGivesUp | scripts/event-supervisor/supervise.py:159-171 | or gives up, and leaves the record, when the runner is gone without a finished receipt |
| SupervisorPaths.RestartReports | scripts/event-supervisor/supervise.py:186-195 | a restart behind an unfinished run reports the interruption, launches nothing and rejoins |
| SupervisorPaths.PromotionSaves | scripts/event-supervisor/supervise.py:138-156 | two steps promote an accepted receipt, whatever they promote it for |
| SupervisorPaths.RejectedPromotion | scripts/event-supervisor/supervise.py:146-156 | a finished receipt of another spec, with another log or a rejected observation makes an own run's record interrupted, and otherwise leaves the record as it was |
| SupervisorPaths.LostRunnerInterrupts | scripts/event-supervisor/supervise.py:242-250 | an own runner that is gone without a finished receipt makes the record interrupted |
| SupervisorPaths.FailedLaunchInterrupts | scripts/event-supervisor/supervise.py:221-250 | so does a runner that cannot be launched, and nothing is started |
| SupervisorPaths.FailingRunnerSays | scripts/event-supervisor/execute.py:49-79 | a runner that fails before, at or after the start of its command leaves an interrupted receipt and its lock |
| SupervisorPaths.RejectedNeverFinishes | scripts/event-supervisor/supervise.py:149 | where every observation is rejected no record becomes finished, except as a failed preflight |
| SupervisorPaths.ReconcilingReservesNothing | scripts/event-supervisor/supervise.py:203-206 | over every run reconciling supervisors reserve, launch and start nothing |
| SupervisorPaths.ReplayChecksEvidence | scripts/event-supervisor/supervise.py:118-135 | a finished record is announced again exactly when receipt, summary, spec and log are still what was promoted; otherwise nothing changes |
| SupervisorPaths.ReplayOfPreflight | scripts/event-supervisor/supervise.py:197-201 | a failed preflight is announced again as such, without a receipt |
| SupervisorPaths.TamperedNotAnnounced | scripts/event-supervisor/supervise.py:197-201 | behind a log written to after the finish, no later supervisor announces the finish |
| SupervisorPaths.CrashesLeaveDisk | scripts/event-supervisor/supervise.py:174-251 | crashes and reboots take processes and their locks and leave the disk |
| SupervisorPaths.RecoveryAfterCrash | scripts/event-supervisor/supervise.py:138-204 | from every reachable state whose receipt is finished and log unchanged, a crash or reboot and a new supervisor end with the record finished |
| ServiceUnit.EscapedStep | scripts/event-supervisor/durable.py:159-162 | the four replacements over the whole value, one after the other, escape each character once |
| ServiceUnit.LineBreaksAre | scripts/event-supervisor/durable.py:159-162 | a value is refused exactly for a line feed, a carriage return or a null character |
| ServiceUnit.QuotedReadsBack | scripts/event-supervisor/durable.py:159-162 | systemd reads every quoted argument back as it was given |
| ServiceUnit.UnitTextInjective | scripts/event-supervisor/durable.py:165-171 | a unit text names one interpreter, one runtime and one registration record |
| Registration.StepKeepsInv | scripts/event-supervisor/durable.py:224-331 | every step of installer, service, crash or reboot keeps the registration invariant |
| Registration.DistinctDirectories | scripts/event-supervisor/durable.py:235-239 | over every run different execution keys never share an event directory |
| Registration.UnitNamesKnownRuntime | scripts/event-supervisor/durable.py:267-299 | over every run a unit file is the text for its own record at the current runtime, or else exactly the recorded previous unit, which is the text at a runtime it was upgraded from |
| Registration.UnitRemovedBehindTombstone | scripts/event-supervisor/durable.py:276-283 | over every run a unit file is removed only after the tombstone of its record was saved |
| Registration.EnteredAsRegistered | scripts/event-supervisor/durable.py:302-324 | the supervisor is entered only on a record that was installed when read, from that record's runtime, for the registered spec |
| RegistrationChecks.EntryWasChecked | scripts/event-supervisor/durable.py:302-315 | every entry goes back to a step at which runtime and spec were verified while the record was installed and named the service's runtime |
| RegistrationChecks.EntryNeedsValid | scripts/event-supervisor/durable.py:306-319 | no run without a successful verification enters the supervisor |
| RegistrationChecks.ValidEnters | scripts/event-supervisor/durable.py:302-324 | a verified service of an installed registration at its own runtime does enter |
| RegistrationChecks.RegisterExactly | scripts/event-supervisor/durable.py:235-249 | a registration begins exactly when no other key has the directory and digest and path are the known ones or, for a new key, the directory is fresh; otherwise nothing changes |
| RegistrationChecks.OtherSpecRefused | scripts/event-supervisor/durable.py:240-243 | registering other digests or paths for a known key, however often, changes nothing |
| RegistrationChecks.BusyStands | scripts/event-supervisor/durable.py:267-275 | as long as its service is never found idle, a registration keeps its runtime, its unit and its place among the installed |
| RegistrationChecks.ChangeExactly | scripts/event-supervisor/durable.py:267-297 | an upgrade or uninstall begins exactly when the key is registered and idle and its unit is absent, as registered or the recorded previous one; a unit edited by hand is never touched |
| RegistrationChecks.CrashesLeaveRegistrations | scripts/event-supervisor/durable.py:224-331 | crashes and reboots take processes and leave registrations, units and entries |
| Registration.IdentityNeverChanges | scripts/event-supervisor/durable.py:240-252 | over every continuation the spec digest, spec path, event directory and interpreter of a key stay |
| Registration.TombstoneHolds | scripts/event-supervisor/durable.py:276-283 | once uninstalled, with no service between reading its record and entering, the supervisor is never entered again until the spec is registered anew |
| Registration.TombstoneExactly | scripts/event-supervisor/durable.py:302-324 | an uninstalled registration can be entered again exactly when a service is between reading its record and entering |
| Registration.StaleServiceOccurs | scripts/event-supervisor/durable.py:276-283 | such a service does occur, for all names without line breaks: it is started between a truthful idle check and the tombstone |
| Registration.UpgradeCompletes | scripts/event-supervisor/durable.py:284-297 | wherever an earlier change was interrupted, repeating the upgrade of an idle installed registration completes |
| Registration.UninstallCompletes | scripts/event-supervisor/durable.py:276-283 | wherever an earlier change was interrupted, uninstalling an idle registration completes |
| Registration.ReinstallExactly | scripts/event-supervisor/durable.py:240-264 | registering an uninstalled spec again succeeds exactly when no unit, or the unit of its runtime, is on disk, and otherwise changes nothing |
| Registration.StaleUnitOccurs | scripts/event-supervisor/durable.py:276-297 | the refused case does occur: an upgrade and an uninstall, each interrupted after its first save, leave the old runtime's unit behind a tombstone, and a new install changes nothing |
| BrokerIdentity.MatchesExactly | atms_protocol/src/dag-credentials.ts:94-104 | the comparison over sorted keys accepts an identity exactly when it has the same fields, in whatever order |
| BrokerIdentity.TwoFields | atms_protocol/src/dag-credentials.ts:90-104 | an identity may have any fields of different names |
| CredentialBroker.CredentialBrokerRequestRegistry.Call | atms_worker/src/credential-broker-requests.ts:27-121 | the whole state after a call: a duplicate, an aborted signal, a sent payload, a failed send |
| CredentialBroker.CredentialBrokerRequestRegistry.OnAbort | atms_worker/src/credential-broker-requests.ts:55-102 | the whole state after the abort event; the listener acts at most once |
| CredentialBroker.CredentialBrokerRequestRegistry.Settle | atms_worker/src/credential-broker-requests.ts:123-130 | true exactly when a pending call with that id and identity exists, which is then resolved with the result |
| CredentialBroker.CredentialBrokerRequestRegistry.Close | atms_worker/src/credential-broker-requests.ts:132-144 | every pending call is resolved as indeterminate and the map is empty |
| CredentialBroker.StepKeepsInv | atms_worker/src/credential-broker-requests.ts:24-149 | every operation keeps: each call is pending with its payload sent and nothing else, or has one of five histories |
| CredentialBroker.EveryCallAccounted | atms_worker/src/credential-broker-requests.ts:24-149 | over every sequence of operations calls made are calls over plus entries pending, and each call has one of those histories |
| CredentialBroker.SentCallWaits | atms_worker/src/credential-broker-requests.ts:27-121 | a sent call waits and listens to a live signal, through whatever else the registry does, until its abort, a result with its id and identity, or a close |
| CredentialBroker.AbortResolves | atms_worker/src/credential-broker-requests.ts:55-102 | then the abort of a live signal sends the cancel message, if it can be sent, resolves as indeterminate and takes the call out of the map; no other call changes |
| CredentialBroker.AbortIgnored | atms_worker/src/credential-broker-requests.ts:55-102 | without a live signal, or once the call is over, the abort event does nothing |
| CredentialBroker.SettleResolves | atms_worker/src/credential-broker-requests.ts:123-130 | a result with its id and identity resolves it, and no other call |
| CredentialBroker.SettleIgnored | atms_worker/src/credential-broker-requests.ts:123-130 | any other result changes nothing |
| CredentialBroker.UnsentCall | atms_worker/src/credential-broker-requests.ts:28-54 | a call in use, aborted before or not sendable is resolved at once, as failed before dispatch or as cancelled, and touches nothing else |
| CredentialBroker.CloseResolvesWaiting | atms_worker/src/credential-broker-requests.ts:132-144 | a close resolves it as indeterminate, without a cancel message |
| CredentialBroker.ResolutionsAreTruthful | atms_worker/src/credential-broker-requests.ts:24-149 | over every sequence a call is resolved at most once and nothing follows, with its own identity; the registry says failed_pre_dispatch or cancelled only of payloads never sent, indeterminate only of payloads sent |
| CredentialBroker.CloseResolvesAll | atms_worker/src/credential-broker-requests.ts:132-144 | after a close every call made is over and resolved |
| SkillContext.Sha256Utf8 | atms_protocol/src/dag-worker-skill-context.ts:242-306 | the second copy of SHA-256 computes the same digest of every string |
| SkillContext.SizeSettles | atms_protocol/src/dag-worker-skill-context.ts:753-762 | the size that counts its own digits is reached at the third pass, for every base size |
| SkillContext.SizeLeast | atms_protocol/src/dag-worker-skill-context.ts:753-762 | and no smaller number is its own size |
| SkillContext.FourPassesNeeded | atms_protocol/src/dag-worker-skill-context.ts:755-760 | a base of 997 bytes does need the fourth pass |
| SkillContext.TwoOwnSizes | atms_protocol/src/dag-worker-skill-context.ts:755-760 | a base of 996 bytes has two sizes of its own, of which the loop finds the smaller |
| SkillContext.FinalizeCanonicalContext | atms_protocol/src/dag-worker-skill-context.ts:753-762 | the loop always returns, by its fourth pass, the context with the least size of its own: the error after eight passes is never raised |
| SkillContext.ParseExactly | atms_protocol/src/dag-worker-skill-context.ts:804-844 | the parser accepts exactly the canonical contexts and returns them unchanged |
| SkillContext.CreateExactly | atms_protocol/src/dag-worker-skill-context.ts:780-802 | a context is created exactly from at most eight Skills with true digests and distinct ids that take at most 65536 bytes; it holds them in canonical order with the least size of its own and its digest |
| SkillContext.SortedIs | atms_protocol/src/dag-worker-skill-context.ts:732-736 | the canonical order is by id and, where ids collate as one, by source; sorting reaches it and keeps the Skills |
| SkillContext.WireOfTwo | atms_protocol/src/dag-worker-skill-context.ts:753-758 | the measured text, written out for two Skills |
| Decimals.DecimalIs | atms_protocol/src/dag-worker-skill-context.ts:753-758 | the text of a number is made of digits, denotes it, and has no needless zero in front |
| SkillContext.CreateThenParse | atms_protocol/src/dag-worker-skill-context.ts:780-844 | every context that create returns is accepted by parse unchanged |
| SkillContext.ParseThenCreate | atms_protocol/src/dag-worker-skill-context.ts:780-844 | creating from the Skills of an accepted context gives the same Skills in no more bytes, and the same context exactly when it carries the least size of its own |
| Redaction.SplitJoins | atms_worker/src/credential-projection.ts:33 | joining with the secret undoes the split |
| Redaction.ReplacedIncludes | atms_worker/src/credential-projection.ts:33 | replacing one secret removes it, and brings back no mask-proof text that was absent |
| Redaction.RedactText | atms_worker/src/credential-projection.ts:31-35 | the loop redacts by one candidate after the other |
| Redaction.CandidatesAre | atms_worker/src/credential-projection.ts:30 | the candidates are exactly the non-empty secrets |
| Redaction.CandidatesOrdered | atms_worker/src/credential-projection.ts:30 | no candidate comes before a longer one, and none twice |
| Redaction.RedactedTextIncludes | atms_worker/src/credential-projection.ts:31-35 | later, shorter replacements never recreate an earlier mask-proof secret |
| Redaction.LongestMasked | atms_worker/src/credential-projection.ts:30-35 | the longest secret, where a text first has it, is masked as a whole, whatever shorter secrets have of it; what stands before and behind it is redacted by itself |
| Redaction.SecretMasked | atms_worker/src/credential-projection.ts:30-35 | each secret alone becomes just the mask, even when others are parts of it |
| Redaction.RedactedBesideMask | atms_worker/src/credential-projection.ts:33 | redaction works on either side of a mask separately |
| Redaction.ContainsExactly | atms_worker/src/credential-projection.ts:14-26 | the detector fires exactly when a string or key of the tree has a secret in it, or a number or boolean is printed as one |
| Redaction.RemovedExactly | atms_worker/src/credential-projection.ts:33 | cutting one secret out removes it from every text exactly when it neither begins nor ends with an asterisk nor has the mask inside |
| Redaction.SelectionsCleanExactly | atms_worker/src/credential-projection.ts:30-35 | whichever of the secrets are redacted together, none survives in any text exactly when all are mask-proof |
| Redaction.RedactedIsClean | atms_worker/src/credential-projection.ts:14-54 | when a mask-proof secret of the list lies inside each of its secrets, the detector finds one in the redacted tree exactly when a number or boolean is printed as one; never in a tree of strings |
| Redaction.GuardedOnly | atms_worker/src/credential-projection.ts:31-35 | such a list may hold a secret that is not mask-proof itself: a* with a |
| Redaction.RedactSame | atms_worker/src/credential-projection.ts:29-54 | a tree in which the detector finds nothing is left as it is |
| Utf8.DecodeEncode | atms_worker/src/prompt-runner.ts:676-679 | decoding undoes encoding, by section 3 of RFC 3629 |
| Utf8.ShortestForm | atms_worker/src/prompt-runner.ts:676-679 | every character is encoded in the shortest form, its bits six to a byte behind the first |
| DraftTail.CutTail | atms_worker/src/prompt-runner.ts:675-681 | one cut on the encoded buffer keeps the longest suffix of characters of at most 8192 bytes |
| DraftTail.TailOfTail | atms_worker/src/prompt-runner.ts:674-681 | cutting early changes nothing: a tail continued and cut is the whole continued and cut |
| DraftTail.TailIsLongest | atms_worker/src/prompt-runner.ts:676-679 | what is kept is, in bytes, the longest suffix of at most 8192 bytes that starts on a character boundary |
| DraftTail.KeepDraft | atms_worker/src/prompt-runner.ts:674-681 | after any chunks the draft is what one cut of the whole stream leaves, and the flag says exactly whether the stream was longer than 8192 bytes |
| SurfaceDepth.ById | atms_protocol/src/validation.ts:215 | the map names the last component with an id, for exactly the ids in use |
| SurfaceDepth.ChildrenAreMentions | atms_protocol/src/validation.ts:169-194 | the children of a component are exactly the ids it mentions, in each of its five forms |
| SurfaceDepth.DepthSearch.Visit | atms_protocol/src/validation.ts:242-257 | a visit keeps every recorded depth real, reports exactly what is too deep, on acyclic graphs leaves everything it records expanded, and computes the search function |
| SurfaceDepth.DepthErrors | atms_protocol/src/validation.ts:241-258 | on every graph the pruned search ends and each report lies at the end of a real path of more than six components; on acyclic graphs something is reported exactly when there is such a path |
| SurfaceDepth.PathRecorded | atms_protocol/src/validation.ts:241-258 | when nothing is too deep, each component of a path is recorded at least as deep as it stands there |
| SurfaceDepth.CycleHidesPath | atms_protocol/src/validation.ts:241-258 | on graphs with a cycle the depth rule alone depends on the order of children: the same path of seven different components is passed over in one order and reported in the other |
| SurfaceGraph.Declare | atms_protocol/src/generative-ui/a2ui.ts:621-633 | the repeated ids are none exactly when ids are distinct, and then there is one root exactly when the root exists |
| SurfaceGraph.MissingReferences | atms_protocol/src/generative-ui/a2ui.ts:648-655 | nothing is reported exactly when every child exists |
| SurfaceGraph.CycleSearch.Detect | atms_protocol/src/generative-ui/a2ui.ts:683-695 | a coloured visit keeps the gray components on its way, orders the finished ones behind their children unless a cycle was found, and reports only real cycles |
| SurfaceGraph.CycleSearch.Search | atms_protocol/src/generative-ui/a2ui.ts:682-698 | over all components something is reported exactly when the graph has a cycle |
| SurfaceGraph.OrderedHasNoCycle | atms_protocol/src/generative-ui/a2ui.ts:682-698 | a graph in which every component comes after its children has no cycle |
| SurfaceGraph.Unreachable | atms_protocol/src/generative-ui/a2ui.ts:700-711 | exactly the components on no path from the root are reported |
| SurfaceGraph.ShallowHasNoCycle | atms_protocol/src/validation.ts:305-312 | when every path from the root, with or without repetition, is short and everything is within reach, there is no cycle |
| SurfaceGraph.ShapeAccepted | atms_protocol/src/validation.ts:305-312 | the rules together accept a surface exactly when its ids are distinct, the root and every child exist, everything is within reach of the root, and no path from it, with or without repetition, has more than six components |
| EvidencePacking.CollectFindings | atms_protocol/src/pr-review.ts:462-469 | stopping at the fiftieth finding takes the first fifty distinct ones |
| EvidencePacking.DistinctIs | atms_protocol/src/pr-review.ts:463-469 | the findings considered have distinct ids, each the first valid one with its id, and none is forgotten |
| EvidencePacking.BySeverityIs | atms_protocol/src/pr-review.ts:475-484 | the sorted list is a permutation: critical, high, medium, low, and those of one severity in the order given |
| EvidencePacking.SizeIs | atms_protocol/src/pr-review.ts:497-499 | the byte length of the projection is a frame, its items with their commas, the flag and the digits of two counts |
| EvidencePacking.Build | atms_protocol/src/pr-review.ts:452-521 | the builder returns nothing for a blank name and else the greedy packing of the collected items |
| EvidencePacking.BuiltIs | atms_protocol/src/pr-review.ts:457-497 | the projection has the trimmed name cut to 256 characters, the attestation as it came, and counts that add up to the first fifty distinct findings and the first eight diagnostics |
| EvidencePacking.SanitizedIs | atms_protocol/src/pr-review.ts:471-474 | each diagnostic is considered by itself and in its place: dropped, or kept as sanitized |
| EvidencePacking.TextOfTwo | atms_protocol/src/pr-review.ts:485-499 | the measured text, written out for two findings and a diagnostic |
| EvidencePacking.PackedConserves | atms_protocol/src/pr-review.ts:500-518 | kept plus omitted is what there was, and both lists are subsequences in their order |
| EvidencePacking.AcceptedInOrder | atms_protocol/src/pr-review.ts:475-507 | of two accepted findings the first is not less severe, severities named, and if they are as severe it was given earlier |
| EvidencePacking.OmittedDidNotFit | atms_protocol/src/pr-review.ts:500-507 | a finding is left out exactly when the projection with it behind those kept from the findings before it was too large |
| EvidencePacking.OmittedDiagnosticDidNotFit | atms_protocol/src/pr-review.ts:511-518 | a diagnostic is left out exactly when the projection with all accepted findings, it, and those kept from the newer diagnostics was too large |
| EvidencePacking.PackedExactly | atms_protocol/src/pr-review.ts:497-520 | something is omitted exactly when everything together is over the limit; what is truncated fits, what is complete is one byte longer than tested, and is over the limit exactly when everything meets it exactly |
| EvidencePacking.BuiltValidatesExactly | atms_protocol/src/pr-review.ts:524-583 | what the builder returns passes the validator except in exactly that case |
| EvidencePacking.RefusedExactly | atms_protocol/src/pr-review.ts:533-580 | what a projection is refused for, with the limits of fifty, eight and 65536 bytes |
| EvidencePacking.OneByteTooLong | atms_protocol/src/pr-review.ts:519 | the case occurs, with four findings each within the limit of 32768 bytes on a single one |
| KindMigration.ParentAt | atms_plugin_sdk/src/kind-migration.ts:169-191 | the cursor finds the object that holds the last field, or there is none |
| KindMigration.ApplyOperation | atms_plugin_sdk/src/kind-migration.ts:205-232 | one turn of the loop, with its rejections and its silent exits |
| KindMigration.RejectedExactly | atms_plugin_sdk/src/kind-migration.ts:205-232 | an operation is rejected exactly when a pointer it follows is unsafe or its target is not free; a rename of nothing and a remove without an object pass in silence |
| KindMigration.Apply | atms_plugin_sdk/src/kind-migration.ts:193-234 | the operations are applied one after the other; the first rejection rejects the migration |
| KindMigration.LeavesAlone | atms_plugin_sdk/src/kind-migration.ts:205-232 | a successful migration leaves the value at every pointer that is incomparable with all of its own |
| KindMigration.RenameMoves | atms_plugin_sdk/src/kind-migration.ts:206-219 | a rename that is not into the renamed value moves every pointer under it to the same place under the new name, and no other value changes |
| KindMigration.RenameKeepsExactly | atms_plugin_sdk/src/kind-migration.ts:206-219 | a successful rename keeps the value, at its new name, exactly when the old name is not a prefix of the new |
| KindMigration.LeavesConserved | atms_plugin_sdk/src/kind-migration.ts:205-232 | an operation conserves the multiset of values that are not objects: a rename not into itself loses none, a default adds its own, a remove takes what it names |
| KindMigration.RenamesConserve | atms_plugin_sdk/src/kind-migration.ts:193-234 | a migration of renames, none into the renamed value, keeps every such value as often as it was there |
| KindMigration.SetDefaultOnlyAdds | atms_plugin_sdk/src/kind-migration.ts:221-231 | a default is set only where there was nothing, and alters no existing value |
| KindMigration.RemoveOnlyRemoves | atms_plugin_sdk/src/kind-migration.ts:227-228 | a remove takes away what is under its pointer and nothing else |
| KindMigration.DefaultsIdempotent | atms_plugin_sdk/src/kind-migration.ts:221-231 | a migration of defaults only is idempotent |

## Left out

- Messages of thrown errors: a rejection is a value without text, except where its place matters
  (`SurfaceDepth`).
- Ed25519 signing, key encoding and trust stores, and the JSON parser and printer behind the lock file:
  functions of `HrpLock.Host`. Signed builds are not modelled; the verifier's policy on signatures is.
- The Unicode normalisation test of archive paths: an ASCII string is its own normal form, and every other
  string fails the portable-segment test anyway.
- HrpZip.DecodeHrpZip: that everything written can be read is stated for limits below 65535 entries and
  4294967295 bytes, which includes the defaults; beyond them the formats' own fields overflow.
- EventSupervisor.Recovery: is stated for an observation that is accepted; when head or round have moved on
  the source stops without finishing, and so does the model.
- Exceptions raised by a save: a save happens or the process dies at it. Exceptions out of a notification
  before its event is saved, or once its queue command has ended, are modelled.
- The digest of a receipt inside the record is modelled as a copy of the receipt, and file modes, fsync,
  symbolic links, `/proc`, `systemctl` and the queue transport as atomic saves and arbitrary answers.
- A runner that dies before its identity is read has an unknown identity in the source; the model records
  the identity with the start of the process.
- Freezing and verifying runtimes: a runtime is a name, and its verification an answer.
- Python's `glob` over registrations reads them one by one; under the registry lock this is one step.
- Changing a request object after passing it to the broker registry (the abort listener reads the live
  object), and signals that fire inside `send`.
- The order of `localeCompare` in Skill Contexts is an arbitrary total preorder, and the checks on one
  Skill (patterns, credential detection, plugin and visual profile) are one predicate; a visual profile is
  taken as accepted or rejected, not rewritten.
- JavaScript strings with unpaired surrogates, and lengths counted in UTF-16 units: characters are code
  points. Where the order of UTF-16 units matters (`ChangedFiles`, `BrokerIdentity`) it is modelled; archive
  paths are ASCII, for which the orders agree.
- Redaction.RedactedIsClean: for one particular list of secrets the condition is sufficient only. It is exact
  for a single secret (`Redaction.RemovedExactly`) and over all selections from a list.
- Shared and cyclic objects in redaction, and the key `__proto__`: trees only. The redaction walk is a
  recursion over values, not a traversal that fills objects in place.
- SurfaceDepth.DepthErrors: on cyclic surfaces reports are sound but not complete, as `CycleHidesPath` shows.
  Of the general validator only the rules on ids, references, cycles and reach are modelled; its depth limit of
  eight, the limits on component and child counts, and all rules on what a component contains are not.
- KindMigration.Apply: works on values, where the source works in place on a clone, so that object identity
  is not captured beyond the one case where it shows, a rename into the renamed value. Field order is not
  kept.
- The checks on migration pointers and literals, and on evidence items, are predicates or functions given
  to the operations; a finding's own size limit is among them, and kept by the rules of `OneByteTooLong`.
- `freeze_runtime`, `status`, the command-line front ends, the GitHub adapter and polling loop, the agent
  event loop apart from the draft, prompt builders, schemas and user interfaces: plumbing or easy members.
