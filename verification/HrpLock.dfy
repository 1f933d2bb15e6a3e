/**
 * The lock file: built over a package, stored in the archive, and checked against the archive's
 * exact contents. Hashing, JSON and signatures are supplied by a host.
 */
module HrpLock {
  import opened Bytes
  import opened Crc32
  import opened HrpPath
  import opened HrpFiles
  import opened Sorting
  import opened ZipFormat
  import opened HrpZip

  const LOCK_FILE := "atms.lock.json"
  const MANIFEST_FILE := "atms.plugin.json"
  const SIGNATURE_FILE := "atms.signature.json"
  const MAX_SAFE_INTEGER: int := 0x1f_ffff_ffff_ffff

  datatype Identity = Identity(id: string, version: string)

  datatype LockedFile = LockedFile(path: string, size: nat, sha256: string)

  /** The lock without its own digest. (Its version and manifest name are constants.) */
  datatype Unsigned = Unsigned(plugin: Identity, manifestSha256: string, files: seq<LockedFile>)

  datatype Lock = Lock(unsigned: Unsigned, payloadDigest: string)

  /** A JSON object with the keys and value types of a lock file, before its values are checked. */
  datatype RawFile = RawFile(path: string, size: int, sha256: string)

  datatype RawLock = RawLock(lockVersion: int, manifest: string, plugin: Identity, manifestSha256: string,
                             payloadDigest: string, files: seq<RawFile>)

  /** The verdict on a signature, and the state reported of an archive. */
  datatype Verdict = Verified | Untrusted | Revoked

  datatype Trust = NoSignature | Signed(verdict: Verdict)

  /**
   * What the archive code takes from its surroundings: SHA-256 in hexadecimal; reading a lock file
   * (Rejected unless it is UTF-8 JSON of the right shape) and printing one canonically, with and
   * without its digest; reading the identity a manifest declares; and the verdict on a signature.
   */
  datatype Host = Host(
    sha256: seq<byte> -> string,
    parseLock: seq<byte> -> Outcome<RawLock>,
    lockBytes: Lock -> seq<byte>,
    unsignedBytes: Unsigned -> seq<byte>,
    manifestIdentity: seq<byte> -> Outcome<Identity>,
    signature: (seq<byte>, Lock) -> Outcome<Verdict>)

  /** `/^[a-f0-9]{64}$/` */
  predicate IsDigest(s: string) {
    |s| == 64 && forall i :: 0 <= i < 64 ==> 'a' <= s[i] <= 'f' || '0' <= s[i] <= '9'
  }

  /** Sixty-four lower-case hexadecimal digits. */
  lemma DigestsAre(s: string)
    ensures IsDigest(s) <==> |s| == 64 && forall c :: c in s ==> c in "0123456789abcdef"
  {
    forall c: char
      ensures 'a' <= c <= 'f' || '0' <= c <= '9' <==> c in "0123456789abcdef"
    {
    }
    assert forall i :: 0 <= i < |s| ==> s[i] in s;
  }

  function RawOf(lock: Lock): RawLock {
    var u := lock.unsigned;
    RawLock(1, MANIFEST_FILE, u.plugin, u.manifestSha256, lock.payloadDigest,
            seq(|u.files|, i requires 0 <= i < |u.files| => RawFile(u.files[i].path, u.files[i].size, u.files[i].sha256)))
  }

  ghost predicate StrictlySorted(files: seq<LockedFile>) {
    forall i, j :: 0 <= i < j < |files| ==> TextLeq(files[i].path, files[j].path) && files[i].path != files[j].path
  }

  /** What `parseLock` demands of a lock beyond its shape. */
  ghost predicate WellFormed(host: Host, lock: Lock) {
    var u := lock.unsigned;
    && IsDigest(u.manifestSha256) && IsDigest(lock.payloadDigest)
    && u.plugin.id != "" && u.plugin.version != ""
    && (forall e :: e in u.files ==> IsHrpPath(e.path) && e.size <= MAX_SAFE_INTEGER && IsDigest(e.sha256))
    && StrictlySorted(u.files)
    && (exists e :: e in u.files && e.path == MANIFEST_FILE)
    && lock.payloadDigest == host.sha256(host.unsignedBytes(u))
  }

  /** Hashes look like hashes, and parsing undoes printing a well-formed lock. */
  ghost predicate Faithful(host: Host) {
    && (forall b :: IsDigest(host.sha256(b)))
    && (forall lock :: WellFormed(host, lock) ==> host.parseLock(host.lockBytes(lock)) == Ok(RawOf(lock)))
  }

  /** `pluginIdentity`: both names must be present and non-empty. */
  function PluginIdentity(host: Host, manifest: seq<byte>): Outcome<Identity> {
    match host.manifestIdentity(manifest)
    case Rejected => Rejected
    case Ok(identity) => if identity.id == "" || identity.version == "" then Rejected else Ok(identity)
  }

  /** A manifest names its plugin exactly when it can be read and neither name is empty. */
  lemma IdentityIs(host: Host, manifest: seq<byte>, identity: Identity)
    ensures PluginIdentity(host, manifest) == Ok(identity)
      <==> host.manifestIdentity(manifest) == Ok(identity) && identity.id != "" && identity.version != ""
  {
  }

  // ---------------------------------------------------------------- what a lock promises

  predicate IsMetadata(path: string) {
    path == LOCK_FILE || path == SIGNATURE_FILE
  }

  /** The lock lists exactly the payload files, in order, with their true sizes and digests. */
  ghost predicate Covers(host: Host, lock: Unsigned, files: map<string, seq<byte>>) {
    && StrictlySorted(lock.files)
    && (forall p :: p in files && !IsMetadata(p) <==> exists e :: e in lock.files && e.path == p)
    && (forall e :: e in lock.files ==>
          e.path in files && e.size == |files[e.path]| && e.sha256 == host.sha256(files[e.path]))
  }

  /** The archive's lock file is this lock, and all that the lock says of the archive is true. */
  ghost predicate Sealed(host: Host, files: map<string, seq<byte>>, lock: Lock) {
    && LOCK_FILE in files && files[LOCK_FILE] == host.lockBytes(lock)
    && MANIFEST_FILE in files
    && PluginIdentity(host, files[MANIFEST_FILE]) == Ok(lock.unsigned.plugin)
    && lock.unsigned.manifestSha256 == host.sha256(files[MANIFEST_FILE])
    && lock.payloadDigest == host.sha256(host.unsignedBytes(lock.unsigned))
    && Covers(host, lock.unsigned, files)
  }

  /** A signature can be added later: whatever it is, it changes nothing about what the lock covers. */
  lemma SignatureKeepsSeal(host: Host, files: map<string, seq<byte>>, lock: Lock, signature: seq<byte>)
    requires SIGNATURE_FILE !in files
    ensures Sealed(host, files, lock) <==> Sealed(host, files[SIGNATURE_FILE := signature], lock)
  {
    var signed := files[SIGNATURE_FILE := signature];
    hide StrictlySorted, PluginIdentity;
    assert Covers(host, lock.unsigned, files) <==> Covers(host, lock.unsigned, signed) by {
      if Covers(host, lock.unsigned, signed) {
        forall e | e in lock.unsigned.files
          ensures e.path in files
        {
          assert e.path in signed && !IsMetadata(e.path);
        }
      }
    }
  }

  // ---------------------------------------------------------------- creating a lock

  function LockFiles(host: Host, files: seq<SourceFile>): (r: seq<LockedFile>)
    ensures |r| == |files|
  {
    seq(|files|, i requires 0 <= i < |files| =>
      LockedFile(files[i].path, |files[i].content|, host.sha256(files[i].content)))
  }

  ghost predicate HasPath(files: seq<SourceFile>, path: string) {
    exists f :: f in files && f.path == path
  }

  /** `find`: the content of the first file with a path. */
  method Find(files: seq<SourceFile>, path: string) returns (r: Outcome<seq<byte>>)
    ensures r.Ok? ==> SourceFile(path, r.value) in files
    ensures r.Rejected? ==> !HasPath(files, path)
  {
    for i := 0 to |files|
      invariant forall k :: 0 <= k < i ==> files[k].path != path
    {
      if files[i].path == path { return Ok(files[i].content); }
    }
    r := Rejected;
  }

  /** A package that a lock can be created for. */
  ghost predicate Lockable(host: Host, files: seq<SourceFile>) {
    && Acceptable(files, DEFAULT_LIMITS)
    && !HasPath(files, LOCK_FILE) && !HasPath(files, SIGNATURE_FILE)
    && exists manifest :: SourceFile(MANIFEST_FILE, manifest) in files && PluginIdentity(host, manifest).Ok?
  }

  /** A lock that belongs to a package. */
  ghost predicate IsLockOf(host: Host, files: seq<SourceFile>, lock: Lock) {
    && lock.payloadDigest == host.sha256(host.unsignedBytes(lock.unsigned))
    && lock.unsigned.files == LockFiles(host, Canonical(files))
    && exists manifest :: SourceFile(MANIFEST_FILE, manifest) in files
         && PluginIdentity(host, manifest) == Ok(lock.unsigned.plugin)
         && lock.unsigned.manifestSha256 == host.sha256(manifest)
  }

  method CreateHrpLock(host: Host, files: seq<SourceFile>) returns (r: Outcome<Lock>)
    ensures r.Ok? <==> Lockable(host, files)
    ensures r.Ok? ==> IsLockOf(host, files, r.value)
  {
    hide Acceptable, Canonical, TextLeq;
    var stable := NormalizedFiles(files, DEFAULT_LIMITS);
    if stable.Rejected? { return Rejected; }
    CanonicalIsAcceptable(files, DEFAULT_LIMITS);
    var manifest := Find(stable.value, MANIFEST_FILE);
    if manifest.Rejected? { return Rejected; }
    var lockFile := Find(stable.value, LOCK_FILE);
    var signatureFile := Find(stable.value, SIGNATURE_FILE);
    if lockFile.Ok? || signatureFile.Ok? { return Rejected; }
    OneManifest(files);
    var identity := PluginIdentity(host, manifest.value);
    if identity.Rejected? { return Rejected; }
    var unsigned := Unsigned(identity.value, host.sha256(manifest.value), LockFiles(host, stable.value));
    r := Ok(Lock(unsigned, host.sha256(host.unsignedBytes(unsigned))));
  }

  lemma OneManifest(files: seq<SourceFile>)
    requires Acceptable(files, DEFAULT_LIMITS)
    ensures forall a, b :: SourceFile(MANIFEST_FILE, a) in files && SourceFile(MANIFEST_FILE, b) in files ==> a == b
  {
    hide Acceptable;
    DistinctFiles(files, DEFAULT_LIMITS);
  }

  // ---------------------------------------------------------------- building an archive

  datatype Built = Built(archive: seq<byte>, lock: Lock, archiveDigest: string)

  /** `buildHrpArchive`. */
  method BuildHrpArchive(host: Host, table: array<int>, sourceFiles: seq<SourceFile>) returns (r: Outcome<Built>)
    requires IsCrcTable(Generator(), table[..])
    ensures r.Ok? ==> Lockable(host, sourceFiles) && IsLockOf(host, sourceFiles, r.value.lock)
    ensures r.Ok? ==>
              Encoded(sourceFiles + [SourceFile(LOCK_FILE, host.lockBytes(r.value.lock))], DEFAULT_LIMITS)
              == Ok(r.value.archive)
    ensures r.Ok? ==> r.value.archiveDigest == host.sha256(r.value.archive)
    ensures r.Rejected? && Lockable(host, sourceFiles) ==>
              exists lock :: IsLockOf(host, sourceFiles, lock)
                && Encoded(sourceFiles + [SourceFile(LOCK_FILE, host.lockBytes(lock))], DEFAULT_LIMITS).Rejected?
  {
    hide *;
    var files := NormalizedFiles(sourceFiles, DEFAULT_LIMITS);
    LockableIs(host, sourceFiles);
    if files.Rejected? { return Rejected; }
    LockableCanonical(host, sourceFiles);
    var lock := CreateHrpLock(host, files.value);
    if lock.Rejected? { return Rejected; }
    IsLockCanonical(host, sourceFiles, lock.value);
    var lockFile := SourceFile(LOCK_FILE, host.lockBytes(lock.value));
    var archive := EncodeHrpZip(table, files.value + [lockFile], DEFAULT_LIMITS);
    AppendedPermutes(sourceFiles, lockFile);
    EncodedPermutes(sourceFiles + [lockFile], files.value + [lockFile], DEFAULT_LIMITS);
    if archive.Rejected? { return Rejected; }
    r := Ok(Built(archive.value, lock.value, host.sha256(archive.value)));
  }

  lemma LockableIs(host: Host, files: seq<SourceFile>)
    ensures Lockable(host, files) ==> Acceptable(files, DEFAULT_LIMITS)
  {
    hide Acceptable;
  }

  lemma LockableCanonical(host: Host, files: seq<SourceFile>)
    ensures Lockable(host, Canonical(files)) <==> Lockable(host, files)
  {
    hide Acceptable, Canonical;
    CanonicalIsAcceptable(files, DEFAULT_LIMITS);
  }

  lemma IsLockCanonical(host: Host, files: seq<SourceFile>, lock: Lock)
    ensures IsLockOf(host, Canonical(files), lock) <==> IsLockOf(host, files, lock)
  {
    hide Acceptable, Canonical;
    CanonicalIsAcceptable(files, DEFAULT_LIMITS);
    CanonicalIdempotent(files);
  }

  lemma AppendedPermutes(files: seq<SourceFile>, last: SourceFile)
    ensures multiset(files + [last]) == multiset(Canonical(files) + [last])
  {
    hide StableSort;
    SortPermutes(files, PathOrder());
  }

  /** What is built is sealed: the map read back is the package and its lock file. */
  lemma BuiltIsSealed(host: Host, files: seq<SourceFile>, lock: Lock, archive: seq<byte>)
    requires Lockable(host, files) && IsLockOf(host, files, lock)
    requires Encoded(files + [SourceFile(LOCK_FILE, host.lockBytes(lock))], DEFAULT_LIMITS) == Ok(archive)
    ensures var contents := FileMap(files)[LOCK_FILE := host.lockBytes(lock)];
      && Decoded(archive, DEFAULT_LIMITS) == Ok(contents)
      && Sealed(host, contents, lock) && SIGNATURE_FILE !in contents
  {
    hide Acceptable, Canonical, Encoded, Decoded, FileMap, TextLeq, PluginIdentity;
    var lockFile := SourceFile(LOCK_FILE, host.lockBytes(lock));
    var contents := FileMap(files)[LOCK_FILE := lockFile.content];
    DecodedEncoded(files + [lockFile], DEFAULT_LIMITS, archive);
    FileMapAppend(files, lockFile);
    DistinctFiles(files, DEFAULT_LIMITS);
    FileMapHolds(files);
    CanonicalIsAcceptable(files, DEFAULT_LIMITS);
    var manifest :| SourceFile(MANIFEST_FILE, manifest) in files
         && PluginIdentity(host, manifest) == Ok(lock.unsigned.plugin)
         && lock.unsigned.manifestSha256 == host.sha256(manifest);
    assert SourceFile(MANIFEST_FILE, manifest).path in contents && contents[MANIFEST_FILE] == manifest;
    LockCovers(host, files, contents);
  }

  lemma FileMapAppend(files: seq<SourceFile>, last: SourceFile)
    ensures FileMap(files + [last]) == FileMap(files)[last.path := last.content]
  {
    assert (files + [last])[..|files|] == files;
  }

  lemma LockCovers(host: Host, files: seq<SourceFile>, contents: map<string, seq<byte>>)
    requires Acceptable(files, DEFAULT_LIMITS)
    requires forall f :: f in Canonical(files) <==> f in files
    requires !HasPath(files, LOCK_FILE) && !HasPath(files, SIGNATURE_FILE)
    requires forall f :: f in files ==> f.path in contents && contents[f.path] == f.content
    requires forall p :: p in contents ==> p == LOCK_FILE || HasPath(files, p)
    requires forall f, g :: f in files && g in files && f.path == g.path ==> f == g
    ensures Covers(host, Unsigned(Identity("", ""), "", LockFiles(host, Canonical(files))), contents)
    ensures forall plugin, digest :: Covers(host, Unsigned(plugin, digest, LockFiles(host, Canonical(files))), contents)
  {
    CanonicalStrict(host, files);
    hide Acceptable, Canonical, TextLeq, StrictlySorted;
    var c := Canonical(files);
    var locked := LockFiles(host, c);
    forall p ensures p in contents && !IsMetadata(p) <==> exists e :: e in locked && e.path == p {
      if p in contents && !IsMetadata(p) {
        var f :| f in files && f.path == p;
        var i :| 0 <= i < |c| && c[i] == f;
        assert locked[i] in locked && locked[i].path == p;
      }
      if e :| e in locked && e.path == p {
        var i :| 0 <= i < |c| && locked[i] == e;
        assert c[i] in files;
      }
    }
    forall e | e in locked
      ensures e.path in contents && e.size == |contents[e.path]| && e.sha256 == host.sha256(contents[e.path])
    {
      var i :| 0 <= i < |c| && locked[i] == e;
      assert c[i] in files;
    }
  }

  lemma CanonicalStrict(host: Host, files: seq<SourceFile>)
    requires Acceptable(files, DEFAULT_LIMITS)
    ensures StrictlySorted(LockFiles(host, Canonical(files)))
  {
    PathOrderTotal();
    SortSorted(files, PathOrder());
    CanonicalIsAcceptable(files, DEFAULT_LIMITS);
    hide StableSort, TextLeq, IsHrpPath, TotalBytes, FoldCase, IsProperSegmentPrefix;
    var c := Canonical(files);
    forall i, j | 0 <= i < j < |c| ensures TextLeq(c[i].path, c[j].path) && c[i].path != c[j].path {
      assert PathOrder()(c[i], c[j]);
      assert FoldCase(Paths(c)[i]) != FoldCase(Paths(c)[j]);
    }
  }

  // ---------------------------------------------------------------- reading a lock

  /** The lock a content is the text of, if there is one. */
  lemma LockExpectation(host: Host, content: seq<byte>) returns (expected: bool, lock: Lock)
    requires Faithful(host)
    ensures expected ==> content == host.lockBytes(lock) && WellFormed(host, lock)
    ensures expected ==> host.parseLock(content) == Ok(RawOf(lock))
    ensures forall other :: content == host.lockBytes(other) && WellFormed(host, other) ==> expected && other == lock
  {
    hide WellFormed;
    expected, lock := false, Lock(Unsigned(Identity("", ""), "", []), "");
    if exists other :: content == host.lockBytes(other) && WellFormed(host, other) {
      expected := true;
      lock :| content == host.lockBytes(lock) && WellFormed(host, lock);
      forall other | content == host.lockBytes(other) && WellFormed(host, other) ensures other == lock {
        assert host.parseLock(content) == Ok(RawOf(other)) && host.parseLock(content) == Ok(RawOf(lock));
        RawInjective(other, lock);
      }
    }
  }

  lemma RawInjective(a: Lock, b: Lock)
    requires RawOf(a) == RawOf(b)
    ensures a == b
  {
    var x, y := RawOf(a).files, RawOf(b).files;
    forall i | 0 <= i < |x| ensures a.unsigned.files[i] == b.unsigned.files[i] {
      assert x[i] == y[i];
    }
    assert a.unsigned.files == b.unsigned.files;
  }

  ghost predicate GoodEntries(files: seq<LockedFile>) {
    forall e :: e in files ==> IsHrpPath(e.path) && e.size <= MAX_SAFE_INTEGER && IsDigest(e.sha256)
  }

  /** An entry in place passes the tests of the loop. */
  lemma EntryInPlace(host: Host, lock: Lock, i: nat, previous: string)
    requires WellFormed(host, lock) && i < |lock.unsigned.files|
    requires previous == if i == 0 then "" else lock.unsigned.files[i - 1].path
    ensures var e := lock.unsigned.files[i];
      && IsHrpPath(e.path) && e.size <= MAX_SAFE_INTEGER && IsDigest(e.sha256) && !TextLeq(e.path, previous)
  {
    var files := lock.unsigned.files;
    assert files[i] in files;
    if i == 0 {
      HrpPathIsAscii(files[i].path);
    } else {
      TextTotal(files[i - 1].path, files[i].path);
    }
  }

  lemma StrictlySortedStep(files: seq<LockedFile>, e: LockedFile, previous: string)
    requires StrictlySorted(files) && !TextLeq(e.path, previous)
    requires files != [] ==> previous == files[|files| - 1].path
    ensures StrictlySorted(files + [e])
  {
    hide TextLeq;
    TextTotal(previous, e.path);
    forall i | 0 <= i < |files| ensures TextLeq(files[i].path, e.path) && files[i].path != e.path {
      TextReflexive(previous);
      assert TextLeq(files[i].path, previous);
      TextTransitive(files[i].path, previous, e.path);
    }
  }

  lemma {:induction false} TextReflexive(s: string)
    ensures TextLeq(s, s)
  {
    if s != "" { TextReflexive(s[1..]); }
  }

  /** The entries loop of `parseLock`. A well-formed lock's own entries are accepted as they are. */
  method ParseEntries(host: Host, entries: seq<RawFile>, ghost expected: bool, ghost target: Lock)
    returns (r: Outcome<seq<LockedFile>>)
    requires expected ==> WellFormed(host, target) && entries == RawOf(target).files
    ensures r.Ok? ==> GoodEntries(r.value) && StrictlySorted(r.value)
    ensures expected ==> r == Ok(target.unsigned.files)
  {
    hide IsDigest, IsHrpPath, TextLeq, StrictlySorted;
    var files: seq<LockedFile>, previous: string := [], "";
    assert StrictlySorted(files) by { NothingSorted(); }
    for i := 0 to |entries|
      invariant |files| == i && GoodEntries(files) && StrictlySorted(files)
      invariant previous == if i == 0 then "" else files[i - 1].path
      invariant expected ==> files == target.unsigned.files[..i]
    {
      var entry := entries[i];
      if expected {
        EntryInPlace(host, target, i, previous);
        assert target.unsigned.files[..i + 1] == files + [target.unsigned.files[i]];
      }
      if entry.size < 0 || entry.size > MAX_SAFE_INTEGER || !IsDigest(entry.sha256) { return Rejected; }
      var filePath := NormalizeHrpPath(entry.path);
      if filePath.Rejected? { return Rejected; }
      if TextLeq(filePath.value, previous) { return Rejected; }
      var file := LockedFile(filePath.value, entry.size, entry.sha256);
      StrictlySortedStep(files, file, previous);
      previous := filePath.value;
      files := files + [file];
    }
    assert expected ==> files == target.unsigned.files;
    return Ok(files);
  }

  /** `parseLock` accepts exactly the canonical text of a well-formed lock. */
  method ParseLock(host: Host, content: seq<byte>) returns (r: Outcome<Lock>)
    requires Faithful(host)
    ensures r.Ok? ==> content == host.lockBytes(r.value) && WellFormed(host, r.value)
    ensures forall lock :: content == host.lockBytes(lock) && WellFormed(host, lock) ==> r == Ok(lock)
  {
    ghost var expected, target := LockExpectation(host, content);
    hide IsDigest, IsHrpPath, TextLeq, Faithful, StrictlySorted;
    var parsed := host.parseLock(content);
    if parsed.Rejected? { return Rejected; }
    var raw := parsed.value;
    if raw.lockVersion != 1 || raw.manifest != MANIFEST_FILE || !IsDigest(raw.manifestSha256) || !IsDigest(raw.payloadDigest) {
      return Rejected;
    }
    if raw.plugin.id == "" || raw.plugin.version == "" { return Rejected; }
    var entries := ParseEntries(host, raw.files, expected, target);
    if entries.Rejected? { return Rejected; }
    var files := entries.value;
    if !exists e :: e in files && e.path == MANIFEST_FILE { return Rejected; }
    var unsigned := Unsigned(raw.plugin, raw.manifestSha256, files);
    if host.sha256(host.unsignedBytes(unsigned)) != raw.payloadDigest { return Rejected; }
    var lock := Lock(unsigned, raw.payloadDigest);
    if content != host.lockBytes(lock) { return Rejected; }
    r := Ok(lock);
  }

  lemma NothingSorted()
    ensures StrictlySorted([])
  {
  }

  // ---------------------------------------------------------------- verifying an archive

  datatype Policy = Policy(allowSignature: bool, requireTrustedSignature: bool)

  datatype VerifiedArchive = VerifiedArchive(archiveDigest: string, lock: Lock, files: map<string, seq<byte>>,
                                             signatureState: Trust)

  /** What the policy asks of the signature file, or of its absence, and the state that is then reported. */
  ghost predicate SignatureAllowed(host: Host, files: map<string, seq<byte>>, lock: Lock, policy: Policy, state: Trust) {
    && (policy.requireTrustedSignature ==> state == Signed(Verified))
    && (state.NoSignature? <==> SIGNATURE_FILE !in files)
    && (state.Signed? ==> policy.allowSignature && host.signature(files[SIGNATURE_FILE], lock) == Ok(state.verdict))
  }

  /** The policy's condition, over the signature file itself. */
  ghost predicate PolicyMet(host: Host, files: map<string, seq<byte>>, lock: Lock, policy: Policy) {
    if SIGNATURE_FILE !in files then !policy.requireTrustedSignature
    else
      var verdict := host.signature(files[SIGNATURE_FILE], lock);
      policy.allowSignature && verdict.Ok? && (verdict.value == Verified || !policy.requireTrustedSignature)
  }

  lemma OpensExactly(host: Host, archive: seq<byte>, policy: Policy, files: map<string, seq<byte>>, lock: Lock)
    requires Faithful(host) && Decoded(archive, DEFAULT_LIMITS) == Ok(files) && Sealed(host, files, lock)
    ensures PolicyMet(host, files, lock, policy) <==> exists v :: Opens(host, archive, policy, v)
  {
    DecodedFiles(archive, files);
    SealedIsWellFormed(host, files, lock);
    if PolicyMet(host, files, lock, policy) {
      var state := if SIGNATURE_FILE in files then Signed(host.signature(files[SIGNATURE_FILE], lock).value)
                   else NoSignature;
      assert Opens(host, archive, policy, VerifiedArchive(host.sha256(archive), lock, files, state));
    }
    if v :| Opens(host, archive, policy, v) {
      OneLock(host, files, v.lock, lock);
    }
  }

  /** A decoded archive is sealed by one lock only. */
  lemma OneLock(host: Host, files: map<string, seq<byte>>, a: Lock, b: Lock)
    requires Faithful(host) && Sealed(host, files, a) && Sealed(host, files, b)
    requires forall p :: p in files ==> IsHrpPath(p) && |files[p]| <= MAX_SAFE_INTEGER
    ensures a == b
  {
    SealedIsWellFormed(host, files, a);
    SealedIsWellFormed(host, files, b);
    hide WellFormed;
    assert host.parseLock(files[LOCK_FILE]) == Ok(RawOf(a)) && host.parseLock(files[LOCK_FILE]) == Ok(RawOf(b));
    RawInjective(a, b);
  }

  /** What it takes for an archive to be accepted, and what is then returned. */
  ghost predicate Opens(host: Host, archive: seq<byte>, policy: Policy, v: VerifiedArchive) {
    && Decoded(archive, DEFAULT_LIMITS) == Ok(v.files)
    && Sealed(host, v.files, v.lock)
    && v.archiveDigest == host.sha256(archive)
    && SignatureAllowed(host, v.files, v.lock, policy, v.signatureState)
  }

  /** An accepted archive contains only acceptable names and sizes. */
  lemma DecodedFiles(archive: seq<byte>, files: map<string, seq<byte>>)
    requires Decoded(archive, DEFAULT_LIMITS) == Ok(files)
    ensures forall p :: p in files ==> IsHrpPath(p) && |files[p]| <= MAX_SAFE_INTEGER
  {
    hide FileMap, Archive, Fits, Canonical;
    var source: seq<SourceFile> :| Encoded(source, DEFAULT_LIMITS) == Ok(archive) && files == FileMap(source);
    DistinctFiles(source, DEFAULT_LIMITS);
    FileMapHolds(source);
    forall p | p in files ensures IsHrpPath(p) && |files[p]| <= MAX_SAFE_INTEGER {
      var f: SourceFile :| f in source && f.path == p;
      assert files[p] == f.content;
    }
  }

  lemma SealedIsWellFormed(host: Host, files: map<string, seq<byte>>, lock: Lock)
    requires Faithful(host) && Sealed(host, files, lock)
    requires forall p :: p in files ==> IsHrpPath(p) && |files[p]| <= MAX_SAFE_INTEGER
    ensures WellFormed(host, lock)
  {
    hide IsHrpPath, IsDigest, StrictlySorted;
    assert MANIFEST_FILE in files && !IsMetadata(MANIFEST_FILE);
  }

  ghost predicate StrictPaths(paths: seq<string>) {
    forall i, j :: 0 <= i < j < |paths| ==> TextLeq(paths[i], paths[j]) && paths[i] != paths[j]
  }

  /** A set of paths has one strictly sorted listing. */
  lemma {:induction false} StrictUnique(a: seq<string>, b: seq<string>)
    requires StrictPaths(a) && StrictPaths(b) && forall p :: p in a <==> p in b
    ensures a == b
  {
    hide TextLeq;
    assert |b| > 0 ==> b[0] in b;
    if a != [] {
      assert a[0] in b && b != [] && b[0] in a;
      SameFirst(a, b);
      forall p ensures p in a[1..] <==> p in b[1..] {
        if p in a[1..] { var i :| 1 <= i < |a| && a[i] == p; assert a[0] != a[i]; assert p in b; }
        if p in b[1..] { var i :| 1 <= i < |b| && b[i] == p; assert b[0] != b[i]; assert p in a; }
      }
      StrictUnique(a[1..], b[1..]);
    }
  }

  lemma SameFirst(a: seq<string>, b: seq<string>)
    requires StrictPaths(a) && StrictPaths(b) && a != [] && b != [] && a[0] in b && b[0] in a
    ensures a[0] == b[0]
  {
    hide TextLeq;
    var i :| 0 <= i < |b| && b[i] == a[0];
    var j :| 0 <= j < |a| && a[j] == b[0];
    if i > 0 && j > 0 { TextTotal(a[0], b[0]); }
  }

  /** `[...files.keys()].filter(...).sort()`. */
  method SortedPayloadPaths(files: map<string, seq<byte>>) returns (paths: seq<string>)
    ensures StrictPaths(paths)
    ensures forall p :: p in paths <==> p in files && !IsMetadata(p)
  {
    hide TextLeq;
    var keys: seq<string>, unvisited := [], files.Keys;
    while unvisited != {}
      invariant unvisited <= files.Keys
      invariant forall p :: p in keys <==> p in files && p !in unvisited && !IsMetadata(p)
      invariant forall i, j :: 0 <= i < j < |keys| ==> keys[i] != keys[j]
      decreases unvisited
    {
      var p :| p in unvisited;
      unvisited := unvisited - {p};
      if !IsMetadata(p) { keys := keys + [p]; }
    }
    TextOrderTotal();
    paths := StableSort(keys, TextOrder());
    SortMembers(keys, TextOrder());
    SortSorted(keys, TextOrder());
    SortPermutes(keys, TextOrder());
    DistinctPermuted(keys, paths);
    forall i, j | 0 <= i < j < |paths| ensures TextLeq(paths[i], paths[j]) && paths[i] != paths[j] {
      assert TextOrder()(paths[i], paths[j]);
    }
  }

  function LockedPaths(files: seq<LockedFile>): (paths: seq<string>)
    ensures |paths| == |files|
  {
    seq(|files|, i requires 0 <= i < |files| => files[i].path)
  }

  /** The test on names decides whether the lock lists exactly the payload files. */
  lemma NamesAgree(host: Host, lock: Unsigned, files: map<string, seq<byte>>, actual: seq<string>)
    requires StrictPaths(actual) && StrictlySorted(lock.files)
    requires forall p :: p in actual <==> p in files && !IsMetadata(p)
    ensures actual == LockedPaths(lock.files)
       <==> forall p :: p in files && !IsMetadata(p) <==> exists e :: e in lock.files && e.path == p
  {
    hide TextLeq, IsMetadata;
    var locked := LockedPaths(lock.files);
    assert StrictPaths(locked);
    forall p ensures p in locked <==> exists e :: e in lock.files && e.path == p {
      if p in locked {
        var i :| 0 <= i < |locked| && locked[i] == p;
        assert lock.files[i] in lock.files;
      }
      if e :| e in lock.files && e.path == p {
        var i :| 0 <= i < |lock.files| && lock.files[i] == e;
        assert locked[i] == p;
      }
    }
    if forall p :: p in files && !IsMetadata(p) <==> exists e :: e in lock.files && e.path == p {
      StrictUnique(actual, locked);
    }
  }

  /** What the verifier should return, if it should return. */
  lemma VerifierExpectation(host: Host, archive: seq<byte>, policy: Policy) returns (expected: bool, v: VerifiedArchive)
    requires Faithful(host)
    ensures expected ==> Opens(host, archive, policy, v) && WellFormed(host, v.lock)
    ensures forall other :: Opens(host, archive, policy, other) ==> expected && other == v
    ensures forall files, lock :: Decoded(archive, DEFAULT_LIMITS) == Ok(files) && Sealed(host, files, lock) ==>
              (expected <==> PolicyMet(host, files, lock, policy))
  {
    hide WellFormed, Decoded;
    expected := false;
    v := VerifiedArchive("", Lock(Unsigned(Identity("", ""), "", []), ""), map[], NoSignature);
    if exists other :: Opens(host, archive, policy, other) {
      expected := true;
      v :| Opens(host, archive, policy, v);
      DecodedFiles(archive, v.files);
      SealedIsWellFormed(host, v.files, v.lock);
      forall other | Opens(host, archive, policy, other) ensures other == v {
        OneLock(host, v.files, other.lock, v.lock);
      }
    }
    forall files, lock | Decoded(archive, DEFAULT_LIMITS) == Ok(files) && Sealed(host, files, lock)
      ensures expected <==> PolicyMet(host, files, lock, policy)
    {
      OpensExactly(host, archive, policy, files, lock);
    }
  }

  /**
   * `verifyHrpArchive` accepts an archive exactly when its lock covers it and the policy allows its signature:
   * a policy that requires trust is met by a signature found verified only, and one that does not allow
   * signatures by the absence of the file only.
   */
  method VerifyHrpArchive(host: Host, table: array<int>, archive: seq<byte>, policy: Policy)
    returns (r: Outcome<VerifiedArchive>)
    requires Faithful(host) && IsCrcTable(Generator(), table[..])
    ensures r.Ok? ==> Opens(host, archive, policy, r.value)
    ensures forall v :: Opens(host, archive, policy, v) ==> r == Ok(v)
    ensures r.Ok? && policy.requireTrustedSignature ==>
              SIGNATURE_FILE in r.value.files
              && host.signature(r.value.files[SIGNATURE_FILE], r.value.lock) == Ok(Verified)
    ensures r.Ok? && !policy.allowSignature ==> SIGNATURE_FILE !in r.value.files
    ensures r.Ok? ==> (r.value.signatureState == NoSignature <==> SIGNATURE_FILE !in r.value.files)
    ensures r.Ok? && SIGNATURE_FILE in r.value.files ==>
              host.signature(r.value.files[SIGNATURE_FILE], r.value.lock) == Ok(r.value.signatureState.verdict)
    ensures forall files, lock :: Decoded(archive, DEFAULT_LIMITS) == Ok(files) && Sealed(host, files, lock) ==>
              (r.Ok? <==> PolicyMet(host, files, lock, policy))
  {
    hide Faithful, IsDigest, IsHrpPath, TextLeq, WellFormed, StrictlySorted, Decoded, IsCrcTable, Generator, PluginIdentity,
         PolicyMet;
    DefaultsReadable();
    ghost var expected, target := VerifierExpectation(host, archive, policy);
    var decoded := DecodeHrpZip(table, archive, DEFAULT_LIMITS);
    if decoded.Rejected? { return Rejected; }
    var files := decoded.value;
    if LOCK_FILE !in files { return Rejected; }
    if SIGNATURE_FILE in files && !policy.allowSignature { return Rejected; }
    var parsed := ParseLock(host, files[LOCK_FILE]);
    if parsed.Rejected? { return Rejected; }
    var lock := parsed.value;
    WellFormedIs(host, lock);
    if MANIFEST_FILE !in files { return Rejected; }
    var identity := PluginIdentity(host, files[MANIFEST_FILE]);
    if identity != Ok(lock.unsigned.plugin) || host.sha256(files[MANIFEST_FILE]) != lock.unsigned.manifestSha256 {
      return Rejected;
    }
    var actualPaths := SortedPayloadPaths(files);
    NamesAgree(host, lock.unsigned, files, actualPaths);
    if actualPaths != LockedPaths(lock.unsigned.files) { return Rejected; }
    for i := 0 to |lock.unsigned.files|
      invariant forall k :: 0 <= k < i ==> IsTrue(host, lock.unsigned.files[k], files)
    {
      var entry := lock.unsigned.files[i];
      assert entry in lock.unsigned.files;
      var content := files[entry.path];
      if |content| != entry.size || host.sha256(content) != entry.sha256 { return Rejected; }
    }
    assert Sealed(host, files, lock);
    var signatureState := NoSignature;
    if SIGNATURE_FILE in files {
      var verdict := host.signature(files[SIGNATURE_FILE], lock);
      if verdict.Rejected? { return Rejected; }
      signatureState := Signed(verdict.value);
    }
    if policy.requireTrustedSignature && signatureState != Signed(Verified) { return Rejected; }
    r := Ok(VerifiedArchive(host.sha256(archive), lock, files, signatureState));
  }

  ghost predicate IsTrue(host: Host, entry: LockedFile, files: map<string, seq<byte>>) {
    entry.path in files && entry.size == |files[entry.path]| && entry.sha256 == host.sha256(files[entry.path])
  }

  lemma WellFormedIs(host: Host, lock: Lock)
    requires WellFormed(host, lock)
    ensures StrictlySorted(lock.unsigned.files)
    ensures lock.payloadDigest == host.sha256(host.unsignedBytes(lock.unsigned))
  {
    hide IsDigest, IsHrpPath, StrictlySorted;
  }

  /**
   * Whatever is built, unsigned as it is, verifies with the same lock, the same files and the same digest,
   * exactly when the policy does not require a trusted signature.
   */
  method BuildThenVerify(host: Host, table: array<int>, sourceFiles: seq<SourceFile>, policy: Policy)
    returns (built: Outcome<Built>, verified: Outcome<VerifiedArchive>)
    requires Faithful(host) && IsCrcTable(Generator(), table[..])
    ensures built.Ok? && !policy.requireTrustedSignature ==> verified == Ok(VerifiedArchive(
      built.value.archiveDigest, built.value.lock,
      FileMap(sourceFiles)[LOCK_FILE := host.lockBytes(built.value.lock)], NoSignature))
    ensures policy.requireTrustedSignature ==> verified.Rejected?
  {
    hide Faithful, Lockable, IsLockOf, Encoded, Decoded, Sealed, FileMap, IsCrcTable, Generator;
    verified := Rejected;
    built := BuildHrpArchive(host, table, sourceFiles);
    if built.Ok? {
      BuiltIsSealed(host, sourceFiles, built.value.lock, built.value.archive);
      verified := VerifyHrpArchive(host, table, built.value.archive, policy);
      ghost var contents := FileMap(sourceFiles)[LOCK_FILE := host.lockBytes(built.value.lock)];
      if !policy.requireTrustedSignature {
        assert Opens(host, built.value.archive, policy,
                     VerifiedArchive(built.value.archiveDigest, built.value.lock, contents, NoSignature));
      }
    }
  }
}
