/** The archive writer and reader. */
module HrpZip {
  import opened Bytes
  import opened Crc32
  import opened HrpPath
  import opened HrpFiles
  import opened RangeCover
  import opened ZipFormat

  // ---------------------------------------------------------------- what they compute

  /** What the writer makes of a file list. */
  ghost function Encoded(files: seq<SourceFile>, limits: Limits): Outcome<seq<byte>> {
    var c := Canonical(files);
    if Acceptable(files, limits) && Fits(c) && |Archive(c)| <= limits.maxArchiveBytes then Ok(Archive(c))
    else Rejected
  }

  /** What the reader makes of a byte string: the files it was written from, if there are any. */
  ghost function Decoded(archive: seq<byte>, limits: Limits): Outcome<map<string, seq<byte>>> {
    if exists files :: Encoded(files, limits) == Ok(archive) then
      var files :| Encoded(files, limits) == Ok(archive);
      Ok(FileMap(files))
    else Rejected
  }

  /** The bounds under which every archive the writer returns can be read: the defaults are within them. */
  predicate Readable(limits: Limits) {
    limits.maxEntries < U16 - 1 && limits.maxArchiveBytes < U32 - 1
  }

  lemma HrpPathIsAscii(path: string)
    requires IsHrpPath(path)
    ensures |path| <= MAX_PATH_BYTES && path != "" && forall i :: 0 <= i < |path| ==> (path[i] as int) < 128
  {
    JoinSplit(path);
    JoinChars(Split(path));
  }

  lemma AcceptableNames(files: seq<SourceFile>, limits: Limits)
    requires Acceptable(files, limits)
    ensures AsciiNames(files) && forall f :: f in files ==> |f.path| < U16
  {
    forall f, i | f in files && 0 <= i < |f.path| ensures (f.path[i] as int) < 128 { HrpPathIsAscii(f.path); }
    forall f | f in files ensures |f.path| < U16 { HrpPathIsAscii(f.path); }
  }

  /** Equal archives were written from file lists with equal maps. */
  lemma EncodedInjective(a: seq<SourceFile>, b: seq<SourceFile>, limits: Limits, limits': Limits)
    requires Encoded(a, limits).Ok? && Encoded(a, limits) == Encoded(b, limits')
    ensures Canonical(a) == Canonical(b) && FileMap(a) == FileMap(b)
  {
    hide Acceptable, Canonical, Fits, Archive, FileMap;
    CanonicalIsAcceptable(a, limits);
    CanonicalIsAcceptable(b, limits');
    AcceptableNames(Canonical(a), limits);
    AcceptableNames(Canonical(b), limits');
    ArchiveInjective(Canonical(a), Canonical(b));
    FileMapOf(a, limits);
    FileMapOf(b, limits');
  }

  lemma FileMapOf(files: seq<SourceFile>, limits: Limits)
    requires Acceptable(files, limits)
    ensures FileMap(Canonical(files)) == FileMap(files)
  {
    FileMapCanonical(files);
  }

  /** Reading undoes writing. */
  lemma DecodedEncoded(files: seq<SourceFile>, limits: Limits, archive: seq<byte>)
    requires Encoded(files, limits) == Ok(archive)
    ensures Decoded(archive, limits) == Ok(FileMap(files))
  {
    hide Encoded, FileMap;
    var other :| Encoded(other, limits) == Ok(archive) && Decoded(archive, limits) == Ok(FileMap(other));
    EncodedInjective(files, other, limits, limits);
  }

  /** The order in which files are supplied never matters. */
  lemma EncodedPermutes(a: seq<SourceFile>, b: seq<SourceFile>, limits: Limits)
    requires multiset(a) == multiset(b)
    ensures Encoded(a, limits) == Encoded(b, limits)
  {
    hide Acceptable, Canonical, Fits, Archive;
    if Acceptable(a, limits) {
      AcceptablePermutes(a, b, limits);
    } else if Acceptable(b, limits) {
      AcceptablePermutes(b, a, limits);
    }
  }

  /** Two accepted archives with equal maps are byte-identical. */
  lemma DecodedInjective(x: seq<byte>, y: seq<byte>, limits: Limits)
    requires Decoded(x, limits).Ok? && Decoded(x, limits) == Decoded(y, limits)
    ensures x == y
  {
    hide Encoded, FileMap;
    var a :| Encoded(a, limits) == Ok(x) && Decoded(x, limits) == Ok(FileMap(a));
    var b :| Encoded(b, limits) == Ok(y) && Decoded(y, limits) == Ok(FileMap(b));
    EncodedByMap(a, b, limits);
  }

  lemma EncodedByMap(a: seq<SourceFile>, b: seq<SourceFile>, limits: Limits)
    requires Encoded(a, limits).Ok? && Encoded(b, limits).Ok? && FileMap(a) == FileMap(b)
    ensures Encoded(a, limits) == Encoded(b, limits)
  {
    hide FileMap, Canonical, Archive, Fits;
    SameFiles(a, b, limits);
    EncodedPermutes(a, b, limits);
  }

  lemma DistinctFiles(files: seq<SourceFile>, limits: Limits)
    requires Acceptable(files, limits)
    ensures forall f, g :: f in files && g in files && f.path == g.path ==> f == g
    ensures forall f :: multiset(files)[f] <= 1
  {
    hide NoCollisions, IsHrpPath;
    forall f, g | f in files && g in files && f.path == g.path ensures f == g { DistinctPaths(files, f, g); }
    forall f ensures multiset(files)[f] <= 1 {
      if multiset(files)[f] >= 2 {
        var i, j := PositionsOf(files, f);
        DistinctPositions(files, i, j);
      }
    }
  }

  lemma DistinctPositions(files: seq<SourceFile>, i: nat, j: nat)
    requires NoCollisions(Paths(files)) && i < j < |files|
    ensures files[i] != files[j]
  {
    hide FoldCase, IsProperSegmentPrefix;
    var paths := Paths(files);
    assert FoldCase(paths[i]) != FoldCase(paths[j]);
  }

  lemma SameFiles(a: seq<SourceFile>, b: seq<SourceFile>, limits: Limits)
    requires Acceptable(a, limits) && Acceptable(b, limits) && FileMap(a) == FileMap(b)
    ensures multiset(a) == multiset(b)
  {
    DistinctFiles(a, limits);
    DistinctFiles(b, limits);
    hide *;
    FileMapHolds(a);
    FileMapHolds(b);
    forall f ensures multiset(a)[f] == multiset(b)[f] {
      if f in a { InBoth(a, b, f); }
      if f in b { InBoth(b, a, f); }
      assert f in a <==> f in multiset(a);
      assert f in b <==> f in multiset(b);
    }
  }

  lemma InBoth(a: seq<SourceFile>, b: seq<SourceFile>, f: SourceFile)
    requires FileMap(a) == FileMap(b) && f in a
    requires f.path in FileMap(a) && FileMap(a)[f.path] == f.content
    requires forall p :: p in FileMap(b) <==> exists g :: g in b && g.path == p
    requires forall g :: g in b ==> g.path in FileMap(b) && FileMap(b)[g.path] == g.content
    ensures f in b
  {
    hide FileMap;
    var g :| g in b && g.path == f.path;
    assert g == f;
  }

  // ---------------------------------------------------------------- writing records in place

  method WriteUInt16LE(buffer: array<byte>, value: nat, offset: nat)
    requires value < U16 && offset + 2 <= buffer.Length
    modifies buffer
    ensures Read16(buffer[..], offset) == value
    ensures forall k :: 0 <= k && k + 2 <= buffer.Length && (k + 2 <= offset || offset + 2 <= k) ==>
              Read16(buffer[..], k) == old(Read16(buffer[..], k))
    ensures forall k :: 0 <= k && k + 4 <= buffer.Length && (k + 4 <= offset || offset + 2 <= k) ==>
              Read32(buffer[..], k) == old(Read32(buffer[..], k))
  {
    buffer[offset] := LE16(value)[0];
    buffer[offset + 1] := LE16(value)[1];
    assert Read16(LE16(value), 0) == value;
  }

  method WriteUInt32LE(buffer: array<byte>, value: nat, offset: nat)
    requires value < U32 && offset + 4 <= buffer.Length
    modifies buffer
    ensures Read32(buffer[..], offset) == value
    ensures forall k :: 0 <= k && k + 2 <= buffer.Length && (k + 2 <= offset || offset + 4 <= k) ==>
              Read16(buffer[..], k) == old(Read16(buffer[..], k))
    ensures forall k :: 0 <= k && k + 4 <= buffer.Length && (k + 4 <= offset || offset + 4 <= k) ==>
              Read32(buffer[..], k) == old(Read32(buffer[..], k))
  {
    var bytes := LE32(value);
    buffer[offset] := bytes[0];
    buffer[offset + 1] := bytes[1];
    buffer[offset + 2] := bytes[2];
    buffer[offset + 3] := bytes[3];
    assert Read32(bytes, 0) == value;
  }

  /** `name.copy(buffer, at)`, for a name that ends the buffer. */
  method CopyInto(name: seq<byte>, buffer: array<byte>, at: nat)
    requires at + |name| == buffer.Length
    modifies buffer
    ensures buffer[at..] == name
    ensures forall k :: 0 <= k && k + 2 <= at ==> Read16(buffer[..], k) == old(Read16(buffer[..], k))
    ensures forall k :: 0 <= k && k + 4 <= at ==> Read32(buffer[..], k) == old(Read32(buffer[..], k))
  {
    for i := 0 to |name|
      invariant forall j :: 0 <= j < i ==> buffer[at + j] == name[j]
      invariant forall j :: 0 <= j < at ==> buffer[j] == old(buffer[j])
    {
      buffer[at + i] := name[i];
    }
  }

  method WriteLocalHeader(file: SourceFile, checksum: nat) returns (local: array<byte>)
    requires Fields(file) && checksum == Checksum(file.content)
    ensures fresh(local) && local[..] == LocalHeader(file)
  {
    LocalFields(file);
    hide Read16, Read32, Checksum, NameBytes, LocalHeader;
    var name := NameBytes(file.path);
    local := new byte[30 + |name|](i => 0);
    WriteUInt32LE(local, ZIP_LOCAL_FILE, 0);
    WriteUInt16LE(local, ZIP_VERSION, 4);
    WriteUInt16LE(local, ZIP_UTF8, 6);
    WriteUInt16LE(local, 0, 8);
    WriteUInt16LE(local, 0, 10);
    WriteUInt16LE(local, ZIP_DOS_DATE_1980_01_01, 12);
    WriteUInt32LE(local, checksum, 14);
    WriteUInt32LE(local, |file.content|, 18);
    WriteUInt32LE(local, |file.content|, 22);
    WriteUInt16LE(local, |name|, 26);
    WriteUInt16LE(local, 0, 28);
    CopyInto(name, local, 30);
    assert local[..][30..] == name;
    LocalHeaderUnique(local[..], LocalHeader(file), file);
  }

  method WriteCentralHeader(file: SourceFile, checksum: nat, offset: nat) returns (central: array<byte>)
    requires Fields(file) && checksum == Checksum(file.content) && offset < U32
    ensures fresh(central) && central[..] == CentralHeader(file, offset)
  {
    CentralFields(file, offset);
    hide Read16, Read32, Checksum, NameBytes, CentralHeader;
    var name := NameBytes(file.path);
    central := new byte[46 + |name|](i => 0);
    WriteCentralStart(central, checksum, |file.content|);
    WriteUInt16LE(central, |name|, 28);
    WriteUInt16LE(central, 0, 30);
    WriteUInt16LE(central, 0, 32);
    WriteUInt16LE(central, 0, 34);
    WriteUInt16LE(central, 0, 36);
    WriteUInt32LE(central, REGULAR_FILE, 38);
    WriteUInt32LE(central, offset, 42);
    CopyInto(name, central, 46);
    assert central[..][46..] == name;
    CentralHeaderUnique(central[..], CentralHeader(file, offset), file, offset);
  }

  /** The fields of a central record up to its two sizes. */
  method WriteCentralStart(central: array<byte>, checksum: nat, size: nat)
    requires checksum < U32 && size < U32 && central.Length >= 46
    modifies central
    ensures Read32(central[..], 0) == ZIP_CENTRAL_FILE && Read16(central[..], 4) == ZIP_UNIX_VERSION
    ensures Read16(central[..], 6) == ZIP_VERSION && Read16(central[..], 8) == ZIP_UTF8
    ensures Read16(central[..], 10) == 0 && Read16(central[..], 12) == 0
    ensures Read16(central[..], 14) == ZIP_DOS_DATE_1980_01_01 && Read32(central[..], 16) == checksum
    ensures Read32(central[..], 20) == size && Read32(central[..], 24) == size
  {
    hide Read16, Read32;
    WriteUInt32LE(central, ZIP_CENTRAL_FILE, 0);
    WriteUInt16LE(central, ZIP_UNIX_VERSION, 4);
    WriteUInt16LE(central, ZIP_VERSION, 6);
    WriteUInt16LE(central, ZIP_UTF8, 8);
    WriteUInt16LE(central, 0, 10);
    WriteUInt16LE(central, 0, 12);
    WriteUInt16LE(central, ZIP_DOS_DATE_1980_01_01, 14);
    WriteUInt32LE(central, checksum, 16);
    WriteUInt32LE(central, size, 20);
    WriteUInt32LE(central, size, 24);
  }

  method WriteEndRecord(count: nat, centralSize: nat, centralOffset: nat) returns (end: array<byte>)
    requires count < U16 && centralSize < U32 && centralOffset < U32
    ensures fresh(end) && end[..] == EndRecord(count, centralSize, centralOffset)
  {
    EndFields(count, centralSize, centralOffset);
    hide Read16, Read32, EndRecord;
    end := new byte[22](i => 0);
    WriteUInt32LE(end, ZIP_END, 0);
    WriteUInt16LE(end, 0, 4);
    WriteUInt16LE(end, 0, 6);
    WriteUInt16LE(end, count, 8);
    WriteUInt16LE(end, count, 10);
    WriteUInt32LE(end, centralSize, 12);
    WriteUInt32LE(end, centralOffset, 16);
    WriteUInt16LE(end, 0, 20);
    EndRecordUnique(end[..], EndRecord(count, centralSize, centralOffset), count, centralSize, centralOffset);
  }

  // ---------------------------------------------------------------- the writer

  /** `encodeHrpZip`. A number too large for its field makes a Buffer write throw. */
  method EncodeHrpZip(table: array<int>, sourceFiles: seq<SourceFile>, limits: Limits)
    returns (r: Outcome<seq<byte>>)
    requires IsCrcTable(Generator(), table[..])
    ensures r == Encoded(sourceFiles, limits)
  {
    hide *;
    var normalized := NormalizedFiles(sourceFiles, limits);
    if normalized.Rejected? {
      EncodedIs(sourceFiles, limits);
      return Rejected;
    }
    var files := normalized.value;
    NamesFit(sourceFiles, limits);
    var localChunks: seq<byte>, centralChunks: seq<byte>, offset: nat := [], [], 0;
    WritingStarts(files);
    for i := 0 to |files|
      invariant Written(files, i, localChunks, centralChunks, offset)
    {
      var file := files[i];
      var checksum := Crc32.Crc32(table, file.content);
      if |file.content| >= U32 || offset >= U32 {
        TooLarge(sourceFiles, limits, i, localChunks, centralChunks, offset);
        return Rejected;
      }
      FieldsIs(file);
      var local := WriteLocalHeader(file, checksum);
      var central := WriteCentralHeader(file, checksum, offset);
      WritingStep(files, i, localChunks, centralChunks, offset);
      localChunks := localChunks + local[..] + file.content;
      centralChunks := centralChunks + central[..];
      offset := offset + local.Length + |file.content|;
      assert local.Length == 30 + |file.path|;
    }
    var centralOffset, centralSize := offset, |centralChunks|;
    WritingEnds(sourceFiles, limits, localChunks, centralChunks, offset);
    if |files| >= U16 || centralSize >= U32 || centralOffset >= U32 { return Rejected; }
    var end := WriteEndRecord(|files|, centralSize, centralOffset);
    var archive := localChunks + centralChunks + end[..];
    if |archive| > limits.maxArchiveBytes { return Rejected; }
    r := Ok(archive);
  }

  /** The writer's loop invariant. */
  ghost predicate Written(files: seq<SourceFile>, i: nat, localChunks: seq<byte>, centralChunks: seq<byte>, offset: nat)
    requires i <= |files|
  {
    && (forall f :: f in files[..i] ==> Fields(f))
    && localChunks == Locals(files[..i])
    && offset == LocalOffset(files, i)
    && |centralChunks| == CentralOffset(files, i)
    && (Fits(files) ==> centralChunks == Centrals(files, i))
  }

  lemma EncodedIs(files: seq<SourceFile>, limits: Limits)
    ensures !Acceptable(files, limits) ==> Encoded(files, limits) == Rejected
    ensures !Fits(Canonical(files)) ==> Encoded(files, limits) == Rejected
    ensures Acceptable(files, limits) && Fits(Canonical(files)) ==>
              Encoded(files, limits) == if |Archive(Canonical(files))| <= limits.maxArchiveBytes
                                        then Ok(Archive(Canonical(files))) else Rejected
  {
    hide Acceptable, Fits, Canonical, Archive;
  }

  lemma NamesFit(files: seq<SourceFile>, limits: Limits)
    requires Acceptable(files, limits)
    ensures forall f :: f in Canonical(files) ==> |f.path| < U16
  {
    hide Acceptable, Canonical;
    CanonicalIsAcceptable(files, limits);
    AcceptableNames(Canonical(files), limits);
  }

  lemma FieldsIs(file: SourceFile)
    ensures Fields(file) <==> |file.content| < U32 && |file.path| < U16
  {
  }

  lemma WritingStarts(files: seq<SourceFile>)
    ensures Written(files, 0, [], [], 0)
  {
  }

  lemma WritingStep(files: seq<SourceFile>, i: nat, localChunks: seq<byte>, centralChunks: seq<byte>, offset: nat)
    requires i < |files| && Written(files, i, localChunks, centralChunks, offset)
    requires Fields(files[i]) && offset < U32
    ensures Written(files, i + 1, localChunks + LocalHeader(files[i]) + files[i].content,
                    centralChunks + CentralHeader(files[i], offset),
                    offset + 30 + |files[i].path| + |files[i].content|)
  {
    hide LocalHeader, CentralHeader, Fields, Fits;
    assert files[..i + 1] == files[..i] + [files[i]];
    assert files[..i + 1][..i] == files[..i];
  }

  lemma TooLarge(sourceFiles: seq<SourceFile>, limits: Limits, i: nat,
                 localChunks: seq<byte>, centralChunks: seq<byte>, offset: nat)
    requires i < |Canonical(sourceFiles)|
    requires Written(Canonical(sourceFiles), i, localChunks, centralChunks, offset)
    requires |Canonical(sourceFiles)[i].content| >= U32 || offset >= U32
    ensures Encoded(sourceFiles, limits) == Rejected
  {
    hide Acceptable, Canonical, Locals, Centrals, Archive;
    var files := Canonical(sourceFiles);
    assert files[i] in files;
    OffsetsGrow(files, i, |files|);
  }

  lemma WritingEnds(sourceFiles: seq<SourceFile>, limits: Limits,
                    localChunks: seq<byte>, centralChunks: seq<byte>, offset: nat)
    requires Acceptable(sourceFiles, limits)
    requires var files := Canonical(sourceFiles); Written(files, |files|, localChunks, centralChunks, offset)
    ensures |centralChunks| < U32 && offset < U32 && |Canonical(sourceFiles)| < U16 ==>
              var archive := localChunks + centralChunks + EndRecord(|Canonical(sourceFiles)|, |centralChunks|, offset);
              Encoded(sourceFiles, limits) == if |archive| <= limits.maxArchiveBytes then Ok(archive) else Rejected
    ensures !(|centralChunks| < U32 && offset < U32 && |Canonical(sourceFiles)| < U16) ==>
              Encoded(sourceFiles, limits) == Rejected
  {
    hide Acceptable, Canonical, Locals, Centrals, EndRecord, LocalOffset, CentralOffset;
    var files := Canonical(sourceFiles);
    assert files[..|files|] == files;
    if |centralChunks| < U32 && offset < U32 && |files| < U16 {
      assert Fits(files);
      ArchiveParts(files);
    }
  }

  // ---------------------------------------------------------------- the reader

  predicate InRange(buffer: seq<byte>, offset: nat, length: nat) {
    offset + length <= |buffer|
  }

  /** An end record whose comment reaches exactly to the end of the buffer. */
  predicate IsEnd(buffer: seq<byte>, offset: nat) {
    && InRange(buffer, offset, 22)
    && Read32(buffer, offset) == ZIP_END
    && offset + 22 + Read16(buffer, offset + 20) == |buffer|
  }

  const END_SEARCH := 65557

  /** The last end record within the range a comment can span. */
  method FindEndOfCentralDirectory(buffer: seq<byte>) returns (r: Outcome<nat>)
    ensures r.Ok? ==> IsEnd(buffer, r.value) && r.value + END_SEARCH >= |buffer|
                      && forall offset :: offset > r.value ==> !IsEnd(buffer, offset)
    ensures r.Rejected? ==> forall offset: nat :: offset + END_SEARCH >= |buffer| ==> !IsEnd(buffer, offset)
  {
    var first := if |buffer| <= END_SEARCH then 0 else |buffer| - END_SEARCH;
    var offset := |buffer| - 22;
    while offset >= first
      invariant offset <= |buffer| - 22
      invariant forall later: nat :: later > offset ==> !IsEnd(buffer, later)
    {
      if Read32(buffer, offset) == ZIP_END {
        var commentLength := Read16(buffer, offset + 20);
        if offset + 22 + commentLength == |buffer| { return Ok(offset); }
      }
      offset := offset - 1;
    }
    r := Rejected;
  }

  /**
   * `toString("utf8")` of a name. A byte outside ASCII yields some character outside ASCII, which no
   * archive path contains; U+FFFD stands for all of them.
   */
  function DecodeName(name: seq<byte>): (s: string)
    ensures |s| == |name|
  {
    seq(|name|, i requires 0 <= i < |name| => if name[i] < 128 then name[i] as char else '\U{FFFD}')
  }

  lemma DecodeNameBytes(path: string)
    requires IsHrpPath(path)
    ensures DecodeName(NameBytes(path)) == path
  {
    HrpPathIsAscii(path);
    forall i | 0 <= i < |path| ensures DecodeName(NameBytes(path))[i] == path[i] {
      assert NameBytes(path)[i] == path[i] as int;
    }
  }

  /** One central entry and what it points to. */
  datatype Entry = Entry(path: string, content: seq<byte>, range: Range, next: nat)

  /** A file of an archive, as the reader should find it. */
  ghost predicate EntryAt(archive: seq<byte>, cursor: nat, centralOffset: nat, file: SourceFile, local: nat) {
    && Fields(file) && local < U32 && IsHrpPath(file.path)
    && At(archive, cursor, CentralHeader(file, local))
    && At(archive, local, LocalHeader(file))
    && At(archive, local + 30 + |file.path|, file.content)
    && local + 30 + |file.path| + |file.content| <= centralOffset
  }

  lemma EntryReads(archive: seq<byte>, cursor: nat, centralOffset: nat, file: SourceFile, local: nat)
    requires EntryAt(archive, cursor, centralOffset, file, local)
    ensures cursor + 46 + |file.path| <= |archive| && local + 30 + |file.path| + |file.content| <= |archive|
    ensures Read32(archive, cursor) == ZIP_CENTRAL_FILE && Read16(archive, cursor + 4) == ZIP_UNIX_VERSION
    ensures Read16(archive, cursor + 8) == ZIP_UTF8 && Read16(archive, cursor + 10) == 0
    ensures Read32(archive, cursor + 16) == Checksum(file.content)
    ensures Read32(archive, cursor + 20) == |file.content| && Read32(archive, cursor + 24) == |file.content|
    ensures Read16(archive, cursor + 28) == |file.path|
    ensures Read16(archive, cursor + 30) == 0 && Read16(archive, cursor + 32) == 0
    ensures Read32(archive, cursor + 38) == REGULAR_FILE && Read32(archive, cursor + 42) == local
    ensures Read32(archive, local) == ZIP_LOCAL_FILE && Read16(archive, local + 6) == ZIP_UTF8
    ensures Read16(archive, local + 8) == 0 && Read32(archive, local + 14) == Checksum(file.content)
    ensures Read32(archive, local + 18) == |file.content| && Read32(archive, local + 22) == |file.content|
    ensures Read16(archive, local + 26) == |file.path| && Read16(archive, local + 28) == 0
    ensures DecodeName(archive[cursor + 46..cursor + 46 + |file.path|]) == file.path
    ensures DecodeName(archive[local + 30..local + 30 + |file.path|]) == file.path
    ensures archive[local + 30 + |file.path|..local + 30 + |file.path| + |file.content|] == file.content
    ensures NormalizeHrpPath(file.path) == Ok(file.path)
    ensures local + 30 + |file.path| + |file.content| <= centralOffset
  {
    EntryParts(archive, cursor, centralOffset, file, local);
    hide *;
    CentralReads(archive, cursor, file, local);
    LocalReads(archive, local, file);
    DecodeNameBytes(file.path);
  }

  lemma EntryParts(archive: seq<byte>, cursor: nat, centralOffset: nat, file: SourceFile, local: nat)
    requires EntryAt(archive, cursor, centralOffset, file, local)
    ensures Fields(file) && local < U32 && IsHrpPath(file.path) && NormalizeHrpPath(file.path) == Ok(file.path)
    ensures At(archive, cursor, CentralHeader(file, local)) && At(archive, local, LocalHeader(file))
    ensures local + 30 + |file.path| + |file.content| <= |archive|
    ensures archive[local + 30 + |file.path|..local + 30 + |file.path| + |file.content|] == file.content
    ensures local + 30 + |file.path| + |file.content| <= centralOffset
  {
    hide LocalHeader, CentralHeader, NormalizeHrpPath, IsHrpPath, Fields;
  }

  /** Unix entries with a mode must be regular files: the type bits of the mode, 0o170000, must be 0o100000. */
  predicate MayBeRegular(madeBy: nat, externalAttributes: nat) {
    var platform := madeBy / 256;
    var mode := externalAttributes / 65536;
    !(platform == 3 && mode != 0 && mode / 4096 != 8)
  }

  /**
   * What an accepted entry is: the headers at its two places agree with each other and with its path and
   * content in every field the reader looks at, and its record lies before the directory.
   */
  ghost predicate EntryChecked(archive: seq<byte>, cursor: nat, centralOffset: nat, e: Entry) {
    var local, name, size := e.range.start, |e.path|, |e.content|;
    && IsHrpPath(e.path)
    && e.next == cursor + 46 + name <= |archive| && e.range.end == local + 30 + name + size <= centralOffset
    && local + 30 + name + size <= |archive|
    && Read32(archive, cursor) == ZIP_CENTRAL_FILE && Read32(archive, local) == ZIP_LOCAL_FILE
    && Read16(archive, cursor + 8) == Read16(archive, local + 6) == ZIP_UTF8
    && Read16(archive, cursor + 10) == Read16(archive, local + 8) == 0
    && Read32(archive, cursor + 16) == Read32(archive, local + 14) == Checksum(e.content)
    && Read32(archive, cursor + 20) == Read32(archive, cursor + 24) == size
    && Read32(archive, local + 18) == Read32(archive, local + 22) == size
    && Read16(archive, cursor + 28) == Read16(archive, local + 26) == name
    && Read16(archive, cursor + 30) == Read16(archive, cursor + 32) == Read16(archive, local + 28) == 0
    && Read32(archive, cursor + 42) == local
    && MayBeRegular(Read16(archive, cursor + 4), Read32(archive, cursor + 38))
    && DecodeName(archive[cursor + 46..cursor + 46 + name]) == e.path
    && DecodeName(archive[local + 30..local + 30 + name]) == e.path
    && archive[local + 30 + name..local + 30 + name + size] == e.content
  }

  /** The body of the reader's loop over central entries. */
  method ReadEntry(table: array<int>, archive: seq<byte>, cursor: nat, centralOffset: nat, totalBytes: nat,
                   limits: Limits, ghost file: SourceFile, ghost local: nat)
    returns (r: Outcome<Entry>)
    requires IsCrcTable(Generator(), table[..])
    ensures r.Ok? ==> EntryChecked(archive, cursor, centralOffset, r.value)
                      && |r.value.content| <= limits.maxFileBytes
                      && totalBytes + |r.value.content| <= limits.maxUncompressedBytes
    ensures EntryAt(archive, cursor, centralOffset, file, local)
            && |file.content| <= limits.maxFileBytes
            && totalBytes + |file.content| <= limits.maxUncompressedBytes
        ==> r == Ok(Entry(file.path, file.content,
                          Range(local, local + 30 + |file.path| + |file.content|), cursor + 46 + |file.path|))
  {
    ghost var expected := EntryAt(archive, cursor, centralOffset, file, local)
                          && |file.content| <= limits.maxFileBytes
                          && totalBytes + |file.content| <= limits.maxUncompressedBytes;
    hide Read16, Read32, Checksum, LocalHeader, CentralHeader, NormalizeHrpPath, IsHrpPath, DecodeName, EntryAt,
         IsCrcTable, Generator;
    if expected { EntryReads(archive, cursor, centralOffset, file, local); }
    assert MayBeRegular(ZIP_UNIX_VERSION, REGULAR_FILE);
    hide MayBeRegular;
    if !InRange(archive, cursor, 46) { return Rejected; }
    if Read32(archive, cursor) != ZIP_CENTRAL_FILE { return Rejected; }
    var madeBy := Read16(archive, cursor + 4);
    var flags := Read16(archive, cursor + 8);
    var compression := Read16(archive, cursor + 10);
    var checksum := Read32(archive, cursor + 16);
    var compressedSize := Read32(archive, cursor + 20);
    var uncompressedSize := Read32(archive, cursor + 24);
    var nameLength := Read16(archive, cursor + 28);
    var extraLength := Read16(archive, cursor + 30);
    var commentLength := Read16(archive, cursor + 32);
    var externalAttributes := Read32(archive, cursor + 38);
    var localOffset := Read32(archive, cursor + 42);
    if !InRange(archive, cursor + 46, nameLength + extraLength + commentLength) { return Rejected; }
    if flags != ZIP_UTF8 || compression != 0 || compressedSize != uncompressedSize || extraLength != 0 || commentLength != 0 {
      return Rejected;
    }
    if !MayBeRegular(madeBy, externalAttributes) { return Rejected; }
    var filePath := NormalizeHrpPath(DecodeName(archive[cursor + 46..cursor + 46 + nameLength]));
    if filePath.Rejected? { return Rejected; }
    if uncompressedSize > limits.maxFileBytes { return Rejected; }
    if totalBytes + uncompressedSize > limits.maxUncompressedBytes { return Rejected; }

    if !InRange(archive, localOffset, 30) { return Rejected; }
    if Read32(archive, localOffset) != ZIP_LOCAL_FILE { return Rejected; }
    var localFlags := Read16(archive, localOffset + 6);
    var localCompression := Read16(archive, localOffset + 8);
    var localChecksum := Read32(archive, localOffset + 14);
    var localCompressed := Read32(archive, localOffset + 18);
    var localUncompressed := Read32(archive, localOffset + 22);
    var localNameLength := Read16(archive, localOffset + 26);
    var localExtraLength := Read16(archive, localOffset + 28);
    if !InRange(archive, localOffset + 30, localNameLength + localExtraLength) { return Rejected; }
    var localName := DecodeName(archive[localOffset + 30..localOffset + 30 + localNameLength]);
    if localFlags != flags || localCompression != compression || localChecksum != checksum
       || localCompressed != compressedSize || localUncompressed != uncompressedSize
       || localExtraLength != 0 || localName != filePath.value
    {
      return Rejected;
    }
    var contentOffset := localOffset + 30 + localNameLength;
    if !InRange(archive, contentOffset, compressedSize) { return Rejected; }
    if contentOffset + compressedSize > centralOffset { return Rejected; }
    var content := archive[contentOffset..contentOffset + compressedSize];
    var actual := Crc32.Crc32(table, content);
    if actual != checksum { return Rejected; }
    r := Ok(Entry(filePath.value, content, Range(localOffset, contentOffset + compressedSize),
                  cursor + 46 + nameLength + extraLength + commentLength));
  }

  // ---------------------------------------------------------------- the reader's bookkeeping

  /** `Map.set`, on the entries in insertion order. */
  function MapSet(entries: seq<SourceFile>, path: string, content: seq<byte>): (r: seq<SourceFile>) {
    if entries == [] then [SourceFile(path, content)]
    else if entries[0].path == path then [SourceFile(path, content)] + entries[1..]
    else [entries[0]] + MapSet(entries[1..], path, content)
  }

  lemma {:induction false} MapSetNew(entries: seq<SourceFile>, path: string, content: seq<byte>)
    requires forall f :: f in entries ==> f.path != path
    ensures MapSet(entries, path, content) == entries + [SourceFile(path, content)]
  {
    if entries != [] {
      assert entries[0] in entries;
      MapSetNew(entries[1..], path, content);
    }
  }

  /** The ranges of the first n local records. */
  function RangesOf(files: seq<SourceFile>, n: nat): (r: seq<Range>)
    requires n <= |files|
    ensures |r| == n
  {
    seq(n, i requires 0 <= i < n => Range(LocalOffset(files, i), LocalOffset(files, i + 1)))
  }

  lemma {:induction false} RangesConsecutive(files: seq<SourceFile>, i: nat)
    requires i <= |files|
    ensures Consecutive(RangesOf(files, |files|)[i..], LocalOffset(files, i), LocalOffset(files, |files|))
    decreases |files| - i
  {
    var ranges := RangesOf(files, |files|);
    if i < |files| {
      RangesConsecutive(files, i + 1);
      assert ranges[i..][1..] == ranges[i + 1..];
      OffsetsGrow(files, i, i + 1);
    }
  }

  /** The local records of an archive follow one another up to its directory. */
  lemma RangesCover(files: seq<SourceFile>)
    ensures ExactCover(RangesOf(files, |files|), 0, LocalOffset(files, |files|))
  {
    var ranges := RangesOf(files, |files|);
    RangesConsecutive(files, 0);
    assert ranges[0..] == ranges;
    hide RangesOf, ExactCover;
    ConsecutiveCovers(ranges, 0, LocalOffset(files, |files|));
  }

  lemma {:induction false} TotalConcat(a: seq<SourceFile>, b: seq<SourceFile>)
    ensures TotalBytes(a + b) == TotalBytes(a) + TotalBytes(b)
  {
    if a == [] {
      assert a + b == b;
    } else {
      TotalConcat(a[1..], b);
      assert (a + b)[1..] == a[1..] + b;
    }
  }

  /** What the reader's loop over central entries has gathered. */
  datatype Progress = Progress(cursor: nat, totalBytes: nat, result: seq<SourceFile>,
                               archivePaths: seq<string>, localRanges: seq<Range>)

  function Advance(p: Progress, entry: Entry): Progress {
    Progress(entry.next, p.totalBytes + |entry.content|, MapSet(p.result, entry.path, entry.content),
             p.archivePaths + [entry.path], p.localRanges + [entry.range])
  }

  /** What it should have gathered after i entries of the archive of a file list. */
  ghost function ProgressOf(files: seq<SourceFile>, i: nat): Progress
    requires i <= |files|
  {
    Progress(LocalOffset(files, |files|) + CentralOffset(files, i), TotalBytes(files[..i]), files[..i],
             Paths(files[..i]), RangesOf(files, i))
  }

  function EntryOf(files: seq<SourceFile>, i: nat): Entry
    requires i < |files|
  {
    var file, local := files[i], LocalOffset(files, i);
    Entry(file.path, file.content, Range(local, local + 30 + |file.path| + |file.content|),
          LocalOffset(files, |files|) + CentralOffset(files, i) + 46 + |file.path|)
  }

  /** The next entry of an archive passes every test of the loop body, and the reader advances. */
  lemma NextEntry(files: seq<SourceFile>, i: nat, limits: Limits)
    requires Fits(files) && Acceptable(files, limits) && i < |files|
    ensures EntryAt(Archive(files), ProgressOf(files, i).cursor, LocalOffset(files, |files|), files[i], LocalOffset(files, i))
    ensures |files[i].content| <= limits.maxFileBytes
    ensures ProgressOf(files, i).totalBytes + |files[i].content| <= limits.maxUncompressedBytes
    ensures EntryOf(files, i) == Entry(files[i].path, files[i].content,
              Range(LocalOffset(files, i), LocalOffset(files, i) + 30 + |files[i].path| + |files[i].content|),
              ProgressOf(files, i).cursor + 46 + |files[i].path|)
    ensures Advance(ProgressOf(files, i), EntryOf(files, i)) == ProgressOf(files, i + 1)
  {
    hide Fits, Archive, EntryAt, LocalOffset, CentralOffset, TotalBytes, Paths, RangesOf, MapSet, NoCollisions, IsHrpPath;
    assert files[i] in files;
    NextTotals(files, i);
    NextEntryAt(files, i, limits);
    NotYet(files, i, limits);
    MapSetNew(files[..i], files[i].path, files[i].content);
    OffsetStep(files, i);
    NextLists(files, i);
  }

  lemma NextLists(files: seq<SourceFile>, i: nat)
    requires i < |files|
    ensures files[..i + 1] == files[..i] + [files[i]]
    ensures Paths(files[..i + 1]) == Paths(files[..i]) + [files[i].path]
    ensures RangesOf(files, i + 1) == RangesOf(files, i) + [Range(LocalOffset(files, i), LocalOffset(files, i + 1))]
  {
    hide LocalOffset;
  }

  lemma NextEntryAt(files: seq<SourceFile>, i: nat, limits: Limits)
    requires Fits(files) && Acceptable(files, limits) && i < |files|
    ensures EntryAt(Archive(files), LocalOffset(files, |files|) + CentralOffset(files, i), LocalOffset(files, |files|),
                    files[i], LocalOffset(files, i))
  {
    hide Fits, Fields, Archive, LocalHeader, CentralHeader, IsHrpPath, LocalOffset, CentralOffset, At;
    LocalLayout(files, i);
    CentralLayout(files, i);
    OffsetStep(files, i);
  }

  lemma NextTotals(files: seq<SourceFile>, i: nat)
    requires i < |files|
    ensures TotalBytes(files[..i + 1]) == TotalBytes(files[..i]) + |files[i].content| <= TotalBytes(files)
  {
    TotalConcat(files[..i], [files[i]]);
    TotalConcat(files[..i + 1], files[i + 1..]);
    assert [files[i]][1..] == [];
    assert files[..i + 1] == files[..i] + [files[i]] && files == files[..i + 1] + files[i + 1..];
  }

  lemma NotYet(files: seq<SourceFile>, i: nat, limits: Limits)
    requires Acceptable(files, limits) && i < |files|
    ensures forall f :: f in files[..i] ==> f.path != files[i].path
  {
    hide IsHrpPath, TotalBytes, FoldCase, IsProperSegmentPrefix;
    forall f | f in files[..i] ensures f.path != files[i].path {
      var k :| 0 <= k < i && files[..i][k] == f;
      assert FoldCase(Paths(files)[k]) != FoldCase(Paths(files)[i]);
    }
  }

  /** What is known when the archive was written from some file list. */
  ghost predicate IsArchiveOf(archive: seq<byte>, files: seq<SourceFile>, limits: Limits) {
    && Readable(limits)
    && Fits(files) && Acceptable(files, limits) && archive == Archive(files)
    && Encoded(files, limits) == Ok(archive)
  }

  lemma Expectation(archive: seq<byte>, limits: Limits) returns (expected: bool, files: seq<SourceFile>)
    ensures expected ==> IsArchiveOf(archive, files, limits)
    ensures Readable(limits) && !expected ==> Decoded(archive, limits) == Rejected
  {
    hide Acceptable, Canonical, Fits, Archive, FileMap;
    expected, files := false, [];
    if Readable(limits) && exists source :: Encoded(source, limits) == Ok(archive) {
      var source :| Encoded(source, limits) == Ok(archive);
      CanonicalIsAcceptable(source, limits);
      CanonicalIdempotent(source);
      expected, files := true, Canonical(source);
    }
  }

  /** The end record of an archive is found, and passes the tests on it. */
  lemma ExpectedEnd(archive: seq<byte>, files: seq<SourceFile>, limits: Limits)
    requires IsArchiveOf(archive, files, limits)
    ensures 22 <= |archive| <= limits.maxArchiveBytes
    ensures var e := |archive| - 22;
      && IsEnd(archive, e) && e + END_SEARCH >= |archive| && Read16(archive, e + 4) == 0 && Read16(archive, e + 6) == 0
      && Read16(archive, e + 8) == Read16(archive, e + 10) == |files|
      && Read32(archive, e + 12) == CentralOffset(files, |files|)
      && Read32(archive, e + 16) == LocalOffset(files, |files|)
      && LocalOffset(files, |files|) + CentralOffset(files, |files|) == e
    ensures 1 <= |files| <= limits.maxEntries < 0xffff
    ensures CentralOffset(files, |files|) < 0xffff_ffff && LocalOffset(files, |files|) < 0xffff_ffff
  {
    hide Fits, Archive, Read16, Read32, NoCollisions, IsHrpPath, TotalBytes, LocalOffset, CentralOffset;
    ArchiveLayout(files);
    var e := |archive| - 22;
    var record := archive[e..];
    assert At(archive, e, record);
    ReadAt(archive, e, record, 0);
    ReadAt(archive, e, record, 4);
    ReadAt(archive, e, record, 6);
    ReadAt(archive, e, record, 8);
    ReadAt(archive, e, record, 10);
    ReadAt(archive, e, record, 12);
    ReadAt(archive, e, record, 16);
    ReadAt(archive, e, record, 20);
  }

  lemma IsEndBounds(archive: seq<byte>, offset: nat)
    requires IsEnd(archive, offset)
    ensures offset + 22 <= |archive|
  {
  }

  lemma ReadingStarts(files: seq<SourceFile>)
    ensures ProgressOf(files, 0) == Progress(LocalOffset(files, |files|), 0, [], [], [])
  {
    hide LocalOffset;
  }

  /** Everything after the loop passes too. */
  lemma ReadingEnds(archive: seq<byte>, files: seq<SourceFile>, limits: Limits)
    requires IsArchiveOf(archive, files, limits)
    ensures var p := ProgressOf(files, |files|);
      && p.cursor == LocalOffset(files, |files|) + CentralOffset(files, |files|)
      && (forall i :: 0 <= i < |p.archivePaths| ==> IsHrpPath(p.archivePaths[i])) && NoCollisions(p.archivePaths)
      && ExactCover(p.localRanges, 0, LocalOffset(files, |files|))
      && Encoded(p.result, limits) == Ok(archive)
  {
    RangesCover(files);
    hide ExactCover;
    hide Fits, Archive, NoCollisions, IsHrpPath, TotalBytes, LocalOffset, CentralOffset, RangesOf, Encoded;
    assert files[..|files|] == files;
    forall i | 0 <= i < |files| ensures IsHrpPath(Paths(files)[i]) { assert files[i] in files; }
  }

  lemma IsArchiveOfIs(archive: seq<byte>, files: seq<SourceFile>, limits: Limits)
    requires IsArchiveOf(archive, files, limits)
    ensures Fits(files) && Acceptable(files, limits) && archive == Archive(files)
  {
    hide Fits, Archive, Acceptable;
  }

  /** `decodeHrpZip`. */
  method DecodeHrpZip(table: array<int>, archive: seq<byte>, limits: Limits)
    returns (r: Outcome<map<string, seq<byte>>>)
    requires IsCrcTable(Generator(), table[..])
    ensures r.Ok? ==> r == Decoded(archive, limits)
    ensures Readable(limits) ==> r == Decoded(archive, limits)
  {
    hide *;
    // The files the archive was written from, if it was.
    ghost var expected, files := Expectation(archive, limits);
    if expected {
      ExpectedEnd(archive, files, limits);
      IsArchiveOfIs(archive, files, limits);
      ReadingStarts(files);
      ReadingEnds(archive, files, limits);
    }
    if |archive| == 0 || |archive| > limits.maxArchiveBytes { return Rejected; }
    var end := FindEndOfCentralDirectory(archive);
    if end.Rejected? { return Rejected; }
    var endOffset := end.value;
    IsEndBounds(archive, endOffset);
    if Read16(archive, endOffset + 4) != 0 || Read16(archive, endOffset + 6) != 0 { return Rejected; }
    var diskEntries := Read16(archive, endOffset + 8);
    var totalEntries := Read16(archive, endOffset + 10);
    var centralSize := Read32(archive, endOffset + 12);
    var centralOffset := Read32(archive, endOffset + 16);
    if diskEntries != totalEntries || totalEntries < 1 || totalEntries > limits.maxEntries
       || totalEntries == 0xffff || centralSize == 0xffffffff || centralOffset == 0xffffffff
    {
      return Rejected;
    }
    if centralOffset + centralSize > |archive| { return Rejected; }
    if centralOffset + centralSize != endOffset { return Rejected; }

    var p := Progress(centralOffset, 0, [], [], []);
    for index := 0 to totalEntries
      invariant expected ==> p == ProgressOf(files, index)
    {
      ghost var file, local := SourceFile("", []), 0;
      if expected {
        file, local := files[index], LocalOffset(files, index);
        NextEntry(files, index, limits);
      }
      var entry := ReadEntry(table, archive, p.cursor, centralOffset, p.totalBytes, limits, file, local);
      if entry.Rejected? { return Rejected; }
      p := Advance(p, entry.value);
    }
    if p.cursor != endOffset { return Rejected; }
    var clear := AssertNoPortablePathCollisions(p.archivePaths);
    if !clear { return Rejected; }
    var covered := CoversExactly(p.localRanges, centralOffset);
    if !covered { return Rejected; }
    var canonical := EncodeHrpZip(table, p.result, limits);
    if canonical != Ok(archive) { return Rejected; }
    r := Ok(FileMap(p.result));
    DecodedEncoded(p.result, limits, archive);
  }

  /** The default limits are among those for which reading and writing are exact inverses. */
  lemma DefaultsReadable()
    ensures Readable(DEFAULT_LIMITS)
  {
  }
}
