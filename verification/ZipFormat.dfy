/**
 * The byte layout of the archive: stored entries only, in the form of sections 4.3.7 (local file
 * header), 4.3.12 (central directory header) and 4.3.16 (end of central directory record) of PKWARE
 * APPNOTE.TXT.
 */
module ZipFormat {
  import opened Bytes
  import opened Crc32
  import opened HrpFiles

  const ZIP_LOCAL_FILE := 0x04034b50
  const ZIP_CENTRAL_FILE := 0x02014b50
  const ZIP_END := 0x06054b50
  const ZIP_UTF8 := 0x0800
  const ZIP_VERSION := 20
  const ZIP_UNIX_VERSION := 3 * 256 + 20
  const ZIP_DOS_DATE_1980_01_01 := 0x0021
  /** A regular file with mode 0644, in the upper half of the external attributes. */
  const REGULAR_FILE := 0x81a4 * 0x1_0000

  /** The UTF-8 bytes of a name; only ASCII names are ever stored. */
  function NameBytes(path: string): (name: seq<byte>)
    ensures |name| == |path|
  {
    seq(|path|, i requires 0 <= i < |path| => (path[i] as int) % 256)
  }

  // Groups of consecutive fields.

  function Head(signature: nat, x: nat, y: nat): (r: seq<byte>)
    requires signature < U32 && x < U16 && y < U16
    ensures |r| == 8 && Read32(r, 0) == signature && Read16(r, 4) == x && Read16(r, 6) == y
  {
    var a, b, c := LE32(signature), LE16(x), LE16(y);
    [a[0], a[1], a[2], a[3], b[0], b[1], c[0], c[1]]
  }

  function Shorts(x: nat, y: nat): (r: seq<byte>)
    requires x < U16 && y < U16
    ensures |r| == 4 && Read16(r, 0) == x && Read16(r, 2) == y
  {
    var a, b := LE16(x), LE16(y);
    [a[0], a[1], b[0], b[1]]
  }

  function Longs(x: nat, y: nat): (r: seq<byte>)
    requires x < U32 && y < U32
    ensures |r| == 8 && Read32(r, 0) == x && Read32(r, 4) == y
  {
    var a, b := LE32(x), LE32(y);
    [a[0], a[1], a[2], a[3], b[0], b[1], b[2], b[3]]
  }

  /** The file's size and the length of its name fit their fields. */
  predicate Fields(file: SourceFile) {
    |file.content| < U32 && |file.path| < U16
  }

  function LocalHeader(file: SourceFile): (h: seq<byte>)
    requires Fields(file)
    ensures |h| == 30 + |file.path|
  {
    Head(ZIP_LOCAL_FILE, ZIP_VERSION, ZIP_UTF8)
    + Shorts(0, 0) + LE16(ZIP_DOS_DATE_1980_01_01)
    + LE32(Checksum(file.content)) + Longs(|file.content|, |file.content|)
    + Shorts(|file.path|, 0) + NameBytes(file.path)
  }

  function CentralHeader(file: SourceFile, offset: nat): (h: seq<byte>)
    requires Fields(file) && offset < U32
    ensures |h| == 46 + |file.path|
  {
    Head(ZIP_CENTRAL_FILE, ZIP_UNIX_VERSION, ZIP_VERSION)
    + Shorts(ZIP_UTF8, 0) + Shorts(0, ZIP_DOS_DATE_1980_01_01)
    + LE32(Checksum(file.content)) + Longs(|file.content|, |file.content|)
    + Shorts(|file.path|, 0) + Shorts(0, 0) + LE16(0)
    + Longs(REGULAR_FILE, offset) + NameBytes(file.path)
  }

  function EndRecord(count: nat, centralSize: nat, centralOffset: nat): (e: seq<byte>)
    requires count < U16 && centralSize < U32 && centralOffset < U32
    ensures |e| == 22
  {
    Head(ZIP_END, 0, 0) + Shorts(count, count) + Longs(centralSize, centralOffset) + LE16(0)
  }

  /** The fixed bytes of a local header: signature, version 2.0, UTF-8 names, stored, midnight, 1 January 1980. */
  lemma LocalBytes(file: SourceFile)
    requires Fields(file)
    ensures LocalHeader(file)[..14] == [0x50, 0x4b, 3, 4, 20, 0, 0, 8, 0, 0, 0, 0, 0x21, 0]
  {
  }

  /** Those of a central header: made on Unix, and a regular file with mode 0644. */
  lemma CentralBytes(file: SourceFile, offset: nat)
    requires Fields(file) && offset < U32
    ensures CentralHeader(file, offset)[..16] == [0x50, 0x4b, 1, 2, 20, 3, 20, 0, 0, 8, 0, 0, 0, 0, 0x21, 0]
    ensures CentralHeader(file, offset)[38..42] == [0, 0, 0xa4, 0x81]
  {
    hide Checksum, NameBytes;
  }

  lemma EndBytes(count: nat, centralSize: nat, centralOffset: nat)
    requires count < U16 && centralSize < U32 && centralOffset < U32
    ensures EndRecord(count, centralSize, centralOffset)[..8] == [0x50, 0x4b, 5, 6, 0, 0, 0, 0]
  {
  }

  // ---------------------------------------------------------------- the same records, field by field

  ghost predicate IsLocalHeader(h: seq<byte>, file: SourceFile) {
    && |h| == 30 + |file.path|
    && Read32(h, 0) == ZIP_LOCAL_FILE && Read16(h, 4) == ZIP_VERSION && Read16(h, 6) == ZIP_UTF8
    && Read16(h, 8) == 0 && Read16(h, 10) == 0 && Read16(h, 12) == ZIP_DOS_DATE_1980_01_01
    && Read32(h, 14) == Checksum(file.content)
    && Read32(h, 18) == |file.content| && Read32(h, 22) == |file.content|
    && Read16(h, 26) == |file.path| && Read16(h, 28) == 0
    && h[30..] == NameBytes(file.path)
  }

  ghost predicate IsCentralHeader(h: seq<byte>, file: SourceFile, offset: nat) {
    && |h| == 46 + |file.path|
    && Read32(h, 0) == ZIP_CENTRAL_FILE && Read16(h, 4) == ZIP_UNIX_VERSION && Read16(h, 6) == ZIP_VERSION
    && Read16(h, 8) == ZIP_UTF8 && Read16(h, 10) == 0 && Read16(h, 12) == 0
    && Read16(h, 14) == ZIP_DOS_DATE_1980_01_01 && Read32(h, 16) == Checksum(file.content)
    && Read32(h, 20) == |file.content| && Read32(h, 24) == |file.content|
    && Read16(h, 28) == |file.path| && Read16(h, 30) == 0 && Read16(h, 32) == 0
    && Read16(h, 34) == 0 && Read16(h, 36) == 0
    && Read32(h, 38) == REGULAR_FILE && Read32(h, 42) == offset
    && h[46..] == NameBytes(file.path)
  }

  ghost predicate IsEndRecord(e: seq<byte>, count: nat, centralSize: nat, centralOffset: nat) {
    && |e| == 22
    && Read32(e, 0) == ZIP_END && Read16(e, 4) == 0 && Read16(e, 6) == 0
    && Read16(e, 8) == count && Read16(e, 10) == count
    && Read32(e, 12) == centralSize && Read32(e, 16) == centralOffset
    && Read16(e, 20) == 0
  }

  /** Reading inside one part of a concatenation. */
  lemma ReadPart(before: seq<byte>, part: seq<byte>, after: seq<byte>, k: nat)
    ensures k + 2 <= |part| ==> Read16(before + part + after, |before| + k) == Read16(part, k)
    ensures k + 4 <= |part| ==> Read32(before + part + after, |before| + k) == Read32(part, k)
  {
    var s := before + part + after;
    assert forall j :: 0 <= j < |part| ==> s[|before| + j] == part[j];
  }

  lemma LocalFields(file: SourceFile)
    requires Fields(file)
    ensures IsLocalHeader(LocalHeader(file), file)
  {
    hide Checksum, LE16, LE32, Read16, Read32, Head, Shorts, Longs, NameBytes;
    var h, size := LocalHeader(file), |file.content|;
    var a, b, c := Head(ZIP_LOCAL_FILE, ZIP_VERSION, ZIP_UTF8), Shorts(0, 0), LE16(ZIP_DOS_DATE_1980_01_01);
    var d, e, f, name := LE32(Checksum(file.content)), Longs(size, size), Shorts(|file.path|, 0), NameBytes(file.path);
    assert h == a + b + c + d + e + f + name;
    ReadPart([], a, h[8..], 0);
    ReadPart([], a, h[8..], 4);
    ReadPart([], a, h[8..], 6);
    assert h == [] + a + h[8..];
    ReadPart(h[..8], b, h[12..], 0);
    ReadPart(h[..8], b, h[12..], 2);
    assert h == h[..8] + b + h[12..];
    ReadPart(h[..12], c, h[14..], 0);
    assert h == h[..12] + c + h[14..];
    ReadPart(h[..14], d, h[18..], 0);
    assert h == h[..14] + d + h[18..];
    ReadPart(h[..18], e, h[26..], 0);
    ReadPart(h[..18], e, h[26..], 4);
    assert h == h[..18] + e + h[26..];
    ReadPart(h[..26], f, h[30..], 0);
    ReadPart(h[..26], f, h[30..], 2);
    assert h == h[..26] + f + h[30..];
  }

  lemma CentralFields(file: SourceFile, offset: nat)
    requires Fields(file) && offset < U32
    ensures IsCentralHeader(CentralHeader(file, offset), file, offset)
  {
    hide Checksum, LE16, LE32, Read16, Read32, Head, Shorts, Longs, NameBytes;
    var h, size := CentralHeader(file, offset), |file.content|;
    var a, b, c := Head(ZIP_CENTRAL_FILE, ZIP_UNIX_VERSION, ZIP_VERSION), Shorts(ZIP_UTF8, 0), Shorts(0, ZIP_DOS_DATE_1980_01_01);
    var d, e, f, g := LE32(Checksum(file.content)), Longs(size, size), Shorts(|file.path|, 0), Shorts(0, 0);
    var i, j := LE16(0), Longs(REGULAR_FILE, offset);
    assert h == [] + a + h[8..];
    ReadPart([], a, h[8..], 0);
    ReadPart([], a, h[8..], 4);
    ReadPart([], a, h[8..], 6);
    assert h == h[..8] + b + h[12..];
    ReadPart(h[..8], b, h[12..], 0);
    ReadPart(h[..8], b, h[12..], 2);
    assert h == h[..12] + c + h[16..];
    ReadPart(h[..12], c, h[16..], 0);
    ReadPart(h[..12], c, h[16..], 2);
    assert h == h[..16] + d + h[20..];
    ReadPart(h[..16], d, h[20..], 0);
    assert h == h[..20] + e + h[28..];
    ReadPart(h[..20], e, h[28..], 0);
    ReadPart(h[..20], e, h[28..], 4);
    assert h == h[..28] + f + h[32..];
    ReadPart(h[..28], f, h[32..], 0);
    ReadPart(h[..28], f, h[32..], 2);
    assert h == h[..32] + g + h[36..];
    ReadPart(h[..32], g, h[36..], 0);
    ReadPart(h[..32], g, h[36..], 2);
    assert h == h[..36] + i + h[38..];
    ReadPart(h[..36], i, h[38..], 0);
    assert h == h[..38] + j + h[46..];
    ReadPart(h[..38], j, h[46..], 0);
    ReadPart(h[..38], j, h[46..], 4);
  }

  lemma EndFields(count: nat, centralSize: nat, centralOffset: nat)
    requires count < U16 && centralSize < U32 && centralOffset < U32
    ensures IsEndRecord(EndRecord(count, centralSize, centralOffset), count, centralSize, centralOffset)
  {
    hide LE16, LE32, Read16, Read32, Head, Shorts, Longs;
    var h := EndRecord(count, centralSize, centralOffset);
    var a, b, c, d := Head(ZIP_END, 0, 0), Shorts(count, count), Longs(centralSize, centralOffset), LE16(0);
    assert h == [] + a + h[8..];
    ReadPart([], a, h[8..], 0);
    ReadPart([], a, h[8..], 4);
    ReadPart([], a, h[8..], 6);
    assert h == h[..8] + b + h[12..];
    ReadPart(h[..8], b, h[12..], 0);
    ReadPart(h[..8], b, h[12..], 2);
    assert h == h[..12] + c + h[20..];
    ReadPart(h[..12], c, h[20..], 0);
    ReadPart(h[..12], c, h[20..], 4);
    assert h == h[..20] + d + [];
    ReadPart(h[..20], d, [], 0);
  }

  lemma SameShort(a: seq<byte>, b: seq<byte>, i: nat)
    requires i + 2 <= |a| && i + 2 <= |b| && Read16(a, i) == Read16(b, i)
    ensures a[i] == b[i] && a[i + 1] == b[i + 1]
  {
  }

  lemma SameLong(a: seq<byte>, b: seq<byte>, i: nat)
    requires i + 4 <= |a| && i + 4 <= |b| && Read32(a, i) == Read32(b, i)
    ensures a[i] == b[i] && a[i + 1] == b[i + 1] && a[i + 2] == b[i + 2] && a[i + 3] == b[i + 3]
  {
    var p, q, r, s := a[i] as int, a[i + 1] as int, a[i + 2] as int, a[i + 3] as int;
    var t, u, v, w := b[i] as int, b[i + 1] as int, b[i + 2] as int, b[i + 3] as int;
    Radix(p, q + 256 * (r + 256 * s), t, u + 256 * (v + 256 * w));
    Radix(q, r + 256 * s, u, v + 256 * w);
    Radix(r, s, v, w);
  }

  lemma Radix(a: int, x: int, b: int, y: int)
    requires 0 <= a < 256 && 0 <= b < 256 && a + 256 * x == b + 256 * y
    ensures a == b && x == y
  {
  }

  lemma LocalHeaderUnique(g: seq<byte>, h: seq<byte>, file: SourceFile)
    requires IsLocalHeader(g, file) && IsLocalHeader(h, file)
    ensures g == h
  {
    hide Checksum, NameBytes, Read16, Read32;
    SameLong(g, h, 0);
    SameShort(g, h, 4);
    SameShort(g, h, 6);
    SameShort(g, h, 8);
    SameShort(g, h, 10);
    SameShort(g, h, 12);
    SameLong(g, h, 14);
    SameLong(g, h, 18);
    SameLong(g, h, 22);
    SameShort(g, h, 26);
    SameShort(g, h, 28);
    assert g[..30] == h[..30];
    assert g == g[..30] + g[30..] && h == h[..30] + h[30..];
  }

  lemma CentralHeaderUnique(g: seq<byte>, h: seq<byte>, file: SourceFile, offset: nat)
    requires IsCentralHeader(g, file, offset) && IsCentralHeader(h, file, offset)
    ensures g == h
  {
    hide Checksum, NameBytes, Read16, Read32;
    SameLong(g, h, 0);
    SameShort(g, h, 4);
    SameShort(g, h, 6);
    SameShort(g, h, 8);
    SameShort(g, h, 10);
    SameShort(g, h, 12);
    SameShort(g, h, 14);
    SameLong(g, h, 16);
    SameLong(g, h, 20);
    SameLong(g, h, 24);
    SameShort(g, h, 28);
    SameShort(g, h, 30);
    SameShort(g, h, 32);
    SameShort(g, h, 34);
    SameShort(g, h, 36);
    SameLong(g, h, 38);
    SameLong(g, h, 42);
    assert g[..46] == h[..46];
    assert g == g[..46] + g[46..] && h == h[..46] + h[46..];
  }

  lemma EndRecordUnique(g: seq<byte>, h: seq<byte>, count: nat, centralSize: nat, centralOffset: nat)
    requires IsEndRecord(g, count, centralSize, centralOffset) && IsEndRecord(h, count, centralSize, centralOffset)
    ensures g == h
  {
    hide Read16, Read32;
    SameLong(g, h, 0);
    SameShort(g, h, 4);
    SameShort(g, h, 6);
    SameShort(g, h, 8);
    SameShort(g, h, 10);
    SameLong(g, h, 12);
    SameLong(g, h, 16);
    SameShort(g, h, 20);
  }

  // ---------------------------------------------------------------- the whole archive

  /** The local records of a file list, each followed by its content. */
  function Locals(files: seq<SourceFile>): (r: seq<byte>)
    requires forall f :: f in files ==> Fields(f)
  {
    if files == [] then []
    else
      var last := |files| - 1;
      Locals(files[..last]) + LocalHeader(files[last]) + files[last].content
  }

  /** The offset of the local record of file i. */
  function LocalOffset(files: seq<SourceFile>, i: nat): (n: nat)
    requires i <= |files|
  {
    if i == 0 then 0 else LocalOffset(files, i - 1) + 30 + |files[i - 1].path| + |files[i - 1].content|
  }

  /** The offset of the central record of file i within the directory. */
  function CentralOffset(files: seq<SourceFile>, i: nat): (n: nat)
    requires i <= |files|
  {
    if i == 0 then 0 else CentralOffset(files, i - 1) + 46 + |files[i - 1].path|
  }

  /** Every number that the writer stores fits its field; otherwise a Buffer write throws. */
  predicate Fits(files: seq<SourceFile>) {
    && |files| < U16
    && (forall f :: f in files ==> Fields(f))
    && LocalOffset(files, |files|) < U32
    && CentralOffset(files, |files|) < U32
  }

  function Centrals(files: seq<SourceFile>, count: nat): (r: seq<byte>)
    requires Fits(files) && count <= |files|
    ensures |r| == CentralOffset(files, count)
  {
    if count == 0 then []
    else
      OffsetsGrow(files, count - 1, |files|);
      Centrals(files, count - 1) + CentralHeader(files[count - 1], LocalOffset(files, count - 1))
  }

  /** The directory and the end record, after the local records. */
  function Directory(files: seq<SourceFile>): seq<byte>
    requires Fits(files)
  {
    Centrals(files, |files|) + EndRecord(|files|, CentralOffset(files, |files|), LocalOffset(files, |files|))
  }

  function Archive(files: seq<SourceFile>): (r: seq<byte>)
    requires Fits(files)
  {
    Locals(files) + Directory(files)
  }

  lemma {:induction false} OffsetsGrow(files: seq<SourceFile>, i: nat, j: nat)
    requires i <= j <= |files|
    ensures LocalOffset(files, i) + 30 * (j - i) <= LocalOffset(files, j)
    ensures CentralOffset(files, i) + 46 * (j - i) <= CentralOffset(files, j)
    decreases j - i
  {
    if i < j { OffsetsGrow(files, i, j - 1); }
  }

  lemma {:induction false} OffsetsOfPrefix(files: seq<SourceFile>, n: nat, i: nat)
    requires i <= n <= |files|
    ensures LocalOffset(files[..n], i) == LocalOffset(files, i)
    ensures CentralOffset(files[..n], i) == CentralOffset(files, i)
  {
    if i > 0 { OffsetsOfPrefix(files, n, i - 1); }
  }

  lemma {:induction false} LocalsLength(files: seq<SourceFile>)
    requires forall f :: f in files ==> Fields(f)
    ensures |Locals(files)| == LocalOffset(files, |files|)
  {
    hide LocalHeader;
    if files != [] {
      var last := |files| - 1;
      LocalsLength(files[..last]);
      OffsetsOfPrefix(files, last, last);
    }
  }

  /** Record i and its content, inside the local records. */
  lemma {:induction false} LocalAt(files: seq<SourceFile>, i: nat)
    requires (forall f :: f in files ==> Fields(f)) && i < |files|
    ensures At(Locals(files), LocalOffset(files, i), LocalHeader(files[i]))
    ensures At(Locals(files), LocalOffset(files, i) + 30 + |files[i].path|, files[i].content)
  {
    hide LocalHeader;
    var last := |files| - 1;
    var front := files[..last];
    LocalsLength(front);
    OffsetsOfPrefix(files, last, i);
    if i < last { LocalAt(front, i); }
  }

  lemma {:induction false} CentralAt(files: seq<SourceFile>, count: nat, i: nat)
    requires Fits(files) && i < count <= |files|
    ensures LocalOffset(files, i) < U32
    ensures At(Centrals(files, count), CentralOffset(files, i), CentralHeader(files[i], LocalOffset(files, i)))
  {
    hide CentralHeader;
    OffsetsGrow(files, i, |files|);
    if i < count - 1 { CentralAt(files, count - 1, i); }
  }

  lemma AtWithin(whole: seq<byte>, before: seq<byte>, part: seq<byte>, after: seq<byte>, at: nat, piece: seq<byte>)
    requires whole == before + part + after && At(part, at, piece)
    ensures At(whole, |before| + at, piece)
  {
  }

  lemma ReadAt(whole: seq<byte>, at: nat, piece: seq<byte>, k: nat)
    requires At(whole, at, piece)
    ensures k + 2 <= |piece| ==> Read16(whole, at + k) == Read16(piece, k)
    ensures k + 4 <= |piece| ==> Read32(whole, at + k) == Read32(piece, k)
  {
    assert forall j :: 0 <= j < |piece| ==> whole[at + j] == piece[j];
  }

  /** What a reader finds in an archive, field by field. */
  lemma ArchiveLayout(files: seq<SourceFile>)
    requires Fits(files)
    ensures var a, n := Archive(files), |files|;
      var centralOffset, centralSize := LocalOffset(files, n), CentralOffset(files, n);
      && |a| == centralOffset + centralSize + 22
      && IsEndRecord(a[|a| - 22..], n, centralSize, centralOffset)
  {
    hide EndRecord, Locals, Centrals, Fields, LocalOffset, Read16, Read32;
    LocalsLength(files);
    EndFields(|files|, CentralOffset(files, |files|), LocalOffset(files, |files|));
    var a := Archive(files);
    assert a[|a| - 22..] == EndRecord(|files|, CentralOffset(files, |files|), LocalOffset(files, |files|));
  }

  lemma FieldsOf(files: seq<SourceFile>, i: nat)
    requires Fits(files) && i < |files|
    ensures Fields(files[i])
    ensures forall f :: f in files ==> Fields(f)
    ensures |files| < U16 && LocalOffset(files, |files|) < U32 && CentralOffset(files, |files|) < U32
  {
  }

  lemma ArchiveParts(files: seq<SourceFile>)
    requires Fits(files)
    ensures Archive(files) == [] + Locals(files) + Directory(files)
    ensures Archive(files) == Locals(files) + Centrals(files, |files|)
                              + EndRecord(|files|, CentralOffset(files, |files|), LocalOffset(files, |files|))
  {
    hide Fields, Locals, Centrals, EndRecord, LocalOffset, CentralOffset;
    Regroup(Locals(files), Centrals(files, |files|), EndRecord(|files|, CentralOffset(files, |files|), LocalOffset(files, |files|)));
  }

  lemma Regroup(a: seq<byte>, b: seq<byte>, c: seq<byte>)
    ensures a + (b + c) == a + b + c && a + (b + c) == [] + a + (b + c)
  {
  }

  lemma LocalLayout(files: seq<SourceFile>, i: nat)
    requires Fits(files) && i < |files|
    ensures Fields(files[i])
    ensures At(Archive(files), LocalOffset(files, i), LocalHeader(files[i]))
    ensures At(Archive(files), LocalOffset(files, i) + 30 + |files[i].path|, files[i].content)
    ensures LocalOffset(files, i + 1) <= LocalOffset(files, |files|)
  {
    hide *;
    FieldsOf(files, i);
    ArchiveParts(files);
    LocalAt(files, i);
    OffsetsGrow(files, i + 1, |files|);
    AtWithin(Archive(files), [], Locals(files), Directory(files), LocalOffset(files, i), LocalHeader(files[i]));
    AtWithin(Archive(files), [], Locals(files), Directory(files), LocalOffset(files, i) + 30 + |files[i].path|, files[i].content);
  }

  lemma CentralLayout(files: seq<SourceFile>, i: nat)
    requires Fits(files) && i < |files|
    ensures Fields(files[i]) && LocalOffset(files, i) < U32
    ensures At(Archive(files), LocalOffset(files, |files|) + CentralOffset(files, i),
               CentralHeader(files[i], LocalOffset(files, i)))
  {
    hide *;
    FieldsOf(files, i);
    ArchiveParts(files);
    LocalsLength(files);
    CentralAt(files, |files|, i);
    AtWithin(Archive(files), Locals(files), Centrals(files, |files|),
             EndRecord(|files|, CentralOffset(files, |files|), LocalOffset(files, |files|)),
             CentralOffset(files, i), CentralHeader(files[i], LocalOffset(files, i)));
  }

  /** What a reader finds in a local record. */
  lemma LocalReads(a: seq<byte>, at: nat, file: SourceFile)
    requires Fields(file) && At(a, at, LocalHeader(file))
    ensures at + 30 + |file.path| <= |a|
    ensures Read32(a, at) == ZIP_LOCAL_FILE && Read16(a, at + 6) == ZIP_UTF8 && Read16(a, at + 8) == 0
    ensures Read32(a, at + 14) == Checksum(file.content)
    ensures Read32(a, at + 18) == |file.content| && Read32(a, at + 22) == |file.content|
    ensures Read16(a, at + 26) == |file.path| && Read16(a, at + 28) == 0
    ensures a[at + 30..at + 30 + |file.path|] == NameBytes(file.path)
  {
    hide LocalHeader, Read16, Read32, Checksum, NameBytes, Fields;
    LocalFields(file);
    var h := LocalHeader(file);
    ReadAt(a, at, h, 0);
    ReadAt(a, at, h, 6);
    ReadAt(a, at, h, 8);
    ReadAt(a, at, h, 14);
    ReadAt(a, at, h, 18);
    ReadAt(a, at, h, 22);
    ReadAt(a, at, h, 26);
    ReadAt(a, at, h, 28);
    assert a[at + 30..at + 30 + |file.path|] == a[at..at + |h|][30..] == h[30..];
  }

  /** What a reader finds in a central record. */
  lemma CentralReads(a: seq<byte>, at: nat, file: SourceFile, offset: nat)
    requires Fields(file) && offset < U32 && At(a, at, CentralHeader(file, offset))
    ensures at + 46 + |file.path| <= |a|
    ensures Read32(a, at) == ZIP_CENTRAL_FILE && Read16(a, at + 4) == ZIP_UNIX_VERSION
    ensures Read16(a, at + 8) == ZIP_UTF8 && Read16(a, at + 10) == 0
    ensures Read32(a, at + 16) == Checksum(file.content)
    ensures Read32(a, at + 20) == |file.content| && Read32(a, at + 24) == |file.content|
    ensures Read16(a, at + 28) == |file.path| && Read16(a, at + 30) == 0 && Read16(a, at + 32) == 0
    ensures Read32(a, at + 38) == REGULAR_FILE && Read32(a, at + 42) == offset
    ensures a[at + 46..at + 46 + |file.path|] == NameBytes(file.path)
  {
    hide CentralHeader, Read16, Read32, Checksum, NameBytes, Fields;
    CentralFields(file, offset);
    var h := CentralHeader(file, offset);
    ReadAt(a, at, h, 0);
    ReadAt(a, at, h, 4);
    ReadAt(a, at, h, 8);
    ReadAt(a, at, h, 10);
    ReadAt(a, at, h, 16);
    ReadAt(a, at, h, 20);
    ReadAt(a, at, h, 24);
    ReadAt(a, at, h, 28);
    ReadAt(a, at, h, 30);
    ReadAt(a, at, h, 32);
    ReadAt(a, at, h, 38);
    ReadAt(a, at, h, 42);
    assert a[at + 46..at + 46 + |file.path|] == a[at..at + |h|][46..] == h[46..];
  }

  // ---------------------------------------------------------------- an archive determines its files

  lemma NameBytesInjective(p: string, q: string)
    requires NameBytes(p) == NameBytes(q)
    requires forall i :: 0 <= i < |p| ==> (p[i] as int) < 128
    requires forall i :: 0 <= i < |q| ==> (q[i] as int) < 128
    ensures p == q
  {
    forall i | 0 <= i < |p| ensures p[i] == q[i] {
      assert NameBytes(p)[i] == p[i] as int && NameBytes(q)[i] == q[i] as int;
    }
  }

  ghost predicate AsciiNames(files: seq<SourceFile>) {
    forall f, i :: f in files && 0 <= i < |f.path| ==> (f.path[i] as int) < 128
  }

  lemma {:induction false} SamePrefix(a: seq<SourceFile>, b: seq<SourceFile>, n: nat)
    requires Fits(a) && Fits(b) && Archive(a) == Archive(b) && AsciiNames(a) && AsciiNames(b)
    requires |a| == |b| && LocalOffset(a, |a|) == LocalOffset(b, |b|) && n <= |a|
    ensures forall i :: 0 <= i < n ==> a[i] == b[i]
    ensures LocalOffset(a, n) == LocalOffset(b, n) && CentralOffset(a, n) == CentralOffset(b, n)
  {
    hide Fits, Archive, AsciiNames;
    if n > 0 {
      SamePrefix(a, b, n - 1);
      SameStep(a, b, n - 1);
    }
  }

  lemma SameStep(a: seq<SourceFile>, b: seq<SourceFile>, i: nat)
    requires Fits(a) && Fits(b) && Archive(a) == Archive(b) && AsciiNames(a) && AsciiNames(b)
    requires |a| == |b| && LocalOffset(a, |a|) == LocalOffset(b, |b|) && i < |a|
    requires LocalOffset(a, i) == LocalOffset(b, i) && CentralOffset(a, i) == CentralOffset(b, i)
    ensures a[i] == b[i]
    ensures LocalOffset(a, i + 1) == LocalOffset(b, i + 1) && CentralOffset(a, i + 1) == CentralOffset(b, i + 1)
  {
    hide *;
    OffsetStep(a, i);
    OffsetStep(b, i);
    CentralLayout(a, i);
    CentralLayout(b, i);
    LocalLayout(a, i);
    LocalLayout(b, i);
    AsciiOf(a, i);
    AsciiOf(b, i);
    SameEntry(Archive(a), LocalOffset(a, |a|) + CentralOffset(a, i), LocalOffset(a, i), a[i], b[i]);
  }

  lemma OffsetStep(files: seq<SourceFile>, i: nat)
    requires i < |files|
    ensures LocalOffset(files, i + 1) == LocalOffset(files, i) + 30 + |files[i].path| + |files[i].content|
    ensures CentralOffset(files, i + 1) == CentralOffset(files, i) + 46 + |files[i].path|
  {
  }

  lemma AsciiOf(files: seq<SourceFile>, i: nat)
    requires AsciiNames(files) && i < |files|
    ensures AsciiNames([files[i]])
  {
  }

  lemma SameEntry(archive: seq<byte>, central: nat, local: nat, f: SourceFile, g: SourceFile)
    requires Fields(f) && Fields(g) && local < U32
    requires At(archive, central, CentralHeader(f, local)) && At(archive, central, CentralHeader(g, local))
    requires At(archive, local + 30 + |f.path|, f.content) && At(archive, local + 30 + |g.path|, g.content)
    requires AsciiNames([f]) && AsciiNames([g])
    ensures f == g
  {
    CentralReads(archive, central, f, local);
    CentralReads(archive, central, g, local);
    hide CentralHeader, Read16, Read32, Checksum, NameBytes, Fields;
    assert f in [f] && g in [g];
    NameBytesInjective(f.path, g.path);
  }

  /** Equal archives hold equal file lists. */
  lemma ArchiveInjective(a: seq<SourceFile>, b: seq<SourceFile>)
    requires Fits(a) && Fits(b) && Archive(a) == Archive(b) && AsciiNames(a) && AsciiNames(b)
    ensures a == b
  {
    ArchiveLayout(a);
    ArchiveLayout(b);
    SamePrefix(a, b, |a|);
  }
}
