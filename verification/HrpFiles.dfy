/** The file lists the archive writer accepts, and the order in which it stores them. */
module HrpFiles {
  import opened Bytes
  import opened HrpPath
  import opened Sorting

  datatype SourceFile = SourceFile(path: string, content: seq<byte>)

  datatype Limits = Limits(maxArchiveBytes: nat, maxUncompressedBytes: nat, maxFileBytes: nat, maxEntries: nat)

  const DEFAULT_LIMITS := Limits(8 * 1024 * 1024, 4 * 1024 * 1024, 512 * 1024, 256)

  function Paths(files: seq<SourceFile>): (paths: seq<string>)
    ensures |paths| == |files|
  {
    seq(|files|, i requires 0 <= i < |files| => files[i].path)
  }

  function TotalBytes(files: seq<SourceFile>): nat {
    if files == [] then 0 else |files[0].content| + TotalBytes(files[1..])
  }

  function PathOrder(): (SourceFile, SourceFile) -> bool {
    (a: SourceFile, b: SourceFile) => TextLeq(a.path, b.path)
  }

  lemma PathOrderTotal()
    ensures TotalPreorder(PathOrder())
  {
    forall a, b ensures PathOrder()(a, b) || PathOrder()(b, a) { TextTotal(a.path, b.path); }
    forall a, b, c | PathOrder()(a, b) && PathOrder()(b, c) ensures PathOrder()(a, c) {
      TextTransitive(a.path, b.path, c.path);
    }
  }

  /** The order in which the files are stored. */
  function Canonical(files: seq<SourceFile>): (c: seq<SourceFile>)
    ensures |c| == |files|
  {
    StableSort(files, PathOrder())
  }

  /** What a file list must satisfy to be packaged. */
  ghost predicate Acceptable(files: seq<SourceFile>, limits: Limits) {
    && 0 < |files| <= limits.maxEntries
    && (forall f :: f in files ==> IsHrpPath(f.path) && |f.content| <= limits.maxFileBytes)
    && TotalBytes(files) <= limits.maxUncompressedBytes
    && NoCollisions(Paths(files))
  }

  /** The map that `result.set` builds from a list of entries. */
  function FileMap(files: seq<SourceFile>): (m: map<string, seq<byte>>) {
    if files == [] then map[]
    else FileMap(files[..|files| - 1])[files[|files| - 1].path := files[|files| - 1].content]
  }

  // ---------------------------------------------------------------- rearranging a file list

  lemma TwoPositions<T>(s: seq<T>, i: nat, j: nat)
    requires i < j < |s| && s[i] == s[j]
    ensures multiset(s)[s[i]] >= 2
  {
    assert s == s[..j] + [s[j]] + s[j + 1..];
    assert s[..j][i] == s[i] && s[i] in multiset(s[..j]);
  }

  lemma {:induction false} PositionsOf<T>(s: seq<T>, x: T) returns (i: nat, j: nat)
    requires multiset(s)[x] >= 2
    ensures i < j < |s| && s[i] == x == s[j]
  {
    assert s == [s[0]] + s[1..];
    if s[0] == x {
      assert x in multiset(s[1..]);
      assert x in s[1..];
      j :| 1 <= j < |s| && s[j] == x;
      i := 0;
    } else {
      i, j := PositionsOf(s[1..], x);
      i, j := i + 1, j + 1;
    }
  }

  /** Whether names collide does not depend on the order in which they are listed. */
  lemma NoCollisionsPermutes(a: seq<string>, b: seq<string>)
    requires multiset(a) == multiset(b) && NoCollisions(a)
    ensures NoCollisions(b)
  {
    hide IsProperSegmentPrefix, FoldCase;
    forall i, j | 0 <= i < |b| && 0 <= j < |b| && i != j
      ensures FoldCase(b[i]) != FoldCase(b[j]) && !IsProperSegmentPrefix(FoldCase(b[i]), FoldCase(b[j]))
    {
      if b[i] == b[j] {
        TwoPositions(b, if i < j then i else j, if i < j then j else i);
        var p, q := PositionsOf(a, b[i]);
        assert FoldCase(a[p]) != FoldCase(a[q]);
      } else {
        assert b[i] in multiset(b) && b[j] in multiset(b);
        assert b[i] in a && b[j] in a;
        var p :| 0 <= p < |a| && a[p] == b[i];
        var q :| 0 <= q < |a| && a[q] == b[j];
        assert FoldCase(a[p]) != FoldCase(a[q]);
      }
    }
  }

  lemma {:induction false} PathsInsert(x: SourceFile, s: seq<SourceFile>, leq: (SourceFile, SourceFile) -> bool)
    ensures multiset(Paths(Insert(x, s, leq))) == multiset{x.path} + multiset(Paths(s))
  {
    if s != [] && !leq(x, s[0]) {
      PathsInsert(x, s[1..], leq);
      assert Paths(Insert(x, s, leq)) == [s[0].path] + Paths(Insert(x, s[1..], leq));
      assert Paths(s) == [s[0].path] + Paths(s[1..]);
    } else {
      assert Paths(Insert(x, s, leq)) == [x.path] + Paths(s);
    }
  }

  lemma {:induction false} PathsSort(s: seq<SourceFile>, leq: (SourceFile, SourceFile) -> bool)
    ensures multiset(Paths(StableSort(s, leq))) == multiset(Paths(s))
  {
    if s != [] {
      PathsSort(s[1..], leq);
      PathsInsert(s[0], StableSort(s[1..], leq), leq);
      assert Paths(s) == [s[0].path] + Paths(s[1..]);
    }
  }

  lemma {:induction false} TotalInsert(x: SourceFile, s: seq<SourceFile>, leq: (SourceFile, SourceFile) -> bool)
    ensures TotalBytes(Insert(x, s, leq)) == |x.content| + TotalBytes(s)
  {
    if s != [] && !leq(x, s[0]) {
      TotalInsert(x, s[1..], leq);
      assert Insert(x, s, leq)[1..] == Insert(x, s[1..], leq);
    } else {
      assert Insert(x, s, leq)[1..] == s;
    }
  }

  lemma {:induction false} TotalSort(s: seq<SourceFile>, leq: (SourceFile, SourceFile) -> bool)
    ensures TotalBytes(StableSort(s, leq)) == TotalBytes(s)
  {
    if s != [] {
      TotalSort(s[1..], leq);
      TotalInsert(s[0], StableSort(s[1..], leq), leq);
    }
  }

  lemma DistinctPaths(files: seq<SourceFile>, a: SourceFile, b: SourceFile)
    requires NoCollisions(Paths(files)) && a in files && b in files && a.path == b.path
    ensures a == b
  {
    var i :| 0 <= i < |files| && files[i] == a;
    var j :| 0 <= j < |files| && files[j] == b;
    assert Paths(files)[i] == Paths(files)[j];
  }

  /** The stored order depends on the set of files only. */
  lemma CanonicalPermutes(a: seq<SourceFile>, b: seq<SourceFile>)
    requires multiset(a) == multiset(b) && NoCollisions(Paths(a))
    ensures Canonical(a) == Canonical(b)
  {
    hide TextLeq, StableSort;
    PathOrderTotal();
    var x, y := Canonical(a), Canonical(b);
    SortPermutes(a, PathOrder());
    SortPermutes(b, PathOrder());
    SortSorted(a, PathOrder());
    SortSorted(b, PathOrder());
    SortMembers(a, PathOrder());
    forall f, g | f in x && g in x && PathOrder()(f, g) && PathOrder()(g, f) ensures f == g {
      TextTotal(f.path, g.path);
      DistinctPaths(a, f, g);
    }
    SortedUnique(x, y, PathOrder());
  }

  lemma CanonicalIsAcceptable(files: seq<SourceFile>, limits: Limits)
    ensures Acceptable(files, limits) <==> Acceptable(Canonical(files), limits)
    ensures NoCollisions(Paths(files)) <==> NoCollisions(Paths(Canonical(files)))
    ensures forall f :: f in Canonical(files) <==> f in files
  {
    hide StableSort, NoCollisions, IsHrpPath;
    SortPermutes(files, PathOrder());
    SortMembers(files, PathOrder());
    TotalSort(files, PathOrder());
    PathsSort(files, PathOrder());
    if NoCollisions(Paths(files)) { NoCollisionsPermutes(Paths(files), Paths(Canonical(files))); }
    if NoCollisions(Paths(Canonical(files))) { NoCollisionsPermutes(Paths(Canonical(files)), Paths(files)); }
  }

  lemma AcceptablePermutes(a: seq<SourceFile>, b: seq<SourceFile>, limits: Limits)
    requires multiset(a) == multiset(b) && Acceptable(a, limits)
    ensures Acceptable(b, limits) && Canonical(a) == Canonical(b)
  {
    hide StableSort, NoCollisions, IsHrpPath, TotalBytes;
    CanonicalPermutes(a, b);
    CanonicalIsAcceptable(a, limits);
    CanonicalIsAcceptable(b, limits);
  }

  lemma CanonicalIdempotent(files: seq<SourceFile>)
    ensures Canonical(Canonical(files)) == Canonical(files)
  {
    hide StableSort, TextLeq;
    PathOrderTotal();
    SortSorted(files, PathOrder());
    SortOfSorted(Canonical(files), PathOrder());
  }

  // ---------------------------------------------------------------- file maps

  /** With distinct paths, the map holds exactly the listed files. */
  lemma {:induction false} FileMapHolds(files: seq<SourceFile>)
    requires forall f, g :: f in files && g in files && f.path == g.path ==> f == g
    ensures forall p :: p in FileMap(files) <==> exists f :: f in files && f.path == p
    ensures forall f :: f in files ==> f.path in FileMap(files) && FileMap(files)[f.path] == f.content
  {
    if files != [] {
      var last := |files| - 1;
      var rest := files[..last];
      assert files == rest + [files[last]];
      FileMapHolds(rest);
      forall p ensures p in FileMap(files) <==> exists f :: f in files && f.path == p {
        if p == files[last].path { assert files[last] in files; }
      }
    }
  }

  /** Two lists of the same files make the same map. */
  lemma FileMapSame(a: seq<SourceFile>, b: seq<SourceFile>)
    requires forall f :: f in a <==> f in b
    requires forall f, g :: f in a && g in a && f.path == g.path ==> f == g
    ensures FileMap(a) == FileMap(b)
  {
    hide FileMap;
    FileMapHolds(a);
    FileMapHolds(b);
    forall p | p in FileMap(a) ensures p in FileMap(b) && FileMap(b)[p] == FileMap(a)[p] {
      var f :| f in a && f.path == p;
      assert f in b;
    }
    forall p | p in FileMap(b) ensures p in FileMap(a) {
      var f :| f in b && f.path == p;
      assert f in a;
    }
  }

  lemma FileMapCanonical(files: seq<SourceFile>)
    requires NoCollisions(Paths(files))
    ensures FileMap(Canonical(files)) == FileMap(files)
  {
    hide NoCollisions, FileMap, StableSort;
    SortMembers(files, PathOrder());
    forall f, g | f in files && g in files && f.path == g.path ensures f == g { DistinctPaths(files, f, g); }
    FileMapSame(files, Canonical(files));
  }

  // ---------------------------------------------------------------- the method

  /** `normalizedFiles`: check every file while totalling the bytes, sort, and look for collisions. */
  method NormalizedFiles(files: seq<SourceFile>, limits: Limits) returns (r: Outcome<seq<SourceFile>>)
    ensures r == if Acceptable(files, limits) then Ok(Canonical(files)) else Rejected
  {
    hide StableSort, NoCollisions, IsHrpPath, PathOrder;
    if files == [] || |files| > limits.maxEntries { return Rejected; }
    var total := 0;
    for i := 0 to |files|
      invariant forall f :: f in files[..i] ==> IsHrpPath(f.path) && |f.content| <= limits.maxFileBytes
      invariant total + TotalBytes(files[i..]) == TotalBytes(files)
      invariant total <= limits.maxUncompressedBytes
    {
      var file := files[i];
      assert file in files && files[..i + 1] == files[..i] + [file];
      assert files[i..][1..] == files[i + 1..];
      if NormalizeHrpPath(file.path).Rejected? { return Rejected; }
      if |file.content| > limits.maxFileBytes { return Rejected; }
      total := total + |file.content|;
      if total > limits.maxUncompressedBytes { return Rejected; }
    }
    assert files[..|files|] == files;
    var sorted := StableSort(files, PathOrder());
    assert sorted == Canonical(files);
    CanonicalIsAcceptable(files, limits);
    var clear := AssertNoPortablePathCollisions(Paths(sorted));
    assert forall i :: 0 <= i < |sorted| ==> sorted[i] in files && IsHrpPath(Paths(sorted)[i]);
    r := if clear then Ok(sorted) else Rejected;
  }
}
