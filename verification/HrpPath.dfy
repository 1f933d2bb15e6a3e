/**
 * Archive paths: which names are accepted, and when a list of them collides on a case-insensitive
 * file system.
 */
module HrpPath {
  import opened Bytes
  import opened Texts
  import opened Utf8

  const MAX_SEGMENT_BYTES := 255
  const MAX_PATH_BYTES := 240

  // ---------------------------------------------------------------- splitting at "/"

  function Split(s: string): (segments: seq<string>)
    ensures |segments| >= 1
    ensures forall i :: 0 <= i < |segments| ==> '/' !in segments[i]
  {
    if s == "" then [""]
    else
      var rest := Split(s[1..]);
      if s[0] == '/' then [""] + rest else [[s[0]] + rest[0]] + rest[1..]
  }

  lemma {:induction false} JoinSplit(s: string)
    ensures Join(Split(s), "/") == s
  {
    if s != "" {
      var rest := Split(s[1..]);
      JoinSplit(s[1..]);
      if s[0] == '/' {
        assert ([""] + rest)[1..] == rest;
      } else {
        assert ([[s[0]] + rest[0]] + rest[1..])[1..] == rest[1..];
      }
    }
  }

  lemma {:induction false} SplitJoin(segments: seq<string>)
    requires |segments| >= 1 && forall i :: 0 <= i < |segments| ==> '/' !in segments[i]
    ensures Split(Join(segments, "/")) == segments
  {
    if |segments| == 1 {
      SplitPlain(segments[0]);
    } else {
      SplitJoin(segments[1..]);
      SplitAfter(segments[0], Join(segments[1..], "/"));
      assert segments == [segments[0]] + segments[1..];
    }
  }

  lemma {:induction false} SplitPlain(s: string)
    requires '/' !in s
    ensures Split(s) == [s]
  {
    if s != "" {
      SplitPlain(s[1..]);
      assert s == [s[0]] + s[1..];
    }
  }

  lemma {:induction false} SplitAfter(first: string, rest: string)
    requires '/' !in first
    ensures Split(first + "/" + rest) == [first] + Split(rest)
  {
    var whole := first + "/" + rest;
    if first == "" {
      assert whole[1..] == rest;
    } else {
      SplitAfter(first[1..], rest);
      assert whole[1..] == first[1..] + "/" + rest;
      assert first == [first[0]] + first[1..];
    }
  }

  // ---------------------------------------------------------------- accepted names

  predicate IsAlphanumeric(c: char) {
    'A' <= c <= 'Z' || 'a' <= c <= 'z' || '0' <= c <= '9'
  }

  predicate IsPortableChar(c: char) {
    IsAlphanumeric(c) || c == '.' || c == '_' || c == '-'
  }

  function Lower(c: char): (l: char) {
    if 'A' <= c <= 'Z' then c - 'A' + 'a' else c
  }

  function FoldCase(s: string): (l: string)
    ensures |l| == |s|
  {
    seq(|s|, i requires 0 <= i < |s| => Lower(s[i]))
  }

  /** The part of a segment before its first dot. */
  function Stem(s: string): string {
    if s == "" || s[0] == '.' then "" else [s[0]] + Stem(s[1..])
  }

  predicate IsWindowsDevice(s: string) {
    var stem := FoldCase(Stem(s));
    || stem in {"con", "prn", "aux", "nul"}
    || (|stem| == 4 && stem[..3] in {"com", "lpt"} && '1' <= stem[3] <= '9')
  }

  predicate IsPortableSegment(s: string) {
    && s != "" && s[|s| - 1] != '.'
    && !IsWindowsDevice(s)
    && forall i :: 0 <= i < |s| ==> IsPortableChar(s[i])
  }

  /** The names an archive may contain. ("." and ".." end in a dot.) */
  predicate IsHrpPath(s: string) {
    |s| <= MAX_PATH_BYTES && forall segment :: segment in Split(s) ==> IsPortableSegment(segment)
  }

  predicate IsControl(c: char) {
    (c as int) <= 0x1f || (c as int) == 0x7f
  }

  /** The test the source applies to every segment. */
  predicate IsRejectedSegment(segment: string) {
    || segment == ""
    || segment == "."
    || segment == ".."
    || segment[|segment| - 1] == '.'
    || IsWindowsDevice(segment)
    || exists k :: 0 <= k < |segment| && !IsPortableChar(segment[k])
  }

  /**
   * `normalizeHrpPath`. (The Unicode normalisation test is not repeated here: an ASCII string is its
   * own normal form, and every other string fails the portable-segment test.)
   */
  function NormalizeHrpPath(value: string): (r: Outcome<string>)
    ensures r == if IsHrpPath(value) then Ok(value) else Rejected
  {
    hide IsWindowsDevice, Split, Join, ByteLength;
    JoinSplit(value);
    assert IsHrpPath(value) ==> PassesTests(value) by { if IsHrpPath(value) { Accepted(value); } }
    assert ByteLength(value) >= |value|;
    if value == "" then Rejected
    else if value[0] == '/' || '\\' in value || ':' in value then Rejected
    else if exists i :: 0 <= i < |value| && IsControl(value[i]) then Rejected
    else if exists segment :: segment in Split(value) && ByteLength(segment) > MAX_SEGMENT_BYTES then Rejected
    else if ByteLength(value) > MAX_PATH_BYTES then Rejected
    else if exists segment :: segment in Split(value) && IsRejectedSegment(segment) then Rejected
    else Ok(Join(Split(value), "/"))
  }

  ghost predicate PassesTests(value: string) {
    && value != "" && value[0] != '/' && '\\' !in value && ':' !in value
    && (forall i :: 0 <= i < |value| ==> !IsControl(value[i]))
    && ByteLength(value) == |value|
    && forall segment :: segment in Split(value) ==> ByteLength(segment) <= |value|
  }

  lemma Accepted(value: string)
    requires forall segment :: segment in Split(value) ==> IsPortableSegment(segment)
    ensures PassesTests(value)
  {
    hide IsWindowsDevice, Split, Join, ByteLength;
    var segments := Split(value);
    JoinSplit(value);
    JoinChars(segments);
    AsciiLength(value);
    forall segment | segment in segments ensures ByteLength(segment) <= |value| {
      AsciiLength(segment);
    }
  }

  lemma {:induction false} JoinChars(segments: seq<string>)
    requires |segments| >= 1 && forall segment :: segment in segments ==> IsPortableSegment(segment)
    ensures |Join(segments, "/")| >= 1 && Join(segments, "/")[0] != '/'
    ensures forall i :: 0 <= i < |Join(segments, "/")| ==> IsPortableChar(Join(segments, "/")[i]) || Join(segments, "/")[i] == '/'
    ensures forall segment :: segment in segments ==> |segment| <= |Join(segments, "/")|
  {
    hide IsWindowsDevice;
    var first, s := segments[0], Join(segments, "/");
    assert first in segments;
    if |segments| > 1 {
      var rest := Join(segments[1..], "/");
      JoinChars(segments[1..]);
      assert s == first + "/" + rest && s[0] == first[0];
      forall segment | segment in segments ensures |segment| <= |s| {
        if segment != first { assert segment in segments[1..]; }
      }
      forall i | 0 <= i < |s| ensures IsPortableChar(s[i]) || s[i] == '/' {
        if i > |first| { assert s[i] == rest[i - |first| - 1]; }
      }
    }
  }

  lemma {:induction false} AsciiLength(s: string)
    requires forall i :: 0 <= i < |s| ==> IsPortableChar(s[i]) || s[i] == '/'
    ensures ByteLength(s) == |s|
  {
    if s != "" { AsciiLength(s[1..]); }
  }

  // ---------------------------------------------------------------- the accepted names, written out

  const CAPITALS := "ABCDEFGHIJKLMNOPQRSTUVWXYZ"
  const SMALL := "abcdefghijklmnopqrstuvwxyz"
  const OTHERS := "0123456789._-"

  /** The device names that Windows reserves. */
  const DEVICES := [
    "con", "prn", "aux", "nul",
    "com1", "com2", "com3", "com4", "com5", "com6", "com7", "com8", "com9",
    "lpt1", "lpt2", "lpt3", "lpt4", "lpt5", "lpt6", "lpt7", "lpt8", "lpt9"]

  lemma CapitalsAre(c: char)
    ensures 'A' <= c <= 'Z' <==> c in CAPITALS
  {
  }

  lemma SmallAre(c: char)
    ensures 'a' <= c <= 'z' <==> c in SMALL
  {
  }

  lemma OthersAre(c: char)
    ensures c in OTHERS <==> '0' <= c <= '9' || c == '.' || c == '_' || c == '-'
  {
  }

  /** A name may be made of the letters, the digits, the dot, the underscore and the hyphen. */
  lemma PortableChars(c: char)
    ensures IsPortableChar(c) <==> c in CAPITALS || c in SMALL || c in OTHERS
  {
    CapitalsAre(c);
    SmallAre(c);
    OthersAre(c);
  }

  /** Folding identifies each capital with its small letter and nothing else. */
  lemma FoldedChars(c: char, d: char)
    ensures Lower(c) == Lower(d)
      <==> c == d || (c in CAPITALS && d as int == c as int + 32) || (d in CAPITALS && c as int == d as int + 32)
    ensures c !in CAPITALS ==> Lower(c) == c
  {
    CapitalsAre(c);
    CapitalsAre(d);
  }

  lemma FoldedAlphabet(i: nat)
    requires i < 26
    ensures CAPITALS[i] as int == 65 + i && SMALL[i] as int == 97 + i && Lower(CAPITALS[i]) == SMALL[i]
  {
  }

  lemma FoldedPrefix(s: string, n: nat)
    requires n <= |s|
    ensures FoldCase(s)[..n] == FoldCase(s[..n])
  {
  }

  lemma {:induction false} StemIs(s: string)
    ensures Stem(s) <= s && '.' !in Stem(s) && (Stem(s) == s || s[|Stem(s)|] == '.')
  {
    if s != "" && s[0] != '.' {
      StemIs(s[1..]);
      assert s == [s[0]] + s[1..];
    }
  }

  lemma {:induction false} StemOf(s: string, n: nat)
    requires n <= |s| && '.' !in s[..n] && (n == |s| || s[n] == '.')
    ensures Stem(s) == s[..n]
  {
    if n > 0 {
      assert s[..n][0] == s[0];
      assert s[..n][1..] == s[1..][..n - 1];
      StemOf(s[1..], n - 1);
      assert s[..n] == [s[0]] + s[1..][..n - 1];
    }
  }

  lemma DeviceStems(stem: string)
    ensures stem in DEVICES
      <==> stem in {"con", "prn", "aux", "nul"} || (|stem| == 4 && stem[..3] in {"com", "lpt"} && '1' <= stem[3] <= '9')
  {
    if |stem| == 4 {
      assert stem == stem[..3] + [stem[3]];
      FirstThree(stem);
    }
    if |stem| == 3 {
      assert forall d :: d in DEVICES && |d| == 3 ==> d in ["con", "prn", "aux", "nul"];
    }
  }

  lemma NumberedDevices()
    ensures "com1"[..3] == "com" && "com2"[..3] == "com" && "com3"[..3] == "com"
    ensures "com4"[..3] == "com" && "com5"[..3] == "com" && "com6"[..3] == "com"
    ensures "com7"[..3] == "com" && "com8"[..3] == "com" && "com9"[..3] == "com"
    ensures "lpt1"[..3] == "lpt" && "lpt2"[..3] == "lpt" && "lpt3"[..3] == "lpt"
    ensures "lpt4"[..3] == "lpt" && "lpt5"[..3] == "lpt" && "lpt6"[..3] == "lpt"
    ensures "lpt7"[..3] == "lpt" && "lpt8"[..3] == "lpt" && "lpt9"[..3] == "lpt"
  {
  }

  lemma FirstThree(stem: string)
    requires |stem| == 4
    ensures stem in DEVICES <==> stem[..3] in {"com", "lpt"} && '1' <= stem[3] <= '9'
  {
    if stem in DEVICES {
      NumberedDevices();
      assert stem in DEVICES[4..];
    }
    if stem[..3] in {"com", "lpt"} && '1' <= stem[3] <= '9' {
      NumberedNames(stem[3]);
      assert stem == stem[..3] + [stem[3]];
    }
  }

  lemma NumberedNames(c: char)
    requires '1' <= c <= '9'
    ensures "com" + [c] in DEVICES && "lpt" + [c] in DEVICES
  {
    assert "com" + ['1'] == "com1" && "com" + ['2'] == "com2" && "com" + ['3'] == "com3";
    assert "com" + ['4'] == "com4" && "com" + ['5'] == "com5" && "com" + ['6'] == "com6";
    assert "com" + ['7'] == "com7" && "com" + ['8'] == "com8" && "com" + ['9'] == "com9";
    assert "lpt" + ['1'] == "lpt1" && "lpt" + ['2'] == "lpt2" && "lpt" + ['3'] == "lpt3";
    assert "lpt" + ['4'] == "lpt4" && "lpt" + ['5'] == "lpt5" && "lpt" + ['6'] == "lpt6";
    assert "lpt" + ['7'] == "lpt7" && "lpt" + ['8'] == "lpt8" && "lpt" + ['9'] == "lpt9";
  }

  /** A reserved name: one of the devices, in capitals or not, alone or in front of a dot. */
  lemma DeviceNames(s: string)
    ensures IsWindowsDevice(s)
      <==> exists device :: device in DEVICES && (FoldCase(s) == device || device + "." <= FoldCase(s))
  {
    DeviceStems(FoldCase(Stem(s)));
    hide FoldCase, Stem;
    if FoldCase(Stem(s)) in DEVICES {
      StemIsDevice(s);
    }
    if device :| device in DEVICES && (FoldCase(s) == device || device + "." <= FoldCase(s)) {
      DeviceIsStem(s, device);
    }
  }

  lemma StemIsDevice(s: string)
    ensures var stem := FoldCase(Stem(s)); FoldCase(s) == stem || stem + "." <= FoldCase(s)
  {
    var stem := Stem(s);
    StemIs(s);
    FoldedPrefix(s, |stem|);
    hide Stem;
    if stem != s {
      assert FoldCase(s)[|stem|] == '.';
      assert FoldCase(s)[..|stem| + 1] == FoldCase(stem) + ".";
    }
  }

  lemma DeviceIsStem(s: string, device: string)
    requires device in DEVICES && (FoldCase(s) == device || device + "." <= FoldCase(s))
    ensures FoldCase(Stem(s)) == device
  {
    var n := |device|;
    DeviceHasNoDot(device);
    assert n <= |s| && FoldCase(s)[..n] == device;
    assert n < |s| ==> FoldCase(s)[n] == (device + ".")[n] == '.';
    FoldedPrefix(s, n);
    DotFolds(s[..n]);
    StemOf(s, n);
  }

  lemma DeviceHasNoDot(device: string)
    requires device in DEVICES
    ensures '.' !in device
  {
  }

  lemma DotFolds(s: string)
    ensures '.' in FoldCase(s) <==> '.' in s
  {
    if '.' in s {
      var i :| 0 <= i < |s| && s[i] == '.';
      assert FoldCase(s)[i] == '.';
    }
  }

  lemma NotADevice(stem: string)
    requires stem != "" && stem[0] == 'x'
    ensures stem !in {"con", "prn", "aux", "nul"} && (|stem| >= 3 ==> stem[..3] !in {"com", "lpt"})
  {
    assert |stem| >= 3 ==> stem[..3][0] == 'x';
  }

  /** A name of one letter repeated is accepted exactly up to 240 characters. */
  lemma LengthLimit(s: string)
    requires s != "" && forall c :: c in s ==> c == 'x'
    ensures IsHrpPath(s) <==> |s| <= 240
  {
    assert '/' !in s && '.' !in s && s[..|s|] == s;
    SplitPlain(s);
    StemOf(s, |s|);
    assert forall i :: 0 <= i < |s| ==> s[i] in s;
    assert FoldCase(s)[0] == 'x';
    hide Stem, Split, FoldCase;
    NotADevice(FoldCase(s));
  }

  // ---------------------------------------------------------------- collisions

  /** `a` names a directory that `b` would need: its segments are a proper prefix of b's. */
  predicate IsProperSegmentPrefix(a: string, b: string) {
    |Split(a)| < |Split(b)| && Split(b)[..|Split(a)|] == Split(a)
  }

  /** The pairwise rule: no two names fold together, and none is a directory of another. */
  ghost predicate NoCollisions(paths: seq<string>) {
    forall i, j :: 0 <= i < |paths| && 0 <= j < |paths| && i != j ==>
      && FoldCase(paths[i]) != FoldCase(paths[j])
      && !IsProperSegmentPrefix(FoldCase(paths[i]), FoldCase(paths[j]))
  }

  function FoldAll(segments: seq<string>): (r: seq<string>)
    ensures |r| == |segments| && forall i :: 0 <= i < |r| ==> r[i] == FoldCase(segments[i])
  {
    seq(|segments|, i requires 0 <= i < |segments| => FoldCase(segments[i]))
  }

  lemma FoldConcat(a: string, b: string)
    ensures FoldCase(a + b) == FoldCase(a) + FoldCase(b)
  {
  }

  lemma {:induction false} FoldJoin(segments: seq<string>)
    requires |segments| >= 1
    ensures FoldCase(Join(segments, "/")) == Join(FoldAll(segments), "/")
  {
    if |segments| > 1 {
      FoldJoin(segments[1..]);
      assert FoldAll(segments)[1..] == FoldAll(segments[1..]);
      FoldConcat(segments[0], "/");
      FoldConcat(segments[0] + "/", Join(segments[1..], "/"));
      assert FoldCase("/") == "/";
    } else {
      assert FoldAll(segments) == [FoldCase(segments[0])];
    }
  }

  lemma FoldNoSlash(s: string)
    requires '/' !in s
    ensures '/' !in FoldCase(s)
  {
  }

  /** Folding and splitting commute. */
  lemma SplitFold(s: string)
    ensures Split(FoldCase(s)) == FoldAll(Split(s))
  {
    var segments := Split(s);
    JoinSplit(s);
    FoldJoin(segments);
    forall i | 0 <= i < |segments| ensures '/' !in FoldAll(segments)[i] { FoldNoSlash(segments[i]); }
    SplitJoin(FoldAll(segments));
  }

  /** The key that the second loop looks up is a's key exactly when a is that prefix of b. */
  lemma PrefixKey(a: string, b: string, index: nat)
    requires 1 <= index < |Split(b)|
    ensures |Split(FoldCase(b))| == |Split(b)|
    ensures FoldCase(Join(Split(b)[..index], "/")) == FoldCase(a)
       <==> Split(FoldCase(b))[..index] == Split(FoldCase(a))
  {
    hide Split, Join;
    var prefix := Split(b)[..index];
    SplitFold(b);
    FoldJoin(prefix);
    assert FoldAll(prefix) == FoldAll(Split(b))[..index];
    forall i | 0 <= i < |prefix| ensures '/' !in FoldAll(prefix)[i] { FoldNoSlash(prefix[i]); }
    SplitJoin(FoldAll(prefix));
    JoinSplit(FoldCase(a));
  }

  /** The two one-pass loops over a hash map decide the pairwise rule. */
  method AssertNoPortablePathCollisions(paths: seq<string>) returns (ok: bool)
    ensures ok <==> (forall i :: 0 <= i < |paths| ==> IsHrpPath(paths[i])) && NoCollisions(paths)
  {
    hide Split, Join, FoldCase, IsHrpPath, IsProperSegmentPrefix;
    for i := 0 to |paths|
      invariant forall k :: 0 <= k < i ==> IsHrpPath(paths[k])
    {
      if NormalizeHrpPath(paths[i]).Rejected? { return false; }
    }
    var filesByKey: map<string, string> := map[];
    ghost var index: map<string, nat> := map[];
    for i := 0 to |paths|
      invariant IndexOf(paths[..i], filesByKey, index)
    {
      var key := FoldCase(paths[i]);
      if key in filesByKey {
        assert paths[..i][index[key]] == paths[index[key]];
        return false;
      }
      filesByKey := filesByKey[key := paths[i]];
      index := index[key := i];
      assert paths[..i + 1] == paths[..i] + [paths[i]];
    }
    assert paths[..|paths|] == paths;
    for i := 0 to |paths|
      invariant forall a, b :: 0 <= a < |paths| && 0 <= b < i ==>
                  !IsProperSegmentPrefix(FoldCase(paths[a]), FoldCase(paths[b]))
    {
      var clear := NoPrefixIn(paths, filesByKey, index, i);
      if !clear { return false; }
    }
    ok := true;
  }

  /** The map built by the first loop, with the position of the path behind each key. */
  ghost predicate IndexOf(paths: seq<string>, filesByKey: map<string, string>, index: map<string, nat>) {
    && index.Keys == filesByKey.Keys
    && (forall k :: 0 <= k < |paths| ==> FoldCase(paths[k]) in index && index[FoldCase(paths[k])] == k)
    && (forall key :: key in index ==> index[key] < |paths| && FoldCase(paths[index[key]]) == key)
  }

  /** The inner loop over the directories of one path. */
  method NoPrefixIn(paths: seq<string>, filesByKey: map<string, string>, ghost index: map<string, nat>, i: nat)
    returns (clear: bool)
    requires IndexOf(paths, filesByKey, index) && i < |paths|
    ensures clear ==> forall a :: 0 <= a < |paths| ==> !IsProperSegmentPrefix(FoldCase(paths[a]), FoldCase(paths[i]))
    ensures !clear ==> exists a :: 0 <= a < |paths| && a != i && IsProperSegmentPrefix(FoldCase(paths[a]), FoldCase(paths[i]))
  {
    hide Split, Join, FoldCase;
    var segments := Split(paths[i]);
    ghost var folded := Split(FoldCase(paths[i]));
    assert |folded| == |segments| by { SplitFold(paths[i]); }
    for length := 1 to |segments|
      invariant forall a :: 0 <= a < |paths| && |Split(FoldCase(paths[a]))| < length ==>
                  folded[..|Split(FoldCase(paths[a]))|] != Split(FoldCase(paths[a]))
    {
      var key := FoldCase(Join(segments[..length], "/"));
      if key in filesByKey {
        ghost var a := index[key];
        PrefixKey(paths[a], paths[i], length);
        assert IsProperSegmentPrefix(FoldCase(paths[a]), FoldCase(paths[i]));
        return false;
      }
      forall a | 0 <= a < |paths| && |Split(FoldCase(paths[a]))| == length
        ensures folded[..length] != Split(FoldCase(paths[a]))
      {
        PrefixKey(paths[a], paths[i], length);
      }
    }
    clear := true;
  }
}
