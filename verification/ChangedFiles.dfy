/**
 * The changed-file coverage digest: a list of file names is trimmed, sorted and rid of blanks and
 * duplicates, joined with line breaks and hashed.
 */
module ChangedFiles {

  import opened Sorting
  import opened Texts
  import opened Utf16
  import Sha256
  import Sha256Spec

  /** The names that matter: trimmed, and not blank. */
  ghost function Names(files: seq<string>): set<string> {
    set f | f in files && Trim(f) != "" :: Trim(f)
  }

  /** The distinct names in the order in which they are first met: the order of a JavaScript Set. */
  function Unique(files: seq<string>): (r: seq<string>)
    ensures forall i, j :: 0 <= i < j < |r| ==> r[i] != r[j]
    ensures forall x :: x in r <==> x in Names(files)
  {
    if files == [] then []
    else
      var n := |files| - 1;
      var unique, name := Unique(files[..n]), Trim(files[n]);
      assert forall f :: f in files <==> f in files[..n] || f == files[n];
      if name == "" || name in unique then unique else unique + [name]
  }

  function Canonical(files: seq<string>): seq<string> {
    StableSort(Unique(files), JsOrder())
  }

  /** `canonicalChangedFiles`, over the entries that are strings. */
  method CanonicalChangedFiles(files: seq<string>) returns (r: seq<string>)
    ensures r == Canonical(files)
  {
    var unique: seq<string> := [];
    for i := 0 to |files|
      invariant unique == Unique(files[..i])
    {
      assert files[..i + 1][..i] == files[..i];
      var normalized := Trim(files[i]);
      if normalized != "" && normalized !in unique {
        unique := unique + [normalized];
      }
    }
    assert files[..|files|] == files;
    r := StableSort(unique, JsOrder());
  }

  /** The canonical list is the sorted list of exactly the names, each once. */
  lemma CanonicalIs(files: seq<string>)
    ensures SortedBy(Canonical(files), JsOrder())
    ensures forall x :: x in Canonical(files) <==> x in Names(files)
    ensures forall i, j :: 0 <= i < j < |Canonical(files)| ==> Canonical(files)[i] != Canonical(files)[j]
    ensures |Canonical(files)| == |Names(files)|
  {
    var unique := Unique(files);
    JsOrderTotal();
    SortSorted(unique, JsOrder());
    SortMembers(unique, JsOrder());
    SortPermutes(unique, JsOrder());
    DistinctPermuted(unique, Canonical(files));
    hide StableSort, Unique;
    DistinctSize(Canonical(files), Names(files));
  }

  lemma {:induction false} DistinctSize(s: seq<string>, members: set<string>)
    requires forall i, j :: 0 <= i < j < |s| ==> s[i] != s[j]
    requires forall x :: x in s <==> x in members
    ensures |s| == |members|
  {
    if s == [] {
      assert members == {};
    } else {
      var n := |s| - 1;
      assert forall x :: x in s[..n] <==> x in members && x != s[n];
      DistinctSize(s[..n], members - {s[n]});
    }
  }

  datatype Coverage = Coverage(digest: string, count: nat)

  function Digest(canonical: seq<string>): string {
    Sha256Spec.TextDigest(Join(canonical, "\n"))
  }

  /** `changedFileCoverageDigest` */
  method ChangedFileCoverageDigest(files: seq<string>) returns (c: Coverage)
    ensures c == Coverage(Digest(Canonical(files)), |Names(files)|)
  {
    var canonical := CanonicalChangedFiles(files);
    CanonicalIs(files);
    var digest := Sha256.Sha256Hex(Join(canonical, "\n"));
    c := Coverage(digest, |canonical|);
  }

  /** Lists with the same names, in whatever order and however often, have one canonical list. */
  lemma SameNamesSameList(a: seq<string>, b: seq<string>)
    ensures Names(a) == Names(b) <==> Canonical(a) == Canonical(b)
  {
    CanonicalIs(a);
    CanonicalIs(b);
    hide Canonical, Names;
    var x, y := Canonical(a), Canonical(b);
    if Names(a) == Names(b) {
      UniqueMultiset(x, y);
      forall p, q | p in x && q in x && JsOrder()(p, q) && JsOrder()(q, p)
        ensures p == q
      {
        JsOrderAntisymmetric(p, q);
      }
      SortedUnique(x, y, JsOrder());
    }
  }

  predicate OneLine(s: string) {
    '\n' !in s
  }

  /** The first line break of a text ends its first line. */
  lemma BreakAt(line: string, rest: string)
    requires OneLine(line)
    ensures var text := line + "\n" + rest;
      && text[|line|] == '\n' && (forall k :: 0 <= k < |line| ==> text[k] != '\n')
      && text[..|line|] == line && text[|line| + 1..] == rest
  {
    var text := line + "\n" + rest;
    assert forall k :: 0 <= k < |line| ==> text[k] == line[k];
  }

  lemma FirstLine(a: string, b: string, restA: string, restB: string)
    requires OneLine(a) && OneLine(b) && a + "\n" + restA == b + "\n" + restB
    ensures a == b && restA == restB
  {
    BreakAt(a, restA);
    BreakAt(b, restB);
  }

  lemma JoinShape(lines: seq<string>)
    requires forall s :: s in lines ==> OneLine(s) && s != ""
    ensures lines == [] <==> Join(lines, "\n") == ""
    ensures |lines| == 1 ==> Join(lines, "\n") == lines[0]
    ensures |lines| <= 1 <==> OneLine(Join(lines, "\n"))
  {
    if |lines| > 1 {
      var text := lines[0] + "\n" + Join(lines[1..], "\n");
      assert text[|lines[0]|] == '\n';
    } else if |lines| == 1 {
      assert lines[0] in lines;
    }
  }

  /** Names without line breaks can be read back from the hashed text. */
  lemma {:induction false} LinesReadBack(a: seq<string>, b: seq<string>)
    requires forall s :: s in a || s in b ==> OneLine(s) && s != ""
    requires Join(a, "\n") == Join(b, "\n")
    ensures a == b
  {
    JoinShape(a);
    JoinShape(b);
    if |a| > 1 && |b| > 1 {
      assert a[0] in a && b[0] in b;
      FirstLine(a[0], b[0], Join(a[1..], "\n"), Join(b[1..], "\n"));
      LinesReadBack(a[1..], b[1..]);
      assert a == [a[0]] + a[1..] && b == [b[0]] + b[1..];
    }
  }

  /** When no name has a line break inside, the hashed text and the set of names determine each other. */
  lemma TextDeterminesNames(a: seq<string>, b: seq<string>)
    requires forall s :: s in Names(a) || s in Names(b) ==> OneLine(s)
    ensures Join(Canonical(a), "\n") == Join(Canonical(b), "\n") <==> Names(a) == Names(b)
  {
    SameNamesSameList(a, b);
    CanonicalIs(a);
    CanonicalIs(b);
    if Join(Canonical(a), "\n") == Join(Canonical(b), "\n") {
      hide Canonical, Join;
      LinesReadBack(Canonical(a), Canonical(b));
    }
  }

  // ---------------------------------------------------------------- lists that share a text

  /** Is there another set of as many names with the same hashed text? */
  ghost predicate SharesText(files: seq<string>) {
    exists other ::
      && |Names(other)| == |Names(files)| && Names(other) != Names(files)
      && Join(Canonical(other), "\n") == Join(Canonical(files), "\n")
  }

  lemma {:induction false} LineBreakCount(lines: seq<string>)
    requires lines != []
    ensures Breaks(Join(lines, "\n")) >= |lines| - 1
    ensures Breaks(Join(lines, "\n")) == |lines| - 1 <==> forall s :: s in lines ==> OneLine(s)
  {
    if |lines| == 1 {
      NoBreaks(lines[0]);
    } else {
      LineBreakCount(lines[1..]);
      NoBreaks(lines[0]);
      var rest := Join(lines[1..], "\n");
      BreaksConcat(lines[0] + "\n", rest);
      BreaksConcat(lines[0], "\n");
      assert "\n"[..0] == "" && Breaks("\n") == 1;
      assert forall s :: s in lines <==> s == lines[0] || s in lines[1..];
    }
  }

  function Breaks(text: string): nat {
    if text == "" then 0 else Breaks(text[..|text| - 1]) + if text[|text| - 1] == '\n' then 1 else 0
  }

  lemma {:induction false} NoBreaks(text: string)
    ensures Breaks(text) == 0 <==> OneLine(text)
  {
    if text != "" {
      NoBreaks(text[..|text| - 1]);
    }
  }

  lemma {:induction false} BreaksConcat(a: string, b: string)
    ensures Breaks(a + b) == Breaks(a) + Breaks(b)
  {
    if b == "" {
      assert a + b == a;
    } else {
      var n := |b| - 1;
      assert (a + b)[..|a| + n] == a + b[..n];
      BreaksConcat(a, b[..n]);
    }
  }

  /**
   * When the names of one list have no line breaks inside, or there is only one name, no other set of as
   * many names shares its text, whatever line breaks those have: text and count determine the names.
   */
  lemma CountAndTextDetermine(files: seq<string>)
    requires (forall s :: s in Names(files) ==> OneLine(s)) || |Names(files)| <= 1
    ensures !SharesText(files)
  {
    var a := Canonical(files);
    CanonicalIs(files);
    forall other | |Names(other)| == |Names(files)| && Join(Canonical(other), "\n") == Join(a, "\n")
      ensures Names(other) == Names(files)
    {
      var b := Canonical(other);
      CanonicalIs(other);
      SameNamesSameList(files, other);
      hide Canonical, Names;
      if |a| > 1 {
        LineBreakCount(a);
        LineBreakCount(b);
        NamesNotEmpty(files);
        NamesNotEmpty(other);
        LinesReadBack(a, b);
      }
      assert |a| <= 1 ==> a == b;
    }
  }

  lemma NamesNotEmpty(files: seq<string>)
    ensures "" !in Names(files)
  {
  }

  /** A list that is its own canonical list. */
  predicate IsCanonical(names: seq<string>) {
    && (forall s :: s in names ==> Trim(s) == s && s != "")
    && (forall i, j :: 0 <= i < j < |names| ==> JsOrder()(names[i], names[j]) && names[i] != names[j])
  }

  lemma CanonicalOfCanonical(names: seq<string>)
    requires IsCanonical(names)
    ensures Canonical(names) == names
  {
    UniqueOfDistinct(names);
    SortOfSorted(names, JsOrder());
  }

  lemma {:induction false} UniqueOfDistinct(names: seq<string>)
    requires IsCanonical(names)
    ensures Unique(names) == names
  {
    if names != [] {
      hide Trim, JsOrder;
      var n, last := |names| - 1, names[|names| - 1];
      assert last in names && last !in names[..n];
      CanonicalPrefix(names, n);
      hide IsCanonical;
      UniqueOfDistinct(names[..n]);
    }
  }

  lemma CanonicalPrefix(names: seq<string>, n: nat)
    requires IsCanonical(names) && n <= |names|
    ensures IsCanonical(names[..n])
  {
    hide Trim, JsOrder;
    assert forall s :: s in names[..n] ==> s in names;
  }

  lemma CanonicalIsCanonical(files: seq<string>)
    ensures IsCanonical(Canonical(files))
  {
    CanonicalIs(files);
    var c := Canonical(files);
    hide Canonical;
    forall s | s in c
      ensures Trim(s) == s && s != ""
    {
      var f :| f in files && Trim(f) != "" && Trim(f) == s;
      TrimTwice(f);
    }
  }

  predicate IsBreak(text: string, at: nat) {
    at < |text| && text[at] == '\n'
  }

  /** Do these lengths, one after the other, each end at a line break of the text? */
  predicate CutsAt(text: string, lengths: seq<nat>) {
    lengths == []
    || (IsBreak(text, lengths[0]) && CutsAt(text[lengths[0] + 1..], lengths[1..]))
  }

  /** The text cut at those line breaks. */
  function Pieces(text: string, lengths: seq<nat>): (r: seq<string>)
    requires CutsAt(text, lengths)
    ensures |r| == |lengths| + 1
  {
    if lengths == [] then [text] else [text[..lengths[0]]] + Pieces(text[lengths[0] + 1..], lengths[1..])
  }

  lemma {:induction false} PiecesJoin(text: string, lengths: seq<nat>)
    requires CutsAt(text, lengths)
    ensures Join(Pieces(text, lengths), "\n") == text
  {
    if lengths != [] {
      var n := lengths[0];
      PiecesJoin(text[n + 1..], lengths[1..]);
      JoinCons(text[..n], Pieces(text[n + 1..], lengths[1..]), "\n");
      assert text == text[..n] + "\n" + text[n + 1..];
    }
  }

  lemma {:induction false} JoinPieces(parts: seq<string>) returns (lengths: seq<nat>)
    requires parts != []
    ensures |lengths| + 1 == |parts| && CutsAt(Join(parts, "\n"), lengths)
    ensures Pieces(Join(parts, "\n"), lengths) == parts
  {
    if |parts| == 1 {
      lengths := [];
    } else {
      var rest := Join(parts[1..], "\n");
      var tail := JoinPieces(parts[1..]);
      lengths := [|parts[0]|] + tail;
      var text := Join(parts, "\n");
      assert text == parts[0] + "\n" + rest;
      assert text[..|parts[0]|] == parts[0] && text[|parts[0]| + 1..] == rest;
      assert lengths[1..] == tail && parts == [parts[0]] + parts[1..];
    }
  }

  /** Can the text be cut at other line breaks, into as many names in canonical form? */
  ghost predicate CutsOtherwise(text: string, names: seq<string>) {
    exists lengths ::
      && CutsAt(text, lengths) && |lengths| + 1 == |names|
      && IsCanonical(Pieces(text, lengths)) && Pieces(text, lengths) != names
  }

  /**
   * Exactly when a list shares its digest text and count with another set of names: when that text can
   * be cut at other line breaks of its own, into as many trimmed names in strictly ascending order.
   */
  lemma SharesTextExactly(files: seq<string>)
    ensures SharesText(files) <==> CutsOtherwise(Join(Canonical(files), "\n"), Canonical(files))
  {
    var names := Canonical(files);
    var text := Join(names, "\n");
    CanonicalIs(files);
    hide Canonical, Names;
    if SharesText(files) {
      var other :| |Names(other)| == |Names(files)| && Names(other) != Names(files)
                   && Join(Canonical(other), "\n") == text;
      CanonicalIs(other);
      SameNamesSameList(files, other);
      CanonicalIsCanonical(other);
      var lengths := JoinPieces(Canonical(other));
      assert CutsAt(text, lengths);
    }
    if CutsOtherwise(text, names) {
      var lengths :| CutsAt(text, lengths) && |lengths| + 1 == |names|
                     && IsCanonical(Pieces(text, lengths)) && Pieces(text, lengths) != names;
      var other := Pieces(text, lengths);
      PiecesJoin(text, lengths);
      CanonicalOfCanonical(other);
      CanonicalIs(other);
      SameNamesSameList(files, other);
      assert Join(Canonical(other), "\n") == text;
    }
  }

  /** It happens: two different sets of two names with one digest and one count. */
  lemma LineBreaksCollide()
    ensures var (a, b) := (["a\nb", "c"], ["a", "b\nc"]);
      && Canonical(a) == a && Canonical(b) == b
      && Names(a) != Names(b) && |Names(a)| == |Names(b)| == 2
      && Digest(Canonical(a)) == Digest(Canonical(b))
  {
    hide Canonical, Names, Digest, JsOrder;
    TwoNames("a\nb", "c");
    TwoNames("a", "b\nc");
    CanonicalIs(["a\nb", "c"]);
    CanonicalIs(["a", "b\nc"]);
    assert "c" in ["a\nb", "c"] && "c" !in ["a", "b\nc"];
    SameJoin();
    SameDigest(["a\nb", "c"], ["a", "b\nc"]);
  }

  lemma SameJoin()
    ensures Join(["a\nb", "c"], "\n") == Join(["a", "b\nc"], "\n")
  {
    assert ["a\nb", "c"][1..] == ["c"] && ["a", "b\nc"][1..] == ["b\nc"];
    assert "a\nb" + "\n" + "c" == "a" + "\n" + "b\nc";
  }

  lemma SameDigest(a: seq<string>, b: seq<string>)
    requires Join(a, "\n") == Join(b, "\n")
    ensures Digest(a) == Digest(b)
  {
  }

  /** Two names in alphabetical order, neither beginning nor ending with a blank. */
  lemma TwoNames(x: string, y: string)
    requires x != "" && y != "" && x[0] < y[0] && (y[0] as int) < 0x1_0000
    requires !Blank(x[0]) && !Blank(x[|x| - 1]) && !Blank(y[0]) && !Blank(y[|y| - 1])
    ensures Canonical([x, y]) == [x, y]
  {
    NothingToTrim(x);
    NothingToTrim(y);
    FirstUnitOrders(x, y);
    hide Trim, JsOrder, Canonical, Blank;
    assert IsCanonical([x, y]);
    CanonicalOfCanonical([x, y]);
  }

  lemma NothingToTrim(s: string)
    requires s != "" && !Blank(s[0]) && !Blank(s[|s| - 1])
    ensures Trim(s) == s
  {
    hide Blank;
  }

  lemma FirstUnitOrders(x: string, y: string)
    requires x != "" && y != "" && x[0] < y[0] && (y[0] as int) < 0x1_0000
    ensures JsOrder()(x, y) && x != y
  {
    assert Units(x)[0] == x[0] as int && Units(y)[0] == y[0] as int;
  }
}
