/** Taking items one after the other as long as the result fits, from the front or from the back. */
module GreedyPacking {

  /** Try each item, first to last, at the end of what was kept so far. */
  function Greedy<T>(items: seq<T>, fits: seq<T> -> bool): (kept: seq<T>)
    ensures |kept| <= |items|
  {
    if items == [] then []
    else
      var n := |items| - 1;
      var kept := Greedy(items[..n], fits);
      if fits(kept + [items[n]]) then kept + [items[n]] else kept
  }

  /** Try each item, last to first, in front of what was kept so far. */
  function GreedyBack<T>(items: seq<T>, fits: seq<T> -> bool): (kept: seq<T>)
    ensures |kept| <= |items|
  {
    if items == [] then []
    else
      var kept := GreedyBack(items[1..], fits);
      if fits([items[0]] + kept) then [items[0]] + kept else kept
  }

  /** `a` is `b` without some of its items. */
  predicate Subsequence<T(==)>(a: seq<T>, b: seq<T>) {
    if a == [] then true
    else if b == [] then false
    else (a[0] == b[0] && Subsequence(a[1..], b[1..])) || Subsequence(a, b[1..])
  }

  lemma {:induction false} SubsequenceAppend<T>(a: seq<T>, b: seq<T>, x: T)
    requires Subsequence(a, b)
    ensures Subsequence(a, b + [x]) && Subsequence(a + [x], b + [x])
  {
    if b == [] {
      assert a == [];
      assert [x][1..] == [] && a + [x] == [x] && b + [x] == [x];
    } else {
      assert (b + [x])[1..] == b[1..] + [x];
      if a == [] {
        SubsequenceAppend([], b[1..], x);
      } else if a[0] == b[0] && Subsequence(a[1..], b[1..]) {
        SubsequenceAppend(a[1..], b[1..], x);
        assert (a + [x])[1..] == a[1..] + [x];
      } else {
        SubsequenceAppend(a, b[1..], x);
      }
    }
  }

  lemma {:induction false} SubsequenceMembers<T>(a: seq<T>, b: seq<T>)
    requires Subsequence(a, b)
    ensures |a| <= |b| && forall x :: x in a ==> x in b
  {
    if a != [] {
      assert forall x :: x in a ==> x == a[0] || x in a[1..];
      if a[0] == b[0] && Subsequence(a[1..], b[1..]) {
        SubsequenceMembers(a[1..], b[1..]);
      } else {
        SubsequenceMembers(a, b[1..]);
      }
    }
  }

  /** A relation that holds between all earlier and later items is kept. */
  lemma {:induction false} SubsequenceOrdered<T>(a: seq<T>, b: seq<T>, before: (T, T) -> bool)
    requires Subsequence(a, b) && forall i, j :: 0 <= i < j < |b| ==> before(b[i], b[j])
    ensures forall i, j :: 0 <= i < j < |a| ==> before(a[i], a[j])
  {
    if a != [] {
      if a[0] == b[0] && Subsequence(a[1..], b[1..]) {
        SubsequenceOrdered(a[1..], b[1..], before);
        SubsequenceMembers(a[1..], b[1..]);
        forall j | 0 < j < |a|
          ensures before(a[0], a[j])
        {
          assert a[j] == a[1..][j - 1] && a[1..][j - 1] in b[1..];
          var k :| 0 <= k < |b[1..]| && b[1..][k] == a[j];
          assert b[k + 1] == a[j];
        }
      } else {
        SubsequenceOrdered(a, b[1..], before);
      }
    }
  }

  lemma {:induction false} GreedySubsequence<T>(items: seq<T>, fits: seq<T> -> bool)
    ensures Subsequence(Greedy(items, fits), items)
  {
    if items != [] {
      var n := |items| - 1;
      GreedySubsequence(items[..n], fits);
      SubsequenceAppend(Greedy(items[..n], fits), items[..n], items[n]);
      assert items == items[..n] + [items[n]];
    }
  }

  lemma {:induction false} GreedyBackSubsequence<T>(items: seq<T>, fits: seq<T> -> bool)
    ensures Subsequence(GreedyBack(items, fits), items)
  {
    if items != [] {
      GreedyBackSubsequence(items[1..], fits);
    }
  }

  /** What is kept fits, if the empty selection does. */
  lemma {:induction false} GreedyFits<T>(items: seq<T>, fits: seq<T> -> bool)
    requires fits([])
    ensures fits(Greedy(items, fits))
  {
    if items != [] {
      GreedyFits(items[..|items| - 1], fits);
    }
  }

  lemma {:induction false} GreedyBackFits<T>(items: seq<T>, fits: seq<T> -> bool)
    requires fits([])
    ensures fits(GreedyBack(items, fits))
  {
    if items != [] {
      GreedyBackFits(items[1..], fits);
    }
  }

  /** When every prefix fits, everything is kept. */
  lemma {:induction false} GreedyAll<T>(items: seq<T>, fits: seq<T> -> bool)
    requires forall k :: 0 < k <= |items| ==> fits(items[..k])
    ensures Greedy(items, fits) == items
  {
    if items != [] {
      var n := |items| - 1;
      forall k | 0 < k <= n
        ensures fits(items[..n][..k])
      {
        assert items[..n][..k] == items[..k];
      }
      GreedyAll(items[..n], fits);
      assert items[..n] + [items[n]] == items[..n + 1] == items;
    }
  }

  lemma {:induction false} GreedyBackAll<T>(items: seq<T>, fits: seq<T> -> bool)
    requires forall k :: 0 <= k < |items| ==> fits(items[k..])
    ensures GreedyBack(items, fits) == items
  {
    if items != [] {
      forall k | 0 <= k < |items[1..]|
        ensures fits(items[1..][k..])
      {
        assert items[1..][k..] == items[k + 1..];
      }
      GreedyBackAll(items[1..], fits);
      assert [items[0]] + items[1..] == items[0..] == items;
    }
  }

  /**
   * An item is left out only because it did not fit when it was tried: `kept` is what had been kept
   * before it, and stays the beginning of what is kept in the end.
   */
  lemma {:induction false} LeftOut<T>(items: seq<T>, fits: seq<T> -> bool, k: nat)
    requires k < |items|
    ensures var kept := Greedy(items[..k], fits);
      && kept <= Greedy(items, fits)
      && (kept + [items[k]] <= Greedy(items, fits) || !fits(kept + [items[k]]))
  {
    var n := |items| - 1;
    if k == n {
      assert items[..n + 1] == items;
    } else {
      assert items[..n][..k] == items[..k];
      LeftOut(items[..n], fits, k);
    }
  }

  /** Likewise from the back: what had been kept stays the end of what is kept. */
  lemma {:induction false} LeftOutBack<T>(items: seq<T>, fits: seq<T> -> bool, k: nat)
    requires k < |items|
    ensures var kept, all := GreedyBack(items[k + 1..], fits), GreedyBack(items, fits);
      && |kept| <= |all| && all[|all| - |kept|..] == kept
      && (!fits([items[k]] + kept) || (|kept| < |all| && all[|all| - |kept| - 1..] == [items[k]] + kept))
  {
    if k > 0 {
      assert items[1..][k..] == items[k + 1..];
      LeftOutBack(items[1..], fits, k - 1);
    }
  }
}

/**
 * The bounded review evidence projection: findings in order of severity, then diagnostics from the newest
 * back, each kept when the projection with it still fits into 65536 bytes.
 */
module EvidencePacking {

  import opened Decimals
  import opened GreedyPacking
  import opened Options
  import opened Sorting
  import opened Texts
  import opened Utf8

  const MAX_FINDINGS := 50
  const MAX_DIAGNOSTICS := 8
  const MAX_BYTES := 65536
  const MAX_REVIEWER := 256

  datatype Severity = Critical | High | Medium | Low

  /** A normalized finding; `text` is its JSON text. */
  datatype Finding = Finding(id: string, severity: Severity, text: string)

  datatype Diagnostic = Diagnostic(text: string)

  /** Items as they come in, by their JSON text. */
  type Raw = string

  /** The normalizers, and the JSON text of a string. */
  datatype Rules = Rules(normalize: Raw -> Option<Finding>, sanitize: Raw -> Option<Diagnostic>,
                         quote: string -> string)

  /** What a normalizer returns is a JSON object that it accepts again. */
  ghost predicate Sane(rules: Rules) {
    && (forall raw :: rules.normalize(raw).Some? ==>
          var text := rules.normalize(raw).value.text; |text| >= 2 && rules.normalize(text).Some?)
    && (forall raw :: rules.sanitize(raw).Some? ==>
          var text := rules.sanitize(raw).value.text; |text| >= 2 && rules.sanitize(text).Some?)
  }

  datatype Input = Input(reviewer: string, findings: seq<Raw>, diagnostics: seq<Raw>, attestation: Option<string>)

  datatype Projection = Projection(reviewer: string, accepted: seq<Finding>, diagnostics: seq<Diagnostic>,
                                   attestation: Option<string>, truncated: bool,
                                   omittedFindings: nat, omittedDiagnostics: nat)

  // ---------------------------------------------------------------- the size of a projection

  function FindingTexts(findings: seq<Finding>): (r: seq<string>)
    ensures |r| == |findings|
  {
    seq(|findings|, i requires 0 <= i < |findings| => findings[i].text)
  }

  function DiagnosticTexts(diagnostics: seq<Diagnostic>): (r: seq<string>)
    ensures |r| == |diagnostics|
  {
    seq(|diagnostics|, i requires 0 <= i < |diagnostics| => diagnostics[i].text)
  }

  function Head(rules: Rules, reviewer: string): string {
    "{\"schema\":\"review-evidence-projection-v1\",\"reviewer\":" + rules.quote(reviewer) + ",\"accepted_findings\":["
  }

  function Middle(attestation: Option<string>): string {
    "],\"coverage_attestation\":" + (if attestation.Some? then attestation.value else "null")
    + ",\"projection_truncated\":"
  }

  /** `JSON.stringify(projection)` */
  function Text(rules: Rules, p: Projection): string {
    Head(rules, p.reviewer) + (Join(FindingTexts(p.accepted), ",")
    + ("],\"attempt_diagnostics\":[" + (Join(DiagnosticTexts(p.diagnostics), ",")
    + (Middle(p.attestation) + ((if p.truncated then "true" else "false")
    + (",\"omitted_findings\":" + (Decimal(p.omittedFindings)
    + (",\"omitted_diagnostics\":" + (Decimal(p.omittedDiagnostics) + "}")))))))))
  }

  /** The text of a projection, for two findings and a diagnostic. */
  lemma TextOfTwo(rules: Rules, name: string, a: Finding, b: Finding, d: Diagnostic, omitted: nat)
    ensures Text(rules, Projection(name, [a, b], [d], None, true, omitted, 0))
      == ("{\"schema\":\"review-evidence-projection-v1\",\"reviewer\":" + rules.quote(name) + ",\"accepted_findings\":[")
         + ((a.text + "," + b.text) + ("],\"attempt_diagnostics\":[" + (d.text
         + (("],\"coverage_attestation\":" + "null" + ",\"projection_truncated\":") + ("true"
         + (",\"omitted_findings\":" + (Decimal(omitted) + (",\"omitted_diagnostics\":" + ("0" + "}")))))))))
  {
    var p := Projection(name, [a, b], [d], None, true, omitted, 0);
    assert FindingTexts(p.accepted) == [a.text] + [b.text] && DiagnosticTexts(p.diagnostics) == [d.text];
    JoinCons(a.text, [b.text], ",");
    assert Join([b.text], ",") == b.text && Join([d.text], ",") == d.text;
    assert Decimal(0) == "0";
    hide Join, Decimal;
  }

  function Size(rules: Rules, p: Projection): nat {
    |Encode(Text(rules, p))|
  }

  function Total(texts: seq<string>): nat {
    if texts == [] then 0 else ByteLength(texts[0]) + Total(texts[1..])
  }

  /** The bytes of a list without its brackets. */
  function ListBytes(texts: seq<string>): nat {
    Total(texts) + if texts == [] then 0 else |texts| - 1
  }

  lemma CommaBytes()
    ensures ByteLength(",") == 1
  {
    EncodeAscii(",");
  }

  lemma {:induction false} JoinedBytes(texts: seq<string>)
    ensures ByteLength(Join(texts, ",")) == ListBytes(texts)
  {
    hide Encode;
    if texts == [] {
      EncodeAscii("");
    } else if |texts| == 1 {
      assert texts[1..] == [] && Total(texts[1..]) == 0;
    } else {
      JoinedBytes(texts[1..]);
      CommaBytes();
      EncodeConcat(texts[0] + ",", Join(texts[1..], ","));
      EncodeConcat(texts[0], ",");
    }
  }

  lemma {:induction false} TotalAppend(texts: seq<string>, text: string)
    ensures Total(texts + [text]) == Total(texts) + ByteLength(text)
  {
    hide ByteLength;
    if texts == [] {
      assert texts + [text] == [text] && [text][1..] == [];
    } else {
      assert (texts + [text])[1..] == texts[1..] + [text];
      TotalAppend(texts[1..], text);
    }
  }

  /** What the size is made of, apart from the items, the flag and the two counts. */
  function Frame(rules: Rules, reviewer: string, attestation: Option<string>): nat {
    ByteLength(Head(rules, reviewer)) + ByteLength("],\"attempt_diagnostics\":[") + ByteLength(Middle(attestation))
    + ByteLength(",\"omitted_findings\":") + ByteLength(",\"omitted_diagnostics\":") + ByteLength("}")
  }

  lemma BytesConcat(a: string, b: string)
    ensures ByteLength(a + b) == ByteLength(a) + ByteLength(b)
  {
    EncodeConcat(a, b);
  }

  lemma FlagAndCounts(truncated: bool, n: nat)
    ensures ByteLength(if truncated then "true" else "false") == if truncated then 4 else 5
    ensures ByteLength(Decimal(n)) == Digits(n)
  {
    EncodeAscii("true");
    EncodeAscii("false");
    DecimalAscii(n);
    EncodeAscii(Decimal(n));
  }

  lemma SizeIs(rules: Rules, p: Projection)
    ensures Size(rules, p) == Frame(rules, p.reviewer, p.attestation) + ListBytes(FindingTexts(p.accepted))
                              + ListBytes(DiagnosticTexts(p.diagnostics)) + (if p.truncated then 4 else 5)
                              + Digits(p.omittedFindings) + Digits(p.omittedDiagnostics)
  {
    var flag := if p.truncated then "true" else "false";
    var list, list' := Join(FindingTexts(p.accepted), ","), Join(DiagnosticTexts(p.diagnostics), ",");
    var n, n' := Decimal(p.omittedFindings), Decimal(p.omittedDiagnostics);
    FlagAndCounts(p.truncated, p.omittedFindings);
    FlagAndCounts(p.truncated, p.omittedDiagnostics);
    JoinedBytes(FindingTexts(p.accepted));
    JoinedBytes(DiagnosticTexts(p.diagnostics));
    hide ByteLength, Decimal, Join, ListBytes, Head, Middle, Digits, FindingTexts, DiagnosticTexts;
    var t9 := n' + "}";
    BytesConcat(n', "}");
    var t8 := ",\"omitted_diagnostics\":" + t9;
    BytesConcat(",\"omitted_diagnostics\":", t9);
    var t7 := n + t8;
    BytesConcat(n, t8);
    var t6 := ",\"omitted_findings\":" + t7;
    BytesConcat(",\"omitted_findings\":", t7);
    var t5 := flag + t6;
    BytesConcat(flag, t6);
    var t4 := Middle(p.attestation) + t5;
    BytesConcat(Middle(p.attestation), t5);
    var t3 := list' + t4;
    BytesConcat(list', t4);
    var t2 := "],\"attempt_diagnostics\":[" + t3;
    BytesConcat("],\"attempt_diagnostics\":[", t3);
    var t1 := list + t2;
    BytesConcat(list, t2);
    BytesConcat(Head(rules, p.reviewer), t1);
    assert Text(rules, p) == Head(rules, p.reviewer) + t1;
    SizeIsBytes(rules, p);
  }

  lemma SizeIsBytes(rules: Rules, p: Projection)
    ensures Size(rules, p) == ByteLength(Text(rules, p))
  {
  }

  // ---------------------------------------------------------------- collecting the items

  predicate HasId(findings: seq<Finding>, id: string) {
    exists i :: 0 <= i < |findings| && findings[i].id == id
  }

  /** The valid findings, the first of each id, in order. */
  function Distinct(rules: Rules, raws: seq<Raw>): seq<Finding> {
    if raws == [] then []
    else
      var n := |raws| - 1;
      var found := Distinct(rules, raws[..n]);
      var finding := rules.normalize(raws[n]);
      if finding.Some? && !HasId(found, finding.value.id) then found + [finding.value] else found
  }

  function Take<T>(s: seq<T>, n: nat): seq<T> {
    if |s| <= n then s else s[..n]
  }

  function Sanitized(rules: Rules, raws: seq<Raw>): seq<Diagnostic> {
    if raws == [] then []
    else
      var n := |raws| - 1;
      var diagnostic := rules.sanitize(raws[n]);
      Sanitized(rules, raws[..n]) + if diagnostic.Some? then [diagnostic.value] else []
  }

  lemma {:induction false} DistinctGrows(rules: Rules, raws: seq<Raw>, k: nat)
    requires k <= |raws|
    ensures Distinct(rules, raws[..k]) <= Distinct(rules, raws)
  {
    if k < |raws| {
      var n := |raws| - 1;
      assert raws[..n][..k] == raws[..k];
      DistinctGrows(rules, raws[..n], k);
    } else {
      assert raws[..k] == raws;
    }
  }

  /** Stopping at the fiftieth distinct finding takes the first fifty. */
  method CollectFindings(rules: Rules, raws: seq<Raw>) returns (findings: seq<Finding>)
    ensures findings == Take(Distinct(rules, raws), MAX_FINDINGS)
  {
    findings := [];
    for i := 0 to |raws|
      invariant findings == Distinct(rules, raws[..i]) && |findings| < MAX_FINDINGS
    {
      assert raws[..i + 1][..i] == raws[..i];
      DistinctGrows(rules, raws, i + 1);
      var finding := rules.normalize(raws[i]);
      if finding.Some? && !HasId(findings, finding.value.id) {
        findings := findings + [finding.value];
      }
      if |findings| >= MAX_FINDINGS {
        return;
      }
    }
    assert raws[..|raws|] == raws;
  }

  method CollectDiagnostics(rules: Rules, raws: seq<Raw>) returns (diagnostics: seq<Diagnostic>)
    ensures diagnostics == Sanitized(rules, Take(raws, MAX_DIAGNOSTICS))
  {
    var first := Take(raws, MAX_DIAGNOSTICS);
    diagnostics := [];
    for i := 0 to |first|
      invariant diagnostics == Sanitized(rules, first[..i])
    {
      assert first[..i + 1][..i] == first[..i];
      var diagnostic := rules.sanitize(first[i]);
      if diagnostic.Some? {
        diagnostics := diagnostics + [diagnostic.value];
      }
    }
    assert first[..|first|] == first;
  }

  // ---------------------------------------------------------------- the order of the findings

  function Rank(s: Severity): nat {
    match s
    case Critical => 0
    case High => 1
    case Medium => 2
    case Low => 3
  }

  datatype Ranked = Ranked(finding: Finding, index: nat)

  function RankedOrder(): (Ranked, Ranked) -> bool {
    (a: Ranked, b: Ranked) =>
      var ra, rb := Rank(a.finding.severity), Rank(b.finding.severity);
      ra < rb || (ra == rb && a.index <= b.index)
  }

  function WithIndex(findings: seq<Finding>): (r: seq<Ranked>)
    ensures |r| == |findings| && forall i :: 0 <= i < |r| ==> r[i] == Ranked(findings[i], i)
  {
    seq(|findings|, i requires 0 <= i < |findings| => Ranked(findings[i], i))
  }

  function WithoutIndex(ranked: seq<Ranked>): (r: seq<Finding>)
    ensures |r| == |ranked| && forall i :: 0 <= i < |r| ==> r[i] == ranked[i].finding
  {
    seq(|ranked|, i requires 0 <= i < |ranked| => ranked[i].finding)
  }

  /** The comparator sorts by severity and then by the place in the list. */
  function BySeverity(findings: seq<Finding>): seq<Finding> {
    WithoutIndex(StableSort(WithIndex(findings), RankedOrder()))
  }

  /** `a` may come before `b`: it is not less severe, and if it is as severe it was listed earlier. */
  ghost predicate Before(findings: seq<Finding>, a: Finding, b: Finding) {
    && (a.severity == Low ==> b.severity == Low)
    && (a.severity == Medium ==> b.severity == Medium || b.severity == Low)
    && (a.severity == High ==> b.severity != Critical)
    && (a.severity == b.severity ==>
          exists i, j :: 0 <= i < j < |findings| && findings[i] == a && findings[j] == b)
  }

  lemma BeforeNames(findings: seq<Finding>, a: Finding, b: Finding)
    requires Before(findings, a, b)
    ensures !(a.severity == Low && b.severity != Low)
    ensures !(a.severity == Medium && (b.severity == High || b.severity == Critical))
    ensures !(a.severity == High && b.severity == Critical)
  {
  }

  lemma RankedOrderTotal()
    ensures TotalPreorder(RankedOrder())
  {
  }

  lemma WithoutIndexCons(x: Ranked, s: seq<Ranked>)
    ensures WithoutIndex([x] + s) == [x.finding] + WithoutIndex(s)
  {
  }

  lemma {:induction false} InsertMultiset(x: Ranked, s: seq<Ranked>)
    ensures multiset(WithoutIndex(Insert(x, s, RankedOrder()))) == multiset{x.finding} + multiset(WithoutIndex(s))
  {
    if s == [] || RankedOrder()(x, s[0]) {
      WithoutIndexCons(x, s);
      assert [x] + s == Insert(x, s, RankedOrder());
    } else {
      InsertMultiset(x, s[1..]);
      WithoutIndexCons(s[0], Insert(x, s[1..], RankedOrder()));
      WithoutIndexCons(s[0], s[1..]);
      assert s == [s[0]] + s[1..];
    }
  }

  lemma {:induction false} SortMultiset(s: seq<Ranked>)
    ensures multiset(WithoutIndex(StableSort(s, RankedOrder()))) == multiset(WithoutIndex(s))
  {
    if s != [] {
      SortMultiset(s[1..]);
      InsertMultiset(s[0], StableSort(s[1..], RankedOrder()));
      WithoutIndexCons(s[0], s[1..]);
      assert s == [s[0]] + s[1..];
    }
  }

  lemma BySeverityIs(findings: seq<Finding>)
    ensures multiset(BySeverity(findings)) == multiset(findings) && |BySeverity(findings)| == |findings|
    ensures forall i, j :: 0 <= i < j < |findings| ==> Before(findings, BySeverity(findings)[i], BySeverity(findings)[j])
  {
    var pairs := WithIndex(findings);
    var sorted := StableSort(pairs, RankedOrder());
    SortPermutes(pairs, RankedOrder());
    SortMultiset(pairs);
    assert WithoutIndex(pairs) == findings;
    RankedOrderTotal();
    SortSorted(pairs, RankedOrder());
    SortMembers(pairs, RankedOrder());
    SortedDistinct(pairs, sorted);
    forall i, j | 0 <= i < j < |findings|
      ensures Before(findings, sorted[i].finding, sorted[j].finding)
    {
      assert RankedOrder()(sorted[i], sorted[j]);
      assert sorted[i] in pairs && sorted[j] in pairs;
      var a, b := sorted[i].index, sorted[j].index;
      assert findings[a] == sorted[i].finding && findings[b] == sorted[j].finding;
    }
  }

  lemma SortedDistinct(pairs: seq<Ranked>, sorted: seq<Ranked>)
    requires multiset(pairs) == multiset(sorted)
    requires forall i :: 0 <= i < |pairs| ==> pairs[i].index == i
    ensures forall i, j :: 0 <= i < j < |sorted| ==> sorted[i].index != sorted[j].index
  {
    DistinctPermuted(pairs, sorted);
    forall i, j | 0 <= i < j < |sorted|
      ensures sorted[i].index != sorted[j].index
    {
      assert sorted[i] in multiset(pairs) && sorted[j] in multiset(pairs);
    }
  }

  // ---------------------------------------------------------------- packing

  /** The projection while it is being filled: flagged as truncated, counting what is not in it. */
  function Filling(reviewer: string, attestation: Option<string>, findings: nat, diagnostics: nat,
                   accepted: seq<Finding>, kept: seq<Diagnostic>): Projection
  {
    Projection(reviewer, accepted, kept, attestation, true,
               if |accepted| <= findings then findings - |accepted| else 0,
               if |kept| <= diagnostics then diagnostics - |kept| else 0)
  }

  predicate Fits(rules: Rules, p: Projection) {
    Size(rules, p) <= MAX_BYTES
  }

  /** What is to be packed: the findings in their order, and the diagnostics. */
  datatype Job = Job(reviewer: string, attestation: Option<string>, findings: seq<Finding>,
                     diagnostics: seq<Diagnostic>)

  function FindingFits(rules: Rules, job: Job): seq<Finding> -> bool {
    (accepted: seq<Finding>) =>
      Fits(rules, Filling(job.reviewer, job.attestation, |job.findings|, |job.diagnostics|, accepted, []))
  }

  function Accepted(rules: Rules, job: Job): (r: seq<Finding>)
    ensures |r| <= |job.findings|
  {
    Greedy(job.findings, FindingFits(rules, job))
  }

  function DiagnosticFits(rules: Rules, job: Job): seq<Diagnostic> -> bool {
    var accepted := Accepted(rules, job);
    (kept: seq<Diagnostic>) =>
      Fits(rules, Filling(job.reviewer, job.attestation, |job.findings|, |job.diagnostics|, accepted, kept))
  }

  function KeptDiagnostics(rules: Rules, job: Job): (r: seq<Diagnostic>)
    ensures |r| <= |job.diagnostics|
  {
    GreedyBack(job.diagnostics, DiagnosticFits(rules, job))
  }

  /** The projection before the flag is set for good. */
  function Filled(rules: Rules, job: Job): Projection {
    Filling(job.reviewer, job.attestation, |job.findings|, |job.diagnostics|,
            Accepted(rules, job), KeptDiagnostics(rules, job))
  }

  function Packed(rules: Rules, job: Job): Projection {
    var p := Filled(rules, job);
    p.(truncated := p.omittedFindings > 0 || p.omittedDiagnostics > 0)
  }

  /** The findings loop: each finding in turn is pushed, and popped again when the projection is too large. */
  method PackFindings(rules: Rules, job: Job) returns (projection: Projection)
    ensures projection == Filling(job.reviewer, job.attestation, |job.findings|, |job.diagnostics|,
                                  Accepted(rules, job), [])
  {
    hide Size;
    var findings, diagnostics := |job.findings|, |job.diagnostics|;
    projection := Projection(job.reviewer, [], [], job.attestation, true, findings, diagnostics);
    for i := 0 to findings
      invariant |projection.accepted| <= i
      invariant projection.accepted == Greedy(job.findings[..i], FindingFits(rules, job))
      invariant projection == Filling(job.reviewer, job.attestation, findings, diagnostics, projection.accepted, [])
    {
      assert job.findings[..i + 1][..i] == job.findings[..i];
      var accepted := projection.accepted;
      projection := projection.(accepted := accepted + [job.findings[i]]);
      projection := projection.(omittedFindings := findings - |projection.accepted|);
      if !Fits(rules, projection) {
        projection := projection.(accepted := accepted);
        projection := projection.(omittedFindings := findings - |projection.accepted|);
      }
    }
    assert job.findings[..findings] == job.findings;
  }

  /** The diagnostics loop, from the newest back, and the final flag. */
  method Pack(rules: Rules, job: Job) returns (projection: Projection)
    ensures projection == Packed(rules, job)
  {
    hide Size, Accepted;
    projection := PackFindings(rules, job);
    var diagnostics := |job.diagnostics|;
    var index := diagnostics;
    while index > 0
      invariant 0 <= index <= diagnostics && |projection.diagnostics| <= diagnostics - index
      invariant projection.diagnostics == GreedyBack(job.diagnostics[index..], DiagnosticFits(rules, job))
      invariant projection == Filling(job.reviewer, job.attestation, |job.findings|, diagnostics,
                                      Accepted(rules, job), projection.diagnostics)
    {
      index := index - 1;
      assert job.diagnostics[index..][1..] == job.diagnostics[index + 1..];
      var kept := projection.diagnostics;
      projection := projection.(diagnostics := [job.diagnostics[index]] + kept);
      projection := projection.(omittedDiagnostics := diagnostics - |projection.diagnostics|);
      if !Fits(rules, projection) {
        projection := projection.(diagnostics := kept);
        projection := projection.(omittedDiagnostics := diagnostics - |projection.diagnostics|);
      }
    }
    projection := projection.(truncated := projection.omittedFindings > 0 || projection.omittedDiagnostics > 0);
  }

  // ---------------------------------------------------------------- what packing achieves

  ghost predicate EmptyFits(rules: Rules, job: Job) {
    Fits(rules, Filling(job.reviewer, job.attestation, |job.findings|, |job.diagnostics|, [], []))
  }

  /** Everything, still flagged as truncated, which is how the size is tested. */
  ghost function Full(job: Job): Projection {
    Filling(job.reviewer, job.attestation, |job.findings|, |job.diagnostics|, job.findings, job.diagnostics)
  }

  ghost predicate NonEmptyTexts(job: Job) {
    && (forall f :: f in job.findings ==> |f.text| >= 2)
    && (forall d :: d in job.diagnostics ==> |d.text| >= 2)
  }

  lemma PushBytes(accepted: seq<Finding>, f: Finding)
    ensures ListBytes(FindingTexts(accepted + [f])) >= ListBytes(FindingTexts(accepted)) + |f.text|
  {
    assert FindingTexts(accepted + [f]) == FindingTexts(accepted) + [f.text];
    TotalAppend(FindingTexts(accepted), f.text);
    hide ByteLength;
  }

  lemma UnshiftBytes(kept: seq<Diagnostic>, d: Diagnostic)
    ensures ListBytes(DiagnosticTexts([d] + kept)) >= ListBytes(DiagnosticTexts(kept)) + |d.text|
  {
    assert DiagnosticTexts([d] + kept) == [d.text] + DiagnosticTexts(kept);
    assert ([d.text] + DiagnosticTexts(kept))[1..] == DiagnosticTexts(kept);
    hide ByteLength;
  }

  lemma FillingSize(rules: Rules, job: Job, accepted: seq<Finding>, kept: seq<Diagnostic>)
    ensures var p := Filling(job.reviewer, job.attestation, |job.findings|, |job.diagnostics|, accepted, kept);
      Size(rules, p) == Frame(rules, job.reviewer, job.attestation) + ListBytes(FindingTexts(accepted))
                        + ListBytes(DiagnosticTexts(kept)) + 4
                        + Digits(p.omittedFindings) + Digits(p.omittedDiagnostics)
  {
    hide Size, ListBytes, Digits, Frame, FindingTexts, DiagnosticTexts;
    SizeIs(rules, Filling(job.reviewer, job.attestation, |job.findings|, |job.diagnostics|, accepted, kept));
  }

  /** One more finding makes the projection no smaller, although its count may lose a digit. */
  lemma PushGrows(rules: Rules, job: Job, accepted: seq<Finding>, f: Finding, kept: seq<Diagnostic>)
    requires |accepted| < |job.findings| && |f.text| >= 2
    ensures Size(rules, Filling(job.reviewer, job.attestation, |job.findings|, |job.diagnostics|, accepted, kept))
            <= Size(rules, Filling(job.reviewer, job.attestation, |job.findings|, |job.diagnostics|,
                                   accepted + [f], kept))
  {
    hide Size, ListBytes, Digits, Frame, FindingTexts, DiagnosticTexts;
    FillingSize(rules, job, accepted, kept);
    FillingSize(rules, job, accepted + [f], kept);
    PushBytes(accepted, f);
    DigitsBefore(|job.findings| - |accepted|);
  }

  lemma UnshiftGrows(rules: Rules, job: Job, accepted: seq<Finding>, kept: seq<Diagnostic>, d: Diagnostic)
    requires |kept| < |job.diagnostics| && |d.text| >= 2
    ensures Size(rules, Filling(job.reviewer, job.attestation, |job.findings|, |job.diagnostics|, accepted, kept))
            <= Size(rules, Filling(job.reviewer, job.attestation, |job.findings|, |job.diagnostics|,
                                   accepted, [d] + kept))
  {
    hide Size, ListBytes, Digits, Frame, FindingTexts, DiagnosticTexts;
    FillingSize(rules, job, accepted, kept);
    FillingSize(rules, job, accepted, [d] + kept);
    UnshiftBytes(kept, d);
    DigitsBefore(|job.diagnostics| - |kept|);
  }

  function WithPrefix(job: Job, k: nat): Projection
    requires k <= |job.findings|
  {
    Filling(job.reviewer, job.attestation, |job.findings|, |job.diagnostics|, job.findings[..k], [])
  }

  function WithSuffix(job: Job, k: nat): Projection
    requires k <= |job.diagnostics|
  {
    Filling(job.reviewer, job.attestation, |job.findings|, |job.diagnostics|, job.findings, job.diagnostics[k..])
  }

  /** The projections tried on the way to everything are no larger than everything. */
  lemma {:induction false} PrefixesFit(rules: Rules, job: Job, k: nat)
    requires NonEmptyTexts(job) && k <= |job.findings|
    requires Fits(rules, WithSuffix(job, |job.diagnostics|))
    ensures Fits(rules, WithPrefix(job, k))
    decreases |job.findings| - k
  {
    hide Size;
    if k == |job.findings| {
      assert job.findings[..k] == job.findings && job.diagnostics[|job.diagnostics|..] == [];
    } else {
      PrefixesFit(rules, job, k + 1);
      PushGrows(rules, job, job.findings[..k], job.findings[k], []);
      assert job.findings[..k] + [job.findings[k]] == job.findings[..k + 1];
    }
  }

  lemma {:induction false} SuffixesFit(rules: Rules, job: Job, k: nat)
    requires NonEmptyTexts(job) && Fits(rules, Full(job)) && k <= |job.diagnostics|
    ensures Fits(rules, WithSuffix(job, k))
  {
    hide Size;
    if k == 0 {
      assert job.diagnostics[0..] == job.diagnostics;
    } else {
      SuffixesFit(rules, job, k - 1);
      UnshiftGrows(rules, job, job.findings, job.diagnostics[k..], job.diagnostics[k - 1]);
      assert [job.diagnostics[k - 1]] + job.diagnostics[k..] == job.diagnostics[k - 1..];
    }
  }

  /** When everything fits together, packing keeps everything. */
  lemma FullIsKept(rules: Rules, job: Job)
    requires NonEmptyTexts(job) && Fits(rules, Full(job))
    ensures Accepted(rules, job) == job.findings && KeptDiagnostics(rules, job) == job.diagnostics
  {
    hide Size, Fits;
    SuffixesFit(rules, job, |job.diagnostics|);
    forall k | 0 < k <= |job.findings|
      ensures FindingFits(rules, job)(job.findings[..k])
    {
      PrefixesFit(rules, job, k);
    }
    GreedyAll(job.findings, FindingFits(rules, job));
    assert Accepted(rules, job) == job.findings;
    forall k | 0 <= k < |job.diagnostics|
      ensures DiagnosticFits(rules, job)(job.diagnostics[k..])
    {
      SuffixesFit(rules, job, k);
    }
    GreedyBackAll(job.diagnostics, DiagnosticFits(rules, job));
  }

  lemma {:induction false} WholeSubsequence<T>(a: seq<T>, b: seq<T>)
    requires Subsequence(a, b) && |a| == |b|
    ensures a == b
  {
    if a != [] {
      if Subsequence(a, b[1..]) {
        SubsequenceMembers(a, b[1..]);
      } else {
        WholeSubsequence(a[1..], b[1..]);
        assert a == [a[0]] + a[1..] && b == [b[0]] + b[1..];
      }
    }
  }

  lemma FilledFits(rules: Rules, job: Job)
    requires EmptyFits(rules, job)
    ensures Fits(rules, Filled(rules, job))
  {
    hide Fits;
    GreedyFits(job.findings, FindingFits(rules, job));
    GreedyBackFits(job.diagnostics, DiagnosticFits(rules, job));
  }

  lemma UntruncatedIsFull(rules: Rules, job: Job)
    requires !Packed(rules, job).truncated
    ensures Filled(rules, job) == Full(job)
  {
    hide FindingFits, DiagnosticFits;
    GreedySubsequence(job.findings, FindingFits(rules, job));
    GreedyBackSubsequence(job.diagnostics, DiagnosticFits(rules, job));
    WholeSubsequence(Accepted(rules, job), job.findings);
    WholeSubsequence(KeptDiagnostics(rules, job), job.diagnostics);
  }

  lemma FlagByte(rules: Rules, p: Projection)
    requires p.truncated
    ensures Size(rules, p.(truncated := false)) == Size(rules, p) + 1
  {
    SizeIs(rules, p);
    SizeIs(rules, p.(truncated := false));
    hide Size, ListBytes, Digits, Frame, FindingTexts, DiagnosticTexts;
  }

  /** Nothing is lost from the books, and what is kept keeps its order. */
  lemma PackedConserves(rules: Rules, job: Job)
    ensures var p := Packed(rules, job);
      && |p.accepted| + p.omittedFindings == |job.findings|
      && |p.diagnostics| + p.omittedDiagnostics == |job.diagnostics|
      && Subsequence(p.accepted, job.findings) && Subsequence(p.diagnostics, job.diagnostics)
  {
    GreedySubsequence(job.findings, FindingFits(rules, job));
    GreedyBackSubsequence(job.diagnostics, DiagnosticFits(rules, job));
    hide FindingFits, DiagnosticFits;
  }

  /**
   * The bound. Something is omitted exactly when everything together, flagged as truncated, is over the
   * limit. What is omitted from then fits; what is complete is one byte longer than it was tested, so
   * the result is over the limit, by that byte, exactly when everything together meets the limit exactly.
   */
  lemma PackedExactly(rules: Rules, job: Job)
    requires EmptyFits(rules, job) && NonEmptyTexts(job)
    ensures var p := Packed(rules, job);
      && (p.truncated <==> Size(rules, Full(job)) > MAX_BYTES)
      && (!p.truncated ==> p == Full(job).(truncated := false))
      && Size(rules, p) <= (if p.truncated then MAX_BYTES else MAX_BYTES + 1)
      && (Size(rules, p) <= MAX_BYTES <==> Size(rules, Full(job)) != MAX_BYTES)
  {
    hide Size, FindingFits, DiagnosticFits;
    FilledFits(rules, job);
    FlagByte(rules, Full(job));
    if Fits(rules, Full(job)) {
      FullIsKept(rules, job);
    } else if !Packed(rules, job).truncated {
      UntruncatedIsFull(rules, job);
    }
  }

  // ---------------------------------------------------------------- building and validating

  function JobOf(rules: Rules, input: Input): Job {
    Job(Take(Trim(input.reviewer), MAX_REVIEWER), input.attestation,
        BySeverity(Take(Distinct(rules, input.findings), MAX_FINDINGS)),
        Sanitized(rules, Take(input.diagnostics, MAX_DIAGNOSTICS)))
  }

  /** `buildReviewEvidenceProjection` */
  method Build(rules: Rules, input: Input) returns (r: Option<Projection>)
    ensures r == if Trim(input.reviewer) == "" then None else Some(Packed(rules, JobOf(rules, input)))
  {
    var reviewer := Take(Trim(input.reviewer), MAX_REVIEWER);
    if reviewer == "" {
      return None;
    }
    var findings := CollectFindings(rules, input.findings);
    var diagnostics := CollectDiagnostics(rules, input.diagnostics);
    var projection := Pack(rules, Job(reviewer, input.attestation, BySeverity(findings), diagnostics));
    return Some(projection);
  }

  /** `validateReviewEvidenceProjection`, given what it finds of the attestation. */
  predicate Validates(rules: Rules, p: Projection, attestationValid: bool) {
    && Trim(p.reviewer) != ""
    && (forall f :: f in p.accepted ==> rules.normalize(f.text).Some?)
    && (forall d :: d in p.diagnostics ==> rules.sanitize(d.text).Some?)
    && p.omittedFindings <= MAX_FINDINGS && p.omittedDiagnostics <= MAX_DIAGNOSTICS
    && (!p.truncated ==> p.omittedFindings == 0 && p.omittedDiagnostics == 0)
    && (p.truncated ==> p.omittedFindings != 0 || p.omittedDiagnostics != 0)
    && (p.attestation.Some? ==> attestationValid)
    && Fits(rules, p)
  }

  /** What a projection is refused for: the first seven reasons, or its size. */
  lemma RefusedExactly(rules: Rules, p: Projection, attestationValid: bool)
    ensures !Validates(rules, p, attestationValid) <==>
              || (forall c :: c in p.reviewer ==> Blank(c))
              || (exists i :: 0 <= i < |p.accepted| && rules.normalize(p.accepted[i].text).None?)
              || (exists i :: 0 <= i < |p.diagnostics| && rules.sanitize(p.diagnostics[i].text).None?)
              || p.omittedFindings > 50
              || p.omittedDiagnostics > 8
              || (p.truncated <==> p.omittedFindings + p.omittedDiagnostics == 0)
              || (p.attestation.Some? && !attestationValid)
              || |Encode(Text(rules, p))| > 65536
  {
    TrimIs(p.reviewer);
    BlankIs(p.reviewer);
    hide Trim, Text, Encode, Blank;
  }

  lemma BlankIs(s: string)
    ensures Trim(s) == "" <==> forall c :: c in s ==> Blank(c)
  {
    TrimIs(s);
    var i, j :| 0 <= i <= j <= |s| && Trim(s) == s[i..j]
             && (forall k :: 0 <= k < i || j <= k < |s| ==> Blank(s[k]))
             && (i < j ==> !Blank(s[i]) && !Blank(s[j - 1]));
    hide Trim, Blank;
    if i < j {
      assert s[i] in s;
    } else {
      assert forall k :: 0 <= k < |s| ==> Blank(s[k]);
    }
  }

  lemma {:induction false} DistinctAreNormal(rules: Rules, raws: seq<Raw>)
    requires Sane(rules)
    ensures forall f :: f in Distinct(rules, raws) ==> |f.text| >= 2 && rules.normalize(f.text).Some?
  {
    if raws != [] {
      DistinctAreNormal(rules, raws[..|raws| - 1]);
    }
  }

  lemma {:induction false} SanitizedAreNormal(rules: Rules, raws: seq<Raw>)
    requires Sane(rules)
    ensures forall d :: d in Sanitized(rules, raws) ==> |d.text| >= 2 && rules.sanitize(d.text).Some?
    ensures |Sanitized(rules, raws)| <= |raws|
  {
    if raws != [] {
      SanitizedAreNormal(rules, raws[..|raws| - 1]);
    }
  }

  /** A name that has been cut is still not blank. */
  lemma CutNotBlank(s: string)
    requires Trim(s) != ""
    ensures Trim(Take(Trim(s), MAX_REVIEWER)) != ""
  {
    TrimStartStart(s);
    TrimEndStart(TrimStart(s));
    var cut := Take(Trim(s), MAX_REVIEWER);
    assert cut[0] == Trim(s)[0];
    TrimEndStart(cut);
    assert TrimStart(cut) == cut;
  }

  lemma JobIsNormal(rules: Rules, input: Input)
    requires Sane(rules)
    ensures var job := JobOf(rules, input);
      && NonEmptyTexts(job)
      && (forall f :: f in job.findings ==> rules.normalize(f.text).Some?)
      && (forall d :: d in job.diagnostics ==> rules.sanitize(d.text).Some?)
      && |job.findings| <= MAX_FINDINGS && |job.diagnostics| <= MAX_DIAGNOSTICS
  {
    var distinct := Distinct(rules, input.findings);
    var findings := Take(distinct, MAX_FINDINGS);
    DistinctAreNormal(rules, input.findings);
    SanitizedAreNormal(rules, Take(input.diagnostics, MAX_DIAGNOSTICS));
    BySeverityIs(findings);
    hide BySeverity, Before, Distinct, Sanitized;
    forall f | f in BySeverity(findings)
      ensures f in distinct
    {
      assert f in multiset(BySeverity(findings));
    }
  }

  /**
   * What the builder returns passes the validator, except when everything together, flagged as
   * truncated, takes exactly the limit: then clearing the flag makes it one byte too long.
   */
  lemma BuiltValidatesExactly(rules: Rules, input: Input, attestationValid: bool)
    requires Sane(rules) && Trim(input.reviewer) != "" && EmptyFits(rules, JobOf(rules, input))
    requires input.attestation.Some? ==> attestationValid
    ensures var job := JobOf(rules, input);
      Validates(rules, Packed(rules, job), attestationValid) <==> Size(rules, Full(job)) != 65536
  {
    hide Size, Distinct, Sanitized, BySeverity, FindingFits, DiagnosticFits, Trim, Accepted, KeptDiagnostics;
    var job := JobOf(rules, input);
    JobIsNormal(rules, input);
    PackedExactly(rules, job);
    PackedConserves(rules, job);
    var p := Packed(rules, job);
    SubsequenceMembers(p.accepted, job.findings);
    SubsequenceMembers(p.diagnostics, job.diagnostics);
    CutNotBlank(input.reviewer);
    hide Full, NonEmptyTexts;
  }

  lemma {:induction false} SanitizedConcat(rules: Rules, a: seq<Raw>, b: seq<Raw>)
    ensures Sanitized(rules, a + b) == Sanitized(rules, a) + Sanitized(rules, b)
  {
    if b == [] {
      assert a + b == a;
    } else {
      var n := |b| - 1;
      assert (a + b)[..|a| + n] == a + b[..n];
      SanitizedConcat(rules, a, b[..n]);
    }
  }

  /** Each diagnostic is considered by itself and in its place: dropped, or kept as it was sanitized. */
  lemma SanitizedIs(rules: Rules, before: seq<Raw>, raw: Raw, after: seq<Raw>)
    ensures Sanitized(rules, before + [raw] + after)
      == Sanitized(rules, before)
         + (match rules.sanitize(raw) case None => [] case Some(d) => [d])
         + Sanitized(rules, after)
  {
    SanitizedConcat(rules, before + [raw], after);
    SanitizedConcat(rules, before, [raw]);
    assert [raw][..0] == [] && Sanitized(rules, []) == [];
  }

  /**
   * What is built of an input: the trimmed name cut to 256 characters, the attestation as it came, and counts
   * that tell how many of the first fifty distinct findings, and of the first eight diagnostics, are missing.
   */
  lemma BuiltIs(rules: Rules, input: Input)
    ensures var p, name := Packed(rules, JobOf(rules, input)), Trim(input.reviewer);
      var diagnostics := if |input.diagnostics| <= 8 then input.diagnostics else input.diagnostics[..8];
      && p.reviewer <= name && (|p.reviewer| == 256 || p.reviewer == name) && |p.reviewer| <= 256
      && p.attestation == input.attestation
      && (p.truncated <==> p.omittedFindings > 0 || p.omittedDiagnostics > 0)
      && p.omittedFindings + |p.accepted|
         == (if |Distinct(rules, input.findings)| <= 50 then |Distinct(rules, input.findings)| else 50)
      && p.omittedDiagnostics + |p.diagnostics| == |Sanitized(rules, diagnostics)|
  {
    BySeverityIs(Take(Distinct(rules, input.findings), MAX_FINDINGS));
    hide Distinct, Sanitized, BySeverity, Accepted, KeptDiagnostics, Trim, Size;
  }

  /**
   * The accepted findings come critical, high, medium, low, and those of one severity in the order they were
   * given. So a less severe finding never takes the place in front of a more severe one.
   */
  lemma AcceptedInOrder(rules: Rules, input: Input, i: nat, j: nat)
    requires i < j < |Packed(rules, JobOf(rules, input)).accepted|
    ensures var p := Packed(rules, JobOf(rules, input));
      && Before(Take(Distinct(rules, input.findings), MAX_FINDINGS), p.accepted[i], p.accepted[j])
      && !(p.accepted[i].severity == Low && p.accepted[j].severity != Low)
      && !(p.accepted[i].severity == Medium && (p.accepted[j].severity == High || p.accepted[j].severity == Critical))
      && !(p.accepted[i].severity == High && p.accepted[j].severity == Critical)
  {
    var job := JobOf(rules, input);
    var findings := Take(Distinct(rules, input.findings), MAX_FINDINGS);
    var p := Packed(rules, job);
    PackedConserves(rules, job);
    BySeverityIs(findings);
    hide Distinct, Sanitized, BySeverity, Accepted, KeptDiagnostics, Before, Take;
    SubsequenceOrdered(p.accepted, job.findings, (a, b) => Before(findings, a, b));
    BeforeNames(findings, p.accepted[i], p.accepted[j]);
  }

  /** The findings considered: distinct ids, each the first valid finding with its id, and none forgotten. */
  lemma {:induction false} DistinctIs(rules: Rules, raws: seq<Raw>)
    ensures var found := Distinct(rules, raws);
      && (forall i, j :: 0 <= i < j < |found| ==> found[i].id != found[j].id)
      && (forall k :: 0 <= k < |raws| && rules.normalize(raws[k]).Some? ==>
            HasId(found, rules.normalize(raws[k]).value.id))
      && (forall f :: f in found ==> exists k :: IsFirst(rules, raws, k, f))
  {
    if raws != [] {
      var n := |raws| - 1;
      DistinctIs(rules, raws[..n]);
      var before, found := Distinct(rules, raws[..n]), Distinct(rules, raws);
      forall k | 0 <= k < |raws| && rules.normalize(raws[k]).Some?
        ensures HasId(found, rules.normalize(raws[k]).value.id)
      {
        var id := rules.normalize(raws[k]).value.id;
        if k < n {
          assert raws[..n][k] == raws[k];
          var i :| 0 <= i < |before| && before[i].id == id;
          assert found[i].id == id;
        } else if !HasId(before, id) {
          assert found[|before|].id == id;
        }
      }
      forall f | f in found
        ensures exists k :: IsFirst(rules, raws, k, f)
      {
        if f in before {
          var k :| IsFirst(rules, raws[..n], k, f);
          assert IsFirst(rules, raws, k, f);
        } else {
          assert forall j :: 0 <= j < n ==> raws[..n][j] == raws[j];
          assert IsFirst(rules, raws, n, f);
        }
      }
    }
  }

  /** The finding comes from place `k`, and no valid finding before it has its id. */
  ghost predicate IsFirst(rules: Rules, raws: seq<Raw>, k: int, f: Finding) {
    && 0 <= k < |raws| && rules.normalize(raws[k]) == Some(f)
    && forall j :: 0 <= j < k && rules.normalize(raws[j]).Some? ==> rules.normalize(raws[j]).value.id != f.id
  }

  /**
   * A finding is left out exactly when the projection was too large when the finding was tried: behind
   * the findings kept from those before it, which stay at the front of what is kept in the end.
   */
  lemma OmittedDidNotFit(rules: Rules, job: Job, k: nat)
    requires k < |job.findings|
    ensures var kept := Greedy(job.findings[..k], FindingFits(rules, job));
      var tried := Filling(job.reviewer, job.attestation, |job.findings|, |job.diagnostics|,
                           kept + [job.findings[k]], []);
      && kept <= Accepted(rules, job)
      && Greedy(job.findings[..k + 1], FindingFits(rules, job))
         == (if Size(rules, tried) <= MAX_BYTES then kept + [job.findings[k]] else kept)
      && (Size(rules, tried) <= MAX_BYTES ==> kept + [job.findings[k]] <= Accepted(rules, job))
  {
    hide Size;
    LeftOut(job.findings, FindingFits(rules, job), k);
    assert job.findings[..k + 1][..k] == job.findings[..k];
  }

  /**
   * Likewise for a diagnostic: it is left out exactly when the projection with all accepted findings was
   * too large with it in front of the diagnostics kept from the newer ones.
   */
  lemma OmittedDiagnosticDidNotFit(rules: Rules, job: Job, k: nat)
    requires k < |job.diagnostics|
    ensures var kept := GreedyBack(job.diagnostics[k + 1..], DiagnosticFits(rules, job));
      var tried := Filling(job.reviewer, job.attestation, |job.findings|, |job.diagnostics|,
                           Accepted(rules, job), [job.diagnostics[k]] + kept);
      var all := KeptDiagnostics(rules, job);
      && |kept| <= |all| && all[|all| - |kept|..] == kept
      && GreedyBack(job.diagnostics[k..], DiagnosticFits(rules, job))
         == (if Size(rules, tried) <= MAX_BYTES then [job.diagnostics[k]] + kept else kept)
      && (Size(rules, tried) <= MAX_BYTES ==>
            |kept| < |all| && all[|all| - |kept| - 1..] == [job.diagnostics[k]] + kept)
  {
    hide Size, Accepted;
    LeftOutBack(job.diagnostics, DiagnosticFits(rules, job), k);
    assert job.diagnostics[k..][1..] == job.diagnostics[k + 1..];
  }

  // ---------------------------------------------------------------- the one byte

  const MAX_FINDING_BYTES := 32768

  /** Rules that keep the limit on a single finding, and quote a name as it is. */
  function PlainRules(): Rules {
    Rules((raw: Raw) => if |raw| >= 2 && ByteLength(raw) <= MAX_FINDING_BYTES then Some(Finding(raw, Low, raw)) else None,
          (raw: Raw) => None,
          (s: string) => "\"" + s + "\"")
  }

  lemma PlainRulesSane()
    ensures Sane(PlainRules())
  {
    hide ByteLength;
  }

  function Plain(raws: seq<Raw>): (r: seq<Finding>)
    ensures |r| == |raws| && forall i :: 0 <= i < |raws| ==> r[i] == Finding(raws[i], Low, raws[i])
  {
    seq(|raws|, i requires 0 <= i < |raws| => Finding(raws[i], Low, raws[i]))
  }

  ghost predicate PlainTexts(raws: seq<Raw>) {
    && (forall i :: 0 <= i < |raws| ==> |raws[i]| >= 2 && ByteLength(raws[i]) <= MAX_FINDING_BYTES)
    && (forall i, j :: 0 <= i < j < |raws| ==> raws[i] != raws[j])
  }

  lemma {:induction false} PlainDistinct(raws: seq<Raw>)
    requires PlainTexts(raws)
    ensures Distinct(PlainRules(), raws) == Plain(raws)
  {
    hide ByteLength;
    if raws != [] {
      var n := |raws| - 1;
      PlainDistinct(raws[..n]);
      assert Plain(raws) == Plain(raws[..n]) + [Finding(raws[n], Low, raws[n])];
    }
  }

  lemma PlainSorted(raws: seq<Raw>)
    ensures BySeverity(Plain(raws)) == Plain(raws)
  {
    SortOfSorted(WithIndex(Plain(raws)), RankedOrder());
    assert WithoutIndex(WithIndex(Plain(raws))) == Plain(raws);
    hide StableSort;
  }

  /** Distinct findings within the limit are all collected, in the order given. */
  lemma PlainJob(raws: seq<Raw>)
    requires PlainTexts(raws) && |raws| <= MAX_FINDINGS
    ensures Trim("r") == "r"
    ensures JobOf(PlainRules(), Input("r", raws, [], None)) == Job("r", None, Plain(raws), [])
  {
    PlainDistinct(raws);
    PlainSorted(raws);
    assert Sanitized(PlainRules(), []) == [];
    hide BySeverity, Distinct, PlainRules;
  }

  function Filler(n: nat): (s: string)
    ensures |s| == n && forall c :: c in s ==> c == 'a'
  {
    if n == 0 then "" else Filler(n - 1) + "a"
  }

  lemma FillerBytes(n: nat)
    ensures ByteLength(Filler(n)) == n
  {
    EncodeAscii(Filler(n));
  }

  lemma {:induction false} AtMostFourBytes(text: string)
    ensures ByteLength(text) <= 4 * |text|
  {
    if text != "" {
      AtMostFourBytes(text[1..]);
    }
  }

  lemma FrameIsShort()
    ensures Frame(PlainRules(), "r", None) < 1000
  {
    AtMostFourBytes(Head(PlainRules(), "r"));
    AtMostFourBytes("],\"attempt_diagnostics\":[");
    AtMostFourBytes(Middle(None));
    AtMostFourBytes(",\"omitted_findings\":");
    AtMostFourBytes(",\"omitted_diagnostics\":");
    AtMostFourBytes("}");
    hide ByteLength;
  }

  lemma SmallDigits()
    ensures Digits(0) == 1 && Digits(4) == 1
  {
  }

  lemma FourTexts(a: Raw, b: Raw, c: Raw, d: Raw)
    ensures FindingTexts(Plain([a, b, c, d])) == [a, b, c, d]
    ensures ListBytes([a, b, c, d]) == ByteLength(a) + ByteLength(b) + ByteLength(c) + ByteLength(d) + 3
    ensures FindingTexts([]) == [] && DiagnosticTexts([]) == [] && ListBytes([]) == 0
  {
    hide ByteLength;
    var texts := [a, b, c, d];
    assert texts[1..] == [b, c, d] && [b, c, d][1..] == [c, d] && [c, d][1..] == [d] && [d][1..] == [];
    assert Total([]) == 0 && Total([d]) == ByteLength(d);
    assert Total([c, d]) == ByteLength(c) + Total([d]);
    assert Total([b, c, d]) == ByteLength(b) + Total([c, d]);
  }

  lemma FourFindingsSize(rules: Rules, a: Raw, b: Raw, c: Raw, d: Raw)
    ensures var job := Job("r", None, Plain([a, b, c, d]), []);
      && Size(rules, Full(job))
         == Frame(rules, "r", None) + ByteLength(a) + ByteLength(b) + ByteLength(c) + ByteLength(d) + 9
      && Size(rules, Filling("r", None, 4, 0, [], [])) == Frame(rules, "r", None) + 6
  {
    hide Size, ListBytes, Digits, Frame, FindingTexts, DiagnosticTexts, ByteLength, Plain;
    var findings := Plain([a, b, c, d]);
    var job := Job("r", None, findings, []);
    FourTexts(a, b, c, d);
    SmallDigits();
    FillingSize(rules, job, findings, []);
    FillingSize(rules, job, [], []);
  }

  /**
   * The exception does occur, with four findings well within the limit on one: a result of the builder
   * that the validator refuses for its size.
   */
  lemma OneByteTooLong()
    ensures exists raws: seq<Raw> ::
              var (rules, input) := (PlainRules(), Input("r", raws, [], None));
              && |raws| == 4 && (forall raw :: raw in raws ==> ByteLength(raw) <= 17600)
              && Sane(rules) && EmptyFits(rules, JobOf(rules, input)) && JobOf(rules, input).findings == Plain(raws)
              && !Validates(rules, Packed(rules, JobOf(rules, input)), true)
  {
    hide Size, Frame, Packed, Validates, JobOf, Trim, Sane, PlainRules, ByteLength, Filler, Plain;
    var rules := PlainRules();
    FrameIsShort();
    var last := MAX_BYTES - 9 - 48003 - Frame(rules, "r", None);
    var a, b, c, d := Filler(16000), Filler(16001), Filler(16002), Filler(last);
    FillerBytes(16000);
    FillerBytes(16001);
    FillerBytes(16002);
    FillerBytes(last);
    var raws := [a, b, c, d];
    PlainJob(raws);
    FourFindingsSize(rules, a, b, c, d);
    PlainRulesSane();
    var input := Input("r", raws, [], None);
    assert EmptyFits(rules, JobOf(rules, input));
    hide EmptyFits, Full;
    BuiltValidatesExactly(rules, input, true);
  }
}
