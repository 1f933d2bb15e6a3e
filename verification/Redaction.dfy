/**
 * Redaction of credential values from JSON-like trees: every secret is cut out of every string, one
 * secret after the other, and a mask is left in its place.
 */
module Redaction {

  import opened Options
  import opened Sorting
  import opened Texts

  const MASK := "***"

  // ---------------------------------------------------------------- substrings, split and join

  predicate OccursAt(secret: string, text: string, i: nat) {
    i + |secret| <= |text| && text[i..i + |secret|] == secret
  }

  /** `text.includes(secret)` */
  predicate Includes(text: string, secret: string) {
    exists i: nat :: i <= |text| && OccursAt(secret, text, i)
  }

  /** `text.indexOf(secret, from)` */
  function IndexOf(text: string, secret: string, from: nat): (r: Option<nat>)
    requires from <= |text|
    ensures r.Some? ==> from <= r.value && OccursAt(secret, text, r.value)
    ensures forall i: nat :: from <= i < (if r.Some? then r.value else |text| + 1) ==> !OccursAt(secret, text, i)
    decreases |text| - from
  {
    if OccursAt(secret, text, from) then Some(from)
    else if from == |text| then None
    else IndexOf(text, secret, from + 1)
  }

  /** `text.split(secret)`: cut at every occurrence, from the left, without overlap. */
  function Split(text: string, secret: string): (parts: seq<string>)
    requires secret != ""
    ensures |parts| > 0
    decreases |text|
  {
    match IndexOf(text, secret, 0)
    case None => [text]
    case Some(i) => [text[..i]] + Split(text[i + |secret|..], secret)
  }

  function Replaced(text: string, secret: string): string
    requires secret != ""
  {
    Join(Split(text, secret), MASK)
  }

  lemma JoinOne(part: string, mask: string)
    ensures Join([part], mask) == part
  {
  }

  /** Joining with the secret itself undoes the cut. */
  lemma {:induction false} SplitJoins(text: string, secret: string)
    requires secret != ""
    ensures Join(Split(text, secret), secret) == text
    decreases |text|
  {
    var found := IndexOf(text, secret, 0);
    hide IndexOf;
    if found.Some? {
      var i := found.value;
      var rest := text[i + |secret|..];
      SplitJoins(rest, secret);
      JoinCons(text[..i], Split(rest, secret), secret);
      assert Split(text, secret) == [text[..i]] + Split(rest, secret);
      hide Split;
      assert text == text[..i] + secret + rest;
    }
  }

  lemma OccursIn(text: string, secret: string, i: nat)
    requires OccursAt(secret, text, i)
    ensures Includes(text, secret)
  {
  }

  lemma SliceOfSlice(text: string, from: nat, to: nat, i: nat, j: nat)
    requires from <= to <= |text| && i <= j <= to - from
    ensures text[from..to][i..j] == text[from + i..from + j]
  {
    var piece := text[from..to];
    assert forall k :: 0 <= k < j - i ==> piece[i..j][k] == text[from + i..from + j][k];
  }

  /** Whatever a text does not include, none of its pieces includes. */
  lemma PieceIncludes(text: string, from: nat, to: nat, other: string)
    requires from <= to <= |text| && !Includes(text, other)
    ensures !Includes(text[from..to], other)
  {
    var piece := text[from..to];
    if Includes(piece, other) {
      var i: nat :| i <= |piece| && OccursAt(other, piece, i);
      SliceOfSlice(text, from, to, i, i + |other|);
      assert OccursAt(other, text, from + i);
    }
  }

  lemma {:induction false} SplitPieces(text: string, secret: string, other: string)
    requires secret != "" && (other == secret || !Includes(text, other))
    ensures forall part :: part in Split(text, secret) ==> !Includes(part, other)
    decreases |text|
  {
    match IndexOf(text, secret, 0)
    case None =>
    case Some(i) =>
      var rest := text[i + |secret|..];
      if other == secret {
        forall j: nat | OccursAt(secret, text[..i], j)
          ensures false
        {
          assert text[j..j + |secret|] == text[..i][j..j + |secret|];
          assert OccursAt(secret, text, j);
        }
      } else {
        PieceIncludes(text, 0, i, other);
        PieceIncludes(text, i + |secret|, |text|, other);
        assert text[0..i] == text[..i] && text[i + |secret|..|text|] == rest;
      }
      SplitPieces(rest, secret, other);
  }

  /** A secret that cannot be put together from a mask and its surroundings. */
  predicate MaskProof(secret: string) {
    secret != "" ==> secret[0] != '*' && secret[|secret| - 1] != '*' && !Includes(secret, MASK)
  }

  lemma OccursBesideMask(a: string, b: string, other: string, i: nat)
    requires OccursAt(other, a + MASK + b, i) && other != ""
    ensures OccursAt(other, a, i) || (i >= |a| + 3 && OccursAt(other, b, i - |a| - 3)) || !MaskProof(other)
  {
    var text, end, n := a + MASK + b, i + |other|, |a|;
    assert text[n..n + 3] == MASK;
    assert text[n] == '*' && text[n + 1] == '*' && text[n + 2] == '*';
    assert text[i..end] == other;
    if end <= n {
      assert a[i..end] == text[i..end];
    } else if i >= n + 3 {
      assert b[i - n - 3..end - n - 3] == text[i..end];
    } else if i >= n {
      assert text[i] == '*';
      assert other[0] == text[i..end][0];
    } else if end <= n + 3 {
      assert text[end - 1] == '*';
      assert other[|other| - 1] == text[i..end][|other| - 1];
    } else {
      SliceOfSlice(text, i, end, n - i, n - i + 3);
      OccursIn(other, MASK, n - i);
    }
  }

  /** A mask-proof secret cannot lie across a mask. */
  lemma AcrossMask(a: string, b: string, other: string)
    requires other != "" && MaskProof(other) && !Includes(a, other) && !Includes(b, other)
    ensures !Includes(a + MASK + b, other)
  {
    forall i: nat | OccursAt(other, a + MASK + b, i)
      ensures false
    {
      OccursBesideMask(a, b, other, i);
    }
  }

  lemma {:induction false} JoinIncludes(parts: seq<string>, other: string)
    requires |parts| > 0 && other != "" && MaskProof(other)
    requires forall part :: part in parts ==> !Includes(part, other)
    ensures !Includes(Join(parts, MASK), other)
  {
    if |parts| > 1 {
      JoinIncludes(parts[1..], other);
      AcrossMask(parts[0], Join(parts[1..], MASK), other);
    }
  }

  /** Replacing a secret removes it, and brings back nothing that was absent. */
  lemma ReplacedIncludes(text: string, secret: string, other: string)
    requires secret != "" && other != "" && MaskProof(other)
    requires other == secret || !Includes(text, other)
    ensures !Includes(Replaced(text, secret), other)
  {
    SplitPieces(text, secret, other);
    JoinIncludes(Split(text, secret), other);
  }

  lemma IndexOfIncludes(text: string, secret: string)
    ensures IndexOf(text, secret, 0).Some? <==> Includes(text, secret)
  {
    var found := IndexOf(text, secret, 0);
    if found.Some? {
      OccursIn(text, secret, found.value);
    }
  }

  lemma ReplacedSame(text: string, secret: string)
    requires secret != "" && !Includes(text, secret)
    ensures Replaced(text, secret) == text
  {
    IndexOfIncludes(text, secret);
  }

  // ---------------------------------------------------------------- the list of secrets

  predicate LongerFirst(a: string, b: string) {
    |a| >= |b|
  }

  /** `[...new Set(values)]` */
  function Distinct(values: seq<string>): (r: seq<string>)
    ensures forall x :: x in r <==> x in values
  {
    if values == [] then []
    else
      var n := |values| - 1;
      var r := Distinct(values[..n]);
      assert forall x :: x in values <==> x in values[..n] || x == values[n];
      if values[n] in r then r else r + [values[n]]
  }

  function NonEmpty(values: seq<string>): (r: seq<string>)
    ensures forall x :: x in r <==> x in values && x != ""
  {
    if values == [] then []
    else
      assert forall x :: x in values <==> x == values[0] || x in values[1..];
      (if values[0] == "" then [] else [values[0]]) + NonEmpty(values[1..])
  }

  /** The distinct non-empty secrets, longest first. */
  function Candidates(secrets: seq<string>): seq<string> {
    StableSort(Distinct(NonEmpty(secrets)), (a: string, b: string) => LongerFirst(a, b))
  }

  lemma CandidatesAre(secrets: seq<string>)
    ensures forall x :: x in Candidates(secrets) <==> x in secrets && x != ""
  {
    SortMembers(Distinct(NonEmpty(secrets)), (a: string, b: string) => LongerFirst(a, b));
  }

  lemma {:induction false} DistinctDiffer(values: seq<string>)
    ensures forall i, j :: 0 <= i < j < |Distinct(values)| ==> Distinct(values)[i] != Distinct(values)[j]
  {
    if values != [] {
      DistinctDiffer(values[..|values| - 1]);
    }
  }

  /** No candidate comes before a longer one, and none comes twice. */
  lemma CandidatesOrdered(secrets: seq<string>)
    ensures var c := Candidates(secrets);
      forall i, j :: 0 <= i < j < |c| ==> |c[i]| >= |c[j]| && c[i] != c[j]
  {
    var values := Distinct(NonEmpty(secrets));
    var order := (a: string, b: string) => LongerFirst(a, b);
    SortSorted(values, order);
    SortPermutes(values, order);
    DistinctDiffer(NonEmpty(secrets));
    DistinctPermuted(values, StableSort(values, order));
    var c := Candidates(secrets);
    hide StableSort, Distinct, NonEmpty;
    forall i, j | 0 <= i < j < |c|
      ensures |c[i]| >= |c[j]|
    {
      assert order(c[i], c[j]);
    }
  }

  // ---------------------------------------------------------------- one text

  function RedactedBy(text: string, candidates: seq<string>): string
    requires "" !in candidates
  {
    if candidates == [] then text
    else
      var n := |candidates| - 1;
      Replaced(RedactedBy(text, candidates[..n]), candidates[n])
  }

  function RedactedText(text: string, secrets: seq<string>): string {
    CandidatesAre(secrets);
    RedactedBy(text, Candidates(secrets))
  }

  /** `redactText` */
  method RedactText(text: string, candidates: seq<string>) returns (redacted: string)
    requires "" !in candidates
    ensures redacted == RedactedBy(text, candidates)
  {
    redacted := text;
    for i := 0 to |candidates|
      invariant redacted == RedactedBy(text, candidates[..i])
    {
      assert candidates[..i + 1][..i] == candidates[..i];
      redacted := Join(Split(redacted, candidates[i]), MASK);
    }
    assert candidates[..|candidates|] == candidates;
  }

  lemma {:induction false} RedactedByIncludes(text: string, candidates: seq<string>, other: string)
    requires "" !in candidates && other != "" && MaskProof(other)
    requires other in candidates || !Includes(text, other)
    ensures !Includes(RedactedBy(text, candidates), other)
  {
    if candidates != [] {
      var n := |candidates| - 1;
      if other in candidates[..n] || !Includes(text, other) {
        RedactedByIncludes(text, candidates[..n], other);
      }
      ReplacedIncludes(RedactedBy(text, candidates[..n]), candidates[n], other);
    }
  }

  /** A redacted text includes no secret, and nothing else mask-proof that was not there before. */
  lemma RedactedTextIncludes(text: string, secrets: seq<string>, other: string)
    requires other != "" && MaskProof(other) && (other in secrets || !Includes(text, other))
    ensures !Includes(RedactedText(text, secrets), other)
  {
    CandidatesAre(secrets);
    RedactedByIncludes(text, Candidates(secrets), other);
  }

  lemma {:induction false} RedactedBySame(text: string, candidates: seq<string>)
    requires "" !in candidates && forall s :: s in candidates ==> !Includes(text, s)
    ensures RedactedBy(text, candidates) == text
  {
    if candidates != [] {
      RedactedBySame(text, candidates[..|candidates| - 1]);
      ReplacedSame(text, candidates[|candidates| - 1]);
    }
  }

  /** A text without secrets is left alone. */
  lemma RedactedTextSame(text: string, secrets: seq<string>)
    requires forall s :: s in secrets && s != "" ==> !Includes(text, s)
    ensures RedactedText(text, secrets) == text
  {
    CandidatesAre(secrets);
    RedactedBySame(text, Candidates(secrets));
  }

  lemma SplitStep(text: string, secret: string)
    requires secret != ""
    ensures match IndexOf(text, secret, 0)
            case None => Split(text, secret) == [text]
            case Some(i) => Split(text, secret) == [text[..i]] + Split(text[i + |secret|..], secret)
  {
  }

  lemma TooShort(text: string, secret: string)
    requires |text| < |secret|
    ensures IndexOf(text, secret, 0) == None
  {
  }

  lemma ReplacedIs(text: string, secret: string)
    requires secret != ""
    ensures Replaced(text, secret) == Join(Split(text, secret), MASK)
  {
  }

  lemma SplitOnce(text: string, secret: string, i: nat)
    requires secret != "" && IndexOf(text, secret, 0) == Some(i) && |text| - i - |secret| < |secret|
    ensures Replaced(text, secret) == text[..i] + MASK + text[i + |secret|..]
  {
    var rest := text[i + |secret|..];
    TooShort(rest, secret);
    hide *;
    SplitStep(text, secret);
    SplitStep(rest, secret);
    ReplacedIs(text, secret);
    JoinCons(text[..i], [rest], MASK);
    JoinOne(rest, MASK);
  }

  /** A text in which this secret comes back after it has been cut out. */
  function Trap(secret: string): string
    requires !MaskProof(secret)
  {
    var n := |secret|;
    if secret[0] == '*' then secret + secret[1..]
    else if secret[n - 1] == '*' then secret[..n - 1] + secret
    else
      var found := IndexOf(secret, MASK, 0);
      if found.None? then secret else secret[..found.value] + secret + secret[found.value + 3..]
  }

  lemma StarFirst(secret: string)
    requires secret != "" && secret[0] == '*'
    ensures Includes(Replaced(secret + secret[1..], secret), secret)
  {
    var text := secret + secret[1..];
    assert text[0..|secret|] == secret;
    assert OccursAt(secret, text, 0);
    SplitOnce(text, secret, 0);
    assert text[|secret|..] == secret[1..];
    var r := Replaced(text, secret);
    assert r == "" + MASK + secret[1..];
    assert r[2..2 + |secret|] == secret;
    OccursIn(r, secret, 2);
  }

  lemma StarLast(secret: string)
    requires secret != "" && secret[0] != '*' && secret[|secret| - 1] == '*'
    ensures Includes(Replaced(secret[..|secret| - 1] + secret, secret), secret)
  {
    hide IndexOf, Replaced;
    var n := |secret| - 1;
    var text := secret[..n] + secret;
    assert text[n..n + |secret|] == secret;
    assert OccursAt(secret, text, n);
    OccursIn(text, secret, n);
    IndexOfIncludes(text, secret);
    var i := IndexOf(text, secret, 0).value;
    assert i == n by {
      assert text[i..i + |secret|][n] == text[i + n] && text[i..i + |secret|][0] == text[i];
    }
    SplitOnce(text, secret, n);
    var r := Replaced(text, secret);
    assert r == secret[..n] + MASK + "";
    assert r[0..|secret|] == secret;
    OccursIn(r, secret, 0);
  }

  lemma MaskEarlier(secret: string, n: nat, tail: string, i: nat)
    requires OccursAt(MASK, secret, n) && i < n && OccursAt(secret, secret[..n] + secret + tail, i)
    ensures OccursAt(MASK, secret, i)
  {
    var text, size := secret[..n] + secret + tail, |secret|;
    assert text[n..n + size] == secret;
    SliceOfSlice(text, i, i + size, n, n + 3);
    SliceOfSlice(text, n, n + size, i, i + 3);
  }

  /** The first occurrence of the secret in its trap is the one put there. */
  lemma TrapOccurs(secret: string, n: nat)
    requires n + 3 <= |secret| && IndexOf(secret, MASK, 0) == Some(n)
    ensures IndexOf(secret[..n] + secret + secret[n + 3..], secret, 0) == Some(n)
  {
    hide IndexOf;
    var text := secret[..n] + secret + secret[n + 3..];
    assert text[n..n + |secret|] == secret;
    assert OccursAt(secret, text, n) && OccursAt(MASK, secret, n);
    OccursIn(text, secret, n);
    IndexOfIncludes(text, secret);
    var i := IndexOf(text, secret, 0).value;
    hide OccursAt;
    assert i <= n;
    if i < n {
      MaskEarlier(secret, n, secret[n + 3..], i);
    }
  }

  lemma MaskInside(secret: string)
    requires secret != "" && secret[0] != '*' && IndexOf(secret, MASK, 0).Some?
    ensures var n := IndexOf(secret, MASK, 0).value;
      Includes(Replaced(secret[..n] + secret + secret[n + 3..], secret), secret)
  {
    var n, size := IndexOf(secret, MASK, 0).value, |secret|;
    assert secret[n..n + 3] == MASK;
    assert secret == secret[..n] + MASK + secret[n + 3..];
    hide IndexOf, Replaced, OccursAt;
    TrapOccurs(secret, n);
    var text := secret[..n] + secret + secret[n + 3..];
    SplitOnce(text, secret, n);
    assert text[n + size..] == secret[n + 3..] && text[..n] == secret[..n];
    IncludesItself(secret);
  }

  lemma IncludesItself(secret: string)
    ensures Includes(secret, secret)
  {
    assert secret[0..|secret|] == secret;
    OccursIn(secret, secret, 0);
  }

  /**
   * Cutting one secret out of a text removes it from every text exactly when the secret is mask-proof:
   * it neither begins nor ends with an asterisk, nor has the mask inside.
   */
  lemma RemovedExactly(secret: string)
    requires secret != ""
    ensures MaskProof(secret) <==> forall text :: !Includes(Replaced(text, secret), secret)
  {
    if MaskProof(secret) {
      forall text: string
        ensures !Includes(Replaced(text, secret), secret)
      {
        ReplacedIncludes(text, secret, secret);
      }
    } else {
      var text := Trap(secret);
      IndexOfIncludes(secret, MASK);
      if secret[0] == '*' {
        StarFirst(secret);
      } else if secret[|secret| - 1] == '*' {
        StarLast(secret);
      } else {
        MaskInside(secret);
      }
      assert Includes(Replaced(text, secret), secret);
    }
  }

  // ---------------------------------------------------------------- no part of a longer secret is left

  /** The first cut of a text, and the rest. */
  lemma ReplacedStep(text: string, secret: string)
    requires secret != ""
    ensures Replaced(text, secret)
      == match IndexOf(text, secret, 0)
         case None => text
         case Some(i) => text[..i] + MASK + Replaced(text[i + |secret|..], secret)
  {
    hide IndexOf, Split, Join, Replaced;
    SplitStep(text, secret);
    ReplacedIs(text, secret);
    var found := IndexOf(text, secret, 0);
    if found.Some? {
      var rest := text[found.value + |secret|..];
      ReplacedIs(rest, secret);
      JoinCons(text[..found.value], Split(rest, secret), MASK);
    } else {
      JoinOne(text, MASK);
    }
  }

  lemma IndexOfIs(text: string, secret: string, i: nat)
    requires OccursAt(secret, text, i) && forall j: nat :: j < i ==> !OccursAt(secret, text, j)
    ensures IndexOf(text, secret, 0) == Some(i)
  {
    assert i <= |text|;
  }

  lemma OccursOnOneSide(a: string, b: string, secret: string, j: nat)
    requires secret != "" && MaskProof(secret)
    ensures OccursAt(secret, a + MASK + b, j)
      <==> OccursAt(secret, a, j) || (j >= |a| + 3 && OccursAt(secret, b, j - |a| - 3))
  {
    var text, end := a + MASK + b, j + |secret|;
    if OccursAt(secret, text, j) {
      OccursBesideMask(a, b, secret, j);
    }
    if end <= |a| {
      assert text[j..end] == a[j..end];
    } else if j >= |a| + 3 && end <= |text| {
      assert text[j..end] == b[j - |a| - 3..end - |a| - 3];
    }
  }

  /** A secret found before the mask is found there first. */
  lemma FirstBefore(a: string, b: string, secret: string, i: nat)
    requires secret != "" && MaskProof(secret) && IndexOf(a, secret, 0) == Some(i)
    ensures IndexOf(a + MASK + b, secret, 0) == Some(i)
  {
    FirstOccurs(a, secret, i);
    hide IndexOf, MaskProof, OccursAt;
    OccursOnOneSide(a, b, secret, i);
    forall j: nat | j < i
      ensures !OccursAt(secret, a + MASK + b, j)
    {
      OccursOnOneSide(a, b, secret, j);
      assert j < |a| + 3;
    }
    IndexOfIs(a + MASK + b, secret, i);
  }

  /** A secret that is not before the mask is first found behind it. */
  lemma FirstBehind(a: string, b: string, secret: string, i: nat)
    requires secret != "" && MaskProof(secret) && IndexOf(a, secret, 0).None? && IndexOf(b, secret, 0) == Some(i)
    ensures IndexOf(a + MASK + b, secret, 0) == Some(|a| + 3 + i)
  {
    FirstOccurs(b, secret, i);
    NeverOccurs(a, secret);
    hide IndexOf, MaskProof, OccursAt;
    OccursOnOneSide(a, b, secret, |a| + 3 + i);
    forall j: nat | j < |a| + 3 + i
      ensures !OccursAt(secret, a + MASK + b, j)
    {
      OccursOnOneSide(a, b, secret, j);
    }
    IndexOfIs(a + MASK + b, secret, |a| + 3 + i);
  }

  lemma FirstOccurs(text: string, secret: string, i: nat)
    requires IndexOf(text, secret, 0) == Some(i)
    ensures OccursAt(secret, text, i) && i + |secret| <= |text| && forall j: nat :: j < i ==> !OccursAt(secret, text, j)
  {
  }

  lemma NeverOccurs(text: string, secret: string)
    requires IndexOf(text, secret, 0).None?
    ensures !Includes(text, secret) && forall j: nat :: !OccursAt(secret, text, j)
  {
    IndexOfIncludes(text, secret);
    forall j: nat
      ensures !OccursAt(secret, text, j)
    {
      if j > |text| {
        assert j + |secret| > |text|;
      }
    }
  }

  /** Cutting a mask-proof secret out works on either side of a mask separately. */
  lemma {:induction false} ReplacedBesideMask(a: string, b: string, secret: string)
    requires secret != "" && MaskProof(secret)
    ensures Replaced(a + MASK + b, secret) == Replaced(a, secret) + MASK + Replaced(b, secret)
    decreases |a|
  {
    hide IndexOf, Replaced, MaskProof, Includes, OccursAt;
    var inA, inB := IndexOf(a, secret, 0), IndexOf(b, secret, 0);
    if inA.Some? {
      FirstOccurs(a, secret, inA.value);
      ReplacedBesideMask(a[inA.value + |secret|..], b, secret);
      ReplacedBefore(a, b, secret, inA.value);
    } else if inB.Some? {
      ReplacedBehind(a, b, secret, inB.value);
    } else {
      NeverOccurs(a, secret);
      NeverOccurs(b, secret);
      AcrossMask(a, b, secret);
      ReplacedSame(a, secret);
      ReplacedSame(b, secret);
      ReplacedSame(a + MASK + b, secret);
    }
  }

  lemma ReplacedBefore(a: string, b: string, secret: string, i: nat)
    requires secret != "" && MaskProof(secret) && IndexOf(a, secret, 0) == Some(i) && i + |secret| <= |a|
    requires var rest := a[i + |secret|..];
      Replaced(rest + MASK + b, secret) == Replaced(rest, secret) + MASK + Replaced(b, secret)
    ensures Replaced(a + MASK + b, secret) == Replaced(a, secret) + MASK + Replaced(b, secret)
  {
    hide IndexOf, Replaced, MaskProof, Includes, OccursAt;
    FirstBefore(a, b, secret, i);
    ReplacedFirst(a, secret, i);
    ReplacedFirst(a + MASK + b, secret, i);
    var rest := a[i + |secret|..];
    CutBefore(a, b, i, i + |secret|);
    assert a[..i] + MASK + (Replaced(rest, secret) + MASK + Replaced(b, secret))
        == a[..i] + MASK + Replaced(rest, secret) + MASK + Replaced(b, secret);
  }

  lemma ReplacedBehind(a: string, b: string, secret: string, i: nat)
    requires secret != "" && MaskProof(secret) && IndexOf(a, secret, 0).None? && IndexOf(b, secret, 0) == Some(i)
    ensures Replaced(a + MASK + b, secret) == Replaced(a, secret) + MASK + Replaced(b, secret)
  {
    hide IndexOf, Replaced, MaskProof, Includes, OccursAt;
    FirstBehind(a, b, secret, i);
    NeverOccurs(a, secret);
    ReplacedSame(a, secret);
    FirstOccurs(b, secret, i);
    ReplacedFirst(b, secret, i);
    ReplacedFirst(a + MASK + b, secret, |a| + 3 + i);
    CutBehind(a, b, i, i + |secret|);
    var tail := Replaced(b[i + |secret|..], secret);
    assert a + MASK + b[..i] + MASK + tail == a + MASK + (b[..i] + MASK + tail);
  }

  lemma CutBefore(a: string, b: string, i: nat, j: nat)
    requires i <= j <= |a|
    ensures (a + MASK + b)[..i] == a[..i] && (a + MASK + b)[j..] == a[j..] + MASK + b
  {
  }

  lemma CutBehind(a: string, b: string, i: nat, j: nat)
    requires i <= j <= |b|
    ensures (a + MASK + b)[..|a| + 3 + i] == a + MASK + b[..i] && (a + MASK + b)[|a| + 3 + j..] == b[j..]
  {
  }

  lemma ReplacedFirst(text: string, secret: string, i: nat)
    requires secret != "" && IndexOf(text, secret, 0) == Some(i)
    ensures i + |secret| <= |text| && Replaced(text, secret) == text[..i] + MASK + Replaced(text[i + |secret|..], secret)
  {
    hide IndexOf, Replaced, OccursAt;
    FirstOccurs(text, secret, i);
    ReplacedStep(text, secret);
  }

  lemma {:induction false} RedactedBesideMask(a: string, b: string, candidates: seq<string>)
    requires "" !in candidates && forall c :: c in candidates ==> MaskProof(c)
    ensures RedactedBy(a + MASK + b, candidates) == RedactedBy(a, candidates) + MASK + RedactedBy(b, candidates)
  {
    hide MaskProof, Replaced;
    if candidates != [] {
      var n := |candidates| - 1;
      RedactedBesideMask(a, b, candidates[..n]);
      ReplacedBesideMask(RedactedBy(a, candidates[..n]), RedactedBy(b, candidates[..n]), candidates[n]);
    }
  }

  lemma {:induction false} RedactedByFirst(text: string, candidates: seq<string>)
    requires "" !in candidates && candidates != []
    ensures RedactedBy(text, candidates) == RedactedBy(Replaced(text, candidates[0]), candidates[1..])
  {
    hide Replaced;
    var n := |candidates| - 1;
    if n > 0 {
      RedactedByFirst(text, candidates[..n]);
      assert candidates[..n][1..] == candidates[1..][..n - 1];
    } else {
      assert candidates[..0] == [] && candidates[1..] == [];
    }
  }

  /**
   * The longest secret, where a text first has it, is masked as a whole, whatever shorter secrets have of it;
   * what comes before and behind it is redacted by itself. So it is for every further occurrence behind it.
   */
  lemma LongestMasked(text: string, secrets: seq<string>, secret: string)
    requires AllMaskProof(secrets) && secret in secrets && secret != ""
    requires forall s :: s in secrets && s != secret ==> |s| < |secret|
    ensures match IndexOf(text, secret, 0)
            case None => !Includes(text, secret)
            case Some(i) =>
              RedactedText(text, secrets)
              == RedactedText(text[..i], secrets) + "***" + RedactedText(text[i + |secret|..], secrets)
  {
    hide RedactedBy, IndexOf, Candidates, MaskProof, Includes, OccursAt;
    CandidatesAre(secrets);
    IndexOfIncludes(text, secret);
    LongestIsFirst(secrets, secret);
    var found := IndexOf(text, secret, 0);
    if found.Some? {
      FirstOccurs(text, secret, found.value);
      FirstMasked(text, Candidates(secrets), found.value);
    }
  }

  lemma LongestIsFirst(secrets: seq<string>, secret: string)
    requires secret in secrets && secret != ""
    requires forall s :: s in secrets && s != secret ==> |s| < |secret|
    ensures Candidates(secrets) != [] && Candidates(secrets)[0] == secret
  {
    var c := Candidates(secrets);
    CandidatesAre(secrets);
    CandidatesOrdered(secrets);
    hide Candidates;
    var k :| 0 <= k < |c| && c[k] == secret;
    assert c[0] in c;
  }

  /** The same of the first candidate. */
  lemma FirstMasked(text: string, c: seq<string>, i: nat)
    requires c != [] && "" !in c && (forall s :: s in c ==> MaskProof(s)) && IndexOf(text, c[0], 0) == Some(i)
    requires i + |c[0]| <= |text|
    ensures RedactedBy(text, c) == RedactedBy(text[..i], c) + MASK + RedactedBy(text[i + |c[0]|..], c)
  {
    hide IndexOf, Replaced, MaskProof, RedactedBy, Includes;
    var first, rest := text[..i], text[i + |c[0]|..];
    NotBeforeFirst(text, c[0], i);
    ReplacedFirst(text, c[0], i);
    ReplacedSame(first, c[0]);
    RedactedByFirst(text, c);
    RedactedByFirst(first, c);
    RedactedByFirst(rest, c);
    RedactedBesideMask(first, Replaced(rest, c[0]), c[1..]);
  }

  lemma NotBeforeFirst(text: string, secret: string, i: nat)
    requires secret != "" && IndexOf(text, secret, 0) == Some(i)
    ensures !Includes(text[..i], secret)
  {
    SplitPieces(text, secret, secret);
    SplitStep(text, secret);
    FirstOccurs(text, secret, i);
    hide IndexOf, Split;
    assert text[..i] in [text[..i]] + Split(text[i + |secret|..], secret);
  }

  /** A secret alone becomes the mask, even when other secrets are parts of it. */
  lemma SecretMasked(secrets: seq<string>, secret: string)
    requires AllMaskProof(secrets) && secret in secrets && secret != ""
    ensures RedactedText(secret, secrets) == "***"
  {
    var c := Candidates(secrets);
    CandidatesAre(secrets);
    CandidatesOrdered(secrets);
    hide Candidates, MaskProof, RedactedBy, IndexOf, Replaced;
    var k :| 0 <= k < |c| && c[k] == secret;
    LongerNotInside(secret, c[..k]);
    RedactedBySame(secret, c[..k]);
    OwnMask(secret);
    assert c[..k + 1][..k] == c[..k];
    RedactedByLast(secret, c[..k + 1]);
    MaskStays(secret, c, k + 1);
  }

  lemma LongerNotInside(secret: string, c: seq<string>)
    requires forall s :: s in c ==> |s| >= |secret| && s != secret
    ensures forall s :: s in c ==> !Includes(secret, s)
  {
  }

  lemma OwnMask(secret: string)
    requires secret != ""
    ensures Replaced(secret, secret) == MASK
  {
    assert secret[0..|secret|] == secret && OccursAt(secret, secret, 0);
    hide IndexOf, Replaced;
    IndexOfIs(secret, secret, 0);
    ReplacedFirst(secret, secret, 0);
    assert secret[|secret|..] == "";
    NotInside("", secret);
    ReplacedSame("", secret);
  }

  lemma NotInside(text: string, secret: string)
    requires |text| < |secret|
    ensures !Includes(text, secret)
  {
  }

  lemma RedactedByLast(text: string, c: seq<string>)
    requires "" !in c && c != []
    ensures RedactedBy(text, c) == Replaced(RedactedBy(text, c[..|c| - 1]), c[|c| - 1])
  {
  }

  lemma NotInMask(secret: string)
    requires secret != "" && MaskProof(secret)
    ensures !Includes(MASK, secret)
  {
    AcrossMask("", "", secret);
    assert "" + MASK + "" == MASK;
  }

  /** Once masked, a text stays the mask. */
  lemma {:induction false} MaskStays(text: string, c: seq<string>, k: nat)
    requires "" !in c && (forall s :: s in c ==> MaskProof(s)) && k <= |c| && RedactedBy(text, c[..k]) == MASK
    ensures RedactedBy(text, c) == MASK
  {
    hide Replaced;
    var n := |c| - 1;
    if k <= n {
      assert c[..n][..k] == c[..k];
      MaskStays(text, c[..n], k);
      assert c[n] in c;
      NotInMask(c[n]);
      ReplacedSame(MASK, c[n]);
    } else {
      assert c[..k] == c;
    }
  }

  // ---------------------------------------------------------------- trees

  /** `Scalar` holds the printed form of a number or a boolean; an object keeps its fields in order. */
  datatype Json =
    | Text(text: string)
    | Scalar(printed: string)
    | Null
    | Array(items: seq<Json>)
    | Object(fields: seq<Field>)

  datatype Field = Field(key: string, value: Json)

  /** `output[key] = value` */
  function Assign(fields: seq<Field>, key: string, value: Json): seq<Field> {
    if fields == [] then [Field(key, value)]
    else if fields[0].key == key then [Field(key, value)] + fields[1..]
    else [fields[0]] + Assign(fields[1..], key, value)
  }

  /** `redactCredentialValues` */
  function Redact(value: Json, secrets: seq<string>): Json
    decreases value
  {
    match value
    case Text(text) => Text(RedactedText(text, secrets))
    case Scalar(_) => value
    case Null => value
    case Array(items) => Array(RedactItems(items, secrets))
    case Object(fields) => Object(RedactFields(fields, secrets))
  }

  function RedactItems(items: seq<Json>, secrets: seq<string>): (r: seq<Json>)
    ensures |r| == |items|
    decreases items
  {
    if items == [] then [] else [Redact(items[0], secrets)] + RedactItems(items[1..], secrets)
  }

  function RedactFields(fields: seq<Field>, secrets: seq<string>): seq<Field>
    decreases fields
  {
    if fields == [] then []
    else
      var n := |fields| - 1;
      assert fields[n] in fields;
      Assign(RedactFields(fields[..n], secrets), RedactedText(fields[n].key, secrets), Redact(fields[n].value, secrets))
  }

  predicate TextHasSecret(text: string, secrets: seq<string>) {
    exists s :: s in secrets && s != "" && Includes(text, s)
  }

  predicate ScalarIsSecret(printed: string, secrets: seq<string>) {
    printed in secrets && printed != ""
  }

  /** `containsCredentialValue` */
  predicate Contains(value: Json, secrets: seq<string>)
    decreases value
  {
    match value
    case Text(text) => TextHasSecret(text, secrets)
    case Scalar(printed) => ScalarIsSecret(printed, secrets)
    case Null => false
    case Array(items) => exists i :: 0 <= i < |items| && Contains(items[i], secrets)
    case Object(fields) =>
      exists i :: 0 <= i < |fields| && (TextHasSecret(fields[i].key, secrets) || Contains(fields[i].value, secrets))
  }

  /** Is some number or boolean in the tree printed as a secret? */
  predicate HasSecretScalar(value: Json, secrets: seq<string>)
    decreases value
  {
    match value
    case Text(_) => false
    case Scalar(printed) => ScalarIsSecret(printed, secrets)
    case Null => false
    case Array(items) => exists i :: 0 <= i < |items| && HasSecretScalar(items[i], secrets)
    case Object(fields) => exists i :: 0 <= i < |fields| && HasSecretScalar(fields[i].value, secrets)
  }

  /** What is printed of a tree: the strings and keys in it, and the numbers and booleans. */
  datatype Piece = Phrase(text: string) | Number(printed: string)

  function Pieces(value: Json): set<Piece>
    decreases value
  {
    match value
    case Text(text) => {Phrase(text)}
    case Scalar(printed) => {Number(printed)}
    case Null => {}
    case Array(items) => set i, p | 0 <= i < |items| && p in Pieces(items[i]) :: p
    case Object(fields) =>
      (set i | 0 <= i < |fields| :: Phrase(fields[i].key))
      + set i, p | 0 <= i < |fields| && p in Pieces(fields[i].value) :: p
  }

  /** Does a secret show in this piece: anywhere in a string or key, or as a whole number or boolean? */
  ghost predicate Shows(p: Piece, secrets: seq<string>) {
    exists s :: s in secrets && s != "" && if p.Phrase? then Includes(p.text, s) else p.printed == s
  }

  /** The detector fires exactly when some piece of the tree shows a secret. */
  lemma {:induction false} ContainsExactly(value: Json, secrets: seq<string>)
    ensures Contains(value, secrets) <==> exists p :: p in Pieces(value) && Shows(p, secrets)
    decreases value
  {
    match value
    case Text(text) => assert Phrase(text) in Pieces(value);
    case Scalar(printed) => assert Number(printed) in Pieces(value);
    case Null =>
    case Array(items) =>
      forall i | 0 <= i < |items|
        ensures Contains(items[i], secrets) <==> exists p :: p in Pieces(items[i]) && Shows(p, secrets)
      {
        ContainsExactly(items[i], secrets);
      }
      hide Shows;
    case Object(fields) =>
      forall i | 0 <= i < |fields|
        ensures Contains(fields[i].value, secrets) <==> exists p :: p in Pieces(fields[i].value) && Shows(p, secrets)
        ensures TextHasSecret(fields[i].key, secrets) <==> Shows(Phrase(fields[i].key), secrets)
      {
        ContainsExactly(fields[i].value, secrets);
      }
      hide Shows, TextHasSecret;
      FieldPieces(fields, secrets);
  }

  lemma FieldPieces(fields: seq<Field>, secrets: seq<string>)
    ensures (exists p :: p in Pieces(Object(fields)) && Shows(p, secrets))
      <==> exists i :: 0 <= i < |fields|
             && (Shows(Phrase(fields[i].key), secrets)
                 || exists p :: p in Pieces(fields[i].value) && Shows(p, secrets))
  {
    hide Shows;
    if i :| 0 <= i < |fields| && Shows(Phrase(fields[i].key), secrets) {
      assert Phrase(fields[i].key) in Pieces(Object(fields));
    }
    if i, p :| 0 <= i < |fields| && p in Pieces(fields[i].value) && Shows(p, secrets) {
      assert p in Pieces(Object(fields));
    }
  }

  ghost predicate AllMaskProof(secrets: seq<string>) {
    forall s :: s in secrets ==> MaskProof(s)
  }

  /** A mask-proof secret of the list lies inside this one (it may be this one). */
  ghost predicate Guarded(secret: string, secrets: seq<string>) {
    exists core :: core in secrets && core != "" && MaskProof(core) && Includes(secret, core)
  }

  ghost predicate AllGuarded(secrets: seq<string>) {
    forall s :: s in secrets && s != "" ==> Guarded(s, secrets)
  }

  lemma MaskProofIsGuarded(secrets: seq<string>)
    requires AllMaskProof(secrets)
    ensures AllGuarded(secrets)
  {
    forall s | s in secrets && s != ""
      ensures Guarded(s, secrets)
    {
      OccursIn(s, s, 0);
    }
  }

  /** A part of a part is a part. */
  lemma IncludesTransitive(text: string, secret: string, core: string)
    requires Includes(text, secret) && Includes(secret, core)
    ensures Includes(text, core)
  {
    var i: nat :| i <= |text| && OccursAt(secret, text, i);
    var j: nat :| j <= |secret| && OccursAt(core, secret, j);
    SliceOfSlice(text, i, i + |secret|, j, j + |core|);
    OccursIn(text, core, i + j);
  }

  /** No secret survives when each has a mask-proof secret of the list inside, which is removed for good. */
  lemma RedactedTextClean(text: string, secrets: seq<string>)
    requires AllGuarded(secrets)
    ensures !TextHasSecret(RedactedText(text, secrets), secrets)
  {
    var redacted := RedactedText(text, secrets);
    forall s | s in secrets && s != ""
      ensures !Includes(redacted, s)
    {
      var core :| core in secrets && core != "" && MaskProof(core) && Includes(s, core);
      RedactedTextIncludes(text, secrets, core);
      hide RedactedText, MaskProof;
      if Includes(redacted, s) {
        IncludesTransitive(redacted, s, core);
      }
    }
  }

  lemma OneSecret(text: string, secret: string)
    requires secret != ""
    ensures RedactedText(text, [secret]) == Replaced(text, secret)
  {
    assert [secret][1..] == [] && NonEmpty([secret]) == [secret];
    assert [secret][..0] == [] && Distinct([secret]) == [secret];
    assert Candidates([secret]) == [secret];
    hide Replaced;
    assert RedactedBy(text, [secret][..0]) == text;
    assert RedactedBy(text, [secret]) == Replaced(text, secret);
  }

  /**
   * Whichever of the secrets are in use together, redaction leaves none of them in any text exactly when
   * all are mask-proof. (A particular list can be clean without that: it is enough that each of its
   * secrets is guarded.)
   */
  lemma SelectionsCleanExactly(secrets: seq<string>)
    ensures AllMaskProof(secrets)
      <==> forall chosen: seq<string>, text: string :: (forall s :: s in chosen ==> s in secrets) ==>
             !TextHasSecret(RedactedText(text, chosen), chosen)
  {
    hide RedactedText;
    if AllMaskProof(secrets) {
      forall chosen: seq<string>, text: string | forall s :: s in chosen ==> s in secrets
        ensures !TextHasSecret(RedactedText(text, chosen), chosen)
      {
        MaskProofIsGuarded(chosen);
        RedactedTextClean(text, chosen);
      }
    } else {
      var s :| s in secrets && !MaskProof(s);
      RemovedExactly(s);
      var text :| Includes(Replaced(text, s), s);
      OneSecret(text, s);
      assert s in [s];
      assert TextHasSecret(RedactedText(text, [s]), [s]);
    }
  }

  /** A list can be clean although one of its secrets alone would not be. */
  lemma GuardedOnly()
    ensures !MaskProof("a*") && AllGuarded(["a*", "a"])
  {
    assert MaskProof("a") by {
      assert !Includes("a", MASK);
    }
    assert "a*"[0..1] == "a" && "a"[0..1] == "a";
    OccursIn("a*", "a", 0);
    OccursIn("a", "a", 0);
    assert "a" in ["a*", "a"];
  }

  lemma {:induction false} AssignFields(fields: seq<Field>, key: string, value: Json)
    ensures forall f :: f in Assign(fields, key, value) ==> f in fields || f == Field(key, value)
  {
    if fields != [] && fields[0].key != key {
      AssignFields(fields[1..], key, value);
    }
  }

  /** Nothing but a number or boolean could still be a secret, and it was there before. */
  ghost predicate Clean(before: Json, after: Json, secrets: seq<string>) {
    && (Contains(after, secrets) ==> HasSecretScalar(after, secrets))
    && (HasSecretScalar(after, secrets) ==> HasSecretScalar(before, secrets))
  }

  lemma {:induction false} RedactCleans(value: Json, secrets: seq<string>)
    requires AllGuarded(secrets)
    ensures Clean(value, Redact(value, secrets), secrets)
    decreases value
  {
    match value
    case Text(text) => RedactedTextClean(text, secrets);
    case Scalar(_) =>
    case Null =>
    case Array(items) =>
      ItemsClean(items, secrets);
      var after := RedactItems(items, secrets);
      forall i | 0 <= i < |after|
        ensures Contains(after[i], secrets) ==> HasSecretScalar(after[i], secrets)
        ensures HasSecretScalar(after[i], secrets) ==> HasSecretScalar(items[i], secrets)
      {
        assert Clean(items[i], after[i], secrets);
      }
    case Object(fields) =>
      FieldsClean(fields, secrets);
      var after := RedactFields(fields, secrets);
      forall i | 0 <= i < |after|
        ensures !TextHasSecret(after[i].key, secrets)
        ensures Contains(after[i].value, secrets) ==> HasSecretScalar(after[i].value, secrets)
        ensures HasSecretScalar(after[i].value, secrets) ==> HasSecretScalar(value, secrets)
      {
        assert after[i] in after;
      }
  }

  lemma {:induction false} ItemsClean(items: seq<Json>, secrets: seq<string>)
    requires AllGuarded(secrets)
    ensures forall i :: 0 <= i < |items| ==> Clean(items[i], RedactItems(items, secrets)[i], secrets)
    decreases items
  {
    hide Clean;
    if items != [] {
      RedactCleans(items[0], secrets);
      ItemsClean(items[1..], secrets);
    }
  }

  lemma {:induction false} FieldsClean(fields: seq<Field>, secrets: seq<string>)
    requires AllGuarded(secrets)
    ensures forall f :: f in RedactFields(fields, secrets) ==>
              !TextHasSecret(f.key, secrets)
              && exists g :: g in fields && Clean(g.value, f.value, secrets)
    decreases fields
  {
    hide Clean, TextHasSecret;
    if fields != [] {
      var n := |fields| - 1;
      assert fields[n] in fields;
      FieldsClean(fields[..n], secrets);
      RedactCleans(fields[n].value, secrets);
      RedactedTextClean(fields[n].key, secrets);
      AssignFields(RedactFields(fields[..n], secrets), RedactedText(fields[n].key, secrets),
                   Redact(fields[n].value, secrets));
    }
  }

  lemma {:induction false} ScalarIsContained(value: Json, secrets: seq<string>)
    requires HasSecretScalar(value, secrets)
    ensures Contains(value, secrets)
    decreases value
  {
    match value
    case Scalar(_) =>
    case Array(items) =>
      var i :| 0 <= i < |items| && HasSecretScalar(items[i], secrets);
      ScalarIsContained(items[i], secrets);
    case Object(fields) =>
      var i :| 0 <= i < |fields| && HasSecretScalar(fields[i].value, secrets);
      ScalarIsContained(fields[i].value, secrets);
  }

  /**
   * When every secret is guarded (all the more when all are mask-proof), the detector finds a secret in
   * the redacted tree exactly when a number or boolean in it is printed as one, which redaction leaves
   * alone; never in a tree of strings.
   */
  lemma RedactedIsClean(value: Json, secrets: seq<string>)
    requires AllGuarded(secrets)
    ensures Contains(Redact(value, secrets), secrets) <==> HasSecretScalar(Redact(value, secrets), secrets)
    ensures !HasSecretScalar(value, secrets) ==> !Contains(Redact(value, secrets), secrets)
  {
    RedactCleans(value, secrets);
    if HasSecretScalar(Redact(value, secrets), secrets) {
      ScalarIsContained(Redact(value, secrets), secrets);
    }
  }

  /** Every object in the tree has each key once. */
  predicate DistinctKeys(value: Json)
    decreases value
  {
    match value
    case Array(items) => forall i :: 0 <= i < |items| ==> DistinctKeys(items[i])
    case Object(fields) =>
      && (forall i, j :: 0 <= i < j < |fields| ==> fields[i].key != fields[j].key)
      && forall i :: 0 <= i < |fields| ==> DistinctKeys(fields[i].value)
    case _ => true
  }

  lemma {:induction false} AssignNew(fields: seq<Field>, key: string, value: Json)
    requires forall f :: f in fields ==> f.key != key
    ensures Assign(fields, key, value) == fields + [Field(key, value)]
  {
    if fields != [] {
      AssignNew(fields[1..], key, value);
    }
  }

  /** A tree in which the detector finds nothing is left exactly as it is. */
  lemma {:induction false} RedactSame(value: Json, secrets: seq<string>)
    requires !Contains(value, secrets) && DistinctKeys(value)
    ensures Redact(value, secrets) == value
    decreases value
  {
    match value
    case Text(text) => RedactedTextSame(text, secrets);
    case Scalar(_) =>
    case Null =>
    case Array(items) => ItemsSame(items, secrets);
    case Object(fields) => FieldsSame(fields, secrets);
  }

  lemma {:induction false} ItemsSame(items: seq<Json>, secrets: seq<string>)
    requires forall i :: 0 <= i < |items| ==> !Contains(items[i], secrets) && DistinctKeys(items[i])
    ensures RedactItems(items, secrets) == items
    decreases items
  {
    if items != [] {
      RedactSame(items[0], secrets);
      ItemsSame(items[1..], secrets);
    }
  }

  lemma {:induction false} FieldsSame(fields: seq<Field>, secrets: seq<string>)
    requires forall i, j :: 0 <= i < j < |fields| ==> fields[i].key != fields[j].key
    requires forall i :: 0 <= i < |fields| ==>
               !TextHasSecret(fields[i].key, secrets) && !Contains(fields[i].value, secrets)
               && DistinctKeys(fields[i].value)
    ensures RedactFields(fields, secrets) == fields
    decreases fields
  {
    if fields != [] {
      var n := |fields| - 1;
      assert fields[n] in fields;
      FieldsSame(fields[..n], secrets);
      RedactSame(fields[n].value, secrets);
      RedactedTextSame(fields[n].key, secrets);
      AssignNew(fields[..n], fields[n].key, fields[n].value);
    }
  }
}
