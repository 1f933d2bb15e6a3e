/**
 * The Skill Context handed to a DAG worker: a list of Skills in canonical order, its own size in bytes
 * as it goes over the wire, and a digest of both. The size is written inside the text it measures.
 */
module SkillContext {

  import opened Bytes
  import opened Decimals
  import opened Options
  import opened Sorting
  import Sha256
  import Sha256Spec
  import opened Texts
  import opened Utf8
  import Words

  const MAX_COUNT := 8
  const MAX_CONTEXT_BYTES := 64 * 1024
  const MAX_SAFE_INTEGER := 9007199254740991

  /** A Skill; `rest` stands for its plugin and visual profile. */
  datatype Skill = Skill(id: string, source: string, digest: string, content: string, rest: string)

  datatype Input = Input(id: string, source: string, digest: Option<string>, content: string, rest: string)

  datatype Context = Context(version: int, digest: string, totalBytes: nat, skills: seq<Skill>)

  /** A parsed JSON value of the right shape, with whatever numbers and strings it came with. */
  datatype RawContext = RawContext(version: int, digest: string, totalBytes: int, skills: seq<Skill>)

  /**
   * What is taken from elsewhere: the remaining checks on one Skill, the collation of ids and sources
   * (`localeCompare`), and the JSON text of one Skill.
   */
  datatype Rules = Rules(wellFormed: Skill -> bool, idLeq: (string, string) -> bool, text: Skill -> string)

  ghost predicate Sane(rules: Rules) {
    TotalPreorder(rules.idLeq)
  }

  // ---------------------------------------------------------------- the wire text

  function SkillTexts(rules: Rules, skills: seq<Skill>): seq<string> {
    seq(|skills|, i requires 0 <= i < |skills| => rules.text(skills[i]))
  }

  /** Everything before the size in the digested text, whose keys are in sorted order. */
  function Body(rules: Rules, skills: seq<Skill>): string {
    "\"context_version\":1,\"skills\":[" + Join(SkillTexts(rules, skills), ",") + "],\"total_bytes\":"
  }

  /** `stableStringify(context)` */
  function Wire(rules: Rules, c: Context): string {
    "{\"context_digest\":\"" + c.digest + "\"," + Body(rules, c.skills) + Decimal(c.totalBytes) + "}"
  }

  function WireBytes(rules: Rules, c: Context): nat {
    |Encode(Wire(rules, c))|
  }

  // ---------------------------------------------------------------- canonical order

  function SkillOrder(rules: Rules): (Skill, Skill) -> bool {
    (a: Skill, b: Skill) =>
      rules.idLeq(a.id, b.id) && (rules.idLeq(b.id, a.id) ==> rules.idLeq(a.source, b.source))
  }

  function SortedSkills(rules: Rules, skills: seq<Skill>): seq<Skill> {
    StableSort(skills, SkillOrder(rules))
  }

  lemma SkillOrderTotal(rules: Rules)
    requires Sane(rules)
    ensures TotalPreorder(SkillOrder(rules))
  {
    var leq, order := rules.idLeq, SkillOrder(rules);
    forall a, b
      ensures order(a, b) || order(b, a)
    {
      assert leq(a.id, b.id) || leq(b.id, a.id);
      assert leq(a.source, b.source) || leq(b.source, a.source);
    }
    forall a, b, c | order(a, b) && order(b, c)
      ensures order(a, c)
    {
      assert leq(a.id, b.id) && leq(b.id, c.id);
      assert leq(a.id, c.id);
      if leq(c.id, a.id) {
        assert leq(b.id, a.id) && leq(c.id, b.id);
        assert leq(a.source, b.source) && leq(b.source, c.source);
      }
    }
  }

  /** `sha256Utf8`: the module's own copy of SHA-256, line for line the program modelled as `Sha256Hex`. */
  method Sha256Utf8(value: string) returns (digest: string)
    ensures digest == Sha256Spec.TextDigest(value)
  {
    digest := Sha256.Sha256Hex(value);
  }

  /** `digestDagWorkerSkillContext` */
  function Digest(rules: Rules, skills: seq<Skill>, totalBytes: nat): string {
    Sha256Spec.TextDigest("{" + Body(rules, SortedSkills(rules, skills)) + Decimal(totalBytes) + "}")
  }

  function CanonicalContext(rules: Rules, skills: seq<Skill>, totalBytes: nat): Context {
    var sorted := SortedSkills(rules, skills);
    Context(1, Digest(rules, sorted, totalBytes), totalBytes, sorted)
  }

  // ---------------------------------------------------------------- the size that contains itself

  /** Adding the number of digits less one carries into at most one more digit. */
  lemma {:induction false} OneMoreDigit(n: nat, m: nat)
    requires n <= m <= n + 9 * n
    ensures Digits(m) <= Digits(n) + 1
  {
    if m >= 10 {
      DigitsMonotone(m / 10, n);
    }
  }

  function Ten(k: nat): (r: nat)
    ensures r > k
  {
    if k == 0 then 1 else 10 * Ten(k - 1)
  }

  lemma {:induction false} DigitsBound(n: nat)
    ensures n < Ten(Digits(n))
  {
    if n >= 10 {
      DigitsBound(n / 10);
    }
  }

  lemma {:induction false} DigitsAtMost(n: nat, k: nat)
    requires k > 0 && n < Ten(k)
    ensures Digits(n) <= k
  {
    if n >= 10 {
      DigitsAtMost(n / 10, k - 1);
    }
  }

  /** After a carry the next number has as many digits again. */
  lemma NoSecondCarry(n: nat, m: nat)
    requires Digits(m) == Digits(n) + 1 && m <= n + Digits(n)
    ensures Digits(m + 1) == Digits(m)
  {
    DigitsBound(n);
    DigitsAtMost(m + 1, Digits(n) + 1);
    DigitsMonotone(m, m + 1);
  }

  /** The size after so many passes of the loop, when everything but the size's own digits takes `base` bytes. */
  function SizeAfter(base: nat, passes: nat): nat {
    if passes == 0 then 0 else base + Digits(SizeAfter(base, passes - 1))
  }

  ghost predicate IsOwnSize(base: nat, size: nat) {
    size == base + Digits(size)
  }

  /** The size settles at the third pass, and the fourth confirms it. */
  lemma SizeSettles(base: nat)
    requires base > 0
    ensures IsOwnSize(base, SizeAfter(base, 3))
  {
    var n, m := SizeAfter(base, 1), SizeAfter(base, 2);
    assert SizeAfter(base, 0) == 0 && n == base + 1;
    DigitsMonotone(n, m);
    DigitsBelow(n);
    OneMoreDigit(n, m);
    if Digits(m) == Digits(n) + 1 {
      NoSecondCarry(n, m);
    }
  }

  /** No smaller number is its own size. */
  lemma {:induction false} SizeLeast(base: nat, passes: nat, size: nat)
    requires IsOwnSize(base, size)
    ensures SizeAfter(base, passes) <= size
  {
    if passes > 0 {
      SizeLeast(base, passes - 1, size);
      DigitsMonotone(SizeAfter(base, passes - 1), size);
    }
  }

  /** Four passes can be needed: a base of 997 bytes settles at 1001 only then. */
  lemma FourPassesNeeded()
    ensures SizeAfter(997, 1) == 998 && SizeAfter(997, 2) == 1000 && SizeAfter(997, 3) == 1001
    ensures !IsOwnSize(997, 1000) && IsOwnSize(997, 1001)
  {
    assert Digits(998) == 3 && Digits(1000) == 4 && Digits(1001) == 4;
  }

  /** A base can have two sizes of its own: the loop finds the smaller, the parser accepts either. */
  lemma TwoOwnSizes()
    ensures IsOwnSize(996, 999) && IsOwnSize(996, 1000) && SizeAfter(996, 3) == 999
  {
    assert Digits(997) == 3 && Digits(999) == 3 && Digits(1000) == 4;
    assert SizeAfter(996, 1) == 997 && SizeAfter(996, 2) == 999;
  }

  // ---------------------------------------------------------------- the size of a context

  const HEX := "0123456789abcdef"

  lemma {:induction false} HexWordChars(n: nat, digits: nat)
    ensures forall c :: c in Sha256Spec.HexWord(n, digits) ==> c in HEX
  {
    if digits > 0 {
      HexWordChars(n / 16, digits - 1);
      assert Sha256Spec.HexDigit(n % 16) in HEX;
    }
  }

  lemma {:induction false} HexChars(digest: seq<Sha256Spec.Word>)
    ensures forall c :: c in Sha256Spec.Hex(digest) ==> c in HEX
  {
    if digest != [] {
      HexWordChars(Words.ToNat(digest[0]), 8);
      HexChars(digest[1..]);
    }
  }

  predicate IsSha256Text(digest: string) {
    |digest| == 64 && forall c :: c in digest ==> c in HEX
  }

  lemma DigestSize(digest: string)
    requires IsSha256Text(digest)
    ensures |Encode(digest)| == 64
  {
    assert forall c :: c in HEX ==> c as int < 0x80;
    EncodeAscii(digest);
  }

  lemma ShaIsDigest(text: string)
    ensures IsSha256Text(Sha256Spec.TextDigest(text))
  {
    HexChars(Sha256Spec.Sha256(Encode(text)));
  }

  const OPEN := "{\"context_digest\":\""

  /** The bytes of a context's text other than the digits of its size, given a digest of 64 characters. */
  function BaseBytes(rules: Rules, sorted: seq<Skill>): (n: nat)
    ensures n > 0
  {
    64 + |Encode(OPEN)| + |Encode("\"," + Body(rules, sorted))| + |Encode("}")|
  }

  lemma WireSize(rules: Rules, c: Context)
    requires |Encode(c.digest)| == 64
    ensures WireBytes(rules, c) == BaseBytes(rules, c.skills) + Digits(c.totalBytes)
  {
    hide Encode, Decimal, Body;
    var body, size := "\"," + Body(rules, c.skills), Decimal(c.totalBytes);
    DecimalAscii(c.totalBytes);
    EncodeAscii(size);
    EncodeConcat(OPEN, c.digest);
    EncodeConcat(OPEN + c.digest, body);
    EncodeConcat(OPEN + c.digest + body, size);
    EncodeConcat(OPEN + c.digest + body + size, "}");
    assert Wire(rules, c) == OPEN + c.digest + body + size + "}";
  }

  /** What `finalizeCanonicalContext` returns: the context whose size is the least that is its own. */
  function Finalized(rules: Rules, skills: seq<Skill>): Context {
    CanonicalContext(rules, skills, SizeAfter(BaseBytes(rules, SortedSkills(rules, skills)), 3))
  }

  lemma SizeStep(base: nat, k: nat)
    ensures SizeAfter(base, k + 1) == base + Digits(SizeAfter(base, k)) && SizeAfter(base, 0) == 0
  {
  }

  lemma FixpointStays(base: nat, k: nat)
    requires k <= 3 && SizeAfter(base, k + 1) == SizeAfter(base, k)
    ensures SizeAfter(base, 3) == SizeAfter(base, k)
  {
    SizeStep(base, k);
    SizeStep(base, k + 1);
    SizeStep(base, k + 2);
  }

  lemma DigestIsDigest(rules: Rules, skills: seq<Skill>, totalBytes: nat)
    ensures IsSha256Text(Digest(rules, skills, totalBytes))
  {
    ShaIsDigest("{" + Body(rules, SortedSkills(rules, skills)) + Decimal(totalBytes) + "}");
  }

  lemma CanonicalSize(rules: Rules, skills: seq<Skill>, totalBytes: nat)
    ensures WireBytes(rules, CanonicalContext(rules, skills, totalBytes))
            == BaseBytes(rules, SortedSkills(rules, skills)) + Digits(totalBytes)
  {
    hide Sha256Spec.TextDigest, Encode, SortedSkills, WireBytes, BaseBytes, Body, Decimal;
    var c := CanonicalContext(rules, skills, totalBytes);
    DigestIsDigest(rules, SortedSkills(rules, skills), totalBytes);
    DigestSize(c.digest);
    WireSize(rules, c);
  }

  lemma SettledAt(rules: Rules, skills: seq<Skill>, base: nat, k: nat)
    requires base == BaseBytes(rules, SortedSkills(rules, skills))
    requires k <= 3 && SizeAfter(base, k + 1) == SizeAfter(base, k)
    ensures Finalized(rules, skills) == CanonicalContext(rules, skills, SizeAfter(base, k))
  {
    FixpointStays(base, k);
    hide CanonicalContext, SizeAfter, BaseBytes, SortedSkills;
  }

  lemma FourthConfirms(base: nat)
    requires base > 0
    ensures SizeAfter(base, 4) == SizeAfter(base, 3)
  {
    SizeSettles(base);
    SizeStep(base, 3);
  }

  /** The loop always returns, by its fourth pass: the error after the eighth is never raised. */
  method FinalizeCanonicalContext(rules: Rules, skills: seq<Skill>) returns (r: Outcome<Context>, ghost passes: int)
    ensures r == Ok(Finalized(rules, skills)) && passes <= 4
  {
    hide *;
    ghost var base := BaseBytes(rules, SortedSkills(rules, skills));
    FourthConfirms(base);
    SizeStep(base, 0);
    var totalBytes := 0;
    for iteration := 0 to 8
      invariant iteration <= 3 && totalBytes == SizeAfter(base, iteration)
    {
      var context := CanonicalContext(rules, skills, totalBytes);
      var wireBytes := WireBytes(rules, context);
      CanonicalSize(rules, skills, totalBytes);
      SizeStep(base, iteration);
      if wireBytes == totalBytes {
        SettledAt(rules, skills, base, iteration);
        return Ok(context), iteration + 1;
      }
      totalBytes := wireBytes;
    }
    return Rejected, 8;
  }

  // ---------------------------------------------------------------- create and parse

  function ParseSkill(rules: Rules, skill: Skill): Outcome<Skill> {
    if !rules.wellFormed(skill) || skill.digest != Sha256Spec.TextDigest(skill.content) then Rejected else Ok(skill)
  }

  function ParseInput(rules: Rules, input: Input): Outcome<Skill> {
    var digest := Sha256Spec.TextDigest(input.content);
    if input.digest.Some? && input.digest.value != digest then Rejected
    else ParseSkill(rules, Skill(input.id, input.source, digest, input.content, input.rest))
  }

  /** Parse one after the other; the first rejection rejects the list. */
  function ParseInputs(rules: Rules, inputs: seq<Input>): Outcome<seq<Skill>> {
    if inputs == [] then Ok([])
    else
      var first, rest := ParseInput(rules, inputs[0]), ParseInputs(rules, inputs[1..]);
      if first.Rejected? || rest.Rejected? then Rejected else Ok([first.value] + rest.value)
  }

  function ParseSkills(rules: Rules, skills: seq<Skill>): Outcome<seq<Skill>> {
    if skills == [] then Ok([])
    else
      var first, rest := ParseSkill(rules, skills[0]), ParseSkills(rules, skills[1..]);
      if first.Rejected? || rest.Rejected? then Rejected else Ok([first.value] + rest.value)
  }

  predicate DistinctIds(skills: seq<Skill>) {
    forall i, j :: 0 <= i < j < |skills| ==> skills[i].id != skills[j].id
  }

  /** `createDagWorkerSkillContextV1` */
  function Create(rules: Rules, inputs: seq<Input>): Outcome<Context> {
    if |inputs| > MAX_COUNT then Rejected
    else
      var parsed := ParseInputs(rules, inputs);
      if parsed.Rejected? then Rejected
      else
        var skills := SortedSkills(rules, parsed.value);
        if !DistinctIds(skills) then Rejected
        else
          var context := Finalized(rules, skills);
          if context.totalBytes > MAX_CONTEXT_BYTES then Rejected else Ok(context)
  }

  predicate SameOrder(skills: seq<Skill>, canonical: seq<Skill>) {
    |skills| == |canonical|
    && forall i :: 0 <= i < |skills| ==> skills[i].id == canonical[i].id && skills[i].source == canonical[i].source
  }

  /** `parseDagWorkerSkillContextV1` */
  function Parse(rules: Rules, raw: RawContext): Outcome<Context> {
    if raw.version != 1 || |raw.skills| > MAX_COUNT then Rejected
    else
      var parsed := ParseSkills(rules, raw.skills);
      if parsed.Rejected? then Rejected
      else
        var canonical := SortedSkills(rules, parsed.value);
        if !DistinctIds(canonical) || !SameOrder(parsed.value, canonical) then Rejected
        else if !(0 <= raw.totalBytes <= MAX_SAFE_INTEGER) || !IsSha256Text(raw.digest) then Rejected
        else
          var context := Context(1, raw.digest, raw.totalBytes, canonical);
          var wireBytes := WireBytes(rules, context);
          if context.totalBytes != wireBytes || wireBytes > MAX_CONTEXT_BYTES then Rejected
          else if Digest(rules, context.skills, context.totalBytes) != raw.digest then Rejected
          else Ok(context)
  }

  function Raw(c: Context): RawContext {
    RawContext(c.version, c.digest, c.totalBytes, c.skills)
  }

  /** Every Skill passes its checks and carries the SHA-256 of its content. */
  ghost predicate AllParse(rules: Rules, skills: seq<Skill>) {
    forall s :: s in skills ==> rules.wellFormed(s) && s.digest == Sha256Spec.TextDigest(s.content)
  }

  lemma ParseSkillIs(rules: Rules, skill: Skill)
    ensures ParseSkill(rules, skill)
      == if rules.wellFormed(skill) && skill.digest == Sha256Spec.TextDigest(skill.content) then Ok(skill) else Rejected
  {
  }

  lemma {:induction false} ParseSkillsIs(rules: Rules, skills: seq<Skill>)
    ensures ParseSkills(rules, skills) == if AllParse(rules, skills) then Ok(skills) else Rejected
  {
    hide ParseSkill, Sha256Spec.TextDigest;
    if skills != [] {
      assert skills == [skills[0]] + skills[1..];
      ParseSkillsIs(rules, skills[1..]);
      ParseSkillIs(rules, skills[0]);
    }
  }

  lemma {:induction false} ParseInputsParse(rules: Rules, inputs: seq<Input>)
    requires ParseInputs(rules, inputs).Ok?
    ensures AllParse(rules, ParseInputs(rules, inputs).value)
    ensures |ParseInputs(rules, inputs).value| == |inputs|
  {
    hide Sha256Spec.TextDigest;
    if inputs != [] {
      ParseInputsParse(rules, inputs[1..]);
    }
  }

  /** What the parser demands, with nothing computed twice. */
  ghost predicate Canonical(rules: Rules, c: Context) {
    && c.version == 1 && |c.skills| <= 8 && AllParse(rules, c.skills) && DistinctIds(c.skills)
    && SortedSkills(rules, c.skills) == c.skills
    && IsOwnSize(BaseBytes(rules, c.skills), c.totalBytes) && c.totalBytes <= 65536
    && c.digest == Digest(rules, c.skills, c.totalBytes)
  }

  /** Ascending by id and, where ids collate as one, by source. */
  ghost predicate InOrder(rules: Rules, skills: seq<Skill>) {
    forall i, j :: 0 <= i < j < |skills| ==>
      && rules.idLeq(skills[i].id, skills[j].id)
      && (rules.idLeq(skills[j].id, skills[i].id) ==> rules.idLeq(skills[i].source, skills[j].source))
  }

  /** Sorting makes a list canonical, keeps its Skills, and leaves exactly the canonical lists as they are. */
  lemma SortedIs(rules: Rules, skills: seq<Skill>)
    requires Sane(rules)
    ensures InOrder(rules, SortedSkills(rules, skills)) && multiset(SortedSkills(rules, skills)) == multiset(skills)
    ensures SortedSkills(rules, skills) == skills <==> InOrder(rules, skills)
  {
    var order := SkillOrder(rules);
    SkillOrderTotal(rules);
    SortSorted(skills, order);
    SortPermutes(skills, order);
    var sorted := StableSort(skills, order);
    hide StableSort;
    forall i, j | 0 <= i < j < |sorted|
      ensures rules.idLeq(sorted[i].id, sorted[j].id)
      ensures rules.idLeq(sorted[j].id, sorted[i].id) ==> rules.idLeq(sorted[i].source, sorted[j].source)
    {
      assert order(sorted[i], sorted[j]);
    }
    if InOrder(rules, skills) {
      forall i, j | 0 <= i < j < |skills|
        ensures order(skills[i], skills[j])
      {
      }
      SortOfSorted(skills, order);
    }
  }

  /** The Skill an input asks for, with the digest of its content. */
  function Asked(input: Input): Skill {
    Skill(input.id, input.source, Sha256Spec.TextDigest(input.content), input.content, input.rest)
  }

  function AllAsked(inputs: seq<Input>): (r: seq<Skill>)
    ensures |r| == |inputs|
  {
    seq(|inputs|, i requires 0 <= i < |inputs| => Asked(inputs[i]))
  }

  /** May the inputs be made into a context: no digest that lies, and every Skill passes its checks? */
  ghost predicate Admissible(rules: Rules, inputs: seq<Input>) {
    forall input :: input in inputs ==>
      && (input.digest.Some? ==> input.digest.value == Sha256Spec.TextDigest(input.content))
      && rules.wellFormed(Asked(input))
  }

  lemma {:induction false} ParseInputsIs(rules: Rules, inputs: seq<Input>)
    ensures ParseInputs(rules, inputs) == if Admissible(rules, inputs) then Ok(AllAsked(inputs)) else Rejected
  {
    hide Sha256Spec.TextDigest;
    if inputs != [] {
      ParseInputsIs(rules, inputs[1..]);
      assert inputs == [inputs[0]] + inputs[1..];
      assert AllAsked(inputs) == [Asked(inputs[0])] + AllAsked(inputs[1..]);
    }
  }

  /**
   * A context is created exactly from at most eight admissible inputs with distinct ids whose Skills, in
   * canonical order, take at most 65536 bytes with the least size of their own; that is the context.
   */
  lemma CreateExactly(rules: Rules, inputs: seq<Input>, c: Context)
    ensures var skills := SortedSkills(rules, AllAsked(inputs));
      Sane(rules) ==>
        (Create(rules, inputs) == Ok(c) <==>
           && |inputs| <= 8 && Admissible(rules, inputs) && DistinctIds(skills)
           && c.version == 1 && c.skills == skills
           && IsLeastSize(BaseBytes(rules, skills), c.totalBytes) && c.totalBytes <= 65536
           && c.digest == Digest(rules, skills, c.totalBytes))
  {
    hide Digest, BaseBytes, DistinctIds, SortedSkills, Admissible, SizeAfter, AllAsked, Create, IsLeastSize, Sane;
    if Sane(rules) {
      var base := BaseBytes(rules, SortedSkills(rules, AllAsked(inputs)));
      CreateIs(rules, inputs);
      SettledIsLeast(base, c.totalBytes);
      SettledIsLeast(base, SizeAfter(base, 3));
    }
  }

  lemma CreateIs(rules: Rules, inputs: seq<Input>)
    requires Sane(rules)
    ensures var skills := SortedSkills(rules, AllAsked(inputs));
      var size := SizeAfter(BaseBytes(rules, skills), 3);
      Create(rules, inputs)
      == if |inputs| <= 8 && Admissible(rules, inputs) && DistinctIds(skills) && size <= 65536
         then Ok(Context(1, Digest(rules, skills, size), size, skills)) else Rejected
  {
    var skills := SortedSkills(rules, AllAsked(inputs));
    ParseInputsIs(rules, inputs);
    SortedAgain(rules, AllAsked(inputs));
    FinalizedSorted(rules, skills);
    assert MAX_COUNT == 8 && MAX_CONTEXT_BYTES == 65536;
    hide Digest, BaseBytes, ParseInputs, DistinctIds, Finalized, SortedSkills, Admissible, SizeAfter, AllAsked;
  }

  /** The text of a context, for two Skills: sorted keys, no blanks, the size as a number. */
  lemma WireOfTwo(rules: Rules, digest: string, totalBytes: nat, a: Skill, b: Skill)
    ensures Wire(rules, Context(1, digest, totalBytes, [a, b]))
      == "{\"context_digest\":\"" + digest + "\","
         + ("\"context_version\":1,\"skills\":[" + (rules.text(a) + "," + rules.text(b)) + "],\"total_bytes\":")
         + Decimal(totalBytes) + "}"
  {
    var texts := SkillTexts(rules, [a, b]);
    assert texts == [rules.text(a)] + [rules.text(b)];
    JoinCons(rules.text(a), [rules.text(b)], ",");
    assert Join([rules.text(b)], ",") == rules.text(b);
    hide Join, Decimal;
  }

  lemma SortedAgain(rules: Rules, skills: seq<Skill>)
    requires Sane(rules)
    ensures SortedSkills(rules, SortedSkills(rules, skills)) == SortedSkills(rules, skills)
  {
    SkillOrderTotal(rules);
    SortSorted(skills, SkillOrder(rules));
    SortOfSorted(SortedSkills(rules, skills), SkillOrder(rules));
  }

  /** With distinct ids, the same ids in the same places are the same Skills. */
  lemma SameOrderIsSame(rules: Rules, skills: seq<Skill>)
    requires DistinctIds(SortedSkills(rules, skills)) && SameOrder(skills, SortedSkills(rules, skills))
    ensures SortedSkills(rules, skills) == skills
  {
    var canonical := SortedSkills(rules, skills);
    SortMembers(skills, SkillOrder(rules));
    forall i | 0 <= i < |skills|
      ensures canonical[i] == skills[i]
    {
      assert skills[i] in canonical;
      var j :| 0 <= j < |canonical| && canonical[j] == skills[i];
      assert canonical[j].id == canonical[i].id;
    }
  }

  /** The parser accepts exactly the canonical contexts, and returns them unchanged. */
  lemma ParseExactly(rules: Rules, raw: RawContext, c: Context)
    ensures Parse(rules, raw) == Ok(c) <==> raw == Raw(c) && Canonical(rules, c)
  {
    hide Digest, BaseBytes, WireBytes, Digits, IsSha256Text, SortedSkills, AllParse, ParseSkills;
    ParseSkillsIs(rules, raw.skills);
    DigestIsDigest(rules, raw.skills, if raw.totalBytes >= 0 then raw.totalBytes else 0);
    if IsSha256Text(raw.digest) && raw.totalBytes >= 0 {
      DigestSize(raw.digest);
      WireSize(rules, Context(1, raw.digest, raw.totalBytes, raw.skills));
    }
    if DistinctIds(SortedSkills(rules, raw.skills)) && SameOrder(raw.skills, SortedSkills(rules, raw.skills)) {
      SameOrderIsSame(rules, raw.skills);
    }
  }

  lemma FinalizedSorted(rules: Rules, skills: seq<Skill>)
    requires SortedSkills(rules, skills) == skills
    ensures var size := SizeAfter(BaseBytes(rules, skills), 3);
      && Finalized(rules, skills) == Context(1, Digest(rules, skills, size), size, skills)
      && IsOwnSize(BaseBytes(rules, skills), size)
  {
    SizeSettles(BaseBytes(rules, skills));
    hide Digest, BaseBytes, SizeAfter, SortedSkills, Digits;
  }

  lemma CreateIsCanonical(rules: Rules, inputs: seq<Input>)
    requires Sane(rules) && Create(rules, inputs).Ok?
    ensures Canonical(rules, Create(rules, inputs).value)
  {
    hide Digest, BaseBytes, ParseSkill, ParseInputs, DistinctIds, Digits, SizeAfter, Finalized, SortedSkills;
    var parsed := ParseInputs(rules, inputs).value;
    ParseInputsParse(rules, inputs);
    SortedAgain(rules, parsed);
    FinalizedSorted(rules, SortedSkills(rules, parsed));
    SortedParse(rules, parsed);
  }

  lemma SortedParse(rules: Rules, skills: seq<Skill>)
    requires AllParse(rules, skills)
    ensures AllParse(rules, SortedSkills(rules, skills)) && |SortedSkills(rules, skills)| == |skills|
  {
    SortMembers(skills, SkillOrder(rules));
    hide ParseSkill;
  }

  /** Every context that `create` returns is accepted by `parse` unchanged. */
  lemma CreateThenParse(rules: Rules, inputs: seq<Input>)
    requires Sane(rules) && Create(rules, inputs).Ok?
    ensures var c := Create(rules, inputs).value; Parse(rules, Raw(c)) == Ok(c)
  {
    CreateIsCanonical(rules, inputs);
    hide *;
    var c := Create(rules, inputs).value;
    ParseExactly(rules, Raw(c), c);
  }

  function AsInputs(skills: seq<Skill>): (r: seq<Input>)
    ensures |r| == |skills|
  {
    seq(|skills|, i requires 0 <= i < |skills| =>
      Input(skills[i].id, skills[i].source, Some(skills[i].digest), skills[i].content, skills[i].rest))
  }

  lemma {:induction false} InputsParseBack(rules: Rules, skills: seq<Skill>)
    requires AllParse(rules, skills)
    ensures ParseInputs(rules, AsInputs(skills)) == Ok(skills)
  {
    hide Sha256Spec.TextDigest;
    if skills != [] {
      assert AsInputs(skills)[1..] == AsInputs(skills[1..]);
      assert skills[0] in skills && forall s :: s in skills[1..] ==> s in skills;
      InputsParseBack(rules, skills[1..]);
      assert ParseSkill(rules, skills[0]).Ok?;
      assert ParseInput(rules, AsInputs(skills)[0]) == Ok(skills[0]);
      assert skills == [skills[0]] + skills[1..];
    }
  }

  lemma CreateFromCanonical(rules: Rules, c: Context)
    requires Canonical(rules, c)
    ensures var size := SizeAfter(BaseBytes(rules, c.skills), 3);
      && size <= c.totalBytes
      && Create(rules, AsInputs(c.skills)) == Ok(Context(1, Digest(rules, c.skills, size), size, c.skills))
  {
    hide Digest, BaseBytes, ParseSkill, ParseInputs, AllParse, Digits, SizeAfter, Finalized, SortedSkills;
    InputsParseBack(rules, c.skills);
    FinalizedSorted(rules, c.skills);
    SizeLeast(BaseBytes(rules, c.skills), 3, c.totalBytes);
  }

  ghost predicate IsLeastSize(base: nat, size: nat) {
    IsOwnSize(base, size) && forall other: nat :: IsOwnSize(base, other) ==> size <= other
  }

  lemma SettledIsLeast(base: nat, size: nat)
    requires base > 0
    ensures IsLeastSize(base, size) <==> size == SizeAfter(base, 3)
  {
    hide Digits;
    SizeSettles(base);
    forall other: nat | IsOwnSize(base, other)
      ensures SizeAfter(base, 3) <= other
    {
      SizeLeast(base, 3, other);
    }
  }

  /**
   * Creating a context from the Skills of an accepted one gives the same Skills, in the same order, in no
   * more bytes; and the same context exactly when the accepted one carries the least size of its own.
   */
  lemma ParseThenCreate(rules: Rules, raw: RawContext)
    requires Parse(rules, raw).Ok?
    ensures var c := Parse(rules, raw).value;
      var d := Create(rules, AsInputs(c.skills));
      && d.Ok? && d.value.skills == c.skills && d.value.totalBytes <= c.totalBytes
      && (d.value == c <==> IsLeastSize(BaseBytes(rules, c.skills), c.totalBytes))
  {
    var c := Parse(rules, raw).value;
    ParseExactly(rules, raw, c);
    hide *;
    CreateFromCanonical(rules, c);
    SettledIsLeast(BaseBytes(rules, c.skills), c.totalBytes);
    CanonicalParts(rules, c);
  }

  lemma CanonicalParts(rules: Rules, c: Context)
    requires Canonical(rules, c)
    ensures c == Context(1, Digest(rules, c.skills, c.totalBytes), c.totalBytes, c.skills)
  {
  }
}
