/**
 * The text of a systemd service unit: how the installer quotes a service argument, and that the
 * arguments can be read back from the text.
 */
module ServiceUnit {

  import opened Bytes
  import opened Options

  /** Replace every occurrence of one character. */
  function Replace(s: string, c: char, with: string): string {
    if s == "" then "" else (if s[0] == c then with else [s[0]]) + Replace(s[1..], c, with)
  }

  predicate HasLineBreak(s: string) {
    '\n' in s || '\r' in s || '\0' in s
  }

  /** A value is refused exactly for a line feed, a carriage return or a null character in it. */
  lemma LineBreaksAre(value: string)
    ensures QuoteSystemd(value).Rejected? <==> exists c :: c in value && (c as int == 10 || c as int == 13 || c as int == 0)
  {
    if HasLineBreak(value) {
      var c :| c in value && (c == '\n' || c == '\r' || c == '\0');
    }
  }

  /** `quote_systemd`: four replacements over the whole value, one after the other. */
  function QuoteSystemd(value: string): Outcome<string> {
    if HasLineBreak(value) then Rejected
    else Ok("\"" + Escaped(value) + "\"")
  }

  function Escaped(value: string): string {
    Replace(Replace(Replace(Replace(value, '\\', "\\\\"), '"', "\\\""), '%', "%%"), '$', "$$")
  }

  /** `unit_text` */
  function UnitText(python: string, runtime: string, recordPath: string): Outcome<string> {
    var q0, q1, q2 := QuoteSystemd(python), QuoteSystemd(runtime + "/durable.py"), QuoteSystemd(recordPath);
    if q0.Ok? && q1.Ok? && q2.Ok? then
      Ok(UNIT_HEAD + (q0.value + (" " + (q1.value + (" run " + (q2.value + UNIT_TAIL))))))
    else Rejected
  }

  const UNIT_HEAD := "[Unit]\nDescription=Atms durable event supervisor\n[Service]\nType=exec\nExecStart="
  const UNIT_TAIL := "\nUMask=0077\nRestart=on-failure\nRestartSec=10s\nKillMode=process\nTimeoutStopSec=10s\n[Install]\nWantedBy=default.target\n"

  // ---------------------------------------------------------------- reading an argument back

  /**
   * How systemd reads the inside of a double-quoted argument: a backslash keeps the next character, a
   * doubled percent or dollar sign stands for itself, and the first bare quote ends the argument. The
   * result is the argument and what follows it; a lone percent or dollar sign would be expanded, and is
   * not an argument that stands for itself.
   */
  function ReadInside(s: string): Option<(string, string)> {
    if s == "" then None
    else if s[0] == '"' then Some(("", s[1..]))
    else if s[0] in "\\%$" then
      if |s| < 2 || (s[0] != '\\' && s[1] != s[0]) then None
      else
        match ReadInside(s[2..])
        case None => None
        case Some((word, rest)) => Some(([s[1]] + word, rest))
    else
      match ReadInside(s[1..])
      case None => None
      case Some((word, rest)) => Some(([s[0]] + word, rest))
  }

  function EscapedChar(c: char): string {
    if c == '\\' then "\\\\" else if c == '"' then "\\\"" else if c == '%' then "%%" else if c == '$' then "$$" else [c]
  }

  lemma {:induction false} ReplaceConcat(s: string, t: string, c: char, with: string)
    ensures Replace(s + t, c, with) == Replace(s, c, with) + Replace(t, c, with)
  {
    if s == "" {
      assert s + t == t;
    } else {
      assert (s + t)[1..] == s[1..] + t;
      ReplaceConcat(s[1..], t, c, with);
    }
  }

  lemma ReplaceOne(x: char, c: char, with: string)
    ensures Replace([x], c, with) == if x == c then with else [x]
  {
    assert [x][1..] == "";
  }

  lemma ReplaceTwo(s: string, c: char, with: string)
    requires |s| == 2
    ensures Replace(s, c, with) == (if s[0] == c then with else [s[0]]) + (if s[1] == c then with else [s[1]])
  {
    ReplaceOne(s[1], c, with);
    assert s[1..] == [s[1]];
  }

  /** The later replacements never touch what the earlier ones wrote. */
  lemma EscapedOne(x: char)
    ensures Escaped([x]) == EscapedChar(x)
  {
    ReplaceOne(x, '\\', "\\\\");
    ReplaceOne(x, '"', "\\\"");
    ReplaceOne(x, '%', "%%");
    ReplaceOne(x, '$', "$$");
    ReplaceTwo("\\\\", '"', "\\\"");
    ReplaceTwo("\\\\", '%', "%%");
    ReplaceTwo("\\\\", '$', "$$");
    ReplaceTwo("\\\"", '%', "%%");
    ReplaceTwo("\\\"", '$', "$$");
    ReplaceTwo("%%", '$', "$$");
    hide Replace;
  }

  /** The four passes together escape one character after the other. */
  lemma EscapedStep(value: string)
    requires value != ""
    ensures Escaped(value) == EscapedChar(value[0]) + Escaped(value[1..])
  {
    var x, rest := [value[0]], value[1..];
    assert value == x + rest;
    var x1, rest1 := Replace(x, '\\', "\\\\"), Replace(rest, '\\', "\\\\");
    ReplaceConcat(x, rest, '\\', "\\\\");
    var x2, rest2 := Replace(x1, '"', "\\\""), Replace(rest1, '"', "\\\"");
    ReplaceConcat(x1, rest1, '"', "\\\"");
    ReplaceConcat(x2, rest2, '%', "%%");
    ReplaceConcat(Replace(x2, '%', "%%"), Replace(rest2, '%', "%%"), '$', "$$");
    EscapedOne(value[0]);
    hide Replace;
  }

  lemma {:induction false} EscapedReadsBack(value: string, rest: string)
    ensures ReadInside(Escaped(value) + "\"" + rest) == Some((value, rest))
  {
    if value == "" {
      assert Escaped(value) + "\"" + rest == "\"" + rest;
    } else {
      EscapedStep(value);
      EscapedReadsBack(value[1..], rest);
      var c, tail := EscapedChar(value[0]), Escaped(value[1..]) + "\"" + rest;
      hide Escaped;
      assert Escaped(value) + "\"" + rest == c + tail;
      assert (c + tail)[|c|..] == tail;
      assert value == [value[0]] + value[1..];
    }
  }

  /** Every service argument is read back as it was given. */
  lemma QuotedReadsBack(value: string, rest: string)
    requires !HasLineBreak(value)
    ensures QuoteSystemd(value).Ok?
    ensures var text := QuoteSystemd(value).value + rest;
      text[0] == '"' && ReadInside(text[1..]) == Some((value, rest))
  {
    EscapedReadsBack(value, rest);
    var text := QuoteSystemd(value).value + rest;
    assert text[1..] == Escaped(value) + "\"" + rest;
  }

  lemma QuotedInjective(a: string, b: string, restA: string, restB: string)
    requires QuoteSystemd(a).Ok? && QuoteSystemd(b).Ok?
    requires QuoteSystemd(a).value + restA == QuoteSystemd(b).value + restB
    ensures a == b && restA == restB
  {
    QuotedReadsBack(a, restA);
    QuotedReadsBack(b, restB);
  }

  lemma DropPrefix(prefix: string, a: string, b: string)
    requires prefix + a == prefix + b
    ensures a == b
  {
    assert (prefix + a)[|prefix|..] == a;
    assert (prefix + b)[|prefix|..] == b;
  }

  lemma DropSuffix(a: string, b: string, suffix: string)
    requires a + suffix == b + suffix
    ensures a == b
  {
    assert |a| == |b|;
    assert (a + suffix)[..|a|] == a;
    assert (b + suffix)[..|b|] == b;
  }

  /** A unit file names one interpreter, one runtime and one registration. */
  lemma UnitTextInjective(python: string, runtime: string, recordPath: string,
                          python': string, runtime': string, recordPath': string)
    requires UnitText(python, runtime, recordPath).Ok?
    requires UnitText(python', runtime', recordPath') == UnitText(python, runtime, recordPath)
    ensures python == python' && runtime == runtime' && recordPath == recordPath'
  {
    var script, script' := runtime + "/durable.py", runtime' + "/durable.py";
    var a0, a1, a2 := QuoteSystemd(python).value, QuoteSystemd(script).value, QuoteSystemd(recordPath).value;
    var b0, b1, b2 := QuoteSystemd(python').value, QuoteSystemd(script').value, QuoteSystemd(recordPath').value;
    var restA, restB := a2 + UNIT_TAIL, b2 + UNIT_TAIL;
    var midA, midB := a1 + (" run " + restA), b1 + (" run " + restB);
    assert UnitText(python, runtime, recordPath).value == UNIT_HEAD + (a0 + (" " + midA));
    assert UnitText(python', runtime', recordPath').value == UNIT_HEAD + (b0 + (" " + midB));
    hide *;
    DropPrefix(UNIT_HEAD, a0 + (" " + midA), b0 + (" " + midB));
    QuotedInjective(python, python', " " + midA, " " + midB);
    DropPrefix(" ", midA, midB);
    QuotedInjective(script, script', " run " + restA, " run " + restB);
    DropSuffix(runtime, runtime', "/durable.py");
    DropPrefix(" run ", restA, restB);
    QuotedInjective(recordPath, recordPath', UNIT_TAIL, UNIT_TAIL);
  }
}
