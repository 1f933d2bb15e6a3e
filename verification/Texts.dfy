/** Operations on strings that several parts of the program share. */
module Texts {

  /** `parts.join(separator)` */
  function Join(parts: seq<string>, separator: string): string {
    if parts == [] then ""
    else if |parts| == 1 then parts[0]
    else parts[0] + separator + Join(parts[1..], separator)
  }

  lemma JoinCons(first: string, rest: seq<string>, separator: string)
    ensures Join([first] + rest, separator)
            == if rest == [] then first else first + separator + Join(rest, separator)
  {
    assert ([first] + rest)[1..] == rest;
  }

  /** The white space and line terminators that `trim` removes. */
  predicate Blank(c: char) {
    var n := c as int;
    || 0x09 <= n <= 0x0D || n == 0x20 || n == 0xA0 || n == 0x1680 || 0x2000 <= n <= 0x200A
    || n == 0x2028 || n == 0x2029 || n == 0x202F || n == 0x205F || n == 0x3000 || n == 0xFEFF
  }

  /** The white space and line terminators of ECMAScript, one by one. */
  lemma BlanksAre(c: char)
    ensures Blank(c) <==>
              c as int in [0x0009, 0x000A, 0x000B, 0x000C, 0x000D, 0x0020, 0x00A0, 0x1680,
                           0x2000, 0x2001, 0x2002, 0x2003, 0x2004, 0x2005, 0x2006, 0x2007, 0x2008, 0x2009, 0x200A,
                           0x2028, 0x2029, 0x202F, 0x205F, 0x3000, 0xFEFF]
  {
  }

  function TrimStart(s: string): string {
    if s != "" && Blank(s[0]) then TrimStart(s[1..]) else s
  }

  function TrimEnd(s: string): string {
    if s != "" && Blank(s[|s| - 1]) then TrimEnd(s[..|s| - 1]) else s
  }

  function Trim(s: string): string {
    TrimEnd(TrimStart(s))
  }

  lemma {:induction false} TrimStartIs(s: string)
    ensures |TrimStart(s)| <= |s| && s[|s| - |TrimStart(s)|..] == TrimStart(s)
    ensures forall i :: 0 <= i < |s| - |TrimStart(s)| ==> Blank(s[i])
  {
    hide Blank;
    if s != "" && Blank(s[0]) {
      TrimStartIs(s[1..]);
      var n := |s| - |TrimStart(s)|;
      assert s[n..] == s[1..][n - 1..];
      assert forall i :: 1 <= i < n ==> s[i] == s[1..][i - 1];
    }
  }

  lemma {:induction false} TrimEndIs(s: string)
    ensures |TrimEnd(s)| <= |s| && s[..|TrimEnd(s)|] == TrimEnd(s)
    ensures forall i :: |TrimEnd(s)| <= i < |s| ==> Blank(s[i])
  {
    hide Blank;
    if s != "" && Blank(s[|s| - 1]) {
      var rest := s[..|s| - 1];
      TrimEndIs(rest);
      assert s[..|TrimEnd(s)|] == rest[..|TrimEnd(s)|];
      assert forall i :: |TrimEnd(s)| <= i < |rest| ==> s[i] == rest[i];
    }
  }

  /** What is trimmed away is blank, on either side, and what is left neither begins nor ends with a blank. */
  lemma TrimIs(s: string)
    ensures exists i, j :: 0 <= i <= j <= |s| && Trim(s) == s[i..j]
              && (forall k :: 0 <= k < i || j <= k < |s| ==> Blank(s[k]))
              && (i < j ==> !Blank(s[i]) && !Blank(s[j - 1]))
  {
    hide Blank;
    TrimStartIs(s);
    TrimStartStart(s);
    var rest := TrimStart(s);
    TrimEndIs(rest);
    TrimEndEnd(rest);
    if rest != "" {
      TrimEndStart(rest);
    }
    var i := |s| - |rest|;
    var j := i + |Trim(s)|;
    assert Trim(s) == rest[..|Trim(s)|] == s[i..j];
    assert forall k :: j <= k < |s| ==> s[k] == rest[k - i];
  }

  lemma {:induction false} TrimEndStart(s: string)
    requires s != "" && !Blank(s[0])
    ensures TrimEnd(s) != "" && TrimEnd(s)[0] == s[0]
  {
    if Blank(s[|s| - 1]) {
      TrimEndStart(s[..|s| - 1]);
    }
  }

  lemma {:induction false} TrimStartStart(s: string)
    ensures TrimStart(s) != "" ==> !Blank(TrimStart(s)[0])
  {
    if s != "" && Blank(s[0]) {
      TrimStartStart(s[1..]);
    }
  }

  lemma {:induction false} TrimEndEnd(s: string)
    ensures TrimEnd(s) != "" ==> !Blank(TrimEnd(s)[|TrimEnd(s)| - 1])
  {
    if s != "" && Blank(s[|s| - 1]) {
      TrimEndEnd(s[..|s| - 1]);
    }
  }

  /** Trimming what has been trimmed changes nothing. */
  lemma TrimTwice(s: string)
    ensures Trim(Trim(s)) == Trim(s)
  {
    TrimStartStart(s);
    TrimEndEnd(TrimStart(s));
    if TrimStart(s) != "" {
      TrimEndStart(TrimStart(s));
    }
  }
}
