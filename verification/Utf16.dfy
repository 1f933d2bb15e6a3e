/**
 * The order in which JavaScript sorts strings: by their UTF-16 code units, which above U+FFFF is not
 * the order of the characters.
 */
module Utf16 {

  import opened Sorting

  /** One unit, or a surrogate pair. */
  function CharUnits(c: char): (u: seq<int>)
    ensures 1 <= |u| <= 2
  {
    var n := c as int;
    if n < 0x1_0000 then [n] else [0xD800 + (n - 0x1_0000) / 0x400, 0xDC00 + (n - 0x1_0000) % 0x400]
  }

  /** A character above U+FFFF is a high and a low surrogate, each carrying ten bits of what exceeds 0x10000. */
  lemma PairIs(c: char)
    ensures var u, n := CharUnits(c), c as int;
      if n < 0x1_0000 then u == [n]
      else |u| == 2 && 0xD800 <= u[0] < 0xDC00 && 0xDC00 <= u[1] < 0xE000
           && n == 0x1_0000 + 0x400 * (u[0] - 0xD800) + (u[1] - 0xDC00)
  {
  }

  function Units(text: string): (u: seq<int>) {
    if text == "" then [] else CharUnits(text[0]) + Units(text[1..])
  }

  predicate UnitsLeq(a: seq<int>, b: seq<int>) {
    a == [] || (b != [] && (a[0] < b[0] || (a[0] == b[0] && UnitsLeq(a[1..], b[1..]))))
  }

  /** The default order of `Array.prototype.sort`. */
  function JsOrder(): (string, string) -> bool {
    (a: string, b: string) => UnitsLeq(Units(a), Units(b))
  }

  lemma {:induction false} UnitsTotal(a: seq<int>, b: seq<int>)
    ensures UnitsLeq(a, b) || UnitsLeq(b, a)
    ensures UnitsLeq(a, b) && UnitsLeq(b, a) ==> a == b
  {
    if a != [] && b != [] && a[0] == b[0] {
      UnitsTotal(a[1..], b[1..]);
      assert a == [a[0]] + a[1..] && b == [b[0]] + b[1..];
    }
  }

  lemma {:induction false} UnitsTransitive(a: seq<int>, b: seq<int>, c: seq<int>)
    requires UnitsLeq(a, b) && UnitsLeq(b, c)
    ensures UnitsLeq(a, c)
  {
    if a != [] && a[0] == b[0] == c[0] {
      UnitsTransitive(a[1..], b[1..], c[1..]);
    }
  }

  lemma JsOrderTotal()
    ensures TotalPreorder(JsOrder())
  {
    forall a, b
      ensures JsOrder()(a, b) || JsOrder()(b, a)
    {
      UnitsTotal(Units(a), Units(b));
    }
    forall a, b, c | JsOrder()(a, b) && JsOrder()(b, c)
      ensures JsOrder()(a, c)
    {
      UnitsTransitive(Units(a), Units(b), Units(c));
    }
  }

  /** The first unit tells a surrogate pair from a single unit, so the units determine the character. */
  lemma FirstChar(a: char, b: char, restA: seq<int>, restB: seq<int>)
    requires CharUnits(a) + restA == CharUnits(b) + restB
    ensures a == b && restA == restB
  {
    var s, t := CharUnits(a) + restA, CharUnits(b) + restB;
    assert s[0] == CharUnits(a)[0] && t[0] == CharUnits(b)[0];
    assert |CharUnits(a)| == 2 ==> s[1] == CharUnits(a)[1];
    assert |CharUnits(b)| == 2 ==> t[1] == CharUnits(b)[1];
    assert |CharUnits(a)| == |CharUnits(b)|;
    assert s[|CharUnits(a)|..] == restA && t[|CharUnits(b)|..] == restB;
    PairDetermines(a, b);
  }

  lemma PairDetermines(a: char, b: char)
    ensures CharUnits(a) == CharUnits(b) ==> a == b
  {
    var x, y := a as int - 0x1_0000, b as int - 0x1_0000;
    assert x == x / 0x400 * 0x400 + x % 0x400 && y == y / 0x400 * 0x400 + y % 0x400;
  }

  lemma {:induction false} UnitsInjective(a: string, b: string)
    requires Units(a) == Units(b)
    ensures a == b
  {
    hide CharUnits;
    if a != "" && b != "" {
      FirstChar(a[0], b[0], Units(a[1..]), Units(b[1..]));
      UnitsInjective(a[1..], b[1..]);
      assert a == [a[0]] + a[1..] && b == [b[0]] + b[1..];
    }
  }

  /** The order has no ties between different strings. */
  lemma JsOrderAntisymmetric(a: string, b: string)
    requires JsOrder()(a, b) && JsOrder()(b, a)
    ensures a == b
  {
    UnitsTotal(Units(a), Units(b));
    UnitsInjective(a, b);
  }

  /** Below U+10000 the two orders agree. */
  lemma {:induction false} BasicPlaneOrder(a: string, b: string)
    requires forall c :: c in a || c in b ==> c as int < 0x1_0000
    ensures JsOrder()(a, b) <==> TextLeq(a, b)
  {
    if a != "" && b != "" {
      assert a[0] in a && b[0] in b;
      assert (forall c :: c in a[1..] ==> c in a) && forall c :: c in b[1..] ==> c in b;
      assert Units(a) == [a[0] as int] + Units(a[1..]) && Units(b) == [b[0] as int] + Units(b[1..]);
      assert Units(a)[1..] == Units(a[1..]) && Units(b)[1..] == Units(b[1..]);
      if a[0] == b[0] {
        BasicPlaneOrder(a[1..], b[1..]);
      }
    }
  }

  /** Above it they do not: U+FFFD comes before U+10000, but after it in units. */
  lemma OrdersDiffer()
    ensures TextLeq("\U{FFFD}", "\U{10000}") && !JsOrder()("\U{FFFD}", "\U{10000}")
  {
    assert Units("\U{FFFD}")[0] == 0xFFFD;
    assert Units("\U{10000}")[0] == 0xD800;
  }
}
