/**
 * A stable sort, standing for `Array.prototype.sort`: any stable sort by a total preorder returns
 * this sequence.
 */
module Sorting {

  ghost predicate TotalPreorder<T(!new)>(leq: (T, T) -> bool) {
    && (forall x, y :: leq(x, y) || leq(y, x))
    && (forall x, y, z :: leq(x, y) && leq(y, z) ==> leq(x, z))
  }

  ghost predicate SortedBy<T>(s: seq<T>, leq: (T, T) -> bool) {
    forall i, j :: 0 <= i < j < |s| ==> leq(s[i], s[j])
  }

  function Insert<T>(x: T, s: seq<T>, leq: (T, T) -> bool): (r: seq<T>)
    ensures |r| == |s| + 1
  {
    if s == [] then [x] else if leq(x, s[0]) then [x] + s else [s[0]] + Insert(x, s[1..], leq)
  }

  function StableSort<T>(s: seq<T>, leq: (T, T) -> bool): (r: seq<T>)
    ensures |r| == |s|
  {
    if s == [] then [] else Insert(s[0], StableSort(s[1..], leq), leq)
  }

  lemma {:induction false} InsertPermutes<T>(x: T, s: seq<T>, leq: (T, T) -> bool)
    ensures multiset(Insert(x, s, leq)) == multiset{x} + multiset(s)
  {
    if s != [] {
      assert s == [s[0]] + s[1..];
      if !leq(x, s[0]) { InsertPermutes(x, s[1..], leq); }
    }
  }

  lemma {:induction false} SortPermutes<T>(s: seq<T>, leq: (T, T) -> bool)
    ensures multiset(StableSort(s, leq)) == multiset(s)
  {
    if s != [] {
      assert s == [s[0]] + s[1..];
      SortPermutes(s[1..], leq);
      InsertPermutes(s[0], StableSort(s[1..], leq), leq);
    }
  }

  lemma SortMembers<T>(s: seq<T>, leq: (T, T) -> bool)
    ensures forall x :: x in StableSort(s, leq) <==> x in s
  {
    SortPermutes(s, leq);
    forall x ensures x in StableSort(s, leq) <==> x in s {
      assert x in StableSort(s, leq) <==> x in multiset(StableSort(s, leq));
    }
  }

  lemma {:induction false} InsertSorted<T(!new)>(x: T, s: seq<T>, leq: (T, T) -> bool)
    requires TotalPreorder(leq) && SortedBy(s, leq)
    ensures SortedBy(Insert(x, s, leq), leq)
  {
    if s != [] && !leq(x, s[0]) {
      InsertSorted(x, s[1..], leq);
      var r := Insert(x, s[1..], leq);
      InsertPermutes(x, s[1..], leq);
      forall y | y in r ensures leq(s[0], y) {
        assert y in multiset(r);
        if y != x { assert y in s[1..]; }
      }
    }
  }

  lemma {:induction false} SortSorted<T(!new)>(s: seq<T>, leq: (T, T) -> bool)
    requires TotalPreorder(leq)
    ensures SortedBy(StableSort(s, leq), leq)
  {
    if s != [] {
      SortSorted(s[1..], leq);
      InsertSorted(s[0], StableSort(s[1..], leq), leq);
    }
  }

  lemma {:induction false} SortOfSorted<T>(s: seq<T>, leq: (T, T) -> bool)
    requires SortedBy(s, leq)
    ensures StableSort(s, leq) == s
  {
    if s != [] {
      SortOfSorted(s[1..], leq);
      if |s| > 1 { assert leq(s[0], s[1]); }
    }
  }

  /** A list without ties has only one sorted arrangement. */
  lemma {:induction false} SortedUnique<T(!new)>(a: seq<T>, b: seq<T>, leq: (T, T) -> bool)
    requires SortedBy(a, leq) && SortedBy(b, leq) && multiset(a) == multiset(b)
    requires forall x, y :: x in a && y in a && leq(x, y) && leq(y, x) ==> x == y
    ensures a == b
  {
    if a == [] {
      assert |b| == |multiset(b)| == 0;
    } else {
      SameHead(a, b, leq);
      TailMultiset(a);
      TailMultiset(b);
      assert forall x :: x in a[1..] ==> x in a;
      SortedUnique(a[1..], b[1..], leq);
    }
  }

  lemma TailMultiset<T>(s: seq<T>)
    requires s != []
    ensures s == [s[0]] + s[1..] && multiset(s[1..]) == multiset(s) - multiset{s[0]}
  {
    assert s == [s[0]] + s[1..];
  }

  lemma SameHead<T(!new)>(a: seq<T>, b: seq<T>, leq: (T, T) -> bool)
    requires SortedBy(a, leq) && SortedBy(b, leq) && multiset(a) == multiset(b) && a != []
    requires forall x, y :: x in a && y in a && leq(x, y) && leq(y, x) ==> x == y
    ensures |b| == |a| && a[0] == b[0]
  {
    assert |a| == |multiset(a)| == |multiset(b)| == |b|;
    assert a[0] in multiset(a) && b[0] in multiset(b);
    assert a[0] in b && b[0] in a;
    var i :| 0 <= i < |b| && b[i] == a[0];
    var j :| 0 <= j < |a| && a[j] == b[0];
    if i > 0 && j > 0 {
      assert leq(b[0], b[i]) && leq(a[0], a[j]);
    }
  }

  lemma {:induction false} UniqueCount<T>(s: seq<T>)
    requires forall i, j :: 0 <= i < j < |s| ==> s[i] != s[j]
    ensures forall x :: x in multiset(s) ==> multiset(s)[x] == 1
  {
    if s != [] {
      var n := |s| - 1;
      UniqueCount(s[..n]);
      assert s == s[..n] + [s[n]];
      assert s[n] !in s[..n];
    }
  }

  lemma CountTwice<T>(s: seq<T>, i: nat, j: nat)
    requires i < j < |s|
    ensures s[i] == s[j] ==> multiset(s)[s[i]] >= 2
  {
    assert s == s[..j] + [s[j]] + s[j + 1..];
    assert s[i] in s[..j];
    assert multiset(s)[s[j]] >= multiset(s[..j])[s[j]] + 1;
  }

  /** A permutation of a list without repetition has none. */
  lemma DistinctPermuted<T>(a: seq<T>, b: seq<T>)
    requires multiset(a) == multiset(b) && forall i, j :: 0 <= i < j < |a| ==> a[i] != a[j]
    ensures forall i, j :: 0 <= i < j < |b| ==> b[i] != b[j]
  {
    UniqueCount(a);
    forall i, j | 0 <= i < j < |b|
      ensures b[i] != b[j]
    {
      CountTwice(b, i, j);
      assert b[i] in multiset(b);
    }
  }

  /** Lists without repetition and with the same members are permutations of each other. */
  lemma UniqueMultiset<T>(s: seq<T>, t: seq<T>)
    requires forall i, j :: 0 <= i < j < |s| ==> s[i] != s[j]
    requires forall i, j :: 0 <= i < j < |t| ==> t[i] != t[j]
    requires forall x :: x in s <==> x in t
    ensures multiset(s) == multiset(t)
  {
    UniqueCount(s);
    UniqueCount(t);
    forall x: T
      ensures multiset(s)[x] == multiset(t)[x]
    {
      assert x in s <==> x in multiset(s);
      assert x in t <==> x in multiset(t);
    }
  }

  /**
   * The order of strings by their characters. UTF-8 preserves the order of code points, so this is
   * also the order of the encoded bytes.
   */
  predicate TextLeq(a: string, b: string) {
    a == "" || (b != "" && (a[0] < b[0] || (a[0] == b[0] && TextLeq(a[1..], b[1..]))))
  }

  lemma {:induction false} TextTotal(a: string, b: string)
    ensures TextLeq(a, b) || TextLeq(b, a)
    ensures TextLeq(a, b) && TextLeq(b, a) ==> a == b
  {
    if a != "" && b != "" && a[0] == b[0] {
      TextTotal(a[1..], b[1..]);
      assert a == [a[0]] + a[1..] && b == [b[0]] + b[1..];
    }
  }

  lemma {:induction false} TextTransitive(a: string, b: string, c: string)
    requires TextLeq(a, b) && TextLeq(b, c)
    ensures TextLeq(a, c)
  {
    if a != "" && a[0] == b[0] == c[0] { TextTransitive(a[1..], b[1..], c[1..]); }
  }

  function TextOrder(): (string, string) -> bool {
    (a: string, b: string) => TextLeq(a, b)
  }

  lemma TextOrderTotal()
    ensures TotalPreorder(TextOrder())
  {
    forall a, b ensures TextOrder()(a, b) || TextOrder()(b, a) { TextTotal(a, b); }
    forall a, b, c | TextOrder()(a, b) && TextOrder()(b, c) ensures TextOrder()(a, c) { TextTransitive(a, b, c); }
  }
}
