/**
 * The correlation identity that a credential broker result echoes, and the comparison of two
 * identities field by field over their sorted keys.
 */
module BrokerIdentity {

  import opened Options
  import opened Sorting
  import opened Utf16

  datatype Field = Text(text: string) | Number(number: int)

  /** A plain object: its fields in insertion order, each key once. */
  type Fields = o: seq<(string, Field)> | UniqueKeys(o)

  predicate UniqueKeys(o: seq<(string, Field)>) {
    forall i, j :: 0 <= i < j < |o| ==> o[i].0 != o[j].0
  }

  /** Two fields make an object exactly when their keys differ. */
  lemma TwoFields(a: (string, Field), b: (string, Field))
    ensures UniqueKeys([a, b]) <==> a.0 != b.0
  {
    assert UniqueKeys([a, b]) ==> [a, b][0].0 != [a, b][1].0;
  }

  function Keys(o: Fields): (r: seq<string>)
    ensures |r| == |o| && forall i :: 0 <= i < |o| ==> r[i] == o[i].0
  {
    seq(|o|, i requires 0 <= i < |o| => o[i].0)
  }

  /** Property access. */
  function Get(o: Fields, key: string): (r: Option<Field>)
    ensures r.Some? ==> (key, r.value) in o
    ensures r.None? ==> forall i :: 0 <= i < |o| ==> o[i].0 != key
  {
    if o == [] then None
    else if o[0].0 == key then Some(o[0].1)
    else Get(o[1..], key)
  }

  /** `matchesDagCredentialBrokerCallIdentity` */
  predicate Matches(expected: Fields, received: Fields) {
    var expectedKeys, receivedKeys := StableSort(Keys(expected), JsOrder()), StableSort(Keys(received), JsOrder());
    && |expectedKeys| == |receivedKeys|
    && forall i :: 0 <= i < |expectedKeys| ==>
         expectedKeys[i] == receivedKeys[i] && Get(expected, expectedKeys[i]) == Get(received, expectedKeys[i])
  }

  /** Two objects with the same fields, in whatever order. */
  ghost predicate SameFields(a: Fields, b: Fields) {
    forall key: string :: Get(a, key) == Get(b, key)
  }

  lemma GetFinds(o: Fields, i: nat)
    requires i < |o|
    ensures Get(o, o[i].0) == Some(o[i].1)
  {
    var found := Get(o, o[i].0);
    if found.Some? {
      var j :| 0 <= j < |o| && o[j] == (o[i].0, found.value);
    }
  }

  lemma KeyHasField(o: Fields, key: string)
    ensures key in Keys(o) <==> Get(o, key).Some?
  {
    if key in Keys(o) {
      var i :| 0 <= i < |o| && Keys(o)[i] == key;
      GetFinds(o, i);
    }
    if Get(o, key).Some? {
      var i :| 0 <= i < |o| && o[i] == (key, Get(o, key).value);
      assert Keys(o)[i] == key;
    }
  }

  /** The sorted comparison accepts an identity exactly when it has the same fields. */
  lemma MatchesExactly(expected: Fields, received: Fields)
    ensures Matches(expected, received) <==> SameFields(expected, received)
  {
    var ek, rk := Keys(expected), Keys(received);
    var es, rs := StableSort(ek, JsOrder()), StableSort(rk, JsOrder());
    SortMembers(ek, JsOrder());
    SortMembers(rk, JsOrder());
    if Matches(expected, received) {
      assert es == rs;
      forall key: string
        ensures Get(expected, key) == Get(received, key)
      {
        KeyHasField(expected, key);
        KeyHasField(received, key);
        if key in ek {
          assert key in es;
        }
      }
    }
    if SameFields(expected, received) {
      forall key: string
        ensures key in ek <==> key in rk
      {
        KeyHasField(expected, key);
        KeyHasField(received, key);
      }
      UniqueMultiset(ek, rk);
      SortPermutes(ek, JsOrder());
      SortPermutes(rk, JsOrder());
      JsOrderTotal();
      SortSorted(ek, JsOrder());
      SortSorted(rk, JsOrder());
      forall x, y | x in es && y in es && JsOrder()(x, y) && JsOrder()(y, x)
        ensures x == y
      {
        JsOrderAntisymmetric(x, y);
      }
      SortedUnique(es, rs, JsOrder());
    }
  }
}
