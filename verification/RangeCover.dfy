/** Do byte ranges, in whatever order they are listed, cover a region exactly: no gap, no overlap, none empty? */
module RangeCover {

  import opened Sorting

  datatype Range = Range(start: nat, end: nat)

  function RangeOrder(): (Range, Range) -> bool {
    (a: Range, b: Range) => a.start <= b.start
  }

  predicate Holds(r: Range, at: nat) {
    r.start <= at < r.end
  }

  ghost predicate Covered(ranges: seq<Range>, at: nat) {
    exists r :: r in ranges && Holds(r, at)
  }

  predicate Apart(a: Range, b: Range) {
    a.end <= b.start || b.end <= a.start
  }

  /** Every byte between the bounds is in a range, no two ranges share one, and none is empty or outside. */
  ghost predicate ExactCover(ranges: seq<Range>, from: nat, to: nat) {
    && from <= to
    && (forall r :: r in ranges ==> from <= r.start < r.end <= to)
    && (forall at: nat :: from <= at < to ==> Covered(ranges, at))
    && (forall i, j :: 0 <= i < j < |ranges| ==> ranges[i] != ranges[j])
    && (forall a, b :: a in ranges && b in ranges && a != b ==> Apart(a, b))
  }

  /** In order, each range begins where the one before it ends. */
  predicate Consecutive(ranges: seq<Range>, from: nat, to: nat) {
    if ranges == [] then from == to
    else ranges[0].start == from && ranges[0].end > from && Consecutive(ranges[1..], ranges[0].end, to)
  }

  lemma {:induction false} ConsecutiveCovers(ranges: seq<Range>, from: nat, to: nat)
    requires Consecutive(ranges, from, to)
    ensures ExactCover(ranges, from, to)
  {
    if ranges != [] {
      var first, rest := ranges[0], ranges[1..];
      ConsecutiveCovers(rest, first.end, to);
      assert forall r :: r in ranges <==> r == first || r in rest;
      assert forall r :: r in rest ==> first.end <= r.start;
      forall at: nat | from <= at < to
        ensures Covered(ranges, at)
      {
        if at < first.end {
          assert Holds(first, at);
        } else {
          assert Covered(rest, at);
          var r :| r in rest && Holds(r, at);
          assert r in ranges;
        }
      }
    }
  }

  lemma {:induction false} CoverIsConsecutive(ranges: seq<Range>, from: nat, to: nat)
    requires ExactCover(ranges, from, to) && SortedBy(ranges, RangeOrder())
    ensures Consecutive(ranges, from, to)
  {
    if ranges == [] {
      assert from < to ==> Covered(ranges, from);
    } else {
      var first, rest := ranges[0], ranges[1..];
      assert first in ranges && Covered(ranges, from);
      var r :| r in ranges && Holds(r, from);
      var i :| 0 <= i < |ranges| && ranges[i] == r;
      assert RangeOrder()(ranges[0], ranges[i]) || i == 0;
      assert first.start == from;
      RestCovers(ranges, from, to);
      forall i, j | 0 <= i < j < |rest|
        ensures RangeOrder()(rest[i], rest[j])
      {
        assert RangeOrder()(ranges[i + 1], ranges[j + 1]);
      }
      CoverIsConsecutive(rest, first.end, to);
    }
  }

  lemma RestCovers(ranges: seq<Range>, from: nat, to: nat)
    requires ExactCover(ranges, from, to) && ranges != [] && ranges[0].start == from
    ensures ExactCover(ranges[1..], ranges[0].end, to)
  {
    var first, rest := ranges[0], ranges[1..];
    assert first in ranges;
    forall r | r in rest
      ensures first.end <= r.start < r.end <= to && r in ranges
    {
      var j :| 0 <= j < |rest| && rest[j] == r;
      assert ranges[j + 1] == r;
      assert Apart(first, r);
    }
    forall at: nat | first.end <= at < to
      ensures Covered(rest, at)
    {
      assert Covered(ranges, at);
      var r :| r in ranges && Holds(r, at);
      assert r in rest;
    }
  }

  /** The order in which the ranges are listed does not matter. */
  lemma CoverPermutes(a: seq<Range>, b: seq<Range>, from: nat, to: nat)
    requires multiset(a) == multiset(b) && ExactCover(a, from, to)
    ensures ExactCover(b, from, to)
  {
    DistinctPermuted(a, b);
    forall r: Range
      ensures r in a <==> r in b
    {
      assert r in a <==> r in multiset(a);
      assert r in b <==> r in multiset(b);
    }
    forall at: nat | from <= at < to
      ensures Covered(b, at)
    {
      assert Covered(a, at);
      var r :| r in a && Holds(r, at);
      assert r in b;
    }
  }

  lemma SortedDecides(ranges: seq<Range>, to: nat)
    ensures Consecutive(StableSort(ranges, RangeOrder()), 0, to) <==> ExactCover(ranges, 0, to)
  {
    var sorted := StableSort(ranges, RangeOrder());
    SortPermutes(ranges, RangeOrder());
    assert TotalPreorder(RangeOrder());
    SortSorted(ranges, RangeOrder());
    hide StableSort;
    if Consecutive(sorted, 0, to) {
      ConsecutiveCovers(sorted, 0, to);
      hide ExactCover;
      CoverPermutes(sorted, ranges, 0, to);
    }
    if ExactCover(ranges, 0, to) {
      CoverPermutes(ranges, sorted, 0, to);
      hide ExactCover;
      CoverIsConsecutive(sorted, 0, to);
    }
  }

  lemma ConsecutiveStep(ranges: seq<Range>, i: nat, to: nat)
    requires i < |ranges|
    ensures forall from: nat :: Consecutive(ranges[i..], from, to)
              <==> ranges[i].start == from && ranges[i].end > from && Consecutive(ranges[i + 1..], ranges[i].end, to)
  {
    assert ranges[i..][0] == ranges[i] && ranges[i..][1..] == ranges[i + 1..];
  }

  /** The reader's last loop accepts exactly the ranges that cover the bytes before the directory. */
  method CoversExactly(localRanges: seq<Range>, centralOffset: nat) returns (ok: bool)
    ensures ok <==> ExactCover(localRanges, 0, centralOffset)
  {
    SortedDecides(localRanges, centralOffset);
    hide ExactCover, StableSort;
    var sorted := StableSort(localRanges, RangeOrder());
    var localCursor: nat := 0;
    assert sorted[0..] == sorted;
    for i := 0 to |sorted|
      invariant Consecutive(sorted, 0, centralOffset) <==> Consecutive(sorted[i..], localCursor, centralOffset)
    {
      var range := sorted[i];
      ConsecutiveStep(sorted, i, centralOffset);
      if range.start != localCursor || range.end <= range.start { return false; }
      localCursor := range.end;
    }
    ok := localCursor == centralOffset;
  }
}
