/**
 Address ranges, and the ordered sets of disjoint ranges that record madvise() advice.
 */
module MemoryRange {

  const PAGE := 4096

  datatype Range = Range(start: nat, end: nat) {
    predicate Valid() { start <= end }

    predicate Has(a: int) { start <= a < end }

    predicate Intersects(other: Range) {
      (if start >= other.start then start else other.start) < (if end <= other.end then end else other.end)
    }

    /** The lexicographic order of std::set<MemoryRange>. */
    predicate Less(other: Range) {
      if start != other.start then start < other.start else end < other.end
    }

    predicate Aligned() { start % PAGE == 0 && end % PAGE == 0 }
  }

  function FloorPage(a: nat): (r: nat)
    ensures r % PAGE == 0 && r <= a < r + PAGE
  {
    a / PAGE * PAGE
  }

  function CeilPage(a: nat): (r: nat)
    ensures r % PAGE == 0 && a <= r < a + PAGE
  {
    (a + PAGE - 1) / PAGE * PAGE
  }

  /** Ordered, disjoint and without duplicates, as a set of ranges is kept. */
  ghost predicate Sorted(ranges: seq<Range>) {
    && (forall i | 0 <= i < |ranges| :: ranges[i].Valid())
    && (forall i, j | 0 <= i < j < |ranges| :: ranges[i].end <= ranges[j].start && ranges[i].Less(ranges[j]))
  }

  ghost predicate AllNonEmpty(ranges: seq<Range>) {
    forall i | 0 <= i < |ranges| :: ranges[i].start < ranges[i].end
  }

  ghost predicate AllAligned(ranges: seq<Range>) {
    forall i | 0 <= i < |ranges| :: ranges[i].Aligned()
  }

  ghost predicate Covers(ranges: seq<Range>, a: int) {
    exists i :: 0 <= i < |ranges| && ranges[i].Has(a)
  }

  /** Empty ranges stay in the set unless they lie strictly inside the removed range. */
  ghost predicate KeepsEmpty(ranges: seq<Range>, range: Range, result: seq<Range>) {
    forall e | e in ranges && e.start == e.end && !(range.start < e.start < range.end) :: e in result
  }

  /** lower_bound: the first range that is not less than `range`. */
  method LowerBound(ranges: seq<Range>, range: Range) returns (n: nat)
    requires Sorted(ranges)
    ensures n <= |ranges|
    ensures forall i | 0 <= i < n :: ranges[i].Less(range)
    ensures forall i | n <= i < |ranges| :: !ranges[i].Less(range)
  {
    n := 0;
    while n < |ranges| && ranges[n].Less(range)
      invariant n <= |ranges|
      invariant forall i | 0 <= i < n :: ranges[i].Less(range)
    {
      n := n + 1;
    }
  }

  lemma CoversConcat(left: seq<Range>, right: seq<Range>, a: int)
    ensures Covers(left + right, a) <==> Covers(left, a) || Covers(right, a)
  {
    var all := left + right;
    if i :| 0 <= i < |left| && left[i].Has(a) {
      assert all[i].Has(a);
    }
    if i :| 0 <= i < |right| && right[i].Has(a) {
      assert all[|left| + i].Has(a);
    }
    if i :| 0 <= i < |all| && all[i].Has(a) {
      assert if i < |left| then left[i].Has(a) else right[i - |left|].Has(a);
    }
  }

  /** What is left of the ranges in `ranges[first..last]` once `range` is cut out. */
  function Remainder(ranges: seq<Range>, range: Range, first: nat, last: nat): seq<Range>
    requires first < last <= |ranges|
  {
    (if ranges[first].start < range.start then [Range(ranges[first].start, range.start)] else [])
    + (if range.end < ranges[last - 1].end then [Range(range.end, ranges[last - 1].end)] else [])
  }

  /** The cut separates the ranges before `range`, those that overlap it and those after it. */
  ghost predicate Cut(ranges: seq<Range>, range: Range, first: nat, last: nat) {
    && first <= last <= |ranges|
    && (forall i | 0 <= i < first :: ranges[i].end <= range.start)
    && (forall i | first <= i < last :: ranges[i].start < range.end && range.start <= ranges[i].end)
    && (forall i | first < i < last :: range.start <= ranges[i].start)
    && (forall i | last <= i < |ranges| :: range.end <= ranges[i].start)
  }

  lemma RemainderCovers(ranges: seq<Range>, range: Range, first: nat, last: nat, a: int)
    requires Sorted(ranges) && range.Valid() && Cut(ranges, range, first, last) && first < last
    ensures Covers(Remainder(ranges, range, first, last), a) <==> Covers(ranges[first..last], a) && !range.Has(a)
  {
    var rest, mid := Remainder(ranges, range, first, last), ranges[first..last];
    assert mid[0] == ranges[first] && mid[|mid| - 1] == ranges[last - 1];
    if Covers(mid, a) && !range.Has(a) {
      var i :| 0 <= i < |mid| && mid[i].Has(a);
      assert mid[i] == ranges[first + i];
      if a < range.start {
        assert i == 0;
        assert rest[0].Has(a);
      } else {
        assert i == |mid| - 1;
        assert rest[|rest| - 1].Has(a);
      }
    }
    if Covers(rest, a) {
      var i :| 0 <= i < |rest| && rest[i].Has(a);
      if a < range.start {
        assert mid[0].Has(a);
      } else {
        assert mid[|mid| - 1].Has(a);
      }
    }
  }

  ghost predicate Before(left: seq<Range>, right: seq<Range>) {
    forall i, j | 0 <= i < |left| && 0 <= j < |right| :: left[i].end <= right[j].start && left[i].Less(right[j])
  }

  lemma SortedConcat(left: seq<Range>, right: seq<Range>)
    requires Sorted(left) && Sorted(right) && Before(left, right)
    ensures Sorted(left + right)
  {
    var all := left + right;
    assert forall i | 0 <= i < |all| :: all[i] == if i < |left| then left[i] else right[i - |left|];
  }

  lemma CutSorted(ranges: seq<Range>, range: Range, first: nat, last: nat)
    requires Sorted(ranges) && range.Valid() && Cut(ranges, range, first, last) && first < last
    ensures Sorted(ranges[..first] + Remainder(ranges, range, first, last) + ranges[last..])
  {
    var mid := Remainder(ranges, range, first, last);
    assert Sorted(ranges[..first]) && Sorted(ranges[last..]) && Before(ranges[..first], ranges[last..]) by {
      hide Cut, Remainder;
    }
    assert Sorted(mid) && Before(mid, ranges[last..]) && Before(ranges[..first], mid);
    hide Sorted, Remainder, Cut;
    SortedConcat(ranges[..first], mid);
    BeforeConcat(ranges[..first], mid, ranges[last..]);
    hide *;
    SortedConcat(ranges[..first] + mid, ranges[last..]);
  }

  lemma BeforeConcat(low: seq<Range>, mid: seq<Range>, high: seq<Range>)
    requires Before(low, high) && Before(mid, high)
    ensures Before(low + mid, high)
  {
    hide Range.Less;
    var left := low + mid;
    assert forall i | 0 <= i < |left| :: left[i] == if i < |low| then low[i] else mid[i - |low|];
  }

  /** Everything kept lies outside the removed range, and nothing kept is new but the two stumps. */
  lemma CutKeeps(ranges: seq<Range>, range: Range, first: nat, last: nat)
    requires range.Valid() && Cut(ranges, range, first, last) && first < last
    ensures var rest := ranges[..first] + Remainder(ranges, range, first, last) + ranges[last..];
      && (AllNonEmpty(ranges) ==> AllNonEmpty(rest))
      && (AllAligned(ranges) && range.Aligned() ==> AllAligned(rest))
      && (forall i | 0 <= i < |rest| :: rest[i].end <= range.start || range.end <= rest[i].start)
  {
    var mid := Remainder(ranges, range, first, last);
    var rest := ranges[..first] + mid + ranges[last..];
    if AllAligned(ranges) && range.Aligned() {
      assert ranges[first].Aligned() && ranges[last - 1].Aligned();
    }
    forall i | 0 <= i < |rest|
      ensures AllNonEmpty(ranges) ==> rest[i].start < rest[i].end
      ensures AllAligned(ranges) && range.Aligned() ==> rest[i].Aligned()
      ensures rest[i].end <= range.start || range.end <= rest[i].start
    {
      if i < first {
        assert rest[i] == ranges[i];
      } else if i < first + |mid| {
        assert rest[i] == mid[i - first];
      } else {
        assert rest[i] == ranges[i - first - |mid| + last];
      }
    }
  }

  lemma CutKeepsEmpty(ranges: seq<Range>, range: Range, n: nat, first: nat, last: nat)
    requires range.Valid() && Cut(ranges, range, first, last) && first < last && n <= |ranges|
    requires forall i | n <= i < |ranges| :: !ranges[i].Less(range)
    requires first == if n > 0 && ranges[n - 1].end > range.start then n - 1 else n
    ensures KeepsEmpty(ranges, range, ranges[..first] + Remainder(ranges, range, first, last) + ranges[last..])
  {
    var rest := ranges[..first] + Remainder(ranges, range, first, last) + ranges[last..];
    forall e | e in ranges && e.start == e.end && !(range.start < e.start < range.end) ensures e in rest {
      var i :| 0 <= i < |ranges| && ranges[i] == e;
      if i < first {
        assert rest[i] == e;
      } else {
        assert last <= i;
        assert rest[i - last + first + |Remainder(ranges, range, first, last)|] == e;
      }
    }
  }

  lemma CutCovers(ranges: seq<Range>, range: Range, first: nat, last: nat, a: int)
    requires Sorted(ranges) && range.Valid() && Cut(ranges, range, first, last) && first < last
    ensures Covers(ranges[..first] + Remainder(ranges, range, first, last) + ranges[last..], a)
      <==> Covers(ranges, a) && !range.Has(a)
  {
    assert first <= last <= |ranges|;
    hide Covers, Sorted, Cut, Remainder, Range.Has;
    var low, mid, high := ranges[..first], ranges[first..last], ranges[last..];
    CutAway(ranges, range, first, last, a);
    RemainderCovers(ranges, range, first, last, a);
    CoversThree(low, mid, high, a);
    CoversThree(low, Remainder(ranges, range, first, last), high, a);
    assert low + mid + high == ranges;
  }

  lemma CutAway(ranges: seq<Range>, range: Range, first: nat, last: nat, a: int)
    requires Cut(ranges, range, first, last)
    ensures Covers(ranges[..first], a) || Covers(ranges[last..], a) ==> !range.Has(a)
  {
  }

  lemma CoversThree(low: seq<Range>, mid: seq<Range>, high: seq<Range>, a: int)
    ensures Covers(low + mid + high, a) <==> Covers(low, a) || Covers(mid, a) || Covers(high, a)
  {
    CoversConcat(low + mid, high, a);
    CoversConcat(low, mid, a);
  }

  lemma NothingCut(ranges: seq<Range>, range: Range, first: nat, a: int)
    requires Cut(ranges, range, first, first)
    ensures Covers(ranges, a) <==> Covers(ranges, a) && !range.Has(a)
  {
  }

  lemma CutFound(ranges: seq<Range>, range: Range, n: nat, first: nat, last: nat)
    requires Sorted(ranges) && range.Valid() && n <= |ranges| && first <= last <= |ranges|
    requires forall i | 0 <= i < n :: ranges[i].Less(range)
    requires forall i | n <= i < |ranges| :: !ranges[i].Less(range)
    requires first == if n > 0 && ranges[n - 1].end > range.start then n - 1 else n
    requires forall i | first <= i < last :: ranges[i].start < range.end
    requires last < |ranges| ==> ranges[last].start >= range.end
    ensures Cut(ranges, range, first, last)
  {
    assert forall i | 0 <= i < n - 1 :: ranges[i].end <= ranges[n - 1].start;
  }

  /** remove_range: what is covered afterwards is exactly the set difference. */
  method RemoveRange(ranges: seq<Range>, range: Range) returns (result: seq<Range>)
    requires Sorted(ranges) && range.Valid()
    ensures Sorted(result)
    ensures forall a :: Covers(result, a) <==> Covers(ranges, a) && !range.Has(a)
    ensures AllNonEmpty(ranges) ==> AllNonEmpty(result)
    ensures AllAligned(ranges) && range.Aligned() ==> AllAligned(result)
    ensures forall i | 0 <= i < |result| :: result[i].end <= range.start || range.end <= result[i].start
    ensures KeepsEmpty(ranges, range, result)
  {
    if |ranges| == 0 {
      return ranges;
    }
    var n := LowerBound(ranges, range);
    var first := if n > 0 && ranges[n - 1].end > range.start then n - 1 else n;
    var last := first;
    while last < |ranges| && ranges[last].start < range.end
      invariant first <= last <= |ranges|
      invariant forall i | first <= i < last :: ranges[i].start < range.end
    {
      last := last + 1;
    }
    CutFound(ranges, range, n, first, last);
    if first < last { CutKeepsEmpty(ranges, range, n, first, last); }
    assert first == last ==> KeepsEmpty(ranges, range, ranges);
    hide *;
    if first == last {
      forall a ensures Covers(ranges, a) <==> Covers(ranges, a) && !range.Has(a) {
        NothingCut(ranges, range, first, a);
      }
      return ranges;
    }
    result := ranges[..first] + Remainder(ranges, range, first, last) + ranges[last..];
    CutSorted(ranges, range, first, last);
    CutKeeps(ranges, range, first, last);
    forall a ensures Covers(result, a) <==> Covers(ranges, a) && !range.Has(a) {
      CutCovers(ranges, range, first, last, a);
    }
  }

  lemma InsertSorted(ranges: seq<Range>, range: Range, n: nat)
    requires Sorted(ranges) && range.Valid() && range !in ranges && n <= |ranges|
    requires forall i | 0 <= i < |ranges| :: ranges[i].end <= range.start || range.end <= ranges[i].start
    requires forall i | 0 <= i < n :: ranges[i].Less(range)
    requires forall i | n <= i < |ranges| :: !ranges[i].Less(range)
    ensures Sorted(ranges[..n] + [range] + ranges[n..])
  {
    var all := ranges[..n] + [range] + ranges[n..];
    assert forall i | 0 <= i < |all| :: all[i] == if i < n then ranges[i] else if i == n then range else ranges[i - 1];
    forall i | 0 <= i < n ensures ranges[i].end <= range.start {
      assert ranges[i].Less(range);
    }
    forall i | n <= i < |ranges| ensures range.end <= ranges[i].start && range.Less(ranges[i]) {
      assert !ranges[i].Less(range) && ranges[i] != range;
    }
  }

  lemma InsertCovers(ranges: seq<Range>, range: Range, n: nat, a: int)
    requires n <= |ranges|
    ensures Covers(ranges[..n] + [range] + ranges[n..], a) <==> Covers(ranges, a) || range.Has(a)
  {
    CoversConcat(ranges[..n] + [range], ranges[n..], a);
    CoversConcat(ranges[..n], [range], a);
    CoversConcat(ranges[..n], ranges[n..], a);
    assert ranges[..n] + ranges[n..] == ranges;
    assert Covers([range], a) <==> range.Has(a) by {
      if range.Has(a) { assert [range][0].Has(a); }
    }
  }

  /** add_range: what is covered afterwards is exactly the union. An empty range goes into
      the set as well, so non-emptiness is kept exactly when the added range is not empty. */
  method AddRange(ranges: seq<Range>, range: Range) returns (result: seq<Range>)
    requires Sorted(ranges) && range.Valid()
    ensures Sorted(result)
    ensures forall a :: Covers(result, a) <==> Covers(ranges, a) || range.Has(a)
    ensures AllNonEmpty(ranges) ==> (AllNonEmpty(result) <==> range.start < range.end)
    ensures AllAligned(ranges) && range.Aligned() ==> AllAligned(result)
    ensures range in result
  {
    var rest := RemoveRange(ranges, range);
    var n := LowerBound(rest, range);
    if range in rest {
      return rest;
    }
    result := rest[..n] + [range] + rest[n..];
    InsertSorted(rest, range, n);
    forall a ensures Covers(result, a) <==> Covers(ranges, a) || range.Has(a) { InsertCovers(rest, range, n, a); }
    assert result[n] == range;
    hide Covers, Sorted;
  }
}
