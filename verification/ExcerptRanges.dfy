/** The visible excerpts of a pending diff: hunks and revealed ranges, sorted and merged where they touch. */
module ExcerptRanges {

  /** A range of buffer points; points are compared and nothing else. */
  datatype Range = Range(start: int, end: int)

  predicate WellFormed(ranges: seq<Range>) {
    forall k :: 0 <= k < |ranges| ==> ranges[k].start <= ranges[k].end
  }

  // ----- what merging means

  /** A place on the line, between points too, lies in the closed range. */
  predicate Hits(r: Range, x: real) {
    r.start as real <= x <= r.end as real
  }

  ghost predicate Covered(ranges: seq<Range>, x: real) {
    exists k :: 0 <= k < |ranges| && Hits(ranges[k], x)
  }

  ghost predicate SameCover(xs: seq<Range>, ys: seq<Range>) {
    forall x: real :: Covered(xs, x) <==> Covered(ys, x)
  }

  /** In order, and with a gap between neighbours. */
  predicate Separated(ranges: seq<Range>) {
    forall i, j :: 0 <= i < j < |ranges| ==> ranges[i].end < ranges[j].start
  }

  ghost predicate IsMergeOf(merged: seq<Range>, ranges: seq<Range>) {
    WellFormed(merged) && Separated(merged) && SameCover(merged, ranges)
  }

  lemma CoveredConcat(xs: seq<Range>, ys: seq<Range>, x: real)
    ensures Covered(xs + ys, x) <==> Covered(xs, x) || Covered(ys, x)
  {
    var all := xs + ys;
    if k :| 0 <= k < |xs| && Hits(xs[k], x) {
      assert all[k] == xs[k];
    }
    if k :| 0 <= k < |ys| && Hits(ys[k], x) {
      assert all[|xs| + k] == ys[k];
    }
    if k :| 0 <= k < |all| && Hits(all[k], x) {
      if k < |xs| {
        assert xs[k] == all[k];
      } else {
        assert ys[k - |xs|] == all[k];
      }
    }
  }

  lemma CoveredOne(r: Range, x: real)
    ensures Covered([r], x) <==> Hits(r, x)
  {
    assert [r][0] == r;
  }

  lemma CoveredLow(m: seq<Range>, x: real)
    requires m != [] && Separated(m) && WellFormed(m) && Covered(m, x)
    ensures m[0].start as real <= x
  {
  }

  /** The first range of a separated list covers up to its end, and nothing covers the gap behind it. */
  lemma GapUncovered(m: seq<Range>, x: real)
    requires m != [] && Separated(m) && WellFormed(m)
    requires m[0].end as real < x && (|m| == 1 || x < m[1].start as real)
    ensures !Covered(m, x)
  {
  }

  lemma FirstEndNotBelow(a: seq<Range>, b: seq<Range>)
    requires a != [] && b != [] && WellFormed(a) && WellFormed(b) && Separated(a) && Separated(b) && SameCover(a, b)
    requires a[0].start == b[0].start
    ensures a[0].end >= b[0].end
  {
    if a[0].end < b[0].end {
      var limit := if |a| > 1 && a[1].start < b[0].end then a[1].start else b[0].end;
      var x := (a[0].end as real + limit as real) / 2.0;
      assert Hits(b[0], x);
      assert Covered(b, x);
      GapUncovered(a, x);
    }
  }

  lemma SameFirst(a: seq<Range>, b: seq<Range>)
    requires a != [] && b != [] && WellFormed(a) && WellFormed(b) && Separated(a) && Separated(b) && SameCover(a, b)
    ensures a[0] == b[0]
  {
    assert Hits(a[0], a[0].start as real) && Covered(a, a[0].start as real);
    assert Hits(b[0], b[0].start as real) && Covered(b, b[0].start as real);
    CoveredLow(b, a[0].start as real);
    CoveredLow(a, b[0].start as real);
    FirstEndNotBelow(a, b);
    FirstEndNotBelow(b, a);
  }

  lemma TailCover(a: seq<Range>, x: real)
    requires a != [] && WellFormed(a) && Separated(a)
    ensures Covered(a[1..], x) <==> Covered(a, x) && x > a[0].end as real
  {
    CoveredConcat([a[0]], a[1..], x);
    CoveredOne(a[0], x);
    assert a == [a[0]] + a[1..];
    if k :| 0 <= k < |a[1..]| && Hits(a[1..][k], x) {
      assert a[1..][k] == a[k + 1];
    }
  }

  /** A separated list is determined by what it covers. */
  lemma {:induction false} MergeIsUnique(a: seq<Range>, b: seq<Range>)
    requires WellFormed(a) && WellFormed(b) && Separated(a) && Separated(b) && SameCover(a, b)
    ensures a == b
    decreases |a|
  {
    if a == [] || b == [] {
      if a == [] {
        EmptyCover(a, b);
      } else {
        EmptyCover(b, a);
      }
    } else {
      SameFirst(a, b);
      forall x: real ensures Covered(a[1..], x) <==> Covered(b[1..], x) {
        TailCover(a, x);
        TailCover(b, x);
      }
      MergeIsUnique(a[1..], b[1..]);
      assert a == [a[0]] + a[1..] && b == [b[0]] + b[1..];
    }
  }

  lemma EmptyCover(a: seq<Range>, b: seq<Range>)
    requires WellFormed(b) && SameCover(a, b) && a == []
    ensures b == []
  {
    if b != [] {
      assert Hits(b[0], b[0].start as real);
      assert Covered(b, b[0].start as real);
    }
  }

  /** So the result depends on nothing but the covered places: not on the order of the ranges, nor on duplicates. */
  lemma MergeIgnoresOrder(xs: seq<Range>, mx: seq<Range>, ys: seq<Range>, my: seq<Range>)
    requires IsMergeOf(mx, xs) && IsMergeOf(my, ys) && forall r :: r in xs <==> r in ys
    ensures mx == my
  {
    forall x: real ensures Covered(mx, x) <==> Covered(my, x) {
      SameMembersCover(xs, ys, x);
      SameMembersCover(ys, xs, x);
    }
    MergeIsUnique(mx, my);
  }

  lemma SameMembersCover(xs: seq<Range>, ys: seq<Range>, x: real)
    requires forall r :: r in xs ==> r in ys
    ensures Covered(xs, x) ==> Covered(ys, x)
  {
    if k :| 0 <= k < |xs| && Hits(xs[k], x) {
      assert xs[k] in ys;
    }
  }

  /** Merging again changes nothing. */
  lemma MergeIsIdempotent(merged: seq<Range>, ranges: seq<Range>, again: seq<Range>)
    requires IsMergeOf(merged, ranges) && IsMergeOf(again, merged)
    ensures again == merged
  {
    MergeIsUnique(again, merged);
  }

  predicate Inside(r: Range, outer: Range) {
    outer.start <= r.start && r.end <= outer.end
  }

  /** A range whose every place is covered lies in one of the separated ranges, and in only one. */
  lemma InsideExactlyOne(merged: seq<Range>, ranges: seq<Range>, r: Range) returns (k: nat)
    requires IsMergeOf(merged, ranges) && r in ranges && r.start <= r.end
    ensures k < |merged| && Inside(r, merged[k])
    ensures forall j :: 0 <= j < |merged| && Inside(r, merged[j]) ==> j == k
  {
    var i :| 0 <= i < |ranges| && ranges[i] == r;
    assert Hits(ranges[i], r.start as real) && Covered(ranges, r.start as real);
    assert Covered(merged, r.start as real);
    k :| 0 <= k < |merged| && Hits(merged[k], r.start as real);
    forall x: real | r.start as real <= x <= r.end as real ensures Covered(merged, x) {
      assert Hits(ranges[i], x) && Covered(ranges, x);
    }
    EndsInside(merged, k, r);
  }

  /** Right behind a separated range, and before any given later point, there is an uncovered place. */
  lemma GapBehind(merged: seq<Range>, k: nat, end: int) returns (x: real)
    requires WellFormed(merged) && Separated(merged) && k < |merged| && merged[k].end < end
    ensures merged[k].end as real < x < end as real && !Covered(merged, x)
  {
    var limit := if k + 1 < |merged| && merged[k + 1].start < end then merged[k + 1].start else end;
    x := (merged[k].end as real + limit as real) / 2.0;
    forall j | 0 <= j < |merged| ensures !Hits(merged[j], x) {
      if j > k + 1 {
        assert merged[k + 1].start <= merged[k + 1].end < merged[j].start;
      } else if j < k {
        assert merged[j].end < merged[k].start <= merged[k].end;
      }
    }
  }

  /** A covered range that starts in a separated range ends in it. */
  lemma EndsInside(merged: seq<Range>, k: nat, r: Range)
    requires WellFormed(merged) && Separated(merged) && k < |merged| && Hits(merged[k], r.start as real)
    requires forall x: real :: r.start as real <= x <= r.end as real ==> Covered(merged, x)
    ensures r.end <= merged[k].end
  {
    if merged[k].end < r.end {
      var x := GapBehind(merged, k, r.end);
    }
  }

  // ----- sorting and merging

  /** The sort key: by start, and the longer range first. */
  predicate Before(a: Range, b: Range) {
    a.start < b.start || (a.start == b.start && a.end >= b.end)
  }

  predicate Sorted(ranges: seq<Range>) {
    forall i, j :: 0 <= i < j < |ranges| ==> Before(ranges[i], ranges[j])
  }

  function Insert(ranges: seq<Range>, r: Range): seq<Range> {
    if ranges == [] || Before(ranges[|ranges| - 1], r) then ranges + [r]
    else Insert(ranges[..|ranges| - 1], r) + [ranges[|ranges| - 1]]
  }

  /** `sort_unstable_by_key`: equal keys mean equal ranges, so the result is unique. */
  function Sort(ranges: seq<Range>): seq<Range> {
    if ranges == [] then [] else Insert(Sort(ranges[..|ranges| - 1]), ranges[|ranges| - 1])
  }

  lemma {:induction false} InsertSpec(ranges: seq<Range>, r: Range)
    requires Sorted(ranges)
    ensures Sorted(Insert(ranges, r))
    ensures forall x :: x in Insert(ranges, r) <==> x in ranges || x == r
  {
    if ranges != [] && !Before(ranges[|ranges| - 1], r) {
      var init, last := ranges[..|ranges| - 1], ranges[|ranges| - 1];
      InsertSpec(init, r);
      assert ranges == init + [last];
      var s := Insert(init, r);
      forall i | 0 <= i < |s| ensures Before(s[i], last) {
        assert s[i] in s;
      }
    }
  }

  lemma {:induction false} SortSpec(ranges: seq<Range>)
    ensures Sorted(Sort(ranges))
    ensures forall x :: x in Sort(ranges) <==> x in ranges
  {
    if ranges != [] {
      var init, last := ranges[..|ranges| - 1], ranges[|ranges| - 1];
      SortSpec(init);
      InsertSpec(Sort(init), last);
      assert ranges == init + [last];
    }
  }

  /** Growing the current range over the next one covers what the two covered. */
  lemma GrowCovers(merged: seq<Range>, range: Range, next: Range, x: real)
    requires range.start <= next.start <= range.end
    ensures var grown := range.(end := if next.end > range.end then next.end else range.end);
            Covered(merged + [grown], x) <==> Covered(merged + [range], x) || Hits(next, x)
  {
    var grown := range.(end := if next.end > range.end then next.end else range.end);
    CoveredConcat(merged, [grown], x);
    CoveredConcat(merged, [range], x);
    CoveredOne(grown, x);
    CoveredOne(range, x);
  }

  lemma PrefixCovers(ranges: seq<Range>, i: nat, x: real)
    requires i < |ranges|
    ensures Covered(ranges[..i + 1], x) <==> Covered(ranges[..i], x) || Hits(ranges[i], x)
  {
    assert ranges[..i + 1] == ranges[..i] + [ranges[i]];
    CoveredConcat(ranges[..i], [ranges[i]], x);
    CoveredOne(ranges[i], x);
  }

  /** The inner loop: absorb the following ranges as long as they touch the current one. */
  method Absorb(ranges: seq<Range>, first: nat, ghost merged: seq<Range>) returns (range: Range, next: nat)
    requires WellFormed(ranges) && Sorted(ranges) && first < |ranges|
    requires SameCover(merged, ranges[..first])
    ensures first < next <= |ranges| && range.start == ranges[first].start <= range.end
    ensures SameCover(merged + [range], ranges[..next])
    ensures forall k :: next <= k < |ranges| ==> range.end < ranges[k].start
  {
    range, next := ranges[first], first + 1;
    forall x: real ensures Covered(merged + [range], x) <==> Covered(ranges[..next], x) {
      PrefixCovers(ranges, first, x);
      CoveredConcat(merged, [range], x);
      CoveredOne(range, x);
    }
    while next < |ranges| && range.end >= ranges[next].start
      invariant first < next <= |ranges| && range.start == ranges[first].start <= range.end
      invariant SameCover(merged + [range], ranges[..next])
    {
      var grown := range.(end := if ranges[next].end > range.end then ranges[next].end else range.end);
      forall x: real ensures Covered(merged + [grown], x) <==> Covered(ranges[..next + 1], x) {
        GrowCovers(merged, range, ranges[next], x);
        PrefixCovers(ranges, next, x);
      }
      range, next := grown, next + 1;
    }
  }

  /** The merge loop of excerpt_ranges, on sorted ranges. */
  method MergeSorted(ranges: seq<Range>) returns (merged: seq<Range>)
    requires WellFormed(ranges) && Sorted(ranges)
    ensures IsMergeOf(merged, ranges)
  {
    merged := [];
    var next := 0;
    while next < |ranges|
      invariant next <= |ranges|
      invariant IsMergeOf(merged, ranges[..next])
      invariant forall i, k :: 0 <= i < |merged| && next <= k < |ranges| ==> merged[i].end < ranges[k].start
      decreases |ranges| - next
    {
      var range;
      range, next := Absorb(ranges, next, merged);
      merged := merged + [range];
    }
    assert ranges[..|ranges|] == ranges;
  }

  class PendingDiff {
    var hunks: seq<Range>
    var revealed: seq<Range>
    /** The excerpts that the multibuffer shows. */
    var visible: seq<Range>

    ghost predicate Valid()
      reads this
    {
      WellFormed(hunks + revealed) && IsMergeOf(visible, hunks + revealed)
    }

    /** excerpt_ranges. */
    method ExcerptRanges() returns (merged: seq<Range>)
      requires WellFormed(hunks + revealed)
      ensures IsMergeOf(merged, hunks + revealed)
    {
      var all := hunks + revealed;
      var sorted := Sort(all);
      SortSpec(all);
      forall k | 0 <= k < |sorted| ensures sorted[k].start <= sorted[k].end {
        assert sorted[k] in all;
      }
      merged := MergeSorted(sorted);
      forall x: real ensures Covered(sorted, x) <==> Covered(all, x) {
        SameMembersCover(sorted, all, x);
        SameMembersCover(all, sorted, x);
      }
    }

    constructor (hunks: seq<Range>)
      requires WellFormed(hunks)
      ensures Valid() && this.hunks == hunks && revealed == []
    {
      this.hunks := hunks;
      revealed := [];
      visible := [];
      new;
      assert hunks + [] == hunks;
      visible := ExcerptRanges();
    }

    /** reveal_range: what was visible stays visible, and the range becomes visible. */
    method RevealRange(range: Range)
      requires Valid() && range.start <= range.end
      modifies this
      ensures Valid() && hunks == old(hunks) && revealed == old(revealed) + [range]
      ensures forall x: real :: Covered(visible, x) <==> Covered(old(visible), x) || Hits(range, x)
    {
      ghost var before := hunks + revealed;
      revealed := revealed + [range];
      assert hunks + revealed == before + [range];
      visible := ExcerptRanges();
      forall x: real ensures Covered(visible, x) <==> Covered(old(visible), x) || Hits(range, x) {
        CoveredConcat(before, [range], x);
        CoveredOne(range, x);
      }
    }
  }
}
