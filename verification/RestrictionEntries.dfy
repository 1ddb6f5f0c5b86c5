/**
 Which vendors of a restriction share a range entry, what the entries cover, and when they are as few as possible: said
 of vendor sets and the GVL alone, for vendor sets without 0.
 */
module RestrictionEntries {
  import opened ConsentVector
  import opened VendorVector
  import opened PurposeRestrictions

  // ----- what is promised

  /** Some listed id is larger than `a`, and no larger than the largest vendor. */
  ghost predicate ListedAfter(vendors: set<int>, gvl: set<int>, a: int) {
    exists g, v :: g in gvl && v in vendors && a < g <= v
  }

  /** A listed id that is no vendor lies strictly between. */
  ghost predicate Obstacle(vendors: set<int>, gvl: set<int>, a: int, b: int) {
    exists g :: g in gvl && g !in vendors && a < g < b
  }

  /** Both ids lie in one of the entries. */
  ghost predicate Share(entries: seq<RangeEntry>, a: int, b: int) {
    exists k :: 0 <= k < |entries| && a in EntryIds(entries[k]) && b in EntryIds(entries[k])
  }

  /** The id lies in one of the entries. */
  ghost predicate InSome(entries: seq<RangeEntry>, id: int) {
    exists k :: 0 <= k < |entries| && id in EntryIds(entries[k])
  }

  /** The vendors are neighbours: no vendor lies between. */
  ghost predicate Neighbours(vendors: set<int>, a: int, b: int) {
    a in vendors && b in vendors && a < b && forall v :: v in vendors ==> v <= a || b <= v
  }

  /** The id lies in a gap that the encoder runs over. */
  ghost predicate InBridgedGap(vendors: set<int>, gvl: set<int>, id: int) {
    exists a, b :: Neighbours(vendors, a, b) && a < id < b && !Obstacle(vendors, gvl, a, b) && ReachesListed(vendors, gvl, b)
  }

  /** Some listed id is at least `b`, and no larger than the largest vendor. */
  ghost predicate ReachesListed(vendors: set<int>, gvl: set<int>, b: int) {
    exists g, v :: g in gvl && v in vendors && b <= g <= v
  }

  /** The entries contain every vendor and nothing else that is listed. */
  ghost predicate Admissible(entries: seq<RangeEntry>, vendors: set<int>, gvl: set<int>) {
    && (forall v :: v in vendors ==> InSome(entries, v))
    && (forall k, id :: 0 <= k < |entries| && id in EntryIds(entries[k]) ==> id in vendors || id !in gvl)
  }

  // ----- the runs of the encoder

  lemma OrderIff(r: seq<int>, i: nat, j: nat)
    requires i < |r| && j < |r| && Increasing(r)
    ensures r[i] < r[j] <==> i < j
  {
  }

  predicate NoZero(r: seq<int>) {
    forall i :: 0 <= i < |r| ==> r[i] != 0
  }

  /** Nothing closes from position `i` up to position `j`. */
  predicate RunsOn(r: seq<int>, gvl: set<int>, i: nat, j: nat)
    requires j < |r|
  {
    forall p :: i <= p < j ==> !Closes(r, gvl, p)
  }

  lemma {:induction false} StartOfRun(r: seq<int>, gvl: set<int>, p: nat)
    requires p < |r| && NoZero(r)
    ensures var s := GapStart(r, gvl, p); RunsOn(r, gvl, s, p) && (s > 0 ==> Closes(r, gvl, s - 1))
  {
    if p > 0 && !Closes(r, gvl, p - 1) {
      StartOfRun(r, gvl, p - 1);
    }
  }

  lemma {:induction false} EntryMembers(r: seq<int>, gvl: set<int>, k: nat, e: RangeEntry)
    requires k <= |r|
    ensures e in GapEntries(r, gvl, k) <==> exists p :: 0 <= p < k && Closes(r, gvl, p) && e == GapEntry(r, gvl, p)
  {
    if k > 0 {
      EntryMembers(r, gvl, k - 1, e);
    }
  }

  lemma EntryIsInterval(r: seq<int>, gvl: set<int>, p: nat, id: int)
    requires p < |r| && Increasing(r)
    ensures id in EntryIds(GapEntry(r, gvl, p)) <==> r[GapStart(r, gvl, p)] <= id <= r[p]
  {
    assert GapStart(r, gvl, p) < p ==> r[GapStart(r, gvl, p)] < r[p];
  }

  /** The position where the entry of vendor number `j` ends. */
  lemma NextClose(r: seq<int>, gvl: set<int>, j: nat) returns (e: nat)
    requires j < |r|
    ensures j <= e < |r| && Closes(r, gvl, e) && RunsOn(r, gvl, j, e)
  {
    e := j;
    while !Closes(r, gvl, e)
      invariant j <= e < |r| && RunsOn(r, gvl, j, e)
      decreases |r| - e
    {
      e := e + 1;
    }
  }

  /** A run that closes before `s` and goes on from `i` to `e` starts no later than `i`. */
  lemma StartsBefore(r: seq<int>, gvl: set<int>, i: nat, e: nat)
    requires i <= e < |r| && NoZero(r) && RunsOn(r, gvl, i, e)
    ensures GapStart(r, gvl, e) <= i
  {
    StartOfRun(r, gvl, e);
    var s := GapStart(r, gvl, e);
    assert s > i ==> i <= s - 1 < e;
  }

  lemma RunsOnJoin(r: seq<int>, gvl: set<int>, i: nat, j: nat, e: nat)
    requires i <= j <= e < |r| && RunsOn(r, gvl, i, j) && RunsOn(r, gvl, j, e)
    ensures RunsOn(r, gvl, i, e)
  {
  }

  /** Two vendors share an entry exactly when nothing closes between them. */
  lemma ShareIffRunsOn(r: seq<int>, gvl: set<int>, i: nat, j: nat)
    requires i <= j < |r| && Increasing(r) && NoZero(r)
    ensures Share(GapEntries(r, gvl, |r|), r[i], r[j]) <==> RunsOn(r, gvl, i, j)
  {
    var entries := GapEntries(r, gvl, |r|);
    if RunsOn(r, gvl, i, j) {
      var e := NextClose(r, gvl, j);
      RunsOnJoin(r, gvl, i, j, e);
      StartsBefore(r, gvl, i, e);
      var entry := GapEntry(r, gvl, e);
      EntryMembers(r, gvl, |r|, entry);
      EntryIsInterval(r, gvl, e, r[i]);
      EntryIsInterval(r, gvl, e, r[j]);
      var k :| 0 <= k < |entries| && entries[k] == entry;
    }
    if Share(entries, r[i], r[j]) {
      var k :| 0 <= k < |entries| && r[i] in EntryIds(entries[k]) && r[j] in EntryIds(entries[k]);
      EntryMembers(r, gvl, |r|, entries[k]);
      var e :| 0 <= e < |r| && Closes(r, gvl, e) && entries[k] == GapEntry(r, gvl, e);
      InOneRun(r, gvl, i, j, e);
    }
  }

  lemma InOneRun(r: seq<int>, gvl: set<int>, i: nat, j: nat, e: nat)
    requires i <= j < |r| && e < |r| && Increasing(r) && NoZero(r)
    requires r[i] in EntryIds(GapEntry(r, gvl, e)) && r[j] in EntryIds(GapEntry(r, gvl, e))
    ensures RunsOn(r, gvl, i, j)
  {
    EntryIsInterval(r, gvl, e, r[i]);
    EntryIsInterval(r, gvl, e, r[j]);
    StartOfRun(r, gvl, e);
    OrderIff(r, i, GapStart(r, gvl, e));
    OrderIff(r, e, j);
  }

  // ----- what closes an entry, said of the GVL

  lemma {:induction false} FirstListedSpec(gvl: set<int>, id: int, from: int, last: int)
    ensures var f := FirstListed(gvl, id, from, last);
            || (f == id && forall g :: from <= g <= last ==> g !in gvl)
            || (from <= f <= last && f in gvl && forall g :: from <= g < f ==> g !in gvl)
    decreases last - from
  {
    if from <= last && from !in gvl {
      FirstListedSpec(gvl, id, from + 1, last);
    }
  }

  /** An entry goes on to the next vendor exactly when nothing listed lies between, and something listed from there on. */
  lemma GoesOnIff(r: seq<int>, gvl: set<int>, p: nat)
    requires p + 1 < |r| && Increasing(r)
    ensures var last := r[|r| - 1];
            !Closes(r, gvl, p) <==>
              (forall g :: r[p] < g < r[p + 1] ==> g !in gvl) && exists g :: g in gvl && r[p + 1] <= g <= last
  {
    var last := r[|r| - 1];
    assert r[p] < r[p + 1] <= last;
    FirstListedSpec(gvl, r[p], r[p] + 1, last);
    var f := NextListed(gvl, r[p], last);
    if f != r[p] {
      assert f in gvl && r[p] < f <= last;
    }
  }

  /** Nothing closes between two vendors: no listed id between neighbours, and a listed id from the later vendor on. */
  lemma RunsOnIff(r: seq<int>, gvl: set<int>, i: nat, j: nat)
    requires i < j < |r| && Increasing(r)
    ensures var last := r[|r| - 1];
            RunsOn(r, gvl, i, j) <==>
              && (forall p, g :: i <= p < j && r[p] < g < r[p + 1] ==> g !in gvl)
              && exists g :: g in gvl && r[j] <= g <= last
  {
    hide Closes;
    var last := r[|r| - 1];
    if RunsOn(r, gvl, i, j) {
      assert !Closes(r, gvl, j - 1);
      GoesOnIff(r, gvl, j - 1);
      forall p, g | i <= p < j && r[p] < g < r[p + 1] ensures g !in gvl {
        GoesOnIff(r, gvl, p);
      }
    }
    if (forall p, g :: i <= p < j && r[p] < g < r[p + 1] ==> g !in gvl) && exists g :: g in gvl && r[j] <= g <= last {
      var g :| g in gvl && r[j] <= g <= last;
      forall p | i <= p < j ensures !Closes(r, gvl, p) {
        OrderIff(r, j, p + 1);
        GoesOnIff(r, gvl, p);
      }
    }
  }

  // ----- from positions to sets

  lemma SortedFacts(vendors: set<int>, r: seq<int>)
    requires r == Sorted(vendors)
    ensures Increasing(r) && (forall v :: v in vendors <==> v in r) && (0 !in vendors ==> NoZero(r))
    ensures forall v :: v in vendors ==> v <= r[|r| - 1]
  {
    SortedSpec(vendors);
    forall i | 0 <= i < |r| ensures r[i] in vendors {
      assert r[i] in r;
    }
    forall v | v in vendors ensures v <= r[|r| - 1] {
      var i: int :| 0 <= i < |r| && r[i] == v;
    }
  }

  lemma {:induction false} Between(r: seq<int>, i: nat, j: nat, g: int) returns (p: nat)
    requires i < j < |r| && Increasing(r) && r[i] < g < r[j] && g !in r
    ensures i <= p < j && r[p] < g < r[p + 1]
    decreases j - i
  {
    if g < r[i + 1] {
      p := i;
    } else {
      p := Between(r, i + 1, j, g);
    }
  }

  /** No listed id between neighbours means: no listed id between that is not a vendor. */
  lemma ObstacleIff(vendors: set<int>, r: seq<int>, gvl: set<int>, i: nat, j: nat)
    requires r == Sorted(vendors) && i < j < |r|
    ensures Obstacle(vendors, gvl, r[i], r[j]) <==> exists p, g :: i <= p < j && r[p] < g < r[p + 1] && g in gvl
  {
    hide Sorted;
    SortedFacts(vendors, r);
    if g :| g in gvl && g !in vendors && r[i] < g < r[j] {
      var p := Between(r, i, j, g);
    }
    forall p, g | i <= p < j && r[p] < g < r[p + 1] && g in gvl ensures g !in vendors && r[i] < g < r[j] {
      NotBetween(r, p, g);
      assert i < p ==> r[i] < r[p];
      assert p + 1 < j ==> r[p + 1] < r[j];
    }
  }

  lemma NotBetween(r: seq<int>, p: nat, g: int)
    requires p + 1 < |r| && Increasing(r) && r[p] < g < r[p + 1]
    ensures g !in r
  {
    forall q | 0 <= q < |r| ensures r[q] != g {
      assert q < p ==> r[q] < r[p];
      assert q > p + 1 ==> r[p + 1] < r[q];
    }
  }

  lemma ReachesIff(vendors: set<int>, r: seq<int>, gvl: set<int>, b: int)
    requires r == Sorted(vendors) && r != []
    ensures ReachesListed(vendors, gvl, b) <==> exists g :: g in gvl && b <= g <= r[|r| - 1]
  {
    SortedFacts(vendors, r);
    assert r[|r| - 1] in r;
  }

  lemma ShareAt(vendors: set<int>, r: seq<int>, gvl: set<int>, i: nat, j: nat)
    requires r == Sorted(vendors) && 0 !in vendors && i < j < |r|
    ensures Share(VendorEntries(vendors, gvl), r[i], r[j]) <==>
              !Obstacle(vendors, gvl, r[i], r[j]) && ReachesListed(vendors, gvl, r[j])
  {
    SortedFacts(vendors, r);
    ShareIffRunsOn(r, gvl, i, j);
    RunsOnIff(r, gvl, i, j);
    ObstacleIff(vendors, r, gvl, i, j);
    ReachesIff(vendors, r, gvl, r[j]);
  }

  /**
   Two vendors share an entry if and only if no listed id that is no vendor lies between them, and some listed id is at
   least the larger one (and at most the largest vendor: always so when the vendors are listed).
   */
  lemma ShareIff(vendors: set<int>, gvl: set<int>, a: int, b: int)
    requires 0 !in vendors && a in vendors && b in vendors && a < b
    ensures Share(VendorEntries(vendors, gvl), a, b) <==> !Obstacle(vendors, gvl, a, b) && ReachesListed(vendors, gvl, b)
  {
    var r := Sorted(vendors);
    SortedFacts(vendors, r);
    var i: int :| 0 <= i < |r| && r[i] == a;
    var j: int :| 0 <= j < |r| && r[j] == b;
    OrderIff(r, i, j);
    ShareAt(vendors, r, gvl, i, j);
  }

  /** For listed vendors the second half is no condition. */
  lemma ShareIffListed(vendors: set<int>, gvl: set<int>, a: int, b: int)
    requires 0 !in vendors && vendors <= gvl && a in vendors && b in vendors && a < b
    ensures Share(VendorEntries(vendors, gvl), a, b) <==> !Obstacle(vendors, gvl, a, b)
  {
    ShareIff(vendors, gvl, a, b);
    assert b in gvl && b <= b <= b;
  }

  // ----- what the entries cover

  lemma {:induction false} UnionMembers(entries: seq<RangeEntry>, id: int)
    ensures id in UnionOf(entries) <==> InSome(entries, id)
  {
    if entries == [] {
    } else {
      var init, last := entries[..|entries| - 1], entries[|entries| - 1];
      assert entries == init + [last];
      UnionMembers(init, id);
      UnionOfNext(init, last);
      if k :| 0 <= k < |entries| && id in EntryIds(entries[k]) {
        assert k < |init| ==> init[k] == entries[k];
      }
      if k :| 0 <= k < |init| && id in EntryIds(init[k]) {
        assert entries[k] == init[k];
      }
    }
  }

  lemma NeighboursAt(vendors: set<int>, r: seq<int>, p: nat)
    requires r == Sorted(vendors) && p + 1 < |r|
    ensures Neighbours(vendors, r[p], r[p + 1])
  {
    SortedFacts(vendors, r);
    assert r[p] in r && r[p + 1] in r;
    forall v | v in vendors ensures v <= r[p] || r[p + 1] <= v {
      var q: int :| 0 <= q < |r| && r[q] == v;
      OrderIff(r, p, q);
      OrderIff(r, q, p + 1);
    }
  }

  /** A place inside an entry is a vendor or lies in a gap the entry runs over. */
  lemma InsideEntry(vendors: set<int>, r: seq<int>, gvl: set<int>, e: nat, id: int)
    requires r == Sorted(vendors) && 0 !in vendors && e < |r| && id in EntryIds(GapEntry(r, gvl, e))
    ensures id in vendors || InBridgedGap(vendors, gvl, id)
  {
    SortedFacts(vendors, r);
    EntryIsInterval(r, gvl, e, id);
    var s := GapStart(r, gvl, e);
    StartOfRun(r, gvl, e);
    assert r[s] in r && r[e] in r;
    if id !in vendors {
      var p := Between(r, s, e, id);
      NeighboursAt(vendors, r, p);
      GoesOnIff(r, gvl, p);
      ReachesIff(vendors, r, gvl, r[p + 1]);
      assert !Obstacle(vendors, gvl, r[p], r[p + 1]);
    }
  }

  lemma EntriesAreIntervals(e: RangeEntry, a: int, b: int, id: int)
    requires a in EntryIds(e) && b in EntryIds(e) && a <= id <= b
    ensures id in EntryIds(e)
  {
  }

  lemma VendorInEntry(vendors: set<int>, gvl: set<int>, v: int)
    requires 0 !in vendors && v in vendors
    ensures Share(VendorEntries(vendors, gvl), v, v)
  {
    var r := Sorted(vendors);
    SortedFacts(vendors, r);
    var i: int :| 0 <= i < |r| && r[i] == v;
    ShareIffRunsOn(r, gvl, i, i);
  }

  /**
   The entries cover the vendors and every id between two neighbouring vendors with no listed id between them (as long
   as something is listed from the later one on), and nothing else.
   */
  lemma CoverIff(vendors: set<int>, gvl: set<int>, id: int)
    requires 0 !in vendors
    ensures id in Cover(vendors, gvl) <==> id in vendors || InBridgedGap(vendors, gvl, id)
  {
    var r, entries := Sorted(vendors), VendorEntries(vendors, gvl);
    UnionMembers(entries, id);
    if k :| 0 <= k < |entries| && id in EntryIds(entries[k]) {
      EntryMembers(r, gvl, |r|, entries[k]);
      var e :| 0 <= e < |r| && Closes(r, gvl, e) && entries[k] == GapEntry(r, gvl, e);
      InsideEntry(vendors, r, gvl, e, id);
    }
    if id in vendors {
      VendorInEntry(vendors, gvl, id);
    } else if InBridgedGap(vendors, gvl, id) {
      BridgedIsCovered(vendors, gvl, id);
    }
  }

  lemma BridgedIsCovered(vendors: set<int>, gvl: set<int>, id: int)
    requires 0 !in vendors && InBridgedGap(vendors, gvl, id)
    ensures InSome(VendorEntries(vendors, gvl), id)
  {
    var entries := VendorEntries(vendors, gvl);
    var a, b :| Neighbours(vendors, a, b) && a < id < b && !Obstacle(vendors, gvl, a, b) && ReachesListed(vendors, gvl, b);
    ShareIff(vendors, gvl, a, b);
    var k :| 0 <= k < |entries| && a in EntryIds(entries[k]) && b in EntryIds(entries[k]);
    EntriesAreIntervals(entries[k], a, b, id);
  }

  // ----- how few entries there are

  /** The last vendors of the entries. */
  function Ends(r: seq<int>, gvl: set<int>, k: nat): (ends: seq<int>)
    requires k <= |r|
    ensures |ends| == |GapEntries(r, gvl, k)|
  {
    if k == 0 then []
    else Ends(r, gvl, k - 1) + if Closes(r, gvl, k - 1) then [r[k - 1]] else []
  }

  /** An entry closes between `a` and `b`. */
  ghost predicate Apart(r: seq<int>, gvl: set<int>, a: int, b: int) {
    exists p :: 0 <= p < |r| - 1 && Closes(r, gvl, p) && a <= r[p] && r[p + 1] <= b
  }

  ghost predicate EndsAt(r: seq<int>, gvl: set<int>, k: nat, id: int)
    requires k <= |r|
  {
    exists p :: 0 <= p < k && Closes(r, gvl, p) && id == r[p]
  }

  lemma {:induction false} EndsAreEnds(r: seq<int>, gvl: set<int>, k: nat, m: nat)
    requires k <= |r| && m < |Ends(r, gvl, k)|
    ensures EndsAt(r, gvl, k, Ends(r, gvl, k)[m])
  {
    if m < |Ends(r, gvl, k - 1)| {
      EndsAreEnds(r, gvl, k - 1, m);
    }
  }

  lemma {:induction false} EndsAreApart(r: seq<int>, gvl: set<int>, k: nat, m: nat, n: nat)
    requires k <= |r| && Increasing(r) && m < n < |Ends(r, gvl, k)|
    ensures Apart(r, gvl, Ends(r, gvl, k)[m], Ends(r, gvl, k)[n])
  {
    var before := Ends(r, gvl, k - 1);
    if n < |before| {
      EndsAreApart(r, gvl, k - 1, m, n);
    } else {
      EndsAreEnds(r, gvl, k - 1, m);
      EndedBefore(r, gvl, k, before[m]);
    }
  }

  lemma EndedBefore(r: seq<int>, gvl: set<int>, k: nat, id: int)
    requires 0 < k <= |r| && Increasing(r) && EndsAt(r, gvl, k - 1, id)
    ensures Apart(r, gvl, id, r[k - 1])
  {
    var p :| 0 <= p < k - 1 && Closes(r, gvl, p) && id == r[p];
    OrderIff(r, k - 1, p + 1);
  }

  /** If no entry holds two of the ids, there are at least as many entries as ids. */
  lemma {:induction false} Pigeonhole(ids: seq<int>, entries: seq<RangeEntry>)
    requires forall m :: 0 <= m < |ids| ==> InSome(entries, ids[m])
    requires forall m, n :: 0 <= m < n < |ids| ==> !Share(entries, ids[m], ids[n])
    ensures |ids| <= |entries|
    decreases |ids|
  {
    if ids != [] {
      var n := |ids| - 1;
      assert InSome(entries, ids[n]);
      var k :| 0 <= k < |entries| && ids[n] in EntryIds(entries[k]);
      var rest, first := entries[..k] + entries[k + 1..], ids[..n];
      forall m | 0 <= m < n ensures InSome(rest, first[m]) {
        assert !Share(entries, ids[m], ids[n]);
        StillIn(entries, k, rest, ids[m]);
      }
      forall x, y | 0 <= x < y < n ensures !Share(rest, first[x], first[y]) {
        StillApart(entries, k, rest, ids[x], ids[y]);
      }
      Pigeonhole(first, rest);
    }
  }

  lemma StillIn(entries: seq<RangeEntry>, k: nat, rest: seq<RangeEntry>, id: int)
    requires k < |entries| && rest == entries[..k] + entries[k + 1..] && InSome(entries, id) && id !in EntryIds(entries[k])
    ensures InSome(rest, id)
  {
    var j :| 0 <= j < |entries| && id in EntryIds(entries[j]);
    assert rest[if j < k then j else j - 1] == entries[j];
  }

  lemma StillApart(entries: seq<RangeEntry>, k: nat, rest: seq<RangeEntry>, a: int, b: int)
    requires k < |entries| && rest == entries[..k] + entries[k + 1..] && !Share(entries, a, b)
    ensures !Share(rest, a, b)
  {
    forall j | 0 <= j < |rest| ensures !(a in EntryIds(rest[j]) && b in EntryIds(rest[j])) {
      assert rest[j] == entries[if j < k then j else j + 1];
    }
  }

  /** Every vendor but the largest has a listed id above it, up to the largest vendor. */
  ghost predicate ListedToTheEnd(vendors: set<int>, gvl: set<int>) {
    forall a, b :: a in vendors && b in vendors && a < b ==> ListedAfter(vendors, gvl, a)
  }

  /** Where an entry closes although something is listed later, a listed id lies before the next vendor. */
  lemma ClosedByListed(vendors: set<int>, r: seq<int>, gvl: set<int>, p: nat) returns (g: int)
    requires r == Sorted(vendors) && p + 1 < |r| && Closes(r, gvl, p) && ListedToTheEnd(vendors, gvl)
    ensures g in gvl && g !in vendors && r[p] < g < r[p + 1]
  {
    SortedFacts(vendors, r);
    assert r[p] in r && r[p + 1] in r;
    GoesOnIff(r, gvl, p);
    assert ListedAfter(vendors, gvl, r[p]);
    var h, v :| h in gvl && v in vendors && r[p] < h <= v;
    if h < r[p + 1] {
      g := h;
    } else {
      assert h in gvl && r[p + 1] <= h <= r[|r| - 1];
      g :| r[p] < g < r[p + 1] && g in gvl;
    }
    NotBetween(r, p, g);
  }

  lemma ApartIsNotShared(vendors: set<int>, r: seq<int>, gvl: set<int>, entries: seq<RangeEntry>, a: int, b: int)
    requires r == Sorted(vendors) && ListedToTheEnd(vendors, gvl) && Admissible(entries, vendors, gvl) && Apart(r, gvl, a, b)
    ensures !Share(entries, a, b)
  {
    var p :| 0 <= p < |r| - 1 && Closes(r, gvl, p) && a <= r[p] && r[p + 1] <= b;
    var g := ClosedByListed(vendors, r, gvl, p);
    forall k | 0 <= k < |entries| ensures !(a in EntryIds(entries[k]) && b in EntryIds(entries[k])) {
      if a in EntryIds(entries[k]) && b in EntryIds(entries[k]) {
        EntriesAreIntervals(entries[k], a, b, g);
      }
    }
  }

  lemma EndIsVendor(vendors: set<int>, r: seq<int>, gvl: set<int>, id: int)
    requires r == Sorted(vendors) && EndsAt(r, gvl, |r|, id)
    ensures id in vendors
  {
    SortedFacts(vendors, r);
    var p :| 0 <= p < |r| && Closes(r, gvl, p) && id == r[p];
    assert r[p] in r;
  }

  /** If something is listed to the end, no admissible list of entries is shorter. */
  lemma NoneShorter(vendors: set<int>, gvl: set<int>, entries: seq<RangeEntry>)
    requires ListedToTheEnd(vendors, gvl) && Admissible(entries, vendors, gvl)
    ensures |VendorEntries(vendors, gvl)| <= |entries|
  {
    var r := Sorted(vendors);
    SortedFacts(vendors, r);
    var ends := Ends(r, gvl, |r|);
    forall m | 0 <= m < |ends| ensures InSome(entries, ends[m]) {
      EndsAreEnds(r, gvl, |r|, m);
      EndIsVendor(vendors, r, gvl, ends[m]);
    }
    forall m, n | 0 <= m < n < |ends| ensures !Share(entries, ends[m], ends[n]) {
      EndsAreApart(r, gvl, |r|, m, n);
      ApartIsNotShared(vendors, r, gvl, entries, ends[m], ends[n]);
    }
    Pigeonhole(ends, entries);
  }

  lemma IsAdmissible(vendors: set<int>, gvl: set<int>)
    requires 0 !in vendors
    ensures Admissible(VendorEntries(vendors, gvl), vendors, gvl)
  {
    var entries := VendorEntries(vendors, gvl);
    forall v | v in vendors ensures InSome(entries, v) {
      VendorInEntry(vendors, gvl, v);
    }
    CoverSound(vendors, gvl);
    forall k, id | 0 <= k < |entries| && id in EntryIds(entries[k]) ensures id in vendors || id !in gvl {
      UnionMembers(entries, id);
    }
  }

  /** If nothing is listed beyond a vendor that is not the largest, the last two entries could be one. */
  lemma LastTwoMerge(vendors: set<int>, r: seq<int>, gvl: set<int>) returns (entries: seq<RangeEntry>)
    requires r == Sorted(vendors) && 0 !in vendors && !ListedToTheEnd(vendors, gvl)
    ensures Admissible(entries, vendors, gvl) && |entries| < |VendorEntries(vendors, gvl)|
  {
    NothingListedLate(vendors, r, gvl);
    var n := |r|;
    var start := r[GapStart(r, gvl, n - 2)];
    var init := GapEntries(r, gvl, n - 2);
    entries := init + [Range(start, r[n - 1])];
    LastTwoEntries(r, gvl, n);
    MergedIsAdmissible(vendors, r, gvl, init, start, entries);
  }

  lemma LastTwoEntries(r: seq<int>, gvl: set<int>, n: nat)
    requires 2 <= n == |r| && Closes(r, gvl, n - 2)
    ensures GapEntries(r, gvl, n) == GapEntries(r, gvl, n - 2) + [GapEntry(r, gvl, n - 2)] + [Single(r[n - 1])]
  {
    assert GapEntries(r, gvl, n - 1) == GapEntries(r, gvl, n - 2) + [GapEntry(r, gvl, n - 2)];
    assert GapStart(r, gvl, n - 1) == n - 1 && Closes(r, gvl, n - 1);
  }

  lemma NothingListedLate(vendors: set<int>, r: seq<int>, gvl: set<int>)
    requires r == Sorted(vendors) && !ListedToTheEnd(vendors, gvl)
    ensures |r| >= 2 && Closes(r, gvl, |r| - 2)
    ensures forall g :: g in gvl ==> !(r[|r| - 2] < g <= r[|r| - 1])
  {
    hide Closes, Sorted;
    SortedFacts(vendors, r);
    var a, b :| a in vendors && b in vendors && a < b && !ListedAfter(vendors, gvl, a);
    var i: int :| 0 <= i < |r| && r[i] == a;
    var j: int :| 0 <= j < |r| && r[j] == b;
    OrderIff(r, i, j);
    var n := |r|;
    OrderIff(r, n - 2, i);
    assert r[n - 1] in r;
    forall g | g in gvl ensures !(r[n - 2] < g <= r[n - 1]) {
      assert !(a < g <= r[n - 1]);
    }
    GoesOnIff(r, gvl, n - 2);
  }

  lemma MergedIsAdmissible(vendors: set<int>, r: seq<int>, gvl: set<int>, init: seq<RangeEntry>, start: int, entries: seq<RangeEntry>)
    requires r == Sorted(vendors) && 0 !in vendors && |r| >= 2 && start == r[GapStart(r, gvl, |r| - 2)]
    requires VendorEntries(vendors, gvl) == init + [GapEntry(r, gvl, |r| - 2)] + [Single(r[|r| - 1])]
    requires entries == init + [Range(start, r[|r| - 1])]
    requires forall g :: g in gvl ==> !(r[|r| - 2] < g <= r[|r| - 1])
    ensures Admissible(entries, vendors, gvl)
  {
    hide Sorted, GapEntry, GapStart, VendorEntries;
    SortedFacts(vendors, r);
    IsAdmissible(vendors, gvl);
    var all, n := VendorEntries(vendors, gvl), |r|;
    var m := |init|;
    assert all[m] == GapEntry(r, gvl, n - 2) && all[m + 1] == Single(r[n - 1]) && entries[m] == Range(start, r[n - 1]);
    OrderIff(r, n - 2, n - 1);
    OrderIff(r, n - 2, GapStart(r, gvl, n - 2));
    forall v | v in vendors ensures InSome(entries, v) {
      var k :| 0 <= k < |all| && v in EntryIds(all[k]);
      EntryIsInterval(r, gvl, n - 2, v);
      if k < m {
        assert entries[k] == all[k];
      } else {
        assert v in EntryIds(entries[m]);
      }
    }
    forall k, id | 0 <= k < |entries| && id in EntryIds(entries[k]) ensures id in vendors || id !in gvl {
      if k < m {
        assert all[k] == entries[k];
      } else if id <= r[n - 2] {
        EntryIsInterval(r, gvl, n - 2, id);
        assert id in EntryIds(all[m]);
      }
    }
  }

  /**
   The entries are as few as any that contain the vendors and nothing else that is listed, if and only if something is
   listed beyond every vendor but the largest.
   */
  lemma FewestIff(vendors: set<int>, gvl: set<int>)
    requires 0 !in vendors
    ensures Admissible(VendorEntries(vendors, gvl), vendors, gvl)
    ensures (forall entries :: Admissible(entries, vendors, gvl) ==> |VendorEntries(vendors, gvl)| <= |entries|)
            <==> ListedToTheEnd(vendors, gvl)
  {
    IsAdmissible(vendors, gvl);
    if ListedToTheEnd(vendors, gvl) {
      forall entries | Admissible(entries, vendors, gvl) ensures |VendorEntries(vendors, gvl)| <= |entries| {
        NoneShorter(vendors, gvl, entries);
      }
    } else {
      var shorter := LastTwoMerge(vendors, Sorted(vendors), gvl);
    }
  }

  /** So for listed vendors the count is the least possible. */
  lemma FewestForListed(vendors: set<int>, gvl: set<int>, entries: seq<RangeEntry>)
    requires 0 !in vendors && vendors <= gvl && Admissible(entries, vendors, gvl)
    ensures |VendorEntries(vendors, gvl)| <= |entries| && WrittenCount(vendors, gvl) == |VendorEntries(vendors, gvl)|
  {
    forall a, b | a in vendors && b in vendors && a < b ensures ListedAfter(vendors, gvl, a) {
      assert b in gvl && a < b <= b;
    }
    NoneShorter(vendors, gvl, entries);
    WrittenCountIs(vendors, gvl);
    OnlyZeroIsLost(vendors, gvl);
  }

  /** Two unlisted vendors and an empty GVL: one range would do, and two entries are written. */
  lemma MoreThanNeeded(vendors: set<int>)
    requires vendors == {1, 2}
    ensures exists entries :: Admissible(entries, vendors, {}) && |entries| < |VendorEntries(vendors, {})|
  {
    assert 1 in vendors && 2 in vendors;
    assert !ListedToTheEnd(vendors, {});
    FewestIff(vendors, {});
  }
}
