/** What the printed magnet list shows: which areas, in which order, and which issues under each. */
module MagnetOrder {
  import opened Sorting
  import opened MagnetList

  // ----- the areas and issues, straight from what was collected

  /** Every (area, issue) listing, in the order of collection. */
  function Listings(infos: seq<Info>): seq<(string, Info)> {
    if infos == [] then []
    else
      var last := infos[|infos| - 1];
      Listings(infos[..|infos| - 1]) + ListingsOf(last, |last.areas|)
  }

  function ListingsOf(info: Info, k: nat): seq<(string, Info)>
    requires k <= |info.areas|
  {
    if k == 0 then [] else ListingsOf(info, k - 1) + [(info.areas[k - 1], info)]
  }

  /** The issues listed under an area. */
  function IssuesOf(ls: seq<(string, Info)>, area: string): seq<Info> {
    if ls == [] then []
    else
      var last := ls[|ls| - 1];
      IssuesOf(ls[..|ls| - 1], area) + if last.0 == area then [last.1] else []
  }

  /** How many duplicates the issues have together. */
  function Duplicates(issues: seq<Info>): nat {
    if issues == [] then 0 else Duplicates(issues[..|issues| - 1]) + issues[|issues| - 1].count
  }

  /** The area is listed at position `p` for the first time. */
  predicate FirstAt(ls: seq<(string, Info)>, p: int, area: string) {
    0 <= p < |ls| && ls[p].0 == area && forall q :: 0 <= q < p ==> ls[q].0 != area
  }

  lemma {:induction false} ListingMembers(infos: seq<Info>, area: string, info: Info)
    ensures (area, info) in Listings(infos) <==> info in infos && area in info.areas
  {
    if infos != [] {
      var init, last := infos[..|infos| - 1], infos[|infos| - 1];
      assert infos == init + [last];
      ListingMembers(init, area, info);
      ListingsOfMembers(last, |last.areas|, area, info);
      assert last.areas[..|last.areas|] == last.areas;
    }
  }

  lemma {:induction false} ListingsOfMembers(info: Info, k: nat, area: string, x: Info)
    requires k <= |info.areas|
    ensures (area, x) in ListingsOf(info, k) <==> x == info && area in info.areas[..k]
  {
    if k > 0 {
      ListingsOfMembers(info, k - 1, area, x);
      assert info.areas[..k] == info.areas[..k - 1] + [info.areas[k - 1]];
    }
  }

  lemma {:induction false} IssuesOfMembers(ls: seq<(string, Info)>, area: string, info: Info)
    ensures info in IssuesOf(ls, area) <==> (area, info) in ls
  {
    if ls != [] {
      IssuesOfMembers(ls[..|ls| - 1], area, info);
      assert ls == ls[..|ls| - 1] + [ls[|ls| - 1]];
    }
  }

  // ----- grouping is a fold over the listings

  function GroupAll(ls: seq<(string, Info)>): seq<Group> {
    if ls == [] then [] else AddToArea(GroupAll(ls[..|ls| - 1]), ls[|ls| - 1].0, ls[|ls| - 1].1)
  }

  lemma {:induction false} GroupMore(ls: seq<(string, Info)>, info: Info, k: nat)
    requires k <= |info.areas|
    ensures GroupAll(ls + ListingsOf(info, k)) == AddAreas(GroupAll(ls), info, k)
  {
    if k == 0 {
      assert ls + ListingsOf(info, k) == ls;
    } else {
      GroupMore(ls, info, k - 1);
      var all := ls + ListingsOf(info, k);
      assert all[..|all| - 1] == ls + ListingsOf(info, k - 1);
    }
  }

  lemma {:induction false} GroupedIsFold(infos: seq<Info>, k: nat)
    requires k <= |infos|
    ensures Grouped(infos, k) == GroupAll(Listings(infos[..k]))
  {
    if k > 0 {
      GroupedIsFold(infos, k - 1);
      assert infos[..k][..k - 1] == infos[..k - 1];
      GroupMore(Listings(infos[..k - 1]), infos[k - 1], |infos[k - 1].areas|);
    }
  }

  predicate DistinctAreas(groups: seq<Group>) {
    forall i, j :: 0 <= i < j < |groups| ==> groups[i].area != groups[j].area
  }

  ghost predicate HasGroup(groups: seq<Group>, area: string) {
    exists k :: 0 <= k < |groups| && groups[k].area == area
  }

  /** An issue joined the group of its area, or started a new one at the end. */
  ghost predicate Joined(before: seq<Group>, area: string, info: Info, after: seq<Group>) {
    if HasGroup(before, area) then
      |after| == |before| && forall k :: 0 <= k < |after| ==> after[k] == JoinedGroup(before[k], area, info)
    else after == before + [Group(area, [info], info.count)]
  }

  function JoinedGroup(g: Group, area: string, info: Info): Group {
    if g.area == area then Group(area, g.infos + [info], g.total + info.count) else g
  }

  lemma {:induction false} AddToAreaSpec(groups: seq<Group>, area: string, info: Info)
    requires DistinctAreas(groups)
    ensures Joined(groups, area, info, AddToArea(groups, area, info))
  {
    if groups != [] {
      var rest := groups[1..];
      AddToAreaSpec(rest, area, info);
      HasGroupSplit(groups, area);
      if groups[0].area == area {
        assert forall k :: 0 < k < |groups| ==> groups[k].area != area;
      } else if !HasGroup(rest, area) {
        assert [groups[0]] + (rest + [Group(area, [info], info.count)]) == groups + [Group(area, [info], info.count)];
      }
    }
  }

  lemma HasGroupSplit(groups: seq<Group>, area: string)
    requires groups != []
    ensures HasGroup(groups, area) <==> groups[0].area == area || HasGroup(groups[1..], area)
  {
    var rest := groups[1..];
    if k :| 0 <= k < |rest| && rest[k].area == area {
      assert groups[k + 1] == rest[k];
    }
    if k :| 0 < k < |groups| && groups[k].area == area {
      assert rest[k - 1] == groups[k];
    }
  }

  /** Each group holds the issues listed under its area, and their sum. */
  predicate GroupIs(ls: seq<(string, Info)>, g: Group) {
    g.infos == IssuesOf(ls, g.area) && g.total == Duplicates(IssuesOf(ls, g.area))
  }

  ghost predicate InFirstOrder(ls: seq<(string, Info)>, groups: seq<Group>) {
    forall i, j :: 0 <= i < j < |groups| ==> SeenBefore(ls, groups[i].area, groups[j].area)
  }

  lemma DuplicatesNext(issues: seq<Info>, info: Info)
    ensures Duplicates(issues + [info]) == Duplicates(issues) + info.count
  {
    assert (issues + [info])[..|issues|] == issues;
  }

  lemma {:induction false} NotListed(ls: seq<(string, Info)>, area: string)
    requires forall p :: 0 <= p < |ls| ==> ls[p].0 != area
    ensures IssuesOf(ls, area) == []
  {
    if ls != [] {
      NotListed(ls[..|ls| - 1], area);
    }
  }

  ghost predicate IsListed(ls: seq<(string, Info)>, area: string) {
    exists p :: 0 <= p < |ls| && ls[p].0 == area
  }

  lemma {:induction false} GroupAllSpec(ls: seq<(string, Info)>)
    ensures DistinctAreas(GroupAll(ls)) && forall k :: 0 <= k < |GroupAll(ls)| ==> GroupIs(ls, GroupAll(ls)[k])
    ensures forall area :: HasGroup(GroupAll(ls), area) <==> IsListed(ls, area)
    ensures InFirstOrder(ls, GroupAll(ls))
  {
    if ls != [] {
      var init, last := ls[..|ls| - 1], ls[|ls| - 1];
      var before, after := GroupAll(init), GroupAll(ls);
      assert ls == init + [last];
      GroupAllSpec(init);
      AddToAreaSpec(before, last.0, last.1);
      ListedStep(ls, init, last, before, after);
      GroupsStep(ls, init, last, before, after);
      OrderStep(ls, init, last, before, after);
    }
  }

  /** The areas with a group are those that are listed, one more at most; none has two. */
  lemma ListedStep(ls: seq<(string, Info)>, init: seq<(string, Info)>, last: (string, Info), before: seq<Group>, after: seq<Group>)
    requires ls == init + [last] && DistinctAreas(before) && Joined(before, last.0, last.1, after)
    requires forall area :: HasGroup(before, area) <==> IsListed(init, area)
    ensures DistinctAreas(after) && forall area :: HasGroup(after, area) <==> IsListed(ls, area)
  {
    if !HasGroup(before, last.0) {
      assert forall k :: 0 <= k < |before| ==> before[k].area != last.0;
    }
    forall area ensures HasGroup(after, area) <==> IsListed(ls, area) {
      HasGroupNext(before, last.0, last.1, after, area);
      IsListedNext(ls, init, last, area);
    }
  }

  lemma HasGroupNext(before: seq<Group>, area: string, info: Info, after: seq<Group>, a: string)
    requires Joined(before, area, info, after)
    ensures HasGroup(after, a) <==> HasGroup(before, a) || a == area
  {
    if k :| 0 <= k < |before| && before[k].area == a {
      assert after[k].area == a;
    }
    if !HasGroup(before, area) {
      assert after[|before|].area == area;
    }
    if k :| 0 <= k < |after| && after[k].area == a {
      assert k < |before| ==> before[k].area == a;
    }
  }

  lemma IsListedNext(ls: seq<(string, Info)>, init: seq<(string, Info)>, last: (string, Info), area: string)
    requires ls == init + [last]
    ensures IsListed(ls, area) <==> IsListed(init, area) || area == last.0
  {
    if p :| 0 <= p < |init| && init[p].0 == area {
      assert ls[p].0 == area;
    }
    assert ls[|init|].0 == last.0;
    if p :| 0 <= p < |ls| && ls[p].0 == area {
      assert p < |init| ==> init[p].0 == area;
    }
  }

  lemma IssuesNext(ls: seq<(string, Info)>, init: seq<(string, Info)>, last: (string, Info), area: string)
    requires ls == init + [last]
    ensures IssuesOf(ls, area) == IssuesOf(init, area) + if last.0 == area then [last.1] else []
  {
    assert ls[..|ls| - 1] == init;
  }

  lemma JoinedGroupIs(ls: seq<(string, Info)>, init: seq<(string, Info)>, last: (string, Info), g: Group)
    requires ls == init + [last] && GroupIs(init, g)
    ensures GroupIs(ls, JoinedGroup(g, last.0, last.1))
  {
    IssuesNext(ls, init, last, g.area);
    DuplicatesNext(IssuesOf(init, g.area), last.1);
  }

  lemma NewGroupIs(ls: seq<(string, Info)>, init: seq<(string, Info)>, last: (string, Info))
    requires ls == init + [last] && !IsListed(init, last.0)
    ensures GroupIs(ls, Group(last.0, [last.1], last.1.count))
  {
    assert forall p :: 0 <= p < |init| ==> init[p].0 != last.0;
    NotListed(init, last.0);
    IssuesNext(ls, init, last, last.0);
    assert [] + [last.1] == [last.1];
    DuplicatesNext([], last.1);
  }

  lemma GroupsStep(ls: seq<(string, Info)>, init: seq<(string, Info)>, last: (string, Info), before: seq<Group>, after: seq<Group>)
    requires ls == init + [last] && Joined(before, last.0, last.1, after)
    requires forall k :: 0 <= k < |before| ==> GroupIs(init, before[k])
    requires forall area :: HasGroup(before, area) <==> IsListed(init, area)
    ensures forall k :: 0 <= k < |after| ==> GroupIs(ls, after[k])
  {
    hide GroupIs, IsListed;
    forall k | 0 <= k < |after| ensures GroupIs(ls, after[k]) {
      if k < |before| {
        JoinedGroupIs(ls, init, last, before[k]);
        assert !HasGroup(before, last.0) ==> before[k].area != last.0;
      } else {
        NewGroupIs(ls, init, last);
      }
    }
  }

  lemma FirstAtNext(ls: seq<(string, Info)>, init: seq<(string, Info)>, last: (string, Info), p: int, area: string)
    requires ls == init + [last]
    ensures FirstAt(ls, p, area) <==> FirstAt(init, p, area) || (p == |init| && last.0 == area && !IsListed(init, area))
  {
    if FirstAt(init, p, area) {
      assert ls[p] == init[p] && forall q :: 0 <= q < p ==> ls[q] == init[q];
    }
    if FirstAt(ls, p, area) && p < |init| {
      assert init[p] == ls[p] && forall q :: 0 <= q < p ==> init[q] == ls[q];
    }
    if FirstAt(ls, p, area) && p == |init| {
      assert forall q :: 0 <= q < p ==> init[q] == ls[q];
    }
  }

  lemma OrderStep(ls: seq<(string, Info)>, init: seq<(string, Info)>, last: (string, Info), before: seq<Group>, after: seq<Group>)
    requires ls == init + [last] && InFirstOrder(init, before)
    requires forall area :: HasGroup(before, area) <==> IsListed(init, area)
    requires Joined(before, last.0, last.1, after)
    ensures InFirstOrder(ls, after)
  {
    forall i, j | 0 <= i < j < |after| ensures SeenBefore(ls, after[i].area, after[j].area) {
      assert HasGroup(before, before[i].area);
      if j < |before| {
        assert HasGroup(before, before[j].area) && SeenBefore(init, before[i].area, before[j].area);
      }
      forall p, q | FirstAt(ls, p, after[i].area) && FirstAt(ls, q, after[j].area) ensures p < q {
        FirstAtNext(ls, init, last, p, after[i].area);
        FirstAtNext(ls, init, last, q, after[j].area);
      }
    }
  }

  /**
   The groups of the printing script: one for each listed area, in the order of first listing, each with the issues
   listed under its area and the sum of their counts.
   */
  lemma GroupedSpec(infos: seq<Info>)
    ensures var ls, groups := Listings(infos), Grouped(infos, |infos|);
            && DistinctAreas(groups) && InFirstOrder(ls, groups)
            && (forall area :: HasGroup(groups, area) <==> exists info :: info in infos && area in info.areas)
            && forall k :: 0 <= k < |groups| ==> GroupIs(ls, groups[k])
  {
    var ls, groups := Listings(infos), Grouped(infos, |infos|);
    assert infos[..|infos|] == infos;
    GroupedIsFold(infos, |infos|);
    GroupAllSpec(ls);
    forall area ensures IsListed(ls, area) <==> exists info :: info in infos && area in info.areas {
      ListedIffListing(infos, area);
    }
  }

  lemma ListedIffListing(infos: seq<Info>, area: string)
    ensures IsListed(Listings(infos), area) <==> exists info :: info in infos && area in info.areas
  {
    var ls := Listings(infos);
    if p :| 0 <= p < |ls| && ls[p].0 == area {
      assert (area, ls[p].1) in ls;
      ListingMembers(infos, area, ls[p].1);
    }
    if info :| info in infos && area in info.areas {
      ListingMembers(infos, area, info);
      var p: int :| 0 <= p < |ls| && ls[p] == (area, info);
    }
  }

  // ----- what stands in the list

  /** One block of lines for each area: a blank line, the heading, a blank line, and one line for each issue. */
  function Layout(intro: string, areas: seq<string>, issues: seq<seq<Info>>): seq<string>
    requires |areas| == |issues|
  {
    if areas == [] then [intro]
    else
      var n := |areas| - 1;
      Layout(intro, areas[..n], issues[..n]) + ["", "## " + areas[n], ""] + InfoLines(issues[n])
  }

  function AreaNames(groups: seq<Group>): (r: seq<string>)
    ensures |r| == |groups| && forall k :: 0 <= k < |r| ==> r[k] == groups[k].area
  {
    seq(|groups|, k requires 0 <= k < |groups| => groups[k].area)
  }

  function SortedIssues(groups: seq<Group>): (r: seq<seq<Info>>)
    ensures |r| == |groups| && forall k :: 0 <= k < |r| ==> r[k] == SortDesc(groups[k].infos, ByCount)
  {
    seq(|groups|, k requires 0 <= k < |groups| => SortDesc(groups[k].infos, ByCount))
  }

  lemma {:induction false} LinesAreLayout(intro: string, groups: seq<Group>)
    ensures AllLines(intro, groups) == Layout(intro, AreaNames(groups), SortedIssues(groups))
  {
    if groups != [] {
      var n := |groups| - 1;
      LinesAreLayout(intro, groups[..n]);
      assert AreaNames(groups)[..n] == AreaNames(groups[..n]) && SortedIssues(groups)[..n] == SortedIssues(groups[..n]);
    }
  }

  /** The first listing of the one area comes before that of the other. */
  ghost predicate SeenBefore(ls: seq<(string, Info)>, a: string, b: string) {
    forall p, q :: FirstAt(ls, p, a) && FirstAt(ls, q, b) ==> p < q
  }

  /** Every area that is listed, once; by falling sum of duplicates, and by first appearance among equals. */
  ghost predicate WellOrdered(ls: seq<(string, Info)>, areas: seq<string>) {
    && (forall i, j :: 0 <= i < j < |areas| ==> areas[i] != areas[j])
    && (forall area :: area in areas <==> IsListed(ls, area))
    && (forall i, j :: 0 <= i < j < |areas| ==> Duplicates(IssuesOf(ls, areas[i])) >= Duplicates(IssuesOf(ls, areas[j])))
    && (forall i, j :: 0 <= i < j < |areas| && Duplicates(IssuesOf(ls, areas[i])) == Duplicates(IssuesOf(ls, areas[j])) ==>
          SeenBefore(ls, areas[i], areas[j]))
  }

  /** The issues, as often as they are listed, by falling count, and by order of collection among equals. */
  ghost predicate WellSorted(listed: seq<Info>, shown: seq<Info>) {
    && multiset(shown) == multiset(listed)
    && (forall i, j :: 0 <= i < j < |shown| ==> shown[i].count >= shown[j].count)
    && forall n :: WithKey(shown, ByCount, n) == WithKey(listed, ByCount, n)
  }

  /** The printed lines: the areas in their order, and under each of them its issues in theirs. */
  lemma PrintedInOrder(infos: seq<Info>) returns (areas: seq<string>, issues: seq<seq<Info>>)
    ensures |areas| == |issues| && BodyLines(infos) == Layout(INTRO, areas, issues)
    ensures WellOrdered(Listings(infos), areas)
    ensures forall k :: 0 <= k < |areas| ==> WellSorted(IssuesOf(Listings(infos), areas[k]), issues[k])
  {
    var ls, groups := Listings(infos), Grouped(infos, |infos|);
    var sorted := SortDesc(groups, ByTotal);
    areas, issues := AreaNames(sorted), SortedIssues(sorted);
    LinesAreLayout(INTRO, sorted);
    assert infos[..|infos|] == infos;
    GroupedIsFold(infos, |infos|);
    GroupAllSpec(ls);
    SortDescSpec(groups, ByTotal);
    forall g | g in sorted ensures GroupIs(ls, g) {
    }
    forall k | 0 <= k < |areas| ensures WellSorted(IssuesOf(ls, areas[k]), issues[k]) {
      assert sorted[k] in sorted;
      SortDescSpec(sorted[k].infos, ByCount);
    }
    SortedAreas(ls, groups, sorted);
  }

  lemma SortedAreas(ls: seq<(string, Info)>, groups: seq<Group>, sorted: seq<Group>)
    requires groups == GroupAll(ls) && sorted == SortDesc(groups, ByTotal)
    ensures WellOrdered(ls, AreaNames(sorted))
  {
    var areas := AreaNames(sorted);
    GroupAllSpec(ls);
    SortDescSpec(groups, ByTotal);
    forall g | g in sorted ensures GroupIs(ls, g) {
    }
    forall i | 0 <= i < |sorted| ensures sorted[i].total == Duplicates(IssuesOf(ls, areas[i])) {
      assert sorted[i] in sorted;
    }
    forall i, j | 0 <= i < j < |areas| ensures areas[i] != areas[j] {
      SortedDistinct(groups, sorted, i, j);
    }
    forall area ensures area in areas <==> IsListed(ls, area) {
      AreasMatch(groups, sorted, area);
    }
    forall i, j | 0 <= i < j < |areas| && sorted[i].total == sorted[j].total ensures SeenBefore(ls, areas[i], areas[j]) {
      var x, y := SortKeepsOrder(groups, ByTotal, i, j);
      assert SeenBefore(ls, groups[x].area, groups[y].area);
    }
  }

  lemma AreasMatch(groups: seq<Group>, sorted: seq<Group>, area: string)
    requires forall g :: g in sorted <==> g in groups
    ensures area in AreaNames(sorted) <==> HasGroup(groups, area)
  {
    var areas := AreaNames(sorted);
    if area in areas {
      var k: int :| 0 <= k < |areas| && areas[k] == area;
      assert sorted[k] in sorted && sorted[k] in groups;
    }
    if HasGroup(groups, area) {
      var k :| 0 <= k < |groups| && groups[k].area == area;
      assert groups[k] in groups && groups[k] in sorted;
      var j: int :| 0 <= j < |sorted| && sorted[j] == groups[k];
      assert areas[j] == area;
    }
  }

  /** Sorting does not bring two groups of one area about. */
  lemma SortedDistinct(groups: seq<Group>, sorted: seq<Group>, i: nat, j: nat)
    requires DistinctAreas(groups) && multiset(sorted) == multiset(groups) && i < j < |sorted|
    ensures sorted[i].area != sorted[j].area
  {
    var a, b := sorted[i], sorted[j];
    assert a in multiset(sorted) && b in multiset(sorted);
    assert a in groups && b in groups;
    if a == b {
      TwiceIn(sorted, i, j);
      OnceIn(groups, a);
    }
  }

  lemma TwiceIn(xs: seq<Group>, i: nat, j: nat)
    requires i < j < |xs| && xs[i] == xs[j]
    ensures multiset(xs)[xs[i]] >= 2
  {
    assert xs == xs[..j] + xs[j..];
    assert xs[..j][i] == xs[i] && xs[j..][0] == xs[j];
    assert xs[i] in multiset(xs[..j]) && xs[i] in multiset(xs[j..]);
  }

  lemma {:induction false} OnceIn(groups: seq<Group>, g: Group)
    requires DistinctAreas(groups)
    ensures multiset(groups)[g] <= 1
  {
    if groups != [] {
      var init, last := groups[..|groups| - 1], groups[|groups| - 1];
      assert groups == init + [last];
      OnceIn(init, g);
      if g == last {
        assert g !in init;
      }
    }
  }
}
