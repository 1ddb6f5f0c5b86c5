/** The second-line triage queue: which creation days are due on which day, and a board kept equal to the due issues. */
module TriageQueue {
  import opened Basics
  import opened Text

  // ----- the calendar; days are counted so that day 1 is a Monday, as Python's date ordinals are

  /** `isoweekday()`: Monday is 1 and Sunday is 7. */
  function Weekday(day: int): (w: int)
    ensures 1 <= w <= 7
  {
    (day - 1) % 7 + 1
  }

  function MondayOf(day: int): int {
    day - (Weekday(day) - 1)
  }

  const DAY := 86400

  function DayStart(day: int): int {
    day * DAY
  }

  function DayEnd(day: int): int {
    day * DAY + DAY - 1
  }

  /** eligibility_window: the first and the last day, before they are turned into instants. */
  method WindowDays(day: int) returns (first: int, last: int)
    ensures first == FirstDay(day) && last == LastDay(day)
  {
    var today, weekday := day, Weekday(day);
    if weekday >= 6 {
      today := today - (weekday - 5);
      weekday := 5;
    }
    var thisMonday := today - (weekday - 1);
    first := thisMonday - 4;
    last := today - if weekday <= 2 then 4 else 2;
  }

  /** The Thursday before this week. */
  function FirstDay(today: int): int {
    MondayOf(today) - 4
  }

  /** Two working days back from today, or from Friday on a weekend. */
  function LastDay(today: int): int {
    match Weekday(today)
    case 1 => MondayOf(today) - 4
    case 2 => MondayOf(today) - 3
    case 3 => MondayOf(today)
    case 4 => MondayOf(today) + 1
    case _ => MondayOf(today) + 2
  }

  /** The instant lies in today's window, both ends included. */
  predicate InWindow(created: int, today: int) {
    DayStart(FirstDay(today)) <= created <= DayEnd(LastDay(today))
  }

  predicate Due(day: int, today: int) {
    FirstDay(today) <= day <= LastDay(today)
  }

  /** The window of instants is the window of days. */
  lemma InWindowIff(created: int, today: int)
    ensures InWindow(created, today) <==> Due(created / 86400, today)
  {
    var day := created / DAY;
    assert DayStart(day) <= created <= DayEnd(day);
  }

  /** No window is empty, and nothing advances over the weekend. */
  lemma WindowSpec(today: int)
    ensures FirstDay(today) <= LastDay(today) < today
    ensures Weekday(today) >= 6 ==>
              forall day :: Due(day, today) <==> Due(day, MondayOf(today) + 4)
  {
    WeekdayOf(MondayOf(today), 4);
  }

  lemma WeekdayOf(monday: int, k: int)
    requires Weekday(monday) == 1 && 0 <= k < 7
    ensures Weekday(monday + k) == k + 1 && MondayOf(monday + k) == monday
  {
  }

  /** The Monday of the one week in which issues of this day are due: Thursday and later belong to the next week. */
  function DueWeek(day: int): int {
    if Weekday(day) >= 4 then MondayOf(day) + 7 else MondayOf(day)
  }

  /** The weekday on which an issue of this day first comes up. */
  function FirstWeekday(day: int): int {
    match Weekday(day)
    case 1 => 3
    case 2 => 4
    case 3 => 5
    case 4 => 1
    case 5 => 2
    case _ => 3
  }

  /** Every creation day is due from one day of one week to the Sunday of that week, and never otherwise. */
  lemma DueIff(day: int, today: int)
    ensures Due(day, today) <==> DueWeek(day) + FirstWeekday(day) - 1 <= today <= DueWeek(day) + 6
    ensures day < DueWeek(day) + FirstWeekday(day) - 1 <= DueWeek(day) + 4
    ensures Weekday(DueWeek(day)) == 1
  {
    InWeeks(day);
    InWeeks(today);
    InWeeks(DueWeek(day));
  }

  /** A day, its weekday and its Monday, counted in whole weeks. */
  lemma InWeeks(day: int)
    ensures var week := (day - 1) / 7; day == 7 * week + Weekday(day) && MondayOf(day) == 7 * week + 1
  {
  }

  // ----- "a full business day has elapsed"

  predicate IsBusinessDay(day: int) {
    Weekday(day) <= 5
  }

  /** Weekend runs look back from Friday. */
  function AsOf(today: int): int {
    if IsBusinessDay(today) then today else MondayOf(today) + 4
  }

  /** Weekend issues count as created on the Monday after. */
  function CountsFrom(day: int): int {
    if IsBusinessDay(day) then day else MondayOf(day) + 7
  }

  ghost predicate FullBusinessDayBetween(a: int, b: int) {
    exists d :: a < d < b && IsBusinessDay(d)
  }

  /** Due means: not dropped by the Monday reset, and a whole business day lies between. */
  lemma DueMeans(day: int, today: int)
    ensures Due(day, today) <==> FirstDay(today) <= day && FullBusinessDayBetween(CountsFrom(day), AsOf(today))
  {
    var from, asOf := CountsFrom(day), AsOf(today);
    assert IsBusinessDay(from) && IsBusinessDay(asOf);
    if FirstDay(today) <= day {
      BusinessGap(from, asOf);
    }
  }

  /** Between two business days lies another exactly when they are two business days apart. */
  lemma BusinessGap(a: int, b: int)
    requires IsBusinessDay(a) && IsBusinessDay(b)
    ensures FullBusinessDayBetween(a, b) <==> b - a >= (if Weekday(a) >= 4 then 4 else 2)
  {
    if b - a >= 2 && Weekday(a) <= 3 {
      assert IsBusinessDay(a + 1);
    } else if b - a >= 4 {
      assert IsBusinessDay(if Weekday(a) == 4 then a + 1 else a + 3);
    }
  }

  /** The rule as the script words it, with the true creation day. */
  ghost predicate Elapsed(day: int, today: int) {
    FullBusinessDayBetween(day, AsOf(today))
  }

  /** The wording and the window differ in one case only: a weekend issue on the Tuesday after. */
  lemma WordingHoldsIff(day: int, today: int)
    requires FirstDay(today) <= day
    ensures (Due(day, today) <==> Elapsed(day, today)) <==> IsBusinessDay(day) || today != MondayOf(day) + 8
  {
    DueMeans(day, today);
    if !IsBusinessDay(day) {
      var monday, asOf := MondayOf(day) + 7, AsOf(today);
      MondayFollows(day, today);
      BusinessGap(monday, asOf);
      WeekendGap(day, monday, asOf);
    }
  }

  lemma MondayFollows(day: int, today: int)
    requires !IsBusinessDay(day)
    ensures var monday := MondayOf(day) + 7;
            && day < monday && IsBusinessDay(monday) && Weekday(monday) == 1 && IsBusinessDay(AsOf(today))
            && (AsOf(today) == monday + 1 <==> today == monday + 1)
            && forall d :: day <= d < monday ==> !IsBusinessDay(d)
  {
  }

  lemma WeekendGap(day: int, monday: int, asOf: int)
    requires day < monday && IsBusinessDay(monday) && forall d :: day <= d < monday ==> !IsBusinessDay(d)
    ensures FullBusinessDayBetween(day, asOf) <==> monday < asOf
  {
  }

  // ----- the board

  /** An entry of the project; drafts and pull requests have no issue. */
  datatype Item = Item(id: nat, issue: Option<string>)

  predicate DistinctIds(items: seq<Item>) {
    forall i, j :: 0 <= i < j < |items| ==> items[i].id != items[j].id
  }

  predicate IdsBelow(items: seq<Item>, n: nat) {
    forall item :: item in items ==> item.id < n
  }

  function IssuesOn(items: seq<Item>): set<string> {
    set item | item in items && item.issue.Some? :: item.issue.value
  }

  predicate Stays(item: Item, eligible: seq<string>) {
    item.issue.Some? ==> item.issue.value in eligible
  }

  function Staying(items: seq<Item>, eligible: seq<string>): seq<Item> {
    if items == [] then []
    else
      var last := items[|items| - 1];
      Staying(items[..|items| - 1], eligible) + if Stays(last, eligible) then [last] else []
  }

  function Missing(eligible: seq<string>, onBoard: set<string>): seq<string> {
    if eligible == [] then []
    else
      var last := eligible[|eligible| - 1];
      Missing(eligible[..|eligible| - 1], onBoard) + if last in onBoard then [] else [last]
  }

  /** Fresh entries for the issues, with the next free ids. */
  function Entries(issues: seq<string>, next: nat): seq<Item> {
    seq(|issues|, i requires 0 <= i < |issues| => Item(next + i, Some(issues[i])))
  }

  function Synced(items: seq<Item>, next: nat, eligible: seq<string>): seq<Item> {
    Staying(items, eligible) + Entries(Missing(eligible, IssuesOn(items)), next)
  }

  function WithoutId(items: seq<Item>, id: nat): seq<Item> {
    if items == [] then []
    else
      var last := items[|items| - 1];
      WithoutId(items[..|items| - 1], id) + if last.id == id then [] else [last]
  }

  lemma {:induction false} WithoutIdConcat(x: seq<Item>, y: seq<Item>, id: nat)
    ensures WithoutId(x + y, id) == WithoutId(x, id) + WithoutId(y, id)
  {
    if y == [] {
      assert x + y == x;
    } else {
      var n := |y| - 1;
      assert (x + y)[..|x| + n] == x + y[..n] && (x + y)[|x| + n] == y[n];
      WithoutIdConcat(x, y[..n], id);
    }
  }

  lemma {:induction false} WithoutIdSpec(items: seq<Item>, id: nat)
    ensures forall item :: item in WithoutId(items, id) <==> item in items && item.id != id
    ensures DistinctIds(items) ==> DistinctIds(WithoutId(items, id))
  {
    if items != [] {
      var init, last := items[..|items| - 1], items[|items| - 1];
      assert items == init + [last];
      WithoutIdSpec(init, id);
      assert DistinctIds(items) ==> DistinctIds(init) && forall item :: item in init ==> item.id != last.id;
    }
  }

  lemma DistinctAround(x: seq<Item>, item: Item, y: seq<Item>)
    requires DistinctIds(x + [item] + y)
    ensures forall other :: other in x || other in y ==> other.id != item.id
  {
    var all := x + [item] + y;
    assert all[|x|] == item;
    assert forall i :: 0 <= i < |x| ==> x[i] == all[i];
    assert forall i :: 0 <= i < |y| ==> y[i] == all[|x| + 1 + i];
  }

  lemma {:induction false} WithoutOther(items: seq<Item>, id: nat)
    requires forall item :: item in items ==> item.id != id
    ensures WithoutId(items, id) == items
  {
    if items != [] {
      var init, last := items[..|items| - 1], items[|items| - 1];
      assert items == init + [last];
      WithoutOther(init, id);
      assert last.id != id;
    }
  }

  lemma WithoutOne(x: seq<Item>, item: Item, y: seq<Item>)
    requires forall other :: other in x || other in y ==> other.id != item.id
    ensures WithoutId(x + [item] + y, item.id) == x + y
  {
    var id := item.id;
    WithoutIdConcat(x + [item], y, id);
    WithoutIdConcat(x, [item], id);
    WithoutOther(x, id);
    WithoutOther(y, id);
    assert [item][..0] == [];
    assert x + [] == x;
  }

  lemma {:induction false} StayingMembers(items: seq<Item>, eligible: seq<string>)
    ensures forall item :: item in Staying(items, eligible) <==> item in items && Stays(item, eligible)
  {
    if items != [] {
      StayingMembers(items[..|items| - 1], eligible);
      assert items == items[..|items| - 1] + [items[|items| - 1]];
    }
  }

  lemma {:induction false} MissingMembers(eligible: seq<string>, onBoard: set<string>)
    ensures forall e :: e in Missing(eligible, onBoard) <==> e in eligible && e !in onBoard
  {
    if eligible != [] {
      MissingMembers(eligible[..|eligible| - 1], onBoard);
      assert eligible == eligible[..|eligible| - 1] + [eligible[|eligible| - 1]];
    }
  }

  /** The issues on a synced board are exactly the eligible ones; drafts and pull requests stay. */
  lemma SyncIsExact(items: seq<Item>, next: nat, eligible: seq<string>)
    ensures forall e :: e in IssuesOn(Synced(items, next, eligible)) <==> e in eligible
    ensures forall item :: item in items && item.issue.None? ==> item in Synced(items, next, eligible)
  {
    var missing := Missing(eligible, IssuesOn(items));
    var added := Entries(missing, next);
    StayingMembers(items, eligible);
    MissingMembers(eligible, IssuesOn(items));
    forall e | e in eligible ensures e in IssuesOn(Synced(items, next, eligible)) {
      if e in missing {
        var i: int :| 0 <= i < |missing| && missing[i] == e;
        assert added[i] == Item(next + i, Some(e));
        assert added[i] in Synced(items, next, eligible);
      } else {
        var item: Item :| item in items && item.issue == Some(e);
        assert item in Staying(items, eligible);
      }
    }
  }

  lemma {:induction false} AllStay(items: seq<Item>, eligible: seq<string>)
    requires forall item :: item in items ==> Stays(item, eligible)
    ensures Staying(items, eligible) == items
  {
    if items != [] {
      var init, last := items[..|items| - 1], items[|items| - 1];
      assert items == init + [last];
      AllStay(init, eligible);
      assert Stays(last, eligible);
    }
  }

  /** Syncing a synced board with the same issues changes nothing. */
  lemma SyncIsIdempotent(items: seq<Item>, next: nat, eligible: seq<string>, next': nat)
    ensures Synced(Synced(items, next, eligible), next', eligible) == Synced(items, next, eligible)
  {
    var synced := Synced(items, next, eligible);
    SyncIsExact(items, next, eligible);
    forall item | item in synced ensures Stays(item, eligible) {
      if item.issue.Some? {
        assert item.issue.value in IssuesOn(synced);
      }
    }
    AllStay(synced, eligible);
    NoneMissing(eligible, IssuesOn(synced));
  }

  lemma {:induction false} NoneMissing(eligible: seq<string>, onBoard: set<string>)
    requires forall e :: e in eligible ==> e in onBoard
    ensures Missing(eligible, onBoard) == []
  {
    if eligible != [] {
      NoneMissing(eligible[..|eligible| - 1], onBoard);
    }
  }

  /** One turn of the loop that removes: the entry after `before` goes, or joins it. */
  lemma RemovalStep(current: seq<Item>, k: nat, eligible: seq<string>, added: seq<Item>, items: seq<Item>)
    requires k < |current| && items == Staying(current[..k], eligible) + (current[k..] + added) && DistinctIds(items)
    ensures var after := Staying(current[..k + 1], eligible) + (current[k + 1..] + added);
            if Stays(current[k], eligible) then items == after else WithoutId(items, current[k].id) == after
  {
    assert current[..k + 1][..k] == current[..k];
    OneStep(Staying(current[..k], eligible), current[k], current[k + 1..] + added, items, Stays(current[k], eligible)) by {
      assert current[k..] == [current[k]] + current[k + 1..];
    }
  }

  lemma OneStep(before: seq<Item>, item: Item, after: seq<Item>, items: seq<Item>, stays: bool)
    requires items == before + [item] + after && DistinctIds(items)
    ensures if stays then items == (before + [item]) + after else WithoutId(items, item.id) == (before + []) + after
  {
    DistinctAround(before, item, after);
    WithoutOne(before, item, after);
    assert before + [] == before;
  }

  // ----- the queue over the days

  /** An issue of the repository; `created` counts seconds of the wall clock from the start of day 0. */
  datatype Issue = Issue(id: string, created: int, open: bool)

  /** The ids the search returns on a day. */
  function Search(repo: seq<Issue>, today: int): seq<string> {
    if repo == [] then []
    else
      var last := repo[|repo| - 1];
      Search(repo[..|repo| - 1], today) + if last.open && InWindow(last.created, today) then [last.id] else []
  }

  lemma {:induction false} SearchMembers(repo: seq<Issue>, today: int)
    ensures forall id :: id in Search(repo, today) <==>
              exists issue :: issue in repo && issue.id == id && issue.open && InWindow(issue.created, today)
  {
    if repo != [] {
      SearchMembers(repo[..|repo| - 1], today);
      assert repo == repo[..|repo| - 1] + [repo[|repo| - 1]];
    }
  }

  /**
   On a board synced today, whatever it held before, an issue is there exactly when it is open and today lies between
   the day it first comes up and the Sunday of the same week.
   */
  lemma OnBoardIff(items: seq<Item>, next: nat, repo: seq<Issue>, today: int, issue: Issue)
    requires issue in repo && forall other :: other in repo && other.id == issue.id ==> other == issue
    ensures var day := issue.created / 86400;
            issue.id in IssuesOn(Synced(items, next, Search(repo, today))) <==>
              issue.open && DueWeek(day) + FirstWeekday(day) - 1 <= today <= DueWeek(day) + 6
  {
    SyncIsExact(items, next, Search(repo, today));
    SearchMembers(repo, today);
    InWindowIff(issue.created, today);
    DueIff(issue.created / DAY, today);
  }

  /** The project on the server. */
  class Board {
    var items: seq<Item>
    var next: nat

    ghost predicate Valid()
      reads this
    {
      DistinctIds(items) && IdsBelow(items, next)
    }

    constructor ()
      ensures Valid() && items == []
    {
      items, next := [], 0;
    }

    method Add(issue: string)
      requires Valid()
      modifies this
      ensures Valid() && items == old(items) + [Item(old(next), Some(issue))] && next == old(next) + 1
    {
      items := items + [Item(next, Some(issue))];
      next := next + 1;
    }

    method Remove(id: nat)
      requires Valid()
      modifies this
      ensures Valid() && items == WithoutId(old(items), id) && next == old(next)
    {
      WithoutIdSpec(items, id);
      items := WithoutId(items, id);
    }

    /** The first loop of sync_project: add what is eligible and not on the board yet. */
    method AddMissing(eligible: seq<string>, onBoard: set<string>, dryRun: bool)
      requires Valid()
      modifies this
      ensures Valid()
      ensures dryRun ==> items == old(items) && next == old(next)
      ensures !dryRun ==> items == old(items) + Entries(Missing(eligible, onBoard), old(next))
    {
      for k := 0 to |eligible|
        invariant Valid()
        invariant dryRun ==> items == old(items) && next == old(next)
        invariant !dryRun ==> items == old(items) + Entries(Missing(eligible[..k], onBoard), old(next))
        invariant !dryRun ==> next == old(next) + |Missing(eligible[..k], onBoard)|
      {
        assert eligible[..k + 1][..k] == eligible[..k];
        if eligible[k] !in onBoard && !dryRun {
          Add(eligible[k]);
        }
      }
      assert eligible[..|eligible|] == eligible;
    }

    /** The second loop of sync_project: remove the listed entries that are not eligible. */
    method RemoveOthers(current: seq<Item>, eligible: seq<string>, dryRun: bool, ghost added: seq<Item>)
      requires Valid() && (if dryRun then items == current else items == current + added)
      modifies this
      ensures Valid()
      ensures items == if dryRun then current else Staying(current, eligible) + added
    {
      for k := 0 to |current|
        invariant Valid()
        invariant dryRun ==> items == current
        invariant !dryRun ==> items == Staying(current[..k], eligible) + (current[k..] + added)
      {
        var item := current[k];
        if !dryRun {
          RemovalStep(current, k, eligible, added, items);
        }
        if item.issue.Some? && item.issue.value !in eligible && !dryRun {
          Remove(item.id);
        }
      }
      assert current[..|current|] == current;
    }

    /** sync_project, given what the search for eligible issues returned. */
    method SyncProject(eligible: seq<string>, dryRun: bool)
      requires Valid()
      modifies this
      ensures Valid()
      ensures items == if dryRun then old(items) else Synced(old(items), old(next), eligible)
    {
      var current := items;
      ghost var added := Entries(Missing(eligible, IssuesOn(current)), next);
      AddMissing(eligible, IssuesOn(current), dryRun);
      RemoveOthers(current, eligible, dryRun, added);
    }
  }

  /** A Saturday issue is not due on the Tuesday after, although Monday lies between. */
  lemma SaturdayWaits(saturday: int)
    requires Weekday(saturday) == 6
    ensures Elapsed(saturday, saturday + 3) && !Due(saturday, saturday + 3) && FirstDay(saturday + 3) <= saturday
  {
    InWeeks(saturday);
    InWeeks(saturday + 3);
    assert IsBusinessDay(saturday + 2);
  }
}
