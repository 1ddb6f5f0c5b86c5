/** Silence is cleared in time: liveness of the stale sweep, over every history. */
module GuildLiveness {
  import opened Basics
  import opened GuildBoard
  import opened GuildProtocol

  // ----- the clock of a silent assignee, apart from boards and items

  predicate Timed(es: seq<Event>) {
    && (forall x :: 0 <= x < |es| ==> Start(es[x]) <= End(es[x]))
    && (forall x, y :: 0 <= x < y < |es| ==> End(es[x]) < Start(es[y]))
  }

  /** The last check-in after event `i` and before event `x`. */
  function NudgeAfter(ds: seq<Decision>, i: nat, x: nat): Option<nat>
    requires x <= |ds|
  {
    if x <= i + 1 then None
    else if ds[x - 1].CheckIn? then Some(x - 1)
    else NudgeAfter(ds, i, x - 1)
  }

  /** What a sweep decides about somebody silent since event `i`, in terms of the last check-in since. */
  function SilentRule(es: seq<Event>, ds: seq<Decision>, i: nat, x: nat, who: Login): Decision
    requires i < x < |es| == |ds|
  {
    match NudgeAfter(ds, i, x)
    case None => if Start(es[x]) < End(es[i]) + CHECK_IN_AFTER then Skip else CheckIn(who)
    case Some(n) =>
      if n < |es| && Start(es[x]) < End(es[n]) + CLEAR_AFTER then Skip else Clear(who)
  }

  /** Nothing is cleared between the two events. */
  predicate NotCleared(ds: seq<Decision>, i: nat, x: nat)
    requires x <= |ds|
  {
    forall y :: i < y < x ==> !ds[y].Clear?
  }

  /** Until `until`, and as long as nothing is cleared, the decisions follow the rule; check-ins appear within `lag`. */
  ghost predicate Obeys(es: seq<Event>, ds: seq<Decision>, i: nat, who: Login, until: Time, lag: Time)
    requires |es| == |ds|
  {
    forall x :: i < x < |es| && Start(es[x]) <= until && NotCleared(ds, i, x) ==>
      if es[x].SweepAt? then End(es[x]) <= Start(es[x]) + lag && ds[x] == SilentRule(es, ds, i, x, who) else ds[x] == Skip
  }

  lemma {:induction false} NudgeAfterSpec(ds: seq<Decision>, i: nat, x: nat)
    requires x <= |ds|
    ensures match NudgeAfter(ds, i, x)
            case None => forall y :: i < y < x ==> !ds[y].CheckIn?
            case Some(n) => i < n < x && ds[n].CheckIn? && forall y :: n < y < x ==> !ds[y].CheckIn?
  {
    if x > i + 1 {
      NudgeAfterSpec(ds, i, x - 1);
    }
  }

  lemma Ordered(es: seq<Event>, x: nat, y: nat)
    requires Timed(es) && x < |es| && y < |es|
    ensures End(es[x]) < Start(es[y]) <==> x < y
    ensures x <= y ==> Start(es[x]) <= Start(es[y]) && End(es[x]) <= End(es[y])
  {
  }

  lemma FirstClear(ds: seq<Decision>, i: nat, y: nat) returns (k: nat)
    requires i < y < |ds| && ds[y].Clear?
    ensures i < k <= y && ds[k].Clear? && NotCleared(ds, i, k)
  {
    k := i + 1;
    while !ds[k].Clear?
      invariant i < k <= y && NotCleared(ds, i, k)
      decreases y - k
    {
      k := k + 1;
    }
  }

  /** The first clearing in the silent time clears the silent one. */
  lemma ClearIsTheirs(es: seq<Event>, ds: seq<Decision>, i: nat, x: nat, who: Login, until: Time, lag: Time)
    requires |es| == |ds| && i < x < |es| && Start(es[x]) <= until && NotCleared(ds, i, x) && ds[x].Clear?
    requires Obeys(es, ds, i, who, until, lag)
    ensures ds[x] == Clear(who)
  {
    var rule := SilentRule(es, ds, i, x, who);
    assert rule == Skip || rule == CheckIn(who) || rule == Clear(who);
  }

  /** The first clearing after event `i`, given that there is one. */
  lemma FirstClearing(es: seq<Event>, ds: seq<Decision>, i: nat, y: nat, who: Login, until: Time, lag: Time) returns (k: nat)
    requires Timed(es) && |es| == |ds| && i < y < |es| && Start(es[y]) <= until
    requires Obeys(es, ds, i, who, until, lag) && ds[y].Clear?
    ensures i < k <= y && ds[k] == Clear(who) && Start(es[k]) <= Start(es[y])
  {
    k := FirstClear(ds, i, y);
    Ordered(es, k, y);
    ClearIsTheirs(es, ds, i, k, who, until, lag);
  }

  lemma NotClearedBefore(ds: seq<Decision>, i: nat, x: nat, y: nat)
    requires x <= y <= |ds| && NotCleared(ds, i, y)
    ensures NotCleared(ds, i, x)
  {
  }

  lemma NoSecondNudge(es: seq<Event>, ds: seq<Decision>, i: nat, n: nat, x: nat, who: Login, until: Time, lag: Time)
    requires |es| == |ds| && i < x < |es| && Start(es[x]) <= until && NotCleared(ds, i, x)
    requires Obeys(es, ds, i, who, until, lag) && NudgeAfter(ds, i, x) == Some(n)
    ensures !ds[x].CheckIn?
  {
    assert !SilentRule(es, ds, i, x, who).CheckIn?;
  }

  /** An outstanding check-in stays the last one until something is cleared. */
  lemma {:induction false} NudgeStays(es: seq<Event>, ds: seq<Decision>, i: nat, n: nat, x: nat, who: Login, until: Time, lag: Time)
    requires Timed(es) && |es| == |ds| && i < n < x <= |es|
    requires Obeys(es, ds, i, who, until, lag) && NotCleared(ds, i, x) && ds[n].CheckIn?
    requires Start(es[x - 1]) <= until
    ensures NudgeAfter(ds, i, x) == Some(n)
  {
    if n + 1 < x {
      var last := x - 1;
      Ordered(es, last - 1, last);
      NotClearedBefore(ds, i, last, x);
      NudgeStays(es, ds, i, n, last, who, until, lag);
      NoSecondNudge(es, ds, i, n, last, who, until, lag);
    }
  }

  /** A sweep at least 14 days after the last activity clears, or there is a check-in by then. */
  lemma NudgedInTime(es: seq<Event>, ds: seq<Decision>, i: nat, x: nat, who: Login, until: Time, lag: Time) returns (n: nat)
    requires Timed(es) && |es| == |ds| && i < x < |es| && es[x].SweepAt? && Start(es[x]) <= until
    requires Obeys(es, ds, i, who, until, lag) && NotCleared(ds, i, x + 1)
    requires End(es[i]) + CHECK_IN_AFTER <= Start(es[x])
    ensures i < n <= x && ds[n].CheckIn? && End(es[n]) <= Start(es[x]) + lag
  {
    assert NotCleared(ds, i, x);
    NudgeAfterSpec(ds, i, x);
    match NudgeAfter(ds, i, x)
    case None => n := x;
    case Some(m) =>
      n := m;
      Ordered(es, n, x);
      assert NotCleared(ds, i, n);
  }

  /** A sweep at least 7 days after the check-in clears, if nothing cleared before. */
  lemma ClearedAfterNudge(es: seq<Event>, ds: seq<Decision>, i: nat, n: nat, z: nat, who: Login, until: Time, lag: Time)
    requires Timed(es) && |es| == |ds| && i < n < z < |es| && es[z].SweepAt? && Start(es[z]) <= until
    requires Obeys(es, ds, i, who, until, lag) && NotCleared(ds, i, z) && ds[n].CheckIn?
    requires End(es[n]) + CLEAR_AFTER <= Start(es[z])
    ensures ds[z] == Clear(who)
  {
    Ordered(es, z - 1, z);
    NudgeStays(es, ds, i, n, z, who, until, lag);
  }

  ghost predicate SweepWithin(es: seq<Event>, t: Time, gap: Time) {
    exists x :: 0 <= x < |es| && es[x].SweepAt? && t <= Start(es[x]) <= t + gap
  }

  /** Sweeps come at most `gap` apart from `from` until `to`. */
  ghost predicate SweepsEvery(es: seq<Event>, from: Time, to: Time, gap: Time) {
    forall t :: from <= t <= to ==> SweepWithin(es, t, gap)
  }

  lemma SweepAfter(es: seq<Event>, n: nat, t: Time, from: Time, to: Time, gap: Time) returns (x: nat)
    requires Timed(es) && n < |es| && End(es[n]) < t && from <= t <= to && SweepsEvery(es, from, to, gap)
    ensures n < x < |es| && es[x].SweepAt? && t <= Start(es[x]) <= t + gap
  {
    assert SweepWithin(es, t, gap);
    x :| 0 <= x < |es| && es[x].SweepAt? && t <= Start(es[x]) <= t + gap;
    Ordered(es, x, n);
  }

  /** The clock runs out: cleared within 21 days, two gaps and the lag. */
  lemma ClockRunsOut(es: seq<Event>, ds: seq<Decision>, i: nat, who: Login, gap: Time, lag: Time) returns (k: nat)
    requires Timed(es) && |es| == |ds| && i < |es| && gap >= 0 && lag >= 0
    requires Obeys(es, ds, i, who, End(es[i]) + 21 * DAY + 2 * gap + lag, lag)
    requires SweepsEvery(es, End(es[i]), End(es[i]) + 21 * DAY + gap + lag, gap)
    ensures i < k < |es| && ds[k] == Clear(who) && Start(es[k]) <= End(es[i]) + 21 * DAY + 2 * gap + lag
  {
    var from := End(es[i]);
    var to, until := from + 21 * DAY + gap + lag, from + 21 * DAY + 2 * gap + lag;
    var x := SweepAfter(es, i, from + CHECK_IN_AFTER, from, to, gap);
    if y :| i < y <= x && ds[y].Clear? {
      Ordered(es, y, x);
      k := FirstClearing(es, ds, i, y, who, until, lag);
    } else {
      var n := NudgedInTime(es, ds, i, x, who, until, lag);
      Ordered(es, i, n);
      var z := SweepAfter(es, n, End(es[n]) + CLEAR_AFTER, from, to, gap);
      if y :| i < y < z && ds[y].Clear? {
        Ordered(es, y, z);
        k := FirstClearing(es, ds, i, y, who, until, lag);
      } else {
        ClearedAfterNudge(es, ds, i, n, z, who, until, lag);
        k := z;
      }
    }
  }

  // ----- histories follow the rule

  function Decisions(h: History): (ds: seq<Decision>)
    ensures |ds| == |h.events| && forall x :: 0 <= x < |ds| ==> ds[x] == h.Decision(x)
  {
    seq(|h.events|, x requires 0 <= x < |h.events| => h.Decision(x))
  }

  /** Event `x` finds the assignee silent, and if it is a sweep it looks at the item and at `who` first. */
  ghost predicate FoundSilent(h: History, x: nat, who: Login, lag: Time)
    requires x < |h.events|
  {
    && !h.Active(x, who)
    && (h.events[x].SweepAt? ==> h.events[x].posted <= h.events[x].now + lag && SweptFirst(h.At(x), h.guild, who))
  }

  predicate SweptFirst(item: Item, guild: set<Login>, who: Login) {
    Swept(item, guild) && GuildAssignees(item, guild)[0] == who
  }

  ghost predicate ClearedBetween(h: History, i: nat, x: nat)
    requires x <= |h.events|
  {
    exists y :: i < y < x && h.Decision(y).Clear?
  }

  /**
   From event `i` until `until`, and only as long as nothing is cleared: `who` neither comments nor is assigned again,
   and every sweep finds the item in progress, without a hold label or a pull request, with `who` as first guild
   assignee. Everything else may happen: comments and assignments of others, edits, and anything afterwards.
   */
  ghost predicate Silent(h: History, i: nat, who: Login, until: Time, lag: Time) {
    forall x :: i < x < |h.events| && Start(h.events[x]) <= until && !ClearedBetween(h, i, x) ==> FoundSilent(h, x, who, lag)
  }

  /** The decision about an item, from its records. */
  lemma DecisionFromRecords(item: Item, guild: set<Login>, now: Time, who: Login, active: Time)
    requires SweptFirst(item, guild, who) && RecordedActivity(item, who) == Some(active)
    ensures var nudge := LatestCheckIn(item.comments);
            Decide(item, guild, now) ==
              if nudge.None? || nudge.value < active then
                if now < active + CHECK_IN_AFTER then Skip else CheckIn(who)
              else
                if now < nudge.value + CLEAR_AFTER then Skip else Clear(who)
  {
  }

  lemma FirstIsRecorded(h: History, x: nat, who: Login)
    requires h.Valid() && x <= |h.events| && SweptFirst(h.At(x), h.guild, who)
    ensures RecordedActivity(h.At(x), who).Some?
  {
    assert who in GuildAssignees(h.At(x), h.guild);
    AssigneesAreRecorded(h, x, who);
  }

  /** `who` has been quiet since their activity at event `i`. */
  lemma {:induction false} StillLast(h: History, i: nat, x: nat, who: Login)
    requires i < x <= |h.events| && h.Active(i, who) && forall y :: i < y < x ==> !h.Active(y, who)
    ensures h.LastActive(x, who) == Some(i)
  {
    if i + 1 < x {
      StillLast(h, i, x - 1, who);
    }
  }

  /** The last check-in of the history, if it is later than event `i`, is the last check-in since. */
  lemma {:induction false} NudgeOfHistory(h: History, ds: seq<Decision>, i: nat, x: nat)
    requires i < x <= |h.events| == |ds| && ds == Decisions(h) && !h.Decision(i).CheckIn?
    ensures match NudgeAfter(ds, i, x)
            case Some(n) => h.LastNudge(x) == Some(n)
            case None => h.LastNudge(x).Some? ==> h.LastNudge(x).value < i
  {
    if i + 1 < x {
      NudgeOfHistory(h, ds, i, x - 1);
    } else {
      NudgeBefore(h, i);
    }
  }

  lemma NudgeBefore(h: History, i: nat)
    requires i < |h.events| && !h.Decision(i).CheckIn?
    ensures h.LastNudge(i + 1).Some? ==> h.LastNudge(i + 1).value < i
  {
    LastNudgeIsLast(h, i);
  }

  /** The decision of a sweep that finds `who` silent since event `i`, as the rule says. */
  lemma SilentDecision(h: History, ds: seq<Decision>, i: nat, x: nat, who: Login)
    requires h.Valid() && ds == Decisions(h) && i < x < |h.events| && h.Active(i, who)
    requires forall y :: i < y < x ==> !h.Active(y, who)
    requires h.events[x].SweepAt? && SweptFirst(h.At(x), h.guild, who)
    ensures ds[x] == SilentRule(h.events, ds, i, x, who)
  {
    var item, now := h.At(x), h.events[x].now;
    FirstIsRecorded(h, x, who);
    RecordsAreHistory(h, x, who);
    StillLast(h, i, x, who);
    DecisionFromRecords(item, h.guild, now, who, Moment(h, i));
    NudgeOfHistory(h, ds, i, x);
    NudgeAfterSpec(ds, i, x);
    if h.LastNudge(x).Some? {
      ClockOrders(h, h.LastNudge(x).value, i);
    }
  }

  /** In the silent time nobody is heard of before `x`, if nothing is cleared before `x`. */
  lemma QuietUntil(h: History, ds: seq<Decision>, i: nat, x: nat, who: Login, until: Time, lag: Time)
    requires h.Valid() && ds == Decisions(h) && i < x < |h.events| && Silent(h, i, who, until, lag)
    requires Start(h.events[x]) <= until && NotCleared(ds, i, x)
    ensures forall y :: i < y <= x ==> FoundSilent(h, y, who, lag)
  {
    forall y | i < y <= x ensures FoundSilent(h, y, who, lag) {
      ClockOrders(h, y, x);
      assert !ClearedBetween(h, i, y);
    }
  }

  lemma HistoryIsTimed(h: History)
    requires h.Valid()
    ensures Timed(h.events)
  {
  }

  lemma OnlySweepsClear(h: History, k: nat)
    requires k < |h.events| && h.Decision(k).Clear?
    ensures h.events[k].SweepAt?
  {
  }

  lemma HistoryObeys(h: History, ds: seq<Decision>, i: nat, who: Login, until: Time, lag: Time)
    requires h.Valid() && ds == Decisions(h) && i < |h.events| && h.Active(i, who) && Silent(h, i, who, until, lag)
    ensures Obeys(h.events, ds, i, who, until, lag)
  {
    forall x | i < x < |h.events| && Start(h.events[x]) <= until && NotCleared(ds, i, x)
      ensures if h.events[x].SweepAt?
              then End(h.events[x]) <= Start(h.events[x]) + lag && ds[x] == SilentRule(h.events, ds, i, x, who)
              else ds[x] == Skip
    {
      QuietUntil(h, ds, i, x, who, until, lag);
      assert FoundSilent(h, x, who, lag);
      if h.events[x].SweepAt? {
        assert forall y :: i < y < x ==> !h.Active(y, who) by {
          assert forall y :: i < y < x ==> FoundSilent(h, y, who, lag);
        }
        SilentDecision(h, ds, i, x, who);
      }
    }
  }

  /**
   Clearing is live: whoever stays silent, and is found first on an item in progress by every sweep, is cleared within 21
   days plus two sweep gaps (plus the time a check-in takes to appear).
   */
  lemma SilenceIsCleared(h: History, i: nat, who: Login, gap: Time, lag: Time) returns (k: nat)
    requires h.Valid() && i < |h.events| && h.Active(i, who) && gap >= 0 && lag >= 0
    requires Silent(h, i, who, Moment(h, i) + 21 * DAY + 2 * gap + lag, lag)
    requires SweepsEvery(h.events, Moment(h, i), Moment(h, i) + 21 * DAY + gap + lag, gap)
    ensures i < k < |h.events| && h.Decision(k) == Clear(who)
    ensures h.events[k].now <= Moment(h, i) + 21 * DAY + 2 * gap + lag
  {
    var ds, es := Decisions(h), h.events;
    HistoryIsTimed(h);
    HistoryObeys(h, ds, i, who, Moment(h, i) + 21 * DAY + 2 * gap + lag, lag);
    k := ClockRunsOut(es, ds, i, who, gap, lag);
    OnlySweepsClear(h, k);
  }
}
