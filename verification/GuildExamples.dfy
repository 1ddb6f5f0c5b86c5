/** Histories that show where the guarantees of the stale sweep end. */
module GuildExamples {
  import opened Basics
  import opened GuildBoard
  import opened GuildProtocol
  import opened GuildLiveness

  // ----- running a short history

  /** The items a history goes through. */
  predicate Through(h: History, items: seq<Item>) {
    && |items| == |h.events| + 1 && items[0] == h.first
    && forall k :: 0 <= k < |h.events| ==> items[k + 1] == Apply(items[k], h.guild, h.events[k])
  }

  lemma {:induction false} ThroughAt(h: History, items: seq<Item>, k: nat)
    requires Through(h, items) && k <= |h.events|
    ensures h.At(k) == items[k]
  {
    if k > 0 {
      ThroughAt(h, items, k - 1);
    }
  }

  lemma ThroughDecision(h: History, items: seq<Item>, k: nat, d: Decision)
    requires Through(h, items) && k < |h.events| && h.events[k].SweepAt? && Decide(items[k], h.guild, h.events[k].now) == d
    ensures h.Decision(k) == d
  {
    ThroughAt(h, items, k);
  }

  /** An issue in progress with nothing that keeps the sweep away. */
  function Working(assignees: seq<Login>, assignments: seq<(Time, Login)>, comments: seq<Comment>): Item {
    Item(false, true, Some(IN_PROGRESS), None, [], false, assignees, comments, assignments)
  }

  lemma GetsAssigned(guild: set<Login>, at: Time, who: Login, others: seq<Login>, before: seq<(Time, Login)>, cs: seq<Comment>)
    requires who !in others
    ensures Apply(Working(others, before, cs), guild, Assign(at, who)) == Working(others + [who], before + [(at, who)], cs)
  {
  }

  lemma GetsRemark(guild: set<Login>, at: Time, who: Login, ws: seq<Login>, rs: seq<(Time, Login)>, cs: seq<Comment>)
    ensures Apply(Working(ws, rs, cs), guild, Remark(at, who)) == Working(ws, rs, cs + [Comment(at, who, false)])
  {
  }

  lemma GetsNudged(guild: set<Login>, t: Time, who: Login, ws: seq<Login>, rs: seq<(Time, Login)>, cs: seq<Comment>)
    requires Decide(Working(ws, rs, cs), guild, t) == CheckIn(who)
    ensures Apply(Working(ws, rs, cs), guild, SweepAt(t, t)) == Working(ws, rs, cs + [Comment(t, BOT, true)])
  {
  }

  lemma Leaves(guild: set<Login>, at: Time, a: Login, b: Login, rs: seq<(Time, Login)>, cs: seq<Comment>)
    requires a != b
    ensures Apply(Working([a, b], rs, cs), guild, Unassign(at, a)) == Working([b], rs, cs)
  {
    FilterTwo(a, b, {a}, false);
  }

  lemma FilterNext(xs: seq<Login>, x: Login, guild: set<Login>, keep: bool)
    ensures Filter(xs + [x], guild, keep) == Filter(xs, guild, keep) + if (x in guild) == keep then [x] else []
  {
    assert (xs + [x])[..|xs|] == xs;
  }

  lemma FilterTwo(a: Login, b: Login, guild: set<Login>, keep: bool)
    ensures Filter([a], guild, keep) == if (a in guild) == keep then [a] else []
    ensures Filter([a, b], guild, keep) == Filter([a], guild, keep) + if (b in guild) == keep then [b] else []
  {
    FilterNext([], a, guild, keep);
    FilterNext([a], b, guild, keep);
    assert [] + [a] == [a] && [a] + [b] == [a, b];
  }

  lemma AssignmentNext(rs: seq<(Time, Login)>, r: (Time, Login), who: Login)
    ensures LatestAssignment(rs + [r], who)
         == var before := LatestAssignment(rs, who);
            if r.1 == who && (before.None? || r.0 > before.value) then Some(r.0) else before
  {
    assert (rs + [r])[..|rs|] == rs;
  }

  lemma AssignmentTwo(x: (Time, Login), y: (Time, Login))
    requires x.1 != y.1
    ensures LatestAssignment([x], x.1) == Some(x.0)
    ensures LatestAssignment([x, y], x.1) == Some(x.0) && LatestAssignment([x, y], y.1) == Some(y.0)
  {
    assert [] + [x] == [x] && [x] + [y] == [x, y];
    AssignmentNext([], x, x.1);
    AssignmentNext([], x, y.1);
    AssignmentNext([x], y, x.1);
    AssignmentNext([x], y, y.1);
  }

  lemma CommentNext(cs: seq<Comment>, c: Comment, who: Login, since: Time)
    ensures LatestRemark(cs + [c], who, since)
         == var before := LatestRemark(cs, who, since); if !c.marker && c.author == who && c.at > before then c.at else before
    ensures LatestCheckIn(cs + [c])
         == var before := LatestCheckIn(cs); if c.marker && (before.None? || c.at > before.value) then Some(c.at) else before
  {
    assert (cs + [c])[..|cs|] == cs;
  }

  lemma CommentPair(x: Comment, y: Comment, who: Login, since: Time)
    ensures LatestRemark([x], who, since) == if !x.marker && x.author == who && x.at > since then x.at else since
    ensures LatestCheckIn([x]) == if x.marker then Some(x.at) else None
    ensures LatestRemark([x, y], who, since)
         == var before := LatestRemark([x], who, since); if !y.marker && y.author == who && y.at > before then y.at else before
    ensures LatestCheckIn([x, y])
         == var before := LatestCheckIn([x]); if y.marker && (before.None? || y.at > before.value) then Some(y.at) else before
  {
    assert [] + [x] == [x] && [x] + [y] == [x, y];
    CommentNext([], x, who, since);
    CommentNext([x], y, who, since);
  }

  /** The decision about a working item, from its lists. */
  lemma DecideFor(guild: set<Login>, who: Login, ws: seq<Login>, rs: seq<(Time, Login)>, cs: seq<Comment>, since: Time, now: Time)
    requires Filter(ws, guild, true) != [] && Filter(ws, guild, true)[0] == who && LatestAssignment(rs, who) == Some(since)
    ensures var active, nudge := LatestRemark(cs, who, since), LatestCheckIn(cs);
            Decide(Working(ws, rs, cs), guild, now) ==
              if nudge.None? || nudge.value < active then
                if now < active + CHECK_IN_AFTER then Skip else CheckIn(who)
              else
                if now < nudge.value + CLEAR_AFTER then Skip else Clear(who)
  {
    var item := Working(ws, rs, cs);
    assert SweptFirst(item, guild, who) && RecordedActivity(item, who) == Some(LatestRemark(cs, who, since));
    DecisionFromRecords(item, guild, now, who, LatestRemark(cs, who, since));
  }

  /** The history that goes on with one more event. */
  function Then(h: History, e: Event): History {
    h.(events := h.events + [e])
  }

  predicate Later(h: History, e: Event) {
    Start(e) <= End(e) && (h.events != [] ==> End(h.events[|h.events| - 1]) < Start(e))
  }

  lemma ThenIsValid(h: History, e: Event)
    requires h.Valid() && Later(h, e)
    ensures Then(h, e).Valid()
  {
    var n := |h.events|;
    forall i | 0 <= i < n ensures End(h.events[i]) < Start(e) {
      assert i < n - 1 ==> End(h.events[i]) < Start(h.events[n - 1]);
    }
  }

  lemma ThenThrough(h: History, items: seq<Item>, e: Event, next: Item)
    requires Through(h, items) && next == Apply(items[|items| - 1], h.guild, e)
    ensures Through(Then(h, e), items + [next])
  {
  }

  // ----- the bound of 21 days is reached

  /** Assigned at second 1 and swept 14 days later. */
  function Alone(a: Login): History {
    History(Working([], [], []), {a}, [Assign(1, a), SweepAt(1 + 14 * DAY, 1 + 14 * DAY)])
  }

  function Lone(a: Login): History {
    Then(Alone(a), SweepAt(1 + 21 * DAY, 1 + 21 * DAY))
  }

  /** Nobody but `a` is ever assigned. */
  lemma {:induction false} LoneAssignee(h: History, a: Login, k: nat)
    requires Fresh(h.first) && (forall x :: 0 <= x < |h.events| && h.events[x].Assign? ==> h.events[x].who == a) && k <= |h.events|
    ensures forall x :: x in h.At(k).assignees ==> x == a
  {
    if k > 0 {
      LoneAssignee(h, a, k - 1);
      forall x | x in h.At(k).assignees ensures x == a {
        if !(h.events[k - 1].Assign? && h.events[k - 1].who == x) {
          AssigneeBefore(h.At(k - 1), h.guild, h.events[k - 1], x);
        }
      }
    }
  }

  lemma LoneIsOne(h: History, a: Login)
    requires h == Lone(a)
    ensures h.OneGuildAssignee()
  {
    forall k | 0 <= k <= |h.events| ensures forall x :: x in h.At(k).assignees ==> x == a {
      LoneAssignee(h, a, k);
    }
  }

  lemma LoneDecisions(a: Login, guild: set<Login>, rs: seq<(Time, Login)>, nudge: Comment)
    requires a in guild && rs == [(1, a)] && nudge == Comment(1 + 14 * DAY, BOT, true)
    ensures Decide(Working([a], rs, []), guild, 1 + 14 * DAY) == CheckIn(a)
    ensures Decide(Working([a], rs, [nudge]), guild, 1 + 21 * DAY) == Clear(a)
  {
    FilterTwo(a, a, guild, true);
    AssignmentNext([], (1, a), a);
    assert [] + [(1, a)] == rs;
    CommentPair(nudge, nudge, a, 1);
    DecideFor(guild, a, [a], rs, [], 1, 1 + 14 * DAY);
    DecideFor(guild, a, [a], rs, [nudge], 1, 1 + 21 * DAY);
  }

  lemma AloneRuns(h: History, a: Login, rs: seq<(Time, Login)>, nudge: Comment) returns (items: seq<Item>)
    requires h == Alone(a) && rs == [(1, a)] && nudge == Comment(1 + 14 * DAY, BOT, true)
    requires Decide(Working([a], rs, []), h.guild, 1 + 14 * DAY) == CheckIn(a)
    ensures h.Valid() && Through(h, items) && items[2] == Working([a], rs, [nudge])
  {
    hide Decide, Sweep, Apply;
    GetsAssigned(h.guild, 1, a, [], [], []);
    GetsNudged(h.guild, 1 + 14 * DAY, a, [a], rs, []);
    assert [] + [a] == [a] && [] + [(1, a)] == rs && [] + [nudge] == [nudge];
    items := [h.first, Working([a], rs, []), Working([a], rs, [nudge])];
  }

  /** Everybody can be cleared exactly 21 days after their assignment, in a history the guarantee is about. */
  lemma TwentyOneDaysIsTight(a: Login) returns (h: History, start: nat, k: nat)
    ensures h.Valid() && h.OneGuildAssignee()
    ensures start < k < |h.events| && h.Decision(k) == Clear(a) && h.Active(start, a)
    ensures h.events[k].now == Moment(h, start) + 21 * DAY
  {
    h, start, k := Lone(a), 0, 2;
    var alone, nudge, last := Alone(a), Comment(1 + 14 * DAY, BOT, true), SweepAt(1 + 21 * DAY, 1 + 21 * DAY);
    LoneDecisions(a, h.guild, [(1, a)], nudge);
    var items := AloneRuns(alone, a, [(1, a)], nudge);
    LoneIsOne(h, a);
    ThenIsValid(alone, last);
    var end := Apply(items[2], h.guild, last);
    ThenThrough(alone, items, last, end);
    ThroughDecision(h, items + [end], k, Clear(a));
  }

  // ----- two guild assignees

  /** Both join, and `a` is nudged on day 15. */
  function Nudged(a: Login, b: Login, t: Time): History {
    History(Working([], [], []), {a, b}, [Assign(1, a), Assign(t, b), SweepAt(15 * DAY, 15 * DAY)])
  }

  const LAST := SweepAt(22 * DAY, 22 * DAY)

  /** `b` joins on day 13; `a` is nudged on day 15 and leaves; `b` is alone on day 22. */
  function Shared(a: Login, b: Login): History {
    Then(Then(Nudged(a, b, 13 * DAY), Unassign(16 * DAY, a)), LAST)
  }

  /** Both join; `a` is nudged on day 15 and stays silent; `b` comments on day 21; the sweep of day 22 looks at `a`. */
  function Together(a: Login, b: Login): History {
    Then(Then(Nudged(a, b, 2), Remark(21 * DAY, b)), LAST)
  }

  lemma BothAssigned(guild: set<Login>, a: Login, b: Login, t: Time)
    requires a != b
    ensures Apply(Working([], [], []), guild, Assign(1, a)) == Working([a], [(1, a)], [])
    ensures Apply(Working([a], [(1, a)], []), guild, Assign(t, b)) == Working([a, b], [(1, a), (t, b)], [])
  {
    GetsAssigned(guild, 1, a, [], [], []);
    GetsAssigned(guild, t, b, [a], [(1, a)], []);
    assert [] + [a] == [a] && [a] + [b] == [a, b] && [] + [(1, a)] == [(1, a)] && [(1, a)] + [(t, b)] == [(1, a), (t, b)];
  }

  /** On day 15 the sweep nudges `a`, whenever `b` joined. */
  lemma NudgesFirst(guild: set<Login>, a: Login, b: Login, rs: seq<(Time, Login)>, t: Time, nudge: Comment)
    requires a != b && a in guild && b in guild && rs == [(1, a), (t, b)] && nudge == Comment(15 * DAY, BOT, true)
    ensures Decide(Working([a, b], rs, []), guild, 15 * DAY) == CheckIn(a)
    ensures Apply(Working([a, b], rs, []), guild, SweepAt(15 * DAY, 15 * DAY)) == Working([a, b], rs, [nudge])
  {
    FilterTwo(a, b, guild, true);
    AssignmentTwo((1, a), (t, b));
    DecideFor(guild, a, [a, b], rs, [], 1, 15 * DAY);
    GetsNudged(guild, 15 * DAY, a, [a, b], rs, []);
    assert [] + [nudge] == [nudge];
  }

  /** The only check-in before the last event goes to `a`. */
  lemma NeverNudged(h: History, k: nat, sweep: nat, a: Login, b: Login)
    requires a != b && sweep < k < |h.events| && h.Decision(sweep) == CheckIn(a)
    requires forall x :: 0 <= x < k && h.events[x].SweepAt? ==> x == sweep
    ensures !NudgedSince(h, k, b)
  {
  }

  /** A history with one sweep before `k`, which nudges `a`: whoever is cleared at `k`, `b` was never nudged. */
  lemma OneNudgeThenClear(h: History, items: seq<Item>, sweep: nat, k: nat, a: Login, b: Login, who: Login)
    requires a != b && Through(h, items) && sweep < k < |h.events| && h.events[sweep].SweepAt? && h.events[k].SweepAt?
    requires forall x :: 0 <= x < k && h.events[x].SweepAt? ==> x == sweep
    requires Decide(items[sweep], h.guild, h.events[sweep].now) == CheckIn(a)
    requires Decide(items[k], h.guild, h.events[k].now) == Clear(who)
    ensures h.Decision(k) == Clear(who) && !NudgedSince(h, k, b) && h.At(k) == items[k]
  {
    ThroughDecision(h, items, sweep, CheckIn(a));
    ThroughDecision(h, items, k, Clear(who));
    ThroughAt(h, items, k);
    NeverNudged(h, k, sweep, a, b);
  }

  lemma NudgedRuns(h: History, a: Login, b: Login, t: Time, rs: seq<(Time, Login)>, nudge: Comment) returns (items: seq<Item>)
    requires a != b && 1 < t < 15 * DAY && h == Nudged(a, b, t) && rs == [(1, a), (t, b)] && nudge == Comment(15 * DAY, BOT, true)
    ensures h.Valid() && Through(h, items)
    ensures items[2] == Working([a, b], rs, []) && items[3] == Working([a, b], rs, [nudge])
  {
    hide Decide, Sweep, Apply;
    BothAssigned(h.guild, a, b, t);
    NudgesFirst(h.guild, a, b, rs, t, nudge);
    items := [h.first, Working([a], [(1, a)], []), Working([a, b], rs, []), Working([a, b], rs, [nudge])];
  }

  /** The history goes on with one event that leaves the item `next`, and the last sweep, which clears `who`. */
  lemma GoesOn(h: History, items: seq<Item>, e: Event, next: Item, a: Login, b: Login, who: Login, k: nat)
    requires a != b && h.Valid() && Through(h, items) && |h.events| == 3 && k == 4
    requires (forall x :: 0 <= x < 3 && h.events[x].SweepAt? ==> x == 2) && h.events[2].SweepAt? && !e.SweepAt?
    requires Decide(items[2], h.guild, h.events[2].now) == CheckIn(a)
    requires Later(h, e) && End(e) < 22 * DAY && next == Apply(items[3], h.guild, e) && Decide(next, h.guild, 22 * DAY) == Clear(who)
    ensures var all := Then(Then(h, e), LAST);
            && all.Valid() && |all.events| == 5 && all.Decision(k) == Clear(who) && all.At(k) == next && !NudgedSince(all, k, b)
  {
    var sweep := 2;
    var h1 := Then(h, e);
    var end := Apply(next, h.guild, LAST);
    ThenIsValid(h, e);
    ThenThrough(h, items, e, next);
    ThenIsValid(h1, LAST);
    ThenThrough(h1, items + [next], LAST, end);
    OneNudgeThenClear(Then(h1, LAST), items + [next] + [end], sweep, k, a, b, who);
  }

  lemma ClearsTheOther(guild: set<Login>, a: Login, b: Login, rs: seq<(Time, Login)>, nudge: Comment)
    requires a != b && b in guild && rs == [(1, a), (13 * DAY, b)] && nudge == Comment(15 * DAY, BOT, true)
    ensures Decide(Working([b], rs, [nudge]), guild, 22 * DAY) == Clear(b)
  {
    FilterTwo(b, b, guild, true);
    AssignmentTwo((1, a), (13 * DAY, b));
    CommentPair(nudge, nudge, b, 13 * DAY);
    DecideFor(guild, b, [b], rs, [nudge], 13 * DAY, 22 * DAY);
  }

  /**
   With two guild assignees clearing may be unfair to the one it names, whoever they are: `b` joined on day 13, `a` was
   nudged on day 15 and left, and `b` is cleared on day 22, nine days after joining and never nudged.
   */
  lemma SharedAssignmentIsUnsafe(a: Login, b: Login) returns (h: History, joined: nat, k: nat)
    requires a != b
    ensures h.Valid() && joined < k < |h.events| && h.Decision(k) == Clear(b) && !NudgedSince(h, k, b)
    ensures h.Active(joined, b) && h.events[k].now - Moment(h, joined) == 9 * DAY
  {
    h, joined, k := Shared(a, b), 1, 4;
    var first, rs, nudge := Nudged(a, b, 13 * DAY), [(1, a), (13 * DAY, b)], Comment(15 * DAY, BOT, true);
    NudgesFirst(h.guild, a, b, rs, 13 * DAY, nudge);
    ClearsTheOther(h.guild, a, b, rs, nudge);
    var items := NudgedRuns(first, a, b, 13 * DAY, rs, nudge);
    Leaves(h.guild, 16 * DAY, a, b, rs, [nudge]);
    GoesOn(first, items, Unassign(16 * DAY, a), Working([b], rs, [nudge]), a, b, b, k);
  }

  lemma ClearsTheFirst(guild: set<Login>, a: Login, b: Login, rs: seq<(Time, Login)>, nudge: Comment, late: Comment)
    requires a != b && a in guild && b in guild && rs == [(1, a), (2, b)]
    requires nudge == Comment(15 * DAY, BOT, true) && late == Comment(21 * DAY, b, false)
    ensures Decide(Working([a, b], rs, [nudge, late]), guild, 22 * DAY) == Clear(a)
  {
    FilterTwo(a, b, guild, true);
    AssignmentTwo((1, a), (2, b));
    CommentPair(nudge, late, a, 1);
    DecideFor(guild, a, [a, b], rs, [nudge, late], 1, 22 * DAY);
  }

  /**
   And unfair to the other one: `a` was nudged on day 15 and stayed silent, `b` commented on day 21, and the sweep of day
   22 clears `a` and takes `b` away with them, one day after the comment.
   */
  lemma CoAssigneeIsRemoved(a: Login, b: Login) returns (h: History, comment: nat, k: nat)
    requires a != b
    ensures h.Valid() && comment < k < |h.events| && h.Decision(k) == Clear(a) && !NudgedSince(h, k, b)
    ensures b in h.At(k).assignees && b !in h.At(k + 1).assignees
    ensures h.Active(comment, b) && h.events[k].now - Moment(h, comment) == DAY
  {
    h, comment, k := Together(a, b), 3, 4;
    var first, rs := Nudged(a, b, 2), [(1, a), (2, b)];
    var nudge, late := Comment(15 * DAY, BOT, true), Comment(21 * DAY, b, false);
    NudgesFirst(h.guild, a, b, rs, 2, nudge);
    ClearsTheFirst(h.guild, a, b, rs, nudge, late);
    var items := NudgedRuns(first, a, b, 2, rs, nudge);
    GetsRemark(h.guild, 21 * DAY, b, [a, b], rs, [nudge]);
    assert [nudge] + [late] == [nudge, late];
    GoesOn(first, items, Remark(21 * DAY, b), Working([a, b], rs, [nudge, late]), a, b, a, k);
    ClearingRemovesAll(h, k);
  }
}
