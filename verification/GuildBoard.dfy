/** The stale sweep of the Guild board: one pass over the board items that nudges or clears quiet assignees. */
module GuildBoard {
  import opened Basics

  type Login = string
  /** Seconds. */
  type Time = int

  /** An issue comment; `marker` tells whether its body contains the check-in marker. */
  datatype Comment = Comment(at: Time, author: Login, marker: bool)

  /** A board item together with the comments and assignment events of its issue. */
  datatype Item = Item(
    archived: bool,
    isIssue: bool,
    status: Option<string>,
    issueType: Option<string>,
    labels: seq<string>,
    hasClosingPr: bool,
    assignees: seq<Login>,
    comments: seq<Comment>,
    assignments: seq<(Time, Login)>)

  const IN_PROGRESS := "In Progress"
  const BUG_BASHERS := "Bug Bashers"
  const SHIP_FEATURE := "Ship a New Feature"
  const HOLD_LABEL := "guild hold"
  const BOT: Login := "github-actions[bot]"
  const DAY: Time := 86400
  const CHECK_IN_AFTER_DAYS := 14
  const AUTO_CLEAR_AFTER_DAYS := 7

  /** `timedelta.days`: whole days, rounded down. */
  function Days(delta: Time): int {
    delta / DAY
  }

  function ColumnFor(issueType: Option<string>): Option<string> {
    if issueType == Some("Feature") then Some(SHIP_FEATURE)
    else if issueType in {Some("Bug"), Some("Docs"), Some("Crash")} then Some(BUG_BASHERS)
    else None
  }

  function Filter(logins: seq<Login>, guild: set<Login>, keep: bool): (r: seq<Login>)
    ensures forall a :: a in r <==> a in logins && (a in guild) == keep
  {
    if logins == [] then []
    else
      var last := logins[|logins| - 1];
      assert logins == logins[..|logins| - 1] + [last];
      Filter(logins[..|logins| - 1], guild, keep) + if (last in guild) == keep then [last] else []
  }

  function GuildAssignees(item: Item, guild: set<Login>): seq<Login> {
    Filter(item.assignees, guild, true)
  }

  /** The sweep looks at the item at all. */
  predicate Swept(item: Item, guild: set<Login>) {
    && !item.archived && item.isIssue && item.status == Some(IN_PROGRESS)
    && GuildAssignees(item, guild) != []
    && HOLD_LABEL !in item.labels && !item.hasClosingPr
  }

  /** The latest assignment of `who`, if any. */
  function LatestAssignment(assignments: seq<(Time, Login)>, who: Login): Option<Time> {
    if assignments == [] then None
    else
      var init := LatestAssignment(assignments[..|assignments| - 1], who);
      var last := assignments[|assignments| - 1];
      if last.1 == who && (init.None? || last.0 > init.value) then Some(last.0) else init
  }

  /** The latest of `since` and the times of `who`'s comments without the marker. */
  function LatestRemark(comments: seq<Comment>, who: Login, since: Time): Time {
    if comments == [] then since
    else
      var init := LatestRemark(comments[..|comments| - 1], who, since);
      var last := comments[|comments| - 1];
      if !last.marker && last.author == who && last.at > init then last.at else init
  }

  /** The latest comment with the marker. */
  function LatestCheckIn(comments: seq<Comment>): Option<Time> {
    if comments == [] then None
    else
      var init := LatestCheckIn(comments[..|comments| - 1]);
      var last := comments[|comments| - 1];
      if last.marker && (init.None? || last.at > init.value) then Some(last.at) else init
  }

  datatype Decision =
    | Skip
    | CheckIn(assignee: Login)
    | Clear(assignee: Login)
    | NoAssignmentEvent

  /** What the sweep does with one item; `now` is the time the sweep started. */
  function Decide(item: Item, guild: set<Login>, now: Time): Decision {
    if !Swept(item, guild) then Skip
    else
      var assignee := GuildAssignees(item, guild)[0];
      match LatestAssignment(item.assignments, assignee)
      case None => NoAssignmentEvent
      case Some(assignedAt) =>
        var lastActivity := LatestRemark(item.comments, assignee, assignedAt);
        var checkInAt := LatestCheckIn(item.comments);
        if checkInAt.None? || checkInAt.value < lastActivity then
          if Days(now - lastActivity) < CHECK_IN_AFTER_DAYS then Skip else CheckIn(assignee)
        else
          if Days(now - checkInAt.value) < AUTO_CLEAR_AFTER_DAYS then Skip else Clear(assignee)
  }

  /** The item afterwards; a check-in comment is stamped `posted`. */
  function Sweep(item: Item, guild: set<Login>, now: Time, posted: Time): Item {
    match Decide(item, guild, now)
    case Skip => item
    case NoAssignmentEvent => item
    case CheckIn(_) => item.(comments := item.comments + [Comment(posted, BOT, true)])
    case Clear(_) =>
      var column := ColumnFor(item.issueType);
      item.(assignees := Filter(item.assignees, guild, false),
            status := if column.Some? then column else item.status)
  }

  // ----- which items are touched, and how

  /** The item is archived, no issue, not in progress, on hold, has a closing pull request or no guild assignee. */
  predicate OutOfReach(item: Item, guild: set<Login>) {
    || item.archived || !item.isIssue || item.status != Some("In Progress")
    || "guild hold" in item.labels || item.hasClosingPr
    || forall a :: a in item.assignees ==> a !in guild
  }

  lemma ReachIff(item: Item, guild: set<Login>)
    ensures Swept(item, guild) <==> !OutOfReach(item, guild)
  {
    assert forall a :: a in GuildAssignees(item, guild) <==> a in item.assignees && a in guild;
    if GuildAssignees(item, guild) != [] {
      assert GuildAssignees(item, guild)[0] in GuildAssignees(item, guild);
    }
  }

  /** Such an item is left alone. */
  lemma OutOfReachIsSkipped(item: Item, guild: set<Login>, now: Time, posted: Time)
    requires OutOfReach(item, guild)
    ensures Decide(item, guild, now) == Skip && Sweep(item, guild, now, posted) == item
  {
    ReachIff(item, guild);
  }

  /** The first of the assignees who is in the guild. */
  predicate FirstInGuild(logins: seq<Login>, guild: set<Login>, i: int) {
    0 <= i < |logins| && logins[i] in guild && forall j :: 0 <= j < i ==> logins[j] !in guild
  }

  lemma {:induction false} FilterFirst(logins: seq<Login>, guild: set<Login>, i: int)
    requires FirstInGuild(logins, guild, i)
    ensures Filter(logins, guild, true) != [] && Filter(logins, guild, true)[0] == logins[i]
  {
    var n := |logins| - 1;
    if i < n {
      FilterFirst(logins[..n], guild, i);
    } else {
      NoneKept(logins[..n], guild);
    }
  }

  lemma {:induction false} NoneKept(logins: seq<Login>, guild: set<Login>)
    requires forall j :: 0 <= j < |logins| ==> logins[j] !in guild
    ensures Filter(logins, guild, true) == []
  {
    if logins != [] {
      NoneKept(logins[..|logins| - 1], guild);
    }
  }

  lemma {:induction false} LatestAssignmentIs(rs: seq<(Time, Login)>, who: Login)
    ensures match LatestAssignment(rs, who)
            case None => forall r :: r in rs ==> r.1 != who
            case Some(t) => (t, who) in rs && forall r :: r in rs && r.1 == who ==> r.0 <= t
  {
    if rs != [] {
      LatestAssignmentIs(rs[..|rs| - 1], who);
      assert rs == rs[..|rs| - 1] + [rs[|rs| - 1]];
    }
  }

  lemma {:induction false} LatestRemarkIs(cs: seq<Comment>, who: Login, since: Time)
    ensures var t := LatestRemark(cs, who, since);
            && t >= since && (forall c :: c in cs && !c.marker && c.author == who ==> c.at <= t)
            && (t == since || exists c :: c in cs && !c.marker && c.author == who && c.at == t)
  {
    if cs != [] {
      LatestRemarkIs(cs[..|cs| - 1], who, since);
      assert cs == cs[..|cs| - 1] + [cs[|cs| - 1]];
    }
  }

  lemma {:induction false} LatestCheckInIs(cs: seq<Comment>)
    ensures match LatestCheckIn(cs)
            case None => forall c :: c in cs ==> !c.marker
            case Some(t) => (exists c :: c in cs && c.marker && c.at == t) && forall c :: c in cs && c.marker ==> c.at <= t
  {
    if cs != [] {
      LatestCheckInIs(cs[..|cs| - 1]);
      assert cs == cs[..|cs| - 1] + [cs[|cs| - 1]];
    }
  }

  /** Nothing that `who` did is later than `t`: no assignment and no comment without the marker. */
  predicate QuietSince(item: Item, who: Login, t: Time) {
    && (forall r :: r in item.assignments && r.1 == who ==> r.0 <= t)
    && (forall c :: c in item.comments && c.author == who && !c.marker ==> c.at <= t)
  }

  /** A check-in comment is no older than anything that `who` did. */
  predicate NudgeStands(item: Item, who: Login) {
    exists c :: c in item.comments && c.marker && QuietSince(item, who, c.at)
  }

  /** No check-in comment is later than `t`. */
  predicate NoNudgeAfter(item: Item, t: Time) {
    forall c :: c in item.comments && c.marker ==> c.at <= t
  }

  lemma QuietIff(item: Item, who: Login, t: Time)
    requires exists r :: r in item.assignments && r.1 == who
    ensures LatestAssignment(item.assignments, who).Some?
    ensures QuietSince(item, who, t) <==>
              LatestRemark(item.comments, who, LatestAssignment(item.assignments, who).value) <= t
  {
    LatestAssignmentIs(item.assignments, who);
    LatestRemarkIs(item.comments, who, LatestAssignment(item.assignments, who).value);
  }

  lemma NudgeIff(item: Item, who: Login)
    requires exists r :: r in item.assignments && r.1 == who
    ensures LatestAssignment(item.assignments, who).Some?
    ensures var nudge := LatestCheckIn(item.comments);
            && (NudgeStands(item, who) <==>
                && nudge.Some?
                && nudge.value >= LatestRemark(item.comments, who, LatestAssignment(item.assignments, who).value))
            && (nudge.Some? ==> forall t :: NoNudgeAfter(item, t) <==> nudge.value <= t)
  {
    LatestCheckInIs(item.comments);
    QuietIff(item, who, 0);
    forall c | c in item.comments ensures QuietSince(item, who, c.at) <==>
              LatestRemark(item.comments, who, LatestAssignment(item.assignments, who).value) <= c.at {
      QuietIff(item, who, c.at);
    }
  }

  /**
   The decision about an item within reach, in terms of its thread: cleared if and only if a check-in comment stands and
   all of them are 7 days old; nudged if and only if none stands and the first guild assignee was quiet for 14 days.
   */
  lemma DecisionIff(item: Item, guild: set<Login>, now: Time, i: int)
    requires !OutOfReach(item, guild) && FirstInGuild(item.assignees, guild, i)
    requires exists r :: r in item.assignments && r.1 == item.assignees[i]
    ensures var who, decision := item.assignees[i], Decide(item, guild, now);
            && (decision == Clear(who) <==> NudgeStands(item, who) && NoNudgeAfter(item, now - 7 * 86400))
            && (decision == CheckIn(who) <==> !NudgeStands(item, who) && QuietSince(item, who, now - 14 * 86400))
            && (decision == Skip || decision == CheckIn(who) || decision == Clear(who))
  {
    hide QuietSince, NudgeStands, NoNudgeAfter;
    ReachIff(item, guild);
    FilterFirst(item.assignees, guild, i);
    QuietIff(item, item.assignees[i], now - 14 * 86400);
    NudgeIff(item, item.assignees[i]);
  }

  /** Without an assignment event of the first guild assignee the sweep stops. */
  lemma StopsIff(item: Item, guild: set<Login>, now: Time, i: int)
    requires !OutOfReach(item, guild) && FirstInGuild(item.assignees, guild, i)
    ensures Decide(item, guild, now) == NoAssignmentEvent <==> forall r :: r in item.assignments ==> r.1 != item.assignees[i]
  {
    ReachIff(item, guild);
    FilterFirst(item.assignees, guild, i);
    LatestAssignmentIs(item.assignments, item.assignees[i]);
  }

  /** What a clearing changes: the guild assignees go, and the issue moves to the column of its type, if it has one. */
  lemma ClearedItem(item: Item, guild: set<Login>, now: Time, posted: Time)
    requires Decide(item, guild, now).Clear?
    ensures var after := Sweep(item, guild, now, posted);
            && (forall a :: a in after.assignees <==> a in item.assignees && a !in guild)
            && (item.issueType == Some("Feature") ==> after.status == Some("Ship a New Feature"))
            && (item.issueType in {Some("Bug"), Some("Docs"), Some("Crash")} ==> after.status == Some("Bug Bashers"))
            && (item.issueType !in {Some("Feature"), Some("Bug"), Some("Docs"), Some("Crash")} ==>
                  after.status == Some("In Progress"))
            && after == item.(assignees := after.assignees, status := after.status)
  {
  }

  /** What a check-in changes: one comment of the bot, with the marker. */
  lemma NudgedItem(item: Item, guild: set<Login>, now: Time, posted: Time)
    requires Decide(item, guild, now).CheckIn?
    ensures Sweep(item, guild, now, posted)
         == item.(comments := item.comments + [Comment(posted, "github-actions[bot]", true)])
  {
  }

  // ----- the sweep as written

  /** The one pass over the comments of an issue. */
  method ScanComments(comments: seq<Comment>, assignee: Login, assignedAt: Time)
    returns (lastActivity: Time, checkInAt: Option<Time>)
    ensures lastActivity == LatestRemark(comments, assignee, assignedAt)
    ensures checkInAt == LatestCheckIn(comments)
  {
    lastActivity, checkInAt := assignedAt, None;
    for k := 0 to |comments|
      invariant lastActivity == LatestRemark(comments[..k], assignee, assignedAt)
      invariant checkInAt == LatestCheckIn(comments[..k])
    {
      var comment := comments[k];
      assert comments[..k + 1][..k] == comments[..k];
      if comment.marker {
        if checkInAt.None? || comment.at > checkInAt.value {
          checkInAt := Some(comment.at);
        }
      } else if comment.author == assignee {
        if comment.at > lastActivity {
          lastActivity := comment.at;
        }
      }
    }
    assert comments[..|comments|] == comments;
  }

  /** The body of the sweep loop. */
  method SweepItem(item: Item, guild: set<Login>, now: Time, posted: Time) returns (decision: Decision, after: Item)
    ensures decision == Decide(item, guild, now)
    ensures after == Sweep(item, guild, now, posted)
  {
    if !Swept(item, guild) {
      return Skip, item;
    }
    var assignee := GuildAssignees(item, guild)[0];
    var assignedAt := LatestAssignment(item.assignments, assignee);
    if assignedAt.None? {
      return NoAssignmentEvent, item;
    }
    var lastActivity, checkInAt := ScanComments(item.comments, assignee, assignedAt.value);
    if checkInAt.None? || checkInAt.value < lastActivity {
      if Days(now - lastActivity) < CHECK_IN_AFTER_DAYS {
        return Skip, item;
      }
      return CheckIn(assignee), item.(comments := item.comments + [Comment(posted, BOT, true)]);
    }
    if Days(now - checkInAt.value) < AUTO_CLEAR_AFTER_DAYS {
      return Skip, item;
    }
    var column := ColumnFor(item.issueType);
    var status := if column.Some? then column else item.status;
    return Clear(assignee), item.(assignees := Filter(item.assignees, guild, false), status := status);
  }

  /** What a sweep decides about each item. */
  function Decisions(items: seq<Item>, guild: set<Login>, now: Time): (r: seq<Decision>)
    ensures |r| == |items|
  {
    if items == [] then [] else [Decide(items[0], guild, now)] + Decisions(items[1..], guild, now)
  }

  /** Each item after the sweep. */
  function SweptItems(items: seq<Item>, guild: set<Login>, now: Time, posted: Time): (r: seq<Item>)
    ensures |r| == |items|
  {
    if items == [] then [] else [Sweep(items[0], guild, now, posted)] + SweptItems(items[1..], guild, now, posted)
  }

  lemma {:induction false} SweptAt(items: seq<Item>, guild: set<Login>, now: Time, posted: Time, k: nat)
    requires k < |items|
    ensures Decisions(items, guild, now)[k] == Decide(items[k], guild, now)
    ensures SweptItems(items, guild, now, posted)[k] == Sweep(items[k], guild, now, posted)
  {
    if k > 0 {
      SweptAt(items[1..], guild, now, posted, k - 1);
    }
  }

  method SweepNth(items: seq<Item>, k: nat, guild: set<Login>, now: Time, posted: Time)
    returns (decision: Decision, after: Item)
    requires k < |items|
    ensures decision == Decisions(items, guild, now)[k] && after == SweptItems(items, guild, now, posted)[k]
  {
    SweptAt(items, guild, now, posted, k);
    decision, after := SweepItem(items[k], guild, now, posted);
  }

  /** How many of the decisions are check-ins, and how many clear an assignment. */
  function Count(decisions: seq<Decision>, clears: bool): nat {
    if decisions == [] then 0
    else
      var last := decisions[|decisions| - 1];
      Count(decisions[..|decisions| - 1], clears) + if (if clears then last.Clear? else last.CheckIn?) then 1 else 0
  }

  /** The first `done` items did not stop the sweep, and the two counters are theirs. */
  predicate Handled(all: seq<Decision>, done: nat, checkedIn: nat, cleared: nat) {
    && done <= |all| && (forall k :: 0 <= k < done ==> !all[k].NoAssignmentEvent?)
    && checkedIn == Count(all[..done], false) && cleared == Count(all[..done], true)
  }

  lemma HandledNext(all: seq<Decision>, k: nat, checkedIn: nat, cleared: nat)
    requires k < |all| && Handled(all, k, checkedIn, cleared) && !all[k].NoAssignmentEvent?
    ensures Handled(all, k + 1, checkedIn + if all[k].CheckIn? then 1 else 0, cleared + if all[k].Clear? then 1 else 0)
  {
    assert all[..k + 1][..k] == all[..k];
  }

  lemma OneMoreSwept(before: seq<Item>, swept: seq<Item>, k: nat)
    requires k < |before| == |swept|
    ensures (swept[..k] + before[k..])[k] == before[k]
    ensures (swept[..k] + before[k..])[k := swept[k]] == swept[..k + 1] + before[k + 1..]
  {
  }

  class Board {
    var items: seq<Item>

    constructor (items: seq<Item>)
      ensures this.items == items
    {
      this.items := items;
    }

    /**
     The whole sweep. Items are independent of each other; the only way to stop early is an assignee without an
     assignment event, and then everything before that item has been handled and nothing after it.
     */
    method RunStale(guild: set<Login>, now: Time, posted: Time)
      returns (done: nat, checkedIn: nat, cleared: nat)
      modifies this
      ensures done <= |items| == |old(items)|
      ensures var all := Decisions(old(items), guild, now);
              Handled(all, done, checkedIn, cleared) && (done < |items| ==> all[done].NoAssignmentEvent?)
      ensures items == SweptItems(old(items), guild, now, posted)[..done] + old(items)[done..]
    {
      hide Decide, Sweep;
      done, checkedIn, cleared := 0, 0, 0;
      var current := items;
      ghost var all, swept := Decisions(current, guild, now), SweptItems(current, guild, now, posted);
      while done < |items|
        invariant done <= |items| == |current| == |all|
        invariant Handled(all, done, checkedIn, cleared)
        invariant items == swept[..done] + current[done..]
      {
        var decision, after := SweepNth(current, done, guild, now, posted);
        if decision.NoAssignmentEvent? {
          return;
        }
        HandledNext(all, done, checkedIn, cleared);
        OneMoreSwept(current, swept, done);
        items := items[done := after];
        checkedIn := checkedIn + if decision.CheckIn? then 1 else 0;
        cleared := cleared + if decision.Clear? then 1 else 0;
        done := done + 1;
      }
    }
  }
}
