/**
 Whole histories of one board item: sweeps interleaved with comments, (un)assignments and other edits.
 The sweep keeps no state of its own, so its guarantees are about every history the environment can produce.
 */
module GuildProtocol {
  import opened Basics
  import opened GuildBoard

  datatype Event =
    | SweepAt(now: Time, posted: Time)
    | Remark(at: Time, author: Login)
    | Assign(at: Time, who: Login)
    | Unassign(at: Time, who: Login)
    | Edit(at: Time, archived: bool, isIssue: bool, status: Option<string>, issueType: Option<string>,
           labels: seq<string>, hasClosingPr: bool)

  function Start(e: Event): Time {
    if e.SweepAt? then e.now else e.at
  }

  function End(e: Event): Time {
    if e.SweepAt? then e.posted else e.at
  }

  /** The item after one event. Only the bot writes the marker. */
  function Apply(item: Item, guild: set<Login>, e: Event): Item {
    match e
    case SweepAt(now, posted) => Sweep(item, guild, now, posted)
    case Remark(at, author) => item.(comments := item.comments + [Comment(at, author, false)])
    case Assign(at, who) =>
      item.(assignees := if who in item.assignees then item.assignees else item.assignees + [who],
            assignments := item.assignments + [(at, who)])
    case Unassign(_, who) => item.(assignees := Filter(item.assignees, {who}, false))
    case Edit(_, archived, isIssue, status, issueType, labels, hasClosingPr) =>
      item.(archived := archived, isIssue := isIssue, status := status, issueType := issueType,
            labels := labels, hasClosingPr := hasClosingPr)
  }

  /** An item nobody has been assigned to or has commented on yet. */
  predicate Fresh(item: Item) {
    item.assignees == [] && item.comments == [] && item.assignments == []
  }

  /** A history: its first item, the guild, and events on a strictly increasing clock. */
  datatype History = History(first: Item, guild: set<Login>, events: seq<Event>) {
    ghost predicate Valid() {
      && Fresh(first)
      && (forall i :: 0 <= i < |events| ==> Start(events[i]) <= End(events[i]))
      && (forall i, j :: 0 <= i < j < |events| ==> End(events[i]) < Start(events[j]))
    }

    /** The item after the first `k` events. */
    function At(k: nat): Item
      requires k <= |events|
    {
      if k == 0 then first else Apply(At(k - 1), guild, events[k - 1])
    }

    /** What event `k` decides; only a sweep decides anything. */
    function Decision(k: nat): Decision
      requires k < |events|
    {
      if events[k].SweepAt? then Decide(At(k), guild, events[k].now) else Skip
    }

    /** Event `i` is a comment by `who` or an assignment of `who`. */
    predicate Active(i: nat, who: Login)
      requires i < |events|
    {
      match events[i]
      case Remark(_, author) => author == who
      case Assign(_, assignee) => assignee == who
      case _ => false
    }

    /** The last of the first `k` events that is activity of `who`. */
    function LastActive(k: nat, who: Login): Option<nat>
      requires k <= |events|
    {
      if k == 0 then None
      else if Active(k - 1, who) then Some(k - 1)
      else LastActive(k - 1, who)
    }

    /** The last of the first `k` events that posts a check-in. */
    function LastNudge(k: nat): Option<nat>
      requires k <= |events|
    {
      if k == 0 then None
      else if Decision(k - 1).CheckIn? then Some(k - 1)
      else LastNudge(k - 1)
    }

    /** At most one assignee is a guild member, at every moment. */
    ghost predicate OneGuildAssignee() {
      forall k :: 0 <= k <= |events| ==> forall a, b :: a in At(k).assignees && b in At(k).assignees && a in guild && b in guild ==> a == b
    }
  }

  // ----- what the sweep recovers from the timeline is the history

  lemma {:induction false} LastActiveIsLast(h: History, k: nat, who: Login)
    requires k <= |h.events|
    ensures match h.LastActive(k, who)
            case None => forall i :: 0 <= i < k ==> !h.Active(i, who)
            case Some(l) => l < k && h.Active(l, who) && forall i :: l < i < k ==> !h.Active(i, who)
  {
    if k > 0 {
      LastActiveIsLast(h, k - 1, who);
    }
  }

  lemma {:induction false} LastNudgeIsLast(h: History, k: nat)
    requires k <= |h.events|
    ensures match h.LastNudge(k)
            case None => forall i :: 0 <= i < k ==> !h.Decision(i).CheckIn?
            case Some(l) => l < k && h.Decision(l).CheckIn? && forall i :: l < i < k ==> !h.Decision(i).CheckIn?
  {
    if k > 0 {
      LastNudgeIsLast(h, k - 1);
    }
  }

  function TimeOf(h: History, i: Option<nat>): Option<Time>
    requires i.Some? ==> i.value < |h.events|
  {
    if i.None? then None else Some(End(h.events[i.value]))
  }

  /** The time of `who`'s last activity as the item records it, comments and assignments together. */
  function RecordedActivity(item: Item, who: Login): Option<Time> {
    match LatestAssignment(item.assignments, who)
    case Some(t) => Some(LatestRemark(item.comments, who, t))
    case None => None
  }

  /** Every assignee has an assignment event, so a sweep never stops for want of one. */
  lemma {:induction false} AssigneesAreRecorded(h: History, k: nat, who: Login)
    requires h.Valid() && k <= |h.events|
    ensures who in h.At(k).assignees ==> LatestAssignment(h.At(k).assignments, who).Some?
  {
    if k > 0 {
      AssigneesAreRecorded(h, k - 1, who);
      var item, e := h.At(k - 1), h.events[k - 1];
      if e.Assign? {
        var all := h.At(k).assignments;
        assert all[..|all| - 1] == item.assignments;
      }
    }
  }

  /** The latest check-in comment is the last check-in of the history. */
  lemma {:induction false} CheckInRecorded(h: History, k: nat)
    requires h.Valid() && k <= |h.events|
    ensures h.LastNudge(k).Some? ==> h.LastNudge(k).value < k
    ensures LatestCheckIn(h.At(k).comments) == TimeOf(h, h.LastNudge(k))
  {
    if k > 0 {
      CheckInRecorded(h, k - 1);
      var e, item, nudged := h.events[k - 1], h.At(k - 1), h.Decision(k - 1).CheckIn?;
      assert nudged == (e.SweepAt? && Decide(item, h.guild, e.now).CheckIn?);
      CheckInAfter(item, h.guild, e, nudged);
    }
  }

  /** One event moves the recorded check-in to its own time if it posts one, and else keeps it. */
  lemma CheckInAfter(item: Item, guild: set<Login>, e: Event, nudged: bool)
    requires nudged == (e.SweepAt? && Decide(item, guild, e.now).CheckIn?)
    requires LatestCheckIn(item.comments).Some? ==> LatestCheckIn(item.comments).value < End(e)
    ensures LatestCheckIn(Apply(item, guild, e).comments) == if nudged then Some(End(e)) else LatestCheckIn(item.comments)
  {
    var before, after := item.comments, Apply(item, guild, e).comments;
    if after != before {
      assert after[..|after| - 1] == before;
    }
  }

  lemma {:induction false} LatestRemarkBase(comments: seq<Comment>, who: Login, since: Time, later: Time)
    requires since <= later && forall c :: c in comments ==> c.at <= later
    ensures LatestRemark(comments, who, later) == later
    ensures LatestRemark(comments, who, since) <= later
  {
    if comments != [] {
      assert comments == comments[..|comments| - 1] + [comments[|comments| - 1]];
      LatestRemarkBase(comments[..|comments| - 1], who, since, later);
    }
  }

  lemma {:induction false} LatestAssignmentBound(assignments: seq<(Time, Login)>, who: Login, later: Time)
    requires forall a :: a in assignments ==> a.0 <= later
    ensures LatestAssignment(assignments, who).Some? ==> LatestAssignment(assignments, who).value <= later
  {
    if assignments != [] {
      assert assignments == assignments[..|assignments| - 1] + [assignments[|assignments| - 1]];
      LatestAssignmentBound(assignments[..|assignments| - 1], who, later);
    }
  }

  /** Nothing recorded is later than the last event. */
  lemma {:induction false} RecordsArePast(h: History, k: nat, t: Time)
    requires h.Valid() && k <= |h.events| && forall i :: 0 <= i < k ==> End(h.events[i]) <= t
    ensures forall c :: c in h.At(k).comments ==> c.at <= t
    ensures forall a :: a in h.At(k).assignments ==> a.0 <= t
  {
    if k > 0 {
      RecordsArePast(h, k - 1, t);
    }
  }

  /** One event moves the recorded activity of `who` to its own time if it is activity of `who`, and else keeps it. */
  lemma ActivityAfter(item: Item, guild: set<Login>, e: Event, who: Login)
    requires forall c :: c in item.comments ==> c.at <= End(e)
    requires forall a :: a in item.assignments ==> a.0 <= End(e)
    ensures var before, after := RecordedActivity(item, who), RecordedActivity(Apply(item, guild, e), who);
            match e
            case Assign(at, assignee) => after == if assignee == who then Some(at) else before
            case Remark(at, author) => after == if author == who && before.Some? then Some(at) else before
            case _ => after == before
  {
    var after := Apply(item, guild, e);
    match e {
      case Assign(at, assignee) =>
        assert after.assignments[..|after.assignments| - 1] == item.assignments;
        LatestAssignmentBound(item.assignments, who, at);
        LatestRemarkBase(item.comments, who, at, at);
      case Remark(at, author) =>
        assert after.comments[..|after.comments| - 1] == item.comments;
        LatestAssignmentBound(item.assignments, who, at);
        var since := LatestAssignment(item.assignments, who);
        if since.Some? {
          LatestRemarkBase(item.comments, who, since.value, at);
        }
      case SweepAt(_, _) =>
        if after.comments != item.comments {
          assert after.comments[..|after.comments| - 1] == item.comments;
        }
      case _ =>
    }
  }

  /** For somebody with an assignment event, the recorded activity is the last activity of the history. */
  lemma {:induction false} ActivityRecorded(h: History, k: nat, who: Login)
    requires h.Valid() && k <= |h.events|
    ensures h.LastActive(k, who).Some? ==> h.LastActive(k, who).value < k
    ensures RecordedActivity(h.At(k), who).Some? ==>
              RecordedActivity(h.At(k), who) == TimeOf(h, h.LastActive(k, who))
  {
    if k > 0 {
      ActivityRecorded(h, k - 1, who);
      var e, item := h.events[k - 1], h.At(k - 1);
      RecordsArePast(h, k - 1, End(e));
      ActivityAfter(item, h.guild, e, who);
      assert h.At(k) == Apply(item, h.guild, e);
      ActivityStep(h, k, who, RecordedActivity(item, who), RecordedActivity(h.At(k), who));
    }
  }

  lemma ActivityStep(h: History, k: nat, who: Login, before: Option<Time>, after: Option<Time>)
    requires 0 < k <= |h.events|
    requires h.LastActive(k - 1, who).Some? ==> h.LastActive(k - 1, who).value < k - 1
    requires before.Some? ==> before == TimeOf(h, h.LastActive(k - 1, who))
    requires match h.events[k - 1]
             case Assign(at, assignee) => after == if assignee == who then Some(at) else before
             case Remark(at, author) => after == if author == who && before.Some? then Some(at) else before
             case _ => after == before
    ensures h.LastActive(k, who).Some? ==> h.LastActive(k, who).value < k
    ensures after.Some? ==> after == TimeOf(h, h.LastActive(k, who))
  {
  }

  // ----- what a decision means in the history

  const CHECK_IN_AFTER: Time := 14 * 86400
  const CLEAR_AFTER: Time := 7 * 86400

  /** The moment of event `i` that later events are measured from. */
  function Moment(h: History, i: nat): Time
    requires i < |h.events|
  {
    End(h.events[i])
  }

  lemma ClockOrders(h: History, i: nat, j: nat)
    requires h.Valid() && i < |h.events| && j < |h.events|
    ensures Moment(h, i) < Moment(h, j) <==> i < j
    ensures i < j ==> Moment(h, i) < Start(h.events[j])
  {
  }

  /** A sweep in a history always finds the assignment event it looks for. */
  lemma SweepNeverStops(h: History, k: nat)
    requires h.Valid() && k < |h.events|
    ensures !h.Decision(k).NoAssignmentEvent?
  {
    var item := h.At(k);
    if Swept(item, h.guild) {
      var who := GuildAssignees(item, h.guild)[0];
      assert who in GuildAssignees(item, h.guild);
      AssigneesAreRecorded(h, k, who);
    }
  }

  /** In no history does a sweep touch an item that is out of reach at that moment. */
  lemma HeldIsLeftAlone(h: History, k: nat)
    requires k < |h.events| && OutOfReach(h.At(k), h.guild)
    ensures h.Decision(k) == Skip
    ensures h.events[k].SweepAt? ==> h.At(k + 1) == h.At(k)
  {
    hide Decide, Sweep;
    if h.events[k].SweepAt? {
      OutOfReachIsSkipped(h.At(k), h.guild, h.events[k].now, h.events[k].posted);
    }
  }

  /** What a decision says about the records of the item. */
  lemma DecisionMeans(item: Item, guild: set<Login>, now: Time, d: Decision, who: Login)
    requires d == Decide(item, guild, now) && (d == CheckIn(who) || d == Clear(who))
    ensures who in guild && who in item.assignees && RecordedActivity(item, who).Some?
    ensures var active, nudge := RecordedActivity(item, who).value, LatestCheckIn(item.comments);
            if d.CheckIn? then active + CHECK_IN_AFTER <= now && (nudge.Some? ==> nudge.value < active)
            else nudge.Some? && active <= nudge.value && nudge.value + CLEAR_AFTER <= now
  {
    assert who in GuildAssignees(item, guild);
  }

  /** A check-in: the assignee was active last, at least 14 days ago, and nobody was nudged since. */
  lemma CheckInMeans(h: History, k: nat)
    requires h.Valid() && k < |h.events| && h.Decision(k).CheckIn?
    ensures var who := h.Decision(k).assignee;
            && who in h.guild && who in h.At(k).assignees
            && h.LastActive(k, who).Some? && h.LastActive(k, who).value < k
            && Moment(h, h.LastActive(k, who).value) + CHECK_IN_AFTER <= h.events[k].now
            && (h.LastNudge(k).Some? ==> h.LastNudge(k).value < h.LastActive(k, who).value)
  {
    var who := h.Decision(k).assignee;
    DecisionMeans(h.At(k), h.guild, h.events[k].now, h.Decision(k), who);
    RecordsAreHistory(h, k, who);
    if h.LastNudge(k).Some? {
      ClockOrders(h, h.LastNudge(k).value, h.LastActive(k, who).value);
    }
  }

  /** Activity and check-in as recorded are those of the history, and an event is not both. */
  lemma RecordsAreHistory(h: History, k: nat, who: Login)
    requires h.Valid() && k <= |h.events| && RecordedActivity(h.At(k), who).Some?
    ensures var active, nudge := h.LastActive(k, who), h.LastNudge(k);
            && active.Some? && active.value < k && RecordedActivity(h.At(k), who) == Some(Moment(h, active.value))
            && (nudge.Some? ==> nudge.value < k && nudge.value != active.value)
            && (nudge.Some? ==> LatestCheckIn(h.At(k).comments) == Some(Moment(h, nudge.value)))
            && (nudge.None? ==> LatestCheckIn(h.At(k).comments) == None)
  {
    ActivityRecorded(h, k, who);
    CheckInRecorded(h, k);
    LastNudgeIsLast(h, k);
    LastActiveIsLast(h, k, who);
  }

  /** A clearing: the last check-in came after the assignee's last activity, at least 7 days ago. */
  lemma ClearMeans(h: History, k: nat)
    requires h.Valid() && k < |h.events| && h.Decision(k).Clear?
    ensures var who := h.Decision(k).assignee;
            && who in h.guild && who in h.At(k).assignees
            && h.LastActive(k, who).Some? && h.LastNudge(k).Some?
            && h.LastActive(k, who).value < h.LastNudge(k).value < k
            && Moment(h, h.LastNudge(k).value) + CLEAR_AFTER <= h.events[k].now
  {
    var who := h.Decision(k).assignee;
    DecisionMeans(h.At(k), h.guild, h.events[k].now, h.Decision(k), who);
    RecordsAreHistory(h, k, who);
    ClockOrders(h, h.LastNudge(k).value, h.LastActive(k, who).value);
  }

  lemma AssigneeBefore(item: Item, guild: set<Login>, e: Event, who: Login)
    requires who in Apply(item, guild, e).assignees && !(e.Assign? && e.who == who)
    ensures who in item.assignees
  {
  }

  /** Without an assignment in between, an assignee has been one all along. */
  lemma {:induction false} AssignedAllAlong(h: History, j: nat, k: nat, who: Login)
    requires h.Valid() && j <= k <= |h.events| && who in h.At(k).assignees
    requires forall i :: j <= i < k ==> !h.Active(i, who)
    ensures who in h.At(j).assignees
    decreases k
  {
    if j < k {
      assert !h.Active(k - 1, who);
      AssigneeBefore(h.At(k - 1), h.guild, h.events[k - 1], who);
      AssignedAllAlong(h, j, k - 1, who);
    }
  }

  // ----- safety

  /**
   `who` was treated fairly when cleared at `k`: a check-in addressed to them at `m`, at least 14 days after the last of
   their comments and assignments and at least 7 days before the clearing, and nothing from them since.
   */
  ghost predicate Fair(h: History, m: nat, k: nat, who: Login)
    requires m < |h.events| && k < |h.events|
  {
    && m < k && h.Decision(m) == CheckIn(who) && End(h.events[m]) + CLEAR_AFTER <= Start(h.events[k])
    && forall i :: 0 <= i < k && h.Active(i, who) ==> i < m && End(h.events[i]) + CHECK_IN_AFTER <= Start(h.events[m])
  }

  /** `who` has been nudged since they were last active. */
  ghost predicate NudgedSince(h: History, k: nat, who: Login)
    requires k <= |h.events|
  {
    exists m :: 0 <= m < k && h.Decision(m) == CheckIn(who) && Quiet(h, m, k, who)
  }

  ghost predicate Quiet(h: History, m: nat, k: nat, who: Login)
    requires k <= |h.events|
  {
    forall i :: m <= i < k ==> !h.Active(i, who)
  }

  /** A check-in after which its addressee stayed quiet came 14 days after everything they did. */
  lemma QuietBefore(h: History, m: nat, k: nat, who: Login)
    requires h.Valid() && m < k <= |h.events| && h.Decision(m) == CheckIn(who) && Quiet(h, m, k, who)
    ensures forall i :: 0 <= i < k && h.Active(i, who) ==> i < m && End(h.events[i]) + CHECK_IN_AFTER <= Start(h.events[m])
  {
    CheckInMeans(h, m);
    LastActiveIsLast(h, m, who);
    var last := h.LastActive(m, who).value;
    forall i | 0 <= i < k && h.Active(i, who)
      ensures i < m && End(h.events[i]) + CHECK_IN_AFTER <= Start(h.events[m])
    {
      ClockOrders(h, last, i);
    }
  }

  /**
   When clearing is fair, for any number of guild assignees and for each of them: exactly when they were nudged
   themselves since they were last active.
   */
  lemma FairIffNudged(h: History, k: nat, who: Login)
    requires h.Valid() && k < |h.events| && h.Decision(k).Clear?
    ensures (exists m :: 0 <= m < k && Fair(h, m, k, who)) <==> NudgedSince(h, k, who)
  {
    ClearMeans(h, k);
    LastNudgeIsLast(h, k);
    var last := h.LastNudge(k).value;
    forall m | 0 <= m < k && h.Decision(m) == CheckIn(who) && Quiet(h, m, k, who) ensures Fair(h, m, k, who) {
      QuietBefore(h, m, k, who);
      ClockOrders(h, m, last);
    }
    forall m | 0 <= m < k && Fair(h, m, k, who) ensures Quiet(h, m, k, who) {
    }
  }

  /** Fair means in particular: not within 21 days of any comment or assignment of theirs. */
  lemma FairMeansTwentyOneDays(h: History, m: nat, k: nat, who: Login)
    requires h.Valid() && m < k < |h.events| && Fair(h, m, k, who)
    ensures forall i :: 0 <= i < k && h.Active(i, who) ==> End(h.events[i]) + 21 * DAY <= Start(h.events[k])
  {
    assert Start(h.events[m]) <= End(h.events[m]);
  }

  /** With one guild assignee at a time, the last check-in was addressed to whoever is cleared. */
  lemma LastNudgeIsTheirs(h: History, k: nat)
    requires h.Valid() && h.OneGuildAssignee() && k < |h.events| && h.Decision(k).Clear?
    ensures NudgedSince(h, k, h.Decision(k).assignee)
  {
    var who := h.Decision(k).assignee;
    ClearMeans(h, k);
    LastNudgeIsLast(h, k);
    LastActiveIsLast(h, k, who);
    var nudge := h.LastNudge(k).value;
    AssignedAllAlong(h, nudge, k, who);
    CheckInMeans(h, nudge);
    OneOf(h, nudge, who, h.Decision(nudge).assignee);
    assert Quiet(h, nudge, k, who);
  }

  lemma OneOf(h: History, k: nat, a: Login, b: Login)
    requires h.OneGuildAssignee() && k <= |h.events|
    requires a in h.At(k).assignees && b in h.At(k).assignees && a in h.guild && b in h.guild
    ensures a == b
  {
  }

  /**
   Clearing is safe: with one guild assignee at a time, whoever is cleared was nudged at least 7 days earlier, had been
   quiet for at least 14 days before that, and was quiet ever since. So nobody is cleared within 21 days of any comment
   or assignment of theirs.
   */
  lemma ClearedOnlyAfterSilence(h: History, k: nat) returns (nudge: nat)
    requires h.Valid() && h.OneGuildAssignee()
    requires k < |h.events| && h.Decision(k).Clear?
    ensures nudge < k && Fair(h, nudge, k, h.Decision(k).assignee)
    ensures forall i :: 0 <= i < k && h.Active(i, h.Decision(k).assignee) ==> Moment(h, i) + 21 * DAY <= h.events[k].now
  {
    var who := h.Decision(k).assignee;
    LastNudgeIsTheirs(h, k);
    FairIffNudged(h, k, who);
    nudge :| 0 <= nudge < k && Fair(h, nudge, k, who);
    FairMeansTwentyOneDays(h, nudge, k, who);
  }

  /** A clearing takes all guild assignees away, the first one and those the sweep never looked at, and nobody else. */
  lemma ClearingRemovesAll(h: History, k: nat)
    requires k < |h.events| && h.Decision(k).Clear?
    ensures forall a :: a in h.At(k + 1).assignees <==> a in h.At(k).assignees && a !in h.guild
  {
    var item, e := h.At(k), h.events[k];
    assert h.At(k + 1) == Apply(item, h.guild, e);
    assert Apply(item, h.guild, e).assignees == Filter(item.assignees, h.guild, false);
  }

  /** Nudging is not repeated: before the next check-in, its addressee has been active since the previous one. */
  lemma OneCheckInPerSilence(h: History, j: nat, k: nat) returns (activity: nat)
    requires h.Valid() && j < k < |h.events|
    requires h.Decision(j).CheckIn? && h.Decision(k).CheckIn?
    ensures j < activity < k && h.Active(activity, h.Decision(k).assignee)
  {
    CheckInMeans(h, k);
    LastNudgeIsLast(h, k);
    LastActiveIsLast(h, k, h.Decision(k).assignee);
    activity := h.LastActive(k, h.Decision(k).assignee).value;
  }
}
