/** The triage project: three derivations from an issue's thread and the sync that writes them to the board. */
module TriageSync {
  import opened Basics
  import opened Text

  // ----- the data

  datatype Comment = Comment(login: string, botAccount: bool, body: string, at: int)

  /** Times are seconds; `comments` are in the order of the thread. */
  datatype Issue = Issue(
    id: string, pullRequest: bool, kind: string, labels: set<string>, closed: bool, assignees: seq<string>,
    reporter: string, created: int, comments: seq<Comment>)

  datatype Status =
    | NeedsLabels | NeedsReproAttempt | NeedsAsk | UserReplied | AwaitingUser | RespondedNoRepro | Reproducible
    | Handoff | HandoffIncomplete | ClaimedByCommunity | Closed | Unknown

  const DAY := 86400

  const MEDIA: seq<string> :=
    ["user-attachments" + "/assets", ".png", ".jpg", ".jpeg", ".gif", ".mp4", ".webm", ".mov"]

  predicate IsBot(c: Comment) {
    c.botAccount || (|c.login| >= 5 && c.login[|c.login| - 5..] == "[bot]")
  }

  /** A comment by staff, not by a bot, that is long enough or shows something. */
  predicate IsSubstantive(c: Comment, staff: set<string>) {
    && c.login in staff && !IsBot(c)
    && (|c.body| >= 50 || exists token :: token in MEDIA && Contains(c.body, token))
  }

  /** A comment by a person outside the staff. */
  predicate IsOutside(c: Comment, staff: set<string>) {
    c.login !in staff && !IsBot(c)
  }

  predicate IsResting(status: Status) {
    status in {Reproducible, Handoff, Closed, RespondedNoRepro, ClaimedByCommunity}
  }

  // ----- the derivations as functions

  /** The last substantive staff comment. */
  function LastAsk(cs: seq<Comment>, staff: set<string>): Option<Comment> {
    if cs == [] then None
    else if IsSubstantive(cs[|cs| - 1], staff) then Some(cs[|cs| - 1])
    else LastAsk(cs[..|cs| - 1], staff)
  }

  /** The last comment by a person outside the staff. */
  function LastOutside(cs: seq<Comment>, staff: set<string>): Option<Comment> {
    if cs == [] then None
    else if IsOutside(cs[|cs| - 1], staff) then Some(cs[|cs| - 1])
    else LastOutside(cs[..|cs| - 1], staff)
  }

  /** When the reporter was last heard of: at creation or in a comment. */
  function ReporterActivity(cs: seq<Comment>, reporter: string, created: int): int {
    if cs == [] then created
    else
      var before, last := ReporterActivity(cs[..|cs| - 1], reporter, created), cs[|cs| - 1];
      if last.login == reporter && last.at > before then last.at else before
  }

  /** Staff said something of substance after `cutoff`. */
  predicate AnsweredAfter(cs: seq<Comment>, staff: set<string>, cutoff: int) {
    exists c :: c in cs && c.at > cutoff && IsSubstantive(c, staff)
  }

  /** Rule R4. */
  function NeedsInfoStatus(cs: seq<Comment>, staff: set<string>): Status {
    match LastAsk(cs, staff)
    case None => NeedsAsk
    case Some(ask) =>
      if cs != [] && IsOutside(cs[|cs| - 1], staff) && cs[|cs| - 1].at > ask.at then UserReplied else AwaitingUser
  }

  function DerivedStatus(i: Issue, staff: set<string>): Status {
    if i.closed then Closed
    else if "state:claimed by community" in i.labels then ClaimedByCommunity
    else if "state:reproducible" in i.labels then
      if i.assignees != [] then Reproducible
      else if LastAsk(i.comments, staff).Some? then Handoff
      else HandoffIncomplete
    else if "state:needs info" in i.labels then NeedsInfoStatus(i.comments, staff)
    else if "state:needs repro" in i.labels then
      if AnsweredAfter(i.comments, staff, ReporterActivity(i.comments, i.reporter, i.created)) then RespondedNoRepro
      else NeedsReproAttempt
    else if "state:needs triage" in i.labels then NeedsLabels
    else Unknown
  }

  /** What `derive_stale_since` makes of any status, derived or not. */
  function StaleSince(i: Issue, status: Status, staff: set<string>): Option<int> {
    match status
    case NeedsLabels => Some(i.created)
    case NeedsReproAttempt => Some(ReporterActivity(i.comments, i.reporter, i.created))
    case NeedsAsk => Some(i.created)
    case AwaitingUser =>
      (match LastAsk(i.comments, staff) case Some(c) => Some(c.at) case None => Some(i.created))
    case UserReplied =>
      (match LastOutside(i.comments, staff) case Some(c) => Some(c.at) case None => None)
    case HandoffIncomplete => Some(i.created)
    case _ => None
  }

  function Threshold(status: Status): Option<int> {
    match status
    case NeedsLabels => Some(7)
    case NeedsReproAttempt => Some(7)
    case AwaitingUser => Some(14)
    case UserReplied => Some(3)
    case _ => None
  }

  predicate Aged(status: Status, staleSince: Option<int>, now: int) {
    if status == HandoffIncomplete || status == NeedsAsk then true
    else if IsResting(status) || status == Unknown || staleSince.None? then false
    else Threshold(status).Some? && now - staleSince.value > Threshold(status).value * DAY
  }

  /** The anchor of an issue under its own status. */
  function Anchor(i: Issue, staff: set<string>): Option<int> {
    StaleSince(i, DerivedStatus(i, staff), staff)
  }

  predicate IssueAged(i: Issue, staff: set<string>, now: int) {
    Aged(DerivedStatus(i, staff), Anchor(i, staff), now)
  }

  // ----- the loops of the derivations

  method FindLastAsk(cs: seq<Comment>, staff: set<string>) returns (last: Option<Comment>)
    ensures last == LastAsk(cs, staff)
  {
    last := None;
    for k := 0 to |cs|
      invariant last == LastAsk(cs[..k], staff)
    {
      assert cs[..k + 1][..k] == cs[..k];
      if IsSubstantive(cs[k], staff) {
        last := Some(cs[k]);
      }
    }
    assert cs[..|cs|] == cs;
  }

  method FindLastOutside(cs: seq<Comment>, staff: set<string>) returns (last: Option<Comment>)
    ensures last == LastOutside(cs, staff)
  {
    last := None;
    for k := 0 to |cs|
      invariant last == LastOutside(cs[..k], staff)
    {
      assert cs[..k + 1][..k] == cs[..k];
      if IsOutside(cs[k], staff) {
        last := Some(cs[k]);
      }
    }
    assert cs[..|cs|] == cs;
  }

  /** latest_reporter_activity. */
  method LatestReporterActivity(i: Issue) returns (latest: int)
    ensures latest == ReporterActivity(i.comments, i.reporter, i.created)
  {
    var cs := i.comments;
    latest := i.created;
    for k := 0 to |cs|
      invariant latest == ReporterActivity(cs[..k], i.reporter, i.created)
    {
      assert cs[..k + 1][..k] == cs[..k];
      if cs[k].login == i.reporter && cs[k].at > latest {
        latest := cs[k].at;
      }
    }
    assert cs[..|cs|] == cs;
  }

  /** The search of rule R5 from the end of the thread. */
  method FindAnswer(cs: seq<Comment>, staff: set<string>, cutoff: int) returns (found: bool)
    ensures found <==> AnsweredAfter(cs, staff, cutoff)
  {
    var k := |cs|;
    while k > 0
      invariant 0 <= k <= |cs|
      invariant forall j :: k <= j < |cs| ==> !(cs[j].at > cutoff && IsSubstantive(cs[j], staff))
    {
      k := k - 1;
      if cs[k].at > cutoff && IsSubstantive(cs[k], staff) {
        return true;
      }
    }
    return false;
  }

  /** derive_status. */
  method DeriveStatus(i: Issue, staff: set<string>) returns (status: Status)
    ensures status == DerivedStatus(i, staff)
  {
    if i.closed {
      return Closed;
    }
    if "state:claimed by community" in i.labels {
      return ClaimedByCommunity;
    }
    if "state:reproducible" in i.labels {
      if i.assignees != [] {
        return Reproducible;
      }
      var substantive := FindLastAsk(i.comments, staff);
      return if substantive.Some? then Handoff else HandoffIncomplete;
    }
    if "state:needs info" in i.labels {
      var ask := FindLastAsk(i.comments, staff);
      if ask.None? {
        return NeedsAsk;
      }
      if i.comments != [] {
        var last := i.comments[|i.comments| - 1];
        if IsOutside(last, staff) && last.at > ask.value.at {
          return UserReplied;
        }
      }
      return AwaitingUser;
    }
    if "state:needs repro" in i.labels {
      var cutoff := LatestReporterActivity(i);
      var found := FindAnswer(i.comments, staff, cutoff);
      return if found then RespondedNoRepro else NeedsReproAttempt;
    }
    return if "state:needs triage" in i.labels then NeedsLabels else Unknown;
  }

  /** derive_stale_since. */
  method DeriveStaleSince(i: Issue, status: Status, staff: set<string>) returns (anchor: Option<int>)
    ensures anchor == StaleSince(i, status, staff)
  {
    if IsResting(status) || status == Unknown {
      return None;
    }
    match status
    case NeedsReproAttempt =>
      var latest := LatestReporterActivity(i);
      return Some(latest);
    case AwaitingUser =>
      var ask := FindLastAsk(i.comments, staff);
      return Some(if ask.Some? then ask.value.at else i.created);
    case UserReplied =>
      var reply := FindLastOutside(i.comments, staff);
      return if reply.Some? then Some(reply.value.at) else None;
    case _ =>
      return Some(i.created);
  }

  // ----- the derivations agree

  /** The comment at `k` is the last substantive staff comment. */
  predicate IsLastAsk(cs: seq<Comment>, staff: set<string>, k: int) {
    0 <= k < |cs| && IsSubstantive(cs[k], staff) && forall j :: k < j < |cs| ==> !IsSubstantive(cs[j], staff)
  }

  lemma {:induction false} LastAskIff(cs: seq<Comment>, staff: set<string>, k: int)
    ensures LastAsk(cs, staff).None? ==> forall j :: 0 <= j < |cs| ==> !IsSubstantive(cs[j], staff)
    ensures IsLastAsk(cs, staff, k) ==> LastAsk(cs, staff) == Some(cs[k])
  {
    if cs != [] && !IsSubstantive(cs[|cs| - 1], staff) {
      LastAskIff(cs[..|cs| - 1], staff, k);
    }
  }

  lemma {:induction false} HasLastAsk(cs: seq<Comment>, staff: set<string>) returns (k: int)
    requires LastAsk(cs, staff).Some?
    ensures IsLastAsk(cs, staff, k) && LastAsk(cs, staff) == Some(cs[k])
  {
    if IsSubstantive(cs[|cs| - 1], staff) {
      k := |cs| - 1;
    } else {
      k := HasLastAsk(cs[..|cs| - 1], staff);
    }
  }

  /** An issue that waits for its user is anchored on the last substantive staff comment, never on the fallback. */
  lemma AwaitingUserAnchor(i: Issue, staff: set<string>) returns (ask: int)
    requires DerivedStatus(i, staff) == AwaitingUser
    ensures IsLastAsk(i.comments, staff, ask) && Anchor(i, staff) == Some(i.comments[ask].at)
  {
    ask := HasLastAsk(i.comments, staff);
  }

  /** A reply is anchored on the last comment, which is from outside and strictly later than the last ask. */
  lemma UserRepliedAnchor(i: Issue, staff: set<string>) returns (ask: int)
    requires DerivedStatus(i, staff) == UserReplied
    ensures var last := |i.comments| - 1;
            && IsLastAsk(i.comments, staff, ask) && ask < last && i.comments[ask].at < i.comments[last].at
            && IsOutside(i.comments[last], staff) && Anchor(i, staff) == Some(i.comments[last].at)
  {
    ask := HasLastAsk(i.comments, staff);
  }

  /** There is no anchor exactly when the status is resting or unknown; then the issue is never aged. */
  lemma RestingIffNoAnchor(i: Issue, staff: set<string>)
    ensures Anchor(i, staff).None? <==> IsResting(DerivedStatus(i, staff)) || DerivedStatus(i, staff) == Unknown
    ensures Anchor(i, staff).None? <==> forall now :: !IssueAged(i, staff, now)
  {
    if DerivedStatus(i, staff) == UserReplied {
      var _ := UserRepliedAnchor(i, staff);
    }
    if Anchor(i, staff).Some? {
      assert IssueAged(i, staff, Anchor(i, staff).value + 14 * DAY + 1);
    }
  }

  /** Time alone never makes an aged issue fresh, and every threshold is at most 14 days from the anchor. */
  lemma AgedNeverReverts(i: Issue, staff: set<string>, now: int, later: int)
    requires now <= later
    ensures IssueAged(i, staff, now) ==> IssueAged(i, staff, later)
    ensures Anchor(i, staff).Some? && later - Anchor(i, staff).value > 14 * DAY ==> IssueAged(i, staff, later)
  {
    RestingIffNoAnchor(i, staff);
  }

  lemma {:induction false} ReporterActivityIsMax(cs: seq<Comment>, reporter: string, created: int)
    ensures var latest := ReporterActivity(cs, reporter, created);
            && latest >= created
            && (forall c :: c in cs && c.login == reporter ==> c.at <= latest)
            && (latest == created || exists c :: c in cs && c.login == reporter && c.at == latest)
  {
    if cs != [] {
      ReporterActivityIsMax(cs[..|cs| - 1], reporter, created);
      assert cs == cs[..|cs| - 1] + [cs[|cs| - 1]];
    }
  }

  predicate AnySubstantive(cs: seq<Comment>, staff: set<string>) {
    exists c :: c in cs && IsSubstantive(c, staff)
  }

  lemma LastAskExists(cs: seq<Comment>, staff: set<string>)
    ensures LastAsk(cs, staff).Some? <==> AnySubstantive(cs, staff)
  {
    LastAskIff(cs, staff, 0);
    if LastAsk(cs, staff).Some? {
      var k := HasLastAsk(cs, staff);
      assert cs[k] in cs;
    }
  }

  /** Which label decides: a closed issue is closed; then claimed, reproducible, needs info, needs repro, needs triage. */
  lemma DecidingLabel(i: Issue, staff: set<string>)
    ensures var status, asked := DerivedStatus(i, staff), AnySubstantive(i.comments, staff);
            var claimed := !i.closed && "state:claimed by community" in i.labels;
            var known := !i.closed && !claimed && "state:reproducible" in i.labels;
            var open := !i.closed && !claimed && !known && !NeedsInfo(i);
            var toReproduce := open && "state:needs repro" in i.labels;
            && (status == Closed <==> i.closed)
            && (status == ClaimedByCommunity <==> claimed)
            && (status == Reproducible <==> known && i.assignees != [])
            && (status == Handoff <==> known && i.assignees == [] && asked)
            && (status == HandoffIncomplete <==> known && i.assignees == [] && !asked)
            && (status == NeedsAsk <==> NeedsInfo(i) && !asked)
            && (status == UserReplied <==> NeedsInfo(i) && asked && RepliedLast(i.comments, staff))
            && (status == AwaitingUser <==> NeedsInfo(i) && asked && !RepliedLast(i.comments, staff))
            && (status == RespondedNoRepro <==> toReproduce && Answered(i, staff))
            && (status == NeedsReproAttempt <==> toReproduce && !Answered(i, staff))
            && (status == NeedsLabels <==> open && !toReproduce && "state:needs triage" in i.labels)
            && (status == Unknown <==> open && !toReproduce && "state:needs triage" !in i.labels)
  {
    LastAskExists(i.comments, staff);
    RepliedLastIff(i.comments, staff);
    AnsweredIff(i, staff);
  }

  /** The thread ends with a comment from outside, later than every last ask. */
  ghost predicate RepliedLast(cs: seq<Comment>, staff: set<string>) {
    && cs != [] && IsOutside(cs[|cs| - 1], staff)
    && forall k :: IsLastAsk(cs, staff, k) ==> cs[k].at < cs[|cs| - 1].at
  }

  lemma RepliedLastIff(cs: seq<Comment>, staff: set<string>)
    requires LastAsk(cs, staff).Some? || !AnySubstantive(cs, staff)
    ensures AnySubstantive(cs, staff) ==> (NeedsInfoStatus(cs, staff) == UserReplied <==> RepliedLast(cs, staff))
    ensures AnySubstantive(cs, staff) ==> (NeedsInfoStatus(cs, staff) == AwaitingUser <==> !RepliedLast(cs, staff))
  {
    if LastAsk(cs, staff).Some? {
      var ask := HasLastAsk(cs, staff);
      assert forall k :: IsLastAsk(cs, staff, k) ==> k == ask;
    }
  }

  /** Staff wrote something substantive after the creation and after everything the reporter wrote. */
  ghost predicate Answered(i: Issue, staff: set<string>) {
    exists c :: c in i.comments && IsSubstantive(c, staff) && c.at > i.created
      && forall r :: r in i.comments && r.login == i.reporter ==> r.at < c.at
  }

  lemma AnsweredIff(i: Issue, staff: set<string>)
    ensures AnsweredAfter(i.comments, staff, ReporterActivity(i.comments, i.reporter, i.created)) <==> Answered(i, staff)
  {
    ReporterActivityIsMax(i.comments, i.reporter, i.created);
    var latest := ReporterActivity(i.comments, i.reporter, i.created);
    forall c | c in i.comments && forall r :: r in i.comments && r.login == i.reporter ==> r.at < c.at
      ensures c.at > i.created <==> c.at > latest
    {
    }
  }

  /** When an issue is aged, by status: always, or more than 7, 14 or 3 days after what it waits for. */
  lemma AgedIff(i: Issue, staff: set<string>, now: int)
    ensures var status := DerivedStatus(i, staff);
            IssueAged(i, staff, now) <==>
              || status == NeedsAsk || status == HandoffIncomplete
              || (status == NeedsLabels && now - i.created > 7 * DAY)
              || (status == NeedsReproAttempt && now - i.created > 7 * DAY
                  && forall c :: c in i.comments && c.login == i.reporter ==> now - c.at > 7 * DAY)
              || (status == AwaitingUser
                  && forall k :: IsLastAsk(i.comments, staff, k) ==> now - i.comments[k].at > 14 * DAY)
              || (status == UserReplied && i.comments != [] && now - i.comments[|i.comments| - 1].at > 3 * DAY)
  {
    var status := DerivedStatus(i, staff);
    if status == NeedsReproAttempt {
      ReporterActivityIsMax(i.comments, i.reporter, i.created);
    } else if status == AwaitingUser {
      var ask := AwaitingUserAnchor(i, staff);
      assert forall k :: IsLastAsk(i.comments, staff, k) ==> k == ask;
    } else if status == UserReplied {
      var _ := UserRepliedAnchor(i, staff);
    }
  }

  // ----- a thread that grows

  predicate InOrder(i: Issue) {
    && (forall a, b :: 0 <= a < b < |i.comments| ==> i.comments[a].at <= i.comments[b].at)
    && (forall c :: c in i.comments ==> i.created <= c.at)
  }

  /** The issue is open and `state:needs info` is the label that decides. */
  predicate NeedsInfo(i: Issue) {
    && !i.closed && "state:claimed by community" !in i.labels && "state:reproducible" !in i.labels
    && "state:needs info" in i.labels
  }

  function Commented(i: Issue, c: Comment): Issue {
    i.(comments := i.comments + [c])
  }

  /**
   A new comment moves the anchor back exactly when it ends the status "User replied" without asking anything: a short
   staff comment or a bot comment puts the issue back on the old ask.
   */
  lemma AnchorMovesBackIff(i: Issue, staff: set<string>, c: Comment)
    requires NeedsInfo(i) && InOrder(Commented(i, c))
    ensures Anchor(i, staff).Some? && Anchor(Commented(i, c), staff).Some?
    ensures Anchor(Commented(i, c), staff).value < Anchor(i, staff).value <==>
              DerivedStatus(i, staff) == UserReplied && !IsOutside(c, staff) && !IsSubstantive(c, staff)
  {
    var j := Commented(i, c);
    assert j.comments[..|j.comments| - 1] == i.comments && j.comments[|j.comments| - 1] == c;
    assert forall b :: 0 <= b < |i.comments| ==> j.comments[b] == i.comments[b];
    NeedsInfoAnchor(i, staff);
    NeedsInfoAnchor(j, staff);
    if LastAsk(i.comments, staff).Some? {
      var ask := HasLastAsk(i.comments, staff);
      assert i.comments[ask] == j.comments[ask];
    }
  }

  lemma NeedsInfoAnchor(i: Issue, staff: set<string>)
    requires NeedsInfo(i)
    ensures var status := NeedsInfoStatus(i.comments, staff);
            && DerivedStatus(i, staff) == status
            && Anchor(i, staff) == Some(
                 if status == NeedsAsk then i.created
                 else if status == AwaitingUser then LastAsk(i.comments, staff).value.at
                 else i.comments[|i.comments| - 1].at)
  {
  }

  /** Asking moves any such issue to "Awaiting user"; an outside reply later than the ask moves it to "User replied". */
  lemma AskAndReply(i: Issue, staff: set<string>, ask: Comment, reply: Comment)
    requires NeedsInfo(i) && IsSubstantive(ask, staff) && IsOutside(reply, staff) && reply.at > ask.at
    ensures DerivedStatus(Commented(i, ask), staff) == AwaitingUser
    ensures Anchor(Commented(i, ask), staff) == Some(ask.at)
    ensures DerivedStatus(Commented(Commented(i, ask), reply), staff) == UserReplied
    ensures Anchor(Commented(Commented(i, ask), reply), staff) == Some(reply.at)
  {
    var a := Commented(i, ask);
    var r := Commented(a, reply);
    assert a.comments[|a.comments| - 1] == ask;
    assert r.comments[..|r.comments| - 1] == a.comments && r.comments[|r.comments| - 1] == reply;
  }

  /** An ask, a reply, and a short staff comment: the issue waits again from the ask on, as if there had been no reply. */
  lemma ShortCommentRewinds(i: Issue, staff: set<string>, ask: Comment, reply: Comment, thanks: Comment)
    requires NeedsInfo(i) && IsSubstantive(ask, staff) && IsOutside(reply, staff) && ask.at < reply.at
    requires thanks.login in staff && !IsSubstantive(thanks, staff)
    ensures var replied := Commented(Commented(i, ask), reply);
            && Anchor(replied, staff) == Some(reply.at) && Anchor(Commented(replied, thanks), staff) == Some(ask.at)
            && DerivedStatus(Commented(replied, thanks), staff) == AwaitingUser
  {
    AskAndReply(i, staff, ask, reply);
    var a := Commented(i, ask);
    var r := Commented(a, reply);
    var t := Commented(r, thanks);
    assert a.comments[|a.comments| - 1] == ask;
    assert r.comments[..|r.comments| - 1] == a.comments && r.comments[|r.comments| - 1] == reply;
    assert t.comments[..|t.comments| - 1] == r.comments && t.comments[|t.comments| - 1] == thanks;
    NeedsInfoAnchor(t, staff);
  }

  // ----- the board

  /** The fields of one entry; a field that was never set is `None`. */
  datatype Fields = Fields(status: Option<Status>, aged: Option<bool>, staleSince: Option<int>, intakeWeek: Option<string>)

  const EMPTY := Fields(None, None, None, None)

  datatype Iteration = Iteration(id: string, start: int, days: int)

  /** The options the project offers. */
  datatype Schema = Schema(statuses: set<Status>, aged: set<bool>, iterations: seq<Iteration>)

  predicate Covers(it: Iteration, t: int) {
    it.start <= t < it.start + it.days * DAY
  }

  /** The first iteration that covers the instant. */
  function IterationFor(its: seq<Iteration>, t: int): Option<string> {
    if its == [] then None else if Covers(its[0], t) then Some(its[0].id) else IterationFor(its[1..], t)
  }

  /** iteration_id_for_date. */
  method FindIteration(its: seq<Iteration>, t: int) returns (id: Option<string>)
    ensures id == IterationFor(its, t)
  {
    for k := 0 to |its|
      invariant IterationFor(its, t) == IterationFor(its[k..], t)
    {
      if Covers(its[k], t) {
        return Some(its[k].id);
      }
    }
    return None;
  }

  predicate Skipped(i: Issue) {
    i.pullRequest || i.kind in {"Meta", "Tracking"}
  }

  /** The fields with the values that are there and have an option; the others stay. */
  function Updated(f: Fields, status: Status, aged: bool, anchor: Option<int>, week: Option<string>, schema: Schema): Fields {
    Fields(if status in schema.statuses then Some(status) else f.status,
           if aged in schema.aged then Some(aged) else f.aged,
           if anchor.Some? then Some(anchor.value / DAY) else f.staleSince,
           if week.Some? then week else f.intakeWeek)
  }

  /** The fields after a sync, from the fields before. */
  function Written(f: Fields, i: Issue, staff: set<string>, now: int, schema: Schema): Fields {
    Updated(f, DerivedStatus(i, staff), IssueAged(i, staff, now), Anchor(i, staff),
            IterationFor(schema.iterations, i.created), schema)
  }

  function Synced(items: map<string, Fields>, i: Issue, staff: set<string>, now: int, schema: Schema): map<string, Fields> {
    if Skipped(i) then items
    else items[i.id := Written(if i.id in items then items[i.id] else EMPTY, i, staff, now, schema)]
  }

  /** The project on the server: the entry of each issue on it. */
  class Project {
    var items: map<string, Fields>

    constructor ()
      ensures items == map[]
    {
      items := map[];
    }

    /** sync_issue. */
    method SyncIssue(i: Issue, staff: set<string>, now: int, schema: Schema, dryRun: bool)
      modifies this
      ensures items == if dryRun then old(items) else Synced(old(items), i, staff, now, schema)
    {
      if i.pullRequest || i.kind in {"Meta", "Tracking"} {
        return;
      }
      var status := DeriveStatus(i, staff);
      var anchor := DeriveStaleSince(i, status, staff);
      var aged := Aged(status, anchor, now);
      var week := FindIteration(schema.iterations, i.created);
      if i.id !in items {
        if dryRun {
          return;
        }
        items := items[i.id := EMPTY];
      }
      UpdateFields(i.id, status, aged, anchor, week, schema, dryRun);
    }

    /** The four updates at the end of sync_issue. */
    method UpdateFields(id: string, status: Status, aged: bool, anchor: Option<int>, week: Option<string>, schema: Schema, dryRun: bool)
      requires id in items
      modifies this
      ensures items == if dryRun then old(items) else old(items)[id := Updated(old(items)[id], status, aged, anchor, week, schema)]
    {
      ghost var before, f := items, items[id];
      assert items == before[id := f];
      if status in schema.statuses {
        f := f.(status := Some(status));
        SetFields(id, items[id].(status := Some(status)), dryRun);
      }
      assert items == if dryRun then before else before[id := f];
      if aged in schema.aged {
        f := f.(aged := Some(aged));
        SetFields(id, items[id].(aged := Some(aged)), dryRun);
      }
      assert items == if dryRun then before else before[id := f];
      if anchor.Some? {
        f := f.(staleSince := Some(anchor.value / DAY));
        SetFields(id, items[id].(staleSince := Some(anchor.value / DAY)), dryRun);
      }
      assert items == if dryRun then before else before[id := f];
      if week.Some? {
        f := f.(intakeWeek := week);
        SetFields(id, items[id].(intakeWeek := week), dryRun);
      }
      assert items == if dryRun then before else before[id := f];
    }

    method SetFields(id: string, fields: Fields, dryRun: bool)
      modifies this
      ensures items == if dryRun then old(items) else old(items)[id := fields]
    {
      if !dryRun {
        items := items[id := fields];
      }
    }
  }

  /** Syncing again at the same moment changes nothing, whatever options the project offers. */
  lemma SyncIsIdempotent(items: map<string, Fields>, i: Issue, staff: set<string>, now: int, schema: Schema)
    ensures var once := Synced(items, i, staff, now, schema); Synced(once, i, staff, now, schema) == once
  {
  }

  /** A later sync of an unchanged issue can change one thing only: Aged, and that only from no to yes. */
  lemma LaterSyncOnlyAges(items: map<string, Fields>, i: Issue, staff: set<string>, now: int, later: int, schema: Schema)
    requires now <= later && !Skipped(i) && HasAllOptions(schema)
    ensures var once := Synced(items, i, staff, now, schema);
            var twice := Synced(once, i, staff, later, schema);
            && twice == once[i.id := once[i.id].(aged := Some(IssueAged(i, staff, later)))]
            && (once[i.id].aged == Some(true) ==> twice == once)
  {
    AgedNeverReverts(i, staff, now, later);
  }

  predicate HasAllOptions(schema: Schema) {
    (forall status: Status :: status in schema.statuses) && (forall aged: bool :: aged in schema.aged)
  }

  /** With all options present, what people wrote on the board before does not show in Status and Aged. */
  lemma EditsDoNotMatter(x: map<string, Fields>, y: map<string, Fields>, i: Issue, staff: set<string>, now: int, schema: Schema)
    requires HasAllOptions(schema) && !Skipped(i)
    ensures var a, b := Synced(x, i, staff, now, schema)[i.id], Synced(y, i, staff, now, schema)[i.id];
            a.status == b.status == Some(DerivedStatus(i, staff)) && a.aged == b.aged == Some(IssueAged(i, staff, now))
  {
  }

  /** "Stale since" forgets what was on the board exactly when the status is neither resting nor unknown. */
  lemma StaleSinceForgetsIff(i: Issue, staff: set<string>, now: int, schema: Schema)
    requires !Skipped(i)
    ensures (forall f, g :: Written(f, i, staff, now, schema).staleSince == Written(g, i, staff, now, schema).staleSince)
            <==> !IsResting(DerivedStatus(i, staff)) && DerivedStatus(i, staff) != Unknown
  {
    RestingIffNoAnchor(i, staff);
    var f := EMPTY;
    var g := EMPTY.(staleSince := Some(0));
    assert Written(f, i, staff, now, schema).staleSince == Written(g, i, staff, now, schema).staleSince ==> Anchor(i, staff).Some?;
  }

  /** A closed issue keeps the date that was on the board. */
  lemma StaleDateCanStay(i: Issue, staff: set<string>, now: int, schema: Schema, date: int)
    requires i.closed
    ensures Written(EMPTY.(staleSince := Some(date)), i, staff, now, schema).staleSince == Some(date)
    ensures Anchor(i, staff) == None
  {
  }

  /** The date written is the day of the anchor, whatever was there. */
  lemma WrittenDay(f: Fields, i: Issue, staff: set<string>, now: int, schema: Schema)
    requires Anchor(i, staff).Some?
    ensures var day := Written(f, i, staff, now, schema).staleSince;
            day.Some? && day.value * 86400 <= Anchor(i, staff).value < (day.value + 1) * 86400
  {
  }

  /** The iteration at `k` is the first that contains the instant. */
  predicate FirstCovering(its: seq<Iteration>, k: int, t: int) {
    && 0 <= k < |its| && its[k].start <= t < its[k].start + its[k].days * 86400
    && forall j :: 0 <= j < k ==> !(its[j].start <= t < its[j].start + its[j].days * 86400)
  }

  lemma {:induction false} IterationForIs(its: seq<Iteration>, t: int)
    ensures match IterationFor(its, t)
            case None => forall k :: !FirstCovering(its, k, t)
            case Some(id) => exists k :: FirstCovering(its, k, t) && its[k].id == id
  {
    if its != [] && !Covers(its[0], t) {
      IterationForIs(its[1..], t);
      forall k | 0 < k < |its| ensures FirstCovering(its, k, t) <==> FirstCovering(its[1..], k - 1, t) {
        assert forall j :: 0 < j <= k ==> its[j] == its[1..][j - 1];
      }
      if k :| FirstCovering(its[1..], k, t) {
        assert FirstCovering(its, k + 1, t) && its[k + 1] == its[1..][k];
      }
    } else if its != [] {
      assert FirstCovering(its, 0, t);
    }
  }

  /** The intake week is the first iteration that contains the creation; without one the field stays. */
  lemma WrittenWeek(f: Fields, i: Issue, staff: set<string>, now: int, schema: Schema)
    ensures forall k :: FirstCovering(schema.iterations, k, i.created) ==>
              Written(f, i, staff, now, schema).intakeWeek == Some(schema.iterations[k].id)
    ensures (forall k :: !FirstCovering(schema.iterations, k, i.created)) ==>
              Written(f, i, staff, now, schema).intakeWeek == f.intakeWeek
  {
    IterationForIs(schema.iterations, i.created);
    forall k | FirstCovering(schema.iterations, k, i.created)
      ensures IterationFor(schema.iterations, i.created) == Some(schema.iterations[k].id)
    {
      var j :| FirstCovering(schema.iterations, j, i.created)
            && IterationFor(schema.iterations, i.created) == Some(schema.iterations[j].id);
      assert j == k;
    }
  }

  /** The comment shows a picture, a video or an uploaded file: one of the tokens stands in it. */
  ghost predicate ShowsMedia(body: string) {
    exists token, i :: IsMediaToken(token) && OccursAt(body, token, i)
  }

  predicate IsMediaToken(token: string) {
    || token == "user-attachments/assets" || token == ".png" || token == ".jpg" || token == ".jpeg"
    || token == ".gif" || token == ".mp4" || token == ".webm" || token == ".mov"
  }

  lemma MediaTokens(token: string)
    ensures token in MEDIA <==> IsMediaToken(token)
  {
    assert "user-attachments" + "/assets" == "user-attachments/assets";
    assert MEDIA[0] == "user-attachments/assets" && MEDIA[1] == ".png" && MEDIA[2] == ".jpg" && MEDIA[3] == ".jpeg";
    assert MEDIA[4] == ".gif" && MEDIA[5] == ".mp4" && MEDIA[6] == ".webm" && MEDIA[7] == ".mov";
  }

  /** A login of a bot ends in "[bot]". */
  predicate BotLogin(login: string) {
    |login| >= 5 && login[|login| - 5] == '[' && login[|login| - 4] == 'b' && login[|login| - 3] == 'o'
    && login[|login| - 2] == 't' && login[|login| - 1] == ']'
  }

  lemma BotLoginIff(login: string)
    ensures BotLogin(login) <==> |login| >= 5 && login[|login| - 5..] == "[bot]"
  {
    if |login| >= 5 {
      var end := login[|login| - 5..];
      assert forall k :: 0 <= k < 5 ==> end[k] == login[|login| - 5 + k];
      if BotLogin(login) {
        assert end == [end[0], end[1], end[2], end[3], end[4]];
      }
    }
  }

  lemma ShowsMediaIff(body: string)
    ensures ShowsMedia(body) <==> exists token :: token in MEDIA && Contains(body, token)
  {
    hide Contains, IsMediaToken, MEDIA;
    forall token ensures token in MEDIA && Contains(body, token) <==> IsMediaToken(token) && exists i :: OccursAt(body, token, i) {
      MediaTokens(token);
      ContainsMeans(body, token);
    }
  }

  lemma ContainsMeans(s: string, part: string)
    ensures Contains(s, part) <==> exists i :: OccursAt(s, part, i)
  {
    FindSpec(s, part, 0);
  }

  /** A substantive comment: by a staff member who is no bot, with at least 50 characters or something to look at. */
  lemma SubstantiveMeans(c: Comment, staff: set<string>)
    ensures IsSubstantive(c, staff) <==>
              && c.login in staff && !c.botAccount && !BotLogin(c.login)
              && (|c.body| >= 50 || ShowsMedia(c.body))
    ensures IsOutside(c, staff) <==> c.login !in staff && !c.botAccount && !BotLogin(c.login)
  {
    BotLoginIff(c.login);
    ShowsMediaIff(c.body);
  }

  /** Pull requests and administrative issues are left alone, everything else gets an entry, and no other entry changes. */
  lemma OnlyTriageItemsAreSynced(items: map<string, Fields>, i: Issue, staff: set<string>, now: int, schema: Schema)
    ensures i.pullRequest || i.kind == "Meta" || i.kind == "Tracking" ==> Synced(items, i, staff, now, schema) == items
    ensures !(i.pullRequest || i.kind == "Meta" || i.kind == "Tracking") ==> i.id in Synced(items, i, staff, now, schema)
    ensures forall id :: id != i.id ==> (id in Synced(items, i, staff, now, schema) <==> id in items)
    ensures forall id :: id != i.id && id in items ==> Synced(items, i, staff, now, schema)[id] == items[id]
  {
  }

  /** A value without an option in the project is not written. */
  lemma MissingOptionsStay(f: Fields, i: Issue, staff: set<string>, now: int, schema: Schema)
    ensures var w := Written(f, i, staff, now, schema);
            && w.status == (if DerivedStatus(i, staff) in schema.statuses then Some(DerivedStatus(i, staff)) else f.status)
            && w.aged == if IssueAged(i, staff, now) in schema.aged then Some(IssueAged(i, staff, now)) else f.aged
  {
  }
}
