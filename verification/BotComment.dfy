/** The duplicate bot's comment: what one script posts and what the other script reads back out of it. */
module BotComment {
  import opened Basics
  import opened Text

  datatype Kind = Issue | Discussion

  datatype Candidate = Candidate(kind: Kind, number: nat, url: string, closedAsDuplicate: bool)

  /** A match that survived; only matches with issues carry a root cause. */
  datatype Match = Match(candidate: Candidate, explanation: string, rootCause: string)

  const ISSUE_MARKER := "This issue appears " + "to be a duplicate of"
  const DISCUSSION_MARKER := "This looks like it " + "may already be covered " + "by an existing discussion"
  const TRIAGE_MARKER := "Additional recent " + "context for triagers"

  // ----- writing

  function OfKind(ms: seq<Match>, kind: Kind): seq<Match> {
    if ms == [] then []
    else
      var last := ms[|ms| - 1];
      OfKind(ms[..|ms| - 1], kind) + if last.candidate.kind == kind then [last] else []
  }

  function Reference(c: Candidate): string {
    match c.kind
    case Issue => "#" + Digits(c.number)
    case Discussion => "[Discussion #" + Digits(c.number) + "](" + c.url + ")"
  }

  /** The lines that `f` makes of each match, separated by `gap`. */
  function Each(f: Match -> seq<string>, gap: seq<string>, ms: seq<Match>): seq<string> {
    if ms == [] then []
    else if |ms| == 1 then f(ms[0])
    else Each(f, gap, ms[..|ms| - 1]) + gap + f(ms[|ms| - 1])
  }

  function Bullet(m: Match): seq<string> {
    ["- " + Reference(m.candidate)]
  }

  function IssueReason(m: Match): seq<string> {
    ["**" + Reference(m.candidate) + ":** " + m.explanation, "", "**Shared root cause:** " + m.rootCause]
  }

  function DiscussionReason(m: Match): seq<string> {
    ["**" + Reference(m.candidate) + ":** " + m.explanation]
  }

  function PossibleIssue(m: Match): seq<string> {
    ["- " + Reference(m.candidate) + " — " + m.explanation, "  - Possible shared root cause: " + m.rootCause]
  }

  function PossibleDiscussion(m: Match): seq<string> {
    ["- " + Reference(m.candidate) + " — " + m.explanation]
  }

  function ClosedIssue(m: Match): seq<string> {
    ["- " + Reference(m.candidate) + (if m.candidate.closedAsDuplicate then " (closed as duplicate)" else "") + " — " + m.explanation]
  }

  const CLOSE_AS_DUPLICATE :=
    "Please close this issue and " + "subscribe to the linked issue " + "for updates (select \"Close as " +
    "not planned\" → \"Duplicate\")"

  const NO_ACTION := "No action needed. A maintainer " + "will review this shortly."

  const ZED_TRACKS :=
    "Zed tracks feature requests " + "and open-ended topics in " + "Discussions rather than Issues. " +
    "**If your report is covered "
  const PLEASE_CLOSE :=
    "there, please close this issue " + "as a duplicate (select \"Close " + "as not planned\" → \"Duplicate\") "
  const CONTINUE_THERE := "and continue in the discussion** " + "so the conversation stays " + "in one place."
  const COVERED_THERE := ZED_TRACKS + PLEASE_CLOSE + CONTINUE_THERE

  const ISSUE_ADVICE: seq<string> :=
    [ "", "**If this is indeed a duplicate:**", CLOSE_AS_DUPLICATE, "", "**If this is a different issue:**", NO_ACTION,
      "", "<details>", "<summary>Why were these " + "issues selected?</summary>", "" ]

  const DISCUSSION_ADVICE: seq<string> :=
    [ "", COVERED_THERE, "", "<details>", "<summary>Why were these " + "selected?</summary>", "" ]

  const END_DETAILS: seq<string> := ["", "</details>"]

  function IssueSection(ms: seq<Match>): seq<string> {
    [ISSUE_MARKER + ":", ""] + Each(Bullet, [], ms) + ISSUE_ADVICE + Each(IssueReason, [""], ms) + END_DETAILS
  }

  function DiscussionSection(ms: seq<Match>): seq<string> {
    [DISCUSSION_MARKER + ":", ""] + Each(Bullet, [], ms) + DISCUSSION_ADVICE + Each(DiscussionReason, [""], ms) + END_DETAILS
  }

  /** A heading with its lines, or nothing when there are none. */
  function Part(heading: string, lines: seq<string>): seq<seq<string>> {
    if lines == [] then [] else [[heading, ""] + lines]
  }

  /** Blocks of lines with an empty line between them. */
  function Spaced(blocks: seq<seq<string>>): seq<string> {
    if blocks == [] then []
    else if |blocks| == 1 then blocks[0]
    else Spaced(blocks[..|blocks| - 1]) + [""] + blocks[|blocks| - 1]
  }

  function TriageParts(possible: seq<Match>, closed: seq<Match>): seq<seq<string>> {
    Part("**Possibly related open issues:**", Each(PossibleIssue, [], OfKind(possible, Issue))) +
    Part("**Recently closed, " + "possibly the same bug:**", Each(ClosedIssue, [], closed)) +
    Part("**Possibly related discussions:**", Each(PossibleDiscussion, [], OfKind(possible, Discussion)))
  }

  function TriageSection(possible: seq<Match>, closed: seq<Match>): seq<string> {
    ["<details>", "<summary>" + TRIAGE_MARKER + "</summary>", ""] + Spaced(TriageParts(possible, closed)) + END_DETAILS
  }

  const FOOTER := ["---", "<sub>" + ("This is an automated " + "analysis and might be " + "incorrect.</sub>")]

  function Sections(likely: seq<Match>, possible: seq<Match>, closed: seq<Match>): seq<seq<string>> {
    var issues, discussions := OfKind(likely, Issue), OfKind(likely, Discussion);
    (if issues == [] then [] else [IssueSection(issues)]) +
    (if discussions == [] then [] else [DiscussionSection(discussions)]) +
    (if possible == [] && closed == [] then [] else [TriageSection(possible, closed)])
  }

  /** build_comment. */
  function BuildComment(likely: seq<Match>, possible: seq<Match>, closed: seq<Match>): string {
    var sections := Sections(likely, possible, closed);
    if sections == [] then "" else Join(Spaced(sections + [FOOTER]))
  }

  // ----- reading

  function DigitPrefix(s: string): string {
    if s == [] || !IsDigit(s[0]) then [] else [s[0]] + DigitPrefix(s[1..])
  }

  /** The match of `^- #(\d+)` on one line. */
  function LineNumber(line: string): seq<nat> {
    if |line| > 3 && line[0] == '-' && line[1] == ' ' && line[2] == '#' && IsDigit(line[3]) then
      [NatOf(DigitPrefix(line[3..]))]
    else []
  }

  /** `[y for x in xs for y in f(x)]`. */
  function Collect(f: string -> seq<nat>, xs: seq<string>): seq<nat> {
    if xs == [] then [] else Collect(f, xs[..|xs| - 1]) + f(xs[|xs| - 1])
  }

  /** parse_suggested_issues: a match can only start at the start of a line, and cannot leave it. */
  function SuggestedIssues(body: string): seq<nat> {
    Collect(LineNumber, Split(body))
  }

  predicate HasUserFacingAlert(body: string) {
    Contains(body, ISSUE_MARKER) || Contains(body, DISCUSSION_MARKER)
  }

  predicate IsBotComment(body: string) {
    HasUserFacingAlert(body) || Contains(body, TRIAGE_MARKER)
  }
}
