/** What the bot's comment says about each match: which text stands under which heading. */
module BotCommentText {
  import opened Basics
  import opened Text
  import opened BotComment
  import opened BotCommentRoundTrip

  /** The pieces that the comment joins by line breaks. */
  function Pieces(likely: seq<Match>, possible: seq<Match>, closed: seq<Match>): seq<string> {
    Spaced(Sections(likely, possible, closed) + [FOOTER])
  }

  /** The block stands somewhere in the pieces, in one run. */
  ghost predicate Shows(pieces: seq<string>, block: seq<string>) {
    exists a, b :: pieces == a + block + b
  }

  /** The block stands in the list under the heading; all pieces of the list are list lines. */
  ghost predicate ShowsUnder(pieces: seq<string>, heading: string, block: seq<string>) {
    exists list :: Shows(pieces, [heading, ""] + list) && Shows(list, block) && forall l :: l in list ==> ListLine(l)
  }

  predicate ListLine(line: string) {
    line != "" && (line[0] == '-' || line[0] == ' ')
  }

  // ----- blocks in blocks

  lemma ShowsItself(x: seq<string>)
    ensures Shows(x, x)
  {
    assert x == [] + x + [];
  }

  lemma ShowsWider(x: seq<string>, a: seq<string>, b: seq<string>, block: seq<string>)
    requires Shows(x, block)
    ensures Shows(a + x + b, block)
  {
    var c, d :| x == c + block + d;
    assert a + x + b == (a + c) + block + (d + b);
  }

  lemma ShowsInside(x: seq<string>, y: seq<string>, block: seq<string>)
    requires Shows(x, y) && Shows(y, block)
    ensures Shows(x, block)
  {
    var a, b :| x == a + y + b;
    ShowsWider(y, a, b, block);
  }

  lemma {:induction false} SpacedShows(blocks: seq<seq<string>>, k: nat)
    requires k < |blocks|
    ensures Shows(Spaced(blocks), blocks[k])
  {
    var n := |blocks| - 1;
    if n == 0 {
      ShowsItself(blocks[0]);
    } else if k == n {
      assert Spaced(blocks) == (Spaced(blocks[..n]) + [""]) + blocks[n] + [];
    } else {
      SpacedShows(blocks[..n], k);
      ShowsWider(Spaced(blocks[..n]), [], [""] + blocks[n], blocks[k]);
      assert [] + Spaced(blocks[..n]) + ([""] + blocks[n]) == Spaced(blocks);
    }
  }

  lemma {:induction false} EachShows(f: Match -> seq<string>, gap: seq<string>, ms: seq<Match>, k: nat)
    requires k < |ms|
    ensures Shows(Each(f, gap, ms), f(ms[k]))
  {
    var n := |ms| - 1;
    if n == 0 {
      ShowsItself(f(ms[0]));
    } else if k == n {
      assert Each(f, gap, ms) == (Each(f, gap, ms[..n]) + gap) + f(ms[n]) + [];
    } else {
      EachShows(f, gap, ms[..n], k);
      ShowsWider(Each(f, gap, ms[..n]), [], gap + f(ms[n]), f(ms[k]));
      assert [] + Each(f, gap, ms[..n]) + (gap + f(ms[n])) == Each(f, gap, ms);
    }
  }

  lemma {:induction false} EachListLines(f: Match -> seq<string>, ms: seq<Match>)
    requires forall m, l :: m in ms && l in f(m) ==> ListLine(l)
    ensures forall l :: l in Each(f, [], ms) ==> ListLine(l)
  {
    if |ms| > 1 {
      EachListLines(f, ms[..|ms| - 1]);
      assert ms[|ms| - 1] in ms;
    } else if ms != [] {
      assert ms[0] in ms;
    }
  }

  lemma {:induction false} OfKindHas(ms: seq<Match>, m: Match) returns (k: nat)
    requires m in ms
    ensures k < |OfKind(ms, m.candidate.kind)| && OfKind(ms, m.candidate.kind)[k] == m
  {
    OfKindMembers(ms, m.candidate.kind);
    assert m in OfKind(ms, m.candidate.kind);
    k :| 0 <= k < |OfKind(ms, m.candidate.kind)| && OfKind(ms, m.candidate.kind)[k] == m;
  }

  // ----- the sections are in the comment

  lemma SectionShown(likely: seq<Match>, possible: seq<Match>, closed: seq<Match>, section: seq<string>)
    requires section in Sections(likely, possible, closed)
    ensures Shows(Pieces(likely, possible, closed), section)
    ensures BuildComment(likely, possible, closed) == Join(Pieces(likely, possible, closed))
  {
    hide Sections, Spaced;
    var sections := Sections(likely, possible, closed);
    var k: int :| 0 <= k < |sections| && sections[k] == section;
    assert (sections + [FOOTER])[k] == section;
    SpacedShows(sections + [FOOTER], k);
  }

  lemma SectionsAre(likely: seq<Match>, possible: seq<Match>, closed: seq<Match>)
    ensures OfKind(likely, Issue) != [] ==> IssueSection(OfKind(likely, Issue)) in Sections(likely, possible, closed)
    ensures OfKind(likely, Discussion) != [] ==> DiscussionSection(OfKind(likely, Discussion)) in Sections(likely, possible, closed)
    ensures possible != [] || closed != [] ==> TriageSection(possible, closed) in Sections(likely, possible, closed)
  {
    hide IssueSection, DiscussionSection, TriageSection;
    var a: seq<seq<string>> := if OfKind(likely, Issue) == [] then [] else [IssueSection(OfKind(likely, Issue))];
    var b: seq<seq<string>> := if OfKind(likely, Discussion) == [] then [] else [DiscussionSection(OfKind(likely, Discussion))];
    var c: seq<seq<string>> := if possible == [] && closed == [] then [] else [TriageSection(possible, closed)];
    assert Sections(likely, possible, closed) == a + b + c;
    assert a != [] ==> a[0] in a + b + c;
    assert b != [] ==> b[0] in a + b + c;
    assert c != [] ==> c[0] in a + b + c;
  }

  /** A list right under its heading, with list lines only. */
  lemma ListShown(x: seq<string>, heading: string, f: Match -> seq<string>, ms: seq<Match>, k: nat)
    requires Shows(x, [heading, ""] + Each(f, [], ms)) && k < |ms|
    requires forall m, l :: m in ms && l in f(m) ==> ListLine(l)
    ensures ShowsUnder(x, heading, f(ms[k]))
  {
    EachShows(f, [], ms, k);
    EachListLines(f, ms);
  }

  // ----- likely matches

  lemma IssueSectionParts(ms: seq<Match>)
    ensures Shows(IssueSection(ms), [ISSUE_MARKER + ":", ""] + Each(Bullet, [], ms))
    ensures Shows(IssueSection(ms), Each(IssueReason, [""], ms))
  {
    var head, bullets, reasons := [ISSUE_MARKER + ":", ""], Each(Bullet, [], ms), Each(IssueReason, [""], ms);
    ThreeParts(head + bullets, ISSUE_ADVICE, reasons, END_DETAILS);
  }

  lemma DiscussionSectionParts(ms: seq<Match>)
    ensures Shows(DiscussionSection(ms), [DISCUSSION_MARKER + ":", ""] + Each(Bullet, [], ms))
    ensures Shows(DiscussionSection(ms), Each(DiscussionReason, [""], ms))
  {
    var head, bullets, reasons := [DISCUSSION_MARKER + ":", ""], Each(Bullet, [], ms), Each(DiscussionReason, [""], ms);
    ThreeParts(head + bullets, DISCUSSION_ADVICE, reasons, END_DETAILS);
  }

  lemma ThreeParts(front: seq<string>, mid: seq<string>, reasons: seq<string>, end: seq<string>)
    ensures Shows(front + mid + reasons + end, front) && Shows(front + mid + reasons + end, reasons)
  {
    assert front + mid + reasons + end == [] + front + (mid + reasons + end);
    assert front + mid + reasons + end == (front + mid) + reasons + end;
  }

  lemma BulletsAreListLines(ms: seq<Match>)
    ensures forall m, l :: m in ms && l in Bullet(m) ==> ListLine(l)
  {
  }

  /** A likely issue is listed as a duplicate, and its explanation and root cause stand under their own labels. */
  lemma LikelyIssueShown(likely: seq<Match>, possible: seq<Match>, closed: seq<Match>, m: Match)
    requires m in likely && m.candidate.kind == Issue
    ensures var pieces, ref := Pieces(likely, possible, closed), "#" + Digits(m.candidate.number);
            && ShowsUnder(pieces, "This issue appears to be a duplicate of:", ["- " + ref])
            && Shows(pieces, ["**" + ref + ":** " + m.explanation, "", "**Shared root cause:** " + m.rootCause])
  {
    hide IssueSection, Pieces, Sections;
    var k := OfKindHas(likely, m);
    var ms, pieces := OfKind(likely, Issue), Pieces(likely, possible, closed);
    SectionsAre(likely, possible, closed);
    SectionShown(likely, possible, closed, IssueSection(ms));
    IssueSectionParts(ms);
    BulletsAreListLines(ms);
    ShowsInside(pieces, IssueSection(ms), [ISSUE_MARKER + ":", ""] + Each(Bullet, [], ms));
    ListShown(pieces, ISSUE_MARKER + ":", Bullet, ms, k);
    ShowsInside(pieces, IssueSection(ms), Each(IssueReason, [""], ms));
    EachShows(IssueReason, [""], ms, k);
    ShowsInside(pieces, Each(IssueReason, [""], ms), IssueReason(m));
    MarkerTexts();
  }

  lemma MarkerTexts()
    ensures ISSUE_MARKER + ":" == "This issue appears to be a duplicate of:"
  {
  }

  lemma DiscussionMarkerText()
    ensures DISCUSSION_MARKER + ":" == "This looks like it " + "may already be covered " + "by an existing discussion:"
  {
    assert "by an existing discussion" + ":" == "by an existing discussion:";
    Assoc3("This looks like it ", "may already be covered ", "by an existing discussion", ":");
  }

  lemma Assoc3(a: string, b: string, c: string, d: string)
    ensures a + b + c + d == a + b + (c + d)
  {
  }

  /** A likely discussion is listed as covering the report, with its link, and its explanation stands under it. */
  lemma LikelyDiscussionShown(likely: seq<Match>, possible: seq<Match>, closed: seq<Match>, m: Match)
    requires m in likely && m.candidate.kind == Discussion
    ensures var pieces := Pieces(likely, possible, closed);
            var ref := "[Discussion #" + Digits(m.candidate.number) + "](" + m.candidate.url + ")";
            && ShowsUnder(pieces, "This looks like it " + "may already be covered " + "by an existing discussion:", ["- " + ref])
            && Shows(pieces, ["**" + ref + ":** " + m.explanation])
  {
    hide DiscussionSection, Pieces, Sections;
    var k := OfKindHas(likely, m);
    var ms, pieces := OfKind(likely, Discussion), Pieces(likely, possible, closed);
    SectionsAre(likely, possible, closed);
    SectionShown(likely, possible, closed, DiscussionSection(ms));
    DiscussionSectionParts(ms);
    BulletsAreListLines(ms);
    ShowsInside(pieces, DiscussionSection(ms), [DISCUSSION_MARKER + ":", ""] + Each(Bullet, [], ms));
    ListShown(pieces, DISCUSSION_MARKER + ":", Bullet, ms, k);
    ShowsInside(pieces, DiscussionSection(ms), Each(DiscussionReason, [""], ms));
    EachShows(DiscussionReason, [""], ms, k);
    ShowsInside(pieces, Each(DiscussionReason, [""], ms), DiscussionReason(m));
    DiscussionMarkerText();
  }

  // ----- the triage section

  lemma TriageShown(likely: seq<Match>, possible: seq<Match>, closed: seq<Match>, part: seq<string>)
    requires (possible != [] || closed != []) && part in TriageParts(possible, closed)
    ensures Shows(Pieces(likely, possible, closed), part)
  {
    hide TriageParts, Pieces, Sections, Spaced;
    var parts, pieces := TriageParts(possible, closed), Pieces(likely, possible, closed);
    SectionsAre(likely, possible, closed);
    SectionShown(likely, possible, closed, TriageSection(possible, closed));
    var k: int :| 0 <= k < |parts| && parts[k] == part;
    SpacedShows(parts, k);
    var head := ["<details>", "<summary>" + TRIAGE_MARKER + "</summary>", ""];
    assert TriageSection(possible, closed) == head + Spaced(parts) + END_DETAILS;
    ShowsInside(pieces, TriageSection(possible, closed), Spaced(parts));
    ShowsInside(pieces, Spaced(parts), part);
  }

  lemma TriageMarkerText()
    ensures "<summary>" + TRIAGE_MARKER + "</summary>" == "<summary>" + "Additional recent context for triagers" + "</summary>"
  {
    assert TRIAGE_MARKER == "Additional recent context for triagers";
  }

  /** Whatever is not for the reporter is folded away under a summary line for triagers. */
  lemma TriageIsFolded(likely: seq<Match>, possible: seq<Match>, closed: seq<Match>)
    requires possible != [] || closed != []
    ensures Shows(Pieces(likely, possible, closed),
                  ["<details>", "<summary>" + "Additional recent context for triagers" + "</summary>", ""])
  {
    hide TriageParts, Pieces, Sections, Spaced;
    SectionsAre(likely, possible, closed);
    var section, rest := TriageSection(possible, closed), Spaced(TriageParts(possible, closed)) + END_DETAILS;
    SectionShown(likely, possible, closed, section);
    TriageMarkerText();
    var head := ["<details>", "<summary>" + "Additional recent context for triagers" + "</summary>", ""];
    assert section == [] + head + rest;
    ShowsInside(Pieces(likely, possible, closed), section, head);
  }

  lemma PartIs(x: seq<seq<string>>, y: seq<seq<string>>, z: seq<seq<string>>, heading: string, lines: seq<string>)
    requires lines != []
    ensures x == Part(heading, lines) || y == Part(heading, lines) || z == Part(heading, lines) ==>
              [heading, ""] + lines in x + y + z
  {
    var part := [heading, ""] + lines;
    assert Part(heading, lines) == [part];
    if x == [part] {
      assert (x + y + z)[0] == part;
    } else if y == [part] {
      assert (x + y + z)[|x|] == part;
    } else if z == [part] {
      assert (x + y + z)[|x + y|] == part;
    }
  }

  const OPEN_ISSUES := "**Possibly related open issues:**"
  const CLOSED_ISSUES := "**Recently closed, " + "possibly the same bug:**"
  const DISCUSSIONS := "**Possibly related discussions:**"

  /** The three lists of the triage section, each with its heading if it has lines. */
  lemma ThreeLists(possible: seq<Match>, closed: seq<Match>, heading: string, lines: seq<string>)
    requires lines != []
    requires || (heading == OPEN_ISSUES && lines == Each(PossibleIssue, [], OfKind(possible, Issue)))
             || (heading == CLOSED_ISSUES && lines == Each(ClosedIssue, [], closed))
             || (heading == DISCUSSIONS && lines == Each(PossibleDiscussion, [], OfKind(possible, Discussion)))
    ensures [heading, ""] + lines in TriageParts(possible, closed)
  {
    hide Part, Each, OfKind;
    PartIs(Part(OPEN_ISSUES, Each(PossibleIssue, [], OfKind(possible, Issue))),
           Part(CLOSED_ISSUES, Each(ClosedIssue, [], closed)),
           Part(DISCUSSIONS, Each(PossibleDiscussion, [], OfKind(possible, Discussion))), heading, lines);
  }

  lemma {:induction false} EachSome(f: Match -> seq<string>, ms: seq<Match>)
    requires ms != [] && forall m :: f(m) != []
    ensures Each(f, [], ms) != []
  {
  }

  /** A line of a triage list stands under the heading of its list. */
  lemma TriageListShown(likely: seq<Match>, possible: seq<Match>, closed: seq<Match>, heading: string,
                        f: Match -> seq<string>, ms: seq<Match>, k: nat)
    requires k < |ms| && (possible != [] || closed != [])
    requires forall m :: f(m) != [] && forall l :: l in f(m) ==> ListLine(l)
    requires [heading, ""] + Each(f, [], ms) in TriageParts(possible, closed)
    ensures ShowsUnder(Pieces(likely, possible, closed), heading, f(ms[k]))
  {
    hide Pieces, TriageParts, Each;
    TriageShown(likely, possible, closed, [heading, ""] + Each(f, [], ms));
    ListShown(Pieces(likely, possible, closed), heading, f, ms, k);
  }

  lemma PossibleIssueText(m: Match)
    requires m.candidate.kind == Issue
    ensures PossibleIssue(m) == ["- #" + Digits(m.candidate.number) + " — " + m.explanation,
                                 "  - Possible shared root cause: " + m.rootCause]
  {
    assert "- " + ("#" + Digits(m.candidate.number)) == "- #" + Digits(m.candidate.number);
  }

  lemma ClosedIssueText(m: Match)
    requires m.candidate.kind == Issue
    ensures ClosedIssue(m) == ["- #" + Digits(m.candidate.number) +
                               (if m.candidate.closedAsDuplicate then " (closed as duplicate)" else "") + " — " + m.explanation]
  {
    assert "- " + ("#" + Digits(m.candidate.number)) == "- #" + Digits(m.candidate.number);
  }

  lemma PossibleDiscussionText(m: Match)
    requires m.candidate.kind == Discussion
    ensures PossibleDiscussion(m)
         == ["- [Discussion #" + Digits(m.candidate.number) + "](" + m.candidate.url + ")" + " — " + m.explanation]
  {
    var a, b, c, d := "- ", "[Discussion #", Digits(m.candidate.number), "](";
    assert a + (b + c + d + m.candidate.url + ")") == (a + b) + c + d + m.candidate.url + ")";
    assert a + b == "- [Discussion #";
  }

  lemma LinesAreListLines()
    ensures forall m :: PossibleIssue(m) != [] && forall l :: l in PossibleIssue(m) ==> ListLine(l)
    ensures forall m :: ClosedIssue(m) != [] && forall l :: l in ClosedIssue(m) ==> ListLine(l)
    ensures forall m :: PossibleDiscussion(m) != [] && forall l :: l in PossibleDiscussion(m) ==> ListLine(l)
  {
  }

  /** A possible issue stands among the open issues, with its root cause on the line below. */
  lemma PossibleIssueShown(likely: seq<Match>, possible: seq<Match>, closed: seq<Match>, m: Match)
    requires m in possible && m.candidate.kind == Issue
    ensures ShowsUnder(Pieces(likely, possible, closed), "**Possibly related open issues:**",
                       ["- #" + Digits(m.candidate.number) + " — " + m.explanation,
                        "  - Possible shared root cause: " + m.rootCause])
  {
    hide Pieces, ShowsUnder, OfKind, Each, TriageParts, Reference;
    var k := OfKindHas(possible, m);
    var ms := OfKind(possible, Issue);
    LinesAreListLines();
    EachSome(PossibleIssue, ms);
    ThreeLists(possible, closed, OPEN_ISSUES, Each(PossibleIssue, [], ms));
    TriageListShown(likely, possible, closed, OPEN_ISSUES, PossibleIssue, ms, k);
    PossibleIssueText(m);
  }

  /** A closed issue stands among the recently closed ones, marked if it was closed as a duplicate. */
  lemma ClosedIssueShown(likely: seq<Match>, possible: seq<Match>, closed: seq<Match>, m: Match)
    requires m in closed && m.candidate.kind == Issue
    ensures ShowsUnder(Pieces(likely, possible, closed), "**Recently closed, " + "possibly the same bug:**",
                       ["- #" + Digits(m.candidate.number) +
                        (if m.candidate.closedAsDuplicate then " (closed as duplicate)" else "") + " — " + m.explanation])
  {
    hide Pieces, ShowsUnder, OfKind, Each, TriageParts, Reference;
    var k: int :| 0 <= k < |closed| && closed[k] == m;
    LinesAreListLines();
    EachSome(ClosedIssue, closed);
    ThreeLists(possible, closed, CLOSED_ISSUES, Each(ClosedIssue, [], closed));
    TriageListShown(likely, possible, closed, CLOSED_ISSUES, ClosedIssue, closed, k);
    ClosedIssueText(m);
  }

  /** A possible discussion stands among the discussions, with its link. */
  lemma PossibleDiscussionShown(likely: seq<Match>, possible: seq<Match>, closed: seq<Match>, m: Match)
    requires m in possible && m.candidate.kind == Discussion
    ensures ShowsUnder(Pieces(likely, possible, closed), "**Possibly related discussions:**",
                       ["- [Discussion #" + Digits(m.candidate.number) + "](" + m.candidate.url + ")" + " — " + m.explanation])
  {
    hide Pieces, ShowsUnder, OfKind, Each, TriageParts, Reference;
    var k := OfKindHas(possible, m);
    var ms := OfKind(possible, Discussion);
    LinesAreListLines();
    EachSome(PossibleDiscussion, ms);
    ThreeLists(possible, closed, DISCUSSIONS, Each(PossibleDiscussion, [], ms));
    TriageListShown(likely, possible, closed, DISCUSSIONS, PossibleDiscussion, ms, k);
    PossibleDiscussionText(m);
  }
}
