/** Which comments count as user-facing alerts and which as comments of the bot at all. */
module BotCommentMarkers {
  import opened Basics
  import opened Text
  import opened BotComment
  import opened BotCommentRoundTrip

  lemma ContainsIff(s: string, part: string)
    ensures Contains(s, part) <==> exists i :: OccursAt(s, part, i)
  {
    FindSpec(s, part, 0);
  }

  /** A character that `part` lacks separates: an occurrence is on one side of it. */
  lemma ContainsAcross(a: string, c: char, b: string, part: string)
    requires part != [] && c !in part
    ensures Contains(a + ([c] + b), part) <==> Contains(a, part) || Contains(b, part)
  {
    var s := a + ([c] + b);
    ContainsIff(s, part);
    ContainsIff(a, part);
    ContainsIff(b, part);
    forall i | OccursAt(a, part, i) ensures OccursAt(s, part, i) {
      OccursLeft(a, [c] + b, part, i);
    }
    forall i | OccursAt(b, part, i) ensures OccursAt(s, part, |a| + 1 + i) {
      OccursRight(a + [c], b, part, i);
      assert a + [c] + b == s;
    }
    forall i | OccursAt(s, part, i) ensures OccursAt(a, part, i) || OccursAt(b, part, i - |a| - 1) {
      OnOneSide(a, c, b, part, i);
    }
  }

  lemma OccursLeft(a: string, b: string, part: string, i: int)
    ensures OccursAt(a, part, i) ==> OccursAt(a + b, part, i)
    ensures i + |part| <= |a| && OccursAt(a + b, part, i) ==> OccursAt(a, part, i)
  {
    if 0 <= i && i + |part| <= |a| {
      assert (a + b)[i..i + |part|] == a[i..i + |part|];
    }
  }

  lemma OccursRight(a: string, b: string, part: string, i: int)
    requires i >= 0
    ensures OccursAt(b, part, i) <==> OccursAt(a + b, part, |a| + i)
  {
    if i + |part| <= |b| {
      assert (a + b)[|a| + i..|a| + i + |part|] == b[i..i + |part|];
    }
  }

  lemma OnOneSide(a: string, c: char, b: string, part: string, i: int)
    requires part != [] && c !in part && OccursAt(a + ([c] + b), part, i)
    ensures OccursAt(a, part, i) || OccursAt(b, part, i - |a| - 1)
  {
    if i + |part| <= |a| {
      OccursLeft(a, [c] + b, part, i);
    } else if i > |a| {
      OccursRight(a + [c], b, part, i - |a| - 1);
      assert a + [c] + b == a + ([c] + b);
    } else {
      OccursSpans(a + ([c] + b), part, i, |a|);
    }
  }

  lemma OccursSpans(s: string, part: string, i: int, k: int)
    requires OccursAt(s, part, i) && i <= k < i + |part|
    ensures s[k] in part
  {
    assert s[k] == s[i..i + |part|][k - i];
  }

  lemma ContainsAfter(pre: string, s: string, part: string)
    requires part != [] && part[0] !in pre
    ensures Contains(pre + s, part) <==> Contains(s, part)
  {
    FindAfter(pre, s, part);
  }

  ghost predicate SomeContains(chunks: seq<string>, part: string) {
    exists k :: 0 <= k < |chunks| && Contains(chunks[k], part)
  }

  lemma SomeContainsConcat(xs: seq<string>, ys: seq<string>, part: string)
    ensures SomeContains(xs + ys, part) <==> SomeContains(xs, part) || SomeContains(ys, part)
  {
    var all := xs + ys;
    if k :| 0 <= k < |xs| && Contains(xs[k], part) {
      assert all[k] == xs[k];
    }
    if k :| 0 <= k < |ys| && Contains(ys[k], part) {
      assert all[|xs| + k] == ys[k];
    }
    if k :| 0 <= k < |all| && Contains(all[k], part) {
      if k < |xs| {
        assert xs[k] == all[k];
      } else {
        assert ys[k - |xs|] == all[k];
      }
    }
  }

  lemma {:induction false} ContainsJoin(chunks: seq<string>, part: string)
    requires chunks != [] && part != [] && '\n' !in part
    ensures Contains(Join(chunks), part) <==> SomeContains(chunks, part)
  {
    if |chunks| == 1 {
    } else {
      var rest := chunks[1..];
      ContainsJoin(rest, part);
      ContainsAcross(chunks[0], '\n', Join(rest), part);
      assert Join(chunks) == chunks[0] + (['\n'] + Join(rest));
      SomeContainsConcat([chunks[0]], rest, part);
      assert chunks == [chunks[0]] + rest;
      SomeContainsOne(chunks[0], part);
    }
  }

  lemma SomeContainsOne(chunk: string, part: string)
    ensures SomeContains([chunk], part) <==> Contains(chunk, part)
  {
    assert [chunk][0] == chunk;
  }

  /** A user-facing marker: it starts with "T" and has neither a closing parenthesis nor a line break. */
  predicate Marker(mark: string) {
    mark != [] && mark[0] == 'T' && ')' !in mark && '\n' !in mark
  }

  lemma MarkersAreMarkers()
    ensures Marker(ISSUE_MARKER) && Marker(DISCUSSION_MARKER)
  {
    OneLineMarkers();
    assert ')' !in "This issue appears " && ')' !in "to be a duplicate of" && ')' !in "This looks like it ";
    assert ')' !in "may already be covered " && ')' !in "by an existing discussion";
  }

  /** A free text that appears in the triage section because of `m` contains the marker. */
  predicate TextHas(m: Match, withCause: bool, mark: string) {
    || (m.candidate.kind == Discussion && Contains(m.candidate.url, mark))
    || Contains(m.explanation, mark)
    || (withCause && Contains(m.rootCause, mark))
  }

  lemma DigitsHaveNoT(n: nat)
    ensures 'T' !in Digits(n)
  {
    assert !IsDigit('T');
  }

  /** "- reference" + mid + explanation, where `mid` has no "T". */
  lemma ListLineHas(m: Match, mid: string, mark: string)
    requires Marker(mark) && 'T' !in mid
    ensures Contains("- " + Reference(m.candidate) + mid + m.explanation, mark) <==> TextHas(m, false, mark)
  {
    hide Find, Digits;
    var c, text := m.candidate, m.explanation;
    var line := "- " + Reference(c) + mid + text;
    DigitsHaveNoT(c.number);
    match c.kind
    case Issue =>
      ContainsAfter("- #" + Digits(c.number) + mid, text, mark);
      assert line == "- #" + Digits(c.number) + mid + text;
    case Discussion =>
      var pre := "- [Discussion #" + Digits(c.number) + "](";
      assert line == pre + (c.url + ([')'] + (mid + text)));
      ContainsAfter(pre, c.url + ([')'] + (mid + text)), mark);
      ContainsAcross(c.url, ')', mid + text, mark);
      ContainsAfter(mid, text, mark);
  }

  lemma PossibleDiscussionHas(m: Match, mark: string)
    requires Marker(mark)
    ensures SomeContains(PossibleDiscussion(m), mark) <==> TextHas(m, false, mark)
  {
    ListLineHas(m, " — ", mark);
    SomeContainsOne(PossibleDiscussion(m)[0], mark);
  }

  lemma PossibleIssueHas(m: Match, mark: string)
    requires Marker(mark)
    ensures SomeContains(PossibleIssue(m), mark) <==> TextHas(m, true, mark)
  {
    PossibleDiscussionHas(m, mark);
    var cause := "  - Possible shared root cause: " + m.rootCause;
    ContainsAfter("  - Possible shared root cause: ", m.rootCause, mark);
    SomeContainsOne(cause, mark);
    SomeContainsConcat(PossibleDiscussion(m), [cause], mark);
    assert PossibleIssue(m) == PossibleDiscussion(m) + [cause];
  }

  lemma ClosedIssueHas(m: Match, mark: string)
    requires Marker(mark)
    ensures SomeContains(ClosedIssue(m), mark) <==> TextHas(m, false, mark)
  {
    var mid := (if m.candidate.closedAsDuplicate then " (closed as duplicate)" else "") + " — ";
    ListLineHas(m, mid, mark);
    var line := ClosedIssue(m)[0];
    assert line == "- " + Reference(m.candidate) + mid + m.explanation;
    SomeContainsOne(line, mark);
  }

  ghost predicate SomeMatchHas(ms: seq<Match>, withCause: bool, mark: string) {
    exists m :: m in ms && TextHas(m, withCause, mark)
  }

  lemma {:induction false} EachHas(f: Match -> seq<string>, ms: seq<Match>, withCause: bool, mark: string)
    requires forall m :: m in ms ==> (SomeContains(f(m), mark) <==> TextHas(m, withCause, mark))
    ensures SomeContains(Each(f, [], ms), mark) <==> SomeMatchHas(ms, withCause, mark)
  {
    hide Contains, TextHas;
    if ms != [] {
      var init, last := ms[..|ms| - 1], ms[|ms| - 1];
      EachHas(f, init, withCause, mark);
      SomeContainsConcat(Each(f, [], init), f(last), mark);
      assert ms == init + [last];
      assert Each(f, [], ms) == Each(f, [], init) + f(last);
    }
  }

  lemma {:induction false} NoneContains(lines: seq<string>, mark: string)
    requires Marker(mark) && forall l :: l in lines ==> 'T' !in l
    ensures !SomeContains(lines, mark)
  {
    forall k | 0 <= k < |lines| ensures !Contains(lines[k], mark) {
      FindNone(lines[k], mark);
    }
  }

  lemma PartHas(heading: string, lines: seq<string>, mark: string)
    requires Marker(mark) && 'T' !in heading
    ensures SomeContains(Spaced(Part(heading, lines)), mark) <==> SomeContains(lines, mark)
  {
    if lines != [] {
      NoneContains([heading, ""], mark);
      SomeContainsConcat([heading, ""], lines, mark);
    }
  }

  lemma SpacedHas(xs: seq<seq<string>>, ys: seq<seq<string>>, mark: string)
    requires Marker(mark) && |ys| <= 1
    ensures SomeContains(Spaced(xs + ys), mark) <==> SomeContains(Spaced(xs), mark) || SomeContains(Spaced(ys), mark)
  {
    if ys == [] {
      assert xs + ys == xs;
    } else if xs == [] {
      assert xs + ys == ys;
    } else {
      assert (xs + ys)[..|xs + ys| - 1] == xs;
      NoneContains([""], mark);
      SomeContainsConcat(Spaced(xs), [""], mark);
      SomeContainsConcat(Spaced(xs) + [""], ys[0], mark);
    }
  }

  /** A free text of the triage section contains the marker. */
  ghost predicate TriageTextHas(possible: seq<Match>, closed: seq<Match>, mark: string) {
    || SomeMatchHas(OfKind(possible, Issue), true, mark)
    || SomeMatchHas(OfKind(possible, Discussion), false, mark)
    || SomeMatchHas(closed, false, mark)
  }

  lemma TriagePartsHave(possible: seq<Match>, closed: seq<Match>, mark: string)
    requires Marker(mark)
    ensures SomeContains(Spaced(TriageParts(possible, closed)), mark) <==> TriageTextHas(possible, closed, mark)
  {
    var issues, discussions := OfKind(possible, Issue), OfKind(possible, Discussion);
    var h1, h2, h3 := "**Possibly related open issues:**", "**Recently closed, " + "possibly the same bug:**", "**Possibly related discussions:**";
    var l1, l2, l3 := Each(PossibleIssue, [], issues), Each(ClosedIssue, [], closed), Each(PossibleDiscussion, [], discussions);
    forall m | m in issues ensures SomeContains(PossibleIssue(m), mark) <==> TextHas(m, true, mark) {
      PossibleIssueHas(m, mark);
    }
    EachHas(PossibleIssue, issues, true, mark);
    forall m | m in closed ensures SomeContains(ClosedIssue(m), mark) <==> TextHas(m, false, mark) {
      ClosedIssueHas(m, mark);
    }
    EachHas(ClosedIssue, closed, false, mark);
    forall m | m in discussions ensures SomeContains(PossibleDiscussion(m), mark) <==> TextHas(m, false, mark) {
      PossibleDiscussionHas(m, mark);
    }
    EachHas(PossibleDiscussion, discussions, false, mark);
    HeadingsHaveNoT(h1, h2, h3);
    PartHas(h1, l1, mark);
    PartHas(h2, l2, mark);
    PartHas(h3, l3, mark);
    SpacedHas(Part(h1, l1), Part(h2, l2), mark);
    SpacedHas(Part(h1, l1) + Part(h2, l2), Part(h3, l3), mark);
  }

  lemma HeadingsHaveNoT(h1: string, h2: string, h3: string)
    requires h1 == "**Possibly related open issues:**" && h2 == "**Recently closed, " + "possibly the same bug:**"
    requires h3 == "**Possibly related discussions:**"
    ensures 'T' !in h1 && 'T' !in h2 && 'T' !in h3
  {
    assert 'T' !in "**Recently closed, " && 'T' !in "possibly the same bug:**";
  }

  lemma FrameHasNoT()
    ensures 'T' !in "<summary>" + TRIAGE_MARKER + "</summary>" && forall l :: l in END_DETAILS ==> 'T' !in l
  {
    assert 'T' !in "Additional recent " && 'T' !in "context for triagers" && 'T' !in "<summary>" && 'T' !in "</summary>";
  }

  lemma TriageSectionHas(possible: seq<Match>, closed: seq<Match>, mark: string)
    requires Marker(mark)
    ensures SomeContains(TriageSection(possible, closed), mark) <==> TriageTextHas(possible, closed, mark)
  {
    TriagePartsHave(possible, closed, mark);
    FrameHasNoT();
    var head := ["<details>", "<summary>" + TRIAGE_MARKER + "</summary>", ""];
    var body := Spaced(TriageParts(possible, closed));
    NoneContains(head, mark);
    NoneContains(END_DETAILS, mark);
    SomeContainsConcat(head, body, mark);
    SomeContainsConcat(head + body, END_DETAILS, mark);
  }

  /** A text whose only "T" is its first character, and which differs from the marker soon after it. */
  lemma OnlyFirstT(rest: string, mark: string, k: nat)
    requires Marker(mark) && 'T' !in rest && 0 < k < |mark| && k - 1 < |rest| && rest[k - 1] != mark[k]
    ensures !Contains(['T'] + rest, mark)
  {
    var text := ['T'] + rest;
    assert text[k] != mark[k];
    FindSkip('T', rest, mark);
    FindNone(rest, mark);
  }

  const FOOTER_REST := "his is an automated " + ("analysis and might be " + "incorrect.</sub>")

  lemma FooterRest()
    ensures 'T' !in FOOTER_REST && FOOTER[1] == "<sub>" + (['T'] + FOOTER_REST)
    ensures |FOOTER_REST| > 7 && FOOTER_REST[4] == 'i' && FOOTER_REST[6] == ' '
  {
    assert 'T' !in "his is an automated " && 'T' !in "analysis and might be " && 'T' !in "incorrect.</sub>";
  }

  /** The footer's own "This is ..." is no marker. */
  lemma FooterHasNone(mark: string)
    requires mark == ISSUE_MARKER || mark == DISCUSSION_MARKER
    ensures !SomeContains(FOOTER, mark)
  {
    MarkersAreMarkers();
    FooterRest();
    if mark == ISSUE_MARKER {
      assert mark[7] == 's';
      OnlyFirstT(FOOTER_REST, mark, 7);
    } else {
      assert mark[5] == 'l';
      OnlyFirstT(FOOTER_REST, mark, 5);
    }
    ContainsAfter("<sub>", ['T'] + FOOTER_REST, mark);
    FindNone("---", mark);
  }

  lemma StartsWithMarker(mark: string, rest: string)
    ensures Contains(mark + rest, mark)
  {
    FindHead(mark, rest);
  }

  lemma {:induction false} JoinStart(first: string, chunks: seq<string>)
    requires chunks != [] && first <= chunks[0]
    ensures first <= Join(chunks)
  {
  }

  lemma {:induction false} SpacedStart(blocks: seq<seq<string>>, line: string)
    requires blocks != [] && blocks[0] != [] && blocks[0][0] == line
    ensures Spaced(blocks) != [] && Spaced(blocks)[0] == line
  {
    if |blocks| > 1 {
      SpacedStart(blocks[..|blocks| - 1], line);
    }
  }

  lemma LikelyAlerts(likely: seq<Match>, possible: seq<Match>, closed: seq<Match>)
    requires likely != []
    ensures HasUserFacingAlert(BuildComment(likely, possible, closed))
  {
    var issues, discussions := OfKind(likely, Issue), OfKind(likely, Discussion);
    OfKindMembers(likely, Issue);
    OfKindMembers(likely, Discussion);
    assert likely[0] in likely;
    var sections := Sections(likely, possible, closed);
    var mark := if issues != [] then ISSUE_MARKER else DISCUSSION_MARKER;
    assert issues != [] || discussions != [] by {
      assert likely[0] in issues || likely[0] in discussions;
    }
    assert sections != [] && sections[0] != [] && sections[0][0] == mark + ":";
    OpensWith(sections + [FOOTER], mark);
  }

  lemma OpensWith(blocks: seq<seq<string>>, mark: string)
    requires blocks != [] && blocks[0] != [] && blocks[0][0] == mark + ":"
    requires mark == ISSUE_MARKER || mark == DISCUSSION_MARKER
    ensures HasUserFacingAlert(Join(Spaced(blocks)))
  {
    var body := Join(Spaced(blocks));
    SpacedStart(blocks, mark + ":");
    JoinStart(mark, Spaced(blocks));
    StartsWithMarker(mark, body[|mark|..]);
    assert mark + body[|mark|..] == body;
  }

  /** Without likely matches, the comment is the triage section and the footer. */
  lemma TriageOnly(possible: seq<Match>, closed: seq<Match>, mark: string)
    requires mark == ISSUE_MARKER || mark == DISCUSSION_MARKER
    requires possible != [] || closed != []
    ensures Contains(BuildComment([], possible, closed), mark) <==> TriageTextHas(possible, closed, mark)
  {
    MarkersAreMarkers();
    var triage := TriageSection(possible, closed);
    assert Sections([], possible, closed) == [triage];
    TriageSectionHas(possible, closed, mark);
    FooterHasNone(mark);
    SpacedHas([triage], [FOOTER], mark);
    assert BuildComment([], possible, closed) == Join(Spaced([triage] + [FOOTER]));
    SpacedNonEmpty([triage], FOOTER);
    ContainsJoin(Spaced([triage] + [FOOTER]), mark);
  }

  /** A comment counts as user-facing exactly when there is a likely match, or a free text smuggles a marker in. */
  lemma UserFacingIff(likely: seq<Match>, possible: seq<Match>, closed: seq<Match>)
    ensures HasUserFacingAlert(BuildComment(likely, possible, closed)) <==>
              || likely != []
              || TriageTextHas(possible, closed, ISSUE_MARKER)
              || TriageTextHas(possible, closed, DISCUSSION_MARKER)
  {
    if likely != [] {
      LikelyAlerts(likely, possible, closed);
    } else if possible == [] && closed == [] {
      MarkersAreMarkers();
      FindNone("", ISSUE_MARKER);
      FindNone("", DISCUSSION_MARKER);
      assert BuildComment(likely, possible, closed) == "";
    } else {
      TriageOnly(possible, closed, ISSUE_MARKER);
      TriageOnly(possible, closed, DISCUSSION_MARKER);
    }
  }

  /** A comment is recognised as the bot's exactly when there was anything to post. */
  lemma BotCommentIff(likely: seq<Match>, possible: seq<Match>, closed: seq<Match>)
    ensures IsBotComment(BuildComment(likely, possible, closed)) <==> BuildComment(likely, possible, closed) != ""
    ensures BuildComment(likely, possible, closed) != "" <==> likely != [] || possible != [] || closed != []
  {
    var body := BuildComment(likely, possible, closed);
    UserFacingIff(likely, possible, closed);
    if likely != [] {
      EmptyHasNone(body);
    } else if possible == [] && closed == [] {
      EmptyHasNone(body);
    } else {
      TriageRecognised(possible, closed);
      EmptyHasNone(body);
    }
  }

  lemma EmptyHasNone(body: string)
    ensures body == "" ==> !IsBotComment(body)
  {
    MarkersAreMarkers();
    FindNone("", ISSUE_MARKER);
    FindNone("", DISCUSSION_MARKER);
    FindNone("", TRIAGE_MARKER);
  }

  lemma SpacedTwo(x: seq<string>, y: seq<string>)
    ensures Spaced([x] + [y]) == x + [""] + y
  {
    assert ([x] + [y])[..1] == [x];
  }

  lemma WrappedContains(pre: string, mark: string, post: string)
    requires mark != [] && mark[0] !in pre
    ensures Contains(pre + mark + post, mark)
  {
    FindHead(mark, post);
    ContainsAfter(pre, mark + post, mark);
    assert pre + mark + post == pre + (mark + post);
  }

  lemma TriageRecognised(possible: seq<Match>, closed: seq<Match>)
    requires possible != [] || closed != []
    ensures Contains(BuildComment([], possible, closed), TRIAGE_MARKER)
  {
    hide TriageParts;
    OneLineMarkers();
    var triage := TriageSection(possible, closed);
    assert Sections([], possible, closed) == [triage];
    var chunks := Spaced([triage] + [FOOTER]);
    SpacedTwo(triage, FOOTER);
    assert chunks[1] == triage[1];
    WrappedContains("<summary>", TRIAGE_MARKER, "</summary>");
    assert Contains(chunks[1], TRIAGE_MARKER);
    ContainsJoin(chunks, TRIAGE_MARKER);
  }

  /** A possible match whose explanation quotes the marker makes a triage-only comment count as user-facing. */
  lemma MarkerCanBeSmuggled(m: Match)
    requires m.candidate.kind == Issue && m.explanation == ISSUE_MARKER
    ensures HasUserFacingAlert(BuildComment([], [m], []))
  {
    FindHead(ISSUE_MARKER, "");
    assert ISSUE_MARKER + "" == ISSUE_MARKER;
    OneOfKind(m);
    assert TextHas([m][0], true, ISSUE_MARKER);
    UserFacingIff([], [m], []);
  }

  lemma OneOfKind(m: Match)
    ensures OfKind([m], m.candidate.kind) == [m]
  {
    assert [m][..0] == [];
  }
}
