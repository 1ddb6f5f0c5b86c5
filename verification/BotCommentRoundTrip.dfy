/** What the readers make of a comment that the bot wrote. */
module BotCommentRoundTrip {
  import opened Basics
  import opened Text
  import opened BotComment

  // ----- numbers of texts put together

  lemma {:induction false} SplitConcat(a: string, b: string)
    ensures Split(a + "\n" + b) == Split(a) + Split(b)
  {
    var s := a + "\n" + b;
    if a == [] {
      assert s[1..] == b;
    } else {
      assert s[1..] == a[1..] + "\n" + b;
      SplitConcat(a[1..], b);
    }
  }

  lemma {:induction false} CollectConcat(f: string -> seq<nat>, xs: seq<string>, ys: seq<string>)
    ensures Collect(f, xs + ys) == Collect(f, xs) + Collect(f, ys)
  {
    if ys == [] {
      assert xs + ys == xs;
    } else {
      var init := ys[..|ys| - 1];
      assert (xs + ys)[..|xs + ys| - 1] == xs + init;
      CollectConcat(f, xs, init);
    }
  }

  lemma CollectOne(f: string -> seq<nat>, x: string)
    ensures Collect(f, [x]) == f(x)
  {
    var none: seq<string> := [];
    assert [x][..0] == none;
  }

  lemma SuggestedConcat(a: string, b: string)
    ensures SuggestedIssues(a + "\n" + b) == SuggestedIssues(a) + SuggestedIssues(b)
  {
    SplitConcat(a, b);
    CollectConcat(LineNumber, Split(a), Split(b));
  }

  /** A comment is read chunk by chunk. */
  lemma {:induction false} SuggestedJoin(chunks: seq<string>)
    requires chunks != []
    ensures SuggestedIssues(Join(chunks)) == Collect(SuggestedIssues, chunks)
  {
    CollectOne(SuggestedIssues, chunks[0]);
    if |chunks| == 1 {
      assert chunks == [chunks[0]];
    } else {
      SuggestedConcat(chunks[0], Join(chunks[1..]));
      SuggestedJoin(chunks[1..]);
      CollectConcat(SuggestedIssues, [chunks[0]], chunks[1..]);
      assert chunks == [chunks[0]] + chunks[1..];
    }
  }

  /** The numbers that a free text adds to the comment: those on its lines after the first. */
  function Injected(text: string): seq<nat> {
    Collect(LineNumber, Split(text)[1..])
  }

  lemma {:induction false} SplitPrefix(prefix: string, text: string)
    requires OneLine(prefix)
    ensures Split(prefix + text) == [prefix + Split(text)[0]] + Split(text)[1..]
  {
    if prefix == [] {
      assert prefix + text == text && prefix + Split(text)[0] == Split(text)[0];
    } else {
      assert (prefix + text)[1..] == prefix[1..] + text;
      SplitPrefix(prefix[1..], text);
      assert [prefix[0]] + (prefix[1..] + Split(text)[0]) == prefix + Split(text)[0];
    }
  }

  /** A free text after a prefix: the prefix decides about its first line, the rest is injected. */
  lemma PrefixedNumbers(prefix: string, text: string)
    requires OneLine(prefix)
    ensures SuggestedIssues(prefix + text) == LineNumber(prefix + Split(text)[0]) + Injected(text)
  {
    SplitPrefix(prefix, text);
    var first := prefix + Split(text)[0];
    CollectConcat(LineNumber, [first], Split(text)[1..]);
    CollectOne(LineNumber, first);
  }

  /** A fixed line of the template adds no number. */
  predicate PlainLine(line: string) {
    OneLine(line) && LineNumber(line) == []
  }

  lemma PlainNumbers(line: string)
    requires PlainLine(line)
    ensures SuggestedIssues(line) == []
  {
    SplitFirst(line, "");
    CollectOne(LineNumber, line);
  }

  lemma {:induction false} DigitPrefixIs(digits: string, rest: string)
    requires (forall c :: c in digits ==> IsDigit(c)) && (rest == [] || !IsDigit(rest[0]))
    ensures DigitPrefix(digits + rest) == digits
  {
    if digits == [] {
      assert digits + rest == rest;
    } else {
      assert digits[0] in digits;
      assert (digits + rest)[1..] == digits[1..] + rest;
      DigitPrefixIs(digits[1..], rest);
    }
  }

  /** A line that starts with a reference to an issue gives that issue. */
  lemma ReferenceLine(number: nat, rest: string)
    requires rest == [] || !IsDigit(rest[0])
    ensures LineNumber("- #" + Digits(number) + rest) == [number]
  {
    var line := "- #" + Digits(number) + rest;
    assert line[3..] == Digits(number) + rest;
    assert line[3] == Digits(number)[0] && Digits(number)[0] in Digits(number);
    DigitPrefixIs(Digits(number), rest);
    NumeralRoundTrip(number);
  }

  // ----- counting what a block of lines adds

  /** The chunks give the numbers `own`, unless their free texts add `extra` more. */
  ghost predicate Adds(chunks: seq<string>, own: seq<nat>, extra: nat) {
    var found := Collect(SuggestedIssues, chunks);
    |found| == |own| + extra && (extra == 0 ==> found == own)
  }

  lemma AddsConcat(x: seq<string>, o1: seq<nat>, e1: nat, y: seq<string>, o2: seq<nat>, e2: nat)
    requires Adds(x, o1, e1) && Adds(y, o2, e2)
    ensures Adds(x + y, o1 + o2, e1 + e2)
  {
    CollectConcat(SuggestedIssues, x, y);
  }

  lemma {:induction false} PlainAdds(lines: seq<string>)
    requires forall l :: l in lines ==> PlainLine(l)
    ensures Adds(lines, [], 0)
  {
    if lines != [] {
      PlainAdds(lines[..|lines| - 1]);
      PlainNumbers(lines[|lines| - 1]);
    }
  }

  function Flat(own: Match -> seq<nat>, ms: seq<Match>): seq<nat> {
    if ms == [] then [] else Flat(own, ms[..|ms| - 1]) + own(ms[|ms| - 1])
  }

  function Sum(extra: Match -> nat, ms: seq<Match>): nat {
    if ms == [] then 0 else Sum(extra, ms[..|ms| - 1]) + extra(ms[|ms| - 1])
  }

  lemma {:induction false} EachAdds(f: Match -> seq<string>, gap: seq<string>, ms: seq<Match>,
                                    own: Match -> seq<nat>, extra: Match -> nat)
    requires Adds(gap, [], 0) && forall m :: m in ms ==> Adds(f(m), own(m), extra(m))
    ensures Adds(Each(f, gap, ms), Flat(own, ms), Sum(extra, ms))
  {
    if ms == [] {
    } else {
      var init, last := ms[..|ms| - 1], ms[|ms| - 1];
      EachAdds(f, gap, init, own, extra);
      if |ms| == 1 {
        assert init == [];
        assert Flat(own, ms) == own(last) && ms[0] == last;
      } else {
        AddsConcat(Each(f, gap, init), Flat(own, init), Sum(extra, init), gap, [], 0);
        AddsConcat(Each(f, gap, init) + gap, Flat(own, init) + [], Sum(extra, init) + 0, f(last), own(last), extra(last));
        assert Flat(own, init) + [] == Flat(own, init);
      }
    }
  }

  function Number(m: Match): seq<nat> {
    if m.candidate.kind == Issue then [m.candidate.number] else []
  }

  function NoNumber(m: Match): seq<nat> {
    []
  }

  function NoExtra(m: Match): nat {
    0
  }

  function ExplanationExtra(m: Match): nat {
    |Injected(m.explanation)|
  }

  function IssueExtra(m: Match): nat {
    |Injected(m.explanation)| + |Injected(m.rootCause)|
  }

  lemma AddsOne(chunk: string, own: seq<nat>, text: string)
    requires SuggestedIssues(chunk) == own + Injected(text)
    ensures Adds([chunk], own, |Injected(text)|)
  {
    CollectOne(SuggestedIssues, chunk);
  }

  lemma DigitsOneLine(n: nat)
    ensures OneLine(Digits(n))
  {
    assert !IsDigit('\n');
  }

  lemma ReferenceOneLine(c: Candidate)
    requires OneLine(c.url)
    ensures OneLine(Reference(c))
  {
    DigitsOneLine(c.number);
    assert OneLine("[Discussion #") && OneLine("](") && OneLine(")") && OneLine("#");
  }

  /** A list line: the reference decides about the number, whatever follows after a space. */
  lemma ListLine(c: Candidate, rest: string)
    requires OneLine(c.url) && (rest == [] || !IsDigit(rest[0]))
    ensures LineNumber("- " + Reference(c) + rest) == if c.kind == Issue then [c.number] else []
  {
    var line := "- " + Reference(c) + rest;
    match c.kind
    case Issue =>
      ReferenceLine(c.number, rest);
      assert line == "- #" + Digits(c.number) + rest;
    case Discussion =>
      assert line[2] == Reference(c)[0] == '[';
  }

  /** "- reference" + mid + free text, where `mid` starts with a space. */
  lemma ListLineAdds(m: Match, mid: string, text: string)
    requires OneLine(m.candidate.url) && OneLine(mid) && mid != [] && !IsDigit(mid[0])
    ensures Adds(["- " + Reference(m.candidate) + mid + text], Number(m), |Injected(text)|)
  {
    ReferenceOneLine(m.candidate);
    var prefix := "- " + Reference(m.candidate) + mid;
    assert OneLine("- ");
    PrefixedNumbers(prefix, text);
    var first := Split(text)[0];
    assert prefix + first == "- " + Reference(m.candidate) + (mid + first);
    ListLine(m.candidate, mid + first);
    AddsOne(prefix + text, Number(m), text);
  }

  /** A prefix that does not start with "-", and a free text. */
  lemma TextLineAdds(prefix: string, text: string)
    requires OneLine(prefix) && prefix != [] && prefix[0] != '-'
    ensures Adds([prefix + text], [], |Injected(text)|)
  {
    PrefixedNumbers(prefix, text);
    AddsOne(prefix + text, [], text);
  }

  lemma BulletAdds(m: Match)
    requires OneLine(m.candidate.url)
    ensures Adds(Bullet(m), Number(m), NoExtra(m))
  {
    var line := "- " + Reference(m.candidate);
    ReferenceOneLine(m.candidate);
    assert OneLine("- ");
    SplitFirst(line, "");
    CollectOne(LineNumber, line);
    assert line + "" == line;
    ListLine(m.candidate, "");
    CollectOne(SuggestedIssues, line);
  }

  lemma PossibleIssueAdds(m: Match)
    requires OneLine(m.candidate.url)
    ensures Adds(PossibleIssue(m), Number(m), IssueExtra(m))
  {
    ListLineAdds(m, " — ", m.explanation);
    TextLineAdds("  - Possible shared root cause: ", m.rootCause);
    AddsConcat(["- " + Reference(m.candidate) + " — " + m.explanation], Number(m), |Injected(m.explanation)|,
               ["  - Possible shared root cause: " + m.rootCause], [], |Injected(m.rootCause)|);
    assert Number(m) + [] == Number(m);
  }

  lemma PossibleDiscussionAdds(m: Match)
    requires OneLine(m.candidate.url)
    ensures Adds(PossibleDiscussion(m), Number(m), ExplanationExtra(m))
  {
    ListLineAdds(m, " — ", m.explanation);
  }

  lemma ClosedIssueAdds(m: Match)
    requires OneLine(m.candidate.url)
    ensures Adds(ClosedIssue(m), Number(m), ExplanationExtra(m))
  {
    if m.candidate.closedAsDuplicate {
      var mid := " (closed as duplicate)" + " — ";
      ListLineAdds(m, mid, m.explanation);
      assert "- " + Reference(m.candidate) + mid == "- " + Reference(m.candidate) + " (closed as duplicate)" + " — ";
    } else {
      ListLineAdds(m, " — ", m.explanation);
      assert "- " + Reference(m.candidate) + "" == "- " + Reference(m.candidate);
    }
  }

  lemma ReasonPrefix(m: Match)
    requires OneLine(m.candidate.url)
    ensures var prefix := "**" + Reference(m.candidate) + ":** "; OneLine(prefix) && prefix[0] == '*'
  {
    ReferenceOneLine(m.candidate);
    assert OneLine("**") && OneLine(":** ");
  }

  lemma DiscussionReasonAdds(m: Match)
    requires OneLine(m.candidate.url)
    ensures Adds(DiscussionReason(m), NoNumber(m), ExplanationExtra(m))
  {
    ReasonPrefix(m);
    TextLineAdds("**" + Reference(m.candidate) + ":** ", m.explanation);
  }

  lemma IssueReasonAdds(m: Match)
    requires OneLine(m.candidate.url)
    ensures Adds(IssueReason(m), NoNumber(m), IssueExtra(m))
  {
    var none: seq<nat> := [];
    var first, last := DiscussionReason(m), ["**Shared root cause:** " + m.rootCause];
    DiscussionReasonAdds(m);
    GapAdds();
    AddsConcat(first, none, ExplanationExtra(m), [""], none, 0);
    TextLineAdds("**Shared root cause:** ", m.rootCause);
    AddsConcat(first + [""], none + none, ExplanationExtra(m) + 0, last, none, |Injected(m.rootCause)|);
    assert first + [""] + last == IssueReason(m) && none + none + none == none;
  }

  lemma GapAdds()
    ensures Adds([""], [], 0) && Adds([], [], 0)
  {
    PlainAdds([""]);
    PlainAdds([]);
  }

  // ----- the sections

  ghost predicate UrlsOneLine(ms: seq<Match>) {
    forall m :: m in ms ==> OneLine(m.candidate.url)
  }

  lemma BulletsAdd(ms: seq<Match>)
    requires UrlsOneLine(ms)
    ensures Adds(Each(Bullet, [], ms), Flat(Number, ms), 0)
  {
    GapAdds();
    forall m | m in ms ensures Adds(Bullet(m), Number(m), NoExtra(m)) {
      BulletAdds(m);
    }
    EachAdds(Bullet, [], ms, Number, NoExtra);
    NothingExtra(ms);
  }

  lemma {:induction false} NothingExtra(ms: seq<Match>)
    ensures Sum(NoExtra, ms) == 0 && Flat(NoNumber, ms) == []
  {
    if ms != [] {
      NothingExtra(ms[..|ms| - 1]);
    }
  }

  /** A section: fixed lines, bullets, fixed lines, reasons, fixed lines. */
  lemma SectionAdds(head: seq<string>, bullets: seq<string>, mid: seq<string>, reasons: seq<string>, tail: seq<string>,
                    own: seq<nat>, extra: nat)
    requires forall l :: l in head || l in mid || l in tail ==> PlainLine(l)
    requires Adds(bullets, own, 0) && Adds(reasons, [], extra)
    ensures Adds(head + bullets + mid + reasons + tail, own, extra)
  {
    PlainAdds(head);
    PlainAdds(mid);
    PlainAdds(tail);
    AddsConcat(head, [], 0, bullets, own, 0);
    assert [] + own == own && own + [] == own;
    AddsConcat(head + bullets, own, 0, mid, [], 0);
    AddsConcat(head + bullets + mid, own, 0, reasons, [], extra);
    AddsConcat(head + bullets + mid + reasons, own, extra, tail, [], 0);
  }

  lemma PlainText(line: string)
    requires OneLine(line) && (line == [] || line[0] != '-')
    ensures PlainLine(line)
  {
  }

  lemma OneLineMarkers()
    ensures OneLine(ISSUE_MARKER) && OneLine(DISCUSSION_MARKER) && OneLine(TRIAGE_MARKER)
  {
    OneLineIssueMarker();
    OneLineDiscussionMarker();
    assert OneLine("Additional recent ") && OneLine("context for triagers");
  }

  lemma OneLineIssueMarker()
    ensures OneLine(ISSUE_MARKER)
  {
    assert OneLine("This issue appears ") && OneLine("to be a duplicate of");
  }

  lemma OneLineDiscussionMarker()
    ensures OneLine(DISCUSSION_MARKER)
  {
    assert OneLine("This looks like it ") && OneLine("may already be covered ") && OneLine("by an existing discussion");
  }

  lemma PlainWrapped(pre: string, text: string, post: string)
    requires OneLine(pre) && OneLine(text) && OneLine(post) && pre + text != [] && (pre + text)[0] != '-'
    ensures PlainLine(pre + text + post)
  {
    PlainText(pre + text + post);
  }

  lemma PlainMarkers()
    ensures PlainLine(ISSUE_MARKER + ":") && PlainLine(DISCUSSION_MARKER + ":")
    ensures PlainLine("<summary>" + TRIAGE_MARKER + "</summary>")
  {
    OneLineMarkers();
    var issue, discussion, triage := ISSUE_MARKER, DISCUSSION_MARKER, TRIAGE_MARKER;
    assert issue[0] == 'T' && discussion[0] == 'T';
    PlainWrapped("", issue, ":");
    assert "" + issue + ":" == issue + ":";
    PlainWrapped("", discussion, ":");
    assert "" + discussion + ":" == discussion + ":";
    PlainWrapped("<summary>", triage, "</summary>");
  }

  lemma PlainCloseAsDuplicate()
    ensures PlainLine(CLOSE_AS_DUPLICATE)
  {
    assert OneLine("Please close this issue and ") && OneLine("subscribe to the linked issue ");
    assert OneLine("for updates (select \"Close as ") && OneLine("not planned\" → \"Duplicate\")");
    PlainText(CLOSE_AS_DUPLICATE);
  }

  lemma PlainNoAction()
    ensures PlainLine(NO_ACTION)
  {
    assert OneLine("No action needed. A maintainer ") && OneLine("will review this shortly.");
    PlainText(NO_ACTION);
  }

  lemma OneLineCoveredThere()
    ensures OneLine(ZED_TRACKS) && ZED_TRACKS[0] == 'Z'
  {
    assert OneLine("Zed tracks feature requests ") && OneLine("and open-ended topics in ");
    assert OneLine("Discussions rather than Issues. ") && OneLine("**If your report is covered ");
  }

  lemma OneLinePleaseClose()
    ensures OneLine(PLEASE_CLOSE) && OneLine(CONTINUE_THERE)
  {
    assert OneLine("there, please close this issue ") && OneLine("as a duplicate (select \"Close ");
    assert OneLine("as not planned\" → \"Duplicate\") ");
    OneLineContinueThere();
  }

  lemma OneLineContinueThere()
    ensures OneLine(CONTINUE_THERE)
  {
    assert OneLine("and continue in the discussion** ") && OneLine("so the conversation stays ") && OneLine("in one place.");
  }

  lemma PlainCoveredThere()
    ensures PlainLine(COVERED_THERE)
  {
    OneLineCoveredThere();
    OneLinePleaseClose();
    PlainWrapped(ZED_TRACKS, PLEASE_CLOSE, CONTINUE_THERE);
  }

  lemma PlainIssueAdvice()
    ensures forall l :: l in ISSUE_ADVICE ==> PlainLine(l)
  {
    PlainCloseAsDuplicate();
    PlainNoAction();
    assert OneLine("<summary>Why were these ") && OneLine("issues selected?</summary>");
    PlainText("<summary>Why were these " + "issues selected?</summary>");
    PlainText("**If this is indeed a duplicate:**");
    PlainText("**If this is a different issue:**");
    PlainText("<details>");
    PlainText("");
  }

  lemma PlainDiscussionAdvice()
    ensures forall l :: l in DISCUSSION_ADVICE ==> PlainLine(l)
  {
    PlainCoveredThere();
    assert OneLine("<summary>Why were these ") && OneLine("selected?</summary>");
    PlainText("<summary>Why were these " + "selected?</summary>");
    PlainText("<details>");
    PlainText("");
  }

  lemma PlainEnds()
    ensures forall l :: l in END_DETAILS || l in FOOTER ==> PlainLine(l)
  {
    PlainText("");
    PlainText("</details>");
    assert OneLine("<sub>") && OneLine("This is an automated ") && OneLine("analysis and might be ") && OneLine("incorrect.</sub>");
    PlainText("<sub>" + ("This is an automated " + "analysis and might be " + "incorrect.</sub>"));
  }

  lemma IssueSectionAdds(ms: seq<Match>)
    requires UrlsOneLine(ms)
    ensures Adds(IssueSection(ms), Flat(Number, ms), Sum(IssueExtra, ms))
  {
    BulletsAdd(ms);
    GapAdds();
    forall m | m in ms ensures Adds(IssueReason(m), NoNumber(m), IssueExtra(m)) {
      IssueReasonAdds(m);
    }
    EachAdds(IssueReason, [""], ms, NoNumber, IssueExtra);
    NothingExtra(ms);
    PlainMarkers();
    PlainIssueAdvice();
    PlainEnds();
    PlainText("");
    SectionAdds([ISSUE_MARKER + ":", ""], Each(Bullet, [], ms), ISSUE_ADVICE, Each(IssueReason, [""], ms), END_DETAILS,
                Flat(Number, ms), Sum(IssueExtra, ms));
  }

  lemma DiscussionSectionAdds(ms: seq<Match>)
    requires UrlsOneLine(ms)
    ensures Adds(DiscussionSection(ms), Flat(Number, ms), Sum(ExplanationExtra, ms))
  {
    BulletsAdd(ms);
    GapAdds();
    forall m | m in ms ensures Adds(DiscussionReason(m), NoNumber(m), ExplanationExtra(m)) {
      DiscussionReasonAdds(m);
    }
    EachAdds(DiscussionReason, [""], ms, NoNumber, ExplanationExtra);
    NothingExtra(ms);
    PlainMarkers();
    PlainDiscussionAdvice();
    PlainEnds();
    PlainText("");
    SectionAdds([DISCUSSION_MARKER + ":", ""], Each(Bullet, [], ms), DISCUSSION_ADVICE, Each(DiscussionReason, [""], ms),
                END_DETAILS, Flat(Number, ms), Sum(ExplanationExtra, ms));
  }

  lemma PartAdds(heading: string, lines: seq<string>, own: seq<nat>, extra: nat)
    requires PlainLine(heading) && Adds(lines, own, extra)
    ensures Adds(Spaced(Part(heading, lines)), own, extra)
  {
    if lines != [] {
      PlainText("");
      PlainAdds([heading, ""]);
      AddsConcat([heading, ""], [], 0, lines, own, extra);
      assert [] + own == own;
    }
  }

  /** An empty line between two groups of blocks adds nothing. */
  lemma SpacedAdds(xs: seq<seq<string>>, o1: seq<nat>, e1: nat, ys: seq<seq<string>>, o2: seq<nat>, e2: nat)
    requires Adds(Spaced(xs), o1, e1) && Adds(Spaced(ys), o2, e2) && |ys| <= 1
    ensures Adds(Spaced(xs + ys), o1 + o2, e1 + e2)
  {
    hide SuggestedIssues;
    if ys == [] {
      assert xs + ys == xs && o2 == [] by {
        GapAdds();
      }
      assert o1 + o2 == o1;
    } else if xs == [] {
      GapAdds();
      assert xs + ys == ys && o1 + o2 == o2;
    } else {
      GapAdds();
      assert (xs + ys)[..|xs + ys| - 1] == xs;
      AddsConcat(Spaced(xs), o1, e1, [""], [], 0);
      assert o1 + [] == o1;
      AddsConcat(Spaced(xs) + [""], o1, e1, ys[0], o2, e2);
    }
  }

  lemma PlainHeadings()
    ensures PlainLine("**Possibly related open issues:**") && PlainLine("**Possibly related discussions:**")
    ensures PlainLine("**Recently closed, " + "possibly the same bug:**")
  {
    PlainText("**Possibly related open issues:**");
    PlainText("**Possibly related discussions:**");
    assert OneLine("**Recently closed, ") && OneLine("possibly the same bug:**");
    PlainText("**Recently closed, " + "possibly the same bug:**");
  }

  lemma PossibleIssuesAdd(ms: seq<Match>)
    requires UrlsOneLine(ms)
    ensures Adds(Each(PossibleIssue, [], ms), Flat(Number, ms), Sum(IssueExtra, ms))
  {
    GapAdds();
    forall m | m in ms ensures Adds(PossibleIssue(m), Number(m), IssueExtra(m)) {
      PossibleIssueAdds(m);
    }
    EachAdds(PossibleIssue, [], ms, Number, IssueExtra);
  }

  lemma ClosedIssuesAdd(ms: seq<Match>)
    requires UrlsOneLine(ms)
    ensures Adds(Each(ClosedIssue, [], ms), Flat(Number, ms), Sum(ExplanationExtra, ms))
  {
    GapAdds();
    forall m | m in ms ensures Adds(ClosedIssue(m), Number(m), ExplanationExtra(m)) {
      ClosedIssueAdds(m);
    }
    EachAdds(ClosedIssue, [], ms, Number, ExplanationExtra);
  }

  lemma PossibleDiscussionsAdd(ms: seq<Match>)
    requires UrlsOneLine(ms)
    ensures Adds(Each(PossibleDiscussion, [], ms), Flat(Number, ms), Sum(ExplanationExtra, ms))
  {
    GapAdds();
    forall m | m in ms ensures Adds(PossibleDiscussion(m), Number(m), ExplanationExtra(m)) {
      PossibleDiscussionAdds(m);
    }
    EachAdds(PossibleDiscussion, [], ms, Number, ExplanationExtra);
  }

  lemma {:induction false} OfKindMembers(ms: seq<Match>, kind: Kind)
    ensures forall m :: m in OfKind(ms, kind) <==> m in ms && m.candidate.kind == kind
  {
    if ms != [] {
      OfKindMembers(ms[..|ms| - 1], kind);
      assert ms == ms[..|ms| - 1] + [ms[|ms| - 1]];
    }
  }

  lemma {:induction false} DiscussionsHaveNoNumber(ms: seq<Match>)
    requires forall m :: m in ms ==> m.candidate.kind == Discussion
    ensures Flat(Number, ms) == []
  {
    if ms != [] {
      DiscussionsHaveNoNumber(ms[..|ms| - 1]);
    }
  }

  /** The numbers of the issues among `ms`. */
  function IssueNumbers(ms: seq<Match>): seq<nat> {
    Flat(Number, OfKind(ms, Issue))
  }

  /** How many numbers the free texts of the triage section add. */
  function TriageExtra(possible: seq<Match>, closed: seq<Match>): nat {
    Sum(IssueExtra, OfKind(possible, Issue)) + Sum(ExplanationExtra, closed) + Sum(ExplanationExtra, OfKind(possible, Discussion))
  }

  lemma TriagePartsAdd(possible: seq<Match>, closed: seq<Match>)
    requires UrlsOneLine(possible) && UrlsOneLine(closed)
    ensures Adds(Spaced(TriageParts(possible, closed)), IssueNumbers(possible) + Flat(Number, closed), TriageExtra(possible, closed))
  {
    var issues, discussions := OfKind(possible, Issue), OfKind(possible, Discussion);
    OfKindMembers(possible, Issue);
    OfKindMembers(possible, Discussion);
    DiscussionsHaveNoNumber(discussions);
    PlainHeadings();
    PossibleIssuesAdd(issues);
    ClosedIssuesAdd(closed);
    PossibleDiscussionsAdd(discussions);
    var h1, h2, h3 := "**Possibly related open issues:**", "**Recently closed, " + "possibly the same bug:**", "**Possibly related discussions:**";
    var p1 := Part(h1, Each(PossibleIssue, [], issues));
    var p2 := Part(h2, Each(ClosedIssue, [], closed));
    var p3 := Part(h3, Each(PossibleDiscussion, [], discussions));
    PartAdds(h1, Each(PossibleIssue, [], issues), Flat(Number, issues), Sum(IssueExtra, issues));
    PartAdds(h2, Each(ClosedIssue, [], closed), Flat(Number, closed), Sum(ExplanationExtra, closed));
    PartAdds(h3, Each(PossibleDiscussion, [], discussions), [], Sum(ExplanationExtra, discussions));
    SpacedAdds(p1, Flat(Number, issues), Sum(IssueExtra, issues), p2, Flat(Number, closed), Sum(ExplanationExtra, closed));
    SpacedAdds(p1 + p2, Flat(Number, issues) + Flat(Number, closed), Sum(IssueExtra, issues) + Sum(ExplanationExtra, closed),
               p3, [], Sum(ExplanationExtra, discussions));
    var own := Flat(Number, issues) + Flat(Number, closed);
    assert own + [] == own;
  }

  lemma TriageSectionAdds(possible: seq<Match>, closed: seq<Match>)
    requires UrlsOneLine(possible) && UrlsOneLine(closed)
    ensures Adds(TriageSection(possible, closed), IssueNumbers(possible) + Flat(Number, closed), TriageExtra(possible, closed))
  {
    var own, extra := IssueNumbers(possible) + Flat(Number, closed), TriageExtra(possible, closed);
    TriagePartsAdd(possible, closed);
    PlainMarkers();
    PlainEnds();
    PlainText("<details>");
    PlainText("");
    var head := ["<details>", "<summary>" + TRIAGE_MARKER + "</summary>", ""];
    var body := Spaced(TriageParts(possible, closed));
    PlainAdds(head);
    PlainAdds(END_DETAILS);
    FramedAdds(head, body, END_DETAILS, own, extra);
  }

  lemma FramedAdds(head: seq<string>, body: seq<string>, end: seq<string>, own: seq<nat>, extra: nat)
    requires Adds(head, [], 0) && Adds(body, own, extra) && Adds(end, [], 0)
    ensures Adds(head + body + end, own, extra)
  {
    AddsConcat(head, [], 0, body, own, extra);
    assert [] + own == own && own + [] == own;
    AddsConcat(head + body, own, extra, end, [], 0);
  }

  // ----- the numbers of the whole comment

  function LikelyExtra(likely: seq<Match>): nat {
    Sum(IssueExtra, OfKind(likely, Issue)) + Sum(ExplanationExtra, OfKind(likely, Discussion))
  }

  lemma LikelyBlocksAdd(issues: seq<Match>, discussions: seq<Match>, s1: seq<seq<string>>, s2: seq<seq<string>>)
    requires UrlsOneLine(issues) && UrlsOneLine(discussions)
    requires forall m :: m in issues ==> m.candidate.kind == Issue
    requires forall m :: m in discussions ==> m.candidate.kind == Discussion
    requires s1 == if issues == [] then [] else [IssueSection(issues)]
    requires s2 == if discussions == [] then [] else [DiscussionSection(discussions)]
    ensures Adds(Spaced(s1), Flat(Number, issues), Sum(IssueExtra, issues))
    ensures Adds(Spaced(s2), Flat(Number, discussions), Sum(ExplanationExtra, discussions))
  {
    GapAdds();
    IssueSectionAdds(issues);
    DiscussionSectionAdds(discussions);
  }

  lemma TriageBlockAdds(possible: seq<Match>, closed: seq<Match>, s3: seq<seq<string>>)
    requires UrlsOneLine(possible) && UrlsOneLine(closed)
    requires s3 == if possible == [] && closed == [] then [] else [TriageSection(possible, closed)]
    ensures Adds(Spaced(s3), IssueNumbers(possible) + Flat(Number, closed), TriageExtra(possible, closed))
  {
    GapAdds();
    TriageSectionAdds(possible, closed);
  }

  lemma SectionsAdd(likely: seq<Match>, possible: seq<Match>, closed: seq<Match>)
    requires UrlsOneLine(likely) && UrlsOneLine(possible) && UrlsOneLine(closed)
    ensures Adds(Spaced(Sections(likely, possible, closed)),
                 IssueNumbers(likely) + (IssueNumbers(possible) + Flat(Number, closed)),
                 LikelyExtra(likely) + TriageExtra(possible, closed))
  {
    hide Adds, IssueSection, DiscussionSection, TriageSection, Flat, Sum, TriageExtra;
    var issues, discussions := OfKind(likely, Issue), OfKind(likely, Discussion);
    OfKindMembers(likely, Issue);
    OfKindMembers(likely, Discussion);
    DiscussionsHaveNoNumber(discussions);
    var s1: seq<seq<string>> := if issues == [] then [] else [IssueSection(issues)];
    var s2: seq<seq<string>> := if discussions == [] then [] else [DiscussionSection(discussions)];
    var s3: seq<seq<string>> := if possible == [] && closed == [] then [] else [TriageSection(possible, closed)];
    LikelyBlocksAdd(issues, discussions, s1, s2);
    TriageBlockAdds(possible, closed, s3);
    var o1, o3 := Flat(Number, issues), IssueNumbers(possible) + Flat(Number, closed);
    var e1, e2, e3 := Sum(IssueExtra, issues), Sum(ExplanationExtra, discussions), TriageExtra(possible, closed);
    ThreeBlocksAdd(s1, o1, e1, s2, e2, s3, o3, e3);
  }

  lemma ThreeBlocksAdd(s1: seq<seq<string>>, o1: seq<nat>, e1: nat, s2: seq<seq<string>>, e2: nat,
                       s3: seq<seq<string>>, o3: seq<nat>, e3: nat)
    requires Adds(Spaced(s1), o1, e1) && Adds(Spaced(s2), [], e2) && Adds(Spaced(s3), o3, e3) && |s2| <= 1 && |s3| <= 1
    ensures Adds(Spaced(s1 + s2 + s3), o1 + o3, e1 + e2 + e3)
  {
    SpacedAdds(s1, o1, e1, s2, [], e2);
    assert o1 + [] == o1;
    SpacedAdds(s1 + s2, o1, e1 + e2, s3, o3, e3);
  }

  lemma {:induction false} FlatOfKind(ms: seq<Match>)
    ensures Flat(Number, ms) == IssueNumbers(ms)
  {
    if ms != [] {
      var init, last := ms[..|ms| - 1], ms[|ms| - 1];
      FlatOfKind(init);
      if last.candidate.kind == Issue {
        assert OfKind(ms, Issue)[..|OfKind(ms, Issue)| - 1] == OfKind(init, Issue);
      } else {
        assert OfKind(ms, Issue) == OfKind(init, Issue);
      }
    }
  }

  lemma {:induction false} SumIsZero(extra: Match -> nat, ms: seq<Match>)
    ensures Sum(extra, ms) == 0 <==> forall m :: m in ms ==> extra(m) == 0
  {
    if ms != [] {
      SumIsZero(extra, ms[..|ms| - 1]);
      assert ms == ms[..|ms| - 1] + [ms[|ms| - 1]];
    }
  }

  /** No free text of the match has a line, other than its first, that reads like a reference. */
  predicate QuietMatch(m: Match, withCause: bool) {
    Injected(m.explanation) == [] && (withCause && m.candidate.kind == Issue ==> Injected(m.rootCause) == [])
  }

  ghost predicate Quiet(likely: seq<Match>, possible: seq<Match>, closed: seq<Match>) {
    && (forall m :: m in likely || m in possible ==> QuietMatch(m, true))
    && (forall m :: m in closed ==> QuietMatch(m, false))
  }

  lemma OpenExtraIsZeroIff(ms: seq<Match>)
    ensures LikelyExtra(ms) == 0 <==> forall m :: m in ms ==> QuietMatch(m, true)
  {
    hide Injected, OfKind, Sum;
    OfKindMembers(ms, Issue);
    OfKindMembers(ms, Discussion);
    SumIsZero(IssueExtra, OfKind(ms, Issue));
    SumIsZero(ExplanationExtra, OfKind(ms, Discussion));
    forall m | m in ms ensures QuietMatch(m, true) <==>
        (if m.candidate.kind == Issue then IssueExtra(m) == 0 else ExplanationExtra(m) == 0) {
    }
    assert forall m :: m in ms ==> m in OfKind(ms, Issue) || m in OfKind(ms, Discussion);
  }

  lemma ExtraIsZeroIff(likely: seq<Match>, possible: seq<Match>, closed: seq<Match>)
    ensures LikelyExtra(likely) + TriageExtra(possible, closed) == 0 <==> Quiet(likely, possible, closed)
  {
    OpenExtraIsZeroIff(likely);
    OpenExtraIsZeroIff(possible);
    SumIsZero(ExplanationExtra, closed);
    assert TriageExtra(possible, closed) == LikelyExtra(possible) + Sum(ExplanationExtra, closed);
  }

  /**
   The tracker reads back exactly the likely, the possible and the closed issues, in this order and never a discussion:
   if and only if no free text has a later line that reads like a reference.
   */
  lemma SuggestedIff(likely: seq<Match>, possible: seq<Match>, closed: seq<Match>)
    requires UrlsOneLine(likely) && UrlsOneLine(possible) && UrlsOneLine(closed)
    ensures SuggestedIssues(BuildComment(likely, possible, closed))
         == IssueNumbers(likely) + IssueNumbers(possible) + IssueNumbers(closed)
       <==> Quiet(likely, possible, closed)
  {
    hide Flat, Quiet, UrlsOneLine, LikelyExtra, TriageExtra, SuggestedIssues, Sections, Adds;
    var sections := Sections(likely, possible, closed);
    var own := IssueNumbers(likely) + (IssueNumbers(possible) + Flat(Number, closed));
    var extra := LikelyExtra(likely) + TriageExtra(possible, closed);
    SectionsAdd(likely, possible, closed);
    ExtraIsZeroIff(likely, possible, closed);
    FlatOfKind(closed);
    assert own == IssueNumbers(likely) + IssueNumbers(possible) + IssueNumbers(closed);
    if sections == [] {
      EmptyComment(own, extra);
    } else {
      WithFooter(sections, own, extra);
    }
  }

  lemma WithFooter(sections: seq<seq<string>>, own: seq<nat>, extra: nat)
    requires Adds(Spaced(sections), own, extra)
    ensures SuggestedIssues(Join(Spaced(sections + [FOOTER]))) == own <==> extra == 0
  {
    PlainEnds();
    PlainAdds(FOOTER);
    SpacedAdds(sections, own, extra, [FOOTER], [], 0);
    assert own + [] == own;
    SpacedNonEmpty(sections, FOOTER);
    SuggestedJoin(Spaced(sections + [FOOTER]));
  }

  lemma EmptyComment(own: seq<nat>, extra: nat)
    requires Adds([], own, extra)
    ensures own == [] && extra == 0 && SuggestedIssues("") == []
  {
    CollectOne(LineNumber, "");
  }

  lemma SpacedNonEmpty(blocks: seq<seq<string>>, last: seq<string>)
    requires last != []
    ensures Spaced(blocks + [last]) != []
  {
    assert (blocks + [last])[|blocks|] == last;
  }

  /** An explanation with a line that looks like a reference: the tracker reads a number nobody suggested. */
  lemma ReferenceCanBeInjected(m: Match)
    requires m.candidate.kind == Issue && OneLine(m.candidate.url) && m.explanation == "See\n- #7"
    ensures SuggestedIssues(BuildComment([m], [], [])) != [m.candidate.number]
  {
    InjectedSeven(m.explanation);
    SuggestedIff([m], [], []);
    assert !QuietMatch(m, true) && m in [m];
    assert !Quiet([m], [], []);
    OneNumber(m);
  }

  lemma OneNumber(m: Match)
    requires m.candidate.kind == Issue
    ensures IssueNumbers([m]) + IssueNumbers([]) + IssueNumbers([]) == [m.candidate.number]
  {
    assert [m][..0] == [];
    FlatOfKind([m]);
    FlatOfKind([]);
  }

  lemma InjectedSeven(text: string)
    requires text == "See\n- #7"
    ensures Injected(text) != []
  {
    var line := "- #7";
    SplitFirst("See", line);
    SplitFirst(line, "");
    assert text == "See" + "\n" + line;
    assert Split(text)[1..] == [line];
    ReferenceLine(7, "");
    assert Digits(7) == "7";
    assert "- #" + Digits(7) + "" == line;
    CollectOne(LineNumber, line);
  }

  /** The line reads "- #" and a number, followed by no further digit. */
  ghost predicate IsReference(line: string, n: nat) {
    exists digits, rest :: SplitReference(line, digits, rest) && n == NatOf(digits)
  }

  predicate SplitReference(line: string, digits: string, rest: string) {
    && line == "- #" + digits + rest && digits != "" && (forall c :: c in digits ==> IsDigit(c))
    && (rest == "" || !IsDigit(rest[0]))
  }

  lemma {:induction false} DigitPrefixSplits(s: string) returns (rest: string)
    ensures s == DigitPrefix(s) + rest && (forall c :: c in DigitPrefix(s) ==> IsDigit(c)) && (rest == "" || !IsDigit(rest[0]))
  {
    if s == [] || !IsDigit(s[0]) {
      rest := s;
    } else {
      rest := DigitPrefixSplits(s[1..]);
      assert s == [s[0]] + s[1..];
    }
  }

  /** The tracker takes a number from a line exactly when the line is a reference, and then that number. */
  lemma LineNumberIff(line: string, n: nat)
    ensures LineNumber(line) == [n] <==> IsReference(line, n)
    ensures LineNumber(line) == [] || |LineNumber(line)| == 1
  {
    if LineNumber(line) == [n] {
      var tail := line[3..];
      var rest := DigitPrefixSplits(tail);
      assert line[..3] == [line[0], line[1], line[2]] == "- #" && line == line[..3] + tail;
      assert tail[0] == line[3] && DigitPrefix(tail) != "";
      assert SplitReference(line, DigitPrefix(tail), rest);
    }
    if IsReference(line, n) {
      var digits, rest :| SplitReference(line, digits, rest) && n == NatOf(digits);
      assert line[3..] == digits + rest && line[3] == digits[0] && digits[0] in digits;
      DigitPrefixIs(digits, rest);
    }
  }
}
