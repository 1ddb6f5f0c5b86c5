/** Parsing the printed magnet list gives back the magnets. */
module MagnetRoundTrip {
  import opened Basics
  import opened Text
  import opened Sorting
  import opened MagnetList

  // ----- one line

  /** The url is that of issue `number`: `base`, the first "/issues/", and the number. */
  predicate IssueUrl(url: string, base: string, number: nat) {
    url == base + ISSUES + Digits(number) && OneLine(base) && Find(base + ISSUES, ISSUES, 0) == |base|
  }

  ghost predicate HasIssueUrl(info: Info) {
    exists base :: IssueUrl(info.url, base, info.number)
  }

  /** A "/" that is not followed by "i" does not start "/issues/". */
  lemma SkipSlash(s: string)
    requires s != [] && s[0] != 'i'
    ensures Find(['/'] + s, ISSUES, 0) == if Find(s, ISSUES, 0) == -1 then -1 else 1 + Find(s, ISSUES, 0)
  {
    var t := ['/'] + s;
    assert !OccursAt(t, ISSUES, 0) by {
      assert t[1] != ISSUES[1];
    }
    FindSkip('/', s, ISSUES);
  }

  predicate UrlPart(part: string) {
    part != [] && part[0] != 'i' && '/' !in part && OneLine(part)
  }

  lemma SkipPart(part: string, s: string, at: nat)
    requires UrlPart(part) && Find(s, ISSUES, 0) == at
    ensures Find(part + s, ISSUES, 0) == |part| + at
    ensures Find(['/'] + (part + s), ISSUES, 0) == 1 + |part| + at
  {
    FindAfter(part, s, ISSUES);
    SkipSlash(part + s);
  }

  /** The urls of a repository are of this form: "https://host/owner/repo/issues/N", no part starting with "i". */
  lemma RepositoryUrl(host: string, owner: string, repo: string, number: nat)
    requires UrlPart(host) && UrlPart(owner) && UrlPart(repo)
    ensures var base := "https:/" + ("/" + (host + ("/" + (owner + ("/" + repo)))));
            IssueUrl(base + ISSUES + Digits(number), base, number)
  {
    FindHead(ISSUES, "");
    assert ISSUES + "" == ISSUES;
    var s1 := ['/'] + (repo + ISSUES);
    var s2 := ['/'] + (owner + s1);
    SkipPart(repo, ISSUES, 0);
    SkipPart(owner, s1, 1 + |repo|);
    SkipPart(host, s2, 2 + |owner| + |repo|);
    SkipScheme(host + s2, 2 + |host| + |owner| + |repo|);
    Nested("https:/", host, owner, repo, ISSUES);
  }

  lemma Nested(scheme: string, host: string, owner: string, repo: string, end: string)
    ensures scheme + ("/" + (host + ("/" + (owner + ("/" + repo))))) + end
         == scheme + (['/'] + (host + (['/'] + (owner + (['/'] + (repo + end))))))
  {
  }

  lemma SkipScheme(s: string, at: nat)
    requires Find(['/'] + s, ISSUES, 0) == 1 + at
    ensures Find("https:/" + (['/'] + s), ISSUES, 0) == 8 + at
  {
    var t := ['/'] + s;
    SkipSlash(t);
    FindAfter("https:", ['/'] + t, ISSUES);
    assert "https:/" + t == "https:" + (['/'] + t);
  }

  lemma DigitIsNoSpace(c: char)
    requires IsDigit(c)
    ensures !IsSpace(c) && c != '[' && c != '/' && c != ')' && c != '\n'
  {
  }

  lemma NumeralIsPlain(n: nat)
    ensures forall c :: c in Digits(n) ==> !IsSpace(c) && c != '[' && c != '/' && c != ')' && c != '\n'
    ensures ParseInt(Digits(n)) == Some(n)
  {
    forall c | c in Digits(n) ensures !IsSpace(c) && c != '[' && c != '/' && c != ')' && c != '\n' {
      DigitIsNoSpace(c);
    }
    NumeralRoundTrip(n);
  }

  /** The part of a line up to the url. */
  function LineHead(count: nat): string {
    "-   [" + Padded(count) + " dupes] "
  }

  lemma PaddedIsPlain(count: nat)
    ensures '[' !in Padded(count) && '/' !in Padded(count) && '\n' !in Padded(count)
  {
    NumeralIsPlain(count);
  }

  /** A numeral after spaces and before a space is the first token after the bracket before it. */
  lemma TokenAfterBracket(pre: string, pad: nat, word: string, mid: string, url: string)
    requires '[' !in pre && '[' !in word && '[' !in mid
    requires word != [] && (forall c :: c in word ==> !IsSpace(c)) && mid != [] && IsSpace(mid[0])
    ensures var second := Second(pre + (['['] + (Spaces(pad) + word + mid + url)), ['[']);
            second.Some? && FirstToken(second.value) == Some(word)
  {
    var head := Spaces(pad) + word + mid;
    SecondIs(pre, ['['], head + url);
    FindAfter(head, url, ['[']);
    var at := Find(url, ['['], 0);
    var rest := if at < 0 then url else url[..at];
    var second := Second(pre + (['['] + (head + url)), ['[']).value;
    assert second == Spaces(pad) + word + (mid + rest);
    FirstTokenIs(pad, word, mid + rest);
  }

  /** The count is the first token after the first "[". */
  lemma CountToken(count: nat, url: string)
    ensures var second := Second(LineHead(count) + url, "[");
            second.Some? && FirstToken(second.value) == Some(Digits(count))
  {
    NumeralIsPlain(count);
    var pad := if |Digits(count)| < 2 then 2 - |Digits(count)| else 0;
    TokenAfterBracket("-   ", pad, Digits(count), " dupes] ", url);
    assert "-   [" == "-   " + ['['];
    Regroup("-   ", ['['], Spaces(pad) + Digits(count), " dupes] ", url);
  }

  lemma Regroup(a: string, b: string, c: string, d: string, e: string)
    ensures a + b + c + d + e == a + (b + (c + d + e))
  {
  }

  /** The number is what follows the first "/issues/". */
  lemma NumberToken(count: nat, url: string, base: string, number: nat)
    requires IssueUrl(url, base, number)
    ensures Second(LineHead(count) + url, ISSUES) == Some(Digits(number)) && Contains(LineHead(count) + url, ISSUES)
  {
    hide Find, Digits;
    PaddedIsPlain(count);
    NumeralIsPlain(number);
    var head, digits := LineHead(count), Digits(number);
    FindExtend(base + ISSUES, ISSUES, digits);
    FindAfter(head, url, ISSUES);
    FindNone(digits, ISSUES);
    assert head + url == head + base + ISSUES + digits;
    DropFour(head, base, ISSUES, digits);
    SecondAt(head + url, ISSUES, |head| + |base|, digits);
  }

  lemma DropFour(a: string, b: string, c: string, d: string)
    ensures (a + b + c + d)[|a| + |b| + |c|..] == d
  {
  }

  lemma NumeralIsToken(n: nat)
    ensures FirstToken(Digits(n)) == Some(Digits(n)) && ParseInt(StripParens(Digits(n))) == Some(n)
  {
    NumeralIsPlain(n);
    var digits := Digits(n);
    FirstTokenIs(0, digits, "");
    assert Spaces(0) + digits + "" == digits;
    assert digits[|digits| - 1] in digits;
  }

  lemma InfoLineParses(info: Info)
    requires HasIssueUrl(info)
    ensures ParseLine(InfoLine(info)) == Some((info.count, info.number))
    ensures Contains(InfoLine(info), ISSUES)
  {
    var base :| IssueUrl(info.url, base, info.number);
    assert InfoLine(info) == LineHead(info.count) + info.url;
    CountToken(info.count, info.url);
    NumberToken(info.count, info.url, base, info.number);
    NumeralIsPlain(info.count);
    NumeralIsToken(info.number);
  }

  lemma InfoLineShape(info: Info)
    requires HasIssueUrl(info)
    ensures StartsWith(InfoLine(info), "-") && !StartsWith(InfoLine(info), "## ") && OneLine(InfoLine(info))
  {
    PaddedIsPlain(info.count);
    NumeralIsPlain(info.number);
    var base :| IssueUrl(info.url, base, info.number);
    var line := InfoLine(info);
    assert line[0] == '-';
    assert "## "[0] == '#';
  }

  // ----- the parser's dictionary

  predicate DistinctNumbers(ms: seq<Magnet>) {
    forall i, j :: 0 <= i < j < |ms| ==> ms[i].number != ms[j].number
  }

  /** `ms` holds exactly the (area, number) pairs of `q`, with the counts given by `counts`. */
  ghost predicate Represents(ms: seq<Magnet>, q: set<(string, int)>, counts: map<int, int>) {
    && DistinctNumbers(ms)
    && (forall i :: 0 <= i < |ms| ==> HasArea(q, ms[i].number))
    && (forall n :: HasArea(q, n) ==> Known(ms, n))
    && (forall i, a :: 0 <= i < |ms| ==> (a in ms[i].areas <==> (a, ms[i].number) in q && a != UNLABELED))
    && (forall i :: 0 <= i < |ms| ==> ms[i].number in counts && ms[i].count == counts[ms[i].number])
  }

  ghost predicate HasArea(q: set<(string, int)>, n: int) {
    exists a :: (a, n) in q
  }

  predicate Known(ms: seq<Magnet>, n: int) {
    exists i :: 0 <= i < |ms| && ms[i].number == n
  }

  function Here(area: string): seq<string> {
    if area == UNLABELED then [] else [area]
  }

  lemma {:induction false} AddMagnetNew(ms: seq<Magnet>, n: int, area: string, count: int)
    requires !Known(ms, n)
    ensures AddMagnet(ms, n, area, count) == ms + [Magnet(n, Here(area), count)]
  {
    if ms != [] {
      assert ms[0].number != n;
      forall i | 0 <= i < |ms[1..]| ensures ms[1..][i].number != n {
        assert ms[1..][i] == ms[i + 1];
      }
      AddMagnetNew(ms[1..], n, area, count);
      assert ms == [ms[0]] + ms[1..];
    }
  }

  lemma {:induction false} AddMagnetKnown(ms: seq<Magnet>, i: nat, area: string, count: int)
    requires i < |ms| && DistinctNumbers(ms)
    ensures AddMagnet(ms, ms[i].number, area, count) == ms[i := ms[i].(areas := ms[i].areas + Here(area))]
  {
    if i > 0 {
      AddMagnetKnown(ms[1..], i - 1, area, count);
    }
  }

  lemma HasAreaAfter(q: set<(string, int)>, n: int, area: string)
    ensures forall m :: HasArea(q + {(area, n)}, m) <==> HasArea(q, m) || m == n
  {
    var q' := q + {(area, n)};
    assert (area, n) in q';
    forall m | HasArea(q, m) ensures HasArea(q', m) {
      var a :| (a, m) in q;
      assert (a, m) in q';
    }
  }

  lemma AddKnownRepresents(ms: seq<Magnet>, q: set<(string, int)>, counts: map<int, int>, i: nat, area: string)
    requires Represents(ms, q, counts) && i < |ms|
    ensures Represents(ms[i := ms[i].(areas := ms[i].areas + Here(area))], q + {(area, ms[i].number)}, counts)
  {
    var r := ms[i := ms[i].(areas := ms[i].areas + Here(area))];
    HasAreaAfter(q, ms[i].number, area);
    assert forall j :: 0 <= j < |ms| ==> r[j].number == ms[j].number;
    forall m | Known(ms, m) ensures Known(r, m) {
      var j :| 0 <= j < |ms| && ms[j].number == m;
      assert r[j].number == m;
    }
    assert Known(ms, ms[i].number);
  }

  lemma AddNewRepresents(ms: seq<Magnet>, q: set<(string, int)>, counts: map<int, int>, n: int, area: string)
    requires Represents(ms, q, counts) && n in counts && !Known(ms, n)
    ensures Represents(ms + [Magnet(n, Here(area), counts[n])], q + {(area, n)}, counts)
  {
    var r := ms + [Magnet(n, Here(area), counts[n])];
    HasAreaAfter(q, n, area);
    assert !HasArea(q, n);
    forall m | Known(ms, m) || m == n ensures Known(r, m) {
      if m == n {
        assert r[|ms|].number == n;
      } else {
        var j :| 0 <= j < |ms| && ms[j].number == m;
        assert r[j].number == m;
      }
    }
  }

  lemma AddMagnetRepresents(ms: seq<Magnet>, q: set<(string, int)>, counts: map<int, int>, n: int, area: string)
    requires Represents(ms, q, counts) && n in counts
    ensures Represents(AddMagnet(ms, n, area, counts[n]), q + {(area, n)}, counts)
  {
    if i :| 0 <= i < |ms| && ms[i].number == n {
      AddMagnetKnown(ms, i, area, counts[n]);
      AddKnownRepresents(ms, q, counts, i, area);
    } else {
      AddMagnetNew(ms, n, area, counts[n]);
      AddNewRepresents(ms, q, counts, n, area);
    }
  }

  // ----- the lines of the list

  lemma {:induction false} RunAppend(s: State, xs: seq<string>, ys: seq<string>)
    ensures Run(s, xs + ys) == Run(Run(s, xs), ys)
  {
    if ys == [] {
      assert xs + ys == xs;
    } else {
      var init := ys[..|ys| - 1];
      assert (xs + ys)[..|xs + ys| - 1] == xs + init;
      RunAppend(s, xs, init);
    }
  }

  function Numbers(infos: seq<Info>): set<int> {
    set info | info in infos :: info.number
  }

  function InfoPairs(area: string, infos: seq<Info>): set<(string, int)> {
    if area == "" then {} else set n | n in Numbers(infos) :: (area, n)
  }

  predicate Counted(info: Info, counts: map<int, int>) {
    info.number in counts && counts[info.number] == info.count
  }

  lemma {:induction false} RunInfoLines(s: State, infos: seq<Info>, q: set<(string, int)>, counts: map<int, int>)
    requires Represents(s.magnets, q, counts)
    requires forall info :: info in infos ==> HasIssueUrl(info) && Counted(info, counts)
    ensures Run(s, InfoLines(infos)).area == s.area
    ensures Represents(Run(s, InfoLines(infos)).magnets, q + InfoPairs(s.area, infos), counts)
  {
    if infos == [] {
      assert q + InfoPairs(s.area, infos) == q;
    } else {
      var init, last := infos[..|infos| - 1], infos[|infos| - 1];
      assert infos == init + [last];
      RunInfoLines(s, init, q, counts);
      var before := Run(s, InfoLines(init));
      var lines := InfoLines(infos);
      assert lines[..|lines| - 1] == InfoLines(init);
      assert Run(s, lines) == Step(before, InfoLine(last));
      InfoLineParses(last);
      InfoLineShape(last);
      assert Numbers(infos) == Numbers(init) + {last.number as int};
      if s.area == "" {
        assert q + InfoPairs(s.area, infos) == q + InfoPairs(s.area, init);
      } else {
        AddMagnetRepresents(before.magnets, q + InfoPairs(s.area, init), counts, last.number, s.area);
        assert q + InfoPairs(s.area, infos) == q + InfoPairs(s.area, init) + {(s.area, last.number as int)};
      }
    }
  }

  function GroupPairs(g: Group): set<(string, int)> {
    InfoPairs(Strip(g.area), g.infos)
  }

  /** The issues of a group have issue urls, and the counts given by `counts`. */
  ghost predicate GroupOk(g: Group, counts: map<int, int>) {
    forall info :: info in g.infos ==> HasIssueUrl(info) && Counted(info, counts)
  }

  lemma RunGroup(s: State, g: Group, q: set<(string, int)>, counts: map<int, int>)
    requires Represents(s.magnets, q, counts) && GroupOk(g, counts)
    ensures Represents(Run(s, GroupLines(g)).magnets, q + GroupPairs(g), counts)
  {
    var header := ["", "## " + g.area, ""];
    var sorted := SortDesc(g.infos, ByCount);
    SortDescSpec(g.infos, ByCount);
    RunAppend(s, header, InfoLines(sorted));
    RunHeader(s, g.area);
    RunInfoLines(Run(s, header), sorted, q, counts);
    assert Numbers(sorted) == Numbers(g.infos);
  }

  lemma RunHeader(s: State, area: string)
    ensures Run(s, ["", "## " + area, ""]) == State(Strip(area), s.magnets)
  {
    var line := "## " + area;
    var lines := ["", line, ""];
    assert lines[..2] == ["", line] && ["", line][..1] == [""] && [""][..0] == [];
    assert line[3..] == area;
    assert StartsWith(line, "## ");
    assert Run(s, [""]) == Step(s, "");
  }

  function AllPairs(groups: seq<Group>): set<(string, int)> {
    if groups == [] then {} else AllPairs(groups[..|groups| - 1]) + GroupPairs(groups[|groups| - 1])
  }

  lemma RunIntro(intro: string)
    requires !StartsWith(intro, "## ")
    ensures Run(State("", []), [intro]) == State("", [])
  {
    var none: seq<string> := [];
    assert [intro][..0] == none;
    assert Run(State("", []), [intro]) == Step(State("", []), intro);
  }

  lemma RunConcat(s: State, all: seq<string>, xs: seq<string>, ys: seq<string>)
    requires all == xs + ys
    ensures Run(s, all) == Run(Run(s, xs), ys)
  {
    RunAppend(s, xs, ys);
  }

  lemma {:induction false} RunAll(intro: string, groups: seq<Group>, counts: map<int, int>)
    requires !StartsWith(intro, "## ") && forall g :: g in groups ==> GroupOk(g, counts)
    ensures Represents(Run(State("", []), AllLines(intro, groups)).magnets, AllPairs(groups), counts)
  {
    if groups == [] {
      RunIntro(intro);
    } else {
      var init, last := groups[..|groups| - 1], groups[|groups| - 1];
      RunAll(intro, init, counts);
      var xs, ys := AllLines(intro, init), GroupLines(last);
      RunConcat(State("", []), AllLines(intro, groups), xs, ys);
      RunGroup(Run(State("", []), xs), last, AllPairs(init), counts);
    }
  }

  // ----- the groups

  ghost predicate InGroups(groups: seq<Group>, area: string, info: Info) {
    exists i :: 0 <= i < |groups| && groups[i].area == area && info in groups[i].infos
  }

  lemma {:induction false} AddToAreaMembers(groups: seq<Group>, area: string, info: Info, a: string, x: Info)
    ensures InGroups(AddToArea(groups, area, info), a, x) <==> InGroups(groups, a, x) || (a == area && x == info)
  {
    var r := AddToArea(groups, area, info);
    if groups == [] {
      assert r[0].area == area && info in r[0].infos;
    } else {
      var rest := groups[1..];
      InGroupsSplit(groups, a, x);
      InGroupsSplit(r, a, x);
      if groups[0].area == area {
        assert r[1..] == rest;
      } else {
        assert r[1..] == AddToArea(rest, area, info);
        AddToAreaMembers(rest, area, info, a, x);
      }
    }
  }

  lemma InGroupsSplit(groups: seq<Group>, a: string, x: Info)
    requires groups != []
    ensures InGroups(groups, a, x) <==> (groups[0].area == a && x in groups[0].infos) || InGroups(groups[1..], a, x)
  {
    var rest := groups[1..];
    if InGroups(rest, a, x) {
      var i :| 0 <= i < |rest| && rest[i].area == a && x in rest[i].infos;
      assert groups[i + 1].area == a && x in groups[i + 1].infos;
    }
    if InGroups(groups, a, x) {
      var i :| 0 <= i < |groups| && groups[i].area == a && x in groups[i].infos;
      if i > 0 {
        assert rest[i - 1].area == a && x in rest[i - 1].infos;
      }
    }
  }

  lemma {:induction false} AddAreasMembers(groups: seq<Group>, info: Info, k: nat, a: string, x: Info)
    requires k <= |info.areas|
    ensures InGroups(AddAreas(groups, info, k), a, x) <==> InGroups(groups, a, x) || (a in info.areas[..k] && x == info)
  {
    if k > 0 {
      AddAreasMembers(groups, info, k - 1, a, x);
      AddToAreaMembers(AddAreas(groups, info, k - 1), info.areas[k - 1], info, a, x);
      assert info.areas[..k] == info.areas[..k - 1] + [info.areas[k - 1]];
    }
  }

  /** An issue stands under exactly its own areas. */
  lemma {:induction false} GroupedMembers(infos: seq<Info>, k: nat, a: string, x: Info)
    requires k <= |infos|
    ensures InGroups(Grouped(infos, k), a, x) <==> x in infos[..k] && a in x.areas
  {
    if k > 0 {
      var info := infos[k - 1];
      GroupedMembers(infos, k - 1, a, x);
      AddAreasMembers(Grouped(infos, k - 1), info, |info.areas|, a, x);
      assert info.areas[..|info.areas|] == info.areas;
      assert infos[..k] == infos[..k - 1] + [info];
    }
  }

  lemma {:induction false} AllPairsMembers(groups: seq<Group>, a: string, n: int)
    ensures (a, n) in AllPairs(groups) <==>
              a != "" && exists area, info :: Strip(area) == a && InGroups(groups, area, info) && info.number == n
  {
    if groups != [] {
      var init, last := groups[..|groups| - 1], groups[|groups| - 1];
      AllPairsMembers(init, a, n);
      forall area, info ensures InGroups(groups, area, info) <==> InGroups(init, area, info) || (last.area == area && info in last.infos) {
        InGroupsLast(groups, area, info);
      }
      assert (a, n) in GroupPairs(last) <==> a != "" && a == Strip(last.area) && n in Numbers(last.infos);
      assert n in Numbers(last.infos) <==> exists info :: info in last.infos && info.number == n;
    }
  }

  lemma InGroupsLast(groups: seq<Group>, a: string, x: Info)
    requires groups != []
    ensures var n := |groups| - 1;
            InGroups(groups, a, x) <==> InGroups(groups[..n], a, x) || (groups[n].area == a && x in groups[n].infos)
  {
    var n := |groups| - 1;
    var init := groups[..n];
    if InGroups(init, a, x) {
      var i :| 0 <= i < |init| && init[i].area == a && x in init[i].infos;
      assert groups[i].area == a && x in groups[i].infos;
    }
    if InGroups(groups, a, x) {
      var i :| 0 <= i < |groups| && groups[i].area == a && x in groups[i].infos;
      if i < n {
        assert init[i].area == a && x in init[i].infos;
      }
    }
  }

  // ----- the round trip

  /** The inputs the guarantee is for: distinct issues with issue urls and one-line area names. */
  ghost predicate Printable(infos: seq<Info>) {
    && (forall i, j :: 0 <= i < j < |infos| ==> infos[i].number != infos[j].number)
    && (forall info :: info in infos ==> HasIssueUrl(info))
    && (forall info, a :: info in infos && a in info.areas ==> OneLine(a))
  }

  /** The areas that come back: stripped, without blank ones and without the "unlabeled" sentinel. */
  function AreaNames(info: Info): set<string> {
    set a | a in info.areas && Strip(a) != "" && Strip(a) != UNLABELED :: Strip(a)
  }

  predicate SameMagnet(m: Magnet, info: Info) {
    m.number == info.number && m.count == info.count && (set a | a in m.areas) == AreaNames(info)
  }

  /** An issue is listed at all iff one of its area names is not blank. */
  ghost predicate Listed(info: Info) {
    exists a :: a in info.areas && Strip(a) != ""
  }

  function CountMap(infos: seq<Info>): map<int, int> {
    map n: int | n in Numbers(infos) :: CountOf(infos, n)
  }

  function CountOf(infos: seq<Info>, n: int): int {
    if infos == [] then 0 else if infos[0].number == n then infos[0].count else CountOf(infos[1..], n)
  }

  lemma {:induction false} CountOfInfo(infos: seq<Info>, i: nat)
    requires i < |infos| && forall j, k :: 0 <= j < k < |infos| ==> infos[j].number != infos[k].number
    ensures CountOf(infos, infos[i].number) == infos[i].count
  {
    if i > 0 {
      CountOfInfo(infos[1..], i - 1);
    }
  }

  lemma AllCounted(infos: seq<Info>)
    requires Printable(infos)
    ensures forall info :: info in infos ==> Counted(info, CountMap(infos))
  {
    forall info | info in infos ensures Counted(info, CountMap(infos)) {
      var i :| 0 <= i < |infos| && infos[i] == info;
      CountOfInfo(infos, i);
      assert info.number as int in Numbers(infos);
    }
  }

  lemma {:induction false} InfoLinesOneLine(infos: seq<Info>)
    requires forall info :: info in infos ==> HasIssueUrl(info)
    ensures forall l :: l in InfoLines(infos) ==> OneLine(l)
  {
    if infos != [] {
      InfoLinesOneLine(infos[..|infos| - 1]);
      InfoLineShape(infos[|infos| - 1]);
    }
  }

  lemma {:induction false} AllLinesOneLine(intro: string, groups: seq<Group>)
    requires OneLine(intro) && forall g :: g in groups ==> OneLine(g.area) && forall info :: info in g.infos ==> HasIssueUrl(info)
    ensures AllLines(intro, groups) != [] && forall l :: l in AllLines(intro, groups) ==> OneLine(l)
  {
    if groups != [] {
      var init, last := groups[..|groups| - 1], groups[|groups| - 1];
      AllLinesOneLine(intro, init);
      SortDescSpec(last.infos, ByCount);
      InfoLinesOneLine(SortDesc(last.infos, ByCount));
    }
  }

  lemma IntroShape()
    ensures OneLine(INTRO) && !StartsWith(INTRO, "## ")
  {
    assert OneLine("These are the issues ") && OneLine("that are frequently ") && OneLine("re-reported. ");
    assert OneLine("The list is generated ") && OneLine("regularly by running ") && OneLine("a script.");
    assert INTRO[0] == 'T' && "## "[0] == '#';
  }

  /** Every group of the printed list holds issues of `infos`, under one-line area names. */
  lemma GroupsAreGood(infos: seq<Info>, g: Group)
    requires Printable(infos) && g in Grouped(infos, |infos|)
    ensures GroupOk(g, CountMap(infos)) && OneLine(g.area)
  {
    var groups := Grouped(infos, |infos|);
    var i :| 0 <= i < |groups| && groups[i] == g;
    AllCounted(infos);
    forall info | info in g.infos ensures HasIssueUrl(info) && Counted(info, CountMap(infos)) && OneLine(g.area) {
      assert groups[i].area == g.area && info in groups[i].infos;
      assert InGroups(groups, g.area, info);
      GroupedMembers(infos, |infos|, g.area, info);
      assert infos[..|infos|] == infos;
    }
    GroupsNonEmpty(infos, |infos|);
    assert g.infos[0] in g.infos;
  }

  lemma {:induction false} AddToAreaNonEmpty(groups: seq<Group>, area: string, info: Info)
    requires forall g :: g in groups ==> g.infos != []
    ensures forall g :: g in AddToArea(groups, area, info) ==> g.infos != []
  {
    if groups != [] && groups[0].area != area {
      AddToAreaNonEmpty(groups[1..], area, info);
    }
  }

  lemma {:induction false} AddAreasNonEmpty(groups: seq<Group>, info: Info, k: nat)
    requires k <= |info.areas| && forall g :: g in groups ==> g.infos != []
    ensures forall g :: g in AddAreas(groups, info, k) ==> g.infos != []
  {
    if k > 0 {
      AddAreasNonEmpty(groups, info, k - 1);
      AddToAreaNonEmpty(AddAreas(groups, info, k - 1), info.areas[k - 1], info);
    }
  }

  lemma {:induction false} GroupsNonEmpty(infos: seq<Info>, k: nat)
    requires k <= |infos|
    ensures forall g :: g in Grouped(infos, k) ==> g.infos != []
  {
    if k > 0 {
      GroupsNonEmpty(infos, k - 1);
      AddAreasNonEmpty(Grouped(infos, k - 1), infos[k - 1], |infos[k - 1].areas|);
    }
  }

  /** The pairs that the printed list holds. */
  lemma PairsPrinted(infos: seq<Info>, groups: seq<Group>, a: string, n: int)
    requires forall g :: g in groups <==> g in Grouped(infos, |infos|)
    ensures (a, n) in AllPairs(groups) <==>
              a != "" && exists info, area :: info in infos && area in info.areas && Strip(area) == a && info.number == n
  {
    AllPairsMembers(groups, a, n);
    var all := Grouped(infos, |infos|);
    forall area, info ensures InGroups(groups, area, info) <==> info in infos && area in info.areas {
      SameGroups(groups, all, area, info);
      GroupedMembers(infos, |infos|, area, info);
      assert infos[..|infos|] == infos;
    }
  }

  lemma SameGroups(xs: seq<Group>, ys: seq<Group>, area: string, info: Info)
    requires forall g :: g in xs <==> g in ys
    ensures InGroups(xs, area, info) <==> InGroups(ys, area, info)
  {
    if InGroups(xs, area, info) {
      var i :| 0 <= i < |xs| && xs[i].area == area && info in xs[i].infos;
      assert xs[i] in ys;
    }
    if InGroups(ys, area, info) {
      var i :| 0 <= i < |ys| && ys[i].area == area && info in ys[i].infos;
      assert ys[i] in xs;
    }
  }

  /** What the parser collects, before it sorts. */
  lemma ParsedRepresents(infos: seq<Info>) returns (ms: seq<Magnet>, q: set<(string, int)>)
    requires Printable(infos)
    ensures ParseBody(PrintBody(infos)) == SortDesc(ms, MagnetCount)
    ensures Represents(ms, q, CountMap(infos))
    ensures forall a, n :: (a, n) in q <==>
              a != "" && exists info, area :: info in infos && area in info.areas && Strip(area) == a && info.number == n
  {
    var all := Grouped(infos, |infos|);
    var groups := SortDesc(all, ByTotal);
    SortDescSpec(all, ByTotal);
    forall g | g in groups ensures GroupOk(g, CountMap(infos)) && OneLine(g.area) {
      GroupsAreGood(infos, g);
    }
    IntroShape();
    AllLinesOneLine(INTRO, groups);
    SplitJoin(BodyLines(infos));
    ms := Run(State("", []), BodyLines(infos)).magnets;
    q := AllPairs(groups);
    RunAll(INTRO, groups, CountMap(infos));
    forall a, n ensures (a, n) in q <==>
              a != "" && exists info, area :: info in infos && area in info.areas && Strip(area) == a && info.number == n {
      PairsPrinted(infos, groups, a, n);
    }
  }

  /**
   Parsing the printed list gives the magnets back: sorted by count, each number once, each with the number, the count
   and the areas of one of the printed issues; and every issue with a non-blank area is there.
   */
  lemma RoundTrip(infos: seq<Info>)
    requires Printable(infos)
    ensures var r := ParseBody(PrintBody(infos));
            && Descending(r, MagnetCount) && DistinctNumbers(r)
            && (forall m :: m in r ==> exists info :: info in infos && SameMagnet(m, info))
            && (forall info :: info in infos ==> (Listed(info) <==> exists m :: m in r && SameMagnet(m, info)))
  {
    var ms, q := ParsedRepresents(infos);
    SortDescSpec(ms, MagnetCount);
    var r := ParseBody(PrintBody(infos));
    SortedDistinct(ms);
    AllCounted(infos);
    forall m | m in ms ensures exists info :: info in infos && SameMagnet(m, info) {
      var info := MagnetSource(infos, ms, q, m);
    }
    forall info | info in infos ensures Listed(info) <==> exists m :: m in ms && SameMagnet(m, info) {
      ListedIff(infos, ms, q, info);
    }
  }

  lemma SameNumber(ms: seq<Magnet>, x: Magnet, y: Magnet)
    requires DistinctNumbers(ms) && x in ms && y in ms && x.number == y.number
    ensures x == y
  {
    var i :| 0 <= i < |ms| && ms[i] == x;
    var j :| 0 <= j < |ms| && ms[j] == y;
  }

  lemma SortedDistinct(ms: seq<Magnet>)
    requires DistinctNumbers(ms)
    ensures DistinctNumbers(SortDesc(ms, MagnetCount))
  {
    SortDescSpec(ms, MagnetCount);
    PermutedDistinct(ms, SortDesc(ms, MagnetCount));
  }

  lemma PermutedDistinct(ms: seq<Magnet>, r: seq<Magnet>)
    requires DistinctNumbers(ms) && multiset(r) == multiset(ms) && forall m :: m in r ==> m in ms
    ensures DistinctNumbers(r)
  {
    forall i, j | 0 <= i < j < |r| ensures r[i].number != r[j].number {
      if r[i].number == r[j].number {
        SameNumber(ms, r[i], r[j]);
        Twice(r, i, j);
        Once(ms, r[i]);
      }
    }
  }

  lemma Twice(r: seq<Magnet>, i: nat, j: nat)
    requires i < j < |r| && r[i] == r[j]
    ensures multiset(r)[r[i]] >= 2
  {
    assert r == r[..j] + r[j..];
    assert r[i] == r[..j][i] && r[i] in r[..j] && r[j] == r[j..][0] && r[j] in r[j..];
  }

  lemma {:induction false} Once(ms: seq<Magnet>, m: Magnet)
    requires DistinctNumbers(ms)
    ensures multiset(ms)[m] <= 1
  {
    if ms != [] {
      var init, last := ms[..|ms| - 1], ms[|ms| - 1];
      Once(init, m);
      assert ms == init + [last];
      if m == last {
        assert m !in init;
      }
    }
  }

  /** The printed issue that a parsed magnet comes from. */
  lemma MagnetSource(infos: seq<Info>, ms: seq<Magnet>, q: set<(string, int)>, m: Magnet) returns (info: Info)
    requires Printable(infos) && Represents(ms, q, CountMap(infos)) && m in ms
    requires forall info :: info in infos ==> Counted(info, CountMap(infos))
    requires forall a, n :: (a, n) in q <==>
               a != "" && exists info, area :: info in infos && area in info.areas && Strip(area) == a && info.number == n
    ensures info in infos && Listed(info) && SameMagnet(m, info)
  {
    var i :| 0 <= i < |ms| && ms[i] == m;
    var a :| (a, m.number) in q;
    var area;
    info, area :| info in infos && area in info.areas && Strip(area) == a && info.number == m.number;
    MagnetMatches(infos, ms, q, i, info);
  }

  lemma MagnetMatches(infos: seq<Info>, ms: seq<Magnet>, q: set<(string, int)>, i: nat, info: Info)
    requires Printable(infos) && Represents(ms, q, CountMap(infos)) && i < |ms|
    requires info in infos && info.number == ms[i].number && Counted(info, CountMap(infos))
    requires forall a, n :: (a, n) in q <==>
               a != "" && exists info, area :: info in infos && area in info.areas && Strip(area) == a && info.number == n
    ensures SameMagnet(ms[i], info)
  {
    var m := ms[i];
    forall a ensures a in m.areas <==> a in AreaNames(info) {
      if a in AreaNames(info) {
        var area :| area in info.areas && Strip(area) == a;
        assert (a, m.number) in q;
      }
      if a in m.areas {
        assert (a, m.number) in q;
        var other, area :| other in infos && area in other.areas && Strip(area) == a && other.number == m.number;
        assert other == info;
      }
    }
  }

  lemma ListedMagnet(infos: seq<Info>, ms: seq<Magnet>, q: set<(string, int)>, info: Info) returns (m: Magnet)
    requires Printable(infos) && Represents(ms, q, CountMap(infos)) && info in infos && Listed(info)
    requires Counted(info, CountMap(infos))
    requires forall a, n :: (a, n) in q <==>
               a != "" && exists info, area :: info in infos && area in info.areas && Strip(area) == a && info.number == n
    ensures m in ms && SameMagnet(m, info)
  {
    var area :| area in info.areas && Strip(area) != "";
    assert (Strip(area), info.number as int) in q;
    assert HasArea(q, info.number);
    var i :| 0 <= i < |ms| && ms[i].number == info.number;
    MagnetMatches(infos, ms, q, i, info);
    m := ms[i];
  }

  lemma ListedIff(infos: seq<Info>, ms: seq<Magnet>, q: set<(string, int)>, info: Info)
    requires Printable(infos) && Represents(ms, q, CountMap(infos)) && info in infos
    requires forall info :: info in infos ==> Counted(info, CountMap(infos))
    requires forall a, n :: (a, n) in q <==>
               a != "" && exists info, area :: info in infos && area in info.areas && Strip(area) == a && info.number == n
    ensures Listed(info) <==> exists m :: m in ms && SameMagnet(m, info)
  {
    if Listed(info) {
      var m := ListedMagnet(infos, ms, q, info);
    }
    if m :| m in ms && SameMagnet(m, info) {
      var source := MagnetSource(infos, ms, q, m);
      assert source == info;
    }
  }
}
