/** What the parser reads out of any issue body, well-formed or not. */
module MagnetParser {
  import opened Basics
  import opened Text
  import opened Sorting
  import opened MagnetList

  // ----- words and numbers

  predicate Blank(s: string) {
    forall c :: c in s ==> IsSpace(c)
  }

  /** `core` is `s` without the white space around it. */
  ghost predicate IsCore(s: string, core: string) {
    exists a, b :: s == a + core + b && Blank(a) && Blank(b)
      && (core == "" || (!IsSpace(core[0]) && !IsSpace(core[|core| - 1])))
  }

  lemma {:induction false} StripLeftIs(s: string) returns (a: string)
    ensures s == a + StripLeft(s) && Blank(a) && (StripLeft(s) == "" || !IsSpace(StripLeft(s)[0]))
  {
    hide IsSpace;
    if s != [] && IsSpace(s[0]) {
      var b := StripLeftIs(s[1..]);
      a := [s[0]] + b;
      assert s == [s[0]] + s[1..];
    } else {
      a := "";
    }
  }

  lemma {:induction false} StripRightIs(s: string) returns (b: string)
    ensures s == StripRight(s) + b && Blank(b) && (StripRight(s) == "" || !IsSpace(StripRight(s)[|StripRight(s)| - 1]))
  {
    hide IsSpace;
    if s != [] && IsSpace(s[|s| - 1]) {
      var c := StripRightIs(s[..|s| - 1]);
      b := c + [s[|s| - 1]];
      assert s == s[..|s| - 1] + [s[|s| - 1]];
    } else {
      b := "";
    }
  }

  lemma StripIs(s: string)
    ensures IsCore(s, Strip(s))
  {
    var a := StripLeftIs(s);
    var mid := StripLeft(s);
    var b := StripRightIs(mid);
    assert s == a + Strip(s) + b;
    if Strip(s) != "" {
      assert mid[0] == Strip(s)[0];
    }
  }

  /** `word` is the first word of `s`: white space before it, and the end or white space behind it. */
  ghost predicate IsFirstWord(s: string, word: string) {
    exists a, b :: Surrounds(s, a, word, b)
  }

  predicate Surrounds(s: string, a: string, word: string, b: string) {
    && s == a + word + b && Blank(a) && word != "" && (forall c :: c in word ==> !IsSpace(c))
    && (b == "" || IsSpace(b[0]))
  }

  lemma {:induction false} WordSplits(s: string) returns (b: string)
    ensures s == Word(s) + b && (forall c :: c in Word(s) ==> !IsSpace(c)) && (b == "" || IsSpace(b[0]))
  {
    hide IsSpace;
    if s == [] || IsSpace(s[0]) {
      b := s;
    } else {
      b := WordSplits(s[1..]);
      assert s == [s[0]] + s[1..];
    }
  }

  /** There is a first word exactly when the text is not blank, and then it is that one. */
  lemma FirstTokenIff(s: string)
    ensures match FirstToken(s) case None => Blank(s) case Some(word) => IsFirstWord(s, word)
  {
    var a := StripLeftIs(s);
    var rest := StripLeft(s);
    var b := WordSplits(rest);
    if Word(rest) == "" {
      assert rest == "";
    } else {
      assert s == a + (Word(rest) + b) == a + Word(rest) + b;
      assert Surrounds(s, a, Word(rest), b);
    }
  }

  /** The text is a numeral for `n`: digits with an optional sign. */
  ghost predicate ReadsAs(text: string, n: int) {
    || (AllDigits(text) && n == NatOf(text))
    || (|text| > 1 && text[0] == '-' && AllDigits(text[1..]) && n == 0 - NatOf(text[1..]) as int)
    || (|text| > 1 && text[0] == '+' && AllDigits(text[1..]) && n == NatOf(text[1..]))
  }

  predicate AllDigits(text: string) {
    text != "" && forall c :: c in text ==> IsDigit(c)
  }

  lemma ParseIntIff(text: string, n: int)
    ensures ParseInt(text) == Some(n) <==> ReadsAs(text, n)
  {
    if text != "" && !IsDigit(text[0]) {
      assert text[0] in text;
    }
  }

  /** `rest` stands between the first and the second `part` of `s`, or behind the only one. */
  ghost predicate BetweenFirstTwo(s: string, part: string, rest: string) {
    exists i :: FirstOccurs(s, part, i) && UpToNext(s[i + |part|..], part, rest)
  }

  predicate FirstOccurs(s: string, part: string, i: int) {
    OccursAt(s, part, i) && forall j :: 0 <= j < i ==> !OccursAt(s, part, j)
  }

  /** `rest` is what stands before the first `part` of `s`, or all of `s`. */
  ghost predicate UpToNext(s: string, part: string, rest: string) {
    || (rest == s && forall j :: 0 <= j ==> !OccursAt(s, part, j))
    || (exists i :: FirstOccurs(s, part, i) && rest == s[..i])
  }

  lemma SecondIff(s: string, part: string, rest: string)
    requires part != []
    ensures Second(s, part) == Some(rest) <==> BetweenFirstTwo(s, part, rest)
  {
    hide UpToNext, Find;
    FirstFound(s, part);
    var i := Find(s, part, 0);
    if i >= 0 {
      assert FirstOccurs(s, part, i);
      UpToNextIff(s[i + |part|..], part, rest);
    }
  }

  lemma FirstFound(s: string, part: string)
    ensures forall i :: FirstOccurs(s, part, i) <==> i == Find(s, part, 0) && i >= 0
    ensures Find(s, part, 0) < 0 ==> forall j :: 0 <= j ==> !OccursAt(s, part, j)
  {
    FindSpec(s, part, 0);
  }

  lemma UpToNextIff(s: string, part: string, rest: string)
    ensures UpToNext(s, part, rest) <==> rest == if Find(s, part, 0) < 0 then s else s[..Find(s, part, 0)]
  {
    hide Find;
    FirstFound(s, part);
    if Find(s, part, 0) >= 0 {
      assert FirstOccurs(s, part, Find(s, part, 0));
    }
  }

  /** `core` is `s` without closing parentheses at its end. */
  ghost predicate WithoutParens(s: string, core: string) {
    exists b :: Closed(s, core, b)
  }

  predicate Closed(s: string, core: string, b: string) {
    s == core + b && (forall c :: c in b ==> c == ')') && (core == "" || core[|core| - 1] != ')')
  }

  lemma OneMoreParen(s: string, core: string, b: string)
    requires s != "" && s[|s| - 1] == ')' && Closed(s[..|s| - 1], core, b)
    ensures Closed(s, core, b + ")")
  {
    assert s == s[..|s| - 1] + ")" == core + (b + ")");
  }

  lemma {:induction false} StripParensIs(s: string)
    ensures WithoutParens(s, StripParens(s))
  {
    if s != [] && s[|s| - 1] == ')' {
      StripParensIs(s[..|s| - 1]);
      var b :| Closed(s[..|s| - 1], StripParens(s), b);
      OneMoreParen(s, StripParens(s), b);
    } else {
      assert Closed(s, s, "");
    }
  }

  /** The line gives the count and the number: the first word after "[", and the first word after "/issues/" without ")". */
  ghost predicate LineGives(line: string, count: int, number: int) {
    exists inside, word, tail, last, digits ::
      && BetweenFirstTwo(line, "[", inside) && IsFirstWord(inside, word) && ReadsAs(word, count)
      && BetweenFirstTwo(line, "/issues/", tail) && IsFirstWord(tail, last) && WithoutParens(last, digits)
      && ReadsAs(digits, number)
  }

  /** What the parser reads from a line is what the line gives. */
  lemma ParseLineSound(line: string)
    requires ParseLine(line).Some?
    ensures LineGives(line, ParseLine(line).value.0, ParseLine(line).value.1)
  {
    var inside, tail := Second(line, "[").value, Second(line, ISSUES).value;
    SecondIff(line, "[", inside);
    SecondIff(line, ISSUES, tail);
    FirstTokenIff(inside);
    FirstTokenIff(tail);
    var word, last := FirstToken(inside).value, FirstToken(tail).value;
    StripParensIs(last);
    ParseIntIff(word, ParseLine(line).value.0);
    ParseIntIff(StripParens(last), ParseLine(line).value.1);
  }

  lemma FirstWordIsUnique(s: string, x: string)
    requires IsFirstWord(s, x)
    ensures FirstToken(s) == Some(x)
  {
    hide StripLeft, Word;
    var a, b :| Surrounds(s, a, x, b);
    var rest := x + b;
    assert rest[0] == x[0] && x[0] in x;
    assert s == a + rest;
    SkipBlank(a, rest);
    WordIs(x, b);
  }

  lemma {:induction false} SkipBlank(a: string, s: string)
    requires Blank(a) && (s == "" || !IsSpace(s[0]))
    ensures StripLeft(a + s) == s
  {
    if a == [] {
      assert a + s == s;
    } else {
      assert (a + s)[1..] == a[1..] + s && (a + s)[0] == a[0] && a[0] in a;
      SkipBlank(a[1..], s);
    }
  }

  lemma {:induction false} ParensAreUnique(s: string, core: string)
    requires WithoutParens(s, core)
    ensures StripParens(s) == core
    decreases |s|
  {
    var b :| Closed(s, core, b);
    if b == [] {
      assert s == core;
    } else {
      var n := |b| - 1;
      assert s[..|s| - 1] == core + b[..n] && s[|s| - 1] == b[n] && b[n] in b;
      assert forall c :: c in b[..n] ==> c in b;
      assert Closed(s[..|s| - 1], core, b[..n]);
      ParensAreUnique(s[..|s| - 1], core);
    }
  }

  /** And a line that gives something is read. */
  lemma ParseLineComplete(line: string, count: int, number: int)
    requires LineGives(line, count, number)
    ensures ParseLine(line) == Some((count, number))
  {
    var inside, word, tail, last, digits :|
      && BetweenFirstTwo(line, "[", inside) && IsFirstWord(inside, word) && ReadsAs(word, count)
      && BetweenFirstTwo(line, "/issues/", tail) && IsFirstWord(tail, last) && WithoutParens(last, digits)
      && ReadsAs(digits, number);
    SecondIff(line, "[", inside);
    SecondIff(line, ISSUES, tail);
    FirstWordIsUnique(inside, word);
    FirstWordIsUnique(tail, last);
    ParensAreUnique(last, digits);
    ParseIntIff(word, count);
    ParseIntIff(digits, number);
  }

  /** The parser reads from a line exactly what the line gives. */
  lemma ParseLineIff(line: string, count: int, number: int)
    ensures ParseLine(line) == Some((count, number)) <==> LineGives(line, count, number)
  {
    if ParseLine(line) == Some((count, number)) {
      ParseLineSound(line);
    }
    if LineGives(line, count, number) {
      ParseLineComplete(line, count, number);
    }
  }

  // ----- the lines that count

  predicate IsHeading(line: string) {
    |line| >= 3 && line[..3] == "## "
  }

  /** The area in force at line `i`: the text of the last heading before it, stripped; "" before the first heading. */
  ghost predicate AreaAt(lines: seq<string>, i: nat, area: string)
    requires i <= |lines|
  {
    || (area == "" && forall h :: 0 <= h < i ==> !IsHeading(lines[h]))
    || (exists h :: 0 <= h < i && IsHeading(lines[h]) && area == Strip(lines[h][3..])
          && forall g :: h < g < i ==> !IsHeading(lines[g]))
  }

  /** A magnet line: number, area and count. */
  datatype Entry = Entry(number: int, area: string, count: int)

  ghost predicate GivesEntry(lines: seq<string>, i: nat, e: Entry)
    requires i < |lines|
  {
    && !IsHeading(lines[i]) && e.area != "" && AreaAt(lines, i, e.area)
    && lines[i] != "" && lines[i][0] == '-' && LineGives(lines[i], e.count, e.number)
  }

  /** The entry that the parser takes from a line in an area. */
  function LineEntry(area: string, line: string): Option<Entry> {
    if StartsWith(line, "## ") || area == "" || !StartsWith(line, "-") || !Contains(line, ISSUES) then None
    else
      match ParseLine(line)
      case None => None
      case Some(e) => Some(Entry(e.1, area, e.0))
  }

  function AreaOf(lines: seq<string>, k: nat): string
    requires k <= |lines|
  {
    Run(State("", []), lines[..k]).area
  }

  /** The entries of the first `k` lines, in order. */
  function Entries(lines: seq<string>, k: nat): seq<Entry>
    requires k <= |lines|
  {
    if k == 0 then []
    else
      match LineEntry(AreaOf(lines, k - 1), lines[k - 1])
      case None => Entries(lines, k - 1)
      case Some(e) => Entries(lines, k - 1) + [e]
  }

  lemma HeadingIff(line: string)
    ensures StartsWith(line, "## ") <==> IsHeading(line)
  {
    if |line| >= 3 {
      assert "## " <= line <==> line[..3] == "## ";
    }
  }

  lemma RunNext(lines: seq<string>, k: nat)
    requires k < |lines|
    ensures Run(State("", []), lines[..k + 1]) == Step(Run(State("", []), lines[..k]), lines[k])
  {
    assert lines[..k + 1][..k] == lines[..k];
  }

  /** One line: a heading sets the area, and an entry adds to the magnets. */
  lemma StepIs(st: State, line: string)
    ensures Step(st, line).area == if IsHeading(line) then Strip(line[3..]) else st.area
    ensures Step(st, line).magnets == match LineEntry(st.area, line)
                                      case None => st.magnets
                                      case Some(e) => AddMagnet(st.magnets, e.number, e.area, e.count)
  {
    hide ParseLine, AddMagnet, Strip, Contains;
    HeadingIff(line);
  }

  lemma {:induction false} AreaOfRun(lines: seq<string>, k: nat)
    requires k <= |lines|
    ensures AreaAt(lines, k, AreaOf(lines, k))
  {
    hide Step, Strip, IsHeading;
    if k > 0 {
      AreaOfRun(lines, k - 1);
      RunNext(lines, k - 1);
      StepIs(Run(State("", []), lines[..k - 1]), lines[k - 1]);
      AreaNext(lines, k - 1, AreaOf(lines, k - 1), AreaOf(lines, k));
    }
  }

  lemma AreaNext(lines: seq<string>, k: nat, before: string, after: string)
    requires k < |lines| && AreaAt(lines, k, before)
    requires after == if IsHeading(lines[k]) then Strip(lines[k][3..]) else before
    ensures AreaAt(lines, k + 1, after)
  {
    hide Strip;
  }

  lemma AreaIsUnique(lines: seq<string>, i: nat, a: string, b: string)
    requires i <= |lines| && AreaAt(lines, i, a) && AreaAt(lines, i, b)
    ensures a == b
  {
  }

  lemma GivesMeansContains(line: string, count: int, number: int)
    requires LineGives(line, count, number)
    ensures Contains(line, ISSUES)
  {
    ParseLineComplete(line, count, number);
  }

  /** The parser takes from line `k` exactly the entry that the line gives. */
  lemma EntryOfLine(lines: seq<string>, k: nat, e: Entry)
    requires k < |lines|
    ensures LineEntry(AreaOf(lines, k), lines[k]) == Some(e) <==> GivesEntry(lines, k, e)
  {
    hide LineGives, ParseLine, AreaAt, AreaOf, Contains;
    var area, line := AreaOf(lines, k), lines[k];
    AreaOfRun(lines, k);
    HeadingIff(line);
    StartsWithDash(line);
    match ParseLine(line)
    case Some(read) =>
      var mine := Entry(read.1, area, read.0);
      ParseLineSound(line);
      GivesMeansContains(line, mine.count, mine.number);
      OneEntry(lines, k, mine, e, area);
    case None =>
      ParseLineIff(line, e.count, e.number);
  }

  lemma StartsWithDash(line: string)
    ensures StartsWith(line, "-") <==> line != "" && line[0] == '-'
  {
  }

  lemma OneEntry(lines: seq<string>, k: nat, mine: Entry, e: Entry, area: string)
    requires k < |lines| && AreaAt(lines, k, area) && mine.area == area && ParseLine(lines[k]) == Some((mine.count, mine.number))
    ensures GivesEntry(lines, k, e) ==> e == mine
    ensures GivesEntry(lines, k, mine) <==> !IsHeading(lines[k]) && area != "" && lines[k] != "" && lines[k][0] == '-'
  {
    ParseLineSound(lines[k]);
    if GivesEntry(lines, k, e) {
      ParseLineComplete(lines[k], e.count, e.number);
      AreaIsUnique(lines, k, area, e.area);
    }
  }

  // ----- the magnets of the entries

  function MagnetsOf(es: seq<Entry>): seq<Magnet> {
    if es == [] then []
    else
      var e := es[|es| - 1];
      AddMagnet(MagnetsOf(es[..|es| - 1]), e.number, e.area, e.count)
  }

  /** The areas under which a number stands, in order, without the sentinel. */
  function AreasFor(es: seq<Entry>, number: int): seq<string> {
    if es == [] then []
    else
      var e := es[|es| - 1];
      AreasFor(es[..|es| - 1], number) + if e.number == number && e.area != "(unlabeled)" then [e.area] else []
  }

  /** The entry at `i` is the first with the number. */
  predicate FirstEntry(es: seq<Entry>, i: int, number: int) {
    0 <= i < |es| && es[i].number == number && forall j :: 0 <= j < i ==> es[j].number != number
  }

  predicate DistinctMagnets(ms: seq<Magnet>) {
    forall i, j :: 0 <= i < j < |ms| ==> ms[i].number != ms[j].number
  }

  ghost predicate HasMagnet(ms: seq<Magnet>, number: int) {
    exists k :: 0 <= k < |ms| && ms[k].number == number
  }

  /** The magnet has the count of the first entry of its number, and the areas of all of them. */
  ghost predicate MagnetIs(es: seq<Entry>, m: Magnet) {
    m.areas == AreasFor(es, m.number) && exists i :: FirstEntry(es, i, m.number) && m.count == es[i].count
  }

  function Here(e: Entry): seq<string> {
    if e.area == "(unlabeled)" then [] else [e.area]
  }

  function Met(m: Magnet, e: Entry): Magnet {
    if m.number == e.number then m.(areas := m.areas + Here(e)) else m
  }

  /** An entry joins the magnet of its number, or makes a new one at the end. */
  ghost predicate Joins(before: seq<Magnet>, e: Entry, after: seq<Magnet>) {
    if HasMagnet(before, e.number) then
      |after| == |before| && forall k :: 0 <= k < |after| ==> after[k] == Met(before[k], e)
    else after == before + [Magnet(e.number, Here(e), e.count)]
  }

  lemma {:induction false} AddMagnetIs(ms: seq<Magnet>, e: Entry)
    requires DistinctMagnets(ms)
    ensures Joins(ms, e, AddMagnet(ms, e.number, e.area, e.count))
  {
    if ms != [] {
      var rest := ms[1..];
      AddMagnetIs(rest, e);
      HasMagnetSplit(ms, e.number);
      if ms[0].number == e.number {
        assert forall k :: 0 < k < |ms| ==> ms[k].number != e.number;
      } else if !HasMagnet(rest, e.number) {
        assert [ms[0]] + (rest + [Magnet(e.number, Here(e), e.count)]) == ms + [Magnet(e.number, Here(e), e.count)];
      }
    }
  }

  lemma HasMagnetSplit(ms: seq<Magnet>, number: int)
    requires ms != []
    ensures HasMagnet(ms, number) <==> ms[0].number == number || HasMagnet(ms[1..], number)
  {
    var rest := ms[1..];
    if k :| 0 <= k < |rest| && rest[k].number == number {
      assert ms[k + 1] == rest[k];
    }
    if k :| 0 < k < |ms| && ms[k].number == number {
      assert rest[k - 1] == ms[k];
    }
  }

  ghost predicate IsNumber(es: seq<Entry>, number: int) {
    exists i :: 0 <= i < |es| && es[i].number == number
  }

  lemma {:induction false} MagnetsOfSpec(es: seq<Entry>)
    ensures DistinctMagnets(MagnetsOf(es)) && forall k :: 0 <= k < |MagnetsOf(es)| ==> MagnetIs(es, MagnetsOf(es)[k])
    ensures forall n :: HasMagnet(MagnetsOf(es), n) <==> IsNumber(es, n)
  {
    if es != [] {
      var init, e := es[..|es| - 1], es[|es| - 1];
      var before, after := MagnetsOf(init), MagnetsOf(es);
      assert es == init + [e];
      MagnetsOfSpec(init);
      AddMagnetIs(before, e);
      forall n ensures HasMagnet(after, n) <==> IsNumber(es, n) {
        HasMagnetNext(before, e, after, n);
        IsNumberNext(es, init, e, n);
      }
      MagnetsStep(es, init, e, before, after);
    }
  }

  lemma HasMagnetNext(before: seq<Magnet>, e: Entry, after: seq<Magnet>, n: int)
    requires Joins(before, e, after)
    ensures HasMagnet(after, n) <==> HasMagnet(before, n) || n == e.number
  {
    if k :| 0 <= k < |before| && before[k].number == n {
      assert after[k].number == n;
    }
    if !HasMagnet(before, e.number) {
      assert after[|before|].number == e.number;
    }
    if k :| 0 <= k < |after| && after[k].number == n {
      assert k < |before| ==> before[k].number == n;
    }
  }

  lemma IsNumberNext(es: seq<Entry>, init: seq<Entry>, e: Entry, n: int)
    requires es == init + [e]
    ensures IsNumber(es, n) <==> IsNumber(init, n) || n == e.number
  {
    if i :| 0 <= i < |init| && init[i].number == n {
      assert es[i] == init[i];
    }
    assert es[|init|] == e;
    if i :| 0 <= i < |es| && es[i].number == n {
      assert i < |init| ==> init[i].number == n;
    }
  }

  lemma MagnetsStep(es: seq<Entry>, init: seq<Entry>, e: Entry, before: seq<Magnet>, after: seq<Magnet>)
    requires es == init + [e] && DistinctMagnets(before) && Joins(before, e, after)
    requires forall k :: 0 <= k < |before| ==> MagnetIs(init, before[k])
    requires forall n :: HasMagnet(before, n) <==> IsNumber(init, n)
    ensures DistinctMagnets(after) && forall k :: 0 <= k < |after| ==> MagnetIs(es, after[k])
  {
    hide MagnetIs, IsNumber;
    if !HasMagnet(before, e.number) {
      assert forall k :: 0 <= k < |before| ==> before[k].number != e.number;
    }
    forall k | 0 <= k < |after| ensures MagnetIs(es, after[k]) {
      if k < |before| {
        MetMagnetIs(es, init, e, before[k]);
        assert after[k] == Met(before[k], e);
      } else {
        NewMagnetIs(es, init, e);
      }
    }
  }

  lemma AreasNext(es: seq<Entry>, init: seq<Entry>, e: Entry, number: int)
    requires es == init + [e]
    ensures AreasFor(es, number) == AreasFor(init, number) + if e.number == number then Here(e) else []
  {
    assert es[..|es| - 1] == init;
  }

  lemma MetMagnetIs(es: seq<Entry>, init: seq<Entry>, e: Entry, m: Magnet)
    requires es == init + [e] && MagnetIs(init, m)
    ensures MagnetIs(es, Met(m, e))
  {
    AreasNext(es, init, e, m.number);
    var i :| FirstEntry(init, i, m.number) && m.count == init[i].count;
    assert es[i] == init[i] && forall j :: 0 <= j < i ==> es[j] == init[j];
    assert FirstEntry(es, i, m.number);
  }

  lemma {:induction false} NoAreas(es: seq<Entry>, number: int)
    requires forall i :: 0 <= i < |es| ==> es[i].number != number
    ensures AreasFor(es, number) == []
  {
    if es != [] {
      NoAreas(es[..|es| - 1], number);
    }
  }

  lemma NewMagnetIs(es: seq<Entry>, init: seq<Entry>, e: Entry)
    requires es == init + [e] && !IsNumber(init, e.number)
    ensures MagnetIs(es, Magnet(e.number, Here(e), e.count))
  {
    assert forall i :: 0 <= i < |init| ==> init[i].number != e.number;
    NoAreas(init, e.number);
    AreasNext(es, init, e, e.number);
    assert [] + Here(e) == Here(e);
    assert forall j :: 0 <= j < |init| ==> es[j] == init[j];
    assert FirstEntry(es, |init|, e.number);
  }

  lemma {:induction false} RunIsFold(lines: seq<string>, k: nat)
    requires k <= |lines|
    ensures Run(State("", []), lines[..k]).magnets == MagnetsOf(Entries(lines, k))
  {
    hide Step, LineEntry, AddMagnet;
    if k > 0 {
      RunIsFold(lines, k - 1);
      RunNext(lines, k - 1);
      StepIs(Run(State("", []), lines[..k - 1]), lines[k - 1]);
      var es := Entries(lines, k - 1);
      match LineEntry(AreaOf(lines, k - 1), lines[k - 1])
      case None =>
      case Some(e) =>
        assert (es + [e])[..|es|] == es;
    }
  }

  /**
   Whatever the body: the magnets are sorted by count, one for each number that some line gives under a heading, with the
   count of the first such line and the areas of all of them.
   */
  lemma ParsedMagnets(body: string)
    ensures var es, r := Entries(Split(body), |Split(body)|), ParseBody(body);
            && (forall i, j :: 0 <= i < j < |r| ==> r[i].count >= r[j].count)
            && (forall m :: m in r ==> MagnetIs(es, m))
            && (forall n :: IsNumber(es, n) <==> exists m :: m in r && m.number == n)
  {
    hide MagnetIs, IsNumber, Entries;
    var lines := Split(body);
    var es := Entries(lines, |lines|);
    var ms := MagnetsOf(es);
    assert lines[..|lines|] == lines;
    RunIsFold(lines, |lines|);
    MagnetsOfSpec(es);
    SortDescSpec(ms, MagnetCount);
    forall n ensures HasMagnet(ms, n) <==> exists m :: m in ms && m.number == n {
      if m :| m in ms && m.number == n {
        var k: int :| 0 <= k < |ms| && ms[k] == m;
      }
    }
  }
}
