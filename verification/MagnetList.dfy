/**
 The duplicate-magnet list: the Markdown that one script prints into the tracking issue and the other script parses.
 */
module MagnetList {
  import opened Basics
  import opened Text
  import opened Sorting

  /** An issue with duplicates, as the printing script collects it. */
  datatype Info = Info(number: nat, url: string, areas: seq<string>, count: nat)

  /** An issue with duplicates, as the parsing script reads it. */
  datatype Magnet = Magnet(number: int, areas: seq<string>, count: int)

  const UNLABELED := "(unlabeled)"
  const INTRO := "These are the issues " + "that are frequently " + "re-reported. " +
                 "The list is generated " + "regularly by running " + "a script."
  const ISSUES := "/issues/"

  // ----- printing

  /** One area with its issues in order of collection, and the sum of their counts. */
  datatype Group = Group(area: string, infos: seq<Info>, total: nat)

  /** `by_area[area].append(info)` and `area_totals[area] += count`, on dictionaries with the same keys. */
  function AddToArea(groups: seq<Group>, area: string, info: Info): seq<Group> {
    if groups == [] then [Group(area, [info], info.count)]
    else if groups[0].area == area then
      [Group(area, groups[0].infos + [info], groups[0].total + info.count)] + groups[1..]
    else [groups[0]] + AddToArea(groups[1..], area, info)
  }

  function AddAreas(groups: seq<Group>, info: Info, k: nat): seq<Group>
    requires k <= |info.areas|
  {
    if k == 0 then groups else AddToArea(AddAreas(groups, info, k - 1), info.areas[k - 1], info)
  }

  function Grouped(infos: seq<Info>, k: nat): seq<Group>
    requires k <= |infos|
  {
    if k == 0 then [] else AddAreas(Grouped(infos, k - 1), infos[k - 1], |infos[k - 1].areas|)
  }

  /** `f"{n:2d}"`. */
  function Padded(n: nat): string {
    Spaces(if |Digits(n)| < 2 then 2 - |Digits(n)| else 0) + Digits(n)
  }

  function InfoLine(info: Info): string {
    "-   [" + Padded(info.count) + " dupes] " + info.url
  }

  function InfoLines(infos: seq<Info>): seq<string> {
    if infos == [] then [] else InfoLines(infos[..|infos| - 1]) + [InfoLine(infos[|infos| - 1])]
  }

  function ByCount(info: Info): int {
    info.count
  }

  function ByTotal(group: Group): int {
    group.total
  }

  function GroupLines(group: Group): seq<string> {
    ["", "## " + group.area, ""] + InfoLines(SortDesc(group.infos, ByCount))
  }

  function AllLines(intro: string, groups: seq<Group>): seq<string> {
    if groups == [] then [intro] else AllLines(intro, groups[..|groups| - 1]) + GroupLines(groups[|groups| - 1])
  }

  function BodyLines(infos: seq<Info>): seq<string> {
    AllLines(INTRO, SortDesc(Grouped(infos, |infos|), ByTotal))
  }

  function PrintBody(infos: seq<Info>): string {
    Join(BodyLines(infos))
  }

  /** The grouping loops of build_markdown_body. */
  method GroupByArea(infos: seq<Info>) returns (groups: seq<Group>)
    ensures groups == Grouped(infos, |infos|)
  {
    groups := [];
    for i := 0 to |infos|
      invariant groups == Grouped(infos, i)
    {
      for k := 0 to |infos[i].areas|
        invariant groups == AddAreas(Grouped(infos, i), infos[i], k)
      {
        groups := AddToArea(groups, infos[i].areas[k], infos[i]);
      }
    }
  }

  /** The printing loops of build_markdown_body. */
  method PrintGroups(intro: string, groups: seq<Group>) returns (lines: seq<string>)
    ensures lines == AllLines(intro, groups)
  {
    lines := [intro];
    for g := 0 to |groups|
      invariant lines == AllLines(intro, groups[..g])
    {
      assert groups[..g + 1][..g] == groups[..g];
      lines := PrintGroup(lines, groups[g].area, SortDesc(groups[g].infos, ByCount));
    }
    assert groups[..|groups|] == groups;
  }

  /** The heading of an area and one line for each of its issues. */
  method PrintGroup(before: seq<string>, area: string, issues: seq<Info>) returns (lines: seq<string>)
    ensures lines == before + (["", "## " + area, ""] + InfoLines(issues))
  {
    var heading := ["", "## " + area, ""];
    lines := before + heading;
    for i := 0 to |issues|
      invariant lines == before + (heading + InfoLines(issues[..i]))
    {
      assert issues[..i + 1][..i] == issues[..i];
      lines := lines + [InfoLine(issues[i])];
    }
    assert issues[..|issues|] == issues;
  }

  /** build_markdown_body. */
  method BuildMarkdownBody(infos: seq<Info>) returns (body: string)
    ensures body == PrintBody(infos)
  {
    var groups := GroupByArea(infos);
    var lines := PrintGroups(INTRO, SortDesc(groups, ByTotal));
    body := Join(lines);
  }

  // ----- parsing

  predicate StartsWith(s: string, prefix: string) {
    prefix <= s
  }

  function StripParens(s: string): string {
    if s != [] && s[|s| - 1] == ')' then StripParens(s[..|s| - 1]) else s
  }

  /** The count after "[" and the number after "/issues/"; none when either is missing or no numeral. */
  function ParseLine(line: string): Option<(int, int)> {
    match Second(line, "[")
    case None => None
    case Some(rest) =>
      match FirstToken(rest)
      case None => None
      case Some(token) =>
        match (ParseInt(token), Second(line, ISSUES))
        case (Some(count), Some(tail)) =>
          (match FirstToken(tail)
           case None => None
           case Some(last) =>
             match ParseInt(StripParens(last))
             case None => None
             case Some(number) => Some((count, number)))
        case _ => None
  }

  /** The dictionary entry of a magnet after meeting it under a (non-empty) area. */
  function AddMagnet(ms: seq<Magnet>, number: int, area: string, count: int): seq<Magnet> {
    var here := if area == UNLABELED then [] else [area];
    if ms == [] then [Magnet(number, here, count)]
    else if ms[0].number == number then [ms[0].(areas := ms[0].areas + here)] + ms[1..]
    else [ms[0]] + AddMagnet(ms[1..], number, area, count)
  }

  /** The current area ("" before the first header) and the magnets so far. */
  datatype State = State(area: string, magnets: seq<Magnet>)

  function Step(s: State, line: string): State {
    if StartsWith(line, "## ") then s.(area := Strip(line[3..]))
    else if s.area == "" || !StartsWith(line, "-") || !Contains(line, ISSUES) then s
    else
      match ParseLine(line)
      case None => s
      case Some(entry) => s.(magnets := AddMagnet(s.magnets, entry.1, s.area, entry.0))
  }

  function Run(s: State, lines: seq<string>): State {
    if lines == [] then s else Step(Run(s, lines[..|lines| - 1]), lines[|lines| - 1])
  }

  function MagnetCount(m: Magnet): int {
    m.count
  }

  function ParseBody(body: string): seq<Magnet> {
    SortDesc(Run(State("", []), Split(body)).magnets, MagnetCount)
  }

  /** parse_duplicate_magnets, from the body of the tracking issue on. */
  method ParseDuplicateMagnets(body: string) returns (r: seq<Magnet>)
    ensures r == ParseBody(body)
  {
    var lines := Split(body);
    var area, magnets := "", [];
    for i := 0 to |lines|
      invariant State(area, magnets) == Run(State("", []), lines[..i])
    {
      var line := lines[i];
      assert lines[..i + 1][..i] == lines[..i];
      if StartsWith(line, "## ") {
        area := Strip(line[3..]);
      } else if area != "" && StartsWith(line, "-") && Contains(line, ISSUES) {
        var entry := ParseLine(line);
        if entry.Some? {
          magnets := AddMagnet(magnets, entry.value.1, area, entry.value.0);
        }
      }
    }
    assert lines[..|lines|] == lines;
    r := SortDesc(magnets, MagnetCount);
  }
}
