/** Skill names: slugging arbitrary titles, and the validator that every slug must pass. */
module SkillName {
  import opened Basics

  datatype Verdict = Ok | Empty | TooLong | EdgeHyphen | BadCharacter

  const MAX_LEN := 64

  predicate IsLower(c: char) {
    'a' <= c <= 'z'
  }

  predicate IsUpper(c: char) {
    'A' <= c <= 'Z'
  }

  predicate IsAlnum(c: char) {
    IsLower(c) || IsUpper(c) || IsDigit(c)
  }

  // ----- the validator

  /** Length in UTF-8. */
  function ByteLength(s: string): nat {
    if s == [] then 0
    else
      var c := s[|s| - 1] as int;
      ByteLength(s[..|s| - 1]) + if c < 0x80 then 1 else if c < 0x800 then 2 else if c < 0x10000 then 3 else 4
  }

  predicate NameChar(c: char) {
    IsLower(c) || IsDigit(c) || c == '-'
  }

  /** validate_name. */
  function ValidateName(name: string): Verdict {
    if name == [] then Empty
    else if ByteLength(name) > MAX_LEN then TooLong
    else if name[0] == '-' || name[|name| - 1] == '-' then EdgeHyphen
    else if exists c :: c in name && !NameChar(c) then BadCharacter
    else Ok
  }

  lemma {:induction false} AsciiLength(s: string)
    ensures ByteLength(s) >= |s|
    ensures (forall c :: c in s ==> NameChar(c)) ==> ByteLength(s) == |s|
  {
    if s != [] {
      AsciiLength(s[..|s| - 1]);
      assert NameChar(s[|s| - 1]) ==> s[|s| - 1] as int < 0x80;
      assert s[|s| - 1] in s;
      assert s == s[..|s| - 1] + [s[|s| - 1]];
    }
  }

  // ----- the slug, word by word

  /** `input.replace('&', "-and-")`. */
  function Expand(s: string): string {
    if s == [] then [] else Expand(s[..|s| - 1]) + if s[|s| - 1] == '&' then "-and-" else [s[|s| - 1]]
  }

  function ToLower(c: char): char {
    if IsUpper(c) then (c as int + 32) as char else c
  }

  /** What becomes of a character: lowered, a separator, or nothing. */
  function MapChar(c: char): string {
    if IsAlnum(c) then [ToLower(c)] else if c == ' ' || c == '-' then "-" else ""
  }

  function MapAll(s: string): string {
    if s == [] then [] else MapAll(s[..|s| - 1]) + MapChar(s[|s| - 1])
  }

  /** The text between separators, empty fields included. */
  function Fields(s: string): (fs: seq<string>)
    ensures |fs| >= 1
  {
    if s == [] then [""]
    else
      var init, last := Fields(s[..|s| - 1]), s[|s| - 1];
      if last == '-' then init + [""] else init[..|init| - 1] + [init[|init| - 1] + [last]]
  }

  function NonEmpty(fs: seq<string>): seq<string> {
    if fs == [] then []
    else NonEmpty(fs[..|fs| - 1]) + if fs[|fs| - 1] == "" then [] else [fs[|fs| - 1]]
  }

  function JoinDash(ws: seq<string>): string {
    if ws == [] then "" else if |ws| == 1 then ws[0] else JoinDash(ws[..|ws| - 1]) + "-" + ws[|ws| - 1]
  }

  function Words(s: string): seq<string> {
    NonEmpty(Fields(MapAll(Expand(s))))
  }

  function TrimDashes(s: string): string {
    if s != [] && s[|s| - 1] == '-' then TrimDashes(s[..|s| - 1]) else s
  }

  function Shorten(s: string): string {
    if |s| > MAX_LEN then TrimDashes(s[..MAX_LEN]) else s
  }

  /** The words of the mapped text joined by hyphens. */
  function FullSlug(input: string): string {
    JoinDash(Words(input))
  }

  /** The same, shortened to the limit. */
  function Slug(input: string): Option<string> {
    var s := Shorten(FullSlug(input));
    if s == [] then None else Some(s)
  }

  // ----- the one-pass loop

  /** The slug built so far: complete words, and a hyphen if a separator followed them. */
  function Partial(m: string): string {
    var fs := Fields(m);
    var ws := NonEmpty(fs);
    JoinDash(ws) + if fs[|fs| - 1] == "" && ws != [] then "-" else ""
  }

  predicate AfterDash(m: string) {
    Fields(m)[|Fields(m)| - 1] == ""
  }

  lemma JoinLast(ws: seq<string>, w: string, c: char)
    ensures JoinDash(ws + [w + [c]]) == JoinDash(ws + [w]) + [c]
    ensures JoinDash(ws + [[c]]) == JoinDash(ws) + (if ws == [] then "" else "-") + [c]
  {
    assert (ws + [w + [c]])[..|ws|] == ws && (ws + [w])[..|ws|] == ws && (ws + [[c]])[..|ws|] == ws;
    if ws == [] {
      assert ws + [w + [c]] == [w + [c]] && ws + [w] == [w] && ws + [[c]] == [[c]];
    } else {
      assert JoinDash(ws) + "-" + (w + [c]) == JoinDash(ws) + "-" + w + [c];
    }
  }

  /** A separator is skipped after a separator (or at the start), and else appended. */
  lemma PartialDash(m: string)
    ensures AfterDash(m + "-")
    ensures Partial(m + "-") == if AfterDash(m) then Partial(m) else Partial(m) + "-"
  {
    var n := m + "-";
    assert n[..|n| - 1] == m;
    var fs := Fields(m);
    assert Fields(n) == fs + [""];
    assert (fs + [""])[..|fs|] == fs;
    assert NonEmpty(Fields(n)) == NonEmpty(fs);
  }

  /** Any other character is appended. */
  lemma PartialChar(m: string, c: char)
    requires c != '-'
    ensures !AfterDash(m + [c]) && Partial(m + [c]) == Partial(m) + [c]
  {
    var n := m + [c];
    assert n[..|n| - 1] == m;
    var fs := Fields(m);
    var init, last := fs[..|fs| - 1], fs[|fs| - 1];
    var fs' := init + [last + [c]];
    assert Fields(n) == fs' && fs'[..|fs'| - 1] == init;
    assert NonEmpty(fs') == NonEmpty(init) + [last + [c]];
    JoinLast(NonEmpty(init), last, c);
    if last == "" {
      assert last + [c] == [c];
      assert NonEmpty(fs) == NonEmpty(init);
    } else {
      assert NonEmpty(fs) == NonEmpty(init) + [last];
      assert Partial(m) == JoinDash(NonEmpty(fs));
      assert Partial(n) == JoinDash(NonEmpty(fs'));
    }
  }

  /** One character of the loop. */
  method Append(slug: string, lastWasDash: bool, c: char, ghost before: string) returns (slug': string, dash': bool)
    requires slug == Partial(before) && lastWasDash == AfterDash(before)
    ensures slug' == Partial(before + [c]) && dash' == AfterDash(before + [c])
  {
    if c == '-' {
      PartialDash(before);
      assert before + [c] == before + "-";
      return if lastWasDash then slug else slug + [c], true;
    }
    PartialChar(before, c);
    return slug + [c], false;
  }

  /** The character loop of slugify_skill_name. */
  method CollectWords(text: string) returns (slug: string)
    ensures slug == Partial(MapAll(text))
  {
    slug := "";
    var lastWasDash := true;
    for i := 0 to |text|
      invariant slug == Partial(MapAll(text[..i])) && lastWasDash == AfterDash(MapAll(text[..i]))
    {
      assert text[..i + 1][..i] == text[..i];
      ghost var before := MapAll(text[..i]);
      var mapped := MapChar(text[i]);
      assert MapAll(text[..i + 1]) == before + mapped;
      if mapped != "" {
        assert mapped == [mapped[0]];
        slug, lastWasDash := Append(slug, lastWasDash, mapped[0], before);
      } else {
        assert before + mapped == before;
      }
    }
    assert text[..|text|] == text;
  }

  /** slugify_skill_name. */
  method Slugify(input: string) returns (r: Option<string>)
    ensures r == Slug(input)
  {
    var slug := CollectWords(Expand(input));
    PartialTrimmed(MapAll(Expand(input)));
    if slug != "" && slug[|slug| - 1] == '-' {
      slug := slug[..|slug| - 1];
    }
    if |slug| > MAX_LEN {
      slug := slug[..MAX_LEN];
      while slug != "" && slug[|slug| - 1] == '-'
        invariant TrimDashes(slug) == Shorten(JoinDash(Words(input)))
        decreases |slug|
      {
        slug := slug[..|slug| - 1];
      }
    }
    r := if slug == "" then None else Some(slug);
  }

  /** Dropping one trailing hyphen leaves the words. */
  lemma PartialTrimmed(m: string)
    ensures var p := Partial(m);
            JoinDash(NonEmpty(Fields(m))) == if p != "" && p[|p| - 1] == '-' then p[..|p| - 1] else p
  {
    TidyWords(m);
    var p, ws := Partial(m), NonEmpty(Fields(m));
    if AfterDash(m) && ws != [] {
      assert p == JoinDash(ws) + "-";
      assert p[..|p| - 1] == JoinDash(ws);
    } else {
      assert p == JoinDash(ws) + "" == JoinDash(ws);
    }
  }

  // ----- what slugs look like

  /** No hyphen at either end, and no two in a row. */
  predicate Tidy(s: string) {
    && (s != [] ==> s[0] != '-' && s[|s| - 1] != '-')
    && (forall i :: 0 <= i < |s| - 1 ==> s[i] != '-' || s[i + 1] != '-')
  }

  lemma {:induction false} FieldsHaveNoDash(s: string)
    ensures forall f :: f in Fields(s) ==> '-' !in f
    ensures forall f, c :: f in Fields(s) && c in f ==> c in s
  {
    if s != [] {
      FieldsHaveNoDash(s[..|s| - 1]);
      assert s == s[..|s| - 1] + [s[|s| - 1]];
      var init := Fields(s[..|s| - 1]);
      assert init[|init| - 1] in init;
    }
  }

  lemma {:induction false} NonEmptyMembers(fs: seq<string>)
    ensures forall f :: f in NonEmpty(fs) <==> f in fs && f != ""
  {
    if fs != [] {
      NonEmptyMembers(fs[..|fs| - 1]);
      assert fs == fs[..|fs| - 1] + [fs[|fs| - 1]];
    }
  }

  lemma {:induction false} JoinIsTidy(ws: seq<string>)
    requires forall w :: w in ws ==> w != "" && '-' !in w
    ensures Tidy(JoinDash(ws))
    ensures JoinDash(ws) == "" <==> ws == []
    ensures forall c :: c in JoinDash(ws) ==> c == '-' || exists w :: w in ws && c in w
  {
    if |ws| == 1 {
      assert ws[0] in ws;
    } else if ws != [] {
      var init, last := ws[..|ws| - 1], ws[|ws| - 1];
      assert last in ws && forall w :: w in init ==> w in ws;
      JoinIsTidy(init);
    }
  }

  lemma TidyWords(m: string)
    ensures var ws := NonEmpty(Fields(m)); Tidy(JoinDash(ws)) && (JoinDash(ws) == "" <==> ws == [])
    ensures forall c :: c in JoinDash(NonEmpty(Fields(m))) ==> c == '-' || c in m
  {
    FieldsHaveNoDash(m);
    NonEmptyMembers(Fields(m));
    JoinIsTidy(NonEmpty(Fields(m)));
  }

  lemma {:induction false} MapAllChars(s: string)
    ensures forall c :: c in MapAll(s) ==> NameChar(c)
  {
    if s != [] {
      MapAllChars(s[..|s| - 1]);
      MapCharIsNameChar(s[|s| - 1]);
    }
  }

  lemma MapCharIsNameChar(c: char)
    ensures forall d :: d in MapChar(c) ==> NameChar(d)
  {
  }

  lemma {:induction false} TrimIsPrefix(s: string)
    ensures TrimDashes(s) <= s
    ensures TrimDashes(s) != [] ==> TrimDashes(s)[|TrimDashes(s)| - 1] != '-'
    ensures s != [] && s[0] != '-' ==> TrimDashes(s) != []
  {
    if s != [] && s[|s| - 1] == '-' {
      TrimIsPrefix(s[..|s| - 1]);
    }
  }

  lemma ShortenIsTidy(s: string)
    requires Tidy(s)
    ensures Shorten(s) <= s && |Shorten(s)| <= MAX_LEN && Tidy(Shorten(s)) && (Shorten(s) == [] <==> s == [])
  {
    if |s| > MAX_LEN {
      TrimIsPrefix(s[..MAX_LEN]);
    }
  }

  /** Every slug passes the validator and has no double hyphen. */
  lemma SlugIsValid(input: string)
    requires Slug(input).Some?
    ensures ValidateName(Slug(input).value) == Ok && Tidy(Slug(input).value)
  {
    var m := MapAll(Expand(input));
    TidyWords(m);
    MapAllChars(Expand(input));
    var full := JoinDash(Words(input));
    ShortenIsTidy(full);
    var s := Slug(input).value;
    assert forall c :: c in s ==> c in full;
    AsciiLength(s);
  }

  // ----- fixed points

  lemma {:induction false} PlainText(s: string)
    requires forall c :: c in s ==> NameChar(c)
    ensures Expand(s) == s && MapAll(s) == s
  {
    if s != [] {
      var init, last := s[..|s| - 1], s[|s| - 1];
      assert s == init + [last] && last in s;
      PlainText(init);
    }
  }

  /** Splitting at hyphens and joining with hyphens gives the text back. */
  lemma {:induction false} JoinFields(s: string)
    ensures JoinDash(Fields(s)) == s
  {
    if s != [] {
      var init, last := s[..|s| - 1], s[|s| - 1];
      JoinFields(init);
      assert s == init + [last];
      var fs := Fields(init);
      if last == '-' {
        assert (fs + [""])[..|fs|] == fs;
        assert JoinDash(fs) + "-" + "" == JoinDash(fs) + "-";
      } else {
        JoinLast(fs[..|fs| - 1], fs[|fs| - 1], last);
        assert fs == fs[..|fs| - 1] + [fs[|fs| - 1]];
      }
    }
  }

  /** In a tidy text only the last field can be empty, and only after a hyphen. */
  lemma {:induction false} TidyFields(s: string)
    requires s != [] && s[0] != '-' && forall i :: 0 <= i < |s| - 1 ==> s[i] != '-' || s[i + 1] != '-'
    ensures forall k :: 0 <= k < |Fields(s)| - 1 ==> Fields(s)[k] != ""
    ensures Fields(s)[|Fields(s)| - 1] == "" <==> s[|s| - 1] == '-'
  {
    var init, last := s[..|s| - 1], s[|s| - 1];
    if init == [] {
      assert Fields(init) == [""];
    } else {
      TidyFields(init);
    }
  }

  lemma {:induction false} NonEmptyAll(fs: seq<string>)
    requires forall k :: 0 <= k < |fs| ==> fs[k] != ""
    ensures NonEmpty(fs) == fs
  {
    if fs != [] {
      NonEmptyAll(fs[..|fs| - 1]);
      assert fs == fs[..|fs| - 1] + [fs[|fs| - 1]];
    }
  }

  /** Every valid name without a double hyphen is its own slug. */
  lemma ValidNamesAreFixed(name: string)
    requires ValidateName(name) == Ok && Tidy(name)
    ensures Slug(name) == Some(name)
  {
    PlainText(name);
    TidyFields(name);
    NonEmptyAll(Fields(name));
    JoinFields(name);
    AsciiLength(name);
  }

  /** A double hyphen is the only way for a valid name not to be its own slug. */
  lemma FixedIff(name: string)
    requires ValidateName(name) == Ok
    ensures Slug(name) == Some(name) <==> Tidy(name)
  {
    if Tidy(name) {
      ValidNamesAreFixed(name);
    } else if Slug(name) == Some(name) {
      SlugIsValid(name);
    }
  }

  /** Slugging a slug changes nothing. */
  lemma SlugIsIdempotent(input: string)
    requires Slug(input).Some?
    ensures Slug(Slug(input).value) == Slug(input)
  {
    SlugIsValid(input);
    ValidNamesAreFixed(Slug(input).value);
  }

  // ----- when there is a slug

  predicate Sluggable(c: char) {
    IsAlnum(c) || c == '&'
  }

  /** No character of `s` is of the kind. */
  ghost predicate Lacks(s: string, kind: char -> bool) {
    forall c :: c in s ==> !kind(c)
  }

  predicate NotDash(c: char) {
    c != '-'
  }

  lemma LacksConcat(x: string, y: string, kind: char -> bool)
    ensures Lacks(x + y, kind) <==> Lacks(x, kind) && Lacks(y, kind)
  {
    assert forall c :: c in x || c in y <==> c in x + y;
  }

  lemma LacksOne(c: char, kind: char -> bool)
    ensures Lacks([c], kind) <==> !kind(c)
  {
    assert c in [c];
  }

  lemma {:induction false} FieldsAllEmptyIff(s: string)
    ensures NonEmpty(Fields(s)) == [] <==> Lacks(s, NotDash)
  {
    if s == [] {
      assert Fields(s)[..0] == [];
    } else {
      var init, last := s[..|s| - 1], s[|s| - 1];
      assert s == init + [last];
      LacksConcat(init, [last], NotDash);
      LacksOne(last, NotDash);
      FieldsAllEmptyIff(init);
      var fs := Fields(s);
      if last == '-' {
        assert fs[..|fs| - 1] == Fields(init);
      } else {
        assert fs[|fs| - 1] != "";
      }
    }
  }

  lemma {:induction false} MapAllDashesIff(s: string)
    ensures Lacks(MapAll(s), NotDash) <==> Lacks(s, IsAlnum)
  {
    if s != [] {
      var init, last := s[..|s| - 1], s[|s| - 1];
      assert s == init + [last];
      LacksConcat(init, [last], IsAlnum);
      LacksOne(last, IsAlnum);
      MapAllDashesIff(init);
      LacksConcat(MapAll(init), MapChar(last), NotDash);
      LacksOne(ToLower(last), NotDash);
      LacksOne('-', NotDash);
    }
  }

  lemma {:induction false} ExpandAlnumIff(s: string)
    ensures Lacks(Expand(s), IsAlnum) <==> Lacks(s, Sluggable)
  {
    if s != [] {
      var init, last := s[..|s| - 1], s[|s| - 1];
      assert s == init + [last];
      LacksConcat(init, [last], Sluggable);
      LacksOne(last, Sluggable);
      ExpandAlnumIff(init);
      LacksConcat(Expand(init), if last == '&' then "-and-" else [last], IsAlnum);
      LacksOne(last, IsAlnum);
      assert "-and-"[1] == 'a' && IsAlnum('a');
      assert 'a' in "-and-";
      assert !Lacks("-and-", IsAlnum);
    }
  }

  /** There is no slug exactly when the input has neither an ASCII letter or digit nor an ampersand. */
  lemma NoSlugIff(input: string)
    ensures Slug(input) == None <==> forall c :: c in input ==> !Sluggable(c)
  {
    var m := MapAll(Expand(input));
    TidyWords(m);
    ShortenIsTidy(JoinDash(Words(input)));
    FieldsAllEmptyIff(m);
    MapAllDashesIff(Expand(input));
    ExpandAlnumIff(input);
    assert Lacks(input, Sluggable) <==> forall c :: c in input ==> !Sluggable(c);
  }
}
