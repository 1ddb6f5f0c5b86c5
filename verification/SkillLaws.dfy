/**
 The laws of slugging, character by character: what case, separators, ampersands and all other characters do to a slug,
 and what the length limit does. Together with the fixed points they say what every slug is.
 */
module SkillLaws {
  import opened Basics
  import opened SkillName
  import TerminalOutput

  const LOWER := "abcdefghijklmnopqrstuvwxyz"
  const UPPER := "ABCDEFGHIJKLMNOPQRSTUVWXYZ"

  /** The capital letter and its small letter. */
  predicate CasePair(c: char, d: char) {
    exists k :: 0 <= k < 26 && UPPER[k] == c && LOWER[k] == d
  }

  lemma LetterAt(k: nat, upper: string, lower: string)
    requires k < 26 && upper == UPPER && lower == LOWER
    ensures upper[k] as int == 65 + k && lower[k] as int == 97 + k
  {
    UpperAt(k, upper);
    LowerAt(k, lower);
  }

  lemma UpperAt(k: nat, s: string)
    requires k < 26 && s == UPPER
    ensures s[k] as int == 65 + k
  {
    if k < 13 {
      assert s[..13] == "ABCDEFGHIJKLM";
    } else {
      assert s[13..] == "NOPQRSTUVWXYZ";
    }
  }

  lemma LowerAt(k: nat, s: string)
    requires k < 26 && s == LOWER
    ensures s[k] as int == 97 + k
  {
    if k < 13 {
      assert s[..13] == "abcdefghijklm";
    } else {
      assert s[13..] == "nopqrstuvwxyz";
    }
  }

  lemma CasePairIff(c: char, d: char)
    ensures CasePair(c, d) <==> IsUpper(c) && d as int == c as int + 32
  {
    if k :| 0 <= k < 26 && UPPER[k] == c && LOWER[k] == d {
      LetterAt(k, UPPER, LOWER);
    }
    if IsUpper(c) && d as int == c as int + 32 {
      var k := c as int - 65;
      LetterAt(k, UPPER, LOWER);
    }
  }

  // ----- mapping piece by piece

  /** The text after replacing ampersands and mapping characters. */
  function Mapped(s: string): string {
    MapAll(Expand(s))
  }

  lemma {:induction false} ExpandConcat(x: string, y: string)
    ensures Expand(x + y) == Expand(x) + Expand(y)
  {
    if y == [] {
      assert x + y == x;
    } else {
      var n := |y| - 1;
      assert (x + y)[..|x| + n] == x + y[..n] && (x + y)[|x| + n] == y[n];
      ExpandConcat(x, y[..n]);
    }
  }

  lemma {:induction false} MapConcat(x: string, y: string)
    ensures MapAll(x + y) == MapAll(x) + MapAll(y)
  {
    hide MapChar;
    if y == [] {
      assert x + y == x;
    } else {
      var n := |y| - 1;
      assert (x + y)[..|x| + n] == x + y[..n] && (x + y)[|x| + n] == y[n];
      MapConcat(x, y[..n]);
      Assoc(MapAll(x), MapAll(y[..n]), MapChar(y[n]));
    }
  }

  lemma Assoc(x: string, y: string, z: string)
    ensures x + y + z == x + (y + z)
  {
  }

  lemma MappedConcat(x: string, y: string)
    ensures Mapped(x + y) == Mapped(x) + Mapped(y)
  {
    ExpandConcat(x, y);
    MapConcat(Expand(x), Expand(y));
  }

  lemma MappedAround(x: string, mid: string, y: string)
    ensures Mapped(x + mid + y) == Mapped(x) + Mapped(mid) + Mapped(y)
  {
    MappedConcat(x + mid, y);
    MappedConcat(x, mid);
  }

  lemma MappedOne(c: char)
    requires c != '&'
    ensures Mapped([c]) == MapChar(c)
  {
    assert [c][..0] == [];
    assert Expand([c]) == Expand([]) + [c];
    assert MapAll([c]) == MapAll([]) + MapChar(c);
  }

  /** Both separators become a hyphen. */
  lemma MappedSeparator()
    ensures Mapped(" ") == "-" && Mapped("-") == "-"
  {
    MappedOne(' ');
    MappedOne('-');
  }

  lemma MappedPlain(s: string)
    requires forall c :: c in s ==> NameChar(c)
    ensures Mapped(s) == s
  {
    PlainText(s);
  }

  lemma MappedAnd(s: string, word: string)
    requires s == "-and-" && word == "and"
    ensures Mapped(s) == s && Mapped(word) == word
  {
    MappedPlain(s);
    MappedPlain(word);
  }

  lemma MappedAmpersand(amp: string, s: string)
    requires amp == "&" && s == "-and-"
    ensures Mapped(amp) == s
  {
    hide MapAll;
    assert amp[..|amp| - 1] == [];
    assert Expand(amp) == Expand([]) + s == s;
    PlainText(s);
  }

  /** Equal mapped texts have equal slugs. */
  lemma FullIs(s: string)
    ensures FullSlug(s) == JoinDash(WordsOf(Mapped(s)))
  {
  }

  lemma SameMapped(s: string, t: string)
    requires Mapped(s) == Mapped(t)
    ensures FullSlug(s) == FullSlug(t) && Slug(s) == Slug(t)
  {
  }

  // ----- case

  ghost predicate SameUpToCase(s: string, t: string) {
    |s| == |t| && forall i :: 0 <= i < |s| ==> s[i] == t[i] || CasePair(s[i], t[i]) || CasePair(t[i], s[i])
  }

  lemma CaseChar(c: char, d: char)
    requires c == d || CasePair(c, d) || CasePair(d, c)
    ensures Mapped([c]) == Mapped([d])
  {
    hide MapAll, Expand, Mapped;
    if c != d {
      CasePairIff(c, d);
      CasePairIff(d, c);
      MappedOne(c);
      MappedOne(d);
    }
  }

  lemma {:induction false} CaseMaps(s: string, t: string)
    requires SameUpToCase(s, t)
    ensures Mapped(s) == Mapped(t)
  {
    hide Mapped, CasePair;
    if s == [] {
      assert s == t;
    } else {
      var n := |s| - 1;
      CaseMaps(s[..n], t[..n]);
      CaseChar(s[n], t[n]);
      assert s == s[..n] + [s[n]] && t == t[..n] + [t[n]];
      MappedConcat(s[..n], [s[n]]);
      MappedConcat(t[..n], [t[n]]);
    }
  }

  /** Case does not matter. */
  lemma CaseIsIgnored(s: string, t: string)
    requires SameUpToCase(s, t)
    ensures FullSlug(s) == FullSlug(t) && Slug(s) == Slug(t)
  {
    CaseMaps(s, t);
    SameMapped(s, t);
  }

  /** A letter or digit of the result: the same one, or the small letter of the capital. */
  predicate Lowered(c: char, d: char) {
    CasePair(c, d) || (c == d && (d in LOWER || IsDigit(d)))
  }

  lemma {:induction false} SmallLetter(c: char)
    ensures c in LOWER <==> IsLower(c)
  {
    if c in LOWER {
      var k: int :| 0 <= k < |LOWER| && LOWER[k] == c;
      LetterAt(k, UPPER, LOWER);
    }
    if IsLower(c) {
      var k := c as int - 97;
      LetterAt(k, UPPER, LOWER);
      assert LOWER[k] == c;
    }
  }

  lemma LoweredIsPlain(c: char, d: char)
    requires Lowered(c, d)
    ensures NameChar(d) && d != '-'
  {
    SmallLetter(d);
    CasePairIff(c, d);
  }

  /** A word of ASCII letters and digits becomes the word in small letters. */
  lemma WordsAreLowered(s: string, t: string)
    requires s != [] && |s| == |t| && forall i :: 0 <= i < |s| ==> Lowered(s[i], t[i])
    ensures FullSlug(s) == t && (|s| <= 64 ==> Slug(s) == Some(t))
  {
    forall i | 0 <= i < |t| ensures NameChar(t[i]) && t[i] != '-' {
      LoweredIsPlain(s[i], t[i]);
    }
    hide NameChar, CasePair, FullSlug;
    CaseIsIgnored(s, t);
    TidyIsFixed(t);
    if |s| <= 64 {
      assert Slug(t) == Some(t);
    }
  }

  /** Any text of name characters without stray hyphens is its own full slug, however long. */
  lemma TidyIsFixed(t: string)
    requires Tidy(t) && forall c :: c in t ==> NameChar(c)
    ensures FullSlug(t) == t
  {
    PlainText(t);
    if t == [] {
      NoWords();
    } else {
      TidyFields(t);
      NonEmptyAll(Fields(t));
      JoinFields(t);
    }
  }

  // ----- separators

  /** The fields after one more character. */
  function FieldsNext(fs: seq<string>, c: char): seq<string>
    requires fs != []
  {
    if c == '-' then fs + [""] else fs[..|fs| - 1] + [fs[|fs| - 1] + [c]]
  }

  lemma FieldsStep(s: string, c: char)
    ensures Fields(s + [c]) == FieldsNext(Fields(s), c)
  {
    assert (s + [c])[..|s|] == s;
  }

  lemma FieldsNextConcat(xs: seq<string>, ys: seq<string>, c: char)
    requires ys != []
    ensures FieldsNext(xs + ys, c) == xs + FieldsNext(ys, c)
  {
    var all := xs + ys;
    assert all[..|all| - 1] == xs + ys[..|ys| - 1] && all[|all| - 1] == ys[|ys| - 1];
  }

  lemma {:induction false} FieldsConcat(x: string, y: string)
    ensures Fields(x + "-" + y) == Fields(x) + Fields(y)
  {
    hide FieldsNext;
    if y == [] {
      assert x + "-" + y == x + ['-'];
      FieldsOfNothing(x);
    } else {
      var n := |y| - 1;
      FieldsConcat(x, y[..n]);
      assert x + "-" + y == x + "-" + y[..n] + [y[n]] && y == y[..n] + [y[n]];
      FieldsStep(x + "-" + y[..n], y[n]);
      FieldsStep(y[..n], y[n]);
      FieldsNextConcat(Fields(x), Fields(y[..n]), y[n]);
    }
  }

  lemma FieldsOfNothing(x: string)
    ensures Fields(x + ['-']) == Fields(x) + Fields("")
  {
    FieldsStep(x, '-');
  }

  lemma {:induction false} NonEmptyConcat(xs: seq<string>, ys: seq<string>)
    ensures NonEmpty(xs + ys) == NonEmpty(xs) + NonEmpty(ys)
  {
    if ys == [] {
      assert xs + ys == xs;
    } else {
      var n := |ys| - 1;
      assert (xs + ys)[..|xs| + n] == xs + ys[..n] && (xs + ys)[|xs| + n] == ys[n];
      NonEmptyConcat(xs, ys[..n]);
    }
  }

  function WordsOf(m: string): seq<string> {
    NonEmpty(Fields(m))
  }

  /** A hyphen in the mapped text separates words and does nothing else. */
  lemma WordsConcat(x: string, y: string)
    ensures WordsOf(x + "-" + y) == WordsOf(x) + WordsOf(y)
  {
    FieldsConcat(x, y);
    NonEmptyConcat(Fields(x), Fields(y));
  }

  lemma NoWords()
    ensures WordsOf("") == []
  {
    assert [""][..0] == [];
    assert NonEmpty([""]) == NonEmpty([]) + [];
  }

  /** A space or hyphen more, next to a separator, changes nothing. */
  lemma MoreSeparators(x: string, y: string)
    ensures WordsOf(x + "-" + "-" + y) == WordsOf(x + "-" + y)
  {
    WordsConcat(x + "-", y);
    WordsConcat(x, "");
    assert x + "-" + "" == x + "-";
    WordsConcat(x, y);
    NoWords();
    assert WordsOf(x) + [] == WordsOf(x);
  }

  /** A space and a hyphen are the same. */
  lemma SpaceIsHyphen(x: string, y: string)
    ensures FullSlug(x + " " + y) == FullSlug(x + "-" + y)
  {
    hide *;
    MappedAround(x, " ", y);
    MappedAround(x, "-", y);
    MappedSeparator();
    SameMapped(x + " " + y, x + "-" + y);
  }

  /** Separators in a row are one. */
  lemma SeparatorsCollapse(x: string, y: string)
    ensures FullSlug(x + "-" + "-" + y) == FullSlug(x + "-" + y)
  {
    hide *;
    var a, b := Mapped(x), Mapped(y);
    MappedAround(x + "-", "-", y);
    MappedConcat(x, "-");
    MappedAround(x, "-", y);
    MappedSeparator();
    MoreSeparators(a, b);
    FullIs(x + "-" + "-" + y);
    FullIs(x + "-" + y);
  }

  /** Separators at the ends are none. */
  lemma EndsAreTrimmed(x: string)
    ensures FullSlug("-" + x) == FullSlug(x) && FullSlug(x + "-") == FullSlug(x)
  {
    hide *;
    MappedConcat("-", x);
    MappedConcat(x, "-");
    MappedSeparator();
    var a := Mapped(x);
    WordsConcat("", a);
    WordsConcat(a, "");
    NoWords();
    assert "" + "-" + a == "-" + a && a + "-" + "" == a + "-";
    assert [] + WordsOf(a) == WordsOf(a) && WordsOf(a) + [] == WordsOf(a);
    FullIs("-" + x);
    FullIs(x + "-");
    FullIs(x);
  }

  // ----- ampersands and everything else

  /** An ampersand is the word "and". */
  lemma AmpersandIsAnd(x: string, y: string)
    ensures FullSlug(x + "&" + y) == FullSlug(x + "-and-" + y)
  {
    hide *;
    MappedAround(x, "&", y);
    MappedAround(x, "-and-", y);
    MappedAmpersand("&", "-and-");
    MappedAnd("-and-", "and");
    SameMapped(x + "&" + y, x + "-and-" + y);
  }

  /** With spaces around it, too. */
  lemma SpacedAmpersand(x: string, y: string)
    ensures FullSlug(x + " & " + y) == FullSlug(x + " and " + y)
  {
    hide *;
    assert x + " & " + y == x + " " + "&" + (" " + y) && x + " and " + y == x + " " + "and" + (" " + y);
    AmpersandInside(x + " ", " " + y);
    SpacedMapped(x, y, "and");
    TwoExtra(Mapped(x), "and", Mapped(y));
    FullIs(x + " " + "&" + (" " + y));
    FullIs(x + " " + "and" + (" " + y));
  }

  lemma AmpersandInside(x: string, y: string)
    ensures Mapped(x + "&" + y) == Mapped(x) + "-" + "and" + "-" + Mapped(y)
  {
    hide *;
    MappedAround(x, "&", y);
    MappedAmpersand("&", "-and-");
    assert Mapped(x) + "-and-" + Mapped(y) == Mapped(x) + "-" + "and" + "-" + Mapped(y);
  }

  lemma SpacedMapped(x: string, y: string, word: string)
    requires word == "and"
    ensures Mapped(x + " ") == Mapped(x) + "-" && Mapped(" " + y) == "-" + Mapped(y)
    ensures Mapped(x + " " + word + (" " + y)) == Mapped(x) + "-" + word + ("-" + Mapped(y))
  {
    hide *;
    MappedSeparator();
    MappedAnd("-and-", word);
    MappedConcat(x, " ");
    MappedConcat(" ", y);
    MappedAround(x + " ", word, " " + y);
  }

  /** A second hyphen on either side of a word changes nothing. */
  lemma TwoExtra(a: string, word: string, b: string)
    ensures WordsOf(a + "-" + "-" + word + "-" + ("-" + b)) == WordsOf(a + "-" + word + ("-" + b))
  {
    hide *;
    MoreSeparators(a, word + "-" + "-" + b);
    MoreSeparators(a + "-" + word, b);
    assert a + "-" + "-" + word + "-" + ("-" + b) == a + "-" + "-" + (word + "-" + "-" + b);
    assert a + "-" + (word + "-" + "-" + b) == a + "-" + word + "-" + "-" + b;
    assert a + "-" + word + ("-" + b) == a + "-" + word + "-" + b;
  }

  lemma MappedOther(c: char)
    requires !IsAlnum(c) && c != ' ' && c != '-' && c != '&'
    ensures Mapped([c]) == ""
  {
    MappedOne(c);
  }

  /** Every other character is dropped without separating anything. */
  lemma OthersAreDropped(x: string, c: char, y: string)
    requires !IsAlnum(c) && c != ' ' && c != '-' && c != '&'
    ensures FullSlug(x + [c] + y) == FullSlug(x + y)
  {
    hide *;
    MappedAround(x, [c], y);
    MappedConcat(x, y);
    MappedOther(c);
    assert Mapped(x) + [] + Mapped(y) == Mapped(x) + Mapped(y);
    SameMapped(x + [c] + y, x + y);
  }

  // ----- the limit

  /** A slug of at most 64 characters is whole; a longer one is cut at 64, or at 63 if a hyphen would end it. */
  lemma CutAtTheLimit(input: string)
    ensures var full := FullSlug(input);
            match Slug(input)
            case None => full == ""
            case Some(s) =>
              && s <= full && (|full| <= 64 ==> s == full)
              && (|full| > 64 ==> |s| == if full[63] == '-' then 63 else 64)
  {
    var full := FullSlug(input);
    TidyWords(Mapped(input));
    ShortenIsTidy(full);
    if |full| > 64 {
      CutAt(full);
    }
  }

  lemma CutAt(full: string)
    requires Tidy(full) && |full| > 64
    ensures |TrimDashes(full[..64])| == if full[63] == '-' then 63 else 64
  {
    var cut := full[..64];
    assert cut[63] == full[63] && cut[62] == full[62];
    if full[63] == '-' {
      assert full[62] != '-';
      assert TrimDashes(cut) == TrimDashes(cut[..63]);
      assert cut[..63][62] == full[62];
    }
  }

  /** A name is valid exactly when it has 1 to 64 small letters, digits and hyphens, with no hyphen at either end. */
  lemma ValidIff(name: string)
    ensures ValidateName(name) == Ok <==>
              && 1 <= |name| <= 64 && name[0] != '-' && name[|name| - 1] != '-'
              && forall i :: 0 <= i < |name| ==> name[i] in LOWER || IsDigit(name[i]) || name[i] == '-'
  {
    AsciiLength(name);
    forall i | 0 <= i < |name| ensures NameChar(name[i]) <==> name[i] in LOWER || IsDigit(name[i]) || name[i] == '-' {
      SmallLetter(name[i]);
    }
    assert (forall c :: c in name ==> NameChar(c)) <==> forall i :: 0 <= i < |name| ==> NameChar(name[i]);
  }

  lemma {:induction false} ByteLengthIs(s: string)
    ensures ByteLength(s) == |TerminalOutput.Encoded(s)|
  {
    if s != [] {
      var n := |s| - 1;
      ByteLengthIs(s[..n]);
      TerminalOutput.EncodedSplit(s[..n], [s[n]]);
      assert s == s[..n] + [s[n]];
      assert TerminalOutput.Encoded([s[n]]) == TerminalOutput.Utf8(s[n] as int) + TerminalOutput.Encoded([]);
    }
  }

  /** A name is reported as too long exactly when it takes more than 64 bytes of UTF-8. */
  lemma TooLongIff(name: string)
    ensures ValidateName(name) == TooLong <==> |TerminalOutput.Encoded(name)| > 64
  {
    ByteLengthIs(name);
  }
}
