/** The string operations the scripts rely on: lines, stripping, tokens, substring search and decimal numerals. */
module Text {
  import opened Basics

  /** What `str.strip()` and `str.split()` treat as white space. */
  predicate IsSpace(c: char) {
    || '\t' <= c <= '\r' || '\U{1c}' <= c <= ' ' || c == '\U{85}' || c == '\U{a0}' || c == '\U{1680}'
    || '\U{2000}' <= c <= '\U{200a}' || c == '\U{2028}' || c == '\U{2029}' || c == '\U{202f}' || c == '\U{205f}'
    || c == '\U{3000}'
  }

  predicate OneLine(s: string) {
    '\n' !in s
  }

  // ----- lines

  /** `s.split("\n")`. */
  function Split(s: string): (lines: seq<string>)
    ensures |lines| >= 1
  {
    if s == [] then [""]
    else
      var rest := Split(s[1..]);
      if s[0] == '\n' then [""] + rest else [[s[0]] + rest[0]] + rest[1..]
  }

  /** `"\n".join(lines)`. */
  function Join(lines: seq<string>): string {
    if lines == [] then "" else if |lines| == 1 then lines[0] else lines[0] + "\n" + Join(lines[1..])
  }

  lemma {:induction false} SplitFirst(line: string, rest: string)
    requires OneLine(line)
    ensures Split(line + "\n" + rest) == [line] + Split(rest)
    ensures Split(line) == [line]
  {
    var s := line + "\n" + rest;
    if line == [] {
      assert s[1..] == rest;
    } else {
      assert s[1..] == line[1..] + "\n" + rest;
      assert OneLine(line[1..]);
      SplitFirst(line[1..], rest);
      assert [line[0]] + line[1..] == line;
    }
  }

  /** Lines that hold no line break survive being joined and split. */
  lemma {:induction false} SplitJoin(lines: seq<string>)
    requires lines != [] && forall l :: l in lines ==> OneLine(l)
    ensures Split(Join(lines)) == lines
  {
    if |lines| == 1 {
      SplitFirst(lines[0], "");
    } else {
      SplitFirst(lines[0], Join(lines[1..]));
      SplitJoin(lines[1..]);
    }
  }

  // ----- stripping and tokens

  function StripLeft(s: string): string {
    if s != [] && IsSpace(s[0]) then StripLeft(s[1..]) else s
  }

  function StripRight(s: string): string {
    if s != [] && IsSpace(s[|s| - 1]) then StripRight(s[..|s| - 1]) else s
  }

  /** `s.strip()`. */
  function Strip(s: string): string {
    StripRight(StripLeft(s))
  }

  /** The prefix before the first white space. */
  function Word(s: string): string {
    if s == [] || IsSpace(s[0]) then [] else [s[0]] + Word(s[1..])
  }

  /** `s.split()[0]`; there is none when `s` is blank. */
  function FirstToken(s: string): Option<string> {
    var word := Word(StripLeft(s));
    if word == [] then None else Some(word)
  }

  lemma {:induction false} FirstTokenIs(spaces: nat, word: string, rest: string)
    requires word != [] && (forall c :: c in word ==> !IsSpace(c)) && (rest == [] || IsSpace(rest[0]))
    ensures FirstToken(Spaces(spaces) + word + rest) == Some(word)
  {
    var s := Spaces(spaces) + word + rest;
    if spaces > 0 {
      assert s[1..] == Spaces(spaces - 1) + word + rest;
      FirstTokenIs(spaces - 1, word, rest);
    } else {
      assert s == word + rest && word[0] in word;
      WordIs(word, rest);
    }
  }

  lemma {:induction false} WordIs(word: string, rest: string)
    requires (forall c :: c in word ==> !IsSpace(c)) && (rest == [] || IsSpace(rest[0]))
    ensures Word(word + rest) == word
  {
    if word != [] {
      assert (word + rest)[1..] == word[1..] + rest && word[0] in word;
      WordIs(word[1..], rest);
    } else {
      assert word + rest == rest;
    }
  }

  function Spaces(n: nat): (s: string)
    ensures |s| == n && forall c :: c in s ==> c == ' '
  {
    seq(n, _ => ' ')
  }

  // ----- searching

  predicate OccursAt(s: string, part: string, i: int) {
    0 <= i <= |s| - |part| && s[i..i + |part|] == part
  }

  /** The first occurrence of `part` in `s` at or after `from`, or -1. */
  function Find(s: string, part: string, from: nat): (i: int)
    ensures i == -1 || from <= i <= |s| - |part|
    decreases |s| + 1 - from
  {
    if from > |s| then -1
    else if OccursAt(s, part, from) then from
    else Find(s, part, from + 1)
  }

  lemma {:induction false} FindSpec(s: string, part: string, from: nat)
    ensures var i := Find(s, part, from);
            && (i == -1 || (from <= i && OccursAt(s, part, i)))
            && forall j :: from <= j && (i == -1 || j < i) ==> !OccursAt(s, part, j)
    decreases |s| + 1 - from
  {
    if from <= |s| && !OccursAt(s, part, from) {
      FindSpec(s, part, from + 1);
    }
  }

  lemma FindIs(s: string, part: string, i: nat)
    requires OccursAt(s, part, i) && forall j :: 0 <= j < i ==> !OccursAt(s, part, j)
    ensures Find(s, part, 0) == i
  {
    FindSpec(s, part, 0);
  }

  lemma FindIsNot(s: string, part: string)
    requires forall j :: 0 <= j ==> !OccursAt(s, part, j)
    ensures Find(s, part, 0) == -1
  {
    FindSpec(s, part, 0);
  }

  lemma OccursShift(pre: string, s: string, part: string, j: nat)
    ensures OccursAt(pre + s, part, |pre| + j) <==> OccursAt(s, part, j)
  {
    if j + |part| <= |s| {
      assert (pre + s)[|pre| + j..|pre| + j + |part|] == s[j..j + |part|];
    }
  }

  lemma OccursHead(s: string, part: string, j: int)
    requires part != [] && OccursAt(s, part, j)
    ensures s[j] == part[0]
  {
    assert s[j] == s[j..j + |part|][0];
  }

  /** A prefix without the first character of `part` only shifts the search. */
  lemma FindAfter(pre: string, s: string, part: string)
    requires part != [] && part[0] !in pre
    ensures Find(pre + s, part, 0) == if Find(s, part, 0) == -1 then -1 else |pre| + Find(s, part, 0)
  {
    FindSpec(s, part, 0);
    var i := Find(s, part, 0);
    forall j | 0 <= j && (i == -1 || j < |pre| + i) ensures !OccursAt(pre + s, part, j) {
      if j >= |pre| {
        OccursShift(pre, s, part, j - |pre|);
      } else if OccursAt(pre + s, part, j) {
        OccursHead(pre + s, part, j);
      }
    }
    if i == -1 {
      FindIsNot(pre + s, part);
    } else {
      OccursShift(pre, s, part, i);
      FindIs(pre + s, part, |pre| + i);
    }
  }

  /** A first character that starts no occurrence only shifts the search. */
  lemma FindSkip(c: char, s: string, part: string)
    requires !OccursAt([c] + s, part, 0)
    ensures Find([c] + s, part, 0) == if Find(s, part, 0) == -1 then -1 else 1 + Find(s, part, 0)
  {
    hide OccursAt, Find;
    FindSpec(s, part, 0);
    var i := Find(s, part, 0);
    forall j | 0 <= j && (i == -1 || j < 1 + i) ensures !OccursAt([c] + s, part, j) {
      if j > 0 {
        OccursShift([c], s, part, j - 1);
      }
    }
    if i == -1 {
      FindIsNot([c] + s, part);
    } else {
      OccursShift([c], s, part, i);
      FindIs([c] + s, part, 1 + i);
    }
  }

  lemma FindHead(part: string, s: string)
    ensures Find(part + s, part, 0) == 0
  {
    assert (part + s)[0..|part|] == part;
  }

  /** What follows the first occurrence does not matter. */
  lemma FindExtend(s: string, part: string, t: string)
    requires Find(s, part, 0) >= 0
    ensures Find(s + t, part, 0) == Find(s, part, 0)
  {
    FindSpec(s, part, 0);
    var i := Find(s, part, 0);
    forall j | 0 <= j <= i ensures OccursAt(s + t, part, j) <==> OccursAt(s, part, j) {
      assert (s + t)[j..j + |part|] == s[j..j + |part|];
    }
    FindIs(s + t, part, i);
  }

  lemma FindNone(s: string, part: string)
    requires part != [] && part[0] !in s
    ensures Find(s, part, 0) == -1
  {
    forall j | 0 <= j ensures !OccursAt(s, part, j) {
      if OccursAt(s, part, j) {
        OccursHead(s, part, j);
      }
    }
    FindIsNot(s, part);
  }

  predicate Contains(s: string, part: string) {
    Find(s, part, 0) >= 0
  }

  /** `s.split(part)[1]`: what stands between the first and the second occurrence. */
  function Second(s: string, part: string): Option<string>
    requires part != []
  {
    var i := Find(s, part, 0);
    if i < 0 then None
    else
      var rest := s[i + |part|..];
      var j := Find(rest, part, 0);
      Some(if j < 0 then rest else rest[..j])
  }

  lemma SecondIs(pre: string, part: string, rest: string)
    requires part != [] && part[0] !in pre
    ensures Second(pre + (part + rest), part)
         == Some(if Find(rest, part, 0) < 0 then rest else rest[..Find(rest, part, 0)])
  {
    FindHead(part, rest);
    FindAfter(pre, part + rest, part);
    SecondAt(pre + (part + rest), part, |pre|, rest) by {
      DropTwo(pre, part, rest);
    }
  }

  lemma SecondAt(s: string, part: string, i: nat, rest: string)
    requires part != [] && Find(s, part, 0) == i && i + |part| <= |s| && s[i + |part|..] == rest
    ensures Second(s, part) == Some(if Find(rest, part, 0) < 0 then rest else rest[..Find(rest, part, 0)])
  {
  }

  lemma DropTwo(x: string, y: string, z: string)
    ensures (x + (y + z))[|x| + |y|..] == z
  {
  }

  // ----- numerals

  function DigitValue(c: char): nat {
    if IsDigit(c) then c as int - '0' as int else 0
  }

  /** `str(n)`. */
  function Digits(n: nat): (s: string)
    ensures s != [] && forall c :: c in s ==> IsDigit(c)
  {
    var last := '0' + (n % 10) as char;
    if n < 10 then [last] else Digits(n / 10) + [last]
  }

  function NatOf(s: string): nat {
    if s == [] then 0
    else
      10 * NatOf(s[..|s| - 1]) + DigitValue(s[|s| - 1])
  }

  /** `int(s)` for ASCII numerals; anything else is a ValueError. */
  function ParseInt(s: string): Option<int> {
    if s != [] && forall c :: c in s ==> IsDigit(c) then Some(NatOf(s))
    else if |s| > 1 && (s[0] == '-' || s[0] == '+') && forall c :: c in s[1..] ==> IsDigit(c) then
      Some(if s[0] == '-' then 0 - NatOf(s[1..]) as int else NatOf(s[1..]) as int)
    else None
  }

  lemma {:induction false} NumeralRoundTrip(n: nat)
    ensures NatOf(Digits(n)) == n
  {
    var s := Digits(n);
    if n < 10 {
      assert s[..0] == [];
    } else {
      NumeralRoundTrip(n / 10);
      assert s[..|s| - 1] == Digits(n / 10);
    }
  }

  function Pow10(n: nat): nat {
    if n == 0 then 1 else 10 * Pow10(n - 1)
  }

  /** In a numeral the first digit weighs most. */
  lemma {:induction false} FirstDigitWeighsMost(c: char, s: string)
    ensures NatOf([c] + s) == DigitValue(c) * Pow10(|s|) + NatOf(s)
  {
    var all := [c] + s;
    if s == [] {
      assert all[..0] == [];
    } else {
      var n := |s| - 1;
      assert all[..|all| - 1] == [c] + s[..n] && all[|all| - 1] == s[n];
      FirstDigitWeighsMost(c, s[..n]);
    }
  }
}
