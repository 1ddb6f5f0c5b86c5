/** The YAML frontmatter of a skill file: finding the closing "---" line by a scan and by trial parsing. */
module Frontmatter {
  import opened Basics

  /** The answer of the YAML library about a prefix: no document, an error, or the metadata. */
  datatype Yaml<M, E> = NoDocument | Invalid(error: E) | Metadata(value: M)

  datatype Outcome<M, E> =
    | NoOpener
    | NoCloser
    | InvalidYaml(last: Option<E>)
    | Extracted(metadata: M, body: string)

  /** Unicode White_Space, what `trim_start` removes. */
  predicate IsSpace(c: char) {
    || '\t' <= c <= '\r' || c == ' ' || c == '\U{85}' || c == '\U{a0}' || c == '\U{1680}'
    || '\U{2000}' <= c <= '\U{200a}' || c == '\U{2028}' || c == '\U{2029}' || c == '\U{202f}' || c == '\U{205f}'
    || c == '\U{3000}'
  }

  function TrimStart(s: string): string {
    if s != [] && IsSpace(s[0]) then TrimStart(s[1..]) else s
  }

  // ----- lines

  /** The end of the line that goes on at `from`: behind its line feed, or the end of the text. */
  function LineEnd(s: string, from: nat): (e: nat)
    requires from <= |s|
    ensures from <= e <= |s| && (from < |s| ==> from < e)
    decreases |s| - from
  {
    if from == |s| then from else if s[from] == '\n' then from + 1 else LineEnd(s, from + 1)
  }

  /** The text from `start` to `end` is a line that is exactly "---", ended by LF, CRLF or the end of the text. */
  predicate Delimiter(s: string, start: nat, end: nat)
    requires start <= end <= |s|
  {
    || (s[start..end] == "---" && end == |s|)
    || s[start..end] == "---\n"
    || s[start..end] == "---\r\n"
  }

  /** The ends of the delimiter lines among the lines from `start` on, in order. */
  function ClosersFrom(s: string, start: nat): seq<nat>
    requires start <= |s|
    decreases |s| - start
  {
    if start == |s| then []
    else
      var end := LineEnd(s, start);
      (if Delimiter(s, start, end) then [end] else []) + ClosersFrom(s, end)
  }

  /** The candidate ends of the frontmatter: the delimiter lines after the first line. */
  function Closers(s: string): seq<nat> {
    ClosersFrom(s, LineEnd(s, 0))
  }

  // ----- the byte scan

  /** What the scan records for byte `i`. */
  function ScanAt(s: string, i: nat): seq<nat>
    requires i < |s|
  {
    if s[i] != '\n' || i + 4 > |s| || s[i + 1..i + 4] != "---" then []
    else if i + 4 == |s| then [i + 4]
    else if s[i + 4] == '\n' then [i + 5]
    else if i + 5 < |s| && s[i + 4] == '\r' && s[i + 5] == '\n' then [i + 6]
    else []
  }

  function ScanFrom(s: string, i: nat): seq<nat>
    requires i <= |s|
    decreases |s| - i
  {
    if i == |s| then [] else ScanAt(s, i) + ScanFrom(s, i + 1)
  }

  /** The candidate loop of extract_frontmatter. */
  method FindCandidates(s: string) returns (candidates: seq<nat>)
    ensures candidates == ScanFrom(s, 0)
  {
    candidates := [];
    for i := 0 to |s|
      invariant candidates + ScanFrom(s, i) == ScanFrom(s, 0)
    {
      var found := ScanByte(s, i);
      assert candidates + (found + ScanFrom(s, i + 1)) == candidates + found + ScanFrom(s, i + 1);
      candidates := candidates + found;
    }
  }

  /** The body of the candidate loop. */
  method ScanByte(s: string, i: nat) returns (found: seq<nat>)
    requires i < |s|
    ensures found == ScanAt(s, i)
  {
    if s[i] != '\n' {
      return [];
    }
    var start := i + 1;
    if start + 3 > |s| {
      return [];
    }
    if s[start..start + 3] != "---" {
      return [];
    }
    var after := start + 3;
    if after == |s| {
      return [after];
    }
    if s[after] == '\n' {
      return [after + 1];
    }
    if after + 1 < |s| && s[after] == '\r' && s[after + 1] == '\n' {
      return [after + 2];
    }
    return [];
  }

  /** The scan at a line feed looks exactly at the line behind it. */
  lemma ScanSeesNextLine(s: string, start: nat)
    requires 0 < start < |s| && s[start - 1] == '\n'
    ensures ScanAt(s, start - 1) ==
              if Delimiter(s, start, LineEnd(s, start)) then [LineEnd(s, start)] else []
  {
    var end := LineEnd(s, start);
    LineEndSpec(s, start);
    DelimiterStarts(s, start, end);
    if start + 3 <= |s| && s[start..start + 3] == "---" {
      assert s[start] == s[start..start + 3][0] == '-' && s[start + 1] == s[start..start + 3][1] == '-';
      assert s[start + 2] == s[start..start + 3][2] == '-';
      assert end >= start + 3;
      if end == start + 3 {
        assert s[start..end] == "---";
      } else if end == start + 4 {
        assert s[start..end] == "---" + [s[start + 3]];
        assert s[start..end][3] == s[start + 3];
      } else if end == start + 5 {
        assert s[start..end] == "---" + [s[start + 3]] + [s[start + 4]];
        assert s[start..end][3] == s[start + 3] && s[start..end][4] == s[start + 4];
      } else {
        assert |s[start..end]| > 5;
      }
    }
  }

  lemma DelimiterStarts(s: string, start: nat, end: nat)
    requires start <= end <= |s|
    ensures Delimiter(s, start, end) ==> start + 3 <= |s| && s[start..start + 3] == "---"
  {
    if Delimiter(s, start, end) {
      assert s[start..start + 3] == s[start..end][..3];
    }
  }

  lemma {:induction false} LineEndSpec(s: string, from: nat)
    requires from <= |s|
    ensures forall k :: from <= k < LineEnd(s, from) - 1 ==> s[k] != '\n'
    ensures LineEnd(s, from) < |s| ==> LineEnd(s, from) > from && s[LineEnd(s, from) - 1] == '\n'
    decreases |s| - from
  {
    if from < |s| && s[from] != '\n' {
      LineEndSpec(s, from + 1);
    }
  }

  /** Nothing is recorded inside a line; at its end the next line is looked at. */
  lemma {:induction false} ScanRestOfLine(s: string, from: nat)
    requires from < |s|
    ensures var end := LineEnd(s, from);
            ScanFrom(s, from) == (if s[end - 1] == '\n' then ScanAt(s, end - 1) else []) + ScanFrom(s, end)
    decreases |s| - from
  {
    var here, rest := ScanAt(s, from), ScanFrom(s, from + 1);
    assert s[from] != '\n' ==> here == [];
    hide ScanAt;
    assert ScanFrom(s, from) == here + rest;
    if s[from] != '\n' {
      assert here + rest == rest;
      if from + 1 < |s| {
        ScanRestOfLine(s, from + 1);
      }
    }
  }

  lemma ClosersStep(s: string, start: nat, found: seq<nat>)
    requires 0 < start < |s| && s[start - 1] == '\n' && found == ScanAt(s, start - 1)
    ensures ClosersFrom(s, start) == found + ClosersFrom(s, LineEnd(s, start))
  {
    ScanSeesNextLine(s, start);
  }

  /** Nothing is recorded on the last line. */
  lemma LastLineHasNone(s: string, start: nat)
    requires start <= |s| && LineEnd(s, start) == |s|
    ensures ScanFrom(s, start) == []
  {
    hide Delimiter;
    if start < |s| {
      ScanRestOfLine(s, start);
      assert ScanAt(s, |s| - 1) == [];
    }
  }

  lemma {:induction false} ScanIsClosersFrom(s: string, start: nat)
    requires start <= |s|
    ensures ScanFrom(s, start) == ClosersFrom(s, LineEnd(s, start))
    decreases |s| - start
  {
    hide Delimiter, ScanAt;
    var end := LineEnd(s, start);
    if end < |s| {
      LineEndSpec(s, start);
      ScanRestOfLine(s, start);
      ClosersStep(s, end, ScanAt(s, end - 1));
      ScanIsClosersFrom(s, end);
    } else {
      LastLineHasNone(s, start);
    }
  }

  /** The scan finds exactly the delimiter lines after the first line. */
  lemma ScanIsClosers(s: string)
    ensures ScanFrom(s, 0) == Closers(s)
  {
    ScanIsClosersFrom(s, 0);
  }

  lemma {:induction false} ClosersSpec(s: string, start: nat)
    requires 0 < start <= |s| && (start == |s| || s[start - 1] == '\n')
    ensures forall e :: e in ClosersFrom(s, start) <==>
              exists a :: start <= a < e <= |s| && s[a - 1] == '\n' && e == LineEnd(s, a) && Delimiter(s, a, e)
    ensures forall i, j :: 0 <= i < j < |ClosersFrom(s, start)| ==> ClosersFrom(s, start)[i] < ClosersFrom(s, start)[j]
    decreases |s| - start
  {
    if start < |s| {
      var end := LineEnd(s, start);
      LineEndSpec(s, start);
      ClosersSpec(s, end);
      var rest := ClosersFrom(s, end);
      forall e | e in rest ensures e > end {
        var a :| end <= a < e <= |s| && s[a - 1] == '\n' && e == LineEnd(s, a) && Delimiter(s, a, e);
      }
      forall e ensures e in ClosersFrom(s, start) <==>
              exists a :: start <= a < e <= |s| && s[a - 1] == '\n' && e == LineEnd(s, a) && Delimiter(s, a, e) {
        if a :| start <= a < e <= |s| && s[a - 1] == '\n' && e == LineEnd(s, a) && Delimiter(s, a, e) {
          assert a == start || a >= end;
        }
      }
      forall i | 0 <= i < |rest| ensures rest[i] > end {
        assert rest[i] in rest;
      }
    }
  }

  /** The candidates are increasing, and they are the ends of exactly the non-first lines that are delimiters. */
  lemma CandidatesAreDelimiterLines(s: string)
    ensures forall i, j :: 0 <= i < j < |Closers(s)| ==> Closers(s)[i] < Closers(s)[j]
    ensures forall e :: e in Closers(s) <==>
              exists a :: 0 < a < e <= |s| && s[a - 1] == '\n' && e == LineEnd(s, a) && Delimiter(s, a, e)
  {
    if s != [] {
      var first := LineEnd(s, 0);
      LineEndSpec(s, 0);
      ClosersSpec(s, first);
      forall e, a | 0 < a < e <= |s| && s[a - 1] == '\n' && e == LineEnd(s, a) && Delimiter(s, a, e) ensures a >= first {
      }
    }
  }

  // ----- choosing the closer

  /** The candidates are tried in order; the error kept is the last one reported. */
  function LastError<M, E>(s: string, ends: seq<nat>, yaml: string -> Yaml<M, E>, k: nat): Option<E>
    requires k <= |ends| && forall e :: e in ends ==> e <= |s|
  {
    if k == 0 then None
    else
      assert ends[k - 1] in ends;
      match yaml(s[..ends[k - 1]])
      case Invalid(e) => Some(e)
      case _ => LastError(s, ends, yaml, k - 1)
  }

  /** The text is split at candidate `k`, the earliest one whose prefix the YAML library accepts. */
  predicate SplitsAt<M(==), E(==)>(text: string, ends: seq<nat>, yaml: string -> Yaml<M, E>, k: int, metadata: M, body: string) {
    && 0 <= k < |ends| && ends[k] <= |text|
    && yaml(text[..ends[k]]) == Metadata(metadata)
    && text[..ends[k]] + body == text
    && forall j :: 0 <= j < k ==> ends[j] <= |text| && !yaml(text[..ends[j]]).Metadata?
  }

  /** extract_frontmatter, for any YAML library. */
  method Extract<M, E>(content: string, yaml: string -> Yaml<M, E>) returns (r: Outcome<M, E>)
    ensures var text := TrimStart(content);
            var ends := Closers(text);
            match r
            case NoOpener => !("---" <= text)
            case NoCloser => "---" <= text && ends == []
            case InvalidYaml(last) =>
              && "---" <= text && ends != []
              && (forall e :: e in ends ==> e <= |text|)
              && (forall e :: e in ends ==> !yaml(text[..e]).Metadata?)
              && last == LastError(text, ends, yaml, |ends|)
            case Extracted(metadata, body) =>
              "---" <= text && exists k :: SplitsAt(text, ends, yaml, k, metadata, body)
  {
    var text := TrimStart(content);
    if !("---" <= text) {
      return NoOpener;
    }
    var ends := FindCandidates(text);
    ScanIsClosers(text);
    CandidatesAreDelimiterLines(text);
    assert forall e :: e in ends ==> e <= |text|;
    if ends == [] {
      return NoCloser;
    }
    r := TryCandidates(text, ends, yaml);
  }

  /** The loop that tries the candidates: the first one whose prefix the YAML library accepts is taken. */
  method TryCandidates<M, E>(text: string, ends: seq<nat>, yaml: string -> Yaml<M, E>)
    returns (r: Outcome<M, E>)
    requires forall e :: e in ends ==> e <= |text|
    ensures match r
            case NoOpener => false
            case NoCloser => false
            case InvalidYaml(last) =>
              && (forall e :: e in ends ==> !yaml(text[..e]).Metadata?)
              && last == LastError(text, ends, yaml, |ends|)
            case Extracted(metadata, body) => exists k :: SplitsAt(text, ends, yaml, k, metadata, body)
  {
    var last: Option<E> := None;
    for k := 0 to |ends|
      invariant forall j :: 0 <= j < k ==> ends[j] <= |text| && !yaml(text[..ends[j]]).Metadata?
      invariant last == LastError(text, ends, yaml, k)
    {
      var end := ends[k];
      assert end in ends;
      match yaml(text[..end]) {
        case NoDocument =>
        case Metadata(metadata) =>
          assert text[..end] + text[end..] == text;
          assert SplitsAt(text, ends, yaml, k, metadata, text[end..]);
          return Extracted(metadata, text[end..]);
        case Invalid(error) =>
          last := Some(error);
      }
    }
    r := InvalidYaml(last);
  }

  /** The 25 code points with the Unicode property White_Space. */
  const WHITE_SPACE: set<int> :=
    {0x9, 0xA, 0xB, 0xC, 0xD, 0x20, 0x85, 0xA0, 0x1680, 0x2000, 0x2001, 0x2002, 0x2003, 0x2004, 0x2005,
     0x2006, 0x2007, 0x2008, 0x2009, 0x200A, 0x2028, 0x2029, 0x202F, 0x205F, 0x3000}

  /** Trimming takes away the characters of `WHITE_SPACE` in front and nothing else. */
  lemma {:induction false} TrimStartIs(s: string) returns (k: nat)
    ensures k <= |s| && TrimStart(s) == s[k..] && (forall i :: 0 <= i < k ==> s[i] as int in WHITE_SPACE)
         && (k < |s| ==> s[k] as int !in WHITE_SPACE)
  {
    if s != [] && IsSpace(s[0]) {
      k := TrimStartIs(s[1..]);
      assert s[1..][k..] == s[k + 1..];
      assert forall i :: 0 < i <= k ==> s[i] == s[1..][i - 1];
      k := k + 1;
    } else {
      k := 0;
    }
  }

  /** The error kept is that of the last candidate that reported one. */
  lemma {:induction false} LastErrorIs<M, E>(s: string, ends: seq<nat>, yaml: string -> Yaml<M, E>, k: nat)
    requires k <= |ends| && forall e :: e in ends ==> e <= |s|
    ensures match LastError(s, ends, yaml, k)
            case None => forall i :: 0 <= i < k ==> ends[i] in ends && !yaml(s[..ends[i]]).Invalid?
            case Some(error) =>
              exists i :: 0 <= i < k && ends[i] in ends && yaml(s[..ends[i]]) == Invalid(error)
                && forall j :: i < j < k ==> ends[j] in ends && !yaml(s[..ends[j]]).Invalid?
  {
    if k > 0 {
      assert ends[k - 1] in ends;
      LastErrorIs(s, ends, yaml, k - 1);
    }
  }

  // ----- the three ways to end a delimiter line

  lemma {:induction false} LineEndAt(s: string, from: nat, end: nat)
    requires from < end <= |s| && (end == |s| || s[end - 1] == '\n') && forall i :: from <= i < end - 1 ==> s[i] != '\n'
    ensures LineEnd(s, from) == end
    decreases end - from
  {
    if from + 1 < end {
      LineEndAt(s, from + 1, end);
    }
  }

  lemma ClosesAt(a: string, line: string, b: string)
    requires a != "" && a[|a| - 1] == '\n'
    requires line == "---\n" || line == "---\r\n" || (line == "---" && b == "")
    ensures |a| + |line| in Closers(a + line + b)
  {
    var s, start, end := a + line + b, |a|, |a| + |line|;
    assert s[start..end] == line && s[start - 1] == '\n';
    assert forall i :: start <= i < end ==> s[i] == line[i - start];
    LineEndAt(s, start, end);
    CandidatesAreDelimiterLines(s);
  }

  /** A line "---" after a line break closes, ended by a line feed, by carriage return and line feed, or by the end. */
  lemma DelimiterLinesClose(a: string, b: string)
    requires a != "" && a[|a| - 1] == '\n'
    ensures |a| + 4 in Closers(a + "---\n" + b) && |a| + 5 in Closers(a + "---\r\n" + b) && |a| + 3 in Closers(a + "---")
  {
    ClosesAt(a, "---\n", b);
    ClosesAt(a, "---\r\n", b);
    ClosesAt(a, "---", "");
    assert a + "---" + "" == a + "---";
  }
}
