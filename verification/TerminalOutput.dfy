/** Terminal output cut to a byte limit without breaking a character or, where possible, a line. */
module TerminalOutput {
  import opened Basics

  newtype Byte = b: int | 0 <= b < 256

  const NEWLINE: Byte := 10

  predicate Continuation(b: Byte) {
    0x80 <= b <= 0xBF
  }

  // ----- UTF-8, section 3 of RFC 3629

  /** The length of the well-formed character that `s` starts with, or 0. */
  function CharLength(s: seq<Byte>): (n: nat)
    ensures n <= |s| && n <= 4
    ensures forall i :: 0 < i < n ==> Continuation(s[i])
    ensures n > 0 ==> !Continuation(s[0])
  {
    if |s| >= 1 && s[0] <= 0x7F then 1
    else if |s| >= 2 && 0xC2 <= s[0] <= 0xDF && Continuation(s[1]) then 2
    else if |s| >= 3 && 0xE0 <= s[0] <= 0xEF && Continuation(s[1]) && Continuation(s[2])
         && (s[0] == 0xE0 ==> s[1] >= 0xA0) && (s[0] == 0xED ==> s[1] <= 0x9F) then 3
    else if |s| >= 4 && 0xF0 <= s[0] <= 0xF4 && Continuation(s[1]) && Continuation(s[2]) && Continuation(s[3])
         && (s[0] == 0xF0 ==> s[1] >= 0x90) && (s[0] == 0xF4 ==> s[1] <= 0x8F) then 4
    else 0
  }

  predicate ValidUtf8(s: seq<Byte>) {
    s == [] || (CharLength(s) > 0 && ValidUtf8(s[CharLength(s)..]))
  }

  /** `str::is_char_boundary`. */
  predicate Boundary(s: seq<Byte>, i: nat) {
    i == 0 || i == |s| || (i < |s| && !Continuation(s[i]))
  }

  lemma CharLengthLocal(s: seq<Byte>, t: seq<Byte>)
    requires CharLength(s) > 0 && CharLength(s) <= |t| && t[..CharLength(s)] == s[..CharLength(s)]
    ensures CharLength(t) == CharLength(s)
  {
    var n := CharLength(s);
    assert forall i :: 0 <= i < n ==> t[i] == t[..n][i] == s[..n][i] == s[i];
  }

  /** The bytes of a scalar value, as the table of RFC 3629 gives them. */
  function Utf8(c: int): seq<Byte>
    requires IsScalar(c)
  {
    if c < 0x80 then [c as Byte]
    else if c < 0x800 then [(0xC0 + c / 64) as Byte, (0x80 + c % 64) as Byte]
    else if c < 0x10000 then [(0xE0 + c / 4096) as Byte, (0x80 + c / 64 % 64) as Byte, (0x80 + c % 64) as Byte]
    else [(0xF0 + c / 262144) as Byte, (0x80 + c / 4096 % 64) as Byte, (0x80 + c / 64 % 64) as Byte, (0x80 + c % 64) as Byte]
  }

  /** A Unicode scalar value: no surrogate. */
  predicate IsScalar(c: int) {
    0 <= c < 0xD800 || 0xE000 <= c < 0x110000
  }

  /** The characters of valid text are exactly the encoded scalar values: each is accepted, whatever follows. */
  lemma ScalarsAreAccepted(c: int, rest: seq<Byte>)
    requires IsScalar(c)
    ensures CharLength(Utf8(c) + rest) == |Utf8(c)|
  {
    ScalarLength(c);
    hide CharLength, Utf8;
    assert (Utf8(c) + rest)[..|Utf8(c)|] == Utf8(c) == Utf8(c)[..|Utf8(c)|];
    CharLengthLocal(Utf8(c), Utf8(c) + rest);
  }

  lemma ScalarLength(c: int)
    requires IsScalar(c)
    ensures Utf8(c) != [] && CharLength(Utf8(c)) == |Utf8(c)|
  {
    if 0x800 <= c < 0x10000 {
      ThreeByteLength(c);
    } else if c >= 0x10000 {
      FourByteLength(c);
    }
  }

  lemma ThreeByteLength(c: int)
    requires IsScalar(c) && 0x800 <= c < 0x10000
    ensures CharLength(Utf8(c)) == |Utf8(c)| == 3
  {
    var high := c / 64;
    Quotient4096(c, high, high / 64);
  }

  lemma FourByteLength(c: int)
    requires IsScalar(c) && c >= 0x10000
    ensures CharLength(Utf8(c)) == |Utf8(c)| == 4
  {
    var top := c / 4096;
    Quotient262144(c, top, top / 64);
  }

  /** And nothing else is. */
  lemma OnlyScalarsAreAccepted(s: seq<Byte>) returns (c: int)
    requires CharLength(s) > 0
    ensures IsScalar(c) && s[..CharLength(s)] == Utf8(c)
  {
    var n := CharLength(s);
    if n == 1 {
      c := s[0] as int;
    } else if n == 2 {
      c := TwoBytes(s[0], s[1]);
      assert s[..n] == [s[0], s[1]];
    } else if n == 3 {
      c := ThreeBytes(s[0], s[1], s[2]);
      assert s[..n] == [s[0], s[1], s[2]];
    } else {
      c := FourBytes(s[0], s[1], s[2], s[3]);
      assert s[..n] == [s[0], s[1], s[2], s[3]];
    }
  }

  lemma TwoBytes(x: Byte, y: Byte) returns (c: int)
    requires 0xC2 <= x <= 0xDF && Continuation(y)
    ensures IsScalar(c) && Utf8(c) == [x, y]
  {
    c := (x as int - 0xC0) * 64 + (y as int - 0x80);
    Digits64(x as int - 0xC0, y as int - 0x80, c);
  }

  lemma ThreeBytes(x: Byte, y: Byte, z: Byte) returns (c: int)
    requires 0xE0 <= x <= 0xEF && Continuation(y) && Continuation(z)
    requires (x == 0xE0 ==> y >= 0xA0) && (x == 0xED ==> y <= 0x9F)
    ensures IsScalar(c) && Utf8(c) == [x, y, z]
  {
    var high := (x as int - 0xE0) * 64 + (y as int - 0x80);
    c := high * 64 + (z as int - 0x80);
    Digits64(x as int - 0xE0, y as int - 0x80, high);
    Digits64(high, z as int - 0x80, c);
    Quotient4096(c, high, x as int - 0xE0);
  }

  lemma FourBytes(w: Byte, x: Byte, y: Byte, z: Byte) returns (c: int)
    requires 0xF0 <= w <= 0xF4 && Continuation(x) && Continuation(y) && Continuation(z)
    requires (w == 0xF0 ==> x >= 0x90) && (w == 0xF4 ==> x <= 0x8F)
    ensures IsScalar(c) && Utf8(c) == [w, x, y, z]
  {
    var top := (w as int - 0xF0) * 64 + (x as int - 0x80);
    var high := top * 64 + (y as int - 0x80);
    c := high * 64 + (z as int - 0x80);
    Digits64(w as int - 0xF0, x as int - 0x80, top);
    Digits64(top, y as int - 0x80, high);
    Digits64(high, z as int - 0x80, c);
    Quotient4096(c, high, top);
    Quotient262144(c, top, w as int - 0xF0);
  }

  lemma Digits64(q: int, r: int, n: int)
    requires n == q * 64 + r && 0 <= r < 64
    ensures n / 64 == q && n % 64 == r
  {
  }

  lemma Quotient4096(c: int, high: int, top: int)
    requires c / 64 == high && high / 64 == top
    ensures c / 4096 == top
  {
  }

  lemma Quotient262144(c: int, top: int, q: int)
    requires c / 4096 == top && top / 64 == q
    ensures c / 262144 == q
  {
  }

  /** The bytes of a text. */
  function Encoded(s: string): seq<Byte> {
    if s == [] then [] else Utf8(s[0] as int) + Encoded(s[1..])
  }

  lemma {:induction false} EncodedSplit(s: string, t: string)
    ensures Encoded(s + t) == Encoded(s) + Encoded(t)
  {
    hide Utf8;
    if s == [] {
      assert s + t == t;
    } else {
      EncodedSplit(s[1..], t);
      var first := Utf8(s[0] as int);
      assert (s + t)[1..] == s[1..] + t;
      Appended(first, Encoded(s[1..]), Encoded(t));
    }
  }

  lemma Appended(a: seq<Byte>, b: seq<Byte>, c: seq<Byte>)
    ensures a + (b + c) == a + b + c
  {
  }

  /** The valid byte strings are exactly the encodings of texts. */
  lemma {:induction false} EncodedIsValid(s: string)
    ensures ValidUtf8(Encoded(s))
  {
    hide CharLength, Utf8;
    if s != [] {
      var first, rest := Utf8(s[0] as int), Encoded(s[1..]);
      EncodedIsValid(s[1..]);
      ScalarsAreAccepted(s[0] as int, rest);
      ScalarLength(s[0] as int);
      assert (first + rest)[|first|..] == rest;
    }
  }

  lemma {:induction false} ValidIsEncoded(bytes: seq<Byte>) returns (s: string)
    requires ValidUtf8(bytes)
    ensures Encoded(s) == bytes
  {
    hide CharLength, Utf8;
    s := [];
    if bytes != [] {
      var n := CharLength(bytes);
      var c := OnlyScalarsAreAccepted(bytes);
      var rest := ValidIsEncoded(bytes[n..]);
      s := [c as char] + rest;
      assert s[1..] == rest;
    }
  }

  /** A valid text may be cut at every boundary. */
  lemma {:induction false} CutIsValid(s: seq<Byte>, i: nat)
    requires ValidUtf8(s) && i <= |s| && Boundary(s, i)
    ensures ValidUtf8(s[..i])
  {
    if i > 0 {
      var n := CharLength(s);
      assert i >= n;
      var rest := s[n..];
      assert Boundary(rest, i - n) by {
        if 0 < i - n < |rest| {
          assert rest[i - n] == s[i];
        }
      }
      CutIsValid(rest, i - n);
      CharLengthLocal(s, s[..i]);
      assert s[..i][n..] == rest[..i - n];
    }
  }

  /** A boundary is never more than three bytes away. */
  lemma {:induction false} BoundaryNearby(s: seq<Byte>, i: nat) returns (b: nat)
    requires ValidUtf8(s) && i <= |s|
    ensures b <= i <= b + 3 && Boundary(s, b)
  {
    var n := if s == [] then 0 else CharLength(s);
    if i < n || s == [] {
      b := 0;
    } else {
      b := BoundaryNearby(s[n..], i - n);
      b := b + n;
      if n < b < |s| {
        assert s[n..][b - n] == s[b];
      } else if b == n < |s| {
        assert s[n..] != [] && CharLength(s[n..]) > 0;
        assert s[n..][0] == s[n];
      }
    }
  }

  // ----- cutting

  /** The largest boundary that is at most `i`. */
  function CutAt(s: seq<Byte>, i: nat): (c: nat)
    ensures c <= i && Boundary(s, c) && forall k :: c < k <= i ==> !Boundary(s, k)
  {
    if Boundary(s, i) then i else CutAt(s, i - 1)
  }

  /** `rfind('\n')` in the first `i` bytes. */
  function LastNewline(s: seq<Byte>, i: nat): (r: Option<nat>)
    requires i <= |s|
    ensures match r
            case None => NEWLINE !in s[..i]
            case Some(k) => k < i && s[k] == NEWLINE && NEWLINE !in s[k + 1..i]
  {
    if i == 0 then None
    else if s[i - 1] == NEWLINE then Some(i - 1)
    else
      var r := LastNewline(s, i - 1);
      assert s[..i] == s[..i - 1] + [s[i - 1]];
      assert r.Some? ==> s[r.value + 1..i] == s[r.value + 1..i - 1] + [s[i - 1]];
      r
  }

  function Truncate(s: seq<Byte>, limit: Option<nat>): (r: seq<Byte>)
    ensures r <= s
  {
    if limit.None? || |s| <= limit.value then s
    else
      var cut := CutAt(s, limit.value);
      match LastNewline(s, cut)
      case None => s[..cut]
      case Some(k) => s[..k]
  }

  function Min(a: nat, b: nat): nat {
    if a <= b then a else b
  }

  /** Terminal::truncated_output. */
  method TruncatedOutput(s: seq<Byte>, limit: Option<nat>) returns (content: seq<Byte>, original: nat)
    ensures content == Truncate(s, limit) && original == |s|
  {
    content, original := s, |s|;
    if limit.Some? && |content| > limit.value {
      var end: nat := Min(limit.value, |content|);
      while !Boundary(content, end)
        invariant end <= limit.value && CutAt(s, end) == CutAt(s, limit.value) && content == s
        decreases end
      {
        end := end - 1;
      }
      var newline := LastNewline(content, end);
      end := if newline.Some? then newline.value else end;
      content := content[..end];
    }
  }

  /** No boundary lies between `cut` and the limit. */
  predicate LastBoundary(s: seq<Byte>, cut: int, limit: nat) {
    forall b :: cut < b <= limit && b >= 0 ==> !Boundary(s, b)
  }

  /** Cutting at the boundary `cut` and then at the last line break before it, if there is one, leaves `n` bytes. */
  predicate StopsAt(s: seq<Byte>, cut: int, n: nat) {
    && 0 <= cut < |s| && Boundary(s, cut)
    && if 10 in s[..cut] then n < cut && s[n] == 10 && 10 !in s[n + 1..cut] else n == cut
  }

  /**
   The cut text: a valid prefix, shorter than the original exactly when the original exceeds the limit; then it fits the
   limit, and it stops just before the last line break within the cut or loses at most three bytes.
   */
  lemma TruncationIsGood(s: seq<Byte>, limit: Option<nat>)
    requires ValidUtf8(s)
    ensures var r := Truncate(s, limit);
            && ValidUtf8(r) && r <= s
            && (|r| < |s| <==> limit.Some? && |s| > limit.value)
            && (|r| < |s| ==>
                  && |r| <= limit.value
                  && exists cut :: limit.value - 3 <= cut <= limit.value && LastBoundary(s, cut, limit.value) && StopsAt(s, cut, |r|))
  {
    if limit.Some? && |s| > limit.value {
      var near := BoundaryNearby(s, limit.value);
      var cut := CutAt(s, limit.value);
      assert near <= cut;
      CutIsValid(s, cut);
      match LastNewline(s, cut)
      case None =>
        assert StopsAt(s, cut, cut);
      case Some(k) =>
        assert s[..cut][k] == NEWLINE;
        assert Boundary(s, k);
        CutIsValid(s, k);
        assert StopsAt(s, cut, k);
    }
  }

  // ----- the terminal

  class Terminal {
    const limit: Option<nat>
    /** What the terminal has shown so far. */
    var content: seq<Byte>
    /** Set when the command has ended: the cut output and the length before cutting. */
    var output: Option<(seq<Byte>, nat)>
    /** What the terminal had shown when the command ended. */
    ghost var atExit: seq<Byte>

    ghost predicate Valid()
      reads this
    {
      output.Some? ==> output.value == (Truncate(atExit, limit), |atExit|)
    }

    constructor (limit: Option<nat>)
      ensures Valid() && this.limit == limit && content == [] && output == None
    {
      this.limit := limit;
      content, output, atExit := [], None, [];
    }

    /** More output arrives. */
    method Write(bytes: seq<Byte>)
      requires Valid()
      modifies this
      ensures Valid() && content == old(content) + bytes && output == old(output) && atExit == old(atExit)
    {
      content := content + bytes;
    }

    /** The command ends: its output is kept as it is now. */
    method Exit()
      requires Valid()
      modifies this
      ensures Valid() && output.Some? && atExit == old(content) && content == old(content)
    {
      var cut, original := TruncatedOutput(content, limit);
      atExit := content;
      output := Some((cut, original));
    }

    /** current_output: the text and the truncated flag, of the running command or of the one that ended. */
    method CurrentOutput() returns (text: seq<Byte>, truncated: bool)
      requires Valid()
      ensures var source := if output.Some? then atExit else content;
              && text == Truncate(source, limit)
              && (truncated <==> limit.Some? && |source| > limit.value)
    {
      if output.Some? {
        return output.value.0, output.value.1 > |output.value.0|;
      }
      var original;
      text, original := TruncatedOutput(content, limit);
      truncated := |text| < original;
    }
  }
}
