/** Base64url text of a bit string, and the vendors-disclosed segment of a TC string carried in it. */
module ConsentSegment {
  import opened BitString
  import opened ConsentVector
  import VendorVector

  /** The alphabet of section 5 of RFC 4648. */
  function Letter(n: nat): char
    requires n < 64
  {
    if n < 26 then 'A' + n as char
    else if n < 52 then 'a' + (n - 26) as char
    else if n < 62 then '0' + (n - 52) as char
    else if n == 62 then '-' else '_'
  }

  predicate IsLetter(c: char) {
    'A' <= c <= 'Z' || 'a' <= c <= 'z' || '0' <= c <= '9' || c == '-' || c == '_'
  }

  function LetterIndex(c: char): (n: nat)
    requires IsLetter(c)
    ensures n < 64
  {
    if 'A' <= c <= 'Z' then (c - 'A') as int
    else if 'a' <= c <= 'z' then (c - 'a') as int + 26
    else if '0' <= c <= '9' then (c - '0') as int + 52
    else if c == '-' then 62 else 63
  }

  lemma LetterRoundTrip(n: nat)
    requires n < 64
    ensures IsLetter(Letter(n)) && LetterIndex(Letter(n)) == n
  {
  }

  lemma LetterIndexRoundTrip(c: char)
    requires IsLetter(c)
    ensures Letter(LetterIndex(c)) == c
  {
  }

  /** Zero bits up to the next multiple of 24. */
  function Padding(n: nat): (z: nat)
    ensures (n + z) % 24 == 0 && z < 24
  {
    if n % 24 == 0 then 0 else 24 - n % 24
  }

  function Padded(bits: Bits): (r: Bits)
    ensures |r| == |bits| + Padding(|bits|)
  {
    bits + Zeros(Padding(|bits|))
  }

  /** The first `k` six-bit groups as letters. */
  function Letters(bits: Bits, k: nat): (text: string)
    requires 6 * k <= |bits|
    ensures |text| == k
  {
    if k == 0 then []
    else
      ValueBound(bits, 6 * (k - 1), 6);
      Pow2Widths();
      Letters(bits, k - 1) + [Letter(Value(bits, 6 * (k - 1), 6))]
  }

  function EncodeText(bits: Bits): Result<string> {
    if bits == [] then Err(EncodingError)
    else Ok(Letters(Padded(bits), |Padded(bits)| / 6))
  }

  /** The bits of the first `k` letters. */
  function LetterBits(text: string, k: nat): (bits: Bits)
    requires k <= |text| && forall c :: c in text ==> IsLetter(c)
    ensures |bits| == 6 * k
  {
    if k == 0 then [] else LetterBits(text, k - 1) + FixedBits(LetterIndex(text[k - 1]), 6)
  }

  predicate IsBase64Url(text: string) {
    text != [] && forall c :: c in text ==> IsLetter(c)
  }

  function DecodeText(text: string): Result<Bits> {
    if !IsBase64Url(text) then Err(DecodingError) else Ok(LetterBits(text, |text|))
  }

  /** The next six bits add their letter. */
  lemma LettersNext(bits: Bits, pos: nat, group: nat)
    requires pos % 6 == 0 && pos + 6 <= |bits| && IntAt(bits, pos, 6) == Ok(group)
    ensures group < 64 && Letters(bits, (pos + 6) / 6) == Letters(bits, pos / 6) + [Letter(group)]
  {
    ValueBound(bits, pos, 6);
    Pow2Widths();
    assert 6 * (pos / 6) == pos;
  }

  /** Base64Url.encode. */
  method Encode(bits: Bits) returns (r: Result<string>)
    ensures r == EncodeText(bits)
  {
    hide Pow2;
    if bits == [] {
      return Err(EncodingError);
    }
    var rest := |bits| % 24;
    var all := bits + if rest != 0 then Zeros(24 - rest) else [];
    assert all == Padded(bits);
    var text := "";
    var pos := 0;
    while pos < |all|
      invariant pos <= |all| && pos % 6 == 0
      invariant text == Letters(all, pos / 6)
    {
      var group := IntAt(all, pos, 6).value;
      LettersNext(all, pos, group);
      text := text + [Letter(group)];
      pos := pos + 6;
    }
    r := Ok(text);
  }

  /** Base64Url.decode. */
  method Decode(text: string) returns (r: Result<Bits>)
    ensures r == DecodeText(text)
  {
    if !IsBase64Url(text) {
      return Err(DecodingError);
    }
    var bits: Bits := [];
    for k := 0 to |text|
      invariant bits == LetterBits(text, k)
    {
      Pow2Widths();
      bits := bits + EncodeInt(LetterIndex(text[k]), 6).value;
    }
    r := Ok(bits);
  }

  lemma {:induction false} LettersAreLetters(bits: Bits, k: nat)
    requires 6 * k <= |bits|
    ensures forall c :: c in Letters(bits, k) ==> IsLetter(c)
    ensures forall i :: 0 <= i < k ==> 0 <= 6 * i && Value(bits, 6 * i, 6) < 64
                                       && Letters(bits, k)[i] == Letter(Value(bits, 6 * i, 6))
  {
    if k > 0 {
      LettersAreLetters(bits, k - 1);
      ValueBound(bits, 6 * (k - 1), 6);
      Pow2Widths();
      LetterRoundTrip(Value(bits, 6 * (k - 1), 6));
    }
  }

  lemma GroupBits(bits: Bits, pos: nat)
    requires pos + 6 <= |bits|
    ensures FixedBits(Value(bits, pos, 6), 6) == bits[pos..pos + 6]
  {
    var part := bits[pos..pos + 6];
    assert part[0..6] == part;
    ValueLocal(bits, pos, part, 0, 6);
    IntCanonical(part, 6);
  }

  lemma {:induction false} LettersRoundTrip(bits: Bits, k: nat, n: nat)
    requires k <= n && 6 * n <= |bits| && forall c :: c in Letters(bits, n) ==> IsLetter(c)
    ensures LetterBits(Letters(bits, n), k) == bits[..6 * k]
  {
    if k > 0 {
      LettersRoundTrip(bits, k - 1, n);
      LettersAreLetters(bits, n);
      var pos := 6 * (k - 1);
      LetterRoundTrip(Value(bits, pos, 6));
      GroupBits(bits, pos);
      assert bits[..6 * k] == bits[..pos] + bits[pos..pos + 6];
    }
  }

  lemma SixesFill(n: nat)
    requires n % 24 == 0
    ensures 6 * (n / 6) == n
  {
  }

  /** Text decodes to the bits it was made from, followed by less than 24 zero bits. */
  lemma TextRoundTrip(bits: Bits)
    requires bits != []
    ensures EncodeText(bits).Ok? && DecodeText(EncodeText(bits).value) == Ok(bits + Zeros(Padding(|bits|)))
  {
    hide IsLetter, Letters, LetterBits;
    var all := Padded(bits);
    var n := |all| / 6;
    LettersAreLetters(all, n);
    LettersRoundTrip(all, n, n);
    SixesFill(|all|);
    assert all[..|all|] == all;
  }

  // ----- the vendors-disclosed segment

  const VENDORS_DISCLOSED := 1

  function EncodeSegment(ids: set<int>, maxId: nat): Result<string> {
    var kind :- EncodeInt(VENDORS_DISCLOSED, SEGMENT_TYPE_BITS);
    var vendors :- VendorVector.Encode(ids, maxId);
    EncodeText(kind + vendors)
  }

  /** The segment type and the vendors of a segment of that type. */
  ghost function DecodeSegment(text: string): Result<(nat, set<int>)> {
    var bits :- DecodeText(text);
    var kind :- IntAt(bits, 0, SEGMENT_TYPE_BITS);
    var vendors :- VendorVector.Decode(Substr(bits, 3, |bits|), 2);
    Ok((kind, vendors.0))
  }

  /**
   The text of a segment gives back the disclosed vendors, whatever padding the text form needed: for every vendor set
   that encodes at all.
   */
  lemma SegmentRoundTrip(ids: set<int>, maxId: nat)
    requires IsMaxOf(maxId, ids) && VendorVector.Encode(ids, maxId).Ok?
    ensures EncodeSegment(ids, maxId).Ok?
    ensures DecodeSegment(EncodeSegment(ids, maxId).value) == Ok((VENDORS_DISCLOSED, ids))
  {
    Pow2Widths();
    var kind := EncodeInt(VENDORS_DISCLOSED, SEGMENT_TYPE_BITS).value;
    var vendors := VendorVector.Encode(ids, maxId).value;
    var bits := kind + vendors;
    TextRoundTrip(bits);
    var padding := Zeros(Padding(|bits|));
    var all := bits + padding;
    assert Holds(all, 0, kind) by {
      assert all[0..3] == kind;
    }
    IntAtHolds(all, 0, SEGMENT_TYPE_BITS, VENDORS_DISCLOSED);
    DropKind(kind, vendors, padding);
    VendorVector.RoundTrip(ids, maxId, padding);
  }

  lemma DropKind(kind: Bits, vendors: Bits, padding: Bits)
    requires |kind| == 3
    ensures var all := kind + vendors + padding; Substr(all, 3, |all|) == vendors + padding
  {
  }
}
