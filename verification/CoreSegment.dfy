/**
 The three fields of the core segment that have no fixed width: vendor consents, vendor legitimate interests and publisher
 restrictions. Each is decoded from the rest of the string and starts where the one before said it ended.
 */
module CoreSegment {
  import opened BitString
  import opened ConsentVector
  import VendorVector
  import PurposeRestrictions
  import ConsentSegment

  datatype Fields = Fields(consents: set<int>, interests: set<int>, restrictions: PurposeRestrictions.RestrictionMap)

  /** `bits.substr(pos, undefined)`. */
  function Rest(bits: Bits, pos: nat): Bits {
    Substr(bits, pos, |bits|)
  }

  /** The fields from `pos` on, and the position after them. */
  ghost function DecodeFields(bits: Bits, pos: nat): Result<(Fields, nat)> {
    var consents :- VendorVector.Decode(Rest(bits, pos), 2);
    var second := pos + consents.1;
    var interests :- VendorVector.Decode(Rest(bits, second), 2);
    var third := second + interests.1;
    var restrictions :- PurposeRestrictions.Decode(Rest(bits, third));
    Ok((Fields(consents.0, interests.0, restrictions.0), third + restrictions.1))
  }

  /** The three turns of SegmentEncoder.decode's loop over the fields: the cursor moves by the length each field recorded. */
  method ReadFields(bits: Bits, pos: nat)
    returns (r: Result<(Vector, Vector, PurposeRestrictions.PurposeRestrictionVector)>, cursor: nat)
    ensures r.Ok? ==> r.value.0.Valid() && r.value.1.Valid()
                      && DecodeFields(bits, pos) == Ok((Fields(r.value.0.ids, r.value.1.ids, r.value.2.entries), cursor))
    ensures r.Err? ==> DecodeFields(bits, pos) == Err(r.error)
  {
    hide VendorVector.Decode, PurposeRestrictions.Decode, Rest;
    cursor := pos;
    var consents :- VendorVector.DecodeVector(Rest(bits, cursor), 2);
    cursor := cursor + consents.bitLength;
    var interests :- VendorVector.DecodeVector(Rest(bits, cursor), 2);
    cursor := cursor + interests.bitLength;
    var restrictions :- PurposeRestrictions.DecodeVector(Rest(bits, cursor));
    cursor := cursor + restrictions.bitLength;
    r := Ok((consents, interests, restrictions));
  }

  function EncodeFields(f: Fields, maxConsent: nat, maxInterest: nat, gvl: set<int>): Result<Bits> {
    var consents :- VendorVector.Encode(f.consents, maxConsent);
    var interests :- VendorVector.Encode(f.interests, maxInterest);
    var restrictions :- PurposeRestrictions.Encode(f.restrictions, gvl);
    Ok(consents + interests + restrictions)
  }

  predicate Readable(m: PurposeRestrictions.RestrictionMap, gvl: set<int>) {
    && PurposeRestrictions.DistinctKeys(m)
    && forall e :: e in m ==> e.0.Valid() && !PurposeRestrictions.LosesZero(e.1, gvl)
  }

  lemma RestAfter(x: Bits, y: Bits)
    ensures Rest(x + y, |x|) == y
  {
  }

  /** Three codes in a row are read one after the other. */
  lemma ThreeInARow(prefix: Bits, a: Bits, b: Bits, c: Bits, suffix: Bits, x: set<int>, y: set<int>,
                    z: PurposeRestrictions.RestrictionMap)
    requires VendorVector.Decode(a + (b + (c + suffix)), 2) == Ok((x, |a|))
    requires VendorVector.Decode(b + (c + suffix), 2) == Ok((y, |b|))
    requires PurposeRestrictions.Decode(c + suffix) == Ok((z, |c|))
    ensures DecodeFields(prefix + (a + (b + (c + suffix))), |prefix|) == Ok((Fields(x, y, z), |prefix| + |a| + |b| + |c|))
  {
    hide VendorVector.Decode, PurposeRestrictions.Decode;
    var bits := prefix + (a + (b + (c + suffix)));
    RestAfter(prefix, a + (b + (c + suffix)));
    RestAfter(prefix + a, b + (c + suffix));
    RestAfter(prefix + a + b, c + suffix);
    assert bits == prefix + a + (b + (c + suffix)) == prefix + a + b + (c + suffix);
  }

  /**
   Wherever the fields stand and whatever follows them: they come back, each from where the one before ended, and the
   cursor ends behind the last.
   */
  lemma FieldsRoundTrip(prefix: Bits, f: Fields, maxConsent: nat, maxInterest: nat, gvl: set<int>, suffix: Bits)
    requires IsMaxOf(maxConsent, f.consents) && IsMaxOf(maxInterest, f.interests) && Readable(f.restrictions, gvl)
    requires EncodeFields(f, maxConsent, maxInterest, gvl).Ok?
    ensures var code := EncodeFields(f, maxConsent, maxInterest, gvl).value;
            DecodeFields(prefix + code + suffix, |prefix|) ==
              Ok((f.(restrictions := PurposeRestrictions.Survivors(f.restrictions, gvl)), |prefix| + |code|))
  {
    hide VendorVector.Decode, VendorVector.Encode, PurposeRestrictions.Decode, PurposeRestrictions.Encode, DecodeFields;
    var a, b := VendorVector.Encode(f.consents, maxConsent).value, VendorVector.Encode(f.interests, maxInterest).value;
    var c, z := PurposeRestrictions.Encode(f.restrictions, gvl).value, PurposeRestrictions.Survivors(f.restrictions, gvl);
    VendorVector.RoundTrip(f.consents, maxConsent, b + (c + suffix));
    VendorVector.RoundTrip(f.interests, maxInterest, c + suffix);
    PurposeRestrictions.RoundTrip(f.restrictions, gvl, suffix);
    ThreeInARow(prefix, a, b, c, suffix, f.consents, f.interests, z);
    assert prefix + (a + b + c) + suffix == prefix + (a + (b + (c + suffix)));
  }

  /** The same through the text form, whose padding is one more suffix. */
  lemma FieldsSurviveText(prefix: Bits, f: Fields, maxConsent: nat, maxInterest: nat, gvl: set<int>)
    requires IsMaxOf(maxConsent, f.consents) && IsMaxOf(maxInterest, f.interests) && Readable(f.restrictions, gvl)
    requires EncodeFields(f, maxConsent, maxInterest, gvl).Ok? && prefix + EncodeFields(f, maxConsent, maxInterest, gvl).value != []
    ensures var bits := prefix + EncodeFields(f, maxConsent, maxInterest, gvl).value;
            var text := ConsentSegment.EncodeText(bits);
            && text.Ok? && ConsentSegment.DecodeText(text.value).Ok?
            && DecodeFields(ConsentSegment.DecodeText(text.value).value, |prefix|)
            == Ok((f.(restrictions := PurposeRestrictions.Survivors(f.restrictions, gvl)), |bits|))
  {
    hide ConsentSegment.DecodeText, ConsentSegment.EncodeText, DecodeFields, EncodeFields;
    var code := EncodeFields(f, maxConsent, maxInterest, gvl).value;
    var bits := prefix + code;
    var padding := Zeros(ConsentSegment.Padding(|bits|));
    ConsentSegment.TextRoundTrip(bits);
    FieldsRoundTrip(prefix, f, maxConsent, maxInterest, gvl, padding);
  }
}
