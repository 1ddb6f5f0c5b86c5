/** The format of the codec, bit by bit, on examples and by size: what round trips alone would leave open. */
module CodecFormat {
  import opened BitString
  import opened ConsentVector
  import opened ListCodec
  import opened VendorVector
  import PurposeRestrictions
  import ConsentSegment

  const CAPITALS := "ABCDEFGHIJKLMNOPQRSTUVWXYZ"
  const SMALL := "abcdefghijklmnopqrstuvwxyz"
  const OTHERS := "0123456789-_"

  /** The letters are those of the base64url alphabet, in its order. */
  lemma LetterIs(n: nat)
    requires n < 64
    ensures ConsentSegment.Letter(n)
         == if n < 26 then CAPITALS[n] else if n < 52 then SMALL[n - 26] else OTHERS[n - 52]
  {
    if n < 26 {
      CapitalAt(n, CAPITALS);
    } else if n < 52 {
      SmallAt(n - 26, SMALL);
    }
  }

  lemma CapitalAt(n: nat, s: string)
    requires n < 26 && s == CAPITALS
    ensures s[n] as int == 65 + n
  {
    if n < 13 {
      assert s[..13] == "ABCDEFGHIJKLM";
    } else {
      assert s[13..] == "NOPQRSTUVWXYZ";
    }
  }

  lemma SmallAt(n: nat, s: string)
    requires n < 26 && s == SMALL
    ensures s[n] as int == 97 + n
  {
    if n < 13 {
      assert s[..13] == "abcdefghijklm";
    } else {
      assert s[13..] == "nopqrstuvwxyz";
    }
  }

  /** Integers are written most significant bit first. */
  lemma {:induction false} BitOfFixed(n: nat, width: nat, k: nat)
    requires k < width
    ensures FixedBits(n, width)[k] == (n / Pow2(width - 1 - k) % 2 == 1)
  {
    if k < width - 1 {
      BitOfFixed(n / 2, width - 1, k);
      HalfThen(n, Pow2(width - 2 - k));
      assert Pow2(width - 1 - k) == 2 * Pow2(width - 2 - k);
    } else {
      assert Pow2(0) == 1;
    }
  }

  lemma HalfThen(n: nat, p: nat)
    requires p >= 1
    ensures n / 2 / p == n / (2 * p)
  {
    var q := n / (2 * p);
    var r := n - 2 * p * q;
    DivBounds(n, 2 * p);
    assert n / 2 == p * q + r / 2;
    assert 0 <= r / 2 < p;
    DivIs(n / 2, p, q, r / 2);
  }

  lemma DivBounds(n: nat, d: nat)
    requires d >= 1
    ensures 0 <= n - d * (n / d) < d
  {
  }

  lemma DivIs(n: nat, d: nat, q: nat, r: nat)
    requires d >= 1 && n == d * q + r && r < d
    ensures n / d == q
  {
    DivBounds(n, d);
    SameQuotient(d, q, r, n / d, n - d * (n / d));
  }

  lemma SameQuotient(d: nat, q: int, r: int, x: int, y: int)
    requires d >= 1 && d * q + r == d * x + y && 0 <= r < d && 0 <= y < d
    ensures q == x
  {
    assert d * (q - x) == y - r;
    NoSmallMultiple(d, q - x);
  }

  lemma NoSmallMultiple(d: int, k: int)
    requires d >= 1 && -d < d * k < d
    ensures k == 0
  {
  }

  lemma BitOfInt(n: int, width: Width, k: nat)
    requires EncodeInt(n, width).Ok? && k < width
    ensures EncodeInt(n, width).value[k] == (n / Pow2(width - 1 - k) % 2 == 1)
  {
    BitOfFixed(n, width, k);
  }

  /** The front of a vendor code: the maximum in 16 bits, then 1 for range form and 0 for a bitfield. */
  lemma VendorCodeFront(ids: set<int>, maxId: nat)
    requires Encode(ids, maxId).Ok?
    ensures var code := Encode(ids, maxId).value;
            |code| >= 17 && EncodeInt(maxId, 16) == Ok(code[..16]) && code[16] == UsesRanges(ids, maxId)
  {
    var code, head := Encode(ids, maxId).value, EncodeInt(maxId, MAX_ID_BITS).value;
    if UsesRanges(ids, maxId) {
      FrontOf(head, true, EncodeRanges(Runs(ids, maxId)).value);
    } else {
      FrontOf(head, false, Bitfield(ids, maxId));
    }
  }

  lemma FrontOf(head: Bits, form: bool, rest: Bits)
    requires |head| == 16
    ensures var code := head + [form] + rest; |code| >= 17 && code[..16] == head && code[16] == form
  {
  }

  /** In a bitfield, the bit of an id stands at its place, counted from 1. */
  lemma BitfieldPlaces(ids: set<int>, maxId: nat, id: nat)
    requires Encode(ids, maxId).Ok? && !UsesRanges(ids, maxId) && 1 <= id <= maxId
    ensures var code := Encode(ids, maxId).value; |code| == 17 + maxId && code[16 + id] == (id in ids)
  {
    var head := EncodeInt(maxId, MAX_ID_BITS).value;
    assert (head + [false] + Bitfield(ids, maxId))[16 + id] == Bitfield(ids, maxId)[id - 1];
  }

  /** In range form, the 12-bit count of entries comes first. */
  lemma RangeCount(ids: set<int>, maxId: nat)
    requires Encode(ids, maxId).Ok? && UsesRanges(ids, maxId)
    ensures var code := Encode(ids, maxId).value; |code| >= 29 && EncodeInt(|Runs(ids, maxId)|, 12) == Ok(code[17..29])
  {
    RangeFormCode(ids, maxId);
    var head, count := EncodeInt(maxId, MAX_ID_BITS).value, EncodeInt(|Runs(ids, maxId)|, NUM_ENTRIES_BITS).value;
    var body := EncodeList(EncodeEntry, Runs(ids, maxId)).value;
    assert (head + [true] + (count + body))[17..29] == count;
  }

  /** An entry: 0 and an id, or 1 and the two ends, 16 bits each. */
  lemma EntryFormat(entry: RangeEntry)
    requires EncodeEntry(entry).Ok?
    ensures var code := EncodeEntry(entry).value;
            match entry
            case Single(id) => |code| == 17 && !code[0] && EncodeInt(id, 16) == Ok(code[1..])
            case Range(first, last) =>
              |code| == 33 && code[0] && EncodeInt(first, 16) == Ok(code[1..17]) && EncodeInt(last, 16) == Ok(code[17..])
  {
    match entry
    case Single(id) =>
    case Range(first, last) =>
      var a, b := EncodeInt(first, 16).value, EncodeInt(last, 16).value;
      assert ([true] + a + b)[1..17] == a && ([true] + a + b)[17..] == b;
  }

  /** A restriction: 6 bits of purpose, 2 of type, 12 of count. */
  lemma RestrictionFront(e: (PurposeRestrictions.Restriction, set<int>), gvl: set<int>)
    requires PurposeRestrictions.EncodeRestriction(e, gvl).Ok?
    ensures var code := PurposeRestrictions.EncodeRestriction(e, gvl).value;
            && |code| >= 20 && EncodeInt(e.0.purposeId, 6) == Ok(code[..6]) && EncodeInt(e.0.restrictionType, 2) == Ok(code[6..8])
            && EncodeInt(PurposeRestrictions.WrittenCount(e.1, gvl), 12) == Ok(code[8..20])
  {
    hide Pow2;
    var code := PurposeRestrictions.EncodeRestriction(e, gvl).value;
    var purpose, kind, count, body := PurposeRestrictions.RestrictionCode(e, gvl, code);
    Slices(purpose, kind, count, body);
  }

  lemma Slices(purpose: Bits, kind: Bits, count: Bits, body: Bits)
    requires |purpose| == 6 && |kind| == 2 && |count| == 12
    ensures var code := purpose + kind + (count + body);
            |code| >= 20 && code[..6] == purpose && code[6..8] == kind && code[8..20] == count
  {
  }

  /** A map: its number of restrictions in 12 bits. */
  lemma MapFront(m: PurposeRestrictions.RestrictionMap, gvl: set<int>)
    requires PurposeRestrictions.Encode(m, gvl).Ok?
    ensures var code := PurposeRestrictions.Encode(m, gvl).value; |code| >= 12 && EncodeInt(|m|, 12) == Ok(code[..12])
  {
  }

  predicate IdsFit(entries: seq<RangeEntry>) {
    forall e :: e in entries ==> IdFits(e)
  }

  predicate IdFits(e: RangeEntry) {
    match e case Single(id) => 0 <= id < 65536 case Range(first, last) => 0 <= first < 65536 && 0 <= last < 65536
  }

  /** A restriction encodes exactly when its fields fit: purpose below 64, type below 4, count below 4096, ids below 65536. */
  lemma RestrictionEncodesIff(e: (PurposeRestrictions.Restriction, set<int>), gvl: set<int>)
    ensures PurposeRestrictions.EncodeRestriction(e, gvl).Ok? <==>
              && 0 <= e.0.purposeId < 64 && 0 <= e.0.restrictionType < 4
              && PurposeRestrictions.WrittenCount(e.1, gvl) < 4096 && IdsFit(PurposeRestrictions.VendorEntries(e.1, gvl))
  {
    Pow2Widths();
    EntriesEncodeIff(PurposeRestrictions.VendorEntries(e.1, gvl), |PurposeRestrictions.VendorEntries(e.1, gvl)|);
    FirstAll(PurposeRestrictions.VendorEntries(e.1, gvl));
  }

  lemma FirstAll(entries: seq<RangeEntry>)
    ensures entries[..|entries|] == entries
  {
  }

  lemma {:induction false} EntriesEncodeIff(entries: seq<RangeEntry>, k: nat)
    requires k <= |entries|
    ensures EncodeFirst(EncodeEntry, entries, k).Ok? <==> IdsFit(entries[..k])
  {
    if k > 0 {
      EntriesEncodeIff(entries, k - 1);
      OneEncodesIff(entries[k - 1]);
      IdsFitNext(entries, k);
    }
  }

  lemma IdsFitNext(entries: seq<RangeEntry>, k: nat)
    requires 0 < k <= |entries|
    ensures IdsFit(entries[..k]) <==> IdsFit(entries[..k - 1]) && IdFits(entries[k - 1])
  {
    assert entries[..k] == entries[..k - 1] + [entries[k - 1]];
    assert entries[k - 1] in entries[..k];
  }

  lemma OneEncodesIff(e: RangeEntry)
    ensures EncodeEntry(e).Ok? <==> IdFits(e)
  {
    Pow2Widths();
  }

  /** The disclosed-vendors segment starts with type 1 in 3 bits. */
  lemma SegmentFront(ids: set<int>, maxId: nat)
    requires ConsentSegment.EncodeSegment(ids, maxId).Ok?
    ensures ConsentSegment.EncodeSegment(ids, maxId) == ConsentSegment.EncodeText([false, false, true] + Encode(ids, maxId).value)
  {
    Pow2Widths();
    OneInThree();
  }

  lemma OneInThree()
    ensures EncodeInt(1, 3) == Ok([false, false, true])
  {
    Pow2Widths();
    var bits := EncodeInt(1, 3).value;
    BitOfInt(1, 3, 0);
    BitOfInt(1, 3, 1);
    BitOfInt(1, 3, 2);
    assert Pow2(0) == 1 && Pow2(1) == 2;
    assert bits == [bits[0], bits[1], bits[2]];
  }

  // ----- what the decoders refuse

  /** A vendor entry for id 0 raises; a reversed range adds nothing. */
  lemma OddVendorEntries(first: int, last: int, suffix: Bits)
    requires 1 <= last < first < 65536
    ensures EncodeEntry(Single(0)).Ok? && DecodeEntry(EncodeEntry(Single(0)).value + suffix, 0) == Err(ModelError)
    ensures EncodeEntry(Range(first, last)).Ok?
    ensures DecodeEntry(EncodeEntry(Range(first, last)).value + suffix, 0) == Ok(({}, 33))
  {
    OneEncodesIff(Single(0));
    OneEncodesIff(Range(first, last));
    ZeroRaises(EncodeInt(0, 16).value, suffix);
    var code := EncodeEntry(Range(first, last)).value;
    var bits := code + suffix;
    assert bits[0..|code|] == code;
    EntryRoundTrip(Range(first, last), bits);
    assert Holds(bits, 0, code);
    EntryFormat(Range(first, last));
    assert EntryIds(Range(first, last)) == {};
  }

  lemma ZeroRaises(zero: Bits, suffix: Bits)
    requires EncodeInt(0, 16) == Ok(zero)
    ensures DecodeEntry([false] + zero + suffix, 0) == Err(ModelError)
  {
    hide Pow2;
    var bits := [false] + zero + suffix;
    assert bits[1..17] == zero;
    IntAtHolds(bits, 1, VENDOR_ID_BITS, 0);
  }

  /** In a restriction a reversed range raises, and so does any id under a key that cannot be hashed. */
  lemma OddRestrictionEntries(key: PurposeRestrictions.Restriction, entry: RangeEntry, suffix: Bits)
    requires IdFits(entry)
    ensures EncodeEntry(entry).Ok?
    ensures entry.Range? && entry.last < entry.first ==>
              PurposeRestrictions.VendorEntryAt(key, EncodeEntry(entry).value + suffix, 0) == Err(DecodingError)
    ensures !(entry.Range? && entry.last < entry.first) && !(key.purposeId > 0 && 0 <= key.restrictionType <= 2) ==>
              PurposeRestrictions.VendorEntryAt(key, EncodeEntry(entry).value + suffix, 0) == Err(ModelError)
  {
    OneEncodesIff(entry);
    match entry
    case Single(id) =>
      SingleFields(id, EncodeInt(id, 16).value, suffix);
    case Range(first, last) =>
      RangeFields(first, last, EncodeInt(first, 16).value, EncodeInt(last, 16).value, suffix);
  }

  lemma SingleFields(id: int, a: Bits, suffix: Bits)
    requires EncodeInt(id, 16) == Ok(a)
    ensures var bits := [false] + a + suffix; !BoolAt(bits, 0) && IntAt(bits, 1, 16) == Ok(id)
  {
    hide Pow2;
    var bits := [false] + a + suffix;
    assert bits[1..17] == a;
    IntAtHolds(bits, 1, 16, id);
  }

  lemma RangeFields(first: int, last: int, a: Bits, b: Bits, suffix: Bits)
    requires EncodeInt(first, 16) == Ok(a) && EncodeInt(last, 16) == Ok(b)
    ensures var bits := [true] + a + b + suffix;
            BoolAt(bits, 0) && IntAt(bits, 1, 16) == Ok(first) && IntAt(bits, 17, 16) == Ok(last)
  {
    hide Pow2;
    var bits := [true] + a + b + suffix;
    assert bits[1..17] == a && bits[17..33] == b;
    IntAtHolds(bits, 1, 16, first);
    IntAtHolds(bits, 17, 16, last);
  }
}
