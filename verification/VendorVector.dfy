/**
 The vendor vector encoder: one pass over the ids that emits a bitfield and, as long as a running
 size estimate stays below the bitfield's size, collects range entries; the form is chosen at the end.
 */
module VendorVector {
  import opened BitString
  import opened ConsentVector
  import opened ListCodec

  datatype RangeEntry = Single(id: int) | Range(first: int, last: int)

  function EntryIds(entry: RangeEntry): set<int> {
    match entry
    case Single(id) => {id}
    case Range(first, last) => Interval(first, last)
  }

  // ----- what the one-pass encoder computes, stated without the pass

  /** Bits before the vendor part: the 16-bit maximum and the form bit. */
  const HEADER: nat := 17
  /** Vectors with a maximum of at most this many ids always use the bitfield. */
  const RANGE_MIN: nat := 45

  /** The first id of the run of consecutive ids that ends at `k`. */
  function RunStart(ids: set<int>, k: nat): (start: nat)
    ensures start <= k
  {
    if k > 0 && k - 1 in ids then RunStart(ids, k - 1) else k
  }

  /** The maximal runs of consecutive ids that end at or before `k`, in increasing order. */
  function Runs(ids: set<int>, k: nat): seq<RangeEntry> {
    if k == 0 then []
    else if k in ids && k + 1 !in ids then Runs(ids, k - 1) + [RunEndingAt(ids, k)]
    else Runs(ids, k - 1)
  }

  function RunEndingAt(ids: set<int>, k: nat): RangeEntry {
    if RunStart(ids, k) == k then Single(k) else Range(RunStart(ids, k), k)
  }

  /** What the encoder believes the range form takes, once ids 1..k have been written. */
  function Estimate(ids: set<int>, k: nat): nat {
    if k == 0 then HEADER + 12
    else Estimate(ids, k - 1) + EstimateStep(ids, k)
  }

  /** An isolated id is counted as 16 bits (one bit less than it takes), a run as 33. */
  function EstimateStep(ids: set<int>, k: nat): nat
    requires k > 0
  {
    if k !in ids then 0
    else if k + 1 !in ids then 16
    else if k - 1 in ids then 0
    else 17
  }

  /** The form the encoder ends up with. */
  predicate UsesRanges(ids: set<int>, maxId: nat) {
    maxId > RANGE_MIN && Estimate(ids, maxId - 1) < HEADER + maxId
  }

  function EncodeEntry(entry: RangeEntry): Result<Bits> {
    match entry
    case Single(id) =>
      var a :- EncodeInt(id, VENDOR_ID_BITS);
      Ok([false] + a)
    case Range(first, last) =>
      var a :- EncodeInt(first, VENDOR_ID_BITS);
      var b :- EncodeInt(last, VENDOR_ID_BITS);
      Ok([true] + a + b)
  }

  function EncodeRanges(entries: seq<RangeEntry>): Result<Bits> {
    var count :- EncodeInt(|entries|, NUM_ENTRIES_BITS);
    var body :- EncodeList(EncodeEntry, entries);
    Ok(count + body)
  }

  function Encode(ids: set<int>, maxId: nat): Result<Bits> {
    var head :- EncodeInt(maxId, MAX_ID_BITS);
    if UsesRanges(ids, maxId) then
      var ranges :- EncodeRanges(Runs(ids, maxId));
      Ok(head + [true] + ranges)
    else
      Ok(head + [false] + Bitfield(ids, maxId))
  }

  // ----- the encoder as written

  /** VendorVectorEncoder.buildRangeEncoding. */
  method BuildRangeEncoding(entries: seq<RangeEntry>) returns (r: Result<Bits>)
    ensures r == EncodeRanges(entries)
  {
    var count :- EncodeInt(|entries|, NUM_ENTRIES_BITS);
    var body: Bits := [];
    for k := 0 to |entries|
      invariant EncodeFirst(EncodeEntry, entries, k) == Ok(body)
    {
      var entry := EncodeEntry(entries[k]);
      if entry.Err? {
        EncodeFirstError(EncodeEntry, entries, k + 1, |entries|);
        return Err(entry.error);
      }
      body := body + entry.value;
    }
    r := Ok(count + body);
  }

  lemma {:induction false} EstimateMonotone(ids: set<int>, j: nat, k: nat)
    requires j <= k
    ensures Estimate(ids, j) <= Estimate(ids, k)
    decreases k
  {
    if j < k {
      EstimateMonotone(ids, j, k - 1);
    }
  }

  /** The run that is open after id `k`: its start, while it still goes on. */
  function Pending(ids: set<int>, k: nat): seq<int> {
    if k in ids && k + 1 in ids then [RunStart(ids, k)] else []
  }

  /** VendorVectorEncoder.encode: the adaptive loop computes the specification above. */
  method EncodeVector(v: Vector) returns (r: Result<Bits>)
    requires v.Valid()
    ensures r == Encode(v.ids, v.maxId)
  {
    hide Pow2;
    var ids, maxId := v.ids, v.maxId;
    var out :- EncodeInt(maxId, MAX_ID_BITS);
    var ranges: seq<RangeEntry>, pending: seq<int> := [], [];
    var field: Bits := [];
    var useRanges := false;
    var fieldSize := HEADER + maxId;
    var size := HEADER + 12;
    var k := 1;
    while k <= maxId
      invariant 1 <= k <= maxId + 1
      invariant field == Bitfield(ids, k - 1)
      invariant useRanges <==> k > 1 && maxId > RANGE_MIN && Estimate(ids, k - 2) < fieldSize
      invariant maxId > RANGE_MIN ==> (size < fieldSize <==> Estimate(ids, k - 1) < fieldSize)
      invariant maxId > RANGE_MIN && (size < fieldSize || useRanges) ==>
                  size == Estimate(ids, k - 1) && ranges == Runs(ids, k - 1) && pending == Pending(ids, k - 1)
    {
      field := field + [k in ids];
      useRanges := maxId > RANGE_MIN && size < fieldSize;
      EstimateMonotone(ids, k - 1, k);
      if useRanges && k in ids {
        if k + 1 in ids {
          if |pending| == 0 {
            pending := [k];
            size := size + 1 + 16;
          }
        } else {
          ranges := ranges + [if |pending| == 0 then Single(k) else Range(pending[0], k)];
          size := size + 16;
          pending := [];
        }
      }
      k := k + 1;
    }
    if useRanges {
      var body :- BuildRangeEncoding(ranges);
      r := Ok(out + [true] + body);
    } else {
      r := Ok(out + [false] + field);
    }
  }

  // ----- decoding

  /** One range entry at `pos`: the ids it adds and the position after it. Id 0 cannot be set. */
  function DecodeEntry(bits: Bits, pos: nat): Result<(set<int>, nat)> {
    var first :- IntAt(bits, pos + 1, VENDOR_ID_BITS);
    if BoolAt(bits, pos) then
      var last :- IntAt(bits, pos + 17, VENDOR_ID_BITS);
      if first == 0 then Err(ModelError) else Ok((Interval(first, last), pos + 33))
    else
      if first == 0 then Err(ModelError) else Ok(({first as int}, pos + 17))
  }

  ghost function Union(sets: seq<set<int>>): set<int> {
    if sets == [] then {} else Union(sets[..|sets| - 1]) + sets[|sets| - 1]
  }

  /** The first `n` range entries from `pos` on: the ids they cover, and the position after them. */
  ghost function DecodeEntries(bits: Bits, pos: nat, n: nat): Result<(set<int>, nat)> {
    var entries :- ReadList(DecodeEntry, bits, pos, n);
    Ok((Union(entries.0), entries.1))
  }

  /** The vendor ids and the number of bits consumed; version 1 has a default-consent bit that must be off. */
  ghost function Decode(bits: Bits, version: int): Result<(set<int>, nat)> {
    var maxId :- IntAt(bits, 0, MAX_ID_BITS);
    var form :- IntAt(bits, 16, 1);
    if form == 1 then
      if version == 1 && BoolAt(bits, HEADER) then Err(DecodingError)
      else
        var pos := if version == 1 then HEADER + 1 else HEADER;
        var n :- IntAt(bits, pos, NUM_ENTRIES_BITS);
        DecodeEntries(bits, pos + 12, n)
    else
      var field := Substr(bits, HEADER, maxId);
      if |field| != maxId then Err(DecodingError) else Ok((IdsOf(field), HEADER + maxId))
  }

  /** The body of the entry loop of VendorVectorEncoder.decode. */
  method DecodeEntryInto(v: Vector, bits: Bits, pos: nat) returns (r: Result<nat>)
    requires v.Valid()
    modifies v
    ensures v.Valid()
    ensures r.Ok? ==> DecodeEntry(bits, pos).Ok? && DecodeEntry(bits, pos).value.1 == r.value
                      && v.ids == old(v.ids) + DecodeEntry(bits, pos).value.0
    ensures r.Err? ==> DecodeEntry(bits, pos) == Err(r.error)
  {
    var isRange := BoolAt(bits, pos);
    var first :- IntAt(bits, pos + 1, VENDOR_ID_BITS);
    if isRange {
      var last :- IntAt(bits, pos + 17, VENDOR_ID_BITS);
      var _ :- v.SetRange(first, last);
      return Ok(pos + 33);
    }
    var _ :- v.Set(first);
    return Ok(pos + 17);
  }

  /** The entry loop of VendorVectorEncoder.decode. */
  method DecodeRanges(bits: Bits, pos: nat, n: nat) returns (r: Result<Vector>, end: nat)
    ensures r.Ok? ==> fresh(r.value) && r.value.Valid() && DecodeEntries(bits, pos, n) == Ok((r.value.ids, end))
    ensures r.Err? ==> DecodeEntries(bits, pos, n) == Err(r.error)
  {
    var v := new Vector();
    end := pos;
    ghost var read := [];
    for k := 0 to n
      invariant fresh(v) && v.Valid()
      invariant ReadList(DecodeEntry, bits, pos, k) == Ok((read, end)) && v.ids == Union(read)
    {
      ghost var entry := DecodeEntry(bits, end);
      var next := DecodeEntryInto(v, bits, end);
      if next.Err? {
        ReadListError(DecodeEntry, bits, pos, k + 1, n);
        return Err(next.error), end;
      }
      read := read + [entry.value.0];
      assert read[..|read| - 1] + [entry.value.0] == read;
      end := next.value;
    }
    r := Ok(v);
  }

  /** VendorVectorEncoder.decode: the vector read, with the consumed length in its `bitLength`. */
  method DecodeVector(bits: Bits, version: int) returns (r: Result<Vector>)
    ensures r.Ok? ==> fresh(r.value) && r.value.Valid() && Decode(bits, version) == Ok((r.value.ids, r.value.bitLength))
    ensures r.Err? ==> Decode(bits, version) == Err(r.error)
  {
    var maxId :- IntAt(bits, 0, MAX_ID_BITS);
    var pos := 16;
    var form :- IntAt(bits, pos, 1);
    pos := pos + 1;
    if form == 1 {
      if version == 1 {
        if BoolAt(bits, pos) {
          return Err(DecodingError);
        }
        pos := pos + 1;
      }
      var n :- IntAt(bits, pos, NUM_ENTRIES_BITS);
      pos := pos + 12;
      r, pos := DecodeRanges(bits, pos, n);
    } else {
      var field := Substr(bits, pos, maxId);
      pos := pos + maxId;
      r := DecodeBitfield(field, maxId);
    }
    if r.Ok? {
      r.value.bitLength := pos;
    }
  }

  // ----- the round trip

  /** A run consists of ids only, and the id before it is missing. */
  lemma {:induction false} RunIsFilled(ids: set<int>, k: nat)
    requires k in ids && 0 !in ids
    ensures RunStart(ids, k) >= 1 && RunStart(ids, k) - 1 !in ids
    ensures forall id :: Within(id, RunStart(ids, k), k) ==> id in ids
  {
    if k - 1 in ids {
      RunIsFilled(ids, k - 1);
    }
  }

  ghost function UnionOf(entries: seq<RangeEntry>): set<int> {
    Union(Map(EntryIds, entries))
  }

  lemma UnionOfNext(entries: seq<RangeEntry>, entry: RangeEntry)
    ensures UnionOf(entries + [entry]) == UnionOf(entries) + EntryIds(entry)
  {
    var all := Map(EntryIds, entries + [entry]);
    assert all[..|all| - 1] == Map(EntryIds, entries);
  }

  /** The runs up to `k` and the open run cover exactly the ids up to `k`. */
  lemma {:induction false} RunsCover(ids: set<int>, k: nat)
    requires forall id :: id in ids ==> id >= 1
    ensures UnionOf(Runs(ids, k)) + (if k in ids && k + 1 in ids then Interval(RunStart(ids, k), k) else {})
         == set id | id in ids && id <= k
  {
    if k > 0 {
      RunsCover(ids, k - 1);
      if k in ids {
        RunIsFilled(ids, k);
        if k + 1 !in ids {
          UnionOfNext(Runs(ids, k - 1), RunEndingAt(ids, k));
          assert EntryIds(RunEndingAt(ids, k)) == Interval(RunStart(ids, k), k);
        }
      }
      var here := if k in ids then Interval(RunStart(ids, k), k) else {};
      var before := set id | id in ids && id <= k - 1;
      assert (set id | id in ids && id <= k) == before + here;
      if k - 1 in ids && k in ids {
        assert Interval(RunStart(ids, k - 1), k - 1) + here == here;
      }
    }
  }

  lemma RunsCoverAll(ids: set<int>, maxId: nat)
    requires IsMaxOf(maxId, ids)
    ensures UnionOf(Runs(ids, maxId)) == ids
  {
    RunsCover(ids, maxId);
    assert ids == set id | id in ids && id <= maxId;
  }

  predicate EntryFits(entry: RangeEntry) {
    match entry
    case Single(id) => 1 <= id < 65536
    case Range(first, last) => 1 <= first < 65536 && 0 <= last < 65536
  }

  lemma EntryEncodes(entry: RangeEntry)
    requires EntryFits(entry)
    ensures EncodeEntry(entry).Ok?
  {
    Pow2Widths();
  }

  lemma EntryRoundTrip(entry: RangeEntry, bits: Bits)
    requires EntryFits(entry)
    ensures Inverts(EncodeEntry, DecodeEntry, EntryIds, entry, bits)
  {
    EntryEncodes(entry);
    var code := EncodeEntry(entry).value;
    forall pos: nat | Holds(bits, pos, code)
      ensures DecodeEntry(bits, pos) == Ok((EntryIds(entry), pos + |code|))
    {
      match entry
      case Single(id) =>
        HoldsSplit(bits, pos, [false], EncodeInt(id, VENDOR_ID_BITS).value);
        BoolAtHolds(bits, pos, false);
        IntAtHolds(bits, pos + 1, VENDOR_ID_BITS, id);
      case Range(first, last) =>
        var a, b := EncodeInt(first, VENDOR_ID_BITS).value, EncodeInt(last, VENDOR_ID_BITS).value;
        HoldsSplit(bits, pos, [true] + a, b);
        HoldsSplit(bits, pos, [true], a);
        BoolAtHolds(bits, pos, true);
        IntAtHolds(bits, pos + 1, VENDOR_ID_BITS, first);
        IntAtHolds(bits, pos + 17, VENDOR_ID_BITS, last);
    }
  }

  lemma EntriesEncode(entries: seq<RangeEntry>)
    requires forall e :: e in entries ==> EntryFits(e)
    ensures EncodeList(EncodeEntry, entries).Ok?
  {
    forall e | e in entries ensures EncodeEntry(e).Ok? {
      EntryEncodes(e);
    }
    EncodeFirstOk(EncodeEntry, entries, |entries|);
  }

  lemma EntriesRoundTrip(entries: seq<RangeEntry>, bits: Bits, pos: nat)
    requires forall e :: e in entries ==> EntryFits(e)
    requires EncodeList(EncodeEntry, entries).Ok? && Holds(bits, pos, EncodeList(EncodeEntry, entries).value)
    ensures DecodeEntries(bits, pos, |entries|) ==
              Ok((UnionOf(entries), pos + |EncodeList(EncodeEntry, entries).value|))
  {
    forall e | e in entries ensures Inverts(EncodeEntry, DecodeEntry, EntryIds, e, bits) {
      EntryRoundTrip(e, bits);
    }
    WholeListRoundTrip(EncodeEntry, DecodeEntry, EntryIds, entries, EncodeList(EncodeEntry, entries).value, bits, pos);
  }

  lemma {:induction false} RunsFit(ids: set<int>, maxId: nat, k: nat)
    requires IsMaxOf(maxId, ids) && k <= maxId < 65536
    ensures forall e :: e in Runs(ids, k) ==> EntryFits(e)
  {
    if k > 0 {
      RunsFit(ids, maxId, k - 1);
      if k in ids {
        RunIsFilled(ids, k);
      }
    }
  }

  /**
   Whatever encodes is decoded back: for every vector and every bits that follow it, version 2 decoding
   returns exactly the ids and consumes exactly the encoded bits.
   */
  lemma RoundTrip(ids: set<int>, maxId: nat, suffix: Bits)
    requires IsMaxOf(maxId, ids) && Encode(ids, maxId).Ok?
    ensures Decode(Encode(ids, maxId).value + suffix, 2) == Ok((ids, |Encode(ids, maxId).value|))
  {
    Pow2Widths();
    var code := Encode(ids, maxId).value;
    var bits := code + suffix;
    var head := EncodeInt(maxId, MAX_ID_BITS).value;
    assert bits[0..|code|] == code;
    if UsesRanges(ids, maxId) {
      RoundTripRanges(ids, maxId, bits);
    } else {
      var field := Bitfield(ids, maxId);
      HoldsSplit(bits, 0, head + [false], field);
      HoldsSplit(bits, 0, head, [false]);
      IntAtHolds(bits, 0, MAX_ID_BITS, maxId);
      FormBit(bits, false);
      assert Substr(bits, HEADER, maxId) == field;
      BitfieldRoundTrip(ids, maxId, maxId);
    }
  }

  lemma FormBit(bits: Bits, form: bool)
    requires Holds(bits, 16, [form])
    ensures IntAt(bits, 16, 1) == Ok(Bit(form))
  {
    BoolAtHolds(bits, 16, form);
    assert Value(bits, 16, 1) == 2 * Value(bits, 16, 0) + Bit(bits[16]);
  }

  lemma DecodeRangeForm(bits: Bits, maxId: nat, n: nat)
    requires IntAt(bits, 0, MAX_ID_BITS) == Ok(maxId) && IntAt(bits, 16, 1) == Ok(1)
    requires IntAt(bits, HEADER, NUM_ENTRIES_BITS) == Ok(n)
    ensures Decode(bits, 2) == DecodeEntries(bits, HEADER + 12, n)
  {
  }

  lemma RangeFormCode(ids: set<int>, maxId: nat)
    requires UsesRanges(ids, maxId) && Encode(ids, maxId).Ok?
    ensures EncodeInt(maxId, MAX_ID_BITS).Ok? && EncodeInt(|Runs(ids, maxId)|, NUM_ENTRIES_BITS).Ok?
    ensures EncodeList(EncodeEntry, Runs(ids, maxId)).Ok?
    ensures Encode(ids, maxId).value ==
              EncodeInt(maxId, MAX_ID_BITS).value + [true] +
              (EncodeInt(|Runs(ids, maxId)|, NUM_ENTRIES_BITS).value + EncodeList(EncodeEntry, Runs(ids, maxId)).value)
  {
  }

  lemma ReadRangeForm(bits: Bits, maxId: nat, entries: seq<RangeEntry>, head: Bits, count: Bits, body: Bits)
    requires EncodeInt(maxId, MAX_ID_BITS) == Ok(head) && EncodeInt(|entries|, NUM_ENTRIES_BITS) == Ok(count)
    requires EncodeList(EncodeEntry, entries) == Ok(body) && forall e :: e in entries ==> EntryFits(e)
    requires Holds(bits, 0, head + [true] + (count + body))
    ensures Decode(bits, 2) == Ok((UnionOf(entries), |head + [true] + (count + body)|))
  {
    HoldsSplit(bits, 0, head + [true], count + body);
    HoldsSplit(bits, 0, head, [true]);
    HoldsSplit(bits, HEADER, count, body);
    IntAtHolds(bits, 0, MAX_ID_BITS, maxId);
    FormBit(bits, true);
    IntAtHolds(bits, HEADER, NUM_ENTRIES_BITS, |entries|);
    DecodeRangeForm(bits, maxId, |entries|);
    EntriesRoundTrip(entries, bits, HEADER + 12);
  }

  lemma RoundTripRanges(ids: set<int>, maxId: nat, bits: Bits)
    requires IsMaxOf(maxId, ids) && maxId < 65536 && UsesRanges(ids, maxId) && Encode(ids, maxId).Ok?
    requires Holds(bits, 0, Encode(ids, maxId).value)
    ensures Decode(bits, 2) == Ok((ids, |Encode(ids, maxId).value|))
  {
    RangeFormCode(ids, maxId);
    RunsFit(ids, maxId, maxId);
    var entries := Runs(ids, maxId);
    ReadRangeForm(bits, maxId, entries, EncodeInt(maxId, MAX_ID_BITS).value,
                  EncodeInt(|entries|, NUM_ENTRIES_BITS).value, EncodeList(EncodeEntry, entries).value);
    RunsCoverAll(ids, maxId);
  }

  /** Version 1 has one more bit in range form: off, it is skipped; on, decoding raises. The bitfield form is the same. */
  lemma VersionOne(ids: set<int>, maxId: nat, suffix: Bits, head: Bits, ranges: Bits)
    requires IsMaxOf(maxId, ids) && EncodeInt(maxId, 16) == Ok(head)
    ensures UsesRanges(ids, maxId) && EncodeRanges(Runs(ids, maxId)) == Ok(ranges) ==>
              && Decode(head + [true] + [false] + ranges + suffix, 1) == Ok((ids, 18 + |ranges|))
              && Decode(head + [true] + [true] + ranges + suffix, 1) == Err(DecodingError)
    ensures Decode(head + [false] + Bitfield(ids, maxId) + suffix, 1) == Ok((ids, 17 + maxId))
  {
    hide Pow2, Decode, Bitfield;
    Pow2Widths();
    FieldFormReads(ids, maxId, head, suffix, 1);
    if UsesRanges(ids, maxId) && EncodeRanges(Runs(ids, maxId)) == Ok(ranges) {
      var entries := Runs(ids, maxId);
      var count, body := EncodeInt(|entries|, NUM_ENTRIES_BITS).value, EncodeList(EncodeEntry, entries).value;
      RunsFit(ids, maxId, maxId);
      RunsCoverAll(ids, maxId);
      DefaultOff(maxId, entries, head, count, body, suffix);
      DefaultOn(maxId, head, ranges + suffix);
      assert head + [true] + [true] + ranges + suffix == head + [true] + [true] + (ranges + suffix);
    }
  }

  lemma FieldFormReads(ids: set<int>, maxId: nat, head: Bits, suffix: Bits, version: int)
    requires IsMaxOf(maxId, ids) && EncodeInt(maxId, MAX_ID_BITS) == Ok(head)
    ensures Decode(head + [false] + Bitfield(ids, maxId) + suffix, version) == Ok((ids, HEADER + maxId))
  {
    hide Pow2, Bitfield, DecodeEntries;
    var field := Bitfield(ids, maxId);
    var code := head + [false] + field;
    var bits := code + suffix;
    assert bits[0..|code|] == code;
    HoldsSplit(bits, 0, head + [false], field);
    HoldsSplit(bits, 0, head, [false]);
    IntAtHolds(bits, 0, MAX_ID_BITS, maxId);
    FormBit(bits, false);
    assert Substr(bits, HEADER, maxId) == field;
    BitfieldRoundTrip(ids, maxId, maxId);
  }

  lemma DefaultOff(maxId: nat, entries: seq<RangeEntry>, head: Bits, count: Bits, body: Bits, suffix: Bits)
    requires EncodeInt(maxId, MAX_ID_BITS) == Ok(head) && EncodeInt(|entries|, NUM_ENTRIES_BITS) == Ok(count)
    requires EncodeList(EncodeEntry, entries) == Ok(body) && forall e :: e in entries ==> EntryFits(e)
    ensures Decode(head + [true] + [false] + (count + body) + suffix, 1) == Ok((UnionOf(entries), 18 + |count + body|))
  {
    hide Pow2, UnionOf;
    var front := head + [true] + [false];
    var bits := front + (count + body) + suffix;
    assert bits[0..|front + (count + body)|] == front + (count + body);
    HoldsSplit(bits, 0, front, count + body);
    HoldsSplit(bits, 0, head + [true], [false]);
    HoldsSplit(bits, 0, head, [true]);
    HoldsSplit(bits, 18, count, body);
    IntAtHolds(bits, 0, MAX_ID_BITS, maxId);
    FormBit(bits, true);
    BoolAtHolds(bits, HEADER, false);
    IntAtHolds(bits, 18, NUM_ENTRIES_BITS, |entries|);
    EntriesRoundTrip(entries, bits, 30);
  }

  lemma DefaultOn(maxId: nat, head: Bits, rest: Bits)
    requires EncodeInt(maxId, MAX_ID_BITS) == Ok(head)
    ensures Decode(head + [true] + [true] + rest, 1) == Err(DecodingError)
  {
    hide Pow2;
    var front := head + [true] + [true];
    var bits := front + rest;
    assert bits[0..|front|] == front;
    HoldsSplit(bits, 0, head + [true], [true]);
    HoldsSplit(bits, 0, head, [true]);
    IntAtHolds(bits, 0, MAX_ID_BITS, maxId);
    FormBit(bits, true);
    BoolAtHolds(bits, HEADER, true);
  }

  // ----- when encoding succeeds

  ghost predicate Isolated(ids: set<int>) {
    forall id :: id in ids ==> id + 1 !in ids
  }

  /** The estimate is 16 bits per closed entry plus 17 per run of two or more. */
  lemma {:induction false} EstimateVersusRuns(ids: set<int>, k: nat)
    requires 0 !in ids
    ensures Estimate(ids, k) >= 29 + 16 * |Runs(ids, k)|
    ensures Isolated(ids) ==> Estimate(ids, k) == 29 + 16 * |Runs(ids, k)|
    ensures (exists id :: 1 <= id <= k && id in ids && id + 1 in ids) ==> Estimate(ids, k) >= 46 + 16 * |Runs(ids, k)|
  {
    if k > 0 {
      EstimateVersusRuns(ids, k - 1);
    }
  }

  /** With isolated ids there is one entry per id. */
  lemma {:induction false} RunsCountIsolated(ids: set<int>, k: nat)
    requires Isolated(ids) && forall id :: id in ids ==> id >= 1
    ensures |Runs(ids, k)| == |set id | id in ids && id <= k|
  {
    var upTo := set id | id in ids && id <= k;
    if k == 0 {
      assert upTo == {};
    } else {
      RunsCountIsolated(ids, k - 1);
      UpToNext(ids, k);
    }
  }

  lemma UpToNext(ids: set<int>, k: nat)
    requires k > 0
    ensures |set id | id in ids && id <= k| == |set id | id in ids && id <= k - 1| + if k in ids then 1 else 0
  {
    var upTo, before := set id | id in ids && id <= k, set id | id in ids && id <= k - 1;
    assert upTo == if k in ids then before + {k as int} else before;
  }

  /**
   Encoding fails exactly when the maximum does not fit 16 bits, or when the range form is picked for 4096
   isolated ids, one more than the 12-bit count can hold, which takes a maximum of at least 65533.
   */
  lemma EncodeFailsIff(ids: set<int>, maxId: nat)
    requires IsMaxOf(maxId, ids)
    ensures Encode(ids, maxId).Err? <==> maxId > 65535 || (maxId >= 65533 && |ids| == 4096 && Isolated(ids))
  {
    Pow2Widths();
    if maxId <= 65535 {
      var n := |Runs(ids, maxId)|;
      assert ids == set id | id in ids && id <= maxId;
      if Isolated(ids) {
        RunsCountIsolated(ids, maxId);
      }
      if maxId > 0 {
        EstimateVersusRuns(ids, maxId - 1);
        assert n == |Runs(ids, maxId - 1)| + 1;
      }
      RunsFit(ids, maxId, maxId);
      EntriesEncode(Runs(ids, maxId));
      if UsesRanges(ids, maxId) && n >= 4096 {
        assert Isolated(ids) by {
          forall id | id in ids ensures id + 1 !in ids {
            if id + 1 in ids {
              assert false;
            }
          }
        }
      }
    }
  }

  /** Below that, picking the range form never raises. */
  lemma SmallVectorsEncode(ids: set<int>, maxId: nat)
    requires IsMaxOf(maxId, ids) && maxId <= 65532
    ensures Encode(ids, maxId).Ok?
    ensures UsesRanges(ids, maxId) ==> |Runs(ids, maxId)| <= 4095
  {
    Pow2Widths();
    EncodeFailsIff(ids, maxId);
  }

  predicate TightId(id: int) {
    id % 16 == 13
  }

  function TightIds(k: nat): set<int> {
    set id | 1 <= id <= k && TightId(id)
  }

  lemma {:induction false} TightIdsSize(n: nat)
    ensures |TightIds(16 * n)| == n
  {
    if n == 0 {
      assert TightIds(0) == {};
    } else {
      TightIdsSize(n - 1);
      var top := 16 * n - 3;
      TightIdsNext(n, top);
    }
  }

  lemma TightIdsNext(n: nat, top: int)
    requires n > 0 && top == 16 * n - 3
    ensures TightIds(16 * n) == TightIds(16 * (n - 1)) + {top} && top !in TightIds(16 * (n - 1))
  {
    forall id | 16 * (n - 1) < id <= 16 * n ensures TightId(id) <==> id == top {
    }
  }

  /** The bound is tight: every 16th id up to 65533 picks the range form and cannot be encoded. */
  lemma BoundIsTight() returns (ids: set<int>, maxId: nat)
    ensures maxId == 65533 && IsMaxOf(maxId, ids) && |ids| == 4096
    ensures UsesRanges(ids, maxId) && Encode(ids, maxId).Err?
  {
    var n := 4096;
    maxId := 16 * n - 3;
    ids := TightIds(16 * n);
    TightFails(n, ids, maxId);
  }

  lemma TightFails(n: nat, ids: set<int>, maxId: nat)
    requires n == 4096 && maxId == 16 * n - 3 && ids == TightIds(16 * n)
    ensures IsMaxOf(maxId, ids) && |ids| == n && Encode(ids, maxId).Err? && UsesRanges(ids, maxId)
  {
    TightIdsSize(n);
    TightIdsIsolated(n, ids, maxId);
    EncodeFailsIff(ids, maxId);
    FailureMeansRanges(ids, maxId);
  }

  lemma TightIdsIsolated(n: nat, ids: set<int>, maxId: nat)
    requires n > 0 && maxId == 16 * n - 3 && ids == TightIds(16 * n)
    ensures IsMaxOf(maxId, ids) && Isolated(ids)
  {
    assert TightId(maxId);
    forall id | id in ids ensures id <= maxId && id + 1 !in ids {
      assert TightId(id);
    }
  }

  /** The bitfield form fits whenever the maximum does. */
  lemma FailureMeansRanges(ids: set<int>, maxId: nat)
    requires maxId <= 65535 && Encode(ids, maxId).Err?
    ensures UsesRanges(ids, maxId)
  {
    Pow2Widths();
  }
}
