/**
 Publisher restrictions: an insertion-ordered map from (purpose, restriction type) to vendor ids, written as range
 entries that may run over ids missing from the global vendor list (GVL).
 */
module PurposeRestrictions {
  import opened BitString
  import opened ConsentVector
  import opened ListCodec
  import opened VendorVector

  datatype Restriction = Restriction(purposeId: int, restrictionType: int) {
    /** Only these can be hashed into a map key. */
    predicate Valid() {
      purposeId > 0 && 0 <= restrictionType <= 2
    }
  }

  /** A `Map` in insertion order. */
  type RestrictionMap = seq<(Restriction, set<int>)>

  predicate DistinctKeys(m: RestrictionMap) {
    forall i, j :: 0 <= i < j < |m| ==> m[i].0 != m[j].0
  }

  function Keys(m: RestrictionMap): seq<Restriction> {
    Map((e: (Restriction, set<int>)) => e.0, m)
  }

  /** The map after adding some ids under a key; a key appears with its first id. */
  function Merge(m: RestrictionMap, key: Restriction, ids: set<int>): RestrictionMap {
    if ids == {} then m
    else if m == [] then [(key, ids)]
    else if m[0].0 == key then [(key, m[0].1 + ids)] + m[1..]
    else [m[0]] + Merge(m[1..], key, ids)
  }

  lemma {:induction false} MergeMerge(m: RestrictionMap, key: Restriction, x: set<int>, y: set<int>)
    ensures Merge(Merge(m, key, x), key, y) == Merge(m, key, x + y)
  {
    if x == {} {
      assert x + y == y;
    } else if y == {} {
      assert x + y == x;
    } else if m != [] && m[0].0 != key {
      MergeMerge(m[1..], key, x, y);
      assert Merge(m, key, x)[1..] == Merge(m[1..], key, x);
    } else if m != [] {
      assert m[0].1 + x + y == m[0].1 + (x + y);
      assert Merge(m, key, x)[1..] == m[1..];
    } else {
      assert Merge(m, key, x)[1..] == [];
    }
  }

  /** A new key goes to the end. */
  lemma {:induction false} MergeNewKey(m: RestrictionMap, key: Restriction, ids: set<int>)
    requires ids != {} && forall e :: e in m ==> e.0 != key
    ensures Merge(m, key, ids) == m + [(key, ids)]
  {
    if m != [] {
      MergeNewKey(m[1..], key, ids);
      assert m == [m[0]] + m[1..];
    }
  }

  // ----- encoding

  lemma {:induction false} SetHasMinimum(s: set<int>, one: int)
    requires one in s
    ensures exists least :: least in s && forall x :: x in s ==> least <= x
    decreases |s|
  {
    var rest := s - {one};
    if other :| other in rest {
      SetHasMinimum(rest, other);
      var m :| m in rest && forall x :: x in rest ==> m <= x;
      var least := if m < one then m else one;
      forall x | x in s ensures least <= x {
        assert x == one || x in rest;
      }
    } else {
      assert forall x :: x in s ==> x == one || x in rest;
    }
  }

  function Least(s: set<int>): (least: int)
    requires s != {}
    ensures least in s && forall x :: x in s ==> least <= x
  {
    HasMember(s);
    ghost var one :| one in s;
    SetHasMinimum(s, one);
    var x :| x in s && forall y :: y in s ==> x <= y;
    x
  }

  /** The vendors of a restriction in increasing order. */
  function Sorted(s: set<int>): seq<int>
    decreases |s|
  {
    if s == {} then [] else [Least(s)] + Sorted(s - {Least(s)})
  }

  predicate Increasing(r: seq<int>) {
    forall i, j :: 0 <= i < j < |r| ==> r[i] < r[j]
  }

  lemma {:induction false} SortedSpec(s: set<int>)
    ensures forall x :: x in Sorted(s) <==> x in s
    ensures Increasing(Sorted(s))
    decreases |s|
  {
    if s != {} {
      var least := Least(s);
      var others := s - {least};
      SortedSpec(others);
      LeastFirst(s, least, others, Sorted(others));
    }
  }

  lemma LeastFirst(s: set<int>, least: int, others: set<int>, rest: seq<int>)
    requires least in s && others == s - {least} && forall x :: x in s ==> least <= x
    requires Increasing(rest) && forall x :: x in rest <==> x in others
    ensures Increasing([least] + rest) && forall x :: x in [least] + rest <==> x in s
  {
    forall k | 0 <= k < |rest| ensures least < rest[k] {
      assert rest[k] in rest && rest[k] in others;
    }
  }

  /** The first listed id after `id` that is at most `last`, or `id` itself when there is none. */
  function NextListed(gvl: set<int>, id: int, last: int): int {
    FirstListed(gvl, id, id + 1, last)
  }

  function FirstListed(gvl: set<int>, id: int, from: int, last: int): int
    decreases last - from
  {
    if from > last then id
    else if from in gvl then from
    else FirstListed(gvl, id, from + 1, last)
  }

  /** The range entry that holds vendor number `p` ends there. */
  predicate Closes(r: seq<int>, gvl: set<int>, p: nat)
    requires p < |r|
  {
    p == |r| - 1 || r[p + 1] > NextListed(gvl, r[p], r[|r| - 1])
  }

  /**
   The vendor with which the entry that holds vendor number `p` starts. The encoder marks "no open entry" by a start of
   0, so an entry that starts with vendor 0 is started anew at the next vendor.
   */
  function GapStart(r: seq<int>, gvl: set<int>, p: nat): (i: nat)
    requires p < |r|
    ensures i <= p
  {
    if p > 0 && !Closes(r, gvl, p - 1) && r[GapStart(r, gvl, p - 1)] != 0 then GapStart(r, gvl, p - 1) else p
  }

  /** How many entries have been started among the first `k` vendors; this is the count that is written. */
  function Openings(r: seq<int>, gvl: set<int>, k: nat): nat
    requires k <= |r|
  {
    if k == 0 then 0 else Openings(r, gvl, k - 1) + if GapStart(r, gvl, k - 1) == k - 1 then 1 else 0
  }

  function GapEntry(r: seq<int>, gvl: set<int>, p: nat): RangeEntry
    requires p < |r|
  {
    var first := r[GapStart(r, gvl, p)];
    if first == r[p] then Single(first) else Range(first, r[p])
  }

  /** The entries that end among the first `k` vendors. */
  function GapEntries(r: seq<int>, gvl: set<int>, k: nat): seq<RangeEntry>
    requires k <= |r|
  {
    if k == 0 then []
    else if Closes(r, gvl, k - 1) then GapEntries(r, gvl, k - 1) + [GapEntry(r, gvl, k - 1)]
    else GapEntries(r, gvl, k - 1)
  }

  function VendorEntries(vendors: set<int>, gvl: set<int>): seq<RangeEntry> {
    var r := Sorted(vendors);
    GapEntries(r, gvl, |r|)
  }

  /** The number written before the entries. */
  function WrittenCount(vendors: set<int>, gvl: set<int>): nat {
    var r := Sorted(vendors);
    Openings(r, gvl, |r|)
  }

  function EncodeCounted(n: nat, entries: seq<RangeEntry>): Result<Bits> {
    var count :- EncodeInt(n, NUM_ENTRIES_BITS);
    var body :- EncodeList(EncodeEntry, entries);
    Ok(count + body)
  }

  function EncodeRestriction(e: (Restriction, set<int>), gvl: set<int>): Result<Bits> {
    var purpose :- EncodeInt(e.0.purposeId, PURPOSE_ID_BITS);
    var kind :- EncodeInt(e.0.restrictionType, RESTRICTION_TYPE_BITS);
    var entries :- EncodeCounted(WrittenCount(e.1, gvl), VendorEntries(e.1, gvl));
    Ok(purpose + kind + entries)
  }

  function RestrictionEncoder(gvl: set<int>): ((Restriction, set<int>)) -> Result<Bits> {
    e => EncodeRestriction(e, gvl)
  }

  function Encode(m: RestrictionMap, gvl: set<int>): Result<Bits> {
    var count :- EncodeInt(|m|, NUM_RESTRICTIONS_BITS);
    var body :- EncodeList(RestrictionEncoder(gvl), m);
    Ok(count + body)
  }

  /** What the encoder holds as start after `p` vendors: the first vendor of the open entry, or 0. */
  function OpenStart(r: seq<int>, gvl: set<int>, p: nat): int
    requires p <= |r|
  {
    if p == 0 || Closes(r, gvl, p - 1) then 0 else r[GapStart(r, gvl, p - 1)]
  }

  lemma OpenStartNext(r: seq<int>, gvl: set<int>, p: nat)
    requires p < |r|
    ensures r[GapStart(r, gvl, p)] == if OpenStart(r, gvl, p) == 0 then r[p] else OpenStart(r, gvl, p)
    ensures GapStart(r, gvl, p) == p <==> OpenStart(r, gvl, p) == 0
    ensures OpenStart(r, gvl, p + 1) == if Closes(r, gvl, p) then 0 else r[GapStart(r, gvl, p)]
  {
  }

  /** The vendor loop of PurposeRestrictionVectorEncoder.encode: entries are opened, extended over gaps and closed. */
  method EncodeVendors(vendors: set<int>, gvl: set<int>) returns (r: Result<Bits>)
    ensures r == EncodeCounted(WrittenCount(vendors, gvl), VendorEntries(vendors, gvl))
  {
    hide Pow2, FirstListed;
    var ids := Sorted(vendors);
    SortedSpec(vendors);
    var n, count, start := |ids|, 0, 0;
    var bits: Bits := [];
    for p := 0 to n
      invariant start == OpenStart(ids, gvl, p)
      invariant count == Openings(ids, gvl, p)
      invariant EncodeList(EncodeEntry, GapEntries(ids, gvl, p)) == Ok(bits)
    {
      OpenStartNext(ids, gvl, p);
      var id := ids[p];
      if start == 0 {
        count := count + 1;
        start := id;
      }
      var closes := p == n - 1 || ids[p + 1] > NextListed(gvl, id, ids[n - 1]);
      assert closes == Closes(ids, gvl, p) && start == ids[GapStart(ids, gvl, p)];
      if closes {
        var code := EncodeEntry(if id != start then Range(start, id) else Single(start));
        CloseEntry(ids, gvl, p, bits, code);
        if code.Err? {
          return Err(EncodingError);
        }
        bits := bits + code.value;
        start := 0;
      }
    }
    r := PutCount(count, bits, GapEntries(ids, gvl, n));
  }

  method PutCount(count: nat, bits: Bits, ghost entries: seq<RangeEntry>) returns (r: Result<Bits>)
    requires EncodeList(EncodeEntry, entries) == Ok(bits)
    ensures r == EncodeCounted(count, entries)
  {
    var head :- EncodeInt(count, NUM_ENTRIES_BITS);
    r := Ok(head + bits);
  }

  /** Closing an entry appends its code, or makes the whole encoding fail. */
  lemma CloseEntry(r: seq<int>, gvl: set<int>, p: nat, bits: Bits, code: Result<Bits>)
    requires p < |r| && Closes(r, gvl, p) && code == EncodeEntry(GapEntry(r, gvl, p))
    requires EncodeList(EncodeEntry, GapEntries(r, gvl, p)) == Ok(bits)
    ensures code.Ok? ==> EncodeList(EncodeEntry, GapEntries(r, gvl, p + 1)) == Ok(bits + code.value)
    ensures code.Err? ==> forall n :: EncodeCounted(n, GapEntries(r, gvl, |r|)) == Err(EncodingError)
  {
    hide Pow2;
    var before, after := GapEntries(r, gvl, p), GapEntries(r, gvl, p + 1);
    assert after == before + [GapEntry(r, gvl, p)];
    EncodeFirstLocal(EncodeEntry, before, after, |before|);
    if code.Err? {
      EntriesError(r, gvl, p + 1, |r|);
    }
  }

  lemma {:induction false} GapEntriesPrefix(r: seq<int>, gvl: set<int>, k: nat, n: nat)
    requires k <= n <= |r|
    ensures GapEntries(r, gvl, k) <= GapEntries(r, gvl, n)
  {
    if k < n {
      GapEntriesPrefix(r, gvl, k, n - 1);
    }
  }

  lemma EntriesError(r: seq<int>, gvl: set<int>, k: nat, n: nat)
    requires k <= n == |r| && EncodeList(EncodeEntry, GapEntries(r, gvl, k)).Err?
    ensures forall count :: EncodeCounted(count, GapEntries(r, gvl, n)) == Err(EncodingError)
  {
    GapEntriesPrefix(r, gvl, k, n);
    var short, long := GapEntries(r, gvl, k), GapEntries(r, gvl, n);
    EncodeFirstLocal(EncodeEntry, short, long, |short|);
    EncodeFirstError(EncodeEntry, long, |short|, |long|);
    OnlyEncodingErrors(short, |short|);
  }

  lemma {:induction false} OnlyEncodingErrors(entries: seq<RangeEntry>, k: nat)
    requires k <= |entries|
    ensures EncodeFirst(EncodeEntry, entries, k).Err? ==>
              EncodeFirst(EncodeEntry, entries, k) == Err(EncodingError)
  {
    if k > 0 {
      OnlyEncodingErrors(entries, k - 1);
    }
  }

  /** Appending one restriction's code, or failing as a whole when it fails. */
  lemma EncodeNext(m: RestrictionMap, gvl: set<int>, k: nat, one: Result<Bits>, soFar: Bits)
    requires k < |m| && one == EncodeRestriction(m[k], gvl)
    requires EncodeFirst(RestrictionEncoder(gvl), m, k) == Ok(soFar)
    ensures one.Ok? ==> EncodeFirst(RestrictionEncoder(gvl), m, k + 1) == Ok(soFar + one.value)
    ensures one.Err? ==> EncodeList(RestrictionEncoder(gvl), m) == Err(one.error)
  {
    var enc := RestrictionEncoder(gvl);
    assert enc(m[k]) == one;
    if one.Err? {
      EncodeFirstError(enc, m, k + 1, |m|);
    }
  }

  /** PurposeRestrictionVectorEncoder.encode. */
  method EncodeVector(m: RestrictionMap, gvl: set<int>) returns (r: Result<Bits>)
    ensures r == Encode(m, gvl)
  {
    var count :- EncodeInt(|m|, NUM_RESTRICTIONS_BITS);
    var body :- EncodeEach(m, gvl);
    r := Ok(count + body);
  }

  /** The loop over the restrictions. */
  method EncodeEach(m: RestrictionMap, gvl: set<int>) returns (r: Result<Bits>)
    ensures r == EncodeList(RestrictionEncoder(gvl), m)
  {
    var body: Bits := [];
    for k := 0 to |m|
      invariant EncodeFirst(RestrictionEncoder(gvl), m, k) == Ok(body)
    {
      var one := EncodeOne(m[k], gvl);
      EncodeNext(m, gvl, k, one, body);
      if one.Err? {
        return Err(one.error);
      }
      body := body + one.value;
    }
    r := Ok(body);
  }

  method EncodeOne(e: (Restriction, set<int>), gvl: set<int>) returns (r: Result<Bits>)
    ensures r == EncodeRestriction(e, gvl)
  {
    var purpose :- EncodeInt(e.0.purposeId, PURPOSE_ID_BITS);
    var kind :- EncodeInt(e.0.restrictionType, RESTRICTION_TYPE_BITS);
    var entries :- EncodeVendors(e.1, gvl);
    return Ok(purpose + kind + entries);
  }

  // ----- decoding

  /** One range entry of a restriction; the key must be valid once there is an id to add. */
  function VendorEntryAt(key: Restriction, bits: Bits, pos: nat): Result<(set<int>, nat)> {
    var first :- IntAt(bits, pos + 1, VENDOR_ID_BITS);
    if BoolAt(bits, pos) then
      var last :- IntAt(bits, pos + 17, VENDOR_ID_BITS);
      if last < first then Err(DecodingError)
      else if !key.Valid() then Err(ModelError)
      else Ok((Interval(first, last), pos + 33))
    else
      if !key.Valid() then Err(ModelError) else Ok(({first as int}, pos + 17))
  }

  function VendorEntryReader(key: Restriction): (Bits, nat) -> Result<(set<int>, nat)> {
    (bits, pos) => VendorEntryAt(key, bits, pos)
  }

  ghost function RestrictionAt(bits: Bits, pos: nat): Result<((Restriction, set<int>), nat)> {
    var purpose :- IntAt(bits, pos, PURPOSE_ID_BITS);
    var kind :- IntAt(bits, pos + 6, RESTRICTION_TYPE_BITS);
    var n :- IntAt(bits, pos + 8, NUM_ENTRIES_BITS);
    VendorsAt(Restriction(purpose, kind), bits, pos + 20, n)
  }

  /** The vendors of `n` entries, under their key. */
  ghost function VendorsAt(key: Restriction, bits: Bits, pos: nat, n: nat): Result<((Restriction, set<int>), nat)> {
    var entries :- ReadList(VendorEntryReader(key), bits, pos, n);
    Ok(((key, Union(entries.0)), entries.1))
  }

  ghost function MergeAll(rs: seq<(Restriction, set<int>)>): RestrictionMap {
    if rs == [] then [] else Merge(MergeAll(rs[..|rs| - 1]), rs[|rs| - 1].0, rs[|rs| - 1].1)
  }

  /** The restriction map and the number of bits consumed. */
  ghost function Decode(bits: Bits): Result<(RestrictionMap, nat)> {
    var n :- IntAt(bits, 0, NUM_RESTRICTIONS_BITS);
    var rs :- ReadList(RestrictionAt, bits, 12, n);
    Ok((MergeAll(rs.0), rs.1))
  }

  /** The class `PurposeRestrictionVector` while no GVL is attached to it, as in decoding. */
  class PurposeRestrictionVector {
    var bitLength: nat
    var entries: RestrictionMap

    constructor ()
      ensures entries == [] && bitLength == 0
    {
      bitLength, entries := 0, [];
    }

    /** Adds one vendor; an invalid restriction cannot be hashed and raises. */
    method Add(id: int, key: Restriction) returns (r: Result<()>)
      modifies this
      ensures r == if key.Valid() then Ok(()) else Err(ModelError)
      ensures entries == if key.Valid() then Merge(old(entries), key, {id}) else old(entries)
    {
      if !key.Valid() {
        return Err(ModelError);
      }
      var k := 0;
      while k < |entries| && entries[k].0 != key
        invariant 0 <= k <= |entries| && entries == old(entries)
        invariant Merge(entries, key, {id}) == entries[..k] + Merge(entries[k..], key, {id})
      {
        assert entries[k..][1..] == entries[k + 1..];
        k := k + 1;
      }
      if k == |entries| {
        bitLength := 0;
        entries := entries + [(key, {id})];
      } else {
        assert entries[k..][1..] == entries[k + 1..];
        entries := entries[..k] + [(key, entries[k].1 + {id})] + entries[k + 1..];
      }
      return Ok(());
    }

    method ReadEntry(key: Restriction, bits: Bits, pos: nat) returns (r: Result<nat>)
      modifies this
      ensures r.Ok? ==> VendorEntryAt(key, bits, pos).Ok? && VendorEntryAt(key, bits, pos).value.1 == r.value
                        && entries == Merge(old(entries), key, VendorEntryAt(key, bits, pos).value.0)
      ensures r.Err? ==> VendorEntryAt(key, bits, pos) == Err(r.error)
    {
      var first :- IntAt(bits, pos + 1, VENDOR_ID_BITS);
      if !BoolAt(bits, pos) {
        var _ :- Add(first, key);
        return Ok(pos + 17);
      }
      var last :- IntAt(bits, pos + 17, VENDOR_ID_BITS);
      if last < first {
        return Err(DecodingError);
      }
      var id: int := first;
      while id <= last
        invariant first <= id <= last + 1 && (id == first || key.Valid())
        invariant entries == Merge(old(entries), key, Interval(first, id - 1))
      {
        MergeMerge(old(entries), key, Interval(first, id - 1), {id});
        assert Interval(first, id - 1) + {id} == Interval(first, id);
        var _ :- Add(id, key);
        id := id + 1;
      }
      return Ok(pos + 33);
    }

    /** One restriction: its key and its entries, added to the map as they are read. */
    method ReadRestriction(bits: Bits, pos: nat) returns (r: Result<nat>)
      modifies this
      ensures r.Ok? ==> RestrictionAt(bits, pos).Ok? && RestrictionAt(bits, pos).value.1 == r.value
                        && var e := RestrictionAt(bits, pos).value.0; entries == Merge(old(entries), e.0, e.1)
      ensures r.Err? ==> RestrictionAt(bits, pos) == Err(r.error)
    {
      var purpose :- IntAt(bits, pos, PURPOSE_ID_BITS);
      var kind :- IntAt(bits, pos + 6, RESTRICTION_TYPE_BITS);
      var n :- IntAt(bits, pos + 8, NUM_ENTRIES_BITS);
      r := ReadEntries(Restriction(purpose, kind), bits, pos + 20, n);
    }

    method ReadEntries(key: Restriction, bits: Bits, pos: nat, n: nat) returns (r: Result<nat>)
      modifies this
      ensures var all := ReadList(VendorEntryReader(key), bits, pos, n);
              if r.Err? then all == Err(r.error)
              else all.Ok? && all.value.1 == r.value && entries == Merge(old(entries), key, Union(all.value.0))
    {
      var end := pos;
      ghost var read := [];
      ghost var reader := VendorEntryReader(key);
      for k := 0 to n
        invariant ReadList(reader, bits, pos, k) == Ok((read, end))
        invariant entries == Merge(old(entries), key, Union(read))
      {
        ghost var entry := reader(bits, end);
        ReadListNext(reader, bits, pos, k, n, read, end, entry);
        var next := ReadEntry(key, bits, end);
        if next.Err? {
          return Err(next.error);
        }
        MergeMerge(old(entries), key, Union(read), entry.value.0);
        UnionNext(read, entry.value.0);
        read := read + [entry.value.0];
        end := next.value;
      }
      r := Ok(end);
    }
  }

  lemma UnionNext(sets: seq<set<int>>, last: set<int>)
    ensures Union(sets + [last]) == Union(sets) + last
  {
    assert (sets + [last])[..|sets|] == sets;
  }

  /** PurposeRestrictionVectorEncoder.decode. */
  method DecodeVector(bits: Bits) returns (r: Result<PurposeRestrictionVector>)
    ensures r.Ok? ==> fresh(r.value) && Decode(bits) == Ok((r.value.entries, r.value.bitLength))
    ensures r.Err? ==> Decode(bits) == Err(r.error)
  {
    var n :- IntAt(bits, 0, NUM_RESTRICTIONS_BITS);
    var v := new PurposeRestrictionVector();
    var end := 12;
    ghost var read := [];
    for k := 0 to n
      invariant fresh(v)
      invariant ReadList(RestrictionAt, bits, 12, k) == Ok((read, end)) && v.entries == MergeAll(read)
    {
      ghost var one := RestrictionAt(bits, end);
      var next := v.ReadRestriction(bits, end);
      if next.Err? {
        ReadListError(RestrictionAt, bits, 12, k + 1, n);
        return Err(next.error);
      }
      read := read + [one.value.0];
      assert read[..|read| - 1] + [one.value.0] == read;
      end := next.value;
    }
    v.bitLength := end;
    r := Ok(v);
  }

  // ----- vendor 0

  /** Vendor number `p` is 0, starts an entry, and the entry goes on: the encoder starts anew and drops it. */
  predicate LostAt(r: seq<int>, gvl: set<int>, p: nat)
    requires p < |r|
  {
    r[p] == 0 && GapStart(r, gvl, p) == p && !Closes(r, gvl, p)
  }

  predicate LostBefore(r: seq<int>, gvl: set<int>, k: nat)
    requires k <= |r|
  {
    exists p :: 0 <= p < k - 1 && LostAt(r, gvl, p)
  }

  /** 0 is a vendor that starts an entry with more than one vendor. */
  predicate LosesZero(vendors: set<int>, gvl: set<int>) {
    var r := Sorted(vendors);
    LostBefore(r, gvl, |r|)
  }

  predicate Open(r: seq<int>, gvl: set<int>, k: nat)
    requires k <= |r|
  {
    k > 0 && !Closes(r, gvl, k - 1)
  }

  lemma LostBeforeNext(r: seq<int>, gvl: set<int>, k: nat)
    requires 0 < k < |r| && Increasing(r)
    ensures LostBefore(r, gvl, k + 1) <==> LostBefore(r, gvl, k) || LostAt(r, gvl, k - 1)
    ensures LostAt(r, gvl, k - 1) ==> !LostBefore(r, gvl, k)
    ensures LostAt(r, gvl, k - 1) <==> !Closes(r, gvl, k - 1) && GapStart(r, gvl, k) == k
  {
  }

  /** The written count is the number of entries, one too many when 0 is lost. */
  lemma {:induction false} OpeningsCount(r: seq<int>, gvl: set<int>, k: nat)
    requires k <= |r| && Increasing(r)
    ensures Openings(r, gvl, k)
         == |GapEntries(r, gvl, k)| + (if Open(r, gvl, k) then 1 else 0) + if LostBefore(r, gvl, k) then 1 else 0
  {
    if k > 0 {
      OpeningsCount(r, gvl, k - 1);
      if k > 1 {
        LostBeforeNext(r, gvl, k - 1);
      }
    }
  }

  lemma WrittenCountIs(vendors: set<int>, gvl: set<int>)
    ensures WrittenCount(vendors, gvl) == |VendorEntries(vendors, gvl)| + if LosesZero(vendors, gvl) then 1 else 0
  {
    var r := Sorted(vendors);
    SortedSpec(vendors);
    OpeningsCount(r, gvl, |r|);
  }

  lemma OnlyZeroIsLost(vendors: set<int>, gvl: set<int>)
    ensures LosesZero(vendors, gvl) ==> 0 in vendors && exists id :: id in vendors && id != 0
  {
    var r := Sorted(vendors);
    SortedSpec(vendors);
    if p :| 0 <= p < |r| - 1 && LostAt(r, gvl, p) {
      assert r[p] in r && r[p + 1] in r && r[p] < r[p + 1];
    }
  }

  // ----- the round trip

  /** The ids that decoding a restriction gives: the original ones and the gaps the ranges ran over. */
  ghost function Cover(vendors: set<int>, gvl: set<int>): set<int> {
    UnionOf(VendorEntries(vendors, gvl))
  }

  ghost function GapCover(r: seq<int>, gvl: set<int>, k: nat): set<int>
    requires k <= |r|
  {
    UnionOf(GapEntries(r, gvl, k)) +
    if k > 0 && !Closes(r, gvl, k - 1) then Interval(r[GapStart(r, gvl, k - 1)], r[k - 1]) else {}
  }

  lemma GapCoverNext(r: seq<int>, gvl: set<int>, k: nat)
    requires k < |r|
    ensures GapCover(r, gvl, k + 1) == UnionOf(GapEntries(r, gvl, k)) + Interval(r[GapStart(r, gvl, k)], r[k])
  {
    if Closes(r, gvl, k) {
      var entries, entry := GapEntries(r, gvl, k), GapEntry(r, gvl, k);
      UnionOfNext(entries, entry);
      assert EntryIds(entry) == Interval(r[GapStart(r, gvl, k)], r[k]);
      assert GapEntries(r, gvl, k + 1) == entries + [entry];
    }
  }

  lemma {:induction false} FirstListedIsFirst(gvl: set<int>, id: int, from: int, last: int, other: int)
    requires from <= other <= last && other in gvl
    ensures from <= FirstListed(gvl, id, from, last) <= other
    decreases last - from
  {
    if from !in gvl {
      FirstListedIsFirst(gvl, id, from + 1, last, other);
    }
  }

  /** Where an entry goes on, the GVL lists nothing in between. */
  lemma GapIsUnlisted(r: seq<int>, gvl: set<int>, p: nat)
    requires p < |r| && !Closes(r, gvl, p) && r[p + 1] <= r[|r| - 1]
    ensures forall id :: r[p] < id < r[p + 1] ==> id !in gvl
  {
    forall id | r[p] < id < r[p + 1] ensures id !in gvl {
      if id in gvl {
        FirstListedIsFirst(gvl, r[p], r[p] + 1, r[|r| - 1], id);
      }
    }
  }

  /** Every vendor is covered, and nothing else that the GVL lists. */
  lemma {:induction false} GapCoverSound(r: seq<int>, gvl: set<int>, k: nat)
    requires k <= |r| && Increasing(r)
    ensures forall i :: 0 <= i < k ==> r[i] in GapCover(r, gvl, k) || (r[i] == 0 && LostBefore(r, gvl, k))
    ensures forall id :: id in GapCover(r, gvl, k) ==> id in r || id !in gvl
  {
    if k > 0 {
      var p := k - 1;
      GapCoverSound(r, gvl, p);
      GapCoverGrows(r, gvl, p);
      GapCoverListed(r, gvl, p);
      if p > 0 {
        LostBeforeNext(r, gvl, p);
      }
    }
  }

  /** What is new in the cover lies in the gap before the next vendor. */
  lemma GapCoverListed(r: seq<int>, gvl: set<int>, p: nat)
    requires p < |r| && Increasing(r)
    ensures forall id :: id in GapCover(r, gvl, p + 1) ==> id in GapCover(r, gvl, p) || id == r[p] || id !in gvl
  {
    GapCoverNext(r, gvl, p);
    if p > 0 && !Closes(r, gvl, p - 1) {
      GapIsUnlisted(r, gvl, p - 1);
      GapSplit(r[GapStart(r, gvl, p)], r[p - 1], r[p]);
    }
  }

  lemma GapCoverGrows(r: seq<int>, gvl: set<int>, p: nat)
    requires p < |r| && Increasing(r)
    ensures r[p] in GapCover(r, gvl, p + 1)
    ensures forall id :: id in GapCover(r, gvl, p) ==> id in GapCover(r, gvl, p + 1) || (id == 0 && p > 0 && LostAt(r, gvl, p - 1))
  {
    GapCoverNext(r, gvl, p);
    if p > 0 && !Closes(r, gvl, p - 1) {
      GapSplit(r[GapStart(r, gvl, p)], r[p - 1], r[p]);
    }
  }

  lemma GapSplit(first: int, mid: int, last: int)
    ensures forall id :: id in Interval(first, last) ==> id in Interval(first, mid) || mid < id < last || id == last
    ensures mid <= last ==> Interval(first, mid) <= Interval(first, last)
  {
  }

  lemma CoverSound(vendors: set<int>, gvl: set<int>)
    ensures forall id :: id in vendors ==> id in Cover(vendors, gvl) || (id == 0 && LosesZero(vendors, gvl))
    ensures (Cover(vendors, gvl) - vendors) !! gvl
    ensures Cover(vendors, gvl) == {} <==> vendors == {}
  {
    OnlyZeroIsLost(vendors, gvl);
    CoverHolds(vendors, gvl);
    if id :| id in vendors {
      if one :| one in vendors && one != 0 {
        assert one in Cover(vendors, gvl);
      }
    }
  }

  lemma CoverHolds(vendors: set<int>, gvl: set<int>)
    ensures forall id :: id in vendors ==> id in Cover(vendors, gvl) || (id == 0 && LosesZero(vendors, gvl))
    ensures (Cover(vendors, gvl) - vendors) !! gvl
    ensures vendors == {} ==> Cover(vendors, gvl) == {}
  {
    var r := Sorted(vendors);
    SortedSpec(vendors);
    GapCoverSound(r, gvl, |r|);
    assert GapCover(r, gvl, |r|) == Cover(vendors, gvl);
    forall id | id in vendors ensures id in Cover(vendors, gvl) || (id == 0 && LosesZero(vendors, gvl)) {
      assert id in r;
    }
    forall id | id in Cover(vendors, gvl) && id in gvl ensures id in vendors {
      assert id in r;
    }
  }

  ghost function DecodedBy(gvl: set<int>): ((Restriction, set<int>)) -> (Restriction, set<int>) {
    (e: (Restriction, set<int>)) => (e.0, Cover(e.1, gvl))
  }

  lemma VendorEntryRoundTrip(key: Restriction, entry: RangeEntry, bits: Bits)
    requires key.Valid() && (entry.Range? ==> entry.first <= entry.last)
    ensures Inverts(EncodeEntry, VendorEntryReader(key), EntryIds, entry, bits)
  {
    var code := EncodeEntry(entry);
    if code.Ok? {
      forall pos: nat | Holds(bits, pos, code.value)
        ensures VendorEntryAt(key, bits, pos) == Ok((EntryIds(entry), pos + |code.value|))
      {
        VendorEntryReadBack(key, entry, code.value, bits, pos);
      }
    }
    InvertsBy(EncodeEntry, VendorEntryReader(key), EntryIds, entry, bits, code, EntryIds(entry));
  }

  lemma VendorEntryReadBack(key: Restriction, entry: RangeEntry, code: Bits, bits: Bits, pos: nat)
    requires key.Valid() && (entry.Range? ==> entry.first <= entry.last)
    requires EncodeEntry(entry) == Ok(code) && Holds(bits, pos, code)
    ensures VendorEntryAt(key, bits, pos) == Ok((EntryIds(entry), pos + |code|))
  {
    match entry
    case Single(id) =>
      HoldsSplit(bits, pos, [false], EncodeInt(id, VENDOR_ID_BITS).value);
      BoolAtHolds(bits, pos, false);
      IntAtHolds(bits, pos + 1, VENDOR_ID_BITS, id);
    case Range(first, last) =>
      var a, b := EncodeInt(first, VENDOR_ID_BITS).value, EncodeInt(last, VENDOR_ID_BITS).value;
      HoldsSplit(bits, pos, [true] + a, b);
      HoldsSplit(bits, pos, [true], a);
      BoolAtHolds(bits, pos, true);
      IntAtHolds(bits, pos + 1, VENDOR_ID_BITS, first);
      IntAtHolds(bits, pos + 17, VENDOR_ID_BITS, last);
  }

  lemma {:induction false} GapEntriesOrdered(r: seq<int>, gvl: set<int>, k: nat)
    requires k <= |r| && Increasing(r)
    ensures forall e :: e in GapEntries(r, gvl, k) && e.Range? ==> e.first <= e.last
  {
    if k > 0 {
      GapEntriesOrdered(r, gvl, k - 1);
    }
  }

  lemma VendorEntriesOrdered(vendors: set<int>, gvl: set<int>)
    ensures forall e :: e in VendorEntries(vendors, gvl) && e.Range? ==> e.first <= e.last
  {
    SortedSpec(vendors);
    GapEntriesOrdered(Sorted(vendors), gvl, |Sorted(vendors)|);
  }

  /** The code of a restriction, field by field. */
  lemma RestrictionCode(e: (Restriction, set<int>), gvl: set<int>, code: Bits)
      returns (purpose: Bits, kind: Bits, count: Bits, body: Bits)
    requires EncodeRestriction(e, gvl) == Ok(code)
    ensures EncodeInt(e.0.purposeId, PURPOSE_ID_BITS) == Ok(purpose)
    ensures EncodeInt(e.0.restrictionType, RESTRICTION_TYPE_BITS) == Ok(kind)
    ensures EncodeInt(WrittenCount(e.1, gvl), NUM_ENTRIES_BITS) == Ok(count)
    ensures EncodeList(EncodeEntry, VendorEntries(e.1, gvl)) == Ok(body)
    ensures code == purpose + kind + (count + body) && |code| == 20 + |body|
  {
    var entries := VendorEntries(e.1, gvl);
    purpose := EncodeInt(e.0.purposeId, PURPOSE_ID_BITS).value;
    kind := EncodeInt(e.0.restrictionType, RESTRICTION_TYPE_BITS).value;
    count := EncodeInt(WrittenCount(e.1, gvl), NUM_ENTRIES_BITS).value;
    body := EncodeList(EncodeEntry, entries).value;
  }

  lemma RestrictionRoundTrip(e: (Restriction, set<int>), gvl: set<int>, bits: Bits)
    requires e.0.Valid() && !LosesZero(e.1, gvl)
    ensures Inverts(RestrictionEncoder(gvl), RestrictionAt, DecodedBy(gvl), e, bits)
  {
    hide Pow2, RestrictionAt, LosesZero, WrittenCount, VendorEntries;
    var code, entries := EncodeRestriction(e, gvl), VendorEntries(e.1, gvl);
    if code.Ok? {
      var purpose, kind, count, body := RestrictionCode(e, gvl, code.value);
      VendorEntriesOrdered(e.1, gvl);
      WrittenCountIs(e.1, gvl);
      ReadBack(e.0, entries, purpose, kind, count, body, bits, code.value);
    }
    InvertsBy(RestrictionEncoder(gvl), RestrictionAt, DecodedBy(gvl), e, bits, code, (e.0, UnionOf(entries)));
  }

  lemma ReadBack(key: Restriction, entries: seq<RangeEntry>,
                 purpose: Bits, kind: Bits, count: Bits, body: Bits, bits: Bits, code: Bits)
    requires key.Valid() && forall e :: e in entries && e.Range? ==> e.first <= e.last
    requires EncodeInt(key.purposeId, PURPOSE_ID_BITS) == Ok(purpose)
    requires EncodeInt(key.restrictionType, RESTRICTION_TYPE_BITS) == Ok(kind)
    requires EncodeInt(|entries|, NUM_ENTRIES_BITS) == Ok(count)
    requires EncodeList(EncodeEntry, entries) == Ok(body)
    requires code == purpose + kind + (count + body) && |code| == 20 + |body|
    ensures forall pos: nat :: Holds(bits, pos, code) ==>
              RestrictionAt(bits, pos) == Ok(((key, UnionOf(entries)), pos + |code|))
  {
    hide Pow2, EncodeInt, RestrictionAt;
    forall pos: nat | Holds(bits, pos, code)
      ensures RestrictionAt(bits, pos) == Ok(((key, UnionOf(entries)), pos + |code|))
    {
      ReadOne(key, entries, purpose, kind, count, body, bits, pos);
    }
  }

  lemma ReadOne(key: Restriction, entries: seq<RangeEntry>,
                purpose: Bits, kind: Bits, count: Bits, body: Bits, bits: Bits, pos: nat)
    requires key.Valid() && forall e :: e in entries && e.Range? ==> e.first <= e.last
    requires EncodeInt(key.purposeId, PURPOSE_ID_BITS) == Ok(purpose)
    requires EncodeInt(key.restrictionType, RESTRICTION_TYPE_BITS) == Ok(kind)
    requires EncodeInt(|entries|, NUM_ENTRIES_BITS) == Ok(count)
    requires EncodeList(EncodeEntry, entries) == Ok(body)
    requires Holds(bits, pos, purpose + kind + (count + body))
    ensures RestrictionAt(bits, pos) == Ok(((key, UnionOf(entries)), pos + 20 + |body|))
  {
    hide Pow2, EncodeInt, VendorsAt, IntAt, Holds;
    ReadHeader(key, |entries|, purpose, kind, count, body, bits, pos);
    ReadBody(key, entries, body, bits, pos + 20);
  }

  lemma ReadVendorEntries(key: Restriction, entries: seq<RangeEntry>, body: Bits, bits: Bits, pos: nat)
    requires key.Valid() && forall e :: e in entries && e.Range? ==> e.first <= e.last
    requires EncodeList(EncodeEntry, entries) == Ok(body) && Holds(bits, pos, body)
    ensures ReadList(VendorEntryReader(key), bits, pos, |entries|) == Ok((Map(EntryIds, entries), pos + |body|))
  {
    var reader := VendorEntryReader(key);
    forall e | e in entries ensures Inverts(EncodeEntry, reader, EntryIds, e, bits) {
      VendorEntryRoundTrip(key, e, bits);
    }
    WholeListRoundTrip(EncodeEntry, reader, EntryIds, entries, body, bits, pos);
  }

  lemma ReadBody(key: Restriction, entries: seq<RangeEntry>, body: Bits, bits: Bits, pos: nat)
    requires key.Valid() && forall e :: e in entries && e.Range? ==> e.first <= e.last
    requires EncodeList(EncodeEntry, entries) == Ok(body) && Holds(bits, pos, body)
    ensures VendorsAt(key, bits, pos, |entries|) == Ok(((key, UnionOf(entries)), pos + |body|))
  {
    ReadVendorEntries(key, entries, body, bits, pos);
  }

  lemma ReadHeader(key: Restriction, n: nat,
                   purpose: Bits, kind: Bits, count: Bits, body: Bits, bits: Bits, pos: nat)
    requires EncodeInt(key.purposeId, PURPOSE_ID_BITS) == Ok(purpose)
    requires EncodeInt(key.restrictionType, RESTRICTION_TYPE_BITS) == Ok(kind)
    requires EncodeInt(n, NUM_ENTRIES_BITS) == Ok(count)
    requires Holds(bits, pos, purpose + kind + (count + body))
    ensures IntAt(bits, pos, PURPOSE_ID_BITS) == Ok(key.purposeId)
    ensures IntAt(bits, pos + 6, RESTRICTION_TYPE_BITS) == Ok(key.restrictionType)
    ensures IntAt(bits, pos + 8, NUM_ENTRIES_BITS) == Ok(n)
    ensures Holds(bits, pos + 20, body)
  {
    assert |purpose| == 6 && |kind| == 2 && |count| == 12;
    HoldsSplit(bits, pos, purpose + kind, count + body);
    HoldsSplit(bits, pos, purpose, kind);
    HoldsSplit(bits, pos + 8, count, body);
    IntAtHolds(bits, pos, PURPOSE_ID_BITS, key.purposeId);
    IntAtHolds(bits, pos + 6, RESTRICTION_TYPE_BITS, key.restrictionType);
    IntAtHolds(bits, pos + 8, NUM_ENTRIES_BITS, n);
  }

  /** The entries with a non-empty vendor set, in order. */
  ghost function NonEmpty(m: RestrictionMap): RestrictionMap {
    if m == [] then []
    else NonEmpty(m[..|m| - 1]) + if m[|m| - 1].1 == {} then [] else [m[|m| - 1]]
  }

  lemma {:induction false} NonEmptyMembers(m: RestrictionMap)
    ensures forall e :: e in NonEmpty(m) <==> e in m && e.1 != {}
  {
    if m != [] {
      NonEmptyMembers(m[..|m| - 1]);
      assert m == m[..|m| - 1] + [m[|m| - 1]];
    }
  }

  lemma {:induction false} MergeAllDistinct(m: RestrictionMap)
    requires DistinctKeys(m)
    ensures MergeAll(m) == NonEmpty(m)
  {
    if m != [] {
      var n := |m| - 1;
      MergeAllDistinct(m[..n]);
      NonEmptyMembers(m[..n]);
      if m[n].1 != {} {
        MergeNewKey(NonEmpty(m[..n]), m[n].0, m[n].1);
      }
    }
  }

  /** What decoding makes of a map: every vendor set grown over unlisted gaps, empty ones dropped with their key. */
  ghost function Survivors(m: RestrictionMap, gvl: set<int>): RestrictionMap {
    NonEmpty(Map(DecodedBy(gvl), m))
  }

  /**
   Decoding what was encoded, followed by any bits, gives the surviving entries and consumes exactly the code, if no
   restriction loses vendor 0.
   */
  lemma RoundTrip(m: RestrictionMap, gvl: set<int>, suffix: Bits)
    requires DistinctKeys(m) && (forall e :: e in m ==> e.0.Valid() && !LosesZero(e.1, gvl)) && Encode(m, gvl).Ok?
    ensures Decode(Encode(m, gvl).value + suffix) == Ok((Survivors(m, gvl), |Encode(m, gvl).value|))
  {
    var enc := RestrictionEncoder(gvl);
    var count, body := EncodeInt(|m|, NUM_RESTRICTIONS_BITS).value, EncodeList(enc, m).value;
    var bits := Encode(m, gvl).value + suffix;
    assert bits[0..|count + body|] == count + body;
    HoldsSplit(bits, 0, count, body);
    IntAtHolds(bits, 0, NUM_RESTRICTIONS_BITS, |m|);
    forall e | e in m ensures Inverts(enc, RestrictionAt, DecodedBy(gvl), e, bits) {
      RestrictionRoundTrip(e, gvl, bits);
    }
    ListRoundTrip(enc, RestrictionAt, DecodedBy(gvl), m, bits, 12, |m|);
    var all := Map(DecodedBy(gvl), m);
    assert all[..|m|] == all;
    MergeAllDistinct(Map(DecodedBy(gvl), m));
  }

  lemma {:induction false} NonEmptyAll(m: RestrictionMap)
    ensures |NonEmpty(m)| <= |m|
    ensures |NonEmpty(m)| == |m| <==> forall e :: e in m ==> e.1 != {}
    ensures |NonEmpty(m)| == |m| ==> NonEmpty(m) == m
  {
    if m != [] {
      NonEmptyAll(m[..|m| - 1]);
      assert m == m[..|m| - 1] + [m[|m| - 1]];
    }
  }

  lemma {:induction false} NonEmptyKeysIff(m: RestrictionMap, all: RestrictionMap)
    requires |all| == |m|
    requires forall i :: 0 <= i < |m| ==> all[i].0 == m[i].0 && (all[i].1 == {} <==> m[i].1 == {})
    ensures Keys(NonEmpty(all)) == Keys(m) <==> forall i :: 0 <= i < |m| ==> m[i].1 != {}
  {
    NonEmptyAll(all);
    if |NonEmpty(all)| == |all| {
      assert Keys(all) == Keys(m);
      forall i | 0 <= i < |m| ensures m[i].1 != {} {
        assert all[i] in all;
      }
    } else {
      assert |Keys(NonEmpty(all))| != |Keys(m)|;
    }
  }

  /** The keys come back unchanged exactly when no vendor set is empty. */
  lemma {:induction false} KeysKeptIff(m: RestrictionMap, gvl: set<int>)
    ensures Keys(Survivors(m, gvl)) == Keys(m) <==> forall i :: 0 <= i < |m| ==> m[i].1 != {}
  {
    var all := Map(DecodedBy(gvl), m);
    forall i | 0 <= i < |m| ensures all[i].0 == m[i].0 && (all[i].1 == {} <==> m[i].1 == {}) {
      CoverSound(m[i].1, gvl);
    }
    NonEmptyKeysIff(m, all);
  }

  /**
   The vendors come back up to the GVL: each decoded set contains the original one, adds no id that the GVL lists,
   and so agrees with it on the GVL.
   */
  lemma VendorsKept(m: RestrictionMap, gvl: set<int>, suffix: Bits)
    requires DistinctKeys(m) && (forall e :: e in m ==> e.0.Valid() && e.1 != {} && !LosesZero(e.1, gvl))
    requires Encode(m, gvl).Ok?
    ensures var decoded := Decode(Encode(m, gvl).value + suffix);
            && decoded.Ok? && decoded.value.1 == |Encode(m, gvl).value| && |decoded.value.0| == |m|
            && forall i :: 0 <= i < |m| ==>
                 && decoded.value.0[i].0 == m[i].0
                 && m[i].1 <= decoded.value.0[i].1
                 && (decoded.value.0[i].1 - m[i].1) !! gvl
                 && (m[i].1 <= gvl ==> decoded.value.0[i].1 * gvl == m[i].1)
  {
    RoundTrip(m, gvl, suffix);
    var all := Map(DecodedBy(gvl), m);
    NonEmptyAll(all);
    forall i | 0 <= i < |m|
      ensures all[i].1 != {} && m[i].1 <= all[i].1 && (all[i].1 - m[i].1) !! gvl
      ensures m[i].1 <= gvl ==> all[i].1 * gvl == m[i].1
    {
      CoverSound(m[i].1, gvl);
      assert m[i] in m;
    }
  }

  // ----- where the promises fail

  lemma EmptySets(gvl: set<int>)
    ensures Sorted({}) == [] && VendorEntries({}, gvl) == [] && WrittenCount({}, gvl) == 0 && !LosesZero({}, gvl)
  {
  }

  /** A restriction without vendors encodes, and decoding gives nothing back: its key is lost. */
  lemma EmptyRestrictionIsDropped(gvl: set<int>, suffix: Bits) returns (m: RestrictionMap)
    ensures |m| == 1 && m[0].0.Valid() && m[0].1 == {} && Encode(m, gvl).Ok?
    ensures Decode(Encode(m, gvl).value + suffix) == Ok(([], |Encode(m, gvl).value|))
  {
    var e := (Restriction(1, 0), {});
    m := [e];
    EmptySets(gvl);
    Pow2Widths();
    OneEncodes(m, gvl);
    RoundTrip(m, gvl, suffix);
    KeysKeptIff(m, gvl);
    CoverSound(e.1, gvl);
    OneSurvivor(m, gvl);
  }

  lemma OneEncodes(m: RestrictionMap, gvl: set<int>)
    requires |m| == 1 && EncodeInt(1, NUM_RESTRICTIONS_BITS).Ok? && EncodeRestriction(m[0], gvl).Ok?
    ensures Encode(m, gvl).Ok?
  {
    var enc := RestrictionEncoder(gvl);
    assert enc(m[0]).Ok?;
    EncodeFirstOk(enc, m, |m|);
  }

  lemma OneSurvivor(m: RestrictionMap, gvl: set<int>)
    requires |m| == 1
    ensures Survivors(m, gvl) == if Cover(m[0].1, gvl) == {} then [] else [(m[0].0, Cover(m[0].1, gvl))]
  {
    var all := Map(DecodedBy(gvl), m);
    var one := (m[0].0, Cover(m[0].1, gvl));
    assert all == [one] && all[..|all| - 1] == [];
    assert NonEmpty(all) == NonEmpty(all[..|all| - 1]) + if one.1 == {} then [] else [one];
  }

  /** A list that is read one entry too far ends at least 17 bits later. */
  lemma ReadsPast(key: Restriction, entries: seq<RangeEntry>, body: Bits, bits: Bits, pos: nat)
    requires key.Valid() && forall e :: e in entries && e.Range? ==> e.first <= e.last
    requires EncodeList(EncodeEntry, entries) == Ok(body) && Holds(bits, pos, body)
    ensures var r := VendorsAt(key, bits, pos, |entries| + 1); r.Ok? ==> r.value.1 >= pos + |body| + 17
  {
    var reader, end, n := VendorEntryReader(key), pos + |body|, |entries|;
    ReadVendorEntries(key, entries, body, bits, pos);
    ReadListNext(reader, bits, pos, n, n + 1, Map(EntryIds, entries), end, reader(bits, end));
    EntryTakesBits(key, bits, end);
  }

  lemma EntryTakesBits(key: Restriction, bits: Bits, pos: nat)
    ensures VendorEntryAt(key, bits, pos).Ok? ==> VendorEntryAt(key, bits, pos).value.1 >= pos + 17
  {
  }

  /** A restriction that loses vendor 0 is read past its end, wherever it stands. */
  lemma LostIsReadPast(e: (Restriction, set<int>), gvl: set<int>, code: Bits, bits: Bits, pos: nat)
    requires e.0.Valid() && LosesZero(e.1, gvl) && EncodeRestriction(e, gvl) == Ok(code) && Holds(bits, pos, code)
    ensures RestrictionAt(bits, pos).Ok? ==> RestrictionAt(bits, pos).value.1 >= pos + |code| + 17
  {
    var entries := VendorEntries(e.1, gvl);
    var purpose, kind, count, body := RestrictionCode(e, gvl, code);
    WrittenCountIs(e.1, gvl);
    VendorEntriesOrdered(e.1, gvl);
    ReadHeader(e.0, |entries| + 1, purpose, kind, count, body, bits, pos);
    ReadsPast(e.0, entries, body, bits, pos + 20);
  }

  /** Wherever a restriction stands, it is read back exactly, vendors and length, if and only if it does not lose vendor 0. */
  lemma ReadExactlyIff(e: (Restriction, set<int>), gvl: set<int>, code: Bits, bits: Bits, pos: nat)
    requires e.0.Valid() && EncodeRestriction(e, gvl) == Ok(code) && Holds(bits, pos, code)
    ensures RestrictionAt(bits, pos) == Ok(((e.0, Cover(e.1, gvl)), pos + |code|)) <==> !LosesZero(e.1, gvl)
  {
    hide RestrictionAt, EncodeRestriction, Cover, LosesZero;
    if LosesZero(e.1, gvl) {
      LostIsReadPast(e, gvl, code, bits, pos);
    } else {
      RestrictionRoundTrip(e, gvl, bits);
      assert RestrictionEncoder(gvl)(e) == Ok(code) && DecodedBy(gvl)(e) == (e.0, Cover(e.1, gvl));
    }
  }

  /** All restrictions but the last one are read well. */
  lemma ReadsInit(m: RestrictionMap, gvl: set<int>, n: nat, init: Bits, bits: Bits, pos: nat)
    requires n <= |m| && forall i :: 0 <= i < n ==> m[i].0.Valid() && !LosesZero(m[i].1, gvl)
    requires EncodeFirst(RestrictionEncoder(gvl), m, n) == Ok(init) && Holds(bits, pos, init)
    ensures ReadList(RestrictionAt, bits, pos, n) == Ok((Map(DecodedBy(gvl), m[..n]), pos + |init|))
  {
    var enc, first := RestrictionEncoder(gvl), m[..n];
    EncodeFirstLocal(enc, first, m, n);
    forall e | e in first ensures Inverts(enc, RestrictionAt, DecodedBy(gvl), e, bits) {
      RestrictionRoundTrip(e, gvl, bits);
    }
    WholeListRoundTrip(enc, RestrictionAt, DecodedBy(gvl), first, init, bits, pos);
  }

  /** The parts of a map's code: the count, all restrictions but the last, and the last. */
  lemma LastOfCode(m: RestrictionMap, gvl: set<int>) returns (count: Bits, init: Bits, last: Bits)
    requires m != [] && Encode(m, gvl).Ok?
    ensures EncodeInt(|m|, NUM_RESTRICTIONS_BITS) == Ok(count) && |count| == 12
    ensures EncodeFirst(RestrictionEncoder(gvl), m, |m| - 1) == Ok(init)
    ensures EncodeRestriction(m[|m| - 1], gvl) == Ok(last)
    ensures Encode(m, gvl).value == count + (init + last)
  {
    var enc := RestrictionEncoder(gvl);
    count := EncodeInt(|m|, NUM_RESTRICTIONS_BITS).value;
    init := EncodeFirst(enc, m, |m| - 1).value;
    last := enc(m[|m| - 1]).value;
  }

  /**
   If the others keep their vendor 0, the last restriction decides: decoding consumes exactly the code if and only if it
   does not lose vendor 0; if it does, decoding fails or runs at least 17 bits into what follows.
   */
  lemma LastDecides(m: RestrictionMap, gvl: set<int>, suffix: Bits)
    requires DistinctKeys(m) && m != [] && (forall e :: e in m ==> e.0.Valid()) && Encode(m, gvl).Ok?
    requires forall i :: 0 <= i < |m| - 1 ==> !LosesZero(m[i].1, gvl)
    ensures var code, r := Encode(m, gvl).value, Decode(Encode(m, gvl).value + suffix);
            && (r.Ok? && r.value.1 == |code| <==> !LosesZero(m[|m| - 1].1, gvl))
            && (LosesZero(m[|m| - 1].1, gvl) && r.Ok? ==> r.value.1 >= |code| + 17)
  {
    if LosesZero(m[|m| - 1].1, gvl) {
      var count, init, last := LastOfCode(m, gvl);
      LastReadsPast(m, gvl, count, init, last, count + (init + last) + suffix);
    } else {
      forall e | e in m ensures !LosesZero(e.1, gvl) {
        var i: int :| 0 <= i < |m| && m[i] == e;
      }
      RoundTrip(m, gvl, suffix);
    }
  }

  lemma LastReadsPast(m: RestrictionMap, gvl: set<int>, count: Bits, init: Bits, last: Bits, bits: Bits)
    requires m != [] && forall i :: 0 <= i < |m| - 1 ==> m[i].0.Valid() && !LosesZero(m[i].1, gvl)
    requires m[|m| - 1].0.Valid() && LosesZero(m[|m| - 1].1, gvl)
    requires EncodeInt(|m|, NUM_RESTRICTIONS_BITS) == Ok(count) && |count| == 12
    requires EncodeFirst(RestrictionEncoder(gvl), m, |m| - 1) == Ok(init) && EncodeRestriction(m[|m| - 1], gvl) == Ok(last)
    requires count + (init + last) <= bits
    ensures Decode(bits).Ok? ==> Decode(bits).value.1 >= |count + (init + last)| + 17
  {
    var n, mid := |m| - 1, 12 + |init|;
    assert bits[0..|count + (init + last)|] == count + (init + last);
    HoldsSplit(bits, 0, count, init + last);
    HoldsSplit(bits, 12, init, last);
    IntAtHolds(bits, 0, NUM_RESTRICTIONS_BITS, |m|);
    ReadsInit(m, gvl, n, init, bits, 12);
    LostIsReadPast(m[n], gvl, last, bits, mid);
    EndsPast(bits, n, Map(DecodedBy(gvl), m[..n]), mid, RestrictionAt(bits, mid), mid + |last| + 17);
    DecodeIs(bits, n + 1, mid + |last| + 17);
  }

  lemma EndsPast(bits: Bits, n: nat, read: seq<(Restriction, set<int>)>, mid: nat,
                 next: Result<((Restriction, set<int>), nat)>, end: nat)
    requires ReadList(RestrictionAt, bits, 12, n) == Ok((read, mid)) && next == RestrictionAt(bits, mid)
    requires next.Ok? ==> next.value.1 >= end
    ensures var rs := ReadList(RestrictionAt, bits, 12, n + 1); rs.Ok? ==> rs.value.1 >= end
  {
    ReadListNext(RestrictionAt, bits, 12, n, n + 1, read, mid, next);
  }

  lemma DecodeIs(bits: Bits, n: nat, end: nat)
    requires IntAt(bits, 0, NUM_RESTRICTIONS_BITS) == Ok(n)
    requires var rs := ReadList(RestrictionAt, bits, 12, n); rs.Ok? ==> rs.value.1 >= end
    ensures Decode(bits).Ok? ==> Decode(bits).value.1 >= end
  {
  }

  lemma SortedPair(s: set<int>, a: int, b: int)
    requires s == {a, b} && a < b
    ensures Sorted(s) == [a, b]
  {
    assert Least(s) == a && s - {a} == {b};
    assert Least({b}) == b && {b} - {b} == {};
    assert Sorted({b}) == [b] + Sorted({});
  }

  /** Vendors 0 and 1, both listed, are written with a count of 2 and one entry: decoding cannot be exact. */
  lemma ZeroCanBeLost(suffix: Bits) returns (m: RestrictionMap, gvl: set<int>)
    ensures |m| == 1 && m[0].0.Valid() && m[0].1 == {0, 1} <= gvl && Encode(m, gvl).Ok?
    ensures var r := Decode(Encode(m, gvl).value + suffix); r.Ok? ==> r.value.1 > |Encode(m, gvl).value|
  {
    var s: set<int> := {0, 1};
    gvl := s;
    m := [(Restriction(1, 0), s)];
    PairLosesZero(s, gvl, [0, 1]);
    Pow2Widths();
    OneEncodes(m, gvl);
    LastDecides(m, gvl, suffix);
  }

  lemma PairLosesZero(s: set<int>, gvl: set<int>, r: seq<int>)
    requires s == {0, 1} == gvl && r == [0, 1]
    ensures LosesZero(s, gvl) && WrittenCount(s, gvl) == 2 && VendorEntries(s, gvl) == [Single(1)]
    ensures EncodeList(EncodeEntry, VendorEntries(s, gvl)).Ok?
  {
    SortedPair(s, 0, 1);
    assert NextListed(gvl, 0, 1) == 1;
    assert !Closes(r, gvl, 0) && GapStart(r, gvl, 0) == 0 && LostAt(r, gvl, 0);
    assert GapStart(r, gvl, 1) == 1 && Closes(r, gvl, 1);
    assert GapEntries(r, gvl, 1) == GapEntries(r, gvl, 0);
    WrittenCountIs(s, gvl);
    EntriesEncode([Single(1)]);
  }
}
