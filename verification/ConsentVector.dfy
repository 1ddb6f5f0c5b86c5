/** The mutable id vector of the TC-string codec, with its cached maximum, and its fixed-length bitfield form. */
module ConsentVector {
  import opened BitString

  lemma HasMember(s: set<int>)
    ensures s == {} || exists x :: x in s
  {
    if !exists x :: x in s {
      assert s == {};
    }
  }

  /** `maxId` is the largest member of `ids`, or 0 for the empty set; all members are positive. */
  predicate IsMaxOf(maxId: int, ids: set<int>) {
    && (forall id :: id in ids ==> 1 <= id <= maxId)
    && (maxId == 0 || maxId in ids)
  }

  predicate Within(id: int, first: int, last: int) {
    first <= id <= last
  }

  function Interval(first: int, last: int): (ids: set<int>)
    ensures forall id :: id in ids <==> Within(id, first, last)
  {
    set id | first <= id <= last && Within(id, first, last)
  }

  lemma MaxIsUnique(m: int, n: int, ids: set<int>)
    requires IsMaxOf(m, ids) && IsMaxOf(n, ids)
    ensures m == n
  {
  }

  /** The class `Vector`: a set of ids whose maximum is maintained rather than recomputed. */
  class Vector {
    var bitLength: nat
    var maxId: int
    var ids: set<int>

    ghost predicate Valid()
      reads this
    {
      IsMaxOf(maxId, ids)
    }

    constructor ()
      ensures Valid() && ids == {} && bitLength == 0
    {
      bitLength, maxId, ids := 0, 0, {};
    }

    /** Adds one id; a non-positive id raises and changes nothing. */
    method Set(id: int) returns (r: Result<()>)
      requires Valid()
      modifies this
      ensures Valid()
      ensures r == if id > 0 then Ok(()) else Err(ModelError)
      ensures ids == if id > 0 then old(ids) + {id} else old(ids)
      ensures bitLength == if id > 0 then 0 else old(bitLength)
    {
      if id <= 0 {
        return Err(ModelError);
      }
      ids := ids + {id};
      maxId := if maxId < id then id else maxId;
      bitLength := 0;
      return Ok(());
    }

    /** Adds ids in order and stops at the first invalid one, keeping those added before it. */
    method SetEach(list: seq<int>) returns (r: Result<()>)
      requires Valid()
      modifies this
      ensures Valid()
      ensures r.Ok? <==> forall id :: id in list ==> id > 0
      ensures r.Ok? ==> ids == old(ids) + set id | id in list
      ensures r.Err? ==> exists k :: 0 <= k < |list| && list[k] <= 0 && (forall j :: 0 <= j < k ==> list[j] > 0)
                                     && ids == old(ids) + set id | id in list[..k]
    {
      for k := 0 to |list|
        invariant Valid()
        invariant forall j :: 0 <= j < k ==> list[j] > 0
        invariant ids == old(ids) + set id | id in list[..k]
      {
        r := Set(list[k]);
        if r.Err? {
          assert list[k] in list;
          return;
        }
        assert list[..k + 1] == list[..k] + [list[k]];
      }
      assert list[..|list|] == list;
      r := Ok(());
    }

    /** Adds the closed interval of ids, one at a time. */
    method SetRange(first: int, last: int) returns (r: Result<()>)
      requires Valid()
      modifies this
      ensures Valid()
      ensures r == if last < first || first > 0 then Ok(()) else Err(ModelError)
      ensures r.Ok? ==> ids == old(ids) + Interval(first, last)
    {
      var id := first;
      while id <= last
        invariant Valid()
        invariant first <= id && (id == first || (first > 0 && id <= last + 1))
        invariant ids == old(ids) + Interval(first, id - 1)
      {
        r := Set(id);
        if r.Err? {
          return;
        }
        id := id + 1;
      }
      r := Ok(());
    }

    /** Removes one id; the maximum is recomputed by a scan only when the maximum itself was removed. */
    method Unset(id: int)
      requires Valid()
      modifies this
      ensures Valid()
      ensures ids == old(ids) - {id}
      ensures bitLength == 0
    {
      ids := ids - {id};
      bitLength := 0;
      if id == maxId {
        maxId := Largest();
      }
    }

    /** The loop that finds the maximum anew. */
    method Largest() returns (max: nat)
      requires forall i :: i in ids ==> i >= 1
      ensures IsMaxOf(max, ids)
    {
      max := 0;
      var todo := ids;
      while todo != {}
        invariant todo <= ids
        invariant IsMaxOf(max, ids - todo)
        decreases |todo|
      {
        HasMember(todo);
        var next :| next in todo;
        max := if max < next then next else max;
        assert ids - (todo - {next}) == (ids - todo) + {next};
        todo := todo - {next};
      }
      assert ids - {} == ids;
    }

    method Empty()
      requires Valid()
      modifies this
      ensures Valid() && ids == {} && bitLength == old(bitLength)
    {
      ids := {};
      maxId := 0;
    }
  }

  /** One bit per id from 1 to `count`. */
  function Bitfield(ids: set<int>, count: nat): (bits: Bits)
    ensures |bits| == count
    ensures forall k :: 0 <= k < count ==> bits[k] == (k + 1 in ids)
  {
    seq(count, k requires 0 <= k < count => k + 1 in ids)
  }

  predicate IsSet(bits: Bits, id: int) {
    1 <= id <= |bits| && bits[id - 1]
  }

  function IdsOf(bits: Bits): (ids: set<int>)
    ensures forall id :: id in ids <==> IsSet(bits, id)
  {
    set id | 1 <= id <= |bits| && IsSet(bits, id)
  }

  /** FixedVectorEncoder.encode. */
  method EncodeBitfield(v: Vector, count: nat) returns (bits: Bits)
    requires v.Valid()
    ensures bits == Bitfield(v.ids, count)
  {
    bits := [];
    for id := 1 to count + 1
      invariant bits == Bitfield(v.ids, id - 1)
    {
      bits := bits + [id in v.ids];
    }
  }

  /** FixedVectorEncoder.decode. */
  method DecodeBitfield(bits: Bits, count: nat) returns (r: Result<Vector>)
    ensures r.Ok? <==> |bits| == count
    ensures r.Err? ==> r.error == DecodingError
    ensures r.Ok? ==> fresh(r.value) && r.value.Valid() && r.value.ids == IdsOf(bits) && r.value.bitLength == count
  {
    if |bits| != count {
      return Err(DecodingError);
    }
    var v := new Vector();
    for id := 1 to count + 1
      invariant fresh(v) && v.Valid()
      invariant v.ids == IdsOf(bits[..id - 1])
    {
      if bits[id - 1] {
        var _ := v.Set(id);
      }
    }
    assert bits[..count] == bits;
    v.bitLength := |bits|;
    r := Ok(v);
  }

  /** A bitfield of `count` bits keeps exactly the ids up to `count`: all of them iff `count` reaches the maximum. */
  lemma BitfieldRoundTrip(ids: set<int>, maxId: int, count: nat)
    requires IsMaxOf(maxId, ids)
    ensures IdsOf(Bitfield(ids, count)) == set id | id in ids && id <= count
    ensures IdsOf(Bitfield(ids, count)) == ids <==> maxId <= count
  {
    var kept := set id | id in ids && id <= count;
    assert maxId != 0 && maxId > count ==> maxId in ids && maxId !in kept;
    assert IdsOf(Bitfield(ids, count)) == kept;
  }
}
