/** How long vendor codes are, and when the form the encoder picks is the longer one. */
module VendorSize {
  import opened BitString
  import opened ConsentVector
  import opened ListCodec
  import opened VendorVector

  /** The id stands alone: neither neighbour is there. */
  predicate Alone(ids: set<int>, id: int) {
    id in ids && id - 1 !in ids && id + 1 !in ids
  }

  /** The id ends a run of two or more. */
  predicate EndsRun(ids: set<int>, id: int) {
    id in ids && id - 1 in ids && id + 1 !in ids
  }

  function Alones(ids: set<int>, k: nat): set<int> {
    set id | id in ids && id <= k && Alone(ids, id)
  }

  function RunEnds(ids: set<int>, k: nat): set<int> {
    set id | id in ids && id <= k && EndsRun(ids, id)
  }

  function EntrySize(entry: RangeEntry): nat {
    if entry.Single? then 17 else 33
  }

  function EntriesSize(entries: seq<RangeEntry>, k: nat): nat
    requires k <= |entries|
  {
    if k == 0 then 0 else EntriesSize(entries, k - 1) + EntrySize(entries[k - 1])
  }

  lemma EntryCodeSize(entry: RangeEntry)
    requires EncodeEntry(entry).Ok?
    ensures |EncodeEntry(entry).value| == EntrySize(entry)
  {
  }

  lemma {:induction false} ListCodeSize(entries: seq<RangeEntry>, k: nat)
    requires k <= |entries| && EncodeFirst(EncodeEntry, entries, k).Ok?
    ensures |EncodeFirst(EncodeEntry, entries, k).value| == EntriesSize(entries, k)
  {
    if k > 0 {
      ListCodeSize(entries, k - 1);
      EntryCodeSize(entries[k - 1]);
    }
  }

  lemma {:induction false} EntriesSizeLocal(xs: seq<RangeEntry>, ys: seq<RangeEntry>, k: nat)
    requires k <= |xs| && k <= |ys| && xs[..k] == ys[..k]
    ensures EntriesSize(xs, k) == EntriesSize(ys, k)
  {
    if k > 0 {
      assert xs[k - 1] == xs[..k][k - 1] && ys[k - 1] == ys[..k][k - 1];
      assert xs[..k - 1] == xs[..k][..k - 1] && ys[..k - 1] == ys[..k][..k - 1];
      EntriesSizeLocal(xs, ys, k - 1);
    }
  }

  lemma EntriesSizeNext(entries: seq<RangeEntry>, entry: RangeEntry)
    ensures EntriesSize(entries + [entry], |entries| + 1) == EntriesSize(entries, |entries|) + EntrySize(entry)
  {
    EntriesSizeLocal(entries + [entry], entries, |entries|);
  }

  /** One more id: at most one of the two counts goes up. */
  lemma CountsNext(ids: set<int>, k: nat)
    requires k > 0
    ensures |Alones(ids, k)| == |Alones(ids, k - 1)| + if Alone(ids, k) then 1 else 0
    ensures |RunEnds(ids, k)| == |RunEnds(ids, k - 1)| + if EndsRun(ids, k) then 1 else 0
  {
    AlonesNext(ids, k);
    RunEndsNext(ids, k);
  }

  lemma AlonesNext(ids: set<int>, k: nat)
    requires k > 0
    ensures |Alones(ids, k)| == |Alones(ids, k - 1)| + if Alone(ids, k) then 1 else 0
  {
    assert Alones(ids, k) == if Alone(ids, k) then Alones(ids, k - 1) + {k as int} else Alones(ids, k - 1);
  }

  lemma RunEndsNext(ids: set<int>, k: nat)
    requires k > 0
    ensures |RunEnds(ids, k)| == |RunEnds(ids, k - 1)| + if EndsRun(ids, k) then 1 else 0
  {
    assert RunEnds(ids, k) == if EndsRun(ids, k) then RunEnds(ids, k - 1) + {k as int} else RunEnds(ids, k - 1);
  }

  lemma NoCounts(ids: set<int>)
    requires forall id :: id in ids ==> id >= 1
    ensures Alones(ids, 0) == {} && RunEnds(ids, 0) == {}
  {
  }

  lemma RunStartIs(ids: set<int>, k: nat)
    requires k in ids && k > 0
    ensures RunStart(ids, k) == k <==> k - 1 !in ids
  {
  }

  /** The entries take 17 bits for an id alone and 33 for a run; the running size counts 16 and 33. */
  lemma {:induction false} RunsSize(ids: set<int>, k: nat)
    requires forall id :: id in ids ==> id >= 1
    ensures EntriesSize(Runs(ids, k), |Runs(ids, k)|) == 17 * |Alones(ids, k)| + 33 * |RunEnds(ids, k)|
    ensures Estimate(ids, k)
         == 29 + 16 * |Alones(ids, k)| + 33 * |RunEnds(ids, k)| + if k in ids && k + 1 in ids then 17 else 0
  {
    if k == 0 {
      NoCounts(ids);
    } else {
      RunsSize(ids, k - 1);
      CountsNext(ids, k);
      if k in ids && k + 1 !in ids {
        RunStartIs(ids, k);
        EntriesSizeNext(Runs(ids, k - 1), RunEndingAt(ids, k));
      }
    }
  }

  /** The form in closed form: it depends on the maximum, the ids alone and the runs. */
  lemma FormIsPickedIff(ids: set<int>, maxId: nat)
    requires IsMaxOf(maxId, ids)
    ensures UsesRanges(ids, maxId) <==>
              maxId > 45 && 16 * |Alones(ids, maxId)| + 33 * |RunEnds(ids, maxId)| < maxId + 4
  {
    if maxId > 0 {
      RunsSize(ids, maxId);
      assert Estimate(ids, maxId) == Estimate(ids, maxId - 1) + 16;
    }
  }

  /** The length of a code, in either form. */
  lemma CodeSize(ids: set<int>, maxId: nat)
    requires IsMaxOf(maxId, ids) && Encode(ids, maxId).Ok?
    ensures |Encode(ids, maxId).value| ==
              if UsesRanges(ids, maxId) then 29 + 17 * |Alones(ids, maxId)| + 33 * |RunEnds(ids, maxId)|
              else 17 + maxId
  {
    if UsesRanges(ids, maxId) {
      RangeFormCode(ids, maxId);
      RunsSize(ids, maxId);
      ListCodeSize(Runs(ids, maxId), |Runs(ids, maxId)|);
    }
  }

  /**
   When the encoder picks a form longer than the bitfield, exactly, and by how much at most: one bit for each id alone,
   which the running size leaves out, and 15 bits, since the last entry is not counted when the form is decided.
   */
  lemma LongerThanBitfieldIff(ids: set<int>, maxId: nat)
    requires IsMaxOf(maxId, ids) && Encode(ids, maxId).Ok?
    ensures var alone, runs := |Alones(ids, maxId)|, |RunEnds(ids, maxId)|;
            && (|Encode(ids, maxId).value| > 17 + maxId <==>
                  maxId > 45 && 16 * alone + 33 * runs - 4 < maxId < 12 + 17 * alone + 33 * runs)
            && |Encode(ids, maxId).value| <= 17 + maxId + 15 + alone
  {
    FormIsPickedIff(ids, maxId);
    CodeSize(ids, maxId);
  }

  lemma TightIdsAreAlone(n: nat, maxId: nat)
    requires n > 0 && maxId == 16 * n - 3
    ensures IsMaxOf(maxId, TightIds(16 * n))
    ensures Alones(TightIds(16 * n), maxId) == TightIds(16 * n) && RunEnds(TightIds(16 * n), maxId) == {}
  {
    var ids := TightIds(16 * n);
    assert TightId(maxId);
    forall id | id in ids ensures Alone(ids, id) && id <= maxId {
      assert !TightId(id - 1) && !TightId(id + 1);
    }
  }

  /** The excess is reached by every number of ids from 4 to 4095: every 16th id costs 15 bits and one bit each too much. */
  lemma ExcessIsReached(n: nat) returns (ids: set<int>, maxId: nat)
    requires 4 <= n <= 4095
    ensures IsMaxOf(maxId, ids) && |ids| == n && Encode(ids, maxId).Ok?
    ensures |Encode(ids, maxId).value| == 17 + maxId + 15 + n
  {
    ids, maxId := TightIds(16 * n), 16 * n - 3;
    TightIdsSize(n);
    TightIdsAreAlone(n, maxId);
    SmallVectorsEncode(ids, maxId);
    FormIsPickedIff(ids, maxId);
    CodeSize(ids, maxId);
  }
}
