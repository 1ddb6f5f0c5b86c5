/** Choosing which search results the model gets to see: reserved places for each search channel, then the rest. */
module CandidateSelection {

  datatype Candidate = Candidate(key: string, searches: set<string>)

  function Max(a: int, b: int): int {
    if a < b then b else a
  }

  /** The channels with their reserved places, in order; `/` rounds down as `//` does. */
  function Reserved(limit: int): seq<(string, int)> {
    [ ("semantic_query", Max(2, limit / 3)),
      ("error_pattern", Max(1, limit / 10)),
      ("title_keywords", Max(1, limit / 6)),
      ("popular_area", Max(1, limit / 5)),
      ("area_label", Max(1, limit / 6)) ]
  }

  function Keys(cs: seq<Candidate>): set<string> {
    set c | c in cs :: c.key
  }

  predicate DistinctKeys(cs: seq<Candidate>) {
    forall i, j :: 0 <= i < j < |cs| ==> cs[i].key != cs[j].key
  }

  function Matching(cs: seq<Candidate>, channel: string): seq<Candidate> {
    if cs == [] then []
    else
      var last := cs[|cs| - 1];
      Matching(cs[..|cs| - 1], channel) + if channel in last.searches then [last] else []
  }

  /** The candidates a channel is promised: the first ones that match it, as many as it has places. */
  function Promised(cs: seq<Candidate>, channel: string, quota: int): seq<Candidate>
    requires quota >= 0
  {
    var m := Matching(cs, channel);
    if quota <= |m| then m[..quota] else m
  }

  function Add(selected: seq<Candidate>, c: Candidate, limit: int): seq<Candidate> {
    if c.key !in Keys(selected) && |selected| < limit then selected + [c] else selected
  }

  function AddAll(selected: seq<Candidate>, cs: seq<Candidate>, limit: int): seq<Candidate> {
    if cs == [] then selected else Add(AddAll(selected, cs[..|cs| - 1], limit), cs[|cs| - 1], limit)
  }

  /** The selection after the first `k` channels. */
  function AfterChannels(cs: seq<Candidate>, limit: int, k: nat): seq<Candidate>
    requires k <= 5
  {
    if k == 0 then []
    else
      var (channel, quota) := Reserved(limit)[k - 1];
      AddAll(AfterChannels(cs, limit, k - 1), Promised(cs, channel, quota), limit)
  }

  function Select(cs: seq<Candidate>, limit: int): seq<Candidate> {
    AddAll(AfterChannels(cs, limit, 5), cs, limit)
  }

  /** The inner `add`, applied to a list, with the set of keys kept beside the list. */
  method AddEach(selected: seq<Candidate>, keys: set<string>, cs: seq<Candidate>, limit: int)
    returns (selected': seq<Candidate>, keys': set<string>)
    requires keys == Keys(selected)
    ensures selected' == AddAll(selected, cs, limit) && keys' == Keys(selected')
  {
    selected', keys' := selected, keys;
    for i := 0 to |cs|
      invariant selected' == AddAll(selected, cs[..i], limit) && keys' == Keys(selected')
    {
      assert cs[..i + 1][..i] == cs[..i];
      if cs[i].key !in keys' && |selected'| < limit {
        KeysNext(selected', cs[i]);
        selected' := selected' + [cs[i]];
        keys' := keys' + {cs[i].key};
      }
    }
    assert cs[..|cs|] == cs;
  }

  lemma KeysNext(cs: seq<Candidate>, c: Candidate)
    ensures Keys(cs + [c]) == Keys(cs) + {c.key}
  {
    assert c in cs + [c];
  }

  /** select_search_candidates. */
  method SelectSearchCandidates(cs: seq<Candidate>, limit: int) returns (selected: seq<Candidate>)
    ensures selected == Select(cs, limit)
  {
    hide AddAll, Promised;
    selected := [];
    var keys: set<string> := {};
    var reserved := Reserved(limit);
    for k := 0 to 5
      invariant selected == AfterChannels(cs, limit, k) && keys == Keys(selected)
    {
      var channel, quota := reserved[k].0, reserved[k].1;
      selected, keys := AddEach(selected, keys, Promised(cs, channel, quota), limit);
    }
    selected, keys := AddEach(selected, keys, cs, limit);
  }

  // ----- what every selection is

  lemma {:induction false} AddAllSpec(selected: seq<Candidate>, cs: seq<Candidate>, limit: int)
    requires DistinctKeys(selected) && (|selected| <= limit || selected == [])
    ensures var r := AddAll(selected, cs, limit);
            && DistinctKeys(r) && selected <= r && (|r| <= limit || r == [])
            && |r| <= |selected| + |cs|
            && Keys(r) <= Keys(selected) + Keys(cs)
            && (|r| < limit ==> Keys(cs) <= Keys(r))
            && (|selected| + |cs| <= limit ==> Keys(cs) <= Keys(r))
  {
    hide DistinctKeys;
    if cs != [] {
      var init, last := cs[..|cs| - 1], cs[|cs| - 1];
      AddAllSpec(selected, init, limit);
      assert cs == init + [last];
      KeysNext(init, last);
      var r := AddAll(selected, init, limit);
      KeysNext(r, last);
      AddStep(r, last, limit);
    }
  }

  lemma AddStep(r: seq<Candidate>, c: Candidate, limit: int)
    requires DistinctKeys(r)
    ensures DistinctKeys(Add(r, c, limit)) && r <= Add(r, c, limit) && Keys(r) <= Keys(Add(r, c, limit))
    ensures |r| < limit ==> c.key in Keys(Add(r, c, limit))
  {
    KeysNext(r, c);
    forall i | 0 <= i < |r| ensures r[i].key in Keys(r) {
    }
  }

  lemma {:induction false} MatchingMembers(cs: seq<Candidate>, channel: string)
    ensures forall c :: c in Matching(cs, channel) <==> c in cs && channel in c.searches
  {
    if cs != [] {
      MatchingMembers(cs[..|cs| - 1], channel);
      assert cs == cs[..|cs| - 1] + [cs[|cs| - 1]];
    }
  }

  lemma PromisedKeys(cs: seq<Candidate>, channel: string, quota: int)
    requires quota >= 0
    ensures Keys(Promised(cs, channel, quota)) <= Keys(cs) && |Promised(cs, channel, quota)| <= quota
  {
    MatchingMembers(cs, channel);
  }

  lemma {:induction false} AfterChannelsSpec(cs: seq<Candidate>, limit: int, k: nat)
    requires k <= 5
    ensures var r := AfterChannels(cs, limit, k);
            DistinctKeys(r) && (|r| <= limit || r == []) && Keys(r) <= Keys(cs)
  {
    hide AddAll, Promised;
    if k > 0 {
      AfterChannelsSpec(cs, limit, k - 1);
      var (channel, quota) := Reserved(limit)[k - 1];
      PromisedKeys(cs, channel, quota);
      AddAllSpec(AfterChannels(cs, limit, k - 1), Promised(cs, channel, quota), limit);
    }
  }

  lemma {:induction false} DistinctSize(cs: seq<Candidate>)
    requires DistinctKeys(cs)
    ensures |Keys(cs)| == |cs|
  {
    if cs != [] {
      var init, last := cs[..|cs| - 1], cs[|cs| - 1];
      DistinctSize(init);
      assert cs == init + [last];
      KeysNext(init, last);
      assert last.key !in Keys(init);
    }
  }

  /** No key is selected twice, every selected key was offered, and as many are selected as fit. */
  lemma SelectionSize(cs: seq<Candidate>, limit: nat)
    ensures var r := Select(cs, limit);
            && DistinctKeys(r) && Keys(r) <= Keys(cs)
            && |r| == if |Keys(cs)| < limit then |Keys(cs)| else limit
  {
    AfterChannelsSpec(cs, limit, 5);
    CompletedSize(AfterChannels(cs, limit, 5), cs, limit);
  }

  lemma CompletedSize(base: seq<Candidate>, cs: seq<Candidate>, limit: nat)
    requires DistinctKeys(base) && (|base| <= limit || base == []) && Keys(base) <= Keys(cs)
    ensures var r := AddAll(base, cs, limit);
            && DistinctKeys(r) && Keys(r) <= Keys(cs)
            && |r| == if |Keys(cs)| < limit then |Keys(cs)| else limit
  {
    var r := AddAll(base, cs, limit);
    AddAllSpec(base, cs, limit);
    DistinctSize(r);
    SubsetSize(Keys(r), Keys(cs));
    if |r| < limit {
      assert Keys(r) == Keys(cs);
    }
  }

  lemma {:induction false} SubsetSize(x: set<string>, y: set<string>)
    requires x <= y
    ensures |x| <= |y| && (|x| == |y| ==> x == y)
  {
    var rest := y - x;
    assert y == x + rest;
    assert |y| == |x| + |rest|;
    if |rest| == 0 {
      assert rest == {};
    }
  }

  // ----- the promises

  /** Every channel gets the candidates it was promised. */
  ghost predicate PromisesKept(cs: seq<Candidate>, limit: int) {
    forall k :: 0 <= k < 5 ==> Keys(PromisedTo(cs, limit, k)) <= Keys(Select(cs, limit))
  }

  function QuotaSum(limit: int, k: nat): int
    requires k <= 5
  {
    if k == 0 then 0 else QuotaSum(limit, k - 1) + Reserved(limit)[k - 1].1
  }

  /** The reserved places fit exactly from a limit of 6 on. */
  lemma QuotasFitIff(limit: int)
    ensures QuotaSum(limit, 5) <= limit <==> limit >= 6
    ensures limit < 6 ==> QuotaSum(limit, 5) == 6
  {
    var s1, s2, s3, s4, s5 := Max(2, limit / 3), Max(1, limit / 10), Max(1, limit / 6), Max(1, limit / 5), Max(1, limit / 6);
    assert QuotaSum(limit, 1) == s1;
    assert QuotaSum(limit, 2) == s1 + s2;
    assert QuotaSum(limit, 3) == s1 + s2 + s3;
    assert QuotaSum(limit, 4) == s1 + s2 + s3 + s4;
    assert QuotaSum(limit, 5) == s1 + s2 + s3 + s4 + s5;
  }

  function PromisedTo(cs: seq<Candidate>, limit: int, k: nat): seq<Candidate>
    requires k < 5
  {
    Promised(cs, Reserved(limit)[k].0, Reserved(limit)[k].1)
  }

  /** All keys promised to the first `k` channels. */
  function PromisedKeysUpTo(cs: seq<Candidate>, limit: int, k: nat): set<string>
    requires k <= 5
  {
    if k == 0 then {} else PromisedKeysUpTo(cs, limit, k - 1) + Keys(PromisedTo(cs, limit, k - 1))
  }

  lemma {:induction false} KeysSize(cs: seq<Candidate>)
    ensures |Keys(cs)| <= |cs|
  {
    if cs != [] {
      KeysSize(cs[..|cs| - 1]);
      assert cs == cs[..|cs| - 1] + [cs[|cs| - 1]];
      KeysNext(cs[..|cs| - 1], cs[|cs| - 1]);
    }
  }

  lemma {:induction false} PromisedAtMost(cs: seq<Candidate>, limit: int, k: nat)
    requires k <= 5
    ensures |PromisedKeysUpTo(cs, limit, k)| <= QuotaSum(limit, k)
  {
    if k > 0 {
      PromisedAtMost(cs, limit, k - 1);
      var before, channel, quota := PromisedKeysUpTo(cs, limit, k - 1), Reserved(limit)[k - 1].0, Reserved(limit)[k - 1].1;
      OneMoreChannel(cs, before, channel, quota);
      assert PromisedKeysUpTo(cs, limit, k) == before + Keys(Promised(cs, channel, quota));
    }
  }

  lemma OneMoreChannel(cs: seq<Candidate>, before: set<string>, channel: string, quota: int)
    requires quota >= 0
    ensures |before + Keys(Promised(cs, channel, quota))| <= |before| + quota
  {
    PromisedKeys(cs, channel, quota);
    KeysSize(Promised(cs, channel, quota));
    UnionSize(before, Keys(Promised(cs, channel, quota)));
  }

  lemma {:induction false} EachPromiseListed(cs: seq<Candidate>, limit: int, k: nat, j: nat)
    requires j < k <= 5
    ensures Keys(PromisedTo(cs, limit, j)) <= PromisedKeysUpTo(cs, limit, k)
  {
    if j < k - 1 {
      EachPromiseListed(cs, limit, k - 1, j);
    }
  }

  lemma UnionSize(x: set<string>, y: set<string>)
    ensures |x + y| <= |x| + |y|
  {
    assert x + y == x + (y - x);
    SubsetSize(y - x, y);
  }

  /** If all keys in play fit the limit, nothing is turned away. */
  lemma {:induction false} RoomForAll(base: seq<Candidate>, cs: seq<Candidate>, limit: int, room: set<string>)
    requires DistinctKeys(base) && Keys(base) <= room && Keys(cs) <= room && |room| <= limit
    ensures var r := AddAll(base, cs, limit); DistinctKeys(r) && Keys(r) == Keys(base) + Keys(cs)
  {
    if cs != [] {
      var init, last := cs[..|cs| - 1], cs[|cs| - 1];
      assert cs == init + [last];
      KeysNext(init, last);
      RoomForAll(base, init, limit, room);
      var r := AddAll(base, init, limit);
      AddStep(r, last, limit);
      KeysNext(r, last);
      if last.key !in Keys(r) {
        DistinctSize(r);
        SubsetSize(Keys(r) + {last.key}, room);
      }
    }
  }

  lemma {:induction false} ChannelsKeepPromises(cs: seq<Candidate>, limit: int, k: nat, room: set<string>)
    requires k <= 5 && PromisedKeysUpTo(cs, limit, k) <= room && |room| <= limit
    ensures DistinctKeys(AfterChannels(cs, limit, k))
    ensures Keys(AfterChannels(cs, limit, k)) == PromisedKeysUpTo(cs, limit, k)
  {
    if k > 0 {
      ChannelsKeepPromises(cs, limit, k - 1, room);
      RoomForAll(AfterChannels(cs, limit, k - 1), PromisedTo(cs, limit, k - 1), limit, room);
    }
  }

  lemma PrefixKeys(x: seq<Candidate>, y: seq<Candidate>)
    requires x <= y
    ensures Keys(x) <= Keys(y)
  {
    forall c | c in x ensures c in y {
    }
  }

  /** The promises are kept exactly when the promised candidates have at most `limit` different keys. */
  lemma PromisesKeptIff(cs: seq<Candidate>, limit: nat)
    ensures PromisesKept(cs, limit) <==> |PromisedKeysUpTo(cs, limit, 5)| <= limit
  {
    var channels := 5;
    KeptForChannels(cs, limit, channels);
  }

  lemma KeptForChannels(cs: seq<Candidate>, limit: nat, channels: nat)
    requires channels == 5
    ensures PromisesKept(cs, limit) <==> |PromisedKeysUpTo(cs, limit, channels)| <= limit
  {
    var room := PromisedKeysUpTo(cs, limit, channels);
    AfterChannelsSpec(cs, limit, channels);
    AddAllSpec(AfterChannels(cs, limit, channels), cs, limit);
    PrefixKeys(AfterChannels(cs, limit, channels), Select(cs, limit));
    if |room| <= limit {
      ChannelsKeepPromises(cs, limit, channels, room);
      forall k | 0 <= k < channels ensures Keys(PromisedTo(cs, limit, k)) <= room {
        EachPromiseListed(cs, limit, channels, k);
      }
    }
    if PromisesKept(cs, limit) {
      PromisedWithin(cs, limit, channels, Keys(Select(cs, limit)));
      SelectionSize(cs, limit);
      DistinctSize(Select(cs, limit));
      SubsetSize(room, Keys(Select(cs, limit)));
    }
  }

  lemma {:induction false} PromisedWithin(cs: seq<Candidate>, limit: int, k: nat, keys: set<string>)
    requires k <= 5 && forall j :: 0 <= j < k ==> Keys(PromisedTo(cs, limit, j)) <= keys
    ensures PromisedKeysUpTo(cs, limit, k) <= keys
  {
    if k > 0 {
      PromisedWithin(cs, limit, k - 1, keys);
    }
  }

  /** From a limit of 6 on, every channel gets the candidates it was promised. */
  lemma KeepsPromises(cs: seq<Candidate>, limit: nat)
    requires limit >= 6
    ensures PromisesKept(cs, limit)
  {
    var channels := 5;
    QuotasFitIff(limit);
    PromisedAtMost(cs, limit, channels);
    KeptForChannels(cs, limit, channels);
  }

  /** Six candidates, one for each reserved place; the limit of 5 leaves one promise open. */
  function OneEach(): seq<Candidate> {
    [ Candidate("a", {"semantic_query"}), Candidate("b", {"semantic_query"}), Candidate("c", {"error_pattern"}),
      Candidate("d", {"title_keywords"}), Candidate("e", {"popular_area"}), Candidate("f", {"area_label"}) ]
  }

  lemma {:induction false} MatchingGrows(cs: seq<Candidate>, channel: string, i: nat)
    requires i <= |cs|
    ensures Matching(cs[..i], channel) <= Matching(cs, channel)
    decreases |cs|
  {
    if i == |cs| {
      assert cs[..i] == cs;
    } else {
      var init := cs[..|cs| - 1];
      MatchingGrows(init, channel, i);
      assert init[..i] == cs[..i];
    }
  }

  /** At most as many match as there are, and none matches where none asks for the channel. */
  lemma {:induction false} MatchingBound(cs: seq<Candidate>, channel: string)
    ensures |Matching(cs, channel)| <= |cs|
    ensures (forall k :: 0 <= k < |cs| ==> channel !in cs[k].searches) ==> Matching(cs, channel) == []
  {
    if cs != [] {
      MatchingBound(cs[..|cs| - 1], channel);
    }
  }

  /** A matching candidate is promised a place if fewer than the quota match before it. */
  lemma PromisedHas(cs: seq<Candidate>, channel: string, quota: int, i: nat)
    requires quota >= 0 && i < |cs| && channel in cs[i].searches && |Matching(cs[..i], channel)| < quota
    ensures cs[i].key in Keys(Promised(cs, channel, quota))
  {
    var before := Matching(cs[..i], channel);
    assert cs[..i + 1][..i] == cs[..i];
    assert Matching(cs[..i + 1], channel) == before + [cs[i]];
    MatchingGrows(cs, channel, i + 1);
    assert Matching(cs, channel)[|before|] == cs[i];
    assert Promised(cs, channel, quota)[|before|] == cs[i];
  }

  /** Candidate `i` has its place among those promised to channel `k`. */
  lemma OneEachPromised(cs: seq<Candidate>, limit: int, i: nat, k: nat)
    requires cs == OneEach() && limit == 5 && i < 6 && k == (if i < 2 then 0 else i - 1)
    ensures cs[i].key in Keys(PromisedTo(cs, limit, k))
  {
    var channel, quota := Reserved(limit)[k].0, Reserved(limit)[k].1;
    MatchingBound(cs[..i], channel);
    PromisedHas(cs, channel, quota, i);
  }

  lemma SixKeys(keys: set<string>)
    requires {"a", "b", "c", "d", "e", "f"} <= keys
    ensures |keys| >= 6
  {
    SubsetSize({"a", "b", "c", "d", "e", "f"}, keys);
  }

  /** One place short, a promise is broken: 6 is the least limit that keeps them all. */
  lemma PromiseCanBreak()
    ensures !PromisesKept(OneEach(), 5)
  {
    var limit, channels := 5, 5;
    BreaksForChannels(limit, channels);
  }

  lemma BreaksForChannels(limit: nat, channels: nat)
    requires limit == 5 && channels == 5
    ensures !PromisesKept(OneEach(), limit)
  {
    hide PromisedTo, PromisesKept, Matching;
    var cs := OneEach();
    var promised := PromisedKeysUpTo(cs, limit, channels);
    forall i | 0 <= i < 6 ensures cs[i].key in promised {
      var k := if i < 2 then 0 else i - 1;
      OneEachPromised(cs, limit, i, k);
      EachPromiseListed(cs, limit, channels, k);
    }
    assert cs[0].key == "a" && cs[1].key == "b" && cs[2].key == "c" && cs[3].key == "d" && cs[4].key == "e" && cs[5].key == "f";
    SixKeys(promised);
    KeptForChannels(cs, limit, channels);
  }

  // ----- the shares, channel by channel

  /** How many of the first `i` candidates match the channel. */
  function MatchesBefore(cs: seq<Candidate>, channel: string, i: nat): nat
    requires i <= |cs|
  {
    if i == 0 then 0 else MatchesBefore(cs, channel, i - 1) + if channel in cs[i - 1].searches then 1 else 0
  }

  lemma {:induction false} MatchingCount(cs: seq<Candidate>, channel: string, i: nat)
    requires i <= |cs|
    ensures |Matching(cs[..i], channel)| == MatchesBefore(cs, channel, i)
  {
    if i > 0 {
      MatchingCount(cs, channel, i - 1);
      assert cs[..i][..i - 1] == cs[..i - 1];
    }
  }

  /** The first `share` matches of the channel are selected. */
  ghost predicate ShareKept(cs: seq<Candidate>, limit: int, channel: string, share: int) {
    forall i :: 0 <= i < |cs| && channel in cs[i].searches && MatchesBefore(cs, channel, i) < share ==>
      cs[i].key in Keys(Select(cs, limit))
  }

  lemma ShareOf(cs: seq<Candidate>, limit: nat, k: nat, channel: string, share: int)
    requires k < 5 && Reserved(limit)[k] == (channel, share) && share >= 0 && PromisesKept(cs, limit)
    ensures ShareKept(cs, limit, channel, share)
  {
    hide Select;
    forall i | 0 <= i < |cs| && channel in cs[i].searches && MatchesBefore(cs, channel, i) < share
      ensures cs[i].key in Keys(Select(cs, limit))
    {
      MatchingCount(cs, channel, i);
      PromisedHas(cs, channel, share, i);
      assert Keys(PromisedTo(cs, limit, k)) <= Keys(Select(cs, limit));
    }
  }

  /** From a limit of 6 on: a third of it goes to semantic matches (at least 2), a tenth to error patterns, and so on. */
  lemma SharesKept(cs: seq<Candidate>, limit: nat)
    requires limit >= 6
    ensures ShareKept(cs, limit, "semantic_query", limit / 3)
    ensures ShareKept(cs, limit, "error_pattern", if limit < 20 then 1 else limit / 10)
    ensures ShareKept(cs, limit, "title_keywords", limit / 6)
    ensures ShareKept(cs, limit, "popular_area", limit / 5)
    ensures ShareKept(cs, limit, "area_label", limit / 6)
  {
    hide ShareKept, PromisesKept;
    KeepsPromises(cs, limit);
    ShareOf(cs, limit, 0, "semantic_query", limit / 3);
    ShareOf(cs, limit, 1, "error_pattern", if limit < 20 then 1 else limit / 10);
    ShareOf(cs, limit, 2, "title_keywords", limit / 6);
    ShareOf(cs, limit, 3, "popular_area", limit / 5);
    ShareOf(cs, limit, 4, "area_label", limit / 6);
  }

  // ----- what fills the rest

  /** The candidate at `i` is the first with its key. */
  predicate FirstWithKey(cs: seq<Candidate>, i: int) {
    0 <= i < |cs| && forall j :: 0 <= j < i ==> cs[j].key != cs[i].key
  }

  lemma {:induction false} AddAllSize(base: seq<Candidate>, cs: seq<Candidate>, limit: int)
    requires DistinctKeys(base) && |base| <= limit
    ensures var r := AddAll(base, cs, limit);
            && DistinctKeys(r) && |r| <= limit && Keys(r) <= Keys(base) + Keys(cs)
            && |r| == if |Keys(base) + Keys(cs)| < limit then |Keys(base) + Keys(cs)| else limit
  {
    var r := AddAll(base, cs, limit);
    AddAllSpec(base, cs, limit);
    PrefixKeys(base, r);
    DistinctSize(r);
    SubsetSize(Keys(r), Keys(base) + Keys(cs));
    if |r| < limit {
      assert Keys(r) == Keys(base) + Keys(cs);
    }
  }

  lemma {:induction false} AddAllGrows(base: seq<Candidate>, cs: seq<Candidate>, limit: int, i: nat)
    requires i <= |cs|
    ensures AddAll(base, cs[..i], limit) <= AddAll(base, cs, limit)
    decreases |cs|
  {
    if i == |cs| {
      assert cs[..i] == cs;
    } else {
      var init := cs[..|cs| - 1];
      AddAllGrows(base, init, limit, i);
      assert init[..i] == cs[..i];
    }
  }

  lemma {:induction false} FullStays(base: seq<Candidate>, cs: seq<Candidate>, limit: int, i: nat)
    requires i <= |cs| && |AddAll(base, cs[..i], limit)| >= limit
    ensures AddAll(base, cs, limit) == AddAll(base, cs[..i], limit)
    decreases |cs|
  {
    if i == |cs| {
      assert cs[..i] == cs;
    } else {
      var init := cs[..|cs| - 1];
      assert init[..i] == cs[..i];
      FullStays(base, init, limit, i);
    }
  }

  /** A key that is not there yet is added exactly when the keys there and those met before it leave room. */
  lemma FillIff(base: seq<Candidate>, cs: seq<Candidate>, limit: int, i: nat)
    requires DistinctKeys(base) && |base| <= limit && FirstWithKey(cs, i) && cs[i].key !in Keys(base)
    ensures cs[i].key in Keys(AddAll(base, cs, limit)) <==> |Keys(base) + Keys(cs[..i])| < limit
  {
    var before, key := AddAll(base, cs[..i], limit), cs[i].key;
    AddAllSize(base, cs[..i], limit);
    assert key !in Keys(cs[..i]);
    if |before| < limit {
      assert cs[..i + 1][..i] == cs[..i];
      var after := AddAll(base, cs[..i + 1], limit);
      assert after == before + [cs[i]];
      KeysNext(before, cs[i]);
      AddAllGrows(base, cs, limit, i + 1);
      PrefixKeys(after, AddAll(base, cs, limit));
    } else {
      FullStays(base, cs, limit, i);
    }
  }

  /**
   From a limit of 6 on, the places that the promises leave go to the other candidates in their order: one is selected
   exactly when the promised keys and the keys met before it number less than the limit.
   */
  lemma RestIsFilledInOrder(cs: seq<Candidate>, limit: nat, i: nat)
    requires limit >= 6 && FirstWithKey(cs, i)
    ensures var promised := PromisedKeysUpTo(cs, limit, 5);
            cs[i].key in Keys(Select(cs, limit)) <==>
              cs[i].key in promised || |promised + Keys(cs[..i])| < limit
  {
    var channels := 5;
    FilledAfterChannels(cs, limit, channels, i);
  }

  lemma FilledAfterChannels(cs: seq<Candidate>, limit: nat, channels: nat, i: nat)
    requires limit >= 6 && channels == 5 && FirstWithKey(cs, i)
    ensures var promised := PromisedKeysUpTo(cs, limit, channels);
            cs[i].key in Keys(Select(cs, limit)) <==>
              cs[i].key in promised || |promised + Keys(cs[..i])| < limit
  {
    var promised, base := PromisedKeysUpTo(cs, limit, channels), AfterChannels(cs, limit, channels);
    QuotasFitIff(limit);
    PromisedAtMost(cs, limit, channels);
    ChannelsKeepPromises(cs, limit, channels, promised);
    DistinctSize(base);
    FillBeyond(base, cs, limit, i);
  }

  lemma FillBeyond(base: seq<Candidate>, cs: seq<Candidate>, limit: nat, i: nat)
    requires DistinctKeys(base) && |base| <= limit && FirstWithKey(cs, i)
    ensures cs[i].key in Keys(AddAll(base, cs, limit)) <==> cs[i].key in Keys(base) || |Keys(base) + Keys(cs[..i])| < limit
  {
    if cs[i].key in Keys(base) {
      AddAllSpec(base, cs, limit);
      PrefixKeys(base, AddAll(base, cs, limit));
    } else {
      FillIff(base, cs, limit, i);
    }
  }
}
