/** What is left of the model's replies: only sound matches get through, whatever the model answers. */
module MatchFilter {
  import opened Basics
  import opened Text
  import BotComment
  import BotCommentRoundTrip

  /** An offered candidate: its key and state, and what a comment says about it. */
  datatype Candidate = Candidate(key: string, state: string, about: BotComment.Candidate)

  /** One match as the model reported it; a missing root cause is the empty string. */
  datatype Reply = Reply(key: Option<string>, rootCause: string, explanation: string)

  datatype Proposal = Proposal(reply: Reply, candidate: Candidate)

  // ----- resolving

  /** `{candidate["key"]: candidate for candidate in cs}`: the last candidate with a key wins. */
  function ByKey(cs: seq<Candidate>): map<string, Candidate> {
    if cs == [] then map[] else ByKey(cs[..|cs| - 1])[cs[|cs| - 1].key := cs[|cs| - 1]]
  }

  /** The reply names an offered candidate in the wanted state and says all that is asked of it. */
  predicate Usable(byKey: map<string, Candidate>, state: string, r: Reply) {
    && r.key.Some? && r.key.value in byKey && byKey[r.key.value].state == state
    && (byKey[r.key.value].about.kind == BotComment.Issue && state == "open" ==> r.rootCause != "")
  }

  function Keys(ps: seq<Proposal>): set<string> {
    set p | p in ps :: p.candidate.key
  }

  predicate DistinctKeys(ps: seq<Proposal>) {
    forall i, j :: 0 <= i < j < |ps| ==> ps[i].candidate.key != ps[j].candidate.key
  }

  predicate KeysAgree(byKey: map<string, Candidate>) {
    forall k :: k in byKey ==> byKey[k].key == k
  }

  lemma {:induction false} ByKeySpec(cs: seq<Candidate>)
    ensures KeysAgree(ByKey(cs))
    ensures forall k :: k in ByKey(cs) ==> ByKey(cs)[k] in cs
    ensures forall c :: c in cs ==> c.key in ByKey(cs)
  {
    if cs != [] {
      ByKeySpec(cs[..|cs| - 1]);
      assert cs == cs[..|cs| - 1] + [cs[|cs| - 1]];
    }
  }

  /** The reply at `i` is the first usable one for its key. */
  predicate FirstUsable(byKey: map<string, Candidate>, state: string, rs: seq<Reply>, i: int) {
    && 0 <= i < |rs| && Usable(byKey, state, rs[i])
    && forall j :: 0 <= j < i && Usable(byKey, state, rs[j]) ==> rs[j].key != rs[i].key
  }

  /** The first usable reply for each key, in the order of the replies. */
  function Resolve(byKey: map<string, Candidate>, state: string, rs: seq<Reply>): seq<Proposal> {
    if rs == [] then []
    else
      var n := |rs| - 1;
      Resolve(byKey, state, rs[..n]) +
      if FirstUsable(byKey, state, rs, n) then [Proposal(rs[n], byKey[rs[n].key.value])] else []
  }

  /** Exactly the first usable replies get through, paired with the candidate they name; no key twice. */
  lemma {:induction false} ResolveSpec(byKey: map<string, Candidate>, state: string, rs: seq<Reply>)
    requires KeysAgree(byKey)
    ensures forall p :: p in Resolve(byKey, state, rs) <==>
              exists i :: FirstUsable(byKey, state, rs, i) && p == Proposal(rs[i], byKey[rs[i].key.value])
    ensures forall k :: k in Keys(Resolve(byKey, state, rs)) <==>
              exists i :: 0 <= i < |rs| && Usable(byKey, state, rs[i]) && rs[i].key == Some(k)
    ensures DistinctKeys(Resolve(byKey, state, rs))
  {
    if rs != [] {
      var n := |rs| - 1;
      var init := rs[..n];
      ResolveSpec(byKey, state, init);
      forall i | 0 <= i < n ensures FirstUsable(byKey, state, rs, i) <==> FirstUsable(byKey, state, init, i) {
        assert forall j :: 0 <= j <= i ==> rs[j] == init[j];
      }
      ResolveNext(byKey, state, rs, n, Resolve(byKey, state, init));
    }
  }

  lemma ResolveNext(byKey: map<string, Candidate>, state: string, rs: seq<Reply>, n: int, init: seq<Proposal>)
    requires KeysAgree(byKey) && |rs| == n + 1 && n >= 0
    requires forall p :: p in init <==>
               exists i :: 0 <= i < n && FirstUsable(byKey, state, rs, i) && p == Proposal(rs[i], byKey[rs[i].key.value])
    requires forall k :: k in Keys(init) <==>
               exists i :: 0 <= i < n && Usable(byKey, state, rs[i]) && rs[i].key == Some(k)
    requires DistinctKeys(init)
    ensures var r := init + if FirstUsable(byKey, state, rs, n) then [Proposal(rs[n], byKey[rs[n].key.value])] else [];
            && (forall p :: p in r <==>
                  exists i :: FirstUsable(byKey, state, rs, i) && p == Proposal(rs[i], byKey[rs[i].key.value]))
            && (forall k :: k in Keys(r) <==>
                  exists i :: 0 <= i < |rs| && Usable(byKey, state, rs[i]) && rs[i].key == Some(k))
            && DistinctKeys(r)
  {
    if FirstUsable(byKey, state, rs, n) {
      var last := Proposal(rs[n], byKey[rs[n].key.value]);
      KeysNext(init, last);
      assert last.candidate.key !in Keys(init);
      forall i | 0 <= i < |init| ensures init[i].candidate.key in Keys(init) {
      }
    } else {
      assert init + [] == init;
    }
  }

  lemma KeysNext(ps: seq<Proposal>, p: Proposal)
    ensures Keys(ps + [p]) == Keys(ps) + {p.candidate.key}
  {
    assert p in ps + [p];
  }

  /** resolve_matches: `seen` holds the keys that got through so far. */
  method ResolveMatches(byKey: map<string, Candidate>, rs: seq<Reply>, state: string)
    returns (resolved: seq<Proposal>, dropped: seq<Option<string>>)
    requires KeysAgree(byKey)
    ensures resolved == Resolve(byKey, state, rs)
    ensures |resolved| + |dropped| == |rs|
  {
    hide FirstUsable, DistinctKeys;
    resolved, dropped := [], [];
    var seen: set<string> := {};
    for n := 0 to |rs|
      invariant resolved == Resolve(byKey, state, rs[..n])
      invariant seen == Keys(resolved)
      invariant |resolved| + |dropped| == n
    {
      assert rs[..n + 1][..n] == rs[..n];
      ResolveSpec(byKey, state, rs[..n]);
      FirstUsableMeans(byKey, state, rs, n, seen);
      var r := rs[n];
      if r.key.None? || r.key.value !in byKey || byKey[r.key.value].state != state || r.key.value in seen {
        dropped := dropped + [r.key];
      } else if byKey[r.key.value].about.kind == BotComment.Issue && state == "open" && r.rootCause == "" {
        dropped := dropped + [r.key];
      } else {
        seen := seen + {r.key.value};
        KeysNext(resolved, Proposal(r, byKey[r.key.value]));
        resolved := resolved + [Proposal(r, byKey[r.key.value])];
      }
    }
    assert rs[..|rs|] == rs;
  }

  lemma FirstUsableMeans(byKey: map<string, Candidate>, state: string, rs: seq<Reply>, n: nat, seen: set<string>)
    requires n < |rs|
    requires forall k :: k in seen <==>
               exists i :: 0 <= i < |rs[..n]| && Usable(byKey, state, rs[..n][i]) && rs[..n][i].key == Some(k)
    ensures FirstUsable(byKey, state, rs[..n + 1], n) <==> Usable(byKey, state, rs[n]) && rs[n].key.value !in seen
  {
    var upTo, before := rs[..n + 1], rs[..n];
    assert upTo[n] == rs[n] && forall j :: 0 <= j < n ==> upTo[j] == before[j];
  }

  /** `[m for m in ps if m["candidate_key"] not in keys]`. */
  function Without(ps: seq<Proposal>, keys: set<string>): seq<Proposal> {
    if ps == [] then []
    else
      var last := ps[|ps| - 1];
      Without(ps[..|ps| - 1], keys) + if last.candidate.key in keys then [] else [last]
  }

  datatype Analysis = Analysis(likely: seq<Proposal>, possible: seq<Proposal>, closed: seq<Proposal>)

  /** The replies for the three buckets. */
  datatype Replies = Replies(likely: seq<Reply>, possible: seq<Reply>, closed: seq<Reply>)

  function Analyze(cs: seq<Candidate>, rs: Replies): Analysis {
    var byKey := ByKey(cs);
    var likely := Resolve(byKey, "open", rs.likely);
    Analysis(likely,
             Without(Resolve(byKey, "open", rs.possible), Keys(likely)),
             Resolve(byKey, "closed", rs.closed))
  }

  // ----- the critique

  /** The outcome of asking for a verdict: the call failed, or some text came back. */
  datatype Verdict = Failed | Said(text: string)

  /** The proposals whose verdict was `want`. */
  function Picked(ps: seq<Proposal>, vs: seq<Verdict>, want: string): seq<Proposal>
    requires |ps| == |vs|
  {
    if ps == [] then []
    else
      var n := |ps| - 1;
      Picked(ps[..n], vs[..n], want) + if vs[n] == Said(want) then [ps[n]] else []
  }

  datatype Confidence = Likely | Possible

  function Labelled(ps: seq<Proposal>, confidence: Confidence): seq<(Confidence, Proposal)> {
    seq(|ps|, i requires 0 <= i < |ps| => (confidence, ps[i]))
  }

  /** Where a proposal ends up after its verdict, if anywhere. */
  function Destination(confidence: Confidence, verdict: Verdict): Option<Confidence> {
    if verdict == Said("keep") then Some(confidence)
    else if verdict == Said("downgrade") && confidence == Likely then Some(Possible)
    else None
  }

  /** The proposals that end up at `to`. */
  function Routed(proposed: seq<(Confidence, Proposal)>, vs: seq<Verdict>, to: Confidence): seq<Proposal>
    requires |proposed| == |vs|
  {
    if proposed == [] then []
    else
      var n := |proposed| - 1;
      Routed(proposed[..n], vs[..n], to) +
      if Destination(proposed[n].0, vs[n]) == Some(to) then [proposed[n].1] else []
  }

  lemma {:induction false} RoutedConcat(x: seq<(Confidence, Proposal)>, vx: seq<Verdict>,
                                        y: seq<(Confidence, Proposal)>, vy: seq<Verdict>, to: Confidence)
    requires |x| == |vx| && |y| == |vy|
    ensures Routed(x + y, vx + vy, to) == Routed(x, vx, to) + Routed(y, vy, to)
  {
    if y == [] {
      assert x + y == x && vx + vy == vx;
    } else {
      var n := |y| - 1;
      assert (x + y)[..|x| + n] == x + y[..n] && (x + y)[|x| + n] == y[n];
      assert (vx + vy)[..|x| + n] == vx + vy[..n] && (vx + vy)[|x| + n] == vy[n];
      RoutedConcat(x, vx, y[..n], vy[..n], to);
    }
  }

  /** Likely matches stay on "keep" and move on "downgrade"; possible ones stay on "keep" and never move up. */
  lemma {:induction false} RoutedLabelled(ps: seq<Proposal>, vs: seq<Verdict>)
    requires |ps| == |vs|
    ensures Routed(Labelled(ps, Likely), vs, Likely) == Picked(ps, vs, "keep")
    ensures Routed(Labelled(ps, Likely), vs, Possible) == Picked(ps, vs, "downgrade")
    ensures Routed(Labelled(ps, Possible), vs, Likely) == []
    ensures Routed(Labelled(ps, Possible), vs, Possible) == Picked(ps, vs, "keep")
  {
    if ps != [] {
      var n := |ps| - 1;
      RoutedLabelled(ps[..n], vs[..n]);
      assert Labelled(ps, Likely)[..n] == Labelled(ps[..n], Likely);
      assert Labelled(ps, Possible)[..n] == Labelled(ps[..n], Possible);
    }
  }

  /** critique_proposed_matches: likely ones may be kept or downgraded, possible ones kept; all others are omitted. */
  method CritiqueProposedMatches(likely: seq<Proposal>, possible: seq<Proposal>, vs: seq<Verdict>)
    returns (keptLikely: seq<Proposal>, keptPossible: seq<Proposal>)
    requires |vs| == |likely| + |possible|
    ensures keptLikely == Picked(likely, vs[..|likely|], "keep")
    ensures keptPossible == Picked(likely, vs[..|likely|], "downgrade") + Picked(possible, vs[|likely|..], "keep")
  {
    var proposed := Labelled(likely, Likely) + Labelled(possible, Possible);
    keptLikely, keptPossible := [], [];
    for n := 0 to |proposed|
      invariant keptLikely == Routed(proposed[..n], vs[..n], Likely)
      invariant keptPossible == Routed(proposed[..n], vs[..n], Possible)
    {
      assert proposed[..n + 1][..n] == proposed[..n] && vs[..n + 1][..n] == vs[..n];
      var (confidence, p) := proposed[n];
      if vs[n] == Said("keep") {
        if confidence == Likely {
          keptLikely := keptLikely + [p];
        } else {
          keptPossible := keptPossible + [p];
        }
      } else if vs[n] == Said("downgrade") && confidence == Likely {
        keptPossible := keptPossible + [p];
      }
    }
    assert proposed[..|proposed|] == proposed && vs[..|proposed|] == vs;
    ghost var v1, v2 := vs[..|likely|], vs[|likely|..];
    assert vs == v1 + v2;
    RoutedConcat(Labelled(likely, Likely), v1, Labelled(possible, Possible), v2, Likely);
    RoutedConcat(Labelled(likely, Likely), v1, Labelled(possible, Possible), v2, Possible);
    RoutedLabelled(likely, v1);
    RoutedLabelled(possible, v2);
  }

  /** critique_related_closed_candidates. */
  method CritiqueRelatedClosed(proposed: seq<Proposal>, vs: seq<Verdict>) returns (kept: seq<Proposal>)
    requires |vs| == |proposed|
    ensures kept == Picked(proposed, vs, "include")
  {
    kept := [];
    for n := 0 to |proposed|
      invariant kept == Picked(proposed[..n], vs[..n], "include")
    {
      assert proposed[..n + 1][..n] == proposed[..n] && vs[..n + 1][..n] == vs[..n];
      if vs[n] == Said("include") {
        kept := kept + [proposed[n]];
      }
    }
    assert proposed[..|proposed|] == proposed && vs[..|vs|] == vs;
  }

  datatype Verdicts = Verdicts(open: seq<Verdict>, closed: seq<Verdict>)

  predicate Answers(vs: Verdicts, a: Analysis) {
    |vs.open| == |a.likely| + |a.possible| && |vs.closed| == |a.closed|
  }

  /** What is left after both critiques. */
  function Surviving(a: Analysis, vs: Verdicts): Analysis
    requires Answers(vs, a)
  {
    var k := |a.likely|;
    Analysis(Picked(a.likely, vs.open[..k], "keep"),
             Picked(a.likely, vs.open[..k], "downgrade") + Picked(a.possible, vs.open[k..], "keep"),
             Picked(a.closed, vs.closed, "include"))
  }

  // ----- what gets through

  ghost predicate Sound(cs: seq<Candidate>, state: string, ps: seq<Proposal>) {
    forall p :: p in ps ==>
      && p.candidate in cs && p.candidate.state == state && p.reply.key == Some(p.candidate.key)
      && (p.candidate.about.kind == BotComment.Issue && state == "open" ==> p.reply.rootCause != "")
  }

  ghost predicate Safe(cs: seq<Candidate>, a: Analysis) {
    && Sound(cs, "open", a.likely) && Sound(cs, "open", a.possible) && Sound(cs, "closed", a.closed)
    && DistinctKeys(a.likely + a.possible + a.closed)
  }

  lemma ResolvedAreSound(cs: seq<Candidate>, state: string, rs: seq<Reply>)
    ensures Sound(cs, state, Resolve(ByKey(cs), state, rs)) && DistinctKeys(Resolve(ByKey(cs), state, rs))
  {
    ByKeySpec(cs);
    ResolveSpec(ByKey(cs), state, rs);
  }

  lemma {:induction false} WithoutSpec(ps: seq<Proposal>, keys: set<string>)
    requires DistinctKeys(ps)
    ensures forall p :: p in Without(ps, keys) <==> p in ps && p.candidate.key !in keys
    ensures DistinctKeys(Without(ps, keys))
  {
    if ps != [] {
      WithoutSpec(ps[..|ps| - 1], keys);
      assert ps == ps[..|ps| - 1] + [ps[|ps| - 1]];
    }
  }

  lemma {:induction false} PickedSpec(ps: seq<Proposal>, vs: seq<Verdict>, want: string)
    requires |ps| == |vs| && DistinctKeys(ps)
    ensures forall p :: p in Picked(ps, vs, want) <==> exists i :: 0 <= i < |ps| && ps[i] == p && vs[i] == Said(want)
    ensures DistinctKeys(Picked(ps, vs, want))
  {
    if ps != [] {
      var n := |ps| - 1;
      PickedSpec(ps[..n], vs[..n], want);
      var init := Picked(ps[..n], vs[..n], want);
      forall p | p in init ensures p.candidate.key != ps[n].candidate.key {
      }
      assert forall i :: 0 <= i < n ==> ps[..n][i] == ps[i] && vs[..n][i] == vs[i];
    }
  }

  lemma DistinctConcat(x: seq<Proposal>, y: seq<Proposal>)
    ensures DistinctKeys(x + y) <==> DistinctKeys(x) && DistinctKeys(y) && Keys(x) !! Keys(y)
  {
    var both := x + y;
    if DistinctKeys(both) {
      assert forall i :: 0 <= i < |x| ==> x[i] == both[i];
      assert forall i :: 0 <= i < |y| ==> y[i] == both[|x| + i];
      forall p, q | p in x && q in y ensures p.candidate.key != q.candidate.key {
        var i: int :| 0 <= i < |x| && x[i] == p;
        var j: int :| 0 <= j < |y| && y[j] == q;
        assert both[i] == p && both[|x| + j] == q;
      }
    }
    if DistinctKeys(x) && DistinctKeys(y) && Keys(x) !! Keys(y) {
      forall i, j | 0 <= i < j < |both| ensures both[i].candidate.key != both[j].candidate.key {
        if i < |x| <= j {
          assert both[i].candidate.key in Keys(x) && both[j].candidate.key in Keys(y);
        }
      }
    }
  }

  lemma StatesApart(cs: seq<Candidate>, x: seq<Proposal>, y: seq<Proposal>)
    requires forall p :: p in x ==> p.candidate.key in ByKey(cs) && ByKey(cs)[p.candidate.key].state == "open"
    requires forall p :: p in y ==> p.candidate.key in ByKey(cs) && ByKey(cs)[p.candidate.key].state == "closed"
    ensures Keys(x) !! Keys(y)
  {
  }

  /** Whatever the model replies, the three buckets are safe. */
  lemma AnalysisIsSafe(cs: seq<Candidate>, rs: Replies)
    ensures Safe(cs, Analyze(cs, rs))
  {
    var byKey, a := ByKey(cs), Analyze(cs, rs);
    var possible := Resolve(byKey, "open", rs.possible);
    ByKeySpec(cs);
    ResolvedAreSound(cs, "open", rs.likely);
    ResolvedAreSound(cs, "open", rs.possible);
    ResolvedAreSound(cs, "closed", rs.closed);
    ResolveSpec(byKey, "open", rs.likely);
    ResolveSpec(byKey, "open", rs.possible);
    ResolveSpec(byKey, "closed", rs.closed);
    WithoutSpec(possible, Keys(a.likely));
    DistinctConcat(a.likely, a.possible);
    StatesApart(cs, a.likely + a.possible, a.closed);
    DistinctConcat(a.likely + a.possible, a.closed);
  }

  // ----- what must get through

  /** The candidate at `i` is the one that counts for its key: no later one has the same key. */
  predicate LastWithKey(cs: seq<Candidate>, i: int, key: string) {
    0 <= i < |cs| && cs[i].key == key && forall j :: i < j < |cs| ==> cs[j].key != key
  }

  /**
   The reply is a sound match for the bucket: it names an offered candidate in the bucket's state, and gives a root cause
   if that is an open issue.
   */
  ghost predicate SoundReply(cs: seq<Candidate>, state: string, r: Reply, key: string) {
    && r.key == Some(key)
    && exists i :: LastWithKey(cs, i, key) && cs[i].state == state
                   && (cs[i].about.kind == BotComment.Issue && state == "open" ==> r.rootCause != "")
  }

  lemma {:induction false} ByKeyIs(cs: seq<Candidate>, key: string)
    ensures key in ByKey(cs) <==> exists i :: LastWithKey(cs, i, key)
    ensures forall i :: LastWithKey(cs, i, key) ==> key in ByKey(cs) && ByKey(cs)[key] == cs[i]
  {
    if cs != [] {
      var n := |cs| - 1;
      ByKeyIs(cs[..n], key);
      if cs[n].key == key {
        assert LastWithKey(cs, n, key);
      } else {
        forall i | 0 <= i < n ensures LastWithKey(cs, i, key) <==> LastWithKey(cs[..n], i, key) {
        }
      }
    }
  }

  lemma SoundIffUsable(cs: seq<Candidate>, state: string, r: Reply, key: string)
    requires r.key == Some(key)
    ensures SoundReply(cs, state, r, key) <==> Usable(ByKey(cs), state, r)
  {
    ByKeyIs(cs, key);
  }

  /** A resolved bucket holds exactly the keys for which some reply is sound. */
  lemma ResolvedKeysIff(cs: seq<Candidate>, state: string, rs: seq<Reply>, key: string)
    ensures key in Keys(Resolve(ByKey(cs), state, rs)) <==> exists r :: r in rs && SoundReply(cs, state, r, key)
  {
    ByKeySpec(cs);
    ResolveSpec(ByKey(cs), state, rs);
    forall r | r in rs && r.key == Some(key) ensures SoundReply(cs, state, r, key) <==> Usable(ByKey(cs), state, r) {
      SoundIffUsable(cs, state, r, key);
    }
  }

  lemma WithoutKeys(ps: seq<Proposal>, keys: set<string>, key: string)
    requires DistinctKeys(ps)
    ensures key in Keys(Without(ps, keys)) <==> key in Keys(ps) && key !in keys
  {
    WithoutSpec(ps, keys);
  }

  /**
   Nothing sound is lost: each bucket holds exactly the keys that some reply for it soundly names, except that a key in
   the likely bucket is not repeated in the possible one.
   */
  lemma BucketsAreComplete(cs: seq<Candidate>, rs: Replies, key: string)
    ensures var a := Analyze(cs, rs);
            && (key in Keys(a.likely) <==> exists r :: r in rs.likely && SoundReply(cs, "open", r, key))
            && (key in Keys(a.possible) <==>
                  key !in Keys(a.likely) && exists r :: r in rs.possible && SoundReply(cs, "open", r, key))
            && (key in Keys(a.closed) <==> exists r :: r in rs.closed && SoundReply(cs, "closed", r, key))
  {
    hide SoundReply, Resolve;
    ResolvedKeysIff(cs, "open", rs.likely, key);
    ResolvedKeysIff(cs, "open", rs.possible, key);
    ResolvedKeysIff(cs, "closed", rs.closed, key);
    ResolvedAreSound(cs, "open", rs.possible);
    WithoutKeys(Resolve(ByKey(cs), "open", rs.possible), Keys(Resolve(ByKey(cs), "open", rs.likely)), key);
  }

  /** A bucket holds the picked proposals of another, so it inherits everything said about each of them. */
  lemma SoundPart(cs: seq<Candidate>, state: string, ps: seq<Proposal>, part: seq<Proposal>)
    requires Sound(cs, state, ps) && forall p :: p in part ==> p in ps
    ensures Sound(cs, state, part) && Keys(part) <= Keys(ps)
  {
  }

  /**
   Whatever the verdicts are: what survives is safe, a likely match was proposed as likely and kept, a possible one was
   proposed as possible and kept or as likely and downgraded, and a closed one was included.
   */
  lemma SurvivorsAreSafe(cs: seq<Candidate>, rs: Replies, vs: Verdicts)
    requires Answers(vs, Analyze(cs, rs))
    ensures var a, s := Analyze(cs, rs), Surviving(Analyze(cs, rs), vs);
            && Safe(cs, s)
            && (forall p :: p in s.likely <==> exists i :: 0 <= i < |a.likely| && a.likely[i] == p && vs.open[i] == Said("keep"))
            && (forall p :: p in s.possible <==>
                  || (exists i :: 0 <= i < |a.likely| && a.likely[i] == p && vs.open[i] == Said("downgrade"))
                  || (exists i :: 0 <= i < |a.possible| && a.possible[i] == p && vs.open[|a.likely| + i] == Said("keep")))
            && (forall p :: p in s.closed <==> exists i :: 0 <= i < |a.closed| && a.closed[i] == p && vs.closed[i] == Said("include"))
  {
    AnalysisIsSafe(cs, rs);
    CritiqueKeepsSafe(cs, Analyze(cs, rs), vs);
  }

  lemma CritiqueKeepsSafe(cs: seq<Candidate>, a: Analysis, vs: Verdicts)
    requires Answers(vs, a) && Safe(cs, a)
    ensures var s := Surviving(a, vs);
            && Safe(cs, s)
            && (forall p :: p in s.likely <==> exists i :: 0 <= i < |a.likely| && a.likely[i] == p && vs.open[i] == Said("keep"))
            && (forall p :: p in s.possible <==>
                  || (exists i :: 0 <= i < |a.likely| && a.likely[i] == p && vs.open[i] == Said("downgrade"))
                  || (exists i :: 0 <= i < |a.possible| && a.possible[i] == p && vs.open[|a.likely| + i] == Said("keep")))
            && (forall p :: p in s.closed <==> exists i :: 0 <= i < |a.closed| && a.closed[i] == p && vs.closed[i] == Said("include"))
  {
    var k := |a.likely|;
    var v1, v2 := vs.open[..k], vs.open[k..];
    DistinctConcat(a.likely + a.possible, a.closed);
    DistinctConcat(a.likely, a.possible);
    PickedSpec(a.likely, v1, "keep");
    PickedSpec(a.likely, v1, "downgrade");
    PickedSpec(a.possible, v2, "keep");
    PickedSpec(a.closed, vs.closed, "include");
    PartsAreSafe(cs, a, v1, Picked(a.likely, v1, "keep"), Picked(a.likely, v1, "downgrade"),
                 Picked(a.possible, v2, "keep"), Picked(a.closed, vs.closed, "include"));
    assert forall i :: 0 <= i < k ==> v1[i] == vs.open[i];
    assert forall i :: 0 <= i < |a.possible| ==> v2[i] == vs.open[k + i];
  }

  /** The buckets that the picked parts make up are safe. */
  lemma PartsAreSafe(cs: seq<Candidate>, a: Analysis, vs: seq<Verdict>,
                     kept: seq<Proposal>, down: seq<Proposal>, possible: seq<Proposal>, closed: seq<Proposal>)
    requires Safe(cs, a) && |vs| == |a.likely|
    requires DistinctKeys(kept) && DistinctKeys(down) && DistinctKeys(possible) && DistinctKeys(closed)
    requires forall p :: p in kept <==> exists i :: 0 <= i < |a.likely| && a.likely[i] == p && vs[i] == Said("keep")
    requires forall p :: p in down <==> exists i :: 0 <= i < |a.likely| && a.likely[i] == p && vs[i] == Said("downgrade")
    requires forall p :: p in possible ==> p in a.possible
    requires forall p :: p in closed ==> p in a.closed
    ensures Safe(cs, Analysis(kept, down + possible, closed))
  {
    DistinctConcat(a.likely + a.possible, a.closed);
    DistinctConcat(a.likely, a.possible);
    KeptAndDownApart(a.likely, vs, kept, down);
    SoundPart(cs, "open", a.likely, kept);
    SoundPart(cs, "open", a.likely, down);
    SoundPart(cs, "open", a.possible, possible);
    SoundPart(cs, "closed", a.closed, closed);
    UnionKeys(a.likely, a.possible);
    UnionKeys(down, possible);
    DistinctConcat(down, possible);
    UnionKeys(kept, down + possible);
    DistinctConcat(kept, down + possible);
    DistinctConcat(kept + (down + possible), closed);
  }

  lemma UnionKeys(x: seq<Proposal>, y: seq<Proposal>)
    ensures Keys(x + y) == Keys(x) + Keys(y)
  {
  }

  lemma KeptAndDownApart(likely: seq<Proposal>, vs: seq<Verdict>, kept: seq<Proposal>, down: seq<Proposal>)
    requires DistinctKeys(likely) && |vs| == |likely|
    requires forall p :: p in kept <==> exists i :: 0 <= i < |likely| && likely[i] == p && vs[i] == Said("keep")
    requires forall p :: p in down <==> exists i :: 0 <= i < |likely| && likely[i] == p && vs[i] == Said("downgrade")
    ensures Keys(kept) !! Keys(down)
  {
  }

  /** A key that no likely reply soundly names never ends up among the likely matches: nothing is promoted. */
  lemma NeverPromoted(cs: seq<Candidate>, rs: Replies, vs: Verdicts, key: string)
    requires Answers(vs, Analyze(cs, rs))
    requires forall r :: r in rs.likely ==> !SoundReply(cs, "open", r, key)
    ensures key !in Keys(Surviving(Analyze(cs, rs), vs).likely)
  {
    SurvivorsAreSafe(cs, rs, vs);
    BucketsAreComplete(cs, rs, key);
    AnalysisIsSafe(cs, rs);
    var a, s := Analyze(cs, rs), Surviving(Analyze(cs, rs), vs);
    SoundPart(cs, "open", a.likely, s.likely);
  }

  // ----- the comment made of what survives

  /** The matches as the comment shows them. */
  function Posted(ps: seq<Proposal>): (ms: seq<BotComment.Match>)
    ensures |ms| == |ps|
  {
    if ps == [] then []
    else
      var last := ps[|ps| - 1];
      Posted(ps[..|ps| - 1]) + [BotComment.Match(last.candidate.about, last.reply.explanation, last.reply.rootCause)]
  }

  /** An issue's key is made from its number. */
  predicate KeyedByNumber(cs: seq<Candidate>) {
    forall c :: c in cs && c.about.kind == BotComment.Issue ==> c.key == "issue:" + Digits(c.about.number)
  }

  predicate NoRepeats(ns: seq<nat>) {
    forall i, j :: 0 <= i < j < |ns| ==> ns[i] != ns[j]
  }

  lemma {:induction false} PostedNumbers(cs: seq<Candidate>, ps: seq<Proposal>)
    requires KeyedByNumber(cs) && DistinctKeys(ps) && forall p :: p in ps ==> p.candidate in cs
    ensures var ns := BotCommentRoundTrip.Flat(BotCommentRoundTrip.Number, Posted(ps));
            && NoRepeats(ns)
            && forall n :: n in ns <==> exists p :: p in ps && p.candidate.about.kind == BotComment.Issue && p.candidate.about.number == n
  {
    if ps != [] {
      var init, last := ps[..|ps| - 1], ps[|ps| - 1];
      assert ps == init + [last];
      PostedNumbers(cs, init);
      var ns := BotCommentRoundTrip.Flat(BotCommentRoundTrip.Number, Posted(init));
      assert Posted(ps)[..|ps| - 1] == Posted(init);
      forall p | p in init && p.candidate.about.kind == last.candidate.about.kind == BotComment.Issue
        ensures p.candidate.about.number != last.candidate.about.number
      {
        assert p.candidate.key != last.candidate.key && p in ps && last in ps;
      }
      if last.candidate.about.kind == BotComment.Issue {
        assert last.candidate.about.number !in ns;
        assert BotCommentRoundTrip.Flat(BotCommentRoundTrip.Number, Posted(ps)) == ns + [last.candidate.about.number];
      }
    }
  }

  lemma {:induction false} FlatConcat(x: seq<BotComment.Match>, y: seq<BotComment.Match>)
    ensures BotCommentRoundTrip.Flat(BotCommentRoundTrip.Number, x + y)
         == BotCommentRoundTrip.Flat(BotCommentRoundTrip.Number, x) + BotCommentRoundTrip.Flat(BotCommentRoundTrip.Number, y)
  {
    if y == [] {
      assert x + y == x;
    } else {
      var n := |y| - 1;
      assert (x + y)[..|x| + n] == x + y[..n] && (x + y)[|x| + n] == y[n];
      FlatConcat(x, y[..n]);
    }
  }

  lemma {:induction false} PostedConcat(x: seq<Proposal>, y: seq<Proposal>)
    ensures Posted(x + y) == Posted(x) + Posted(y)
  {
    if y == [] {
      assert x + y == x;
    } else {
      var n := |y| - 1;
      assert (x + y)[..|x| + n] == x + y[..n] && (x + y)[|x| + n] == y[n];
      PostedConcat(x, y[..n]);
    }
  }

  lemma {:induction false} PostedUrls(ps: seq<Proposal>)
    requires forall p :: p in ps ==> OneLine(p.candidate.about.url)
    ensures BotCommentRoundTrip.UrlsOneLine(Posted(ps))
  {
    if ps != [] {
      PostedUrls(ps[..|ps| - 1]);
    }
  }

  /**
   From the model's replies to the tracker: the numbers read back from the comment are those of surviving issues, no
   number twice, so whatever the model replied each is the number of an offered issue.
   */
  lemma TrackerReadsSurvivors(cs: seq<Candidate>, rs: Replies, vs: Verdicts)
    requires Answers(vs, Analyze(cs, rs)) && KeyedByNumber(cs)
    requires forall c :: c in cs ==> OneLine(c.about.url)
    ensures var s := Surviving(Analyze(cs, rs), vs);
            var likely, possible, closed := Posted(s.likely), Posted(s.possible), Posted(s.closed);
            BotCommentRoundTrip.Quiet(likely, possible, closed) ==>
              var ns := BotComment.SuggestedIssues(BotComment.BuildComment(likely, possible, closed));
              && NoRepeats(ns)
              && forall n :: n in ns <==>
                   exists p :: p in s.likely + s.possible + s.closed
                     && p.candidate.about.kind == BotComment.Issue && p.candidate.about.number == n
  {
    SurvivorsAreSafe(cs, rs, vs);
    SafeCommentNumbers(cs, Surviving(Analyze(cs, rs), vs));
  }

  lemma SafeCommentNumbers(cs: seq<Candidate>, s: Analysis)
    requires KeyedByNumber(cs) && Safe(cs, s)
    requires forall c :: c in cs ==> OneLine(c.about.url)
    ensures var likely, possible, closed := Posted(s.likely), Posted(s.possible), Posted(s.closed);
            BotCommentRoundTrip.Quiet(likely, possible, closed) ==>
              var ns := BotComment.SuggestedIssues(BotComment.BuildComment(likely, possible, closed));
              && NoRepeats(ns)
              && forall n :: n in ns <==>
                   exists p :: p in s.likely + s.possible + s.closed
                     && p.candidate.about.kind == BotComment.Issue && p.candidate.about.number == n
  {
    var likely, possible, closed := Posted(s.likely), Posted(s.possible), Posted(s.closed);
    PostedUrls(s.likely);
    PostedUrls(s.possible);
    PostedUrls(s.closed);
    BotCommentRoundTrip.SuggestedIff(likely, possible, closed);
    BotCommentRoundTrip.FlatOfKind(likely);
    BotCommentRoundTrip.FlatOfKind(possible);
    BotCommentRoundTrip.FlatOfKind(closed);
    FlatConcat(likely, possible);
    FlatConcat(likely + possible, closed);
    PostedConcat(s.likely, s.possible);
    PostedConcat(s.likely + s.possible, s.closed);
    PostedNumbers(cs, s.likely + s.possible + s.closed);
  }

  // ----- the order is kept

  /** What comes first in the part came first in the whole. */
  ghost predicate InOrder(whole: seq<Proposal>, part: seq<Proposal>) {
    forall a, b :: 0 <= a < b < |part| ==> Precedes(whole, part[a], part[b])
  }

  ghost predicate Precedes(whole: seq<Proposal>, p: Proposal, q: Proposal) {
    exists i, j :: 0 <= i < j < |whole| && whole[i] == p && whole[j] == q
  }

  lemma PrecedesLater(whole: seq<Proposal>, more: seq<Proposal>, p: Proposal, q: Proposal)
    requires Precedes(whole, p, q)
    ensures Precedes(whole + more, p, q)
  {
    var i, j :| 0 <= i < j < |whole| && whole[i] == p && whole[j] == q;
    assert (whole + more)[i] == p && (whole + more)[j] == q;
  }

  /** A part in order stays so when the whole grows at the end and the part by that, or not. */
  lemma InOrderNext(whole: seq<Proposal>, part: seq<Proposal>, last: Proposal, taken: bool)
    requires InOrder(whole, part) && forall p :: p in part ==> p in whole
    ensures InOrder(whole + [last], part + if taken then [last] else [])
  {
    var w, r := whole + [last], part + if taken then [last] else [];
    forall a, b | 0 <= a < b < |r| ensures Precedes(w, r[a], r[b]) {
      if b < |part| {
        PrecedesLater(whole, [last], part[a], part[b]);
      } else {
        assert part[a] in whole;
        var i: int :| 0 <= i < |whole| && whole[i] == part[a];
        assert w[i] == part[a] && w[|whole|] == last;
      }
    }
  }

  lemma {:induction false} PickedInOrder(ps: seq<Proposal>, vs: seq<Verdict>, want: string)
    requires |ps| == |vs|
    ensures InOrder(ps, Picked(ps, vs, want)) && forall p :: p in Picked(ps, vs, want) ==> p in ps
  {
    if ps != [] {
      var n := |ps| - 1;
      PickedInOrder(ps[..n], vs[..n], want);
      assert ps == ps[..n] + [ps[n]];
      InOrderNext(ps[..n], Picked(ps[..n], vs[..n], want), ps[n], vs[n] == Said(want));
    }
  }

  lemma {:induction false} WithoutInOrder(ps: seq<Proposal>, keys: set<string>)
    ensures InOrder(ps, Without(ps, keys)) && forall p :: p in Without(ps, keys) ==> p in ps
  {
    if ps != [] {
      var n := |ps| - 1;
      WithoutInOrder(ps[..n], keys);
      assert ps == ps[..n] + [ps[n]];
      InOrderNext(ps[..n], Without(ps[..n], keys), ps[n], ps[n].candidate.key !in keys);
    }
  }

  /** The replies that got through are in the order of the replies. */
  lemma {:induction false} ResolveInOrder(byKey: map<string, Candidate>, state: string, rs: seq<Reply>, a: nat, b: nat)
      returns (i: nat, j: nat)
    requires a < b < |Resolve(byKey, state, rs)|
    ensures i < j < |rs| && rs[i] == Resolve(byKey, state, rs)[a].reply && rs[j] == Resolve(byKey, state, rs)[b].reply
  {
    var n := |rs| - 1;
    var init := Resolve(byKey, state, rs[..n]);
    if b < |init| {
      i, j := ResolveInOrder(byKey, state, rs[..n], a, b);
    } else {
      i := PlaceOfReply(byKey, state, rs[..n], a);
      j := n;
    }
  }

  lemma {:induction false} PlaceOfReply(byKey: map<string, Candidate>, state: string, rs: seq<Reply>, a: nat) returns (i: nat)
    requires a < |Resolve(byKey, state, rs)|
    ensures i < |rs| && rs[i] == Resolve(byKey, state, rs)[a].reply
  {
    var n := |rs| - 1;
    if a < |Resolve(byKey, state, rs[..n])| {
      i := PlaceOfReply(byKey, state, rs[..n], a);
    } else {
      i := n;
    }
  }
}
