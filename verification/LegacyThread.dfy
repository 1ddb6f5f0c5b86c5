/** Upgrading a v0.1.0 thread: tool results move from the user message that carried them to the message before it. */
module LegacyThread {

  datatype Role = User | Assistant | System

  /** `rest` stands for the parts of a message that the upgrade does not look at. */
  datatype Message<R, T> = Message(id: nat, role: Role, toolResults: seq<T>, rest: R)

  /** A user message that carries tool results; it is absorbed unless it comes first. */
  predicate Carrier<R, T>(m: Message<R, T>) {
    m.role == User && m.toolResults != []
  }

  function Step<R, T>(out: seq<Message<R, T>>, m: Message<R, T>): seq<Message<R, T>> {
    if Carrier(m) && out != [] then out[|out| - 1 := out[|out| - 1].(toolResults := m.toolResults)] else out + [m]
  }

  /** The messages after upgrading the first `k`. */
  function UpgradeFirst<R, T>(ms: seq<Message<R, T>>, k: nat): seq<Message<R, T>>
    requires k <= |ms|
  {
    if k == 0 then [] else Step(UpgradeFirst(ms, k - 1), ms[k - 1])
  }

  function Upgraded<R, T>(ms: seq<Message<R, T>>): seq<Message<R, T>> {
    UpgradeFirst(ms, |ms|)
  }

  /** SerializedThreadV0_1_0::upgrade, on the messages. */
  method Upgrade<R, T>(ms: seq<Message<R, T>>) returns (out: seq<Message<R, T>>)
    ensures out == Upgraded(ms)
  {
    out := [];
    for k := 0 to |ms|
      invariant out == UpgradeFirst(ms, k)
    {
      if ms[k].role == User && |ms[k].toolResults| > 0 && |out| > 0 {
        var last := |out| - 1;
        out := out[last := out[last].(toolResults := ms[k].toolResults)];
      } else {
        out := out + [ms[k]];
      }
    }
  }

  // ----- what is kept

  function Results<R, T>(ms: seq<Message<R, T>>): seq<T> {
    if ms == [] then [] else Results(ms[..|ms| - 1]) + ms[|ms| - 1].toolResults
  }

  /** The messages that stay, as they were but for their tool results: all but the carriers after the first message. */
  function Kept<R, T>(ms: seq<Message<R, T>>, k: nat): seq<(nat, Role, R)>
    requires k <= |ms|
  {
    if k == 0 then []
    else
      var m := ms[k - 1];
      Kept(ms, k - 1) + if Carrier(m) && k > 1 then [] else [(m.id, m.role, m.rest)]
  }

  function Outline<R, T>(ms: seq<Message<R, T>>): (r: seq<(nat, Role, R)>)
    ensures |r| == |ms| && forall i :: 0 <= i < |ms| ==> r[i] == (ms[i].id, ms[i].role, ms[i].rest)
  {
    seq(|ms|, i requires 0 <= i < |ms| => (ms[i].id, ms[i].role, ms[i].rest))
  }

  /** No message is reordered, and none but the absorbed carriers is dropped. */
  lemma {:induction false} OutlineKept<R, T>(ms: seq<Message<R, T>>, k: nat)
    requires k <= |ms|
    ensures Outline(UpgradeFirst(ms, k)) == Kept(ms, k)
    ensures k > 0 ==> UpgradeFirst(ms, k) != []
  {
    if k > 0 {
      OutlineKept(ms, k - 1);
      var out, m := UpgradeFirst(ms, k - 1), ms[k - 1];
      if Carrier(m) && out != [] {
        assert Outline(Step(out, m)) == Outline(out);
      } else {
        assert Outline(Step(out, m)) == Outline(out) + [(m.id, m.role, m.rest)];
      }
    }
  }

  /** The last upgraded message holds the results of the last message read, whether that was absorbed or not. */
  lemma {:induction false} LastHoldsResults<R, T>(ms: seq<Message<R, T>>, k: nat)
    requires 0 < k <= |ms|
    ensures UpgradeFirst(ms, k) != []
    ensures var out := UpgradeFirst(ms, k); out[|out| - 1].toolResults == ms[k - 1].toolResults
  {
    OutlineKept(ms, k);
  }

  /** A carrier that directly follows a message with results overwrites them. */
  predicate Overwrites<R, T>(ms: seq<Message<R, T>>, i: nat)
    requires i < |ms|
  {
    i > 0 && Carrier(ms[i]) && ms[i - 1].toolResults != []
  }

  lemma StepResults<R, T>(out: seq<Message<R, T>>, m: Message<R, T>)
    ensures |Results(Step(out, m))| <= |Results(out)| + |m.toolResults|
    ensures out != [] && Carrier(m) && out[|out| - 1].toolResults != [] ==>
              |Results(Step(out, m))| < |Results(out)| + |m.toolResults|
    ensures !(out != [] && Carrier(m) && out[|out| - 1].toolResults != []) ==>
              Results(Step(out, m)) == Results(out) + m.toolResults
  {
    var next := Step(out, m);
    if Carrier(m) && out != [] {
      assert next[..|next| - 1] == out[..|out| - 1];
      if out[|out| - 1].toolResults == [] {
        assert Results(out) == Results(out[..|out| - 1]);
      }
    } else {
      assert next[..|next| - 1] == out;
    }
  }

  lemma ResultsNext<R, T>(ms: seq<Message<R, T>>, k: nat)
    requires 0 < k <= |ms|
    ensures Results(ms[..k]) == Results(ms[..k - 1]) + ms[k - 1].toolResults
  {
    assert ms[..k][..k - 1] == ms[..k - 1];
  }

  /** One more message conserves its results, unless it overwrites the results of the message before it. */
  lemma NextResults<R, T>(ms: seq<Message<R, T>>, k: nat)
    requires 0 < k <= |ms|
    ensures var before, after := Results(UpgradeFirst(ms, k - 1)), Results(UpgradeFirst(ms, k));
            if Overwrites(ms, k - 1) then |after| < |before| + |ms[k - 1].toolResults|
            else after == before + ms[k - 1].toolResults
  {
    StepResults(UpgradeFirst(ms, k - 1), ms[k - 1]);
    if k > 1 {
      LastHoldsResults(ms, k - 1);
    }
  }

  /** How many results the first `k` messages have, before and after the upgrade. */
  function CountBefore<R, T>(ms: seq<Message<R, T>>, k: nat): nat
    requires k <= |ms|
  {
    |Results(ms[..k])|
  }

  function CountAfter<R, T>(ms: seq<Message<R, T>>, k: nat): nat
    requires k <= |ms|
  {
    |Results(UpgradeFirst(ms, k))|
  }

  lemma NextCounts<R, T>(ms: seq<Message<R, T>>, k: nat, surplus: int)
    requires 0 < k <= |ms| && surplus == CountBefore(ms, k - 1) - CountAfter(ms, k - 1)
    ensures if Overwrites(ms, k - 1) then CountBefore(ms, k) - CountAfter(ms, k) > surplus
            else CountBefore(ms, k) - CountAfter(ms, k) == surplus
  {
    NextResults(ms, k);
    ResultsNext(ms, k);
  }

  lemma {:induction false} Surplus<R, T>(ms: seq<Message<R, T>>, k: nat) returns (surplus: int)
    requires k <= |ms|
    ensures surplus == CountBefore(ms, k) - CountAfter(ms, k) && surplus >= 0
    ensures forall i :: 0 <= i < k && Overwrites(ms, i) ==> surplus > 0
  {
    hide Results;
    surplus := CountBefore(ms, k) - CountAfter(ms, k);
    if k == 0 {
      assert ms[..0] == [];
    } else {
      var before := Surplus(ms, k - 1);
      NextCounts(ms, k, before);
      forall i | 0 <= i < k && Overwrites(ms, i) ensures surplus > 0 {
        if i == k - 1 {
          assert surplus > before;
        }
      }
    }
  }

  lemma {:induction false} ResultsKept<R, T>(ms: seq<Message<R, T>>, k: nat)
    requires k <= |ms| && forall i :: 0 <= i < k ==> !Overwrites(ms, i)
    ensures Results(UpgradeFirst(ms, k)) == Results(ms[..k])
  {
    if k > 0 {
      ResultsKept(ms, k - 1);
      NextResults(ms, k);
      ResultsNext(ms, k);
    }
  }

  /** All tool results are kept, in order, exactly when no carrier directly follows a message with results. */
  lemma ResultsConservedIff<R, T>(ms: seq<Message<R, T>>)
    ensures Results(Upgraded(ms)) == Results(ms) <==> forall i :: 0 <= i < |ms| ==> !Overwrites(ms, i)
  {
    assert ms[..|ms|] == ms;
    var surplus := Surplus(ms, |ms|);
    if forall i :: 0 <= i < |ms| ==> !Overwrites(ms, i) {
      ResultsKept(ms, |ms|);
    }
  }

  // ----- upgrading again

  /** A carrier that follows a plain user message (other than the first message): that message becomes a carrier. */
  predicate Stray<R, T>(ms: seq<Message<R, T>>, i: nat)
    requires i < |ms|
  {
    i > 1 && Carrier(ms[i]) && ms[i - 1].role == User && ms[i - 1].toolResults == []
  }

  ghost predicate CarrierLeft<R, T>(out: seq<Message<R, T>>) {
    exists j :: 0 < j < |out| && Carrier(out[j])
  }

  lemma {:induction false} CarrierLeftFirst<R, T>(ms: seq<Message<R, T>>, k: nat)
    requires k <= |ms|
    ensures var out := UpgradeFirst(ms, k);
            && (k > 0 ==> out != [])
            && (CarrierLeft(out) <==> exists i :: 0 <= i < k && Stray(ms, i))
            && (k > 0 && !CarrierLeft(out) ==>
                  (|out| > 1 && out[|out| - 1].role == User <==> k > 1 && ms[k - 1].role == User && ms[k - 1].toolResults == []))
  {
    if k > 0 {
      CarrierLeftFirst(ms, k - 1);
      var before, m, out := UpgradeFirst(ms, k - 1), ms[k - 1], UpgradeFirst(ms, k);
      if before != [] && Carrier(m) {
        var l := |before| - 1;
        assert forall j :: 0 <= j < l ==> out[j] == before[j];
        assert Carrier(out[l]) <==> before[l].role == User;
        if CarrierLeft(before) {
          var j :| 0 < j < |before| && Carrier(before[j]);
          assert Carrier(out[j]);
        }
        assert CarrierLeft(out) ==> CarrierLeft(before) || (l > 0 && before[l].role == User);
        assert Stray(ms, k - 1) <==> k > 2 && ms[k - 2].role == User && ms[k - 2].toolResults == [];
      } else {
        assert forall j :: 0 <= j < |before| ==> out[j] == before[j];
        assert out[|before|] == m;
        if CarrierLeft(before) {
          var j :| 0 < j < |before| && Carrier(before[j]);
          assert Carrier(out[j]);
        }
        assert !Stray(ms, k - 1);
      }
    }
  }

  /** A tool-bearing user message is left after the first position exactly when there was a stray carrier. */
  lemma CarrierLeftIff<R, T>(ms: seq<Message<R, T>>)
    ensures CarrierLeft(Upgraded(ms)) <==> exists i :: 0 <= i < |ms| && Stray(ms, i)
  {
    CarrierLeftFirst(ms, |ms|);
  }

  lemma {:induction false} NothingToDo<R, T>(ms: seq<Message<R, T>>, k: nat)
    requires k <= |ms| && !CarrierLeft(ms)
    ensures UpgradeFirst(ms, k) == ms[..k]
  {
    if k > 0 {
      NothingToDo(ms, k - 1);
      assert ms[..k] == ms[..k - 1] + [ms[k - 1]];
      assert k == 1 || !Carrier(ms[k - 1]);
    }
  }

  lemma {:induction false} UpgradeShrinks<R, T>(ms: seq<Message<R, T>>, k: nat)
    requires k <= |ms|
    ensures |UpgradeFirst(ms, k)| <= k && (k > 0 ==> UpgradeFirst(ms, k) != [])
    ensures (exists j :: 0 < j < k && Carrier(ms[j])) ==> |UpgradeFirst(ms, k)| < k
  {
    if k > 0 {
      UpgradeShrinks(ms, k - 1);
    }
  }

  /** Upgrading again changes nothing, exactly when there was no stray carrier. */
  lemma IdempotentIff<R, T>(ms: seq<Message<R, T>>)
    ensures Upgraded(Upgraded(ms)) == Upgraded(ms) <==> forall i :: 0 <= i < |ms| ==> !Stray(ms, i)
  {
    CarrierLeftIff(ms);
    var out := Upgraded(ms);
    if CarrierLeft(out) {
      UpgradeShrinks(out, |out|);
    } else {
      NothingToDo(out, |out|);
      assert out[..|out|] == out;
    }
  }

  /** Two carriers in a row: the results of the first are gone. */
  lemma ResultsCanBeLost<R, T>(first: Message<R, T>, one: Message<R, T>, two: Message<R, T>)
    requires Carrier(one) && Carrier(two)
    ensures Results(Upgraded([first, one, two])) != Results([first, one, two])
  {
    assert Overwrites([first, one, two], 2);
    ResultsConservedIff([first, one, two]);
  }

  // ----- which messages go

  /** How many messages after the first are user messages with tool results, among the first `k`. */
  function AbsorbedCount<R, T>(ms: seq<Message<R, T>>, k: nat): nat
    requires k <= |ms|
  {
    if k <= 1 then 0
    else AbsorbedCount(ms, k - 1) + if ms[k - 1].role == User && |ms[k - 1].toolResults| > 0 then 1 else 0
  }

  /** Exactly the user messages with tool results after the first message go; all others stay. */
  lemma {:induction false} LengthIs<R, T>(ms: seq<Message<R, T>>, k: nat)
    requires k <= |ms|
    ensures |UpgradeFirst(ms, k)| == k - AbsorbedCount(ms, k)
    ensures k > 0 ==> UpgradeFirst(ms, k) != []
  {
    if k > 0 {
      LengthIs(ms, k - 1);
    }
  }

  lemma {:induction false} NothingAbsorbed<R, T>(ms: seq<Message<R, T>>, k: nat)
    requires k <= |ms| && forall i :: 0 < i < k ==> !(ms[i].role == User && ms[i].toolResults != [])
    ensures UpgradeFirst(ms, k) == ms[..k]
  {
    if k > 0 {
      NothingAbsorbed(ms, k - 1);
      assert ms[..k] == ms[..k - 1] + [ms[k - 1]];
    }
  }

  lemma {:induction false} SomeAbsorbed<R, T>(ms: seq<Message<R, T>>, k: nat, i: nat)
    requires 0 < i < k <= |ms| && ms[i].role == User && ms[i].toolResults != []
    ensures AbsorbedCount(ms, k) > 0
  {
    if i < k - 1 {
      SomeAbsorbed(ms, k - 1, i);
    }
  }

  /** The upgrade changes nothing exactly when there is no user message with tool results after the first message. */
  lemma UnchangedIff<R, T>(ms: seq<Message<R, T>>)
    ensures Upgraded(ms) == ms <==> forall i :: 0 < i < |ms| ==> !(ms[i].role == User && ms[i].toolResults != [])
  {
    if forall i :: 0 < i < |ms| ==> !(ms[i].role == User && ms[i].toolResults != []) {
      NothingAbsorbed(ms, |ms|);
      assert ms[..|ms|] == ms;
    } else {
      var i :| 0 < i < |ms| && ms[i].role == User && ms[i].toolResults != [];
      SomeAbsorbed(ms, |ms|, i);
      LengthIs(ms, |ms|);
    }
  }
}
