/** `sorted(xs, key=key, reverse=True)`: stable, largest key first. */
module Sorting {

  function InsertDesc<T>(xs: seq<T>, key: T -> int, x: T): seq<T> {
    if xs == [] || key(xs[|xs| - 1]) >= key(x) then xs + [x]
    else InsertDesc(xs[..|xs| - 1], key, x) + [xs[|xs| - 1]]
  }

  function SortDesc<T>(xs: seq<T>, key: T -> int): seq<T> {
    if xs == [] then [] else InsertDesc(SortDesc(xs[..|xs| - 1], key), key, xs[|xs| - 1])
  }

  predicate Descending<T>(xs: seq<T>, key: T -> int) {
    forall i, j :: 0 <= i < j < |xs| ==> key(xs[i]) >= key(xs[j])
  }

  lemma {:induction false} InsertDescSpec<T>(xs: seq<T>, key: T -> int, x: T)
    ensures multiset(InsertDesc(xs, key, x)) == multiset(xs) + multiset{x}
    ensures Descending(xs, key) ==> Descending(InsertDesc(xs, key, x), key)
  {
    if xs != [] && key(xs[|xs| - 1]) < key(x) {
      var init, last := xs[..|xs| - 1], xs[|xs| - 1];
      InsertDescSpec(init, key, x);
      assert xs == init + [last];
      var r := InsertDesc(init, key, x);
      if Descending(xs, key) {
        forall i | 0 <= i < |r| ensures key(r[i]) >= key(last) {
          assert r[i] in multiset(r);
          assert r[i] == x || r[i] in init;
        }
      }
    }
  }

  /** The elements with one key, in their order. */
  function WithKey<T>(xs: seq<T>, key: T -> int, k: int): seq<T> {
    if xs == [] then []
    else WithKey(xs[..|xs| - 1], key, k) + if key(xs[|xs| - 1]) == k then [xs[|xs| - 1]] else []
  }

  lemma WithKeyNext<T>(xs: seq<T>, key: T -> int, k: int, x: T)
    ensures WithKey(xs + [x], key, k) == WithKey(xs, key, k) + if key(x) == k then [x] else []
  {
    assert (xs + [x])[..|xs|] == xs;
  }

  lemma {:induction false} InsertIsStable<T>(xs: seq<T>, key: T -> int, x: T, k: int)
    ensures WithKey(InsertDesc(xs, key, x), key, k) == WithKey(xs, key, k) + if key(x) == k then [x] else []
  {
    if xs == [] || key(xs[|xs| - 1]) >= key(x) {
      WithKeyNext(xs, key, k, x);
    } else {
      var init, last := xs[..|xs| - 1], xs[|xs| - 1];
      InsertIsStable(init, key, x, k);
      WithKeyNext(InsertDesc(init, key, x), key, k, last);
    }
  }

  /** Elements with the same key keep their order. */
  lemma {:induction false} SortIsStable<T>(xs: seq<T>, key: T -> int, k: int)
    ensures WithKey(SortDesc(xs, key), key, k) == WithKey(xs, key, k)
  {
    if xs != [] {
      SortIsStable(xs[..|xs| - 1], key, k);
      InsertIsStable(SortDesc(xs[..|xs| - 1], key), key, xs[|xs| - 1], k);
    }
  }

  /** Two elements of a list that have the key are in the same order in the list of those with the key. */
  lemma {:induction false} IntoWithKey<T>(xs: seq<T>, key: T -> int, k: int, i: nat, j: nat) returns (a: nat, b: nat)
    requires i < j < |xs| && key(xs[i]) == k && key(xs[j]) == k
    ensures a < b < |WithKey(xs, key, k)| && WithKey(xs, key, k)[a] == xs[i] && WithKey(xs, key, k)[b] == xs[j]
  {
    var init := xs[..|xs| - 1];
    if j < |init| {
      a, b := IntoWithKey(init, key, k, i, j);
    } else {
      a := PlaceInWithKey(init, key, k, i);
      b := |WithKey(init, key, k)|;
    }
  }

  lemma {:induction false} PlaceInWithKey<T>(xs: seq<T>, key: T -> int, k: int, i: nat) returns (a: nat)
    requires i < |xs| && key(xs[i]) == k
    ensures a < |WithKey(xs, key, k)| && WithKey(xs, key, k)[a] == xs[i]
  {
    var init := xs[..|xs| - 1];
    if i < |init| {
      a := PlaceInWithKey(init, key, k, i);
    } else {
      a := |WithKey(init, key, k)|;
    }
  }

  lemma {:induction false} PlaceOfWithKey<T>(xs: seq<T>, key: T -> int, k: int, a: nat) returns (i: nat)
    requires a < |WithKey(xs, key, k)|
    ensures i < |xs| && xs[i] == WithKey(xs, key, k)[a]
  {
    var init := xs[..|xs| - 1];
    if a < |WithKey(init, key, k)| {
      i := PlaceOfWithKey(init, key, k, a);
    } else {
      i := |init|;
    }
  }

  lemma {:induction false} OutOfWithKey<T>(xs: seq<T>, key: T -> int, k: int, a: nat, b: nat) returns (i: nat, j: nat)
    requires a < b < |WithKey(xs, key, k)|
    ensures i < j < |xs| && xs[i] == WithKey(xs, key, k)[a] && xs[j] == WithKey(xs, key, k)[b]
  {
    var init := xs[..|xs| - 1];
    if b < |WithKey(init, key, k)| {
      i, j := OutOfWithKey(init, key, k, a, b);
    } else {
      i := PlaceOfWithKey(init, key, k, a);
      j := |init|;
    }
  }

  /** Elements with equal keys come in the order they had before. */
  lemma SortKeepsOrder<T>(xs: seq<T>, key: T -> int, i: nat, j: nat) returns (p: nat, q: nat)
    requires i < j < |SortDesc(xs, key)| && key(SortDesc(xs, key)[i]) == key(SortDesc(xs, key)[j])
    ensures p < q < |xs| && xs[p] == SortDesc(xs, key)[i] && xs[q] == SortDesc(xs, key)[j]
  {
    var k := key(SortDesc(xs, key)[i]);
    SortIsStable(xs, key, k);
    var a, b := IntoWithKey(SortDesc(xs, key), key, k, i, j);
    p, q := OutOfWithKey(xs, key, k, a, b);
  }

  lemma {:induction false} SortDescSpec<T>(xs: seq<T>, key: T -> int)
    ensures multiset(SortDesc(xs, key)) == multiset(xs)
    ensures Descending(SortDesc(xs, key), key)
    ensures forall x :: x in SortDesc(xs, key) <==> x in xs
    ensures |SortDesc(xs, key)| == |xs|
    ensures forall k :: WithKey(SortDesc(xs, key), key, k) == WithKey(xs, key, k)
  {
    if xs != [] {
      var init, last := xs[..|xs| - 1], xs[|xs| - 1];
      SortDescSpec(init, key);
      InsertDescSpec(SortDesc(init, key), key, last);
      assert xs == init + [last];
    }
    forall x ensures x in SortDesc(xs, key) <==> x in xs {
      assert x in SortDesc(xs, key) <==> x in multiset(SortDesc(xs, key));
      assert x in xs <==> x in multiset(xs);
    }
    assert |multiset(SortDesc(xs, key))| == |multiset(xs)|;
    forall k ensures WithKey(SortDesc(xs, key), key, k) == WithKey(xs, key, k) {
      SortIsStable(xs, key, k);
    }
  }
}
