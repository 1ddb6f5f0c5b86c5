/** Lists of bit-coded elements: written one after the other, read back a given number of times. */
module ListCodec {
  import opened BitString

  /** The code of the first `k` elements. */
  function EncodeFirst<T>(enc: T -> Result<Bits>, xs: seq<T>, k: nat): Result<Bits>
    requires k <= |xs|
  {
    if k == 0 then Ok([])
    else
      var init :- EncodeFirst(enc, xs, k - 1);
      var last :- enc(xs[k - 1]);
      Ok(init + last)
  }

  function EncodeList<T>(enc: T -> Result<Bits>, xs: seq<T>): Result<Bits> {
    EncodeFirst(enc, xs, |xs|)
  }

  /** The first `n` elements from `pos` on, and the position after them. */
  function ReadList<V>(read: (Bits, nat) -> Result<(V, nat)>, bits: Bits, pos: nat, n: nat): Result<(seq<V>, nat)> {
    if n == 0 then Ok(([], pos))
    else
      var init :- ReadList(read, bits, pos, n - 1);
      var last :- read(bits, init.1);
      Ok((init.0 + [last.0], last.1))
  }

  /** The code of the first `k` elements depends on nothing else. */
  lemma {:induction false} EncodeFirstLocal<T>(enc: T -> Result<Bits>, xs: seq<T>, ys: seq<T>, k: nat)
    requires k <= |xs| && k <= |ys| && forall i :: 0 <= i < k ==> xs[i] == ys[i]
    ensures EncodeFirst(enc, xs, k) == EncodeFirst(enc, ys, k)
  {
    if k > 0 {
      EncodeFirstLocal(enc, xs, ys, k - 1);
    }
  }

  lemma {:induction false} EncodeFirstError<T>(enc: T -> Result<Bits>, xs: seq<T>, k: nat, n: nat)
    requires k <= n <= |xs| && EncodeFirst(enc, xs, k).Err?
    ensures EncodeFirst(enc, xs, n) == EncodeFirst(enc, xs, k)
    decreases n
  {
    if k < n {
      EncodeFirstError(enc, xs, k, n - 1);
    }
  }

  lemma {:induction false} ReadListError<V>(
      read: (Bits, nat) -> Result<(V, nat)>, bits: Bits, pos: nat, k: nat, n: nat)
    requires k <= n && ReadList(read, bits, pos, k).Err?
    ensures ReadList(read, bits, pos, n) == ReadList(read, bits, pos, k)
    decreases n
  {
    if k < n {
      ReadListError(read, bits, pos, k, n - 1);
    }
  }

  /** What one more element does to a list that read well so far. */
  lemma ReadListNext<V>(read: (Bits, nat) -> Result<(V, nat)>, bits: Bits, pos: nat, k: nat, n: nat,
                        xs: seq<V>, end: nat, next: Result<(V, nat)>)
    requires k < n && ReadList(read, bits, pos, k) == Ok((xs, end)) && next == read(bits, end)
    ensures next.Ok? ==> ReadList(read, bits, pos, k + 1) == Ok((xs + [next.value.0], next.value.1))
    ensures next.Err? ==> ReadList(read, bits, pos, n) == Err(next.error)
  {
    if next.Err? {
      ReadListError(read, bits, pos, k + 1, n);
    }
  }

  /** Elements that encode make lists that do. */
  lemma {:induction false} EncodeFirstOk<T>(enc: T -> Result<Bits>, xs: seq<T>, k: nat)
    requires k <= |xs| && forall x :: x in xs ==> enc(x).Ok?
    ensures EncodeFirst(enc, xs, k).Ok?
  {
    if k > 0 {
      EncodeFirstOk(enc, xs, k - 1);
    }
  }

  function Map<T, V>(f: T -> V, xs: seq<T>): (ys: seq<V>)
    ensures |ys| == |xs| && forall k :: 0 <= k < |xs| ==> ys[k] == f(xs[k])
  {
    seq(|xs|, k requires 0 <= k < |xs| => f(xs[k]))
  }

  /** `read` undoes `enc` on `x`, wherever in `bits` the code of `x` stands. */
  ghost predicate Inverts<T, V>(
      enc: T -> Result<Bits>, read: (Bits, nat) -> Result<(V, nat)>, val: T -> V, x: T, bits: Bits) {
    enc(x).Ok? ==>
      forall p: nat :: Holds(bits, p, enc(x).value) ==> read(bits, p) == Ok((val(x), p + |enc(x).value|))
  }

  lemma InvertsBy<T, V>(
      enc: T -> Result<Bits>, read: (Bits, nat) -> Result<(V, nat)>, val: T -> V, x: T, bits: Bits,
      code: Result<Bits>, v: V)
    requires enc(x) == code && val(x) == v
    requires code.Ok? ==> forall p: nat :: Holds(bits, p, code.value) ==> read(bits, p) == Ok((v, p + |code.value|))
    ensures Inverts(enc, read, val, x, bits)
  {
  }

  /** An element-wise inverse is an inverse of lists: reading as many elements as were written gives them back. */
  lemma {:induction false} ListRoundTrip<T, V>(
      enc: T -> Result<Bits>, read: (Bits, nat) -> Result<(V, nat)>, val: T -> V,
      xs: seq<T>, bits: Bits, pos: nat, k: nat)
    requires k <= |xs| && forall x :: x in xs ==> Inverts(enc, read, val, x, bits)
    requires EncodeFirst(enc, xs, k).Ok? && Holds(bits, pos, EncodeFirst(enc, xs, k).value)
    ensures ReadList(read, bits, pos, k) == Ok((Map(val, xs)[..k], pos + |EncodeFirst(enc, xs, k).value|))
  {
    if k > 0 {
      var x, y := EncodeFirst(enc, xs, k - 1).value, enc(xs[k - 1]).value;
      HoldsSplit(bits, pos, x, y);
      ListRoundTrip(enc, read, val, xs, bits, pos, k - 1);
      assert Inverts(enc, read, val, xs[k - 1], bits);
      var all := Map(val, xs);
      assert all[..k] == all[..k - 1] + [all[k - 1]];
    }
  }

  /** The same for a whole list and its code. */
  lemma WholeListRoundTrip<T, V>(
      enc: T -> Result<Bits>, read: (Bits, nat) -> Result<(V, nat)>, val: T -> V,
      xs: seq<T>, code: Bits, bits: Bits, pos: nat)
    requires forall x :: x in xs ==> Inverts(enc, read, val, x, bits)
    requires EncodeList(enc, xs) == Ok(code) && Holds(bits, pos, code)
    ensures ReadList(read, bits, pos, |xs|) == Ok((Map(val, xs), pos + |code|))
  {
    ListRoundTrip(enc, read, val, xs, bits, pos, |xs|);
    var all := Map(val, xs);
    assert all[..|xs|] == all;
  }
}
