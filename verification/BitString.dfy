/** Bit strings and the fixed-width integer and boolean field encoders of the TC-string codec. */
module BitString {

  /** A string of '0'/'1' characters; `true` stands for '1'. */
  type Bits = seq<bool>

  datatype CodecError = EncodingError | DecodingError | ModelError

  datatype Result<+T> = Ok(value: T) | Err(error: CodecError) {
    predicate IsFailure() {
      Err?
    }

    function PropagateFailure<U>(): Result<U>
      requires Err?
    {
      Err(error)
    }

    function Extract(): T
      requires Ok?
    {
      value
    }
  }

  /** Field widths are positive: every entry of the BitLength table is. */
  type Width = w: int | 1 <= w witness 1

  const MAX_ID_BITS: Width := 16
  const VENDOR_ID_BITS: Width := 16
  const NUM_ENTRIES_BITS: Width := 12
  const NUM_RESTRICTIONS_BITS: Width := 12
  const PURPOSE_ID_BITS: Width := 6
  const RESTRICTION_TYPE_BITS: Width := 2
  const SEGMENT_TYPE_BITS: Width := 3

  function Pow2(n: nat): (r: nat)
    ensures r >= 1
  {
    if n == 0 then 1 else 2 * Pow2(n - 1)
  }

  lemma Pow2Widths()
    ensures Pow2(2) == 4 && Pow2(3) == 8 && Pow2(6) == 64 && Pow2(12) == 4096 && Pow2(16) == 65536
  {
    assert Pow2(6) == 64;
    assert Pow2(10) == 1024;
    assert Pow2(13) == 8192;
    assert Pow2(16) == 65536;
  }

  function Bit(b: bool): nat {
    if b then 1 else 0
  }

  /** The number written in `width` bits from position `from` on, most significant bit first. */
  function Value(bits: Bits, from: nat, width: nat): nat
    requires from + width <= |bits|
  {
    if width == 0 then 0 else 2 * Value(bits, from, width - 1) + Bit(bits[from + width - 1])
  }

  lemma {:induction false} ValueBound(bits: Bits, from: nat, width: nat)
    requires from + width <= |bits|
    ensures Value(bits, from, width) < Pow2(width)
  {
    if width > 0 {
      ValueBound(bits, from, width - 1);
    }
  }

  /** The value depends on nothing but the bits read. */
  lemma {:induction false} ValueLocal(x: Bits, i: nat, y: Bits, j: nat, width: nat)
    requires i + width <= |x| && j + width <= |y| && x[i..i + width] == y[j..j + width]
    ensures Value(x, i, width) == Value(y, j, width)
  {
    if width > 0 {
      var m := width - 1;
      assert x[i..i + m] == x[i..i + width][..m] && y[j..j + m] == y[j..j + width][..m];
      ValueLocal(x, i, y, j, m);
      assert x[i + m] == x[i..i + width][m] && y[j + m] == y[j..j + width][m];
    }
  }

  /** Two strings of one width that denote the same number are the same string. */
  lemma SameHalves(a: nat, b: nat, c: nat, d: nat)
    requires 2 * a + b == 2 * c + d && b <= 1 && d <= 1
    ensures a == c && b == d
  {
  }

  lemma {:induction false} ValueInjective(x: Bits, y: Bits, width: nat)
    requires width <= |x| && width <= |y| && Value(x, 0, width) == Value(y, 0, width)
    ensures x[..width] == y[..width]
  {
    if width > 0 {
      var m := width - 1;
      SameHalves(Value(x, 0, m), Bit(x[m]), Value(y, 0, m), Bit(y[m]));
      ValueInjective(x, y, m);
      assert x[..width] == x[..m] + [x[m]] && y[..width] == y[..m] + [y[m]];
    }
  }

  function Zeros(n: nat): (z: Bits)
    ensures |z| == n
  {
    seq(n, _ => false)
  }

  lemma {:induction false} ValueOfZeros(z: nat, bits: Bits, n: nat)
    requires n <= z
    ensures Value(Zeros(z) + bits, 0, n) == 0
  {
    if n > 0 {
      ValueOfZeros(z, bits, n - 1);
    }
  }

  lemma {:induction false} ValueOfPadded(z: nat, bits: Bits, n: nat)
    requires n <= |bits|
    ensures Value(Zeros(z) + bits, 0, z + n) == Value(bits, 0, n)
  {
    if n > 0 {
      ValueOfPadded(z, bits, n - 1);
    } else {
      ValueOfZeros(z, bits, z);
    }
  }

  /** The shortest binary numeral of `n`, what `n.toString(2)` prints. */
  function ToBinary(n: nat): (b: Bits)
    ensures |b| >= 1
  {
    if n < 2 then [n == 1] else ToBinary(n / 2) + [n % 2 == 1]
  }

  lemma {:induction false} ToBinaryValue(n: nat)
    ensures Value(ToBinary(n), 0, |ToBinary(n)|) == n
  {
    if n >= 2 {
      ToBinaryValue(n / 2);
      var init, all := ToBinary(n / 2), ToBinary(n);
      ValueLocal(init, 0, all, 0, |init|);
    }
  }

  lemma {:induction false} ToBinaryLength(n: nat, width: Width)
    ensures |ToBinary(n)| <= width <==> n < Pow2(width)
    decreases n
  {
    if n >= 2 {
      if width == 1 {
        assert Pow2(1) == 2;
      } else {
        ToBinaryLength(n / 2, width - 1);
      }
    } else {
      assert Pow2(width) == 2 * Pow2(width - 1);
    }
  }

  /** IntEncoder.encode as written: print the numeral, refuse it if it is too long, pad it with zeros. */
  function EncodeNumeral(n: int, width: Width): Result<Bits> {
    if n < 0 || |ToBinary(n)| > width then Err(EncodingError)
    else Ok(Zeros(width - |ToBinary(n)|) + ToBinary(n))
  }

  /** The low `width` bits of `n`. */
  function FixedBits(n: nat, width: nat): (b: Bits)
    ensures |b| == width
  {
    if width == 0 then [] else FixedBits(n / 2, width - 1) + [n % 2 == 1]
  }

  lemma {:induction false} FixedBitsValue(n: nat, width: nat)
    requires n < Pow2(width)
    ensures Value(FixedBits(n, width), 0, width) == n
  {
    if width > 0 {
      FixedBitsValue(n / 2, width - 1);
      ValueLocal(FixedBits(n / 2, width - 1), 0, FixedBits(n, width), 0, width - 1);
    }
  }

  /** IntEncoder.encode: the number in exactly `width` bits, or an error when it does not fit. */
  function EncodeInt(n: int, width: Width): (r: Result<Bits>)
    ensures r.Ok? <==> 0 <= n < Pow2(width)
    ensures r.Ok? ==> |r.value| == width
  {
    if 0 <= n < Pow2(width) then Ok(FixedBits(n, width)) else Err(EncodingError)
  }

  /** Printing, measuring and padding a numeral refuses exactly the numbers that do not fit. */
  lemma EncodeIntAsWritten(n: int, width: Width)
    ensures EncodeNumeral(n, width) == EncodeInt(n, width)
  {
    if n >= 0 {
      ToBinaryLength(n, width);
      if n < Pow2(width) {
        var numeral, fixed := ToBinary(n), FixedBits(n, width);
        var padded := EncodeNumeral(n, width).value;
        ToBinaryValue(n);
        ValueOfPadded(width - |numeral|, numeral, |numeral|);
        FixedBitsValue(n, width);
        ValueInjective(padded, fixed, width);
        assert padded[..width] == padded && fixed[..width] == fixed;
      }
    }
  }

  /** IntEncoder.decode: the string must have exactly the announced width. */
  function DecodeInt(bits: Bits, width: Width): (r: Result<nat>)
    ensures r.Ok? <==> |bits| == width
  {
    if |bits| != width then Err(DecodingError) else Ok(Value(bits, 0, width))
  }

  /** Decoding undoes encoding, for every number that encodes. */
  lemma IntRoundTrip(n: int, width: Width)
    requires EncodeInt(n, width).Ok?
    ensures DecodeInt(EncodeInt(n, width).value, width) == Ok(n)
  {
    FixedBitsValue(n, width);
  }

  /** Encoding undoes decoding: every string of the right width is the encoding of its value. */
  lemma IntCanonical(bits: Bits, width: Width)
    requires |bits| == width
    ensures DecodeInt(bits, width).Ok?
    ensures EncodeInt(DecodeInt(bits, width).value, width) == Ok(bits)
  {
    ValueBound(bits, 0, width);
    var n := Value(bits, 0, width);
    FixedBitsValue(n, width);
    ValueInjective(FixedBits(n, width), bits, width);
    assert FixedBits(n, width)[..width] == FixedBits(n, width) && bits[..width] == bits;
  }

  /** `text.substr(from, count)`: clamped to the end of the string. */
  function Substr(bits: Bits, from: nat, count: nat): Bits {
    if from >= |bits| then []
    else if from + count >= |bits| then bits[from..]
    else bits[from..from + count]
  }

  /** The integer field at `from`; an error when the string ends inside it. */
  function IntAt(bits: Bits, from: nat, width: Width): (r: Result<nat>)
    ensures r.Ok? <==> from + width <= |bits|
  {
    if from + width <= |bits| then Ok(Value(bits, from, width)) else Err(DecodingError)
  }

  /** Reading a field is decoding the clamped substring, as the source spells it. */
  lemma IntAtAsWritten(bits: Bits, from: nat, width: Width)
    ensures IntAt(bits, from, width) == DecodeInt(Substr(bits, from, width), width)
  {
    if from + width <= |bits| {
      var part := Substr(bits, from, width);
      assert part == bits[from..from + width] && part[0..width] == part;
      ValueLocal(bits, from, part, 0, width);
    }
  }

  /** The boolean field at `from`; past the end it reads as false. */
  function BoolAt(bits: Bits, from: nat): bool {
    from < |bits| && bits[from]
  }

  /** `part` is what `bits` holds from position `from` on. */
  predicate Holds(bits: Bits, from: nat, part: Bits) {
    from + |part| <= |bits| && bits[from..from + |part|] == part
  }

  lemma HoldsSplit(bits: Bits, from: nat, x: Bits, y: Bits)
    requires Holds(bits, from, x + y)
    ensures Holds(bits, from, x) && Holds(bits, from + |x|, y)
  {
    var all := bits[from..from + |x + y|];
    assert bits[from..from + |x|] == all[..|x|] == x;
    assert bits[from + |x|..from + |x| + |y|] == all[|x|..] == y;
  }

  /** Reading back a field that was written as an integer. */
  lemma IntAtHolds(bits: Bits, from: nat, width: Width, n: int)
    requires EncodeInt(n, width).Ok? && Holds(bits, from, EncodeInt(n, width).value)
    ensures IntAt(bits, from, width) == Ok(n)
  {
    var part := EncodeInt(n, width).value;
    assert part[0..width] == part;
    ValueLocal(bits, from, part, 0, width);
    IntRoundTrip(n, width);
  }

  lemma BoolAtHolds(bits: Bits, from: nat, b: bool)
    requires Holds(bits, from, [b])
    ensures BoolAt(bits, from) == b
  {
    assert bits[from] == bits[from..from + 1][0];
  }
}
