/** Positional notation: big-endian numerals in any base, and little-endian byte strings. */
module Positional {
  import opened Prelude

  predicate AreDigits(ds: seq<nat>, b: nat) {
    forall i :: 0 <= i < |ds| ==> ds[i] < b
  }

  /** The number written by `ds` in base `b`, most significant digit first. */
  function Value(ds: seq<nat>, b: nat): nat {
    if ds == [] then 0
    else MulNonNeg(Value(ds[..|ds| - 1], b), b); Value(ds[..|ds| - 1], b) * b + ds[|ds| - 1]
  }

  /** The last `len` base-`b` digits of `n`. */
  function Digits(n: nat, len: nat, b: nat): (ds: seq<nat>)
    requires b >= 2
    ensures |ds| == len && AreDigits(ds, b)
  {
    if len == 0 then [] else Digits(n / b, len - 1, b) + [n % b]
  }

  /** The base-`b` numeral of `n` without leading zeros (empty for zero). */
  function Numeral(n: nat, b: nat): (ds: seq<nat>)
    requires b >= 2
    ensures AreDigits(ds, b)
    ensures ds != [] ==> ds[0] > 0
    decreases n
  {
    if n == 0 then [] else DivSmaller(n, b); Numeral(n / b, b) + [n % b]
  }

  lemma DivSmaller(n: nat, b: nat)
    requires n > 0 && b >= 2
    ensures n / b < n && 0 <= n / b
    ensures n / b == 0 ==> n % b > 0
  {
    var q := n / b;
    assert n == b * q + n % b;
    if q >= n {
      MulMono(q, 2, b);
    }
    if q < 0 {
      MulMono(b, q, -1);
    }
  }

  lemma ValueSnoc(ds: seq<nat>, d: nat, b: nat)
    ensures Value(ds + [d], b) == Value(ds, b) * b + d
  {
    assert (ds + [d])[..|ds|] == ds;
  }

  lemma {:induction false} ValueConcat(xs: seq<nat>, ys: seq<nat>, b: nat)
    ensures Value(xs + ys, b) == Value(xs, b) * Pow(b, |ys|) + Value(ys, b)
  {
    if ys == [] {
      assert xs + ys == xs;
    } else {
      var init, d := ys[..|ys| - 1], ys[|ys| - 1];
      assert xs + ys == (xs + init) + [d] && ys == init + [d];
      ValueSnoc(xs + init, d, b);
      ValueSnoc(init, d, b);
      ValueConcat(xs, init, b);
      ShiftSum(Value(xs, b), Pow(b, |init|), Value(init, b), b);
    }
  }

  lemma ShiftSum(x: int, w: int, y: int, b: int)
    ensures (x * w + y) * b == x * (b * w) + y * b
  {
    MulAssoc(x, w, b);
  }

  lemma {:induction false} ValueBound(ds: seq<nat>, b: nat)
    requires AreDigits(ds, b)
    ensures Value(ds, b) < Pow(b, |ds|)
  {
    if ds != [] {
      var init := ds[..|ds| - 1];
      ValueBound(init, b);
      BoundStep(Value(init, b), ds[|ds| - 1], b, Pow(b, |init|));
    }
  }

  lemma BoundStep(v: nat, d: nat, b: nat, w: int)
    requires v < w && d < b
    ensures v * b + d < b * w
  {
    MulMono(b, v + 1, w);
    assert (v + 1) * b == v * b + b;
  }

  /** A fixed number of digits determines, and is determined by, the number below b^len. */
  lemma {:induction false} DigitsOfValue(ds: seq<nat>, b: nat)
    requires b >= 2 && AreDigits(ds, b)
    ensures Digits(Value(ds, b), |ds|, b) == ds
  {
    if ds != [] {
      var init := ds[..|ds| - 1];
      DivModUnique(Value(ds, b), Value(init, b), ds[|ds| - 1], b);
      DigitsOfValue(init, b);
    }
  }

  lemma {:induction false} ValueOfDigits(n: nat, len: nat, b: nat)
    requires b >= 2 && n < Pow(b, len)
    ensures Value(Digits(n, len, b), b) == n
  {
    if len > 0 {
      var q := QuotientFits(n, b, Pow(b, len - 1));
      ValueOfDigits(q, len - 1, b);
      ValueOfOneMore(n, len, b, q);
    }
  }

  lemma QuotientFits(n: nat, b: nat, w: int) returns (q: nat)
    requires b >= 2 && n < b * w
    ensures q == n / b && q < w
  {
    var r;
    q, r := DivMod(n, b);
    if q >= w { MulMono(b, w, q); }
  }

  lemma ValueOfOneMore(n: nat, len: nat, b: nat, q: nat)
    requires b >= 2 && len > 0 && q == n / b && Value(Digits(q, len - 1, b), b) == q
    ensures Value(Digits(n, len, b), b) == n
  {
    var same, r := DivMod(n, b);
    ValueSnoc(Digits(q, len - 1, b), r, b);
  }

  lemma {:induction false} DigitAt(n: nat, len: nat, b: nat, i: nat)
    requires b >= 2 && i < len
    ensures Pow(b, len - 1 - i) >= 1 && Digits(n, len, b)[i] == n / Pow(b, len - 1 - i) % b
  {
    PowPositive(b, len - 1 - i);
    if i < len - 1 {
      DigitAt(n / b, len - 1, b, i);
      DivDiv(n, b, Pow(b, len - 2 - i));
    }
  }

  lemma DivDiv(n: nat, b: nat, m: nat)
    requires b >= 1 && m >= 1
    ensures b * m >= 1 && n / b / m == n / (b * m)
  {
    MulMono(b, 1, m);
    var q, r := n / b, n % b;
    var h, l := q / m, q % m;
    assert n == q * b + r && q == h * m + l;
    assert (h * m + l) * b == h * (b * m) + l * b;
    MulMono(b, l, m - 1);
    assert b * (m - 1) == b * m - b;
    DivModUnique(n, h, l * b + r, b * m);
  }

  lemma {:induction false} ValueInjective(xs: seq<nat>, ys: seq<nat>, b: nat)
    requires b >= 2 && AreDigits(xs, b) && AreDigits(ys, b)
    requires |xs| == |ys| && Value(xs, b) == Value(ys, b)
    ensures xs == ys
  {
    DigitsOfValue(xs, b);
    DigitsOfValue(ys, b);
  }

  lemma {:induction false} ValueOfNumeral(n: nat, b: nat)
    requires b >= 2
    ensures Value(Numeral(n, b), b) == n
    decreases n
  {
    if n > 0 {
      var q, r := DivMod(n, b);
      DivSmaller(n, b);
      ValueOfNumeral(q, b);
      ValueSnoc(Numeral(q, b), r, b);
    }
  }

  /** A numeral without leading zeros is the numeral of its value. */
  lemma {:induction false} NumeralOfValue(ds: seq<nat>, b: nat)
    requires b >= 2 && AreDigits(ds, b) && (ds != [] ==> ds[0] > 0)
    ensures Numeral(Value(ds, b), b) == ds
    ensures ds != [] ==> Value(ds, b) > 0
  {
    if ds != [] {
      var init := ds[..|ds| - 1];
      NumeralOfValue(init, b);
      if init != [] {
        MulMono(b, 1, Value(init, b));
      }
      DivModUnique(Value(ds, b), Value(init, b), ds[|ds| - 1], b);
    }
  }

  function Zeros(n: nat): Bytes { Repeat(0, n) }

  lemma {:induction false} ValueOfZeros(n: nat, b: nat)
    ensures Value(Zeros(n), b) == 0
  {
    if n > 0 {
      ValueOfZeros(n - 1, b);
      assert Zeros(n) == Zeros(n - 1) + [0];
      ValueSnoc(Zeros(n - 1), 0, b);
    }
  }

  /** Zeros in front of a numeral do not count. */
  lemma ValueZeroPadded(n: nat, ds: seq<nat>, b: nat)
    ensures Value(Zeros(n) + ds, b) == Value(ds, b)
  {
    ValueConcat(Zeros(n), ds, b);
    ValueOfZeros(n, b);
  }

  // ----- byte strings -----

  /** int.from_bytes(b, 'big') */
  function FromBig(b: Bytes): nat { Value(b, 256) }

  /** n.to_bytes(len, 'big'): raises when the number does not fit. */
  function ToBig(n: int, len: nat): (r: Option<Bytes>)
    ensures r.Some? <==> 0 <= n < Pow(256, len)
    ensures r.Some? ==> |r.value| == len && FromBig(r.value) == n
  {
    if 0 <= n < Pow(256, len) then ValueOfDigits(n, len, 256); Some(Digits(n, len, 256)) else None
  }

  lemma SingleByte(b: Byte)
    ensures FromBig([b]) == b
  {
    assert [b][..0] == [] && Value([], 256) == 0;
  }

  lemma ToBigOfFromBig(b: Bytes)
    ensures ToBig(FromBig(b), |b|) == Some(b)
  {
    ValueBound(b, 256);
    DigitsOfValue(b, 256);
  }

  /** bytes.lstrip(b'\x00') */
  function StripZeros(b: Bytes): Bytes {
    if b != [] && b[0] == 0 then StripZeros(b[1..]) else b
  }

  lemma {:induction false} StripIsNumeral(b: Bytes)
    ensures StripZeros(b) == Numeral(FromBig(b), 256)
  {
    if b != [] && b[0] == 0 {
      StripIsNumeral(b[1..]);
      assert b == Zeros(1) + b[1..];
      ValueZeroPadded(1, b[1..], 256);
    } else {
      NumeralOfValue(b, 256);
    }
  }

  lemma {:induction false} StripShorter(b: Bytes)
    ensures |StripZeros(b)| <= |b|
  {
    if b != [] && b[0] == 0 { StripShorter(b[1..]); }
  }

  /** int.from_bytes(b, 'little') */
  function FromLittle(b: Bytes): nat {
    if b == [] then 0 else b[0] + 256 * FromLittle(b[1..])
  }

  function LittleDigits(n: nat, len: nat): (b: Bytes)
    ensures |b| == len
  {
    if len == 0 then [] else [n % 256] + LittleDigits(n / 256, len - 1)
  }

  /** n.to_bytes(len, 'little'): raises when the number does not fit. */
  function ToLittle(n: int, len: nat): (r: Option<Bytes>)
    ensures r.Some? <==> 0 <= n < Pow(256, len)
    ensures r.Some? ==> |r.value| == len
  {
    if 0 <= n < Pow(256, len) then Some(LittleDigits(n, len)) else None
  }

  lemma {:induction false} FromLittleBound(b: Bytes)
    ensures FromLittle(b) < Pow(256, |b|)
  {
    if b != [] {
      FromLittleBound(b[1..]);
    }
  }

  lemma {:induction false} FromLittleOfDigits(n: nat, len: nat)
    requires n < Pow(256, len)
    ensures FromLittle(LittleDigits(n, len)) == n
  {
    if len > 0 {
      FromLittleOfDigits(n / 256, len - 1);
    }
  }

  lemma LowByte(x: Byte, m: nat)
    ensures (x + 256 * m) % 256 == x && (x + 256 * m) / 256 == m
  {
  }

  lemma {:induction false} LittleDigitsOfValue(b: Bytes)
    ensures LittleDigits(FromLittle(b), |b|) == b
  {
    if b != [] {
      LittleDigitsOfValue(b[1..]);
      LowByte(b[0], FromLittle(b[1..]));
      assert b == [b[0]] + b[1..];
    }
  }

  lemma {:induction false} FromLittleConcat(x: Bytes, y: Bytes)
    ensures FromLittle(x + y) == FromLittle(x) + Pow(256, |x|) * FromLittle(y)
  {
    if x == [] {
      assert x + y == y;
    } else {
      assert (x + y)[1..] == x[1..] + y;
      FromLittleConcat(x[1..], y);
      MulAssoc(256, Pow(256, |x| - 1), FromLittle(y));
    }
  }

  /** Reading little-endian is reading the reversed string big-endian. */
  lemma {:induction false} LittleIsReversedBig(b: Bytes)
    ensures FromLittle(b) == FromBig(Reverse(b))
  {
    if b != [] {
      LittleIsReversedBig(b[1..]);
      assert Reverse(b) == Reverse(b[1..]) + [b[0]];
      ValueSnoc(Reverse(b[1..]), b[0], 256);
    }
  }
}
