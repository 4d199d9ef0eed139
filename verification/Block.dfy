/** Compact targets and retargeting (Bitcoin/block.py). */
module Block {
  import opened Prelude
  import opened Positional
  import opened Stream

  /** What bits_to_target answers: an exponent below 3 makes Python compute with floats. */
  datatype Target = Raised | Inexact | Whole(value: nat)

  function BitsToTarget(bits: Bytes): Target {
    if bits == [] then Raised
    else
      var exponent := bits[|bits| - 1];
      if exponent < 3 then Inexact else TargetOf(FromLittle(bits[..|bits| - 1]), exponent)
  }

  function TargetOf(coefficient: nat, exponent: nat): Target
    requires exponent >= 3
  {
    MulNonNeg(coefficient, Unit(exponent));
    Whole(coefficient * Unit(exponent))
  }

  /** 256 ** (exponent - 3) */
  function Unit(exponent: nat): (u: nat)
    requires exponent >= 3
    ensures u >= 1
  {
    PowPositive(256, exponent - 3);
    Pow(256, exponent - 3)
  }

  /** target_to_bits; raises for zero and for numbers over 32 bytes. */
  function TargetToBits(target: int): Option<Bytes> {
    match ToBig(target, 32)
    case None => None
    case Some(bytes) =>
      var raw := StripZeros(bytes);
      if raw == [] then None
      else if raw[0] > 0x7f then Some(Reverse([0] + Take(raw, 2)) + [ByteOf(|raw| + 1)])
      else Some(Reverse(Take(raw, 3)) + [ByteOf(|raw|)])
  }

  /** An exponent is at most 33. */
  function ByteOf(n: nat): Byte { n % 256 }

  const TWO_WEEKS := 60 * 60 * 24 * 14

  function Clamp(time: int): (t: int)
    ensures TWO_WEEKS / 4 <= t <= TWO_WEEKS * 4
  {
    if time > TWO_WEEKS * 4 then TWO_WEEKS * 4 else if time < TWO_WEEKS / 4 then TWO_WEEKS / 4 else time
  }

  function NewTarget(current: nat, time: int): int {
    current * Clamp(time) / TWO_WEEKS
  }

  /** calculate_new_bits */
  function CalculateNewBits(previous: Bytes, time: int): Option<Bytes> {
    match BitsToTarget(previous)
    case Whole(current) => TargetToBits(NewTarget(current, time))
    case _ => None
  }

  // ----- the compact form of a target -----

  /** The exponent of `t`: the one that leaves a coefficient of 16 to 23 bits. */
  predicate HasExponent(t: nat, e: nat) {
    3 <= e && 0x8000 * Unit(e) <= t < 0x800000 * Unit(e)
  }

  /** The compact form with exponent e keeps the digits of t from the unit up. */
  function Compact(t: nat, e: nat): Bytes
    requires e >= 3
  {
    DivNonNeg(t, Unit(e));
    LittleDigits(t / Unit(e), 3) + [ByteOf(e)]
  }

  lemma DivNonNeg(t: nat, u: nat)
    requires u > 0
    ensures 0 <= t / u && t == t / u * u + t % u && 0 <= t % u < u
  {
  }

  lemma FirstDigits(raw: Bytes, k: nat)
    requires k <= |raw|
    ensures Pow(256, |raw| - k) >= 1 && FromBig(raw) / Pow(256, |raw| - k) == FromBig(raw[..k])
  {
    assert raw == raw[..k] + raw[k..];
    PowPositive(256, |raw| - k);
    ValueConcat(raw[..k], raw[k..], 256);
    ValueBound(raw[k..], 256);
    DivModUnique(FromBig(raw), FromBig(raw[..k]), FromBig(raw[k..]), Pow(256, |raw| - k));
  }

  lemma LeadingValue(a: Byte, b: Byte, c: Byte)
    ensures FromBig([a]) == a && FromBig([a, b]) == a * 256 + b && FromBig([a, b, c]) == (a * 256 + b) * 256 + c
  {
    assert [a][..0] == [] && Value([], 256) == 0;
    assert [a, b][..1] == [a] && [a, b, c][..2] == [a, b];
  }

  /** The three coefficient bytes, reversed, are the little-endian digits of the coefficient. */
  lemma ReversedCoefficient(c: Bytes)
    requires |c| == 3
    ensures Reverse(c) == LittleDigits(FromBig(c), 3)
  {
    LittleIsReversedBig(Reverse(c));
    ReverseTwice(c);
    LittleDigitsOfValue(Reverse(c));
  }

  lemma FromCoefficient(t: nat, e: nat, c: Bytes)
    requires e >= 3 && |c| == 3 && t / Unit(e) == FromBig(c) && 0x8000 <= FromBig(c) < 0x800000
    ensures HasExponent(t, e) && Compact(t, e) == Reverse(c) + [ByteOf(e)]
  {
    ReversedCoefficient(c);
    var u, q := Unit(e), t / Unit(e);
    DivNonNeg(t, u);
    MulMono(u, 0x8000, q);
    MulMono(u, q, 0x7fffff);
  }

  /** The digits of a target of at least 0x8000 and at most 32 bytes. */
  lemma RawDigits(t: nat) returns (raw: Bytes)
    requires 0x8000 <= t < Pow(256, 32)
    ensures ToBig(t, 32).Some? && raw == StripZeros(ToBig(t, 32).value)
    ensures 2 <= |raw| <= 32 && FromBig(raw) == t && raw[0] != 0
    ensures |raw| == 2 ==> raw[0] > 0x7f
  {
    var bytes := ToBig(t, 32).value;
    StripIsNumeral(bytes);
    raw := StripZeros(bytes);
    StripShorter(bytes);
    ValueOfNumeral(t, 256);
    ValueBound(raw, 256);
    assert Pow(256, 0) == 1 && Pow(256, 1) == 256;
    if |raw| == 2 {
      LeadingValue(raw[0], raw[1], 0);
      assert raw == [raw[0], raw[1]];
    }
  }

  /** A target of at least 0x8000 is encoded as the top digits above its unit. */
  lemma CompactForm(t: nat) returns (e: nat)
    requires 0x8000 <= t < Pow(256, 32)
    ensures 3 <= e <= 33 && HasExponent(t, e) && TargetToBits(t) == Some(Compact(t, e))
  {
    var raw := RawDigits(t);
    if raw[0] > 0x7f {
      e := |raw| + 1;
      var c: Bytes := [0, raw[0], raw[1]];
      assert [0] + Take(raw, 2) == c && raw[..2] == [raw[0], raw[1]];
      FirstDigits(raw, 2);
      LeadingValue(raw[0], raw[1], 0);
      LeadingValue(0, raw[0], raw[1]);
      FromCoefficient(t, e, c);
    } else {
      e := |raw|;
      var c := raw[..3];
      assert Take(raw, 3) == c == [raw[0], raw[1], raw[2]];
      FirstDigits(raw, 3);
      LeadingValue(raw[0], raw[1], raw[2]);
      FromCoefficient(t, e, c);
    }
  }

  /** The compact form has four bytes and decodes to the target cut down to a multiple of its unit. */
  lemma DecodeCompact(t: nat, e: nat)
    requires e <= 33 && HasExponent(t, e)
    ensures |Compact(t, e)| == 4 && Compact(t, e)[3] == e && BitsToTarget(Compact(t, e)) == Whole(Cut(t, e))
    ensures FromLittle(Compact(t, e)[..3]) == t / Unit(e)
  {
    var u := Unit(e);
    DivNonNeg(t, u);
    if t / u >= 0x800000 { MulMono(u, 0x800000, t / u); }
    assert Pow(256, 1) == 256 && Pow(256, 2) == 0x10000 && Pow(256, 3) == 0x1000000;
    FromLittleOfDigits(t / u, 3);
    assert Compact(t, e)[..3] == LittleDigits(t / u, 3);
  }

  /** t rounded down to a multiple of the unit. */
  function Cut(t: nat, e: nat): (c: nat)
    requires e >= 3
    ensures c <= t < c + Unit(e)
  {
    DivNonNeg(t, Unit(e));
    MulNonNeg(t / Unit(e), Unit(e));
    t / Unit(e) * Unit(e)
  }

  /** A target is truncated by less than one unit, which is at most a 2^15th of what is left. */
  lemma TruncationBound(t: nat) returns (e: nat, cut: nat)
    requires 0x8000 <= t < Pow(256, 32)
    ensures 3 <= e <= 33 && TargetToBits(t).Some?
    ensures var bits := TargetToBits(t).value; |bits| == 4 && bits[3] == e && BitsToTarget(bits) == Whole(cut)
    ensures cut <= t < cut + Unit(e) && 0x8000 * Unit(e) <= cut && HasExponent(cut, e) && cut == Cut(t, e)
  {
    e := CompactForm(t);
    DecodeCompact(t, e);
    cut := Cut(t, e);
    CutKeepsExponent(t, e);
  }

  lemma CutKeepsExponent(t: nat, e: nat)
    requires HasExponent(t, e)
    ensures HasExponent(Cut(t, e), e) && Cut(Cut(t, e), e) == Cut(t, e)
  {
    var u := Unit(e);
    DivNonNeg(t, u);
    if t / u < 0x8000 { MulMono(u, t / u + 1, 0x8000); }
    MulMono(u, 0x8000, t / u);
    DivModUnique(Cut(t, e), t / u, 0, u);
  }

  lemma ExponentMonotone(t: nat, s: nat, d: nat, e: nat)
    requires t <= s && HasExponent(t, d) && HasExponent(s, e)
    ensures d <= e && (t == s ==> d == e)
  {
    if e < d { UnitGap(s, e, t, d); }
    if t == s && d < e { UnitGap(t, d, s, e); }
  }

  /** A target with a smaller exponent lies below every multiple of 0x8000 larger units. */
  lemma UnitGap(t: nat, d: nat, s: nat, e: nat)
    requires d < e && HasExponent(t, d) && HasExponent(s, e)
    ensures t < 0x8000 * Unit(e) <= s
  {
    PowMono(256, d - 2, e - 3);
    assert Pow(256, d - 2) == 256 * Pow(256, d - 3);
  }

  /** The encoding is monotone. */
  lemma EncodingMonotone(t: nat, s: nat)
    requires 0x8000 <= t <= s < Pow(256, 32)
    ensures TargetToBits(t).Some? && TargetToBits(s).Some?
    ensures var a, b := BitsToTarget(TargetToBits(t).value), BitsToTarget(TargetToBits(s).value);
      a.Whole? && b.Whole? && a.value <= b.value
  {
    var d, a := TruncationBound(t);
    var e, b := TruncationBound(s);
    SameExponent(t, a, d);
    SameExponent(s, b, e);
    CutMonotone(t, s, d, e);
  }

  lemma SameExponent(t: nat, cut: nat, e: nat)
    requires e >= 3 && cut <= t < cut + Unit(e) && HasExponent(cut, e) && cut == Cut(t, e)
    ensures HasExponent(t, e)
  {
    var u := Unit(e);
    var q := t / u;
    DivNonNeg(t, u);
    if q >= 0x800000 { MulMono(u, 0x800000, q); }
    MulMono(u, q + 1, 0x800000);
    assert (q + 1) * u == q * u + u;
  }

  lemma CutMonotone(t: nat, s: nat, d: nat, e: nat)
    requires t <= s && HasExponent(t, d) && HasExponent(s, e)
    ensures Cut(t, d) <= Cut(s, e)
  {
    ExponentMonotone(t, s, d, e);
    if d == e {
      QuotientMonotone(t, s, Unit(e));
    } else {
      UnitGap(t, d, s, e);
      CutKeepsExponent(s, e);
    }
  }

  lemma QuotientMonotone(t: nat, s: nat, u: nat)
    requires u > 0 && t <= s
    ensures t / u * u <= s / u * u
  {
    DivNonNeg(t, u);
    DivNonNeg(s, u);
    if t / u > s / u { MulMono(u, s / u + 1, t / u); }
    MulMono(u, t / u, s / u);
  }

  /** Decoding and encoding again changes nothing. */
  lemma EncodingStable(t: nat)
    requires 0x8000 <= t < Pow(256, 32)
    ensures TargetToBits(t).Some? && BitsToTarget(TargetToBits(t).value).Whole?
    ensures TargetToBits(BitsToTarget(TargetToBits(t).value).value) == TargetToBits(t)
  {
    var e, cut := TruncationBound(t);
    var d := CompactForm(t);
    ExponentMonotone(cut, t, e, d);
    DecodeCompact(t, d);
    assert e == d;
    var f := CompactForm(cut);
    ExponentMonotone(cut, cut, f, e);
    DivModUnique(cut, t / Unit(e), 0, Unit(e));
  }

  /** The 4-byte strings that are the encodings of what they stand for. */
  predicate Canonical(bits: Bytes) {
    |bits| == 4 && bits[3] >= 3 && 0x8000 <= FromLittle(bits[..3]) < 0x800000
    && TargetOf(FromLittle(bits[..3]), bits[3]).value < Pow(256, 32)
  }

  /** Of all strings that stand for an integer, exactly the canonical ones are the encodings of what they stand for. */
  lemma CanonicalExactly(bits: Bytes)
    requires BitsToTarget(bits).Whole?
    ensures TargetToBits(BitsToTarget(bits).value) == Some(bits) <==> Canonical(bits)
  {
    if Canonical(bits) {
      CanonicalEncodes(bits);
    } else if TargetToBits(BitsToTarget(bits).value) == Some(bits) {
      var t := BitsToTarget(bits).value;
      if t < 0x8000 {
        SmallIsInexact(t);
      } else {
        EncodedIsCanonical(t);
      }
    }
  }

  lemma CanonicalEncodes(bits: Bytes)
    requires Canonical(bits)
    ensures BitsToTarget(bits).Whole? && TargetToBits(BitsToTarget(bits).value) == Some(bits)
  {
    var c, e: nat := FromLittle(bits[..3]), bits[3];
    var t := TargetOf(c, e).value;
    MultipleHasExponent(t, c, e);
    EncodesAs(t, e);
    CompactOfMultiple(bits, t, c, e);
  }

  /** The encoding of a target is its compact form for its exponent. */
  lemma EncodesAs(t: nat, e: nat)
    requires 0x8000 <= t < Pow(256, 32) && HasExponent(t, e)
    ensures e <= 33 && TargetToBits(t) == Some(Compact(t, e))
  {
    var f := CompactForm(t);
    ExponentMonotone(t, t, e, f);
  }

  lemma CompactOfMultiple(bits: Bytes, t: nat, c: nat, e: nat)
    requires |bits| == 4 && 3 <= e <= 33 && bits[3] == e && c == FromLittle(bits[..3]) && t / Unit(e) == c
    ensures Compact(t, e) == bits
  {
    LittleDigitsOfValue(bits[..3]);
    assert bits == bits[..3] + [bits[3]];
  }

  lemma MultipleHasExponent(t: nat, c: nat, e: nat)
    requires e >= 3 && 0x8000 <= c < 0x800000 && t == c * Unit(e)
    ensures HasExponent(t, e) && t >= 0x8000 && t / Unit(e) == c
  {
    var u := Unit(e);
    MulMono(u, 0x8000, c);
    MulMono(u, c + 1, 0x800000);
    assert (c + 1) * u == c * u + u;
    MulMono(0x8000, 1, u);
    DivModUnique(t, c, 0, u);
  }

  lemma EncodedIsCanonical(t: nat)
    requires t >= 0x8000 && TargetToBits(t).Some? && BitsToTarget(TargetToBits(t).value) == Whole(t)
    ensures Canonical(TargetToBits(t).value)
  {
    var e := CompactForm(t);
    DecodeCompact(t, e);
    CoefficientRange(t, Unit(e));
  }

  lemma CoefficientRange(t: nat, u: nat)
    requires u > 0 && 0x8000 * u <= t < 0x800000 * u
    ensures 0x8000 <= t / u < 0x800000
  {
    var q := t / u;
    DivNonNeg(t, u);
    if q >= 0x800000 { MulMono(u, 0x800000, q); }
    if q < 0x8000 { MulMono(u, q + 1, 0x8000); }
  }

  /** The encoding of a target below 0x8000 has an exponent below 3. */
  lemma SmallIsInexact(t: nat)
    requires t < 0x8000 && TargetToBits(t).Some?
    ensures BitsToTarget(TargetToBits(t).value).Inexact?
  {
    var raw := ShortRaw(t);
    if raw[0] > 0x7f {
      LastByteSmall(Reverse([0] + Take(raw, 2)), |raw| + 1);
    } else {
      LastByteSmall(Reverse(Take(raw, 3)), |raw|);
    }
  }

  lemma ShortRaw(t: nat) returns (raw: Bytes)
    requires t < 0x8000 && TargetToBits(t).Some?
    ensures ToBig(t, 32).Some? && raw == StripZeros(ToBig(t, 32).value)
    ensures 1 <= |raw| <= 2 && (|raw| == 2 ==> raw[0] <= 0x7f)
  {
    raw := StripZeros(ToBig(t, 32).value);
    StripIsNumeral(ToBig(t, 32).value);
    ValueOfNumeral(t, 256);
    NumeralLength(t, raw);
  }

  lemma LastByteSmall(front: Bytes, e: nat)
    requires e < 3
    ensures BitsToTarget(front + [ByteOf(e)]).Inexact?
  {
  }

  // ----- retargeting -----

  /** calculate_new_bits fails exactly when the old bits are no integer or the new target is zero or too large. */
  lemma NewBitsDefined(previous: Bytes, time: int)
    ensures CalculateNewBits(previous, time).Some? <==>
            BitsToTarget(previous).Whole? && 0 < NewTarget(BitsToTarget(previous).value, time) < Pow(256, 32)
  {
    if BitsToTarget(previous).Whole? {
      var t := NewTarget(BitsToTarget(previous).value, time);
      if 0 <= t < Pow(256, 32) {
        var bytes := ToBig(t, 32).value;
        StripIsNumeral(bytes);
      }
    }
  }

  /** The new target is the old one times the interval, brought between half a week and eight weeks, over two weeks, rounded
      down; and its encoding is the answer. */
  lemma RetargetExactly(previous: Bytes, time: int, t: nat, q: nat)
    requires BitsToTarget(previous).Whole?
    requires if time > 8 * 7 * 24 * 3600 then t == 8 * 7 * 24 * 3600
             else if 2 * time < 7 * 24 * 3600 then 2 * t == 7 * 24 * 3600 else t == time
    requires var c := BitsToTarget(previous).value * t; q * (14 * 24 * 3600) <= c < (q + 1) * (14 * 24 * 3600)
    ensures NewTarget(BitsToTarget(previous).value, time) == q && CalculateNewBits(previous, time) == TargetToBits(q)
  {
    var c := BitsToTarget(previous).value * t;
    assert Clamp(time) == t;
    DivModUnique(c, q, c - q * TWO_WEEKS, TWO_WEEKS);
  }

  lemma NewTargetBounds(current: nat, time: int)
    ensures NewTarget(current, time) <= 4 * current
    ensures current < 4 * (NewTarget(current, time) + 1)
    ensures time == TWO_WEEKS ==> NewTarget(current, time) == current
  {
    var t, w := Clamp(time), TWO_WEEKS;
    var n := current * t / w;
    MulMono(current, t, 4 * w);
    MulMono(current, w / 4, t);
  }

  /** One retargeting multiplies the decoded target by at most four, divides it by at most four up to one unit, and
      leaves canonical bits alone when the blocks took two weeks. */
  lemma RetargetBounds(previous: Bytes, time: int)
    requires BitsToTarget(previous).Whole? && 4 * BitsToTarget(previous).value < Pow(256, 32)
    requires NewTarget(BitsToTarget(previous).value, time) >= 0x8000
    ensures CalculateNewBits(previous, time).Some?
    ensures var (bits, current) := (CalculateNewBits(previous, time).value, BitsToTarget(previous).value);
      && |bits| == 4 && bits[3] >= 3 && BitsToTarget(bits).Whole?
      && BitsToTarget(bits).value <= 4 * current
      && current < 4 * (BitsToTarget(bits).value + Unit(bits[3]))
      && (time == TWO_WEEKS && Canonical(previous) ==> bits == previous)
  {
    var current := BitsToTarget(previous).value;
    NewTargetBounds(current, time);
    var e, cut := TruncationBound(NewTarget(current, time));
    if time == TWO_WEEKS && Canonical(previous) {
      CanonicalEncodes(previous);
    }
  }

  /** More time between blocks never lowers the decoded target. */
  lemma RetargetMonotone(previous: Bytes, time: int, longer: int)
    requires time <= longer && BitsToTarget(previous).Whole?
    requires 4 * BitsToTarget(previous).value < Pow(256, 32)
    requires NewTarget(BitsToTarget(previous).value, time) >= 0x8000
    ensures CalculateNewBits(previous, time).Some? && CalculateNewBits(previous, longer).Some?
    ensures var a := BitsToTarget(CalculateNewBits(previous, time).value);
      var b := BitsToTarget(CalculateNewBits(previous, longer).value);
      a.Whole? && b.Whole? && a.value <= b.value
  {
    var current := BitsToTarget(previous).value;
    MulMono(current, Clamp(time), Clamp(longer));
    NewTargetBounds(current, longer);
    EncodingMonotone(NewTarget(current, time), NewTarget(current, longer));
  }

  lemma LargeHasFour(t: nat)
    requires 0x8000 <= t < Pow(256, 32)
    ensures TargetToBits(t).Some? && |TargetToBits(t).value| == 4
  {
    var e := CompactForm(t);
    DecodeCompact(t, e);
  }

  /** The encoding has its four bytes exactly for targets of at least 0x8000. */
  lemma FourBytesExactly(t: nat)
    requires 0 < t < Pow(256, 32)
    ensures TargetToBits(t).Some? && (|TargetToBits(t).value| == 4 <==> t >= 0x8000)
  {
    if t >= 0x8000 {
      LargeHasFour(t);
    } else {
      var bytes := ToBig(t, 32).value;
      StripIsNumeral(bytes);
      ValueOfNumeral(t, 256);
      NumeralLength(t, StripZeros(bytes));
    }
  }

  lemma NumeralLength(t: nat, raw: Bytes)
    requires 0 < t < 0x8000 && raw != [] && raw[0] > 0 && FromBig(raw) == t
    ensures |raw| <= 2 && (|raw| == 2 ==> raw[0] <= 0x7f)
  {
    var k := |raw| - 1;
    FirstDigits(raw, 1);
    LeadingValue(raw[0], 0, 0);
    assert raw[..1] == [raw[0]];
    assert Pow(256, 1) == 256 && Pow(256, 2) == 0x10000;
    if k >= 2 { PowMono(256, 2, k); }
    DivNonNeg(t, Pow(256, k));
    MulMono(Pow(256, k), 1, raw[0]);
  }
}
