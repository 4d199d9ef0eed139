/** SEC encoding of curve points and the constants of secp256k1 (Bitcoin/ecc.py: S256Point, S256Field). */
module Sec {
  import opened Prelude
  import opened NumberTheory
  import opened Positional
  import opened Curve
  import opened Ecdsa
  import F = Field

  const P: nat := 0xfffffffffffffffffffffffffffffffffffffffffffffffffffffffefffffc2f
  const GX: nat := 0x79be667ef9dcbbac55a06295ce870b07029bfcdb2dce28d959f2815b16f81798
  const GY: nat := 0x483ada7726a3c4655da4fbfc0e1108a8fd17b448a68554199c47d08ffb10d4b8
  const N: nat := 0xfffffffffffffffffffffffffffffffebaaedce6af48a03bbfd25e8cd0364141
  const SECP256K1 := Curve(P, 0, 7)

  /** b[i:j] */
  function Slice(b: Bytes, i: nat, j: nat): Bytes
    requires i <= j
  {
    if |b| <= i then [] else if |b| <= j then b[i..] else b[i..j]
  }

  /** S256Point.sec; raises for the point at infinity and for coordinates over 32 bytes. */
  function Encode(pt: Point, compressed: bool): Option<Bytes> {
    if pt.Infinity? || ToBig(pt.x, 32).None? then None
    else if compressed then Some([if pt.y % 2 == 0 then 2 else 3] + ToBig(pt.x, 32).value)
    else if ToBig(pt.y, 32).None? then None
    else Some([4] + ToBig(pt.x, 32).value + ToBig(pt.y, 32).value)
  }

  /** The constructor of S256Point on two numbers. */
  function Construct(c: Curve, x: nat, y: nat): Option<Point>
    requires c.Valid()
  {
    if OnCurve(c, Affine(x, y)) then Some(Affine(x, y)) else None
  }

  /** S256Field.sqrt */
  function Sqrt(alpha: nat, p: nat): (beta: nat)
    requires p >= 2
    ensures beta < p
  {
    F.Power(alpha, (p + 1) / 4, p)
  }

  /** The root of the wanted parity; raises when the root is zero, whose partner p - 0 is no residue. */
  function Choose(c: Curve, x: nat, beta: nat, even: bool): Option<Point>
    requires c.Valid() && beta < c.p
  {
    if beta == 0 then None else Construct(c, x, if (beta % 2 == 0) == even then beta else c.p - beta)
  }

  /** x^3 + b */
  function Alpha(c: Curve, x: nat): nat
    requires c.Valid()
  {
    F.Add(F.Power(x, 3, c.p), c.b, c.p)
  }

  function Lift(c: Curve, x: nat, even: bool): Option<Point>
    requires c.Valid()
  {
    Choose(c, x, Sqrt(Alpha(c, x), c.p), even)
  }

  /** S256Point.parse */
  function Parse(c: Curve, bin: Bytes): Option<Point>
    requires c.Valid()
  {
    if bin == [] then None
    else if bin[0] == 4 then Construct(c, FromBig(Slice(bin, 1, 33)), FromBig(Slice(bin, 33, 65)))
    else if FromBig(bin[1..]) >= c.p then None
    else Lift(c, FromBig(bin[1..]), bin[0] == 2)
  }

  /** What the codec needs of the field and the curve; secp256k1 has them if P is prime. */
  ghost predicate Suitable(c: Curve) {
    c.Valid() && Prime(c.p) && c.p % 4 == 3 && 5 <= c.p <= Pow(256, 32) && c.a == 0
  }

  // ----- square roots -----

  /** The candidate root squares back to y^2. */
  lemma CandidateSquares(alpha: nat, y: nat, p: nat)
    requires Prime(p) && p % 4 == 3 && p >= 5 && 0 < y < p && Cong(alpha, y * y, p)
    ensures Cong(Sqrt(alpha, p) * Sqrt(alpha, p), y * y, p)
  {
    var e := (p + 1) / 4;
    var t := Pow(alpha, e);
    var beta := Sqrt(alpha, p);
    DivModUnique(e, 0, e, p - 1);
    CongMod(t, p);
    CongPow(alpha, y * y, e, p);
    assert Pow(y, 2) == y * Pow(y, 1) && Pow(y, 1) == y * Pow(y, 0);
    PowMul(y, 2, e);
    var u := Pow(y, 2 * e);
    CongTrans(beta, t, u, p);
    CongMul(beta, u, beta, u, p);
    PowAdd(y, 2 * e, 2 * e);
    assert 2 * e + 2 * e == (p - 1) + 2;
    PowAdd(y, p - 1, 2);
    SmallNotDivisible(p, y);
    Fermat(p, y);
    CongRefl(y * y, p);
    CongMul(Pow(y, p - 1), 1, y * y, y * y, p);
    CongTrans(beta * beta, u * u, 1 * (y * y), p);
  }

  /** For p = 3 (mod 4), the candidate root of y^2 is y or p - y. */
  lemma SqrtFindsRoot(alpha: nat, y: nat, p: nat)
    requires Prime(p) && p % 4 == 3 && p >= 5 && 0 < y < p && Cong(alpha, y * y, p)
    ensures Sqrt(alpha, p) == y || Sqrt(alpha, p) == p - y
  {
    var beta := Sqrt(alpha, p);
    CandidateSquares(alpha, y, p);
    assert beta * beta - y * y == (beta - y) * (beta + y);
    EuclidPrime(p, beta - y, beta + y);
    if Divides(p, beta - y) {
      CongRemainder(beta, y, p);
    } else {
      Combination(p, beta + y, 1, 0, 0);
      MultipleDivides(p, 1);
      Combination(p, beta + y, 1, p * 1, -1);
      assert Cong(beta, p - y, p);
      CongRemainder(beta, p - y, p);
    }
  }

  lemma CurveSquare(c: Curve, x: nat, y: nat)
    requires c.Valid() && c.p >= 5 && c.a == 0 && x < c.p && y < c.p
    ensures OnCurve(c, Affine(x, y)) <==> Cong(Alpha(c, x), y * y, c.p)
  {
    var p, cube := c.p, F.Power(x, 3, c.p);
    var alpha, e := F.Add(cube, c.b, p), x * x * x + c.b;
    OnCurveEquation(c, x, y);
    assert c.a * x == 0;
    PowerTwoThree(x, p);
    F.AddCong(cube, c.b, p);
    CongRefl(c.b, p);
    CongAdd(cube, x * x * x, c.b, c.b, p);
    CongTrans(alpha, cube + c.b, e, p);
    CongSym(alpha, e, p);
    assert Equation(c, x, y) == y * y - e;
    if Cong(y * y, e, p) {
      CongTrans(y * y, e, alpha, p);
      CongSym(y * y, alpha, p);
    }
    if Cong(alpha, y * y, p) {
      CongTrans(e, alpha, y * y, p);
      CongSym(e, y * y, p);
    }
  }

  lemma OddPrime(p: nat)
    requires p % 4 == 3
    ensures p % 2 == 1
  {
  }

  lemma OtherParity(p: nat, y: nat)
    requires p % 2 == 1 && y <= p
    ensures (p - y) % 2 == 1 - y % 2
  {
  }

  lemma ChooseFinds(c: Curve, x: nat, beta: nat, y: nat)
    requires c.Valid() && c.p % 2 == 1 && OnCurve(c, Affine(x, y)) && y != 0 && (beta == y || beta == c.p - y)
    ensures Choose(c, x, beta, y % 2 == 0) == Some(Affine(x, y))
  {
    OtherParity(c.p, y);
  }

  lemma ChooseSound(c: Curve, x: nat, beta: nat, even: bool)
    requires c.Valid() && c.p % 2 == 1 && beta < c.p && Choose(c, x, beta, even).Some?
    ensures var pt := Choose(c, x, beta, even).value;
      pt.Affine? && pt.x == x && OnCurve(c, pt) && 0 < pt.y < c.p && (pt.y % 2 == 0) == even
  {
    OtherParity(c.p, beta);
  }

  lemma RootFound(c: Curve, x: nat, y: nat)
    requires Suitable(c) && OnCurve(c, Affine(x, y)) && y != 0
    ensures Sqrt(Alpha(c, x), c.p) == y || Sqrt(Alpha(c, x), c.p) == c.p - y
  {
    CurveSquare(c, x, y);
    SqrtFindsRoot(Alpha(c, x), y, c.p);
  }

  /** Lifting an x coordinate finds the point of the wanted parity exactly when there is one with y != 0. */
  lemma LiftFinds(c: Curve, x: nat, y: nat)
    requires Suitable(c) && OnCurve(c, Affine(x, y)) && y != 0
    ensures Lift(c, x, y % 2 == 0) == Some(Affine(x, y))
  {
    RootFound(c, x, y);
    OddPrime(c.p);
    ChooseFinds(c, x, Sqrt(Alpha(c, x), c.p), y);
  }

  lemma LiftZero(c: Curve, x: nat)
    requires Suitable(c) && OnCurve(c, Affine(x, 0))
    ensures Lift(c, x, true) == None
  {
    var p, alpha := c.p, Alpha(c, x);
    CurveSquare(c, x, 0);
    assert 0 * 0 == 0;
    CongRefl(0, p);
    CongRemainder(alpha, 0, p);
    var e := (p + 1) / 4;
    DivModUnique(e, 0, e, p - 1);
    F.PowOfZero(e);
    DivModUnique(0, 0, 0, p);
  }

  lemma LiftSound(c: Curve, x: nat, even: bool)
    requires Suitable(c) && x < c.p && Lift(c, x, even).Some?
    ensures var pt := Lift(c, x, even).value;
      pt.Affine? && pt.x == x && OnCurve(c, pt) && 0 < pt.y < c.p && (pt.y % 2 == 0) == even
  {
    OddPrime(c.p);
    ChooseSound(c, x, Sqrt(Alpha(c, x), c.p), even);
  }

  // ----- round trips -----

  /** Parsing an encoded point gives it back, except for a compressed point with y = 0, on which parse raises. */
  lemma DecodeEncode(c: Curve, pt: Point, compressed: bool)
    requires Suitable(c) && OnCurve(c, pt) && pt.Affine?
    ensures Encode(pt, compressed).Some?
    ensures Parse(c, Encode(pt, compressed).value) == Some(pt) <==> !(compressed && pt.y == 0)
  {
    var xb, yb := ToBig(pt.x, 32).value, ToBig(pt.y, 32).value;
    var bin := Encode(pt, compressed).value;
    if compressed {
      assert bin[1..] == xb;
      if pt.y == 0 {
        LiftZero(c, pt.x);
      } else {
        LiftFinds(c, pt.x, pt.y);
      }
    } else {
      assert Slice(bin, 1, 33) == xb && Slice(bin, 33, 65) == yb;
    }
  }

  /** Whatever parse accepts lies on the curve, and a well-formed encoding is the encoding of its point. Every first
      byte other than 2 and 4 counts as 3. */
  lemma EncodeDecode(c: Curve, bin: Bytes)
    requires Suitable(c) && Parse(c, bin).Some?
    ensures var pt := Parse(c, bin).value;
      && OnCurve(c, pt)
      && (bin[0] == 4 && |bin| == 65 ==> Encode(pt, false) == Some(bin))
      && (bin[0] != 4 && |bin| == 33 ==> Encode(pt, true) == Some([if bin[0] == 2 then 2 else 3] + bin[1..]))
  {
    if bin[0] == 4 {
      if |bin| == 65 {
        Uncompressed(c, bin);
      }
    } else {
      LiftSound(c, FromBig(bin[1..]), bin[0] == 2);
      if |bin| == 33 {
        ToBigOfFromBig(bin[1..]);
      }
    }
  }

  lemma Uncompressed(c: Curve, bin: Bytes)
    requires c.Valid() && |bin| == 65 && bin[0] == 4 && Parse(c, bin).Some?
    ensures Encode(Parse(c, bin).value, false) == Some(bin)
  {
    var xb, yb := Slice(bin, 1, 33), Slice(bin, 33, 65);
    ToBigOfFromBig(xb);
    ToBigOfFromBig(yb);
    assert bin == [4] + xb + yb;
  }

  /** The strings that parse reads as a given point: those with first byte 4 from which the two slices spell its
      coordinates, and those with any other first byte whose rest spells x, if y is not 0 and even exactly for byte 2. */
  lemma ParsesTo(c: Curve, pt: Point, bin: Bytes)
    requires Suitable(c) && OnCurve(c, pt) && pt.Affine?
    ensures Parse(c, bin) == Some(pt) <==>
      bin != []
      && if bin[0] == 4 then FromBig(Slice(bin, 1, 33)) == pt.x && FromBig(Slice(bin, 33, 65)) == pt.y
         else FromBig(bin[1..]) == pt.x && pt.y != 0 && (bin[0] == 2 <==> pt.y % 2 == 0)
  {
    if bin != [] && bin[0] != 4 {
      var x := FromBig(bin[1..]);
      if x == pt.x && pt.y != 0 { LiftFinds(c, pt.x, pt.y); }
      if Parse(c, bin).Some? { LiftSound(c, x, bin[0] == 2); }
    }
  }

  /** So parse accepts more than sec writes: an accepted string is one of the two forms of its point exactly if it has 65
      bytes, the first of them 4, or 33, the first of them 2 or 3. */
  lemma EncodingExactly(c: Curve, bin: Bytes)
    requires Suitable(c) && Parse(c, bin).Some?
    ensures var pt := Parse(c, bin).value;
      Encode(pt, true) == Some(bin) || Encode(pt, false) == Some(bin) <==>
      (|bin| == 65 && bin[0] == 4) || (|bin| == 33 && (bin[0] == 2 || bin[0] == 3))
  {
    EncodeDecode(c, bin);
    if |bin| == 33 && (bin[0] == 2 || bin[0] == 3) {
      assert bin == [bin[0]] + bin[1..];
    }
  }

  /** Zeros in front of x, bytes behind y, and every first byte but 2 and 4 in place of 3 change nothing. */
  lemma ParseTolerates(c: Curve, x: Bytes, k: nat, first: Byte, bin: Bytes, more: Bytes)
    requires c.Valid() && first != 4
    ensures Parse(c, [first] + (Zeros(k) + x)) == Parse(c, [first] + x)
    ensures first != 2 ==> Parse(c, [first] + x) == Parse(c, [3] + x)
    ensures |bin| >= 65 && bin[0] == 4 ==> Parse(c, bin + more) == Parse(c, bin)
  {
    ValueZeroPadded(k, x, 256);
    assert ([first] + (Zeros(k) + x))[1..] == Zeros(k) + x && ([first] + x)[1..] == x && ([3] + x)[1..] == x;
    if |bin| >= 65 {
      assert Slice(bin + more, 1, 33) == Slice(bin, 1, 33) && Slice(bin + more, 33, 65) == Slice(bin, 33, 65);
    }
  }

  /** Over an odd order no public key has y = 0: both forms of every public key read back. */
  lemma PublicKeyReadsBack(d: Domain, secret: int, compressed: bool)
    requires ValidDomain(d) && Suitable(d.c) && d.n > 2
    ensures Encode(PublicKey(d, secret), compressed).Some? <==> secret % d.n != 0
    ensures secret % d.n != 0 ==>
      Parse(d.c, Encode(PublicKey(d, secret), compressed).value) == Some(PublicKey(d, secret))
  {
    PublicKeyShape(d, secret);
    if secret % d.n != 0 {
      DecodeEncode(d.c, PublicKey(d, secret), compressed);
    }
  }

  // ----- secp256k1 -----

  lemma PowerOfTwo256()
    ensures Pow(256, 4) == 0x1_0000_0000
    ensures Pow(256, 32) == 0x1_0000000000000000000000000000000000000000000000000000000000000000
  {
    assert Pow(256, 1) == 256 && Pow(256, 2) == 0x1_0000;
    PowAdd(256, 2, 2);
    PowAdd(256, 4, 4);
    PowAdd(256, 8, 8);
    PowAdd(256, 16, 16);
  }

  lemma GeneratorEquation(c: Curve)
    requires c == SECP256K1
    ensures Divides(c.p, Equation(c, GX, GY))
  {
    var k: int := -0x1b888e01a06e974017a28a5b4da436169761c9730b7aeedf75fc60f6a33cfc7792fe74711f025d590b10e57f1b3a7ce38ffc4c885c515894b45c19c9f413e5e9;
    assert Equation(c, GX, GY) == c.p * k;
    MultipleDivides(c.p, k);
  }

  lemma PrimeIsSuitable(c: Curve)
    requires c == SECP256K1 && Prime(c.p)
    ensures Suitable(c)
  {
    PowerOfTwo256();
  }

  /** The constants of the source satisfy every hypothesis but primality, associativity and the generator's order; the
      order is odd and fits in 32 bytes. */
  lemma Secp256k1(d: Domain)
    requires d == Domain(SECP256K1, Affine(GX, GY), N)
    requires Prime(d.c.p) && Prime(d.n) && Associative(d.c) && Times(d.c, d.n, d.g) == Infinity
    ensures Suitable(d.c) && ValidDomain(d) && 2 < d.n < d.c.p == Pow(256, 32) - Pow(256, 4) - 977
  {
    PowerOfTwo256();
    PrimeIsSuitable(d.c);
    GeneratorEquation(d.c);
    OnCurveEquation(d.c, GX, GY);
  }
}
