/** A curve on which every hypothesis of the elliptic-curve theorems holds, so that none of them is empty. */
module SmallCurve {
  import opened Prelude
  import opened NumberTheory
  import opened Curve
  import opened Ecdsa
  import F = Field
  import Der
  import Sec
  import Signed = SignedPayments

  /** y^2 = x^3 + 5 over the field of seven elements. */
  const SMALL := Curve(7, 0, 5)

  lemma PrimeSeven()
    ensures Prime(7)
  {
    forall d | 2 <= d < 7 ensures !Divides(d, 7) {
      if d == 2 { assert 7 % 2 == 1; } else if d == 3 { assert 7 % 3 == 1; } else if d == 4 { assert 7 % 4 == 3; }
      else if d == 5 { assert 7 % 5 == 2; } else { assert 7 % 6 == 1; }
    }
  }

  // ----- its points -----

  lemma Cubes(x: int)
    requires 0 <= x < 7
    ensures x * x * x % 7 == if x == 0 then 0 else if x == 1 || x == 2 || x == 4 then 1 else 6
  {
    if x == 0 {} else if x == 1 {} else if x == 2 {} else if x == 3 {} else if x == 4 {} else if x == 5 {} else {}
  }

  lemma Squares(y: int)
    requires 0 <= y < 7
    ensures y * y % 7 == if y == 0 then 0 else if y == 1 || y == 6 then 1 else if y == 2 || y == 5 then 4 else 2
  {
    if y == 0 {} else if y == 1 {} else if y == 2 {} else if y == 3 {} else if y == 4 {} else if y == 5 {} else {}
  }

  lemma SameResidues(l: int, r: int)
    ensures (l - (r + 5)) % 7 == 0 <==> l % 7 == (r % 7 + 5) % 7
  {
  }

  lemma Solutions(x: nat, y: nat)
    requires x < 7 && y < 7
    ensures (y * y - (x * x * x + 5)) % 7 == 0 <==> (x == 3 || x == 5 || x == 6) && (y == 2 || y == 5)
  {
    Cubes(x);
    Squares(y);
    SameResidues(y * y, x * x * x);
  }

  lemma EquationAt(x: nat, y: nat)
    ensures Equation(SMALL, x, y) == y * y - (x * x * x + 5)
  {
    assert 0 * x == 0;
  }

  lemma AffinePoints(x: nat, y: nat)
    requires x < 7 && y < 7
    ensures OnCurve(SMALL, Affine(x, y)) <==> (x == 3 || x == 5 || x == 6) && (y == 2 || y == 5)
  {
    OnCurveEquation(SMALL, x, y);
    EquationAt(x, y);
    Solutions(x, y);
  }

  /** The seven points, as they follow from each other by adding (3, 2). */
  function Nth(i: nat): Point
    requires i < 7
  {
    if i == 0 then Infinity else if i == 1 then Affine(3, 2) else if i == 2 then Affine(5, 2)
    else if i == 3 then Affine(6, 5) else if i == 4 then Affine(6, 2) else if i == 5 then Affine(5, 5) else Affine(3, 5)
  }

  function Index(pt: Point): (i: nat)
    ensures i < 7
  {
    if pt.Infinity? then 0
    else if pt.y == 2 then (if pt.x == 3 then 1 else if pt.x == 5 then 2 else 4)
    else if pt.x == 6 then 3 else if pt.x == 5 then 5 else 6
  }

  lemma AllPoints(pt: Point)
    ensures OnCurve(SMALL, pt) <==> pt == Nth(Index(pt))
  {
    if pt.Affine? && pt.x < 7 && pt.y < 7 { AffinePoints(pt.x, pt.y); }
  }

  // ----- arithmetic modulo seven by comparisons -----

  function Plus7(a: nat, b: nat): nat { if a + b < 7 then a + b else a + b - 7 }

  function Minus7(a: nat, b: nat): nat { if a >= b then a - b else if a + 7 >= b then a + 7 - b else 0 }

  function Times7(a: nat, b: nat): nat {
    if a == 0 then 0 else if a == 1 then b else
      var two := Plus7(b, b);
      if a == 2 then two else if a == 3 then Plus7(two, b) else
        var four := Plus7(two, two);
        if a == 4 then four else if a == 5 then Plus7(four, b) else Plus7(four, two)
  }

  function Inverse7(d: nat): nat {
    if d == 2 then 4 else if d == 3 then 5 else if d == 4 then 2 else if d == 5 then 3 else d
  }

  lemma PlusMinus(a: nat, b: nat)
    requires a < 7 && b < 7
    ensures F.Add(a, b, 7) == Plus7(a, b) && F.Sub(a, b, 7) == Minus7(a, b)
  {
  }

  lemma SumModulo(m: nat, n: nat)
    ensures (m + n) % 7 == Plus7(m % 7, n % 7)
  {
  }

  /** The multiples of b by doubling and adding. */
  lemma Doubled(b: nat)
    requires b < 7
    ensures var two := Plus7(b, b); (b + b) % 7 == two < 7 && (2 * b + 2 * b) % 7 == Plus7(two, two) < 7
  {
    SumModulo(b, b);
    SumModulo(b + b, b + b);
  }

  lemma Increased(m: nat, t: nat, b: nat)
    requires b < 7 && m % 7 == t
    ensures (m + b) % 7 == Plus7(t, b) < 7
  {
    SumModulo(m, b);
  }

  lemma TimesIs(a: nat, b: nat)
    requires a < 7 && b < 7
    ensures F.Mul(a, b, 7) == Times7(a, b) < 7
  {
    Multiple7(a, b);
    if 1 < a {
      Doubled(b);
      if a == 3 {
        Increased(b + b, Plus7(b, b), b);
      } else if a == 5 {
        Increased(2 * b + 2 * b, Plus7(Plus7(b, b), Plus7(b, b)), b);
      } else if a == 6 {
        SumModulo(2 * b + 2 * b, b + b);
      }
    }
  }

  lemma Multiple7(a: nat, b: nat)
    requires a < 7
    ensures a * b == if a == 0 then 0 else if a == 1 then b else if a == 2 then b + b else if a == 3 then b + b + b
                     else if a == 4 then 2 * b + 2 * b else if a == 5 then 2 * b + 2 * b + b else 2 * b + 2 * b + (b + b)
  {
    if a == 0 { assert 0 * b == 0; } else if a == 1 {} else if a == 2 {} else if a == 3 {} else if a == 4 {}
    else if a == 5 {} else {}
  }

  lemma Inverses(d: nat)
    requires d < 7
    ensures F.PowMod(d, 5, 7) == Inverse7(d)
  {
    assert Pow(d, 1) == d && Pow(d, 2) == d * Pow(d, 1) && Pow(d, 3) == d * Pow(d, 2);
    assert Pow(d, 4) == d * Pow(d, 3) && Pow(d, 5) == d * Pow(d, 4);
    if d == 0 {} else if d == 1 {} else if d == 2 {} else if d == 3 {} else if d == 4 {} else if d == 5 {} else {}
  }

  lemma SquareIs(s: nat)
    requires s < 7
    ensures F.Power(s, 2, 7) == Times7(s, s)
  {
    assert Pow(s, 1) == s * Pow(s, 0) == s && Pow(s, 2) == s * Pow(s, 1);
    TimesIs(s, s);
  }

  // ----- its addition -----

  /** The third point on the line of slope s through (x1, y1) and a point with abscissa x2. */
  function OnLine(s: nat, x1: nat, y1: nat, x2: nat): Point {
    var x3 := Minus7(Minus7(Times7(s, s), x1), x2);
    Affine(x3, Minus7(Times7(s, Minus7(x1, x3)), y1))
  }

  lemma ThirdIs(s: nat, x1: nat, y1: nat, x2: nat)
    requires s < 7 && x1 < 7 && y1 < 7 && x2 < 7
    ensures Third(SMALL, s, x1, y1, F.Sub(F.Sub(F.Power(s, 2, 7), x1, 7), x2, 7)) == OnLine(s, x1, y1, x2)
  {
    SquareIs(s);
    var q := Times7(s, s);
    PlusMinus(q, x1);
    PlusMinus(Minus7(q, x1), x2);
    var x3 := Minus7(Minus7(q, x1), x2);
    PlusMinus(x1, x3);
    TimesIs(s, Minus7(x1, x3));
    PlusMinus(Times7(s, Minus7(x1, x3)), y1);
  }

  function ChordSlope(x1: nat, y1: nat, x2: nat, y2: nat): nat { Times7(Minus7(y2, y1), Inverse7(Minus7(x2, x1))) }

  lemma ChordIs(x1: nat, y1: nat, x2: nat, y2: nat)
    requires x1 < 7 && y1 < 7 && x2 < 7 && y2 < 7
    ensures Chord(SMALL, x1, y1, x2, y2) == OnLine(ChordSlope(x1, y1, x2, y2), x1, y1, x2)
  {
    PlusMinus(y2, y1);
    PlusMinus(x2, x1);
    Inverses(Minus7(x2, x1));
    TimesIs(Minus7(y2, y1), Inverse7(Minus7(x2, x1)));
    ThirdIs(ChordSlope(x1, y1, x2, y2), x1, y1, x2);
  }

  function ChordTo(s: Point, t: Point): Point
    requires s.Affine? && t.Affine?
  {
    OnLine(ChordSlope(s.x, s.y, t.x, t.y), s.x, s.y, t.x)
  }

  lemma Chords(i: nat, j: nat)
    requires 0 < i < j < 7 && i + j != 7
    ensures ChordTo(Nth(i), Nth(j)) == Nth(Plus7(i, j))
  {
    if i == 1 {
      if j == 2 {} else if j == 3 {} else if j == 4 {} else {}
    } else if i == 2 {
      if j == 3 {} else if j == 4 {} else {}
    } else if i == 3 {
      if j == 5 {} else {}
    } else if i == 4 {
      if j == 5 {} else {}
    } else {
    }
  }

  function TangentSlope7(x: nat, y: nat): nat { Times7(Times7(Times7(x, x), 3), Inverse7(Times7(y, 2))) }

  function TangentAt(x: nat, y: nat): Point {
    var s := TangentSlope7(x, y);
    var x3 := Minus7(Times7(s, s), Times7(x, 2));
    Affine(x3, Minus7(Times7(s, Minus7(x, x3)), y))
  }

  lemma TangentSlopeIs(x: nat, y: nat)
    requires x < 7 && y < 7
    ensures F.Div(F.Add(F.Mul(F.Power(x, 2, 7), 3, 7), 0, 7), F.Mul(y, 2, 7), 7) == TangentSlope7(x, y) < 7
  {
    SquareIs(x);
    TimesIs(x, x);
    TimesIs(Times7(x, x), 3);
    PlusMinus(Times7(Times7(x, x), 3), 0);
    TimesIs(y, 2);
    Inverses(Times7(y, 2));
    TimesIs(Times7(Times7(x, x), 3), Inverse7(Times7(y, 2)));
  }

  lemma TangentIs(x: nat, y: nat)
    requires x < 7 && y < 7
    ensures Tangent(SMALL, x, y) == TangentAt(x, y)
  {
    var s := TangentSlope7(x, y);
    TangentSlopeIs(x, y);
    SquareIs(s);
    TimesIs(s, s);
    TimesIs(x, 2);
    var x3 := Minus7(Times7(s, s), Times7(x, 2));
    PlusMinus(Times7(s, s), Times7(x, 2));
    PlusMinus(x, x3);
    TimesIs(s, Minus7(x, x3));
    PlusMinus(Times7(s, Minus7(x, x3)), y);
  }

  lemma Tangents(i: nat)
    requires 0 < i < 7
    ensures TangentAt(Nth(i).x, Nth(i).y) == Nth(Plus7(i, i))
  {
    if i == 1 {} else if i == 2 {} else if i == 3 {} else if i == 4 {} else if i == 5 {} else {}
  }

  /** Adding points is adding their numbers. */
  lemma NthSum(i: nat, j: nat)
    requires i < 7 && j < 7
    ensures Plus7(i, j) < 7 && Sum(SMALL, Nth(i), Nth(j)) == Nth(Plus7(i, j))
  {
    if 0 < i && 0 < j && i + j != 7 {
      var (s, t) := (Nth(i), Nth(j));
      Distinct(i, j);
      if i == j {
        TangentIs(s.x, s.y);
        Tangents(i);
      } else if i < j {
        ChordIs(s.x, s.y, t.x, t.y);
        Chords(i, j);
      } else {
        PrimeSeven();
        AllPoints(s);
        AllPoints(t);
        AdditionCommutes(SMALL, s, t);
        ChordIs(t.x, t.y, s.x, s.y);
        Chords(j, i);
      }
    }
  }

  /** Two of the points share their abscissa if they are equal or opposite. */
  lemma Distinct(i: nat, j: nat)
    requires 0 < i < 7 && 0 < j < 7
    ensures Nth(i).x == Nth(j).x <==> i == j || i + j == 7
    ensures Nth(i).y != 0 && (Nth(i) == Nth(j) <==> i == j)
  {
  }

  lemma SmallAssociative()
    ensures Associative(SMALL)
  {
    forall s, t, u ensures Associates(SMALL, s, t, u) {
      if OnCurve(SMALL, s) && OnCurve(SMALL, t) && OnCurve(SMALL, u) {
        AllPoints(s);
        AllPoints(t);
        AllPoints(u);
        Regroup(Index(s), Index(t), Index(u));
      }
    }
  }

  lemma Regroup(i: nat, j: nat, k: nat)
    requires i < 7 && j < 7 && k < 7
    ensures Associates(SMALL, Nth(i), Nth(j), Nth(k))
  {
    NthSum(i, j);
    NthSum(j, k);
    NthSum(Plus7(i, j), k);
    NthSum(i, Plus7(j, k));
  }

  lemma {:induction false} Multiples(k: nat)
    requires k < 7
    ensures Times(SMALL, k, Nth(1)) == Nth(k)
  {
    if k > 0 {
      Multiples(k - 1);
      NthSum(k - 1, 1);
    }
  }

  lemma OrderSeven(n: nat)
    requires n == 7
    ensures Times(SMALL, n, Nth(1)) == Infinity
  {
    Multiples(n - 1);
    NthSum(n - 1, 1);
  }

  /** The hypotheses of the theorems on signatures and of those on the byte forms of points can be met. */
  lemma HypothesesHold()
    ensures ValidDomain(Domain(SMALL, Nth(1), 7)) && Sec.Suitable(SMALL)
  {
    PrimeSeven();
    SmallAssociative();
    AllPoints(Nth(1));
    OrderSeven(7);
    PowMono(256, 1, 32);
    assert Pow(256, 1) == 256;
  }

  lemma SmallQuotient(z: int, r: int, secret: int, i: int)
    requires z == 0 && r == 3 && secret == 1 && i == 1
    ensures (z + r * secret) * i % 7 == 3
  {
  }

  lemma SmallSignature(d: Domain, secret: int, z: int, k: nat, isHigh: nat -> bool)
    requires d == Domain(SMALL, Nth(1), 7) && secret == 1 && z == 0 && k == 1 && !isHigh(3)
    ensures Sign(d, secret, z, k, isHigh) == Some(Signature(3, 3))
  {
    HypothesesHold();
    var r, s := SignedParts(d, secret, z, k, isHigh);
    SmallNonce(d, k, r);
    SmallQuotient(z, r, secret, F.PowMod(k, d.n - 2, d.n));
  }

  lemma SmallNonce(d: Domain, k: nat, r: nat)
    requires d == Domain(SMALL, Nth(1), 7) && k == 1 && Times(d.c, k, d.g).Affine? && r == Times(d.c, k, d.g).x
    ensures r == 3 && F.PowMod(k, d.n - 2, d.n) == 1
  {
    Multiples(k);
    Inverses(k);
  }

  lemma SmallMultiples(n: nat, other: int, z: int, r: nat, secret: int)
    requires n == 7 && other == 2 && z == 0 && r == 3 && secret == 1
    ensures !Divides(n, other + r * secret) && !Divides(n, other - z) && !Divides(n, other + z + 2 * (r * secret))
  {
    assert r * secret == 3;
  }

  lemma ThreeIsNoMultiple(s: nat, n: nat)
    requires s == 3 && n == 7
    ensures s % n != 0
  {
  }

  /** That signature is refused for the digest 2. */
  lemma OtherDigestRefused(d: Domain, secret: int, z: int, k: nat, isHigh: nat -> bool, other: int)
    requires d == Domain(SMALL, Nth(1), 7) && secret == 1 && z == 0 && k == 1 && !isHigh(3) && other == 2
    ensures Verify(d, PublicKey(d, secret), other, Signature(3, 3)) == Some(false)
  {
    HypothesesHold();
    SmallSignature(d, secret, z, k, isHigh);
    var made := Sign(d, secret, z, k, isHigh).value;
    MadeVerdict(d, secret, z, k, isHigh, other);
    ThreeIsNoMultiple(made.s, d.n);
    SmallMultiples(d.n, other, z, made.r, secret);
  }

  lemma SmallIsWritten(n: nat)
    requires 0 < n < 256
    ensures Der.Encode(Signature(n, n)).Some?
  {
    PowMono(256, 1, 32);
    assert Pow(256, 1) == 256;
    Der.DecodeEncode(Signature(n, n));
  }

  /** So can those of the theorems on signed payments: with nonce 1 the secret 1 signs the digest 0. */
  lemma SignerExists(k: Signed.Key, z: nat)
    requires k == Signed.Key(Domain(SMALL, Nth(1), 7), 1, _ => 1, s => s > 3) && z == 0
    ensures Signed.Sound(k) && Signed.DerOf(k, z).Some?
  {
    HypothesesHold();
    SmallSignature(k.d, k.secret, z, k.nonce(z), k.isHigh);
    SmallIsWritten(3);
  }
}
