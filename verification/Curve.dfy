/** Point addition on a short Weierstrass curve over a prime field (Bitcoin/ecc.py: Point). */
module Curve {
  import opened Prelude
  import opened NumberTheory
  import F = Field

  datatype Curve = Curve(p: nat, a: nat, b: nat)
  {
    predicate Valid() { p >= 2 && F.Residue(a, p) && F.Residue(b, p) }
  }

  datatype Point = Infinity | Affine(x: nat, y: nat)

  /** The check made by the constructor of Point. */
  predicate OnCurve(c: Curve, pt: Point)
    requires c.Valid()
  {
    pt.Infinity? ||
    (F.Residue(pt.x, c.p) && F.Residue(pt.y, c.p) &&
     F.Power(pt.y, 2, c.p) == F.Add(F.Add(F.Power(pt.x, 3, c.p), F.Mul(c.a, pt.x, c.p), c.p), c.b, c.p))
  }

  function Chord(c: Curve, x1: nat, y1: nat, x2: nat, y2: nat): Point
    requires c.Valid()
  {
    var s := F.Div(F.Sub(y2, y1, c.p), F.Sub(x2, x1, c.p), c.p);
    Third(c, s, x1, y1, F.Sub(F.Sub(F.Power(s, 2, c.p), x1, c.p), x2, c.p))
  }

  function Tangent(c: Curve, x1: nat, y1: nat): Point
    requires c.Valid()
  {
    var s := F.Div(F.Add(F.Mul(F.Power(x1, 2, c.p), 3, c.p), c.a, c.p), F.Mul(y1, 2, c.p), c.p);
    Third(c, s, x1, y1, F.Sub(F.Power(s, 2, c.p), F.Mul(x1, 2, c.p), c.p))
  }

  function Third(c: Curve, s: nat, x1: nat, y1: nat, x3: nat): Point
    requires c.Valid()
  {
    Affine(x3, F.Sub(F.Mul(s, F.Sub(x1, x3, c.p), c.p), y1, c.p))
  }

  /** The coordinates Point.__add__ computes, before the constructor checks them. */
  function Sum(c: Curve, s: Point, t: Point): Point
    requires c.Valid()
  {
    if s.Infinity? then t
    else if t.Infinity? then s
    else if s.x == t.x && s.y != t.y then Infinity
    else if s.x != t.x then Chord(c, s.x, s.y, t.x, t.y)
    else if s.y == 0 then Infinity
    else Tangent(c, s.x, s.y)
  }

  /** Point.__add__: raises when the constructor refuses the result. */
  function Plus(c: Curve, s: Point, t: Point): Option<Point>
    requires c.Valid()
  {
    if OnCurve(c, Sum(c, s, t)) then Some(Sum(c, s, t)) else None
  }

  // ----- the curve equation over the integers -----

  /** y^2 - (x^3 + a x + b) */
  function Equation(c: Curve, x: int, y: int): int {
    y * y - (x * x * x + c.a * x + c.b)
  }

  lemma PowerTwoThree(v: int, p: int)
    requires p >= 5
    ensures Cong(F.Power(v, 2, p), v * v, p) && Cong(F.Power(v, 3, p), v * v * v, p)
  {
    DivModUnique(2, 0, 2, p - 1);
    DivModUnique(3, 0, 3, p - 1);
    assert Pow(v, 2) == v * (v * Pow(v, 0)) == v * v;
    assert Pow(v, 3) == v * Pow(v, 2);
    MulAssoc(v, v, v);
    CongMod(v * v, p);
    CongMod(v * v * v, p);
  }

  lemma OnCurveEquation(c: Curve, x: nat, y: nat)
    requires c.Valid() && c.p >= 5 && x < c.p && y < c.p
    ensures OnCurve(c, Affine(x, y)) <==> Divides(c.p, Equation(c, x, y))
  {
    var p := c.p;
    var l := F.Power(y, 2, p);
    var cube, ax := F.Power(x, 3, p), F.Mul(c.a, x, p);
    var m := F.Add(cube, ax, p);
    var r := F.Add(m, c.b, p);
    PowerTwoThree(y, p);
    PowerTwoThree(x, p);
    F.AddCong(c.a, x, p);
    F.AddCong(cube, ax, p);
    F.AddCong(m, c.b, p);
    CongRefl(c.b, p);
    CongAdd(cube, x * x * x, ax, c.a * x, p);
    CongTrans(m, cube + ax, x * x * x + c.a * x, p);
    CongAdd(m, x * x * x + c.a * x, c.b, c.b, p);
    var e := x * x * x + c.a * x + c.b;
    CongTrans(r, m + c.b, e, p);
    CongSym(r, e, p);
    CongSym(l, y * y, p);
    if l == r {
      CongTrans(y * y, l, e, p);
    }
    if Divides(p, y * y - e) {
      CongTrans(l, y * y, e, p);
      CongTrans(l, e, r, p);
      CongRemainder(l, r, p);
    }
  }

  // ----- a line through curve points meets the curve once more -----

  /** The slope condition: the line through (x1, y1) of slope s has x2 as its second root. */
  function Slope(c: Curve, s: int, x1: int, y1: int, x2: int): int {
    s * s * (x2 - x1) + 2 * s * y1 - (x2 * x2 + x2 * x1 + x1 * x1) - c.a
  }

  lemma ThirdRoot(c: Curve, s: int, x1: int, y1: int, x2: int)
    requires c.p > 0 && Divides(c.p, Equation(c, x1, y1)) && Divides(c.p, Slope(c, s, x1, y1, x2))
    ensures var x3 := s * s - x1 - x2; Divides(c.p, Equation(c, x3, s * (x1 - x3) - y1))
  {
    var x3 := s * s - x1 - x2;
    SecondDifference(c, s, x1, y1, x2);
    RootOnLine(c, s, x1, y1, x3, x3 - x1);
  }

  /** A root of the slope condition lies on the curve. */
  lemma RootOnLine(c: Curve, s: int, x1: int, y1: int, x3: int, d: int)
    requires c.p > 0 && x3 == x1 + d && Divides(c.p, Equation(c, x1, y1)) && Divides(c.p, Slope(c, s, x1, y1, x3))
    ensures Divides(c.p, Equation(c, x3, s * (x1 - x3) - y1))
  {
    LineIdentity(c, s, x1, y1, d);
    Combination(c.p, Equation(c, x1, y1), 1, Slope(c, s, x1, y1, x3), d);
    NegatedProduct(s, x1, x3, d);
  }

  lemma NegatedProduct(s: int, x1: int, x3: int, d: int)
    requires x3 == x1 + d
    ensures s * (x1 - x3) == -(s * d)
  {
  }

  lemma SecondDifference(c: Curve, s: int, x1: int, y1: int, x2: int)
    ensures Slope(c, s, x1, y1, s * s - x1 - x2) == Slope(c, s, x1, y1, x2)
  {
    var q := s * s;
    var x3 := q - x1 - x2;
    assert q * (x3 - x1) - x3 * x3 - x3 * x1 == q * (x2 - x1) - x2 * x2 - x2 * x1;
  }

  lemma LineIdentity(c: Curve, s: int, x1: int, y1: int, d: int)
    ensures Equation(c, x1 + d, -(s * d) - y1) == Equation(c, x1, y1) + d * Slope(c, s, x1, y1, x1 + d)
  {
    var x3 := x1 + d;
    assert (-(s * d) - y1) * (-(s * d) - y1) == d * (s * s * d) + d * (2 * s * y1) + y1 * y1;
    assert x3 * x3 * x3 == x1 * x1 * x1 + d * (x3 * x3 + x3 * x1 + x1 * x1);
    assert c.a * x3 == c.a * x1 + d * c.a;
    var u, v, w := s * s * d, 2 * s * y1, x3 * x3 + x3 * x1 + x1 * x1;
    assert d * (u + v - w - c.a) == d * u + d * v - d * w - d * c.a;
  }

  /** The equation modulo p only depends on the coordinates modulo p. */
  lemma EquationCong(c: Curve, x: int, y: int, x': int, y': int)
    requires c.p > 0 && Cong(x, x', c.p) && Cong(y, y', c.p)
    ensures Cong(Equation(c, x, y), Equation(c, x', y'), c.p)
  {
    var p := c.p;
    CongMul(y, y', y, y', p);
    CongMul(x, x', x, x', p);
    CongMul(x * x, x' * x', x, x', p);
    CongRefl(c.a, p);
    CongRefl(c.b, p);
    CongMul(c.a, c.a, x, x', p);
    CongAdd(x * x * x, x' * x' * x', c.a * x, c.a * x', p);
    CongAdd(x * x * x + c.a * x, x' * x' * x' + c.a * x', c.b, c.b, p);
    CongAdd(y * y, y' * y', x * x * x + c.a * x + c.b, x' * x' * x' + c.a * x' + c.b, p);
  }

  lemma CongZero(e: int, e': int, p: int)
    requires p > 0 && Cong(e, e', p) && Divides(p, e')
    ensures Divides(p, e)
  {
    Combination(p, e - e', 1, e', 1);
  }

  lemma ChordSlope(c: Curve, s: int, x1: int, y1: int, x2: int, y2: int)
    requires Prime(c.p) && !Divides(c.p, x2 - x1)
    requires Divides(c.p, Equation(c, x1, y1)) && Divides(c.p, Equation(c, x2, y2))
    requires Cong(s * (x2 - x1), y2 - y1, c.p)
    ensures Divides(c.p, Slope(c, s, x1, y1, x2))
  {
    var p, d := c.p, x2 - x1;
    LineIdentity(c, s, x1, y1, d);
    // -(s d) - y1 is -y2 modulo p, and the equation does not see the sign
    CongRefl(y1, p);
    CongRefl(x2, p);
    CongRefl(0, p);
    CongAdd(s * d, y2 - y1, y1, y1, p);
    CongAdd(0, 0, s * d + y1, y2, p);
    EquationCong(c, x2, -(s * d) - y1, x2, -y2);
    assert Equation(c, x2, -y2) == Equation(c, x2, y2);
    CongZero(Equation(c, x2, -(s * d) - y1), Equation(c, x2, y2), p);
    Combination(p, Equation(c, x2, -(s * d) - y1), 1, Equation(c, x1, y1), -1);
    EuclidPrime(p, d, Slope(c, s, x1, y1, x2));
  }

  /** What Third builds from a slope and an x3 congruent to e. */
  lemma ThirdCong(c: Curve, s: nat, x1: nat, y1: nat, x3: nat, e: int)
    requires c.Valid() && Cong(x3, e, c.p)
    ensures Cong(Third(c, s, x1, y1, x3).y, s * (x1 - e) - y1, c.p)
  {
    var p := c.p;
    var d := F.Sub(x1, x3, p);
    var m := F.Mul(s, d, p);
    CongRefl(x1, p);
    CongRefl(y1, p);
    CongRefl(s, p);
    F.AddCong(x1, x3, p);
    F.AddCong(s, d, p);
    F.AddCong(m, y1, p);
    CongAdd(x1, x1, x3, e, p);
    CongTrans(d, x1 - x3, x1 - e, p);
    CongMul(s, s, d, x1 - e, p);
    CongTrans(m, s * d, s * (x1 - e), p);
    CongAdd(m, s * (x1 - e), y1, y1, p);
    CongTrans(F.Sub(m, y1, p), m - y1, s * (x1 - e) - y1, p);
  }

  lemma ThirdOnCurve(c: Curve, s: nat, x1: nat, y1: nat, x3: nat, x2: nat)
    requires c.Valid() && c.p >= 5 && x3 < c.p && Cong(x3, s * s - x1 - x2, c.p)
    requires Divides(c.p, Equation(c, x1, y1)) && Divides(c.p, Slope(c, s, x1, y1, x2))
    ensures OnCurve(c, Third(c, s, x1, y1, x3))
  {
    var e := s * s - x1 - x2;
    var y3 := Third(c, s, x1, y1, x3).y;
    ThirdCong(c, s, x1, y1, x3, e);
    ThirdRoot(c, s, x1, y1, x2);
    EquationCong(c, x3, y3, e, s * (x1 - e) - y1);
    CongZero(Equation(c, x3, y3), Equation(c, e, s * (x1 - e) - y1), c.p);
    OnCurveEquation(c, x3, y3);
  }

  lemma DifferenceNotDivisible(x: int, y: int, p: int)
    requires 0 <= x < p && 0 <= y < p && x != y
    ensures !Divides(p, x - y)
  {
    if Divides(p, x - y) {
      CongRemainder(x, y, p);
    }
  }

  /** The slope and the third x of a chord, as congruences; the square of the slope is whatever the power gives. */
  lemma ChordCong(c: Curve, x1: nat, y1: nat, x2: nat, y2: nat) returns (s: nat)
    requires c.Valid() && Prime(c.p) && x1 < c.p && x2 < c.p && x1 != x2
    ensures Cong(s * (x2 - x1), y2 - y1, c.p) && s < c.p
    ensures !Divides(c.p, x2 - x1)
    ensures var q := Chord(c, x1, y1, x2, y2);
      Cong(q.x, F.Power(s, 2, c.p) - x1 - x2, c.p) && q.x < c.p && q == Third(c, s, x1, y1, q.x)
  {
    var p := c.p;
    var dy, dx := F.Sub(y2, y1, p), F.Sub(x2, x1, p);
    s := F.Div(dy, dx, p);
    F.AddCong(y2, y1, p);
    F.AddCong(x2, x1, p);
    DifferenceNotDivisible(x2, x1, p);
    if Divides(p, dx) {
      CongSym(dx, x2 - x1, p);
      CongZero(x2 - x1, dx, p);
    }
    F.DivCong(dy, dx, p);
    CongRefl(s, p);
    CongMul(s, s, dx, x2 - x1, p);
    CongSym(s * dx, s * (x2 - x1), p);
    CongTrans(s * (x2 - x1), s * dx, dy, p);
    CongTrans(s * (x2 - x1), dy, y2 - y1, p);
    SubTwice(F.Power(s, 2, p), x1, x2, p);
  }

  lemma SubTwice(q: int, u: int, v: int, p: int)
    requires p > 0
    ensures Cong(F.Sub(F.Sub(q, u, p), v, p), q - u - v, p)
  {
    var d := F.Sub(q, u, p);
    F.AddCong(q, u, p);
    F.AddCong(d, v, p);
    CongRefl(v, p);
    CongAdd(d, q - u, v, v, p);
    CongTrans(F.Sub(d, v, p), d - v, q - u - v, p);
  }

  /** In a field with at least five elements the power gives the square. */
  lemma SquaredSlope(x3: int, s: int, u: int, v: int, p: int)
    requires p >= 5 && Cong(x3, F.Power(s, 2, p) - u - v, p)
    ensures Cong(x3, s * s - u - v, p)
  {
    var q := F.Power(s, 2, p);
    PowerTwoThree(s, p);
    CongRefl(u + v, p);
    CongAdd(q, s * s, u + v, u + v, p);
    CongTrans(x3, q - u - v, s * s - u - v, p);
  }

  lemma ChordOnCurve(c: Curve, x1: nat, y1: nat, x2: nat, y2: nat)
    requires c.Valid() && Prime(c.p) && c.p >= 5 && x1 != x2
    requires OnCurve(c, Affine(x1, y1)) && OnCurve(c, Affine(x2, y2))
    ensures OnCurve(c, Chord(c, x1, y1, x2, y2))
  {
    var s := ChordCong(c, x1, y1, x2, y2);
    OnCurveEquation(c, x1, y1);
    OnCurveEquation(c, x2, y2);
    ChordSlope(c, s, x1, y1, x2, y2);
    SquaredSlope(Chord(c, x1, y1, x2, y2).x, s, x1, x2, c.p);
    ThirdOnCurve(c, s, x1, y1, Chord(c, x1, y1, x2, y2).x, x2);
  }

  /** The slope of a tangent solves its defining congruence. */
  lemma TangentRatio(c: Curve, x1: nat, y1: nat) returns (s: nat)
    requires c.Valid() && Prime(c.p) && c.p >= 5 && x1 < c.p && 0 < y1 < c.p
    ensures s == F.Div(F.Add(F.Mul(F.Power(x1, 2, c.p), 3, c.p), c.a, c.p), F.Mul(y1, 2, c.p), c.p) && s < c.p
    ensures Cong(s * (y1 * 2), x1 * x1 * 3 + c.a, c.p)
  {
    var p := c.p;
    var num, den := F.Add(F.Mul(F.Power(x1, 2, p), 3, p), c.a, p), F.Mul(y1, 2, p);
    s := F.Div(num, den, p);
    TangentParts(c, x1, y1, num, den);
    F.DivCong(num, den, p);
    CongRefl(s, p);
    CongMul(s, s, den, y1 * 2, p);
    CongSym(s * den, s * (y1 * 2), p);
    CongTrans(s * (y1 * 2), s * den, num, p);
    CongTrans(s * (y1 * 2), num, x1 * x1 * 3 + c.a, p);
  }

  lemma TangentParts(c: Curve, x1: nat, y1: nat, num: nat, den: nat)
    requires c.Valid() && Prime(c.p) && c.p >= 5 && x1 < c.p && 0 < y1 < c.p
    requires num == F.Add(F.Mul(F.Power(x1, 2, c.p), 3, c.p), c.a, c.p) && den == F.Mul(y1, 2, c.p)
    ensures Cong(num, x1 * x1 * 3 + c.a, c.p) && Cong(den, y1 * 2, c.p) && !Divides(c.p, den)
  {
    var p := c.p;
    var sq := F.Power(x1, 2, p);
    var tr := F.Mul(sq, 3, p);
    PowerTwoThree(x1, p);
    F.AddCong(sq, 3, p);
    F.AddCong(tr, c.a, p);
    F.AddCong(y1, 2, p);
    CongRefl(3, p);
    CongRefl(c.a, p);
    CongMul(sq, x1 * x1, 3, 3, p);
    CongTrans(tr, sq * 3, x1 * x1 * 3, p);
    CongAdd(tr, x1 * x1 * 3, c.a, c.a, p);
    CongTrans(num, tr + c.a, x1 * x1 * 3 + c.a, p);
    TwiceNotDivisible(p, y1, den);
  }

  /** The denominator is 2 y1, which p does not divide. */
  lemma TwiceNotDivisible(p: nat, y1: nat, den: nat)
    requires Prime(p) && p >= 5 && 0 < y1 < p && Cong(den, y1 * 2, p)
    ensures !Divides(p, den)
  {
    SmallNotDivisible(p, 2);
    SmallNotDivisible(p, y1);
    if Divides(p, den) {
      CongSym(den, y1 * 2, p);
      CongZero(y1 * 2, den, p);
      EuclidPrime(p, y1, 2);
    }
  }

  lemma TangentX(s: nat, x1: nat, p: nat)
    requires Prime(p) && p >= 5 && s < p && x1 < p
    ensures var q := F.Sub(F.Power(s, 2, p), F.Mul(x1, 2, p), p); Cong(q, s * s - x1 - x1, p) && q < p
  {
    var q, d := F.Power(s, 2, p), F.Mul(x1, 2, p);
    PowerTwoThree(s, p);
    F.AddCong(x1, 2, p);
    F.AddCong(q, d, p);
    CongAdd(q, s * s, d, x1 * 2, p);
    CongTrans(F.Sub(q, d, p), q - d, s * s - x1 - x1, p);
  }

  lemma TangentSlope(c: Curve, x1: nat, y1: nat) returns (s: nat)
    requires c.Valid() && Prime(c.p) && c.p >= 5 && x1 < c.p && 0 < y1 < c.p
    ensures Divides(c.p, Slope(c, s, x1, y1, x1)) && s < c.p
    ensures var q := Tangent(c, x1, y1);
      Cong(q.x, s * s - x1 - x1, c.p) && q.x < c.p && q == Third(c, s, x1, y1, q.x)
  {
    s := TangentRatio(c, x1, y1);
    SlopeAtDouble(c, s, x1, y1);
    TangentX(s, x1, c.p);
  }

  lemma SlopeAtDouble(c: Curve, s: int, x1: int, y1: int)
    ensures Slope(c, s, x1, y1, x1) == s * (y1 * 2) - (x1 * x1 * 3 + c.a)
  {
    assert s * s * (x1 - x1) == 0;
  }

  lemma TangentOnCurve(c: Curve, x1: nat, y1: nat)
    requires c.Valid() && Prime(c.p) && c.p >= 5 && y1 != 0
    requires OnCurve(c, Affine(x1, y1))
    ensures OnCurve(c, Tangent(c, x1, y1))
  {
    var s := TangentSlope(c, x1, y1);
    OnCurveEquation(c, x1, y1);
    ThirdOnCurve(c, s, x1, y1, Tangent(c, x1, y1).x, x1);
  }

  lemma LargeFieldCloses(c: Curve, s: Point, t: Point)
    requires c.Valid() && Prime(c.p) && c.p >= 5 && OnCurve(c, s) && OnCurve(c, t)
    ensures OnCurve(c, Sum(c, s, t))
  {
    if s.Affine? && t.Affine? {
      if s.x != t.x {
        ChordOnCurve(c, s.x, s.y, t.x, t.y);
      } else if s.y == t.y && s.y != 0 {
        TangentOnCurve(c, s.x, s.y);
      }
    }
  }

  // ----- the field of three elements -----

  /** There the exponent 2 is reduced to 0 and 3 to 1: every square is 1 and every cube is its base, so that the curve
      as it is checked consists of lines. */
  lemma PowersModThree(v: int)
    requires 0 <= v < 3
    ensures F.Power(v, 2, 3) == 1 && F.Power(v, 3, 3) == v
  {
    assert Pow(v, 0) == 1 && Pow(v, 1) == v * Pow(v, 0) == v;
  }

  function Multiple(a: nat, x: nat): nat { if a == 0 then 0 else if a == 1 then x else 2 * x }

  lemma MultipleMeans(a: nat, x: nat)
    requires a < 3
    ensures Multiple(a, x) == a * x
  {
    if a == 0 {
      assert 0 * x == 0;
    } else if a == 1 {
      assert 1 * x == x;
    }
  }

  /** x + a x + b leaves 1 when divided by 3. */
  predicate OnLine(a: nat, b: nat, x: nat) {
    var v := x + Multiple(a, x) + b;
    v == 1 || v == 4 || v == 7
  }

  lemma LeavesOne(v: nat)
    requires v < 9
    ensures v % 3 == 1 <==> v == 1 || v == 4 || v == 7
  {
  }

  lemma ReduceTwice(x: int, y: int, b: int)
    ensures ((x + y % 3) % 3 + b) % 3 == (x + y + b) % 3
  {
  }

  lemma ReducedLine(x: nat, m: nat, b: nat)
    requires x < 3 && m < 5 && b < 3
    ensures var v := x + m + b; F.Add(F.Add(x, m % 3, 3), b, 3) == 1 <==> v == 1 || v == 4 || v == 7
  {
    ReduceTwice(x, m, b);
    LeavesOne(x + m + b);
  }

  lemma OnLineMeans(a: nat, b: nat, x: nat)
    requires a < 3 && b < 3 && x < 3
    ensures F.Add(F.Add(x, F.Mul(a, x, 3), 3), b, 3) == 1 <==> OnLine(a, b, x)
  {
    var m := Multiple(a, x);
    MultipleMeans(a, x);
    ReducedLine(x, m, b);
  }

  lemma OnCurveModThree(c: Curve, x: nat, y: nat)
    requires c.Valid() && c.p == 3 && x < 3 && y < 3
    ensures OnCurve(c, Affine(x, y)) <==> OnLine(c.a, c.b, x)
  {
    PowersModThree(x);
    PowersModThree(y);
    OnLineMeans(c.a, c.b, x);
  }

  /** The line is the whole field for a = 2 and one point otherwise. */
  lemma LineModThree(a: nat, b: nat, x: nat, u: nat)
    requires a < 3 && b < 3 && x < 3 && u < 3 && OnLine(a, b, x)
    ensures OnLine(a, b, u) <==> a == 2 || u == x
  {
  }

  lemma ChordModThree(c: Curve, x1: nat, y1: nat, x2: nat, y2: nat)
    requires c.Valid() && c.p == 3 && x1 != x2 && OnCurve(c, Affine(x1, y1)) && OnCurve(c, Affine(x2, y2))
    ensures OnCurve(c, Chord(c, x1, y1, x2, y2))
  {
    LineThrough(c, x1, y1, Affine(x2, y2));
    LineThrough(c, x1, y1, Chord(c, x1, y1, x2, y2));
  }

  lemma NeverFixed(x: nat)
    requires x < 3
    ensures (1 - x * 2 % 3) % 3 != x
  {
  }

  lemma TangentXModThree(c: Curve, x: nat, y: nat)
    requires c.Valid() && c.p == 3 && x < 3
    ensures var q := Tangent(c, x, y); q.x < 3 && q.y < 3 && q.x == (1 - x * 2 % 3) % 3
  {
    var s := F.Div(F.Add(F.Mul(F.Power(x, 2, 3), 3, 3), c.a, 3), F.Mul(y, 2, 3), 3);
    PowersModThree(s);
  }

  lemma TangentModThree(c: Curve, x: nat, y: nat)
    requires c.Valid() && c.p == 3 && OnCurve(c, Affine(x, y))
    ensures OnCurve(c, Tangent(c, x, y)) <==> c.a == 2
  {
    TangentXModThree(c, x, y);
    NeverFixed(x);
    LineThrough(c, x, y, Tangent(c, x, y));
  }

  lemma LineThrough(c: Curve, x: nat, y: nat, q: Point)
    requires c.Valid() && c.p == 3 && OnCurve(c, Affine(x, y)) && q.Affine? && q.x < 3 && q.y < 3
    ensures OnCurve(c, q) <==> c.a == 2 || q.x == x
  {
    OnCurveModThree(c, x, y);
    OnCurveModThree(c, q.x, q.y);
    LineModThree(c.a, c.b, x, q.x);
  }

  // ----- closure -----

  /** Doubling a point that is not its own opposite, over three elements, on a curve with a other than 2. */
  predicate Raises(c: Curve, s: Point, t: Point) { c.p == 3 && c.a != 2 && s == t && s.Affine? && s.y != 0 }

  /** Over every odd prime field, adding two curve points trips the constructor's check in exactly this case. */
  lemma AdditionRaisesExactly(c: Curve, s: Point, t: Point)
    requires c.Valid() && Prime(c.p) && c.p > 2 && OnCurve(c, s) && OnCurve(c, t)
    ensures Plus(c, s, t).None? <==> Raises(c, s, t)
  {
    if c.p == 3 {
      if s.Affine? && t.Affine? {
        if s.x != t.x {
          ChordModThree(c, s.x, s.y, t.x, t.y);
        } else if s.y == t.y && s.y != 0 {
          TangentModThree(c, s.x, s.y);
        }
      }
    } else {
      assert Divides(2, 4);
      LargeFieldCloses(c, s, t);
    }
  }

  /** Everywhere else the sum is a curve point. */
  lemma AdditionCloses(c: Curve, s: Point, t: Point)
    requires c.Valid() && Prime(c.p) && c.p > 2 && OnCurve(c, s) && OnCurve(c, t) && !Raises(c, s, t)
    ensures Plus(c, s, t) == Some(Sum(c, s, t)) && OnCurve(c, Sum(c, s, t))
  {
    AdditionRaisesExactly(c, s, t);
  }

  /** The case occurs: doubling (1, 1) on y^2 = x^3. */
  lemma ClosureFailsModThree()
    ensures Prime(3)
    ensures var c := Curve(3, 0, 0);
      c.Valid() && OnCurve(c, Affine(1, 1)) && Plus(c, Affine(1, 1), Affine(1, 1)).None?
  {
    var c := Curve(3, 0, 0);
    OnCurveModThree(c, 1, 1);
    assert Prime(3) by { assert !Divides(2, 3); }
    AdditionRaisesExactly(c, Affine(1, 1), Affine(1, 1));
  }

  // ----- commutativity -----

  /** The slopes of a chord read in the two directions are the same number. */
  lemma SameSlope(p: nat, s: nat, t: nat, dx: int, dy: int)
    requires Prime(p) && s < p && t < p && !Divides(p, dx) && Cong(s * -dx, -dy, p) && Cong(t * dx, dy, p)
    ensures s == t
  {
    NegatedCong(s * dx, s * -dx, dy, p);
    CongSym(t * dx, dy, p);
    CongTrans(s * dx, dy, t * dx, p);
    Cancel(p, dx, s, t);
    CongRemainder(s, t, p);
  }

  lemma NegatedCong(a: int, a': int, b: int, p: nat)
    requires p > 0 && Cong(a', -b, p) && a == -a'
    ensures Cong(a, b, p)
  {
    Combination(p, a' - -b, -1, 0, 0);
  }

  lemma ChordSymmetric(c: Curve, x1: nat, y1: nat, x2: nat, y2: nat)
    requires c.Valid() && Prime(c.p) && x1 < c.p && x2 < c.p && x1 != x2
    ensures Chord(c, x1, y1, x2, y2) == Chord(c, x2, y2, x1, y1)
  {
    var s := ChordCong(c, x1, y1, x2, y2);
    var t := ChordCong(c, x2, y2, x1, y1);
    SameSlope(c.p, s, t, x1 - x2, y1 - y2);
    var e := F.Power(s, 2, c.p) - x1 - x2;
    SameThird(c, s, x1, y1, x2, y2, Chord(c, x1, y1, x2, y2).x, Chord(c, x2, y2, x1, y1).x, e);
  }

  /** With the same slope, both points lead to the same third point. */
  lemma SameThird(c: Curve, s: nat, x1: nat, y1: nat, x2: nat, y2: nat, qx: nat, rx: nat, e: int)
    requires c.Valid() && qx < c.p && rx < c.p && Cong(s * (x1 - x2), y1 - y2, c.p)
    requires Cong(qx, e, c.p) && Cong(rx, e, c.p)
    ensures Third(c, s, x1, y1, qx) == Third(c, s, x2, y2, rx)
  {
    var p := c.p;
    CongSym(rx, e, p);
    CongTrans(qx, e, rx, p);
    CongRemainder(qx, rx, p);
    ThirdCong(c, s, x1, y1, qx, e);
    ThirdCong(c, s, x2, y2, rx, e);
    SameOrdinate(p, Third(c, s, x1, y1, qx).y, Third(c, s, x2, y2, rx).y, s, x1, y1, x2, y2, e);
  }

  lemma SameOrdinate(p: nat, qy: nat, ry: nat, s: int, x1: int, y1: int, x2: int, y2: int, e: int)
    requires p > 0 && qy < p && ry < p && Cong(s * (x1 - x2), y1 - y2, p)
    requires Cong(qy, s * (x1 - e) - y1, p) && Cong(ry, s * (x2 - e) - y2, p)
    ensures qy == ry
  {
    assert s * (x1 - e) - y1 - (s * (x2 - e) - y2) == s * (x1 - x2) - (y1 - y2);
    CongSym(ry, s * (x2 - e) - y2, p);
    CongTrans(qy, s * (x1 - e) - y1, s * (x2 - e) - y2, p);
    CongTrans(qy, s * (x2 - e) - y2, ry, p);
    CongRemainder(qy, ry, p);
  }

  /** Over every prime field, two and three elements included. */
  lemma AdditionCommutes(c: Curve, s: Point, t: Point)
    requires c.Valid() && Prime(c.p) && OnCurve(c, s) && OnCurve(c, t)
    ensures Sum(c, s, t) == Sum(c, t, s)
  {
    if s.Affine? && t.Affine? && s.x != t.x {
      ChordSymmetric(c, s.x, s.y, t.x, t.y);
    }
  }

  /** Two points that add up to infinity share their x coordinate. */
  lemma OppositePoints(c: Curve, s: Point, t: Point)
    requires c.Valid() && Sum(c, s, t) == Infinity
    ensures s.Infinity? <==> t.Infinity?
    ensures s.Affine? ==> s.x == t.x
  {
  }
}
