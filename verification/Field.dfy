/** The arithmetic of FieldElement (Bitcoin/ecc.py): residues of one prime, held as numbers below it. */
module Field {
  import opened Prelude
  import opened NumberTheory

  predicate Residue(x: int, p: int) { 0 <= x < p }

  function Add(x: int, y: int, p: int): (r: int)
    requires p > 0
    ensures Residue(r, p)
  {
    (x + y) % p
  }

  function Sub(x: int, y: int, p: int): (r: int)
    requires p > 0
    ensures Residue(r, p)
  {
    (x - y) % p
  }

  function Mul(x: int, y: int, p: int): (r: int)
    requires p > 0
    ensures Residue(r, p)
  {
    (x * y) % p
  }

  /** Python's three-argument pow for a non-negative exponent. */
  function PowMod(x: int, e: nat, p: int): (r: int)
    requires p > 0
    ensures Residue(r, p)
  {
    Pow(x, e) % p
  }

  /** FieldElement.__pow__: the exponent is first reduced modulo p - 1. */
  function Power(x: int, e: int, p: int): (r: int)
    requires p > 1
    ensures Residue(r, p)
  {
    PowMod(x, e % (p - 1), p)
  }

  /** FieldElement.__truediv__ */
  function Div(x: int, y: int, p: int): (r: int)
    requires p > 1
    ensures Residue(r, p)
  {
    Mul(x, PowMod(y, p - 2, p), p)
  }

  // ----- every operation computes its integer counterpart up to a multiple of p -----

  lemma AddCong(x: int, y: int, p: int)
    requires p > 0
    ensures Cong(Add(x, y, p), x + y, p) && Cong(Sub(x, y, p), x - y, p) && Cong(Mul(x, y, p), x * y, p)
  {
    CongMod(x + y, p);
    CongMod(x - y, p);
    CongMod(x * y, p);
  }

  // ----- inverses and division -----

  /** pow(y, p - 2, p) is the inverse of y. */
  lemma InverseByFermat(y: int, p: int)
    requires Prime(p) && !Divides(p, y)
    ensures Cong(y * PowMod(y, p - 2, p), 1, p)
  {
    CongMod(Pow(y, p - 2), p);
    CongRefl(y, p);
    CongMul(y, y, PowMod(y, p - 2, p), Pow(y, p - 2), p);
    Fermat(p, y);
    CongTrans(y * PowMod(y, p - 2, p), Pow(y, p - 1), 1, p);
  }

  /** x / y times y is x again. */
  lemma DivCong(x: int, y: int, p: int)
    requires Prime(p) && !Divides(p, y)
    ensures Cong(Div(x, y, p) * y, x, p)
  {
    var i := PowMod(y, p - 2, p);
    InverseByFermat(y, p);
    CongMod(x * i, p);
    CongRefl(y, p);
    CongRefl(x, p);
    CongMul(Div(x, y, p), x * i, y, y, p);
    CongMul(x, x, y * i, 1, p);
    assert x * i * y == x * (y * i);
    CongTrans(Div(x, y, p) * y, x * (y * i), x * 1, p);
  }

  /** (x / y) * y == x for residues x and every y that is not zero; the quotient is the only such residue. */
  lemma DivisionInvertsMultiplication(x: int, y: int, p: int)
    requires Prime(p) && Residue(x, p) && 0 < y < p
    ensures Mul(Div(x, y, p), y, p) == x
    ensures forall q :: Residue(q, p) && Mul(q, y, p) == x ==> q == Div(x, y, p)
  {
    SmallNotDivisible(p, y);
    DivCong(x, y, p);
    CongRemainder(Div(x, y, p) * y, x, p);
    DivModUnique(x, 0, x, p);
    forall q | Residue(q, p) && Mul(q, y, p) == x
      ensures q == Div(x, y, p)
    {
      QuotientUnique(q, x, y, p);
    }
  }

  lemma QuotientUnique(q: int, x: int, y: int, p: int)
    requires Prime(p) && Residue(q, p) && !Divides(p, y) && Mul(q, y, p) == x % p
    ensures q == Div(x, y, p)
  {
    RemainderCong(q * y, x, p);
    DivCong(x, y, p);
    SameProduct(q, Div(x, y, p), x, y, p);
  }

  lemma SameProduct(q: int, d: int, x: int, y: int, p: int)
    requires Prime(p) && !Divides(p, y) && Residue(q, p) && Residue(d, p)
    requires Cong(q * y, x, p) && Cong(d * y, x, p)
    ensures q == d
  {
    CongSym(d * y, x, p);
    CongTrans(q * y, x, d * y, p);
    assert y * q == q * y && y * d == d * y;
    Cancel(p, y, q, d);
    CongRemainder(q, d, p);
  }

  // ----- powers -----

  /** x^(e + k(p-1)) is x^e when p does not divide x. */
  lemma {:induction false} PowPeriodic(x: int, e: nat, k: nat, p: int)
    requires Prime(p) && !Divides(p, x)
    ensures 0 <= e + k * (p - 1) && Cong(Pow(x, e + k * (p - 1)), Pow(x, e), p)
  {
    MulNonNeg(k, p - 1);
    if k == 0 {
      CongRefl(Pow(x, e), p);
    } else {
      PowPeriodic(x, e, k - 1, p);
      var m: nat := e + (k - 1) * (p - 1);
      assert e + k * (p - 1) == m + (p - 1);
      PowAdd(x, m, p - 1);
      Fermat(p, x);
      CongMul(Pow(x, m), Pow(x, e), Pow(x, p - 1), 1, p);
    }
  }

  lemma PowerNonzeroBase(x: int, e: nat, p: int)
    requires Prime(p) && !Divides(p, x)
    ensures Power(x, e, p) == Pow(x, e) % p
  {
    var m := p - 1;
    assert e == e % m + (e / m) * m;
    PowPeriodic(x, e % m, e / m, p);
    CongRemainder(Pow(x, e), Pow(x, e % m), p);
  }

  lemma PowOfZero(e: nat)
    requires e > 0
    ensures Pow(0, e) == 0
  {
  }

  lemma PowerZeroBase(e: nat, p: int)
    requires p >= 2 && e > 0
    ensures Pow(0, e) % p == 0
    ensures Power(0, e, p) == if e % (p - 1) == 0 then 1 else 0
  {
    PowOfZero(e);
    DivModUnique(0, 0, 0, p);
    DivModUnique(1, 0, 1, p);
    var r: nat := e % (p - 1);
    if r != 0 {
      PowOfZero(r);
    }
  }

  /** For a non-negative exponent, __pow__ is the e-fold product except for 0 raised to a positive multiple of p - 1,
      which comes out as 1. */
  lemma PowerIsProductExactly(x: int, e: nat, p: int)
    requires Prime(p) && Residue(x, p)
    ensures Power(x, e, p) == Pow(x, e) % p <==> (x != 0 || e == 0 || e % (p - 1) != 0)
    ensures x == 0 && e > 0 && e % (p - 1) == 0 ==> Power(x, e, p) == 1 && Pow(x, e) % p == 0
  {
    if x != 0 {
      SmallNotDivisible(p, x);
      PowerNonzeroBase(x, e, p);
    } else if e > 0 {
      PowerZeroBase(e, p);
    } else {
      DivModUnique(0, 0, 0, p - 1);
    }
  }

  /** A negative exponent gives the inverse of the positive power. */
  lemma NegativePowerInverts(x: int, e: int, p: int)
    requires Prime(p) && 0 < x < p && e >= 0
    ensures Mul(Power(x, -e, p), Power(x, e, p), p) == 1
  {
    SmallNotDivisible(p, x);
    var m := p - 1;
    var r: nat := (-e) % m;
    PowerNonzeroBase(x, e, p);
    var k := -((-e) / m);
    assert -e == m * (-k) + r;
    assert r + e == k * m;
    if k < 0 { MulMono(m, k, -1); }
    PowAdd(x, r, e);
    PowPeriodic(x, 0, k, p);
    CongMod(Pow(x, r), p);
    CongMod(Pow(x, e), p);
    CongMul(Pow(x, r) % p, Pow(x, r), Pow(x, e) % p, Pow(x, e), p);
    CongTrans(Power(x, -e, p) * Power(x, e, p), Pow(x, r + e), 1, p);
    CongRemainder(Power(x, -e, p) * Power(x, e, p), 1, p);
    DivModUnique(1, 0, 1, p);
  }
}
