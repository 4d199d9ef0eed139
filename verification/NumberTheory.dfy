/** Divisibility, primes and Fermat's little theorem, proved from the definition of a prime. */
module NumberTheory {
  import opened Prelude

  predicate Divides(d: int, n: int)
    requires d > 0
  {
    n % d == 0
  }

  ghost predicate Prime(p: int) {
    p >= 2 && forall d :: 2 <= d < p ==> !Divides(d, p)
  }

  // ----- divisibility -----

  lemma Quotient(d: int, n: int) returns (k: int)
    requires d > 0 && Divides(d, n)
    ensures n == d * k
  {
    k := n / d;
  }

  lemma MultipleDivides(d: int, k: int)
    requires d > 0
    ensures Divides(d, d * k)
  {
    DivModUnique(d * k, k, 0, d);
  }

  lemma Combination(d: int, u: int, x: int, v: int, y: int)
    requires d > 0 && Divides(d, u) && Divides(d, v)
    ensures Divides(d, x * u + y * v)
  {
    var m := Quotient(d, u);
    var n := Quotient(d, v);
    assert x * (d * m) == d * (x * m) && y * (d * n) == d * (y * n);
    assert x * u + y * v == d * (x * m + y * n);
    MultipleDivides(d, x * m + y * n);
  }

  // ----- congruence -----

  predicate Cong(a: int, b: int, m: int)
    requires m > 0
  {
    Divides(m, a - b)
  }

  lemma CongMod(a: int, m: int)
    requires m > 0
    ensures Cong(a % m, a, m) && Cong(a, a % m, m) && 0 <= a % m < m
  {
    assert a % m - a == m * (-(a / m)) && a - a % m == m * (a / m);
    MultipleDivides(m, -(a / m));
    MultipleDivides(m, a / m);
  }

  /** Congruent numbers have the same remainder, and so are equal when both are reduced. */
  lemma CongRemainder(a: int, b: int, m: int)
    requires m > 0 && Cong(a, b, m)
    ensures a % m == b % m
    ensures 0 <= a < m && 0 <= b < m ==> a == b
  {
    var k := Quotient(m, a - b);
    assert a == (k + b / m) * m + b % m;
    DivModUnique(a, k + b / m, b % m, m);
    if 0 <= a < m && 0 <= b < m {
      DivModUnique(a, 0, a, m);
      DivModUnique(b, 0, b, m);
    }
  }

  lemma RemainderCong(a: int, b: int, m: int)
    requires m > 0 && a % m == b % m
    ensures Cong(a, b, m)
  {
    assert a - b == m * (a / m - b / m);
    MultipleDivides(m, a / m - b / m);
  }

  lemma CongRefl(a: int, m: int)
    requires m > 0
    ensures Cong(a, a, m)
  {
    MultipleDivides(m, 0);
  }

  lemma CongSym(a: int, b: int, m: int)
    requires m > 0 && Cong(a, b, m)
    ensures Cong(b, a, m)
  {
    Combination(m, a - b, -1, 0, 0);
  }

  lemma CongTrans(a: int, b: int, c: int, m: int)
    requires m > 0 && Cong(a, b, m) && Cong(b, c, m)
    ensures Cong(a, c, m)
  {
    Combination(m, a - b, 1, b - c, 1);
  }

  lemma CongAdd(a: int, b: int, c: int, d: int, m: int)
    requires m > 0 && Cong(a, b, m) && Cong(c, d, m)
    ensures Cong(a + c, b + d, m) && Cong(a - c, b - d, m)
  {
    Combination(m, a - b, 1, c - d, 1);
    Combination(m, a - b, 1, c - d, -1);
  }

  lemma CongMul(a: int, b: int, c: int, d: int, m: int)
    requires m > 0 && Cong(a, b, m) && Cong(c, d, m)
    ensures Cong(a * c, b * d, m)
  {
    Combination(m, a - b, c, c - d, b);
    MixedProducts(a, b, c, d);
  }

  lemma MixedProducts(a: int, b: int, c: int, d: int)
    ensures c * (a - b) + b * (c - d) == a * c - b * d
  {
  }

  lemma {:induction false} CongPow(a: int, b: int, e: nat, m: int)
    requires m > 0 && Cong(a, b, m)
    ensures Cong(Pow(a, e), Pow(b, e), m)
  {
    if e == 0 {
      CongRefl(1, m);
    } else {
      CongPow(a, b, e - 1, m);
      CongMul(a, b, Pow(a, e - 1), Pow(b, e - 1), m);
    }
  }

  // ----- Bezout and Euclid -----

  lemma {:induction false} Bezout(a: nat, b: nat) returns (g: int, x: int, y: int)
    requires a > 0
    ensures g > 0 && Divides(g, a) && Divides(g, b) && x * a + y * b == g
    decreases b
  {
    if b == 0 {
      g, x, y := a, 1, 0;
      MultipleDivides(a, 1);
      MultipleDivides(a, 0);
    } else {
      var h, u, v := Bezout(b, a % b);
      var q := a / b;
      Combination(h, b, q, a % b, 1);
      assert q * b + 1 * (a % b) == a;
      assert u * b + v * (a - q * b) == v * a + (u - v * q) * b;
      g, x, y := h, v, u - v * q;
    }
  }

  lemma PrimeBezout(p: int, a: int) returns (x: int, y: int)
    requires Prime(p) && !Divides(p, a)
    ensures x * p + y * a == 1
  {
    CongMod(a, p);
    var g, u, v := Bezout(p, a % p);
    if g >= 2 {
      var k := Quotient(g, a % p);
      if g >= p {
        assert g == p by {
          var j := Quotient(g, p);
          if j <= 0 { MulMono(g, j, 0); }
          MulMono(g, 1, j);
        }
        if k >= 1 { MulMono(g, 1, k); } else { MulMono(g, k, 0); }
      }
      assert false;
    }
    assert a % p == a - p * (a / p);
    assert v * (p * (a / p)) == (v * (a / p)) * p;
    assert u * p + v * (a % p) == (u - v * (a / p)) * p + v * a;
    x, y := u - v * (a / p), v;
  }

  /** Euclid's lemma. */
  lemma EuclidPrime(p: int, a: int, b: int)
    requires Prime(p) && Divides(p, a * b)
    ensures Divides(p, a) || Divides(p, b)
  {
    if !Divides(p, a) {
      var x, y := PrimeBezout(p, a);
      MultipleDivides(p, 1);
      assert p * 1 == p;
      Combination(p, p, x * b, a * b, y);
      assert (x * b) * p + y * (a * b) == (x * p + y * a) * b;
    }
  }

  lemma Cancel(p: int, c: int, a: int, b: int)
    requires Prime(p) && !Divides(p, c) && Cong(c * a, c * b, p)
    ensures Cong(a, b, p)
  {
    assert c * a - c * b == c * (a - b);
    EuclidPrime(p, c, a - b);
  }

  lemma SmallNotDivisible(p: int, a: int)
    requires 0 < a < p
    ensures !Divides(p, a)
  {
    DivModUnique(a, 0, a, p);
  }

  lemma {:induction false} PowNotDivisible(p: int, a: int, e: nat)
    requires Prime(p) && !Divides(p, a)
    ensures !Divides(p, Pow(a, e))
  {
    if e == 0 {
      SmallNotDivisible(p, 1);
    } else {
      PowNotDivisible(p, a, e - 1);
      if Divides(p, Pow(a, e)) {
        EuclidPrime(p, a, Pow(a, e - 1));
      }
    }
  }

  // ----- Fermat's little theorem, by the binomial theorem -----

  ghost function Binomial(n: nat, k: nat): nat {
    if k == 0 then 1 else if n == 0 then 0 else Binomial(n - 1, k - 1) + Binomial(n - 1, k)
  }

  /** The first k + 1 terms of the binomial expansion of (a + 1)^n. */
  ghost function Partial(a: int, n: nat, k: nat): int {
    Binomial(n, k) * Pow(a, k) + if k == 0 then 0 else Partial(a, n, k - 1)
  }

  lemma {:induction false} BinomialDiagonal(n: nat, k: nat)
    requires k >= n
    ensures Binomial(n, k) == if k == n then 1 else 0
  {
    if n > 0 {
      BinomialDiagonal(n - 1, k - 1);
      BinomialDiagonal(n - 1, k);
    }
  }

  lemma {:induction false} Absorption(n: nat, k: nat)
    requires n >= 1 && k >= 1
    ensures k * Binomial(n, k) == n * Binomial(n - 1, k - 1)
  {
    if n == 1 {
      BinomialDiagonal(1, k);
      BinomialDiagonal(0, k - 1);
    } else {
      Absorption(n - 1, k);
      var u, v := Binomial(n - 1, k - 1), Binomial(n - 1, k);
      if k > 1 {
        Absorption(n - 1, k - 1);
        AbsorptionStep(n, k, u, v, Binomial(n - 2, k - 2), Binomial(n - 2, k - 1));
      }
    }
  }

  lemma AbsorptionStep(n: int, k: int, u: int, v: int, w: int, x: int)
    requires k * v == (n - 1) * x && (k - 1) * u == (n - 1) * w && u == w + x
    ensures k * (u + v) == n * u
  {
    calc {
      k * (u + v);
      (k - 1) * u + u + k * v;
      (n - 1) * w + u + (n - 1) * x;
      (n - 1) * (w + x) + u;
    }
  }

  lemma {:induction false} PartialStep(a: int, n: nat, k: nat)
    requires k >= 1
    ensures Partial(a, n + 1, k) == Partial(a, n, k) + a * Partial(a, n, k - 1)
  {
    var x, y := Partial(a, n, k - 1), if k > 1 then Partial(a, n, k - 2) else 0;
    if k > 1 { PartialStep(a, n, k - 1); }
    StepAlgebra(a, Binomial(n, k - 1), Binomial(n, k), Pow(a, k - 1), x, y);
  }

  lemma StepAlgebra(a: int, c: int, d: int, w: int, x: int, y: int)
    ensures (c + d) * (a * w) + (x + a * y) == (d * (a * w) + x) + a * (c * w + y)
  {
    assert (c + d) * (a * w) == d * (a * w) + a * (c * w);
    assert a * (c * w + y) == a * (c * w) + a * y;
  }

  lemma {:induction false} BinomialTheorem(a: int, n: nat)
    ensures Partial(a, n, n) == Pow(a + 1, n)
  {
    if n > 0 {
      BinomialTheorem(a, n - 1);
      PartialStep(a, n - 1, n);
      BinomialDiagonal(n - 1, n);
      var s := Partial(a, n - 1, n - 1);
      assert 0 * Pow(a, n) == 0;
      assert s + a * s == (a + 1) * s;
    }
  }

  lemma {:induction false} MiddleTermsVanish(a: int, p: int, k: nat)
    requires Prime(p) && k < p
    ensures Cong(Partial(a, p, k), 1, p)
  {
    if k == 0 {
      CongRefl(1, p);
    } else {
      MiddleTermsVanish(a, p, k - 1);
      Absorption(p, k);
      MultipleDivides(p, Binomial(p - 1, k - 1));
      SmallNotDivisible(p, k);
      EuclidPrime(p, k, Binomial(p, k));
      Combination(p, Binomial(p, k), Pow(a, k), Partial(a, p, k - 1) - 1, 1);
    }
  }

  lemma {:induction false} FermatNat(p: int, a: nat)
    requires Prime(p)
    ensures Cong(Pow(a, p), a, p)
  {
    if a == 0 {
      assert Pow(0, p) == 0 * Pow(0, p - 1) == 0;
      CongRefl(0, p);
    } else {
      FermatNat(p, a - 1);
      BinomialTheorem(a - 1, p);
      BinomialDiagonal(p, p);
      MiddleTermsVanish(a - 1, p, p - 1);
      CongAdd(Pow(a - 1, p), a - 1, Partial(a - 1, p, p - 1), 1, p);
      assert 1 * Pow(a - 1, p) == Pow(a - 1, p);
    }
  }

  /** a^(p-1) is 1 modulo a prime p that does not divide a. */
  lemma Fermat(p: int, a: int)
    requires Prime(p) && !Divides(p, a)
    ensures Cong(Pow(a, p - 1), 1, p)
  {
    var r := a % p;
    CongMod(a, p);
    FermatNat(p, r);
    CongPow(a, r, p, p);
    CongTrans(Pow(a, p), Pow(r, p), r, p);
    CongTrans(Pow(a, p), r, a, p);
    assert a * 1 == a;
    Cancel(p, a, Pow(a, p - 1), 1);
  }
}
