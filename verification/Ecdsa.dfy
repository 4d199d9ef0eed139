/** Scalar multiplication, signing and verification (Bitcoin/ecc.py: Point.__rmul__, S256Point, PrivateKey). */
module Ecdsa {
  import opened Prelude
  import opened NumberTheory
  import opened Curve
  import F = Field

  ghost predicate Associates(c: Curve, s: Point, t: Point, u: Point)
    requires c.Valid()
  {
    OnCurve(c, s) && OnCurve(c, t) && OnCurve(c, u) ==> Sum(c, Sum(c, s, t), u) == Sum(c, s, Sum(c, t, u))
  }

  /** The textbook law this development takes as a hypothesis. */
  ghost predicate Associative(c: Curve)
    requires c.Valid()
  {
    forall s, t, u :: Associates(c, s, t, u)
  }

  ghost predicate Group(c: Curve) {
    c.Valid() && Prime(c.p) && c.p >= 5 && Associative(c)
  }

  /** k-fold addition of one point. */
  function Times(c: Curve, k: nat, pt: Point): Point
    requires c.Valid()
  {
    if k == 0 then Infinity else Sum(c, Times(c, k - 1, pt), pt)
  }

  lemma {:induction false} TimesOnCurve(c: Curve, k: nat, pt: Point)
    requires Group(c) && OnCurve(c, pt)
    ensures OnCurve(c, Times(c, k, pt))
  {
    if k > 0 {
      TimesOnCurve(c, k - 1, pt);
      AdditionCloses(c, Times(c, k - 1, pt), pt);
    }
  }

  lemma {:induction false} TimesAdd(c: Curve, m: nat, n: nat, pt: Point)
    requires Group(c) && OnCurve(c, pt)
    ensures Times(c, m + n, pt) == Sum(c, Times(c, m, pt), Times(c, n, pt))
  {
    if n > 0 {
      TimesAdd(c, m, n - 1, pt);
      TimesOnCurve(c, m, pt);
      TimesOnCurve(c, n - 1, pt);
      assert Associates(c, Times(c, m, pt), Times(c, n - 1, pt), pt);
    }
  }

  lemma {:induction false} TimesTimes(c: Curve, m: nat, n: nat, pt: Point)
    requires Group(c) && OnCurve(c, pt)
    ensures m * n >= 0 && Times(c, m, Times(c, n, pt)) == Times(c, m * n, pt)
  {
    MulNonNeg(m, n);
    if m > 0 {
      TimesTimes(c, m - 1, n, pt);
      assert m * n == (m - 1) * n + n;
      TimesAdd(c, (m - 1) * n, n, pt);
    }
  }

  lemma {:induction false} TimesInfinity(c: Curve, k: nat)
    requires c.Valid()
    ensures Times(c, k, Infinity) == Infinity
  {
    if k > 0 { TimesInfinity(c, k - 1); }
  }

  lemma DoubleAndAddStep(c: Curve, coef: nat, pt: Point)
    requires Group(c) && OnCurve(c, pt)
    ensures Times(c, coef, pt)
         == Sum(c, if coef % 2 == 1 then pt else Infinity, Times(c, coef / 2, Sum(c, pt, pt)))
  {
    var half := coef / 2;
    assert Times(c, 1, pt) == Sum(c, Times(c, 0, pt), pt) == pt;
    assert Times(c, 2, pt) == Sum(c, Times(c, 1, pt), pt);
    TimesTimes(c, half, 2, pt);
    if coef % 2 == 1 {
      TimesAdd(c, 1, half * 2, pt);
    }
  }

  /** Point.__rmul__: double-and-add. It never raises, and computes the k-fold sum. */
  method DoubleAndAdd(c: Curve, coefficient: nat, self: Point) returns (r: Option<Point>)
    requires Group(c) && OnCurve(c, self)
    ensures r == Some(Times(c, coefficient, self))
  {
    var coef, current, result := coefficient, self, Infinity;
    while coef != 0
      invariant OnCurve(c, current) && OnCurve(c, result)
      invariant Sum(c, result, Times(c, coef, current)) == Times(c, coefficient, self)
    {
      DoubleAndAddStep(c, coef, current);
      AdditionCloses(c, current, current);
      AdditionCloses(c, result, current);
      ghost var next := Times(c, coef / 2, Sum(c, current, current));
      TimesOnCurve(c, coef / 2, Sum(c, current, current));
      assert Associates(c, result, current, next);
      if coef % 2 == 1 {
        var added := Plus(c, result, current);
        if added.None? { return None; }
        result := added.value;
      }
      var doubled := Plus(c, current, current);
      if doubled.None? { return None; }
      current := doubled.value;
      coef := coef / 2;
    }
    r := Some(result);
  }

  // ----- signatures -----

  /** Domain parameters: a curve, a generator and the generator's order. */
  datatype Domain = Domain(c: Curve, g: Point, n: nat)

  ghost predicate ValidDomain(d: Domain) {
    Group(d.c) && OnCurve(d.c, d.g) && d.g.Affine? && Prime(d.n) && Times(d.c, d.n, d.g) == Infinity
  }

  /** S256Point.__rmul__: the coefficient is first reduced modulo the order. */
  function ScalarMul(d: Domain, k: int, pt: Point): Point
    requires d.c.Valid() && d.n > 0
  {
    Times(d.c, k % d.n, pt)
  }

  datatype Signature = Signature(r: nat, s: nat)

  /** PrivateKey.sign with nonce `k`; `isHigh` stands for the test that selects the low form of s.
      Raises when k * G has no coordinates. */
  function Sign(d: Domain, secret: int, z: int, k: nat, isHigh: nat -> bool): Option<Signature>
    requires d.c.Valid() && d.n > 1
  {
    match ScalarMul(d, k, d.g)
    case Infinity => None
    case Affine(r, _) =>
      var s := (z + r * secret) * F.PowMod(k, d.n - 2, d.n) % d.n;
      Some(Signature(r, if isHigh(s) then d.n - s else s))
  }

  /** u * G + v * key, for w the inverse of s. */
  function Combined(d: Domain, key: Point, z: int, r: int, w: int): Point
    requires d.c.Valid() && d.n > 1
  {
    Sum(d.c, ScalarMul(d, z * w % d.n, d.g), ScalarMul(d, r * w % d.n, key))
  }

  /** The point whose x coordinate S256Point.verify compares with r. */
  function VerifyPoint(d: Domain, key: Point, z: int, sig: Signature): Point
    requires d.c.Valid() && d.n > 1
  {
    Combined(d, key, z, sig.r, F.PowMod(sig.s, d.n - 2, d.n))
  }

  /** S256Point.verify; raises when the sum has no coordinates. */
  function Verify(d: Domain, key: Point, z: int, sig: Signature): Option<bool>
    requires d.c.Valid() && d.n > 1
  {
    match VerifyPoint(d, key, z, sig)
    case Infinity => None
    case Affine(x, _) => Some(x == sig.r)
  }

  function PublicKey(d: Domain, secret: int): Point
    requires d.c.Valid() && d.n > 0
  {
    ScalarMul(d, secret, d.g)
  }

  // ----- arithmetic in the exponent -----

  lemma TimesReduced(d: Domain, k: nat, pt: Point)
    requires Group(d.c) && OnCurve(d.c, pt) && d.n > 0 && Times(d.c, d.n, pt) == Infinity
    ensures Times(d.c, k % d.n, pt) == Times(d.c, k, pt)
  {
    var q := k / d.n;
    TimesTimes(d.c, q, d.n, pt);
    TimesInfinity(d.c, q);
    assert k == q * d.n + k % d.n;
    TimesAdd(d.c, q * d.n, k % d.n, pt);
  }

  lemma TimesCong(d: Domain, k: nat, m: nat, pt: Point)
    requires Group(d.c) && OnCurve(d.c, pt) && d.n > 0 && Times(d.c, d.n, pt) == Infinity
    requires Cong(k, m, d.n)
    ensures Times(d.c, k, pt) == Times(d.c, m, pt)
  {
    CongRemainder(k, m, d.n);
    TimesReduced(d, k, pt);
    TimesReduced(d, m, pt);
  }

  /** No multiple of the generator by k in [1, n) is the point at infinity. */
  lemma GeneratorOrder(d: Domain, k: nat)
    requires ValidDomain(d) && 0 < k < d.n
    ensures Times(d.c, k, d.g).Affine?
  {
    var i := F.PowMod(k, d.n - 2, d.n);
    SmallNotDivisible(d.n, k);
    F.InverseByFermat(k, d.n);
    TimesTimes(d.c, i, k, d.g);
    TimesInfinity(d.c, i);
    assert i * k == k * i;
    TimesCong(d, i * k, 1, d.g);
    assert Times(d.c, 1, d.g) == Sum(d.c, Times(d.c, 0, d.g), d.g) == d.g;
  }

  /** Under the key secret * G, verify looks at the multiple (z + r * secret) / s of the generator. */
  lemma VerifyMeaning(d: Domain, secret: int, z: int, sig: Signature, m: nat)
    requires ValidDomain(d)
    requires Cong(m, (z + sig.r * secret) * F.PowMod(sig.s, d.n - 2, d.n), d.n)
    ensures VerifyPoint(d, PublicKey(d, secret), z, sig) == Times(d.c, m, d.g)
  {
    var n, w, e := d.n, F.PowMod(sig.s, d.n - 2, d.n), secret % d.n;
    ReduceTwice(z * w, n);
    ReduceTwice(sig.r * w, n);
    ExponentCong(z, sig.r, secret, w, m, n);
    var u, v := z * w % n, sig.r * w % n;
    MulNonNeg(v, e);
    SumOfMultiples(d, u, v, e, v * e);
    TimesCong(d, u + v * e, m, d.g);
  }

  lemma SumOfMultiples(d: Domain, u: nat, v: nat, e: nat, w: nat)
    requires Group(d.c) && OnCurve(d.c, d.g) && w == v * e
    ensures Sum(d.c, Times(d.c, u, d.g), Times(d.c, v, Times(d.c, e, d.g))) == Times(d.c, u + w, d.g)
  {
    TimesTimes(d.c, v, e, d.g);
    TimesAdd(d.c, u, w, d.g);
  }

  lemma ReduceTwice(a: int, n: int)
    requires n > 0
    ensures 0 <= a % n < n && a % n % n == a % n
  {
    DivModUnique(a % n, 0, a % n, n);
  }

  lemma ExponentCong(z: int, r: int, secret: int, w: int, m: int, n: int)
    requires n > 0 && Cong(m, (z + r * secret) * w, n)
    ensures Cong(z * w % n + (r * w % n) * (secret % n), m, n)
  {
    var zw, rw := z * w, r * w;
    CongMod(zw, n);
    CongMod(rw, n);
    CongMod(secret, n);
    CongMul(rw % n, rw, secret % n, secret, n);
    CongAdd(zw % n, zw, (rw % n) * (secret % n), rw * secret, n);
    Distribute(z, r, secret, w);
    CongSym(m, (z + r * secret) * w, n);
    CongTrans(zw % n + (rw % n) * (secret % n), zw + rw * secret, m, n);
  }

  lemma Distribute(z: int, r: int, e: int, w: int)
    ensures z * w + r * w * e == (z + r * e) * w
  {
    assert r * w * e == r * e * w;
  }

  /** The inverses of s and n - s are opposite. */
  lemma OppositeInverse(n: nat, s: nat)
    requires Prime(n) && 0 < s < n
    ensures Divides(n, F.PowMod(s, n - 2, n) + F.PowMod(n - s, n - 2, n))
  {
    var w, w' := F.PowMod(s, n - 2, n), F.PowMod(n - s, n - 2, n);
    SmallNotDivisible(n, s);
    SmallNotDivisible(n, n - s);
    F.InverseByFermat(s, n);
    F.InverseByFermat(n - s, n);
    MultipleDivides(n, w');
    CongAdd(s * w, 1, (n - s) * w', 1, n);
    assert s * w - (n - s) * w' == s * (w + w') - n * w';
    Combination(n, s * (w + w') - n * w', 1, n * w', 1);
    EuclidPrime(n, s, w + w');
  }

  lemma OppositeMod(n: nat, a: int, w: nat, w': nat)
    requires n > 0 && Divides(n, w + w')
    ensures Divides(n, a * w % n + a * w' % n)
  {
    CongMod(a * w, n);
    CongMod(a * w', n);
    CongAdd(a * w % n, a * w, a * w' % n, a * w', n);
    Combination(n, w + w', a, 0, 0);
    assert a * w + a * w' == a * (w + w') + 0 * 0;
    CongZero(a * w % n + a * w' % n, a * w + a * w', n);
  }

  lemma OppositeTimes(d: Domain, a: int, w: nat, w': nat, pt: Point)
    requires Group(d.c) && OnCurve(d.c, pt) && d.n > 0 && Times(d.c, d.n, pt) == Infinity
    requires Divides(d.n, w + w')
    ensures Sum(d.c, Times(d.c, a * w % d.n, pt), Times(d.c, a * w' % d.n, pt)) == Infinity
  {
    OppositeMod(d.n, a, w, w');
    OppositeScalars(d, a * w % d.n, a * w' % d.n, pt);
  }

  lemma OppositeScalars(d: Domain, u: nat, u': nat, pt: Point)
    requires Group(d.c) && OnCurve(d.c, pt) && d.n > 0 && Times(d.c, d.n, pt) == Infinity && Divides(d.n, u + u')
    ensures Sum(d.c, Times(d.c, u, pt), Times(d.c, u', pt)) == Infinity
  {
    TimesAdd(d.c, u, u', pt);
    TimesCong(d, u + u', 0, pt);
  }

  lemma SwapMiddle(c: Curve, s: Point, t: Point, u: Point, v: Point)
    requires Group(c) && OnCurve(c, s) && OnCurve(c, t) && OnCurve(c, u) && OnCurve(c, v)
    ensures Sum(c, Sum(c, s, t), Sum(c, u, v)) == Sum(c, Sum(c, s, u), Sum(c, t, v))
  {
    AdditionCloses(c, u, v);
    AdditionCloses(c, t, u);
    AdditionCloses(c, t, v);
    AdditionCommutes(c, t, u);
    assert Associates(c, s, t, Sum(c, u, v));
    assert Associates(c, t, u, v);
    assert Associates(c, u, t, v);
    assert Associates(c, s, u, Sum(c, t, v));
  }

  /** Replacing s by n - s never changes the verdict, for every key whose order divides n. */
  lemma Malleable(d: Domain, key: Point, z: int, sig: Signature)
    requires ValidDomain(d) && OnCurve(d.c, key) && Times(d.c, d.n, key) == Infinity
    requires 0 < sig.s < d.n
    ensures Verify(d, key, z, Signature(sig.r, d.n - sig.s)) == Verify(d, key, z, sig)
  {
    OppositeInverse(d.n, sig.s);
    OppositeSums(d, key, z, sig.r, F.PowMod(sig.s, d.n - 2, d.n), F.PowMod(d.n - sig.s, d.n - 2, d.n));
    SameVerdict(d, key, z, sig, Signature(sig.r, d.n - sig.s));
  }

  lemma SameVerdict(d: Domain, key: Point, z: int, sig: Signature, other: Signature)
    requires d.c.Valid() && d.n > 1 && sig.r == other.r
    requires Sum(d.c, VerifyPoint(d, key, z, sig), VerifyPoint(d, key, z, other)) == Infinity
    ensures Verify(d, key, z, other) == Verify(d, key, z, sig)
  {
    OppositePoints(d.c, VerifyPoint(d, key, z, sig), VerifyPoint(d, key, z, other));
  }

  lemma OppositeSums(d: Domain, key: Point, z: int, r: int, w: int, w': int)
    requires ValidDomain(d) && OnCurve(d.c, key) && Times(d.c, d.n, key) == Infinity
    requires w >= 0 && w' >= 0 && Divides(d.n, w + w')
    ensures Sum(d.c, Combined(d, key, z, r, w), Combined(d, key, z, r, w')) == Infinity
  {
    var n := d.n;
    ReduceTwice(z * w, n);
    ReduceTwice(r * w, n);
    ReduceTwice(z * w', n);
    ReduceTwice(r * w', n);
    OppositeTimes(d, z, w, w', d.g);
    OppositeTimes(d, r, w, w', key);
    var u, v, u', v' := z * w % n, r * w % n, z * w' % n, r * w' % n;
    TimesOnCurve(d.c, u, d.g);
    TimesOnCurve(d.c, u', d.g);
    TimesOnCurve(d.c, v, key);
    TimesOnCurve(d.c, v', key);
    SwapMiddle(d.c, Times(d.c, u, d.g), Times(d.c, v, key), Times(d.c, u', d.g), Times(d.c, v', key));
  }

  lemma PublicKeyOrder(d: Domain, secret: int)
    requires ValidDomain(d)
    ensures OnCurve(d.c, PublicKey(d, secret)) && Times(d.c, d.n, PublicKey(d, secret)) == Infinity
  {
    var e := secret % d.n;
    TimesOnCurve(d.c, e, d.g);
    TimesTimes(d.c, d.n, e, d.g);
    TimesTimes(d.c, e, d.n, d.g);
    assert d.n * e == e * d.n;
    TimesInfinity(d.c, e);
  }

  /** With i and w inverse to k and s, and s = t i, the quotient t w is k. */
  lemma InverseChain(n: int, k: int, i: int, s: int, w: int, t: int)
    requires n > 0 && Cong(k * i, 1, n) && Cong(s * w, 1, n) && Cong(s, t * i, n)
    ensures Cong(k, t * w, n)
  {
    assert k * s - t == k * (s - t * i) + t * (k * i - 1);
    Combination(n, s - t * i, k, k * i - 1, t);
    assert k - t * w == w * (k * s - t) + (-k) * (s * w - 1);
    Combination(n, k * s - t, w, s * w - 1, -k);
  }

  /** (z + r e) / k divided by itself times k: the multiple verify computes is k again. */
  lemma UndoSigning(n: nat, k: nat, t: int, s: nat)
    requires Prime(n) && 0 < k < n && s == t * F.PowMod(k, n - 2, n) % n && s != 0
    ensures s < n && Cong(k, t * F.PowMod(s, n - 2, n), n)
  {
    var i := F.PowMod(k, n - 2, n);
    CongMod(t * i, n);
    SmallNotDivisible(n, k);
    SmallNotDivisible(n, s);
    F.InverseByFermat(k, n);
    F.InverseByFermat(s, n);
    InverseChain(n, k, i, s, F.PowMod(s, n - 2, n), t);
  }

  /** Signing computes r and s from the nonce; this is the signature before and after the flip. */
  lemma SignedParts(d: Domain, secret: int, z: int, k: nat, isHigh: nat -> bool) returns (r: nat, s: nat)
    requires ValidDomain(d) && 0 < k < d.n
    ensures Times(d.c, k, d.g).Affine? && r == Times(d.c, k, d.g).x
    ensures s == (z + r * secret) * F.PowMod(k, d.n - 2, d.n) % d.n
    ensures Sign(d, secret, z, k, isHigh) == Some(Signature(r, if isHigh(s) then d.n - s else s))
  {
    DivModUnique(k, 0, k, d.n);
    GeneratorOrder(d, k);
    r := Times(d.c, k, d.g).x;
    s := (z + r * secret) * F.PowMod(k, d.n - 2, d.n) % d.n;
  }

  /** A zero s stands for a zero quotient t / k, hence for a zero t. */
  lemma ZeroQuotient(n: int, k: int, i: int, t: int)
    requires n > 0 && Cong(k * i, 1, n) && t * i % n == 0
    ensures Divides(n, t)
  {
    CongMod(t * i, n);
    CongSym(0, t * i, n);
    assert t == k * (t * i) + (-t) * (k * i - 1);
    Combination(n, t * i - 0, k, k * i - 1, -t);
  }

  lemma ZeroTimes(n: int, t: int, w: int)
    requires n > 0 && Divides(n, t)
    ensures Cong(0, t * w, n)
  {
    Combination(n, t, -w, 0, 0);
  }

  /** If s comes out as zero, verify is left with the point at infinity in either form. */
  lemma ZeroNeverVerifies(d: Domain, secret: int, z: int, k: nat, sig: Signature)
    requires ValidDomain(d) && 0 < k < d.n && (z + sig.r * secret) * F.PowMod(k, d.n - 2, d.n) % d.n == 0
    ensures Verify(d, PublicKey(d, secret), z, sig) == None
  {
    var t := z + sig.r * secret;
    SmallNotDivisible(d.n, k);
    F.InverseByFermat(k, d.n);
    ZeroQuotient(d.n, k, F.PowMod(k, d.n - 2, d.n), t);
    ZeroTimes(d.n, t, F.PowMod(sig.s, d.n - 2, d.n));
    VerifyMeaning(d, secret, z, sig, 0);
  }

  /** The two forms of s vanish together. */
  lemma KeptForm(n: nat, s: nat, high: bool)
    requires n > 0 && s < n
    ensures (if high then n - s else s) % n == 0 <==> s == 0
  {
    DivModUnique(n, 1, 0, n);
    if s > 0 {
      DivModUnique(s, 0, s, n);
      DivModUnique(n - s, 0, n - s, n);
    }
  }

  /** A signature made with a nonce in [1, n) verifies exactly if s is not zero modulo n, whichever form of s is kept;
      otherwise verify raises. */
  lemma SignedVerifies(d: Domain, secret: int, z: int, k: nat, isHigh: nat -> bool)
    requires ValidDomain(d) && 0 < k < d.n
    ensures var made := Sign(d, secret, z, k, isHigh);
      made.Some?
      && Verify(d, PublicKey(d, secret), z, made.value) == if made.value.s % d.n == 0 then None else Some(true)
  {
    var n := d.n;
    var r, s := SignedParts(d, secret, z, k, isHigh);
    KeptForm(n, s, isHigh(s));
    if s == 0 {
      ZeroNeverVerifies(d, secret, z, k, Sign(d, secret, z, k, isHigh).value);
    } else {
      UndoSigning(n, k, z + r * secret, s);
      VerifyMeaning(d, secret, z, Signature(r, s), k);
      PublicKeyOrder(d, secret);
      Malleable(d, PublicKey(d, secret), z, Signature(r, s));
    }
  }

  /** The other side occurs: for every secret and every nonce there is a digest below n whose signature makes verify
      raise. */
  lemma ZeroDigest(d: Domain, secret: int, k: nat, isHigh: nat -> bool) returns (z: nat)
    requires ValidDomain(d) && 0 < k < d.n
    ensures z < d.n && Sign(d, secret, z, k, isHigh).Some?
    ensures Verify(d, PublicKey(d, secret), z, Sign(d, secret, z, k, isHigh).value) == None
  {
    var r, any := SignedParts(d, secret, 0, k, isHigh);
    z := (-(r * secret)) % d.n;
    var r', s := SignedParts(d, secret, z, k, isHigh);
    VanishingSum(d.n, z, r * secret, F.PowMod(k, d.n - 2, d.n));
    KeptForm(d.n, s, isHigh(s));
    SignedVerifies(d, secret, z, k, isHigh);
  }

  lemma VanishingSum(n: nat, z: nat, t: int, i: int)
    requires n > 0 && z == (-t) % n
    ensures (z + t) * i % n == 0
  {
    CongMod(-t, n);
    assert Divides(n, z - -t);
    Combination(n, z + t, i, 0, 0);
    assert i * (z + t) == (z + t) * i;
  }

  /** The test that the source makes, s > N / 2. */
  function AboveHalf(n: nat): nat -> bool { s => 2 * s > n }

  /** With it the kept s is at most half the order. */
  lemma LowForm(d: Domain, secret: int, z: int, k: nat)
    requires ValidDomain(d) && 0 < k < d.n
    ensures Sign(d, secret, z, k, AboveHalf(d.n)).Some? && 2 * Sign(d, secret, z, k, AboveHalf(d.n)).value.s <= d.n
  {
    var r, s := SignedParts(d, secret, z, k, AboveHalf(d.n));
  }

  // ----- what verify refuses -----

  /** Exactly the multiples of the order give infinity. */
  lemma InfiniteMultiples(d: Domain, m: nat)
    requires ValidDomain(d)
    ensures Times(d.c, m, d.g).Infinity? <==> Divides(d.n, m)
  {
    TimesReduced(d, m, d.g);
    if m % d.n != 0 { GeneratorOrder(d, m % d.n); }
  }

  /** Two multiples of the generator with one abscissa are equal or opposite. */
  lemma SameAbscissa(d: Domain, m: nat, k: nat)
    requires ValidDomain(d) && Times(d.c, m, d.g).Affine? && Times(d.c, k, d.g).Affine?
    ensures Times(d.c, m, d.g).x == Times(d.c, k, d.g).x <==> Divides(d.n, m - k) || Divides(d.n, m + k)
  {
    var p, q := Times(d.c, m, d.g), Times(d.c, k, d.g);
    TimesAdd(d.c, m, k, d.g);
    InfiniteMultiples(d, m + k);
    if p == q { SameMultiple(d, m, k); }
    if Divides(d.n, m - k) { TimesCong(d, m, k, d.g); }
    if Divides(d.n, m + k) { OppositePoints(d.c, p, q); }
  }

  lemma SameMultiple(d: Domain, m: nat, k: nat)
    requires ValidDomain(d) && Times(d.c, m, d.g) == Times(d.c, k, d.g)
    ensures Divides(d.n, m - k)
  {
    // the opposite of k, added to both
    var e := (d.n - k % d.n) as nat;
    TimesAdd(d.c, m, e, d.g);
    TimesAdd(d.c, k, e, d.g);
    InfiniteMultiples(d, m + e);
    InfiniteMultiples(d, k + e);
    CongMod(k, d.n);
    Cancelled(d.n, m, k, e);
  }

  lemma Cancelled(n: nat, m: nat, k: nat, e: nat)
    requires n > 0 && e == n - k % n && (Divides(n, m + e) <==> Divides(n, k + e))
    ensures Divides(n, m - k)
  {
    MultipleDivides(n, 1);
    CongMod(k, n);
    Combination(n, k % n - k, -1, n * 1, 1);
    assert Divides(n, k + e);
    Combination(n, m + e, 1, k + e, -1);
  }

  /** The verdict on any signature under the key secret * G: true exactly if the multiple (z + r * secret) / s of the
      generator has abscissa r; verify raises exactly if that multiple is infinity. */
  lemma VerdictMeaning(d: Domain, secret: int, z: int, sig: Signature, m: nat)
    requires ValidDomain(d)
    requires Cong(m, (z + sig.r * secret) * F.PowMod(sig.s, d.n - 2, d.n), d.n)
    ensures var v := Verify(d, PublicKey(d, secret), z, sig);
      && (v == None <==> Divides(d.n, m))
      && (v == Some(true) <==> !Divides(d.n, m) && Times(d.c, m, d.g).Affine? && Times(d.c, m, d.g).x == sig.r)
  {
    VerifyMeaning(d, secret, z, sig, m);
    InfiniteMultiples(d, m);
  }

  /** For t = k s modulo n, the multiples t' / s vanishes, equals k or equals -k exactly if t' vanishes, equals t or -t. */
  lemma QuotientsCompare(n: int, k: int, t: int, t': int, s: int, w: int, m: int)
    requires n > 0 && Cong(s * w, 1, n) && Cong(k, t * w, n) && Cong(m, t' * w, n)
    ensures Divides(n, m) <==> Divides(n, t')
    ensures Divides(n, m - k) <==> Divides(n, t' - t)
    ensures Divides(n, m + k) <==> Divides(n, t' + t)
  {
    Scaled(n, t', s, w, m);
    Combination(n, m - t' * w, 1, k - t * w, -1);
    assert m - k - (t' - t) * w == 1 * (m - t' * w) + -1 * (k - t * w);
    Scaled(n, t' - t, s, w, m - k);
    Combination(n, m - t' * w, 1, k - t * w, 1);
    assert m + k - (t' + t) * w == 1 * (m - t' * w) + 1 * (k - t * w);
    Scaled(n, t' + t, s, w, m + k);
  }

  /** Multiplying by something invertible neither makes nor loses a multiple of n. */
  lemma Scaled(n: int, t: int, s: int, w: int, m: int)
    requires n > 0 && Cong(s * w, 1, n) && Cong(m, t * w, n)
    ensures Divides(n, m) <==> Divides(n, t)
  {
    ScaledBack(s, t, w, m);
    Combination(n, m - t * w, s, s * w - 1, t);
    if Divides(n, m) { Combination(n, m, s, s * m - t, -1); }
    if Divides(n, t) { Combination(n, m - t * w, 1, t, w); }
  }

  lemma ScaledBack(s: int, t: int, w: int, m: int)
    ensures s * m - t == s * (m - t * w) + t * (s * w - 1)
  {
    assert s * (m - t * w) == s * m - s * (t * w);
    assert s * (t * w) == t * (s * w);
  }

  /** A signature made for z, presented for any z', is accepted exactly if z' is z or -z - 2 r e modulo n; verify raises
      exactly for z' = -r e, and refuses all other digests. */
  lemma MadeVerdict(d: Domain, secret: int, z: int, k: nat, isHigh: nat -> bool, z': int)
    requires ValidDomain(d) && 0 < k < d.n
    ensures var made := Sign(d, secret, z, k, isHigh);
      made.Some? && (made.value.s % d.n != 0 ==>
        Verify(d, PublicKey(d, secret), z', made.value) ==
          if Divides(d.n, z' + made.value.r * secret) then None
          else Some(Divides(d.n, z' - z) || Divides(d.n, z' + z + 2 * (made.value.r * secret))))
  {
    var r, s := SignedParts(d, secret, z, k, isHigh);
    KeptForm(d.n, s, isHigh(s));
    if s != 0 {
      LowVerdict(d, secret, z, k, z', Signature(r, s));
      PublicKeyOrder(d, secret);
      Malleable(d, PublicKey(d, secret), z', Signature(r, s));
    }
  }

  lemma LowVerdict(d: Domain, secret: int, z: int, k: nat, z': int, sig: Signature)
    requires ValidDomain(d) && 0 < k < d.n && Times(d.c, k, d.g).Affine? && sig.r == Times(d.c, k, d.g).x
    requires sig.s == (z + sig.r * secret) * F.PowMod(k, d.n - 2, d.n) % d.n && sig.s != 0
    ensures Verify(d, PublicKey(d, secret), z', sig) ==
      if Divides(d.n, z' + sig.r * secret) then None
      else Some(Divides(d.n, z' - z) || Divides(d.n, z' + z + 2 * (sig.r * secret)))
  {
    var n, w, a := d.n, F.PowMod(sig.s, d.n - 2, d.n), sig.r * secret;
    var m := (z' + a) * w % n;
    CongMod((z' + a) * w, n);
    UndoSigning(n, k, z + a, sig.s);
    SmallNotDivisible(n, sig.s);
    F.InverseByFermat(sig.s, n);
    QuotientsCompare(n, k, z + a, z' + a, sig.s, w, m);
    VerdictMeaning(d, secret, z', sig, m);
    assert z' + a - (z + a) == z' - z && z' + a + (z + a) == z' + z + 2 * a;
    if !Divides(n, m) {
      InfiniteMultiples(d, m);
      SameAbscissa(d, m, k);
    }
  }

  // ----- public keys -----

  lemma DoubleNotDivisible(n: nat, e: nat)
    requires Prime(n) && n > 2 && 0 < e < n
    ensures !Divides(n, e + e)
  {
    SmallNotDivisible(n, 2);
    SmallNotDivisible(n, e);
    assert e + e == 2 * e;
    if Divides(n, e + e) {
      EuclidPrime(n, 2, e);
    }
  }

  /** Over an odd order, a public key is a point with y other than 0, unless the secret is a multiple of the order. */
  lemma PublicKeyShape(d: Domain, secret: int)
    requires ValidDomain(d) && d.n > 2
    ensures PublicKey(d, secret).Infinity? <==> secret % d.n == 0
    ensures OnCurve(d.c, PublicKey(d, secret)) && (secret % d.n != 0 ==> PublicKey(d, secret).y != 0)
  {
    var e := secret % d.n;
    PublicKeyOrder(d, secret);
    if e != 0 {
      GeneratorOrder(d, e);
      DoubleNotDivisible(d.n, e);
      NotItsOpposite(d, e);
    }
  }

  lemma NotItsOpposite(d: Domain, e: nat)
    requires ValidDomain(d) && !Divides(d.n, e + e) && Times(d.c, e, d.g).Affine?
    ensures Times(d.c, e, d.g).y != 0
  {
    GeneratorOrder(d, (e + e) % d.n);
    TimesReduced(d, e + e, d.g);
    TimesAdd(d.c, e, e, d.g);
  }
}
