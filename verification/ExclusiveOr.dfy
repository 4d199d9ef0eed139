/** Exclusive-or of non-negative integers of any size. */
module ExclusiveOr {
  import opened Prelude

  function Xor(a: nat, b: nat): nat {
    if a == 0 && b == 0 then 0 else 2 * Xor(a / 2, b / 2) + (a + b) % 2
  }

  lemma {:induction false} XorZero(a: nat)
    ensures Xor(a, 0) == a && Xor(0, a) == a
  {
    if a > 0 { XorZero(a / 2); }
  }

  lemma {:induction false} XorComm(a: nat, b: nat)
    ensures Xor(a, b) == Xor(b, a)
  {
    if a > 0 || b > 0 { XorComm(a / 2, b / 2); }
  }

  lemma {:induction false} XorAssoc(a: nat, b: nat, c: nat)
    ensures Xor(Xor(a, b), c) == Xor(a, Xor(b, c))
  {
    if a > 0 || b > 0 || c > 0 {
      XorAssoc(a / 2, b / 2, c / 2);
      var d, e := Xor(a, b), Xor(b, c);
      Halves(a, b);
      Halves(b, c);
      Halves(d, c);
      Halves(a, e);
      Parity(a, b, c, d, e);
      SameHalves(Xor(d, c), Xor(a, e));
    }
  }

  lemma Parity(a: nat, b: nat, c: nat, d: nat, e: nat)
    requires d % 2 == (a + b) % 2 && e % 2 == (b + c) % 2
    ensures (d + c) % 2 == (a + e) % 2
  {
  }

  lemma SameHalves(m: nat, n: nat)
    requires m / 2 == n / 2 && m % 2 == n % 2
    ensures m == n
  {
  }

  lemma Halves(a: nat, b: nat)
    ensures Xor(a, b) / 2 == Xor(a / 2, b / 2) && Xor(a, b) % 2 == (a + b) % 2
  {
  }

  lemma {:induction false} XorSelf(a: nat, b: nat)
    ensures Xor(a, b) == 0 <==> a == b
  {
    if a > 0 || b > 0 {
      XorSelf(a / 2, b / 2);
    }
  }

  /** (a ^ b) ^ (c ^ d) == (a ^ c) ^ (b ^ d) */
  lemma XorSwap(a: nat, b: nat, c: nat, d: nat)
    ensures Xor(Xor(a, b), Xor(c, d)) == Xor(Xor(a, c), Xor(b, d))
  {
    XorAssoc(a, b, Xor(c, d));
    XorAssoc(b, c, d);
    XorComm(b, c);
    XorAssoc(c, b, d);
    XorAssoc(a, c, Xor(b, d));
  }

  /** Shifting commutes with exclusive-or, and so does cutting off the low k bits. */
  lemma {:induction false} XorSplit(a: nat, b: nat, x: nat, y: nat, k: nat)
    requires x < Pow(2, k) && y < Pow(2, k)
    ensures a * Pow(2, k) + x >= 0 && b * Pow(2, k) + y >= 0 && Xor(x, y) < Pow(2, k)
    ensures Xor(a * Pow(2, k) + x, b * Pow(2, k) + y) == Xor(a, b) * Pow(2, k) + Xor(x, y)
  {
    var w := Pow(2, k);
    MulNonNeg(a, w);
    MulNonNeg(b, w);
    if k > 0 {
      var h := Pow(2, k - 1);
      MulNonNeg(a, h);
      MulNonNeg(b, h);
      MulNonNeg(Xor(a, b), h);
      XorSplit(a, b, x / 2, y / 2, k - 1);
      XorAppend(a * h, b * h, Xor(a, b) * h, x, y);
      Doubled(a, h);
      Doubled(b, h);
      Doubled(Xor(a, b), h);
      Halves(x, y);
    }
  }

  lemma Doubled(m: int, h: int)
    ensures m * (2 * h) == 2 * (m * h)
  {
  }

  lemma XorAppend(m: nat, n: nat, o: nat, x: nat, y: nat)
    requires Xor(m + x / 2, n + y / 2) == o + Xor(x / 2, y / 2)
    ensures Xor(2 * m + x, 2 * n + y) == 2 * o + Xor(x, y)
  {
    AppendLow(m, x);
    AppendLow(n, y);
    Halves(2 * m + x, 2 * n + y);
    Halves(x, y);
    AppendParity(m, x, n, y);
    AppendLow(o, Xor(x, y));
    SameHalves(Xor(2 * m + x, 2 * n + y), 2 * o + Xor(x, y));
  }

  lemma AppendLow(m: nat, x: nat)
    ensures (2 * m + x) / 2 == m + x / 2 && (2 * m + x) % 2 == x % 2
  {
  }

  lemma AppendParity(m: nat, x: nat, n: nat, y: nat)
    ensures (2 * m + x + (2 * n + y)) % 2 == (x + y) % 2
  {
  }

  /** XorSplit for a known power of two. */
  lemma XorSplitAt(a: nat, b: nat, x: nat, y: nat, k: nat, w: nat)
    requires w == Pow(2, k) && x < w && y < w
    ensures a * w + x >= 0 && b * w + y >= 0 && Xor(x, y) < w
    ensures Xor(a * w + x, b * w + y) == Xor(a, b) * w + Xor(x, y)
  {
    XorSplit(a, b, x, y, k);
  }
}
