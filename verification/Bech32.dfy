/** The Bech32 checksum (Bitcoin/ecc.py: bech32_polymod, bech32_hrp_expand, bech32_verify_checksum,
    bech32_create_checksum). Shifts and masks are written as divisions and remainders by powers of two. */
module Bech32 {
  import opened Prelude
  import opened Positional
  import opened ExclusiveOr

  /** The five constants of bech32_polymod. */
  function Generator(i: nat): (g: nat)
    requires i < 5
    ensures g < 0x40000000
  {
    if i == 0 then 0x3b6a57b2 else if i == 1 then 0x26508e6d else if i == 2 then 0x1ea119fa
    else if i == 3 then 0x3d4233dd else 0x2a1462b3
  }

  function Chosen(bit: bool, g: nat): nat { if bit then g else 0 }

  /** What the top bits contribute: the constants from the i-th on, under the bits that are set, lowest bit first. */
  function Contribution(top: nat, i: nat): nat
    requires i <= 5
    decreases top, 5 - i
  {
    if i == 5 then 0 else Xor(Chosen(top % 2 == 1, Generator(i)), Contribution(top / 2, i + 1))
  }

  /** One round: multiply by x, add a symbol, reduce by the generator polynomial. */
  function Step(chk: nat, value: nat): nat {
    Xor(Xor(chk % 0x2000000 * 32, value), Contribution(chk / 0x2000000, 0))
  }

  function Feed(chk: nat, values: seq<nat>): nat
    decreases |values|, chk
  {
    if values == [] then chk else Feed(Step(chk, values[0]), values[1..])
  }

  lemma HalveAgain(top: nat, i: nat)
    ensures Pow(2, i) >= 1 && top / Pow(2, i) / 2 == top / Pow(2, i + 1)
  {
    PowPositive(2, i);
    var m := Pow(2, i);
    var q, r := top / m, top % m;
    var h, l := q / 2, q % 2;
    assert top == q * m + r && q == h * 2 + l;
    assert (h * 2 + l) * m == h * (2 * m) + l * m;
    MulMono(m, l, 1);
    DivModUnique(top, h, l * m + r, 2 * m);
  }

  /** The constant the i-th pass of the inner loop adds. */
  function Term(top: nat, i: nat): nat
    requires i < 5
  {
    PowPositive(2, i);
    Chosen(top / Pow(2, i) % 2 == 1, Generator(i))
  }

  /** The constants still to be added after i passes. */
  function Remaining(top: nat, i: nat): nat
    requires i <= 5
  {
    PowPositive(2, i);
    Contribution(top / Pow(2, i), i)
  }

  lemma OnePass(chk: nat, top: nat, i: nat)
    requires i < 5
    ensures Xor(chk, Remaining(top, i)) == Xor(Xor(chk, Term(top, i)), Remaining(top, i + 1))
  {
    HalveAgain(top, i);
    PowPositive(2, i + 1);
    XorAssoc(chk, Term(top, i), Remaining(top, i + 1));
  }

  method Polymod(values: seq<nat>) returns (chk: nat)
    ensures chk == Feed(1, values)
  {
    chk := 1;
    for n := 0 to |values|
      invariant Feed(1, values) == Feed(chk, values[n..])
    {
      ghost var next := Step(chk, values[n]);
      var top := chk / 0x2000000;
      chk := Xor(chk % 0x2000000 * 32, values[n]);
      for i := 0 to 5
        invariant Xor(chk, Remaining(top, i)) == next
      {
        OnePass(chk, top, i);
        chk := Xor(chk, Term(top, i));
      }
      XorZero(chk);
      assert values[n..][1..] == values[n + 1..];
    }
  }

  /** bech32_hrp_expand */
  function Expand(hrp: string): seq<nat> {
    seq(|hrp|, i requires 0 <= i < |hrp| => hrp[i] as nat / 32) + [0]
    + seq(|hrp|, i requires 0 <= i < |hrp| => hrp[i] as nat % 32)
  }

  predicate AreSymbols(data: seq<nat>) { AreDigits(data, 32) }

  predicate AreWords(values: seq<nat>) { AreDigits(values, 0x40000000) }

  /** bech32_verify_checksum */
  predicate Verifies(hrp: string, data: seq<nat>) {
    Feed(1, Expand(hrp) + data) == 1
  }

  const SIX_ZEROS: seq<nat> := [0, 0, 0, 0, 0, 0]

  /** (n >> 5 * (5 - i)) & 31 */
  function Piece(n: nat, i: nat): (d: nat)
    requires i < 6
    ensures d < 32
  {
    PowPositive(32, 5 - i);
    n / Pow(32, 5 - i) % 32
  }

  /** bech32_create_checksum */
  function CreateChecksum(hrp: string, data: seq<nat>): (s: seq<nat>)
    ensures |s| == 6 && AreSymbols(s)
  {
    var polymod := Xor(Feed(1, Expand(hrp) + data + SIX_ZEROS), 1);
    seq(6, i requires 0 <= i < 6 => Piece(polymod, i))
  }

  // ----- one round -----

  lemma OddSum(n: nat, a: nat, b: nat)
    requires n % 2 == (a + b) % 2
    ensures (n % 2 == 1) == ((a % 2 == 1) != (b % 2 == 1))
  {
  }

  lemma ChosenLinear(p: bool, q: bool, g: nat)
    ensures Chosen(p != q, g) == Xor(Chosen(p, g), Chosen(q, g))
  {
    XorZero(g);
    XorZero(0);
    XorSelf(g, g);
  }

  lemma {:induction false} ContributionLinear(a: nat, b: nat, i: nat)
    requires i <= 5
    ensures Contribution(Xor(a, b), i) == Xor(Contribution(a, i), Contribution(b, i))
    decreases 5 - i
  {
    if i == 5 {
      XorZero(0);
    } else {
      var g := Generator(i);
      ContributionLinear(a / 2, b / 2, i + 1);
      Halves(a, b);
      OddSum(Xor(a, b), a, b);
      ChosenLinear(a % 2 == 1, b % 2 == 1, g);
      XorSwap(Chosen(a % 2 == 1, g), Chosen(b % 2 == 1, g), Contribution(a / 2, i + 1), Contribution(b / 2, i + 1));
    }
  }

  lemma PowersOfTwo()
    ensures Pow(2, 5) == 32 && Pow(2, 25) == 0x2000000 && Pow(2, 30) == 0x40000000
  {
    assert Pow(2, 5) == 32;
    PowAdd(2, 5, 5);
    PowAdd(2, 10, 10);
    PowAdd(2, 20, 5);
    PowAdd(2, 25, 5);
  }

  lemma SplitAt25(c: nat, d: nat)
    ensures Xor(c, d) % 0x2000000 == Xor(c % 0x2000000, d % 0x2000000)
    ensures Xor(c, d) / 0x2000000 == Xor(c / 0x2000000, d / 0x2000000)
  {
    PowersOfTwo();
    var q, x, r, y := c / 0x2000000, c % 0x2000000, d / 0x2000000, d % 0x2000000;
    assert c == q * 0x2000000 + x && d == r * 0x2000000 + y;
    XorSplitAt(q, r, x, y, 25, 0x2000000);
    AppendedParts(Xor(c, d), Xor(q, r), Xor(x, y));
  }

  lemma AppendedParts(n: nat, q: nat, x: nat)
    requires n == q * 0x2000000 + x && x < 0x2000000
    ensures n / 0x2000000 == q && n % 0x2000000 == x
  {
  }

  lemma TimesThirtyTwo(c: nat, d: nat)
    ensures Xor(c * 32, d * 32) == Xor(c, d) * 32
  {
    PowersOfTwo();
    XorSplit(c, d, 0, 0, 5);
    XorZero(0);
  }

  /** A round is linear over exclusive-or. */
  lemma StepLinear(c: nat, d: nat, v: nat, w: nat)
    ensures Step(Xor(c, d), Xor(v, w)) == Xor(Step(c, v), Step(d, w))
  {
    var lc, ld, tc, td := c % 0x2000000, d % 0x2000000, c / 0x2000000, d / 0x2000000;
    SplitAt25(c, d);
    TimesThirtyTwo(lc, ld);
    ContributionLinear(tc, td, 0);
    XorSwap(lc * 32, ld * 32, v, w);
    XorSwap(Xor(lc * 32, v), Xor(ld * 32, w), Contribution(tc, 0), Contribution(td, 0));
  }

  lemma {:induction false} FeedLinear(c: nat, d: nat, xs: seq<nat>, ys: seq<nat>, zs: seq<nat>)
    requires |xs| == |ys| == |zs| && forall i :: 0 <= i < |xs| ==> zs[i] == Xor(xs[i], ys[i])
    ensures Feed(Xor(c, d), zs) == Xor(Feed(c, xs), Feed(d, ys))
    decreases |xs|
  {
    if xs != [] {
      StepLinear(c, d, xs[0], ys[0]);
      FeedLinear(Step(c, xs[0]), Step(d, ys[0]), xs[1..], ys[1..], zs[1..]);
    }
  }

  lemma {:induction false} FeedConcat(c: nat, xs: seq<nat>, ys: seq<nat>)
    ensures Feed(c, xs + ys) == Feed(Feed(c, xs), ys)
    decreases |xs|
  {
    if xs == [] {
      assert xs + ys == ys;
    } else {
      assert (xs + ys)[1..] == xs[1..] + ys;
      FeedConcat(Step(c, xs[0]), xs[1..], ys);
    }
  }

  // ----- thirty bits -----

  lemma XorBound(a: nat, b: nat)
    requires a < 0x40000000 && b < 0x40000000
    ensures Xor(a, b) < 0x40000000
  {
    PowersOfTwo();
    XorSplit(0, 0, a, b, 30);
  }

  lemma {:induction false} ContributionBound(top: nat, i: nat)
    requires i <= 5
    ensures Contribution(top, i) < 0x40000000
    decreases 5 - i
  {
    if i < 5 {
      ContributionBound(top / 2, i + 1);
      XorBound(Chosen(top % 2 == 1, Generator(i)), Contribution(top / 2, i + 1));
    }
  }

  lemma StepBound(c: nat, v: nat)
    requires v < 0x40000000
    ensures Step(c, v) < 0x40000000
  {
    ContributionBound(c / 0x2000000, 0);
    XorBound(c % 0x2000000 * 32, v);
    XorBound(Xor(c % 0x2000000 * 32, v), Contribution(c / 0x2000000, 0));
  }

  lemma {:induction false} FeedBound(c: nat, values: seq<nat>)
    requires c < 0x40000000 && AreWords(values)
    ensures Feed(c, values) < 0x40000000
    decreases |values|
  {
    if values != [] {
      StepBound(c, values[0]);
      FeedBound(Step(c, values[0]), values[1..]);
    }
  }

  // ----- the low bits of the constants -----

  function Xor5(a: nat, b: nat, c: nat, d: nat, e: nat): nat {
    Xor(a, Xor(b, Xor(c, Xor(d, e))))
  }

  lemma Xor5Halves(a: nat, b: nat, c: nat, d: nat, e: nat)
    ensures Xor5(a, b, c, d, e) / 2 == Xor5(a / 2, b / 2, c / 2, d / 2, e / 2)
    ensures Xor5(a, b, c, d, e) % 2 == (a % 2 + b % 2 + c % 2 + d % 2 + e % 2) % 2
  {
    Halves(d, e);
    Halves(c, Xor(d, e));
    Halves(b, Xor(c, Xor(d, e)));
    Halves(a, Xor(b, Xor(c, Xor(d, e))));
    ParityOfSum(a, b, c, d, e, Xor(d, e), Xor(c, Xor(d, e)), Xor(b, Xor(c, Xor(d, e))));
  }

  lemma ParityOfSum(a: nat, b: nat, c: nat, d: nat, e: nat, x: nat, y: nat, z: nat)
    requires x % 2 == (d + e) % 2 && y % 2 == (c + x) % 2 && z % 2 == (b + y) % 2
    ensures (a + z) % 2 == (a % 2 + b % 2 + c % 2 + d % 2 + e % 2) % 2
  {
    AddParity(d, e, e % 2);
    AddParity(c, x, d % 2 + e % 2);
    AddParity(b, y, c % 2 + (d % 2 + e % 2));
    AddParity(a, z, b % 2 + (c % 2 + (d % 2 + e % 2)));
  }

  lemma AddParity(a: nat, b: nat, b': nat)
    requires b % 2 == b' % 2
    ensures (a + b) % 2 == (a % 2 + b') % 2
  {
  }

  lemma ContributionOf(top: nat) returns (p: bool, q: bool, r: bool, s: bool, t: bool)
    ensures Contribution(top, 0) == Xor5(Chosen(p, 0x3b6a57b2), Chosen(q, 0x26508e6d), Chosen(r, 0x1ea119fa),
                                                 Chosen(s, 0x3d4233dd), Chosen(t, 0x2a1462b3))
    ensures p == (top % 2 == 1) && q == (top / 2 % 2 == 1) && r == (top / 2 / 2 % 2 == 1)
    ensures s == (top / 2 / 2 / 2 % 2 == 1) && t == (top / 2 / 2 / 2 / 2 % 2 == 1)
    ensures top < 32 && !p && !q && !r && !s && !t ==> top == 0
  {
    var x1, x2, x3, x4 := top / 2, top / 2 / 2, top / 2 / 2 / 2, top / 2 / 2 / 2 / 2;
    p, q, r, s, t := top % 2 == 1, x1 % 2 == 1, x2 % 2 == 1, x3 % 2 == 1, x4 % 2 == 1;
    LastContribution(x4);
    NextContribution(x3, 3);
    NextContribution(x2, 2);
    NextContribution(x1, 1);
    NextContribution(top, 0);
  }

  lemma NextContribution(top: nat, i: nat)
    requires i < 5
    ensures Contribution(top, i) == Xor(Chosen(top % 2 == 1, Generator(i)), Contribution(top / 2, i + 1))
  {
  }

  lemma LastContribution(top: nat)
    ensures Contribution(top, 4) == Chosen(top % 2 == 1, 0x2a1462b3)
  {
    var i: nat := 4;
    NextContribution(top, i);
    XorZero(Chosen(top % 2 == 1, 0x2a1462b3));
  }

  predicate Odd(p: bool, a: nat) { p && a % 2 == 1 }

  /** An even number of the chosen values are odd. */
  predicate EvenSum(p: bool, q: bool, r: bool, s: bool, t: bool, a: nat, b: nat, c: nat, d: nat, e: nat) {
    Odd(p, a) == (Odd(q, b) != (Odd(r, c) != (Odd(s, d) != Odd(t, e))))
  }

  lemma LowBit(p: bool, q: bool, r: bool, s: bool, t: bool, a: nat, b: nat, c: nat, d: nat, e: nat, n: nat)
    requires n == Xor5(Chosen(p, a), Chosen(q, b), Chosen(r, c), Chosen(s, d), Chosen(t, e))
    ensures n / 2 == Xor5(Chosen(p, a / 2), Chosen(q, b / 2), Chosen(r, c / 2), Chosen(s, d / 2), Chosen(t, e / 2))
    ensures n % 2 == 0 <==> EvenSum(p, q, r, s, t, a, b, c, d, e)
  {
    Xor5Halves(Chosen(p, a), Chosen(q, b), Chosen(r, c), Chosen(s, d), Chosen(t, e));
    ChosenHalves(p, a);
    ChosenHalves(q, b);
    ChosenHalves(r, c);
    ChosenHalves(s, d);
    ChosenHalves(t, e);
    ParityOfBits(Odd(p, a), Odd(q, b), Odd(r, c), Odd(s, d), Odd(t, e), n);
  }

  lemma ParityOfBits(p: bool, q: bool, r: bool, s: bool, t: bool, n: nat)
    requires n % 2 == (Chosen(p, 1) + Chosen(q, 1) + Chosen(r, 1) + Chosen(s, 1) + Chosen(t, 1)) % 2
    ensures n % 2 == 0 <==> (p == (q != (r != (s != t))))
  {
  }

  lemma ChosenHalves(p: bool, a: nat)
    ensures Chosen(p, a) / 2 == Chosen(p, a / 2) && Chosen(p, a) % 2 == Chosen(Odd(p, a), 1)
  {
  }

  /** If the low k bits of a choice vanish, so does the choice's sum in each of these bits. */
  lemma {:induction false} LowBits(p: bool, q: bool, r: bool, s: bool, t: bool,
                                   a: nat, b: nat, c: nat, d: nat, e: nat, n: nat, k: nat, w: nat)
    requires n == Xor5(Chosen(p, a), Chosen(q, b), Chosen(r, c), Chosen(s, d), Chosen(t, e))
    requires w == Pow(2, k) && w >= 1 && n % w == 0
    ensures EvenSums(p, q, r, s, t, a, b, c, d, e, k)
  {
    if k > 0 {
      LowBit(p, q, r, s, t, a, b, c, d, e, n);
      PowPositive(2, k - 1);
      HalfMultiple(n, Pow(2, k - 1));
      LowBits(p, q, r, s, t, a / 2, b / 2, c / 2, d / 2, e / 2, n / 2, k - 1, Pow(2, k - 1));
    }
  }

  lemma HalfMultiple(n: nat, w: nat)
    requires w >= 1 && n % (2 * w) == 0
    ensures n % 2 == 0 && n / 2 % w == 0
  {
    var m := n / (2 * w);
    assert n == m * (2 * w) == 2 * (m * w);
    DivModUnique(n / 2, m, 0, w);
  }

  predicate EvenSums(p: bool, q: bool, r: bool, s: bool, t: bool, a: nat, b: nat, c: nat, d: nat, e: nat, k: nat)
    decreases k
  {
    k == 0 || (EvenSum(p, q, r, s, t, a, b, c, d, e)
               && EvenSums(p, q, r, s, t, a / 2, b / 2, c / 2, d / 2, e / 2, k - 1))
  }

  lemma FiveSums(p: bool, q: bool, r: bool, s: bool, t: bool, a: nat, b: nat, c: nat, d: nat, e: nat)
    requires EvenSums(p, q, r, s, t, a, b, c, d, e, 5)
    ensures EvenSum(p, q, r, s, t, a, b, c, d, e) && EvenSum(p, q, r, s, t, a / 2, b / 2, c / 2, d / 2, e / 2)
    ensures EvenSum(p, q, r, s, t, a / 2 / 2, b / 2 / 2, c / 2 / 2, d / 2 / 2, e / 2 / 2)
    ensures EvenSum(p, q, r, s, t, a / 2 / 2 / 2, b / 2 / 2 / 2, c / 2 / 2 / 2, d / 2 / 2 / 2, e / 2 / 2 / 2)
    ensures EvenSum(p, q, r, s, t, a / 2 / 2 / 2 / 2, b / 2 / 2 / 2 / 2, c / 2 / 2 / 2 / 2, d / 2 / 2 / 2 / 2,
                    e / 2 / 2 / 2 / 2)
  {
    var k: nat := 4;
    assert EvenSums(p, q, r, s, t, a / 2, b / 2, c / 2, d / 2, e / 2, k);
    assert EvenSums(p, q, r, s, t, a / 2 / 2, b / 2 / 2, c / 2 / 2, d / 2 / 2, e / 2 / 2, k - 1);
  }

  /** The low five bits of the constants are independent. */
  lemma Eliminate(p: bool, q: bool, r: bool, s: bool, t: bool)
    requires EvenSums(p, q, r, s, t, 0x3b6a57b2, 0x26508e6d, 0x1ea119fa, 0x3d4233dd, 0x2a1462b3, 5)
    ensures !p && !q && !r && !s && !t
  {
    FiveSums(p, q, r, s, t, 0x3b6a57b2, 0x26508e6d, 0x1ea119fa, 0x3d4233dd, 0x2a1462b3);
  }

  lemma IndependentChoice(p: bool, q: bool, r: bool, s: bool, t: bool, n: nat)
    requires n == Xor5(Chosen(p, 0x3b6a57b2), Chosen(q, 0x26508e6d), Chosen(r, 0x1ea119fa),
                       Chosen(s, 0x3d4233dd), Chosen(t, 0x2a1462b3))
    requires n % 32 == 0
    ensures !p && !q && !r && !s && !t
  {
    PowersOfTwo();
    LowBits(p, q, r, s, t, 0x3b6a57b2, 0x26508e6d, 0x1ea119fa, 0x3d4233dd, 0x2a1462b3, n, 5, 32);
    Eliminate(p, q, r, s, t);
  }

  /** The constants are independent in their low five bits: only the empty choice is a multiple of 32. */
  lemma IndependentModulo32(top: nat)
    requires top < 32 && Contribution(top, 0) % 32 == 0
    ensures top == 0
  {
    var p, q, r, s, t := ContributionOf(top);
    IndependentChoice(p, q, r, s, t, Contribution(top, 0));
  }

  // ----- rounds lose nothing -----

  lemma StepOf(c: nat, top: nat, low: nat, v: nat)
    requires c == top * 0x2000000 + low && low < 0x2000000
    ensures Step(c, v) == Xor(Xor(low * 32, v), Contribution(top, 0))
  {
    AppendedParts(c, top, low);
  }

  /** A round with the zero symbol only maps zero to zero, so rounds are bijections of the 30-bit words. */
  lemma StepKernel(c: nat)
    requires c < 0x40000000 && Step(c, 0) == 0
    ensures c == 0
  {
    var top, low := DivMod(c, 0x2000000);
    StepOf(c, top, low, 0);
    KernelParts(top, low, Contribution(top, 0));
  }

  lemma MultipleOf32(n: nat)
    ensures n * 32 % 32 == 0
  {
  }

  lemma KernelParts(top: nat, low: nat, k: nat)
    requires top < 32 && k == Contribution(top, 0) && Xor(Xor(low * 32, 0), k) == 0
    ensures top == 0 && low == 0
  {
    XorZero(low * 32);
    XorSelf(low * 32, k);
    MultipleOf32(low);
    IndependentModulo32(top);
    NoContribution(0);
  }

  lemma {:induction false} FeedInjective(c: nat, d: nat, values: seq<nat>)
    requires c < 0x40000000 && d < 0x40000000 && AreWords(values) && Feed(c, values) == Feed(d, values)
    ensures c == d
    decreases |values|
  {
    if values != [] {
      var v := values[0];
      StepBound(c, v);
      StepBound(d, v);
      FeedInjective(Step(c, v), Step(d, v), values[1..]);
      XorSelf(Step(c, v), Step(d, v));
      StepLinear(c, d, v, v);
      XorSelf(v, v);
      XorBound(c, d);
      StepKernel(Xor(c, d));
      XorSelf(c, d);
    }
  }

  /** While the top is free, a round only shifts the new symbol in. */
  lemma StepShifts(c: nat, v: nat)
    requires c < 0x2000000 && v < 32
    ensures Step(c, v) == c * 32 + v
  {
    StepOf(c, 0, c, v);
    AppendSymbol(c, v);
    NoContribution(0);
    XorZero(c * 32 + v);
  }

  lemma AppendSymbol(c: nat, v: nat)
    requires v < 32
    ensures Xor(c * 32, v) == c * 32 + v
  {
    PowersOfTwo();
    XorSplitAt(c, 0, 0, v, 5, 32);
    XorZero(c);
    XorZero(v);
  }

  lemma {:induction false} NoContribution(i: nat)
    requires i <= 5
    ensures Contribution(0, i) == 0
    decreases 5 - i
  {
    if i < 5 {
      NoContribution(i + 1);
      XorZero(0);
    }
  }

  /** From zero, up to six symbols are simply written down in base 32. */
  lemma {:induction false} FeedWrites(symbols: seq<nat>)
    requires |symbols| <= 6 && AreSymbols(symbols)
    ensures Feed(0, symbols) == Value(symbols, 32)
    decreases |symbols|
  {
    if symbols != [] {
      var init, last := symbols[..|symbols| - 1], symbols[|symbols| - 1];
      assert symbols == init + [last];
      FeedWrites(init);
      FeedConcat(0, init, [last]);
      ValueBound(init, 32);
      PowMono(32, |init|, 5);
      assert Pow(32, 5) == 0x2000000;
      StepShifts(Value(init, 32), last);
      assert Feed(Value(init, 32), [last]) == Step(Value(init, 32), last);
    }
  }

  function XorAll(xs: seq<nat>, ys: seq<nat>): (zs: seq<nat>)
    requires |xs| == |ys|
    ensures |zs| == |xs| && forall i :: 0 <= i < |xs| ==> zs[i] == Xor(xs[i], ys[i])
  {
    if xs == [] then [] else [Xor(xs[0], ys[0])] + XorAll(xs[1..], ys[1..])
  }

  lemma XorSymbols(xs: seq<nat>, ys: seq<nat>)
    requires |xs| == |ys| && AreSymbols(xs) && AreSymbols(ys)
    ensures AreSymbols(XorAll(xs, ys))
  {
    forall i | 0 <= i < |xs| ensures Xor(xs[i], ys[i]) < 32 {
      PowersOfTwo();
      XorSplitAt(0, 0, xs[i], ys[i], 5, 32);
    }
  }

  /** Six symbols or fewer fed into the same word leave different words behind, unless they are the same. */
  lemma ShortFeedInjective(c: nat, xs: seq<nat>, ys: seq<nat>)
    requires |xs| == |ys| <= 6 && AreSymbols(xs) && AreSymbols(ys) && Feed(c, xs) == Feed(c, ys)
    ensures xs == ys
  {
    var zs := XorAll(xs, ys);
    XorSymbols(xs, ys);
    FeedLinear(c, c, xs, ys, zs);
    XorSelf(c, c);
    XorSelf(Feed(c, xs), Feed(c, ys));
    FeedWrites(zs);
    ValueOfZeros(|zs|, 32);
    ValueInjective(zs, Zeros(|zs|), 32);
    forall i | 0 <= i < |xs| ensures xs[i] == ys[i] {
      assert zs[i] == 0;
      XorSelf(xs[i], ys[i]);
    }
  }

  // ----- the checksum -----

  lemma ExpandWords(hrp: string)
    ensures AreWords(Expand(hrp))
  {
  }

  lemma PiecesAreDigits(n: nat)
    ensures seq(6, i requires 0 <= i < 6 => Piece(n, i)) == Digits(n, 6, 32)
  {
    var s := seq(6, i requires 0 <= i < 6 => Piece(n, i));
    forall i | 0 <= i < 6 ensures s[i] == Digits(n, 6, 32)[i] {
      DigitAt(n, 6, 32, i);
    }
  }

  /** Data followed by its checksum verifies. */
  lemma ChecksumVerifies(hrp: string, data: seq<nat>)
    requires AreSymbols(data)
    ensures Verifies(hrp, data + CreateChecksum(hrp, data))
  {
    var values, sum := Expand(hrp) + data, CreateChecksum(hrp, data);
    ExpandWords(hrp);
    ChecksumDigits(hrp, data);
    ChecksumAbsorbed(values, sum, Feed(1, values + SIX_ZEROS));
    Reassociate(Expand(hrp), data, sum);
  }

  lemma Reassociate(a: seq<nat>, b: seq<nat>, c: seq<nat>)
    ensures a + (b + c) == a + b + c
  {
  }

  lemma ChecksumAbsorbed(values: seq<nat>, sum: seq<nat>, m: nat)
    requires AreWords(values) && |sum| == 6 && m == Feed(1, values + SIX_ZEROS) && sum == Digits(Xor(m, 1), 6, 32)
    ensures Feed(1, values + sum) == 1
  {
    FeedBound(1, values + SIX_ZEROS);
    XorBound(m, 1);
    FeedDigits(Xor(m, 1));
    FeedConcat(1, values, SIX_ZEROS);
    FeedConcat(1, values, sum);
    AddFromZero(Feed(1, values), sum);
    XorAssoc(m, m, 1);
    XorSelf(m, m);
    XorZero(1);
  }

  /** The checksum is the six base-32 digits of the word. */
  lemma ChecksumDigits(hrp: string, data: seq<nat>)
    ensures CreateChecksum(hrp, data) == Digits(Xor(Feed(1, Expand(hrp) + data + SIX_ZEROS), 1), 6, 32)
  {
    PiecesAreDigits(Xor(Feed(1, Expand(hrp) + data + SIX_ZEROS), 1));
  }

  lemma FeedDigits(n: nat)
    requires n < 0x40000000
    ensures Feed(0, Digits(n, 6, 32)) == n
  {
    assert Pow(32, 6) == 0x40000000;
    ValueOfDigits(n, 6, 32);
    FeedWrites(Digits(n, 6, 32));
  }

  /** Feeding symbols into a word is feeding zeros into it and the symbols into zero. */
  lemma AddFromZero(c: nat, sum: seq<nat>)
    requires |sum| == 6
    ensures Feed(c, sum) == Xor(Feed(c, SIX_ZEROS), Feed(0, sum))
  {
    forall i | 0 <= i < 6 ensures sum[i] == Xor(SIX_ZEROS[i], sum[i]) { XorZero(sum[i]); }
    XorZero(c);
    FeedLinear(c, 0, SIX_ZEROS, sum, sum);
  }

  /** Two verifying strings with the same prefix that differ only within six consecutive symbols are the same: no
      change of one symbol, no swap of neighbours and no burst of up to six changes goes unnoticed. */
  lemma BurstDetected(hrp: string, data: seq<nat>, other: seq<nat>, i: nat, n: nat)
    requires AreSymbols(data) && AreSymbols(other) && |data| == |other| && i + n <= |data| && n <= 6
    requires data[..i] == other[..i] && data[i + n..] == other[i + n..]
    requires Verifies(hrp, data) && Verifies(hrp, other)
    ensures data == other
  {
    var before, after := Expand(hrp) + data[..i], data[i + n..];
    var xs, ys := data[i..i + n], other[i..i + n];
    SplitWindow(Expand(hrp), data, i, n);
    SplitWindow(Expand(hrp), other, i, n);
    ExpandWords(hrp);
    WindowInjective(before, xs, ys, after);
  }

  lemma SplitWindow(prefix: seq<nat>, data: seq<nat>, i: nat, n: nat)
    requires i + n <= |data|
    ensures prefix + data == prefix + data[..i] + data[i..i + n] + data[i + n..]
    ensures data == data[..i] + data[i..i + n] + data[i + n..]
  {
  }

  lemma WindowInjective(before: seq<nat>, xs: seq<nat>, ys: seq<nat>, after: seq<nat>)
    requires AreWords(before) && AreWords(after) && AreSymbols(xs) && AreSymbols(ys) && |xs| == |ys| <= 6
    requires Feed(1, before + xs + after) == Feed(1, before + ys + after)
    ensures xs == ys
  {
    FeedConcat(1, before + xs, after);
    FeedConcat(1, before + ys, after);
    FeedBound(1, before + xs);
    FeedBound(1, before + ys);
    FeedInjective(Feed(1, before + xs), Feed(1, before + ys), after);
    FeedConcat(1, before, xs);
    FeedConcat(1, before, ys);
    ShortFeedInjective(Feed(1, before), xs, ys);
  }

  /** Replacing any one symbol of a verifying string never verifies. */
  lemma SingleErrorDetected(hrp: string, data: seq<nat>, i: nat, v: nat)
    requires AreSymbols(data) && i < |data| && v < 32 && v != data[i] && Verifies(hrp, data)
    ensures !Verifies(hrp, data[i := v])
  {
    if Verifies(hrp, data[i := v]) {
      BurstDetected(hrp, data, data[i := v], i, 1);
    }
  }

  /** The checksum is the only one that verifies. */
  lemma ChecksumUnique(hrp: string, data: seq<nat>, sum: seq<nat>)
    requires AreSymbols(data) && AreSymbols(sum) && |sum| == 6 && Verifies(hrp, data + sum)
    ensures sum == CreateChecksum(hrp, data)
  {
    var made := CreateChecksum(hrp, data);
    ChecksumVerifies(hrp, data);
    BurstDetected(hrp, data + sum, data + made, |data|, 6);
    assert sum == (data + sum)[|data|..] && made == (data + made)[|data|..];
  }
}
