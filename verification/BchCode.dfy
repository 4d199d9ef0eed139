/** The code behind the Bech32 checksum: bech32_polymod (Bitcoin/ecc.py) computes the remainder of a polynomial over the
    field of 32 elements modulo the generator polynomial of BIP 173. */
module BchCode {
  import opened Prelude
  import opened Positional
  import opened ExclusiveOr
  import opened Bech32

  // ----- the field of 32 elements, whose addition is exclusive-or -----

  /** Twice an element: 32, the fifth power of the generator of the field, is 8 + 1. */
  function Double(a: nat): nat { if a < 16 then 2 * a else Xor(2 * a - 32, 9) }

  function If(p: bool, b: nat): nat { if p then b else 0 }

  /** The product, by shifting and adding. */
  function Times(a: nat, b: nat): nat
    decreases a, b
  {
    if a == 0 then 0 else Xor(If(a % 2 == 1, b), Times(a / 2, Double(b)))
  }

  // ----- six elements, the coefficients of a polynomial of degree five -----

  datatype Word = Word(d5: nat, d4: nat, d3: nat, d2: nat, d1: nat, d0: nat)
  {
    predicate Valid() { d5 < 32 && d4 < 32 && d3 < 32 && d2 < 32 && d1 < 32 && d0 < 32 }

    function Num(): nat { ((((d5 * 32 + d4) * 32 + d3) * 32 + d2) * 32 + d1) * 32 + d0 }

    function Digits(): seq<nat> { [d5, d4, d3, d2, d1, d0] }
  }

  const ONE := Word(0, 0, 0, 0, 0, 1)

  /** The generator polynomial is x^6 + 29 x^5 + 22 x^4 + 20 x^3 + 21 x^2 + 29 x + 18; these are its lower coefficients. */
  const GENERATOR := Word(29, 22, 20, 21, 29, 18)

  /** x times the polynomial plus v, modulo x^6 + g: the coefficient of x^6 is replaced by its multiple of g. */
  function NextRemainder(g: Word, w: Word, v: nat): Word {
    var t := w.d5;
    Word(Xor(w.d4, Times(t, g.d5)), Xor(w.d3, Times(t, g.d4)), Xor(w.d2, Times(t, g.d3)), Xor(w.d1, Times(t, g.d2)),
         Xor(w.d0, Times(t, g.d1)), Xor(v, Times(t, g.d0)))
  }

  /** The remainder of the polynomial with coefficients w and then `values`. */
  function Remainder(g: Word, w: Word, values: seq<nat>): Word
    decreases |values|, w
  {
    if values == [] then w else Remainder(g, NextRemainder(g, w, values[0]), values[1..])
  }

  // ----- exclusive-or digit by digit -----

  lemma DigitXor(hi: nat, hi': nat, lo: nat, lo': nat)
    requires lo < 32 && lo' < 32
    ensures Xor(lo, lo') < 32 && Xor(hi * 32 + lo, hi' * 32 + lo') == Xor(hi, hi') * 32 + Xor(lo, lo')
  {
    assert Pow(2, 1) == 2 && Pow(2, 2) == 4 && Pow(2, 3) == 8 && Pow(2, 4) == 16 && Pow(2, 5) == 32;
    XorSplitAt(hi, hi', lo, lo', 5, 32);
  }

  lemma {:induction false} ValueXor(us: seq<nat>, vs: seq<nat>, ws: seq<nat>)
    requires |us| == |vs| == |ws| && AreDigits(us, 32) && AreDigits(vs, 32)
    requires forall i :: 0 <= i < |us| ==> ws[i] == Xor(us[i], vs[i])
    ensures AreDigits(ws, 32) && Xor(Value(us, 32), Value(vs, 32)) == Value(ws, 32)
    decreases |us|
  {
    if us == [] {
      XorZero(0);
    } else {
      var n := |us| - 1;
      ValueXor(us[..n], vs[..n], ws[..n]);
      DigitXor(Value(us[..n], 32), Value(vs[..n], 32), us[n], vs[n]);
    }
  }

  lemma NumIsValue(w: Word)
    ensures w.Num() == Value(w.Digits(), 32)
  {
    var a, b, c, d, e := [w.d5], [w.d5, w.d4], [w.d5, w.d4, w.d3], [w.d5, w.d4, w.d3, w.d2], [w.d5, w.d4, w.d3, w.d2, w.d1];
    ValueSnoc([], w.d5, 32);
    ValueSnoc(a, w.d4, 32);
    ValueSnoc(b, w.d3, 32);
    ValueSnoc(c, w.d2, 32);
    ValueSnoc(d, w.d1, 32);
    ValueSnoc(e, w.d0, 32);
    assert [] + [w.d5] == a && a + [w.d4] == b && b + [w.d3] == c && c + [w.d2] == d && d + [w.d1] == e;
    assert e + [w.d0] == w.Digits();
  }

  function Plus(u: Word, v: Word): Word {
    Word(Xor(u.d5, v.d5), Xor(u.d4, v.d4), Xor(u.d3, v.d3), Xor(u.d2, v.d2), Xor(u.d1, v.d1), Xor(u.d0, v.d0))
  }

  lemma WordXor(u: Word, v: Word, w: Word)
    requires u.Valid() && v.Valid() && w == Plus(u, v)
    ensures w.Valid() && Xor(u.Num(), v.Num()) == w.Num()
  {
    ValueXor(u.Digits(), v.Digits(), w.Digits());
    NumIsValue(u);
    NumIsValue(v);
    NumIsValue(w);
    ValidDigits(w);
  }

  lemma ValidDigits(w: Word)
    requires AreDigits(w.Digits(), 32)
    ensures w.Valid()
  {
    var ds := w.Digits();
    assert ds[0] == w.d5 && ds[1] == w.d4 && ds[2] == w.d3 && ds[3] == w.d2 && ds[4] == w.d1 && ds[5] == w.d0;
  }

  // ----- sums and doubles by comparisons -----

  function Low(a: nat, w: nat): nat { if a >= w then a - w else a }

  /** The bit of weight w of a sum. */
  function Bit(a: nat, b: nat, w: nat): nat { if (a >= w) != (b >= w) then w else 0 }

  function Add2(a: nat, b: nat): nat { Bit(a, b, 2) + Bit(Low(a, 2), Low(b, 2), 1) }

  function Add3(a: nat, b: nat): nat { Bit(a, b, 4) + Add2(Low(a, 4), Low(b, 4)) }

  function Add4(a: nat, b: nat): nat { Bit(a, b, 8) + Add3(Low(a, 8), Low(b, 8)) }

  function Add(a: nat, b: nat): nat { Bit(a, b, 16) + Add4(Low(a, 16), Low(b, 16)) }

  lemma XorBit(a: nat, b: nat)
    requires a < 2 && b < 2
    ensures Xor(a, b) == (if a != b then 1 else 0) && Xor(a, b) == Bit(a, b, 1)
  {
    assert a / 2 == 0 && b / 2 == 0;
  }

  lemma BitAbove(x: nat, y: nat, la: nat, lb: nat, k: nat, w: nat)
    requires x < 2 && y < 2 && w == Pow(2, k) && la < w && lb < w
    ensures Xor(la, lb) < w
    ensures Xor(If(x == 1, w) + la, If(y == 1, w) + lb) == If(x != y, w) + Xor(la, lb)
  {
    XorSplitAt(x, y, la, lb, k, w);
    XorBit(x, y);
    assert 0 * w == 0 && 1 * w == w;
  }

  lemma XorTopBit(a: nat, b: nat, k: nat, w: nat, low: nat)
    requires w == Pow(2, k) && a < 2 * w && b < 2 * w && low == Xor(Low(a, w), Low(b, w))
    ensures Xor(a, b) == Bit(a, b, w) + low && low < w
  {
    BitAbove(if a >= w then 1 else 0, if b >= w then 1 else 0, Low(a, w), Low(b, w), k, w);
  }

  lemma AddIs2(a: nat, b: nat)
    requires a < 4 && b < 4
    ensures Add2(a, b) == Xor(a, b)
  {
    assert Pow(2, 1) == 2;
    XorBit(Low(a, 2), Low(b, 2));
    XorTopBit(a, b, 1, 2, Bit(Low(a, 2), Low(b, 2), 1));
  }

  lemma AddIs3(a: nat, b: nat, k: nat)
    requires a < 8 && b < 8 && k == 2
    ensures Add3(a, b) == Xor(a, b)
  {
    assert Pow(2, 1) == 2 && Pow(2, k) == 4;
    var low := Add2(Low(a, 4), Low(b, 4));
    AddIs2(Low(a, 4), Low(b, 4));
    XorTopBit(a, b, k, 4, low);
  }

  lemma AddIs4(a: nat, b: nat, k: nat)
    requires a < 16 && b < 16 && k == 3 && Pow(2, k) == 8
    ensures Add4(a, b) == Xor(a, b)
  {
    var low := Add3(Low(a, 8), Low(b, 8));
    AddIs3(Low(a, 8), Low(b, 8), 2);
    XorTopBit(a, b, k, 8, low);
  }

  lemma AddIs5(a: nat, b: nat, k: nat)
    requires a < 32 && b < 32 && k == 4 && Pow(2, k) == 16 && Pow(2, 3) == 8
    ensures Add(a, b) == Xor(a, b) < 32
  {
    var low := Add4(Low(a, 16), Low(b, 16));
    AddIs4(Low(a, 16), Low(b, 16), 3);
    XorTopBit(a, b, k, 16, low);
  }

  lemma AddIsXor(a: nat, b: nat)
    requires a < 32 && b < 32
    ensures Add(a, b) == Xor(a, b) < 32
  {
    assert Pow(2, 1) == 2 && Pow(2, 2) == 4 && Pow(2, 3) == 8 && Pow(2, 4) == 16;
    AddIs5(a, b, 4);
  }

  predicate Doubled(a: nat, b: nat) { a < 32 && b < 32 && b == if a < 16 then 2 * a else Add(2 * a - 32, 9) }

  lemma DoubledIs(a: nat, b: nat)
    requires Doubled(a, b)
    ensures Double(a) == b
  {
    if a >= 16 { AddIsXor(2 * a - 32, 9); }
  }

  lemma TimesStep(t: nat, b: nat, b2: nat)
    requires Double(b) == b2
    ensures Times(t, b) == Xor(If(t % 2 == 1, b), Times(t / 2, b2))
  {
    if t == 0 { XorZero(0); }
  }

  /** The product with an element whose doubles are known. */
  lemma TimesIs(t: nat, b: nat, b2: nat, b4: nat, b8: nat, b16: nat)
    requires t < 32 && Doubled(b, b2) && Doubled(b2, b4) && Doubled(b4, b8) && Doubled(b8, b16)
    ensures Times(t, b) == Xor5(If(t % 2 == 1, b), If(t / 2 % 2 == 1, b2), If(t / 2 / 2 % 2 == 1, b4),
                                If(t / 2 / 2 / 2 % 2 == 1, b8), If(t / 2 / 2 / 2 / 2 % 2 == 1, b16))
  {
    var t1, t2, t3, t4 := t / 2, t / 2 / 2, t / 2 / 2 / 2, t / 2 / 2 / 2 / 2;
    DoubledIs(b, b2);
    DoubledIs(b2, b4);
    DoubledIs(b4, b8);
    DoubledIs(b8, b16);
    TimesStep(t, b, b2);
    TimesStep(t1, b2, b4);
    TimesStep(t2, b4, b8);
    TimesStep(t3, b8, b16);
    TimesBit(t4, b16);
  }

  lemma TimesBit(t: nat, b: nat)
    requires t < 2
    ensures Times(t, b) == If(t % 2 == 1, b)
  {
    XorZero(b);
    assert t == 1 ==> Times(t / 2, Double(b)) == 0;
  }

  // ----- one round -----

  const G1 := Word(19, 5, 1, 3, 19, 13)
  const G2 := Word(15, 10, 2, 6, 15, 26)
  const G3 := Word(30, 20, 4, 12, 30, 29)
  const G4 := Word(21, 1, 8, 24, 21, 19)

  lemma ConstantDigits()
    ensures GENERATOR.Num() == 0x3b6a57b2 && G1.Num() == 0x26508e6d && G2.Num() == 0x1ea119fa
    ensures G3.Num() == 0x3d4233dd && G4.Num() == 0x2a1462b3
  {
  }

  predicate DoubledWord(a: Word, b: Word) {
    Doubled(a.d5, b.d5) && Doubled(a.d4, b.d4) && Doubled(a.d3, b.d3) && Doubled(a.d2, b.d2) && Doubled(a.d1, b.d1)
    && Doubled(a.d0, b.d0)
  }

  /** The five constants of the source are the generator, doubled again and again. */
  lemma ConstantsAreDoubles()
    ensures DoubledWord(GENERATOR, G1) && DoubledWord(G1, G2) && DoubledWord(G2, G3) && DoubledWord(G3, G4)
  {
    FirstDoubles();
    SecondDoubles();
    ThirdDoubles();
    FourthDoubles();
  }

  lemma Doubled29() ensures Doubled(29, 19) { }

  lemma Doubled22() ensures Doubled(22, 5) { }

  lemma Doubled20() ensures Doubled(20, 1) { }

  lemma Doubled21() ensures Doubled(21, 3) { }

  lemma Doubled18() ensures Doubled(18, 13) { }

  lemma Doubled19() ensures Doubled(19, 15) { }

  lemma Doubled26() ensures Doubled(26, 29) { }

  lemma Doubled30() ensures Doubled(30, 21) { }

  lemma DoubledLow(a: nat)
    requires a < 16
    ensures Doubled(a, 2 * a)
  {
  }

  lemma FirstDoubles()
    ensures DoubledWord(GENERATOR, G1)
  {
    Doubled29();
    Doubled22();
    Doubled20();
    Doubled21();
    Doubled18();
  }

  lemma SecondDoubles()
    ensures DoubledWord(G1, G2)
  {
    Doubled19();
    DoubledLow(5);
    DoubledLow(1);
    DoubledLow(3);
    DoubledLow(13);
  }

  lemma ThirdDoubles()
    ensures DoubledWord(G2, G3)
  {
    DoubledLow(15);
    DoubledLow(10);
    DoubledLow(2);
    DoubledLow(6);
    Doubled26();
  }

  lemma FourthDoubles()
    ensures DoubledWord(G3, G4)
  {
    Doubled30();
    Doubled20();
    DoubledLow(4);
    DoubledLow(12);
    Doubled29();
  }

  function Scaled(p: bool, w: Word): Word { Word(If(p, w.d5), If(p, w.d4), If(p, w.d3), If(p, w.d2), If(p, w.d1), If(p, w.d0)) }

  lemma ScaledNum(p: bool, w: Word)
    requires w.Valid()
    ensures Scaled(p, w).Valid() && Scaled(p, w).Num() == Chosen(p, w.Num())
  {
  }

  function FiveWords(a: Word, b: Word, c: Word, d: Word, e: Word): Word { Plus(a, Plus(b, Plus(c, Plus(d, e)))) }

  lemma FiveXor(a: Word, b: Word, c: Word, d: Word, e: Word)
    requires a.Valid() && b.Valid() && c.Valid() && d.Valid() && e.Valid()
    ensures FiveWords(a, b, c, d, e).Valid()
    ensures Xor5(a.Num(), b.Num(), c.Num(), d.Num(), e.Num()) == FiveWords(a, b, c, d, e).Num()
  {
    var w3 := Plus(d, e);
    var w2 := Plus(c, w3);
    var w1 := Plus(b, w2);
    WordXor(d, e, w3);
    WordXor(c, w3, w2);
    WordXor(b, w2, w1);
    WordXor(a, w1, Plus(a, w1));
  }

  /** t times g. */
  function Reduction(g: Word, t: nat): Word {
    Word(Times(t, g.d5), Times(t, g.d4), Times(t, g.d3), Times(t, g.d2), Times(t, g.d1), Times(t, g.d0))
  }

  lemma ReductionIs(t: nat, g: Word, g1: Word, g2: Word, g3: Word, g4: Word)
    requires t < 32 && DoubledWord(g, g1) && DoubledWord(g1, g2) && DoubledWord(g2, g3) && DoubledWord(g3, g4)
    ensures Reduction(g, t)
         == FiveWords(Scaled(t % 2 == 1, g), Scaled(t / 2 % 2 == 1, g1), Scaled(t / 2 / 2 % 2 == 1, g2),
                      Scaled(t / 2 / 2 / 2 % 2 == 1, g3), Scaled(t / 2 / 2 / 2 / 2 % 2 == 1, g4))
  {
    TimesIs(t, g.d5, g1.d5, g2.d5, g3.d5, g4.d5);
    TimesIs(t, g.d4, g1.d4, g2.d4, g3.d4, g4.d4);
    TimesIs(t, g.d3, g1.d3, g2.d3, g3.d3, g4.d3);
    TimesIs(t, g.d2, g1.d2, g2.d2, g3.d2, g4.d2);
    TimesIs(t, g.d1, g1.d1, g2.d1, g3.d1, g4.d1);
    TimesIs(t, g.d0, g1.d0, g2.d0, g3.d0, g4.d0);
  }

  lemma FiveScaled(p: bool, q: bool, r: bool, s: bool, u: bool, a: Word, b: Word, c: Word, d: Word, e: Word, k: nat, l: nat,
                   m: nat, n: nat, o: nat)
    requires a.Valid() && b.Valid() && c.Valid() && d.Valid() && e.Valid()
    requires a.Num() == k && b.Num() == l && c.Num() == m && d.Num() == n && e.Num() == o
    ensures var w := FiveWords(Scaled(p, a), Scaled(q, b), Scaled(r, c), Scaled(s, d), Scaled(u, e));
      w.Valid() && Xor5(Chosen(p, k), Chosen(q, l), Chosen(r, m), Chosen(s, n), Chosen(u, o)) == w.Num()
  {
    ScaledNum(p, a);
    ScaledNum(q, b);
    ScaledNum(r, c);
    ScaledNum(s, d);
    ScaledNum(u, e);
    FiveXor(Scaled(p, a), Scaled(q, b), Scaled(r, c), Scaled(s, d), Scaled(u, e));
  }

  lemma ContributionWords(t: nat, g: Word, g1: Word, g2: Word, g3: Word, g4: Word) returns (w: Word)
    requires g.Valid() && g1.Valid() && g2.Valid() && g3.Valid() && g4.Valid()
    requires g.Num() == 0x3b6a57b2 && g1.Num() == 0x26508e6d && g2.Num() == 0x1ea119fa && g3.Num() == 0x3d4233dd
    requires g4.Num() == 0x2a1462b3
    ensures w == FiveWords(Scaled(t % 2 == 1, g), Scaled(t / 2 % 2 == 1, g1), Scaled(t / 2 / 2 % 2 == 1, g2),
                           Scaled(t / 2 / 2 / 2 % 2 == 1, g3), Scaled(t / 2 / 2 / 2 / 2 % 2 == 1, g4))
    ensures w.Valid() && Contribution(t, 0) == w.Num()
  {
    var p, q, r, s, u := ContributionOf(t);
    FiveScaled(p, q, r, s, u, g, g1, g2, g3, g4, g.Num(), g1.Num(), g2.Num(), g3.Num(), g4.Num());
    w := FiveWords(Scaled(p, g), Scaled(q, g1), Scaled(r, g2), Scaled(s, g3), Scaled(u, g4));
  }

  lemma ContributionIs(t: nat, red: Word)
    requires t < 32 && red == Reduction(GENERATOR, t)
    ensures red.Valid() && Contribution(t, 0) == red.Num()
  {
    ConstantsAreDoubles();
    ConstantDigits();
    var w := ContributionWords(t, GENERATOR, G1, G2, G3, G4);
    ReductionIs(t, GENERATOR, G1, G2, G3, G4);
  }

  lemma Shifted(w: Word)
    requires w.Valid()
    ensures w.Num() / 0x2000000 == w.d5 && w.Num() % 0x2000000 * 32 == Word(w.d4, w.d3, w.d2, w.d1, w.d0, 0).Num()
  {
    var low := (((w.d4 * 32 + w.d3) * 32 + w.d2) * 32 + w.d1) * 32 + w.d0;
    assert w.Num() == w.d5 * 0x2000000 + low;
    DivModUnique(w.Num(), w.d5, low, 0x2000000);
  }

  /** Appending a symbol to the five lower coefficients. */
  lemma SymbolAdded(w: Word, v: nat)
    requires w.Valid() && v < 32
    ensures Xor(Word(w.d4, w.d3, w.d2, w.d1, w.d0, 0).Num(), v) == Word(w.d4, w.d3, w.d2, w.d1, w.d0, v).Num()
  {
    LowDigitAdded((((w.d4 * 32 + w.d3) * 32 + w.d2) * 32 + w.d1) * 32 + w.d0, v);
  }

  lemma LowDigitAdded(high: nat, v: nat)
    requires v < 32
    ensures Xor(high * 32 + 0, v) == high * 32 + v
  {
    DigitXor(high, 0, 0, v);
    XorZero(high);
    XorZero(v);
  }

  lemma StepParts(w: Word, v: nat, red: Word, next: Word)
    requires w.Valid() && v < 32 && red.Valid() && Contribution(w.d5, 0) == red.Num()
    requires next == Plus(Word(w.d4, w.d3, w.d2, w.d1, w.d0, v), red)
    ensures next.Valid() && Step(w.Num(), v) == next.Num()
  {
    Shifted(w);
    SymbolAdded(w, v);
    WordXor(Word(w.d4, w.d3, w.d2, w.d1, w.d0, v), red, next);
  }

  /** A round of bech32_polymod is a step of the division by the generator polynomial. */
  lemma StepIsDivision(w: Word, v: nat)
    requires w.Valid() && v < 32
    ensures NextRemainder(GENERATOR, w, v).Valid() && Step(w.Num(), v) == NextRemainder(GENERATOR, w, v).Num()
  {
    var red := Reduction(GENERATOR, w.d5);
    ContributionIs(w.d5, red);
    StepParts(w, v, red, NextRemainder(GENERATOR, w, v));
  }

  /** bech32_polymod gives the remainder of the whole polynomial. */
  lemma {:induction false} FeedIsRemainder(w: Word, values: seq<nat>)
    requires w.Valid() && AreSymbols(values)
    ensures Remainder(GENERATOR, w, values).Valid() && Feed(w.Num(), values) == Remainder(GENERATOR, w, values).Num()
    decreases |values|
  {
    if values != [] {
      StepIsDivision(w, values[0]);
      FeedIsRemainder(NextRemainder(GENERATOR, w, values[0]), values[1..]);
    }
  }

  lemma NumInjective(u: Word, v: Word)
    requires u.Valid() && v.Valid() && u.Num() == v.Num()
    ensures u == v
  {
    NumIsValue(u);
    NumIsValue(v);
    DigitsOfValue(u.Digits(), 32);
    DigitsOfValue(v.Digits(), 32);
    SameDigits(u, v);
  }

  lemma SameDigits(u: Word, v: Word)
    requires u.Digits() == v.Digits()
    ensures u == v
  {
    var ds := u.Digits();
    assert ds[0] == v.d5 && ds[1] == v.d4 && ds[2] == v.d3 && ds[3] == v.d2 && ds[4] == v.d1 && ds[5] == v.d0;
  }

  /** The part of the prefix that is fed first: the upper bits of its characters, 0, and their lower five bits. */
  lemma ExpandLayout(hrp: string, i: nat)
    requires i < |hrp|
    ensures |Expand(hrp)| == 2 * |hrp| + 1 && Expand(hrp)[|hrp|] == 0
    ensures Expand(hrp)[i] * 32 + Expand(hrp)[|hrp| + 1 + i] == hrp[i] as nat && Expand(hrp)[|hrp| + 1 + i] < 32
  {
  }

  /** A string verifies exactly if the polynomial with the coefficients 1, the expanded prefix and the data leaves 1. */
  lemma VerifiesExactly(hrp: string, data: seq<nat>)
    requires AreSymbols(Expand(hrp) + data)
    ensures Verifies(hrp, data) <==> Remainder(GENERATOR, ONE, Expand(hrp) + data) == ONE
  {
    FeedIsRemainder(ONE, Expand(hrp) + data);
    if Verifies(hrp, data) { NumInjective(Remainder(GENERATOR, ONE, Expand(hrp) + data), ONE); }
  }
}
