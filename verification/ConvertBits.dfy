/** Regrouping a bit string from one symbol width to another (Bitcoin/ecc.py: convertbits). */
module ConvertBits {
  import opened Prelude
  import opened Positional

  /** 1 << w */
  function Shift(w: nat): (s: nat)
    ensures s >= 1
  {
    PowPositive(2, w);
    Pow(2, w)
  }

  predicate AreSymbols(data: seq<int>, w: nat) {
    forall i :: 0 <= i < |data| ==> 0 <= data[i] < Shift(w)
  }

  /** The regrouped symbols of the number that `data` writes: the whole `to`-bit groups from the top, and then either
      the zero-padded rest or nothing, where the rest must be zero and shorter than one input symbol. */
  function Convert(data: seq<int>, from: nat, to: nat, pad: bool): Option<seq<nat>>
    requires from >= 1 && to >= 1
  {
    if !AreSymbols(data, from) then None
    else
      MulNonNeg(|data|, from);
      BaseAtLeastTwo(to);
      Finish(Value(data, Shift(from)), |data| * from, from, to, pad)
  }

  /** Splitting a `total`-bit number into `to`-bit groups. */
  function Finish(v: nat, total: nat, from: nat, to: nat, pad: bool): Option<seq<nat>>
    requires from >= 1 && to >= 1
  {
    BaseAtLeastTwo(to);
    var bits := total % to;
    Assemble(Digits(v / Shift(bits), total / to, Shift(to)), v % Shift(bits), bits, from, to, pad)
  }

  /** The whole groups, and what becomes of the last `bits` bits. */
  function Assemble(head: seq<nat>, rest: nat, bits: nat, from: nat, to: nat, pad: bool): Option<seq<nat>>
    requires bits < to
  {
    MulNonNeg(rest, Shift(to - bits));
    if pad then Some(head + if bits > 0 then [rest * Shift(to - bits)] else [])
    else if bits >= from || rest != 0 then None
    else Some(head)
  }

  lemma BaseAtLeastTwo(w: nat)
    requires w >= 1
    ensures Shift(w) >= 2
  {
    assert Pow(2, w) == 2 * Pow(2, w - 1);
    PowPositive(2, w - 1);
  }

  lemma ShiftAdd(m: nat, n: nat)
    ensures Shift(m + n) == Shift(m) * Shift(n)
  {
    PowAdd(2, m, n);
  }

  // ----- the accumulator -----

  lemma SplitMod(a: nat, m: nat, k: nat)
    requires m >= 1 && k >= 1
    ensures m * k >= 1 && a % (m * k) == a / m % k * m + a % m
  {
    MulMono(m, 1, k);
    var q, r := DivMod(a, m);
    var h, l := DivMod(q, k);
    assert (h * k + l) * m == h * (m * k) + l * m;
    MulMono(m, l, k - 1);
    assert m * (k - 1) == m * k - m;
    DivModUnique(a, h, l * m + r, m * k);
  }

  lemma NestedMod(a: nat, m: nat, k: nat)
    requires m >= 1 && k >= 1
    ensures m * k >= 1 && a % (m * k) % m == a % m
  {
    SplitMod(a, m, k);
    MulNonNeg(a / m % k, m);
    DivModUnique(a % (m * k), a / m % k, a % m, m);
  }

  /** Shifting one more symbol into an accumulator that keeps from + to - 1 bits loses none of the pending bits. */
  lemma PushSymbol(acc: nat, bits: nat, v: nat, from: nat, to: nat)
    requires from >= 1 && bits < to && v < Shift(from)
    ensures (acc * Shift(from) + v) % Shift(from + to - 1) % Shift(bits + from) == acc % Shift(bits) * Shift(from) + v
  {
    var f, b := Shift(from), Shift(bits);
    var a: nat := acc * f + v;
    ShiftAdd(bits + from, to - 1 - bits);
    NestedMod(a, Shift(bits + from), Shift(to - 1 - bits));
    ShiftAdd(from, bits);
    SplitMod(a, f, b);
    DivModUnique(a, acc, v, f);
  }

  /** Taking the top `to` of the pending bits leaves the others. */
  lemma PopSymbol(acc: nat, bits: nat, to: nat)
    requires to >= 1 && bits >= to
    ensures acc % Shift(bits) == acc / Shift(bits - to) % Shift(to) * Shift(bits - to) + acc % Shift(bits - to)
  {
    ShiftAdd(bits - to, to);
    SplitMod(acc, Shift(bits - to), Shift(to));
  }

  lemma Regroup(x: nat, d: nat, rest: nat, low: nat, t: nat)
    ensures (x * t + d) * low + rest == x * (low * t) + (d * low + rest)
  {
    MulAssoc(x, t, low);
  }

  /** Pushing a symbol on the number the state stands for. */
  lemma PushValue(v: nat, out: nat, b: nat, rest: nat, f: nat, d: nat)
    requires v == out * b + rest
    ensures v * f + d == out * (b * f) + (rest * f + d)
  {
    MulAssoc(out, b, f);
  }

  /** The state of the loops: `total` bits of the number `v` have been read, of which `bits` are still pending. */
  ghost predicate State(v: nat, total: nat, ret: seq<nat>, bits: nat, acc: nat, to: nat) {
    AreDigits(ret, Shift(to)) && |ret| * to + bits == total
    && Value(ret, Shift(to)) * Shift(bits) + acc % Shift(bits) == v
  }

  lemma PushState(v: nat, total: nat, ret: seq<nat>, bits: nat, acc: nat, to: nat, from: nat, d: nat)
    requires from >= 1 && bits < to && d < Shift(from) && State(v, total, ret, bits, acc, to)
    ensures v * Shift(from) >= 0 && acc * Shift(from) + d >= 0
    ensures State(v * Shift(from) + d, total + from, ret, bits + from,
                  (acc * Shift(from) + d) % Shift(from + to - 1), to)
  {
    MulNonNeg(v, Shift(from));
    MulNonNeg(acc, Shift(from));
    PushSymbol(acc, bits, d, from, to);
    PushValue(v, Value(ret, Shift(to)), Shift(bits), acc % Shift(bits), Shift(from), d);
    ShiftAdd(bits, from);
  }

  lemma PopState(v: nat, total: nat, ret: seq<nat>, bits: nat, acc: nat, to: nat)
    requires 1 <= to <= bits && State(v, total, ret, bits, acc, to)
    ensures State(v, total, ret + [acc / Shift(bits - to) % Shift(to)], bits - to, acc, to)
  {
    var d := acc / Shift(bits - to) % Shift(to);
    PopSymbol(acc, bits, to);
    ShiftAdd(bits - to, to);
    ValueSnoc(ret, d, Shift(to));
    Regroup(Value(ret, Shift(to)), d, acc % Shift(bits - to), Shift(bits - to), Shift(to));
    assert (|ret| + 1) * to == |ret| * to + to;
  }

  /** `v` and `total` describe the first `i` symbols. */
  ghost predicate Prefix(data: seq<int>, i: nat, from: nat, v: nat, total: nat) {
    i <= |data| && AreSymbols(data[..i], from) && v == Value(data[..i], Shift(from)) && total == i * from
  }

  lemma NextSymbol(data: seq<int>, i: nat, from: nat, v: nat, total: nat)
    requires Prefix(data, i, from, v, total) && i < |data| && 0 <= data[i] < Shift(from)
    ensures v * Shift(from) >= 0 && Prefix(data, i + 1, from, v * Shift(from) + data[i], total + from)
  {
    MulNonNeg(v, Shift(from));
    assert data[..i + 1] == data[..i] + [data[i]];
    ValueSnoc(data[..i], data[i], Shift(from));
    assert (i + 1) * from == i * from + from;
  }

  method ConvertBits(data: seq<int>, from: nat, to: nat, pad: bool) returns (r: Option<seq<nat>>)
    requires from >= 1 && to >= 1
    ensures r == Convert(data, from, to, pad)
  {
    var acc: nat, bits: nat, ret: seq<nat> := 0, 0, [];
    ghost var v: nat, total: nat := 0, 0;
    for i := 0 to |data|
      invariant Prefix(data, i, from, v, total)
      invariant bits < to && State(v, total, ret, bits, acc, to)
    {
      var value := data[i];
      if value < 0 || value >= Shift(from) {
        return None;
      }
      NextSymbol(data, i, from, v, total);
      PushState(v, total, ret, bits, acc, to, from, value);
      v, total := v * Shift(from) + value, total + from;
      acc := (acc * Shift(from) + value) % Shift(from + to - 1);
      bits := bits + from;
      while bits >= to
        invariant State(v, total, ret, bits, acc, to)
      {
        PopState(v, total, ret, bits, acc, to);
        bits := bits - to;
        ret := ret + [acc / Shift(bits) % Shift(to)];
      }
    }
    assert data[..|data|] == data;
    r := Flush(data, from, to, pad, acc, bits, ret, v, total);
  }

  /** The end of convertbits, after the loop. */
  method Flush(data: seq<int>, from: nat, to: nat, pad: bool, acc: nat, bits: nat, ret: seq<nat>,
               ghost v: nat, ghost total: nat)
    returns (r: Option<seq<nat>>)
    requires from >= 1 && to >= 1 && bits < to && AreSymbols(data, from)
    requires v == Value(data, Shift(from)) && total == |data| * from && State(v, total, ret, bits, acc, to)
    ensures r == Convert(data, from, to, pad)
  {
    BaseAtLeastTwo(to);
    Finished(v, total, to, ret, bits, acc % Shift(bits));
    ShiftLow(acc, bits, to);
    var rest := v % Shift(bits);
    assert Finish(v, total, from, to, pad) ==
      if pad then Some(ret + if bits > 0 then [rest * Shift(to - bits)] else [])
      else if bits >= from || rest != 0 then None else Some(ret);
    if pad {
      assert ret + [] == ret;
      r := Some(if bits > 0 then ret + [acc * Shift(to - bits) % Shift(to)] else ret);
    } else if bits >= from || acc * Shift(to - bits) % Shift(to) != 0 {
      r := None;
    } else {
      r := Some(ret);
    }
  }

  lemma ShiftLow(acc: nat, bits: nat, to: nat)
    requires bits < to
    ensures acc * Shift(to - bits) % Shift(to) == acc % Shift(bits) * Shift(to - bits)
    ensures acc * Shift(to - bits) % Shift(to) == 0 <==> acc % Shift(bits) == 0
  {
    var b, p := Shift(bits), Shift(to - bits);
    ShiftAdd(bits, to - bits);
    var q, r := DivMod(acc, b);
    LowPart(q, r, b, p, acc);
  }

  lemma LowPart(q: nat, r: nat, b: nat, p: nat, acc: nat)
    requires p >= 1 && r < b && acc == q * b + r
    ensures b * p >= 1 && acc * p % (b * p) == r * p && (r * p == 0 <==> r == 0)
  {
    MulMono(p, r, b - 1);
    assert (q * b + r) * p == q * (b * p) + r * p;
    assert (b - 1) * p == b * p - p;
    DivModUnique(acc * p, q, r * p, b * p);
    if r >= 1 { MulMono(p, 1, r); }
  }

  /** The state after the loop fixes the whole groups and the rest. */
  lemma Finished(v: nat, total: nat, to: nat, ret: seq<nat>, bits: nat, rest: nat)
    requires to >= 1 && Shift(to) >= 2 && AreDigits(ret, Shift(to))
    requires bits < to && rest < Shift(bits) && |ret| * to + bits == total
    requires Value(ret, Shift(to)) * Shift(bits) + rest == v
    ensures total / to == |ret| && total % to == bits
    ensures Digits(v / Shift(bits), |ret|, Shift(to)) == ret && v % Shift(bits) == rest
  {
    DivModUnique(total, |ret|, bits, to);
    DivModUnique(v, Value(ret, Shift(to)), rest, Shift(bits));
    DigitsOfValue(ret, Shift(to));
  }

  // ----- what the conversions mean -----

  /** `y` is `x` followed by `p` zero bits, in symbols of widths `wy` and `wx`. */
  ghost predicate Extends(x: seq<int>, wx: nat, y: seq<int>, wy: nat, p: nat) {
    AreSymbols(x, wx) && AreSymbols(y, wy) && |y| * wy == |x| * wx + p
    && Value(y, Shift(wy)) == Value(x, Shift(wx)) * Shift(p)
  }

  lemma ZeroPadding(data: seq<int>, from: nat, to: nat) returns (r: seq<nat>, p: nat)
    requires from >= 1 && to >= 1 && AreSymbols(data, from)
    ensures Convert(data, from, to, true) == Some(r) && p < to && Extends(data, from, r, to, p)
  {
    MulNonNeg(|data|, from);
    var v, total := Value(data, Shift(from)), |data| * from;
    ValueBits(data, from, total);
    r, p := PaddedFinish(v, total, from, to);
  }

  lemma PaddedFinish(v: nat, total: nat, from: nat, to: nat) returns (r: seq<nat>, p: nat)
    requires from >= 1 && to >= 1 && v < Shift(total)
    ensures Finish(v, total, from, to, true) == Some(r) && p < to && AreDigits(r, Shift(to))
    ensures |r| * to == total + p && Value(r, Shift(to)) == v * Shift(p)
  {
    var head, rest, bits := Groups(v, total, from, to, true);
    r, p := PadHead(v, head, rest, bits, to, total);
  }

  lemma PadHead(v: nat, head: seq<nat>, rest: nat, bits: nat, to: nat, total: nat) returns (r: seq<nat>, p: nat)
    requires AreDigits(head, Shift(to)) && |head| * to + bits == total && rest < Shift(bits) && bits < to
    requires Value(head, Shift(to)) * Shift(bits) + rest == v
    ensures r == head + if bits > 0 then [rest * Shift(to - bits)] else []
    ensures p < to && AreDigits(r, Shift(to)) && |r| * to == total + p && Value(r, Shift(to)) == v * Shift(p)
  {
    if bits == 0 {
      r, p := head, 0;
    } else {
      p := to - bits;
      ShiftAdd(bits, p);
      PadDigit(rest, Shift(bits), Shift(p));
      r := head + [rest * Shift(p)];
      PaddedValue(v, head, rest, bits, p);
      assert (|head| + 1) * to == |head| * to + to;
    }
  }

  lemma PaddedValue(v: nat, head: seq<nat>, rest: nat, bits: nat, p: nat)
    requires Value(head, Shift(bits + p)) * Shift(bits) + rest == v
    ensures rest * Shift(p) >= 0
    ensures Value(head + [rest * Shift(p)], Shift(bits + p)) == v * Shift(p)
  {
    MulNonNeg(rest, Shift(p));
    ShiftAdd(bits, p);
    ValueSnoc(head, rest * Shift(p), Shift(bits + p));
    PadValue(Value(head, Shift(bits + p)), Shift(bits), rest, Shift(p));
  }

  lemma PadDigit(rest: nat, b: nat, p: nat)
    requires rest < b && p >= 1
    ensures 0 <= rest * p < b * p
  {
    MulMono(p, rest + 1, b);
    assert (rest + 1) * p == rest * p + p;
  }

  lemma PadValue(h: nat, b: nat, rest: nat, p: nat)
    ensures h * (b * p) + rest * p == (h * b + rest) * p
  {
    MulAssoc(h, b, p);
  }

  lemma ValueBits(data: seq<int>, w: nat, total: nat)
    requires AreSymbols(data, w) && total == |data| * w
    ensures Value(data, Shift(w)) < Shift(total)
  {
    ValueBound(data, Shift(w));
    PowMul(2, w, |data|);
    assert w * |data| == total;
  }

  /** The whole groups and the rest write the number. */
  lemma Groups(v: nat, total: nat, from: nat, to: nat, pad: bool) returns (head: seq<nat>, rest: nat, bits: nat)
    requires from >= 1 && to >= 1 && v < Shift(total)
    ensures bits < to && Finish(v, total, from, to, pad) == Assemble(head, rest, bits, from, to, pad)
    ensures AreDigits(head, Shift(to)) && |head| * to + bits == total && rest < Shift(bits)
    ensures Value(head, Shift(to)) * Shift(bits) + rest == v
  {
    BaseAtLeastTwo(to);
    var n, q: nat;
    n, bits := DivMod(total, to);
    q, rest := DivMod(v, Shift(bits));
    head := Digits(q, n, Shift(to));
    HeadValue(v, total, to, n, bits, q, rest);
  }

  lemma HeadValue(v: nat, total: nat, to: nat, n: nat, bits: nat, q: nat, rest: nat)
    requires to >= 1 && Shift(to) >= 2 && v < Shift(total) && n * to + bits == total && q * Shift(bits) + rest == v
    ensures Value(Digits(q, n, Shift(to)), Shift(to)) == q
  {
    PowMul(2, to, n);
    assert to * n == n * to;
    ShiftAdd(to * n, bits);
    QuotientBound(q, rest, Pow(Shift(to), n), Shift(bits));
    ValueOfDigits(q, n, Shift(to));
  }

  lemma QuotientBound(q: nat, rest: nat, m: nat, b: nat)
    requires b >= 1 && q * b + rest < m * b
    ensures q < m
  {
    if q >= m { MulMono(b, m, q); }
  }

  /** A conversion with padding answers exactly the shortest zero-extension. */
  lemma PaddingMeaning(data: seq<int>, from: nat, to: nat, r: seq<nat>)
    requires from >= 1 && to >= 1
    ensures Convert(data, from, to, true) == Some(r) <==> exists p :: 0 <= p < to && Extends(data, from, r, to, p)
  {
    if AreSymbols(data, from) {
      var r0, p0 := ZeroPadding(data, from, to);
      if p :| 0 <= p < to && Extends(data, from, r, to, p) {
        assert |r| * to - p == |r0| * to - p0;
        SameLength(|r|, |r0|, to, p, p0);
        BaseAtLeastTwo(to);
        ValueInjective(r, r0, Shift(to));
      }
    }
  }

  lemma SameLength(m: int, n: int, to: int, p: int, q: int)
    requires m * to - p == n * to - q && 0 <= p < to && 0 <= q < to
    ensures m == n && p == q
  {
    assert (m - n) * to == p - q;
    if m > n { MulMono(to, 1, m - n); }
    if m < n { MulMono(to, m - n, -1); }
  }

  /** A conversion without padding accepts exactly the zero-extensions by less than one symbol of either width. */
  lemma UnpaddingMeaning(data: seq<int>, from: nat, to: nat, r: seq<nat>)
    requires from >= 1 && to >= 1
    ensures Convert(data, from, to, false) == Some(r) <==>
            exists p :: 0 <= p < to && p < from && Extends(r, to, data, from, p)
  {
    BaseAtLeastTwo(to);
    if AreSymbols(data, from) {
      MulNonNeg(|data|, from);
      var v, total := Value(data, Shift(from)), |data| * from;
      ValueBits(data, from, total);
      var head, rest, bits := Groups(v, total, from, to, false);
      if Convert(data, from, to, false) == Some(r) {
        assert Extends(r, to, data, from, bits);
      }
      if p :| 0 <= p < to && p < from && Extends(r, to, data, from, p) {
        Finished(v, total, to, r, p, 0);
      }
    }
  }

  /** From wide symbols to narrow ones and back: the padded and the unpadded conversion are inverse to each other,
      between all wide sequences and exactly the narrow sequences that the unpadded conversion accepts. */
  lemma ConversionsInverse(wide: seq<nat>, w: nat, narrow: seq<nat>, n: nat)
    requires 1 <= n <= w
    ensures Convert(wide, w, n, true) == Some(narrow) <==> Convert(narrow, n, w, false) == Some(wide)
  {
    PaddingMeaning(wide, w, n, narrow);
    UnpaddingMeaning(narrow, n, w, wide);
  }
}
