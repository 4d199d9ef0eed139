/** Base58 and Base58Check (Bitcoin/ecc.py: encode_base58, encode_base58_checksum, decode_base58). */
module Base58 {
  import opened Prelude
  import opened Positional

  const ALPHABET := "123456789ABCDEF" + "GHJKLMNPQRSTUV" + "WXYZabcdefghijk" + "mnopqrstuvwxyz"

  /** The d-th character of the alphabet: the digits, then the letters, without 0, O, I and l. */
  function Symbol(d: nat): (c: char)
    requires d < 58
  {
    (d + if d < 9 then 49 else if d < 17 then 56 else if d < 22 then 57
         else if d < 33 then 58 else if d < 44 then 64 else 65) as char
  }

  /** BASE58_ALPHABET.index(c), which raises when there is no such character. */
  function Index(c: char): (i: Option<nat>)
    ensures i.Some? ==> i.value < 58 && Symbol(i.value) == c
    ensures i.None? ==> forall d :: 0 <= d < 58 ==> Symbol(d) != c
  {
    var k := c as int;
    if '1' <= c <= '9' then Some(k - 49)
    else if 'A' <= c <= 'H' then Some(k - 56)
    else if 'J' <= c <= 'N' then Some(k - 57)
    else if 'P' <= c <= 'Z' then Some(k - 58)
    else if 'a' <= c <= 'k' then Some(k - 64)
    else if 'm' <= c <= 'z' then Some(k - 65)
    else None
  }

  /** The symbols are those of the source's alphabet, in its order. */
  lemma AlphabetSpelled(d: nat)
    requires d < 58
    ensures |ALPHABET| == 58 && ALPHABET[d] == Symbol(d)
  {
    if d < 15 { assert ALPHABET[d] == "123456789ABCDEF"[d]; }
    else if d < 29 { assert ALPHABET[d] == "GHJKLMNPQRSTUV"[d - 15]; }
    else if d < 44 { assert ALPHABET[d] == "WXYZabcdefghijk"[d - 29]; }
    else { assert ALPHABET[d] == "mnopqrstuvwxyz"[d - 44]; }
  }

  lemma IndexOfSymbol(d: nat)
    requires d < 58
    ensures Index(Symbol(d)) == Some(d)
  {
  }

  function Chars(ds: seq<nat>): (s: string)
    requires AreDigits(ds, 58)
    ensures |s| == |ds| && forall i :: 0 <= i < |ds| ==> s[i] == Symbol(ds[i])
  {
    if ds == [] then [] else [Symbol(ds[0])] + Chars(ds[1..])
  }

  /** The digits a string stands for; None where decode_base58 raises. */
  function DigitsOf(s: string): (ds: Option<seq<nat>>)
    ensures ds.Some? ==> |ds.value| == |s| && AreDigits(ds.value, 58)
  {
    if s == [] then Some([])
    else if Index(s[0]).None? || DigitsOf(s[1..]).None? then None
    else Some([Index(s[0]).value] + DigitsOf(s[1..]).value)
  }

  /** A string is readable exactly if all its characters are in the alphabet. */
  lemma {:induction false} ReadableExactly(s: string)
    ensures DigitsOf(s).None? <==> exists i :: 0 <= i < |s| && Index(s[i]).None?
  {
    if s != [] {
      ReadableExactly(s[1..]);
      if i :| 0 <= i < |s[1..]| && Index(s[1..][i]).None? { assert Index(s[i + 1]).None?; }
      if i :| 0 <= i < |s| && Index(s[i]).None? && i > 0 { assert Index(s[1..][i - 1]).None?; }
    }
  }

  function LeadingZeros(ds: seq<nat>): (n: nat)
    ensures n <= |ds|
  {
    if ds != [] && ds[0] == 0 then 1 + LeadingZeros(ds[1..]) else 0
  }

  /** One '1' for each leading zero byte, then the number in base 58. */
  function Encode(s: Bytes): string {
    Repeat('1', LeadingZeros(s)) + Chars(Numeral(FromBig(s), 58))
  }

  method EncodeBase58(s: Bytes) returns (r: string)
    ensures r == Encode(s)
  {
    var count := 0;
    while count < |s| && s[count] == 0
      invariant count <= |s|
      invariant LeadingZeros(s) == count + LeadingZeros(s[count..])
    {
      count := count + 1;
    }
    r := EncodeNumber(FromBig(s));
    r := Repeat('1', count) + r;
  }

  lemma NumeralUnfold(num: nat, low: seq<nat>)
    requires num > 0
    ensures 0 <= num / 58 < num
    ensures Numeral(num, 58) + low == Numeral(num / 58, 58) + ([num % 58] + low)
  {
    var high, d := Numeral(num / 58, 58), num % 58;
    assert (high + [d]) + low == high + ([d] + low);
  }

  lemma CharsOfMore(d: nat, ds: seq<nat>)
    requires d < 58 && AreDigits(ds, 58)
    ensures AreDigits([d] + ds, 58) && Chars([d] + ds) == [Symbol(d)] + Chars(ds)
  {
  }

  /** The second loop of encode_base58. */
  method EncodeNumber(n: nat) returns (r: string)
    ensures r == Chars(Numeral(n, 58))
  {
    var num := n;
    ghost var low: seq<nat> := [];
    r := "";
    while num > 0
      invariant AreDigits(low, 58) && Numeral(num, 58) + low == Numeral(n, 58)
      invariant r == Chars(low)
      decreases num
    {
      NumeralUnfold(num, low);
      var mod;
      num, mod := num / 58, num % 58;
      CharsOfMore(mod, low);
      low := [mod] + low;
      r := [Symbol(mod)] + r;
    }
  }

  /** encode_base58_checksum */
  function EncodeChecksum(h: Hash, b: Bytes): string
    requires |h(b)| >= 4
  {
    Encode(b + h(b)[..4])
  }

  datatype Decoded = Raised | BadChecksum | Payload(bytes: Bytes)

  /** What decode_base58 answers for the number its characters spell. */
  function Check(h: Hash, num: nat): Decoded {
    match ToBig(num, 25)
    case None => Raised
    case Some(combined) =>
      var digest := h(combined[..21]);
      if (if |digest| < 4 then digest else digest[..4]) != combined[21..] then BadChecksum
      else Payload(combined[1..21])
  }

  method DecodeBase58(h: Hash, s: string) returns (r: Decoded)
    ensures DigitsOf(s).None? ==> r == Raised
    ensures DigitsOf(s).Some? ==> r == Check(h, Value(DigitsOf(s).value, 58))
  {
    var num := 0;
    for i := 0 to |s|
      invariant DigitsOf(s[..i]).Some? && num == Value(DigitsOf(s[..i]).value, 58)
    {
      DigitsOfSnoc(s[..i], s[i]);
      assert s[..i + 1] == s[..i] + [s[i]];
      var d := Index(s[i]);
      if d.None? {
        DigitsOfPrefix(s, i + 1);
        return Raised;
      }
      ValueSnoc(DigitsOf(s[..i]).value, d.value, 58);
      num := num * 58 + d.value;
    }
    assert s[..|s|] == s;
    r := Check(h, num);
  }

  lemma {:induction false} DigitsOfSnoc(s: string, c: char)
    ensures DigitsOf(s + [c]) ==
      if DigitsOf(s).None? || Index(c).None? then None else Some(DigitsOf(s).value + [Index(c).value])
  {
    if s == [] {
      assert s + [c] == [c] && [c][1..] == [];
      assert DigitsOf([]) == Some([]);
      if Index(c).Some? {
        var i := Index(c).value;
        assert [i] + [] == [i] && [] + [i] == [i];
      }
    } else {
      assert (s + [c])[1..] == s[1..] + [c];
      DigitsOfSnoc(s[1..], c);
      if DigitsOf(s).Some? && Index(c).Some? {
        var head, tail, last := Index(s[0]).value, DigitsOf(s[1..]).value, Index(c).value;
        assert [head] + (tail + [last]) == ([head] + tail) + [last];
      }
    }
  }

  lemma {:induction false} DigitsOfPrefix(s: string, i: nat)
    requires i <= |s| && DigitsOf(s[..i]).None?
    ensures DigitsOf(s).None?
  {
    if i > 0 {
      assert s[..i][1..] == s[1..][..i - 1];
      if DigitsOf(s[1..][..i - 1]).None? {
        DigitsOfPrefix(s[1..], i - 1);
      }
    }
  }

  // ----- the alphabet and leading zeros -----

  lemma {:induction false} DigitsOfChars(ds: seq<nat>)
    requires AreDigits(ds, 58)
    ensures DigitsOf(Chars(ds)) == Some(ds)
  {
    if ds != [] {
      IndexOfSymbol(ds[0]);
      DigitsOfChars(ds[1..]);
      assert [ds[0]] + ds[1..] == ds;
      assert Chars(ds)[1..] == Chars(ds[1..]);
    }
  }

  /** A digit string is its leading zeros followed by the numeral of its value. */
  lemma {:induction false} ZerosThenNumeral(ds: seq<nat>, b: nat)
    requires b >= 2 && AreDigits(ds, b)
    ensures ds == Zeros(LeadingZeros(ds)) + Numeral(Value(ds, b), b)
  {
    if ds != [] && ds[0] == 0 {
      ZerosThenNumeral(ds[1..], b);
      LeadingZeroValue(ds, ds[1..], b);
      assert Zeros(LeadingZeros(ds)) == [0] + Zeros(LeadingZeros(ds[1..]));
    } else {
      NumeralOfValue(ds, b);
    }
  }

  lemma LeadingZeroValue(ds: seq<nat>, rest: seq<nat>, b: nat)
    requires ds == [0] + rest
    ensures Value(ds, b) == Value(rest, b)
  {
    var z: seq<nat> := [0];
    ValueConcat(z, rest, b);
    assert Value(z, b) == Value([], b) * b + 0 == 0;
  }

  lemma {:induction false} LeadingZerosOf(n: nat, ds: seq<nat>)
    requires ds != [] ==> ds[0] != 0
    ensures LeadingZeros(Zeros(n) + ds) == n
  {
    if n == 0 {
      assert Zeros(0) + ds == ds;
    } else {
      assert (Zeros(n) + ds)[1..] == Zeros(n - 1) + ds;
      LeadingZerosOf(n - 1, ds);
    }
  }

  /** The digits of an encoding are its zeros followed by the numeral. */
  lemma DigitsOfEncoding(s: Bytes)
    ensures DigitsOf(Encode(s)) == Some(Zeros(LeadingZeros(s)) + Numeral(FromBig(s), 58))
  {
    var z, num := Zeros(LeadingZeros(s)), Numeral(FromBig(s), 58);
    assert Chars(z + num) == Encode(s);
    DigitsOfChars(z + num);
  }

  // ----- results -----

  /** Different byte strings have different encodings, leading zeros included. */
  lemma EncodeInjective(s: Bytes, t: Bytes)
    requires Encode(s) == Encode(t)
    ensures s == t
  {
    var m, n := Numeral(FromBig(s), 58), Numeral(FromBig(t), 58);
    var k, l := LeadingZeros(s), LeadingZeros(t);
    DigitsOfEncoding(s);
    DigitsOfEncoding(t);
    LeadingZerosOf(k, m);
    LeadingZerosOf(l, n);
    assert m == (Zeros(k) + m)[k..] && n == (Zeros(l) + n)[l..];
    ValueOfNumeral(FromBig(s), 58);
    ValueOfNumeral(FromBig(t), 58);
    ZerosThenNumeral(s, 256);
    ZerosThenNumeral(t, 256);
  }

  lemma ValueOfEncoding(s: Bytes)
    ensures DigitsOf(Encode(s)).Some? && Value(DigitsOf(Encode(s)).value, 58) == FromBig(s)
  {
    DigitsOfEncoding(s);
    ValueZeroPadded(LeadingZeros(s), Numeral(FromBig(s), 58), 58);
    ValueOfNumeral(FromBig(s), 58);
  }

  /** The numbers decode_base58 accepts are the 21-byte strings followed by their checksums. */
  lemma CheckMeaning(h: Hash, num: nat, p: Bytes)
    requires forall b :: |h(b)| >= 4
    ensures Check(h, num) == Payload(p) <==>
            exists b: Bytes :: |b| == 21 && b[1..] == p && num == FromBig(b + h(b)[..4])
  {
    var r := ToBig(num, 25);
    if Check(h, num) == Payload(p) {
      var b := r.value[..21];
      assert b + h(b)[..4] == r.value && b[1..] == p;
    }
    if b: Bytes :| |b| == 21 && b[1..] == p && num == FromBig(b + h(b)[..4]) {
      ToBigOfFromBig(b + h(b)[..4]);
      assert (b + h(b)[..4])[..21] == b && (b + h(b)[..4])[21..] == h(b)[..4];
      assert (b + h(b)[..4])[1..21] == b[1..];
    }
  }

  /** Decoding a checksummed 21-byte string gives it back without its version byte. */
  lemma DecodeEncodeChecksum(h: Hash, b: Bytes)
    requires |b| == 21 && forall x :: |h(x)| >= 4
    ensures DigitsOf(EncodeChecksum(h, b)).Some?
    ensures Check(h, Value(DigitsOf(EncodeChecksum(h, b)).value, 58)) == Payload(b[1..])
  {
    ValueOfEncoding(b + h(b)[..4]);
    CheckMeaning(h, FromBig(b + h(b)[..4]), b[1..]);
  }

  /** The decoder does not count leading '1's: any number of them may be added in front of any string. */
  lemma LeadingOnesIgnored(n: nat, s: string)
    ensures var padded := Repeat('1', n) + s;
      && (DigitsOf(padded).Some? <==> DigitsOf(s).Some?)
      && (DigitsOf(s).Some? ==> Value(DigitsOf(padded).value, 58) == Value(DigitsOf(s).value, 58))
  {
    OnesAreZeros(n, s);
    if DigitsOf(s).Some? {
      ValueZeroPadded(n, DigitsOf(s).value, 58);
    }
  }

  lemma {:induction false} OnesAreZeros(n: nat, s: string)
    ensures DigitsOf(Repeat('1', n) + s) == if DigitsOf(s).None? then None else Some(Zeros(n) + DigitsOf(s).value)
  {
    var padded := Repeat('1', n) + s;
    if n == 0 {
      assert padded == s;
      if DigitsOf(s).Some? { assert Zeros(0) + DigitsOf(s).value == DigitsOf(s).value; }
    } else {
      assert padded[1..] == Repeat('1', n - 1) + s;
      OnesAreZeros(n - 1, s);
      if DigitsOf(s).Some? {
        assert Zeros(n) + DigitsOf(s).value == [0] + (Zeros(n - 1) + DigitsOf(s).value);
      }
    }
  }

  // ----- exactly what the decoder ignores -----

  /** The string without its leading '1's. */
  function DropOnes(s: string): (r: string)
    ensures |r| <= |s|
  {
    if s != [] && s[0] == '1' then DropOnes(s[1..]) else s
  }

  function LeadingOnes(s: string): nat { |s| - |DropOnes(s)| }

  lemma {:induction false} CharsOfDigits(s: string)
    requires DigitsOf(s).Some?
    ensures Chars(DigitsOf(s).value) == s
  {
    if s != [] {
      CharsOfDigits(s[1..]);
      assert DigitsOf(s).value[1..] == DigitsOf(s[1..]).value;
      assert s == [s[0]] + s[1..];
    }
  }

  lemma {:induction false} DropRepeated(n: nat, s: string)
    requires s != [] ==> s[0] != '1'
    ensures DropOnes(Repeat('1', n) + s) == s
  {
    if n == 0 {
      assert Repeat('1', 0) + s == s;
    } else {
      assert (Repeat('1', n) + s)[1..] == Repeat('1', n - 1) + s;
      DropRepeated(n - 1, s);
    }
  }

  lemma CharsOfZeros(n: nat, ds: seq<nat>, s: string)
    requires AreDigits(ds, 58) && AreDigits(Zeros(n) + ds, 58) && s == Chars(Zeros(n) + ds)
    ensures s == Repeat('1', n) + Chars(ds)
  {
    assert Symbol(0) == '1';
  }

  lemma FirstIsNotOne(ds: seq<nat>)
    requires AreDigits(ds, 58) && ds != [] && ds[0] != 0
    ensures Chars(ds)[0] != '1'
  {
  }

  /** A readable string is its leading '1's followed by the numeral of its number, which does not start with one. */
  lemma ReadableShape(s: string)
    requires DigitsOf(s).Some?
    ensures DropOnes(s) == Chars(Numeral(Value(DigitsOf(s).value, 58), 58))
    ensures LeadingOnes(s) == LeadingZeros(DigitsOf(s).value)
    ensures s == Repeat('1', LeadingOnes(s)) + DropOnes(s)
  {
    var ds := DigitsOf(s).value;
    var n, num := LeadingZeros(ds), Numeral(Value(ds, 58), 58);
    ZerosThenNumeral(ds, 58);
    CharsOfDigits(s);
    CharsOfZeros(n, num, s);
    if num != [] { FirstIsNotOne(num); }
    DropRepeated(n, Chars(num));
  }

  /** Leading '1's are all that the decoder ignores: two readable strings spell the same number exactly if they are equal
      without them. */
  lemma SameNumberExactly(s: string, t: string)
    requires DigitsOf(s).Some? && DigitsOf(t).Some?
    ensures Value(DigitsOf(s).value, 58) == Value(DigitsOf(t).value, 58) <==> DropOnes(s) == DropOnes(t)
  {
    var m, n := Value(DigitsOf(s).value, 58), Value(DigitsOf(t).value, 58);
    ReadableShape(s);
    ReadableShape(t);
    DigitsOfChars(Numeral(m, 58));
    DigitsOfChars(Numeral(n, 58));
    ValueOfNumeral(m, 58);
    ValueOfNumeral(n, 58);
  }

  /** Of the strings that spell the number of some bytes, their encoding is the one with a '1' for each leading zero. */
  lemma EncodeDecoded(s: string, b: Bytes)
    requires DigitsOf(s).Some? && Value(DigitsOf(s).value, 58) == FromBig(b)
    ensures Encode(b) == s <==> LeadingOnes(s) == LeadingZeros(b)
  {
    ReadableShape(s);
    SplitFront(Repeat('1', LeadingZeros(b)), DropOnes(s), Repeat('1', LeadingZeros(b)), DropOnes(s));
    if Encode(b) == s {
      assert |s| == LeadingZeros(b) + |DropOnes(s)|;
    }
  }
}
