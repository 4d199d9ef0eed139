/** The number format of the script machine (Bitcoin/op.py: encode_num, decode_num). */
module ScriptNum {
  import opened Prelude
  import opened Positional

  function Abs(n: int): nat { if n < 0 then -n else n }

  /** Little-endian bytes of a number, none for zero. */
  function LittleNumeral(n: nat): (b: Bytes)
    ensures b != [] ==> b[|b| - 1] > 0
    ensures n > 0 ==> b != []
  {
    if n == 0 then [] else [n % 256] + LittleNumeral(n / 256)
  }

  /** Where the sign goes: into the free top bit of the last byte, or into a byte of its own. */
  function WithSign(b: Bytes, negative: bool): Bytes
    requires b != []
  {
    var last := b[|b| - 1];
    if last >= 0x80 then b + [if negative then 0x80 else 0]
    else if negative then b[|b| - 1 := last + 0x80]
    else b
  }

  function Encode(num: int): Bytes {
    if num == 0 then [] else WithSign(LittleNumeral(Abs(num)), num < 0)
  }

  method EncodeNum(num: int) returns (result: Bytes)
    ensures result == Encode(num)
  {
    if num == 0 { return []; }
    var abs: nat := if num < 0 then -num else num;
    var negative := num < 0;
    result := [];
    while abs != 0
      invariant result + LittleNumeral(abs) == LittleNumeral(Abs(num))
    {
      NextByte(result, abs);
      result := result + [abs % 256];
      abs := abs / 256;
    }
    var last := result[|result| - 1];
    if last >= 0x80 {
      result := result + [if negative then 0x80 else 0];
    } else if negative {
      result := result[|result| - 1 := last + 0x80];
    }
  }

  lemma NextByte(done: Bytes, n: nat)
    requires n > 0
    ensures done + LittleNumeral(n) == (done + [n % 256]) + LittleNumeral(n / 256)
  {
  }

  /** The value of an element: its last byte carries the sign in the top bit. */
  function Decode(element: Bytes): int {
    if element == [] then 0
    else
      var k := |element| - 1;
      var last := element[k];
      var magnitude: int := FromLittle(element[..k] + [last % 0x80]);
      if last >= 0x80 then -magnitude else magnitude
  }

  method DecodeNum(element: Bytes) returns (num: int)
    ensures num == Decode(element)
  {
    if element == [] { return 0; }
    var bigEndian := Reverse(element);
    var negative := bigEndian[0] >= 0x80;
    var result := BigEndian(bigEndian[0] % 0x80, bigEndian);
    Adjusted(element);
    num := if negative then -result else result;
  }

  /** The loop of decode_num. */
  method BigEndian(first: Byte, bytes: Bytes) returns (result: int)
    requires bytes != []
    ensures result == FromBig([first] + bytes[1..])
  {
    result := first;
    ghost var adjusted := [first] + bytes[1..];
    SingleByte(first);
    assert adjusted[..1] == [first];
    for i := 1 to |bytes|
      invariant result == FromBig(adjusted[..i])
    {
      ValueSnoc(adjusted[..i], bytes[i], 256);
      assert adjusted[..i + 1] == adjusted[..i] + [bytes[i]];
      result := result * 256 + bytes[i];
    }
    assert adjusted[..|bytes|] == adjusted;
  }

  /** Clearing the sign before or after reversing is the same. */
  lemma Adjusted(element: Bytes)
    requires element != []
    ensures var k, big := |element| - 1, Reverse(element);
      FromLittle(element[..k] + [element[k] % 0x80]) == FromBig([big[0] % 0x80] + big[1..])
  {
    var k, big := |element| - 1, Reverse(element);
    var cleared: Bytes := element[..k] + [element[k] % 0x80];
    LittleIsReversedBig(cleared);
    assert Reverse(cleared) == [big[0] % 0x80] + big[1..];
  }

  /** The bytes are the magnitude, the least significant first; the top bit of the last byte is the sign. */
  lemma DecodeMeaning(b: Bytes, low: Byte, high: Byte)
    requires low < 0x80 && high == low + 0x80
    ensures Decode([]) == 0
    ensures Decode(b + [low]) == FromBig(Reverse(b + [low])) && Decode(b + [high]) == -Decode(b + [low])
  {
    var e, f := b + [low], b + [high];
    assert e[..|e| - 1] == b && e[|e| - 1] == low && low % 0x80 == low;
    assert f[..|f| - 1] == b && f[|f| - 1] == high && high % 0x80 == low;
    LittleIsReversedBig(e);
  }

  // ----- round trips -----

  lemma {:induction false} FromLittleOfNumeral(n: nat)
    ensures FromLittle(LittleNumeral(n)) == n
  {
    if n > 0 { FromLittleOfNumeral(n / 256); }
  }

  /** A byte string whose last byte is not zero is the numeral of its value. */
  lemma {:induction false} NumeralOfFromLittle(b: Bytes)
    requires b != [] && b[|b| - 1] != 0
    ensures LittleNumeral(FromLittle(b)) == b && FromLittle(b) > 0
  {
    var rest := b[1..];
    if |b| > 1 {
      assert rest[|rest| - 1] == b[|b| - 1];
      NumeralOfFromLittle(rest);
    } else {
      assert rest == [];
    }
    assert b == [b[0]] + rest;
    NumeralOfMore(FromLittle(b), b[0], FromLittle(rest));
  }

  lemma NumeralOfMore(n: nat, low: Byte, high: nat)
    requires n == low + 256 * high && n > 0
    ensures LittleNumeral(n) == [low] + LittleNumeral(high)
  {
    LowByte(low, high);
  }

  lemma OneByte(b: Byte)
    ensures FromLittle([b]) == b
  {
    assert [b][1..] == [];
  }

  lemma FromLittleSnoc(b: Bytes, last: Byte)
    ensures FromLittle(b + [last]) == FromLittle(b) + Pow(256, |b|) * last
  {
    FromLittleConcat(b, [last]);
    OneByte(last);
  }

  /** Decoding an encoded number gives it back. */
  lemma DecodeEncode(n: int)
    ensures Decode(Encode(n)) == n
  {
    if n != 0 {
      FromLittleOfNumeral(Abs(n));
      DecodeSigned(LittleNumeral(Abs(n)), n < 0);
    }
  }

  /** The sign is read back from where it was put. */
  lemma DecodeSigned(b: Bytes, negative: bool)
    requires b != []
    ensures Decode(WithSign(b, negative)) == if negative then -(FromLittle(b) as int) else FromLittle(b)
  {
    var e := WithSign(b, negative);
    var k := |e| - 1;
    assert e[k] >= 0x80 <==> negative;
    if b[|b| - 1] >= 0x80 {
      assert e[..k] == b && e[k] % 0x80 == 0;
      FromLittleSnoc(b, 0);
    } else {
      ClearSign(b, negative);
    }
  }

  lemma ClearSign(b: Bytes, negative: bool)
    requires b != [] && b[|b| - 1] < 0x80
    ensures var e := WithSign(b, negative); |e| == |b| && e[..|e| - 1] + [e[|e| - 1] % 0x80] == b
  {
    var e, last := WithSign(b, negative), b[|b| - 1];
    assert (last + 0x80) % 0x80 == last && last % 0x80 == last;
  }

  /** What an element must look like to be the encoding of its value. */
  predicate Canonical(e: Bytes) {
    e == [] || e[|e| - 1] % 0x80 != 0 || (|e| >= 2 && e[|e| - 2] >= 0x80)
  }

  lemma EncodeIsCanonical(n: int)
    ensures Canonical(Encode(n))
  {
  }

  /** Exactly the canonical elements are the encodings of their values. */
  lemma EncodeDecode(e: Bytes)
    ensures Encode(Decode(e)) == e <==> Canonical(e)
  {
    if Canonical(e) && e != [] {
      if e[|e| - 1] % 0x80 != 0 {
        EncodeShared(e);
      } else {
        EncodeSeparate(e);
      }
    }
    EncodeIsCanonical(Decode(e));
  }

  /** The sign shares the last byte with the number. */
  lemma EncodeShared(e: Bytes)
    requires e != [] && e[|e| - 1] % 0x80 != 0
    ensures Encode(Decode(e)) == e
  {
    var k := |e| - 1;
    var b := e[..k] + [e[k] % 0x80];
    NumeralOfFromLittle(b);
    assert WithSign(b, e[k] >= 0x80) == e;
  }

  /** The sign has a byte of its own. */
  lemma EncodeSeparate(e: Bytes)
    requires |e| >= 2 && e[|e| - 1] % 0x80 == 0 && e[|e| - 2] >= 0x80
    ensures Encode(Decode(e)) == e
  {
    var k := |e| - 1;
    var b := e[..k];
    FromLittleSnoc(b, 0);
    NumeralOfFromLittle(b);
    assert WithSign(b, e[k] >= 0x80) == e;
  }
}
