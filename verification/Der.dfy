/** The byte form of signatures (Bitcoin/ecc.py: Signature.der, Signature.parse). */
module Der {
  import opened Prelude
  import opened Positional
  import opened Stream
  import Ecdsa

  type Signature = Ecdsa.Signature

  // ----- writing -----

  /** The shortest non-negative form of a number; raises for zero and for numbers over 32 bytes. */
  function IntBytes(n: nat): (r: Option<Bytes>)
    ensures r.Some? ==> 1 <= |r.value| <= 33
  {
    match ToBig(n, 32)
    case None => None
    case Some(bytes) =>
      var raw := StripZeros(bytes);
      StripShorter(bytes);
      if raw == [] then None else if raw[0] >= 0x80 then Some([0] + raw) else Some(raw)
  }

  /** Signature.der */
  function Encode(sig: Signature): (r: Option<Bytes>)
    ensures r.Some? ==> 8 <= |r.value| <= 72
  {
    match (IntBytes(sig.r), IntBytes(sig.s))
    case (Some(r), Some(s)) =>
      var content: Bytes := [2, |r|] + r + [2, |s|] + s;
      Some([0x30, |content|] + content)
    case _ => None
  }

  // ----- reading -----

  /** One marked integer: its value, its length byte, and what follows; raises at a wrong marker and at the end. */
  function ReadInteger(b: Bytes): Option<(nat, nat, Bytes)> {
    if |b| < 2 || b[0] != 2 then None else Some((FromBig(Take(b[2..], b[1])), b[1], Drop(b[2..], b[1])))
  }

  /** Signature.parse */
  function Decode(b: Bytes): Option<Signature> {
    if |b| < 2 || b[0] != 0x30 || |b| - 2 != b[1] then None
    else match ReadInteger(b[2..])
      case None => None
      case Some((r, rLength, rest)) =>
        match ReadInteger(rest)
        case None => None
        case Some((s, sLength, _)) => if |b| != 6 + rLength + sLength then None else Some(Ecdsa.Signature(r, s))
  }

  /** The stream form of ReadInteger. */
  method NextInteger(stream: ByteStream) returns (r: Option<(nat, nat)>)
    requires stream.Valid()
    modifies stream
    ensures stream.Valid()
    ensures match ReadInteger(old(stream.Rest()))
            case None => r.None?
            case Some((n, length, rest)) => r == Some((n, length)) && stream.Rest() == rest
  {
    ghost var start := stream.Rest();
    var marker := stream.Read(1);
    if marker == [] || marker[0] != 2 { return None; }
    var length := stream.Read(1);
    if length == [] { return None; }
    assert stream.Rest() == start[2..];
    var bytes := stream.Read(length[0]);
    r := Some((FromBig(bytes), length[0]));
  }

  method ParseSignature(b: Bytes) returns (r: Option<Signature>)
    ensures r == Decode(b)
  {
    var stream := new ByteStream(b);
    var compound := stream.Read(1);
    if compound == [] || compound[0] != 0x30 { return None; }
    var length := stream.Read(1);
    if length == [] || |b| - 2 != length[0] { return None; }
    assert stream.Rest() == b[2..];
    var first := NextInteger(stream);
    if first.None? { return None; }
    var second := NextInteger(stream);
    if second.None? || |b| != 6 + first.value.1 + second.value.1 { return None; }
    r := Some(Ecdsa.Signature(first.value.0, second.value.0));
  }

  // ----- round trips -----

  /** The byte strings that are the shortest form of a positive number of at most 32 bytes. */
  predicate Minimal(x: Bytes) {
    x != [] && (if x[0] == 0 then 2 <= |x| <= 33 && x[1] >= 0x80 else x[0] < 0x80 && |x| <= 32)
  }

  lemma StrippedDigits(n: nat)
    requires n < Pow(256, 32)
    ensures StripZeros(ToBig(n, 32).value) == Numeral(n, 256)
  {
    StripIsNumeral(ToBig(n, 32).value);
  }

  /** Exactly the positive numbers of at most 32 bytes have a form; it is minimal and stands for the number. */
  lemma IntBytesValue(n: nat)
    ensures IntBytes(n).Some? <==> 0 < n < Pow(256, 32)
    ensures IntBytes(n).Some? ==> Minimal(IntBytes(n).value) && FromBig(IntBytes(n).value) == n
  {
    if n < Pow(256, 32) {
      StrippedDigits(n);
      StripShorter(ToBig(n, 32).value);
      ValueOfNumeral(n, 256);
      ZeroInFront(StripZeros(ToBig(n, 32).value));
    }
  }

  lemma ZeroInFront(raw: Bytes)
    ensures FromBig([0] + raw) == FromBig(raw)
  {
    assert [0] + raw == Zeros(1) + raw;
    ValueZeroPadded(1, raw, 256);
  }

  lemma FormOf(raw: Bytes)
    requires raw != [] && raw[0] > 0 && |raw| <= 32
    ensures IntBytes(FromBig(raw)) == Some(if raw[0] >= 0x80 then [0] + raw else raw)
  {
    ValueBound(raw, 256);
    PowMono(256, |raw|, 32);
    StrippedDigits(FromBig(raw));
    NumeralOfValue(raw, 256);
  }

  /** Every minimal string is the form of its number. */
  lemma MinimalIsForm(x: Bytes)
    requires Minimal(x)
    ensures IntBytes(FromBig(x)) == Some(x)
  {
    if x[0] == 0 {
      var raw := x[1..];
      assert x == [0] + raw;
      ZeroInFront(raw);
      FormOf(raw);
    } else {
      FormOf(x);
    }
  }

  /** Exactly the signatures with both numbers in [1, 2^256) are encoded, and they are read back. */
  lemma DecodeEncode(sig: Signature)
    ensures Encode(sig).Some? <==> 0 < sig.r < Pow(256, 32) && 0 < sig.s < Pow(256, 32)
    ensures Encode(sig).Some? ==> Decode(Encode(sig).value) == Some(sig)
  {
    IntBytesValue(sig.r);
    IntBytesValue(sig.s);
    if Encode(sig).Some? {
      var r, s := IntBytes(sig.r).value, IntBytes(sig.s).value;
      EncodeOf(sig, r, s);
      DecodeParts(Encode(sig).value, r, s);
    }
  }

  lemma DecodeParts(b: Bytes, r: Bytes, s: Bytes)
    requires |r| + |s| + 4 < 256 && b == [0x30, |r| + |s| + 4] + ([2, |r|] + r + [2, |s|] + s)
    ensures Decode(b) == Some(Ecdsa.Signature(FromBig(r), FromBig(s)))
  {
    var tail := [2, |s|] + s;
    assert b[2..] == [2, |r|] + (r + tail);
    assert b[2..][2..] == r + tail;
    TakeDrop(r, tail);
    assert tail[2..] == s;
    assert s + [] == s;
    TakeDrop(s, []);
  }

  lemma IntegerShape(b: Bytes) returns (x: Bytes, rest: Bytes)
    requires ReadInteger(b).Some?
    ensures |b| >= 2 && ReadInteger(b) == Some((FromBig(x), b[1], rest)) && b == [2, b[1]] + (x + rest) && |x| <= b[1]
    ensures |x| < b[1] ==> rest == []
  {
    x, rest := Take(b[2..], b[1]), Drop(b[2..], b[1]);
    assert b[2..] == x + rest;
  }

  /** The two integers of an accepted string, and what is left in the end. */
  lemma DecodedIntegers(b: Bytes) returns (r: Bytes, s: Bytes, rest: Bytes, end: Bytes)
    requires Decode(b).Some?
    ensures |b| >= 6 && b[0] == 0x30 && b[1] == |b| - 2
    ensures |r| < 256 && |s| < 256 && b[2..] == [2, |r|] + (r + rest) && rest == [2, |s|] + (s + end)
    ensures |b| == 6 + |r| + |s| && Decode(b) == Some(Ecdsa.Signature(FromBig(r), FromBig(s)))
  {
    var first := b[2..];
    r, rest := IntegerShape(first);
    s, end := IntegerShape(rest);
  }

  /** What is accepted consists of two marked integers and nothing else. */
  lemma DecodedShape(b: Bytes) returns (r: Bytes, s: Bytes)
    requires Decode(b).Some?
    ensures |r| < 256 && |s| < 256 && |r| + |s| + 4 < 256 && b == [0x30, |r| + |s| + 4] + ([2, |r|] + r + [2, |s|] + s)
    ensures Decode(b) == Some(Ecdsa.Signature(FromBig(r), FromBig(s)))
  {
    var rest, end;
    r, s, rest, end := DecodedIntegers(b);
    assert |b[2..]| == |b| - 2;
    JoinIntegers(r, s, rest, end);
    HeaderAndBody(b, |r| + |s| + 4, [2, |r|] + r + [2, |s|] + s);
  }

  lemma HeaderAndBody(b: Bytes, n: Byte, body: Bytes)
    requires |b| >= 2 && b[0] == 0x30 && b[1] == n && b[2..] == body
    ensures b == [0x30, n] + body
  {
  }

  lemma JoinIntegers(r: Bytes, s: Bytes, rest: Bytes, end: Bytes)
    requires |r| < 256 && |s| < 256 && end == [] && rest == [2, |s|] + (s + end)
    ensures [2, |r|] + (r + rest) == [2, |r|] + r + [2, |s|] + s
  {
  }

  lemma EncodeOf(sig: Signature, r: Bytes, s: Bytes)
    requires IntBytes(sig.r) == Some(r) && IntBytes(sig.s) == Some(s)
    ensures |r| + |s| + 4 < 256 && Encode(sig) == Some([0x30, |r| + |s| + 4] + ([2, |r|] + r + [2, |s|] + s))
  {
  }

  /** An accepted byte string is the encoding of its signature exactly if both its integers are minimal. */
  lemma EncodeDecode(b: Bytes, r: Bytes, s: Bytes)
    requires |r| + |s| + 4 < 256 && b == [0x30, |r| + |s| + 4] + ([2, |r|] + r + [2, |s|] + s)
    ensures Decode(b) == Some(Ecdsa.Signature(FromBig(r), FromBig(s)))
    ensures Encode(Ecdsa.Signature(FromBig(r), FromBig(s))) == Some(b) <==> Minimal(r) && Minimal(s)
  {
    DecodeParts(b, r, s);
    if Minimal(r) && Minimal(s) {
      MinimalIsForm(r);
      MinimalIsForm(s);
      EncodeOf(Ecdsa.Signature(FromBig(r), FromBig(s)), r, s);
    } else {
      EncodedIsMinimal(b, r, s);
    }
  }

  lemma EncodedIsMinimal(b: Bytes, r: Bytes, s: Bytes)
    requires |r| + |s| + 4 < 256 && b == [0x30, |r| + |s| + 4] + ([2, |r|] + r + [2, |s|] + s)
    ensures Encode(Ecdsa.Signature(FromBig(r), FromBig(s))) == Some(b) ==> Minimal(r) && Minimal(s)
  {
    var sig := Ecdsa.Signature(FromBig(r), FromBig(s));
    IntBytesValue(sig.r);
    IntBytesValue(sig.s);
    if Encode(sig) == Some(b) {
      var x, y := IntBytes(sig.r).value, IntBytes(sig.s).value;
      EncodeOf(sig, x, y);
      SameIntegers(b, x, y, r, s);
    }
  }

  lemma SameIntegers(b: Bytes, r: Bytes, s: Bytes, x: Bytes, y: Bytes)
    requires |r| + |s| + 4 < 256 && |x| + |y| + 4 < 256
    requires b == [0x30, |r| + |s| + 4] + ([2, |r|] + r + [2, |s|] + s)
    requires b == [0x30, |x| + |y| + 4] + ([2, |x|] + x + [2, |y|] + y)
    ensures r == x && s == y
  {
    assert b[3] == |r| && b[3] == |x|;
    assert b[4..4 + |r|] == r && b[4..4 + |x|] == x;
    assert b[6 + |r|..] == s && b[6 + |x|..] == y;
  }

  /** A signature made with a nonce in [1, n) and written out is read back and verifies, unless one of its numbers is
      zero modulo the order, on any curve whose numbers fit in 32 bytes. */
  lemma WrittenSignatureVerifies(d: Ecdsa.Domain, secret: int, z: int, k: nat, isHigh: nat -> bool)
    requires Ecdsa.ValidDomain(d) && 0 < k < d.n && d.c.p <= Pow(256, 32) && d.n <= Pow(256, 32)
    ensures var made := Ecdsa.Sign(d, secret, z, k, isHigh);
      && made.Some?
      && (made.value.r != 0 && made.value.s % d.n != 0 ==>
          && Encode(made.value).Some? && Decode(Encode(made.value).value).Some?
          && Ecdsa.Verify(d, Ecdsa.PublicKey(d, secret), z, Decode(Encode(made.value).value).value) == Some(true))
  {
    Ecdsa.SignedVerifies(d, secret, z, k, isHigh);
    var made := Ecdsa.Sign(d, secret, z, k, isHigh).value;
    if made.r != 0 && made.s % d.n != 0 {
      SmallCoordinate(d, k, made.r);
      NonZeroForm(made.s, d.n);
      DecodeEncode(made);
    }
  }

  lemma NonZeroForm(s: nat, n: nat)
    requires s <= n && n > 0 && s % n != 0
    ensures 0 < s < n
  {
    DivModUnique(n, 1, 0, n);
    DivModUnique(0, 0, 0, n);
  }

  lemma SmallCoordinate(d: Ecdsa.Domain, k: nat, r: nat)
    requires Ecdsa.ValidDomain(d) && 0 < k < d.n
    requires Ecdsa.ScalarMul(d, k, d.g).Affine? && Ecdsa.ScalarMul(d, k, d.g).x == r
    ensures r < d.c.p
  {
    Ecdsa.TimesOnCurve(d.c, k % d.n, d.g);
  }
}
