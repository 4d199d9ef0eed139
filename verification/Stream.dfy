/** Byte streams and variable-length integers (io.BytesIO; Bitcoin/tx.py: read_varint, encode_varint). */
module Stream {
  import opened Prelude
  import opened Positional

  /** The first n bytes, or all of them if there are fewer. */
  function Take(b: Bytes, n: nat): (r: Bytes)
    ensures |r| <= n && |r| <= |b|
  {
    if |b| <= n then b else b[..n]
  }

  function Drop(b: Bytes, n: nat): (r: Bytes)
    ensures |r| <= |b|
  {
    if |b| <= n then [] else b[n..]
  }

  lemma TakeDrop(x: Bytes, y: Bytes)
    ensures Take(x + y, |x|) == x && Drop(x + y, |x|) == y
  {
  }

  /** A value read from the front of a byte string, with what is left; None where the source raises. */
  type Parsed<T> = Option<(T, Bytes)>

  /** BytesIO, as far as it is read. */
  class ByteStream {
    const data: Bytes
    var pos: nat

    ghost predicate Valid() reads this { pos <= |data| }

    /** What has not been read yet. */
    ghost function Rest(): Bytes
      reads this
      requires Valid()
    {
      data[pos..]
    }

    constructor (data: Bytes)
      ensures Valid() && Rest() == data
    {
      this.data := data;
      pos := 0;
    }

    /** Reading past the end gives fewer bytes. */
    method Read(n: nat) returns (b: Bytes)
      requires Valid()
      modifies this
      ensures Valid() && b == Take(old(Rest()), n) && Rest() == Drop(old(Rest()), n)
    {
      var end := if pos + n <= |data| then pos + n else |data|;
      b := data[pos..end];
      pos := end;
    }

    method ReadVarint() returns (r: Option<nat>)
      requires Valid()
      modifies this
      ensures Valid()
      ensures match DecodeVarint(old(Rest()))
              case None => r.None?
              case Some((i, rest)) => r == Some(i) && Rest() == rest
    {
      var first := Read(1);
      if first == [] { return None; }
      if first[0] < 0xfd { return Some(first[0]); }
      var b := Read(if first[0] == 0xfd then 2 else if first[0] == 0xfe then 4 else 8);
      r := Some(FromLittle(b));
    }
  }

  // ----- variable-length integers -----

  function DecodeVarint(b: Bytes): Parsed<nat> {
    if b == [] then None
    else if b[0] < 0xfd then Some((b[0], b[1..]))
    else
      var n := if b[0] == 0xfd then 2 else if b[0] == 0xfe then 4 else 8;
      Some((FromLittle(Take(b[1..], n)), Drop(b[1..], n)))
  }

  function EncodeVarint(i: int): (r: Option<Bytes>)
    ensures r.Some? <==> 0 <= i < 0x1_0000_0000_0000_0000
    ensures r.Some? ==> 1 <= |r.value| <= 9
  {
    if i < 0 then None
    else if i < 0xfd then Some([i])
    else if i < 0x10000 then Some([0xfd] + LittleDigits(i, 2))
    else if i < 0x1_0000_0000 then Some([0xfe] + LittleDigits(i, 4))
    else if i < 0x1_0000_0000_0000_0000 then Some([0xff] + LittleDigits(i, 8))
    else None
  }

  lemma PowersOf256()
    ensures Pow(256, 1) == 0x100 && Pow(256, 2) == 0x10000 && Pow(256, 4) == 0x1_0000_0000
    ensures Pow(256, 8) == 0x1_0000_0000_0000_0000
  {
    assert Pow(256, 2) == 256 * Pow(256, 1) && Pow(256, 1) == 256 * Pow(256, 0);
    PowAdd(256, 2, 2);
    PowAdd(256, 4, 4);
  }

  /** Fixed-width integers read back. */
  lemma LittleRoundTrip(n: nat, len: nat, rest: Bytes)
    requires n < Pow(256, len)
    ensures FromLittle(Take(LittleDigits(n, len) + rest, len)) == n && Drop(LittleDigits(n, len) + rest, len) == rest
  {
    TakeDrop(LittleDigits(n, len), rest);
    FromLittleOfDigits(n, len);
  }

  /** An encoded integer reads back, and leaves what follows it. */
  lemma VarintRoundTrip(i: int, rest: Bytes)
    requires EncodeVarint(i).Some?
    ensures DecodeVarint(EncodeVarint(i).value + rest) == Some((i, rest))
  {
    var e := EncodeVarint(i).value;
    if i >= 0xfd {
      PowersOf256();
      var len := if i < 0x10000 then 2 else if i < 0x1_0000_0000 then 4 else 8;
      assert (e + rest)[1..] == LittleDigits(i, len) + rest;
      LittleRoundTrip(i, len, rest);
    }
  }
}
