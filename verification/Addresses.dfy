/** Addresses of keys and the scripts made from typed addresses (Bitcoin/ecc.py: S256Point.address; bitcoin_interface.py:
    SignTransaction, where it decodes addresses). */
module Addresses {
  import opened Prelude
  import opened Positional
  import B = Base58
  import C = ConvertBits
  import S = SegwitAddress

  const MAINNET := "bc"

  /** S256Point.address on the main network, for the hash of a key. */
  function KeyAddress(checksum: Hash, h160: Bytes, segwit: bool): Option<string>
    requires forall b :: |checksum(b)| >= 4
  {
    if segwit then S.Address(MAINNET, 0, h160) else Some(B.EncodeChecksum(checksum, [0] + h160))
  }

  lemma PowerEight(w: nat)
    requires w == 8
    ensures C.Shift(w) == 256
  {
    assert Pow(2, 1) == 2 && Pow(2, 2) == 4 && Pow(2, 3) == 8 && Pow(2, 4) == 16;
    PowAdd(2, 4, 4);
  }

  /** The program of a decoded address consists of bytes. */
  lemma ProgramIsBytes(hrp: string, addr: string)
    requires S.Decode(hrp, addr).Some?
    ensures forall i :: 0 <= i < |S.Decode(hrp, addr).value.1| ==> S.Decode(hrp, addr).value.1[i] < 256
  {
    var version, five, program := S.Decoded(hrp, addr);
    forall i | 0 <= i < |five| ensures five[i] < 32 { assert five[i] == ([version] + five)[i + 1]; }
    S.NarrowIsWide(five, program);
    PowerEight(8);
  }

  /** What SignTransaction makes of a typed address: its decoder raises, or says that it is invalid, or gives the hash
      that goes into the script; whatever version the address has, none of it is kept. */
  datatype Reading = Unreadable | Invalid | Pays(hash: Bytes)

  function Read(checksum: Hash, addr: string, segwit: bool): Reading {
    if segwit then
      match S.Decode(MAINNET, addr)
      case None => Invalid
      case Some((_, program)) =>
        ProgramIsBytes(MAINNET, addr);
        Pays(program)
    else
      match B.DigitsOf(addr)
      case None => Unreadable
      case Some(digits) =>
        match B.Check(checksum, Value(digits, 58))
        case Raised => Unreadable
        case BadChecksum => Invalid
        case Payload(bytes) => Pays(bytes)
  }

  method ReadAddress(checksum: Hash, addr: string, segwit: bool) returns (r: Reading)
    ensures r == Read(checksum, addr, segwit)
  {
    if segwit {
      r := Read(checksum, addr, segwit);
    } else {
      var decoded := B.DecodeBase58(checksum, addr);
      match decoded
      case Raised => r := Unreadable;
      case BadChecksum => r := Invalid;
      case Payload(bytes) => r := Pays(bytes);
    }
  }

  function ScriptHash(checksum: Hash, addr: string, segwit: bool): Option<Bytes> {
    match Read(checksum, addr, segwit) case Pays(hash) => Some(hash) case _ => None
  }

  /** A checksummed address is unreadable exactly for a character outside the alphabet or a number of more than 25 bytes,
      invalid exactly if its last four bytes are not the checksum of the others, and pays all but the first of those. */
  lemma ReadExactly(checksum: Hash, addr: string)
    requires forall b :: |checksum(b)| >= 4
    ensures Read(checksum, addr, false).Unreadable? <==>
            (exists i :: 0 <= i < |addr| && B.Index(addr[i]).None?)
            || (B.DigitsOf(addr).Some? && Value(B.DigitsOf(addr).value, 58) >= Pow(256, 25))
    ensures !Read(checksum, addr, false).Unreadable? ==>
      Spelled(addr).Some? && |Spelled(addr).value| == 25
      && var b := Spelled(addr).value;
         Read(checksum, addr, false) == if checksum(b[..21])[..4] == b[21..] then Pays(b[1..21]) else Invalid
  {
    B.ReadableExactly(addr);
  }

  lemma ReadAs(checksum: Hash, addr: string, digits: seq<nat>, bytes: Bytes)
    requires B.DigitsOf(addr) == Some(digits) && B.Check(checksum, Value(digits, 58)) == B.Payload(bytes)
    ensures ScriptHash(checksum, addr, false) == Some(bytes)
  {
  }

  lemma ReadEncoded(checksum: Hash, b: Bytes)
    requires |b| == 21 && forall x :: |checksum(x)| >= 4
    ensures ScriptHash(checksum, B.EncodeChecksum(checksum, b), false) == Some(b[1..])
  {
    var addr := B.EncodeChecksum(checksum, b);
    B.DecodeEncodeChecksum(checksum, b);
    ReadAs(checksum, addr, B.DigitsOf(addr).value, b[1..]);
  }

  /** The address of a key leads to a script for the hash of the key. */
  lemma KeyAddressDecodes(checksum: Hash, h160: Bytes, segwit: bool)
    requires |h160| == 20 && forall b :: |checksum(b)| >= 4
    ensures KeyAddress(checksum, h160, segwit).Some?
    ensures ScriptHash(checksum, KeyAddress(checksum, h160, segwit).value, segwit) == Some(h160)
  {
    if segwit {
      S.AddressRoundTrip(MAINNET, 0, h160);
    } else {
      ReadEncoded(checksum, [0] + h160);
      assert ([0] + h160)[1..] == h160;
    }
  }

  lemma KeyAddressRead(checksum: Hash, h160: Bytes, segwit: bool, addr: string)
    requires |h160| == 20 && forall b :: |checksum(b)| >= 4
    requires KeyAddress(checksum, h160, segwit) == Some(addr)
    ensures Read(checksum, addr, segwit) == Pays(h160)
  {
    KeyAddressDecodes(checksum, h160, segwit);
  }

  /** A payment to a witness address goes to the program of version 0: its address is the typed one, in lower case,
      exactly if that has version 0. */
  lemma ReceiverExactly(checksum: Hash, addr: string)
    requires S.Decode("bc", addr).Some?
    ensures var (version, program) := S.Decode("bc", addr).value;
      ScriptHash(checksum, addr, true) == Some(program)
      && (S.Address("bc", 0, program) == Some(S.Lower(addr)) <==> version == 0)
  {
    var (version, program) := S.Decode(MAINNET, addr).value;
    S.DecodedIsAddress(MAINNET, addr);
    ProgramIsBytes(MAINNET, addr);
    var bytes: Bytes := program;
    S.AddressRoundTrip(MAINNET, 0, bytes);
    S.AddressRoundTrip(MAINNET, version, bytes);
  }

  /** The other side occurs: every program of 2 to 40 bytes has an address of version 1, which is paid as version 0. */
  lemma NewerVersionPaidAsZero(checksum: Hash, program: Bytes)
    requires 2 <= |program| <= 40
    ensures S.Address(MAINNET, 1, program).Some?
    ensures var addr := S.Address(MAINNET, 1, program).value;
      S.Decode(MAINNET, addr) == Some((1, program)) && ScriptHash(checksum, addr, true) == Some(program)
      && S.Address(MAINNET, 0, program) != Some(S.Lower(addr))
  {
    S.AddressRoundTrip(MAINNET, 1, program);
    ReceiverExactly(checksum, S.Address(MAINNET, 1, program).value);
  }

  /** The 25 bytes whose number a typed string spells. */
  function Spelled(addr: string): Option<Bytes> {
    match B.DigitsOf(addr) case None => None case Some(digits) => ToBig(Value(digits, 58), 25)
  }

  /** A payment to a checksummed address goes to the key hash script: its address is the typed one exactly if the version
      byte is 0 and there are as many leading '1's as leading zero bytes. */
  lemma LegacyReceiverExactly(checksum: Hash, addr: string)
    requires ScriptHash(checksum, addr, false).Some? && forall b :: |checksum(b)| >= 4
    ensures var h160 := ScriptHash(checksum, addr, false).value;
      && |h160| == 20 && Spelled(addr).Some? && |Spelled(addr).value| == 25 && Spelled(addr).value[1..21] == h160
      && (KeyAddress(checksum, h160, false) == Some(addr) <==>
          Spelled(addr).value[0] == 0 && B.LeadingOnes(addr) == B.LeadingZeros(Spelled(addr).value))
  {
    ReadExactly(checksum, addr);
    ReceiverOf(checksum, addr, Spelled(addr).value, ScriptHash(checksum, addr, false).value);
  }

  lemma ReceiverOf(checksum: Hash, addr: string, all: Bytes, h160: Bytes)
    requires (forall b :: |checksum(b)| >= 4) && Spelled(addr) == Some(all) && |all| == 25
    requires checksum(all[..21])[..4] == all[21..] && h160 == all[1..21]
    ensures KeyAddress(checksum, h160, false) == Some(addr) <==>
            all[0] == 0 && B.LeadingOnes(addr) == B.LeadingZeros(all)
  {
    var zero := [0] + h160;
    var end := checksum(zero)[..4];
    LegacyKeyAddress(checksum, h160, zero, end);
    if all[0] == 0 {
      FrontAndChecksum(all, zero, end);
      SpelledEncoding(addr, all);
    } else {
      OtherNumber(addr, zero + end, all);
    }
  }

  lemma LegacyKeyAddress(checksum: Hash, h160: Bytes, zero: Bytes, end: Bytes)
    requires (forall b :: |checksum(b)| >= 4) && zero == [0] + h160 && end == checksum(zero)[..4]
    ensures KeyAddress(checksum, h160, false) == Some(B.Encode(zero + end))
  {
  }

  lemma FrontAndChecksum(all: Bytes, zero: Bytes, end: Bytes)
    requires |all| == 25 && all[0] == 0 && zero == [0] + all[1..21]
    ensures all[..21] == zero && (end == all[21..] ==> zero + end == all)
  {
  }

  lemma SpelledEncoding(addr: string, all: Bytes)
    requires Spelled(addr) == Some(all)
    ensures B.Encode(all) == addr <==> B.LeadingOnes(addr) == B.LeadingZeros(all)
  {
    B.EncodeDecoded(addr, all);
  }

  /** Bytes other than those a string spells are not encoded as that string. */
  lemma OtherNumber(addr: string, other: Bytes, all: Bytes)
    requires Spelled(addr) == Some(all) && |other| == 25 && other[0] != all[0]
    ensures B.Encode(other) != addr
  {
    B.ValueOfEncoding(other);
    ToBigOfFromBig(other);
  }

  /** A checksummed address of any version byte, as it is written, is paid as a key hash. */
  lemma EncodedReceiver(checksum: Hash, version: Byte, h160: Bytes)
    requires |h160| == 20 && forall b :: |checksum(b)| >= 4
    ensures var addr := B.EncodeChecksum(checksum, [version] + h160);
      ScriptHash(checksum, addr, false) == Some(h160)
      && (KeyAddress(checksum, h160, false) == Some(addr) <==> version == 0)
  {
    var b, zero := [version] + h160, [0] + h160;
    ReadEncoded(checksum, b);
    assert b[1..] == h160;
    if B.EncodeChecksum(checksum, zero) == B.EncodeChecksum(checksum, b) {
      B.EncodeInjective(zero + checksum(zero)[..4], b + checksum(b)[..4]);
      assert (zero + checksum(zero)[..4])[0] == 0 && (b + checksum(b)[..4])[0] == version;
    }
  }

  /** So is the address of a key with more '1's in front, although it is not that address. */
  lemma PaddedReceiver(checksum: Hash, h160: Bytes, n: nat)
    requires |h160| == 20 && n > 0 && forall b :: |checksum(b)| >= 4
    ensures KeyAddress(checksum, h160, false).Some?
    ensures var addr := Repeat('1', n) + KeyAddress(checksum, h160, false).value;
      ScriptHash(checksum, addr, false) == Some(h160) && KeyAddress(checksum, h160, false) != Some(addr)
  {
    KeyAddressDecodes(checksum, h160, false);
    B.LeadingOnesIgnored(n, KeyAddress(checksum, h160, false).value);
  }
}
