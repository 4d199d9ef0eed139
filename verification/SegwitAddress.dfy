/** Bech32 strings and segwit addresses (Bitcoin/ecc.py: bech32_encode, bech32_decode, decode_bech32,
    bech32_address). */
module SegwitAddress {
  import opened Prelude
  import opened Positional
  import opened Bech32
  import C = ConvertBits

  const CHARSET := "qpzry9x8" + "gf2tvdw0" + "s3jn54kh" + "ce6mua7l"

  /** CHARSET.find(c), or None where the source finds no such character. */
  function Find(c: char): (d: Option<nat>)
    ensures d.Some? ==> d.value < 32
  {
    match c
    case 'q' => Some(0) case 'p' => Some(1) case 'z' => Some(2) case 'r' => Some(3)
    case 'y' => Some(4) case '9' => Some(5) case 'x' => Some(6) case '8' => Some(7)
    case 'g' => Some(8) case 'f' => Some(9) case '2' => Some(10) case 't' => Some(11)
    case 'v' => Some(12) case 'd' => Some(13) case 'w' => Some(14) case '0' => Some(15)
    case 's' => Some(16) case '3' => Some(17) case 'j' => Some(18) case 'n' => Some(19)
    case '5' => Some(20) case '4' => Some(21) case 'k' => Some(22) case 'h' => Some(23)
    case 'c' => Some(24) case 'e' => Some(25) case '6' => Some(26) case 'm' => Some(27)
    case 'u' => Some(28) case 'a' => Some(29) case '7' => Some(30) case 'l' => Some(31)
    case _ => None
  }

  /** CHARSET[d] */
  function Symbol(d: nat): (c: char)
    requires d < 32
  {
    assert |CHARSET| == 32;
    CHARSET[d]
  }

  lemma FindSymbol(d: nat)
    requires d < 32
    ensures Find(Symbol(d)) == Some(d)
  {
    if d < 8 { assert CHARSET[d] == "qpzry9x8"[d]; }
    else if d < 16 { assert CHARSET[d] == "gf2tvdw0"[d - 8]; }
    else if d < 24 { assert CHARSET[d] == "s3jn54kh"[d - 16]; }
    else { assert CHARSET[d] == "ce6mua7l"[d - 24]; }
  }

  lemma SymbolOfFind(c: char)
    requires Find(c).Some?
    ensures Symbol(Find(c).value) == c
  {
  }

  function Symbols(ds: seq<nat>): (s: string)
    requires AreSymbols(ds)
    ensures |s| == |ds| && forall i :: 0 <= i < |ds| ==> s[i] == Symbol(ds[i])
  {
    if ds == [] then [] else [Symbol(ds[0])] + Symbols(ds[1..])
  }

  /** [CHARSET.find(x) for x in s], or None where `all(x in CHARSET)` fails. */
  function FindAll(s: string): (ds: Option<seq<nat>>)
    ensures ds.Some? ==> |ds.value| == |s| && AreSymbols(ds.value)
    ensures ds.Some? ==> forall i :: 0 <= i < |s| ==> Find(s[i]) == Some(ds.value[i])
    ensures ds.None? ==> exists i :: 0 <= i < |s| && Find(s[i]).None?
  {
    if s == [] then Some([])
    else if Find(s[0]).None? || FindAll(s[1..]).None? then None
    else Some([Find(s[0]).value] + FindAll(s[1..]).value)
  }

  // ----- letter case -----

  predicate Upper(c: char) { 'A' <= c <= 'Z' }

  function LowerChar(c: char): (l: char)
    ensures !Upper(l) && (!Upper(c) ==> l == c)
  {
    if Upper(c) then c + 32 as char else c
  }

  /** str.lower() on the printable ASCII characters that get this far. */
  function Lower(s: string): (l: string)
    ensures |l| == |s| && forall i :: 0 <= i < |s| ==> l[i] == LowerChar(s[i])
  {
    if s == [] then [] else [LowerChar(s[0])] + Lower(s[1..])
  }

  predicate Printable(s: string) { forall i :: 0 <= i < |s| ==> 33 <= s[i] as int <= 126 }

  predicate HasUpper(s: string) { exists i :: 0 <= i < |s| && Upper(s[i]) }

  predicate HasLower(s: string) { exists i :: 0 <= i < |s| && 'a' <= s[i] <= 'z' }

  /** The index after the last occurrence of `c`, or 0 (s.rfind(c) + 1). */
  function AfterLast(s: string, c: char): (n: nat)
    ensures n <= |s| && (n > 0 ==> s[n - 1] == c)
    ensures forall i :: n <= i < |s| ==> s[i] != c
  {
    if s == [] then 0 else if s[|s| - 1] == c then |s| else AfterLast(s[..|s| - 1], c)
  }

  // ----- the source's functions -----

  /** bech32_encode */
  function Bech32Encode(hrp: string, data: seq<nat>): string
    requires AreSymbols(data)
  {
    hrp + "1" + Symbols(data + CreateChecksum(hrp, data))
  }

  /** bech32_decode; None stands for (None, None). */
  function Bech32Decode(bech: string): (r: Option<(string, seq<nat>)>)
    ensures r.Some? ==> AreSymbols(r.value.1)
  {
    if !Printable(bech) || (HasUpper(bech) && HasLower(bech)) then None
    else
      var low := Lower(bech);
      var n := AfterLast(low, '1');
      if n < 2 || n > 84 || n + 6 > |low| then None
      else match FindAll(low[n..])
        case None => None
        case Some(data) =>
          if !Verifies(low[..n - 1], data) then None else Some((low[..n - 1], data[..|data| - 6]))
  }

  /** What decode_bech32 requires of a version and a program. */
  predicate ValidProgram(version: nat, program: seq<nat>) {
    2 <= |program| <= 40 && version <= 16 && (version == 0 ==> |program| == 20 || |program| == 32)
  }

  /** decode_bech32 */
  function Decode(hrp: string, addr: string): Option<(nat, seq<nat>)> {
    match Bech32Decode(addr)
    case None => None
    case Some((got, data)) =>
      if got != hrp || data == [] then None
      else match C.Convert(data[1..], 5, 8, false)
        case None => None
        case Some(program) => if ValidProgram(data[0], program) then Some((data[0], program)) else None
  }

  /** bech32_address; None stands for None and for the error of a version that has no symbol. */
  function Address(hrp: string, version: nat, program: seq<int>): Option<string> {
    match C.Convert(program, 8, 5, true)
    case None => None
    case Some(five) =>
      if version >= 32 || !AreSymbols(five) then None
      else
        var addr := Bech32Encode(hrp, [version] + five);
        if Decode(hrp, addr).None? then None else Some(addr)
  }

  // ----- strings -----

  /** A human-readable part in the form bech32_decode hands back. */
  predicate ValidHrp(hrp: string) { 1 <= |hrp| <= 83 && Printable(hrp) && !HasUpper(hrp) }

  lemma SymbolPlain(d: nat)
    requires d < 32
    ensures 33 <= Symbol(d) as int <= 126 && !Upper(Symbol(d)) && Symbol(d) != '1'
  {
    FindSymbol(d);
  }

  lemma FindAllSymbols(ds: seq<nat>)
    requires AreSymbols(ds)
    ensures FindAll(Symbols(ds)) == Some(ds)
  {
    var s := Symbols(ds);
    forall i | 0 <= i < |ds| ensures Find(s[i]) == Some(ds[i]) { FindSymbol(ds[i]); }
    assert FindAll(s).Some?;
    assert FindAll(s).value == ds;
  }

  lemma SymbolsOfFindAll(s: string)
    requires FindAll(s).Some?
    ensures Symbols(FindAll(s).value) == s
  {
    forall i | 0 <= i < |s| ensures Symbols(FindAll(s).value)[i] == s[i] { SymbolOfFind(s[i]); }
  }

  lemma SymbolsPlain(ds: seq<nat>)
    requires AreSymbols(ds)
    ensures var t := Symbols(ds);
      forall i :: 0 <= i < |t| ==> 33 <= t[i] as int <= 126 && !Upper(t[i]) && t[i] != '1'
  {
    forall i | 0 <= i < |ds| ensures 33 <= Symbols(ds)[i] as int <= 126 && !Upper(Symbols(ds)[i]) && Symbols(ds)[i] != '1' {
      SymbolPlain(ds[i]);
    }
  }

  /** The separator of an encoding is its last '1', and lower-casing only touches the human-readable part. */
  lemma EncodingShape(hrp: string, t: string, s: string)
    requires s == hrp + "1" + t
    requires forall i :: 0 <= i < |t| ==> 33 <= t[i] as int <= 126 && !Upper(t[i]) && t[i] != '1'
    ensures AfterLast(Lower(s), '1') == |hrp| + 1
    ensures Lower(s)[..|hrp|] == Lower(hrp) && Lower(s)[|hrp| + 1..] == t
  {
    var k, low := |hrp| + 1, Lower(s);
    assert s[k - 1] == '1';
    forall i | k <= i < |s| ensures low[i] == t[i - k] { assert s[i] == t[i - k]; }
    AfterLastIs(low, '1', k);
  }

  lemma AfterLastIs(s: string, c: char, n: nat)
    requires 0 < n <= |s| && s[n - 1] == c && forall i :: n <= i < |s| ==> s[i] != c
    ensures AfterLast(s, c) == n
  {
    var m := AfterLast(s, c);
    assert m > 0 ==> s[m - 1] == c;
  }

  lemma EncodingCase(hrp: string, t: string, s: string)
    requires s == hrp + "1" + t
    requires forall i :: 0 <= i < |t| ==> 33 <= t[i] as int <= 126 && !Upper(t[i]) && t[i] != '1'
    ensures (Printable(s) <==> Printable(hrp)) && (HasUpper(s) <==> HasUpper(hrp))
  {
    var k := |hrp| + 1;
    assert s[k - 1] == '1';
    assert forall i :: k <= i < |s| ==> s[i] == t[i - k];
    assert forall i :: 0 <= i < |hrp| ==> s[i] == hrp[i];
    if i :| 0 <= i < |s| && Upper(s[i]) { assert i < |hrp|; }
    if i :| 0 <= i < |hrp| && Upper(hrp[i]) { assert Upper(s[i]); }
  }

  lemma LowerUnchanged(s: string)
    ensures Lower(s) == s <==> !HasUpper(s)
  {
    if i :| 0 <= i < |s| && Upper(s[i]) { assert Lower(s)[i] != s[i]; }
  }

  /** Decoding an encoding with a human-readable part in lower case gives back its parts. */
  lemma DecodeEncoding(hrp: string, data: seq<nat>)
    requires AreSymbols(data)
    ensures ValidHrp(hrp) ==> Bech32Decode(Bech32Encode(hrp, data)) == Some((hrp, data))
    ensures !ValidHrp(hrp) ==> Bech32Decode(Bech32Encode(hrp, data)).None?
                               || Bech32Decode(Bech32Encode(hrp, data)).value.0 != hrp
  {
    var full := data + CreateChecksum(hrp, data);
    FindAllSymbols(full);
    ChecksumVerifies(hrp, data);
    SymbolsPlain(full);
    assert full[..|full| - 6] == data;
    DecodeParts(hrp, data, full, Symbols(full), Bech32Encode(hrp, data));
  }

  predicate Plain(t: string) { forall i :: 0 <= i < |t| ==> 33 <= t[i] as int <= 126 && !Upper(t[i]) && t[i] != '1' }

  lemma DecodeParts(hrp: string, data: seq<nat>, full: seq<nat>, t: string, s: string)
    requires s == hrp + "1" + t && |t| == |full| >= 6 && full[..|full| - 6] == data
    requires AreSymbols(full) && FindAll(t) == Some(full) && Verifies(hrp, full) && Plain(t)
    ensures ValidHrp(hrp) ==> Bech32Decode(s) == Some((hrp, data))
    ensures !ValidHrp(hrp) ==> Bech32Decode(s).None? || Bech32Decode(s).value.0 != hrp
  {
    EncodingShape(hrp, t, s);
    EncodingCase(hrp, t, s);
    LowerUnchanged(hrp);
    DecodeWithLast(hrp, data, full, t, s, Lower(s));
  }

  lemma DecodeWithLast(hrp: string, data: seq<nat>, full: seq<nat>, t: string, s: string, low: string)
    requires low == Lower(s) && AfterLast(low, '1') == |hrp| + 1 && low[..|hrp|] == Lower(hrp) && low[|hrp| + 1..] == t
    requires |t| == |full| >= 6 && full[..|full| - 6] == data && FindAll(t) == Some(full) && Verifies(hrp, full)
    requires (Printable(s) <==> Printable(hrp)) && (HasUpper(s) <==> HasUpper(hrp)) && (Lower(hrp) == hrp <==> !HasUpper(hrp))
    ensures ValidHrp(hrp) ==> Bech32Decode(s) == Some((hrp, data))
    ensures !ValidHrp(hrp) ==> Bech32Decode(s).None? || Bech32Decode(s).value.0 != hrp
  {
    assert low[..|hrp| + 1 - 1] == Lower(hrp);
  }

  lemma ProgramSymbols(program: seq<int>, five: seq<nat>)
    requires C.Convert(program, 8, 5, true) == Some(five)
    ensures AreSymbols(five) && C.AreSymbols(program, 8) && C.Convert(five, 5, 8, false) == Some(program)
  {
    assert Pow(2, 5) == 32;
    C.PaddingMeaning(program, 8, 5, five);
    C.ConversionsInverse(program, 8, five, 5);
  }

  /** Exactly the valid human-readable parts, versions and programs have an address, and it decodes to them. */
  lemma AddressRoundTrip(hrp: string, version: nat, program: Bytes)
    ensures Address(hrp, version, program).Some? <==>
      1 <= |hrp| <= 83 && (forall i :: 0 <= i < |hrp| ==> 33 <= hrp[i] as int <= 126 && !('A' <= hrp[i] <= 'Z'))
      && version <= 16 && 2 <= |program| <= 40 && (version == 0 ==> |program| == 20 || |program| == 32)
    ensures Address(hrp, version, program).Some? ==>
            Decode(hrp, Address(hrp, version, program).value) == Some((version, program))
  {
    if version < 32 {
      var five := ByteSymbols(program);
      var data := [version] + five;
      var addr := Bech32Encode(hrp, data);
      DecodeEncoding(hrp, data);
      DecodeOf(hrp, version, program, five, addr);
      AddressOf(hrp, version, program, five, addr);
    }
  }

  lemma DecodeOf(hrp: string, version: nat, program: seq<nat>, five: seq<nat>, addr: string)
    requires C.Convert(five, 5, 8, false) == Some(program)
    requires ValidHrp(hrp) ==> Bech32Decode(addr) == Some((hrp, [version] + five))
    requires !ValidHrp(hrp) ==> Bech32Decode(addr).None? || Bech32Decode(addr).value.0 != hrp
    ensures Decode(hrp, addr) == if ValidHrp(hrp) && ValidProgram(version, program) then Some((version, program)) else None
  {
    assert ([version] + five)[1..] == five;
  }

  lemma ByteSymbols(program: Bytes) returns (five: seq<nat>)
    ensures C.Convert(program, 8, 5, true) == Some(five) && AreSymbols(five)
    ensures C.Convert(five, 5, 8, false) == Some(program)
  {
    assert Pow(2, 8) == 256;
    var p;
    five, p := C.ZeroPadding(program, 8, 5);
    ProgramSymbols(program, five);
  }

  /** What a decoded string consists of. */
  lemma Decoded(hrp: string, addr: string) returns (version: nat, five: seq<nat>, program: seq<nat>)
    requires Decode(hrp, addr).Some?
    ensures Decode(hrp, addr) == Some((version, program)) && Bech32Decode(addr) == Some((hrp, [version] + five))
    ensures AreSymbols([version] + five) && C.Convert(five, 5, 8, false) == Some(program)
  {
    var data := Bech32Decode(addr).value.1;
    version, five, program := data[0], data[1..], Decode(hrp, addr).value.1;
    assert data == [version] + five;
  }

  lemma AddressOf(hrp: string, version: nat, program: seq<int>, five: seq<nat>, addr: string)
    requires version < 32 && AreSymbols(five) && C.Convert(program, 8, 5, true) == Some(five)
    requires AreSymbols([version] + five) && addr == Bech32Encode(hrp, [version] + five)
    ensures Address(hrp, version, program) == if Decode(hrp, addr).None? then None else Some(addr)
  {
  }

  /** Every accepted string is, in lower case, the address of what it decodes to. */
  lemma DecodedIsAddress(hrp: string, addr: string)
    requires Decode(hrp, addr).Some?
    ensures var (version, program) := Decode(hrp, addr).value;
      version <= 16 && Address(hrp, version, program) == Some(Lower(addr))
  {
    var version, five, program := Decoded(hrp, addr);
    EncodeDecoded(addr);
    assert version == ([version] + five)[0];
    forall i | 0 <= i < |five| ensures five[i] < 32 { assert five[i] == ([version] + five)[i + 1]; }
    NarrowIsWide(five, program);
    ValidParts(hrp, addr);
    DecodeEncoding(hrp, [version] + five);
    SameDecoding(hrp, addr, Lower(addr));
    AddressOf(hrp, version, program, five, Lower(addr));
  }

  lemma SameDecoding(hrp: string, addr: string, other: string)
    requires Bech32Decode(addr) == Bech32Decode(other)
    ensures Decode(hrp, addr) == Decode(hrp, other)
  {
  }

  /** A decoded string is, in lower case, the encoding of its parts. */
  lemma EncodeDecoded(addr: string)
    requires Bech32Decode(addr).Some?
    ensures var (hrp, data) := Bech32Decode(addr).value; Bech32Encode(hrp, data) == Lower(addr)
  {
    var low := Lower(addr);
    var n := AfterLast(low, '1');
    var full := FindAll(low[n..]).value;
    var hrp, data, sum := low[..n - 1], full[..|full| - 6], full[|full| - 6..];
    assert full == data + sum;
    ChecksumUnique(hrp, data, sum);
    SymbolsOfFindAll(low[n..]);
    SplitAtOne(low, n, hrp);
  }

  lemma SplitAtOne(low: string, n: nat, hrp: string)
    requires 0 < n <= |low| && low[n - 1] == '1' && hrp == low[..n - 1]
    ensures low == hrp + "1" + low[n..]
  {
  }

  lemma NarrowIsWide(five: seq<nat>, program: seq<nat>)
    requires AreSymbols(five) && C.Convert(five, 5, 8, false) == Some(program)
    ensures C.Convert(program, 8, 5, true) == Some(five)
  {
    C.ConversionsInverse(program, 8, five, 5);
  }

  lemma ValidParts(hrp: string, addr: string)
    requires Decode(hrp, addr).Some?
    ensures ValidHrp(hrp)
  {
    var low := Lower(addr);
    var n := AfterLast(low, '1');
    LowerValid(addr);
    PrefixValid(hrp, low, n - 1);
  }

  lemma PrefixValid(hrp: string, low: string, m: nat)
    requires 1 <= m <= 83 && m <= |low| && hrp == low[..m] && Printable(low) && !HasUpper(low)
    ensures ValidHrp(hrp)
  {
    forall i | 0 <= i < |hrp| ensures 33 <= hrp[i] as int <= 126 && !Upper(hrp[i]) { assert hrp[i] == low[i]; }
  }

  lemma LowerValid(s: string)
    requires Printable(s)
    ensures Printable(Lower(s)) && !HasUpper(Lower(s))
  {
    var low := Lower(s);
    forall i | 0 <= i < |low| ensures 33 <= low[i] as int <= 126 && !Upper(low[i]) {
      assert low[i] == LowerChar(s[i]);
      LowerPrintable(s[i]);
    }
  }

  lemma LowerPrintable(c: char)
    requires 33 <= c as int <= 126
    ensures 33 <= LowerChar(c) as int <= 126 && !Upper(LowerChar(c))
  {
  }

  /** Exactly the printable strings in one letter case that are, in lower case, the encoding of a valid prefix and data are
      decoded to these. */
  lemma DecodesExactly(addr: string, hrp: string, data: seq<nat>)
    ensures Bech32Decode(addr) == Some((hrp, data)) <==>
      Printable(addr) && !(HasUpper(addr) && HasLower(addr)) && ValidHrp(hrp) && AreSymbols(data)
      && Lower(addr) == Bech32Encode(hrp, data)
  {
    if Bech32Decode(addr) == Some((hrp, data)) {
      EncodeDecoded(addr);
      LowerValid(addr);
      DecodedPrefix(addr, hrp, data);
    }
    if Printable(addr) && !(HasUpper(addr) && HasLower(addr)) && ValidHrp(hrp) && AreSymbols(data)
       && Lower(addr) == Bech32Encode(hrp, data)
    {
      LowerValid(addr);
      SameAsLower(addr);
      DecodeEncoding(hrp, data);
    }
  }

  lemma DecodedPrefix(addr: string, hrp: string, data: seq<nat>)
    requires Bech32Decode(addr) == Some((hrp, data)) && Printable(Lower(addr)) && !HasUpper(Lower(addr))
    ensures ValidHrp(hrp)
  {
    var low := Lower(addr);
    PrefixValid(hrp, low, AfterLast(low, '1') - 1);
  }

  lemma SameAsLower(addr: string)
    requires Printable(addr) && !(HasUpper(addr) && HasLower(addr)) && Printable(Lower(addr)) && !HasUpper(Lower(addr))
    ensures Bech32Decode(addr) == Bech32Decode(Lower(addr))
  {
    LowerUnchanged(Lower(addr));
  }
}
