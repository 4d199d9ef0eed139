/** Where everything stands in the byte formats of Bitcoin/tx.py: positions, widths and byte orders, against which the
    functions that print and hash are held. */
module Layout {
  import opened Prelude
  import opened Positional
  import opened Stream
  import opened Script
  import opened TxCodec
  import opened SigHash
  import C = Commitments

  /** The n bytes from position i on. */
  function At(b: Bytes, i: nat, n: nat): Bytes
    requires i + n <= |b|
  {
    b[i..i + n]
  }

  /** Read with the least significant byte first. */
  predicate Stands(b: Bytes, i: nat, n: nat, value: int) {
    i + n <= |b| && FromBig(Reverse(At(b, i, n))) == value
  }

  lemma LittleStands(n: int, len: nat, b: Bytes, i: nat)
    requires ToLittle(n, len).Some? && i + len <= |b| && At(b, i, len) == ToLittle(n, len).value
    ensures Stands(b, i, len, n)
  {
    FromLittleOfDigits(n, len);
    LittleIsReversedBig(LittleDigits(n, len));
  }

  lemma PartAt(x: Bytes, y: Bytes, z: Bytes)
    ensures At(x + y + z, |x|, |y|) == y
  {
  }

  lemma LittlePart(x: Bytes, n: int, len: nat, z: Bytes, b: Bytes)
    requires ToLittle(n, len).Some? && b == x + ToLittle(n, len).value + z
    ensures Stands(b, |x|, len, n)
  {
    PartAt(x, ToLittle(n, len).value, z);
    LittleStands(n, len, b, |x|);
  }

  // ----- variable-length integers -----

  /** How many bytes an integer takes with its first byte. */
  function Width(first: Byte): nat { if first < 0xfd then 1 else if first == 0xfd then 3 else if first == 0xfe then 5 else 9 }

  lemma VarintLayout(i: int)
    requires EncodeVarint(i).Some?
    ensures var e := EncodeVarint(i).value;
      && |e| == Width(e[0])
      && (i < 0xfd ==> e[0] == i)
      && (0xfd <= i < 0x1_0000 ==> e[0] == 0xfd) && (0x1_0000 <= i < 0x1_0000_0000 ==> e[0] == 0xfe)
      && (0x1_0000_0000 <= i ==> e[0] == 0xff)
      && (0xfd <= i ==> Stands(e, 1, |e| - 1, i))
  {
    if 0xfd <= i {
      PowersOf256();
      var e := EncodeVarint(i).value;
      var len := if i < 0x10000 then 2 else if i < 0x1_0000_0000 then 4 else 8;
      LittlePart([e[0]], i, len, [], e);
    }
  }

  /** The encoding is the shortest complete byte string that is read as the integer, and the only one of its length. */
  lemma VarintShortest(i: int, b: Bytes)
    requires EncodeVarint(i).Some? && b != [] && |b| == Width(b[0]) && DecodeVarint(b) == Some((i, []))
    ensures |EncodeVarint(i).value| <= |b|
    ensures |EncodeVarint(i).value| == |b| ==> EncodeVarint(i).value == b
  {
    if b[0] < 0xfd {
      assert b == [b[0]];
    } else {
      var tail := b[1..];
      assert Take(tail, |tail|) == tail;
      FromLittleBound(tail);
      PowersOf256();
      LittleDigitsOfValue(tail);
      assert b == [b[0]] + tail;
    }
  }

  // ----- inputs, outputs and transactions -----

  lemma InputLayout(i: In)
    requires InBytes(i).Some? && |i.prevTx| == 32
    ensures Serialize(i.scriptSig).Some?
    ensures var (b, script) := (InBytes(i).value, Serialize(i.scriptSig).value);
      && |b| == 40 + |script|
      && At(b, 0, 32) == Reverse(i.prevTx)
      && Stands(b, 32, 4, i.prevIndex)
      && At(b, 36, |script|) == script
      && Stands(b, 36 + |script|, 4, i.sequence)
  {
    var b, script := InBytes(i).value, Serialize(i.scriptSig).value;
    var id, index, last := Reverse(i.prevTx), ToLittle(i.prevIndex, 4).value, ToLittle(i.sequence, 4).value;
    assert b == id + index + script + last;
    assert b == id + index + (script + last) && b == id + index + script + last + [];
    LittlePart(id, i.prevIndex, 4, script + last, b);
    LittlePart(id + index + script, i.sequence, 4, [], b);
    PartAt(id + index, script, last);
    assert At(b, 0, 32) == id;
  }

  lemma OutputLayout(o: Out)
    requires OutBytes(o).Some?
    ensures Serialize(o.scriptPubkey).Some?
    ensures var b := OutBytes(o).value; Stands(b, 0, 8, o.amount) && b[8..] == Serialize(o.scriptPubkey).value
  {
    var b, script := OutBytes(o).value, Serialize(o.scriptPubkey).value;
    assert b == [] + ToLittle(o.amount, 8).value + script;
    LittlePart([], o.amount, 8, script, b);
  }

  /** A version, the counted inputs, the counted outputs, the lock time. */
  lemma LegacyLayout(tx: TxData)
    requires LegacyBytes(tx).Some?
    ensures EncodeVarint(|tx.ins|).Some? && Concat(tx.ins, InBytes).Some?
    ensures EncodeVarint(|tx.outs|).Some? && Concat(tx.outs, OutBytes).Some?
    ensures var b := LegacyBytes(tx).value;
      && |b| >= 8 && Stands(b, 0, 4, tx.version) && Stands(b, |b| - 4, 4, tx.locktime)
      && b[4..|b| - 4] == EncodeVarint(|tx.ins|).value + Concat(tx.ins, InBytes).value
                        + EncodeVarint(|tx.outs|).value + Concat(tx.outs, OutBytes).value
  {
    var b, version, locktime := LegacyBytes(tx).value, ToLittle(tx.version, 4).value, ToLittle(tx.locktime, 4).value;
    var body := BodyBytes(tx).value;
    Sandwich(b, version, body, locktime);
    LittleStands(tx.version, 4, b, 0);
    LittleStands(tx.locktime, 4, b, |b| - 4);
    Unnested(EncodeVarint(|tx.ins|).value, Concat(tx.ins, InBytes).value, EncodeVarint(|tx.outs|).value,
             Concat(tx.outs, OutBytes).value);
  }

  lemma Sandwich(b: Bytes, x: Bytes, y: Bytes, z: Bytes)
    requires b == x + y + z
    ensures At(b, 0, |x|) == x && b[|x|..|b| - |z|] == y && At(b, |b| - |z|, |z|) == z
  {
  }

  lemma Unnested(w: Bytes, x: Bytes, y: Bytes, z: Bytes)
    ensures (w + x) + (y + z) == w + x + y + z
  {
  }

  /** The segwit format is the legacy one with the bytes 0 and 1 behind the version and the witnesses in front of the lock
      time. */
  lemma SegwitLayout(tx: TxData)
    requires SegwitBytes(tx).Some?
    ensures LegacyBytes(tx).Some? && |LegacyBytes(tx).value| >= 8 && Concat(tx.ins, WitnessBytes).Some?
    ensures var l := LegacyBytes(tx).value;
      SegwitBytes(tx).value == l[..4] + [0, 1] + l[4..|l| - 4] + Concat(tx.ins, WitnessBytes).value + l[|l| - 4..]
  {
    var version, locktime, body := ToLittle(tx.version, 4).value, ToLittle(tx.locktime, 4).value, BodyBytes(tx).value;
    var l := LegacyBytes(tx).value;
    assert l == version + body + locktime;
    assert l[..4] == version && l[4..|l| - 4] == body && l[|l| - 4..] == locktime;
  }

  /** parse_segwit insists on these two bytes. */
  lemma MarkerRequired(b: Bytes)
    requires ReadSegwit(b).Some?
    ensures |b| >= 6 && b[4] == 0 && b[5] == 1
  {
    MarkerTaken(b, Drop(b, 4));
  }

  lemma MarkerTaken(b: Bytes, rest: Bytes)
    requires rest == Drop(b, 4) && Take(rest, 2) == MARKER
    ensures |b| >= 6 && b[4] == 0 && b[5] == 1
  {
    assert rest[0] == 0 && rest[1] == 1;
  }

  /** A witness: one byte that counts the items, then each item behind its length, numbers as one byte. */
  lemma WitnessLayout(i: In)
    requires WitnessBytes(i).Some?
    ensures i.items.Some? && Concat(i.items.value, ItemBytes).Some?
    ensures |i.items.value| < 256 && WitnessBytes(i).value == [|i.items.value|] + Concat(i.items.value, ItemBytes).value
  {
    var n := |i.items.value|;
    LittleRanges(n);
    OneLittle(n);
  }

  lemma OneLittle(n: Byte)
    ensures ToLittle(n, 1) == Some([n])
  {
    PowersOf256();
    assert n % 256 == n && LittleDigits(n / 256, 0) == [];
    assert LittleDigits(n, 1) == [n % 256] + LittleDigits(n / 256, 0) == [n];
  }

  lemma ItemLayout(w: Item)
    requires ItemBytes(w).Some?
    ensures w.Number? ==> 0 <= w.n < 256 && ItemBytes(w).value == [w.n]
    ensures w.Element? ==> EncodeVarint(|w.data|).Some? && ItemBytes(w).value == EncodeVarint(|w.data|).value + w.data
  {
    if w.Number? {
      LittleRanges(w.n);
      OneLittle(w.n);
    }
  }

  /** The k-th of some values of one width. */
  lemma {:induction false} ConcatLayout<T>(xs: seq<T>, bytesOf: T -> Option<Bytes>, width: nat, k: nat)
    requires Concat(xs, bytesOf).Some? && k < |xs| && forall x :: bytesOf(x).Some? && x in xs ==> |bytesOf(x).value| == width
    ensures bytesOf(xs[k]).Some? && 0 <= width * k && width * k + width <= |Concat(xs, bytesOf).value|
    ensures At(Concat(xs, bytesOf).value, width * k, width) == bytesOf(xs[k]).value
    decreases k
  {
    var all, first, others := Concat(xs, bytesOf).value, bytesOf(xs[0]).value, Concat(xs[1..], bytesOf).value;
    assert all == first + others && xs[0] in xs;
    if k == 0 {
      assert width * 0 == 0;
      assert At(all, 0, width) == first;
    } else {
      ConcatLayout(xs[1..], bytesOf, width, k - 1);
      assert width * k == width + width * (k - 1);
      assert At(all, width * k, width) == At(others, width * (k - 1), width);
    }
  }

  lemma OutpointLayout(i: In)
    requires OutpointBytes(i).Some? && |i.prevTx| == 32
    ensures var b := OutpointBytes(i).value;
      |b| == 36 && At(b, 0, 32) == Reverse(i.prevTx) && Stands(b, 32, 4, i.prevIndex)
  {
    var b, index := OutpointBytes(i).value, ToLittle(i.prevIndex, 4).value;
    assert b == Reverse(i.prevTx) + index + [];
    LittlePart(Reverse(i.prevTx), i.prevIndex, 4, [], b);
  }

  // ----- the hashed strings -----

  /** The number that is signed is the hash, read with the most significant byte first. */
  lemma DigestLayout(h: Hash, s: Bytes)
    ensures Digest(h, Some(s)).Some? && ToBig(Digest(h, Some(s)).value, |h(s)|) == Some(h(s))
  {
    ToBigOfFromBig(h(s));
  }

  lemma TypeLayout(b: Bytes, x: Bytes)
    requires ToLittle(SIGHASH_ALL, 4).Some? && b == x + ToLittle(SIGHASH_ALL, 4).value
    ensures b == x + [1, 0, 0, 0]
  {
    var one: nat := 1;
    assert LittleDigits(one, 4) == [1] + LittleDigits(0, 3) && LittleDigits(0, 3) == [0] + LittleDigits(0, 2);
    assert LittleDigits(0, 2) == [0] + LittleDigits(0, 1) && LittleDigits(0, 1) == [0] + LittleDigits(0, 0);
    assert ToLittle(SIGHASH_ALL, 4).value == LittleDigits(one, 4);
  }

  /** What BIP 143 asks to be hashed, in its order: the version, the hash of all outpoints, the hash of all sequences, the
      outpoint, the script code, the amount and the sequence of the signed input, the hash of all outputs, the lock time
      and the hash type. */
  lemma SegwitPreimageLayout(h: Hash, tx: TxData, index: nat, redeem: Option<seq<Cmd>>, script: Option<seq<Cmd>>, b: Bytes,
                             p: Bytes, q: Bytes, o: Bytes, code: Bytes)
    requires (forall x :: |h(x)| == 32) && index < |tx.ins| && |tx.ins[index].prevTx| == 32
    requires SegwitPreimage(tx, index, redeem, script, InputHashes(h, tx.ins), OutputsHash(h, tx.outs)) == Some(b)
    requires Concat(tx.ins, OutpointBytes) == Some(p) && Concat(tx.ins, SequenceBytes) == Some(q)
    requires Concat(tx.outs, OutBytes) == Some(o) && ScriptCode(tx.ins[index], redeem, script) == Some(code)
    ensures var (i, n) := (tx.ins[index], |code|);
      && |b| == 156 + n
      && Stands(b, 0, 4, tx.version) && At(b, 4, 32) == h(p) && At(b, 36, 32) == h(q)
      && At(b, 68, 32) == Reverse(i.prevTx) && Stands(b, 100, 4, i.prevIndex)
      && At(b, 104, n) == code && Stands(b, 104 + n, 8, i.amount) && Stands(b, 112 + n, 4, i.sequence)
      && At(b, 116 + n, 32) == h(o) && Stands(b, 148 + n, 4, tx.locktime)
      && At(b, 152 + n, 4) == [1, 0, 0, 0]
  {
    var i := tx.ins[index];
    var version, outpoint, amount := ToLittle(tx.version, 4).value, OutpointBytes(i).value, ToLittle(i.amount, 8).value;
    var last, locktime, kind := SequenceBytes(i).value, ToLittle(tx.locktime, 4).value, ToLittle(SIGHASH_ALL, 4).value;
    OutpointLayout(i);
    TypeLayout([] + kind, []);
    Placed(b, version, h(p), h(q), outpoint, code, amount, last, h(o), locktime, kind);
    LittleStands(tx.version, 4, b, 0);
    LittleStands(i.amount, 8, b, 104 + |code|);
    LittleStands(i.sequence, 4, b, 112 + |code|);
    LittleStands(tx.locktime, 4, b, 148 + |code|);
    Within(b, 68, outpoint, 32);
  }

  lemma Placed(b: Bytes, version: Bytes, p: Bytes, q: Bytes, outpoint: Bytes, code: Bytes, amount: Bytes, last: Bytes,
               o: Bytes, locktime: Bytes, kind: Bytes)
    requires |version| == 4 && |p| == 32 && |q| == 32 && |outpoint| == 36 && |amount| == 8 && |last| == 4 && |o| == 32
    requires |locktime| == 4 && |kind| == 4
    requires b == version + (p + q) + (outpoint + code + amount + last) + o + locktime + kind
    ensures var n := |code|;
      && |b| == 156 + n
      && At(b, 0, 4) == version && At(b, 4, 32) == p && At(b, 36, 32) == q && At(b, 68, 36) == outpoint
      && At(b, 104, n) == code && At(b, 104 + n, 8) == amount && At(b, 112 + n, 4) == last
      && At(b, 116 + n, 32) == o && At(b, 148 + n, 4) == locktime && At(b, 152 + n, 4) == kind
  {
  }

  /** An outpoint inside a longer string. */
  lemma Within(b: Bytes, at: nat, part: Bytes, k: nat)
    requires at + |part| <= |b| && At(b, at, |part|) == part && k + 4 <= |part|
    ensures At(b, at, k) == At(part, 0, k) && At(b, at + k, 4) == At(part, k, 4)
  {
    var inner := b[at..at + |part|];
    forall j | 0 <= j < 4 ensures At(b, at + k, 4)[j] == At(part, k, 4)[j] { assert inner[k + j] == b[at + k + j]; }
  }

  // ----- scripts -----

  /** An opcode is its byte; an element has its length in front, behind 76 from 76 bytes on and behind 77, in two bytes,
      from 256 on. */
  lemma CommandLayout(cmd: Cmd)
    requires CmdBytes(cmd).Some?
    ensures var b := CmdBytes(cmd).value;
      match cmd
      case Op(code) => b == [code]
      case Push(data) =>
        if |data| < 75 then b == [|data|] + data
        else if |data| < 256 then b == [76, |data|] + data
        else |b| == |data| + 3 && b[0] == 77 && Stands(b, 1, 2, |data|) && b[3..] == data
  {
    match cmd
    case Op(code) => OneLittle(code);
    case Push(data) =>
      if |data| < 256 {
        OneLittle(|data|);
      } else {
        PowersOf256();
        LittlePart([77], |data|, 2, data, CmdBytes(cmd).value);
      }
  }

  lemma RawOfMore(cmd: Cmd, rest: seq<Cmd>, first: Bytes, raw: Bytes)
    requires CmdBytes(cmd) == Some(first) && RawSerialize(rest) == Some(raw)
    ensures RawSerialize([cmd] + rest) == Some(first + raw)
  {
    var all := [cmd] + rest;
    assert all[0] == cmd && all[1..] == rest;
  }

  lemma ShortLength(cmds: seq<Cmd>, raw: Bytes)
    requires RawSerialize(cmds) == Some(raw) && |raw| < 0xfd
    ensures Serialize(cmds) == Some([|raw|] + raw)
  {
    assert EncodeVarint(|raw|) == Some([|raw|]);
  }

  /** The scripts of key hashes: OP_DUP OP_HASH160 hash OP_EQUALVERIFY OP_CHECKSIG, and OP_0 hash. */
  lemma KeyScriptLayout(h: Bytes)
    requires |h| == 20
    ensures Serialize(P2pkh(Push(h))) == Some([0x19, 0x76, 0xa9, 0x14] + h + [0x88, 0xac])
    ensures Serialize(P2wpkh(h)) == Some([0x16, 0x00, 0x14] + h)
  {
    var e: Bytes := [20] + h;
    CommandLayout(Push(h));
    assert RawSerialize([]) == Some([]);
    var c5, r5 := [Op(0xac)] + [], [0xac] + [];
    RawOfMore(Op(0xac), [], [0xac], []);
    var c4, r4 := [Op(0x88)] + c5, [0x88] + r5;
    RawOfMore(Op(0x88), c5, [0x88], r5);
    var c3, r3 := [Push(h)] + c4, e + r4;
    RawOfMore(Push(h), c4, e, r4);
    var c2, r2 := [Op(0xa9)] + c3, [0xa9] + r3;
    RawOfMore(Op(0xa9), c3, [0xa9], r3);
    var c1, r1 := [Op(0x76)] + c2, [0x76] + r2;
    RawOfMore(Op(0x76), c2, [0x76], r2);
    assert P2pkh(Push(h)) == c1;
    ShortLength(c1, r1);
    assert [|r1|] + r1 == [0x19, 0x76, 0xa9, 0x14] + h + [0x88, 0xac];
    ProgramLayout(h, e);
  }

  lemma ProgramLayout(h: Bytes, e: Bytes)
    requires |h| == 20 && e == [20] + h && CmdBytes(Push(h)) == Some(e)
    ensures Serialize(P2wpkh(h)) == Some([0x16, 0x00, 0x14] + h)
  {
    assert RawSerialize([]) == Some([]);
    var c2, r2 := [Push(h)] + [], e + [];
    RawOfMore(Push(h), [], e, []);
    var c1, r1 := [Op(0)] + c2, [0] + r2;
    RawOfMore(Op(0), c2, [0], r2);
    assert P2wpkh(h) == c1;
    ShortLength(c1, r1);
    assert [|r1|] + r1 == [0x16, 0x00, 0x14] + h;
  }

  // ----- what the parsers read -----

  lemma LittleRead(n: nat, len: nat, rest: Bytes, b: Bytes)
    requires ToLittle(n, len).Some? && b == ToLittle(n, len).value + rest
    ensures FromLittle(Take(b, len)) == n && Drop(b, len) == rest
  {
    LittleRoundTrip(n, len, rest);
  }

  /** Every integer behind its prefix is read, whether or not a shorter prefix would do. */
  lemma VarintReads(n: nat, rest: Bytes)
    ensures n < 0xfd ==> DecodeVarint([n] + rest) == Some((n, rest))
    ensures ToLittle(n, 2).Some? ==> DecodeVarint([0xfd] + ToLittle(n, 2).value + rest) == Some((n, rest))
    ensures ToLittle(n, 4).Some? ==> DecodeVarint([0xfe] + ToLittle(n, 4).value + rest) == Some((n, rest))
    ensures ToLittle(n, 8).Some? ==> DecodeVarint([0xff] + ToLittle(n, 8).value + rest) == Some((n, rest))
  {
    if n < 0xfd { assert ([n] + rest)[1..] == rest; }
    if ToLittle(n, 2).Some? { PrefixedRead(0xfd, n, 2, rest); }
    if ToLittle(n, 4).Some? { PrefixedRead(0xfe, n, 4, rest); }
    if ToLittle(n, 8).Some? { PrefixedRead(0xff, n, 8, rest); }
  }

  lemma PrefixedRead(prefix: Byte, n: nat, len: nat, rest: Bytes)
    requires ToLittle(n, len).Some? && prefix >= 0xfd
    requires len == if prefix == 0xfd then 2 else if prefix == 0xfe then 4 else 8
    ensures DecodeVarint([prefix] + ToLittle(n, len).value + rest) == Some((n, rest))
  {
    var b := [prefix] + ToLittle(n, len).value + rest;
    assert b[1..] == ToLittle(n, len).value + rest;
    LittleRead(n, len, rest, b[1..]);
  }

  /** What one pass of the script parser makes of its bytes; at the end of the stream elements are short and the missing
      byte is 0. */
  lemma CommandReads(data: Bytes, rest: Bytes, code: Byte)
    ensures 1 <= |data| <= 75 ==> NextCmd([|data|] + data + rest) == (Push(data), rest, 1 + |data|)
    ensures code <= 75 && |data| < code ==> NextCmd([code] + data) == (Push(data), [], 1 + code)
    ensures code == 0 || code >= 78 ==> NextCmd([code] + rest) == (Op(code), rest, 1)
    ensures NextCmd([]) == (Op(0), [], 1)
  {
    if 1 <= |data| <= 75 {
      var b := [|data|] + data + rest;
      assert Drop(b, 1) == data + rest;
      TakeDrop(data, rest);
    }
    if |data| < code { assert Drop([code] + data, 1) == data; }
    assert Drop([code] + rest, 1) == rest;
  }

  lemma LongCommandReads(data: Bytes, rest: Bytes)
    ensures |data| < 256 ==> NextCmd([76, |data|] + data + rest) == (Push(data), rest, 2 + |data|)
    ensures ToLittle(|data|, 2).Some? ==>
      NextCmd([77] + ToLittle(|data|, 2).value + data + rest) == (Push(data), rest, 3 + |data|)
  {
    TakeDrop(data, rest);
    if |data| < 256 {
      OneLittle(|data|);
      var b := [76, |data|] + data + rest;
      assert Drop(b, 1) == ToLittle(|data|, 1).value + (data + rest);
      LittleRead(|data|, 1, data + rest, Drop(b, 1));
    }
    if ToLittle(|data|, 2).Some? {
      var b := [77] + ToLittle(|data|, 2).value + data + rest;
      assert Drop(b, 1) == ToLittle(|data|, 2).value + (data + rest);
      LittleRead(|data|, 2, data + rest, Drop(b, 1));
    }
  }

  // ----- the scripts that are hashed -----

  /** The transaction without its script signatures, except that the signed input shows the script to be unlocked. */
  function Blanked(tx: TxData, index: nat, code: seq<Cmd>): (r: TxData)
    ensures |r.ins| == |tx.ins| && r == tx.(ins := r.ins)
    ensures forall k :: 0 <= k < |tx.ins| ==>
      r.ins[k] == In(tx.ins[k].prevTx, tx.ins[k].prevIndex, if k == index then code else [], NoScript, 0, tx.ins[k].sequence, None)
  {
    tx.(ins := seq(|tx.ins|, k requires 0 <= k < |tx.ins| =>
      In(tx.ins[k].prevTx, tx.ins[k].prevIndex, if k == index then code else [], NoScript, 0, tx.ins[k].sequence, None)))
  }

  /** What sig_hash hashes: that transaction and the hash type; the script shown is the redeem script, or else the previous
      one. */
  lemma LegacyPreimageLayout(tx: TxData, index: nat, redeem: Option<seq<Cmd>>, code: seq<Cmd>)
    requires index < |tx.ins|
    requires redeem == Some(code) || (redeem == None && tx.ins[index].scriptPubkey == ScriptOf(code))
    ensures LegacyPreimage(tx, index, redeem)
         == match LegacyBytes(Blanked(tx, index, code)) case None => None case Some(b) => Some(b + [1, 0, 0, 0])
  {
    var shown := Blanked(tx, index, code).ins;
    forall k | 0 <= k < |shown| ensures C.ShowsInputAs(tx.ins[k], shown[k], k == index, redeem) { }
    C.LegacyPreimageIsTransaction(tx, shown, index, redeem);
    KindLayout();
  }

  lemma KindLayout()
    ensures ToLittle(SIGHASH_ALL, 4) == Some([1, 0, 0, 0])
  {
    LittleRanges(SIGHASH_ALL);
    var kind := ToLittle(SIGHASH_ALL, 4).value;
    assert [] + kind == kind && [] + [1, 0, 0, 0] == [1, 0, 0, 0];
    TypeLayout(kind, []);
  }

  /** The script code of BIP 143: the key hash script for a witness key hash, whether it is the previous script or the
      redeem script, and the witness script itself otherwise. */
  lemma ScriptCodeLayout(i: In, h: Bytes, redeem: Option<seq<Cmd>>, script: seq<Cmd>)
    requires |h| == 20
    ensures i.scriptPubkey == ScriptOf(P2wpkh(h)) ==>
      ScriptCode(i, None, None) == Some([0x19, 0x76, 0xa9, 0x14] + h + [0x88, 0xac])
    ensures ScriptCode(i, Some(P2wpkh(h)), None) == Some([0x19, 0x76, 0xa9, 0x14] + h + [0x88, 0xac])
    ensures ScriptCode(i, redeem, Some(script)) == Serialize(script)
  {
    KeyScriptLayout(h);
    assert P2wpkh(h)[1] == Push(h);
  }
}
