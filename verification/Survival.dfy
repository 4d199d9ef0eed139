/** Exactly which transactions come back from the byte formats of Bitcoin/tx.py. */
module Survival {
  import opened Prelude
  import opened Positional
  import opened Stream
  import opened Script
  import opened TxCodec

  predicate FinalSequences(ins: seq<In>) { forall k :: 0 <= k < |ins| ==> ins[k].sequence == MAX_SEQUENCE }

  /** Two transactions agree in everything that is serialized. */
  predicate SameFields(x: TxData, y: TxData) {
    x.version == y.version && x.outs == y.outs && x.locktime == y.locktime && |x.ins| == |y.ins|
    && forall k :: 0 <= k < |x.ins| ==> SameInput(x.ins[k], y.ins[k]) && x.ins[k].sequence == y.ins[k].sequence
  }

  predicate SameInput(x: In, y: In) {
    x.prevTx == y.prevTx && x.prevIndex == y.prevIndex && x.scriptSig == y.scriptSig
  }

  predicate SameWitnesses(x: TxData, y: TxData) {
    |x.ins| == |y.ins| && forall k :: 0 <= k < |x.ins| ==> x.ins[k].items == y.ins[k].items
  }

  /** The transaction is serialized, parsed back with all its fields, and what follows it is left unread. */
  predicate LegacySurvives(tx: TxData, rest: Bytes) {
    LegacyBytes(tx).Some? &&
    match ReadLegacy(LegacyBytes(tx).value + rest)
    case None => false
    case Some((parsed, left)) => SameFields(parsed, tx) && left == rest
  }

  predicate SegwitSurvives(tx: TxData, rest: Bytes) {
    SegwitBytes(tx).Some? &&
    match ReadSegwit(SegwitBytes(tx).value + rest)
    case None => false
    case Some((parsed, left)) => SameFields(parsed, tx) && SameWitnesses(parsed, tx) && left == rest
  }

  // ----- one value at a time -----

  /** Whatever follows, the printed value reads back as something else, or not at all. */
  ghost predicate ReadsOther<T, U(!new)>(x: T, bytesOf: T -> Option<Bytes>, read: Bytes -> Parsed<U>, same: (U, T) -> bool) {
    bytesOf(x).Some? ==> forall rest: Bytes ::
      read(bytesOf(x).value + rest).None? || !same(read(bytesOf(x).value + rest).value.0, x)
  }

  /** If a printed list reads back as the same values, each of them is one that reads back. */
  lemma {:induction false} ManyExact<T, U(!new)>(xs: seq<T>, bytesOf: T -> Option<Bytes>, read: Bytes -> Parsed<U>,
                                                 g: T -> U, same: (U, T) -> bool, good: T -> bool, rest: Bytes)
    requires Concat(xs, bytesOf).Some?
    requires forall i :: 0 <= i < |xs| ==> good(xs[i]) ==> ReadsBack(xs[i], bytesOf, read, g)
    requires forall i :: 0 <= i < |xs| ==> !good(xs[i]) ==> ReadsOther(xs[i], bytesOf, read, same)
    requires ReadMany(read, Concat(xs, bytesOf).value + rest, |xs|).Some?
    requires var ys := ReadMany(read, Concat(xs, bytesOf).value + rest, |xs|).value.0;
      forall i :: 0 <= i < |xs| ==> same(ys[i], xs[i])
    ensures forall i :: 0 <= i < |xs| ==> good(xs[i])
  {
    if xs != [] {
      var head, tail := bytesOf(xs[0]).value, Concat(xs[1..], bytesOf).value;
      var b := Concat(xs, bytesOf).value + rest;
      assert b == head + (tail + rest);
      var ys := ReadMany(read, b, |xs|).value.0;
      var first := read(b).value.0;
      assert ys[0] == first;
      assert good(xs[0]) by { assert !good(xs[0]) ==> ReadsOther(xs[0], bytesOf, read, same); }
      assert ReadsBack(xs[0], bytesOf, read, g);
      var zs := ReadMany(read, tail + rest, |xs| - 1).value.0;
      assert ys == [first] + zs;
      forall i | 0 <= i < |xs[1..]| ensures same(zs[i], xs[1..][i]) { assert zs[i] == ys[i + 1] && xs[1..][i] == xs[i + 1]; }
      ManyExact(xs[1..], bytesOf, read, g, same, good, rest);
      forall i | 0 <= i < |xs| ensures good(xs[i]) { if i > 0 { assert xs[i] == xs[1..][i - 1]; } }
    }
  }

  lemma InReadsOther(i: In)
    requires !ReadableIn(i)
    ensures ReadsOther(i, InBytes, ReadIn, SameInput)
  {
    if InBytes(i).Some? {
      forall rest: Bytes
        ensures ReadIn(InBytes(i).value + rest).None? || !SameInput(ReadIn(InBytes(i).value + rest).value.0, i)
      {
        InReadWrong(i, rest);
      }
    }
  }

  lemma InReadWrong(i: In, rest: Bytes)
    requires !ReadableIn(i) && InBytes(i).Some?
    ensures ReadIn(InBytes(i).value + rest).None? || !SameInput(ReadIn(InBytes(i).value + rest).value.0, i)
  {
    var prev, index, sig, seqn := Reverse(i.prevTx), ToLittle(i.prevIndex, 4).value, Serialize(i.scriptSig).value,
      ToLittle(i.sequence, 4).value;
    var b := InBytes(i).value + rest;
    assert b == prev + (index + (sig + (seqn + rest)));
    if |i.prevTx| == 32 {
      TakeDrop(prev, index + (sig + (seqn + rest)));
      ReadBackInt(i.prevIndex, 4, sig + (seqn + rest));
      PrintedParse(i.scriptSig, seqn + rest);
    } else {
      assert |Reverse(Take(b, 32))| != |i.prevTx|;
    }
  }

  predicate ReadableOut(o: Out) { AllReprintable(o.scriptPubkey) }

  predicate SameOut(x: Out, y: Out) { x == y }

  lemma OutReadsOther(o: Out)
    requires !ReadableOut(o)
    ensures ReadsOther(o, OutBytes, ReadOut, SameOut)
  {
    if OutBytes(o).Some? {
      forall rest: Bytes
        ensures ReadOut(OutBytes(o).value + rest).None? || !SameOut(ReadOut(OutBytes(o).value + rest).value.0, o)
      {
        var amount, script := ToLittle(o.amount, 8).value, Serialize(o.scriptPubkey).value;
        assert OutBytes(o).value + rest == amount + (script + rest);
        ReadBackInt(o.amount, 8, script + rest);
        PrintedParse(o.scriptPubkey, rest);
      }
    }
  }

  predicate SameItem(x: Item, y: Item) { x == y }

  lemma ItemReadsOther(w: Item)
    requires !ReadableItem(w)
    ensures ReadsOther(w, ItemBytes, ReadItem, SameItem)
  {
    if ItemBytes(w).Some? {
      forall rest: Bytes
        ensures ReadItem(ItemBytes(w).value + rest).None? || !SameItem(ReadItem(ItemBytes(w).value + rest).value.0, w)
      {
        ReadBackItem(w, rest);
      }
    }
  }

  // ----- inputs and outputs -----

  lemma InsExact(ins: seq<In>, rest: Bytes)
    requires Concat(ins, InBytes).Some? && ReadMany(ReadIn, Concat(ins, InBytes).value + rest, |ins|).Some?
    requires var got := ReadMany(ReadIn, Concat(ins, InBytes).value + rest, |ins|).value.0;
      forall k :: 0 <= k < |ins| ==> SameInput(got[k], ins[k])
    ensures forall k :: 0 <= k < |ins| ==> ReadableIn(ins[k])
  {
    forall k | 0 <= k < |ins| ensures ReadableIn(ins[k]) ==> ReadsBack(ins[k], InBytes, ReadIn, Misread) {
      if ReadableIn(ins[k]) { InReadsBack(ins[k]); }
    }
    forall k | 0 <= k < |ins| ensures !ReadableIn(ins[k]) ==> ReadsOther(ins[k], InBytes, ReadIn, SameInput) {
      if !ReadableIn(ins[k]) { InReadsOther(ins[k]); }
    }
    ManyExact(ins, InBytes, ReadIn, Misread, SameInput, ReadableIn, rest);
  }

  lemma OutsExact(outs: seq<Out>, rest: Bytes)
    requires Concat(outs, OutBytes).Some? && ReadMany(ReadOut, Concat(outs, OutBytes).value + rest, |outs|).Some?
    requires ReadMany(ReadOut, Concat(outs, OutBytes).value + rest, |outs|).value.0 == outs
    ensures forall k :: 0 <= k < |outs| ==> ReadableOut(outs[k])
  {
    forall k | 0 <= k < |outs| ensures ReadableOut(outs[k]) ==> ReadsBack(outs[k], OutBytes, ReadOut, Same) {
      if ReadableOut(outs[k]) { OutReadsBack(outs[k]); }
    }
    forall k | 0 <= k < |outs| ensures !ReadableOut(outs[k]) ==> ReadsOther(outs[k], OutBytes, ReadOut, SameOut) {
      if !ReadableOut(outs[k]) { OutReadsOther(outs[k]); }
    }
    ManyExact(outs, OutBytes, ReadOut, Same, SameOut, ReadableOut, rest);
  }

  /** If inputs and outputs come back, they were readable. */
  lemma BodyExact(tx: TxData, rest: Bytes)
    requires BodyBytes(tx).Some? && ReadBody(BodyBytes(tx).value + rest).Some?
    requires var ((ins, outs), left) := ReadBody(BodyBytes(tx).value + rest).value;
      |ins| == |tx.ins| && outs == tx.outs && forall k :: 0 <= k < |ins| ==> SameInput(ins[k], tx.ins[k])
    ensures Readable(tx)
  {
    var n, ins := EncodeVarint(|tx.ins|).value, Concat(tx.ins, InBytes).value;
    var m, outs := EncodeVarint(|tx.outs|).value, Concat(tx.outs, OutBytes).value;
    BodyShape(tx, n, ins, m, outs, rest);
    CountThenMany(ReadIn, |tx.ins|, n, ins + (m + (outs + rest)));
    InsExact(tx.ins, m + (outs + rest));
    ReadBackIns(tx.ins, n, ins, m + (outs + rest));
    CountThenMany(ReadOut, |tx.outs|, m, outs + rest);
    OutsExact(tx.outs, rest);
    forall k | 0 <= k < |tx.outs| ensures AllReprintable(tx.outs[k].scriptPubkey) { assert ReadableOut(tx.outs[k]); }
  }

  lemma FieldsSurvive(tx: TxData, ins: seq<In>)
    requires |ins| == |tx.ins|
    requires forall k :: 0 <= k < |ins| ==> ins[k].(items := None) == Misread(tx.ins[k])
    ensures SameFields(tx.(ins := ins), tx) <==> FinalSequences(tx.ins)
  {
    forall k | 0 <= k < |ins| ensures SameInput(ins[k], tx.ins[k]) && ins[k].sequence == MAX_SEQUENCE {
      assert ins[k].(items := None) == Misread(tx.ins[k]);
    }
    if SameFields(tx.(ins := ins), tx) {
      forall k | 0 <= k < |tx.ins| ensures tx.ins[k].sequence == MAX_SEQUENCE { assert ins[k].sequence == MAX_SEQUENCE; }
    }
  }

  // ----- the legacy format -----

  /** Reading after the version. */
  lemma LegacyAfterVersion(version: int, v: Bytes, b: Bytes)
    requires ToLittle(version, 4) == Some(v)
    ensures ReadLegacy(v + b) == match ReadBody(b)
      case None => None
      case Some(((ins, outs), b2)) => Some((TxData(version, ins, outs, ReadInt(b2, 4).0), ReadInt(b2, 4).1))
  {
    ReadBackInt(version, 4, b);
  }

  lemma LegacyShape(tx: TxData, rest: Bytes, version: Bytes, body: Bytes, locktime: Bytes)
    requires ToLittle(tx.version, 4) == Some(version) && BodyBytes(tx) == Some(body) && ToLittle(tx.locktime, 4) == Some(locktime)
    ensures LegacyBytes(tx).Some? && LegacyBytes(tx).value + rest == version + (body + (locktime + rest))
  {
    assert LegacyBytes(tx) == Some(version + body + locktime);
    assert version + body + locktime + rest == version + (body + (locktime + rest));
  }

  lemma LegacyReadable(tx: TxData, rest: Bytes)
    requires LegacySurvives(tx, rest)
    ensures Readable(tx)
  {
    var version, body, locktime := ToLittle(tx.version, 4).value, BodyBytes(tx).value, ToLittle(tx.locktime, 4).value;
    LegacyShape(tx, rest, version, body, locktime);
    LegacyAfterVersion(tx.version, version, body + (locktime + rest));
    BodyCameBack(tx, body, locktime + rest, ReadLegacy(LegacyBytes(tx).value + rest).value.0);
  }

  lemma BodyCameBack(tx: TxData, body: Bytes, rest: Bytes, parsed: TxData)
    requires BodyBytes(tx) == Some(body) && ReadBody(body + rest).Some?
    requires ReadBody(body + rest).value.0 == (parsed.ins, parsed.outs) && SameFields(parsed, tx)
    ensures Readable(tx)
  {
    forall k | 0 <= k < |tx.ins| ensures SameInput(parsed.ins[k], tx.ins[k]) {}
    BodyExact(tx, rest);
  }

  /** A transaction survives the legacy format, whatever follows it, exactly if its fields are in range, its outpoints
      have 32 bytes, its scripts are reprintable and every sequence is 0xffffffff. */
  lemma LegacyExactly(tx: TxData, rest: Bytes)
    ensures LegacySurvives(tx, rest) <==> InRange(tx) && Readable(tx) && FinalSequences(tx.ins)
  {
    LegacyBytesExactly(tx);
    if LegacySurvives(tx, rest) { LegacyReadable(tx, rest); }
    if InRange(tx) && Readable(tx) {
      LegacyRoundTrip(tx, rest);
      FieldsSurvive(tx, Map(tx.ins, Misread));
    }
  }

  // ----- how many bytes witnesses take up -----

  function VarintSize(n: nat): nat { if n < 0xfd then 1 else if n < 0x10000 then 3 else if n < 0x1_0000_0000 then 5 else 9 }

  function ItemSize(w: Item): nat {
    match w
    case Number(_) => 1
    case Element(data) => VarintSize(|data|) + |data|
  }

  function ItemsSize(ws: seq<Item>): nat { if ws == [] then 0 else ItemSize(ws[0]) + ItemsSize(ws[1..]) }

  /** The count is one byte. */
  function WitnessesSize(ins: seq<In>): nat {
    if ins == [] then 0
    else (if ins[0].items.Some? then 1 + ItemsSize(ins[0].items.value) else 0) + WitnessesSize(ins[1..])
  }

  lemma ItemBytesSize(w: Item)
    requires ItemBytes(w).Some?
    ensures |ItemBytes(w).value| == ItemSize(w)
  {
  }

  lemma {:induction false} ItemsBytesSize(ws: seq<Item>)
    requires Concat(ws, ItemBytes).Some?
    ensures |Concat(ws, ItemBytes).value| == ItemsSize(ws)
  {
    if ws != [] {
      ItemBytesSize(ws[0]);
      ItemsBytesSize(ws[1..]);
    }
  }

  lemma {:induction false} WitnessesBytesSize(ins: seq<In>)
    requires Concat(ins, WitnessBytes).Some?
    ensures |Concat(ins, WitnessBytes).value| == WitnessesSize(ins)
  {
    if ins != [] {
      ItemsBytesSize(ins[0].items.value);
      WitnessesBytesSize(ins[1..]);
    }
  }

  /** Reading an integer takes at least the bytes that writing it, or any smaller one, would. */
  lemma VarintConsumes(b: Bytes, m: nat)
    requires DecodeVarint(b).Some? && m <= DecodeVarint(b).value.0 && (m > 0 ==> DecodeVarint(b).value.1 != [])
    ensures |b| - |DecodeVarint(b).value.1| >= VarintSize(m)
  {
    if b[0] >= 0xfd {
      var n := if b[0] == 0xfd then 2 else if b[0] == 0xfe then 4 else 8;
      FromLittleBound(Take(b[1..], n));
      PowMono(256, |Take(b[1..], n)|, n);
      PowersOf256();
    }
  }

  lemma ItemConsumes(b: Bytes)
    requires ReadItem(b).Some?
    ensures |b| - |ReadItem(b).value.1| >= ItemSize(ReadItem(b).value.0)
  {
    var (n, b1) := DecodeVarint(b).value;
    VarintConsumes(b, |Take(b1, n)|);
  }

  lemma {:induction false} ItemsConsume(b: Bytes, n: nat)
    requires ReadMany(ReadItem, b, n).Some?
    ensures |b| - |ReadMany(ReadItem, b, n).value.1| >= ItemsSize(ReadMany(ReadItem, b, n).value.0)
    decreases n
  {
    if n > 0 {
      var (first, b1) := ReadItem(b).value;
      ItemConsumes(b);
      ItemsConsume(b1, n - 1);
      var others := ReadMany(ReadItem, b1, n - 1).value.0;
      assert ([first] + others)[1..] == others;
    }
  }

  lemma {:induction false} WitnessesConsume(ins: seq<In>, b: Bytes)
    requires ReadWitnesses(ins, b).Some?
    ensures |b| - |ReadWitnesses(ins, b).value.1| >= WitnessesSize(ReadWitnesses(ins, b).value.0)
    ensures forall k :: 0 <= k < |ins| ==> ReadWitnesses(ins, b).value.0[k].items.Some?
  {
    if ins != [] {
      var (items, b1) := ReadCounted(ReadItem, b).value;
      var (n, b0) := DecodeVarint(b).value;
      VarintConsumes(b, 0);
      ItemsConsume(b0, n);
      WitnessesConsume(ins[1..], b1);
      var others := ReadWitnesses(ins[1..], b1).value.0;
      assert ([ins[0].(items := Some(items))] + others)[1..] == others;
    }
  }

  /** A count byte of 0xfd or more announces a longer integer, so reading it takes at least two bytes more. */
  lemma BigCountConsumes(c: Byte, b: Bytes)
    requires c >= 0xfd && ReadCounted(ReadItem, [c] + b).Some? && ReadCounted(ReadItem, [c] + b).value.0 != []
    ensures var (items, left) := ReadCounted(ReadItem, [c] + b).value; 1 + |b| - |left| >= 3 + ItemsSize(items)
  {
    var n := if c == 0xfd then 2 else if c == 0xfe then 4 else 8;
    assert ([c] + b)[1..] == b;
    var (count, b1) := DecodeVarint([c] + b).value;
    ItemsConsume(b1, count);
    assert ReadItem([]).None?;
    assert b1 == Drop(b, n) && b1 != [];
  }

  // ----- witnesses -----

  /** If the items of one witness come back, it was readable, or its count was too large and too much was read. */
  lemma WitnessExact(i: In, rest: Bytes)
    requires WitnessBytes(i).Some? && ReadCounted(ReadItem, WitnessBytes(i).value + rest).Some?
    requires ReadCounted(ReadItem, WitnessBytes(i).value + rest).value.0 == i.items.value
    ensures if ReadableWitness(i) then ReadCounted(ReadItem, WitnessBytes(i).value + rest).value.1 == rest
            else |ReadCounted(ReadItem, WitnessBytes(i).value + rest).value.1| + 2 <= |rest|
  {
    var ws := i.items.value;
    var all := Concat(ws, ItemBytes).value;
    OneLittleDigit(|ws|);
    assert WitnessBytes(i).value + rest == [|ws|] + (all + rest);
    if ReadableWitness(i) {
      ReadBackWitness(i, rest);
    } else if |ws| >= 0xfd {
      BigCountConsumes(|ws|, all + rest);
      ItemsBytesSize(ws);
    } else {
      assert DecodeVarint([|ws|] + (all + rest)) == Some((|ws|, all + rest));
      ItemsExact(ws, rest);
    }
  }

  lemma ItemsExact(ws: seq<Item>, rest: Bytes)
    requires Concat(ws, ItemBytes).Some? && ReadMany(ReadItem, Concat(ws, ItemBytes).value + rest, |ws|).Some?
    requires ReadMany(ReadItem, Concat(ws, ItemBytes).value + rest, |ws|).value.0 == ws
    ensures forall k :: 0 <= k < |ws| ==> ReadableItem(ws[k])
  {
    forall k | 0 <= k < |ws| ensures ReadableItem(ws[k]) ==> ReadsBack(ws[k], ItemBytes, ReadItem, Same) {
      if ReadableItem(ws[k]) { ItemReadsBack(ws[k]); }
    }
    forall k | 0 <= k < |ws| ensures !ReadableItem(ws[k]) ==> ReadsOther(ws[k], ItemBytes, ReadItem, SameItem) {
      if !ReadableItem(ws[k]) { ItemReadsOther(ws[k]); }
    }
    ManyExact(ws, ItemBytes, ReadItem, Same, SameItem, ReadableItem, rest);
  }

  /** If all witnesses come back, they were readable, or too much was read. */
  lemma {:induction false} WitnessesExact(ins: seq<In>, parsed: seq<In>, rest: Bytes)
    requires |parsed| == |ins| && Concat(ins, WitnessBytes).Some?
    requires ReadWitnesses(parsed, Concat(ins, WitnessBytes).value + rest).Some?
    requires var full := ReadWitnesses(parsed, Concat(ins, WitnessBytes).value + rest).value.0;
      forall k :: 0 <= k < |ins| ==> full[k].items == ins[k].items
    ensures (forall k :: 0 <= k < |ins| ==> ReadableWitness(ins[k]))
            || |ReadWitnesses(parsed, Concat(ins, WitnessBytes).value + rest).value.1| + 2 <= |rest|
  {
    if ins != [] {
      var first, tail := WitnessBytes(ins[0]).value, Concat(ins[1..], WitnessBytes).value;
      var b := Concat(ins, WitnessBytes).value + rest;
      assert b == first + (tail + rest);
      var (full, left) := ReadWitnesses(parsed, b).value;
      var (items, b1) := ReadCounted(ReadItem, b).value;
      var others := ReadWitnesses(parsed[1..], b1).value.0;
      assert full == [parsed[0].(items := Some(items))] + others;
      assert full[0].items == Some(items);
      WitnessExact(ins[0], tail + rest);
      forall k | 0 <= k < |others| ensures others[k].items == ins[1..][k].items {
        assert others[k] == full[k + 1] && ins[1..][k] == ins[k + 1];
      }
      if ReadableWitness(ins[0]) {
        WitnessesExact(ins[1..], parsed[1..], rest);
        forall k | 0 <= k < |ins| && forall j :: 0 <= j < |ins[1..]| ==> ReadableWitness(ins[1..][j])
          ensures ReadableWitness(ins[k])
        {
          if k > 0 { assert ins[k] == ins[1..][k - 1]; }
        }
      } else {
        WitnessesConsume(parsed[1..], b1);
        SameSize(others, ins[1..]);
        WitnessesBytesSize(ins[1..]);
      }
    }
  }

  lemma {:induction false} SameSize(x: seq<In>, y: seq<In>)
    requires |x| == |y| && forall k :: 0 <= k < |x| ==> x[k].items == y[k].items
    ensures WitnessesSize(x) == WitnessesSize(y)
  {
    if x != [] { SameSize(x[1..], y[1..]); }
  }

  // ----- the segwit format -----

  /** What the segwit format needs of a transaction. */
  predicate SegwitReady(tx: TxData) {
    InRange(tx) && WitnessesInRange(tx) && Readable(tx) && ReadableWitnesses(tx) && FinalSequences(tx.ins)
  }

  /** Reading after version and marker. */
  lemma SegwitAfterMarker(version: int, v: Bytes, b: Bytes)
    requires ToLittle(version, 4) == Some(v)
    ensures ReadSegwit(v + (MARKER + b)) == match ReadBody(b)
      case None => None
      case Some(((ins, outs), b2)) =>
        match ReadWitnesses(ins, b2)
        case None => None
        case Some((full, b3)) => Some((TxData(version, full, outs, ReadInt(b3, 4).0), ReadInt(b3, 4).1))
  {
    ReadBackInt(version, 4, MARKER + b);
    TakeDrop(MARKER, b);
  }

  lemma {:induction false} WitnessesKeepInputs(ins: seq<In>, b: Bytes)
    requires ReadWitnesses(ins, b).Some?
    ensures forall k :: 0 <= k < |ins| ==>
      var i := ReadWitnesses(ins, b).value.0[k]; SameInput(i, ins[k]) && i.sequence == ins[k].sequence
  {
    if ins != [] { WitnessesKeepInputs(ins[1..], ReadCounted(ReadItem, b).value.1); }
  }

  /** What surviving says about the parts: the body was readable, and the witnesses came back from what follows it. */
  lemma SegwitParts(tx: TxData, rest: Bytes) returns (full: seq<In>, left: Bytes)
    requires SegwitSurvives(tx, rest)
    ensures Readable(tx) && InRange(tx) && WitnessesInRange(tx) && Concat(tx.ins, WitnessBytes).Some?
    ensures ToLittle(tx.locktime, 4).Some?
    ensures var b := Concat(tx.ins, WitnessBytes).value + (ToLittle(tx.locktime, 4).value + rest);
      ReadWitnesses(Map(tx.ins, Misread), b) == Some((full, left))
    ensures |full| == |tx.ins| && forall k :: 0 <= k < |full| ==> full[k].items == tx.ins[k].items
    ensures ReadInt(left, 4) == (tx.locktime as nat, rest)
  {
    SegwitBytesExactly(tx);
    var version, body, locktime := ToLittle(tx.version, 4).value, BodyBytes(tx).value, ToLittle(tx.locktime, 4).value;
    var r2 := Concat(tx.ins, WitnessBytes).value + (locktime + rest);
    SegwitShape(tx, rest, version, body, Concat(tx.ins, WitnessBytes).value, locktime);
    SegwitAfterMarker(tx.version, version, body + r2);
    var ((ins, outs), b2) := ReadBody(body + r2).value;
    var parsed := ReadSegwit(SegwitBytes(tx).value + rest).value.0;
    WitnessesKeepInputs(ins, b2);
    BodyOfSegwit(tx, body, r2, ins, parsed);
    ReadBackBody(tx, r2);
    full, left := ReadWitnesses(ins, b2).value.0, ReadWitnesses(ins, b2).value.1;
  }

  lemma BodyOfSegwit(tx: TxData, body: Bytes, rest: Bytes, ins: seq<In>, parsed: TxData)
    requires BodyBytes(tx) == Some(body) && ReadBody(body + rest).Some?
    requires ReadBody(body + rest).value.0 == (ins, parsed.outs) && SameFields(parsed, tx) && |ins| == |parsed.ins|
    requires forall k :: 0 <= k < |ins| ==> SameInput(parsed.ins[k], ins[k]) && parsed.ins[k].sequence == ins[k].sequence
    ensures Readable(tx)
  {
    forall k | 0 <= k < |tx.ins| ensures SameInput(ins[k], tx.ins[k]) { assert SameInput(parsed.ins[k], ins[k]); }
    BodyExact(tx, rest);
  }

  /** A ready transaction survives whatever follows it. */
  lemma SegwitReadySurvives(tx: TxData, rest: Bytes)
    requires InRange(tx) && WitnessesInRange(tx) && Readable(tx) && ReadableWitnesses(tx)
    ensures SegwitSurvives(tx, rest) <==> FinalSequences(tx.ins)
  {
    SegwitRoundTrip(tx, rest);
    var parsed := tx.(ins := Map(tx.ins, MisreadSegwit));
    SurvivesAs(tx, parsed, rest);
    FieldsSurvive(tx, parsed.ins);
    WitnessesKept(tx, parsed);
  }

  lemma SurvivesAs(tx: TxData, parsed: TxData, rest: Bytes)
    requires SegwitBytes(tx).Some? && ReadSegwit(SegwitBytes(tx).value + rest) == Some((parsed, rest))
    ensures SegwitSurvives(tx, rest) <==> SameFields(parsed, tx) && SameWitnesses(parsed, tx)
  {
  }

  lemma WitnessesKept(tx: TxData, parsed: TxData)
    requires parsed.ins == Map(tx.ins, MisreadSegwit)
    ensures SameWitnesses(parsed, tx)
  {
  }

  lemma SurvivorReady(tx: TxData, rest: Bytes)
    requires SegwitSurvives(tx, rest) && rest != []
    ensures SegwitReady(tx)
  {
    var full, left := SegwitParts(tx, rest);
    WitnessesExact(tx.ins, Map(tx.ins, Misread), ToLittle(tx.locktime, 4).value + rest);
    assert ReadableWitnesses(tx);
    SegwitReadySurvives(tx, rest);
  }
}
