/** The byte formats of transactions (Bitcoin/tx.py: TxIn, TxOut, parse_legacy, parse_segwit, serialize_legacy,
    serialize_segwit), on values. The objects are in Tx. */
module TxCodec {
  import opened Prelude
  import opened Positional
  import opened Stream
  import opened Script

  /** A witness item is a byte string or a number. */
  datatype Item = Number(n: int) | Element(data: Bytes)

  /** What the attribute script_pubkey of an input holds: nothing, a script, or, after parsing, a number. */
  datatype Pubkey = NoScript | ScriptOf(cmds: seq<Cmd>) | Stray(number: nat)

  /** The attributes of an input; the witness is missing until it is set. */
  datatype In = In(prevTx: Bytes, prevIndex: int, scriptSig: seq<Cmd>, scriptPubkey: Pubkey, amount: int, sequence: int,
                   items: Option<seq<Item>>)

  datatype Out = Out(amount: int, scriptPubkey: seq<Cmd>)

  datatype TxData = TxData(version: int, ins: seq<In>, outs: seq<Out>, locktime: int)

  const MARKER: Bytes := [0, 1]
  const MAX_SEQUENCE := 0xffffffff

  /** Appending, where either part may have raised. */
  function Cat(x: Option<Bytes>, y: Option<Bytes>): (r: Option<Bytes>)
    ensures r.Some? <==> x.Some? && y.Some?
  {
    if x.Some? && y.Some? then Some(x.value + y.value) else None
  }

  // ----- serialization -----

  function InBytes(i: In): Option<Bytes> {
    Cat(Cat(Cat(Some(Reverse(i.prevTx)), ToLittle(i.prevIndex, 4)), Serialize(i.scriptSig)), ToLittle(i.sequence, 4))
  }

  function OutBytes(o: Out): Option<Bytes> {
    Cat(ToLittle(o.amount, 8), Serialize(o.scriptPubkey))
  }

  function ItemBytes(w: Item): Option<Bytes> {
    match w
    case Number(n) => ToLittle(n, 1)
    case Element(data) => Cat(EncodeVarint(|data|), Some(data))
  }

  /** Appending the bytes of each value. */
  function Concat<T>(xs: seq<T>, bytesOf: T -> Option<Bytes>): Option<Bytes> {
    if xs == [] then Some([]) else Cat(bytesOf(xs[0]), Concat(xs[1..], bytesOf))
  }

  /** The witness of one input; raises while it has none. */
  function WitnessBytes(i: In): Option<Bytes> {
    match i.items
    case None => None
    case Some(ws) => Cat(ToLittle(|ws|, 1), Concat(ws, ItemBytes))
  }

  /** The part both formats share: inputs and outputs with their counts. */
  function BodyBytes(tx: TxData): Option<Bytes> {
    Cat(Cat(EncodeVarint(|tx.ins|), Concat(tx.ins, InBytes)), Cat(EncodeVarint(|tx.outs|), Concat(tx.outs, OutBytes)))
  }

  /** serialize_legacy */
  function LegacyBytes(tx: TxData): Option<Bytes> {
    Cat(Cat(ToLittle(tx.version, 4), BodyBytes(tx)), ToLittle(tx.locktime, 4))
  }

  /** serialize_segwit */
  function SegwitBytes(tx: TxData): Option<Bytes> {
    Cat(Cat(Cat(Cat(ToLittle(tx.version, 4), Some(MARKER)), BodyBytes(tx)), Concat(tx.ins, WitnessBytes)),
        ToLittle(tx.locktime, 4))
  }

  /** What can be concatenated can be printed piece by piece. */
  lemma {:induction false} ConcatParts<T>(xs: seq<T>, bytesOf: T -> Option<Bytes>, k: nat)
    requires Concat(xs, bytesOf).Some? && k < |xs|
    ensures bytesOf(xs[k]).Some?
  {
    if k > 0 { ConcatParts(xs[1..], bytesOf, k - 1); }
  }

  // ----- what can be serialized -----

  const LIMIT32: nat := 0x1_0000_0000

  predicate ScriptInRange(cmds: seq<Cmd>) { AllPrintable(cmds) && PrintedLength(cmds) < LENGTH_LIMIT }

  predicate InInRange(i: In) {
    0 <= i.prevIndex < LIMIT32 && ScriptInRange(i.scriptSig) && 0 <= i.sequence < LIMIT32
  }

  predicate OutInRange(o: Out) { 0 <= o.amount < LENGTH_LIMIT && ScriptInRange(o.scriptPubkey) }

  predicate ItemInRange(w: Item) {
    match w
    case Number(n) => 0 <= n < 0x100
    case Element(data) => |data| < LENGTH_LIMIT
  }

  predicate WitnessInRange(i: In) {
    i.items.Some? && |i.items.value| < 0x100 && forall k :: 0 <= k < |i.items.value| ==> ItemInRange(i.items.value[k])
  }

  /** Every field fits its place in the legacy format. */
  predicate InRange(tx: TxData) {
    0 <= tx.version < LIMIT32 && 0 <= tx.locktime < LIMIT32 && |tx.ins| < LENGTH_LIMIT && |tx.outs| < LENGTH_LIMIT
    && (forall k :: 0 <= k < |tx.ins| ==> InInRange(tx.ins[k])) && forall k :: 0 <= k < |tx.outs| ==> OutInRange(tx.outs[k])
  }

  predicate WitnessesInRange(tx: TxData) { forall k :: 0 <= k < |tx.ins| ==> WitnessInRange(tx.ins[k]) }

  lemma LittleRanges(n: int)
    ensures ToLittle(n, 1).Some? <==> 0 <= n < 0x100
    ensures ToLittle(n, 4).Some? <==> 0 <= n < LIMIT32
    ensures ToLittle(n, 8).Some? <==> 0 <= n < LENGTH_LIMIT
  {
    PowersOf256();
  }

  lemma {:induction false} ConcatExactly<T>(xs: seq<T>, bytesOf: T -> Option<Bytes>)
    ensures Concat(xs, bytesOf).Some? <==> forall k :: 0 <= k < |xs| ==> bytesOf(xs[k]).Some?
  {
    if xs != [] {
      ConcatExactly(xs[1..], bytesOf);
      if forall k :: 0 <= k < |xs[1..]| ==> bytesOf(xs[1..][k]).Some? {
        forall k | 0 < k < |xs| ensures bytesOf(xs[k]).Some? { assert xs[k] == xs[1..][k - 1]; }
      }
    }
  }

  lemma InBytesExactly(i: In)
    ensures InBytes(i).Some? <==> InInRange(i)
  {
    LittleRanges(i.prevIndex);
    LittleRanges(i.sequence);
    SerializeExactly(i.scriptSig);
  }

  lemma OutBytesExactly(o: Out)
    ensures OutBytes(o).Some? <==> OutInRange(o)
  {
    LittleRanges(o.amount);
    SerializeExactly(o.scriptPubkey);
  }

  lemma ItemBytesExactly(w: Item)
    ensures ItemBytes(w).Some? <==> ItemInRange(w)
  {
    if w.Number? { LittleRanges(w.n); }
  }

  lemma WitnessBytesExactly(i: In)
    ensures WitnessBytes(i).Some? <==> WitnessInRange(i)
  {
    if i.items.Some? {
      var ws := i.items.value;
      LittleRanges(|ws|);
      ConcatExactly(ws, ItemBytes);
      forall k | 0 <= k < |ws| ensures ItemBytes(ws[k]).Some? <==> ItemInRange(ws[k]) { ItemBytesExactly(ws[k]); }
    }
  }

  lemma ListsExactly(tx: TxData)
    ensures Concat(tx.ins, InBytes).Some? <==> forall k :: 0 <= k < |tx.ins| ==> InInRange(tx.ins[k])
    ensures Concat(tx.outs, OutBytes).Some? <==> forall k :: 0 <= k < |tx.outs| ==> OutInRange(tx.outs[k])
  {
    ConcatExactly(tx.ins, InBytes);
    ConcatExactly(tx.outs, OutBytes);
    forall k | 0 <= k < |tx.ins| ensures InBytes(tx.ins[k]).Some? <==> InInRange(tx.ins[k]) { InBytesExactly(tx.ins[k]); }
    forall k | 0 <= k < |tx.outs| ensures OutBytes(tx.outs[k]).Some? <==> OutInRange(tx.outs[k]) {
      OutBytesExactly(tx.outs[k]);
    }
  }

  /** serialize_legacy succeeds exactly if every field is in range. */
  lemma LegacyBytesExactly(tx: TxData)
    ensures LegacyBytes(tx).Some? <==> InRange(tx)
  {
    LittleRanges(tx.version);
    LittleRanges(tx.locktime);
    ListsExactly(tx);
  }

  /** serialize_segwit also needs a witness in range for every input. */
  lemma SegwitBytesExactly(tx: TxData)
    ensures SegwitBytes(tx).Some? <==> InRange(tx) && WitnessesInRange(tx)
  {
    LittleRanges(tx.version);
    LittleRanges(tx.locktime);
    ListsExactly(tx);
    ConcatExactly(tx.ins, WitnessBytes);
    forall k | 0 <= k < |tx.ins| ensures WitnessBytes(tx.ins[k]).Some? <==> WitnessInRange(tx.ins[k]) {
      WitnessBytesExactly(tx.ins[k]);
    }
  }

  // ----- parsing -----

  /** little_endian_to_int(s.read(n)) */
  function ReadInt(b: Bytes, n: nat): (nat, Bytes) { (FromLittle(Take(b, n)), Drop(b, n)) }

  /** TxIn.parse. The fourth field is passed where the constructor expects the previous script, so it ends up there and
      the sequence keeps its default. */
  function ReadIn(b: Bytes): Parsed<In> {
    var prevTx := Reverse(Take(b, 32));
    var (prevIndex, b1) := ReadInt(Drop(b, 32), 4);
    match Parse(b1)
    case None => None
    case Some((scriptSig, b2)) =>
      var (fourth, b3) := ReadInt(b2, 4);
      Some((In(prevTx, prevIndex, scriptSig, Stray(fourth), 0, MAX_SEQUENCE, None), b3))
  }

  /** TxOut.parse */
  function ReadOut(b: Bytes): Parsed<Out> {
    var (amount, b1) := ReadInt(b, 8);
    match Parse(b1)
    case None => None
    case Some((cmds, b2)) => Some((Out(amount, cmds), b2))
  }

  /** One witness item: length zero stands for the number 0. */
  function ReadItem(b: Bytes): Parsed<Item> {
    match DecodeVarint(b)
    case None => None
    case Some((n, b1)) => Some((if n == 0 then Number(0) else Element(Take(b1, n)), Drop(b1, n)))
  }

  /** n values in a row. */
  function ReadMany<T>(read: Bytes -> Parsed<T>, b: Bytes, n: nat): (r: Parsed<seq<T>>)
    ensures r.Some? ==> |r.value.0| == n
    decreases n
  {
    if n == 0 then Some(([], b))
    else match read(b)
      case None => None
      case Some((first, b1)) =>
        match ReadMany(read, b1, n - 1)
        case None => None
        case Some((others, b2)) => Some(([first] + others, b2))
  }

  /** A count and that many values. */
  function ReadCounted<T>(read: Bytes -> Parsed<T>, b: Bytes): Parsed<seq<T>> {
    match DecodeVarint(b)
    case None => None
    case Some((n, b1)) => ReadMany(read, b1, n)
  }

  /** The witnesses of the inputs, in order. */
  function ReadWitnesses(ins: seq<In>, b: Bytes): (r: Parsed<seq<In>>)
    ensures r.Some? ==> |r.value.0| == |ins|
  {
    if ins == [] then Some(([], b))
    else match ReadCounted(ReadItem, b)
      case None => None
      case Some((items, b1)) =>
        match ReadWitnesses(ins[1..], b1)
        case None => None
        case Some((others, b2)) => Some(([ins[0].(items := Some(items))] + others, b2))
  }

  /** Inputs and outputs. */
  function ReadBody(b: Bytes): Parsed<(seq<In>, seq<Out>)> {
    match ReadCounted(ReadIn, b)
    case None => None
    case Some((ins, b1)) =>
      match ReadCounted(ReadOut, b1)
      case None => None
      case Some((outs, b2)) => Some(((ins, outs), b2))
  }

  /** parse_legacy */
  function ReadLegacy(b: Bytes): Parsed<TxData> {
    var (version, b1) := ReadInt(b, 4);
    match ReadBody(b1)
    case None => None
    case Some(((ins, outs), b2)) =>
      var (locktime, b3) := ReadInt(b2, 4);
      Some((TxData(version, ins, outs, locktime), b3))
  }

  /** parse_segwit */
  function ReadSegwit(b: Bytes): Parsed<TxData> {
    var (version, b1) := ReadInt(b, 4);
    if Take(b1, 2) != MARKER then None
    else match ReadBody(Drop(b1, 2))
      case None => None
      case Some(((ins, outs), b2)) =>
        match ReadWitnesses(ins, b2)
        case None => None
        case Some((full, b3)) =>
          var (locktime, b4) := ReadInt(b3, 4);
          Some((TxData(version, full, outs, locktime), b4))
  }

  // ----- round trips -----

  /** Inputs that can be read back at all. */
  predicate ReadableIn(i: In) { |i.prevTx| == 32 && AllReprintable(i.scriptSig) }

  predicate ReadableItem(w: Item) { w == Number(0) || (w.Element? && w.data != []) }

  predicate ReadableWitness(i: In) {
    i.items.Some? && |i.items.value| < 0xfd
    && forall k :: 0 <= k < |i.items.value| ==> ReadableItem(i.items.value[k])
  }

  predicate ReadableWitnesses(tx: TxData) { forall k :: 0 <= k < |tx.ins| ==> ReadableWitness(tx.ins[k]) }

  predicate Readable(tx: TxData) {
    (forall k :: 0 <= k < |tx.ins| ==> ReadableIn(tx.ins[k]))
    && (forall k :: 0 <= k < |tx.outs| ==> AllReprintable(tx.outs[k].scriptPubkey))
  }

  /** What parsing makes of a serialized input. */
  function Misread(i: In): In {
    i.(sequence := MAX_SEQUENCE, scriptPubkey := if i.sequence >= 0 then Stray(i.sequence) else NoScript, amount := 0,
       items := None)
  }

  lemma ReadBackInt(n: int, len: nat, rest: Bytes)
    requires ToLittle(n, len).Some?
    ensures ReadInt(ToLittle(n, len).value + rest, len) == (n, rest)
  {
    LittleRoundTrip(n, len, rest);
  }

  lemma ReadBackIn(i: In, rest: Bytes)
    requires ReadableIn(i) && InBytes(i).Some?
    ensures ReadIn(InBytes(i).value + rest) == Some((Misread(i), rest))
  {
    var prev, index, sig, seqn := Reverse(i.prevTx), ToLittle(i.prevIndex, 4).value, Serialize(i.scriptSig).value,
      ToLittle(i.sequence, 4).value;
    assert InBytes(i).value + rest == prev + (index + (sig + (seqn + rest)));
    TakeDrop(prev, index + (sig + (seqn + rest)));
    ReverseTwice(i.prevTx);
    ReadBackInt(i.prevIndex, 4, sig + (seqn + rest));
    PrintedParse(i.scriptSig, seqn + rest);
    ReadBackInt(i.sequence, 4, rest);
  }

  lemma ReadBackOut(o: Out, rest: Bytes)
    requires AllReprintable(o.scriptPubkey) && OutBytes(o).Some?
    ensures ReadOut(OutBytes(o).value + rest) == Some((o, rest))
  {
    var amount, script := ToLittle(o.amount, 8).value, Serialize(o.scriptPubkey).value;
    assert OutBytes(o).value + rest == amount + (script + rest);
    ReadBackInt(o.amount, 8, script + rest);
    PrintedParse(o.scriptPubkey, rest);
  }

  /** Exactly the nonempty byte strings and the number 0 are read back. */
  lemma ReadBackItem(w: Item, rest: Bytes)
    requires ItemBytes(w).Some?
    ensures ReadableItem(w) ==> ReadItem(ItemBytes(w).value + rest) == Some((w, rest))
    ensures !ReadableItem(w) ==>
            ReadItem(ItemBytes(w).value + rest).None? || ReadItem(ItemBytes(w).value + rest).value.0 != w
  {
    match w
    case Number(n) =>
      if n == 0 {
        assert LittleDigits(0, 1) == [0];
        assert ([0] + rest)[1..] == rest;
      }
    case Element(data) =>
      var prefix := EncodeVarint(|data|).value;
      assert prefix + data + rest == prefix + (data + rest);
      VarintRoundTrip(|data|, data + rest);
      TakeDrop(data, rest);
  }

  /** Whatever follows, the printed value reads back as `g` makes it. */
  ghost predicate ReadsBack<T, U>(x: T, bytesOf: T -> Option<Bytes>, read: Bytes -> Parsed<U>, g: T -> U) {
    bytesOf(x).Some? ==> forall rest: Bytes :: read(bytesOf(x).value + rest) == Some((g(x), rest))
  }

  function Map<T, U>(xs: seq<T>, g: T -> U): (r: seq<U>)
    ensures |r| == |xs| && forall i :: 0 <= i < |xs| ==> r[i] == g(xs[i])
  {
    if xs == [] then [] else [g(xs[0])] + Map(xs[1..], g)
  }

  lemma {:induction false} ReadBackMany<T, U>(xs: seq<T>, bytesOf: T -> Option<Bytes>, read: Bytes -> Parsed<U>, g: T -> U,
                                              rest: Bytes)
    requires Concat(xs, bytesOf).Some? && forall i :: 0 <= i < |xs| ==> ReadsBack(xs[i], bytesOf, read, g)
    ensures ReadMany(read, Concat(xs, bytesOf).value + rest, |xs|) == Some((Map(xs, g), rest))
  {
    if xs == [] {
      assert [] + rest == rest;
    } else {
      var tail := Concat(xs[1..], bytesOf).value;
      assert Concat(xs, bytesOf).value + rest == bytesOf(xs[0]).value + (tail + rest);
      assert ReadsBack(xs[0], bytesOf, read, g);
      ReadBackMany(xs[1..], bytesOf, read, g, rest);
    }
  }

  lemma CountThenMany<U>(read: Bytes -> Parsed<U>, n: nat, prefix: Bytes, b: Bytes)
    requires EncodeVarint(n) == Some(prefix)
    ensures ReadCounted(read, prefix + b) == ReadMany(read, b, n)
  {
    VarintRoundTrip(n, b);
  }

  lemma ReadBackCounted<T, U>(xs: seq<T>, bytesOf: T -> Option<Bytes>, read: Bytes -> Parsed<U>, g: T -> U,
                              prefix: Bytes, all: Bytes, rest: Bytes)
    requires EncodeVarint(|xs|) == Some(prefix) && Concat(xs, bytesOf) == Some(all)
    requires forall i :: 0 <= i < |xs| ==> ReadsBack(xs[i], bytesOf, read, g)
    ensures ReadCounted(read, prefix + (all + rest)) == Some((Map(xs, g), rest))
  {
    CountThenMany(read, |xs|, prefix, all + rest);
    ReadBackMany(xs, bytesOf, read, g, rest);
  }

  function Same<T>(x: T): T { x }

  lemma {:induction false} MapSame<T>(xs: seq<T>)
    ensures Map(xs, Same) == xs
  {
  }

  lemma InReadsBack(i: In)
    requires ReadableIn(i)
    ensures ReadsBack(i, InBytes, ReadIn, Misread)
  {
    forall r: Bytes | InBytes(i).Some? ensures ReadIn(InBytes(i).value + r) == Some((Misread(i), r)) { ReadBackIn(i, r); }
  }

  lemma OutReadsBack(o: Out)
    requires AllReprintable(o.scriptPubkey)
    ensures ReadsBack(o, OutBytes, ReadOut, Same)
  {
    forall r: Bytes | OutBytes(o).Some? ensures ReadOut(OutBytes(o).value + r) == Some((o, r)) { ReadBackOut(o, r); }
  }

  lemma ItemReadsBack(w: Item)
    requires ReadableItem(w)
    ensures ReadsBack(w, ItemBytes, ReadItem, Same)
  {
    forall r: Bytes | ItemBytes(w).Some? ensures ReadItem(ItemBytes(w).value + r) == Some((w, r)) { ReadBackItem(w, r); }
  }

  lemma ReadBackIns(ins: seq<In>, n: Bytes, all: Bytes, rest: Bytes)
    requires EncodeVarint(|ins|) == Some(n) && Concat(ins, InBytes) == Some(all)
    requires forall k :: 0 <= k < |ins| ==> ReadableIn(ins[k])
    ensures ReadCounted(ReadIn, n + (all + rest)) == Some((Map(ins, Misread), rest))
  {
    forall k | 0 <= k < |ins| ensures ReadsBack(ins[k], InBytes, ReadIn, Misread) { InReadsBack(ins[k]); }
    ReadBackCounted(ins, InBytes, ReadIn, Misread, n, all, rest);
  }

  lemma ReadBackOuts(outs: seq<Out>, n: Bytes, all: Bytes, rest: Bytes)
    requires EncodeVarint(|outs|) == Some(n) && Concat(outs, OutBytes) == Some(all)
    requires forall k :: 0 <= k < |outs| ==> AllReprintable(outs[k].scriptPubkey)
    ensures ReadCounted(ReadOut, n + (all + rest)) == Some((outs, rest))
  {
    forall k | 0 <= k < |outs| ensures ReadsBack(outs[k], OutBytes, ReadOut, Same) { OutReadsBack(outs[k]); }
    ReadBackCounted(outs, OutBytes, ReadOut, Same, n, all, rest);
    MapSame(outs);
  }

  lemma ReadBackBody(tx: TxData, rest: Bytes)
    requires Readable(tx) && BodyBytes(tx).Some?
    ensures ReadBody(BodyBytes(tx).value + rest) == Some(((Map(tx.ins, Misread), tx.outs), rest))
  {
    var n, ins := EncodeVarint(|tx.ins|).value, Concat(tx.ins, InBytes).value;
    var m, outs := EncodeVarint(|tx.outs|).value, Concat(tx.outs, OutBytes).value;
    ReadBackIns(tx.ins, n, ins, m + (outs + rest));
    ReadBackOuts(tx.outs, m, outs, rest);
    BodyShape(tx, n, ins, m, outs, rest);
    JoinBody(n + (ins + (m + (outs + rest))), Map(tx.ins, Misread), m + (outs + rest), tx.outs, rest);
  }

  lemma BodyShape(tx: TxData, n: Bytes, ins: Bytes, m: Bytes, outs: Bytes, rest: Bytes)
    requires EncodeVarint(|tx.ins|) == Some(n) && Concat(tx.ins, InBytes) == Some(ins)
    requires EncodeVarint(|tx.outs|) == Some(m) && Concat(tx.outs, OutBytes) == Some(outs)
    ensures BodyBytes(tx).Some? && BodyBytes(tx).value + rest == n + (ins + (m + (outs + rest)))
  {
    assert BodyBytes(tx) == Some((n + ins) + (m + outs));
    Nested(n, ins, m, outs, rest);
  }

  lemma Nested(a: Bytes, b: Bytes, c: Bytes, d: Bytes, e: Bytes)
    ensures (a + b) + (c + d) + e == a + (b + (c + (d + e)))
  {
  }

  lemma JoinBody(b: Bytes, ins: seq<In>, b1: Bytes, outs: seq<Out>, b2: Bytes)
    requires ReadCounted(ReadIn, b) == Some((ins, b1)) && ReadCounted(ReadOut, b1) == Some((outs, b2))
    ensures ReadBody(b) == Some(((ins, outs), b2))
  {
  }

  /** parse_legacy undoes serialize_legacy up to the sequences, and leaves what follows unread. */
  lemma LegacyRoundTrip(tx: TxData, rest: Bytes)
    requires Readable(tx) && InRange(tx)
    ensures LegacyBytes(tx).Some?
    ensures ReadLegacy(LegacyBytes(tx).value + rest) == Some((tx.(ins := Map(tx.ins, Misread)), rest))
  {
    LegacyBytesExactly(tx);
    var version, body, locktime := ToLittle(tx.version, 4).value, BodyBytes(tx).value, ToLittle(tx.locktime, 4).value;
    assert LegacyBytes(tx).value + rest == version + (body + (locktime + rest));
    ReadBackInt(tx.version, 4, body + (locktime + rest));
    ReadBackBody(tx, locktime + rest);
    ReadBackInt(tx.locktime, 4, rest);
  }

  /** One witness read back. */
  lemma ReadBackWitness(i: In, rest: Bytes)
    requires ReadableWitness(i) && WitnessBytes(i).Some?
    ensures ReadCounted(ReadItem, WitnessBytes(i).value + rest) == Some((i.items.value, rest))
  {
    var ws := i.items.value;
    forall k | 0 <= k < |ws| ensures ReadsBack(ws[k], ItemBytes, ReadItem, Same) { ItemReadsBack(ws[k]); }
    OneLittleDigit(|ws|);
    PowersOf256();
    assert ToLittle(|ws|, 1) == EncodeVarint(|ws|);
    var n, all := EncodeVarint(|ws|).value, Concat(ws, ItemBytes).value;
    assert WitnessBytes(i).value + rest == n + (all + rest);
    ReadBackCounted(ws, ItemBytes, ReadItem, Same, n, all, rest);
    MapSame(ws);
  }

  /** What parse_segwit makes of a serialized input. */
  function MisreadSegwit(i: In): In { Misread(i).(items := i.items) }

  lemma {:induction false} ReadBackWitnesses(ins: seq<In>, rest: Bytes)
    requires Concat(ins, WitnessBytes).Some? && forall k :: 0 <= k < |ins| ==> ReadableWitness(ins[k])
    ensures ReadWitnesses(Map(ins, Misread), Concat(ins, WitnessBytes).value + rest)
         == Some((Map(ins, MisreadSegwit), rest))
  {
    if ins == [] {
      assert [] + rest == rest;
    } else {
      var first, tail := WitnessBytes(ins[0]).value, Concat(ins[1..], WitnessBytes).value;
      assert Concat(ins, WitnessBytes).value + rest == first + (tail + rest);
      ReadBackWitness(ins[0], tail + rest);
      ReadBackWitnesses(ins[1..], rest);
      assert Map(ins, Misread)[1..] == Map(ins[1..], Misread);
    }
  }

  /** parse_segwit undoes serialize_segwit up to the sequences, and leaves what follows unread. */
  lemma SegwitRoundTrip(tx: TxData, rest: Bytes)
    requires Readable(tx) && InRange(tx) && ReadableWitnesses(tx) && WitnessesInRange(tx)
    ensures SegwitBytes(tx).Some?
    ensures ReadSegwit(SegwitBytes(tx).value + rest) == Some((tx.(ins := Map(tx.ins, MisreadSegwit)), rest))
  {
    SegwitBytesExactly(tx);
    var version, body, witnesses, locktime := ToLittle(tx.version, 4).value, BodyBytes(tx).value,
      Concat(tx.ins, WitnessBytes).value, ToLittle(tx.locktime, 4).value;
    var r3 := locktime + rest;
    var r2 := witnesses + r3;
    SegwitShape(tx, rest, version, body, witnesses, locktime);
    ReadBackInt(tx.version, 4, MARKER + (body + r2));
    TakeDrop(MARKER, body + r2);
    ReadBackBody(tx, r2);
    ReadBackWitnesses(tx.ins, r3);
    ReadBackInt(tx.locktime, 4, rest);
  }

  lemma SegwitShape(tx: TxData, rest: Bytes, version: Bytes, body: Bytes, witnesses: Bytes, locktime: Bytes)
    requires ToLittle(tx.version, 4) == Some(version) && BodyBytes(tx) == Some(body)
    requires Concat(tx.ins, WitnessBytes) == Some(witnesses) && ToLittle(tx.locktime, 4) == Some(locktime)
    ensures SegwitBytes(tx).Some?
    ensures SegwitBytes(tx).value + rest == version + (MARKER + (body + (witnesses + (locktime + rest))))
  {
    assert SegwitBytes(tx) == Some(version + MARKER + body + witnesses + locktime);
    Reassociate(version, MARKER, body, witnesses, locktime, rest);
  }

  lemma Reassociate(a: Bytes, b: Bytes, c: Bytes, d: Bytes, e: Bytes, f: Bytes)
    ensures a + b + c + d + e + f == a + (b + (c + (d + (e + f))))
  {
  }
}
