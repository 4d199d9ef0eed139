/** Transactions as objects: parsing, serializing, and hashing with the cached parts (Bitcoin/tx.py: Tx, TxIn). */
module Transaction {
  import opened Prelude
  import opened Positional
  import opened Stream
  import opened Script
  import opened TxCodec
  import opened SigHash

  class TxIn {
    const prevTx: Bytes
    const prevIndex: int
    var scriptSig: seq<Cmd>
    const scriptPubkey: Pubkey
    const amount: int
    const sequence: int
    var items: Option<seq<Item>>

    constructor (prevTx: Bytes, prevIndex: int, scriptSig: seq<Cmd>, scriptPubkey: Pubkey, amount: int, sequence: int)
      ensures Data() == In(prevTx, prevIndex, scriptSig, scriptPubkey, amount, sequence, None)
    {
      this.prevTx, this.prevIndex, this.scriptSig := prevTx, prevIndex, scriptSig;
      this.scriptPubkey, this.amount, this.sequence, this.items := scriptPubkey, amount, sequence, None;
    }

    function Data(): In
      reads this
    {
      In(prevTx, prevIndex, scriptSig, scriptPubkey, amount, sequence, items)
    }

    method SerializeIn() returns (r: Option<Bytes>)
      ensures r == InBytes(Data())
    {
      var index, last := ToLittle(prevIndex, 4), ToLittle(sequence, 4);
      if index.None? || last.None? { return None; }
      var sig := SerializeScript(scriptSig);
      if sig.None? { return None; }
      r := Some(Reverse(prevTx) + index.value + sig.value + last.value);
    }
  }

  /** TxIn.parse */
  method ParseIn(s: ByteStream) returns (r: Option<TxIn>)
    requires s.Valid()
    modifies s
    ensures s.Valid() && (r.Some? ==> fresh(r.value))
    ensures match ReadIn(old(s.Rest()))
            case None => r.None?
            case Some((data, rest)) => r.Some? && r.value.Data() == data && s.Rest() == rest
  {
    var prevTx := s.Read(32);
    var index := s.Read(4);
    var script := ParseFrom(s);
    if script.None? { return None; }
    var fourth := s.Read(4);
    var i := new TxIn(Reverse(prevTx), FromLittle(index), script.value, Stray(FromLittle(fourth)), 0, MAX_SEQUENCE);
    r := Some(i);
  }

  /** TxOut.parse */
  method ParseOut(s: ByteStream) returns (r: Option<Out>)
    requires s.Valid()
    modifies s
    ensures s.Valid()
    ensures match ReadOut(old(s.Rest()))
            case None => r.None?
            case Some((data, rest)) => r == Some(data) && s.Rest() == rest
  {
    var amount := s.Read(8);
    var script := ParseFrom(s);
    if script.None? { return None; }
    r := Some(Out(FromLittle(amount), script.value));
  }

  /** The values of a list of inputs. */
  function Datas(ins: seq<TxIn>): (r: seq<In>)
    reads ins
    ensures |r| == |ins| && forall k :: 0 <= k < |ins| ==> r[k] == ins[k].Data()
  {
    seq(|ins|, k requires 0 <= k < |ins| reads ins => ins[k].Data())
  }

  predicate Distinct(ins: seq<TxIn>) { forall i, j :: 0 <= i < j < |ins| ==> ins[i] != ins[j] }

  // ----- lists -----

  /** Values read already in front of those still to come. */
  function Prepend<T>(done: seq<T>, later: Parsed<seq<T>>): Parsed<seq<T>> {
    match later case None => None case Some((xs, rest)) => Some((done + xs, rest))
  }

  lemma PrependNext<T>(read: Bytes -> Parsed<T>, done: seq<T>, b: Bytes, n: nat)
    requires n > 0
    ensures match read(b)
            case None => Prepend(done, ReadMany(read, b, n)) == None
            case Some((x, b1)) => Prepend(done, ReadMany(read, b, n)) == Prepend(done + [x], ReadMany(read, b1, n - 1))
  {
    if read(b).Some? {
      var (x, b1) := read(b).value;
      if ReadMany(read, b1, n - 1).Some? {
        var xs := ReadMany(read, b1, n - 1).value.0;
        assert done + ([x] + xs) == (done + [x]) + xs;
      }
    }
  }

  lemma PrependNothing<T>(read: Bytes -> Parsed<T>, b: Bytes, n: nat, done: seq<T>)
    ensures Prepend([], ReadMany(read, b, n)) == ReadMany(read, b, n)
    ensures Prepend(done, ReadMany(read, b, 0)) == Some((done, b))
  {
    if ReadMany(read, b, n).Some? {
      var xs := ReadMany(read, b, n).value.0;
      assert [] + xs == xs;
    }
    assert done + [] == done;
  }

  lemma PrependWitness(ins: seq<In>, i: nat, done: seq<In>, b: Bytes)
    requires i < |ins|
    ensures match ReadCounted(ReadItem, b)
            case None => Prepend(done, ReadWitnesses(ins[i..], b)) == None
            case Some((items, rest)) =>
              Prepend(done, ReadWitnesses(ins[i..], b))
              == Prepend(done + [ins[i].(items := Some(items))], ReadWitnesses(ins[i + 1..], rest))
  {
    assert ins[i..][1..] == ins[i + 1..];
    if ReadCounted(ReadItem, b).Some? {
      var (items, rest) := ReadCounted(ReadItem, b).value;
      if ReadWitnesses(ins[i + 1..], rest).Some? {
        var first, others := ins[i].(items := Some(items)), ReadWitnesses(ins[i + 1..], rest).value.0;
        assert done + ([first] + others) == (done + [first]) + others;
      }
    }
  }

  lemma PrependNoWitness(ins: seq<In>, b: Bytes, done: seq<In>)
    ensures Prepend([], ReadWitnesses(ins[0..], b)) == ReadWitnesses(ins, b)
    ensures Prepend(done, ReadWitnesses(ins[|ins|..], b)) == Some((done, b))
  {
    assert ins[0..] == ins && done + [] == done;
    if ReadWitnesses(ins, b).Some? {
      var xs := ReadWitnesses(ins, b).value.0;
      assert [] + xs == xs;
    }
  }

  /** ReadIn by another name, so that the loop below reasons about it without its definition. */
  lemma InReader(b: Bytes, n: nat) returns (read: Bytes -> Parsed<In>)
    ensures forall x {:trigger ReadIn(x)} :: read(x) == ReadIn(x)
    ensures ReadMany(read, b, n) == ReadMany(ReadIn, b, n)
  {
    read := ReadIn;
  }

  /** ReadOut by another name. */
  lemma OutReader(b: Bytes, n: nat) returns (read: Bytes -> Parsed<Out>)
    ensures forall x {:trigger ReadOut(x)} :: read(x) == ReadOut(x)
    ensures ReadMany(read, b, n) == ReadMany(ReadOut, b, n)
  {
    read := ReadOut;
  }

  ghost predicate AllIn(ins: seq<TxIn>, made: set<TxIn>) { forall k :: 0 <= k < |ins| ==> ins[k] in made }

  lemma OneMoreIn(ins: seq<TxIn>, made: set<TxIn>, next: TxIn)
    requires Distinct(ins) && AllIn(ins, made) && next !in made
    ensures Distinct(ins + [next]) && AllIn(ins + [next], made + {next})
    ensures Datas(ins + [next]) == Datas(ins) + [next.Data()]
  {
  }

  /** The loop over the inputs; each is a new object. */
  method ParseIns(s: ByteStream, count: nat) returns (r: Option<seq<TxIn>>)
    requires s.Valid()
    modifies s
    ensures s.Valid() && (r.Some? ==> fresh(r.value) && Distinct(r.value))
    ensures match ReadMany(ReadIn, old(s.Rest()), count)
            case None => r.None?
            case Some((data, rest)) => r.Some? && Datas(r.value) == data && s.Rest() == rest
  {
    ghost var read := InReader(s.Rest(), count);
    r := ReadIns(s, count, read);
  }

  method ReadIns(s: ByteStream, count: nat, ghost read: Bytes -> Parsed<In>) returns (r: Option<seq<TxIn>>)
    requires s.Valid() && forall x {:trigger ReadIn(x)} :: read(x) == ReadIn(x)
    modifies s
    ensures s.Valid() && (r.Some? ==> fresh(r.value) && Distinct(r.value))
    ensures match ReadMany(read, old(s.Rest()), count)
            case None => r.None?
            case Some((data, rest)) => r.Some? && Datas(r.value) == data && s.Rest() == rest
  {
    ghost var all := ReadMany(read, s.Rest(), count);
    PrependNothing(read, s.Rest(), count, []);
    var ins: seq<TxIn> := [];
    ghost var made: set<TxIn> := {};
    for i := 0 to count
      invariant s.Valid() && fresh(made) && AllIn(ins, made) && Distinct(ins)
      invariant Prepend(Datas(ins), ReadMany(read, s.Rest(), count - i)) == all
    {
      ghost var data := Datas(ins);
      PrependNext(read, data, s.Rest(), count - i);
      var next := ReadInAs(s, read);
      if next.None? { return None; }
      assert Datas(ins) == data;
      OneMoreIn(ins, made, next.value);
      made := made + {next.value};
      ins := ins + [next.value];
    }
    PrependNothing(read, s.Rest(), 0, Datas(ins));
    assert forall i <- ins :: i in made;
    r := Some(ins);
  }

  method ReadInAs(s: ByteStream, ghost read: Bytes -> Parsed<In>) returns (r: Option<TxIn>)
    requires s.Valid() && forall x {:trigger ReadIn(x)} :: read(x) == ReadIn(x)
    modifies s
    ensures s.Valid() && (r.Some? ==> fresh(r.value))
    ensures match read(old(s.Rest()))
            case None => r.None?
            case Some((data, rest)) => r.Some? && r.value.Data() == data && s.Rest() == rest
  {
    r := ParseIn(s);
  }

  /** The loop over the outputs. */
  method ParseOuts(s: ByteStream, count: nat) returns (r: Option<seq<Out>>)
    requires s.Valid()
    modifies s
    ensures s.Valid()
    ensures match ReadMany(ReadOut, old(s.Rest()), count)
            case None => r.None?
            case Some((data, rest)) => r == Some(data) && s.Rest() == rest
  {
    ghost var read := OutReader(s.Rest(), count);
    ghost var all := ReadMany(read, s.Rest(), count);
    PrependNothing(read, s.Rest(), count, []);
    var data: seq<Out> := [];
    for i := 0 to count
      invariant s.Valid() && Prepend(data, ReadMany(read, s.Rest(), count - i)) == all
    {
      PrependNext(read, data, s.Rest(), count - i);
      var next := ParseOut(s);
      if next.None? { return None; }
      data := data + [next.value];
    }
    PrependNothing(read, s.Rest(), 0, data);
    r := Some(data);
  }

  /** One witness item. */
  method ParseItem(s: ByteStream) returns (r: Option<Item>)
    requires s.Valid()
    modifies s
    ensures s.Valid()
    ensures match ReadItem(old(s.Rest()))
            case None => r.None?
            case Some((data, rest)) => r == Some(data) && s.Rest() == rest
  {
    var n := s.ReadVarint();
    if n.None? { return None; }
    if n.value == 0 { return Some(Number(0)); }
    var data := s.Read(n.value);
    r := Some(Element(data));
  }

  /** The loop over the witness items of one input. */
  method ParseItems(s: ByteStream, count: nat) returns (r: Option<seq<Item>>)
    requires s.Valid()
    modifies s
    ensures s.Valid()
    ensures match ReadMany(ReadItem, old(s.Rest()), count)
            case None => r.None?
            case Some((data, rest)) => r == Some(data) && s.Rest() == rest
  {
    ghost var all := ReadMany(ReadItem, s.Rest(), count);
    PrependNothing(ReadItem, s.Rest(), count, []);
    var data: seq<Item> := [];
    for i := 0 to count
      invariant s.Valid() && Prepend(data, ReadMany(ReadItem, s.Rest(), count - i)) == all
    {
      PrependNext(ReadItem, data, s.Rest(), count - i);
      var next := ParseItem(s);
      if next.None? { return None; }
      data := data + [next.value];
    }
    PrependNothing(ReadItem, s.Rest(), 0, data);
    r := Some(data);
  }

  /** The witness of one input. */
  method ParseWitness(s: ByteStream, i: TxIn) returns (ok: bool)
    requires s.Valid()
    modifies s, i`items
    ensures s.Valid()
    ensures match ReadCounted(ReadItem, old(s.Rest()))
            case None => !ok
            case Some((items, rest)) => ok && i.items == Some(items) && s.Rest() == rest
  {
    var n := s.ReadVarint();
    if n.None? { return false; }
    var items := ParseItems(s, n.value);
    if items.None? { return false; }
    i.items := items;
    ok := true;
  }

  /** The body of the loop over the witnesses: one input changes. */
  method ParseNthWitness(s: ByteStream, ins: seq<TxIn>, n: nat) returns (ok: bool)
    requires s.Valid() && Distinct(ins) && n < |ins|
    modifies s, ins`items
    ensures s.Valid()
    ensures forall k :: 0 <= k < |ins| && k != n ==> ins[k].Data() == old(ins[k].Data())
    ensures match ReadCounted(ReadItem, old(s.Rest()))
            case None => !ok
            case Some((items, rest)) => ok && ins[n].Data() == old(ins[n].Data()).(items := Some(items)) && s.Rest() == rest
  {
    ok := ParseWitness(s, ins[n]);
  }

  /** The loop over the witnesses: each is stored in its input. */
  method ParseWitnesses(s: ByteStream, ins: seq<TxIn>) returns (ok: bool)
    requires s.Valid() && Distinct(ins)
    modifies s, ins`items
    ensures s.Valid()
    ensures match ReadWitnesses(old(Datas(ins)), old(s.Rest()))
            case None => !ok
            case Some((data, rest)) => ok && Datas(ins) == data && s.Rest() == rest
  {
    ghost var data := Datas(ins);
    ghost var all := ReadWitnesses(data, s.Rest());
    ghost var done: seq<In> := [];
    PrependNoWitness(data, s.Rest(), []);
    for i := 0 to |ins|
      invariant s.Valid() && |done| == i
      invariant forall k :: 0 <= k < |ins| ==> ins[k].Data() == if k < i then done[k] else data[k]
      invariant Prepend(done, ReadWitnesses(data[i..], s.Rest())) == all
    {
      PrependWitness(data, i, done, s.Rest());
      var more := ParseNthWitness(s, ins, i);
      if !more { return false; }
      done := done + [ins[i].Data()];
    }
    PrependNoWitness(data, s.Rest(), done);
    assert Datas(ins) == done;
    ok := true;
  }

  // ----- writing lists -----

  lemma ConcatNext<T>(xs: seq<T>, bytesOf: T -> Option<Bytes>, i: nat, done: Bytes)
    requires i < |xs|
    ensures match bytesOf(xs[i])
            case None => Cat(Some(done), Concat(xs[i..], bytesOf)) == None
            case Some(b) =>
              Cat(Some(done), Concat(xs[i..], bytesOf)) == Cat(Some(done + b), Concat(xs[i + 1..], bytesOf))
  {
    assert xs[i..][1..] == xs[i + 1..];
    if bytesOf(xs[i]).Some? && Concat(xs[i + 1..], bytesOf).Some? {
      var b, others := bytesOf(xs[i]).value, Concat(xs[i + 1..], bytesOf).value;
      assert done + (b + others) == (done + b) + others;
    }
  }

  lemma ConcatEnds<T>(xs: seq<T>, bytesOf: T -> Option<Bytes>, done: Bytes)
    ensures Cat(Some([]), Concat(xs[0..], bytesOf)) == Concat(xs, bytesOf)
    ensures Cat(Some(done), Concat(xs[|xs|..], bytesOf)) == Some(done)
  {
    assert xs[0..] == xs && done + [] == done;
    if Concat(xs, bytesOf).Some? {
      var b := Concat(xs, bytesOf).value;
      assert [] + b == b;
    }
  }

  /** The loop over the inputs in serialize_legacy and serialize_segwit. */
  method SerializeIns(ins: seq<TxIn>) returns (r: Option<Bytes>)
    ensures r == Concat(Datas(ins), InBytes)
  {
    var result: Bytes := [];
    ConcatEnds(Datas(ins), InBytes, []);
    for i := 0 to |ins|
      invariant Cat(Some(result), Concat(Datas(ins)[i..], InBytes)) == Concat(Datas(ins), InBytes)
    {
      ConcatNext(Datas(ins), InBytes, i, result);
      var b := ins[i].SerializeIn();
      if b.None? { return None; }
      result := result + b.value;
    }
    ConcatEnds(Datas(ins), InBytes, result);
    r := Some(result);
  }

  /** TxOut.serialize */
  method SerializeOut(o: Out) returns (r: Option<Bytes>)
    ensures r == OutBytes(o)
  {
    var amount := ToLittle(o.amount, 8);
    if amount.None? { return None; }
    var script := SerializeScript(o.scriptPubkey);
    if script.None? { return None; }
    r := Some(amount.value + script.value);
  }

  /** The loop over the outputs. */
  method SerializeOuts(outs: seq<Out>) returns (r: Option<Bytes>)
    ensures r == Concat(outs, OutBytes)
  {
    var result: Bytes := [];
    ConcatEnds(outs, OutBytes, []);
    for i := 0 to |outs|
      invariant Cat(Some(result), Concat(outs[i..], OutBytes)) == Concat(outs, OutBytes)
    {
      ConcatNext(outs, OutBytes, i, result);
      var b := SerializeOut(outs[i]);
      if b.None? { return None; }
      result := result + b.value;
    }
    ConcatEnds(outs, OutBytes, result);
    r := Some(result);
  }

  /** The loop over the items of one witness. */
  method SerializeItems(items: seq<Item>) returns (r: Option<Bytes>)
    ensures r == Concat(items, ItemBytes)
  {
    var result: Bytes := [];
    ConcatEnds(items, ItemBytes, []);
    for i := 0 to |items|
      invariant Cat(Some(result), Concat(items[i..], ItemBytes)) == Concat(items, ItemBytes)
    {
      ConcatNext(items, ItemBytes, i, result);
      var b := ItemBytes(items[i]);
      if b.None? { return None; }
      result := result + b.value;
    }
    ConcatEnds(items, ItemBytes, result);
    r := Some(result);
  }

  /** The loop over the witnesses in serialize_segwit. */
  method SerializeWitnesses(ins: seq<TxIn>) returns (r: Option<Bytes>)
    ensures r == Concat(Datas(ins), WitnessBytes)
  {
    var result: Bytes := [];
    ConcatEnds(Datas(ins), WitnessBytes, []);
    for i := 0 to |ins|
      invariant Cat(Some(result), Concat(Datas(ins)[i..], WitnessBytes)) == Concat(Datas(ins), WitnessBytes)
    {
      ConcatNext(Datas(ins), WitnessBytes, i, result);
      if ins[i].items.None? { return None; }
      var count := ToLittle(|ins[i].items.value|, 1);
      if count.None? { return None; }
      var items := SerializeItems(ins[i].items.value);
      if items.None? { return None; }
      result := result + (count.value + items.value);
    }
    ConcatEnds(Datas(ins), WitnessBytes, result);
    r := Some(result);
  }

  /** The input as it is hashed while input number `index` is being signed. */
  method SerializeShown(i: TxIn, signed: bool, redeem: Option<seq<Cmd>>) returns (r: Option<Bytes>)
    ensures r == ShownBytes(i.Data(), signed, redeem)
  {
    var script: seq<Cmd> := [];
    if signed {
      if redeem.Some? {
        script := redeem.value;
      } else {
        match i.scriptPubkey
        case NoScript =>
        case ScriptOf(cmds) => script := cmds;
        case Stray(_) => return None;
      }
    }
    var shown := new TxIn(i.prevTx, i.prevIndex, script, NoScript, 0, i.sequence);
    r := shown.SerializeIn();
  }

  // ----- transactions -----

  class Tx {
    const version: int
    const txIns: seq<TxIn>
    const txOuts: seq<Out>
    const locktime: int
    var hashPrevouts: Option<Bytes>
    var hashSequence: Option<Bytes>
    var hashOutputs: Option<Bytes>

    constructor (version: int, txIns: seq<TxIn>, txOuts: seq<Out>, locktime: int)
      ensures Data() == TxData(version, Datas(txIns), txOuts, locktime) && this.txIns == txIns
      ensures forall h :: CachesValid(h)
    {
      this.version, this.txIns, this.txOuts, this.locktime := version, txIns, txOuts, locktime;
      hashPrevouts, hashSequence, hashOutputs := None, None, None;
    }

    function Data(): TxData
      reads txIns
    {
      TxData(version, Datas(txIns), txOuts, locktime)
    }

    /** Every cached part is what computing it now would give. */
    ghost predicate CachesValid(h: Hash)
      reads this, txIns
    {
      (hashPrevouts.Some? <==> hashSequence.Some?)
      && (hashPrevouts.Some? ==> InputHashes(h, Datas(txIns)) == Some((hashPrevouts.value, hashSequence.value)))
      && (hashOutputs.Some? ==> OutputsHash(h, txOuts) == hashOutputs)
    }

    /** The part the two formats share. */
    method SerializeBody() returns (r: Option<Bytes>)
      ensures r == BodyBytes(Data())
    {
      var nIns := EncodeVarint(|txIns|);
      if nIns.None? { return None; }
      var ins := SerializeIns(txIns);
      if ins.None? { return None; }
      var nOuts := EncodeVarint(|txOuts|);
      if nOuts.None? { return None; }
      var outs := SerializeOuts(txOuts);
      if outs.None? { return None; }
      r := Some(nIns.value + ins.value + (nOuts.value + outs.value));
    }

    method SerializeLegacy() returns (r: Option<Bytes>)
      ensures r == LegacyBytes(Data())
    {
      var version := ToLittle(version, 4);
      if version.None? { return None; }
      var body := SerializeBody();
      var locktime := ToLittle(locktime, 4);
      if body.None? || locktime.None? { return None; }
      r := Some(version.value + body.value + locktime.value);
    }

    method SerializeSegwit() returns (r: Option<Bytes>)
      ensures r == SegwitBytes(Data())
    {
      var version := ToLittle(version, 4);
      if version.None? { return None; }
      var body := SerializeBody();
      if body.None? { return None; }
      var witnesses := SerializeWitnesses(txIns);
      var locktime := ToLittle(locktime, 4);
      if witnesses.None? || locktime.None? { return None; }
      r := Some(version.value + MARKER + body.value + witnesses.value + locktime.value);
    }

    /** sig_hash */
    method SignatureHash(h: Hash, index: int, redeem: Option<seq<Cmd>>) returns (z: Option<nat>)
      ensures z == LegacyDigest(h, Data(), index, redeem)
    {
      ghost var all := LegacyPreimage(Data(), index, redeem);
      var version, count := ToLittle(version, 4), EncodeVarint(|txIns|);
      if version.None? || count.None? { return None; }
      var ins := HashedIns(index, redeem);
      if ins.None? { return None; }
      var nOuts := EncodeVarint(|txOuts|);
      if nOuts.None? { return None; }
      var outs := SerializeOuts(txOuts);
      var locktime, kind := ToLittle(locktime, 4), ToLittle(SIGHASH_ALL, 4);
      if outs.None? || locktime.None? || kind.None? { return None; }
      var s := version.value + (count.value + ins.value) + (nOuts.value + outs.value) + locktime.value + kind.value;
      assert all == Some(s);
      z := Digest(h, Some(s));
    }

    /** The loop over the inputs in sig_hash. */
    method HashedIns(index: int, redeem: Option<seq<Cmd>>) returns (r: Option<Bytes>)
      ensures r == ShownInputs(Datas(txIns), 0, index, redeem)
    {
      ghost var data := Datas(txIns);
      var s: Bytes := [];
      ghost var all := ShownInputs(data, 0, index, redeem);
      if all.Some? { assert [] + all.value == all.value; }
      for i := 0 to |txIns|
        invariant data == Datas(txIns)
        invariant Cat(Some(s), ShownInputs(data, i, index, redeem)) == all
      {
        ShownNext(data, i, index, redeem, s);
        var b := SerializeShown(txIns[i], i == index, redeem);
        if b.None? { return None; }
        s := s + b.value;
      }
      assert s + [] == s;
      r := Some(s);
    }

    /** hash_prevouts and hash_sequence: both caches are filled by one loop, and only when empty. */
    method HashInputs(h: Hash) returns (r: Option<(Bytes, Bytes)>)
      requires CachesValid(h)
      modifies this`hashPrevouts, this`hashSequence
      ensures CachesValid(h)
      ensures r == InputHashes(h, Datas(txIns))
    {
      if hashPrevouts.None? {
        ghost var data := Datas(txIns);
        var prevouts: Bytes, sequences: Bytes := [], [];
        ConcatEnds(data, OutpointBytes, []);
        ConcatEnds(data, SequenceBytes, []);
        for i := 0 to |txIns|
          invariant data == Datas(txIns) && CachesValid(h)
          invariant Cat(Some(prevouts), Concat(data[i..], OutpointBytes)) == Concat(data, OutpointBytes)
          invariant Cat(Some(sequences), Concat(data[i..], SequenceBytes)) == Concat(data, SequenceBytes)
        {
          ConcatNext(data, OutpointBytes, i, prevouts);
          ConcatNext(data, SequenceBytes, i, sequences);
          var index, last := ToLittle(txIns[i].prevIndex, 4), ToLittle(txIns[i].sequence, 4);
          if index.None? || last.None? { return None; }
          prevouts := prevouts + (Reverse(txIns[i].prevTx) + index.value);
          sequences := sequences + last.value;
        }
        ConcatEnds(data, OutpointBytes, prevouts);
        ConcatEnds(data, SequenceBytes, sequences);
        hashPrevouts, hashSequence := Some(h(prevouts)), Some(h(sequences));
      }
      r := Some((hashPrevouts.value, hashSequence.value));
    }

    /** hash_outputs */
    method HashOuts(h: Hash) returns (r: Option<Bytes>)
      requires CachesValid(h)
      modifies this`hashOutputs
      ensures CachesValid(h)
      ensures r == OutputsHash(h, txOuts)
    {
      if hashOutputs.None? {
        var outs := SerializeOuts(txOuts);
        if outs.None? { return None; }
        hashOutputs := Some(h(outs.value));
      }
      r := hashOutputs;
    }

    /** sig_hash_bip143: whatever is cached, the digest is the one computed afresh. */
    method SignatureHashBip143(h: Hash, index: nat, redeem: Option<seq<Cmd>>, witnessScript: Option<seq<Cmd>>)
      returns (z: Option<nat>)
      requires CachesValid(h)
      modifies this`hashPrevouts, this`hashSequence, this`hashOutputs
      ensures CachesValid(h)
      ensures z == SegwitDigest(h, Data(), index, redeem, witnessScript)
    {
      if index >= |txIns| || ToLittle(version, 4).None? { return None; }
      var inputs := HashInputs(h);
      if inputs.None? { return None; }
      z := HashParts(h, index, redeem, witnessScript, inputs.value);
    }

    /** The part of sig_hash_bip143 after the hashes of the inputs. */
    method HashParts(h: Hash, index: nat, redeem: Option<seq<Cmd>>, witnessScript: Option<seq<Cmd>>, inputs: (Bytes, Bytes))
      returns (z: Option<nat>)
      requires CachesValid(h) && index < |txIns| && ToLittle(version, 4).Some?
      modifies this`hashOutputs
      ensures CachesValid(h)
      ensures z == Digest(h, SegwitPreimage(Data(), index, redeem, witnessScript, Some(inputs), OutputsHash(h, txOuts)))
    {
      var part := SerializeSigned(txIns[index], redeem, witnessScript);
      if part.None? { return None; }
      var outputs := HashOuts(h);
      var locktime, kind := ToLittle(locktime, 4), ToLittle(SIGHASH_ALL, 4);
      if outputs.None? || locktime.None? || kind.None? { return None; }
      var s := ToLittle(version, 4).value + (inputs.0 + inputs.1) + part.value + outputs.value + locktime.value + kind.value;
      assert SegwitPreimage(Data(), index, redeem, witnessScript, Some(inputs), outputs) == Some(s);
      z := Digest(h, Some(s));
    }
  }

  /** The input's own part of what sig_hash_bip143 hashes. */
  method SerializeSigned(i: TxIn, redeem: Option<seq<Cmd>>, witnessScript: Option<seq<Cmd>>) returns (r: Option<Bytes>)
    ensures r == SignedPart(i.Data(), redeem, witnessScript)
  {
    var prevIndex := ToLittle(i.prevIndex, 4);
    if prevIndex.None? { return None; }
    var code: Option<Bytes>;
    if witnessScript.Some? {
      code := SerializeScript(witnessScript.value);
    } else {
      var cmds := if redeem.Some? then redeem.value else if i.scriptPubkey.ScriptOf? then i.scriptPubkey.cmds else [];
      if |cmds| < 2 { return None; }
      code := SerializeScript(P2pkh(cmds[1]));
    }
    var amount, last := ToLittle(i.amount, 8), ToLittle(i.sequence, 4);
    if code.None? || amount.None? || last.None? { return None; }
    r := Some(Reverse(i.prevTx) + prevIndex.value + code.value + amount.value + last.value);
  }

  lemma ShownNext(ins: seq<In>, i: nat, index: int, redeem: Option<seq<Cmd>>, done: Bytes)
    requires i < |ins|
    ensures match ShownBytes(ins[i], i == index, redeem)
            case None => Cat(Some(done), ShownInputs(ins, i, index, redeem)) == None
            case Some(b) => Cat(Some(done), ShownInputs(ins, i, index, redeem))
                            == Cat(Some(done + b), ShownInputs(ins, i + 1, index, redeem))
  {
    var first, others := ShownBytes(ins[i], i == index, redeem), ShownInputs(ins, i + 1, index, redeem);
    if first.Some? && others.Some? { assert done + (first.value + others.value) == (done + first.value) + others.value; }
  }

  /** Tx.parse_legacy */
  method ParseLegacy(s: ByteStream) returns (r: Option<Tx>)
    requires s.Valid()
    modifies s
    ensures s.Valid() && (r.Some? ==> fresh(r.value) && fresh(r.value.txIns) && Distinct(r.value.txIns))
    ensures match ReadLegacy(old(s.Rest()))
            case None => r.None?
            case Some((data, rest)) => r.Some? && r.value.Data() == data && s.Rest() == rest
  {
    var version := s.Read(4);
    var ins, outs := ParseBody(s);
    if ins.None? || outs.None? { return None; }
    var locktime := s.Read(4);
    var tx := new Tx(FromLittle(version), ins.value, outs.value, FromLittle(locktime));
    r := Some(tx);
  }

  /** Inputs and outputs with their counts. */
  method ParseBody(s: ByteStream) returns (ins: Option<seq<TxIn>>, outs: Option<seq<Out>>)
    requires s.Valid()
    modifies s
    ensures s.Valid() && (ins.Some? ==> fresh(ins.value) && Distinct(ins.value))
    ensures match ReadBody(old(s.Rest()))
            case None => ins.None? || outs.None?
            case Some(((inData, outData), rest)) =>
              ins.Some? && Datas(ins.value) == inData && outs == Some(outData) && s.Rest() == rest
  {
    ins, outs := None, None;
    var nIns := s.ReadVarint();
    if nIns.None? { return; }
    ins := ParseIns(s, nIns.value);
    if ins.None? { return; }
    var nOuts := s.ReadVarint();
    if nOuts.None? { return; }
    outs := ParseOuts(s, nOuts.value);
  }

  /** Tx.parse_segwit */
  method ParseSegwit(s: ByteStream) returns (r: Option<Tx>)
    requires s.Valid()
    modifies s
    ensures s.Valid() && (r.Some? ==> fresh(r.value) && fresh(r.value.txIns) && Distinct(r.value.txIns))
    ensures match ReadSegwit(old(s.Rest()))
            case None => r.None?
            case Some((data, rest)) => r.Some? && r.value.Data() == data && s.Rest() == rest
  {
    var version := s.Read(4);
    var marker := s.Read(2);
    if marker != MARKER { return None; }
    var ins, outs := ParseBody(s);
    if ins.None? || outs.None? { return None; }
    var ok := ParseWitnesses(s, ins.value);
    if !ok { return None; }
    var locktime := s.Read(4);
    var tx := new Tx(FromLittle(version), ins.value, outs.value, FromLittle(locktime));
    r := Some(tx);
  }
}
