/** Building and signing a payment (bitcoin_interface.py: SignTransaction, from the balance check to the serialized
    transaction). Addresses are decoded already; the signer is a parameter. */
module Wallet {
  import opened Prelude
  import opened Positional
  import opened Stream
  import opened Script
  import opened TxCodec
  import opened SigHash
  import opened Survival
  import opened SegwitSurvival
  import opened Transaction

  datatype Utxo = Utxo(txid: Bytes, vout: int, sats: int)

  datatype Address = Address(segwit: bool, hash: Bytes)

  /** An empty memo is no memo. */
  datatype Payment = Payment(amount: int, fee: int, memo: Bytes, receiver: Address)

  /** hash256, signing_key.sign(z).der() and signing_key.point.sec(). */
  datatype Signer = Signer(hash: Hash, der: nat -> Option<Bytes>, sec: Bytes)

  datatype Outcome = Refused | Raised | Signed(bytes: Bytes)

  const OP_RETURN: Byte := 0x6a

  // ----- choosing the inputs -----

  function Sum(utxos: seq<Utxo>): int { if utxos == [] then 0 else Sum(utxos[..|utxos| - 1]) + utxos[|utxos| - 1].sats }

  /** How many outputs are spent when the loop has taken the first `taken` and goes on. */
  function Choose(utxos: seq<Utxo>, taken: nat, need: int): (n: nat)
    requires taken <= |utxos|
    ensures taken <= n <= |utxos|
    decreases |utxos| - taken
  {
    if taken == |utxos| then taken
    else if Sum(utxos[..taken + 1]) >= need then taken + 1
    else Choose(utxos, taken + 1, need)
  }

  function Spent(utxos: seq<Utxo>, need: int): seq<Utxo> { utxos[..Choose(utxos, 0, need)] }

  lemma {:induction false} ChooseMeaning(utxos: seq<Utxo>, taken: nat, need: int)
    requires taken <= |utxos|
    ensures var n := Choose(utxos, taken, need);
      (forall j :: taken < j < n ==> Sum(utxos[..j]) < need)
      && (taken < n && Sum(utxos[..n]) < need ==> n == |utxos|) && (taken == n ==> n == |utxos|)
    decreases |utxos| - taken
  {
    if taken < |utxos| && Sum(utxos[..taken + 1]) < need { ChooseMeaning(utxos, taken + 1, need); }
  }

  /** If some nonempty prefix covers the need, the spent outputs are the shortest one. */
  lemma SpentIsShortest(utxos: seq<Utxo>, need: int, j: nat)
    requires 0 < j <= |utxos| && Sum(utxos[..j]) >= need
    ensures 0 < |Spent(utxos, need)| <= j && Spent(utxos, need) <= utxos && Sum(Spent(utxos, need)) >= need
    ensures forall i :: 0 < i < |Spent(utxos, need)| ==> Sum(utxos[..i]) < need
  {
    ChooseMeaning(utxos, 0, need);
  }

  /** If none does, everything is spent. */
  lemma AllSpent(utxos: seq<Utxo>, need: int)
    requires forall j :: 0 < j <= |utxos| ==> Sum(utxos[..j]) < need
    ensures Spent(utxos, need) == utxos
  {
    ChooseMeaning(utxos, 0, need);
  }

  // ----- the unsigned transaction -----

  function PayTo(a: Address): seq<Cmd> { if a.segwit then P2wpkh(a.hash) else P2pkh(Push(a.hash)) }

  function InputOf(u: Utxo, sender: Address): In {
    In(u.txid, u.vout, [], ScriptOf(PayTo(sender)), u.sats, MAX_SEQUENCE, None)
  }

  function Inputs(utxos: seq<Utxo>, sender: Address): (ins: seq<In>)
    ensures |ins| == |utxos| && forall k :: 0 <= k < |utxos| ==> ins[k] == InputOf(utxos[k], sender)
  {
    seq(|utxos|, k requires 0 <= k < |utxos| => InputOf(utxos[k], sender))
  }

  /** The change, unless it is zero; the payment; the memo, if there is one. */
  function Outputs(value: int, pay: Payment, sender: Address): seq<Out> {
    var change := value - pay.amount - pay.fee;
    (if change != 0 then [Out(change, PayTo(sender))] else [])
    + [Out(pay.amount, PayTo(pay.receiver))]
    + (if pay.memo != [] then [Out(0, [Op(OP_RETURN), Push(pay.memo)])] else [])
  }

  function Unsigned(utxos: seq<Utxo>, pay: Payment, sender: Address): TxData {
    var spent := Spent(utxos, pay.amount + pay.fee);
    TxData(1, Inputs(spent, sender), Outputs(Sum(spent), pay, sender), 0)
  }

  // ----- signing -----

  function DigestOf(s: Signer, segwit: bool, tx: TxData, i: nat): Option<nat> {
    if segwit then SegwitDigest(s.hash, tx, i, None, None) else LegacyDigest(s.hash, tx, i, None)
  }

  /** The DER signature and the hash type. */
  function SignatureFor(s: Signer, z: Option<nat>): Option<Bytes> {
    match z
    case None => None
    case Some(n) => match s.der(n) case None => None case Some(der) => Some(der + [1])
  }

  function SignIn(i: In, sig: Bytes, sec: Bytes, segwit: bool): In {
    if segwit then i.(items := Some([Element(sig), Element(sec)])) else i.(scriptSig := [Push(sig), Push(sec)])
  }

  predicate CanSign(s: Signer, segwit: bool, tx: TxData, i: nat) { SignatureFor(s, DigestOf(s, segwit, tx, i)).Some? }

  function SignedIn(s: Signer, segwit: bool, tx: TxData, i: nat): In
    requires i < |tx.ins| && CanSign(s, segwit, tx, i)
  {
    SignIn(tx.ins[i], SignatureFor(s, DigestOf(s, segwit, tx, i)).value, s.sec, segwit)
  }

  predicate CanSignAll(s: Signer, segwit: bool, tx: TxData) { forall i :: 0 <= i < |tx.ins| ==> CanSign(s, segwit, tx, i) }

  function SignedIns(s: Signer, segwit: bool, tx: TxData): (ins: seq<In>)
    requires CanSignAll(s, segwit, tx)
    ensures |ins| == |tx.ins| && forall i :: 0 <= i < |tx.ins| ==> ins[i] == SignedIn(s, segwit, tx, i)
  {
    seq(|tx.ins|, i requires 0 <= i < |tx.ins| && CanSign(s, segwit, tx, i) => SignedIn(s, segwit, tx, i))
  }

  /** The transaction with every input signed over its digest in the unsigned transaction. */
  function Finished(s: Signer, segwit: bool, tx: TxData): Option<TxData> {
    if CanSignAll(s, segwit, tx) then Some(tx.(ins := SignedIns(s, segwit, tx))) else None
  }

  function Serialized(segwit: bool, tx: TxData): Option<Bytes> { if segwit then SegwitBytes(tx) else LegacyBytes(tx) }

  function SignAndSerialize(s: Signer, segwit: bool, tx: TxData): Outcome {
    match Finished(s, segwit, tx)
    case None => Raised
    case Some(to) => match Serialized(segwit, to) case None => Raised case Some(b) => Signed(b)
  }

  function Sign(s: Signer, utxos: seq<Utxo>, balance: int, pay: Payment, sender: Address): Outcome {
    if pay.amount + pay.fee > balance then Refused
    else SignAndSerialize(s, sender.segwit, Unsigned(utxos, pay, sender))
  }

  // ----- what holds of every signed payment -----

  lemma FinishedUnsigned(s: Signer, segwit: bool, tx: TxData)
    requires Finished(s, segwit, tx).Some?
    ensures SameUnsignedTx(tx, Finished(s, segwit, tx).value)
  {
    var to := Finished(s, segwit, tx).value;
    forall i | 0 <= i < |tx.ins| ensures SameUnsigned(tx.ins[i], to.ins[i]) {
      assert to.ins[i] == SignedIn(s, segwit, tx, i);
    }
  }

  lemma DigestIgnoresSignatures(s: Signer, segwit: bool, x: TxData, y: TxData, i: nat)
    requires SameUnsignedTx(x, y)
    ensures DigestOf(s, segwit, x, i) == DigestOf(s, segwit, y, i)
  {
    if segwit {
      SegwitDigestIgnoresSignatures(s.hash, x, y, i, None, None);
    } else {
      LegacyDigestIgnoresSignatures(s.hash, x, y, i, None);
    }
  }

  /** Every input of the finished transaction carries the signature over its own digest on the finished transaction. */
  lemma SignaturesFitFinished(s: Signer, segwit: bool, tx: TxData, i: nat)
    requires Finished(s, segwit, tx).Some? && i < |tx.ins|
    ensures var to := Finished(s, segwit, tx).value; var sig := SignatureFor(s, DigestOf(s, segwit, to, i));
      && |to.ins| == |tx.ins| && sig.Some?
      && (segwit ==> to.ins[i].items == Some([Element(sig.value), Element(s.sec)])
                     && to.ins[i].scriptSig == tx.ins[i].scriptSig)
      && (!segwit ==> to.ins[i].scriptSig == [Push(sig.value), Push(s.sec)] && to.ins[i].items == tx.ins[i].items)
  {
    FinishedUnsigned(s, segwit, tx);
    DigestIgnoresSignatures(s, segwit, tx, Finished(s, segwit, tx).value, i);
    assert CanSign(s, segwit, tx, i);
  }

  function Paid(outs: seq<Out>): int { if outs == [] then 0 else Paid(outs[..|outs| - 1]) + outs[|outs| - 1].amount }

  lemma PaidSnoc(outs: seq<Out>, o: Out)
    ensures Paid(outs + [o]) == Paid(outs) + o.amount
  {
    assert (outs + [o])[..|outs|] == outs;
  }

  lemma OutputsBalance(value: int, pay: Payment, sender: Address)
    ensures Paid(Outputs(value, pay, sender)) == value - pay.fee
  {
    var change := value - pay.amount - pay.fee;
    var first := if change != 0 then [Out(change, PayTo(sender))] else [];
    PaidSnoc([], Out(change, PayTo(sender)));
    assert [] + [Out(change, PayTo(sender))] == [Out(change, PayTo(sender))];
    PaidSnoc(first, Out(pay.amount, PayTo(pay.receiver)));
    var two := first + [Out(pay.amount, PayTo(pay.receiver))];
    PaidSnoc(two, Out(0, [Op(OP_RETURN), Push(pay.memo)]));
    assert two + [] == two;
  }

  lemma NoneNegative(outs: seq<Out>)
    requires Concat(outs, OutBytes).Some?
    ensures forall k :: 0 <= k < |outs| ==> outs[k].amount >= 0
  {
    forall k | 0 <= k < |outs| ensures outs[k].amount >= 0 { ConcatParts(outs, OutBytes, k); }
  }

  /** The parts of a signed payment were all printed. */
  lemma SignedParts(s: Signer, utxos: seq<Utxo>, balance: int, pay: Payment, sender: Address) returns (to: TxData)
    requires Sign(s, utxos, balance, pay, sender).Signed?
    ensures Finished(s, sender.segwit, Unsigned(utxos, pay, sender)) == Some(to)
    ensures Serialized(sender.segwit, to) == Some(Sign(s, utxos, balance, pay, sender).bytes)
    ensures to.outs == Outputs(Sum(Spent(utxos, pay.amount + pay.fee)), pay, sender)
    ensures Concat(to.ins, InBytes).Some? && Concat(to.outs, OutBytes).Some?
    ensures sender.segwit ==> Concat(to.ins, WitnessBytes).Some?
  {
    to := Finished(s, sender.segwit, Unsigned(utxos, pay, sender)).value;
    SerializedParts(sender.segwit, to);
    UnsignedOutputs(s, utxos, pay, sender, Unsigned(utxos, pay, sender));
  }

  lemma UnsignedOutputs(s: Signer, utxos: seq<Utxo>, pay: Payment, sender: Address, tx: TxData)
    requires tx == Unsigned(utxos, pay, sender) && Finished(s, sender.segwit, tx).Some?
    ensures Finished(s, sender.segwit, tx).value.outs == Outputs(Sum(Spent(utxos, pay.amount + pay.fee)), pay, sender)
  {
  }

  lemma SerializedParts(segwit: bool, to: TxData)
    requires Serialized(segwit, to).Some?
    ensures Concat(to.ins, InBytes).Some? && Concat(to.outs, OutBytes).Some?
    ensures segwit ==> Concat(to.ins, WitnessBytes).Some?
  {
  }

  /** The outputs of a signed payment are worth its inputs minus the fee, and none of them, the change included, is
      negative. They are worth at most the inputs exactly if the fee is not negative, which nothing checks. */
  lemma PaymentBalances(s: Signer, utxos: seq<Utxo>, balance: int, pay: Payment, sender: Address)
    requires Sign(s, utxos, balance, pay, sender).Signed?
    ensures var spent := Sum(Spent(utxos, pay.amount + pay.fee)); var outs := Outputs(spent, pay, sender);
      && Paid(outs) == spent - pay.fee && spent >= pay.amount + pay.fee && pay.amount >= 0
      && (Paid(outs) <= spent <==> pay.fee >= 0)
      && forall k :: 0 <= k < |outs| ==> outs[k].amount >= 0
  {
    var to := SignedParts(s, utxos, balance, pay, sender);
    PrintedOutputsBalance(Sum(Spent(utxos, pay.amount + pay.fee)), pay, sender, to.outs);
  }

  lemma PrintedOutputsBalance(value: int, pay: Payment, sender: Address, outs: seq<Out>)
    requires outs == Outputs(value, pay, sender) && Concat(outs, OutBytes).Some?
    ensures Paid(outs) == value - pay.fee && value >= pay.amount + pay.fee && pay.amount >= 0
    ensures forall k :: 0 <= k < |outs| ==> outs[k].amount >= 0
  {
    NoneNegative(outs);
    OutputsBalance(value, pay, sender);
    FirstOutputs(value, pay, sender);
  }

  lemma FirstOutputs(value: int, pay: Payment, sender: Address)
    ensures var outs, change := Outputs(value, pay, sender), value - pay.amount - pay.fee;
      if change != 0 then |outs| >= 2 && outs[0].amount == change && outs[1].amount == pay.amount
      else |outs| >= 1 && outs[0].amount == pay.amount
  {
  }

  /** A commands list that prints and has no empty element and no announcing opcode reads back. */
  lemma PrintableReadsBack(cmds: seq<Cmd>)
    requires Serialize(cmds).Some?
    requires forall k :: 0 <= k < |cmds| ==> cmds[k] != Push([]) && (cmds[k].Op? ==> cmds[k].code == 0 || cmds[k].code >= 78)
    ensures AllReprintable(cmds)
  {
    SerializeExactly(cmds);
    NoEmptyElement(cmds);
  }

  predicate PlainOut(o: Out, pay: Payment, sender: Address) {
    o.scriptPubkey == PayTo(sender) || o.scriptPubkey == PayTo(pay.receiver)
    || (pay.memo != [] && o.scriptPubkey == [Op(OP_RETURN), Push(pay.memo)])
  }

  lemma OutputScripts(value: int, pay: Payment, sender: Address)
    ensures forall k :: 0 <= k < |Outputs(value, pay, sender)| ==> PlainOut(Outputs(value, pay, sender)[k], pay, sender)
  {
  }

  /** Addresses and keys that are not empty, and transaction ids of 32 bytes. */
  predicate Usual(s: Signer, utxos: seq<Utxo>, pay: Payment, sender: Address) {
    s.sec != [] && sender.hash != [] && pay.receiver.hash != [] && forall k :: 0 <= k < |utxos| ==> |utxos[k].txid| == 32
  }

  lemma OutputsReadable(s: Signer, utxos: seq<Utxo>, pay: Payment, sender: Address, to: TxData)
    requires Usual(s, utxos, pay, sender) && Concat(to.outs, OutBytes).Some? && to.outs == Unsigned(utxos, pay, sender).outs
    ensures forall k :: 0 <= k < |to.outs| ==> AllReprintable(to.outs[k].scriptPubkey)
  {
    OutputScripts(Sum(Spent(utxos, pay.amount + pay.fee)), pay, sender);
    forall k | 0 <= k < |to.outs| ensures AllReprintable(to.outs[k].scriptPubkey) {
      ConcatParts(to.outs, OutBytes, k);
      PlainOutReadsBack(to.outs[k], pay, sender);
    }
  }

  lemma PlainOutReadsBack(o: Out, pay: Payment, sender: Address)
    requires PlainOut(o, pay, sender) && OutBytes(o).Some? && sender.hash != [] && pay.receiver.hash != []
    ensures AllReprintable(o.scriptPubkey)
  {
    PrintableReadsBack(o.scriptPubkey);
  }

  lemma InputsReadable(s: Signer, utxos: seq<Utxo>, pay: Payment, sender: Address, to: TxData)
    requires Usual(s, utxos, pay, sender) && Concat(to.ins, InBytes).Some?
    requires Finished(s, sender.segwit, Unsigned(utxos, pay, sender)) == Some(to)
    ensures forall k :: 0 <= k < |to.ins| ==>
      ReadableIn(to.ins[k]) && to.ins[k].sequence == MAX_SEQUENCE && (sender.segwit ==> ReadableWitness(to.ins[k]))
  {
    var tx := Unsigned(utxos, pay, sender);
    forall k | 0 <= k < |to.ins|
      ensures ReadableIn(to.ins[k]) && to.ins[k].sequence == MAX_SEQUENCE && (sender.segwit ==> ReadableWitness(to.ins[k]))
    {
      assert to.ins[k] == SignedIn(s, sender.segwit, tx, k) && CanSign(s, sender.segwit, tx, k);
      ConcatParts(to.ins, InBytes, k);
      SignedInReadsBack(utxos[k], sender, SignatureFor(s, DigestOf(s, sender.segwit, tx, k)).value, s.sec);
    }
  }

  lemma SignedInReadsBack(u: Utxo, sender: Address, sig: Bytes, sec: Bytes)
    requires |u.txid| == 32 && sig != [] && sec != [] && InBytes(SignIn(InputOf(u, sender), sig, sec, sender.segwit)).Some?
    ensures var i := SignIn(InputOf(u, sender), sig, sec, sender.segwit);
      ReadableIn(i) && i.sequence == MAX_SEQUENCE && (sender.segwit ==> ReadableWitness(i))
  {
    PrintableReadsBack(SignIn(InputOf(u, sender), sig, sec, sender.segwit).scriptSig);
  }

  /** What is broadcast parses back, in the format of the sender, to the finished transaction, whatever follows it. */
  lemma BroadcastReadsBack(s: Signer, utxos: seq<Utxo>, balance: int, pay: Payment, sender: Address, rest: Bytes)
    requires Sign(s, utxos, balance, pay, sender).Signed? && Usual(s, utxos, pay, sender)
    ensures Finished(s, sender.segwit, Unsigned(utxos, pay, sender)).Some?
    ensures var to := Finished(s, sender.segwit, Unsigned(utxos, pay, sender)).value;
      && Serialized(sender.segwit, to) == Some(Sign(s, utxos, balance, pay, sender).bytes)
      && (sender.segwit ==> SegwitSurvives(to, rest)) && (!sender.segwit ==> LegacySurvives(to, rest))
  {
    var to := SignedParts(s, utxos, balance, pay, sender);
    OutputsReadable(s, utxos, pay, sender, to);
    InputsReadable(s, utxos, pay, sender, to);
    if sender.segwit {
      SegwitBytesExactly(to);
      SegwitExactly(to, rest);
    } else {
      LegacyBytesExactly(to);
      LegacyExactly(to, rest);
    }
  }

  // ----- who is paid -----

  /** One output of the amount to the receiver; in front of it, if the inputs are worth more than amount and fee, one of
      the difference to the sender; behind it, if there is a memo, one of nothing that carries it; and no others. */
  predicate PaysAsAsked(outs: seq<Out>, value: int, pay: Payment, sender: Address) {
    var change := value - pay.amount - pay.fee;
    var n := if change > 0 then 1 else 0;
    && change >= 0
    && |outs| == n + 1 + (if pay.memo != [] then 1 else 0)
    && (change > 0 ==> outs[0].amount == change && outs[0].scriptPubkey == PayTo(sender))
    && outs[n].amount == pay.amount && outs[n].scriptPubkey == PayTo(pay.receiver)
    && (pay.memo != [] ==> outs[n + 1].amount == 0 && outs[n + 1].scriptPubkey == [Op(OP_RETURN), Push(pay.memo)])
  }

  /** The inputs are those of the spent outputs, in their order. */
  predicate SpendsAsGiven(ins: seq<In>, spent: seq<Utxo>) {
    |ins| == |spent| && forall k :: 0 <= k < |ins| ==> ins[k].prevTx == spent[k].txid && ins[k].prevIndex == spent[k].vout
  }

  /** A payment is refused exactly if the balance does not cover it; whatever goes wrong later raises. */
  lemma RefusedExactly(s: Signer, utxos: seq<Utxo>, balance: int, pay: Payment, sender: Address)
    ensures Sign(s, utxos, balance, pay, sender).Refused? <==> pay.amount + pay.fee > balance
  {
  }

  lemma OutputsAsAsked(value: int, pay: Payment, sender: Address, outs: seq<Out>)
    requires outs == Outputs(value, pay, sender) && value >= pay.amount + pay.fee
    ensures PaysAsAsked(outs, value, pay, sender)
  {
  }

  lemma InputsAsGiven(s: Signer, spent: seq<Utxo>, sender: Address, tx: TxData, to: TxData)
    requires tx.ins == Inputs(spent, sender) && Finished(s, sender.segwit, tx) == Some(to)
    ensures SpendsAsGiven(to.ins, spent)
    ensures forall k :: 0 <= k < |to.ins| ==> to.ins[k].amount == spent[k].sats && to.ins[k].sequence == MAX_SEQUENCE
  {
    forall k | 0 <= k < |spent|
      ensures to.ins[k].prevTx == spent[k].txid && to.ins[k].prevIndex == spent[k].vout
      ensures to.ins[k].amount == spent[k].sats && to.ins[k].sequence == MAX_SEQUENCE
    {
      assert to.ins[k] == SignedIn(s, sender.segwit, tx, k) && CanSign(s, sender.segwit, tx, k);
    }
  }

  /** What is serialized for a signed payment spends the spent outputs and pays as asked. */
  lemma SignedPays(s: Signer, utxos: seq<Utxo>, balance: int, pay: Payment, sender: Address) returns (to: TxData)
    requires Sign(s, utxos, balance, pay, sender).Signed?
    ensures Serialized(sender.segwit, to) == Some(Sign(s, utxos, balance, pay, sender).bytes)
    ensures Finished(s, sender.segwit, Unsigned(utxos, pay, sender)) == Some(to)
    ensures to.version == 1 && to.locktime == 0 && SpendsAsGiven(to.ins, Spent(utxos, pay.amount + pay.fee))
    ensures forall k :: 0 <= k < |to.ins| ==>
      to.ins[k].amount == Spent(utxos, pay.amount + pay.fee)[k].sats && to.ins[k].sequence == MAX_SEQUENCE
    ensures PaysAsAsked(to.outs, Sum(Spent(utxos, pay.amount + pay.fee)), pay, sender)
  {
    var spent := Spent(utxos, pay.amount + pay.fee);
    to := SignedParts(s, utxos, balance, pay, sender);
    var tx, outs := Unsigned(utxos, pay, sender), Outputs(Sum(spent), pay, sender);
    UnsignedIs(utxos, pay, sender, spent, outs, tx);
    FinishedPays(s, spent, pay, sender, outs, tx, to);
  }

  lemma UnsignedIs(utxos: seq<Utxo>, pay: Payment, sender: Address, spent: seq<Utxo>, outs: seq<Out>, tx: TxData)
    requires spent == Spent(utxos, pay.amount + pay.fee) && outs == Outputs(Sum(spent), pay, sender)
    requires tx == Unsigned(utxos, pay, sender)
    ensures tx == TxData(1, Inputs(spent, sender), outs, 0)
  {
  }

  lemma FinishedPays(s: Signer, spent: seq<Utxo>, pay: Payment, sender: Address, outs: seq<Out>, tx: TxData, to: TxData)
    requires tx == TxData(1, Inputs(spent, sender), outs, 0) && outs == Outputs(Sum(spent), pay, sender)
    requires Finished(s, sender.segwit, tx) == Some(to) && Concat(to.outs, OutBytes).Some?
    ensures to.version == 1 && to.locktime == 0 && SpendsAsGiven(to.ins, spent)
    ensures forall k :: 0 <= k < |to.ins| ==> to.ins[k].amount == spent[k].sats && to.ins[k].sequence == MAX_SEQUENCE
    ensures PaysAsAsked(to.outs, Sum(spent), pay, sender)
  {
    InputsAsGiven(s, spent, sender, tx, to);
    PrintedOutputsBalance(Sum(spent), pay, sender, outs);
    OutputsAsAsked(Sum(spent), pay, sender, outs);
  }

  /** So does the transaction that the broadcast bytes are read as, whatever follows them. */
  lemma BroadcastPays(s: Signer, utxos: seq<Utxo>, balance: int, pay: Payment, sender: Address, rest: Bytes)
    returns (parsed: TxData)
    requires Sign(s, utxos, balance, pay, sender).Signed? && Usual(s, utxos, pay, sender)
    ensures var b := Sign(s, utxos, balance, pay, sender).bytes + rest;
      (if sender.segwit then ReadSegwit(b) else ReadLegacy(b)) == Some((parsed, rest))
    ensures parsed.version == 1 && parsed.locktime == 0
    ensures SpendsAsGiven(parsed.ins, Spent(utxos, pay.amount + pay.fee))
    ensures PaysAsAsked(parsed.outs, Sum(Spent(utxos, pay.amount + pay.fee)), pay, sender)
  {
    var to := SignedPays(s, utxos, balance, pay, sender);
    BroadcastReadsBack(s, utxos, balance, pay, sender, rest);
    parsed := ReadAs(sender.segwit, to, rest);
    SameSpent(parsed, to, Spent(utxos, pay.amount + pay.fee));
  }

  lemma ReadAs(segwit: bool, to: TxData, rest: Bytes) returns (parsed: TxData)
    requires Serialized(segwit, to).Some? && if segwit then SegwitSurvives(to, rest) else LegacySurvives(to, rest)
    ensures var b := Serialized(segwit, to).value + rest;
      (if segwit then ReadSegwit(b) else ReadLegacy(b)) == Some((parsed, rest))
    ensures SameFields(parsed, to)
  {
    var b := Serialized(segwit, to).value + rest;
    parsed := (if segwit then ReadSegwit(b) else ReadLegacy(b)).value.0;
  }

  lemma SameSpent(x: TxData, y: TxData, spent: seq<Utxo>)
    requires SameFields(x, y) && SpendsAsGiven(y.ins, spent)
    ensures SpendsAsGiven(x.ins, spent)
  {
    forall k | 0 <= k < |x.ins| ensures x.ins[k].prevTx == spent[k].txid && x.ins[k].prevIndex == spent[k].vout {
      assert SameInput(x.ins[k], y.ins[k]);
    }
  }

  /** A payment is signed exactly if the balance covers it, every input can be signed, and every field of the finished
      transaction, the change above all, is in range. */
  lemma SignedExactly(s: Signer, utxos: seq<Utxo>, balance: int, pay: Payment, sender: Address)
    ensures var tx := Unsigned(utxos, pay, sender);
      Sign(s, utxos, balance, pay, sender).Signed? <==>
      pay.amount + pay.fee <= balance && CanSignAll(s, sender.segwit, tx)
      && InRange(Finished(s, sender.segwit, tx).value)
      && (sender.segwit ==> WitnessesInRange(Finished(s, sender.segwit, tx).value))
  {
    var tx := Unsigned(utxos, pay, sender);
    if CanSignAll(s, sender.segwit, tx) {
      LegacyBytesExactly(Finished(s, sender.segwit, tx).value);
      SegwitBytesExactly(Finished(s, sender.segwit, tx).value);
    }
  }

  // ----- the source's loops -----

  lemma OneMoreInput(utxos: seq<Utxo>, n: nat, sender: Address)
    requires n < |utxos|
    ensures Inputs(utxos[..n + 1], sender) == Inputs(utxos[..n], sender) + [InputOf(utxos[n], sender)]
    ensures Sum(utxos[..n + 1]) == Sum(utxos[..n]) + utxos[n].sats
  {
    assert utxos[..n + 1][..n] == utxos[..n];
  }

  /** Takes unspent outputs in order until they cover the need. */
  method SelectInputs(utxos: seq<Utxo>, need: int, sender: Address) returns (ins: seq<TxIn>, value: int)
    ensures fresh(ins) && Distinct(ins)
    ensures Datas(ins) == Inputs(Spent(utxos, need), sender) && value == Sum(Spent(utxos, need))
  {
    ins, value := [], 0;
    ghost var made: set<TxIn> := {};
    ghost var n := 0;
    for i := 0 to |utxos|
      invariant n == i && fresh(made) && AllIn(ins, made) && Distinct(ins)
      invariant Datas(ins) == Inputs(utxos[..i], sender) && value == Sum(utxos[..i])
      invariant Choose(utxos, i, need) == Choose(utxos, 0, need)
    {
      OneMoreInput(utxos, i, sender);
      ghost var before := Datas(ins);
      var u := utxos[i];
      var next := new TxIn(u.txid, u.vout, [], ScriptOf(PayTo(sender)), u.sats, MAX_SEQUENCE);
      assert Datas(ins) == before;
      OneMoreIn(ins, made, next);
      made := made + {next};
      ins := ins + [next];
      value := value + u.sats;
      n := n + 1;
      if value >= need { break; }
    }
    assert forall i <- ins :: i in made;
  }

  /** The first n inputs are signed, the others untouched. */
  ghost predicate SignedUpTo(s: Signer, segwit: bool, tx: TxData, now: seq<In>, n: nat) {
    |now| == |tx.ins|
    && forall k :: 0 <= k < |now| ==>
         if k < n then CanSign(s, segwit, tx, k) && now[k] == SignedIn(s, segwit, tx, k) else now[k] == tx.ins[k]
  }

  lemma SignedUpToSame(s: Signer, segwit: bool, tx: TxData, now: TxData, n: nat)
    requires SignedUpTo(s, segwit, tx, now.ins, n) && now == tx.(ins := now.ins)
    ensures SameUnsignedTx(tx, now)
  {
    forall k | 0 <= k < |tx.ins| ensures SameUnsigned(tx.ins[k], now.ins[k]) {
      assert k < n || now.ins[k] == tx.ins[k];
    }
  }

  lemma InputHashesSame(s: Signer, segwit: bool, tx: TxData, now: seq<In>, n: nat)
    requires SignedUpTo(s, segwit, tx, now, n)
    ensures InputHashes(s.hash, now) == InputHashes(s.hash, tx.ins)
  {
    SignedUpToSame(s, segwit, tx, tx.(ins := now), n);
    SegwitDigestIgnoresSignatures(s.hash, tx.(ins := now), tx, 0, None, None);
  }

  lemma AllSigned(s: Signer, segwit: bool, tx: TxData, now: seq<In>)
    requires SignedUpTo(s, segwit, tx, now, |tx.ins|)
    ensures Finished(s, segwit, tx) == Some(tx.(ins := now))
  {
    assert CanSignAll(s, segwit, tx);
    assert SignedIns(s, segwit, tx) == now;
  }

  /** Writing one signature into its input. */
  method WriteSignature(ins: seq<TxIn>, n: nat, sig: Bytes, sec: Bytes, segwit: bool)
    requires n < |ins| && Distinct(ins)
    modifies ins
    ensures Datas(ins) == old(Datas(ins))[n := SignIn(old(Datas(ins))[n], sig, sec, segwit)]
  {
    if segwit {
      ins[n].items := Some([Element(sig), Element(sec)]);
    } else {
      ins[n].scriptSig := [Push(sig), Push(sec)];
    }
  }

  lemma OneMoreSigned(s: Signer, segwit: bool, tx: TxData, now: seq<In>, n: nat)
    requires SignedUpTo(s, segwit, tx, now, n) && n < |now| && CanSign(s, segwit, tx, n)
    ensures SignedUpTo(s, segwit, tx, now[n := SignedIn(s, segwit, tx, n)], n + 1)
  {
  }

  /** The digest of an input of the transaction as it stands, partly signed, is its digest on the unsigned one. */
  method DigestNow(s: Signer, segwit: bool, tx: Tx, n: nat, ghost unsigned: TxData) returns (z: Option<nat>)
    requires n < |tx.txIns| && tx.CachesValid(s.hash) && SameUnsignedTx(unsigned, tx.Data())
    modifies tx
    ensures tx.CachesValid(s.hash) && z == DigestOf(s, segwit, unsigned, n)
  {
    DigestIgnoresSignatures(s, segwit, unsigned, tx.Data(), n);
    if segwit {
      z := tx.SignatureHashBip143(s.hash, n, None, None);
    } else {
      z := tx.SignatureHash(s.hash, n, None);
    }
  }

  /** One pass of a signing loop. */
  method SignNth(s: Signer, segwit: bool, tx: Tx, n: nat, ghost unsigned: TxData) returns (ok: bool)
    requires n < |tx.txIns| && Distinct(tx.txIns) && tx.CachesValid(s.hash)
    requires SignedUpTo(s, segwit, unsigned, Datas(tx.txIns), n) && tx.Data() == unsigned.(ins := Datas(tx.txIns))
    modifies tx, tx.txIns
    ensures tx.CachesValid(s.hash) && tx.Data() == unsigned.(ins := Datas(tx.txIns))
    ensures ok <==> CanSign(s, segwit, unsigned, n)
    ensures ok ==> SignedUpTo(s, segwit, unsigned, Datas(tx.txIns), n + 1)
  {
    ghost var before := tx.Data();
    SignedUpToSame(s, segwit, unsigned, before, n);
    var z := DigestNow(s, segwit, tx, n, unsigned);
    var sig := SignatureFor(s, z);
    if sig.None? { return false; }
    WriteSignature(tx.txIns, n, sig.value, s.sec, segwit);
    OneMoreSigned(s, segwit, unsigned, before.ins, n);
    InputHashesSame(s, segwit, unsigned, before.ins, n);
    InputHashesSame(s, segwit, unsigned, Datas(tx.txIns), n + 1);
    ok := true;
  }

  /** The signing loops; the transaction ends up finished. */
  method SignAll(s: Signer, segwit: bool, tx: Tx) returns (ok: bool)
    requires Distinct(tx.txIns) && tx.CachesValid(s.hash)
    modifies tx, tx.txIns
    ensures Finished(s, segwit, old(tx.Data())) == if ok then Some(tx.Data()) else None
  {
    ghost var unsigned := tx.Data();
    for i := 0 to |tx.txIns|
      invariant tx.CachesValid(s.hash) && tx.Data() == unsigned.(ins := Datas(tx.txIns))
      invariant SignedUpTo(s, segwit, unsigned, Datas(tx.txIns), i)
    {
      var more := SignNth(s, segwit, tx, i, unsigned);
      if !more {
        assert !CanSign(s, segwit, unsigned, i);
        return false;
      }
    }
    AllSigned(s, segwit, unsigned, Datas(tx.txIns));
    ok := true;
  }

  method Build(utxos: seq<Utxo>, pay: Payment, sender: Address) returns (tx: Tx)
    ensures fresh(tx) && fresh(tx.txIns) && Distinct(tx.txIns) && tx.Data() == Unsigned(utxos, pay, sender)
    ensures forall h :: tx.CachesValid(h)
  {
    var ins, value := SelectInputs(utxos, pay.amount + pay.fee, sender);
    tx := new Tx(1, ins, Outputs(value, pay, sender), 0);
  }

  method SignObject(s: Signer, segwit: bool, tx: Tx) returns (r: Outcome)
    requires Distinct(tx.txIns) && tx.CachesValid(s.hash)
    modifies tx, tx.txIns
    ensures r == SignAndSerialize(s, segwit, old(tx.Data()))
  {
    var ok := SignAll(s, segwit, tx);
    if !ok { return Raised; }
    var bytes := SerializeAs(segwit, tx);
    r := if bytes.None? then Raised else Signed(bytes.value);
  }

  /** SignTransaction: the transaction it builds and signs in place is the finished one, and it is serialized. */
  method SignTransaction(s: Signer, utxos: seq<Utxo>, balance: int, pay: Payment, sender: Address) returns (r: Outcome)
    ensures r == Sign(s, utxos, balance, pay, sender)
  {
    if pay.amount + pay.fee > balance { return Refused; }
    var tx := Build(utxos, pay, sender);
    r := SignObject(s, sender.segwit, tx);
  }

  method SerializeAs(segwit: bool, tx: Tx) returns (r: Option<Bytes>)
    ensures r == Serialized(segwit, tx.Data())
  {
    if segwit {
      r := tx.SerializeSegwit();
    } else {
      r := tx.SerializeLegacy();
    }
  }
}
