/** Which payments bitcoin_interface.py: SignTransaction can sign, told from its inputs: unspent outputs, amounts, memo
    and decoded addresses. */
module Payable {
  import opened Prelude
  import opened Positional
  import opened Stream
  import opened Script
  import opened TxCodec
  import opened SigHash
  import opened Wallet

  /** A byte string that can be printed as an element. */
  predicate Fits(data: Bytes) { |data| < 75 || 76 <= |data| <= 520 }

  // ----- scripts -----

  lemma {:induction false} LengthBound(cmds: seq<Cmd>)
    requires AllPrintable(cmds)
    ensures PrintedLength(cmds) <= 523 * |cmds|
  {
    if cmds != [] {
      AllPrintableSplit(cmds);
      LengthBound(cmds[1..]);
    }
  }

  /** Short scripts are in range if their elements can be printed. */
  lemma ShortScript(cmds: seq<Cmd>)
    requires |cmds| <= 5
    ensures ScriptInRange(cmds) <==> forall k :: 0 <= k < |cmds| && cmds[k].Push? ==> Fits(cmds[k].data)
  {
    if AllPrintable(cmds) { LengthBound(cmds); }
    if forall k :: 0 <= k < |cmds| && cmds[k].Push? ==> Fits(cmds[k].data) {
      forall k | 0 <= k < |cmds| ensures Printable(cmds[k]) { }
    }
    if ScriptInRange(cmds) {
      forall k | 0 <= k < |cmds| && cmds[k].Push? ensures Fits(cmds[k].data) { assert Printable(cmds[k]); }
    }
  }

  lemma KeyHashScript(h: Bytes)
    ensures ScriptInRange(P2pkh(Push(h))) <==> Fits(h)
    ensures ScriptInRange(P2wpkh(h)) <==> Fits(h)
  {
    ShortScript(P2pkh(Push(h)));
    ShortScript(P2wpkh(h));
    assert P2pkh(Push(h))[2] == Push(h) && P2wpkh(h)[1] == Push(h);
  }

  lemma PayToExactly(a: Address)
    ensures ScriptInRange(PayTo(a)) <==> Fits(a.hash)
  {
    KeyHashScript(a.hash);
  }

  lemma MemoExactly(memo: Bytes)
    ensures ScriptInRange([Op(OP_RETURN), Push(memo)]) <==> Fits(memo)
  {
    var cmds := [Op(OP_RETURN), Push(memo)];
    ShortScript(cmds);
    assert cmds[1] == Push(memo);
  }

  lemma TwoPushes(sig: Bytes, sec: Bytes)
    ensures ScriptInRange([Push(sig), Push(sec)]) <==> Fits(sig) && Fits(sec)
  {
    var cmds := [Push(sig), Push(sec)];
    ShortScript(cmds);
    assert cmds[0] == Push(sig) && cmds[1] == Push(sec);
  }

  lemma NoCommands()
    ensures ScriptInRange([])
  {
  }

  // ----- outputs -----

  /** The change, if there is any, the amount and the memo, if there is one, can be paid out. */
  predicate OutputsFit(value: int, pay: Payment, sender: Address) {
    var change := value - pay.amount - pay.fee;
    0 <= change < LENGTH_LIMIT && (change != 0 ==> Fits(sender.hash))
    && 0 <= pay.amount < LENGTH_LIMIT && Fits(pay.receiver.hash) && Fits(pay.memo)
  }

  lemma OutputsExactly(value: int, pay: Payment, sender: Address, outs: seq<Out>)
    requires outs == Outputs(value, pay, sender)
    ensures (forall k :: 0 <= k < |outs| ==> OutInRange(outs[k])) <==> OutputsFit(value, pay, sender)
  {
    var change := value - pay.amount - pay.fee;
    PayToExactly(sender);
    PayToExactly(pay.receiver);
    MemoExactly(pay.memo);
    var first, second, third := Out(change, PayTo(sender)), Out(pay.amount, PayTo(pay.receiver)),
      Out(0, [Op(OP_RETURN), Push(pay.memo)]);
    Listed(outs, if change != 0 then [first] else [], second, if pay.memo != [] then [third] else []);
  }

  lemma Listed(outs: seq<Out>, front: seq<Out>, middle: Out, back: seq<Out>)
    requires outs == front + [middle] + back && |front| <= 1 && |back| <= 1
    ensures (forall k :: 0 <= k < |outs| ==> OutInRange(outs[k])) <==>
            (front != [] ==> OutInRange(front[0])) && OutInRange(middle) && (back != [] ==> OutInRange(back[0]))
  {
    assert outs[|front|] == middle;
    if front != [] { assert outs[0] == front[0]; }
    if back != [] { assert outs[|front| + 1] == back[0]; }
  }

  // ----- what can be signed -----

  predicate OutpointFits(u: Utxo) { 0 <= u.vout < LIMIT32 }

  /** The segwit digest shows the amount an input spends, the legacy one does not. */
  predicate AmountFits(u: Utxo, segwit: bool) { segwit ==> 0 <= u.sats < LENGTH_LIMIT }

  /** The payment as the source is given it has digests and can be written, signatures apart. */
  predicate Payable(utxos: seq<Utxo>, pay: Payment, sender: Address) {
    var spent := Spent(utxos, pay.amount + pay.fee);
    SpentFit(spent, sender) && OutputsFit(Sum(spent), pay, sender)
  }

  predicate SpentFit(spent: seq<Utxo>, sender: Address) {
    |spent| < LENGTH_LIMIT && (spent != [] ==> Fits(sender.hash))
    && forall k :: 0 <= k < |spent| ==> OutpointFits(spent[k]) && AmountFits(spent[k], sender.segwit)
  }

  // ----- the legacy digest -----

  lemma {:induction false} ShownExactly(ins: seq<In>, from: nat, index: int)
    requires from <= |ins|
    ensures ShownInputs(ins, from, index, None).Some? <==>
            forall k :: from <= k < |ins| ==> ShownBytes(ins[k], k == index, None).Some?
    decreases |ins| - from
  {
    if from < |ins| { ShownExactly(ins, from + 1, index); }
  }

  lemma ShownInput(u: Utxo, sender: Address, signed: bool)
    ensures ShownBytes(InputOf(u, sender), signed, None).Some? <==> OutpointFits(u) && (signed ==> Fits(sender.hash))
  {
    var cmds := if signed then PayTo(sender) else [];
    PayToExactly(sender);
    NoCommands();
    InBytesExactly(In(u.txid, u.vout, cmds, NoScript, 0, MAX_SEQUENCE, None));
  }

  lemma ShownAll(spent: seq<Utxo>, sender: Address, index: nat)
    requires index < |spent|
    ensures ShownInputs(Inputs(spent, sender), 0, index, None).Some? <==>
            (forall k :: 0 <= k < |spent| ==> OutpointFits(spent[k])) && Fits(sender.hash)
  {
    var ins := Inputs(spent, sender);
    ShownExactly(ins, 0, index);
    forall k | 0 <= k < |spent|
      ensures ShownBytes(ins[k], k == index, None).Some? <==> OutpointFits(spent[k]) && (k == index ==> Fits(sender.hash))
    {
      ShownInput(spent[k], sender, k == index);
    }
    if ShownInputs(ins, 0, index, None).Some? { assert ShownBytes(ins[index], true, None).Some?; }
  }

  lemma SmallNumbers()
    ensures ToLittle(1, 4).Some? && ToLittle(0, 4).Some?
  {
    LittleRanges(1);
    LittleRanges(0);
  }

  lemma OutputBytesExactly(outs: seq<Out>)
    ensures Concat(outs, OutBytes).Some? <==> forall k :: 0 <= k < |outs| ==> OutInRange(outs[k])
  {
    ListsExactly(TxData(0, [], outs, 0));
  }

  lemma LegacyExactly(h: Hash, spent: seq<Utxo>, sender: Address, outs: seq<Out>, index: nat)
    requires index < |spent| && |outs| <= 3
    ensures LegacyDigest(h, TxData(1, Inputs(spent, sender), outs, 0), index, None).Some? <==>
            |spent| < LENGTH_LIMIT && (forall k :: 0 <= k < |spent| ==> OutpointFits(spent[k])) && Fits(sender.hash)
            && forall k :: 0 <= k < |outs| ==> OutInRange(outs[k])
  {
    SmallNumbers();
    ShownAll(spent, sender, index);
    OutputBytesExactly(outs);
  }

  // ----- the segwit digest -----

  lemma OutpointsExactly(spent: seq<Utxo>, sender: Address)
    ensures Concat(Inputs(spent, sender), OutpointBytes).Some? <==>
            forall k :: 0 <= k < |spent| ==> OutpointFits(spent[k])
    ensures Concat(Inputs(spent, sender), SequenceBytes).Some?
  {
    var ins := Inputs(spent, sender);
    ConcatExactly(ins, OutpointBytes);
    ConcatExactly(ins, SequenceBytes);
    forall k | 0 <= k < |ins|
      ensures (OutpointBytes(ins[k]).Some? <==> OutpointFits(spent[k])) && SequenceBytes(ins[k]).Some?
    {
      LittleRanges(ins[k].prevIndex);
      LittleRanges(ins[k].sequence);
    }
  }

  lemma SignedPartExactly(u: Utxo, sender: Address)
    requires sender.segwit
    ensures SignedPart(InputOf(u, sender), None, None).Some? <==>
            OutpointFits(u) && AmountFits(u, true) && Fits(sender.hash)
  {
    LittleRanges(u.vout);
    LittleRanges(u.sats);
    LittleRanges(MAX_SEQUENCE);
    KeyHashScript(sender.hash);
    SerializeExactly(P2pkh(Push(sender.hash)));
    assert PayTo(sender)[1] == Push(sender.hash);
  }

  lemma SegwitDigestExactly(h: Hash, spent: seq<Utxo>, sender: Address, outs: seq<Out>, index: nat)
    requires index < |spent| && sender.segwit
    ensures SegwitDigest(h, TxData(1, Inputs(spent, sender), outs, 0), index, None, None).Some? <==>
            (forall k :: 0 <= k < |spent| ==> OutpointFits(spent[k])) && AmountFits(spent[index], true)
            && Fits(sender.hash) && forall k :: 0 <= k < |outs| ==> OutInRange(outs[k])
  {
    SmallNumbers();
    OutpointsExactly(spent, sender);
    SignedPartExactly(spent[index], sender);
    OutputBytesExactly(outs);
  }

  // ----- the whole payment -----

  /** What an input must be like for its digest, besides the outputs. */
  predicate DigestReady(spent: seq<Utxo>, sender: Address, i: nat)
    requires i < |spent|
  {
    (!sender.segwit ==> |spent| < LENGTH_LIMIT) && (forall k :: 0 <= k < |spent| ==> OutpointFits(spent[k]))
    && AmountFits(spent[i], sender.segwit) && Fits(sender.hash)
  }

  lemma DigestExactly(s: Signer, spent: seq<Utxo>, sender: Address, outs: seq<Out>, tx: TxData, i: nat)
    requires tx == TxData(1, Inputs(spent, sender), outs, 0) && |outs| <= 3 && i < |spent|
    ensures DigestOf(s, sender.segwit, tx, i).Some? <==>
            DigestReady(spent, sender, i) && forall k :: 0 <= k < |outs| ==> OutInRange(outs[k])
  {
    if sender.segwit {
      SegwitDigestExactly(s.hash, spent, sender, outs, i);
    } else {
      LegacyExactly(s.hash, spent, sender, outs, i);
    }
  }

  /** The signature for a digest can be made and written into its input. */
  predicate SignatureFits(s: Signer, segwit: bool, z: Option<nat>) {
    z.Some? && s.der(z.value).Some?
    && var sig := s.der(z.value).value + [1];
       if segwit then |sig| < LENGTH_LIMIT && |s.sec| < LENGTH_LIMIT else Fits(sig) && Fits(s.sec)
  }

  /** A signed input can be serialized. */
  predicate Written(i: In, segwit: bool) { InInRange(i) && (segwit ==> WitnessInRange(i)) }

  lemma SignedInExactly(s: Signer, sender: Address, u: Utxo, z: Option<nat>)
    requires SignatureFor(s, z).Some?
    ensures Written(SignIn(InputOf(u, sender), SignatureFor(s, z).value, s.sec, sender.segwit), sender.segwit) <==>
            OutpointFits(u) && SignatureFits(s, sender.segwit, z)
  {
    var sig := SignatureFor(s, z).value;
    TwoPushes(sig, s.sec);
    NoCommands();
    if sender.segwit {
      var items := [Element(sig), Element(s.sec)];
      assert items[0] == Element(sig) && items[1] == Element(s.sec);
    }
  }

  lemma WrittenTogether(to: TxData, segwit: bool)
    requires to.version == 1 && to.locktime == 0 && |to.outs| <= 3
    ensures InRange(to) && (segwit ==> WitnessesInRange(to)) <==>
      |to.ins| < LENGTH_LIMIT && (forall i :: 0 <= i < |to.ins| ==> Written(to.ins[i], segwit))
      && forall k :: 0 <= k < |to.outs| ==> OutInRange(to.outs[k])
  {
    if InRange(to) && (segwit ==> WitnessesInRange(to)) {
      forall i | 0 <= i < |to.ins| ensures Written(to.ins[i], segwit) {
        assert InInRange(to.ins[i]) && (segwit ==> WitnessInRange(to.ins[i]));
      }
    }
    if forall i :: 0 <= i < |to.ins| ==> Written(to.ins[i], segwit) {
      forall i | 0 <= i < |to.ins| ensures InInRange(to.ins[i]) && (segwit ==> WitnessInRange(to.ins[i])) {
        assert Written(to.ins[i], segwit);
      }
    }
  }

  /** Input number i can be signed and then written. */
  predicate Signable(s: Signer, spent: seq<Utxo>, sender: Address, tx: TxData, i: nat)
    requires i < |spent|
  {
    OutpointFits(spent[i]) && SignatureFits(s, sender.segwit, DigestOf(s, sender.segwit, tx, i))
  }

  lemma AtMostThree(value: int, pay: Payment, sender: Address)
    ensures |Outputs(value, pay, sender)| <= 3
  {
  }

  lemma FinishedExactly(s: Signer, spent: seq<Utxo>, sender: Address, outs: seq<Out>, tx: TxData, to: TxData)
    requires tx == TxData(1, Inputs(spent, sender), outs, 0) && |outs| <= 3
    requires Finished(s, sender.segwit, tx) == Some(to)
    ensures InRange(to) && (sender.segwit ==> WitnessesInRange(to)) <==>
      SpentFit(spent, sender) && (forall k :: 0 <= k < |outs| ==> OutInRange(outs[k]))
      && forall i :: 0 <= i < |tx.ins| ==> SignatureFits(s, sender.segwit, DigestOf(s, sender.segwit, tx, i))
  {
    WrittenTogether(to, sender.segwit);
    assert |to.ins| == |spent| && to.outs == outs;
    forall i | 0 <= i < |spent|
      ensures (Written(to.ins[i], sender.segwit) <==> Signable(s, spent, sender, tx, i))
      ensures AmountFits(spent[i], sender.segwit) && Fits(sender.hash)
    {
      FinishedInput(s, spent, sender, outs, tx, to, i);
    }
    AllSignable(s, spent, sender, tx);
    assert (forall i :: 0 <= i < |to.ins| ==> Written(to.ins[i], sender.segwit)) <==>
           (forall i :: 0 <= i < |spent| ==> Signable(s, spent, sender, tx, i));
    if spent != [] { FinishedInput(s, spent, sender, outs, tx, to, 0); }
  }

  lemma AllSignable(s: Signer, spent: seq<Utxo>, sender: Address, tx: TxData)
    requires |tx.ins| == |spent|
    ensures (forall i :: 0 <= i < |spent| ==> Signable(s, spent, sender, tx, i)) <==>
      (forall i :: 0 <= i < |spent| ==> OutpointFits(spent[i]))
      && forall i :: 0 <= i < |tx.ins| ==> SignatureFits(s, sender.segwit, DigestOf(s, sender.segwit, tx, i))
  {
    if forall i :: 0 <= i < |spent| ==> Signable(s, spent, sender, tx, i) {
      forall i | 0 <= i < |spent|
        ensures OutpointFits(spent[i]) && SignatureFits(s, sender.segwit, DigestOf(s, sender.segwit, tx, i))
      {
        assert Signable(s, spent, sender, tx, i);
      }
    }
  }

  lemma FinishedInput(s: Signer, spent: seq<Utxo>, sender: Address, outs: seq<Out>, tx: TxData, to: TxData, i: nat)
    requires tx == TxData(1, Inputs(spent, sender), outs, 0) && |outs| <= 3 && i < |spent|
    requires Finished(s, sender.segwit, tx) == Some(to)
    ensures |to.ins| == |spent| && (Written(to.ins[i], sender.segwit) <==> Signable(s, spent, sender, tx, i))
    ensures AmountFits(spent[i], sender.segwit) && Fits(sender.hash)
  {
    DigestExactly(s, spent, sender, outs, tx, i);
    InputIsSigned(s, sender, tx, to, i);
    SignedInExactly(s, sender, spent[i], DigestOf(s, sender.segwit, tx, i));
  }

  lemma InputIsSigned(s: Signer, sender: Address, tx: TxData, to: TxData, i: nat)
    requires Finished(s, sender.segwit, tx) == Some(to) && i < |tx.ins|
    ensures |to.ins| == |tx.ins| && SignatureFor(s, DigestOf(s, sender.segwit, tx, i)).Some?
    ensures DigestOf(s, sender.segwit, tx, i).Some?
    ensures var sig := SignatureFor(s, DigestOf(s, sender.segwit, tx, i)).value;
      to.ins[i] == SignIn(tx.ins[i], sig, s.sec, sender.segwit)
  {
    assert CanSign(s, sender.segwit, tx, i) && to.ins[i] == SignedIn(s, sender.segwit, tx, i);
  }

  /** A payment is signed exactly if the balance covers amount and fee, it is payable, and the signatures of all inputs
      that are spent can be made and written. */
  lemma SignedByInputs(s: Signer, utxos: seq<Utxo>, balance: int, pay: Payment, sender: Address)
    ensures var tx := Unsigned(utxos, pay, sender);
      Sign(s, utxos, balance, pay, sender).Signed? <==>
      pay.amount + pay.fee <= balance && Payable(utxos, pay, sender)
      && forall i :: 0 <= i < |tx.ins| ==> SignatureFits(s, sender.segwit, DigestOf(s, sender.segwit, tx, i))
  {
    var tx, spent := Unsigned(utxos, pay, sender), Spent(utxos, pay.amount + pay.fee);
    var outs := Outputs(Sum(spent), pay, sender);
    SignedIsWritten(s, utxos, balance, pay, sender, tx);
    PayableIs(utxos, pay, sender, spent, outs);
    UnsignedIs(utxos, pay, sender, spent, outs, tx);
    SignedInRange(s, spent, sender, outs, tx);
  }

  lemma PayableIs(utxos: seq<Utxo>, pay: Payment, sender: Address, spent: seq<Utxo>, outs: seq<Out>)
    requires spent == Spent(utxos, pay.amount + pay.fee) && outs == Outputs(Sum(spent), pay, sender)
    ensures |outs| <= 3
    ensures Payable(utxos, pay, sender) <==>
            SpentFit(spent, sender) && forall k :: 0 <= k < |outs| ==> OutInRange(outs[k])
  {
    AtMostThree(Sum(spent), pay, sender);
    OutputsExactly(Sum(spent), pay, sender, outs);
  }

  /** The transaction can be signed, and what results written. */
  predicate SignedAndWritten(s: Signer, sender: Address, tx: TxData) {
    CanSignAll(s, sender.segwit, tx) && InRange(Finished(s, sender.segwit, tx).value)
    && (sender.segwit ==> WitnessesInRange(Finished(s, sender.segwit, tx).value))
  }

  lemma SignedIsWritten(s: Signer, utxos: seq<Utxo>, balance: int, pay: Payment, sender: Address, tx: TxData)
    requires tx == Unsigned(utxos, pay, sender)
    ensures Sign(s, utxos, balance, pay, sender).Signed? <==>
            pay.amount + pay.fee <= balance && SignedAndWritten(s, sender, tx)
  {
    SignedExactly(s, utxos, balance, pay, sender);
  }

  lemma SignedInRange(s: Signer, spent: seq<Utxo>, sender: Address, outs: seq<Out>, tx: TxData)
    requires tx == TxData(1, Inputs(spent, sender), outs, 0) && |outs| <= 3
    ensures SignedAndWritten(s, sender, tx) <==>
      SpentFit(spent, sender) && (forall k :: 0 <= k < |outs| ==> OutInRange(outs[k]))
      && forall i :: 0 <= i < |tx.ins| ==> SignatureFits(s, sender.segwit, DigestOf(s, sender.segwit, tx, i))
  {
    if CanSignAll(s, sender.segwit, tx) {
      FinishedExactly(s, spent, sender, outs, tx, Finished(s, sender.segwit, tx).value);
    }
    if forall i :: 0 <= i < |tx.ins| ==> SignatureFits(s, sender.segwit, DigestOf(s, sender.segwit, tx, i)) {
      SignatureSuffices(s, sender, tx);
    }
  }

  lemma SignatureSuffices(s: Signer, sender: Address, tx: TxData)
    requires forall i :: 0 <= i < |tx.ins| ==> SignatureFits(s, sender.segwit, DigestOf(s, sender.segwit, tx, i))
    ensures CanSignAll(s, sender.segwit, tx)
  {
    forall i | 0 <= i < |tx.ins| ensures CanSign(s, sender.segwit, tx, i) {
      assert SignatureFits(s, sender.segwit, DigestOf(s, sender.segwit, tx, i));
    }
  }

  /** A payable payment has a digest for every input. */
  lemma PayableHasDigests(s: Signer, utxos: seq<Utxo>, pay: Payment, sender: Address, i: nat)
    requires Payable(utxos, pay, sender) && i < |Unsigned(utxos, pay, sender).ins|
    ensures DigestOf(s, sender.segwit, Unsigned(utxos, pay, sender), i).Some?
  {
    var spent := Spent(utxos, pay.amount + pay.fee);
    AtMostThree(Sum(spent), pay, sender);
    OutputsExactly(Sum(spent), pay, sender, Outputs(Sum(spent), pay, sender));
    DigestExactly(s, spent, sender, Outputs(Sum(spent), pay, sender), Unsigned(utxos, pay, sender), i);
  }

  /** For instance, no payment with a memo of 75 bytes is ever signed. */
  lemma MemoRefused(s: Signer, utxos: seq<Utxo>, balance: int, pay: Payment, sender: Address)
    requires |pay.memo| == 75 || |pay.memo| > 520
    ensures !Sign(s, utxos, balance, pay, sender).Signed?
  {
    SignedByInputs(s, utxos, balance, pay, sender);
  }
}
