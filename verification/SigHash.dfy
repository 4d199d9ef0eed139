/** The digests that signatures commit to (Bitcoin/tx.py: sig_hash, sig_hash_bip143 and its hash parts), on values. */
module SigHash {
  import opened Prelude
  import opened Positional
  import opened Stream
  import opened Script
  import opened TxCodec

  const SIGHASH_ALL := 1

  /** p2pkh_script */
  function P2pkh(h160: Cmd): seq<Cmd> { [Op(0x76), Op(0xa9), h160, Op(0x88), Op(0xac)] }

  /** p2wpkh_script */
  function P2wpkh(h160: Bytes): seq<Cmd> { [Op(0), Push(h160)] }

  /** int.from_bytes(hash256(s), 'big') */
  function Digest(h: Hash, s: Option<Bytes>): Option<nat> {
    match s case None => None case Some(b) => Some(FromBig(h(b)))
  }

  // ----- the legacy digest -----

  /** The script an input shows while input `signed` is being signed; raises for a number in place of a script. */
  function ShownScript(i: In, signed: bool, redeem: Option<seq<Cmd>>): Option<seq<Cmd>> {
    if !signed then Some([])
    else if redeem.Some? then redeem
    else match i.scriptPubkey
      case NoScript => Some([])
      case ScriptOf(cmds) => Some(cmds)
      case Stray(_) => None
  }

  function ShownBytes(i: In, signed: bool, redeem: Option<seq<Cmd>>): Option<Bytes> {
    match ShownScript(i, signed, redeem)
    case None => None
    case Some(cmds) => InBytes(In(i.prevTx, i.prevIndex, cmds, NoScript, 0, i.sequence, None))
  }

  /** The inputs from number `from` on, as they are hashed. */
  function ShownInputs(ins: seq<In>, from: nat, index: int, redeem: Option<seq<Cmd>>): Option<Bytes>
    requires from <= |ins|
    decreases |ins| - from
  {
    if from == |ins| then Some([])
    else Cat(ShownBytes(ins[from], from == index, redeem), ShownInputs(ins, from + 1, index, redeem))
  }

  function LegacyPreimage(tx: TxData, index: int, redeem: Option<seq<Cmd>>): Option<Bytes> {
    Cat(Cat(Cat(Cat(ToLittle(tx.version, 4),
                    Cat(EncodeVarint(|tx.ins|), ShownInputs(tx.ins, 0, index, redeem))),
                Cat(EncodeVarint(|tx.outs|), Concat(tx.outs, OutBytes))),
            ToLittle(tx.locktime, 4)),
        ToLittle(SIGHASH_ALL, 4))
  }

  /** sig_hash */
  function LegacyDigest(h: Hash, tx: TxData, index: int, redeem: Option<seq<Cmd>>): Option<nat> {
    Digest(h, LegacyPreimage(tx, index, redeem))
  }

  // ----- the digest of BIP 143 -----

  function OutpointBytes(i: In): Option<Bytes> { Cat(Some(Reverse(i.prevTx)), ToLittle(i.prevIndex, 4)) }

  function SequenceBytes(i: In): Option<Bytes> { ToLittle(i.sequence, 4) }

  /** The hashes of all outpoints and of all sequences; they are computed in one loop, so either both raise or none. */
  function InputHashes(h: Hash, ins: seq<In>): Option<(Bytes, Bytes)> {
    var prevouts, sequences := Concat(ins, OutpointBytes), Concat(ins, SequenceBytes);
    if prevouts.None? || sequences.None? then None else Some((h(prevouts.value), h(sequences.value)))
  }

  function OutputsHash(h: Hash, outs: seq<Out>): Option<Bytes> {
    match Concat(outs, OutBytes) case None => None case Some(b) => Some(h(b))
  }

  /** The script code of an input, from the witness script, the redeem script or the previous script. */
  function ScriptCode(i: In, redeem: Option<seq<Cmd>>, witnessScript: Option<seq<Cmd>>): Option<Bytes> {
    if witnessScript.Some? then Serialize(witnessScript.value)
    else
      var cmds := if redeem.Some? then redeem.value else if i.scriptPubkey.ScriptOf? then i.scriptPubkey.cmds else [];
      if |cmds| < 2 then None else Serialize(P2pkh(cmds[1]))
  }

  /** What the preimage says about the input being signed. */
  function SignedPart(i: In, redeem: Option<seq<Cmd>>, witnessScript: Option<seq<Cmd>>): Option<Bytes> {
    Cat(Cat(Cat(OutpointBytes(i), ScriptCode(i, redeem, witnessScript)), ToLittle(i.amount, 8)), SequenceBytes(i))
  }

  /** The preimage, from the three hash parts. */
  function SegwitPreimage(tx: TxData, index: nat, redeem: Option<seq<Cmd>>, witnessScript: Option<seq<Cmd>>,
                          inputs: Option<(Bytes, Bytes)>, outputs: Option<Bytes>): Option<Bytes>
  {
    if index >= |tx.ins| || inputs.None? then None
    else
      Cat(Cat(Cat(Cat(Cat(ToLittle(tx.version, 4), Some(inputs.value.0 + inputs.value.1)),
          SignedPart(tx.ins[index], redeem, witnessScript)), outputs), ToLittle(tx.locktime, 4)), ToLittle(SIGHASH_ALL, 4))
  }

  /** sig_hash_bip143, with every hash part computed afresh. */
  function SegwitDigest(h: Hash, tx: TxData, index: nat, redeem: Option<seq<Cmd>>, witnessScript: Option<seq<Cmd>>)
    : Option<nat>
  {
    Digest(h, SegwitPreimage(tx, index, redeem, witnessScript, InputHashes(h, tx.ins), OutputsHash(h, tx.outs)))
  }

  // ----- what the digests do not depend on -----

  /** Two inputs that differ at most in what signing writes. */
  predicate SameUnsigned(x: In, y: In) { x.(scriptSig := y.scriptSig, items := y.items) == y }

  predicate SameUnsignedTx(x: TxData, y: TxData) {
    x.version == y.version && x.outs == y.outs && x.locktime == y.locktime && |x.ins| == |y.ins|
    && forall k :: 0 <= k < |x.ins| ==> SameUnsigned(x.ins[k], y.ins[k])
  }

  lemma {:induction false} ShownInputsSame(x: seq<In>, y: seq<In>, from: nat, index: int, redeem: Option<seq<Cmd>>)
    requires |x| == |y| && from <= |x| && forall k :: 0 <= k < |x| ==> SameUnsigned(x[k], y[k])
    ensures ShownInputs(x, from, index, redeem) == ShownInputs(y, from, index, redeem)
    decreases |x| - from
  {
    if from < |x| {
      ShownInputsSame(x, y, from + 1, index, redeem);
      assert SameUnsigned(x[from], y[from]);
    }
  }

  /** Script signatures and witnesses written before or after do not change the legacy digest of any input. */
  lemma LegacyDigestIgnoresSignatures(h: Hash, x: TxData, y: TxData, index: int, redeem: Option<seq<Cmd>>)
    requires SameUnsignedTx(x, y)
    ensures LegacyDigest(h, x, index, redeem) == LegacyDigest(h, y, index, redeem)
  {
    ShownInputsSame(x.ins, y.ins, 0, index, redeem);
  }

  lemma {:induction false} ConcatSame(x: seq<In>, y: seq<In>)
    requires |x| == |y| && forall k :: 0 <= k < |x| ==> SameUnsigned(x[k], y[k])
    ensures Concat(x, OutpointBytes) == Concat(y, OutpointBytes) && Concat(x, SequenceBytes) == Concat(y, SequenceBytes)
  {
    if x != [] {
      assert SameUnsigned(x[0], y[0]);
      ConcatSame(x[1..], y[1..]);
    }
  }

  lemma SegwitDigestIgnoresSignatures(h: Hash, x: TxData, y: TxData, index: nat, redeem: Option<seq<Cmd>>,
                                      witnessScript: Option<seq<Cmd>>)
    requires SameUnsignedTx(x, y)
    ensures InputHashes(h, x.ins) == InputHashes(h, y.ins)
    ensures SegwitDigest(h, x, index, redeem, witnessScript) == SegwitDigest(h, y, index, redeem, witnessScript)
  {
    ConcatSame(x.ins, y.ins);
    if index < |x.ins| { assert SameUnsigned(x.ins[index], y.ins[index]); }
  }
}
