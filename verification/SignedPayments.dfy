/** Payments signed with real keys (bitcoin_interface.py: SignTransaction with ecc.py: PrivateKey.sign, Signature.der,
    S256Point.sec), and what op.py: op_checksig and script.py: evaluate make of their inputs. */
module SignedPayments {
  import opened Prelude
  import opened Positional
  import opened NumberTheory
  import opened Script
  import opened TxCodec
  import opened SigHash
  import opened Interpreter
  import opened Witness
  import opened Checksig
  import W = Wallet
  import A = Addresses
  import C = Curve
  import E = Ecdsa
  import M = Multisig
  import Num = ScriptNum
  import P = Payable
  import Der
  import Sec

  // ----- the signer of a private key -----

  /** The nonce is a function of the digest; `isHigh` selects the low form of s. */
  datatype Key = Key(d: E.Domain, secret: int, nonce: nat -> nat, isHigh: nat -> bool)

  /** What secp256k1 is to satisfy, nonces in [1, n), and a zero s that is not replaced by n. */
  ghost predicate Sound(k: Key) {
    E.ValidDomain(k.d) && Sec.Suitable(k.d.c) && k.d.n > 2 && (forall z: nat :: 0 < k.nonce(z) < k.d.n) && !k.isHigh(0)
  }

  function PublicKey(k: Key): C.Point
    requires k.d.c.Valid() && k.d.n > 1
  {
    E.PublicKey(k.d, k.secret)
  }

  /** signing_key.sign(z).der() */
  function DerOf(k: Key, z: nat): Option<Bytes>
    requires k.d.c.Valid() && k.d.n > 1
  {
    match E.Sign(k.d, k.secret, z, k.nonce(z), k.isHigh)
    case None => None
    case Some(sig) => Der.Encode(sig)
  }

  /** Raises for a secret that is a multiple of the order, whose key has no coordinates. */
  function SignerOf(k: Key, hash: Hash): Option<W.Signer>
    requires k.d.c.Valid() && k.d.n > 1
  {
    match Sec.Encode(PublicKey(k), true)
    case None => None
    case Some(sec) => Some(W.Signer(hash, z => DerOf(k, z), sec))
  }

  /** The byte strings the signing loop stores in an input. */
  predicate Carries(i: In, segwit: bool, sig: Bytes, sec: Bytes) {
    if segwit then i.items == Some([Element(sig), Element(sec)]) else i.scriptSig == [Push(sig), Push(sec)]
  }

  /** A signature that could be written verifies. */
  lemma WrittenVerifies(k: Key, z: nat)
    requires Sound(k) && DerOf(k, z).Some?
    ensures var sig := Der.Decode(DerOf(k, z).value);
      sig.Some? && E.Verify(k.d, PublicKey(k), z, sig.value) == Some(true)
  {
    E.SignedVerifies(k.d, k.secret, z, k.nonce(z), k.isHigh);
    var made := E.Sign(k.d, k.secret, z, k.nonce(z), k.isHigh).value;
    Der.DecodeEncode(made);
    NonZeroKept(k, z);
  }

  lemma NonZeroKept(k: Key, z: nat)
    requires Sound(k) && DerOf(k, z).Some?
    ensures E.Sign(k.d, k.secret, z, k.nonce(z), k.isHigh).value.s % k.d.n != 0
  {
    var r, s := E.SignedParts(k.d, k.secret, z, k.nonce(z), k.isHigh);
    WrittenIsNonZero(E.Sign(k.d, k.secret, z, k.nonce(z), k.isHigh).value);
    NonZeroWritten(k, s);
  }

  lemma WrittenIsNonZero(sig: E.Signature)
    requires Der.Encode(sig).Some?
    ensures sig.s != 0
  {
    Der.DecodeEncode(sig);
  }

  lemma NonZeroWritten(k: Key, s: nat)
    requires Sound(k) && s < k.d.n && (if k.isHigh(s) then k.d.n - s else s) != 0
    ensures (if k.isHigh(s) then k.d.n - s else s) % k.d.n != 0
  {
    E.KeptForm(k.d.n, s, k.isHigh(s));
  }

  /** Over a field and an order of at most 32 bytes a digest can be signed unless r or s comes out as zero. */
  predicate Signs(k: Key, z: Option<nat>)
    requires k.d.c.Valid() && k.d.n > 1
  {
    z.Some? && var made := E.Sign(k.d, k.secret, z.value, k.nonce(z.value), k.isHigh);
      made.Some? && made.value.r != 0 && made.value.s != 0
  }

  lemma DerOfExactly(k: Key, z: nat)
    requires Sound(k) && k.d.n <= Pow(256, 32)
    ensures DerOf(k, z).Some? <==> Signs(k, Some(z))
    ensures DerOf(k, z).Some? ==> |DerOf(k, z).value| <= 72
  {
    var made := E.Sign(k.d, k.secret, z, k.nonce(z), k.isHigh);
    var r, s := E.SignedParts(k.d, k.secret, z, k.nonce(z), k.isHigh);
    Der.SmallCoordinate(k.d, k.nonce(z), r);
    Der.DecodeEncode(made.value);
  }

  /** With a real key, a payment is signed exactly if the balance covers it, it is payable, and no signature comes out
      with a zero r or s. */
  lemma SignedWithKeyExactly(k: Key, s: W.Signer, utxos: seq<W.Utxo>, balance: int, pay: W.Payment, sender: W.Address)
    requires Sound(k) && k.d.n <= Pow(256, 32) && SignerOf(k, s.hash) == Some(s)
    ensures var tx := W.Unsigned(utxos, pay, sender);
      W.Sign(s, utxos, balance, pay, sender).Signed? <==>
      pay.amount + pay.fee <= balance && P.Payable(utxos, pay, sender)
      && forall i :: 0 <= i < |tx.ins| ==> Signs(k, W.DigestOf(s, sender.segwit, tx, i))
  {
    var tx := W.Unsigned(utxos, pay, sender);
    P.SignedByInputs(s, utxos, balance, pay, sender);
    forall i | 0 <= i < |tx.ins|
      ensures P.SignatureFits(s, sender.segwit, W.DigestOf(s, sender.segwit, tx, i))
         <==> Signs(k, W.DigestOf(s, sender.segwit, tx, i))
    {
      SignsFits(k, s, sender.segwit, W.DigestOf(s, sender.segwit, tx, i));
    }
    assert (forall i :: 0 <= i < |tx.ins| ==> P.SignatureFits(s, sender.segwit, W.DigestOf(s, sender.segwit, tx, i)))
      <==> (forall i :: 0 <= i < |tx.ins| ==> Signs(k, W.DigestOf(s, sender.segwit, tx, i)));
  }

  lemma SignsFits(k: Key, s: W.Signer, segwit: bool, z: Option<nat>)
    requires Sound(k) && k.d.n <= Pow(256, 32) && SignerOf(k, s.hash) == Some(s)
    ensures P.SignatureFits(s, segwit, z) <==> Signs(k, z)
  {
    if z.Some? { DerOfExactly(k, z.value); }
    assert |s.sec| == 33;
  }

  /** The digest of an input by itself: of BIP 143 for a witness program, the older one otherwise. */
  function DigestIn(h: Hash, segwit: bool, tx: TxData, i: nat): Option<nat> {
    if segwit then SegwitDigest(h, tx, i, None, None) else LegacyDigest(h, tx, i, None)
  }

  /** Every input of a finished transaction carries a signature and a key that parse, and the signature verifies under
      that key on the digest of the input in the finished transaction. */
  lemma FinishedVerifies(k: Key, s: W.Signer, segwit: bool, tx: TxData, i: nat) returns (sig: Bytes, z: nat)
    requires Sound(k) && SignerOf(k, s.hash) == Some(s) && W.Finished(s, segwit, tx).Some? && i < |tx.ins|
    ensures var to := W.Finished(s, segwit, tx).value;
      |to.ins| == |tx.ins| && DigestIn(s.hash, segwit, to, i) == Some(z) && Carries(to.ins[i], segwit, sig + [1], s.sec)
    ensures Sec.Parse(k.d.c, s.sec) == Some(PublicKey(k))
    ensures Der.Decode(sig).Some? && E.Verify(k.d, PublicKey(k), z, Der.Decode(sig).value) == Some(true)
  {
    var to := W.Finished(s, segwit, tx).value;
    W.SignaturesFitFinished(s, segwit, tx, i);
    z := W.DigestOf(s, segwit, to, i).value;
    sig := DerOf(k, z).value;
    WrittenVerifies(k, z);
    Sec.PublicKeyReadsBack(k.d, k.secret, true);
  }

  // ----- running the scripts of a payment -----

  function OfStack(m: Machine, stack: Option<Stack>): OpResult {
    match stack case None => Fails case Some(after) => Done(m.(stack := after))
  }

  function OpDup(stack: Stack): Option<Stack> { if stack == [] then None else Some(stack + [stack[|stack| - 1]]) }

  function OpEqualVerify(stack: Stack): Option<Stack> {
    match OpEqual(stack) case None => None case Some(compared) => OpVerify(compared)
  }

  const DUP: Byte := 118
  const EQUALVERIFY: Byte := 136
  const HASH160: Byte := 169
  const CHECKSIG: Byte := 172

  /** The table entries that payments use. */
  function Operation(env: Env, d: E.Domain, z: int, code: Byte, m: Machine): Option<OpResult>
    requires d.c.Valid() && d.n > 1
  {
    if code == 0 then Some(Done(m.(stack := m.stack + [Num.Encode(0)])))
    else if code == DUP then Some(OfStack(m, OpDup(m.stack)))
    else if code == EQUALVERIFY then Some(OfStack(m, OpEqualVerify(m.stack)))
    else if code == HASH160 then Some(OfStack(m, OpHash160(env, m.stack)))
    else if code == CHECKSIG then Some(OpCheckSig(d, z, m))
    else None
  }

  /** The table holds these entries, for the signature hash z, and whatever else. */
  ghost predicate Operates(env: Env, d: E.Domain, z: int)
    requires d.c.Valid() && d.n > 1
  {
    forall code: Byte, m :: Operation(env, d, z, code, m).Some? ==>
      env.operate(code, m) == Operation(env, d, z, code, m).value
  }

  lemma RunOp(env: Env, d: E.Domain, z: int, code: Byte, rest: seq<Cmd>, m: Machine, after: Machine)
    requires d.c.Valid() && d.n > 1 && Operates(env, d, z)
    requires Operation(env, d, z, code, m) == Some(Done(after))
    ensures Run(env, [Op(code)] + rest, m) == Run(env, rest, after)
  {
    assert ([Op(code)] + rest)[1..] == rest;
  }

  lemma RunHash160(env: Env, d: E.Domain, z: int, rest: seq<Cmd>, stack: Stack, x: Bytes)
    requires d.c.Valid() && d.n > 1 && Operates(env, d, z)
    ensures Run(env, [Op(HASH160)] + rest, Machine(stack + [x], []))
         == Run(env, rest, Machine(stack + [env.hash160(x)], []))
  {
    RunOp(env, d, z, HASH160, rest, Machine(stack + [x], []), Machine(stack + [env.hash160(x)], []));
  }

  lemma RunDup(env: Env, d: E.Domain, z: int, rest: seq<Cmd>, stack: Stack, x: Bytes)
    requires d.c.Valid() && d.n > 1 && Operates(env, d, z)
    ensures Run(env, [Op(DUP)] + rest, Machine(stack + [x], [])) == Run(env, rest, Machine(stack + [x] + [x], []))
  {
    RunOp(env, d, z, DUP, rest, Machine(stack + [x], []), Machine(stack + [x] + [x], []));
  }

  lemma RunFailure(env: Env, d: E.Domain, z: int, code: Byte, rest: seq<Cmd>, m: Machine)
    requires d.c.Valid() && d.n > 1 && Operates(env, d, z)
    ensures Operation(env, d, z, code, m) == Some(Fails) ==> Run(env, [Op(code)] + rest, m) == Reject
    ensures Operation(env, d, z, code, m) == Some(Raises) ==> Run(env, [Op(code)] + rest, m) == Crash
  {
  }

  lemma RunEqualVerify(env: Env, d: E.Domain, z: int, rest: seq<Cmd>, stack: Stack, x: Bytes, y: Bytes)
    requires d.c.Valid() && d.n > 1 && Operates(env, d, z)
    ensures Run(env, [Op(EQUALVERIFY)] + rest, Machine(stack + [x] + [y], []))
         == if x == y then Run(env, rest, Machine(stack, [])) else Reject
  {
    CompareMeaning(stack, x, y);
    if x == y {
      RunOp(env, d, z, EQUALVERIFY, rest, Machine(stack + [x] + [y], []), Machine(stack, []));
    } else {
      RunFailure(env, d, z, EQUALVERIFY, rest, Machine(stack + [x] + [y], []));
    }
  }

  /** How a run ends whose last command is OP_CHECKSIG, on a signature with its hash type byte and a key. */
  function CheckOutcome(d: E.Domain, z: int, sig: Bytes, sec: Bytes): Outcome
    requires d.c.Valid() && d.n > 1
  {
    match (ParseKey(d, sec), ParseSig(ButLast(sig)))
    case (Broken, _) => Crash
    case (Malformed, _) => Reject
    case (Parsed(_), Broken) => Crash
    case (Parsed(_), Malformed) => Reject
    case (Parsed(key), Parsed(s)) =>
      match E.Verify(d, key, z, s)
      case None => Crash
      case Some(ok) => if ok then Accept else Reject
  }

  lemma RunCheckSig(env: Env, d: E.Domain, z: int, sig: Bytes, sec: Bytes)
    requires d.c.Valid() && d.n > 1 && Operates(env, d, z)
    ensures Run(env, [Op(CHECKSIG)], Machine([sig, sec], [])) == CheckOutcome(d, z, sig, sec)
  {
    var m := Machine([sig, sec], []);
    assert [Op(CHECKSIG)] + [] == [Op(CHECKSIG)];
    RunFailure(env, d, z, CHECKSIG, [], m);
    var result := OpCheckSig(d, z, m);
    if result.Done? {
      CheckSigPushes(d, z, sig, sec);
      RunOp(env, d, z, CHECKSIG, [], m, result.machine);
    }
  }

  /** op_checksig on any stack: it needs two elements, leaves those below, and puts 1 or 0 on them. */
  lemma CheckSigExactly(d: E.Domain, z: int, below: Stack, sig: Bytes, sec: Bytes, altstack: Stack)
    requires d.c.Valid() && d.n > 1
    ensures var outcome := CheckOutcome(d, z, sig, sec); var stack := below + [sig, sec];
      match OpCheckSig(d, z, Machine(stack, altstack))
      case Raises => outcome == Crash
      case Fails => outcome == Reject && (ParseKey(d, sec).Malformed? || ParseSig(ButLast(sig)).Malformed?)
      case Done(m) =>
        ParseKey(d, sec).Parsed? && ParseSig(ButLast(sig)).Parsed? && (outcome == Accept || outcome == Reject)
        && m == Machine(below + [if outcome == Accept then [1] else []], altstack)
  {
    var stack := below + [sig, sec];
    assert stack[|stack| - 1] == sec && stack[|stack| - 2] == sig && stack[..|stack| - 2] == below;
    OneAndNone();
  }

  lemma OneAndNone()
    ensures Num.Encode(1) == [1] && Num.Encode(0) == []
  {
    var one: nat := 1;
    assert Num.LittleNumeral(one) == [one % 256] + Num.LittleNumeral(one / 256) == [1];
  }

  /** With too few elements every operation of a payment returns False. */
  lemma TooFewElements(env: Env, d: E.Domain, z: int, x: Bytes, altstack: Stack)
    requires d.c.Valid() && d.n > 1
    ensures Operation(env, d, z, DUP, Machine([], altstack)) == Some(Fails)
    ensures Operation(env, d, z, HASH160, Machine([], altstack)) == Some(Fails)
    ensures Operation(env, d, z, EQUALVERIFY, Machine([], altstack)) == Some(Fails)
    ensures Operation(env, d, z, EQUALVERIFY, Machine([x], altstack)) == Some(Fails)
    ensures Operation(env, d, z, CHECKSIG, Machine([], altstack)) == Some(Fails)
    ensures Operation(env, d, z, CHECKSIG, Machine([x], altstack)) == Some(Fails)
  {
  }

  lemma CheckSigPushes(d: E.Domain, z: int, sig: Bytes, sec: Bytes)
    requires d.c.Valid() && d.n > 1 && OpCheckSig(d, z, Machine([sig, sec], [])).Done?
    ensures OpCheckSig(d, z, Machine([sig, sec], [])).machine
         == Machine([Num.Encode(if CheckOutcome(d, z, sig, sec) == Accept then 1 else 0)], [])
    ensures Num.Encode(1) != [] && Num.Encode(0) == []
    ensures CheckOutcome(d, z, sig, sec) == Accept || CheckOutcome(d, z, sig, sec) == Reject
  {
    var stack := [sig, sec];
    assert forall b: Bytes :: stack[..0] + [b] == [b];
    Num.DecodeEncode(1);
  }

  /** The key on top of the stack is hashed and compared; both stay for the signature check. */
  lemma RunHashCheck(env: Env, d: E.Domain, z: int, rest: seq<Cmd>, stack: Stack, sec: Bytes, h: Bytes)
    requires d.c.Valid() && d.n > 1 && Operates(env, d, z)
    requires |rest| < 2 && |stack| == 1
    ensures Run(env, [Op(DUP)] + ([Op(HASH160)] + ([Push(h)] + ([Op(EQUALVERIFY)] + rest))), Machine(stack + [sec], []))
         == if env.hash160(sec) == h then Run(env, rest, Machine(stack + [sec], [])) else Reject
  {
    var found := env.hash160(sec);
    var equal := [Op(EQUALVERIFY)] + rest;
    var push := [Push(h)] + equal;
    RunDup(env, d, z, [Op(HASH160)] + push, stack, sec);
    RunHash160(env, d, z, push, stack + [sec], sec);
    RunPush(env, h, equal, Machine(stack + [sec] + [found], []));
    RunEqualVerify(env, d, z, rest, stack + [sec], found, h);
  }

  lemma KeyScript(sig: Bytes, sec: Bytes, h: Bytes)
    ensures [Push(sig), Push(sec)] + P2pkh(Push(h))
         == [Push(sig)] + ([Push(sec)]
                           + ([Op(DUP)] + ([Op(HASH160)] + ([Push(h)] + ([Op(EQUALVERIFY)] + [Op(CHECKSIG)])))))
  {
  }

  lemma RunKeys(env: Env, sig: Bytes, sec: Bytes, rest: seq<Cmd>)
    requires !IsWitnessProgram([sig] + [sec]) && |rest| > 3
    ensures Run(env, [Push(sig)] + ([Push(sec)] + rest), Machine([], [])) == Run(env, rest, Machine([sig] + [sec], []))
  {
    assert [] + [sig] == [sig];
    RunPush(env, sig, [Push(sec)] + rest, Machine([], []));
    RunPush(env, sec, rest, Machine([sig], []));
  }

  /** Any two elements in front of the script that asks for a key of a given hash: the evaluation is rejected if the
      second does not have that hash, and otherwise ends as the signature check says. */
  lemma KeyScriptExactly(env: Env, d: E.Domain, z: int, sig: Bytes, sec: Bytes, h: Bytes)
    requires d.c.Valid() && d.n > 1 && Operates(env, d, z) && !IsWitnessProgram([sig, sec])
    ensures Run(env, [Push(sig), Push(sec)] + P2pkh(Push(h)), Machine([], []))
         == if env.hash160(sec) == h then CheckOutcome(d, z, sig, sec) else Reject
  {
    var check := [Op(CHECKSIG)];
    KeyScript(sig, sec, h);
    assert [sig] + [sec] == [sig, sec];
    RunKeys(env, sig, sec, [Op(DUP)] + ([Op(HASH160)] + ([Push(h)] + ([Op(EQUALVERIFY)] + check))));
    RunHashCheck(env, d, z, check, [sig], sec, h);
    RunCheckSig(env, d, z, sig, sec);
  }

  /** For a key and a signature that parse and whose check does not raise, the evaluation accepts exactly if the key has
      the hash and verifies the signature, whatever the hash type byte; otherwise it rejects. */
  lemma KeyScriptAccepts(env: Env, d: E.Domain, z: int, sig: Bytes, kind: Byte, sec: Bytes, h: Bytes)
    requires d.c.Valid() && d.n > 1 && Operates(env, d, z)
    requires Sec.Parse(d.c, sec).Some? && Der.Decode(sig).Some?
    requires E.Verify(d, Sec.Parse(d.c, sec).value, z, Der.Decode(sig).value).Some?
    ensures Run(env, [Push(sig + [kind]), Push(sec)] + P2pkh(Push(h)), Machine([], []))
         == if env.hash160(sec) == h && E.Verify(d, Sec.Parse(d.c, sec).value, z, Der.Decode(sig).value) == Some(true)
            then Accept else Reject
  {
    assert ButLast(sig + [kind]) == sig;
    DecodedIsParsed(d, sec, sig);
    KeyScriptExactly(env, d, z, sig + [kind], sec, h);
  }

  /** A signature made for one digest, run with another: accepted exactly if the digests are equal, or opposite up to
      twice r times the secret, modulo the order. */
  lemma MovedSignature(k: Key, s: W.Signer, env: Env, z: nat, z': int, der: Bytes, kind: Byte, re: int)
    requires Sound(k) && SignerOf(k, s.hash) == Some(s) && DerOf(k, z) == Some(der) && Operates(env, k.d, z')
    requires re == E.Sign(k.d, k.secret, z, k.nonce(z), k.isHigh).value.r * k.secret
    ensures Run(env, [Push(der + [kind]), Push(s.sec)] + P2pkh(Push(env.hash160(s.sec))), Machine([], []))
      == if Divides(k.d.n, z' + re) then Crash
         else if Divides(k.d.n, z' - z) || Divides(k.d.n, z' + z + 2 * re) then Accept
         else Reject
  {
    MovedVerdict(k, s, z, z', der, re);
    assert ButLast(der + [kind]) == der;
    KeyScriptExactly(env, k.d, z', der + [kind], s.sec, env.hash160(s.sec));
  }

  lemma MovedVerdict(k: Key, s: W.Signer, z: nat, z': int, der: Bytes, re: int)
    requires Sound(k) && SignerOf(k, s.hash) == Some(s) && DerOf(k, z) == Some(der)
    requires re == E.Sign(k.d, k.secret, z, k.nonce(z), k.isHigh).value.r * k.secret
    ensures ParseKey(k.d, s.sec) == M.Parsed(PublicKey(k)) && ParseSig(der).Parsed?
    ensures E.Verify(k.d, PublicKey(k), z', ParseSig(der).value)
         == if Divides(k.d.n, z' + re) then None else Some(Divides(k.d.n, z' - z) || Divides(k.d.n, z' + z + 2 * re))
  {
    var made := E.Sign(k.d, k.secret, z, k.nonce(z), k.isHigh).value;
    NonZeroKept(k, z);
    MadeIsRead(k, z, der, made);
    KeyIsRead(k, s);
    MadeVerdictAs(k, z, z', made, re);
  }

  lemma MadeIsRead(k: Key, z: nat, der: Bytes, made: E.Signature)
    requires Sound(k) && DerOf(k, z) == Some(der) && E.Sign(k.d, k.secret, z, k.nonce(z), k.isHigh) == Some(made)
    ensures ParseSig(der) == M.Parsed(made)
  {
    Der.DecodeEncode(made);
    if SignatureCut(der) { CutIsNotDecoded(der); }
  }

  lemma KeyIsRead(k: Key, s: W.Signer)
    requires Sound(k) && SignerOf(k, s.hash) == Some(s)
    ensures ParseKey(k.d, s.sec) == M.Parsed(PublicKey(k))
  {
    Sec.PublicKeyReadsBack(k.d, k.secret, true);
  }

  lemma MadeVerdictAs(k: Key, z: nat, z': int, made: E.Signature, re: int)
    requires Sound(k) && E.Sign(k.d, k.secret, z, k.nonce(z), k.isHigh) == Some(made)
    requires made.s % k.d.n != 0 && re == made.r * k.secret
    ensures E.Verify(k.d, PublicKey(k), z', made)
         == if Divides(k.d.n, z' + re) then None else Some(Divides(k.d.n, z' - z) || Divides(k.d.n, z' + z + 2 * re))
  {
    E.MadeVerdict(k.d, k.secret, z, k.nonce(z), k.isHigh, z');
  }

  /** evaluate accepts every input of a finished transaction that spends what was paid to the hash of the key, with the
      digest of that input and the witness it carries: for a key hash script the unlocking commands followed by it, for
      a witness program what its rule queues. */
  lemma InputIsAccepted(k: Key, s: W.Signer, sender: W.Address, tx: TxData, env: Env, i: nat, z: nat)
    returns (sig: Bytes)
    requires Sound(k) && SignerOf(k, s.hash) == Some(s) && sender.hash == env.hash160(s.sec)
    requires W.Finished(s, sender.segwit, tx).Some? && i < |tx.ins|
    requires sender.segwit ==> |sender.hash| == 20 && tx.ins[i].scriptSig == []
    requires DigestIn(s.hash, sender.segwit, W.Finished(s, sender.segwit, tx).value, i) == Some(z)
    requires Operates(env, k.d, z)
    ensures var to := W.Finished(s, sender.segwit, tx).value;
      |to.ins| == |tx.ins| && Carries(to.ins[i], sender.segwit, sig, s.sec)
      && Ends(env, if sender.segwit then Some([Push(sig), Push(s.sec)]) else None,
              to.ins[i].scriptSig + W.PayTo(sender), Machine([], []), Accept)
  {
    var to := W.Finished(s, sender.segwit, tx).value;
    var der, y := FinishedVerifies(k, s, sender.segwit, tx, i);
    W.SignaturesFitFinished(s, sender.segwit, tx, i);
    sig := der + [1];
    var keys := [Push(sig), Push(s.sec)];
    KeyScriptAccepts(env, k.d, z, der, 1, s.sec, env.hash160(s.sec));
    if sender.segwit {
      ZeroIsPushed(env, k.d, z);
      ProgramAlone(env, keys, sender.hash);
      assert [] + W.PayTo(sender) == W.PayTo(sender);
    } else {
      EndsAsRun(env, None, keys + W.PayTo(sender), Machine([], []));
    }
  }

  lemma ProgramAlone(env: Env, keys: seq<Cmd>, h: Bytes)
    requires PushesZero(env) && |h| == 20 && Run(env, keys + P2pkh(Push(h)), Machine([], [])) == Accept
    ensures Ends(env, Some(keys), P2wpkh(h), Machine([], []), Accept)
  {
    var queue := keys + P2pkh(Push(h));
    assert [] + keys + P2pkh(Push(h)) == queue;
    assert P2wpkh(h) + [] == P2wpkh(h);
    EndsAsRun(env, Some(keys), queue, Machine([], []));
    ProgramThenRest(env, keys, h, [], Accept);
  }

  lemma ZeroIsPushed(env: Env, d: E.Domain, z: int)
    requires d.c.Valid() && d.n > 1 && Operates(env, d, z)
    ensures PushesZero(env)
  {
  }

  /** Every input of a payment that the wallet signs is accepted, if the sending address is that of the key and the
      sender's hash was decoded from it. */
  lemma PaymentIsAccepted(k: Key, s: W.Signer, checksum: Hash, sending: string, utxos: seq<W.Utxo>, balance: int,
                          pay: W.Payment, sender: W.Address, env: Env, i: nat, z: nat) returns (to: TxData, sig: Bytes)
    requires Sound(k) && SignerOf(k, s.hash) == Some(s)
    requires |env.hash160(s.sec)| == 20 && forall b :: |checksum(b)| >= 4
    requires A.KeyAddress(checksum, env.hash160(s.sec), sender.segwit) == Some(sending)
    requires A.ScriptHash(checksum, sending, sender.segwit) == Some(sender.hash)
    requires W.Sign(s, utxos, balance, pay, sender).Signed? && i < |W.Unsigned(utxos, pay, sender).ins|
    requires DigestIn(s.hash, sender.segwit, W.Unsigned(utxos, pay, sender), i) == Some(z) && Operates(env, k.d, z)
    ensures W.Serialized(sender.segwit, to) == Some(W.Sign(s, utxos, balance, pay, sender).bytes)
    ensures |to.ins| == |W.Unsigned(utxos, pay, sender).ins| && DigestIn(s.hash, sender.segwit, to, i) == Some(z)
    ensures Carries(to.ins[i], sender.segwit, sig, s.sec) && to.ins[i].scriptPubkey == ScriptOf(W.PayTo(sender))
    ensures Ends(env, if sender.segwit then Some([Push(sig), Push(s.sec)]) else None,
                 to.ins[i].scriptSig + W.PayTo(sender), Machine([], []), Accept)
  {
    A.KeyAddressDecodes(checksum, env.hash160(s.sec), sender.segwit);
    to := W.SignedParts(s, utxos, balance, pay, sender);
    sig := FinishedIsAccepted(k, s, sender, W.Unsigned(utxos, pay, sender), to, env, i, z);
  }

  lemma FinishedIsAccepted(k: Key, s: W.Signer, sender: W.Address, tx: TxData, to: TxData, env: Env, i: nat, z: nat)
    returns (sig: Bytes)
    requires Sound(k) && SignerOf(k, s.hash) == Some(s) && sender.hash == env.hash160(s.sec)
    requires W.Finished(s, sender.segwit, tx) == Some(to) && i < |tx.ins|
    requires sender.segwit ==> |sender.hash| == 20 && tx.ins[i].scriptSig == []
    requires DigestIn(s.hash, sender.segwit, tx, i) == Some(z) && Operates(env, k.d, z)
    ensures |to.ins| == |tx.ins| && DigestIn(s.hash, sender.segwit, to, i) == Some(z)
    ensures Carries(to.ins[i], sender.segwit, sig, s.sec) && to.ins[i].scriptPubkey == tx.ins[i].scriptPubkey
    ensures Ends(env, if sender.segwit then Some([Push(sig), Push(s.sec)]) else None,
                 to.ins[i].scriptSig + W.PayTo(sender), Machine([], []), Accept)
  {
    W.FinishedUnsigned(s, sender.segwit, tx);
    W.DigestIgnoresSignatures(s, sender.segwit, tx, to, i);
    sig := InputIsAccepted(k, s, sender, tx, env, i, z);
    assert SameUnsigned(tx.ins[i], to.ins[i]);
  }

  // ----- typed addresses -----

  /** SignTransaction from the balance check on. `keyHash` is the hash of the signing key, whose address was found to be
      the sending one. */
  function TypedOutcome(s: W.Signer, checksum: Hash, utxos: seq<W.Utxo>, balance: int, amount: int, fee: int, memo: Bytes,
                        keyHash: Bytes, sendingSegwit: bool, receiving: string, receivingSegwit: bool): W.Outcome
  {
    if amount + fee > balance then W.Refused
    else match A.Read(checksum, receiving, receivingSegwit)
      case Unreadable => W.Raised
      case Invalid => W.Refused
      case Pays(hash) =>
        W.Sign(s, utxos, balance, W.Payment(amount, fee, memo, W.Address(receivingSegwit, hash)),
               W.Address(sendingSegwit, keyHash))
  }

  method SignTyped(s: W.Signer, checksum: Hash, utxos: seq<W.Utxo>, balance: int, amount: int, fee: int, memo: Bytes,
                   sending: string, ghost keyHash: Bytes, sendingSegwit: bool, receiving: string, receivingSegwit: bool)
    returns (r: W.Outcome)
    requires |keyHash| == 20 && forall b :: |checksum(b)| >= 4
    requires A.KeyAddress(checksum, keyHash, sendingSegwit) == Some(sending)
    ensures r == TypedOutcome(s, checksum, utxos, balance, amount, fee, memo, keyHash, sendingSegwit, receiving,
                              receivingSegwit)
  {
    if amount + fee > balance { return W.Refused; }
    var receiver := A.ReadAddress(checksum, receiving, receivingSegwit);
    match receiver {
      case Unreadable => return W.Raised;
      case Invalid => return W.Refused;
      case Pays(hash) =>
        A.KeyAddressRead(checksum, keyHash, sendingSegwit, sending);
        var sender := A.ReadAddress(checksum, sending, sendingSegwit);
        var pay := W.Payment(amount, fee, memo, W.Address(receivingSegwit, hash));
        r := W.SignTransaction(s, utxos, balance, pay, W.Address(sendingSegwit, sender.hash));
    }
  }

  // ----- op_checkmultisig with real keys -----

  /** Signatures made for a digest by the keys in their order are never refused, whatever keys are in between; a check may
      raise on the way. */
  lemma OwnSignaturesAccepted(keys: seq<Key>, points: seq<C.Point>, sigs: seq<E.Signature>, f: seq<nat>, d: E.Domain,
                              z: nat)
    requires d.c.Valid() && d.n > 1 && |points| == |keys| && |sigs| == |f|
    requires forall i :: 0 <= i < |keys| ==> Sound(keys[i]) && keys[i].d == d && points[i] == PublicKey(keys[i])
    requires forall j :: 0 <= j < |f| ==> f[j] < |keys| && SignedBy(keys[f[j]], z, sigs[j])
    requires forall i, j :: 0 <= i < j < |f| ==> f[i] < f[j]
    ensures M.ScanStatus(points, sigs, KeyChecker(d, z).verifies) != M.Failed
  {
    var v := KeyChecker(d, z).verifies;
    forall j | 0 <= j < |f| ensures f[j] < |points| && M.Verified(v)(points[f[j]], sigs[j]) {
      SignedVerifiesAs(keys[f[j]], z, sigs[j]);
    }
    assert M.Matching(f, points, sigs, M.Verified(v));
    if M.ScanStatus(points, sigs, v) != M.Raised {
      M.SucceedsExactly(points, sigs, v);
      if sigs != [] {
        var g, n := f[..|f| - 1], |f| - 1;
        M.PrefixMatch(f, n, points, sigs, M.Verified(v));
        if n > 0 { assert g[n - 1] == f[n - 1] < f[n]; }
        assert f[n] < |points|;
        assert M.UpToLast(g) < |points|;
      }
    }
  }

  /** A signature with r and s nonzero that the key makes for the digest. */
  ghost predicate SignedBy(k: Key, z: nat, sig: E.Signature)
    requires k.d.c.Valid() && k.d.n > 1
  {
    E.Sign(k.d, k.secret, z, k.nonce(z), k.isHigh) == Some(sig) && sig.s != 0
  }

  lemma SignedVerifiesAs(k: Key, z: nat, sig: E.Signature)
    requires Sound(k) && SignedBy(k, z, sig)
    ensures E.Verify(k.d, PublicKey(k), z, sig) == Some(true)
  {
    E.SignedVerifies(k.d, k.secret, z, k.nonce(z), k.isHigh);
    var r, s := E.SignedParts(k.d, k.secret, z, k.nonce(z), k.isHigh);
    E.KeptForm(k.d.n, s, k.isHigh(s));
  }

  /** On the stack: the extra element, signatures that some of the keys wrote in their order, with any hash type bytes,
      and the written keys. */
  lemma OwnMultisigAccepted(keys: seq<Key>, secs: seq<Bytes>, ders: seq<Bytes>, kinds: seq<Byte>, below: seq<Bytes>,
                            extra: Bytes, f: seq<nat>, d: E.Domain, z: nat)
    requires d.c.Valid() && d.n > 1 && |secs| == |keys| && |ders| == |f| == |kinds|
    requires forall i :: 0 <= i < |keys| ==> Sound(keys[i]) && keys[i].d == d && Writes(keys[i], secs[i])
    requires forall j :: 0 <= j < |f| ==> f[j] < |keys| && DerOf(keys[f[j]], z) == Some(ders[j])
    requires forall i, j :: 0 <= i < j < |f| ==> f[i] < f[j]
    ensures var stack := below + [extra] + Reverse(M.WithTypes(ders, kinds)) + [Num.Encode(|ders|)] + Reverse(secs)
                         + [Num.Encode(|secs|)];
      var (status, left) := M.CheckMultisig(KeyChecker(d, z), stack);
      (status == M.Raised && left == below) || (status == M.Succeeded && left == below + [Num.Encode(1)])
  {
    var c := KeyChecker(d, z);
    var points := seq(|keys|, i requires 0 <= i < |keys| && Sound(keys[i]) => PublicKey(keys[i]));
    var sigs := seq(|f|, j requires 0 <= j < |f| && f[j] < |keys| && Sound(keys[f[j]])
                    => E.Sign(d, keys[f[j]].secret, z, keys[f[j]].nonce(z), keys[f[j]].isHigh).value);
    forall i | 0 <= i < |secs| ensures c.parseKey(secs[i]) == M.Parsed(points[i]) {
      WrittenKeyParsed(keys[i], secs[i]);
    }
    forall j | 0 <= j < |ders| ensures c.parseSig(ders[j]) == M.Parsed(sigs[j]) && SignedBy(keys[f[j]], z, sigs[j]) {
      WrittenSigParsed(keys[f[j]], z, ders[j], sigs[j]);
    }
    M.CheckedAsLaidOut(c, below, extra, ders, kinds, secs, points, sigs);
    OwnSignaturesAccepted(keys, points, sigs, f, d, z);
  }

  /** One of the two forms of the public key. */
  predicate Writes(k: Key, sec: Bytes)
    requires k.d.c.Valid() && k.d.n > 1
  {
    Sec.Encode(PublicKey(k), true) == Some(sec) || Sec.Encode(PublicKey(k), false) == Some(sec)
  }

  lemma WrittenKeyParsed(k: Key, sec: Bytes)
    requires Sound(k) && Writes(k, sec)
    ensures ParseKey(k.d, sec) == M.Parsed(PublicKey(k))
  {
    Sec.PublicKeyReadsBack(k.d, k.secret, true);
    Sec.PublicKeyReadsBack(k.d, k.secret, false);
  }

  lemma WrittenSigParsed(k: Key, z: nat, der: Bytes, sig: E.Signature)
    requires Sound(k) && DerOf(k, z) == Some(der) && E.Sign(k.d, k.secret, z, k.nonce(z), k.isHigh) == Some(sig)
    ensures ParseSig(der) == M.Parsed(sig) && SignedBy(k, z, sig)
  {
    MadeIsRead(k, z, der, sig);
    Der.DecodeEncode(sig);
  }
}
