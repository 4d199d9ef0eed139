/** What the two digests commit to: equal preimages come from transactions that agree in every field the signature is
    meant to cover. */
module Commitments {
  import opened Prelude
  import opened Positional
  import opened Stream
  import opened Script
  import opened TxCodec
  import opened SigHash

  lemma LittleInjective(m: int, n: int, len: nat)
    requires ToLittle(m, len).Some? && ToLittle(m, len) == ToLittle(n, len)
    ensures m == n
  {
    FromLittleOfDigits(m, len);
    FromLittleOfDigits(n, len);
  }

  lemma CatAssoc(x: Option<Bytes>, y: Option<Bytes>, z: Option<Bytes>)
    ensures Cat(Cat(x, y), z) == Cat(x, Cat(y, z))
  {
    if x.Some? && y.Some? && z.Some? { assert x.value + y.value + z.value == x.value + (y.value + z.value); }
  }

  // ----- the legacy digest -----

  /** The inputs with their scripts blanked, except the signed one, which shows the script to be signed. */
  predicate ShowsAs(tx: TxData, shown: seq<In>, index: int, redeem: Option<seq<Cmd>>) {
    |shown| == |tx.ins| && forall k :: 0 <= k < |shown| ==> ShowsInputAs(tx.ins[k], shown[k], k == index, redeem)
  }

  predicate ShowsInputAs(i: In, shown: In, signed: bool, redeem: Option<seq<Cmd>>) {
    ShownScript(i, signed, redeem) == Some(shown.scriptSig)
    && shown == In(i.prevTx, i.prevIndex, shown.scriptSig, NoScript, 0, i.sequence, None)
  }

  lemma {:induction false} ShownInputsAre(tx: TxData, shown: seq<In>, from: nat, index: int, redeem: Option<seq<Cmd>>)
    requires ShowsAs(tx, shown, index, redeem) && from <= |shown|
    ensures ShownInputs(tx.ins, from, index, redeem) == Concat(shown[from..], InBytes)
    decreases |shown| - from
  {
    if from < |shown| {
      ShownInputsAre(tx, shown, from + 1, index, redeem);
      assert shown[from..][1..] == shown[from + 1..];
      assert ShowsInputAs(tx.ins[from], shown[from], from == index, redeem);
    }
  }

  /** The legacy preimage is the serialized transaction with these inputs, followed by the hash type. */
  lemma LegacyPreimageIsTransaction(tx: TxData, shown: seq<In>, index: int, redeem: Option<seq<Cmd>>)
    requires ShowsAs(tx, shown, index, redeem)
    ensures LegacyPreimage(tx, index, redeem) == Cat(LegacyBytes(tx.(ins := shown)), ToLittle(SIGHASH_ALL, 4))
  {
    ShownInputsAre(tx, shown, 0, index, redeem);
    assert shown[0..] == shown;
    CatAssoc(ToLittle(tx.version, 4), Cat(EncodeVarint(|shown|), Concat(shown, InBytes)),
             Cat(EncodeVarint(|tx.outs|), Concat(tx.outs, OutBytes)));
  }

  lemma SameShown(a: In, b: In)
    requires Misread(a) == Misread(b) && a.sequence >= 0 && b.sequence >= 0
    requires a.scriptPubkey == b.scriptPubkey && a.amount == b.amount && a.items == b.items
    ensures a == b
  {
  }

  /** Equal serialized transactions, up to what is not serialized, are the same. */
  lemma LegacyBytesInjective(x: TxData, y: TxData)
    requires Readable(x) && Readable(y) && LegacyBytes(x).Some? && LegacyBytes(x) == LegacyBytes(y)
    ensures x.version == y.version && x.outs == y.outs && x.locktime == y.locktime && |x.ins| == |y.ins|
    ensures forall k :: 0 <= k < |x.ins| ==> Misread(x.ins[k]) == Misread(y.ins[k])
    ensures forall k :: 0 <= k < |x.ins| ==> x.ins[k].sequence >= 0 && y.ins[k].sequence >= 0
  {
    LegacyBytesExactly(x);
    LegacyBytesExactly(y);
    LegacyRoundTrip(x, []);
    LegacyRoundTrip(y, []);
    forall k | 0 <= k < |x.ins|
      ensures Misread(x.ins[k]) == Misread(y.ins[k]) && x.ins[k].sequence >= 0 && y.ins[k].sequence >= 0
    {
      assert Map(x.ins, Misread)[k] == Map(y.ins, Misread)[k];
      ConcatParts(x.ins, InBytes, k);
      ConcatParts(y.ins, InBytes, k);
    }
  }

  /** Two legacy preimages are equal only if the transactions agree in version, outputs and lock time, and in outpoint,
      sequence and shown script of every input. */
  lemma LegacyCommits(x: TxData, xs: seq<In>, i: int, xRedeem: Option<seq<Cmd>>,
                      y: TxData, ys: seq<In>, j: int, yRedeem: Option<seq<Cmd>>)
    requires ShowsAs(x, xs, i, xRedeem) && ShowsAs(y, ys, j, yRedeem)
    requires Readable(x.(ins := xs)) && Readable(y.(ins := ys))
    requires LegacyPreimage(x, i, xRedeem).Some? && LegacyPreimage(x, i, xRedeem) == LegacyPreimage(y, j, yRedeem)
    ensures x.version == y.version && x.outs == y.outs && x.locktime == y.locktime && xs == ys
  {
    LegacyPreimageIsTransaction(x, xs, i, xRedeem);
    LegacyPreimageIsTransaction(y, ys, j, yRedeem);
    var a, b := x.(ins := xs), y.(ins := ys);
    SameFront(LegacyBytes(a).value, LegacyBytes(b).value, ToLittle(SIGHASH_ALL, 4).value);
    LegacyBytesInjective(a, b);
    forall k | 0 <= k < |xs| ensures xs[k] == ys[k] {
      assert ShowsInputAs(x.ins[k], xs[k], k == i, xRedeem) && ShowsInputAs(y.ins[k], ys[k], k == j, yRedeem);
      SameShown(xs[k], ys[k]);
    }
  }

  lemma SameFront(a: Bytes, b: Bytes, end: Bytes)
    requires a + end == b + end
    ensures a == b
  {
    assert |a| == |b|;
    SplitFront(a, end, b, end);
  }

  // ----- the digest of BIP 143 -----

  /** The parts of a preimage: everything before the script code, the script code, and everything after it. */
  lemma PreimageParts(h: Hash, tx: TxData, index: nat, redeem: Option<seq<Cmd>>, script: Option<seq<Cmd>>)
    returns (head: Bytes, code: Bytes, tail: Bytes)
    requires SegwitPreimage(tx, index, redeem, script, InputHashes(h, tx.ins), OutputsHash(h, tx.outs)).Some?
    ensures index < |tx.ins| && InputHashes(h, tx.ins).Some? && OutputsHash(h, tx.outs).Some?
    ensures ToLittle(tx.version, 4).Some? && OutpointBytes(tx.ins[index]).Some? && ToLittle(tx.ins[index].amount, 8).Some?
    ensures SequenceBytes(tx.ins[index]).Some? && ToLittle(tx.locktime, 4).Some?
    ensures head == ToLittle(tx.version, 4).value + (InputHashes(h, tx.ins).value.0 + InputHashes(h, tx.ins).value.1)
                    + OutpointBytes(tx.ins[index]).value
    ensures ScriptCode(tx.ins[index], redeem, script) == Some(code)
    ensures tail == ToLittle(tx.ins[index].amount, 8).value + SequenceBytes(tx.ins[index]).value
                    + OutputsHash(h, tx.outs).value + ToLittle(tx.locktime, 4).value
    ensures SegwitPreimage(tx, index, redeem, script, InputHashes(h, tx.ins), OutputsHash(h, tx.outs))
            == Some(head + code + tail + ToLittle(SIGHASH_ALL, 4).value)
  {
    var i, hashes := tx.ins[index], InputHashes(h, tx.ins).value;
    var v, outpoint, amount := ToLittle(tx.version, 4).value, OutpointBytes(i).value, ToLittle(i.amount, 8).value;
    var last, outputs, locktime := SequenceBytes(i).value, OutputsHash(h, tx.outs).value, ToLittle(tx.locktime, 4).value;
    code := ScriptCode(i, redeem, script).value;
    head, tail := v + (hashes.0 + hashes.1) + outpoint, amount + last + outputs + locktime;
    NineParts(v, hashes.0 + hashes.1, outpoint, code, amount, last, outputs, locktime, ToLittle(SIGHASH_ALL, 4).value);
  }

  lemma NineParts(a: Bytes, b: Bytes, c: Bytes, d: Bytes, e: Bytes, f: Bytes, g: Bytes, i: Bytes, j: Bytes)
    ensures a + b + (c + d + e + f) + g + i + j == (a + b + c) + d + (e + f + g + i) + j
  {
  }

  lemma SameHeads(a: Bytes, b: Bytes, c: Bytes, x: Bytes, y: Bytes, z: Bytes)
    requires |a| == |x| && |c| == |z| && a + b + c == x + y + z
    ensures a == x && b == y && c == z
  {
    assert a + b + c == a + (b + c) && x + y + z == x + (y + z);
    SplitFront(a, b + c, x, y + z);
    assert |b| == |y|;
    SplitFront(b, c, y, z);
  }

  lemma SameFour(a: Bytes, b: Bytes, c: Bytes, d: Bytes, w: Bytes, x: Bytes, y: Bytes, z: Bytes)
    requires |a| == |w| && |b| == |x| && |c| == |y| && a + b + c + d == w + x + y + z
    ensures a == w && b == x && c == y && d == z
  {
    SplitFront(a + b + c, d, w + x + y, z);
    SplitFront(a + b, c, w + x, y);
    SplitFront(a, b, w, x);
  }

  /** Two BIP 143 preimages are equal only if the transactions agree in version and lock time, in the hashes of all
      outpoints, sequences and outputs, and, at the signed inputs, in outpoint, script code, amount and sequence. */
  lemma SegwitCommits(h: Hash, x: TxData, i: nat, xRedeem: Option<seq<Cmd>>, xScript: Option<seq<Cmd>>,
                      y: TxData, j: nat, yRedeem: Option<seq<Cmd>>, yScript: Option<seq<Cmd>>)
    requires (forall b :: |h(b)| == 32) && i < |x.ins| && j < |y.ins|
    requires |x.ins[i].prevTx| == 32 && |y.ins[j].prevTx| == 32
    requires SegwitPreimage(x, i, xRedeem, xScript, InputHashes(h, x.ins), OutputsHash(h, x.outs)).Some?
    requires SegwitPreimage(x, i, xRedeem, xScript, InputHashes(h, x.ins), OutputsHash(h, x.outs))
             == SegwitPreimage(y, j, yRedeem, yScript, InputHashes(h, y.ins), OutputsHash(h, y.outs))
    ensures x.version == y.version && x.locktime == y.locktime
    ensures InputHashes(h, x.ins) == InputHashes(h, y.ins) && OutputsHash(h, x.outs) == OutputsHash(h, y.outs)
    ensures x.ins[i].prevTx == y.ins[j].prevTx && x.ins[i].prevIndex == y.ins[j].prevIndex
    ensures ScriptCode(x.ins[i], xRedeem, xScript) == ScriptCode(y.ins[j], yRedeem, yScript)
    ensures x.ins[i].amount == y.ins[j].amount && x.ins[i].sequence == y.ins[j].sequence
  {
    var a, b, c := PreimageParts(h, x, i, xRedeem, xScript);
    var d, e, f := PreimageParts(h, y, j, yRedeem, yScript);
    SameFront(a + b + c, d + e + f, ToLittle(SIGHASH_ALL, 4).value);
    SameHeads(a, b, c, d, e, f);
    HeadCommits(h, x, i, y, j);
    TailCommits(h, x, i, y, j);
  }

  lemma HeadCommits(h: Hash, x: TxData, i: nat, y: TxData, j: nat)
    requires (forall b :: |h(b)| == 32) && i < |x.ins| && j < |y.ins|
    requires |x.ins[i].prevTx| == 32 && |y.ins[j].prevTx| == 32
    requires ToLittle(x.version, 4).Some? && InputHashes(h, x.ins).Some? && OutpointBytes(x.ins[i]).Some?
    requires ToLittle(y.version, 4).Some? && InputHashes(h, y.ins).Some? && OutpointBytes(y.ins[j]).Some?
    requires ToLittle(x.version, 4).value + (InputHashes(h, x.ins).value.0 + InputHashes(h, x.ins).value.1)
               + OutpointBytes(x.ins[i]).value
             == ToLittle(y.version, 4).value + (InputHashes(h, y.ins).value.0 + InputHashes(h, y.ins).value.1)
               + OutpointBytes(y.ins[j]).value
    ensures x.version == y.version && InputHashes(h, x.ins) == InputHashes(h, y.ins)
    ensures x.ins[i].prevTx == y.ins[j].prevTx && x.ins[i].prevIndex == y.ins[j].prevIndex
  {
    var p, q := InputHashes(h, x.ins).value, InputHashes(h, y.ins).value;
    var u, v := OutpointBytes(x.ins[i]).value, OutpointBytes(y.ins[j]).value;
    SameHeads(ToLittle(x.version, 4).value, p.0 + p.1, u, ToLittle(y.version, 4).value, q.0 + q.1, v);
    SplitFront(p.0, p.1, q.0, q.1);
    LittleInjective(x.version, y.version, 4);
    SameOutpoint(x.ins[i], y.ins[j]);
  }

  lemma SameOutpoint(a: In, b: In)
    requires |a.prevTx| == |b.prevTx| && OutpointBytes(a).Some? && OutpointBytes(a) == OutpointBytes(b)
    ensures a.prevTx == b.prevTx && a.prevIndex == b.prevIndex
  {
    SplitFront(Reverse(a.prevTx), ToLittle(a.prevIndex, 4).value, Reverse(b.prevTx), ToLittle(b.prevIndex, 4).value);
    LittleInjective(a.prevIndex, b.prevIndex, 4);
    ReverseTwice(a.prevTx);
    ReverseTwice(b.prevTx);
  }

  lemma TailCommits(h: Hash, x: TxData, i: nat, y: TxData, j: nat)
    requires (forall b :: |h(b)| == 32) && i < |x.ins| && j < |y.ins|
    requires ToLittle(x.ins[i].amount, 8).Some? && SequenceBytes(x.ins[i]).Some?
    requires OutputsHash(h, x.outs).Some? && ToLittle(x.locktime, 4).Some?
    requires ToLittle(y.ins[j].amount, 8).Some? && SequenceBytes(y.ins[j]).Some?
    requires OutputsHash(h, y.outs).Some? && ToLittle(y.locktime, 4).Some?
    requires ToLittle(x.ins[i].amount, 8).value + SequenceBytes(x.ins[i]).value + OutputsHash(h, x.outs).value
               + ToLittle(x.locktime, 4).value
             == ToLittle(y.ins[j].amount, 8).value + SequenceBytes(y.ins[j]).value + OutputsHash(h, y.outs).value
               + ToLittle(y.locktime, 4).value
    ensures x.ins[i].amount == y.ins[j].amount && x.ins[i].sequence == y.ins[j].sequence
    ensures OutputsHash(h, x.outs) == OutputsHash(h, y.outs) && x.locktime == y.locktime
  {
    var a, b := x.ins[i], y.ins[j];
    var p, q := OutputsHash(h, x.outs).value, OutputsHash(h, y.outs).value;
    SameFour(ToLittle(a.amount, 8).value, SequenceBytes(a).value, p, ToLittle(x.locktime, 4).value,
             ToLittle(b.amount, 8).value, SequenceBytes(b).value, q, ToLittle(y.locktime, 4).value);
    LittleInjective(a.amount, b.amount, 8);
    LittleInjective(a.sequence, b.sequence, 4);
    LittleInjective(x.locktime, y.locktime, 4);
  }

  // ----- from the hashes to what is hashed -----

  lemma {:induction false} OutpointsInjective(xs: seq<In>, ys: seq<In>)
    requires (forall k :: 0 <= k < |xs| ==> |xs[k].prevTx| == 32) && forall k :: 0 <= k < |ys| ==> |ys[k].prevTx| == 32
    requires Concat(xs, OutpointBytes).Some? && Concat(xs, OutpointBytes) == Concat(ys, OutpointBytes)
    ensures |xs| == |ys|
    ensures forall k :: 0 <= k < |xs| ==> xs[k].prevTx == ys[k].prevTx && xs[k].prevIndex == ys[k].prevIndex
    decreases |xs|
  {
    if xs != [] && ys != [] {
      SplitFront(OutpointBytes(xs[0]).value, Concat(xs[1..], OutpointBytes).value,
                 OutpointBytes(ys[0]).value, Concat(ys[1..], OutpointBytes).value);
      SameOutpoint(xs[0], ys[0]);
      OutpointsInjective(xs[1..], ys[1..]);
      forall k | 0 <= k < |xs| ensures xs[k].prevTx == ys[k].prevTx && xs[k].prevIndex == ys[k].prevIndex {
        if k > 0 { assert xs[k] == xs[1..][k - 1] && ys[k] == ys[1..][k - 1]; }
      }
    }
  }

  lemma {:induction false} SequencesInjective(xs: seq<In>, ys: seq<In>)
    requires Concat(xs, SequenceBytes).Some? && Concat(xs, SequenceBytes) == Concat(ys, SequenceBytes)
    ensures |xs| == |ys| && forall k :: 0 <= k < |xs| ==> xs[k].sequence == ys[k].sequence
    decreases |xs|
  {
    if xs != [] && ys != [] {
      SplitFront(SequenceBytes(xs[0]).value, Concat(xs[1..], SequenceBytes).value,
                 SequenceBytes(ys[0]).value, Concat(ys[1..], SequenceBytes).value);
      LittleInjective(xs[0].sequence, ys[0].sequence, 4);
      SequencesInjective(xs[1..], ys[1..]);
      forall k | 0 <= k < |xs| ensures xs[k].sequence == ys[k].sequence {
        if k > 0 { assert xs[k] == xs[1..][k - 1] && ys[k] == ys[1..][k - 1]; }
      }
    }
  }

  lemma {:induction false} OutputsInjective(xs: seq<Out>, ys: seq<Out>)
    requires forall k :: 0 <= k < |xs| ==> AllReprintable(xs[k].scriptPubkey)
    requires forall k :: 0 <= k < |ys| ==> AllReprintable(ys[k].scriptPubkey)
    requires Concat(xs, OutBytes).Some? && Concat(xs, OutBytes) == Concat(ys, OutBytes)
    ensures xs == ys
    decreases |xs|
  {
    if xs != [] && ys != [] {
      var xTail, yTail := Concat(xs[1..], OutBytes).value, Concat(ys[1..], OutBytes).value;
      ReadBackOut(xs[0], xTail);
      ReadBackOut(ys[0], yTail);
      OutputsInjective(xs[1..], ys[1..]);
      assert xs == [xs[0]] + xs[1..] && ys == [ys[0]] + ys[1..];
    }
  }

  /** The hash tells two strings apart. */
  predicate Separates(h: Hash, a: Option<Bytes>, b: Option<Bytes>) { a.Some? && b.Some? && h(a.value) == h(b.value) ==> a == b }

  /** If the hash separates the strings hashed for outpoints, for sequences and for outputs, equal preimages come from
      transactions that agree in all outpoints, all sequences and all outputs. */
  lemma SegwitCommitsToAll(h: Hash, x: TxData, i: nat, xRedeem: Option<seq<Cmd>>, xScript: Option<seq<Cmd>>,
                           y: TxData, j: nat, yRedeem: Option<seq<Cmd>>, yScript: Option<seq<Cmd>>)
    requires (forall b :: |h(b)| == 32) && i < |x.ins| && j < |y.ins|
    requires (forall k :: 0 <= k < |x.ins| ==> |x.ins[k].prevTx| == 32)
    requires (forall k :: 0 <= k < |y.ins| ==> |y.ins[k].prevTx| == 32)
    requires forall k :: 0 <= k < |x.outs| ==> AllReprintable(x.outs[k].scriptPubkey)
    requires forall k :: 0 <= k < |y.outs| ==> AllReprintable(y.outs[k].scriptPubkey)
    requires Separates(h, Concat(x.ins, OutpointBytes), Concat(y.ins, OutpointBytes))
    requires Separates(h, Concat(x.ins, SequenceBytes), Concat(y.ins, SequenceBytes))
    requires Separates(h, Concat(x.outs, OutBytes), Concat(y.outs, OutBytes))
    requires SegwitPreimage(x, i, xRedeem, xScript, InputHashes(h, x.ins), OutputsHash(h, x.outs)).Some?
    requires SegwitPreimage(x, i, xRedeem, xScript, InputHashes(h, x.ins), OutputsHash(h, x.outs))
             == SegwitPreimage(y, j, yRedeem, yScript, InputHashes(h, y.ins), OutputsHash(h, y.outs))
    ensures |x.ins| == |y.ins| && x.outs == y.outs
    ensures forall k :: 0 <= k < |x.ins| ==> x.ins[k].prevTx == y.ins[k].prevTx
    ensures forall k :: 0 <= k < |x.ins| ==> x.ins[k].prevIndex == y.ins[k].prevIndex
    ensures forall k :: 0 <= k < |x.ins| ==> x.ins[k].sequence == y.ins[k].sequence
  {
    SegwitCommits(h, x, i, xRedeem, xScript, y, j, yRedeem, yScript);
    OutpointsInjective(x.ins, y.ins);
    SequencesInjective(x.ins, y.ins);
    OutputsInjective(x.outs, y.outs);
  }
}
