/** Signature checks on the stack with real keys and signatures (Bitcoin/op.py: op_checksig, op_checkmultisig, with
    ecc.py: S256Point.parse, Signature.parse and S256Point.verify). */
module Checksig {
  import opened Prelude
  import opened Multisig
  import I = Interpreter
  import C = Curve
  import E = Ecdsa
  import Num = ScriptNum
  import Der
  import Sec

  /** S256Point.parse, with what it raises: an index error on no bytes, a value error otherwise. */
  function ParseKey(d: E.Domain, sec: Bytes): ParseResult<C.Point>
    requires d.c.Valid()
  {
    if sec == [] then Broken
    else match Sec.Parse(d.c, sec) case None => Malformed case Some(point) => Parsed(point)
  }

  /** Reading an integer runs off the end, which the operations do not catch. */
  predicate IntegerCut(b: Bytes) { b == [] || (b[0] == 2 && |b| == 1) }

  predicate SignatureCut(b: Bytes) {
    b == []
    || (b[0] == 0x30
        && (|b| == 1
            || (|b| - 2 == b[1]
                && (IntegerCut(b[2..]) || (var r := Der.ReadInteger(b[2..]); r.Some? && IntegerCut(r.value.2))))))
  }

  /** Signature.parse, with what it raises: an index error at the end of the bytes, a syntax error otherwise. */
  function ParseSig(b: Bytes): ParseResult<E.Signature> {
    if SignatureCut(b) then Broken
    else match Der.Decode(b) case None => Malformed case Some(sig) => Parsed(sig)
  }

  lemma CutIsNotDecoded(b: Bytes)
    requires SignatureCut(b)
    ensures Der.Decode(b) == None
  {
  }

  lemma DecodedIsParsed(d: E.Domain, sec: Bytes, der: Bytes)
    requires d.c.Valid() && Sec.Parse(d.c, sec).Some? && Der.Decode(der).Some?
    ensures ParseKey(d, sec) == Parsed(Sec.Parse(d.c, sec).value) && ParseSig(der) == Parsed(Der.Decode(der).value)
  {
    if SignatureCut(der) { CutIsNotDecoded(der); }
  }

  function OpCheckSig(d: E.Domain, z: int, m: I.Machine): I.OpResult
    requires d.c.Valid() && d.n > 1
  {
    var n := |m.stack|;
    if n < 2 then I.Fails
    else match ParseKey(d, m.stack[n - 1])
      case Broken => I.Raises
      case Malformed => I.Fails
      case Parsed(key) =>
        match ParseSig(ButLast(m.stack[n - 2]))
        case Broken => I.Raises
        case Malformed => I.Fails
        case Parsed(sig) =>
          match E.Verify(d, key, z, sig)
          case None => I.Raises
          case Some(ok) => I.Done(m.(stack := m.stack[..n - 2] + [Num.Encode(if ok then 1 else 0)]))
  }

  /** The parsers and the check that op_checkmultisig uses. */
  function KeyChecker(d: E.Domain, z: int): Checker<C.Point, E.Signature>
    requires d.c.Valid() && d.n > 1
  {
    Checker(sec => ParseKey(d, sec), der => ParseSig(der), (key, sig) => E.Verify(d, key, z, sig))
  }
}
