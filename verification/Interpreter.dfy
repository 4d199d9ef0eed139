/** The script machine (Bitcoin/script.py: Script.evaluate; Bitcoin/op.py: op_if, op_notif, and the operations the
    pay-to-script-hash rule uses). The other operations are a table, taken as a parameter. */
module Interpreter {
  import opened Prelude
  import opened Stream
  import opened Script
  import Num = ScriptNum

  type Stack = seq<Bytes>

  datatype Machine = Machine(stack: Stack, altstack: Stack)

  /** An operation succeeds, returns False, or raises. */
  datatype OpResult = Done(machine: Machine) | Fails | Raises

  /** Everything evaluate does not compute itself: OP_CODE_FUNCTIONS for the signature hash at hand, without the
      conditionals, and hash160. */
  datatype Env = Env(operate: (Byte, Machine) -> OpResult, hash160: Bytes -> Bytes)

  /** How evaluation ends. Unbound is the missing table entry of OP_ELSE and OP_ENDIF; WitnessRule is the hand-over to
      the rules for witness programs. */
  datatype Outcome = Accept | Reject | Crash | Unbound(code: Byte) | WitnessRule

  datatype Transition = Next(cmds: seq<Cmd>, machine: Machine) | Stop(outcome: Outcome)

  const IF: Byte := 99
  const NOTIF: Byte := 100
  const ELSE: Byte := 103
  const ENDIF: Byte := 104

  // ----- conditionals -----

  /** The two branches of a conditional and what follows its OP_ENDIF. */
  datatype Branches = Branches(whenTrue: seq<Cmd>, whenFalse: seq<Cmd>, after: seq<Cmd>)

  /** The loop of op_if: `depth` OP_ENDIFs are still needed, and items go to the second branch if `second`. */
  function Scan(items: seq<Cmd>, depth: nat, second: bool): (r: Option<Branches>)
    ensures r.Some? ==> |r.value.whenTrue| + |r.value.whenFalse| + |r.value.after| < |items|
  {
    if items == [] then None
    else
      var item, rest := items[0], items[1..];
      if item == Op(IF) || item == Op(NOTIF) then Keep(item, Scan(rest, depth + 1, second), second)
      else if depth == 1 && item == Op(ELSE) then Scan(rest, depth, true)
      else if item == Op(ENDIF) then
        if depth <= 1 then Some(Branches([], [], rest)) else Keep(item, Scan(rest, depth - 1, second), second)
      else Keep(item, Scan(rest, depth, second), second)
  }

  function Keep(item: Cmd, scanned: Option<Branches>, second: bool): (r: Option<Branches>)
    ensures r.Some? <==> scanned.Some?
  {
    match scanned
    case None => None
    case Some(Branches(t, f, after)) =>
      Some(if second then Branches(t, [item] + f, after) else Branches([item] + t, f, after))
  }

  /** op_if and op_notif; None where they return False. */
  function Conditional(negated: bool, items: seq<Cmd>, stack: Stack): Option<(seq<Cmd>, Stack)> {
    if stack == [] then None
    else match Scan(items, 1, false)
      case None => None
      case Some(Branches(t, f, after)) =>
        var zero := Num.Decode(stack[|stack| - 1]) == 0;
        Some(((if zero == negated then t else f) + after, stack[..|stack| - 1]))
  }

  // ----- operations of the pay-to-script-hash rule -----

  function OpHash160(env: Env, stack: Stack): Option<Stack> {
    if stack == [] then None else Some(stack[..|stack| - 1] + [env.hash160(stack[|stack| - 1])])
  }

  function OpEqual(stack: Stack): Option<Stack> {
    var n := |stack|;
    if n < 2 then None
    else Some(stack[..n - 2] + [Num.Encode(if stack[n - 1] == stack[n - 2] then 1 else 0)])
  }

  function OpVerify(stack: Stack): Option<Stack> {
    if stack == [] || Num.Decode(stack[|stack| - 1]) == 0 then None else Some(stack[..|stack| - 1])
  }

  /** op_hash160, a push, op_equal and op_verify in a row. */
  function CheckHash(env: Env, stack: Stack, expected: Bytes): Option<Stack> {
    match OpHash160(env, stack)
    case None => None
    case Some(hashed) =>
      match OpEqual(hashed + [expected])
      case None => None
      case Some(compared) => OpVerify(compared)
  }

  /** The queue is OP_HASH160, a 20-byte element, OP_EQUAL. */
  predicate IsP2sh(cmds: seq<Cmd>) {
    |cmds| == 3 && cmds[0] == Op(0xa9) && cmds[1].Push? && |cmds[1].data| == 20 && cmds[2] == Op(0x87)
  }

  predicate IsWitnessProgram(stack: Stack) {
    |stack| == 2 && stack[0] == [] && (|stack[1]| == 20 || |stack[1]| == 32)
  }

  /** The pay-to-script-hash rule: the pushed element must have the expected hash, and is then run as a script. */
  function Redeem(env: Env, element: Bytes, expected: Bytes, m: Machine): Transition {
    match EncodeVarint(|element|)
    case None => Stop(Crash)
    case Some(prefix) =>
      match CheckHash(env, m.stack, expected)
      case None => Stop(Reject)
      case Some(stack) =>
        match Parse(prefix + element)
        case None => Stop(Crash)
        case Some((cmds, _)) => Next(cmds, m.(stack := stack))
  }

  // ----- evaluation -----

  /** What follows a push, before the witness rules are looked at. */
  function AfterPush(env: Env, element: Bytes, rest: seq<Cmd>, m: Machine): Transition {
    var pushed := m.(stack := m.stack + [element]);
    if IsP2sh(rest) then Redeem(env, element, rest[1].data, pushed) else Next(rest, pushed)
  }

  /** What an opcode does to the rest of the queue and the machine. */
  function Dispatch(env: Env, code: Byte, rest: seq<Cmd>, m: Machine): Transition {
    if code == IF || code == NOTIF then
      (match Conditional(code == NOTIF, rest, m.stack)
       case None => Stop(Reject)
       case Some((queue, stack)) => Next(queue, m.(stack := stack)))
    else if code == ELSE || code == ENDIF then Stop(Unbound(code))
    else
      match env.operate(code, m)
      case Done(after) => Next(rest, after)
      case Fails => Stop(Reject)
      case Raises => Stop(Crash)
  }

  /** One pass of the loop in evaluate. */
  function Step(env: Env, cmds: seq<Cmd>, m: Machine): Transition
    requires cmds != []
  {
    var rest := cmds[1..];
    match cmds[0]
    case Op(code) => Dispatch(env, code, rest, m)
    case Push(element) =>
      var t := AfterPush(env, element, rest, m);
      if t.Next? && IsWitnessProgram(t.machine.stack) then Stop(WitnessRule) else t
  }

  /** The verdict on the final stack. */
  function Verdict(m: Machine): Outcome {
    if m.stack == [] || m.stack[|m.stack| - 1] == [] then Reject else Accept
  }

  lemma {:induction false} ScanShrinks(items: seq<Cmd>, depth: nat, second: bool)
    requires Scan(items, depth, second).Some?
    ensures var b := Scan(items, depth, second).value;
      TotalSize(b.whenTrue) + TotalSize(b.whenFalse) + TotalSize(b.after) < TotalSize(items)
  {
    var item, rest := items[0], items[1..];
    if item == Op(IF) || item == Op(NOTIF) {
      ScanShrinks(rest, depth + 1, second);
      KeepSize(item, Scan(rest, depth + 1, second), second);
    } else if depth == 1 && item == Op(ELSE) {
      ScanShrinks(rest, depth, true);
    } else if item == Op(ENDIF) {
      if depth > 1 {
        ScanShrinks(rest, depth - 1, second);
        KeepSize(item, Scan(rest, depth - 1, second), second);
      } else {
        assert TotalSize([]) == 0;
      }
    } else {
      ScanShrinks(rest, depth, second);
      KeepSize(item, Scan(rest, depth, second), second);
    }
  }

  lemma KeepSize(item: Cmd, scanned: Option<Branches>, second: bool)
    requires scanned.Some?
    ensures var (b, k) := (scanned.value, Keep(item, scanned, second).value);
      TotalSize(k.whenTrue) + TotalSize(k.whenFalse) + TotalSize(k.after)
      == Size(item) + TotalSize(b.whenTrue) + TotalSize(b.whenFalse) + TotalSize(b.after)
  {
    var b := scanned.value;
    assert ([item] + b.whenTrue)[1..] == b.whenTrue && ([item] + b.whenFalse)[1..] == b.whenFalse;
  }

  /** Every pass that goes on leaves fewer bytes in the queue, whether it dropped a command, spliced a branch back in
      or replaced the queue by a redeem script. */
  lemma StepShrinks(env: Env, cmds: seq<Cmd>, m: Machine)
    requires cmds != [] && Step(env, cmds, m).Next?
    ensures TotalSize(Step(env, cmds, m).cmds) < TotalSize(cmds)
  {
    var rest := cmds[1..];
    match cmds[0]
    case Op(code) =>
      if code == IF || code == NOTIF {
        ScanShrinks(rest, 1, false);
        var b := Scan(rest, 1, false).value;
        TotalSizeConcat(b.whenTrue, b.after);
        TotalSizeConcat(b.whenFalse, b.after);
      }
    case Push(element) =>
      if IsP2sh(rest) { RedeemShrinks(env, element, rest[1].data, m.(stack := m.stack + [element])); }
  }

  lemma RedeemShrinks(env: Env, element: Bytes, expected: Bytes, m: Machine)
    requires Redeem(env, element, expected, m).Next?
    ensures TotalSize(Redeem(env, element, expected, m).cmds) <= |element|
  {
    VarintRoundTrip(|element|, element);
    ParsedSize(element, |element|);
  }

  /** The three commands leave the stack below the pushed element exactly when the element has the expected hash. */
  lemma CheckHashMeaning(env: Env, element: Bytes, expected: Bytes, stack: Stack)
    ensures CheckHash(env, stack + [element], expected) == if env.hash160(element) != expected then None else Some(stack)
  {
    var hashed := stack + [env.hash160(element)];
    assert OpHash160(env, stack + [element]) == Some(hashed);
    CompareMeaning(stack, env.hash160(element), expected);
  }

  lemma CompareMeaning(stack: Stack, x: Bytes, y: Bytes)
    ensures OpEqual(stack + [x] + [y]).Some?
    ensures OpVerify(OpEqual(stack + [x] + [y]).value) == if x != y then None else Some(stack)
  {
    var both, flag := stack + [x] + [y], Num.Encode(if y == x then 1 else 0);
    assert both[..|both| - 2] == stack && both[|both| - 1] == y && both[|both| - 2] == x;
    assert OpEqual(both) == Some(stack + [flag]);
    Num.DecodeEncode(if y == x then 1 else 0);
    assert (stack + [flag])[..|stack|] == stack;
  }

  /** The rule for pay-to-script-hash: if the element has the expected hash, it is run as a script on the stack below
      it. */
  lemma RedeemMeaning(env: Env, element: Bytes, expected: Bytes, stack: Stack, altstack: Stack)
    requires EncodeVarint(|element|).Some?
    ensures var t := Redeem(env, element, expected, Machine(stack + [element], altstack));
      var (cmds, _, over) := ParseCmds(element, |element|);
      t == if env.hash160(element) != expected then Stop(Reject)
           else if over != 0 then Stop(Crash)
           else Next(cmds, Machine(stack, altstack))
  {
    VarintRoundTrip(|element|, element);
    CheckHashMeaning(env, element, expected, stack);
  }

  /** The rule looks for exactly these three commands behind the pushed element. */
  lemma P2shExactly(rest: seq<Cmd>)
    ensures IsP2sh(rest) <==> exists h: Bytes :: |h| == 20 && rest == [Op(0xa9), Push(h), Op(0x87)]
  {
    if IsP2sh(rest) { assert rest == [Op(0xa9), Push(rest[1].data), Op(0x87)]; }
  }

  /** Without them, and unless it completes a witness program, an element is pushed and nothing else happens. */
  lemma PushExactly(env: Env, element: Bytes, rest: seq<Cmd>, m: Machine)
    requires forall h: Bytes :: |h| == 20 ==> rest != [Op(0xa9), Push(h), Op(0x87)]
    requires !(|m.stack| == 1 && m.stack[0] == [] && (|element| == 20 || |element| == 32))
    ensures Step(env, [Push(element)] + rest, m) == Next(rest, Machine(m.stack + [element], m.altstack))
  {
    P2shExactly(rest);
    assert ([Push(element)] + rest)[1..] == rest;
  }

  /** Evaluation from a queue and a machine to the end. */
  function Run(env: Env, cmds: seq<Cmd>, m: Machine): Outcome
    decreases TotalSize(cmds)
  {
    if cmds == [] then Verdict(m)
    else match Step(env, cmds, m)
      case Stop(outcome) => outcome
      case Next(queue, after) =>
        StepShrinks(env, cmds, m);
        Run(env, queue, after)
  }

  /** Paying to a script hash: an element that does not have the hash is rejected; otherwise it is run as a script, or
      evaluation raises because its commands overrun it. */
  lemma ScriptHashMeaning(env: Env, element: Bytes, h: Bytes, m: Machine)
    requires |h| == 20 && EncodeVarint(|element|).Some? && !IsWitnessProgram(m.stack)
    ensures var (cmds, _, over) := ParseCmds(element, |element|);
      Run(env, [Push(element), Op(0xa9), Push(h), Op(0x87)], m)
      == if env.hash160(element) != h then Reject else if over != 0 then Crash else Run(env, cmds, m)
  {
    var rest := [Op(0xa9), Push(h), Op(0x87)];
    assert [Push(element), Op(0xa9), Push(h), Op(0x87)][1..] == rest;
    RedeemMeaning(env, element, h, m.stack, m.altstack);
  }

  function Pushes(xs: seq<Bytes>): (cmds: seq<Cmd>)
    ensures |cmds| == |xs| && forall k :: 0 <= k < |xs| ==> cmds[k] == Push(xs[k])
  {
    seq(|xs|, k requires 0 <= k < |xs| => Push(xs[k]))
  }

  lemma RunPush(env: Env, data: Bytes, rest: seq<Cmd>, m: Machine)
    requires !IsP2sh(rest) && !IsWitnessProgram(m.stack + [data])
    ensures Run(env, [Push(data)] + rest, m) == Run(env, rest, m.(stack := m.stack + [data]))
  {
    assert ([Push(data)] + rest)[1..] == rest;
  }

  lemma RunPushes(env: Env, xs: seq<Bytes>, stack: Stack, altstack: Stack)
    requires xs != [] && !IsWitnessProgram(stack + [xs[0]])
    ensures Run(env, Pushes(xs), Machine(stack, altstack)) == Run(env, Pushes(xs[1..]), Machine(stack + [xs[0]], altstack))
  {
    assert Pushes(xs) == [Push(xs[0])] + Pushes(xs[1..]);
    RunPush(env, xs[0], Pushes(xs[1..]), Machine(stack, altstack));
  }

  lemma {:induction false} PushesOn(env: Env, xs: seq<Bytes>, stack: Stack, altstack: Stack)
    requires |stack| >= 2
    ensures Run(env, Pushes(xs), Machine(stack, altstack)) == Verdict(Machine(stack + xs, altstack))
    decreases |xs|
  {
    if xs == [] {
      assert stack + xs == stack;
    } else {
      assert stack + [xs[0]] + xs[1..] == stack + xs;
      RunPushes(env, xs, stack, altstack);
      PushesOn(env, xs[1..], stack + [xs[0]], altstack);
    }
  }

  lemma PushesFromStart(env: Env, xs: seq<Bytes>, altstack: Stack)
    requires |xs| >= 2 && !IsWitnessProgram(xs[..2])
    ensures Run(env, Pushes(xs), Machine([], altstack)) == Verdict(Machine(xs, altstack))
  {
    assert [] + [xs[0]] == [xs[0]] && [xs[0]] + [xs[1..][0]] == xs[..2] && xs[1..][1..] == xs[2..];
    RunPushes(env, xs, [], altstack);
    RunPushes(env, xs[1..], [xs[0]], altstack);
    PushesOn(env, xs[2..], xs[..2], altstack);
    assert xs[..2] + xs[2..] == xs;
  }

  /** A script of elements alone is accepted exactly if there is a last one and it is not empty, unless the first two are
      a witness program. */
  lemma PushesRun(env: Env, xs: seq<Bytes>, altstack: Stack)
    requires |xs| >= 2 ==> !IsWitnessProgram(xs[..2])
    ensures Run(env, Pushes(xs), Machine([], altstack)) == if xs != [] && xs[|xs| - 1] != [] then Accept else Reject
  {
    if |xs| == 1 {
      assert [] + [xs[0]] == xs && xs[1..] == [] && Pushes([]) == [];
      RunPushes(env, xs, [], altstack);
    } else if |xs| > 1 {
      PushesFromStart(env, xs, altstack);
    }
  }

  /** The state of one call of evaluate. */
  class Evaluation {
    var cmds: seq<Cmd>
    var stack: Stack
    var altstack: Stack

    constructor (script: seq<Cmd>)
      ensures cmds == script && stack == [] && altstack == []
    {
      cmds, stack, altstack := script, [], [];
    }

    /** op_if and op_notif: drains the queue up to the matching OP_ENDIF and puts the chosen branch back. */
    method OpIf(negated: bool) returns (ok: bool)
      modifies this
      ensures altstack == old(altstack)
      ensures match Conditional(negated, old(cmds), old(stack))
              case None => !ok
              case Some((queue, rest)) => ok && cmds == queue && stack == rest
    {
      if |stack| < 1 { return false; }
      var whenTrue: seq<Cmd>, whenFalse: seq<Cmd>, second, found, needed: nat := [], [], false, false, 1;
      ghost var all := Scan(cmds, 1, false);
      JoinNothing(all);
      while |cmds| > 0 && !found
        invariant needed >= 1 && stack == old(stack) && altstack == old(altstack)
        invariant !found ==> Joined(whenTrue, whenFalse, Scan(cmds, needed, second)) == all
        invariant found ==> all == Some(Branches(whenTrue, whenFalse, cmds))
        decreases |cmds|
      {
        var item := cmds[0];
        cmds := cmds[1..];
        if item == Op(IF) || item == Op(NOTIF) {
          needed := needed + 1;
          JoinKeep(whenTrue, whenFalse, item, Scan(cmds, needed, second), second);
          if second { whenFalse := whenFalse + [item]; } else { whenTrue := whenTrue + [item]; }
        } else if needed == 1 && item == Op(ELSE) {
          second := true;
        } else if item == Op(ENDIF) && needed == 1 {
          assert whenTrue + [] == whenTrue && whenFalse + [] == whenFalse;
          found := true;
        } else {
          if item == Op(ENDIF) { needed := needed - 1; }
          JoinKeep(whenTrue, whenFalse, item, Scan(cmds, needed, second), second);
          if second { whenFalse := whenFalse + [item]; } else { whenTrue := whenTrue + [item]; }
        }
      }
      if !found { return false; }
      var element := stack[|stack| - 1];
      stack := stack[..|stack| - 1];
      cmds := (if (Num.Decode(element) == 0) == negated then whenTrue else whenFalse) + cmds;
      ok := true;
    }

    /** One pass of the loop. Where a witness rule fires, the program is on the stack and the rest in the queue. */
    method Pass(env: Env) returns (stop: Option<Outcome>)
      requires cmds != []
      modifies this
      ensures match Step(env, old(cmds), Machine(old(stack), old(altstack)))
              case Next(queue, after) => stop == None && cmds == queue && Machine(stack, altstack) == after
              case Stop(outcome) => stop == Some(outcome)
      ensures stop == Some(WitnessRule) ==> old(cmds)[0].Push? && IsWitnessProgram(stack)
      ensures stop == Some(WitnessRule) ==>
        AfterPush(env, old(cmds)[0].data, old(cmds)[1..], Machine(old(stack), old(altstack)))
        == Next(cmds, Machine(stack, altstack))
    {
      var cmd := cmds[0];
      cmds := cmds[1..];
      match cmd {
        case Op(code) =>
          if code == IF || code == NOTIF {
            var ok := OpIf(code == NOTIF);
            if !ok { return Some(Reject); }
          } else if code == ELSE || code == ENDIF {
            return Some(Unbound(code));
          } else {
            var result := env.operate(code, Machine(stack, altstack));
            if result.Fails? { return Some(Reject); }
            if result.Raises? { return Some(Crash); }
            stack, altstack := result.machine.stack, result.machine.altstack;
          }
        case Push(element) =>
          stack := stack + [element];
          if IsP2sh(cmds) {
            var prefix := EncodeVarint(|element|);
            if prefix.None? { return Some(Crash); }
            var checked := CheckHash(env, stack, cmds[1].data);
            if checked.None? { return Some(Reject); }
            stack := checked.value;
            var stream := new ByteStream(prefix.value + element);
            var redeem := ParseFrom(stream);
            if redeem.None? { return Some(Crash); }
            cmds := redeem.value;
          }
          if IsWitnessProgram(stack) { return Some(WitnessRule); }
      }
      stop := None;
    }

    /** The loop of evaluate, up to the verdict. It terminates on every script. */
    method Evaluate(env: Env) returns (outcome: Outcome)
      modifies this
      ensures outcome == Run(env, old(cmds), Machine(old(stack), old(altstack)))
    {
      ghost var start := Run(env, cmds, Machine(stack, altstack));
      while |cmds| > 0
        invariant Run(env, cmds, Machine(stack, altstack)) == start
        decreases TotalSize(cmds)
      {
        ghost var queue, machine := cmds, Machine(stack, altstack);
        if Step(env, queue, machine).Next? { StepShrinks(env, queue, machine); }
        var stop := Pass(env);
        if stop.Some? { return stop.value; }
      }
      outcome := Verdict(Machine(stack, altstack));
    }
  }

  /** The branches collected so far in front of those still to be scanned. */
  function Joined(whenTrue: seq<Cmd>, whenFalse: seq<Cmd>, later: Option<Branches>): Option<Branches> {
    match later
    case None => None
    case Some(Branches(t, f, after)) => Some(Branches(whenTrue + t, whenFalse + f, after))
  }

  lemma JoinNothing(later: Option<Branches>)
    ensures Joined([], [], later) == later
  {
    if later.Some? {
      assert [] + later.value.whenTrue == later.value.whenTrue && [] + later.value.whenFalse == later.value.whenFalse;
    }
  }

  lemma JoinKeep(whenTrue: seq<Cmd>, whenFalse: seq<Cmd>, item: Cmd, later: Option<Branches>, second: bool)
    ensures Joined(whenTrue, whenFalse, Keep(item, later, second))
         == Joined(if second then whenTrue else whenTrue + [item], if second then whenFalse + [item] else whenFalse, later)
  {
    if later.Some? {
      assert whenTrue + ([item] + later.value.whenTrue) == (whenTrue + [item]) + later.value.whenTrue;
      assert whenFalse + ([item] + later.value.whenFalse) == (whenFalse + [item]) + later.value.whenFalse;
    }
  }
}
