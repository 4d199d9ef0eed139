/** The rules for witness programs in the script machine (Bitcoin/script.py: Script.evaluate, its last two conditions).
    They lengthen the queue, so that no measure bounds the passes of the loop: a run is followed for a number of passes,
    and its outcome is the one it has after sufficiently many. */
module Witness {
  import opened Prelude
  import opened Script
  import opened SigHash
  import opened Interpreter
  import Num = ScriptNum

  /** The witness as commands, of which numbers are opcodes; None for None. */
  type Items = Option<seq<Cmd>>

  /** What follows a push that leaves a witness program on the stack: a key hash queues the witness and the script for
      that hash. For a script hash the code compares bytes with a hash object, finds them different, and raises on the
      way to its message. */
  function Rule(items: Items, rest: seq<Cmd>, m: Machine): Transition
    requires IsWitnessProgram(m.stack)
  {
    if |m.stack[1]| == 32 || items.None? then Stop(Crash)
    else Next(rest + items.value + P2pkh(Push(m.stack[1])), m.(stack := []))
  }

  /** One pass of the loop, with the rules. */
  function FullStep(env: Env, items: Items, cmds: seq<Cmd>, m: Machine): Transition
    requires cmds != []
  {
    match cmds[0]
    case Op(code) => Dispatch(env, code, cmds[1..], m)
    case Push(element) =>
      var t := AfterPush(env, element, cmds[1..], m);
      if t.Next? && IsWitnessProgram(t.machine.stack) then Rule(items, t.cmds, t.machine) else t
  }

  /** Where the loop is after n passes, or how it ended. */
  function After(env: Env, items: Items, n: nat, cmds: seq<Cmd>, m: Machine): Transition {
    if n == 0 then Next(cmds, m)
    else if cmds == [] then Stop(Verdict(m))
    else match FullStep(env, items, cmds, m)
      case Stop(outcome) => Stop(outcome)
      case Next(queue, after) => After(env, items, n - 1, queue, after)
  }

  /** One pass of the loop, in place. */
  method FullPass(e: Evaluation, env: Env, items: Items) returns (stop: Option<Outcome>)
    requires e.cmds != []
    modifies e
    ensures match FullStep(env, items, old(e.cmds), Machine(old(e.stack), old(e.altstack)))
            case Next(queue, after) => stop == None && e.cmds == queue && Machine(e.stack, e.altstack) == after
            case Stop(outcome) => stop == Some(outcome)
  {
    stop := e.Pass(env);
    if stop == Some(WitnessRule) {
      var h160 := e.stack[1];
      if |h160| == 32 || items.None? { return Some(Crash); }
      e.stack := [];
      e.cmds := e.cmds + items.value + P2pkh(Push(h160));
      stop := None;
    }
  }

  /** The loop of evaluate, with the rules, for so many passes: where it is then, or how it ended. */
  method EvaluateWithin(e: Evaluation, env: Env, items: Items, passes: nat) returns (t: Transition)
    modifies e
    ensures t == After(env, items, passes, old(e.cmds), Machine(old(e.stack), old(e.altstack)))
    ensures t.Next? ==> t == Next(e.cmds, Machine(e.stack, e.altstack))
  {
    ghost var end := After(env, items, passes, e.cmds, Machine(e.stack, e.altstack));
    for n := 0 to passes
      invariant After(env, items, passes - n, e.cmds, Machine(e.stack, e.altstack)) == end
    {
      if |e.cmds| == 0 { return Stop(Verdict(Machine(e.stack, e.altstack))); }
      var stop := FullPass(e, env, items);
      if stop.Some? { return Stop(stop.value); }
    }
    t := Next(e.cmds, Machine(e.stack, e.altstack));
  }

  /** evaluate ends with this outcome. */
  ghost predicate Ends(env: Env, items: Items, cmds: seq<Cmd>, m: Machine, outcome: Outcome) {
    exists n: nat :: After(env, items, n, cmds, m) == Stop(outcome)
  }

  /** It does so going on from the end of a pass. */
  ghost predicate EndsFrom(env: Env, items: Items, t: Transition, outcome: Outcome) {
    match t
    case Stop(o) => o == outcome
    case Next(cmds, m) => Ends(env, items, cmds, m, outcome)
  }

  lemma {:induction false} StaysEnded(env: Env, items: Items, n: nat, k: nat, cmds: seq<Cmd>, m: Machine)
    requires After(env, items, n, cmds, m).Stop? && n <= k
    ensures After(env, items, k, cmds, m) == After(env, items, n, cmds, m)
  {
    if cmds != [] {
      var t := FullStep(env, items, cmds, m);
      if t.Next? { StaysEnded(env, items, n - 1, k - 1, t.cmds, t.machine); }
    }
  }

  /** A run has at most one outcome. */
  lemma OneOutcome(env: Env, items: Items, cmds: seq<Cmd>, m: Machine, o: Outcome, p: Outcome)
    requires Ends(env, items, cmds, m, o) && Ends(env, items, cmds, m, p)
    ensures o == p
  {
    var n: nat :| After(env, items, n, cmds, m) == Stop(o);
    var k: nat :| After(env, items, k, cmds, m) == Stop(p);
    StaysEnded(env, items, n, n + k, cmds, m);
    StaysEnded(env, items, k, n + k, cmds, m);
  }

  lemma NoCommands(env: Env, items: Items, m: Machine, outcome: Outcome)
    ensures Ends(env, items, [], m, outcome) <==> outcome == Verdict(m)
  {
    var one: nat := 1;
    assert After(env, items, one, [], m) == Stop(Verdict(m));
    if Ends(env, items, [], m, outcome) { OneOutcome(env, items, [], m, outcome, Verdict(m)); }
  }

  /** The outcome of a run is that of what its first pass leaves. */
  lemma OnePass(env: Env, items: Items, cmds: seq<Cmd>, m: Machine, outcome: Outcome)
    requires cmds != []
    ensures Ends(env, items, cmds, m, outcome) <==> EndsFrom(env, items, FullStep(env, items, cmds, m), outcome)
  {
    var t := FullStep(env, items, cmds, m);
    if Ends(env, items, cmds, m, outcome) {
      var n: nat :| After(env, items, n, cmds, m) == Stop(outcome);
      assert n > 0;
      assert t.Next? ==> After(env, items, n - 1, t.cmds, t.machine) == Stop(outcome);
    }
    if EndsFrom(env, items, t, outcome) {
      var n := 1;
      if t.Next? {
        n :| n >= 0 && After(env, items, n, t.cmds, t.machine) == Stop(outcome);
        n := n + 1;
      }
      assert After(env, items, n, cmds, m) == Stop(outcome);
    }
  }

  /** A run on which no rule fires ends as Interpreter.Run says, whatever the witness. */
  lemma {:induction false} EndsAsRun(env: Env, items: Items, cmds: seq<Cmd>, m: Machine)
    requires Run(env, cmds, m) != WitnessRule
    ensures Ends(env, items, cmds, m, Run(env, cmds, m))
    decreases TotalSize(cmds)
  {
    if cmds == [] {
      NoCommands(env, items, m, Verdict(m));
    } else {
      OnePass(env, items, cmds, m, Run(env, cmds, m));
      var t := Step(env, cmds, m);
      if t.Next? {
        StepShrinks(env, cmds, m);
        EndsAsRun(env, items, t.cmds, t.machine);
      }
    }
  }

  /** Every other run comes to a witness program, and its outcomes are those of what the rule makes of it. */
  lemma {:induction false} EndsByRule(env: Env, items: Items, cmds: seq<Cmd>, m: Machine)
    returns (rest: seq<Cmd>, at: Machine)
    requires Run(env, cmds, m) == WitnessRule
    ensures IsWitnessProgram(at.stack)
    ensures forall o :: Ends(env, items, cmds, m, o) <==> EndsFrom(env, items, Rule(items, rest, at), o)
    decreases TotalSize(cmds)
  {
    forall o ensures Ends(env, items, cmds, m, o) <==> EndsFrom(env, items, FullStep(env, items, cmds, m), o) {
      OnePass(env, items, cmds, m, o);
    }
    var t := Step(env, cmds, m);
    if t.Next? {
      StepShrinks(env, cmds, m);
      rest, at := EndsByRule(env, items, t.cmds, t.machine);
    } else {
      var pushed := AfterPush(env, cmds[0].data, cmds[1..], m);
      rest, at := pushed.cmds, pushed.machine;
    }
  }

  // ----- the two witness programs -----

  /** The table pushes an empty element for opcode 0. */
  ghost predicate PushesZero(env: Env) {
    forall m: Machine :: env.operate(0, m) == Done(m.(stack := m.stack + [Num.Encode(0)]))
  }

  /** A witness program on its own comes to its rule. */
  lemma ProgramRun(env: Env, items: Items, h: Bytes, altstack: Stack, outcome: Outcome)
    requires PushesZero(env) && (|h| == 20 || |h| == 32)
    ensures Ends(env, items, P2wpkh(h), Machine([], altstack), outcome)
       <==> EndsFrom(env, items, Rule(items, [], Machine([[], h], altstack)), outcome)
  {
    OnePass(env, items, P2wpkh(h), Machine([], altstack), outcome);
    ZeroPass(env, items, h, altstack);
    OnePass(env, items, [Push(h)], Machine([[]], altstack), outcome);
    ProgramPass(env, items, h, altstack);
  }

  lemma ZeroPass(env: Env, items: Items, h: Bytes, altstack: Stack)
    requires PushesZero(env)
    ensures FullStep(env, items, P2wpkh(h), Machine([], altstack)) == Next([Push(h)], Machine([[]], altstack))
  {
    assert P2wpkh(h)[1..] == [Push(h)];
    assert [] + [Num.Encode(0)] == [[]];
  }

  lemma ProgramPass(env: Env, items: Items, h: Bytes, altstack: Stack)
    requires |h| == 20 || |h| == 32
    ensures FullStep(env, items, [Push(h)], Machine([[]], altstack)) == Rule(items, [], Machine([[], h], altstack))
  {
    assert [Push(h)][1..] == [] && [[]] + [h] == [[], h];
  }

  /** Paying to a script hash: no witness whatever unlocks it, since evaluate always raises. */
  lemma ScriptHashRaises(env: Env, items: Items, h: Bytes)
    requires PushesZero(env) && |h| == 32
    ensures Ends(env, items, P2wpkh(h), Machine([], []), Crash)
    ensures !Ends(env, items, P2wpkh(h), Machine([], []), Accept)
  {
    ProgramRun(env, items, h, [], Crash);
    ProgramRun(env, items, h, [], Accept);
  }

  /** Paying to a key hash means running what is left of the script, the witness and then the script for that hash. */
  lemma KeyHashMeaning(env: Env, items: seq<Cmd>, h: Bytes, rest: seq<Cmd>)
    requires PushesZero(env) && |h| == 20 && !IsP2sh(rest)
    requires Run(env, rest + items + P2pkh(Push(h)), Machine([], [])) != WitnessRule
    ensures Ends(env, Some(items), P2wpkh(h) + rest, Machine([], []),
                 Run(env, rest + items + P2pkh(Push(h)), Machine([], [])))
  {
    var queue := rest + items + P2pkh(Push(h));
    var outcome := Run(env, queue, Machine([], []));
    EndsAsRun(env, Some(items), queue, Machine([], []));
    ProgramThenRest(env, items, h, rest, outcome);
  }

  lemma ProgramThenRest(env: Env, items: seq<Cmd>, h: Bytes, rest: seq<Cmd>, outcome: Outcome)
    requires PushesZero(env) && |h| == 20 && !IsP2sh(rest)
    requires Ends(env, Some(items), rest + items + P2pkh(Push(h)), Machine([], []), outcome)
    ensures Ends(env, Some(items), P2wpkh(h) + rest, Machine([], []), outcome)
  {
    OnePass(env, Some(items), [Push(h)] + rest, Machine([[]], []), outcome);
    HashPass(env, items, h, rest);
    OnePass(env, Some(items), P2wpkh(h) + rest, Machine([], []), outcome);
    ZeroPassOn(env, items, h, rest);
  }

  lemma ZeroPassOn(env: Env, items: seq<Cmd>, h: Bytes, rest: seq<Cmd>)
    requires PushesZero(env)
    ensures FullStep(env, Some(items), P2wpkh(h) + rest, Machine([], [])) == Next([Push(h)] + rest, Machine([[]], []))
  {
    var all := P2wpkh(h) + rest;
    assert all[0] == Op(0) && all[1..] == [Push(h)] + rest && [] + [Num.Encode(0)] == [[]];
  }

  lemma HashPass(env: Env, items: seq<Cmd>, h: Bytes, rest: seq<Cmd>)
    requires |h| == 20 && !IsP2sh(rest)
    ensures FullStep(env, Some(items), [Push(h)] + rest, Machine([[]], []))
         == Next(rest + items + P2pkh(Push(h)), Machine([], []))
  {
    var push := [Push(h)] + rest;
    assert push[0] == Push(h) && push[1..] == rest && [[]] + [h] == [[], h];
  }
}
