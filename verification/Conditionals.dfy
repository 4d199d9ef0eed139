/** Structured scripts: what nested conditionals mean, and that the flat machine computes it. */
module Conditionals {
  import opened Prelude
  import opened Script
  import opened Interpreter
  import Num = ScriptNum

  /** A program is a list of plain commands and of conditionals with any number of OP_ELSE parts. */
  datatype Prog =
    | End
    | Plain(cmd: Cmd, next: Prog)
    | If(negated: bool, body: Prog, elses: Elses, next: Prog)

  datatype Elses = NoElse | Else(body: Prog, more: Elses)

  predicate IsControl(cmd: Cmd) { cmd == Op(IF) || cmd == Op(NOTIF) || cmd == Op(ELSE) || cmd == Op(ENDIF) }

  /** Plain commands are not control opcodes. */
  predicate Proper(p: Prog) {
    match p
    case End => true
    case Plain(cmd, next) => !IsControl(cmd) && Proper(next)
    case If(_, body, elses, next) => Proper(body) && ProperElses(elses) && Proper(next)
  }

  predicate ProperElses(e: Elses) {
    match e
    case NoElse => true
    case Else(body, more) => Proper(body) && ProperElses(more)
  }

  function Flatten(p: Prog): seq<Cmd> {
    match p
    case End => []
    case Plain(cmd, next) => [cmd] + Flatten(next)
    case If(negated, body, elses, next) =>
      [Op(if negated then NOTIF else IF)] + Flatten(body) + FlattenElses(elses) + [Op(ENDIF)] + Flatten(next)
  }

  function FlattenElses(e: Elses): seq<Cmd> {
    match e
    case NoElse => []
    case Else(body, more) => [Op(ELSE)] + Flatten(body) + FlattenElses(more)
  }

  // ----- the direct meaning -----

  datatype Result = Continues(machine: Machine) | Stops(outcome: Outcome)

  /** Runs a program by its structure: a conditional pops the top of the stack and runs its body, or else all of its
      OP_ELSE parts in order. */
  function Exec(env: Env, p: Prog, m: Machine): Result {
    match p
    case End => Continues(m)
    case Plain(Push(element), next) => Exec(env, next, m.(stack := m.stack + [element]))
    case Plain(Op(code), next) =>
      (match env.operate(code, m)
       case Done(after) => Exec(env, next, after)
       case Fails => Stops(Reject)
       case Raises => Stops(Crash))
    case If(negated, body, elses, next) =>
      if m.stack == [] then Stops(Reject)
      else
        var top, popped := m.stack[|m.stack| - 1], m.(stack := m.stack[..|m.stack| - 1]);
        var branch := if (Num.Decode(top) == 0) == negated then Exec(env, body, popped) else ExecElses(env, elses, popped);
        if branch.Stops? then branch else Exec(env, next, branch.machine)
  }

  function ExecElses(env: Env, e: Elses, m: Machine): Result {
    match e
    case NoElse => Continues(m)
    case Else(body, more) =>
      var first := Exec(env, body, m);
      if first.Stops? then first else ExecElses(env, more, first.machine)
  }

  function Meaning(env: Env, p: Prog, m: Machine): Outcome {
    match Exec(env, p, m)
    case Continues(final) => Verdict(final)
    case Stops(outcome) => outcome
  }

  // ----- what the scan of op_if finds -----

  /** The second branch of a flattened conditional: its OP_ELSE parts without the OP_ELSEs. */
  function Bodies(e: Elses): seq<Cmd> {
    match e
    case NoElse => []
    case Else(body, more) => Flatten(body) + Bodies(more)
  }

  /** Putting a run of items into the current branch. */
  function KeepAll(items: seq<Cmd>, scanned: Option<Branches>, second: bool): Option<Branches> {
    match scanned
    case None => None
    case Some(Branches(t, f, after)) =>
      Some(if second then Branches(t, items + f, after) else Branches(items + t, f, after))
  }

  lemma KeepOne(item: Cmd, items: seq<Cmd>, scanned: Option<Branches>, second: bool)
    ensures Keep(item, KeepAll(items, scanned, second), second) == KeepAll([item] + items, scanned, second)
  {
    if scanned.Some? {
      var b := scanned.value;
      assert [item] + (items + b.whenTrue) == ([item] + items) + b.whenTrue;
      assert [item] + (items + b.whenFalse) == ([item] + items) + b.whenFalse;
    }
  }

  lemma KeepTwo(xs: seq<Cmd>, ys: seq<Cmd>, scanned: Option<Branches>, second: bool)
    ensures KeepAll(xs, KeepAll(ys, scanned, second), second) == KeepAll(xs + ys, scanned, second)
  {
    if scanned.Some? {
      var b := scanned.value;
      assert xs + (ys + b.whenTrue) == (xs + ys) + b.whenTrue;
      assert xs + (ys + b.whenFalse) == (xs + ys) + b.whenFalse;
    }
  }

  lemma KeepNone(scanned: Option<Branches>, second: bool)
    ensures KeepAll([], scanned, second) == scanned
  {
    if scanned.Some? {
      assert [] + scanned.value.whenTrue == scanned.value.whenTrue;
      assert [] + scanned.value.whenFalse == scanned.value.whenFalse;
    }
  }

  /** A whole program passes through the scan into the current branch, at any depth. */
  lemma {:induction false} ScanProgram(p: Prog, k: seq<Cmd>, items: seq<Cmd>, depth: nat, second: bool)
    requires Proper(p) && depth >= 1 && items == Flatten(p) + k
    ensures Scan(items, depth, second) == KeepAll(Flatten(p), Scan(k, depth, second), second)
    decreases p, 1
  {
    match p
    case End =>
      assert items == k;
      KeepNone(Scan(k, depth, second), second);
    case Plain(cmd, next) =>
      ScanProgram(next, k, Flatten(next) + k, depth, second);
      ScanPlain(cmd, Flatten(next), k, items, depth, second);
    case If(_, _, _, _) =>
      ScanIf(p, k, items, depth, second);
  }

  lemma ScanPlain(cmd: Cmd, flat: seq<Cmd>, k: seq<Cmd>, items: seq<Cmd>, depth: nat, second: bool)
    requires !IsControl(cmd) && depth >= 1 && items == [cmd] + flat + k
    requires Scan(flat + k, depth, second) == KeepAll(flat, Scan(k, depth, second), second)
    ensures Scan(items, depth, second) == KeepAll([cmd] + flat, Scan(k, depth, second), second)
  {
    assert items[1..] == flat + k;
    KeepOne(cmd, flat, Scan(k, depth, second), second);
  }

  lemma {:induction false} ScanIf(p: Prog, k: seq<Cmd>, items: seq<Cmd>, depth: nat, second: bool)
    requires p.If? && Proper(p) && depth >= 1 && items == Flatten(p) + k
    ensures Scan(items, depth, second) == KeepAll(Flatten(p), Scan(k, depth, second), second)
    decreases p, 0
  {
    var open, flat := Op(if p.negated then NOTIF else IF), Flatten(p.body);
    var parts, flatNext := FlattenElses(p.elses), Flatten(p.next);
    var k3 := flatNext + k;
    var k2 := [Op(ENDIF)] + k3;
    ScanProgram(p.body, parts + k2, flat + (parts + k2), depth + 1, second);
    ScanElses(p.elses, k2, parts + k2, depth + 1, second);
    ScanProgram(p.next, k, k3, depth, second);
    ScanInner(open, flat, parts, k3, depth, second);
    var inner := [open] + (flat + (parts + [Op(ENDIF)]));
    KeepTwo(inner, flatNext, Scan(k, depth, second), second);
    Nesting([open], flat, parts, [Op(ENDIF)], flatNext, k);
  }

  lemma Nesting(a: seq<Cmd>, b: seq<Cmd>, c: seq<Cmd>, d: seq<Cmd>, e: seq<Cmd>, f: seq<Cmd>)
    ensures a + b + c + d + e == (a + (b + (c + d))) + e
    ensures a + b + c + d + e + f == a + (b + (c + (d + (e + f))))
  {
  }

  /** An inner conditional whose parts pass through the scan passes through it as well. */
  lemma ScanInner(open: Cmd, flat: seq<Cmd>, parts: seq<Cmd>, k: seq<Cmd>, depth: nat, second: bool)
    requires depth >= 1 && (open == Op(IF) || open == Op(NOTIF))
    requires var k2 := [Op(ENDIF)] + k;
      Scan(flat + (parts + k2), depth + 1, second) == KeepAll(flat, Scan(parts + k2, depth + 1, second), second)
      && Scan(parts + k2, depth + 1, second) == KeepAll(parts, Scan(k2, depth + 1, second), second)
    ensures Scan([open] + (flat + (parts + ([Op(ENDIF)] + k))), depth, second)
         == KeepAll([open] + (flat + (parts + [Op(ENDIF)])), Scan(k, depth, second), second)
  {
    var k2, last := [Op(ENDIF)] + k, Scan(k, depth, second);
    assert k2[1..] == k && ([open] + (flat + (parts + k2)))[1..] == flat + (parts + k2);
    KeepNone(last, second);
    KeepOne(Op(ENDIF), [], last, second);
    assert [Op(ENDIF)] + [] == [Op(ENDIF)];
    KeepTwo(parts, [Op(ENDIF)], last, second);
    KeepTwo(flat, parts + [Op(ENDIF)], last, second);
    KeepOne(open, flat + (parts + [Op(ENDIF)]), last, second);
  }

  /** So do the OP_ELSE parts of an inner conditional. */
  lemma {:induction false} ScanElses(e: Elses, k: seq<Cmd>, items: seq<Cmd>, depth: nat, second: bool)
    requires ProperElses(e) && depth >= 2 && items == FlattenElses(e) + k
    ensures Scan(items, depth, second) == KeepAll(FlattenElses(e), Scan(k, depth, second), second)
    decreases e, 1
  {
    var last := Scan(k, depth, second);
    match e
    case NoElse =>
      assert items == k;
      KeepNone(last, second);
    case Else(body, more) =>
      var flat, rest := Flatten(body), FlattenElses(more);
      assert items[1..] == flat + (rest + k);
      ScanProgram(body, rest + k, items[1..], depth, second);
      ScanElses(more, k, rest + k, depth, second);
      KeepTwo(flat, rest, last, second);
      KeepOne(Op(ELSE), flat + rest, last, second);
      assert FlattenElses(e) == [Op(ELSE)] + (flat + rest);
  }

  /** The OP_ELSE parts of the conditional being scanned all end up, joined, in the second branch. */
  lemma {:induction false} ScanOwnElses(e: Elses, k: seq<Cmd>, second: bool)
    requires ProperElses(e)
    ensures Scan(FlattenElses(e) + ([Op(ENDIF)] + k), 1, second) == Some(Branches([], Bodies(e), k))
    decreases e
  {
    match e
    case NoElse =>
      assert [] + ([Op(ENDIF)] + k) == [Op(ENDIF)] + k && ([Op(ENDIF)] + k)[1..] == k;
    case Else(body, more) =>
      var flat, rest := Flatten(body), FlattenElses(more) + ([Op(ENDIF)] + k);
      assert FlattenElses(e) + ([Op(ENDIF)] + k) == [Op(ELSE)] + (flat + rest);
      assert ([Op(ELSE)] + (flat + rest))[1..] == flat + rest;
      ScanProgram(body, rest, flat + rest, 1, true);
      ScanOwnElses(more, k, true);
  }

  /** The scan of a flattened conditional finds its branches and stops behind its OP_ENDIF. */
  lemma ScanConditional(body: Prog, elses: Elses, k: seq<Cmd>)
    requires Proper(body) && ProperElses(elses)
    ensures Scan(Flatten(body) + FlattenElses(elses) + [Op(ENDIF)] + k, 1, false)
         == Some(Branches(Flatten(body), Bodies(elses), k))
  {
    var rest := FlattenElses(elses) + ([Op(ENDIF)] + k);
    assert Flatten(body) + FlattenElses(elses) + [Op(ENDIF)] + k == Flatten(body) + rest;
    ScanProgram(body, rest, Flatten(body) + rest, 1, false);
    ScanOwnElses(elses, k, false);
    assert Flatten(body) + [] == Flatten(body);
  }

  // ----- the simulation -----

  /** No push in the run triggers the pay-to-script-hash rule or a witness rule. */
  predicate Quiet(env: Env, cmds: seq<Cmd>, m: Machine)
    decreases TotalSize(cmds)
  {
    if cmds == [] then true
    else if cmds[0].Push? && (IsP2sh(cmds[1..]) || IsWitnessProgram(m.stack + [cmds[0].data])) then false
    else match Step(env, cmds, m)
      case Stop(_) => true
      case Next(queue, after) => StepShrinks(env, cmds, m); Quiet(env, queue, after)
  }

  /** The flat run from `cmds` does what `r` says and then goes on with `k`. */
  predicate Follows(env: Env, cmds: seq<Cmd>, m: Machine, r: Result, k: seq<Cmd>) {
    match r
    case Continues(after) => Run(env, cmds, m) == Run(env, k, after) && Quiet(env, k, after)
    case Stops(outcome) => Run(env, cmds, m) == outcome && !outcome.Unbound?
  }

  lemma {:induction false} Simulates(env: Env, p: Prog, k: seq<Cmd>, cmds: seq<Cmd>, m: Machine)
    requires Proper(p) && cmds == Flatten(p) + k && Quiet(env, cmds, m)
    ensures Follows(env, cmds, m, Exec(env, p, m), k)
    decreases p, 1
  {
    match p
    case End =>
      assert cmds == k;
    case Plain(cmd, next) =>
      assert cmds[1..] == Flatten(next) + k;
      match cmd {
        case Push(element) => Simulates(env, next, k, cmds[1..], m.(stack := m.stack + [element]));
        case Op(code) =>
          if env.operate(code, m).Done? { Simulates(env, next, k, cmds[1..], env.operate(code, m).machine); }
      }
    case If(_, _, _, _) =>
      if m.stack != [] { SimulatesIf(env, p, k, cmds, m); }
  }

  lemma {:induction false} SimulatesIf(env: Env, p: Prog, k: seq<Cmd>, cmds: seq<Cmd>, m: Machine)
    requires p.If? && m.stack != [] && Proper(p) && cmds == Flatten(p) + k && Quiet(env, cmds, m)
    ensures Follows(env, cmds, m, Exec(env, p, m), k)
    decreases p, 0
  {
    var popped, rest := m.(stack := m.stack[..|m.stack| - 1]), Flatten(p.next) + k;
    var taken := (Num.Decode(m.stack[|m.stack| - 1]) == 0) == p.negated;
    var queue := (if taken then Flatten(p.body) else Bodies(p.elses)) + rest;
    StepsIntoBranch(env, p, rest, cmds, m, queue);
    if taken {
      Simulates(env, p.body, rest, queue, popped);
    } else {
      SimulatesElses(env, p.elses, rest, queue, popped);
    }
    var branch := if taken then Exec(env, p.body, popped) else ExecElses(env, p.elses, popped);
    if branch.Continues? {
      Simulates(env, p.next, k, rest, branch.machine);
      FollowsOn(env, queue, popped, branch.machine, rest, Exec(env, p.next, branch.machine), k);
    }
  }

  /** The first step of a flattened conditional leads to the branch it takes, followed by what comes behind it. */
  lemma StepsIntoBranch(env: Env, p: Prog, rest: seq<Cmd>, cmds: seq<Cmd>, m: Machine, queue: seq<Cmd>)
    requires p.If? && m.stack != [] && Proper(p) && Quiet(env, cmds, m)
    requires cmds == [Op(if p.negated then NOTIF else IF)] + Flatten(p.body) + FlattenElses(p.elses) + [Op(ENDIF)] + rest
    requires var taken := (Num.Decode(m.stack[|m.stack| - 1]) == 0) == p.negated;
      queue == (if taken then Flatten(p.body) else Bodies(p.elses)) + rest
    ensures var popped := m.(stack := m.stack[..|m.stack| - 1]);
      Run(env, cmds, m) == Run(env, queue, popped) && Quiet(env, queue, popped)
  {
    var tail := Flatten(p.body) + FlattenElses(p.elses) + [Op(ENDIF)] + rest;
    HeadAndTail(Op(if p.negated then NOTIF else IF), Flatten(p.body), FlattenElses(p.elses), [Op(ENDIF)], rest, cmds);
    ScanConditional(p.body, p.elses, rest);
    var b := Branches(Flatten(p.body), Bodies(p.elses), rest);
    ConditionalStep(env, p.negated, cmds, tail, b, m, queue);
    PassesOn(env, cmds, m, queue, m.(stack := m.stack[..|m.stack| - 1]));
  }

  lemma HeadAndTail<T>(x: T, a: seq<T>, b: seq<T>, c: seq<T>, d: seq<T>, all: seq<T>)
    requires all == [x] + a + b + c + d
    ensures all != [] && all[0] == x && all[1..] == a + b + c + d
  {
  }

  lemma ConditionalStep(env: Env, negated: bool, cmds: seq<Cmd>, tail: seq<Cmd>, b: Branches, m: Machine, queue: seq<Cmd>)
    requires cmds != [] && cmds[0] == Op(if negated then NOTIF else IF) && cmds[1..] == tail && m.stack != []
    requires Scan(tail, 1, false) == Some(b)
    requires queue == (if (Num.Decode(m.stack[|m.stack| - 1]) == 0) == negated then b.whenTrue else b.whenFalse) + b.after
    ensures Step(env, cmds, m) == Next(queue, m.(stack := m.stack[..|m.stack| - 1]))
  {
  }

  /** A run goes on from what its first step leaves. */
  lemma PassesOn(env: Env, cmds: seq<Cmd>, m: Machine, queue: seq<Cmd>, after: Machine)
    requires cmds != [] && Step(env, cmds, m) == Next(queue, after) && Quiet(env, cmds, m)
    ensures Run(env, cmds, m) == Run(env, queue, after) && Quiet(env, queue, after)
  {
  }

  lemma {:induction false} SimulatesElses(env: Env, e: Elses, k: seq<Cmd>, cmds: seq<Cmd>, m: Machine)
    requires ProperElses(e) && cmds == Bodies(e) + k && Quiet(env, cmds, m)
    ensures Follows(env, cmds, m, ExecElses(env, e, m), k)
    decreases e, 1
  {
    match e
    case NoElse =>
      assert cmds == k;
    case Else(body, more) =>
      var mid := Bodies(more) + k;
      assert cmds == Flatten(body) + mid;
      Simulates(env, body, mid, cmds, m);
      var first := Exec(env, body, m);
      if first.Continues? {
        SimulatesElses(env, more, k, mid, first.machine);
        FollowsOn(env, cmds, m, first.machine, mid, ExecElses(env, more, first.machine), k);
      }
  }

  lemma FollowsOn(env: Env, cmds: seq<Cmd>, m: Machine, between: Machine, mid: seq<Cmd>, r: Result, k: seq<Cmd>)
    requires Follows(env, cmds, m, Continues(between), mid) && Follows(env, mid, between, r, k)
    ensures Follows(env, cmds, m, r, k)
  {
  }

  /** The flat machine computes the structured meaning, and never dispatches a bare OP_ELSE or OP_ENDIF. */
  lemma FlatMeansStructured(env: Env, p: Prog, m: Machine)
    requires Proper(p) && Quiet(env, Flatten(p), m)
    ensures Run(env, Flatten(p), m) == Meaning(env, p, m) && !Run(env, Flatten(p), m).Unbound?
  {
    assert Flatten(p) + [] == Flatten(p);
    Simulates(env, p, [], Flatten(p), m);
  }

  // ----- a condition on the script alone -----

  /** No element has the length of a script hash or of a witness program. */
  predicate HasNoProgramSizes(cmds: seq<Cmd>) {
    forall i :: 0 <= i < |cmds| && cmds[i].Push? ==> |cmds[i].data| != 20 && |cmds[i].data| != 32
  }

  lemma {:induction false} ScanKeepsSizes(items: seq<Cmd>, depth: nat, second: bool)
    requires HasNoProgramSizes(items) && Scan(items, depth, second).Some?
    ensures var b := Scan(items, depth, second).value;
      HasNoProgramSizes(b.whenTrue) && HasNoProgramSizes(b.whenFalse) && HasNoProgramSizes(b.after)
  {
    var item, rest := items[0], items[1..];
    if item == Op(IF) || item == Op(NOTIF) {
      ScanKeepsSizes(rest, depth + 1, second);
    } else if depth == 1 && item == Op(ELSE) {
      ScanKeepsSizes(rest, depth, true);
    } else if item == Op(ENDIF) {
      if depth > 1 { ScanKeepsSizes(rest, depth - 1, second); }
    } else {
      ScanKeepsSizes(rest, depth, second);
    }
  }

  /** Such a script never triggers the special rules, whatever its operations do to the stack. */
  lemma {:induction false} NoProgramSizesIsQuiet(env: Env, cmds: seq<Cmd>, m: Machine)
    requires HasNoProgramSizes(cmds)
    ensures Quiet(env, cmds, m)
    decreases TotalSize(cmds)
  {
    if cmds != [] && Step(env, cmds, m).Next? {
      StepShrinks(env, cmds, m);
      if cmds[0].Push? {
        assert !IsWitnessProgram(m.stack + [cmds[0].data]);
      } else if cmds[0].code == IF || cmds[0].code == NOTIF {
        ScanKeepsSizes(cmds[1..], 1, false);
      }
      NoProgramSizesIsQuiet(env, Step(env, cmds, m).cmds, Step(env, cmds, m).machine);
    }
  }

  /** The flat machine computes the structured meaning of every program without elements of 20 or 32 bytes. */
  lemma FlatMeansStructuredBySize(env: Env, p: Prog, m: Machine)
    requires Proper(p) && HasNoProgramSizes(Flatten(p))
    ensures Run(env, Flatten(p), m) == Meaning(env, p, m) && !Run(env, Flatten(p), m).Unbound?
  {
    NoProgramSizesIsQuiet(env, Flatten(p), m);
    FlatMeansStructured(env, p, m);
  }
}
