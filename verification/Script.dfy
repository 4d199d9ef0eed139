/** Parsing and printing scripts (Bitcoin/script.py: Script.parse, raw_serialize, serialize). */
module Script {
  import opened Prelude
  import opened Positional
  import opened Stream

  /** A command is an opcode or an element to push. */
  datatype Cmd = Op(code: Byte) | Push(data: Bytes)

  // ----- parsing -----

  /** One pass of the loop in Script.parse: the command, what is left, and how many bytes were counted for it. At the
      end of the stream the missing byte reads as 0, and elements come out short. */
  function NextCmd(b: Bytes): (r: (Cmd, Bytes, nat))
    ensures r.2 >= 1
  {
    var current := if b == [] then 0 else b[0];
    var rest := Drop(b, 1);
    if 1 <= current <= 75 then (Push(Take(rest, current)), Drop(rest, current), 1 + current)
    else if current == 76 then
      var n := FromLittle(Take(rest, 1));
      (Push(Take(Drop(rest, 1), n)), Drop(Drop(rest, 1), n), 2 + n)
    else if current == 77 then
      var n := FromLittle(Take(rest, 2));
      (Push(Take(Drop(rest, 2), n)), Drop(Drop(rest, 2), n), 3 + n)
    else (Op(current), rest, 1)
  }

  /** The loop: commands until `left` bytes have been counted; also what is left of the stream and of the count. */
  function ParseCmds(b: Bytes, left: int): (seq<Cmd>, Bytes, int)
    decreases if left < 0 then 0 else left
  {
    if left <= 0 then ([], b, left)
    else
      var (cmd, rest, used) := NextCmd(b);
      var (cmds, end, over) := ParseCmds(rest, left - used);
      ([cmd] + cmds, end, over)
  }

  /** Script.parse; raises when the last command runs over the length. */
  function Parse(b: Bytes): Parsed<seq<Cmd>> {
    match DecodeVarint(b)
    case None => None
    case Some((length, rest)) =>
      var (cmds, end, over) := ParseCmds(rest, length);
      if over != 0 then None else Some((cmds, end))
  }

  /** Commands parsed already in front of those the loop is still to parse. */
  function Onto(done: seq<Cmd>, later: (seq<Cmd>, Bytes, int)): (seq<Cmd>, Bytes, int) { (done + later.0, later.1, later.2) }

  lemma OntoCons(done: seq<Cmd>, cmd: Cmd, later: (seq<Cmd>, Bytes, int))
    ensures Onto(done, Onto([cmd], later)) == Onto(done + [cmd], later)
  {
    assert done + ([cmd] + later.0) == (done + [cmd]) + later.0;
  }

  lemma OntoNothing(done: seq<Cmd>, later: (seq<Cmd>, Bytes, int))
    ensures Onto([], later) == later && (later.0 == [] ==> Onto(done, later) == (done, later.1, later.2))
  {
    assert [] + later.0 == later.0 && done + [] == done;
  }

  // The loop is proved over a step and a parser that are only known to satisfy the recursion of ParseCmds.
  type Stepper = Bytes -> (Cmd, Bytes, nat)
  type Parser = (Bytes, int) -> (seq<Cmd>, Bytes, int)

  ghost predicate Unrolls(parse: Parser, next: Stepper, b: Bytes, left: int) {
    parse(b, left) == if left <= 0 then ([], b, left) else Onto([next(b).0], parse(next(b).1, left - next(b).2))
  }

  ghost predicate ParserOf(parse: Parser, next: Stepper) {
    (forall b, left :: Unrolls(parse, next, b, left)) && forall b {:trigger NextCmd(b)} :: next(b) == NextCmd(b)
  }

  lemma CmdsParser(b: Bytes, left: int) returns (parse: Parser, next: Stepper)
    ensures ParserOf(parse, next) && parse(b, left) == ParseCmds(b, left)
  {
    parse, next := ParseCmds, NextCmd;
    forall b, left ensures Unrolls(parse, next, b, left) { CmdsUnroll(b, left); }
  }

  lemma CmdsUnroll(b: Bytes, left: int)
    ensures left <= 0 ==> ParseCmds(b, left) == ([], b, left)
    ensures left > 0 ==> ParseCmds(b, left) == Onto([NextCmd(b).0], ParseCmds(NextCmd(b).1, left - NextCmd(b).2))
  {
  }

  method ReadCmdAs(s: ByteStream, ghost next: Stepper) returns (cmd: Cmd, used: nat)
    requires s.Valid() && forall b {:trigger NextCmd(b)} :: next(b) == NextCmd(b)
    modifies s
    ensures s.Valid() && used >= 1 && (cmd, s.Rest(), used) == next(old(s.Rest()))
  {
    cmd, used := ReadCmd(s);
  }

  /** The loop in Script.parse; `left` is what is missing of the length at its end. */
  method ParseLoop(s: ByteStream, length: nat, ghost parse: Parser, ghost next: Stepper)
    returns (cmds: seq<Cmd>, left: int)
    requires s.Valid() && ParserOf(parse, next)
    modifies s
    ensures s.Valid() && (cmds, s.Rest(), left) == parse(old(s.Rest()), length)
  {
    ghost var all := parse(s.Rest(), length);
    OntoNothing([], all);
    var count: int := 0;
    cmds := [];
    while count < length
      invariant s.Valid() && Onto(cmds, parse(s.Rest(), length - count)) == all
      decreases length - count
    {
      ghost var b := s.Rest();
      assert Unrolls(parse, next, b, length - count);
      var cmd, used := ReadCmdAs(s, next);
      OntoCons(cmds, cmd, parse(s.Rest(), length - count - used));
      cmds := cmds + [cmd];
      count := count + used;
    }
    left := length - count;
    assert Unrolls(parse, next, s.Rest(), left);
    OntoNothing(cmds, parse(s.Rest(), left));
  }

  /** Script.parse; it raises when the counted bytes run over the length. */
  method ParseFrom(s: ByteStream) returns (r: Option<seq<Cmd>>)
    requires s.Valid()
    modifies s
    ensures s.Valid()
    ensures match Parse(old(s.Rest()))
            case None => r.None?
            case Some((cmds, rest)) => r == Some(cmds) && s.Rest() == rest
  {
    var prefix := s.ReadVarint();
    if prefix.None? { return None; }
    ghost var parse, next := CmdsParser(s.Rest(), prefix.value);
    var cmds, left := ParseLoop(s, prefix.value, parse, next);
    r := if left != 0 then None else Some(cmds);
  }

  /** The body of the loop in Script.parse. */
  method ReadCmd(s: ByteStream) returns (cmd: Cmd, used: nat)
    requires s.Valid()
    modifies s
    ensures s.Valid() && (cmd, s.Rest(), used) == NextCmd(old(s.Rest()))
  {
    ghost var before := s.Rest();
    var current := s.Read(1);
    var byte := FromBig(current);
    if before != [] {
      assert current == [before[0]];
      SingleByte(before[0]);
    }
    used := 1;
    if 1 <= byte <= 75 {
      var element := s.Read(byte);
      cmd, used := Push(element), used + byte;
    } else if byte == 76 || byte == 77 {
      var width := if byte == 76 then 1 else 2;
      var prefix := s.Read(width);
      var n := FromLittle(prefix);
      var element := s.Read(n);
      cmd, used := Push(element), used + n + width;
    } else {
      cmd := Op(byte);
    }
  }

  // ----- printing -----

  /** What raw_serialize appends for one command; raises for elements of 75 bytes or of more than 520. */
  function CmdBytes(cmd: Cmd): (r: Option<Bytes>)
    ensures r.Some? ==> |r.value| >= 1
  {
    match cmd
    case Op(code) => Some([code])
    case Push(data) =>
      var n := |data|;
      if n < 75 then Some([n] + data)
      else if 75 < n < 0x100 then Some([76, n] + data)
      else if 0x100 <= n <= 520 then Some([77] + LittleDigits(n, 2) + data)
      else None
  }

  function RawSerialize(cmds: seq<Cmd>): Option<Bytes> {
    if cmds == [] then Some([])
    else if CmdBytes(cmds[0]).None? || RawSerialize(cmds[1..]).None? then None
    else Some(CmdBytes(cmds[0]).value + RawSerialize(cmds[1..]).value)
  }

  function Serialize(cmds: seq<Cmd>): Option<Bytes> {
    match RawSerialize(cmds)
    case None => None
    case Some(raw) =>
      if EncodeVarint(|raw|).None? then None else Some(EncodeVarint(|raw|).value + raw)
  }

  method SerializeScript(cmds: seq<Cmd>) returns (r: Option<Bytes>)
    ensures r == Serialize(cmds)
  {
    var result: Bytes := [];
    for i := 0 to |cmds|
      invariant RawSerialize(cmds).Some? <==> RawSerialize(cmds[i..]).Some?
      invariant RawSerialize(cmds).Some? ==> RawSerialize(cmds).value == result + RawSerialize(cmds[i..]).value
    {
      assert cmds[i..][1..] == cmds[i + 1..];
      var bytes := CmdBytes(cmds[i]);
      if bytes.None? { return None; }
      result := result + bytes.value;
    }
    assert cmds[|cmds|..] == [] && result + [] == result;
    var prefix := EncodeVarint(|result|);
    if prefix.None? { return None; }
    r := Some(prefix.value + result);
  }

  // ----- what can be printed -----

  predicate Printable(cmd: Cmd) {
    match cmd
    case Op(_) => true
    case Push(data) => |data| < 75 || 76 <= |data| <= 520
  }

  predicate AllPrintable(cmds: seq<Cmd>) { forall i :: 0 <= i < |cmds| ==> Printable(cmds[i]) }

  /** How many bytes a command takes in print. */
  function PrintedSize(cmd: Cmd): nat {
    match cmd
    case Op(_) => 1
    case Push(data) => |data| + if |data| <= 75 then 1 else if |data| < 0x100 then 2 else 3
  }

  function PrintedLength(cmds: seq<Cmd>): nat {
    if cmds == [] then 0 else PrintedSize(cmds[0]) + PrintedLength(cmds[1..])
  }

  /** What a variable-length integer cannot announce any more. */
  const LENGTH_LIMIT: nat := 0x1_0000_0000_0000_0000

  lemma AllPrintableSplit(cmds: seq<Cmd>)
    requires cmds != []
    ensures AllPrintable(cmds) <==> Printable(cmds[0]) && AllPrintable(cmds[1..])
  {
    if AllPrintable(cmds[1..]) && Printable(cmds[0]) {
      forall i | 0 <= i < |cmds| ensures Printable(cmds[i]) { if i > 0 { assert cmds[i] == cmds[1..][i - 1]; } }
    }
  }

  /** raw_serialize raises exactly at an element of 75 bytes or of more than 520. */
  lemma {:induction false} RawSerializeExactly(cmds: seq<Cmd>)
    ensures RawSerialize(cmds).Some? <==> AllPrintable(cmds)
    ensures RawSerialize(cmds).Some? ==> |RawSerialize(cmds).value| == PrintedLength(cmds)
  {
    if cmds != [] {
      RawSerializeExactly(cmds[1..]);
      AllPrintableSplit(cmds);
    }
  }

  /** serialize also raises at 2^64 bytes, and at no other script. */
  lemma SerializeExactly(cmds: seq<Cmd>)
    ensures Serialize(cmds).Some? <==> AllPrintable(cmds) && PrintedLength(cmds) < LENGTH_LIMIT
  {
    RawSerializeExactly(cmds);
  }

  // ----- round trips -----

  /** The commands whose printed form reads back. */
  predicate Reprintable(cmd: Cmd) {
    match cmd
    case Op(code) => code == 0 || code >= 78
    case Push(data) => 1 <= |data| <= 74 || 76 <= |data| <= 520
  }

  predicate AllReprintable(cmds: seq<Cmd>) { forall i :: 0 <= i < |cmds| ==> Reprintable(cmds[i]) }

  /** Reading back one printed command: it comes back whole exactly if it is reprintable, and otherwise as a command
      of the other kind. */
  lemma NextOfPrinted(cmd: Cmd, rest: Bytes)
    requires CmdBytes(cmd).Some?
    ensures var b := CmdBytes(cmd).value; var next := NextCmd(b + rest);
      && (Reprintable(cmd) ==> next == (cmd, rest, |b|))
      && (!Reprintable(cmd) ==> next.0.Op? != cmd.Op?)
  {
    var b := CmdBytes(cmd).value;
    assert Drop(b + rest, 1) == b[1..] + rest;
    if cmd.Push? {
      var data := cmd.data;
      var n := |data|;
      TakeDrop(data, rest);
      if n < 75 {
        assert b[1..] == data;
      } else {
        var width := if n < 0x100 then 1 else 2;
        PowersOf256();
        if n < 0x100 { OneLittleDigit(n); }
        assert b[1..] + rest == LittleDigits(n, width) + (data + rest);
        LittleRoundTrip(n, width, data + rest);
      }
    }
  }

  lemma OneLittleDigit(n: Byte)
    ensures LittleDigits(n, 1) == [n]
  {
    assert LittleDigits(n / 256, 0) == [];
  }

  lemma AllReprintableSplit(cmds: seq<Cmd>)
    requires cmds != []
    ensures AllReprintable(cmds) <==> Reprintable(cmds[0]) && AllReprintable(cmds[1..])
  {
    if AllReprintable(cmds[1..]) && Reprintable(cmds[0]) {
      forall i | 0 <= i < |cmds| ensures Reprintable(cmds[i]) { if i > 0 { assert cmds[i] == cmds[1..][i - 1]; } }
    }
  }

  /** The loop reads back a printed script if each of its commands is reprintable, and other commands otherwise. */
  lemma {:induction false} ParsePrinted(cmds: seq<Cmd>, rest: Bytes)
    requires RawSerialize(cmds).Some?
    ensures var raw := RawSerialize(cmds).value; var parsed := ParseCmds(raw + rest, |raw|);
      if AllReprintable(cmds) then parsed == (cmds, rest, 0) else parsed.0 != cmds
  {
    if cmds == [] {
      assert RawSerialize(cmds).value + rest == rest;
    } else {
      var head, tail := CmdBytes(cmds[0]).value, RawSerialize(cmds[1..]).value;
      assert head + tail + rest == head + (tail + rest);
      NextOfPrinted(cmds[0], tail + rest);
      AllReprintableSplit(cmds);
      if Reprintable(cmds[0]) {
        ParsePrinted(cmds[1..], rest);
        CmdsUnroll(head + (tail + rest), |head + tail|);
        SameTail(cmds, ParseCmds(tail + rest, |tail|).0);
      } else {
        FirstParsed(head + (tail + rest), |head + tail|);
      }
    }
  }

  lemma SameTail(cmds: seq<Cmd>, more: seq<Cmd>)
    requires cmds != []
    ensures [cmds[0]] + more == cmds <==> more == cmds[1..]
  {
    assert cmds == [cmds[0]] + cmds[1..] && ([cmds[0]] + more)[1..] == more;
  }

  lemma FirstParsed(b: Bytes, left: int)
    requires left > 0
    ensures ParseCmds(b, left).0 != [] && ParseCmds(b, left).0[0] == NextCmd(b).0
  {
  }

  /** Parsing what was printed. */
  lemma PrintedParse(cmds: seq<Cmd>, rest: Bytes)
    requires Serialize(cmds).Some?
    ensures var parsed := Parse(Serialize(cmds).value + rest);
      if AllReprintable(cmds) then parsed == Some((cmds, rest)) else parsed.None? || parsed.value.0 != cmds
  {
    var raw := RawSerialize(cmds).value;
    var prefix := EncodeVarint(|raw|).value;
    assert prefix + raw + rest == prefix + (raw + rest);
    VarintRoundTrip(|raw|, raw + rest);
    ParsePrinted(cmds, rest);
  }

  /** A script is printed, and parses back whatever bytes follow, which are left unread, exactly if its opcodes are 0 or
      at least 78, its elements have 1 to 74 or 76 to 520 bytes, and its length can be announced. */
  lemma ParseSerialized(cmds: seq<Cmd>, rest: Bytes)
    ensures Serialize(cmds).Some? && Parse(Serialize(cmds).value + rest) == Some((cmds, rest))
            <==> AllReprintable(cmds) && PrintedLength(cmds) < LENGTH_LIMIT
  {
    SerializeExactly(cmds);
    ReprintableIsPrintable(cmds);
    if Serialize(cmds).Some? { PrintedParse(cmds, rest); }
  }

  lemma ReprintableIsPrintable(cmds: seq<Cmd>)
    ensures AllReprintable(cmds) ==> AllPrintable(cmds)
  {
    if AllReprintable(cmds) {
      forall i | 0 <= i < |cmds| ensures Printable(cmds[i]) { assert Reprintable(cmds[i]); }
    }
  }

  /** Parsing never yields the opcodes that announce elements. */
  lemma {:induction false} ParsedOpcodes(b: Bytes, left: int)
    ensures forall i :: 0 <= i < |ParseCmds(b, left).0| ==>
      var cmd := ParseCmds(b, left).0[i]; cmd.Op? ==> cmd.code == 0 || cmd.code >= 78
    decreases if left < 0 then 0 else left
  {
    if left > 0 {
      var (cmd, rest, used) := NextCmd(b);
      ParsedOpcodes(rest, left - used);
    }
  }

  ghost predicate StepPrints(next: Stepper, b: Bytes) {
    next(b).2 >= 1 && (Printable(next(b).0) ==> PrintedSize(next(b).0) <= next(b).2)
  }

  lemma {:induction false} ParserPrints(parse: Parser, next: Stepper, b: Bytes, left: nat)
    requires ParserOf(parse, next) && forall b :: StepPrints(next, b)
    ensures var (cmds, end, over) := parse(b, left);
      over <= 0 && (AllPrintable(cmds) ==> PrintedLength(cmds) <= left - over)
    decreases left
  {
    assert Unrolls(parse, next, b, left);
    if left > 0 {
      assert StepPrints(next, b);
      var (first, rest, used) := next(b);
      assert Unrolls(parse, next, rest, left - used);
      if used <= left { ParserPrints(parse, next, rest, left - used); }
      MorePrints(first, parse(rest, left - used).0, used, left - parse(rest, left - used).2);
    }
  }

  /** Printing what was parsed takes no more bytes than were counted. */
  lemma ParsedPrints(b: Bytes, left: nat)
    ensures var (cmds, end, over) := ParseCmds(b, left);
      over <= 0 && (AllPrintable(cmds) ==> PrintedLength(cmds) <= left - over)
  {
    var parse, next := CmdsParser(b, left);
    forall x ensures StepPrints(next, x) { StepIsNext(parse, next, x); }
    ParserPrints(parse, next, b, left);
  }

  lemma StepIsNext(parse: Parser, next: Stepper, b: Bytes)
    requires ParserOf(parse, next)
    ensures StepPrints(next, b)
  {
    assert next(b) == NextCmd(b);
    NextPrints(b);
  }

  lemma MorePrints(first: Cmd, cmds: seq<Cmd>, used: nat, total: int)
    requires Printable(first) ==> PrintedSize(first) <= used
    requires AllPrintable(cmds) ==> PrintedLength(cmds) <= total - used
    ensures AllPrintable([first] + cmds) ==> PrintedLength([first] + cmds) <= total
  {
    assert ([first] + cmds)[1..] == cmds;
    AllPrintableSplit([first] + cmds);
  }

  lemma NextPrints(b: Bytes)
    ensures Printable(NextCmd(b).0) ==> PrintedSize(NextCmd(b).0) <= NextCmd(b).2
  {
    FromLittleBound(Take(Drop(b, 1), 1));
    PowersOf256();
    PowMono(256, |Take(Drop(b, 1), 1)|, 1);
  }

  lemma VarintBound(b: Bytes)
    ensures DecodeVarint(b).Some? ==> DecodeVarint(b).value.0 < LENGTH_LIMIT
  {
    if b != [] {
      var n := if b[0] == 0xfd then 2 else if b[0] == 0xfe then 4 else 8;
      FromLittleBound(Take(b[1..], n));
      PowMono(256, |Take(b[1..], n)|, 8);
      PowersOf256();
    }
  }

  /** What was parsed can be printed exactly if it has no element of 75 bytes or of more than 520, and it is then a
      fixed point of printing and parsing exactly if it has no empty element. */
  lemma ParsedIsFixedPoint(b: Bytes, more: Bytes)
    requires Parse(b).Some?
    ensures var cmds := Parse(b).value.0;
      && (Serialize(cmds).Some? <==> AllPrintable(cmds))
      && (Serialize(cmds).Some? && Parse(Serialize(cmds).value + more) == Some((cmds, more))
          <==> AllPrintable(cmds) && Push([]) !in cmds)
  {
    var cmds := Parse(b).value.0;
    var (length, rest) := DecodeVarint(b).value;
    ParsedOpcodes(rest, length);
    VarintBound(b);
    ParsedPrints(rest, length);
    SerializeExactly(cmds);
    ParseSerialized(cmds, more);
    NoEmptyElement(cmds);
  }

  lemma NoEmptyElement(cmds: seq<Cmd>)
    requires forall i :: 0 <= i < |cmds| && cmds[i].Op? ==> cmds[i].code == 0 || cmds[i].code >= 78
    ensures AllReprintable(cmds) <==> AllPrintable(cmds) && Push([]) !in cmds
  {
    ReprintableIsPrintable(cmds);
    if AllPrintable(cmds) && Push([]) !in cmds {
      forall i | 0 <= i < |cmds| ensures Reprintable(cmds[i]) { assert Printable(cmds[i]) && cmds[i] != Push([]); }
    }
  }

  // ----- sizes -----

  /** The bytes a command takes up at least. */
  function Size(cmd: Cmd): nat { match cmd case Op(_) => 1 case Push(data) => 1 + |data| }

  function TotalSize(cmds: seq<Cmd>): nat { if cmds == [] then 0 else Size(cmds[0]) + TotalSize(cmds[1..]) }

  lemma {:induction false} TotalSizeConcat(xs: seq<Cmd>, ys: seq<Cmd>)
    ensures TotalSize(xs + ys) == TotalSize(xs) + TotalSize(ys)
  {
    if xs == [] {
      assert xs + ys == ys;
    } else {
      assert (xs + ys)[1..] == xs[1..] + ys;
      TotalSizeConcat(xs[1..], ys);
    }
  }

  /** Parsing yields no more than the bytes it counted. */
  lemma {:induction false} ParsedSize(b: Bytes, left: nat)
    ensures var (cmds, end, over) := ParseCmds(b, left); over <= 0 && TotalSize(cmds) <= left - over
    decreases left
  {
    if left > 0 {
      var (cmd, rest, used) := NextCmd(b);
      var cmds := ParseCmds(rest, left - used).0;
      assert ([cmd] + cmds)[1..] == cmds;
      NextSize(b);
      if used <= left {
        ParsedSize(rest, left - used);
      }
    }
  }

  lemma NextSize(b: Bytes)
    ensures Size(NextCmd(b).0) <= NextCmd(b).2
  {
  }
}
