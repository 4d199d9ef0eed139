/** OP_CHECKMULTISIG (Bitcoin/op.py: op_checkmultisig). Keys and signatures are whatever their parsers make of byte
    strings; whether a key verifies a signature, or the check raises, is a parameter. */
module Multisig {
  import opened Prelude
  import Num = ScriptNum

  /** Parsing succeeds, raises ValueError or SyntaxError, or raises something else. */
  datatype ParseResult<+T> = Parsed(value: T) | Malformed | Broken

  datatype Checker<!K, !S> = Checker(
    parseKey: Bytes -> ParseResult<K>, parseSig: Bytes -> ParseResult<S>, verifies: (K, S) -> Option<bool>)

  /** The operation returns True or False, or raises. */
  datatype Status = Succeeded | Failed | Raised

  /** The Python list that serves as the stack. */
  class StackList {
    var items: seq<Bytes>
  }

  // ----- the scan over the keys -----

  /** How many keys are gone after looking, from key number `from` on, for one that verifies `sig`. */
  function Search<K, S>(keys: seq<K>, from: nat, sig: S, ok: (K, S) -> bool): (e: nat)
    requires from <= |keys|
    ensures from <= e <= |keys|
    decreases |keys| - from
  {
    if from == |keys| then from else if ok(keys[from], sig) then from + 1 else Search(keys, from + 1, sig, ok)
  }

  /** How many keys are gone before signature number j. */
  function Gone<K, S>(keys: seq<K>, sigs: seq<S>, ok: (K, S) -> bool, j: nat): (e: nat)
    requires j <= |sigs|
    ensures e <= |keys|
  {
    if j == 0 then 0 else Search(keys, Gone(keys, sigs, ok, j - 1), sigs[j - 1], ok)
  }

  /** Keys are left before signature number j. */
  predicate LeftBefore<K, S>(keys: seq<K>, sigs: seq<S>, ok: (K, S) -> bool, j: nat)
    requires j <= |sigs|
  {
    Gone(keys, sigs, ok, j) < |keys|
  }

  predicate NeverExhausted<K, S>(keys: seq<K>, sigs: seq<S>, ok: (K, S) -> bool) {
    forall j :: 0 <= j < |sigs| ==> LeftBefore(keys, sigs, ok, j)
  }

  /** A search ends at a key that verifies and at one whose check raises. */
  function Stops<K, S>(v: (K, S) -> Option<bool>): (K, S) -> bool { (key, sig) => v(key, sig) != Some(false) }

  function Verified<K, S>(v: (K, S) -> Option<bool>): (K, S) -> bool { (key, sig) => v(key, sig) == Some(true) }

  /** The search that starts at key number `from` ends in an exception. */
  predicate SearchRaises<K, S>(keys: seq<K>, from: nat, sig: S, v: (K, S) -> Option<bool>)
    requires from <= |keys|
  {
    var e := Search(keys, from, sig, Stops(v));
    e > from && v(keys[e - 1], sig) == None
  }

  /** The scan gets to signature number j, and raises there. */
  predicate RaisesAt<K, S>(keys: seq<K>, sigs: seq<S>, v: (K, S) -> Option<bool>, j: nat)
    requires j < |sigs|
  {
    (forall i :: 0 <= i <= j ==> LeftBefore(keys, sigs, Stops(v), i))
    && SearchRaises(keys, Gone(keys, sigs, Stops(v), j), sigs[j], v)
  }

  /** How the two loops end; when they succeed, 1 is pushed. */
  function ScanStatus<K, S>(keys: seq<K>, sigs: seq<S>, v: (K, S) -> Option<bool>): Status {
    if exists j :: 0 <= j < |sigs| && RaisesAt(keys, sigs, v, j) then Raised
    else if NeverExhausted(keys, sigs, Stops(v)) then Succeeded
    else Failed
  }

  /** The inner loop: drops keys up to the first that verifies, or raises. */
  method DropUntil<K, S>(left: seq<K>, sig: S, v: (K, S) -> Option<bool>, ghost keys: seq<K>, ghost from: nat)
    returns (points: seq<K>, raised: bool)
    requires from <= |keys| && left == keys[from..]
    ensures points == keys[Search(keys, from, sig, Stops(v))..] && (raised <==> SearchRaises(keys, from, sig, v))
  {
    points, raised := left, false;
    ghost var gone := from;
    while points != []
      invariant from <= gone <= |keys| && points == keys[gone..] && !raised
      invariant Search(keys, gone, sig, Stops(v)) == Search(keys, from, sig, Stops(v))
      invariant gone > from ==> v(keys[gone - 1], sig) == Some(false)
      decreases |points|
    {
      var point := points[0];
      points := points[1..];
      var verdict := v(point, sig);
      if verdict != Some(false) { return points, verdict == None; }
      gone := gone + 1;
    }
  }

  /** The scan gets past the first j signatures. */
  predicate Reached<K, S>(keys: seq<K>, sigs: seq<S>, v: (K, S) -> Option<bool>, j: nat)
    requires j <= |sigs|
  {
    forall i :: 0 <= i < j ==> LeftBefore(keys, sigs, Stops(v), i) && !RaisesAt(keys, sigs, v, i)
  }

  lemma FailsAt<K, S>(keys: seq<K>, sigs: seq<S>, v: (K, S) -> Option<bool>, j: nat)
    requires j < |sigs| && !LeftBefore(keys, sigs, Stops(v), j) && Reached(keys, sigs, v, j)
    ensures ScanStatus(keys, sigs, v) == Failed
  {
  }

  lemma NextReached<K, S>(keys: seq<K>, sigs: seq<S>, v: (K, S) -> Option<bool>, j: nat)
    requires j < |sigs| && LeftBefore(keys, sigs, Stops(v), j) && Reached(keys, sigs, v, j)
    ensures if SearchRaises(keys, Gone(keys, sigs, Stops(v), j), sigs[j], v)
            then ScanStatus(keys, sigs, v) == Raised else Reached(keys, sigs, v, j + 1)
  {
    if SearchRaises(keys, Gone(keys, sigs, Stops(v), j), sigs[j], v) { assert RaisesAt(keys, sigs, v, j); }
  }

  /** The loop over the signatures. */
  method MatchAll<K, S>(keys: seq<K>, sigs: seq<S>, v: (K, S) -> Option<bool>) returns (status: Status)
    ensures status == ScanStatus(keys, sigs, v)
  {
    var points := keys;
    ghost var gone := 0;
    for j := 0 to |sigs|
      invariant gone == Gone(keys, sigs, Stops(v), j) && points == keys[gone..]
      invariant Reached(keys, sigs, v, j)
    {
      if |points| == 0 {
        FailsAt(keys, sigs, v, j);
        return Failed;
      }
      var raised;
      points, raised := DropUntil(points, sigs[j], v, keys, gone);
      NextReached(keys, sigs, v, j);
      if raised { return Raised; }
      gone := |keys| - |points|;
    }
    status := Succeeded;
  }

  // ----- the whole operation -----

  function ParseAll<T>(bs: seq<Bytes>, parse: Bytes -> ParseResult<T>): ParseResult<seq<T>> {
    if bs == [] then Parsed([])
    else match parse(bs[0])
      case Malformed => Malformed
      case Broken => Broken
      case Parsed(first) =>
        match ParseAll(bs[1..], parse)
        case Malformed => Malformed
        case Broken => Broken
        case Parsed(others) => Parsed([first] + others)
  }

  lemma {:induction false} AllParsed<T>(bs: seq<Bytes>, parse: Bytes -> ParseResult<T>, ts: seq<T>)
    requires |ts| == |bs| && forall i :: 0 <= i < |bs| ==> parse(bs[i]) == Parsed(ts[i])
    ensures ParseAll(bs, parse) == Parsed(ts)
  {
    if bs != [] {
      AllParsed(bs[1..], parse, ts[1..]);
      assert ts == [ts[0]] + ts[1..];
    }
  }

  /** The n elements on top of the stack, topmost first, and the stack below them. */
  function PopMany(stack: seq<Bytes>, n: int): (r: (seq<Bytes>, seq<Bytes>))
    requires n <= |stack|
    ensures |r.0| == Max(n, 0) && |r.1| == |stack| - Max(n, 0)
  {
    if n <= 0 then ([], stack)
    else
      var (popped, below) := PopMany(stack[..|stack| - 1], n - 1);
      ([stack[|stack| - 1]] + popped, below)
  }

  function AllButLast(bs: seq<Bytes>): (r: seq<Bytes>)
    ensures |r| == |bs| && forall i :: 0 <= i < |bs| ==> r[i] == ButLast(bs[i])
  {
    if bs == [] then [] else [ButLast(bs[0])] + AllButLast(bs[1..])
  }

  /** The keys and signatures on the stack, or how the operation ends without them, and the stack below. */
  datatype Arguments =
    | Arguments(keys: seq<Bytes>, sigs: seq<Bytes>, below: seq<Bytes>)
    | Missing(status: Status, below: seq<Bytes>)

  /** Takes the counts, the keys, the signatures and the extra element off the stack. Counts may be negative; then
      nothing is taken for them. */
  function TakeArguments(stack: seq<Bytes>): Arguments {
    if stack == [] then Missing(Failed, [])
    else
      var n := Num.Decode(stack[|stack| - 1]);
      var s1 := stack[..|stack| - 1];
      if |s1| < n + 1 then Missing(Failed, s1)
      else
        var (keys, s2) := PopMany(s1, n);
        if s2 == [] then Missing(Raised, [])
        else
          var m := Num.Decode(s2[|s2| - 1]);
          var s3 := s2[..|s2| - 1];
          if |s3| < m + 1 then Missing(Failed, s3)
          else
            var (sigs, s4) := PopMany(s3, m);
            if s4 == [] then Missing(Raised, [])
            else Arguments(keys, AllButLast(sigs), s4[..|s4| - 1])
  }

  /** What op_checkmultisig does, and the stack it leaves. */
  function CheckMultisig<K, S>(c: Checker<K, S>, stack: seq<Bytes>): (Status, seq<Bytes>) {
    match TakeArguments(stack)
    case Missing(status, below) => (status, below)
    case Arguments(keys, sigs, below) =>
      match ParseAll(keys, c.parseKey)
      case Malformed => (Failed, below)
      case Broken => (Raised, below)
      case Parsed(points) =>
        match ParseAll(sigs, c.parseSig)
        case Malformed => (Failed, below)
        case Broken => (Raised, below)
        case Parsed(signatures) =>
          var status := ScanStatus(points, signatures, c.verifies);
          (status, if status == Succeeded then below + [Num.Encode(1)] else below)
  }

  // ----- what has to be on the stack -----

  lemma {:induction false} PopReversed(below: seq<Bytes>, xs: seq<Bytes>)
    ensures PopMany(below + Reverse(xs), |xs|) == (xs, below)
    decreases |xs|
  {
    if xs == [] {
      assert below + Reverse(xs) == below;
    } else {
      var stack := below + Reverse(xs);
      assert stack[|stack| - 1] == xs[0] && stack[..|stack| - 1] == below + Reverse(xs[1..]);
      PopReversed(below, xs[1..]);
      assert [xs[0]] + xs[1..] == xs;
    }
  }

  /** From below: the extra element, the signatures, their count, the keys, their count; the last of each list first. */
  function Layout(below: seq<Bytes>, extra: Bytes, sigs: seq<Bytes>, m: Bytes, keys: seq<Bytes>, n: Bytes): seq<Bytes> {
    below + [extra] + Reverse(sigs) + [m] + Reverse(keys) + [n]
  }

  lemma OnTop(below: seq<Bytes>, top: Bytes)
    ensures var stack := below + [top]; stack[|stack| - 1] == top && stack[..|stack| - 1] == below
  {
  }

  /** The elements of the layout are taken as they were put there, each signature without its last byte. */
  lemma TakenFromLayout(below: seq<Bytes>, extra: Bytes, sigs: seq<Bytes>, m: Bytes, keys: seq<Bytes>, n: Bytes)
    requires Num.Decode(m) == |sigs| && Num.Decode(n) == |keys|
    ensures TakeArguments(Layout(below, extra, sigs, m, keys, n)) == Arguments(keys, AllButLast(sigs), below)
  {
    var s4 := below + [extra];
    var s3 := s4 + Reverse(sigs);
    var s2 := s3 + [m];
    var s1 := s2 + Reverse(keys);
    OnTop(s1, n);
    PopReversed(s2, keys);
    OnTop(s3, m);
    PopReversed(s4, sigs);
    OnTop(below, extra);
  }

  /** Signatures with their hash type bytes. */
  function WithTypes(ders: seq<Bytes>, kinds: seq<Byte>): (sigs: seq<Bytes>)
    requires |ders| == |kinds|
    ensures |sigs| == |ders| && forall i :: 0 <= i < |ders| ==> sigs[i] == ders[i] + [kinds[i]]
  {
    seq(|ders|, i requires 0 <= i < |ders| => ders[i] + [kinds[i]])
  }

  lemma TypesCutOff(ders: seq<Bytes>, kinds: seq<Byte>)
    requires |ders| == |kinds|
    ensures AllButLast(WithTypes(ders, kinds)) == ders
  {
    forall i | 0 <= i < |ders| ensures ButLast(WithTypes(ders, kinds)[i]) == ders[i] { }
  }

  lemma TakenWithTypes(below: seq<Bytes>, extra: Bytes, ders: seq<Bytes>, kinds: seq<Byte>, keys: seq<Bytes>)
    requires |ders| == |kinds|
    ensures TakeArguments(Layout(below, extra, WithTypes(ders, kinds), Num.Encode(|ders|), keys, Num.Encode(|keys|)))
         == Arguments(keys, ders, below)
  {
    Num.DecodeEncode(|ders|);
    Num.DecodeEncode(|keys|);
    TakenFromLayout(below, extra, WithTypes(ders, kinds), Num.Encode(|ders|), keys, Num.Encode(|keys|));
    TypesCutOff(ders, kinds);
  }

  /** op_checkmultisig on m signatures with any hash type bytes and n keys, all of which parse: it ends as the scan over
      these keys and signatures does, leaves what was below the extra element, and puts 1 on it if it succeeds. */
  lemma CheckedAsLaidOut<K, S>(c: Checker<K, S>, below: seq<Bytes>, extra: Bytes, ders: seq<Bytes>, kinds: seq<Byte>,
                               keys: seq<Bytes>, points: seq<K>, sigs: seq<S>)
    requires |ders| == |kinds| == |sigs| && |keys| == |points|
    requires forall i :: 0 <= i < |keys| ==> c.parseKey(keys[i]) == Parsed(points[i])
    requires forall j :: 0 <= j < |ders| ==> c.parseSig(ders[j]) == Parsed(sigs[j])
    ensures var status := ScanStatus(points, sigs, c.verifies);
      CheckMultisig(c, Layout(below, extra, WithTypes(ders, kinds), Num.Encode(|ders|), keys, Num.Encode(|keys|)))
      == (status, if status == Succeeded then below + [Num.Encode(1)] else below)
  {
    TakenWithTypes(below, extra, ders, kinds, keys);
    AllParsed(keys, c.parseKey, points);
    AllParsed(ders, c.parseSig, sigs);
  }

  /** The first byte string that does not parse decides how parsing fails. */
  lemma {:induction false} FirstUnparsed<T>(bs: seq<Bytes>, parse: Bytes -> ParseResult<T>, i: nat)
    requires i < |bs| && !parse(bs[i]).Parsed? && forall k :: 0 <= k < i ==> parse(bs[k]).Parsed?
    ensures if parse(bs[i]).Malformed? then ParseAll(bs, parse).Malformed? else ParseAll(bs, parse).Broken?
    decreases |bs|
  {
    if i > 0 {
      assert bs[1..][i - 1] == bs[i];
      FirstUnparsed(bs[1..], parse, i - 1);
    }
  }

  /** A key that does not parse ends the operation before any signature is looked at. */
  lemma KeyUnparsed<K, S>(c: Checker<K, S>, below: seq<Bytes>, extra: Bytes, ders: seq<Bytes>, kinds: seq<Byte>,
                          keys: seq<Bytes>, i: nat)
    requires |ders| == |kinds| && i < |keys| && !c.parseKey(keys[i]).Parsed?
    requires forall k :: 0 <= k < i ==> c.parseKey(keys[k]).Parsed?
    ensures CheckMultisig(c, Layout(below, extra, WithTypes(ders, kinds), Num.Encode(|ders|), keys, Num.Encode(|keys|)))
         == (if c.parseKey(keys[i]).Malformed? then Failed else Raised, below)
  {
    TakenWithTypes(below, extra, ders, kinds, keys);
    FirstUnparsed(keys, c.parseKey, i);
  }

  /** A signature that does not parse ends it before any is verified. */
  lemma SignatureUnparsed<K, S>(c: Checker<K, S>, below: seq<Bytes>, extra: Bytes, ders: seq<Bytes>, kinds: seq<Byte>,
                                keys: seq<Bytes>, i: nat)
    requires |ders| == |kinds| && i < |ders| && !c.parseSig(ders[i]).Parsed?
    requires forall k :: 0 <= k < i ==> c.parseSig(ders[k]).Parsed?
    requires forall k :: 0 <= k < |keys| ==> c.parseKey(keys[k]).Parsed?
    ensures CheckMultisig(c, Layout(below, extra, WithTypes(ders, kinds), Num.Encode(|ders|), keys, Num.Encode(|keys|)))
         == (if c.parseSig(ders[i]).Malformed? then Failed else Raised, below)
  {
    TakenWithTypes(below, extra, ders, kinds, keys);
    AllKeysParsed(keys, c.parseKey);
    FirstUnparsed(ders, c.parseSig, i);
  }

  lemma {:induction false} AllKeysParsed<T>(bs: seq<Bytes>, parse: Bytes -> ParseResult<T>)
    requires forall i :: 0 <= i < |bs| ==> parse(bs[i]).Parsed?
    ensures ParseAll(bs, parse).Parsed?
  {
    if bs != [] { AllKeysParsed(bs[1..], parse); }
  }

  /** With too few elements below a count, which is popped, the operation returns False. */
  lemma TooFewKeys(stack: seq<Bytes>, n: nat)
    requires |stack| <= n
    ensures TakeArguments(stack + [Num.Encode(n)]) == Missing(Failed, stack)
  {
    Num.DecodeEncode(n);
    OnTop(stack, Num.Encode(n));
  }

  /** A negative count asks for nothing; the missing count below it makes the operation raise. */
  lemma NegativeCount(n: int)
    requires n < 0
    ensures TakeArguments([Num.Encode(n)]) == Missing(Raised, [])
  {
    Num.DecodeEncode(n);
    assert [Num.Encode(n)][..0] == [];
  }

  lemma TooFewSignatures(stack: seq<Bytes>, m: nat, keys: seq<Bytes>)
    requires |stack| <= m
    ensures TakeArguments(stack + [Num.Encode(m)] + Reverse(keys) + [Num.Encode(|keys|)]) == Missing(Failed, stack)
  {
    var s2 := stack + [Num.Encode(m)];
    Num.DecodeEncode(m);
    Num.DecodeEncode(|keys|);
    OnTop(s2 + Reverse(keys), Num.Encode(|keys|));
    PopReversed(s2, keys);
    OnTop(stack, Num.Encode(m));
  }

  /** Arguments are taken from nothing but such a layout; counts may be negative, then their list is empty. */
  lemma TakenIsLaidOut(stack: seq<Bytes>) returns (extra: Bytes, sigs: seq<Bytes>, m: Bytes, n: Bytes)
    requires TakeArguments(stack).Arguments?
    ensures var a := TakeArguments(stack);
      && stack == Layout(a.below, extra, sigs, m, a.keys, n) && a.sigs == AllButLast(sigs)
      && |sigs| == Max(Num.Decode(m), 0) && |a.keys| == Max(Num.Decode(n), 0)
  {
    n := stack[|stack| - 1];
    var s1 := stack[..|stack| - 1];
    var (keys, s2) := PopMany(s1, Num.Decode(n));
    PoppedIsReversed(s1, Num.Decode(n));
    m := s2[|s2| - 1];
    var s3 := s2[..|s2| - 1];
    sigs := PopMany(s3, Num.Decode(m)).0;
    var s4 := PopMany(s3, Num.Decode(m)).1;
    PoppedIsReversed(s3, Num.Decode(m));
    extra := s4[|s4| - 1];
    Joined(stack, s1, n, s2, keys, s3, m, s4, sigs, extra);
  }

  lemma Joined(stack: seq<Bytes>, s1: seq<Bytes>, n: Bytes, s2: seq<Bytes>, keys: seq<Bytes>, s3: seq<Bytes>, m: Bytes,
               s4: seq<Bytes>, sigs: seq<Bytes>, extra: Bytes)
    requires stack != [] && s1 == stack[..|stack| - 1] && n == stack[|stack| - 1] && s1 == s2 + Reverse(keys)
    requires s2 != [] && s3 == s2[..|s2| - 1] && m == s2[|s2| - 1] && s3 == s4 + Reverse(sigs)
    requires s4 != [] && extra == s4[|s4| - 1]
    ensures stack == Layout(s4[..|s4| - 1], extra, sigs, m, keys, n)
  {
    assert s4 == s4[..|s4| - 1] + [extra] && s2 == s3 + [m] && stack == s1 + [n];
  }

  lemma {:induction false} PoppedIsReversed(stack: seq<Bytes>, n: int)
    requires n <= |stack|
    ensures stack == PopMany(stack, n).1 + Reverse(PopMany(stack, n).0)
    decreases n
  {
    if n <= 0 {
      assert Reverse<Bytes>([]) == [];
    } else {
      var top, below := stack[|stack| - 1], stack[..|stack| - 1];
      var (popped, rest) := PopMany(below, n - 1);
      PoppedIsReversed(below, n - 1);
      assert Reverse([top] + popped) == Reverse(popped) + [top];
      assert stack == below + [top];
    }
  }

  method Pop(stack: StackList) returns (top: Bytes)
    requires stack.items != []
    modifies stack
    ensures top == old(stack.items)[|old(stack.items)| - 1]
    ensures stack.items == old(stack.items)[..|old(stack.items)| - 1]
  {
    top := stack.items[|stack.items| - 1];
    stack.items := stack.items[..|stack.items| - 1];
  }

  method PopSeveral(stack: StackList, n: int) returns (popped: seq<Bytes>)
    requires n <= |stack.items|
    modifies stack
    ensures (popped, stack.items) == PopMany(old(stack.items), n)
  {
    popped := [];
    var i := 0;
    while i < n
      invariant 0 <= i <= Max(n, 0) && n - i <= |stack.items|
      invariant var (more, below) := PopMany(stack.items, n - i);
        PopMany(old(stack.items), n).0 == popped + more && PopMany(old(stack.items), n).1 == below
    {
      var top := Pop(stack);
      popped := popped + [top];
      i := i + 1;
    }
    assert popped + [] == popped;
  }

  method OpCheckMultisig<K, S>(c: Checker<K, S>, stack: StackList) returns (status: Status)
    modifies stack
    ensures (status, stack.items) == CheckMultisig(c, old(stack.items))
  {
    if |stack.items| < 1 { return Failed; }
    var top := Pop(stack);
    var n := Num.DecodeNum(top);
    if |stack.items| < n + 1 { return Failed; }
    var keys := PopSeveral(stack, n);
    if stack.items == [] { return Raised; }
    top := Pop(stack);
    var m := Num.DecodeNum(top);
    if |stack.items| < m + 1 { return Failed; }
    var sigs := PopSeveral(stack, m);
    if stack.items == [] { return Raised; }
    top := Pop(stack);
    assert TakeArguments(old(stack.items)) == Arguments(keys, AllButLast(sigs), stack.items);
    var points := ParseAll(keys, c.parseKey);
    if points.Malformed? { return Failed; }
    if points.Broken? { return Raised; }
    var signatures := ParseAll(AllButLast(sigs), c.parseSig);
    if signatures.Malformed? { return Failed; }
    if signatures.Broken? { return Raised; }
    status := MatchAll(points.value, signatures.value, c.verifies);
    if status == Succeeded {
      var one := Num.EncodeNum(1);
      stack.items := stack.items + [one];
    }
  }

  // ----- the scan is optimal -----

  /** `f` assigns to each of the first signatures a key that verifies it, in the order of the keys. */
  ghost predicate Matching<K, S>(f: seq<nat>, keys: seq<K>, sigs: seq<S>, ok: (K, S) -> bool) {
    |f| <= |sigs|
    && (forall j :: 0 <= j < |f| ==> f[j] < |keys| && ok(keys[f[j]], sigs[j]))
    && (forall i, j :: 0 <= i < j < |f| ==> f[i] < f[j])
  }

  /** How many keys there are up to the last one used. */
  function UpToLast(f: seq<nat>): nat { if f == [] then 0 else f[|f| - 1] + 1 }

  /** Some key from number `from` on verifies the signature. */
  predicate Findable<K, S>(keys: seq<K>, from: nat, sig: S, ok: (K, S) -> bool) {
    exists i :: from <= i < |keys| && ok(keys[i], sig)
  }

  /** The search stops behind the first key that verifies, or at the end. */
  lemma {:induction false} SearchFinds<K, S>(keys: seq<K>, from: nat, sig: S, ok: (K, S) -> bool)
    requires from <= |keys|
    ensures var e := Search(keys, from, sig, ok);
      if Findable(keys, from, sig, ok)
      then from < e && ok(keys[e - 1], sig) && forall i :: from <= i < e - 1 ==> !ok(keys[i], sig)
      else e == |keys|
    decreases |keys| - from
  {
    if from < |keys| && !ok(keys[from], sig) {
      SearchFinds(keys, from + 1, sig, ok);
    }
  }

  /** The search made for signature number j finds a key. */
  ghost predicate FoundAt<K, S>(keys: seq<K>, sigs: seq<S>, ok: (K, S) -> bool, j: nat)
    requires j < |sigs|
  {
    Findable(keys, Gone(keys, sigs, ok, j), sigs[j], ok)
  }

  /** The scan never uses more keys than a matching of the same signatures. */
  lemma {:induction false} ScanUsesFewest<K, S>(keys: seq<K>, sigs: seq<S>, ok: (K, S) -> bool, f: seq<nat>)
    requires Matching(f, keys, sigs, ok)
    ensures Gone(keys, sigs, ok, |f|) <= UpToLast(f)
    decreases |f|
  {
    if f != [] {
      var j := |f| - 1;
      PrefixMatch(f, j, keys, sigs, ok);
      ScanUsesFewest(keys, sigs, ok, f[..j]);
      var from := Gone(keys, sigs, ok, j);
      assert from <= f[j] && ok(keys[f[j]], sigs[j]);
      SearchFinds(keys, from, sigs[j], ok);
    }
  }

  lemma AppendMatch<K, S>(f: seq<nat>, e: nat, keys: seq<K>, sigs: seq<S>, ok: (K, S) -> bool)
    requires Matching(f, keys, sigs, ok) && |f| < |sigs| && UpToLast(f) <= e < |keys| && ok(keys[e], sigs[|f|])
    ensures Matching(f + [e], keys, sigs, ok)
  {
    forall i, j | 0 <= i < j < |f| + 1 ensures (f + [e])[i] < (f + [e])[j] {
      if j == |f| && i < |f| - 1 { assert f[i] < f[|f| - 1]; }
    }
  }

  lemma PrefixMatch<K, S>(f: seq<nat>, n: nat, keys: seq<K>, sigs: seq<S>, ok: (K, S) -> bool)
    requires Matching(f, keys, sigs, ok) && n <= |f|
    ensures Matching(f[..n], keys, sigs, ok)
  {
  }

  /** If every search before j found a key, the keys found are a matching that uses exactly the keys gone. */
  lemma {:induction false} ScanMatches<K, S>(keys: seq<K>, sigs: seq<S>, ok: (K, S) -> bool, j: nat) returns (f: seq<nat>)
    requires j <= |sigs| && forall i :: 0 <= i < j ==> FoundAt(keys, sigs, ok, i)
    ensures |f| == j && Matching(f, keys, sigs, ok) && UpToLast(f) == Gone(keys, sigs, ok, j)
    decreases j
  {
    if j == 0 {
      f := [];
    } else {
      var g := ScanMatches(keys, sigs, ok, j - 1);
      f := ExtendMatch(keys, sigs, ok, j, g);
    }
  }

  lemma ExtendMatch<K, S>(keys: seq<K>, sigs: seq<S>, ok: (K, S) -> bool, j: nat, g: seq<nat>) returns (f: seq<nat>)
    requires 1 <= j <= |sigs| && |g| == j - 1 && Matching(g, keys, sigs, ok) && UpToLast(g) == Gone(keys, sigs, ok, j - 1)
    requires FoundAt(keys, sigs, ok, j - 1)
    ensures |f| == j && Matching(f, keys, sigs, ok) && UpToLast(f) == Gone(keys, sigs, ok, j)
  {
    SearchFinds(keys, Gone(keys, sigs, ok, j - 1), sigs[j - 1], ok);
    var e := Gone(keys, sigs, ok, j) - 1;
    AppendMatch(g, e, keys, sigs, ok);
    f := g + [e];
  }

  /** If keys are left before signature j, every earlier search found one. */
  lemma {:induction false} AllFound<K, S>(keys: seq<K>, sigs: seq<S>, ok: (K, S) -> bool, j: nat)
    requires j <= |sigs| && LeftBefore(keys, sigs, ok, j)
    ensures forall i :: 0 <= i < j ==> FoundAt(keys, sigs, ok, i)
    ensures forall i :: 0 <= i < j ==> LeftBefore(keys, sigs, ok, i)
    decreases j
  {
    if j > 0 {
      SearchFinds(keys, Gone(keys, sigs, ok, j - 1), sigs[j - 1], ok);
      AllFound(keys, sigs, ok, j - 1);
    }
  }

  /** Whenever keys are left before signature j, the signatures before it have an order-preserving matching that uses
      up exactly the keys gone, and no such matching uses fewer. */
  lemma GreedyOptimal<K, S>(keys: seq<K>, sigs: seq<S>, ok: (K, S) -> bool, j: nat)
    requires j <= |sigs| && LeftBefore(keys, sigs, ok, j)
    ensures exists f :: |f| == j && Matching(f, keys, sigs, ok) && UpToLast(f) == Gone(keys, sigs, ok, j)
    ensures forall f :: |f| == j && Matching(f, keys, sigs, ok) ==> Gone(keys, sigs, ok, j) <= UpToLast(f)
  {
    AllFound(keys, sigs, ok, j);
    var f := ScanMatches(keys, sigs, ok, j);
    forall g | |g| == j && Matching(g, keys, sigs, ok)
      ensures Gone(keys, sigs, ok, j) <= UpToLast(g)
    {
      ScanUsesFewest(keys, sigs, ok, g);
    }
  }

  /** 1 is pushed exactly if there is no signature, or all signatures but the last have an order-preserving matching
      that leaves a key. */
  lemma AcceptedExactly<K, S>(keys: seq<K>, sigs: seq<S>, ok: (K, S) -> bool)
    ensures NeverExhausted(keys, sigs, ok) <==>
            sigs == [] || exists f :: |f| == |sigs| - 1 && Matching(f, keys, sigs, ok) && UpToLast(f) < |keys|
  {
    if sigs != [] {
      var j := |sigs| - 1;
      AcceptedByLast(keys, sigs, ok);
      if NeverExhausted(keys, sigs, ok) {
        GreedyOptimal(keys, sigs, ok, j);
      }
      forall f | |f| == j && Matching(f, keys, sigs, ok) && UpToLast(f) < |keys| ensures NeverExhausted(keys, sigs, ok) {
        ScanUsesFewest(keys, sigs, ok, f);
      }
    }
  }

  /** Keys are left before every signature exactly if they are left before the last. */
  lemma AcceptedByLast<K, S>(keys: seq<K>, sigs: seq<S>, ok: (K, S) -> bool)
    requires sigs != []
    ensures NeverExhausted(keys, sigs, ok) <==> LeftBefore(keys, sigs, ok, |sigs| - 1)
  {
    if LeftBefore(keys, sigs, ok, |sigs| - 1) {
      AllFound(keys, sigs, ok, |sigs| - 1);
    }
  }

  /** The operation raises only if some check does, and certainly if the first one does. */
  lemma RaisedMeans<K, S>(keys: seq<K>, sigs: seq<S>, v: (K, S) -> Option<bool>)
    ensures ScanStatus(keys, sigs, v) == Raised ==>
      exists i, j :: 0 <= i < |keys| && 0 <= j < |sigs| && v(keys[i], sigs[j]) == None
    ensures keys != [] && sigs != [] && v(keys[0], sigs[0]) == None ==> ScanStatus(keys, sigs, v) == Raised
  {
    if ScanStatus(keys, sigs, v) == Raised {
      var j :| 0 <= j < |sigs| && RaisesAt(keys, sigs, v, j);
      var e := Search(keys, Gone(keys, sigs, Stops(v), j), sigs[j], Stops(v));
      assert v(keys[e - 1], sigs[j]) == None;
    }
    if keys != [] && sigs != [] && v(keys[0], sigs[0]) == None {
      assert Gone(keys, sigs, Stops(v), 0) == 0;
      assert Stops(v)(keys[0], sigs[0]);
      assert RaisesAt(keys, sigs, v, 0);
    }
  }

  lemma {:induction false} SameSearch<K, S>(keys: seq<K>, from: nat, sig: S, v: (K, S) -> Option<bool>)
    requires from <= |keys| && !SearchRaises(keys, from, sig, v)
    ensures Search(keys, from, sig, Verified(v)) == Search(keys, from, sig, Stops(v))
    decreases |keys| - from
  {
    if from < |keys| {
      var stops, verified := Stops(v), Verified(v);
      if !stops(keys[from], sig) {
        SameSearch(keys, from + 1, sig, v);
      } else {
        assert Search(keys, from, sig, stops) == from + 1;
        var verdict := v(keys[from], sig);
        assert verdict.Some? && verdict.value;
        assert verified(keys[from], sig);
      }
    }
  }

  lemma {:induction false} SameGone<K, S>(keys: seq<K>, sigs: seq<S>, v: (K, S) -> Option<bool>, j: nat)
    requires j <= |sigs|
    requires forall i :: 0 <= i < j ==> LeftBefore(keys, sigs, Stops(v), i) && !RaisesAt(keys, sigs, v, i)
    ensures Gone(keys, sigs, Verified(v), j) == Gone(keys, sigs, Stops(v), j)
  {
    if j > 0 {
      SameGone(keys, sigs, v, j - 1);
      assert !RaisesAt(keys, sigs, v, j - 1);
      SameSearch(keys, Gone(keys, sigs, Stops(v), j - 1), sigs[j - 1], v);
    }
  }

  /** If no check raises on the way, 1 is pushed exactly as told by the keys that verify. */
  lemma SucceedsExactly<K, S>(keys: seq<K>, sigs: seq<S>, v: (K, S) -> Option<bool>)
    requires ScanStatus(keys, sigs, v) != Raised
    ensures ScanStatus(keys, sigs, v) == Succeeded <==>
            sigs == [] || exists f :: |f| == |sigs| - 1 && Matching(f, keys, sigs, Verified(v)) && UpToLast(f) < |keys|
  {
    AcceptedExactly(keys, sigs, Verified(v));
    SameVerdict(keys, sigs, v);
  }

  lemma SameVerdict<K, S>(keys: seq<K>, sigs: seq<S>, v: (K, S) -> Option<bool>)
    requires forall j :: 0 <= j < |sigs| ==> !RaisesAt(keys, sigs, v, j)
    ensures NeverExhausted(keys, sigs, Stops(v)) <==> NeverExhausted(keys, sigs, Verified(v))
  {
    var n := 0;
    while n < |sigs| && LeftBefore(keys, sigs, Stops(v), n)
      invariant 0 <= n <= |sigs|
      invariant forall i :: 0 <= i < n ==> LeftBefore(keys, sigs, Stops(v), i) && LeftBefore(keys, sigs, Verified(v), i)
    {
      SameGone(keys, sigs, v, n);
      n := n + 1;
    }
    if n < |sigs| {
      SameGone(keys, sigs, v, n);
      assert !LeftBefore(keys, sigs, Stops(v), n) && !LeftBefore(keys, sigs, Verified(v), n);
    }
  }

  /** All signatures have an order-preserving matching exactly if 1 is pushed and a remaining key verifies the last
      signature, which the operation does not look at again after its search. */
  lemma FullyMatchedExactly<K, S>(keys: seq<K>, sigs: seq<S>, ok: (K, S) -> bool)
    ensures HasMatching(keys, sigs, ok) <==>
            NeverExhausted(keys, sigs, ok)
            && (sigs == [] || FoundAt(keys, sigs, ok, |sigs| - 1))
  {
    if sigs == [] {
      assert Matching([], keys, sigs, ok);
    } else {
      if HasMatching(keys, sigs, ok) {
        var f :| |f| == |sigs| && Matching(f, keys, sigs, ok);
        LastIsFindable(keys, sigs, ok, f);
      } else if NeverExhausted(keys, sigs, ok) && FoundAt(keys, sigs, ok, |sigs| - 1) {
        FoundIsMatched(keys, sigs, ok);
      }
      AcceptedByLast(keys, sigs, ok);
    }
  }

  lemma FoundIsMatched<K, S>(keys: seq<K>, sigs: seq<S>, ok: (K, S) -> bool)
    requires sigs != [] && FoundAt(keys, sigs, ok, |sigs| - 1)
    ensures HasMatching(keys, sigs, ok)
  {
    var n := |sigs| - 1;
    AllFound(keys, sigs, ok, n);
    var g := ScanMatches(keys, sigs, ok, n);
    var f := ExtendMatch(keys, sigs, ok, n + 1, g);
  }

  ghost predicate HasMatching<K, S>(keys: seq<K>, sigs: seq<S>, ok: (K, S) -> bool) {
    exists f :: |f| == |sigs| && Matching(f, keys, sigs, ok)
  }

  lemma LastIsFindable<K, S>(keys: seq<K>, sigs: seq<S>, ok: (K, S) -> bool, f: seq<nat>)
    requires sigs != [] && |f| == |sigs| && Matching(f, keys, sigs, ok)
    ensures FoundAt(keys, sigs, ok, |sigs| - 1)
  {
    var j := |sigs| - 1;
    PrefixMatch(f, j, keys, sigs, ok);
    ScanUsesFewest(keys, sigs, ok, f[..j]);
    assert Gone(keys, sigs, ok, j) <= f[j] && ok(keys[f[j]], sigs[j]);
  }

  /** One key and one signature it does not verify: 1 is pushed all the same. */
  lemma LastSearchUnchecked<K, S>(key: K, sig: S, never: (K, S) -> bool)
    requires !never(key, sig)
    ensures NeverExhausted([key], [sig], never) && !HasMatching([key], [sig], never)
  {
    FullyMatchedExactly([key], [sig], never);
    assert Gone([key], [sig], never, 0) == 0;
  }
}
