/** Exactly which transactions come back from the segwit format (Bitcoin/tx.py: parse_segwit, serialize_segwit), also at
    the very end of the stream. A witness count of 0xfd or more announces a longer integer when it is read; then too much
    is read, and at the end of the stream only the nonzero bytes give that away. */
module SegwitSurvival {
  import opened Prelude
  import opened Positional
  import opened Stream
  import opened Script
  import opened TxCodec
  import opened Survival

  // ----- nonzero bytes -----

  function Weight(b: Bytes): nat { if b == [] then 0 else (if b[0] == 0 then 0 else 1) + Weight(b[1..]) }

  lemma {:induction false} WeightConcat(x: Bytes, y: Bytes)
    ensures Weight(x + y) == Weight(x) + Weight(y)
  {
    if x == [] {
      assert x + y == y;
    } else {
      assert (x + y)[1..] == x[1..] + y;
      WeightConcat(x[1..], y);
    }
  }

  lemma LowDigit(x: Byte, m: nat, y: Byte, n: nat)
    requires x + 256 * m == y + 256 * n
    ensures x == y && m == n
  {
    LowByte(x, m);
    LowByte(y, n);
  }

  lemma {:induction false} WeightOfZero(x: Bytes)
    ensures FromLittle(x) == 0 <==> Weight(x) == 0
  {
    if x != [] { WeightOfZero(x[1..]); }
  }

  /** Little-endian strings of one number have the same nonzero bytes, whatever their lengths. */
  lemma {:induction false} SameNumberSameWeight(x: Bytes, y: Bytes)
    requires FromLittle(x) == FromLittle(y)
    ensures Weight(x) == Weight(y)
  {
    if x == [] || y == [] {
      WeightOfZero(x);
      WeightOfZero(y);
    } else {
      LowDigit(x[0], FromLittle(x[1..]), y[0], FromLittle(y[1..]));
      SameNumberSameWeight(x[1..], y[1..]);
    }
  }

  function VarintWeight(n: nat): nat {
    if n == 0 then 0 else if n < 0xfd then 1 else 1 + Weight(LittleDigits(n, 8))
  }

  lemma DigitsWeigh(x: Bytes, n: nat)
    requires FromLittle(x) == n && n < LENGTH_LIMIT
    ensures Weight(x) == Weight(LittleDigits(n, 8)) && (n > 0 ==> Weight(x) >= 1)
  {
    PowersOf256();
    FromLittleOfDigits(n, 8);
    SameNumberSameWeight(x, LittleDigits(n, 8));
    WeightOfZero(x);
  }

  lemma OneByteWeight(b: Byte)
    ensures Weight([b]) == if b == 0 then 0 else 1
  {
    assert [b][1..] == [];
  }

  lemma EncodedWeight(n: nat)
    requires n < LENGTH_LIMIT
    ensures EncodeVarint(n).Some? && Weight(EncodeVarint(n).value) == VarintWeight(n)
  {
    PowersOf256();
    if n < 0xfd {
      OneByteWeight(n);
    } else {
      var len := if n < 0x10000 then 2 else if n < 0x1_0000_0000 then 4 else 8;
      FromLittleOfDigits(n, len);
      DigitsWeigh(LittleDigits(n, len), n);
      var prefix: Byte := if n < 0x10000 then 0xfd else if n < 0x1_0000_0000 then 0xfe else 0xff;
      OneByteWeight(prefix);
      WeightConcat([prefix], LittleDigits(n, len));
    }
  }

  /** Reading an integer takes at least the nonzero bytes of writing it. */
  lemma VarintWeighs(b: Bytes)
    requires DecodeVarint(b).Some?
    ensures DecodeVarint(b).value.0 < LENGTH_LIMIT
    ensures Weight(b) >= Weight(DecodeVarint(b).value.1) + VarintWeight(DecodeVarint(b).value.0)
  {
    VarintBound(b);
    OneByteWeight(b[0]);
    assert b == [b[0]] + b[1..];
    WeightConcat([b[0]], b[1..]);
    if b[0] >= 0xfd {
      var n := if b[0] == 0xfd then 2 else if b[0] == 0xfe then 4 else 8;
      var x, y := Take(b[1..], n), Drop(b[1..], n);
      assert b[1..] == x + y;
      WeightConcat(x, y);
      DigitsWeigh(x, FromLittle(x));
    }
  }

  // ----- items -----

  function ItemWeight(w: Item): nat {
    match w
    case Number(n) => if n == 0 then 0 else 1
    case Element(data) => VarintWeight(|data|) + Weight(data)
  }

  function ItemsWeight(ws: seq<Item>): nat { if ws == [] then 0 else ItemWeight(ws[0]) + ItemsWeight(ws[1..]) }

  /** The count is one byte. */
  function WitnessWeight(ws: seq<Item>): nat { (if ws == [] then 0 else 1) + ItemsWeight(ws) }

  function WitnessesWeight(ins: seq<In>): nat {
    if ins == [] then 0
    else (if ins[0].items.Some? then WitnessWeight(ins[0].items.value) else 0) + WitnessesWeight(ins[1..])
  }

  lemma ItemBytesWeight(w: Item)
    requires ItemBytes(w).Some?
    ensures Weight(ItemBytes(w).value) == ItemWeight(w)
  {
    ItemBytesExactly(w);
    match w
    case Number(n) =>
      OneLittleDigit(n);
      OneByteWeight(n);
    case Element(data) =>
      EncodedWeight(|data|);
      WeightConcat(EncodeVarint(|data|).value, data);
  }

  lemma {:induction false} ItemsBytesWeight(ws: seq<Item>)
    requires Concat(ws, ItemBytes).Some?
    ensures Weight(Concat(ws, ItemBytes).value) == ItemsWeight(ws)
  {
    if ws != [] {
      ItemBytesWeight(ws[0]);
      ItemsBytesWeight(ws[1..]);
      WeightConcat(ItemBytes(ws[0]).value, Concat(ws[1..], ItemBytes).value);
    }
  }

  lemma WitnessBytesWeight(i: In)
    requires WitnessBytes(i).Some?
    ensures i.items.Some? && Weight(WitnessBytes(i).value) == WitnessWeight(i.items.value)
  {
    var ws := i.items.value;
    WitnessBytesExactly(i);
    OneLittleDigit(|ws|);
    OneByteWeight(|ws|);
    ItemsBytesWeight(ws);
    WeightConcat([|ws|], Concat(ws, ItemBytes).value);
  }

  lemma {:induction false} WitnessesBytesWeight(ins: seq<In>)
    requires Concat(ins, WitnessBytes).Some?
    ensures Weight(Concat(ins, WitnessBytes).value) == WitnessesWeight(ins)
  {
    if ins != [] {
      WitnessBytesWeight(ins[0]);
      WitnessesBytesWeight(ins[1..]);
      WeightConcat(WitnessBytes(ins[0]).value, Concat(ins[1..], WitnessBytes).value);
    }
  }

  // ----- what a run of the parser leaves behind -----

  predicate Suffix(r: Bytes, b: Bytes) { |r| <= |b| && r == b[|b| - |r|..] }

  lemma SuffixTrans(x: Bytes, y: Bytes, z: Bytes)
    requires Suffix(x, y) && Suffix(y, z)
    ensures Suffix(x, z)
  {
  }

  lemma DropSuffix(b: Bytes, n: nat)
    ensures Suffix(Drop(b, n), b)
  {
  }

  lemma VarintSuffix(b: Bytes)
    requires DecodeVarint(b).Some?
    ensures Suffix(DecodeVarint(b).value.1, b)
  {
    if b[0] >= 0xfd {
      DropSuffix(b[1..], if b[0] == 0xfd then 2 else if b[0] == 0xfe then 4 else 8);
    }
  }

  /** An item announced longer than the stream, read at the string `at`: its data is all that is left. */
  predicate CutShort(at: Bytes, w: Item) {
    DecodeVarint(at).Some? && w.Element? && w.data == DecodeVarint(at).value.1 && DecodeVarint(at).value.0 > |w.data|
  }

  /** Reading a whole item takes the nonzero bytes of writing it; otherwise the stream ends in it. */
  lemma ItemRun(b: Bytes) returns (whole: bool)
    requires ReadItem(b).Some?
    ensures var (w, left) := ReadItem(b).value;
      && Suffix(left, b) && |b| - |left| >= ItemSize(w)
      && (whole ==> Weight(b) >= Weight(left) + ItemWeight(w))
      && (!whole ==> left == [] && CutShort(b, w))
  {
    var (n, b1) := DecodeVarint(b).value;
    ItemConsumes(b);
    VarintSuffix(b);
    DropSuffix(b1, n);
    SuffixTrans(Drop(b1, n), b1, b);
    VarintWeighs(b);
    whole := n <= |b1|;
    if whole {
      assert b1 == Take(b1, n) + Drop(b1, n);
      WeightConcat(Take(b1, n), Drop(b1, n));
    }
  }

  /** The last item of a list is cut short at `at`, behind at least the bytes of writing the items before it. */
  ghost predicate EndsIn(b: Bytes, at: Bytes, ws: seq<Item>, left: Bytes) {
    left == [] && ws != [] && Suffix(at, b) && CutShort(at, ws[|ws| - 1])
    && |b| - |at| >= ItemsSize(ws) - ItemSize(ws[|ws| - 1])
  }

  lemma {:induction false} ItemsRun(b: Bytes, n: nat) returns (whole: bool, at: Bytes)
    requires ReadMany(ReadItem, b, n).Some?
    ensures var (ws, left) := ReadMany(ReadItem, b, n).value;
      && Suffix(left, b)
      && (whole ==> Weight(b) >= Weight(left) + ItemsWeight(ws))
      && (!whole ==> EndsIn(b, at, ws, left))
    decreases n
  {
    whole, at := true, [];
    if n > 0 {
      var (first, b1) := ReadItem(b).value;
      var (others, left) := ReadMany(ReadItem, b1, n - 1).value;
      var ws := [first] + others;
      FirstItem(first, others, ws);
      var firstWhole := ItemRun(b);
      if firstWhole {
        whole, at := ItemsRun(b1, n - 1);
        SuffixTrans(left, b1, b);
        if !whole { LaterItemEnd(b, b1, at, first, others, ws, left); }
      } else {
        NothingMore(n - 1, others);
        whole, at := false, b;
      }
    }
  }

  lemma FirstItem(first: Item, others: seq<Item>, ws: seq<Item>)
    requires ws == [first] + others
    ensures ItemsSize(ws) == ItemSize(first) + ItemsSize(others) && ItemsWeight(ws) == ItemWeight(first) + ItemsWeight(others)
  {
    assert ws[1..] == others;
  }

  lemma LaterItemEnd(b: Bytes, b1: Bytes, at: Bytes, first: Item, others: seq<Item>, ws: seq<Item>, left: Bytes)
    requires EndsIn(b1, at, others, left) && Suffix(b1, b) && |b| - |b1| >= ItemSize(first) && ws == [first] + others
    ensures EndsIn(b, at, ws, left)
  {
    SuffixTrans(at, b1, b);
    FirstItem(first, others, ws);
    assert ws[|ws| - 1] == others[|others| - 1];
  }

  lemma NothingMore(n: nat, ws: seq<Item>)
    requires ReadMany(ReadItem, [], n).Some? && ReadMany(ReadItem, [], n).value.0 == ws
    ensures n == 0 && ws == [] && ReadMany(ReadItem, [], n).value.1 == []
  {
    assert ReadItem([]).None?;
  }

  /** One witness with its count; a count of 0xfd or more takes one nonzero byte and two bytes more than was written. */
  lemma WitnessRun(b: Bytes) returns (whole: bool, at: Bytes)
    requires ReadCounted(ReadItem, b).Some?
    ensures var (ws, left) := ReadCounted(ReadItem, b).value;
      var extra := if |ws| >= 0xfd then 1 else 0;
      && Suffix(left, b) && |b| - |left| >= 1 + ItemsSize(ws) + 2 * extra
      && (whole ==> Weight(b) >= Weight(left) + WitnessWeight(ws) + extra)
      && (!whole ==> EndsIn(b, at, ws, left) && |b| - |at| >= 1 + 2 * extra + ItemsSize(ws) - ItemSize(ws[|ws| - 1]))
  {
    var (n, b0) := DecodeVarint(b).value;
    var (ws, left) := ReadMany(ReadItem, b0, n).value;
    VarintSuffix(b);
    VarintWeighs(b);
    CountConsumes(b, |ws|);
    ItemsConsume(b0, n);
    whole, at := ItemsRun(b0, n);
    SuffixTrans(left, b0, b);
    if |ws| >= 0xfd { CountWeight(|ws|); }
    if !whole { SuffixTrans(at, b0, b); }
  }

  lemma CountConsumes(b: Bytes, n: nat)
    requires DecodeVarint(b).Some? && DecodeVarint(b).value.0 == n && (n > 0 ==> DecodeVarint(b).value.1 != [])
    ensures |b| - |DecodeVarint(b).value.1| >= if n >= 0xfd then 3 else 1
  {
    VarintConsumes(b, n);
  }

  lemma CountWeight(n: nat)
    requires 0xfd <= n < LENGTH_LIMIT
    ensures VarintWeight(n) >= 2
  {
    PowersOf256();
    FromLittleOfDigits(n, 8);
    WeightOfZero(LittleDigits(n, 8));
  }

  function LastItem(ins: seq<In>): (w: Item)
    requires ins != [] && ins[|ins| - 1].items.Some? && ins[|ins| - 1].items.value != []
  {
    var ws := ins[|ins| - 1].items.value;
    ws[|ws| - 1]
  }

  ghost predicate InputsEndIn(b: Bytes, at: Bytes, ins: seq<In>, left: Bytes, lead: nat) {
    left == [] && ins != [] && ins[|ins| - 1].items.Some? && ins[|ins| - 1].items.value != [] && Suffix(at, b)
    && CutShort(at, LastItem(ins)) && |b| - |at| >= WitnessesSize(ins) - ItemSize(LastItem(ins)) + lead
  }

  function Extra(ins: seq<In>): nat {
    if ins != [] && ins[0].items.Some? && |ins[0].items.value| >= 0xfd then 1 else 0
  }

  lemma {:induction false} WitnessesRun(ins: seq<In>, b: Bytes) returns (whole: bool, at: Bytes)
    requires ReadWitnesses(ins, b).Some?
    ensures var (full, left) := ReadWitnesses(ins, b).value;
      && Suffix(left, b) && |b| - |left| >= WitnessesSize(full) + 2 * Extra(full)
      && (whole ==> Weight(b) >= Weight(left) + WitnessesWeight(full) + Extra(full))
      && (!whole ==> InputsEndIn(b, at, full, left, 2 * Extra(full)))
  {
    whole, at := true, [];
    if ins != [] {
      var (ws, b1) := ReadCounted(ReadItem, b).value;
      var (others, left) := ReadWitnesses(ins[1..], b1).value;
      var first := ins[0].(items := Some(ws));
      var full := [first] + others;
      FirstWitness(first, ws, others, full);
      whole, at := WitnessRun(b);
      if whole {
        whole, at := WitnessesRun(ins[1..], b1);
        SuffixTrans(left, b1, b);
        if !whole { LaterEnd(b, b1, at, others, full, left, first, ws); }
      } else {
        NoMoreInputs(ins[1..], others);
        assert full == [first];
      }
    }
  }

  lemma FirstWitness(first: In, ws: seq<Item>, others: seq<In>, full: seq<In>)
    requires first.items == Some(ws) && full == [first] + others
    ensures WitnessesSize(full) == 1 + ItemsSize(ws) + WitnessesSize(others)
    ensures WitnessesWeight(full) == WitnessWeight(ws) + WitnessesWeight(others)
    ensures Extra(full) == (if |ws| >= 0xfd then 1 else 0) && Extra(others) >= 0
  {
    assert full[1..] == others;
  }

  lemma LaterEnd(b: Bytes, b1: Bytes, at: Bytes, others: seq<In>, full: seq<In>, left: Bytes, first: In, ws: seq<Item>)
    requires InputsEndIn(b1, at, others, left, 2 * Extra(others)) && first.items == Some(ws) && full == [first] + others
    requires Suffix(b1, b) && |b| - |b1| >= 1 + ItemsSize(ws) + 2 * Extra(full)
    requires WitnessesSize(full) == 1 + ItemsSize(ws) + WitnessesSize(others)
    ensures InputsEndIn(b, at, full, left, 2 * Extra(full))
  {
    SuffixTrans(at, b1, b);
    assert full[|full| - 1] == others[|others| - 1];
  }

  lemma NoMoreInputs(ins: seq<In>, full: seq<In>)
    requires ReadWitnesses(ins, []).Some? && ReadWitnesses(ins, []).value.0 == full
    ensures full == [] && ReadWitnesses(ins, []).value.1 == []
  {
    assert ReadCounted(ReadItem, []).None?;
  }

  // ----- the end of the stream -----

  lemma {:induction false} NoWeight(x: Bytes, i: nat)
    requires Weight(x) == 0 && i < |x|
    ensures x[i] == 0
  {
    if i > 0 { NoWeight(x[1..], i - 1); }
  }

  /** Four bytes that stand for the same number as their last two or fewer are zeros. */
  lemma SuffixOfLocktime(l: Bytes, r: Bytes)
    requires |l| == 4 && Suffix(r, l) && |r| <= 2 && FromLittle(r) == FromLittle(l)
    ensures FromLittle(l) == 0 && Weight(l) == 0
  {
    var x := l[..4 - |r|];
    assert l == x + r;
    FromLittleConcat(x, r);
    PowersOf256();
    PowMono(256, 2, |x|);
    MulMono(FromLittle(r), 0x10000, Pow(256, |x|));
    WeightOfZero(l);
  }

  /** Data that reappears four bytes later, over zeros, is zero. */
  lemma {:induction false} ShiftedZeros(d: Bytes, z: Bytes, i: nat)
    requires |z| == 4 && Weight(z) == 0 && d == (d + z)[4..] && i < |d|
    ensures d[i] == 0
    decreases |d| - i
  {
    assert d[i] == (d + z)[i + 4];
    if i + 4 < |d| { ShiftedZeros(d, z, i + 4); } else { NoWeight(z, i + 4 - |d|); }
  }

  lemma {:induction false} ZerosAreZero(x: Bytes)
    requires forall i :: 0 <= i < |x| ==> x[i] == 0
    ensures FromLittle(x) == 0
  {
    if x != [] { ZerosAreZero(x[1..]); }
  }

  /** Everything behind the length of the last item is zero if its data reappears at the end. */
  lemma ZeroTail(d: Bytes, z: Bytes)
    requires |z| == 4 && Weight(z) == 0 && d == (d + z)[4..]
    ensures forall i :: 0 <= i < |d| + 4 ==> (d + z)[i] == 0
  {
    forall i | 0 <= i < |d| + 4 ensures (d + z)[i] == 0 {
      if i < |d| { ShiftedZeros(d, z, i); } else { NoWeight(z, i - |d|); }
    }
  }

  /** A number read from the high half of an eight-byte length is not above it. */
  lemma HighHalf(n: nat, v: Bytes, x: Bytes, z: Bytes)
    requires n < LENGTH_LIMIT && v == LittleDigits(n, 8) && x == v[4..] + z && forall i :: 0 <= i < |z| ==> z[i] == 0
    ensures FromLittle(x) <= n
  {
    PowersOf256();
    FromLittleOfDigits(n, 8);
    assert v == v[..4] + v[4..];
    FromLittleConcat(v[..4], v[4..]);
    FromLittleConcat(v[4..], z);
    ZerosAreZero(z);
    MulMono(FromLittle(v[4..]), 1, Pow(256, 4));
  }

  /** What a cut-short item consists of. */
  lemma CutShortParts(at: Bytes, d: Bytes) returns (n: nat)
    requires CutShort(at, Element(d))
    ensures at != [] && Suffix(d, at)
    ensures at[0] < 0xfd ==> |at| == |d| + 1 && at[0] > |d|
    ensures at[0] >= 0xfd ==> n == (if at[0] == 0xfd then 2 else if at[0] == 0xfe then 4 else 8)
    ensures at[0] >= 0xfd ==> FromLittle(Take(at[1..], n)) > |d| && (|at| == |d| + 1 + n || (d == [] && |at| <= n))
  {
    VarintSuffix(at);
    n := if at[0] == 0xfd then 2 else if at[0] == 0xfe then 4 else 8;
  }

  lemma Tail(v: Bytes, t: Bytes, x: Bytes, d: Bytes)
    requires x == v + t && Suffix(d, x) && |t| == |d| + 4
    ensures d == t[4..]
  {
  }

  /** Four zeros behind a four-byte prefix: the number read is zero. */
  lemma FourZeros(at: Bytes)
    requires |at| >= 5 && at[1] == 0 && at[2] == 0 && at[3] == 0 && at[4] == 0
    ensures FromLittle(Take(at[1..], 4)) == 0
  {
    ZerosAreZero(Take(at[1..], 4));
  }

  /** An eight-byte prefix that starts inside an eight-byte length. */
  lemma InsideLength(n: nat, v: Bytes, t: Bytes, at: Bytes)
    requires n < LENGTH_LIMIT && EncodeVarint(n) == Some(v) && |v| == 9 && |t| >= 4 && at == (v + t)[4..]
    requires t[0] == 0 && t[1] == 0 && t[2] == 0 && t[3] == 0
    ensures FromLittle(Take(at[1..], 8)) <= n
  {
    assert v[1..] == LittleDigits(n, 8);
    assert Take(at[1..], 8) == v[1..][4..] + t[..4];
    HighHalf(n, v[1..], Take(at[1..], 8), t[..4]);
  }

  /** At the end of a stream of zeros, two bytes or more behind its place, the last item cannot be read cut short. */
  lemma NotCutShort(v: Bytes, d: Bytes, z: Bytes, t: Bytes, at: Bytes)
    requires |d| < LENGTH_LIMIT && EncodeVarint(|d|) == Some(v) && |z| == 4 && Weight(z) == 0 && t == d + z
    requires |at| + 2 <= |v + t| && Suffix(at, v + t)
    ensures !CutShort(at, Element(d))
  {
    if CutShort(at, Element(d)) {
      var s := |v + t| - |at|;
      var n := CutShortParts(at, d);
      SuffixTrans(d, at, v + t);
      Tail(v, t, v + t, d);
      ZeroTail(d, z);
      assert at[0] == (v + t)[s];
      EncodedLength(|d|, v);
      if n == 4 {
        assert at[1] == t[0] && at[2] == t[1] && at[3] == t[2] && at[4] == t[3];
        FourZeros(at);
      } else {
        assert |v| == 9 && s == 4;
        InsideLength(|d|, v, t, at);
      }
    }
  }

  lemma EncodedLength(n: nat, v: Bytes)
    requires EncodeVarint(n) == Some(v)
    ensures |v| == VarintSize(n)
  {
  }

  lemma {:induction false} ConcatLast<T>(xs: seq<T>, bytesOf: T -> Option<Bytes>) returns (front: Bytes)
    requires Concat(xs, bytesOf).Some? && xs != []
    ensures bytesOf(xs[|xs| - 1]).Some? && Concat(xs, bytesOf).value == front + bytesOf(xs[|xs| - 1]).value
  {
    var head := bytesOf(xs[0]).value;
    if |xs| == 1 {
      front := [];
      assert Concat(xs[1..], bytesOf) == Some([]);
      assert head + [] == [] + head;
    } else {
      var inner := ConcatLast(xs[1..], bytesOf);
      front := head + inner;
      assert head + (inner + bytesOf(xs[|xs| - 1]).value) == front + bytesOf(xs[|xs| - 1]).value;
    }
  }

  /** The witnesses end with the bytes of the last item. */
  lemma LastBytes(ins: seq<In>) returns (front: Bytes)
    requires Concat(ins, WitnessBytes).Some? && ins != []
    requires ins[|ins| - 1].items.Some? && ins[|ins| - 1].items.value != []
    ensures ItemBytes(LastItem(ins)).Some? && Concat(ins, WitnessBytes).value == front + ItemBytes(LastItem(ins)).value
    ensures |front| == WitnessesSize(ins) - ItemSize(LastItem(ins))
  {
    var i := ins[|ins| - 1];
    var before := ConcatLast(ins, WitnessBytes);
    var inner := ConcatLast(i.items.value, ItemBytes);
    var count, last := ToLittle(|i.items.value|, 1).value, ItemBytes(LastItem(ins)).value;
    front := before + (count + inner);
    assert before + (count + (inner + last)) == front + last;
    WitnessesBytesSize(ins);
    ItemBytesSize(LastItem(ins));
  }

  lemma {:induction false} SameWeight(x: seq<In>, y: seq<In>)
    requires |x| == |y| && forall k :: 0 <= k < |x| ==> x[k].items == y[k].items
    ensures WitnessesWeight(x) == WitnessesWeight(y)
  {
    if x != [] { SameWeight(x[1..], y[1..]); }
  }

  /** What the end of the stream looks like to the lock time read after it. */
  predicate EndsWell(left: Bytes, l: Bytes) { |left| <= 4 && FromLittle(left) == FromLittle(l) }

  /** If the first witness has 0xfd items or more, the lock time at the end of the stream does not come back with it. */
  lemma BigCountEndsBadly(ins: seq<In>, parsed: seq<In>, l: Bytes)
    requires |parsed| == |ins| && ins != [] && Concat(ins, WitnessBytes).Some? && |l| == 4
    requires ins[0].items.Some? && |ins[0].items.value| >= 0xfd
    requires ReadWitnesses(parsed, Concat(ins, WitnessBytes).value + l).Some?
    requires var full := ReadWitnesses(parsed, Concat(ins, WitnessBytes).value + l).value.0;
      forall k :: 0 <= k < |ins| ==> full[k].items == ins[k].items
    ensures !EndsWell(ReadWitnesses(parsed, Concat(ins, WitnessBytes).value + l).value.1, l)
  {
    var c := Concat(ins, WitnessBytes).value;
    var (full, left) := ReadWitnesses(parsed, c + l).value;
    var whole, at := WitnessesRun(parsed, c + l);
    SameSize(full, ins);
    SameWeight(full, ins);
    WitnessesBytesSize(ins);
    WitnessesBytesWeight(ins);
    WeightConcat(c, l);
    if EndsWell(left, l) {
      SuffixOfEnd(c, l, left);
      SuffixOfLocktime(l, left);
      if !whole { NotCutShortAt(ins, full, c, l, at); }
    }
  }

  lemma SuffixOfEnd(c: Bytes, l: Bytes, r: Bytes)
    requires Suffix(r, c + l) && |r| <= |l|
    ensures Suffix(r, l)
  {
  }

  lemma NotCutShortAt(ins: seq<In>, full: seq<In>, c: Bytes, l: Bytes, at: Bytes)
    requires |full| == |ins| && forall k :: 0 <= k < |ins| ==> full[k].items == ins[k].items
    requires Concat(ins, WitnessBytes) == Some(c) && |l| == 4 && Weight(l) == 0
    requires WitnessesSize(full) == WitnessesSize(ins)
    ensures !InputsEndIn(c + l, at, full, [], 2)
  {
    if InputsEndIn(c + l, at, full, [], 2) {
      SameEnd(c + l, at, full, ins);
      var front := LastBytes(ins);
      NotCutShortBehind(front, LastItem(ins), c, l, at);
    }
  }

  lemma SameEnd(b: Bytes, at: Bytes, full: seq<In>, ins: seq<In>)
    requires |full| == |ins| && InputsEndIn(b, at, full, [], 2) && WitnessesSize(full) == WitnessesSize(ins)
    requires forall k :: 0 <= k < |ins| ==> full[k].items == ins[k].items
    ensures InputsEndIn(b, at, ins, [], 2)
  {
    var k := |ins| - 1;
    assert full[k].items == ins[k].items;
  }

  lemma NotCutShortBehind(front: Bytes, w: Item, c: Bytes, l: Bytes, at: Bytes)
    requires w.Element? && ItemBytes(w).Some? && c == front + ItemBytes(w).value && |l| == 4 && Weight(l) == 0
    requires Suffix(at, c + l) && |c + l| - |at| >= |front| + 2
    ensures !CutShort(at, w)
  {
    var v := EncodeVarint(|w.data|).value;
    assert c + l == front + (v + (w.data + l));
    SuffixOfEnd(front, v + (w.data + l), at);
    NotCutShort(v, w.data, l, w.data + l, at);
  }

  /** If all witnesses and the lock time at the very end of the stream come back, the witnesses were readable. */
  lemma {:induction false} EndExact(ins: seq<In>, parsed: seq<In>, l: Bytes)
    requires |parsed| == |ins| && Concat(ins, WitnessBytes).Some? && |l| == 4
    requires ReadWitnesses(parsed, Concat(ins, WitnessBytes).value + l).Some?
    requires var (full, left) := ReadWitnesses(parsed, Concat(ins, WitnessBytes).value + l).value;
      EndsWell(left, l) && forall k :: 0 <= k < |ins| ==> full[k].items == ins[k].items
    ensures forall k :: 0 <= k < |ins| ==> ReadableWitness(ins[k])
  {
    if ins != [] {
      var first, tail := WitnessBytes(ins[0]).value, Concat(ins[1..], WitnessBytes).value;
      var b := Concat(ins, WitnessBytes).value + l;
      assert b == first + (tail + l);
      var (full, left) := ReadWitnesses(parsed, b).value;
      var (items, b1) := ReadCounted(ReadItem, b).value;
      var others := ReadWitnesses(parsed[1..], b1).value.0;
      assert full == [parsed[0].(items := Some(items))] + others;
      assert full[0].items == Some(items);
      if |ins[0].items.value| >= 0xfd { BigCountEndsBadly(ins, parsed, l); }
      SmallWitnessExact(ins[0], tail + l);
      forall k | 0 <= k < |others| ensures others[k].items == ins[1..][k].items {
        assert others[k] == full[k + 1] && ins[1..][k] == ins[k + 1];
      }
      EndExact(ins[1..], parsed[1..], l);
      FirstAndOthers(ins);
    }
  }

  lemma FirstAndOthers(ins: seq<In>)
    requires ins != [] && ReadableWitness(ins[0]) && forall k :: 0 <= k < |ins[1..]| ==> ReadableWitness(ins[1..][k])
    ensures forall k :: 0 <= k < |ins| ==> ReadableWitness(ins[k])
  {
    forall k | 0 <= k < |ins| ensures ReadableWitness(ins[k]) { if k > 0 { assert ins[k] == ins[1..][k - 1]; } }
  }

  lemma SmallWitnessExact(i: In, rest: Bytes)
    requires WitnessBytes(i).Some? && |i.items.value| < 0xfd && ReadCounted(ReadItem, WitnessBytes(i).value + rest).Some?
    requires ReadCounted(ReadItem, WitnessBytes(i).value + rest).value.0 == i.items.value
    ensures ReadableWitness(i) && ReadCounted(ReadItem, WitnessBytes(i).value + rest).value.1 == rest
  {
    var ws := i.items.value;
    var all := Concat(ws, ItemBytes).value;
    OneLittleDigit(|ws|);
    assert WitnessBytes(i).value + rest == [|ws|] + (all + rest);
    assert DecodeVarint([|ws|] + (all + rest)) == Some((|ws|, all + rest));
    ItemsExact(ws, rest);
    ReadBackWitness(i, rest);
  }

  // ----- exactly which transactions survive -----

  lemma SurvivorReadyAtEnd(tx: TxData)
    requires SegwitSurvives(tx, [])
    ensures SegwitReady(tx)
  {
    var full, left := SegwitParts(tx, []);
    var l := ToLittle(tx.locktime, 4).value;
    assert l + [] == l;
    PowersOf256();
    FromLittleOfDigits(tx.locktime, 4);
    assert EndsWell(left, l);
    EndExact(tx.ins, Map(tx.ins, Misread), l);
    assert ReadableWitnesses(tx);
    SegwitReadySurvives(tx, []);
  }

  /** A transaction survives the segwit format, whatever follows it, exactly if its fields are in range, its outpoints
      have 32 bytes, its scripts are reprintable, every witness has fewer than 0xfd items, each of them the number 0 or a
      non-empty byte string, and every sequence is 0xffffffff. */
  lemma SegwitExactly(tx: TxData, rest: Bytes)
    ensures SegwitSurvives(tx, rest) <==>
            InRange(tx) && WitnessesInRange(tx) && Readable(tx) && ReadableWitnesses(tx) && FinalSequences(tx.ins)
  {
    if SegwitSurvives(tx, rest) {
      if rest == [] { SurvivorReadyAtEnd(tx); } else { SurvivorReady(tx, rest); }
    }
    if SegwitReady(tx) { SegwitReadySurvives(tx, rest); }
  }

  // ----- transactions that do not -----

  /** A sequence other than the default is lost in both formats. */
  lemma SequenceLost(sequence: nat, rest: Bytes)
    requires sequence < MAX_SEQUENCE
    ensures var tx := TxData(1, [In(Zeros(32), 0, [], NoScript, 0, sequence, Some([]))], [], 0);
      LegacyBytes(tx).Some? && SegwitBytes(tx).Some? && !LegacySurvives(tx, rest) && !SegwitSurvives(tx, rest)
  {
    var tx := TxData(1, [In(Zeros(32), 0, [], NoScript, 0, sequence, Some([]))], [], 0);
    LegacyBytesExactly(tx);
    SegwitBytesExactly(tx);
    LegacyExactly(tx, rest);
    SegwitExactly(tx, rest);
    assert tx.ins[0].sequence != MAX_SEQUENCE;
  }

  /** So is a witness of 253 to 255 items. */
  lemma WitnessLost(n: nat, rest: Bytes)
    requires 0xfd <= n < 0x100
    ensures var tx := TxData(1, [In(Zeros(32), 0, [], NoScript, 0, MAX_SEQUENCE, Some(Repeat(Number(0), n)))], [], 0);
      LegacySurvives(tx, rest) && SegwitBytes(tx).Some? && !SegwitSurvives(tx, rest)
  {
    var tx := TxData(1, [In(Zeros(32), 0, [], NoScript, 0, MAX_SEQUENCE, Some(Repeat(Number(0), n)))], [], 0);
    SegwitBytesExactly(tx);
    LegacyExactly(tx, rest);
    SegwitExactly(tx, rest);
    assert !ReadableWitness(tx.ins[0]);
  }
}
