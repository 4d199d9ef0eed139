/** Merkle roots (Bitcoin/merkle.py). Lists are objects, because merkle_parent_level appends to its argument. */
module Merkle {
  import opened Prelude

  /** A Python list of hashes. */
  class HashList {
    var items: seq<Bytes>

    constructor (items: seq<Bytes>)
      ensures this.items == items
    {
      this.items := items;
    }
  }

  /** merkle_parent */
  function Parent(h: Hash, left: Bytes, right: Bytes): Bytes { h(left + right) }

  /** A level of odd length with its last hash repeated. */
  function Evened(hs: seq<Bytes>): (r: seq<Bytes>)
    ensures |r| % 2 == 0
  {
    if |hs| % 2 == 1 then hs + [hs[|hs| - 1]] else hs
  }

  function Pairs(h: Hash, hs: seq<Bytes>): (r: seq<Bytes>)
    requires |hs| % 2 == 0
    ensures 2 * |r| == |hs|
  {
    if hs == [] then [] else [Parent(h, hs[0], hs[1])] + Pairs(h, hs[2..])
  }

  /** The level above. */
  function Level(h: Hash, hs: seq<Bytes>): (r: seq<Bytes>)
    ensures |r| == (|hs| + 1) / 2
  {
    Pairs(h, Evened(hs))
  }

  lemma {:induction false} PairsSplit(h: Hash, l: seq<Bytes>, r: seq<Bytes>)
    requires |l| % 2 == 0 && |r| % 2 == 0
    ensures Pairs(h, l + r) == Pairs(h, l) + Pairs(h, r)
  {
    if l == [] {
      assert l + r == r && Pairs(h, l) == [];
    } else {
      PairsSplit(h, l[2..], r);
      assert (l + r)[2..] == l[2..] + r;
      assert (l + r)[0] == l[0] && (l + r)[1] == l[1];
    }
  }

  /** One more pair. */
  lemma NextPair(h: Hash, hs: seq<Bytes>, i: nat)
    requires i % 2 == 0 && i + 2 <= |hs|
    ensures Pairs(h, hs[..i + 2]) == Pairs(h, hs[..i]) + [Parent(h, hs[i], hs[i + 1])]
  {
    var pair := hs[i..i + 2];
    PairsSplit(h, hs[..i], pair);
    assert hs[..i + 2] == hs[..i] + pair;
    assert pair[2..] == [] && Pairs(h, []) == [];
  }

  /** merkle_parent_level: refuses a single hash, and evens the caller's list. */
  method ParentLevel(h: Hash, hashes: HashList) returns (parents: Option<HashList>)
    modifies hashes
    ensures |old(hashes.items)| == 1 ==> parents.None? && hashes.items == old(hashes.items)
    ensures |old(hashes.items)| != 1 ==>
      && hashes.items == Evened(old(hashes.items))
      && parents.Some? && fresh(parents.value) && parents.value.items == Level(h, old(hashes.items))
  {
    if |hashes.items| == 1 { return None; }
    if |hashes.items| % 2 == 1 {
      hashes.items := hashes.items + [hashes.items[|hashes.items| - 1]];
    }
    var items := hashes.items;
    var level: seq<Bytes> := [];
    var i := 0;
    while i < |items|
      invariant i % 2 == 0 && i <= |items| && |items| % 2 == 0
      invariant level == Pairs(h, items[..i]) && hashes.items == items
    {
      NextPair(h, items, i);
      level := level + [Parent(h, items[i], items[i + 1])];
      i := i + 2;
    }
    assert items[..i] == items;
    var list := new HashList(level);
    parents := Some(list);
  }

  /** The tree over at most 2^d leaves whose missing right halves repeat the left ones. */
  function Tree(h: Hash, hs: seq<Bytes>, d: nat): Bytes
    requires 1 <= |hs| <= Pow(2, d)
    decreases d
  {
    if d == 0 then hs[0]
    else
      var half := Pow(2, d - 1);
      if |hs| <= half then Parent(h, Tree(h, hs, d - 1), Tree(h, hs, d - 1))
      else Parent(h, Tree(h, hs[..half], d - 1), Tree(h, hs[half..], d - 1))
  }

  /** The height of the tree over n leaves. */
  function Height(n: nat): nat
    requires n >= 1
  {
    if n == 1 then 0 else 1 + Height((n + 1) / 2)
  }

  lemma {:induction false} HeightFits(n: nat)
    requires n >= 1
    ensures n <= Pow(2, Height(n))
  {
    if n > 1 { HeightFits((n + 1) / 2); }
  }

  /** The root of a nonempty list. */
  function Root(h: Hash, hs: seq<Bytes>): Bytes
    requires hs != []
  {
    HeightFits(|hs|);
    Tree(h, hs, Height(|hs|))
  }

  lemma TreeShort(h: Hash, hs: seq<Bytes>, d: nat)
    requires 1 <= |hs| <= Pow(2, d)
    ensures |hs| <= Pow(2, d + 1) && Tree(h, hs, d + 1) == Parent(h, Tree(h, hs, d), Tree(h, hs, d))
  {
  }

  lemma TreeLong(h: Hash, hs: seq<Bytes>, l: seq<Bytes>, r: seq<Bytes>, d: nat)
    requires hs == l + r && |l| == Pow(2, d) && 1 <= |r| <= Pow(2, d)
    ensures |l| >= 1 && |hs| <= Pow(2, d + 1) && Tree(h, hs, d + 1) == Parent(h, Tree(h, l, d), Tree(h, r, d))
  {
    PowPositive(2, d);
    assert hs[..|l|] == l && hs[|l|..] == r;
  }

  /** Building the tree level by level is building it from the top: one level up, one height less. */
  lemma {:induction false} TreeOfLevel(h: Hash, hs: seq<Bytes>, d: nat)
    requires 1 <= |hs| <= Pow(2, d + 1)
    ensures |Level(h, hs)| <= Pow(2, d) && Tree(h, hs, d + 1) == Tree(h, Level(h, hs), d)
    decreases d, 1
  {
    if d == 0 {
      LevelOfTwo(h, hs);
    } else if |hs| <= Pow(2, d) {
      TreeOfLevel(h, hs, d - 1);
      TreeShort(h, hs, d);
      TreeShort(h, Level(h, hs), d - 1);
    } else {
      var quarter := Pow(2, d - 1);
      assert Pow(2, d) == 2 * quarter;
      TreeOfLongLevel(h, hs, hs[..2 * quarter], hs[2 * quarter..], d - 1);
    }
  }

  lemma TreeOfLongLevel(h: Hash, hs: seq<Bytes>, l: seq<Bytes>, r: seq<Bytes>, d: nat)
    requires hs == l + r && |l| == Pow(2, d + 1) && 1 <= |r| <= Pow(2, d + 1)
    ensures |hs| <= Pow(2, d + 2)
    ensures |Level(h, hs)| <= Pow(2, d + 1) && Tree(h, hs, d + 2) == Tree(h, Level(h, hs), d + 1)
    decreases d + 1, 0
  {
    PowPositive(2, d);
    assert |l| == 2 * Pow(2, d);
    TreeOfLevel(h, l, d);
    TreeOfLevel(h, r, d);
    LevelSplits(h, hs, l, r, Pow(2, d));
    JoinTrees(h, hs, l, r, Level(h, hs), Level(h, l), Level(h, r), d);
  }

  lemma JoinTrees(h: Hash, hs: seq<Bytes>, l: seq<Bytes>, r: seq<Bytes>,
                  up: seq<Bytes>, upL: seq<Bytes>, upR: seq<Bytes>, d: nat)
    requires hs == l + r && |l| == Pow(2, d + 1) && 1 <= |r| <= Pow(2, d + 1)
    requires up == upL + upR && |upL| == Pow(2, d) && 1 <= |upL| && 1 <= |upR| <= Pow(2, d)
    requires Tree(h, l, d + 1) == Tree(h, upL, d) && Tree(h, r, d + 1) == Tree(h, upR, d)
    ensures |hs| <= Pow(2, d + 2) && |up| <= Pow(2, d + 1) && Tree(h, hs, d + 2) == Tree(h, up, d + 1)
  {
    TreeLong(h, hs, l, r, d + 1);
    TreeLong(h, up, upL, upR, d);
  }

  lemma LevelOfTwo(h: Hash, hs: seq<Bytes>)
    requires 1 <= |hs| <= Pow(2, 1)
    ensures |Level(h, hs)| == Pow(2, 0) && Tree(h, hs, 1) == Tree(h, Level(h, hs), 0)
  {
    assert Pow(2, 1) == 2 * Pow(2, 0) == 2;
    assert Pairs(h, Evened(hs)[2..]) == [];
  }

  lemma LevelSplits(h: Hash, hs: seq<Bytes>, l: seq<Bytes>, r: seq<Bytes>, m: nat)
    requires hs == l + r && |l| == 2 * m && r != []
    ensures Level(h, hs) == Level(h, l) + Level(h, r) && |Level(h, l)| == m
  {
    PairsSplit(h, l, Evened(r));
    assert Evened(hs) == l + Evened(r) && Evened(l) == l;
  }

  lemma RootOfLevel(h: Hash, hs: seq<Bytes>)
    requires |hs| > 1
    ensures Root(h, Level(h, hs)) == Root(h, hs)
  {
    HeightFits(|hs|);
    TreeOfLevel(h, hs, Height(|hs|) - 1);
  }

  /** merkle_root: nothing to answer for an empty list (it raises); otherwise the root of the tree. The caller's list
      is changed only by the first level, which may append a copy of its last element. */
  method MerkleRoot(h: Hash, hashes: HashList) returns (root: Option<Bytes>)
    modifies hashes
    ensures old(hashes.items) == [] ==> root == None && hashes.items == []
    ensures old(hashes.items) != [] ==> root == Some(Root(h, old(hashes.items)))
    ensures |old(hashes.items)| != 1 ==> hashes.items == Evened(old(hashes.items))
    ensures |old(hashes.items)| == 1 ==> hashes.items == old(hashes.items)
  {
    var current := hashes;
    while |current.items| > 1
      invariant current == hashes || fresh(current)
      invariant current == hashes ==> hashes.items == old(hashes.items)
      invariant current != hashes ==> |old(hashes.items)| > 1 && hashes.items == Evened(old(hashes.items))
      invariant old(hashes.items) == [] <==> current.items == []
      invariant current.items != [] ==> Root(h, current.items) == Root(h, old(hashes.items))
      decreases |current.items|
    {
      RootOfLevel(h, current.items);
      var parents := ParentLevel(h, current);
      current := parents.value;
    }
    if current.items == [] { return None; }
    assert Root(h, current.items) == current.items[0];
    root := Some(current.items[0]);
  }

  // ----- what the root tells apart -----

  predicate Hashes(hs: seq<Bytes>) { forall i :: 0 <= i < |hs| ==> |hs[i]| == 32 }

  /** The subtrees of a tree one level higher; a missing right one repeats the left one. */
  function Halves(hs: seq<Bytes>, d: nat): (p: (seq<Bytes>, seq<Bytes>))
    requires 1 <= |hs| <= Pow(2, d + 1)
    ensures 1 <= |p.0| <= Pow(2, d) && 1 <= |p.1| <= Pow(2, d)
    ensures Hashes(hs) ==> Hashes(p.0) && Hashes(p.1)
  {
    var half := Pow(2, d);
    if |hs| <= half then (hs, hs)
    else
      PowPositive(2, d);
      (hs[..half], hs[half..])
  }

  lemma TreeOfHalves(h: Hash, hs: seq<Bytes>, d: nat)
    requires 1 <= |hs| <= Pow(2, d + 1)
    ensures Tree(h, hs, d + 1) == Parent(h, Tree(h, Halves(hs, d).0, d), Tree(h, Halves(hs, d).1, d))
  {
  }

  /** All 2^d leaves of the tree. */
  function Leaves(hs: seq<Bytes>, d: nat): (ls: seq<Bytes>)
    requires 1 <= |hs| <= Pow(2, d)
    ensures |ls| == Pow(2, d)
    decreases d
  {
    if d == 0 then hs else Leaves(Halves(hs, d - 1).0, d - 1) + Leaves(Halves(hs, d - 1).1, d - 1)
  }

  /** The strings that are hashed to build a tree. */
  function Hashed(h: Hash, hs: seq<Bytes>, d: nat): set<Bytes>
    requires 1 <= |hs| <= Pow(2, d)
    decreases d
  {
    if d == 0 then {}
    else
      var (l, r) := Halves(hs, d - 1);
      {Tree(h, l, d - 1) + Tree(h, r, d - 1)} + Hashed(h, l, d - 1) + Hashed(h, r, d - 1)
  }

  /** Different strings, hashed for the one and for the other list, with the same hash. */
  predicate Collision(h: Hash, xs: seq<Bytes>, ys: seq<Bytes>, d: nat, m: Bytes, n: Bytes)
    requires 1 <= |xs| <= Pow(2, d) && 1 <= |ys| <= Pow(2, d)
  {
    m in Hashed(h, xs, d) && n in Hashed(h, ys, d) && m != n && h(m) == h(n)
  }

  lemma {:induction false} TreeIsHash(h: Hash, hs: seq<Bytes>, d: nat)
    requires (forall x :: |h(x)| == 32) && Hashes(hs) && 1 <= |hs| <= Pow(2, d)
    ensures |Tree(h, hs, d)| == 32
  {
  }

  /** The leaves of two trees are equal if those of their halves are. */
  lemma LeavesSplit(xs: seq<Bytes>, ys: seq<Bytes>, d: nat)
    requires 1 <= |xs| <= Pow(2, d + 1) && 1 <= |ys| <= Pow(2, d + 1)
    ensures var ((l, r), (l', r')) := (Halves(xs, d), Halves(ys, d));
      Leaves(xs, d + 1) == Leaves(ys, d + 1) <==> Leaves(l, d) == Leaves(l', d) && Leaves(r, d) == Leaves(r', d)
  {
    var ((l, r), (l', r')) := (Halves(xs, d), Halves(ys, d));
    SplitFront(Leaves(l, d), Leaves(r, d), Leaves(l', d), Leaves(r', d));
  }

  /** The string whose hash is the root. */
  function Node(h: Hash, hs: seq<Bytes>, d: nat): Bytes
    requires 1 <= |hs| <= Pow(2, d + 1)
  {
    Tree(h, Halves(hs, d).0, d) + Tree(h, Halves(hs, d).1, d)
  }

  lemma NodesSplit(h: Hash, xs: seq<Bytes>, ys: seq<Bytes>, d: nat)
    requires (forall x :: |h(x)| == 32) && Hashes(xs) && Hashes(ys)
    requires 1 <= |xs| <= Pow(2, d + 1) && 1 <= |ys| <= Pow(2, d + 1)
    ensures var ((l, r), (l', r')) := (Halves(xs, d), Halves(ys, d));
      Node(h, xs, d) == Node(h, ys, d) <==> Tree(h, l, d) == Tree(h, l', d) && Tree(h, r, d) == Tree(h, r', d)
  {
    var ((l, r), (l', r')) := (Halves(xs, d), Halves(ys, d));
    TreeIsHash(h, l, d);
    TreeIsHash(h, l', d);
    SplitFront(Tree(h, l, d), Tree(h, r, d), Tree(h, l', d), Tree(h, r', d));
  }

  /** What is hashed for a half is hashed for the whole. */
  lemma CollisionOfHalf(h: Hash, xs: seq<Bytes>, ys: seq<Bytes>, d: nat, m: Bytes, n: Bytes)
    requires 1 <= |xs| <= Pow(2, d + 1) && 1 <= |ys| <= Pow(2, d + 1)
    requires Collision(h, Halves(xs, d).0, Halves(ys, d).0, d, m, n) || Collision(h, Halves(xs, d).1, Halves(ys, d).1, d, m, n)
    ensures Collision(h, xs, ys, d + 1, m, n)
  {
  }

  lemma CollisionAtRoot(h: Hash, xs: seq<Bytes>, ys: seq<Bytes>, d: nat)
    requires 1 <= |xs| <= Pow(2, d + 1) && 1 <= |ys| <= Pow(2, d + 1)
    requires Tree(h, xs, d + 1) == Tree(h, ys, d + 1) && Node(h, xs, d) != Node(h, ys, d)
    ensures Collision(h, xs, ys, d + 1, Node(h, xs, d), Node(h, ys, d))
  {
    TreeOfHalves(h, xs, d);
    TreeOfHalves(h, ys, d);
  }

  /** From two lists whose trees have one root but different leaves, a collision can be read off. */
  lemma {:induction false} TreeCollision(h: Hash, xs: seq<Bytes>, ys: seq<Bytes>, d: nat) returns (m: Bytes, n: Bytes)
    requires (forall x :: |h(x)| == 32) && Hashes(xs) && Hashes(ys)
    requires 1 <= |xs| <= Pow(2, d) && 1 <= |ys| <= Pow(2, d)
    requires Leaves(xs, d) != Leaves(ys, d) && Tree(h, xs, d) == Tree(h, ys, d)
    ensures Collision(h, xs, ys, d, m, n)
    decreases d
  {
    if d == 0 {
      OneLeaf(h, xs, ys);
      assert false;
    } else {
      var c := d - 1;
      m, n := Node(h, xs, c), Node(h, ys, c);
      if m != n {
        CollisionAtRoot(h, xs, ys, c);
      } else {
        NodesSplit(h, xs, ys, c);
        LeavesSplit(xs, ys, c);
        if Leaves(Halves(xs, c).0, c) != Leaves(Halves(ys, c).0, c) {
          m, n := TreeCollision(h, Halves(xs, c).0, Halves(ys, c).0, c);
        } else {
          m, n := TreeCollision(h, Halves(xs, c).1, Halves(ys, c).1, c);
        }
        CollisionOfHalf(h, xs, ys, c, m, n);
      }
    }
  }

  lemma OneLeaf(h: Hash, xs: seq<Bytes>, ys: seq<Bytes>)
    requires |xs| == |ys| == 1 && Tree(h, xs, 0) == Tree(h, ys, 0)
    ensures xs == ys
  {
    assert xs == [xs[0]] && ys == [ys[0]];
  }

  /** The leaves decide the root, whatever the hash. */
  lemma {:induction false} LeavesDecide(h: Hash, xs: seq<Bytes>, ys: seq<Bytes>, d: nat)
    requires 1 <= |xs| <= Pow(2, d) && 1 <= |ys| <= Pow(2, d) && Leaves(xs, d) == Leaves(ys, d)
    ensures Tree(h, xs, d) == Tree(h, ys, d)
    decreases d
  {
    if d > 0 {
      var c := d - 1;
      LeavesSplit(xs, ys, c);
      LeavesDecide(h, Halves(xs, c).0, Halves(ys, c).0, c);
      LeavesDecide(h, Halves(xs, c).1, Halves(ys, c).1, c);
      TreeOfHalves(h, xs, c);
      TreeOfHalves(h, ys, c);
    }
  }

  /** Lists of one length have the same leaves only if they are equal. */
  lemma {:induction false} LeavesOfOneLength(xs: seq<Bytes>, ys: seq<Bytes>, d: nat)
    requires 1 <= |xs| == |ys| <= Pow(2, d)
    ensures Leaves(xs, d) == Leaves(ys, d) <==> xs == ys
    decreases d
  {
    if d > 0 && Leaves(xs, d) == Leaves(ys, d) {
      var c := d - 1;
      LeavesSplit(xs, ys, c);
      LeavesOfOneLength(Halves(xs, c).0, Halves(ys, c).0, c);
      LeavesOfOneLength(Halves(xs, c).1, Halves(ys, c).1, c);
      HalvesDecide(xs, ys, c);
    }
  }

  lemma HalvesDecide(xs: seq<Bytes>, ys: seq<Bytes>, d: nat)
    requires 1 <= |xs| == |ys| <= Pow(2, d + 1) && Halves(xs, d) == Halves(ys, d)
    ensures xs == ys
  {
    var (l, r) := Halves(xs, d);
    if |xs| > Pow(2, d) { assert xs == l + r && ys == l + r; }
  }

  // ----- lists of different heights -----

  /** k levels up. */
  function Up(h: Hash, hs: seq<Bytes>, k: nat): (r: seq<Bytes>)
    ensures hs != [] ==> r != []
    decreases k
  {
    if k == 0 then hs else Up(h, Level(h, hs), k - 1)
  }

  lemma {:induction false} PairsAreHashes(h: Hash, hs: seq<Bytes>)
    requires (forall x :: |h(x)| == 32) && |hs| % 2 == 0
    ensures Hashes(Pairs(h, hs))
  {
    if hs != [] { PairsAreHashes(h, hs[2..]); }
  }

  /** Going up lowers the height and keeps the root. */
  lemma {:induction false} UpKeepsRoot(h: Hash, hs: seq<Bytes>, k: nat, zs: seq<Bytes>)
    requires (forall x :: |h(x)| == 32) && Hashes(hs) && hs != [] && k <= Height(|hs|) && zs == Up(h, hs, k)
    ensures zs != [] && Hashes(zs) && Height(|zs|) == Height(|hs|) - k && Root(h, zs) == Root(h, hs)
    decreases k
  {
    if k > 0 {
      RootOfLevel(h, hs);
      PairsAreHashes(h, Evened(hs));
      UpKeepsRoot(h, Level(h, hs), k - 1, zs);
    }
  }

  /** No two different strings hashed for the two trees have the same hash. */
  ghost predicate Separated(h: Hash, xs: seq<Bytes>, ys: seq<Bytes>, d: nat)
    requires 1 <= |xs| <= Pow(2, d) && 1 <= |ys| <= Pow(2, d)
  {
    forall m, n :: !Collision(h, xs, ys, d, m, n)
  }

  /** If the hash separates the strings hashed for two trees of one height, their roots are equal exactly if their leaves
      are. */
  lemma TreeExactly(h: Hash, xs: seq<Bytes>, ys: seq<Bytes>, d: nat)
    requires (forall x :: |h(x)| == 32) && Hashes(xs) && Hashes(ys)
    requires 1 <= |xs| <= Pow(2, d) && 1 <= |ys| <= Pow(2, d) && Separated(h, xs, ys, d)
    ensures Tree(h, xs, d) == Tree(h, ys, d) <==> Leaves(xs, d) == Leaves(ys, d)
  {
    if Leaves(xs, d) == Leaves(ys, d) {
      LeavesDecide(h, xs, ys, d);
    } else if Tree(h, xs, d) == Tree(h, ys, d) {
      var m, n := TreeCollision(h, xs, ys, d);
    }
  }

  /** The level of the higher list that is as high as the lower list. */
  function Lowered(h: Hash, xs: seq<Bytes>, ys: seq<Bytes>): (zs: seq<Bytes>)
    requires xs != [] && ys != [] && Height(|xs|) <= Height(|ys|)
    ensures zs != []
  {
    Up(h, ys, Height(|ys|) - Height(|xs|))
  }

  lemma LoweredFits(h: Hash, xs: seq<Bytes>, ys: seq<Bytes>, zs: seq<Bytes>, d: nat)
    requires (forall x :: |h(x)| == 32) && Hashes(ys) && xs != [] && ys != [] && Height(|xs|) == d <= Height(|ys|)
    requires zs == Lowered(h, xs, ys)
    ensures Hashes(zs) && |xs| <= Pow(2, d) && 1 <= |zs| <= Pow(2, d)
    ensures Root(h, xs) == Tree(h, xs, d) && Root(h, ys) == Tree(h, zs, d)
  {
    UpKeepsRoot(h, ys, Height(|ys|) - d, zs);
    RootAtHeight(h, xs, d);
    RootAtHeight(h, zs, d);
  }

  lemma RootAtHeight(h: Hash, hs: seq<Bytes>, d: nat)
    requires hs != [] && Height(|hs|) == d
    ensures |hs| <= Pow(2, d) && Root(h, hs) == Tree(h, hs, d)
  {
    HeightFits(|hs|);
  }

  /** When two lists of any lengths have one root: exactly if the lower one has the same leaves as the level of the higher
      one that is as high, unless two different strings that are hashed from there on have the same hash. */
  lemma RootExactly(h: Hash, xs: seq<Bytes>, ys: seq<Bytes>)
    requires (forall x :: |h(x)| == 32) && Hashes(xs) && Hashes(ys) && xs != [] && ys != []
    requires Height(|xs|) <= Height(|ys|)
    ensures var d, zs := Height(|xs|), Lowered(h, xs, ys);
      && |xs| <= Pow(2, d) && |zs| <= Pow(2, d) && (Height(|ys|) == d ==> zs == ys)
      && (Leaves(xs, d) == Leaves(zs, d) ==> Root(h, xs) == Root(h, ys))
      && (Separated(h, xs, zs, d) ==> (Root(h, xs) == Root(h, ys) <==> Leaves(xs, d) == Leaves(zs, d)))
  {
    var d, zs := Height(|xs|), Lowered(h, xs, ys);
    LoweredFits(h, xs, ys, zs, d);
    if Leaves(xs, d) == Leaves(zs, d) { LeavesDecide(h, xs, zs, d); }
    if Separated(h, xs, zs, d) { TreeExactly(h, xs, zs, d); }
  }

  // ----- lists of one length -----

  /** The root binds every list of a known length: from two different lists with one root, two different strings that
      were hashed on the way and have the same hash can be read off. */
  lemma RootCollision(h: Hash, xs: seq<Bytes>, ys: seq<Bytes>) returns (m: Bytes, n: Bytes)
    requires (forall x :: |h(x)| == 32) && Hashes(xs) && Hashes(ys) && |xs| == |ys| != 0
    requires xs != ys && Root(h, xs) == Root(h, ys)
    ensures |xs| <= Pow(2, Height(|xs|)) && Collision(h, xs, ys, Height(|xs|), m, n)
  {
    HeightFits(|xs|);
    LeavesOfOneLength(xs, ys, Height(|xs|));
    m, n := TreeCollision(h, xs, ys, Height(|xs|));
  }

  ghost predicate NoCollision(h: Hash, xs: seq<Bytes>, ys: seq<Bytes>)
    requires xs != [] && |xs| == |ys|
  {
    HeightFits(|xs|);
    Separated(h, xs, ys, Height(|xs|))
  }

  /** So a hash that is injective on the strings hashed for two lists of one length tells their roots apart. */
  lemma RootInjective(h: Hash, xs: seq<Bytes>, ys: seq<Bytes>)
    requires (forall x :: |h(x)| == 32) && Hashes(xs) && Hashes(ys) && |xs| == |ys| != 0 && NoCollision(h, xs, ys)
    ensures Root(h, xs) == Root(h, ys) <==> xs == ys
  {
    if Root(h, xs) == Root(h, ys) && xs != ys {
      var m, n := RootCollision(h, xs, ys);
    }
  }

  // ----- lists of different lengths with one root, whatever the hash -----

  /** Repeating the last hash of a list of odd length. */
  lemma RepeatedLastCollides(h: Hash, hs: seq<Bytes>)
    requires |hs| % 2 == 1 && |hs| > 1
    ensures Root(h, hs + [hs[|hs| - 1]]) == Root(h, hs)
  {
    var more := hs + [hs[|hs| - 1]];
    RootOfLevel(h, hs);
    RootOfLevel(h, more);
    assert Evened(more) == more == Evened(hs);
  }

  /** Repeating a whole right part: in a list longer than 2^d, the hashes after the first 2^d, if they fill exactly one
      subtree of half that size. */
  lemma RepeatedPartCollides(h: Hash, l: seq<Bytes>, r: seq<Bytes>, d: nat)
    requires |l| == Pow(2, d + 1) && |r| == Pow(2, d)
    ensures l != [] && Root(h, l + r + r) == Root(h, l + r)
  {
    PowPositive(2, d);
    var short, long := l + r, l + (r + r);
    assert l + r + r == long;
    HeightOfMore(d + 1, |short|);
    HeightOfMore(d + 1, |long|);
    RootAtHeight(h, short, d + 2);
    RootAtHeight(h, long, d + 2);
    TreeShort(h, r, d);
    TreeLong(h, r + r, r, r, d);
    TreeLong(h, short, l, r, d + 1);
    TreeLong(h, long, l, r + r, d + 1);
  }

  lemma {:induction false} HeightOfMore(d: nat, n: nat)
    requires Pow(2, d) < n <= Pow(2, d + 1)
    ensures n >= 1 && Height(n) == d + 1
    decreases d
  {
    PowPositive(2, d);
    if d == 0 {
      assert Pow(2, 1) == 2 * Pow(2, 0) == 2;
      assert Height(1) == 0;
    } else {
      HeightOfMore(d - 1, (n + 1) / 2);
    }
  }

  /** A list of two and the list of their parent alone. */
  lemma ParentAloneCollides(h: Hash, a: Bytes, b: Bytes)
    ensures Root(h, [h(a + b)]) == Root(h, [a, b])
  {
    var pair := [a, b];
    RootOfLevel(h, pair);
    assert Evened(pair) == pair && pair[2..] == [] && Pairs(h, []) == [];
    assert Level(h, pair) == [h(a + b)];
  }
}
