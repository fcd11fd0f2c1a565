/** The 16-ary Merkle tree over byte strings: its root, and why the root binds
    the leaves (libprotocol/ParallelMerkleProof.cpp, interfaces/protocol/Block.h). */
module Merkle {
  import opened Bytes

  const MAX_CHILD_COUNT: nat := 16

  /** Any function to 32 bytes stands for the crypto suite's hash. */
  ghost predicate IsHash(h: Bytes -> Bytes) {
    forall x: Bytes :: |h(x)| == 32
  }

  function Concat(nodes: seq<Bytes>): Bytes {
    if nodes == [] then [] else nodes[0] + Concat(nodes[1..])
  }

  lemma {:induction false} ConcatAppend(nodes: seq<Bytes>, n: Bytes)
    ensures Concat(nodes + [n]) == Concat(nodes) + n
  {
    if nodes == [] {
      assert Concat([n]) == n + Concat([]);
    } else {
      assert (nodes + [n])[1..] == nodes[1..] + [n];
      ConcatAppend(nodes[1..], n);
    }
  }

  // ---- Levels ----

  /** How many parents `n` nodes have: n / 16 rounded up. */
  function ParentCount(n: nat): (p: nat)
    ensures n > 1 ==> 1 <= p < n
    ensures n > 0 ==> 16 * (p - 1) < n <= 16 * p
  {
    (n + MAX_CHILD_COUNT - 1) / MAX_CHILD_COUNT
  }

  /** The children of parent `i`: a run of 16 nodes, or fewer at the end. */
  function Group(level: seq<Bytes>, i: nat): (g: seq<Bytes>)
    requires i < ParentCount(|level|)
    ensures 1 <= |g| <= 16
  {
    level[16 * i..if 16 * i + 16 <= |level| then 16 * i + 16 else |level|]
  }

  function NextLevel(h: Bytes -> Bytes, level: seq<Bytes>): (next: seq<Bytes>)
    ensures |next| == ParentCount(|level|)
  {
    seq(ParentCount(|level|), i requires 0 <= i < ParentCount(|level|) => h(Concat(Group(level, i))))
  }

  /** The root over a non-empty level. */
  function RootFrom(h: Bytes -> Bytes, level: seq<Bytes>): Bytes
    requires level != []
    decreases |level|
  {
    if |level| == 1 then h(level[0]) else RootFrom(h, NextLevel(h, level))
  }

  function Root(h: Bytes -> Bytes, leaves: seq<Bytes>): Bytes {
    if leaves == [] then h([]) else RootFrom(h, leaves)
  }

  function Depth(n: nat): nat {
    if n <= 1 then 0 else 1 + Depth(ParentCount(n))
  }

  // ---- Which bytes are hashed ----

  /** Nodes stand one after another. */
  lemma {:induction false} ConcatAt(nodes: seq<Bytes>, width: nat, i: nat, y: nat)
    requires Uniform(nodes, width) && i < |nodes| && y < width
    ensures width * i + y < |Concat(nodes)| && Concat(nodes)[width * i + y] == nodes[i][y]
  {
    if i > 0 {
      ConcatAt(nodes[1..], width, i - 1, y);
      assert width * i == width + width * (i - 1);
    }
  }

  /** Parent `i` is the hash of sixteen nodes from `16 * i` on, or of as many as
      there are. */
  lemma LevelShape(h: Bytes -> Bytes, level: seq<Bytes>, i: nat)
    requires 16 * i < |level|
    ensures i < |NextLevel(h, level)| && 16 * (|NextLevel(h, level)| - 1) < |level| <= 16 * |NextLevel(h, level)|
    ensures var end := if |level| < 16 * i + 16 then |level| else 16 * i + 16;
            NextLevel(h, level)[i] == h(Concat(level[16 * i..end]))
  {
    hide Concat;
    var end := if |level| < 16 * i + 16 then |level| else 16 * i + 16;
    assert Group(level, i) == level[16 * i..end];
  }

  /** The root of no leaf, of one, and of a tree of one level. */
  lemma SmallRoots(h: Bytes -> Bytes, leaves: seq<Bytes>)
    ensures leaves == [] ==> Root(h, leaves) == h([])
    ensures |leaves| == 1 ==> Root(h, leaves) == h(leaves[0])
    ensures 1 < |leaves| <= 16 ==> Root(h, leaves) == h(h(Concat(leaves)))
    ensures |leaves| > 16 ==> Root(h, leaves) == Root(h, NextLevel(h, leaves))
  {
    hide Concat, NextLevel;
    if 1 < |leaves| {
      var next := NextLevel(h, leaves);
      assert Root(h, leaves) == RootFrom(h, next) == Root(h, next);
      if |leaves| <= 16 {
        LevelShape(h, leaves, 0);
        assert leaves[0..|leaves|] == leaves;
        assert RootFrom(h, next) == h(next[0]);
      }
    }
  }

  // ---- Binding ----

  predicate Uniform(nodes: seq<Bytes>, width: nat) {
    forall i :: 0 <= i < |nodes| ==> |nodes[i]| == width
  }

  lemma ConcatEmptyIff(nodes: seq<Bytes>, width: nat)
    requires width > 0 && Uniform(nodes, width)
    ensures Concat(nodes) == [] <==> nodes == []
  {
    assert nodes != [] ==> |Concat(nodes)| >= |nodes[0]|;
  }

  /** Strings made of nodes of one width determine the nodes. */
  lemma {:induction false} ConcatInjective(a: seq<Bytes>, b: seq<Bytes>, width: nat)
    requires width > 0 && Uniform(a, width) && Uniform(b, width)
    requires Concat(a) == Concat(b)
    ensures a == b
  {
    ConcatEmptyIff(a, width);
    ConcatEmptyIff(b, width);
    if a != [] {
      assert Concat(a)[..width] == a[0] && Concat(b)[..width] == b[0];
      assert Concat(a)[width..] == Concat(a[1..]) && Concat(b)[width..] == Concat(b[1..]);
      ConcatInjective(a[1..], b[1..], width);
      assert a == [a[0]] + a[1..] && b == [b[0]] + b[1..];
    }
  }

  lemma GroupsDetermineLevel(a: seq<Bytes>, b: seq<Bytes>)
    requires a != [] && b != [] && ParentCount(|a|) == ParentCount(|b|)
    requires forall i :: 0 <= i < ParentCount(|a|) ==> Group(a, i) == Group(b, i)
    ensures a == b
  {
    var last := ParentCount(|a|) - 1;
    assert |Group(a, last)| == |a| - 16 * last && |Group(b, last)| == |b| - 16 * last;
    forall k | 0 <= k < |a|
      ensures a[k] == b[k]
    {
      var i := k / 16;
      assert a[k] == Group(a, i)[k - 16 * i] && b[k] == Group(b, i)[k - 16 * i];
    }
  }

  /** Every string hashed on the way from a level to the root. */
  ghost function Hashed(h: Bytes -> Bytes, level: seq<Bytes>): set<Bytes>
    requires level != []
    decreases |level|
  {
    if |level| == 1 then {level[0]}
    else
      (set i | 0 <= i < ParentCount(|level|) :: Concat(Group(level, i))) + Hashed(h, NextLevel(h, level))
  }

  /** Two different strings, one hashed for each tree, with the same hash. */
  ghost predicate Collision(h: Bytes -> Bytes, xs: set<Bytes>, ys: set<Bytes>) {
    exists x, y :: x in xs && y in ys && x != y && h(x) == h(y)
  }

  lemma NextLevelUniform(h: Bytes -> Bytes, level: seq<Bytes>)
    requires IsHash(h)
    ensures Uniform(NextLevel(h, level), 32)
  {
    var next := NextLevel(h, level);
    assert forall i :: 0 <= i < |next| ==> next[i] == h(Concat(Group(level, i)));
  }

  /** Equal roots over trees of equal depth mean equal levels, or a collision
      among the strings that were hashed. */
  lemma {:induction false} LevelBinding(h: Bytes -> Bytes, a: seq<Bytes>, b: seq<Bytes>, width: nat)
    requires IsHash(h) && a != [] && b != [] && Depth(|a|) == Depth(|b|)
    requires width > 0 && Uniform(a, width) && Uniform(b, width)
    requires RootFrom(h, a) == RootFrom(h, b)
    ensures a == b || Collision(h, Hashed(h, a), Hashed(h, b))
    decreases |a|
  {
    if |a| == 1 {
      if a[0] == b[0] {
        assert a == [a[0]] && b == [b[0]];
      }
    } else {
      var p, q := NextLevel(h, a), NextLevel(h, b);
      NextLevelUniform(h, a);
      NextLevelUniform(h, b);
      LevelBinding(h, p, q, 32);
      if p == q && a != b {
        if forall i :: 0 <= i < |p| ==> Concat(Group(a, i)) == Concat(Group(b, i)) {
          forall i | 0 <= i < |p|
            ensures Group(a, i) == Group(b, i)
          {
            ConcatInjective(Group(a, i), Group(b, i), width);
          }
          GroupsDetermineLevel(a, b);
        } else {
          var i :| 0 <= i < |p| && Concat(Group(a, i)) != Concat(Group(b, i));
          assert p[i] == q[i];
          assert Concat(Group(a, i)) in Hashed(h, a) && Concat(Group(b, i)) in Hashed(h, b);
        }
      }
    }
  }

  // ---- Trees of different depth ----

  /** How many nodes the level just below the single top node has. */
  function TopCount(n: nat): nat {
    if n <= 16 then n else TopCount(ParentCount(n))
  }

  /** The level of `level` from which the root is `depth` steps away. */
  function LevelAt(h: Bytes -> Bytes, level: seq<Bytes>, depth: nat): (up: seq<Bytes>)
    requires level != [] && depth <= Depth(|level|)
    ensures up != [] && Depth(|up|) == depth && RootFrom(h, up) == RootFrom(h, level)
    ensures depth == 1 ==> |up| == TopCount(|level|)
    decreases |level|
  {
    if depth == Depth(|level|) then level else LevelAt(h, NextLevel(h, level), depth)
  }

  lemma {:induction false} LevelAtHashed(h: Bytes -> Bytes, level: seq<Bytes>, depth: nat)
    requires IsHash(h) && level != [] && depth <= Depth(|level|)
    ensures Hashed(h, LevelAt(h, level, depth)) <= Hashed(h, level)
    ensures depth < Depth(|level|) ==> Uniform(LevelAt(h, level, depth), 32)
    decreases |level|
  {
    if depth < Depth(|level|) {
      var next := NextLevel(h, level);
      NextLevelUniform(h, level);
      LevelAtHashed(h, next, depth);
      if depth == Depth(|next|) {
        assert LevelAt(h, next, depth) == next;
      }
    }
  }

  /** A shallow tree's leaves (40 bytes) and a deep tree's inner nodes (32
      bytes) can only fill the same string when 40n = 32m. */
  predicate Ambiguous(n: nat, m: nat) {
    m > 16 && (n == 4 || n == 8 || n == 12) && 4 * TopCount(m) == 5 * n
  }

  lemma {:induction false} ConcatLength(nodes: seq<Bytes>, width: nat)
    requires Uniform(nodes, width)
    ensures |Concat(nodes)| == |nodes| * width
  {
    if nodes != [] {
      ConcatLength(nodes[1..], width);
      assert |nodes| * width == width + |nodes[1..]| * width;
    }
  }

  lemma MixedBinding(h: Bytes -> Bytes, a: seq<Bytes>, b: seq<Bytes>)
    requires IsHash(h) && a != [] && b != [] && Uniform(a, 40)
    requires Depth(|a|) < Depth(|b|) && !Ambiguous(|a|, |b|)
    requires RootFrom(h, a) == RootFrom(h, b)
    ensures Collision(h, Hashed(h, a), Hashed(h, b))
  {
    var c := LevelAt(h, b, Depth(|a|));
    LevelAtHashed(h, b, Depth(|a|));
    if |a| == 1 {
      assert a[0] in Hashed(h, a) && c[0] in Hashed(h, b);
      assert a[0] != c[0] && h(a[0]) == h(c[0]);
    } else {
      var p, q := NextLevel(h, a), NextLevel(h, c);
      NextLevelUniform(h, a);
      NextLevelUniform(h, c);
      LevelBinding(h, p, q, 32);
      if p == q {
        var x, y := Concat(Group(a, 0)), Concat(Group(c, 0));
        ConcatLength(Group(a, 0), 40);
        ConcatLength(Group(c, 0), 32);
        assert p[0] == h(x) && q[0] == h(y);
        assert x in Hashed(h, a) && y in Hashed(h, c);
        if x == y {
          SameLengthAmbiguous(|a|, |c|, |Group(a, 0)|, |Group(c, 0)|);
        }
      }
    }
  }

  lemma SameLengthAmbiguous(n: nat, m: nat, i: nat, j: nat)
    requires n > 1 && m > 1 && ParentCount(n) == ParentCount(m)
    requires i == (if n < 16 then n else 16) && j == (if m < 16 then m else 16) && i * 40 == j * 32
    ensures (n == 4 || n == 8 || n == 12) && 4 * m == 5 * n && Depth(n) == 1
  {
  }

  // ---- The roots of a block ----

  /** encodeToCalculateRoot: the index as eight SCALE bytes, then the hash. */
  function Leaves(hashes: seq<Bytes>): (leaves: seq<Bytes>)
    ensures |leaves| == |hashes|
  {
    seq(|hashes|, i requires 0 <= i < |hashes| => LeBytes(i, 8) + hashes[i])
  }

  function ZeroHash(): Bytes {
    seq(32, _ => 0)
  }

  /** A leaf is the index in eight bytes, least significant first, and the hash. */
  lemma LeafLayout(hashes: seq<Bytes>, i: nat)
    requires i < |hashes|
    ensures |Leaves(hashes)[i]| == 8 + |hashes[i]| && Leaves(hashes)[i][8..] == hashes[i]
    ensures forall j :: 0 <= j < 8 ==> Leaves(hashes)[i][j] == i / Pow256(j) % 256
  {
    hide LeBytes, Pow256;
    forall j | 0 <= j < 8
      ensures Leaves(hashes)[i][j] == i / Pow256(j) % 256
    {
      LeDigit(i, 8, j);
    }
  }

  /** The hashes a block's root is taken over: those of its transactions, or of
      the metadata when there are none. */
  function Rooted(txs: seq<Bytes>, metas: seq<Bytes>): seq<Bytes> {
    if txs != [] then txs else metas
  }

  /** calculateTransactionRoot. calculateReceiptRoot is the case without
      metadata. */
  function TransactionRoot(h: Bytes -> Bytes, txs: seq<Bytes>, metas: seq<Bytes>): Bytes {
    if Rooted(txs, metas) == [] then ZeroHash() else Root(h, Leaves(Rooted(txs, metas)))
  }

  /** Transactions come before metadata, and a block with neither has the zero
      root. */
  lemma RootedMeaning(h: Bytes -> Bytes, txs: seq<Bytes>, metas: seq<Bytes>)
    ensures txs != [] ==> TransactionRoot(h, txs, metas) == Root(h, Leaves(txs))
    ensures txs == [] && metas != [] ==> TransactionRoot(h, txs, metas) == Root(h, Leaves(metas))
    ensures |TransactionRoot(h, [], [])| == 32
    ensures forall i :: 0 <= i < 32 ==> TransactionRoot(h, [], [])[i] == 0
  {
  }

  /** Every string hashed for a list of hashes; nothing is for the empty one. */
  ghost function HashedFor(h: Bytes -> Bytes, hashes: seq<Bytes>): set<Bytes> {
    if hashes == [] then {} else Hashed(h, Leaves(hashes))
  }

  lemma {:induction false} RootIsHashed(h: Bytes -> Bytes, level: seq<Bytes>) returns (top: Bytes)
    requires level != []
    ensures top in Hashed(h, level) && RootFrom(h, level) == h(top)
    decreases |level|
  {
    if |level| == 1 {
      top := level[0];
    } else {
      top := RootIsHashed(h, NextLevel(h, level));
    }
  }

  /** Two blocks with the same root have the same hashes, unless the hash
      function collides on strings hashed for them, or one block is empty and a
      string hashed for the other has the zero hash. */
  lemma RootBinding(h: Bytes -> Bytes, txs: seq<Bytes>, metas: seq<Bytes>, otherTxs: seq<Bytes>, otherMetas: seq<Bytes>)
    requires var xs, ys := Rooted(txs, metas), Rooted(otherTxs, otherMetas);
             IsHash(h) && Uniform(xs, 32) && Uniform(ys, 32) && !Ambiguous(|xs|, |ys|) && !Ambiguous(|ys|, |xs|)
    requires TransactionRoot(h, txs, metas) == TransactionRoot(h, otherTxs, otherMetas)
    ensures var xs, ys := Rooted(txs, metas), Rooted(otherTxs, otherMetas);
            || xs == ys || Collision(h, HashedFor(h, xs), HashedFor(h, ys))
            || ((xs == [] || ys == []) && exists x :: x in HashedFor(h, xs) + HashedFor(h, ys) && h(x) == ZeroHash())
  {
    var xs, ys := Rooted(txs, metas), Rooted(otherTxs, otherMetas);
    if xs != [] && ys != [] {
      ListBinding(h, xs, ys);
    } else if xs != [] {
      var x := RootIsHashed(h, Leaves(xs));
      assert x in HashedFor(h, xs) + HashedFor(h, ys);
    } else if ys != [] {
      var y := RootIsHashed(h, Leaves(ys));
      assert y in HashedFor(h, xs) + HashedFor(h, ys);
    }
  }

  lemma ListBinding(h: Bytes -> Bytes, xs: seq<Bytes>, ys: seq<Bytes>)
    requires IsHash(h) && Uniform(xs, 32) && Uniform(ys, 32) && xs != [] && ys != []
    requires !Ambiguous(|xs|, |ys|) && !Ambiguous(|ys|, |xs|)
    requires Root(h, Leaves(xs)) == Root(h, Leaves(ys))
    ensures xs == ys || Collision(h, Hashed(h, Leaves(xs)), Hashed(h, Leaves(ys)))
  {
    var a, b := Leaves(xs), Leaves(ys);
    if Depth(|a|) < Depth(|b|) {
      MixedBinding(h, a, b);
    } else if Depth(|b|) < Depth(|a|) {
      MixedBinding(h, b, a);
      CollisionSymmetric(h, Hashed(h, b), Hashed(h, a));
    } else {
      LevelBinding(h, a, b, 40);
      if a == b {
        LeavesInjective(xs, ys);
      }
    }
  }

  lemma CollisionSymmetric(h: Bytes -> Bytes, xs: set<Bytes>, ys: set<Bytes>)
    requires Collision(h, xs, ys)
    ensures Collision(h, ys, xs)
  {
    var x, y :| x in xs && y in ys && x != y && h(x) == h(y);
    assert y in ys && x in xs && y != x && h(y) == h(x);
  }

  lemma LeavesInjective(xs: seq<Bytes>, ys: seq<Bytes>)
    requires Leaves(xs) == Leaves(ys)
    ensures xs == ys
  {
    var a, b := Leaves(xs), Leaves(ys);
    assert |xs| == |ys|;
    forall i | 0 <= i < |xs|
      ensures xs[i] == ys[i]
    {
      assert a[i][8..] == xs[i] && b[i][8..] == ys[i];
    }
  }
}
