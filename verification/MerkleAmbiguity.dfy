/** For the lengths that `Merkle.Ambiguous` names, and for the empty list, the
    root does not bind: a hash function is built under which two lists of these
    lengths have one root, while no two of all the strings hashed for them
    collide. */
module MerkleAmbiguity {
  import opened Bytes
  import opened Merkle

  function Fill(n: nat, b: Byte): (s: Bytes)
    ensures |s| == n
  {
    seq(n, _ => b)
  }

  // ---- The short list ----

  /** Hash `i` of the short list: a byte of its own, thirty-two times. */
  function Plain(n: nat): (hashes: seq<Bytes>)
    requires n <= 12
    ensures |hashes| == n && Uniform(hashes, 32)
  {
    seq(n, i requires 0 <= i < n => Fill(32, 16 + i))
  }

  /** What is hashed first for it: its leaves, one after another. */
  function Short(n: nat): (s: Bytes)
    requires n <= 12
    ensures |s| == 40 * n
  {
    ConcatLength(Leaves(Plain(n)), 40);
    Concat(Leaves(Plain(n)))
  }

  ghost predicate Small(s: Bytes) {
    forall i :: 0 <= i < |s| ==> s[i] < 32
  }

  /** A string made of pieces of 32 small bytes, not zero, that begin
      differently. */
  ghost predicate Distinct(p: Bytes) {
    && Small(p) && |p| % 32 == 0
    && (forall i :: 0 <= i < |p| / 32 ==> p[32 * i + 16] != 0)
    && forall i, j :: 0 <= i < j < |p| / 32 ==> p[32 * i] != p[32 * j]
  }

  lemma SmallIndex(v: nat)
    requires v < 32
    ensures LeBytes(v, 8) == [v, 0, 0, 0, 0, 0, 0, 0]
  {
    assert LeBytes(v / 256, 7) == [0, 0, 0, 0, 0, 0, 0];
  }

  lemma LeafByte(n: nat, i: nat, y: nat)
    requires i < n <= 12 && y < 40
    ensures Leaves(Plain(n))[i][y] == if y == 0 then i else if y < 8 then 0 else 16 + i
  {
    hide LeBytes;
    SmallIndex(i);
    assert Leaves(Plain(n))[i] == LeBytes(i, 8) + Fill(32, 16 + i);
  }

  lemma ShortByte(n: nat, x: nat)
    requires n <= 12 && x < 40 * n
    ensures Short(n)[x] == if x % 40 == 0 then x / 40 else if x % 40 < 8 then 0 else 16 + x / 40
  {
    hide LeBytes;
    ConcatAt(Leaves(Plain(n)), 40, x / 40, x % 40);
    LeafByte(n, x / 40, x % 40);
  }

  /** Piece `k` begins with an index below sixteen, or inside a hash. */
  function Begin(k: nat): nat {
    if k % 5 == 0 then 4 * (k / 5) else 15 + 4 * (k / 5) + k % 5
  }

  lemma PieceBytes(n: nat, k: nat)
    requires n <= 12 && 32 * k + 32 <= 40 * n
    ensures Short(n)[32 * k] == Begin(k) && Short(n)[32 * k + 16] != 0
  {
    hide Short;
    ShortByte(n, 32 * k);
    ShortByte(n, 32 * k + 16);
  }

  lemma BeginDiffers(i: nat, j: nat)
    requires i < j < 15
    ensures Begin(i) != Begin(j)
  {
  }

  lemma ShortIsDistinct(n: nat)
    requires n == 4 || n == 8 || n == 12
    ensures Distinct(Short(n))
  {
    hide Short, Begin;
    var p := Short(n);
    forall x | 0 <= x < |p|
      ensures p[x] < 32
    {
      ShortByte(n, x);
    }
    forall k | 0 <= k < |p| / 32
      ensures p[32 * k + 16] != 0
    {
      PieceBytes(n, k);
    }
    forall i, j | 0 <= i < j < |p| / 32
      ensures p[32 * i] != p[32 * j]
    {
      PieceBytes(n, i);
      PieceBytes(n, j);
      BeginDiffers(i, j);
    }
  }

  // ---- The long list ----

  function Piece(p: Bytes, i: nat): (r: Bytes)
    requires 32 * i + 32 <= |p|
    ensures |r| == 32
  {
    p[32 * i..32 * i + 32]
  }

  /** Position and size of the level, in a form no piece has. */
  function Tag(n: nat, j: nat): (s: Bytes)
    ensures |s| == 16
  {
    LeBytes(j, 8) + LeBytes(n, 8)
  }

  /** Node `j` of a level of `n` inner nodes: a label of its own, except that
      the level below the top consists of the pieces of `p`, if it can. */
  function Node(p: Bytes, n: nat, j: nat): (s: Bytes)
    requires j < n
    ensures |s| == 32
  {
    if n <= 16 && |p| == 32 * n then Piece(p, j) else Tag(n, j) + Fill(16, 255)
  }

  function Level(p: Bytes, n: nat): (level: seq<Bytes>)
    ensures |level| == n
  {
    seq(n, j requires 0 <= j < n => Node(p, n, j))
  }

  function Mark(n: nat): (s: Bytes)
    ensures |s| == 32
  {
    LeBytes(n, 8) + Fill(24, 255)
  }

  function Marked(n: nat): (hashes: seq<Bytes>)
    ensures |hashes| == n && Uniform(hashes, 32)
  {
    seq(n, _ => Mark(n))
  }

  // ---- The hash function ----

  function First(): (s: Bytes)
    ensures |s| == 32
  {
    Fill(32, 200)
  }

  function Second(): (s: Bytes)
    ensures |s| == 32
  {
    Fill(32, 201)
  }

  /** The string `p` and its hash get hashes of their own. Any other string is
      taken for a group of nodes and hashed to the parent its first node names;
      a single node to zero. */
  function Tricky(p: Bytes, s: Bytes): (r: Bytes)
    ensures |r| == 32
  {
    if s == p then First()
    else if s == First() then Second()
    else if |s| < 32 then ZeroHash()
    else
      var j, n := LeValue(s[..8]), LeValue(s[8..16]);
      if n <= 1 || j >= n then ZeroHash() else Node(p, ParentCount(n), j / 16)
  }

  ghost predicate IsTricky(h: Bytes -> Bytes, p: Bytes) {
    forall s: Bytes :: h(s) == Tricky(p, s)
  }

  lemma TagValues(n: nat, j: nat)
    requires j < TWO64 && n < TWO64
    ensures LeValue(Tag(n, j)[..8]) == j && LeValue(Tag(n, j)[8..16]) == n
  {
    hide Pow256, LeBytes, LeValue;
    Pow256Wide();
    LeValueOfBytes(j, 8);
    LeValueOfBytes(n, 8);
    assert Tag(n, j)[..8] == LeBytes(j, 8) && Tag(n, j)[8..16] == LeBytes(n, 8);
  }

  /** Nodes are told apart. */
  lemma NodeInjective(p: Bytes, n: nat, j: nat, m: nat, k: nat)
    requires Distinct(p) && j < n < TWO64 && k < m < TWO64 && Node(p, n, j) == Node(p, m, k)
    ensures n == m && j == k
  {
    hide LeBytes, LeValue;
    NodeBegin(p, n, j);
    NodeBegin(p, m, k);
    if Node(p, n, j)[16] == 255 {
      TagValues(n, j);
      TagValues(m, k);
      assert Node(p, n, j)[..16] == Tag(n, j) && Node(p, m, k)[..16] == Tag(m, k);
    }
  }

  lemma NodeBegin(p: Bytes, n: nat, j: nat)
    requires Distinct(p) && j < n
    ensures var s := Node(p, n, j);
            if n <= 16 && |p| == 32 * n then s[0] == p[32 * j] < 32 && 0 < s[16] < 32
            else s[16] == 255
  {
    hide LeBytes;
    if n <= 16 && |p| == 32 * n {
      assert Piece(p, j)[0] == p[32 * j] && Piece(p, j)[16] == p[32 * j + 16];
    }
  }

  // ---- What it does to a level ----

  /** A level whose groups are hashed to their parents, in order. */
  ghost predicate Parented(h: Bytes -> Bytes, p: Bytes, level: seq<Bytes>) {
    forall i :: 0 <= i < ParentCount(|level|) ==>
      h(Concat(Group(level, i))) == Node(p, ParentCount(|level|), i)
  }

  /** Every node of the level begins with its position and the level's size. */
  ghost predicate Tagged(level: seq<Bytes>) {
    forall j :: 0 <= j < |level| ==> |level[j]| >= 32 && level[j][..16] == Tag(|level|, j) && level[j][16] == 255
  }

  lemma TaggedHash(h: Bytes -> Bytes, p: Bytes, n: nat, j: nat, s: Bytes)
    requires IsTricky(h, p) && Small(p) && 1 <= n < TWO64 && j < n
    requires |s| >= 32 && s[..16] == Tag(n, j) && s[16] == 255
    ensures h(s) == if n == 1 then ZeroHash() else Node(p, ParentCount(n), j / 16)
  {
    hide LeBytes, LeValue, Node;
    assert First()[16] == 200;
    TagValues(n, j);
    assert s[..8] == Tag(n, j)[..8] && s[8..16] == Tag(n, j)[8..16];
  }

  lemma TaggedParented(h: Bytes -> Bytes, p: Bytes, level: seq<Bytes>)
    requires IsTricky(h, p) && Small(p) && 1 < |level| < TWO64 && Tagged(level)
    ensures Parented(h, p, level) && NextLevel(h, level) == Level(p, ParentCount(|level|))
  {
    hide Tag, Node, Tricky;
    var n := |level|;
    forall i | 0 <= i < ParentCount(n)
      ensures h(Concat(Group(level, i))) == Node(p, ParentCount(n), i)
    {
      var g := Group(level, i);
      assert g[0] == level[16 * i];
      var s := Concat(g);
      assert s == g[0] + Concat(g[1..]);
      assert s[..16] == g[0][..16] && s[16] == g[0][16];
      TaggedHash(h, p, n, 16 * i, s);
    }
  }

  // ---- No collisions ----

  ghost predicate Injective(h: Bytes -> Bytes, all: set<Bytes>) {
    forall x, y :: x in all && y in all && h(x) == h(y) ==> x == y
  }

  /** A hash that belongs above a level of `n` nodes. */
  ghost predicate Above(p: Bytes, n: nat, v: Bytes) {
    || v == First() || v == Second() || v == ZeroHash()
    || exists m: nat, j: nat :: j < m < n && v == Node(p, m, j)
  }

  ghost predicate AllAbove(h: Bytes -> Bytes, p: Bytes, n: nat, all: set<Bytes>) {
    forall s :: s in all ==> Above(p, n, h(s))
  }

  lemma NodeNotAbove(p: Bytes, n: nat, i: nat, v: Bytes)
    requires Distinct(p) && i < n < TWO64 && Above(p, n, v)
    ensures Node(p, n, i) != v
  {
    hide Node;
    NodeBegin(p, n, i);
    assert First()[16] == 200 && Second()[16] == 201 && ZeroHash()[16] == 0;
    if Node(p, n, i) == v && v != First() && v != Second() && v != ZeroHash() {
      var m: nat, j: nat :| j < m < n && v == Node(p, m, j);
      NodeInjective(p, n, i, m, j);
    }
  }

  ghost function Groups(level: seq<Bytes>): set<Bytes> {
    set i | 0 <= i < ParentCount(|level|) :: Concat(Group(level, i))
  }

  /** One level more. */
  lemma LevelInjective(h: Bytes -> Bytes, p: Bytes, level: seq<Bytes>)
    requires Distinct(p) && 1 < |level| < TWO64 && Parented(h, p, level)
    requires var next := NextLevel(h, level);
             Injective(h, Hashed(h, next)) && AllAbove(h, p, |next|, Hashed(h, next))
    ensures Injective(h, Hashed(h, level)) && AllAbove(h, p, |level|, Hashed(h, level))
  {
    hide Node, Hashed, Above, Group, Concat;
    var n, next := |level|, NextLevel(h, level);
    var up := Hashed(h, next);
    assert Hashed(h, level) == Groups(level) + up by { HashedLevel(h, level); }
    forall x, y | x in Hashed(h, level) && y in Hashed(h, level) && h(x) == h(y)
      ensures x == y
    {
      if x in Groups(level) {
        var i :| 0 <= i < ParentCount(n) && x == Concat(Group(level, i));
        GroupApart(h, p, level, i, y, up);
      } else if y in Groups(level) {
        var i :| 0 <= i < ParentCount(n) && y == Concat(Group(level, i));
        GroupApart(h, p, level, i, x, up);
      }
    }
    forall s | s in Hashed(h, level)
      ensures Above(p, n, h(s))
    {
      if s in Groups(level) {
        var i :| 0 <= i < ParentCount(n) && s == Concat(Group(level, i));
        NodeAbove(p, n, ParentCount(n), i);
      } else {
        AboveGrows(p, |next|, n, h(s));
      }
    }
  }

  lemma HashedLevel(h: Bytes -> Bytes, level: seq<Bytes>)
    requires |level| > 1
    ensures Hashed(h, level) == Groups(level) + Hashed(h, NextLevel(h, level))
  {
  }

  lemma NodeAbove(p: Bytes, n: nat, m: nat, i: nat)
    requires i < m < n
    ensures Above(p, n, Node(p, m, i))
  {
  }

  lemma AboveGrows(p: Bytes, m: nat, n: nat, v: Bytes)
    requires m <= n && Above(p, m, v)
    ensures Above(p, n, v)
  {
    hide Node;
  }

  lemma GroupApart(h: Bytes -> Bytes, p: Bytes, level: seq<Bytes>, i: nat, y: Bytes, up: set<Bytes>)
    requires Distinct(p) && 1 < |level| < TWO64 && Parented(h, p, level) && i < ParentCount(|level|)
    requires AllAbove(h, p, ParentCount(|level|), up) && y in Groups(level) + up
    requires h(y) == h(Concat(Group(level, i)))
    ensures y == Concat(Group(level, i))
  {
    hide Node, Above, Group, Concat, Hashed;
    var n := ParentCount(|level|);
    if y in up {
      NodeNotAbove(p, n, i, h(y));
    } else {
      var k :| 0 <= k < n && y == Concat(Group(level, k));
      NodeInjective(p, n, i, n, k);
    }
  }

  // ---- The trees ----

  /** The strings hashed from a level on do not collide, and what they are
      hashed to lies above it. */
  ghost predicate Clean(h: Bytes -> Bytes, p: Bytes, level: seq<Bytes>)
    requires level != []
  {
    Injective(h, Hashed(h, level)) && AllAbove(h, p, |level|, Hashed(h, level))
  }

  lemma TaggedStep(h: Bytes -> Bytes, p: Bytes, level: seq<Bytes>)
    requires IsTricky(h, p) && Distinct(p) && 1 < |level| < TWO64 && Tagged(level)
    requires Clean(h, p, Level(p, ParentCount(|level|)))
    ensures Clean(h, p, level) && RootFrom(h, level) == RootFrom(h, Level(p, ParentCount(|level|)))
  {
    hide Tricky, Level, Tagged, Injective, AllAbove, Parented;
    TaggedParented(h, p, level);
    LevelInjective(h, p, level);
  }

  lemma LevelTagged(p: Bytes, n: nat)
    requires !(n <= 16 && |p| == 32 * n)
    ensures Tagged(Level(p, n))
  {
    hide Tag;
  }

  lemma LeavesTagged(n: nat)
    ensures Tagged(Leaves(Marked(n)))
  {
    hide LeBytes;
    forall j | 0 <= j < n
      ensures var s := Leaves(Marked(n))[j]; |s| >= 32 && s[..16] == Tag(n, j) && s[16] == 255
    {
      var s := Leaves(Marked(n))[j];
      assert s == LeBytes(j, 8) + (LeBytes(n, 8) + Fill(24, 255));
    }
  }

  lemma {:induction false} PiecesConcat(p: Bytes, level: seq<Bytes>)
    requires |p| == 32 * |level| && forall i :: 0 <= i < |level| ==> level[i] == Piece(p, i)
    ensures Concat(level) == p
  {
    if level != [] {
      var q, rest := p[32..], level[1..];
      forall i | 0 <= i < |rest|
        ensures rest[i] == Piece(q, i)
      {
        assert rest[i] == level[i + 1];
      }
      PiecesConcat(q, rest);
      assert p == p[..32] + q;
    }
  }

  lemma SingleGroup(h: Bytes -> Bytes, level: seq<Bytes>)
    requires 1 < |level| <= 16
    ensures RootFrom(h, level) == h(h(Concat(level)))
    ensures Hashed(h, level) == {Concat(level), h(Concat(level))}
  {
    assert Group(level, 0) == level;
    var next := NextLevel(h, level);
    assert next == [h(Concat(level))];
    assert (set i | 0 <= i < ParentCount(|level|) :: Concat(Group(level, i))) == {Concat(level)};
    assert Hashed(h, next) == {next[0]};
  }

  /** The level of pieces: `p` is hashed, and then its hash. */
  lemma PieceLevel(h: Bytes -> Bytes, p: Bytes)
    requires IsTricky(h, p) && 1 < |p| / 32 <= 16 && |p| % 32 == 0
    ensures var level := Level(p, |p| / 32);
            Clean(h, p, level) && RootFrom(h, level) == Second() && Hashed(h, level) == {p, First()}
  {
    var level := Level(p, |p| / 32);
    PiecesConcat(p, level);
    SingleGroup(h, level);
    assert First()[0] == 200 && Second()[0] == 201;
    assert h(p) == First() && h(First()) == Second();
  }

  /** From any level of inner nodes on, with pieces below the top. */
  lemma {:induction false} LevelOverPieces(h: Bytes -> Bytes, p: Bytes, n: nat)
    requires IsTricky(h, p) && Distinct(p) && |p| == 32 * TopCount(n) && 1 < n < TWO64
    ensures Clean(h, p, Level(p, n)) && RootFrom(h, Level(p, n)) == Second()
    ensures {p, First()} <= Hashed(h, Level(p, n))
    decreases n
  {
    hide Tricky, Clean, Distinct, Level;
    if n <= 16 {
      PieceLevel(h, p);
    } else {
      LevelOverPieces(h, p, ParentCount(n));
      LevelTagged(p, n);
      TaggedStep(h, p, Level(p, n));
      DistinctIsSmall(p);
      HashedGrows(h, p, Level(p, n));
    }
  }

  lemma HashedGrows(h: Bytes -> Bytes, p: Bytes, level: seq<Bytes>)
    requires IsTricky(h, p) && Small(p) && 1 < |level| < TWO64 && Tagged(level)
    ensures Hashed(h, Level(p, ParentCount(|level|))) <= Hashed(h, level)
  {
    TaggedParented(h, p, level);
    HashedLevel(h, level);
  }

  /** From any level of labels on: the last is hashed to zero. */
  lemma {:induction false} LevelOfLabels(h: Bytes -> Bytes, n: nat)
    requires IsTricky(h, []) && 1 <= n < TWO64
    ensures Clean(h, [], Level([], n)) && RootFrom(h, Level([], n)) == ZeroHash()
    decreases n
  {
    hide Tricky, Clean, Level;
    LevelTagged([], n);
    if n == 1 {
      TaggedTop(h, Level([], 1));
    } else {
      LevelOfLabels(h, ParentCount(n));
      TaggedStep(h, [], Level([], n));
    }
  }

  lemma TaggedTop(h: Bytes -> Bytes, level: seq<Bytes>)
    requires IsTricky(h, []) && |level| == 1 && Tagged(level)
    ensures Clean(h, [], level) && RootFrom(h, level) == ZeroHash()
  {
    hide Tricky;
    TaggedHash(h, [], 1, 0, level[0]);
  }

  // ---- Lists that are not bound ----

  ghost function AllHashed(h: Bytes -> Bytes, xs: seq<Bytes>, ys: seq<Bytes>): set<Bytes> {
    HashedFor(h, xs) + HashedFor(h, ys)
  }

  lemma InjectiveNoCollision(h: Bytes -> Bytes, all: set<Bytes>)
    requires Injective(h, all)
    ensures !Collision(h, all, all)
  {
  }

  lemma TopOfParent(m: nat)
    requires m > 16
    ensures TopCount(m) == TopCount(ParentCount(m)) && ParentCount(m) > 1
  {
  }

  lemma DistinctIsSmall(p: Bytes)
    requires Distinct(p)
    ensures Small(p)
  {
  }

  lemma ShortTree(h: Bytes -> Bytes, n: nat)
    requires 1 < n <= 12 && IsTricky(h, Short(n))
    ensures RootFrom(h, Leaves(Plain(n))) == Second() && Hashed(h, Leaves(Plain(n))) == {Short(n), First()}
  {
    SingleGroup(h, Leaves(Plain(n)));
    assert h(Short(n)) == First() && h(First()) == Second();
  }

  /** For any two ambiguous lengths: one root, and no collision at all. */
  lemma AmbiguousDoNotBind(n: nat, m: nat) returns (h: Bytes -> Bytes, xs: seq<Bytes>, ys: seq<Bytes>)
    requires Ambiguous(n, m) && m < TWO64
    ensures IsHash(h) && |xs| == n && |ys| == m && Uniform(xs, 32) && Uniform(ys, 32)
    ensures TransactionRoot(h, xs, []) == TransactionRoot(h, ys, [])
    ensures !Collision(h, AllHashed(h, xs, ys), AllHashed(h, xs, ys))
  {
    hide Tricky, Injective, Collision, Hashed, Distinct, Short, Level, TopCount;
    var p := Short(n);
    xs, ys := Plain(n), Marked(m);
    h := s => Tricky(p, s);
    ShortIsDistinct(n);
    TopOfParent(m);
    LevelOverPieces(h, p, ParentCount(m));
    LeavesTagged(m);
    TaggedStep(h, p, Leaves(ys));
    DistinctIsSmall(p);
    HashedGrows(h, p, Leaves(ys));
    ShortTree(h, n);
    assert AllHashed(h, xs, ys) == Hashed(h, Leaves(ys));
    InjectiveNoCollision(h, Hashed(h, Leaves(ys)));
  }

  /** For the empty list and any other: the zero root, and no collision. */
  lemma EmptyDoesNotBind(m: nat) returns (h: Bytes -> Bytes, ys: seq<Bytes>)
    requires 0 < m < TWO64
    ensures IsHash(h) && |ys| == m && Uniform(ys, 32) && TransactionRoot(h, [], []) == TransactionRoot(h, ys, [])
    ensures !Collision(h, HashedFor(h, ys), HashedFor(h, ys))
  {
    hide Tricky, Injective, Collision, Hashed, Level, Tagged;
    h, ys := s => Tricky([], s), Marked(m);
    LeavesTagged(m);
    if m == 1 {
      TaggedTop(h, Leaves(ys));
    } else {
      LevelOfLabels(h, ParentCount(m));
      TaggedStep(h, [], Leaves(ys));
    }
    InjectiveNoCollision(h, Hashed(h, Leaves(ys)));
  }

  // ---- Which lengths bind ----

  /** Equal roots mean equal lists, or two different strings with one hash among
      all that were hashed. */
  ghost predicate Bound(h: Bytes -> Bytes, xs: seq<Bytes>, ys: seq<Bytes>) {
    TransactionRoot(h, xs, []) == TransactionRoot(h, ys, []) ==>
      xs == ys || Collision(h, AllHashed(h, xs, ys), AllHashed(h, xs, ys))
  }

  /** Lists of these lengths are bound by their root, whatever the hash. */
  ghost predicate Binds(n: nat, m: nat) {
    forall h: Bytes -> Bytes, xs: seq<Bytes>, ys: seq<Bytes> ::
      IsHash(h) && |xs| == n && |ys| == m && Uniform(xs, 32) && Uniform(ys, 32) ==> Bound(h, xs, ys)
  }

  lemma {:induction false} BindsSymmetric(n: nat, m: nat)
    requires Binds(n, m)
    ensures Binds(m, n)
  {
    hide HashedFor, TransactionRoot, Collision;
    forall h: Bytes -> Bytes, xs: seq<Bytes>, ys: seq<Bytes> |
      IsHash(h) && |xs| == m && |ys| == n && Uniform(xs, 32) && Uniform(ys, 32)
      ensures Bound(h, xs, ys)
    {
      assert Bound(h, ys, xs);
      assert AllHashed(h, xs, ys) == AllHashed(h, ys, xs);
    }
  }

  /** The root binds two lengths exactly if neither is ambiguous for the other
      and not just one of them is zero. */
  lemma BindsIff(n: nat, m: nat)
    requires n < TWO64 && m < TWO64
    ensures Binds(n, m) <==> !Ambiguous(n, m) && !Ambiguous(m, n) && (n == 0 <==> m == 0)
  {
    hide Binds, Ambiguous;
    if Ambiguous(n, m) {
      AmbiguousNotBound(n, m);
    } else if Ambiguous(m, n) {
      AmbiguousNotBound(m, n);
      if Binds(n, m) {
        BindsSymmetric(n, m);
      }
    } else if n == 0 && m > 0 {
      EmptyNotBound(m);
    } else if m == 0 && n > 0 {
      EmptyNotBound(n);
      if Binds(n, m) {
        BindsSymmetric(n, m);
      }
    } else {
      OthersBound(n, m);
    }
  }

  lemma AmbiguousNotBound(n: nat, m: nat)
    requires Ambiguous(n, m) && m < TWO64
    ensures !Binds(n, m)
  {
    hide AllHashed, TransactionRoot, Collision;
    var h, xs, ys := AmbiguousDoNotBind(n, m);
    assert |xs| != |ys|;
    assert !Bound(h, xs, ys);
  }

  lemma EmptyNotBound(m: nat)
    requires 0 < m < TWO64
    ensures !Binds(0, m)
  {
    hide HashedFor, TransactionRoot, Collision;
    var h, ys := EmptyDoesNotBind(m);
    assert HashedFor(h, []) == {} by { NothingHashed(h); }
    assert AllHashed(h, [], ys) == HashedFor(h, ys);
    assert !Bound(h, [], ys);
  }

  lemma NothingHashed(h: Bytes -> Bytes)
    ensures HashedFor(h, []) == {}
  {
  }

  lemma OthersBound(n: nat, m: nat)
    requires !Ambiguous(n, m) && !Ambiguous(m, n) && (n == 0 <==> m == 0)
    ensures Binds(n, m)
  {
    hide HashedFor, TransactionRoot, Ambiguous;
    forall h: Bytes -> Bytes, xs: seq<Bytes>, ys: seq<Bytes> |
      IsHash(h) && |xs| == n && |ys| == m && Uniform(xs, 32) && Uniform(ys, 32)
      ensures Bound(h, xs, ys)
    {
      if TransactionRoot(h, xs, []) == TransactionRoot(h, ys, []) {
        RootBinding(h, xs, [], ys, []);
      }
    }
  }
}
