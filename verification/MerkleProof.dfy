/** The level-by-level loops and the parent-to-children map
    (libprotocol/ParallelMerkleProof.cpp). The parallel loops run their
    iterations in any order. */
module MerkleProof {
  import opened Bytes
  import opened Merkle
  import ScaleEncoder

  // ---- Hex strings ----

  function HexDigit(n: nat): char
    requires n < 16
  {
    "0123456789abcdef"[n]
  }

  function Hex(s: Bytes): string {
    if s == [] then [] else [HexDigit(s[0] / 16), HexDigit(s[0] % 16)] + Hex(s[1..])
  }

  /** Two digits for each byte, the high one first. */
  lemma {:induction false} HexDigits(s: Bytes, i: nat)
    requires i < |s|
    ensures |Hex(s)| == 2 * |s|
    ensures Hex(s)[2 * i] == "0123456789abcdef"[s[i] / 16] && Hex(s)[2 * i + 1] == "0123456789abcdef"[s[i] % 16]
  {
    if |s| > 1 {
      HexDigits(s[1..], if i > 0 then i - 1 else 0);
    }
  }

  lemma HexDigitInjective(m: nat, n: nat)
    requires m < 16 && n < 16 && HexDigit(m) == HexDigit(n)
    ensures m == n
  {
    var d := "0123456789abcdef";
    assert forall i, j :: 0 <= i < j < 16 ==> d[i] != d[j];
  }

  /** Hex strings name byte strings without confusion. */
  lemma {:induction false} HexInjective(a: Bytes, b: Bytes)
    requires Hex(a) == Hex(b)
    ensures a == b
  {
    if a != [] && b != [] {
      assert Hex(a)[0] == HexDigit(a[0] / 16) && Hex(a)[1] == HexDigit(a[0] % 16) && Hex(a)[2..] == Hex(a[1..]);
      assert Hex(b)[0] == HexDigit(b[0] / 16) && Hex(b)[1] == HexDigit(b[0] % 16) && Hex(b)[2..] == Hex(b[1..]);
      HexDigitInjective(a[0] / 16, b[0] / 16);
      HexDigitInjective(a[0] % 16, b[0] % 16);
      HexInjective(a[1..], b[1..]);
      assert a == [a[0]] + a[1..] && b == [b[0]] + b[1..];
    }
  }

  function HexAll(nodes: seq<Bytes>): (hs: seq<string>)
    ensures |hs| == |nodes|
  {
    seq(|nodes|, i requires 0 <= i < |nodes| => Hex(nodes[i]))
  }

  // ---- The map ----

  type Edges = map<string, seq<string>>

  /** `kids` is listed under `parent` from position `pos` on, and hashes to it. */
  ghost predicate Run(h: Bytes -> Bytes, m: Edges, parent: Bytes, kids: seq<Bytes>, pos: nat) {
    && 1 <= |kids| <= 16 && h(Concat(kids)) == parent
    && Hex(parent) in m && pos + |kids| <= |m[Hex(parent)]|
    && m[Hex(parent)][pos..pos + |kids|] == HexAll(kids)
  }

  ghost predicate Edge(h: Bytes -> Bytes, m: Edges, parent: Bytes, child: Bytes) {
    exists kids: seq<Bytes>, pos: nat :: Run(h, m, parent, kids, pos) && child in kids
  }

  /** A proof: nodes from a root down, each an edge below the one before. */
  ghost predicate Chain(h: Bytes -> Bytes, m: Edges, path: seq<Bytes>) {
    forall i :: 0 <= i < |path| - 1 ==> Edge(h, m, path[i], path[i + 1])
  }

  ghost predicate Proves(h: Bytes -> Bytes, m: Edges, root: Bytes, leaf: Bytes) {
    exists path: seq<Bytes> :: path != [] && path[0] == root && path[|path| - 1] == leaf && Chain(h, m, path)
  }

  /** `n` only appends to the lists of `m`. */
  ghost predicate Grows(m: Edges, n: Edges) {
    forall k :: k in m ==> k in n && m[k] <= n[k]
  }

  lemma EdgeGrows(h: Bytes -> Bytes, m: Edges, n: Edges, parent: Bytes, child: Bytes)
    requires Grows(m, n) && Edge(h, m, parent, child)
    ensures Edge(h, n, parent, child)
  {
    var kids: seq<Bytes>, pos: nat :| Run(h, m, parent, kids, pos) && child in kids;
    assert m[Hex(parent)][pos..pos + |kids|] == n[Hex(parent)][pos..pos + |kids|];
    assert Run(h, n, parent, kids, pos);
  }

  /** Every node of the level outside the groups `todo` is below its parent. */
  ghost predicate LinkedExcept(h: Bytes -> Bytes, m: Edges, level: seq<Bytes>, todo: set<nat>) {
    forall i, c :: 0 <= i < ParentCount(|level|) && i !in todo && c in Group(level, i) ==>
      Edge(h, m, h(Concat(Group(level, i))), c)
  }

  ghost predicate LevelLinked(h: Bytes -> Bytes, m: Edges, level: seq<Bytes>) {
    LinkedExcept(h, m, level, {})
  }

  lemma LinkedStep(h: Bytes -> Bytes, m: Edges, n: Edges, level: seq<Bytes>, todo: set<nat>, i: nat)
    requires Grows(m, n) && LinkedExcept(h, m, level, todo) && i < ParentCount(|level|)
    requires forall c :: c in Group(level, i) ==> Edge(h, n, h(Concat(Group(level, i))), c)
    ensures LinkedExcept(h, n, level, todo - {i})
  {
    forall j, c | 0 <= j < ParentCount(|level|) && j !in todo - {i} && c in Group(level, j)
      ensures Edge(h, n, h(Concat(Group(level, j))), c)
    {
      if j != i {
        EdgeGrows(h, m, n, h(Concat(Group(level, j))), c);
      }
    }
  }

  /** The same for every level above, up to the root. */
  ghost predicate TreeLinked(h: Bytes -> Bytes, m: Edges, level: seq<Bytes>)
    requires level != []
    decreases |level|
  {
    if |level| == 1 then Edge(h, m, h(level[0]), level[0])
    else LevelLinked(h, m, level) && TreeLinked(h, m, NextLevel(h, level))
  }

  lemma LevelLinkedGrows(h: Bytes -> Bytes, m: Edges, n: Edges, level: seq<Bytes>)
    requires level != [] && Grows(m, n) && LevelLinked(h, m, level)
    ensures LevelLinked(h, n, level)
  {
    forall i, c | 0 <= i < ParentCount(|level|) && c in Group(level, i)
      ensures Edge(h, n, h(Concat(Group(level, i))), c)
    {
      EdgeGrows(h, m, n, h(Concat(Group(level, i))), c);
    }
  }

  /** A linked tree proves each of its nodes. */
  lemma {:induction false} LinkedProves(h: Bytes -> Bytes, m: Edges, level: seq<Bytes>, k: nat)
    requires k < |level| && TreeLinked(h, m, level)
    ensures Proves(h, m, RootFrom(h, level), level[k])
    decreases |level|
  {
    hide Edge, Concat;
    if |level| == 1 {
      var path := [h(level[0]), level[0]];
      assert Chain(h, m, path);
    } else {
      var next, i := NextLevel(h, level), k / 16;
      LinkedProves(h, m, next, i);
      assert level[k] == Group(level, i)[k - 16 * i];
      assert next[i] == h(Concat(Group(level, i)));
      Extend(h, m, RootFrom(h, next), next[i], level[k]);
    }
  }

  lemma Extend(h: Bytes -> Bytes, m: Edges, root: Bytes, node: Bytes, child: Bytes)
    requires Proves(h, m, root, node) && Edge(h, m, node, child)
    ensures Proves(h, m, root, child)
  {
    hide Edge;
    var path: seq<Bytes> :| path != [] && path[0] == root && path[|path| - 1] == node && Chain(h, m, path);
    var longer := path + [child];
    forall i | 0 <= i < |longer| - 1
      ensures Edge(h, m, longer[i], longer[i + 1])
    {
      if i < |path| - 1 {
        assert longer[i] == path[i] && longer[i + 1] == path[i + 1];
      }
    }
    assert Chain(h, m, longer) && longer[0] == root && longer[|longer| - 1] == child;
  }

  // ---- The loops ----

  /** The iterations of a parallel loop. */
  function Below(n: nat): (s: set<nat>)
    ensures forall i :: i in s <==> 0 <= i < n
  {
    if n == 0 then {} else Below(n - 1) + {n - 1}
  }

  /** The inner loop over up to 16 children. */
  method Gather(level: seq<Bytes>, i: nat) returns (value: Bytes, kids: seq<Bytes>)
    requires i < ParentCount(|level|)
    ensures kids == Group(level, i) && value == Concat(kids)
  {
    value, kids := [], [];
    for j := 0 to MAX_CHILD_COUNT
      invariant kids == level[16 * i..if 16 * i + j <= |level| then 16 * i + j else |level|]
      invariant value == Concat(kids)
    {
      var index := i * MAX_CHILD_COUNT + j;
      if index < |level| {
        ConcatAppend(kids, level[index]);
        value := value + level[index];
        kids := kids + [level[index]];
      }
    }
  }

  method CalculateMerkleProofRoot(h: Bytes -> Bytes, leaves: seq<Bytes>) returns (root: Bytes)
    ensures root == Root(h, leaves)
  {
    if |leaves| == 0 {
      return h([]);
    }
    var temp := leaves;
    while |temp| > 1
      invariant temp != [] && RootFrom(h, temp) == RootFrom(h, leaves)
      decreases |temp|
    {
      var size := (|temp| + MAX_CHILD_COUNT - 1) / MAX_CHILD_COUNT;
      var higher := new Bytes[size];
      var todo := Below(size);
      while todo != {}
        invariant forall i :: i in todo ==> 0 <= i < size
        invariant forall i :: 0 <= i < size && i !in todo ==> higher[i] == h(Concat(Group(temp, i)))
        decreases todo
      {
        var i :| i in todo;
        var value, kids := Gather(temp, i);
        higher[i] := h(value);
        todo := todo - {i};
      }
      assert higher[..] == NextLevel(h, temp);
      temp := higher[..];
    }
    root := h(temp[0]);
  }

  /** The loop that appends the children's hex strings to a list. */
  method AppendHex(start: seq<string>, kids: seq<Bytes>) returns (list: seq<string>)
    ensures list == start + HexAll(kids)
  {
    list := start;
    for i := 0 to |kids|
      invariant list == start + HexAll(kids)[..i]
    {
      list := list + [Hex(kids[i])];
    }
    assert HexAll(kids)[..|kids|] == HexAll(kids);
  }

  class ProofMap {
    var edges: Edges

    /** Append one group's children to its parent's list. */
    method Link(h: Bytes -> Bytes, parent: Bytes, kids: seq<Bytes>)
      requires 1 <= |kids| <= 16 && h(Concat(kids)) == parent
      modifies this
      ensures Grows(old(edges), edges)
      ensures forall c :: c in kids ==> Edge(h, edges, parent, c)
      ensures edges == old(edges)[Hex(parent) := Listed(old(edges), parent) + HexAll(kids)]
    {
      hide Edge, Hex, Concat;
      LinkEffect(h, edges, parent, kids);
      var key := Hex(parent);
      var list := AppendHex(if key in edges then edges[key] else [], kids);
      edges := edges[key := list];
    }

    static ghost function Listed(m: Edges, parent: Bytes): seq<string> {
      if Hex(parent) in m then m[Hex(parent)] else []
    }

    static lemma LinkEffect(h: Bytes -> Bytes, m: Edges, parent: Bytes, kids: seq<Bytes>)
      requires 1 <= |kids| <= 16 && h(Concat(kids)) == parent
      ensures var n := m[Hex(parent) := Listed(m, parent) + HexAll(kids)];
              Grows(m, n) && forall c :: c in kids ==> Edge(h, n, parent, c)
    {
      var n := m[Hex(parent) := Listed(m, parent) + HexAll(kids)];
      var pos := |Listed(m, parent)|;
      assert n[Hex(parent)][pos..pos + |kids|] == HexAll(kids);
      assert Run(h, n, parent, kids, pos);
    }

    /** One level: hash every group and link its children. */
    method LinkLevel(h: Bytes -> Bytes, level: seq<Bytes>) returns (next: seq<Bytes>)
      requires |level| > 1
      modifies this
      ensures next == NextLevel(h, level)
      ensures Grows(old(edges), edges) && LevelLinked(h, edges, level)
    {
      hide Edge, Run, Hex, Concat;
      var size := (|level| + MAX_CHILD_COUNT - 1) / MAX_CHILD_COUNT;
      var higher := new Bytes[size];
      var todo := Below(size);
      while todo != {}
        invariant forall i :: i in todo ==> 0 <= i < size
        invariant forall i :: 0 <= i < size && i !in todo ==> higher[i] == h(Concat(Group(level, i)))
        invariant Grows(old(edges), edges)
        invariant LinkedExcept(h, edges, level, todo)
        decreases todo
      {
        var i :| i in todo;
        var value, kids := Gather(level, i);
        higher[i] := h(value);
        ghost var before := edges;
        Link(h, higher[i], kids);
        LinkedStep(h, before, edges, level, todo, i);
        todo := todo - {i};
      }
      next := higher[..];
      assert next == NextLevel(h, level);
    }

    /** calculateMerkleProof: afterwards every leaf has a chain of edges from
        the root that calculateMerkleProofRoot returns; lists already in the
        map are only appended to. */
    method CalculateMerkleProof(h: Bytes -> Bytes, leaves: seq<Bytes>)
      modifies this
      ensures leaves == [] ==> edges == old(edges)
      ensures Grows(old(edges), edges)
      ensures forall k :: 0 <= k < |leaves| ==> Proves(h, edges, Root(h, leaves), leaves[k])
    {
      if |leaves| == 0 {
        return;
      }
      var temp := leaves;
      while |temp| > 1
        invariant temp != [] && RootFrom(h, temp) == RootFrom(h, leaves)
        invariant Grows(old(edges), edges)
        invariant Pending(h, edges, temp, leaves)
        decreases |temp|
      {
        ghost var before, level := edges, temp;
        temp := LinkLevel(h, temp);
        PendingStep(h, before, edges, level, leaves);
      }
      Link1(h, temp[0]);
      assert TreeLinked(h, edges, temp);
      forall k | 0 <= k < |leaves|
        ensures Proves(h, edges, Root(h, leaves), leaves[k])
      {
        LinkedProves(h, edges, leaves, k);
      }
    }

    /** The last step: the root above the single top node. */
    method Link1(h: Bytes -> Bytes, top: Bytes)
      modifies this
      ensures Grows(old(edges), edges) && Edge(h, edges, h(top), top)
    {
      assert Concat([top]) == top + Concat([]) == top;
      Link(h, h(top), [top]);
    }
  }

  /** Linking the rest of the tree above `temp` will link the whole tree. */
  ghost predicate Pending(h: Bytes -> Bytes, m: Edges, temp: seq<Bytes>, leaves: seq<Bytes>)
    requires temp != [] && leaves != []
  {
    forall n: Edges :: Grows(m, n) && TreeLinked(h, n, temp) ==> TreeLinked(h, n, leaves)
  }

  lemma PendingStep(h: Bytes -> Bytes, m: Edges, m': Edges, level: seq<Bytes>, leaves: seq<Bytes>)
    requires |level| > 1 && leaves != [] && Pending(h, m, level, leaves)
    requires Grows(m, m') && LevelLinked(h, m', level)
    ensures Pending(h, m', NextLevel(h, level), leaves)
  {
    forall n: Edges | Grows(m', n) && TreeLinked(h, n, NextLevel(h, level))
      ensures TreeLinked(h, n, leaves)
    {
      LevelLinkedGrows(h, m', n, level);
      assert TreeLinked(h, n, level);
      GrowsTransitive(m, m', n);
    }
  }

  lemma GrowsTransitive(a: Edges, b: Edges, c: Edges)
    requires Grows(a, b) && Grows(b, c)
    ensures Grows(a, c)
  {
  }

  // ---- The roots of a block ----

  /** encodeToCalculateRoot: one SCALE stream per index. */
  method EncodeToCalculateRoot(hashes: seq<Bytes>) returns (encoded: seq<Bytes>)
    ensures encoded == Leaves(hashes)
  {
    var list := new Bytes[|hashes|];
    var todo := Below(|hashes|);
    while todo != {}
      invariant forall i :: i in todo ==> 0 <= i < |hashes|
      invariant forall i :: 0 <= i < |hashes| && i !in todo ==> list[i] == LeBytes(i, 8) + hashes[i]
      decreases todo
    {
      var i :| i in todo;
      var stream := new ScaleEncoder.ScaleEncoderStream();
      stream.EncodeInteger(i, 8);
      list[i] := stream.stream + hashes[i];
      todo := todo - {i};
    }
    encoded := list[..];
  }

  /** calculateTransactionRoot. */
  method CalculateTransactionRoot(h: Bytes -> Bytes, txs: seq<Bytes>, metas: seq<Bytes>) returns (root: Bytes)
    ensures root == TransactionRoot(h, txs, metas)
  {
    if |txs| == 0 && |metas| == 0 {
      return ZeroHash();
    }
    var leaves;
    if |txs| > 0 {
      leaves := EncodeToCalculateRoot(txs);
    } else {
      leaves := EncodeToCalculateRoot(metas);
    }
    root := CalculateMerkleProofRoot(h, leaves);
  }
}
