/** The state hash: the exclusive or, over the dirty entries of one layer, of
    the hash of the value or of a mark for a deletion
    (libstorage/StateStorage.cpp, libutilities/FixedBytes.h). */
module StorageHash {
  import opened Wrappers
  import opened StorageLayers
  import opened StorageRollback

  /** A 32-byte hash. */
  type Hash = s: seq<bv8> | |s| == 32 witness seq(32, _ => 0)

  function Zero(): Hash {
    seq(32, _ => 0)
  }

  /** HashType(0x1): the number one, big endian. */
  function One(): Hash {
    seq(32, i => if i == 31 then 1 else 0)
  }

  function Xor(a: Hash, b: Hash): Hash {
    seq(32, i requires 0 <= i < 32 => a[i] ^ b[i])
  }

  lemma XorZero(a: Hash)
    ensures Xor(Zero(), a) == a && Xor(a, Zero()) == a
  {
  }

  lemma XorAssociative(a: Hash, b: Hash, c: Hash)
    ensures Xor(Xor(a, b), c) == Xor(a, Xor(b, c))
  {
    forall i | 0 <= i < 32
      ensures Xor(Xor(a, b), c)[i] == Xor(a, Xor(b, c))[i]
    {
      assert (a[i] ^ b[i]) ^ c[i] == a[i] ^ (b[i] ^ c[i]);
    }
  }

  lemma XorCommutative(a: Hash, b: Hash)
    ensures Xor(a, b) == Xor(b, a)
  {
    forall i | 0 <= i < 32
      ensures Xor(a, b)[i] == Xor(b, a)[i]
    {
      assert a[i] ^ b[i] == b[i] ^ a[i];
    }
  }

  lemma XorSwap(a: Hash, b: Hash, c: Hash)
    ensures Xor(a, Xor(b, c)) == Xor(b, Xor(a, c))
  {
    XorAssociative(a, b, c);
    XorCommutative(a, b);
    XorAssociative(b, a, c);
  }

  /** operator^= on the byte array of a FixedBytes<32>. */
  method XorAssign(a: array<bv8>, b: Hash)
    requires a.Length == 32
    modifies a
    ensures a[..] == Xor(old(a[..]), b)
  {
    ghost var was := a[..];
    for i := 0 to 32
      invariant forall j :: 0 <= j < i ==> a[j] == was[j] ^ b[j]
      invariant forall j :: i <= j < 32 ==> a[j] == was[j]
    {
      a[i] := a[i] ^ b[i];
    }
  }

  // ---- The hash of a store ----

  /** What one entry contributes. */
  function Term(h: string -> Hash, e: Entry): Hash {
    if !e.dirty then Zero() else if e.status == DELETED then One() else h(e.value)
  }

  /** The hash along one order of the keys. */
  function Fold(h: string -> Hash, data: Data, order: seq<Key>): Hash
    requires forall i :: 0 <= i < |order| ==> order[i] in data
    decreases |order|
  {
    if order == [] then Zero() else Xor(Term(h, data[order[0]]), Fold(h, data, order[1..]))
  }

  /** The hash of a store, with the keys taken in some order. */
  ghost function StateHash(h: string -> Hash, data: Data): Hash
    decreases |data|
  {
    if data == map[] then Zero()
    else
      var k :| k in data;
      Xor(Term(h, data[k]), StateHash(h, data - {k}))
  }

  /** Any key may come first. */
  lemma {:induction false} TakeAny(h: string -> Hash, data: Data, k: Key)
    requires k in data
    ensures StateHash(h, data) == Xor(Term(h, data[k]), StateHash(h, data - {k}))
    decreases |data|
  {
    var p :| p in data && StateHash(h, data) == Xor(Term(h, data[p]), StateHash(h, data - {p}));
    if p != k {
      var both := data - {p} - {k};
      assert both == data - {k} - {p};
      TakeAny(h, data - {p}, k);
      TakeAny(h, data - {k}, p);
      XorSwap(Term(h, data[p]), Term(h, data[k]), StateHash(h, both));
    }
  }

  lemma AddTerm(h: string -> Hash, rest: Data, k: Key, total: Hash)
    requires k in rest
    ensures Xor(Xor(total, Term(h, rest[k])), StateHash(h, rest - {k})) == Xor(total, StateHash(h, rest))
    ensures |rest - {k}| < |rest|
  {
    TakeAny(h, rest, k);
    XorAssociative(total, Term(h, rest[k]), StateHash(h, rest - {k}));
    assert (rest - {k}).Keys == rest.Keys - {k};
  }

  /** Ranges that share no key and cover all of them. */
  predicate Partition(ranges: seq<set<Key>>, ks: set<Key>) {
    && (forall i, j :: 0 <= i < j < |ranges| ==> ranges[i] !! ranges[j])
    && (forall i :: 0 <= i < |ranges| ==> ranges[i] <= ks)
    && (forall k :: k in ks ==> exists i :: 0 <= i < |ranges| && k in ranges[i])
  }

  lemma PickRange(ranges: seq<set<Key>>, ks: set<Key>)
    requires Partition(ranges, ks) && ks != {}
    ensures exists i :: 0 <= i < |ranges| && ranges[i] != {}
  {
    var k :| k in ks;
    var i :| 0 <= i < |ranges| && k in ranges[i];
  }

  lemma TakeFromRange(ranges: seq<set<Key>>, ks: set<Key>, i: nat, k: Key)
    requires Partition(ranges, ks) && i < |ranges| && k in ranges[i]
    ensures Partition(ranges[i := ranges[i] - {k}], ks - {k})
  {
    var smaller := ranges[i := ranges[i] - {k}];
    forall x | x in ks - {k}
      ensures exists j :: 0 <= j < |smaller| && x in smaller[j]
    {
      var j :| 0 <= j < |ranges| && x in ranges[j];
      assert x in smaller[j];
    }
  }

  /** `order` lists every key of `data` once. */
  ghost predicate Enumerates(order: seq<Key>, data: Data) {
    && (forall i, j :: 0 <= i < j < |order| ==> order[i] != order[j])
    && (forall k :: k in order <==> k in data)
  }

  lemma EnumeratesRest(order: seq<Key>, data: Data)
    requires Enumerates(order, data) && order != []
    ensures Enumerates(order[1..], data - {order[0]})
  {
    var k, rest := order[0], order[1..];
    assert forall j :: 0 <= j < |rest| ==> rest[j] == order[j + 1];
    assert forall x :: x in order <==> x == k || x in rest;
  }

  /** Every traversal order gives the same hash. */
  lemma {:induction false} AnyOrder(h: string -> Hash, data: Data, order: seq<Key>)
    requires Enumerates(order, data)
    ensures forall i :: 0 <= i < |order| ==> order[i] in data
    ensures Fold(h, data, order) == StateHash(h, data)
    decreases |order|
  {
    if order == [] {
      assert forall k :: k in data ==> k in order;
      assert data == map[];
    } else {
      var k, rest := order[0], order[1..];
      var smaller := data - {k};
      EnumeratesRest(order, data);
      AnyOrder(h, smaller, rest);
      TakeAny(h, data, k);
      SameTerms(h, smaller, data, rest);
    }
  }

  lemma {:induction false} SameTerms(h: string -> Hash, a: Data, b: Data, order: seq<Key>)
    requires forall i :: 0 <= i < |order| ==> order[i] in a && order[i] in b && a[order[i]] == b[order[i]]
    ensures Fold(h, a, order) == Fold(h, b, order)
    decreases |order|
  {
    if order != [] {
      SameTerms(h, a, b, order[1..]);
    }
  }

  /** Clean entries do not count, so imports leave the hash alone. */
  lemma {:induction false} CleanImportsKeepHash(h: string -> Hash, base: Data, d: Data)
    requires forall k :: k in base ==> k in d && d[k] == base[k]
    requires forall k :: k in d && k !in base ==> !d[k].dirty
    ensures StateHash(h, d) == StateHash(h, base)
    decreases |d|
  {
    if k :| k in d && k !in base {
      TakeAny(h, d, k);
      XorZero(StateHash(h, d - {k}));
      CleanImportsKeepHash(h, base, d - {k});
    } else {
      assert d == base;
    }
  }

  /** Reads never change the hash of any layer. */
  lemma {:induction false} ReadsKeepHash(h: string -> Hash, ls: seq<Layer>, ks: set<Key>, depth: nat)
    requires depth < |ls|
    ensures StateHash(h, AfterReads(ls, ks)[depth].data) == StateHash(h, ls[depth].data)
    decreases depth
  {
    if depth == 0 {
      CleanImportsKeepHash(h, ls[0].data, AfterReads(ls, ks)[0].data);
    } else {
      ReadsKeepHash(h, ls[1..], ks - ls[0].data.Keys, depth - 1);
    }
  }

  /** Rolling a recorder back restores the hash of the layer. */
  lemma RollbackRestoresHash(h: string -> Hash, ls: seq<Layer>, ops: seq<Op>)
    requires ls != []
    ensures RolledBack(ls, ops) != []
    ensures StateHash(h, RolledBack(ls, ops)[0].data) == StateHash(h, ls[0].data)
  {
    RollbackRestores(ls, ops);
    CleanImportsKeepHash(h, ls[0].data, RolledBack(ls, ops)[0].data);
  }

  // ---- What a write does to the hash ----

  /** What an entry adds to the hash of the rest: nothing if it is clean, the
      last bit if it deletes, and else the hash of its value, byte by byte. */
  lemma HashOfWrite(h: string -> Hash, data: Data, k: Key, e: Entry)
    ensures var old', new' := StateHash(h, data - {k}), StateHash(h, data[k := e]);
            forall i :: 0 <= i < 32 ==>
              new'[i] == if !e.dirty then old'[i]
                         else if e.status == DELETED then (if i == 31 then old'[i] ^ 1 else old'[i])
                         else old'[i] ^ h(e.value)[i]
  {
    TakeAny(h, data[k := e], k);
    assert data[k := e] - {k} == data - {k};
    XorCommutative(Term(h, e), StateHash(h, data - {k}));
  }

  /** So a deletion is seen in the hash. */
  lemma DeletionChangesHash(h: string -> Hash, data: Data, k: Key, e: Entry)
    requires k !in data && e.dirty && e.status == DELETED
    ensures StateHash(h, data[k := e]) != StateHash(h, data)
  {
    HashOfWrite(h, data, k, e);
    assert data - {k} == data;
    var a := StateHash(h, data);
    assert a[31] ^ 1 != a[31];
  }
}
