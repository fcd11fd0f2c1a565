/** Listing the keys of a table through a chain of layers
    (libstorage/StateStorage.cpp, interfaces/storage/Common.h). */
module StorageKeys {
  import opened Wrappers
  import opened StorageLayers

  // ---- String order ----

  predicate StrLess(a: string, b: string) {
    b != [] && (a == [] || a[0] < b[0] || (a[0] == b[0] && StrLess(a[1..], b[1..])))
  }

  lemma {:induction false} StrTotal(a: string, b: string)
    ensures StrLess(a, b) || StrLess(b, a) || a == b
    ensures !(StrLess(a, b) && StrLess(b, a)) && !StrLess(a, a)
  {
    if a != [] {
      StrTotal(a[1..], a[1..]);
    }
    if a != [] && b != [] && a[0] == b[0] {
      StrTotal(a[1..], b[1..]);
      assert a == [a[0]] + a[1..] && b == [b[0]] + b[1..];
    }
  }

  lemma {:induction false} StrTransitive(a: string, b: string, c: string)
    requires StrLess(a, b) && StrLess(b, c)
    ensures StrLess(a, c)
  {
    if a != [] && a[0] == b[0] && b[0] == c[0] {
      StrTransitive(a[1..], b[1..], c[1..]);
    }
  }

  /** `a` and `b` agree up to `i`, where `a` ends or has the smaller character. */
  ghost predicate StrDiffer(a: string, b: string, i: int) {
    0 <= i <= |a| && i < |b| && a[..i] == b[..i] && (i == |a| || a[i] < b[i])
  }

  /** The order is that of the first difference. */
  lemma {:induction false} StrOrder(a: string, b: string)
    ensures StrLess(a, b) <==> exists i :: StrDiffer(a, b, i)
  {
    if a == [] || b == [] {
      assert b != [] ==> StrDiffer(a, b, 0);
    } else {
      var r, q := a[1..], b[1..];
      StrOrder(r, q);
      if a[0] < b[0] {
        assert StrDiffer(a, b, 0);
      } else if a[0] == b[0] {
        if i :| StrDiffer(r, q, i) {
          assert a[..i + 1] == [a[0]] + r[..i] && b[..i + 1] == [b[0]] + q[..i];
          assert StrDiffer(a, b, i + 1);
        }
        if i :| StrDiffer(a, b, i) {
          assert i > 0;
          assert r[..i - 1] == a[..i][1..] && q[..i - 1] == b[..i][1..];
          assert StrDiffer(r, q, i - 1);
        }
      }
    }
  }

  predicate IsLeast(s: set<string>, m: string) {
    m in s && forall x :: x in s ==> x == m || StrLess(m, x)
  }

  lemma {:induction false} LeastExists(s: set<string>)
    requires s != {}
    ensures exists m :: IsLeast(s, m)
    decreases |s|
  {
    var m :| m in s;
    var rest := s - {m};
    if rest == {} {
      assert s == {m};
      assert IsLeast(s, m);
    } else {
      LeastExists(rest);
      var n :| IsLeast(rest, n);
      StrTotal(m, n);
      if StrLess(n, m) {
        assert IsLeast(s, n);
      } else {
        forall x | x in rest
          ensures StrLess(m, x)
        {
          if x != n {
            StrTransitive(m, n, x);
          }
        }
        assert IsLeast(s, m);
      }
    }
  }

  lemma LeastUnique(s: set<string>, m: string, n: string)
    requires IsLeast(s, m) && IsLeast(s, n)
    ensures m == n
  {
    StrTotal(m, n);
  }

  /** The order in which std::map iterates its keys. */
  ghost function Sorted(s: set<string>): (r: seq<string>)
    ensures |r| == |s|
    ensures forall x :: x in r <==> x in s
    ensures forall i, j :: 0 <= i < j < |r| ==> StrLess(r[i], r[j])
    decreases |s|
  {
    if s == {} then []
    else
      var m := Least(s);
      [m] + Sorted(s - {m})
  }

  ghost function Least(s: set<string>): (m: string)
    requires s != {}
    ensures IsLeast(s, m)
  {
    LeastExists(s);
    var w :| IsLeast(s, w);
    w
  }

  // ---- Conditions ----

  datatype Comparator = EQ | NE | GT | GE | LT | LE

  datatype Cond = Cond(cmp: Comparator, value: string)

  /** EQ is in the enumeration but isValid ignores it. */
  predicate Satisfies(key: string, c: Cond) {
    match c.cmp
    case EQ => true
    case NE => key != c.value
    case GT => StrLess(c.value, key)
    case GE => key == c.value || StrLess(c.value, key)
    case LT => StrLess(key, c.value)
    case LE => key == c.value || StrLess(key, c.value)
  }

  predicate Accepts(cond: Option<seq<Cond>>, key: string) {
    cond.Some? ==> forall i :: 0 <= i < |cond.value| ==> Satisfies(key, cond.value[i])
  }

  /** What each comparator accepts; EQ accepts everything. */
  lemma ComparatorMeaning(key: string, v: string)
    ensures Satisfies(key, Cond(EQ, v))
    ensures Satisfies(key, Cond(NE, v)) <==> key != v
    ensures Satisfies(key, Cond(GT, v)) <==> exists i :: StrDiffer(v, key, i)
    ensures Satisfies(key, Cond(LT, v)) <==> exists i :: StrDiffer(key, v, i)
    ensures Satisfies(key, Cond(GE, v)) <==> !exists i :: StrDiffer(key, v, i)
    ensures Satisfies(key, Cond(LE, v)) <==> !exists i :: StrDiffer(v, key, i)
  {
    hide StrLess, StrDiffer;
    StrOrder(key, v);
    StrOrder(v, key);
    StrTotal(key, v);
  }

  /** Condition::isValid: reject on the first condition that fails. */
  method IsValid(conds: seq<Cond>, key: string) returns (r: bool)
    ensures r == Accepts(Some(conds), key)
  {
    for i := 0 to |conds|
      invariant Accepts(Some(conds[..i]), key)
    {
      var c := conds[i];
      StrTotal(key, c.value);
      var bad := match c.cmp
        case EQ => false
        case NE => key == c.value
        case GT => key == c.value || StrLess(key, c.value)
        case GE => StrLess(key, c.value)
        case LT => key == c.value || StrLess(c.value, key)
        case LE => StrLess(c.value, key);
      if bad {
        assert !Satisfies(key, conds[i]);
        return false;
      }
      assert conds[..i + 1] == conds[..i] + [c];
    }
    assert conds[..|conds|] == conds;
    r := true;
  }

  // ---- Keys of a chain ----

  /** A layer without traversal hides its own keys from the listing. */
  function Masked(ls: seq<Layer>): (r: seq<Layer>)
    ensures |r| == |ls|
  {
    if ls == [] then []
    else [if ls[0].traverse then ls[0] else ls[0].(data := map[])] + Masked(ls[1..])
  }

  lemma {:induction false} MaskedAll(ls: seq<Layer>)
    requires forall i :: 0 <= i < |ls| ==> ls[i].traverse
    ensures Masked(ls) == ls
  {
    if ls != [] {
      MaskedAll(ls[1..]);
      assert ls == [ls[0]] + ls[1..];
    }
  }

  /** The accepted keys one layer knows, with their status. */
  function Local(l: Layer, table: string, cond: Option<seq<Cond>>): map<string, Status> {
    if !l.traverse then map[]
    else
      map k | k in l.data && k.table == table && Accepts(cond, k.key) :: k.key := l.data[k].status
  }

  predicate Kept(local: map<string, Status>, key: string) {
    key in local ==> local[key] == NORMAL
  }

  function Keep(remote: seq<string>, local: map<string, Status>): seq<string> {
    if remote == [] then []
    else
      var n := |remote| - 1;
      Keep(remote[..n], local) + if Kept(local, remote[n]) then [remote[n]] else []
  }

  function Added(remote: seq<string>, local: map<string, Status>): set<string> {
    set key | key in local && local[key] == NORMAL && key !in remote
  }

  function Normals(m: map<string, Status>): set<string> {
    set key | key in m && m[key] == NORMAL
  }

  /** Walking a map in key order lists its NORMAL keys in order. */
  lemma SortedStep(m: map<string, Status>, key: string)
    requires IsLeast(m.Keys, key)
    ensures Sorted(Normals(m)) == (if m[key] == NORMAL then [key] else []) + Sorted(Normals(m - {key}))
  {
    var before, after := Normals(m), Normals(m - {key});
    if m[key] == NORMAL {
      assert key in before && before - {key} == after;
      LeastUnique(before, key, Least(before));
    } else {
      assert before == after;
      assert [] + Sorted(after) == Sorted(after);
    }
  }

  lemma NormalsLeft(remote: seq<string>, local: map<string, Status>, left: map<string, Status>)
    requires left == map key | key in local && key !in remote :: local[key]
    ensures Normals(left) == Added(remote, local)
  {
  }

  /** What asyncGetPrimaryKeys answers: the keys from below that this layer does
      not hide, in their order, then its own new ones in key order. */
  ghost function PrimaryKeys(ls: seq<Layer>, table: string, cond: Option<seq<Cond>>): seq<string> {
    if ls == [] then []
    else
      var remote := PrimaryKeys(ls[1..], table, cond);
      var local := Local(ls[0], table, cond);
      Keep(remote, local) + Sorted(Added(remote, local))
  }

  predicate NoDuplicates(s: seq<string>) {
    forall i, j :: 0 <= i < j < |s| ==> s[i] != s[j]
  }

  lemma {:induction false} KeepMembers(remote: seq<string>, local: map<string, Status>)
    ensures forall x :: x in Keep(remote, local) <==> x in remote && Kept(local, x)
    ensures NoDuplicates(remote) ==> NoDuplicates(Keep(remote, local))
  {
    if remote != [] {
      var n := |remote| - 1;
      KeepMembers(remote[..n], local);
      assert remote == remote[..n] + [remote[n]];
      assert NoDuplicates(remote) ==> remote[n] !in remote[..n];
    }
  }

  ghost predicate Visible(ls: seq<Layer>, table: string, cond: Option<seq<Cond>>, key: string) {
    Accepts(cond, key) && View(ls, Key(table, key)).Some?
  }

  /** Without duplicates, exactly the accepted keys of the table that the chain
      of traversable layers shows. */
  lemma {:induction false} KeysExact(ls: seq<Layer>, table: string, cond: Option<seq<Cond>>)
    ensures NoDuplicates(PrimaryKeys(ls, table, cond))
    ensures forall key :: key in PrimaryKeys(ls, table, cond) <==> Visible(Masked(ls), table, cond, key)
  {
    if ls != [] {
      KeysExact(ls[1..], table, cond);
      var remote, local := PrimaryKeys(ls[1..], table, cond), Local(ls[0], table, cond);
      KeepMembers(remote, local);
      Distinct(Added(remote, local));
      DistinctConcat(Keep(remote, local), Sorted(Added(remote, local)));
      forall key
        ensures key in PrimaryKeys(ls, table, cond) <==> Visible(Masked(ls), table, cond, key)
      {
        KeyStep(ls, table, cond, key);
      }
    }
  }

  lemma KeyStep(ls: seq<Layer>, table: string, cond: Option<seq<Cond>>, key: string)
    requires ls != []
    requires key in PrimaryKeys(ls[1..], table, cond) <==> Visible(Masked(ls[1..]), table, cond, key)
    ensures key in PrimaryKeys(ls, table, cond) <==> Visible(Masked(ls), table, cond, key)
  {
    hide Local, Keep, Accepts;
    KeepMembers(PrimaryKeys(ls[1..], table, cond), Local(ls[0], table, cond));
    LocalMeaning(ls[0], table, cond, key);
    assert Masked(ls)[1..] == Masked(ls[1..]);
  }

  lemma DistinctConcat(a: seq<string>, b: seq<string>)
    requires NoDuplicates(a) && NoDuplicates(b) && forall x :: x in a ==> x !in b
    ensures NoDuplicates(a + b)
  {
    var c := a + b;
    forall i, j | 0 <= i < j < |c|
      ensures c[i] != c[j]
    {
      if i < |a| <= j {
        assert c[i] in a && c[j] == b[j - |a|];
      }
    }
  }

  lemma Distinct(s: set<string>)
    ensures NoDuplicates(Sorted(s))
  {
    forall i, j | 0 <= i < j < |Sorted(s)|
      ensures Sorted(s)[i] != Sorted(s)[j]
    {
      StrTotal(Sorted(s)[i], Sorted(s)[j]);
    }
  }

  lemma LocalMeaning(l: Layer, table: string, cond: Option<seq<Cond>>, key: string)
    ensures key in Local(l, table, cond) <==> l.traverse && Key(table, key) in l.data && Accepts(cond, key)
    ensures key in Local(l, table, cond) ==> Local(l, table, cond)[key] == l.data[Key(table, key)].status
  {
    var k := Key(table, key);
    assert k.table == table && k.key == key;
  }

  /** With traversal on everywhere, the listing is exactly what reads show. */
  lemma KeysAreViews(ls: seq<Layer>, table: string, cond: Option<seq<Cond>>)
    requires forall i :: 0 <= i < |ls| ==> ls[i].traverse
    ensures NoDuplicates(PrimaryKeys(ls, table, cond))
    ensures forall key :: key in PrimaryKeys(ls, table, cond) <==> Visible(ls, table, cond, key)
  {
    KeysExact(ls, table, cond);
    MaskedAll(ls);
  }

  // ---- The order of the listing ----

  lemma {:induction false} KeepOrder(remote: seq<string>, local: map<string, Status>, i: nat, j: nat, p: nat, q: nat)
    requires NoDuplicates(remote) && i < j < |Keep(remote, local)| && p < |remote| && q < |remote|
    requires Keep(remote, local)[i] == remote[p] && Keep(remote, local)[j] == remote[q]
    ensures p < q
  {
    var n := |remote| - 1;
    var front, kept := remote[..n], Keep(remote[..n], local);
    KeepMembers(front, local);
    assert remote == front + [remote[n]];
    assert kept[i] in front;
    if j < |kept| {
      assert kept[j] in front;
      KeepOrder(front, local, i, j, p, q);
    }
  }

  /** The strings of `xs` are all in `ys`, and in the same order. */
  ghost predicate InOrderOf(xs: seq<string>, ys: seq<string>) {
    && (forall i :: 0 <= i < |xs| ==> xs[i] in ys)
    && forall i, j, p, q ::
         0 <= i < j < |xs| && 0 <= p < |ys| && 0 <= q < |ys| && xs[i] == ys[p] && xs[j] == ys[q] ==> p < q
  }

  ghost predicate Ascending(xs: seq<string>) {
    forall i, j :: 0 <= i < j < |xs| ==> StrLess(xs[i], xs[j])
  }

  lemma KeptInOrder(remote: seq<string>, local: map<string, Status>)
    requires NoDuplicates(remote)
    ensures InOrderOf(Keep(remote, local), remote)
  {
    hide Keep;
    var kept := Keep(remote, local);
    KeepMembers(remote, local);
    forall i | 0 <= i < |kept|
      ensures kept[i] in remote
    {
      assert kept[i] in kept;
    }
    forall i, j, p, q |
      0 <= i < j < |kept| && 0 <= p < |remote| && 0 <= q < |remote| && kept[i] == remote[p] && kept[j] == remote[q]
      ensures p < q
    {
      KeepOrder(remote, local, i, j, p, q);
    }
  }

  /** Keys known below come first, in the order of the listing below; then come
      this layer's own keys, in string order. */
  lemma ListingOrder(ls: seq<Layer>, table: string, cond: Option<seq<Cond>>)
      returns (known: seq<string>, own: seq<string>)
    requires ls != []
    ensures PrimaryKeys(ls, table, cond) == known + own
    ensures var below := PrimaryKeys(ls[1..], table, cond);
            InOrderOf(known, below) && Ascending(own) && forall x :: x in own ==> x !in below
  {
    hide InOrderOf, Keep, Sorted;
    var below, local := PrimaryKeys(ls[1..], table, cond), Local(ls[0], table, cond);
    KeysExact(ls[1..], table, cond);
    KeptInOrder(below, local);
    known, own := Keep(below, local), Sorted(Added(below, local));
  }
}
