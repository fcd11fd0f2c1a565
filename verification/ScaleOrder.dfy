/** The order of map keys is a total order on the values of a type, so that
    emplacing keeps a map in key order and keeps the first value of a key. */
module ScaleOrder {
  import opened Wrappers
  import opened Bytes
  import opened ScaleCodec

  // ---- The laws of an order, for two and for three values ----

  ghost predicate Pair(ab: int, ba: int, equal: bool) {
    (ab == 0 <==> equal) && (ab < 0 <==> ba > 0) && (ab > 0 <==> ba < 0)
  }

  ghost predicate Triple(ab: int, bc: int, ac: int) {
    (ab < 0 && bc < 0 ==> ac < 0)
  }

  ghost predicate PairOf(a: ScaleValue, b: ScaleValue) {
    Pair(Compare(a, b), Compare(b, a), a == b)
  }

  ghost predicate TripleOf(a: ScaleValue, b: ScaleValue, c: ScaleValue) {
    PairOf(a, b) && PairOf(b, c) && PairOf(a, c) && Triple(Compare(a, b), Compare(b, c), Compare(a, c))
  }

  ghost predicate PairOfEntries(x: Entry, y: Entry) {
    PairOf(x.k, y.k) && PairOf(x.v, y.v)
  }

  ghost predicate TripleOfEntries(x: Entry, y: Entry, z: Entry) {
    TripleOf(x.k, y.k, z.k) && TripleOf(x.v, y.v, z.v)
  }

  // ---- Lexicographic comparison keeps them ----

  lemma {:induction false} BytesPair(x: Bytes, y: Bytes)
    ensures Pair(CompareBytes(x, y), CompareBytes(y, x), x == y)
  {
    if x != [] && y != [] {
      BytesPair(x[1..], y[1..]);
      assert x == [x[0]] + x[1..] && y == [y[0]] + y[1..];
    }
  }

  lemma {:induction false} BytesTriple(x: Bytes, y: Bytes, z: Bytes)
    ensures Triple(CompareBytes(x, y), CompareBytes(y, z), CompareBytes(x, z))
  {
    if x != [] && y != [] && z != [] {
      BytesTriple(x[1..], y[1..], z[1..]);
    }
  }

  lemma {:induction false} SeqPair(x: seq<ScaleValue>, y: seq<ScaleValue>)
    requires forall i :: 0 <= i < |x| && i < |y| ==> PairOf(x[i], y[i])
    ensures Pair(CompareSeq(x, y), CompareSeq(y, x), x == y)
  {
    hide PairOf, Compare;
    if x != [] && y != [] {
      var r, q := x[1..], y[1..];
      forall i | 0 <= i < |r| && i < |q|
        ensures PairOf(r[i], q[i])
      {
        assert r[i] == x[i + 1] && q[i] == y[i + 1];
      }
      SeqPair(r, q);
      ThePair(x[0], y[0]);
      assert x == [x[0]] + r && y == [y[0]] + q;
    }
  }

  lemma ThePair(a: ScaleValue, b: ScaleValue)
    requires PairOf(a, b)
    ensures Pair(Compare(a, b), Compare(b, a), a == b)
  {
  }

  lemma TheTriple(a: ScaleValue, b: ScaleValue, c: ScaleValue)
    requires TripleOf(a, b, c)
    ensures PairOf(a, b) && PairOf(b, c) && PairOf(a, c) && Triple(Compare(a, b), Compare(b, c), Compare(a, c))
    ensures Compare(a, b) <= 0 && Compare(b, c) <= 0 ==>
              Compare(a, c) <= 0 && (Compare(a, c) == 0 <==> Compare(a, b) == 0 && Compare(b, c) == 0)
  {
  }

  lemma {:induction false} SeqTriple(x: seq<ScaleValue>, y: seq<ScaleValue>, z: seq<ScaleValue>)
    requires forall i :: 0 <= i < |x| && i < |y| && i < |z| ==> TripleOf(x[i], y[i], z[i])
    ensures Triple(CompareSeq(x, y), CompareSeq(y, z), CompareSeq(x, z))
  {
    hide TripleOf, PairOf, Compare;
    if x != [] && y != [] && z != [] {
      var r, q, p := x[1..], y[1..], z[1..];
      forall i | 0 <= i < |r| && i < |q| && i < |p|
        ensures TripleOf(r[i], q[i], p[i])
      {
        assert r[i] == x[i + 1] && q[i] == y[i + 1] && p[i] == z[i + 1];
      }
      SeqTriple(r, q, p);
      TheTriple(x[0], y[0], z[0]);
    }
  }

  lemma EntryPair(x: Entry, y: Entry)
    requires PairOfEntries(x, y)
    ensures Pair(CompareEntry(x, y), CompareEntry(y, x), x == y)
  {
  }

  lemma EntryTriple(x: Entry, y: Entry, z: Entry)
    requires TripleOfEntries(x, y, z)
    ensures Pair(CompareEntry(x, y), CompareEntry(y, x), x == y) && Pair(CompareEntry(y, z), CompareEntry(z, y), y == z)
    ensures CompareEntry(x, y) <= 0 && CompareEntry(y, z) <= 0 ==>
              CompareEntry(x, z) <= 0 &&
              (CompareEntry(x, z) == 0 <==> CompareEntry(x, y) == 0 && CompareEntry(y, z) == 0)
  {
    hide TripleOf, PairOf;
    TheTriple(x.k, y.k, z.k);
    TheTriple(x.v, y.v, z.v);
    EntryPair(x, y);
    EntryPair(y, z);
    ThePair(x.k, y.k);
    ThePair(y.k, z.k);
    ThePair(x.k, z.k);
  }

  lemma {:induction false} EntriesPair(x: seq<Entry>, y: seq<Entry>)
    requires forall i :: 0 <= i < |x| && i < |y| ==> PairOfEntries(x[i], y[i])
    ensures Pair(CompareEntries(x, y), CompareEntries(y, x), x == y)
  {
    hide PairOfEntries, CompareEntry, Compare;
    if x != [] && y != [] {
      var r, q := x[1..], y[1..];
      forall i | 0 <= i < |r| && i < |q|
        ensures PairOfEntries(r[i], q[i])
      {
        assert r[i] == x[i + 1] && q[i] == y[i + 1];
      }
      EntriesPair(r, q);
      EntryPair(x[0], y[0]);
      assert x == [x[0]] + r && y == [y[0]] + q;
    }
  }

  lemma {:induction false} EntriesTriple(x: seq<Entry>, y: seq<Entry>, z: seq<Entry>)
    requires forall i :: 0 <= i < |x| && i < |y| && i < |z| ==> TripleOfEntries(x[i], y[i], z[i])
    ensures Triple(CompareEntries(x, y), CompareEntries(y, z), CompareEntries(x, z))
  {
    hide TripleOfEntries, CompareEntry;
    if x != [] && y != [] && z != [] {
      var r, q, p := x[1..], y[1..], z[1..];
      forall i | 0 <= i < |r| && i < |q| && i < |p|
        ensures TripleOfEntries(r[i], q[i], p[i])
      {
        assert r[i] == x[i + 1] && q[i] == y[i + 1] && p[i] == z[i + 1];
      }
      EntriesTriple(r, q, p);
      EntryTriple(x[0], y[0], z[0]);
    }
  }

  // ---- The order on the values of a type ----

  /** Compare is antisymmetric and zero only on equal values. */
  lemma {:induction false} Antisymmetric(t: ScaleType, a: ScaleValue, b: ScaleValue)
    requires HasType(t, a) && HasType(t, b)
    ensures PairOf(a, b)
    decreases t
  {
    match t
    case FixedBytes(_) => BytesPair(a.s, b.s);
    case Str => BytesPair(a.s, b.s);
    case Vector(e) => EachPair(t, a, b);
    case Array(e, _) => EachPair(t, a, b);
    case Tuple(ts) =>
      forall i | 0 <= i < |ts|
        ensures PairOf(a.vs[i], b.vs[i])
      {
        Antisymmetric(ts[i], a.vs[i], b.vs[i]);
      }
      SeqPair(a.vs, b.vs);
    case Map(k, e) =>
      forall i | 0 <= i < |a.entries| && i < |b.entries|
        ensures PairOfEntries(a.entries[i], b.entries[i])
      {
        Antisymmetric(k, a.entries[i].k, b.entries[i].k);
        Antisymmetric(e, a.entries[i].v, b.entries[i].v);
      }
      EntriesPair(a.entries, b.entries);
    case Optional(e) =>
      if a.o.Some? && b.o.Some? {
        Antisymmetric(e, a.o.value, b.o.value);
      }
    case Variant(alts) =>
      if a.which == b.which {
        Antisymmetric(alts[a.which], a.inner, b.inner);
      }
    case _ =>
  }

  lemma {:induction false} EachPair(t: ScaleType, a: ScaleValue, b: ScaleValue)
    requires (t.Vector? || t.Array?) && HasType(t, a) && HasType(t, b)
    ensures PairOf(a, b)
    decreases t, 0
  {
    forall i | 0 <= i < |a.vs| && i < |b.vs|
      ensures PairOf(a.vs[i], b.vs[i])
    {
      Antisymmetric(t.elem, a.vs[i], b.vs[i]);
    }
    SeqPair(a.vs, b.vs);
  }

  /** And it is transitive. */
  lemma {:induction false} Transitive(t: ScaleType, a: ScaleValue, b: ScaleValue, c: ScaleValue)
    requires HasType(t, a) && HasType(t, b) && HasType(t, c)
    ensures TripleOf(a, b, c)
    decreases t
  {
    Antisymmetric(t, a, b);
    Antisymmetric(t, b, c);
    Antisymmetric(t, a, c);
    hide PairOf;
    match t
    case FixedBytes(_) => BytesTriple(a.s, b.s, c.s);
    case Str => BytesTriple(a.s, b.s, c.s);
    case Vector(e) => EachTriple(t, a, b, c);
    case Array(e, _) => EachTriple(t, a, b, c);
    case Tuple(ts) =>
      forall i | 0 <= i < |ts|
        ensures TripleOf(a.vs[i], b.vs[i], c.vs[i])
      {
        Transitive(ts[i], a.vs[i], b.vs[i], c.vs[i]);
      }
      SeqTriple(a.vs, b.vs, c.vs);
    case Map(k, e) =>
      forall i | 0 <= i < |a.entries| && i < |b.entries| && i < |c.entries|
        ensures TripleOfEntries(a.entries[i], b.entries[i], c.entries[i])
      {
        Transitive(k, a.entries[i].k, b.entries[i].k, c.entries[i].k);
        Transitive(e, a.entries[i].v, b.entries[i].v, c.entries[i].v);
      }
      EntriesTriple(a.entries, b.entries, c.entries);
    case Optional(e) =>
      if a.o.Some? && b.o.Some? && c.o.Some? {
        Transitive(e, a.o.value, b.o.value, c.o.value);
      }
    case Variant(alts) =>
      if a.which == b.which == c.which {
        Transitive(alts[a.which], a.inner, b.inner, c.inner);
      }
    case _ =>
  }

  lemma {:induction false} EachTriple(t: ScaleType, a: ScaleValue, b: ScaleValue, c: ScaleValue)
    requires (t.Vector? || t.Array?) && HasType(t, a) && HasType(t, b) && HasType(t, c)
    ensures Triple(Compare(a, b), Compare(b, c), Compare(a, c))
    decreases t, 0
  {
    forall i | 0 <= i < |a.vs| && i < |b.vs| && i < |c.vs|
      ensures TripleOf(a.vs[i], b.vs[i], c.vs[i])
    {
      Transitive(t.elem, a.vs[i], b.vs[i], c.vs[i]);
    }
    SeqTriple(a.vs, b.vs, c.vs);
  }

  /** Keys are strictly and totally ordered. */
  lemma TotalOrder(t: ScaleType, a: ScaleValue, b: ScaleValue, c: ScaleValue)
    requires HasType(t, a) && HasType(t, b) && HasType(t, c)
    ensures Less(a, b) || a == b || Less(b, a)
    ensures !(Less(a, b) && Less(b, a)) && !Less(a, a)
    ensures Less(a, b) && Less(b, c) ==> Less(a, c)
  {
    hide Compare, HasType;
    Antisymmetric(t, a, a);
    Transitive(t, a, b, c);
  }

  // ---- Which order it is ----

  /** `x` and `y` agree up to `i`, where `x` ends or has the smaller byte. */
  ghost predicate BytesDiffer(x: Bytes, y: Bytes, i: int) {
    0 <= i <= |x| && i < |y| && x[..i] == y[..i] && (i == |x| || x[i] < y[i])
  }

  lemma {:induction false} BytesOrder(x: Bytes, y: Bytes)
    ensures CompareBytes(x, y) < 0 <==> exists i :: BytesDiffer(x, y, i)
  {
    if x == [] || y == [] {
      assert y != [] ==> BytesDiffer(x, y, 0);
    } else {
      var r, q := x[1..], y[1..];
      BytesOrder(r, q);
      if x[0] < y[0] {
        assert BytesDiffer(x, y, 0);
      } else if x[0] == y[0] {
        if i :| BytesDiffer(r, q, i) {
          assert x[..i + 1] == [x[0]] + r[..i] && y[..i + 1] == [y[0]] + q[..i];
          assert BytesDiffer(x, y, i + 1);
        }
        if i :| BytesDiffer(x, y, i) {
          assert i > 0;
          assert r[..i - 1] == x[..i][1..] && q[..i - 1] == y[..i][1..];
          assert BytesDiffer(r, q, i - 1);
        }
      }
    }
  }

  /** `x` and `y` agree up to `i`, where `x` ends or has the smaller value. */
  ghost predicate ValuesDiffer(x: seq<ScaleValue>, y: seq<ScaleValue>, i: int) {
    0 <= i <= |x| && i < |y| && x[..i] == y[..i] && (i == |x| || Less(x[i], y[i]))
  }

  lemma {:induction false} ValuesOrder(x: seq<ScaleValue>, y: seq<ScaleValue>)
    requires forall i :: 0 <= i < |x| && i < |y| ==> PairOf(x[i], y[i])
    ensures CompareSeq(x, y) < 0 <==> exists i :: ValuesDiffer(x, y, i)
  {
    hide Compare;
    if x == [] || y == [] {
      assert y != [] ==> ValuesDiffer(x, y, 0);
    } else {
      var r, q := x[1..], y[1..];
      forall i | 0 <= i < |r| && i < |q|
        ensures PairOf(r[i], q[i])
      {
        assert r[i] == x[i + 1] && q[i] == y[i + 1];
      }
      ValuesOrder(r, q);
      if Less(x[0], y[0]) {
        assert ValuesDiffer(x, y, 0);
      } else if x[0] == y[0] {
        if i :| ValuesDiffer(r, q, i) {
          assert x[..i + 1] == [x[0]] + r[..i] && y[..i + 1] == [y[0]] + q[..i];
          assert ValuesDiffer(x, y, i + 1);
        }
        if i :| ValuesDiffer(x, y, i) {
          assert i > 0;
          assert r[..i - 1] == x[..i][1..] && q[..i - 1] == y[..i][1..];
          assert ValuesDiffer(r, q, i - 1);
        }
      }
    }
  }

  /** Numbers by size, false before true, strings by the first difference,
      nothing before something, variants by alternative first. */
  lemma OrderMeaning(t: ScaleType, a: ScaleValue, b: ScaleValue)
    requires HasType(t, a) && HasType(t, b)
    ensures a.Int? ==> (Less(a, b) <==> a.i < b.i)
    ensures a.Bool? ==> (Less(a, b) <==> !a.b && b.b)
    ensures a.Blob? ==> (Less(a, b) <==> exists i :: BytesDiffer(a.s, b.s, i))
    ensures a.Opt? ==> (Less(a, b) <==> b.o.Some? && (a.o.None? || Less(a.o.value, b.o.value)))
    ensures a.Case? ==> (Less(a, b) <==> a.which < b.which || (a.which == b.which && Less(a.inner, b.inner)))
  {
    hide BytesDiffer;
    if a.Blob? {
      BytesOrder(a.s, b.s);
    }
  }

  /** Sequences by the first difference. */
  lemma SequenceOrder(t: ScaleType, a: ScaleValue, b: ScaleValue)
    requires (t.Vector? || t.Array? || t.Tuple?) && HasType(t, a) && HasType(t, b)
    ensures Less(a, b) <==> exists i :: ValuesDiffer(a.vs, b.vs, i)
  {
    hide ValuesDiffer, PairOf;
    MembersPair(t, a, b);
    ValuesOrder(a.vs, b.vs);
  }

  lemma MembersPair(t: ScaleType, a: ScaleValue, b: ScaleValue)
    requires (t.Vector? || t.Array? || t.Tuple?) && HasType(t, a) && HasType(t, b)
    ensures forall i :: 0 <= i < |a.vs| && i < |b.vs| ==> PairOf(a.vs[i], b.vs[i])
  {
    forall i | 0 <= i < |a.vs| && i < |b.vs|
      ensures PairOf(a.vs[i], b.vs[i])
    {
      Antisymmetric(if t.Tuple? then t.members[i] else t.elem, a.vs[i], b.vs[i]);
    }
  }

  // ---- Emplacing ----

  ghost predicate KeysTyped(t: ScaleType, es: seq<Entry>) {
    forall i :: 0 <= i < |es| ==> HasType(t, es[i].k)
  }

  ghost predicate HasKey(es: seq<Entry>, k: ScaleValue) {
    exists e :: e in es && e.k == k
  }

  /** emplace keeps the map in key order, and adds the entry exactly if its key
      is not there yet. */
  lemma {:induction false} EmplaceKeeps(t: ScaleType, es: seq<Entry>, e: Entry)
    requires Ordered(es) && KeysTyped(t, es) && HasType(t, e.k)
    ensures var r := Emplace(es, e);
            && Ordered(r) && KeysTyped(t, r) && |r| <= |es| + 1
            && forall x :: x in r <==> x in es || (x == e && !HasKey(es, e.k))
  {
    hide Less, HasType;
    if es != [] {
      var first, rest := es[0], es[1..];
      TotalOrder(t, first.k, e.k, first.k);
      assert forall i :: 0 <= i < |rest| ==> rest[i] == es[i + 1];
      assert forall x :: x in es <==> x == first || x in rest;
      EmplaceKeeps(t, rest, e);
      if Less(first.k, e.k) {
        FirstStays(t, first, rest, e);
      } else if Less(e.k, first.k) {
        FirstComes(t, es, e);
      } else {
        assert HasKey(es, e.k);
      }
    }
  }

  lemma FirstStays(t: ScaleType, first: Entry, rest: seq<Entry>, e: Entry)
    requires Ordered([first] + rest) && Less(first.k, e.k) && first.k != e.k
    requires var q := Emplace(rest, e);
             && Ordered(q) && forall x :: x in q <==> x in rest || (x == e && !HasKey(rest, e.k))
    ensures Ordered([first] + Emplace(rest, e))
    ensures HasKey([first] + rest, e.k) <==> HasKey(rest, e.k)
  {
    hide Less;
    var q := Emplace(rest, e);
    var r := [first] + q;
    forall j | 0 < j < |r|
      ensures Less(r[0].k, r[j].k)
    {
      assert r[j] == q[j - 1] && q[j - 1] in q;
      if q[j - 1] in rest {
        var i :| 0 <= i < |rest| && rest[i] == q[j - 1];
        var all := [first] + rest;
        assert all[0] == first && all[i + 1] == rest[i];
        assert Less(all[0].k, all[i + 1].k);
      }
    }
    if HasKey(rest, e.k) {
      var x :| x in rest && x.k == e.k;
      assert x in [first] + rest;
    }
  }

  lemma FirstComes(t: ScaleType, es: seq<Entry>, e: Entry)
    requires es != [] && Ordered(es) && KeysTyped(t, es) && HasType(t, e.k) && Less(e.k, es[0].k)
    ensures Ordered([e] + es) && !HasKey(es, e.k)
  {
    hide Less, HasType;
    forall i | 0 <= i < |es|
      ensures Less(e.k, es[i].k) && e.k != es[i].k
    {
      TotalOrder(t, e.k, es[0].k, es[i].k);
      TotalOrder(t, e.k, e.k, e.k);
    }
  }

  // ---- Reading a map ----

  /** The pairs as they stand in the stream. */
  function ReadEntries(t: ScaleType, n: nat, s: Bytes): Option<(seq<Entry>, Bytes)>
    requires t.Map?
    decreases n
  {
    if n == 0 then Some(([], s))
    else
      var k :- Decode(t.key, s);
      var v :- Decode(t.val, k.1);
      var tail :- ReadEntries(t, n - 1, v.1);
      Some(([Entry(k.0, v.0)] + tail.0, tail.1))
  }

  function EmplaceAll(es: seq<Entry>, more: seq<Entry>): seq<Entry>
    decreases |more|
  {
    if more == [] then es else EmplaceAll(Emplace(es, more[0]), more[1..])
  }

  /** Decoding a map reads all pairs and emplaces them one by one. */
  lemma {:induction false} DecodeEmplacesAll(t: ScaleType, n: nat, s: Bytes, acc: seq<Entry>)
    requires t.Map?
    ensures DecodeEntries(t, n, s, acc) ==
            var r := ReadEntries(t, n, s);
            if r.None? then None else Some((EmplaceAll(acc, r.value.0), r.value.1))
    decreases n
  {
    hide Decode, Emplace;
    if n > 0 && Decode(t.key, s).Some? {
      var k := Decode(t.key, s).value;
      if Decode(t.val, k.1).Some? {
        var v := Decode(t.val, k.1).value;
        DecodeEmplacesAll(t, n - 1, v.1, Emplace(acc, Entry(k.0, v.0)));
      }
    }
  }

  /** `x` is in the list, and no pair before it has its key. */
  ghost predicate First(more: seq<Entry>, x: Entry) {
    more != [] && (more[0] == x || (more[0].k != x.k && First(more[1..], x)))
  }

  /** The map read: in key order, and for every key the pair read first. */
  lemma {:induction false} FirstWins(t: ScaleType, es: seq<Entry>, more: seq<Entry>)
    requires Ordered(es) && KeysTyped(t, es) && KeysTyped(t, more)
    ensures var r := EmplaceAll(es, more);
            && Ordered(r) && KeysTyped(t, r) && |r| <= |es| + |more|
            && forall x :: x in r <==> x in es || (First(more, x) && !HasKey(es, x.k))
    decreases |more|
  {
    hide Emplace, HasType, Ordered, HasKey;
    if more != [] {
      var e, next := more[0], Emplace(es, more[0]);
      EmplaceKeeps(t, es, e);
      FirstWins(t, next, more[1..]);
      forall x
        ensures x in EmplaceAll(es, more) <==> x in es || (First(more, x) && !HasKey(es, x.k))
      {
        KeysAfter(es, next, e, x.k);
        if x in es {
          KeysOf(es, x);
        }
      }
    }
  }

  lemma KeysAfter(es: seq<Entry>, next: seq<Entry>, e: Entry, k: ScaleValue)
    requires forall x :: x in next <==> x in es || (x == e && !HasKey(es, e.k))
    ensures HasKey(next, k) <==> HasKey(es, k) || e.k == k
  {
    if HasKey(es, k) {
      var x :| x in es && x.k == k;
      assert x in next;
    } else if e.k == k {
      assert e in next;
    }
  }

  lemma KeysOf(es: seq<Entry>, x: Entry)
    requires x in es
    ensures HasKey(es, x.k)
  {
  }

  lemma {:induction false} FirstIsRead(more: seq<Entry>, x: Entry)
    requires First(more, x)
    ensures x in more
  {
    if more[0] != x {
      FirstIsRead(more[1..], x);
    }
  }
}
