/** A chain of state storage layers, top first, and what a read of it means
    (libstorage/StateStorage.h and .cpp, interfaces/storage/Entry.h). */
module StorageLayers {
  import opened Wrappers

  datatype Status = NORMAL | DELETED | PURGED

  datatype Entry = Entry(value: string, status: Status, dirty: bool)

  datatype Key = Key(table: string, key: string)

  type Data = map<Key, Entry>

  datatype Layer = Layer(data: Data, readOnly: bool, traverse: bool)

  /** What a key means: the first layer that knows it decides, and only a
      NORMAL entry is a value. */
  function View(ls: seq<Layer>, k: Key): Option<string> {
    if ls == [] then None
    else if k in ls[0].data then
      if ls[0].data[k].status == NORMAL then Some(ls[0].data[k].value) else None
    else View(ls[1..], k)
  }

  function Clean(e: Entry): Entry {
    e.(dirty := false)
  }

  /** The entry a read returns: a writable layer hands out the clean copy it
      imports. */
  function Read(ls: seq<Layer>, k: Key): Option<Entry> {
    if ls == [] then None
    else if k in ls[0].data then
      if ls[0].data[k].status == NORMAL then Some(ls[0].data[k]) else None
    else
      var r := Read(ls[1..], k);
      if r.None? || ls[0].readOnly then r else Some(Clean(r.value))
  }

  /** What the top layer imports when the keys `ks` are read. */
  function Imports(ls: seq<Layer>, ks: set<Key>): (m: Data)
    requires ls != []
    ensures m.Keys !! ls[0].data.Keys
  {
    if ls[0].readOnly then map[]
    else
      map k | k in ks && k !in ls[0].data && Read(ls[1..], k).Some? :: Clean(Read(ls[1..], k).value)
  }

  /** The chain after the keys `ks` have been read: a layer asks the one below
      only for keys it does not know. */
  function AfterReads(ls: seq<Layer>, ks: set<Key>): (r: seq<Layer>)
    ensures |r| == |ls|
  {
    if ls == [] then []
    else [ls[0].(data := ls[0].data + Imports(ls, ks))] + AfterReads(ls[1..], ks - ls[0].data.Keys)
  }

  /** Layer `i` is the first to know the key. */
  ghost predicate Decides(ls: seq<Layer>, k: Key, i: int) {
    0 <= i < |ls| && k in ls[i].data && forall j :: 0 <= j < i ==> k !in ls[j].data
  }

  /** A key has a view exactly if the first layer that knows it holds a NORMAL
      entry, and then it is that entry's value. */
  lemma {:induction false} ViewMeaning(ls: seq<Layer>, k: Key, x: string)
    ensures View(ls, k) == Some(x) <==>
            exists i :: Decides(ls, k, i) && ls[i].data[k].status == NORMAL && ls[i].data[k].value == x
  {
    if ls != [] {
      var rest := ls[1..];
      if k in ls[0].data {
        assert Decides(ls, k, 0);
        assert forall i :: Decides(ls, k, i) ==> i == 0;
      } else {
        ViewMeaning(rest, k, x);
        if i :| Decides(rest, k, i) && rest[i].data[k].status == NORMAL && rest[i].data[k].value == x {
          assert forall j :: 0 < j < i + 1 ==> ls[j] == rest[j - 1];
          assert Decides(ls, k, i + 1);
        }
        if i :| Decides(ls, k, i) && ls[i].data[k].status == NORMAL && ls[i].data[k].value == x {
          assert forall j :: 0 <= j < i ==> rest[j] == ls[j + 1];
          assert Decides(rest, k, i - 1);
        }
      }
    }
  }

  // ---- Reads agree with the view and never change it ----

  lemma {:induction false} ReadIsView(ls: seq<Layer>, k: Key)
    ensures Read(ls, k).Some? <==> View(ls, k).Some?
    ensures Read(ls, k).Some? ==> Read(ls, k).value.status == NORMAL && View(ls, k) == Some(Read(ls, k).value.value)
  {
    if ls != [] && k !in ls[0].data {
      ReadIsView(ls[1..], k);
    }
  }

  lemma {:induction false} ReadsKeepView(ls: seq<Layer>, ks: set<Key>, k: Key)
    ensures View(AfterReads(ls, ks), k) == View(ls, k)
  {
    if ls != [] {
      var after := AfterReads(ls, ks);
      ReadsKeepView(ls[1..], ks - ls[0].data.Keys, k);
      assert after[1..] == AfterReads(ls[1..], ks - ls[0].data.Keys);
      ReadIsView(ls[1..], k);
    }
  }

  /** No read changes the view of any key from any layer down. */
  lemma {:induction false} ReadsKeepEveryView(ls: seq<Layer>, ks: set<Key>, depth: nat, k: Key)
    requires depth <= |ls|
    ensures View(AfterReads(ls, ks)[depth..], k) == View(ls[depth..], k)
  {
    if depth == 0 {
      assert AfterReads(ls, ks)[0..] == AfterReads(ls, ks) && ls[0..] == ls;
      ReadsKeepView(ls, ks, k);
    } else {
      var below := AfterReads(ls[1..], ks - ls[0].data.Keys);
      ReadsKeepEveryView(ls[1..], ks - ls[0].data.Keys, depth - 1, k);
      assert AfterReads(ls, ks)[depth..] == below[depth - 1..] && ls[depth..] == ls[1..][depth - 1..];
    }
  }

  /** A read returns the same entry whatever has been read before. */
  lemma {:induction false} ReadsKeepRead(ls: seq<Layer>, ks: set<Key>, k: Key)
    ensures Read(AfterReads(ls, ks), k) == Read(ls, k)
  {
    if ls != [] {
      ReadsKeepRead(ls[1..], ks - ls[0].data.Keys, k);
      assert AfterReads(ls, ks)[1..] == AfterReads(ls[1..], ks - ls[0].data.Keys);
      ReadIsView(ls[1..], k);
    }
  }

  // ---- Many reads are one ----

  lemma {:induction false} ReadNothing(ls: seq<Layer>)
    ensures AfterReads(ls, {}) == ls
  {
    if ls != [] {
      ReadNothing(ls[1..]);
      assert {} - ls[0].data.Keys == {};
      assert ls[0].data + Imports(ls, {}) == ls[0].data;
      assert ls == [ls[0]] + ls[1..];
    }
  }

  /** Keys the top layer knows are answered there. */
  lemma KnownRead(ls: seq<Layer>, ks: set<Key>)
    requires ls != [] && ks <= ls[0].data.Keys
    ensures AfterReads(ls, ks) == ls
  {
    assert ks - ls[0].data.Keys == {};
    ReadNothing(ls[1..]);
    assert ls[0].data + Imports(ls, ks) == ls[0].data;
    assert ls == [ls[0]] + ls[1..];
  }

  /** A key it does not know is read below and imported. */
  lemma MissedRead(ls: seq<Layer>, k: Key)
    requires ls != [] && k !in ls[0].data
    ensures var below := Read(ls[1..], k);
            Read(ls, k) == (if below.None? || ls[0].readOnly then below else Some(Clean(below.value))) &&
            AfterReads(ls, {k}) ==
            [if below.None? || ls[0].readOnly then ls[0] else ls[0].(data := ls[0].data[k := Clean(below.value)])] +
            AfterReads(ls[1..], {k})
  {
    assert {k} - ls[0].data.Keys == {k};
    var below := Read(ls[1..], k);
    if below.None? || ls[0].readOnly {
      assert ls[0].data + Imports(ls, {k}) == ls[0].data;
    } else {
      assert ls[0].data + Imports(ls, {k}) == ls[0].data[k := Clean(below.value)];
    }
  }

  /** A batch: the keys this layer does not know are read below. */
  lemma BatchRead(ls: seq<Layer>, ks: seq<Key>, missing: seq<Key>)
    requires ls != []
    requires forall k :: k in missing <==> k in ks && k !in ls[0].data
    ensures AfterReads(ls, KeySet(ks)) ==
            [ls[0].(data := ls[0].data + Imports(ls, KeySet(missing)))] + AfterReads(ls[1..], KeySet(missing))
  {
    assert KeySet(ks) - ls[0].data.Keys == KeySet(missing);
    assert Imports(ls, KeySet(ks)) == Imports(ls, KeySet(missing));
  }

  /** A store that holds the imports of `ks` after one more key was read. */
  function WithImport(l: Layer, d: Data, k: Key, r: Option<Entry>): Data {
    if r.None? || l.readOnly || k in d then d else d[k := Clean(r.value)]
  }

  lemma ImportStep(ls: seq<Layer>, ks: set<Key>, k: Key)
    requires ls != [] && k !in ls[0].data
    ensures var d, r := ls[0].data + Imports(ls, ks), Read(ls[1..], k);
            ls[0].data + Imports(ls, ks + {k}) == WithImport(ls[0], d, k, r)
    ensures var d, r := ls[0].data + Imports(ls, ks + {k}), Read(ls[1..], k);
            r.Some? && !ls[0].readOnly ==> k in d && d[k] == Clean(r.value)
  {
    hide Read;
    var d, r := ls[0].data + Imports(ls, ks), Read(ls[1..], k);
    if r.None? || ls[0].readOnly || k in d {
      assert Imports(ls, ks + {k}) == Imports(ls, ks);
    } else {
      assert Imports(ls, ks + {k}) == Imports(ls, ks)[k := Clean(r.value)];
    }
  }

  lemma ImportsUnion(ls: seq<Layer>, xs: set<Key>, ys: set<Key>)
    requires ls != []
    ensures Imports(ls, xs + ys) == Imports(ls, xs) + Imports(ls, ys)
  {
    hide Read;
  }

  /** What the first reading imported is not imported again. */
  lemma ImportsAfter(ls: seq<Layer>, once: seq<Layer>, xs: set<Key>, ys: set<Key>)
    requires ls != [] && once != [] && once[0] == ls[0].(data := ls[0].data + Imports(ls, xs))
    requires forall k :: Read(once[1..], k) == Read(ls[1..], k)
    ensures Imports(once, ys) == Imports(ls, ys) - Imports(ls, xs).Keys
  {
    hide Read;
  }

  lemma ImportsCompose(ls: seq<Layer>, xs: set<Key>, ys: set<Key>)
    requires ls != []
    ensures ls[0].data + Imports(ls, xs) + Imports(AfterReads(ls, xs), ys) == ls[0].data + Imports(ls, xs + ys)
  {
    hide Read, View, Imports;
    var once := AfterReads(ls, xs);
    var a, b := Imports(ls, xs), Imports(ls, ys);
    assert once[1..] == AfterReads(ls[1..], xs - ls[0].data.Keys);
    forall k
      ensures Read(once[1..], k) == Read(ls[1..], k)
    {
      ReadsKeepRead(ls[1..], xs - ls[0].data.Keys, k);
    }
    ImportsAfter(ls, once, xs, ys);
    ImportsUnion(ls, xs, ys);
    ImportsAgree(ls, xs, ys);
    assert ls[0].data + a + (b - a.Keys) == ls[0].data + (a + b);
  }

  lemma ImportsAgree(ls: seq<Layer>, xs: set<Key>, ys: set<Key>)
    requires ls != []
    ensures var a, b := Imports(ls, xs), Imports(ls, ys);
            forall k :: k in a && k in b ==> a[k] == b[k]
  {
    hide Read;
  }

  /** Reading `xs` and then `ys` leaves the stores of reading both at once. */
  lemma {:induction false} ReadsCompose(ls: seq<Layer>, xs: set<Key>, ys: set<Key>)
    ensures AfterReads(AfterReads(ls, xs), ys) == AfterReads(ls, xs + ys)
    decreases |ls|
  {
    if ls != [] {
      var once := AfterReads(ls, xs);
      var rest := AfterReads(ls[1..], xs - ls[0].data.Keys);
      assert once[1..] == rest;
      ImportsCompose(ls, xs, ys);
      RestCompose(ls, xs, ys);
    }
  }

  lemma {:induction false} RestCompose(ls: seq<Layer>, xs: set<Key>, ys: set<Key>)
    requires ls != []
    ensures AfterReads(AfterReads(ls, xs)[1..], ys - AfterReads(ls, xs)[0].data.Keys) ==
            AfterReads(ls[1..], xs + ys - ls[0].data.Keys)
    decreases |ls|, 0
  {
    var dom := ls[0].data.Keys;
    var known := AfterReads(ls, xs)[0].data.Keys;
    assert AfterReads(ls, xs)[1..] == AfterReads(ls[1..], xs - dom);
    assert known == dom + Imports(ls, xs).Keys;
    ReadsCompose(ls[1..], xs - dom, ys - known);
    assert (xs - dom) + (ys - known) == xs + ys - dom;
  }

  function KeySet(ks: seq<Key>): set<Key> {
    set k | k in ks
  }

  /** Single reads, one after the other. */
  function ReadEach(ls: seq<Layer>, ks: seq<Key>): (seq<Layer>, seq<Option<Entry>>)
    decreases |ks|
  {
    if ks == [] then (ls, [])
    else
      var r := ReadEach(AfterReads(ls, {ks[0]}), ks[1..]);
      (r.0, [Read(ls, ks[0])] + r.1)
  }

  /** Single reads, duplicates included, return position by position what the
      untouched chain holds, and leave the stores of one batch. */
  lemma {:induction false} SinglesAreBatch(ls: seq<Layer>, ks: seq<Key>)
    ensures ReadEach(ls, ks).0 == AfterReads(ls, KeySet(ks))
    ensures |ReadEach(ls, ks).1| == |ks|
    ensures forall i :: 0 <= i < |ks| ==> ReadEach(ls, ks).1[i] == Read(ls, ks[i])
    decreases |ks|
  {
    hide Read, AfterReads;
    if ks == [] {
      assert KeySet(ks) == {};
      ReadNothing(ls);
    } else {
      var next := AfterReads(ls, {ks[0]});
      SinglesAreBatch(next, ks[1..]);
      ReadsCompose(ls, {ks[0]}, KeySet(ks[1..]));
      assert {ks[0]} + KeySet(ks[1..]) == KeySet(ks);
      forall i | 0 < i < |ks|
        ensures ReadEach(ls, ks).1[i] == Read(ls, ks[i])
      {
        ReadsKeepRead(ls, {ks[0]}, ks[i]);
        assert ReadEach(ls, ks).1[i] == ReadEach(next, ks[1..]).1[i - 1];
      }
    }
  }
}
