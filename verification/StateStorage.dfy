/** The storage object: a write-back layer over an optional previous one, with
    a recorder of changes (libstorage/StateStorage.h and .cpp). Calls are
    atomic steps and callbacks run at once. */
module StateStorageObject {
  import opened Wrappers
  import opened StorageLayers
  import opened StorageRollback
  import opened StorageKeys
  import opened StorageHash

  class Recoder {
    var changes: seq<Change>

    constructor ()
      ensures changes == []
    {
      changes := [];
    }

    /** The newest change goes to the front. */
    method Log(c: Change)
      modifies this
      ensures changes == [c] + old(changes)
    {
      changes := [c] + changes;
    }
  }

  datatype SetError = NoError | ReadOnlyError

  /** The layers of a chain of storage objects. */
  function LayersOf(chain: seq<StateStorage>): (ls: seq<Layer>)
    reads chain`data, chain`readOnly, chain`enableTraverse
    ensures |ls| == |chain|
  {
    if chain == [] then []
    else [Layer(chain[0].data, chain[0].readOnly, chain[0].enableTraverse)] + LayersOf(chain[1..])
  }

  // ---- The batches of asyncGetRows ----

  /** Each position holds what the layer's own data says. */
  ghost predicate Answered(data: Data, ks: seq<Key>, results: seq<Option<Entry>>) {
    && |results| == |ks|
    && forall i :: 0 <= i < |ks| ==>
         results[i] == if ks[i] in data && data[ks[i]].status == NORMAL then Some(data[ks[i]]) else None
  }

  ghost predicate Increasing(indexes: seq<nat>) {
    forall i, j :: 0 <= i < j < |indexes| ==> indexes[i] < indexes[j]
  }

  /** The positions of unknown keys, in order. */
  ghost predicate Listed(data: Data, ks: seq<Key>, missing: seq<Key>, indexes: seq<nat>) {
    && |missing| == |indexes| && Increasing(indexes)
    && (forall j :: 0 <= j < |missing| ==>
          indexes[j] < |ks| && missing[j] == ks[indexes[j]] && missing[j] !in data)
    && (forall i :: 0 <= i < |ks| && ks[i] !in data ==> i in indexes)
  }

  lemma ListedStep(data: Data, ks: seq<Key>, k: Key, missing: seq<Key>, indexes: seq<nat>)
    requires Listed(data, ks, missing, indexes)
    ensures k in data ==> Listed(data, ks + [k], missing, indexes)
    ensures k !in data ==> Listed(data, ks + [k], missing + [k], indexes + [|ks|])
  {
  }

  lemma MissingKeys(data: Data, ks: seq<Key>, missing: seq<Key>, indexes: seq<nat>)
    requires Listed(data, ks, missing, indexes)
    ensures forall k :: k in missing <==> k in ks && k !in data
  {
    forall k | k in ks && k !in data
      ensures k in missing
    {
      var i :| 0 <= i < |ks| && ks[i] == k;
      var j :| 0 <= j < |indexes| && indexes[j] == i;
      assert missing[j] == k;
    }
  }

  /** The entries from below stand at their positions, clean when imported. */
  ghost predicate Filled(readOnly: bool, entries: seq<Option<Entry>>, indexes: seq<nat>,
                         local: seq<Option<Entry>>, results: seq<Option<Entry>>) {
    && |results| == |local| && |entries| == |indexes|
    && (forall i :: 0 <= i < |local| && i !in indexes ==> results[i] == local[i])
    && (forall j :: 0 <= j < |indexes| && indexes[j] < |local| ==>
          results[indexes[j]] ==
          if entries[j].None? then local[indexes[j]]
          else Some(if readOnly then entries[j].value else Clean(entries[j].value)))
  }

  lemma FilledNone(readOnly: bool, entries: seq<Option<Entry>>, indexes: seq<nat>, local: seq<Option<Entry>>)
    requires |entries| == |indexes|
    ensures Filled(readOnly, entries[..0], indexes[..0], local, local)
  {
  }

  lemma FilledStep(readOnly: bool, entries: seq<Option<Entry>>, indexes: seq<nat>, local: seq<Option<Entry>>,
                   results: seq<Option<Entry>>, i: nat)
    requires |entries| == |indexes| && i < |indexes| && indexes[i] < |local| && Increasing(indexes)
    requires Filled(readOnly, entries[..i], indexes[..i], local, results)
    ensures |results| == |local|
    ensures var r := if entries[i].None? then results
                     else results[indexes[i] := Some(if readOnly then entries[i].value else Clean(entries[i].value))];
            Filled(readOnly, entries[..i + 1], indexes[..i + 1], local, r)
  {
    var at := indexes[i];
    assert indexes[..i + 1] == indexes[..i] + [at] && entries[..i + 1] == entries[..i] + [entries[i]];
    assert at !in indexes[..i];
    assert results[at] == local[at];
    var r := if entries[i].None? then results
             else results[at := Some(if readOnly then entries[i].value else Clean(entries[i].value))];
    var ps, es := indexes[..i + 1], entries[..i + 1];
    forall j | 0 <= j < |ps| && ps[j] < |local|
      ensures r[ps[j]] ==
              if es[j].None? then local[ps[j]] else Some(if readOnly then es[j].value else Clean(es[j].value))
    {
      if j < i {
        assert ps[j] == indexes[..i][j] && es[j] == entries[..i][j];
      }
    }
  }

  /** Nothing to ask below: the local answers are the reads. */
  lemma LocalAnswers(ls: seq<Layer>, ks: seq<Key>, missing: seq<Key>, local: seq<Option<Entry>>)
    requires ls != [] && Answered(ls[0].data, ks, local) && (missing == [] || |ls| == 1)
    requires forall k :: k in missing <==> k in ks && k !in ls[0].data
    ensures AfterReads(ls, KeySet(ks)) == ls
    ensures forall i :: 0 <= i < |ks| ==> local[i] == Read(ls, ks[i])
  {
    if missing == [] {
      assert KeySet(ks) <= ls[0].data.Keys;
      KnownRead(ls, KeySet(ks));
    } else {
      assert ls[1..] == [];
      assert ls[0].data + Imports(ls, KeySet(ks)) == ls[0].data;
      assert ls == [ls[0]];
    }
  }

  /** The batch answers are the reads. */
  lemma BatchAnswers(ls: seq<Layer>, ks: seq<Key>, local: seq<Option<Entry>>, missing: seq<Key>, indexes: seq<nat>,
                     entries: seq<Option<Entry>>, results: seq<Option<Entry>>)
    requires ls != [] && Answered(ls[0].data, ks, local) && Listed(ls[0].data, ks, missing, indexes)
    requires |entries| == |missing| && forall j :: 0 <= j < |missing| ==> entries[j] == Read(ls[1..], missing[j])
    requires Filled(ls[0].readOnly, entries, indexes, local, results)
    ensures |results| == |ks| && forall i :: 0 <= i < |ks| ==> results[i] == Read(ls, ks[i])
  {
    assert forall j :: 0 <= j < |indexes| ==> ks[indexes[j]] !in ls[0].data;
    forall i | 0 <= i < |ks|
      ensures results[i] == Read(ls, ks[i])
    {
      if ks[i] in ls[0].data {
        assert i !in indexes;
      } else {
        var j :| 0 <= j < |indexes| && indexes[j] == i;
        assert entries[j] == Read(ls[1..], ks[i]);
      }
    }
  }

  class StateStorage {
    var data: Data
    var readOnly: bool
    var enableTraverse: bool
    var prev: StateStorage?
    var recoder: Recoder?
    // this storage and the ones below it
    ghost var chain: seq<StateStorage>

    ghost predicate Valid()
      reads this`chain, chain`prev, chain`chain
      decreases |chain|
    {
      && chain != [] && chain[0] == this && this !in chain[1..]
      && (prev == null ==> chain == [this])
      && (prev != null ==> |chain| > 1 && prev == chain[1] && prev.chain == chain[1..] && prev.Valid())
    }

    ghost function Layers(): seq<Layer>
      reads this`chain, chain`data, chain`readOnly, chain`enableTraverse
    {
      LayersOf(chain)
    }

    constructor (below: StateStorage?)
      requires below != null ==> below.Valid()
      ensures Valid() && prev == below && data == map[] && !readOnly && !enableTraverse && recoder == null
      ensures chain == [this] + if below == null then [] else below.chain
    {
      data, readOnly, enableTraverse, prev, recoder := map[], false, false, below, null;
      chain := [this] + if below == null then [] else below.chain;
    }

    lemma PrevValid()
      requires Valid() && prev != null
      ensures |chain| > 1 && prev.Valid() && prev.chain == chain[1..] && this !in prev.chain
      ensures prev.Layers() == Layers()[1..]
    {
    }

    /** importExistingEntry: keep a clean copy unless the key is already there
        or the layer is read-only. */
    method ImportExistingEntry(k: Key, e: Entry) returns (r: Entry)
      modifies this`data
      ensures readOnly ==> r == e && data == old(data)
      ensures !readOnly ==> data == (if k in old(data) then old(data) else old(data)[k := Clean(e)]) && r == data[k]
    {
      if readOnly {
        return e;
      }
      if k !in data {
        data := data[k := Clean(e)];
      }
      r := data[k];
    }

    /** Read a key from the previous layer. */
    method GetRowBelow(k: Key) returns (r: Option<Entry>)
      requires Valid() && prev != null
      modifies chain[1..]`data
      ensures Valid() && data == old(data)
      ensures Layers() == [old(Layers())[0]] + AfterReads(old(Layers())[1..], {k})
      ensures r == Read(old(Layers())[1..], k)
      decreases |chain|, 0
    {
      hide Read, AfterReads;
      PrevValid();
      r := prev.GetRow(k);
      assert Layers() == [old(Layers())[0]] + LayersOf(prev.chain);
    }

    method GetRow(k: Key) returns (r: Option<Entry>)
      requires Valid()
      modifies chain`data
      ensures Valid() && Layers() == AfterReads(old(Layers()), {k})
      ensures r == Read(old(Layers()), k)
      decreases |chain|, 1
    {
      ghost var ls := Layers();
      if k in data {
        KnownRead(ls, {k});
        return if data[k].status != NORMAL then None else Some(data[k]);
      }
      MissedRead(ls, k);
      NoLayers(k);
      hide Read, AfterReads;
      if prev == null {
        assert ls[1..] == [];
        return None;
      }
      r := GetRowBelow(k);
      if r.Some? {
        ghost var below := LayersOf(chain[1..]);
        assert below == Layers()[1..] == AfterReads(ls[1..], {k});
        var e := ImportExistingEntry(k, r.value);
        r := Some(e);
        assert Layers() == [Layer(data, readOnly, enableTraverse)] + below;
      }
    }

    /** The first loop of asyncGetRows: answer what this layer knows, list the
        rest with their positions. */
    method FindLocal(ks: seq<Key>)
      returns (results: seq<Option<Entry>>, missing: seq<Key>, indexes: seq<nat>)
      ensures Answered(data, ks, results) && Listed(data, ks, missing, indexes)
    {
      results, missing, indexes := [], [], [];
      for i := 0 to |ks|
        invariant Answered(data, ks[..i], results) && Listed(data, ks[..i], missing, indexes)
      {
        var k := ks[i];
        ListedStep(data, ks[..i], k, missing, indexes);
        assert ks[..i + 1] == ks[..i] + [k];
        if k in data {
          results := results + [if data[k].status == NORMAL then Some(data[k]) else None];
        } else {
          results := results + [None];
          missing := missing + [k];
          indexes := indexes + [i];
        }
      }
      assert ks[..|ks|] == ks;
    }

    /** The last loop of asyncGetRows: import what came from below. */
    method ImportAll(ghost ls: seq<Layer>, missing: seq<Key>, entries: seq<Option<Entry>>, indexes: seq<nat>,
                     local: seq<Option<Entry>>) returns (results: seq<Option<Entry>>)
      requires ls != [] && ls[0].data == data && ls[0].readOnly == readOnly
      requires |missing| == |entries| == |indexes|
      requires forall j :: 0 <= j < |missing| ==>
                 missing[j] !in data && entries[j] == Read(ls[1..], missing[j]) && indexes[j] < |local|
      requires Increasing(indexes)
      modifies this`data
      ensures data == old(data) + Imports(ls, KeySet(missing))
      ensures Filled(readOnly, entries, indexes, local, results)
    {
      hide Read, Imports, Filled;
      results := local;
      NoImports(ls);
      FilledNone(readOnly, entries, indexes, local);
      for i := 0 to |missing|
        invariant data == old(data) + Imports(ls, KeySet(missing[..i]))
        invariant Filled(readOnly, entries[..i], indexes[..i], local, results)
      {
        ImportStep(ls, KeySet(missing[..i]), missing[i]);
        assert KeySet(missing[..i + 1]) == KeySet(missing[..i]) + {missing[i]};
        FilledStep(readOnly, entries, indexes, local, results, i);
        if entries[i].Some? {
          var e := ImportExistingEntry(missing[i], entries[i].value);
          results := results[indexes[i] := Some(e)];
        }
      }
      assert missing[..|missing|] == missing && indexes[..|missing|] == indexes && entries[..|missing|] == entries;
    }

    method GetRowsBelow(ks: seq<Key>) returns (r: seq<Option<Entry>>)
      requires Valid() && prev != null
      modifies chain[1..]`data
      ensures Valid() && data == old(data)
      ensures Layers() == [old(Layers())[0]] + AfterReads(old(Layers())[1..], KeySet(ks))
      ensures |r| == |ks| && forall i :: 0 <= i < |ks| ==> r[i] == Read(old(Layers())[1..], ks[i])
      decreases |chain|, 0
    {
      hide Read, AfterReads;
      PrevValid();
      r := prev.GetRows(ks);
      assert Layers() == [old(Layers())[0]] + LayersOf(prev.chain);
    }

    /** Position by position what single reads return, in one pass per layer. */
    method GetRows(ks: seq<Key>) returns (results: seq<Option<Entry>>)
      requires Valid()
      modifies chain`data
      ensures Valid() && Layers() == AfterReads(old(Layers()), KeySet(ks))
      ensures |results| == |ks| && forall i :: 0 <= i < |ks| ==> results[i] == Read(old(Layers()), ks[i])
      decreases |chain|, 1
    {
      hide AfterReads, Read, Imports, Answered, Filled;
      ghost var ls := Layers();
      var local, missing, indexes := FindLocal(ks);
      MissingKeys(data, ks, missing, indexes);
      BatchRead(ls, ks, missing);
      if |missing| == 0 || prev == null {
        LocalAnswers(ls, ks, missing, local);
        return local;
      }
      var entries := GetRowsBelow(missing);
      ghost var below := LayersOf(chain[1..]);
      assert below == Layers()[1..] == AfterReads(ls[1..], KeySet(missing));
      results := ImportAll(ls, missing, entries, indexes, local);
      BatchAnswers(ls, ks, local, missing, indexes, entries, results);
      assert Layers() == [Layer(data, readOnly, enableTraverse)] + below;
    }

    /** asyncSetRow: refused on a read-only layer; otherwise the store changes
        and the recorder learns what was there. */
    method SetRow(k: Key, e: Entry) returns (error: SetError)
      modifies this`data, recoder
      ensures error == if readOnly then ReadOnlyError else NoError
      ensures data == if readOnly then old(data) else AfterSet(old(data), k, e)
      ensures !readOnly ==> (k in data <==> e.status != PURGED) && (k in data ==> data[k] == e)
      ensures recoder != null ==>
                recoder.changes == (if readOnly then [] else Logged(old(data), k, e)) + old(recoder.changes)
    {
      if readOnly {
        return ReadOnlyError;
      }
      var entryOld: Option<Entry> := None;
      if k in data {
        entryOld := Some(data[k]);
        if e.status == PURGED {
          data := data - {k};
        } else {
          data := data[k := e];
        }
      } else {
        if e.status == PURGED {
          assert data - {k} == data;
          return NoError;
        }
        data := data[k := e];
      }
      if recoder != null {
        recoder.Log(Change(k, entryOld));
      }
      error := NoError;
    }

    method SetRecoder(r: Recoder?)
      modifies this`recoder
      ensures recoder == r
    {
      recoder := r;
    }

    /** rollback: replay the log, newest change first; false stands for the
        exception, after which the store is rolled back in part. */
    method Rollback(r: Recoder) returns (ok: bool)
      modifies this`data
      ensures readOnly ==> ok && data == old(data)
      ensures !readOnly ==> (ok <==> Undo(old(data), r.changes).Some?)
      ensures !readOnly && ok ==> data == Undo(old(data), r.changes).value
    {
      if readOnly {
        return true;
      }
      var i := 0;
      while i < |r.changes|
        invariant 0 <= i <= |r.changes|
        invariant Undo(old(data), r.changes) == Undo(data, r.changes[i..])
      {
        var c := r.changes[i];
        assert r.changes[i..][1..] == r.changes[i + 1..];
        if c.entry.Some? {
          data := data[c.k := c.entry.value];
        } else if c.k in data {
          data := data - {c.k};
        } else {
          return false;
        }
        i := i + 1;
      }
      ok := true;
    }

    /** The keys this layer knows in the table, from a walk over its data. */
    method LocalKeys(table: string, cond: Option<seq<Cond>>) returns (local: map<string, Status>)
      ensures local == Local(Layer(data, readOnly, enableTraverse), table, cond)
    {
      local := map[];
      if !enableTraverse {
        return;
      }
      var todo := data.Keys;
      ghost var l := Layer(data, readOnly, enableTraverse);
      while todo != {}
        invariant todo <= data.Keys
        invariant forall key :: key in local <==> Key(table, key) in data.Keys - todo && Accepts(cond, key)
        invariant forall key :: key in local ==> local[key] == data[Key(table, key)].status
        decreases todo
      {
        var k :| k in todo;
        todo := todo - {k};
        if k.table == table {
          var valid := true;
          if cond.Some? {
            valid := IsValid(cond.value, k.key);
          }
          assert k == Key(table, k.key);
          if valid {
            local := local[k.key := data[k].status];
          }
        }
      }
      forall key
        ensures key in local <==> key in Local(l, table, cond)
        ensures key in local ==> local[key] == Local(l, table, cond)[key]
      {
        LocalMeaning(l, table, cond, key);
      }
    }

    /** The loop that takes hidden keys out of the answer from below and known
        ones out of the local map. */
    method Merge(remote: seq<string>, local: map<string, Status>)
      returns (kept: seq<string>, left: map<string, Status>)
      requires NoDuplicates(remote)
      ensures kept == Keep(remote, local)
      ensures left == map key | key in local && key !in remote :: local[key]
    {
      kept, left := [], local;
      for i := 0 to |remote|
        invariant kept == Keep(remote[..i], local)
        invariant left == map key | key in local && key !in remote[..i] :: local[key]
      {
        var key := remote[i];
        assert remote[..i + 1] == remote[..i] + [key];
        assert key !in remote[..i];
        assert remote[..i + 1][..i] == remote[..i];
        if key in left {
          if left[key] == NORMAL {
            kept := kept + [key];
          }
          left := left - {key};
        } else {
          kept := kept + [key];
        }
      }
      assert remote[..|remote|] == remote;
    }

    /** The loop over the rest of the local map, in key order. */
    method AppendSorted(start: seq<string>, left: map<string, Status>) returns (keys: seq<string>)
      ensures keys == start + Sorted(Normals(left))
    {
      hide Sorted, IsLeast;
      keys := start;
      var rest := left;
      while rest != map[]
        invariant start + Sorted(Normals(left)) == keys + Sorted(Normals(rest))
        decreases |rest|
      {
        var key := FirstKey(rest);
        SortedStep(rest, key);
        KeyOf(rest, key);
        if rest[key] == NORMAL {
          keys := keys + [key];
        }
        rest := rest - {key};
      }
      NothingSorted();
    }

    static lemma KeyOf(m: map<string, Status>, key: string)
      requires IsLeast(m.Keys, key)
      ensures key in m && |m - {key}| < |m|
    {
      assert (m - {key}).Keys == m.Keys - {key};
    }

    static lemma NothingSorted()
      ensures Sorted(Normals(map[])) == []
    {
      assert Normals(map[]) == {};
    }

    static method FirstKey(m: map<string, Status>) returns (key: string)
      requires m != map[]
      ensures IsLeast(m.Keys, key)
    {
      key :| key in m;
      var todo := m.Keys - {key};
      while todo != {}
        invariant key in m && todo <= m.Keys
        invariant forall x :: x in m.Keys - todo ==> x == key || StrLess(key, x)
        decreases todo
      {
        var x :| x in todo;
        StrTotal(x, key);
        if StrLess(x, key) {
          forall y | y in m.Keys - todo
            ensures StrLess(x, y)
          {
            if y != key {
              StrTransitive(x, key, y);
            }
          }
          key := x;
        }
        todo := todo - {x};
      }
    }

    method GetPrimaryKeys(table: string, cond: Option<seq<Cond>>) returns (keys: seq<string>)
      requires Valid()
      ensures keys == PrimaryKeys(Layers(), table, cond)
      decreases |chain|
    {
      hide Local, Keep, Sorted, Added, NoDuplicates;
      ghost var ls := Layers();
      var local := LocalKeys(table, cond);
      var remote: seq<string> := [];
      if prev != null {
        PrevValid();
        remote := prev.GetPrimaryKeys(table, cond);
      } else {
        assert ls[1..] == [];
      }
      KeysExact(ls[1..], table, cond);
      var kept, left := Merge(remote, local);
      NormalsLeft(remote, local, left);
      keys := AppendSorted(kept, left);
    }

    /** hash, serial branch: the entries in whatever order the table has. */
    method HashSerial(h: string -> Hash) returns (total: Hash)
      ensures total == StateHash(h, data)
    {
      hide Term, Xor;
      total := Zero();
      var rest := data;
      XorZero(StateHash(h, data));
      while rest != map[]
        invariant Xor(total, StateHash(h, rest)) == StateHash(h, data)
        decreases |rest|
      {
        var k :| k in rest;
        AddTerm(h, rest, k, total);
        total := Xor(total, Term(h, rest[k]));
        rest := rest - {k};
      }
      XorZero(total);
    }

    /** hash, parallel branch: the entries split into ranges, whose exclusive
        ors interleave in any way. */
    method HashParallel(h: string -> Hash, ranges: seq<set<Key>>) returns (total: Hash)
      requires Partition(ranges, data.Keys)
      ensures total == StateHash(h, data)
    {
      hide Term, Xor;
      total := Zero();
      var rest, todo := data, ranges;
      XorZero(StateHash(h, data));
      while rest != map[]
        invariant Partition(todo, rest.Keys)
        invariant Xor(total, StateHash(h, rest)) == StateHash(h, data)
        decreases |rest|
      {
        PickRange(todo, rest.Keys);
        var i :| 0 <= i < |todo| && todo[i] != {};
        var k :| k in todo[i];
        assert k in rest.Keys;
        AddTerm(h, rest, k, total);
        total := Xor(total, Term(h, rest[k]));
        TakeFromRange(todo, rest.Keys, i, k);
        todo := todo[i := todo[i] - {k}];
        rest := rest - {k};
      }
      XorZero(total);
    }

    static lemma NoImports(ls: seq<Layer>)
      requires ls != []
      ensures Imports(ls, KeySet([])) == map[]
    {
    }

    static lemma NoLayers(k: Key)
      ensures Read([], k) == None && AfterReads([], {k}) == []
    {
    }
  }
}
