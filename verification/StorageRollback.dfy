/** Writes, the undo log a recorder keeps of them, and what rolling it back
    restores (libstorage/StateStorage.h and .cpp). */
module StorageRollback {
  import opened Wrappers
  import opened StorageLayers

  /** A logged write: the entry it replaced, or None for a new key. */
  datatype Change = Change(k: Key, entry: Option<Entry>)

  // ---- Writes ----

  function Lookup(data: Data, k: Key): Option<Entry> {
    if k in data then Some(data[k]) else None
  }

  /** asyncSetRow on a writable layer: a PURGED entry forgets the key. */
  function AfterSet(data: Data, k: Key, e: Entry): Data {
    if e.status == PURGED then data - {k} else data[k := e]
  }

  /** What it logs: purging an unknown key is not a change. */
  function Logged(data: Data, k: Key, e: Entry): seq<Change> {
    if e.status == PURGED && k !in data then [] else [Change(k, Lookup(data, k))]
  }

  // ---- Rollback ----

  /** One step of rollback; None stands for "Not found rollback entry". */
  function UndoOne(data: Data, c: Change): Option<Data> {
    if c.entry.Some? then Some(data[c.k := c.entry.value])
    else if c.k in data then Some(data - {c.k})
    else None
  }

  /** rollback: the log holds the newest change first. */
  function Undo(data: Data, log: seq<Change>): Option<Data>
    decreases |log|
  {
    if log == [] then Some(data)
    else
      var d :- UndoOne(data, log[0]);
      Undo(d, log[1..])
  }

  lemma {:induction false} UndoConcat(data: Data, newer: seq<Change>, older: seq<Change>)
    requires Undo(data, newer).Some?
    ensures Undo(data, newer + older) == Undo(Undo(data, newer).value, older)
    decreases |newer|
  {
    if newer == [] {
      assert newer + older == older;
    } else {
      assert (newer + older)[1..] == newer[1..] + older;
      UndoConcat(UndoOne(data, newer[0]).value, newer[1..], older);
    }
  }

  /** What replaying a log leaves at a key: what the oldest item on that key
      holds, or else what was there. */
  ghost function Undone(data: Data, log: seq<Change>, k: Key): Option<Entry>
    decreases |log|
  {
    if log == [] then Lookup(data, k)
    else
      var front, last := log[..|log| - 1], log[|log| - 1];
      if last.k == k then last.entry else Undone(data, front, k)
  }

  /** The log can be replayed: wherever it says that a key was new, the items
      replayed before leave that key present. */
  ghost predicate Replayable(data: Data, log: seq<Change>) {
    forall i :: 0 <= i < |log| && log[i].entry.None? ==> Undone(data, log[..i], log[i].k).Some?
  }

  lemma {:induction false} UndoLast(data: Data, log: seq<Change>)
    requires log != []
    ensures Undo(data, log) ==
            var d := Undo(data, log[..|log| - 1]); if d.None? then None else UndoOne(d.value, log[|log| - 1])
    decreases |log|
  {
    if |log| > 1 {
      var front := log[..|log| - 1];
      assert front[1..] == log[1..][..|log| - 2];
      var d := UndoOne(data, log[0]);
      if d.Some? {
        UndoLast(d.value, log[1..]);
      }
    }
  }

  /** Rollback throws exactly if the log is not replayable, and otherwise leaves
      at every key what the oldest change to it recorded. */
  lemma {:induction false} UndoIff(data: Data, log: seq<Change>)
    ensures Undo(data, log).Some? <==> Replayable(data, log)
    ensures Undo(data, log).Some? ==> forall k :: Lookup(Undo(data, log).value, k) == Undone(data, log, k)
    decreases |log|
  {
    if log != [] {
      var n := |log| - 1;
      var front := log[..n];
      UndoIff(data, front);
      UndoLast(data, log);
      assert forall i :: 0 <= i < n ==> front[i] == log[i] && front[..i] == log[..i];
      assert Replayable(data, log) <==>
             Replayable(data, front) && (log[n].entry.None? ==> Undone(data, front, log[n].k).Some?);
    }
  }

  // ---- Runs under recorders ----

  /** What a client does with the top layer while a recorder is set. A scope
      sets a fresh recorder, runs its body, rolls that recorder back and puts
      the outer one in place again. */
  datatype Op =
    | Set(k: Key, e: Entry)
    | Get(ks: seq<Key>)
    | Scope(body: seq<Op>)

  /** The layers after a run and what the current recorder has gained, newest
      change first; None when a rollback throws. */
  datatype Outcome = Outcome(ls: seq<Layer>, log: seq<Change>)

  function Perform(ls: seq<Layer>, op: Op): Option<Outcome>
    requires ls != []
    decreases op, 0
  {
    match op
    case Set(k, e) =>
      if ls[0].readOnly then Some(Outcome(ls, []))
      else Some(Outcome(ls[0 := ls[0].(data := AfterSet(ls[0].data, k, e))], Logged(ls[0].data, k, e)))
    case Get(ks) => Some(Outcome(AfterReads(ls, KeySet(ks)), []))
    case Scope(body) =>
      var inner :- PerformAll(ls, body);
      if inner.ls == [] then None
      else
        var d :- Undo(inner.ls[0].data, inner.log);
        Some(Outcome(inner.ls[0 := inner.ls[0].(data := d)], []))
  }

  function PerformAll(ls: seq<Layer>, ops: seq<Op>): Option<Outcome>
    requires ls != []
    decreases ops, 1
  {
    if ops == [] then Some(Outcome(ls, []))
    else
      var first :- Perform(ls, ops[0]);
      if first.ls == [] then None
      else
        var rest :- PerformAll(first.ls, ops[1..]);
        Some(Outcome(rest.ls, rest.log + first.log))
  }

  /** `d` is `base` plus clean copies of entries the layers below hold. */
  ghost predicate Extends(base: Data, d: Data, below: seq<Layer>) {
    && (forall k :: k in base ==> k in d && d[k] == base[k])
    && (forall k :: k in d && k !in base ==>
          d[k].status == NORMAL && !d[k].dirty && View(below, k) == Some(d[k].value))
  }

  ghost predicate SameViews(a: seq<Layer>, b: seq<Layer>) {
    forall k :: View(a, k) == View(b, k)
  }

  lemma ExtendsTransitive(a: Data, b: Data, c: Data, below: seq<Layer>)
    requires Extends(a, b, below) && Extends(b, c, below)
    ensures Extends(a, c, below)
  {
  }

  /** Undoing a write, with clean imports in between, leaves only clean
      imports behind and never throws. */
  lemma UndoSet(data: Data, k: Key, e: Entry, d: Data, below: seq<Layer>)
    requires Extends(AfterSet(data, k, e), d, below)
    ensures Undo(d, Logged(data, k, e)).Some?
    ensures Extends(data, Undo(d, Logged(data, k, e)).value, below)
  {
    var log := Logged(data, k, e);
    if log == [] {
      assert AfterSet(data, k, e) == data;
    } else {
      var one := UndoOne(d, log[0]);
      assert one.Some?;
      assert log[1..] == [];
      assert Undo(d, log) == Undo(one.value, []);
    }
  }

  lemma ReadsExtend(ls: seq<Layer>, ks: set<Key>)
    requires ls != []
    ensures Extends(ls[0].data, AfterReads(ls, ks)[0].data, ls[1..])
    ensures SameViews(AfterReads(ls, ks)[1..], ls[1..])
    ensures AfterReads(ls, ks)[0].readOnly == ls[0].readOnly
  {
    forall k
      ensures View(AfterReads(ls, ks)[1..], k) == View(ls[1..], k)
    {
      ReadsKeepEveryView(ls, ks, 1, k);
      ReadIsView(ls[1..], k);
    }
    forall k | k in Imports(ls, ks)
      ensures View(ls[1..], k) == Some(Imports(ls, ks)[k].value) && Imports(ls, ks)[k].status == NORMAL
    {
      ReadIsView(ls[1..], k);
    }
  }

  /** What a run leaves behind can be undone: rolling its log back from its
      final store, or from one with more clean imports, gives the first store
      with clean imports. */
  ghost predicate Undoable(ls: seq<Layer>, o: Outcome) {
    && |o.ls| == |ls| > 0
    && SameViews(o.ls[1..], ls[1..])
    && forall d :: Extends(o.ls[0].data, d, ls[1..]) ==>
         Undo(d, o.log).Some? && Extends(ls[0].data, Undo(d, o.log).value, ls[1..])
  }

  lemma {:induction false} PerformUndoable(ls: seq<Layer>, op: Op)
    requires ls != []
    ensures Perform(ls, op).Some? && Undoable(ls, Perform(ls, op).value)
    decreases op, 0
  {
    match op
    case Set(k, e) =>
      var o := Perform(ls, op).value;
      forall d | Extends(o.ls[0].data, d, ls[1..])
        ensures Undo(d, o.log).Some? && Extends(ls[0].data, Undo(d, o.log).value, ls[1..])
      {
        if !ls[0].readOnly {
          UndoSet(ls[0].data, k, e, d, ls[1..]);
        }
      }
    case Get(ks) =>
      var o := Perform(ls, op).value;
      ReadsExtend(ls, KeySet(ks));
      forall d | Extends(o.ls[0].data, d, ls[1..])
        ensures Undo(d, o.log).Some? && Extends(ls[0].data, Undo(d, o.log).value, ls[1..])
      {
        ExtendsTransitive(ls[0].data, o.ls[0].data, d, ls[1..]);
      }
    case Scope(body) =>
      PerformAllUndoable(ls, body);
      ScopeUndoable(ls, body);
  }

  lemma ScopeUndoable(ls: seq<Layer>, body: seq<Op>)
    requires ls != [] && PerformAll(ls, body).Some? && Undoable(ls, PerformAll(ls, body).value)
    ensures Perform(ls, Scope(body)).Some? && Undoable(ls, Perform(ls, Scope(body)).value)
  {
    var inner := PerformAll(ls, body).value;
    assert Extends(inner.ls[0].data, inner.ls[0].data, ls[1..]);
    var o := Perform(ls, Scope(body)).value;
    assert o.ls[1..] == inner.ls[1..];
    forall d | Extends(o.ls[0].data, d, ls[1..])
      ensures Undo(d, o.log).Some? && Extends(ls[0].data, Undo(d, o.log).value, ls[1..])
    {
      ExtendsTransitive(ls[0].data, o.ls[0].data, d, ls[1..]);
    }
  }

  lemma {:induction false} PerformAllUndoable(ls: seq<Layer>, ops: seq<Op>)
    requires ls != []
    ensures PerformAll(ls, ops).Some? && Undoable(ls, PerformAll(ls, ops).value)
    decreases ops, 1
  {
    if ops != [] {
      PerformUndoable(ls, ops[0]);
      var first := Perform(ls, ops[0]).value;
      PerformAllUndoable(first.ls, ops[1..]);
      var rest := PerformAll(first.ls, ops[1..]).value;
      SequenceUndoable(ls, first, rest);
    }
  }

  lemma SequenceUndoable(ls: seq<Layer>, first: Outcome, rest: Outcome)
    requires Undoable(ls, first) && Undoable(first.ls, rest)
    ensures Undoable(ls, Outcome(rest.ls, rest.log + first.log))
  {
    forall d | Extends(rest.ls[0].data, d, ls[1..])
      ensures Undo(d, rest.log + first.log).Some?
      ensures Extends(ls[0].data, Undo(d, rest.log + first.log).value, ls[1..])
    {
      assert Extends(rest.ls[0].data, d, first.ls[1..]);
      UndoConcat(d, rest.log, first.log);
      var e := Undo(d, rest.log).value;
      assert Extends(first.ls[0].data, e, ls[1..]);
    }
  }

  /** The layers after the run and the rollback of its recorder. */
  ghost function RolledBack(ls: seq<Layer>, ops: seq<Op>): seq<Layer>
    requires ls != []
  {
    PerformAllUndoable(ls, ops);
    var o := PerformAll(ls, ops).value;
    assert Extends(o.ls[0].data, o.ls[0].data, ls[1..]);
    o.ls[0 := o.ls[0].(data := Undo(o.ls[0].data, o.log).value)]
  }

  /** Rollback never throws, gives every key of the top store its first entry
      back and leaves only clean imports beside them, so that the view of every
      key is what it was; inner recorders may have come and gone. */
  lemma RollbackRestores(ls: seq<Layer>, ops: seq<Op>)
    requires ls != []
    ensures var o := PerformAll(ls, ops); o.Some? && o.value.ls != [] && Undo(o.value.ls[0].data, o.value.log).Some?
    ensures RolledBack(ls, ops) != []
    ensures Extends(ls[0].data, RolledBack(ls, ops)[0].data, ls[1..])
    ensures SameViews(RolledBack(ls, ops), ls)
  {
    PerformAllUndoable(ls, ops);
    var o := PerformAll(ls, ops).value;
    assert Extends(o.ls[0].data, o.ls[0].data, ls[1..]);
    var r := RolledBack(ls, ops);
    assert r[1..] == o.ls[1..];
    forall k
      ensures View(r, k) == View(ls, k)
    {
      assert View(r[1..], k) == View(ls[1..], k);
    }
  }

  /** Writes the current recorder does not see can break this. After a write it
      saw and one it did not see, rolling back throws exactly if the first made
      the key appear and the second purged it. */
  lemma UnseenWriteIff(data: Data, k: Key, e: Entry, unseen: Key, other: Entry)
    ensures Undo(AfterSet(AfterSet(data, k, e), unseen, other), Logged(data, k, e)).None? <==>
            k !in data && e.status != PURGED && unseen == k && other.status == PURGED
  {
    var d, log := AfterSet(AfterSet(data, k, e), unseen, other), Logged(data, k, e);
    UndoIff(d, log);
    if log != [] {
      assert log[..0] == [];
    }
  }

  // ---- What a write does ----

  /** What a key shows when an entry was written to it last: a purge uncovers
      the layers below. */
  function Shown(e: Entry, below: Option<string>): Option<string> {
    match e.status
    case NORMAL => Some(e.value)
    case DELETED => None
    case PURGED => below
  }

  /** A write is seen at its key and nowhere else; a read-only layer refuses. */
  lemma WriteSeen(ls: seq<Layer>, k: Key, e: Entry, other: Key)
    requires ls != []
    ensures Perform(ls, Set(k, e)).Some? && Perform(ls, Set(k, e)).value.ls != []
    ensures var after := Perform(ls, Set(k, e)).value.ls;
            && View(after, other) ==
               (if ls[0].readOnly || other != k then View(ls, other) else Shown(e, View(ls[1..], k)))
            && after[1..] == ls[1..] && after[0].readOnly == ls[0].readOnly
  {
  }

  /** The last write to a key that was not rolled back: what inner recorders
      saw was. */
  function LastWrite(ops: seq<Op>, k: Key): Option<Entry>
    decreases |ops|
  {
    if ops == [] then None
    else
      var later := LastWrite(ops[1..], k);
      if later.Some? then later
      else if ops[0].Set? && ops[0].k == k then Some(ops[0].e)
      else None
  }

  /** One operation: what it shows at a key, and what it leaves alone. */
  lemma OpSeen(ls: seq<Layer>, op: Op, k: Key)
    requires ls != []
    ensures Perform(ls, op).Some? && Perform(ls, op).value.ls != []
    ensures var after := Perform(ls, op).value.ls;
            && after[0].readOnly == ls[0].readOnly && View(after[1..], k) == View(ls[1..], k)
            && View(after, k) ==
               if op.Set? && op.k == k && !ls[0].readOnly then Shown(op.e, View(ls[1..], k)) else View(ls, k)
  {
    match op
    case Set(key, e) => WriteSeen(ls, key, e, k);
    case Get(ks) =>
      ReadsExtend(ls, KeySet(ks));
      ReadsKeepView(ls, KeySet(ks), k);
    case Scope(body) =>
      RollbackRestores(ls, body);
      PerformAllUndoable(ls, body);
      ScopeKeepsFlag(ls, body);
      assert Perform(ls, op).value.ls == RolledBack(ls, body);
      assert RolledBack(ls, body)[1..] == PerformAll(ls, body).value.ls[1..];
  }

  lemma {:induction false} ScopeKeepsFlag(ls: seq<Layer>, ops: seq<Op>)
    requires ls != []
    ensures PerformAll(ls, ops).Some? && PerformAll(ls, ops).value.ls != []
    ensures PerformAll(ls, ops).value.ls[0].readOnly == ls[0].readOnly
    decreases ops, 1
  {
    PerformAllUndoable(ls, ops);
    if ops != [] {
      FlagKept(ls, ops[0]);
      ScopeKeepsFlag(Perform(ls, ops[0]).value.ls, ops[1..]);
    }
  }

  lemma {:induction false} FlagKept(ls: seq<Layer>, op: Op)
    requires ls != []
    ensures Perform(ls, op).Some? && Perform(ls, op).value.ls != []
    ensures Perform(ls, op).value.ls[0].readOnly == ls[0].readOnly
    decreases op, 0
  {
    PerformUndoable(ls, op);
    match op
    case Scope(body) => ScopeKeepsFlag(ls, body);
    case Get(ks) => ReadsExtend(ls, KeySet(ks));
    case Set(_, _) =>
  }

  /** After any run, a key shows the last write to it that was not rolled back,
      or else what it showed before. */
  lemma {:induction false} RunShowsLastWrite(ls: seq<Layer>, ops: seq<Op>, k: Key)
    requires ls != []
    ensures PerformAll(ls, ops).Some? && PerformAll(ls, ops).value.ls != []
    ensures var after := PerformAll(ls, ops).value.ls;
            && View(after[1..], k) == View(ls[1..], k)
            && View(after, k) ==
               var last := LastWrite(ops, k);
               if last.None? || ls[0].readOnly then View(ls, k) else Shown(last.value, View(ls[1..], k))
    decreases |ops|
  {
    hide Perform, View;
    PerformAllUndoable(ls, ops);
    if ops != [] {
      OpSeen(ls, ops[0], k);
      RunShowsLastWrite(Perform(ls, ops[0]).value.ls, ops[1..], k);
    }
  }

  /** And a read returns it. */
  lemma ReadReturnsLastWrite(ls: seq<Layer>, ops: seq<Op>, k: Key)
    requires ls != [] && !ls[0].readOnly && LastWrite(ops, k).Some?
    requires LastWrite(ops, k).value.status == NORMAL
    ensures var o := PerformAll(ls, ops);
            o.Some? && Read(o.value.ls, k).Some? && Read(o.value.ls, k).value.value == LastWrite(ops, k).value.value
  {
    RunShowsLastWrite(ls, ops, k);
    ReadIsView(PerformAll(ls, ops).value.ls, k);
  }
}
