/** The sealing manager as a state machine, and what holds over all its runs
    (libsealer/SealingManager.h and .cpp, Sealer.cpp). Each call and each
    callback is one step. */
module Sealing {
  import opened Wrappers

  type Tx = string

  /** The fields of a SealingManager; time is a yes-or-no answer to "has the
      minimum seal time passed" given to the calls that ask. */
  datatype State = State(
    sealing: int, start: int, end: int, maxTxs: nat, waitUntil: int, current: int,
    unsealed: nat, fetching: bool, pending: seq<Tx>, pendingSys: seq<Tx>)

  datatype Status = Open | Submitted | Discarded

  /** A generated block, with the current number at the time. */
  datatype Proposal = Proposal(number: int, current: int, sys: seq<Tx>, reg: seq<Tx>, status: Status)

  const INITIAL: State := State(-1, 0, 0, 0, 0, 0, 0, false, [], [])

  // ---- The operations ----

  predicate InWindow(s: State) {
    s.start <= s.sealing <= s.end
  }

  function PendingSize(s: State): nat {
    |s.pending| + |s.pendingSys|
  }

  predicate ShouldGenerate(s: State, timeUp: bool) {
    && InWindow(s)
    && s.waitUntil <= s.current
    && (PendingSize(s) >= s.maxTxs || (PendingSize(s) > 0 && timeUp))
  }

  /** clearPendingTxs: what is left, and what goes back to the pool. */
  function Cleared(s: State): State {
    s.(pending := [], pendingSys := [])
  }

  function Unhandled(s: State): seq<Tx> {
    s.pending + s.pendingSys
  }

  function Min(a: nat, b: nat): nat {
    if a <= b then a else b
  }

  function Max(a: int, b: int): int {
    if a >= b then a else b
  }

  /** The block generateProposal builds once it has decided to. */
  function Sealed(s: State): Proposal {
    var size := Min(s.maxTxs, PendingSize(s));
    var sysSize := Min(size, |s.pendingSys|);
    Proposal(Max(s.sealing, s.current + 1), s.current, s.pendingSys[..sysSize], s.pending[..size - sysSize], Open)
  }

  function AfterSealing(s: State): State {
    var p := Sealed(s);
    s.(sealing := p.number + 1,
       waitUntil := if |s.pendingSys| > 0 then p.number else s.waitUntil,
       pendingSys := s.pendingSys[|p.sys|..], pending := s.pending[|p.reg|..])
  }

  /** resetSealingInfo anchors the window afresh unless the request continues
      it. */
  predicate Reanchors(s: State, start: int, end: int) {
    start <= end && (s.sealing > s.end || start != s.end + 1)
  }

  function AfterSealingInfo(s: State, start: int, end: int, maxTxs: nat): State {
    if start > end then s
    else if Reanchors(s, start, end) then
      Cleared(s).(start := start, sealing := start, end := end, maxTxs := maxTxs)
    else s.(end := end, maxTxs := maxTxs)
  }

  predicate ShouldFetch(s: State) {
    !s.fetching && s.unsealed > 0 && InWindow(s)
  }

  /** txsSizeExpectedToFetch. */
  function ToFetch(s: State): nat
    requires InWindow(s)
  {
    var capacity := (s.end - s.sealing + 1) * s.maxTxs;
    if capacity <= PendingSize(s) then 0 else capacity - PendingSize(s)
  }

  /** The first half of the sealer's worker: a block if one is due. */
  function AfterProposal(s: State, timeUp: bool): State {
    if ShouldGenerate(s, timeUp) then AfterSealing(s) else if InWindow(s) then s else Cleared(s)
  }

  /** The second half: a fetch if there is room. */
  function Asked(s: State): nat {
    if ShouldFetch(s) then ToFetch(s) else 0
  }

  function AfterWork(s: State, timeUp: bool): State {
    var a := AfterProposal(s, timeUp);
    a.(fetching := a.fetching || Asked(a) > 0)
  }

  // ---- Runs ----

  datatype Event =
    | ResetSealing
    | ResetSealingInfo(start: int, end: int, maxTxs: nat)
    | ResetCurrentNumber(n: int)
    | SetUnsealedTxsSize(size: nat)
    | CheckProposal
    | GenerateProposal(timeUp: bool)
    | FetchTransactions
    | FetchAnswered(txs: seq<Tx>, sysTxs: seq<Tx>)
    | FetchFailed
    | SubmitProposal(i: nat)

  /** The manager and what it has exchanged with the rest of the node: all
      blocks so far, the fetched transactions in order of arrival, those that
      left each queue in order of leaving, and those given back to the pool.
      `anchor` is the number of blocks at the last anchoring of the window. */
  datatype World = World(
    s: State, blocks: seq<Proposal>, anchor: nat,
    fetched: seq<Tx>, fetchedSys: seq<Tx>, left: seq<Tx>, leftSys: seq<Tx>, returned: seq<Tx>)

  const START: World := World(INITIAL, [], 0, [], [], [], [], [])

  predicate Enabled(w: World, e: Event) {
    match e
    case FetchAnswered(_, _) => w.s.fetching
    case FetchFailed => w.s.fetching
    case SubmitProposal(i) => i < |w.blocks| && w.blocks[i].status == Open
    case _ => true
  }

  function WithCleared(w: World): World {
    w.(s := Cleared(w.s), left := w.left + w.s.pending, leftSys := w.leftSys + w.s.pendingSys,
       returned := w.returned + Unhandled(w.s))
  }

  function WithSealed(w: World): World {
    var p := Sealed(w.s);
    w.(s := AfterSealing(w.s), blocks := w.blocks + [p], left := w.left + p.reg, leftSys := w.leftSys + p.sys)
  }

  function Step(w: World, e: Event): World
    requires Enabled(w, e)
  {
    match e
    case ResetSealing =>
      var c := WithCleared(w);
      c.(s := c.s.(sealing := c.s.end + 1))
    case ResetSealingInfo(start, end, maxTxs) =>
      var c := if Reanchors(w.s, start, end) then WithCleared(w).(anchor := |w.blocks|) else w;
      c.(s := AfterSealingInfo(w.s, start, end, maxTxs))
    case ResetCurrentNumber(n) => w.(s := w.s.(current := n))
    case SetUnsealedTxsSize(n) => w.(s := w.s.(unsealed := n))
    case CheckProposal => if InWindow(w.s) then w else WithCleared(w)
    case GenerateProposal(timeUp) =>
      if ShouldGenerate(w.s, timeUp) then WithSealed(w)
      else if InWindow(w.s) then w
      else WithCleared(w)
    case FetchTransactions =>
      if ShouldFetch(w.s) && ToFetch(w.s) > 0 then w.(s := w.s.(fetching := true)) else w
    case FetchAnswered(txs, sysTxs) =>
      w.(s := w.s.(pending := w.s.pending + txs, pendingSys := w.s.pendingSys + sysTxs, fetching := false),
         fetched := w.fetched + txs, fetchedSys := w.fetchedSys + sysTxs)
    case FetchFailed => w.(s := w.s.(fetching := false))
    case SubmitProposal(i) =>
      var p := w.blocks[i];
      if p.number <= w.s.current then
        w.(blocks := w.blocks[i := p.(status := Discarded)], returned := w.returned + (p.sys + p.reg))
      else w.(blocks := w.blocks[i := p.(status := Submitted)])
  }

  /** The world after these events, if each could happen in its turn. */
  function RunOf(events: seq<Event>): Option<World>
    decreases |events|
  {
    if events == [] then Some(START)
    else
      var last := events[|events| - 1];
      var w :- RunOf(events[..|events| - 1]);
      if Enabled(w, last) then Some(Step(w, last)) else None
  }

  lemma RunStep(events: seq<Event>, e: Event)
    ensures RunOf(events + [e]) ==
            var w := RunOf(events); if w.Some? && Enabled(w.value, e) then Some(Step(w.value, e)) else None
  {
    hide Step, Enabled;
    assert (events + [e])[..|events|] == events;
  }

  // ---- What every run keeps ----

  /** The transactions in blocks that were not given back. */
  function Held(blocks: seq<Proposal>): multiset<Tx> {
    if blocks == [] then multiset{} else Held(blocks[..|blocks| - 1]) + HeldIn(blocks[|blocks| - 1])
  }

  function HeldIn(p: Proposal): multiset<Tx> {
    if p.status == Discarded then multiset{} else multiset(p.sys + p.reg)
  }

  /** Each queue is first in, first out. */
  ghost predicate Fifo(w: World) {
    w.fetched == w.left + w.s.pending && w.fetchedSys == w.leftSys + w.s.pendingSys
  }

  /** Nothing is lost and nothing is duplicated. */
  ghost predicate Conserved(w: World) {
    multiset(w.fetched) + multiset(w.fetchedSys) ==
    multiset(w.s.pending) + multiset(w.s.pendingSys) + Held(w.blocks) + multiset(w.returned)
  }

  /** A block with system transactions holds everything after it back until it
      is on the ledger. */
  ghost predicate Barrier(w: World) {
    && (forall i :: 0 <= i < |w.blocks| && w.blocks[i].sys != [] ==> w.blocks[i].number <= w.s.waitUntil)
    && (forall i, j :: 0 <= i < j < |w.blocks| && w.blocks[i].sys != [] ==>
          w.blocks[i].number <= w.blocks[j].current && w.blocks[i].number < w.blocks[j].number)
  }

  /** The window is an interval, every block is above the ledger it was built
      on, and since the last anchoring the blocks climb from its start. */
  ghost predicate Windowed(w: World) {
    && w.s.start <= w.s.end
    && w.anchor <= |w.blocks|
    && (forall i :: 0 <= i < |w.blocks| ==> w.blocks[i].current < w.blocks[i].number)
    && (forall i :: w.anchor <= i < |w.blocks| ==> w.s.start <= w.blocks[i].number)
    && (forall i, j :: w.anchor <= i < j < |w.blocks| ==> w.blocks[i].number < w.blocks[j].number)
    && (forall i :: w.anchor <= i < |w.blocks| && w.s.sealing <= w.s.end ==> w.blocks[i].number < w.s.sealing)
  }

  lemma {:induction false} HeldUpdate(blocks: seq<Proposal>, i: nat, status: Status)
    requires i < |blocks| && blocks[i].status != Discarded
    ensures Held(blocks) == Held(blocks[i := blocks[i].(status := status)]) +
            if status == Discarded then HeldIn(blocks[i]) else multiset{}
  {
    hide Held, HeldIn;
    var n := |blocks| - 1;
    var updated := blocks[i := blocks[i].(status := status)];
    HeldLast(blocks);
    HeldLast(updated);
    HeldInUpdate(blocks[i], status);
    if i == n {
      assert updated[..n] == blocks[..n];
    } else {
      HeldUpdate(blocks[..n], i, status);
      assert updated[..n] == blocks[..n][i := blocks[i].(status := status)];
    }
  }

  lemma HeldInUpdate(p: Proposal, status: Status)
    requires p.status != Discarded
    ensures HeldIn(p) == HeldIn(p.(status := status)) + if status == Discarded then HeldIn(p) else multiset{}
  {
  }

  lemma HeldLast(blocks: seq<Proposal>)
    requires blocks != []
    ensures Held(blocks) == Held(blocks[..|blocks| - 1]) + HeldIn(blocks[|blocks| - 1])
  {
  }

  lemma SealedParts(w: World)
    ensures var p, v := Sealed(w.s), WithSealed(w);
            w.s.pending == p.reg + v.s.pending && w.s.pendingSys == p.sys + v.s.pendingSys
  {
  }

  lemma SealedConserved(w: World)
    requires Conserved(w)
    ensures Conserved(WithSealed(w))
  {
    var p, v := Sealed(w.s), WithSealed(w);
    SealedParts(w);
    assert v.blocks[..|w.blocks|] == w.blocks;
    assert Held(v.blocks) == Held(w.blocks) + multiset(p.sys + p.reg);
    hide Sealed, AfterSealing, Held;
    assert multiset(w.s.pending) == multiset(p.reg) + multiset(v.s.pending);
    assert multiset(w.s.pendingSys) == multiset(p.sys) + multiset(v.s.pendingSys);
  }

  lemma ClearedConserved(w: World)
    requires Conserved(w)
    ensures Conserved(WithCleared(w))
  {
    hide Held;
    var v := WithCleared(w);
    assert multiset(v.returned) == multiset(w.returned) + (multiset(w.s.pending) + multiset(w.s.pendingSys));
  }

  lemma AnsweredConserved(w: World, e: Event)
    requires e.FetchAnswered? && Enabled(w, e) && Conserved(w)
    ensures Conserved(Step(w, e))
  {
    hide Held;
    var v := Step(w, e);
    assert multiset(v.fetched) == multiset(w.fetched) + multiset(e.txs);
    assert multiset(v.fetchedSys) == multiset(w.fetchedSys) + multiset(e.sysTxs);
    assert multiset(v.s.pending) == multiset(w.s.pending) + multiset(e.txs);
    assert multiset(v.s.pendingSys) == multiset(w.s.pendingSys) + multiset(e.sysTxs);
    assert v.blocks == w.blocks && v.returned == w.returned;
    assert multiset(v.fetched) + multiset(v.fetchedSys) ==
           multiset(w.fetched) + multiset(w.fetchedSys) + (multiset(e.txs) + multiset(e.sysTxs));
  }

  lemma SubmitConserved(w: World, e: Event)
    requires e.SubmitProposal? && Enabled(w, e) && Conserved(w)
    ensures Conserved(Step(w, e))
  {
    hide Held, HeldIn;
    var p, v := w.blocks[e.i], Step(w, e);
    if p.number <= w.s.current {
      HeldUpdate(w.blocks, e.i, Discarded);
      assert HeldIn(p) == multiset(p.sys + p.reg) by { HeldWhole(p); }
      assert multiset(v.returned) == multiset(w.returned) + multiset(p.sys + p.reg);
    } else {
      HeldUpdate(w.blocks, e.i, Submitted);
    }
  }

  lemma HeldWhole(p: Proposal)
    requires p.status != Discarded
    ensures HeldIn(p) == multiset(p.sys + p.reg)
  {
  }

  lemma StepConserved(w: World, e: Event)
    requires Enabled(w, e) && Conserved(w)
    ensures Conserved(Step(w, e))
  {
    hide Held, WithSealed;
    match e
    case FetchAnswered(_, _) => AnsweredConserved(w, e);
    case SubmitProposal(_) => SubmitConserved(w, e);
    case GenerateProposal(_) => SealedConserved(w); ClearedConserved(w);
    case ResetSealing => ClearedConserved(w);
    case ResetSealingInfo(_, _, _) => ClearedConserved(w);
    case CheckProposal => ClearedConserved(w);
    case _ =>
  }

  lemma StepFifo(w: World, e: Event)
    requires Enabled(w, e) && Fifo(w)
    ensures Fifo(Step(w, e))
  {
    SealedParts(w);
    hide Sealed, AfterSealing;
    if e.FetchAnswered? {
      assert w.left + w.s.pending + e.txs == w.left + (w.s.pending + e.txs);
    }
  }

  lemma SealedKeepsBarrier(w: World, timeUp: bool)
    requires ShouldGenerate(w.s, timeUp) && Barrier(w)
    ensures Barrier(WithSealed(w))
  {
    var p, v := Sealed(w.s), WithSealed(w);
    assert v.blocks == w.blocks + [p];
    assert p.current < p.number && w.s.waitUntil <= p.current;
    assert p.sys != [] ==> v.s.waitUntil == p.number;
  }

  lemma SealedKeepsWindowed(w: World, timeUp: bool)
    requires ShouldGenerate(w.s, timeUp) && Windowed(w)
    ensures Windowed(WithSealed(w))
  {
    var p, v := Sealed(w.s), WithSealed(w);
    assert v.blocks == w.blocks + [p];
    assert w.s.sealing <= p.number && p.current < p.number;
  }

  lemma StepBarrier(w: World, e: Event)
    requires Enabled(w, e) && Barrier(w)
    ensures Barrier(Step(w, e))
  {
    if e.GenerateProposal? && ShouldGenerate(w.s, e.timeUp) {
      SealedKeepsBarrier(w, e.timeUp);
    }
    hide WithSealed;
  }

  lemma StepWindowed(w: World, e: Event)
    requires Enabled(w, e) && Windowed(w)
    ensures Windowed(Step(w, e))
  {
    if e.GenerateProposal? && ShouldGenerate(w.s, e.timeUp) {
      SealedKeepsWindowed(w, e.timeUp);
    }
    hide WithSealed;
  }

  /** All four hold after any run. */
  lemma {:induction false} EveryRun(events: seq<Event>)
    requires RunOf(events).Some?
    ensures var w := RunOf(events).value; Fifo(w) && Conserved(w) && Barrier(w) && Windowed(w)
    decreases |events|
  {
    hide Step, Enabled;
    if events == [] {
      StartKeeps();
    } else {
      var front, e := events[..|events| - 1], events[|events| - 1];
      EveryRun(front);
      var w := RunOf(front).value;
      StepFifo(w, e);
      StepConserved(w, e);
      StepBarrier(w, e);
      StepWindowed(w, e);
    }
  }

  lemma StartKeeps()
    ensures Fifo(START) && Conserved(START) && Barrier(START) && Windowed(START)
  {
  }

  // ---- The number to seal ----

  /** A block's number passes the end of the window exactly when the ledger
      has reached that end. */
  lemma NumberInWindowIff(w: World, timeUp: bool)
    requires ShouldGenerate(w.s, timeUp)
    ensures Sealed(w.s).number <= w.s.end <==> w.s.current < w.s.end
  {
  }

  /** That happens: a window asked for, a transaction fetched for it, and the
      ledger moved on before the block is sealed. */
  function Overtaken(n: nat, ledger: nat, tx: Tx): seq<Event> {
    [ResetSealingInfo(n, n, 1), SetUnsealedTxsSize(1), FetchTransactions, FetchAnswered([tx], []),
     ResetCurrentNumber(ledger), GenerateProposal(true)]
  }

  lemma NumberPassesWindow(n: nat, ledger: nat, tx: Tx)
    requires 2 <= n <= ledger
    ensures RunOf(Overtaken(n, ledger, tx)).Some?
    ensures var w := RunOf(Overtaken(n, ledger, tx)).value;
            w.blocks == [Proposal(ledger + 1, ledger, [], [tx], Open)] && w.blocks[0].number > w.s.end == n
  {
    hide RunOf;
    var es := Overtaken(n, ledger, tx);
    var fetched := es[..4];
    FetchedForWindow(n, ledger, tx);
    RunStep(fetched, es[4]);
    RunStep(fetched + [es[4]], es[5]);
    assert es == fetched + [es[4]] + [es[5]];
    assert [tx][..1] == [tx];
  }

  lemma FetchedForWindow(n: nat, ledger: nat, tx: Tx)
    requires n >= 2
    ensures RunOf(Overtaken(n, ledger, tx)[..4]) ==
            Some(START.(s := State(n, n, n, 1, 0, 0, 1, false, [tx], []), fetched := [tx]))
  {
    hide RunOf;
    var es := Overtaken(n, ledger, tx);
    assert RunOf([]) == Some(START) by { RunOfNone(); }
    RunStep([], es[0]);
    RunStep([es[0]], es[1]);
    RunStep([es[0], es[1]], es[2]);
    RunStep([es[0], es[1], es[2]], es[3]);
    assert [] + [es[0]] == [es[0]] && [es[0]] + [es[1]] == [es[0], es[1]];
    assert [es[0], es[1]] + [es[2]] == [es[0], es[1], es[2]];
    assert [es[0], es[1], es[2]] + [es[3]] == es[..4];
    assert [] + [tx] == [tx];
  }

  lemma RunOfNone()
    ensures RunOf([]) == Some(START)
  {
  }

  /** Placing the number to seal: by a window that is no continuation, or past
      the window. */
  predicate Places(s: State, e: Event) {
    e.ResetSealing? || (e.ResetSealingInfo? && Reanchors(s, e.start, e.end))
  }

  /** Some event of the run placed the number. */
  predicate Placed(events: seq<Event>)
    requires RunOf(events).Some?
    decreases |events|
  {
    if events == [] then false
    else
      var front, last := events[..|events| - 1], events[|events| - 1];
      Placed(front) || Places(RunOf(front).value.s, last)
  }

  /** The number to seal has reached the start of the window exactly if it was
      placed; before, it is the invalid number. */
  lemma {:induction false} PlacedIff(events: seq<Event>)
    requires RunOf(events).Some?
    ensures var s := RunOf(events).value.s;
            && (Placed(events) <==> s.start <= s.sealing)
            && (!Placed(events) ==> s.sealing == -1 && s.start == 0)
    decreases |events|
  {
    hide Step, Enabled, Windowed;
    if events == [] {
      assert RunOf(events) == Some(START);
    } else {
      var front, e := events[..|events| - 1], events[|events| - 1];
      PlacedIff(front);
      EveryRun(front);
      StepPlaces(RunOf(front).value, e);
    }
  }

  lemma StepPlaces(w: World, e: Event)
    requires Enabled(w, e) && Windowed(w)
    requires w.s.start <= w.s.sealing || (w.s.sealing == -1 && w.s.start == 0)
    ensures var s := Step(w, e).s;
            && (s.start <= s.sealing <==> w.s.start <= w.s.sealing || Places(w.s, e))
            && (s.start > s.sealing ==> s.sealing == w.s.sealing && s.start == w.s.start)
  {
    hide Sealed;
    if e.GenerateProposal? && ShouldGenerate(w.s, e.timeUp) {
      SealedNumber(w.s);
    }
  }

  /** After a window request that is accepted, the number to seal lies in the
      window exactly if it was placed, by this request or before. */
  lemma AcceptedWindowIff(events: seq<Event>, start: int, end: int, maxTxs: nat)
    requires RunOf(events).Some? && start <= end
    ensures var all := events + [ResetSealingInfo(start, end, maxTxs)];
            RunOf(all).Some? && (InWindow(RunOf(all).value.s) <==> Placed(all))
  {
    var e := ResetSealingInfo(start, end, maxTxs);
    RunStep(events, e);
    PlacedIff(events);
    PlacedIff(events + [e]);
  }

  /** So the first window is missed exactly if it starts at block 1: it passes
      for a continuation of the empty window the manager begins with. */
  lemma FirstWindowIff(start: int, end: int, maxTxs: nat)
    requires start <= end
    ensures var all := [ResetSealingInfo(start, end, maxTxs)];
            RunOf(all).Some? && (InWindow(RunOf(all).value.s) <==> start != 1)
  {
    var e := ResetSealingInfo(start, end, maxTxs);
    RunStep([], e);
    assert [] + [e] == [e];
  }

  // ---- Blocks and fetches ----

  /** A turn of the worker is three events of a run, with the submission of the
      block, which is never stale, between the last two. */
  lemma WorkIsRun(w: World, timeUp: bool)
    ensures var checked := Step(w, CheckProposal);
            var sealed := Step(checked, GenerateProposal(timeUp));
            && Step(sealed, FetchTransactions).s == AfterWork(w.s, timeUp)
            && (ShouldGenerate(w.s, timeUp) ==>
                  sealed.blocks == w.blocks + [Sealed(w.s)] && Sealed(w.s).number > w.s.current)
  {
    hide AfterSealing;
    if ShouldGenerate(w.s, timeUp) {
      SealedNumber(w.s);
    }
  }

  /** A block is as full as it can be, takes the front of each queue, and takes
      others only once no system transaction is left. */
  lemma BlockContents(s: State)
    ensures var p := Sealed(s);
            && |p.sys| + |p.reg| == Min(s.maxTxs, PendingSize(s))
            && p.sys <= s.pendingSys && p.reg <= s.pending
            && (p.reg != [] ==> p.sys == s.pendingSys)
  {
    var p := Sealed(s);
    if p.reg != [] {
      assert |p.sys| == |s.pendingSys|;
    }
  }

  /** The queues hold full blocks for the rest of the window, and no more. */
  predicate Provisioned(s: State) {
    PendingSize(s) == (s.end - s.sealing + 1) * s.maxTxs
  }

  /** A fetch answered in full provisions the window; sealing keeps it so, while
      the ledger is below the number to seal, until nothing is pending. */
  lemma FetchProvisions(s: State, txs: seq<Tx>, sysTxs: seq<Tx>)
    requires InWindow(s) && ToFetch(s) > 0 && |txs| + |sysTxs| == ToFetch(s)
    ensures Provisioned(s.(pending := s.pending + txs, pendingSys := s.pendingSys + sysTxs, fetching := false))
  {
  }

  lemma SealingStaysProvisioned(s: State)
    requires InWindow(s) && s.current < s.sealing && Provisioned(s)
    ensures Provisioned(AfterSealing(s))
    ensures s.sealing == s.end ==> PendingSize(AfterSealing(s)) == 0
  {
    hide Sealed;
    var left, n := s.end - s.sealing, s.maxTxs;
    assert (left + 1) * n == left * n + n;
    BlockContents(s);
    assert Sealed(s).number == s.sealing by { SealedNumber(s); }
  }

  lemma SealedNumber(s: State)
    ensures Sealed(s).number == Max(s.sealing, s.current + 1) && AfterSealing(s).current == s.current
  {
  }

  // ---- What each event does, in terms of the fields ----

  /** A block is sealed exactly if the number is in the window, the barrier is
      passed, and there is a full block or, once the time is up, any
      transaction. */
  lemma BlockDueIff(w: World, timeUp: bool)
    ensures var v, n := Step(w, GenerateProposal(timeUp)), |w.s.pending| + |w.s.pendingSys|;
            && (|v.blocks| == |w.blocks| + 1 <==>
                && w.s.start <= w.s.sealing <= w.s.end
                && w.s.waitUntil <= w.s.current
                && (n >= w.s.maxTxs || (n > 0 && timeUp)))
            && (|v.blocks| != |w.blocks| + 1 ==> v.blocks == w.blocks)
  {
  }

  /** The block sealed, and everything the sealing changes. */
  lemma SealedBlock(w: World, timeUp: bool)
    requires |Step(w, GenerateProposal(timeUp)).blocks| == |w.blocks| + 1
    ensures var v := Step(w, GenerateProposal(timeUp));
            var p := v.blocks[|w.blocks|];
            && v.blocks[..|w.blocks|] == w.blocks && v.returned == w.returned && p.status == Open
            && p.number >= w.s.sealing && p.number > w.s.current == p.current
            && (p.number == w.s.sealing || p.number == w.s.current + 1)
            && p.sys + v.s.pendingSys == w.s.pendingSys && p.reg + v.s.pending == w.s.pending
            && v.s.sealing == p.number + 1
            && v.s.waitUntil == (if w.s.pendingSys == [] then w.s.waitUntil else p.number)
            && v.s.start == w.s.start && v.s.end == w.s.end && v.s.maxTxs == w.s.maxTxs
            && v.s.current == w.s.current && v.s.unsealed == w.s.unsealed && v.s.fetching == w.s.fetching
  {
    SealedParts(w);
  }

  /** Without a block nothing happens inside the window; outside it both queues
      go back to the pool. The check alone does the same. */
  lemma NoBlock(w: World, timeUp: bool)
    requires Step(w, GenerateProposal(timeUp)).blocks == w.blocks
    ensures Step(w, GenerateProposal(timeUp)) == Step(w, CheckProposal)
    ensures var v := Step(w, CheckProposal);
            if w.s.start <= w.s.sealing <= w.s.end then v == w
            else
              && v.s == w.s.(pending := [], pendingSys := []) && v.blocks == w.blocks
              && v.returned == w.returned + w.s.pending + w.s.pendingSys
  {
    var back := w.s.pending + w.s.pendingSys;
    assert w.returned + w.s.pending + w.s.pendingSys == w.returned + back;
    assert |WithSealed(w).blocks| == |w.blocks| + 1;
  }

  /** A view change puts the number past the window and returns both queues. */
  lemma ResetMeaning(w: World)
    ensures var v := Step(w, ResetSealing);
            && v.s == w.s.(sealing := w.s.end + 1, pending := [], pendingSys := []) && v.blocks == w.blocks
            && v.returned == w.returned + w.s.pending + w.s.pendingSys
  {
    assert w.returned + w.s.pending + w.s.pendingSys == w.returned + (w.s.pending + w.s.pendingSys);
  }

  /** A window request is refused if it is empty, extends the window if it
      continues one that is not used up, and otherwise starts afresh. */
  lemma WindowMeaning(w: World, start: int, end: int, maxTxs: nat)
    ensures var v := Step(w, ResetSealingInfo(start, end, maxTxs));
            if start > end then v == w
            else if w.s.sealing <= w.s.end && start == w.s.end + 1 then v == w.(s := w.s.(end := end, maxTxs := maxTxs))
            else
              && v.s.start == v.s.sealing == start && v.s.end == end && v.s.maxTxs == maxTxs
              && v.s.pending == [] && v.s.pendingSys == []
              && v.returned == w.returned + w.s.pending + w.s.pendingSys && v.blocks == w.blocks
              && v.s.waitUntil == w.s.waitUntil && v.s.current == w.s.current
              && v.s.unsealed == w.s.unsealed && v.s.fetching == w.s.fetching
  {
    assert w.returned + w.s.pending + w.s.pendingSys == w.returned + (w.s.pending + w.s.pendingSys);
  }

  /** A fetch asks for what full blocks to the end of the window still need, if
      none is under way, the pool has something and the number is in the
      window; and for nothing otherwise. */
  lemma FetchMeaning(w: World)
    ensures var v, n := Step(w, FetchTransactions), |w.s.pending| + |w.s.pendingSys|;
            var room := (w.s.end - w.s.sealing + 1) * w.s.maxTxs;
            var asks := !w.s.fetching && w.s.unsealed > 0 && w.s.start <= w.s.sealing <= w.s.end && n < room;
            && Asked(w.s) == (if asks then room - n else 0)
            && v == w.(s := w.s.(fetching := w.s.fetching || asks))
  {
  }

  /** The answer goes to the ends of the queues, and a failure only ends the
      fetch. */
  lemma AnswerMeaning(w: World, txs: seq<Tx>, sysTxs: seq<Tx>)
    requires w.s.fetching
    ensures var v := Step(w, FetchAnswered(txs, sysTxs)).s;
            v.pending == w.s.pending + txs && v.pendingSys == w.s.pendingSys + sysTxs && !v.fetching
    ensures Step(w, FetchFailed) == w.(s := w.s.(fetching := false))
  {
  }

  /** A block at or below the ledger is discarded and its transactions go back;
      any other is submitted. */
  lemma SubmitMeaning(w: World, i: nat)
    requires i < |w.blocks| && w.blocks[i].status == Open
    ensures var v, p := Step(w, SubmitProposal(i)), w.blocks[i];
            && v.s == w.s && |v.blocks| == |w.blocks|
            && (forall j :: 0 <= j < |w.blocks| && j != i ==> v.blocks[j] == w.blocks[j])
            && (if p.number <= w.s.current then
                  v.blocks[i].status == Discarded && v.returned == w.returned + p.sys + p.reg
                else v.blocks[i].status == Submitted && v.returned == w.returned)
            && v.blocks[i].number == p.number && v.blocks[i].sys == p.sys && v.blocks[i].reg == p.reg
  {
    var p := w.blocks[i];
    assert w.returned + p.sys + p.reg == w.returned + (p.sys + p.reg);
  }
}
