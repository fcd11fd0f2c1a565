/** The sealing manager object and the sealer's worker step
    (libsealer/SealingManager.h and .cpp, Sealer.cpp). */
module SealingObject {
  import opened Wrappers
  import opened Sealing

  class SealingManager {
    var sealingNumber: int
    var startSealingNumber: int
    var endSealingNumber: int
    var maxTxsPerBlock: nat
    var waitUntil: int
    var currentNumber: int
    var unsealedTxsSize: nat
    var fetchingTxs: bool
    var pendingTxs: seq<Tx>
    var pendingSysTxs: seq<Tx>

    function Snapshot(): State
      reads this
    {
      State(sealingNumber, startSealingNumber, endSealingNumber, maxTxsPerBlock, waitUntil, currentNumber,
            unsealedTxsSize, fetchingTxs, pendingTxs, pendingSysTxs)
    }

    constructor ()
      ensures Snapshot() == INITIAL
    {
      sealingNumber, startSealingNumber, endSealingNumber, maxTxsPerBlock := -1, 0, 0, 0;
      waitUntil, currentNumber, unsealedTxsSize, fetchingTxs := 0, 0, 0, false;
      pendingTxs, pendingSysTxs := [], [];
    }

    /** Empties both queues and hands their transactions back to the pool. */
    method ClearPendingTxs() returns (unhandled: seq<Tx>)
      modifies this`pendingTxs, this`pendingSysTxs
      ensures Snapshot() == Cleared(old(Snapshot()))
      ensures unhandled == Unhandled(old(Snapshot()))
    {
      unhandled := [];
      if |pendingTxs| + |pendingSysTxs| == 0 {
        return;
      }
      for i := 0 to |pendingTxs|
        invariant unhandled == pendingTxs[..i]
      {
        unhandled := unhandled + [pendingTxs[i]];
      }
      for i := 0 to |pendingSysTxs|
        invariant unhandled == pendingTxs + pendingSysTxs[..i]
      {
        unhandled := unhandled + [pendingSysTxs[i]];
      }
      pendingTxs, pendingSysTxs := [], [];
    }

    method ResetSealing() returns (unhandled: seq<Tx>)
      modifies this
      ensures Snapshot() == Cleared(old(Snapshot())).(sealing := old(endSealingNumber) + 1)
      ensures unhandled == Unhandled(old(Snapshot()))
    {
      sealingNumber := endSealingNumber + 1;
      unhandled := ClearPendingTxs();
    }

    method ResetSealingInfo(start: int, end: int, maxTxs: nat) returns (unhandled: seq<Tx>)
      modifies this
      ensures Snapshot() == AfterSealingInfo(old(Snapshot()), start, end, maxTxs)
      ensures unhandled == if Reanchors(old(Snapshot()), start, end) then Unhandled(old(Snapshot())) else []
    {
      unhandled := [];
      if start > end {
        return;
      }
      if sealingNumber > endSealingNumber || start != endSealingNumber + 1 {
        unhandled := ClearPendingTxs();
        startSealingNumber := start;
        sealingNumber := start;
      }
      endSealingNumber := end;
      maxTxsPerBlock := maxTxs;
    }

    method ResetCurrentNumber(n: int)
      modifies this`currentNumber
      ensures Snapshot() == old(Snapshot()).(current := n)
    {
      currentNumber := n;
    }

    method SetUnsealedTxsSize(n: nat)
      modifies this`unsealedTxsSize
      ensures Snapshot() == old(Snapshot()).(unsealed := n)
    {
      unsealedTxsSize := n;
    }

    /** Also clears the queues when the sealing number is outside the window. */
    method ShouldGenerateProposal(timeUp: bool) returns (r: bool, unhandled: seq<Tx>)
      modifies this`pendingTxs, this`pendingSysTxs
      ensures r == ShouldGenerate(old(Snapshot()), timeUp)
      ensures Snapshot() == if InWindow(old(Snapshot())) then old(Snapshot()) else Cleared(old(Snapshot()))
      ensures unhandled == if InWindow(old(Snapshot())) then [] else Unhandled(old(Snapshot()))
    {
      unhandled := [];
      if sealingNumber < startSealingNumber || sealingNumber > endSealingNumber {
        unhandled := ClearPendingTxs();
        return false, unhandled;
      }
      if currentNumber < waitUntil {
        return false, unhandled;
      }
      var txsSize := |pendingTxs| + |pendingSysTxs|;
      r := txsSize >= maxTxsPerBlock || (txsSize != 0 && timeUp);
    }

    /** The two loops that move transactions from the queue fronts to the
        block. */
    method TakeTransactions(sysSize: nat, size: nat) returns (sys: seq<Tx>, reg: seq<Tx>)
      requires sysSize <= |pendingSysTxs| && sysSize <= size && size - sysSize <= |pendingTxs|
      modifies this`pendingTxs, this`pendingSysTxs
      ensures sys == old(pendingSysTxs)[..sysSize] && pendingSysTxs == old(pendingSysTxs)[sysSize..]
      ensures reg == old(pendingTxs)[..size - sysSize] && pendingTxs == old(pendingTxs)[size - sysSize..]
    {
      sys, reg := [], [];
      for i := 0 to sysSize
        invariant sys == old(pendingSysTxs)[..i] && pendingSysTxs == old(pendingSysTxs)[i..]
        invariant pendingTxs == old(pendingTxs)
      {
        sys := sys + [pendingSysTxs[0]];
        pendingSysTxs := pendingSysTxs[1..];
      }
      for i := sysSize to size
        invariant reg == old(pendingTxs)[..i - sysSize] && pendingTxs == old(pendingTxs)[i - sysSize..]
        invariant pendingSysTxs == old(pendingSysTxs)[sysSize..]
      {
        reg := reg + [pendingTxs[0]];
        pendingTxs := pendingTxs[1..];
      }
    }

    /** None stands for the null block. */
    method GenerateProposal(timeUp: bool) returns (containSysTxs: bool, block: Option<Proposal>, unhandled: seq<Tx>)
      modifies this
      ensures block.Some? <==> ShouldGenerate(old(Snapshot()), timeUp)
      ensures block.Some? ==>
                block.value == Sealed(old(Snapshot())) && Snapshot() == AfterSealing(old(Snapshot())) &&
                containSysTxs == (block.value.sys != []) && unhandled == []
      ensures block.None? ==>
                !containSysTxs &&
                (if InWindow(old(Snapshot())) then Snapshot() == old(Snapshot()) && unhandled == []
                 else Snapshot() == Cleared(old(Snapshot())) && unhandled == Unhandled(old(Snapshot())))
    {
      hide Sealed, AfterSealing, Cleared, Unhandled;
      var should;
      should, unhandled := ShouldGenerateProposal(timeUp);
      if !should {
        return false, None, unhandled;
      }
      var sealed;
      containSysTxs, sealed := SealBlock();
      block := Some(sealed);
    }

    /** The rest of generateProposal, once a block is due. */
    method SealBlock() returns (containSysTxs: bool, block: Proposal)
      modifies this
      ensures block == Sealed(old(Snapshot())) && Snapshot() == AfterSealing(old(Snapshot()))
      ensures containSysTxs <==> block.sys != []
    {
      var number := Max(sealingNumber, currentNumber + 1);
      var size := Min(maxTxsPerBlock, |pendingTxs| + |pendingSysTxs|);
      var sysSize := Min(size, |pendingSysTxs|);
      if |pendingSysTxs| > 0 {
        waitUntil := number;
      }
      var sys, reg := TakeTransactions(sysSize, size);
      block := Proposal(number, currentNumber, sys, reg, Open);
      containSysTxs := sysSize > 0;
      sealingNumber := number + 1;
    }

    method ShouldFetchTransaction() returns (r: bool)
      ensures r == ShouldFetch(Snapshot())
    {
      if fetchingTxs || unsealedTxsSize == 0 {
        return false;
      }
      r := startSealingNumber <= sealingNumber <= endSealingNumber;
    }

    /** How many transactions were asked for; zero when nothing was asked. */
    method FetchTransactions() returns (asked: nat)
      modifies this`fetchingTxs
      ensures asked == if ShouldFetch(old(Snapshot())) then ToFetch(old(Snapshot())) else 0
      ensures Snapshot() == old(Snapshot()).(fetching := old(fetchingTxs) || asked > 0)
    {
      asked := 0;
      var should := ShouldFetchTransaction();
      if !should {
        return;
      }
      asked := ToFetch(Snapshot());
      if asked == 0 {
        return;
      }
      fetchingTxs := true;
    }

    /** The pool's answer: append both lists. */
    method OnFetched(txs: seq<Tx>, sysTxs: seq<Tx>)
      modifies this
      ensures Snapshot() == old(Snapshot()).(pending := old(pendingTxs) + txs,
                                             pendingSys := old(pendingSysTxs) + sysTxs, fetching := false)
    {
      for i := 0 to |txs|
        invariant Snapshot() == old(Snapshot()).(pending := old(pendingTxs) + txs[..i])
      {
        pendingTxs := pendingTxs + [txs[i]];
      }
      assert txs[..|txs|] == txs;
      for i := 0 to |sysTxs|
        invariant Snapshot() == old(Snapshot()).(pending := old(pendingTxs) + txs,
                                                 pendingSys := old(pendingSysTxs) + sysTxs[..i])
      {
        pendingSysTxs := pendingSysTxs + [sysTxs[i]];
      }
      assert sysTxs[..|sysTxs|] == sysTxs;
      fetchingTxs := false;
    }
  }

  class Sealer {
    const manager: SealingManager

    constructor (manager: SealingManager)
      ensures this.manager == manager
    {
      this.manager := manager;
    }

    /** submitProposal: whether the block went to consensus; otherwise its
        transactions go back to the pool. */
    method SubmitProposal(block: Proposal) returns (submitted: bool, returned: seq<Tx>)
      ensures submitted <==> block.number > manager.currentNumber
      ensures returned == if submitted then [] else block.sys + block.reg
    {
      if block.number <= manager.currentNumber {
        return false, block.sys + block.reg;
      }
      return true, [];
    }

    /** The first half of executeWorker, without interruption: when the time has
        passed at the check it has still passed at the generation, so there is a
        block to submit, and that block is never stale. */
    method TryPropose(timeUp: bool, timeUpLater: bool)
        returns (sealed: Option<Proposal>, submitted: bool, returned: seq<Tx>)
      requires timeUp ==> timeUpLater
      modifies manager
      ensures sealed.Some? <==> ShouldGenerate(old(manager.Snapshot()), timeUp)
      ensures sealed.Some? ==> submitted && sealed.value == Sealed(old(manager.Snapshot()))
      ensures returned == if InWindow(old(manager.Snapshot())) then [] else Unhandled(old(manager.Snapshot()))
      ensures manager.Snapshot() == AfterProposal(old(manager.Snapshot()), timeUp)
    {
      hide AfterSealing, Sealed, Unhandled, Cleared;
      sealed, submitted := None, false;
      var should;
      should, returned := manager.ShouldGenerateProposal(timeUp);
      if should {
        SealedNumber(manager.Snapshot());
        var containSysTxs, block, rest := manager.GenerateProposal(timeUpLater);
        assert manager.Snapshot().current == manager.currentNumber;
        submitted, rest := SubmitProposal(block.value);
        sealed := block;
      }
    }

    /** executeWorker: a block if one is due, then a fetch if there is room. */
    method ExecuteWorker(timeUp: bool, timeUpLater: bool)
        returns (sealed: Option<Proposal>, submitted: bool, returned: seq<Tx>, asked: nat)
      requires timeUp ==> timeUpLater
      modifies manager
      ensures sealed.Some? <==> ShouldGenerate(old(manager.Snapshot()), timeUp)
      ensures sealed.Some? ==> submitted && sealed.value == Sealed(old(manager.Snapshot()))
      ensures returned == if InWindow(old(manager.Snapshot())) then [] else Unhandled(old(manager.Snapshot()))
      ensures asked == Asked(AfterProposal(old(manager.Snapshot()), timeUp))
      ensures manager.Snapshot() == AfterWork(old(manager.Snapshot()), timeUp)
    {
      hide AfterProposal, Sealed, Unhandled, ShouldGenerate;
      sealed, submitted, returned := TryPropose(timeUp, timeUpLater);
      asked := 0;
      var fetch := manager.ShouldFetchTransaction();
      if fetch {
        asked := manager.FetchTransactions();
      }
    }
  }
}
