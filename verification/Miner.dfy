/**
 The block assembler. The memory pool is a set of transactions with mutually inverse parent and child
 relations, and the mining score is any ranking of them: everything proved holds for every ranking.
 Among candidates of equal priority the choice is left open.
 */
module Miner {
  import opened Numbers

  type Tx(==, !new, 0)

  const CORE_MAX_BLOCK_SIZE: nat := 1_000_000
  const CORE_MAX_BLOCK_SIGOPS: nat := 20_000
  const COINBASE_SIGOPS: nat := 100

  /** final: its lock time allows it in the next block. */
  datatype Entry = Entry(size: nat, sigOps: nat, fee: int, modifiedFee: int, final: bool, priority: int)

  datatype Pool = Pool(entries: map<Tx, Entry>, parents: map<Tx, set<Tx>>, children: map<Tx, set<Tx>>)

  ghost predicate Consistent(pool: Pool) {
    && pool.parents.Keys == pool.entries.Keys && pool.children.Keys == pool.entries.Keys
    && (forall t, p :: t in pool.entries && p in pool.parents[t] ==> p in pool.entries && t in pool.children[p])
    && (forall p, c :: p in pool.entries && c in pool.children[p] ==> c in pool.entries && p in pool.parents[c])
  }

  /** The limits a miner sets. */
  datatype Policy = Policy(
    maxSize: nat,
    minSize: nat,
    prioritySize: nat,
    sigOpsPerMb: nat,
    minRelayFee: nat -> int,
    allowFree: int -> bool)

  // ---------- totals ----------

  predicate Known(pool: Pool, vtx: seq<Tx>) {
    forall i :: 0 <= i < |vtx| ==> vtx[i] in pool.entries
  }

  function TotalSize(pool: Pool, vtx: seq<Tx>): nat
    requires Known(pool, vtx)
  {
    if vtx == [] then 0 else TotalSize(pool, vtx[..|vtx| - 1]) + pool.entries[vtx[|vtx| - 1]].size
  }

  function TotalSigOps(pool: Pool, vtx: seq<Tx>): nat
    requires Known(pool, vtx)
  {
    if vtx == [] then 0 else TotalSigOps(pool, vtx[..|vtx| - 1]) + pool.entries[vtx[|vtx| - 1]].sigOps
  }

  function TotalFees(pool: Pool, vtx: seq<Tx>): int
    requires Known(pool, vtx)
  {
    if vtx == [] then 0 else TotalFees(pool, vtx[..|vtx| - 1]) + pool.entries[vtx[|vtx| - 1]].fee
  }

  function Sum(s: seq<int>): int {
    if s == [] then 0 else Sum(s[..|s| - 1]) + s[|s| - 1]
  }

  // ---------- limits ----------

  /** Subtraction of unsigned 64-bit numbers. */
  function Minus64(a: nat, b: nat): nat
    requires b < 0x1_0000_0000_0000_0000
  {
    if a >= b then a - b else a + 0x1_0000_0000_0000_0000 - b
  }

  function MegaBytes(size: nat): nat {
    if size == 0 then 1 else 1 + (size - 1) / 1_000_000
  }

  /** So many for every megabyte that was begun. */
  function SigOpsLimit(pol: Policy, size: nat): nat {
    pol.sigOpsPerMb * MegaBytes(size)
  }

  /** The number of signature operations allowed depends on the size. */
  predicate SigOpsAllowed(pol: Policy, size: nat, sigOps: nat) {
    if size <= CORE_MAX_BLOCK_SIZE then sigOps < CORE_MAX_BLOCK_SIGOPS else sigOps <= SigOpsLimit(pol, size)
  }

  /** Fewer than 20000 in a block of up to one megabyte; in a larger one the allowance of the megabytes it fits in. */
  lemma SigOpsAllowedExact(pol: Policy, size: nat, sigOps: nat)
    ensures SigOpsAllowed(pol, size, sigOps) <==>
              if size <= 1_000_000 then sigOps < 20_000
              else forall mb: nat :: size <= 1_000_000 * mb ==> sigOps <= pol.sigOpsPerMb * mb
  {
    var m := MegaBytes(size);
    assert size <= 1_000_000 * m;
    forall mb: nat | size > 0 && size <= 1_000_000 * mb
      ensures pol.sigOpsPerMb * m <= pol.sigOpsPerMb * mb
    {
      assert m <= mb;
      MulMonotone(pol.sigOpsPerMb, m, mb);
    }
  }

  // ---------- what a block template must satisfy ----------

  /** Every transaction comes after all its parents in the pool. */
  ghost predicate ParentsFirst(pool: Pool, vtx: seq<Tx>) {
    forall i, p :: 0 <= i < |vtx| && vtx[i] in pool.parents && p in pool.parents[vtx[i]] ==> p in vtx[..i]
  }

  ghost predicate NoDuplicates(vtx: seq<Tx>) {
    forall i, j :: 0 <= i < j < |vtx| ==> vtx[i] != vtx[j]
  }

  ghost predicate WellFormed(pool: Pool, vtx: seq<Tx>) {
    && Known(pool, vtx) && NoDuplicates(vtx) && ParentsFirst(pool, vtx)
    && forall i :: 0 <= i < |vtx| ==> pool.entries[vtx[i]].final
  }

  ghost predicate Missing(pool: Pool, inBlock: set<Tx>, t: Tx) {
    t in pool.parents && exists p :: p in pool.parents[t] && p !in inBlock
  }

  lemma AppendWellFormed(pool: Pool, vtx: seq<Tx>, t: Tx)
    requires WellFormed(pool, vtx) && t in pool.entries && t !in vtx && pool.entries[t].final
    requires t in pool.parents && forall p :: p in pool.parents[t] ==> p in vtx
    ensures WellFormed(pool, vtx + [t])
  {
    var w := vtx + [t];
    forall i, p | 0 <= i < |w| && w[i] in pool.parents && p in pool.parents[w[i]]
      ensures p in w[..i]
    {
      if i < |vtx| { assert w[..i] == vtx[..i]; } else { assert w[..i] == vtx; }
    }
  }

  lemma AppendTotals(pool: Pool, vtx: seq<Tx>, t: Tx)
    requires Known(pool, vtx) && t in pool.entries
    ensures Known(pool, vtx + [t])
    ensures TotalSize(pool, vtx + [t]) == TotalSize(pool, vtx) + pool.entries[t].size
    ensures TotalSigOps(pool, vtx + [t]) == TotalSigOps(pool, vtx) + pool.entries[t].sigOps
    ensures TotalFees(pool, vtx + [t]) == TotalFees(pool, vtx) + pool.entries[t].fee
  {
    assert (vtx + [t])[..|vtx|] == vtx;
  }

  lemma AppendSum(s: seq<int>, x: int)
    ensures Sum(s + [x]) == Sum(s) + x
  {
    assert (s + [x])[..|s|] == s;
  }

  function FeesOf(pool: Pool, vtx: seq<Tx>): seq<int>
    requires Known(pool, vtx)
  {
    seq(|vtx|, i requires 0 <= i < |vtx| => pool.entries[vtx[i]].fee)
  }

  function SigOpsOf(pool: Pool, vtx: seq<Tx>): seq<int>
    requires Known(pool, vtx)
  {
    seq(|vtx|, i requires 0 <= i < |vtx| => pool.entries[vtx[i]].sigOps)
  }

  lemma AppendLists(pool: Pool, vtx: seq<Tx>, t: Tx)
    requires Known(pool, vtx) && t in pool.entries
    ensures Known(pool, vtx + [t]) && FeesOf(pool, vtx + [t]) == FeesOf(pool, vtx) + [pool.entries[t].fee]
    ensures SigOpsOf(pool, vtx + [t]) == SigOpsOf(pool, vtx) + [pool.entries[t].sigOps]
  {
  }

  lemma AppendReady(pool: Pool, vtx: seq<Tx>, inBlock: set<Tx>, t: Tx)
    requires Consistent(pool) && WellFormed(pool, vtx) && inBlock == (set x | x in vtx)
    requires t in pool.entries && pool.entries[t].final && t !in inBlock && !Missing(pool, inBlock, t)
    ensures WellFormed(pool, vtx + [t]) && inBlock + {t} == (set x | x in vtx + [t])
  {
    AppendWellFormed(pool, vtx, t);
  }

  lemma {:induction false} FeesAddUp(pool: Pool, vtx: seq<Tx>, c: int)
    requires Known(pool, vtx)
    ensures Sum([c] + FeesOf(pool, vtx)) == c + TotalFees(pool, vtx)
  {
    if vtx == [] {
      assert [c] + FeesOf(pool, vtx) == [c];
      assert Sum([c]) == Sum([]) + c;
    } else {
      var init := vtx[..|vtx| - 1];
      FeesAddUp(pool, init, c);
      assert [c] + FeesOf(pool, vtx) == [c] + FeesOf(pool, init) + [pool.entries[vtx[|vtx| - 1]].fee];
      AppendSum([c] + FeesOf(pool, init), pool.entries[vtx[|vtx| - 1]].fee);
    }
  }

  class BlockAssembler {
    const pool: Pool
    const pol: Policy
    const reserve: nat
    var nBlockSize: nat
    var nBlockTx: nat
    var nBlockSigOps: nat
    var nFees: int
    var inBlock: set<Tx>
    var lastFewTxs: nat
    var blockFinished: bool
    // the template; entry 0 of the fees and of the signature operations belongs to the coinbase
    var vtx: seq<Tx>
    var vTxFees: seq<int>
    var vTxSigOps: seq<int>

    /** The counters agree with the transactions in the template. */
    ghost predicate Counted()
      reads `nBlockSize, `nBlockTx, `nBlockSigOps, `nFees, `inBlock, `vtx, `vTxFees, `vTxSigOps
    {
      && Known(pool, vtx) && inBlock == (set t | t in vtx) && nBlockTx == |vtx|
      && nBlockSize == reserve + TotalSize(pool, vtx)
      && nBlockSigOps == COINBASE_SIGOPS + TotalSigOps(pool, vtx)
      && nFees == TotalFees(pool, vtx)
      && vTxFees == [-1] + FeesOf(pool, vtx) && vTxSigOps == [-1] + SigOpsOf(pool, vtx)
    }

    /** The reserve for header and coinbase is within the limits. */
    predicate ReserveFits() {
      reserve <= pol.maxSize && SigOpsAllowed(pol, reserve, COINBASE_SIGOPS)
    }

    ghost predicate WithinLimits()
      reads `nBlockSize, `nBlockSigOps
    {
      nBlockSize <= pol.maxSize && SigOpsAllowed(pol, nBlockSize, nBlockSigOps)
    }

    /** Fewer than 1000 bytes are left, or no more than one signature operation. */
    ghost predicate NearlyFull()
      reads `nBlockSize, `nBlockSigOps
    {
      || nBlockSize + 1000 > pol.maxSize || nBlockSigOps + 1 >= 20_000
      || nBlockSigOps + 1 >= SigOpsLimit(pol, nBlockSize)
    }

    /** The block ends only when it is nearly full, and misses are counted only then, up to 51 of them. */
    ghost predicate Closing()
      reads `nBlockSize, `nBlockSigOps, `lastFewTxs, `blockFinished
    {
      && lastFewTxs <= 51 && (lastFewTxs > 0 ==> nBlockSize + 1000 > pol.maxSize)
      && (blockFinished ==> NearlyFull())
    }

    ghost predicate Valid()
      reads this
    {
      Consistent(pool) && WellFormed(pool, vtx) && Counted() && Closing() && (ReserveFits() ==> WithinLimits())
    }

    constructor (pool: Pool, pol: Policy, reserve: nat)
      requires Consistent(pool)
      ensures Valid() && vtx == [] && inBlock == {} && !blockFinished && lastFewTxs == 0
      ensures this.pool == pool && this.pol == pol && this.reserve == reserve
    {
      this.pool, this.pol, this.reserve := pool, pol, reserve;
      nBlockSize, nBlockTx, nBlockSigOps, nFees, inBlock := reserve, 0, COINBASE_SIGOPS, 0, {};
      lastFewTxs, blockFinished := 0, false;
      vtx, vTxFees, vTxSigOps := [], [-1], [-1];
    }

    /** Start a new block. */
    method ResetBlock()
      requires Consistent(pool)
      modifies this
      ensures Valid() && vtx == [] && inBlock == {} && !blockFinished && lastFewTxs == 0
    {
      nBlockSize, nBlockTx, nBlockSigOps, nFees, inBlock := reserve, 0, COINBASE_SIGOPS, 0, {};
      lastFewTxs, blockFinished := 0, false;
      vtx, vTxFees, vTxSigOps := [], [-1], [-1];
    }

    method IsStillDependent(iter: Tx) returns (r: bool)
      requires Valid() && iter in pool.entries
      ensures r <==> Missing(pool, inBlock, iter)
    {
      var parents := pool.parents[iter];
      while parents != {}
        invariant parents <= pool.parents[iter]
        invariant forall p :: p in pool.parents[iter] && p !in parents ==> p in inBlock
        decreases parents
      {
        var parent :| parent in parents;
        if parent !in inBlock { return true; }
        parents := parents - {parent};
      }
      r := false;
    }

    /** Whether so much more keeps the block within its limits; may find that nothing else will fit. */
    method IsIncrementallyGood(nExtraSize: nat, nExtraSigOps: nat) returns (ok: bool)
      requires Valid()
      modifies `lastFewTxs, `blockFinished
      ensures Valid()
      ensures ok <==> nBlockSize + nExtraSize <= pol.maxSize
                      && SigOpsAllowed(pol, nBlockSize + nExtraSize, nBlockSigOps + nExtraSigOps)
      ensures ok ==> blockFinished == old(blockFinished)
      ensures old(blockFinished) ==> blockFinished
      // too large: the end with fewer than 100 bytes left or after 51 misses, else a miss if fewer than 1000 are left
      ensures nBlockSize + nExtraSize > pol.maxSize && nBlockSize < 0x1_0000_0000_0000_0000 - 1000 ==>
                && blockFinished == (old(blockFinished) || old(lastFewTxs) > 50 || FewerLeft(100))
                && lastFewTxs == old(lastFewTxs)
                   + if old(lastFewTxs) <= 50 && !FewerLeft(100) && FewerLeft(1000) then 1 else 0
      // too many signature operations: the end with room for at most one more
      ensures nBlockSize + nExtraSize <= pol.maxSize && !ok ==>
                && lastFewTxs == old(lastFewTxs)
                && blockFinished == (old(blockFinished) || NoSigOpsLeft(nBlockSize + nExtraSize))
    {
      hide WellFormed;
      hide Consistent;
      hide Counted;
      hide SigOpsLimit;
      hide ReserveFits;
      hide WithinLimits;
      if nBlockSize + nExtraSize > pol.maxSize {
        if nBlockSize > Minus64(pol.maxSize, 100) || lastFewTxs > 50 {
          blockFinished := true;
          return false;
        }
        if nBlockSize > Minus64(pol.maxSize, 1000) {
          lastFewTxs := lastFewTxs + 1;
        }
        return false;
      }
      if nBlockSize + nExtraSize <= CORE_MAX_BLOCK_SIZE {
        if nBlockSigOps + nExtraSigOps >= CORE_MAX_BLOCK_SIGOPS {
          if nBlockSigOps > CORE_MAX_BLOCK_SIGOPS - 2 {
            blockFinished := true;
          }
          return false;
        }
      } else {
        var blockMbSize := 1 + (nBlockSize + nExtraSize - 1) / 1_000_000;
        assert pol.sigOpsPerMb * blockMbSize == SigOpsLimit(pol, nBlockSize + nExtraSize) by {
          LimitPerMegaByte(pol, nBlockSize + nExtraSize);
        }
        if nBlockSigOps + nExtraSigOps > pol.sigOpsPerMb * blockMbSize {
          if nBlockSigOps > Minus64(pol.sigOpsPerMb * blockMbSize, 2) {
            MoreMegaBytes(pol, nBlockSize, nExtraSize);
            blockFinished := true;
          }
          return false;
        }
      }
      ok := true;
    }

    /** Fewer than n bytes are left; never so in a block limited to less than n. */
    ghost predicate FewerLeft(n: nat)
      reads `nBlockSize
    {
      n <= pol.maxSize < nBlockSize + n
    }

    /** For a block grown to this size, at most one more signature operation; small limits never count as reached. */
    ghost predicate NoSigOpsLeft(size: nat)
      reads `nBlockSigOps
    {
      var most := if size <= CORE_MAX_BLOCK_SIZE then CORE_MAX_BLOCK_SIGOPS else SigOpsLimit(pol, size);
      nBlockSigOps + 2 > most && (most < 2 ==> nBlockSigOps + 2 > most + 0x1_0000_0000_0000_0000)
    }

    method TestForBlock(iter: Tx) returns (ok: bool)
      requires Valid() && iter in pool.entries
      modifies `lastFewTxs, `blockFinished
      ensures Valid()
      ensures ok <==> Fits(iter)
      ensures ok ==> blockFinished == old(blockFinished)
      ensures old(blockFinished) ==> blockFinished
    {
      var e := pool.entries[iter];
      ok := IsIncrementallyGood(e.size, e.sigOps);
      if ok {
        ok := e.final;
      }
    }

    ghost predicate Fits(t: Tx)
      reads `nBlockSize, `nBlockSigOps
    {
      && t in pool.entries && pool.entries[t].final
      && nBlockSize + pool.entries[t].size <= pol.maxSize
      && SigOpsAllowed(pol, nBlockSize + pool.entries[t].size, nBlockSigOps + pool.entries[t].sigOps)
    }

    method AddToBlock(iter: Tx)
      requires Valid() && !blockFinished && Fits(iter) && iter !in inBlock && !Missing(pool, inBlock, iter)
      modifies this
      ensures Valid() && !blockFinished && vtx == old(vtx) + [iter] && inBlock == old(inBlock) + {iter}
      ensures nBlockSize == old(nBlockSize) + pool.entries[iter].size
    {
      hide WellFormed;
      hide Consistent;
      hide Missing;
      hide TotalSize;
      hide TotalSigOps;
      hide TotalFees;
      hide SigOpsAllowed;
      ghost var was := vtx;
      AppendReady(pool, was, inBlock, iter);
      AppendTotals(pool, was, iter);
      var e := pool.entries[iter];
      vtx := vtx + [iter];
      vTxFees := vTxFees + [e.fee];
      vTxSigOps := vTxSigOps + [e.sigOps];
      nBlockSize := nBlockSize + e.size;
      nBlockTx := nBlockTx + 1;
      nBlockSigOps := nBlockSigOps + e.sigOps;
      nFees := nFees + e.fee;
      inBlock := inBlock + {iter};
      AppendLists(pool, was, iter);
    }

    /** The transaction was tried when the block held the first n of its transactions, and did not fit. */
    ghost predicate Refused(t: Tx, n: nat)
      reads `vtx
    {
      n <= |vtx| && Known(pool, vtx) && t in pool.entries && !FitsAfter(pool, pol, reserve, vtx[..n], t)
    }

    /** Transactions put aside are not in the block and lack a parent. */
    ghost predicate Waits(waiting: set<Tx>)
      reads `inBlock
    {
      forall t :: t in waiting ==> t in pool.entries && t !in inBlock && Missing(pool, inBlock, t)
    }

    ghost predicate AllRefused(refused: map<Tx, nat>)
      reads `vtx
    {
      forall t :: t in refused ==> Refused(t, refused[t])
    }

    /** Add a transaction and try those again that waited for it. */
    method Include(iter: Tx, waiting: set<Tx>, cleared: set<Tx>, ghost refused: map<Tx, nat>)
      returns (waiting': set<Tx>, cleared': set<Tx>)
      requires Valid() && !blockFinished && Fits(iter) && iter !in inBlock && !Missing(pool, inBlock, iter)
      requires Waits(waiting) && AllRefused(refused)
      modifies this
      ensures Valid() && vtx == old(vtx) + [iter] && inBlock == old(inBlock) + {iter} && !blockFinished
      ensures waiting' <= waiting && cleared' == cleared + (waiting - waiting') && Waits(waiting')
              && AllRefused(refused)
    {
      hide WellFormed;
      hide Counted;
      hide WithinLimits;
      hide Closing;
      hide Missing;
      hide SigOpsAllowed;
      hide FitsAfter;
      ghost var before, was := vtx, inBlock;
      Basics();
      AddToBlock(iter);
      StillRefused(before, refused);
      waiting', cleared' := Release(pool.children[iter], waiting, cleared);
      WaitingOn(was, iter, waiting');
    }

    lemma WaitingOn(was: set<Tx>, t: Tx, waiting: set<Tx>)
      requires Valid() && t in pool.entries && inBlock == was + {t} && t !in was && !Missing(pool, was, t)
      requires forall w :: w in waiting ==>
                 w in pool.entries && w !in was && Missing(pool, was, w) && w !in pool.children[t]
      ensures Waits(waiting)
    {
      forall w | w in waiting
        ensures w !in inBlock && Missing(pool, inBlock, w)
      {
        StillMissing(pool, was, t, w);
      }
    }

    // ---------- by priority ----------

    function PriorityLimit(): nat {
      PrioritySize(pol)
    }

    /** The first n transactions are there for free. */
    ghost predicate FreeSoFar(n: nat)
      reads `vtx
    {
      Known(pool, vtx) && n <= |vtx| && forall i :: 0 <= i < n ==> FreeAt(pool, pol, reserve, vtx, i)
    }

    /** The candidates in the queue and in the waiting room, with their priorities, and those in the block. */
    ghost predicate Apart(wait: map<Tx, int>, vec: map<Tx, int>)
      reads `inBlock
    {
      && vec.Keys <= pool.entries.Keys && wait.Keys <= pool.entries.Keys
      && vec.Keys !! inBlock && wait.Keys !! inBlock && vec.Keys !! wait.Keys
      && Priced(pool, vec) && Priced(pool, wait)
    }

    /** The last transaction filled the priority part, or was charged and no candidate left has a higher priority. */
    ghost predicate PriorityEnd(wait: map<Tx, int>, refused: map<Tx, nat>)
      reads `nBlockSize, `inBlock, `vtx
    {
      && vtx != [] && Known(pool, vtx)
      && var t := vtx[|vtx| - 1];
      && (nBlockSize >= PriorityLimit() || !pol.allowFree(pool.entries[t].priority))
      && Waited(wait.Keys, t)
      && (forall u :: u in pool.entries ==>
            u in inBlock || u in wait || u in refused || pool.entries[u].priority <= pool.entries[t].priority)
    }

    /** Fill the part of the block set aside for transactions of high priority. */
    method AddPriorityTxs() returns (waitPriMap: map<Tx, int>, complete: bool, ghost refused: map<Tx, nat>)
      requires Valid() && vtx == [] && inBlock == {} && !blockFinished
      modifies this
      ensures Valid() && AllRefused(refused) && FreeSoFar(if |vtx| == 0 then 0 else |vtx| - 1)
      ensures PriorityLimit() == 0 ==> vtx == []
      ensures complete ==> FreeSoFar(|vtx|) && Waits(waitPriMap.Keys)
                           && forall t :: t in pool.entries ==> t in inBlock || t in waitPriMap || t in refused
      ensures !complete ==> PriorityLimit() == 0 || blockFinished || PriorityEnd(waitPriMap, refused)
    {
      hide PriorityLoop;
      hide PriorityEnd;
      hide FreeSoFar;
      hide Waits;
      hide AllRefused;
      hide Valid;
      Nothing();
      waitPriMap, complete, refused := map[], false, map[];
      if PriorityLimit() == 0 { return; }
      var vecPriority := map t | t in pool.entries :: pool.entries[t].priority;
      StartPriority(vecPriority);
      while vecPriority != map[] && !blockFinished
        invariant PriorityLoop(waitPriMap, vecPriority, refused)
        decreases pool.entries.Keys - inBlock, |vecPriority|
      {
        var stop;
        waitPriMap, vecPriority, stop, refused := StepPriority(waitPriMap, vecPriority, refused);
        if stop {
          return;
        }
      }
      complete := vecPriority == map[];
      FinishPriority(waitPriMap, vecPriority, refused);
    }

    /** What holds between two candidates: everyone is in the block, waiting, refused or still in the queue. */
    ghost predicate PriorityLoop(wait: map<Tx, int>, vec: map<Tx, int>, refused: map<Tx, nat>)
      reads this
    {
      && Valid() && Apart(wait, vec) && Waits(wait.Keys) && AllRefused(refused) && FreeSoFar(|vtx|)
      && Within(pool.entries.Keys, inBlock, wait.Keys, refused.Keys, vec.Keys)
    }

    lemma FinishPriority(wait: map<Tx, int>, vec: map<Tx, int>, refused: map<Tx, nat>)
      requires PriorityLoop(wait, vec, refused)
      ensures Valid() && AllRefused(refused) && Waits(wait.Keys) && FreeSoFar(|vtx|)
      ensures |vtx| > 0 ==> FreeSoFar(|vtx| - 1)
      ensures vec == map[] ==> forall t :: t in pool.entries ==> t in inBlock || t in wait || t in refused
    {
      FreePrefix();
      if vec == map[] {
        assert vec.Keys == {};
        WithinEnd(pool.entries.Keys, inBlock, wait.Keys, refused.Keys);
      }
    }

    /** Take the candidate of highest priority from the queue. */
    method StepPriority(wait: map<Tx, int>, vec: map<Tx, int>, ghost refused: map<Tx, nat>)
      returns (wait': map<Tx, int>, vec': map<Tx, int>, stop: bool, ghost refused': map<Tx, nat>)
      requires PriorityLoop(wait, vec, refused) && vec != map[] && !blockFinished
      modifies this
      ensures !stop ==> PriorityLoop(wait', vec', refused')
      ensures stop ==> Valid() && AllRefused(refused') && PriorityEnd(wait', refused')
                       && |vtx| > 0 && FreeSoFar(|vtx| - 1)
      ensures (inBlock == old(inBlock) && |vec'| < |vec|)
           || pool.entries.Keys - inBlock < pool.entries.Keys - old(inBlock)
    {
      hide Valid;
      hide Waits;
      hide AllRefused;
      hide Apart;
      hide FreeSoFar;
      hide Within;
      hide PriorityEnd;
      hide Charged;
      hide Waited;
      hide Priced;
      hide IsTop;
      var iter := TopPriority(vec);
      TakeApart(wait, vec, iter);
      ghost var before := vtx;
      Shrinks(pool.entries.Keys, inBlock, iter);
      WithinTake(pool.entries.Keys, inBlock, wait.Keys, refused.Keys, vec.Keys, iter);
      wait', vec', stop, refused' := TryPriority(iter, vec[iter], wait, vec - {iter}, refused);
      WithinStep(pool.entries.Keys, old(inBlock) + wait.Keys + refused.Keys + (vec.Keys - {iter}) + {iter},
                 inBlock, wait'.Keys, refused'.Keys, vec'.Keys);
      if stop {
        EndCharged(iter, before);
        EndPriority(wait', vec', refused', vec, iter);
      }
    }

    lemma Nothing()
      requires Valid()
      ensures Waits({}) && AllRefused(map[]) && FreeSoFar(0)
    {
    }

    lemma FreePrefix()
      requires FreeSoFar(|vtx|)
      ensures |vtx| > 0 ==> FreeSoFar(|vtx| - 1)
    {
    }

    lemma StartPriority(vec: map<Tx, int>)
      requires Valid() && inBlock == {} && vtx == [] && vec.Keys == pool.entries.Keys
      requires forall t :: t in vec ==> vec[t] == pool.entries[t].priority
      ensures PriorityLoop(map[], vec, map[])
    {
      hide Counted;
      hide WellFormed;
      Nothing();
      var wait: map<Tx, int>, refused: map<Tx, nat> := map[], map[];
      assert wait.Keys == {} && refused.Keys == {};
    }

    lemma TakeApart(wait: map<Tx, int>, vec: map<Tx, int>, t: Tx)
      requires Apart(wait, vec) && t in vec
      ensures Apart(wait, vec - {t}) && Priced(pool, vec) && t in pool.entries && vec[t] == pool.entries[t].priority
      ensures t !in wait && t !in inBlock && |vec - {t}| < |vec| && (vec - {t}).Keys == vec.Keys - {t}
    {
      assert vec.Keys == (vec - {t}).Keys + {t};
    }

    lemma EndPriority(wait: map<Tx, int>, vec: map<Tx, int>, refused: map<Tx, nat>, queue: map<Tx, int>, t: Tx)
      requires Valid() && vtx != [] && vtx[|vtx| - 1] == t && t in pool.entries && vec == queue - {t} && t in queue
      requires IsTop(queue, t) && Priced(pool, queue)
      requires Charged(t, vtx[..|vtx| - 1]) && Waited(wait.Keys, t)
      requires Within(pool.entries.Keys, inBlock, wait.Keys, refused.Keys, vec.Keys)
      ensures PriorityEnd(wait, refused)
    {
      hide Waited;
    }

    lemma EndCharged(t: Tx, before: seq<Tx>)
      requires Charged(t, before)
      ensures vtx != [] && vtx[|vtx| - 1] == t && Charged(t, vtx[..|vtx| - 1]) && FreeSoFar(|vtx| - 1)
    {
      assert vtx[..|vtx| - 1] == before;
    }

    /** Before t came, each of these lacked a parent. */
    ghost predicate Waited(waiting: set<Tx>, t: Tx)
      reads `inBlock
    {
      forall u :: u in waiting ==> u !in inBlock && Missing(pool, inBlock - {t}, u)
    }

    /** Deal with the candidate of the highest priority. */
    method TryPriority(iter: Tx, priority: int, wait: map<Tx, int>, vec: map<Tx, int>, ghost refused: map<Tx, nat>)
      returns (wait': map<Tx, int>, vec': map<Tx, int>, stop: bool, ghost refused': map<Tx, nat>)
      requires Valid() && !blockFinished && iter in pool.entries && iter !in vec && iter !in wait && iter !in inBlock
      requires priority == pool.entries[iter].priority
      requires Apart(wait, vec) && Waits(wait.Keys) && AllRefused(refused) && FreeSoFar(|vtx|)
      modifies this
      ensures Valid() && AllRefused(refused')
      ensures !stop ==> Apart(wait', vec') && Waits(wait'.Keys) && FreeSoFar(|vtx|)
      ensures (inBlock == old(inBlock) && vec' == vec) || inBlock == old(inBlock) + {iter}
      ensures Within(old(inBlock) + wait.Keys + refused.Keys + vec.Keys + {iter},
                     inBlock, wait'.Keys, refused'.Keys, vec'.Keys)
      ensures stop ==> Charged(iter, old(vtx)) && wait' == wait && vec' == vec && Waited(wait.Keys, iter)
    {
      hide Valid;
      hide Waits;
      hide AllRefused;
      hide Missing;
      hide Fits;
      hide FreeSoFar;
      hide Apart;
      hide Charged;
      hide Waited;
      wait', vec', stop, refused' := wait, vec, false, refused;
      var dependent := IsStillDependent(iter);
      if dependent {
        WaitsMore(wait.Keys, iter);
        ApartMore(wait, vec, iter);
        wait' := wait[iter := priority];
        assert wait'.Keys == wait.Keys + {iter};
        return;
      }
      var ok := TestForBlock(iter);
      if ok {
        wait', vec', stop := IncludePriority(iter, priority, wait, vec, refused);
      } else {
        NowRefused(iter, refused);
        refused' := refused[iter := |vtx|];
      }
    }

    /** The last transaction reached the size set aside, or does not go for free. */
    ghost predicate Charged(t: Tx, before: seq<Tx>)
      reads `vtx, `nBlockSize, `inBlock
    {
      && t in pool.entries && vtx == before + [t] && FreeSoFar(|before|)
      && (nBlockSize >= PriorityLimit() || !pol.allowFree(pool.entries[t].priority))
    }

    /** Add a transaction, and try those again that waited for it unless it is the last. */
    method IncludePriority(iter: Tx, priority: int, wait: map<Tx, int>, vec: map<Tx, int>, ghost refused: map<Tx, nat>)
      returns (wait': map<Tx, int>, vec': map<Tx, int>, stop: bool)
      requires Valid() && !blockFinished && Fits(iter) && iter !in inBlock && !Missing(pool, inBlock, iter)
      requires iter !in vec && iter !in wait && priority == pool.entries[iter].priority
      requires Apart(wait, vec) && Waits(wait.Keys) && AllRefused(refused) && FreeSoFar(|vtx|)
      modifies this
      ensures Valid() && AllRefused(refused) && inBlock == old(inBlock) + {iter}
      ensures !stop ==> Apart(wait', vec') && Waits(wait'.Keys) && FreeSoFar(|vtx|)
      ensures wait.Keys + vec.Keys == wait'.Keys + vec'.Keys
      ensures stop ==> Charged(iter, old(vtx)) && wait' == wait && vec' == vec && Waited(wait.Keys, iter)
    {
      hide Valid;
      hide Waits;
      hide AllRefused;
      hide Missing;
      hide FreeSoFar;
      hide SigOpsAllowed;
      ghost var was, before := inBlock, vtx;
      WaitsUnfold(wait.Keys);
      KnownSoFar(refused);
      FreeKnown(before, |before|);
      AddToBlock(iter);
      assert inBlock - {iter} == was;
      RefusedStill(before, refused);
      FreeBefore(before, |before|);
      if nBlockSize >= PriorityLimit() || !pol.allowFree(priority) {
        return wait, vec, true;
      }
      FreeNow(before, iter);
      stop := false;
      wait', vec' := ReleasePriority(pool.children[iter], wait, vec);
      WaitingOn(was, iter, wait'.Keys);
    }

    lemma KnownSoFar(refused: map<Tx, nat>)
      requires Valid() && AllRefused(refused)
      ensures Known(pool, vtx)
      ensures forall t :: t in refused ==>
                refused[t] <= |vtx| && t in pool.entries && !FitsAfter(pool, pol, reserve, vtx[..refused[t]], t)
    {
    }

    lemma RefusedStill(before: seq<Tx>, refused: map<Tx, nat>)
      requires Valid() && before <= vtx && Known(pool, before)
      requires forall t :: t in refused ==>
                 refused[t] <= |before| && t in pool.entries && !FitsAfter(pool, pol, reserve, before[..refused[t]], t)
      ensures AllRefused(refused)
    {
      StillRefused(before, refused);
    }

    lemma FreeKnown(before: seq<Tx>, n: nat)
      requires vtx == before && FreeSoFar(n)
      ensures Known(pool, before) && n <= |before| && forall i :: 0 <= i < n ==> FreeAt(pool, pol, reserve, before, i)
    {
    }

    lemma FreeBefore(before: seq<Tx>, n: nat)
      requires Valid() && before <= vtx && Known(pool, before) && n <= |before|
      requires forall i :: 0 <= i < n ==> FreeAt(pool, pol, reserve, before, i)
      ensures FreeSoFar(n)
    {
      forall i | 0 <= i < n
        ensures FreeAt(pool, pol, reserve, vtx, i)
      {
        assert FreeAt(pool, pol, reserve, before, i);
        assert before[..i + 1] == vtx[..i + 1];
      }
    }

    lemma FreeNow(before: seq<Tx>, t: Tx)
      requires Valid() && vtx == before + [t] && FreeSoFar(|before|)
      requires pol.allowFree(pool.entries[t].priority) && nBlockSize < PriorityLimit()
      ensures FreeSoFar(|vtx|)
    {
      assert vtx[..|before| + 1] == vtx;
    }

    lemma ApartMore(wait: map<Tx, int>, vec: map<Tx, int>, t: Tx)
      requires Apart(wait, vec) && t in pool.entries && t !in vec && t !in inBlock
      ensures Apart(wait[t := pool.entries[t].priority], vec)
    {
    }

    lemma WaitsMore(waiting: set<Tx>, t: Tx)
      requires Waits(waiting) && t in pool.entries && t !in inBlock && Missing(pool, inBlock, t)
      ensures Waits(waiting + {t})
    {
    }

    lemma WaitsUnfold(waiting: set<Tx>)
      requires Valid() && Waits(waiting)
      ensures pool.children.Keys == pool.entries.Keys
      ensures forall w :: w in waiting ==> w in pool.entries && w !in inBlock && Missing(pool, inBlock, w)
    {
    }

    // ---------- by score ----------

    /** Ready to be added, but paying too little for a block that is large enough without it. */
    ghost predicate TooCheap(t: Tx)
      reads `nBlockSize, `inBlock
    {
      && t in pool.entries && t !in inBlock && !Missing(pool, inBlock, t)
      && pool.entries[t].modifiedFee < pol.minRelayFee(pool.entries[t].size)
      && nBlockSize >= Min(pol.maxSize, pol.minSize)
    }

    /** From place n on, every transaction pays or was needed to fill the block. */
    ghost predicate PaidFrom(n: nat)
      reads `vtx
    {
      Known(pool, vtx) && forall i :: n <= i < |vtx| ==> PaysAt(pool, pol, reserve, vtx, i)
    }

    lemma PaidMore(before: seq<Tx>, n: nat, t: Tx)
      requires Valid() && vtx == before + [t] && Known(pool, before)
      requires forall i :: n <= i < |before| ==> PaysAt(pool, pol, reserve, before, i)
      requires PaysAt(pool, pol, reserve, vtx, |before|)
      ensures PaidFrom(n)
    {
      forall i | n <= i < |vtx|
        ensures PaysAt(pool, pol, reserve, vtx, i)
      {
        if i < |before| {
          assert PaysAt(pool, pol, reserve, before, i);
          assert before[..i] == vtx[..i];
        }
      }
    }

    lemma PaidKnown(before: seq<Tx>, n: nat)
      requires vtx == before && PaidFrom(n)
      ensures Known(pool, before) && forall i :: n <= i < |before| ==> PaysAt(pool, pol, reserve, before, i)
    {
    }

    lemma PaidStill(before: seq<Tx>, n: nat)
      requires vtx == before && Known(pool, before)
      requires forall i :: n <= i < |before| ==> PaysAt(pool, pol, reserve, before, i)
      ensures PaidFrom(n)
    {
    }

    lemma PaysNow(before: seq<Tx>, t: Tx)
      requires Valid() && vtx == before + [t] && Known(pool, before)
      requires || pool.entries[t].modifiedFee >= pol.minRelayFee(pool.entries[t].size)
               || reserve + TotalSize(pool, before) < Min(pol.maxSize, pol.minSize)
      ensures PaysAt(pool, pol, reserve, vtx, |before|)
    {
      assert vtx[..|before|] == before;
    }

    /** Deal with one candidate; the answer low means that its fee is too low to go on. */
    method TryScore(iter: Tx, waiting: set<Tx>, cleared: set<Tx>, ghost refused: map<Tx, nat>)
      returns (waiting': set<Tx>, cleared': set<Tx>, low: bool, ghost refused': map<Tx, nat>)
      requires Valid() && !blockFinished && iter in pool.entries && Waits(waiting) && AllRefused(refused)
      modifies this
      ensures Valid() && old(vtx) <= vtx && Waits(waiting') && AllRefused(refused')
      ensures (inBlock == old(inBlock) && cleared' == cleared && waiting <= waiting' <= waiting + {iter})
           || (iter !in old(inBlock) && inBlock == old(inBlock) + {iter} && waiting' <= waiting
               && cleared' == cleared + (waiting - waiting') && !blockFinished)
      ensures refused.Keys <= refused'.Keys
      ensures !low ==> iter in inBlock || iter in waiting' || iter in refused'
      ensures low ==> TooCheap(iter) && !blockFinished && vtx == old(vtx) && inBlock == old(inBlock)
                      && waiting' == waiting && refused' == refused
      ensures low <==> old(TooCheap(iter))
      ensures inBlock == old(inBlock) ==> vtx == old(vtx)
      ensures inBlock != old(inBlock) ==>
                vtx == old(vtx) + [iter] && Known(pool, vtx) && PaysAt(pool, pol, reserve, vtx, |old(vtx)|)
      ensures blockFinished ==> iter in refused'
    {
      hide WellFormed;
      hide Consistent;
      hide Counted;
      hide WithinLimits;
      hide Closing;
      hide Missing;
      hide Refused;
      hide Fits;
      waiting', cleared', low, refused' := waiting, cleared, false, refused;
      if iter in inBlock { return; }
      var dependent := IsStillDependent(iter);
      if dependent {
        waiting' := waiting + {iter};
        return;
      }
      if pool.entries[iter].modifiedFee < pol.minRelayFee(pool.entries[iter].size) &&
         nBlockSize >= Min(pol.maxSize, pol.minSize) {
        low := true;
        return;
      }
      var ok := TestForBlock(iter);
      if ok {
        SizeNow();
        ghost var before := vtx;
        waiting', cleared' := Include(iter, waiting, cleared, refused);
        PaysNow(before, iter);
      } else {
        NowRefused(iter, refused);
        refused' := refused[iter := |vtx|];
      }
    }

    /**
     Add transactions in the order of their rank, parents first. All candidates ranked before upto were
     dealt with: the whole pool, or those before the first that is too cheap, unless the block was full.
     */
    method AddScoreTxs(order: seq<Tx>)
      returns (waiting: set<Tx>, complete: bool, ghost refused: map<Tx, nat>, ghost upto: nat)
      requires Valid() && forall t :: t in order <==> t in pool.entries
      modifies this
      ensures Valid() && old(vtx) <= vtx && Waits(waiting) && AllRefused(refused) && PaidFrom(|old(vtx)|)
      ensures DealtWith(order, upto, inBlock, waiting, refused.Keys) && (complete ==> upto == |order|)
      ensures complete ==> forall t :: t in pool.entries ==> t in inBlock || t in waiting || t in refused
      ensures !complete ==> blockFinished || (upto < |order| && TooCheap(order[upto]))
      ensures blockFinished && !old(blockFinished) ==> 0 < upto <= |order| && order[upto - 1] in refused
    {
      hide ScoreLoop;
      hide Waits;
      hide AllRefused;
      hide Valid;
      hide TooCheap;
      hide DealtWith;
      hide PaidFrom;
      StartScore(order);
      var mi, clearedTxs: set<Tx> := 0, {};
      waiting, refused, upto := {}, map[], 0;
      while !blockFinished && (mi < |order| || clearedTxs != {})
        invariant ScoreLoop(order, |old(vtx)|, mi, clearedTxs, waiting, refused) && mi <= |order| && old(vtx) <= vtx
        invariant blockFinished ==> DealtWith(order, upto, inBlock, waiting, refused.Keys)
        invariant blockFinished && !old(blockFinished) ==> 0 < upto <= |order| && order[upto - 1] in refused
        decreases pool.entries.Keys - inBlock, |order| - mi + |clearedTxs|
      {
        var k, low;
        mi, clearedTxs, waiting, low, refused, k := StepScore(order, |old(vtx)|, mi, clearedTxs, waiting, refused);
        if low {
          complete, upto := false, k;
          return;
        }
        upto := k + 1;
      }
      complete := !blockFinished;
      FinishScore(order, |old(vtx)|, mi, clearedTxs, waiting, refused);
      if complete {
        upto := |order|;
      }
    }

    /** What holds between two candidates: those ranked before mi are in the block, waiting, refused or cleared. */
    ghost predicate ScoreLoop(
      order: seq<Tx>, from: nat, mi: nat, cleared: set<Tx>, waiting: set<Tx>, refused: map<Tx, nat>)
      reads this
    {
      && Valid() && PaidFrom(from) && cleared <= pool.entries.Keys && Waits(waiting) && AllRefused(refused)
      && Covers(order, mi, inBlock + cleared + waiting + refused.Keys)
      && Early(order, mi, cleared) && Early(order, mi, waiting)
    }

    lemma StartScore(order: seq<Tx>)
      requires Valid()
      ensures ScoreLoop(order, |vtx|, 0, {}, {}, map[]) && forall r :: DealtWith(order, 0, inBlock, {}, r)
    {
      SizeNow();
      hide Valid;
      NobodyWaits();
    }

    lemma FinishScore(
      order: seq<Tx>, from: nat, mi: nat, cleared: set<Tx>, waiting: set<Tx>, refused: map<Tx, nat>)
      requires ScoreLoop(order, from, mi, cleared, waiting, refused)
      ensures Valid() && Waits(waiting) && AllRefused(refused) && PaidFrom(from)
      ensures mi == |order| && cleared == {} ==>
                && DealtWith(order, |order|, inBlock, waiting, refused.Keys)
                && forall t :: t in order ==> t in inBlock || t in waiting || t in refused
    {
      hide Valid;
      if mi == |order| && cleared == {} {
        EndScore(order, inBlock, waiting, refused.Keys);
      }
    }

    /** Take the best ranked candidate: one that waited for a parent now in the block, else the next one. */
    method StepScore(
      order: seq<Tx>, ghost from: nat, mi: nat, cleared: set<Tx>, waiting: set<Tx>, ghost refused: map<Tx, nat>)
      returns (mi': nat, cleared': set<Tx>, waiting': set<Tx>, low: bool, ghost refused': map<Tx, nat>, k: nat)
      requires ScoreLoop(order, from, mi, cleared, waiting, refused) && !blockFinished
      requires (forall t :: t in order <==> t in pool.entries) && (mi < |order| || cleared != {}) && mi <= |order|
      modifies this
      ensures old(vtx) <= vtx && mi <= mi' <= |order| && k < |order|
      ensures !low ==> ScoreLoop(order, from, mi', cleared', waiting', refused')
      ensures low ==> Valid() && PaidFrom(from) && Waits(waiting') && AllRefused(refused') && !blockFinished
                      && TooCheap(order[k]) && DealtWith(order, k, inBlock, waiting', refused'.Keys)
      ensures blockFinished ==> order[k] in refused' && DealtWith(order, k + 1, inBlock, waiting', refused'.Keys)
      ensures low || (inBlock == old(inBlock) && |order| - mi' + |cleared'| < |order| - mi + |cleared|)
           || (old(inBlock) < inBlock && pool.entries.Keys - inBlock < pool.entries.Keys - old(inBlock))
    {
      hide Waits;
      hide AllRefused;
      hide Valid;
      hide Covers;
      hide TooCheap;
      hide Early;
      hide DealtWith;
      hide PaidFrom;
      hide PaysAt;
      ghost var before := vtx;
      PaidKnown(before, from);
      mi', cleared' := mi, cleared;
      if cleared == {} {
        k := mi;
        mi' := mi + 1;
      } else {
        k := TopScore(order, cleared);
        cleared' := cleared - {order[k]};
      }
      var iter := order[k];
      Ranked(order, mi, k, inBlock, cleared, waiting, refused.Keys);
      assert iter in order[..mi'];
      waiting', cleared', low, refused' := TryScore(iter, waiting, cleared', refused);
      if low {
        PaidStill(before, from);
        return;
      }
      if inBlock == old(inBlock) {
        PaidStill(before, from);
      } else {
        PaidMore(before, from, iter);
      }
      EarlyStep(order, mi, mi', cleared, waiting, iter, cleared', waiting');
      KeepsSight(old(inBlock), cleared, waiting, refused.Keys, iter, inBlock, cleared', waiting', refused'.Keys);
      CoversMore(order, mi, mi', old(inBlock) + cleared + waiting + refused.Keys, iter,
                 inBlock + cleared' + waiting' + refused'.Keys);
      if blockFinished {
        DealtMore(order, k, inBlock, waiting, refused.Keys, waiting', refused'.Keys);
      }
    }

    /** Assemble a block; the fee list ends up with the coinbase collecting all fees. */
    method CreateNewBlock(order: seq<Tx>, coinbaseSigOps: nat)
      returns (waiting: set<Tx>, complete: bool, ghost refused: map<Tx, nat>, ghost upto: nat, ghost free: nat)
      requires Consistent(pool) && forall t :: t in order <==> t in pool.entries
      modifies this
      ensures WellFormed(pool, vtx) && inBlock == (set t | t in vtx) && nBlockTx == |vtx|
      ensures nBlockSize == reserve + TotalSize(pool, vtx) && nBlockSigOps == COINBASE_SIGOPS + TotalSigOps(pool, vtx)
      ensures ReserveFits() ==> nBlockSize <= pol.maxSize && SigOpsAllowed(pol, nBlockSize, nBlockSigOps)
      ensures nFees == TotalFees(pool, vtx) && vTxFees == [-nFees] + FeesOf(pool, vtx) && Sum(vTxFees) == 0
      ensures vTxSigOps == [coinbaseSigOps] + SigOpsOf(pool, vtx)
      ensures Waits(waiting) && AllRefused(refused) && DealtWith(order, upto, inBlock, waiting, refused.Keys)
      ensures complete ==> forall t :: t in pool.entries ==> t in inBlock || t in waiting || t in refused
      ensures !complete && !blockFinished ==>
                && upto < |order|
                && var t := order[upto];
                && t in pool.entries && t !in inBlock && !Missing(pool, inBlock, t)
                && pool.entries[t].modifiedFee < pol.minRelayFee(pool.entries[t].size)
                && (nBlockSize >= pol.minSize || nBlockSize >= pol.maxSize)
      ensures blockFinished ==> NearlyFull()
      ensures free <= |vtx| && FreeSoFar(if free == 0 then 0 else free - 1) && PaidFrom(free)
    {
      hide Consistent;
      hide WellFormed;
      hide Missing;
      hide SigOpsAllowed;
      hide TotalSize;
      hide TotalSigOps;
      hide TotalFees;
      hide NearlyFull;
      hide Waits;
      hide AllRefused;
      hide FreeSoFar;
      hide PaidFrom;
      hide DealtWith;
      waiting, complete, refused, upto, free := FillBlock(order);
      vTxFees := vTxFees[0 := -nFees];
      vTxSigOps := vTxSigOps[0 := coinbaseSigOps];
      FeesAddUp(pool, vtx, -nFees);
    }

    /** First by priority, then by score. */
    method FillBlock(order: seq<Tx>)
      returns (waiting: set<Tx>, complete: bool, ghost refused: map<Tx, nat>, ghost upto: nat, ghost free: nat)
      requires Consistent(pool) && forall t :: t in order <==> t in pool.entries
      modifies this
      ensures Valid() && Waits(waiting) && AllRefused(refused)
      ensures DealtWith(order, upto, inBlock, waiting, refused.Keys)
      ensures complete ==> forall t :: t in pool.entries ==> t in inBlock || t in waiting || t in refused
      ensures !complete ==> blockFinished || (upto < |order| && TooCheap(order[upto]))
      ensures free <= |vtx| && FreeSoFar(if free == 0 then 0 else free - 1) && PaidFrom(free)
    {
      hide Consistent;
      hide Valid;
      hide TooCheap;
      hide Waits;
      hide AllRefused;
      hide FreeSoFar;
      hide PaidFrom;
      hide DealtWith;
      hide PriorityEnd;
      ResetBlock();
      var _, _, _ := AddPriorityTxs();
      free := |vtx|;
      ghost var first, n := vtx, if free == 0 then 0 else free - 1;
      FreeKnown(first, n);
      waiting, complete, refused, upto := AddScoreTxs(order);
      FreeBefore(first, n);
    }

    lemma SizeNow()
      requires Valid()
      ensures Known(pool, vtx) && nBlockSize == reserve + TotalSize(pool, vtx)
    {
    }

    lemma NobodyWaits()
      ensures Waits({}) && AllRefused(map[])
    {
    }

    lemma Basics()
      requires Valid()
      ensures Known(pool, vtx) && pool.children.Keys == pool.entries.Keys
    {
    }

    lemma NowRefused(t: Tx, refused: map<Tx, nat>)
      requires Valid() && t in pool.entries && !Fits(t) && AllRefused(refused)
      ensures AllRefused(refused[t := |vtx|])
    {
      assert vtx[..|vtx|] == vtx;
    }

    lemma StillRefused(before: seq<Tx>, refused: map<Tx, nat>)
      requires Valid() && before <= vtx && Known(pool, before)
      requires forall t :: t in refused ==>
                 refused[t] <= |before| && t in pool.entries && !FitsAfter(pool, pol, reserve, before[..refused[t]], t)
      ensures forall t :: t in refused ==> Refused(t, refused[t])
    {
      assert forall t :: t in refused ==> vtx[..refused[t]] == before[..refused[t]];
    }
  }

  /** Each transaction but the first is a parent of the one before it. */
  ghost predicate Upwards(pool: Pool, path: seq<Tx>) {
    && (forall i :: 0 <= i < |path| ==> path[i] in pool.parents)
    && forall i :: 0 < i < |path| ==> path[i] in pool.parents[path[i - 1]]
  }

  /**
   After a complete run nothing is left out without cause: from every transaction outside the block a path
   of parents, all outside, leads up to one that was tried and did not fit. Depth witnesses that no
   transaction is its own ancestor.
   */
  lemma {:induction false} LeftOutForCause(
    pool: Pool, inBlock: set<Tx>, waiting: set<Tx>, refused: set<Tx>, depth: Tx -> nat, t: Tx)
    returns (path: seq<Tx>)
    requires Consistent(pool) && t in pool.entries && t !in inBlock
    requires forall c, p :: c in pool.parents && p in pool.parents[c] ==> depth(p) < depth(c)
    requires forall u :: u in pool.entries ==> u in inBlock || u in waiting || u in refused
    requires forall w :: w in waiting ==> Missing(pool, inBlock, w)
    ensures path != [] && path[0] == t && Upwards(pool, path) && path[|path| - 1] in refused
    ensures forall i :: 0 <= i < |path| ==> path[i] !in inBlock
    decreases depth(t)
  {
    if t in refused {
      path := [t];
    } else {
      assert Missing(pool, inBlock, t);
      var p := Absent(pool, inBlock, t);
      hide Consistent;
      hide Missing;
      hide Upwards;
      var above := LeftOutForCause(pool, inBlock, waiting, refused, depth, p);
      path := [t] + above;
      UpwardsFrom(pool, t, above);
    }
  }

  lemma Absent(pool: Pool, inBlock: set<Tx>, t: Tx) returns (p: Tx)
    requires Consistent(pool) && Missing(pool, inBlock, t)
    ensures t in pool.parents && p in pool.parents[t] && p !in inBlock && p in pool.entries
  {
    p :| p in pool.parents[t] && p !in inBlock;
  }

  lemma UpwardsFrom(pool: Pool, t: Tx, above: seq<Tx>)
    requires Upwards(pool, above) && above != [] && t in pool.parents && above[0] in pool.parents[t]
    ensures Upwards(pool, [t] + above)
  {
    var path := [t] + above;
    forall i | 0 < i < |path|
      ensures path[i] in pool.parents[path[i - 1]]
    {
      if i > 1 { assert above[i - 1] in pool.parents[above[i - 2]]; }
    }
  }

  /** A larger block never allows fewer signature operations. */
  lemma MoreMegaBytes(pol: Policy, size: nat, extra: nat)
    ensures SigOpsLimit(pol, size) <= SigOpsLimit(pol, size + extra)
  {
    MulMonotone(pol.sigOpsPerMb, MegaBytes(size), MegaBytes(size + extra));
  }

  lemma LimitPerMegaByte(pol: Policy, size: nat)
    requires size > 0
    ensures pol.sigOpsPerMb * (1 + (size - 1) / 1_000_000) == SigOpsLimit(pol, size)
  {
  }

  function PrioritySize(pol: Policy): nat {
    Min(pol.maxSize, pol.prioritySize)
  }

  /** The priority of the transaction at place i costs nothing, and with it the block was below the priority size. */
  ghost predicate FreeAt(pool: Pool, pol: Policy, reserve: nat, vtx: seq<Tx>, i: nat)
    requires Known(pool, vtx) && i < |vtx|
  {
    && pol.allowFree(pool.entries[vtx[i]].priority)
    && reserve + TotalSize(pool, vtx[..i + 1]) < PrioritySize(pol)
  }

  /** The transaction at place i pays the minimum fee, or found the block below its minimum size. */
  ghost predicate PaysAt(pool: Pool, pol: Policy, reserve: nat, vtx: seq<Tx>, i: nat)
    requires Known(pool, vtx) && i < |vtx|
  {
    || pool.entries[vtx[i]].modifiedFee >= pol.minRelayFee(pool.entries[vtx[i]].size)
    || reserve + TotalSize(pool, vtx[..i]) < Min(pol.maxSize, pol.minSize)
  }

  lemma Shrinks(all: set<Tx>, b: set<Tx>, t: Tx)
    requires t in all && t !in b
    ensures all - (b + {t}) < all - b
  {
    assert t in all - b;
  }

  /** Every one of the given transactions is in one of four places. */
  ghost predicate Within(all: set<Tx>, b: set<Tx>, w: set<Tx>, r: set<Tx>, v: set<Tx>) {
    all <= b + w + r + v
  }

  lemma WithinTake(all: set<Tx>, b: set<Tx>, w: set<Tx>, r: set<Tx>, v: set<Tx>, t: Tx)
    requires Within(all, b, w, r, v)
    ensures all <= b + w + r + (v - {t}) + {t}
  {
  }

  lemma WithinStep(all: set<Tx>, places: set<Tx>, b: set<Tx>, w: set<Tx>, r: set<Tx>, v: set<Tx>)
    requires all <= places && Within(places, b, w, r, v)
    ensures Within(all, b, w, r, v)
  {
  }

  lemma WithinEnd(all: set<Tx>, b: set<Tx>, w: set<Tx>, r: set<Tx>)
    requires Within(all, b, w, r, {})
    ensures forall t :: t in all ==> t in b || t in w || t in r
  {
  }

  /** The queue holds pool transactions with their priorities. */
  ghost predicate Priced(pool: Pool, q: map<Tx, int>) {
    forall t :: t in q ==> t in pool.entries && q[t] == pool.entries[t].priority
  }

  ghost predicate IsTop(q: map<Tx, int>, top: Tx) {
    top in q && forall t :: t in q ==> q[t] <= q[top]
  }

  /** The candidate of highest priority in a queue. */
  method TopPriority(vec: map<Tx, int>) returns (top: Tx)
    requires vec != map[]
    ensures top in vec && IsTop(vec, top)
  {
    top :| top in vec;
    var rest := vec.Keys - {top};
    while rest != {}
      invariant rest <= vec.Keys && top in vec
      invariant forall t :: t in vec && t !in rest ==> vec[t] <= vec[top]
      decreases rest
    {
      var t :| t in rest;
      if vec[t] > vec[top] {
        top := t;
      }
      rest := rest - {t};
    }
  }

  /** The place of the best ranked of some candidates. */
  method TopScore(order: seq<Tx>, cleared: set<Tx>) returns (k: nat)
    requires cleared != {} && forall t :: t in cleared ==> t in order
    ensures k < |order| && order[k] in cleared && forall j :: 0 <= j < k ==> order[j] !in cleared
  {
    var t :| t in cleared;
    k := 0;
    while order[k] !in cleared
      invariant k < |order| && t in order[k..]
      invariant forall j :: 0 <= j < k ==> order[j] !in cleared
      decreases |order| - k
    {
      k := k + 1;
    }
  }

  /** The candidates ranked before n are in the block, waiting or refused. */
  ghost predicate DealtWith(order: seq<Tx>, n: nat, b: set<Tx>, w: set<Tx>, r: set<Tx>) {
    n <= |order| && forall j :: 0 <= j < n ==> order[j] in b || order[j] in w || order[j] in r
  }

  /** All of these are ranked before n. */
  ghost predicate Early(order: seq<Tx>, n: nat, s: set<Tx>) {
    n <= |order| && forall t :: t in s ==> t in order[..n]
  }

  lemma EarlyMore(order: seq<Tx>, n: nat, m: nat, s: set<Tx>, t: Tx, s': set<Tx>)
    requires Early(order, n, s) && n <= m <= |order| && t in order[..m] && s' <= s + {t}
    ensures Early(order, m, s')
  {
  }

  /** What is ranked before the best of the candidates has been dealt with. */
  lemma Ranked(order: seq<Tx>, n: nat, k: nat, b: set<Tx>, c: set<Tx>, w: set<Tx>, r: set<Tx>)
    requires Covers(order, n, b + c + w + r) && Early(order, n, c) && k < |order|
    requires if c == {} then k == n else order[k] in c && forall j :: 0 <= j < k ==> order[j] !in c
    ensures DealtWith(order, k, b, w, r) && (c != {} ==> k < n)
  {
    if c != {} {
      var i :| 0 <= i < |order[..n]| && order[..n][i] == order[k];
      assert order[i] in c;
    }
  }

  lemma DealtMore(order: seq<Tx>, k: nat, b: set<Tx>, w: set<Tx>, r: set<Tx>, w': set<Tx>, r': set<Tx>)
    requires DealtWith(order, k, b, w, r) && w <= w' && r <= r' && k < |order| && order[k] in r'
    ensures DealtWith(order, k + 1, b, w', r')
  {
  }

  /** The first n candidates are among the given ones. */
  ghost predicate Covers(order: seq<Tx>, n: nat, all: set<Tx>) {
    n <= |order| && forall k :: 0 <= k < n ==> order[k] in all
  }

  lemma EarlyStep(order: seq<Tx>, n: nat, m: nat, c: set<Tx>, w: set<Tx>, t: Tx, c': set<Tx>, w': set<Tx>)
    requires Early(order, n, c) && Early(order, n, w) && n <= m <= |order| && t in order[..m]
    requires c' <= c + w && w' <= w + {t}
    ensures Early(order, m, c') && Early(order, m, w')
  {
    EarlyMore(order, n, m, c + w, t, c');
    EarlyMore(order, n, m, w, t, w');
  }

  lemma CoversMore(order: seq<Tx>, n: nat, m: nat, all: set<Tx>, t: Tx, more: set<Tx>)
    requires Covers(order, n, all) && all <= more && t in more
             && (m == n || (m == n + 1 && n < |order| && order[n] == t))
    ensures Covers(order, m, more)
  {
  }

  /** No candidate gets lost in a step. */
  lemma KeepsSight(b: set<Tx>, c: set<Tx>, w: set<Tx>, r: set<Tx>, t: Tx, b': set<Tx>, c': set<Tx>, w': set<Tx>,
                   r': set<Tx>)
    requires t in b' || t in w' || t in r'
    requires r <= r' && ((b' == b && c - {t} <= c' && w <= w')
             || (b' == b + {t} && w' <= w && c - {t} + (w - w') <= c'))
    ensures b + c + w + r <= b' + c' + w' + r' && t in b' + c' + w' + r'
  {
  }

  lemma EndScore(order: seq<Tx>, b: set<Tx>, w: set<Tx>, r: set<Tx>)
    requires Covers(order, |order|, b + {} + w + r)
    ensures DealtWith(order, |order|, b, w, r)
    ensures forall t :: t in order ==> t in b || t in w || t in r
  {
  }

  /** A transaction that is no child of a new one still waits for the same parent. */
  lemma StillMissing(pool: Pool, was: set<Tx>, t: Tx, w: Tx)
    requires Consistent(pool) && t in pool.entries && w in pool.entries && w !in pool.children[t]
             && Missing(pool, was, w)
    ensures Missing(pool, was + {t}, w)
  {
    var p :| p in pool.parents[w] && p !in was;
    assert w in pool.children[p];
  }

  ghost predicate FitsAfter(pool: Pool, pol: Policy, reserve: nat, vtx: seq<Tx>, t: Tx)
    requires Known(pool, vtx) && t in pool.entries
  {
    && pool.entries[t].final && reserve + TotalSize(pool, vtx) + pool.entries[t].size <= pol.maxSize
    && SigOpsAllowed(pol, reserve + TotalSize(pool, vtx) + pool.entries[t].size,
                     COINBASE_SIGOPS + TotalSigOps(pool, vtx) + pool.entries[t].sigOps)
  }

  lemma FitsAfterExact(pool: Pool, pol: Policy, reserve: nat, vtx: seq<Tx>, t: Tx)
    requires Known(pool, vtx) && t in pool.entries
    ensures Known(pool, vtx + [t])
    ensures FitsAfter(pool, pol, reserve, vtx, t) <==>
              && pool.entries[t].final && reserve + TotalSize(pool, vtx + [t]) <= pol.maxSize
              && SigOpsAllowed(pol, reserve + TotalSize(pool, vtx + [t]), 100 + TotalSigOps(pool, vtx + [t]))
  {
    AppendTotals(pool, vtx, t);
  }

  lemma {:induction false} Growing(pool: Pool, vtx: seq<Tx>, n: nat)
    requires Known(pool, vtx) && n <= |vtx|
    ensures TotalSize(pool, vtx[..n]) <= TotalSize(pool, vtx) && TotalSigOps(pool, vtx[..n]) <= TotalSigOps(pool, vtx)
    decreases |vtx| - n
  {
    if n == |vtx| {
      assert vtx[..n] == vtx;
    } else {
      Growing(pool, vtx, n + 1);
      assert vtx[..n + 1] == vtx[..n] + [vtx[n]];
      AppendTotals(pool, vtx[..n], vtx[n]);
    }
  }

  /** What did not fit once fits later only into a block that it takes beyond one megabyte. */
  lemma StillUnfit(pool: Pool, pol: Policy, reserve: nat, vtx: seq<Tx>, n: nat, t: Tx)
    requires Known(pool, vtx) && n <= |vtx| && t in pool.entries
    requires !FitsAfter(pool, pol, reserve, vtx[..n], t) && FitsAfter(pool, pol, reserve, vtx, t)
    ensures 1_000_000 < reserve + TotalSize(pool, vtx) + pool.entries[t].size <= pol.maxSize
  {
    hide TotalSize;
    hide TotalSigOps;
    hide SigOpsLimit;
    Growing(pool, vtx, n);
  }

  /**
   The block is maximal up to one megabyte: after a complete run no transaction outside it, with all its
   parents inside, could be added to give a block of at most that size.
   */
  lemma NothingMoreFits(pool: Pool, pol: Policy, reserve: nat, vtx: seq<Tx>, inBlock: set<Tx>, waiting: set<Tx>,
                        refused: map<Tx, nat>, t: Tx)
    requires Known(pool, vtx) && t in pool.entries && t !in inBlock && !Missing(pool, inBlock, t)
    requires forall u :: u in pool.entries ==> u in inBlock || u in waiting || u in refused
    requires forall w :: w in waiting ==> Missing(pool, inBlock, w)
    requires forall u :: u in refused ==>
               u in pool.entries && refused[u] <= |vtx| && !FitsAfter(pool, pol, reserve, vtx[..refused[u]], u)
    ensures reserve + TotalSize(pool, vtx) + pool.entries[t].size <= 1_000_000 ==>
              !FitsAfter(pool, pol, reserve, vtx, t)
    ensures pol.maxSize <= 1_000_000 ==> !FitsAfter(pool, pol, reserve, vtx, t)
  {
    hide Missing;
    if FitsAfter(pool, pol, reserve, vtx, t) {
      StillUnfit(pool, pol, reserve, vtx, refused[t], t);
    }
  }

  /** Beyond that it is not: a later transaction can bring the block to its second megabyte and make room. */
  lemma RoomComesLate(t: Tx, u: Tx)
    requires t != u
    ensures var pool := Pool(map[t := Entry(100, 19_900, 0, 0, true, 0), u := Entry(999_900, 0, 0, 0, true, 0)],
                             map[t := {}, u := {}], map[t := {}, u := {}]);
            var pol := Policy(2_000_000, 0, 0, 20_000, (_: nat) => 0, (_: int) => true);
            && Consistent(pool) && Known(pool, [u]) && !FitsAfter(pool, pol, 1000, [], t)
            && FitsAfter(pool, pol, 1000, [], u) && FitsAfter(pool, pol, 1000, [u], t)
  {
    var pool := Pool(map[t := Entry(100, 19_900, 0, 0, true, 0), u := Entry(999_900, 0, 0, 0, true, 0)],
                     map[t := {}, u := {}], map[t := {}, u := {}]);
    assert [u][..0] == [];
    assert TotalSize(pool, [u]) == 999_900 && TotalSigOps(pool, [u]) == 0;
  }

  /** Candidates that wait for a new member of the block go back to the queue with their priorities. */
  method ReleasePriority(children: set<Tx>, wait: map<Tx, int>, vec: map<Tx, int>)
    returns (wait': map<Tx, int>, vec': map<Tx, int>)
    requires wait.Keys !! vec.Keys
    ensures wait' == wait - children && wait'.Keys !! vec'.Keys
    ensures vec'.Keys == vec.Keys + wait.Keys * children
    ensures forall t :: t in vec' ==> vec'[t] == if t in vec then vec[t] else wait[t]
  {
    wait', vec' := wait, vec;
    var rest := children;
    while rest != {}
      invariant rest <= children
      invariant wait' == wait - (children - rest) && vec'.Keys == vec.Keys + wait.Keys * (children - rest)
      invariant forall t :: t in vec' ==> vec'[t] == if t in vec then vec[t] else wait[t]
      decreases rest
    {
      var child :| child in rest;
      if child in wait' {
        vec' := vec'[child := wait'[child]];
        wait' := wait' - {child};
      }
      rest := rest - {child};
    }
  }

  /** Transactions that wait for a new member of the block are tried again. */
  method Release(children: set<Tx>, waiting: set<Tx>, cleared: set<Tx>) returns (waiting': set<Tx>, cleared': set<Tx>)
    ensures waiting' == waiting - children && cleared' == cleared + waiting * children
  {
    waiting', cleared' := waiting, cleared;
    var rest := children;
    while rest != {}
      invariant rest <= children
      invariant waiting' == waiting - (children - rest) && cleared' == cleared + waiting * (children - rest)
      decreases rest
    {
      var child :| child in rest;
      if child in waiting' {
        cleared' := cleared' + {child};
        waiting' := waiting' - {child};
      }
      rest := rest - {child};
    }
  }
}
