/**
 The address manager's tables as a value: entries by id, the index by network address, the random
 order, and the buckets of new and of tried addresses. An empty bucket slot is a slot that is not
 in the table. Every change the manager makes is composed of the small steps defined here.
 */
module AddrBook {

  type Key(==, !new, 0)
  type NetAddr(==, !new, 0)

  datatype Service = Service(ip: NetAddr, port: nat)

  /** Address, where it was learnt, and the record of our attempts to reach it. */
  datatype Stats = Stats(
    svc: Service,
    nServices: set<nat>,
    nTime: int,
    source: NetAddr,
    nLastSuccess: int,
    nLastTry: int,
    nLastCountAttempt: int,
    nAttempts: int)

  datatype AddrInfo = AddrInfo(stats: Stats, nRefCount: int, fInTried: bool, nRandomPos: int)

  const TRIED_BUCKET_COUNT: nat := 256
  const NEW_BUCKET_COUNT: nat := 1024
  const BUCKET_SIZE: nat := 64
  const NEW_BUCKETS_PER_ADDRESS: nat := 8

  /** The keyed hashes that place an address; nothing is known about them. */
  datatype Hashes = Hashes(
    tried: (Key, Service) -> nat,
    fromSource: (Key, Service, NetAddr) -> nat,
    pos: (Key, Service, bool, nat) -> nat)

  /** The hashes together with the manager's secret key. */
  datatype Placing = Placing(h: Hashes, nKey: Key)

  datatype Slot = Slot(bucket: nat, pos: nat)

  datatype Book = Book(
    k: Placing,
    nIdCount: int,
    mapInfo: map<int, AddrInfo>,
    mapAddr: map<NetAddr, int>,
    vRandom: seq<int>,
    nTried: int,
    vvTried: map<Slot, int>,
    nNew: int,
    vvNew: map<Slot, int>)

  function TriedBucket(k: Placing, svc: Service): nat {
    k.h.tried(k.nKey, svc) % TRIED_BUCKET_COUNT
  }

  function NewBucket(k: Placing, svc: Service, src: NetAddr): nat {
    k.h.fromSource(k.nKey, svc, src) % NEW_BUCKET_COUNT
  }

  function BucketPos(k: Placing, svc: Service, fNew: bool, b: nat): nat {
    k.h.pos(k.nKey, svc, fNew, b) % BUCKET_SIZE
  }

  function TriedSlot(k: Placing, svc: Service): Slot {
    Slot(TriedBucket(k, svc), BucketPos(k, svc, false, TriedBucket(k, svc)))
  }

  function NewSlot(k: Placing, svc: Service, b: nat): Slot {
    Slot(b, BucketPos(k, svc, true, b))
  }

  function Svc(bk: Book, id: int): Service
    requires id in bk.mapInfo
  {
    bk.mapInfo[id].stats.svc
  }

  function Ip(bk: Book, id: int): NetAddr
    requires id in bk.mapInfo
  {
    bk.mapInfo[id].stats.svc.ip
  }

  /** The buckets of new addresses in which an entry stands. */
  function Buckets(bk: Book, id: int): set<nat>
    requires id in bk.mapInfo
  {
    set b: nat | b < NEW_BUCKET_COUNT && NewSlot(bk.k, Svc(bk, id), b) in bk.vvNew
                 && bk.vvNew[NewSlot(bk.k, Svc(bk, id), b)] == id
  }

  // ---------- the consistency conditions ----------

  predicate IdsBelow(bk: Book) {
    forall id :: id in bk.mapInfo ==> 0 <= id < bk.nIdCount
  }

  predicate AddrIndex(bk: Book) {
    && (forall id :: id in bk.mapInfo ==> Ip(bk, id) in bk.mapAddr && bk.mapAddr[Ip(bk, id)] == id)
    && (forall a :: a in bk.mapAddr ==> bk.mapAddr[a] in bk.mapInfo && Ip(bk, bk.mapAddr[a]) == a)
  }

  predicate RandomIndex(bk: Book) {
    && (forall id :: id in bk.mapInfo ==>
          0 <= bk.mapInfo[id].nRandomPos < |bk.vRandom| && bk.vRandom[bk.mapInfo[id].nRandomPos] == id)
    && (forall k :: 0 <= k < |bk.vRandom| ==>
          bk.vRandom[k] in bk.mapInfo && bk.mapInfo[bk.vRandom[k]].nRandomPos == k)
  }

  predicate TriedTable(bk: Book) {
    && (forall s :: s in bk.vvTried ==>
          && bk.vvTried[s] in bk.mapInfo && bk.mapInfo[bk.vvTried[s]].fInTried
          && TriedSlot(bk.k, Svc(bk, bk.vvTried[s])) == s)
    && (forall id :: id in bk.mapInfo && bk.mapInfo[id].fInTried ==>
          TriedSlot(bk.k, Svc(bk, id)) in bk.vvTried && bk.vvTried[TriedSlot(bk.k, Svc(bk, id))] == id)
  }

  predicate NewTable(bk: Book) {
    forall s :: s in bk.vvNew ==>
      && s.bucket < NEW_BUCKET_COUNT
      && bk.vvNew[s] in bk.mapInfo && !bk.mapInfo[bk.vvNew[s]].fInTried
      && NewSlot(bk.k, Svc(bk, bk.vvNew[s]), s.bucket) == s
  }

  /** Reference counts are exact; only pending entries may stand nowhere. */
  predicate RefCounts(bk: Book, pending: set<int>) {
    forall id :: id in bk.mapInfo ==>
      && bk.mapInfo[id].nRefCount == |Buckets(bk, id)|
      && bk.mapInfo[id].nRefCount <= NEW_BUCKETS_PER_ADDRESS
      && (bk.mapInfo[id].fInTried ==> bk.mapInfo[id].nRefCount == 0)
      && (!bk.mapInfo[id].fInTried && id !in pending ==> bk.mapInfo[id].nRefCount > 0)
  }

  function TriedIds(m: map<int, AddrInfo>): set<int> {
    set id | id in m && m[id].fInTried
  }

  function NewIds(m: map<int, AddrInfo>): set<int> {
    set id | id in m && !m[id].fInTried
  }

  predicate Counters(bk: Book) {
    && bk.nTried == |TriedIds(bk.mapInfo)|
    && bk.nNew == |NewIds(bk.mapInfo)|
    && |bk.vRandom| == bk.nTried + bk.nNew
  }

  predicate Times(bk: Book) {
    forall id :: id in bk.mapInfo ==>
      var st := bk.mapInfo[id].stats;
      st.nLastTry >= 0 && st.nLastSuccess >= 0 && (bk.mapInfo[id].fInTried ==> st.nLastSuccess > 0)
  }

  predicate InvBut(bk: Book, pending: set<int>) {
    && IdsBelow(bk) && AddrIndex(bk) && RandomIndex(bk) && TriedTable(bk) && NewTable(bk)
    && RefCounts(bk, pending) && Counters(bk)
  }

  /** The manager's own consistency check asks for this and for Times. */
  predicate Inv(bk: Book) {
    InvBut(bk, {})
  }

  /** An entry that has not been tried stands in some bucket. */
  lemma SomeBucket(bk: Book, id: int)
    requires Inv(bk) && id in bk.mapInfo && !bk.mapInfo[id].fInTried
    ensures Buckets(bk, id) != {}
  {
  }

  // ---------- the steps ----------

  function SetInfo(bk: Book, id: int, info: AddrInfo): Book {
    bk.(mapInfo := bk.mapInfo[id := info])
  }

  /** New figures for an entry; its service never changes. */
  function SetStats(bk: Book, id: int, st: Stats): Book
    requires id in bk.mapInfo
  {
    SetInfo(bk, id, bk.mapInfo[id].(stats := st))
  }

  /** A new entry, in no bucket yet. */
  function Create(bk: Book, st: Stats): Book {
    var id := bk.nIdCount;
    bk.(nIdCount := id + 1,
        mapInfo := bk.mapInfo[id := AddrInfo(st, 0, false, |bk.vRandom|)],
        mapAddr := bk.mapAddr[st.svc.ip := id],
        vRandom := bk.vRandom + [id],
        nNew := bk.nNew + 1)
  }

  predicate CanSwap(bk: Book, i: nat, j: nat) {
    i < |bk.vRandom| && j < |bk.vRandom| && bk.vRandom[i] in bk.mapInfo && bk.vRandom[j] in bk.mapInfo
  }

  function Swap(bk: Book, i: nat, j: nat): Book
    requires CanSwap(bk, i, j)
  {
    if i == j then bk
    else
      var a, b := bk.vRandom[i], bk.vRandom[j];
      var m := bk.mapInfo[a := bk.mapInfo[a].(nRandomPos := j)];
      bk.(mapInfo := m[b := m[b].(nRandomPos := i)], vRandom := bk.vRandom[i := b][j := a])
  }

  predicate CanDelete(bk: Book, id: int) {
    && id in bk.mapInfo && |bk.vRandom| > 0
    && 0 <= bk.mapInfo[id].nRandomPos && CanSwap(bk, bk.mapInfo[id].nRandomPos, |bk.vRandom| - 1)
  }

  function Delete(bk: Book, id: int): Book
    requires CanDelete(bk, id)
  {
    Drop(Swap(bk, bk.mapInfo[id].nRandomPos, |bk.vRandom| - 1), id)
  }

  /** Remove an entry whose id is last in the random order. */
  function Drop(bk: Book, id: int): Book
    requires id in bk.mapInfo && |bk.vRandom| > 0
  {
    bk.(vRandom := bk.vRandom[..|bk.vRandom| - 1],
        mapAddr := bk.mapAddr - {Ip(bk, id)},
        mapInfo := bk.mapInfo - {id},
        nNew := bk.nNew - 1)
  }

  /** Take an entry out of one slot. */
  function Unlink(bk: Book, s: Slot): Book
    requires s in bk.vvNew && bk.vvNew[s] in bk.mapInfo
  {
    var id := bk.vvNew[s];
    var info := bk.mapInfo[id];
    bk.(mapInfo := bk.mapInfo[id := info.(nRefCount := info.nRefCount - 1)], vvNew := bk.vvNew - {s})
  }

  /** Put an entry into bucket b. */
  function Link(bk: Book, id: int, b: nat): Book
    requires id in bk.mapInfo
  {
    var info := bk.mapInfo[id];
    bk.(mapInfo := bk.mapInfo[id := info.(nRefCount := info.nRefCount + 1)],
        vvNew := bk.vvNew[NewSlot(bk.k, info.stats.svc, b) := id])
  }

  /** Take an entry out of all its buckets. */
  function Sweep(bk: Book, id: int): Book
    requires id in bk.mapInfo
  {
    bk.(mapInfo := bk.mapInfo[id := bk.mapInfo[id].(nRefCount := 0)],
        vvNew := map s | s in bk.vvNew && bk.vvNew[s] != id :: bk.vvNew[s])
  }

  /** Enter an entry that stands nowhere into the tried table. */
  function Promote(bk: Book, id: int): Book
    requires id in bk.mapInfo
  {
    bk.(mapInfo := bk.mapInfo[id := bk.mapInfo[id].(fInTried := true)],
        vvTried := bk.vvTried[TriedSlot(bk.k, Svc(bk, id)) := id],
        nTried := bk.nTried + 1, nNew := bk.nNew - 1)
  }

  /** Take an entry out of the tried table. */
  function Demote(bk: Book, id: int): Book
    requires id in bk.mapInfo
  {
    bk.(mapInfo := bk.mapInfo[id := bk.mapInfo[id].(fInTried := false)],
        vvTried := bk.vvTried - {TriedSlot(bk.k, Svc(bk, id))},
        nTried := bk.nTried - 1, nNew := bk.nNew + 1)
  }

  // ---------- what a step leaves alone ----------

  /** The same entries, standing for the same services under the same key. */
  ghost predicate SameEntries(bk: Book, bk': Book) {
    && bk'.k == bk.k && bk'.mapInfo.Keys == bk.mapInfo.Keys
    && forall id :: id in bk.mapInfo ==> Svc(bk', id) == Svc(bk, id)
  }

  lemma AddrIndexFrame(bk: Book, bk': Book)
    requires AddrIndex(bk) && SameEntries(bk, bk') && bk'.mapAddr == bk.mapAddr
    ensures AddrIndex(bk')
  {
    forall id | id in bk'.mapInfo
      ensures Ip(bk', id) in bk'.mapAddr && bk'.mapAddr[Ip(bk', id)] == id
    {
      assert id in bk.mapInfo && Svc(bk', id) == Svc(bk, id);
    }
    forall a | a in bk'.mapAddr
      ensures bk'.mapAddr[a] in bk'.mapInfo && Ip(bk', bk'.mapAddr[a]) == a
    {
      assert bk.mapAddr[a] in bk.mapInfo && Ip(bk, bk.mapAddr[a]) == a;
    }
  }

  lemma RandomIndexFrame(bk: Book, bk': Book)
    requires RandomIndex(bk) && bk'.mapInfo.Keys == bk.mapInfo.Keys && bk'.vRandom == bk.vRandom
    requires forall id :: id in bk.mapInfo ==> bk'.mapInfo[id].nRandomPos == bk.mapInfo[id].nRandomPos
    ensures RandomIndex(bk')
  {
  }

  lemma TriedTableFrame(bk: Book, bk': Book)
    requires TriedTable(bk) && SameEntries(bk, bk') && bk'.vvTried == bk.vvTried
    requires forall id :: id in bk.mapInfo ==> bk'.mapInfo[id].fInTried == bk.mapInfo[id].fInTried
    ensures TriedTable(bk')
  {
    forall s | s in bk'.vvTried
      ensures bk'.vvTried[s] in bk'.mapInfo && bk'.mapInfo[bk'.vvTried[s]].fInTried
              && TriedSlot(bk'.k, Svc(bk', bk'.vvTried[s])) == s
    {
      var id := bk.vvTried[s];
      assert id in bk.mapInfo && TriedSlot(bk.k, Svc(bk, id)) == s;
    }
    forall id | id in bk'.mapInfo && bk'.mapInfo[id].fInTried
      ensures TriedSlot(bk'.k, Svc(bk', id)) in bk'.vvTried && bk'.vvTried[TriedSlot(bk'.k, Svc(bk', id))] == id
    {
      assert id in bk.mapInfo && bk.mapInfo[id].fInTried;
    }
  }

  lemma NewTableFrame(bk: Book, bk': Book)
    requires NewTable(bk) && SameEntries(bk, bk')
    requires forall s :: s in bk'.vvNew ==> s in bk.vvNew && bk'.vvNew[s] == bk.vvNew[s]
    requires forall s :: s in bk'.vvNew && bk'.vvNew[s] in bk.mapInfo ==>
               bk'.mapInfo[bk'.vvNew[s]].fInTried == bk.mapInfo[bk.vvNew[s]].fInTried
    ensures NewTable(bk')
  {
    forall s | s in bk'.vvNew
      ensures s.bucket < NEW_BUCKET_COUNT && bk'.vvNew[s] in bk'.mapInfo && !bk'.mapInfo[bk'.vvNew[s]].fInTried
              && NewSlot(bk'.k, Svc(bk', bk'.vvNew[s]), s.bucket) == s
    {
      var id := bk.vvNew[s];
      assert id in bk.mapInfo && NewSlot(bk.k, Svc(bk, id), s.bucket) == s;
    }
  }

  lemma BucketsFrame(bk: Book, bk': Book, id: int)
    requires id in bk.mapInfo && id in bk'.mapInfo && Svc(bk', id) == Svc(bk, id)
    requires bk'.k == bk.k
    requires forall s :: (s in bk'.vvNew && bk'.vvNew[s] == id) <==> (s in bk.vvNew && bk.vvNew[s] == id)
    ensures Buckets(bk', id) == Buckets(bk, id)
  {
    forall b: nat | b < NEW_BUCKET_COUNT
      ensures b in Buckets(bk', id) <==> b in Buckets(bk, id)
    {
      var s := NewSlot(bk.k, Svc(bk, id), b);
      assert NewSlot(bk'.k, Svc(bk', id), b) == s;
    }
  }

  lemma RefCountsFrame(bk: Book, bk': Book, pending: set<int>)
    requires RefCounts(bk, pending) && SameEntries(bk, bk') && bk'.vvNew == bk.vvNew
    requires forall id :: id in bk.mapInfo ==>
               && bk'.mapInfo[id].fInTried == bk.mapInfo[id].fInTried
               && bk'.mapInfo[id].nRefCount == bk.mapInfo[id].nRefCount
    ensures RefCounts(bk', pending)
  {
    forall id | id in bk'.mapInfo
      ensures bk'.mapInfo[id].nRefCount == |Buckets(bk', id)|
    {
      assert id in bk.mapInfo;
      BucketsFrame(bk, bk', id);
    }
  }

  lemma CountersFrame(bk: Book, bk': Book)
    requires Counters(bk) && bk'.mapInfo.Keys == bk.mapInfo.Keys
    requires bk'.nTried == bk.nTried && bk'.nNew == bk.nNew && |bk'.vRandom| == |bk.vRandom|
    requires forall id :: id in bk.mapInfo ==> bk'.mapInfo[id].fInTried == bk.mapInfo[id].fInTried
    ensures Counters(bk')
  {
    var m, m' := bk.mapInfo, bk'.mapInfo;
    forall id
      ensures id in m' <==> id in m
      ensures id in TriedIds(m') <==> id in TriedIds(m)
      ensures id in NewIds(m') <==> id in NewIds(m)
    {
      assert id in m'.Keys <==> id in m.Keys;
    }
    assert TriedIds(m') == TriedIds(m) && NewIds(m') == NewIds(m);
  }

  // ---------- each step keeps the conditions ----------

  /** Only the figures of entries differ. */
  ghost predicate SameButStats(bk: Book, bk': Book) {
    && SameEntries(bk, bk') && bk'.nIdCount == bk.nIdCount && bk'.mapAddr == bk.mapAddr && bk'.vRandom == bk.vRandom
    && bk'.vvTried == bk.vvTried && bk'.vvNew == bk.vvNew && bk'.nTried == bk.nTried && bk'.nNew == bk.nNew
    && forall id :: id in bk.mapInfo ==>
         && bk'.mapInfo[id].fInTried == bk.mapInfo[id].fInTried
         && bk'.mapInfo[id].nRefCount == bk.mapInfo[id].nRefCount
         && bk'.mapInfo[id].nRandomPos == bk.mapInfo[id].nRandomPos
  }

  lemma StatsFrame(bk: Book, bk': Book, pending: set<int>)
    requires InvBut(bk, pending) && SameButStats(bk, bk')
    ensures InvBut(bk', pending)
  {
    assert IdsBelow(bk') by { assert forall id :: id in bk'.mapInfo ==> id in bk.mapInfo; }
    AddrIndexFrame(bk, bk');
    RandomIndexFrame(bk, bk');
    TriedTableFrame(bk, bk');
    NewTableFrame(bk, bk');
    RefCountsFrame(bk, bk', pending);
    CountersFrame(bk, bk');
  }

  lemma SetStatsKeeps(bk: Book, id: int, st: Stats)
    requires id in bk.mapInfo && st.svc == Svc(bk, id)
    ensures SameButStats(bk, SetStats(bk, id, st))
  {
  }

  lemma SetStatsInv(bk: Book, id: int, st: Stats, pending: set<int>)
    requires InvBut(bk, pending) && id in bk.mapInfo && st.svc == Svc(bk, id)
    ensures InvBut(SetStats(bk, id, st), pending)
  {
    hide InvBut;
    SetStatsKeeps(bk, id, st);
    StatsFrame(bk, SetStats(bk, id, st), pending);
  }

  // ----- swapping -----

  /** Only the random order differs. */
  ghost predicate SameButOrder(bk: Book, bk': Book) {
    && SameEntries(bk, bk') && bk'.nIdCount == bk.nIdCount && bk'.mapAddr == bk.mapAddr && |bk'.vRandom| == |bk.vRandom|
    && bk'.vvTried == bk.vvTried && bk'.vvNew == bk.vvNew && bk'.nTried == bk.nTried && bk'.nNew == bk.nNew
    && forall id :: id in bk.mapInfo ==>
         && bk'.mapInfo[id].stats == bk.mapInfo[id].stats
         && bk'.mapInfo[id].fInTried == bk.mapInfo[id].fInTried
         && bk'.mapInfo[id].nRefCount == bk.mapInfo[id].nRefCount
  }

  lemma OrderFrame(bk: Book, bk': Book, pending: set<int>)
    requires InvBut(bk, pending) && SameButOrder(bk, bk') && RandomIndex(bk')
    ensures InvBut(bk', pending)
  {
    assert IdsBelow(bk') by { assert forall id :: id in bk'.mapInfo ==> id in bk.mapInfo; }
    AddrIndexFrame(bk, bk');
    TriedTableFrame(bk, bk');
    NewTableFrame(bk, bk');
    RefCountsFrame(bk, bk', pending);
    CountersFrame(bk, bk');
  }

  lemma SwapRandomIndex(bk: Book, i: nat, j: nat)
    requires RandomIndex(bk) && i < |bk.vRandom| && j < |bk.vRandom|
    ensures CanSwap(bk, i, j) && RandomIndex(Swap(bk, i, j))
  {
    assert bk.mapInfo[bk.vRandom[i]].nRandomPos == i && bk.mapInfo[bk.vRandom[j]].nRandomPos == j;
    var bk' := Swap(bk, i, j);
    forall id | id in bk'.mapInfo
      ensures 0 <= bk'.mapInfo[id].nRandomPos < |bk'.vRandom| && bk'.vRandom[bk'.mapInfo[id].nRandomPos] == id
    {
      assert id in bk.mapInfo && bk.vRandom[bk.mapInfo[id].nRandomPos] == id;
    }
    forall k | 0 <= k < |bk'.vRandom|
      ensures bk'.vRandom[k] in bk'.mapInfo && bk'.mapInfo[bk'.vRandom[k]].nRandomPos == k
    {
      assert bk.mapInfo[bk.vRandom[k]].nRandomPos == k;
    }
  }

  lemma SwapKeeps(bk: Book, i: nat, j: nat)
    requires CanSwap(bk, i, j)
    ensures SameButOrder(bk, Swap(bk, i, j))
  {
  }

  lemma SwapInv(bk: Book, i: nat, j: nat, pending: set<int>)
    requires InvBut(bk, pending) && i < |bk.vRandom| && j < |bk.vRandom|
    ensures CanSwap(bk, i, j) && InvBut(Swap(bk, i, j), pending)
  {
    SwapRandomIndex(bk, i, j);
    SwapKeeps(bk, i, j);
    OrderFrame(bk, Swap(bk, i, j), pending);
  }

  // ----- deleting -----

  lemma SlotInBuckets(bk: Book, s: Slot)
    requires NewTable(bk) && s in bk.vvNew
    ensures s.bucket in Buckets(bk, bk.vvNew[s])
  {
    assert NewSlot(bk.k, Svc(bk, bk.vvNew[s]), s.bucket) == s;
  }

  /** An entry without references stands in no slot. */
  lemma NoSlots(bk: Book, id: int)
    requires NewTable(bk) && id in bk.mapInfo && |Buckets(bk, id)| == 0
    ensures forall s :: s in bk.vvNew ==> bk.vvNew[s] != id
  {
    forall s | s in bk.vvNew
      ensures bk.vvNew[s] != id
    {
      SlotInBuckets(bk, s);
    }
  }

  predicate Unreferenced(bk: Book, id: int) {
    id in bk.mapInfo && !bk.mapInfo[id].fInTried && bk.mapInfo[id].nRefCount == 0
  }

  predicate AtEnd(bk: Book, id: int) {
    id in bk.mapInfo && |bk.vRandom| > 0 && bk.mapInfo[id].nRandomPos == |bk.vRandom| - 1
  }

  lemma DropIndexes(bk: Book, id: int)
    requires IdsBelow(bk) && AddrIndex(bk) && RandomIndex(bk) && AtEnd(bk, id)
    ensures IdsBelow(Drop(bk, id)) && AddrIndex(Drop(bk, id)) && RandomIndex(Drop(bk, id))
  {
    var bk' := Drop(bk, id);
    forall i | i in bk'.mapInfo
      ensures Ip(bk', i) in bk'.mapAddr && bk'.mapAddr[Ip(bk', i)] == i
    {
      assert i in bk.mapInfo && bk.mapAddr[Ip(bk, i)] == i;
    }
    forall k | 0 <= k < |bk'.vRandom|
      ensures bk'.vRandom[k] in bk'.mapInfo && bk'.mapInfo[bk'.vRandom[k]].nRandomPos == k
    {
      assert bk.vRandom[k] in bk.mapInfo && bk.mapInfo[bk.vRandom[k]].nRandomPos == k;
    }
  }

  lemma DropTables(bk: Book, id: int, pending: set<int>)
    requires TriedTable(bk) && NewTable(bk) && RefCounts(bk, pending) && Unreferenced(bk, id) && AtEnd(bk, id)
    ensures TriedTable(Drop(bk, id)) && NewTable(Drop(bk, id)) && RefCounts(Drop(bk, id), pending - {id})
  {
    var bk' := Drop(bk, id);
    NoSlots(bk, id);
    forall i | i in bk'.mapInfo
      ensures bk'.mapInfo[i].nRefCount == |Buckets(bk', i)|
    {
      BucketsFrame(bk, bk', i);
    }
    forall s | s in bk'.vvNew
      ensures bk'.vvNew[s] in bk'.mapInfo && NewSlot(bk'.k, Svc(bk', bk'.vvNew[s]), s.bucket) == s
    {
      assert bk.vvNew[s] in bk.mapInfo && NewSlot(bk.k, Svc(bk, bk.vvNew[s]), s.bucket) == s;
    }
  }

  lemma DropCounters(bk: Book, id: int)
    requires Counters(bk) && Unreferenced(bk, id) && AtEnd(bk, id)
    ensures Counters(Drop(bk, id))
  {
    var m, m' := bk.mapInfo, bk.mapInfo - {id};
    assert TriedIds(m') == TriedIds(m);
    assert NewIds(m') == NewIds(m) - {id};
  }

  lemma DeleteInv(bk: Book, id: int, pending: set<int>)
    requires InvBut(bk, pending) && Unreferenced(bk, id)
    ensures CanDelete(bk, id) && InvBut(Delete(bk, id), pending - {id})
  {
    hide InvBut;
    SwapToEnd(bk, id, pending);
    SwapToEndInv(bk, id, pending);
    DropInv(Swap(bk, bk.mapInfo[id].nRandomPos, |bk.vRandom| - 1), id, pending);
  }

  lemma SwapToEndInv(bk: Book, id: int, pending: set<int>)
    requires InvBut(bk, pending) && CanDelete(bk, id)
    ensures InvBut(Swap(bk, bk.mapInfo[id].nRandomPos, |bk.vRandom| - 1), pending)
  {
    hide InvBut;
    SwapInv(bk, bk.mapInfo[id].nRandomPos, |bk.vRandom| - 1, pending);
  }

  lemma SwapToEnd(bk: Book, id: int, pending: set<int>)
    requires InvBut(bk, pending) && Unreferenced(bk, id)
    ensures CanDelete(bk, id)
    ensures var sw := Swap(bk, bk.mapInfo[id].nRandomPos, |bk.vRandom| - 1); Unreferenced(sw, id) && AtEnd(sw, id)
  {
    assert bk.vRandom[bk.mapInfo[id].nRandomPos] == id;
  }

  lemma DropInv(bk: Book, id: int, pending: set<int>)
    requires InvBut(bk, pending) && Unreferenced(bk, id) && AtEnd(bk, id)
    ensures InvBut(Drop(bk, id), pending - {id})
  {
    DropIndexes(bk, id);
    DropTables(bk, id, pending);
    DropCounters(bk, id);
  }

  // ----- creating -----

  lemma CreateIndexes(bk: Book, st: Stats)
    requires IdsBelow(bk) && AddrIndex(bk) && RandomIndex(bk) && st.svc.ip !in bk.mapAddr && bk.nIdCount >= 0
    ensures IdsBelow(Create(bk, st)) && AddrIndex(Create(bk, st)) && RandomIndex(Create(bk, st))
  {
    var bk' := Create(bk, st);
    forall i | i in bk'.mapInfo
      ensures Ip(bk', i) in bk'.mapAddr && bk'.mapAddr[Ip(bk', i)] == i
    {
      if i != bk.nIdCount { assert i in bk.mapInfo && bk.mapAddr[Ip(bk, i)] == i; }
    }
    forall a | a in bk'.mapAddr
      ensures bk'.mapAddr[a] in bk'.mapInfo && Ip(bk', bk'.mapAddr[a]) == a
    {
      if a != st.svc.ip { assert bk.mapAddr[a] in bk.mapInfo && Ip(bk, bk.mapAddr[a]) == a; }
    }
  }

  lemma CreateTables(bk: Book, st: Stats, pending: set<int>)
    requires IdsBelow(bk) && TriedTable(bk) && NewTable(bk) && RefCounts(bk, pending)
    ensures TriedTable(Create(bk, st)) && NewTable(Create(bk, st)) && RefCounts(Create(bk, st), pending + {bk.nIdCount})
  {
    var bk', id := Create(bk, st), bk.nIdCount;
    forall s | s in bk'.vvTried
      ensures bk'.vvTried[s] in bk'.mapInfo && bk'.mapInfo[bk'.vvTried[s]].fInTried
              && TriedSlot(bk'.k, Svc(bk', bk'.vvTried[s])) == s
    {
      assert bk.vvTried[s] in bk.mapInfo && TriedSlot(bk.k, Svc(bk, bk.vvTried[s])) == s;
    }
    forall s | s in bk'.vvNew
      ensures bk'.vvNew[s] in bk'.mapInfo && bk'.vvNew[s] != id && NewSlot(bk'.k, Svc(bk', bk'.vvNew[s]), s.bucket) == s
    {
      assert bk.vvNew[s] in bk.mapInfo && NewSlot(bk.k, Svc(bk, bk.vvNew[s]), s.bucket) == s;
    }
    assert Buckets(bk', id) == {};
    forall i | i in bk'.mapInfo
      ensures bk'.mapInfo[i].nRefCount == |Buckets(bk', i)|
    {
      if i != id { BucketsFrame(bk, bk', i); }
    }
  }

  lemma CreateCounters(bk: Book, st: Stats)
    requires Counters(bk) && IdsBelow(bk)
    ensures Counters(Create(bk, st))
  {
    var m, m' := bk.mapInfo, Create(bk, st).mapInfo;
    assert TriedIds(m') == TriedIds(m);
    assert NewIds(m') == NewIds(m) + {bk.nIdCount};
  }

  lemma CreateInv(bk: Book, st: Stats, pending: set<int>)
    requires InvBut(bk, pending) && st.svc.ip !in bk.mapAddr && bk.nIdCount >= 0
    ensures InvBut(Create(bk, st), pending + {bk.nIdCount})
  {
    CreateIndexes(bk, st);
    CreateTables(bk, st, pending);
    CreateCounters(bk, st);
  }

  // ----- bucket slots -----

  /** The same entries, flags and indexes; only reference counts and the new table differ. */
  ghost predicate SameButNew(bk: Book, bk': Book) {
    && SameEntries(bk, bk') && bk'.nIdCount == bk.nIdCount && bk'.mapAddr == bk.mapAddr && bk'.vRandom == bk.vRandom
    && bk'.vvTried == bk.vvTried && bk'.nTried == bk.nTried && bk'.nNew == bk.nNew
    && forall id :: id in bk.mapInfo ==>
         && bk'.mapInfo[id].stats == bk.mapInfo[id].stats
         && bk'.mapInfo[id].fInTried == bk.mapInfo[id].fInTried
         && bk'.mapInfo[id].nRandomPos == bk.mapInfo[id].nRandomPos
  }

  lemma NewFrame(bk: Book, bk': Book, pending: set<int>, pending': set<int>)
    requires InvBut(bk, pending) && SameButNew(bk, bk') && NewTable(bk') && RefCounts(bk', pending')
    ensures InvBut(bk', pending')
  {
    assert IdsBelow(bk') by { assert forall id :: id in bk'.mapInfo ==> id in bk.mapInfo; }
    AddrIndexFrame(bk, bk');
    RandomIndexFrame(bk, bk');
    TriedTableFrame(bk, bk');
    CountersFrame(bk, bk');
  }

  /** Taking an entry out of a slot takes away that bucket and no other. */
  lemma UnlinkBuckets(bk: Book, s: Slot)
    requires NewTable(bk) && s in bk.vvNew
    ensures bk.vvNew[s] in bk.mapInfo
    ensures forall i :: i in bk.mapInfo ==>
              && i in Unlink(bk, s).mapInfo
              && Buckets(Unlink(bk, s), i) == if i == bk.vvNew[s] then Buckets(bk, i) - {s.bucket} else Buckets(bk, i)
    ensures s.bucket in Buckets(bk, bk.vvNew[s])
  {
    var bk' := Unlink(bk, s);
    forall i | i in bk.mapInfo
      ensures Buckets(bk', i) == if i == bk.vvNew[s] then Buckets(bk, i) - {s.bucket} else Buckets(bk, i)
    {
      if i != bk.vvNew[s] {
        BucketsFrame(bk, bk', i);
      } else {
        forall b: nat | b < NEW_BUCKET_COUNT
          ensures NewSlot(bk'.k, Svc(bk', i), b) == NewSlot(bk.k, Svc(bk, i), b)
          ensures b != s.bucket ==> NewSlot(bk.k, Svc(bk, i), b) != s
        {
        }
        assert NewSlot(bk.k, Svc(bk, i), s.bucket) == s;
        assert Buckets(bk', i) == Buckets(bk, i) - {s.bucket};
      }
    }
    assert NewSlot(bk.k, Svc(bk, bk.vvNew[s]), s.bucket) == s;
  }

  lemma UnlinkRefCounts(bk: Book, s: Slot, pending: set<int>)
    requires NewTable(bk) && RefCounts(bk, pending) && s in bk.vvNew
    ensures RefCounts(Unlink(bk, s), pending + {bk.vvNew[s]}) && bk.mapInfo[bk.vvNew[s]].nRefCount > 0
  {
    hide NewTable;
    hide Buckets;
    UnlinkBuckets(bk, s);
    assert |Buckets(bk, bk.vvNew[s]) - {s.bucket}| == |Buckets(bk, bk.vvNew[s])| - 1;
    assert forall i :: i in Unlink(bk, s).mapInfo ==> i in bk.mapInfo;
  }

  lemma UnlinkKeeps(bk: Book, s: Slot)
    requires s in bk.vvNew && bk.vvNew[s] in bk.mapInfo
    ensures SameButNew(bk, Unlink(bk, s))
  {
  }

  lemma UnlinkInv(bk: Book, s: Slot, pending: set<int>)
    requires InvBut(bk, pending) && s in bk.vvNew
    ensures bk.vvNew[s] in bk.mapInfo && bk.mapInfo[bk.vvNew[s]].nRefCount > 0
    ensures InvBut(Unlink(bk, s), pending + {bk.vvNew[s]})
  {
    var id := bk.vvNew[s];
    var bk' := Unlink(bk, s);
    UnlinkRefCounts(bk, s, pending);
    UnlinkKeeps(bk, s);
    NewTableFrame(bk, bk');
    NewFrame(bk, bk', pending, pending + {id});
  }

  lemma LinkBuckets(bk: Book, id: int, b: nat)
    requires NewTable(bk) && id in bk.mapInfo && b < NEW_BUCKET_COUNT && NewSlot(bk.k, Svc(bk, id), b) !in bk.vvNew
    ensures forall i :: i in bk.mapInfo ==>
              && i in Link(bk, id, b).mapInfo
              && Buckets(Link(bk, id, b), i) == if i == id then Buckets(bk, i) + {b} else Buckets(bk, i)
    ensures b !in Buckets(bk, id)
  {
    var bk' := Link(bk, id, b);
    forall i | i in bk.mapInfo
      ensures Buckets(bk', i) == if i == id then Buckets(bk, i) + {b} else Buckets(bk, i)
    {
      if i != id {
        BucketsFrame(bk, bk', i);
      } else {
        forall c: nat | c < NEW_BUCKET_COUNT
          ensures NewSlot(bk'.k, Svc(bk', i), c) == NewSlot(bk.k, Svc(bk, i), c)
        {
        }
        assert Buckets(bk', i) == Buckets(bk, i) + {b};
      }
    }
  }

  lemma LinkRefCounts(bk: Book, id: int, b: nat, pending: set<int>)
    requires NewTable(bk) && RefCounts(bk, pending) && id in bk.mapInfo && !bk.mapInfo[id].fInTried
    requires b < NEW_BUCKET_COUNT && NewSlot(bk.k, Svc(bk, id), b) !in bk.vvNew
    requires bk.mapInfo[id].nRefCount < NEW_BUCKETS_PER_ADDRESS
    ensures RefCounts(Link(bk, id, b), pending - {id})
  {
    hide NewTable;
    hide Buckets;
    LinkBuckets(bk, id, b);
    assert |Buckets(bk, id) + {b}| == |Buckets(bk, id)| + 1;
    assert forall i :: i in Link(bk, id, b).mapInfo ==> i in bk.mapInfo;
  }

  lemma LinkKeeps(bk: Book, id: int, b: nat)
    requires id in bk.mapInfo
    ensures SameButNew(bk, Link(bk, id, b))
  {
  }

  lemma LinkInv(bk: Book, id: int, b: nat, pending: set<int>)
    requires InvBut(bk, pending) && id in bk.mapInfo && !bk.mapInfo[id].fInTried
    requires b < NEW_BUCKET_COUNT && NewSlot(bk.k, Svc(bk, id), b) !in bk.vvNew
    requires bk.mapInfo[id].nRefCount < NEW_BUCKETS_PER_ADDRESS
    ensures InvBut(Link(bk, id, b), pending - {id})
  {
    var bk' := Link(bk, id, b);
    LinkNewTable(bk, id, b);
    LinkRefCounts(bk, id, b, pending);
    LinkKeeps(bk, id, b);
    NewFrame(bk, bk', pending, pending - {id});
  }

  lemma LinkNewTable(bk: Book, id: int, b: nat)
    requires NewTable(bk) && id in bk.mapInfo && !bk.mapInfo[id].fInTried && b < NEW_BUCKET_COUNT
    ensures NewTable(Link(bk, id, b))
  {
    var bk' := Link(bk, id, b);
    forall s | s in bk'.vvNew
      ensures s.bucket < NEW_BUCKET_COUNT && bk'.vvNew[s] in bk'.mapInfo && !bk'.mapInfo[bk'.vvNew[s]].fInTried
              && NewSlot(bk'.k, Svc(bk', bk'.vvNew[s]), s.bucket) == s
    {
      if s != NewSlot(bk.k, Svc(bk, id), b) {
        assert bk.vvNew[s] in bk.mapInfo && NewSlot(bk.k, Svc(bk, bk.vvNew[s]), s.bucket) == s;
      }
    }
  }

  lemma SweepBuckets(bk: Book, id: int)
    requires NewTable(bk) && id in bk.mapInfo
    ensures forall i :: i in bk.mapInfo ==>
              i in Sweep(bk, id).mapInfo && Buckets(Sweep(bk, id), i) == if i == id then {} else Buckets(bk, i)
  {
    var bk' := Sweep(bk, id);
    forall i | i in bk.mapInfo
      ensures Buckets(bk', i) == if i == id then {} else Buckets(bk, i)
    {
      if i != id {
        BucketsFrame(bk, bk', i);
      }
    }
  }

  lemma SweepRefCounts(bk: Book, id: int, pending: set<int>)
    requires NewTable(bk) && RefCounts(bk, pending) && id in bk.mapInfo
    ensures RefCounts(Sweep(bk, id), pending + {id})
  {
    hide NewTable;
    hide Buckets;
    SweepBuckets(bk, id);
    assert forall i :: i in Sweep(bk, id).mapInfo ==> i in bk.mapInfo;
  }

  lemma SweepKeeps(bk: Book, id: int)
    requires id in bk.mapInfo
    ensures SameButNew(bk, Sweep(bk, id))
  {
  }

  lemma SweepInv(bk: Book, id: int, pending: set<int>)
    requires InvBut(bk, pending) && id in bk.mapInfo
    ensures InvBut(Sweep(bk, id), pending + {id})
  {
    var bk' := Sweep(bk, id);
    SweepRefCounts(bk, id, pending);
    SweepKeeps(bk, id);
    NewTableFrame(bk, bk');
    NewFrame(bk, bk', pending, pending + {id});
  }

  // ----- the tried table -----

  lemma PromoteTables(bk: Book, id: int, pending: set<int>)
    requires TriedTable(bk) && NewTable(bk) && RefCounts(bk, pending) && Unreferenced(bk, id)
    requires TriedSlot(bk.k, Svc(bk, id)) !in bk.vvTried
    ensures TriedTable(Promote(bk, id)) && NewTable(Promote(bk, id)) && RefCounts(Promote(bk, id), pending - {id})
  {
    var bk' := Promote(bk, id);
    NoSlots(bk, id);
    NewTableFrame(bk, bk');
    forall i | i in bk'.mapInfo
      ensures bk'.mapInfo[i].nRefCount == |Buckets(bk', i)|
    {
      BucketsFrame(bk, bk', i);
    }
    forall s | s in bk'.vvTried
      ensures bk'.vvTried[s] in bk'.mapInfo && bk'.mapInfo[bk'.vvTried[s]].fInTried
              && TriedSlot(bk'.k, Svc(bk', bk'.vvTried[s])) == s
    {
      if s in bk.vvTried { assert bk.vvTried[s] in bk.mapInfo && TriedSlot(bk.k, Svc(bk, bk.vvTried[s])) == s; }
    }
    forall i | i in bk'.mapInfo && bk'.mapInfo[i].fInTried
      ensures TriedSlot(bk'.k, Svc(bk', i)) in bk'.vvTried && bk'.vvTried[TriedSlot(bk'.k, Svc(bk', i))] == i
    {
      if i != id { assert i in bk.mapInfo && bk.mapInfo[i].fInTried; }
    }
  }

  lemma PromoteCounters(bk: Book, id: int)
    requires Counters(bk) && Unreferenced(bk, id)
    ensures Counters(Promote(bk, id))
  {
    var m, m' := bk.mapInfo, Promote(bk, id).mapInfo;
    assert TriedIds(m') == TriedIds(m) + {id};
    assert NewIds(m') == NewIds(m) - {id};
  }

  lemma PromoteInv(bk: Book, id: int, pending: set<int>)
    requires InvBut(bk, pending) && Unreferenced(bk, id)
    requires TriedSlot(bk.k, Svc(bk, id)) !in bk.vvTried
    ensures InvBut(Promote(bk, id), pending - {id})
  {
    hide AddrIndex;
    hide RandomIndex;
    hide TriedTable;
    hide NewTable;
    hide RefCounts;
    hide Counters;
    var bk' := Promote(bk, id);
    AddrIndexFrame(bk, bk');
    RandomIndexFrame(bk, bk');
    PromoteTables(bk, id, pending);
    PromoteCounters(bk, id);
  }

  lemma DemoteTables(bk: Book, id: int, pending: set<int>)
    requires TriedTable(bk) && NewTable(bk) && RefCounts(bk, pending) && id in bk.mapInfo && bk.mapInfo[id].fInTried
    ensures TriedTable(Demote(bk, id)) && NewTable(Demote(bk, id)) && RefCounts(Demote(bk, id), pending + {id})
    ensures Unreferenced(Demote(bk, id), id)
  {
    var bk' := Demote(bk, id);
    NewTableFrame(bk, bk');
    forall i | i in bk'.mapInfo
      ensures bk'.mapInfo[i].nRefCount == |Buckets(bk', i)|
    {
      BucketsFrame(bk, bk', i);
    }
    forall s | s in bk'.vvTried
      ensures bk'.vvTried[s] in bk'.mapInfo && bk'.mapInfo[bk'.vvTried[s]].fInTried
              && TriedSlot(bk'.k, Svc(bk', bk'.vvTried[s])) == s
    {
      assert bk.vvTried[s] in bk.mapInfo && TriedSlot(bk.k, Svc(bk, bk.vvTried[s])) == s;
    }
    forall i | i in bk'.mapInfo && bk'.mapInfo[i].fInTried
      ensures TriedSlot(bk'.k, Svc(bk', i)) in bk'.vvTried && bk'.vvTried[TriedSlot(bk'.k, Svc(bk', i))] == i
    {
      assert i in bk.mapInfo && bk.mapInfo[i].fInTried && bk.vvTried[TriedSlot(bk.k, Svc(bk, i))] == i;
    }
  }

  lemma DemoteCounters(bk: Book, id: int)
    requires Counters(bk) && id in bk.mapInfo && bk.mapInfo[id].fInTried
    ensures Counters(Demote(bk, id))
  {
    var m, m' := bk.mapInfo, Demote(bk, id).mapInfo;
    assert TriedIds(m') == TriedIds(m) - {id};
    assert NewIds(m') == NewIds(m) + {id};
  }

  lemma DemoteInv(bk: Book, id: int, pending: set<int>)
    requires InvBut(bk, pending) && id in bk.mapInfo && bk.mapInfo[id].fInTried
    ensures InvBut(Demote(bk, id), pending + {id}) && Unreferenced(Demote(bk, id), id)
  {
    hide AddrIndex;
    hide RandomIndex;
    hide TriedTable;
    hide NewTable;
    hide RefCounts;
    hide Counters;
    var bk' := Demote(bk, id);
    AddrIndexFrame(bk, bk');
    RandomIndexFrame(bk, bk');
    DemoteTables(bk, id, pending);
    DemoteCounters(bk, id);
  }

  // ---------- clearing a slot, and moving an entry to the tried table ----------

  lemma PendingGrow(bk: Book, pending: set<int>, more: set<int>)
    requires InvBut(bk, pending) && pending <= more
    ensures InvBut(bk, more)
  {
  }

  /** A referenced entry need not be listed as pending. */
  lemma PendingShrink(bk: Book, id: int, pending: set<int>)
    requires InvBut(bk, pending) && id in bk.mapInfo && bk.mapInfo[id].nRefCount > 0
    ensures InvBut(bk, pending - {id})
  {
  }

  predicate CanClear(bk: Book, s: Slot) {
    s in bk.vvNew ==>
      && bk.vvNew[s] in bk.mapInfo
      && (bk.mapInfo[bk.vvNew[s]].nRefCount == 1 ==> CanDelete(Unlink(bk, s), bk.vvNew[s]))
  }

  /** Empty a slot; an entry that loses its last reference goes away altogether. */
  function ClearNew(bk: Book, s: Slot): Book
    requires CanClear(bk, s)
  {
    if s !in bk.vvNew then bk
    else if bk.mapInfo[bk.vvNew[s]].nRefCount == 1 then Delete(Unlink(bk, s), bk.vvNew[s])
    else Unlink(bk, s)
  }

  lemma ClearNewInv(bk: Book, s: Slot, pending: set<int>)
    requires InvBut(bk, pending)
    ensures CanClear(bk, s) && InvBut(ClearNew(bk, s), pending)
  {
    hide InvBut;
    if s in bk.vvNew {
      var id := bk.vvNew[s];
      UnlinkInv(bk, s, pending);
      var un := Unlink(bk, s);
      if un.mapInfo[id].nRefCount == 0 {
        UnlinkUntried(bk, s, pending);
        DeleteInv(un, id, pending + {id});
        assert pending + {id} - {id} <= pending;
        PendingGrow(Delete(un, id), pending + {id} - {id}, pending);
      } else {
        PendingShrink(un, id, pending + {id});
        PendingGrow(un, pending + {id} - {id}, pending);
      }
    }
  }

  lemma UnlinkUntried(bk: Book, s: Slot, pending: set<int>)
    requires InvBut(bk, pending) && s in bk.vvNew
    ensures bk.vvNew[s] in bk.mapInfo && !Unlink(bk, s).mapInfo[bk.vvNew[s]].fInTried
  {
  }

  /** Entries other than the one in the slot are not touched, and the slot is free afterwards. */
  lemma ClearNewKeeps(bk: Book, s: Slot, id: int)
    requires CanClear(bk, s) && id in bk.mapInfo && (s in bk.vvNew ==> bk.vvNew[s] != id)
    ensures var bk' := ClearNew(bk, s);
            && bk'.k == bk.k && bk'.vvTried == bk.vvTried && bk'.vvNew == bk.vvNew - {s}
            && bk'.nIdCount == bk.nIdCount && bk'.nTried == bk.nTried
            && id in bk'.mapInfo && bk'.mapInfo[id].stats == bk.mapInfo[id].stats
            && bk'.mapInfo[id].fInTried == bk.mapInfo[id].fInTried
            && bk'.mapInfo[id].nRefCount == bk.mapInfo[id].nRefCount
  {
  }

  function HomeBucket(bk: Book, id: int): nat
    requires id in bk.mapInfo
  {
    NewBucket(bk.k, Svc(bk, id), bk.mapInfo[id].stats.source)
  }

  predicate CanEvict(bk: Book, s: Slot) {
    s in bk.vvTried ==>
      && bk.vvTried[s] in bk.mapInfo
      && CanClear(Demote(bk, bk.vvTried[s]), NewSlot(bk.k, Svc(bk, bk.vvTried[s]), HomeBucket(bk, bk.vvTried[s])))
      && bk.vvTried[s] in ClearNew(Demote(bk, bk.vvTried[s]),
                                   NewSlot(bk.k, Svc(bk, bk.vvTried[s]), HomeBucket(bk, bk.vvTried[s]))).mapInfo
  }

  /** Free a tried slot: its entry goes back to the new bucket of its source. */
  function Evict(bk: Book, s: Slot): Book
    requires CanEvict(bk, s)
  {
    if s !in bk.vvTried then bk
    else
      var e := bk.vvTried[s];
      Link(ClearNew(Demote(bk, e), NewSlot(bk.k, Svc(bk, e), HomeBucket(bk, e))), e, HomeBucket(bk, e))
  }

  /** Entry id is untouched by an eviction of another entry, and the slot is free. */
  lemma EvictInv(bk: Book, s: Slot, id: int)
    requires InvBut(bk, {id}) && Unreferenced(bk, id)
    ensures CanEvict(bk, s) && InvBut(Evict(bk, s), {id}) && Unreferenced(Evict(bk, s), id)
    ensures Evict(bk, s).k == bk.k && Evict(bk, s).mapInfo[id].stats == bk.mapInfo[id].stats
    ensures s !in Evict(bk, s).vvTried
  {
    hide InvBut;
    if s in bk.vvTried {
      var e := bk.vvTried[s];
      TriedEntry(bk, s, {id});
      var b, de := HomeBucket(bk, e), Demote(bk, e);
      var ns := NewSlot(bk.k, Svc(bk, e), b);
      DemoteInv(bk, e, {id});
      UnreferencedSlot(de, e, {id} + {e}, ns);
      UnreferencedSlot(de, id, {id} + {e}, ns);
      ClearNewInv(de, ns, {id} + {e});
      ClearNewKeeps(de, ns, e);
      ClearNewKeeps(de, ns, id);
      LinkInv(ClearNew(de, ns), e, b, {id} + {e});
      assert {id} + {e} - {e} == {id};
    }
  }

  lemma TriedEntry(bk: Book, s: Slot, pending: set<int>)
    requires InvBut(bk, pending) && s in bk.vvTried
    ensures bk.vvTried[s] in bk.mapInfo && bk.mapInfo[bk.vvTried[s]].fInTried
            && TriedSlot(bk.k, Svc(bk, bk.vvTried[s])) == s
  {
  }

  lemma UnreferencedSlot(bk: Book, id: int, pending: set<int>, s: Slot)
    requires InvBut(bk, pending) && Unreferenced(bk, id)
    ensures s in bk.vvNew ==> bk.vvNew[s] != id
  {
    NoSlots(bk, id);
  }

  predicate CanMakeTried(bk: Book, id: int) {
    && id in bk.mapInfo && CanEvict(Sweep(bk, id), TriedSlot(bk.k, Svc(bk, id)))
    && id in Evict(Sweep(bk, id), TriedSlot(bk.k, Svc(bk, id))).mapInfo
  }

  function MakeTried(bk: Book, id: int): Book
    requires CanMakeTried(bk, id)
  {
    Promote(Evict(Sweep(bk, id), TriedSlot(bk.k, Svc(bk, id))), id)
  }

  lemma MakeTriedInv(bk: Book, id: int)
    requires Inv(bk) && id in bk.mapInfo && !bk.mapInfo[id].fInTried
    ensures CanMakeTried(bk, id) && Inv(MakeTried(bk, id))
  {
    hide InvBut;
    var s := TriedSlot(bk.k, Svc(bk, id));
    SweepInv(bk, id, {});
    assert {} + {id} == {id};
    EvictInv(Sweep(bk, id), s, id);
    PromoteInv(Evict(Sweep(bk, id), s), id, {id});
    assert {id} - {id} == {};
  }
}
