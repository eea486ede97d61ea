/**
 Loading any file, also one that lists an address twice: the tables always come out right, and the
 index by address exactly when no address that gets a place is listed more than once.
 */
module AddrLoad {
  import opened AddrBook
  import opened AddrView
  import opened AddrFile

  // ---------- any file: the random order stays intact ----------

  /** Enough to delete entries: the random order lists exactly the entries. */
  predicate Chained(bk: Book) {
    bk.nIdCount >= 0 && IdsBelow(bk) && RandomIndex(bk)
  }

  lemma CreateChained(bk: Book, st: Stats)
    requires Chained(bk)
    ensures Chained(Create(bk, st))
  {
    var bk' := Create(bk, st);
    forall i | 0 <= i < |bk'.vRandom|
      ensures bk'.vRandom[i] in bk'.mapInfo && bk'.mapInfo[bk'.vRandom[i]].nRandomPos == i
    {
      if i < |bk.vRandom| { assert bk.vRandom[i] in bk.mapInfo && bk.vRandom[i] != bk.nIdCount; }
    }
  }

  lemma LoadNewChained(bk: Book, sv: Saved, usable: bool)
    requires Chained(bk)
    ensures Chained(LoadNew(bk, sv, usable)) && LoadNew(bk, sv, usable).nIdCount == bk.nIdCount + 1
  {
    hide Chained;
    var bk1, id := Create(bk, Restore(sv)), bk.nIdCount;
    CreateChained(bk, Restore(sv));
    if !usable && NewSlot(bk1.k, sv.svc, HomeBucket(bk1, id)) !in bk1.vvNew {
      LinkChained(bk1, id, HomeBucket(bk1, id));
    }
  }

  lemma LinkChained(bk: Book, id: int, b: nat)
    requires Chained(bk) && id in bk.mapInfo
    ensures Chained(Link(bk, id, b))
  {
    RandomIndexFrame(bk, Link(bk, id, b));
  }

  lemma PromoteChained(bk: Book, id: int)
    requires Chained(bk) && id in bk.mapInfo
    ensures Chained(Promote(bk, id))
  {
    RandomIndexFrame(bk, Promote(bk, id));
  }

  lemma LoadTriedChained(bk: Book, sv: Saved)
    requires Chained(bk)
    ensures Chained(LoadTried(bk, sv))
  {
    hide Chained;
    CreateChained(bk, Restore(sv));
    PromoteChained(Create(bk, Restore(sv)), bk.nIdCount);
  }

  lemma LoadIndexChained(bk: Book, b: nat, nIndex: int, nNew: nat)
    requires Chained(bk)
    ensures Chained(LoadIndex(bk, b, nIndex, nNew)) && LoadIndex(bk, b, nIndex, nNew).nIdCount == bk.nIdCount
    ensures LoadIndex(bk, b, nIndex, nNew).mapInfo.Keys == bk.mapInfo.Keys
  {
    hide Chained;
    if CanPlace(bk, b, nIndex, nNew) {
      LinkChained(bk, nIndex, b);
    }
  }

  lemma DeleteChained(bk: Book, id: int)
    requires Chained(bk) && id in bk.mapInfo
    ensures CanDelete(bk, id) && Chained(Delete(bk, id))
    ensures Delete(bk, id).nIdCount == bk.nIdCount && Delete(bk, id).k == bk.k
  {
    hide Chained;
    hide Swap;
    SwapChained(bk, id);
    DropChained(Swap(bk, bk.mapInfo[id].nRandomPos, |bk.vRandom| - 1), id);
  }

  lemma SwapChained(bk: Book, id: int)
    requires Chained(bk) && id in bk.mapInfo
    ensures CanDelete(bk, id)
    ensures var sw := Swap(bk, bk.mapInfo[id].nRandomPos, |bk.vRandom| - 1);
            Chained(sw) && AtEnd(sw, id) && sw.nIdCount == bk.nIdCount && sw.k == bk.k
  {
    assert bk.vRandom[bk.mapInfo[id].nRandomPos] == id;
    SwapRandomIndex(bk, bk.mapInfo[id].nRandomPos, |bk.vRandom| - 1);
  }

  lemma DropChained(bk: Book, id: int)
    requires Chained(bk) && AtEnd(bk, id)
    ensures Chained(Drop(bk, id))
  {
    var bk' := Drop(bk, id);
    forall k | 0 <= k < |bk'.vRandom|
      ensures bk'.vRandom[k] in bk'.mapInfo && bk'.mapInfo[bk'.vRandom[k]].nRandomPos == k
    {
      assert bk.vRandom[k] in bk.mapInfo && bk.mapInfo[bk.vRandom[k]].nRandomPos == k;
    }
  }

  lemma BlankChained(k: Placing)
    ensures Chained(Blank(k))
  {
  }

  // ---------- any file: the tables come out right ----------

  /** All conditions but the index by address. */
  predicate Tables(bk: Book, pending: set<int>) {
    Chained(bk) && TriedTable(bk) && NewTable(bk) && RefCounts(bk, pending) && Counters(bk)
  }

  lemma CreateTabled(bk: Book, st: Stats, pending: set<int>)
    requires Tables(bk, pending)
    ensures Tables(Create(bk, st), pending + {bk.nIdCount})
  {
    CreateChained(bk, st);
    CreateTables(bk, st, pending);
    CreateCounters(bk, st);
  }

  lemma LinkTabled(bk: Book, id: int, b: nat, pending: set<int>)
    requires Tables(bk, pending) && id in bk.mapInfo && !bk.mapInfo[id].fInTried && b < NEW_BUCKET_COUNT
    requires NewSlot(bk.k, Svc(bk, id), b) !in bk.vvNew && bk.mapInfo[id].nRefCount < NEW_BUCKETS_PER_ADDRESS
    ensures Tables(Link(bk, id, b), pending)
  {
    hide TriedTable;
    hide NewTable;
    hide RefCounts;
    hide Counters;
    hide Chained;
    var bk' := Link(bk, id, b);
    LinkKeeps(bk, id, b);
    LinkChained(bk, id, b);
    TriedTableFrame(bk, bk');
    LinkNewTable(bk, id, b);
    LinkRefCounts(bk, id, b, pending);
    MorePending(bk', pending - {id}, pending);
    CountersFrame(bk, bk');
  }

  lemma MorePending(bk: Book, pending: set<int>, more: set<int>)
    requires RefCounts(bk, pending) && pending <= more
    ensures RefCounts(bk, more)
  {
  }

  lemma PromoteTabled(bk: Book, id: int, pending: set<int>)
    requires Tables(bk, pending) && Unreferenced(bk, id) && TriedSlot(bk.k, Svc(bk, id)) !in bk.vvTried
    ensures Tables(Promote(bk, id), pending)
  {
    hide TriedTable;
    hide NewTable;
    hide RefCounts;
    hide Counters;
    hide Chained;
    PromoteChained(bk, id);
    PromoteTables(bk, id, pending);
    MorePending(Promote(bk, id), pending - {id}, pending);
    PromoteCounters(bk, id);
  }

  lemma SwapTabled(bk: Book, i: nat, j: nat, pending: set<int>)
    requires Tables(bk, pending) && CanSwap(bk, i, j)
    ensures TriedTable(Swap(bk, i, j)) && NewTable(Swap(bk, i, j)) && RefCounts(Swap(bk, i, j), pending)
    ensures Counters(Swap(bk, i, j))
  {
    hide TriedTable;
    hide NewTable;
    hide RefCounts;
    hide Counters;
    hide Chained;
    var bk' := Swap(bk, i, j);
    SwapKeeps(bk, i, j);
    hide Swap;
    TriedTableFrame(bk, bk');
    NewTableFrame(bk, bk');
    RefCountsFrame(bk, bk', pending);
    CountersFrame(bk, bk');
  }

  lemma DeleteTabled(bk: Book, id: int, pending: set<int>)
    requires Tables(bk, pending) && Unreferenced(bk, id)
    ensures CanDelete(bk, id) && Tables(Delete(bk, id), pending - {id})
  {
    hide TriedTable;
    hide NewTable;
    hide RefCounts;
    hide Counters;
    hide Chained;
    DeleteChained(bk, id);
    SwapChained(bk, id);
    var sw := Swap(bk, bk.mapInfo[id].nRandomPos, |bk.vRandom| - 1);
    SwapTabled(bk, bk.mapInfo[id].nRandomPos, |bk.vRandom| - 1, pending);
    SwapKeeps(bk, bk.mapInfo[id].nRandomPos, |bk.vRandom| - 1);
    hide Swap;
    DropTables(sw, id, pending);
    DropCounters(sw, id);
  }

  /** The first n ids are untried entries. */
  predicate FirstNew(bk: Book, n: nat) {
    bk.nIdCount >= n && forall i :: 0 <= i < n ==> i in bk.mapInfo && !bk.mapInfo[i].fInTried
  }

  /** The index leads to an entry with the address looked up, and every address of an entry is in it. */
  predicate Pointed(bk: Book) {
    && (forall id :: id in bk.mapInfo ==> Ip(bk, id) in bk.mapAddr)
    && (forall a :: a in bk.mapAddr ==> bk.mapAddr[a] in bk.mapInfo && Ip(bk, bk.mapAddr[a]) == a)
  }

  /** As far as a load has come, with entries still to be placed. */
  predicate Loading(bk: Book, n: nat) {
    Tables(bk, bk.mapInfo.Keys) && Pointed(bk) && FirstNew(bk, n)
  }

  lemma PointedFrame(bk: Book, bk': Book)
    requires Pointed(bk) && SameEntries(bk, bk') && bk'.mapAddr == bk.mapAddr
    ensures Pointed(bk')
  {
    forall id | id in bk'.mapInfo
      ensures Ip(bk', id) in bk'.mapAddr
    {
      assert id in bk.mapInfo && Svc(bk', id) == Svc(bk, id);
    }
    forall a | a in bk'.mapAddr
      ensures bk'.mapAddr[a] in bk'.mapInfo && Ip(bk', bk'.mapAddr[a]) == a
    {
      assert bk.mapAddr[a] in bk.mapInfo && Ip(bk, bk.mapAddr[a]) == a;
    }
  }

  lemma CreatePointed(bk: Book, st: Stats)
    requires Pointed(bk) && Chained(bk)
    ensures Pointed(Create(bk, st))
  {
    var bk' := Create(bk, st);
    forall id | id in bk'.mapInfo
      ensures Ip(bk', id) in bk'.mapAddr
    {
      if id != bk.nIdCount { assert id in bk.mapInfo; }
    }
    forall a | a in bk'.mapAddr
      ensures bk'.mapAddr[a] in bk'.mapInfo && Ip(bk', bk'.mapAddr[a]) == a
    {
      if a != st.svc.ip { assert bk.mapAddr[a] in bk.mapInfo && Ip(bk, bk.mapAddr[a]) == a; }
    }
  }

  lemma CreateLoading(bk: Book, st: Stats, n: nat)
    requires Loading(bk, n)
    ensures Loading(Create(bk, st), n) && (bk.nIdCount == n ==> Loading(Create(bk, st), n + 1))
    ensures Unreferenced(Create(bk, st), bk.nIdCount)
  {
    hide Tables;
    hide Pointed;
    TablesChained(bk, bk.mapInfo.Keys);
    CreateTabled(bk, st, bk.mapInfo.Keys);
    CreatePointed(bk, st);
    CreateFirst(bk, st, n);
    hide Create;
    hide FirstNew;
  }

  lemma TablesChained(bk: Book, pending: set<int>)
    requires Tables(bk, pending)
    ensures Chained(bk)
  {
  }

  lemma CreateFirst(bk: Book, st: Stats, n: nat)
    requires FirstNew(bk, n)
    ensures FirstNew(Create(bk, st), n) && (bk.nIdCount == n ==> FirstNew(Create(bk, st), n + 1))
    ensures Create(bk, st).mapInfo.Keys == bk.mapInfo.Keys + {bk.nIdCount} && Unreferenced(Create(bk, st), bk.nIdCount)
  {
  }

  lemma LinkLoading(bk: Book, id: int, b: nat, n: nat)
    requires Loading(bk, n) && id in bk.mapInfo && !bk.mapInfo[id].fInTried && b < NEW_BUCKET_COUNT
    requires NewSlot(bk.k, Svc(bk, id), b) !in bk.vvNew && bk.mapInfo[id].nRefCount < NEW_BUCKETS_PER_ADDRESS
    ensures Loading(Link(bk, id, b), n)
  {
    hide Tables;
    hide Pointed;
    LinkTabled(bk, id, b, bk.mapInfo.Keys);
    LinkKeeps(bk, id, b);
    PointedFrame(bk, Link(bk, id, b));
    assert Link(bk, id, b).mapInfo.Keys == bk.mapInfo.Keys;
  }

  lemma PromoteLoading(bk: Book, id: int, n: nat)
    requires Loading(bk, n) && Unreferenced(bk, id) && id >= n && TriedSlot(bk.k, Svc(bk, id)) !in bk.vvTried
    ensures Loading(Promote(bk, id), n)
  {
    hide Tables;
    hide Pointed;
    PromoteTabled(bk, id, bk.mapInfo.Keys);
    PointedFrame(bk, Promote(bk, id));
    assert Promote(bk, id).mapInfo.Keys == bk.mapInfo.Keys;
  }

  lemma LoadNewLoading(bk: Book, sv: Saved, usable: bool, n: nat)
    requires Loading(bk, n) && bk.nIdCount == n
    ensures Loading(LoadNew(bk, sv, usable), n + 1) && LoadNew(bk, sv, usable).nIdCount == n + 1
  {
    hide Loading;
    var id, bk1 := bk.nIdCount, Create(bk, Restore(sv));
    CreateLoading(bk, Restore(sv), n);
    if !usable && NewSlot(bk1.k, sv.svc, HomeBucket(bk1, id)) !in bk1.vvNew {
      LinkLoading(bk1, id, HomeBucket(bk1, id), n + 1);
    }
  }

  lemma LoadTriedLoading(bk: Book, sv: Saved, n: nat)
    requires Loading(bk, n)
    ensures Loading(LoadTried(bk, sv), n)
  {
    hide Tables;
    hide Pointed;
    if TriedSlot(bk.k, sv.svc) !in bk.vvTried {
      CreateLoading(bk, Restore(sv), n);
      PromoteLoading(Create(bk, Restore(sv)), bk.nIdCount, n);
    }
  }

  lemma LoadIndexLoading(bk: Book, b: nat, nIndex: int, n: nat)
    requires Loading(bk, n) && b < NEW_BUCKET_COUNT
    ensures Loading(LoadIndex(bk, b, nIndex, n), n)
  {
    hide Tables;
    hide Pointed;
    if CanPlace(bk, b, nIndex, n) {
      LinkLoading(bk, nIndex, b, n);
    }
  }

  lemma BlankLoading(k: Placing)
    ensures Loading(Blank(k), 0)
  {
    BlankChained(k);
    assert Blank(k).mapInfo.Keys == {};
  }

  lemma {:induction false} LoadNewsLoading(k: Placing, news: seq<Saved>, usable: bool)
    ensures Loading(LoadNews(k, news, usable), |news|) && LoadNews(k, news, usable).nIdCount == |news|
  {
    hide Loading;
    hide LoadNew;
    BlankLoading(k);
    if news != [] {
      var n := |news| - 1;
      LoadNewsLoading(k, news[..n], usable);
      LoadNewLoading(LoadNews(k, news[..n], usable), news[n], usable, n);
    }
  }

  lemma {:induction false} LoadTriedsLoading(bk: Book, trieds: seq<Saved>, n: nat)
    requires Loading(bk, n)
    ensures Loading(LoadTrieds(bk, trieds), n)
  {
    hide Loading;
    hide LoadTried;
    if trieds != [] {
      LoadTriedsLoading(bk, trieds[..|trieds| - 1], n);
      LoadTriedLoading(LoadTrieds(bk, trieds[..|trieds| - 1]), trieds[|trieds| - 1], n);
    }
  }

  lemma {:induction false} LoadBucketLoading(bk: Book, b: nat, idxs: seq<int>, n: nat)
    requires Loading(bk, n) && b < NEW_BUCKET_COUNT
    ensures Loading(LoadBucket(bk, b, idxs, n), n)
  {
    hide Loading;
    hide LoadIndex;
    if idxs != [] {
      LoadBucketLoading(bk, b, idxs[..|idxs| - 1], n);
      LoadIndexLoading(LoadBucket(bk, b, idxs[..|idxs| - 1], n), b, idxs[|idxs| - 1], n);
    }
  }

  lemma {:induction false} LoadBucketsLoading(bk: Book, buckets: seq<seq<int>>, n: nat)
    requires Loading(bk, n) && |buckets| <= NEW_BUCKET_COUNT
    ensures Loading(LoadBuckets(bk, buckets, n), n)
  {
    hide Loading;
    hide LoadBucket;
    if buckets != [] {
      var b := |buckets| - 1;
      LoadBucketsLoading(bk, buckets[..b], n);
      LoadBucketLoading(LoadBuckets(bk, buckets[..b], n), b, buckets[b], n);
    }
  }

  lemma LoadTablesLoading(h: Hashes, f: PeersFile)
    requires Usable(f) ==> |f.buckets| == NEW_BUCKET_COUNT
    ensures Loading(LoadTables(h, f), |f.news|)
  {
    hide Loading;
    hide LoadNews;
    hide LoadTrieds;
    hide LoadBuckets;
    LoadNewsLoading(Placing(h, f.nKey), f.news, Usable(f));
    LoadTriedsLoading(LoadNews(Placing(h, f.nKey), f.news, Usable(f)), f.trieds, |f.news|);
    if Usable(f) {
      LoadBucketsLoading(LoadEntries(h, f), f.buckets, |f.news|);
    }
  }

  // ---------- dropping the entries without a place ----------

  /** Entry id was there at first and has not been dropped by the time ids below n have been looked at. */
  predicate Left(bk: Book, n: nat, id: int) {
    id in bk.mapInfo && !(Unreferenced(bk, id) && 0 <= id < n)
  }

  /** The book p is what is left of bk, and the index has lost the addresses of what was dropped. */
  ghost predicate PrunedState(bk: Book, p: Book, n: nat) {
    && p.nIdCount == bk.nIdCount && p.k == bk.k && p.vvNew == bk.vvNew
    && (forall id :: id in p.mapInfo <==> Left(bk, n, id))
    && (forall id :: id in p.mapInfo ==>
          && p.mapInfo[id].stats == bk.mapInfo[id].stats && p.mapInfo[id].fInTried == bk.mapInfo[id].fInTried
          && p.mapInfo[id].nRefCount == bk.mapInfo[id].nRefCount)
    && (forall a :: a in p.mapAddr <==>
          a in bk.mapAddr && forall id :: id in bk.mapInfo && !Left(bk, n, id) ==> Ip(bk, id) != a)
    && (forall a :: a in p.mapAddr ==> p.mapAddr[a] == bk.mapAddr[a])
  }

  lemma DeleteState(bk: Book, id: int)
    requires CanDelete(bk, id)
    ensures var d := Delete(bk, id);
            && d.nIdCount == bk.nIdCount && d.k == bk.k && d.vvNew == bk.vvNew
            && d.mapInfo.Keys == bk.mapInfo.Keys - {id}
            && id in bk.mapInfo && d.mapAddr == bk.mapAddr - {Ip(bk, id)}
            && forall i :: i in d.mapInfo ==>
                 && d.mapInfo[i].stats == bk.mapInfo[i].stats && d.mapInfo[i].fInTried == bk.mapInfo[i].fInTried
                 && d.mapInfo[i].nRefCount == bk.mapInfo[i].nRefCount
  {
  }

  lemma {:induction false} PruneTabled(bk: Book, n: nat)
    requires Tables(bk, bk.mapInfo.Keys)
    ensures Tables(Prune(bk, n), set id | id in bk.mapInfo && Left(bk, n, id) && id >= n)
    ensures PrunedState(bk, Prune(bk, n), n)
  {
    hide *;
    if n == 0 {
      PruneNone(bk);
      StartPruning(bk);
    } else {
      PruneTabled(bk, n - 1);
      PruneNext(bk, n - 1);
      var p, pending := Prune(bk, n - 1), set id | id in bk.mapInfo && Left(bk, n - 1, id) && id >= n - 1;
      StillUnreferenced(bk, p, n);
      if Unreferenced(p, n - 1) {
        DeleteTabled(p, n - 1, pending);
        DeleteState(p, n - 1);
        PruneMore(bk, p, Delete(p, n - 1), n);
        FewerPending(bk, n, pending - {n - 1});
      } else {
        KeepMore(bk, p, n);
        KeptTabled(bk, p, n, pending);
      }
    }
  }

  lemma PruneNone(bk: Book)
    ensures Prune(bk, 0) == bk
  {
  }

  lemma PruneNext(bk: Book, n: nat)
    ensures var p := Prune(bk, n);
            Prune(bk, n + 1) == if Unreferenced(p, n) && CanDelete(p, n) then Delete(p, n) else p
  {
  }

  lemma StartPruning(bk: Book)
    requires Tables(bk, bk.mapInfo.Keys)
    ensures Tables(bk, set id | id in bk.mapInfo && Left(bk, 0, id) && id >= 0) && PrunedState(bk, bk, 0)
  {
    assert IdsBelow(bk);
    assert (set id | id in bk.mapInfo && Left(bk, 0, id) && id >= 0) == bk.mapInfo.Keys;
  }

  lemma StillUnreferenced(bk: Book, p: Book, n: nat)
    requires n > 0 && PrunedState(bk, p, n - 1)
    ensures Unreferenced(p, n - 1) <==> Unreferenced(bk, n - 1)
  {
  }

  lemma PruneMore(bk: Book, p: Book, d: Book, n: nat)
    requires n > 0 && PrunedState(bk, p, n - 1) && Unreferenced(p, n - 1)
    requires d.nIdCount == p.nIdCount && d.k == p.k && d.vvNew == p.vvNew
    requires d.mapInfo.Keys == p.mapInfo.Keys - {n - 1}
    requires d.mapAddr == p.mapAddr - {Ip(p, n - 1)}
    requires forall i :: i in d.mapInfo ==>
               && d.mapInfo[i].stats == p.mapInfo[i].stats && d.mapInfo[i].fInTried == p.mapInfo[i].fInTried
               && d.mapInfo[i].nRefCount == p.mapInfo[i].nRefCount
    ensures PrunedState(bk, d, n)
  {
    forall id
      ensures id in d.mapInfo <==> Left(bk, n, id)
    {
      assert id in d.mapInfo <==> id in p.mapInfo && id != n - 1;
    }
    forall a
      ensures a in d.mapAddr <==>
              a in bk.mapAddr && forall id :: id in bk.mapInfo && !Left(bk, n, id) ==> Ip(bk, id) != a
    {
      assert forall id :: id in bk.mapInfo ==> (!Left(bk, n, id) <==> !Left(bk, n - 1, id) || id == n - 1);
      assert Ip(p, n - 1) == Ip(bk, n - 1);
    }
  }

  lemma KeepMore(bk: Book, p: Book, n: nat)
    requires n > 0 && PrunedState(bk, p, n - 1) && !Unreferenced(bk, n - 1)
    ensures PrunedState(bk, p, n)
  {
    assert forall id :: Left(bk, n, id) <==> Left(bk, n - 1, id);
  }

  lemma FewerPending(bk: Book, n: nat, pending: set<int>)
    requires n > 0 && Unreferenced(bk, n - 1)
    requires pending == (set id | id in bk.mapInfo && Left(bk, n - 1, id) && id >= n - 1) - {n - 1}
    ensures pending == set id | id in bk.mapInfo && Left(bk, n, id) && id >= n
  {
  }

  /** An entry that has a place need not be listed as pending. */
  lemma KeptTabled(bk: Book, p: Book, n: nat, pending: set<int>)
    requires n > 0 && Tables(p, pending) && !Unreferenced(p, n - 1) && !Unreferenced(bk, n - 1)
    requires pending == set id | id in bk.mapInfo && Left(bk, n - 1, id) && id >= n - 1
    ensures Tables(p, set id | id in bk.mapInfo && Left(bk, n, id) && id >= n)
  {
    hide Chained;
    hide TriedTable;
    hide NewTable;
    hide Counters;
    hide Buckets;
    var less := set id | id in bk.mapInfo && Left(bk, n, id) && id >= n;
    assert less == pending - {n - 1};
    assert RefCounts(p, less);
  }

  // ---------- when the index comes out right ----------

  /** Nobody with a place has an address that another entry has as well. */
  predicate NoSharing(bk: Book) {
    forall i, j :: i in bk.mapInfo && j in bk.mapInfo && i != j && !Unreferenced(bk, i) ==> Ip(bk, i) != Ip(bk, j)
  }

  lemma IndexExact(bk: Book, p: Book, n: nat)
    requires Pointed(bk) && IdsBelow(bk) && n == bk.nIdCount && PrunedState(bk, p, n)
    ensures AddrIndex(p) <==> NoSharing(bk)
  {
    assert forall id :: id in p.mapInfo <==> id in bk.mapInfo && !Unreferenced(bk, id);
    if NoSharing(bk) {
      RightIndex(bk, p, n);
    }
    if AddrIndex(p) {
      forall i, j | i in bk.mapInfo && j in bk.mapInfo && i != j && !Unreferenced(bk, i)
        ensures Ip(bk, i) != Ip(bk, j)
      {
        assert i in p.mapInfo && p.mapAddr[Ip(p, i)] == i && Ip(p, i) == Ip(bk, i);
        if !Unreferenced(bk, j) {
          assert j in p.mapInfo && p.mapAddr[Ip(p, j)] == j && Ip(p, j) == Ip(bk, j);
        } else {
          assert !Left(bk, n, j);
        }
      }
    }
  }

  lemma RightIndex(bk: Book, p: Book, n: nat)
    requires Pointed(bk) && IdsBelow(bk) && n == bk.nIdCount && PrunedState(bk, p, n) && NoSharing(bk)
    ensures AddrIndex(p)
  {
    forall id | id in p.mapInfo
      ensures Ip(p, id) in p.mapAddr && p.mapAddr[Ip(p, id)] == id
    {
      assert Left(bk, n, id) && !Unreferenced(bk, id) && Ip(bk, id) in bk.mapAddr;
    }
    forall a | a in p.mapAddr
      ensures p.mapAddr[a] in p.mapInfo && Ip(p, p.mapAddr[a]) == a
    {
      var id := bk.mapAddr[a];
      assert id in bk.mapInfo && Ip(bk, id) == a;
      assert Left(bk, n, id);
    }
  }

  /** Whatever a file lists, its tables are right; all is consistent exactly if no placed entry shares its address. */
  lemma LoadExact(h: Hashes, f: PeersFile)
    requires Usable(f) ==> |f.buckets| == NEW_BUCKET_COUNT
    ensures Tables(Load(h, f), {})
    ensures Inv(Load(h, f)) <==> NoSharing(LoadTables(h, f))
  {
    hide TriedTable;
    hide NewTable;
    hide RefCounts;
    hide Counters;
    hide RandomIndex;
    hide LoadTables;
    hide Prune;
    hide PrunedState;
    hide Pointed;
    hide AddrIndex;
    hide NoSharing;
    LoadTablesLoading(h, f);
    var bk := LoadTables(h, f);
    PruneTabled(bk, bk.nIdCount);
    assert (set id | id in bk.mapInfo && Left(bk, bk.nIdCount, id) && id >= bk.nIdCount) == {};
    IndexExact(bk, Prune(bk, bk.nIdCount), bk.nIdCount);
  }

  /** An address listed twice in a file of another version: it keeps its bucket but cannot be found any more. */
  lemma ListedTwice(h: Hashes, nKey: Key, sv: Saved)
    ensures var bk := Load(h, PeersFile(0, nKey, 0, [sv, sv], [], []));
            !Inv(bk) && bk.mapInfo.Keys == {0} && ViewOf(bk) == map[]
            && NewSlot(bk.k, sv.svc, NewBucket(bk.k, sv.svc, sv.source)) in bk.vvNew
  {
    var f := PeersFile(0, nKey, 0, [sv, sv], [], []);
    var k := Placing(h, nKey);
    assert [sv, sv][..1] == [sv] && [sv][..0] == [];
    var b0 := LoadNews(k, [], false);
    var b1 := LoadNews(k, [sv], false);
    var b2 := LoadNews(k, [sv, sv], false);
    assert b1 == LoadNew(b0, sv, false) && b2 == LoadNew(b1, sv, false);
    assert b1.mapInfo.Keys == {0} && b1.mapInfo[0].nRefCount == 1;
    assert b2.mapInfo.Keys == {0, 1} && b2.mapInfo[0].nRefCount == 1 && b2.mapInfo[1].nRefCount == 0;
    assert LoadTables(h, f) == b2 && b2.nIdCount == 2;
    LoadExact(h, f);
    assert !NoSharing(b2) by { assert Ip(b2, 0) == Ip(b2, 1); }
    LoadTablesLoading(h, f);
    PruneTabled(b2, 2);
    TwicePruned(b2, Prune(b2, 2), sv);
  }

  lemma TwicePruned(bk: Book, p: Book, sv: Saved)
    requires bk.mapInfo.Keys == {0, 1} && !Unreferenced(bk, 0) && Unreferenced(bk, 1) && PrunedState(bk, p, 2)
    requires Pointed(bk) && Ip(bk, 0) == Ip(bk, 1)
    ensures p.mapInfo.Keys == {0} && p.vvNew == bk.vvNew && ViewOf(p) == map[]
  {
    assert forall id :: id in p.mapInfo <==> id == 0;
    assert !Left(bk, 2, 1);
    forall a
      ensures a !in p.mapAddr
    {
      if a in bk.mapAddr {
        assert bk.mapAddr[a] in {0, 1} && Ip(bk, bk.mapAddr[a]) == a;
      }
    }
  }

  // ---------- files whose positions cannot be used ----------

  /** Positions written by another version or for another number of buckets are not looked at. */
  lemma PositionsIgnored(h: Hashes, f: PeersFile, buckets: seq<seq<int>>)
    requires f.nVersion != 1 || f.nUBuckets != 1024
    ensures Load(h, f) == Load(h, f.(buckets := buckets))
  {
  }

  function HomeSlot(k: Placing, st: Stats): Slot {
    NewSlot(k, st.svc, NewBucket(k, st.svc, st.source))
  }

  /** Slots are held by entries at home there, and the home of every untried entry is taken. */
  ghost predicate AtHome(bk: Book) {
    && (forall s :: s in bk.vvNew ==> bk.vvNew[s] in bk.mapInfo && HomeSlot(bk.k, bk.mapInfo[bk.vvNew[s]].stats) == s)
    && (forall id :: id in bk.mapInfo && !bk.mapInfo[id].fInTried ==> HomeSlot(bk.k, bk.mapInfo[id].stats) in bk.vvNew)
  }

  lemma LoadNewAtHome(bk: Book, sv: Saved)
    requires AtHome(bk) && Chained(bk)
    ensures AtHome(LoadNew(bk, sv, false))
  {
    var bk' := LoadNew(bk, sv, false);
    forall s | s in bk'.vvNew
      ensures bk'.vvNew[s] in bk'.mapInfo && HomeSlot(bk'.k, bk'.mapInfo[bk'.vvNew[s]].stats) == s
    {
      if s in bk.vvNew { assert bk.vvNew[s] in bk.mapInfo && bk.vvNew[s] != bk.nIdCount; }
    }
  }

  lemma {:induction false} LoadNewsAtHome(k: Placing, news: seq<Saved>)
    ensures AtHome(LoadNews(k, news, false))
  {
    if news != [] {
      var n := |news| - 1;
      LoadNewsAtHome(k, news[..n]);
      LoadNewsLoading(k, news[..n], false);
      LoadNewAtHome(LoadNews(k, news[..n], false), news[n]);
    }
  }

  lemma {:induction false} LoadTriedsAtHome(bk: Book, trieds: seq<Saved>, n: nat)
    requires AtHome(bk) && Loading(bk, n)
    ensures AtHome(LoadTrieds(bk, trieds))
  {
    if trieds != [] {
      var t := |trieds| - 1;
      LoadTriedsAtHome(bk, trieds[..t], n);
      LoadTriedsLoading(bk, trieds[..t], n);
      LoadTriedAtHome(LoadTrieds(bk, trieds[..t]), trieds[t]);
    }
  }

  lemma LoadTriedAtHome(bk: Book, sv: Saved)
    requires AtHome(bk) && Chained(bk)
    ensures AtHome(LoadTried(bk, sv))
  {
    var bk' := LoadTried(bk, sv);
    forall s | s in bk'.vvNew
      ensures bk'.vvNew[s] in bk'.mapInfo && HomeSlot(bk'.k, bk'.mapInfo[bk'.vvNew[s]].stats) == s
    {
      assert bk.vvNew[s] in bk.mapInfo && bk.vvNew[s] != bk.nIdCount;
    }
  }

  /** Then every new entry is offered its source's bucket: it stands there and nowhere else, or another does. */
  lemma LoadedAtHome(h: Hashes, f: PeersFile)
    requires !Usable(f)
    ensures AtHome(LoadTables(h, f)) && Load(h, f).vvNew == LoadTables(h, f).vvNew
  {
    var k := Placing(h, f.nKey);
    LoadNewsAtHome(k, f.news);
    LoadNewsLoading(k, f.news, false);
    LoadTriedsAtHome(LoadNews(k, f.news, false), f.trieds, |f.news|);
    LoadTablesLoading(h, f);
    var bk := LoadTables(h, f);
    hide LoadTables;
    hide Prune;
    PruneTabled(bk, bk.nIdCount);
  }
}
