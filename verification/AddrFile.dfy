/**
 The saved form of the address manager and what loading it builds up. The tables are not saved as
 such: loading creates the entries one by one, gives tried entries their slot, hands out the listed
 bucket positions and drops new entries that got none.
 */
module AddrFile {
  import opened AddrBook

  /** The part of an entry that is saved. */
  datatype Saved = Saved(
    svc: Service,
    nServices: set<nat>,
    nTime: int,
    source: NetAddr,
    nLastSuccess: int,
    nAttempts: int)

  /** A saved manager; nUBuckets is the number of new buckets of the program that wrote it. */
  datatype PeersFile = PeersFile(
    nVersion: nat,
    nKey: Key,
    nUBuckets: nat,
    news: seq<Saved>,
    trieds: seq<Saved>,
    buckets: seq<seq<int>>)

  function Save(st: Stats): Saved {
    Saved(st.svc, st.nServices, st.nTime, st.source, st.nLastSuccess, st.nAttempts)
  }

  /** An entry read back; the times of the last attempts are not kept. */
  function Restore(sv: Saved): Stats {
    Stats(sv.svc, sv.nServices, sv.nTime, sv.source, sv.nLastSuccess, 0, 0, sv.nAttempts)
  }

  // ---------- loading ----------

  function Blank(k: Placing): Book {
    Book(k, 0, map[], map[], [], 0, map[], 0, map[])
  }

  /** The listed positions can be used only if they were written for the same buckets. */
  predicate Usable(f: PeersFile) {
    f.nVersion == 1 && f.nUBuckets == NEW_BUCKET_COUNT
  }

  function LoadNew(bk: Book, sv: Saved, usable: bool): Book {
    var id, bk1 := bk.nIdCount, Create(bk, Restore(sv));
    if !usable && NewSlot(bk1.k, sv.svc, HomeBucket(bk1, id)) !in bk1.vvNew
    then Link(bk1, id, HomeBucket(bk1, id)) else bk1
  }

  function LoadNews(k: Placing, news: seq<Saved>, usable: bool): Book {
    if news == [] then Blank(k)
    else LoadNew(LoadNews(k, news[..|news| - 1], usable), news[|news| - 1], usable)
  }

  /** A tried entry whose slot is taken is lost. */
  function LoadTried(bk: Book, sv: Saved): Book {
    if TriedSlot(bk.k, sv.svc) in bk.vvTried then bk
    else Promote(Create(bk, Restore(sv)), bk.nIdCount)
  }

  function LoadTrieds(bk: Book, trieds: seq<Saved>): Book {
    if trieds == [] then bk
    else LoadTried(LoadTrieds(bk, trieds[..|trieds| - 1]), trieds[|trieds| - 1])
  }

  predicate CanPlace(bk: Book, b: nat, nIndex: int, nNew: nat) {
    && 0 <= nIndex < nNew && nIndex in bk.mapInfo
    && NewSlot(bk.k, Svc(bk, nIndex), b) !in bk.vvNew && bk.mapInfo[nIndex].nRefCount < NEW_BUCKETS_PER_ADDRESS
  }

  function LoadIndex(bk: Book, b: nat, nIndex: int, nNew: nat): Book {
    if CanPlace(bk, b, nIndex, nNew) then Link(bk, nIndex, b) else bk
  }

  function LoadBucket(bk: Book, b: nat, idxs: seq<int>, nNew: nat): Book {
    if idxs == [] then bk
    else LoadIndex(LoadBucket(bk, b, idxs[..|idxs| - 1], nNew), b, idxs[|idxs| - 1], nNew)
  }

  function LoadBuckets(bk: Book, buckets: seq<seq<int>>, nNew: nat): Book {
    if buckets == [] then bk
    else
      var n := |buckets| - 1;
      LoadBucket(LoadBuckets(bk, buckets[..n], nNew), n, buckets[n], nNew)
  }

  /** Delete the new entries with ids below n that stand nowhere. */
  function Prune(bk: Book, n: nat): Book {
    if n == 0 then bk
    else
      var bk1 := Prune(bk, n - 1);
      if Unreferenced(bk1, n - 1) && CanDelete(bk1, n - 1) then Delete(bk1, n - 1) else bk1
  }

  function LoadEntries(h: Hashes, f: PeersFile): Book {
    LoadTrieds(LoadNews(Placing(h, f.nKey), f.news, Usable(f)), f.trieds)
  }

  function LoadTables(h: Hashes, f: PeersFile): Book {
    if Usable(f) then LoadBuckets(LoadEntries(h, f), f.buckets, |f.news|) else LoadEntries(h, f)
  }

  function Load(h: Hashes, f: PeersFile): Book {
    var bk := LoadTables(h, f);
    if bk.nIdCount < 0 then bk else Prune(bk, bk.nIdCount)
  }

  // ---------- a loaded manager is consistent ----------

  /** All addresses differ. */
  ghost predicate Distinct(svs: seq<Saved>) {
    forall i, j :: 0 <= i < j < |svs| ==> svs[i].svc.ip != svs[j].svc.ip
  }

  /** No address twice. */
  ghost predicate Sound(f: PeersFile) {
    Distinct(f.news + f.trieds) && (Usable(f) ==> |f.buckets| == NEW_BUCKET_COUNT)
  }

  /** Consistent, except that entries may stand nowhere. */
  predicate Loose(bk: Book) {
    InvBut(bk, bk.mapInfo.Keys) && bk.nIdCount >= 0
  }

  ghost predicate Comes(bk: Book, svs: seq<Saved>) {
    forall id :: id in bk.mapInfo ==> Save(bk.mapInfo[id].stats) in svs
  }

  /** An address that is not in the list is not in the book. */
  lemma NotYet(bk: Book, svs: seq<Saved>, sv: Saved)
    requires Loose(bk) && Comes(bk, svs) && Distinct(svs + [sv])
    ensures sv.svc.ip !in bk.mapAddr
  {
    forall id | id in bk.mapInfo
      ensures Ip(bk, id) != sv.svc.ip
    {
      var i :| 0 <= i < |svs| && svs[i] == Save(bk.mapInfo[id].stats);
      assert (svs + [sv])[i].svc.ip != (svs + [sv])[|svs|].svc.ip;
    }
    assert AddrIndex(bk);
  }

  /** From bk to bk' one entry is added and the others stay. */
  ghost predicate Adds(bk: Book, bk': Book, sv: Saved, fTried: bool) {
    && bk'.k == bk.k && bk'.nIdCount == bk.nIdCount + 1
    && bk'.mapInfo.Keys == bk.mapInfo.Keys + {bk.nIdCount}
    && bk'.mapInfo[bk.nIdCount].stats == Restore(sv) && bk'.mapInfo[bk.nIdCount].fInTried == fTried
    && (forall id :: id in bk.mapInfo && id != bk.nIdCount ==> bk'.mapInfo[id] == bk.mapInfo[id])
  }

  lemma LoadNewInv(bk: Book, sv: Saved, usable: bool)
    requires Loose(bk) && sv.svc.ip !in bk.mapAddr
    ensures Loose(LoadNew(bk, sv, usable)) && Adds(bk, LoadNew(bk, sv, usable), sv, false)
  {
    hide InvBut;
    var id, bk1 := bk.nIdCount, Create(bk, Restore(sv));
    var ids := bk.mapInfo.Keys + {id};
    CreateInv(bk, Restore(sv), bk.mapInfo.Keys);
    assert bk1.mapInfo.Keys == ids;
    if !usable && NewSlot(bk1.k, sv.svc, HomeBucket(bk1, id)) !in bk1.vvNew {
      var bk2 := Link(bk1, id, HomeBucket(bk1, id));
      LinkInv(bk1, id, HomeBucket(bk1, id), ids);
      assert bk2.mapInfo.Keys == ids;
      PendingGrow(bk2, ids - {id}, ids);
    }
  }

  lemma LoadTriedInv(bk: Book, sv: Saved)
    requires Loose(bk) && sv.svc.ip !in bk.mapAddr
    ensures Loose(LoadTried(bk, sv))
    ensures TriedSlot(bk.k, sv.svc) in bk.vvTried ==> LoadTried(bk, sv) == bk
    ensures TriedSlot(bk.k, sv.svc) !in bk.vvTried ==> Adds(bk, LoadTried(bk, sv), sv, true)
  {
    hide InvBut;
    if TriedSlot(bk.k, sv.svc) !in bk.vvTried {
      var id, bk1 := bk.nIdCount, Create(bk, Restore(sv));
      var ids := bk.mapInfo.Keys + {id};
      CreateInv(bk, Restore(sv), bk.mapInfo.Keys);
      PromoteInv(bk1, id, ids);
      assert Promote(bk1, id).mapInfo.Keys == ids;
      PendingGrow(Promote(bk1, id), ids - {id}, ids);
    }
  }

  /** The first ids are the new entries, in the order of the file. */
  ghost predicate NewFirst(bk: Book, news: seq<Saved>) {
    && bk.nIdCount >= |news|
    && forall i :: 0 <= i < |news| ==>
         i in bk.mapInfo && bk.mapInfo[i].stats == Restore(news[i]) && !bk.mapInfo[i].fInTried
  }

  lemma BlankLoose(k: Placing)
    ensures Loose(Blank(k))
  {
    assert Blank(k).mapInfo.Keys == {};
  }

  lemma AddsFirst(bk: Book, bk': Book, sv: Saved, news: seq<Saved>)
    requires NewFirst(bk, news) && bk.nIdCount == |news| && Adds(bk, bk', sv, false)
    ensures NewFirst(bk', news + [sv])
  {
  }

  lemma {:induction false} LoadNewsInv(k: Placing, news: seq<Saved>, usable: bool)
    requires Distinct(news)
    ensures var bk := LoadNews(k, news, usable);
            Loose(bk) && bk.k == k && bk.nIdCount == |news| && NewFirst(bk, news) && Comes(bk, news)
  {
    hide Loose;
    hide LoadNew;
    BlankLoose(k);
    if news != [] {
      hide NewFirst;
      hide Comes;
      var n := |news| - 1;
      var init, sv := news[..n], news[n];
      LoadNewsInv(k, init, usable);
      assert init + [sv] == news;
      var bk := LoadNews(k, init, usable);
      var bk' := LoadNew(bk, sv, usable);
      NotYet(bk, init, sv);
      LoadNewInv(bk, sv, usable);
      AddsFirst(bk, bk', sv, init);
      AddsComes(bk, bk', sv, false, init);
    }
  }

  lemma AddsComes(bk: Book, bk': Book, sv: Saved, fTried: bool, svs: seq<Saved>)
    requires Comes(bk, svs) && Adds(bk, bk', sv, fTried)
    ensures Comes(bk', svs + [sv])
  {
    forall id | id in bk'.mapInfo
      ensures Save(bk'.mapInfo[id].stats) in svs + [sv]
    {
      if id != bk.nIdCount { assert id in bk.mapInfo; }
    }
  }

  lemma {:induction false} LoadTriedsInv(bk: Book, news: seq<Saved>, trieds: seq<Saved>)
    requires Loose(bk) && NewFirst(bk, news) && Comes(bk, news)
    requires Distinct(news + trieds)
    ensures var bk' := LoadTrieds(bk, trieds);
            Loose(bk') && bk'.k == bk.k && NewFirst(bk', news) && Comes(bk', news + trieds)
  {
    hide Loose;
    hide LoadTried;
    hide Comes;
    if trieds == [] {
      assert news + trieds == news;
    } else {
      var n := |trieds| - 1;
      var init, sv := trieds[..n], trieds[n];
      assert news + trieds == news + init + [sv];
      assert forall i :: 0 <= i < |news + init| ==> (news + trieds)[i] == (news + init)[i];
      LoadTriedsInv(bk, news, init);
      var bk1 := LoadTrieds(bk, init);
      NotYet(bk1, news + init, sv);
      LoadTriedInv(bk1, sv);
      LoadTriedComes(bk1, sv, news + init);
      LoadTriedFirst(bk1, sv, news);
    }
  }

  lemma LoadTriedFirst(bk: Book, sv: Saved, news: seq<Saved>)
    requires NewFirst(bk, news)
    requires LoadTried(bk, sv) == bk || Adds(bk, LoadTried(bk, sv), sv, true)
    ensures NewFirst(LoadTried(bk, sv), news)
  {
  }

  lemma LoadTriedComes(bk: Book, sv: Saved, svs: seq<Saved>)
    requires Comes(bk, svs)
    requires LoadTried(bk, sv) == bk || Adds(bk, LoadTried(bk, sv), sv, true)
    ensures Comes(LoadTried(bk, sv), svs + [sv])
  {
    if LoadTried(bk, sv) != bk {
      AddsComes(bk, LoadTried(bk, sv), sv, true, svs);
    }
  }

  lemma LoadIndexInv(bk: Book, b: nat, nIndex: int, news: seq<Saved>)
    requires Loose(bk) && NewFirst(bk, news) && b < NEW_BUCKET_COUNT
    ensures Loose(LoadIndex(bk, b, nIndex, |news|)) && NewFirst(LoadIndex(bk, b, nIndex, |news|), news)
    ensures LoadIndex(bk, b, nIndex, |news|).k == bk.k && LoadIndex(bk, b, nIndex, |news|).nIdCount == bk.nIdCount
  {
    if CanPlace(bk, b, nIndex, |news|) {
      hide InvBut;
      var ids, bk' := bk.mapInfo.Keys, Link(bk, nIndex, b);
      LinkInv(bk, nIndex, b, ids);
      assert bk'.mapInfo.Keys == ids;
      PendingGrow(bk', ids - {nIndex}, ids);
    }
  }

  lemma {:induction false} LoadBucketInv(bk: Book, b: nat, idxs: seq<int>, news: seq<Saved>)
    requires Loose(bk) && NewFirst(bk, news) && b < NEW_BUCKET_COUNT
    ensures var bk' := LoadBucket(bk, b, idxs, |news|);
            Loose(bk') && NewFirst(bk', news) && bk'.k == bk.k && bk'.nIdCount == bk.nIdCount
  {
    hide Loose;
    hide NewFirst;
    if idxs != [] {
      LoadBucketInv(bk, b, idxs[..|idxs| - 1], news);
      LoadIndexInv(LoadBucket(bk, b, idxs[..|idxs| - 1], |news|), b, idxs[|idxs| - 1], news);
    }
  }

  lemma {:induction false} LoadBucketsInv(bk: Book, buckets: seq<seq<int>>, news: seq<Saved>)
    requires Loose(bk) && NewFirst(bk, news) && |buckets| <= NEW_BUCKET_COUNT
    ensures var bk' := LoadBuckets(bk, buckets, |news|);
            Loose(bk') && NewFirst(bk', news) && bk'.k == bk.k && bk'.nIdCount == bk.nIdCount
  {
    hide Loose;
    hide NewFirst;
    if buckets != [] {
      var n := |buckets| - 1;
      LoadBucketsInv(bk, buckets[..n], news);
      LoadBucketInv(LoadBuckets(bk, buckets[..n], |news|), n, buckets[n], news);
    }
  }

  /** Entries with ids from n on may still stand nowhere. */
  predicate PrunedTo(bk: Book, n: nat) {
    InvBut(bk, set id | id in bk.mapInfo && id >= n)
  }

  lemma KeepStep(bk: Book, n: nat)
    requires PrunedTo(bk, n) && !Unreferenced(bk, n)
    ensures PrunedTo(bk, n + 1)
  {
    hide Buckets;
    var pending := set id | id in bk.mapInfo && id >= n;
    assert RefCounts(bk, pending);
    if n in bk.mapInfo && !bk.mapInfo[n].fInTried {
      assert bk.mapInfo[n].nRefCount == |Buckets(bk, n)|;
    }
    assert RefCounts(bk, set id | id in bk.mapInfo && id >= n + 1);
  }

  lemma DeleteStep(bk: Book, n: nat)
    requires PrunedTo(bk, n) && Unreferenced(bk, n)
    ensures CanDelete(bk, n) && PrunedTo(Delete(bk, n), n + 1)
    ensures Delete(bk, n).k == bk.k && Delete(bk, n).nIdCount == bk.nIdCount
  {
    hide InvBut;
    var pending := set id | id in bk.mapInfo && id >= n;
    DeleteInv(bk, n, pending);
    DeleteKeys(bk, n);
    assert pending - {n} == set id | id in Delete(bk, n).mapInfo && id >= n + 1;
  }

  lemma DeleteKeys(bk: Book, id: int)
    requires CanDelete(bk, id)
    ensures Delete(bk, id).mapInfo.Keys == bk.mapInfo.Keys - {id}
  {
  }

  lemma {:induction false} PruneInv(bk: Book, n: nat)
    requires PrunedTo(bk, 0)
    ensures PrunedTo(Prune(bk, n), n) && Prune(bk, n).k == bk.k && Prune(bk, n).nIdCount == bk.nIdCount
  {
    hide PrunedTo;
    if n > 0 {
      PruneInv(bk, n - 1);
      if Unreferenced(Prune(bk, n - 1), n - 1) {
        DeleteStep(Prune(bk, n - 1), n - 1);
      } else {
        KeepStep(Prune(bk, n - 1), n - 1);
      }
    }
  }

  lemma Pruned(bk: Book)
    requires Loose(bk)
    ensures Inv(Prune(bk, bk.nIdCount)) && Prune(bk, bk.nIdCount).k == bk.k
  {
    assert (set id | id in bk.mapInfo && id >= 0) == bk.mapInfo.Keys;
    PruneInv(bk, bk.nIdCount);
    var bk' := Prune(bk, bk.nIdCount);
    assert (set id | id in bk'.mapInfo && id >= bk.nIdCount) == {};
  }

  lemma LoadTablesLoose(h: Hashes, f: PeersFile)
    requires Sound(f)
    ensures Loose(LoadTables(h, f)) && LoadTables(h, f).k == Placing(h, f.nKey)
  {
    hide Loose;
    var k := Placing(h, f.nKey);
    forall i, j | 0 <= i < j < |f.news|
      ensures f.news[i].svc.ip != f.news[j].svc.ip
    {
      assert (f.news + f.trieds)[i].svc.ip != (f.news + f.trieds)[j].svc.ip;
    }
    LoadNewsInv(k, f.news, Usable(f));
    LoadTriedsInv(LoadNews(k, f.news, Usable(f)), f.news, f.trieds);
    if Usable(f) {
      LoadBucketsInv(LoadEntries(h, f), f.buckets, f.news);
    }
  }

  /** Whatever positions a file lists, loading it gives a consistent manager. */
  lemma LoadInv(h: Hashes, f: PeersFile)
    requires Sound(f)
    ensures Inv(Load(h, f)) && Load(h, f).k == Placing(h, f.nKey)
  {
    LoadTablesLoose(h, f);
    Pruned(LoadTables(h, f));
  }
}
