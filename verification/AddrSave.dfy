/** What is written for a manager, and that loading it gives back everything the manager knew. */
module AddrSave {
  import opened AddrBook
  import opened AddrView
  import opened AddrPut
  import opened AddrFile

  // ---------- what is written ----------

  /** The new entries with ids below n, in ascending order. */
  function NewList(bk: Book, n: nat): seq<int> {
    if n == 0 then []
    else NewList(bk, n - 1) + if n - 1 in bk.mapInfo && bk.mapInfo[n - 1].nRefCount != 0 then [n - 1] else []
  }

  function TriedList(bk: Book, n: nat): seq<int> {
    if n == 0 then []
    else TriedList(bk, n - 1) + if n - 1 in bk.mapInfo && bk.mapInfo[n - 1].fInTried then [n - 1] else []
  }

  /** The number under which a new entry is saved. */
  function Rank(bk: Book, id: int): nat {
    if id < 0 then 0 else |NewList(bk, id)|
  }

  function SavedOf(bk: Book, ids: seq<int>): seq<Saved>
    requires forall i :: 0 <= i < |ids| ==> ids[i] in bk.mapInfo
  {
    seq(|ids|, i requires 0 <= i < |ids| => Save(bk.mapInfo[ids[i]].stats))
  }

  /** The numbers of the entries in the first n positions of bucket b. */
  function BucketList(bk: Book, b: nat, n: nat): seq<int> {
    if n == 0 then []
    else BucketList(bk, b, n - 1) + if Slot(b, n - 1) in bk.vvNew then [Rank(bk, bk.vvNew[Slot(b, n - 1)])] else []
  }

  function BucketLists(bk: Book, n: nat): seq<seq<int>> {
    seq(n, b requires 0 <= b < n => BucketList(bk, b, BUCKET_SIZE))
  }

  lemma {:induction false} NewListIds(bk: Book, n: nat)
    ensures forall i :: 0 <= i < |NewList(bk, n)| ==>
              var id := NewList(bk, n)[i]; 0 <= id < n && id in bk.mapInfo && bk.mapInfo[id].nRefCount != 0
    ensures forall i, j :: 0 <= i < j < |NewList(bk, n)| ==> NewList(bk, n)[i] != NewList(bk, n)[j]
  {
    if n > 0 {
      NewListIds(bk, n - 1);
    }
  }

  lemma {:induction false} TriedListIds(bk: Book, n: nat)
    ensures forall i :: 0 <= i < |TriedList(bk, n)| ==>
              var id := TriedList(bk, n)[i]; 0 <= id < n && id in bk.mapInfo && bk.mapInfo[id].fInTried
    ensures forall i, j :: 0 <= i < j < |TriedList(bk, n)| ==> TriedList(bk, n)[i] != TriedList(bk, n)[j]
  {
    if n > 0 {
      TriedListIds(bk, n - 1);
    }
  }

  /** A new entry stands in the list at its number. */
  lemma {:induction false} NewListAt(bk: Book, id: nat, n: nat)
    requires id < n && id in bk.mapInfo && bk.mapInfo[id].nRefCount != 0
    ensures Rank(bk, id) < |NewList(bk, n)| && NewList(bk, n)[Rank(bk, id)] == id
  {
    if id < n - 1 {
      NewListAt(bk, id, n - 1);
    }
  }

  lemma {:induction false} TriedListHas(bk: Book, id: nat, n: nat)
    requires id < n && id in bk.mapInfo && bk.mapInfo[id].fInTried
    ensures id in TriedList(bk, n)
  {
    if id < n - 1 {
      TriedListHas(bk, id, n - 1);
    }
  }

  function FileOf(bk: Book): PeersFile
    requires bk.nIdCount >= 0
  {
    NewListIds(bk, bk.nIdCount);
    TriedListIds(bk, bk.nIdCount);
    PeersFile(1, bk.k.nKey, NEW_BUCKET_COUNT, SavedOf(bk, NewList(bk, bk.nIdCount)),
              SavedOf(bk, TriedList(bk, bk.nIdCount)), BucketLists(bk, NEW_BUCKET_COUNT))
  }

  // ---------- the entries come back ----------

  /** Different entries have different addresses. */
  lemma DistinctSaved(bk: Book, ids: seq<int>)
    requires AddrIndex(bk) && forall i :: 0 <= i < |ids| ==> ids[i] in bk.mapInfo
    requires forall i, j :: 0 <= i < j < |ids| ==> ids[i] != ids[j]
    ensures Distinct(SavedOf(bk, ids))
  {
    forall i, j | 0 <= i < j < |ids|
      ensures SavedOf(bk, ids)[i].svc.ip != SavedOf(bk, ids)[j].svc.ip
    {
      assert bk.mapAddr[Ip(bk, ids[i])] == ids[i] && bk.mapAddr[Ip(bk, ids[j])] == ids[j];
    }
  }

  lemma SplitKinds(bk: Book)
    requires Inv(bk)
    ensures forall id :: id in bk.mapInfo ==>
              (bk.mapInfo[id].fInTried <==> bk.mapInfo[id].nRefCount == 0) && 0 <= id < bk.nIdCount
  {
  }

  lemma AllIds(bk: Book)
    requires Inv(bk) && bk.nIdCount >= 0
    ensures var ids := NewList(bk, bk.nIdCount) + TriedList(bk, bk.nIdCount);
            && (forall i :: 0 <= i < |ids| ==> ids[i] in bk.mapInfo)
            && (forall i, j :: 0 <= i < j < |ids| ==> ids[i] != ids[j])
            && (forall id :: id in bk.mapInfo ==> id in ids)
  {
    hide InvBut;
    var n := bk.nIdCount;
    NewListIds(bk, n);
    TriedListIds(bk, n);
    SplitKinds(bk);
    forall id | id in bk.mapInfo
      ensures id in NewList(bk, n) + TriedList(bk, n)
    {
      if bk.mapInfo[id].fInTried { TriedListHas(bk, id, n); } else { NewListAt(bk, id, n); }
    }
  }

  lemma SavedSplit(bk: Book, x: seq<int>, y: seq<int>)
    requires forall i :: 0 <= i < |x + y| ==> (x + y)[i] in bk.mapInfo
    requires (forall i :: 0 <= i < |x| ==> x[i] in bk.mapInfo) && (forall i :: 0 <= i < |y| ==> y[i] in bk.mapInfo)
    ensures SavedOf(bk, x + y) == SavedOf(bk, x) + SavedOf(bk, y)
  {
  }

  lemma SavedTimes(bk: Book)
    requires Inv(bk) && Times(bk) && bk.nIdCount >= 0
    ensures (forall sv :: sv in FileOf(bk).news ==> sv.nLastSuccess >= 0)
         && (forall sv :: sv in FileOf(bk).trieds ==> sv.nLastSuccess > 0)
  {
    NewListIds(bk, bk.nIdCount);
    TriedListIds(bk, bk.nIdCount);
  }

  lemma FileSound(bk: Book)
    requires Inv(bk) && bk.nIdCount >= 0
    ensures Sound(FileOf(bk)) && Usable(FileOf(bk))
    ensures Times(bk) ==> (forall sv :: sv in FileOf(bk).news ==> sv.nLastSuccess >= 0)
                          && (forall sv :: sv in FileOf(bk).trieds ==> sv.nLastSuccess > 0)
  {
    hide InvBut;
    var n := bk.nIdCount;
    InvParts(bk, {});
    NewListIds(bk, n);
    TriedListIds(bk, n);
    AllIds(bk);
    if Times(bk) { SavedTimes(bk); }
    DistinctSaved(bk, NewList(bk, n) + TriedList(bk, n));
    SavedSplit(bk, NewList(bk, n), TriedList(bk, n));
  }

  /** A record as it comes back before it is given its buckets. */
  function Returned(r: Record): Record {
    Record(Restore(Save(r.stats)), if r.place.Tried? then Tried else New({}))
  }

  /** The book knows the entries in ids, without their buckets. */
  ghost predicate Back(l: Book, bk: Book, ids: seq<int>) {
    && (forall a :: a in ViewOf(l) <==> a in ViewOf(bk) && bk.mapAddr[a] in ids)
    && (forall a :: a in ViewOf(l) ==> a in ViewOf(bk) && ViewOf(l)[a] == Returned(ViewOf(bk)[a]))
  }

  /** The book after one more entry. */
  lemma BackStep(l: Book, l': Book, bk: Book, ids: seq<int>, id: int)
    requires AddrIndex(bk) && id in bk.mapInfo && Back(l, bk, ids)
    requires ViewOf(l') == ViewOf(l)[Ip(bk, id) := Returned(RecordOf(bk, id))]
    ensures Back(l', bk, ids + [id])
  {
    ViewAt(bk, id);
  }

  lemma NotBack(l: Book, bk: Book, ids: seq<int>, id: int)
    requires AddrIndex(l) && AddrIndex(bk) && id in bk.mapInfo && id !in ids && Back(l, bk, ids)
    ensures Ip(bk, id) !in l.mapAddr
  {
    ViewAt(bk, id);
    assert forall a :: a in l.mapAddr ==> a in ViewOf(l);
  }

  lemma LooseParts(bk: Book)
    requires Loose(bk)
    ensures AddrIndex(bk) && NewTable(bk) && TriedTable(bk) && IdsBelow(bk) && bk.nIdCount >= 0
  {
  }

  lemma NewBack(l: Book, bk: Book, ids: seq<int>, id: int)
    requires Loose(l) && Inv(bk) && id in bk.mapInfo && !bk.mapInfo[id].fInTried && id !in ids && Back(l, bk, ids)
    ensures Back(LoadNew(l, Save(bk.mapInfo[id].stats), true), bk, ids + [id])
  {
    hide InvBut;
    hide Loose;
    hide Back;
    InvParts(bk, {});
    LooseParts(l);
    NotBack(l, bk, ids, id);
    CreateView(l, Restore(Save(bk.mapInfo[id].stats)));
    BackStep(l, LoadNew(l, Save(bk.mapInfo[id].stats), true), bk, ids, id);
  }

  /** Tried entries never share a slot, so none is lost. */
  lemma SlotStillFree(l: Book, bk: Book, ids: seq<int>, id: int)
    requires AddrIndex(l) && TriedTable(l) && AddrIndex(bk) && TriedTable(bk) && l.k == bk.k
    requires id in bk.mapInfo && bk.mapInfo[id].fInTried && id !in ids && Back(l, bk, ids)
    ensures TriedSlot(l.k, Svc(bk, id)) !in l.vvTried
  {
    var s := TriedSlot(l.k, Svc(bk, id));
    if s in l.vvTried {
      EvictHolder(l, s);
      var a := Ip(l, l.vvTried[s]);
      assert ViewOf(l)[a] == Returned(ViewOf(bk)[a]);
      TriedHolder(bk, s, a);
    }
  }

  lemma TriedBack(l: Book, bk: Book, ids: seq<int>, id: int)
    requires Loose(l) && Inv(bk) && l.k == bk.k
    requires id in bk.mapInfo && bk.mapInfo[id].fInTried && id !in ids && Back(l, bk, ids)
    ensures Back(LoadTried(l, Save(bk.mapInfo[id].stats)), bk, ids + [id])
  {
    hide InvBut;
    hide Loose;
    hide Back;
    InvParts(bk, {});
    LooseParts(l);
    NotBack(l, bk, ids, id);
    SlotStillFree(l, bk, ids, id);
    TriedView(l, Save(bk.mapInfo[id].stats));
    hide ViewOf;
    hide AddrIndex;
    hide NewTable;
    hide TriedTable;
    hide IdsBelow;
    hide LoadTried;
    BackStep(l, LoadTried(l, Save(bk.mapInfo[id].stats)), bk, ids, id);
  }

  /** What is known after a tried entry was loaded into a free slot. */
  lemma TriedView(l: Book, sv: Saved)
    requires AddrIndex(l) && IdsBelow(l) && NewTable(l) && sv.svc.ip !in l.mapAddr
    requires TriedSlot(l.k, sv.svc) !in l.vvTried
    ensures ViewOf(LoadTried(l, sv)) == ViewOf(l)[sv.svc.ip := Record(Restore(sv), Tried)]
  {
    var st := Restore(sv);
    CreateView(l, st);
    CreateAddrIndex(l, st);
    hide ViewOf;
    hide AddrIndex;
    hide NewTable;
    hide Promote;
    PromoteView(Create(l, st), l.nIdCount);
  }

  lemma CreateAddrIndex(bk: Book, st: Stats)
    requires AddrIndex(bk) && IdsBelow(bk) && st.svc.ip !in bk.mapAddr
    ensures AddrIndex(Create(bk, st))
  {
    var bk' := Create(bk, st);
    forall i | i in bk'.mapInfo
      ensures Ip(bk', i) in bk'.mapAddr && bk'.mapAddr[Ip(bk', i)] == i
    {
      if i != bk.nIdCount { assert i in bk.mapInfo && bk.mapAddr[Ip(bk, i)] == i; }
    }
  }

  lemma SavedPrefix(bk: Book, ids: seq<int>, id: int)
    requires (forall i :: 0 <= i < |ids| ==> ids[i] in bk.mapInfo) && id in bk.mapInfo
    ensures SavedOf(bk, ids + [id]) == SavedOf(bk, ids) + [Save(bk.mapInfo[id].stats)]
  {
  }

  /** Part of a list of different new entries. */
  ghost predicate Listed(bk: Book, ids: seq<int>) {
    && (forall i :: 0 <= i < |ids| ==> ids[i] in bk.mapInfo)
    && (forall i, j :: 0 <= i < j < |ids| ==> ids[i] != ids[j])
  }

  lemma ListedSplit(bk: Book, ids: seq<int>)
    requires Listed(bk, ids) && ids != []
    ensures Listed(bk, ids[..|ids| - 1]) && ids[|ids| - 1] !in ids[..|ids| - 1]
            && ids[..|ids| - 1] + [ids[|ids| - 1]] == ids
  {
  }

  lemma {:induction false} NewsBack(bk: Book, ids: seq<int>)
    requires Inv(bk) && Listed(bk, ids) && forall i :: 0 <= i < |ids| ==> !bk.mapInfo[ids[i]].fInTried
    ensures var l := LoadNews(bk.k, SavedOf(bk, ids), true); Loose(l) && l.k == bk.k && Back(l, bk, ids)
  {
    hide InvBut;
    hide Loose;
    if ids == [] {
      BlankLoose(bk.k);
    } else {
      hide Back;
      var init, id := ids[..|ids| - 1], ids[|ids| - 1];
      ListedSplit(bk, ids);
      NewsBack(bk, init);
      SavedPrefix(bk, init, id);
      var svs, l := SavedOf(bk, ids), LoadNews(bk.k, SavedOf(bk, init), true);
      assert svs[..|svs| - 1] == SavedOf(bk, init) && svs[|svs| - 1] == Save(bk.mapInfo[id].stats);
      NewBack(l, bk, init, id);
      InvParts(bk, {});
      LooseParts(l);
      NotBack(l, bk, init, id);
      LoadNewInv(l, Save(bk.mapInfo[id].stats), true);
    }
  }

  lemma {:induction false} TriedsBack(l: Book, bk: Book, news: seq<int>, ids: seq<int>)
    requires Inv(bk) && Listed(bk, news + ids) && Listed(bk, ids)
    requires forall i :: 0 <= i < |ids| ==> bk.mapInfo[ids[i]].fInTried
    requires Loose(l) && l.k == bk.k && Back(l, bk, news)
    ensures var l' := LoadTrieds(l, SavedOf(bk, ids)); Loose(l') && l'.k == bk.k && Back(l', bk, news + ids)
  {
    hide InvBut;
    hide Loose;
    hide Back;
    hide LoadTried;
    if ids == [] {
      assert news + ids == news;
    } else {
      var init, id := ids[..|ids| - 1], ids[|ids| - 1];
      ListedSplit(bk, ids);
      ListedSplit(bk, news + ids);
      assert (news + ids)[..|news + ids| - 1] == news + init;
      assert news + init + [id] == news + ids;
      TriedsBack(l, bk, news, init);
      SavedPrefix(bk, init, id);
      var svs, l1 := SavedOf(bk, ids), LoadTrieds(l, SavedOf(bk, init));
      assert svs[..|svs| - 1] == SavedOf(bk, init) && svs[|svs| - 1] == Save(bk.mapInfo[id].stats);
      TriedBack(l1, bk, news + init, id);
      InvParts(bk, {});
      LooseParts(l1);
      NotBack(l1, bk, news + init, id);
      LoadTriedInv(l1, Save(bk.mapInfo[id].stats));
    }
  }

  // ---------- the buckets come back ----------

  /** A record with the buckets handed out when positions below i of bucket b have been read. */
  function Regained(k: Placing, r: Record, b: nat, i: nat): Record {
    Record(Restore(Save(r.stats)),
           if r.place.Tried? then Tried
           else New(set x | x in r.place.buckets && (x < b || (x == b && BucketPos(k, r.stats.svc, true, x) < i))))
  }

  lemma RegainedSame(k: Placing, r: Record, b: nat, i: nat)
    requires !Stands(k, r, Slot(b, i))
    ensures Regained(k, r, b, i + 1) == Regained(k, r, b, i)
  {
    if r.place.New? {
      assert Regained(k, r, b, i + 1).place.buckets == Regained(k, r, b, i).place.buckets;
    }
  }

  lemma RegainedMore(k: Placing, r: Record, b: nat, i: nat)
    requires Stands(k, r, Slot(b, i))
    ensures Regained(k, r, b, i + 1).place == New(Regained(k, r, b, i).place.buckets + {b})
  {
    assert Regained(k, r, b, i + 1).place.buckets == Regained(k, r, b, i).place.buckets + {b};
  }

  ghost predicate PlacedTo(l: Book, bk: Book, b: nat, i: nat) {
    && Loose(l) && l.k == bk.k && ViewOf(l).Keys == ViewOf(bk).Keys
    && (forall a :: a in ViewOf(bk) ==> a in ViewOf(l) && ViewOf(l)[a] == Regained(bk.k, ViewOf(bk)[a], b, i))
  }

  /** Entries kept under their numbers. */
  ghost predicate Numbered(l: Book, bk: Book) {
    forall id :: id in bk.mapInfo && !bk.mapInfo[id].fInTried ==>
      && Rank(bk, id) in l.mapInfo && !l.mapInfo[Rank(bk, id)].fInTried
      && l.mapInfo[Rank(bk, id)].stats == Restore(Save(bk.mapInfo[id].stats))
  }

  lemma {:induction false} SkipPosition(l: Book, bk: Book, b: nat, i: nat)
    requires Inv(bk) && PlacedTo(l, bk, b, i) && Slot(b, i) !in bk.vvNew && b < NEW_BUCKET_COUNT
    ensures PlacedTo(l, bk, b, i + 1)
  {
    hide InvBut;
    hide Loose;
    InvParts(bk, {});
    forall a | a in ViewOf(bk)
      ensures Regained(bk.k, ViewOf(bk)[a], b, i + 1) == Regained(bk.k, ViewOf(bk)[a], b, i)
    {
      var r := ViewOf(bk)[a];
      SlotHolder(bk, Slot(b, i), a);
      RegainedSame(bk.k, r, b, i);
    }
  }

  /** The slot listed next is free, and its entry may have one more bucket. */
  lemma PositionFree(l: Book, bk: Book, b: nat, i: nat, id: int)
    requires Inv(bk) && PlacedTo(l, bk, b, i) && Numbered(l, bk)
    requires Slot(b, i) in bk.vvNew && bk.vvNew[Slot(b, i)] == id
    ensures id in bk.mapInfo && !bk.mapInfo[id].fInTried && NewSlot(bk.k, Svc(bk, id), b) == Slot(b, i)
    ensures Rank(bk, id) in l.mapInfo && Svc(l, Rank(bk, id)) == Svc(bk, id)
    ensures Slot(b, i) !in l.vvNew && l.mapInfo[Rank(bk, id)].nRefCount < NEW_BUCKETS_PER_ADDRESS
  {
    hide InvBut;
    InvParts(bk, {});
    LooseParts(l);
    HolderNew(bk, Slot(b, i), {});
    assert NewSlot(bk.k, Svc(bk, id), b) == Slot(b, i);
    FreeAgain(l, bk, b, i);
    RoomLeft(l, bk, b, i, id);
  }

  lemma FreeAgain(l: Book, bk: Book, b: nat, i: nat)
    requires PlacedTo(l, bk, b, i) && AddrIndex(l) && NewTable(l)
    ensures Slot(b, i) !in l.vvNew
  {
    hide Loose;
    if Slot(b, i) in l.vvNew {
      OneHolder(l, Slot(b, i));
    }
  }

  lemma RoomLeft(l: Book, bk: Book, b: nat, i: nat, id: int)
    requires Inv(bk) && PlacedTo(l, bk, b, i) && AddrIndex(l)
    requires Slot(b, i) in bk.vvNew && bk.vvNew[Slot(b, i)] == id && id in bk.mapInfo
    requires Rank(bk, id) in l.mapInfo && Svc(l, Rank(bk, id)) == Svc(bk, id) && !l.mapInfo[Rank(bk, id)].fInTried
    ensures l.mapInfo[Rank(bk, id)].nRefCount < NEW_BUCKETS_PER_ADDRESS
  {
    hide InvBut;
    var j := Rank(bk, id);
    InvParts(bk, {});
    ViewAt(bk, id);
    ViewAt(l, j);
    OneHolder(bk, Slot(b, i));
    ExactCount(l, j, l.mapInfo.Keys);
    ExactCount(bk, id, {});
    assert Buckets(l, j) <= Buckets(bk, id) - {b};
    Smaller(Buckets(l, j), Buckets(bk, id), b);
    Bounded(bk, id);
  }

  lemma Bounded(bk: Book, id: int)
    requires Inv(bk) && id in bk.mapInfo
    ensures bk.mapInfo[id].nRefCount <= NEW_BUCKETS_PER_ADDRESS
  {
  }

  lemma {:induction false} Smaller(x: set<nat>, y: set<nat>, e: nat)
    requires x <= y - {e} && e in y
    ensures |x| < |y|
  {
    if x != {} {
      var c :| c in x;
      Smaller(x - {c}, y - {c}, e);
    }
  }

  lemma TakePosition(l: Book, bk: Book, b: nat, i: nat, id: int, nNew: nat)
    requires Inv(bk) && PlacedTo(l, bk, b, i) && Numbered(l, bk) && b < NEW_BUCKET_COUNT
    requires Slot(b, i) in bk.vvNew && bk.vvNew[Slot(b, i)] == id && Rank(bk, id) < nNew
    ensures PlacedTo(LoadIndex(l, b, Rank(bk, id), nNew), bk, b, i + 1)
            && Numbered(LoadIndex(l, b, Rank(bk, id), nNew), bk)
  {
    hide InvBut;
    hide ViewOf;
    hide Loose;
    hide AddrIndex;
    hide NewTable;
    hide TriedTable;
    hide Regained;
    var j := Rank(bk, id);
    PositionFree(l, bk, b, i, id);
    LooseParts(l);
    LinkView(l, j, b);
    LinkLoose(l, j, b);
    var l' := Link(l, j, b);
    InvParts(bk, {});
    ViewAt(bk, id);
    ViewAt(l, j);
    OneHolder(bk, Slot(b, i));
    forall a | a in ViewOf(bk)
      ensures a in ViewOf(l') && ViewOf(l')[a] == Regained(bk.k, ViewOf(bk)[a], b, i + 1)
    {
      TakeOne(l, bk, b, i, id, a);
    }
    assert ViewOf(l').Keys == ViewOf(bk).Keys;
  }

  lemma LinkLoose(bk: Book, id: int, b: nat)
    requires Loose(bk) && id in bk.mapInfo && !bk.mapInfo[id].fInTried
    requires b < NEW_BUCKET_COUNT && NewSlot(bk.k, Svc(bk, id), b) !in bk.vvNew
    requires bk.mapInfo[id].nRefCount < NEW_BUCKETS_PER_ADDRESS
    ensures Loose(Link(bk, id, b))
  {
    hide InvBut;
    var ids, bk' := bk.mapInfo.Keys, Link(bk, id, b);
    LinkInv(bk, id, b, ids);
    assert bk'.mapInfo.Keys == ids;
    PendingGrow(bk', ids - {id}, ids);
  }

  /** Reading position i of bucket b changes the record of its holder only. */
  lemma TakeOne(l: Book, bk: Book, b: nat, i: nat, id: int, a: NetAddr)
    requires AddrIndex(bk) && NewTable(bk) && a in ViewOf(bk)
    requires Slot(b, i) in bk.vvNew && bk.vvNew[Slot(b, i)] == id
    requires ViewOf(bk)[Ip(bk, id)] == RecordOf(bk, id)
    ensures a != Ip(bk, id) ==> Regained(bk.k, ViewOf(bk)[a], b, i + 1) == Regained(bk.k, ViewOf(bk)[a], b, i)
    ensures a == Ip(bk, id) ==>
              && Regained(bk.k, ViewOf(bk)[a], b, i).place.New?
              && Regained(bk.k, ViewOf(bk)[a], b, i + 1)
                 == Record(Restore(Save(bk.mapInfo[id].stats)),
                     New(Regained(bk.k, ViewOf(bk)[a], b, i).place.buckets + {b}))
  {
    OneHolder(bk, Slot(b, i));
    var r := ViewOf(bk)[a];
    if a != Ip(bk, id) {
      RegainedSame(bk.k, r, b, i);
    } else {
      RegainedMore(bk.k, r, b, i);
    }
  }

  lemma {:induction false} BucketBack(l: Book, bk: Book, b: nat, i: nat, nNew: nat)
    requires Inv(bk) && PlacedTo(l, bk, b, 0) && Numbered(l, bk) && b < NEW_BUCKET_COUNT && i <= BUCKET_SIZE
    requires forall id :: id in bk.mapInfo && !bk.mapInfo[id].fInTried ==> Rank(bk, id) < nNew
    ensures var l' := LoadBucket(l, b, BucketList(bk, b, i), nNew); PlacedTo(l', bk, b, i) && Numbered(l', bk)
  {
    hide InvBut;
    hide PlacedTo;
    hide Numbered;
    if i > 0 {
      BucketBack(l, bk, b, i - 1, nNew);
      var init, list := BucketList(bk, b, i - 1), BucketList(bk, b, i);
      var l1, s := LoadBucket(l, b, init, nNew), Slot(b, i - 1);
      if s in bk.vvNew {
        var id := bk.vvNew[s];
        HolderNew(bk, s, {});
        TakePosition(l1, bk, b, i - 1, id, nNew);
        assert list == init + [Rank(bk, id)] && list[..|list| - 1] == init;
      } else {
        SkipPosition(l1, bk, b, i - 1);
        assert list == init;
      }
    }
  }

  /** All positions of a bucket are below its size. */
  lemma NextBucket(l: Book, bk: Book, b: nat)
    requires PlacedTo(l, bk, b, BUCKET_SIZE)
    ensures PlacedTo(l, bk, b + 1, 0)
  {
    hide Loose;
    forall a | a in ViewOf(bk)
      ensures Regained(bk.k, ViewOf(bk)[a], b + 1, 0) == Regained(bk.k, ViewOf(bk)[a], b, BUCKET_SIZE)
    {
      var r := ViewOf(bk)[a];
      if r.place.New? {
        assert Regained(bk.k, r, b + 1, 0).place.buckets == Regained(bk.k, r, b, BUCKET_SIZE).place.buckets;
      }
    }
  }

  lemma {:induction false} BucketsBack(l: Book, bk: Book, b: nat, nNew: nat)
    requires Inv(bk) && PlacedTo(l, bk, 0, 0) && Numbered(l, bk) && b <= NEW_BUCKET_COUNT
    requires forall id :: id in bk.mapInfo && !bk.mapInfo[id].fInTried ==> Rank(bk, id) < nNew
    ensures var l' := LoadBuckets(l, BucketLists(bk, b), nNew); PlacedTo(l', bk, b, 0) && Numbered(l', bk)
  {
    hide InvBut;
    hide PlacedTo;
    hide Numbered;
    hide LoadBucket;
    hide BucketList;
    if b > 0 {
      BucketsBack(l, bk, b - 1, nNew);
      var lists := BucketLists(bk, b);
      assert lists[..b - 1] == BucketLists(bk, b - 1);
      var l1 := LoadBuckets(l, BucketLists(bk, b - 1), nNew);
      BucketBack(l1, bk, b - 1, BUCKET_SIZE, nNew);
      NextBucket(LoadBucket(l1, b - 1, BucketList(bk, b - 1, BUCKET_SIZE), nNew), bk, b - 1);
    }
  }

  // ---------- the round trip ----------

  /** Everything but the times of the last attempts. */
  function Remembered(v: View): View {
    map a | a in v :: v[a].(stats := v[a].stats.(nLastTry := 0, nLastCountAttempt := 0))
  }

  lemma EntriesBack(bk: Book)
    requires Inv(bk) && bk.nIdCount >= 0
    ensures var l := LoadEntries(bk.k.h, FileOf(bk)); PlacedTo(l, bk, 0, 0) && Numbered(l, bk)
    ensures forall id :: id in bk.mapInfo && !bk.mapInfo[id].fInTried ==> Rank(bk, id) < |FileOf(bk).news|
  {
    hide InvBut;
    hide Loose;
    var n, f := bk.nIdCount, FileOf(bk);
    var news, trieds := NewList(bk, n), TriedList(bk, n);
    NewListIds(bk, n);
    TriedListIds(bk, n);
    AllIds(bk);
    SplitKinds(bk);
    assert Placing(bk.k.h, bk.k.nKey) == bk.k;
    NewsBack(bk, news);
    var l0 := LoadNews(bk.k, f.news, true);
    TriedsBack(l0, bk, news, trieds);
    var l := LoadTrieds(l0, f.trieds);
    InvParts(bk, {});
    AllBack(l, bk, news + trieds);
    FileSound(bk);
    EntriesNumbered(bk);
    forall id | id in bk.mapInfo && !bk.mapInfo[id].fInTried
      ensures Rank(bk, id) < |f.news|
    {
      NewListAt(bk, id, n);
    }
  }

  lemma AllBack(l: Book, bk: Book, ids: seq<int>)
    requires Loose(l) && l.k == bk.k && Back(l, bk, ids) && AddrIndex(bk) && forall id :: id in bk.mapInfo ==> id in ids
    ensures PlacedTo(l, bk, 0, 0)
  {
    hide Loose;
    assert forall a :: a in ViewOf(bk) ==> bk.mapAddr[a] in bk.mapInfo;
    forall a | a in ViewOf(bk)
      ensures a in ViewOf(l) && ViewOf(l)[a] == Regained(bk.k, ViewOf(bk)[a], 0, 0)
    {
      var r := ViewOf(bk)[a];
      if r.place.New? { assert Regained(bk.k, r, 0, 0).place.buckets == {}; }
    }
  }

  lemma EntriesNumbered(bk: Book)
    requires Inv(bk) && bk.nIdCount >= 0 && Sound(FileOf(bk))
    ensures Numbered(LoadEntries(bk.k.h, FileOf(bk)), bk)
  {
    hide InvBut;
    hide Loose;
    var n, f := bk.nIdCount, FileOf(bk);
    NewListIds(bk, n);
    SplitKinds(bk);
    InvParts(bk, {});
    DistinctSaved(bk, NewList(bk, n));
    LoadNewsInv(Placing(bk.k.h, f.nKey), f.news, true);
    LoadTriedsInv(LoadNews(Placing(bk.k.h, f.nKey), f.news, true), f.news, f.trieds);
    forall id | id in bk.mapInfo && !bk.mapInfo[id].fInTried
      ensures Rank(bk, id) < |f.news| && f.news[Rank(bk, id)] == Save(bk.mapInfo[id].stats)
    {
      NewListAt(bk, id, n);
    }
  }

  lemma {:induction false} NothingPruned(bk: Book, n: nat)
    requires forall id :: !Unreferenced(bk, id)
    ensures Prune(bk, n) == bk
  {
    if n > 0 {
      NothingPruned(bk, n - 1);
    }
  }

  /** With all positions read, every record is complete and none is to be dropped. */
  lemma AllPlaced(l: Book, bk: Book)
    requires Inv(bk) && PlacedTo(l, bk, NEW_BUCKET_COUNT, 0)
    ensures ViewOf(l) == Remembered(ViewOf(bk)) && forall id :: !Unreferenced(l, id)
  {
    hide InvBut;
    InvParts(bk, {});
    forall a | a in ViewOf(bk)
      ensures Regained(bk.k, ViewOf(bk)[a], NEW_BUCKET_COUNT, 0) == Remembered(ViewOf(bk))[a]
      ensures ViewOf(bk)[a].place.New? ==> ViewOf(bk)[a].place.buckets != {}
    {
      var r := ViewOf(bk)[a];
      if r.place.New? {
        assert Regained(bk.k, r, NEW_BUCKET_COUNT, 0).place.buckets == r.place.buckets;
        SomeBucket(bk, bk.mapAddr[a]);
      }
    }
    forall id | id in l.mapInfo && !l.mapInfo[id].fInTried
      ensures l.mapInfo[id].nRefCount != 0
    {
      LooseParts(l);
      ViewAt(l, id);
      EmptyBuckets(l, id, l.mapInfo.Keys);
    }
  }

  /** Saving and loading loses no address and no place. */
  lemma SaveLoad(bk: Book)
    requires Inv(bk) && bk.nIdCount >= 0
    ensures Sound(FileOf(bk))
    ensures var bk' := Load(bk.k.h, FileOf(bk));
            && Inv(bk') && bk'.k == bk.k && ViewOf(bk') == Remembered(ViewOf(bk))
            && (Times(bk) ==> Times(bk'))
  {
    hide InvBut;
    hide PlacedTo;
    hide Numbered;
    hide ViewOf;
    var f := FileOf(bk);
    FileSound(bk);
    LoadInv(bk.k.h, f);
    EntriesBack(bk);
    BucketsBack(LoadEntries(bk.k.h, f), bk, NEW_BUCKET_COUNT, |f.news|);
    var l := LoadTables(bk.k.h, f);
    AllPlaced(l, bk);
    if l.nIdCount >= 0 {
      NothingPruned(l, l.nIdCount);
    }
    TimesBack(bk, Load(bk.k.h, f));
  }

  lemma TimesBack(bk: Book, bk': Book)
    requires Inv(bk) && Inv(bk') && ViewOf(bk') == Remembered(ViewOf(bk))
    ensures Times(bk) ==> Times(bk')
  {
    hide InvBut;
    InvParts(bk, {});
    InvParts(bk', {});
    TimesView(bk);
    TimesView(bk');
  }
}
