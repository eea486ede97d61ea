/** The steps by which an entry gets a place in the tables, as the operations describe them. */
module AddrPut {
  import opened AddrBook
  import opened AddrView
  import opened AddrOps

  // ---------- one more bucket for an entry ----------

  lemma OtherSlotView(bk: Book, id: int, s: Slot, pending: set<int>)
    requires InvBut(bk, pending) && id in bk.mapInfo && !(s in bk.vvNew && bk.vvNew[s] == id)
    ensures Ip(bk, id) in ViewOf(bk) && ViewOf(bk)[Ip(bk, id)] == RecordOf(bk, id) && !Stands(bk.k, RecordOf(bk, id), s)
  {
    ViewAt(bk, id);
    SlotHolder(bk, s, Ip(bk, id));
  }

  lemma InsertClear(bk: Book, id: int, s: Slot)
    requires InvBut(bk, {id}) && id in bk.mapInfo && !bk.mapInfo[id].fInTried && !(s in bk.vvNew && bk.vvNew[s] == id)
    ensures CanClear(bk, s) && InvBut(ClearNew(bk, s), {id})
            && ViewOf(ClearNew(bk, s)) == ClearSlot(bk.k, ViewOf(bk), s)
    ensures id in ClearNew(bk, s).mapInfo && RecordOf(ClearNew(bk, s), id) == RecordOf(bk, id)
  {
    hide InvBut;
    OtherSlotView(bk, id, s, {id});
    ClearNewInv(bk, s, {id});
    ClearNewKeeps(bk, s, id);
    ClearNewView(bk, s, {id});
    InvParts(ClearNew(bk, s), {id});
    ViewAt(ClearNew(bk, s), id);
  }

  lemma Insert(bk: Book, id: int, b: nat)
    requires InvBut(bk, {id}) && id in bk.mapInfo && !bk.mapInfo[id].fInTried && b < NEW_BUCKET_COUNT
    requires bk.mapInfo[id].nRefCount < NEW_BUCKETS_PER_ADDRESS
    requires var s := NewSlot(bk.k, Svc(bk, id), b); !(s in bk.vvNew && bk.vvNew[s] == id)
    ensures var s := NewSlot(bk.k, Svc(bk, id), b);
            && CanClear(bk, s) && id in ClearNew(bk, s).mapInfo
            && Inv(Link(ClearNew(bk, s), id, b))
            && ViewOf(Link(ClearNew(bk, s), id, b))
               == ClearSlot(bk.k, ViewOf(bk), s)[Ip(bk, id) := Record(bk.mapInfo[id].stats, New(Buckets(bk, id) + {b}))]
  {
    hide InvBut;
    hide ViewOf;
    var s := NewSlot(bk.k, Svc(bk, id), b);
    InsertClear(bk, id, s);
    var cl := ClearNew(bk, s);
    ClearNewKeeps(bk, s, id);
    InvParts(cl, {id});
    LinkInv(cl, id, b, {id});
    assert {id} - {id} == {};
    LinkView(cl, id, b);
  }

  /** Where a slot's entry does not give way, an entry without a bucket is dropped again. */
  predicate Blocked(bk: Book, id: int, s: Slot, now: int) {
    && id in bk.mapInfo && s in bk.vvNew && bk.vvNew[s] != id
    && bk.vvNew[s] in bk.mapInfo
    && !(IsTerrible(bk.mapInfo[bk.vvNew[s]].stats, now)
         || (bk.mapInfo[bk.vvNew[s]].nRefCount > 1 && bk.mapInfo[id].nRefCount == 0))
  }

  /** The holder of a slot gives way exactly when the tables say so. */
  lemma BlockedView(bk: Book, id: int, s: Slot, now: int)
    requires InvBut(bk, {id}) && id in bk.mapInfo && !bk.mapInfo[id].fInTried && !(s in bk.vvNew && bk.vvNew[s] == id)
    ensures var v := ViewOf(bk);
            Blocked(bk, id, s, now) <==>
            exists h :: h in v && Stands(bk.k, v[h], s) && !GivesWay(v[h], now, |Buckets(bk, id)|)
  {
    hide InvBut;
    InvParts(bk, {id});
    ExactCount(bk, id, {id});
    SlotHolders(bk, s);
    if s in bk.vvNew {
      OneHolder(bk, s);
      HolderNew(bk, s, {id});
      ExactCount(bk, bk.vvNew[s], {id});
    }
  }

  lemma HolderNew(bk: Book, s: Slot, pending: set<int>)
    requires InvBut(bk, pending) && s in bk.vvNew
    ensures bk.vvNew[s] in bk.mapInfo && !bk.mapInfo[bk.vvNew[s]].fInTried
  {
  }

  lemma EmptyBuckets(bk: Book, id: int, pending: set<int>)
    requires InvBut(bk, pending) && id in bk.mapInfo
    ensures bk.mapInfo[id].nRefCount == 0 <==> Buckets(bk, id) == {}
  {
    ExactCount(bk, id, pending);
  }

  lemma DropAgain(bk: Book, id: int)
    requires InvBut(bk, {id}) && Unreferenced(bk, id)
    ensures CanDelete(bk, id) && Inv(Delete(bk, id)) && ViewOf(Delete(bk, id)) == ViewOf(bk) - {Ip(bk, id)}
  {
    hide InvBut;
    DeleteInv(bk, id, {id});
    assert {id} - {id} == {};
    InvParts(bk, {id});
    DeleteView(bk, id);
  }

  /** A referenced entry is nothing out of the ordinary. */
  lemma Settled(bk: Book, id: int)
    requires InvBut(bk, {id}) && id in bk.mapInfo && (bk.mapInfo[id].nRefCount > 0 || bk.mapInfo[id].fInTried)
    ensures Inv(bk)
  {
  }

  /** The three ways in which an entry is given a place, on the tables and on the view. */
  lemma PutCases(bk: Book, id: int, src: NetAddr, now: int)
    requires InvBut(bk, {id}) && id in bk.mapInfo && !bk.mapInfo[id].fInTried
    requires bk.mapInfo[id].nRefCount < NEW_BUCKETS_PER_ADDRESS
    ensures Ip(bk, id) in ViewOf(bk) && ViewOf(bk)[Ip(bk, id)] == RecordOf(bk, id)
    ensures var b := NewBucket(bk.k, Svc(bk, id), src);
            var s := NewSlot(bk.k, Svc(bk, id), b);
            var goal := PutNew(bk.k, ViewOf(bk), Ip(bk, id), src, now);
            if s in bk.vvNew && bk.vvNew[s] == id then
              Inv(bk) && ViewOf(bk) == goal
            else if Blocked(bk, id, s, now) then
              if bk.mapInfo[id].nRefCount == 0 then
                CanDelete(bk, id) && Inv(Delete(bk, id)) && ViewOf(Delete(bk, id)) == goal
              else Inv(bk) && ViewOf(bk) == goal
            else
              && CanClear(bk, s) && id in ClearNew(bk, s).mapInfo
              && Inv(Link(ClearNew(bk, s), id, b)) && ViewOf(Link(ClearNew(bk, s), id, b)) == goal
  {
    hide InvBut;
    hide ViewOf;
    hide ClearSlot;
    var b := NewBucket(bk.k, Svc(bk, id), src);
    var s := NewSlot(bk.k, Svc(bk, id), b);
    InvParts(bk, {id});
    ViewAt(bk, id);
    EmptyBuckets(bk, id, {id});
    if s in bk.vvNew && bk.vvNew[s] == id {
      OneHolder(bk, s);
      CountedHolder(bk, s, {id});
      Settled(bk, id);
    } else {
      BlockedView(bk, id, s, now);
      OtherSlotView(bk, id, s, {id});
      if Blocked(bk, id, s, now) {
        if bk.mapInfo[id].nRefCount == 0 { DropAgain(bk, id); } else { PositiveCount(bk, id, {id}); Settled(bk, id); }
      } else {
        Insert(bk, id, b);
      }
    }
  }

  lemma CountedHolder(bk: Book, s: Slot, pending: set<int>)
    requires InvBut(bk, pending) && s in bk.vvNew
    ensures bk.vvNew[s] in bk.mapInfo && bk.mapInfo[bk.vvNew[s]].nRefCount > 0
  {
    SlotInBuckets(bk, s);
  }

  lemma PositiveCount(bk: Book, id: int, pending: set<int>)
    requires InvBut(bk, pending) && id in bk.mapInfo && bk.mapInfo[id].nRefCount != 0
    ensures bk.mapInfo[id].nRefCount > 0
  {
  }
}
