/**
 What an address manager knows, without its tables: for each network address a record of the
 figures kept about it and of where it stands. The manager's operations are given here once more as
 plain changes of that knowledge, and the steps on the tables are shown to carry them out.
 */
module AddrView {
  import opened AddrBook

  datatype Place = Tried | New(buckets: set<nat>)

  datatype Record = Record(stats: Stats, place: Place)

  type View = map<NetAddr, Record>

  function RecordOf(bk: Book, id: int): Record
    requires id in bk.mapInfo
  {
    Record(bk.mapInfo[id].stats, if bk.mapInfo[id].fInTried then Tried else New(Buckets(bk, id)))
  }

  function ViewOf(bk: Book): View {
    map a | a in bk.mapAddr && bk.mapAddr[a] in bk.mapInfo :: RecordOf(bk, bk.mapAddr[a])
  }

  /** No negative times, and tried addresses have been reached. */
  ghost predicate Timely(v: View) {
    forall a :: a in v ==>
      v[a].stats.nLastTry >= 0 && v[a].stats.nLastSuccess >= 0 && (v[a].place.Tried? ==> v[a].stats.nLastSuccess > 0)
  }

  lemma TimesView(bk: Book)
    requires AddrIndex(bk)
    ensures Times(bk) <==> Timely(ViewOf(bk))
  {
    forall id | id in bk.mapInfo
      ensures Ip(bk, id) in ViewOf(bk) && ViewOf(bk)[Ip(bk, id)] == RecordOf(bk, id)
    {
      ViewAt(bk, id);
    }
  }

  // ---------- what the steps do to the view ----------

  lemma ViewAt(bk: Book, id: int)
    requires AddrIndex(bk) && id in bk.mapInfo
    ensures Ip(bk, id) in ViewOf(bk) && ViewOf(bk)[Ip(bk, id)] == RecordOf(bk, id)
  {
  }

  lemma OneRecord(bk: Book, bk': Book, id: int)
    requires AddrIndex(bk) && bk'.mapAddr == bk.mapAddr && bk'.mapInfo.Keys == bk.mapInfo.Keys && id in bk.mapInfo
    requires forall j :: j in bk.mapInfo && j != id ==> RecordOf(bk', j) == RecordOf(bk, j)
    ensures ViewOf(bk') == ViewOf(bk)[Ip(bk, id) := RecordOf(bk', id)]
  {
    var v, v' := ViewOf(bk), ViewOf(bk')[Ip(bk, id) := RecordOf(bk', id)];
    forall a | a in bk.mapAddr
      ensures bk.mapAddr[a] in bk'.mapInfo && (a != Ip(bk, id) ==> ViewOf(bk')[a] == v[a])
    {
      assert bk.mapAddr[a] in bk.mapInfo && Ip(bk, bk.mapAddr[a]) == a;
    }
    assert bk.mapAddr[Ip(bk, id)] == id;
  }

  lemma SameRecords(bk: Book, bk': Book)
    requires AddrIndex(bk) && bk'.mapAddr == bk.mapAddr && bk'.mapInfo.Keys == bk.mapInfo.Keys
    requires forall j :: j in bk.mapInfo ==> RecordOf(bk', j) == RecordOf(bk, j)
    ensures ViewOf(bk') == ViewOf(bk)
  {
    forall a | a in bk.mapAddr
      ensures bk.mapAddr[a] in bk'.mapInfo && ViewOf(bk')[a] == ViewOf(bk)[a]
    {
      assert bk.mapAddr[a] in bk.mapInfo && Ip(bk, bk.mapAddr[a]) == a;
    }
  }

  lemma RecordFrame(bk: Book, bk': Book, id: int)
    requires id in bk.mapInfo && id in bk'.mapInfo && bk'.k == bk.k && bk'.vvNew == bk.vvNew
    requires bk'.mapInfo[id].stats == bk.mapInfo[id].stats && bk'.mapInfo[id].fInTried == bk.mapInfo[id].fInTried
    ensures RecordOf(bk', id) == RecordOf(bk, id)
  {
    BucketsFrame(bk, bk', id);
  }

  lemma SetStatsView(bk: Book, id: int, st: Stats)
    requires AddrIndex(bk) && id in bk.mapInfo && st.svc == Svc(bk, id)
    ensures ViewOf(SetStats(bk, id, st)) == ViewOf(bk)[Ip(bk, id) := RecordOf(bk, id).(stats := st)]
  {
    var bk' := SetStats(bk, id, st);
    BucketsFrame(bk, bk', id);
    forall j | j in bk.mapInfo && j != id
      ensures RecordOf(bk', j) == RecordOf(bk, j)
    {
      RecordFrame(bk, bk', j);
    }
    OneRecord(bk, bk', id);
  }

  lemma SwapView(bk: Book, i: nat, j: nat)
    requires AddrIndex(bk) && CanSwap(bk, i, j)
    ensures ViewOf(Swap(bk, i, j)) == ViewOf(bk)
  {
    var bk' := Swap(bk, i, j);
    forall id | id in bk.mapInfo
      ensures RecordOf(bk', id) == RecordOf(bk, id)
    {
      RecordFrame(bk, bk', id);
    }
    SameRecords(bk, bk');
  }

  lemma DropView(bk: Book, id: int)
    requires AddrIndex(bk) && id in bk.mapInfo && |bk.vRandom| > 0
    ensures ViewOf(Drop(bk, id)) == ViewOf(bk) - {Ip(bk, id)}
  {
    var bk' := Drop(bk, id);
    forall a | a in bk'.mapAddr
      ensures bk'.mapAddr[a] in bk'.mapInfo && ViewOf(bk')[a] == ViewOf(bk)[a]
    {
      assert bk.mapAddr[a] in bk.mapInfo && Ip(bk, bk.mapAddr[a]) == a;
      RecordFrame(bk, bk', bk.mapAddr[a]);
    }
  }

  lemma DeleteView(bk: Book, id: int)
    requires AddrIndex(bk) && CanDelete(bk, id)
    ensures ViewOf(Delete(bk, id)) == ViewOf(bk) - {Ip(bk, id)}
  {
    hide ViewOf;
    hide AddrIndex;
    var i, j := bk.mapInfo[id].nRandomPos, |bk.vRandom| - 1;
    SwapView(bk, i, j);
    SwapKeeps(bk, i, j);
    AddrIndexFrame(bk, Swap(bk, i, j));
    DropView(Swap(bk, i, j), id);
  }

  lemma CreateView(bk: Book, st: Stats)
    requires AddrIndex(bk) && IdsBelow(bk) && NewTable(bk) && st.svc.ip !in bk.mapAddr
    ensures ViewOf(Create(bk, st)) == ViewOf(bk)[st.svc.ip := Record(st, New({}))]
  {
    var bk' := Create(bk, st);
    forall a | a in bk.mapAddr
      ensures bk'.mapAddr[a] in bk'.mapInfo && ViewOf(bk')[a] == ViewOf(bk)[a]
    {
      assert bk.mapAddr[a] in bk.mapInfo && Ip(bk, bk.mapAddr[a]) == a;
      RecordFrame(bk, bk', bk.mapAddr[a]);
    }
    assert Buckets(bk', bk.nIdCount) == {};
  }

  lemma UnlinkView(bk: Book, s: Slot)
    requires AddrIndex(bk) && NewTable(bk) && s in bk.vvNew
    ensures ViewOf(Unlink(bk, s))
         == ViewOf(bk)[Ip(bk, bk.vvNew[s]) :=
                         Record(bk.mapInfo[bk.vvNew[s]].stats, New(Buckets(bk, bk.vvNew[s]) - {s.bucket}))]
  {
    UnlinkBuckets(bk, s);
    OneRecord(bk, Unlink(bk, s), bk.vvNew[s]);
  }

  lemma LinkView(bk: Book, id: int, b: nat)
    requires AddrIndex(bk) && NewTable(bk) && id in bk.mapInfo && !bk.mapInfo[id].fInTried
    requires b < NEW_BUCKET_COUNT && NewSlot(bk.k, Svc(bk, id), b) !in bk.vvNew
    ensures ViewOf(Link(bk, id, b))
         == ViewOf(bk)[Ip(bk, id) := Record(bk.mapInfo[id].stats, New(Buckets(bk, id) + {b}))]
  {
    LinkBuckets(bk, id, b);
    OneRecord(bk, Link(bk, id, b), id);
  }

  lemma SweepView(bk: Book, id: int)
    requires AddrIndex(bk) && NewTable(bk) && id in bk.mapInfo && !bk.mapInfo[id].fInTried
    ensures ViewOf(Sweep(bk, id)) == ViewOf(bk)[Ip(bk, id) := Record(bk.mapInfo[id].stats, New({}))]
  {
    SweepBuckets(bk, id);
    OneRecord(bk, Sweep(bk, id), id);
  }

  lemma PromoteView(bk: Book, id: int)
    requires AddrIndex(bk) && id in bk.mapInfo
    ensures ViewOf(Promote(bk, id)) == ViewOf(bk)[Ip(bk, id) := Record(bk.mapInfo[id].stats, Tried)]
  {
    var bk' := Promote(bk, id);
    forall j | j in bk.mapInfo && j != id
      ensures RecordOf(bk', j) == RecordOf(bk, j)
    {
      RecordFrame(bk, bk', j);
    }
    OneRecord(bk, bk', id);
  }

  lemma DemoteView(bk: Book, id: int)
    requires AddrIndex(bk) && NewTable(bk) && id in bk.mapInfo && bk.mapInfo[id].fInTried
    ensures ViewOf(Demote(bk, id)) == ViewOf(bk)[Ip(bk, id) := Record(bk.mapInfo[id].stats, New({}))]
  {
    var bk' := Demote(bk, id);
    assert Buckets(bk', id) == {};
    forall j | j in bk.mapInfo && j != id
      ensures RecordOf(bk', j) == RecordOf(bk, j)
    {
      RecordFrame(bk, bk', j);
    }
    OneRecord(bk, bk', id);
  }

  // ---------- emptying a slot ----------

  /** Record r stands in slot s of the new table. */
  predicate Stands(k: Placing, r: Record, s: Slot) {
    r.place.New? && s.bucket in r.place.buckets && NewSlot(k, r.stats.svc, s.bucket) == s
  }

  /** Whoever stands in s loses that bucket, and is forgotten when it was the last one. */
  function ClearSlot(k: Placing, v: View, s: Slot): View {
    map a | a in v && !(Stands(k, v[a], s) && v[a].place.buckets == {s.bucket}) ::
      if Stands(k, v[a], s) then v[a].(place := New(v[a].place.buckets - {s.bucket})) else v[a]
  }

  lemma ClearSlotOther(k: Placing, v: View, s: Slot, a: NetAddr, r: Record, r': Record)
    requires a in v
    ensures ClearSlot(k, v[a := r], s)[a := r'] == ClearSlot(k, v, s)[a := r']
  {
  }

  /** The entry in a slot is the one whose record stands there. */
  lemma SlotHolder(bk: Book, s: Slot, a: NetAddr)
    requires AddrIndex(bk) && NewTable(bk) && a in bk.mapAddr
    ensures Stands(bk.k, ViewOf(bk)[a], s) <==> s in bk.vvNew && bk.vvNew[s] == bk.mapAddr[a]
  {
    var id := bk.mapAddr[a];
    assert id in bk.mapInfo && Ip(bk, id) == a;
    ViewAt(bk, id);
    if s in bk.vvNew && bk.vvNew[s] == id {
      SlotInBuckets(bk, s);
    }
  }

  lemma LastBucket(bs: set<nat>, b: nat)
    requires b in bs
    ensures |bs| == 1 <==> bs == {b}
  {
    if |bs| == 1 { assert |bs - {b}| == 0; }
  }

  lemma ClearOne(k: Placing, v: View, s: Slot, a: NetAddr, r: Record)
    requires a in v && Stands(k, v[a], s) && forall o :: o in v && o != a ==> !Stands(k, v[o], s)
    ensures v[a].place.buckets == {s.bucket} ==> ClearSlot(k, v, s) == v[a := r] - {a}
    ensures v[a].place.buckets != {s.bucket} ==>
              ClearSlot(k, v, s) == v[a := Record(v[a].stats, New(v[a].place.buckets - {s.bucket}))]
  {
  }

  /** At most one record stands in a slot: that of the entry in it. */
  lemma SlotHolders(bk: Book, s: Slot)
    requires AddrIndex(bk) && NewTable(bk)
    ensures forall a :: a in ViewOf(bk) ==>
              a in bk.mapAddr && (Stands(bk.k, ViewOf(bk)[a], s) <==> s in bk.vvNew && bk.vvNew[s] == bk.mapAddr[a])
  {
    forall a | a in ViewOf(bk)
      ensures Stands(bk.k, ViewOf(bk)[a], s) <==> s in bk.vvNew && bk.vvNew[s] == bk.mapAddr[a]
    {
      SlotHolder(bk, s, a);
    }
  }

  lemma OneHolder(bk: Book, s: Slot)
    requires AddrIndex(bk) && NewTable(bk) && s in bk.vvNew
    ensures bk.vvNew[s] in bk.mapInfo && Ip(bk, bk.vvNew[s]) in ViewOf(bk)
    ensures ViewOf(bk)[Ip(bk, bk.vvNew[s])] == RecordOf(bk, bk.vvNew[s])
    ensures Stands(bk.k, ViewOf(bk)[Ip(bk, bk.vvNew[s])], s)
    ensures forall a :: a in ViewOf(bk) && a != Ip(bk, bk.vvNew[s]) ==> !Stands(bk.k, ViewOf(bk)[a], s)
  {
    ViewAt(bk, bk.vvNew[s]);
    SlotHolders(bk, s);
  }

  lemma ClearNewView(bk: Book, s: Slot, pending: set<int>)
    requires InvBut(bk, pending) && CanClear(bk, s)
    ensures ViewOf(ClearNew(bk, s)) == ClearSlot(bk.k, ViewOf(bk), s)
  {
    hide InvBut;
    InvParts(bk, pending);
    SlotHolders(bk, s);
    if s in bk.vvNew {
      ClearHolderView(bk, s, pending);
    } else {
      assert ClearSlot(bk.k, ViewOf(bk), s) == ViewOf(bk);
    }
  }

  lemma ExactCount(bk: Book, id: int, pending: set<int>)
    requires InvBut(bk, pending) && id in bk.mapInfo
    ensures bk.mapInfo[id].nRefCount == |Buckets(bk, id)|
  {
  }

  lemma ClearHolderView(bk: Book, s: Slot, pending: set<int>)
    requires InvBut(bk, pending) && CanClear(bk, s) && s in bk.vvNew
    ensures ViewOf(ClearNew(bk, s)) == ClearSlot(bk.k, ViewOf(bk), s)
  {
    hide InvBut;
    hide ViewOf;
    hide ClearSlot;
    InvParts(bk, pending);
    var id, un := bk.vvNew[s], Unlink(bk, s);
    OneHolder(bk, s);
    UnlinkView(bk, s);
    ExactCount(bk, id, pending);
    LastBucket(Buckets(bk, id), s.bucket);
    ClearOne(bk.k, ViewOf(bk), s, Ip(bk, id), Record(bk.mapInfo[id].stats, New(Buckets(bk, id) - {s.bucket})));
    if bk.mapInfo[id].nRefCount == 1 {
      UnlinkKeeps(bk, s);
      AddrIndexFrame(bk, un);
      DeleteView(un, id);
    }
  }

  // ---------- freeing a tried slot ----------

  predicate TriedAt(k: Placing, r: Record, s: Slot) {
    r.place.Tried? && TriedSlot(k, r.stats.svc) == s
  }

  function Home(k: Placing, r: Record): nat {
    NewBucket(k, r.stats.svc, r.stats.source)
  }

  /** The address in tried slot s goes back to the new bucket of its source, taking over its place there. */
  ghost function EvictSlot(k: Placing, v: View, s: Slot): View {
    if exists e :: e in v && TriedAt(k, v[e], s) then
      var e :| e in v && TriedAt(k, v[e], s);
      ClearSlot(k, v, NewSlot(k, v[e].stats.svc, Home(k, v[e])))[e := v[e].(place := New({Home(k, v[e])}))]
    else v
  }

  lemma TriedHolder(bk: Book, s: Slot, a: NetAddr)
    requires AddrIndex(bk) && TriedTable(bk) && a in bk.mapAddr
    ensures TriedAt(bk.k, ViewOf(bk)[a], s) <==> s in bk.vvTried && bk.vvTried[s] == bk.mapAddr[a]
  {
    var id := bk.mapAddr[a];
    assert id in bk.mapInfo && Ip(bk, id) == a;
    ViewAt(bk, id);
  }

  lemma NoBuckets(bk: Book, id: int, pending: set<int>)
    requires InvBut(bk, pending) && Unreferenced(bk, id)
    ensures Buckets(bk, id) == {}
  {
  }

  lemma InvParts(bk: Book, pending: set<int>)
    requires InvBut(bk, pending)
    ensures AddrIndex(bk) && NewTable(bk) && TriedTable(bk) && IdsBelow(bk)
  {
  }

  lemma EvictHolder(bk: Book, s: Slot)
    requires AddrIndex(bk) && TriedTable(bk) && s in bk.vvTried
    ensures bk.vvTried[s] in bk.mapInfo
    ensures var e, v := Ip(bk, bk.vvTried[s]), ViewOf(bk);
            && e in v && TriedAt(bk.k, v[e], s) && v[e] == RecordOf(bk, bk.vvTried[s])
            && forall a :: a in v && TriedAt(bk.k, v[a], s) ==> a == e
  {
    var v := ViewOf(bk);
    ViewAt(bk, bk.vvTried[s]);
    forall a | a in v
      ensures TriedAt(bk.k, v[a], s) <==> bk.vvTried[s] == bk.mapAddr[a]
    {
      TriedHolder(bk, s, a);
    }
  }

  lemma EvictNobody(bk: Book, s: Slot)
    requires AddrIndex(bk) && TriedTable(bk) && s !in bk.vvTried
    ensures EvictSlot(bk.k, ViewOf(bk), s) == ViewOf(bk)
  {
    var v := ViewOf(bk);
    forall a | a in v
      ensures !TriedAt(bk.k, v[a], s)
    {
      TriedHolder(bk, s, a);
    }
  }

  lemma EvictView(bk: Book, s: Slot, id: int)
    requires InvBut(bk, {id}) && Unreferenced(bk, id)
    requires CanEvict(bk, s)
    ensures ViewOf(Evict(bk, s)) == EvictSlot(bk.k, ViewOf(bk), s)
  {
    hide InvBut;
    InvParts(bk, {id});
    if s in bk.vvTried {
      EvictHolder(bk, s);
      var e, v := bk.vvTried[s], ViewOf(bk);
      TriedEntry(bk, s, {id});
      EvictSteps(bk, e, {id});
      ClearSlotOther(bk.k, v, NewSlot(bk.k, Svc(bk, e), HomeBucket(bk, e)), Ip(bk, e),
          Record(bk.mapInfo[e].stats, New({})),
                     Record(bk.mapInfo[e].stats, New({HomeBucket(bk, e)})));
    } else {
      EvictNobody(bk, s);
    }
  }

  lemma EvictSteps(bk: Book, e: int, pending: set<int>)
    requires InvBut(bk, pending) && e in bk.mapInfo && bk.mapInfo[e].fInTried
    requires CanClear(Demote(bk, e), NewSlot(bk.k, Svc(bk, e), HomeBucket(bk, e)))
    ensures var ns, st := NewSlot(bk.k, Svc(bk, e), HomeBucket(bk, e)), bk.mapInfo[e].stats;
            && e in ClearNew(Demote(bk, e), ns).mapInfo
            && ViewOf(Link(ClearNew(Demote(bk, e), ns), e, HomeBucket(bk, e)))
               == ClearSlot(bk.k, ViewOf(bk)[Ip(bk, e) := Record(st, New({}))], ns)
                    [Ip(bk, e) := Record(st, New({HomeBucket(bk, e)}))]
  {
    hide InvBut;
    var b, de := HomeBucket(bk, e), Demote(bk, e);
    var ns := NewSlot(bk.k, Svc(bk, e), b);
    InvParts(bk, pending);
    DemoteView(bk, e);
    DemoteInv(bk, e, pending);
    UnreferencedSlot(de, e, pending + {e}, ns);
    ClearNewView(de, ns, pending + {e});
    ClearNewInv(de, ns, pending + {e});
    ClearNewKeeps(de, ns, e);
    var cl := ClearNew(de, ns);
    InvParts(cl, pending + {e});
    NoBuckets(cl, e, pending + {e});
    LinkView(cl, e, b);
    assert {} + {b} == {b};
  }

  // ---------- moving an address to the tried table ----------

  /** Address a leaves all new buckets and takes its tried slot; whoever was there is evicted. */
  ghost function ToTried(k: Placing, v: View, a: NetAddr): View
    requires a in v
  {
    EvictSlot(k, v[a := v[a].(place := New({}))], TriedSlot(k, v[a].stats.svc))[a := v[a].(place := Tried)]
  }

  lemma MakeTriedView(bk: Book, id: int)
    requires Inv(bk) && id in bk.mapInfo && !bk.mapInfo[id].fInTried
    requires CanMakeTried(bk, id)
    ensures Ip(bk, id) in ViewOf(bk) && ViewOf(MakeTried(bk, id)) == ToTried(bk.k, ViewOf(bk), Ip(bk, id))
  {
    hide InvBut;
    var s, sw := TriedSlot(bk.k, Svc(bk, id)), Sweep(bk, id);
    InvParts(bk, {});
    ViewAt(bk, id);
    SweepView(bk, id);
    SweepInv(bk, id, {});
    assert {} + {id} == {id};
    EvictInv(sw, s, id);
    EvictView(sw, s, id);
    var ev := Evict(sw, s);
    InvParts(ev, {id});
    PromoteView(ev, id);
  }
}
