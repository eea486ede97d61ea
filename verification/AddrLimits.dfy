/** The tables have room for a limited number of entries, so a saved manager never exceeds the limits of the reader. */
module AddrLimits {
  import opened AddrBook
  import opened AddrView

  function Row(b: nat, size: nat): (r: set<Slot>)
    ensures |r| == size && forall s :: s in r <==> s.bucket == b && s.pos < size
  {
    if size == 0 then {} else Row(b, size - 1) + {Slot(b, size - 1)}
  }

  function Grid(n: nat, size: nat): (g: set<Slot>)
    ensures |g| == n * size && forall s :: s in g <==> s.bucket < n && s.pos < size
  {
    if n == 0 then {}
    else
      var g, r := Grid(n - 1, size), Row(n - 1, size);
      assert g !! r;
      g + r
  }

  /** No more entries than slots. */
  lemma {:induction false} EntriesFit<T>(ids: set<T>, slots: set<Slot>, t: map<Slot, T>)
    requires forall id :: id in ids ==> exists s :: s in slots && s in t && t[s] == id
    ensures |ids| <= |slots|
  {
    if ids != {} {
      var id :| id in ids;
      var s :| s in slots && s in t && t[s] == id;
      forall o | o in ids - {id}
        ensures exists s' :: s' in slots - {s} && s' in t && t[s'] == o
      {
        var s' :| s' in slots && s' in t && t[s'] == o;
        assert s' in slots - {s};
      }
      EntriesFit(ids - {id}, slots - {s}, t);
    }
  }

  lemma NewFit(bk: Book)
    requires Inv(bk)
    ensures |NewIds(bk.mapInfo)| <= NEW_BUCKET_COUNT * BUCKET_SIZE
  {
    hide InvBut;
    hide Grid;
    var grid := Grid(NEW_BUCKET_COUNT, BUCKET_SIZE);
    forall id | id in NewIds(bk.mapInfo)
      ensures exists s :: s in grid && s in bk.vvNew && bk.vvNew[s] == id
    {
      SomeBucket(bk, id);
      var b :| b in Buckets(bk, id);
      var s := NewSlot(bk.k, Svc(bk, id), b);
      assert s in grid && s in bk.vvNew && bk.vvNew[s] == id;
    }
    EntriesFit(NewIds(bk.mapInfo), grid, bk.vvNew);
  }

  lemma TriedFit(bk: Book)
    requires TriedTable(bk)
    ensures |TriedIds(bk.mapInfo)| <= TRIED_BUCKET_COUNT * BUCKET_SIZE
  {
    hide Grid;
    var grid := Grid(TRIED_BUCKET_COUNT, BUCKET_SIZE);
    forall id | id in TriedIds(bk.mapInfo)
      ensures exists s :: s in grid && s in bk.vvTried && bk.vvTried[s] == id
    {
      var s := TriedSlot(bk.k, Svc(bk, id));
      assert s in grid && s in bk.vvTried && bk.vvTried[s] == id;
    }
    EntriesFit(TriedIds(bk.mapInfo), grid, bk.vvTried);
  }

  lemma WithinLimits(bk: Book)
    requires Inv(bk)
    ensures bk.nNew <= 65536 && bk.nTried <= 16384
  {
    hide InvBut;
    InvParts(bk, {});
    CountersHold(bk);
    NewFit(bk);
    TriedFit(bk);
  }

  lemma CountersHold(bk: Book)
    requires Inv(bk)
    ensures Counters(bk)
  {
  }
}
