/** Taking an entry out of its buckets one bucket after the other. */
module AddrSweep {
  import opened AddrBook

  /** Buckets below n are done. */
  function SweepTo(bk: Book, id: int, n: nat): Book
    requires id in bk.mapInfo
  {
    bk.(mapInfo := bk.mapInfo[id := bk.mapInfo[id].(nRefCount := |BucketsFrom(bk, id, n)|)],
        vvNew := SlotsAfter(bk.vvNew, id, n))
  }

  function SlotsAfter(t: map<Slot, int>, id: int, n: nat): map<Slot, int> {
    map s | s in t && !(t[s] == id && s.bucket < n) :: t[s]
  }

  function BucketsFrom(bk: Book, id: int, n: nat): set<nat>
    requires id in bk.mapInfo
  {
    set b | b in Buckets(bk, id) && n <= b
  }

  lemma SweepStart(bk: Book, id: int, pending: set<int>)
    requires InvBut(bk, pending) && id in bk.mapInfo
    ensures SweepTo(bk, id, 0) == bk
  {
    assert BucketsFrom(bk, id, 0) == Buckets(bk, id);
    assert SlotsAfter(bk.vvNew, id, 0) == bk.vvNew;
    assert bk.mapInfo[id := bk.mapInfo[id]] == bk.mapInfo;
  }

  lemma SweepTable(bk: Book, id: int, n: nat)
    requires NewTable(bk) && id in bk.mapInfo && n < NEW_BUCKET_COUNT
    ensures var s, sw := NewSlot(bk.k, Svc(bk, id), n), SweepTo(bk, id, n);
            SweepTo(bk, id, n + 1).vvNew == if s in sw.vvNew && sw.vvNew[s] == id then sw.vvNew - {s} else sw.vvNew
  {
  }

  lemma SweepCount(bk: Book, id: int, n: nat)
    requires NewTable(bk) && id in bk.mapInfo && n < NEW_BUCKET_COUNT
    ensures var s, sw := NewSlot(bk.k, Svc(bk, id), n), SweepTo(bk, id, n).vvNew;
            |BucketsFrom(bk, id, n + 1)| == |BucketsFrom(bk, id, n)| - if s in sw && sw[s] == id then 1 else 0
  {
    var s := NewSlot(bk.k, Svc(bk, id), n);
    if s in bk.vvNew && bk.vvNew[s] == id {
      assert BucketsFrom(bk, id, n + 1) == BucketsFrom(bk, id, n) - {n};
    } else {
      assert BucketsFrom(bk, id, n + 1) == BucketsFrom(bk, id, n);
    }
  }

  lemma SweepStep(bk: Book, id: int, n: nat)
    requires NewTable(bk) && id in bk.mapInfo && n < NEW_BUCKET_COUNT
    ensures var s, sw := NewSlot(bk.k, Svc(bk, id), n), SweepTo(bk, id, n);
            SweepTo(bk, id, n + 1) == if s in sw.vvNew && sw.vvNew[s] == id then Unlink(sw, s) else sw
  {
    hide NewTable;
    hide BucketsFrom;
    SweepTable(bk, id, n);
    SweepCount(bk, id, n);
    assert SweepTo(bk, id, n + 1).mapInfo == SweepTo(bk, id, n).mapInfo[id := SweepTo(bk, id, n + 1).mapInfo[id]];
  }

  lemma SweepEnd(bk: Book, id: int, pending: set<int>)
    requires InvBut(bk, pending) && id in bk.mapInfo
    ensures SweepTo(bk, id, NEW_BUCKET_COUNT) == Sweep(bk, id)
  {
    assert BucketsFrom(bk, id, NEW_BUCKET_COUNT) == {};
    assert SweepTo(bk, id, NEW_BUCKET_COUNT).vvNew == Sweep(bk, id).vvNew;
  }
}
