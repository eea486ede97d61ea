/**
 The stochastic address manager: its maps, random order and bucket tables, updated in place. Every
 operation is tied to the steps of AddrBook, and through them to the operations on the view.
 Random numbers, the adjusted time and the routability of an address are parameters.
 */
module AddrMan {
  import opened Options
  import opened Numbers
  import opened AddrBook
  import opened AddrView
  import opened AddrOps
  import opened AddrPut
  import opened AddrSweep

  const GETADDR_MAX_PCT := 23
  const GETADDR_MAX := 2500

  datatype Op =
    | AddOp(addr: Address, routable: bool, source: NetAddr, penalty: int, now: int, draw: nat)
    | GoodOp(svc: Service, nTime: int, nRnd: nat)
    | AttemptOp(svc: Service, fCountFailure: bool, nTime: int)
    | ConnectedOp(svc: Service, nTime: int)
    | GetAddrOp(now: int, draws: nat -> nat)

  /** Random buckets are buckets. */
  predicate Proper(op: Op) {
    op.GoodOp? ==> op.nRnd < NEW_BUCKET_COUNT
  }

  /** All that the operations depend on, besides the key. */
  datatype Memory = Memory(v: View, nLastGood: int)

  ghost function Effect(k: Placing, m: Memory, op: Op): Memory {
    match op
    case AddOp(addr, routable, source, penalty, now, draw) =>
      m.(v := Add(k, m.v, addr, routable, source, penalty, now, draw))
    case GoodOp(svc, nTime, _) => Memory(Good(k, m.v, svc, nTime), nTime)
    case AttemptOp(svc, fCountFailure, nTime) => m.(v := Attempt(m.v, svc, fCountFailure, nTime, m.nLastGood))
    case ConnectedOp(svc, nTime) => m.(v := Connected(m.v, svc, nTime))
    case GetAddrOp(_, _) => m
  }

  ghost function After(k: Placing, m: Memory, ops: seq<Op>): Memory {
    if ops == [] then m else Effect(k, After(k, m, ops[..|ops| - 1]), ops[|ops| - 1])
  }

  /** The clock of an operation is right: positive when it records a success, not negative for an attempt. */
  predicate InTime(op: Op) {
    match op
    case GoodOp(_, nTime, _) => nTime > 0
    case AttemptOp(_, _, nTime) => nTime >= 0
    case _ => true
  }

  /** The operation records something about a known service. */
  predicate Concerns(v: View, op: Op) {
    (op.GoodOp? && Known(v, op.svc)) || (op.AttemptOp? && Known(v, op.svc))
  }

  /** Proper times stay proper exactly when the operation is in time or does not concern a known service. */
  lemma EffectTimely(k: Placing, m: Memory, op: Op)
    requires Tidy(k, m.v) && Timely(m.v)
    ensures Timely(Effect(k, m, op).v) <==> InTime(op) || !Concerns(m.v, op)
  {
    match op
    case AddOp(addr, routable, source, penalty, now, draw) =>
      AddTimely(k, m.v, addr, routable, source, penalty, now, draw);
    case GoodOp(svc, nTime, _) => GoodTimely(k, m.v, svc, nTime);
    case AttemptOp(svc, fCountFailure, nTime) => AttemptTimely(m.v, svc, fCountFailure, nTime, m.nLastGood);
    case ConnectedOp(svc, nTime) => ConnectedTimely(m.v, svc, nTime);
    case GetAddrOp(_, _) =>
  }

  class AddrMan {
    const h: Hashes
    var nKey: Key
    var nIdCount: int
    var mapInfo: map<int, AddrInfo>
    var mapAddr: map<NetAddr, int>
    var vRandom: seq<int>
    var nTried: int
    var vvTried: map<Slot, int>
    var nNew: int
    var vvNew: map<Slot, int>
    var nLastGood: int

    ghost function Bk(): Book
      reads this
    {
      Book(Placing(h, nKey), nIdCount, mapInfo, mapAddr, vRandom, nTried, vvTried, nNew, vvNew)
    }

    ghost predicate Valid()
      reads this
    {
      nIdCount >= 0 && Inv(Bk())
    }

    ghost function Knows(): View
      reads this
    {
      ViewOf(Bk())
    }

    constructor (h: Hashes, nKey: Key)
      ensures Valid() && Knows() == map[] && Bk() == Book(Placing(h, nKey), 0, map[], map[], [], 0, map[], 0, map[])
    {
      this.h, this.nKey := h, nKey;
      nIdCount, mapInfo, mapAddr, vRandom, nLastGood := 0, map[], map[], [], 1;
      nTried, vvTried, nNew, vvNew := 0, map[], 0, map[];
    }

    method Find(addr: NetAddr) returns (r: Option<int>)
      requires Valid()
      ensures r.None? <==> addr !in Knows()
      ensures r.Some? ==> r.value in mapInfo && Ip(Bk(), r.value) == addr
      ensures r.Some? ==> addr in Knows() && Knows()[addr] == RecordOf(Bk(), r.value)
    {
      if addr !in mapAddr { return None; }
      if mapAddr[addr] !in mapInfo { return None; }
      r := Some(mapAddr[addr]);
    }

    method Create(addr: Address, source: NetAddr) returns (nId: int)
      modifies this
      ensures nId == old(nIdCount) && nLastGood == old(nLastGood)
      ensures var st := Stats(addr.svc, addr.nServices, addr.nTime, source, 0, 0, 0, 0);
              Bk() == AddrBook.Create(old(Bk()), st).(nNew := old(nNew))
    {
      nId := nIdCount;
      nIdCount := nIdCount + 1;
      var info := AddrInfo(Stats(addr.svc, addr.nServices, addr.nTime, source, 0, 0, 0, 0), 0, false, -1);
      mapInfo := mapInfo[nId := info];
      mapAddr := mapAddr[addr.svc.ip := nId];
      mapInfo := mapInfo[nId := info.(nRandomPos := |vRandom|)];
      vRandom := vRandom + [nId];
    }

    method SwapRandom(nRndPos1: nat, nRndPos2: nat)
      requires CanSwap(Bk(), nRndPos1, nRndPos2)
      modifies this
      ensures Bk() == Swap(old(Bk()), nRndPos1, nRndPos2) && nLastGood == old(nLastGood)
    {
      if nRndPos1 == nRndPos2 { return; }
      var nId1, nId2 := vRandom[nRndPos1], vRandom[nRndPos2];
      mapInfo := mapInfo[nId1 := mapInfo[nId1].(nRandomPos := nRndPos2)];
      mapInfo := mapInfo[nId2 := mapInfo[nId2].(nRandomPos := nRndPos1)];
      vRandom := vRandom[nRndPos1 := nId2];
      vRandom := vRandom[nRndPos2 := nId1];
    }

    method Delete(nId: int)
      requires nId in mapInfo ==> CanDelete(Bk(), nId) && !mapInfo[nId].fInTried && mapInfo[nId].nRefCount == 0
      modifies this
      ensures nLastGood == old(nLastGood)
      ensures Bk() == if nId in old(mapInfo) then AddrBook.Delete(old(Bk()), nId) else old(Bk())
    {
      if nId !in mapInfo { return; }
      SwapRandom(mapInfo[nId].nRandomPos, |vRandom| - 1);
      vRandom := vRandom[..|vRandom| - 1];
      mapAddr := mapAddr - {mapInfo[nId].stats.svc.ip};
      mapInfo := mapInfo - {nId};
      nNew := nNew - 1;
    }

    method ClearNew(s: Slot)
      requires CanClear(Bk(), s)
      requires s in vvNew ==> mapInfo[vvNew[s]].nRefCount > 0 && !mapInfo[vvNew[s]].fInTried
      modifies this
      ensures nIdCount == old(nIdCount) && nLastGood == old(nLastGood)
      ensures Bk() == AddrBook.ClearNew(old(Bk()), s)
    {
      if s in vvNew {
        var nIdDelete := vvNew[s];
        var info := mapInfo[nIdDelete];
        mapInfo := mapInfo[nIdDelete := info.(nRefCount := info.nRefCount - 1)];
        vvNew := vvNew - {s};
        if mapInfo[nIdDelete].nRefCount == 0 {
          Delete(nIdDelete);
        }
      }
    }

    /** Take an entry out of every new bucket it is in. */
    method SweepOut(nId: int)
      requires nIdCount >= 0 && Inv(Bk()) && nId in mapInfo
      modifies this`mapInfo, this`vvNew
      ensures Bk() == Sweep(old(Bk()), nId)
    {
      hide InvBut;
      hide NewTable;
      hide AddrIndex;
      hide TriedTable;
      hide Sweep;
      ghost var bk := Bk();
      InvParts(bk, {});
      SweepStart(bk, nId, {});
      var svc := mapInfo[nId].stats.svc;
      for bucket := 0 to NEW_BUCKET_COUNT
        invariant nId in mapInfo && mapInfo[nId].stats.svc == svc
        invariant Bk() == SweepTo(bk, nId, bucket)
      {
        var s := NewSlot(Placing(h, nKey), svc, bucket);
        SweepStep(bk, nId, bucket);
        ghost var now := Bk();
        if s in vvNew && vvNew[s] == nId {
          vvNew := vvNew - {s};
          mapInfo := mapInfo[nId := mapInfo[nId].(nRefCount := mapInfo[nId].nRefCount - 1)];
          assert Bk() == Unlink(now, s);
        }
      }
      SweepEnd(bk, nId, {});
    }

    /** Empty a tried slot, sending its entry back to the new table. One new entry is not counted just now. */
    method EvictTried(s: Slot, ghost id: int)
      requires InvBut(Plus(Bk(), 1), {id}) && Unreferenced(Bk(), id)
      modifies this
      ensures nIdCount == old(nIdCount) && nLastGood == old(nLastGood)
      ensures CanEvict(old(Plus(Bk(), 1)), s) && Plus(Bk(), 1) == Evict(old(Plus(Bk(), 1)), s)
    {
      hide InvBut;
      hide AddrBook.ClearNew;
      hide CanClear;
      ghost var bk := Plus(Bk(), 1);
      EvictInv(bk, s, id);
      if s in vvTried {
        var nIdEvict := vvTried[s];
        TriedEntry(bk, s, {id});
        ClearForEvict(bk, nIdEvict, {id});
        mapInfo := mapInfo[nIdEvict := mapInfo[nIdEvict].(fInTried := false)];
        vvTried := vvTried - {s};
        nTried := nTried - 1;
        var info := mapInfo[nIdEvict];
        var k := Placing(h, nKey);
        var nUBucket := NewBucket(k, info.stats.svc, info.stats.source);
        var u := NewSlot(k, info.stats.svc, nUBucket);
        ghost var de := Demote(bk, nIdEvict);
        assert Bk() == Plus(de, -2);
        ClearNewShift(de, u, -2);
        this.ClearNew(u);
        Rehome(nIdEvict, u, nUBucket, AddrBook.ClearNew(de, u));
      }
    }

    /** Put an entry without references into a bucket of the new table. */
    method Rehome(id: int, u: Slot, ghost b: nat, ghost now: Book)
      requires Bk() == Plus(now, -2) && id in now.mapInfo && now.mapInfo[id].nRefCount == 0
      requires u == NewSlot(now.k, Svc(now, id), b)
      modifies `mapInfo, `vvNew, `nNew
      ensures Plus(Bk(), 1) == Link(now, id, b)
    {
      mapInfo := mapInfo[id := mapInfo[id].(nRefCount := 1)];
      vvNew := vvNew[u := id];
      nNew := nNew + 1;
    }

    method MakeTried(nId: int)
      requires Valid() && nId in mapInfo && !mapInfo[nId].fInTried
      modifies this
      ensures Valid() && nLastGood == old(nLastGood) && nKey == old(nKey)
      ensures old(Ip(Bk(), nId)) in old(Knows())
      ensures Knows() == ToTried(Placing(h, nKey), old(Knows()), old(Ip(Bk(), nId)))
    {
      hide InvBut;
      ghost var bk := Bk();
      MakeTriedInv(bk, nId);
      MakeTriedView(bk, nId);
      SweepUnreferenced(bk, nId);
      SweepOut(nId);
      nNew := nNew - 1;
      var k := Placing(h, nKey);
      var s := TriedSlot(k, mapInfo[nId].stats.svc);
      assert Plus(Bk(), 1) == Sweep(bk, nId);
      EvictTried(s, nId);
      ghost var ev := Plus(Bk(), 1);
      EvictInv(Sweep(bk, nId), s, nId);
      vvTried := vvTried[s := nId];
      nTried := nTried + 1;
      mapInfo := mapInfo[nId := mapInfo[nId].(fInTried := true)];
      assert Bk() == Promote(ev, nId);
    }

    /** Look for a new bucket that holds an entry, starting at a random one. */
    method FindBucket(nId: int, nRnd: nat) returns (nUBucket: int)
      requires nId in mapInfo && nRnd < NEW_BUCKET_COUNT
      ensures nUBucket == -1 <==> Buckets(Bk(), nId) == {}
      ensures nUBucket != -1 ==> nUBucket >= 0 && nUBucket in Buckets(Bk(), nId)
    {
      var svc := mapInfo[nId].stats.svc;
      for n := 0 to NEW_BUCKET_COUNT
        invariant forall m: nat :: m < n ==> Turn(m, nRnd) !in Buckets(Bk(), nId)
      {
        var nB := Turn(n, nRnd);
        var s := NewSlot(Placing(h, nKey), svc, nB);
        assert nB in Buckets(Bk(), nId) <==> s in vvNew && vvNew[s] == nId;
        if s in vvNew && vvNew[s] == nId {
          return nB;
        }
      }
      nUBucket := -1;
      forall b: nat | b < NEW_BUCKET_COUNT
        ensures b !in Buckets(Bk(), nId)
      {
        AllResidues(b, nRnd);
      }
    }

    /** Mark an address as accessible. */
    method Good_(addr: Service, nTime: int, nRnd: nat)
      requires Valid() && nRnd < NEW_BUCKET_COUNT
      modifies this
      ensures Valid() && nLastGood == nTime && nKey == old(nKey)
      ensures Knows() == Good(Placing(h, nKey), old(Knows()), addr, nTime)
    {
      hide InvBut;
      hide ViewOf;
      hide ToTried;
      nLastGood := nTime;
      var found := Find(addr.ip);
      if found.None? { return; }
      var nId := found.value;
      if mapInfo[nId].stats.svc != addr { return; }
      ghost var bk := Bk();
      SetStatsValid(bk, nId, GoodStats(mapInfo[nId].stats, nTime));
      var info := mapInfo[nId];
      mapInfo := mapInfo[nId := info.(stats := GoodStats(info.stats, nTime))];
      assert Bk() == SetStats(bk, nId, GoodStats(info.stats, nTime));
      if info.fInTried { return; }
      var nUBucket := FindBucket(nId, nRnd);
      SomeBucket(Bk(), nId);
      if nUBucket == -1 {
        return;
      }
      MakeTried(nId);
    }

    method Attempt_(addr: Service, fCountFailure: bool, nTime: int)
      requires Valid()
      modifies this
      ensures Valid() && nLastGood == old(nLastGood) && nKey == old(nKey)
      ensures Knows() == Attempt(old(Knows()), addr, fCountFailure, nTime, nLastGood)
    {
      hide InvBut;
      hide ViewOf;
      var found := Find(addr.ip);
      if found.None? { return; }
      var nId := found.value;
      if mapInfo[nId].stats.svc != addr { return; }
      SetStatsValid(Bk(), nId, AttemptStats(mapInfo[nId].stats, fCountFailure, nTime, nLastGood));
      var info := mapInfo[nId];
      var st := info.stats.(nLastTry := nTime);
      if fCountFailure && st.nLastCountAttempt < nLastGood {
        st := st.(nLastCountAttempt := nTime, nAttempts := st.nAttempts + 1);
      }
      mapInfo := mapInfo[nId := info.(stats := st)];
      assert Bk() == SetStats(old(Bk()), nId, st);
    }

    method Connected_(addr: Service, nTime: int)
      requires Valid()
      modifies this
      ensures Valid() && nLastGood == old(nLastGood) && nKey == old(nKey)
      ensures Knows() == Connected(old(Knows()), addr, nTime)
    {
      hide InvBut;
      hide ViewOf;
      var found := Find(addr.ip);
      if found.None? { return; }
      var nId := found.value;
      if mapInfo[nId].stats.svc != addr { return; }
      SetStatsValid(Bk(), nId, ConnectedStats(mapInfo[nId].stats, nTime));
      SetSameStats(Bk(), nId);
      if nTime - mapInfo[nId].stats.nTime > 20 * MINUTE {
        var info := mapInfo[nId];
        mapInfo := mapInfo[nId := info.(stats := info.stats.(nTime := nTime))];
        assert Bk() == SetStats(old(Bk()), nId, info.stats.(nTime := nTime));
      }
    }

    /** Give an entry one more bucket, chosen by the source of an announcement. */
    method Put(nId: int, source: NetAddr, now: int)
      requires nIdCount >= 0 && InvBut(Bk(), {nId}) && nId in mapInfo && !mapInfo[nId].fInTried
      requires mapInfo[nId].nRefCount < NEW_BUCKETS_PER_ADDRESS
      modifies this
      ensures Valid() && nLastGood == old(nLastGood) && nKey == old(nKey)
      ensures var a := old(Ip(Bk(), nId));
              && a in old(Knows()) && old(Knows())[a].place.New?
              && Knows() == PutNew(Placing(h, nKey), old(Knows()), a, source, now)
    {
      hide InvBut;
      hide ViewOf;
      hide PutNew;
      ghost var bk := Bk();
      PutCases(bk, nId, source, now);
      var k := Placing(h, nKey);
      var svc := mapInfo[nId].stats.svc;
      var nUBucket := NewBucket(k, svc, source);
      var s := NewSlot(k, svc, nUBucket);
      if !(s in vvNew && vvNew[s] == nId) {
        var fInsert := s !in vvNew;
        if !fInsert {
          HolderNew(bk, s, {nId});
          CountedHolder(bk, s, {nId});
          var existing := mapInfo[vvNew[s]];
          if IsTerrible(existing.stats, now) || (existing.nRefCount > 1 && mapInfo[nId].nRefCount == 0) {
            fInsert := true;
          }
        }
        if fInsert {
          ClearNew(s);
          ghost var cl := Bk();
          mapInfo := mapInfo[nId := mapInfo[nId].(nRefCount := mapInfo[nId].nRefCount + 1)];
          ClearNewKeeps(bk, s, nId);
          vvNew := vvNew[s := nId];
          assert Bk() == Link(cl, nId, nUBucket);
        } else if mapInfo[nId].nRefCount == 0 {
          Delete(nId);
        }
      }
    }

    /** The chance of gaining another bucket halves with every bucket an address has. */
    method StochasticTest(nRefCount: nat, draw: nat) returns (pass: bool)
      ensures pass <==> Lucky(draw, nRefCount)
    {
      var nFactor := 1;
      for n := 0 to nRefCount
        invariant nFactor == Pow(2, n) > 0
      {
        nFactor := nFactor * 2;
      }
      pass := !(nFactor > 1 && draw % nFactor != 0);
    }

    /** An address is announced by source. */
    method Add_(addr: Address, routable: bool, source: NetAddr, nTimePenalty: int, now: int, draw: nat)
      returns (fNew: bool)
      requires Valid()
      modifies this
      ensures Valid() && nLastGood == old(nLastGood) && nKey == old(nKey)
      ensures Knows() == Add(Placing(h, nKey), old(Knows()), addr, routable, source, nTimePenalty, now, draw)
      ensures fNew <==> routable && addr.svc.ip !in old(Knows())
    {
      hide InvBut;
      hide ViewOf;
      hide PutNew;
      fNew := false;
      if !routable { return; }
      var found := Find(addr.svc.ip);
      if found.Some? {
        AddKnown(found.value, addr, source, nTimePenalty, now, draw);
      } else {
        AddUnknown(addr, source, nTimePenalty, now);
        fNew := true;
      }
    }

    method AddKnown(nId: int, addr: Address, source: NetAddr, nTimePenalty: int, now: int, draw: nat)
      requires Valid() && nId in mapInfo && Ip(Bk(), nId) == addr.svc.ip
      modifies this
      ensures Valid() && nLastGood == old(nLastGood) && nKey == old(nKey)
      ensures addr.svc.ip in old(Knows())
      ensures Knows() == Add(Placing(h, nKey), old(Knows()), addr, true, source, nTimePenalty, now, draw)
    {
      hide InvBut;
      hide ViewOf;
      hide PutNew;
      ghost var bk := Bk();
      InvParts(bk, {});
      ViewAt(bk, nId);
      SetStatsValid(bk, nId, RefreshedStats(mapInfo[nId].stats, addr, now, nTimePenalty));
      ExactCount(bk, nId, {});
      CountBound(bk, nId, {});
      var info := mapInfo[nId];
      var nUpdateInterval := if now - addr.nTime < DAY then HOUR else DAY;
      var st := info.stats;
      if addr.nTime != 0 && (st.nTime == 0 || st.nTime < addr.nTime - nUpdateInterval - nTimePenalty) {
        st := st.(nTime := Max(0, addr.nTime - nTimePenalty));
      }
      st := st.(nServices := st.nServices + addr.nServices);
      assert st == RefreshedStats(info.stats, addr, now, nTimePenalty);
      mapInfo := mapInfo[nId := info.(stats := st)];
      assert Bk() == SetStats(bk, nId, st);
      if addr.nTime == 0 || (st.nTime != 0 && addr.nTime <= st.nTime) { return; }
      if info.fInTried { return; }
      if info.nRefCount == NEW_BUCKETS_PER_ADDRESS { return; }
      var pass := StochasticTest(info.nRefCount, draw);
      if !pass { return; }
      PendingGrow(Bk(), {}, {nId});
      Put(nId, source, now);
    }

    method AddUnknown(addr: Address, source: NetAddr, nTimePenalty: int, now: int)
      requires Valid() && addr.svc.ip !in Knows()
      modifies this
      ensures Valid() && nLastGood == old(nLastGood) && nKey == old(nKey)
      ensures forall draw: nat ::
                Knows() == Add(Placing(h, nKey), old(Knows()), addr, true, source, nTimePenalty, now, draw)
    {
      hide InvBut;
      hide ViewOf;
      hide PutNew;
      ghost var bk := Bk();
      CreateValid(bk, CreatedStats(addr, source, nTimePenalty));
      var nId := Create(addr, source);
      var info := mapInfo[nId];
      mapInfo := mapInfo[nId := info.(stats := info.stats.(nTime := Max(0, info.stats.nTime - nTimePenalty)))];
      nNew := nNew + 1;
      assert Bk() == AddrBook.Create(bk, CreatedStats(addr, source, nTimePenalty));
      Put(nId, source, now);
    }


    /** A random selection of addresses worth telling others about; draw gives the random numbers. */
    method GetAddr_(now: int, draw: nat -> nat) returns (vAddr: seq<Stats>)
      requires Valid()
      modifies this
      ensures Valid() && nLastGood == old(nLastGood) && nKey == old(nKey) && Knows() == old(Knows())
      ensures |vAddr| <= 23 * |Knows()| / 100 && |vAddr| <= 2500
      ensures Selection(Knows(), vAddr, now)
      ensures |vAddr| < 23 * |Knows()| / 100 && |vAddr| < 2500 ==>
                forall a :: a in Knows() && !IsTerrible(Knows()[a].stats, now) ==> Knows()[a].stats in vAddr
    {
      hide InvBut;
      hide ViewOf;
      hide IsTerrible;
      hide Picked;
      hide Selection;
      KnownCount(Bk());
      PickedNone(Bk(), now);
      var nNodes := Min(GETADDR_MAX_PCT * |vRandom| / 100, GETADDR_MAX);
      ghost var v, size := Knows(), |vRandom|;
      vAddr := [];
      var n := 0;
      while n < |vRandom| && |vAddr| < nNodes
        invariant Valid() && nLastGood == old(nLastGood) && nKey == old(nKey)
        invariant Knows() == v && |vRandom| == size && n <= |vRandom| && |vAddr| <= nNodes
        invariant Ordered(Bk()) && vAddr == Picked(Bk(), n, now)
      {
        ghost var bk := Bk();
        var nRndPos := draw(n) % (|vRandom| - n) + n;
        SwapValid(bk, n, nRndPos);
        SwapRandom(n, nRndPos);
        PickedFrame(bk, Bk(), n, now);
        PickedNext(Bk(), n, now);
        var ai := mapInfo[vRandom[n]];
        if !IsTerrible(ai.stats, now) {
          vAddr := vAddr + [ai.stats];
        }
        n := n + 1;
      }
      PickedSelection(Bk(), n, now);
      if n == |vRandom| {
        PickedAll(Bk(), now);
      }
    }

    /** Any sequence of operations. */
    method Run(ops: seq<Op>)
      requires Valid() && forall i :: 0 <= i < |ops| ==> Proper(ops[i])
      modifies this
      ensures Valid()
      ensures Memory(Knows(), nLastGood) == After(Placing(h, old(nKey)), old(Memory(Knows(), nLastGood)), ops)
      ensures old(Times(Bk())) && (forall i :: 0 <= i < |ops| ==> InTime(ops[i])) ==> Times(Bk())
    {
      hide InvBut;
      hide ViewOf;
      hide Times;
      ghost var start := Memory(Knows(), nLastGood);
      for i := 0 to |ops|
        invariant Valid() && nKey == old(nKey)
        invariant old(Times(Bk())) && (forall j :: 0 <= j < i ==> InTime(ops[j])) ==> Times(Bk())
        invariant Memory(Knows(), nLastGood) == After(Placing(h, nKey), start, ops[..i])
      {
        Do(ops[i]);
        assert ops[..i + 1][..i] == ops[..i];
      }
      assert ops[..|ops|] == ops;
    }

    method Do(op: Op)
      requires Valid() && Proper(op)
      modifies this
      ensures Valid() && nKey == old(nKey)
      ensures Memory(Knows(), nLastGood) == Effect(Placing(h, nKey), old(Memory(Knows(), nLastGood)), op)
      ensures old(Times(Bk())) ==> (Times(Bk()) <==> InTime(op) || !Concerns(old(Knows()), op))
    {
      hide InvBut;
      hide ViewOf;
      hide Times;
      ghost var bk, before := Bk(), Memory(Knows(), nLastGood);
      Work(op);
      DoTimes(bk, Bk(), before, op);
    }

    method Work(op: Op)
      requires Valid() && Proper(op)
      modifies this
      ensures Valid() && nKey == old(nKey)
      ensures Memory(Knows(), nLastGood) == Effect(Placing(h, nKey), old(Memory(Knows(), nLastGood)), op)
    {
      hide InvBut;
      hide ViewOf;
      match op
      case AddOp(addr, routable, source, penalty, now, draw) =>
        var _ := Add_(addr, routable, source, penalty, now, draw);
      case GoodOp(svc, nTime, nRnd) => Good_(svc, nTime, nRnd);
      case AttemptOp(svc, fCountFailure, nTime) => Attempt_(svc, fCountFailure, nTime);
      case ConnectedOp(svc, nTime) => Connected_(svc, nTime);
      case GetAddrOp(now, draw) => var _ := GetAddr_(now, draw);
    }

  }

  // ---------- facts the methods rely on ----------

  lemma DoTimes(bk: Book, bk': Book, m: Memory, op: Op)
    requires Inv(bk) && Inv(bk') && m.v == ViewOf(bk) && ViewOf(bk') == Effect(bk.k, m, op).v
    ensures Times(bk) ==> (Times(bk') <==> InTime(op) || !Concerns(m.v, op))
  {
    hide InvBut;
    InvParts(bk, {});
    InvParts(bk', {});
    TimesView(bk);
    TimesView(bk');
    ViewTidy(bk);
    if Times(bk) {
      EffectTimely(bk.k, m, op);
    }
  }

  ghost function Plus(bk: Book, d: int): Book {
    bk.(nNew := bk.nNew + d)
  }

  lemma DeleteShift(bk: Book, id: int, d: int)
    requires CanDelete(bk, id)
    ensures CanDelete(Plus(bk, d), id) && AddrBook.Delete(Plus(bk, d), id) == Plus(AddrBook.Delete(bk, id), d)
  {
    var i, j := bk.mapInfo[id].nRandomPos, |bk.vRandom| - 1;
    assert Swap(Plus(bk, d), i, j) == Plus(Swap(bk, i, j), d);
  }

  /** Clearing a slot does not look at the number of new entries. */
  lemma ClearNewShift(bk: Book, s: Slot, d: int)
    requires CanClear(bk, s)
    ensures CanClear(Plus(bk, d), s) && AddrBook.ClearNew(Plus(bk, d), s) == Plus(AddrBook.ClearNew(bk, s), d)
  {
    if s in bk.vvNew {
      assert Unlink(Plus(bk, d), s) == Plus(Unlink(bk, s), d);
      if bk.mapInfo[bk.vvNew[s]].nRefCount == 1 {
        hide AddrBook.Delete;
        hide Unlink;
        hide CanDelete;
        DeleteShift(Unlink(bk, s), bk.vvNew[s], d);
      }
    }
  }

  lemma ClearForEvict(bk: Book, e: int, pending: set<int>)
    requires InvBut(bk, pending) && e in bk.mapInfo && bk.mapInfo[e].fInTried
    ensures var de, u := Demote(bk, e), NewSlot(bk.k, Svc(bk, e), HomeBucket(bk, e));
            && CanClear(de, u) && e in AddrBook.ClearNew(de, u).mapInfo
            && AddrBook.ClearNew(de, u).mapInfo[e].nRefCount == 0
            && AddrBook.ClearNew(de, u).k == bk.k && AddrBook.ClearNew(de, u).mapInfo[e].stats == bk.mapInfo[e].stats
            && (u in de.vvNew ==>
                  && de.vvNew[u] in de.mapInfo && de.mapInfo[de.vvNew[u]].nRefCount > 0
                  && !de.mapInfo[de.vvNew[u]].fInTried)
  {
    hide InvBut;
    var de, u := Demote(bk, e), NewSlot(bk.k, Svc(bk, e), HomeBucket(bk, e));
    DemoteInv(bk, e, pending);
    UnreferencedSlot(de, e, pending + {e}, u);
    ClearNewInv(de, u, pending + {e});
    ClearNewKeeps(de, u, e);
    if u in de.vvNew {
      HolderNew(de, u, pending + {e});
      CountedHolder(de, u, pending + {e});
    }
  }

  lemma SweepUnreferenced(bk: Book, id: int)
    requires Inv(bk) && id in bk.mapInfo && !bk.mapInfo[id].fInTried
    ensures InvBut(Sweep(bk, id), {id}) && Unreferenced(Sweep(bk, id), id)
  {
    hide InvBut;
    SweepInv(bk, id, {});
    assert {} + {id} == {id};
  }

  function Turn(m: nat, r: nat): nat {
    (m + r) % NEW_BUCKET_COUNT
  }

  lemma AllResidues(b: nat, r: nat)
    requires b < NEW_BUCKET_COUNT && r < NEW_BUCKET_COUNT
    ensures exists m: nat :: m < NEW_BUCKET_COUNT && Turn(m, r) == b
  {
    var m := if r <= b then b - r else b + NEW_BUCKET_COUNT - r;
    assert Turn(m, r) == b;
  }

  /** New figures keep the tables consistent and change one record. */
  lemma SetStatsValid(bk: Book, id: int, st: Stats)
    requires Inv(bk) && id in bk.mapInfo && st.svc == Svc(bk, id)
    ensures Inv(SetStats(bk, id, st))
    ensures ViewOf(SetStats(bk, id, st)) == ViewOf(bk)[Ip(bk, id) := RecordOf(bk, id).(stats := st)]
  {
    hide InvBut;
    InvParts(bk, {});
    SetStatsInv(bk, id, st, {});
    SetStatsView(bk, id, st);
  }

  lemma SetSameStats(bk: Book, id: int)
    requires id in bk.mapInfo
    ensures SetStats(bk, id, bk.mapInfo[id].stats) == bk
  {
    assert bk.mapInfo[id := bk.mapInfo[id]] == bk.mapInfo;
  }

  lemma CountBound(bk: Book, id: int, pending: set<int>)
    requires InvBut(bk, pending) && id in bk.mapInfo
    ensures 0 <= bk.mapInfo[id].nRefCount <= NEW_BUCKETS_PER_ADDRESS
  {
  }

  lemma CreateValid(bk: Book, st: Stats)
    requires Inv(bk) && bk.nIdCount >= 0 && st.svc.ip !in ViewOf(bk)
    ensures InvBut(Create(bk, st), {bk.nIdCount})
    ensures ViewOf(Create(bk, st)) == ViewOf(bk)[st.svc.ip := Record(st, New({}))]
  {
    hide InvBut;
    InvParts(bk, {});
    CreateInv(bk, st, {});
    assert {} + {bk.nIdCount} == {bk.nIdCount};
    CreateView(bk, st);
  }

  // ---------- selecting addresses ----------

  /** Different known addresses, none of them terrible. */
  ghost predicate Selection(v: View, sel: seq<Stats>, now: int) {
    && (forall i :: 0 <= i < |sel| ==>
          sel[i].svc.ip in v && v[sel[i].svc.ip].stats == sel[i] && !IsTerrible(sel[i], now))
    && (forall i, j :: 0 <= i < j < |sel| ==> sel[i].svc.ip != sel[j].svc.ip)
  }

  predicate Ordered(bk: Book) {
    forall i :: 0 <= i < |bk.vRandom| ==> bk.vRandom[i] in bk.mapInfo
  }

  /** The figures of those among the first n entries of the random order that are not terrible. */
  function Picked(bk: Book, n: nat, now: int): seq<Stats>
    requires Ordered(bk) && n <= |bk.vRandom|
  {
    if n == 0 then []
    else
      var st := bk.mapInfo[bk.vRandom[n - 1]].stats;
      Picked(bk, n - 1, now) + if IsTerrible(st, now) then [] else [st]
  }

  lemma {:induction false} PickedFrame(bk: Book, bk': Book, n: nat, now: int)
    requires Ordered(bk) && Ordered(bk') && n <= |bk.vRandom| && n <= |bk'.vRandom|
    requires forall i :: 0 <= i < n ==> bk'.vRandom[i] == bk.vRandom[i]
    requires forall id :: id in bk.mapInfo ==> id in bk'.mapInfo && bk'.mapInfo[id].stats == bk.mapInfo[id].stats
    ensures Picked(bk', n, now) == Picked(bk, n, now)
  {
    if n > 0 {
      PickedFrame(bk, bk', n - 1, now);
    }
  }

  lemma SwapValid(bk: Book, i: nat, j: nat)
    requires Inv(bk) && i <= j < |bk.vRandom|
    ensures CanSwap(bk, i, j) && Inv(Swap(bk, i, j)) && ViewOf(Swap(bk, i, j)) == ViewOf(bk) && Ordered(Swap(bk, i, j))
    ensures forall m :: 0 <= m < i ==> Swap(bk, i, j).vRandom[m] == bk.vRandom[m]
    ensures forall id :: id in bk.mapInfo ==>
              id in Swap(bk, i, j).mapInfo && Swap(bk, i, j).mapInfo[id].stats == bk.mapInfo[id].stats
  {
    hide InvBut;
    hide ViewOf;
    hide AddrIndex;
    hide RandomIndex;
    hide TriedTable;
    hide NewTable;
    SwapInv(bk, i, j, {});
    InvParts(bk, {});
    SwapView(bk, i, j);
    InvOrdered(Swap(bk, i, j));
  }

  lemma InvOrdered(bk: Book)
    requires Inv(bk)
    ensures Ordered(bk) && RandomIndex(bk)
  {
  }

  /** What has been picked stands among the first n entries, at most once each. */
  lemma {:induction false} PickedFrom(bk: Book, n: nat, now: int)
    requires Ordered(bk) && RandomIndex(bk) && AddrIndex(bk) && n <= |bk.vRandom|
    ensures forall i :: 0 <= i < |Picked(bk, n, now)| ==>
              var a := Picked(bk, n, now)[i].svc.ip;
              && a in bk.mapAddr && bk.mapAddr[a] in bk.mapInfo
              && bk.mapInfo[bk.mapAddr[a]].stats == Picked(bk, n, now)[i]
              && bk.mapInfo[bk.mapAddr[a]].nRandomPos < n && !IsTerrible(Picked(bk, n, now)[i], now)
    ensures forall i, j :: 0 <= i < j < |Picked(bk, n, now)| ==>
              Picked(bk, n, now)[i].svc.ip != Picked(bk, n, now)[j].svc.ip
  {
    if n > 0 {
      PickedFrom(bk, n - 1, now);
      var id := bk.vRandom[n - 1];
      assert bk.mapInfo[id].nRandomPos == n - 1 && bk.mapAddr[Ip(bk, id)] == id;
    }
  }

  lemma PickedSelection(bk: Book, n: nat, now: int)
    requires Inv(bk) && Ordered(bk) && n <= |bk.vRandom|
    ensures Selection(ViewOf(bk), Picked(bk, n, now), now)
  {
    hide InvBut;
    InvParts(bk, {});
    InvOrdered(bk);
    PickedFrom(bk, n, now);
  }

  lemma {:induction false} PickedHas(bk: Book, n: nat, now: int, i: nat)
    requires Ordered(bk) && i < n <= |bk.vRandom| && !IsTerrible(bk.mapInfo[bk.vRandom[i]].stats, now)
    ensures bk.mapInfo[bk.vRandom[i]].stats in Picked(bk, n, now)
  {
    if i < n - 1 {
      PickedHas(bk, n - 1, now, i);
    }
  }

  lemma PickedNone(bk: Book, now: int)
    requires Ordered(bk)
    ensures Picked(bk, 0, now) == []
  {
  }

  lemma PickedNext(bk: Book, n: nat, now: int)
    requires Ordered(bk) && n < |bk.vRandom|
    ensures var st := bk.mapInfo[bk.vRandom[n]].stats;
            Picked(bk, n + 1, now) == Picked(bk, n, now) + if IsTerrible(st, now) then [] else [st]
  {
  }

  lemma PickedAll(bk: Book, now: int)
    requires Inv(bk) && Ordered(bk)
    ensures forall a :: a in ViewOf(bk) && !IsTerrible(ViewOf(bk)[a].stats, now) ==>
              ViewOf(bk)[a].stats in Picked(bk, |bk.vRandom|, now)
  {
    hide InvBut;
    InvOrdered(bk);
    forall a | a in ViewOf(bk) && !IsTerrible(ViewOf(bk)[a].stats, now)
      ensures ViewOf(bk)[a].stats in Picked(bk, |bk.vRandom|, now)
    {
      PickedHas(bk, |bk.vRandom|, now, bk.mapInfo[bk.mapAddr[a]].nRandomPos);
    }
  }

  /** The random order lists every known address once. */
  lemma KnownCount(bk: Book)
    requires Inv(bk)
    ensures |bk.vRandom| == |ViewOf(bk)| && Ordered(bk)
  {
    hide InvBut;
    InvParts(bk, {});
    InvOrdered(bk);
    ListCount(bk, |bk.vRandom|);
    assert (set a | a in ViewOf(bk) && bk.mapInfo[bk.mapAddr[a]].nRandomPos < |bk.vRandom|) == ViewOf(bk).Keys;
  }

  lemma {:induction false} ListCount(bk: Book, n: nat)
    requires AddrIndex(bk) && RandomIndex(bk) && n <= |bk.vRandom|
    ensures |set a | a in ViewOf(bk) && bk.mapInfo[bk.mapAddr[a]].nRandomPos < n| == n
  {
    if n == 0 {
      assert (set a | a in ViewOf(bk) && bk.mapInfo[bk.mapAddr[a]].nRandomPos < n) == {};
    } else {
      ListCount(bk, n - 1);
      var a0 := Ip(bk, bk.vRandom[n - 1]);
      assert (set a | a in ViewOf(bk) && bk.mapInfo[bk.mapAddr[a]].nRandomPos < n)
          == (set a | a in ViewOf(bk) && bk.mapInfo[bk.mapAddr[a]].nRandomPos < n - 1) + {a0};
    }
  }
}
