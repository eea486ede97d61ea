/**
 The public operations of the address manager as changes of what it knows, and what they may and may
 not do to the other addresses.
 */
module AddrOps {
  import opened Numbers
  import opened AddrBook
  import opened AddrView

  const MINUTE := 60
  const HOUR := 60 * 60
  const DAY := 24 * 60 * 60
  const HORIZON_DAYS := 30
  const RETRIES := 3
  const MAX_FAILURES := 10
  const MIN_FAIL_DAYS := 7

  /** An address as it is announced on the network. */
  datatype Address = Address(svc: Service, nServices: set<nat>, nTime: nat)

  predicate IsTerrible(st: Stats, now: int) {
    if st.nLastTry != 0 && st.nLastTry >= now - MINUTE then false
    else
      || st.nTime > now + 10 * MINUTE
      || st.nTime == 0 || now - st.nTime > HORIZON_DAYS * DAY
      || (st.nLastSuccess == 0 && st.nAttempts >= RETRIES)
      || (now - st.nLastSuccess > MIN_FAIL_DAYS * DAY && st.nAttempts >= MAX_FAILURES)
  }

  // ---------- the record of one address ----------

  function GoodStats(st: Stats, nTime: int): Stats {
    st.(nLastSuccess := nTime, nLastTry := nTime, nAttempts := 0)
  }

  function AttemptStats(st: Stats, fCountFailure: bool, nTime: int, nLastGood: int): Stats {
    if fCountFailure && st.nLastCountAttempt < nLastGood
    then st.(nLastTry := nTime, nLastCountAttempt := nTime, nAttempts := st.nAttempts + 1)
    else st.(nLastTry := nTime)
  }

  function ConnectedStats(st: Stats, nTime: int): Stats {
    if nTime - st.nTime > 20 * MINUTE then st.(nTime := nTime) else st
  }

  function CreatedStats(addr: Address, source: NetAddr, penalty: int): Stats {
    Stats(addr.svc, addr.nServices, Max(0, addr.nTime - penalty), source, 0, 0, 0, 0)
  }

  /** A known address is announced again. */
  function RefreshedStats(st: Stats, addr: Address, now: int, penalty: int): Stats {
    var interval := if now - addr.nTime < DAY then HOUR else DAY;
    st.(nTime := if addr.nTime != 0 && (st.nTime == 0 || st.nTime < addr.nTime - interval - penalty)
                 then Max(0, addr.nTime - penalty) else st.nTime,
        nServices := st.nServices + addr.nServices)
  }

  // ---------- the operations ----------

  predicate Known(v: View, svc: Service) {
    svc.ip in v && v[svc.ip].stats.svc == svc
  }

  /** Mark an address as accessible. */
  ghost function Good(k: Placing, v: View, svc: Service, nTime: int): View {
    if !Known(v, svc) then v
    else
      var v1 := v[svc.ip := v[svc.ip].(stats := GoodStats(v[svc.ip].stats, nTime))];
      if v[svc.ip].place.Tried? then v1 else ToTried(k, v1, svc.ip)
  }

  function Attempt(v: View, svc: Service, fCountFailure: bool, nTime: int, nLastGood: int): View {
    if !Known(v, svc) then v
    else v[svc.ip := v[svc.ip].(stats := AttemptStats(v[svc.ip].stats, fCountFailure, nTime, nLastGood))]
  }

  function Connected(v: View, svc: Service, nTime: int): View {
    if !Known(v, svc) then v
    else v[svc.ip := v[svc.ip].(stats := ConnectedStats(v[svc.ip].stats, nTime))]
  }

  /** The record in a slot gives way to a newcomer with so many buckets. */
  predicate GivesWay(r: Record, now: int, mine: nat) {
    r.place.New? && (IsTerrible(r.stats, now) || (|r.place.buckets| > 1 && mine == 0))
  }

  /** Give address a one more bucket, chosen by src; if that fails and it has none, forget it. */
  ghost function PutNew(k: Placing, v: View, a: NetAddr, src: NetAddr, now: int): View
    requires a in v && v[a].place.New?
  {
    var b := NewBucket(k, v[a].stats.svc, src);
    var s := NewSlot(k, v[a].stats.svc, b);
    if Stands(k, v[a], s) then v
    else if exists h :: h in v && Stands(k, v[h], s) && !GivesWay(v[h], now, |v[a].place.buckets|) then
      if v[a].place.buckets == {} then v - {a} else v
    else ClearSlot(k, v, s)[a := v[a].(place := New(v[a].place.buckets + {b}))]
  }

  /** A chance of one in 2^n. */
  predicate Lucky(draw: nat, n: nat) {
    PowPositive(2, n);
    draw % Pow(2, n) == 0
  }

  /** Whether an announcement of a known address may win it another bucket. */
  predicate Welcome(r: Record, st: Stats, addr: Address, draw: nat) {
    && addr.nTime != 0 && (st.nTime == 0 || addr.nTime > st.nTime)
    && r.place.New? && |r.place.buckets| != NEW_BUCKETS_PER_ADDRESS
    && Lucky(draw, |r.place.buckets|)
  }

  /** An announcement by source; draw is the random number used for the stochastic test. */
  ghost function Add(k: Placing, v: View, addr: Address, routable: bool, source: NetAddr, penalty: int, now: int,
                     draw: nat): View
  {
    var a := addr.svc.ip;
    if !routable then v
    else if a in v then
      var st := RefreshedStats(v[a].stats, addr, now, penalty);
      var v1 := v[a := v[a].(stats := st)];
      if Welcome(v[a], st, addr, draw) then PutNew(k, v1, a, source, now) else v1
    else PutNew(k, v[a := Record(CreatedStats(addr, source, penalty), New({}))], a, source, now)
  }

  // ---------- what they do to the other addresses ----------

  /** Nobody is without a place, and no two addresses share one. */
  ghost predicate Tidy(k: Placing, v: View) {
    && (forall a :: a in v && v[a].place.New? ==>
          v[a].place.buckets != {} && |v[a].place.buckets| <= NEW_BUCKETS_PER_ADDRESS)
    && (forall s, a, b :: a in v && b in v && Stands(k, v[a], s) && Stands(k, v[b], s) ==> a == b)
    && (forall s, a, b :: a in v && b in v && TriedAt(k, v[a], s) && TriedAt(k, v[b], s) ==> a == b)
  }

  lemma ViewTidy(bk: Book)
    requires Inv(bk)
    ensures Tidy(bk.k, ViewOf(bk))
  {
    var v := ViewOf(bk);
    forall a | a in v && v[a].place.New?
      ensures v[a].place.buckets != {} && |v[a].place.buckets| <= NEW_BUCKETS_PER_ADDRESS
    {
      assert bk.mapAddr[a] in bk.mapInfo;
    }
    forall s, a, b | a in v && b in v && Stands(bk.k, v[a], s) && Stands(bk.k, v[b], s)
      ensures a == b
    {
      SlotHolder(bk, s, a);
      SlotHolder(bk, s, b);
    }
    forall s, a, b | a in v && b in v && TriedAt(bk.k, v[a], s) && TriedAt(bk.k, v[b], s)
      ensures a == b
    {
      TriedHolder(bk, s, a);
      TriedHolder(bk, s, b);
    }
  }

  /** From v to v' the addresses other than a keep their figures and at most lose buckets. */
  ghost predicate Spares(v: View, v': View, a: NetAddr) {
    forall o :: o in v' && o != a ==>
      && o in v && v'[o].stats == v[o].stats && (v'[o].place.Tried? <==> v[o].place.Tried?)
      && (v[o].place.New? ==> v'[o].place.buckets <= v[o].place.buckets)
  }

  lemma PutNewEffect(k: Placing, v: View, a: NetAddr, src: NetAddr, now: int, o: NetAddr)
    requires a in v && v[a].place.New? && o in v && o !in PutNew(k, v, a, src, now)
    ensures v[o].place.New?
    ensures o != a ==> |v[o].place.buckets| == 1 && IsTerrible(v[o].stats, now)
    ensures o == a ==> v[o].place.buckets == {}
    ensures o != a ==> Stands(k, v[o], NewSlot(k, v[a].stats.svc, NewBucket(k, v[a].stats.svc, src)))
  {
  }

  /** An announcement makes the manager forget at most one address, and only a terrible one in its last bucket. */
  lemma AddForgets(k: Placing, v: View, addr: Address, routable: bool, source: NetAddr, penalty: int, now: int,
                   draw: nat)
    requires Tidy(k, v)
    ensures var v' := Add(k, v, addr, routable, source, penalty, now, draw);
            && (forall o :: o in v && o !in v' ==>
                  o != addr.svc.ip && v[o].place.New? && |v[o].place.buckets| == 1 && IsTerrible(v[o].stats, now))
            && (forall o, p :: o in v && o !in v' && p in v && p !in v' ==> o == p)
            && Spares(v, v', addr.svc.ip)
  {
    var a := addr.svc.ip;
    var v' := Add(k, v, addr, routable, source, penalty, now, draw);
    if routable {
      var r := if a in v then v[a].(stats := RefreshedStats(v[a].stats, addr, now, penalty))
               else Record(CreatedStats(addr, source, penalty), New({}));
      var v1 := v[a := r];
      forall o | o in v && o !in v'
        ensures o != a && v[o].place.New? && |v[o].place.buckets| == 1 && IsTerrible(v[o].stats, now)
        ensures Stands(k, v[o], NewSlot(k, r.stats.svc, NewBucket(k, r.stats.svc, source)))
      {
        PutNewEffect(k, v1, a, source, now, o);
      }
    }
  }

  /** Whether the slot an announcement leads to is held by somebody who does not give way. */
  ghost predicate Taken(k: Placing, v: View, svc: Service, src: NetAddr, now: int) {
    exists h :: h in v && Stands(k, v[h], NewSlot(k, svc, NewBucket(k, svc, src))) && !GivesWay(v[h], now, 0)
  }

  /** A known address stays, refreshed; a new one is remembered unless its slot is taken. */
  lemma AddOutcome(k: Placing, v: View, addr: Address, source: NetAddr, penalty: int, now: int, draw: nat)
    requires Tidy(k, v)
    ensures var a, b := addr.svc.ip, NewBucket(k, addr.svc, source);
            var v' := Add(k, v, addr, true, source, penalty, now, draw);
            && (a in v ==>
                  && a in v' && v'[a].stats == RefreshedStats(v[a].stats, addr, now, penalty)
                  && (v[a].place.Tried? ==> v'[a].place == Tried)
                  && (v[a].place.New? ==>
                        && v'[a].place.New? && v[a].place.buckets <= v'[a].place.buckets
                        && v'[a].place.buckets <= v[a].place.buckets + {NewBucket(k, v[a].stats.svc, source)}))
            && (a !in v ==> (a in v' <==> !Taken(k, v, addr.svc, source, now)))
            && (a !in v && a in v' ==> v'[a] == Record(CreatedStats(addr, source, penalty), New({b})))
  {
    var a, b := addr.svc.ip, NewBucket(k, addr.svc, source);
    if a !in v {
      var v1 := v[a := Record(CreatedStats(addr, source, penalty), New({}))];
      var s := NewSlot(k, addr.svc, b);
      assert !Stands(k, v1[a], s);
      assert forall h :: h in v ==> v1[h] == v[h];
      assert Taken(k, v, addr.svc, source, now)
        <==> exists h :: h in v1 && Stands(k, v1[h], s) && !GivesWay(v1[h], now, |v1[a].place.buckets|);
      assert {} + {b} == {b};
    }
  }

  /** An accessible address ends up tried; at most one address is forgotten, never a tried one. */
  lemma GoodEffect(k: Placing, v: View, svc: Service, nTime: int)
    requires Tidy(k, v) && Known(v, svc)
    ensures var v' := Good(k, v, svc, nTime);
            && svc.ip in v' && v'[svc.ip] == Record(GoodStats(v[svc.ip].stats, nTime), Tried)
            && (forall o :: o in v && v[o].place.Tried? ==> o in v')
            && (forall o, p :: o in v && o !in v' && p in v && p !in v' ==> o == p)
  {
    var a := svc.ip;
    var st := GoodStats(v[a].stats, nTime);
    if v[a].place.New? {
      var v1 := v[a := Record(st, New({}))];
      var s := TriedSlot(k, svc);
      assert v[a := v[a].(stats := st)][a := Record(st, New({}))] == v1;
      if exists e :: e in v1 && TriedAt(k, v1[e], s) {
        EvictForgets(k, v, a, st, s);
      }
    }
  }

  lemma EvictForgets(k: Placing, v: View, a: NetAddr, st: Stats, s: Slot)
    requires Tidy(k, v) && a in v
    ensures var v1 := v[a := Record(st, New({}))];
            && (forall o :: o in v && v[o].place.Tried? && o != a ==> o in EvictSlot(k, v1, s))
            && (forall o, p | o in v && o != a && p in v && p != a ::
                  o !in EvictSlot(k, v1, s) && p !in EvictSlot(k, v1, s) ==> o == p)
  {
    var v1 := v[a := Record(st, New({}))];
    if exists e :: e in v1 && TriedAt(k, v1[e], s) {
      var e :| e in v1 && TriedAt(k, v1[e], s) &&
               EvictSlot(k, v1, s) == ClearSlot(k, v1, NewSlot(k, v1[e].stats.svc, Home(k, v1[e])))
                                        [e := v1[e].(place := New({Home(k, v1[e])}))];
      var ns := NewSlot(k, v1[e].stats.svc, Home(k, v1[e]));
      forall o | o in v && o != a && o !in EvictSlot(k, v1, s)
        ensures Stands(k, v[o], ns)
      {
      }
    }
  }

  /** Apart from a, only the address that held the tried slot changes its standing, and it is not lost. */
  lemma GoodSpares(k: Placing, v: View, svc: Service, nTime: int, o: NetAddr)
    requires Tidy(k, v) && Known(v, svc) && o in v && o != svc.ip && o in Good(k, v, svc, nTime)
    ensures var v' := Good(k, v, svc, nTime);
            && v'[o].stats == v[o].stats
            && (v[o].place.New? ==> v'[o].place.New? && v'[o].place.buckets <= v[o].place.buckets)
            && (v[o].place.Tried? ==>
                  v'[o].place == if v[svc.ip].place.New? && TriedSlot(k, v[o].stats.svc) == TriedSlot(k, svc)
                                 then New({NewBucket(k, v[o].stats.svc, v[o].stats.source)}) else Tried)
  {
    if v[svc.ip].place.New? {
      var st := GoodStats(v[svc.ip].stats, nTime);
      var v1 := v[svc.ip := Record(st, New({}))];
      assert v[svc.ip := v[svc.ip].(stats := st)][svc.ip := Record(st, New({}))] == v1;
      assert v1[o] == v[o];
      if v[o].place.Tried? && TriedSlot(k, v[o].stats.svc) == TriedSlot(k, svc) {
        assert TriedAt(k, v1[o], TriedSlot(k, svc));
      }
    }
  }

  // ---------- what they do to the times ----------

  lemma AttemptTimely(v: View, svc: Service, fCountFailure: bool, nTime: int, nLastGood: int)
    requires Timely(v)
    ensures Timely(Attempt(v, svc, fCountFailure, nTime, nLastGood)) <==> nTime >= 0 || !Known(v, svc)
  {
    var v' := Attempt(v, svc, fCountFailure, nTime, nLastGood);
    if Known(v, svc) {
      assert v'[svc.ip].stats.nLastTry == nTime;
    }
  }

  lemma ConnectedTimely(v: View, svc: Service, nTime: int)
    requires Timely(v)
    ensures Timely(Connected(v, svc, nTime))
  {
  }

  lemma AddTimely(k: Placing, v: View, addr: Address, routable: bool, source: NetAddr, penalty: int, now: int,
                  draw: nat)
    requires Tidy(k, v) && Timely(v)
    ensures Timely(Add(k, v, addr, routable, source, penalty, now, draw))
  {
    hide PutNew;
    var v', a := Add(k, v, addr, routable, source, penalty, now, draw), addr.svc.ip;
    AddForgets(k, v, addr, routable, source, penalty, now, draw);
    if routable {
      AddOutcome(k, v, addr, source, penalty, now, draw);
      hide Add;
      forall o | o in v'
        ensures v'[o].stats.nLastTry >= 0 && v'[o].stats.nLastSuccess >= 0
        ensures v'[o].place.Tried? ==> v'[o].stats.nLastSuccess > 0
      {
        if o != a { assert o in v && v'[o].stats == v[o].stats; }
      }
    }
  }

  lemma GoodTimely(k: Placing, v: View, svc: Service, nTime: int)
    requires Tidy(k, v) && Timely(v)
    ensures Timely(Good(k, v, svc, nTime)) <==> nTime > 0 || !Known(v, svc)
  {
    var v' := Good(k, v, svc, nTime);
    if Known(v, svc) {
      GoodEffect(k, v, svc, nTime);
      GoodKeys(k, v, svc, nTime);
      assert v'[svc.ip].stats.nLastSuccess == nTime && v'[svc.ip].place.Tried?;
      hide Good;
      forall o | o in v' && o != svc.ip
        ensures v'[o].stats == v[o].stats && (v'[o].place.Tried? ==> v[o].place.Tried?)
      {
        GoodSpares(k, v, svc, nTime, o);
      }
    }
  }

  lemma GoodKeys(k: Placing, v: View, svc: Service, nTime: int)
    ensures Good(k, v, svc, nTime).Keys <= v.Keys
  {
  }
}
