/**
 What the address manager's operations amount to for somebody who only watches addresses come and go:
 when an address counts as terrible, how failures add up between successes, and what an announcement
 gains.
 */
module AddrLaws {
  import opened Numbers
  import opened AddrBook
  import opened AddrView
  import opened AddrOps
  import opened AddrMan

  // ---------- terrible addresses ----------

  /** Seen within thirty days and not from the future, in seconds. */
  predicate Recent(st: Stats, now: int) {
    st.nTime != 0 && now - 2592000 <= st.nTime <= now + 600
  }

  /** Fewer than three failures without a success, fewer than ten after a week without one. */
  predicate Forgivable(st: Stats, now: int) {
    && (st.nLastSuccess == 0 ==> st.nAttempts < 3)
    && (st.nLastSuccess < now - 604800 ==> st.nAttempts < 10)
  }

  /** Spared exactly if tried within the last minute, or recent with failures that are forgivable. */
  lemma TerribleExact(st: Stats, now: int)
    ensures !IsTerrible(st, now) <==>
              (st.nLastTry != 0 && now - 60 <= st.nLastTry) || (Recent(st, now) && Forgivable(st, now))
  {
  }

  // ---------- failures between successes ----------

  /** The record after a success: three figures change and no other. */
  lemma GoodResets(k: Placing, m: Memory, svc: Service, nTime: int, nRnd: nat)
    requires Tidy(k, m.v) && Known(m.v, svc)
    ensures var m' := Effect(k, m, GoodOp(svc, nTime, nRnd));
            && m'.nLastGood == nTime && Known(m'.v, svc) && m'.v[svc.ip].place == Tried
            && m'.v[svc.ip].stats
               == m.v[svc.ip].stats.(nLastSuccess := nTime, nLastTry := nTime, nAttempts := 0)
  {
    GoodEffect(k, m.v, svc, nTime);
  }

  /** The clock against which failures are counted moves with every success, also of an unknown service. */
  lemma GoodMovesClock(k: Placing, m: Memory, svc: Service, nTime: int, nRnd: nat)
    ensures Effect(k, m, GoodOp(svc, nTime, nRnd)).nLastGood == nTime
  {
  }

  /** A failure counts exactly if it is to be counted and none has been since the last success of anybody. */
  lemma AttemptCounts(k: Placing, m: Memory, svc: Service, fCountFailure: bool, nTime: int)
    requires Known(m.v, svc)
    ensures var m' := Effect(k, m, AttemptOp(svc, fCountFailure, nTime));
            var st, st' := m.v[svc.ip].stats, m'.v[svc.ip].stats;
            var counts := fCountFailure && st.nLastCountAttempt < m.nLastGood;
            && m'.nLastGood == m.nLastGood
            && m'.v == m.v[svc.ip := m.v[svc.ip].(stats := st')]
            && st' == st.(nLastTry := nTime,
                          nAttempts := st.nAttempts + (if counts then 1 else 0),
                          nLastCountAttempt := if counts then nTime else st.nLastCountAttempt)
  {
  }

  /** Without a success in between a second failure does not count. */
  lemma OneFailurePerSuccess(k: Placing, m: Memory, svc: Service, t: int, t': int, f': bool)
    requires Known(m.v, svc) && t >= m.nLastGood
    ensures var m1 := Effect(k, m, AttemptOp(svc, true, t));
            var m2 := Effect(k, m1, AttemptOp(svc, f', t'));
            m2.v[svc.ip].stats.nAttempts == m1.v[svc.ip].stats.nAttempts
  {
  }

  /** The number of failures of a service to be counted. */
  function Failures(ops: seq<Op>, svc: Service): nat {
    if ops == [] then 0
    else
      var op := ops[|ops| - 1];
      Failures(ops[..|ops| - 1], svc) + if op.AttemptOp? && op.svc == svc && op.fCountFailure then 1 else 0
  }

  /** The address is known after every operation of the run. */
  ghost predicate Stays(k: Placing, m: Memory, ops: seq<Op>, a: NetAddr) {
    forall i :: 0 <= i <= |ops| ==> a in After(k, m, ops[..i]).v
  }

  /** The service has been reached, with at most n failures since. */
  predicate Reached(v: View, svc: Service, n: nat) {
    Known(v, svc) && v[svc.ip].stats.nLastSuccess > 0 && v[svc.ip].stats.nAttempts <= n
  }

  /** One operation adds at most the one failure it records. */
  lemma StepReached(k: Placing, m: Memory, op: Op, svc: Service, n: nat)
    requires Tidy(k, m.v) && Reached(m.v, svc, n) && InTime(op) && svc.ip in Effect(k, m, op).v
    ensures Reached(Effect(k, m, op).v, svc, n + if op.AttemptOp? && op.svc == svc && op.fCountFailure then 1 else 0)
  {
    match op
    case AddOp(addr, routable, source, penalty, now, draw) =>
      AddReached(k, m.v, addr, routable, source, penalty, now, draw, svc);
    case GoodOp(s, nTime, _) =>
      if Known(m.v, s) {
        if s.ip == svc.ip {
          GoodEffect(k, m.v, s, nTime);
        } else {
          GoodSpares(k, m.v, s, nTime, svc.ip);
        }
      }
    case AttemptOp(_, _, _) =>
    case ConnectedOp(_, _) =>
    case GetAddrOp(_, _) =>
  }

  /** An announcement records no success and no failure. */
  lemma AddReached(k: Placing, v: View, addr: Address, routable: bool, source: NetAddr, penalty: int, now: int,
                   draw: nat, svc: Service)
    requires Tidy(k, v) && Known(v, svc) && svc.ip in Add(k, v, addr, routable, source, penalty, now, draw)
    ensures var st, st' := v[svc.ip].stats, Add(k, v, addr, routable, source, penalty, now, draw)[svc.ip].stats;
            && st'.svc == st.svc && st'.nLastSuccess == st.nLastSuccess && st'.nAttempts == st.nAttempts
            && st'.nLastTry == st.nLastTry && st'.nLastCountAttempt == st.nLastCountAttempt && st'.source == st.source
  {
    AddForgets(k, v, addr, routable, source, penalty, now, draw);
    if routable {
      AddOutcome(k, v, addr, source, penalty, now, draw);
    }
  }

  // ---------- every operation leaves each address its own place ----------

  /** No two addresses share a slot. */
  ghost predicate Apart(k: Placing, v: View) {
    && (forall s, a, b :: a in v && b in v && Stands(k, v[a], s) && Stands(k, v[b], s) ==> a == b)
    && (forall s, a, b :: a in v && b in v && TriedAt(k, v[a], s) && TriedAt(k, v[b], s) ==> a == b)
  }

  /** Everybody but a stands somewhere, in at most eight buckets. */
  ghost predicate Housed(v: View, a: NetAddr) {
    forall o :: o in v && o != a && v[o].place.New? ==> v[o].place.buckets != {} && |v[o].place.buckets| <= 8
  }

  lemma ClearSlotApart(k: Placing, v: View, s: Slot, a: NetAddr)
    requires Apart(k, v) && Housed(v, a)
    ensures Apart(k, ClearSlot(k, v, s)) && Housed(ClearSlot(k, v, s), a)
    ensures forall o :: o in ClearSlot(k, v, s) ==> !Stands(k, ClearSlot(k, v, s)[o], s)
  {
    var v' := ClearSlot(k, v, s);
    forall o | o in v'
      ensures o in v && v'[o].stats == v[o].stats && (v'[o].place.Tried? <==> v[o].place.Tried?)
      ensures o != a && v[o].place.New? ==> v'[o].place.buckets != {} && |v'[o].place.buckets| <= 8
      ensures forall u :: Stands(k, v'[o], u) ==> Stands(k, v[o], u) && u != s
    {
    }
  }

  /** A new record for a whose slots are held by nobody else. */
  lemma SetApart(k: Placing, v: View, a: NetAddr, r: Record)
    requires Apart(k, v) && Housed(v, a)
    requires forall o, s :: o in v && o != a && Stands(k, r, s) ==> !Stands(k, v[o], s)
    requires forall o, s :: o in v && o != a && TriedAt(k, r, s) ==> !TriedAt(k, v[o], s)
    ensures Apart(k, v[a := r]) && Housed(v[a := r], a)
  {
  }

  lemma SetPlace(k: Placing, v: View, e: NetAddr, r: Record)
    requires Apart(k, v) && r.place.New?
    requires forall o, s :: o in v && o != e && Stands(k, r, s) ==> !Stands(k, v[o], s)
    ensures Apart(k, v[e := r])
  {
  }

  lemma TidyParts(k: Placing, v: View, a: NetAddr)
    ensures Tidy(k, v) <==> Apart(k, v) && Housed(v, a) &&
                            (a in v && v[a].place.New? ==> v[a].place.buckets != {} && |v[a].place.buckets| <= 8)
  {
  }

  lemma PutTidy(k: Placing, v: View, a: NetAddr, src: NetAddr, now: int)
    requires a in v && v[a].place.New? && |v[a].place.buckets| < 8 && Apart(k, v) && Housed(v, a)
    ensures Tidy(k, PutNew(k, v, a, src, now))
  {
    var b := NewBucket(k, v[a].stats.svc, src);
    var s, r := NewSlot(k, v[a].stats.svc, b), v[a].(place := New(v[a].place.buckets + {b}));
    TidyParts(k, PutNew(k, v, a, src, now), a);
    ClearSlotApart(k, v, s, a);
    var c := ClearSlot(k, v, s);
    forall o, u | o in c && o != a && Stands(k, r, u)
      ensures !Stands(k, c[o], u)
    {
      if u.bucket != b { assert Stands(k, v[a], u); }
    }
    SetApart(k, c, a, r);
  }

  lemma StatsTidy(k: Placing, v: View, a: NetAddr, st: Stats)
    requires Tidy(k, v) && a in v && st.svc == v[a].stats.svc
    ensures Tidy(k, v[a := v[a].(stats := st)])
  {
    var v' := v[a := v[a].(stats := st)];
    forall o, s | o in v
      ensures (Stands(k, v'[o], s) <==> Stands(k, v[o], s)) && (TriedAt(k, v'[o], s) <==> TriedAt(k, v[o], s))
    {
    }
  }

  lemma AddTidy(k: Placing, v: View, addr: Address, routable: bool, source: NetAddr, penalty: int, now: int, draw: nat)
    requires Tidy(k, v)
    ensures Tidy(k, Add(k, v, addr, routable, source, penalty, now, draw))
  {
    hide PutNew;
    var a := addr.svc.ip;
    if routable {
      if a in v {
        var st := RefreshedStats(v[a].stats, addr, now, penalty);
        var v1 := v[a := v[a].(stats := st)];
        StatsTidy(k, v, a, st);
        if Welcome(v[a], st, addr, draw) {
          TidyParts(k, v1, a);
          PutTidy(k, v1, a, source, now);
        }
      } else {
        var r := Record(CreatedStats(addr, source, penalty), New({}));
        TidyParts(k, v, a);
        SetApart(k, v, a, r);
        PutTidy(k, v[a := r], a, source, now);
      }
    }
  }

  /** Evicting whoever is in a tried slot leaves it free and nobody homeless. */
  lemma EvictApart(k: Placing, v: View, s: Slot, a: NetAddr)
    requires Apart(k, v) && Housed(v, a) && a in v && v[a].place == New({})
    ensures Apart(k, EvictSlot(k, v, s)) && Housed(EvictSlot(k, v, s), a)
    ensures forall o :: o in EvictSlot(k, v, s) ==> !TriedAt(k, EvictSlot(k, v, s)[o], s)
  {
    if exists e :: e in v && TriedAt(k, v[e], s) {
      var e :| e in v && TriedAt(k, v[e], s) &&
               EvictSlot(k, v, s) == ClearSlot(k, v, NewSlot(k, v[e].stats.svc, Home(k, v[e])))
                                       [e := v[e].(place := New({Home(k, v[e])}))];
      var ns, r := NewSlot(k, v[e].stats.svc, Home(k, v[e])), v[e].(place := New({Home(k, v[e])}));
      var c := ClearSlot(k, v, ns);
      ClearSlotApart(k, v, ns, a);
      assert forall u :: Stands(k, r, u) ==> u == ns;
      OthersThere(k, v, e, s, ns);
      assert |{Home(k, v[e])}| == 1;
      SetPlace(k, c, e, r);
    }
  }

  lemma OthersThere(k: Placing, v: View, e: NetAddr, s: Slot, ns: Slot)
    requires Apart(k, v) && e in v && TriedAt(k, v[e], s)
    ensures var c := ClearSlot(k, v, ns); forall o :: o in c && o != e ==> !TriedAt(k, c[o], s)
  {
    var c := ClearSlot(k, v, ns);
    forall o | o in c && o != e
      ensures !TriedAt(k, c[o], s)
    {
      assert o in v && c[o].stats == v[o].stats;
    }
  }

  lemma GoodTidy(k: Placing, v: View, svc: Service, nTime: int)
    requires Tidy(k, v)
    ensures Tidy(k, Good(k, v, svc, nTime))
  {
    if Known(v, svc) {
      var a := svc.ip;
      var st := GoodStats(v[a].stats, nTime);
      StatsTidy(k, v, a, st);
      if v[a].place.New? {
        var v1, s := v[a := Record(st, New({}))], TriedSlot(k, svc);
        TidyParts(k, v, a);
        SetApart(k, v, a, Record(st, New({})));
        EvictApart(k, v1, s, a);
        var ev, r := EvictSlot(k, v1, s), Record(st, Tried);
        assert v[a := v[a].(stats := st)][a := Record(st, New({}))] == v1;
        SetApart(k, ev, a, r);
        TidyParts(k, ev[a := r], a);
      }
    }
  }

  lemma EffectTidy(k: Placing, m: Memory, op: Op)
    requires Tidy(k, m.v)
    ensures Tidy(k, Effect(k, m, op).v)
  {
    match op
    case AddOp(addr, routable, source, penalty, now, draw) =>
      AddTidy(k, m.v, addr, routable, source, penalty, now, draw);
    case GoodOp(svc, nTime, _) => GoodTidy(k, m.v, svc, nTime);
    case AttemptOp(svc, f, t) =>
      if Known(m.v, svc) { StatsTidy(k, m.v, svc.ip, AttemptStats(m.v[svc.ip].stats, f, t, m.nLastGood)); }
    case ConnectedOp(svc, t) =>
      if Known(m.v, svc) { StatsTidy(k, m.v, svc.ip, ConnectedStats(m.v[svc.ip].stats, t)); }
    case GetAddrOp(_, _) =>
  }

  /** Whatever happens, no two addresses come to share a slot and nobody is left without one. */
  lemma {:induction false} RunTidy(k: Placing, m: Memory, ops: seq<Op>)
    requires Tidy(k, m.v)
    ensures Tidy(k, After(k, m, ops).v)
  {
    if ops != [] {
      RunTidy(k, m, ops[..|ops| - 1]);
      EffectTidy(k, After(k, m, ops[..|ops| - 1]), ops[|ops| - 1]);
    }
  }

  // ---------- a success is remembered ----------

  lemma {:induction false} RunReached(k: Placing, m: Memory, ops: seq<Op>, svc: Service)
    requires Tidy(k, m.v) && Reached(m.v, svc, 0) && Stays(k, m, ops, svc.ip)
    requires forall i :: 0 <= i < |ops| ==> InTime(ops[i])
    ensures Reached(After(k, m, ops).v, svc, Failures(ops, svc))
  {
    if ops != [] {
      var n := |ops| - 1;
      var init := ops[..n];
      forall i | 0 <= i <= n
        ensures svc.ip in After(k, m, init[..i]).v
      {
        assert init[..i] == ops[..i];
      }
      assert ops[..n + 1] == ops;
      RunReached(k, m, init, svc);
      RunTidy(k, m, init);
      StepReached(k, After(k, m, init), ops[n], svc, Failures(init, svc));
    }
  }

  /**
   An address that was reached is not terrible for its failures before ten of them have been counted: as
   long as it has been announced or connected to recently enough it is spared.
   */
  lemma SuccessSpares(k: Placing, m: Memory, svc: Service, nTime: int, nRnd: nat, ops: seq<Op>, now: int)
    requires Tidy(k, m.v) && Known(m.v, svc) && nTime > 0
    requires Stays(k, Effect(k, m, GoodOp(svc, nTime, nRnd)), ops, svc.ip)
    requires (forall i :: 0 <= i < |ops| ==> InTime(ops[i])) && Failures(ops, svc) < 10
    ensures var v := After(k, Effect(k, m, GoodOp(svc, nTime, nRnd)), ops).v;
            svc.ip in v && (Recent(v[svc.ip].stats, now) ==> !IsTerrible(v[svc.ip].stats, now))
  {
    var m1 := Effect(k, m, GoodOp(svc, nTime, nRnd));
    GoodResets(k, m, svc, nTime, nRnd);
    EffectTidy(k, m, GoodOp(svc, nTime, nRnd));
    RunReached(k, m1, ops, svc);
    TerribleExact(After(k, m1, ops).v[svc.ip].stats, now);
  }

  // ---------- announcements ----------

  /** A known service that connects is recorded as seen within twenty minutes, and nothing else changes. */
  lemma ConnectedSeen(v: View, svc: Service, nTime: int)
    requires Known(v, svc)
    ensures var st, v' := v[svc.ip].stats, Connected(v, svc, nTime);
            && v' == v[svc.ip := v[svc.ip].(stats := st.(nTime := v'[svc.ip].stats.nTime))]
            && v'[svc.ip].stats.nTime == (if st.nTime >= nTime - 1200 then st.nTime else nTime)
  {
  }

  /** The time recorded for an announced address that is known. */
  function SeenTime(st: Stats, addr: Address, now: int, penalty: int): int {
    if addr.nTime == 0 then st.nTime
    else if st.nTime != 0 && st.nTime + (if addr.nTime > now - 86400 then 3600 else 86400) + penalty >= addr.nTime
    then st.nTime
    else if addr.nTime >= penalty then addr.nTime - penalty else 0
  }

  /** The slot an announcement of svc by source leads to. */
  function Target(k: Placing, svc: Service, source: NetAddr): Slot {
    NewSlot(k, svc, NewBucket(k, svc, source))
  }

  /** Nobody stands in the slot but addresses that are terrible. */
  ghost predicate FreeToAll(k: Placing, v: View, s: Slot, now: int) {
    forall h :: h in v && Stands(k, v[h], s) ==> IsTerrible(v[h].stats, now)
  }

  /** Nobody stands in the slot but addresses that are terrible or have another bucket. */
  ghost predicate FreeToNewcomers(k: Placing, v: View, s: Slot, now: int) {
    forall h :: h in v && Stands(k, v[h], s) ==> IsTerrible(v[h].stats, now) || |v[h].place.buckets| > 1
  }

  /** A new address is remembered exactly if its slot is free to newcomers, with what was announced. */
  lemma NewcomerExact(k: Placing, v: View, addr: Address, source: NetAddr, penalty: int, now: int, draw: nat)
    requires Tidy(k, v) && addr.svc.ip !in v
    ensures var v' := Add(k, v, addr, true, source, penalty, now, draw);
            && (addr.svc.ip in v' <==> FreeToNewcomers(k, v, Target(k, addr.svc, source), now))
            && (addr.svc.ip in v' ==>
                  v'[addr.svc.ip]
                  == Record(Stats(addr.svc, addr.nServices, if addr.nTime >= penalty then addr.nTime - penalty else 0,
                                  source, 0, 0, 0, 0),
                            New({NewBucket(k, addr.svc, source)})))
  {
    AddOutcome(k, v, addr, source, penalty, now, draw);
  }

  /**
   A known address keeps its record but for time and services. It gains the bucket of the announcement
   exactly if it is not tried, has fewer than eight, is announced as seen later than recorded, is lucky,
   and the slot is free to all.
   */
  lemma KnownExact(k: Placing, v: View, addr: Address, source: NetAddr, penalty: int, now: int, draw: nat)
    requires Tidy(k, v) && addr.svc.ip in v
    ensures var a, v' := addr.svc.ip, Add(k, v, addr, true, source, penalty, now, draw);
            var st, b := v[a].stats, NewBucket(k, v[a].stats.svc, source);
            var seen := SeenTime(st, addr, now, penalty);
            && a in v' && v'[a].stats == st.(nTime := seen, nServices := st.nServices + addr.nServices)
            && (v'[a].place != v[a].place ==> v[a].place.New? && v'[a].place == New(v[a].place.buckets + {b}))
            && (v[a].place.New? && b !in v[a].place.buckets ==>
                  (v'[a].place != v[a].place <==>
                     && |v[a].place.buckets| < 8 && addr.nTime != 0 && (seen == 0 || addr.nTime > seen)
                     && Lucky(draw, |v[a].place.buckets|) && FreeToAll(k, v, Target(k, st.svc, source), now)))
  {
    var a, st := addr.svc.ip, v[addr.svc.ip].stats;
    var st' := RefreshedStats(st, addr, now, penalty);
    var v1 := v[a := v[a].(stats := st')];
    var b := NewBucket(k, st.svc, source);
    assert st' == st.(nTime := SeenTime(st, addr, now, penalty), nServices := st.nServices + addr.nServices);
    if v[a].place.New? {
      PutKnown(k, v, v1, a, st', source, now);
    }
  }

  lemma PutKnown(k: Placing, v: View, v1: View, a: NetAddr, st: Stats, source: NetAddr, now: int)
    requires a in v && v[a].place.New? && v[a].place.buckets != {} && st.svc == v[a].stats.svc
    requires v1 == v[a := v[a].(stats := st)]
    ensures var b, v' := NewBucket(k, st.svc, source), PutNew(k, v1, a, source, now);
            && a in v' && v'[a].stats == st
            && v'[a].place == if b !in v[a].place.buckets && FreeToAll(k, v, Target(k, st.svc, source), now)
                              then New(v[a].place.buckets + {b}) else v[a].place
  {
    var b := NewBucket(k, st.svc, source);
    var s := Target(k, st.svc, source);
    assert forall h :: h in v && h != a ==> v1[h] == v[h];
    assert Stands(k, v1[a], s) <==> b in v[a].place.buckets;
    assert v[a].place.buckets != {} ==> |v1[a].place.buckets| > 0;
    assert (exists h :: h in v1 && Stands(k, v1[h], s) && !GivesWay(v1[h], now, |v1[a].place.buckets|))
      <==> exists h :: h in v1 && Stands(k, v1[h], s) && !IsTerrible(v1[h].stats, now);
    if b in v[a].place.buckets {
      assert v[a].place.buckets + {b} == v[a].place.buckets;
    }
  }
}
