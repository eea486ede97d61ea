/**
 The parallel check queue: one master and any number of workers share a stack of checks under a
 mutex. A step of the machine is one critical section of one thread, or one check of its batch.
 Waiting threads may also wake for no reason, and condition variables are modelled by a
 `notified` mark. Shutting down with Quit is not modelled.
 */
module CheckQueue {
  import opened Numbers

  /** A check and the answer it gives when it is run. */
  datatype Check = Check(id: nat, ok: bool)

  /** Where a thread is. `Active` only occurs inside a critical section. */
  datatype Phase =
    | Out
    | Active
    | Waiting(notified: bool)
    | Holding(batch: seq<Check>, pos: nat, fOk: bool)

  /** A finished Wait: its answer, the checks added since the previous one, and those that were run. */
  datatype Session = Session(result: bool, added: multiset<Check>, ran: multiset<Check>)

  datatype State = State(
    queue: seq<Check>,
    nTodo: int,
    nTotal: int,
    nIdle: int,
    fAllOk: bool,
    nBatchSize: nat,
    threads: seq<Phase>,       // thread 0 is the master
    added: multiset<Check>,    // history of the current session
    ran: multiset<Check>,
    skipped: multiset<Check>,
    done: multiset<Check>,
    waits: seq<Session>)

  function Init(nBatchSize: nat, nWorkers: nat): State {
    State([], 0, 0, 0, true, nBatchSize, seq(nWorkers + 1, _ => Out),
          multiset{}, multiset{}, multiset{}, multiset{}, [])
  }

  // ---------- the steps ----------

  datatype Action =
    | Add(checks: seq<Check>, pick: nat)  // by the master; pick is the worker woken by notify_one
    | Enter(t: nat)                       // a worker starts, or the master calls Wait
    | Wake(t: nat)                        // return from the condition variable
    | Exec(t: nat)                        // next check of the batch
    | Finish(t: nat)                      // back in the critical section after a batch

  predicate IsThread(s: State, t: nat) {
    t < |s.threads|
  }

  /** A worker that notify_one could wake. */
  predicate Sleeping(s: State, t: nat) {
    0 < t < |s.threads| && s.threads[t] == Waiting(false)
  }

  predicate Enabled(s: State, a: Action) {
    match a
    case Add(checks, pick) =>
      && |s.threads| > 0 && s.threads[0].Out?
      && (|checks| == 1 ==> Sleeping(s, pick) || (pick == 0 && forall t :: 0 < t < |s.threads| ==> !Sleeping(s, t)))
    case Enter(t) => IsThread(s, t) && s.threads[t].Out?
    case Wake(t) => IsThread(s, t) && s.threads[t].Waiting?
    case Exec(t) => IsThread(s, t) && s.threads[t].Holding? && s.threads[t].pos < |s.threads[t].batch|
    case Finish(t) => IsThread(s, t) && s.threads[t].Holding? && s.threads[t].pos == |s.threads[t].batch|
  }

  function Step(s: State, a: Action): State
    requires Enabled(s, a)
  {
    match a
    case Add(checks, pick) => AddChecks(s, checks, pick)
    case Enter(t) => Dispatch(s.(nTotal := s.nTotal + 1, threads := s.threads[t := Active]), t)
    case Wake(t) => Dispatch(s.(nIdle := s.nIdle - 1, threads := s.threads[t := Active]), t)
    case Exec(t) => RunOne(s, t)
    case Finish(t) => Dispatch(CleanUp(s, t), t)
  }

  function AddChecks(s: State, checks: seq<Check>, pick: nat): State
    requires Enabled(s, Add(checks, pick))
  {
    s.(queue := s.queue + checks,
       nTodo := s.nTodo + |checks|,
       added := s.added + multiset(checks),
       threads := if |checks| == 1 && pick > 0 then s.threads[pick := Waiting(true)]
                  else if |checks| > 1 then NotifyWorkers(s.threads)
                  else s.threads)
  }

  function Notify(p: Phase): Phase {
    if p.Waiting? then Waiting(true) else p
  }

  function NotifyWorkers(threads: seq<Phase>): seq<Phase> {
    seq(|threads|, t requires 0 <= t < |threads| => if t == 0 then threads[0] else Notify(threads[t]))
  }

  /** What a thread does after a batch: merge its verdict, and tell the master when all is done. */
  function CleanUp(s: State, t: nat): State
    requires Enabled(s, Finish(t))
  {
    var p := s.threads[t];
    var nNow := |p.batch|;
    var nTodo := if s.nTodo >= nNow then s.nTodo - nNow else s.nTodo;
    var last := nTodo == 0 && t != 0;
    var threads := s.threads[t := Active];
    s.(fAllOk := s.fAllOk && p.fOk,
       nTodo := nTodo,
       done := s.done + multiset(p.batch),
       queue := if last then [] else s.queue,
       threads := if last then threads[0 := Notify(threads[0])] else threads)
  }

  /** The loop on an empty queue: leave, go to sleep, or take a batch off the end of the queue. */
  function Dispatch(s: State, t: nat): State
    requires IsThread(s, t)
  {
    if s.queue == [] then
      if t == 0 && s.nTodo == 0 then Return(s) else GoWait(s, t)
    else TakeBatch(s, t)
  }

  function Return(s: State): State
    requires IsThread(s, 0)
  {
    s.(nTotal := s.nTotal - 1,
       fAllOk := true,
       threads := s.threads[0 := Out],
       waits := s.waits + [Session(s.fAllOk, s.added, s.ran)],
       added := multiset{}, ran := multiset{}, skipped := multiset{}, done := multiset{})
  }

  function GoWait(s: State, t: nat): State
    requires IsThread(s, t)
  {
    s.(nIdle := s.nIdle + 1, threads := s.threads[t := Waiting(false)])
  }

  function BatchSize(s: State): nat {
    if s.nTotal + s.nIdle + 1 <= 0 then 1
    else Max(1, Min(s.nBatchSize, |s.queue| / (s.nTotal + s.nIdle + 1)))
  }

  function TakeBatch(s: State, t: nat): State
    requires IsThread(s, t) && s.queue != []
  {
    var nNow := Min(BatchSize(s), |s.queue|);
    var keep := |s.queue| - nNow;
    var batch := seq(nNow, i requires 0 <= i < nNow => s.queue[|s.queue| - 1 - i]);
    s.(queue := s.queue[..keep], threads := s.threads[t := Holding(batch, 0, s.fAllOk)])
  }

  /** Run the next check, unless a failure is already known. */
  function RunOne(s: State, t: nat): State
    requires Enabled(s, Exec(t))
  {
    var p := s.threads[t];
    var c := p.batch[p.pos];
    s.(threads := s.threads[t := Holding(p.batch, p.pos + 1, p.fOk && c.ok)],
       ran := if p.fOk then s.ran + multiset{c} else s.ran,
       skipped := if p.fOk then s.skipped else s.skipped + multiset{c})
  }

  // ---------- sums over the threads ----------

  datatype Tally = Tally(inLoop: int, idle: int, bad: int)

  function TallyOf(p: Phase): Tally {
    match p
    case Out => Tally(0, 0, 0)
    case Active => Tally(1, 0, 0)
    case Waiting(_) => Tally(1, 1, 0)
    case Holding(_, _, fOk) => Tally(1, 0, if fOk then 0 else 1)
  }

  function Sum(threads: seq<Phase>): Tally {
    if threads == [] then Tally(0, 0, 0)
    else
      var x, y := TallyOf(threads[0]), Sum(threads[1..]);
      Tally(x.inLoop + y.inLoop, x.idle + y.idle, x.bad + y.bad)
  }

  function BatchOf(p: Phase): multiset<Check> {
    if p.Holding? then multiset(p.batch) else multiset{}
  }

  function StartedOf(p: Phase): multiset<Check> {
    if p.Holding? && p.pos <= |p.batch| then multiset(p.batch[..p.pos]) else multiset{}
  }

  /** Everything that `part` finds in the threads, together. */
  function Gather(threads: seq<Phase>, part: Phase -> multiset<Check>): multiset<Check> {
    if threads == [] then multiset{} else part(threads[0]) + Gather(threads[1..], part)
  }

  function Held(threads: seq<Phase>): multiset<Check> {
    Gather(threads, BatchOf)
  }

  function Started(threads: seq<Phase>): multiset<Check> {
    Gather(threads, StartedOf)
  }

  /** Changing one thread changes the sums by that thread only. */
  lemma {:induction false} SumUpdate(threads: seq<Phase>, t: nat, p: Phase)
    requires t < |threads|
    ensures var x, y := Sum(threads), Sum(threads[t := p]);
            var o, n := TallyOf(threads[t]), TallyOf(p);
            && y.inLoop == x.inLoop - o.inLoop + n.inLoop
            && y.idle == x.idle - o.idle + n.idle
            && y.bad == x.bad - o.bad + n.bad
  {
    var after := threads[t := p];
    if t == 0 {
      assert after[1..] == threads[1..];
    } else {
      assert after[1..] == threads[1..][t - 1 := p];
      SumUpdate(threads[1..], t - 1, p);
    }
  }

  lemma {:induction false} GatherUpdate(threads: seq<Phase>, t: nat, p: Phase, part: Phase -> multiset<Check>)
    requires t < |threads|
    ensures Gather(threads[t := p], part) + part(threads[t]) == Gather(threads, part) + part(p)
  {
    var after := threads[t := p];
    if t == 0 {
      assert after[1..] == threads[1..];
      Swap(part(p), Gather(threads[1..], part), part(threads[0]));
    } else {
      assert after[1..] == threads[1..][t - 1 := p];
      GatherUpdate(threads[1..], t - 1, p, part);
      Regroup(part(threads[0]), Gather(after[1..], part), part(threads[t]), Gather(threads[1..], part), part(p));
    }
  }

  lemma Swap(x: multiset<Check>, y: multiset<Check>, z: multiset<Check>)
    ensures x + y + z == z + y + x
  {
  }

  lemma Regroup(a: multiset<Check>, h: multiset<Check>, x: multiset<Check>, h': multiset<Check>, x': multiset<Check>)
    requires h + x == h' + x'
    ensures a + h + x == a + h' + x'
  {
    assert a + h + x == a + (h + x);
    assert a + h' + x' == a + (h' + x');
  }

  /** Threads that differ only in who is notified have the same sums. */
  lemma {:induction false} SumNotify(threads: seq<Phase>, after: seq<Phase>)
    requires |after| == |threads|
    requires forall t :: 0 <= t < |threads| ==> after[t] == threads[t] || after[t] == Notify(threads[t])
    ensures Sum(after) == Sum(threads)
    ensures Held(after) == Held(threads) && Started(after) == Started(threads)
  {
    if threads != [] {
      SumNotify(threads[1..], after[1..]);
    }
  }

  lemma {:induction false} SumInit(n: nat)
    ensures Sum(seq(n, _ => Out)) == Tally(0, 0, 0)
    ensures Held(seq(n, _ => Out)) == multiset{} && Started(seq(n, _ => Out)) == multiset{}
  {
    if n > 0 {
      assert seq(n, _ => Out)[1..] == seq(n - 1, _ => Out);
      SumInit(n - 1);
    }
  }

  /** A batch in flight belongs to some thread that holds it. */
  lemma {:induction false} SomeHolder(threads: seq<Phase>) returns (t: nat)
    requires Held(threads) != multiset{}
    ensures t < |threads| && threads[t].Holding?
  {
    if threads[0].Holding? {
      t := 0;
    } else {
      t := SomeHolder(threads[1..]);
      t := t + 1;
    }
  }

  lemma {:induction false} HeldIncludes(threads: seq<Phase>, t: nat)
    requires t < |threads|
    ensures BatchOf(threads[t]) <= Held(threads)
  {
    if t > 0 {
      HeldIncludes(threads[1..], t - 1);
    }
  }

  /** Threads none of which holds a batch. */
  lemma {:induction false} NoHolders(threads: seq<Phase>)
    requires forall t :: 0 <= t < |threads| ==> !threads[t].Holding?
    ensures Sum(threads).bad == 0 && Started(threads) == multiset{} && Held(threads) == multiset{}
    ensures (forall t :: 0 <= t < |threads| ==> !threads[t].Active?) ==> Sum(threads).inLoop == Sum(threads).idle
  {
    if threads != [] {
      NoHolders(threads[1..]);
    }
  }

  lemma {:induction false} BadNonnegative(threads: seq<Phase>)
    ensures Sum(threads).bad >= 0
    ensures forall t :: 0 <= t < |threads| && threads[t].Holding? && !threads[t].fOk ==> Sum(threads).bad > 0
  {
    if threads != [] {
      BadNonnegative(threads[1..]);
    }
  }

  // ---------- the invariant ----------

  predicate Failed(ran: multiset<Check>) {
    exists c :: c in ran && !c.ok
  }

  /**
   A finished session answered true exactly when nothing it ran failed, and then it ran
   every check that was added to it; it never ran anything else.
   */
  predicate Truthful(x: Session) {
    && (x.result <==> !Failed(x.ran))
    && (x.result ==> x.ran == x.added)
    && x.ran <= x.added
  }

  /** Counters are exact. */
  predicate Counters(s: State) {
    && s.nTodo == |s.queue| + |Held(s.threads)|
    && s.nTotal == Sum(s.threads).inLoop
    && s.nIdle == Sum(s.threads).idle
  }

  /** Every check of the session is queued, in flight or done, and every one started was run or skipped. */
  predicate Conserved(s: State) {
    && s.added == multiset(s.queue) + Held(s.threads) + s.done
    && s.ran + s.skipped == s.done + Started(s.threads)
  }

  /** A failure is known, to the queue or to a thread, exactly when a check ran and failed. */
  predicate Verdict(s: State) {
    && (Failed(s.ran) <==> !s.fAllOk || Sum(s.threads).bad > 0)
    && (s.skipped != multiset{} ==> Failed(s.ran))
  }

  predicate Shapes(s: State) {
    && |s.threads| > 0
    && (forall t :: 0 <= t < |s.threads| && s.threads[t].Holding? ==>
          s.threads[t].batch != [] && s.threads[t].pos <= |s.threads[t].batch|)
    && (s.threads[0].Waiting? ==> s.queue == [])
    && (s.threads[0] == Waiting(false) ==> s.nTodo > 0)
  }

  predicate AllTruthful(waits: seq<Session>) {
    forall i :: 0 <= i < |waits| ==> Truthful(waits[i])
  }

  predicate Inv(s: State) {
    Shapes(s) && Counters(s) && Conserved(s) && Verdict(s) && AllTruthful(s.waits)
  }

  /** No thread is inside a critical section. */
  predicate Released(s: State) {
    forall t :: 0 <= t < |s.threads| ==> !s.threads[t].Active?
  }

  // ---------- preservation ----------

  lemma InitInv(nBatchSize: nat, nWorkers: nat)
    ensures Inv(Init(nBatchSize, nWorkers)) && Released(Init(nBatchSize, nWorkers))
  {
    SumInit(nWorkers + 1);
  }

  /** Replacing a phase that holds nothing by another that holds nothing leaves the multisets alone. */
  lemma GatherSame(threads: seq<Phase>, t: nat, p: Phase)
    requires t < |threads| && !threads[t].Holding? && !p.Holding?
    ensures Held(threads[t := p]) == Held(threads) && Started(threads[t := p]) == Started(threads)
  {
    GatherUpdate(threads, t, p, BatchOf);
    GatherUpdate(threads, t, p, StartedOf);
    NoChange(Held(threads[t := p]), Held(threads));
    NoChange(Started(threads[t := p]), Started(threads));
  }

  lemma NoChange(x: multiset<Check>, y: multiset<Check>)
    requires x + multiset{} == y + multiset{}
    ensures x == y
  {
    assert x + multiset{} == x && y + multiset{} == y;
  }

  lemma ActivateInv(s: State, t: nat)
    requires Inv(s) && IsThread(s, t)
    ensures s.threads[t].Out? ==> Inv(s.(nTotal := s.nTotal + 1, threads := s.threads[t := Active]))
    ensures s.threads[t].Waiting? ==> Inv(s.(nIdle := s.nIdle - 1, threads := s.threads[t := Active]))
  {
    if !s.threads[t].Holding? {
      SumUpdate(s.threads, t, Active);
      GatherSame(s.threads, t, Active);
    }
  }

  lemma GoWaitInv(s: State, t: nat)
    requires Inv(s) && IsThread(s, t) && s.threads[t].Active? && s.queue == []
    requires t == 0 ==> s.nTodo != 0
    ensures Inv(GoWait(s, t))
  {
    SumUpdate(s.threads, t, Waiting(false));
    GatherSame(s.threads, t, Waiting(false));
  }

  /** When nothing is left to do the books are closed: nothing is in flight. */
  lemma NothingInFlight(s: State)
    requires Shapes(s) && Counters(s) && s.nTodo == 0
    ensures s.queue == [] && Held(s.threads) == multiset{} && Started(s.threads) == multiset{}
    ensures Sum(s.threads).bad == 0
    ensures forall t :: 0 <= t < |s.threads| ==> !s.threads[t].Holding?
  {
    forall t | 0 <= t < |s.threads|
      ensures !s.threads[t].Holding?
    {
      HeldIncludes(s.threads, t);
    }
    NoHolders(s.threads);
  }

  lemma ReturnTruthful(s: State)
    requires Inv(s) && s.nTodo == 0
    ensures Truthful(Session(s.fAllOk, s.added, s.ran))
  {
    NothingInFlight(s);
    Closing(s.added, s.ran, s.skipped, s.done);
  }

  lemma Closing(added: multiset<Check>, ran: multiset<Check>, skipped: multiset<Check>, done: multiset<Check>)
    requires added == multiset([]) + multiset{} + done
    requires ran + skipped == done + multiset{}
    ensures ran <= added && (skipped == multiset{} ==> ran == added)
  {
    assert added == done;
    assert ran + skipped == done;
    if skipped == multiset{} {
      assert ran + skipped == ran;
    }
  }

  lemma ReturnInv(s: State)
    requires Inv(s) && s.threads[0].Active? && s.nTodo == 0
    ensures Inv(Return(s))
  {
    ReturnTruthful(s);
    NothingInFlight(s);
    SumUpdate(s.threads, 0, Out);
    GatherSame(s.threads, 0, Out);
  }

  lemma BatchSplits(queue: seq<Check>, n: nat, batch: seq<Check>)
    requires n <= |queue|
    requires batch == seq(n, i requires 0 <= i < n => queue[|queue| - 1 - i])
    ensures multiset(queue) == multiset(queue[..|queue| - n]) + multiset(batch)
    decreases n
  {
    if n == 0 {
      assert queue[..|queue|] == queue;
    } else {
      var front, c := queue[..|queue| - 1], queue[|queue| - 1];
      assert queue == front + [c];
      var rest := seq(n - 1, i requires 0 <= i < n - 1 => front[|front| - 1 - i]);
      assert batch == [c] + rest;
      BatchSplits(front, n - 1, rest);
      assert queue[..|queue| - n] == front[..|front| - (n - 1)];
    }
  }

  lemma Handover(added: multiset<Check>, q: multiset<Check>, q': multiset<Check>, b: multiset<Check>,
                 h: multiset<Check>, h': multiset<Check>, done: multiset<Check>)
    requires added == q + h + done && q == q' + b && h' + multiset{} == h + b
    ensures added == q' + h' + done && |h'| == |h| + |b|
  {
    NoChange(h', h + b);
    assert q' + b + h == q' + (h + b);
  }

  /** A batch moves from the end of the queue, last check first, to a thread that has not started on it. */
  lemma TakeBatchParts(s: State, t: nat)
    requires IsThread(s, t) && s.queue != []
    ensures |TakeBatch(s, t).threads| == |s.threads|
    ensures var s' := TakeBatch(s, t);
            var p := s'.threads[t];
            && p.Holding? && p.pos == 0 && s' == s.(queue := s'.queue, threads := s.threads[t := p])
            && multiset(s.queue) == multiset(s'.queue) + BatchOf(p) && |s.queue| == |s'.queue| + |BatchOf(p)|
            && s'.queue <= s.queue && forall i :: 0 <= i < |p.batch| ==> p.batch[i] == s.queue[|s.queue| - 1 - i]
  {
    var p := TakeBatch(s, t).threads[t];
    BatchSplits(s.queue, |p.batch|, p.batch);
  }

  lemma TakeBatchHeld(s: State, t: nat)
    requires Conserved(s) && IsThread(s, t) && s.threads[t].Active? && s.queue != []
    ensures Conserved(TakeBatch(s, t))
    ensures |Held(TakeBatch(s, t).threads)| + |TakeBatch(s, t).queue| == |Held(s.threads)| + |s.queue|
  {
    hide TakeBatch;
    hide Gather;
    TakeBatchParts(s, t);
    var s' := TakeBatch(s, t);
    var p := s'.threads[t];
    GatherUpdate(s.threads, t, p, BatchOf);
    StartedNone(s.threads, t, p);
    Handover(s.added, multiset(s.queue), multiset(s'.queue), BatchOf(p), Held(s.threads), Held(s'.threads), s.done);
  }

  lemma StartedNone(threads: seq<Phase>, t: nat, p: Phase)
    requires t < |threads| && threads[t].Active? && p.Holding? && p.pos == 0
    ensures Started(threads[t := p]) == Started(threads)
  {
    assert p.batch[..0] == [];
    GatherUpdate(threads, t, p, StartedOf);
    NoChange(Started(threads[t := p]), Started(threads));
  }

  lemma TakeBatchInv(s: State, t: nat)
    requires Inv(s) && IsThread(s, t) && s.threads[t].Active? && s.queue != []
    ensures Inv(TakeBatch(s, t))
  {
    TakeBatchHeld(s, t);
    SumUpdate(s.threads, t, TakeBatch(s, t).threads[t]);
    BadNonnegative(s.threads);
  }

  lemma DispatchInv(s: State, t: nat)
    requires Inv(s) && IsThread(s, t) && s.threads[t].Active?
    ensures Inv(Dispatch(s, t))
  {
    if s.queue != [] {
      TakeBatchInv(s, t);
    } else if t == 0 && s.nTodo == 0 {
      ReturnInv(s);
    } else {
      GoWaitInv(s, t);
    }
  }

  lemma OneMore(h: multiset<Check>, h': multiset<Check>, b: multiset<Check>, b': multiset<Check>, c: Check,
                ran: multiset<Check>, skipped: multiset<Check>, done: multiset<Check>)
    requires b' == b + multiset{c} && h' + b == h + b' && ran + skipped == done + h
    ensures (ran + multiset{c}) + skipped == done + h' && ran + (skipped + multiset{c}) == done + h'
  {
    assert h + b' == (h + multiset{c}) + b;
    SameAddend(h', h + multiset{c}, b);
    assert (ran + multiset{c}) + skipped == (ran + skipped) + multiset{c};
    assert ran + (skipped + multiset{c}) == (ran + skipped) + multiset{c};
    assert (done + h) + multiset{c} == done + (h + multiset{c});
  }

  lemma RunOneHeld(s: State, t: nat)
    requires Conserved(s) && Enabled(s, Exec(t))
    ensures Conserved(RunOne(s, t)) && Held(RunOne(s, t).threads) == Held(s.threads)
  {
    var p, s' := s.threads[t], RunOne(s, t);
    var p', c := s'.threads[t], p.batch[p.pos];
    assert p.batch[..p.pos + 1] == p.batch[..p.pos] + [c];
    GatherUpdate(s.threads, t, p', BatchOf);
    SameAddend(Held(s'.threads), Held(s.threads), multiset(p.batch));
    GatherUpdate(s.threads, t, p', StartedOf);
    OneMore(Started(s.threads), Started(s'.threads), StartedOf(p), StartedOf(p'), c, s.ran, s.skipped, s.done);
  }

  lemma SameAddend(x: multiset<Check>, y: multiset<Check>, z: multiset<Check>)
    requires x + z == y + z
    ensures x == y
  {
    forall c
      ensures x[c] == y[c]
    {
      assert (x + z)[c] == (y + z)[c];
    }
  }

  lemma RunOneVerdict(s: State, t: nat)
    requires Verdict(s) && Enabled(s, Exec(t))
    ensures Verdict(RunOne(s, t))
  {
    var p, s' := s.threads[t], RunOne(s, t);
    var c := p.batch[p.pos];
    SumUpdate(s.threads, t, s'.threads[t]);
    BadNonnegative(s.threads);
    assert forall d :: d in s'.ran <==> d in s.ran || (p.fOk && d == c);
  }

  lemma RunOneCounters(s: State, t: nat)
    requires Shapes(s) && Counters(s) && Enabled(s, Exec(t))
    requires Held(RunOne(s, t).threads) == Held(s.threads)
    ensures Shapes(RunOne(s, t)) && Counters(RunOne(s, t))
  {
    SumUpdate(s.threads, t, RunOne(s, t).threads[t]);
  }

  lemma RunOneInv(s: State, t: nat)
    requires Inv(s) && Enabled(s, Exec(t))
    ensures Inv(RunOne(s, t))
  {
    RunOneHeld(s, t);
    RunOneVerdict(s, t);
    RunOneCounters(s, t);
  }

  lemma Settle(added: multiset<Check>, q: multiset<Check>, h: multiset<Check>, h': multiset<Check>, b: multiset<Check>,
               done: multiset<Check>)
    requires added == q + h + done && h' + b == h
    ensures added == q + h' + (done + b) && |h'| == |h| - |b|
  {
  }

  lemma CleanUpHeld(s: State, t: nat)
    requires Conserved(s) && Enabled(s, Finish(t))
    ensures var p, mid := s.threads[t], s.threads[t := Active];
            && s.added == multiset(s.queue) + Held(mid) + (s.done + multiset(p.batch))
            && s.ran + s.skipped == (s.done + multiset(p.batch)) + Started(mid)
            && |Held(mid)| == |Held(s.threads)| - |p.batch|
  {
    var p, mid := s.threads[t], s.threads[t := Active];
    assert p.batch[..|p.batch|] == p.batch;
    GatherUpdate(s.threads, t, Active, BatchOf);
    GatherUpdate(s.threads, t, Active, StartedOf);
    NoChange(Held(mid) + multiset(p.batch), Held(s.threads));
    NoChange(Started(mid) + multiset(p.batch), Started(s.threads));
    Settle(s.added, multiset(s.queue), Held(s.threads), Held(mid), multiset(p.batch), s.done);
  }

  lemma CleanUpShapes(s: State, t: nat)
    requires Shapes(s) && Enabled(s, Finish(t))
    requires s.nTodo >= |s.threads[t].batch| && (s.nTodo == |s.threads[t].batch| ==> s.queue == [])
    ensures Shapes(CleanUp(s, t)) && CleanUp(s, t).threads[t].Active?
  {
    var s' := CleanUp(s, t);
    assert forall u :: 0 <= u < |s.threads| && s'.threads[u].Holding? ==> s'.threads[u] == s.threads[u];
  }

  lemma CleanUpInv(s: State, t: nat)
    requires Inv(s) && Enabled(s, Finish(t))
    ensures Inv(CleanUp(s, t)) && CleanUp(s, t).threads[t].Active?
  {
    var mid, s' := s.threads[t := Active], CleanUp(s, t);
    CleanUpHeld(s, t);
    CleanUpShapes(s, t);
    SumUpdate(s.threads, t, Active);
    BadNonnegative(mid);
    SumNotify(mid, s'.threads);
  }

  lemma AddInv(s: State, checks: seq<Check>, pick: nat)
    requires Inv(s) && Enabled(s, Add(checks, pick))
    ensures Inv(AddChecks(s, checks, pick))
  {
    SumNotify(s.threads, AddChecks(s, checks, pick).threads);
  }

  lemma StepInv(s: State, a: Action)
    requires Inv(s) && Released(s) && Enabled(s, a)
    ensures Inv(Step(s, a))
  {
    match a
    case Add(checks, pick) => AddInv(s, checks, pick);
    case Enter(t) => EnterInv(s, t);
    case Wake(t) => WakeInv(s, t);
    case Exec(t) => RunOneInv(s, t);
    case Finish(t) => FinishInv(s, t);
  }

  predicate ReleasedBut(s: State, t: nat) {
    forall u :: 0 <= u < |s.threads| && u != t ==> !s.threads[u].Active?
  }

  lemma DispatchReleased(s: State, t: nat)
    requires IsThread(s, t) && ReleasedBut(s, t)
    ensures Released(Dispatch(s, t))
  {
    if s.queue != [] {
      assert Dispatch(s, t).threads[t].Holding?;
    } else if t == 0 && s.nTodo == 0 {
      assert Dispatch(s, t).threads[0].Out?;
    } else {
      assert Dispatch(s, t).threads[t].Waiting?;
    }
  }

  lemma StepReleased(s: State, a: Action)
    requires Released(s) && Enabled(s, a)
    ensures Released(Step(s, a))
  {
    match a
    case Add(checks, pick) => AddReleased(s, checks, pick);
    case Exec(t) => RunReleased(s, t);
    case Enter(t) => DispatchReleased(s.(nTotal := s.nTotal + 1, threads := s.threads[t := Active]), t);
    case Wake(t) => DispatchReleased(s.(nIdle := s.nIdle - 1, threads := s.threads[t := Active]), t);
    case Finish(t) => CleanUpReleased(s, t); DispatchReleased(CleanUp(s, t), t);
  }

  lemma AddReleased(s: State, checks: seq<Check>, pick: nat)
    requires Released(s) && Enabled(s, Add(checks, pick))
    ensures Released(AddChecks(s, checks, pick))
  {
  }

  lemma RunReleased(s: State, t: nat)
    requires Released(s) && Enabled(s, Exec(t))
    ensures Released(RunOne(s, t))
  {
  }

  lemma CleanUpReleased(s: State, t: nat)
    requires Released(s) && Enabled(s, Finish(t))
    ensures ReleasedBut(CleanUp(s, t), t) && IsThread(CleanUp(s, t), t)
  {
  }

  lemma EnterInv(s: State, t: nat)
    requires Inv(s) && Enabled(s, Enter(t))
    ensures Inv(Step(s, Enter(t)))
  {
    ActivateInv(s, t);
    DispatchInv(s.(nTotal := s.nTotal + 1, threads := s.threads[t := Active]), t);
  }

  lemma WakeInv(s: State, t: nat)
    requires Inv(s) && Enabled(s, Wake(t))
    ensures Inv(Step(s, Wake(t)))
  {
    ActivateInv(s, t);
    DispatchInv(s.(nIdle := s.nIdle - 1, threads := s.threads[t := Active]), t);
  }

  lemma FinishInv(s: State, t: nat)
    requires Inv(s) && Enabled(s, Finish(t))
    ensures Inv(Step(s, Finish(t)))
  {
    CleanUpInv(s, t);
    DispatchInv(CleanUp(s, t), t);
  }

  // ---------- whole runs ----------

  /** Every action is enabled when its turn comes. */
  predicate IsRun(s: State, actions: seq<Action>)
    decreases |actions|
  {
    actions == [] || (Enabled(s, actions[0]) && IsRun(Step(s, actions[0]), actions[1..]))
  }

  function After(s: State, actions: seq<Action>): State
    requires IsRun(s, actions)
    decreases |actions|
  {
    if actions == [] then s else After(Step(s, actions[0]), actions[1..])
  }

  lemma {:induction false} RunInv(s: State, actions: seq<Action>)
    requires Inv(s) && Released(s) && IsRun(s, actions)
    ensures Inv(After(s, actions)) && Released(After(s, actions))
    decreases |actions|
  {
    if actions != [] {
      StepInv(s, actions[0]);
      StepReleased(s, actions[0]);
      RunInv(Step(s, actions[0]), actions[1..]);
    }
  }

  /** Every run from the start keeps the invariant: all interleavings, any number of workers. */
  lemma ReachableInv(nBatchSize: nat, nWorkers: nat, actions: seq<Action>)
    requires IsRun(Init(nBatchSize, nWorkers), actions)
    ensures Inv(After(Init(nBatchSize, nWorkers), actions)) && Released(After(Init(nBatchSize, nWorkers), actions))
  {
    InitInv(nBatchSize, nWorkers);
    RunInv(Init(nBatchSize, nWorkers), actions);
  }

  lemma {:induction false} SumNotNegative(threads: seq<Phase>)
    ensures Sum(threads).inLoop >= 0 && Sum(threads).idle >= 0
  {
    if threads != [] {
      SumNotNegative(threads[1..]);
    }
  }

  /** The divisor is positive and a batch never exceeds the queue. */
  lemma BatchSizeExact(s: State)
    requires Inv(s) && s.queue != []
    ensures s.nTotal + s.nIdle + 1 > 0
    ensures BatchSize(s) == Max(1, Min(s.nBatchSize, |s.queue| / (s.nTotal + s.nIdle + 1)))
    ensures 1 <= BatchSize(s) <= |s.queue|
  {
    SumNotNegative(s.threads);
    QuotientBelow(|s.queue|, s.nTotal + s.nIdle + 1);
  }

  lemma QuotientBelow(n: nat, d: nat)
    requires d > 0
    ensures n / d <= n
  {
    if n / d > n { MulMonotone(n / d, 1, d); }
  }

  predicate IsIdle(s: State) {
    s.nTotal == s.nIdle && s.nTodo == 0 && s.fAllOk
  }

  /**
   Whenever the master is outside Wait and has added nothing yet, the queue is idle: the
   controller's assertion cannot fail, whatever the workers have been doing.
   */
  lemma IdleBetweenSessions(nBatchSize: nat, nWorkers: nat, actions: seq<Action>)
    requires IsRun(Init(nBatchSize, nWorkers), actions)
    ensures var s := After(Init(nBatchSize, nWorkers), actions);
            s.added == multiset{} ==> IsIdle(s)
  {
    ReachableInv(nBatchSize, nWorkers, actions);
    var s := After(Init(nBatchSize, nWorkers), actions);
    if s.added == multiset{} {
      EmptySession(s);
    }
  }

  lemma EmptySession(s: State)
    requires Inv(s) && Released(s) && s.added == multiset{}
    ensures IsIdle(s)
  {
    assert multiset(s.queue) <= s.added && Held(s.threads) <= s.added && s.done <= s.added;
    assert |s.queue| == |multiset(s.queue)|;
    NothingInFlight(s);
    NoHolders(s.threads);
    assert s.ran <= s.ran + s.skipped;
  }

  /** Threads of the loop that are not asleep are exactly those holding a batch, at every lock release. */
  ghost function Holders(threads: seq<Phase>): nat {
    if threads == [] then 0 else (if threads[0].Holding? then 1 else 0) + Holders(threads[1..])
  }

  lemma {:induction false} HoldersCount(threads: seq<Phase>)
    requires forall t :: 0 <= t < |threads| ==> !threads[t].Active?
    ensures Sum(threads).inLoop - Sum(threads).idle == Holders(threads)
  {
    if threads != [] {
      HoldersCount(threads[1..]);
    }
  }

  lemma BusyThreads(nBatchSize: nat, nWorkers: nat, actions: seq<Action>)
    requires IsRun(Init(nBatchSize, nWorkers), actions)
    ensures var s := After(Init(nBatchSize, nWorkers), actions);
            s.nTotal - s.nIdle == Holders(s.threads)
  {
    ReachableInv(nBatchSize, nWorkers, actions);
    HoldersCount(After(Init(nBatchSize, nWorkers), actions).threads);
  }

  // ---------- progress of Wait ----------

  /** The master is inside Wait. */
  predicate InWait(s: State) {
    |s.threads| > 0 && !s.threads[0].Out?
  }

  /** Steps that are neither new work nor a wake-up for no reason. */
  predicate Proper(s: State, a: Action) {
    Enabled(s, a) && !a.Add? && (a.Wake? ==> s.threads[a.t].notified)
  }

  /**
   A master inside Wait can never be stuck: some proper step is enabled. In particular a master
   asleep with nothing left to do has a notification pending.
   */
  lemma NoDeadlock(s: State) returns (a: Action)
    requires Inv(s) && Released(s) && InWait(s)
    ensures Proper(s, a)
    ensures s.threads[0].Waiting? && s.nTodo == 0 ==> a == Wake(0)
  {
    if s.threads[0].Waiting? && s.threads[0].notified {
      a := Wake(0);
    } else {
      var t := 0;
      if s.threads[0].Waiting? {
        assert Held(s.threads) != multiset{};
        t := SomeHolder(s.threads);
      }
      a := if s.threads[t].pos < |s.threads[t].batch| then Exec(t) else Finish(t);
    }
  }

  function Rank(p: Phase): nat {
    match p
    case Out => 1
    case Active => 0
    case Waiting(notified) => if notified then 1 else 0
    case Holding(batch, pos, _) => if pos <= |batch| then 4 * |batch| - pos else 0
  }

  function RankSum(threads: seq<Phase>): nat {
    if threads == [] then 0 else Rank(threads[0]) + RankSum(threads[1..])
  }

  function Work(s: State): nat {
    5 * |s.queue| + RankSum(s.threads)
  }

  lemma {:induction false} RankUpdate(threads: seq<Phase>, t: nat, p: Phase)
    requires t < |threads|
    ensures RankSum(threads[t := p]) == RankSum(threads) - Rank(threads[t]) + Rank(p)
  {
    var after := threads[t := p];
    if t == 0 {
      assert after[1..] == threads[1..];
    } else {
      assert after[1..] == threads[1..][t - 1 := p];
      RankUpdate(threads[1..], t - 1, p);
    }
  }

  lemma DispatchWork(s: State, t: nat)
    requires IsThread(s, t) && s.threads[t].Active?
    requires !(s.queue == [] && t == 0 && s.nTodo == 0)
    ensures Work(Dispatch(s, t)) <= Work(s)
  {
    RankUpdate(s.threads, t, Dispatch(s, t).threads[t]);
  }

  lemma CleanUpWork(s: State, t: nat)
    requires Inv(s) && Enabled(s, Finish(t))
    ensures Work(CleanUp(s, t)) < Work(s)
  {
    var mid := s.threads[t := Active];
    RankUpdate(s.threads, t, Active);
    RankUpdate(mid, 0, Notify(mid[0]));
  }

  lemma EnterWork(s: State, t: nat)
    requires Inv(s) && InWait(s) && Enabled(s, Enter(t))
    ensures Work(Step(s, Enter(t))) < Work(s)
  {
    RankUpdate(s.threads, t, Active);
    DispatchWork(s.(nTotal := s.nTotal + 1, threads := s.threads[t := Active]), t);
  }

  lemma WakeWork(s: State, t: nat)
    requires Inv(s) && Proper(s, Wake(t)) && InWait(Step(s, Wake(t)))
    ensures Work(Step(s, Wake(t))) < Work(s)
  {
    var s' := s.(nIdle := s.nIdle - 1, threads := s.threads[t := Active]);
    RankUpdate(s.threads, t, Active);
    DispatchWork(s', t);
  }

  lemma FinishWork(s: State, t: nat)
    requires Inv(s) && Enabled(s, Finish(t)) && InWait(Step(s, Finish(t)))
    ensures Work(Step(s, Finish(t))) < Work(s)
  {
    CleanUpInv(s, t);
    CleanUpWork(s, t);
    DispatchWork(CleanUp(s, t), t);
  }

  /** While the master stays inside Wait, every proper step uses up work. */
  lemma StepWork(s: State, a: Action)
    requires Inv(s) && Released(s) && Proper(s, a) && InWait(s) && InWait(Step(s, a))
    ensures Work(Step(s, a)) < Work(s)
  {
    match a
    case Enter(t) => EnterWork(s, t);
    case Wake(t) => WakeWork(s, t);
    case Exec(t) => RankUpdate(s.threads, t, RunOne(s, t).threads[t]);
    case Finish(t) => FinishWork(s, t);
  }

  /** Every action is a proper step, and the master is inside Wait all along. */
  predicate IsWaitRun(s: State, actions: seq<Action>)
    decreases |actions|
  {
    && InWait(s)
    && (actions == [] || (Proper(s, actions[0]) && IsWaitRun(Step(s, actions[0]), actions[1..])))
  }

  /** Wait terminates: it cannot outlast the work there was when it was called. */
  lemma {:induction false} WaitTerminates(s: State, actions: seq<Action>)
    requires Inv(s) && Released(s) && IsWaitRun(s, actions)
    ensures |actions| <= Work(s)
    decreases |actions|
  {
    if actions != [] {
      StepInv(s, actions[0]);
      StepReleased(s, actions[0]);
      StepWork(s, actions[0]);
      WaitTerminates(Step(s, actions[0]), actions[1..]);
    }
  }
}
