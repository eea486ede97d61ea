/**
 What callers of the check queue can rely on over whole runs, in terms of what they do: the checks they
 hand over, the answers they get, how much is still run after a failure, and that no worker is left
 asleep while there is work for it.
 */
module CheckRuns {
  import opened CheckQueue

  // ---------- what was handed over before each Wait ----------

  /** The checks handed over before each finished Wait and since the one before it, and those since the last one. */
  datatype Ledger = Ledger(closed: seq<multiset<Check>>, open: multiset<Check>)

  /** The master ends a critical section of the loop outside it: its Wait returns. */
  predicate Returns(s: State, a: Action)
    requires Enabled(s, a)
  {
    (a.Enter? || a.Wake? || a.Finish?) && a.t == 0 && |Step(s, a).threads| > 0 && Step(s, a).threads[0].Out?
  }

  ghost function Entered(l: Ledger, a: Action, returned: bool): Ledger {
    var open := if a.Add? then l.open + multiset(a.checks) else l.open;
    if returned then Ledger(l.closed + [open], multiset{}) else Ledger(l.closed, open)
  }

  /** The ledger kept by somebody who watches the actions of a run. */
  ghost function Watched(l: Ledger, s: State, actions: seq<Action>): Ledger
    requires IsRun(s, actions)
    decreases |actions|
  {
    if actions == [] then l
    else Watched(Entered(l, actions[0], Returns(s, actions[0])), Step(s, actions[0]), actions[1..])
  }

  ghost predicate Agrees(s: State, l: Ledger) {
    && |s.waits| == |l.closed| && (forall i :: 0 <= i < |s.waits| ==> s.waits[i].added == l.closed[i])
    && s.added == l.open
  }

  /** A thread's critical section ends a session exactly when it is the master that leaves the loop. */
  lemma DispatchBooks(s: State, t: nat)
    requires IsThread(s, t)
    ensures var s' := Dispatch(s, t);
            && |s'.threads| == |s.threads|
            && if t == 0 && s'.threads[0].Out?
               then s'.waits == s.waits + [Session(s.fAllOk, s.added, s.ran)] && s'.added == multiset{}
               else s'.waits == s.waits && s'.added == s.added
  {
    hide BatchSize;
  }

  lemma StepAgrees(s: State, a: Action, l: Ledger)
    requires |s.threads| > 0 && Enabled(s, a) && Agrees(s, l)
    ensures |Step(s, a).threads| > 0 && Agrees(Step(s, a), Entered(l, a, Returns(s, a)))
  {
    hide Dispatch;
    hide Agrees;
    hide Entered;
    hide AddChecks;
    hide RunOne;
    hide CleanUp;
    match a
    case Add(checks, pick) => AddAgrees(s, checks, pick, l);
    case Enter(t) => SectionAgrees(s, s.(nTotal := s.nTotal + 1, threads := s.threads[t := Active]), t, a, l);
    case Wake(t) => SectionAgrees(s, s.(nIdle := s.nIdle - 1, threads := s.threads[t := Active]), t, a, l);
    case Exec(t) => ExecAgrees(s, t, l);
    case Finish(t) =>
      CleanUpBooks(s, t);
      SectionAgrees(s, CleanUp(s, t), t, a, l);
  }

  lemma AddAgrees(s: State, checks: seq<Check>, pick: nat, l: Ledger)
    requires |s.threads| > 0 && Enabled(s, Add(checks, pick)) && Agrees(s, l)
    ensures |AddChecks(s, checks, pick).threads| > 0
    ensures Agrees(AddChecks(s, checks, pick), Entered(l, Add(checks, pick), false))
  {
  }

  lemma ExecAgrees(s: State, t: nat, l: Ledger)
    requires |s.threads| > 0 && Enabled(s, Exec(t)) && Agrees(s, l)
    ensures |RunOne(s, t).threads| > 0 && Agrees(RunOne(s, t), Entered(l, Exec(t), false))
  {
  }

  lemma CleanUpBooks(s: State, t: nat)
    requires Enabled(s, Finish(t))
    ensures var c := CleanUp(s, t);
            |c.threads| == |s.threads| && c.waits == s.waits && c.added == s.added && IsThread(c, t)
  {
  }

  /** After a critical section that began by changing neither the answers nor what was handed over. */
  lemma SectionAgrees(s: State, mid: State, t: nat, a: Action, l: Ledger)
    requires |mid.threads| == |s.threads| > 0 && mid.waits == s.waits && mid.added == s.added
    requires IsThread(mid, t) && Agrees(s, l) && !a.Add?
    ensures var s' := Dispatch(mid, t);
            |s'.threads| > 0 && Agrees(s', Entered(l, a, t == 0 && s'.threads[0].Out?))
  {
    hide Dispatch;
    DispatchBooks(mid, t);
  }

  lemma {:induction false} RunAgrees(s: State, actions: seq<Action>, l: Ledger)
    requires |s.threads| > 0 && IsRun(s, actions) && Agrees(s, l)
    ensures Agrees(After(s, actions), Watched(l, s, actions))
    decreases |actions|
  {
    if actions != [] {
      StepAgrees(s, actions[0], l);
      RunAgrees(Step(s, actions[0]), actions[1..], Entered(l, actions[0], Returns(s, actions[0])));
    }
  }

  predicate AllOk(checks: multiset<Check>) {
    forall c :: c in checks ==> c.ok
  }

  /**
   In every run each finished Wait answered true exactly when all checks handed over since the previous
   one are good, and then it ran each of them; what it ran was always handed over before.
   */
  lemma WaitAnswers(nBatchSize: nat, nWorkers: nat, actions: seq<Action>)
    requires IsRun(Init(nBatchSize, nWorkers), actions)
    ensures var waits := After(Init(nBatchSize, nWorkers), actions).waits;
            var given := Watched(Ledger([], multiset{}), Init(nBatchSize, nWorkers), actions).closed;
            && |waits| == |given|
            && forall i :: 0 <= i < |waits| ==>
                 && (waits[i].result <==> AllOk(given[i]))
                 && (waits[i].result ==> waits[i].ran == given[i])
                 && (!waits[i].result ==> exists c :: c in waits[i].ran && c in given[i] && !c.ok)
                 && waits[i].ran <= given[i]
  {
    var s := Init(nBatchSize, nWorkers);
    ReachableInv(nBatchSize, nWorkers, actions);
    RunAgrees(s, actions, Ledger([], multiset{}));
    var waits := After(s, actions).waits;
    forall i | 0 <= i < |waits|
      ensures waits[i].result <==> AllOk(waits[i].added)
      ensures !waits[i].result ==> exists c :: c in waits[i].ran && c in waits[i].added && !c.ok
    {
      assert Truthful(waits[i]);
      assert forall c :: c in waits[i].ran ==> c in waits[i].added;
    }
  }

  /** Nothing handed over is forgotten: what is neither queued, in a batch nor finished was answered for. */
  lemma NothingForgotten(nBatchSize: nat, nWorkers: nat, actions: seq<Action>)
    requires IsRun(Init(nBatchSize, nWorkers), actions)
    ensures var s := After(Init(nBatchSize, nWorkers), actions);
            var open := Watched(Ledger([], multiset{}), Init(nBatchSize, nWorkers), actions).open;
            open == multiset(s.queue) + Held(s.threads) + s.done && s.ran + s.skipped == s.done + Started(s.threads)
  {
    ReachableInv(nBatchSize, nWorkers, actions);
    RunAgrees(Init(nBatchSize, nWorkers), actions, Ledger([], multiset{}));
  }

  /** The queue is a stack: what was added last is taken first. */
  lemma LastInFirstOut(s: State, checks: seq<Check>, pick: nat, t: nat)
    requires Enabled(s, Add(checks, pick)) && IsThread(s, t) && checks != []
    ensures var a := AddChecks(s, checks, pick);
            && a.queue != [] && IsThread(a, t) && t < |TakeBatch(a, t).threads|
            && var p := TakeBatch(a, t).threads[t];
               p.Holding? && p.batch != [] && p.batch[0] == checks[|checks| - 1]
  {
    hide BatchSize;
    TakeBatchParts(AddChecks(s, checks, pick), t);
    BatchPositive(AddChecks(s, checks, pick));
  }

  lemma BatchPositive(s: State)
    ensures BatchSize(s) >= 1
  {
  }

  // ---------- after a failure ----------

  /** What a thread will still run of its batch if all goes well. */
  function ToRunOf(p: Phase): multiset<Check> {
    if p.Holding? && p.pos <= |p.batch| && p.fOk then multiset(p.batch[p.pos..]) else multiset{}
  }

  function ToRun(threads: seq<Phase>): multiset<Check> {
    Gather(threads, ToRunOf)
  }

  lemma ToRunUpdate(threads: seq<Phase>, t: nat, p: Phase)
    requires t < |threads|
    ensures ToRun(threads[t := p]) + ToRunOf(threads[t]) == ToRun(threads) + ToRunOf(p)
  {
    GatherUpdate(threads, t, p, ToRunOf);
  }

  lemma {:induction false} ToRunNotify(threads: seq<Phase>, after: seq<Phase>)
    requires |after| == |threads|
    requires forall t :: 0 <= t < |threads| ==> after[t] == threads[t] || after[t] == Notify(threads[t])
    ensures ToRun(after) == ToRun(threads)
  {
    if threads != [] {
      ToRunNotify(threads[1..], after[1..]);
    }
  }

  lemma NotMore(r: multiset<Check>, x: multiset<Check>, y: multiset<Check>, o: multiset<Check>, n: multiset<Check>)
    requires x + o == y + n && n <= o
    ensures r + x <= r + y
  {
    forall c
      ensures x[c] <= y[c]
    {
      assert (x + o)[c] == (y + n)[c];
    }
  }

  lemma RunOneToRun(s: State, t: nat)
    requires Enabled(s, Exec(t))
    ensures RunOne(s, t).ran + ToRun(RunOne(s, t).threads) <= s.ran + ToRun(s.threads)
    ensures RunOne(s, t).fAllOk == s.fAllOk
  {
    var p, s' := s.threads[t], RunOne(s, t);
    var p', c := s'.threads[t], p.batch[p.pos];
    ToRunUpdate(s.threads, t, p');
    assert p.batch[p.pos..] == [c] + p.batch[p.pos + 1..];
    forall d
      ensures (s'.ran + ToRun(s'.threads))[d] <= (s.ran + ToRun(s.threads))[d]
    {
      assert (ToRun(s'.threads) + ToRunOf(p))[d] == (ToRun(s.threads) + ToRunOf(p'))[d];
      assert p.fOk ==> multiset(p.batch[p.pos..])[d] == multiset{c}[d] + multiset(p.batch[p.pos + 1..])[d];
    }
  }

  lemma IdleToRun(s: State, t: nat, p: Phase)
    requires IsThread(s, t) && ToRunOf(p) == multiset{}
    ensures s.ran + ToRun(s.threads[t := p]) <= s.ran + ToRun(s.threads)
  {
    ToRunUpdate(s.threads, t, p);
    NotMore(s.ran, ToRun(s.threads[t := p]), ToRun(s.threads), ToRunOf(s.threads[t]), ToRunOf(p));
  }

  lemma DispatchToRun(s: State, t: nat)
    requires IsThread(s, t) && !s.fAllOk && |Dispatch(s, t).waits| == |s.waits|
    ensures !Dispatch(s, t).fAllOk
    ensures Dispatch(s, t).ran + ToRun(Dispatch(s, t).threads) <= s.ran + ToRun(s.threads)
  {
    var s' := Dispatch(s, t);
    IdleToRun(s, t, s'.threads[t]);
  }

  lemma {:induction false} WaitsGrow(s: State, actions: seq<Action>)
    requires IsRun(s, actions)
    ensures |s.waits| <= |After(s, actions).waits|
    decreases |actions|
  {
    if actions != [] {
      WaitsGrow(Step(s, actions[0]), actions[1..]);
    }
  }

  lemma StepToRun(s: State, a: Action)
    requires Enabled(s, a) && !s.fAllOk && |Step(s, a).waits| == |s.waits|
    ensures !Step(s, a).fAllOk && Step(s, a).ran + ToRun(Step(s, a).threads) <= s.ran + ToRun(s.threads)
  {
    hide Dispatch;
    hide ToRun;
    hide CleanUp;
    hide RunOne;
    hide AddChecks;
    match a
    case Add(checks, pick) => AddToRun(s, checks, pick);
    case Exec(t) => RunOneToRun(s, t);
    case Enter(t) =>
      IdleToRun(s, t, Active);
      DispatchToRun(s.(nTotal := s.nTotal + 1, threads := s.threads[t := Active]), t);
    case Wake(t) =>
      IdleToRun(s, t, Active);
      DispatchToRun(s.(nIdle := s.nIdle - 1, threads := s.threads[t := Active]), t);
    case Finish(t) =>
      CleanUpBooks(s, t);
      CleanUpToRun(s, t);
      DispatchToRun(CleanUp(s, t), t);
  }

  lemma AddToRun(s: State, checks: seq<Check>, pick: nat)
    requires Enabled(s, Add(checks, pick))
    ensures var s' := AddChecks(s, checks, pick);
            s'.fAllOk == s.fAllOk && s'.ran == s.ran && ToRun(s'.threads) == ToRun(s.threads)
  {
    ToRunNotify(s.threads, AddChecks(s, checks, pick).threads);
  }

  lemma CleanUpToRun(s: State, t: nat)
    requires Enabled(s, Finish(t))
    ensures var c := CleanUp(s, t);
            (c.fAllOk ==> s.fAllOk) && c.ran == s.ran && c.ran + ToRun(c.threads) <= s.ran + ToRun(s.threads)
  {
    hide ToRun;
    var c := CleanUp(s, t);
    IdleToRun(s, t, Active);
    ToRunNotify(s.threads[t := Active], c.threads);
  }

  /** Once the queue knows of a failure nothing is run but what threads had already started on. */
  lemma FailureStops(s: State, actions: seq<Action>)
    requires IsRun(s, actions) && !s.fAllOk && |After(s, actions).waits| == |s.waits|
    ensures After(s, actions).ran <= s.ran + ToRun(s.threads)
    decreases |actions|
  {
    StillToRun(s, actions);
    var s' := After(s, actions);
    assert s'.ran <= s'.ran + ToRun(s'.threads);
  }

  lemma {:induction false} StillToRun(s: State, actions: seq<Action>)
    requires IsRun(s, actions) && !s.fAllOk && |After(s, actions).waits| == |s.waits|
    ensures After(s, actions).ran + ToRun(After(s, actions).threads) <= s.ran + ToRun(s.threads)
    decreases |actions|
  {
    if actions != [] {
      WaitsGrow(s, actions[..1]);
      WaitsGrow(Step(s, actions[0]), actions[1..]);
      StepGrows(s, actions[0]);
      StepToRun(s, actions[0]);
      StillToRun(Step(s, actions[0]), actions[1..]);
    }
  }

  lemma StepGrows(s: State, a: Action)
    requires Enabled(s, a)
    ensures |s.waits| <= |Step(s, a).waits|
  {
  }

  // ---------- no worker sleeps while there is work for it ----------

  /** Workers that have been woken and have not come back yet. */
  function Woken(threads: seq<Phase>): nat {
    if |threads| <= 1 then 0
    else Woken(threads[..|threads| - 1]) + if threads[|threads| - 1] == Waiting(true) then 1 else 0
  }

  /** If a worker sleeps on, there are no more checks in the queue than workers on their way to it. */
  predicate Alert(s: State) {
    (exists t :: 0 < t < |s.threads| && Sleeping(s, t)) ==> |s.queue| <= Woken(s.threads)
  }

  lemma {:induction false} WokenUpdate(threads: seq<Phase>, t: nat, p: Phase)
    requires t < |threads|
    ensures Woken(threads[t := p])
         == Woken(threads) + (if t > 0 && p == Waiting(true) then 1 else 0)
            - (if t > 0 && threads[t] == Waiting(true) then 1 else 0)
  {
    var n := |threads| - 1;
    if n > 0 {
      if t == n {
        assert threads[t := p][..n] == threads[..n];
      } else {
        assert threads[t := p][..n] == threads[..n][t := p];
        WokenUpdate(threads[..n], t, p);
      }
    }
  }

  lemma DispatchAlert(s: State, t: nat)
    requires IsThread(s, t) && s.threads[t].Active?
    requires (exists u :: 0 < u < |s.threads| && Sleeping(s, u)) ==> |s.queue| <= Woken(s.threads) + 1
    ensures Alert(Dispatch(s, t))
  {
    var s' := Dispatch(s, t);
    if s.queue != [] {
      WokenUpdate(s.threads, t, s'.threads[t]);
      assert |s'.queue| < |s.queue|;
      forall u | 0 < u < |s'.threads| && Sleeping(s', u)
        ensures Sleeping(s, u)
      {
      }
    } else {
      assert s'.queue == [];
    }
  }

  lemma AddAlert(s: State, checks: seq<Check>, pick: nat)
    requires Alert(s) && Enabled(s, Add(checks, pick))
    ensures Alert(AddChecks(s, checks, pick))
  {
    var s' := AddChecks(s, checks, pick);
    if |checks| == 1 && pick > 0 {
      WokenUpdate(s.threads, pick, Waiting(true));
      assert Sleeping(s, pick);
    } else if |checks| > 1 {
      assert forall u :: 0 < u < |s'.threads| ==> !Sleeping(s', u);
    } else {
      assert forall u :: 0 < u < |s'.threads| ==> (Sleeping(s', u) <==> Sleeping(s, u));
    }
  }

  lemma ActiveAlert(s: State, s': State, t: nat)
    requires Alert(s) && IsThread(s, t) && s'.threads == s.threads[t := Active] && |s'.queue| <= |s.queue|
    ensures (exists u :: 0 < u < |s'.threads| && Sleeping(s', u)) ==> |s'.queue| <= Woken(s'.threads) + 1
  {
    WokenUpdate(s.threads, t, Active);
    forall u | 0 < u < |s'.threads| && Sleeping(s', u)
      ensures Sleeping(s, u)
    {
    }
  }

  lemma FinishAlert(s: State, t: nat)
    requires Alert(s) && Enabled(s, Finish(t)) && |s.threads| > 0
    ensures Alert(Step(s, Finish(t)))
  {
    var c := CleanUp(s, t);
    var mid := s.(threads := s.threads[t := Active]);
    ActiveAlert(s, mid, t);
    WokenUpdate(mid.threads, 0, c.threads[0]);
    assert c.threads == mid.threads[0 := c.threads[0]];
    forall u | 0 < u < |c.threads| && Sleeping(c, u)
      ensures Sleeping(mid, u)
    {
    }
    DispatchAlert(c, t);
  }

  lemma ExecAlert(s: State, t: nat)
    requires Alert(s) && Enabled(s, Exec(t))
    ensures Alert(RunOne(s, t))
  {
    WokenUpdate(s.threads, t, RunOne(s, t).threads[t]);
    assert forall u :: 0 < u < |s.threads| && Sleeping(RunOne(s, t), u) ==> Sleeping(s, u);
  }

  lemma StepAlert(s: State, a: Action)
    requires Alert(s) && |s.threads| > 0 && Enabled(s, a)
    ensures Alert(Step(s, a)) && |Step(s, a).threads| > 0
  {
    hide Alert;
    StepThreads(s, a);
    match a
    case Add(checks, pick) => AddAlert(s, checks, pick);
    case Exec(t) => ExecAlert(s, t);
    case Enter(t) =>
      hide Dispatch;
      var s' := s.(nTotal := s.nTotal + 1, threads := s.threads[t := Active]);
      ActiveAlert(s, s', t);
      DispatchAlert(s', t);
    case Wake(t) =>
      hide Dispatch;
      var s' := s.(nIdle := s.nIdle - 1, threads := s.threads[t := Active]);
      ActiveAlert(s, s', t);
      DispatchAlert(s', t);
    case Finish(t) => FinishAlert(s, t);
  }

  lemma StepThreads(s: State, a: Action)
    requires Enabled(s, a)
    ensures |Step(s, a).threads| == |s.threads|
  {
    hide Dispatch;
    hide CleanUp;
    match a
    case Add(checks, pick) =>
    case Enter(t) => DispatchBooks(s.(nTotal := s.nTotal + 1, threads := s.threads[t := Active]), t);
    case Wake(t) => DispatchBooks(s.(nIdle := s.nIdle - 1, threads := s.threads[t := Active]), t);
    case Exec(t) =>
    case Finish(t) =>
      CleanUpBooks(s, t);
      DispatchBooks(CleanUp(s, t), t);
  }

  lemma {:induction false} RunAlert(s: State, actions: seq<Action>)
    requires Alert(s) && |s.threads| > 0 && IsRun(s, actions)
    ensures Alert(After(s, actions))
    decreases |actions|
  {
    if actions != [] {
      StepAlert(s, actions[0]);
      RunAlert(Step(s, actions[0]), actions[1..]);
    }
  }

  /** No wake-up is lost: whenever a worker sleeps on, every queued check has a woken worker coming for it. */
  lemma NoLostWakeup(nBatchSize: nat, nWorkers: nat, actions: seq<Action>)
    requires IsRun(Init(nBatchSize, nWorkers), actions)
    ensures Alert(After(Init(nBatchSize, nWorkers), actions))
  {
    RunAlert(Init(nBatchSize, nWorkers), actions);
  }
}
