/** Left alone, the threads come to rest: without new connections or timer wake-ups every
    schedule is finite, whatever the scheduler does, and it ends with every request closed. */
module ServerProgress {
  import opened Server
  import opened ServerInvariant
  import opened ServerTheorems

  function WkWork(w: Worker): nat {
    match w
    case WkWait => 0
    case WkClose(_) => 1
    case WkServe(_) => 2
    case WkUnlock(_) => 3
    case WkDequeue => 4
    case WkLock => 5
  }

  function AllWork(wk: seq<Worker>): nat {
    if wk == [] then 0 else AllWork(wk[..|wk| - 1]) + WkWork(wk[|wk| - 1])
  }

  lemma {:induction false} WorkUpdate(wk: seq<Worker>, i: nat, w: Worker)
    requires i < |wk|
    ensures AllWork(wk[i := w]) == AllWork(wk) - WkWork(wk[i]) + WkWork(w)
  {
    var n := |wk| - 1;
    if i == n {
      assert wk[i := w][..n] == wk[..n];
    } else {
      WorkUpdate(wk[..n], i, w);
      assert wk[i := w][..n] == wk[..n][i := w];
    }
  }

  function RejWork(r: Rejecter): nat {
    match r
    case RejWait => 0
    case RejClose(_) => 1
    case RejSend(_) => 2
    case RejUnlock(_) => 3
    case RejDequeue => 4
    case RejLock => 5
  }

  function MgrWork(m: Manager): nat {
    match m
    case MgrSleep => 0
    case MgrUnlock(_) => 1
    case MgrDequeue(_, _) => 1
    case MgrCheck(_, _) => 2
    case MgrFront(_) => 3
    case MgrSample => 4
    case MgrLock => 5
    case MgrPost(_) => 10
    case MgrUnlockExcd(_) => 11
    case MgrEnqueue(_, _) => 12
    case MgrLockExcd(_, _) => 13
  }

  function AccWork(a: Acceptor): nat {
    match a
    case AccWait => 0
    case AccPost => 7
    case AccUnlock => 8
    case AccEnqueue(_) => 22
    case AccLock(_) => 23
    case AccInit(_) => 24
  }

  /** An upper bound on the thread steps still possible before everything rests: a token costs
      at most six steps, a queued request thirteen of the manager's. */
  function Work(s: State): nat {
    AccWork(s.acc) + MgrWork(s.mgr) + RejWork(s.rej) + AllWork(s.wk)
    + 6 * s.reqSem + 6 * s.excdSem + 13 * |s.reqQ|
  }

  lemma WorkerWork(s: State, i: nat)
    requires i < |s.wk| && WorkerStep(s, i).Some?
    ensures Work(WorkerStep(s, i).value) < Work(s)
  {
    WorkUpdate(s.wk, i, WorkerStep(s, i).value.wk[i]);
  }

  lemma StepWorks(c: Config, s: State, t: Thread)
    requires Sweep(c, s) && CanStep(c, s, t)
    ensures Work(Next(c, s, Step(t)).value) < Work(s)
  {
    match t {
      case TWorker(i) => WorkerWork(s, i);
      case _ =>
    }
  }

  /** Running `first` and then `a`. */
  lemma {:induction false} RunExtends(c: Config, clock: Timespec, first: seq<Action>, a: Action)
    requires Run(c, clock, first).Some?
    ensures Run(c, clock, first + [a]) == Next(c, Run(c, clock, first).value, a)
  {
    assert (first + [a])[..|first|] == first;
  }

  /** However the threads are scheduled, they take at most `Work(s)` steps of their own. */
  lemma {:induction false} StepsBounded(c: Config, clock: Timespec, first: seq<Action>, steps: seq<Action>)
    requires Run(c, clock, first + steps).Some? && Run(c, clock, first).Some?
    requires OnlySteps(steps)
    ensures |steps| + Work(Run(c, clock, first + steps).value) <= Work(Run(c, clock, first).value)
  {
    if steps == [] {
      assert first + steps == first;
    } else {
      var n := |steps| - 1;
      var front := first + steps[..n];
      assert first + steps == front + [steps[n]] && (first + steps)[..|first| + n] == front;
      StepsBounded(c, clock, first, steps[..n]);
      RunExtends(c, clock, front, steps[n]);
      Reachable(c, clock, front, Request(0, 0, clock));
      StepWorks(c, Run(c, clock, front).value, steps[n].t);
    }
  }

  /** One more step of some thread, when there is one. */
  lemma {:induction false} OneMore(c: Config, clock: Timespec, first: seq<Action>, t: Thread)
    requires Run(c, clock, first).Some? && CanStep(c, Run(c, clock, first).value, t)
    ensures Run(c, clock, first + [Step(t)]).Some?
    ensures Work(Run(c, clock, first + [Step(t)]).value) < Work(Run(c, clock, first).value)
  {
    Reachable(c, clock, first, Request(0, 0, clock));
    StepWorks(c, Run(c, clock, first).value, t);
    RunExtends(c, clock, first, Step(t));
  }

  predicate OnlySteps(steps: seq<Action>) { forall i :: 0 <= i < |steps| ==> steps[i].Step? }

  ghost predicate ComesToRest(c: Config, clock: Timespec, schedule: seq<Action>) {
    Run(c, clock, schedule).Some? && Quiescent(c, Run(c, clock, schedule).value)
  }

  lemma Regrouped(first: seq<Action>, a: Action, more: seq<Action>)
    ensures first + [a] + more == first + ([a] + more)
    ensures OnlySteps(more) && a.Step? ==> OnlySteps([a] + more)
  {
  }

  lemma {:induction false} RestReached(c: Config, clock: Timespec, first: seq<Action>)
    returns (steps: seq<Action>)
    requires Run(c, clock, first).Some?
    ensures OnlySteps(steps) && ComesToRest(c, clock, first + steps)
    decreases Work(Run(c, clock, first).value)
  {
    if t :| CanStep(c, Run(c, clock, first).value, t) {
      OneMore(c, clock, first, t);
      var more := RestReached(c, clock, first + [Step(t)]);
      steps := [Step(t)] + more;
      Regrouped(first, Step(t), more);
    } else {
      steps := [];
      assert first + steps == first;
    }
  }

  /** From every reachable state the threads can reach rest by themselves, and there, with at
      least one worker, every request created has been closed exactly once. */
  lemma {:induction false} EveryRequestGetsClosed(c: Config, clock: Timespec, first: seq<Action>)
    returns (steps: seq<Action>)
    requires c.workers > 0 && Run(c, clock, first).Some?
    ensures OnlySteps(steps) && ComesToRest(c, clock, first + steps)
    ensures var s := Run(c, clock, first + steps).value;
            forall r :: r in s.h.created ==> Count(s.h.closedServed, r) + Count(s.h.closedRejected, r) == 1
  {
    steps := RestReached(c, clock, first);
    var whole := first + steps;
    var s := Run(c, clock, whole).value;
    forall r | r in s.h.created ensures Count(s.h.closedServed, r) + Count(s.h.closedRejected, r) == 1 {
      AtRestAllClosed(c, clock, whole, r);
    }
  }
}
