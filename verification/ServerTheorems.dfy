/** What the request-queue protocol guarantees in every state of every schedule. */
module ServerTheorems {
  import opened Base
  import opened Server
  import opened ServerInvariant

  // ---- conservation -------------------------------------------------------------------

  /** In how many places request `r` is: the acceptor's hand, the two queues, the manager's,
      the rejecter's and the workers' hands, and the two kinds of closed requests. */
  function PlaceCount(s: State, r: Request): nat {
    Count(AccHand(s), r) + Count(s.reqQ, r) + Count(MgrHand(s), r) + Count(s.excdQ, r)
    + Count(RejHand(s), r) + HeldBy(s.wk, r) + Count(s.h.closedServed, r) + Count(s.h.closedRejected, r)
  }

  lemma {:induction false} CountDistinct(q: seq<Request>, r: Request)
    requires forall i :: 0 <= i < |q| ==> q[i].id == i
    ensures Count(q, r) == if r in q then 1 else 0
  {
    if q != [] {
      var front := q[..|q| - 1];
      CountDistinct(front, r);
      assert q == front + [q[|q| - 1]];
      assert forall j :: 0 <= j < |front| ==> front[j] == q[j] && q[j].id == j;
    }
  }

  /** The places add up to the requests created. */
  lemma CreatedCount(s: State, r: Request)
    requires Order(s) && Places(s, r)
    ensures Count(s.h.created, r) == PlaceCount(s, r)
  {
    CountConcat(s.h.enqueued, AccHand(s), r);
    CountConcat(s.h.departed, s.reqQ, r);
    var a := s.h.closedRejected + RejHand(s);
    CountConcat(s.h.closedRejected, RejHand(s), r);
    CountConcat(a, s.excdQ, r);
    CountConcat(a + s.excdQ, MgrHand(s), r);
  }

  /** Conservation: in every reachable state a created request is in exactly one place. */
  lemma {:induction false} ExactlyOnePlace(c: Config, clock: Timespec, schedule: seq<Action>, r: Request)
    requires Run(c, clock, schedule).Some?
    ensures var s := Run(c, clock, schedule).value;
            PlaceCount(s, r) == if r in s.h.created then 1 else 0
  {
    Reachable(c, clock, schedule, r);
    var s := Run(c, clock, schedule).value;
    CreatedCount(s, r);
    CountDistinct(s.h.created, r);
  }

  /** A request is served or rejected at most once and never both; it is closed at most once,
      and only after it was served or rejected. */
  lemma {:induction false} ServedXorRejected(c: Config, clock: Timespec, schedule: seq<Action>, r: Request)
    requires Run(c, clock, schedule).Some?
    ensures var h := Run(c, clock, schedule).value.h;
            && Count(h.served, r) + Count(h.rejected, r) <= 1
            && Count(h.closedServed, r) <= Count(h.served, r)
            && Count(h.closedRejected, r) <= Count(h.rejected, r)
  {
    Reachable(c, clock, schedule, r);
    var s := Run(c, clock, schedule).value;
    CreatedCount(s, r);
    CountDistinct(s.h.created, r);
    if s.rej.RejClose? {
      CountAppend(s.h.closedRejected, s.rej.rq, r);
      CountAppend([], s.rej.rq, r);
      assert [] + [s.rej.rq] == RejHand(s);
    } else {
      assert s.h.rejected == s.h.closedRejected;
    }
  }

  // ---- semaphores ------------------------------------------------------------------------

  /** No lost wake-up: the token balance, and so a token, a token-holding worker or a pending
      post for each queued request. */
  lemma {:induction false} NoLostWakeUp(c: Config, clock: Timespec, schedule: seq<Action>)
    requires Run(c, clock, schedule).Some?
    ensures var s := Run(c, clock, schedule).value;
            && |s.reqQ| + |s.h.moved| == s.reqSem + Tokens(s.wk) + PostOwed(s) + s.h.emptyDequeues
            && s.h.emptyDequeues <= |s.h.moved|
            && |s.reqQ| <= s.reqSem + Tokens(s.wk) + PostOwed(s)
  {
    Reachable(c, clock, schedule, Request(0, 0, clock));
  }

  /** The rejecter's semaphore counts its queue exactly, so it never dequeues nothing. */
  lemma {:induction false} RejecterExact(c: Config, clock: Timespec, schedule: seq<Action>)
    requires Run(c, clock, schedule).Some?
    ensures var s := Run(c, clock, schedule).value;
            && |s.excdQ| == s.excdSem + RejToken(s) + ExcdPostOwed(s)
            && (s.rej.RejDequeue? ==> s.excdQ != [])
            && s.rej != RejUnlock(None)
  {
    Reachable(c, clock, schedule, Request(0, 0, clock));
  }

  // ---- mutexes and progress ----------------------------------------------------------------

  lemma {:induction false} ReachableMutexes(c: Config, clock: Timespec, schedule: seq<Action>)
    requires Run(c, clock, schedule).Some?
    ensures Mutexes(Run(c, clock, schedule).value)
  {
    Reachable(c, clock, schedule, Request(0, 0, clock));
  }

  /** At most one thread is in each critical section, and the only thread ever in both is the
      manager, which entered the `req_q_mtx` section first. */
  lemma {:induction false} MutualExclusion(c: Config, clock: Timespec, schedule: seq<Action>, t: Thread, u: Thread)
    requires Run(c, clock, schedule).Some?
    ensures var s := Run(c, clock, schedule).value;
            && (InReqSection(s, t) && InReqSection(s, u) ==> t == u)
            && (InExcdSection(s, t) && InExcdSection(s, u) ==> t == u)
            && (InReqSection(s, t) && InExcdSection(s, t) ==> t == TManager)
            && (InExcdSection(s, TManager) ==> InReqSection(s, TManager))
  {
    var s := Run(c, clock, schedule).value;
    ReachableMutexes(c, clock, schedule);
    Owner(s, t);
    Owner(s, u);
  }

  /** A queue changes only by a step of a thread inside the section of that queue's mutex. */
  lemma QueuesGuarded(c: Config, s: State, a: Action)
    requires Next(c, s, a).Some?
    ensures Next(c, s, a).value.reqQ != s.reqQ ==> a.Step? && InReqSection(s, a.t)
    ensures Next(c, s, a).value.excdQ != s.excdQ ==> a.Step? && InExcdSection(s, a.t)
  {
  }

  /** The thread that can step while some mutex is held: the holder, or the rejecter that
      holds the mutex the manager waits for. */
  function Runner(s: State): Thread
    requires s.reqMtx.Some? || s.excdMtx.Some?
  {
    if s.excdMtx.Some? then s.excdMtx.value else s.reqMtx.value
  }

  /** Deadlock freedom: whenever a mutex is held, a thread holding one can step. */
  lemma HolderCanStep(c: Config, s: State)
    requires Mutexes(s) && (s.reqMtx.Some? || s.excdMtx.Some?)
    ensures CanStep(c, s, Runner(s))
    ensures s.reqMtx == Some(Runner(s)) || s.excdMtx == Some(Runner(s))
  {
    if s.excdMtx == None {
      match s.reqMtx.value {
        case TWorker(i) => assert WkInSection(s.wk[i]);
        case TAcceptor => assert InReqSection(s, TAcceptor);
        case TManager => assert InReqSection(s, TManager);
        case TRejecter => assert false;
      }
    }
  }

  lemma {:induction false} NoDeadlock(c: Config, clock: Timespec, schedule: seq<Action>)
    requires Run(c, clock, schedule).Some?
    ensures var s := Run(c, clock, schedule).value;
            s.reqMtx.Some? || s.excdMtx.Some? ==>
              exists t :: CanStep(c, s, t) && (s.reqMtx == Some(t) || s.excdMtx == Some(t))
  {
    ReachableMutexes(c, clock, schedule);
    var s := Run(c, clock, schedule).value;
    if s.reqMtx.Some? || s.excdMtx.Some? {
      HolderCanStep(c, s);
      assert CanStep(c, s, Runner(s));
    }
  }

  /** No thread can move by itself: only a new connection, the manager's timer or the clock. */
  ghost predicate Quiescent(c: Config, s: State) { forall t :: !CanStep(c, s, t) }

  /** A thread that cannot step waits for a mutex, a token or the outside world. */
  lemma WaitsFor(c: Config, s: State)
    requires s.reqMtx == None && s.excdMtx == None
    ensures !CanStep(c, s, TAcceptor) ==> s.acc.AccWait?
    ensures !CanStep(c, s, TManager) ==> s.mgr.MgrSleep?
    ensures !CanStep(c, s, TRejecter) ==> s.rej.RejWait? && s.excdSem == 0
  {
  }

  lemma WorkerWaitsFor(c: Config, s: State, i: nat)
    requires s.reqMtx == None && i < |s.wk| && !CanStep(c, s, TWorker(i))
    ensures s.wk[i].WkWait? && s.reqSem == 0
  {
  }

  predicate AllAtRest(s: State) {
    && s.acc.AccWait? && s.mgr.MgrSleep? && s.rej.RejWait? && s.excdSem == 0
    && forall i :: 0 <= i < |s.wk| ==> s.wk[i].WkWait? && s.reqSem == 0
  }

  lemma QuiescentAtRest(c: Config, s: State)
    requires Mutexes(s) && Quiescent(c, s)
    ensures AllAtRest(s)
  {
    if s.reqMtx.Some? || s.excdMtx.Some? {
      HolderCanStep(c, s);
      assert false;
    }
    WaitsFor(c, s);
    forall i | 0 <= i < |s.wk| ensures s.wk[i].WkWait? && s.reqSem == 0 { WorkerWaitsFor(c, s, i); }
  }

  /** At rest nothing is in a queue or in a hand. */
  lemma NothingPending(s: State, r: Request)
    requires AllAtRest(s) && |s.wk| > 0 && TokenBalance(s) && ExcdBalance(s)
    ensures s.reqQ == [] && s.excdQ == []
    ensures PlaceCount(s, r) == Count(s.h.closedServed, r) + Count(s.h.closedRejected, r)
  {
    assert s.wk[0].WkWait?;
    AllWaiting(s.wk, r);
  }

  /** No request is ever forgotten: with at least one worker, once every thread has come to
      rest both queues are empty and each created request has been closed exactly once. */
  lemma {:induction false} AtRestAllClosed(c: Config, clock: Timespec, schedule: seq<Action>, r: Request)
    requires c.workers > 0
    requires Run(c, clock, schedule).Some? && Quiescent(c, Run(c, clock, schedule).value)
    ensures var s := Run(c, clock, schedule).value;
            && s.reqQ == [] && s.excdQ == []
            && Count(s.h.closedServed, r) + Count(s.h.closedRejected, r)
               == if r in s.h.created then 1 else 0
  {
    Reachable(c, clock, schedule, r);
    var s := Run(c, clock, schedule).value;
    QuiescentAtRest(c, s);
    NothingPending(s, r);
    ExactlyOnePlace(c, clock, schedule, r);
  }

  // ---- the timeout sweep --------------------------------------------------------------------

  /** Later requests have waited no longer. */
  lemma OverdueMonotone(c: Config, now: Timespec, a: Request, b: Request)
    requires MonotoneRounding(c.toFloat) && a.ts.Nanos() <= b.ts.Nanos()
    ensures Overdue(c, now, b) ==> Overdue(c, now, a)
  {
    assert TimeDiff(now, b.ts).Nanos() <= TimeDiff(now, a.ts).Nanos();
  }

  lemma QueueSorted(s: State)
    requires Arrivals(s)
    ensures forall i :: 0 <= i < |s.reqQ| ==> s.reqQ[0].ts.Nanos() <= s.reqQ[i].ts.Nanos()
  {
    forall i | 0 <= i < |s.reqQ| ensures s.reqQ[0].ts.Nanos() <= s.reqQ[i].ts.Nanos() {
      var d := |s.h.departed|;
      assert s.h.created[d] == s.reqQ[0] && s.h.created[d + i] == s.reqQ[i];
    }
  }

  /** The step of the schedule in which the manager read the clock. */
  ghost predicate SampledAt(c: Config, clock: Timespec, schedule: seq<Action>, j: nat, now: Timespec, h: History) {
    && j < |schedule| && schedule[j] == Step(TManager)
    && match Run(c, clock, schedule[..j])
       case None => false
       case Some(s0) => s0.mgr.MgrSample? && s0.clock == now && s0.reqQ == h.sample && |s0.h.moved| == h.movedBefore
  }

  lemma SampleKept(c: Config, s: State, a: Action)
    requires Next(c, s, a).Some? && SampleTime(Next(c, s, a).value.mgr).Some?
    ensures var s' := Next(c, s, a).value;
      if s.mgr.MgrSample? && a == Step(TManager) then
        SampleTime(s'.mgr) == Some(s.clock) && s'.h.sample == s.reqQ && s'.h.movedBefore == |s.h.moved|
      else
        SampleTime(s.mgr) == SampleTime(s'.mgr) && s'.h.sample == s.h.sample && s'.h.movedBefore == s.h.movedBefore
  {
  }

  /** The time a sweep works with is the clock of the step in which it began. */
  lemma {:induction false} SampleWas(c: Config, clock: Timespec, schedule: seq<Action>) returns (j: nat)
    requires Run(c, clock, schedule).Some? && SampleTime(Run(c, clock, schedule).value.mgr).Some?
    ensures var s := Run(c, clock, schedule).value;
      SampledAt(c, clock, schedule, j, SampleTime(s.mgr).value, s.h)
  {
    var n := |schedule| - 1;
    var before := Run(c, clock, schedule[..n]).value;
    SampleKept(c, before, schedule[n]);
    if before.mgr.MgrSample? && schedule[n] == Step(TManager) {
      j := n;
    } else {
      j := SampleWas(c, clock, schedule[..n]);
      assert schedule[..n][..j] == schedule[..j];
    }
  }

  /** What is over the limit is over one second or over `max_queue_time`. */
  lemma OverdueMeans(c: Config, now: Timespec, rq: Request)
    ensures var waited := now.sec * 1_000_000_000 + now.nsec - (rq.ts.sec * 1_000_000_000 + rq.ts.nsec);
      Overdue(c, now, rq) <==> c.toFloat(waited) > 1.0 || c.toFloat(waited) > c.maxQueueTime as real
  {
    var waited := now.sec * 1_000_000_000 + now.nsec - (rq.ts.sec * 1_000_000_000 + rq.ts.nsec);
    assert TimeDiff(now, rq.ts).Nanos() == waited;
  }

  /** A sweep over the queue `q` with `k` requests moved: those over the limit, and no other. */
  lemma SplitByTime(c: Config, s: State, q: seq<Request>, moved: seq<Request>)
    requires MonotoneRounding(c.toFloat) && s.mgr.MgrUnlock? && Sweep(c, s) && Arrivals(s) && q == moved + s.reqQ
    requires forall i :: 0 <= i < |moved| ==> Overdue(c, s.mgr.now, moved[i])
    ensures forall i :: 0 <= i < |q| ==> (i < |moved| <==> Overdue(c, s.mgr.now, q[i]))
  {
    QueueSorted(s);
    forall i | |moved| <= i < |q| ensures !Overdue(c, s.mgr.now, q[i]) {
      OverdueMonotone(c, s.mgr.now, s.reqQ[0], s.reqQ[i - |moved|]);
    }
  }

  /** A whole sweep, in nanoseconds and floats. The schedule has a step `j` in which the manager, in
      the `req_q_mtx` section, read the clock. When it leaves the section, the queue of that moment
      is split in order: at the front the requests that had then waited more than one second or more
      than `max_queue_time`, which were moved, behind them all others, which are still queued. What
      was ever moved is in the rejecter's hands in that order. */
  lemma {:induction false} SweepExact(c: Config, clock: Timespec, schedule: seq<Action>) returns (j: nat)
    requires MonotoneRounding(c.toFloat)
    requires Run(c, clock, schedule).Some? && Run(c, clock, schedule).value.mgr.MgrUnlock?
    ensures j < |schedule| && schedule[j] == Step(TManager) && Run(c, clock, schedule[..j]).Some?
    ensures var s0, s := Run(c, clock, schedule[..j]).value, Run(c, clock, schedule).value;
      var k := |s0.reqQ| - |s.reqQ|;
      && s0.mgr.MgrSample? && InReqSection(s0, TManager)
      && 0 <= k && s.reqQ == s0.reqQ[k..]
      && |s0.h.moved| <= |s.h.moved| && s.h.moved[|s0.h.moved|..] == s0.reqQ[..k]
      && s.h.moved == s.h.closedRejected + RejHand(s) + s.excdQ
      && forall i :: 0 <= i < |s0.reqQ| ==>
           var rq := s0.reqQ[i];
           var waited := s0.clock.sec * 1_000_000_000 + s0.clock.nsec - (rq.ts.sec * 1_000_000_000 + rq.ts.nsec);
           (i < k <==> c.toFloat(waited) > 1.0 || c.toFloat(waited) > c.maxQueueTime as real)
  {
    Reachable(c, clock, schedule, Request(0, 0, clock));
    j := SampleWas(c, clock, schedule);
    var s0, s := Run(c, clock, schedule[..j]).value, Run(c, clock, schedule).value;
    SplitByTime(c, s, s0.reqQ, s.h.moved[s.h.movedBefore..]);
    forall i | 0 <= i < |s0.reqQ| { OverdueMeans(c, s0.clock, s0.reqQ[i]); }
  }

  /** The same without rounding: more than 10^9 nanoseconds, or more than `max_queue_time` times
      that. */
  lemma {:induction false} SweepInNanoseconds(c: Config, clock: Timespec, schedule: seq<Action>) returns (j: nat)
    requires forall t: int :: c.toFloat(t) == t as real / 1_000_000_000.0
    requires Run(c, clock, schedule).Some? && Run(c, clock, schedule).value.mgr.MgrUnlock?
    ensures j < |schedule| && Run(c, clock, schedule[..j]).Some?
    ensures var s0, s := Run(c, clock, schedule[..j]).value, Run(c, clock, schedule).value;
      var k := |s0.reqQ| - |s.reqQ|;
      && s0.mgr.MgrSample? && 0 <= k && s.reqQ == s0.reqQ[k..]
      && forall i :: 0 <= i < |s0.reqQ| ==>
           var rq := s0.reqQ[i];
           var waited := s0.clock.sec * 1_000_000_000 + s0.clock.nsec - (rq.ts.sec * 1_000_000_000 + rq.ts.nsec);
           (i < k <==> waited > 1_000_000_000 || waited > c.maxQueueTime * 1_000_000_000)
  {
    assert MonotoneRounding(c.toFloat);
    j := SweepExact(c, clock, schedule);
  }

  /** A rejected request had waited longer than any time that rounds to at most one second and at
      most `max_queue_time`. */
  lemma {:induction false} RejectedWereLate(c: Config, clock: Timespec, schedule: seq<Action>, i: nat, nanos: int)
    requires MonotoneRounding(c.toFloat)
    requires c.toFloat(nanos) <= 1.0 && c.toFloat(nanos) <= c.maxQueueTime as real
    requires Run(c, clock, schedule).Some?
    requires i < |Run(c, clock, schedule).value.h.rejected|
    ensures var s := Run(c, clock, schedule).value;
      var ts := s.h.rejected[i].ts;
      s.clock.sec * 1_000_000_000 + s.clock.nsec - (ts.sec * 1_000_000_000 + ts.nsec) > nanos
  {
    Reachable(c, clock, schedule, Request(0, 0, clock));
    var s := Run(c, clock, schedule).value;
    var rq := s.h.rejected[i];
    assert rq == s.h.moved[i];
    var at :| Overdue(c, at, rq) && at.Nanos() <= s.clock.Nanos();
    OverdueMeans(c, at, rq);
    var waited := at.sec * 1_000_000_000 + at.nsec - (rq.ts.sec * 1_000_000_000 + rq.ts.nsec);
    assert waited <= nanos ==> c.toFloat(waited) <= c.toFloat(nanos);
  }

  lemma OrderedParts(s: State)
    requires Order(s)
    ensures s.h.departed + s.reqQ <= s.h.created && s.h.rejected <= s.h.moved && SortedByTime(s.reqQ)
  {
    var d := |s.h.departed|;
    assert forall i :: 0 <= i < |s.reqQ| ==> s.reqQ[i] == s.h.created[d + i];
  }

  /** Requests leave `req_q` in the order they were created, which is the order of their
      timestamps, and the timed-out ones are rejected in that order too. */
  lemma {:induction false} ArrivalOrder(c: Config, clock: Timespec, schedule: seq<Action>)
    requires Run(c, clock, schedule).Some?
    ensures var s := Run(c, clock, schedule).value;
            && s.h.departed + s.reqQ <= s.h.created
            && SortedByTime(s.h.created) && SortedByTime(s.reqQ)
            && s.h.rejected <= s.h.moved
            && (forall i, j :: 0 <= i < j < |s.h.rejected| ==> s.h.rejected[i].id < s.h.rejected[j].id)
  {
    Reachable(c, clock, schedule, Request(0, 0, clock));
    OrderedParts(Run(c, clock, schedule).value);
  }

  // ---- what a request carries ----------------------------------------------------------------

  /** The descriptors of the successful connections of a schedule. */
  function Accepted(schedule: seq<Action>): seq<int> {
    if schedule == [] then [] else
      var n := |schedule| - 1;
      Accepted(schedule[..n]) + match schedule[n] case Connect(fd) => if fd == -1 then [] else [fd] case _ => []
  }

  function Descriptors(rqs: seq<Request>): (fds: seq<int>)
    ensures |fds| == |rqs| && forall i :: 0 <= i < |rqs| ==> fds[i] == rqs[i].fd
  {
    seq(|rqs|, i requires 0 <= i < |rqs| => rqs[i].fd)
  }

  function Arriving(s: State): seq<int> {
    Descriptors(s.h.created) + if s.acc.AccInit? then [s.acc.fd] else []
  }

  lemma ArrivingStep(c: Config, s: State, a: Action)
    requires Next(c, s, a).Some?
    ensures Arriving(Next(c, s, a).value) == Arriving(s) +
      match a case Connect(fd) => if fd == -1 then [] else [fd] case _ => []
  {
    var s' := Next(c, s, a).value;
    if a == Step(TAcceptor) && s.acc.AccInit? {
      assert Descriptors(s'.h.created) == Descriptors(s.h.created) + [s.acc.fd];
    }
  }

  lemma {:induction false} AllArrive(c: Config, clock: Timespec, schedule: seq<Action>)
    requires Run(c, clock, schedule).Some?
    ensures Arriving(Run(c, clock, schedule).value) == Accepted(schedule)
  {
    if schedule != [] {
      var n := |schedule| - 1;
      AllArrive(c, clock, schedule[..n]);
      ArrivingStep(c, Run(c, clock, schedule[..n]).value, schedule[n]);
    }
  }

  /** The step of the schedule that built a request. */
  lemma {:induction false} BuiltAt(c: Config, clock: Timespec, schedule: seq<Action>, i: nat) returns (j: nat)
    requires Run(c, clock, schedule).Some? && i < |Run(c, clock, schedule).value.h.created|
    ensures j < |schedule| && schedule[j] == Step(TAcceptor) && Run(c, clock, schedule[..j]).Some?
    ensures var s0, rq := Run(c, clock, schedule[..j]).value, Run(c, clock, schedule).value.h.created[i];
      s0.acc == AccInit(rq.fd) && s0.clock == rq.ts && |s0.h.created| == i
  {
    var n := |schedule| - 1;
    var before, s := Run(c, clock, schedule[..n]).value, Run(c, clock, schedule).value;
    assert before.h.created <= s.h.created && |s.h.created| <= |before.h.created| + 1;
    if i < |before.h.created| {
      j := BuiltAt(c, clock, schedule[..n], i);
      assert schedule[..n][..j] == schedule[..j];
    } else {
      j := n;
    }
  }

  /** Request number i carries the descriptor of the i-th connection that succeeded and the clock of
      the step that built it; at most one connection has no request yet. */
  lemma {:induction false} RequestsAreConnections(c: Config, clock: Timespec, schedule: seq<Action>, i: nat)
      returns (j: nat)
    requires Run(c, clock, schedule).Some? && i < |Run(c, clock, schedule).value.h.created|
    ensures var created := Run(c, clock, schedule).value.h.created;
      && |created| <= |Accepted(schedule)| <= |created| + 1
      && created[i].id == i && created[i].fd == Accepted(schedule)[i]
      && j < |schedule| && schedule[j] == Step(TAcceptor)
      && Run(c, clock, schedule[..j]).Some? && Run(c, clock, schedule[..j]).value.clock == created[i].ts
  {
    AllArrive(c, clock, schedule);
    Reachable(c, clock, schedule, Request(0, 0, clock));
    j := BuiltAt(c, clock, schedule, i);
  }
}
