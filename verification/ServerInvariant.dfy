/** The inductive invariant of the request-queue protocol, one group of facts at a time. */
module ServerInvariant {
  import opened Base
  import opened Server

  // ---- mutexes ---------------------------------------------------------------------

  /** Between locking and unlocking `req_q_mtx`. */
  predicate InReqSection(s: State, t: Thread) {
    match t
    case TAcceptor => s.acc.AccEnqueue? || s.acc.AccUnlock?
    case TManager => !s.mgr.MgrSleep? && !s.mgr.MgrLock?
    case TRejecter => false
    case TWorker(i) => i < |s.wk| && (s.wk[i].WkDequeue? || s.wk[i].WkUnlock?)
  }

  /** Between locking and unlocking `excd_tm_mtx`. */
  predicate InExcdSection(s: State, t: Thread) {
    match t
    case TManager => s.mgr.MgrEnqueue? || s.mgr.MgrUnlockExcd?
    case TRejecter => s.rej.RejDequeue? || s.rej.RejUnlock?
    case _ => false
  }

  predicate WkInSection(w: Worker) { w.WkDequeue? || w.WkUnlock? }

  predicate ReqMutex(s: State) {
    && (InReqSection(s, TAcceptor) <==> s.reqMtx == Some(TAcceptor))
    && (InReqSection(s, TManager) <==> s.reqMtx == Some(TManager))
    && s.reqMtx != Some(TRejecter)
    && (s.reqMtx.Some? && s.reqMtx.value.TWorker? ==> s.reqMtx.value.i < |s.wk|)
    && (forall i :: 0 <= i < |s.wk| ==> (WkInSection(s.wk[i]) <==> s.reqMtx == Some(TWorker(i))))
  }

  predicate ExcdMutex(s: State) {
    && (InExcdSection(s, TManager) <==> s.excdMtx == Some(TManager))
    && (InExcdSection(s, TRejecter) <==> s.excdMtx == Some(TRejecter))
    && (s.excdMtx.Some? ==> s.excdMtx.value.TManager? || s.excdMtx.value.TRejecter?)
  }

  predicate Mutexes(s: State) { ReqMutex(s) && ExcdMutex(s) }

  lemma AcceptorMutexes(s: State)
    requires Mutexes(s) && AcceptorStep(s).Some?
    ensures Mutexes(AcceptorStep(s).value)
  {
  }

  lemma ManagerMutexes(c: Config, s: State)
    requires Mutexes(s) && ManagerStep(c, s).Some?
    ensures Mutexes(ManagerStep(c, s).value)
  {
  }

  lemma RejecterMutexes(s: State)
    requires Mutexes(s) && RejecterStep(s).Some?
    ensures Mutexes(RejecterStep(s).value)
  {
  }

  /** How a worker's move and `req_q_mtx` go together: it locks, it unlocks, or neither. */
  predicate LocksRight(i: nat, w: Worker, w': Worker, mtx: Option<Thread>, mtx': Option<Thread>) {
    if WkInSection(w) == WkInSection(w') then mtx' == mtx
    else if WkInSection(w') then mtx == None && mtx' == Some(TWorker(i))
    else mtx' == None
  }

  lemma WorkerLocks(s: State, i: nat)
    requires i < |s.wk| && WorkerStep(s, i).Some?
    ensures var s' := WorkerStep(s, i).value;
      && LocksRight(i, s.wk[i], s'.wk[i], s.reqMtx, s'.reqMtx) && s'.wk == s.wk[i := s'.wk[i]]
      && s'.acc == s.acc && s'.mgr == s.mgr && s'.rej == s.rej && s'.excdMtx == s.excdMtx
  {
  }

  lemma WorkerMutexes(s: State, i: nat)
    requires Mutexes(s) && i < |s.wk| && WorkerStep(s, i).Some?
    ensures Mutexes(WorkerStep(s, i).value)
  {
    WorkerLocks(s, i);
  }

  /** Whoever is inside a section is the one its mutex names. */
  lemma Owner(s: State, t: Thread)
    requires Mutexes(s)
    ensures InReqSection(s, t) ==> s.reqMtx == Some(t)
    ensures InExcdSection(s, t) ==> s.excdMtx == Some(t)
  {
    if t.TWorker? && t.i < |s.wk| { assert WkInSection(s.wk[t.i]) ==> s.reqMtx == Some(t); }
  }

  lemma {:induction false} MutexesKept(c: Config, s: State, a: Action)
    requires Mutexes(s) && Next(c, s, a).Some?
    ensures Mutexes(Next(c, s, a).value)
  {
    match a {
      case Step(TAcceptor) => AcceptorMutexes(s);
      case Step(TManager) => ManagerMutexes(c, s);
      case Step(TRejecter) => RejecterMutexes(s);
      case Step(TWorker(i)) => WorkerMutexes(s, i);
      case _ =>
    }
  }

  // ---- semaphore tokens --------------------------------------------------------------

  /** 1 for a worker that took a token from `req_q_sem` and has not dequeued yet. */
  function Token(w: Worker): nat { if w.WkLock? || w.WkDequeue? then 1 else 0 }

  function Tokens(wk: seq<Worker>): nat {
    if wk == [] then 0 else Tokens(wk[..|wk| - 1]) + Token(wk[|wk| - 1])
  }

  lemma {:induction false} TokensUpdate(wk: seq<Worker>, i: nat, w: Worker)
    requires i < |wk|
    ensures Tokens(wk[i := w]) == Tokens(wk) - Token(wk[i]) + Token(w)
  {
    var n := |wk| - 1;
    if i == n {
      assert wk[i := w][..n] == wk[..n];
    } else {
      TokensUpdate(wk[..n], i, w);
      assert wk[i := w][..n] == wk[..n][i := w];
    }
  }

  /** The acceptor has enqueued and still owes a post. */
  function PostOwed(s: State): nat { if s.acc.AccUnlock? || s.acc.AccPost? then 1 else 0 }

  /** The manager has enqueued on `excd_tm_q` and still owes a post. */
  function ExcdPostOwed(s: State): nat { if s.mgr.MgrUnlockExcd? || s.mgr.MgrPost? then 1 else 0 }

  function RejToken(s: State): nat { if s.rej.RejLock? || s.rej.RejDequeue? then 1 else 0 }

  predicate TokenBalance(s: State) {
    && |s.reqQ| + |s.h.moved| == s.reqSem + Tokens(s.wk) + PostOwed(s) + s.h.emptyDequeues
    && s.h.emptyDequeues <= |s.h.moved|
  }

  predicate ExcdBalance(s: State) {
    && |s.excdQ| == s.excdSem + RejToken(s) + ExcdPostOwed(s)
    && (s.rej.RejUnlock? ==> s.rej.got.Some?)
  }

  lemma {:induction false} TokensAt(wk: seq<Worker>, i: nat)
    requires i < |wk|
    ensures Token(wk[i]) <= Tokens(wk)
  {
    if i < |wk| - 1 { TokensAt(wk[..|wk| - 1], i); }
  }

  lemma WorkerTokens(s: State, i: nat)
    requires TokenBalance(s) && i < |s.wk| && WorkerStep(s, i).Some?
    ensures TokenBalance(WorkerStep(s, i).value)
  {
    var s' := WorkerStep(s, i).value;
    TokensAt(s.wk, i);
    TokensUpdate(s.wk, i, s'.wk[i]);
  }

  lemma ManagerTokens(c: Config, s: State)
    requires TokenBalance(s) && Sweep(c, s) && ManagerStep(c, s).Some?
    ensures TokenBalance(ManagerStep(c, s).value)
  {
  }

  lemma AcceptorTokens(s: State)
    requires TokenBalance(s) && AcceptorStep(s).Some?
    ensures TokenBalance(AcceptorStep(s).value)
  {
  }

  lemma TokenBalanceKept(c: Config, s: State, a: Action)
    requires TokenBalance(s) && Sweep(c, s) && Next(c, s, a).Some?
    ensures TokenBalance(Next(c, s, a).value)
  {
    match a {
      case Step(TAcceptor) => AcceptorTokens(s);
      case Step(TManager) => ManagerTokens(c, s);
      case Step(TWorker(i)) => WorkerTokens(s, i);
      case _ =>
    }
  }

  lemma RejecterExcd(s: State)
    requires ExcdBalance(s) && RejecterStep(s).Some?
    ensures ExcdBalance(RejecterStep(s).value)
  {
  }

  lemma ManagerExcd(c: Config, s: State)
    requires ExcdBalance(s) && ManagerStep(c, s).Some?
    ensures ExcdBalance(ManagerStep(c, s).value)
  {
  }

  lemma {:induction false} ExcdBalanceKept(c: Config, s: State, a: Action)
    requires ExcdBalance(s) && Next(c, s, a).Some?
    ensures ExcdBalance(Next(c, s, a).value)
  {
    match a {
      case Step(TRejecter) => RejecterExcd(s);
      case Step(TManager) => ManagerExcd(c, s);
      case _ =>
    }
  }

  // ---- the timeout sweep ---------------------------------------------------------------

  predicate Sweep(c: Config, s: State) {
    match s.mgr
    case MgrCheck(now, front) => front == Front(s.reqQ)
    case MgrDequeue(now, rq) => s.reqQ != [] && s.reqQ[0] == rq && Overdue(c, now, rq)
    case MgrLockExcd(now, rq) => Overdue(c, now, rq)
    case MgrEnqueue(now, rq) => Overdue(c, now, rq)
    case MgrUnlock(now) => s.reqQ != [] ==> !Overdue(c, now, s.reqQ[0])
    case _ => true
  }

  lemma {:induction false} SweepKept(c: Config, s: State, a: Action)
    requires Sweep(c, s) && Mutexes(s) && Next(c, s, a).Some?
    ensures Sweep(c, Next(c, s, a).value)
  {
    assert InReqSection(s, TManager) <==> s.reqMtx == Some(TManager);
    match a {
      case Step(t) => assert InReqSection(s, t) <==> s.reqMtx == Some(t);
      case _ =>
    }
  }

  // ---- order ---------------------------------------------------------------------------

  /** The request the acceptor built and has not enqueued. */
  function AccHand(s: State): seq<Request> {
    if s.acc.AccLock? || s.acc.AccEnqueue? then [s.acc.rq] else []
  }

  function MgrHand(s: State): seq<Request> {
    if s.mgr.MgrLockExcd? || s.mgr.MgrEnqueue? then [s.mgr.rq] else []
  }

  function RejHand(s: State): seq<Request> {
    match s.rej
    case RejUnlock(Some(rq)) => [rq]
    case RejSend(rq) => [rq]
    case RejClose(rq) => [rq]
    case _ => []
  }

  predicate SortedByTime(q: seq<Request>) {
    forall i, j :: 0 <= i < j < |q| ==> q[i].ts.Nanos() <= q[j].ts.Nanos()
  }

  /** Creation, arrival and departure order, which is also the order of the timestamps. */
  predicate Arrivals(s: State) {
    && s.h.created == s.h.enqueued + AccHand(s)
    && s.h.enqueued == s.h.departed + s.reqQ
    && (forall i :: 0 <= i < |s.h.created| ==> s.h.created[i].id == i)
    && (forall i :: 0 <= i < |s.h.created| ==> s.h.created[i].ts.Nanos() <= s.clock.Nanos())
    && SortedByTime(s.h.created)
  }

  /** The timed-out requests pass through `excd_tm_q` and the rejecter in order. */
  predicate Rejections(s: State) {
    && s.h.moved == s.h.closedRejected + RejHand(s) + s.excdQ + MgrHand(s)
    && s.h.rejected == s.h.closedRejected + (if s.rej.RejClose? then [s.rej.rq] else [])
  }

  predicate Order(s: State) { Arrivals(s) && Rejections(s) }

  lemma AcceptorArrivals(s: State)
    requires Arrivals(s) && AcceptorStep(s).Some?
    ensures Arrivals(AcceptorStep(s).value)
  {
    var s' := AcceptorStep(s).value;
    if s.acc.AccEnqueue? {
      assert s'.h.enqueued == s'.h.departed + s'.reqQ;
      assert s'.h.created == s'.h.enqueued + [];
    }
  }

  lemma ManagerArrivals(c: Config, s: State)
    requires Arrivals(s) && Sweep(c, s) && ManagerStep(c, s).Some?
    ensures Arrivals(ManagerStep(c, s).value)
  {
    if s.mgr.MgrDequeue? {
      assert s.reqQ[..1] == [s.reqQ[0]] && s.reqQ == [s.reqQ[0]] + s.reqQ[1..];
    }
  }

  lemma {:induction false} WorkerArrivals(s: State, i: nat)
    requires Arrivals(s) && i < |s.wk| && WorkerStep(s, i).Some?
    ensures Arrivals(WorkerStep(s, i).value)
  {
    if s.wk[i].WkDequeue? && s.reqQ != [] { assert s.reqQ == [s.reqQ[0]] + s.reqQ[1..]; }
  }

  lemma ManagerRejections(c: Config, s: State)
    requires Rejections(s) && ManagerStep(c, s).Some?
    ensures Rejections(ManagerStep(c, s).value)
  {
  }

  lemma RejecterRejections(s: State)
    requires Rejections(s) && ExcdBalance(s) && RejecterStep(s).Some?
    ensures Rejections(RejecterStep(s).value)
  {
    var s' := RejecterStep(s).value;
    match s.rej {
      case RejDequeue => assert s.excdQ == RejHand(s') + s'.excdQ;
      case RejClose(rq) => assert RejHand(s) == [rq] && RejHand(s') == [];
      case _ => assert RejHand(s') == RejHand(s);
    }
  }

  lemma {:induction false} ArrivalsKept(c: Config, s: State, a: Action)
    requires Arrivals(s) && Sweep(c, s) && Next(c, s, a).Some?
    ensures Arrivals(Next(c, s, a).value)
  {
    match a {
      case Step(TAcceptor) => AcceptorArrivals(s);
      case Step(TManager) => ManagerArrivals(c, s);
      case Step(TWorker(i)) => WorkerArrivals(s, i);
      case _ =>
    }
  }

  lemma {:induction false} RejectionsKept(c: Config, s: State, a: Action)
    requires Rejections(s) && ExcdBalance(s) && Next(c, s, a).Some?
    ensures Rejections(Next(c, s, a).value)
  {
    match a {
      case Step(TManager) => ManagerRejections(c, s);
      case Step(TRejecter) => RejecterRejections(s);
      case _ =>
    }
  }

  lemma {:induction false} OrderKept(c: Config, s: State, a: Action)
    requires Order(s) && Sweep(c, s) && ExcdBalance(s) && Next(c, s, a).Some?
    ensures Order(Next(c, s, a).value)
  {
    ArrivalsKept(c, s, a);
    RejectionsKept(c, s, a);
  }

  /** Moved requests are in creation order and have all left `req_q`. */
  predicate MovedInOrder(s: State) {
    && (forall i, j :: 0 <= i < j < |s.h.moved| ==> s.h.moved[i].id < s.h.moved[j].id)
    && (forall i :: 0 <= i < |s.h.moved| ==> s.h.moved[i].id < |s.h.departed|)
  }

  lemma {:induction false} MovedInOrderKept(c: Config, s: State, a: Action)
    requires MovedInOrder(s) && Order(s) && Sweep(c, s) && Next(c, s, a).Some?
    ensures MovedInOrder(Next(c, s, a).value)
  {
    var s' := Next(c, s, a).value;
    if a == Step(TManager) && s.mgr.MgrDequeue? {
      assert s.h.created[|s.h.departed|] == s.mgr.rq;
      assert s'.h.moved == s.h.moved + [s.mgr.rq];
      assert |s'.h.departed| == |s.h.departed| + 1;
    } else {
      assert s'.h.moved == s.h.moved && |s'.h.departed| >= |s.h.departed|;
    }
  }

  // ---- places --------------------------------------------------------------------------

  /** How often `r` stands in `q`. */
  function Count(q: seq<Request>, r: Request): nat {
    if q == [] then 0 else Count(q[..|q| - 1], r) + (if q[|q| - 1] == r then 1 else 0)
  }

  lemma CountAppend(q: seq<Request>, x: Request, r: Request)
    ensures Count(q + [x], r) == Count(q, r) + (if x == r then 1 else 0)
  {
    assert (q + [x])[..|q|] == q;
  }

  lemma {:induction false} CountConcat(p: seq<Request>, q: seq<Request>, r: Request)
    ensures Count(p + q, r) == Count(p, r) + Count(q, r)
  {
    if q == [] {
      assert p + q == p;
    } else {
      CountConcat(p, q[..|q| - 1], r);
      assert (p + q)[..|p + q| - 1] == p + q[..|q| - 1];
    }
  }

  /** 1 when worker `w` has `r` in its hands. */
  function Holds(w: Worker, r: Request): nat {
    if w == WkUnlock(Some(r)) || w == WkServe(r) || w == WkClose(r) then 1 else 0
  }

  /** 1 when worker `w` ran the application on `r` and has not closed it. */
  function Closes(w: Worker, r: Request): nat { if w == WkClose(r) then 1 else 0 }

  function HeldBy(wk: seq<Worker>, r: Request): nat {
    if wk == [] then 0 else HeldBy(wk[..|wk| - 1], r) + Holds(wk[|wk| - 1], r)
  }

  function ClosingBy(wk: seq<Worker>, r: Request): (n: nat)
    ensures n <= HeldBy(wk, r)
  {
    if wk == [] then 0 else ClosingBy(wk[..|wk| - 1], r) + Closes(wk[|wk| - 1], r)
  }

  lemma {:induction false} HeldUpdate(wk: seq<Worker>, i: nat, w: Worker, r: Request)
    requires i < |wk|
    ensures HeldBy(wk[i := w], r) == HeldBy(wk, r) - Holds(wk[i], r) + Holds(w, r)
    ensures ClosingBy(wk[i := w], r) == ClosingBy(wk, r) - Closes(wk[i], r) + Closes(w, r)
  {
    var n := |wk| - 1;
    if i == n {
      assert wk[i := w][..n] == wk[..n];
    } else {
      HeldUpdate(wk[..n], i, w, r);
      assert wk[i := w][..n] == wk[..n][i := w];
    }
  }

  /** Where `r` can be once it left `req_q`, and how far the workers got with it. */
  predicate Places(s: State, r: Request) {
    && Count(s.h.departed, r) == Count(s.h.moved, r) + HeldBy(s.wk, r) + Count(s.h.closedServed, r)
    && Count(s.h.served, r) == ClosingBy(s.wk, r) + Count(s.h.closedServed, r)
  }

  /** The one manager step that moves a request: the front leaves `req_q` and joins the moved. */
  lemma ManagerMoves(c: Config, s: State)
    requires Sweep(c, s) && ManagerStep(c, s).Some?
    ensures var s' := ManagerStep(c, s).value;
      && s'.wk == s.wk && s'.h.served == s.h.served && s'.h.closedServed == s.h.closedServed
      && if s.mgr.MgrDequeue?
         then s'.h.departed == s.h.departed + [s.mgr.rq] && s'.h.moved == s.h.moved + [s.mgr.rq]
         else s'.h.departed == s.h.departed && s'.h.moved == s.h.moved
  {
    if s.mgr.MgrDequeue? { assert s.reqQ[..1] == [s.reqQ[0]]; }
  }

  lemma ManagerPlaces(c: Config, s: State, r: Request)
    requires Places(s, r) && Sweep(c, s) && ManagerStep(c, s).Some?
    ensures Places(ManagerStep(c, s).value, r)
  {
    ManagerMoves(c, s);
    if s.mgr.MgrDequeue? {
      CountAppend(s.h.departed, s.mgr.rq, r);
      CountAppend(s.h.moved, s.mgr.rq, r);
    }
  }

  predicate SameCounts(h: History, h': History) {
    h'.departed == h.departed && h'.served == h.served && h'.closedServed == h.closedServed
  }

  /** What worker `w` takes, serves or closes when it becomes `w'`, with `q` the queue. */
  predicate WorkerMove(w: Worker, w': Worker, q: seq<Request>, h: History, h': History) {
    match w
    case WkDequeue =>
      if q == [] then w' == WkUnlock(None) && SameCounts(h, h')
      else w' == WkUnlock(Some(q[0])) && SameCounts(h.(departed := h.departed + [q[0]]), h')
    case WkUnlock(got) => w' == (if got.Some? then WkServe(got.value) else WkWait) && SameCounts(h, h')
    case WkServe(rq) => w' == WkClose(rq) && SameCounts(h.(served := h.served + [rq]), h')
    case WkClose(rq) => w' == WkWait && SameCounts(h.(closedServed := h.closedServed + [rq]), h')
    case _ => (w'.WkLock? || w'.WkDequeue?) && SameCounts(h, h')
  }

  lemma WorkerMoves(s: State, i: nat)
    requires i < |s.wk| && WorkerStep(s, i).Some?
    ensures var s' := WorkerStep(s, i).value;
      && s'.wk == s.wk[i := s'.wk[i]] && s'.h.moved == s.h.moved
      && WorkerMove(s.wk[i], s'.wk[i], s.reqQ, s.h, s'.h)
  {
  }

  /** What that does to the counts of `r`. */
  lemma MoveCounts(w: Worker, w': Worker, q: seq<Request>, h: History, h': History, r: Request)
    requires WorkerMove(w, w', q, h, h')
    ensures Count(h'.departed, r) - Count(h.departed, r)
         == Holds(w', r) - Holds(w, r) + (Count(h'.closedServed, r) - Count(h.closedServed, r))
    ensures Count(h'.served, r) - Count(h.served, r)
         == Closes(w', r) - Closes(w, r) + (Count(h'.closedServed, r) - Count(h.closedServed, r))
  {
    match w {
      case WkDequeue => if q != [] { CountAppend(h.departed, q[0], r); }
      case WkServe(rq) => CountAppend(h.served, rq, r);
      case WkClose(rq) => CountAppend(h.closedServed, rq, r);
      case _ =>
    }
  }

  lemma WorkerPlaces(s: State, i: nat, r: Request)
    requires Places(s, r) && i < |s.wk| && WorkerStep(s, i).Some?
    ensures Places(WorkerStep(s, i).value, r)
  {
    var s' := WorkerStep(s, i).value;
    WorkerMoves(s, i);
    MoveCounts(s.wk[i], s'.wk[i], s.reqQ, s.h, s'.h, r);
    HeldUpdate(s.wk, i, s'.wk[i], r);
  }

  lemma OtherPlaces(s: State, s': State, r: Request)
    requires Places(s, r) && s'.wk == s.wk
    requires s'.h.departed == s.h.departed && s'.h.moved == s.h.moved
    requires s'.h.served == s.h.served && s'.h.closedServed == s.h.closedServed
    ensures Places(s', r)
  {
  }

  lemma OthersKeepPlaces(c: Config, s: State, a: Action)
    requires Next(c, s, a).Some? && a != Step(TManager) && (a.Step? ==> !a.t.TWorker?)
    ensures var s' := Next(c, s, a).value;
      && s'.wk == s.wk && s'.h.departed == s.h.departed && s'.h.moved == s.h.moved
      && s'.h.served == s.h.served && s'.h.closedServed == s.h.closedServed
  {
  }

  lemma PlacesKept(c: Config, s: State, a: Action, r: Request)
    requires Places(s, r) && Sweep(c, s) && Next(c, s, a).Some?
    ensures Places(Next(c, s, a).value, r)
  {
    match a {
      case Step(TManager) => ManagerPlaces(c, s, r);
      case Step(TWorker(i)) => WorkerPlaces(s, i, r);
      case _ =>
        OthersKeepPlaces(c, s, a);
        OtherPlaces(s, Next(c, s, a).value, r);
    }
  }

  // ---- one sweep, from the clock sample to the unlock ------------------------------------

  function SampleTime(m: Manager): Option<Timespec> {
    match m
    case MgrSleep => None
    case MgrLock => None
    case MgrSample => None
    case MgrFront(now) => Some(now)
    case MgrCheck(now, _) => Some(now)
    case MgrDequeue(now, _) => Some(now)
    case MgrLockExcd(now, _) => Some(now)
    case MgrEnqueue(now, _) => Some(now)
    case MgrUnlockExcd(now) => Some(now)
    case MgrPost(now) => Some(now)
    case MgrUnlock(now) => Some(now)
  }

  /** The queue at the sample is what the sweep moved, all overdue, and then what is left. */
  predicate Partition(c: Config, s: State) {
    SampleTime(s.mgr).Some? ==>
      && s.h.movedBefore <= |s.h.moved|
      && s.h.sample == s.h.moved[s.h.movedBefore..] + s.reqQ
      && (forall i :: s.h.movedBefore <= i < |s.h.moved| ==>
            Overdue(c, SampleTime(s.mgr).value, s.h.moved[i]))
  }

  lemma ManagerPartition(c: Config, s: State)
    requires Partition(c, s) && Sweep(c, s) && ManagerStep(c, s).Some?
    ensures Partition(c, ManagerStep(c, s).value)
  {
    var s' := ManagerStep(c, s).value;
    if s.mgr.MgrDequeue? {
      assert s.reqQ == [s.reqQ[0]] + s.reqQ[1..];
      assert s'.h.moved[s.h.movedBefore..] == s.h.moved[s.h.movedBefore..] + [s.mgr.rq];
    }
  }

  lemma {:induction false} PartitionKept(c: Config, s: State, a: Action)
    requires Partition(c, s) && Sweep(c, s) && Mutexes(s) && Next(c, s, a).Some?
    ensures Partition(c, Next(c, s, a).value)
  {
    match a {
      case Step(TManager) => ManagerPartition(c, s);
      case Step(TAcceptor) => assert s.acc.AccEnqueue? ==> SampleTime(s.mgr) == None;
      case Step(TWorker(i)) => assert s.wk[i].WkDequeue? ==> SampleTime(s.mgr) == None;
      case _ =>
    }
  }

  // ---- all together ----------------------------------------------------------------------

  /** `rq` was overdue at some time up to `limit` nanoseconds. */
  ghost predicate WasOverdue(c: Config, rq: Request, limit: int) {
    exists at :: Overdue(c, at, rq) && at.Nanos() <= limit
  }

  /** Every request moved so far was overdue at some sampled time. */
  ghost predicate MovedOverdue(c: Config, s: State) {
    forall i :: 0 <= i < |s.h.moved| ==> WasOverdue(c, s.h.moved[i], s.clock.Nanos())
  }

  /** A sample is never later than the clock. */
  predicate SamplePast(s: State) {
    SampleTime(s.mgr).Some? ==> SampleTime(s.mgr).value.Nanos() <= s.clock.Nanos()
  }

  lemma SamplePastKept(c: Config, s: State, a: Action)
    requires SamplePast(s) && Next(c, s, a).Some?
    ensures SamplePast(Next(c, s, a).value) && s.clock.Nanos() <= Next(c, s, a).value.clock.Nanos()
  {
  }

  lemma StillOverdue(c: Config, rq: Request, early: int, late: int)
    requires WasOverdue(c, rq, early) && early <= late
    ensures WasOverdue(c, rq, late)
  {
    var at :| Overdue(c, at, rq) && at.Nanos() <= early;
    assert Overdue(c, at, rq) && at.Nanos() <= late;
  }

  /** What a step adds to the moved requests is the one in the manager's hands. */
  lemma MovedStep(c: Config, s: State, a: Action)
    requires Next(c, s, a).Some?
    ensures Next(c, s, a).value.h.moved ==
      s.h.moved + if a == Step(TManager) && s.mgr.MgrDequeue? then [s.mgr.rq] else []
  {
    assert s.h.moved + [] == s.h.moved;
  }

  lemma {:induction false} MovedKept(c: Config, s: State, a: Action)
    requires MovedOverdue(c, s) && SamplePast(s) && Sweep(c, s) && Next(c, s, a).Some?
    ensures MovedOverdue(c, Next(c, s, a).value)
  {
    var moved, late := Next(c, s, a).value.h.moved, Next(c, s, a).value.clock.Nanos();
    SamplePastKept(c, s, a);
    MovedStep(c, s, a);
    forall i | 0 <= i < |moved| ensures WasOverdue(c, moved[i], late) {
      if i == |s.h.moved| { assert WasOverdue(c, s.mgr.rq, s.clock.Nanos()); }
      StillOverdue(c, moved[i], s.clock.Nanos(), late);
    }
  }

  ghost predicate Inv(c: Config, s: State) {
    && |s.wk| == c.workers
    && Mutexes(s) && TokenBalance(s) && ExcdBalance(s) && Sweep(c, s)
    && Order(s) && MovedInOrder(s) && Partition(c, s) && MovedOverdue(c, s) && SamplePast(s)
  }

  lemma WorkersKept(c: Config, s: State, a: Action)
    requires Next(c, s, a).Some?
    ensures |Next(c, s, a).value.wk| == |s.wk|
  {
  }

  lemma {:induction false} InvKept(c: Config, s: State, a: Action, s': State)
    requires Inv(c, s) && Next(c, s, a) == Some(s')
    ensures Inv(c, s')
  {
    assert |s'.wk| == |s.wk| by { WorkersKept(c, s, a); }
    assert Mutexes(s') by { MutexesKept(c, s, a); }
    assert TokenBalance(s') by { TokenBalanceKept(c, s, a); }
    assert ExcdBalance(s') by { ExcdBalanceKept(c, s, a); }
    assert Sweep(c, s') by { SweepKept(c, s, a); }
    assert Partition(c, s') by { PartitionKept(c, s, a); }
    assert MovedInOrder(s') by { MovedInOrderKept(c, s, a); }
    assert Order(s') by { OrderKept(c, s, a); }
    assert MovedOverdue(c, s') by { MovedKept(c, s, a); }
    assert SamplePast(s') by { SamplePastKept(c, s, a); }
  }

  lemma {:induction false} AllWaiting(wk: seq<Worker>, r: Request)
    requires forall i :: 0 <= i < |wk| ==> wk[i].WkWait?
    ensures Tokens(wk) == 0 && HeldBy(wk, r) == 0
  {
    if wk != [] { AllWaiting(wk[..|wk| - 1], r); }
  }

  /** Every state of every schedule satisfies the invariant, for any request `r`. */
  lemma {:induction false} Reachable(c: Config, clock: Timespec, schedule: seq<Action>, r: Request)
    requires Run(c, clock, schedule).Some?
    ensures Inv(c, Run(c, clock, schedule).value)
    ensures Places(Run(c, clock, schedule).value, r)
  {
    if schedule == [] {
      AllWaiting(Init(c, clock).wk, r);
    } else {
      var front, last := schedule[..|schedule| - 1], schedule[|schedule| - 1];
      Reachable(c, clock, front, r);
      var s := Run(c, clock, front).value;
      InvKept(c, s, last, Next(c, s, last).value);
      PlacesKept(c, s, last, r);
    }
  }
}
