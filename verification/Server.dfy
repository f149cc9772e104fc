/** The request-queue protocol: one acceptor, N workers, one timeout manager and one
    rejecter over two FIFO queues, two mutexes and two counting semaphores. Every thread
    has a program counter, and one action runs one thread up to its next shared access. */
module Server {
  import opened Base

  /** `struct timespec`. */
  datatype Timespec = Timespec(sec: int, nsec: int) {
    function Nanos(): int { sec * 1_000_000_000 + nsec }
  }

  /** `Request`; `id` is the identity of the allocated record. */
  datatype Request = Request(id: nat, fd: int, ts: Timespec)

  /** `toFloat` is the rounding of a nanosecond count to `float` seconds. */
  datatype Config = Config(workers: nat, maxQueueTime: int, toFloat: int -> real)

  ghost predicate MonotoneRounding(f: int -> real) {
    forall a: int, b: int :: a <= b ==> f(a) <= f(b)
  }

  function TimeDiff(a: Timespec, b: Timespec): Timespec {
    Timespec(a.sec - b.sec, a.nsec - b.nsec)
  }

  /** The limit the sweep compares with: the smaller of one second and `max_queue_time`. */
  function Limit(c: Config): real {
    if 1.0 > c.maxQueueTime as real then c.maxQueueTime as real else 1.0
  }

  predicate WaitExceeded(c: Config, diff: Timespec) {
    c.toFloat(diff.Nanos()) > Limit(c)
  }

  predicate Overdue(c: Config, now: Timespec, rq: Request) {
    WaitExceeded(c, TimeDiff(now, rq.ts))
  }

  datatype Acceptor =
    | AccWait                      // in accept()
    | AccInit(fd: int)             // accepted, request not built yet
    | AccLock(rq: Request)
    | AccEnqueue(rq: Request)
    | AccUnlock
    | AccPost

  datatype Manager =
    | MgrSleep
    | MgrLock
    | MgrSample
    | MgrFront(now: Timespec)
    | MgrCheck(now: Timespec, front: Option<Request>)
    | MgrDequeue(now: Timespec, rq: Request)
    | MgrLockExcd(now: Timespec, rq: Request)
    | MgrEnqueue(now: Timespec, rq: Request)
    | MgrUnlockExcd(now: Timespec)
    | MgrPost(now: Timespec)
    | MgrUnlock(now: Timespec)

  datatype Rejecter =
    | RejWait
    | RejLock
    | RejDequeue
    | RejUnlock(got: Option<Request>)
    | RejSend(rq: Request)
    | RejClose(rq: Request)

  datatype Worker =
    | WkWait
    | WkLock
    | WkDequeue
    | WkUnlock(got: Option<Request>)
    | WkServe(rq: Request)
    | WkClose(rq: Request)

  datatype Thread = TAcceptor | TManager | TRejecter | TWorker(i: nat)

  /** What happened so far; no thread reads it. */
  datatype History = History(
    created: seq<Request>,         // built by init_request, in order
    enqueued: seq<Request>,        // entered req_q, in order
    departed: seq<Request>,        // left req_q, in order
    moved: seq<Request>,           // timed out by the manager, in order
    sample: seq<Request>,          // req_q when the manager last read the clock
    movedBefore: nat,              // how many had been moved by then
    emptyDequeues: nat,            // workers that found req_q empty
    served: seq<Request>,          // handed to the application
    rejected: seq<Request>,        // sent the timeout message
    closedServed: seq<Request>,    // closed by a worker
    closedRejected: seq<Request>)  // closed by the rejecter

  datatype State = State(
    acc: Acceptor, mgr: Manager, rej: Rejecter, wk: seq<Worker>,
    reqQ: seq<Request>, excdQ: seq<Request>,
    reqSem: nat, excdSem: nat,
    reqMtx: Option<Thread>, excdMtx: Option<Thread>,
    clock: Timespec, h: History)

  /** `Connect(-1)` is a failed accept(). `Tick` moves the monotone clock. */
  datatype Action =
    | Tick(to: Timespec)
    | Connect(fd: int)
    | Wake
    | Step(t: Thread)

  function Init(c: Config, clock: Timespec): State {
    State(AccWait, MgrSleep, RejWait, seq(c.workers, _ => WkWait), [], [], 0, 0, None, None,
          clock, History([], [], [], [], [], 0, 0, [], [], [], []))
  }

  function Front(q: seq<Request>): Option<Request> {
    if q == [] then None else Some(q[0])
  }

  function Rest(q: seq<Request>): seq<Request> {
    if q == [] then [] else q[1..]
  }

  /** The state after action `a`, or `None` when the thread is blocked or has no such step. */
  function Next(c: Config, s: State, a: Action): Option<State> {
    match a
    case Tick(to) => if s.clock.Nanos() <= to.Nanos() then Some(s.(clock := to)) else None
    case Connect(fd) =>
      if s.acc.AccWait? then Some(if fd == -1 then s else s.(acc := AccInit(fd))) else None
    case Wake => if s.mgr.MgrSleep? then Some(s.(mgr := MgrLock)) else None
    case Step(TAcceptor) => AcceptorStep(s)
    case Step(TManager) => ManagerStep(c, s)
    case Step(TRejecter) => RejecterStep(s)
    case Step(TWorker(i)) => if i < |s.wk| then WorkerStep(s, i) else None
  }

  function AcceptorStep(s: State): Option<State> {
    match s.acc
    case AccWait => None
    case AccInit(fd) =>
      var rq := Request(|s.h.created|, fd, s.clock);
      Some(s.(acc := AccLock(rq), h := s.h.(created := s.h.created + [rq])))
    case AccLock(rq) =>
      if s.reqMtx == None then Some(s.(acc := AccEnqueue(rq), reqMtx := Some(TAcceptor))) else None
    case AccEnqueue(rq) =>
      Some(s.(acc := AccUnlock, reqQ := s.reqQ + [rq], h := s.h.(enqueued := s.h.enqueued + [rq])))
    case AccUnlock => Some(s.(acc := AccPost, reqMtx := None))
    case AccPost => Some(s.(acc := AccWait, reqSem := s.reqSem + 1))
  }

  function ManagerStep(c: Config, s: State): Option<State> {
    match s.mgr
    case MgrSleep => None
    case MgrLock =>
      if s.reqMtx == None then Some(s.(mgr := MgrSample, reqMtx := Some(TManager))) else None
    case MgrSample =>
      Some(s.(mgr := MgrFront(s.clock), h := s.h.(sample := s.reqQ, movedBefore := |s.h.moved|)))
    case MgrFront(now) => Some(s.(mgr := MgrCheck(now, Front(s.reqQ))))
    case MgrCheck(now, front) =>
      Some(s.(mgr := if front.Some? && Overdue(c, now, front.value)
                     then MgrDequeue(now, front.value) else MgrUnlock(now)))
    case MgrDequeue(now, rq) =>
      Some(s.(mgr := MgrLockExcd(now, rq), reqQ := Rest(s.reqQ),
              h := s.h.(departed := s.h.departed + s.reqQ[..|s.reqQ| - |Rest(s.reqQ)|],
                        moved := s.h.moved + [rq])))
    case MgrLockExcd(now, rq) =>
      if s.excdMtx == None then Some(s.(mgr := MgrEnqueue(now, rq), excdMtx := Some(TManager))) else None
    case MgrEnqueue(now, rq) => Some(s.(mgr := MgrUnlockExcd(now), excdQ := s.excdQ + [rq]))
    case MgrUnlockExcd(now) => Some(s.(mgr := MgrPost(now), excdMtx := None))
    case MgrPost(now) => Some(s.(mgr := MgrFront(now), excdSem := s.excdSem + 1))
    case MgrUnlock(now) => Some(s.(mgr := MgrSleep, reqMtx := None))
  }

  function RejecterStep(s: State): Option<State> {
    match s.rej
    case RejWait =>
      if s.excdSem > 0 then Some(s.(rej := RejLock, excdSem := s.excdSem - 1)) else None
    case RejLock =>
      if s.excdMtx == None then Some(s.(rej := RejDequeue, excdMtx := Some(TRejecter))) else None
    case RejDequeue => Some(s.(rej := RejUnlock(Front(s.excdQ)), excdQ := Rest(s.excdQ)))
    case RejUnlock(got) =>
      Some(s.(rej := if got.Some? then RejSend(got.value) else RejWait, excdMtx := None))
    case RejSend(rq) => Some(s.(rej := RejClose(rq), h := s.h.(rejected := s.h.rejected + [rq])))
    case RejClose(rq) =>
      Some(s.(rej := RejWait, h := s.h.(closedRejected := s.h.closedRejected + [rq])))
  }

  function WorkerStep(s: State, i: nat): Option<State>
    requires i < |s.wk|
  {
    match s.wk[i]
    case WkWait =>
      if s.reqSem > 0 then Some(s.(wk := s.wk[i := WkLock], reqSem := s.reqSem - 1)) else None
    case WkLock =>
      if s.reqMtx == None then Some(s.(wk := s.wk[i := WkDequeue], reqMtx := Some(TWorker(i)))) else None
    case WkDequeue =>
      Some(s.(wk := s.wk[i := WkUnlock(Front(s.reqQ))], reqQ := Rest(s.reqQ),
              h := if s.reqQ == [] then s.h.(emptyDequeues := s.h.emptyDequeues + 1)
                   else s.h.(departed := s.h.departed + [s.reqQ[0]])))
    case WkUnlock(got) =>
      Some(s.(wk := s.wk[i := if got.Some? then WkServe(got.value) else WkWait], reqMtx := None))
    case WkServe(rq) =>
      Some(s.(wk := s.wk[i := WkClose(rq)], h := s.h.(served := s.h.served + [rq])))
    case WkClose(rq) =>
      Some(s.(wk := s.wk[i := WkWait], h := s.h.(closedServed := s.h.closedServed + [rq])))
  }

  /** The state a whole schedule leads to; `None` when some action in it was blocked. */
  function Run(c: Config, clock: Timespec, schedule: seq<Action>): Option<State> {
    if schedule == [] then Some(Init(c, clock)) else
      var before := Run(c, clock, schedule[..|schedule| - 1]);
      if before == None then None else Next(c, before.value, schedule[|schedule| - 1])
  }

  predicate CanStep(c: Config, s: State, t: Thread) { Next(c, s, Step(t)).Some? }
}
