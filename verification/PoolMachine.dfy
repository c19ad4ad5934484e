/**
 The pool under every interleaving: any number of tasks, each acquiring a connection once, making
 some calls over it and letting it go.  Each critical section of the mutex is one atomic step;
 connecting and calling happen outside it, and any of them may fail.

 A connection that reports success has been greeted, and every call on it writes one request and
 reads one reply.  The server answers each request once and in order, so the `n`th reply on a
 socket answers the `n`th request written to it (`OwnedSource.NextInLine` derives this from bytes).
 */
module PoolMachine {
  import opened Bytes
  import opened Pool

  type Task = nat

  datatype Phase =
    | Want                                   // about to enter the acquire loop
    | Parked                                 // waiting on the condition variable
    | Woken                                  // notified, will run the loop again
    | Reserved                               // counted, connecting without the lock
    | Greeting(socket: Socket)               // TCP is up, HELLO not answered yet
    | ConnectFailed                          // still counted, about to roll back
    | Ready(socket: Socket)                  // holds a guard, no call under way
    | Awaiting(socket: Socket, request: nat) // request written, reply not read
    | Failing(socket: Socket)                // the closure returned an error
    | Discarded                              // guard emptied, still counted
    | Done

  /** `calls` bounds how many calls the task's closure still makes. */
  datatype Progress = Progress(phase: Phase, calls: nat)

  /** Requests written to and replies read from one socket; `torn` after a partial write. */
  datatype Line = Line(sent: nat, read: nat, torn: bool)

  datatype Exchange = Exchange(socket: Socket, request: nat, reply: nat)

  datatype System = System(
    now: Instant,
    pool: State,
    tasks: map<Task, Progress>,
    open: set<Socket>,
    born: set<Socket>,
    lines: map<Socket, Line>,
    log: seq<Exchange>
  )

  datatype Event =
    | Arrive(t: Task, calls: nat)
    | TryAcquire(t: Task, at: Instant)
    | SpuriousWakeUp(t: Task)
    | Dial(t: Task, socket: Socket)
    | DialFails(t: Task)
    | Greeted(t: Task)
    | GreetingFails(t: Task)
    | RollBackReservation(t: Task, woken: Option<Task>)
    | Send(t: Task)
    | SendFails(t: Task, torn: bool)
    | Receive(t: Task)
    | ReceiveRemoteError(t: Task)
    | ReceiveFails(t: Task)
    | ClosureFails(t: Task)
    | Discard(t: Task)
    | Return(t: Task, at: Instant, woken: Option<Task>)
    | DropDiscarded(t: Task, woken: Option<Task>)

  function Start(): System {
    System(0, State([], 0), map[], {}, {}, map[], [])
  }

  predicate In(s: System, t: Task, phase: Phase) { t in s.tasks && s.tasks[t].phase == phase }

  predicate IsParked(phase: Phase) { phase.Parked? }

  predicate IsWoken(phase: Phase) { phase.Woken? }

  predicate IsUnfinished(phase: Phase) { !phase.Done? }

  /** A live guard, or a connect under way. */
  predicate Borrows(phase: Phase) {
    match phase
    case Want | Parked | Woken | Done => false
    case _ => true
  }

  predicate HasSocket(phase: Phase) {
    phase.Greeting? || phase.Ready? || phase.Awaiting? || phase.Failing?
  }

  /** `notify_one` wakes some parked task, and does nothing only when there is none. */
  predicate MayNotify(s: System, woken: Option<Task>) {
    match woken
    case Some(w) => In(s, w, Parked)
    case None => forall t :: t in s.tasks ==> !s.tasks[t].phase.Parked?
  }

  predicate Enabled(s: System, e: Event) {
    match e
    case Arrive(t, _) => t !in s.tasks
    case TryAcquire(t, at) => (In(s, t, Want) || In(s, t, Woken)) && s.now <= at
    case SpuriousWakeUp(t) => In(s, t, Parked)
    case Dial(t, socket) => In(s, t, Reserved) && socket !in s.born
    case DialFails(t) => In(s, t, Reserved)
    case Greeted(t) => t in s.tasks && s.tasks[t].phase.Greeting?
    case GreetingFails(t) => t in s.tasks && s.tasks[t].phase.Greeting?
    case RollBackReservation(t, woken) => In(s, t, ConnectFailed) && MayNotify(s, woken)
    case Send(t) => t in s.tasks && s.tasks[t].phase.Ready? && 0 < s.tasks[t].calls
    case SendFails(t, _) => t in s.tasks && s.tasks[t].phase.Ready? && 0 < s.tasks[t].calls
    case Receive(t) => MayReceive(s, t)
    case ReceiveRemoteError(t) => MayReceive(s, t)
    case ReceiveFails(t) => t in s.tasks && s.tasks[t].phase.Awaiting?
    case ClosureFails(t) => t in s.tasks && s.tasks[t].phase.Ready?
    case Discard(t) => t in s.tasks && s.tasks[t].phase.Failing?
    case Return(t, at, woken) => t in s.tasks && s.tasks[t].phase.Ready? && s.now <= at && MayNotify(s, woken)
    case DropDiscarded(t, woken) => In(s, t, Discarded) && MayNotify(s, woken)
  }

  predicate MayReceive(s: System, t: Task) {
    && t in s.tasks && s.tasks[t].phase.Awaiting? && s.tasks[t].phase.socket in s.lines
    && var line := s.lines[s.tasks[t].phase.socket]; line.read < line.sent && !line.torn
  }

  function LineOf(s: System, socket: Socket): Line {
    if socket in s.lines then s.lines[socket] else Line(0, 0, false)
  }

  predicate GivesBack(e: Event) { e.RollBackReservation? || e.Return? || e.DropDiscarded? }

  /** The phase an event leaves its task in. */
  function NextPhase(cfg: Config, s: System, e: Event): Phase
    requires Enabled(s, e)
  {
    match e
    case Arrive(_, _) => Want
    case TryAcquire(_, at) =>
      (match Acquire(cfg, s.pool, at).1
       case Reuse(socket) => Ready(socket)
       case Reserve => Reserved
       case Wait => Parked)
    case SpuriousWakeUp(_) => Woken
    case Dial(_, socket) => Greeting(socket)
    case DialFails(_) => ConnectFailed
    case Greeted(t) => Ready(s.tasks[t].phase.socket)
    case GreetingFails(_) => ConnectFailed
    case Send(t) => Awaiting(s.tasks[t].phase.socket, LineOf(s, s.tasks[t].phase.socket).sent)
    case SendFails(t, _) => Failing(s.tasks[t].phase.socket)
    case Receive(t) => Ready(s.tasks[t].phase.socket)
    case ReceiveRemoteError(t) => Failing(s.tasks[t].phase.socket)
    case ReceiveFails(t) => Failing(s.tasks[t].phase.socket)
    case ClosureFails(t) => Failing(s.tasks[t].phase.socket)
    case Discard(_) => Discarded
    case RollBackReservation(_, _) | Return(_, _, _) | DropDiscarded(_, _) => Done
  }

  function NextProgress(cfg: Config, s: System, e: Event): Progress
    requires Enabled(s, e)
  {
    var calls := if e.Arrive? then e.calls else if e.Send? then s.tasks[e.t].calls - 1 else s.tasks[e.t].calls;
    Progress(NextPhase(cfg, s, e), calls)
  }

  function NextTasks(cfg: Config, s: System, e: Event): map<Task, Progress>
    requires Enabled(s, e)
  {
    var tasks := s.tasks[e.t := NextProgress(cfg, s, e)];
    if GivesBack(e) && e.woken.Some? then tasks[e.woken.value := s.tasks[e.woken.value].(phase := Woken)] else tasks
  }

  /** The critical sections; every other event runs without the lock. */
  function NextPool(cfg: Config, s: System, e: Event): State
    requires Enabled(s, e)
  {
    match e
    case TryAcquire(_, at) => Acquire(cfg, s.pool, at).0
    case RollBackReservation(_, _) => RollBack(s.pool)
    case Return(t, at, _) => Release(cfg, s.pool, Some(s.tasks[t].phase.socket), at)
    case DropDiscarded(_, _) => Release(cfg, s.pool, None, s.now)
    case _ => s.pool
  }

  function NextOpen(cfg: Config, s: System, e: Event): set<Socket>
    requires Enabled(s, e)
  {
    match e
    case TryAcquire(_, at) => s.open - StaleSockets(cfg, s.pool, at)
    case Dial(_, socket) => s.open + {socket}
    case GreetingFails(t) => s.open - {s.tasks[t].phase.socket}
    case Discard(t) => s.open - {s.tasks[t].phase.socket}
    case Return(t, _, _) => if Kept(cfg, s.pool) then s.open else s.open - {s.tasks[t].phase.socket}
    case _ => s.open
  }

  function SocketUsed(s: System, e: Event): Socket
    requires Enabled(s, e) && (e.Greeted? || e.Send? || e.SendFails? || e.Receive? || e.ReceiveRemoteError?)
  {
    s.tasks[e.t].phase.socket
  }

  function NextLines(s: System, e: Event): map<Socket, Line>
    requires Enabled(s, e)
  {
    match e
    case Dial(_, socket) => s.lines[socket := Line(0, 0, false)]
    case Greeted(_) => s.lines[SocketUsed(s, e) := Line(1, 1, false)]
    case Send(_) =>
      var line := LineOf(s, SocketUsed(s, e)); s.lines[SocketUsed(s, e) := line.(sent := line.sent + 1)]
    case SendFails(_, torn) =>
      var line := LineOf(s, SocketUsed(s, e)); s.lines[SocketUsed(s, e) := line.(torn := line.torn || torn)]
    case Receive(_) | ReceiveRemoteError(_) =>
      var line := LineOf(s, SocketUsed(s, e)); s.lines[SocketUsed(s, e) := line.(read := line.read + 1)]
    case _ => s.lines
  }

  /** The reply read is the next one on the socket, whichever request it answers. */
  function NextLog(s: System, e: Event): seq<Exchange>
    requires Enabled(s, e)
  {
    match e
    case Greeted(_) => s.log + [Exchange(SocketUsed(s, e), 0, 0)]
    case Receive(_) | ReceiveRemoteError(_) =>
      s.log + [Exchange(SocketUsed(s, e), s.tasks[e.t].phase.request, LineOf(s, SocketUsed(s, e)).read)]
    case _ => s.log
  }

  function Apply(cfg: Config, s: System, e: Event): System
    requires Enabled(s, e)
  {
    System(if e.TryAcquire? || e.Return? then e.at else s.now,
           NextPool(cfg, s, e), NextTasks(cfg, s, e), NextOpen(cfg, s, e),
           if e.Dial? then s.born + {e.socket} else s.born,
           NextLines(s, e), NextLog(s, e))
  }

  predicate IsRun(cfg: Config, s: System, events: seq<Event>)
    decreases |events|
  {
    events == [] || (Enabled(s, events[0]) && IsRun(cfg, Apply(cfg, s, events[0]), events[1..]))
  }

  function After(cfg: Config, s: System, events: seq<Event>): System
    requires IsRun(cfg, s, events)
    decreases |events|
  {
    if events == [] then s else After(cfg, Apply(cfg, s, events[0]), events[1..])
  }
}
