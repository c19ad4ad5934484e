/** The pool's promises, for every run from an empty pool. */
module PoolTheorems {
  import opened Bytes
  import opened Pool
  import opened PoolMachine
  import opened PoolSafety

  ghost predicate Inv(cfg: Config, s: System) {
    Accounting(cfg, s) && NobodyForgotten(cfg, s) && Ordered(s) && Exclusive(s) && Matched(s)
  }

  lemma StartInv(cfg: Config)
    ensures Inv(cfg, Start())
  {
    CountNone(map[], Borrows);
    CountNone(map[], IsParked);
  }

  lemma InvKept(cfg: Config, s: System, e: Event)
    requires Enabled(s, e) && Inv(cfg, s)
    ensures Inv(cfg, Apply(cfg, s, e))
  {
    hide Apply, Accounting, NobodyForgotten, Ordered, Exclusive, Matched;
    AccountingKept(cfg, s, e);
    OrderedKept(cfg, s, e);
    ExclusiveKept(cfg, s, e);
    MatchedKept(cfg, s, e);
  }

  lemma {:induction false} InvAlong(cfg: Config, s: System, events: seq<Event>)
    requires IsRun(cfg, s, events) && Inv(cfg, s)
    ensures Inv(cfg, After(cfg, s, events))
    decreases |events|
  {
    hide Apply, Inv, Enabled;
    if events != [] {
      InvKept(cfg, s, events[0]);
      InvAlong(cfg, Apply(cfg, s, events[0]), events[1..]);
    }
  }

  lemma Reached(cfg: Config, events: seq<Event>)
    requires IsRun(cfg, Start(), events)
    ensures Inv(cfg, After(cfg, Start(), events))
  {
    StartInv(cfg);
    InvAlong(cfg, Start(), events);
  }

  // ---- the cap ----------------------------------------------------------------------------

  function QueueSockets(idle: seq<Idle>): set<Socket> { set e | e in idle :: e.socket }

  lemma {:induction false} QueueSocketsBound(idle: seq<Idle>)
    ensures |QueueSockets(idle)| <= |idle|
  {
    if idle != [] {
      QueueSocketsBound(idle[1..]);
      assert QueueSockets(idle) == QueueSockets(idle[1..]) + {idle[0].socket};
    }
  }

  lemma QueuedIsMember(idle: seq<Idle>, x: Socket)
    ensures Queued(idle, x) <==> x in QueueSockets(idle)
  {
  }

  lemma {:induction false} HeldSocketsBound(s: System, sockets: set<Socket>, tasks: set<Task>)
    requires forall x :: x in sockets ==> exists t :: t in tasks && Holds(s, t, x)
    ensures |sockets| <= |tasks|
    decreases |sockets|
  {
    if sockets != {} {
      var x :| x in sockets;
      var t :| t in tasks && Holds(s, t, x);
      forall y | y in sockets - {x}
        ensures exists u :: u in tasks - {t} && Holds(s, u, y)
      {
        var u :| u in tasks && Holds(s, u, y);
      }
      HeldSocketsBound(s, sockets - {x}, tasks - {t});
    }
  }

  /**
   The documented cap covers idle and borrowed connections, yet the check in `acquire` reads
   only the borrowed count.  It holds all the same.
   */
  lemma SocketCap(cfg: Config, events: seq<Event>)
    requires IsRun(cfg, Start(), events)
    ensures var s := After(cfg, Start(), events);
            |s.open| <= s.pool.inUse + |s.pool.idle| <= cfg.maxTotal
  {
    var s := After(cfg, Start(), events);
    Reached(cfg, events);
    var queued := QueueSockets(s.pool.idle);
    var borrowers := Those(s.tasks, Borrows);
    QueueSocketsBound(s.pool.idle);
    forall x | x in s.open - queued
      ensures exists t :: t in borrowers && Holds(s, t, x)
    {
      QueuedIsMember(s.pool.idle, x);
      var t :| Holds(s, t, x);
      assert t in borrowers;
    }
    HeldSocketsBound(s, s.open - queued, borrowers);
    assert |s.open| <= |queued| + |s.open - queued| by {
      assert s.open <= queued + (s.open - queued);
      SubsetSize(s.open, queued + (s.open - queued));
    }
  }

  lemma {:induction false} SubsetSize(a: set<Socket>, b: set<Socket>)
    requires a <= b
    ensures |a| <= |b|
  {
    if a != {} {
      var x :| x in a;
      SubsetSize(a - {x}, b - {x});
    }
  }

  /** `in_use == max_total` says precisely that the next acquire will wait, at whatever time it comes. */
  lemma WaitsExactlyAtCap(cfg: Config, events: seq<Event>, at: Instant)
    requires IsRun(cfg, Start(), events) && After(cfg, Start(), events).now <= at
    ensures var s := After(cfg, Start(), events);
            Acquire(cfg, s.pool, at).1.Wait? <==> s.pool.inUse == cfg.maxTotal
  {
    Reached(cfg, events);
  }

  // ---- accounting and exclusivity ---------------------------------------------------------

  /** `in_use` is the number of live guards and connects under way; no decrement can underflow. */
  lemma ExactAccounting(cfg: Config, events: seq<Event>)
    requires IsRun(cfg, Start(), events)
    ensures var s := After(cfg, Start(), events);
            && s.pool.inUse == |set t | t in s.tasks && Borrows(s.tasks[t].phase)|
            && |s.pool.idle| <= cfg.maxIdle
            && forall e :: Enabled(s, e) && GivesBack(e) ==> 0 < s.pool.inUse
  {
    hide IsRun, Apply, Matched, Exclusive, Ordered, NobodyForgotten;
    var s := After(cfg, Start(), events);
    Reached(cfg, events);
    CountNone(s.tasks, Borrows);
    assert Those(s.tasks, Borrows) == set t | t in s.tasks && Borrows(s.tasks[t].phase);
  }

  /** No connection is in two places: two guards, two queue slots, or a guard and a slot. */
  lemma NoSharing(cfg: Config, events: seq<Event>, t: Task, u: Task, x: Socket, i: nat, j: nat)
    requires IsRun(cfg, Start(), events)
    ensures var s := After(cfg, Start(), events);
            && (Holds(s, t, x) && Holds(s, u, x) ==> t == u)
            && (i < j < |s.pool.idle| ==> s.pool.idle[i].socket != s.pool.idle[j].socket)
            && (i < |s.pool.idle| && Holds(s, t, x) ==> s.pool.idle[i].socket != x)
  {
    var s := After(cfg, Start(), events);
    Reached(cfg, events);
    if i < |s.pool.idle| {
      assert s.pool.idle[i] in s.pool.idle;
      assert Queued(s.pool.idle, s.pool.idle[i].socket);
    }
  }

  /**
   At every acquire of every run, exactly the entries stale at the last look at the clock are
   closed: the fresh ones stay queued, but for the oldest, which is lent whenever there is one.
   */
  lemma EvictsExactlyStale(cfg: Config, events: seq<Event>, t: Task, at: Instant)
    requires IsRun(cfg, Start(), events) && Enabled(After(cfg, Start(), events), TryAcquire(t, at))
    ensures var s := After(cfg, Start(), events);
            var s' := Apply(cfg, s, TryAcquire(t, at));
            && (forall e :: e in s'.pool.idle ==> e in s.pool.idle && at - e.since < cfg.idleTimeout)
            && (forall e :: e in s.pool.idle && at - e.since >= cfg.idleTimeout ==> e.socket !in s'.open)
            && (forall e :: e in s.pool.idle && at - e.since < cfg.idleTimeout ==>
                  e in s'.pool.idle || s'.tasks[t].phase == Ready(e.socket))
            && (s'.tasks[t].phase.Ready? <==> exists e :: e in s.pool.idle && at - e.since < cfg.idleTimeout)
            && (s'.tasks[t].phase.Ready? ==>
                  exists e :: e in s.pool.idle && at - e.since < cfg.idleTimeout && e.socket == s'.tasks[t].phase.socket
                    && forall f :: f in s.pool.idle && at - f.since < cfg.idleTimeout ==> e.since <= f.since)
  {
    hide IsRun, Matched, Exclusive, Accounting, NobodyForgotten, NextLines, NextLog, Acquire;
    var s := After(cfg, Start(), events);
    Reached(cfg, events);
    AcquireExplained(cfg, s.pool, at);
  }

  /**
   A connection handed back after success is kept, at the end of the queue, exactly when the queue
   has room; otherwise it is closed.  Either way one place is given back and nothing else moves.
   */
  lemma ReturnKeepsConnection(cfg: Config, events: seq<Event>, t: Task, at: Instant, woken: Option<Task>)
    requires IsRun(cfg, Start(), events) && Enabled(After(cfg, Start(), events), Return(t, at, woken))
    ensures var s := After(cfg, Start(), events);
            var s' := Apply(cfg, s, Return(t, at, woken));
            var x := s.tasks[t].phase.socket;
            && s'.pool.inUse == s.pool.inUse - 1 && s'.tasks[t].phase == Done
            && x in s.open
            && if |s.pool.idle| < cfg.maxIdle
               then s'.pool.idle == s.pool.idle + [Idle(x, at)] && s'.open == s.open
               else s'.pool.idle == s.pool.idle && s'.open == s.open - {x}
  {
    hide IsRun, Accounting, NobodyForgotten, Ordered, Matched, NextLines, NextLog, Acquire;
    var s := After(cfg, Start(), events);
    Reached(cfg, events);
    assert Holds(s, t, s.tasks[t].phase.socket);
  }

  /** A failed connect and a discarded guard give back their place and leave the queue as it is. */
  lemma FailureKeepsQueue(cfg: Config, s: System, e: Event)
    requires Enabled(s, e) && (e.RollBackReservation? || e.DropDiscarded?)
    ensures var s' := Apply(cfg, s, e);
            && s'.pool.inUse == s.pool.inUse - 1 && s'.pool.idle == s.pool.idle && s'.open == s.open
            && s'.tasks[e.t].phase == Done
            && (e.woken.Some? ==> s'.tasks[e.woken.value].phase == Woken)
  {
    hide NextLines, NextLog, Acquire;
  }

  // ---- failed connections -----------------------------------------------------------------

  predicate Fails(e: Event) {
    e.GreetingFails? || e.SendFails? || e.ReceiveRemoteError? || e.ReceiveFails? || e.ClosureFails?
  }

  /** `x` is out of the pool for good: only the task it failed may still have it, to throw away. */
  ghost predicate Doomed(s: System, t: Task, x: Socket) {
    && x in s.born && !Queued(s.pool.idle, x)
    && forall u :: Holds(s, u, x) ==> u == t && s.tasks[t].phase == Failing(x)
  }

  lemma FailsDooms(cfg: Config, s: System, e: Event)
    requires Enabled(s, e) && Exclusive(s) && Fails(e)
    ensures Doomed(Apply(cfg, s, e), e.t, s.tasks[e.t].phase.socket)
  {
    hide NextLines, NextLog, Acquire, Queued, Distinct;
    var x := s.tasks[e.t].phase.socket;
    var s' := Apply(cfg, s, e);
    assert Holds(s, e.t, x);
    forall u | Holds(s', u, x)
      ensures u == e.t && s'.tasks[e.t].phase == Failing(x)
    {
      assert u != e.t ==> Holds(s, u, x);
    }
  }

  lemma DoomedStays(cfg: Config, s: System, e: Event, t: Task, x: Socket)
    requires Enabled(s, e) && Exclusive(s) && Doomed(s, t, x)
    ensures Doomed(Apply(cfg, s, e), t, x)
  {
    hide Queued, Distinct, Acquire, StaleSockets, NextLines, NextLog;
    var s' := Apply(cfg, s, e);
    if e.TryAcquire? {
      AcquireSockets(cfg, s.pool, e.at, StaleSockets(cfg, s.pool, e.at));
    } else if e.Return? {
      QueueGrows(s.pool.idle, Idle(s.tasks[e.t].phase.socket, e.at));
      assert Holds(s, e.t, s.tasks[e.t].phase.socket);
    }
    forall u | Holds(s', u, x)
      ensures u == t && s'.tasks[t].phase == Failing(x)
    {
      assert u != e.t || (!e.TryAcquire? && !e.Dial?) ==> Holds(s, u, x);
    }
  }

  lemma {:induction false} DoomedAlong(cfg: Config, s: System, events: seq<Event>, t: Task, x: Socket)
    requires IsRun(cfg, s, events) && Inv(cfg, s) && Doomed(s, t, x)
    ensures Doomed(After(cfg, s, events), t, x) && Inv(cfg, After(cfg, s, events))
    decreases |events|
  {
    hide Apply, Doomed, Enabled, Accounting, NobodyForgotten, Ordered, Exclusive, Matched;
    if events != [] {
      InvKept(cfg, s, events[0]);
      DoomedStays(cfg, s, events[0], t, x);
      DoomedAlong(cfg, Apply(cfg, s, events[0]), events[1..], t, x);
    }
  }

  /**
   Once a call on a pooled connection has failed in any way, the connection is never queued nor
   held by another task again, whatever happens later; and it is closed as soon as its task has
   let go of it.
   */
  lemma FailedIsNeverReused(cfg: Config, events: seq<Event>, e: Event, later: seq<Event>)
    requires IsRun(cfg, Start(), events) && Enabled(After(cfg, Start(), events), e) && Fails(e)
    requires IsRun(cfg, Apply(cfg, After(cfg, Start(), events), e), later)
    ensures var s := After(cfg, Start(), events);
            var x := s.tasks[e.t].phase.socket;
            var s' := After(cfg, Apply(cfg, s, e), later);
            && (forall i :: 0 <= i < |s'.pool.idle| ==> s'.pool.idle[i].socket != x)
            && (forall u :: u in s'.tasks && HasSocket(s'.tasks[u].phase) && s'.tasks[u].phase.socket == x ==>
                  u == e.t && s'.tasks[u].phase == Failing(x))
            && (x in s'.open ==> e.t in s'.tasks && s'.tasks[e.t].phase == Failing(x))
  {
    hide IsRun, Apply, Accounting, NobodyForgotten, Ordered, Matched;
    var s := After(cfg, Start(), events);
    var x := s.tasks[e.t].phase.socket;
    Reached(cfg, events);
    InvKept(cfg, s, e);
    FailsDooms(cfg, s, e);
    DoomedAlong(cfg, Apply(cfg, s, e), later, e.t, x);
    var s' := After(cfg, Apply(cfg, s, e), later);
    forall i | 0 <= i < |s'.pool.idle|
      ensures s'.pool.idle[i].socket != x
    {
      assert s'.pool.idle[i] in s'.pool.idle;
    }
    forall u | u in s'.tasks && HasSocket(s'.tasks[u].phase) && s'.tasks[u].phase.socket == x
      ensures u == e.t && s'.tasks[u].phase == Failing(x)
    {
      assert Holds(s', u, x);
    }
  }

  /** While someone is parked, the free places do not outnumber the woken tasks on their way to them. */
  lemma NoLostWakeUp(cfg: Config, events: seq<Event>, t: Task)
    requires IsRun(cfg, Start(), events) && In(After(cfg, Start(), events), t, Parked)
    ensures var s := After(cfg, Start(), events);
            cfg.maxTotal - s.pool.inUse <= |set u | u in s.tasks && s.tasks[u].phase.Woken?|
  {
    var s := After(cfg, Start(), events);
    Reached(cfg, events);
    CountNone(s.tasks, IsParked);
    assert Those(s.tasks, IsWoken) == set u | u in s.tasks && s.tasks[u].phase.Woken?;
  }

  // ---- request and reply ------------------------------------------------------------------

  /** Every reply ever read answered the request of the call that read it. */
  lemma EveryReplyAnswersItsRequest(cfg: Config, events: seq<Event>, i: nat)
    requires IsRun(cfg, Start(), events) && i < |After(cfg, Start(), events).log|
    ensures var exchange := After(cfg, Start(), events).log[i]; exchange.request == exchange.reply
  {
    Reached(cfg, events);
  }

  /** A connection in the queue has no unread reply and no half-written request. */
  lemma IdleIsSettled(cfg: Config, events: seq<Event>, i: nat)
    requires IsRun(cfg, Start(), events) && i < |After(cfg, Start(), events).pool.idle|
    ensures var s := After(cfg, Start(), events); Settled(LineOf(s, s.pool.idle[i].socket))
  {
    Reached(cfg, events);
  }
}
