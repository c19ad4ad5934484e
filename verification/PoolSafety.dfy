/** What every reachable state of the pool satisfies. */
module PoolSafety {
  import opened Bytes
  import opened Pool
  import opened PoolMachine

  function Count(tasks: map<Task, Progress>, p: Phase -> bool): nat {
    |Those(tasks, p)|
  }

  function Those(tasks: map<Task, Progress>, p: Phase -> bool): set<Task> {
    set t | t in tasks && p(tasks[t].phase)
  }

  lemma CountUpdate(tasks: map<Task, Progress>, t: Task, to: Progress, p: Phase -> bool)
    ensures Count(tasks[t := to], p) ==
            Count(tasks, p) - (if t in tasks && p(tasks[t].phase) then 1 else 0) + (if p(to.phase) then 1 else 0)
  {
    var before, after := Those(tasks, p), Those(tasks[t := to], p);
    if p(to.phase) {
      assert after == before + {t};
    } else {
      assert after == before - {t};
    }
  }

  lemma CountNone(tasks: map<Task, Progress>, p: Phase -> bool)
    ensures Count(tasks, p) == 0 <==> forall t :: t in tasks ==> !p(tasks[t].phase)
  {
    var those := Those(tasks, p);
    if those == {} {
      forall t | t in tasks
        ensures !p(tasks[t].phase)
      {
        assert t !in those;
      }
    } else {
      var t :| t in those;
    }
  }

  // ---- accounting -------------------------------------------------------------------------

  predicate Accounting(cfg: Config, s: System) {
    && s.pool.inUse == Count(s.tasks, Borrows)
    && s.pool.inUse + |s.pool.idle| <= cfg.maxTotal
    && |s.pool.idle| <= cfg.maxIdle
  }

  /** No wake-up is lost: free places never outnumber the woken tasks while someone is parked. */
  predicate NobodyForgotten(cfg: Config, s: System) {
    0 < Count(s.tasks, IsParked) ==> cfg.maxTotal - s.pool.inUse <= Count(s.tasks, IsWoken)
  }

  predicate Ordered(s: System) {
    ByReturnTime(s.pool.idle) && forall e :: e in s.pool.idle ==> e.since <= s.now
  }

  /** How an event's task and the task it wakes change the three counts. */
  lemma CountsAfter(cfg: Config, s: System, e: Event)
    requires Enabled(s, e)
    ensures var s' := Apply(cfg, s, e);
            var was := if e.t in s.tasks then s.tasks[e.t].phase else Done;
            var next := NextPhase(cfg, s, e);
            var woken := if GivesBack(e) then e.woken else None;
            && Count(s'.tasks, Borrows) == Count(s.tasks, Borrows)
                 - (if Borrows(was) then 1 else 0) + (if Borrows(next) then 1 else 0)
            && Count(s'.tasks, IsParked) == Count(s.tasks, IsParked)
                 - (if IsParked(was) then 1 else 0) + (if IsParked(next) then 1 else 0) - (if woken.Some? then 1 else 0)
            && Count(s'.tasks, IsWoken) == Count(s.tasks, IsWoken)
                 - (if IsWoken(was) then 1 else 0) + (if IsWoken(next) then 1 else 0) + (if woken.Some? then 1 else 0)
            && (GivesBack(e) && woken.None? ==> Count(s.tasks, IsParked) == 0)
  {
    hide Count, NextPool, NextOpen, NextLines, NextLog, NextPhase;
    var s' := Apply(cfg, s, e);
    var to := s'.tasks[e.t];
    CountUpdate(s.tasks, e.t, to, Borrows);
    CountUpdate(s.tasks, e.t, to, IsParked);
    CountUpdate(s.tasks, e.t, to, IsWoken);
    if GivesBack(e) {
      if e.woken.Some? {
        var w := e.woken.value;
        var mid := s.tasks[e.t := to];
        CountUpdate(mid, w, mid[w].(phase := Woken), Borrows);
        CountUpdate(mid, w, mid[w].(phase := Woken), IsParked);
        CountUpdate(mid, w, mid[w].(phase := Woken), IsWoken);
      } else {
        CountNone(s.tasks, IsParked);
      }
    }
  }

  lemma AccountingKept(cfg: Config, s: System, e: Event)
    requires Enabled(s, e) && Accounting(cfg, s) && NobodyForgotten(cfg, s)
    ensures Accounting(cfg, Apply(cfg, s, e)) && NobodyForgotten(cfg, Apply(cfg, s, e))
  {
    hide Count, NextTasks, NextOpen, NextLines, NextLog, StaleSockets;
    CountsAfter(cfg, s, e);
  }

  lemma ReleaseOrdered(cfg: Config, p: State, returned: Option<Socket>, before: Instant, now: Instant)
    requires before <= now && ByReturnTime(p.idle) && forall e :: e in p.idle ==> e.since <= before
    ensures var p' := Release(cfg, p, returned, now);
            ByReturnTime(p'.idle) && forall e :: e in p'.idle ==> e.since <= now
  {
  }

  lemma OrderedKept(cfg: Config, s: System, e: Event)
    requires Enabled(s, e) && Ordered(s)
    ensures Ordered(Apply(cfg, s, e))
  {
    hide Fresh, Acquire, ByReturnTime, NextTasks, NextOpen, NextLines, NextLog;
    if e.TryAcquire? {
      AcquireOrdered(cfg, s.pool, e.at);
    } else if e.Return? {
      ReleaseOrdered(cfg, s.pool, Some(s.tasks[e.t].phase.socket), s.now, e.at);
    } else if e.DropDiscarded? {
      ReleaseOrdered(cfg, s.pool, None, s.now, s.now);
    }
  }

  // ---- exclusive ownership ----------------------------------------------------------------

  function SocketOf(phase: Phase): Option<Socket> {
    if HasSocket(phase) then Some(phase.socket) else None
  }

  function HeldBy(s: System, t: Task): Option<Socket> {
    if t in s.tasks then SocketOf(s.tasks[t].phase) else None
  }

  predicate Holds(s: System, t: Task, x: Socket) { HeldBy(s, t) == Some(x) }

  predicate Queued(idle: seq<Idle>, x: Socket) {
    exists e :: e in idle && e.socket == x
  }

  predicate Distinct(idle: seq<Idle>) {
    forall i, j :: 0 <= i < j < |idle| ==> idle[i].socket != idle[j].socket
  }

  /** Each open socket is in one queue slot or in the hands of one task, and in one only. */
  ghost predicate Exclusive(s: System) {
    && Distinct(s.pool.idle)
    && (forall t, u, x :: Holds(s, t, x) && Holds(s, u, x) ==> t == u)
    && (forall t, x :: Holds(s, t, x) ==> !Queued(s.pool.idle, x))
    && (forall x :: x in s.open <==> Queued(s.pool.idle, x) || exists t :: Holds(s, t, x))
    && s.open <= s.born
  }

  lemma {:induction false} FreshSockets(cfg: Config, idle: seq<Idle>, now: Instant)
    requires Distinct(idle)
    ensures Distinct(Fresh(cfg, idle, now))
  {
    if idle != [] {
      var rest := Fresh(cfg, idle[1..], now);
      FreshSockets(cfg, idle[1..], now);
      forall j | 0 <= j < |rest|
        ensures rest[j].socket != idle[0].socket
      {
        assert rest[j] in idle[1..];
      }
    }
  }

  /** Acquire takes stale sockets and the one it lends out of the queue, and no others. */
  lemma AcquireSockets(cfg: Config, p: State, now: Instant, stale: set<Socket>)
    requires Distinct(p.idle) && stale == StaleSockets(cfg, p, now)
    ensures var (p', outcome) := Acquire(cfg, p, now);
            && Distinct(p'.idle)
            && (outcome.Reuse? ==> Queued(p.idle, outcome.socket) && outcome.socket !in stale)
            && (forall x :: x in stale ==> Queued(p.idle, x))
            && (forall x :: Queued(p'.idle, x) <==> Queued(p.idle, x) && x !in stale && outcome != Reuse(x))
  {
    var live := Fresh(cfg, p.idle, now);
    var (p', outcome) := Acquire(cfg, p, now);
    FreshSockets(cfg, p.idle, now);
    forall x
      ensures Queued(live, x) <==> Queued(p.idle, x) && x !in stale
    {
      if Queued(live, x) {
        var e :| e in live && e.socket == x;
        assert e in p.idle;
        forall f | f in p.idle && !IsFresh(cfg, f, now)
          ensures f.socket != x
        {
          DistinctEntries(p.idle, e, f);
        }
      }
      if Queued(p.idle, x) && x !in stale {
        var e :| e in p.idle && e.socket == x;
        assert e in live;
      }
    }
    if live != [] {
      assert live[0] in live;
      assert live == [live[0]] + live[1..];
      forall x
        ensures Queued(live[1..], x) <==> Queued(live, x) && x != live[0].socket
      {
        assert forall e :: e in live <==> e == live[0] || e in live[1..];
      }
    }
  }

  lemma DistinctEntries(idle: seq<Idle>, e: Idle, f: Idle)
    requires Distinct(idle) && e in idle && f in idle && e != f
    ensures e.socket != f.socket
  {
  }

  lemma ExclusiveAfterAcquire(cfg: Config, s: System, e: Event)
    requires e.TryAcquire? && Enabled(s, e) && Exclusive(s)
    ensures Exclusive(Apply(cfg, s, e))
  {
    hide Fresh, Acquire, StaleSockets, Queued, Distinct, NextLines, NextLog;
    var s' := Apply(cfg, s, e);
    var stale := StaleSockets(cfg, s.pool, e.at);
    var outcome := Acquire(cfg, s.pool, e.at).1;
    AcquireSockets(cfg, s.pool, e.at, stale);
    assert forall u: Task, x: Socket :: Holds(s', u, x) <==> if u == e.t then outcome == Reuse(x) else Holds(s, u, x);
    forall x
      ensures x in s'.open <==> Queued(s'.pool.idle, x) || exists t :: Holds(s', t, x)
    {
      if outcome == Reuse(x) {
        assert Holds(s', e.t, x);
      } else if exists t :: Holds(s, t, x) {
        var t :| Holds(s, t, x);
        assert Holds(s', t, x);
      }
    }
  }

  lemma ExclusiveAfterReturn(cfg: Config, s: System, e: Event)
    requires e.Return? && Enabled(s, e) && Exclusive(s)
    ensures Exclusive(Apply(cfg, s, e))
  {
    hide Queued, Distinct, NextLines, NextLog;
    var s' := Apply(cfg, s, e);
    var socket := s.tasks[e.t].phase.socket;
    var kept := Kept(cfg, s.pool);
    assert Holds(s, e.t, socket);
    QueueGrows(s.pool.idle, Idle(socket, e.at));
    assert forall u: Task, x: Socket :: Holds(s', u, x) <==> u != e.t && Holds(s, u, x);
    forall x
      ensures x in s'.open <==> Queued(s'.pool.idle, x) || exists t :: Holds(s', t, x)
    {
      if x != socket && exists t :: Holds(s, t, x) {
        var t :| Holds(s, t, x);
        assert Holds(s', t, x);
      }
    }
  }

  lemma QueueGrows(idle: seq<Idle>, e: Idle)
    ensures forall x :: Queued(idle + [e], x) <==> Queued(idle, x) || x == e.socket
    ensures Distinct(idle) && !Queued(idle, e.socket) ==> Distinct(idle + [e])
  {
    assert e in idle + [e];
    assert forall f :: f in idle + [e] <==> f in idle || f == e;
  }

  lemma ExclusiveAfterDial(cfg: Config, s: System, e: Event)
    requires e.Dial? && Enabled(s, e) && Exclusive(s)
    ensures Exclusive(Apply(cfg, s, e))
  {
    hide Queued, Distinct, NextLines, NextLog;
    var s' := Apply(cfg, s, e);
    assert e.socket !in s.open;
    assert forall u: Task, x: Socket :: Holds(s', u, x) <==> if u == e.t then x == e.socket else Holds(s, u, x);
    forall x
      ensures x in s'.open <==> Queued(s'.pool.idle, x) || exists t :: Holds(s', t, x)
    {
      if x == e.socket {
        assert Holds(s', e.t, x);
      } else if exists t :: Holds(s, t, x) {
        var t :| Holds(s, t, x);
        assert Holds(s', t, x);
      }
    }
  }

  /** The remaining events leave the queue alone; their task keeps its socket or closes it. */
  lemma ExclusiveKept(cfg: Config, s: System, e: Event)
    requires Enabled(s, e) && Exclusive(s)
    ensures Exclusive(Apply(cfg, s, e))
  {
    if e.TryAcquire? {
      ExclusiveAfterAcquire(cfg, s, e);
    } else if e.Return? {
      ExclusiveAfterReturn(cfg, s, e);
    } else if e.Dial? {
      ExclusiveAfterDial(cfg, s, e);
    } else {
      ExclusiveOtherwise(cfg, s, e);
    }
  }

  lemma SocketsOtherwise(cfg: Config, s: System, e: Event)
    requires Enabled(s, e) && !e.TryAcquire? && !e.Return? && !e.Dial?
    ensures var s' := Apply(cfg, s, e);
            var was, now := HeldBy(s, e.t), HeldBy(s', e.t);
            && (now == was || now == None)
            && s'.open == (if was.Some? && now.None? then s.open - {was.value} else s.open)
            && s'.pool.idle == s.pool.idle && s'.born == s.born
            && forall u :: u != e.t ==> HeldBy(s', u) == HeldBy(s, u)
  {
    hide NextLines, NextLog, Acquire;
  }

  lemma ExclusiveOtherwise(cfg: Config, s: System, e: Event)
    requires Enabled(s, e) && Exclusive(s) && !e.TryAcquire? && !e.Return? && !e.Dial?
    ensures Exclusive(Apply(cfg, s, e))
  {
    hide Queued, Distinct, Apply;
    var s' := Apply(cfg, s, e);
    var was, now := HeldBy(s, e.t), HeldBy(s', e.t);
    SocketsOtherwise(cfg, s, e);
    assert forall u: Task, x: Socket :: Holds(s', u, x) ==> Holds(s, u, x);
    assert was.Some? ==> Holds(s, e.t, was.value);
    forall x
      ensures x in s'.open <==> Queued(s'.pool.idle, x) || exists t :: Holds(s', t, x)
    {
      if was == Some(x) {
        assert now == was ==> Holds(s', e.t, x);
      } else if exists t :: Holds(s, t, x) {
        var t :| Holds(s, t, x);
        assert Holds(s', t, x);
      }
    }
  }

  // ---- request and reply ------------------------------------------------------------------

  predicate Settled(line: Line) { line.sent == line.read && !line.torn }

  predicate LineFits(s: System, phase: Phase) {
    match phase
    case Greeting(x) => LineOf(s, x) == Line(0, 0, false)
    case Ready(x) => Settled(LineOf(s, x))
    case Awaiting(x, request) => LineOf(s, x) == Line(request + 1, request, false)
    case _ => true
  }

  /** Nothing is left unread on an idle connection, and every reply so far answered its request. */
  predicate Matched(s: System) {
    && (forall e :: e in s.pool.idle ==> Settled(LineOf(s, e.socket)))
    && (forall t :: t in s.tasks ==> LineFits(s, s.tasks[t].phase))
    && (forall i :: 0 <= i < |s.log| ==> s.log[i].request == s.log[i].reply)
  }

  /** Only the acting task's own socket sees its line change. */
  lemma LinesAfter(cfg: Config, s: System, e: Event)
    requires Enabled(s, e) && Exclusive(s)
    ensures var s' := Apply(cfg, s, e);
            && (forall q :: q in s.pool.idle ==> LineOf(s', q.socket) == LineOf(s, q.socket))
            && (forall u :: u in s.tasks && u != e.t && HasSocket(s.tasks[u].phase) ==>
                  LineOf(s', s.tasks[u].phase.socket) == LineOf(s, s.tasks[u].phase.socket))
  {
    hide Acquire, Distinct, MayNotify, NextPhase, NextTasks, NextPool, NextOpen, NextLog;
    var s' := Apply(cfg, s, e);
    forall q | q in s.pool.idle
      ensures LineOf(s', q.socket) == LineOf(s, q.socket)
    {
      assert Queued(s.pool.idle, q.socket) && q.socket in s.open;
      assert !Holds(s, e.t, q.socket);
    }
    forall u | u in s.tasks && u != e.t && HasSocket(s.tasks[u].phase)
      ensures LineOf(s', s.tasks[u].phase.socket) == LineOf(s, s.tasks[u].phase.socket)
    {
      var x := s.tasks[u].phase.socket;
      assert Holds(s, u, x) && x in s.open && !Holds(s, e.t, x);
    }
  }

  lemma PhasesAfter(cfg: Config, s: System, e: Event, u: Task)
    requires Enabled(s, e) && u != e.t
    ensures var s' := Apply(cfg, s, e);
            && (u in s'.tasks <==> u in s.tasks)
            && (u in s.tasks ==> s'.tasks[u].phase == s.tasks[u].phase || !HasSocket(s'.tasks[u].phase))
  {
    hide Acquire, NextPhase, NextPool, NextOpen, NextLog, NextLines;
  }

  /** The acting task and the log, event by event. */
  lemma ActorMatched(cfg: Config, s: System, e: Event)
    requires Enabled(s, e) && Exclusive(s) && Matched(s)
    ensures var s' := Apply(cfg, s, e);
            && LineFits(s', s'.tasks[e.t].phase)
            && (forall i :: 0 <= i < |s'.log| ==> s'.log[i].request == s'.log[i].reply)
  {
    hide Acquire, Release, StaleSockets, Distinct, MayNotify, NextPool, NextOpen;
    if e.TryAcquire? {
      AcquireSockets(cfg, s.pool, e.at, StaleSockets(cfg, s.pool, e.at));
    }
  }

  lemma MatchedKept(cfg: Config, s: System, e: Event)
    requires Enabled(s, e) && Exclusive(s) && Matched(s)
    ensures Matched(Apply(cfg, s, e))
  {
    hide Apply, Distinct;
    var s' := Apply(cfg, s, e);
    LinesAfter(cfg, s, e);
    ActorMatched(cfg, s, e);
    QueueAfter(cfg, s, e);
    forall u | u in s'.tasks
      ensures LineFits(s', s'.tasks[u].phase)
    {
      if u != e.t {
        PhasesAfter(cfg, s, e, u);
        assert LineFits(s, s.tasks[u].phase);
      }
    }
  }

  /** Whatever is in the queue afterwards was in it before, or has just come back settled. */
  lemma QueueAfter(cfg: Config, s: System, e: Event)
    requires Enabled(s, e) && Matched(s)
    ensures var s' := Apply(cfg, s, e);
            forall q :: q in s'.pool.idle ==>
              q in s.pool.idle || (Settled(LineOf(s, q.socket)) && LineOf(s', q.socket) == LineOf(s, q.socket))
  {
    hide MayNotify, StaleSockets, NextPhase, NextTasks, NextOpen, NextLog;
    if e.TryAcquire? {
      var live := Fresh(cfg, s.pool.idle, e.at);
      assert forall q :: q in live ==> q in s.pool.idle;
      assert live != [] ==> forall q :: q in live[1..] ==> q in live;
    } else if e.Return? {
      assert LineFits(s, s.tasks[e.t].phase);
    }
  }
}
