/**
 The connection pool's shared state and its three critical sections, as the mutex serialises them.

 `inUse` counts borrowed connections and connects in flight; idle connections are not part of it.
 */
module Pool {
  import opened Bytes

  type Socket = nat
  type Instant = nat

  datatype Config = Config(maxIdle: nat, maxTotal: nat, idleTimeout: nat)

  /** An idle connection and when it came back. */
  datatype Idle = Idle(socket: Socket, since: Instant)

  datatype State = State(idle: seq<Idle>, inUse: int)

  /** What one pass through the acquire loop leads to. */
  datatype Outcome = Reuse(socket: Socket) | Reserve | Wait

  predicate IsFresh(cfg: Config, entry: Idle, now: Instant) {
    now - entry.since < cfg.idleTimeout
  }

  function Fresh(cfg: Config, idle: seq<Idle>, now: Instant): (r: seq<Idle>)
    ensures |r| <= |idle|
    ensures forall e :: e in r <==> e in idle && IsFresh(cfg, e, now)
  {
    if idle == [] then []
    else if IsFresh(cfg, idle[0], now) then [idle[0]] + Fresh(cfg, idle[1..], now)
    else Fresh(cfg, idle[1..], now)
  }

  predicate ByReturnTime(idle: seq<Idle>) {
    forall i, j :: 0 <= i < j < |idle| ==> idle[i].since <= idle[j].since
  }

  /** Stale entries go, then the oldest fresh one is lent, else a place is reserved, else one waits. */
  function Acquire(cfg: Config, p: State, now: Instant): (State, Outcome) {
    var live := Fresh(cfg, p.idle, now);
    if live != [] then (State(live[1..], p.inUse + 1), Reuse(live[0].socket))
    else if p.inUse < cfg.maxTotal then (State([], p.inUse + 1), Reserve)
    else (State([], p.inUse), Wait)
  }

  /** What an acquire at `now` closes. */
  function StaleSockets(cfg: Config, p: State, now: Instant): set<Socket> {
    set e | e in p.idle && !IsFresh(cfg, e, now) :: e.socket
  }

  function RollBack(p: State): State { State(p.idle, p.inUse - 1) }

  predicate Kept(cfg: Config, p: State) { |p.idle| < cfg.maxIdle }

  /** A guard drops: `returned` is its connection, or nothing after a discard. */
  function Release(cfg: Config, p: State, returned: Option<Socket>, now: Instant): State {
    State(if returned.Some? && Kept(cfg, p) then p.idle + [Idle(returned.value, now)] else p.idle, p.inUse - 1)
  }

  lemma {:induction false} AllFresh(cfg: Config, idle: seq<Idle>, now: Instant)
    requires forall e :: e in idle ==> IsFresh(cfg, e, now)
    ensures Fresh(cfg, idle, now) == idle
  {
    if idle != [] {
      AllFresh(cfg, idle[1..], now);
    }
  }

  /** In a queue ordered by return time the stale entries are a prefix. */
  lemma {:induction false} FreshIsSuffix(cfg: Config, idle: seq<Idle>, now: Instant, k: nat)
    requires ByReturnTime(idle) && k <= |idle|
    requires forall i :: 0 <= i < k ==> !IsFresh(cfg, idle[i], now)
    requires k < |idle| ==> IsFresh(cfg, idle[k], now)
    ensures Fresh(cfg, idle, now) == idle[k..]
  {
    if k == 0 {
      AllFresh(cfg, idle, now);
    } else {
      FreshIsSuffix(cfg, idle[1..], now, k - 1);
    }
  }

  function FrontSockets(idle: seq<Idle>, k: nat): set<Socket>
    requires k <= |idle|
  {
    set i | 0 <= i < k :: idle[i].socket
  }

  lemma StaleIsPrefix(cfg: Config, p: State, now: Instant, k: nat)
    requires ByReturnTime(p.idle) && k <= |p.idle|
    requires forall i :: 0 <= i < k ==> !IsFresh(cfg, p.idle[i], now)
    requires k < |p.idle| ==> IsFresh(cfg, p.idle[k], now)
    ensures StaleSockets(cfg, p, now) == FrontSockets(p.idle, k)
  {
    forall i | k <= i < |p.idle|
      ensures IsFresh(cfg, p.idle[i], now)
    {
      assert p.idle[k].since <= p.idle[i].since;
    }
    forall x | x in FrontSockets(p.idle, k)
      ensures x in StaleSockets(cfg, p, now)
    {
      var i :| 0 <= i < k && p.idle[i].socket == x;
      assert p.idle[i] in p.idle;
    }
    forall x | x in StaleSockets(cfg, p, now)
      ensures x in FrontSockets(p.idle, k)
    {
      var e :| e in p.idle && !IsFresh(cfg, e, now) && e.socket == x;
      var i :| 0 <= i < |p.idle| && p.idle[i] == e;
    }
  }

  lemma {:induction false} FreshOrdered(cfg: Config, idle: seq<Idle>, now: Instant)
    requires ByReturnTime(idle)
    ensures ByReturnTime(Fresh(cfg, idle, now))
  {
    if idle != [] {
      FreshOrdered(cfg, idle[1..], now);
      var rest := Fresh(cfg, idle[1..], now);
      forall j | 0 <= j < |rest|
        ensures idle[0].since <= rest[j].since
      {
        assert rest[j] in idle[1..];
      }
    }
  }

  lemma AcquireOrdered(cfg: Config, p: State, now: Instant)
    requires ByReturnTime(p.idle)
    ensures ByReturnTime(Acquire(cfg, p, now).0.idle)
    ensures forall e :: e in Acquire(cfg, p, now).0.idle ==> e in p.idle
  {
    FreshOrdered(cfg, p.idle, now);
  }

  /** The connection lent is the oldest that was fresh, and everything kept is fresh too. */
  lemma LendsOldestFresh(cfg: Config, p: State, now: Instant)
    requires ByReturnTime(p.idle) && Acquire(cfg, p, now).1.Reuse?
    ensures var (p', outcome) := Acquire(cfg, p, now);
            exists e :: e in p.idle && e.socket == outcome.socket && IsFresh(cfg, e, now)
                        && (forall f :: f in p.idle && IsFresh(cfg, f, now) ==> e.since <= f.since)
                        && (forall f :: f in p'.idle ==> IsFresh(cfg, f, now))
  {
    var live := Fresh(cfg, p.idle, now);
    FreshOrdered(cfg, p.idle, now);
    var e := live[0];
    forall f | f in p.idle && IsFresh(cfg, f, now)
      ensures e.since <= f.since
    {
      assert f in live;
    }
    forall f | f in live[1..]
      ensures IsFresh(cfg, f, now)
    {
      assert f in live;
    }
    assert e in p.idle && IsFresh(cfg, e, now);
  }

  /** An acquire keeps the fresh entries but the oldest, which it lends, and no others. */
  lemma AcquireExplained(cfg: Config, p: State, now: Instant)
    requires ByReturnTime(p.idle)
    ensures var (p', outcome) := Acquire(cfg, p, now);
            && (forall e :: e in p'.idle ==> e in p.idle && now - e.since < cfg.idleTimeout)
            && (forall e :: e in p.idle && now - e.since < cfg.idleTimeout ==>
                  e in p'.idle || outcome == Reuse(e.socket))
            && (outcome.Reuse? <==> exists e :: e in p.idle && now - e.since < cfg.idleTimeout)
            && (outcome.Reuse? ==>
                  exists e :: e in p.idle && now - e.since < cfg.idleTimeout && e.socket == outcome.socket
                    && forall f :: f in p.idle && now - f.since < cfg.idleTimeout ==> e.since <= f.since)
  {
    var live := Fresh(cfg, p.idle, now);
    if live != [] {
      assert live == [live[0]] + live[1..];
      LendsOldestFresh(cfg, p, now);
    }
  }

  /** Time as the program reads it: never backwards, otherwise arbitrary. */
  class Clock {
    var now: Instant

    constructor ()
    {
      now := 0;
    }

    method Read() returns (t: Instant)
      modifies this
      ensures old(now) <= t == now
    {
      assert now <= now;
      t :| now <= t;
      now := t;
    }
  }

  /** The fields the mutex guards. */
  class PoolState {
    const cfg: Config
    var idle: seq<Idle>
    var inUse: int
    var notices: nat // how often the condition variable has been notified

    constructor (cfg: Config)
      ensures this.cfg == cfg && Value() == State([], 0) && notices == 0
    {
      this.cfg := cfg;
      idle, inUse, notices := [], 0, 0;
    }

    function Value(): State
      reads this
    {
      State(idle, inUse)
    }

    /**
     Drops stale entries from the front, reading the clock anew for each entry looked at.  What
     goes and what stays is nevertheless decided by the last reading, `now`.
     */
    method Evict(clock: Clock) returns (closed: set<Socket>, now: Instant)
      requires ByReturnTime(idle)
      modifies this`idle, clock
      ensures old(clock.now) <= now == clock.now
      ensures idle == Fresh(cfg, old(idle), now)
      ensures closed == StaleSockets(cfg, old(Value()), now)
    {
      hide Fresh, StaleSockets;
      ghost var was := idle;
      ghost var evicted: nat := 0;
      now := clock.now;
      closed := {};
      while idle != []
        invariant evicted <= |was| && idle == was[evicted..]
        invariant old(clock.now) <= now == clock.now
        invariant forall i :: 0 <= i < evicted ==> !IsFresh(cfg, was[i], now)
        invariant closed == FrontSockets(was, evicted)
        decreases |idle|
      {
        now := clock.Read();
        if IsFresh(cfg, idle[0], now) {
          break;
        }
        closed := closed + {idle[0].socket};
        idle := idle[1..];
        evicted := evicted + 1;
      }
      FreshIsSuffix(cfg, was, now, evicted);
      StaleIsPrefix(cfg, old(Value()), now, evicted);
    }

    /** One pass through the acquire loop. */
    method TryAcquire(clock: Clock) returns (outcome: Outcome, closed: set<Socket>, now: Instant)
      requires ByReturnTime(idle)
      modifies this`idle, this`inUse, clock
      ensures old(clock.now) <= now == clock.now
      ensures (Value(), outcome) == Acquire(cfg, old(Value()), now)
      ensures closed == StaleSockets(cfg, old(Value()), now)
    {
      hide Fresh, StaleSockets;
      closed, now := Evict(clock);
      if idle != [] {
        outcome := Reuse(idle[0].socket);
        idle := idle[1..];
        inUse := inUse + 1;
      } else if inUse < cfg.maxTotal {
        inUse := inUse + 1;
        outcome := Reserve;
      } else {
        outcome := Wait;
      }
    }

    /** A connect failed: the reservation goes back, and one waiter is told. */
    method ConnectFailed()
      requires 0 < inUse
      modifies this
      ensures Value() == RollBack(old(Value())) && notices == old(notices) + 1
      ensures idle == old(idle) && inUse == old(inUse) - 1
    {
      inUse := inUse - 1;
      notices := notices + 1;
    }
  }

  /** The guard lent to a caller; `conn` is empty once the connection has been discarded. */
  class PooledConnection {
    var conn: Option<Socket>
    const state: PoolState

    constructor (socket: Socket, state: PoolState)
      ensures conn == Some(socket) && this.state == state
    {
      this.conn, this.state := Some(socket), state;
    }

    /**
     Gives the place back and tells one waiter.  The connection goes back too if the queue has
     room; otherwise it is closed.
     */
    method Drop(clock: Clock) returns (closed: Option<Socket>, now: Instant)
      requires 0 < state.inUse
      requires forall e :: e in state.idle ==> e.since <= clock.now
      modifies this, state, clock
      ensures old(clock.now) <= now == clock.now
      ensures state.Value() == Release(state.cfg, old(state.Value()), old(conn), now)
      ensures state.inUse == old(state.inUse) - 1
      ensures if old(conn).Some? && |old(state.idle)| < state.cfg.maxIdle
              then state.idle == old(state.idle) + [Idle(old(conn).value, now)] && closed == None
              else state.idle == old(state.idle) && closed == old(conn)
      ensures conn == None && state.notices == old(state.notices) + 1
      ensures old(ByReturnTime(state.idle)) ==> ByReturnTime(state.idle)
    {
      state.inUse := state.inUse - 1;
      now := clock.now;
      closed := conn;
      if conn.Some? && |state.idle| < state.cfg.maxIdle {
        now := clock.Read();
        state.idle := state.idle + [Idle(conn.value, now)];
        closed := None;
      } else if conn.None? {
        closed := None;
      }
      conn := None;
      state.notices := state.notices + 1;
    }

    /** Closes the connection, then drops the guard without it. */
    method Discard(clock: Clock) returns (closed: Option<Socket>, now: Instant)
      requires 0 < state.inUse
      requires forall e :: e in state.idle ==> e.since <= clock.now
      modifies this, state, clock
      ensures old(clock.now) <= now == clock.now
      ensures state.Value() == Release(state.cfg, old(state.Value()), None, now)
      ensures state.idle == old(state.idle) && state.inUse == old(state.inUse) - 1
      ensures closed == old(conn) && conn == None && state.notices == old(state.notices) + 1
    {
      closed := conn;
      conn := None;
      var _, at := Drop(clock);
      now := at;
    }
  }
}
