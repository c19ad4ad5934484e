/**
 Nobody waits for ever.  With room for at least one connection, once arrivals and spurious
 wake-ups stop every run is finite, of a length known beforehand, and can stop only when every
 task is done, whatever fails and whoever barges in.  Without room for any, the first acquire
 never returns.
 */
module PoolLiveness {
  import opened Bytes
  import opened Pool
  import opened PoolMachine
  import opened PoolSafety
  import opened PoolTheorems

  predicate Productive(e: Event) { !e.Arrive? && !e.SpuriousWakeUp? }

  predicate AllDone(s: System) { forall t :: t in s.tasks ==> s.tasks[t].phase.Done? }

  ghost predicate Stuck(s: System) { forall e :: Productive(e) ==> !Enabled(s, e) }

  predicate CallsWithin(s: System, c: nat) { forall t :: t in s.tasks ==> s.tasks[t].calls <= c }

  // ---- a measure --------------------------------------------------------------------------

  function Weight(p: Progress): nat {
    match p.phase
    case Done | Parked => 0
    case Discarded | ConnectFailed => 1
    case Failing(_) => 2
    case Ready(_) => 3 + 2 * p.calls
    case Awaiting(_, _) => 4 + 2 * p.calls
    case Greeting(_) => 4 + 2 * p.calls
    case Reserved => 5 + 2 * p.calls
    case Want | Woken => 6 + 2 * p.calls
  }

  ghost function Sum(tasks: map<Task, Progress>): nat
    decreases |tasks|
  {
    if tasks == map[] then 0 else
      var t :| t in tasks;
      Weight(tasks[t]) + Sum(tasks - {t})
  }

  lemma {:induction false} SumSplit(tasks: map<Task, Progress>, t: Task)
    requires t in tasks
    ensures Sum(tasks) == Weight(tasks[t]) + Sum(tasks - {t})
    decreases |tasks|
  {
    hide Weight;
    var u :| u in tasks && Sum(tasks) == Weight(tasks[u]) + Sum(tasks - {u});
    if u != t {
      SumSplit(tasks - {u}, t);
      SumSplit(tasks - {t}, u);
      assert tasks - {u} - {t} == tasks - {t} - {u};
    }
  }

  lemma SumUpdate(tasks: map<Task, Progress>, t: Task, to: Progress)
    requires t in tasks
    ensures Sum(tasks[t := to]) == Sum(tasks) - Weight(tasks[t]) + Weight(to)
  {
    hide Weight;
    SumSplit(tasks, t);
    SumSplit(tasks[t := to], t);
    assert tasks[t := to] - {t} == tasks - {t};
  }

  lemma Times(m: nat, n: nat, k: nat)
    requires m <= n
    ensures m * k <= n * k && (n + 1) * k == n * k + k
  {
  }

  lemma {:induction false} SumBound(tasks: map<Task, Progress>, k: nat)
    requires forall t :: t in tasks ==> Weight(tasks[t]) <= k
    ensures Sum(tasks) <= |tasks| * k
    decreases |tasks|
  {
    hide Weight, Sum;
    if tasks == map[] {
      NoSum();
    } else {
      var t :| t in tasks;
      SumSplit(tasks, t);
      SumBound(tasks - {t}, k);
      assert |tasks - {t}| == |tasks| - 1;
      Times(0, |tasks - {t}|, k);
    }
  }

  lemma NoSum()
    ensures Sum(map[]) == 0
  {
  }

  /** A wake-up may cost up to `6 + 2c`; it always comes with some task's last step. */
  ghost function Rank(s: System, c: nat): nat {
    Count(s.tasks, IsUnfinished) * (7 + 2 * c) + Sum(s.tasks)
  }

  predicate Descends(s: System, s': System, t: Task, c: nat) {
    && t in s.tasks && t in s'.tasks && !s.tasks[t].phase.Done?
    && Weight(s'.tasks[t]) < Weight(s.tasks[t])
    && s'.tasks[t].calls <= c
  }

  lemma MoveMeasured(cfg: Config, s: System, e: Event, c: nat)
    requires Enabled(s, e) && Productive(e) && CallsWithin(s, c) && !GivesBack(e)
    ensures var s' := Apply(cfg, s, e);
            && Descends(s, s', e.t, c) && !s'.tasks[e.t].phase.Done?
            && s'.tasks == s.tasks[e.t := s'.tasks[e.t]]
  {
    hide Acquire, StaleSockets, NextPool, NextOpen, NextLines, NextLog;
  }

  lemma GiveBackMeasured(cfg: Config, s: System, e: Event, c: nat)
    requires Enabled(s, e) && CallsWithin(s, c) && GivesBack(e)
    ensures var s' := Apply(cfg, s, e);
            && Descends(s, s', e.t, c) && s'.tasks[e.t].phase.Done?
            && (e.woken.None? ==> s'.tasks == s.tasks[e.t := s'.tasks[e.t]])
            && (e.woken.Some? ==>
                  var w := e.woken.value;
                  && In(s, w, Parked) && w != e.t && In(s', w, Woken) && s'.tasks[w].calls <= c
                  && s'.tasks == s.tasks[e.t := s'.tasks[e.t]][w := s'.tasks[w]])
  {
    hide Acquire, Release, StaleSockets, NextPool, NextOpen, NextLines, NextLog;
  }

  lemma RankDrops(cfg: Config, s: System, e: Event, c: nat)
    requires Enabled(s, e) && Productive(e) && CallsWithin(s, c)
    ensures Rank(Apply(cfg, s, e), c) < Rank(s, c)
    ensures CallsWithin(Apply(cfg, s, e), c)
  {
    hide Apply, Enabled, Count, Sum;
    var s' := Apply(cfg, s, e);
    if GivesBack(e) {
      GiveBackMeasured(cfg, s, e, c);
    } else {
      MoveMeasured(cfg, s, e, c);
    }
    CountUpdate(s.tasks, e.t, s'.tasks[e.t], IsUnfinished);
    SumUpdate(s.tasks, e.t, s'.tasks[e.t]);
    if GivesBack(e) {
      if e.woken.Some? {
        var w, mid := e.woken.value, s.tasks[e.t := s'.tasks[e.t]];
        CountUpdate(mid, w, s'.tasks[w], IsUnfinished);
        SumUpdate(mid, w, s'.tasks[w]);
      }
      Times(0, Count(s'.tasks, IsUnfinished), 7 + 2 * c);
    }
  }

  lemma {:induction false} RunsShrinkRank(cfg: Config, s: System, events: seq<Event>, c: nat)
    requires IsRun(cfg, s, events) && CallsWithin(s, c)
    requires forall e :: e in events ==> Productive(e)
    ensures |events| + Rank(After(cfg, s, events), c) <= Rank(s, c)
    decreases |events|
  {
    hide Apply, Enabled, Rank, CallsWithin;
    if events != [] {
      RankDrops(cfg, s, events[0], c);
      RunsShrinkRank(cfg, Apply(cfg, s, events[0]), events[1..], c);
    }
  }

  /** However the scheduler plays, `n` tasks of at most `c` calls settle within `n * (13 + 4c)` steps. */
  lemma RunsAreShort(cfg: Config, s: System, events: seq<Event>, c: nat)
    requires IsRun(cfg, s, events) && CallsWithin(s, c)
    requires forall e :: e in events ==> Productive(e)
    ensures |events| <= |s.tasks| * (13 + 4 * c)
  {
    hide Apply, Enabled, Sum, Count;
    RunsShrinkRank(cfg, s, events, c);
    SumBound(s.tasks, 6 + 2 * c);
    CountBound(s.tasks, IsUnfinished);
    Times(Count(s.tasks, IsUnfinished), |s.tasks|, 7 + 2 * c);
    Distribute(|s.tasks|, c);
  }

  lemma CountBound(tasks: map<Task, Progress>, p: Phase -> bool)
    ensures Count(tasks, p) <= |tasks|
  {
    SubsetSize(Those(tasks, p), tasks.Keys);
  }

  lemma Distribute(n: nat, c: nat)
    ensures n * (7 + 2 * c) + n * (6 + 2 * c) == n * (13 + 4 * c)
  {
  }

  // ---- no deadlock ------------------------------------------------------------------------

  /** A task that is neither done nor parked can always take a step. */
  lemma CanMove(s: System, t: Task) returns (e: Event)
    requires t in s.tasks && !s.tasks[t].phase.Done? && !s.tasks[t].phase.Parked?
    ensures Enabled(s, e) && Productive(e)
  {
    var woken := None;
    if w :| w in s.tasks && s.tasks[w].phase.Parked? {
      woken := Some(w);
    }
    match s.tasks[t].phase
    case Want | Woken => e := TryAcquire(t, s.now);
    case Reserved => e := DialFails(t);
    case Greeting(_) => e := GreetingFails(t);
    case ConnectFailed => e := RollBackReservation(t, woken);
    case Ready(_) => e := Return(t, s.now, woken);
    case Awaiting(_, _) => e := ReceiveFails(t);
    case Failing(_) => e := Discard(t);
    case Discarded => e := DropDiscarded(t, woken);
  }

  lemma NotStuck(cfg: Config, s: System)
    requires Inv(cfg, s) && 1 <= cfg.maxTotal && !AllDone(s)
    ensures !Stuck(s)
  {
    var t :| t in s.tasks && !s.tasks[t].phase.Done?;
    if s.tasks[t].phase.Parked? {
      CountNone(s.tasks, IsParked);
      CountNone(s.tasks, IsWoken);
      CountNone(s.tasks, Borrows);
      t :| t in s.tasks && (IsWoken(s.tasks[t].phase) || Borrows(s.tasks[t].phase));
    }
    var e := CanMove(s, t);
  }

  /** A run that can go no further has served everyone, connect failures and barging included. */
  lemma StopsOnlyWhenAllDone(cfg: Config, events: seq<Event>)
    requires IsRun(cfg, Start(), events) && 1 <= cfg.maxTotal && Stuck(After(cfg, Start(), events))
    ensures AllDone(After(cfg, Start(), events))
  {
    hide Inv, Stuck, AllDone;
    Reached(cfg, events);
    if !AllDone(After(cfg, Start(), events)) {
      NotStuck(cfg, After(cfg, Start(), events));
    }
  }

  /** A run after which nothing more can happen although someone is still waiting. */
  ghost predicate Strands(cfg: Config, events: seq<Event>) {
    && IsRun(cfg, Start(), events)
    && Stuck(After(cfg, Start(), events)) && !AllDone(After(cfg, Start(), events))
  }

  /** The pool can strand a task if and only if it is configured without room for any connection. */
  lemma StrandsExactlyWithoutRoom(cfg: Config)
    ensures (exists events :: Strands(cfg, events)) <==> cfg.maxTotal == 0
  {
    if cfg.maxTotal == 0 {
      var events := [Arrive(0, 1), TryAcquire(0, 0)];
      var s1 := Apply(cfg, Start(), events[0]);
      var s2 := Apply(cfg, s1, events[1]);
      assert s2.tasks == map[0 := Progress(Parked, 1)];
      assert events[1..] == [TryAcquire(0, 0)] && events[1..][1..] == [];
      assert IsRun(cfg, s2, []);
      assert IsRun(cfg, s1, events[1..]);
      assert IsRun(cfg, Start(), events);
      assert After(cfg, s1, events[1..]) == s2;
      assert After(cfg, Start(), events) == s2;
      assert Strands(cfg, events);
    } else {
      forall events
        ensures !Strands(cfg, events)
      {
        if IsRun(cfg, Start(), events) && Stuck(After(cfg, Start(), events)) {
          StopsOnlyWhenAllDone(cfg, events);
        }
      }
    }
  }
}
