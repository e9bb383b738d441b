/**
 * The daemon's lifecycle (apps/edge-daemon/src/daemon.ts). Each await splits a method in two, so
 * timers, the scheduled cycle, the health server and any number of stop calls interleave at the
 * awaits; what runs between two awaits is one event.
 */
module EdgeDaemon {
  import opened Prelude

  datatype State = Idle | Running | Stopping | Stopped

  /** Where a stop call is. */
  datatype StopPc =
    | AwaitingCycle        // its promise is unresolved
    | Resolved             // resolved, its continuation queued
    | AwaitingHealthStart
    | AwaitingHealthStop
    | Returned
    | Rejected             // closing the health server failed: another call had closed it

  /**
   * timer is the field, armed the timeouts that will really fire (the field keeps a fired handle);
   * cycles counts the cycles actually running, beside the flag the code keeps.
   */
  datatype Daemon = Daemon(
    state: State,
    timer: Option<nat>,
    armed: set<nat>,
    handles: nat,
    cycleInFlight: bool,
    cycles: nat,
    stopResolve: Option<nat>,
    stops: seq<StopPc>,
    healthServer: bool,
    healthStarting: bool,
    lockHeld: bool)

  const NEW := Daemon(Idle, None, {}, 0, false, 0, None, [], false, false, false)

  datatype Event =
    | Start(lockFree: bool, withHealth: bool)
    | TimerFires(handle: nat)
    | CycleEnds
    | HealthStarted
    | StopCalled
    | StopResumes(k: nat)
    | HealthStartSeen(k: nat)
    | HealthStopped(k: nat)
    | HealthStopFails(k: nat)

  function ScheduleCycle(d: Daemon): Daemon {
    if d.state != Running then d
    else d.(timer := Some(d.handles), armed := d.armed + {d.handles}, handles := d.handles + 1)
  }

  function WithStop(d: Daemon, k: nat, pc: StopPc): Daemon
    requires k < |d.stops|
  {
    d.(stops := d.stops[k := pc])
  }

  /** The last lines of stop: release the PID lock, become stopped. */
  function Finish(d: Daemon, k: nat): Daemon
    requires k < |d.stops|
  {
    WithStop(d.(lockHeld := false, state := Stopped), k, Returned)
  }

  /** The part of stop behind the wait for the cycle. */
  function AfterCycle(d: Daemon, k: nat): Daemon
    requires k < |d.stops|
  {
    if !d.healthServer then Finish(d, k)
    else if d.healthStarting then WithStop(d, k, AwaitingHealthStart)
    else WithStop(d, k, AwaitingHealthStop)
  }

  function Stop(d: Daemon): Daemon {
    var k := |d.stops|;
    if d.state != Running && d.state != Stopping then d.(stops := d.stops + [Returned])
    else
      var cancelled := if d.timer.Some? then d.(timer := None, armed := d.armed - {d.timer.value}) else d;
      var stopping := cancelled.(state := Stopping, stops := d.stops + [AwaitingCycle]);
      if d.cycleInFlight then stopping.(stopResolve := Some(k)) else AfterCycle(stopping, k)
  }

  function EndCycle(d: Daemon): Daemon {
    var done := d.(cycleInFlight := false, cycles := if d.cycles > 0 then d.cycles - 1 else 0);
    var woken :=
      if d.stopResolve.Some? && d.stopResolve.value < |d.stops|
        then WithStop(done, d.stopResolve.value, Resolved).(stopResolve := None)
        else done.(stopResolve := None);
    ScheduleCycle(woken)
  }

  predicate StopAt(d: Daemon, k: nat, pc: StopPc) {
    k < |d.stops| && d.stops[k] == pc
  }

  function Next(d: Daemon, e: Event): Daemon {
    match e
    case Start(lockFree, withHealth) =>
      if d.state != Idle || !lockFree then d
      else ScheduleCycle(d.(state := Running, lockHeld := true, healthServer := withHealth, healthStarting := withHealth))
    case TimerFires(h) =>
      if h !in d.armed then d
      else if d.state != Running then d.(armed := d.armed - {h})
      else d.(armed := d.armed - {h}, cycleInFlight := true, cycles := d.cycles + 1)
    case CycleEnds => if d.cycles > 0 then EndCycle(d) else d
    case HealthStarted => d.(healthStarting := false)
    case StopCalled => Stop(d)
    case StopResumes(k) => if StopAt(d, k, Resolved) then AfterCycle(d, k) else d
    case HealthStartSeen(k) =>
      if StopAt(d, k, AwaitingHealthStart) && !d.healthStarting then WithStop(d, k, AwaitingHealthStop) else d
    case HealthStopped(k) =>
      if StopAt(d, k, AwaitingHealthStop) then Finish(d.(healthServer := false), k) else d
    case HealthStopFails(k) => if StopAt(d, k, AwaitingHealthStop) then WithStop(d, k, Rejected) else d
  }

  function Run(events: seq<Event>): Daemon {
    if |events| == 0 then NEW else Next(Run(Init(events)), Last(events))
  }

  // ---------- safety ----------

  function Rank(s: State): nat {
    match s
    case Idle => 0
    case Running => 1
    case Stopping => 2
    case Stopped => 3
  }

  predicate PastCycle(pc: StopPc) {
    pc.Resolved? || pc.AwaitingHealthStart? || pc.AwaitingHealthStop?
  }

  /** A stop call that is past its wait finds no cycle running; one that is registered is waiting. */
  ghost predicate StopsOk(d: Daemon) {
    (forall k: nat :: k < |d.stops| && PastCycle(d.stops[k]) ==> d.cycles == 0 && Rank(d.state) >= 2) &&
    (d.stopResolve.Some? ==> StopAt(d, d.stopResolve.value, AwaitingCycle) && d.state == Stopping && d.cycles == 1)
  }

  /** One timeout or one cycle while running; no timeout otherwise; the lock is held whenever a cycle runs. */
  ghost predicate Inv(d: Daemon) {
    StopsOk(d) &&
    d.cycleInFlight == (d.cycles == 1) && d.cycles <= 1 &&
    (d.state == Running ==> d.lockHeld && (if d.cycles == 1 then d.armed == {} else d.timer.Some? && d.armed == {d.timer.value})) &&
    (d.state != Running ==> d.armed == {}) &&
    (d.state in {Idle, Stopped} ==> d.cycles == 0) &&
    (d.state == Stopping ==> d.lockHeld) && (d.state in {Idle, Stopped} ==> !d.lockHeld)
  }

  lemma AfterCycleKeepsInv(d: Daemon, k: nat)
    requires k < |d.stops| && Inv(d) && d.cycles == 0 && Rank(d.state) >= 2
    ensures Inv(AfterCycle(d, k))
  {
  }

  lemma StopKeepsInv(d: Daemon)
    requires Inv(d)
    ensures Inv(Stop(d))
  {
    if d.state == Running || d.state == Stopping {
      var cancelled := if d.timer.Some? then d.(timer := None, armed := d.armed - {d.timer.value}) else d;
      var stopping := cancelled.(state := Stopping, stops := d.stops + [AwaitingCycle]);
      if !d.cycleInFlight {
        AfterCycleKeepsInv(stopping, |d.stops|);
      }
    }
  }

  lemma NextKeepsInv(d: Daemon, e: Event)
    requires Inv(d)
    ensures Inv(Next(d, e))
  {
    match e
    case StopCalled => StopKeepsInv(d);
    case StopResumes(k) => if StopAt(d, k, Resolved) { AfterCycleKeepsInv(d, k); }
    case _ =>
  }

  lemma {:induction false} RunKeepsInv(events: seq<Event>)
    ensures Inv(Run(events))
  {
    if |events| > 0 {
      RunKeepsInv(Init(events));
      NextKeepsInv(Run(Init(events)), Last(events));
    }
  }

  /** One event never moves the state back, and starts no cycle once stopping. */
  lemma NextAdvances(d: Daemon, e: Event)
    ensures Rank(d.state) <= Rank(Next(d, e).state)
    ensures Rank(d.state) >= 2 ==> Next(d, e).cycles <= d.cycles
  {
    match e
    case StopCalled => assert Rank(d.state) <= Rank(Stop(d).state);
    case CycleEnds => assert EndCycle(d).state == d.state;
    case _ =>
  }

  lemma RunOneMore(events: seq<Event>, more: seq<Event>)
    requires |more| > 0
    ensures Run(events + more) == Next(Run(events + Init(more)), Last(more))
  {
    assert Init(events + more) == events + Init(more);
  }

  /** From one moment of a run to any later one. */
  lemma {:induction false} LaterOn(events: seq<Event>, more: seq<Event>)
    ensures Rank(Run(events).state) <= Rank(Run(events + more).state)
    ensures Rank(Run(events).state) >= 2 ==> Run(events + more).cycles <= Run(events).cycles
  {
    if |more| == 0 {
      assert events + more == events;
    } else {
      LaterOn(events, Init(more));
      RunOneMore(events, more);
      NextAdvances(Run(events + Init(more)), Last(more));
    }
  }

  /**
   * Daemon safety over every interleaving: the state only moves idle, running, stopping, stopped; at
   * most one cycle is in flight, and the flag says which; once a stop took effect no cycle begins;
   * the PID lock is held while a cycle runs.
   */
  lemma DaemonIsSafe(events: seq<Event>, more: seq<Event>)
    ensures var d, later := Run(events), Run(events + more);
            d.cycles <= 1 && d.cycleInFlight == (d.cycles == 1) && (d.cycles == 1 ==> d.lockHeld) &&
            Rank(d.state) <= Rank(later.state) && (Rank(d.state) >= 2 ==> later.cycles <= d.cycles)
  {
    RunKeepsInv(events);
    LaterOn(events, more);
  }

  /** The event that releases the lock finds no cycle running, and none runs ever after. */
  lemma LockReleasedAtRest(events: seq<Event>, e: Event, more: seq<Event>)
    requires Run(events).lockHeld && !Next(Run(events), e).lockHeld
    ensures Run(events).cycles == 0 && Run(events + [e] + more).cycles == 0
    ensures Next(Run(events), e).state == Stopped
  {
    RunKeepsInv(events);
    var after := Next(Run(events), e);
    NextKeepsInv(Run(events), e);
    assert Init(events + [e]) == events;
    assert Run(events + [e]) == after;
    LaterOn(events + [e], more);
  }

  // ---------- who is woken ----------

  /** A cycle runs, stop call k waits for it, and k or a later call is registered. */
  ghost predicate Waits(d: Daemon, k: nat, registered: bool) {
    StopAt(d, k, AwaitingCycle) && d.state == Stopping && d.cycles == 1 && d.cycleInFlight &&
    d.stopResolve.Some? && d.stopResolve.value >= k && (d.stopResolve == Some(k) <==> registered)
  }

  /** While the cycle runs, only another stop call changes who is registered. */
  lemma NextWaits(d: Daemon, e: Event, k: nat, registered: bool)
    requires Inv(d) && Waits(d, k, registered) && !e.CycleEnds?
    ensures Waits(Next(d, e), k, registered && e != StopCalled)
  {
    match e
    case StopCalled => assert Stop(d).stopResolve == Some(|d.stops|);
    case StopResumes(j) => assert !StopAt(d, j, Resolved);
    case HealthStartSeen(j) => assert !StopAt(d, j, AwaitingHealthStart);
    case HealthStopped(j) => assert !StopAt(d, j, AwaitingHealthStop);
    case HealthStopFails(j) => assert !StopAt(d, j, AwaitingHealthStop);
    case _ =>
  }

  lemma {:induction false} RunWaits(events: seq<Event>, more: seq<Event>, k: nat)
    requires Waits(Run(events), k, true) && forall e :: e in more ==> !e.CycleEnds?
    ensures Waits(Run(events + more), k, StopCalled !in more)
  {
    if |more| == 0 {
      assert events + more == events;
    } else {
      assert forall e :: e in more <==> e in Init(more) || e == Last(more);
      RunWaits(events, Init(more), k);
      RunOneMore(events, more);
      RunKeepsInv(events + Init(more));
      NextWaits(Run(events + Init(more)), Last(more), k, StopCalled !in Init(more));
    }
  }

  lemma RunSnoc(events: seq<Event>, e: Event)
    ensures Run(events + [e]) == Next(Run(events), e)
  {
    assert Init(events + [e]) == events;
  }

  lemma StopWaits(d: Daemon)
    requires Inv(d) && d.cycles > 0
    ensures Waits(Stop(d), |d.stops|, true)
  {
  }

  lemma EndWakes(d: Daemon, k: nat, registered: bool)
    requires Waits(d, k, registered)
    ensures StopAt(EndCycle(d), k, Resolved) <==> registered
  {
  }

  /**
   * A stop call made during a cycle is woken by the end of that cycle exactly when no other stop
   * call came in between.
   */
  lemma WokenIffNoLaterStop(events: seq<Event>, more: seq<Event>)
    requires Run(events).cycles > 0 && forall e :: e in more ==> !e.CycleEnds?
    ensures StopAt(Run(events + [StopCalled] + more + [CycleEnds]), |Run(events).stops|, Resolved) <==> StopCalled !in more
  {
    var k := |Run(events).stops|;
    RunKeepsInv(events);
    RunSnoc(events, StopCalled);
    StopWaits(Run(events));
    RunWaits(events + [StopCalled], more, k);
    RunSnoc(events + [StopCalled] + more, CycleEnds);
    EndWakes(Run(events + [StopCalled] + more), k, StopCalled !in more);
  }

  ghost predicate Forgotten(d: Daemon, k: nat) {
    StopAt(d, k, AwaitingCycle) && d.stopResolve != Some(k)
  }

  lemma NextForgets(d: Daemon, e: Event, k: nat)
    requires Forgotten(d, k)
    ensures Forgotten(Next(d, e), k)
  {
    match e
    case StopCalled => StopForgets(d, k);
    case CycleEnds => EndForgets(d, k);
    case _ =>
  }

  lemma StopForgets(d: Daemon, k: nat)
    requires Forgotten(d, k)
    ensures Forgotten(Stop(d), k)
  {
    assert k != |d.stops|;
  }

  lemma EndForgets(d: Daemon, k: nat)
    requires Forgotten(d, k)
    ensures Forgotten(EndCycle(d), k)
  {
  }

  lemma {:induction false} ForgottenForever(events: seq<Event>, more: seq<Event>, k: nat)
    requires Forgotten(Run(events), k)
    ensures Forgotten(Run(events + more), k)
  {
    if |more| == 0 {
      assert events + more == events;
    } else {
      ForgottenForever(events, Init(more), k);
      RunOneMore(events, more);
      NextForgets(Run(events + Init(more)), Last(more), k);
    }
  }

  /**
   * The field holds one resolver: a stop call made while another one waits for the cycle replaces it,
   * and the replaced call never returns, whatever happens later. (The daemon itself still stops.)
   */
  lemma SecondStopStrandsTheFirst(events: seq<Event>, more: seq<Event>, k: nat)
    requires Run(events).stopResolve == Some(k)
    ensures StopAt(Run(events + [StopCalled] + more), k, AwaitingCycle)
  {
    RunKeepsInv(events);
    assert Init(events + [StopCalled]) == events;
    assert Forgotten(Run(events + [StopCalled]), k);
    ForgottenForever(events + [StopCalled], more, k);
  }

  const TWO_STOPS := [Start(true, false), TimerFires(0), StopCalled]

  lemma StopDuringCycle()
    ensures Run(TWO_STOPS).stopResolve == Some(0) && Run(TWO_STOPS).cycles == 1
  {
    assert Init(TWO_STOPS) == [Start(true, false), TimerFires(0)];
    assert Init([Start(true, false), TimerFires(0)]) == [Start(true, false)] && Init([Start(true, false)]) == [];
    assert Run([Start(true, false)]).armed == {0};
  }

  /** It happens: start, a cycle begins, stop, stop again; the first call waits for ever. */
  lemma TwoStopsStrandTheFirst(more: seq<Event>)
    ensures StopAt(Run(TWO_STOPS + [StopCalled] + more), 0, AwaitingCycle)
  {
    StopDuringCycle();
    SecondStopStrandsTheFirst(TWO_STOPS, more, 0);
  }

  // ---------- it goes on, and it stops ----------

  /** A started daemon is never stuck: a cycle is in flight, or one timeout is armed and begins the next. */
  lemma RunningGoesOn(events: seq<Event>, h: nat)
    ensures var d := Run(events);
            (d.state == Running && d.cycles == 0 ==> d.timer.Some? && d.armed == {d.timer.value}) &&
            (d.state == Running && h in d.armed ==> Next(d, TimerFires(h)).cycles == 1 && Next(d, TimerFires(h)).armed == {}) &&
            (d.state == Running && d.cycles == 1 ==> Next(d, CycleEnds).cycles == 0 && |Next(d, CycleEnds).armed| == 1) &&
            (d.state != Running ==> d.armed == {})
  {
    RunKeepsInv(events);
  }

  /** Starting an idle daemon under a free lock takes the lock, runs, and arms the first timeout. */
  lemma StartRuns(withHealth: bool)
    ensures var d := Next(NEW, Start(true, withHealth));
            d.state == Running && d.lockHeld && d.healthServer == withHealth && |d.armed| == 1 && d.cycles == 0
    ensures Next(NEW, Start(false, withHealth)) == NEW
  {
  }

  /** The daemon is stopped: lock released, no timeout armed, no cycle running, this call returned. */
  predicate AtRest(d: Daemon, k: nat) {
    d.state == Stopped && !d.lockHeld && d.armed == {} && d.cycles == 0 && StopAt(d, k, Returned)
  }

  /** Without a cycle and a health server a stop call brings the daemon to rest at once. */
  lemma StopsAtOnce(events: seq<Event>)
    requires Run(events).state == Running && Run(events).cycles == 0 && !Run(events).healthServer
    ensures AtRest(Next(Run(events), StopCalled), |Run(events).stops|)
  {
    RunKeepsInv(events);
    StopKeepsInv(Run(events));
  }

  /** A woken stop call closes the health server, if there is one, and brings the daemon to rest. */
  lemma WokenStopFinishes(d: Daemon, k: nat)
    requires Inv(d) && StopAt(d, k, Resolved)
    ensures var resumed := Next(d, StopResumes(k));
            if !d.healthServer then AtRest(resumed, k)
            else if !d.healthStarting then AtRest(Next(resumed, HealthStopped(k)), k)
            else AtRest(Next(Next(Next(resumed, HealthStarted), HealthStartSeen(k)), HealthStopped(k)), k)
  {
    NextKeepsInv(d, StopResumes(k));
    if d.healthServer && d.healthStarting {
      assert d.stops[k := AwaitingHealthStart][k := AwaitingHealthStop][k := Returned] == d.stops[k := Returned];
    }
  }

  /** So a stop call during a cycle, followed by no other, brings it to rest once the cycle ends: without a health server in one step. */
  lemma StopDuringCycleCompletes(events: seq<Event>, more: seq<Event>)
    requires Run(events).cycles > 0 && forall e :: e in more ==> !e.CycleEnds? && e != StopCalled
    requires !Run(events + [StopCalled] + more + [CycleEnds]).healthServer
    ensures var k := |Run(events).stops|;
            AtRest(Next(Run(events + [StopCalled] + more + [CycleEnds]), StopResumes(k)), k)
  {
    var all := events + [StopCalled] + more + [CycleEnds];
    WokenIffNoLaterStop(events, more);
    RunKeepsInv(all);
    WokenStopFinishes(Run(all), |Run(events).stops|);
  }

  // ---------- the object ----------

  /** The daemon as an object: one method for what runs between two awaits. */
  class Lifecycle {
    var state: State
    var timer: Option<nat>
    var armed: set<nat>
    var handles: nat
    var cycleInFlight: bool
    var cycles: nat
    var stopResolve: Option<nat>
    var stops: seq<StopPc>
    var healthServer: bool
    var healthStarting: bool
    var lockHeld: bool

    constructor ()
      ensures View() == NEW
    {
      state, timer, armed, handles, cycleInFlight, cycles := Idle, None, {}, 0, false, 0;
      stopResolve, stops, healthServer, healthStarting, lockHeld := None, [], false, false, false;
    }

    ghost function View(): Daemon
      reads this
    {
      Daemon(state, timer, armed, handles, cycleInFlight, cycles, stopResolve, stops, healthServer, healthStarting, lockHeld)
    }

    method Schedule()
      modifies this
      ensures View() == ScheduleCycle(old(View()))
    {
      if state != Running {
        return;
      }
      timer := Some(handles);
      armed := armed + {handles};
      handles := handles + 1;
    }

    /** start(): throws (ok is false) unless idle and the PID lock is free. */
    method StartDaemon(lockFree: bool, withHealth: bool) returns (ok: bool)
      modifies this
      ensures View() == Next(old(View()), Start(lockFree, withHealth))
      ensures ok == (old(state) == Idle && lockFree)
    {
      if state != Idle {
        return false;
      }
      if !lockFree {
        return false;
      }
      lockHeld := true;
      state := Running;
      healthServer := withHealth;
      healthStarting := withHealth;
      Schedule();
      ok := true;
    }

    /** executeCycle() up to the cycle's await. */
    method BeginCycle(handle: nat) returns (began: bool)
      modifies this
      ensures View() == Next(old(View()), TimerFires(handle))
      ensures began ==> old(state) == Running && cycles == old(cycles) + 1
    {
      if handle !in armed {
        return false;
      }
      armed := armed - {handle};
      if state != Running {
        return false;
      }
      cycleInFlight := true;
      cycles := cycles + 1;
      began := true;
    }

    /** executeCycle() from the cycle's await on: lower the flag, wake the registered stop, schedule. */
    method FinishCycle()
      requires cycles > 0 && Inv(View())
      modifies this
      ensures View() == Next(old(View()), CycleEnds) && Inv(View())
    {
      NextKeepsInv(View(), CycleEnds);
      cycleInFlight := false;
      cycles := cycles - 1;
      if stopResolve.Some? {
        stops := stops[stopResolve.value := Resolved];
        stopResolve := None;
      }
      Schedule();
    }

    /** The end of stop(), behind the wait for the cycle. */
    method ContinueStop(k: nat)
      requires k < |stops|
      modifies this
      ensures View() == AfterCycle(old(View()), k)
    {
      if healthServer {
        if healthStarting {
          stops := stops[k := AwaitingHealthStart];
          return;
        }
        stops := stops[k := AwaitingHealthStop];
        return;
      }
      lockHeld := false;
      state := Stopped;
      stops := stops[k := Returned];
    }

    /** stop() up to its first await. */
    method StopDaemon() returns (k: nat)
      modifies this
      ensures View() == Next(old(View()), StopCalled) && k == |old(stops)|
    {
      k := |stops|;
      if state != Running && state != Stopping {
        stops := stops + [Returned];
        return;
      }
      state := Stopping;
      if timer.Some? {
        armed := armed - {timer.value};
        timer := None;
      }
      stops := stops + [AwaitingCycle];
      if cycleInFlight {
        stopResolve := Some(k);
        return;
      }
      ContinueStop(k);
    }
  }
}
