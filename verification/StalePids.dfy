/** A run of spawns and kills that hands out a stale PID: its process is selected and never runs. */
module StalePids {
  import opened SchedulerState
  import opened SchedulerInvariant
  import opened SchedulerFairness

  /** Only the backstop lives, in slot 0, and `activePid` is the PID 1 of a process killed since. */
  ghost predicate Idle(s: Sched, n: nat) {
    && Inv(s) && Running(s) && s.activePid == 1 && s.nextPid == n && 1 <= n <= MAX_PID
    && s.table[0].status != STOPPED && s.table[0].pid == 0
    && forall i | 1 <= i < MAX_PROCESS :: s.table[i].status == STOPPED
  }

  lemma FirstFree(s: Sched)
    requires |s.table| == MAX_PROCESS && s.table[0].status != STOPPED && s.table[1].status == STOPPED
    ensures FindStopped(s.table, 0) == 1
  {
    assert FindStopped(s.table, 0) == FindStopped(s.table, 1);
  }

  /** With only the backstop alive the next PID is just the next number. */
  lemma IdleNext(s: Sched)
    requires PidsOk(s) && s.nextPid <= MAX_PID && s.table[0].pid == 0
    requires forall i | 1 <= i < MAX_PROCESS :: s.table[i].status == STOPPED
    ensures NextPid(s) == Bump(s.nextPid)
  {
    hide NextPid;
    ThisOne(s.table, s.nextPid);
    NextPidUnique(s.table, s.nextPid, Bump(s.nextPid), NextPid(s));
  }

  /** Spawning a process and killing it again moves the counter on by one. */
  lemma SpawnKill(s: Sched, n: nat, context: Context, entryPoint: nat)
    requires Idle(s, n) && n < MAX_PID
    ensures Legal(s, Spawned(context, entryPoint))
    ensures var t := Step(s, Spawned(context, entryPoint));
      Legal(t, Killed(n + 1)) && Idle(Step(t, Killed(n + 1)), n + 1)
  {
    hide NextPid, Fair, Backed;
    InvParts(s);
    FirstFree(s);
    IdleNext(s);
    var t := Step(s, Spawned(context, entryPoint));
    SpawnRunning(s, context, entryPoint);
    KillRunning(t, n + 1);
    SpawnedAt(t, n + 1);
  }

  lemma SpawnedAt(t: Sched, pid: nat)
    requires |t.table| == MAX_PROCESS && Live(t.table[1]) && t.table[1].pid == pid
    requires t.table[0].pid != pid
    ensures Find(t.table, pid, 0) == 1
  {
    assert Find(t.table, pid, 0) == Find(t.table, pid, 1);
  }

  /** Pairs of spawn and kill bring the counter round to its last value. */
  lemma {:induction false} CounterGoesRound(s: Sched, n: nat, context: Context, entryPoint: nat)
    returns (events: seq<Event>)
    requires Idle(s, n)
    ensures LegalRun(s, events) && Idle(Run(s, events), MAX_PID)
    decreases MAX_PID - n
  {
    hide Idle, Step, Legal;
    IdleInv(s, n);
    if n == MAX_PID {
      events := [];
    } else {
      SpawnKill(s, n, context, entryPoint);
      var e := Spawned(context, entryPoint);
      var t := Step(s, e);
      var rest := CounterGoesRound(Step(t, Killed(n + 1)), n + 1, context, entryPoint);
      TwoMore(s, e, Killed(n + 1), rest);
      events := [e, Killed(n + 1)] + rest;
    }
  }

  lemma IdleInv(s: Sched, n: nat)
    requires Idle(s, n)
    ensures Inv(s) && n <= MAX_PID
  {
  }

  lemma OneMore(s: Sched, e: Event, rest: seq<Event>)
    requires Inv(s) && Legal(s, e) && LegalRun(Step(s, e), rest)
    ensures LegalRun(s, [e] + rest) && Run(s, [e] + rest) == Run(Step(s, e), rest)
  {
    hide Inv, Legal, Step;
    var all := [e] + rest;
    assert all[0] == e && all[1..] == rest;
  }

  lemma TwoMore(s: Sched, e: Event, f: Event, rest: seq<Event>)
    requires Inv(s) && Legal(s, e) && Legal(Step(s, e), f) && LegalRun(Step(Step(s, e), f), rest)
    ensures LegalRun(s, [e, f] + rest) && Run(s, [e, f] + rest) == Run(Step(Step(s, e), f), rest)
  {
    hide Inv, Legal, Step, LegalRun, Run;
    OneMore(Step(s, e), f, rest);
    OneMore(s, e, [f] + rest);
    assert [e] + ([f] + rest) == [e, f] + rest;
  }

  /** After boot: the backstop, one process with PID 1, a tick that selects it, and its end. */
  lemma BecomesIdle(s: Sched, context: Context, entryPoint: nat)
    requires Inv(s) && Running(s) && s.nextPid == 0 && s.table[0].status != STOPPED && s.table[0].pid == 0
    requires forall i | 1 <= i < MAX_PROCESS :: s.table[i].status == STOPPED
    ensures Legal(s, Spawned(context, entryPoint))
    ensures var t := Step(s, Spawned(context, entryPoint));
      var u := Step(t, Ticked);
      Legal(u, Killed(1)) && Idle(Step(u, Killed(1)), 1)
  {
    hide NextPid, Fair, Tick, Selected;
    FirstFree(s);
    IdleNext(s);
    var t := Step(s, Spawned(context, entryPoint));
    assert t.table[1] == Proc(context, 1, SPAWNED, entryPoint, 0);
    FairNoWrapOf(t);
    SelectedLongest(t);
    TickActive(t);
    TickEffects(t);
    var u := Step(t, Ticked);
    SpawnedAt(u, 1);
    NowIdle(Step(u, Killed(1)));
  }

  lemma TickEffects(t: Sched)
    requires Backed(t) && NoWrap(t)
    ensures |Tick(t).table| == |t.table| && Tick(t).nextPid == t.nextPid
    ensures forall j | 0 <= j < |t.table| ::
      Tick(t).table[j].pid == t.table[j].pid && Live(Tick(t).table[j]) == Live(t.table[j])
  {
    hide Tick, Selected;
    TickEffect(t, 0);
    forall j | 0 <= j < |t.table|
      ensures Tick(t).table[j].pid == t.table[j].pid && Live(Tick(t).table[j]) == Live(t.table[j])
    {
      TickEffect(t, j);
    }
  }

  lemma NowIdle(s: Sched)
    requires Inv(s) && s.activePid == 1 && s.nextPid == 1 && s.table[0].status != STOPPED && s.table[0].pid == 0
    requires forall i | 1 <= i < MAX_PROCESS :: s.table[i].status == STOPPED
    ensures Idle(s, 1)
  {
  }

  /** The state after the first spawn. */
  ghost function Started(s: Sched, context: Context, entryPoint: nat): (b: Sched)
    requires Booted(s)
    ensures Inv(b) && Running(b)
  {
    FirstSpawn(s, context, entryPoint);
    Spawn(s, context, entryPoint)
  }

  /** From the state after the first spawn a run leads to where the next spawn hands out a stale PID. */
  lemma StalePidReached(s: Sched, context: Context, entryPoint: nat) returns (events: seq<Event>)
    requires Booted(s)
    ensures LegalRun(Started(s, context, entryPoint), events)
    ensures Idle(Run(Started(s, context, entryPoint), events), MAX_PID)
  {
    hide Inv, Idle, Step, Legal, Started, LegalRun, Run;
    var b := Started(s, context, entryPoint);
    AfterFirst(s, context, entryPoint);
    BecomesIdle(b, context, entryPoint);
    var e := Spawned(context, entryPoint);
    LegalTick(Step(b, e));
    var u := Step(Step(b, e), Ticked);
    var rest := CounterGoesRound(Step(u, Killed(1)), 1, context, entryPoint);
    OneMore(u, Killed(1), rest);
    TwoMore(b, e, Ticked, [Killed(1)] + rest);
    events := [e, Ticked] + ([Killed(1)] + rest);
  }

  lemma LegalTick(s: Sched)
    ensures Legal(s, Ticked)
  {
  }

  lemma AfterFirst(s: Sched, context: Context, entryPoint: nat)
    requires Booted(s)
    ensures var b := Started(s, context, entryPoint);
      && b.nextPid == 0 && b.table[0].status != STOPPED && b.table[0].pid == 0
      && forall i | 1 <= i < MAX_PROCESS :: b.table[i].status == STOPPED
  {
    hide NextPid;
    FirstSpawn(s, context, entryPoint);
    NextPidFresh(s);
  }

  /** In a state as `CounterGoesRound` reaches it, the next spawn hands out the stale PID. */
  lemma SpawnIsStale(s: Sched, context: Context, entryPoint: nat)
    requires Idle(s, MAX_PID)
    ensures Legal(s, Spawned(context, entryPoint)) && PidsOk(s) && NextPid(s) == s.activePid
    ensures Alone(Step(s, Spawned(context, entryPoint)))
  {
    hide NextPid, Fair;
    InvParts(s);
    FirstFree(s);
    IdleNext(s);
  }

  /** One process besides the backstop, named by `activePid` although it was never switched to. */
  ghost predicate Alone(s: Sched) {
    && Inv(s) && s.table[1].status == SPAWNED && s.table[1].pid == s.activePid == 1 && s.table[0].pid == 0
    && forall i | 2 <= i < MAX_PROCESS :: s.table[i].status == STOPPED
  }

  /** Every tick selects that process and leaves it as it is: while nothing is spawned or killed it never
      runs. */
  lemma AloneNeverRuns(s: Sched)
    requires Alone(s)
    ensures Find(s.table, 0, 0) < |s.table| && Selected(s) == 1 && Alone(Tick(s))
  {
    hide Tick, Selected, Fair;
    InvParts(s);
    FairNoWrapOf(s);
    SelectedLongest(s);
    TickEffects(s);
    TickActive(s);
    StaleKept(s);
    TickInv(s);
  }

  ghost predicate OnlyTicks(events: seq<Event>) {
    forall i | 0 <= i < |events| :: events[i].Ticked?
  }

  lemma {:induction false} NeverRuns(s: Sched, events: seq<Event>)
    requires Alone(s) && Inv(s) && LegalRun(s, events) && OnlyTicks(events)
    ensures Alone(Run(s, events))
    decreases |events|
  {
    hide Alone, Inv, Tick;
    if events != [] {
      assert events[0].Ticked?;
      AloneNeverRuns(s);
      assert OnlyTicks(events[1..]);
      NeverRuns(Step(s, events[0]), events[1..]);
    }
  }
}
