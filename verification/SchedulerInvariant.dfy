/** Every spawn, kill and tick keeps the scheduler invariant. */
module SchedulerInvariant {
  import opened PowersOfTwo
  import opened SchedulerState

  // ----- counting -----

  function Counts(p: Proc, j: nat): nat {
    if Contender(p) && p.waitTime >= j then 1 else 0
  }

  lemma {:induction false} WaitingUpdate(table: seq<Proc>, i: nat, p: Proc, j: nat)
    requires i < |table|
    ensures Waiting(table[i := p], j) == Waiting(table, j) - Counts(table[i], j) + Counts(p, j)
    ensures Waiting(table, j) >= Counts(table[i], j)
  {
    var k := |table| - 1;
    if i == k {
      assert table[i := p][..k] == table[..k];
    } else {
      assert table[i := p][..k] == table[..k][i := p];
      WaitingUpdate(table[..k], i, p, j);
    }
  }

  lemma {:induction false} WaitingSome(table: seq<Proc>, j: nat)
    requires Waiting(table, j) > 0
    ensures exists i :: 0 <= i < |table| && Counts(table[i], j) == 1
  {
    var k := |table| - 1;
    if Counts(table[k], j) == 0 {
      WaitingSome(table[..k], j);
      var i :| 0 <= i < k && Counts(table[..k][i], j) == 1;
      assert Counts(table[i], j) == 1;
    }
  }

  lemma {:induction false} WaitingBound(table: seq<Proc>, j: nat)
    ensures Waiting(table, j) <= |table|
  {
    if table != [] {
      WaitingBound(table[..|table| - 1], j);
    }
  }

  /** The backstop's slot counts for nothing. */
  lemma WaitingBoundBacked(table: seq<Proc>, j: nat, b: nat)
    requires b < |table| && !Contender(table[b])
    ensures Waiting(table, j) <= |table| - 1
  {
    var p := Proc(Context(0, 0, 0), 1, WAITING, 0, j);
    WaitingUpdate(table, b, p, j);
    WaitingBound(table[b := p], j);
  }

  /** Ageing shifts every count by one tick. */
  lemma {:induction false} WaitingAged(table: seq<Proc>, j: nat)
    requires forall i | 0 <= i < |table| && Contender(table[i]) :: table[i].waitTime + 1 < WORD
    ensures Waiting(AgedTo(table, |table|), j + 1) == Waiting(table, j)
  {
    if table != [] {
      var k := |table| - 1;
      WaitingAged(table[..k], j);
      assert AgedTo(table, |table|)[..k] == AgedTo(table[..k], k);
    }
  }

  /** Counts see only whether a process contends and how long it has waited. */
  lemma {:induction false} WaitingSame(t: seq<Proc>, u: seq<Proc>, j: nat)
    requires |t| == |u|
    requires forall i | 0 <= i < |t| :: Contender(t[i]) == Contender(u[i]) && t[i].waitTime == u[i].waitTime
    ensures Waiting(t, j) == Waiting(u, j)
  {
    if t != [] {
      WaitingSame(t[..|t| - 1], u[..|u| - 1], j);
    }
  }

  // ----- selection -----

  /** The scan finds the longest waiting contender, the first of equals. */
  lemma {:induction false} BestIsMax(table: seq<Proc>, start: nat, k: nat)
    requires k <= |table| && start < |table| && !Contender(table[start]) && table[start].waitTime == 0
    ensures var b := Best(table, start, k);
      && (forall i | 0 <= i < k && Contender(table[i]) :: table[i].waitTime <= table[b].waitTime)
      && (b != start ==> b < k && Contender(table[b]) && table[b].waitTime > 0)
      && (b != start ==> forall i | 0 <= i < b && Contender(table[i]) :: table[i].waitTime < table[b].waitTime)
  {
    if k > 0 {
      BestIsMax(table, start, k - 1);
    }
  }

  ghost predicate NoWrap(s: Sched) {
    forall i | 0 <= i < |s.table| && Contender(s.table[i]) :: s.table[i].waitTime + 1 < WORD
  }

  ghost predicate NoContenders(s: Sched) {
    forall i | 0 <= i < |s.table| :: !Contender(s.table[i])
  }

  /** A tick selects the contender that has waited longest, the first such slot; the backstop only
      when there is no contender. */
  lemma SelectedLongest(s: Sched)
    requires Backed(s) && NoWrap(s)
    ensures var i := Selected(s);
      && (NoContenders(s) ==> i == Find(s.table, 0, 0))
      && (!NoContenders(s) ==>
            && Contender(s.table[i])
            && (forall j | 0 <= j < |s.table| && Contender(s.table[j]) :: s.table[j].waitTime <= s.table[i].waitTime)
            && (forall j | 0 <= j < i && Contender(s.table[j]) :: s.table[j].waitTime < s.table[i].waitTime))
  {
    var b := Find(s.table, 0, 0);
    var aged := AgedTo(s.table, |s.table|);
    BestIsMax(aged, b, |s.table|);
    forall j | 0 <= j < |s.table|
      ensures Contender(aged[j]) == Contender(s.table[j])
      ensures Contender(s.table[j]) ==> aged[j].waitTime == s.table[j].waitTime + 1
    {
    }
  }

  /** What a tick does to a slot: identities and liveness stay, the selected one stops waiting. */
  lemma TickEffect(s: Sched, j: nat)
    requires Backed(s) && NoWrap(s) && j < |s.table|
    ensures var t := Tick(s);
      && |t.table| == |s.table| && t.nextPid == s.nextPid
      && t.table[j].pid == s.table[j].pid && Live(t.table[j]) == Live(s.table[j])
      && t.table[j].waitTime ==
           if j == Selected(s) then 0
           else if Contender(s.table[j]) then s.table[j].waitTime + 1
           else s.table[j].waitTime
  {
  }

  lemma {:induction false} FindSame(t: seq<Proc>, u: seq<Proc>, pid: nat, i: nat)
    requires |t| == |u| && i <= |t|
    requires forall j | 0 <= j < |t| :: t[j].pid == u[j].pid && Live(t[j]) == Live(u[j])
    ensures Find(t, pid, i) == Find(u, pid, i)
    decreases |t| - i
  {
    if i < |t| {
      FindSame(t, u, pid, i + 1);
    }
  }

  lemma TickBacked(s: Sched)
    requires Backed(s) && NoWrap(s)
    ensures Backed(Tick(s))
  {
    var t := Tick(s);
    forall j | 0 <= j < |s.table|
      ensures |t.table| == |s.table| && t.table[j].pid == s.table[j].pid && Live(t.table[j]) == Live(s.table[j])
    {
      TickEffect(s, j);
    }
    TickEffect(s, 0);
    FindSame(t.table, s.table, 0, 0);
    TickEffect(s, Find(s.table, 0, 0));
  }

  lemma TickPids(s: Sched)
    requires PidsOk(s) && Backed(s) && NoWrap(s)
    ensures PidsOk(Tick(s))
  {
    hide Tick, Selected;
    var t := Tick(s);
    TickEffect(s, 0);
    forall j | 0 <= j < |s.table|
      ensures t.table[j].pid == s.table[j].pid && Live(t.table[j]) == Live(s.table[j])
    {
      TickEffect(s, j);
    }
  }

  /** After a tick `activePid` is the PID of the selected process. */
  lemma TickActive(s: Sched)
    requires PidsOk(s) && ActiveOk(s) && Backed(s) && NoWrap(s)
    ensures Tick(s).activePid == s.table[Selected(s)].pid
    ensures ActiveOk(Tick(s))
  {
    var i := Selected(s);
    var aged := AgedTo(s.table, |s.table|);
    var t := s.(table := aged[i := aged[i].(waitTime := 0)]);
    assert forall j | 0 <= j < |s.table| ::
      t.table[j].pid == s.table[j].pid && t.table[j].status == s.table[j].status;
    assert Live(t.table[i]) && t.table[i].pid == s.table[i].pid;
    if t.table[i].pid != t.activePid {
      SwitchActive(t, t.table[i].pid);
    }
  }

  lemma SwitchActive(s: Sched, pid: nat)
    requires PidsOk(s) && ActiveOk(s) && Find(s.table, pid, 0) < |s.table| && pid != s.activePid
    ensures ActiveOk(Switch(s, pid)) && Switch(s, pid).activePid == pid
  {
    var o, n := Find(s.table, s.activePid, 0), Find(s.table, pid, 0);
    var t := Switch(s, pid);
    assert forall j | 0 <= j < |s.table| && s.table[j].status == ACTIVE :: o < |s.table| && j == o;
  }

  lemma FairNoWrap(s: Sched)
    requires Fair(s) && |s.table| == MAX_PROCESS
    ensures forall i | 0 <= i < |s.table| && Contender(s.table[i]) :: s.table[i].waitTime <= MAX_PROCESS - 2
    ensures NoWrap(s)
  {
    forall i | 0 <= i < |s.table| && Contender(s.table[i])
      ensures s.table[i].waitTime <= MAX_PROCESS - 2
    {
      var p := s.table[i].(waitTime := 0);
      WaitingUpdate(s.table, i, p, MAX_PROCESS - 1);
    }
  }

  /** The bound on waiting survives a tick: everyone ages, and one of the longest waiting restarts. */
  lemma TickFair(s: Sched)
    requires Backed(s) && Fair(s)
    ensures Fair(Tick(s))
  {
    FairNoWrap(s);
    var i := Selected(s);
    var aged := AgedTo(s.table, |s.table|);
    var reset := aged[i := aged[i].(waitTime := 0)];
    SelectedLongest(s);
    forall j | 1 <= j < MAX_PROCESS
      ensures Waiting(Tick(s).table, j) <= MAX_PROCESS - 1 - j
    {
      TickCount(s, j);
    }
  }

  lemma TickCount(s: Sched, j: nat)
    requires Backed(s) && Fair(s) && NoWrap(s) && 1 <= j < MAX_PROCESS
    ensures Waiting(Tick(s).table, j) <= MAX_PROCESS - 1 - j
  {
    hide Fair, Tick, Selected, Waiting;
    var i := Selected(s);
    var aged := AgedTo(s.table, |s.table|);
    var reset := aged[i := aged[i].(waitTime := 0)];
    SelectedLongest(s);
    TickTable(s);
    WaitingSame(Tick(s).table, reset, j);
    WaitingUpdate(aged, i, aged[i].(waitTime := 0), j);
    WaitingAged(s.table, j - 1);
    if Waiting(aged, j) > 0 {
      WaitingSome(aged, j);
      var m :| 0 <= m < |aged| && Counts(aged[m], j) == 1;
      assert Contender(s.table[m]) && s.table[m].waitTime + 1 >= j;
      assert Counts(aged[i], j) == 1;
    }
    FairAt(s, j - 1);
  }

  lemma FairAt(s: Sched, j: nat)
    requires Backed(s) && Fair(s) && j < MAX_PROCESS
    ensures Waiting(s.table, j) <= MAX_PROCESS - 1 - j
  {
    if j == 0 {
      WaitingBoundBacked(s.table, 0, Find(s.table, 0, 0));
    }
  }

  lemma TickTable(s: Sched)
    requires Backed(s) && NoWrap(s)
    ensures var aged := AgedTo(s.table, |s.table|);
      var reset := aged[Selected(s) := aged[Selected(s)].(waitTime := 0)];
      && |Tick(s).table| == |reset|
      && forall j | 0 <= j < |reset| ::
           Contender(Tick(s).table[j]) == Contender(reset[j]) && Tick(s).table[j].waitTime == reset[j].waitTime
  {
  }

  // ----- the three steps -----

  lemma TickInv(s: Sched)
    requires Inv(s)
    ensures Inv(Tick(s))
  {
    hide PidsOk, ActiveOk, Backed, Fair, Tick;
    FairNoWrapOf(s);
    TickPids(s);
    TickActive(s);
    TickBacked(s);
    TickFair(s);
  }

  lemma FairNoWrapOf(s: Sched)
    requires Inv(s)
    ensures NoWrap(s)
  {
    FairNoWrap(s);
  }

  /** A new PID is held by no live process, and only the first is 0. */
  lemma NextPidFresh(s: Sched)
    requires PidsOk(s)
    ensures forall i | 0 <= i < |s.table| && Live(s.table[i]) :: s.table[i].pid != NextPid(s)
    ensures NextPid(s) <= MAX_PID && (NextPid(s) == 0 <==> s.nextPid == NO_PID)
  {
    hide NextPid;
    assert IsNextPid(s.table, s.nextPid, NextPid(s));
    assert forall i | 0 <= i < |s.table| && Live(s.table[i]) :: LivePid(s.table, s.table[i].pid);
  }

  lemma SpawnPids(s: Sched, context: Context, entryPoint: nat)
    requires PidsOk(s) && FindStopped(s.table, 0) < MAX_PROCESS
    ensures PidsOk(Spawn(s, context, entryPoint))
  {
    hide NextPid;
    NextPidFresh(s);
  }

  lemma SpawnInv(s: Sched, context: Context, entryPoint: nat)
    requires Inv(s) && FindStopped(s.table, 0) < MAX_PROCESS
    ensures Inv(Spawn(s, context, entryPoint))
  {
    hide PidsOk, NextPid;
    var i := FindStopped(s.table, 0);
    var t := Spawn(s, context, entryPoint);
    SpawnPids(s, context, entryPoint);
    BackedNext(s);
    forall j | 1 <= j < MAX_PROCESS
      ensures Waiting(t.table, j) <= MAX_PROCESS - 1 - j
    {
      WaitingUpdate(s.table, i, t.table[i], j);
    }
    FindKeeps(s.table, 0, i, t.table[i], 0);
  }

  lemma BackedNext(s: Sched)
    requires PidsOk(s) && Backed(s)
    ensures NextPid(s) != 0
  {
    NextPidFresh(s);
  }

  /** Overwriting another slot with a process of another PID does not move a search. */
  lemma {:induction false} FindKeeps(table: seq<Proc>, pid: nat, i: nat, p: Proc, from: nat)
    requires from <= |table| && i < |table| && !(Live(table[i]) && table[i].pid == pid) && !(Live(p) && p.pid == pid)
    ensures Find(table[i := p], pid, from) == Find(table, pid, from)
    decreases |table| - from
  {
    if from < |table| {
      FindKeeps(table, pid, i, p, from + 1);
    }
  }

  /** A kill keeps the invariant exactly when it does not kill the backstop. */
  lemma KillInv(s: Sched, pid: nat)
    requires Inv(s)
    ensures Inv(Kill(s, pid)) <==> pid != 0
  {
    if pid != 0 {
      KillKeeps(s, pid);
    } else {
      KillBackstop(s);
    }
  }

  lemma KillKeeps(s: Sched, pid: nat)
    requires Inv(s) && pid != 0
    ensures Inv(Kill(s, pid))
  {
    var i := Find(s.table, pid, 0);
    if i < |s.table| {
      var p := s.table[i].(status := STOPPED);
      forall j | 1 <= j < MAX_PROCESS
        ensures Waiting(Kill(s, pid).table, j) <= MAX_PROCESS - 1 - j
      {
        WaitingUpdate(s.table, i, p, j);
      }
      FindKeeps(s.table, 0, i, p, 0);
    }
  }

  lemma KillBackstop(s: Sched)
    requires PidsOk(s) && Backed(s)
    ensures !Backed(Kill(s, 0))
  {
    var t := Kill(s, 0).table;
    assert forall j | 0 <= j < |t| :: !(Live(t[j]) && t[j].pid == 0);
  }

  // ----- selected and running -----

  /** Whoever is live and named by `activePid` is marked as running. */
  ghost predicate Running(s: Sched) {
    forall i | 0 <= i < |s.table| && Live(s.table[i]) && s.table[i].pid == s.activePid :: s.table[i].status == ACTIVE
  }

  /** The slot that a tick selects is running after it exactly when it was not the one named by
      `activePid`, or was running already. */
  lemma SelectedIsActive(s: Sched)
    requires PidsOk(s) && Backed(s) && NoWrap(s)
    ensures var i := Selected(s);
      i < |Tick(s).table|
      && (Tick(s).table[i].status == ACTIVE <==> s.table[i].pid != s.activePid || s.table[i].status == ACTIVE)
  {
    var i := Selected(s);
    var aged := AgedTo(s.table, |s.table|);
    var t := s.(table := aged[i := aged[i].(waitTime := 0)]);
    assert forall j | 0 <= j < |s.table| ::
      t.table[j].pid == s.table[j].pid && t.table[j].status == s.table[j].status;
    assert Live(t.table[i]) && t.table[i].pid == s.table[i].pid;
    if t.table[i].pid != t.activePid {
      SwitchRuns(t, i);
    }
  }

  lemma SwitchRuns(s: Sched, i: nat)
    requires PidsOk(s) && i < |s.table| && Live(s.table[i]) && s.table[i].pid != s.activePid
    ensures Find(s.table, s.table[i].pid, 0) == i
    ensures Switch(s, s.table[i].pid).table[i].status == ACTIVE
  {
    var n := Find(s.table, s.table[i].pid, 0);
    assert n <= i;
  }

  lemma TickRunning(s: Sched)
    requires Inv(s) && Running(s)
    ensures Running(Tick(s)) && Selected(s) < |Tick(s).table| && Tick(s).table[Selected(s)].status == ACTIVE
  {
    hide Tick, Selected, Fair, ActiveOk;
    FairNoWrapOf(s);
    SelectedIsActive(s);
    TickActive(s);
    TickPids(s);
    SelectedLive(s);
    TickEffect(s, Selected(s));
  }

  lemma SelectedLive(s: Sched)
    requires Backed(s) && NoWrap(s)
    ensures Live(s.table[Selected(s)])
  {
    SelectedLongest(s);
  }

  lemma KillRunning(s: Sched, pid: nat)
    requires Running(s)
    ensures Running(Kill(s, pid))
  {
  }

  /** A spawn leaves a process named by `activePid` but not running exactly when it hands out a stale
      `activePid`, one whose process has been killed since it was last selected. */
  lemma SpawnRunning(s: Sched, context: Context, entryPoint: nat)
    requires PidsOk(s) && Running(s) && FindStopped(s.table, 0) < MAX_PROCESS
    ensures Running(Spawn(s, context, entryPoint)) <==> NextPid(s) != s.activePid
  {
    hide NextPid;
    var t, i := Spawn(s, context, entryPoint), FindStopped(s.table, 0);
    assert t.table[i].pid == NextPid(s) && t.table[i].status == SPAWNED;
  }

  /** The zero-initialised table: every slot stopped, both PID counters at -1. */
  ghost predicate Booted(s: Sched) {
    && |s.table| == MAX_PROCESS && s.activePid == NO_PID && s.nextPid == NO_PID
    && forall i | 0 <= i < MAX_PROCESS :: s.table[i].status == STOPPED
  }

  /** The first process spawned is the backstop, with PID 0, and from then on the invariant holds. */
  lemma FirstSpawn(s: Sched, context: Context, entryPoint: nat)
    requires Booted(s)
    ensures PidsOk(s) && FindStopped(s.table, 0) == 0
    ensures Inv(Spawn(s, context, entryPoint)) && Spawn(s, context, entryPoint).table[0].pid == 0
    ensures Running(Spawn(s, context, entryPoint))
  {
    hide NextPid;
    NextPidFresh(s);
    var t := Spawn(s, context, entryPoint);
    SpawnPids(s, context, entryPoint);
    forall j: nat
      ensures Waiting(t.table, j) == 0
    {
      NoneWaiting(t.table, j);
    }
  }

  lemma {:induction false} NoneWaiting(table: seq<Proc>, j: nat)
    requires forall i | 0 <= i < |table| :: !Contender(table[i])
    ensures Waiting(table, j) == 0
  {
    if table != [] {
      NoneWaiting(table[..|table| - 1], j);
    }
  }

  /** A tick that selects the process named by `activePid` leaves every status. */
  lemma StaleKept(s: Sched)
    requires Backed(s) && s.table[Selected(s)].pid == s.activePid
    ensures |Tick(s).table| == |s.table|
    ensures forall j | 0 <= j < |s.table| :: Tick(s).table[j].status == s.table[j].status
  {
  }

  // ----- what each step does to the table -----

  /** A kill stops the live process of this PID, after which none has it, and touches nothing else. */
  lemma KillEffect(s: Sched, pid: nat)
    requires PidsOk(s)
    ensures var t := Kill(s, pid);
      && !LivePid(t.table, pid) && |t.table| == |s.table| && t.activePid == s.activePid && t.nextPid == s.nextPid
      && forall j | 0 <= j < |s.table| ::
           t.table[j] ==
             if Live(s.table[j]) && s.table[j].pid == pid then s.table[j].(status := STOPPED) else s.table[j]
  {
    var i := Find(s.table, pid, 0);
    if j :| 0 <= j < |s.table| && Live(s.table[j]) && s.table[j].pid == pid {
      assert j >= i;
      assert i < |s.table|;
      assert i == j;
    }
  }

  /** A spawn fills the first stopped slot with a process that has not waited, and touches no other. */
  lemma SpawnEffect(s: Sched, context: Context, entryPoint: nat) returns (i: nat)
    requires PidsOk(s) && FindStopped(s.table, 0) < MAX_PROCESS
    ensures var t := Spawn(s, context, entryPoint);
      && i < |s.table| == |t.table| && s.table[i].status == STOPPED
      && (forall j | 0 <= j < i :: s.table[j].status != STOPPED)
      && t.table[i] == Proc(context, t.nextPid, SPAWNED, entryPoint, 0) && t.activePid == s.activePid
      && t.nextPid == NextPid(s)
      && forall j | 0 <= j < |s.table| && j != i :: t.table[j] == s.table[j]
  {
    i := FindStopped(s.table, 0);
  }

  /** PIDs count up from the last one issued, from MAX_PID on to 1, unless a live process has the next. */
  lemma NextPidIs(s: Sched)
    requires PidsOk(s) && s.nextPid <= MAX_PID
    ensures var n := if s.nextPid == MAX_PID then 1 else s.nextPid + 1;
      !LivePid(s.table, n) ==> NextPid(s) == n
  {
    hide NextPid;
    var n := if s.nextPid == MAX_PID then 1 else s.nextPid + 1;
    if !LivePid(s.table, n) {
      ThisOne(s.table, s.nextPid);
      NextPidUnique(s.table, s.nextPid, n, NextPid(s));
    }
  }

  lemma AgedKeeps(s: Sched, i: nat)
    requires i < |s.table|
    ensures var aged := AgedTo(s.table, |s.table|);
      && |aged| == |s.table|
      && var t := aged[i := aged[i].(waitTime := 0)];
         forall k | 0 <= k < |s.table| ::
           && t[k].pid == s.table[k].pid && t[k].status == s.table[k].status
           && t[k].context == s.table[k].context && t[k].entryPoint == s.table[k].entryPoint
  {
  }

  /** After a tick the selected process is ACTIVE, one that was ACTIVE before is WAITING, and every other
      status, every context and every entry point is as it was. */
  lemma TickStatus(s: Sched, j: nat)
    requires Inv(s) && Running(s) && j < |s.table|
    ensures Find(s.table, 0, 0) < |s.table| == |Tick(s).table|
    ensures var p, q := s.table[j], Tick(s).table[j];
      && q.status == (if j == Selected(s) then ACTIVE else if p.status == ACTIVE then WAITING else p.status)
      && q.context == p.context && q.entryPoint == p.entryPoint
  {
    hide Fair, Selected, Switch, AgedTo;
    FairNoWrapOf(s);
    var i := Selected(s);
    SelectedLive(s);
    AgedKeeps(s, i);
    var aged := AgedTo(s.table, |s.table|);
    var t := s.(table := aged[i := aged[i].(waitTime := 0)]);
    if t.table[i].pid != t.activePid {
      SwitchStatus(t, i, j);
    }
  }

  lemma SwitchStatus(s: Sched, i: nat, j: nat)
    requires PidsOk(s) && ActiveOk(s) && i < |s.table| && j < |s.table| && Live(s.table[i])
    requires s.table[i].pid != s.activePid
    ensures Find(s.table, s.table[i].pid, 0) == i && |Switch(s, s.table[i].pid).table| == |s.table|
    ensures var p, q := s.table[j], Switch(s, s.table[i].pid).table[j];
      && q.status == (if j == i then ACTIVE else if p.status == ACTIVE then WAITING else p.status)
      && q.context == p.context && q.entryPoint == p.entryPoint
  {
    SwitchRuns(s, i);
    var o := Find(s.table, s.activePid, 0);
    if s.table[j].status == ACTIVE {
      assert o <= j;
    }
  }
}
