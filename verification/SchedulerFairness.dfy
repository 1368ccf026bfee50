/** Fairness over whole runs: nobody starves, and a fixed set of processes is served in turn. */
module SchedulerFairness {
  import opened PowersOfTwo
  import opened SchedulerState
  import opened SchedulerInvariant

  // ----- arbitrary runs -----

  datatype Event = Spawned(context: Context, entryPoint: nat) | Killed(pid: nat) | Ticked

  ghost predicate Legal(s: Sched, e: Event) {
    match e
    case Spawned(_, _) => |s.table| == MAX_PROCESS && FindStopped(s.table, 0) < MAX_PROCESS
    case Killed(pid) => pid != 0
    case Ticked => true
  }

  ghost function Step(s: Sched, e: Event): (t: Sched)
    requires Inv(s) && Legal(s, e)
    ensures Inv(t)
  {
    hide Inv;
    match e
    case Spawned(context, entryPoint) => (InvParts(s); SpawnInv(s, context, entryPoint); Spawn(s, context, entryPoint))
    case Killed(pid) => (KillInv(s, pid); Kill(s, pid))
    case Ticked => (InvParts(s); TickInv(s); Tick(s))
  }

  lemma InvParts(s: Sched)
    requires Inv(s)
    ensures PidsOk(s) && Backed(s) && Find(s.table, 0, 0) < |s.table| == MAX_PROCESS
  {
  }

  ghost predicate LegalRun(s: Sched, events: seq<Event>)
    requires Inv(s)
    decreases |events|
  {
    events == [] || (Legal(s, events[0]) && LegalRun(Step(s, events[0]), events[1..]))
  }

  ghost function Run(s: Sched, events: seq<Event>): (t: Sched)
    requires Inv(s) && LegalRun(s, events)
    ensures Inv(t)
    decreases |events|
  {
    if events == [] then s else Run(Step(s, events[0]), events[1..])
  }

  function Ticks(events: seq<Event>): nat {
    if events == [] then 0 else (if events[0].Ticked? then 1 else 0) + Ticks(events[1..])
  }

  /** The process in slot `i` is selected by some tick of the run. */
  ghost predicate EverSelected(s: Sched, events: seq<Event>, i: nat)
    requires Inv(s) && LegalRun(s, events)
    decreases |events|
  {
    && events != []
    && ((events[0].Ticked? && (InvParts(s); Selected(s)) == i) || EverSelected(Step(s, events[0]), events[1..], i))
  }

  /** No event of the run kills a process with this PID. */
  predicate NeverKilled(events: seq<Event>, pid: nat) {
    forall k | 0 <= k < |events| :: events[k] != Killed(pid)
  }

  ghost predicate Runs(s: Sched, i: nat, pid: nat) {
    i < |s.table| && Contender(s.table[i]) && s.table[i].pid == pid
  }

  /** One event in the life of a process that it does not kill or select. */
  lemma StepWaits(s: Sched, e: Event, i: nat, pid: nat)
    requires Inv(s) && Legal(s, e) && Runs(s, i, pid) && e != Killed(pid)
    ensures Runs(Step(s, e), i, pid)
    ensures Find(s.table, 0, 0) < |s.table|
    ensures !(e.Ticked? && Selected(s) == i) ==>
      Step(s, e).table[i].waitTime == s.table[i].waitTime + if e.Ticked? then 1 else 0
  {
    hide Tick, Selected, NextPid, Fair;
    match e
    case Spawned(_, _) =>
    case Killed(q) =>
    case Ticked =>
      FairNoWrapOf(s);
      TickEffect(s, i);
  }

  lemma {:induction false} Unselected(s: Sched, events: seq<Event>, i: nat, pid: nat)
    requires Inv(s) && LegalRun(s, events) && Runs(s, i, pid) && NeverKilled(events, pid)
    ensures Runs(Run(s, events), i, pid)
    ensures !EverSelected(s, events, i) ==>
      Run(s, events).table[i].waitTime == s.table[i].waitTime + Ticks(events)
    decreases |events|
  {
    hide Inv, Step, Legal;
    if events != [] {
      StepWaits(s, events[0], i, pid);
      Unselected(Step(s, events[0]), events[1..], i, pid);
    }
  }

  /** However processes come and go, one that lives through seven ticks is selected in one of them. */
  lemma NoStarvation(s: Sched, events: seq<Event>, i: nat, pid: nat)
    requires Inv(s) && LegalRun(s, events) && Runs(s, i, pid) && NeverKilled(events, pid)
    requires Ticks(events) >= MAX_PROCESS - 1
    ensures EverSelected(s, events, i)
  {
    hide PidsOk, ActiveOk, Fair, Run, LegalRun, EverSelected, Ticks;
    Unselected(s, events, i, pid);
    InvParts(Run(s, events));
    FairNoWrap(Run(s, events));
  }

  /** The process in slot `i` is the one running after some tick of the run. */
  ghost predicate EverRuns(s: Sched, events: seq<Event>, i: nat)
    requires Inv(s) && LegalRun(s, events)
    decreases |events|
  {
    && events != []
    && var t := Step(s, events[0]);
       (events[0].Ticked? && i < |t.table| && t.table[i].status == ACTIVE && t.table[i].pid == t.activePid)
       || EverRuns(t, events[1..], i)
  }

  /** No spawn of the run hands out a PID that `activePid` still holds. */
  ghost predicate NoStalePid(s: Sched, events: seq<Event>)
    requires Inv(s) && LegalRun(s, events)
    decreases |events|
  {
    events != [] ==>
      && (events[0].Spawned? ==> (InvParts(s); NextPid(s)) != s.activePid)
      && NoStalePid(Step(s, events[0]), events[1..])
  }

  lemma StepRunning(s: Sched, e: Event)
    requires Inv(s) && Legal(s, e) && Running(s)
    ensures PidsOk(s) && (Running(Step(s, e)) <==> !(e.Spawned? && NextPid(s) == s.activePid))
    ensures e.Ticked? ==>
      var i := (InvParts(s); Selected(s));
      i < |Step(s, e).table| && Step(s, e).table[i].status == ACTIVE && Step(s, e).table[i].pid == Step(s, e).activePid
  {
    hide Inv, Tick, Selected, Running, NextPid;
    InvParts(s);
    match e
    case Spawned(context, entryPoint) => SpawnRunning(s, context, entryPoint);
    case Killed(pid) => KillRunning(s, pid);
    case Ticked =>
      TickRunning(s);
      ActiveIsNamed(Step(s, e));
  }

  lemma ActiveIsNamed(s: Sched)
    requires Inv(s)
    ensures forall i | 0 <= i < |s.table| && s.table[i].status == ACTIVE :: s.table[i].pid == s.activePid
  {
  }

  /** While no stale PID is handed out, to be selected is to run. */
  lemma {:induction false} SelectedRuns(s: Sched, events: seq<Event>, i: nat)
    requires Inv(s) && LegalRun(s, events) && Running(s) && NoStalePid(s, events) && EverSelected(s, events, i)
    ensures EverRuns(s, events, i)
    decreases |events|
  {
    hide Inv, Step, Legal, Running, Selected, NextPid;
    StepRunning(s, events[0]);
    if !(events[0].Ticked? && (InvParts(s); Selected(s)) == i) {
      SelectedRuns(Step(s, events[0]), events[1..], i);
    }
  }

  /** So, while no stale PID is handed out, a process that lives through seven ticks runs after one. */
  lemma NoStarvationRuns(s: Sched, events: seq<Event>, i: nat, pid: nat)
    requires Inv(s) && LegalRun(s, events) && Runs(s, i, pid) && NeverKilled(events, pid)
    requires Ticks(events) >= MAX_PROCESS - 1 && Running(s) && NoStalePid(s, events)
    ensures EverRuns(s, events, i)
  {
    hide Inv, LegalRun, EverSelected, EverRuns, NoStalePid, Running, Ticks;
    NoStarvation(s, events, i, pid);
    SelectedRuns(s, events, i);
  }

  /** At most one process is active, after any run. */
  lemma OneActive(s: Sched, events: seq<Event>, i: nat, j: nat)
    requires Inv(s) && LegalRun(s, events) && i < MAX_PROCESS && j < MAX_PROCESS
    ensures |Run(s, events).table| == MAX_PROCESS
    ensures Run(s, events).table[i].status == ACTIVE && Run(s, events).table[j].status == ACTIVE ==> i == j
  {
    hide Run, LegalRun, Fair, Backed;
    InvParts(Run(s, events));
  }

  // ----- a fixed set of processes -----

  /** The slots of the contenders. */
  ghost function Members(s: Sched): set<nat> {
    set i | 0 <= i < |s.table| && Contender(s.table[i])
  }

  ghost predicate Timed(s: Sched, bound: nat) {
    Backed(s) && forall i | i in Members(s) :: s.table[i].waitTime + bound < WORD
  }

  /** The contenders' waits are distinct and below their number: a permutation of 0 to n-1. */
  ghost predicate Ranked(s: Sched) {
    && (forall i | i in Members(s) :: s.table[i].waitTime < |Members(s)|)
    && (forall i, j | i in Members(s) && j in Members(s) && i != j :: s.table[i].waitTime != s.table[j].waitTime)
  }

  /** The state after `m` ticks. */
  ghost function After(s: Sched, m: nat): (t: Sched)
    requires Timed(s, m)
    ensures Backed(t) && |t.table| == |s.table|
    decreases m
  {
    if m == 0 then s else
      TickTimed(s, m - 1);
      After(Tick(s), m - 1)
  }

  lemma TickTimed(s: Sched, m: nat)
    requires Timed(s, m + 1)
    ensures NoWrap(s) && Timed(Tick(s), m) && Members(Tick(s)) == Members(s)
    ensures |Tick(s).table| == |s.table|
  {
    hide Tick, Selected, Backed;
    NoWrapOfTimed(s, m);
    BackedLength(s);
    TickBacked(s);
    TickEffect(s, 0);
    forall j | 0 <= j < |s.table|
      ensures Contender(Tick(s).table[j]) == Contender(s.table[j])
      ensures Contender(s.table[j]) ==> Tick(s).table[j].waitTime <= s.table[j].waitTime + 1
    {
      TickEffect(s, j);
    }
  }

  lemma BackedLength(s: Sched)
    requires Backed(s)
    ensures |s.table| == MAX_PROCESS && Find(s.table, 0, 0) < |s.table|
  {
  }

  lemma NoWrapOfTimed(s: Sched, m: nat)
    requires Timed(s, m + 1)
    ensures NoWrap(s)
  {
    assert forall i | 0 <= i < |s.table| && Contender(s.table[i]) :: i in Members(s);
  }

  function Upto(n: nat): set<nat> {
    if n == 0 then {} else Upto(n - 1) + {n - 1}
  }

  lemma {:induction false} UptoCard(n: nat)
    ensures |Upto(n)| == n && forall x :: x in Upto(n) <==> 0 <= x < n
  {
    if n > 0 {
      UptoCard(n - 1);
    }
  }

  // ----- convergence -----

  /** The last ticks selected the slots of `order`, each once, and everyone else has waited longer. */
  ghost predicate Served(s: Sched, order: seq<nat>) {
    && (forall k | 0 <= k < |order| ::
          order[k] in Members(s) && s.table[order[k]].waitTime == |order| - 1 - k)
    && (forall i | i in Members(s) && i !in order :: s.table[i].waitTime >= |order|)
  }

  lemma ServedDistinct(s: Sched, order: seq<nat>, j: nat, k: nat)
    requires Served(s, order) && j < k < |order|
    ensures order[j] != order[k]
  {
  }

  function Elements(order: seq<nat>): set<nat> {
    set x | x in order
  }

  lemma {:induction false} OrderCard(order: seq<nat>)
    requires forall j, k | 0 <= j < k < |order| :: order[j] != order[k]
    ensures |Elements(order)| == |order|
  {
    if order != [] {
      var k := |order| - 1;
      OrderCard(order[..k]);
      assert order[k] !in order[..k];
      assert Elements(order) == Elements(order[..k]) + {order[k]};
    }
  }

  /** While someone is unserved, a tick serves someone new. */
  lemma ServeOne(s: Sched, order: seq<nat>)
    requires Timed(s, 1) && Served(s, order) && |order| < |Members(s)|
    ensures Find(s.table, 0, 0) < |s.table| && Served(Tick(s), order + [Selected(s)])
  {
    hide Tick, Selected, Backed;
    BackedLength(s);
    TickTimed(s, 0);
    var t, x := Tick(s), Selected(s);
    UnservedExists(s, order);
    var u :| u in Members(s) && u !in order;
    SelectedLongest(s);
    assert x !in order;
    forall i | i in Members(s)
      ensures t.table[i].waitTime == if i == x then 0 else s.table[i].waitTime + 1
    {
      TickEffect(s, i);
    }
  }

  lemma UnservedExists(s: Sched, order: seq<nat>)
    requires Served(s, order) && |order| < |Members(s)|
    ensures exists u :: u in Members(s) && u !in order
  {
    forall j, k | 0 <= j < k < |order|
      ensures order[j] != order[k]
    {
      ServedDistinct(s, order, j, k);
    }
    OrderCard(order);
    if Members(s) <= Elements(order) {
      SubsetCard(Members(s), Elements(order));
    }
  }

  lemma {:induction false} ServeAll(s: Sched, order: seq<nat>, m: nat)
    requires Timed(s, m) && Served(s, order) && |order| + m == |Members(s)|
    ensures Members(After(s, m)) == Members(s) && Ranked(After(s, m))
    decreases m
  {
    hide Tick, Selected, Backed, Served, Ranked;
    if m > 0 {
      BackedLength(s);
      TickTimed(s, m - 1);
      ServeOne(s, order);
      ServeAll(Tick(s), order + [Selected(s)], m - 1);
    } else {
      AllServed(s, order);
    }
  }

  lemma AllServed(s: Sched, order: seq<nat>)
    requires Served(s, order) && |order| == |Members(s)|
    ensures Ranked(s)
  {
    forall j, k | 0 <= j < k < |order|
      ensures order[j] != order[k]
    {
      ServedDistinct(s, order, j, k);
    }
    OrderCard(order);
    var served := Elements(order);
    assert served <= Members(s);
    SubsetEq(served, Members(s));
    forall i | i in Members(s)
      ensures exists k :: 0 <= k < |order| && order[k] == i
    {
      assert i in served;
    }
  }

  lemma SubsetEq<T>(a: set<T>, b: set<T>)
    requires a <= b && |a| == |b|
    ensures a == b
  {
    assert b == a + (b - a);
    assert |b - a| == 0;
  }

  /** From any wait times, after as many ticks as there are contenders their waits are a permutation
      of 0 to n-1. */
  lemma ConvergesToRanked(s: Sched)
    requires Timed(s, |Members(s)|)
    ensures Members(After(s, |Members(s)|)) == Members(s) && Ranked(After(s, |Members(s)|))
  {
    ServeAll(s, [], |Members(s)|);
  }

  // ----- round robin -----

  ghost function Waits(s: Sched, a: set<nat>): set<nat>
    requires a <= Members(s)
  {
    set i | i in a :: s.table[i].waitTime
  }

  lemma {:induction false} WaitsCard(s: Sched, a: set<nat>)
    requires a <= Members(s) && Ranked(s)
    ensures |Waits(s, a)| == |a|
    decreases |a|
  {
    if a != {} {
      var x :| x in a;
      WaitsCard(s, a - {x});
      assert s.table[x].waitTime !in Waits(s, a - {x});
      assert Waits(s, a) == Waits(s, a - {x}) + {s.table[x].waitTime};
    }
  }

  /** Among ranked contenders one has waited n-1 ticks. */
  lemma LastRankExists(s: Sched)
    requires Ranked(s) && Members(s) != {}
    ensures exists i :: i in Members(s) && s.table[i].waitTime == |Members(s)| - 1
  {
    var n := |Members(s)|;
    WaitsCard(s, Members(s));
    UptoCard(n);
    assert Waits(s, Members(s)) <= Upto(n);
    SubsetEq(Waits(s, Members(s)), Upto(n));
    assert n - 1 in Waits(s, Members(s));
  }

  /** The rank after a tick. */
  function Turn(w: nat, n: nat): nat {
    if w + 1 == n then 0 else w + 1
  }

  /** A tick of ranked contenders selects the one of the last rank and turns all ranks by one. */
  lemma RankedTick(s: Sched, i: nat)
    requires Timed(s, 1) && Ranked(s) && i in Members(s)
    ensures Find(s.table, 0, 0) < |s.table|
    ensures Selected(s) == i <==> s.table[i].waitTime == |Members(s)| - 1
    ensures i < |Tick(s).table| && Tick(s).table[i].waitTime == Turn(s.table[i].waitTime, |Members(s)|)
  {
    hide Tick, Selected, Backed;
    BackedLength(s);
    TickTimed(s, 0);
    LastRankExists(s);
    var l :| l in Members(s) && s.table[l].waitTime == |Members(s)| - 1;
    SelectedLongest(s);
    TickEffect(s, i);
  }

  lemma RankedKept(s: Sched)
    requires Timed(s, 1) && Ranked(s)
    ensures Find(s.table, 0, 0) < |s.table| && Ranked(Tick(s))
  {
    hide Tick, Selected, Backed;
    BackedLength(s);
    TickTimed(s, 0);
    forall i | i in Members(s)
      ensures i < |Tick(s).table| && Tick(s).table[i].waitTime == Turn(s.table[i].waitTime, |Members(s)|)
    {
      RankedTick(s, i);
    }
  }

  lemma TurnMod(w: nat, m: nat, n: nat)
    requires w < n && m > 0
    ensures (Turn(w, n) + (m - 1)) % n == (w + m) % n
  {
    if w + 1 == n {
      ModOnce(m - 1, n);
    }
  }

  lemma ModOnce(y: nat, n: nat)
    requires 0 < n
    ensures (y + n) % n == y % n
  {
    var x := y + n;
    var e := x / n - y / n - 1;
    assert n * e == y % n - x % n;
    NoSmallMultiple(n, if n * e >= 0 then e else -e);
  }

  /** Ranked contenders are served in one fixed cyclic order: after `m` ticks everyone's wait has
      turned by `m`, so the next tick selects `i` exactly when its turn comes round. */
  lemma {:induction false} RoundRobin(s: Sched, m: nat, i: nat)
    requires Timed(s, m + 1) && Ranked(s) && i in Members(s)
    ensures Timed(s, m)
    ensures var t := After(s, m);
      && Find(t.table, 0, 0) < |t.table| && i < |t.table|
      && t.table[i].waitTime == (s.table[i].waitTime + m) % |Members(s)|
      && (Selected(t) == i <==> (s.table[i].waitTime + m) % |Members(s)| == |Members(s)| - 1)
    decreases m
  {
    hide Tick, Selected, Backed, Ranked;
    var n := |Members(s)|;
    BackedLength(s);
    RankedBound(s, i);
    RankedTick(s, i);
    if m > 0 {
      TickTimed(s, m);
      RankedKept(s);
      RoundRobin(Tick(s), m - 1, i);
      TurnMod(s.table[i].waitTime, m, n);
    }
  }

  lemma RankedBound(s: Sched, i: nat)
    requires Ranked(s) && i in Members(s)
    ensures s.table[i].waitTime < |Members(s)| && s.table[i].waitTime % |Members(s)| == s.table[i].waitTime
  {
  }

  /** Every contender is selected exactly once in any `n` consecutive ticks: `turn` is when. */
  lemma OncePerRound(s: Sched, m: nat, i: nat) returns (turn: nat)
    requires Timed(s, m + 2 * |Members(s)|) && Ranked(s) && i in Members(s)
    ensures m <= turn < m + |Members(s)|
    ensures forall k: nat | m <= k < m + |Members(s)| ::
      Timed(s, k) && Find(After(s, k).table, 0, 0) < |After(s, k).table| && (Selected(After(s, k)) == i <==> k == turn)
  {
    hide Tick, Selected, Backed, Ranked, After;
    var n := |Members(s)|;
    var w := s.table[i].waitTime;
    RankedBound(s, i);
    turn := NextTurn(w, m, n);
    forall k: nat | m <= k < m + n
      ensures Timed(s, k) && Find(After(s, k).table, 0, 0) < |After(s, k).table|
      ensures Selected(After(s, k)) == i <==> k == turn
    {
      TimedLess(s, k + 1, m + 2 * n);
      assert IsTurn(w, k, n) <==> k == turn;
      RoundRobin(s, k, i);
    }
  }

  lemma TimedLess(s: Sched, k: nat, m: nat)
    requires Timed(s, m) && k <= m
    ensures Timed(s, k)
  {
  }

  predicate IsTurn(w: nat, k: nat, n: nat)
    requires 0 < n
  {
    (w + k) % n == n - 1
  }

  lemma ModOf(x: nat, q: nat, r: nat, n: nat)
    requires r < n && x == n * q + r
    ensures x % n == r
  {
    var e := x / n - q;
    assert n * e == r - x % n;
    NoSmallMultiple(n, if n * e >= 0 then e else -e);
  }

  lemma TurnAt(w: nat, m: nat, n: nat, q: nat, r: nat, k: nat)
    requires r < n && w + m == n * q + r && m <= k < m + n
    ensures IsTurn(w, k, n) <==> k == m + (n - 1 - r)
  {
    var t := r + (k - m);
    if t < n {
      ModOf(w + k, q, t, n);
    } else {
      assert n * (q + 1) == n * q + n;
      ModOf(w + k, q + 1, t - n, n);
    }
  }

  lemma DivMod(x: nat, n: nat)
    requires n > 0
    ensures x == n * (x / n) + x % n && x % n < n
  {
  }

  /** Exactly one of `n` consecutive numbers is congruent to `n - 1 - w`. */
  lemma NextTurn(w: nat, m: nat, n: nat) returns (turn: nat)
    requires w < n
    ensures m <= turn < m + n
    ensures forall k: nat | m <= k < m + n :: IsTurn(w, k, n) <==> k == turn
  {
    hide IsTurn;
    var q, r := (w + m) / n, (w + m) % n;
    DivMod(w + m, n);
    turn := m + (n - 1 - r);
    forall k: nat | m <= k < m + n
      ensures IsTurn(w, k, n) <==> k == turn
    {
      TurnAt(w, m, n, q, r, k);
    }
  }

  /** With nobody contending a tick selects the backstop, and otherwise never does. */
  lemma BackstopOnlyWhenAlone(s: Sched)
    requires Timed(s, 1)
    ensures Find(s.table, 0, 0) < |s.table|
    ensures s.table[Selected(s)].pid == 0 <==> Members(s) == {}
  {
    hide Selected;
    TickTimed(s, 0);
    SelectedLongest(s);
    assert NoContenders(s) <==> Members(s) == {};
  }
}
