/** The process table as a state machine: spawn, kill and tick. */
module SchedulerState {
  import opened PowersOfTwo

  const MAX_PROCESS: nat := 8
  const MAX_PID: nat := 0xB10B
  const NO_PID: nat := 0xFFFF_FFFF  // -1 as an unsigned word

  datatype Status = STOPPED | ACTIVE | WAITING | SPAWNED

  datatype Context = Context(esp: nat, stackTop: nat, stackBottom: nat)

  datatype Proc = Proc(context: Context, pid: nat, status: Status, entryPoint: nat, waitTime: nat)

  datatype Sched = Sched(table: seq<Proc>, activePid: nat, nextPid: nat)

  predicate Live(p: Proc) {
    p.status != STOPPED
  }

  /** A live process other than the backstop. */
  predicate Contender(p: Proc) {
    Live(p) && p.pid != 0
  }

  predicate LivePid(table: seq<Proc>, pid: nat) {
    exists i :: 0 <= i < |table| && Live(table[i]) && table[i].pid == pid
  }

  // ----- searches -----

  /** The first live slot at or after `i` with this PID, or the length of the table. */
  function Find(table: seq<Proc>, pid: nat, i: nat): (r: nat)
    requires i <= |table|
    ensures i <= r <= |table|
    ensures r < |table| ==> Live(table[r]) && table[r].pid == pid
    ensures forall j | i <= j < r :: !(Live(table[j]) && table[j].pid == pid)
    decreases |table| - i
  {
    if i == |table| || (table[i].pid == pid && table[i].status != STOPPED) then i else Find(table, pid, i + 1)
  }

  /** The first stopped slot at or after `i`, or the length of the table. */
  function FindStopped(table: seq<Proc>, i: nat): (r: nat)
    requires i <= |table|
    ensures i <= r <= |table|
    ensures r < |table| ==> table[r].status == STOPPED
    ensures forall j | i <= j < r :: table[j].status != STOPPED
    decreases |table| - i
  {
    if i == |table| || table[i].status == STOPPED then i else FindStopped(table, i + 1)
  }

  // ----- PIDs -----

  function Bump(n: nat): nat {
    var m := (n + 1) % WORD;
    if m > MAX_PID then 1 else m
  }

  /** How many PIDs come before `x` when counting up cyclically from just after `n`. */
  function Ahead(n: nat, x: nat): int {
    if x > n then x - n - 1 else x - n - 1 + MAX_PID
  }

  /** `pid` is the first PID after `n`, in the cyclic order of 1 to MAX_PID, that no live process
      holds; the very first PID is 0. */
  ghost predicate IsNextPid(table: seq<Proc>, n: nat, pid: nat) {
    && !LivePid(table, pid)
    && if n == NO_PID then pid == 0 else
         && 1 <= pid <= MAX_PID
         && forall x | 1 <= x <= MAX_PID && Ahead(n, x) < Ahead(n, pid) :: LivePid(table, x)
  }

  lemma NextPidUnique(table: seq<Proc>, n: nat, pid: nat, pid': nat)
    requires n <= MAX_PID || n == NO_PID
    requires IsNextPid(table, n, pid) && IsNextPid(table, n, pid')
    ensures pid == pid'
  {
    assert n != NO_PID && Ahead(n, pid) != Ahead(n, pid') ==> LivePid(table, pid) || LivePid(table, pid');
  }

  ghost function LivePids(table: seq<Proc>): set<nat> {
    set i | 0 <= i < |table| && Live(table[i]) :: table[i].pid
  }

  lemma {:induction false} LivePidsBound(table: seq<Proc>)
    ensures |LivePids(table)| <= |table|
  {
    if table != [] {
      var k := |table| - 1;
      LivePidsBound(table[..k]);
      assert LivePids(table) == LivePids(table[..k]) + if Live(table[k]) then {table[k].pid} else {};
    }
  }

  lemma SubsetCard<T>(a: set<T>, b: set<T>)
    requires a <= b
    ensures |a| <= |b|
  {
    assert b == a + (b - a);
  }

  /** The PIDs of `seen` are live and are the last `|seen|` PIDs up to `n`. */
  ghost predicate Passed(table: seq<Proc>, n: nat, seen: set<nat>) {
    && seen <= LivePids(table)
    && forall x | x in seen :: 1 <= x <= MAX_PID && (if x <= n then n - x else n - x + MAX_PID) < |seen|
  }

  /** Stepping over one more live PID. */
  lemma PassOne(table: seq<Proc>, n: nat, seen: set<nat>)
    requires |table| == MAX_PROCESS && n <= MAX_PID && Passed(table, n, seen) && LivePid(table, Bump(n))
    ensures Bump(n) !in seen && Passed(table, Bump(n), seen + {Bump(n)})
    ensures |seen| < |LivePids(table)| <= MAX_PROCESS
  {
    var b := Bump(n);
    LivePidsBound(table);
    SubsetCard(seen, LivePids(table));
    assert b in LivePids(table);
    assert b !in seen;
    hide LivePids;
    SubsetCard(seen + {b}, LivePids(table));
  }

  lemma NextAfterLive(table: seq<Proc>, n: nat, pid: nat)
    requires n <= MAX_PID && LivePid(table, Bump(n)) && IsNextPid(table, Bump(n), pid)
    ensures IsNextPid(table, n, pid)
  {
    hide LivePid;
    var b := Bump(n);
    forall x | 1 <= x <= MAX_PID && Ahead(n, x) < Ahead(n, pid)
      ensures LivePid(table, x)
    {
      assert x != b ==> Ahead(b, x) < Ahead(b, pid);
    }
  }

  lemma ThisOne(table: seq<Proc>, n: nat)
    requires n <= MAX_PID || n == NO_PID
    requires !LivePid(table, Bump(n))
    ensures IsNextPid(table, n, Bump(n))
  {
  }

  lemma {:induction false} NextPidExists(table: seq<Proc>, n: nat, seen: set<nat>) returns (pid: nat)
    requires |table| == MAX_PROCESS && n <= MAX_PID && Passed(table, n, seen)
    ensures IsNextPid(table, n, pid)
    decreases MAX_PROCESS + 1 - |seen|
  {
    if LivePid(table, Bump(n)) {
      PassOne(table, n, seen);
      pid := NextPidExists(table, Bump(n), seen + {Bump(n)});
      NextAfterLive(table, n, pid);
    } else {
      ThisOne(table, n);
      pid := Bump(n);
    }
  }

  // ----- the invariant -----

  ghost predicate PidsOk(s: Sched) {
    && |s.table| == MAX_PROCESS
    && (forall i, j | 0 <= i < j < |s.table| && Live(s.table[i]) && Live(s.table[j]) ::
          s.table[i].pid != s.table[j].pid)
    && (forall i | 0 <= i < |s.table| && Live(s.table[i]) :: s.table[i].pid <= MAX_PID)
    && (s.nextPid <= MAX_PID || (s.nextPid == NO_PID && forall i | 0 <= i < |s.table| :: !Live(s.table[i])))
  }

  /** Only the process that `activePid` names can be active. */
  ghost predicate ActiveOk(s: Sched) {
    forall i | 0 <= i < |s.table| && s.table[i].status == ACTIVE :: s.table[i].pid == s.activePid
  }

  /** The backstop is alive and never waits. */
  ghost predicate Backed(s: Sched) {
    && |s.table| == MAX_PROCESS && Find(s.table, 0, 0) < MAX_PROCESS
    && s.table[Find(s.table, 0, 0)].waitTime == 0
  }

  /** The number of contenders that have waited at least `j` ticks. */
  function Waiting(table: seq<Proc>, j: nat): nat {
    if table == [] then 0 else
      var p := table[|table| - 1];
      Waiting(table[..|table| - 1], j) + if Contender(p) && p.waitTime >= j then 1 else 0
  }

  /** At most `7 - j` contenders have waited `j` ticks. */
  ghost predicate Fair(s: Sched) {
    forall j | 1 <= j < MAX_PROCESS :: Waiting(s.table, j) <= MAX_PROCESS - 1 - j
  }

  ghost predicate Inv(s: Sched) {
    PidsOk(s) && ActiveOk(s) && Backed(s) && Fair(s)
  }

  // ----- the transitions -----

  lemma HasNextPid(s: Sched)
    requires PidsOk(s) && s.nextPid != NO_PID
    ensures exists pid :: IsNextPid(s.table, s.nextPid, pid)
  {
    var pid := NextPidExists(s.table, s.nextPid, {});
  }

  ghost function NextPid(s: Sched): (pid: nat)
    requires PidsOk(s)
    ensures IsNextPid(s.table, s.nextPid, pid)
  {
    if s.nextPid == NO_PID then 0 else
      HasNextPid(s);
      var pid: nat :| IsNextPid(s.table, s.nextPid, pid);
      pid
  }

  /** `init_process`, where a free slot exists. */
  ghost function Spawn(s: Sched, context: Context, entryPoint: nat): Sched
    requires PidsOk(s) && FindStopped(s.table, 0) < MAX_PROCESS
  {
    var pid := NextPid(s);
    s.(table := s.table[FindStopped(s.table, 0) := Proc(context, pid, SPAWNED, entryPoint, 0)], nextPid := pid)
  }

  /** `kill_process`. */
  function Kill(s: Sched, pid: nat): Sched {
    var i := Find(s.table, pid, 0);
    if i == |s.table| then s else s.(table := s.table[i := s.table[i].(status := STOPPED)])
  }

  /** Every contender has waited one tick more. */
  function Aged(p: Proc): Proc {
    if Contender(p) then p.(waitTime := (p.waitTime + 1) % WORD) else p
  }

  function AgedTo(table: seq<Proc>, k: nat): seq<Proc>
    requires k <= |table|
  {
    seq(|table|, i requires 0 <= i < |table| => if i < k then Aged(table[i]) else table[i])
  }

  /** The scan of the aged table: a slot replaces the best so far when it has waited longer. */
  function Best(table: seq<Proc>, start: nat, k: nat): (b: nat)
    requires k <= |table| && start < |table|
    ensures b < |table| && (b == start || Contender(table[b]))
  {
    if k == 0 then start else
      var b := Best(table, start, k - 1);
      if Contender(table[k - 1]) && table[k - 1].waitTime > table[b].waitTime then k - 1 else b
  }

  /** The slot that a tick selects. */
  function Selected(s: Sched): (i: nat)
    requires Find(s.table, 0, 0) < |s.table|
    ensures i < |s.table|
  {
    Best(AgedTo(s.table, |s.table|), Find(s.table, 0, 0), |s.table|)
  }

  /** `switch_process`; with no live old process there is nothing to downgrade. */
  function Switch(s: Sched, pid: nat): Sched
    requires Find(s.table, pid, 0) < |s.table|
  {
    var o, n := Find(s.table, s.activePid, 0), Find(s.table, pid, 0);
    if o == n then s else
      var t :=
        if o < |s.table| && s.table[o].status == ACTIVE then s.table[o := s.table[o].(status := WAITING)]
        else s.table;
      s.(table := t[n := t[n].(status := ACTIVE)], activePid := pid)
  }

  /** `switch_process_from_queue`. */
  function Tick(s: Sched): Sched
    requires Find(s.table, 0, 0) < |s.table|
  {
    var i := Selected(s);
    var aged := AgedTo(s.table, |s.table|);
    var t := s.(table := aged[i := aged[i].(waitTime := 0)]);
    assert Live(t.table[i]) && t.table[i].pid == t.table[i].pid;
    if t.table[i].pid != t.activePid then Switch(t, t.table[i].pid) else t
  }
}
