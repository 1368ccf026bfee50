/** Processes and the heap together: every stack is a block of its own for as long as its process lives. */
module Processes {
  import opened PowersOfTwo
  import opened SchedulerState
  import opened SchedulerInvariant
  import ContextSwitch
  import HeapLive
  import HeapOperations
  import HeapRuns
  import HeapState
  import HeapTransitions
  import Scheduler

  const MIN_STACK: nat := 56

  /** The process table, the heap, and all that has been allocated from it and not freed. */
  datatype System = System(sched: Sched, world: HeapRuns.World)

  ghost predicate StackOk(world: HeapRuns.World, p: Proc) {
    var c := p.context;
    && c.stackBottom in world.owned && Scheduler.HasRoom(world.heap, c.stackBottom)
    && c.stackTop == Scheduler.StackTop(world.heap, c.stackBottom)
    && (p.status == SPAWNED ==> c.esp == c.stackTop - 52)
  }

  /** Each live process owns the block of its stack, with room for a first frame, and no other live
      process does; one that has not run yet has its stack pointer at the first frame. */
  ghost predicate StacksOk(table: seq<Proc>, world: HeapRuns.World) {
    && (forall i | 0 <= i < |table| && Live(table[i]) :: StackOk(world, table[i]))
    && (forall i, j | 0 <= i < j < |table| && Live(table[i]) && Live(table[j]) ::
          table[i].context.stackBottom != table[j].context.stackBottom)
  }

  ghost predicate SysInv(sys: System) {
    Inv(sys.sched) && HeapRuns.WorldInv(sys.world) && StacksOk(sys.sched.table, sys.world)
  }

  // ----- the steps -----

  datatype Event = Start(n: nat, entryPoint: nat) | End(pid: nat) | Ticked | OnHeap(op: HeapRuns.Op)

  predicate IsStack(table: seq<Proc>, p: nat) {
    exists i :: 0 <= i < |table| && Live(table[i]) && table[i].context.stackBottom == p
  }

  ghost predicate Legal(sys: System, e: Event)
    requires SysInv(sys)
  {
    match e
    case Start(n, _) => MIN_STACK <= n <= HeapOperations.MAX_REQUEST && FindStopped(sys.sched.table, 0) < MAX_PROCESS
    case End(pid) => pid != 0
    case Ticked => true
    case OnHeap(op) =>
      HeapRuns.Legal(sys.world, op) && (op.Release? ==> !IsStack(sys.sched.table, op.p))
  }

  /** The stack that `allocate(n)` gives, with its first frame's place, and the world after. */
  ghost function NewStack(world: HeapRuns.World, n: nat): (r: (HeapRuns.World, Context))
    requires HeapRuns.WorldInv(world) && MIN_STACK <= n <= HeapOperations.MAX_REQUEST
  {
    var t := HeapOperations.Allocate(world.heap, n);
    Scheduler.StackFromAllocate(world.heap, n);
    var top := Scheduler.StackTop(t.0, t.1);
    (HeapRuns.Step(world, HeapRuns.Malloc(n)).0, Context(top - 52, top, t.1))
  }

  ghost function StartSys(sys: System, n: nat, entryPoint: nat): System
    requires PidsOk(sys.sched) && FindStopped(sys.sched.table, 0) < MAX_PROCESS
    requires HeapRuns.WorldInv(sys.world) && MIN_STACK <= n <= HeapOperations.MAX_REQUEST
  {
    var s := NewStack(sys.world, n);
    System(Spawn(sys.sched, s.1, entryPoint), s.0)
  }

  /** The stack pointer given to `free` when the process is killed. */
  function StackOf(sys: System, pid: nat): nat
    requires Find(sys.sched.table, pid, 0) < |sys.sched.table|
  {
    sys.sched.table[Find(sys.sched.table, pid, 0)].context.stackBottom
  }

  ghost function EndSys(sys: System, pid: nat): System
    requires SysInv(sys)
  {
    if Find(sys.sched.table, pid, 0) == |sys.sched.table| then sys else
      System(Kill(sys.sched, pid), HeapRuns.Step(sys.world, HeapRuns.Release(StackOf(sys, pid))).0)
  }

  ghost function Step(sys: System, e: Event): System
    requires SysInv(sys) && Legal(sys, e)
  {
    match e
    case Start(n, entryPoint) => StartSys(sys, n, entryPoint)
    case End(pid) => EndSys(sys, pid)
    case Ticked => sys.(sched := Tick(sys.sched))
    case OnHeap(op) => sys.(world := HeapRuns.Step(sys.world, op).0)
  }

  // ----- what the steps keep -----

  /** While its block is owned, a stack keeps its room and its top. */
  lemma StackKept(world: HeapRuns.World, op: HeapRuns.Op, p: Proc)
    requires HeapRuns.WorldInv(world) && HeapRuns.Legal(world, op) && StackOk(world, p)
    requires p.context.stackBottom in HeapRuns.Step(world, op).0.owned
    ensures StackOk(HeapRuns.Step(world, op).0, p)
  {
    hide HeapRuns.WorldInv, HeapRuns.Legal, HeapRuns.Step, HeapState.Inv, Pow2;
    var b, t := p.context.stackBottom, HeapRuns.Step(world, op).0;
    HeapRuns.OwnedKept(world, op, b);
    UsedIs(world.heap, b - HeapState.HEADER_SIZE);
    UsedIs(t.heap, b - HeapState.HEADER_SIZE);
  }

  lemma UsedIs(h: HeapState.Heap, a: nat)
    ensures a in HeapLive.Used(h) <==> HeapState.Live(h, a)
    ensures a in HeapLive.Used(h) ==> HeapLive.Used(h)[a] == h.blocks[a].scale
  {
  }

  /** The client's pointers after a step. */
  lemma OwnedAfter(world: HeapRuns.World, op: HeapRuns.Op)
    requires HeapRuns.WorldInv(world) && HeapRuns.Legal(world, op)
    ensures forall p | p in world.owned && op != HeapRuns.Release(p) :: p in HeapRuns.Step(world, op).0.owned
  {
    hide HeapState.Inv, HeapOperations.Allocate, HeapOperations.FreeAt, HeapOperations.Brk;
  }

  /** A step that frees no stack keeps all of them. */
  lemma StacksKept(table: seq<Proc>, world: HeapRuns.World, op: HeapRuns.Op)
    requires HeapRuns.WorldInv(world) && HeapRuns.Legal(world, op) && StacksOk(table, world)
    requires op.Release? ==> !IsStack(table, op.p)
    ensures StacksOk(table, HeapRuns.Step(world, op).0)
  {
    hide HeapRuns.WorldInv, HeapRuns.Legal, HeapRuns.Step;
    OwnedAfter(world, op);
    forall i | 0 <= i < |table| && Live(table[i])
      ensures StackOk(HeapRuns.Step(world, op).0, table[i])
    {
      assert op.Release? ==> IsStack(table, table[i].context.stackBottom);
      StackKept(world, op, table[i]);
    }
  }

  lemma NewStackOk(world: HeapRuns.World, n: nat)
    requires HeapRuns.WorldInv(world) && MIN_STACK <= n <= HeapOperations.MAX_REQUEST
    ensures var s := NewStack(world, n);
      && HeapRuns.WorldInv(s.0) && s.0 == HeapRuns.Step(world, HeapRuns.Malloc(n)).0
      && s.1.stackBottom !in world.owned && s.1.stackBottom in s.0.owned
      && Scheduler.HasRoom(s.0.heap, s.1.stackBottom)
      && s.1.stackTop == Scheduler.StackTop(s.0.heap, s.1.stackBottom) && s.1.esp == s.1.stackTop - 52
  {
    hide HeapRuns.WorldInv, HeapState.Inv, HeapOperations.Allocate, Pow2;
    HeapRuns.StepMalloc(world, n);
    WorldHeap(world);
    Scheduler.StackFromAllocate(world.heap, n);
  }

  lemma WorldHeap(world: HeapRuns.World)
    requires HeapRuns.WorldInv(world)
    ensures HeapState.Inv(world.heap)
  {
  }

  /** A new process gets a stack that nobody else has. */
  lemma StartStacks(sys: System, n: nat, entryPoint: nat)
    requires PidsOk(sys.sched) && FindStopped(sys.sched.table, 0) < MAX_PROCESS
    requires HeapRuns.WorldInv(sys.world) && MIN_STACK <= n <= HeapOperations.MAX_REQUEST
    requires StacksOk(sys.sched.table, sys.world)
    ensures var t := StartSys(sys, n, entryPoint);
      HeapRuns.WorldInv(t.world) && StacksOk(t.sched.table, t.world)
  {
    hide HeapRuns.WorldInv, HeapRuns.Step, NewStack, NextPid, StackOk;
    NewStackOk(sys.world, n);
    MallocLegal(sys.world, n);
    StacksKept(sys.sched.table, sys.world, HeapRuns.Malloc(n));
    OldStacks(sys.sched.table, sys.world);
    var t, i := StartSys(sys, n, entryPoint), FindStopped(sys.sched.table, 0);
    NewProcOk(t.world, t.sched.table[i]);
  }

  lemma MallocLegal(world: HeapRuns.World, n: nat)
    ensures HeapRuns.Legal(world, HeapRuns.Malloc(n))
  {
  }

  lemma OldStacks(table: seq<Proc>, world: HeapRuns.World)
    requires StacksOk(table, world)
    ensures forall i | 0 <= i < |table| && Live(table[i]) :: table[i].context.stackBottom in world.owned
  {
  }

  lemma NewProcOk(world: HeapRuns.World, p: Proc)
    requires p.context.stackBottom in world.owned && Scheduler.HasRoom(world.heap, p.context.stackBottom)
    requires p.context.stackTop == Scheduler.StackTop(world.heap, p.context.stackBottom)
    requires p.context.esp == p.context.stackTop - 52
    ensures StackOk(world, p)
  {
  }

  lemma StackIsOwned(sys: System, pid: nat)
    requires SysInv(sys) && Find(sys.sched.table, pid, 0) < |sys.sched.table|
    ensures StackOf(sys, pid) in sys.world.owned
    ensures HeapRuns.Legal(sys.world, HeapRuns.Release(StackOf(sys, pid)))
  {
    hide Inv, HeapRuns.WorldInv, StackOk;
    OldStacks(sys.sched.table, sys.world);
  }

  lemma EndKeeps(sys: System, pid: nat)
    requires SysInv(sys) && pid != 0
    ensures SysInv(EndSys(sys, pid))
  {
    hide Inv, HeapRuns.WorldInv, HeapRuns.Step, HeapRuns.Legal, StackOk;
    KillInv(sys.sched, pid);
    var i := Find(sys.sched.table, pid, 0);
    if i < |sys.sched.table| {
      StackIsOwned(sys, pid);
      var op := HeapRuns.Release(StackOf(sys, pid));
      HeapRuns.StepKeepsInv(sys.world, op);
      var rest := Kill(sys.sched, pid).table;
      assert rest == sys.sched.table[i := sys.sched.table[i].(status := STOPPED)];
      assert StacksOk(rest, sys.world);
      StacksKept(rest, sys.world, op);
    }
  }

  /** A tick moves no stack and makes nobody new. */
  lemma TickStacks(s: Sched, world: HeapRuns.World)
    requires Inv(s) && StacksOk(s.table, world)
    ensures Find(s.table, 0, 0) < |s.table| && StacksOk(Tick(s).table, world)
  {
    hide Fair, PidsOk, ActiveOk, Tick;
    TickContexts(s);
    forall i | 0 <= i < |s.table| && Live(s.table[i])
      ensures StackOk(world, Tick(s).table[i])
    {
      assert StackOk(world, s.table[i]);
    }
  }

  lemma SwitchContexts(s: Sched, pid: nat)
    requires Find(s.table, pid, 0) < |s.table|
    ensures |Switch(s, pid).table| == |s.table|
    ensures forall j | 0 <= j < |s.table| ::
      var p, q := s.table[j], Switch(s, pid).table[j];
      q.context == p.context && Live(q) == Live(p) && (q.status == SPAWNED ==> p.status == SPAWNED)
  {
  }

  lemma TickContexts(s: Sched)
    requires Find(s.table, 0, 0) < |s.table|
    ensures |Tick(s).table| == |s.table|
    ensures forall j | 0 <= j < |s.table| ::
      var p, q := s.table[j], Tick(s).table[j];
      q.context == p.context && Live(q) == Live(p) && (q.status == SPAWNED ==> p.status == SPAWNED)
  {
    hide Selected, Switch;
    var i := Selected(s);
    var aged := AgedTo(s.table, |s.table|);
    var t := s.(table := aged[i := aged[i].(waitTime := 0)]);
    assert forall j | 0 <= j < |s.table| ::
      t.table[j].context == s.table[j].context && t.table[j].status == s.table[j].status;
    SelectedIsLive(s);
    if t.table[i].pid != t.activePid {
      SwitchContexts(t, t.table[i].pid);
    }
  }

  lemma SelectedIsLive(s: Sched)
    requires Find(s.table, 0, 0) < |s.table|
    ensures Live(s.table[Selected(s)])
  {
  }

  /** Every step keeps the whole system in order. */
  lemma StepKeepsInv(sys: System, e: Event)
    requires SysInv(sys) && Legal(sys, e)
    ensures SysInv(Step(sys, e))
  {
    hide HeapRuns.WorldInv, HeapRuns.Step, HeapRuns.Legal, StacksOk, NewStack, NextPid, Tick, Fair, ActiveOk;
    match e
    case Start(n, entryPoint) =>
      StartStacks(sys, n, entryPoint);
      SpawnInv(sys.sched, NewStack(sys.world, n).1, entryPoint);
    case End(pid) => EndKeeps(sys, pid);
    case Ticked =>
      TickInv(sys.sched);
      TickStacks(sys.sched, sys.world);
    case OnHeap(op) =>
      HeapRuns.StepKeepsInv(sys.world, op);
      StacksKept(sys.sched.table, sys.world, op);
  }

  /** The first process, with whatever has been allocated before it. */
  lemma FirstProcess(s: Sched, world: HeapRuns.World, n: nat, entryPoint: nat)
    requires Booted(s) && HeapRuns.WorldInv(world) && MIN_STACK <= n <= HeapOperations.MAX_REQUEST
    ensures PidsOk(s) && FindStopped(s.table, 0) < MAX_PROCESS
    ensures SysInv(StartSys(System(s, world), n, entryPoint))
  {
    hide HeapRuns.WorldInv, NewStack, NextPid, Inv, StackOk;
    FirstSpawn(s, NewStack(world, n).1, entryPoint);
    StartStacks(System(s, world), n, entryPoint);
  }

  // ----- runs -----

  ghost predicate LegalRun(sys: System, events: seq<Event>)
    requires SysInv(sys)
    decreases |events|
  {
    || events == []
    || (Legal(sys, events[0]) && (StepKeepsInv(sys, events[0]); LegalRun(Step(sys, events[0]), events[1..])))
  }

  ghost function Run(sys: System, events: seq<Event>): (t: System)
    requires SysInv(sys) && LegalRun(sys, events)
    ensures SysInv(t)
    decreases |events|
  {
    if events == [] then sys else (StepKeepsInv(sys, events[0]); Run(Step(sys, events[0]), events[1..]))
  }

  /** After any run, every live process has a stack with room for a first frame, in a block that no
      other live process has; and a kill can free it. */
  lemma StacksOverRuns(sys: System, events: seq<Event>, i: nat, j: nat)
    requires SysInv(sys) && LegalRun(sys, events) && i < MAX_PROCESS && j < MAX_PROCESS
    ensures var t := Run(sys, events);
      |t.sched.table| == MAX_PROCESS
      && var p, q := t.sched.table[i], t.sched.table[j];
         (Live(p) ==> Scheduler.HasRoom(t.world.heap, p.context.stackBottom))
         && (Live(p) && Live(q) && i != j ==> p.context.stackBottom != q.context.stackBottom)
         && (Live(p) ==> FreesStack(t, p.pid))
  {
    hide Run, LegalRun, FreesStack, HeapRuns.WorldInv, Fair, ActiveOk, Backed;
    var t := Run(sys, events);
    if Live(t.sched.table[i]) {
      KillFrees(t, t.sched.table[i].pid);
    }
  }

  /** Killing the process of this PID succeeds in freeing its stack. */
  ghost predicate FreesStack(sys: System, pid: nat)
    requires SysInv(sys)
  {
    var i := Find(sys.sched.table, pid, 0);
    i < |sys.sched.table| ==>
      && HeapState.Inv(sys.world.heap) && HeapOperations.FreeArgument(sys.world.heap, StackOf(sys, pid))
      && HeapOperations.FreeAt(sys.world.heap, StackOf(sys, pid)).1 == 0
  }

  lemma KillFrees(sys: System, pid: nat)
    requires SysInv(sys)
    ensures FreesStack(sys, pid)
  {
    hide Inv, StackOk, StacksOk, HeapState.Inv, HeapOperations.FreeAt;
    if Find(sys.sched.table, pid, 0) < |sys.sched.table| {
      StackIsOwned(sys, pid);
      HeapRuns.FreeOwned(sys.world.heap, StackOf(sys, pid));
    }
  }

  // ----- stacks and the context switch -----

  /** The bytes of a process's stack: all of its block but the header. */
  predicate OnStack(p: Proc, x: int) {
    p.context.stackBottom <= x < p.context.stackTop + 4
  }

  lemma StackInBlock(sys: System, i: nat, x: int)
    requires SysInv(sys) && i < |sys.sched.table| && Live(sys.sched.table[i]) && OnStack(sys.sched.table[i], x)
    ensures sys.sched.table[i].context.stackBottom >= HeapState.HEADER_SIZE
    ensures HeapState.Inv(sys.world.heap) && x >= 0
    ensures var a := sys.sched.table[i].context.stackBottom - HeapState.HEADER_SIZE;
      HeapState.Covers(sys.world.heap.blocks, a, x) && a + HeapState.HEADER_SIZE <= x
  {
    hide Inv, HeapState.Inv, Pow2;
    assert StackOk(sys.world, sys.sched.table[i]);
  }

  /** Stacks lie inside the heap, apart from each other and from every header. */
  lemma StacksApart(sys: System, i: nat, x: int)
    requires SysInv(sys) && i < |sys.sched.table| && Live(sys.sched.table[i]) && OnStack(sys.sched.table[i], x)
    ensures HeapState.HEAP_LOWER_BOUND <= x < sys.world.heap.brk
    ensures forall j: nat | j < |sys.sched.table| && j != i && Live(sys.sched.table[j]) ::
      !OnStack(sys.sched.table[j], x)
    ensures forall a: nat :: !HeapRuns.InHeader(sys.world.heap, a, x)
  {
    hide Inv, HeapState.Inv, HeapRuns.WorldInv, Pow2, StackOk, HeapState.Covers;
    StackInBlock(sys, i, x);
    var h, a := sys.world.heap, sys.sched.table[i].context.stackBottom - HeapState.HEADER_SIZE;
    HeapRuns.CoverUnique(h, a, a, x);
    forall j: nat | j < |sys.sched.table| && j != i && Live(sys.sched.table[j])
      ensures !OnStack(sys.sched.table[j], x)
    {
      if OnStack(sys.sched.table[j], x) {
        StackInBlock(sys, j, x);
        HeapRuns.CoverUnique(h, a, sys.sched.table[j].context.stackBottom - HeapState.HEADER_SIZE, x);
      }
    }
    forall b: nat
      ensures !HeapRuns.InHeader(h, b, x)
    {
      if HeapRuns.InHeader(h, b, x) {
        HeapRuns.HeaderInBlock(h, b, x);
        HeapRuns.CoverUnique(h, a, b, x);
      }
    }
  }

  lemma FrameOnStack(sys: System, i: nat)
    requires SysInv(sys) && i < |sys.sched.table| && Live(sys.sched.table[i])
    ensures forall x | ContextSwitch.InStack(sys.sched.table[i].context.stackTop, x) :: OnStack(sys.sched.table[i], x)
    ensures sys.sched.table[i].status == SPAWNED ==>
      sys.sched.table[i].context.esp == sys.sched.table[i].context.stackTop - 52
  {
    hide Inv, HeapRuns.WorldInv;
    var c := sys.sched.table[i].context;
    assert StackOk(sys.world, sys.sched.table[i]);
    Pow2Monotone(7, sys.world.heap.blocks[c.stackBottom - HeapState.HEADER_SIZE].scale);
  }

  /** In any system that is in order: when a process running on its own stack switches to one that has
      not run yet, and that one's first frame is in place, it enters the entry point. That the two
      stacks do not meet is the heap's doing. */
  lemma FirstSwitchInSystem(sys: System, i: nat, j: nat, c: ContextSwitch.Machine, cur: int, next: int,
                            entryPoint: int, kill: int, fromQueue: int)
    requires SysInv(sys) && i < |sys.sched.table| && j < |sys.sched.table| && i != j
    requires Live(sys.sched.table[j]) && sys.sched.table[i].status == SPAWNED
    requires forall x | c.esp - 40 <= x < c.esp :: OnStack(sys.sched.table[j], x)
    requires ContextSwitch.CallOk(c, cur, next) && cur < HeapState.HEAP_LOWER_BOUND
    requires var p := sys.sched.table[i];
      && ContextSwitch.Load(c.mem, next) == p.context.esp
      && ContextSwitch.FirstFrame(c.mem, p.context.stackTop, entryPoint, p.pid, kill, fromQueue)
    ensures var p := sys.sched.table[i];
      && ContextSwitch.ViewOf(ContextSwitch.Restored(ContextSwitch.Saved(c)))
           == ContextSwitch.FirstView(p.context.stackTop, entryPoint)
      && ContextSwitch.Ending(ContextSwitch.Restored(ContextSwitch.Saved(c)).mem, p.context.stackTop, p.pid, kill,
                              fromQueue)
  {
    hide SysInv, ContextSwitch.CallOk, ContextSwitch.FirstFrame, ContextSwitch.Saved, ContextSwitch.Restored;
    hide OnStack, ContextSwitch.InStack;
    var p := sys.sched.table[i];
    var top := p.context.stackTop;
    FrameOnStack(sys, i);
    forall x | c.esp - 40 <= x < c.esp
      ensures !ContextSwitch.InStack(top, x)
    {
      StacksApart(sys, j, x);
      assert !OnStack(sys.sched.table[i], x);
    }
    if ContextSwitch.InStack(top, cur) {
      StacksApart(sys, i, cur);
    }
    ContextSwitch.FirstSwitch(c, cur, next, top, entryPoint, p.pid, kill, fromQueue);
  }
}
