/** The process table in memory, with the heap its stacks come from. */
module Scheduler {
  import opened PowersOfTwo
  import opened SchedulerState
  import opened SchedulerInvariant
  import HeapState
  import HeapTransitions
  import HeapOperations
  import HeapLive
  import HeapManager
  import ContextSwitch

  class ProcessManager {
    const table: array<Proc>
    const heap: HeapManager.Manager
    const killAddress: int
    const fromQueueAddress: int
    var activePid: nat
    var nextPid: nat
    var words: ContextSwitch.Words

    ghost function State(): Sched
      reads this, table
    {
      Sched(table[..], activePid, nextPid)
    }

    constructor (heap: HeapManager.Manager, killAddress: int, fromQueueAddress: int, words: ContextSwitch.Words)
      ensures Booted(State()) && fresh(table) && this.heap == heap
    {
      this.heap, this.killAddress, this.fromQueueAddress, this.words := heap, killAddress, fromQueueAddress, words;
      table := new Proc[MAX_PROCESS](_ => Proc(Context(0, 0, 0), 0, STOPPED, 0, 0));
      activePid, nextPid := NO_PID, NO_PID;
    }

    /** The first stopped slot; 8 stands for NULL. */
    method ReserveProcTableSlot() returns (slot: nat)
      requires table.Length == MAX_PROCESS
      ensures slot == FindStopped(table[..], 0)
    {
      slot := MAX_PROCESS;
      var i := 0;
      while i < MAX_PROCESS
        invariant i <= MAX_PROCESS && slot == MAX_PROCESS
        invariant FindStopped(table[..], 0) == FindStopped(table[..], i)
      {
        if table[i].status == STOPPED {
          slot := i;
          break;
        }
        i := i + 1;
      }
    }

    /** The first live slot with this PID; 8 stands for NULL. */
    method GetProcess(pid: nat) returns (slot: nat)
      requires table.Length == MAX_PROCESS
      ensures slot == Find(table[..], pid, 0)
    {
      slot := MAX_PROCESS;
      var i := 0;
      while i < MAX_PROCESS
        invariant i <= MAX_PROCESS && slot == MAX_PROCESS
        invariant Find(table[..], pid, 0) == Find(table[..], pid, i)
      {
        if table[i].pid == pid && table[i].status != STOPPED {
          slot := i;
          break;
        }
        i := i + 1;
      }
    }

    /** `seen` holds the live PIDs already stepped over by the calls this one is nested in. */
    method GetNextPid(ghost seen: set<nat>) returns (pid: nat, ghost calls: nat)
      requires table.Length == MAX_PROCESS
      requires
        nextPid <= MAX_PID || (nextPid == NO_PID && seen == {} && forall i | 0 <= i < MAX_PROCESS :: !Live(table[i]))
      requires nextPid <= MAX_PID ==> Passed(table[..], nextPid, seen)
      modifies this`nextPid
      ensures IsNextPid(table[..], old(nextPid), pid) && nextPid == pid
      ensures calls <= |LivePids(table[..])| - |seen| + 1
      decreases MAX_PROCESS + 1 - |seen|
    {
      hide IsNextPid, Passed, LivePids;
      nextPid := (nextPid + 1) % WORD;
      if nextPid > MAX_PID {
        nextPid := 1;
      }
      var slot := GetProcess(nextPid);
      if slot != MAX_PROCESS {
        assert LivePid(table[..], nextPid);
        PassOne(table[..], old(nextPid), seen);
        pid, calls := GetNextPid(seen + {nextPid});
        NextAfterLive(table[..], old(nextPid), pid);
        calls := calls + 1;
      } else {
        NoCalls(table[..], old(nextPid), seen);
        ThisOne(table[..], old(nextPid));
        pid, calls := nextPid, 1;
      }
    }

    /** Lays down the first frame of a process, word by word. */
    method LayFrame(stackTop: nat, entryPoint: nat, pid: nat)
      modifies this`words
      ensures words == ContextSwitch.InitialFrame(old(words), stackTop, entryPoint, pid, killAddress, fromQueueAddress)
    {
      hide ContextSwitch.Store, ContextSwitch.Load;
      Poke(stackTop, pid);
      Poke(stackTop - 4, fromQueueAddress);
      Poke(stackTop - 8, killAddress);
      Poke(stackTop - 12, entryPoint);
      Poke(stackTop - 16, stackTop - 12);
      Poke(stackTop - 20, 0xAAAA);         // eax
      Poke(stackTop - 24, 0xCCCC);         // ecx
      Poke(stackTop - 28, 0xDDDD);         // edx
      Poke(stackTop - 32, 0xBBBB);         // ebx
      Poke(stackTop - 36, stackTop - 16);  // esp
      Poke(stackTop - 40, stackTop - 16);  // ebp
      Poke(stackTop - 44, 0x0E51);         // esi
      Poke(stackTop - 48, 0x0ED1);         // edi
      Poke(stackTop - 52, 0x0202);         // eflags
    }

    method Poke(a: int, v: int)
      modifies this`words
      ensures words == ContextSwitch.Store(old(words), a, v)
    {
      words := ContextSwitch.Store(words, a, v);
    }

    /** Gives a new process the next PID, the first free slot and a first stack frame. */
    method InitProcess(entryPoint: nat, stackBottom: nat) returns (pid: nat)
      requires PidsOk(State()) && FindStopped(table[..], 0) < MAX_PROCESS
      requires HasRoom(heap.h, stackBottom) && heap.Valid()
      modifies this, table
      ensures var stackTop := StackTop(old(heap.h), stackBottom);
        && State() == Spawn(old(State()), Context(stackTop - 52, stackTop, stackBottom), entryPoint)
        && pid == NextPid(old(State()))
        && words == ContextSwitch.InitialFrame(old(words), stackTop, entryPoint, pid, killAddress, fromQueueAddress)
    {
      hide Pow2, ContextSwitch.InitialFrame, NextPid, PidsOk;
      ghost var s := State();
      PidStart(s);
      ghost var calls;
      pid, calls := GetNextPid({});
      NextPidUnique(s.table, s.nextPid, pid, NextPid(s));
      var proc := ReserveProcTableSlot();
      var blk: nat := stackBottom - HeapState.HEADER_SIZE;
      HeapManager.TagAt(heap.scale, heap.isFree, heap.h, blk);
      ghost var top := StackTop(heap.h, stackBottom);
      var stackTop := blk + Pow2(heap.scale[blk]) - 4;
      LayFrame(stackTop, entryPoint, pid);
      table[proc] := Proc(Context(stackTop - 52, stackTop, stackBottom), pid, SPAWNED, entryPoint, 0);
    }

    /** Stops a process and gives its stack back to the heap. */
    method KillProcess(pid: nat)
      requires table.Length == MAX_PROCESS && heap.Valid()
      requires var i := Find(table[..], pid, 0);
        i < MAX_PROCESS ==> HeapOperations.FreeArgument(heap.h, table[i].context.stackBottom)
      modifies this, table, heap
      ensures State() == Kill(old(State()), pid) && heap.Valid()
      ensures var i := Find(old(table[..]), pid, 0);
        heap.h == if i < MAX_PROCESS then HeapOperations.FreeAt(old(heap.h), old(table[..])[i].context.stackBottom).0
                  else old(heap.h)
    {
      hide HeapOperations.FreeAt, HeapState.Inv;
      var proc := GetProcess(pid);
      if proc != MAX_PROCESS {
        var stack := table[proc].context.stackBottom;
        table[proc] := table[proc].(status := STOPPED);
        var _ := heap.Free(stack);
      }
    }

    /** Switches to the process of this PID; tells between which slots the context is switched, the
        old slot being 8 when no live process has the active PID. */
    method SwitchProcess(pid: nat) returns (oldProc: nat, newProc: nat)
      requires table.Length == MAX_PROCESS && Find(table[..], pid, 0) < MAX_PROCESS
      modifies this, table
      ensures State() == Switch(old(State()), pid) && words == old(words)
      ensures oldProc == Find(old(table[..]), old(activePid), 0) && newProc == Find(old(table[..]), pid, 0)
    {
      oldProc := GetProcess(activePid);
      newProc := GetProcess(pid);
      if newProc != oldProc {
        if oldProc != MAX_PROCESS && table[oldProc].status == ACTIVE {
          table[oldProc] := table[oldProc].(status := WAITING);
        }
        table[newProc] := table[newProc].(status := ACTIVE);
        activePid := pid;
      }
    }

    /** One clock tick. */
    method SwitchProcessFromQueue()
      requires table.Length == MAX_PROCESS && Find(table[..], 0, 0) < MAX_PROCESS
      modifies this, table
      ensures State() == Tick(old(State())) && words == old(words)
    {
      ghost var was := table[..];
      ghost var aged := AgedTo(was, MAX_PROCESS);
      var start := GetProcess(0);
      var proc := start;
      for i := 0 to MAX_PROCESS
        invariant table[..] == AgedTo(was, i)
        invariant proc == Best(aged, start, i) && (proc == start || proc < i)
        invariant activePid == old(activePid) && nextPid == old(nextPid) && words == old(words)
      {
        if table[i].status != STOPPED && table[i].pid != 0 {
          table[i] := table[i].(waitTime := (table[i].waitTime + 1) % WORD);
          if table[i].waitTime > table[proc].waitTime {
            proc := i;
          }
        }
      }
      table[proc] := table[proc].(waitTime := 0);
      assert table[..] == aged[proc := aged[proc].(waitTime := 0)];
      if table[proc].pid != activePid {
        var _, _ := SwitchProcess(table[proc].pid);
      }
    }
  }

  /** The pointer is to a block in use of at least 128 bytes. */
  ghost predicate HasRoom(h: HeapState.Heap, p: nat) {
    && p >= HeapState.HEADER_SIZE && HeapState.Live(h, p - HeapState.HEADER_SIZE)
    && h.blocks[p - HeapState.HEADER_SIZE].scale >= 7
  }

  /** The address of the highest word of a stack. */
  ghost function StackTop(h: HeapState.Heap, p: nat): (top: nat)
    requires HasRoom(h, p)
    ensures top >= 52
  {
    Pow2Monotone(7, h.blocks[p - HeapState.HEADER_SIZE].scale);
    p - HeapState.HEADER_SIZE + Pow2(h.blocks[p - HeapState.HEADER_SIZE].scale) - 4
  }

  lemma NoCalls(table: seq<Proc>, n: nat, seen: set<nat>)
    requires |table| == MAX_PROCESS && (n <= MAX_PID ==> Passed(table, n, seen))
    requires n <= MAX_PID || (n == NO_PID && seen == {})
    ensures |seen| <= |LivePids(table)|
  {
    if n <= MAX_PID {
      SubsetCard(seen, LivePids(table));
    }
  }

  lemma PidStart(s: Sched)
    requires PidsOk(s)
    ensures |s.table| == MAX_PROCESS && (s.nextPid <= MAX_PID || s.nextPid == NO_PID)
    ensures s.nextPid <= MAX_PID ==> Passed(s.table, s.nextPid, {})
    ensures s.nextPid == NO_PID ==> forall i | 0 <= i < MAX_PROCESS :: !Live(s.table[i])
  {
  }

  /** The 14 words of a first frame end at the top of the stack's block, and they lie above its
      header exactly when the block has at least 128 bytes. */
  lemma StackFits(h: HeapState.Heap, blk: nat)
    requires HeapState.Inv(h) && blk in h.blocks
    ensures var stackTop := blk + Pow2(h.blocks[blk].scale) - 4;
      && (blk + HeapState.HEADER_SIZE <= stackTop - 52 <==> h.blocks[blk].scale >= 7)
      && stackTop + 4 <= h.brk && stackTop >= 52
      && (HasRoom(h, blk + HeapState.HEADER_SIZE) ==> StackTop(h, blk + HeapState.HEADER_SIZE) == stackTop)
  {
    hide HeapState.Tiling, HeapState.ListsOk, HeapState.Coalesced, Aligned;
    HeapTransitions.BlockFacts(h, blk);
    var k := h.blocks[blk].scale;
    if k >= 7 {
      Pow2Monotone(7, k);
    } else {
      Pow2Monotone(k, 6);
    }
  }

  /** Every stack from `allocate(n)` with n at least 56 has room for the first frame. */
  lemma StackFromAllocate(h: HeapState.Heap, n: nat)
    requires HeapState.Inv(h) && 56 <= n <= HeapOperations.MAX_REQUEST
    ensures HasRoom(HeapOperations.Allocate(h, n).0, HeapOperations.Allocate(h, n).1)
  {
    hide HeapState.Inv, HeapOperations.RequestScale, HeapOperations.Allocate, HeapOperations.FitScale;
    HeapLive.AllocateUses(h, n);
    HeapLive.RequestScaleIsLeast(n, 6);
    var t := HeapOperations.Allocate(h, n);
    assert t.1 - HeapState.HEADER_SIZE in HeapLive.Used(t.0);
  }
}
