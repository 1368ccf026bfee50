/** The register and stack machine that `context_switch` runs on, and the frames it saves and restores. */
module ContextSwitch {

  /** Memory by 32-bit words, at addresses that are multiples of 4. */
  type Words = int -> int

  function Store(mem: Words, a: int, v: int): (t: Words)
    ensures forall x :: Load(t, x) == if x == a then v else Load(mem, x)
  {
    x => if x == a then v else mem(x)
  }

  function Load(mem: Words, a: int): int {
    mem(a)
  }

  datatype Machine = Machine(eax: int, ecx: int, edx: int, ebx: int, esp: int, ebp: int, esi: int, edi: int,
                             eflags: int, eip: int, mem: Words)

  /** The processor whose registers and memory the instructions change one by one. */
  class Cpu {
    var eax: int
    var ecx: int
    var edx: int
    var ebx: int
    var esp: int
    var ebp: int
    var esi: int
    var edi: int
    var eflags: int
    var eip: int
    var mem: Words

    ghost function State(): Machine
      reads this
    {
      Machine(eax, ecx, edx, ebx, esp, ebp, esi, edi, eflags, eip, mem)
    }

    method PushL(v: int)
      modifies this`esp, this`mem
      ensures esp == old(esp) - 4 && mem == Store(old(mem), old(esp) - 4, v)
    {
      hide Load, Store;
      esp := esp - 4;
      mem := Store(mem, esp, v);
    }

    method PopL() returns (v: int)
      modifies this`esp
      ensures v == Load(mem, old(esp)) && esp == old(esp) + 4
    {
      hide Load, Store;
      v := Load(mem, esp);
      esp := esp + 4;
    }

    /** Pushes the eight general registers; the stack pointer pushed is the one before. */
    method PushAL()
      modifies this`esp, this`mem
      ensures esp == old(esp) - 32
      ensures mem == EightPushed(old(mem), old(esp), eax, ecx, edx, ebx, ebp, esi, edi)
    {
      hide Load, Store;
      var s := esp;
      PushL(eax);
      PushL(ecx);
      PushL(edx);
      PushL(ebx);
      PushL(s);
      PushL(ebp);
      PushL(esi);
      PushL(edi);
    }

    /** Pops the eight general registers, discarding the stack pointer. */
    method PopAL()
      modifies this`edi, this`esi, this`ebp, this`esp, this`ebx, this`edx, this`ecx, this`eax
      ensures esp == old(esp) + 32
      ensures var s := old(esp);
        && edi == Load(mem, s) && esi == Load(mem, s + 4) && ebp == Load(mem, s + 8) && ebx == Load(mem, s + 16)
        && edx == Load(mem, s + 20) && ecx == Load(mem, s + 24) && eax == Load(mem, s + 28)
    {
      hide Load, Store;
      edi := PopL();
      esi := PopL();
      ebp := PopL();
      var _ := PopL();
      ebx := PopL();
      edx := PopL();
      ecx := PopL();
      eax := PopL();
    }

    /** The whole of `context_switch`, instruction by instruction. */
    method ContextSwitch()
      modifies this
      ensures State() == Restored(Saved(old(State())))
    {
      hide Load, Store;
      SaveContext();
      LoadContext();
    }

    method SaveContext()
      modifies this
      ensures State() == Saved(old(State()))
    {
      hide EightPushed, Load, Store;
      PushL(ebp);
      ebp := esp;
      PushAL();
      PushL(eflags);  // pushfl
      ebx := Load(mem, ebp + 8);
      mem := Store(mem, ebx, esp);
      ebx := Load(mem, ebp + 12);
      esp := Load(mem, ebx);
    }

    method LoadContext()
      modifies this
      ensures State() == Restored(old(State()))
    {
      hide Load, Store;
      eflags := PopL();  // popfl
      PopAL();
      esp := ebp;        // leave
      ebp := PopL();
      eip := PopL();     // ret
    }
  }

  /** Memory after `pushal` at stack pointer `s`. */
  function EightPushed(mem: Words, s: int, eax: int, ecx: int, edx: int, ebx: int, ebp: int, esi: int,
                       edi: int): Words
  {
    Store(Store(Store(Store(Store(Store(Store(Store(mem,
      s - 4, eax), s - 8, ecx), s - 12, edx), s - 16, ebx), s - 20, s), s - 24, ebp), s - 28, esi), s - 32, edi)
  }

  lemma EightPushedReads(mem: Words, s: int, eax: int, ecx: int, edx: int, ebx: int, ebp: int, esi: int, edi: int)
    ensures var t := EightPushed(mem, s, eax, ecx, edx, ebx, ebp, esi, edi);
      && Load(t, s - 4) == eax && Load(t, s - 8) == ecx && Load(t, s - 12) == edx && Load(t, s - 16) == ebx
      && Load(t, s - 24) == ebp && Load(t, s - 28) == esi && Load(t, s - 32) == edi
      && (forall a | !(s - 32 <= a < s) :: Load(t, a) == Load(mem, a))
  {
  }

  /** The first half: ten words go on the stack, the stack pointer into the old context, and the
      new context's stack pointer is loaded. The arguments lie above the return address. */
  function Saved(m: Machine): Machine {
    var s := m.esp;
    var mem := Store(EightPushed(Store(m.mem, s - 4, m.ebp), s - 4, m.eax, m.ecx, m.edx, m.ebx, s - 4, m.esi, m.edi),
                     s - 40, m.eflags);
    var mem' := Store(mem, Load(mem, s + 4), s - 40);
    var next := Load(mem', s + 8);
    m.(ebp := s - 4, ebx := next, esp := Load(mem', next), mem := mem')
  }

  /** The second half: the registers come off the new stack, and control goes where it says. */
  function Restored(m: Machine): Machine {
    var s := m.esp;
    var frame := Load(m.mem, s + 12);
    m.(eflags := Load(m.mem, s), edi := Load(m.mem, s + 4), esi := Load(m.mem, s + 8),
       ebx := Load(m.mem, s + 20), edx := Load(m.mem, s + 24), ecx := Load(m.mem, s + 28), eax := Load(m.mem, s + 32),
       ebp := Load(m.mem, frame), eip := Load(m.mem, frame + 4), esp := frame + 8)
  }

  // ----- frames -----

  /** What a process sees of the processor. */
  datatype View = View(eax: int, ecx: int, edx: int, ebx: int, esp: int, ebp: int, esi: int, edi: int,
                       eflags: int, eip: int)

  function ViewOf(m: Machine): View {
    View(m.eax, m.ecx, m.edx, m.ebx, m.esp, m.ebp, m.esi, m.edi, m.eflags, m.eip)
  }

  /** What a process sees right after its call of `context_switch` has returned. */
  function AfterCall(m: Machine): View {
    ViewOf(m).(eip := Load(m.mem, m.esp), esp := m.esp + 4)
  }

  predicate InFrame(sp: int, a: int) {
    sp <= a < sp + 44
  }

  /** The memory at `sp` holds a frame that resumes a process with this view. */
  predicate Encodes(mem: Words, sp: int, v: View) {
    && Load(mem, sp) == v.eflags && Load(mem, sp + 4) == v.edi && Load(mem, sp + 8) == v.esi
    && Load(mem, sp + 12) == sp + 36
    && Load(mem, sp + 20) == v.ebx && Load(mem, sp + 24) == v.edx && Load(mem, sp + 28) == v.ecx
    && Load(mem, sp + 32) == v.eax && Load(mem, sp + 36) == v.ebp && Load(mem, sp + 40) == v.eip && v.esp == sp + 44
  }

  /** Two memories agree on a frame. */
  ghost predicate SameFrame(mem: Words, mem': Words, sp: int) {
    forall a | InFrame(sp, a) :: Load(mem, a) == Load(mem', a)
  }

  /** The arguments of a call are two contexts that lie apart from each other and from the stack in use;
      the addresses of all words touched are multiples of 4, so that different words never overlap. */
  predicate CallOk(m: Machine, cur: int, next: int) {
    && m.esp % 4 == 0 && cur % 4 == 0 && next % 4 == 0 && Load(m.mem, next) % 4 == 0
    && Load(m.mem, m.esp + 4) == cur && Load(m.mem, m.esp + 8) == next && cur != next
    && !(m.esp - 40 <= cur < m.esp + 12) && !(m.esp - 40 <= next < m.esp + 12)
  }

  /** Saving: the old context points at a frame that resumes the caller after its call, and nothing
      else in memory has changed but the ten words below the return address. */
  lemma SaveEncodes(m: Machine, cur: int, next: int)
    requires CallOk(m, cur, next)
    ensures var t := Saved(m);
      && Load(t.mem, cur) == m.esp - 40 && t.esp == Load(m.mem, next)
      && Encodes(t.mem, Load(t.mem, cur), AfterCall(m))
      && (forall a | a != cur && !(m.esp - 40 <= a < m.esp) :: Load(t.mem, a) == Load(m.mem, a))
  {
    hide EightPushed;
    EightPushedReads(Store(m.mem, m.esp - 4, m.ebp), m.esp - 4, m.eax, m.ecx, m.edx, m.ebx, m.esp - 4, m.esi, m.edi);
  }

  /** Restoring: a frame resumes exactly the view it encodes. */
  lemma RestoreDecodes(m: Machine, v: View)
    requires Encodes(m.mem, m.esp, v)
    ensures ViewOf(Restored(m)) == v && Restored(m).mem == m.mem
  {
  }

  /** A frame is its own words and nothing else. */
  lemma EncodesSame(mem: Words, mem': Words, sp: int, v: View)
    requires SameFrame(mem, mem', sp) && Encodes(mem, sp, v)
    ensures Encodes(mem', sp, v)
  {
    assert InFrame(sp, sp) && InFrame(sp, sp + 4) && InFrame(sp, sp + 8) && InFrame(sp, sp + 12);
    assert InFrame(sp, sp + 20) && InFrame(sp, sp + 24) && InFrame(sp, sp + 28) && InFrame(sp, sp + 32);
    assert InFrame(sp, sp + 36) && InFrame(sp, sp + 40);
  }

  /** What a switch from `m` with these contexts writes lies apart from the frame at `sp`. */
  ghost predicate SparesFrame(m: Machine, cur: int, sp: int) {
    !InFrame(sp, cur) && forall x | m.esp - 40 <= x < m.esp :: !InFrame(sp, x)
  }

  /** A switch resumes whatever frame the next context points at, provided the frame lies apart from
      what the switch itself writes; that is all that it changes in memory. */
  lemma SwitchResumes(m: Machine, cur: int, next: int, v: View)
    requires CallOk(m, cur, next) && SparesFrame(m, cur, Load(m.mem, next)) && Encodes(m.mem, Load(m.mem, next), v)
    ensures ViewOf(Restored(Saved(m))) == v
    ensures forall a | a != cur && !(m.esp - 40 <= a < m.esp) :: Load(Restored(Saved(m)).mem, a) == Load(m.mem, a)
  {
    hide Saved, Encodes, AfterCall;
    SaveEncodes(m, cur, next);
    EncodesSame(m.mem, Saved(m).mem, Load(m.mem, next), v);
    RestoreDecodes(Saved(m), v);
  }

  /** Switching from A to B, whatever B and others then do, and later back to A resumes after A's
      call with the same registers, flags and stack pointer, provided A's stack frame and its saved
      stack pointer were left alone and the process switching back uses another stack. */
  lemma SwitchAwayAndBack(a: Machine, ctxA: int, ctxB: int, c: Machine, ctxC: int)
    requires CallOk(a, ctxA, ctxB) && CallOk(c, ctxC, ctxA)
    requires var left := Restored(Saved(a)).mem;
      && Load(c.mem, ctxA) == Load(left, ctxA) && SameFrame(left, c.mem, Load(left, ctxA))
      && SparesFrame(c, ctxC, Load(left, ctxA))
    ensures ViewOf(Restored(Saved(c))) == AfterCall(a)
  {
    hide Saved, Encodes, AfterCall;
    SaveEncodes(a, ctxA, ctxB);
    EncodesSame(Saved(a).mem, c.mem, Load(Saved(a).mem, ctxA), AfterCall(a));
    SwitchResumes(c, ctxC, ctxA, AfterCall(a));
  }

  // ----- the first frame of a process -----

  /** The words that `init_process` lays down from the top of a new stack: first how the process
      ends, then the frame it starts from. */
  function InitialFrame(mem: Words, top: int, entryPoint: int, pid: int, kill: int, fromQueue: int): Words {
    var ending := EndingWords(mem, top, entryPoint, pid, kill, fromQueue);
    Store(EightWords(ending, top), top - 52, 0x0202)
  }

  function EndingWords(mem: Words, top: int, entryPoint: int, pid: int, kill: int, fromQueue: int): Words {
    Store(Store(Store(Store(Store(mem,
      top, pid), top - 4, fromQueue), top - 8, kill), top - 12, entryPoint), top - 16, top - 12)
  }

  function EightWords(mem: Words, top: int): Words {
    Store(Store(Store(Store(Store(Store(Store(Store(mem,
      top - 20, 0xAAAA), top - 24, 0xCCCC), top - 28, 0xDDDD), top - 32, 0xBBBB), top - 36, top - 16),
      top - 40, top - 16), top - 44, 0x0E51), top - 48, 0x0ED1)
  }

  lemma EightWordsReads(mem: Words, top: int)
    ensures var t := EightWords(mem, top);
      && Load(t, top - 20) == 0xAAAA && Load(t, top - 24) == 0xCCCC && Load(t, top - 28) == 0xDDDD
      && Load(t, top - 32) == 0xBBBB
      && Load(t, top - 40) == top - 16 && Load(t, top - 44) == 0x0E51 && Load(t, top - 48) == 0x0ED1
      && (forall a | !(top - 48 <= a <= top - 20) :: Load(t, a) == Load(mem, a))
  {
  }

  /** Only the 14 words from the top down are written. */
  lemma InitialFrameExtent(mem: Words, top: int, entryPoint: int, pid: int, kill: int, fromQueue: int)
    ensures forall a | !(top - 52 <= a <= top) ::
      Load(InitialFrame(mem, top, entryPoint, pid, kill, fromQueue), a) == Load(mem, a)
  {
    hide EightWords;
    EightWordsReads(EndingWords(mem, top, entryPoint, pid, kill, fromQueue), top);
  }

  /** `ret`. */
  function Ret(m: Machine): Machine {
    m.(eip := Load(m.mem, m.esp), esp := m.esp + 4)
  }

  /** What a new process sees first. */
  function FirstView(top: int, entryPoint: int): View {
    View(0xAAAA, 0xCCCC, 0xDDDD, 0xBBBB, top - 8, top - 12, 0x0E51, 0x0ED1, 0x0202, entryPoint)
  }

  /** The three words that a process ends by. */
  predicate Ending(mem: Words, top: int, pid: int, kill: int, fromQueue: int) {
    Load(mem, top - 8) == kill && Load(mem, top - 4) == fromQueue && Load(mem, top) == pid
  }

  /** The stack below and including `top` is that of a process that has not run yet. */
  predicate FirstFrame(mem: Words, top: int, entryPoint: int, pid: int, kill: int, fromQueue: int) {
    Encodes(mem, top - 52, FirstView(top, entryPoint)) && Ending(mem, top, pid, kill, fromQueue)
  }

  /** The words laid down are a frame that starts the process, and the words it ends by. */
  lemma InitialFrameIs(mem: Words, top: int, entryPoint: int, pid: int, kill: int, fromQueue: int)
    ensures FirstFrame(InitialFrame(mem, top, entryPoint, pid, kill, fromQueue), top, entryPoint, pid, kill, fromQueue)
  {
    hide EightWords;
    EightWordsReads(EndingWords(mem, top, entryPoint, pid, kill, fromQueue), top);
  }

  predicate InStack(top: int, a: int) {
    top - 52 <= a <= top
  }

  ghost predicate SameStack(mem: Words, mem': Words, top: int) {
    forall a | InStack(top, a) :: Load(mem', a) == Load(mem, a)
  }

  lemma FrameInStack(top: int, sp: int)
    requires sp == top - 52
    ensures forall a | InFrame(sp, a) :: InStack(top, a)
  {
  }

  /** A process that has not run yet stays so while nobody writes its stack. */
  lemma FirstFrameKept(mem: Words, mem': Words, top: int, entryPoint: int, pid: int, kill: int, fromQueue: int)
    requires FirstFrame(mem, top, entryPoint, pid, kill, fromQueue) && SameStack(mem, mem', top)
    ensures FirstFrame(mem', top, entryPoint, pid, kill, fromQueue)
  {
    hide Encodes;
    assert InStack(top, top) && InStack(top, top - 4) && InStack(top, top - 8);
    FrameInStack(top, top - 52);
    EncodesSame(mem, mem', top - 52, FirstView(top, entryPoint));
  }

  /** The switch from any process, on a stack of its own, to one that has not run yet enters the
      entry point with the registers of the first frame, and leaves the ending words in place. */
  lemma FirstSwitch(c: Machine, cur: int, next: int, top: int, entryPoint: int, pid: int, kill: int, fromQueue: int)
    requires CallOk(c, cur, next) && Load(c.mem, next) == top - 52
    requires FirstFrame(c.mem, top, entryPoint, pid, kill, fromQueue)
    requires !InStack(top, cur) && forall x | c.esp - 40 <= x < c.esp :: !InStack(top, x)
    ensures ViewOf(Restored(Saved(c))) == FirstView(top, entryPoint)
    ensures Ending(Restored(Saved(c)).mem, top, pid, kill, fromQueue)
  {
    hide Saved, Restored, Encodes;
    FrameInStack(top, top - 52);
    SwitchResumes(c, cur, next, FirstView(top, entryPoint));
    assert InStack(top, top) && InStack(top, top - 4) && InStack(top, top - 8);
  }

  /** However long the entry point has run: when it returns, with the stack pointer it was entered
      with, `kill_process` starts with the PID as its argument and `switch_process_from_queue` as its
      return address. */
  lemma EntryPointReturns(e: Machine, top: int, pid: int, kill: int, fromQueue: int)
    requires e.esp == top - 8 && Ending(e.mem, top, pid, kill, fromQueue)
    ensures var k := Ret(e);
      && k.eip == kill && k.mem == e.mem
      && Load(k.mem, k.esp) == fromQueue && Load(k.mem, k.esp + 4) == pid
  {
  }

  /** However long `kill_process` has run: when it returns, `switch_process_from_queue` starts. */
  lemma KillReturns(e: Machine, top: int, pid: int, kill: int, fromQueue: int)
    requires e.esp == top - 4 && Ending(e.mem, top, pid, kill, fromQueue)
    ensures Ret(e).eip == fromQueue && Ret(e).esp == top
  {
  }

  /** The whole life of a process, from the frame that `init_process` lays down to the scheduler:
      `mem` is the memory before, `c` the switch that starts it, `e` the return of the entry point and
      `k` that of `kill_process`. */
  lemma LifeOfProcess(mem: Words, c: Machine, cur: int, next: int, e: Machine, k: Machine,
                      top: int, entryPoint: int, pid: int, kill: int, fromQueue: int)
    requires CallOk(c, cur, next) && Load(c.mem, next) == top - 52
    requires SameStack(InitialFrame(mem, top, entryPoint, pid, kill, fromQueue), c.mem, top)
    requires !InStack(top, cur) && forall x | c.esp - 40 <= x < c.esp :: !InStack(top, x)
    requires var started := Restored(Saved(c));
      && e.esp == started.esp && (forall a | top - 8 <= a <= top :: Load(e.mem, a) == Load(started.mem, a))
      && k.esp == Ret(e).esp && Load(k.mem, top - 4) == Load(e.mem, top - 4)
    ensures ViewOf(Restored(Saved(c))) == FirstView(top, entryPoint)
    ensures Ret(e).eip == kill && Load(e.mem, Ret(e).esp) == fromQueue && Load(e.mem, Ret(e).esp + 4) == pid
    ensures Ret(k).eip == fromQueue
  {
    hide Saved, Restored, FirstFrame, InitialFrame;
    InitialFrameIs(mem, top, entryPoint, pid, kill, fromQueue);
    var laid := InitialFrame(mem, top, entryPoint, pid, kill, fromQueue);
    FirstFrameKept(laid, c.mem, top, entryPoint, pid, kill, fromQueue);
    FirstSwitch(c, cur, next, top, entryPoint, pid, kill, fromQueue);
    EntryPointReturns(e, top, pid, kill, fromQueue);
  }
}
