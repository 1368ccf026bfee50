/** Whole runs of the allocator: conservation, isolation, recovery, and what moving the break does. */
module HeapRuns {
  import opened PowersOfTwo
  import opened HeapState
  import opened HeapTransitions
  import opened HeapOperations
  import opened HeapRegions
  import opened HeapLive

  // ----- conservation -----

  /** Stepping over a block leads to the next header or to the break. */
  lemma NextBlock(h: Heap, a: nat)
    requires Inv(h) && a in h.blocks
    ensures a + Pow2(h.blocks[a].scale) <= h.brk
    ensures a + Pow2(h.blocks[a].scale) < h.brk ==> a + Pow2(h.blocks[a].scale) in h.blocks
  {
    hide Aligned, Pow2, ListsOk, Coalesced;
    BlockFacts(h, a);
    var n := a + Pow2(h.blocks[a].scale);
    if n < h.brk {
      assert Covered(h.blocks, n);
      var c :| c in h.blocks && Covers(h.blocks, c, n);
    }
  }

  lemma FirstBlock(h: Heap)
    requires Inv(h) && h.brk > HEAP_LOWER_BOUND
    ensures HEAP_LOWER_BOUND in h.blocks
  {
    hide Aligned, Pow2, ListsOk, Coalesced;
    assert Covered(h.blocks, HEAP_LOWER_BOUND);
    var c :| c in h.blocks && Covers(h.blocks, c, HEAP_LOWER_BOUND);
    BlockFacts(h, c);
  }

  ghost predicate Boundary(h: Heap, x: nat) {
    x == h.brk || x in h.blocks
  }

  /** The sizes of the blocks with the given flag, header by header from `x` up. */
  ghost function Bytes(h: Heap, x: nat, free: bool): nat
    requires Inv(h) && Boundary(h, x)
    decreases h.brk - x
  {
    if x == h.brk then 0 else
      NextBlock(h, x);
      var n := Pow2(h.blocks[x].scale);
      (if h.blocks[x].free == free then n else 0) + Bytes(h, x + n, free)
  }

  lemma {:induction false} BytesAddUp(h: Heap, x: nat)
    requires Inv(h) && Boundary(h, x)
    ensures x <= h.brk && Bytes(h, x, true) + Bytes(h, x, false) == h.brk - x
    decreases h.brk - x
  {
    hide Aligned, Pow2, Tiling, ListsOk, Coalesced;
    if x != h.brk {
      NextBlock(h, x);
      BytesAddUp(h, x + Pow2(h.blocks[x].scale));
    }
  }

  /** Free and used blocks together make up the whole heap. */
  lemma Conservation(h: Heap)
    requires Inv(h)
    ensures Boundary(h, HEAP_LOWER_BOUND)
    ensures Bytes(h, HEAP_LOWER_BOUND, true) + Bytes(h, HEAP_LOWER_BOUND, false) == h.brk - HEAP_LOWER_BOUND
  {
    if h.brk > HEAP_LOWER_BOUND {
      FirstBlock(h);
    }
    BytesAddUp(h, HEAP_LOWER_BOUND);
  }

  // ----- the break -----

  /** All of the heap from `x` up is free blocks of the largest scale. */
  ghost predicate WhollyFreeFrom(h: Heap, x: nat) {
    forall a | a in h.blocks && a >= x :: h.blocks[a] == Block(MAX_BLOCK_SCALE, true)
  }

  /** The blocks below `x`. */
  function Below(h: Heap, x: nat): map<nat, Block> {
    map a | a in h.blocks && a < x :: h.blocks[a]
  }

  lemma ShrinkBlocks(h: Heap)
    requires Inv(h) && h.brk > HEAP_LOWER_BOUND && LastIsFree(h)
    ensures Shrink(h).blocks == Below(h, h.brk - MAX_BLOCK_SIZE)
    ensures WhollyFreeFrom(h, h.brk - MAX_BLOCK_SIZE)
  {
    hide Aligned, Pow2, ListsOk, Coalesced;
    LastBlock(h);
    Pow2Facts(0);
    forall a | a in h.blocks
      ensures a <= h.brk - MAX_BLOCK_SIZE
    {
      BlockFacts(h, a);
    }
  }

  lemma BelowBelow(h: Heap, s: Heap, x: nat)
    requires s.blocks == Below(h, s.brk) && WhollyFreeFrom(h, s.brk)
    requires x <= s.brk && WhollyFreeFrom(s, x)
    ensures Below(s, x) == Below(h, x) && WhollyFreeFrom(h, x)
  {
    assert forall a | a in h.blocks && a < s.brk :: a in s.blocks;
  }

  /** Lowering the break removes only trailing wholly free blocks, as few as reach the address, and
      fails with -1 exactly when it meets a last block that is not wholly free before that. */
  lemma {:induction false} ShrinkRemoves(h: Heap, addr: nat)
    requires Inv(h) && HEAP_LOWER_BOUND <= addr <= h.brk
    ensures var t := ShrinkTo(h, addr);
      && t.0.brk <= h.brk && t.0.blocks == Below(h, t.0.brk) && WhollyFreeFrom(h, t.0.brk)
      && t.1 == (if t.0.brk <= addr then 0 else -1)
      && (t.1 == -1 ==> t.0.brk > HEAP_LOWER_BOUND && !LastIsFree(t.0))
      && (t.0.brk < h.brk ==> addr < t.0.brk + MAX_BLOCK_SIZE)
    decreases h.brk - addr
  {
    hide Aligned, Pow2, Tiling, ListsOk, Coalesced, Shrink;
    if addr < h.brk && LastIsFree(h) {
      ShrinkBlocks(h);
      var s := Shrink(h);
      if addr <= s.brk {
        ShrinkRemoves(s, addr);
        BelowBelow(h, s, ShrinkTo(s, addr).0.brk);
      }
    } else {
      AllBelow(h);
    }
  }

  lemma AllBelow(h: Heap)
    requires Inv(h)
    ensures Below(h, h.brk) == h.blocks && WhollyFreeFrom(h, h.brk)
  {
    hide Aligned, Pow2, ListsOk, Coalesced;
    forall a | a in h.blocks
      ensures a < h.brk
    {
      BlockFacts(h, a);
    }
  }

  lemma GrowBlocks(h: Heap)
    requires Inv(h)
    ensures Below(Grow(h), h.brk) == h.blocks && WhollyFreeFrom(Grow(h), h.brk)
  {
    hide Aligned, Pow2, Tiling, ListsOk, Coalesced;
    ExtendInv(h);
    AllBelow(h);
  }

  lemma BelowAbove(h: Heap, g: Heap, t: Heap)
    requires h.brk <= g.brk && Below(g, h.brk) == h.blocks && WhollyFreeFrom(g, h.brk)
    requires Below(t, g.brk) == g.blocks && WhollyFreeFrom(t, g.brk)
    ensures Below(t, h.brk) == h.blocks && WhollyFreeFrom(t, h.brk)
  {
    assert forall a | a in t.blocks && a < g.brk :: a in Below(t, g.brk);
    assert forall a | a in g.blocks :: a in Below(t, g.brk);
    assert Below(t, h.brk) == Below(g, h.brk);
  }

  /** Raising the break adds wholly free blocks only, as few as reach the address. */
  lemma {:induction false} GrowAdds(h: Heap, addr: nat)
    requires Inv(h) && addr >= h.brk
    ensures var t := GrowTo(h, addr);
      && addr <= t.brk && (t.brk > h.brk ==> t.brk < addr + MAX_BLOCK_SIZE)
      && Below(t, h.brk) == h.blocks && WhollyFreeFrom(t, h.brk)
    decreases addr - h.brk
  {
    hide Aligned, Pow2, Tiling, ListsOk, Coalesced, Grow;
    if addr > h.brk {
      var g := Grow(h);
      GrowBlocks(h);
      if addr >= g.brk {
        GrowAdds(g, addr);
        BelowAbove(h, g, GrowTo(g, addr));
      }
    } else {
      AllBelow(h);
    }
  }

  // ----- runs -----

  datatype Op = Malloc(n: nat) | Release(p: nat) | MoveBrk(addr: nat) | Sbrk(inc: int)

  /** A heap together with its client: the pointers handed out and not freed since, with the sizes
      that were asked for. */
  datatype World = World(heap: Heap, owned: map<nat, nat>)

  function BrkTarget(h: Heap, inc: int): int {
    h.brk + inc * MAX_BLOCK_SIZE
  }

  /** What a client may ask: free only what it owns, and no address below the heap. */
  ghost predicate Legal(w: World, op: Op) {
    match op
    case Malloc(n) => true
    case Release(p) => p == 0 || p in w.owned
    case MoveBrk(addr) => addr >= HEAP_LOWER_BOUND
    case Sbrk(inc) => BrkTarget(w.heap, inc) >= HEAP_LOWER_BOUND
  }

  ghost predicate WorldInv(w: World) {
    && Inv(w.heap)
    && (forall p | p in w.owned :: p >= HEADER_SIZE && p - HEADER_SIZE in Used(w.heap)
          && 0 < w.owned[p] && w.owned[p] + HEADER_SIZE <= Pow2(Used(w.heap)[p - HEADER_SIZE]))
    && (forall a | a in Used(w.heap) :: a + HEADER_SIZE in w.owned)
  }

  ghost function Step(w: World, op: Op): (r: (World, int))
    requires WorldInv(w) && Legal(w, op)
  {
    hide Aligned, Pow2, Inv, Allocate, Brk;
    match op
    case Malloc(n) =>
      var t := Allocate(w.heap, n);
      (World(t.0, if t.1 == 0 then w.owned else w.owned[t.1 := n]), t.1)
    case Release(p) =>
      assert p != 0 ==> p - HEADER_SIZE in Used(w.heap);
      var t := FreeAt(w.heap, p);
      (World(t.0, w.owned - {p}), t.1)
    case MoveBrk(addr) =>
      var t := Brk(w.heap, addr);
      (World(t.0, w.owned), t.1)
    case Sbrk(inc) =>
      if inc == 0 then (w, -1) else
        var t := Brk(w.heap, BrkTarget(w.heap, inc));
        (World(t.0, w.owned), t.1)
  }

  lemma StepMalloc(w: World, n: nat)
    requires WorldInv(w)
    ensures WorldInv(Step(w, Malloc(n)).0)
    ensures Step(w, Malloc(n)).1 == 0 <==> n == 0 || n > MAX_REQUEST
    ensures Step(w, Malloc(n)).1 !in w.owned || Step(w, Malloc(n)).1 == 0
  {
    hide Aligned, Pow2, Inv, Used, Allocate, RequestScale, FitScale;
    if 0 < n <= MAX_REQUEST {
      AllocateUses(w.heap, n);
      RequestScaleIsLeast(n, RequestScale(n));
      RequestScaleIsLeast(n, MAX_BLOCK_SCALE);
    } else {
      assert Allocate(w.heap, n) == (w.heap, 0) by { AllocateRefuses(w.heap, n); }
    }
  }

  lemma AllocateRefuses(h: Heap, n: nat)
    requires Inv(h) && (n == 0 || n > MAX_REQUEST)
    ensures Allocate(h, n) == (h, 0)
  {
    hide Inv;
  }

  lemma FreeOwned(h: Heap, p: nat)
    requires Inv(h) && p >= HEADER_SIZE && p - HEADER_SIZE in Used(h)
    ensures FreeArgument(h, p) && FreeAt(h, p).1 == 0
    ensures Used(FreeAt(h, p).0) == Used(h) - {p - HEADER_SIZE}
  {
    hide Inv, HeapOperations.Release;
    UsedRelease(h, p - HEADER_SIZE);
  }

  lemma StepRelease(w: World, p: nat)
    requires WorldInv(w) && p in w.owned
    ensures WorldInv(Step(w, Release(p)).0) && Step(w, Release(p)).1 == 0
  {
    hide Aligned, Pow2, Inv, Used, FreeAt;
    FreeOwned(w.heap, p);
  }

  /** Every operation a client may ask keeps the world in order; every request of a legal size is
      met, and every pointer a client owns can be freed. */
  lemma StepKeepsInv(w: World, op: Op)
    requires WorldInv(w) && Legal(w, op)
    ensures WorldInv(Step(w, op).0)
    ensures op.Malloc? ==> (Step(w, op).1 == 0 <==> op.n == 0 || op.n > MAX_REQUEST)
    ensures op.Release? ==> Step(w, op).1 == (if op.p == 0 then 1 else 0)
  {
    hide Aligned, Pow2, Inv, Used, Allocate, FreeAt, Brk;
    match op
    case Malloc(n) => StepMalloc(w, n);
    case Release(p) =>
      if p == 0 {
        FreeNull(w.heap);
        assert w.owned - {0} == w.owned;
      } else {
        StepRelease(w, p);
      }
    case MoveBrk(addr) => UsedBrk(w.heap, addr);
    case Sbrk(inc) =>
      if inc != 0 {
        UsedBrk(w.heap, BrkTarget(w.heap, inc));
      }
  }

  lemma FreeNull(h: Heap)
    requires Inv(h)
    ensures FreeAt(h, 0) == (h, 1)
  {
    hide Inv;
  }

  ghost predicate LegalRun(w: World, ops: seq<Op>)
    requires WorldInv(w)
    decreases |ops|
  {
    ops == [] || (Legal(w, ops[0]) && (StepKeepsInv(w, ops[0]); LegalRun(Step(w, ops[0]).0, ops[1..])))
  }

  /** The world at the end of a run. */
  ghost function Run(w: World, ops: seq<Op>): (t: World)
    requires WorldInv(w) && LegalRun(w, ops)
    ensures WorldInv(t)
    decreases |ops|
  {
    if ops == [] then w else (StepKeepsInv(w, ops[0]); Run(Step(w, ops[0]).0, ops[1..]))
  }

  ghost function Boot(): (w: World)
    ensures WorldInv(w)
  {
    BootUses();
    World(InitialHeap(), map[])
  }

  lemma BootUses()
    ensures Used(InitialHeap()) == map[]
  {
    hide Inv, Grow;
    EmptyInv();
    UsedGrow(EmptyHeap());
  }

  // ----- isolation -----

  /** The payload a client owns through `p`. */
  predicate InPayload(w: World, p: nat, x: nat) {
    p in w.owned && p <= x < p + w.owned[p]
  }

  predicate InHeader(h: Heap, a: nat, x: nat) {
    a in h.blocks && a <= x < a + HEADER_SIZE
  }

  /** An owned payload lies in its own block, past the header. */
  lemma PayloadInBlock(w: World, p: nat, x: nat)
    requires WorldInv(w) && InPayload(w, p, x)
    ensures p >= HEADER_SIZE
    ensures var a := p - HEADER_SIZE;
      && a in w.heap.blocks && a + HEADER_SIZE <= x && Covers(w.heap.blocks, a, x)
  {
    hide Aligned, Pow2, Inv;
  }

  /** A byte is covered by one block only. */
  lemma CoverUnique(h: Heap, a: nat, b: nat, x: nat)
    requires Inv(h) && Covers(h.blocks, a, x) && Covers(h.blocks, b, x)
    ensures a == b && HEAP_LOWER_BOUND <= x < h.brk
  {
    hide Aligned, Pow2, ListsOk, Coalesced;
    BlockFacts(h, a);
  }

  lemma HeaderInBlock(h: Heap, a: nat, x: nat)
    requires Inv(h) && InHeader(h, a, x)
    ensures Covers(h.blocks, a, x)
  {
    hide Aligned, Pow2, Tiling, ListsOk, Coalesced;
    BlockFacts(h, a);
    Pow2Facts(0);
    Pow2Monotone(MIN_BLOCK_SCALE, h.blocks[a].scale);
  }

  /** Payloads lie inside the heap, apart from each other and from every header. */
  lemma PayloadsApart(w: World, p: nat, x: nat)
    requires WorldInv(w) && InPayload(w, p, x)
    ensures HEAP_LOWER_BOUND <= x < w.heap.brk
    ensures forall q: nat :: InPayload(w, q, x) ==> q == p
    ensures forall a: nat :: !InHeader(w.heap, a, x)
  {
    hide Inv, Pow2, Covers;
    var h, a := w.heap, p - HEADER_SIZE;
    PayloadInBlock(w, p, x);
    CoverUnique(h, a, a, x);
    forall q: nat | InPayload(w, q, x)
      ensures q == p
    {
      PayloadInBlock(w, q, x);
      CoverUnique(h, a, q - HEADER_SIZE, x);
    }
    forall b: nat
      ensures !InHeader(h, b, x)
    {
      if InHeader(h, b, x) {
        HeaderInBlock(h, b, x);
        CoverUnique(h, a, b, x);
      }
    }
  }

  /** What a client owns in both worlds is where it was, in a block of the same size. */
  ghost predicate SameOwned(w: World, t: World, p: nat) {
    p in w.owned && p in t.owned ==>
      && t.owned[p] == w.owned[p] && p >= HEADER_SIZE
      && p - HEADER_SIZE in Used(w.heap) && p - HEADER_SIZE in Used(t.heap)
      && Used(t.heap)[p - HEADER_SIZE] == Used(w.heap)[p - HEADER_SIZE]
  }

  lemma OwnedKept(w: World, op: Op, p: nat)
    requires WorldInv(w) && Legal(w, op)
    ensures SameOwned(w, Step(w, op).0, p)
  {
    hide Inv, Used, Allocate, FreeAt, Brk, RequestScale, FitScale;
    StepKeepsInv(w, op);
    match op
    case Malloc(n) =>
      if 0 < n <= MAX_REQUEST {
        AllocateUses(w.heap, n);
      } else {
        AllocateRefuses(w.heap, n);
      }
    case Release(q) =>
      if q == 0 {
        FreeNull(w.heap);
      } else {
        FreeOwned(w.heap, q);
      }
    case MoveBrk(addr) => UsedBrk(w.heap, addr);
    case Sbrk(inc) =>
      if inc != 0 {
        UsedBrk(w.heap, BrkTarget(w.heap, inc));
      }
  }

  /** No byte of a payload owned across an operation lies in a header of the heap before or after it;
      the operations write headers of those two heaps only (the frames in HeapManager). */
  lemma PayloadUntouched(w: World, op: Op, p: nat, x: nat)
    requires WorldInv(w) && Legal(w, op) && InPayload(w, p, x) && p in Step(w, op).0.owned
    ensures forall a: nat :: !InHeader(w.heap, a, x) && !InHeader(Step(w, op).0.heap, a, x)
  {
    hide WorldInv, InHeader, Step;
    StepKeepsInv(w, op);
    OwnedKept(w, op, p);
    PayloadsApart(w, p, x);
    PayloadsApart(Step(w, op).0, p, x);
  }

  // ----- recovery -----

  lemma NoneUsed(h: Heap, a: nat)
    requires Used(h) == map[] && a in h.blocks
    ensures Free(h, a)
  {
    assert h.blocks[a].free || a in Used(h);
  }

  /** Without used blocks, the region that a block shares with its buddy is free, so a block holds it. */
  lemma ParentFree(h: Heap, a: nat) returns (b: nat)
    requires Inv(h) && Used(h) == map[] && a in h.blocks && h.blocks[a].scale < MAX_BLOCK_SCALE
    ensures At(a, h.blocks[a].scale)
    ensures Holds(h, b, Lower(a, h.blocks[a].scale), h.blocks[a].scale + 1)
  {
    hide Aligned, Pow2, ListsOk, Coalesced, Used;
    BlockFacts(h, a);
    var k := h.blocks[a].scale;
    var l := Lower(a, k);
    BuddyProperties(a, k);
    RegionInside(h.brk, l, k + 1);
    forall y | l <= y < l + Pow2(k + 1)
      ensures ByteFree(h, y)
    {
      assert Covered(h.blocks, y);
      var c :| c in h.blocks && Covers(h.blocks, c, y);
      NoneUsed(h, c);
    }
    b := FreeRegionInOneBlock(h, l, k + 1);
  }

  lemma NoneSmall(h: Heap, a: nat)
    requires Inv(h) && Used(h) == map[] && a in h.blocks
    ensures h.blocks[a].scale == MAX_BLOCK_SCALE
  {
    hide Aligned, Pow2, Tiling, ListsOk, Coalesced, Used;
    BlockFacts(h, a);
    var k := h.blocks[a].scale;
    if k < MAX_BLOCK_SCALE {
      var b := ParentFree(h, a);
      BuddyProperties(a, k);
      Pow2Facts(k);
      CoverUnique(h, a, b, a);
    }
  }

  /** A heap without used blocks is all free blocks of the largest scale. */
  lemma AllFree(h: Heap)
    requires Inv(h) && Used(h) == map[]
    ensures WhollyFreeFrom(h, HEAP_LOWER_BOUND)
  {
    hide Inv, Used;
    forall a | a in h.blocks
      ensures h.blocks[a] == Block(MAX_BLOCK_SCALE, true)
    {
      NoneUsed(h, a);
      NoneSmall(h, a);
    }
  }

  /** After any run in which everything handed out has been freed, in whatever order, every
      remaining block is a free block of the largest scale. */
  lemma FullRecovery(ops: seq<Op>)
    ensures LegalRun(Boot(), ops) && Run(Boot(), ops).owned == map[] ==>
      WhollyFreeFrom(Run(Boot(), ops).heap, HEAP_LOWER_BOUND)
  {
    hide Inv, LegalRun, Run, Boot;
    if LegalRun(Boot(), ops) && Run(Boot(), ops).owned == map[] {
      AllFree(Run(Boot(), ops).heap);
    }
  }
}
