/** The heap operations as functions on abstract heaps. */
module HeapOperations {
  import opened PowersOfTwo
  import opened HeapState
  import opened HeapTransitions

  const MAX_REQUEST: nat := 32759  // 2^15 minus the header

  // ----- splitting and coalescing -----

  lemma HalveInv(h: Heap, a: nat)
    requires Inv(h) && Live(h, a) && h.blocks[a].scale > MIN_BLOCK_SCALE
    ensures var t := Cleave(h, a);
      var b := a + Pow2(h.blocks[a].scale - 1);
      && b in t.blocks && t.blocks[b].scale < |t.lists| && a != b
      && Inv(Push(t, b))
  {
    hide Aligned, Pow2, Tiling, Coalesced;
    var k := h.blocks[a].scale - 1;
    BlockFacts(h, a);
    CleaveInv(h, a);
    CleaveGeometry(h, a);
    BuddyProperties(a, k);
    PushInv(Cleave(h, a), a + Pow2(k));
  }

  /** One round of splitting: the upper half goes on the free list below. */
  ghost function Halve(h: Heap, a: nat): (t: Heap)
    requires Inv(h) && Live(h, a) && h.blocks[a].scale > MIN_BLOCK_SCALE
    ensures Inv(t) && Live(t, a) && t.blocks[a].scale == h.blocks[a].scale - 1
  {
    hide Aligned, Pow2, Tiling, ListsOk, Coalesced;
    HalveInv(h, a);
    Push(Cleave(h, a), a + Pow2(h.blocks[a].scale - 1))
  }

  /** Splits a used block until it has scale `r`. */
  ghost function SplitTo(h: Heap, a: nat, r: nat): (t: Heap)
    requires Inv(h) && Live(h, a) && MIN_BLOCK_SCALE <= r <= h.blocks[a].scale
    ensures Inv(t) && Live(t, a) && t.blocks[a].scale == r
    decreases h.blocks[a].scale
  {
    if h.blocks[a].scale > r then SplitTo(Halve(h, a), a, r) else h
  }

  ghost predicate CanAbsorb(h: Heap, a: nat)
    requires Inv(h) && Live(h, a)
  {
    BlockFacts(h, a);
    h.blocks[a].scale < MAX_BLOCK_SCALE && FreeBuddy(h, a, h.blocks[a].scale)
  }

  /** One round of coalescing: the free buddy leaves its list and is joined. */
  ghost function Absorb(h: Heap, a: nat): (r: (Heap, nat))
    requires Inv(h) && Live(h, a) && CanAbsorb(h, a)
    ensures Inv(r.0) && Live(r.0, r.1) && r.0.blocks[r.1].scale == h.blocks[a].scale + 1
  {
    hide Aligned, Pow2;
    BlockFacts(h, a);
    var k := h.blocks[a].scale;
    BuddyProperties(a, k);
    TakeInv(h, Buddy(a, k));
    FuseInv(Take(h, Buddy(a, k)), a);
    (Fuse(Take(h, Buddy(a, k)), a), Lower(a, k))
  }

  /** Joins a used block with free buddies for as long as there are any. */
  ghost function Coalesce(h: Heap, a: nat): (r: (Heap, nat))
    requires Inv(h) && Live(h, a)
    ensures Inv(r.0) && Live(r.0, r.1) && !CanAbsorb(r.0, r.1)
    decreases MAX_BLOCK_SCALE - h.blocks[a].scale
  {
    if CanAbsorb(h, a) then var s := Absorb(h, a); Coalesce(s.0, s.1) else (h, a)
  }

  // ----- the break -----

  /** One free block of the largest scale more. */
  ghost function Grow(h: Heap): (t: Heap)
    requires Inv(h)
    ensures Inv(t) && t.brk == h.brk + MAX_BLOCK_SIZE
  {
    ExtendInv(h);
    PushInv(Extend(h), h.brk);
    Push(Extend(h), h.brk)
  }

  ghost function GrowTo(h: Heap, addr: nat): (t: Heap)
    requires Inv(h)
    ensures Inv(t)
    decreases addr - h.brk
  {
    if addr > h.brk then GrowTo(Grow(h), addr) else h
  }

  lemma AboveBound(h: Heap)
    requires Inv(h)
    ensures h.brk >= HEAP_LOWER_BOUND
  {
  }

  lemma LastBlock(h: Heap)
    requires Inv(h) && h.brk > HEAP_LOWER_BOUND
    ensures h.brk >= HEAP_LOWER_BOUND + MAX_BLOCK_SIZE && h.brk - MAX_BLOCK_SIZE in h.blocks
    ensures At(h.brk - MAX_BLOCK_SIZE, MAX_BLOCK_SCALE)
  {
    hide Aligned, Pow2;
    Pow2Facts(0);
    AlignedZero(MAX_BLOCK_SCALE);
    var x := h.brk - HEAP_LOWER_BOUND;
    Nested(HEAP_LOWER_BOUND, MAX_BLOCK_SCALE, h.brk, MAX_BLOCK_SCALE);
    var b := h.brk - MAX_BLOCK_SIZE;
    assert At(b, MAX_BLOCK_SCALE) by {
      AlignedBack(x, MAX_BLOCK_SCALE);
    }
    assert Covered(h.blocks, b);
    var c :| c in h.blocks && Covers(h.blocks, c, b);
    BlockFacts(h, c);
    Nested(c, h.blocks[c].scale, b, MAX_BLOCK_SCALE);
  }

  ghost predicate LastIsFree(h: Heap)
    requires Inv(h) && h.brk > HEAP_LOWER_BOUND
  {
    LastBlock(h);
    h.blocks[h.brk - MAX_BLOCK_SIZE] == Block(MAX_BLOCK_SCALE, true)
  }

  /** One free block of the largest scale less. */
  ghost function Shrink(h: Heap): (t: Heap)
    requires Inv(h) && h.brk > HEAP_LOWER_BOUND && LastIsFree(h)
    ensures Inv(t) && t.brk == h.brk - MAX_BLOCK_SIZE
  {
    hide Aligned, Pow2;
    LastBlock(h);
    TakeInv(h, h.brk - MAX_BLOCK_SIZE);
    DropInv(Take(h, h.brk - MAX_BLOCK_SIZE));
    Drop(Take(h, h.brk - MAX_BLOCK_SIZE))
  }

  ghost function ShrinkTo(h: Heap, addr: nat): (r: (Heap, int))
    requires Inv(h) && addr >= HEAP_LOWER_BOUND
    ensures Inv(r.0)
    decreases h.brk - addr
  {
    if addr < h.brk then
      if LastIsFree(h) then ShrinkTo(Shrink(h), addr) else (h, -1)
    else (h, 0)
  }

  /** `brk`: the new heap and the code it returns. */
  ghost function Brk(h: Heap, addr: nat): (r: (Heap, int))
    requires Inv(h) && addr >= HEAP_LOWER_BOUND
    ensures Inv(r.0)
  {
    if addr > h.brk then (GrowTo(h, addr), 0) else ShrinkTo(h, addr)
  }

  // ----- allocate and free -----

  /** The requests that `allocate` meets (HeapLive.AllocatableIff). */
  predicate Allocatable(n: nat) {
    0 < n <= MAX_REQUEST
  }

  /** `size_to_scale`, with `32 - clz(x)` written as the number of significant bits. */
  function SizeToScale(size: nat): nat {
    BitLength(size + HEADER_SIZE - 1)
  }

  function RequestScale(size: nat): (r: nat)
    requires 0 < size <= MAX_REQUEST
    ensures MIN_BLOCK_SCALE <= r <= MAX_BLOCK_SCALE && r == SizeToScale(size)
  {
    BitLengthIsLeast(size + HEADER_SIZE - 1, MAX_BLOCK_SCALE);
    BitLengthIsLeast(size + HEADER_SIZE - 1, MIN_BLOCK_SCALE - 1);
    if SizeToScale(size) >= MIN_BLOCK_SCALE then SizeToScale(size) else MIN_BLOCK_SCALE
  }

  /** The first scale from `r` up whose free list is not empty, or 16 when there is none. */
  function FitScale(h: Heap, r: nat): (k: nat)
    requires |h.lists| == MAX_BLOCK_SCALE + 1 && r <= MAX_BLOCK_SCALE
    ensures r <= k <= MAX_BLOCK_SCALE + 1
    ensures k <= MAX_BLOCK_SCALE ==> h.lists[k] != []
    ensures forall j | r <= j < k :: h.lists[j] == []
    decreases MAX_BLOCK_SCALE - r
  {
    if h.lists[r] != [] then r
    else if r < MAX_BLOCK_SCALE then FitScale(h, r + 1) else MAX_BLOCK_SCALE + 1
  }

  /** Takes the head of list `k`. */
  ghost function TakeHead(h: Heap, k: nat): (r: (Heap, nat))
    requires Inv(h) && k <= MAX_BLOCK_SCALE && h.lists[k] != []
    ensures Inv(r.0) && Live(r.0, r.1) && r.1 == h.lists[k][0] && r.0.blocks[r.1].scale == k
    ensures h.blocks[r.1] == Block(k, true) && r.0 == Take(h, r.1)
  {
    hide Aligned, Pow2, Tiling, Coalesced;
    var a := h.lists[k][0];
    assert a in h.lists[k];
    TakeInv(h, a);
    (Take(h, a), a)
  }

  /** The head of list `k`, split down to scale `r`. */
  ghost function Carve(h: Heap, k: nat, r: nat): (t: (Heap, nat))
    requires Inv(h) && MIN_BLOCK_SCALE <= r <= k <= MAX_BLOCK_SCALE && h.lists[k] != []
    ensures Inv(t.0) && Live(t.0, t.1) && t.0.blocks[t.1].scale == r && t.1 == h.lists[k][0]
  {
    hide Aligned, Pow2, Tiling, Coalesced;
    var t := TakeHead(h, k);
    (SplitTo(t.0, t.1, r), t.1)
  }

  lemma FitAfterGrow(h: Heap, r: nat)
    requires Inv(h) && r <= MAX_BLOCK_SCALE && FitScale(h, r) > MAX_BLOCK_SCALE
    ensures FitScale(Grow(h), r) == MAX_BLOCK_SCALE && Grow(h).lists[MAX_BLOCK_SCALE] == [h.brk]
  {
    hide Aligned, Pow2, Tiling, Coalesced;
    assert forall j | r <= j < MAX_BLOCK_SCALE :: Grow(h).lists[j] == h.lists[j] == [];
  }

  /** `allocate`: the new heap and the pointer returned, 0 for NULL. When no block fits, the heap
      grows and the new block is handed out whole. */
  ghost function Allocate(h: Heap, n: nat): (t: (Heap, nat))
    requires Inv(h)
    ensures Inv(t.0)
  {
    hide Aligned, Pow2, Tiling, Coalesced, RequestScale;
    if n > MAX_REQUEST || n == 0 then (h, 0) else
      var r := RequestScale(n);
      var k := FitScale(h, r);
      if k <= MAX_BLOCK_SCALE then
        var c := Carve(h, k, r);
        (c.0, c.1 + HEADER_SIZE)
      else
        FitAfterGrow(h, r);
        var c := Carve(Grow(h), MAX_BLOCK_SCALE, MAX_BLOCK_SCALE);
        (c.0, c.1 + HEADER_SIZE)
  }

  /** The end of `free`: a wholly free last block is given up. */
  ghost function Trim(h: Heap, a: nat): (t: Heap)
    requires Inv(h) && Free(h, a)
    ensures Inv(t)
  {
    if h.blocks[a].scale == MAX_BLOCK_SCALE && h.brk == a + MAX_BLOCK_SIZE
    then BlockFacts(h, a); ShrinkTo(h, h.brk - MAX_BLOCK_SIZE).0
    else h
  }

  /** Puts a used block back: coalesce, push and trim. */
  ghost function Release(h: Heap, a: nat): (t: Heap)
    requires Inv(h) && Live(h, a)
    ensures Inv(t)
  {
    var c := Coalesce(h, a);
    BlockFacts(c.0, c.1);
    PushInv(c.0, c.1);
    Trim(Push(c.0, c.1), c.1)
  }

  /** A pointer that `free` can be given: NULL, or just past the header of a block. */
  predicate FreeArgument(h: Heap, p: nat) {
    p == 0 || (p >= HEADER_SIZE && p - HEADER_SIZE in h.blocks)
  }

  /** `free`: a block that is already free is still linked in its list and is refused. */
  ghost function FreeAt(h: Heap, p: nat): (r: (Heap, int))
    requires Inv(h) && FreeArgument(h, p)
    ensures Inv(r.0)
  {
    if p == 0 || h.blocks[p - HEADER_SIZE].free then (h, 1) else (Release(h, p - HEADER_SIZE), 0)
  }

  /** The heap `init_heap` starts from, before its `sbrk(1)`. */
  function EmptyHeap(): Heap {
    Heap(HEAP_LOWER_BOUND, map[], seq(MAX_BLOCK_SCALE + 1, _ => []))
  }

  lemma EmptyInv()
    ensures Inv(EmptyHeap())
  {
    hide Aligned, Pow2;
    AlignedZero(MAX_BLOCK_SCALE);
  }

  ghost function InitialHeap(): (h: Heap)
    ensures Inv(h)
  {
    EmptyInv();
    Grow(EmptyHeap())
  }
}
