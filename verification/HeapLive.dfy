/** What every operation does to the blocks that are in use. */
module HeapLive {
  import opened PowersOfTwo
  import opened HeapState
  import opened HeapTransitions
  import opened HeapOperations

  /** The blocks in use, with their scales. */
  function Used(h: Heap): map<nat, nat> {
    map a | a in h.blocks && !h.blocks[a].free :: h.blocks[a].scale
  }

  lemma UsedHalve(h: Heap, a: nat)
    requires Inv(h) && Live(h, a) && h.blocks[a].scale > MIN_BLOCK_SCALE
    ensures Used(Halve(h, a)) == Used(h)[a := h.blocks[a].scale - 1]
  {
    hide Aligned, Pow2, Tiling, ListsOk, Coalesced;
    CleaveGeometry(h, a);
  }

  lemma {:induction false} UsedSplit(h: Heap, a: nat, r: nat)
    requires Inv(h) && Live(h, a) && MIN_BLOCK_SCALE <= r <= h.blocks[a].scale
    ensures Used(SplitTo(h, a, r)) == Used(h)[a := r]
    decreases h.blocks[a].scale
  {
    hide Aligned, Pow2, Tiling, ListsOk, Coalesced;
    if h.blocks[a].scale > r {
      UsedHalve(h, a);
      UsedSplit(Halve(h, a), a, r);
    }
  }

  lemma UsedAbsorb(h: Heap, a: nat)
    requires Inv(h) && Live(h, a) && CanAbsorb(h, a)
    ensures Used(Absorb(h, a).0) - {Absorb(h, a).1} == Used(h) - {a}
  {
    hide Aligned, Pow2, Tiling, ListsOk, Coalesced;
    BlockFacts(h, a);
    BuddyProperties(a, h.blocks[a].scale);
  }

  lemma {:induction false} UsedCoalesce(h: Heap, a: nat)
    requires Inv(h) && Live(h, a)
    ensures Used(Coalesce(h, a).0) - {Coalesce(h, a).1} == Used(h) - {a}
    decreases MAX_BLOCK_SCALE - h.blocks[a].scale
  {
    hide Aligned, Pow2, Tiling, ListsOk, Coalesced;
    BlockFacts(h, a);
    if CanAbsorb(h, a) {
      UsedAbsorb(h, a);
      UsedCoalesce(Absorb(h, a).0, Absorb(h, a).1);
    }
  }

  lemma UsedGrow(h: Heap)
    requires Inv(h)
    ensures Used(Grow(h)) == Used(h)
  {
    hide Aligned, Pow2, Tiling, ListsOk, Coalesced;
    ExtendInv(h);
  }

  lemma UsedShrink(h: Heap)
    requires Inv(h) && h.brk > HEAP_LOWER_BOUND && LastIsFree(h)
    ensures Used(Shrink(h)) == Used(h)
  {
    hide Aligned, Pow2, Tiling, ListsOk, Coalesced;
    LastBlock(h);
  }

  lemma {:induction false} UsedGrowTo(h: Heap, addr: nat)
    requires Inv(h)
    ensures Used(GrowTo(h, addr)) == Used(h)
    decreases addr - h.brk
  {
    hide Aligned, Pow2, Tiling, ListsOk, Coalesced, Used;
    if addr > h.brk {
      UsedGrow(h);
      UsedGrowTo(Grow(h), addr);
    }
  }

  lemma {:induction false} UsedShrinkTo(h: Heap, addr: nat)
    requires Inv(h) && addr >= HEAP_LOWER_BOUND
    ensures Used(ShrinkTo(h, addr).0) == Used(h)
    decreases h.brk - addr
  {
    hide Aligned, Pow2, Tiling, ListsOk, Coalesced, Used;
    if addr < h.brk && LastIsFree(h) {
      UsedShrink(h);
      UsedShrinkTo(Shrink(h), addr);
    }
  }

  /** Moving the break, either way, touches no block in use. */
  lemma UsedBrk(h: Heap, addr: nat)
    requires Inv(h) && addr >= HEAP_LOWER_BOUND
    ensures Used(Brk(h, addr).0) == Used(h)
  {
    hide Aligned, Pow2, Tiling, ListsOk, Coalesced, Used;
    UsedGrowTo(h, addr);
    UsedShrinkTo(h, addr);
  }

  lemma UsedTrim(h: Heap, a: nat)
    requires Inv(h) && Free(h, a)
    ensures Used(Trim(h, a)) == Used(h)
  {
    hide Aligned, Pow2, Tiling, ListsOk, Coalesced, Used;
    BlockFacts(h, a);
    Pow2Facts(0);
    if h.blocks[a].scale == MAX_BLOCK_SCALE && h.brk == a + MAX_BLOCK_SIZE {
      UsedShrinkTo(h, h.brk - MAX_BLOCK_SIZE);
    }
  }

  /** Freeing takes exactly the freed block out of use. */
  lemma UsedRelease(h: Heap, a: nat)
    requires Inv(h) && Live(h, a)
    ensures Used(Release(h, a)) == Used(h) - {a}
  {
    hide Aligned, Pow2, Tiling, Coalesced, Trim, Coalesce;
    UsedCoalesce(h, a);
    var c := Coalesce(h, a);
    UsedPush(c.0, c.1);
    UsedTrim(Push(c.0, c.1), c.1);
  }

  lemma UsedPush(h: Heap, a: nat)
    requires Inv(h) && Live(h, a) && !CanAbsorb(h, a)
    ensures h.blocks[a].scale < |h.lists| && Inv(Push(h, a)) && Used(Push(h, a)) == Used(h) - {a}
  {
    hide Aligned, Pow2, Tiling, Coalesced;
    BlockFacts(h, a);
    PushInv(h, a);
  }

  lemma UsedCarve(h: Heap, k: nat, r: nat)
    requires Inv(h) && MIN_BLOCK_SCALE <= r <= k <= MAX_BLOCK_SCALE && h.lists[k] != []
    ensures h.lists[k][0] !in Used(h)
    ensures Used(Carve(h, k, r).0) == Used(h)[h.lists[k][0] := r]
  {
    hide Aligned, Pow2, Tiling, Coalesced;
    UsedSplit(TakeHead(h, k).0, h.lists[k][0], r);
  }

  /** `allocate(n)` puts exactly one new block in use. When a free block was found it has the
      request's scale, and came from a block of the smallest sufficient free scale; otherwise it
      is the whole block by which the heap grew. */
  lemma AllocateUses(h: Heap, n: nat)
    requires Inv(h) && 0 < n <= MAX_REQUEST
    ensures var t := Allocate(h, n);
      var k := FitScale(h, RequestScale(n));
      && t.1 >= HEADER_SIZE && t.1 - HEADER_SIZE !in Used(h)
      && Used(t.0) == Used(h)[t.1 - HEADER_SIZE := if k <= MAX_BLOCK_SCALE then RequestScale(n) else MAX_BLOCK_SCALE]
      && (k <= MAX_BLOCK_SCALE ==>
            && t.1 - HEADER_SIZE in h.blocks && h.blocks[t.1 - HEADER_SIZE] == Block(k, true)
            && forall b | Free(h, b) :: !(RequestScale(n) <= h.blocks[b].scale < k))
      && (k > MAX_BLOCK_SCALE ==> t.1 - HEADER_SIZE == h.brk)
  {
    hide Aligned, Pow2, Tiling, Coalesced, RequestScale, FitScale, Carve, Grow, Used;
    var r := RequestScale(n);
    var k := FitScale(h, r);
    if k <= MAX_BLOCK_SCALE {
      UsedCarve(h, k, r);
      assert h.lists[k][0] in h.lists[k];
    } else {
      FitAfterGrow(h, r);
      UsedCarve(Grow(h), MAX_BLOCK_SCALE, MAX_BLOCK_SCALE);
      UsedGrow(h);
    }
  }

  /** In every heap, `allocate` returns NULL exactly for the empty and the oversized request. */
  lemma AllocatableIff(h: Heap, n: nat)
    requires Inv(h)
    ensures Allocate(h, n).1 != 0 <==> Allocatable(n)
  {
    if Allocatable(n) {
      AllocateUses(h, n);
    }
    hide RequestScale, FitScale, Carve, Grow;
  }

  /** The request's scale is the least whose blocks hold the header and `n` bytes. */
  lemma RequestScaleIsLeast(n: nat, k: nat)
    requires 0 < n <= MAX_REQUEST
    ensures n + HEADER_SIZE <= Pow2(k) <==> RequestScale(n) <= k
  {
    BitLengthIsLeast(n + HEADER_SIZE - 1, k);
  }
}
