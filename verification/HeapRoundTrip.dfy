/** Allocating and then freeing gives back the very heap there was before. */
module HeapRoundTrip {
  import opened PowersOfTwo
  import opened HeapState
  import opened HeapTransitions
  import opened HeapOperations

  lemma PushTake(h: Heap, a: nat)
    requires ListsOk(h) && Free(h, a) && h.lists[h.blocks[a].scale][0] == a
    ensures Push(Take(h, a), a) == h
  {
    hide Aligned, Pow2;
    var k := h.blocks[a].scale;
    assert [a] + h.lists[k][1..] == h.lists[k];
    assert Push(Take(h, a), a).blocks == h.blocks;
  }

  lemma FuseUndoesCleave(h: Heap, a: nat, k: nat)
    requires Live(h, a) && h.blocks[a].scale == k + 1 < |h.lists|
    requires At(a, k) && Buddy(a, k) == a + Pow2(k) && a + Pow2(k) !in h.blocks
    ensures var t := Push(Cleave(h, a), a + Pow2(k));
      && a + Pow2(k) in t.blocks && t.blocks[a + Pow2(k)] == Block(k, true)
      && Fuse(Take(t, a + Pow2(k)), a) == h
  {
    hide Aligned, Pow2;
    var u := a + Pow2(k);
    var t := Push(Cleave(h, a), u);
    assert t.lists[k] == [u] + h.lists[k];
    assert Take(t, u).lists == h.lists;
    assert Fuse(Take(t, u), a).blocks == h.blocks;
  }

  /** Coalescing undoes one round of splitting. */
  lemma AbsorbHalve(h: Heap, a: nat)
    requires Inv(h) && Live(h, a) && h.blocks[a].scale > MIN_BLOCK_SCALE
    ensures CanAbsorb(Halve(h, a), a) && Absorb(Halve(h, a), a) == (h, a)
  {
    hide Aligned, Pow2, Tiling, Coalesced, Fuse, Take, Push, Cleave;
    BlockFacts(h, a);
    CleaveGeometry(h, a);
    FuseUndoesCleave(h, a, h.blocks[a].scale - 1);
  }

  lemma {:induction false} CoalesceSplit(h: Heap, a: nat, r: nat)
    requires Inv(h) && Live(h, a) && MIN_BLOCK_SCALE <= r <= h.blocks[a].scale
    ensures Coalesce(SplitTo(h, a, r), a) == Coalesce(h, a)
    decreases h.blocks[a].scale
  {
    hide Aligned, Pow2, Tiling;
    if h.blocks[a].scale > r {
      CoalesceSplit(Halve(h, a), a, r);
      AbsorbHalve(h, a);
    }
  }

  /** A block just taken from its list has nothing to join with. */
  lemma CoalesceTaken(h: Heap, a: nat)
    requires Inv(h) && Free(h, a) && Inv(Take(h, a))
    ensures Coalesce(Take(h, a), a) == (Take(h, a), a)
  {
    hide Aligned, Pow2;
    BlockFacts(h, a);
    BuddyProperties(a, h.blocks[a].scale);
    assert h.blocks[a].scale < MAX_BLOCK_SCALE ==> !FreeBuddy(h, a, h.blocks[a].scale);
  }

  lemma ShrinkOnce(h: Heap)
    requires Inv(h) && h.brk > HEAP_LOWER_BOUND && LastIsFree(h)
    ensures h.brk - MAX_BLOCK_SIZE >= HEAP_LOWER_BOUND
    ensures ShrinkTo(h, h.brk - MAX_BLOCK_SIZE) == (Shrink(h), 0)
  {
    hide Aligned, Pow2;
    LastBlock(h);
  }

  lemma DropUndoesExtend(h: Heap)
    requires |h.lists| == MAX_BLOCK_SCALE + 1 && h.brk !in h.blocks
    ensures Drop(Take(Push(Extend(h), h.brk), h.brk)) == h
  {
    var g := Push(Extend(h), h.brk);
    assert g.lists[MAX_BLOCK_SCALE] == [h.brk] + h.lists[MAX_BLOCK_SCALE];
    assert Take(g, h.brk).lists == h.lists;
    assert Drop(Take(g, h.brk)).blocks == h.blocks;
  }

  lemma ShrinkGrow(h: Heap)
    requires Inv(h)
    ensures Grow(h).brk > HEAP_LOWER_BOUND && LastIsFree(Grow(h)) && Shrink(Grow(h)) == h
  {
    hide Aligned, Pow2, Tiling, Coalesced, Drop, Take, Extend, Push;
    ExtendInv(h);
    assert Grow(h).brk > HEAP_LOWER_BOUND by { AboveBound(h); }
    GrowLast(h);
    DropUndoesExtend(h);
  }

  lemma GrowLast(h: Heap)
    requires Inv(h)
    ensures Free(Grow(h), h.brk) && Grow(h).blocks[h.brk].scale == MAX_BLOCK_SCALE
  {
    hide Aligned, Pow2, Tiling, Coalesced;
  }

  /** The request is carved from the wholly free last block of the heap. */
  ghost predicate CarvesLast(h: Heap, n: nat)
    requires Inv(h) && 0 < n <= MAX_REQUEST
  {
    && FitScale(h, RequestScale(n)) == MAX_BLOCK_SCALE
    && h.lists[MAX_BLOCK_SCALE][0] + MAX_BLOCK_SIZE == h.brk
  }

  lemma ReleaseCarved(h: Heap, k: nat, r: nat)
    requires Inv(h) && MIN_BLOCK_SCALE <= r <= k <= MAX_BLOCK_SCALE && h.lists[k] != []
    ensures var a := h.lists[k][0];
      Free(h, a) && h.blocks[a].scale == k && Release(Carve(h, k, r).0, a) == Trim(h, a)
  {
    hide Aligned, Pow2, Tiling;
    var a := h.lists[k][0];
    var t := TakeHead(h, k).0;
    CoalesceSplit(t, a, r);
    CoalesceTaken(h, a);
    PushTake(h, a);
  }

  lemma TrimGrown(h: Heap)
    requires Inv(h)
    ensures Free(Grow(h), h.brk) && Trim(Grow(h), h.brk) == h
  {
    hide Aligned, Pow2, Tiling, Coalesced;
    ShrinkGrow(h);
    ShrinkOnce(Grow(h));
  }

  /** Freeing what `allocate(n)` returned succeeds and leaves `t`. */
  ghost predicate RoundTripsTo(h: Heap, n: nat, t: Heap)
    requires Inv(h)
  {
    var r := Allocate(h, n);
    FreeArgument(r.0, r.1) && FreeAt(r.0, r.1) == (t, 0)
  }

  lemma RoundTripCarved(h: Heap, n: nat, k: nat)
    requires Inv(h) && 0 < n <= MAX_REQUEST && k == FitScale(h, RequestScale(n)) <= MAX_BLOCK_SCALE
    ensures Free(h, h.lists[k][0]) && h.blocks[h.lists[k][0]].scale == k
    ensures RoundTripsTo(h, n, Trim(h, h.lists[k][0]))
  {
    hide Aligned, Pow2, Tiling, Coalesced, RequestScale, SplitTo, Trim, Release, Carve, Grow;
    ReleaseCarved(h, k, RequestScale(n));
  }

  lemma RoundTripGrown(h: Heap, n: nat)
    requires Inv(h) && 0 < n <= MAX_REQUEST && FitScale(h, RequestScale(n)) > MAX_BLOCK_SCALE
    ensures RoundTripsTo(h, n, h)
  {
    hide Aligned, Pow2, Tiling, Coalesced, RequestScale, SplitTo, Trim, Release, Carve, Grow, FitScale;
    FitAfterGrow(h, RequestScale(n));
    ReleaseCarved(Grow(h), MAX_BLOCK_SCALE, MAX_BLOCK_SCALE);
    TrimGrown(h);
  }

  /** `free(allocate(n))` restores the break, the tiling and every free list with its order; only
      when the request was carved from a wholly free last block is exactly that block dropped. */
  lemma AllocateFreeRoundTrip(h: Heap, n: nat)
    requires Inv(h) && 0 < n <= MAX_REQUEST
    ensures !CarvesLast(h, n) ==> RoundTripsTo(h, n, h)
    ensures CarvesLast(h, n) ==> h.brk > HEAP_LOWER_BOUND && LastIsFree(h) && RoundTripsTo(h, n, Shrink(h))
  {
    hide Aligned, Pow2, Tiling, Coalesced, RequestScale, Allocate, Release, Carve, Grow;
    var k := FitScale(h, RequestScale(n));
    if k <= MAX_BLOCK_SCALE {
      RoundTripCarved(h, n, k);
      BlockFacts(h, h.lists[k][0]);
      if CarvesLast(h, n) {
        ShrinkOnce(h);
      }
    } else {
      RoundTripGrown(h, n);
    }
  }

  /** The exception is there from the start: on the heap that `init_heap` leaves, every legal request is
      carved from the last block, and freeing it leaves no heap at all. */
  lemma FirstRoundTrip(n: nat)
    requires 0 < n <= MAX_REQUEST
    ensures CarvesLast(InitialHeap(), n) && RoundTripsTo(InitialHeap(), n, EmptyHeap())
  {
    EmptyInv();
    var h := EmptyHeap();
    assert FitScale(h, RequestScale(n)) > MAX_BLOCK_SCALE by {
      assert forall k | 0 <= k <= MAX_BLOCK_SCALE :: h.lists[k] == [];
    }
    FitAfterGrow(h, RequestScale(n));
    AllocateFreeRoundTrip(InitialHeap(), n);
    ShrinkGrow(h);
  }
}
