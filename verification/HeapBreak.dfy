/** What `brk`, `sbrk` and `free` do to the break, and what they return. */
module HeapBreak {
  import opened PowersOfTwo
  import opened HeapState
  import opened HeapTransitions
  import opened HeapOperations
  import opened HeapRegions
  import opened HeapLive
  import opened HeapRuns
  import HeapRoundTrip

  /** A request is met exactly when it and its header fit into a block of the largest scale. */
  lemma AllocatableIs(n: nat)
    ensures Allocatable(n) <==> 0 < n && n + HEADER_SIZE <= Pow2(MAX_BLOCK_SCALE)
  {
    Pow2Facts(0);
  }

  /** The heap that `init_heap` leaves: one free block of the largest scale, on its list. */
  lemma InitialHeapIs()
    ensures InitialHeap().brk == HEAP_LOWER_BOUND + Pow2(MAX_BLOCK_SCALE)
    ensures InitialHeap().blocks == map[HEAP_LOWER_BOUND := Block(MAX_BLOCK_SCALE, true)]
    ensures |InitialHeap().lists| == MAX_BLOCK_SCALE + 1
    ensures forall k | 0 <= k <= MAX_BLOCK_SCALE ::
      InitialHeap().lists[k] == if k == MAX_BLOCK_SCALE then [HEAP_LOWER_BOUND] else []
  {
    hide Inv;
    EmptyInv();
    Pow2Facts(0);
  }

  // ----- brk -----

  /** `brk` to an address at or above the break succeeds: it adds wholly free blocks, as few as reach the
      address, and leaves all others. */
  lemma BrkRaises(h: Heap, addr: nat)
    requires Inv(h) && addr >= h.brk
    ensures addr >= HEAP_LOWER_BOUND
    ensures var t := Brk(h, addr);
      && t.1 == 0 && addr <= t.0.brk && (t.0.brk > h.brk ==> t.0.brk < addr + MAX_BLOCK_SIZE)
      && Below(t.0, h.brk) == h.blocks && WhollyFreeFrom(t.0, h.brk)
  {
    hide Inv, GrowTo, Below, WhollyFreeFrom;
    AboveBound(h);
    GrowAdds(h, addr);
    if addr == h.brk {
      AllBelow(h);
    }
  }

  /** `brk` to an address at or below the break removes trailing wholly free blocks only, as few as reach
      the address; it returns -1 exactly when it meets another last block before that. */
  lemma BrkLowers(h: Heap, addr: nat)
    requires Inv(h) && HEAP_LOWER_BOUND <= addr <= h.brk
    ensures var t := Brk(h, addr);
      && t.0.brk <= h.brk && t.0.blocks == Below(h, t.0.brk) && WhollyFreeFrom(h, t.0.brk)
      && t.1 == (if t.0.brk <= addr then 0 else -1)
      && (t.1 == -1 ==> t.0.brk > HEAP_LOWER_BOUND && !LastIsFree(t.0))
      && (t.0.brk < h.brk ==> addr < t.0.brk + MAX_BLOCK_SIZE)
  {
    hide Inv, ShrinkTo, Below, WhollyFreeFrom, LastIsFree;
    ShrinkRemoves(h, addr);
  }

  lemma {:induction false} GrowMoves(h: Heap, n: nat)
    requires Inv(h)
    ensures GrowTo(h, h.brk + n * MAX_BLOCK_SIZE).brk == h.brk + n * MAX_BLOCK_SIZE
    decreases n
  {
    hide Inv, Grow;
    if n > 0 {
      GrowMoves(Grow(h), n - 1);
    }
  }

  lemma {:induction false} ShrinkMoves(h: Heap, n: nat)
    requires Inv(h) && h.brk - n * MAX_BLOCK_SIZE >= HEAP_LOWER_BOUND
    ensures var t := ShrinkTo(h, h.brk - n * MAX_BLOCK_SIZE);
      t.1 == 0 ==> t.0.brk == h.brk - n * MAX_BLOCK_SIZE
    decreases n
  {
    hide Inv, Shrink, LastIsFree;
    if n > 0 && LastIsFree(h) {
      ShrinkMoves(Shrink(h), n - 1);
    }
  }

  /** `sbrk`: 0 fails and does nothing; any other number of blocks, when it succeeds, moves the break by
      exactly that many, and up it always does. */
  lemma SbrkMoves(w: World, inc: int)
    requires WorldInv(w) && HeapRuns.Legal(w, Sbrk(inc))
    ensures var t := HeapRuns.Step(w, Sbrk(inc));
      && t.0.owned == w.owned
      && (inc == 0 ==> t.1 == -1 && t.0 == w)
      && (inc > 0 ==> t.1 == 0)
      && (t.1 == 0 ==> t.0.heap.brk == w.heap.brk + inc * MAX_BLOCK_SIZE)
      && (t.1 == 0 || t.1 == -1)
  {
    hide Inv, GrowTo, ShrinkTo, Below, WhollyFreeFrom;
    var h := w.heap;
    if inc > 0 {
      BrkRaises(h, h.brk + inc * MAX_BLOCK_SIZE);
      GrowMoves(h, inc);
    } else if inc < 0 {
      BrkLowers(h, h.brk + inc * MAX_BLOCK_SIZE);
      ShrinkMoves(h, -inc);
    }
  }

  // ----- free -----

  /** NULL and a block already free are refused with 1 and no change; a block in use, and only that, is
      taken out of use, and 0 is returned. */
  lemma FreeEffect(h: Heap, p: nat)
    requires Inv(h) && FreeArgument(h, p)
    ensures p == 0 || Free(h, p - HEADER_SIZE) ==> FreeAt(h, p) == (h, 1)
    ensures p != 0 && Live(h, p - HEADER_SIZE) ==>
      FreeAt(h, p).1 == 0 && Used(FreeAt(h, p).0) == Used(h) - {p - HEADER_SIZE}
  {
    hide Inv, HeapOperations.Release, Used;
    if p != 0 && Live(h, p - HEADER_SIZE) {
      UsedRelease(h, p - HEADER_SIZE);
    }
  }

  lemma AbsorbCovers(h: Heap, a: nat, x: nat)
    requires Inv(h) && Live(h, a) && CanAbsorb(h, a) && Covers(h.blocks, a, x)
    ensures Covers(Absorb(h, a).0.blocks, Absorb(h, a).1, x) && Absorb(h, a).0.brk == h.brk
  {
    hide Aligned, Pow2, Tiling, ListsOk, Coalesced;
    BlockFacts(h, a);
    BuddyProperties(a, h.blocks[a].scale);
    Pow2Facts(h.blocks[a].scale);
  }

  /** The joined block still covers what the freed one did. */
  lemma {:induction false} CoalesceCovers(h: Heap, a: nat, x: nat)
    requires Inv(h) && Live(h, a) && Covers(h.blocks, a, x)
    ensures Covers(Coalesce(h, a).0.blocks, Coalesce(h, a).1, x) && Coalesce(h, a).0.brk == h.brk
    decreases MAX_BLOCK_SCALE - h.blocks[a].scale
  {
    hide Inv, Absorb, CanAbsorb, Covers;
    ScaleBound(h, a);
    if CanAbsorb(h, a) {
      AbsorbCovers(h, a, x);
      CoalesceCovers(Absorb(h, a).0, Absorb(h, a).1, x);
    }
  }

  lemma ScaleBound(h: Heap, a: nat)
    requires Inv(h) && a in h.blocks
    ensures h.blocks[a].scale <= MAX_BLOCK_SCALE && Covers(h.blocks, a, a)
  {
    hide Aligned, Pow2, ListsOk, Coalesced;
    BlockFacts(h, a);
  }

  /** The heap before the end of `free`: the joined block is on its list. */
  ghost function Joined(h: Heap, a: nat): (r: (Heap, nat))
    requires Inv(h) && Live(h, a)
    ensures Inv(r.0) && Free(r.0, r.1)
  {
    var c := Coalesce(h, a);
    UsedPush(c.0, c.1);
    (Push(c.0, c.1), c.1)
  }

  lemma JoinedFacts(h: Heap, a: nat)
    requires Inv(h) && Live(h, a)
    ensures var g := Joined(h, a);
      && g.0.brk == h.brk && Used(g.0) == Used(h) - {a} && Covers(g.0.blocks, g.1, a) && g.1 <= a
      && HeapOperations.Release(h, a) == Trim(g.0, g.1)
  {
    hide Inv, Coalesce, Trim, Used;
    var c := Coalesce(h, a);
    ScaleBound(h, a);
    CoalesceCovers(h, a, a);
    UsedCoalesce(h, a);
    UsedPush(c.0, c.1);
  }

  /** A byte is free exactly when the block that covers it is not in use. */
  lemma FreeByte(h: Heap, y: nat)
    requires Inv(h) && HEAP_LOWER_BOUND <= y < h.brk
    ensures ByteFree(h, y) <==> !exists b :: Live(h, b) && Covers(h.blocks, b, y)
  {
    hide Aligned, Pow2, ListsOk, Coalesced, Covers;
    assert Covered(h.blocks, y);
    var c :| c in h.blocks && Covers(h.blocks, c, y);
    hide Tiling;
    assert Live(h, c) || Free(h, c);
    if b :| Live(h, b) && Covers(h.blocks, b, y) {
      CoverUnique(h, c, b, y);
    }
    if b :| Free(h, b) && Covers(h.blocks, b, y) {
      CoverUnique(h, c, b, y);
    }
  }

  /** Joining frees exactly the bytes of the freed block. */
  lemma JoinedByte(h: Heap, a: nat, y: nat)
    requires Inv(h) && Live(h, a) && HEAP_LOWER_BOUND <= y < h.brk
    ensures ByteFree(Joined(h, a).0, y) <==> ByteFree(h, y) || Covers(h.blocks, a, y)
  {
    hide Inv, Joined, ByteFree;
    var g := Joined(h, a).0;
    JoinedFacts(h, a);
    FreeByte(h, y);
    FreeByte(g, y);
    forall b
      ensures Live(g, b) <==> Live(h, b) && b != a
      ensures Live(g, b) ==> g.blocks[b].scale == h.blocks[b].scale
    {
      UsedIs(g, b);
      UsedIs(h, b);
    }
    if Covers(h.blocks, a, y) {
      forall b | Live(h, b) && Covers(h.blocks, b, y)
        ensures b == a
      {
        CoverUnique(h, a, b, y);
      }
    }
    assert forall b | Live(g, b) :: Covers(g.blocks, b, y) <==> Covers(h.blocks, b, y);
  }

  lemma UsedIs(h: Heap, a: nat)
    ensures a in Used(h) <==> Live(h, a)
    ensures a in Used(h) ==> Used(h)[a] == h.blocks[a].scale
  {
  }

  /** The bytes of the last 32 KiB that are not free all belong to the block that is freed. */
  ghost predicate LastRegionClears(h: Heap, a: nat) {
    && h.brk >= MAX_BLOCK_SIZE && h.brk - MAX_BLOCK_SIZE <= a
    && forall y: nat | h.brk - MAX_BLOCK_SIZE <= y < h.brk :: ByteFree(h, y) || Covers(h.blocks, a, y)
  }

  lemma TrimBreak(h: Heap, a: nat)
    requires Inv(h) && Free(h, a)
    ensures Trim(h, a).brk ==
      if h.blocks[a].scale == MAX_BLOCK_SCALE && h.brk == a + MAX_BLOCK_SIZE then h.brk - MAX_BLOCK_SIZE else h.brk
  {
    hide Aligned, Pow2, Tiling, ListsOk, Coalesced, ShrinkTo;
    BlockFacts(h, a);
    if h.blocks[a].scale == MAX_BLOCK_SCALE && h.brk == a + MAX_BLOCK_SIZE {
      HeapRoundTrip.ShrinkOnce(h);
    }
  }

  lemma LastRegion(h: Heap, a: nat)
    requires Inv(h) && a in h.blocks
    ensures HEAP_LOWER_BOUND + MAX_BLOCK_SIZE <= h.brk && At(h.brk - MAX_BLOCK_SIZE, MAX_BLOCK_SCALE)
    ensures HEAP_LOWER_BOUND <= a < h.brk && Pow2(MAX_BLOCK_SCALE) == MAX_BLOCK_SIZE
  {
    hide Aligned, Pow2, Tiling, ListsOk, Coalesced;
    BlockFacts(h, a);
    Pow2Facts(0);
    LastBlock(h);
  }

  /** Wholly free, the last 32 KiB are one block. */
  lemma FreeLastRegion(h: Heap, a: nat)
    requires Inv(h) && Free(h, a) && h.brk >= HEAP_LOWER_BOUND + MAX_BLOCK_SIZE && h.brk - MAX_BLOCK_SIZE <= a
    requires forall y: nat | h.brk - MAX_BLOCK_SIZE <= y < h.brk :: ByteFree(h, y)
    ensures a == h.brk - MAX_BLOCK_SIZE && h.blocks[a].scale == MAX_BLOCK_SCALE
  {
    hide Aligned, Pow2, Tiling, ListsOk, Coalesced, ByteFree, At;
    var l := h.brk - MAX_BLOCK_SIZE;
    LastRegion(h, a);
    var b := FreeRegionInOneBlock(h, l, MAX_BLOCK_SCALE);
    HoldsScale(h, b, l, MAX_BLOCK_SCALE);
    BlockFacts(h, b);
    ScaleBound(h, a);
    CoverUnique(h, a, b, a);
  }

  /** `free` gives up the last 32 KiB exactly when they hold nothing in use but the freed block, and never
      more than that. */
  lemma ReleaseBreak(h: Heap, a: nat)
    requires Inv(h) && Live(h, a)
    ensures HeapOperations.Release(h, a).brk == if LastRegionClears(h, a) then h.brk - MAX_BLOCK_SIZE else h.brk
  {
    hide Inv, HeapOperations.Release, Joined, Trim, ByteFree, Covers;
    var (g, c) := Joined(h, a);
    JoinedFacts(h, a);
    TrimBreak(g, c);
    LastRegion(h, a);
    forall y: nat | h.brk - MAX_BLOCK_SIZE <= y < h.brk
      ensures ByteFree(g, y) <==> ByteFree(h, y) || Covers(h.blocks, a, y)
    {
      JoinedByte(h, a, y);
    }
    if g.blocks[c].scale == MAX_BLOCK_SCALE && g.brk == c + MAX_BLOCK_SIZE {
      BlockBytesFree(g, c);
    } else if LastRegionClears(h, a) {
      AlignedStart(g, c, a);
      FreeLastRegion(g, c);
    }
  }

  lemma BlockBytesFree(h: Heap, a: nat)
    requires Free(h, a)
    ensures forall y: nat | a <= y < a + Pow2(h.blocks[a].scale) :: ByteFree(h, y)
  {
    forall y: nat | a <= y < a + Pow2(h.blocks[a].scale)
      ensures ByteFree(h, y)
    {
      assert Covers(h.blocks, a, y);
    }
  }

  /** A block that covers a byte of the last 32 KiB starts there. */
  lemma AlignedStart(h: Heap, c: nat, x: nat)
    requires Inv(h) && Covers(h.blocks, c, x) && h.brk >= HEAP_LOWER_BOUND + MAX_BLOCK_SIZE
    requires h.brk - MAX_BLOCK_SIZE <= x < h.brk
    ensures h.brk - MAX_BLOCK_SIZE <= c
  {
    hide Aligned, Pow2, Tiling, ListsOk, Coalesced;
    LastRegion(h, c);
    BlockFacts(h, c);
    Nested(c, h.blocks[c].scale, h.brk - MAX_BLOCK_SIZE, MAX_BLOCK_SCALE);
  }
}
