/** Maximal coalescing: free memory never hides from `allocate`. */
module HeapRegions {
  import opened PowersOfTwo
  import opened HeapState
  import opened HeapTransitions
  import opened HeapOperations

  ghost predicate ByteFree(h: Heap, x: nat) {
    exists a :: Free(h, a) && Covers(h.blocks, a, x)
  }

  /** An aligned region of size `2^k` inside the heap, all of whose bytes are free. */
  ghost predicate FreeRegion(h: Heap, x: nat, k: nat) {
    && At(x, k) && x + Pow2(k) <= h.brk
    && (forall y | x <= y < x + Pow2(k) :: ByteFree(h, y))
  }

  ghost predicate Holds(h: Heap, a: nat, x: nat, k: nat) {
    Free(h, a) && a <= x && x + Pow2(k) <= a + Pow2(h.blocks[a].scale)
  }

  /** A free block that holds an aligned region either has just that scale or holds its parent. */
  lemma HoldsHalf(h: Heap, a: nat, x: nat, k: nat, p: nat)
    requires Inv(h) && Holds(h, a, x, k) && At(x, k) && At(p, k + 1)
    requires p == x || p + Pow2(k) == x
    ensures Holds(h, a, p, k + 1) || (a == x && h.blocks[a].scale == k)
  {
    hide Aligned, Pow2, Tiling, ListsOk, Coalesced;
    Pow2Facts(k);
    BlockFacts(h, a);
    var s := h.blocks[a].scale;
    if s > k {
      Nested(p, k + 1, a, s);
    } else {
      Nested(a, s, x, k);
      Pow2Monotone(s, k);
      if s < k {
        Pow2Facts(s);
        Pow2Monotone(s + 1, k);
      }
    }
  }

  /** Two free blocks of one scale below the largest are never buddies. */
  lemma NotBothFree(h: Heap, x: nat, k: nat)
    requires Inv(h) && At(x, k + 1) && At(x, k) && k < MAX_BLOCK_SCALE
    ensures !(Free(h, x) && h.blocks[x].scale == k && Free(h, x + Pow2(k)) && h.blocks[x + Pow2(k)].scale == k)
  {
    hide Aligned, Pow2, Tiling, ListsOk;
    BuddyProperties(x, k);
    assert Free(h, x) && h.blocks[x].scale == k ==> !FreeBuddy(h, x, h.blocks[x].scale);
  }

  lemma HalvesFree(h: Heap, x: nat, k: nat)
    requires k > 0 && FreeRegion(h, x, k)
    ensures FreeRegion(h, x, k - 1) && At(x + Pow2(k - 1), k - 1) && FreeRegion(h, x + Pow2(k - 1), k - 1)
  {
    hide Aligned, Pow2, ByteFree;
    Pow2Facts(k - 1);
    AlignedWeaken(x - HEAP_LOWER_BOUND, k - 1, k);
    AlignedStep(x - HEAP_LOWER_BOUND, k - 1);
  }

  /** Any aligned region made only of free bytes lies inside one free block. */
  lemma {:induction false} FreeRegionInOneBlock(h: Heap, x: nat, k: nat) returns (a: nat)
    requires Inv(h) && k <= MAX_BLOCK_SCALE && FreeRegion(h, x, k)
    ensures Holds(h, a, x, k)
    decreases k
  {
    hide Aligned, Tiling, ListsOk, Coalesced, At;
    if k == 0 {
      assert ByteFree(h, x);
      a :| Free(h, a) && Covers(h.blocks, a, x);
    } else {
      var u := x + Pow2(k - 1);
      HalvesFree(h, x, k);
      a := FreeRegionInOneBlock(h, x, k - 1);
      var b := FreeRegionInOneBlock(h, u, k - 1);
      HoldsHalf(h, a, x, k - 1, x);
      HoldsHalf(h, b, u, k - 1, x);
      if Holds(h, b, x, k) {
        a := b;
      } else if !Holds(h, a, x, k) {
        NotBothFree(h, x, k - 1);
      }
    }
  }

  lemma BlockIsFreeRegion(h: Heap, a: nat, r: nat)
    requires Inv(h) && Free(h, a) && r <= h.blocks[a].scale
    ensures FreeRegion(h, a, r)
  {
    hide Aligned, Pow2, Tiling, ListsOk, Coalesced;
    BlockFacts(h, a);
    AlignedWeaken(a - HEAP_LOWER_BOUND, r, h.blocks[a].scale);
    Pow2Monotone(r, h.blocks[a].scale);
    forall y | a <= y < a + Pow2(r)
      ensures ByteFree(h, y)
    {
      assert Free(h, a) && Covers(h.blocks, a, y);
    }
  }

  /** A free list of sufficient scale is found exactly when there is a free aligned region of the
      request's scale anywhere in the heap. */
  lemma FitIffFreeRegion(h: Heap, r: nat)
    requires Inv(h) && r <= MAX_BLOCK_SCALE
    ensures FitScale(h, r) <= MAX_BLOCK_SCALE <==> exists x :: FreeRegion(h, x, r)
  {
    hide Aligned, Pow2, Tiling, Coalesced, FreeRegion;
    var k := FitScale(h, r);
    if k <= MAX_BLOCK_SCALE {
      var a := h.lists[k][0];
      assert a in h.lists[k];
      BlockIsFreeRegion(h, a, r);
    }
    if x :| FreeRegion(h, x, r) {
      var a := FreeRegionInOneBlock(h, x, r);
      HoldsScale(h, a, x, r);
      assert a in h.lists[h.blocks[a].scale];
    }
  }

  lemma HoldsScale(h: Heap, a: nat, x: nat, r: nat)
    requires Inv(h) && Holds(h, a, x, r)
    ensures r <= h.blocks[a].scale <= MAX_BLOCK_SCALE
  {
    hide Aligned, Pow2, Tiling, ListsOk, Coalesced;
    BlockFacts(h, a);
    var s := h.blocks[a].scale;
    if s < r {
      Pow2Facts(s);
      Pow2Monotone(s + 1, r);
    }
  }

  /** `allocate` grows the heap exactly when no free aligned region of the request's scale exists. */
  lemma AllocateGrowsIff(h: Heap, n: nat)
    requires Inv(h) && 0 < n <= MAX_REQUEST
    ensures Allocate(h, n).0.brk > h.brk <==> !exists x :: FreeRegion(h, x, RequestScale(n))
  {
    hide Aligned, Pow2, Tiling, Coalesced, FreeRegion, RequestScale, FitScale;
    var r := RequestScale(n);
    FitIffFreeRegion(h, r);
    var k := FitScale(h, r);
    if k <= MAX_BLOCK_SCALE {
      SplitKeepsBrk(TakeHead(h, k).0, h.lists[k][0], r);
    } else {
      FitAfterGrow(h, r);
    }
  }

  lemma {:induction false} SplitKeepsBrk(h: Heap, a: nat, r: nat)
    requires Inv(h) && Live(h, a) && MIN_BLOCK_SCALE <= r <= h.blocks[a].scale
    ensures SplitTo(h, a, r).brk == h.brk
    decreases h.blocks[a].scale
  {
    hide Aligned, Pow2, Tiling, ListsOk, Coalesced;
    if h.blocks[a].scale > r {
      SplitKeepsBrk(Halve(h, a), a, r);
    }
  }
}
