/** Each primitive transition keeps the heap invariant. */
module HeapTransitions {
  import opened PowersOfTwo
  import opened HeapState

  // ----- helpers -----

  /** Changing only `free` flags keeps the tiling. */
  lemma RelabelTiling(brk: nat, blocks: map<nat, Block>, blocks': map<nat, Block>)
    requires Tiling(brk, blocks)
    requires blocks'.Keys == blocks.Keys
    requires forall a | a in blocks :: blocks'[a].scale == blocks[a].scale
    ensures Tiling(brk, blocks')
  {
    hide Aligned, Pow2;
    forall x | HEAP_LOWER_BOUND <= x < brk
      ensures Covered(blocks', x)
    {
      assert Covered(blocks, x);
      var c :| c in blocks && Covers(blocks, c, x);
      assert Covers(blocks', c, x);
    }
    forall a | a in blocks'
      ensures BlockOk(brk, a, blocks'[a])
    {
      assert a in blocks && BlockOk(brk, a, blocks[a]);
    }
  }

  /** No transition that frees nothing can create a pair of free buddies. */
  lemma StaysCoalesced(h: Heap, t: Heap)
    requires Coalesced(h)
    requires forall b | b in t.blocks && t.blocks[b].free :: b in h.blocks && h.blocks[b] == t.blocks[b]
    ensures Coalesced(t)
  {
    hide Aligned, Pow2;
    forall b | b in t.blocks && t.blocks[b].free && t.blocks[b].scale < MAX_BLOCK_SCALE && At(b, t.blocks[b].scale)
      ensures !FreeBuddy(t, b, t.blocks[b].scale)
    {
      assert !FreeBuddy(h, b, h.blocks[b].scale);
    }
  }

  /** A transition that leaves the lists and the set of free blocks alone keeps them in agreement. */
  lemma StaysListed(h: Heap, t: Heap)
    requires ListsOk(h) && t.lists == h.lists
    requires forall b | b in t.blocks && t.blocks[b].free :: b in h.blocks && h.blocks[b] == t.blocks[b]
    requires forall b | b in h.blocks && h.blocks[b].free :: b in t.blocks && h.blocks[b] == t.blocks[b]
    ensures ListsOk(t)
  {
    hide Aligned, Pow2;
  }

  /** Where a block of a tiling stands. */
  lemma BlockFacts(h: Heap, a: nat)
    requires Tiling(h.brk, h.blocks) && a in h.blocks
    ensures MIN_BLOCK_SCALE <= h.blocks[a].scale <= MAX_BLOCK_SCALE
    ensures At(a, h.blocks[a].scale) && a + Pow2(h.blocks[a].scale) <= h.brk
  {
    hide Aligned, Pow2;
    assert BlockOk(h.brk, a, h.blocks[a]);
  }

  // ----- Take -----

  lemma TakeLists(h: Heap, a: nat)
    requires ListsOk(h) && Free(h, a)
    ensures h.blocks[a].scale < |h.lists| && ListsOk(Take(h, a))
  {
    hide Aligned, Pow2;
    RemoveNoDup(h.lists[h.blocks[a].scale], a);
  }

  lemma TakeInv(h: Heap, a: nat)
    requires Inv(h) && Free(h, a)
    ensures Inv(Take(h, a))
  {
    hide Aligned, Pow2, Tiling, ListsOk, Coalesced;
    TakeLists(h, a);
    var t := Take(h, a);
    RelabelTiling(h.brk, h.blocks, t.blocks);
    StaysCoalesced(h, t);
  }

  // ----- Push -----

  lemma PushLists(h: Heap, a: nat)
    requires ListsOk(h) && Live(h, a) && h.blocks[a].scale <= MAX_BLOCK_SCALE
    ensures h.blocks[a].scale < |h.lists| && ListsOk(Push(h, a))
  {
    hide Aligned, Pow2;
    var k := h.blocks[a].scale;
    var l := [a] + h.lists[k];
    assert a !in h.lists[k];
    assert forall b :: b in l <==> b == a || b in h.lists[k];
  }

  lemma PushCoalesced(h: Heap, a: nat)
    requires Coalesced(h) && Live(h, a) && At(a, h.blocks[a].scale) && h.blocks[a].scale < |h.lists|
    requires h.blocks[a].scale < MAX_BLOCK_SCALE ==> !FreeBuddy(h, a, h.blocks[a].scale)
    ensures Coalesced(Push(h, a))
  {
    hide Aligned, Pow2;
    var t := Push(h, a);
    forall b | b in t.blocks && t.blocks[b].free && t.blocks[b].scale < MAX_BLOCK_SCALE && At(b, t.blocks[b].scale)
      ensures !FreeBuddy(t, b, t.blocks[b].scale)
    {
      BuddyProperties(b, t.blocks[b].scale);
      if b != a {
        assert !FreeBuddy(h, b, h.blocks[b].scale);
      }
    }
  }

  lemma PushInv(h: Heap, a: nat)
    requires Inv(h) && Live(h, a) && At(a, h.blocks[a].scale)
    requires h.blocks[a].scale < MAX_BLOCK_SCALE ==> !FreeBuddy(h, a, h.blocks[a].scale)
    ensures Inv(Push(h, a))
  {
    hide Aligned, Pow2, Tiling, ListsOk, Coalesced;
    BlockFacts(h, a);
    PushLists(h, a);
    PushCoalesced(h, a);
    RelabelTiling(h.brk, h.blocks, Push(h, a).blocks);
  }

  // ----- Cleave -----

  lemma CleaveGeometry(h: Heap, a: nat)
    requires Tiling(h.brk, h.blocks) && a in h.blocks && h.blocks[a].scale > MIN_BLOCK_SCALE
    ensures var k := h.blocks[a].scale - 1;
      && a + Pow2(k) !in h.blocks && At(a, k + 1) && At(a, k) && At(a + Pow2(k), k)
      && Buddy(a, k) == a + Pow2(k)
  {
    hide Aligned, Pow2;
    Pow2Facts(h.blocks[a].scale - 1);
    BlockFacts(h, a);
    var k := h.blocks[a].scale - 1;
    AlignedWeaken(a - HEAP_LOWER_BOUND, k, k + 1);
    AlignedStep(a - HEAP_LOWER_BOUND, k);
  }

  lemma CleaveCover(h: Heap, a: nat, x: nat)
    requires Tiling(h.brk, h.blocks) && a in h.blocks && h.blocks[a].scale > MIN_BLOCK_SCALE
    requires HEAP_LOWER_BOUND <= x < h.brk
    ensures Covered(Cleave(h, a).blocks, x)
  {
    hide Aligned, Pow2;
    Pow2Facts(h.blocks[a].scale - 1);
    var b := a + Pow2(h.blocks[a].scale - 1);
    CleaveGeometry(h, a);
    assert Covered(h.blocks, x);
    var c :| c in h.blocks && Covers(h.blocks, c, x);
    assert Covers(Cleave(h, a).blocks, if c == a && x >= b then b else c, x);
  }

  lemma CleaveTiling(h: Heap, a: nat)
    requires Tiling(h.brk, h.blocks) && a in h.blocks && h.blocks[a].scale > MIN_BLOCK_SCALE
    ensures Tiling(h.brk, Cleave(h, a).blocks)
  {
    hide Aligned, Pow2;
    Pow2Facts(h.blocks[a].scale - 1);
    var bs, t := h.blocks, Cleave(h, a).blocks;
    var u := a + Pow2(bs[a].scale - 1);
    CleaveGeometry(h, a);
    forall x | HEAP_LOWER_BOUND <= x < h.brk
      ensures Covered(t, x)
    {
      CleaveCover(h, a, x);
    }
    forall c | c in t
      ensures BlockOk(h.brk, c, t[c])
    {
      BlockFacts(h, if c == u then a else c);
    }
    forall c, d | c in t && d in t && c < d
      ensures c + Pow2(t[c].scale) <= d
    {
      var c', d' := if c == u then a else c, if d == u then a else d;
      assert c' in bs && d' in bs && (c' < d' ==> c' + Pow2(bs[c'].scale) <= d');
    }
  }

  lemma CleaveInv(h: Heap, a: nat)
    requires Inv(h) && Live(h, a) && h.blocks[a].scale > MIN_BLOCK_SCALE
    ensures Inv(Cleave(h, a))
  {
    hide Aligned, Pow2, Tiling, ListsOk, Coalesced;
    CleaveGeometry(h, a);
    CleaveTiling(h, a);
    StaysListed(h, Cleave(h, a));
    StaysCoalesced(h, Cleave(h, a));
  }

  // ----- Fuse -----

  ghost predicate CanFuse(h: Heap, a: nat) {
    && Live(h, a) && h.blocks[a].scale < MAX_BLOCK_SCALE && At(a, h.blocks[a].scale)
    && Buddy(a, h.blocks[a].scale) in h.blocks && h.blocks[Buddy(a, h.blocks[a].scale)] == h.blocks[a]
  }

  lemma FuseCover(h: Heap, a: nat, x: nat)
    requires Tiling(h.brk, h.blocks) && CanFuse(h, a)
    requires HEAP_LOWER_BOUND <= x < h.brk
    ensures Covered(Fuse(h, a).blocks, x)
  {
    hide Aligned, Pow2;
    Pow2Facts(h.blocks[a].scale);
    var k := h.blocks[a].scale;
    BuddyProperties(a, k);
    assert Covered(h.blocks, x);
    var c :| c in h.blocks && Covers(h.blocks, c, x);
    assert Covers(Fuse(h, a).blocks, if c == Upper(a, k) then Lower(a, k) else c, x);
  }

  lemma FuseTiling(h: Heap, a: nat)
    requires Tiling(h.brk, h.blocks) && CanFuse(h, a)
    ensures Tiling(h.brk, Fuse(h, a).blocks)
  {
    hide Aligned, Pow2;
    Pow2Facts(h.blocks[a].scale);
    var k := h.blocks[a].scale;
    var l, u := Lower(a, k), Upper(a, k);
    var bs, t := h.blocks, Fuse(h, a).blocks;
    BuddyProperties(a, k);
    assert l in bs && u in bs && bs[l].scale == k && bs[u].scale == k;
    BlockFacts(h, l);
    BlockFacts(h, u);
    forall x | HEAP_LOWER_BOUND <= x < h.brk
      ensures Covered(t, x)
    {
      FuseCover(h, a, x);
    }
    forall c | c in t
      ensures BlockOk(h.brk, c, t[c])
    {
      BlockFacts(h, c);
    }
    forall c, d | c in t && d in t && c < d
      ensures c + Pow2(t[c].scale) <= d
    {
      assert c in bs && d in bs && c + Pow2(bs[c].scale) <= d;
      assert d != u;
    }
  }

  lemma FuseInv(h: Heap, a: nat)
    requires Inv(h) && CanFuse(h, a)
    ensures Inv(Fuse(h, a))
  {
    hide Aligned, Pow2, Tiling, ListsOk, Coalesced;
    BuddyProperties(a, h.blocks[a].scale);
    FuseTiling(h, a);
    StaysListed(h, Fuse(h, a));
    StaysCoalesced(h, Fuse(h, a));
  }

  // ----- Extend and Drop -----

  lemma ExtendCover(h: Heap, x: nat)
    requires Tiling(h.brk, h.blocks) && h.brk !in h.blocks
    requires HEAP_LOWER_BOUND <= x < Extend(h).brk
    ensures Covered(Extend(h).blocks, x)
  {
    hide Aligned, Pow2;
    Pow2Facts(0);
    if x >= h.brk {
      assert Covers(Extend(h).blocks, h.brk, x);
    } else {
      assert Covered(h.blocks, x);
      var c :| c in h.blocks && Covers(h.blocks, c, x);
      assert Covers(Extend(h).blocks, c, x);
    }
  }

  lemma ExtendInv(h: Heap)
    requires Inv(h)
    ensures h.brk !in h.blocks && Inv(Extend(h))
  {
    hide Aligned, Pow2;
    Pow2Facts(0);
    var t := Extend(h);
    assert forall c | c in h.blocks :: BlockOk(h.brk, c, h.blocks[c]) && c < h.brk;
    AlignedStep(h.brk - HEAP_LOWER_BOUND, MAX_BLOCK_SCALE);
    forall x | HEAP_LOWER_BOUND <= x < t.brk
      ensures Covered(t.blocks, x)
    {
      ExtendCover(h, x);
    }
    forall c | c in t.blocks
      ensures BlockOk(t.brk, c, t.blocks[c])
    {
      assert c != h.brk ==> BlockOk(h.brk, c, h.blocks[c]);
    }
    StaysCoalesced(h, t);
  }

  lemma DropInv(h: Heap)
    requires Inv(h) && h.brk >= MAX_BLOCK_SIZE && Live(h, h.brk - MAX_BLOCK_SIZE)
    requires h.blocks[h.brk - MAX_BLOCK_SIZE].scale == MAX_BLOCK_SCALE
    ensures Inv(Drop(h))
  {
    hide Aligned, Pow2;
    Pow2Facts(0);
    var t := Drop(h);
    BlockFacts(h, t.brk);
    forall x | HEAP_LOWER_BOUND <= x < t.brk
      ensures Covered(t.blocks, x)
    {
      assert Covered(h.blocks, x);
      var c :| c in h.blocks && Covers(h.blocks, c, x);
      assert Covers(t.blocks, c, x);
    }
    forall c | c in t.blocks
      ensures BlockOk(t.brk, c, t.blocks[c])
    {
      BlockFacts(h, c);
    }
    StaysCoalesced(h, t);
  }
}
