/** The buddy allocator itself: headers and list heads in memory, rewritten in place. */
module HeapManager {
  import opened PowersOfTwo
  import opened HeapState
  import opened HeapTransitions
  import opened HeapOperations
  import opened FreeLists

  datatype Memory = Memory(next: Links, prev: Links, scale: imap<nat, nat>, isFree: imap<nat, bool>)

  /** Memory is four maps, one for each header field, total because every address holds something;
      nothing is known of the words that are not in a header. Addresses are multiples of 16, so
      the header at one address never overlaps the header at another. */
  class Manager {
    var currentBrk: nat
    var next: Links
    var prev: Links
    var scale: imap<nat, nat>
    var isFree: imap<nat, bool>
    ghost var h: Heap

    /** The headers in memory are those of the abstract heap. */
    ghost predicate Represents(loose: set<nat>)
      reads this
    {
      Linked(next, prev, h, loose) && Tagged(scale, isFree, h, loose)
    }

    ghost predicate Valid()
      reads this
    {
      Inv(h) && h.brk == currentBrk && Represents({})
    }

    /** `init_heap`, on memory of any content: empty lists, then one block. */
    constructor InitHeap(heapAddr: nat, memory: Memory)
      requires heapAddr == HEAP_LOWER_BOUND && AllTotal(memory)
      ensures Valid() && h == InitialHeap()
    {
      hide Inv, Linked, Tagged, SameOutside, HeapOperations.Brk;
      currentBrk := heapAddr;
      next, prev, scale, isFree := memory.next, memory.prev, memory.scale, memory.isFree;
      h := EmptyHeap();
      new;
      for i := MIN_BLOCK_SCALE to MAX_BLOCK_SCALE + 1
        invariant Total(next) && Total(prev) && scale == memory.scale && isFree == memory.isFree
        invariant currentBrk == HEAP_LOWER_BOUND && h == EmptyHeap()
        invariant forall k | MIN_BLOCK_SCALE <= k < i :: next[Head(k)] == Head(k)
      {
        prev := prev[Head(i) := Head(i)];
        next := next[Head(i) := Head(i)];
      }
      EmptyMemory(next, prev, scale, isFree);
      EmptyInv();
      GrowByOne(h);
      var _ := Sbrk(1);
    }

    ghost function Mem(): Memory
      reads this
    {
      Memory(next, prev, scale, isFree)
    }

    /** No memory outside the headers at the addresses in `headers` has been written. */
    twostate predicate OnlyHeaders(headers: set<nat>)
      reads this
    {
      SameOutside(old(Mem()), Mem(), headers)
    }

    function IsEndOfList(node: Node): bool
      requires Total(next)
      reads this
    {
      next[node] == node
    }

    method AddToFreeList(block: nat)
      requires ListsOk(h) && Represents({block}) && Live(h, block)
      requires MIN_BLOCK_SCALE <= h.blocks[block].scale <= MAX_BLOCK_SCALE
      modifies this
      ensures h == Push(old(h), block) && Represents({})
      ensures currentBrk == old(currentBrk) && OnlyHeaders(old(h).blocks.Keys)
    {
      hide Chain, ListsOk, Linked, Tagged, Push, SameLinks;
      MemoryFacts(next, prev, scale, isFree, h, {block});
      HeadPoints(next, prev, h, h.blocks[block].scale, {block});
      var blk := Blk(block);
      var list := Head(scale[block]);
      if IsEndOfList(list) {
        next := next[blk := blk];
      } else {
        prev := prev[next[list] := blk];
        next := next[blk := next[list]];
      }
      next := next[list := blk];
      prev := prev[blk := list];
      isFree := isFree[block := true];
      LinkedPush(old(next), old(prev), next, prev, h, block);
      PushTouches(old(next), old(prev), next, prev, old(h).blocks[block].scale,
                  old(h).lists[old(h).blocks[block].scale] == [], block, old(h).blocks.Keys);
      TaggedPush(scale, old(isFree), h, block);
      h := Push(h, block);
    }

    method RemoveFromFreeList(block: nat)
      requires ListsOk(h) && Represents({}) && HeapState.Free(h, block)
      requires MIN_BLOCK_SCALE <= h.blocks[block].scale <= MAX_BLOCK_SCALE
      modifies this
      ensures h == Take(old(h), block) && Represents({})
      ensures currentBrk == old(currentBrk) && OnlyHeaders(old(h).blocks.Keys)
    {
      hide Chain, ListsOk, Linked, Tagged, Take, SameLinks;
      MemoryFacts(next, prev, scale, isFree, h, {});
      BlockPoints(next, prev, h, block);
      var blk := Blk(block);
      if IsEndOfList(blk) {
        next := next[prev[blk] := prev[blk]];
      } else {
        next := next[prev[blk] := next[blk]];
        prev := prev[next[blk] := prev[blk]];
      }
      prev := prev[blk := blk];
      next := next[blk := blk];
      isFree := isFree[block := false];
      LinkedTake(old(next), old(prev), next, prev, h, block);
      TakeTouches(old(next), old(prev), next, prev, block, old(h).blocks.Keys);
      TaggedTake(scale, old(isFree), h, block);
      h := Take(h, block);
    }

    /** Unlinks and returns the smallest sufficient free block, or returns 0. */
    method FindFit(requestScale: nat) returns (bestFit: nat)
      requires Valid() && MIN_BLOCK_SCALE <= requestScale <= MAX_BLOCK_SCALE
      modifies this
      ensures Valid() && currentBrk == old(currentBrk) && OnlyHeaders(old(h).blocks.Keys)
      ensures var k := FitScale(old(h), requestScale);
        if k <= MAX_BLOCK_SCALE then (h, bestFit) == TakeHead(old(h), k) else h == old(h) && bestFit == 0
    {
      hide SameOutside, Chain, ListsOk, Linked, Tagged, Take, Tiling, Coalesced, Aligned, Pow2, FitScale;
      MemoryFacts(next, prev, scale, isFree, h, {});
      SameRefl(Mem(), h.blocks.Keys);
      var searchScale := requestScale;
      var curr := Head(searchScale);
      HeadPoints(next, prev, h, searchScale, {});
      FitStep(h, searchScale);
      while IsEndOfList(curr) && searchScale < MAX_BLOCK_SCALE
        invariant requestScale <= searchScale <= MAX_BLOCK_SCALE && curr == Head(searchScale)
        invariant FitScale(h, searchScale) == FitScale(h, requestScale)
        invariant IsEndOfList(curr) <==> h.lists[searchScale] == []
        modifies {}
      {
        FitStep(h, searchScale);
        searchScale := searchScale + 1;
        curr := Head(searchScale);
        HeadPoints(next, prev, h, searchScale, {});
      }
      FitStep(h, searchScale);
      HeadPoints(next, prev, h, searchScale, {});
      bestFit := 0;
      if !IsEndOfList(curr) {
        HeadAboveBound(h, searchScale);
      }
      if !IsEndOfList(curr) && next[curr] != NULL {
        curr := next[curr];
        bestFit := curr.a;
        TakeHeadFacts(h, searchScale);
        RemoveFromFreeList(bestFit);
        TagAt(scale, isFree, h, bestFit);
        assert isFree[bestFit := false] == isFree;
        isFree := isFree[bestFit := false];
      }
    }

    /** Halves a used block; a block of the smallest scale, or NULL, is left alone. */
    method SplitBlock(block: nat)
      requires Valid() && (block == 0 || Live(h, block))
      modifies this
      ensures Valid() && currentBrk == old(currentBrk) && OnlyHeaders(h.blocks.Keys)
      ensures old(h).blocks.Keys <= h.blocks.Keys
      ensures h == if block == 0 || old(h).blocks[block].scale <= MIN_BLOCK_SCALE then old(h) else Halve(old(h), block)
    {
      hide SameOutside, Chain, ListsOk, Linked, Tagged, Push, Tiling, Coalesced, Aligned, Pow2;
      MemoryFacts(next, prev, scale, isFree, h, {});
      SameRefl(Mem(), h.blocks.Keys);
      if block == 0 || scale[block] <= MIN_BLOCK_SCALE {
        return;
      }
      SplitFacts(h, block);
      ghost var m0, keys := Mem(), Cleave(h, block).blocks.Keys;
      ScaleTouches(m0, block, scale[block] - 1, keys);
      scale := scale[block := scale[block] - 1];
      ghost var m1 := Mem();
      var newBlock := block + Pow2(scale[block]);
      ScaleTouches(m1, newBlock, scale[block], keys);
      scale := scale[newBlock := scale[block]];
      ghost var m2 := Mem();
      SameTrans(m0, m1, m2, keys, keys, keys);
      h := Cleave(h, block);
      CleaveMemory(next, prev, old(scale), isFree, old(h), block);
      AddToFreeList(newBlock);
      SameTrans(m0, m2, Mem(), keys, keys, keys);
    }

    /** Where a block of the given scale looks for its buddy. */
    method BuddyOf(block: nat, k: nat) returns (offset: int)
      requires At(block, k)
      ensures block + offset == Buddy(block, k) && (offset < 0 <==> Buddy(block, k) < block)
    {
      hide Aligned, Pow2;
      var blockOffset := block - HEAP_LOWER_BOUND;
      AlignedIsMod(blockOffset, k + 1);
      AlignedStep(blockOffset, k);
      offset := Pow2(k);
      if blockOffset % Pow2(k + 1) != 0 {
        offset := -offset;
      }
    }

    /** One merge: the free buddy leaves its list, and the earlier of the two headers grows. */
    method MergeBuddy(block: nat, buddy: nat, buddyOffset: int) returns (currBlock: nat)
      requires Valid() && Live(h, block) && CanAbsorb(h, block)
      requires At(block, h.blocks[block].scale) && buddy == Buddy(block, h.blocks[block].scale)
      requires buddy == block + buddyOffset
      modifies this
      ensures Valid() && currentBrk == old(currentBrk) && OnlyHeaders(old(h).blocks.Keys)
      ensures h.blocks.Keys <= old(h).blocks.Keys
      ensures (h, currBlock) == Absorb(old(h), block)
    {
      hide SameOutside, Chain, ListsOk, Linked, Tagged, Take, Fuse, Tiling, Coalesced, Aligned, Pow2, Lower, Upper;
      hide Coalesce, Absorb, CanAbsorb, CanFuse, Buddy;
      AbsorbFacts(h, block);
      ghost var m0, keys := Mem(), h.blocks.Keys;
      RemoveFromFreeList(buddy);
      ghost var m1 := Mem();
      currBlock := if buddyOffset < 0 then buddy else block;
      MemoryFacts(next, prev, scale, isFree, h, {});
      FuseMemory(next, prev, scale, isFree, h, block);
      ScaleTouches(m1, currBlock, scale[currBlock] + 1, keys);
      scale := scale[currBlock := scale[currBlock] + 1];
      SameTrans(m0, m1, Mem(), keys, keys, keys);
      h := Fuse(h, block);
    }

    /** Merges a used block with its buddy for as long as the buddy is free. */
    method CoalesceBlock(block: nat) returns (currBlock: nat)
      requires Valid() && Live(h, block)
      modifies this
      ensures Valid() && currentBrk == old(currentBrk) && OnlyHeaders(old(h).blocks.Keys)
      ensures h.blocks.Keys <= old(h).blocks.Keys
      ensures (h, currBlock) == Coalesce(old(h), block)
    {
      hide SameOutside, Chain, ListsOk, Linked, Tagged, Take, Fuse, Tiling, Coalesced, Aligned, Pow2, Lower, Upper;
      hide Inv, Coalesce, Absorb, CanAbsorb, CanFuse, Buddy;
      currBlock := block;
      MemoryFacts(next, prev, scale, isFree, h, {});
      ghost var m0, keys := Mem(), h.blocks.Keys;
      SameRefl(m0, keys);
      ScaleFacts(h, currBlock);
      var buddyOffset := BuddyOf(currBlock, scale[currBlock]);
      var buddy := currBlock + buddyOffset;
      AbsorbTest(scale, isFree, h, currBlock);
      while isFree[buddy] && scale[buddy] == scale[currBlock] && scale[currBlock] < MAX_BLOCK_SCALE
        invariant Valid() && Live(h, currBlock) && currentBrk == old(currentBrk)
        invariant Total(scale) && Total(isFree) && scale[currBlock] == h.blocks[currBlock].scale <= MAX_BLOCK_SCALE
        invariant At(currBlock, scale[currBlock]) && buddy == Buddy(currBlock, scale[currBlock])
        invariant buddy == currBlock + buddyOffset
        invariant Coalesce(h, currBlock) == Coalesce(old(h), block)
        invariant isFree[buddy] && scale[buddy] == scale[currBlock] && scale[currBlock] < MAX_BLOCK_SCALE
          <==> CanAbsorb(h, currBlock)
        invariant h.blocks.Keys <= keys && SameOutside(m0, Mem(), keys)
        decreases MAX_BLOCK_SCALE - scale[currBlock]
      {
        CoalesceStep(h, currBlock);
        ghost var m1, keys1 := Mem(), h.blocks.Keys;
        currBlock := MergeBuddy(currBlock, buddy, buddyOffset);
        SameTrans(m0, m1, Mem(), keys, keys1, keys);
        MemoryFacts(next, prev, scale, isFree, h, {});
        ScaleFacts(h, currBlock);
        buddyOffset := BuddyOf(currBlock, scale[currBlock]);
        buddy := currBlock + buddyOffset;
        AbsorbTest(scale, isFree, h, currBlock);
      }
      CoalesceStep(h, currBlock);
    }

    /** One round of raising the break: a new free block of the largest scale. */
    method CreateBlock()
      requires Valid()
      modifies this
      ensures Valid() && h == Grow(old(h)) && OnlyHeaders(h.blocks.Keys)
      ensures old(h).blocks.Keys <= h.blocks.Keys
    {
      hide SameOutside, Chain, ListsOk, Linked, Tagged, Push, Tiling, Coalesced, Aligned, Pow2;
      GrowFacts(h);
      MemoryFacts(next, prev, scale, isFree, h, {});
      var bigBlock := currentBrk;
      ghost var m0, keys := Mem(), Extend(h).blocks.Keys;
      ScaleTouches(m0, bigBlock, MAX_BLOCK_SCALE, keys);
      ExtendMemory(next, prev, scale, isFree, h);
      scale := scale[bigBlock := MAX_BLOCK_SCALE];
      h := Extend(h);
      ghost var m1 := Mem();
      AddToFreeList(bigBlock);
      SameTrans(m0, m1, Mem(), keys, keys, keys);
      currentBrk := currentBrk + MAX_BLOCK_SIZE;
    }

    /** One round of lowering the break: the last block leaves its list and the heap. */
    method DestroyBlock(block: nat)
      requires Valid() && currentBrk > HEAP_LOWER_BOUND && LastIsFree(h) && block + MAX_BLOCK_SIZE == currentBrk
      modifies this
      ensures Valid() && h == Shrink(old(h)) && OnlyHeaders(old(h).blocks.Keys)
      ensures h.blocks.Keys <= old(h).blocks.Keys
    {
      hide SameOutside, Chain, ListsOk, Linked, Tagged, Take, Drop, Tiling, Coalesced, Aligned, Pow2;
      ShrinkFacts(h);
      RemoveFromFreeList(block);
      currentBrk := currentBrk - MAX_BLOCK_SIZE;
      DropMemory(next, prev, scale, isFree, h);
      h := Drop(h);
    }

    method Brk(addr: nat) returns (ret: int)
      requires Valid() && addr >= HEAP_LOWER_BOUND
      modifies this
      ensures Valid() && (h, ret) == HeapOperations.Brk(old(h), addr)
      ensures OnlyHeaders(old(h).blocks.Keys + h.blocks.Keys)
    {
      hide SameOutside, Chain, Represents, Inv, Grow, Shrink, GrowTo, ShrinkTo, LastIsFree;
      MemoryIsTotal();
      ghost var m0, keys := Mem(), h.blocks.Keys;
      SameRefl(m0, keys);
      if addr > currentBrk {
        while addr > currentBrk
          invariant Valid() && GrowTo(h, addr) == GrowTo(old(h), addr)
          invariant keys <= h.blocks.Keys && SameOutside(m0, Mem(), h.blocks.Keys)
          decreases addr - currentBrk
        {
          GrowToStep(h, addr);
          ghost var m1, keys1 := Mem(), h.blocks.Keys;
          CreateBlock();
          SameTrans(m0, m1, Mem(), keys1, h.blocks.Keys, h.blocks.Keys);
        }
        GrowToStep(h, addr);
        SameWiden(m0, Mem(), h.blocks.Keys, keys + h.blocks.Keys);
        return 0;
      } else {
        while addr < currentBrk
          invariant Valid() && ShrinkTo(h, addr) == ShrinkTo(old(h), addr)
          invariant h.blocks.Keys <= keys && SameOutside(m0, Mem(), keys)
          decreases currentBrk - addr
        {
          ShrinkToStep(h, addr);
          MemoryIsTotal();
          var block := currentBrk - MAX_BLOCK_SIZE;
          LastBlockTest(block);
          if scale[block] != MAX_BLOCK_SCALE || !isFree[block] {
            SameWiden(m0, Mem(), keys, keys + h.blocks.Keys);
            return -1;
          }
          ghost var m1, keys1 := Mem(), h.blocks.Keys;
          DestroyBlock(block);
          SameTrans(m0, m1, Mem(), keys, keys1, keys);
        }
        ShrinkToStep(h, addr);
        SameWiden(m0, Mem(), keys, keys + h.blocks.Keys);
        return 0;
      }
    }

    method Sbrk(inc: int) returns (ret: int)
      requires Valid() && currentBrk + inc * MAX_BLOCK_SIZE >= HEAP_LOWER_BOUND
      modifies this
      ensures Valid() && OnlyHeaders(old(h).blocks.Keys + h.blocks.Keys)
      ensures (h, ret) ==
        if inc == 0 then (old(h), -1) else HeapOperations.Brk(old(h), old(currentBrk) + inc * MAX_BLOCK_SIZE)
    {
      hide SameOutside, Represents, Inv, HeapOperations.Brk;
      MemoryIsTotal();
      if inc == 0 {
        SameRefl(Mem(), h.blocks.Keys + h.blocks.Keys);
        return -1;
      }
      ret := Brk(currentBrk + inc * MAX_BLOCK_SIZE);
    }

    /** Splits an oversized block until it has the request's scale. */
    method SplitDown(block: nat, requestScale: nat)
      requires Valid() && Live(h, block) && block != 0 && MIN_BLOCK_SCALE <= requestScale <= h.blocks[block].scale
      modifies this
      ensures Valid() && OnlyHeaders(h.blocks.Keys)
      ensures old(h).blocks.Keys <= h.blocks.Keys
      ensures h == SplitTo(old(h), block, requestScale)
    {
      hide SameOutside, Represents, Inv, SplitTo, Halve;
      MemoryIsTotal();
      ScaleAt(block);
      ghost var m0, keys := Mem(), h.blocks.Keys;
      SameRefl(m0, keys);
      while scale[block] > requestScale
        invariant Valid() && Live(h, block) && Total(scale) && scale[block] == h.blocks[block].scale >= requestScale
        invariant SplitTo(h, block, requestScale) == SplitTo(old(h), block, requestScale)
        invariant keys <= h.blocks.Keys && SameOutside(m0, Mem(), h.blocks.Keys)
        decreases scale[block]
      {
        SplitToStep(h, block, requestScale);
        ghost var m1, keys1 := Mem(), h.blocks.Keys;
        SplitBlock(block);
        SameTrans(m0, m1, Mem(), keys1, h.blocks.Keys, h.blocks.Keys);
        MemoryIsTotal();
        ScaleAt(block);
      }
      SplitToStep(h, block, requestScale);
    }

    method Allocate(requestSize: nat) returns (data: nat)
      requires Valid()
      modifies this
      ensures Valid() && OnlyHeaders(h.blocks.Keys)
      ensures old(h).blocks.Keys <= h.blocks.Keys
      ensures (h, data) == HeapOperations.Allocate(old(h), requestSize)
    {
      hide SameOutside, Represents, Inv, HeapOperations.Brk, FitScale, RequestScale, TakeHead, SplitTo, Carve, Grow;
      MemoryIsTotal();
      ghost var m0, keys := Mem(), h.blocks.Keys;
      SameRefl(m0, keys);
      data := 0;
      if requestSize > MAX_BLOCK_SIZE - HEADER_SIZE || requestSize == 0 {
        return;
      }
      var requestScale := RequestScale(requestSize);
      FitFacts(h, requestScale);
      var block := FindFit(requestScale);
      ghost var m1 := Mem();
      if block != 0 {
        SplitDown(block, requestScale);
        SameTrans(m0, m1, Mem(), keys, h.blocks.Keys, h.blocks.Keys);
      } else {
        GrowByOne(h);
        FitGrown(h, requestScale);
        var _ := Sbrk(1);  // never fails: there is no check that the space exists
        ghost var m2 := Mem();
        SameTrans(m0, m1, m2, keys, keys + h.blocks.Keys, h.blocks.Keys);
        block := FindFit(requestScale);
        SameTrans(m0, m2, Mem(), h.blocks.Keys, h.blocks.Keys, h.blocks.Keys);
      }
      data := block + HEADER_SIZE;
    }

    method Free(data: nat) returns (ret: int)
      requires Valid() && FreeArgument(h, data)
      modifies this
      ensures Valid() && OnlyHeaders(old(h).blocks.Keys)
      ensures h.blocks.Keys <= old(h).blocks.Keys
      ensures (h, ret) == FreeAt(old(h), data)
    {
      hide SameOutside, Represents, Inv, HeapOperations.Brk, Release, Coalesce, Trim, Push, ListsOk;
      MemoryIsTotal();
      ghost var m0, keys := Mem(), h.blocks.Keys;
      SameRefl(m0, keys);
      if data == 0 {
        return 1;
      }
      var block := data - HEADER_SIZE;
      LinkTest(block);
      if next[Blk(block)] != Blk(block) || prev[Blk(block)] != Blk(block) {
        return 1;
      }
      ReleaseFacts(h, block);
      block := CoalesceBlock(block);
      Loosen(block);
      ghost var m1, keys1 := Mem(), h.blocks.Keys;
      AddToFreeList(block);
      SameTrans(m0, m1, Mem(), keys, keys1, keys);
      ghost var m2 := Mem();
      ScaleAt(block);
      var blockEnd := block + MAX_BLOCK_SIZE;
      TrimFacts(h, block);
      if scale[block] == MAX_BLOCK_SCALE && currentBrk == blockEnd {
        var _ := Sbrk(-1);
        SameTrans(m0, m2, Mem(), keys, keys1 + h.blocks.Keys, keys);
      }
      return 0;
    }

    lemma Loosen(block: nat)
      requires Represents({})
      ensures Represents({block})
    {
    }

    lemma MemoryIsTotal()
      requires Valid()
      ensures Total(next) && Total(prev) && Total(scale) && Total(isFree)
    {
    }

    lemma ScaleAt(block: nat)
      requires Valid() && block in h.blocks
      ensures Total(scale) && scale[block] == h.blocks[block].scale
    {
    }

    /** Reading the last header tells whether the last block is wholly free. */
    lemma LastBlockTest(block: nat)
      requires Valid() && currentBrk > HEAP_LOWER_BOUND && block + MAX_BLOCK_SIZE == currentBrk
      ensures Total(scale) && Total(isFree)
      ensures scale[block] == MAX_BLOCK_SCALE && isFree[block] <==> LastIsFree(h)
    {
      hide Tiling, Coalesced, ListsOk, Linked, Aligned, Pow2;
      LastBlock(h);
    }

    /** A block is linked to itself exactly when it is in use. */
    lemma LinkTest(block: nat)
      requires Valid() && block in h.blocks
      ensures Total(next) && Total(prev)
      ensures next[Blk(block)] == Blk(block) && prev[Blk(block)] == Blk(block) <==> Live(h, block)
    {
      hide Tiling, Coalesced, Aligned, Pow2, Chain;
      if h.blocks[block].free {
        BlockFacts(h, block);
        BlockPoints(next, prev, h, block);
      }
    }
  }

  ghost predicate SameLinks(next: Links, prev: Links, next': Links, prev': Links, headers: set<nat>) {
    && Total(next) && Total(prev) && Total(next') && Total(prev')
    && (forall x | x !in headers :: next'[Blk(x)] == next[Blk(x)] && prev'[Blk(x)] == prev[Blk(x)])
  }

  ghost predicate SameTags(scale: imap<nat, nat>, isFree: imap<nat, bool>, scale': imap<nat, nat>,
                           isFree': imap<nat, bool>, headers: set<nat>)
  {
    && Total(scale) && Total(isFree) && Total(scale') && Total(isFree')
    && (forall x: nat | x !in headers :: scale'[x] == scale[x] && isFree'[x] == isFree[x])
  }

  ghost predicate SameOutside(m: Memory, m': Memory, headers: set<nat>) {
    && SameLinks(m.next, m.prev, m'.next, m'.prev, headers)
    && SameTags(m.scale, m.isFree, m'.scale, m'.isFree, headers)
  }

  ghost predicate AllTotal(m: Memory) {
    Total(m.next) && Total(m.prev) && Total(m.scale) && Total(m.isFree)
  }

  lemma SameRefl(m: Memory, headers: set<nat>)
    requires AllTotal(m)
    ensures SameOutside(m, m, headers)
  {
  }

  lemma SameTrans(m0: Memory, m1: Memory, m2: Memory, b1: set<nat>, b2: set<nat>, b: set<nat>)
    requires SameOutside(m0, m1, b1) && SameOutside(m1, m2, b2) && b1 <= b && b2 <= b
    ensures SameOutside(m0, m2, b)
  {
  }

  lemma SameWiden(m0: Memory, m1: Memory, b: set<nat>, b': set<nat>)
    requires SameOutside(m0, m1, b) && b <= b'
    ensures SameOutside(m0, m1, b')
  {
  }

  lemma ScaleTouches(m: Memory, a: nat, k: nat, headers: set<nat>)
    requires AllTotal(m) && a in headers
    ensures SameOutside(m, m.(scale := m.scale[a := k]), headers)
  {
  }

  lemma PushTouches(next: Links, prev: Links, next': Links, prev': Links, k: nat, empty: bool, a: nat,
                    headers: set<nat>)
    requires Total(next) && Total(prev) && a in headers
    requires !empty ==> next[Head(k)].Blk? && next[Head(k)].a in headers
    requires next' == next[Blk(a) := if empty then Blk(a) else next[Head(k)]][Head(k) := Blk(a)]
    requires prev' == (if empty then prev else prev[next[Head(k)] := Blk(a)])[Blk(a) := Head(k)]
    ensures SameLinks(next, prev, next', prev', headers)
  {
  }

  lemma TakeTouches(next: Links, prev: Links, next': Links, prev': Links, a: nat, headers: set<nat>)
    requires Total(next) && Total(prev) && a in headers
    requires next[Blk(a)].Blk? && next[Blk(a)].a in headers
    requires prev[Blk(a)].Blk? ==> prev[Blk(a)].a in headers
    requires var b := Blk(a);
      && next' == next[prev[b] := if next[b] == b then prev[b] else next[b]][b := b]
      && prev' == (if next[b] == b then prev else prev[next[b] := prev[b]])[b := b]
    ensures SameLinks(next, prev, next', prev', headers)
  {
  }

  lemma MemoryFacts(next: Links, prev: Links, scale: imap<nat, nat>, isFree: imap<nat, bool>, h: Heap, loose: set<nat>)
    requires Linked(next, prev, h, loose) && Tagged(scale, isFree, h, loose)
    ensures Total(next) && Total(prev) && Total(scale) && Total(isFree) && |h.lists| == MAX_BLOCK_SCALE + 1
    ensures forall a | a in h.blocks :: scale[a] == h.blocks[a].scale
  {
  }

  lemma TagAt(scale: imap<nat, nat>, isFree: imap<nat, bool>, h: Heap, a: nat)
    requires Tagged(scale, isFree, h, {}) && a in h.blocks
    ensures Total(scale) && Total(isFree) && scale[a] == h.blocks[a].scale && isFree[a] == h.blocks[a].free
  {
  }

  lemma TaggedPush(scale: imap<nat, nat>, isFree: imap<nat, bool>, h: Heap, a: nat)
    requires Tagged(scale, isFree, h, {a}) && a in h.blocks && h.blocks[a].scale < |h.lists|
    ensures Tagged(scale, isFree[a := true], Push(h, a), {})
  {
  }

  lemma TaggedTake(scale: imap<nat, nat>, isFree: imap<nat, bool>, h: Heap, a: nat)
    requires Tagged(scale, isFree, h, {}) && a in h.blocks && h.blocks[a].scale < |h.lists|
    ensures Tagged(scale, isFree[a := false], Take(h, a), {})
  {
  }

  /** What the head of a list points at. */
  lemma HeadPoints(next: Links, prev: Links, h: Heap, k: nat, loose: set<nat>)
    requires Linked(next, prev, h, loose) && ListsOk(h) && MIN_BLOCK_SCALE <= k <= MAX_BLOCK_SCALE
    ensures next[Head(k)] == Head(k) <==> h.lists[k] == []
    ensures h.lists[k] != [] ==>
      next[Head(k)] == Blk(h.lists[k][0]) && Free(h, h.lists[k][0]) && h.blocks[h.lists[k][0]].scale == k
  {
    assert Chain(next, prev, k, h.lists[k]);
    if h.lists[k] != [] {
      Listed(h, k, h.lists[k][0]);
    }
  }

  /** The neighbours of a block on a list are blocks, or the head before it. */
  lemma BlockPoints(next: Links, prev: Links, h: Heap, a: nat)
    requires Linked(next, prev, h, {}) && ListsOk(h) && Free(h, a)
    requires MIN_BLOCK_SCALE <= h.blocks[a].scale <= MAX_BLOCK_SCALE
    ensures prev[Blk(a)] != Blk(a)
    ensures prev[Blk(a)].Blk? ==> prev[Blk(a)].a in h.blocks
    ensures next[Blk(a)].Blk? && next[Blk(a)].a in h.blocks
  {
    var k := h.blocks[a].scale;
    var l := h.lists[k];
    assert Chain(next, prev, k, l) && a in l && NoDup(l);
    var i :| 0 <= i < |l| && l[i] == a;
    ListedNotSelfLinked(next, prev, k, l, a);
    Neighbours(next, prev, k, l, i);
    Listed(h, k, next[Blk(a)].a);
    if prev[Blk(a)].Blk? {
      Listed(h, k, prev[Blk(a)].a);
    }
  }

  lemma FitStep(h: Heap, r: nat)
    requires |h.lists| == MAX_BLOCK_SCALE + 1 && r <= MAX_BLOCK_SCALE
    ensures h.lists[r] != [] ==> FitScale(h, r) == r
    ensures h.lists[r] == [] && r < MAX_BLOCK_SCALE ==> FitScale(h, r) == FitScale(h, r + 1)
    ensures h.lists[r] == [] && r == MAX_BLOCK_SCALE ==> FitScale(h, r) == MAX_BLOCK_SCALE + 1
  {
  }

  /** No block stands at NULL. */
  lemma HeadAboveBound(h: Heap, k: nat)
    requires Inv(h) && k <= MAX_BLOCK_SCALE && h.lists[k] != []
    ensures h.lists[k][0] >= HEAP_LOWER_BOUND
  {
    hide Coalesced, Aligned, Pow2;
    Listed(h, k, h.lists[k][0]);
    BlockFacts(h, h.lists[k][0]);
  }

  lemma TakeHeadFacts(h: Heap, k: nat)
    requires Inv(h) && k <= MAX_BLOCK_SCALE && h.lists[k] != []
    ensures TakeHead(h, k) == (Take(h, h.lists[k][0]), h.lists[k][0])
    ensures Inv(Take(h, h.lists[k][0])) && Live(Take(h, h.lists[k][0]), h.lists[k][0])
    ensures Take(h, h.lists[k][0]).brk == h.brk
  {
    hide Tiling, Coalesced, Aligned, Pow2;
  }

  lemma SplitFacts(h: Heap, a: nat)
    requires Inv(h) && Live(h, a) && h.blocks[a].scale > MIN_BLOCK_SCALE
    ensures var k := h.blocks[a].scale - 1;
      var b := a + Pow2(k);
      && b !in h.blocks && b != a && Live(Cleave(h, a), b) && MIN_BLOCK_SCALE <= k <= MAX_BLOCK_SCALE
      && Cleave(h, a).blocks[b].scale == k
      && ListsOk(Cleave(h, a)) && Inv(Push(Cleave(h, a), b)) && Push(Cleave(h, a), b) == Halve(h, a)
      && Halve(h, a).blocks.Keys == h.blocks.Keys + {b} == Cleave(h, a).blocks.Keys && Halve(h, a).brk == h.brk
  {
    hide Tiling, Coalesced, Aligned, Pow2;
    BlockFacts(h, a);
    CleaveGeometry(h, a);
    CleaveInv(h, a);
    HalveInv(h, a);
  }

  /** The two scale writes of a split turn the memory into that of the cut block. */
  lemma CleaveMemory(next: Links, prev: Links, scale: imap<nat, nat>, isFree: imap<nat, bool>, h: Heap, a: nat)
    requires Linked(next, prev, h, {}) && Tagged(scale, isFree, h, {})
    requires Live(h, a) && h.blocks[a].scale > 0 && a + Pow2(h.blocks[a].scale - 1) !in h.blocks
    ensures var k := h.blocks[a].scale - 1;
      var b := a + Pow2(k);
      Linked(next, prev, Cleave(h, a), {b}) && Tagged(scale[a := k][b := k], isFree, Cleave(h, a), {b})
  {
    hide Chain, Pow2;
  }

  /** The scale write of a merge turns the memory into that of the joined block. */
  lemma FuseMemory(next: Links, prev: Links, scale: imap<nat, nat>, isFree: imap<nat, bool>, h: Heap, a: nat)
    requires Linked(next, prev, h, {}) && Tagged(scale, isFree, h, {}) && CanFuse(h, a)
    ensures Lower(a, h.blocks[a].scale) in h.blocks && Live(h, Lower(a, h.blocks[a].scale))
    ensures Linked(next, prev, Fuse(h, a), {})
    ensures Tagged(scale[Lower(a, h.blocks[a].scale) := h.blocks[a].scale + 1], isFree, Fuse(h, a), {})
  {
    hide Chain, Pow2, Aligned;
    BuddyProperties(a, h.blocks[a].scale);
  }

  /** Reading the buddy's header tells whether the buddy can be absorbed. */
  lemma AbsorbTest(scale: imap<nat, nat>, isFree: imap<nat, bool>, h: Heap, a: nat)
    requires Inv(h) && Live(h, a) && Tagged(scale, isFree, h, {})
    ensures At(a, h.blocks[a].scale)
    ensures var b := Buddy(a, h.blocks[a].scale);
      isFree[b] && scale[b] == scale[a] && scale[a] < MAX_BLOCK_SCALE <==> CanAbsorb(h, a)
  {
    hide Tiling, Coalesced, ListsOk, Aligned, Pow2, Tagged;
    BlockFacts(h, a);
    TagAt(scale, isFree, h, a);
    if h.blocks[a].scale < MAX_BLOCK_SCALE {
      BuddyIsBlock(h.brk, h.blocks, a);
      TagAt(scale, isFree, h, Buddy(a, h.blocks[a].scale));
    }
  }

  lemma AbsorbFacts(h: Heap, a: nat)
    requires Inv(h) && Live(h, a) && CanAbsorb(h, a)
    ensures At(a, h.blocks[a].scale)
    ensures var k := h.blocks[a].scale;
      var b := Buddy(a, k);
      var t := Take(h, b);
      && Free(h, b) && h.blocks[b].scale == k && MIN_BLOCK_SCALE <= k < MAX_BLOCK_SCALE && ListsOk(h) && a != b
      && Live(t, a) && t.blocks[a].scale == k && b in t.blocks && t.blocks[b].scale == k && CanFuse(t, a)
      && t.blocks.Keys == h.blocks.Keys && Fuse(t, a).blocks.Keys <= h.blocks.Keys && Fuse(t, a).brk == h.brk
      && Absorb(h, a) == (Fuse(t, a), Lower(a, k)) && Inv(Fuse(t, a))
      && Lower(a, k) == (if b < a then b else a)
  {
    hide Tiling, Coalesced, Aligned, Pow2;
    BlockFacts(h, a);
    BuddyProperties(a, h.blocks[a].scale);
  }

  lemma CoalesceStep(h: Heap, a: nat)
    requires Inv(h) && Live(h, a)
    ensures CanAbsorb(h, a) ==> Coalesce(h, a) == Coalesce(Absorb(h, a).0, Absorb(h, a).1)
    ensures !CanAbsorb(h, a) ==> Coalesce(h, a) == (h, a)
  {
    hide Inv, Absorb, CanAbsorb;
  }

  lemma ScaleFacts(h: Heap, a: nat)
    requires Inv(h) && a in h.blocks
    ensures MIN_BLOCK_SCALE <= h.blocks[a].scale <= MAX_BLOCK_SCALE && At(a, h.blocks[a].scale)
  {
    hide Tiling, Coalesced, ListsOk, Aligned, Pow2;
    BlockFacts(h, a);
  }

  lemma GrowFacts(h: Heap)
    requires Inv(h)
    ensures h.brk !in h.blocks && |h.lists| == MAX_BLOCK_SCALE + 1 && ListsOk(Extend(h))
    ensures Push(Extend(h), h.brk) == Grow(h) && Grow(h).blocks.Keys == h.blocks.Keys + {h.brk} == Extend(h).blocks.Keys
  {
    hide Tiling, Coalesced, Aligned, Pow2;
    ExtendInv(h);
  }

  lemma ExtendMemory(next: Links, prev: Links, scale: imap<nat, nat>, isFree: imap<nat, bool>, h: Heap)
    requires Linked(next, prev, h, {}) && Tagged(scale, isFree, h, {}) && h.brk !in h.blocks
    ensures Linked(next, prev, Extend(h), {h.brk})
    ensures Tagged(scale[h.brk := MAX_BLOCK_SCALE], isFree, Extend(h), {h.brk})
  {
    hide Chain;
  }

  lemma ShrinkFacts(h: Heap)
    requires Inv(h) && h.brk > HEAP_LOWER_BOUND && LastIsFree(h)
    ensures h.brk >= HEAP_LOWER_BOUND + MAX_BLOCK_SIZE && ListsOk(h)
    ensures var b := h.brk - MAX_BLOCK_SIZE;
      && b in h.blocks && h.blocks[b] == Block(MAX_BLOCK_SCALE, true) && |h.lists| == MAX_BLOCK_SCALE + 1
      && Take(h, b).brk == h.brk && Live(Take(h, b), b)
      && Drop(Take(h, b)) == Shrink(h) && Shrink(h).blocks.Keys <= h.blocks.Keys
  {
    hide Tiling, Coalesced, Aligned, Pow2;
    LastBlock(h);
  }

  lemma DropMemory(next: Links, prev: Links, scale: imap<nat, nat>, isFree: imap<nat, bool>, h: Heap)
    requires Linked(next, prev, h, {}) && Tagged(scale, isFree, h, {}) && h.brk >= MAX_BLOCK_SIZE
    ensures Linked(next, prev, Drop(h), {}) && Tagged(scale, isFree, Drop(h), {})
  {
    hide Chain;
  }

  lemma GrowToStep(h: Heap, addr: nat)
    requires Inv(h)
    ensures GrowTo(h, addr) == if addr > h.brk then GrowTo(Grow(h), addr) else h
  {
    hide Inv, Grow;
  }

  lemma ShrinkToStep(h: Heap, addr: nat)
    requires Inv(h) && addr >= HEAP_LOWER_BOUND
    ensures addr < h.brk ==> h.brk >= HEAP_LOWER_BOUND + MAX_BLOCK_SIZE
    ensures addr < h.brk && LastIsFree(h) ==> ShrinkTo(h, addr) == ShrinkTo(Shrink(h), addr)
    ensures addr < h.brk && !LastIsFree(h) ==> ShrinkTo(h, addr) == (h, -1)
    ensures addr >= h.brk ==> ShrinkTo(h, addr) == (h, 0)
  {
    hide Inv, Shrink, LastIsFree;
    if addr < h.brk {
      LastBlock(h);
    }
  }

  lemma FitFacts(h: Heap, r: nat)
    requires Inv(h) && MIN_BLOCK_SCALE <= r <= MAX_BLOCK_SCALE
    ensures |h.lists| == MAX_BLOCK_SCALE + 1
    ensures var k := FitScale(h, r);
      k <= MAX_BLOCK_SCALE ==>
        && h.lists[k] != [] && TakeHead(h, k).1 >= HEAP_LOWER_BOUND
        && TakeHead(h, k).0.blocks.Keys == h.blocks.Keys
        && Carve(h, k, r) == (SplitTo(TakeHead(h, k).0, TakeHead(h, k).1, r), TakeHead(h, k).1)
  {
    hide Tiling, Coalesced, Aligned, Pow2, SplitTo, FitScale;
    var k := FitScale(h, r);
    if k <= MAX_BLOCK_SCALE {
      HeadAboveBound(h, k);
    }
  }

  lemma SplitToStep(h: Heap, a: nat, r: nat)
    requires Inv(h) && Live(h, a) && MIN_BLOCK_SCALE <= r <= h.blocks[a].scale
    ensures h.blocks[a].scale > r ==> SplitTo(h, a, r) == SplitTo(Halve(h, a), a, r)
    ensures h.blocks[a].scale == r ==> SplitTo(h, a, r) == h
  {
    hide Inv, Halve;
  }

  lemma EmptyMemory(next: Links, prev: Links, scale: imap<nat, nat>, isFree: imap<nat, bool>)
    requires Total(next) && Total(prev) && Total(scale) && Total(isFree)
    requires forall k | MIN_BLOCK_SCALE <= k <= MAX_BLOCK_SCALE :: next[Head(k)] == Head(k)
    ensures Linked(next, prev, EmptyHeap(), {}) && Tagged(scale, isFree, EmptyHeap(), {})
  {
  }

  lemma GrowByOne(h: Heap)
    requires Inv(h)
    ensures h.brk + MAX_BLOCK_SIZE >= HEAP_LOWER_BOUND
    ensures HeapOperations.Brk(h, h.brk + MAX_BLOCK_SIZE) == (Grow(h), 0) && h.blocks.Keys <= Grow(h).blocks.Keys
  {
    hide Inv, Grow, GrowTo;
    AboveBound(h);
    GrowFacts(h);
    GrowToStep(h, h.brk + MAX_BLOCK_SIZE);
    GrowToStep(Grow(h), h.brk + MAX_BLOCK_SIZE);
  }

  lemma FitGrown(h: Heap, r: nat)
    requires Inv(h) && MIN_BLOCK_SCALE <= r <= MAX_BLOCK_SCALE && |h.lists| == MAX_BLOCK_SCALE + 1
    requires FitScale(h, r) > MAX_BLOCK_SCALE
    ensures |Grow(h).lists| == MAX_BLOCK_SCALE + 1 && FitScale(Grow(h), r) == MAX_BLOCK_SCALE
    ensures Grow(h).lists[MAX_BLOCK_SCALE] != []
    ensures TakeHead(Grow(h), MAX_BLOCK_SCALE).0.blocks.Keys == Grow(h).blocks.Keys
    ensures Carve(Grow(h), MAX_BLOCK_SCALE, MAX_BLOCK_SCALE) == TakeHead(Grow(h), MAX_BLOCK_SCALE)
  {
    hide Inv, FitScale, Grow, Carve, TakeHead;
    FitAfterGrow(h, r);
    FitFacts(Grow(h), r);
    CarveExact(Grow(h), MAX_BLOCK_SCALE);
  }

  lemma CarveExact(h: Heap, k: nat)
    requires Inv(h) && MIN_BLOCK_SCALE <= k <= MAX_BLOCK_SCALE && |h.lists| == MAX_BLOCK_SCALE + 1 && h.lists[k] != []
    ensures Carve(h, k, k) == TakeHead(h, k)
  {
    hide Inv, TakeHead;
  }

  lemma ReleaseFacts(h: Heap, a: nat)
    requires Inv(h) && Live(h, a)
    ensures var c := Coalesce(h, a);
      && ListsOk(c.0) && MIN_BLOCK_SCALE <= c.0.blocks[c.1].scale <= MAX_BLOCK_SCALE < |c.0.lists|
      && Inv(Push(c.0, c.1)) && HeapState.Free(Push(c.0, c.1), c.1) && Push(c.0, c.1).brk == c.0.brk
      && Push(c.0, c.1).blocks.Keys == c.0.blocks.Keys
      && Release(h, a) == Trim(Push(c.0, c.1), c.1)
  {
    hide Tiling, Coalesced, Aligned, Pow2, Coalesce, Trim;
    var c := Coalesce(h, a);
    BlockFacts(c.0, c.1);
    PushInv(c.0, c.1);
  }

  lemma TrimFacts(h: Heap, a: nat)
    requires Inv(h) && HeapState.Free(h, a)
    ensures Trim(h, a).blocks.Keys <= h.blocks.Keys
    ensures if h.blocks[a].scale == MAX_BLOCK_SCALE && h.brk == a + MAX_BLOCK_SIZE
      then a >= HEAP_LOWER_BOUND && Trim(h, a) == HeapOperations.Brk(h, a).0
      else Trim(h, a) == h
  {
    hide Tiling, Coalesced, Aligned, Pow2, Shrink, ShrinkTo;
    BlockFacts(h, a);
    if h.blocks[a].scale == MAX_BLOCK_SCALE && h.brk == a + MAX_BLOCK_SIZE {
      ShrinkToStep(h, a);
      ShrinkFacts(h);
      ShrinkToStep(Shrink(h), a);
    }
  }

  /** Clients may write anything anywhere but in the headers: the memory still represents the heap. */
  lemma PayloadWritesAreHarmless(m: Memory, m': Memory, h: Heap)
    requires Linked(m.next, m.prev, h, {}) && Tagged(m.scale, m.isFree, h, {}) && ListsOk(h) && AllTotal(m')
    requires forall k :: m'.next[Head(k)] == m.next[Head(k)]
    requires forall a | a in h.blocks ::
      && m'.next[Blk(a)] == m.next[Blk(a)] && m'.prev[Blk(a)] == m.prev[Blk(a)]
      && m'.scale[a] == m.scale[a] && m'.isFree[a] == m.isFree[a]
    ensures Linked(m'.next, m'.prev, h, {}) && Tagged(m'.scale, m'.isFree, h, {})
  {
    hide ListsOk, Chain;
    forall k | MIN_BLOCK_SCALE <= k <= MAX_BLOCK_SCALE
      ensures Chain(m'.next, m'.prev, k, h.lists[k])
    {
      forall a | a in h.lists[k]
        ensures a in h.blocks
      {
        Listed(h, k, a);
      }
      ChainFrame(m.next, m.prev, m'.next, m'.prev, k, h.lists[k]);
    }
  }
}
