/** The abstract heap: the blocks that tile it, the free lists, and the six primitive transitions
    of which every heap operation is made. */
module HeapState {
  import opened PowersOfTwo

  const HEAP_LOWER_BOUND: nat := 0x4000000
  const MIN_BLOCK_SCALE: nat := 4
  const MAX_BLOCK_SCALE: nat := 15
  const HEADER_SIZE: nat := 9
  const MAX_BLOCK_SIZE: nat := 32768

  datatype Block = Block(scale: nat, free: bool)

  /** `blocks` maps the address of every block header to its block; `lists[k]` is the order in
      which the free list of scale `k` holds its blocks, first taken first. */
  datatype Heap = Heap(brk: nat, blocks: map<nat, Block>, lists: seq<seq<nat>>)

  predicate At(a: nat, k: nat) {
    HEAP_LOWER_BOUND <= a && Aligned(a - HEAP_LOWER_BOUND, k)
  }

  /** The address at which a block of scale `k` at `a` looks for its buddy. */
  function Buddy(a: nat, k: nat): nat
    requires At(a, k)
  {
    AlignedStep(a - HEAP_LOWER_BOUND, k);
    if At(a, k + 1) then a + Pow2(k) else a - Pow2(k)
  }

  // ----- the invariant -----

  predicate BlockOk(brk: nat, a: nat, b: Block) {
    MIN_BLOCK_SCALE <= b.scale <= MAX_BLOCK_SCALE && At(a, b.scale) && a + Pow2(b.scale) <= brk
  }

  predicate Covers(blocks: map<nat, Block>, a: nat, x: nat) {
    a in blocks && a <= x < a + Pow2(blocks[a].scale)
  }

  predicate Covered(blocks: map<nat, Block>, x: nat) {
    exists a :: a in blocks && Covers(blocks, a, x)
  }

  /** The blocks partition the bytes from the lower bound to the break. */
  ghost predicate Tiling(brk: nat, blocks: map<nat, Block>) {
    && HEAP_LOWER_BOUND <= brk && At(brk, MAX_BLOCK_SCALE)
    && (forall a | a in blocks :: BlockOk(brk, a, blocks[a]))
    && (forall a, b | a in blocks && b in blocks && a < b :: a + Pow2(blocks[a].scale) <= b)
    && (forall x | HEAP_LOWER_BOUND <= x < brk :: Covered(blocks, x))
  }

  ghost predicate NoDup(s: seq<nat>) {
    forall i, j | 0 <= i < j < |s| :: s[i] != s[j]
  }

  /** Each free list holds exactly the free blocks of its scale, each once. */
  ghost predicate ListsOk(h: Heap) {
    && |h.lists| == MAX_BLOCK_SCALE + 1
    && (forall k | 0 <= k <= MAX_BLOCK_SCALE :: NoDup(h.lists[k]))
    && (forall k, a | 0 <= k <= MAX_BLOCK_SCALE && a in h.lists[k] ::
          a in h.blocks && h.blocks[a] == Block(k, true))
    && (forall a | a in h.blocks && h.blocks[a].free ::
          0 <= h.blocks[a].scale <= MAX_BLOCK_SCALE && a in h.lists[h.blocks[a].scale])
  }

  predicate FreeBuddy(h: Heap, a: nat, k: nat)
    requires At(a, k)
  {
    Buddy(a, k) in h.blocks && h.blocks[Buddy(a, k)] == Block(k, true)
  }

  /** No two buddies below the largest scale are both free. */
  ghost predicate Coalesced(h: Heap) {
    forall a | a in h.blocks && h.blocks[a].free && h.blocks[a].scale < MAX_BLOCK_SCALE ::
      At(a, h.blocks[a].scale) ==> !FreeBuddy(h, a, h.blocks[a].scale)
  }

  ghost predicate Inv(h: Heap) {
    Tiling(h.brk, h.blocks) && ListsOk(h) && Coalesced(h)
  }

  predicate Live(h: Heap, a: nat) {
    a in h.blocks && !h.blocks[a].free
  }

  predicate Free(h: Heap, a: nat) {
    a in h.blocks && h.blocks[a].free
  }

  // ----- the primitive transitions -----

  function Remove(s: seq<nat>, x: nat): seq<nat> {
    if s == [] then [] else if s[0] == x then s[1..] else [s[0]] + Remove(s[1..], x)
  }

  /** Marks a free block used and unlinks it from its list. */
  function Take(h: Heap, a: nat): Heap
    requires a in h.blocks && h.blocks[a].scale < |h.lists|
  {
    var k := h.blocks[a].scale;
    h.(blocks := h.blocks[a := Block(k, false)], lists := h.lists[k := Remove(h.lists[k], a)])
  }

  /** Marks a used block free and pushes it on the head of its list. */
  function Push(h: Heap, a: nat): Heap
    requires a in h.blocks && h.blocks[a].scale < |h.lists|
  {
    var k := h.blocks[a].scale;
    h.(blocks := h.blocks[a := Block(k, true)], lists := h.lists[k := [a] + h.lists[k]])
  }

  /** Cuts a used block into two used halves. */
  function Cleave(h: Heap, a: nat): Heap
    requires a in h.blocks && h.blocks[a].scale > 0
  {
    var k := h.blocks[a].scale - 1;
    h.(blocks := h.blocks[a := Block(k, false)][a + Pow2(k) := Block(k, false)])
  }

  /** Joins a used block and its used buddy; `Lower` is where the joined block starts. */
  function Fuse(h: Heap, a: nat): Heap
    requires a in h.blocks && At(a, h.blocks[a].scale)
  {
    var k := h.blocks[a].scale;
    h.(blocks := (h.blocks - {Upper(a, k)})[Lower(a, k) := Block(k + 1, false)])
  }

  function Lower(a: nat, k: nat): nat
    requires At(a, k)
  {
    if Buddy(a, k) < a then Buddy(a, k) else a
  }

  function Upper(a: nat, k: nat): nat
    requires At(a, k)
  {
    if Buddy(a, k) < a then a else Buddy(a, k)
  }

  /** Adds a used block of the largest scale at the break. */
  function Extend(h: Heap): Heap {
    h.(brk := h.brk + MAX_BLOCK_SIZE, blocks := h.blocks[h.brk := Block(MAX_BLOCK_SCALE, false)])
  }

  /** Gives up a used block of the largest scale just below the break. */
  function Drop(h: Heap): Heap
    requires h.brk >= MAX_BLOCK_SIZE
  {
    h.(brk := h.brk - MAX_BLOCK_SIZE, blocks := h.blocks - {h.brk - MAX_BLOCK_SIZE})
  }

  // ----- list lemmas -----

  lemma {:induction false} RemoveAt(s: seq<nat>, i: nat)
    requires i < |s| && NoDup(s)
    ensures Remove(s, s[i]) == s[..i] + s[i + 1..]
  {
    if i > 0 {
      RemoveAt(s[1..], i - 1);
      assert s[1..][..i - 1] == s[1..i];
      assert s[1..][i - 1 + 1..] == s[i + 1..];
      assert s[..i] == [s[0]] + s[1..i];
    }
  }

  lemma {:induction false} RemoveNoDup(s: seq<nat>, x: nat)
    requires x in s && NoDup(s)
    ensures NoDup(Remove(s, x))
    ensures forall y :: y in Remove(s, x) <==> y in s && y != x
  {
    assert forall y :: y in s <==> y == s[0] || y in s[1..];
    if s[0] != x {
      RemoveNoDup(s[1..], x);
      assert s[0] !in s[1..] && s[0] !in Remove(s[1..], x);
    }
  }

  // ----- geometry -----

  lemma BuddyProperties(a: nat, k: nat)
    requires At(a, k)
    ensures At(Buddy(a, k), k) && Buddy(Buddy(a, k), k) == a && Buddy(a, k) != a
    ensures At(Lower(a, k), k + 1) && Upper(a, k) == Lower(a, k) + Pow2(k)
    ensures Lower(a, k) == a || Upper(a, k) == a
    ensures Buddy(a, k) == Lower(a, k) || Buddy(a, k) == Upper(a, k)
  {
    hide Pow2;
    var x := a - HEAP_LOWER_BOUND;
    AlignedStep(x, k);
    if !At(a, k + 1) {
      AlignedWeaken(x - Pow2(k), k, k + 1);
    }
  }

  lemma Nested(a: nat, j: nat, b: nat, k: nat)
    requires j <= k && At(a, j) && At(b, k)
    ensures a + Pow2(j) <= b || b + Pow2(k) <= a || (b <= a && a + Pow2(j) <= b + Pow2(k))
  {
    hide Aligned, Pow2;
    Dyadic(a - HEAP_LOWER_BOUND, j, b - HEAP_LOWER_BOUND, k);
  }

  /** An aligned region of at most the largest scale that starts inside the heap ends inside it. */
  lemma RegionInside(brk: nat, a: nat, k: nat)
    requires k <= MAX_BLOCK_SCALE && At(a, k) && At(brk, MAX_BLOCK_SCALE) && a < brk
    ensures a + Pow2(k) <= brk
  {
    hide Aligned, Pow2;
    Nested(a, k, brk, MAX_BLOCK_SCALE);
  }

  /** Below the largest scale, the address where a block looks for its buddy is the header of a
      real block, of the same scale or smaller. */
  lemma BuddyIsBlock(brk: nat, blocks: map<nat, Block>, a: nat)
    requires Tiling(brk, blocks) && a in blocks && blocks[a].scale < MAX_BLOCK_SCALE
    ensures At(a, blocks[a].scale)
    ensures var b := Buddy(a, blocks[a].scale);
      b in blocks && blocks[b].scale <= blocks[a].scale
  {
    hide Aligned, Pow2;
    Pow2Facts(blocks[a].scale);
    assert BlockOk(brk, a, blocks[a]);
    var k := blocks[a].scale;
    var b, l := Buddy(a, k), Lower(a, k);
    BuddyProperties(a, k);
    RegionInside(brk, l, k + 1);
    assert Covered(blocks, b);
    var c :| c in blocks && Covers(blocks, c, b);
    assert BlockOk(brk, c, blocks[c]);
    if blocks[c].scale <= k {
      Nested(c, blocks[c].scale, b, k);
    } else {
      Nested(l, k + 1, c, blocks[c].scale);
    }
  }
}
