/** The free lists in memory: header words that link blocks into doubly linked lists. */
module FreeLists {
  import opened HeapState

  /** What a link word can point at: the head of a free list, or a block header. */
  datatype Node = Head(k: nat) | Blk(a: nat)

  const NULL := Blk(0)

  type Links = imap<Node, Node>

  ghost predicate Total<K(!new), V>(m: imap<K, V>) {
    forall n :: n in m
  }

  /** Following `next` from the head of list `k` visits exactly the blocks of `l`, in order, and
      ends in a self-loop; `prev` is the inverse. */
  ghost predicate Chain(next: Links, prev: Links, k: nat, l: seq<nat>)
    requires Total(next) && Total(prev)
  {
    && next[Head(k)] == (if l == [] then Head(k) else Blk(l[0]))
    && (forall i {:trigger next[Blk(l[i])]} | 0 <= i < |l| ::
          next[Blk(l[i])] == Blk(if i + 1 < |l| then l[i + 1] else l[i]))
    && (forall i {:trigger prev[Blk(l[i])]} | 0 <= i < |l| ::
          prev[Blk(l[i])] == if i == 0 then Head(k) else Blk(l[i - 1]))
  }

  lemma ChainFrame(next: Links, prev: Links, next': Links, prev': Links, k: nat, l: seq<nat>)
    requires Total(next) && Total(prev) && Total(next') && Total(prev')
    requires Chain(next, prev, k, l) && next'[Head(k)] == next[Head(k)]
    requires forall a | a in l :: next'[Blk(a)] == next[Blk(a)] && prev'[Blk(a)] == prev[Blk(a)]
    ensures Chain(next', prev', k, l)
  {
  }

  lemma ChainPush(next: Links, prev: Links, next': Links, prev': Links, k: nat, l: seq<nat>, a: nat)
    requires Total(next) && Total(prev) && Chain(next, prev, k, l) && a !in l && NoDup(l)
    requires next' == next[Blk(a) := if l == [] then Blk(a) else next[Head(k)]][Head(k) := Blk(a)]
    requires prev' == (if l == [] then prev else prev[next[Head(k)] := Blk(a)])[Blk(a) := Head(k)]
    ensures Total(next') && Total(prev') && Chain(next', prev', k, [a] + l)
  {
    var m := [a] + l;
    forall i | 0 <= i < |m|
      ensures next'[Blk(m[i])] == Blk(if i + 1 < |m| then m[i + 1] else m[i])
      ensures prev'[Blk(m[i])] == if i == 0 then Head(k) else Blk(m[i - 1])
    {
      if i > 0 {
        assert m[i] == l[i - 1] && m[i] != a;
        assert next[Blk(l[i - 1])] == Blk(if i < |l| then l[i] else l[i - 1]);
        assert prev[Blk(l[i - 1])] == if i == 1 then Head(k) else Blk(l[i - 2]);
      }
    }
  }

  function Without(l: seq<nat>, i: nat): seq<nat>
    requires i < |l|
  {
    l[..i] + l[i + 1..]
  }

  lemma ChainRemove(next: Links, prev: Links, next': Links, prev': Links, k: nat, l: seq<nat>, i: nat)
    requires Total(next) && Total(prev) && Chain(next, prev, k, l) && NoDup(l) && i < |l|
    requires var b := Blk(l[i]);
      && next' == next[prev[b] := if next[b] == b then prev[b] else next[b]][b := b]
      && prev' == (if next[b] == b then prev else prev[next[b] := prev[b]])[b := b]
    ensures Total(next') && Total(prev') && Chain(next', prev', k, Without(l, i))
  {
  }

  /** A block on a list never links back to itself. */
  lemma ListedNotSelfLinked(next: Links, prev: Links, k: nat, l: seq<nat>, a: nat)
    requires Total(next) && Total(prev) && Chain(next, prev, k, l) && NoDup(l) && a in l
    ensures prev[Blk(a)] != Blk(a)
  {
    var i :| 0 <= i < |l| && l[i] == a;
    assert prev[Blk(l[i])] == if i == 0 then Head(k) else Blk(l[i - 1]);
  }

  // ----- memory against the abstract heap -----

  /** Every free list is a chain, and every used block not in `loose` is linked to itself. */
  ghost predicate Linked(next: Links, prev: Links, h: Heap, loose: set<nat>) {
    && Total(next) && Total(prev) && |h.lists| == MAX_BLOCK_SCALE + 1
    && (forall k | MIN_BLOCK_SCALE <= k <= MAX_BLOCK_SCALE :: Chain(next, prev, k, h.lists[k]))
    && (forall a | a in h.blocks && !h.blocks[a].free && a !in loose ::
          next[Blk(a)] == Blk(a) && prev[Blk(a)] == Blk(a))
  }

  /** The scale and the free bit in every header are those of the block (the bit not for `loose`). */
  ghost predicate Tagged(scale: imap<nat, nat>, isFree: imap<nat, bool>, h: Heap, loose: set<nat>) {
    && Total(scale) && Total(isFree)
    && (forall a | a in h.blocks :: scale[a] == h.blocks[a].scale)
    && (forall a | a in h.blocks && a !in loose :: isFree[a] == h.blocks[a].free)
  }

  /** Relinking the blocks of list `k` and one more block `a` disturbs no other list and no other
      used block. */
  lemma LinkedStep(next: Links, prev: Links, next': Links, prev': Links, h: Heap, t: Heap, k: nat, a: nat)
    requires ListsOk(h) && Linked(next, prev, h, {a}) && Total(next') && Total(prev')
    requires a in h.blocks && h.blocks[a].scale == k && MIN_BLOCK_SCALE <= k <= MAX_BLOCK_SCALE
    requires forall j | 0 <= j <= MAX_BLOCK_SCALE && j != k :: next'[Head(j)] == next[Head(j)]
    requires forall b | b != a && b !in h.lists[k] :: next'[Blk(b)] == next[Blk(b)] && prev'[Blk(b)] == prev[Blk(b)]
    requires |t.lists| == |h.lists| && (forall j | 0 <= j < |t.lists| && j != k :: t.lists[j] == h.lists[j])
    requires forall b | b in t.blocks && b != a :: b in h.blocks && t.blocks[b] == h.blocks[b]
    requires Chain(next', prev', k, t.lists[k])
    requires Live(t, a) ==> next'[Blk(a)] == Blk(a) && prev'[Blk(a)] == Blk(a)
    ensures Linked(next', prev', t, {})
  {
    forall j | MIN_BLOCK_SCALE <= j <= MAX_BLOCK_SCALE
      ensures Chain(next', prev', j, t.lists[j])
    {
      if j != k {
        OthersStay(h, j, k, a);
        ChainFrame(next, prev, next', prev', j, h.lists[j]);
      }
    }
  }

  lemma Listed(h: Heap, k: nat, a: nat)
    requires ListsOk(h) && k <= MAX_BLOCK_SCALE && a in h.lists[k]
    ensures a in h.blocks && h.blocks[a] == Block(k, true)
  {
    assert h.blocks[a] == Block(k, true);
  }

  lemma OthersStay(h: Heap, j: nat, k: nat, a: nat)
    requires ListsOk(h) && j <= MAX_BLOCK_SCALE && k <= MAX_BLOCK_SCALE && j != k
    requires a in h.blocks && h.blocks[a].scale == k
    ensures forall b | b in h.lists[j] :: b != a && b !in h.lists[k]
  {
    forall b | b in h.lists[j]
      ensures b != a && b !in h.lists[k]
    {
      Listed(h, j, b);
      if b in h.lists[k] {
        Listed(h, k, b);
      }
    }
  }

  lemma LinkedPush(next: Links, prev: Links, next': Links, prev': Links, h: Heap, a: nat)
    requires ListsOk(h) && Linked(next, prev, h, {a}) && Live(h, a)
    requires MIN_BLOCK_SCALE <= h.blocks[a].scale <= MAX_BLOCK_SCALE
    requires var k := h.blocks[a].scale;
      && next' == next[Blk(a) := if h.lists[k] == [] then Blk(a) else next[Head(k)]][Head(k) := Blk(a)]
      && prev' == (if h.lists[k] == [] then prev else prev[next[Head(k)] := Blk(a)])[Blk(a) := Head(k)]
    ensures Linked(next', prev', Push(h, a), {})
  {
    hide ListsOk, Coalesced;
    var k := h.blocks[a].scale;
    assert a !in h.lists[k] && NoDup(h.lists[k]) by { ListFacts(h, k); }
    ChainPush(next, prev, next', prev', k, h.lists[k], a);
    hide Chain;
    LinkedStep(next, prev, next', prev', h, Push(h, a), k, a);
  }

  lemma ListFacts(h: Heap, k: nat)
    requires ListsOk(h) && k <= MAX_BLOCK_SCALE
    ensures NoDup(h.lists[k]) && (forall a | Live(h, a) :: a !in h.lists[k])
    ensures forall a | Free(h, a) && h.blocks[a].scale == k :: a in h.lists[k]
  {
  }

  lemma LinkedTake(next: Links, prev: Links, next': Links, prev': Links, h: Heap, a: nat)
    requires ListsOk(h) && Linked(next, prev, h, {}) && Free(h, a)
    requires MIN_BLOCK_SCALE <= h.blocks[a].scale <= MAX_BLOCK_SCALE
    requires var b := Blk(a);
      && next' == next[prev[b] := if next[b] == b then prev[b] else next[b]][b := b]
      && prev' == (if next[b] == b then prev else prev[next[b] := prev[b]])[b := b]
    ensures Linked(next', prev', Take(h, a), {})
  {
    hide ListsOk;
    var k := h.blocks[a].scale;
    var l, t := h.lists[k], Take(h, a);
    ListFacts(h, k);
    var i :| 0 <= i < |l| && l[i] == a;
    ListedNotSelfLinked(next, prev, k, l, a);
    RemoveAt(l, i);
    ChainRemove(next, prev, next', prev', k, l, i);
    Neighbours(next, prev, k, l, i);
    hide Chain, Remove;
    LinkedStep(next, prev, next', prev', h, t, k, a);
  }

  lemma Neighbours(next: Links, prev: Links, k: nat, l: seq<nat>, i: nat)
    requires Total(next) && Total(prev) && Chain(next, prev, k, l) && i < |l|
    ensures next[Blk(l[i])].Blk? && next[Blk(l[i])].a in l
    ensures prev[Blk(l[i])] == Head(k) || (prev[Blk(l[i])].Blk? && prev[Blk(l[i])].a in l)
  {
    assert prev[Blk(l[i])] == if i == 0 then Head(k) else Blk(l[i - 1]);
  }
}
