/** Loading an ELF file: how much memory its segments need, and copying them there. */
module ElfLoader {
  import opened CStrings
  import opened PowersOfTwo
  import HeapOperations

  const PROGRAM_TYPE_LOAD: nat := 1

  /** The fields of a program header that the loader reads; all are 32-bit words. */
  datatype Phdr = Phdr(pType: nat, offset: nat, vaddr: nat, filesz: nat, memsz: nat)

  /** Headers that the loops do not skip: loadable ones, and empty ones of any type. */
  predicate Kept(h: Phdr) {
    !(h.pType != PROGRAM_TYPE_LOAD && h.memsz > 0)
  }

  predicate NoWrap(h: Phdr) {
    h.vaddr + h.memsz < WORD && h.filesz < WORD
  }

  /** What a 32-bit register makes of `x`. */
  function Word(x: int): (w: nat)
    ensures 0 <= x < WORD ==> w == x
    ensures w < WORD && (x - w) % WORD == 0
  {
    x % WORD
  }

  datatype Extent = Extent(size: nat, minVaddr: nat)

  /** One round of the extent loop, in 32-bit arithmetic. */
  function Widen(e: Extent, h: Phdr): Extent {
    if !Kept(h) then e else
      var lowered :=
        if h.vaddr < e.minVaddr then
          Extent(if e.size > 0 then Word(e.size + (e.minVaddr - h.vaddr)) else h.memsz, h.vaddr)
        else e;
      if Word(h.vaddr + h.memsz) > Word(lowered.minVaddr + lowered.size)
      then Extent(Word(h.vaddr + h.memsz - lowered.minVaddr), lowered.minVaddr)
      else lowered
  }

  function ExtentOf(headers: seq<Phdr>): Extent {
    if headers == [] then Extent(0, WORD - 1)
    else Widen(ExtentOf(headers[..|headers| - 1]), headers[|headers| - 1])
  }

  /** What an extent says of the headers seen: it starts at the lowest kept header, covers every kept
      segment that is not empty, and ends where some kept segment ends. */
  ghost predicate Spans(e: Extent, headers: seq<Phdr>) {
    && e.minVaddr < WORD && e.minVaddr + e.size < WORD
    && (forall h | h in headers && Kept(h) :: e.minVaddr <= h.vaddr)
    && (forall h | h in headers && Kept(h) && h.memsz > 0 :: h.vaddr + h.memsz <= e.minVaddr + e.size)
    && (e.minVaddr == WORD - 1 || exists h :: h in headers && Kept(h) && h.vaddr == e.minVaddr)
    && (e.size == 0 || exists h :: h in headers && Kept(h) && h.vaddr + h.memsz == e.minVaddr + e.size)
  }

  /** Where nothing wraps, widening is minimum and maximum, except that an empty extent forgets where
      it ended. */
  lemma WidenIs(e: Extent, h: Phdr)
    requires e.minVaddr + e.size < WORD && NoWrap(h) && Kept(h)
    ensures var t := Widen(e, h);
      var kept := if h.vaddr < e.minVaddr && e.size == 0 then 0 else e.minVaddr + e.size;
      && t.minVaddr == (if h.vaddr < e.minVaddr then h.vaddr else e.minVaddr)
      && t.minVaddr + t.size == (if h.vaddr + h.memsz > kept then h.vaddr + h.memsz else kept)
  {
    hide Word;
  }

  lemma WidenSpans(e: Extent, headers: seq<Phdr>, h: Phdr)
    requires Spans(e, headers) && NoWrap(h)
    ensures Spans(Widen(e, h), headers + [h])
  {
    var all := headers + [h];
    assert forall g :: g in all <==> g in headers || g == h;
    if Kept(h) {
      WidenIs(e, h);
      hide Widen;
      assert h in all;
      if h.vaddr < e.minVaddr && e.size == 0 {
        assert forall g | g in headers && Kept(g) :: g.memsz == 0 || g.vaddr + g.memsz <= e.minVaddr;
      }
    }
  }

  lemma {:induction false} ExtentSpans(headers: seq<Phdr>)
    requires forall h | h in headers :: NoWrap(h)
    ensures Spans(ExtentOf(headers), headers)
  {
    if headers != [] {
      var k := |headers| - 1;
      ExtentSpans(headers[..k]);
      WidenSpans(ExtentOf(headers[..k]), headers[..k], headers[k]);
      assert headers[..k] + [headers[k]] == headers;
    }
  }

  method ComputeExtent(headers: seq<Phdr>) returns (size: nat, minVaddr: nat)
    ensures ExtentOf(headers) == Extent(size, minVaddr)
    ensures (forall h | h in headers :: NoWrap(h)) ==> Spans(Extent(size, minVaddr), headers)
  {
    hide Spans, Word, ExtentOf;
    NoExtent();
    size, minVaddr := 0, WORD - 1;
    assert headers[..0] == [];
    for i := 0 to |headers|
      invariant ExtentOf(headers[..i]) == Extent(size, minVaddr)
    {
      ExtentStep(headers, i);
      var header := headers[i];
      if header.pType != PROGRAM_TYPE_LOAD && header.memsz > 0 {
        continue;
      }
      if header.vaddr < minVaddr {
        if size > 0 {
          size := Word(size + (minVaddr - header.vaddr));
        } else {
          size := header.memsz;
        }
        minVaddr := header.vaddr;
      }
      if Word(header.vaddr + header.memsz) > Word(minVaddr + size) {
        size := Word(header.vaddr + header.memsz - minVaddr);
      }
    }
    assert headers[..|headers|] == headers;
    if forall h | h in headers :: NoWrap(h) {
      ExtentSpans(headers);
    }
  }

  lemma NoExtent()
    ensures ExtentOf([]) == Extent(0, WORD - 1)
  {
  }

  lemma ExtentStep(headers: seq<Phdr>, i: nat)
    requires i < |headers|
    ensures ExtentOf(headers[..i + 1]) == Widen(ExtentOf(headers[..i]), headers[i])
  {
    hide Widen;
    assert headers[..i + 1][..i] == headers[..i];
  }

  /** Up to and with header `i` the kept headers are empty segments at addresses that never rise. */
  ghost predicate Leading(headers: seq<Phdr>, i: int)
    requires i < |headers|
  {
    && (forall j | 0 <= j <= i && Kept(headers[j]) :: headers[j].memsz == 0)
    && (forall j, k | 0 <= j < k <= i && Kept(headers[j]) && Kept(headers[k]) :: headers[k].vaddr <= headers[j].vaddr)
  }

  /** A kept header that the extent does not forget. */
  ghost predicate Lasting(headers: seq<Phdr>, i: int) {
    0 <= i < |headers| && Kept(headers[i]) && !Leading(headers, i)
  }

  /** An extent ends where the farthest lasting header ends, and is empty when there is none. */
  ghost predicate EndsAt(e: Extent, headers: seq<Phdr>) {
    && (forall i | Lasting(headers, i) :: headers[i].vaddr + headers[i].memsz <= e.minVaddr + e.size)
    && (if e.size == 0 then forall i :: !Lasting(headers, i)
        else exists i :: Lasting(headers, i) && headers[i].vaddr + headers[i].memsz == e.minVaddr + e.size)
  }

  lemma LastingStays(headers: seq<Phdr>, h: Phdr, i: int)
    requires 0 <= i < |headers|
    ensures Lasting(headers + [h], i) <==> Lasting(headers, i)
    ensures (headers + [h])[i] == headers[i]
  {
    var all := headers + [h];
    assert forall j | 0 <= j <= i :: all[j] == headers[j];
  }

  /** After a lasting header every kept one is lasting. */
  lemma LastingGoesOn(headers: seq<Phdr>, h: Phdr, k: int)
    requires Lasting(headers, k) && Kept(h)
    ensures Lasting(headers + [h], |headers|)
  {
    LastingStays(headers, h, k);
  }

  /** While no header is lasting, one is that is not empty or lies above where the extent starts. */
  lemma LastingFirst(e: Extent, headers: seq<Phdr>, h: Phdr)
    requires Spans(e, headers) && (forall i :: !Lasting(headers, i)) && NoWrap(h) && Kept(h)
    ensures Lasting(headers + [h], |headers|) <==> h.memsz > 0 || h.vaddr > e.minVaddr
  {
    var all, n := headers + [h], |headers|;
    assert all[n] == h && forall j | 0 <= j < n :: all[j] == headers[j];
    forall j | 0 <= j < n && Kept(headers[j])
      ensures Leading(headers, j) && e.minVaddr <= headers[j].vaddr && Kept(all[j])
    {
      assert !Lasting(headers, j);
      assert headers[j] in headers;
    }
    if e.minVaddr != WORD - 1 {
      var g :| g in headers && Kept(g) && g.vaddr == e.minVaddr;
      var j :| 0 <= j < n && headers[j] == g;
      assert Kept(all[j]) && all[j].vaddr == e.minVaddr;
    }
    hide Spans;
  }

  lemma WidenEnds(e: Extent, headers: seq<Phdr>, h: Phdr)
    requires Spans(e, headers) && EndsAt(e, headers) && NoWrap(h)
    ensures EndsAt(Widen(e, h), headers + [h])
  {
    hide Widen, Lasting;
    var all, n := headers + [h], |headers|;
    forall i | 0 <= i < n
      ensures (Lasting(all, i) <==> Lasting(headers, i)) && all[i] == headers[i]
    {
      LastingStays(headers, h, i);
    }
    LastingBounds(headers);
    LastingBounds(all);
    assert all[n] == h;
    if Kept(h) {
      WidenIs(e, h);
      if e.size > 0 {
        var k :| Lasting(headers, k) && headers[k].vaddr + headers[k].memsz == e.minVaddr + e.size;
        LastingGoesOn(headers, h, k);
        assert Lasting(all, k);
      } else {
        LastingFirst(e, headers, h);
      }
    } else {
      WidenSkips(e, h);
    }
    hide Spans;
  }

  lemma LastingBounds(headers: seq<Phdr>)
    ensures forall i | Lasting(headers, i) :: 0 <= i < |headers| && Kept(headers[i])
  {
  }

  lemma WidenSkips(e: Extent, h: Phdr)
    requires !Kept(h)
    ensures Widen(e, h) == e
  {
  }

  lemma {:induction false} ExtentEnds(headers: seq<Phdr>)
    requires forall h | h in headers :: NoWrap(h)
    ensures EndsAt(ExtentOf(headers), headers)
  {
    hide Widen, Leading;
    if headers != [] {
      var k := |headers| - 1;
      ExtentSpans(headers[..k]);
      ExtentEnds(headers[..k]);
      WidenEnds(ExtentOf(headers[..k]), headers[..k], headers[k]);
      assert headers[..k] + [headers[k]] == headers;
    }
  }

  predicate Solid(h: Phdr) {
    Kept(h) && h.memsz > 0
  }

  /** The extent is the exact hull of the kept segments that are not empty. */
  ghost predicate ExactHull(headers: seq<Phdr>, e: Extent) {
    && (forall h | h in headers && Solid(h) :: e.minVaddr <= h.vaddr && h.vaddr + h.memsz <= e.minVaddr + e.size)
    && (exists h :: h in headers && Solid(h) && h.vaddr == e.minVaddr)
    && (exists h :: h in headers && Solid(h) && h.vaddr + h.memsz == e.minVaddr + e.size)
  }

  /** Some segment is not empty, no empty one lies below all of those, and an empty one that lies
      above them all comes early enough to be forgotten. */
  ghost predicate EmptiesHarmless(headers: seq<Phdr>) {
    && (exists s :: s in headers && Solid(s))
    && (forall h | h in headers && Kept(h) && h.memsz == 0 ::
          exists s :: s in headers && Solid(s) && s.vaddr <= h.vaddr)
    && (forall i | Lasting(headers, i) && headers[i].memsz == 0 ::
          exists s :: s in headers && Solid(s) && headers[i].vaddr <= s.vaddr + s.memsz)
  }

  /** The extent is the exact hull of the kept segments that are not empty exactly when the empty
      ones are harmless; they are when there are none. */
  lemma ExtentIsHullIff(headers: seq<Phdr>)
    requires forall h | h in headers :: NoWrap(h)
    ensures ExactHull(headers, ExtentOf(headers)) <==> EmptiesHarmless(headers)
  {
    hide ExtentOf;
    var e := ExtentOf(headers);
    ExtentSpans(headers);
    ExtentEnds(headers);
    if ExactHull(headers, e) {
      HullHarmless(headers, e);
    }
    if EmptiesHarmless(headers) {
      HarmlessHull(headers, e);
    }
  }

  lemma HullHarmless(headers: seq<Phdr>, e: Extent)
    requires Spans(e, headers) && EndsAt(e, headers) && ExactHull(headers, e)
    ensures EmptiesHarmless(headers)
  {
    LastingBounds(headers);
    hide Lasting;
    var lo :| lo in headers && Solid(lo) && lo.vaddr == e.minVaddr;
    var hi :| hi in headers && Solid(hi) && hi.vaddr + hi.memsz == e.minVaddr + e.size;
    assert forall h | h in headers && Kept(h) && h.memsz == 0 :: lo.vaddr <= h.vaddr;
    assert forall i | Lasting(headers, i) && headers[i].memsz == 0 :: headers[i].vaddr <= hi.vaddr + hi.memsz;
  }

  lemma SolidLasts(headers: seq<Phdr>, s: Phdr)
    requires s in headers && Solid(s)
    ensures exists i :: Lasting(headers, i) && headers[i] == s
  {
    var i :| 0 <= i < |headers| && headers[i] == s;
    assert Lasting(headers, i);
  }

  lemma HarmlessHull(headers: seq<Phdr>, e: Extent)
    requires Spans(e, headers) && EndsAt(e, headers) && EmptiesHarmless(headers)
    requires forall h | h in headers :: NoWrap(h)
    ensures ExactHull(headers, e)
  {
    LastingBounds(headers);
    hide Lasting;
    var s :| s in headers && Solid(s);
    SolidLasts(headers, s);
    var i :| Lasting(headers, i) && headers[i].vaddr + headers[i].memsz == e.minVaddr + e.size;
    var g :| g in headers && Kept(g) && g.vaddr == e.minVaddr;
    assert Solid(g) || g.memsz == 0;
    assert headers[i] in headers && (Solid(headers[i]) || headers[i].memsz == 0);
  }

  /** An empty kept segment beyond the others stretches the extent: it is then not the exact hull. */
  lemma EmptySegmentStretches()
    ensures var headers := [Phdr(PROGRAM_TYPE_LOAD, 0, 0, 10, 10), Phdr(PROGRAM_TYPE_LOAD, 0, 50, 0, 0)];
      ExtentOf(headers) == Extent(50, 0) && !ExactHull(headers, ExtentOf(headers))
  {
    var headers := [Phdr(PROGRAM_TYPE_LOAD, 0, 0, 10, 10), Phdr(PROGRAM_TYPE_LOAD, 0, 50, 0, 0)];
    assert headers[..1] == [headers[0]];
    assert ExtentOf(headers[..1]) == Extent(10, 0) by {
      assert headers[..1][..0] == [];
    }
    assert forall h :: h in headers <==> h == headers[0] || h == headers[1];
  }

  /** A header that is not loadable counts exactly when it is empty. */
  lemma NotLoadableCounts()
    ensures ExtentOf([Phdr(PROGRAM_TYPE_LOAD, 0, 0, 10, 10), Phdr(2, 0, 50, 0, 0)]) == Extent(50, 0)
    ensures ExtentOf([Phdr(PROGRAM_TYPE_LOAD, 0, 0, 10, 10), Phdr(2, 0, 50, 5, 5)]) == Extent(10, 0)
  {
    var first := Phdr(PROGRAM_TYPE_LOAD, 0, 0, 10, 10);
    assert ExtentOf([first]) == Extent(10, 0) by {
      assert [first][..0] == [];
    }
    assert [first, Phdr(2, 0, 50, 0, 0)][..1] == [first];
    assert [first, Phdr(2, 0, 50, 5, 5)][..1] == [first];
  }

  // ----- copying -----

  /** The bytes, counted from the start of the allocated space, that loading a header writes: the
      copy of the file's part, and the zeroes, whose number is taken modulo 2^32. */
  predicate Writes(h: Phdr, x: nat) {
    x < h.filesz || h.filesz <= x < h.filesz + Word(h.memsz - h.filesz)
  }

  /** `allocate` meets the request for this many bytes; otherwise the loader gives up before it writes. */
  predicate SpaceFor(headers: seq<Phdr>) {
    HeapOperations.Allocatable(ExtentOf(headers).size)
  }

  /** The loader writes nothing outside the space it has allocated. */
  ghost predicate WritesInside(headers: seq<Phdr>) {
    SpaceFor(headers) ==>
      forall h, x: nat | h in headers && Kept(h) && Writes(h, x) :: x < ExtentOf(headers).size
  }

  /** Loading stays inside the allocated span exactly when there is none, or no kept segment has more
      bytes in the file than in memory. */
  lemma WritesStayInside(headers: seq<Phdr>)
    requires forall h | h in headers :: NoWrap(h)
    ensures WritesInside(headers) <==> (SpaceFor(headers) ==> forall h | h in headers && Kept(h) :: h.filesz <= h.memsz)
  {
    ExtentSpans(headers);
    hide ExtentOf, SpaceFor;
    var e := ExtentOf(headers);
    if WritesInside(headers) && SpaceFor(headers) {
      forall h | h in headers && Kept(h)
        ensures h.filesz <= h.memsz
      {
        assert h.filesz > h.memsz ==> Writes(h, WORD + h.memsz - 1);
      }
    }
  }

  /** A header for which the space is allocated and then overrun. */
  lemma FilePartOverruns()
    ensures var headers := [Phdr(PROGRAM_TYPE_LOAD, 0, 0, 20, 10)];
      ExtentOf(headers) == Extent(10, 0) && SpaceFor(headers) && !WritesInside(headers)
  {
    var headers := [Phdr(PROGRAM_TYPE_LOAD, 0, 0, 20, 10)];
    assert headers[..0] == [];
    assert headers[0] in headers && Kept(headers[0]) && Writes(headers[0], 10);
  }

  /** A header with more bytes in the file than in memory that is harmless: no space is allocated. */
  lemma NoSpaceNoWrites()
    ensures var headers := [Phdr(PROGRAM_TYPE_LOAD, 0, 0, 5, 0)];
      !SpaceFor(headers) && WritesInside(headers)
  {
    var headers := [Phdr(PROGRAM_TYPE_LOAD, 0, 0, 5, 0)];
    assert headers[..0] == [];
    assert ExtentOf(headers).size == 0;
  }

  /** The space after one header has been loaded: file bytes, zeroes, and what was there beyond. */
  function Loaded(text: seq<int>, data: seq<int>, h: Phdr): (t: seq<int>)
    requires h.filesz <= h.memsz <= |text| && h.offset + h.filesz <= |data|
    ensures |t| == |text|
  {
    data[h.offset..h.offset + h.filesz] + seq(h.memsz - h.filesz, _ => 0) + text[h.memsz..]
  }

  ghost predicate Loadable(text: nat, data: nat, headers: seq<Phdr>) {
    forall h | h in headers && Kept(h) :: h.filesz <= h.memsz <= text && h.offset + h.filesz <= data
  }

  /** Every kept header is loaded at the same base, in order. */
  ghost function AllLoaded(text: seq<int>, data: seq<int>, headers: seq<Phdr>): (t: seq<int>)
    requires Loadable(|text|, |data|, headers)
    ensures |t| == |text|
  {
    if headers == [] then text else
      var k := |headers| - 1;
      var t := AllLoaded(text, data, headers[..k]);
      if Kept(headers[k]) then Loaded(t, data, headers[k]) else t
  }

  // ----- what ends up where -----

  /** Loading this header writes the byte at `x`. */
  predicate Reaches(headers: seq<Phdr>, k: int, x: nat) {
    0 <= k < |headers| && Kept(headers[k]) && x < headers[k].memsz
  }

  /** The last header that writes the byte at `x`. */
  ghost predicate Decides(headers: seq<Phdr>, k: int, x: nat) {
    Reaches(headers, k, x) && forall j | k < j < |headers| :: !Reaches(headers, j, x)
  }

  /** The byte at `x`, once `b` has been loaded over `was`: the file's byte or a zero, as the last header
      says that writes there, or what was there before. */
  ghost predicate ByteIs(was: int, data: seq<int>, headers: seq<Phdr>, x: nat, b: int)
    requires forall h | h in headers && Kept(h) :: h.offset + h.filesz <= |data|
  {
    && (forall k | Decides(headers, k, x) ::
          b == if x < headers[k].filesz then (assert headers[k] in headers; data[headers[k].offset + x]) else 0)
    && ((forall k :: !Reaches(headers, k, x)) ==> b == was)
  }

  ghost predicate ImageIs(was: seq<int>, data: seq<int>, headers: seq<Phdr>, t: seq<int>)
    requires |t| == |was| && forall h | h in headers && Kept(h) :: h.offset + h.filesz <= |data|
  {
    forall x: nat | x < |t| :: ByteIs(was[x], data, headers, x, t[x])
  }

  /** Where some header writes, one is the last to do so. */
  lemma {:induction false} DeciderExists(headers: seq<Phdr>, x: nat, k: int) returns (d: int)
    requires Reaches(headers, k, x)
    ensures Decides(headers, d, x)
    decreases |headers| - k
  {
    if j :| k < j < |headers| && Reaches(headers, j, x) {
      d := DeciderExists(headers, x, j);
    } else {
      d := k;
    }
  }

  lemma ReachesPrefix(headers: seq<Phdr>, k: int, x: nat)
    requires headers != [] && k < |headers| - 1
    ensures Reaches(headers[..|headers| - 1], k, x) <==> Reaches(headers, k, x)
  {
  }

  /** One more header, seen at one byte. */
  lemma ByteStep(was: int, data: seq<int>, headers: seq<Phdr>, x: nat, b: int, b': int)
    requires headers != [] && forall h | h in headers && Kept(h) :: h.offset + h.filesz <= |data|
    requires ByteIs(was, data, headers[..|headers| - 1], x, b)
    requires var h := headers[|headers| - 1];
      b' == if Kept(h) && x < h.memsz then (if x < h.filesz then data[h.offset + x] else 0) else b
    ensures ByteIs(was, data, headers, x, b')
  {
    var n := |headers| - 1;
    forall k | 0 <= k < n
      ensures Reaches(headers[..n], k, x) <==> Reaches(headers, k, x)
    {
      ReachesPrefix(headers, k, x);
    }
    if !Reaches(headers, n, x) {
      forall k | Decides(headers, k, x)
        ensures Decides(headers[..n], k, x) && headers[..n][k] == headers[k]
      {
      }
    }
  }

  lemma {:induction false} ImageOfAll(text: seq<int>, data: seq<int>, headers: seq<Phdr>)
    requires Loadable(|text|, |data|, headers)
    ensures ImageIs(text, data, headers, AllLoaded(text, data, headers))
  {
    hide ByteIs, Loaded;
    if headers == [] {
      forall x: nat | x < |text|
        ensures ByteIs(text[x], data, headers, x, text[x])
      {
        NothingLoaded(text[x], data, x);
      }
    } else {
      var n := |headers| - 1;
      var t := AllLoaded(text, data, headers[..n]);
      ImageOfAll(text, data, headers[..n]);
      forall x: nat | x < |text|
        ensures ByteIs(text[x], data, headers, x, AllLoaded(text, data, headers)[x])
      {
        if Kept(headers[n]) {
          LoadedAt(t, data, headers[n], x);
        }
        ByteStep(text[x], data, headers, x, t[x], AllLoaded(text, data, headers)[x]);
      }
    }
  }

  lemma NothingLoaded(was: int, data: seq<int>, x: nat)
    ensures ByteIs(was, data, [], x, was)
  {
  }

  lemma LoadedAt(text: seq<int>, data: seq<int>, h: Phdr, x: nat)
    requires h.filesz <= h.memsz <= |text| && h.offset + h.filesz <= |data| && x < |text|
    ensures Loaded(text, data, h)[x] ==
      if x < h.filesz then data[h.offset + x] else if x < h.memsz then 0 else text[x]
  {
  }

  /** The copy and zero loop; all its writes are inside the buffer. */
  method CopySegments(text: array<int>, data: array<int>, headers: seq<Phdr>)
    requires text != data && Loadable(text.Length, data.Length, headers)
    modifies text
    ensures text[..] == AllLoaded(old(text[..]), data[..], headers)
    ensures ImageIs(old(text[..]), data[..], headers, text[..])
  {
    hide ImageIs;
    ImageOfAll(text[..], data[..], headers);
    for i := 0 to |headers|
      invariant text[..] == AllLoaded(old(text[..]), data[..], headers[..i])
    {
      assert headers[..i + 1][..i] == headers[..i];
      var header := headers[i];
      if header.pType != PROGRAM_TYPE_LOAD && header.memsz > 0 {
        continue;
      }
      assert header in headers && Kept(header);
      CopyOne(text, data, header);
    }
    assert headers[..|headers|] == headers;
  }

  method CopyOne(text: array<int>, data: array<int>, header: Phdr)
    requires text != data && header.filesz <= header.memsz <= text.Length
    requires header.offset + header.filesz <= data.Length
    modifies text
    ensures text[..] == Loaded(old(text[..]), data[..], header)
  {
    MemCpy(text, 0, data[header.offset..header.offset + header.filesz]);
    assert forall k | 0 <= k < header.filesz :: text[k] == data[header.offset + k];
    for i := 0 to header.memsz - header.filesz
      invariant forall k | 0 <= k < header.filesz :: text[k] == data[header.offset + k]
      invariant forall k | header.filesz <= k < header.filesz + i :: text[k] == 0
      invariant forall k | header.filesz + i <= k < text.Length :: text[k] == old(text[k])
    {
      text[header.filesz + i] := 0;
    }
  }

  /** The loader up to the stack: the extent, the space, and the segments in it; NULL and no write
      exactly when the space is refused. */
  method LoadImage(data: array<int>, headers: seq<Phdr>) returns (text: array?<int>)
    requires forall h | h in headers :: NoWrap(h)
    requires forall h | h in headers && Kept(h) :: h.filesz <= h.memsz && h.offset + h.filesz <= data.Length
    ensures text == null <==> !SpaceFor(headers)
    ensures text != null ==>
      && fresh(text) && text.Length == ExtentOf(headers).size && Loadable(text.Length, data.Length, headers)
      && exists was: seq<int> ::
           && |was| == text.Length && text[..] == AllLoaded(was, data[..], headers)
           && ImageIs(was, data[..], headers, text[..])
  {
    hide ExtentOf, AllLoaded, Loaded, ImageIs;
    var size, _ := ComputeExtent(headers);
    if !HeapOperations.Allocatable(size) {
      return null;
    }
    var space := new int[size];
    ghost var was := space[..];
    CopySegments(space, data, headers);
    assert space[..] == AllLoaded(was, data[..], headers);
    text := space;
  }
}
