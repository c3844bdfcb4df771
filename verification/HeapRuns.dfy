/** The main theorems about the allocator: over one call, over a malloc and its
    free, and over every run. */
module HeapRuns {
  import opened Collections
  import opened FreeList
  import opened HeapModel

  // ----- The free list is a function of the live blocks -----

  ghost predicate SameBlocks(l: map<nat, Live>, m: map<nat, Live>) {
    l.Keys == m.Keys && forall a :: a in l ==> l[a].size == m[a].size
  }

  lemma SameBlocksOwned(l: map<nat, Live>, m: map<nat, Live>, x: int)
    requires SameBlocks(l, m)
    ensures Owned(l, x) <==> Owned(m, x)
  {}

  /** Nothing outside the heap is on the free list. */
  lemma CoversOnlyHeap(h: Heap, x: int)
    requires Inv(h) && Covers(h.free, x)
    ensures h.start <= x < h.end
  {}

  lemma FreeListDetermined(g: Heap, h: Heap)
    requires Inv(g) && Inv(h)
    requires g.start == h.start && g.end == h.end && SameBlocks(g.live, h.live)
    ensures g.free == h.free && g.freeBytes == h.freeBytes
  {
    hide Apart, BlocksFine, LiveBlocksFine, Owned, Covers, SameBlocks;
    forall x ensures Covers(g.free, x) <==> Covers(h.free, x) {
      SameBlocksOwned(g.live, h.live, x);
      if Covers(g.free, x) { CoversOnlyHeap(g, x); }
      if Covers(h.free, x) { CoversOnlyHeap(h, x); }
    }
    Canonical(g.free, h.free);
  }

  lemma OneBlockApart(b: Block)
    requires 0 < b.size
    ensures Apart([b])
  {}

  /** With nothing live, the heap is the one block it started as. */
  lemma EmptyHeapIsOneBlock(h: Heap)
    requires Inv(h) && h.live == map[]
    ensures h.free == [Block(h.start, h.end - h.start)]
    ensures h.freeBytes == h.end - h.start
  {
    hide Apart, BlocksFine, LiveBlocksFine;
    var b := Block(h.start, h.end - h.start);
    forall x ensures Covers(h.free, x) <==> Covers([b], x) {
      CoversOne(b, x);
      if Covers(h.free, x) { CoversOnlyHeap(h, x); }
    }
    OneBlockApart(b);
    Canonical(h.free, [b]);
    assert Sum([b]) == b.size by { assert [b][1..] == []; }
  }

  // ----- malloc then free -----

  /** Releasing a pointer that malloc just returned restores the free list,
      the live blocks and the byte count. */
  lemma MallocFreeRoundTrip(h: Heap, n: nat)
    requires Inv(h) && n < WORD && Malloc(h, n).1 != 0
    ensures var (g, p) := Malloc(h, n);
      && Releasable(g, p)
      && Free(g, p).free == h.free
      && Free(g, p).live == h.live
      && Free(g, p).freeBytes == h.freeBytes
  {
    var (g, p) := Malloc(h, n);
    MallocFacts(h, n);
    var i := FirstFit(h.free, Rounded(n));
    var a := h.free[i].addr;
    assert a !in h.live by {
      if a in h.live { FreeAndLiveDisjoint(h, i, a); }
    }
    RestoredFrom(h, g, a, n, p);
  }

  lemma RestoredFrom(h: Heap, g: Heap, a: nat, n: nat, p: nat)
    requires Inv(h) && n < WORD && (g, p) == Malloc(h, n) && p != 0
    requires a !in h.live && a in g.live && g.live - {a} == h.live && p == a + HEADER_SIZE
    requires g.start == h.start && g.end == h.end
    ensures Free(g, p).free == h.free && Free(g, p).live == h.live && Free(g, p).freeBytes == h.freeBytes
  {
    hide Inv, Malloc, Insert;
    MallocInv(h, n);
    FreeInv(g, p);
    FreeListDetermined(Free(g, p), h);
  }

  // ----- First fit -----

  /** The request is granted exactly when some free block is large enough, and
      then by the lowest such block. */
  lemma MallocIsFirstFit(h: Heap, n: nat)
    requires Inv(h) && 0 < n < ALLOCATED_BIT
    ensures Malloc(h, n).1 == 0 <==> forall i :: 0 <= i < |h.free| ==> h.free[i].size < Rounded(n)
    ensures Malloc(h, n).1 != 0 ==>
      exists i :: 0 <= i < |h.free| && LowestFit(h, i, Rounded(n)) && Malloc(h, n).1 == h.free[i].addr + HEADER_SIZE
    ensures Malloc(h, n).1 == 0 ==> Malloc(h, n).0 == h
  {
    var w := Rounded(n);
    var i := FirstFit(h.free, w);
    if i < |h.free| {
      SumAtLeastElement(h.free, i);
      assert Malloc(h, n).1 == h.free[i].addr + HEADER_SIZE;
      assert LowestFit(h, i, w);
    }
  }

  ghost predicate LowestFit(h: Heap, i: nat, w: nat)
    requires i < |h.free|
  {
    && w <= h.free[i].size
    && forall j :: 0 <= j < |h.free| && w <= h.free[j].size ==> h.free[i].addr <= h.free[j].addr
  }

  lemma TailPosition(fs: seq<Block>, i: nat, w: nat)
    requires Apart(fs) && i < |fs| && 0 < w < fs[i].size
    ensures Position(Without(fs, i), fs[i].addr + w) == i
  {
    var rest := Without(fs, i);
    WithoutApart(fs, i);
    assert i > 0 ==> rest[i - 1] == fs[i - 1] && fs[i - 1].End() < fs[i].addr;
    assert i < |rest| ==> rest[i] == fs[i + 1] && fs[i].End() < fs[i + 1].addr;
    hide Apart;
    PositionIs(rest, fs[i].addr + w, i);
  }

  /** The tail of a split block stays where it was in the list. */
  lemma TailInPlace(fs: seq<Block>, i: nat, w: nat)
    requires Apart(fs) && i < |fs| && 0 < w < fs[i].size
    ensures var tail := Block(fs[i].addr + w, fs[i].size - w);
      Insert(Without(fs, i), tail) == fs[i := tail]
  {
    hide Position, Apart, Insert, LeftOf, RightOf, Without;
    var tail := Block(fs[i].addr + w, fs[i].size - w);
    TailTouchesNothing(fs, i, w);
    InsertAlone(Without(fs, i), tail);
    PutBack(fs, i, tail);
  }

  lemma TailTouchesNothing(fs: seq<Block>, i: nat, w: nat)
    requires Apart(fs) && i < |fs| && 0 < w < fs[i].size
    ensures var (rest, tail) := (Without(fs, i), Block(fs[i].addr + w, fs[i].size - w));
      Position(rest, tail.addr) == i && LeftOf(rest, tail) == [] && RightOf(rest, tail) == []
  {
    var rest := Without(fs, i);
    TailPosition(fs, i, w);
    assert i > 0 ==> rest[i - 1] == fs[i - 1] && fs[i - 1].End() < fs[i].addr;
    assert i < |rest| ==> rest[i] == fs[i + 1] && fs[i].End() < fs[i + 1].addr;
    hide Position, Apart, Without;
  }

  lemma TakeIs(fs: seq<Block>, i: nat, w: nat)
    requires Apart(fs) && i < |fs| && 0 < w <= fs[i].size
    ensures var (b, whole) := (fs[i], fs[i].size <= w + MINIMUM_BLOCK_SIZE);
      && TakenSize(b, w) == (if whole then b.size else w)
      && AfterTake(fs, i, w) == (if whole then Without(fs, i) else fs[i := Block(b.addr + w, b.size - w)])
  {
    hide Insert;
    if fs[i].size > w + MINIMUM_BLOCK_SIZE { TailInPlace(fs, i, w); }
  }

  /** What a granted request takes. It takes the whole of the first-fit block if
      and only if that block is larger than needed by at most the minimum block
      size. Otherwise it takes exactly the rounded size, and the rest of the block,
      of more than the minimum size, stays in its place in the list. */
  lemma GrantedExactly(h: Heap, n: nat)
    requires Inv(h) && n < WORD && Malloc(h, n).1 != 0
    ensures Granted(h, n, Malloc(h, n).0, Malloc(h, n).1, FirstFit(h.free, Rounded(n)))
  {
    hide Inv, Rounded, FirstFit, AfterTake, TakenSize, Without, Apart, WellSized, Splits;
    MallocFacts(h, n);
    InvApart(h);
    TakeIs(h.free, FirstFit(h.free, Rounded(n)), Rounded(n));
  }

  /** `g` and `p` are what a request gets that takes space from free block `i`. */
  ghost predicate Granted(h: Heap, n: nat, g: Heap, p: nat, i: nat)
    requires n < WORD
  {
    && i < |h.free|
    && var (b, w) := (h.free[i], Rounded(n));
    && 0 < w && p == b.addr + HEADER_SIZE
    && if b.size <= w + MINIMUM_BLOCK_SIZE then
         && g.live == h.live[b.addr := Live(b.size, n)] && g.freeBytes == h.freeBytes - b.size
         && g.free == Without(h.free, i)
       else
         && g.live == h.live[b.addr := Live(w, n)] && g.freeBytes == h.freeBytes - w
         && g.free == h.free[i := Block(b.addr + w, b.size - w)]
  }

  lemma InvApart(h: Heap)
    requires Inv(h)
    ensures Apart(h.free)
  {}

  /** Requests of zero bytes, or with the top bit set, are always refused. */
  lemma RefusedRequests(h: Heap, n: nat)
    requires n < WORD && (n == 0 || ALLOCATED_BIT <= n)
    ensures Malloc(h, n) == (h, 0)
  {}

  ghost predicate IsLargest(fs: seq<Block>, m: nat) {
    && (forall i :: 0 <= i < |fs| ==> fs[i].size <= m)
    && (exists i :: 0 <= i < |fs| && fs[i].size == m)
  }

  ghost predicate IsSmallest(fs: seq<Block>, m: nat) {
    && (forall i :: 0 <= i < |fs| ==> m <= fs[i].size)
    && (exists i :: 0 <= i < |fs| && fs[i].size == m)
  }

  /** Success is the rounded request being at most the largest free block. */
  lemma MallocSucceedsIffLargestCovers(h: Heap, n: nat, largest: nat)
    requires Inv(h) && 0 < n < ALLOCATED_BIT && IsLargest(h.free, largest)
    ensures Malloc(h, n).1 != 0 <==> Rounded(n) <= largest
  {
    MallocIsFirstFit(h, n);
  }

  lemma RoundedIsExact(w: nat)
    requires Aligned(w) && MINIMUM_BLOCK_SIZE <= w < ALLOCATED_BIT
    ensures Rounded(w - HEADER_SIZE) == w
  {}

  /** On every heap, one request for the whole space leaves no free block. */
  lemma WholeHeapRequestEmptiesTheList(base: nat, total: nat)
    requires Usable(base, total)
    ensures var h := Initial(base, total);
      var (g, p) := Malloc(h, h.end - h.start - HEADER_SIZE);
      p == h.start + HEADER_SIZE && g.free == []
  {
    var h := Initial(base, total);
    RoundedIsExact(h.end - h.start);
    hide HeapStart, HeapEnd, Rounded;
    assert FirstFit(h.free, h.free[0].size) == 0;
  }

  // ----- What a holder of a pointer may rely on -----

  predicate Disjoint(a: nat, aEnd: nat, b: nat, bEnd: nat) {
    aEnd <= b || bEnd <= a
  }

  /** A live payload is aligned, as large as requested, inside the heap, and
      apart from every other live block (header included) and every free
      block. */
  lemma PayloadIsExclusive(h: Heap, a: nat)
    requires Inv(h) && a in h.live
    ensures var (p, e) := (a + HEADER_SIZE, a + h.live[a].size);
      && Aligned(p)
      && p + h.live[a].requested <= e
      && h.start <= p && e <= h.end
      && (forall b :: b in h.live && b != a ==> Disjoint(p, e, b, b + h.live[b].size))
      && (forall i :: 0 <= i < |h.free| ==> Disjoint(p, e, h.free[i].addr, h.free[i].End()))
  {
    hide Apart, Tiled, BlocksFine, Aligned, WellSized;
    AlignedPayload(a, h.live[a].size);
    forall i | 0 <= i < |h.free|
      ensures Disjoint(a + HEADER_SIZE, a + h.live[a].size, h.free[i].addr, h.free[i].End())
    {
      FreeAndLiveDisjoint(h, i, a);
    }
  }

  lemma AlignedPayload(a: nat, size: nat)
    requires WellSized(a, size)
    ensures Aligned(a + HEADER_SIZE)
  {}

  // ----- Byte accounting -----

  ghost function LiveBytes(live: map<nat, Live>): nat
    decreases |live|
  {
    if live == map[] then 0 else
      var a :| a in live;
      live[a].size + LiveBytes(live - {a})
  }

  lemma {:induction false} LiveBytesWithout(live: map<nat, Live>, a: nat)
    requires a in live
    ensures LiveBytes(live) == live[a].size + LiveBytes(live - {a})
    decreases |live|
  {
    var b :| b in live && LiveBytes(live) == live[b].size + LiveBytes(live - {b});
    if a != b {
      LiveBytesWithout(live - {b}, a);
      LiveBytesWithout(live - {a}, b);
      assert live - {a} - {b} == live - {b} - {a};
    }
  }

  /** Free and live bytes add up to the whole heap. */
  ghost predicate Conserved(h: Heap) {
    h.freeBytes + LiveBytes(h.live) == h.end - h.start
  }

  lemma InitialSound(base: nat, total: nat)
    requires Usable(base, total)
    ensures Inv(Initial(base, total)) && Conserved(Initial(base, total))
  {
    InitialInv(base, total);
  }

  lemma MallocConserved(h: Heap, n: nat)
    requires Inv(h) && n < WORD && Conserved(h)
    ensures Conserved(Malloc(h, n).0)
  {
    var (g, p) := Malloc(h, n);
    if p != 0 {
      MallocFacts(h, n);
      var i := FirstFit(h.free, Rounded(n));
      var a := h.free[i].addr;
      if a in h.live { FreeAndLiveDisjoint(h, i, a); }
      LiveBytesWithout(g.live, a);
      assert g.live - {a} == h.live;
    }
  }

  lemma FreeConserved(h: Heap, p: nat)
    requires Conserved(h) && Releasable(h, p)
    ensures Conserved(Free(h, p))
  {
    if p != 0 {
      LiveBytesWithout(h.live, p - HEADER_SIZE);
    }
  }

  // ----- Whole runs -----

  datatype Call = Allocate(n: nat) | Release(p: nat)

  predicate Allowed(h: Heap, c: Call) {
    match c
    case Allocate(n) => n < WORD
    case Release(p) => Releasable(h, p)
  }

  function Step(h: Heap, c: Call): Heap
    requires Allowed(h, c)
  {
    match c
    case Allocate(n) => Malloc(h, n).0
    case Release(p) => Free(h, p)
  }

  /** Every call is one the application may make at that point. */
  ghost predicate AllowedRun(h: Heap, calls: seq<Call>)
    decreases |calls|
  {
    calls == [] || (Allowed(h, calls[0]) && AllowedRun(Step(h, calls[0]), calls[1..]))
  }

  /** The heaps before the first call and after each call. */
  ghost function Trace(h: Heap, calls: seq<Call>): (hs: seq<Heap>)
    requires AllowedRun(h, calls)
    ensures |hs| == |calls| + 1 && hs[0] == h
    decreases |calls|
  {
    if calls == [] then [h] else [h] + Trace(Step(h, calls[0]), calls[1..])
  }

  ghost function Final(h: Heap, calls: seq<Call>): Heap
    requires AllowedRun(h, calls)
  {
    Trace(h, calls)[|calls|]
  }

  lemma StepInv(h: Heap, c: Call)
    requires Inv(h) && Conserved(h) && Allowed(h, c)
    ensures Inv(Step(h, c)) && Conserved(Step(h, c))
    ensures Step(h, c).start == h.start && Step(h, c).end == h.end
    ensures Step(h, c).minEver == Min(h.minEver, Step(h, c).freeBytes)
  {
    hide Inv, Conserved, Insert, AfterTake;
    match c
    case Allocate(n) =>
      MallocInv(h, n);
      MallocConserved(h, n);
      MinNow(h);
    case Release(p) =>
      FreeInv(h, p);
      FreeConserved(h, p);
      MinNow(h);
  }

  lemma MinNow(h: Heap)
    requires Inv(h)
    ensures h.minEver <= h.freeBytes
  {}

  /** The lowest free byte count in the trace. */
  ghost predicate IsMinimum(hs: seq<Heap>, m: nat, seed: nat) {
    && (forall k :: 0 <= k < |hs| ==> m <= hs[k].freeBytes)
    && (m == seed || exists k :: 0 <= k < |hs| && hs[k].freeBytes == m)
  }

  lemma {:induction false} RunInv(h: Heap, calls: seq<Call>)
    requires Inv(h) && Conserved(h) && AllowedRun(h, calls)
    ensures forall k :: 0 <= k <= |calls| ==>
      var g := Trace(h, calls)[k];
      Inv(g) && Conserved(g) && g.start == h.start && g.end == h.end
    ensures IsMinimum(Trace(h, calls), Final(h, calls).minEver, h.minEver)
    ensures Final(h, calls).minEver <= h.minEver
    decreases |calls|
  {
    hide Inv, Conserved, Step;
    MinNow(h);
    if calls != [] {
      var g := Step(h, calls[0]);
      StepInv(h, calls[0]);
      RunInv(g, calls[1..]);
      RunMinimum(h, calls);
    }
  }

  lemma RunMinimum(h: Heap, calls: seq<Call>)
    requires calls != [] && AllowedRun(h, calls) && h.minEver <= h.freeBytes
    requires var g := Step(h, calls[0]);
      && g.minEver == Min(h.minEver, g.freeBytes)
      && IsMinimum(Trace(g, calls[1..]), Final(g, calls[1..]).minEver, g.minEver)
      && Final(g, calls[1..]).minEver <= g.minEver
    ensures Final(h, calls) == Final(Step(h, calls[0]), calls[1..])
    ensures IsMinimum(Trace(h, calls), Final(h, calls).minEver, h.minEver)
  {
    hide Step, IsMinimum;
    var g := Step(h, calls[0]);
    var rest := Trace(g, calls[1..]);
    assert Trace(h, calls) == [h] + rest;
    assert rest[0] == g;
    MinimumExtends(h, rest, Final(g, calls[1..]).minEver);
  }

  /** One more state in front of the trace keeps the minimum. */
  lemma MinimumExtends(h: Heap, rest: seq<Heap>, m: nat)
    requires rest != [] && h.minEver <= h.freeBytes
    requires rest[0].minEver == Min(h.minEver, rest[0].freeBytes)
    requires IsMinimum(rest, m, rest[0].minEver) && m <= rest[0].minEver
    ensures IsMinimum([h] + rest, m, h.minEver)
  {
    var hs := [h] + rest;
    if m != h.minEver {
      if m == rest[0].minEver {
        assert hs[1].freeBytes == m;
      } else {
        var k :| 0 <= k < |rest| && rest[k].freeBytes == m;
        assert hs[k + 1].freeBytes == m;
      }
    }
  }

  /** Over every run from `prvHeapInit`: the structure and the byte counts are
      right after every call, and the recorded minimum is the true minimum. */
  lemma EveryRun(base: nat, total: nat, calls: seq<Call>)
    requires Usable(base, total) && AllowedRun(Initial(base, total), calls)
    ensures var hs := Trace(Initial(base, total), calls);
      && (forall k :: 0 <= k < |hs| ==> Inv(hs[k]) && Conserved(hs[k]))
      && (forall k :: 0 <= k < |hs| ==> hs[|calls|].minEver <= hs[k].freeBytes)
      && (exists k :: 0 <= k < |hs| && hs[k].freeBytes == hs[|calls|].minEver)
  {
    var h := Initial(base, total);
    InitialSound(base, total);
    RunInv(h, calls);
    var hs := Trace(h, calls);
    if hs[|calls|].minEver == h.minEver {
      assert hs[0].freeBytes == hs[|calls|].minEver;
    }
  }

  /** Two runs that leave the same blocks live leave the same free list,
      whatever the calls were and in whatever order. */
  lemma FreeListIgnoresHistory(base: nat, total: nat, calls: seq<Call>, others: seq<Call>)
    requires Usable(base, total)
    requires AllowedRun(Initial(base, total), calls) && AllowedRun(Initial(base, total), others)
    requires SameBlocks(Final(Initial(base, total), calls).live, Final(Initial(base, total), others).live)
    ensures Final(Initial(base, total), calls).free == Final(Initial(base, total), others).free
  {
    hide Inv, Conserved, IsMinimum, AllowedRun, Trace, HeapStart, HeapEnd, SameBlocks;
    var h := Initial(base, total);
    InitialSound(base, total);
    RunInv(h, calls);
    RunInv(h, others);
    FreeListDetermined(Final(h, calls), Final(h, others));
  }

  /** Releasing everything, in any order, gives back the initial block. */
  lemma ReleasingEverythingRestoresTheHeap(base: nat, total: nat, calls: seq<Call>)
    requires Usable(base, total) && AllowedRun(Initial(base, total), calls)
    requires Final(Initial(base, total), calls).live == map[]
    ensures Final(Initial(base, total), calls).free == Initial(base, total).free
    ensures Final(Initial(base, total), calls).freeBytes == Initial(base, total).freeBytes
  {
    hide Inv, Conserved, IsMinimum, AllowedRun, Trace, HeapStart, HeapEnd;
    var h := Initial(base, total);
    InitialSound(base, total);
    RunInv(h, calls);
    EmptyHeapIsOneBlock(Final(h, calls));
  }
}
