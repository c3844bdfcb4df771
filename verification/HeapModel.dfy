/** The allocator's abstract state, its two operations and the laws that hold
    over every run of them. */
module HeapModel {
  import opened Collections
  import opened FreeList

  // The target is a Cortex-M4: 8-byte alignment, 32-bit size_t.
  const ALIGNMENT: nat := 8
  const HEADER_SIZE: nat := 8
  const MINIMUM_BLOCK_SIZE: nat := 2 * HEADER_SIZE
  const ALLOCATED_BIT: nat := 0x8000_0000
  const WORD: nat := 0x1_0000_0000

  /** A block owned by the application: its size with header, and the number of
      bytes that were asked for. */
  datatype Live = Live(size: nat, requested: nat)

  /** `live` is keyed by the address of the block's header. */
  datatype Heap = Heap(
    start: nat, end: nat, free: seq<Block>, live: map<nat, Live>, freeBytes: nat, minEver: nat)

  // ----- The invariant -----

  predicate Aligned(x: nat) { x % ALIGNMENT == 0 }

  predicate WellSized(addr: nat, size: nat) {
    Aligned(addr) && Aligned(size) && MINIMUM_BLOCK_SIZE <= size < ALLOCATED_BIT
  }

  ghost predicate Owned(live: map<nat, Live>, x: int) {
    exists a :: a in live && a <= x < a + live[a].size
  }

  ghost predicate BlockFine(b: Block, start: nat, end: nat) {
    WellSized(b.addr, b.size) && start <= b.addr && b.End() <= end
  }

  ghost predicate BlocksFine(fs: seq<Block>, start: nat, end: nat) {
    forall i :: 0 <= i < |fs| ==> BlockFine(fs[i], start, end)
  }

  ghost predicate LiveBlocksFine(h: Heap) {
    && (forall a :: a in h.live ==>
      && WellSized(a, h.live[a].size)
      && h.start <= a && a + h.live[a].size <= h.end
      && 0 < h.live[a].requested && HEADER_SIZE + h.live[a].requested <= h.live[a].size)
    && (forall a, b :: a in h.live && b in h.live && a < b ==> a + h.live[a].size <= b)
  }

  /** Each byte of the heap is in a free block or in a live block, not both. */
  ghost predicate Tiled(h: Heap) {
    forall x :: h.start <= x < h.end ==> (Covers(h.free, x) <==> !Owned(h.live, x))
  }

  ghost predicate Bounds(h: Heap) {
    Aligned(h.start) && Aligned(h.end) && 0 < h.start < h.end < WORD && h.end - h.start < ALLOCATED_BIT
  }

  ghost predicate Inv(h: Heap) {
    && Bounds(h)
    && Apart(h.free)
    && BlocksFine(h.free, h.start, h.end)
    && LiveBlocksFine(h)
    && Tiled(h)
    && h.freeBytes == Sum(h.free)
    && h.minEver <= h.freeBytes
  }

  // ----- Requests -----

  function AddWords(a: nat, b: nat): nat { (a + b) % WORD }

  /** `w` raised to a multiple of the alignment, 0 when that overflows. */
  function RoundedUp(w: nat): (r: nat)
    requires w < WORD
    ensures w + ALIGNMENT < WORD ==> Aligned(r) && w <= r < w + ALIGNMENT
  {
    if w % ALIGNMENT != 0 then
      var up := AddWords(w, ALIGNMENT - w % ALIGNMENT);
      if up > w then up else 0
    else w
  }

  /** The block size a request needs, 0 when the request is refused. */
  function Rounded(n: nat): (w: nat)
    requires n < WORD
    ensures n == 0 || n >= ALLOCATED_BIT <==> w == 0
    ensures w != 0 ==> Aligned(w) && HEADER_SIZE + n <= w < HEADER_SIZE + n + ALIGNMENT
    ensures w != 0 ==> MINIMUM_BLOCK_SIZE <= w
  {
    if n >= ALLOCATED_BIT then 0
    else if n > 0 && AddWords(n, HEADER_SIZE) > n then RoundedUp(AddWords(n, HEADER_SIZE))
    else 0
  }

  /** Index of the first block of at least `w` bytes, or the length. */
  function FirstFit(fs: seq<Block>, w: nat): (i: nat)
    ensures i <= |fs|
    ensures i < |fs| ==> w <= fs[i].size
    ensures forall j :: 0 <= j < i ==> fs[j].size < w
  {
    if fs == [] || w <= fs[0].size then 0 else
      assert forall j :: 0 < j < |fs| ==> fs[j] == fs[1..][j - 1];
      1 + FirstFit(fs[1..], w)
  }

  // ----- Taking space from a free block -----

  predicate Splits(b: Block, w: nat)
    requires w <= b.size
  {
    b.size - w > MINIMUM_BLOCK_SIZE
  }

  function TakenSize(b: Block, w: nat): (r: nat)
    requires w <= b.size
    ensures w <= r <= b.size
    ensures r <= w + MINIMUM_BLOCK_SIZE
  {
    if Splits(b, w) then w else b.size
  }

  function AfterTake(fs: seq<Block>, i: nat, w: nat): seq<Block>
    requires i < |fs| && w <= fs[i].size
  {
    var b, rest := fs[i], Without(fs, i);
    if Splits(b, w) then Insert(rest, Block(b.addr + w, b.size - w)) else rest
  }

  lemma RemainderFits(fs: seq<Block>, i: nat, w: nat)
    requires Apart(fs) && i < |fs| && w < fs[i].size
    ensures Fits(Without(fs, i), Block(fs[i].addr + w, fs[i].size - w))
  {}

  lemma AfterTakeApart(fs: seq<Block>, i: nat, w: nat)
    requires Apart(fs) && i < |fs| && w <= fs[i].size
    ensures Apart(AfterTake(fs, i, w))
    ensures Sum(AfterTake(fs, i, w)) == Sum(fs) - TakenSize(fs[i], w)
  {
    hide Insert, Without, Apart;
    var b, rest := fs[i], Without(fs, i);
    WithoutApart(fs, i);
    WithoutSum(fs, i);
    if Splits(b, w) {
      var r := Block(b.addr + w, b.size - w);
      RemainderFits(fs, i, w);
      InsertApart(rest, r);
      InsertSum(rest, r);
    }
  }

  lemma AfterTakeCovers(fs: seq<Block>, i: nat, w: nat, x: int)
    requires Apart(fs) && i < |fs| && w <= fs[i].size
    ensures Covers(AfterTake(fs, i, w), x) <==>
            Covers(fs, x) && !(fs[i].addr <= x < fs[i].addr + TakenSize(fs[i], w))
  {
    hide Insert, Without, Apart;
    var b, rest := fs[i], Without(fs, i);
    WithoutCovers(fs, i, x);
    if Splits(b, w) {
      InsertCovers(rest, Block(b.addr + w, b.size - w), x);
      assert b.Has(x) ==> Covers(fs, x);
    }
  }

  // ----- The operations -----

  /** What `prvHeapInit` sets up over the bytes [base, base + total). */
  function HeapStart(base: nat): (a: nat)
    ensures Aligned(a) && base <= a < base + ALIGNMENT
  {
    if base % ALIGNMENT != 0 then (base + ALIGNMENT - 1) / ALIGNMENT * ALIGNMENT else base
  }

  function HeapEnd(base: nat, total: nat): (a: nat)
    requires HEADER_SIZE <= base + total
    ensures Aligned(a) && a + HEADER_SIZE <= base + total < a + HEADER_SIZE + ALIGNMENT
  {
    (base + total - HEADER_SIZE) / ALIGNMENT * ALIGNMENT
  }

  /** The array is in the address space, below 2 GiB, and has room for the end
      marker and one block. */
  predicate Usable(base: nat, total: nat) {
    && 0 < base && base + total <= WORD && total < ALLOCATED_BIT
    && HEADER_SIZE <= base + total
    && HeapStart(base) + MINIMUM_BLOCK_SIZE <= HeapEnd(base, total)
  }

  function Initial(base: nat, total: nat): Heap
    requires Usable(base, total)
  {
    var s, e := HeapStart(base), HeapEnd(base, total);
    Heap(s, e, [Block(s, e - s)], map[], e - s, e - s)
  }

  function Min(a: nat, b: nat): nat { if a < b then a else b }

  /** The heap after a request for `n` bytes and the pointer returned, 0 for NULL. */
  function Malloc(h: Heap, n: nat): (Heap, nat)
    requires n < WORD
  {
    var w := Rounded(n);
    var i := FirstFit(h.free, w);
    if 0 < w <= h.freeBytes && i < |h.free| then
      var b := h.free[i];
      var taken := TakenSize(b, w);
      var left := if taken <= h.freeBytes then h.freeBytes - taken else 0;
      (Heap(h.start, h.end, AfterTake(h.free, i, w), h.live[b.addr := Live(taken, n)],
            left, Min(h.minEver, left)),
       b.addr + HEADER_SIZE)
    else (h, 0)
  }

  /** A pointer the application may release: NULL or one it holds. */
  predicate Releasable(h: Heap, p: nat) {
    p == 0 || (HEADER_SIZE <= p && p - HEADER_SIZE in h.live)
  }

  function Free(h: Heap, p: nat): Heap
    requires Releasable(h, p)
  {
    if p == 0 then h else
      var a := p - HEADER_SIZE;
      var size := h.live[a].size;
      h.(free := Insert(h.free, Block(a, size)), live := h.live - {a}, freeBytes := h.freeBytes + size)
  }

  // ----- Every operation keeps the invariant -----

  lemma InitialInv(base: nat, total: nat)
    requires Usable(base, total)
    ensures Inv(Initial(base, total))
  {
    var h := Initial(base, total);
    var b := h.free[0];
    assert h.free[1..] == [];
    forall x | h.start <= x < h.end ensures Covers(h.free, x) && !Owned(h.live, x) {
      CoversOne(b, x);
    }
  }

  /** The first-fit block of a successful request, and the space it gives up. */
  lemma MallocFacts(h: Heap, n: nat)
    requires Inv(h) && n < WORD && Malloc(h, n).1 != 0
    ensures var (w, i) := (Rounded(n), FirstFit(h.free, Rounded(n)));
      && 0 < w && i < |h.free| && w <= h.free[i].size
      && TakenSize(h.free[i], w) <= h.freeBytes
      && Malloc(h, n).1 == h.free[i].addr + HEADER_SIZE
      && WellSized(h.free[i].addr, TakenSize(h.free[i], w))
  {
    var w := Rounded(n);
    var i := FirstFit(h.free, w);
    SumAtLeastElement(h.free, i);
  }

  lemma OwnedAfterMalloc(live: map<nat, Live>, a: nat, l: Live, x: int)
    requires a !in live
    ensures Owned(live[a := l], x) <==> Owned(live, x) || a <= x < a + l.size
  {
    var more := live[a := l];
    if Owned(live, x) {
      var k :| k in live && k <= x < k + live[k].size;
      assert k in more && more[k] == live[k];
    }
    if a <= x < a + l.size {
      assert a in more;
    }
  }

  lemma OwnedAfterFree(live: map<nat, Live>, a: nat, x: int)
    requires a in live
    requires forall k, j :: k in live && j in live && k < j ==> k + live[k].size <= j
    ensures Owned(live - {a}, x) <==> Owned(live, x) && !(a <= x < a + live[a].size)
  {
    var less := live - {a};
    if Owned(live, x) && !(a <= x < a + live[a].size) {
      var k :| k in live && k <= x < k + live[k].size;
      assert k in less;
    }
  }

  /** No live block reaches into a free block. */
  lemma FreeAndLiveDisjoint(h: Heap, i: nat, a: nat)
    requires Inv(h) && i < |h.free| && a in h.live
    ensures h.free[i].End() <= a || a + h.live[a].size <= h.free[i].addr
  {
    var b := h.free[i];
    var x := if b.addr < a then a else b.addr;
    if b.addr < a + h.live[a].size && a < b.End() {
      assert b.Has(x);
      assert Covers(h.free, x);
      assert Owned(h.live, x);
      assert false;
    }
  }

  lemma JoinedFine(fs: seq<Block>, b: Block, start: nat, end: nat)
    requires end - start < ALLOCATED_BIT
    requires BlocksFine(fs, start, end) && BlockFine(b, start, end)
    ensures BlockFine(Joined(fs, b), start, end)
  {
    JoinedBounds(fs, b);
    var p := Position(fs, b.addr);
    assert p > 0 ==> BlockFine(fs[p - 1], start, end);
    assert p < |fs| ==> BlockFine(fs[p], start, end);
  }

  lemma InsertFine(fs: seq<Block>, b: Block, start: nat, end: nat)
    requires end - start < ALLOCATED_BIT
    requires BlocksFine(fs, start, end) && BlockFine(b, start, end)
    ensures BlocksFine(Insert(fs, b), start, end)
  {
    hide BlockFine, Position, Joined;
    var gs, lo, up := Insert(fs, b), Lower(fs, b), Upper(fs, b);
    JoinedFine(fs, b, start, end);
    forall i | 0 <= i < |gs| ensures BlockFine(gs[i], start, end) {
      if i < |lo| {
        assert gs[i] == fs[i];
      } else if i > |lo| {
        assert gs[i] == up[i - |lo| - 1];
      }
    }
  }

  lemma WithoutFine(fs: seq<Block>, i: nat, start: nat, end: nat)
    requires BlocksFine(fs, start, end) && i < |fs|
    ensures BlocksFine(Without(fs, i), start, end)
  {}

  lemma AfterTakeFine(fs: seq<Block>, i: nat, w: nat, start: nat, end: nat)
    requires end - start < ALLOCATED_BIT && BlocksFine(fs, start, end)
    requires i < |fs| && w <= fs[i].size && Aligned(w)
    ensures BlocksFine(AfterTake(fs, i, w), start, end)
  {
    hide Insert, Without, BlocksFine;
    assert BlockFine(fs[i], start, end) by { FineAt(fs, i, start, end); }
    WithoutFine(fs, i, start, end);
    if Splits(fs[i], w) {
      InsertFine(Without(fs, i), Block(fs[i].addr + w, fs[i].size - w), start, end);
    }
  }

  lemma FineAt(fs: seq<Block>, i: nat, start: nat, end: nat)
    requires BlocksFine(fs, start, end) && i < |fs|
    ensures BlockFine(fs[i], start, end)
  {}

  lemma MallocBlocksFine(h: Heap, n: nat)
    requires Inv(h) && n < WORD
    ensures BlocksFine(Malloc(h, n).0.free, h.start, h.end)
  {
    hide AfterTake, Apart, Tiled, BlocksFine, LiveBlocksFine;
    if Malloc(h, n).1 != 0 {
      AfterTakeFine(h.free, FirstFit(h.free, Rounded(n)), Rounded(n), h.start, h.end);
    }
  }

  lemma MallocLiveBlocksFine(h: Heap, n: nat)
    requires Inv(h) && n < WORD
    ensures LiveBlocksFine(Malloc(h, n).0)
  {
    hide Apart, Tiled, BlocksFine, AfterTake;
    if Malloc(h, n).1 != 0 {
      MallocFacts(h, n);
      var i := FirstFit(h.free, Rounded(n));
      FineAt(h.free, i, h.start, h.end);
      forall a | a in h.live
        ensures h.free[i].End() <= a || a + h.live[a].size <= h.free[i].addr
      {
        FreeAndLiveDisjoint(h, i, a);
      }
    }
  }

  lemma MallocTiled(h: Heap, n: nat)
    requires Inv(h) && n < WORD
    ensures Tiled(Malloc(h, n).0)
  {
    if Malloc(h, n).1 != 0 {
      MallocFacts(h, n);
      var w := Rounded(n);
      var i := FirstFit(h.free, w);
      var b := h.free[i];
      var l := Live(TakenSize(b, w), n);
      assert b.addr !in h.live by {
        if b.addr in h.live { FreeAndLiveDisjoint(h, i, b.addr); }
      }
      forall x | h.start <= x < h.end
        ensures Covers(AfterTake(h.free, i, w), x) <==> !Owned(h.live[b.addr := l], x)
      {
        AfterTakeCovers(h.free, i, w, x);
        OwnedAfterMalloc(h.live, b.addr, l, x);
        assert b.Has(x) ==> Covers(h.free, x);
      }
    }
  }

  lemma MallocInv(h: Heap, n: nat)
    requires Inv(h) && n < WORD
    ensures Inv(Malloc(h, n).0)
  {
    MallocBlocksFine(h, n);
    MallocLiveBlocksFine(h, n);
    MallocTiled(h, n);
    if Malloc(h, n).1 != 0 {
      MallocFacts(h, n);
      var w := Rounded(n);
      AfterTakeApart(h.free, FirstFit(h.free, w), w);
    }
  }

  lemma LiveFits(h: Heap, a: nat)
    requires Inv(h) && a in h.live
    ensures Fits(h.free, Block(a, h.live[a].size))
  {
    forall i | 0 <= i < |h.free|
      ensures h.free[i].End() <= a || a + h.live[a].size <= h.free[i].addr
    {
      FreeAndLiveDisjoint(h, i, a);
    }
  }

  lemma FreeTiled(h: Heap, p: nat)
    requires Inv(h) && Releasable(h, p)
    ensures Tiled(Free(h, p))
  {
    if p != 0 {
      var a := p - HEADER_SIZE;
      var b := Block(a, h.live[a].size);
      forall x | h.start <= x < h.end
        ensures Covers(Insert(h.free, b), x) <==> !Owned(h.live - {a}, x)
      {
        InsertCovers(h.free, b, x);
        OwnedAfterFree(h.live, a, x);
        assert b.Has(x) ==> Owned(h.live, x);
      }
    }
  }

  lemma FreeInv(h: Heap, p: nat)
    requires Inv(h) && Releasable(h, p)
    ensures Inv(Free(h, p))
  {
    if p != 0 {
      var a := p - HEADER_SIZE;
      var b := Block(a, h.live[a].size);
      LiveFits(h, a);
      InsertApart(h.free, b);
      InsertFine(h.free, b, h.start, h.end);
      InsertSum(h.free, b);
      FreeTiled(h, p);
    }
  }
}
