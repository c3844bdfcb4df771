/** The allocator as it runs: block headers linked through memory, searched and
    rewritten in place, proved against the operations of HeapModel. */
module HeapAllocator {
  import opened Collections
  import opened FreeList
  import opened HeapModel
  import HeapRuns

  const NULL: nat := 0

  datatype BlockLink = BlockLink(next: nat, size: nat)

  type Memory = map<nat, BlockLink>

  // ----- The free list in memory -----

  /** Node `k` of the list: the start marker, the free blocks, the end marker. */
  ghost function NodeAt(first: nat, fs: seq<Block>, last: nat, k: nat): nat {
    if k == 0 then first else if k <= |fs| then fs[k - 1].addr else last
  }

  ghost predicate LinkFrom(mem: Memory, first: nat, fs: seq<Block>, last: nat, k: nat) {
    var a := NodeAt(first, fs, last, k);
    && a in mem
    && mem[a].next == NodeAt(first, fs, last, k + 1)
    && mem[a].size == if 1 <= k <= |fs| then fs[k - 1].size else 0
  }

  ghost predicate Linked(mem: Memory, first: nat, fs: seq<Block>, last: nat) {
    forall k :: 0 <= k <= |fs| ==> LinkFrom(mem, first, fs, last, k)
  }

  /** The markers lie outside the space of the free blocks. */
  ghost predicate Placed(first: nat, fs: seq<Block>, last: nat) {
    && first != last && first != NULL && last != NULL
    && forall i :: 0 <= i < |fs| ==>
         !(fs[i].addr <= first <= fs[i].End()) && 0 < fs[i].addr && fs[i].End() <= last
  }

  /** Headers outside `touched` are as before. */
  ghost predicate UnchangedBut(before: Memory, after: Memory, touched: set<nat>) {
    && before.Keys <= after.Keys
    && forall a :: a in before && a !in touched ==> after[a] == before[a]
  }

  ghost function Nodes(first: nat, fs: seq<Block>): set<nat> {
    {first} + set i | 0 <= i < |fs| :: fs[i].addr
  }

  lemma NodesDistinct(first: nat, fs: seq<Block>, last: nat, i: nat, j: nat)
    requires Apart(fs) && Placed(first, fs, last) && i < j <= |fs| + 1
    ensures NodeAt(first, fs, last, i) != NodeAt(first, fs, last, j)
  {}

  // ----- Removing a node -----

  lemma RemoveLinked(mem: Memory, first: nat, fs: seq<Block>, last: nat, i: nat)
    requires Apart(fs) && Placed(first, fs, last) && Linked(mem, first, fs, last) && i < |fs|
    ensures var prev := NodeAt(first, fs, last, i);
      && prev in mem
      && Linked(mem[prev := mem[prev].(next := NodeAt(first, fs, last, i + 2))], first, Without(fs, i), last)
  {
    hide Apart, Placed;
    var gs, prev := Without(fs, i), NodeAt(first, fs, last, i);
    assert LinkFrom(mem, first, fs, last, i);
    var after := mem[prev := mem[prev].(next := NodeAt(first, fs, last, i + 2))];
    forall k | 0 <= k <= |gs| ensures LinkFrom(after, first, gs, last, k) {
      var j := if k <= i then k else k + 1;
      assert LinkFrom(mem, first, fs, last, j);
      if j < i {
        NodesDistinct(first, fs, last, j, i);
      } else if i < j {
        NodesDistinct(first, fs, last, i, j);
      }
      RemovedNode(first, fs, last, i, k);
      RemovedNode(first, fs, last, i, k + 1);
      hide NodeAt, Without;
    }
  }

  /** Where the nodes of the list after a removal come from. */
  lemma RemovedNode(first: nat, fs: seq<Block>, last: nat, i: nat, k: nat)
    requires i < |fs| && k <= |fs|
    ensures NodeAt(first, Without(fs, i), last, k) == NodeAt(first, fs, last, if k <= i then k else k + 1)
    ensures 1 <= k < |fs| ==> |Without(fs, i)| == |fs| - 1 && Without(fs, i)[k - 1] == fs[if k <= i then k - 1 else k]
  {}

  // ----- Inserting a node -----

  /** Where the nodes of the list after insertion come from. */
  lemma InsertNodes(first: nat, fs: seq<Block>, last: nat, b: Block, k: nat)
    ensures var (gs, n) := (Insert(fs, b), |Lower(fs, b)|);
      NodeAt(first, gs, last, k) ==
        if k <= n then NodeAt(first, fs, last, k)
        else if k == n + 1 then Joined(fs, b).addr
        else NodeAt(first, fs, last, k - 1 + |LeftOf(fs, b)| + |RightOf(fs, b)|)
  {}

  lemma InsertSizes(fs: seq<Block>, b: Block, k: nat)
    requires k < |Insert(fs, b)|
    ensures var n := |Lower(fs, b)|;
      && (k < n ==> Insert(fs, b)[k] == fs[k])
      && (k == n ==> Insert(fs, b)[k] == Joined(fs, b))
      && (k > n ==> Insert(fs, b)[k] == fs[k - 1 + |LeftOf(fs, b)| + |RightOf(fs, b)|])
  {
    hide Position, Joined;
    var n := |Lower(fs, b)|;
    if n < k {
      assert Insert(fs, b)[k] == Upper(fs, b)[k - n - 1];
    }
  }

  /** What the writes of an insertion at position `|Lower|` come to. */
  ghost predicate Spliced(mem: Memory, after: Memory, first: nat, fs: seq<Block>, last: nat, b: Block) {
    var n, m := |Lower(fs, b)|, Joined(fs, b);
    var prev := NodeAt(first, fs, last, n);
    && mem.Keys <= after.Keys
    && m.addr in after && prev in mem
    && after[m.addr] ==
         BlockLink(NodeAt(first, fs, last, n + 1 + |LeftOf(fs, b)| + |RightOf(fs, b)|), m.size)
    && after[prev] == mem[prev].(next := m.addr)
    && forall a :: a in mem && a != prev && a != m.addr ==> after[a] == mem[a]
  }

  /** The other nodes of the list are neither the new block nor its
      predecessor. */
  lemma SplicedElsewhere(mem: Memory, after: Memory, first: nat, fs: seq<Block>, last: nat, b: Block, j: nat)
    requires Apart(fs) && Placed(first, fs, last) && Fits(fs, b) && b.End() <= last && b.addr != first
    requires Spliced(mem, after, first, fs, last, b) && LinkFrom(mem, first, fs, last, j)
    requires j < |Lower(fs, b)| || |Lower(fs, b)| + |LeftOf(fs, b)| + |RightOf(fs, b)| < j <= |fs|
    ensures LinkFrom(after, first, fs, last, j)
  {
    hide Apart, Fits, Lower, Insert, Position;
    var n, m := |Lower(fs, b)|, Joined(fs, b);
    if j < n {
      NodesDistinct(first, fs, last, j, n);
    } else {
      NodesDistinct(first, fs, last, n, j);
    }
    JoinedIsNotElsewhere(first, fs, last, b, j);
  }

  lemma JoinedIsNotElsewhere(first: nat, fs: seq<Block>, last: nat, b: Block, j: nat)
    requires Apart(fs) && Placed(first, fs, last) && Fits(fs, b) && b.End() <= last && b.addr != first
    requires j < |Lower(fs, b)| || |Lower(fs, b)| + |LeftOf(fs, b)| < j <= |fs|
    ensures NodeAt(first, fs, last, j) != Joined(fs, b).addr
  {}

  lemma InsertLinked(mem: Memory, after: Memory, first: nat, fs: seq<Block>, last: nat, b: Block)
    requires Apart(fs) && Placed(first, fs, last) && Fits(fs, b) && b.End() <= last && b.addr != first
    requires Linked(mem, first, fs, last) && Spliced(mem, after, first, fs, last, b)
    ensures Linked(after, first, Insert(fs, b), last)
  {
    hide Apart, Placed, Fits, Lower, Insert, Joined;
    var gs, n := Insert(fs, b), |Lower(fs, b)|;
    var shift := |LeftOf(fs, b)| + |RightOf(fs, b)|;
    InsertLength(fs, b);
    forall k | 0 <= k <= |gs| ensures LinkFrom(after, first, gs, last, k) {
      InsertNodes(first, fs, last, b, k);
      InsertNodes(first, fs, last, b, k + 1);
      if k > 0 { InsertSizes(fs, b, k - 1); }
      if k < n {
        SplicedElsewhere(mem, after, first, fs, last, b, k);
      } else if k == n {
        assert LinkFrom(mem, first, fs, last, n);
      } else if k > n + 1 {
        SplicedElsewhere(mem, after, first, fs, last, b, k - 1 + shift);
      }
    }
  }

  lemma InsertLength(fs: seq<Block>, b: Block)
    ensures |Insert(fs, b)| + |LeftOf(fs, b)| + |RightOf(fs, b)| == |fs| + 1
    ensures |Lower(fs, b)| + |LeftOf(fs, b)| + |RightOf(fs, b)| <= |fs|
  {}

  lemma SplicedTouches(mem: Memory, after: Memory, first: nat, fs: seq<Block>, last: nat, b: Block)
    requires Spliced(mem, after, first, fs, last, b)
    ensures UnchangedBut(mem, after, Nodes(first, fs) + {b.addr})
  {}

  /** The memory after the three conditional writes of an insertion. */
  ghost function SplicedMemory(mem: Memory, cursor: nat, block: nat, last: nat): Memory
    requires cursor in mem && block in mem
    requires mem[cursor].next in mem || mem[cursor].next == last
  {
    var left := cursor + mem[cursor].size == block;
    var next := mem[cursor].next;
    var size := (if left then mem[cursor].size else 0) + mem[block].size;
    var right := next != last && (if left then cursor else block) + size == next;
    var link := if right then BlockLink(mem[next].next, size + mem[next].size) else BlockLink(next, size);
    if left then mem[cursor := link] else mem[block := link][cursor := mem[cursor].(next := block)]
  }

  /** What the memory must hold around position `k` for an insertion there. */
  ghost predicate Around(mem: Memory, first: nat, fs: seq<Block>, last: nat, b: Block, k: nat) {
    && k == Position(fs, b.addr)
    && LinkFrom(mem, first, fs, last, k)
    && (k > 0 ==> LinkFrom(mem, first, fs, last, k - 1) && NodeAt(first, fs, last, k - 1) != NodeAt(first, fs, last, k))
    && (k < |fs| ==> LinkFrom(mem, first, fs, last, k + 1) && fs[k].addr != last)
    && NodeAt(first, fs, last, k) != NodeAt(first, fs, last, k + 1)
    && NodeAt(first, fs, last, k + 1) != b.addr && NodeAt(first, fs, last, k) != b.addr
    && b.addr != first && b.addr in mem && mem[b.addr].size == b.size
  }

  /** Which neighbours the code merges, and with what header. */
  lemma SplicedHeader(mem: Memory, first: nat, fs: seq<Block>, last: nat, b: Block, k: nat)
    requires Around(mem, first, fs, last, b, k)
    ensures var (cursor, l, r) := (NodeAt(first, fs, last, k), LeftOf(fs, b), RightOf(fs, b));
      var next := mem[cursor].next;
      var size := (if l != [] then mem[cursor].size else 0) + b.size;
      && |Lower(fs, b)| == k - |l| && |l| <= 1 && |r| <= 1
      && (l != [] <==> cursor + mem[cursor].size == b.addr)
      && (r != [] <==> next != last && (if l != [] then cursor else b.addr) + size == next)
      && Joined(fs, b).addr == (if l != [] then cursor else b.addr)
      && Joined(fs, b).size == (if r != [] then size + mem[next].size else size)
      && NodeAt(first, fs, last, k + 1 + |r|) == (if r != [] then mem[next].next else next)
  {
    hide Position;
    JoinedBounds(fs, b);
  }

  lemma SplicedMemoryIsSpliced(mem: Memory, first: nat, fs: seq<Block>, last: nat, b: Block, k: nat)
    requires Around(mem, first, fs, last, b, k)
    ensures Spliced(mem, SplicedMemory(mem, NodeAt(first, fs, last, k), b.addr, last), first, fs, last, b)
  {
    SplicedHeader(mem, first, fs, last, b, k);
    hide Position, Joined, LeftOf, RightOf, Lower;
  }

  // ----- Headers that are not on the free list -----

  /** The header written for the tail of a split block. */
  ghost function TailStart(b: Block, w: nat): set<nat>
    requires w <= b.size
  {
    if Splits(b, w) then {b.addr + w} else {}
  }

  /** The headers that belong to the application, and the end marker. */
  ghost predicate HeadersFine(mem: Memory, live: map<nat, Live>, last: nat) {
    && last in mem && mem[last] == BlockLink(NULL, 0)
    && forall a :: a in live ==> a in mem && mem[a] == BlockLink(NULL, live[a].size + ALLOCATED_BIT)
  }

  /** A heap over [base, base + total) whose start marker is elsewhere. */
  ghost predicate Located(h: Heap, base: nat, total: nat, xStart: nat) {
    && Usable(base, total) && xStart != NULL && !(base <= xStart < base + total)
    && h.start == HeapStart(base) && h.end == HeapEnd(base, total)
  }

  // ----- The heap object -----

  class Allocator {
    /** The array `ucHeap` and the address of the start marker, outside it. */
    const base: nat
    const total: nat
    const xStart: nat

    var mem: Memory
    var pxEnd: nat
    var freeBytes: nat
    var minEver: nat

    /** The state in the terms of HeapModel. Before the first request this is
        the heap that the first request will set up. */
    ghost var model: Heap

    ghost predicate Ready()
      reads this
    {
      && pxEnd == model.end
      && Linked(mem, xStart, model.free, pxEnd)
      && HeadersFine(mem, model.live, pxEnd)
      && freeBytes == model.freeBytes && minEver == model.minEver
    }

    ghost predicate Valid()
      reads this
    {
      && Located(model, base, total, xStart)
      && Inv(model)
      && xStart in mem
      && (pxEnd == NULL ==>
           model == Initial(base, total) && mem[xStart] == BlockLink(NULL, 0) && freeBytes == minEver == 0)
      && (pxEnd != NULL ==> Ready())
    }

    constructor (base: nat, total: nat, xStart: nat)
      requires Usable(base, total) && xStart != NULL && !(base <= xStart < base + total)
      ensures Valid() && pxEnd == NULL && model == Initial(base, total)
    {
      this.base, this.total, this.xStart := base, total, xStart;
      mem := map[xStart := BlockLink(NULL, 0)];
      pxEnd, freeBytes, minEver := NULL, 0, 0;
      model := Initial(base, total);
      InitialInv(base, total);
    }

    method HeapInit()
      requires Valid() && pxEnd == NULL
      modifies this`mem, this`pxEnd, this`freeBytes, this`minEver
      ensures Valid() && pxEnd != NULL
    {
      var address := base;
      var size := total;
      if address % ALIGNMENT != 0 {
        address := (address + (ALIGNMENT - 1)) / ALIGNMENT * ALIGNMENT;
        size := size - (address - base);
      }
      var first := address;
      mem := mem[xStart := BlockLink(first, 0)];
      address := (first + size - HEADER_SIZE) / ALIGNMENT * ALIGNMENT;
      pxEnd := address;
      mem := mem[pxEnd := BlockLink(NULL, 0)];
      mem := mem[first := BlockLink(pxEnd, pxEnd - first)];
      minEver, freeBytes := pxEnd - first, pxEnd - first;
    }

    /** The last node below `block`. */
    method FindPredecessor(block: nat, ghost fs: seq<Block>) returns (cursor: nat)
      requires Apart(fs) && Placed(xStart, fs, pxEnd) && Linked(mem, xStart, fs, pxEnd) && block < pxEnd
      ensures cursor == NodeAt(xStart, fs, pxEnd, Position(fs, block)) && cursor in mem
    {
      ghost var k := 0;
      cursor := xStart;
      assert LinkFrom(mem, xStart, fs, pxEnd, 0);
      while mem[cursor].next < block
        invariant k <= |fs| && cursor == NodeAt(xStart, fs, pxEnd, k)
        invariant LinkFrom(mem, xStart, fs, pxEnd, k)
        invariant k > 0 ==> fs[k - 1].addr < block
        decreases |fs| - k
      {
        cursor := mem[cursor].next;
        k := k + 1;
        assert LinkFrom(mem, xStart, fs, pxEnd, k);
      }
      PositionIs(fs, block, k);
    }

    method InsertBlock(block: nat, ghost fs: seq<Block>, ghost b: Block)
      requires Apart(fs) && Placed(xStart, fs, pxEnd) && Fits(fs, b)
      requires Linked(mem, xStart, fs, pxEnd)
      requires b.addr == block && b.End() <= pxEnd && block != xStart && block in mem && mem[block].size == b.size
      modifies this`mem
      ensures Linked(mem, xStart, Insert(fs, b), pxEnd)
      ensures UnchangedBut(old(mem), mem, Nodes(xStart, fs) + {block})
    {
      hide Insert, Apart, Fits, Nodes;
      GapFacts(xStart, fs, pxEnd, b);
      var cursor := FindPredecessor(block, fs);
      ghost var k := Position(fs, block);
      assert LinkFrom(mem, xStart, fs, pxEnd, k);
      assert k < |fs| ==> LinkFrom(mem, xStart, fs, pxEnd, k + 1);
      NodesDistinct(xStart, fs, pxEnd, k, k + 1);
      if k > 0 { NodesDistinct(xStart, fs, pxEnd, k - 1, k); }
      SplicedMemoryIsSpliced(mem, xStart, fs, pxEnd, b, k);
      Splice(cursor, block);
      InsertLinked(old(mem), mem, xStart, fs, pxEnd, b);
      SplicedTouches(old(mem), mem, xStart, fs, pxEnd, b);
    }

    /** Merge `block` with the node before and the node after, where they touch. */
    method Splice(cursor: nat, block: nat)
      requires cursor in mem && block in mem
      requires mem[cursor].next in mem || mem[cursor].next == pxEnd
      requires cursor != mem[cursor].next && block != mem[cursor].next && cursor != block
      modifies this`mem
      ensures mem == SplicedMemory(old(mem), cursor, block, pxEnd)
    {
      var insert := block;
      if cursor + mem[cursor].size == block {
        mem := mem[cursor := mem[cursor].(size := mem[cursor].size + mem[block].size)];
        insert := cursor;
      }
      var next := mem[cursor].next;
      if insert + mem[insert].size == next {
        if next != pxEnd {
          mem := mem[insert := BlockLink(mem[next].next, mem[insert].size + mem[next].size)];
        } else {
          mem := mem[insert := mem[insert].(next := pxEnd)];
        }
      } else {
        mem := mem[insert := mem[insert].(next := next)];
      }
      if cursor != insert {
        mem := mem[cursor := mem[cursor].(next := insert)];
      }
    }

    /** The first node of at least `w` bytes with its predecessor, or the end
        marker. */
    method FindFit(w: nat) returns (prev: nat, block: nat)
      requires Valid() && pxEnd != NULL && 0 < w
      ensures prev == NodeAt(xStart, model.free, pxEnd, FirstFit(model.free, w))
      ensures block == NodeAt(xStart, model.free, pxEnd, FirstFit(model.free, w) + 1)
      ensures block == pxEnd <==> FirstFit(model.free, w) == |model.free|
    {
      hide Inv, HeapStart, HeapEnd, Usable, Initial;
      ghost var fs := model.free;
      PlacedFree(model, base, total, xStart);
      assert LinkFrom(mem, xStart, fs, pxEnd, 0);
      ghost var i := 0;
      prev := xStart;
      block := mem[xStart].next;
      assert block != pxEnd ==> LinkFrom(mem, xStart, fs, pxEnd, 1);
      while mem[block].size < w && mem[block].next != NULL
        invariant i <= |fs|
        invariant prev == NodeAt(xStart, fs, pxEnd, i) && block == NodeAt(xStart, fs, pxEnd, i + 1)
        invariant i < |fs| ==> LinkFrom(mem, xStart, fs, pxEnd, i + 1)
        invariant forall j :: 0 <= j < i ==> fs[j].size < w
        decreases |fs| - i
      {
        prev := block;
        block := mem[block].next;
        i := i + 1;
        assert i < |fs| ==> LinkFrom(mem, xStart, fs, pxEnd, i + 1);
      }
      assert i < |fs| ==> NodeAt(xStart, fs, pxEnd, i + 2) != NULL;
      assert i == FirstFit(fs, w);
    }

    /** Cut `block` down to `w` bytes and insert the tail as a free block. */
    method SplitTail(block: nat, w: nat, ghost fs: seq<Block>, ghost tail: Block)
      requires Apart(fs) && Placed(xStart, fs, pxEnd) && Linked(mem, xStart, fs, pxEnd)
      requires block in mem && w < mem[block].size && tail == Block(block + w, mem[block].size - w)
      requires Fits(fs, tail) && tail.End() <= pxEnd && tail.addr != xStart && 0 < w
      requires {block, block + w} !! Nodes(xStart, fs)
      modifies this`mem
      ensures Linked(mem, xStart, Insert(fs, tail), pxEnd)
      ensures UnchangedBut(old(mem), mem, Nodes(xStart, fs) + {block, block + w})
      ensures block in mem && mem[block].size == w
    {
      hide Linked, Insert, Nodes, Apart, Placed, Fits;
      var newBlock := block + w;
      mem := mem[newBlock := BlockLink(NULL, mem[block].size - w)];
      mem := mem[block := mem[block].(size := w)];
      FrameLinked(old(mem), mem, xStart, fs, pxEnd, {newBlock, block});
      InsertBlock(newBlock, fs, tail);
    }

    /** Unlink `block`, give its tail back when it is large enough to be a block
        of its own, and mark the rest as allocated. */
    method TakeBlock(prev: nat, block: nat, w: nat, ghost i: nat)
      requires Valid() && pxEnd != NULL
      requires i < |model.free| && 0 < w <= model.free[i].size
      requires prev == NodeAt(xStart, model.free, pxEnd, i) && block == model.free[i].addr
      modifies this`mem
      ensures Linked(mem, xStart, AfterTake(model.free, i, w), pxEnd)
      ensures block in mem && mem[block] == BlockLink(NULL, TakenSize(model.free[i], w) + ALLOCATED_BIT)
      ensures UnchangedBut(old(mem), mem, Nodes(xStart, model.free) + TailStart(model.free[i], w))
    {
      hide Inv, HeadersFine, Insert, Without, Nodes, Apart, Fits;
      ghost var fs := model.free;
      ghost var rest := Without(fs, i);
      PlacedFree(model, base, total, xStart);
      TakeFacts(xStart, fs, pxEnd, i, w);
      assert LinkFrom(mem, xStart, fs, pxEnd, i);
      assert LinkFrom(mem, xStart, fs, pxEnd, i + 1);
      RemoveLinked(mem, xStart, fs, pxEnd, i);
      mem := mem[prev := mem[prev].(next := mem[block].next)];
      if mem[block].size - w > MINIMUM_BLOCK_SIZE {
        ghost var tail := Block(block + w, fs[i].size - w);
        InsertNodesSubset(xStart, rest, tail);
        SplitTail(block, w, rest, tail);
      }
      MarkAllocated(block, AfterTake(fs, i, w));
    }

    method MarkAllocated(block: nat, ghost fs: seq<Block>)
      requires block in mem && block !in Nodes(xStart, fs) && Linked(mem, xStart, fs, pxEnd)
      modifies this`mem
      ensures mem == old(mem)[block := BlockLink(NULL, old(mem)[block].size + ALLOCATED_BIT)]
      ensures Linked(mem, xStart, fs, pxEnd)
    {
      hide Linked, Nodes;
      mem := mem[block := BlockLink(NULL, mem[block].size + ALLOCATED_BIT)];
      FrameLinked(old(mem), mem, xStart, fs, pxEnd, {block});
    }

    method Malloc(n: nat) returns (p: nat)
      requires Valid() && n < WORD
      modifies this
      ensures Valid() && pxEnd != NULL
      ensures (model, p) == HeapModel.Malloc(old(model), n)
    {
      hide Inv, Linked, Nodes, HeapStart, HeapEnd, Usable, HeadersFine, FirstFit, Rounded, AfterTake;
      if pxEnd == NULL {
        HeapInit();
      }
      p := NULL;
      var w := Rounded(n);
      if 0 < w <= freeBytes {
        var prev, block := FindFit(w);
        ghost var i := FirstFit(model.free, w);
        if block != pxEnd {
          LinkedNext(mem, xStart, model.free, pxEnd, i);
          p := mem[prev].next + HEADER_SIZE;
          MallocFacts(model, n);
          MallocInv(model, n);
          ghost var before := mem;
          TakeBlock(prev, block, w, i);
          HeadersAfterMalloc(before, mem, model, base, total, xStart, n);
          freeBytes := freeBytes - (mem[block].size - ALLOCATED_BIT);
          if freeBytes < minEver {
            minEver := freeBytes;
          }
          model := HeapModel.Malloc(model, n).0;
        }
      }
    }

    method Free(p: nat)
      requires Valid() && Releasable(model, p)
      modifies this
      ensures Valid()
      ensures model == HeapModel.Free(old(model), p)
    {
      hide Inv, Linked, Nodes, HeapStart, HeapEnd, Usable, Insert, Fits, Placed, Apart, HeadersFine;
      if p != NULL {
        var link := p - HEADER_SIZE;
        LiveHeader(mem, model.live, pxEnd, link);
        if mem[link].size >= ALLOCATED_BIT {
          if mem[link].next == NULL {
            ghost var before := mem;
            ghost var b := Block(link, model.live[link].size);
            mem := mem[link := mem[link].(size := mem[link].size - ALLOCATED_BIT)];
            freeBytes := freeBytes + mem[link].size;
            FreeFacts(before, mem, model, base, total, xStart, link);
            InsertBlock(link, model.free, b);
            HeadersAfterFree(before, mem, model, base, total, xStart, link);
            FreeInv(model, p);
            model := HeapModel.Free(model, p);
          }
        }
      }
    }

    /** The statistics are right whenever there is a free block, and before the
        first request. With no free block the walk reads through NULL. */
    method GetHeapStats() returns (r: StatsResult)
      requires Valid()
      ensures r.ReadsNull? <==> pxEnd != NULL && model.free == []
      ensures pxEnd == NULL ==> r == Reported(HeapStats(0, 0, WORD - 1, 0, 0))
      ensures r.Reported? && pxEnd != NULL ==>
        && r.stats.available == model.freeBytes && r.stats.minEver == model.minEver
        && r.stats.blocks == |model.free|
        && HeapRuns.IsLargest(model.free, r.stats.largest) && HeapRuns.IsSmallest(model.free, r.stats.smallest)
    {
      hide Inv, Located, HeadersFine, Linked;
      var ok, blocks, largest, smallest := true, 0, 0, WORD - 1;
      var block := mem[xStart].next;
      if pxEnd != NULL { FirstNode(mem, model, xStart, pxEnd); }
      if block != NULL {
        ok, blocks, largest, smallest := WalkFreeList(block);
      }
      r := if ok then Reported(HeapStats(freeBytes, largest, smallest, blocks, minEver)) else ReadsNull;
    }

    /** The do-while: it visits a node before it compares with the end marker,
        and stops short when the node to visit is NULL. */
    method WalkFreeList(first: nat) returns (ok: bool, blocks: nat, largest: nat, smallest: nat)
      requires Valid() && pxEnd != NULL && first == mem[xStart].next
      ensures ok <==> model.free != []
      ensures ok ==> blocks == |model.free|
      ensures ok ==> HeapRuns.IsLargest(model.free, largest) && HeapRuns.IsSmallest(model.free, smallest)
    {
      hide Inv, Located, HeadersFine, Linked;
      ghost var fs := model.free;
      var block := first;
      ok, blocks, largest, smallest := false, 0, 0, WORD - 1;
      ghost var top, low := 0, 0;
      LinkedNext(mem, xStart, fs, pxEnd, 0);
      EndMarker(mem, model, pxEnd);
      if fs != [] { WalkStep(mem, model, xStart, 0); }
      while block != NULL
        invariant fs == [] ==> if blocks == 0 then block == pxEnd else blocks == 1 && block == NULL
        invariant fs != [] ==> blocks < |fs| && block == fs[blocks].addr && block != NULL
        invariant forall j :: 0 <= j < blocks && j < |fs| ==> smallest <= fs[j].size <= largest
        invariant blocks == 0 ==> largest == 0 && smallest == WORD - 1
        invariant fs != [] && blocks > 0 ==>
          top < |fs| && low < |fs| && fs[top].size == largest && fs[low].size == smallest
        decreases |fs| + 1 - blocks
      {
        if fs != [] { WalkStep(mem, model, xStart, blocks); }
        if mem[block].size > largest {
          largest, top := mem[block].size, blocks;
        }
        if mem[block].size < smallest {
          smallest, low := mem[block].size, blocks;
        }
        blocks := blocks + 1;
        block := mem[block].next;
        if block == pxEnd {
          ok := true;
          break;
        }
        if fs != [] { WalkStep(mem, model, xStart, blocks); }
      }
    }
  }

  datatype HeapStats = HeapStats(available: nat, largest: nat, smallest: nat, blocks: nat, minEver: nat)

  datatype StatsResult = Reported(stats: HeapStats) | ReadsNull

  /** On every heap, one request for all of it is granted, and the statistics
      taken next read through NULL. */
  method WholeHeapRequestBreaksStats(base: nat, total: nat, xStart: nat) returns (p: nat, r: StatsResult)
    requires Usable(base, total) && xStart != NULL && !(base <= xStart < base + total)
    ensures p == HeapStart(base) + HEADER_SIZE && r == ReadsNull
  {
    hide HeapStart, HeapEnd, Inv, Linked, Located, HeadersFine, Initial, Usable, WholeRequest, HeapModel.Malloc;
    var heap := new Allocator(base, total, xStart);
    WholeRequestTakesAll(base, total);
    p := heap.Malloc(WholeRequest(base, total));
    r := heap.GetHeapStats();
  }

  /** The bytes to ask for so that the block is the whole heap. */
  function WholeRequest(base: nat, total: nat): (n: nat)
    requires Usable(base, total)
    ensures n < WORD
  {
    HeapEnd(base, total) - HeapStart(base) - HEADER_SIZE
  }

  lemma WholeRequestTakesAll(base: nat, total: nat)
    requires Usable(base, total)
    ensures var (g, p) := HeapModel.Malloc(Initial(base, total), WholeRequest(base, total));
      p == HeapStart(base) + HEADER_SIZE && g.free == []
  {
    hide HeapModel.Malloc, HeapStart, HeapEnd;
    HeapRuns.WholeHeapRequestEmptiesTheList(base, total);
  }

  // ----- The walk of the statistics over memory -----

  /** The walk's pointer after `n` passes through the loop body, starting at
      `block`; None once a pass has read through a pointer to no header. */
  ghost function AfterPasses(mem: Memory, block: nat, n: nat): Option<nat> {
    if n == 0 then Some(block)
    else
      var b := AfterPasses(mem, block, n - 1);
      if b.Some? && b.value != NULL && b.value in mem then Some(mem[b.value].next) else None
  }

  /** The loop is left after `n` passes: the first at whose end the pointer is
      `last`. No pass before that read through NULL. */
  ghost predicate WalkEndsAfter(mem: Memory, block: nat, last: nat, n: nat) {
    && 0 < n && AfterPasses(mem, block, n) == Some(last)
    && forall k :: 0 < k < n ==> AfterPasses(mem, block, k) != Some(last)
  }

  lemma {:induction false} WalkVisits(mem: Memory, h: Heap, first: nat, k: nat)
    requires Inv(h) && Linked(mem, first, h.free, h.end) && k <= |h.free|
    ensures first in mem
    ensures AfterPasses(mem, mem[first].next, k) == Some(if k < |h.free| then h.free[k].addr else h.end)
  {
    hide Inv, Linked;
    LinkedNext(mem, first, h.free, h.end, 0);
    if k > 0 {
      WalkVisits(mem, h, first, k - 1);
      WalkStep(mem, h, first, k - 1);
    }
  }

  /** With no free block the second pass reads through NULL, and the walk never
      sees the end marker again. */
  lemma {:induction false} WalkIsLost(mem: Memory, h: Heap, first: nat, n: nat)
    requires Inv(h) && Linked(mem, first, h.free, h.end) && h.free == []
    requires h.end in mem && mem[h.end].next == NULL && n > 0
    ensures first in mem
    ensures AfterPasses(mem, mem[first].next, n) == if n == 1 then Some(NULL) else None
  {
    LinkedNext(mem, first, h.free, h.end, 0);
    if n == 1 {
      assert AfterPasses(mem, h.end, 0) == Some(h.end);
    } else {
      WalkIsLost(mem, h, first, n - 1);
    }
  }

  /** In every state of an initialised heap, the walk ends at the end marker
      without reading through NULL if and only if some block is free. */
  lemma StatsWalkEndsIff(heap: Allocator)
    requires heap.Valid() && heap.pxEnd != NULL
    ensures heap.xStart in heap.mem
    ensures var first := heap.mem[heap.xStart].next;
      (exists n :: WalkEndsAfter(heap.mem, first, heap.pxEnd, n)) <==> heap.model.free != []
  {
    hide Inv, Located, Linked, AfterPasses;
    var (mem, h, xStart) := (heap.mem, heap.model, heap.xStart);
    var first := mem[xStart].next;
    EndMarker(mem, h, heap.pxEnd);
    if h.free == [] {
      forall n ensures !WalkEndsAfter(mem, first, heap.pxEnd, n) {
        if n > 0 { WalkIsLost(mem, h, xStart, n); }
      }
    } else {
      forall k | 0 < k < |h.free| ensures AfterPasses(mem, first, k) != Some(h.end) {
        WalkVisits(mem, h, xStart, k);
        WalkStep(mem, h, xStart, k);
      }
      WalkVisits(mem, h, xStart, |h.free|);
      assert WalkEndsAfter(mem, first, heap.pxEnd, |h.free|);
    }
  }

  /** The start marker of an initialised heap points somewhere. */
  lemma FirstNode(mem: Memory, h: Heap, xStart: nat, last: nat)
    requires Inv(h) && last == h.end && Linked(mem, xStart, h.free, last)
    ensures xStart in mem && mem[xStart].next != NULL
  {
    LinkedNext(mem, xStart, h.free, last, 0);
    if h.free != [] { assert BlockFine(h.free[0], h.start, h.end); }
  }

  lemma EndMarker(mem: Memory, h: Heap, last: nat)
    requires HeadersFine(mem, h.live, last) && Inv(h) && last == h.end
    ensures last in mem && mem[last] == BlockLink(NULL, 0) && last != NULL
  {}

  /** What a walk along the list reads at block `k`. */
  lemma WalkStep(mem: Memory, h: Heap, first: nat, k: nat)
    requires Inv(h) && k < |h.free| && Linked(mem, first, h.free, h.end)
    ensures var a := h.free[k].addr;
      && a != NULL && a != h.end
      && a in mem && mem[a].size == h.free[k].size && 0 < mem[a].size < WORD - 1
      && (mem[a].next == h.end <==> k + 1 == |h.free|)
      && (k + 1 < |h.free| ==> mem[a].next == h.free[k + 1].addr)
  {
    hide Apart, Tiled, LiveBlocksFine;
    assert LinkFrom(mem, first, h.free, h.end, k + 1);
    assert BlockFine(h.free[k], h.start, h.end);
    assert k + 1 < |h.free| ==> BlockFine(h.free[k + 1], h.start, h.end);
  }

  lemma LinkedNext(mem: Memory, first: nat, fs: seq<Block>, last: nat, i: nat)
    requires Linked(mem, first, fs, last) && i <= |fs|
    ensures var a := NodeAt(first, fs, last, i); a in mem && mem[a].next == NodeAt(first, fs, last, i + 1)
  {
    assert LinkFrom(mem, first, fs, last, i);
  }

  lemma LiveHeader(mem: Memory, live: map<nat, Live>, last: nat, a: nat)
    requires HeadersFine(mem, live, last) && a in live
    ensures a in mem && mem[a] == BlockLink(NULL, live[a].size + ALLOCATED_BIT)
  {}

  /** Neither a live header nor the end marker lies in free space. */
  lemma Untouched(h: Heap, base: nat, total: nat, xStart: nat, a: nat)
    requires Inv(h) && Located(h, base, total, xStart)
    requires a in h.live || a == h.end
    ensures a !in Nodes(xStart, h.free)
    ensures forall i :: 0 <= i < |h.free| ==> !h.free[i].Has(a)
  {
    hide Apart, Tiled;
    forall i | 0 <= i < |h.free| ensures !h.free[i].Has(a) && a != h.free[i].addr {
      assert BlockFine(h.free[i], h.start, h.end);
      if a in h.live { FreeAndLiveDisjoint(h, i, a); }
    }
  }

  lemma HeadersAfterMalloc(before: Memory, after: Memory, h: Heap, base: nat, total: nat, xStart: nat, n: nat)
    requires Inv(h) && Located(h, base, total, xStart) && n < WORD && HeapModel.Malloc(h, n).1 != 0
    requires HeadersFine(before, h.live, h.end)
    requires var (w, i) := (Rounded(n), FirstFit(h.free, Rounded(n)));
      && i < |h.free| && 0 < w <= h.free[i].size
      && UnchangedBut(before, after, Nodes(xStart, h.free) + TailStart(h.free[i], w))
      && h.free[i].addr in after
      && after[h.free[i].addr] == BlockLink(NULL, TakenSize(h.free[i], w) + ALLOCATED_BIT)
    ensures HeadersFine(after, HeapModel.Malloc(h, n).0.live, h.end)
  {
    hide Inv, Located, Nodes, AfterTake;
    Untouched(h, base, total, xStart, h.end);
    forall a | a in h.live
      ensures a in after && (a != h.free[FirstFit(h.free, Rounded(n))].addr ==> after[a] == before[a])
    {
      Untouched(h, base, total, xStart, a);
    }
  }

  lemma FreeFacts(before: Memory, after: Memory, h: Heap, base: nat, total: nat, xStart: nat, a: nat)
    requires Inv(h) && Located(h, base, total, xStart) && a in h.live
    requires Linked(before, xStart, h.free, h.end) && UnchangedBut(before, after, {a})
    ensures Linked(after, xStart, h.free, h.end)
    ensures Apart(h.free) && Placed(xStart, h.free, h.end) && Fits(h.free, Block(a, h.live[a].size))
    ensures a + h.live[a].size <= h.end && a != xStart
  {
    hide Apart, Linked, Nodes, Fits, Placed, Tiled, UnchangedBut;
    Untouched(h, base, total, xStart, a);
    FrameLinked(before, after, xStart, h.free, h.end, {a});
    PlacedFree(h, base, total, xStart);
    LiveFits(h, a);
  }

  lemma HeadersAfterFree(before: Memory, after: Memory, h: Heap, base: nat, total: nat, xStart: nat, a: nat)
    requires Inv(h) && Located(h, base, total, xStart) && a in h.live
    requires HeadersFine(before, h.live, h.end)
    requires UnchangedBut(before, after, Nodes(xStart, h.free) + {a})
    ensures HeadersFine(after, h.live - {a}, h.end)
  {
    hide Inv, Nodes;
    Untouched(h, base, total, xStart, h.end);
    assert h.end != a by { LiveBelowEnd(h, a); }
    forall c | c in h.live - {a} ensures c in after && after[c] == before[c] {
      Untouched(h, base, total, xStart, c);
    }
  }

  lemma LiveBelowEnd(h: Heap, a: nat)
    requires Inv(h) && a in h.live
    ensures a < h.end
  {}

  /** Writes away from the nodes of a list keep it linked. */
  lemma FrameLinked(before: Memory, after: Memory, first: nat, fs: seq<Block>, last: nat, touched: set<nat>)
    requires Linked(before, first, fs, last) && UnchangedBut(before, after, touched)
    requires touched !! Nodes(first, fs)
    ensures Linked(after, first, fs, last)
  {
    forall k | 0 <= k <= |fs| ensures LinkFrom(after, first, fs, last, k) {
      assert LinkFrom(before, first, fs, last, k);
      assert NodeAt(first, fs, last, k) in Nodes(first, fs);
    }
  }

  lemma InsertNodesSubset(first: nat, fs: seq<Block>, b: Block)
    ensures Nodes(first, Insert(fs, b)) <= Nodes(first, fs) + {b.addr}
  {
    hide Insert, Lower;
    forall k | 0 <= k < |Insert(fs, b)| ensures Insert(fs, b)[k].addr in Nodes(first, fs) + {b.addr} {
      InsertSizes(fs, b, k);
      InsertLength(fs, b);
    }
  }

  /** The markers of a valid heap lie outside its blocks. */
  lemma PlacedFree(h: Heap, base: nat, total: nat, xStart: nat)
    requires Inv(h) && Located(h, base, total, xStart)
    ensures Apart(h.free) && Placed(xStart, h.free, h.end)
  {}

  /** A block taken off the list, and its tail, are no nodes of what is left. */
  lemma TakeFacts(first: nat, fs: seq<Block>, last: nat, i: nat, w: nat)
    requires Apart(fs) && Placed(first, fs, last) && i < |fs| && 0 < w <= fs[i].size
    ensures Apart(Without(fs, i)) && Placed(first, Without(fs, i), last)
    ensures w < fs[i].size ==> Fits(Without(fs, i), Block(fs[i].addr + w, fs[i].size - w))
    ensures Nodes(first, Without(fs, i)) <= Nodes(first, fs)
    ensures fs[i].addr in Nodes(first, fs) && NodeAt(first, fs, last, i) in Nodes(first, fs)
    ensures NodeAt(first, fs, last, i) != fs[i].addr
    ensures {fs[i].addr, fs[i].addr + w} !! Nodes(first, Without(fs, i))
  {
    var rest := Without(fs, i);
    WithoutApart(fs, i);
    if w < fs[i].size { RemainderFits(fs, i, w); }
    forall j | 0 <= j < |rest| ensures exists k :: 0 <= k < |fs| && k != i && rest[j] == fs[k] {
      assert rest[j] == fs[if j < i then j else j + 1];
    }
  }

  lemma GapFacts(first: nat, fs: seq<Block>, last: nat, b: Block)
    requires Apart(fs) && Placed(first, fs, last) && Fits(fs, b) && b.End() <= last
    ensures b.addr < last
    ensures var k := Position(fs, b.addr);
      b.addr < NodeAt(first, fs, last, k + 1) && (k < |fs| ==> fs[k].addr != last)
  {}
}
