/** The heap's free list as a sequence of blocks: which bytes it covers, the
    coalescing insertion, and the theorem that the covered bytes determine the
    list. */
module FreeList {
  import opened Collections

  datatype Block = Block(addr: nat, size: nat) {
    function End(): nat { addr + size }

    ghost predicate Has(x: int) { addr <= x < End() }
  }

  /** Address order with a gap of at least one byte between any two blocks, so
      no two free blocks touch. */
  ghost predicate Apart(fs: seq<Block>) {
    && (forall i :: 0 <= i < |fs| ==> 0 < fs[i].size)
    && (forall i, j :: 0 <= i < j < |fs| ==> fs[i].End() < fs[j].addr)
  }

  /** Byte `x` belongs to some block of the list. */
  ghost predicate Covers(fs: seq<Block>, x: int) {
    exists i :: 0 <= i < |fs| && fs[i].Has(x)
  }

  function Sum(fs: seq<Block>): nat {
    if fs == [] then 0 else fs[0].size + Sum(fs[1..])
  }

  lemma {:induction false} SumConcat(fs: seq<Block>, gs: seq<Block>)
    ensures Sum(fs + gs) == Sum(fs) + Sum(gs)
  {
    if fs == [] {
      assert fs + gs == gs;
    } else {
      assert (fs + gs)[1..] == fs[1..] + gs;
      SumConcat(fs[1..], gs);
    }
  }

  lemma {:induction false} SumAtLeastElement(fs: seq<Block>, i: nat)
    requires i < |fs|
    ensures fs[i].size <= Sum(fs)
  {
    if i > 0 {
      SumAtLeastElement(fs[1..], i - 1);
    }
  }

  // ----- Concatenation -----

  lemma CoversConcat(fs: seq<Block>, gs: seq<Block>, x: int)
    ensures Covers(fs + gs, x) <==> Covers(fs, x) || Covers(gs, x)
  {
    var hs := fs + gs;
    if Covers(fs, x) {
      var i :| 0 <= i < |fs| && fs[i].Has(x);
      assert hs[i].Has(x);
    }
    if Covers(gs, x) {
      var i :| 0 <= i < |gs| && gs[i].Has(x);
      assert hs[|fs| + i].Has(x);
    }
  }

  lemma CoversOne(b: Block, x: int)
    ensures Covers([b], x) <==> b.Has(x)
  {
    if b.Has(x) {
      assert [b][0].Has(x);
    }
  }

  /** Every block of `fs` ends before address `a`. */
  ghost predicate Below(fs: seq<Block>, a: int) {
    forall i :: 0 <= i < |fs| ==> fs[i].End() < a
  }

  /** Every block of `fs` starts after address `a`. */
  ghost predicate Above(fs: seq<Block>, a: int) {
    forall i :: 0 <= i < |fs| ==> a < fs[i].addr
  }

  lemma ApartConcat(fs: seq<Block>, b: Block, gs: seq<Block>)
    requires Apart(fs) && Apart(gs) && 0 < b.size
    requires Below(fs, b.addr) && Above(gs, b.End())
    ensures Apart(fs + [b] + gs)
  {}

  // ----- Taking one block out -----

  lemma WithoutApart(fs: seq<Block>, i: nat)
    requires Apart(fs) && i < |fs|
    ensures Apart(Without(fs, i))
  {}

  lemma WithoutCovers(fs: seq<Block>, i: nat, x: int)
    requires Apart(fs) && i < |fs|
    ensures Covers(Without(fs, i), x) <==> Covers(fs, x) && !fs[i].Has(x)
  {
    var lo, b, up := fs[..i], fs[i], fs[i + 1..];
    assert fs == lo + ([b] + up);
    CoversConcat(lo, [b] + up, x);
    CoversConcat([b], up, x);
    CoversOne(b, x);
    CoversConcat(lo, up, x);
    if b.Has(x) {
      assert forall j :: 0 <= j < i ==> fs[j].End() < b.addr;
      assert forall j :: 0 <= j < |up| ==> up[j] == fs[i + 1 + j];
    }
  }

  lemma WithoutSum(fs: seq<Block>, i: nat)
    requires i < |fs|
    ensures Sum(Without(fs, i)) == Sum(fs) - fs[i].size
  {
    hide Sum;
    assert fs == fs[..i] + fs[i..];
    SumConcat(fs[..i], fs[i..]);
    SumHead(fs[i..]);
    assert fs[i..][1..] == fs[i + 1..];
    SumConcat(fs[..i], fs[i + 1..]);
  }

  lemma SumHead(fs: seq<Block>)
    requires fs != []
    ensures Sum(fs) == fs[0].size + Sum(fs[1..])
  {}

  // ----- Coalescing insertion -----

  /** How many blocks lie below address `a`: the point where a block at `a` is
      inserted. */
  function Position(fs: seq<Block>, a: nat): (p: nat)
    ensures p <= |fs|
    ensures forall i :: 0 <= i < p ==> fs[i].addr < a
    ensures p < |fs| ==> a <= fs[p].addr
  {
    if fs == [] || a <= fs[0].addr then 0 else
      assert forall i :: 0 < i < |fs| ==> fs[i] == fs[1..][i - 1];
      1 + Position(fs[1..], a)
  }

  /** The insertion position, by the blocks on either side of it. */
  lemma PositionIs(fs: seq<Block>, a: nat, k: nat)
    requires Apart(fs) && k <= |fs|
    requires k > 0 ==> fs[k - 1].addr < a
    requires k < |fs| ==> a <= fs[k].addr
    ensures Position(fs, a) == k
  {}

  /** `b` lies in the space that the list does not use. */
  ghost predicate Fits(fs: seq<Block>, b: Block) {
    0 < b.size && forall i :: 0 <= i < |fs| ==> fs[i].End() <= b.addr || b.End() <= fs[i].addr
  }

  /** The block that ends where `b` starts, if the list has one, as a list. */
  function LeftOf(fs: seq<Block>, b: Block): seq<Block> {
    var p := Position(fs, b.addr);
    if p > 0 && fs[p - 1].End() == b.addr then [fs[p - 1]] else []
  }

  /** The block that starts where `b` ends, if the list has one, as a list. */
  function RightOf(fs: seq<Block>, b: Block): seq<Block> {
    var p := Position(fs, b.addr);
    if p < |fs| && b.End() == fs[p].addr then [fs[p]] else []
  }

  function Lower(fs: seq<Block>, b: Block): (lo: seq<Block>)
    ensures |lo| + |LeftOf(fs, b)| == Position(fs, b.addr)
    ensures lo + LeftOf(fs, b) == fs[..Position(fs, b.addr)]
  {
    fs[..Position(fs, b.addr) - |LeftOf(fs, b)|]
  }

  function Upper(fs: seq<Block>, b: Block): (up: seq<Block>)
    ensures RightOf(fs, b) + up == fs[Position(fs, b.addr)..]
  {
    fs[Position(fs, b.addr) + |RightOf(fs, b)|..]
  }

  /** `b` grown by the neighbours it touches. */
  function Joined(fs: seq<Block>, b: Block): Block {
    var l, r := LeftOf(fs, b), RightOf(fs, b);
    Block(if l == [] then b.addr else l[0].addr, Sum(l) + b.size + Sum(r))
  }

  function Insert(fs: seq<Block>, b: Block): seq<Block> {
    Lower(fs, b) + [Joined(fs, b)] + Upper(fs, b)
  }

  /** A block that touches no other goes in as it is. */
  lemma InsertAlone(fs: seq<Block>, b: Block)
    requires LeftOf(fs, b) == [] && RightOf(fs, b) == []
    ensures var p := Position(fs, b.addr);
      Insert(fs, b) == fs[..p] + [b] + fs[p..]
  {
    hide Position;
  }

  lemma JoinedBounds(fs: seq<Block>, b: Block)
    ensures Joined(fs, b).addr + Sum(LeftOf(fs, b)) == b.addr
    ensures LeftOf(fs, b) != [] ==> Sum(LeftOf(fs, b)) == LeftOf(fs, b)[0].size
    ensures RightOf(fs, b) != [] ==> Sum(RightOf(fs, b)) == RightOf(fs, b)[0].size
    ensures Joined(fs, b).End() == b.End() + Sum(RightOf(fs, b))
  {}

  lemma Split(fs: seq<Block>, b: Block)
    ensures fs == Lower(fs, b) + (LeftOf(fs, b) + (RightOf(fs, b) + Upper(fs, b)))
  {}

  lemma SliceApart(fs: seq<Block>, lo: nat, hi: nat)
    requires Apart(fs) && lo <= hi <= |fs|
    ensures Apart(fs[lo..hi])
  {}

  lemma LowerBelow(fs: seq<Block>, b: Block)
    requires Apart(fs) && Fits(fs, b)
    ensures Below(Lower(fs, b), Joined(fs, b).addr)
  {
    var p, lo := Position(fs, b.addr), Lower(fs, b);
    forall i | 0 <= i < |lo| ensures lo[i].End() < Joined(fs, b).addr {
      assert lo[i] == fs[i];
      assert fs[i].End() <= b.addr;
      if LeftOf(fs, b) == [] {
        assert i < p - 1 ==> fs[i].End() < fs[p - 1].addr;
      }
    }
  }

  lemma UpperAbove(fs: seq<Block>, b: Block)
    requires Apart(fs) && Fits(fs, b)
    ensures Above(Upper(fs, b), Joined(fs, b).End())
  {
    var p, up, r := Position(fs, b.addr), Upper(fs, b), RightOf(fs, b);
    assert p < |fs| ==> b.End() <= fs[p].addr;
    JoinedBounds(fs, b);
    forall i | 0 <= i < |up| ensures b.End() + Sum(r) < up[i].addr {
      assert up[i] == fs[p + |r| + i];
      if r != [] {
        assert fs[p].End() < fs[p + 1 + i].addr;
      } else if i > 0 {
        assert fs[p].End() < fs[p + i].addr;
      }
    }
  }

  lemma InsertApart(fs: seq<Block>, b: Block)
    requires Apart(fs) && Fits(fs, b)
    ensures Apart(Insert(fs, b))
  {
    var p := Position(fs, b.addr);
    SliceApart(fs, 0, p - |LeftOf(fs, b)|);
    SliceApart(fs, p + |RightOf(fs, b)|, |fs|);
    LowerBelow(fs, b);
    UpperAbove(fs, b);
    ApartConcat(Lower(fs, b), Joined(fs, b), Upper(fs, b));
  }

  lemma JoinedHas(fs: seq<Block>, b: Block, x: int)
    ensures Joined(fs, b).Has(x) <==>
            Covers(LeftOf(fs, b), x) || b.Has(x) || Covers(RightOf(fs, b), x)
  {
    var l, r := LeftOf(fs, b), RightOf(fs, b);
    if l != [] { CoversOne(l[0], x); }
    if r != [] { CoversOne(r[0], x); }
    JoinedBounds(fs, b);
  }

  /** Insertion adds exactly the bytes of `b`. */
  lemma InsertCovers(fs: seq<Block>, b: Block, x: int)
    ensures Covers(Insert(fs, b), x) <==> Covers(fs, x) || b.Has(x)
  {
    var lo, l, m, r, up := Lower(fs, b), LeftOf(fs, b), Joined(fs, b), RightOf(fs, b), Upper(fs, b);
    Split(fs, b);
    CoversConcat(lo, l + (r + up), x);
    CoversConcat(l, r + up, x);
    CoversConcat(r, up, x);
    CoversConcat(lo + [m], up, x);
    CoversConcat(lo, [m], x);
    CoversOne(m, x);
    JoinedHas(fs, b, x);
  }

  lemma InsertSum(fs: seq<Block>, b: Block)
    ensures Sum(Insert(fs, b)) == Sum(fs) + b.size
  {
    var lo, l, m, r, up := Lower(fs, b), LeftOf(fs, b), Joined(fs, b), RightOf(fs, b), Upper(fs, b);
    Split(fs, b);
    SumConcat(lo, l + (r + up));
    SumConcat(l, r + up);
    SumConcat(r, up);
    SumConcat(lo + [m], up);
    SumConcat(lo, [m]);
  }

  // ----- The covered bytes determine the list -----

  lemma TailCovers(fs: seq<Block>, x: int)
    requires Apart(fs) && fs != []
    ensures Covers(fs[1..], x) <==> Covers(fs, x) && fs[0].End() < x
  {}

  lemma HeadBytes(fs: seq<Block>)
    requires Apart(fs) && fs != []
    ensures Covers(fs, fs[0].addr)
    ensures forall x :: x < fs[0].addr ==> !Covers(fs, x)
    ensures forall x :: fs[0].Has(x) ==> Covers(fs, x)
    ensures !Covers(fs, fs[0].End())
  {}

  /** Two lists of separated blocks that cover the same bytes are the same
      list: the free list is a function of which bytes are free. */
  lemma {:induction false} Canonical(fs: seq<Block>, gs: seq<Block>)
    requires Apart(fs) && Apart(gs)
    requires forall x :: Covers(fs, x) <==> Covers(gs, x)
    ensures fs == gs
  {
    if fs == [] || gs == [] {
      if fs != [] { HeadBytes(fs); }
      if gs != [] { HeadBytes(gs); }
    } else {
      HeadBytes(fs);
      HeadBytes(gs);
      assert fs[0].addr == gs[0].addr;
      assert fs[0].End() == gs[0].End();
      forall x ensures Covers(fs[1..], x) <==> Covers(gs[1..], x) {
        TailCovers(fs, x);
        TailCovers(gs, x);
      }
      Canonical(fs[1..], gs[1..]);
      assert fs == [fs[0]] + fs[1..];
      assert gs == [gs[0]] + gs[1..];
    }
  }
}
