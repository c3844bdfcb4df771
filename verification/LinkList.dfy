/** The intrusive circular doubly linked list, on real nodes, proved to refine
    operations on sequences of nodes. */
module LinkList {
  import opened Collections

  class Link {
    var prev: Link?
    var next: Link?

    /** A node that is on no list. */
    constructor ()
      ensures prev == null && next == null
    {
      prev, next := null, null;
    }
  }

  /** The ring through `head` and `nodes`: element 0 is the head. */
  ghost function Cell(head: Link, nodes: seq<Link>, i: int): Link
    requires -1 <= i <= |nodes|
  {
    if i == -1 || i == |nodes| then head else nodes[i]
  }

  ghost predicate CellsDistinct(head: Link, nodes: seq<Link>) {
    head !in nodes && Distinct(nodes)
  }

  /** `head` heads a closed ring holding exactly `nodes`, in order; next and
      prev are each other's inverse. */
  ghost predicate Ring(head: Link, nodes: seq<Link>)
    reads head, nodes
  {
    && CellsDistinct(head, nodes)
    && head.next == Cell(head, nodes, 0)
    && head.prev == Cell(head, nodes, |nodes| - 1)
    && (forall i {:trigger nodes[i].next} :: 0 <= i < |nodes| ==> nodes[i].next == Cell(head, nodes, i + 1))
    && (forall i {:trigger nodes[i].prev} :: 0 <= i < |nodes| ==> nodes[i].prev == Cell(head, nodes, i - 1))
  }

  method InitHead(head: Link)
    modifies head
    ensures Ring(head, [])
  {
    head.prev := head;
    head.next := head;
  }

  /** Adding puts the node at the front. */
  method Add(head: Link, link: Link, ghost nodes: seq<Link>)
    requires Ring(head, nodes) && link != head && link !in nodes
    modifies head, nodes, link
    ensures Ring(head, [link] + nodes)
  {
    var prevLink := head;
    var nextLink := head.next;
    link.next := nextLink;
    nextLink.prev := link;
    prevLink.next := link;
    link.prev := prevLink;
  }

  ghost function Cells(head: Link, nodes: seq<Link>): set<Link> {
    {head} + set i | 0 <= i < |nodes| :: nodes[i]
  }

  /** The next and previous node of `x` after the removal writes. */
  ghost function UnlinkedNext(head: Link, nodes: seq<Link>, k: nat, x: Link, before: Link?): Link?
    requires k < |nodes|
  {
    if x == Cell(head, nodes, k - 1) then Cell(head, nodes, k + 1) else before
  }

  ghost function UnlinkedPrev(head: Link, nodes: seq<Link>, k: nat, x: Link, before: Link?): Link?
    requires k < |nodes|
  {
    if x == Cell(head, nodes, k + 1) then Cell(head, nodes, k - 1) else before
  }

  lemma UnlinkedCells(head: Link, nodes: seq<Link>, k: nat, j: nat)
    requires CellsDistinct(head, nodes) && k < |nodes| && j < |nodes| && j != k
    ensures var (gs, i) := (Without(nodes, k), if j < k then j else j - 1);
      && gs[i] == nodes[j]
      && UnlinkedNext(head, nodes, k, nodes[j], Cell(head, nodes, j + 1)) == Cell(head, gs, i + 1)
      && UnlinkedPrev(head, nodes, k, nodes[j], Cell(head, nodes, j - 1)) == Cell(head, gs, i - 1)
  {}

  lemma UnlinkedHead(head: Link, nodes: seq<Link>, k: nat)
    requires CellsDistinct(head, nodes) && k < |nodes|
    ensures var gs := Without(nodes, k);
      && CellsDistinct(head, gs)
      && UnlinkedNext(head, nodes, k, head, Cell(head, nodes, 0)) == Cell(head, gs, 0)
      && UnlinkedPrev(head, nodes, k, head, Cell(head, nodes, |nodes| - 1)) == Cell(head, gs, |gs| - 1)
  {}

  /** Removing deletes exactly that node and detaches it. A node that is on no
      list, as a NULL pointer shows, stays so, and no other node changes. */
  method Remove(link: Link, ghost listed: bool, ghost head: Link, ghost nodes: seq<Link>, ghost k: nat)
    requires listed ==> Ring(head, nodes) && k < |nodes| && nodes[k] == link
    requires !listed ==> link.prev == null || link.next == null
    modifies link, if listed then Cells(head, nodes) else {}
    ensures listed ==> Ring(head, Without(nodes, k))
    ensures link.prev == null && link.next == null
  {
    assert listed ==> Cell(head, nodes, k + 1) == link.next && Cell(head, nodes, k - 1) == link.prev;
    if link.next != null && link.prev != null {
      link.prev.next := link.next;
      link.next.prev := link.prev;
    }
    link.prev := null;
    link.next := null;
    if listed {
      ghost var gs := Without(nodes, k);
      UnlinkedHead(head, nodes, k);
      forall i | 0 <= i < |gs| ensures gs[i].next == Cell(head, gs, i + 1) && gs[i].prev == Cell(head, gs, i - 1) {
        var j := if i < k then i else i + 1;
        assert old(nodes[j].next) == Cell(head, nodes, j + 1) && old(nodes[j].prev) == Cell(head, nodes, j - 1);
        UnlinkedCells(head, nodes, k, j);
      }
    }
  }

  method IsEmpty(head: Link?, ghost nodes: seq<Link>) returns (empty: bool)
    requires head != null ==> Ring(head, nodes)
    ensures empty <==> head == null || nodes == []
  {
    empty := head == null || head.next == head;
  }

  /** Popping takes the first node off, or nothing from an empty list or from no
      list at all. */
  method Pop(head: Link?, ghost nodes: seq<Link>) returns (link: Link?)
    requires if head == null then nodes == [] else Ring(head, nodes)
    modifies head, nodes
    ensures nodes == [] ==> link == null && (head != null ==> Ring(head, []))
    ensures nodes != [] ==> link == nodes[0] && link.prev == null && link.next == null && Ring(head, nodes[1..])
  {
    var empty := IsEmpty(head, nodes);
    if empty {
      link := null;
    } else {
      link := head.next;
      assert Without(nodes, 0) == nodes[1..];
      Remove(link, true, head, nodes, 0);
    }
  }

  lemma SeparateConcat(result: Link, other: Link, nodes: seq<Link>, extra: seq<Link>)
    requires Separate(result, other, nodes, extra)
    ensures CellsDistinct(result, extra + nodes)
  {
    var all := extra + nodes;
    forall i, j | 0 <= i < j < |all| ensures all[i] != all[j] {
      if i < |extra| <= j {
        assert nodes[j - |extra|] in nodes && extra[i] in extra;
      }
    }
  }

  ghost predicate Separate(result: Link, other: Link, nodes: seq<Link>, extra: seq<Link>) {
    && result != other && result !in extra && other !in nodes
    && CellsDistinct(result, nodes) && CellsDistinct(other, extra)
    && forall x :: x in nodes ==> x !in extra
  }

  /** The next pointer of `x` after the merge writes, from the one before. */
  ghost function MergedNext(result: Link, nodes: seq<Link>, extra: seq<Link>, x: Link, before: Link?): Link?
    requires extra != []
  {
    if x == result then extra[0] else if x == extra[|extra| - 1] then Cell(result, nodes, 0) else before
  }

  ghost function MergedPrev(result: Link, nodes: seq<Link>, extra: seq<Link>, x: Link, before: Link?): Link?
    requires extra != []
  {
    if x == extra[0] then result else if x == Cell(result, nodes, 0) then extra[|extra| - 1] else before
  }

  lemma MergedFront(result: Link, other: Link, nodes: seq<Link>, extra: seq<Link>, i: nat)
    requires Separate(result, other, nodes, extra) && i < |extra|
    ensures var all := extra + nodes;
      && MergedNext(result, nodes, extra, extra[i], Cell(other, extra, i + 1)) == Cell(result, all, i + 1)
      && MergedPrev(result, nodes, extra, extra[i], Cell(other, extra, i - 1)) == Cell(result, all, i - 1)
  {
    assert extra[i] in extra;
    assert nodes != [] ==> nodes[0] in nodes;
  }

  lemma MergedBack(result: Link, other: Link, nodes: seq<Link>, extra: seq<Link>, k: nat)
    requires Separate(result, other, nodes, extra) && extra != [] && k < |nodes|
    ensures var all := extra + nodes;
      && MergedNext(result, nodes, extra, nodes[k], Cell(result, nodes, k + 1)) == Cell(result, all, |extra| + k + 1)
      && MergedPrev(result, nodes, extra, nodes[k], Cell(result, nodes, k - 1)) == Cell(result, all, |extra| + k - 1)
  {
    assert nodes[k] in nodes;
    assert extra[0] in extra && extra[|extra| - 1] in extra;
  }

  lemma MergedHead(result: Link, other: Link, nodes: seq<Link>, extra: seq<Link>)
    requires Separate(result, other, nodes, extra) && extra != []
    ensures var all := extra + nodes;
      && MergedNext(result, nodes, extra, result, Cell(result, nodes, 0)) == Cell(result, all, 0)
      && MergedPrev(result, nodes, extra, result, Cell(result, nodes, |nodes| - 1)) == Cell(result, all, |all| - 1)
  {
    assert extra[0] in extra;
  }

  method Relink(result: Link, other: Link, ghost nodes: seq<Link>, ghost extra: seq<Link>)
    requires Ring(result, nodes) && Ring(other, extra) && Separate(result, other, nodes, extra) && extra != []
    modifies result, other, nodes, extra
    ensures Ring(other, [])
    ensures forall x :: x in Cells(result, nodes + extra) ==>
      && x.next == MergedNext(result, nodes, extra, x, old(x.next))
      && x.prev == MergedPrev(result, nodes, extra, x, old(x.prev))
  {
    assert extra[0] in extra && extra[|extra| - 1] in extra;
    assert other.next == Cell(other, extra, 0) && other.prev == Cell(other, extra, |extra| - 1);
    other.prev.next := result.next;
    result.next.prev := other.prev;
    other.next.prev := result;
    result.next := other.next;
    InitHead(other);
  }

  /** The links written for a list that has nodes. */
  method MergeNodes(result: Link, other: Link, ghost nodes: seq<Link>, ghost extra: seq<Link>)
    requires Ring(result, nodes) && Ring(other, extra) && Separate(result, other, nodes, extra) && extra != []
    modifies result, other, nodes, extra
    ensures Ring(result, extra + nodes) && Ring(other, [])
  {
    hide MergedNext, MergedPrev, CellsDistinct, Separate;
    ghost var all := extra + nodes;
    SeparateConcat(result, other, nodes, extra);
    Relink(result, other, nodes, extra);
    MergedHead(result, other, nodes, extra);
    forall i | 0 <= i < |all|
      ensures all[i].next == Cell(result, all, i + 1) && all[i].prev == Cell(result, all, i - 1)
    {
      var x := all[i];
      if i < |extra| {
        assert x == (nodes + extra)[|nodes| + i];
        assert old(extra[i].next) == Cell(other, extra, i + 1) && old(extra[i].prev) == Cell(other, extra, i - 1);
        MergedFront(result, other, nodes, extra, i);
      } else {
        var k := i - |extra|;
        assert x == (nodes + extra)[k];
        assert old(nodes[k].next) == Cell(result, nodes, k + 1) && old(nodes[k].prev) == Cell(result, nodes, k - 1);
        MergedBack(result, other, nodes, extra, k);
      }
    }
  }

  /** Merging puts the nodes of the other list in front and empties it. Where
      there is no other list nothing happens. */
  method Merge(result: Link, other: Link?, ghost nodes: seq<Link>, ghost extra: seq<Link>)
    requires Ring(result, nodes)
    requires if other == null then extra == [] else Ring(other, extra) && Separate(result, other, nodes, extra)
    modifies result, other, nodes, extra
    ensures Ring(result, extra + nodes) && (other != null ==> Ring(other, []))
  {
    var empty := IsEmpty(other, extra);
    if !empty {
      MergeNodes(result, other, nodes, extra);
    } else {
      assert extra + nodes == nodes;
    }
  }

  /** The loop ends and visits each node once, in order. */
  method ForEach(head: Link, ghost nodes: seq<Link>) returns (visited: seq<Link>)
    requires Ring(head, nodes)
    ensures visited == nodes
  {
    visited := [];
    var link := head.next;
    while link != head
      invariant |visited| <= |nodes| && visited == nodes[..|visited|]
      invariant link == Cell(head, nodes, |visited|)
      decreases |nodes| - |visited|
    {
      visited := visited + [link];
      link := link.next;
    }
  }

  /** The ring is determined by the pointers: one head has one node sequence. */
  lemma RingUnique(head: Link, a: seq<Link>, b: seq<Link>)
    requires Ring(head, a) && Ring(head, b)
    ensures a == b
  {
    if |a| <= |b| {
      SamePrefix(head, a, b, |a|);
    } else {
      SamePrefix(head, b, a, |b|);
    }
  }

  lemma {:induction false} SamePrefix(head: Link, a: seq<Link>, b: seq<Link>, k: nat)
    requires Ring(head, a) && Ring(head, b) && k <= |a| <= |b|
    ensures a[..k] == b[..k] && Cell(head, a, k) == Cell(head, b, k)
  {
    if k > 0 {
      SamePrefix(head, a, b, k - 1);
      assert a[k - 1].next == Cell(head, a, k);
      assert b[k - 1].next == Cell(head, b, k);
    }
  }
}
