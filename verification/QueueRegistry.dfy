/** The registry as it runs: queue elements on a circular linked list, searched
    and relinked in place, proved against QueueModel. */
module QueueRegistry {
  import opened Collections
  import opened LinkList
  import opened QueueModel
  import opened QueueLaws

  // ----- The list in memory -----

  /** The elements that the nodes are embedded in, in list order. */
  ghost function Embedded(elements: map<Link, Queue>, nodes: seq<Link>): (qs: seq<Queue>)
    requires forall i :: 0 <= i < |nodes| ==> nodes[i] in elements
    ensures |qs| == |nodes| && forall i :: 0 <= i < |nodes| ==> qs[i] == elements[nodes[i]]
  {
    seq(|nodes|, i requires 0 <= i < |nodes| => elements[nodes[i]])
  }

  lemma EmbeddedUpdate(elements: map<Link, Queue>, nodes: seq<Link>, i: nat, q: Queue)
    requires (forall k :: 0 <= k < |nodes| ==> nodes[k] in elements) && Distinct(nodes) && i < |nodes|
    ensures Embedded(elements[nodes[i] := q], nodes) == Embedded(elements, nodes)[i := q]
  {}

  lemma EmbeddedWithout(elements: map<Link, Queue>, nodes: seq<Link>, i: nat)
    requires (forall k :: 0 <= k < |nodes| ==> nodes[k] in elements) && Distinct(nodes) && i < |nodes|
    ensures forall k :: 0 <= k < |nodes| - 1 ==> Without(nodes, i)[k] in elements - {nodes[i]}
    ensures nodes[i] !in Without(nodes, i)
    ensures Embedded(elements - {nodes[i]}, Without(nodes, i)) == Without(Embedded(elements, nodes), i)
  {
    assert forall k :: 0 <= k < |nodes| - 1 ==> Without(nodes, i)[k] == nodes[if k < i then k else k + 1];
  }

  lemma EmbeddedAdd(elements: map<Link, Queue>, nodes: seq<Link>, link: Link, q: Queue)
    requires (forall k :: 0 <= k < |nodes| ==> nodes[k] in elements) && link !in nodes
    ensures forall k :: 0 <= k <= |nodes| ==> ([link] + nodes)[k] in elements[link := q]
    ensures Embedded(elements[link := q], [link] + nodes) == [q] + Embedded(elements, nodes)
  {}

  /** The position that a search by name, or else by descriptor, ends at. */
  ghost function Sought(list: seq<Queue>, name: Option<string>, id: Option<nat>): (i: nat)
    requires name.Some? <==> id.None?
    ensures i <= |list|
  {
    if name.Some? then FindName(list, name.value) else FindId(list, id.value)
  }

  lemma SoughtIs(list: seq<Queue>, name: Option<string>, id: Option<nat>, i: nat)
    requires (name.Some? <==> id.None?) && i <= |list|
    requires forall j :: 0 <= j < i ==> name != Some(list[j].name) && id != Some(list[j].id)
    requires i < |list| ==> name == Some(list[i].name) || id == Some(list[i].id)
    ensures Sought(list, name, id) == i
  {}

  class MessageQueues {
    const head: Link
    /** The element that each list node is embedded in. */
    var elements: map<Link, Queue>
    var nextId: nat
    var serial: nat
    /** The list as a sequence, the heap's books and the message logs. */
    ghost var nodes: seq<Link>
    ghost var ledger: Ledger
    ghost var sent: map<nat, seq<Bytes>>
    ghost var received: map<nat, seq<Bytes>>

    /** The pointers form a ring through the nodes, and each has its element. */
    ghost predicate OnRing()
      reads this, head, nodes
    {
      Ring(head, nodes) && forall i :: 0 <= i < |nodes| ==> nodes[i] in elements
    }

    ghost function Value(): Registry
      requires forall i :: 0 <= i < |nodes| ==> nodes[i] in elements
      reads this
    {
      Registry(Embedded(elements, nodes), nextId, serial, ledger, sent, received)
    }

    ghost predicate Valid()
      reads this, head, nodes
    {
      OnRing() && Inv(Value())
    }

    constructor ()
      ensures Valid() && Value() == EMPTY_REGISTRY && fresh(head)
    {
      head := new Link();
      elements, nextId, serial := map[], 0, 0;
      nodes, ledger, sent, received := [], Ledger({}, {}, multiset{}), map[], map[];
      new;
      InitHead(head);
    }

    /** `prvFindQueueInList`: along the ring, by name if one is given, else by
        descriptor. */
    method FindQueue(name: Option<string>, id: Option<nat>) returns (found: bool, link: Link)
      requires OnRing() && (name.Some? <==> id.None?)
      ensures found <==> Sought(Value().list, name, id) < |nodes|
      ensures link == Cell(head, nodes, Sought(Value().list, name, id))
    {
      found, link := false, head.next;
      ghost var i := 0;
      while link != head
        invariant i <= |nodes| && link == Cell(head, nodes, i) && !found
        invariant forall j :: 0 <= j < i ==> name != Some(elements[nodes[j]].name) && id != Some(elements[nodes[j]].id)
        decreases |nodes| - i
      {
        var q := elements[link];
        if name.Some? && q.name == name.value {
          found := true;
          break;
        } else if id == Some(q.id) {
          found := true;
          break;
        }
        link := link.next;
        i := i + 1;
      }
      SoughtIs(Value().list, name, id, i);
    }

    /** `prvDeleteMessageQueue`: drain the queue, then free its own blocks. */
    method DeleteQueue(link: Link)
      requires link in elements
      modifies this`elements, this`ledger
      ensures elements == old(elements) - {link}
      ensures ledger == ReleaseAll(old(ledger), BlocksOf(old(elements)[link]))
    {
      hide BlocksOf, ReleaseAll, Release;
      ghost var all := BlocksOf(elements[link]);
      while elements[link].items != []
        invariant link in elements && elements == old(elements)[link := elements[link]]
        invariant ReleaseAll(ledger, BlocksOf(elements[link])) == ReleaseAll(old(ledger), all)
        decreases |elements[link].items|
      {
        var q := elements[link];
        NextItem(ledger, q);
        ledger := Release(ledger, Data(q.id, q.items[0].serial));
        elements := elements[link := q.(items := q.items[1..])];
      }
      ghost var id := elements[link].id;
      OwnBlocks(ledger, elements[link]);
      ledger := Release(Release(Release(ledger, Handle(id)), Name(id)), Element(id));
      elements := elements - {link};
    }

    /** Take a queue off the ring and delete it. */
    method RemoveQueue(link: Link, ghost i: nat)
      requires OnRing() && i < |nodes| && link == nodes[i]
      modifies this`elements, this`ledger, this`nodes, head, nodes
      ensures OnRing() && nodes == Without(old(nodes), i)
      ensures Value() == Delete(old(Value()), i)
    {
      hide Ring, ReleaseAll, BlocksOf;
      RingDistinct(head, nodes);
      EmbeddedWithout(elements, nodes, i);
      LinkList.Remove(link, true, head, nodes, i);
      nodes := Without(nodes, i);
      DeleteQueue(link);
    }

    /** Overwrite the element of one node. */
    method Put(link: Link, q: Queue, ghost i: nat)
      requires OnRing() && i < |nodes| && link == nodes[i]
      modifies this`elements
      ensures OnRing() && Value() == old(Value()).(list := old(Value()).list[i := q])
    {
      hide Ring;
      RingDistinct(head, nodes);
      EmbeddedUpdate(elements, nodes, i, q);
      elements := elements[link := q];
    }

    method Close(id: nat) returns (o: Outcome)
      requires Valid()
      modifies this, head, nodes
      ensures Valid() && (Value(), o) == Step(old(Value()), Call.Close(id))
      ensures forall n :: n in nodes ==> n in old(nodes)
    {
      hide Inv, Ring, Delete;
      StepKeeps(Value(), Call.Close(id));
      var found, link := FindQueue(None, Some(id));
      if !found {
        return Failed(EBADF);
      }
      ghost var i := FindId(Value().list, id);
      o := Done;
      var q := elements[link];
      if q.descriptors > 0 {
        q := q.(descriptors := q.descriptors - 1);
      }
      if q.descriptors > 0 {
        Put(link, q, i);
      } else if q.pendingUnlink {
        RemoveQueue(link, i);
      } else {
        Put(link, q.(pendingUnlink := true), i);
      }
    }

    method Unlink(name: string) returns (o: Outcome)
      requires Valid()
      modifies this, head, nodes
      ensures Valid() && (Value(), o) == Step(old(Value()), Call.Unlink(name))
      ensures forall n :: n in nodes ==> n in old(nodes)
    {
      hide Inv, Ring, Delete;
      StepKeeps(Value(), Call.Unlink(name));
      if !ValidName(name) {
        return Failed(EINVAL);
      }
      var found, link := FindQueue(Some(name), None);
      if !found {
        return Failed(ENOENT);
      }
      ghost var i := FindName(Value().list, name);
      o := Done;
      if elements[link].descriptors == 0 {
        RemoveQueue(link, i);
      } else {
        Put(link, elements[link].(pendingUnlink := true), i);
      }
    }

    /** `prvCreateNewMessageQueue`: three allocations, each undone if a later
        one fails; then the new element goes to the front of the ring. */
    method CreateQueue(name: string, attr: Attr, grants: Grants) returns (o: Outcome)
      requires Valid()
      modifies this, head, nodes
      ensures OnRing() && (Value(), o) == Create(old(Value()), name, attr, grants)
      ensures FindName(old(Value()).list, name) == |old(nodes)| && attr.maxMessages > 0 ==> Valid()
      ensures o.Failed? ==> Value().list == old(Value()).list && ledger.live == old(ledger).live
      ensures o.Opened? ==> Sought(Value().list, None, Some(o.id)) == 0 && Sought(Value().list, Some(name), None) == 0
      ensures forall n :: n in nodes ==> n in old(nodes) || fresh(n)
    {
      hide Inv, Ring, Allocate, Release, FindName, FindId;
      CreateFacts(Value(), name, attr, grants);
      o := Failed(ENOSPC);
      if !grants.element {
        return;
      }
      var link := new Link();
      var id := nextId;
      nextId := id + 1;
      ledger := Allocate(ledger, Element(id));
      if !grants.handle {
        ledger := Release(ledger, Element(id));
        return;
      }
      ledger := Allocate(ledger, Handle(id));
      if !grants.name {
        ledger := Release(ledger, Handle(id));
        ledger := Release(ledger, Element(id));
        return;
      }
      ledger := Allocate(ledger, Name(id));
      sent, received := sent[id := []], received[id := []];
      Insert(link, Queue(id, name, attr, 1, false, []));
      o := Opened(id);
    }

    /** Fill in a new element and add it to the ring. */
    method Insert(link: Link, q: Queue)
      requires OnRing() && link != head && link !in nodes
      modifies this`elements, this`nodes, head, nodes, link
      ensures OnRing() && nodes == [link] + old(nodes)
      ensures Value() == old(Value()).(list := [q] + old(Value()).list)
    {
      EmbeddedAdd(elements, nodes, link, q);
      hide Ring;
      elements := elements[link := q];
      Add(head, link, nodes);
      nodes := [link] + nodes;
    }

    method Open(name: string, create: bool, exclusive: bool, attr: Option<Attr>, nonBlocking: bool, grants: Grants)
      returns (o: Outcome)
      requires Valid()
      modifies this, head, nodes
      ensures Valid()
      ensures (Value(), o) == Step(old(Value()), Call.Open(name, create, exclusive, attr, nonBlocking, grants))
      ensures forall n :: n in nodes ==> n in old(nodes) || fresh(n)
    {
      hide Inv, Ring, Create;
      StepKeeps(Value(), Call.Open(name, create, exclusive, attr, nonBlocking, grants));
      if !ValidName(name) {
        return Failed(EINVAL);
      }
      if create && attr.Some? && (attr.value.maxMessages <= 0 || attr.value.messageSize <= 0) {
        return Failed(EINVAL);
      }
      var found, link := FindQueue(Some(name), None);
      if found {
        var q := elements[link];
        if exclusive && create {
          o := Failed(EEXIST);
        } else if q.pendingUnlink {
          o := Failed(EINVAL);
        } else {
          o := Opened(q.id);
          Put(link, q.(descriptors := q.descriptors + 1), FindName(Value().list, name));
        }
      } else if create {
        var creation := Attr(nonBlocking, DEFAULT_MAX_MESSAGES, DEFAULT_MAX_SIZE);
        if attr.Some? {
          creation := attr.value.(nonBlocking := nonBlocking);
        }
        o := CreateQueue(name, creation, grants);
      } else {
        o := Failed(ENOENT);
      }
    }

    method Send(id: nat, bytes: Bytes, deadline: Deadline, grant: bool) returns (o: Outcome)
      requires Valid()
      modifies this
      ensures Valid() && nodes == old(nodes)
      ensures (Value(), o) == Step(old(Value()), Call.Send(id, bytes, deadline, grant))
    {
      hide Inv, Ring, Allocate, Release;
      StepKeeps(Value(), Call.Send(id, bytes, deadline, grant));
      var found, link := FindQueue(None, Some(id));
      if !found {
        return Failed(EBADF);
      }
      ghost var i := FindId(Value().list, id);
      var q := elements[link];
      if |bytes| > q.attr.messageSize {
        return Failed(EMSGSIZE);
      }
      var late := TimeoutError(q.attr, deadline);
      if late.Some? {
        return Failed(late.value);
      }
      if bytes == [] || !grant {
        return Failed(EMSGSIZE);
      }
      var item := Item(serial, bytes);
      serial := serial + 1;
      ledger := Allocate(ledger, Data(q.id, item.serial));
      if |q.items| >= q.attr.maxMessages {
        o := Failed(WaitError(q.attr));
        ledger := Release(ledger, Data(q.id, item.serial));
      } else {
        sent := sent[q.id := Log(sent, q.id) + [bytes]];
        Put(link, q.(items := q.items + [item]), i);
        o := Done;
      }
    }

    method Receive(id: nat, length: nat, deadline: Deadline) returns (o: Outcome)
      requires Valid()
      modifies this
      ensures Valid() && nodes == old(nodes)
      ensures (Value(), o) == Step(old(Value()), Call.Receive(id, length, deadline))
      ensures o.Message? ==> |o.bytes| <= length
    {
      hide Inv, Ring, Release;
      StepKeeps(Value(), Call.Receive(id, length, deadline));
      var found, link := FindQueue(None, Some(id));
      if !found {
        return Failed(EBADF);
      }
      ghost var i := FindId(Value().list, id);
      ItemSizes(Value(), i);
      var q := elements[link];
      if length < q.attr.messageSize {
        return Failed(EMSGSIZE);
      }
      var late := TimeoutError(q.attr, deadline);
      if late.Some? {
        return Failed(late.value);
      }
      if q.items == [] {
        return Failed(WaitError(q.attr));
      }
      var item := q.items[0];
      received := received[q.id := Log(received, q.id) + [item.bytes]];
      ledger := Release(ledger, Data(q.id, item.serial));
      Put(link, q.(items := q.items[1..]), i);
      o := Message(item.bytes);
    }
  }

  lemma CreateFacts(r: Registry, name: string, attr: Attr, grants: Grants)
    requires Inv(r)
    ensures FindName(r.list, name) == |r.list| && attr.maxMessages > 0 ==> Inv(Create(r, name, attr, grants).0)
    ensures var (g, o) := Create(r, name, attr, grants);
      && (o.Failed? ==> g.list == r.list && g.ledger.live == r.ledger.live)
      && (o.Opened? ==> Sought(g.list, None, Some(o.id)) == 0 && Sought(g.list, Some(name), None) == 0)
  {
    hide Inv, Create, Sought;
    FreshIds(r);
    CreateFailure(r, name, attr, grants);
    CreatedIsFirst(r, name, attr, grants);
    if FindName(r.list, name) == |r.list| && attr.maxMessages > 0 { CreateKeeps(r, name, attr, grants); }
  }

  lemma CreatedIsFirst(r: Registry, name: string, attr: Attr, grants: Grants)
    ensures var (g, o) := Create(r, name, attr, grants);
      o.Opened? ==> Sought(g.list, None, Some(o.id)) == 0 && Sought(g.list, Some(name), None) == 0
  {
    hide Allocate, Release;
  }

  lemma RingDistinct(head: Link, nodes: seq<Link>)
    requires Ring(head, nodes)
    ensures Distinct(nodes) && head !in nodes
  {}

  lemma ItemSizes(r: Registry, i: nat)
    requires Inv(r) && i < |r.list|
    ensures forall j :: 0 <= j < |r.list[i].items| ==> |r.list[i].items[j].bytes| <= r.list[i].attr.messageSize
  {}

  lemma NextItem(l: Ledger, q: Queue)
    requires q.items != []
    ensures ReleaseAll(l, BlocksOf(q)) ==
            ReleaseAll(Release(l, Data(q.id, q.items[0].serial)), BlocksOf(q.(items := q.items[1..])))
  {
    var bs, rest := BlocksOf(q), BlocksOf(q.(items := q.items[1..]));
    assert bs[0] == Data(q.id, q.items[0].serial);
    assert ItemBlocks(q.id, q.items)[1..] == ItemBlocks(q.id, q.items[1..]);
    assert bs[1..] == rest;
  }

  lemma OwnBlocks(l: Ledger, q: Queue)
    requires q.items == []
    ensures ReleaseAll(l, BlocksOf(q)) == Release(Release(Release(l, Handle(q.id)), Name(q.id)), Element(q.id))
  {
    assert BlocksOf(q) == [Handle(q.id)] + ([Name(q.id)] + ([Element(q.id)] + []));
    ReleaseFirst(l, Handle(q.id), [Name(q.id)] + ([Element(q.id)] + []));
    ReleaseFirst(Release(l, Handle(q.id)), Name(q.id), [Element(q.id)] + []);
    ReleaseFirst(Release(Release(l, Handle(q.id)), Name(q.id)), Element(q.id), []);
  }

  lemma ReleaseFirst(l: Ledger, b: Block, bs: seq<Block>)
    ensures ReleaseAll(l, [b] + bs) == ReleaseAll(Release(l, b), bs)
  {}
}
