/** What every call on the message-queue registry keeps, and what that says
    about whole runs. */
module QueueLaws {
  import opened Collections
  import opened QueueModel

  // ----- The invariant -----

  /** Serial numbers grow along a queue, so its buffers are distinct. */
  ghost predicate ItemsOk(q: Queue, serial: nat) {
    && (forall i, j :: 0 <= i < j < |q.items| ==> q.items[i].serial < q.items[j].serial)
    && (forall i :: 0 <= i < |q.items| ==> q.items[i].serial < serial && |q.items[i].bytes| <= q.attr.messageSize)
    && |q.items| <= q.attr.maxMessages
  }

  ghost predicate QueueOk(q: Queue, nextId: nat, serial: nat) {
    q.id < nextId && (q.descriptors == 0 ==> q.pendingUnlink) && ItemsOk(q, serial)
  }

  ghost predicate QueuesOk(r: Registry) {
    forall i :: 0 <= i < |r.list| ==> QueueOk(r.list[i], r.nextId, r.serial)
  }

  ghost predicate Unique(list: seq<Queue>) {
    forall i, j :: 0 <= i < j < |list| ==> list[i].id != list[j].id && list[i].name != list[j].name
  }

  ghost predicate OwnedBySome(list: seq<Queue>, b: Block) {
    exists i :: 0 <= i < |list| && Owns(list[i], b)
  }

  /** The blocks not yet freed are exactly what the listed queues own. */
  ghost predicate MemoryOk(r: Registry) {
    && Balanced(r.ledger)
    && (forall b :: b in r.ledger.live <==> OwnedBySome(r.list, b))
    && (forall b :: b in r.ledger.made ==> b.id < r.nextId && (b.Data? ==> b.serial < r.serial))
  }

  ghost predicate Delivers(q: Queue, sent: map<nat, seq<Bytes>>, received: map<nat, seq<Bytes>>) {
    Log(sent, q.id) == Log(received, q.id) + Payload(q.items)
  }

  /** Each listed queue holds what was sent and not yet received; what any
      queue delivered is a prefix of what it accepted. */
  ghost predicate DeliveryOk(r: Registry) {
    && (forall i :: 0 <= i < |r.list| ==> Delivers(r.list[i], r.sent, r.received))
    && (forall id :: Log(r.received, id) <= Log(r.sent, id))
  }

  ghost predicate Inv(r: Registry) {
    QueuesOk(r) && Unique(r.list) && MemoryOk(r) && DeliveryOk(r)
  }

  // ----- Replacing or removing one queue -----

  /** A block of queue `i` is owned by nobody else. */
  lemma OwnerIsUnique(list: seq<Queue>, i: nat, b: Block)
    requires Unique(list) && i < |list| && b.id == list[i].id
    ensures OwnedBySome(list, b) <==> Owns(list[i], b)
  {}

  lemma OwnedAfterUpdate(list: seq<Queue>, i: nat, q: Queue, b: Block)
    requires Unique(list) && i < |list| && q.id == list[i].id && q.name == list[i].name
    ensures Unique(list[i := q])
    ensures OwnedBySome(list[i := q], b) <==>
            if b.id == q.id then Owns(q, b) else OwnedBySome(list, b)
  {
    var after := list[i := q];
    if b.id == q.id {
      OwnerIsUnique(after, i, b);
    } else {
      OwnsTag(after, b);
      OwnsTag(list, b);
      if OwnedBySome(list, b) {
        var j :| 0 <= j < |list| && Owns(list[j], b);
        assert Owns(after[j], b);
      }
      if OwnedBySome(after, b) {
        var j :| 0 <= j < |after| && Owns(after[j], b);
        assert Owns(list[j], b);
      }
    }
  }

  lemma OwnsTag(list: seq<Queue>, b: Block)
    ensures forall j :: 0 <= j < |list| && Owns(list[j], b) ==> list[j].id == b.id
  {}

  lemma WithoutUnique(list: seq<Queue>, i: nat)
    requires Unique(list) && i < |list|
    ensures Unique(Without(list, i))
  {}

  lemma OwnedAfterRemoval(list: seq<Queue>, i: nat, b: Block)
    requires Unique(list) && i < |list|
    ensures OwnedBySome(Without(list, i), b) <==> OwnedBySome(list, b) && b.id != list[i].id
  {
    hide Owns, Without, Unique;
    if OwnedBySome(Without(list, i), b) {
      var j :| 0 <= j < |Without(list, i)| && Owns(Without(list, i)[j], b);
      WithoutAt(list, i, j);
      OwnsTagOne(Without(list, i)[j], b);
    }
    if OwnedBySome(list, b) && b.id != list[i].id {
      var k :| 0 <= k < |list| && Owns(list[k], b);
      OwnsTagOne(list[k], b);
      WithoutLength(list, i);
      WithoutAt(list, i, if k < i then k else k - 1);
    }
  }

  lemma WithoutLength(list: seq<Queue>, i: nat)
    requires i < |list|
    ensures |Without(list, i)| == |list| - 1
  {}

  lemma WithoutAt(list: seq<Queue>, i: nat, j: nat)
    requires Unique(list) && i < |list| && j < |Without(list, i)|
    ensures var k := if j < i then j else j + 1;
      |Without(list, i)| == |list| - 1 && Without(list, i)[j] == list[k] && list[k].id != list[i].id
  {}

  lemma OwnsTagOne(q: Queue, b: Block)
    ensures Owns(q, b) ==> q.id == b.id
  {}

  lemma BlocksDistinct(q: Queue, serial: nat)
    requires ItemsOk(q, serial)
    ensures Distinct(BlocksOf(q))
  {}

  // ----- Deletion -----

  lemma DeleteMemory(r: Registry, i: nat)
    requires Inv(r) && i < |r.list|
    ensures MemoryOk(Delete(r, i))
  {
    hide DeliveryOk, Unique, BlocksOf, Owns, Without, Balanced, ReleaseAll;
    var q, g := r.list[i], Delete(r, i);
    assert QueueOk(q, r.nextId, r.serial);
    BlocksDistinct(q, r.serial);
    forall b | b in BlocksOf(q) ensures b in r.ledger.live {
      OwnsIsBlocksOf(q, b);
      OwnerIsUnique(r.list, i, b);
    }
    ReleaseAllBalanced(r.ledger, BlocksOf(q));
    forall b ensures b in g.ledger.live <==> OwnedBySome(g.list, b) {
      OwnedAfterRemoval(r.list, i, b);
      OwnsIsBlocksOf(q, b);
      if b.id == q.id { OwnerIsUnique(r.list, i, b); }
    }
  }

  lemma DeleteKeeps(r: Registry, i: nat)
    requires Inv(r) && i < |r.list|
    ensures Inv(Delete(r, i))
  {
    hide MemoryOk, ReleaseAll, BlocksOf, QueueOk;
    DeleteMemory(r, i);
    WithoutUnique(r.list, i);
    var after := Without(r.list, i);
    assert forall j :: 0 <= j < |after| ==> after[j] == r.list[if j < i then j else j + 1];
  }

  // ----- Descriptor counts and flags -----

  /** Changing only the count and the flag of queue `i`. */
  lemma UpdateKeeps(r: Registry, i: nat, q: Queue)
    requires Inv(r) && i < |r.list|
    requires q == r.list[i].(descriptors := q.descriptors, pendingUnlink := q.pendingUnlink)
    requires q.descriptors == 0 ==> q.pendingUnlink
    ensures Inv(r.(list := r.list[i := q]))
  {
    hide MemoryOk, DeliveryOk, ItemsOk, Unique;
    var g := r.(list := r.list[i := q]);
    UpdateMemory(r, i, q);
    UpdatedItems(r, i, q);
    forall j | 0 <= j < |g.list| ensures QueueOk(g.list[j], g.nextId, g.serial) {
      assert QueueOk(r.list[j], r.nextId, r.serial);
    }
    ListedDelivers(r, i);
    DeliveryAfterUpdate(r, g, i);
  }

  lemma UpdatedItems(r: Registry, i: nat, q: Queue)
    requires Inv(r) && i < |r.list|
    requires q == r.list[i].(descriptors := q.descriptors, pendingUnlink := q.pendingUnlink)
    ensures ItemsOk(q, r.serial)
  {}

  lemma UpdateMemory(r: Registry, i: nat, q: Queue)
    requires Unique(r.list) && MemoryOk(r) && i < |r.list|
    requires q == r.list[i].(descriptors := q.descriptors, pendingUnlink := q.pendingUnlink)
    ensures Unique(r.list[i := q]) && MemoryOk(r.(list := r.list[i := q]))
  {
    hide Balanced, Unique, OwnedBySome;
    OwnedAfterUpdate(r.list, i, q, Handle(q.id));
    forall b ensures OwnedBySome(r.list[i := q], b) <==> OwnedBySome(r.list, b) {
      OwnedAfterUpdate(r.list, i, q, b);
      if b.id == q.id { OwnerIsUnique(r.list, i, b); }
    }
  }

  lemma CloseKeeps(r: Registry, c: Call)
    requires Inv(r) && c.Close?
    ensures Inv(CloseCall(r, c).0)
  {
    hide Inv, Delete;
    var i := FindId(r.list, c.id);
    if i < |r.list| {
      var q := r.list[i];
      var n := if q.descriptors > 0 then q.descriptors - 1 else 0;
      if n > 0 {
        UpdateKeeps(r, i, q.(descriptors := n));
      } else if q.pendingUnlink {
        DeleteKeeps(r, i);
      } else {
        UpdateKeeps(r, i, q.(descriptors := n, pendingUnlink := true));
      }
    }
  }

  lemma UnlinkKeeps(r: Registry, c: Call)
    requires Inv(r) && c.Unlink?
    ensures Inv(UnlinkCall(r, c).0)
  {
    hide Inv, Delete;
    var i := FindName(r.list, c.name);
    if ValidName(c.name) && i < |r.list| {
      if r.list[i].descriptors == 0 {
        DeleteKeeps(r, i);
      } else {
        UpdateKeeps(r, i, r.list[i].(pendingUnlink := true));
      }
    }
  }

  // ----- Creation -----

  lemma CreateMemory(r: Registry, name: string, attr: Attr, grants: Grants)
    requires MemoryOk(r) && QueuesOk(r)
    ensures MemoryOk(Create(r, name, attr, grants).0)
  {
    hide Balanced, Allocate, Release, OwnedBySome;
    var id, l := r.nextId, r.ledger;
    if grants.element {
      FreshBlock(l, Element(id));
      var one := Allocate(l, Element(id));
      if !grants.handle {
        UndoAllocation(l, one, Element(id));
      } else {
        FreshBlock(one, Handle(id));
        var two := Allocate(one, Handle(id));
        if !grants.name {
          UndoAllocation(one, two, Handle(id));
          UndoSecond(l, one, Release(two, Handle(id)), Element(id), Handle(id));
        } else {
          FreshBlock(two, Name(id));
          CreatedOwned(r, name, attr);
        }
      }
    }
  }

  lemma FreshBlock(l: Ledger, b: Block)
    requires Balanced(l) && b !in l.made
    ensures Balanced(Allocate(l, b)) && b !in l.live
    ensures Allocate(l, b).live == l.live + {b} && Allocate(l, b).made == l.made + {b}
  {}

  lemma UndoAllocation(l: Ledger, after: Ledger, b: Block)
    requires after == Allocate(l, b) && Balanced(after) && b !in l.live
    ensures Balanced(Release(after, b))
    ensures Release(after, b).live == l.live && Release(after, b).made == l.made + {b}
  {}

  lemma UndoSecond(l: Ledger, one: Ledger, undone: Ledger, b: Block, c: Block)
    requires one == Allocate(l, b) && b !in l.live
    requires Balanced(undone) && undone.live == one.live && undone.made == one.made + {c}
    ensures Balanced(Release(undone, b))
    ensures Release(undone, b).live == l.live && Release(undone, b).made == l.made + {b, c}
  {}

  lemma CreatedOwned(r: Registry, name: string, attr: Attr)
    ensures var q := Queue(r.nextId, name, attr, 1, false, []);
      forall b :: OwnedBySome([q] + r.list, b) <==>
        OwnedBySome(r.list, b) || b == Element(q.id) || b == Handle(q.id) || b == Name(q.id)
  {
    var q := Queue(r.nextId, name, attr, 1, false, []);
    var after := [q] + r.list;
    forall b
      ensures OwnedBySome(after, b) <==>
              OwnedBySome(r.list, b) || b == Element(q.id) || b == Handle(q.id) || b == Name(q.id)
    {
      if OwnedBySome(r.list, b) {
        var j :| 0 <= j < |r.list| && Owns(r.list[j], b);
        assert after[j + 1] == r.list[j];
      }
      if b == Element(q.id) || b == Handle(q.id) || b == Name(q.id) {
        assert Owns(after[0], b);
      }
      if OwnedBySome(after, b) {
        var j :| 0 <= j < |after| && Owns(after[j], b);
        if j > 0 { assert Owns(r.list[j - 1], b); }
      }
    }
  }

  lemma CreateQueues(r: Registry, q: Queue)
    requires QueuesOk(r) && Unique(r.list) && q.id == r.nextId && q.items == [] && q.descriptors > 0
    requires q.attr.maxMessages > 0 && FindName(r.list, q.name) == |r.list|
    ensures Unique([q] + r.list)
    ensures forall j :: 0 <= j <= |r.list| ==> QueueOk(([q] + r.list)[j], r.nextId + 1, r.serial)
  {
    hide ItemsOk;
    NoItemsOk(q, r.serial);
    var after := [q] + r.list;
    forall j | 0 < j < |after| ensures after[j].id < q.id && after[j].name != q.name {
      assert after[j] == r.list[j - 1];
      assert QueueOk(r.list[j - 1], r.nextId, r.serial);
    }
    assert forall j :: 0 < j < |after| ==> after[j] == r.list[j - 1];
  }

  lemma NoItemsOk(q: Queue, serial: nat)
    requires q.items == [] && q.attr.maxMessages > 0
    ensures ItemsOk(q, serial)
  {}

  lemma CreateDelivery(r: Registry, g: Registry, q: Queue)
    requires DeliveryOk(r) && QueuesOk(r) && q.id == r.nextId && q.items == []
    requires g.list == [q] + r.list && g.sent == r.sent[q.id := []] && g.received == r.received[q.id := []]
    ensures DeliveryOk(g)
  {
    hide ItemsOk;
    forall j | 0 <= j < |g.list| ensures Delivers(g.list[j], g.sent, g.received) {
      if j > 0 {
        assert g.list[j] == r.list[j - 1];
        assert QueueOk(r.list[j - 1], r.nextId, r.serial);
        assert Delivers(r.list[j - 1], r.sent, r.received);
      }
    }
  }

  lemma CreateKeeps(r: Registry, name: string, attr: Attr, grants: Grants)
    requires Inv(r) && FindName(r.list, name) == |r.list| && attr.maxMessages > 0
    ensures Inv(Create(r, name, attr, grants).0)
  {
    hide MemoryOk, DeliveryOk, Unique, ItemsOk, Allocate, Release;
    CreateMemory(r, name, attr, grants);
    var g := Create(r, name, attr, grants).0;
    if grants.element && grants.handle && grants.name {
      var q := Queue(r.nextId, name, attr, 1, false, []);
      CreateQueues(r, q);
      CreateDelivery(r, g, q);
    } else {
      SameDelivery(r, g);
      forall j | 0 <= j < |g.list| ensures QueueOk(g.list[j], g.nextId, g.serial) {
        assert QueueOk(r.list[j], r.nextId, r.serial);
      }
    }
  }

  lemma OpenKeeps(r: Registry, c: Call)
    requires Inv(r) && c.Open?
    ensures Inv(OpenCall(r, c).0)
  {
    hide Inv, Create;
    var i := FindName(r.list, c.name);
    if i < |r.list| {
      var q := r.list[i];
      UpdateIfNeeded(r, i, q.descriptors + 1);
    } else if c.create && !(c.attr.Some? && c.attr.value.maxMessages <= 0) {
      var attr := if c.attr.Some? then c.attr.value.(nonBlocking := c.nonBlocking)
                  else Attr(c.nonBlocking, DEFAULT_MAX_MESSAGES, DEFAULT_MAX_SIZE);
      CreateKeeps(r, c.name, attr, c.grants);
    }
  }

  lemma UpdateIfNeeded(r: Registry, i: nat, n: nat)
    requires Inv(r) && i < |r.list| && n > 0
    ensures Inv(r.(list := r.list[i := r.list[i].(descriptors := n)]))
  {
    hide Inv;
    UpdateKeeps(r, i, r.list[i].(descriptors := n));
  }

  // ----- Sending -----

  lemma SentOwned(r: Registry, i: nat, item: Item, b: Block)
    requires Unique(r.list) && i < |r.list|
    ensures var q := r.list[i].(items := r.list[i].items + [item]);
      && Unique(r.list[i := q])
      && (OwnedBySome(r.list[i := q], b) <==> OwnedBySome(r.list, b) || b == Data(q.id, item.serial))
  {
    var p := r.list[i];
    var q := p.(items := p.items + [item]);
    OwnedAfterUpdate(r.list, i, q, b);
    if b.id == q.id {
      OwnerIsUnique(r.list, i, b);
      if Owns(p, b) && b.Data? {
        var k :| 0 <= k < |p.items| && b == Data(p.id, p.items[k].serial);
        assert q.items[k] == p.items[k];
      }
      if b == Data(q.id, item.serial) {
        assert q.items[|p.items|] == item;
      }
    }
  }

  lemma SendMemory(r: Registry, c: Call)
    requires Inv(r) && c.Send?
    ensures MemoryOk(SendCall(r, c).0)
  {
    hide Balanced, Allocate, Release, DeliveryOk, Unique, OwnedBySome;
    var i := FindId(r.list, c.id);
    var g := SendCall(r, c).0;
    if i < |r.list| && g.serial != r.serial {
      var q := r.list[i];
      assert QueueOk(q, r.nextId, r.serial);
      var b := Data(q.id, r.serial);
      FreshBlock(r.ledger, b);
      if |q.items| >= q.attr.maxMessages {
        UndoAllocation(r.ledger, Allocate(r.ledger, b), b);
      } else {
        forall a ensures OwnedBySome(g.list, a) <==> OwnedBySome(r.list, a) || a == b {
          SentOwned(r, i, Item(r.serial, c.bytes), a);
        }
      }
    }
  }

  /** Only queue `i` and its own logs change. */
  lemma DeliveryAfterUpdate(r: Registry, g: Registry, i: nat)
    requires DeliveryOk(r) && Unique(r.list) && i < |r.list| == |g.list|
    requires g.list == r.list[i := g.list[i]] && g.list[i].id == r.list[i].id
    requires forall id :: id != r.list[i].id ==>
      Log(g.sent, id) == Log(r.sent, id) && Log(g.received, id) == Log(r.received, id)
    requires Delivers(g.list[i], g.sent, g.received)
    ensures DeliveryOk(g)
  {}

  lemma SendDelivery(r: Registry, c: Call)
    requires Inv(r) && c.Send?
    ensures DeliveryOk(SendCall(r, c).0)
  {
    hide MemoryOk, QueuesOk, Allocate, Release, Unique, DeliveryOk;
    var i := FindId(r.list, c.id);
    var g := SendCall(r, c).0;
    if SendCall(r, c).1.Done? {
      var q := r.list[i];
      ListedDelivers(r, i);
      SentPayload(q.items, Item(r.serial, c.bytes));
      DeliveryAfterUpdate(r, g, i);
    } else {
      SameDelivery(r, g);
    }
  }

  lemma ListedDelivers(r: Registry, i: nat)
    requires DeliveryOk(r) && i < |r.list|
    ensures Delivers(r.list[i], r.sent, r.received)
  {}

  lemma SameDelivery(r: Registry, g: Registry)
    requires DeliveryOk(r) && g.list == r.list && g.sent == r.sent && g.received == r.received
    ensures DeliveryOk(g)
  {}

  lemma SentPayload(items: seq<Item>, item: Item)
    ensures Payload(items + [item]) == Payload(items) + [item.bytes]
  {}

  lemma ReceivedPayload(items: seq<Item>)
    requires items != []
    ensures Payload(items) == [items[0].bytes] + Payload(items[1..])
  {}

  lemma SentItems(q: Queue, serial: nat, bytes: Bytes)
    requires ItemsOk(q, serial) && |q.items| < q.attr.maxMessages && |bytes| <= q.attr.messageSize
    ensures ItemsOk(q.(items := q.items + [Item(serial, bytes)]), serial + 1)
  {}

  lemma LaterSerial(q: Queue, serial: nat)
    requires ItemsOk(q, serial)
    ensures ItemsOk(q, serial + 1)
  {}

  lemma SendQueues(r: Registry, c: Call)
    requires Inv(r) && c.Send?
    ensures QueuesOk(SendCall(r, c).0) && Unique(SendCall(r, c).0.list)
  {
    hide MemoryOk, DeliveryOk, Allocate, Release, ItemsOk, Unique;
    var i := FindId(r.list, c.id);
    var g := SendCall(r, c).0;
    forall j | 0 <= j < |g.list| ensures QueueOk(g.list[j], g.nextId, g.serial) {
      assert QueueOk(r.list[j], r.nextId, r.serial);
      LaterSerial(r.list[j], r.serial);
      if SendCall(r, c).1.Done? && j == i {
        SentItems(r.list[i], r.serial, c.bytes);
      }
    }
    if SendCall(r, c).1.Done? {
      SentOwned(r, i, Item(r.serial, c.bytes), Handle(0));
    }
  }

  lemma SendKeeps(r: Registry, c: Call)
    requires Inv(r) && c.Send?
    ensures Inv(SendCall(r, c).0)
  {
    SendMemory(r, c);
    SendDelivery(r, c);
    SendQueues(r, c);
  }

  // ----- Receiving -----

  lemma ReceivedOwned(r: Registry, i: nat, b: Block)
    requires Unique(r.list) && i < |r.list| && r.list[i].items != [] && ItemsOk(r.list[i], r.serial)
    ensures var p := r.list[i];
      var q := p.(items := p.items[1..]);
      && Unique(r.list[i := q])
      && (OwnedBySome(r.list[i := q], b) <==> OwnedBySome(r.list, b) && b != Data(q.id, p.items[0].serial))
  {
    var p := r.list[i];
    var q := p.(items := p.items[1..]);
    OwnedAfterUpdate(r.list, i, q, b);
    if b.id == q.id {
      OwnerIsUnique(r.list, i, b);
      if Owns(p, b) && b.Data? && b != Data(q.id, p.items[0].serial) {
        var k :| 0 <= k < |p.items| && b == Data(p.id, p.items[k].serial);
        assert q.items[k - 1] == p.items[k];
      }
      if Owns(q, b) && b.Data? {
        var k :| 0 <= k < |q.items| && b == Data(q.id, q.items[k].serial);
        assert p.items[k + 1] == q.items[k];
      }
    }
  }

  lemma ReceiveMemory(r: Registry, c: Call)
    requires Inv(r) && c.Receive?
    ensures MemoryOk(ReceiveCall(r, c).0)
  {
    hide Balanced, DeliveryOk, Unique, OwnedBySome;
    var i := FindId(r.list, c.id);
    var g := ReceiveCall(r, c).0;
    if i < |r.list| && g.list != r.list {
      var q := r.list[i];
      assert QueueOk(q, r.nextId, r.serial);
      var b := Data(q.id, q.items[0].serial);
      assert Owns(q, b);
      OwnerIsUnique(r.list, i, b);
      ReleaseBalanced(r.ledger, b);
      forall a ensures OwnedBySome(g.list, a) <==> OwnedBySome(r.list, a) && a != b {
        ReceivedOwned(r, i, a);
      }
    }
  }

  lemma ReceiveDelivery(r: Registry, c: Call)
    requires Inv(r) && c.Receive?
    ensures DeliveryOk(ReceiveCall(r, c).0)
  {
    hide MemoryOk, QueuesOk, Release, Unique, DeliveryOk;
    var i := FindId(r.list, c.id);
    if ReceiveCall(r, c).1.Message? {
      var g, q := ReceiveCall(r, c).0, r.list[i];
      ListedDelivers(r, i);
      ReceivedPayload(q.items);
      Regroup(Log(r.received, q.id), [q.items[0].bytes], Payload(q.items[1..]));
      DeliveryAfterUpdate(r, g, i);
    }
  }

  lemma ReceivedItems(q: Queue, serial: nat)
    requires ItemsOk(q, serial) && q.items != []
    ensures ItemsOk(q.(items := q.items[1..]), serial)
  {}

  lemma ReceiveQueues(r: Registry, c: Call)
    requires Inv(r) && c.Receive?
    ensures QueuesOk(ReceiveCall(r, c).0) && Unique(ReceiveCall(r, c).0.list)
  {
    hide MemoryOk, DeliveryOk, Release, ItemsOk, Unique;
    var i := FindId(r.list, c.id);
    if ReceiveCall(r, c).1.Message? {
      var g := ReceiveCall(r, c).0;
      forall j | 0 <= j < |g.list| ensures QueueOk(g.list[j], g.nextId, g.serial) {
        assert QueueOk(r.list[j], r.nextId, r.serial);
        if j == i {
          ReceivedItems(r.list[i], r.serial);
        }
      }
      assert QueueOk(r.list[i], r.nextId, r.serial);
      ReceivedOwned(r, i, Handle(0));
    }
  }

  lemma ReceiveKeeps(r: Registry, c: Call)
    requires Inv(r) && c.Receive?
    ensures Inv(ReceiveCall(r, c).0)
  {
    ReceiveMemory(r, c);
    ReceiveDelivery(r, c);
    ReceiveQueues(r, c);
  }

  // ----- Whole runs -----

  lemma StepKeeps(r: Registry, c: Call)
    requires Inv(r)
    ensures Inv(Step(r, c).0)
  {
    hide Inv;
    match c
    case Open(_, _, _, _, _, _) => OpenKeeps(r, c);
    case Close(_) => CloseKeeps(r, c);
    case Unlink(_) => UnlinkKeeps(r, c);
    case Send(_, _, _, _) => SendKeeps(r, c);
    case Receive(_, _, _) => ReceiveKeeps(r, c);
  }

  ghost function Run(r: Registry, calls: seq<Call>): Registry
    decreases |calls|
  {
    if calls == [] then r else Run(Step(r, calls[0]).0, calls[1..])
  }

  lemma {:induction false} RunKeeps(r: Registry, calls: seq<Call>)
    requires Inv(r)
    ensures Inv(Run(r, calls))
    decreases |calls|
  {
    hide Inv, Step;
    if calls != [] {
      StepKeeps(r, calls[0]);
      RunKeeps(Step(r, calls[0]).0, calls[1..]);
    }
  }

  /** After any sequence of calls: names are unique, a queue without descriptors
      is pending unlink, live blocks are what the listed queues own with every
      other block freed exactly once, and delivery is in order. */
  lemma EveryRun(calls: seq<Call>)
    ensures Inv(Run(EMPTY_REGISTRY, calls))
  {
    RunKeeps(EMPTY_REGISTRY, calls);
  }

  // ----- Life and death of a queue -----

  ghost predicate Listed(r: Registry, id: nat) { FindId(r.list, id) < |r.list| }

  /** The queue was unlinked, or lost its last descriptor, or is gone. */
  ghost predicate Doomed(r: Registry, id: nat) {
    id < r.nextId && forall i :: 0 <= i < |r.list| && r.list[i].id == id ==> r.list[i].pendingUnlink
  }

  /** The same queues, with flags that only go up. */
  ghost predicate SameQueues(before: seq<Queue>, after: seq<Queue>) {
    && |before| == |after|
    && forall i :: 0 <= i < |before| ==>
         after[i].id == before[i].id && (before[i].pendingUnlink ==> after[i].pendingUnlink)
  }

  /** What one call can do to the list: nothing but counts, flags and items;
      one new queue in front; or one queue taken out. */
  lemma ListStep(r: Registry, c: Call)
    ensures var (g, o) := Step(r, c);
      || (SameQueues(r.list, g.list) && g.nextId >= r.nextId)
      || (g.nextId == r.nextId + 1 && |g.list| == |r.list| + 1 && g.list[1..] == r.list && g.list[0].id == r.nextId)
      || (g.nextId == r.nextId && Takes(r, c) < |r.list| && g.list == Without(r.list, Takes(r, c)))
  {
    hide Allocate, Release, ReleaseAll, BlocksOf, SendCall, ReceiveCall, SameQueues;
    SameQueuesReflexive(r.list);
    match c
    case Open(_, _, _, _, _, _) =>
      var i := FindName(r.list, c.name);
      if i < |r.list| { SameQueuesUpdate(r.list, i, r.list[i].(descriptors := r.list[i].descriptors + 1)); }
    case Close(_) =>
      var i := FindId(r.list, c.id);
      if i < |r.list| {
        var n := if r.list[i].descriptors > 0 then r.list[i].descriptors - 1 else 0;
        SameQueuesUpdate(r.list, i, r.list[i].(descriptors := n));
        SameQueuesUpdate(r.list, i, r.list[i].(descriptors := n, pendingUnlink := true));
      }
    case Unlink(_) =>
      var i := FindName(r.list, c.name);
      if i < |r.list| { SameQueuesUpdate(r.list, i, r.list[i].(pendingUnlink := true)); }
    case Send(_, _, _, _) => SendSameQueues(r, c);
    case Receive(_, _, _) => ReceiveSameQueues(r, c);
  }

  lemma SameQueuesReflexive(list: seq<Queue>)
    ensures SameQueues(list, list)
  {}

  lemma SameQueuesUpdate(list: seq<Queue>, i: nat, q: Queue)
    requires i < |list| && q.id == list[i].id && (list[i].pendingUnlink ==> q.pendingUnlink)
    ensures SameQueues(list, list[i := q])
  {}

  lemma SendSameQueues(r: Registry, c: Call)
    requires c.Send?
    ensures SameQueues(r.list, SendCall(r, c).0.list) && SendCall(r, c).0.nextId == r.nextId
  {
    hide Allocate, Release;
  }

  lemma ReceiveSameQueues(r: Registry, c: Call)
    requires c.Receive?
    ensures SameQueues(r.list, ReceiveCall(r, c).0.list) && ReceiveCall(r, c).0.nextId == r.nextId
  {
    hide Release;
  }

  /** The queue that a closing or unlinking call deletes, if any. */
  function Takes(r: Registry, c: Call): nat {
    match c
    case Close(id) =>
      var i := FindId(r.list, id);
      if i < |r.list| && r.list[i].descriptors <= 1 && r.list[i].pendingUnlink then i else |r.list|
    case Unlink(name) =>
      var i := FindName(r.list, name);
      if ValidName(name) && i < |r.list| && r.list[i].descriptors == 0 then i else |r.list|
    case _ => |r.list|
  }

  lemma OpensOnlyLiveQueues(r: Registry, c: Call, id: nat)
    requires Doomed(r, id)
    ensures Step(r, c).1 != Opened(id)
  {}

  lemma DoomedStep(r: Registry, c: Call, id: nat)
    requires Doomed(r, id)
    ensures Doomed(Step(r, c).0, id) && Step(r, c).1 != Opened(id)
  {
    hide Step;
    OpensOnlyLiveQueues(r, c, id);
    ListStep(r, c);
    var g := Step(r, c).0;
    if |g.list| > |r.list| {
      assert forall i :: 0 < i < |g.list| ==> g.list[i] == g.list[1..][i - 1];
    }
  }

  /** Once a queue is pending unlink no later call ever opens it again. */
  lemma {:induction false} NeverReopened(r: Registry, calls: seq<Call>, id: nat, k: nat)
    requires Doomed(r, id) && k < |calls|
    ensures Step(Run(r, calls[..k]), calls[k]).1 != Opened(id)
    decreases k
  {
    hide Step, Doomed;
    DoomedStep(r, calls[0], id);
    if k == 0 {
      assert calls[..0] == [];
    } else {
      assert calls[..k][1..] == calls[1..][..k - 1];
      NeverReopened(Step(r, calls[0]).0, calls[1..], id, k - 1);
    }
  }

  /** A reachable queue with no open descriptor is doomed, and opening its name
      fails and changes nothing until it is unlinked. */
  lemma ClosedQueueIsDoomed(calls: seq<Call>, i: nat, c: Call)
    requires i < |Run(EMPTY_REGISTRY, calls).list| && Run(EMPTY_REGISTRY, calls).list[i].descriptors == 0
    requires c.Open? && c.name == Run(EMPTY_REGISTRY, calls).list[i].name
    ensures var r := Run(EMPTY_REGISTRY, calls);
      Doomed(r, r.list[i].id) && Step(r, c).0 == r && Step(r, c).1.Failed?
  {
    var r := Run(EMPTY_REGISTRY, calls);
    EveryRun(calls);
    hide MemoryOk, DeliveryOk, ItemsOk, Create, Run;
    assert QueueOk(r.list[i], r.nextId, r.serial);
    NameIsAt(r.list, i);
  }

  lemma NameIsAt(list: seq<Queue>, i: nat)
    requires Unique(list) && i < |list|
    ensures FindName(list, list[i].name) == i
    ensures forall j :: 0 <= j < |list| && list[j].id == list[i].id ==> j == i
  {}

  /** A queue leaves the list only in a close or unlink that leaves it without
      descriptors, and all its blocks are freed in that call. */
  lemma LeavesOnlyAtZero(calls: seq<Call>, i: nat, c: Call)
    requires i < |Run(EMPTY_REGISTRY, calls).list|
    requires !Listed(Step(Run(EMPTY_REGISTRY, calls), c).0, Run(EMPTY_REGISTRY, calls).list[i].id)
    ensures var (r, q) := (Run(EMPTY_REGISTRY, calls), Run(EMPTY_REGISTRY, calls).list[i]);
      && ((c == Close(q.id) && q.descriptors <= 1) || (c == Unlink(q.name) && q.descriptors == 0))
      && q.pendingUnlink
      && forall b :: Owns(q, b) ==> b in r.ledger.live && b !in Step(r, c).0.ledger.live
  {
    hide Step, MemoryOk, DeliveryOk, Unique, ItemsOk, Owns;
    var r := Run(EMPTY_REGISTRY, calls);
    EveryRun(calls);
    StepKeeps(r, c);
    Removal(r, i, c);
    assert QueueOk(r.list[i], r.nextId, r.serial);
    RemovedBlocks(r, Step(r, c).0, i);
  }

  /** A queue stays listed unless the call deletes that very queue. */
  lemma Removal(r: Registry, i: nat, c: Call)
    requires i < |r.list|
    ensures Listed(Step(r, c).0, r.list[i].id) || Takes(r, c) == i
  {
    hide Step;
    ListStep(r, c);
    var g, q, k := Step(r, c).0, r.list[i], Takes(r, c);
    if SameQueues(r.list, g.list) {
      assert g.list[i].id == q.id;
    } else if |g.list| > |r.list| {
      assert g.list[1..][i] == g.list[i + 1];
    } else if i != k {
      assert g.list[if i < k then i else i - 1] == q;
    }
  }

  lemma RemovedBlocks(r: Registry, g: Registry, i: nat)
    requires Inv(r) && Inv(g) && i < |r.list| && !Listed(g, r.list[i].id)
    ensures forall b :: Owns(r.list[i], b) ==> b in r.ledger.live && b !in g.ledger.live
  {}

  // ----- Reference counts -----

  /** Descriptors of queue `id`, 0 when it is not listed. */
  ghost function DescriptorsOf(r: Registry, id: nat): nat {
    var i := FindId(r.list, id);
    if i < |r.list| then r.list[i].descriptors else 0
  }

  /** Plus one for a successful open, minus one for a close of an open queue. */
  ghost function Change(r: Registry, c: Call, id: nat): int {
    if Step(r, c).1 == Opened(id) then 1
    else if c == Close(id) && DescriptorsOf(r, id) > 0 then -1
    else 0
  }

  ghost function OpensMinusCloses(r: Registry, calls: seq<Call>, id: nat): int
    decreases |calls|
  {
    if calls == [] then 0 else Change(r, calls[0], id) + OpensMinusCloses(Step(r, calls[0]).0, calls[1..], id)
  }

  lemma FindIdIs(list: seq<Queue>, i: nat)
    requires Unique(list) && i < |list|
    ensures FindId(list, list[i].id) == i
  {}

  lemma DescriptorsAfterUpdate(r: Registry, i: nat, q: Queue, id: nat)
    requires Unique(r.list) && i < |r.list| && q.id == r.list[i].id && q.name == r.list[i].name
    ensures DescriptorsOf(r.(list := r.list[i := q]), id) == if id == q.id then q.descriptors else DescriptorsOf(r, id)
  {
    hide FindId;
    var g := r.(list := r.list[i := q]);
    OwnedAfterUpdate(r.list, i, q, Handle(0));
    if id == q.id {
      FindIdIs(g.list, i);
    } else {
      SameSearch(r.list, g.list, i, id);
    }
  }

  lemma SameSearch(before: seq<Queue>, after: seq<Queue>, i: nat, id: nat)
    requires i < |before| == |after| && after == before[i := after[i]]
    requires before[i].id == after[i].id != id
    ensures FindId(before, id) == FindId(after, id) && FindId(before, id) != i
  {
    var k := FindId(before, id);
    assert k < |before| ==> after[k].id == id;
    assert FindId(after, id) < |after| ==> before[FindId(after, id)].id == id;
  }

  lemma DescriptorsAfterDelete(r: Registry, i: nat, id: nat)
    requires Unique(r.list) && i < |r.list|
    ensures DescriptorsOf(Delete(r, i), id) == if id == r.list[i].id then 0 else DescriptorsOf(r, id)
  {
    hide BlocksOf, ReleaseAll, Without, Unique;
    var after, j := Without(r.list, i), FindId(r.list, id);
    WithoutUnique(r.list, i);
    WithoutLength(r.list, i);
    var k := FindId(after, id);
    if k < |after| {
      WithoutAt(r.list, i, k);
      FindIdIs(r.list, if k < i then k else k + 1);
    } else if j < |r.list| && j != i {
      WithoutAt(r.list, i, if j < i then j else j - 1);
    }
  }

  lemma CreatedDescriptors(r: Registry, q: Queue, id: nat)
    requires QueuesOk(r) && q.id == r.nextId
    ensures DescriptorsOf(r.(list := [q] + r.list), id) == if id == q.id then q.descriptors else DescriptorsOf(r, id)
    ensures DescriptorsOf(r, q.id) == 0
  {
    hide ItemsOk;
    assert ([q] + r.list)[1..] == r.list;
    assert forall j :: 0 <= j < |r.list| ==> QueueOk(r.list[j], r.nextId, r.serial);
  }

  lemma OpenDescriptors(r: Registry, c: Call, id: nat)
    requires Inv(r) && c.Open?
    ensures DescriptorsOf(OpenCall(r, c).0, id) ==
            DescriptorsOf(r, id) + (if OpenCall(r, c).1 == Opened(id) then 1 else 0)
  {
    hide MemoryOk, DeliveryOk, QueuesOk, Unique, Allocate, Release;
    var i := FindName(r.list, c.name);
    if OpenCall(r, c).1.Opened? {
      if i < |r.list| {
        DescriptorsAfterUpdate(r, i, r.list[i].(descriptors := r.list[i].descriptors + 1), id);
        FindIdIs(r.list, i);
      } else {
        CreatedDescriptors(r, OpenCall(r, c).0.list[0], id);
      }
    }
  }

  lemma CloseDescriptors(r: Registry, c: Call, id: nat)
    requires Inv(r) && c.Close?
    ensures DescriptorsOf(CloseCall(r, c).0, id) ==
            DescriptorsOf(r, id) - (if c.id == id && DescriptorsOf(r, id) > 0 then 1 else 0)
  {
    hide MemoryOk, DeliveryOk, QueuesOk, Unique, Delete;
    var i := FindId(r.list, c.id);
    if i < |r.list| {
      var q := r.list[i];
      var n := if q.descriptors > 0 then q.descriptors - 1 else 0;
      DescriptorsAfterUpdate(r, i, q.(descriptors := n), id);
      DescriptorsAfterUpdate(r, i, q.(descriptors := n, pendingUnlink := true), id);
      DescriptorsAfterDelete(r, i, id);
    }
  }

  lemma UnlinkDescriptors(r: Registry, c: Call, id: nat)
    requires Inv(r) && c.Unlink?
    ensures DescriptorsOf(UnlinkCall(r, c).0, id) == DescriptorsOf(r, id)
  {
    hide MemoryOk, DeliveryOk, QueuesOk, Unique, Delete;
    var i := FindName(r.list, c.name);
    if i < |r.list| {
      FindIdIs(r.list, i);
      DescriptorsAfterUpdate(r, i, r.list[i].(pendingUnlink := true), id);
      DescriptorsAfterDelete(r, i, id);
    }
  }

  lemma MessageDescriptors(r: Registry, c: Call, id: nat)
    requires Inv(r) && (c.Send? || c.Receive?)
    ensures DescriptorsOf(Step(r, c).0, id) == DescriptorsOf(r, id)
  {
    hide MemoryOk, DeliveryOk, QueuesOk, Unique, Allocate, Release, FindId;
    var i := FindId(r.list, c.id);
    if i < |r.list| {
      FindIdIs(r.list, i);
      DescriptorsAfterUpdate(r, i, Step(r, c).0.list[i], id);
    }
  }

  lemma DescriptorStep(r: Registry, c: Call, id: nat)
    requires Inv(r)
    ensures DescriptorsOf(Step(r, c).0, id) == DescriptorsOf(r, id) + Change(r, c, id)
  {
    hide Inv, DescriptorsOf;
    match c
    case Open(_, _, _, _, _, _) => OpenDescriptors(r, c, id);
    case Close(_) => CloseDescriptors(r, c, id);
    case Unlink(_) => UnlinkDescriptors(r, c, id);
    case _ => MessageDescriptors(r, c, id);
  }

  lemma {:induction false} DescriptorRun(r: Registry, calls: seq<Call>, id: nat)
    requires Inv(r)
    ensures DescriptorsOf(Run(r, calls), id) == DescriptorsOf(r, id) + OpensMinusCloses(r, calls, id)
    decreases |calls|
  {
    hide Inv, Step, Change, DescriptorsOf;
    if calls != [] {
      DescriptorStep(r, calls[0], id);
      StepKeeps(r, calls[0]);
      DescriptorRun(Step(r, calls[0]).0, calls[1..], id);
    }
  }

  /** The reference count of every queue is the number of its successful opens
      minus the closes that found it open, over the whole run. */
  lemma DescriptorsCountOpens(calls: seq<Call>, id: nat)
    ensures DescriptorsOf(Run(EMPTY_REGISTRY, calls), id) == OpensMinusCloses(EMPTY_REGISTRY, calls, id)
  {
    DescriptorRun(EMPTY_REGISTRY, calls, id);
  }

  // ----- Failures and messages -----

  /** A call that fails leaves the list, the logs and the live blocks as they
      were, whatever it allocated on the way. */
  lemma FailureLeaksNothing(calls: seq<Call>, c: Call)
    requires Step(Run(EMPTY_REGISTRY, calls), c).1.Failed?
    ensures var (r, g) := (Run(EMPTY_REGISTRY, calls), Step(Run(EMPTY_REGISTRY, calls), c).0);
      g.list == r.list && g.ledger.live == r.ledger.live && g.sent == r.sent && g.received == r.received
  {
    hide Inv, Step;
    EveryRun(calls);
    FreshIds(Run(EMPTY_REGISTRY, calls));
    FailedStep(Run(EMPTY_REGISTRY, calls), c);
  }

  lemma FailedStep(r: Registry, c: Call)
    requires forall b :: b in r.ledger.live ==> b.id < r.nextId && (b.Data? ==> b.serial < r.serial)
    ensures var (g, o) := Step(r, c);
      o.Failed? ==>
        g.list == r.list && g.ledger.live == r.ledger.live && g.sent == r.sent && g.received == r.received
  {
    hide Create, ReleaseAll, BlocksOf;
    if c.Open? {
      var a := if c.attr.Some? then c.attr.value.(nonBlocking := c.nonBlocking)
               else Attr(c.nonBlocking, DEFAULT_MAX_MESSAGES, DEFAULT_MAX_SIZE);
      CreateFailure(r, c.name, a, c.grants);
    } else if c.Send? {
      SendFailure(r, c);
    }
  }

  lemma SendFailure(r: Registry, c: Call)
    requires c.Send? && forall b :: b in r.ledger.live ==> b.Data? ==> b.serial < r.serial
    ensures var (g, o) := SendCall(r, c);
      o.Failed? ==>
        g.list == r.list && g.ledger.live == r.ledger.live && g.sent == r.sent && g.received == r.received
  {}

  lemma CreateFailure(r: Registry, name: string, attr: Attr, grants: Grants)
    requires forall b :: b in r.ledger.live ==> b.id < r.nextId
    ensures var (g, o) := Create(r, name, attr, grants);
      o.Failed? ==>
        g.list == r.list && g.ledger.live == r.ledger.live && g.sent == r.sent && g.received == r.received
  {}

  lemma FreshIds(r: Registry)
    requires Inv(r)
    ensures forall b :: b in r.ledger.live ==> b.id < r.nextId && (b.Data? ==> b.serial < r.serial)
  {}

  /** A delivered message is the next one that was accepted, byte for byte, and
      fits the buffer length that the call was given. */
  lemma ReceivesNextMessage(calls: seq<Call>, c: Call)
    requires c.Receive? && Step(Run(EMPTY_REGISTRY, calls), c).1.Message?
    ensures var (r, m) := (Run(EMPTY_REGISTRY, calls), Step(Run(EMPTY_REGISTRY, calls), c).1.bytes);
      && |m| <= c.length
      && |Log(r.received, c.id)| < |Log(r.sent, c.id)|
      && m == Log(r.sent, c.id)[|Log(r.received, c.id)|]
  {
    hide MemoryOk, Unique, Release;
    var r := Run(EMPTY_REGISTRY, calls);
    EveryRun(calls);
    var i := FindId(r.list, c.id);
    assert QueueOk(r.list[i], r.nextId, r.serial);
    assert Delivers(r.list[i], r.sent, r.received);
  }

  /** For every queue ever created, what was received is a prefix of what was
      sent. */
  lemma ReceivedIsPrefixOfSent(calls: seq<Call>, id: nat)
    ensures Log(Run(EMPTY_REGISTRY, calls).received, id) <= Log(Run(EMPTY_REGISTRY, calls).sent, id)
  {
    EveryRun(calls);
  }
}
