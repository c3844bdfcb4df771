/** The message-queue registry: open, close, unlink, send and receive over a
    list of reference-counted queues, with every heap block accounted for.
    Each API call is one atomic step. */
module QueueModel {
  import opened Collections

  const NAME_MAX: nat := 64
  const DEFAULT_MAX_MESSAGES: int := 10
  const DEFAULT_MAX_SIZE: int := 128

  datatype Errno = EINVAL | EEXIST | ENOSPC | ENOENT | EBADF | EMSGSIZE | EAGAIN | ETIMEDOUT

  type Bytes = seq<int>

  datatype Attr = Attr(nonBlocking: bool, maxMessages: int, messageSize: int)

  /** A heap block. `id` is the queue it was allocated for, and queues are
      identified by the address of their element, never reused here. */
  datatype Block = Element(id: nat) | Handle(id: nat) | Name(id: nat) | Data(id: nat, serial: nat)

  datatype Item = Item(serial: nat, bytes: Bytes)

  datatype Queue = Queue(
    id: nat, name: string, attr: Attr, descriptors: nat, pendingUnlink: bool, items: seq<Item>)

  // ----- The heap's books -----

  /** Blocks ever allocated, blocks not yet freed, and how often each was freed. */
  datatype Ledger = Ledger(made: set<Block>, live: set<Block>, freed: multiset<Block>)

  function Allocate(l: Ledger, b: Block): Ledger { l.(made := l.made + {b}, live := l.live + {b}) }

  function Release(l: Ledger, b: Block): Ledger { l.(live := l.live - {b}, freed := l.freed + multiset{b}) }

  /** Every block ever allocated is live and never freed, or freed exactly once. */
  ghost predicate Balanced(l: Ledger) {
    forall b :: (if b in l.live then 1 else 0) + l.freed[b] == if b in l.made then 1 else 0
  }

  lemma ReleaseBalanced(l: Ledger, b: Block)
    requires Balanced(l) && b in l.live
    ensures Balanced(Release(l, b))
  {}

  function ReleaseAll(l: Ledger, bs: seq<Block>): Ledger
    decreases |bs|
  {
    if bs == [] then l else ReleaseAll(Release(l, bs[0]), bs[1..])
  }

  lemma {:induction false} ReleaseAllBalanced(l: Ledger, bs: seq<Block>)
    requires Balanced(l) && Distinct(bs) && forall b :: b in bs ==> b in l.live
    ensures Balanced(ReleaseAll(l, bs)) && ReleaseAll(l, bs).made == l.made
    ensures forall b :: b in ReleaseAll(l, bs).live <==> b in l.live && b !in bs
    decreases |bs|
  {
    hide Balanced;
    if bs != [] {
      ReleaseBalanced(l, bs[0]);
      forall b | b in bs[1..] ensures b in Release(l, bs[0]).live {
        var i :| 0 <= i < |bs[1..]| && bs[1..][i] == b;
        assert bs[i + 1] == b;
      }
      ReleaseAllBalanced(Release(l, bs[0]), bs[1..]);
      assert forall b :: b in bs <==> b == bs[0] || b in bs[1..];
    }
  }

  // ----- What a queue owns -----

  function ItemBlocks(id: nat, items: seq<Item>): (bs: seq<Block>)
    ensures |bs| == |items| && forall i :: 0 <= i < |items| ==> bs[i] == Data(id, items[i].serial)
  {
    seq(|items|, i requires 0 <= i < |items| => Data(id, items[i].serial))
  }

  /** In the order in which deletion frees them. */
  function BlocksOf(q: Queue): seq<Block> {
    ItemBlocks(q.id, q.items) + [Handle(q.id), Name(q.id), Element(q.id)]
  }

  ghost predicate Owns(q: Queue, b: Block) {
    b == Handle(q.id) || b == Name(q.id) || b == Element(q.id) ||
    (exists i :: 0 <= i < |q.items| && b == Data(q.id, q.items[i].serial))
  }

  lemma OwnsIsBlocksOf(q: Queue, b: Block)
    ensures Owns(q, b) <==> b in BlocksOf(q)
    ensures Owns(q, b) ==> b.id == q.id
  {}

  // ----- The registry -----

  /** `sent` and `received` record, for each queue, the messages that were
      accepted and delivered; `serial` numbers the message buffers. */
  datatype Registry = Registry(
    list: seq<Queue>, nextId: nat, serial: nat, ledger: Ledger,
    sent: map<nat, seq<Bytes>>, received: map<nat, seq<Bytes>>)

  const EMPTY_REGISTRY := Registry([], 0, 0, Ledger({}, {}, multiset{}), map[], map[])

  function FindName(list: seq<Queue>, name: string): (i: nat)
    ensures i <= |list| && (i < |list| ==> list[i].name == name)
    ensures forall j :: 0 <= j < i ==> list[j].name != name
  {
    if list == [] || list[0].name == name then 0 else
      assert forall j :: 0 < j < |list| ==> list[j] == list[1..][j - 1];
      1 + FindName(list[1..], name)
  }

  function FindId(list: seq<Queue>, id: nat): (i: nat)
    ensures i <= |list| && (i < |list| ==> list[i].id == id)
    ensures forall j :: 0 <= j < i ==> list[j].id != id
  {
    if list == [] || list[0].id == id then 0 else
      assert forall j :: 0 < j < |list| ==> list[j] == list[1..][j - 1];
      1 + FindId(list[1..], id)
  }

  predicate ValidName(name: string) { |name| > 0 && name[0] == '/' && |name| < NAME_MAX + 2 }

  function Payload(items: seq<Item>): (ms: seq<Bytes>)
    ensures |ms| == |items| && forall i :: 0 <= i < |items| ==> ms[i] == items[i].bytes
  {
    seq(|items|, i requires 0 <= i < |items| => items[i].bytes)
  }

  // ----- The calls -----

  datatype Outcome = Opened(id: nat) | Done | Message(bytes: Bytes) | Failed(errno: Errno)

  /** Which of the allocations of a call the heap grants. */
  datatype Grants = Grants(element: bool, handle: bool, name: bool)

  /** How the deadline argument of a send or receive converts. */
  datatype Deadline = NoDeadline | InTime | Malformed | Past

  datatype Call =
    | Open(name: string, create: bool, exclusive: bool, attr: Option<Attr>, nonBlocking: bool, grants: Grants)
    | Close(id: nat)
    | Unlink(name: string)
    | Send(id: nat, bytes: Bytes, deadline: Deadline, grant: bool)
    | Receive(id: nat, length: nat, deadline: Deadline)

  function Create(r: Registry, name: string, attr: Attr, grants: Grants): (Registry, Outcome) {
    var id := r.nextId;
    var used := r.(nextId := id + 1);
    if !grants.element then (r, Failed(ENOSPC))
    else
      var one := Allocate(r.ledger, Element(id));
      if !grants.handle then (used.(ledger := Release(one, Element(id))), Failed(ENOSPC))
      else
        var two := Allocate(one, Handle(id));
        if !grants.name then (used.(ledger := Release(Release(two, Handle(id)), Element(id))), Failed(ENOSPC))
        else
          (used.(list := [Queue(id, name, attr, 1, false, [])] + r.list,
                 ledger := Allocate(two, Name(id)),
                 sent := r.sent[id := []], received := r.received[id := []]),
           Opened(id))
  }

  function OpenCall(r: Registry, c: Call): (Registry, Outcome)
    requires c.Open?
  {
    if !ValidName(c.name) then (r, Failed(EINVAL))
    else if c.create && c.attr.Some? && (c.attr.value.maxMessages <= 0 || c.attr.value.messageSize <= 0) then
      (r, Failed(EINVAL))
    else
      var i := FindName(r.list, c.name);
      if i < |r.list| then
        var q := r.list[i];
        if c.exclusive && c.create then (r, Failed(EEXIST))
        else if q.pendingUnlink then (r, Failed(EINVAL))
        else (r.(list := r.list[i := q.(descriptors := q.descriptors + 1)]), Opened(q.id))
      else if c.create then
        var attr := if c.attr.Some? then c.attr.value.(nonBlocking := c.nonBlocking)
                    else Attr(c.nonBlocking, DEFAULT_MAX_MESSAGES, DEFAULT_MAX_SIZE);
        Create(r, c.name, attr, c.grants)
      else (r, Failed(ENOENT))
  }

  /** Take queue `i` off the list and free everything it owns. */
  function Delete(r: Registry, i: nat): Registry
    requires i < |r.list|
  {
    r.(list := Without(r.list, i), ledger := ReleaseAll(r.ledger, BlocksOf(r.list[i])))
  }

  function CloseCall(r: Registry, c: Call): (Registry, Outcome)
    requires c.Close?
  {
    var i := FindId(r.list, c.id);
    if i == |r.list| then (r, Failed(EBADF))
    else
      var q := r.list[i];
      var n := if q.descriptors > 0 then q.descriptors - 1 else 0;
      if n > 0 then (r.(list := r.list[i := q.(descriptors := n)]), Done)
      else if q.pendingUnlink then (Delete(r, i), Done)
      else (r.(list := r.list[i := q.(descriptors := n, pendingUnlink := true)]), Done)
  }

  function UnlinkCall(r: Registry, c: Call): (Registry, Outcome)
    requires c.Unlink?
  {
    if !ValidName(c.name) then (r, Failed(EINVAL))
    else
      var i := FindName(r.list, c.name);
      if i == |r.list| then (r, Failed(ENOENT))
      else if r.list[i].descriptors == 0 then (Delete(r, i), Done)
      else (r.(list := r.list[i := r.list[i].(pendingUnlink := true)]), Done)
  }

  /** The errno of the deadline conversion, if it fails. */
  function TimeoutError(attr: Attr, d: Deadline): Option<Errno> {
    if attr.nonBlocking then None
    else match d
      case Malformed => Some(EINVAL)
      case Past => Some(ETIMEDOUT)
      case _ => None
  }

  function WaitError(attr: Attr): Errno { if attr.nonBlocking then EAGAIN else ETIMEDOUT }

  /** A zero-length message gets no memory: `pvPortMalloc(0)` is NULL. */
  function SendCall(r: Registry, c: Call): (Registry, Outcome)
    requires c.Send?
  {
    var i := FindId(r.list, c.id);
    if i == |r.list| then (r, Failed(EBADF))
    else
      var q := r.list[i];
      var late := TimeoutError(q.attr, c.deadline);
      if |c.bytes| > q.attr.messageSize then (r, Failed(EMSGSIZE))
      else if late.Some? then (r, Failed(late.value))
      else if c.bytes == [] || !c.grant then (r, Failed(EMSGSIZE))
      else
        var b := Data(q.id, r.serial);
        var held := r.(serial := r.serial + 1, ledger := Allocate(r.ledger, b));
        if |q.items| >= q.attr.maxMessages then
          (held.(ledger := Release(held.ledger, b)), Failed(WaitError(q.attr)))
        else
          (held.(list := r.list[i := q.(items := q.items + [Item(r.serial, c.bytes)])],
                 sent := r.sent[q.id := Log(r.sent, q.id) + [c.bytes]]),
           Done)
  }

  function Log(m: map<nat, seq<Bytes>>, id: nat): seq<Bytes> { if id in m then m[id] else [] }

  function ReceiveCall(r: Registry, c: Call): (Registry, Outcome)
    requires c.Receive?
  {
    var i := FindId(r.list, c.id);
    if i == |r.list| then (r, Failed(EBADF))
    else
      var q := r.list[i];
      var late := TimeoutError(q.attr, c.deadline);
      if c.length < q.attr.messageSize then (r, Failed(EMSGSIZE))
      else if late.Some? then (r, Failed(late.value))
      else if q.items == [] then (r, Failed(WaitError(q.attr)))
      else
        var item := q.items[0];
        (r.(list := r.list[i := q.(items := q.items[1..])],
            ledger := Release(r.ledger, Data(q.id, item.serial)),
            received := r.received[q.id := Log(r.received, q.id) + [item.bytes]]),
         Message(item.bytes))
  }

  function Step(r: Registry, c: Call): (Registry, Outcome) {
    match c
    case Open(_, _, _, _, _, _) => OpenCall(r, c)
    case Close(_) => CloseCall(r, c)
    case Unlink(_) => UnlinkCall(r, c)
    case Send(_, _, _, _) => SendCall(r, c)
    case Receive(_, _, _) => ReceiveCall(r, c)
  }
}
