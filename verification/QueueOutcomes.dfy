/** When each message-queue call succeeds, what it then does, and how an unlinked
    queue goes. All states are those that runs of calls reach. */
module QueueOutcomes {
  import opened Collections
  import opened QueueModel
  import opened QueueLaws

  ghost predicate NameListed(r: Registry, name: string) {
    exists i :: 0 <= i < |r.list| && r.list[i].name == name
  }

  /** Queue `q` is listed under descriptor `id`. */
  ghost predicate Has(r: Registry, id: nat, q: Queue) { q in r.list && q.id == id }

  /** The two searches find the one queue there is. */
  lemma FindsName(r: Registry, name: string)
    ensures FindName(r.list, name) < |r.list| <==> NameListed(r, name)
  {}

  lemma FindsId(r: Registry, id: nat)
    requires Unique(r.list)
    ensures Listed(r, id) <==> exists q :: Has(r, id, q)
    ensures forall q :: Has(r, id, q) ==> Listed(r, id) && r.list[FindId(r.list, id)] == q
  {
    var i := FindId(r.list, id);
    if i < |r.list| {
      assert Has(r, id, r.list[i]);
    }
  }

  lemma ReachableUnique(calls: seq<Call>)
    ensures Unique(Run(EMPTY_REGISTRY, calls).list)
  {
    EveryRun(calls);
  }

  // ----- Unlinking -----

  /** Unlinking succeeds exactly for the name of a listed queue. */
  lemma UnlinkOutcome(r: Registry, name: string)
    ensures var o := Step(r, Unlink(name)).1;
      && (o == Done <==> ValidName(name) && NameListed(r, name))
      && (o == Failed(EINVAL) <==> !ValidName(name))
      && (o == Failed(ENOENT) <==> ValidName(name) && !NameListed(r, name))
  {
    FindsName(r, name);
  }

  lemma UnlinkDooms(r: Registry, name: string)
    requires QueuesOk(r) && Unique(r.list) && Step(r, Unlink(name)).1 == Done
    ensures var (g, i) := (Step(r, Unlink(name)).0, FindName(r.list, name));
      && i < |r.list| && Doomed(g, r.list[i].id)
      && (r.list[i].descriptors == 0 ==> !Listed(g, r.list[i].id))
  {
    hide ReleaseAll, BlocksOf, ItemsOk, QueuesOk;
    var i := FindName(r.list, name);
    BelowNext(r, i);
    NameIsAt(r.list, i);
    if r.list[i].descriptors == 0 {
      GoneIsNotListed(r.list, i);
    }
  }

  lemma BelowNext(r: Registry, i: nat)
    requires QueuesOk(r) && i < |r.list|
    ensures r.list[i].id < r.nextId
  {
    assert QueueOk(r.list[i], r.nextId, r.serial);
  }

  lemma GoneIsNotListed(list: seq<Queue>, i: nat)
    requires Unique(list) && i < |list|
    ensures FindId(Without(list, i), list[i].id) == |Without(list, i)|
    ensures FindName(Without(list, i), list[i].name) == |Without(list, i)|
    ensures forall j :: 0 <= j < |list| - 1 ==> Without(list, i)[j].id != list[i].id
  {
    var rest := Without(list, i);
    assert forall j :: 0 <= j < |rest| ==> rest[j] == list[if j < i then j else j + 1];
  }

  lemma {:induction false} DoomedRun(r: Registry, calls: seq<Call>, id: nat)
    requires Doomed(r, id)
    ensures Doomed(Run(r, calls), id)
    decreases |calls|
  {
    hide Step, Doomed;
    if calls != [] {
      DoomedStep(r, calls[0], id);
      DoomedRun(Step(r, calls[0]).0, calls[1..], id);
    }
  }

  /** Closing a doomed queue by its last descriptor takes it off the list, and
      its name is free again. */
  lemma LastCloseRemoves(r: Registry, id: nat)
    requires Unique(r.list) && Doomed(r, id) && Listed(r, id) && DescriptorsOf(r, id) <= 1
    ensures var (g, o) := Step(r, Close(id));
      o == Done && !Listed(g, id) && !NameListed(g, r.list[FindId(r.list, id)].name)
  {
    hide ReleaseAll, BlocksOf;
    var i := FindId(r.list, id);
    GoneIsNotListed(r.list, i);
    FindsName(Step(r, Close(id)).0, r.list[i].name);
  }

  /** The queue that an unlink named, in a reachable state. */
  ghost function Unlinked(calls: seq<Call>, name: string): nat
    requires Step(Run(EMPTY_REGISTRY, calls), Unlink(name)).1 == Done
  {
    var r := Run(EMPTY_REGISTRY, calls);
    var i := FindName(r.list, name);
    if i < |r.list| then r.list[i].id else 0
  }

  /** Whatever the run before, once an unlink has succeeded no later call opens
      the queue it named. It is gone at once when nobody had it open; otherwise
      closing its last descriptor, at any later time, takes it off the list and
      frees its name. */
  lemma UnlinkedQueueGoes(calls: seq<Call>, name: string, later: seq<Call>, c: Call)
    requires Step(Run(EMPTY_REGISTRY, calls), Unlink(name)).1 == Done
    ensures var (r, id) := (Run(EMPTY_REGISTRY, calls), Unlinked(calls, name));
      var g := Run(Step(r, Unlink(name)).0, later);
      && Listed(r, id)
      && Step(g, c).1 != Opened(id)
      && (DescriptorsOf(r, id) == 0 ==> !Listed(Step(r, Unlink(name)).0, id))
      && (Listed(g, id) && DescriptorsOf(g, id) <= 1 ==>
            && Step(g, Close(id)).1 == Done && !Listed(Step(g, Close(id)).0, id)
            && !NameListed(Step(g, Close(id)).0, g.list[FindId(g.list, id)].name))
  {
    hide Step, Doomed, MemoryOk, DeliveryOk, Unique, QueuesOk;
    var r, id := Run(EMPTY_REGISTRY, calls), Unlinked(calls, name);
    var u := Step(r, Unlink(name)).0;
    var g := Run(u, later);
    EveryRun(calls);
    UnlinkDooms(r, name);
    FindIdIs(r.list, FindName(r.list, name));
    DoomedRun(u, later, id);
    DoomedStep(g, c, id);
    StepKeeps(r, Unlink(name));
    RunKeeps(u, later);
    if Listed(g, id) && DescriptorsOf(g, id) <= 1 { LastCloseRemoves(g, id); }
  }

  // ----- Closing -----

  /** Closing succeeds exactly for listed queues. */
  lemma CloseOutcome(calls: seq<Call>, id: nat)
    ensures var r := Run(EMPTY_REGISTRY, calls);
      Step(r, Close(id)).1 == if exists q :: Has(r, id, q) then Done else Failed(EBADF)
  {
    hide Unique, Has, Delete;
    ReachableUnique(calls);
    FindsId(Run(EMPTY_REGISTRY, calls), id);
  }

  // ----- Opening -----

  /** A name that starts with a slash is refused exactly when more than NAME_MAX
      characters follow it. */
  lemma NameLength(name: string)
    requires name != [] && name[0] == '/'
    ensures ValidName(name) <==> |name[1..]| <= NAME_MAX
  {}

  /** The attributes given for a new queue, if any, are usable. */
  predicate AttrFine(c: Call)
    requires c.Open?
  {
    c.create && c.attr.Some? ==> c.attr.value.maxMessages > 0 && c.attr.value.messageSize > 0
  }

  /** The attributes that a queue created by this call has. */
  function AttrOf(c: Call): Attr
    requires c.Open?
  {
    Attr(c.nonBlocking,
         if c.attr.Some? then c.attr.value.maxMessages else DEFAULT_MAX_MESSAGES,
         if c.attr.Some? then c.attr.value.messageSize else DEFAULT_MAX_SIZE)
  }

  predicate AllGranted(c: Call)
    requires c.Open?
  {
    c.grants.element && c.grants.handle && c.grants.name
  }

  /** Opening a name that is listed: refused for an exclusive creation and for a
      queue that is pending unlink, otherwise one more descriptor of it. */
  lemma OpenExisting(r: Registry, c: Call, i: nat)
    requires c.Open? && Unique(r.list) && i < |r.list| && r.list[i].name == c.name && ValidName(c.name) && AttrFine(c)
    ensures var ((g, o), q) := (Step(r, c), r.list[i]);
      && (o == Opened(q.id) <==> !q.pendingUnlink && !(c.create && c.exclusive))
      && (o == Failed(EEXIST) <==> c.create && c.exclusive)
      && (o == Failed(EINVAL) <==> q.pendingUnlink && !(c.create && c.exclusive))
      && (o.Opened? ==> g == r.(list := r.list[i := q.(descriptors := q.descriptors + 1)]))
  {
    NameIsAt(r.list, i);
  }

  /** Opening a name that is not listed: a creation that gets its memory puts a
      new queue in front, with the attributes given or the default ones, one
      descriptor and no messages. */
  lemma OpenNew(r: Registry, c: Call)
    requires c.Open? && !NameListed(r, c.name) && ValidName(c.name) && AttrFine(c)
    ensures var (g, o) := Step(r, c);
      && (o == Opened(r.nextId) <==> c.create && AllGranted(c))
      && (o == Failed(ENOENT) <==> !c.create)
      && (o == Failed(ENOSPC) <==> c.create && !AllGranted(c))
      && (o.Opened? ==> g.list == [Queue(r.nextId, c.name, AttrOf(c), 1, false, [])] + r.list)
  {
    hide Allocate, Release;
    FindsName(r, c.name);
  }

  /** Bad names and bad attributes are refused before anything else. */
  lemma OpenRefused(r: Registry, c: Call)
    requires c.Open? && !(ValidName(c.name) && AttrFine(c))
    ensures Step(r, c) == (r, Failed(EINVAL))
  {}

  /** When opening succeeds, in any state that a run reaches. */
  lemma OpenOutcome(calls: seq<Call>, c: Call)
    requires c.Open?
    ensures var r := Run(EMPTY_REGISTRY, calls);
      Step(r, c).1.Opened? <==>
        && ValidName(c.name) && AttrFine(c)
        && if NameListed(r, c.name)
           then !(c.create && c.exclusive) && exists q :: q in r.list && q.name == c.name && !q.pendingUnlink
           else c.create && AllGranted(c)
  {
    hide Step, Unique;
    var r := Run(EMPTY_REGISTRY, calls);
    ReachableUnique(calls);
    if !(ValidName(c.name) && AttrFine(c)) {
      OpenRefused(r, c);
    } else if NameListed(r, c.name) {
      var i :| 0 <= i < |r.list| && r.list[i].name == c.name;
      OpenExisting(r, c, i);
      OnlyOneNamed(r.list, i);
    } else {
      OpenNew(r, c);
    }
  }

  lemma OnlyOneNamed(list: seq<Queue>, i: nat)
    requires Unique(list) && i < |list|
    ensures forall q :: q in list && q.name == list[i].name ==> q == list[i]
  {}

  // ----- Sending and receiving -----

  /** The call need not wait, or its deadline is still to come. */
  predicate InGoodTime(q: Queue, d: Deadline) { q.attr.nonBlocking || d.NoDeadline? || d.InTime? }

  predicate CanAccept(q: Queue, c: Call)
    requires c.Send?
  {
    0 < |c.bytes| <= q.attr.messageSize && InGoodTime(q, c.deadline) && c.grant && |q.items| < q.attr.maxMessages
  }

  /** A message is accepted exactly when its queue is listed, its size is from 1 to
      the queue's limit, the deadline is good, memory was granted and there is
      room; it then goes to the end of that queue and no other. */
  lemma SendOutcome(calls: seq<Call>, c: Call)
    requires c.Send?
    ensures var (r, (g, o)) := (Run(EMPTY_REGISTRY, calls), Step(Run(EMPTY_REGISTRY, calls), c));
      && (o == Done <==> exists q :: Has(r, c.id, q) && CanAccept(q, c))
      && (o == Failed(EBADF) <==> !exists q :: Has(r, c.id, q))
      && (o == Done ==> g.sent == r.sent[c.id := Log(r.sent, c.id) + [c.bytes]] && g.received == r.received)
      && (o == Done || o.Failed?)
  {
    var r := Run(EMPTY_REGISTRY, calls);
    ReachableUnique(calls);
    FindsId(r, c.id);
    hide Unique, Has, Run, Allocate, Release;
    if !Listed(r, c.id) {
      assert !exists q :: Has(r, c.id, q);
    }
  }

  predicate CanDeliver(q: Queue, c: Call)
    requires c.Receive?
  {
    q.attr.messageSize <= c.length && InGoodTime(q, c.deadline) && q.items != []
  }

  /** A message is delivered exactly when its queue is listed and has one, the
      length given is at least the queue's limit and the deadline is good; it is
      then the oldest of that queue. */
  lemma ReceiveOutcome(calls: seq<Call>, c: Call)
    requires c.Receive?
    ensures var (r, (g, o)) := (Run(EMPTY_REGISTRY, calls), Step(Run(EMPTY_REGISTRY, calls), c));
      && (o.Message? <==> exists q :: Has(r, c.id, q) && CanDeliver(q, c))
      && (o == Failed(EBADF) <==> !exists q :: Has(r, c.id, q))
      && (forall q :: Has(r, c.id, q) && o.Message? ==>
            && q.items != [] && o.bytes == q.items[0].bytes
            && g.received == r.received[c.id := Log(r.received, c.id) + [o.bytes]] && g.sent == r.sent)
      && (o.Message? || o.Failed?)
  {
    var r := Run(EMPTY_REGISTRY, calls);
    ReachableUnique(calls);
    FindsId(r, c.id);
    hide Unique, Has, Run, Release;
    if !Listed(r, c.id) {
      assert !exists q :: Has(r, c.id, q);
    }
  }

  /** Why a send to a listed queue fails: its size first, then the deadline, then
      the memory, then the room. */
  lemma SendFailures(r: Registry, c: Call, q: Queue)
    requires c.Send? && Unique(r.list) && Has(r, c.id, q)
    ensures var (o, fits) := (Step(r, c).1, |c.bytes| <= q.attr.messageSize);
      && (!fits ==> o == Failed(EMSGSIZE))
      && (fits && !InGoodTime(q, c.deadline) ==> o == Failed(if c.deadline.Past? then ETIMEDOUT else EINVAL))
      && (fits && InGoodTime(q, c.deadline) && (c.bytes == [] || !c.grant) ==> o == Failed(EMSGSIZE))
      && (fits && InGoodTime(q, c.deadline) && c.bytes != [] && c.grant && |q.items| >= q.attr.maxMessages ==>
            o == Failed(if q.attr.nonBlocking then EAGAIN else ETIMEDOUT))
  {
    FindsId(r, c.id);
    hide Unique, Has, Allocate, Release;
  }

  /** Why a receive from a listed queue fails: the length first, then the
      deadline, then that there is no message. */
  lemma ReceiveFailures(r: Registry, c: Call, q: Queue)
    requires c.Receive? && Unique(r.list) && Has(r, c.id, q)
    ensures var (o, fits) := (Step(r, c).1, q.attr.messageSize <= c.length);
      && (!fits ==> o == Failed(EMSGSIZE))
      && (fits && !InGoodTime(q, c.deadline) ==> o == Failed(if c.deadline.Past? then ETIMEDOUT else EINVAL))
      && (fits && InGoodTime(q, c.deadline) && q.items == [] ==>
            o == Failed(if q.attr.nonBlocking then EAGAIN else ETIMEDOUT))
  {
    FindsId(r, c.id);
    hide Unique, Has, Release;
  }
}
