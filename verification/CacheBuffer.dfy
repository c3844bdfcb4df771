/** The USB receive ring buffer: two cursors and a wrap flag over a byte array,
    proved to be a byte queue. */
module CacheBuffer {
  import opened Collections

  newtype byte = x: int | 0 <= x < 256

  // ----- One run of contiguous bytes, as `read` takes it -----

  /** Lengths pass through `uint8_t`. */
  function Narrow(n: nat): (r: nat)
    ensures r < 256 && (n < 256 ==> r == n)
  {
    n % 256
  }

  /** The length `read_max_len_change_pos` returns for a run of `run` bytes. */
  function Returned(run: nat, expected: nat): nat {
    if Narrow(run) > Narrow(expected) then Narrow(expected) else Narrow(run)
  }

  /** The number of bytes it moves the read cursor over. */
  function Advanced(run: nat, expected: nat): (r: nat)
    ensures r <= run
  {
    if Narrow(run) > Narrow(expected) then Narrow(expected) else run
  }

  /** The bytes skipped are the bytes returned exactly when the narrowed run
      exceeds the narrowed request or the run fits in `uint8_t`. */
  lemma RunExactIff(run: nat, expected: nat)
    ensures Returned(run, expected) == Advanced(run, expected) <==>
            Narrow(run) > Narrow(expected) || run < 256
  {}

  datatype Cursors = Cursors(write: nat, read: nat, circle: bool)

  predicate InRange(c: Cursors, capacity: nat) {
    && c.write < capacity && c.read < capacity
    && (if c.circle then c.write <= c.read else c.read <= c.write)
  }

  /** The bytes that can be read before the array's end or the write cursor. */
  function RunLength(c: Cursors, capacity: nat): nat
    requires InRange(c, capacity)
  {
    if c.circle then capacity - c.read else c.write - c.read
  }

  ghost predicate NeverLosesBytes(capacity: nat) {
    forall c, expected: nat :: InRange(c, capacity) ==>
      Returned(RunLength(c, capacity), expected) == Advanced(RunLength(c, capacity), expected)
  }

  /** No buffer state and no request loses bytes exactly when the capacity fits
      in `uint8_t`. */
  lemma NeverLosesBytesIff(capacity: nat)
    ensures NeverLosesBytes(capacity) <==> capacity < 256
  {
    if capacity >= 256 {
      var c := Cursors(0, capacity - 256, true);
      assert InRange(c, capacity) && RunLength(c, capacity) == 256;
      assert Returned(256, 1) == 0 && Advanced(256, 1) == 256;
    }
  }

  /** A pass loses whole pages of 256 bytes or nothing, copies at most the
      narrowed request, and moves unless the request narrows to 0. */
  lemma PassFacts(run: nat, wanted: nat)
    ensures Returned(run, wanted) <= Advanced(run, wanted)
    ensures (Advanced(run, wanted) - Returned(run, wanted)) % 256 == 0
    ensures run < 256 ==> Advanced(run, wanted) == Returned(run, wanted)
    ensures Returned(run, wanted) <= wanted % 256
    ensures 0 < run && Advanced(run, wanted) == 0 ==> wanted % 256 == 0
  {}

  // ----- Which requests a read can fill -----

  /** The bytes still wanted after reads of the given runs. */
  function Wanted(runs: seq<nat>, len: nat): (r: nat)
    ensures r <= len
    decreases |runs|
  {
    if runs == [] then len
    else
      var before := Wanted(runs[..|runs| - 1], len);
      before - Returned(runs[|runs| - 1], before)
  }

  /** A run of a buffer of that capacity; `read` takes none that is empty. */
  predicate RunOf(capacity: nat, run: nat) { 0 < run <= capacity }

  ghost predicate Fills(capacity: nat, len: nat, runs: seq<nat>) {
    runs != [] && (forall i :: 0 <= i < |runs| ==> RunOf(capacity, runs[i])) && Wanted(runs, len) == 0
  }

  /** Some sequence of runs fills the request. */
  ghost predicate CanFill(capacity: nat, len: nat) {
    exists runs: seq<nat> :: Fills(capacity, len, runs)
  }

  /** Whatever the runs, the whole pages of 256 bytes in the request are never
      served. */
  lemma {:induction false} PagesNeverServed(runs: seq<nat>, len: nat)
    ensures Wanted(runs, len) / 256 == len / 256
    decreases |runs|
  {
    if runs != [] {
      PagesNeverServed(runs[..|runs| - 1], len);
    }
  }

  lemma {:induction false} SingleBytes(n: nat, len: nat)
    requires n <= len < 256
    ensures Wanted(seq(n, _ => 1), len) == len - n
  {
    if n > 0 {
      assert seq(n, _ => 1)[..n - 1] == seq(n - 1, _ => 1);
      SingleBytes(n - 1, len);
    }
  }

  /** At every capacity, a read can fill its request if and only if the request
      is below 256 bytes. */
  lemma CanFillIff(capacity: nat, len: nat)
    requires 0 < capacity
    ensures CanFill(capacity, len) <==> len < 256
  {
    if len < 256 {
      var runs := seq(if len == 0 then 1 else len, _ => 1);
      if len == 0 {
        assert runs[..0] == [] && Wanted(runs, 0) == 0;
      } else {
        SingleBytes(len, len);
      }
      assert Fills(capacity, len, runs);
    } else if CanFill(capacity, len) {
      var runs: seq<nat> :| Fills(capacity, len, runs);
      PagesNeverServed(runs, len);
    }
  }

  // ----- The array as a queue -----

  /** The bytes between the cursors, oldest first. */
  ghost function View(b: seq<byte>, c: Cursors): (v: seq<byte>)
    requires InRange(c, |b|)
    ensures |v| == if c.circle then |b| - c.read + c.write else c.write - c.read
  {
    if c.circle then b[c.read..] + b[..c.write] else b[c.read..c.write]
  }

  /** The cursors after `k` bytes of the current run have been read. */
  function AfterRead(c: Cursors, capacity: nat, k: nat): Cursors
    requires InRange(c, capacity) && k <= RunLength(c, capacity)
  {
    if c.circle && c.read + k == capacity then Cursors(c.write, 0, false) else c.(read := c.read + k)
  }

  lemma ReadView(b: seq<byte>, c: Cursors, k: nat)
    requires InRange(c, |b|) && k <= RunLength(c, |b|)
    ensures InRange(AfterRead(c, |b|, k), |b|) && c.read + k <= |b| && k <= |View(b, c)|
    ensures View(b, AfterRead(c, |b|, k)) == View(b, c)[k..]
    ensures b[c.read..c.read + k] == View(b, c)[..k]
  {
    hide View, AfterRead;
    ReadLeft(b, c, k);
    ReadTaken(b, c, k);
  }

  lemma ReadLeft(b: seq<byte>, c: Cursors, k: nat)
    requires InRange(c, |b|) && k <= RunLength(c, |b|)
    ensures InRange(AfterRead(c, |b|, k), |b|) && k <= |View(b, c)|
    ensures View(b, AfterRead(c, |b|, k)) == View(b, c)[k..]
  {}

  lemma ReadTaken(b: seq<byte>, c: Cursors, k: nat)
    requires InRange(c, |b|) && k <= RunLength(c, |b|)
    ensures c.read + k <= |b| && k <= |View(b, c)|
    ensures b[c.read..c.read + k] == View(b, c)[..k]
  {
    assert forall i :: 0 <= i < k ==> View(b, c)[i] == b[c.read + i];
  }

  /** Storing `data` from the write cursor on. */
  function Stored(b: seq<byte>, pos: nat, data: seq<byte>): (r: seq<byte>)
    requires pos + |data| <= |b|
    ensures |r| == |b|
  {
    b[..pos] + data + b[pos + |data|..]
  }

  lemma WriteView(b: seq<byte>, c: Cursors, data: seq<byte>)
    requires InRange(c, |b|) && c.write + |data| < if c.circle then c.read else |b|
    ensures View(Stored(b, c.write, data), c.(write := c.write + |data|)) == View(b, c) + data
  {}

  lemma WrapView(b: seq<byte>, c: Cursors, data: seq<byte>)
    requires InRange(c, |b|) && !c.circle && c.write + |data| == |b|
    ensures View(Stored(b, c.write, data), Cursors(0, c.read, true)) == View(b, c) + data
  {}

  lemma SplitAt(s: seq<byte>, k: nat)
    requires k <= |s|
    ensures s[..k] + s[k..] == s
  {}

  // ----- Interrupts while a read waits -----

  /** One call of the time check: the packets that arrive before it answers,
      and its answer. */
  datatype Poll = Poll(packets: seq<seq<byte>>, goOn: bool)

  function Joined(packets: seq<seq<byte>>): seq<byte> {
    if packets == [] then [] else Joined(packets[..|packets| - 1]) + packets[|packets| - 1]
  }

  lemma JoinedNext(packets: seq<seq<byte>>, i: nat)
    requires i < |packets|
    ensures Joined(packets[..i + 1]) == Joined(packets[..i]) + packets[i]
  {
    assert packets[..i + 1][..i] == packets[..i];
  }

  /** All packets of the first polls. */
  function Sent(polls: seq<Poll>): seq<byte> {
    if polls == [] then [] else Sent(polls[..|polls| - 1]) + Joined(polls[|polls| - 1].packets)
  }

  lemma SentNext(polls: seq<Poll>, i: nat)
    requires i < |polls|
    ensures Sent(polls[..i + 1]) == Sent(polls[..i]) + Joined(polls[i].packets)
  {
    assert polls[..i + 1][..i] == polls[..i];
  }

  // ----- What a wait hears -----

  /** How a wait on an empty buffer ends that starts with poll `from`: whether
      something came before the time check said stop, and the polls used. The end
      of the polls counts as a stop. */
  function Heard(polls: seq<Poll>, from: nat): (bool, nat)
    requires from <= |polls|
    decreases |polls| - from
  {
    if from == |polls| then (false, from)
    else if !polls[from].goOn then (false, from + 1)
    else if Joined(polls[from].packets) != [] then (true, from + 1)
    else Heard(polls, from + 1)
  }

  function WaitEnd(empty: bool, polls: seq<Poll>, from: nat): (bool, nat)
    requires from <= |polls|
  {
    if empty then Heard(polls, from) else (true, from)
  }

  /** The first poll that answers stop, or the number of polls. */
  function StopAt(polls: seq<Poll>): (n: nat)
    ensures n <= |polls| && (n < |polls| ==> !polls[n].goOn)
    ensures forall k :: 0 <= k < n ==> polls[k].goOn
  {
    if polls == [] || !polls[0].goOn then 0 else
      assert forall k :: 0 < k < |polls| ==> polls[k] == polls[1..][k - 1];
      1 + StopAt(polls[1..])
  }

  /** The polls that a read uses up which comes to the stop. */
  function AllUsed(polls: seq<Poll>): nat { if StopAt(polls) < |polls| then StopAt(polls) + 1 else |polls| }

  /** The packets of a poll fit an empty buffer. */
  predicate Small(p: Poll, capacity: nat) { |Joined(p.packets)| < capacity }

  ghost predicate AllSmall(polls: seq<Poll>, from: nat, to: nat, capacity: nat) {
    forall k :: from <= k < to && k < |polls| ==> Small(polls[k], capacity)
  }

  lemma {:induction false} HeardMeans(polls: seq<Poll>, from: nat)
    requires from <= StopAt(polls)
    ensures var (ready, used) := Heard(polls, from);
      && from <= used <= |polls|
      && (ready ==> used <= StopAt(polls))
      && (!ready ==> used == AllUsed(polls) && Sent(polls[..from]) == Sent(polls[..StopAt(polls)]))
    decreases |polls| - from
  {
    if from < StopAt(polls) && Joined(polls[from].packets) == [] {
      HeardMeans(polls, from + 1);
      SentNext(polls, from);
    }
  }

  lemma {:induction false} SentPrefix(polls: seq<Poll>, i: nat, j: nat)
    requires i <= j <= |polls|
    ensures Sent(polls[..i]) <= Sent(polls[..j])
    decreases j
  {
    if i < j {
      SentPrefix(polls, i, j - 1);
      SentNext(polls, j - 1);
    }
  }

  lemma EmptyIff(b: seq<byte>, c: Cursors)
    requires InRange(c, |b|)
    ensures View(b, c) == [] <==> NothingToRead(c)
  {}

  predicate NothingToRead(c: Cursors) { !c.circle && c.write <= c.read }

  /** What one pass of a read takes off the queue: the bytes it copies out and
      the bytes it moves over without copying. */
  datatype Piece = Piece(copied: seq<byte>, skipped: seq<byte>)

  /** The piece is what a pass that wants `wanted` bytes takes, unless it has to
      wait first. */
  ghost predicate TakenFrom(p: Piece, c: Cursors, capacity: nat, wanted: nat) {
    InRange(c, capacity) && !NothingToRead(c) ==>
      && |p.copied| == Returned(RunLength(c, capacity), wanted)
      && |p.copied + p.skipped| == Advanced(RunLength(c, capacity), wanted)
  }

  ghost function Copied(pieces: seq<Piece>): seq<byte> {
    if pieces == [] then [] else Copied(pieces[..|pieces| - 1]) + pieces[|pieces| - 1].copied
  }

  ghost function Moved(pieces: seq<Piece>): seq<byte> {
    if pieces == [] then []
    else Moved(pieces[..|pieces| - 1]) + (pieces[|pieces| - 1].copied + pieces[|pieces| - 1].skipped)
  }

  ghost predicate PiecesOf(pieces: seq<Piece>, capacity: nat) {
    forall i :: 0 <= i < |pieces| ==>
      |pieces[i].skipped| % 256 == 0 && (capacity < 256 ==> pieces[i].skipped == [])
  }

  lemma PiecesNext(pieces: seq<Piece>, p: Piece)
    ensures Copied(pieces + [p]) == Copied(pieces) + p.copied
    ensures Moved(pieces + [p]) == Moved(pieces) + (p.copied + p.skipped)
  {
    assert (pieces + [p])[..|pieces|] == pieces;
  }

  /** How a read started: with what on the queue, where the cursors were, and
      what it wants. */
  datatype Start = Start(queue: seq<byte>, cursors: Cursors, capacity: nat, len: nat)

  /** The state of a read whose queue got `arrived` and still holds `left`. */
  ghost predicate Accounted(st: Start, pieces: seq<Piece>, out: seq<byte>, arrived: seq<byte>, left: seq<byte>) {
    && out == Copied(pieces) && Moved(pieces) + left == st.queue + arrived
    && PiecesOf(pieces, st.capacity) && (st.capacity < 256 ==> out == Moved(pieces))
    && |out| <= st.len % 256
    && (pieces != [] ==> TakenFrom(pieces[0], st.cursors, st.capacity, st.len))
  }

  lemma AccountedFirst(st: Start)
    ensures Accounted(st, [], [], [], st.queue)
  {}

  /** A pass that wants `wanted` bytes takes the piece off the front of a queue
      that held `had`, got `more` and then holds `left`. */
  ghost predicate PieceOf(p: Piece, capacity: nat, wanted: nat, had: seq<byte>, more: seq<byte>, left: seq<byte>) {
    && p.copied + p.skipped + left == had + more && |p.copied| <= Narrow(wanted)
    && |p.skipped| % 256 == 0 && (capacity < 256 ==> p.skipped == [])
  }

  /** A pass takes `p` off the front of a queue that held `had` and got `more`. */
  lemma AccountedNext(
    st: Start, pieces: seq<Piece>, out: seq<byte>, arrived: seq<byte>, had: seq<byte>,
    p: Piece, more: seq<byte>, left: seq<byte>)
    requires Accounted(st, pieces, out, arrived, had) && |out| <= st.len
    requires PieceOf(p, st.capacity, st.len - |out|, had, more, left)
    requires pieces == [] ==> TakenFrom(p, st.cursors, st.capacity, st.len)
    ensures Accounted(st, pieces + [p], out + p.copied, arrived + more, left)
    ensures |out + p.copied| <= st.len
  {
    hide TakenFrom;
    PiecesNext(pieces, p);
    Regroup(Moved(pieces), p.copied + p.skipped, left);
    Regroup(Moved(pieces), had, more);
    Regroup(st.queue, arrived, more);
    assert (pieces + [p])[0] == if pieces == [] then p else pieces[0];
  }

  lemma AccountedMeans(st: Start, pieces: seq<Piece>, out: seq<byte>, arrived: seq<byte>, left: seq<byte>)
    requires Accounted(st, pieces, out, arrived, left)
    ensures out == Copied(pieces) && Moved(pieces) + left == st.queue + arrived && PiecesOf(pieces, st.capacity)
    ensures st.capacity < 256 ==> out + left == st.queue + arrived
    ensures |out| <= st.len % 256
    ensures left == [] ==> |st.queue| <= |Moved(pieces)|
    ensures |out| < st.len && Narrow(st.len - |out|) == 0 ==> st.len - |out| >= 256 && (st.len - |out|) % 256 == 0
    ensures pieces != [] ==> TakenFrom(pieces[0], st.cursors, st.capacity, st.len)
  {
    hide TakenFrom;
  }

  /** A pass that found nothing left nothing: all of the queue has been moved. */
  lemma NothingLeft(st: Start, pieces: seq<Piece>, out: seq<byte>, arrived: seq<byte>, p: Piece)
    requires Accounted(st, pieces, out, arrived, [])
    ensures |st.queue| <= |Moved(pieces + [p])|
  {
    PiecesNext(pieces, p);
  }

  /** A pass that moved the read cursor is seen to have moved it. */
  lemma Unmoved(c: Cursors, capacity: nat, k: nat)
    requires InRange(c, capacity) && k <= RunLength(c, capacity)
    ensures AfterRead(c, capacity, 0) == c
    ensures var g := AfterRead(c, capacity, k);
      g.read == c.read && (g.circle || g.read < g.write) ==> k == 0
  {}

  lemma NothingJoined(packets: seq<seq<byte>>)
    ensures packets == [] ==> Joined(packets) == []
  {}

  lemma NothingSent(polls: seq<Poll>, capacity: nat)
    ensures Sent(polls[..0]) == [] && AllSmall(polls, 0, 0, capacity)
  {}

  class Buffer {
    const capacity: nat
    const buffer: array<byte>
    var writePos: nat
    var readPos: nat
    var circle: bool
    var error: bool

    ghost function Position(): Cursors
      reads this
    {
      Cursors(writePos, readPos, circle)
    }

    ghost predicate Valid()
      reads this
    {
      buffer.Length == capacity && InRange(Position(), capacity)
    }

    /** The bytes written and not yet read, oldest first. */
    ghost function Contents(): seq<byte>
      requires Valid()
      reads this, buffer
    {
      View(buffer[..], Position())
    }

    constructor (capacity: nat)
      requires 0 < capacity
      ensures Valid() && fresh(buffer) && this.capacity == capacity && Contents() == [] && !error
      ensures Position() == Cursors(0, 0, false)
    {
      this.capacity := capacity;
      buffer := new byte[capacity];
      writePos, readPos, circle, error := 0, 0, false, false;
    }

    method CopyIn(pos: nat, data: seq<byte>)
      requires pos + |data| <= buffer.Length
      modifies buffer
      ensures buffer[..] == Stored(old(buffer[..]), pos, data)
    {
      forall i | 0 <= i < |data| {
        buffer[pos + i] := data[i];
      }
    }

    /** A write succeeds exactly when it leaves a byte of the buffer free, and
        then appends the packet. A failed write appends nothing when the buffer
        has wrapped, and otherwise the part up to the end of the array. */
    method Write(data: seq<byte>) returns (ok: bool, ghost accepted: seq<byte>)
      requires Valid()
      modifies this`writePos, this`circle, this`error, buffer
      ensures Valid() && Contents() == old(Contents()) + accepted
      ensures ok <==> |data| < capacity - |old(Contents())|
      ensures ok ==> accepted == data && error == old(error)
      ensures !ok ==> error
      ensures !ok && old(circle) ==> accepted == []
      ensures !ok && !old(circle) ==>
        capacity - old(writePos) <= |data| && accepted == data[..capacity - old(writePos)]
      decreases !circle
    {
      hide View, Stored;
      if circle {
        if readPos - writePos > |data| {
          WriteView(buffer[..], Position(), data);
          CopyIn(writePos, data);
          writePos := writePos + |data|;
          ok, accepted := true, data;
        } else {
          error := true;
          ok, accepted := false, [];
        }
      } else {
        var room := capacity - writePos;
        if room > |data| {
          WriteView(buffer[..], Position(), data);
          CopyIn(writePos, data);
          writePos := writePos + |data|;
          ok, accepted := true, data;
        } else {
          ghost var part := data[..room];
          WrapView(buffer[..], Position(), part);
          CopyIn(writePos, data[..room]);
          writePos := 0;
          circle := true;
          SplitAt(data, room);
          ok, accepted := Write(data[room..]);
          accepted := part + accepted;
        }
      }
    }

    predicate MustWait()
      reads this
    {
      !(if circle then true else writePos > readPos)
    }

    /** The packets of one poll, written in order. `clean` says that all of them
        fitted. */
    method WriteAll(packets: seq<seq<byte>>) returns (ghost arrived: seq<byte>, ghost clean: bool)
      requires Valid()
      modifies this`writePos, this`circle, this`error, buffer
      ensures Valid() && Contents() == old(Contents()) + arrived
      ensures clean ==> arrived == Joined(packets)
      ensures clean <==> packets == [] || |old(Contents())| + |Joined(packets)| < capacity
      ensures old(Contents()) == [] ==> (arrived == [] <==> Joined(packets) == [])
    {
      hide View;
      arrived, clean := [], true;
      for i := 0 to |packets|
        invariant Valid() && Contents() == old(Contents()) + arrived
        invariant clean ==> arrived == Joined(packets[..i])
        invariant clean <==> i == 0 || |old(Contents())| + |Joined(packets[..i])| < capacity
        invariant old(Contents()) == [] ==> (arrived == [] <==> Joined(packets[..i]) == [])
      {
        EmptyIff(buffer[..], Position());
        var ok, accepted := Write(packets[i]);
        JoinedNext(packets, i);
        arrived, clean := arrived + accepted, clean && ok;
      }
      assert packets[..|packets|] == packets;
    }

    /** Take up to `expected` bytes off the front of the current run. */
    method TakeRun(expected: nat) returns (n: nat)
      requires Valid()
      modifies this`readPos, this`circle
      ensures n == Returned(old(RunLength(Position(), capacity)), expected)
      ensures var taken := Advanced(old(RunLength(Position(), capacity)), expected);
        Position() == AfterRead(old(Position()), capacity, taken)
    {
      if circle {
        n := Narrow(capacity - readPos);
        if n > Narrow(expected) {
          n := Narrow(expected);
          readPos := readPos + n;
        } else {
          readPos := 0;
          circle := false;
        }
      } else {
        n := Narrow(writePos - readPos);
        if n > Narrow(expected) {
          n := Narrow(expected);
          readPos := readPos + n;
        } else {
          readPos := writePos;
        }
      }
    }

    /** Poll until there is something to read or the time check says stop. A wait
        polls only while the buffer is empty, and ends as `Heard` says. */
    method Wait(polls: seq<Poll>, from: nat)
      returns (ready: bool, used: nat, ghost arrived: seq<byte>, ghost clean: bool)
      requires Valid() && from <= |polls|
      modifies this`writePos, this`circle, this`error, buffer
      ensures Valid() && Contents() == old(Contents()) + arrived
      ensures (ready, used) == WaitEnd(old(MustWait()), polls, from)
      ensures ready ==> !MustWait()
      ensures !ready ==> old(Contents()) == []
      ensures !old(MustWait()) ==> Position() == old(Position())
      ensures from <= used <= |polls| && (used == from ==> arrived == [])
      ensures clean ==> Sent(polls[..from]) + arrived == Sent(polls[..used])
      ensures clean <==> AllSmall(polls, from, used, capacity)
    {
      hide View, Sent, Joined;
      used, arrived, clean := from, [], true;
      EmptyIff(buffer[..], Position());
      while MustWait()
        invariant Valid() && Contents() == old(Contents()) + arrived
        invariant from <= used <= |polls| && (used == from ==> arrived == [])
        invariant !old(MustWait()) ==> Position() == old(Position()) && used == from
        invariant MustWait() ==> old(MustWait()) && Heard(polls, used) == Heard(polls, from) && Contents() == []
        invariant old(MustWait()) && !MustWait() ==> Heard(polls, from) == (true, used)
        invariant clean ==> Sent(polls[..from]) + arrived == Sent(polls[..used])
        invariant clean <==> AllSmall(polls, from, used, capacity)
        decreases |polls| - used
      {
        if used == |polls| {
          ready := false;
          return;
        }
        var more, fine := WriteAll(polls[used].packets);
        EmptyIff(buffer[..], Position());
        SentNext(polls, used);
        Regroup(Sent(polls[..from]), arrived, more);
        Regroup(old(Contents()), arrived, more);
        arrived, clean := arrived + more, clean && fine;
        NothingJoined(polls[used].packets);
        used := used + 1;
        if !polls[used - 1].goOn {
          ready := false;
          return;
        }
      }
      ready := true;
    }

    /** Move the cursor over the next bytes of the run and copy out those that
        the narrowed length counts. */
    method TakeBytes(bufferAtRead: nat, expected: nat) returns (chunk: seq<byte>, ghost skipped: seq<byte>)
      requires Valid() && bufferAtRead == readPos
      modifies this`readPos, this`circle
      ensures Valid() && chunk + skipped + Contents() == old(Contents())
      ensures |chunk| == Returned(old(RunLength(Position(), capacity)), expected)
      ensures |chunk + skipped| == Advanced(old(RunLength(Position(), capacity)), expected)
    {
      ghost var before, at := Contents(), Position();
      ghost var k := Advanced(RunLength(at, capacity), expected);
      var n := TakeRun(expected);
      ReadView(buffer[..], at, k);
      PassFacts(RunLength(at, capacity), expected);
      chunk, skipped := buffer[bufferAtRead..bufferAtRead + n], before[n..k];
      SplitAt(before, k);
      assert chunk + skipped == before[..k] by {
        assert buffer[bufferAtRead..bufferAtRead + k] == before[..k];
      }
    }

    /** The next pass through the loop of `read`, with `wanted` bytes to go,
        copies nothing and leaves the buffer as it is. */
    ghost predicate Spinning(wanted: nat)
      requires Valid()
      reads this
    {
      !MustWait() && wanted > 0 && Advanced(RunLength(Position(), capacity), wanted) == 0
    }

    /** One pass: wait, then take what the current run gives. `stuck` says that
        the pass changed nothing although bytes are wanted. */
    method Pass(wanted: nat, polls: seq<Poll>, from: nat)
      returns (
        ready: bool, stuck: bool, chunk: seq<byte>, used: nat,
        ghost skipped: seq<byte>, ghost more: seq<byte>, ghost fine: bool)
      requires Valid() && from <= |polls|
      modifies this, buffer
      ensures Valid() && PieceOf(Piece(chunk, skipped), capacity, wanted, old(Contents()), more, Contents())
      ensures (ready, used) == WaitEnd(old(MustWait()), polls, from)
      ensures fine <==> AllSmall(polls, from, used, capacity)
      ensures !ready ==> chunk + skipped == [] && old(Contents()) == [] && !stuck
      ensures TakenFrom(Piece(chunk, skipped), old(Position()), capacity, wanted)
      ensures stuck ==> chunk == [] && Spinning(wanted) && Narrow(wanted) == 0
      ensures ready && !stuck ==> wanted == 0 || chunk != [] || used > from || |Contents()| < |old(Contents())|
      ensures from <= used <= |polls| && (fine ==> Sent(polls[..from]) + more == Sent(polls[..used]))
    {
      hide View, Returned, Advanced, Sent, AllSmall, WaitEnd;
      var bufferAtRead := readPos;
      chunk, skipped, stuck := [], [], false;
      ready, used, more, fine := Wait(polls, from);
      if ready {
        ghost var at := Position();
        PassFacts(RunLength(at, capacity), wanted);
        Unmoved(at, capacity, Advanced(RunLength(at, capacity), wanted));
        chunk, skipped := TakeBytes(bufferAtRead, wanted);
        stuck := wanted != 0 && chunk == [] && readPos == bufferAtRead && !MustWait();
      }
    }

    /** The same pass within a read that started as `st` and has stored `out`. */
    method NextPass(
      len: nat, out: seq<byte>, polls: seq<Poll>, from: nat,
      ghost st: Start, ghost pieces: seq<Piece>, ghost arrived: seq<byte>)
      returns (
        ready: bool, stuck: bool, stored: seq<byte>, used: nat,
        ghost taken: seq<Piece>, ghost got: seq<byte>, ghost fine: bool)
      requires Valid() && from <= |polls| && st.capacity == capacity && |out| <= len == st.len
      requires Accounted(st, pieces, out, arrived, Contents())
      requires pieces == [] ==> Position() == st.cursors && out == []
      modifies this, buffer
      ensures Valid() && Accounted(st, taken, stored, got, Contents())
      ensures taken != [] && |out| <= |stored| <= len
      ensures (ready, used) == WaitEnd(old(MustWait()), polls, from)
      ensures fine <==> AllSmall(polls, from, used, capacity)
      ensures !ready ==> !stuck && |st.queue| <= |Moved(taken)| && stored == out && old(Contents()) == []
      ensures stuck ==> stored == out && Spinning(len - |out|) && Narrow(len - |out|) == 0
      ensures ready && !stuck ==>
        |stored| == len || |out| < |stored| || used > from || |Contents()| < |old(Contents())|
      ensures from <= used <= |polls| && (fine && arrived == Sent(polls[..from]) ==> got == Sent(polls[..used]))
    {
      hide View, Returned, Advanced, RunLength, Copied, Moved, Sent, PiecesOf, PieceOf, Accounted, TakenFrom, InRange;
      hide AllSmall, WaitEnd;
      ghost var had := Contents();
      var goOn, same, chunk, u, skipped, more, clean := Pass(len - |out|, polls, from);
      ghost var piece := Piece(chunk, skipped);
      AccountedNext(st, pieces, out, arrived, had, piece, more, Contents());
      if !goOn { NothingLeft(st, pieces, out, arrived, piece); }
      ready, stuck, stored, used := goOn, same, out + chunk, u;
      taken, got, fine := pieces + [piece], arrived + more, clean;
    }

    /** At every capacity and for every request: the bytes that the read took
        off the queue are its pieces in order, it returns what each piece
        copied, and what a piece skipped is whole pages of 256 bytes, none below
        capacity 256. It comes back full, or short with everything taken when
        the time check said stop, or it spins, which it does only with a
        positive multiple of 256 bytes still wanted. Below capacity 256, where
        every poll's packets fit, a read that does not spin returns the first
        `len` bytes of what was there and what came before the stop. */
    method Read(len: nat, polls: seq<Poll>)
      returns (
        spins: bool, out: seq<byte>, used: nat,
        ghost pieces: seq<Piece>, ghost arrived: seq<byte>, ghost clean: bool)
      requires Valid()
      modifies this, buffer
      ensures Valid()
      ensures out == Copied(pieces) && Moved(pieces) + Contents() == old(Contents()) + arrived
      ensures PiecesOf(pieces, capacity) && pieces != [] && TakenFrom(pieces[0], old(Position()), capacity, len)
      ensures capacity < 256 ==> out + Contents() == old(Contents()) + arrived
      ensures |out| <= len % 256
      ensures spins ==> Spinning(len - |out|) && len - |out| >= 256 && (len - |out|) % 256 == 0
      ensures !spins && |out| < len ==> |old(Contents())| <= |Moved(pieces)| && used == AllUsed(polls)
      ensures used <= |polls| && (0 < len && (spins || |out| == len) ==> used <= StopAt(polls))
      ensures clean ==> arrived == Sent(polls[..used])
      ensures clean <==> AllSmall(polls, 0, used, capacity)
      ensures capacity < 256 && clean && !spins ==>
        out == Front(old(Contents()) + Sent(polls[..StopAt(polls)]), len)
    {
      hide View, Returned, Advanced, RunLength, Copied, Moved, Sent, PiecesOf, Accounted, TakenFrom, InRange, Narrow;
      hide AllSmall, StopAt, Heard, WaitEnd;
      spins, out, used, pieces, arrived, clean := false, [], 0, [], [], true;
      ghost var st := Start(Contents(), Position(), capacity, len);
      AccountedFirst(st);
      NothingSent(polls, capacity);
      while true
        invariant Valid() && used <= StopAt(polls)
        invariant Accounted(st, pieces, out, arrived, Contents())
        invariant |out| < len || pieces == []
        invariant pieces == [] ==> Position() == st.cursors && out == []
        invariant clean ==> arrived == Sent(polls[..used])
        invariant clean <==> AllSmall(polls, 0, used, capacity)
        decreases len - |out|, |polls| - used, |Contents()|
      {
        WaitEndMeans(MustWait(), polls, used);
        ghost var from, before, had, earlier := used, out, arrived, pieces;
        var ready, stuck, stored, u, taken, got, fine := NextPass(len, out, polls, used, st, pieces, arrived);
        SmallSplit(polls, from, u, capacity);
        if !ready { ShortRead(st, earlier, before, had, polls, from); }
        out, used := stored, u;
        pieces, arrived, clean := taken, got, clean && fine;
        if !ready || |out| == len || stuck {
          AccountedMeans(st, pieces, out, arrived, Contents());
          if ready { FullRead(st, out, Contents(), polls, used); }
          spins := ready && |out| != len;
          return;
        }
      }
    }
  }

  /** At most the first `len` bytes. */
  function Front(s: seq<byte>, len: nat): seq<byte> { if |s| <= len then s else s[..len] }

  lemma WaitEndMeans(empty: bool, polls: seq<Poll>, from: nat)
    requires from <= StopAt(polls)
    ensures var (ready, used) := WaitEnd(empty, polls, from);
      && from <= used <= |polls|
      && (ready ==> used <= StopAt(polls))
      && (!ready ==> used == AllUsed(polls) && Sent(polls[..from]) == Sent(polls[..StopAt(polls)]))
  {
    HeardMeans(polls, from);
  }

  lemma SmallSplit(polls: seq<Poll>, from: nat, to: nat, capacity: nat)
    requires from <= to
    ensures AllSmall(polls, 0, to, capacity) <==>
            AllSmall(polls, 0, from, capacity) && AllSmall(polls, from, to, capacity)
  {}

  /** A read that the stop found waiting has stored all there was. */
  lemma ShortRead(
    st: Start, pieces: seq<Piece>, out: seq<byte>, arrived: seq<byte>, polls: seq<Poll>, from: nat)
    requires Accounted(st, pieces, out, arrived, []) && from <= StopAt(polls) && |out| <= st.len
    requires Sent(polls[..from]) == Sent(polls[..StopAt(polls)])
    ensures st.capacity < 256 && arrived == Sent(polls[..from]) ==>
      out == Front(st.queue + Sent(polls[..StopAt(polls)]), st.len)
  {
    assert Moved(pieces) + [] == Moved(pieces);
  }

  /** A full read has stored the first of what there was. */
  lemma FullRead(st: Start, out: seq<byte>, left: seq<byte>, polls: seq<Poll>, used: nat)
    requires used <= StopAt(polls)
    ensures |out| == st.len && out + left == st.queue + Sent(polls[..used]) ==>
      out == Front(st.queue + Sent(polls[..StopAt(polls)]), st.len)
  {
    SentPrefix(polls, used, StopAt(polls));
    if |out| == st.len && out + left == st.queue + Sent(polls[..used]) {
      var all := st.queue + Sent(polls[..StopAt(polls)]);
      assert out + left <= all;
      assert out <= all;
    }
  }

  // ----- The failing reads -----

  lemma {:induction false} FirstPiece(pieces: seq<Piece>)
    requires pieces != []
    ensures pieces[0].copied <= Copied(pieces)
    ensures pieces[0].copied <= Moved(pieces)
  {
    if |pieces| > 1 {
      FirstPiece(pieces[..|pieces| - 1]);
    } else {
      assert Copied(pieces) == [] + pieces[0].copied;
      assert Moved(pieces) == [] + (pieces[0].copied + pieces[0].skipped);
    }
  }

  /** A read whose first piece already copied all that it returns. */
  lemma FirstPieceIsAll(pieces: seq<Piece>, left: seq<byte>, data: seq<byte>, arrived: seq<byte>, n: nat)
    requires pieces != [] && Moved(pieces) + left == data + arrived
    requires |pieces[0].copied| == n <= |data| && |Copied(pieces)| <= n
    ensures Copied(pieces) == data[..n]
  {
    FirstPiece(pieces);
    hide Moved, Copied;
    var x := pieces[0].copied;
    assert Copied(pieces) == x;
    forall i | 0 <= i < n ensures x[i] == data[i] {
      assert x[i] == Moved(pieces)[i] == (Moved(pieces) + left)[i] == (data + arrived)[i];
    }
  }

  /** The cursors of a new buffer after one write that fits. */
  lemma FirstRun(b: seq<byte>, c: Cursors)
    requires InRange(c, |b|) && c.read == 0 && |View(b, c)| < |b|
    ensures RunLength(c, |b|) == |View(b, c)| && (View(b, c) != [] ==> !NothingToRead(c))
  {}

  /** Below capacity 256, a read of a positive multiple of 256 bytes from a buffer
      that holds anything spins without storing a byte, whatever would arrive.
      Capacity 200 with 100 bytes buffered and 256 wanted is one such read. */
  method PageRequestSpins(capacity: nat, data: seq<byte>, len: nat, polls: seq<Poll>)
    returns (spins: bool, out: seq<byte>)
    requires 0 < |data| < capacity < 256 && 0 < len && len % 256 == 0
    ensures spins && out == []
  {
    hide View, Moved, Copied;
    var b := new Buffer(capacity);
    var ok, accepted := b.Write(data);
    ghost var before := b.Contents();
    assert before == data;
    var stuck, bytes, used, pieces, arrived, clean := b.Read(len, polls);
    spins, out := stuck, bytes;
  }

  /** At the deployed capacity of 1000, a read of 300 bytes from a buffer that
      holds them stores the first 44 and no more, whatever arrives. */
  method DeployedCapacityLosesBytes(data: seq<byte>, polls: seq<Poll>) returns (out: seq<byte>)
    requires |data| == 300
    ensures out == data[..44]
  {
    hide View, Moved, Copied, RunLength, InRange, NothingToRead, PiecesOf;
    var b := new Buffer(1000);
    var ok, accepted := b.Write(data);
    assert b.Contents() == data;
    FirstRun(b.buffer[..], b.Position());
    ghost var before := b.Position();
    var spins, bytes, used, pieces, arrived, clean := b.Read(300, polls);
    out := bytes;
    assert |pieces[0].copied| == Returned(300, 300) == 44;
    FirstPieceIsAll(pieces, b.Contents(), data, arrived, 44);
  }
}
