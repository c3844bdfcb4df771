/** Barriers built from a counting semaphore, an atomic counter and an event
    group. Any number of threads call `pthread_barrier_wait` any number of
    times; each atomic action is one step and all interleavings are allowed. */
module Barrier {
  import opened Collections

  const MAX_COUNT: nat := 24

  /** Where a thread is. The cycle and the thread number it carries identify
      its call. */
  datatype Pc =
    | Idle
    | Taken(cycle: nat)                // has a semaphore token
    | Numbered(cycle: nat, n: nat)     // has its thread number
    | Synced(cycle: nat, n: nat)       // bit set, waiting for the other bits
    | Released(cycle: nat, n: nat)     // all bits were set
    | Giving(cycle: nat, given: nat)   // number 0, resetting the semaphore

  /** What the run has seen of one cycle: the threads that took a token, the
      threads in the order of their numbers, and for each number that returned
      whether it returned PTHREAD_BARRIER_SERIAL_THREAD. */
  datatype Cycle = Cycle(entered: set<nat>, roster: seq<nat>, results: map<nat, bool>)

  /** `tokens`, `count` and `bits` are the barrier's fields. `past` are the
      completed cycles; `granted` counts the tokens issued for the current one,
      and `closed` says that its leader has not yet reset the counter. */
  datatype State = State(
    threshold: nat, tokens: nat, count: nat, bits: set<nat>, threads: seq<Pc>,
    past: seq<Cycle>, now: Cycle, granted: nat, closed: bool)

  datatype Step =
    | Take(t: nat) | Number(t: nat) | Sync(t: nat) | Leave(t: nat) | Reset(t: nat) | Give(t: nat) | Return(t: nat)

  datatype InitResult = Ready(state: State) | Einval | Enomem

  const NO_CYCLE := Cycle({}, [], map[])

  /** `pthread_barrier_init`. */
  function Init(count: nat, threads: nat): InitResult {
    if count == 0 then Einval
    else if count > MAX_COUNT then Enomem
    else Ready(State(count, count, 0, {}, seq(threads, _ => Idle), [], NO_CYCLE, count, false))
  }

  predicate Enabled(s: State, step: Step) {
    step.t < |s.threads| &&
    var pc := s.threads[step.t];
    match step
    case Take(_) => pc.Idle? && s.tokens > 0
    case Number(_) => pc.Taken?
    case Sync(_) => pc.Numbered?
    case Leave(_) => pc.Released? && pc.n != 0
    case Reset(_) => pc.Released? && pc.n == 0
    case Give(_) => pc.Giving? && pc.given < s.threshold
    case Return(_) => pc.Giving? && pc.given >= s.threshold
  }

  /** All bits that a thread of the barrier waits for. */
  function AllBits(threshold: nat): (bits: set<nat>)
    ensures forall i :: i in bits <==> 0 <= i < threshold
  {
    if threshold == 0 then {} else AllBits(threshold - 1) + {threshold - 1}
  }

  function Release(pc: Pc): Pc {
    if pc.Synced? then Released(pc.cycle, pc.n) else pc
  }

  function ReleaseAll(pcs: seq<Pc>): (r: seq<Pc>)
    ensures |r| == |pcs| && forall i :: 0 <= i < |pcs| ==> r[i] == Release(pcs[i])
  {
    if pcs == [] then [] else [Release(pcs[0])] + ReleaseAll(pcs[1..])
  }

  function RecordReturn(s: State, c: nat, n: nat, serial: bool): seq<Cycle> {
    if c < |s.past| then s.past[c := s.past[c].(results := s.past[c].results[n := serial])] else s.past
  }

  function Next(s: State, step: Step): State
    requires Enabled(s, step)
  {
    var t := step.t;
    var pc := s.threads[t];
    match step
    case Take(_) =>
      s.(tokens := s.tokens - 1, threads := s.threads[t := Taken(|s.past|)],
         now := s.now.(entered := s.now.entered + {t}))
    case Number(_) =>
      s.(count := s.count + 1, threads := s.threads[t := Numbered(pc.cycle, s.count)],
         now := s.now.(roster := s.now.roster + [t]))
    case Sync(_) =>
      var threads := s.threads[t := Synced(pc.cycle, pc.n)];
      if AllBits(s.threshold) <= s.bits + {pc.n} then
        s.(bits := s.bits + {pc.n} - AllBits(s.threshold), threads := ReleaseAll(threads),
           past := s.past + [s.now], now := NO_CYCLE, granted := 0, closed := true)
      else s.(bits := s.bits + {pc.n}, threads := threads)
    case Leave(_) =>
      s.(threads := s.threads[t := Idle], past := RecordReturn(s, pc.cycle, pc.n, false))
    case Reset(_) =>
      s.(count := 0, threads := s.threads[t := Giving(pc.cycle, 0)], closed := false)
    case Give(_) =>
      s.(tokens := if s.tokens < s.threshold then s.tokens + 1 else s.tokens,
         threads := s.threads[t := Giving(pc.cycle, pc.given + 1)], granted := s.granted + 1)
    case Return(_) =>
      s.(threads := s.threads[t := Idle], past := RecordReturn(s, pc.cycle, 0, true))
  }

  // ----- The invariant -----

  predicate InCurrent(pc: Pc) { pc.Taken? || pc.Numbered? || pc.Synced? }

  /** The call that thread `t` is finishing: past the barrier, not yet returned. */
  predicate Leaving(pc: Pc) { pc.Released? || pc.Giving? }

  function NumberOf(pc: Pc): nat
    requires Leaving(pc)
  {
    if pc.Released? then pc.n else 0
  }

  /** Thread `t` is where the history says it is. */
  ghost predicate ThreadOk(s: State, t: nat)
    requires t < |s.threads|
  {
    && (t in s.now.entered <==> InCurrent(s.threads[t]))
    && match s.threads[t]
       case Idle => true
       case Taken(c) => c == |s.past| && t !in s.now.roster
       case Numbered(c, n) => c == |s.past| && n < |s.now.roster| && s.now.roster[n] == t && n !in s.bits
       case Synced(c, n) => c == |s.past| && n < |s.now.roster| && s.now.roster[n] == t && n in s.bits
       case Released(c, n) =>
         && c < |s.past| && n < |s.past[c].roster| && s.past[c].roster[n] == t && n !in s.past[c].results
         && (n == 0 ==> c == |s.past| - 1 && s.closed)
       case Giving(c, g) =>
         && c < |s.past| && 0 < |s.past[c].roster| && s.past[c].roster[0] == t && 0 !in s.past[c].results
         && g <= s.threshold
         && (g < s.threshold ==> c == |s.past| - 1)
         && (c == |s.past| - 1 ==> g == s.granted && !s.closed)
  }

  /** A cycle whose bits were all set: exactly `threshold` threads entered, they
      hold the numbers below the threshold, and only number 0 returns the
      serial value. */
  ghost predicate CycleOk(c: Cycle, threshold: nat) {
    && |c.entered| == threshold == |c.roster|
    && Distinct(c.roster)
    && (forall t :: t in c.entered <==> t in c.roster)
    && (forall n :: n in c.results ==> n < threshold && (c.results[n] <==> n == 0))
  }

  ghost predicate NowOk(s: State) {
    && Distinct(s.now.roster)
    && (forall t :: t in s.now.roster ==> t in s.now.entered)
    && (forall t :: t in s.now.entered ==> t < |s.threads|)
    && (forall n :: n in s.bits ==> n < |s.now.roster|)
    && !(AllBits(s.threshold) <= s.bits)
    && s.now.results == map[]
  }

  ghost predicate CountsOk(s: State) {
    && 1 <= s.threshold <= MAX_COUNT
    && s.tokens + |s.now.entered| == s.granted <= s.threshold
    && s.count == (if s.closed then s.threshold else |s.now.roster|)
    && (s.closed ==> s.granted == 0)
    && (s.granted < s.threshold ==> LeaderAtWork(s))
  }

  /** The previous cycle's number 0 is still to reset the barrier. */
  ghost predicate LeaderAtWork(s: State) {
    && |s.past| > 0 && |s.past[|s.past| - 1].roster| > 0
    && var leader := s.past[|s.past| - 1].roster[0];
    && leader < |s.threads|
    && s.threads[leader] == if s.closed then Released(|s.past| - 1, 0) else Giving(|s.past| - 1, s.granted)
  }

  ghost predicate Inv(s: State) {
    && CountsOk(s)
    && NowOk(s)
    && (forall t :: 0 <= t < |s.threads| ==> ThreadOk(s, t))
    && (forall c :: 0 <= c < |s.past| ==> CycleOk(s.past[c], s.threshold))
  }

  // ----- Counting -----

  ghost function Members(xs: seq<nat>): (m: set<nat>)
    ensures forall x :: x in m <==> x in xs
  {
    if xs == [] then {} else Members(xs[..|xs| - 1]) + {xs[|xs| - 1]}
  }

  lemma {:induction false} DistinctCount(xs: seq<nat>)
    requires Distinct(xs)
    ensures |Members(xs)| == |xs|
  {
    if xs != [] {
      DistinctCount(xs[..|xs| - 1]);
    }
  }

  lemma SubsetCount(a: set<nat>, b: set<nat>)
    requires a <= b
    ensures |a| <= |b|
    ensures |a| == |b| ==> a == b
  {
    assert |b| == |a| + |b - a| by { assert b == a + (b - a); }
  }

  /** The roster is never longer than the set of threads that entered; when it
      is as long, it holds all of them. */
  lemma RosterCount(s: State)
    requires NowOk(s)
    ensures |s.now.roster| <= |s.now.entered|
    ensures |s.now.roster| == |s.now.entered| ==> forall t :: t in s.now.entered ==> t in s.now.roster
  {
    DistinctCount(s.now.roster);
    SubsetCount(Members(s.now.roster), s.now.entered);
  }

  lemma RosterRoom(s: State, t: nat)
    requires NowOk(s) && t in s.now.entered && t !in s.now.roster
    ensures |s.now.roster| < |s.now.entered|
  {
    RosterCount(s);
  }

  // ----- Steps that move one thread -----

  lemma TakeKeeps(s: State, t: nat)
    requires Inv(s) && Enabled(s, Take(t))
    ensures Inv(Next(s, Take(t)))
  {
    assert t !in s.now.entered by { assert ThreadOk(s, t); }
    var g := Next(s, Take(t));
    forall u | 0 <= u < |g.threads| ensures ThreadOk(g, u) {
      assert ThreadOk(s, u);
    }
  }

  lemma NumberKeeps(s: State, t: nat)
    requires Inv(s) && Enabled(s, Number(t))
    ensures Inv(Next(s, Number(t)))
  {
    assert ThreadOk(s, t);
    RosterRoom(s, t);
    var g := Next(s, Number(t));
    assert s.count == |s.now.roster| && s.count !in s.bits;
    forall u | 0 <= u < |g.threads| ensures ThreadOk(g, u) {
      assert ThreadOk(s, u);
    }
  }

  lemma PartialSyncKeeps(s: State, t: nat)
    requires Inv(s) && Enabled(s, Sync(t)) && !(AllBits(s.threshold) <= s.bits + {s.threads[t].n})
    ensures Inv(Next(s, Sync(t)))
  {
    assert ThreadOk(s, t);
    var g := Next(s, Sync(t));
    forall u | 0 <= u < |g.threads| ensures ThreadOk(g, u) {
      assert ThreadOk(s, u);
    }
  }

  /** Recording a return keeps every completed cycle in order. */
  lemma RecordedCycles(s: State, c: nat, n: nat, serial: bool)
    requires c < |s.past| && n < s.threshold && (serial <==> n == 0)
    requires forall k :: 0 <= k < |s.past| ==> CycleOk(s.past[k], s.threshold)
    ensures forall k :: 0 <= k < |s.past| ==> CycleOk(RecordReturn(s, c, n, serial)[k], s.threshold)
  {}

  /** Number `n` of cycle `c` is held by thread `t` alone. */
  lemma ReturnThread(s: State, t: nat, c: nat, n: nat, serial: bool, u: nat)
    requires t < |s.threads| && u < |s.threads| && ThreadOk(s, t) && ThreadOk(s, u)
    requires Leaving(s.threads[t]) && c == s.threads[t].cycle && n == NumberOf(s.threads[t])
    requires c < |s.past| && Distinct(s.past[c].roster)
    ensures ThreadOk(s.(threads := s.threads[t := Idle], past := RecordReturn(s, c, n, serial)), u)
  {}

  /** The leader that the counts rely on is not the thread that returns. */
  lemma ReturnCounts(s: State, t: nat, c: nat, n: nat, serial: bool)
    requires CountsOk(s) && t < |s.threads| && ThreadOk(s, t) && Leaving(s.threads[t])
    requires s.threads[t].Released? ==> s.threads[t].n != 0
    requires s.threads[t].Giving? ==> s.threads[t].given >= s.threshold
    ensures CountsOk(s.(threads := s.threads[t := Idle], past := RecordReturn(s, c, n, serial)))
  {}

  lemma LeaveKeeps(s: State, t: nat)
    requires Inv(s) && Enabled(s, Leave(t))
    ensures Inv(Next(s, Leave(t)))
  {
    ReturningKeeps(s, t, s.threads[t].cycle, s.threads[t].n, false);
  }

  lemma ReturnKeeps(s: State, t: nat)
    requires Inv(s) && Enabled(s, Return(t))
    ensures Inv(Next(s, Return(t)))
  {
    ReturningKeeps(s, t, s.threads[t].cycle, 0, true);
  }

  lemma ReturningKeeps(s: State, t: nat, c: nat, n: nat, serial: bool)
    requires Inv(s) && t < |s.threads| && Leaving(s.threads[t])
    requires c == s.threads[t].cycle && n == NumberOf(s.threads[t]) && (serial <==> n == 0)
    requires s.threads[t].Released? ==> n != 0
    requires s.threads[t].Giving? ==> s.threads[t].given >= s.threshold
    ensures Inv(s.(threads := s.threads[t := Idle], past := RecordReturn(s, c, n, serial)))
  {
    assert ThreadOk(s, t);
    assert CycleOk(s.past[c], s.threshold);
    RecordedCycles(s, c, n, serial);
    ReturnCounts(s, t, c, n, serial);
    hide CycleOk, CountsOk, ThreadOk;
    var g := s.(threads := s.threads[t := Idle], past := RecordReturn(s, c, n, serial));
    forall u | 0 <= u < |g.threads| ensures ThreadOk(g, u) {
      ReturnThread(s, t, c, n, serial, u);
    }
  }

  lemma ResetKeeps(s: State, t: nat)
    requires Inv(s) && Enabled(s, Reset(t))
    ensures Inv(Next(s, Reset(t)))
  {
    assert ThreadOk(s, t);
    RosterCount(s);
    var g := Next(s, Reset(t));
    forall u | 0 <= u < |g.threads| ensures ThreadOk(g, u) {
      assert ThreadOk(s, u);
    }
  }

  lemma GiveKeeps(s: State, t: nat)
    requires Inv(s) && Enabled(s, Give(t))
    ensures Inv(Next(s, Give(t)))
  {
    assert ThreadOk(s, t);
    var g := Next(s, Give(t));
    forall u | 0 <= u < |g.threads| ensures ThreadOk(g, u) {
      assert ThreadOk(s, u);
    }
  }

  // ----- The step that completes a cycle -----

  ghost predicate Completes(s: State, t: nat) {
    Enabled(s, Sync(t)) && AllBits(s.threshold) <= s.bits + {s.threads[t].n}
  }

  /** When the last bit is set, exactly the threads of this cycle hold all the
      numbers, and every token has been used. */
  lemma CompletionCounts(s: State, t: nat)
    requires Inv(s) && Completes(s, t)
    ensures |s.now.roster| == |s.now.entered| == s.threshold
    ensures s.tokens == 0 && !s.closed && s.granted == s.threshold
    ensures forall u :: u in s.now.entered ==> u in s.now.roster
    ensures s.bits + {s.threads[t].n} - AllBits(s.threshold) == {}
  {
    assert ThreadOk(s, t);
    RosterCount(s);
    assert s.threshold - 1 in s.bits + {s.threads[t].n};
  }

  /** Every thread of the cycle is waiting when the last one sets its bit. */
  lemma CompletionReleases(s: State, t: nat, u: nat)
    requires Inv(s) && Completes(s, t) && u < |s.threads| && u != t
    ensures !s.threads[u].Taken? && !s.threads[u].Numbered?
  {
    CompletionCounts(s, t);
    assert ThreadOk(s, t) && ThreadOk(s, u);
  }

  lemma CompletionThread(s: State, t: nat, u: nat)
    requires Inv(s) && Completes(s, t) && u < |s.threads|
    ensures ThreadOk(Next(s, Sync(t)), u)
  {
    CompletionCounts(s, t);
    assert ThreadOk(s, u) && ThreadOk(s, t);
    if u != t {
      CompletionReleases(s, t, u);
    }
  }

  lemma CompletionLeader(s: State, t: nat)
    requires Inv(s) && Completes(s, t)
    ensures LeaderAtWork(Next(s, Sync(t)))
  {
    CompletionCounts(s, t);
    var leader := s.now.roster[0];
    assert leader in s.now.roster;
    assert ThreadOk(s, leader);
    if leader != t {
      CompletionReleases(s, t, leader);
    }
  }

  lemma FullSyncKeeps(s: State, t: nat)
    requires Inv(s) && Completes(s, t)
    ensures Inv(Next(s, Sync(t)))
  {
    hide ThreadOk, LeaderAtWork;
    var g := Next(s, Sync(t));
    CompletionCounts(s, t);
    CompletionLeader(s, t);
    forall u | 0 <= u < |g.threads| ensures ThreadOk(g, u) {
      CompletionThread(s, t, u);
    }
  }

  // ----- Whole runs -----

  lemma StepKeeps(s: State, step: Step)
    requires Inv(s) && Enabled(s, step)
    ensures Inv(Next(s, step))
  {
    hide Inv;
    match step
    case Take(t) => TakeKeeps(s, t);
    case Number(t) => NumberKeeps(s, t);
    case Sync(t) =>
      if Completes(s, t) { FullSyncKeeps(s, t); } else { PartialSyncKeeps(s, t); }
    case Leave(t) => LeaveKeeps(s, t);
    case Reset(t) => ResetKeeps(s, t);
    case Give(t) => GiveKeeps(s, t);
    case Return(t) => ReturnKeeps(s, t);
  }

  ghost predicate Runs(s: State, steps: seq<Step>)
    decreases |steps|
  {
    steps == [] || (Enabled(s, steps[0]) && Runs(Next(s, steps[0]), steps[1..]))
  }

  ghost function Final(s: State, steps: seq<Step>): State
    requires Runs(s, steps)
    decreases |steps|
  {
    if steps == [] then s else Final(Next(s, steps[0]), steps[1..])
  }

  lemma {:induction false} RunKeeps(s: State, steps: seq<Step>)
    requires Inv(s) && Runs(s, steps)
    ensures Inv(Final(s, steps)) && Final(s, steps).threshold == s.threshold
    ensures |Final(s, steps).threads| == |s.threads|
    decreases |steps|
  {
    hide Inv;
    if steps != [] {
      StepKeeps(s, steps[0]);
      RunKeeps(Next(s, steps[0]), steps[1..]);
    }
  }

  /** Every reachable state, for every threshold and any number of threads. */
  ghost predicate Reachable(count: nat, threads: nat, steps: seq<Step>, s: State) {
    1 <= count <= MAX_COUNT && Runs(Init(count, threads).state, steps) && s == Final(Init(count, threads).state, steps)
  }

  lemma ReachableInv(count: nat, threads: nat, steps: seq<Step>, s: State)
    requires Reachable(count, threads, steps, s)
    ensures Inv(s) && s.threshold == count && |s.threads| == threads
  {
    var s0 := Init(count, threads).state;
    assert Inv(s0);
    RunKeeps(s0, steps);
  }

  /** No thread gets past the barrier before exactly `count` threads have
      entered its cycle and all `count` numbers below the threshold have been
      handed out, to distinct threads. */
  lemma NoEarlyRelease(count: nat, threads: nat, steps: seq<Step>, s: State, t: nat)
    requires Reachable(count, threads, steps, s) && t < |s.threads| && Leaving(s.threads[t])
    ensures var pc := s.threads[t];
      && pc.cycle < |s.past|
      && |s.past[pc.cycle].entered| == count == |s.past[pc.cycle].roster|
      && Distinct(s.past[pc.cycle].roster)
      && NumberOf(pc) < count && s.past[pc.cycle].roster[NumberOf(pc)] == t
  {
    ReachableInv(count, threads, steps, s);
    assert ThreadOk(s, t);
    assert CycleOk(s.past[s.threads[t].cycle], s.threshold);
  }

  /** The threads inside the current cycle have distinct numbers below the
      threshold, so each shift `1 << number` names a bit of its own. */
  lemma NumbersDistinct(count: nat, threads: nat, steps: seq<Step>, s: State, t: nat, u: nat)
    requires Reachable(count, threads, steps, s) && t < u < |s.threads|
    requires s.threads[t].Numbered? || s.threads[t].Synced?
    requires s.threads[u].Numbered? || s.threads[u].Synced?
    ensures s.threads[t].n != s.threads[u].n
    ensures s.threads[t].n < count && s.threads[u].n < count
  {
    ReachableInv(count, threads, steps, s);
    assert ThreadOk(s, t) && ThreadOk(s, u);
    RosterCount(s);
  }

  ghost predicate OnlySerial(c: Cycle, n: nat) {
    n in c.results && c.results[n] && forall m :: m in c.results && m != n ==> !c.results[m]
  }

  /** In a completed cycle number 0 alone can return the serial value, and once
      all threads of the cycle have returned exactly one did. */
  lemma ExactlyOneSerialThread(count: nat, threads: nat, steps: seq<Step>, s: State, c: nat)
    requires Reachable(count, threads, steps, s) && c < |s.past|
    ensures forall n :: n in s.past[c].results ==> n < count && (s.past[c].results[n] <==> n == 0)
    ensures |s.past[c].results| == count ==> OnlySerial(s.past[c], 0)
  {
    ReachableInv(count, threads, steps, s);
    assert CycleOk(s.past[c], s.threshold);
    if |s.past[c].results| == count {
      assert s.past[c].results.Keys <= AllBits(count);
      AllBitsCount(count);
      SubsetCount(s.past[c].results.Keys, AllBits(count));
      assert 0 in AllBits(count);
    }
  }

  lemma {:induction false} AllBitsCount(k: nat)
    ensures |AllBits(k)| == k
  {
    if k > 0 {
      AllBitsCount(k - 1);
    }
  }

  // ----- Nobody gets stuck -----

  ghost predicate CanStep(s: State) { exists step :: Enabled(s, step) }

  /** In every reachable state a token is left for a new thread, or some thread
      already inside can take its next step: the barrier itself never
      deadlocks. With at least as many threads as the threshold, some thread can
      always take a step. */
  lemma NeverStuck(count: nat, threads: nat, steps: seq<Step>, s: State)
    requires Reachable(count, threads, steps, s)
    ensures s.tokens > 0 || exists step :: Enabled(s, step) && !step.Take?
    ensures count <= threads ==> CanStep(s)
  {
    ReachableInv(count, threads, steps, s);
    if s.tokens == 0 {
      if s.granted < s.threshold {
        var leader := s.past[|s.past| - 1].roster[0];
        var step := MoveOf(s, leader);
      } else {
        var t := MissingBit(s);
        var step := MoveOf(s, t);
      }
    } else if count <= threads {
      var t := NotWaiting(s);
      if s.threads[t].Idle? {
        assert Enabled(s, Take(t));
      } else {
        var step := MoveOf(s, t);
      }
    }
  }

  /** While a token is left, fewer threads wait than the threshold. */
  lemma NotWaiting(s: State) returns (t: nat)
    requires Inv(s) && s.tokens > 0 && s.threshold <= |s.threads|
    ensures t < |s.threads| && !s.threads[t].Synced?
  {
    if forall u :: 0 <= u < |s.threads| ==> s.threads[u].Synced? {
      forall u | u in AllBits(|s.threads|) ensures u in s.now.entered {
        assert ThreadOk(s, u);
      }
      AllBitsCount(|s.threads|);
      SubsetCount(AllBits(|s.threads|), s.now.entered);
      assert false;
    }
    t :| 0 <= t < |s.threads| && !s.threads[t].Synced?;
  }

  /** The first `k` of too few threads wait for the others. */
  ghost predicate Filled(s: State, k: nat) {
    && k <= |s.threads| < s.threshold && s.count == k && s.tokens == s.threshold - k
    && (forall n :: n in s.bits ==> n < k)
    && (forall t :: 0 <= t < k ==> s.threads[t].Synced?)
    && (forall t :: k <= t < |s.threads| ==> s.threads[t].Idle?)
  }

  lemma FillOne(s: State, k: nat)
    requires Filled(s, k) && k < |s.threads|
    ensures Enabled(s, Take(k)) && Enabled(Next(s, Take(k)), Number(k))
    ensures Enabled(Next(Next(s, Take(k)), Number(k)), Sync(k))
    ensures Filled(Next(Next(Next(s, Take(k)), Number(k)), Sync(k)), k + 1)
  {
    var g := Next(Next(s, Take(k)), Number(k));
    assert s.threshold - 1 in AllBits(s.threshold) && s.threshold - 1 !in g.bits + {k};
  }

  lemma Then(s: State, step: Step, rest: seq<Step>) returns (steps: seq<Step>)
    requires Enabled(s, step) && Runs(Next(s, step), rest)
    ensures steps == [step] + rest && Runs(s, steps) && Final(s, steps) == Final(Next(s, step), rest)
  {
    steps := [step] + rest;
    assert steps[1..] == rest;
  }

  lemma {:induction false} FillUp(s: State, k: nat) returns (steps: seq<Step>)
    requires Filled(s, k)
    ensures Runs(s, steps) && !CanStep(Final(s, steps))
    decreases |s.threads| - k
  {
    if k == |s.threads| {
      steps := [];
    } else {
      hide Runs, Final, Filled, CanStep;
      FillOne(s, k);
      var s1 := Next(s, Take(k));
      var s2 := Next(s1, Number(k));
      assert |Next(s2, Sync(k)).threads| == |s.threads|;
      steps := FillUp(Next(s2, Sync(k)), k + 1);
      steps := Then(s2, Sync(k), steps);
      steps := Then(s1, Number(k), steps);
      steps := Then(s, Take(k), steps);
    }
  }

  /** For every threshold: some thread can take a step in every reachable state
      if and only if there are at least as many threads as the threshold. */
  lemma AlwaysMovesIff(count: nat, threads: nat)
    requires 1 <= count <= MAX_COUNT
    ensures (forall steps, s :: Reachable(count, threads, steps, s) ==> CanStep(s)) <==> count <= threads
  {
    if count <= threads {
      forall steps, s | Reachable(count, threads, steps, s) ensures CanStep(s) {
        NeverStuck(count, threads, steps, s);
      }
    } else {
      var s0 := Init(count, threads).state;
      var steps := FillUp(s0, 0);
      assert Reachable(count, threads, steps, Final(s0, steps));
    }
  }

  /** Past its first step, and not waiting for other threads' bits. */
  predicate CanMove(s: State, t: nat)
    requires t < |s.threads|
  {
    !s.threads[t].Idle? && !s.threads[t].Synced?
  }

  lemma MoveOf(s: State, t: nat) returns (step: Step)
    requires t < |s.threads| && CanMove(s, t)
    ensures Enabled(s, step) && !step.Take? && step.t == t
  {
    match s.threads[t]
    case Taken(_) => step := Number(t);
    case Numbered(_, _) => step := Sync(t);
    case Released(_, n) => step := if n != 0 then Leave(t) else Reset(t);
    case Giving(_, given) => step := if given < s.threshold then Give(t) else Return(t);
  }

  /** With every token used, a cycle that has not completed lacks some bit, and
      the thread that will set it is on its way. */
  lemma MissingBit(s: State) returns (t: nat)
    requires Inv(s) && s.tokens == 0 && s.granted == s.threshold
    ensures t < |s.threads| && CanMove(s, t)
  {
    RosterCount(s);
    if forall u :: u in s.now.entered ==> u in s.now.roster {
      RosterCovers(s);
      var n :| n in AllBits(s.threshold) && n !in s.bits;
      t := s.now.roster[n];
      assert t in s.now.roster;
      assert ThreadOk(s, t);
    } else {
      t :| t in s.now.entered && t !in s.now.roster;
      assert ThreadOk(s, t);
    }
  }

  lemma RosterCovers(s: State)
    requires NowOk(s) && forall u :: u in s.now.entered ==> u in s.now.roster
    ensures |s.now.entered| == |s.now.roster|
  {
    DistinctCount(s.now.roster);
    assert Members(s.now.roster) == s.now.entered;
  }
}
