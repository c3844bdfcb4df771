/** The barrier makes progress: from every reachable state the current cycle can
    be completed and every thread brought back, and no step but an entry can be
    repeated for ever. */
module BarrierProgress {
  import opened Collections
  import opened ThreadSums
  import opened Barrier

  // ----- Who has still to return -----

  /** Number `n` of the completed cycle `c` has returned, or its thread is on its
      way out. */
  ghost predicate ReturnedOrLeaving(s: State, c: nat, n: nat)
    requires c < |s.past|
  {
    || n in s.past[c].results
    || (&& n < |s.past[c].roster|
        && var t := s.past[c].roster[n];
        && t < |s.threads| && Leaving(s.threads[t])
        && s.threads[t].cycle == c && NumberOf(s.threads[t]) == n)
  }

  ghost predicate Recorded(s: State) {
    forall c, n :: 0 <= c < |s.past| && 0 <= n < s.threshold ==> ReturnedOrLeaving(s, c, n)
  }

  ghost predicate Sound(s: State) { Inv(s) && Recorded(s) }

  /** A thread that is not on its way out moves, and stays so. */
  lemma MoveInside(s: State, g: State, t: nat)
    requires Recorded(s) && t < |s.threads| && !Leaving(s.threads[t])
    requires g.past == s.past && g.threshold == s.threshold
    requires |g.threads| == |s.threads| && forall u :: 0 <= u < |s.threads| && u != t ==> g.threads[u] == s.threads[u]
    ensures Recorded(g)
  {
    forall c, n | 0 <= c < |g.past| && 0 <= n < g.threshold ensures ReturnedOrLeaving(g, c, n) {
      assert ReturnedOrLeaving(s, c, n);
    }
  }

  /** The leader moves from one part of its way out to the next. */
  lemma MoveLeader(s: State, g: State, t: nat)
    requires Recorded(s) && t < |s.threads| && Leaving(s.threads[t]) && NumberOf(s.threads[t]) == 0
    requires g.past == s.past && g.threshold == s.threshold
    requires |g.threads| == |s.threads| && forall u :: 0 <= u < |s.threads| && u != t ==> g.threads[u] == s.threads[u]
    requires g.threads[t].Giving? && g.threads[t].cycle == s.threads[t].cycle
    ensures Recorded(g)
  {
    forall c, n | 0 <= c < |g.past| && 0 <= n < g.threshold ensures ReturnedOrLeaving(g, c, n) {
      assert ReturnedOrLeaving(s, c, n);
    }
  }

  lemma MoveOut(s: State, t: nat, serial: bool)
    requires Inv(s) && Recorded(s) && t < |s.threads| && Leaving(s.threads[t])
    ensures var (c, n) := (s.threads[t].cycle, NumberOf(s.threads[t]));
      Recorded(s.(threads := s.threads[t := Idle], past := RecordReturn(s, c, n, serial)))
  {
    assert ThreadOk(s, t);
    var (c, n) := (s.threads[t].cycle, NumberOf(s.threads[t]));
    var g := s.(threads := s.threads[t := Idle], past := RecordReturn(s, c, n, serial));
    hide Inv;
    forall d, m | 0 <= d < |g.past| && 0 <= m < g.threshold ensures ReturnedOrLeaving(g, d, m) {
      assert ReturnedOrLeaving(s, d, m);
    }
  }

  lemma CompletionRecorded(s: State, t: nat)
    requires Inv(s) && Recorded(s) && Completes(s, t)
    ensures Recorded(Next(s, Sync(t)))
  {
    var g := Next(s, Sync(t));
    CompletionCounts(s, t);
    hide Inv;
    forall c, n | 0 <= c < |g.past| && 0 <= n < g.threshold ensures ReturnedOrLeaving(g, c, n) {
      if c < |s.past| {
        assert ReturnedOrLeaving(s, c, n);
      } else {
        CompletionReturns(s, t, n);
      }
    }
  }

  lemma CompletionReturns(s: State, t: nat, n: nat)
    requires Inv(s) && Completes(s, t) && n < s.threshold
    ensures ReturnedOrLeaving(Next(s, Sync(t)), |s.past|, n)
  {
    CompletionCounts(s, t);
    var u := s.now.roster[n];
    assert u in s.now.roster;
    assert ThreadOk(s, u) && ThreadOk(s, t);
    if u != t {
      CompletionReleases(s, t, u);
    }
  }

  lemma StepSound(s: State, step: Step)
    requires Sound(s) && Enabled(s, step)
    ensures Sound(Next(s, step))
  {
    StepKeeps(s, step);
    hide Inv, Recorded;
    var t := step.t;
    match step
    case Take(_) => MoveInside(s, Next(s, step), t);
    case Number(_) => MoveInside(s, Next(s, step), t);
    case Sync(_) =>
      if Completes(s, t) { CompletionRecorded(s, t); } else { MoveInside(s, Next(s, step), t); }
    case Leave(_) => MoveOut(s, t, false);
    case Reset(_) => MoveLeader(s, Next(s, step), t);
    case Give(_) => MoveLeader(s, Next(s, step), t);
    case Return(_) => MoveOut(s, t, true);
  }

  lemma {:induction false} RunSound(s: State, steps: seq<Step>)
    requires Sound(s) && Runs(s, steps)
    ensures Sound(Final(s, steps))
    decreases |steps|
  {
    hide Sound;
    if steps != [] {
      StepSound(s, steps[0]);
      RunSound(Next(s, steps[0]), steps[1..]);
    }
  }

  // ----- The work that is left -----

  /** The steps a thread has still to take in its call, at most. */
  function Weight(pc: Pc, threshold: nat): int {
    match pc
    case Idle => 0
    case Taken(_) => threshold + 5
    case Numbered(_, _) => threshold + 4
    case Synced(_, _) => threshold + 3
    case Released(_, _) => threshold + 2
    case Giving(_, given) => if given <= threshold then threshold - given + 1 else 0
  }

  function Weigh(threshold: nat): Pc -> int { pc => Weight(pc, threshold) }

  ghost function Work(s: State): nat {
    var w := Total(s.threads, Weigh(s.threshold));
    if w < 0 then 0 else w
  }

  lemma WorkIsTotal(s: State)
    ensures Work(s) == Total(s.threads, Weigh(s.threshold))
  {
    TotalNonNegative(s.threads, Weigh(s.threshold));
  }

  lemma {:induction false} ReleaseLowers(pcs: seq<Pc>, threshold: nat)
    ensures Total(ReleaseAll(pcs), Weigh(threshold)) <= Total(pcs, Weigh(threshold))
  {
    if pcs != [] {
      ReleaseLowers(pcs[1..], threshold);
      assert ReleaseAll(pcs)[1..] == ReleaseAll(pcs[1..]);
    }
  }

  /** Every step but an entry lowers the work that is left. */
  lemma StepLowersWork(s: State, step: Step)
    requires Inv(s) && Enabled(s, step) && !step.Take?
    ensures Work(Next(s, step)) < Work(s)
  {
    var t, g := step.t, Next(s, step);
    assert ThreadOk(s, t);
    WorkIsTotal(s);
    WorkIsTotal(g);
    if step.Sync? {
      var pc := Synced(s.threads[t].cycle, s.threads[t].n);
      TotalUpdate(s.threads, t, pc, Weigh(s.threshold));
      ReleaseLowers(s.threads[t := pc], s.threshold);
    } else {
      TotalUpdate(s.threads, t, g.threads[t], Weigh(s.threshold));
      assert g.threads == s.threads[t := g.threads[t]];
    }
  }

  // ----- Bringing every thread back -----

  /** Nobody is inside, the barrier is open again, and every completed cycle has
      the results of all its threads. */
  ghost predicate AllBack(s: State) {
    && (forall t :: 0 <= t < |s.threads| ==> s.threads[t].Idle?)
    && s.tokens == s.threshold && s.count == 0 && s.bits == {}
    && forall c :: 0 <= c < |s.past| ==> s.past[c].results.Keys == AllBits(s.threshold)
  }

  /** With nobody in the current cycle, a step that is no entry keeps it so. */
  lemma OutsideStep(s: State, step: Step)
    requires Inv(s) && s.now.entered == {} && Enabled(s, step) && !step.Take?
    ensures Next(s, step).now.entered == {} && |Next(s, step).past| == |s.past|
    ensures Next(s, step).threshold == s.threshold
  {
    assert ThreadOk(s, step.t);
  }

  lemma NobodyInside(s: State)
    requires Sound(s) && s.now.entered == {} && forall t :: 0 <= t < |s.threads| ==> !CanMove(s, t)
    ensures AllBack(s)
  {
    forall t | 0 <= t < |s.threads| ensures s.threads[t].Idle? {
      assert ThreadOk(s, t) && !CanMove(s, t);
    }
    RosterCount(s);
    assert s.now.roster == [];
    forall c | 0 <= c < |s.past| ensures s.past[c].results.Keys == AllBits(s.threshold) {
      assert CycleOk(s.past[c], s.threshold);
      forall n | 0 <= n < s.threshold ensures n in s.past[c].results {
        assert ReturnedOrLeaving(s, c, n);
      }
    }
  }

  lemma {:induction false} Drain(s: State) returns (steps: seq<Step>)
    requires Sound(s) && s.now.entered == {}
    ensures Runs(s, steps) && AllBack(Final(s, steps)) && |Final(s, steps).past| == |s.past|
    decreases Work(s)
  {
    if t :| 0 <= t < |s.threads| && CanMove(s, t) {
      var step := MoveOf(s, t);
      OutsideStep(s, step);
      StepLowersWork(s, step);
      StepSound(s, step);
      hide Sound, AllBack, Next, Enabled;
      steps := Drain(Next(s, step));
      steps := Then(s, step, steps);
    } else {
      NobodyInside(s);
      steps := [];
    }
  }

  // ----- Completing the current cycle -----

  /** When nobody inside can move, a thread outside can enter. */
  lemma SomeoneCanEnter(s: State) returns (t: nat)
    requires Inv(s) && s.threshold <= |s.threads| && forall u :: 0 <= u < |s.threads| ==> !CanMove(s, u)
    ensures Enabled(s, Take(t)) && t !in s.now.entered
  {
    if s.granted < s.threshold {
      assert CanMove(s, s.past[|s.past| - 1].roster[0]);
    }
    if s.tokens == 0 {
      t := MissingBit(s);
    } else {
      t := NotWaiting(s);
      assert ThreadOk(s, t) && !CanMove(s, t);
    }
  }

  lemma InsideStep(s: State, step: Step)
    requires Inv(s) && Enabled(s, step) && !step.Take?
    ensures Next(s, step).threshold == s.threshold && |Next(s, step).threads| == |s.threads|
    ensures || (|Next(s, step).past| == |s.past| && Next(s, step).now.entered == s.now.entered)
            || (|Next(s, step).past| == |s.past| + 1 && Next(s, step).now.entered == {})
  {}

  /** The threads that have still to enter the current cycle. */
  ghost function Missing(s: State): nat {
    if |s.now.entered| <= s.threshold then s.threshold - |s.now.entered| else 0
  }

  lemma EntryStep(s: State, t: nat)
    requires Inv(s) && Enabled(s, Take(t)) && t !in s.now.entered
    ensures var g := Next(s, Take(t));
      && Missing(g) < Missing(s) && |g.past| == |s.past|
      && g.threshold == s.threshold && |g.threads| == |s.threads|
  {
    assert |s.now.entered + {t}| == |s.now.entered| + 1;
  }

  lemma {:induction false} CompleteCycle(s: State) returns (steps: seq<Step>)
    requires Sound(s) && s.threshold <= |s.threads|
    ensures Runs(s, steps) && Sound(Final(s, steps))
    ensures |Final(s, steps).past| == |s.past| + 1 && Final(s, steps).now.entered == {}
    decreases Missing(s), Work(s)
  {
    if t :| 0 <= t < |s.threads| && CanMove(s, t) {
      var step := MoveOf(s, t);
      InsideStep(s, step);
      StepLowersWork(s, step);
      StepSound(s, step);
      hide Sound, Next, Enabled;
      var g := Next(s, step);
      if |g.past| > |s.past| {
        steps := [];
      } else {
        steps := CompleteCycle(g);
      }
      steps := Then(s, step, steps);
    } else {
      var t := SomeoneCanEnter(s);
      EntryStep(s, t);
      StepSound(s, Take(t));
      hide Sound, Next, Enabled;
      steps := CompleteCycle(Next(s, Take(t)));
      steps := Then(s, Take(t), steps);
    }
  }

  lemma {:induction false} Append(s: State, steps: seq<Step>, more: seq<Step>)
    requires Runs(s, steps) && Runs(Final(s, steps), more)
    ensures Runs(s, steps + more) && Final(s, steps + more) == Final(Final(s, steps), more)
    decreases |steps|
  {
    if steps == [] {
      assert steps + more == more;
    } else {
      Append(Next(s, steps[0]), steps[1..], more);
      assert (steps + more)[1..] == steps[1..] + more;
    }
  }

  /** From every reachable state with enough threads, some run completes the
      current cycle, brings every thread back with its result recorded, and
      leaves the barrier as it was after initialisation. */
  lemma CycleCanComplete(count: nat, threads: nat, before: seq<Step>, s: State) returns (steps: seq<Step>)
    requires Reachable(count, threads, before, s) && count <= threads
    ensures Runs(s, steps) && AllBack(Final(s, steps)) && |Final(s, steps).past| == |s.past| + 1
  {
    ReachableInv(count, threads, before, s);
    ReachableSound(count, threads, before, s);
    hide Sound, AllBack;
    steps := CompleteCycle(s);
    var more := Drain(Final(s, steps));
    Append(s, steps, more);
    steps := steps + more;
  }

  lemma ReachableSound(count: nat, threads: nat, before: seq<Step>, s: State)
    requires Reachable(count, threads, before, s)
    ensures Sound(s)
  {
    var s0 := Init(count, threads).state;
    assert Inv(s0);
    RunSound(s0, before);
  }

  /** Initialisation accepts exactly the counts from 1 to 24, and leaves the
      barrier open with nobody inside. */
  lemma InitOpens(count: nat, threads: nat)
    ensures Init(count, threads).Ready? <==> 1 <= count <= MAX_COUNT
    ensures Init(count, threads).Ready? ==>
      var s := Init(count, threads).state;
      AllBack(s) && s.past == [] && s.threshold == count && |s.threads| == threads
  {}

  /** In every reachable state every step but an entry lowers the work left, so
      without entries a run ends. */
  lemma EntriesAloneRepeat(count: nat, threads: nat, before: seq<Step>, s: State, steps: seq<Step>)
    requires Reachable(count, threads, before, s) && Runs(s, steps)
    requires forall i :: 0 <= i < |steps| ==> !steps[i].Take?
    ensures |steps| <= Work(s)
  {
    ReachableInv(count, threads, before, s);
    StepsWithinWork(s, steps);
  }

  lemma {:induction false} StepsWithinWork(s: State, steps: seq<Step>)
    requires Inv(s) && Runs(s, steps) && forall i :: 0 <= i < |steps| ==> !steps[i].Take?
    ensures |steps| <= Work(s)
    decreases |steps|
  {
    hide Inv;
    if steps != [] {
      StepKeeps(s, steps[0]);
      StepLowersWork(s, steps[0]);
      StepsWithinWork(Next(s, steps[0]), steps[1..]);
    }
  }
}
