/** Condition variables built from an atomic count of waiters and a FreeRTOS
    counting semaphore. Each atomic action is one step: the increment, each
    read, each compare-and-swap, each give and each take. */
module CondVar {
  import opened ThreadSums

  const INT_MAX: nat := 0x7FFF_FFFF
  const WORD: nat := 0x1_0000_0000

  /** What a compare-and-swap loop on the waiter count is for. `Unregister` is
      `prvTestAndDecrement` after a wait that was counted; `Stray` is the same
      loop after a wait whose deadline conversion failed, which was not. */
  datatype Purpose = SignalOne | SignalAll | Unregister | Stray

  datatype Pc =
    | Idle
    | Registered(before: nat, timed: bool)    // counted, mutex not yet unlocked
    | Blocked(before: nat, timed: bool)       // inside xSemaphoreTake
    | Reading(purpose: Purpose)               // about to load the count
    | Swapping(purpose: Purpose, seen: nat)   // about to compare and swap
    | Giving(left: nat)                       // that many gives to go

  /** `waiting` and `tokens` are the object's fields. The counters record the
      run: decrements skipped because the count was zero, decrements by
      uncounted waits, gives refused by a full semaphore, and wrap-arounds of
      the 32-bit count. */
  datatype State = State(
    waiting: nat, tokens: nat, threads: seq<Pc>,
    skipped: nat, stolen: nat, dropped: nat, wraps: nat)

  datatype Step =
    | StartWait(t: nat, timed: bool)
    | FailDeadline(t: nat, garbage: nat)      // `garbage` is the unset local variable, plus one
    | Unlock(t: nat, ok: bool)
    | Take(t: nat)
    | Timeout(t: nat)
    | Signal(t: nat)
    | Broadcast(t: nat)
    | Read(t: nat)
    | Swap(t: nat)
    | Give(t: nat)

  function Init(threads: nat): State {
    State(0, 0, seq(threads, _ => Idle), 0, 0, 0, 0)
  }

  predicate Enabled(s: State, step: Step) {
    step.t < |s.threads| &&
    var pc := s.threads[step.t];
    match step
    case StartWait(_, _) => pc.Idle?
    case FailDeadline(_, garbage) => pc.Idle? && garbage < WORD
    case Unlock(_, _) => pc.Registered?
    case Take(_) => pc.Blocked? && s.tokens > 0
    case Timeout(_) => pc.Blocked? && pc.timed
    case Signal(_) => pc.Idle?
    case Broadcast(_) => pc.Idle?
    case Read(_) => pc.Reading?
    case Swap(_) => pc.Swapping?
    case Give(_) => pc.Giving? && pc.left > 0
  }

  /** One pass through the compare-and-swap loop of thread `t`. */
  function Swapped(s: State, t: nat): State
    requires t < |s.threads| && s.threads[t].Swapping?
  {
    var (purpose, seen) := (s.threads[t].purpose, s.threads[t].seen);
    var idle := s.(threads := s.threads[t := Idle]);
    if seen == 0 then
      if purpose.Unregister? then idle.(skipped := s.skipped + 1) else idle
    else if s.waiting != seen then
      s.(threads := s.threads[t := Reading(purpose)])
    else
      match purpose
      case SignalOne => s.(waiting := seen - 1, threads := s.threads[t := Giving(1)])
      case SignalAll => s.(waiting := 0, threads := s.threads[t := Giving(seen)])
      case Unregister => idle.(waiting := seen - 1)
      case Stray => idle.(waiting := seen - 1, stolen := s.stolen + 1)
  }

  function Next(s: State, step: Step): State
    requires Enabled(s, step)
  {
    var t := step.t;
    var pc := s.threads[t];
    match step
    case StartWait(_, timed) =>
      var counted := s.(threads := s.threads[t := Registered(s.waiting, timed)]);
      if s.waiting + 1 < WORD then counted.(waiting := s.waiting + 1)
      else counted.(waiting := 0, wraps := s.wraps + 1)
    case FailDeadline(_, garbage) => s.(threads := s.threads[t := Swapping(Stray, garbage)])
    case Unlock(_, ok) =>
      s.(threads := s.threads[t := if ok then Blocked(pc.before, pc.timed)
                                   else Swapping(Unregister, (pc.before + 1) % WORD)])
    case Take(_) => s.(tokens := s.tokens - 1, threads := s.threads[t := Idle])
    case Timeout(_) => s.(threads := s.threads[t := Swapping(Unregister, (pc.before + 1) % WORD)])
    case Signal(_) => s.(threads := s.threads[t := Reading(SignalOne)])
    case Broadcast(_) => s.(threads := s.threads[t := Reading(SignalAll)])
    case Read(_) => s.(threads := s.threads[t := Swapping(pc.purpose, s.waiting)])
    case Swap(_) => Swapped(s, t)
    case Give(_) =>
      var given := s.(threads := s.threads[t := if pc.left == 1 then Idle else Giving(pc.left - 1)]);
      if s.tokens < INT_MAX then given.(tokens := s.tokens + 1) else given.(dropped := s.dropped + 1)
  }

  // ----- The law -----

  /** Counted and neither released nor uncounted again. */
  function IsCounted(pc: Pc): int {
    match pc
    case Registered(_, _) => 1
    case Blocked(_, _) => 1
    case Reading(Unregister) => 1
    case Swapping(Unregister, _) => 1
    case _ => 0
  }

  function IsWaiting(pc: Pc): int { if pc.Registered? || pc.Blocked? then 1 else 0 }

  function Pending(pc: Pc): int { if pc.Giving? then pc.left else 0 }

  ghost function Counted(s: State): int { Total(s.threads, IsCounted) }

  ghost function StillWaiting(s: State): int { Total(s.threads, IsWaiting) }

  ghost function PendingGives(s: State): int { Total(s.threads, Pending) }

  /** The wake-ups the object can still deliver. */
  ghost function Deliverable(s: State): int { s.waiting + s.tokens + PendingGives(s) }

  ghost predicate Law(s: State) {
    && s.waiting < WORD
    && Deliverable(s) + s.stolen + s.dropped + WORD * s.wraps == Counted(s) + s.skipped
  }

  lemma NextTotal(s: State, step: Step, weight: Pc -> int)
    requires Enabled(s, step)
    ensures Total(Next(s, step).threads, weight) ==
            Total(s.threads, weight) - weight(s.threads[step.t]) + weight(Next(s, step).threads[step.t])
  {
    TotalUpdate(s.threads, step.t, Next(s, step).threads[step.t], weight);
    assert Next(s, step).threads == s.threads[step.t := Next(s, step).threads[step.t]];
  }

  lemma StepKeepsLaw(s: State, step: Step)
    requires Enabled(s, step) && Law(s)
    ensures Law(Next(s, step))
  {
    hide Next, Deliverable, Counted;
    StepMargin(s, step);
  }

  /** Deliverable wake-ups minus counted threads. */
  ghost function Margin(s: State): int { Deliverable(s) - Counted(s) }

  /** One step changes the margin by exactly what it records. */
  lemma StepMargin(s: State, step: Step)
    requires Enabled(s, step) && s.waiting < WORD
    ensures var g := Next(s, step);
      && g.waiting < WORD
      && Margin(g) - Margin(s) ==
         (g.skipped - s.skipped) - (g.stolen - s.stolen) - (g.dropped - s.dropped) - WORD * (g.wraps - s.wraps)
      && g.skipped >= s.skipped && g.stolen >= s.stolen && g.wraps >= s.wraps
  {
    NextTotal(s, step, IsCounted);
    NextTotal(s, step, Pending);
    if step.Swap? {
      SwapMargin(s, step.t);
    }
  }

  lemma SwapMargin(s: State, t: nat)
    requires t < |s.threads| && s.threads[t].Swapping? && s.waiting < WORD
    ensures var (g, pc) := (Swapped(s, t), Swapped(s, t).threads[t]);
      && g.waiting < WORD && g.tokens == s.tokens && g.dropped == s.dropped && g.wraps == s.wraps
      && g.skipped >= s.skipped && g.stolen >= s.stolen
      && (g.waiting - s.waiting) + Pending(pc) - (IsCounted(pc) - IsCounted(s.threads[t])) ==
         (g.skipped - s.skipped) - (g.stolen - s.stolen)
  {}

  // ----- Whole runs -----

  ghost predicate Runs(s: State, steps: seq<Step>)
    decreases |steps|
  {
    steps == [] || (Enabled(s, steps[0]) && Runs(Next(s, steps[0]), steps[1..]))
  }

  ghost function Final(s: State, steps: seq<Step>): State
    requires Runs(s, steps)
    decreases |steps|
  {
    if steps == [] then s else Final(Next(s, steps[0]), steps[1..])
  }

  lemma InitLaw(threads: nat)
    ensures Law(Init(threads))
  {
    TotalOfIdle(threads, Idle, IsCounted);
    TotalOfIdle(threads, Idle, Pending);
  }

  lemma {:induction false} RunKeepsLaw(s: State, steps: seq<Step>)
    requires Law(s) && Runs(s, steps)
    ensures Law(Final(s, steps))
    decreases |steps|
  {
    if steps != [] {
      StepKeepsLaw(s, steps[0]);
      RunKeepsLaw(Next(s, steps[0]), steps[1..]);
    }
  }

  /** In every run of every operation, failed waits included, the wake-ups
      still deliverable differ from the threads still counted by exactly the
      recorded skips, steals, refused gives and wrap-arounds. */
  lemma EveryRun(threads: nat, steps: seq<Step>)
    requires Runs(Init(threads), steps)
    ensures Law(Final(Init(threads), steps))
  {
    InitLaw(threads);
    RunKeepsLaw(Init(threads), steps);
  }

  // ----- Untimed waits, signals and broadcasts -----

  /** Waits without a deadline whose mutex unlock succeeds. */
  predicate Plain(step: Step) {
    match step
    case StartWait(_, timed) => !timed
    case FailDeadline(_, _) => false
    case Unlock(_, ok) => ok
    case _ => true
  }

  /** No thread is on a path that only deadlines or failed unlocks reach. */
  predicate PlainPc(pc: Pc) {
    match pc
    case Registered(_, timed) => !timed
    case Blocked(_, timed) => !timed
    case Reading(p) => p.SignalOne? || p.SignalAll?
    case Swapping(p, _) => p.SignalOne? || p.SignalAll?
    case _ => true
  }

  ghost predicate PlainState(s: State) {
    && Law(s)
    && s.skipped == s.stolen == s.dropped == s.wraps == 0
    && (forall t :: 0 <= t < |s.threads| ==> PlainPc(s.threads[t]))
    && |s.threads| <= INT_MAX
  }

  lemma CountedAtMostThreads(s: State)
    ensures 0 <= Counted(s) <= |s.threads|
  {
    TotalBounds(s.threads, IsCounted);
  }

  lemma PlainStep(s: State, step: Step)
    requires PlainState(s) && Enabled(s, step) && Plain(step)
    ensures PlainState(Next(s, step))
  {
    hide Law;
    StepKeepsLaw(s, step);
    PlainStepCounters(s, step);
  }

  lemma PlainStepCounters(s: State, step: Step)
    requires PlainState(s) && Enabled(s, step) && Plain(step)
    ensures var g := Next(s, step); g.skipped == g.stolen == g.dropped == g.wraps == 0
  {
    CountedAtMostThreads(s);
    TotalNonNegative(s.threads, Pending);
    if step.Give? {
      TotalAtLeast(s.threads, step.t, Pending);
    }
  }

  lemma {:induction false} PlainRun(s: State, steps: seq<Step>)
    requires PlainState(s) && Runs(s, steps)
    requires forall i :: 0 <= i < |steps| ==> Plain(steps[i])
    ensures PlainState(Final(s, steps))
    decreases |steps|
  {
    hide PlainState;
    if steps != [] {
      PlainStep(s, steps[0]);
      PlainRun(Next(s, steps[0]), steps[1..]);
    }
  }

  lemma {:induction false} PlainCountedIsWaiting(pcs: seq<Pc>)
    requires forall t :: 0 <= t < |pcs| ==> PlainPc(pcs[t])
    ensures Total(pcs, IsCounted) == Total(pcs, IsWaiting)
  {
    if pcs != [] {
      PlainCountedIsWaiting(pcs[1..]);
    }
  }

  /** No lost and no spare wake-up: in every run of untimed waits, signals and
      broadcasts, count + tokens + pending gives is the number of waiters not
      yet released. */
  lemma UntimedWakeupsExact(threads: nat, steps: seq<Step>)
    requires threads <= INT_MAX && Runs(Init(threads), steps)
    requires forall i :: 0 <= i < |steps| ==> Plain(steps[i])
    ensures var s := Final(Init(threads), steps);
      Deliverable(s) == StillWaiting(s)
  {
    InitLaw(threads);
    PlainRun(Init(threads), steps);
    PlainCountedIsWaiting(Final(Init(threads), steps).threads);
  }

  // ----- Timed waits -----

  /** The deliverable wake-ups cover the counted threads but for what stray
      decrements and wrap-arounds took. */
  ghost predicate Covered(s: State) {
    && |s.threads| <= INT_MAX && s.waiting < WORD
    && Counted(s) <= Deliverable(s) + s.stolen + WORD * s.wraps
  }

  lemma StepCovered(s: State, step: Step)
    requires Covered(s) && Enabled(s, step)
    ensures Covered(Next(s, step))
  {
    hide Deliverable, Counted;
    StepMargin(s, step);
    if Next(s, step).dropped > s.dropped {
      FullSemaphoreCovers(Next(s, step));
    }
  }

  lemma FullSemaphoreCovers(s: State)
    requires |s.threads| <= INT_MAX <= s.tokens
    ensures Counted(s) <= Deliverable(s)
  {
    CountedAtMostThreads(s);
    TotalNonNegative(s.threads, Pending);
  }

  lemma {:induction false} RunCovered(s: State, steps: seq<Step>)
    requires Covered(s) && Runs(s, steps)
    ensures Covered(Final(s, steps))
    decreases |steps|
  {
    hide Covered;
    if steps != [] {
      StepCovered(s, steps[0]);
      RunCovered(Next(s, steps[0]), steps[1..]);
    }
  }

  lemma {:induction false} WaitingAtMostCounted(pcs: seq<Pc>)
    ensures Total(pcs, IsWaiting) <= Total(pcs, IsCounted)
  {
    if pcs != [] {
      WaitingAtMostCounted(pcs[1..]);
    }
  }

  /** In every run, with timed and failed waits, the wake-ups still deliverable
      fall below the threads still waiting by at most what stray decrements and
      wrap-arounds took. Waits that all reach the increment take nothing, and no
      run shorter than 2^32 steps wraps, so in such runs no wake-up is lost.
      Where more threads wait than the FreeRTOS semaphore can count, refused
      gives add to that. */
  lemma TimedWakeupsSuffice(threads: nat, steps: seq<Step>)
    requires Runs(Init(threads), steps)
    ensures var s := Final(Init(threads), steps);
      && StillWaiting(s) <= Deliverable(s) + s.stolen + WORD * s.wraps + s.dropped
      && (threads <= INT_MAX ==> StillWaiting(s) <= Deliverable(s) + s.stolen + WORD * s.wraps)
      && (ReachesIncrement(steps) ==> s.stolen == 0)
      && (|steps| < WORD ==> s.wraps == 0)
      && (ReachesIncrement(steps) && |steps| < WORD && threads <= INT_MAX ==> StillWaiting(s) <= Deliverable(s))
  {
    EveryRun(threads, steps);
    WaitingAtMostCounted(Final(Init(threads), steps).threads);
    TotalOfIdle(threads, Idle, IsCounted);
    TotalOfIdle(threads, Idle, Pending);
    if threads <= INT_MAX { RunCovered(Init(threads), steps); }
    if ReachesIncrement(steps) { NothingStolen(Init(threads), steps); }
    if |steps| < WORD { ShortRunsNeverWrap(Init(threads), steps); }
  }

  /** The count grows by at most one per step. */
  lemma {:induction false} ShortRunsNeverWrap(s: State, steps: seq<Step>)
    requires Runs(s, steps) && s.waiting + |steps| < WORD
    ensures Final(s, steps).wraps == s.wraps
    decreases |steps|
  {
    if steps != [] {
      CountGrowsSlowly(s, steps[0]);
      ShortRunsNeverWrap(Next(s, steps[0]), steps[1..]);
    }
  }

  lemma CountGrowsSlowly(s: State, step: Step)
    requires Enabled(s, step) && s.waiting + 1 < WORD
    ensures Next(s, step).waiting <= s.waiting + 1 && Next(s, step).wraps == s.wraps
  {}

  /** Every wait of the run is counted. */
  ghost predicate ReachesIncrement(steps: seq<Step>) {
    forall i :: 0 <= i < |steps| ==> !steps[i].FailDeadline?
  }

  ghost predicate NoStrays(s: State) {
    forall t :: 0 <= t < |s.threads| ==> NoStrayPc(s.threads[t])
  }

  predicate NoStrayPc(pc: Pc) {
    !(pc.Reading? && pc.purpose.Stray?) && !(pc.Swapping? && pc.purpose.Stray?)
  }

  /** Only such waits take a count that is not theirs. */
  lemma {:induction false} NothingStolen(s: State, steps: seq<Step>)
    requires Runs(s, steps) && ReachesIncrement(steps) && NoStrays(s)
    ensures Final(s, steps).stolen == s.stolen
    decreases |steps|
  {
    if steps != [] {
      StrayStep(s, steps[0]);
      NothingStolen(Next(s, steps[0]), steps[1..]);
    }
  }

  lemma StrayStep(s: State, step: Step)
    requires Enabled(s, step) && !step.FailDeadline? && NoStrays(s)
    ensures NoStrays(Next(s, step)) && Next(s, step).stolen == s.stolen
  {
    assert NoStrayPc(s.threads[step.t]);
  }

  /** A signal that reads a zero count leaves behind at most as many waiting
      threads as stray decrements and wrap-arounds took; every other one already
      has a token or a give on its way. With timed waits that all reach the
      increment, and no wrap-around, none is left. */
  lemma ZeroCountMeansAllServed(threads: nat, steps: seq<Step>)
    requires threads <= INT_MAX && Runs(Init(threads), steps)
    requires Final(Init(threads), steps).waiting == 0
    ensures var s := Final(Init(threads), steps);
      && StillWaiting(s) <= s.tokens + PendingGives(s) + s.stolen + WORD * s.wraps
      && (ReachesIncrement(steps) ==> s.stolen == 0)
  {
    TimedWakeupsSuffice(threads, steps);
  }

  // ----- Exactly which steps lose a wake-up -----

  predicate Loses(s: State, step: Step)
    requires Enabled(s, step)
  {
    var pc := s.threads[step.t];
    || (step.Swap? && pc.purpose.Stray? && pc.seen == s.waiting && pc.seen > 0)
    || (step.Give? && s.tokens >= INT_MAX)
    || (step.StartWait? && s.waiting + 1 == WORD)
  }

  lemma MarginFallsIff(s: State, step: Step)
    requires Enabled(s, step) && s.waiting < WORD
    ensures Margin(Next(s, step)) < Margin(s) <==> Loses(s, step)
  {
    hide Margin;
    StepMargin(s, step);
  }

  /** One expired deadline loses another thread's wake-up: thread 0 waits,
      thread 1's deadline has passed, and the signal that follows finds a zero
      count and gives nothing. */
  lemma ExpiredDeadlineLosesAWakeup() returns (steps: seq<Step>)
    ensures Runs(Init(2), steps)
    ensures var s := Final(Init(2), steps);
      && s.threads == [Blocked(0, false), Idle]
      && s.waiting == s.tokens == 0
      && Deliverable(s) < StillWaiting(s)
  {
    hide Runs, Final, Total;
    var s0 := Init(2);
    var s1 := Next(s0, StartWait(0, false));
    var s2 := Next(s1, Unlock(0, true));
    var s3 := Next(s2, FailDeadline(1, 1));
    var s4 := Next(s3, Swap(1));
    var s5 := Next(s4, Signal(1));
    var s6 := Next(s5, Read(1));
    var s7 := Next(s6, Swap(1));
    assert s7.threads == [Blocked(0, false), Idle];
    Stays(s7);
    steps := Ends(s6, Swap(1), [], s7);
    steps := Ends(s5, Read(1), steps, s7);
    steps := Ends(s4, Signal(1), steps, s7);
    steps := Ends(s3, Swap(1), steps, s7);
    steps := Ends(s2, FailDeadline(1, 1), steps, s7);
    steps := Ends(s1, Unlock(0, true), steps, s7);
    steps := Ends(s0, StartWait(0, false), steps, s7);
    assert s7.threads == seq(2, _ => Idle)[0 := Blocked(0, false)];
    LeftWaiting(s7, 2, 0);
  }

  lemma Stays(s: State)
    ensures Runs(s, []) && Final(s, []) == s
  {}

  lemma Ends(s: State, step: Step, rest: seq<Step>, end: State) returns (steps: seq<Step>)
    requires Enabled(s, step) && Runs(Next(s, step), rest) && Final(Next(s, step), rest) == end
    ensures steps == [step] + rest && Runs(s, steps) && Final(s, steps) == end
  {
    steps := [step] + rest;
    assert steps[1..] == rest;
  }

  /** Thread 0 of `n` is blocked, nobody else is inside, and nothing will come. */
  lemma LeftWaiting(s: State, n: nat, before: nat)
    requires 0 < n && s.threads == seq(n, _ => Idle)[0 := Blocked(before, false)] && s.waiting == s.tokens == 0
    ensures Deliverable(s) < StillWaiting(s)
  {
    TotalUpdate(seq(n, _ => Idle), 0, Blocked(before, false), IsWaiting);
    TotalUpdate(seq(n, _ => Idle), 0, Blocked(before, false), Pending);
    TotalOfIdle(n, Idle, IsWaiting);
    TotalOfIdle(n, Idle, Pending);
  }

  // ----- A wrap-around that loses a wake-up -----

  /** A run from `s` to `end` whose waits all reach the increment. */
  ghost predicate Path(s: State, steps: seq<Step>, end: State) {
    Runs(s, steps) && Final(s, steps) == end && ReachesIncrement(steps)
  }

  lemma Prepend(s: State, step: Step, g: State, rest: seq<Step>, end: State) returns (steps: seq<Step>)
    requires Enabled(s, step) && !step.FailDeadline? && Next(s, step) == g && Path(g, rest, end)
    ensures Path(s, steps, end)
  {
    steps := [step] + rest;
    assert steps[1..] == rest;
  }

  /** Threads 0 and 1 are outside. */
  ghost predicate TwoIdle(s: State, third: Pc) { s.threads == [Idle, Idle, third] }

  /** A timed wait is signalled, gives up, and finds the count at zero: a token
      is left over. */
  lemma SpareToken(s: State, third: Pc, rest: seq<Step>, end: State) returns (steps: seq<Step>)
    requires TwoIdle(s, third) && s.waiting == 0 && s.tokens < INT_MAX
    requires Path(s.(tokens := s.tokens + 1, skipped := s.skipped + 1), rest, end)
    ensures Path(s, steps, end)
  {
    hide Path;
    var blocked := s.(waiting := 1, threads := [Blocked(0, true), Idle, third]);
    var given := s.(tokens := s.tokens + 1, threads := [Blocked(0, true), Idle, third]);
    steps := GivesUp(given, third, rest, end);
    steps := Signalled(blocked, third, steps, end);
    var counted := s.(waiting := 1, threads := [Registered(0, true), Idle, third]);
    steps := Prepend(counted, Unlock(0, true), blocked, steps, end);
    steps := Prepend(s, StartWait(0, true), counted, steps, end);
  }

  lemma Signalled(s: State, third: Pc, rest: seq<Step>, end: State) returns (steps: seq<Step>)
    requires s.threads == [Blocked(0, true), Idle, third] && s.waiting == 1 && s.tokens < INT_MAX
    requires Path(s.(waiting := 0, tokens := s.tokens + 1), rest, end)
    ensures Path(s, steps, end)
  {
    hide Path;
    var s1 := s.(threads := [Blocked(0, true), Reading(SignalOne), third]);
    var s2 := s.(threads := [Blocked(0, true), Swapping(SignalOne, 1), third]);
    var s3 := s.(waiting := 0, threads := [Blocked(0, true), Giving(1), third]);
    steps := Prepend(s3, Give(1), s.(waiting := 0, tokens := s.tokens + 1), rest, end);
    steps := Prepend(s2, Swap(1), s3, steps, end);
    steps := Prepend(s1, Read(1), s2, steps, end);
    steps := Prepend(s, Signal(1), s1, steps, end);
  }

  lemma GivesUp(s: State, third: Pc, rest: seq<Step>, end: State) returns (steps: seq<Step>)
    requires s.threads == [Blocked(0, true), Idle, third] && s.waiting == 0
    requires Path(s.(threads := [Idle, Idle, third], skipped := s.skipped + 1), rest, end)
    ensures Path(s, steps, end)
  {
    hide Path;
    var s1 := s.(threads := [Swapping(Unregister, 1), Idle, third]);
    var s2 := s.(threads := [Reading(Unregister), Idle, third]);
    var s3 := s.(threads := [Swapping(Unregister, 0), Idle, third]);
    steps := Prepend(s3, Swap(0), s.(threads := [Idle, Idle, third], skipped := s.skipped + 1), rest, end);
    steps := Prepend(s2, Read(0), s3, steps, end);
    steps := Prepend(s1, Swap(0), s2, steps, end);
    steps := Prepend(s, Timeout(0), s1, steps, end);
  }

  /** A wait that takes a spare token leaves its count behind. */
  lemma SpareCount(s: State, third: Pc, rest: seq<Step>, end: State) returns (steps: seq<Step>)
    requires TwoIdle(s, third) && s.waiting + 1 < WORD && s.tokens > 0
    requires Path(s.(waiting := s.waiting + 1, tokens := s.tokens - 1), rest, end)
    ensures Path(s, steps, end)
  {
    hide Path;
    var s1 := s.(waiting := s.waiting + 1, threads := [Registered(s.waiting, false), Idle, third]);
    var s2 := s.(waiting := s.waiting + 1, threads := [Blocked(s.waiting, false), Idle, third]);
    steps := Prepend(s2, Take(0), s.(waiting := s.waiting + 1, tokens := s.tokens - 1), rest, end);
    steps := Prepend(s1, Unlock(0, true), s2, steps, end);
    steps := Prepend(s, StartWait(0, false), s1, steps, end);
  }

  lemma {:induction false} SpareTokens(s: State, third: Pc, n: nat, rest: seq<Step>, end: State)
    returns (steps: seq<Step>)
    requires TwoIdle(s, third) && s.waiting == 0 && s.tokens + n <= INT_MAX
    requires Path(s.(tokens := s.tokens + n, skipped := s.skipped + n), rest, end)
    ensures Path(s, steps, end)
    decreases n
  {
    hide Path;
    if n == 0 {
      steps := rest;
    } else {
      steps := SpareTokens(s.(tokens := s.tokens + 1, skipped := s.skipped + 1), third, n - 1, rest, end);
      steps := SpareToken(s, third, steps, end);
    }
  }

  lemma {:induction false} SpareCounts(s: State, third: Pc, n: nat, rest: seq<Step>, end: State)
    returns (steps: seq<Step>)
    requires TwoIdle(s, third) && s.waiting + n < WORD && n <= s.tokens
    requires Path(s.(waiting := s.waiting + n, tokens := s.tokens - n), rest, end)
    ensures Path(s, steps, end)
    decreases n
  {
    hide Path;
    if n == 0 {
      steps := rest;
    } else {
      steps := SpareCounts(s.(waiting := s.waiting + 1, tokens := s.tokens - 1), third, n - 1, rest, end);
      steps := SpareCount(s, third, steps, end);
    }
  }

  /** From nothing, a count of `n` that belongs to nobody. */
  lemma RaiseCount(s: State, third: Pc, n: nat, rest: seq<Step>, end: State) returns (steps: seq<Step>)
    requires TwoIdle(s, third) && s.waiting == s.tokens == 0 && n <= INT_MAX
    requires Path(s.(waiting := n, skipped := s.skipped + n), rest, end)
    ensures Path(s, steps, end)
  {
    hide Path;
    steps := SpareCounts(s.(tokens := n, skipped := s.skipped + n), third, n, rest, end);
    steps := SpareTokens(s, third, n, steps, end);
  }

  /** Thread 2 broadcasts and keeps the gives to itself. */
  lemma Collect(s: State, rest: seq<Step>, end: State) returns (steps: seq<Step>)
    requires TwoIdle(s, Idle) && s.waiting > 0
    requires Path(s.(waiting := 0, threads := [Idle, Idle, Giving(s.waiting)]), rest, end)
    ensures Path(s, steps, end)
  {
    hide Path;
    var s1 := s.(threads := [Idle, Idle, Reading(SignalAll)]);
    var s2 := s.(threads := [Idle, Idle, Swapping(SignalAll, s.waiting)]);
    steps := Prepend(s2, Swap(2), s.(waiting := 0, threads := [Idle, Idle, Giving(s.waiting)]), rest, end);
    steps := Prepend(s1, Read(2), s2, steps, end);
    steps := Prepend(s, Broadcast(2), s1, steps, end);
  }

  /** Its gives turn into counts that belong to nobody. */
  lemma {:induction false} HandBack(s: State, n: nat, rest: seq<Step>, end: State) returns (steps: seq<Step>)
    requires TwoIdle(s, Giving(n)) && n > 0 && s.tokens == 0 && s.waiting + n < WORD
    requires Path(s.(waiting := s.waiting + n, threads := [Idle, Idle, Idle]), rest, end)
    ensures Path(s, steps, end)
    decreases n
  {
    hide Path;
    var left := if n == 1 then Idle else Giving(n - 1);
    var given := s.(tokens := 1, threads := [Idle, Idle, left]);
    var next := s.(waiting := s.waiting + 1, threads := [Idle, Idle, left]);
    if n == 1 {
      steps := rest;
    } else {
      steps := HandBack(next, n - 1, rest, end);
    }
    steps := SpareCount(given, left, steps, end);
    steps := Prepend(s, Give(2), given, steps, end);
  }

  /** Three threads whose waits all reach the increment: the count climbs to its
      top while nobody waits, one more wait wraps it to zero, and that thread is
      left with nothing to wake it. */
  lemma WrapLosesAWakeup() returns (steps: seq<Step>)
    ensures Runs(Init(3), steps) && ReachesIncrement(steps)
    ensures var s := Final(Init(3), steps);
      s.wraps == 1 && s.stolen == 0 && Deliverable(s) < StillWaiting(s)
  {
    var k := INT_MAX;
    var s0 := Init(3);
    assert s0.threads == [Idle, Idle, Idle];
    var s1 := s0.(waiting := k, skipped := k);
    var s2 := s1.(waiting := 0, threads := [Idle, Idle, Giving(k)]);
    var s3 := s2.(waiting := k, skipped := 2 * k);
    var s4 := s3.(waiting := 2 * k, threads := [Idle, Idle, Idle]);
    var s5 := s4.(waiting := 0, threads := [Idle, Idle, Giving(2 * k)]);
    var s6 := s5.(waiting := 1, skipped := 2 * k + 1);
    var s7 := s6.(waiting := 2 * k + 1, threads := [Idle, Idle, Idle]);
    var s8 := s7.(waiting := 0, wraps := 1, threads := [Registered(2 * k + 1, false), Idle, Idle]);
    var end := s8.(threads := [Blocked(2 * k + 1, false), Idle, Idle]);
    Stays(end);
    assert Path(end, [], end);
    hide Path;
    steps := Prepend(s8, Unlock(0, true), end, [], end);
    steps := Prepend(s7, StartWait(0, false), s8, steps, end);
    steps := HandBack(s6, 2 * k, steps, end);
    steps := RaiseCount(s5, Giving(2 * k), 1, steps, end);
    steps := Collect(s4, steps, end);
    steps := HandBack(s3, k, steps, end);
    steps := RaiseCount(s2, Giving(k), k, steps, end);
    steps := Collect(s1, steps, end);
    steps := RaiseCount(s0, Idle, k, steps, end);
    PathMeans(s0, steps, end);
    assert end.threads == seq(3, _ => Idle)[0 := Blocked(2 * k + 1, false)];
    LeftWaiting(end, 3, 2 * k + 1);
  }

  lemma PathMeans(s: State, steps: seq<Step>, end: State)
    requires Path(s, steps, end)
    ensures Runs(s, steps) && Final(s, steps) == end && ReachesIncrement(steps)
  {}
}
