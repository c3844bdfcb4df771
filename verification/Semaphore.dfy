/** POSIX semaphores built from an atomic counter and a FreeRTOS counting
    semaphore. Every atomic action of every thread is one step, and the steps
    of any number of threads interleave freely. */
module Semaphore {
  import opened ThreadSums

  const SEM_VALUE_MAX: nat := 0x7FFF
  const INT_MAX: int := 0x7FFF_FFFF
  const INT_MIN: int := -0x8000_0000

  /** Where a thread is: outside, inside `xSemaphoreTake`, or about to call
      `xSemaphoreGive`. */
  datatype Pc = Idle | Taking | Giving

  /** `value` and `tokens` are the object's two fields. The counters record the
      run: posts begun, waits that succeeded, waits that timed out, gives
      refused because the FreeRTOS semaphore was full, and the times the 32-bit
      counter wrapped at its top and at its bottom. */
  datatype State = State(
    initial: nat, value: int, tokens: nat, threads: seq<Pc>,
    posts: nat, passed: nat, expired: nat, dropped: nat, over: nat, under: nat)

  datatype Step = Post(t: nat) | Give(t: nat) | Wait(t: nat) | Take(t: nat) | Expire(t: nat)

  datatype InitResult = Ready(state: State) | Einval

  /** `sem_init`: values above the maximum are refused. */
  function SemInit(value: nat, threads: nat): InitResult {
    if value > SEM_VALUE_MAX then Einval
    else Ready(State(value, value, 0, seq(threads, _ => Idle), 0, 0, 0, 0, 0, 0))
  }

  predicate Enabled(s: State, step: Step) {
    step.t < |s.threads| &&
    match step
    case Post(t) => s.threads[t].Idle?
    case Give(t) => s.threads[t].Giving?
    case Wait(t) => s.threads[t].Idle?
    case Take(t) => s.threads[t].Taking? && s.tokens > 0
    case Expire(t) => s.threads[t].Taking?
  }

  /** The atomic steps on the counter, in 32-bit two's complement. */
  function Incremented(s: State): State {
    if s.value == INT_MAX then s.(value := INT_MIN, over := s.over + 1) else s.(value := s.value + 1)
  }

  function Decremented(s: State): State {
    if s.value == INT_MIN then s.(value := INT_MAX, under := s.under + 1) else s.(value := s.value - 1)
  }

  function Next(s: State, step: Step): State
    requires Enabled(s, step)
  {
    match step
    case Post(t) =>
      var moved := Incremented(s).(posts := s.posts + 1);
      if s.value < 0 then moved.(threads := s.threads[t := Giving]) else moved
    case Give(t) =>
      var moved := s.(threads := s.threads[t := Idle]);
      if s.tokens < SEM_VALUE_MAX then moved.(tokens := s.tokens + 1) else moved.(dropped := s.dropped + 1)
    case Wait(t) =>
      var moved := Decremented(s);
      if s.value > 0 then moved.(passed := s.passed + 1) else moved.(threads := s.threads[t := Taking])
    case Take(t) =>
      s.(tokens := s.tokens - 1, passed := s.passed + 1, threads := s.threads[t := Idle])
    case Expire(t) =>
      s.(expired := s.expired + 1, threads := s.threads[t := Idle])
  }

  // ----- The two conservation laws -----

  function IsTaking(pc: Pc): int { if pc.Taking? then 1 else 0 }

  function IsGiving(pc: Pc): int { if pc.Giving? then 1 else 0 }

  ghost function Blocked(s: State): int { Total(s.threads, IsTaking) }

  ghost function PendingGives(s: State): int { Total(s.threads, IsGiving) }

  function Positive(v: int): int { if v > 0 then v else 0 }

  /** Every unit that was ever put in has been taken by a successful wait, is
      still there, or is on its way. A wrap at the bottom makes 2^31 - 1 units
      from nothing; a wrap at the top loses 2^31. */
  ghost predicate UnitsConserved(s: State) {
    s.passed + Positive(s.value) + s.tokens + PendingGives(s) + s.dropped + s.over * (INT_MAX + 1) ==
    s.initial + s.posts + s.under * INT_MAX
  }

  /** Every thread that found no unit is still blocked or gave up; each is
      matched by a token, a give on its way, or one count below zero. */
  ghost predicate WaitersAccounted(s: State) {
    Blocked(s) + s.expired + s.over * (INT_MAX + 1) ==
    s.tokens + PendingGives(s) + s.dropped + Positive(-s.value) + s.under * (INT_MAX + 2)
  }

  ghost predicate Laws(s: State) {
    INT_MIN <= s.value <= INT_MAX && UnitsConserved(s) && WaitersAccounted(s)
  }

  /** The 32-bit counter runs over. */
  predicate Overflows(s: State, step: Step) {
    (step.Post? && s.value == INT_MAX) || (step.Wait? && s.value == INT_MIN)
  }

  lemma NextTotals(s: State, step: Step)
    requires Enabled(s, step)
    ensures Blocked(Next(s, step)) - Blocked(s) ==
            (if step.Wait? && s.value <= 0 then 1 else if step.Take? || step.Expire? then -1 else 0)
    ensures PendingGives(Next(s, step)) - PendingGives(s) ==
            (if step.Post? && s.value < 0 then 1 else if step.Give? then -1 else 0)
  {
    var pc := Next(s, step).threads[step.t];
    TotalUpdate(s.threads, step.t, pc, IsTaking);
    TotalUpdate(s.threads, step.t, pc, IsGiving);
    assert Next(s, step).threads == s.threads[step.t := pc];
  }

  lemma StepKeepsLaws(s: State, step: Step)
    requires Enabled(s, step) && Laws(s)
    ensures Laws(Next(s, step))
  {
    hide Blocked, PendingGives;
    NextTotals(s, step);
  }

  /** The two laws as they read while the counter has not wrapped. */
  ghost predicate UnwrappedLaws(s: State) {
    && INT_MIN <= s.value <= INT_MAX
    && s.passed + Positive(s.value) + s.tokens + PendingGives(s) + s.dropped == s.initial + s.posts
    && Blocked(s) + s.expired == s.tokens + PendingGives(s) + s.dropped + Positive(-s.value)
  }

  /** A step keeps them if and only if it does not overflow the counter. */
  lemma StepKeepsLawsIff(s: State, step: Step)
    requires Enabled(s, step) && UnwrappedLaws(s)
    ensures UnwrappedLaws(Next(s, step)) <==> !Overflows(s, step)
  {
    hide Blocked, PendingGives;
    NextTotals(s, step);
  }

  // ----- Whole runs -----

  ghost predicate Runs(s: State, steps: seq<Step>)
    decreases |steps|
  {
    steps == [] || (Enabled(s, steps[0]) && Runs(Next(s, steps[0]), steps[1..]))
  }

  ghost function Final(s: State, steps: seq<Step>): State
    requires Runs(s, steps)
    decreases |steps|
  {
    if steps == [] then s else Final(Next(s, steps[0]), steps[1..])
  }

  /** No step of the run overflows the counter. */
  ghost predicate NeverOverflows(s: State, steps: seq<Step>)
    requires Runs(s, steps)
    decreases |steps|
  {
    steps == [] || (!Overflows(s, steps[0]) && NeverOverflows(Next(s, steps[0]), steps[1..]))
  }

  lemma {:induction false} RunKeepsLaws(s: State, steps: seq<Step>)
    requires Laws(s) && Runs(s, steps)
    ensures Laws(Final(s, steps))
    ensures Final(s, steps).initial == s.initial && |Final(s, steps).threads| == |s.threads|
    ensures s.over <= Final(s, steps).over && s.under <= Final(s, steps).under
    ensures NeverOverflows(s, steps) <==> Final(s, steps).over == s.over && Final(s, steps).under == s.under
    decreases |steps|
  {
    hide Laws;
    if steps != [] {
      StepKeepsLaws(s, steps[0]);
      RunKeepsLaws(Next(s, steps[0]), steps[1..]);
    }
  }

  /** Initial values above the maximum are refused, all others give a semaphore
      that obeys the laws. */
  lemma InitLaws(value: nat, threads: nat)
    ensures SemInit(value, threads).Einval? <==> SEM_VALUE_MAX < value
    ensures SemInit(value, threads).Ready? ==> Laws(SemInit(value, threads).state)
  {
    TotalOfIdle(threads, Idle, IsTaking);
    TotalOfIdle(threads, Idle, IsGiving);
  }

  /** The state at the end of a run from `sem_init`. */
  ghost function After(value: nat, threads: nat, steps: seq<Step>): State
    requires value <= SEM_VALUE_MAX && Runs(SemInit(value, threads).state, steps)
  {
    Final(SemInit(value, threads).state, steps)
  }

  /** Both laws, in every run of every operation, wrap-arounds included. */
  lemma EveryRun(value: nat, threads: nat, steps: seq<Step>)
    requires value <= SEM_VALUE_MAX && Runs(SemInit(value, threads).state, steps)
    ensures var s := After(value, threads, steps);
      && Laws(s) && s.initial == value && |s.threads| == threads
      && (NeverOverflows(SemInit(value, threads).state, steps) <==> s.over == s.under == 0)
  {
    InitLaws(value, threads);
    RunKeepsLaws(SemInit(value, threads).state, steps);
  }

  /** In every run, with or without time-outs, the waits that succeeded, the
      units still there and those on their way are the units put in and what
      wrap-arounds made of them; without an overflow no more waits succeed than
      there were units. */
  lemma SuccessfulWaitsBounded(value: nat, threads: nat, steps: seq<Step>)
    requires value <= SEM_VALUE_MAX && Runs(SemInit(value, threads).state, steps)
    ensures var s := After(value, threads, steps);
      && s.passed + s.over * (INT_MAX + 1) <= value + s.posts + s.under * INT_MAX
      && (s.passed > value + s.posts ==> s.under > 0)
      && (NeverOverflows(SemInit(value, threads).state, steps) ==> s.passed <= value + s.posts)
  {
    EveryRun(value, threads, steps);
    TotalNonNegative(After(value, threads, steps).threads, IsGiving);
  }

  // ----- A run that breaks the bound -----

  lemma Stays(s: State)
    ensures PlainRun(s, []) && Final(s, []) == s
  {}

  lemma Then(s: State, step: Step, rest: seq<Step>) returns (steps: seq<Step>)
    requires Enabled(s, step) && Runs(Next(s, step), rest)
    ensures steps == [step] + rest && Runs(s, steps)
    ensures Final(s, steps) == Final(Next(s, step), rest)
    ensures PlainRun(Next(s, step), rest) && !Overflows(s, step) && !step.Expire? ==> PlainRun(s, steps)
  {
    steps := [step] + rest;
    assert steps[1..] == rest;
  }

  /** `n` waits that time out lower the counter by `n`, and nothing else. */
  lemma {:induction false} ExpiredWaits(s: State, n: nat, rest: seq<Step>) returns (steps: seq<Step>)
    requires s.threads == [Idle] && INT_MIN <= s.value - n && s.value <= 0
    requires Runs(s.(value := s.value - n, expired := s.expired + n), rest)
    ensures Runs(s, steps) && Final(s, steps) == Final(s.(value := s.value - n, expired := s.expired + n), rest)
    decreases n
  {
    hide Runs, Final;
    if n == 0 {
      steps := rest;
    } else {
      var s1 := Next(s, Wait(0));
      var s2 := Next(s1, Expire(0));
      assert s2 == s.(value := s.value - 1, expired := s.expired + 1);
      steps := ExpiredWaits(s2, n - 1, rest);
      steps := Then(s1, Expire(0), steps);
      steps := Then(s, Wait(0), steps);
    }
  }

  /** One thread, initial value 0 and no post: after 2^31 waits that time out,
      one more wraps the counter to its top, and the next wait succeeds. */
  lemma WrapLetsAWaitPass() returns (steps: seq<Step>)
    ensures Runs(SemInit(0, 1).state, steps)
    ensures var s := After(0, 1, steps);
      s.passed == 1 && s.posts == 0 && s.under == 1
  {
    hide Runs, Final;
    var s0 := SemInit(0, 1).state;
    var n := -INT_MIN;
    var s1 := s0.(value := s0.value - n, expired := s0.expired + n);
    var s2 := Next(s1, Wait(0));
    var s3 := Next(s2, Expire(0));
    var s4 := Next(s3, Wait(0));
    Stays(s4);
    steps := Then(s3, Wait(0), []);
    steps := Then(s2, Expire(0), steps);
    steps := Then(s1, Wait(0), steps);
    steps := ExpiredWaits(s0, n, steps);
  }

  // ----- Runs of untimed waits -----

  ghost predicate Untimed(steps: seq<Step>) {
    forall i :: 0 <= i < |steps| ==> !steps[i].Expire?
  }

  /** A run of untimed waits and posts that does not overflow the counter. */
  ghost predicate PlainRun(s: State, steps: seq<Step>) {
    Runs(s, steps) && Untimed(steps) && NeverOverflows(s, steps)
  }

  /** Without time-outs no wait gives up. */
  lemma {:induction false} UntimedRun(s: State, steps: seq<Step>)
    requires Runs(s, steps) && Untimed(steps)
    ensures Final(s, steps).expired == s.expired
    decreases |steps|
  {
    if steps != [] {
      UntimedRun(Next(s, steps[0]), steps[1..]);
    }
  }

  /** The blocked threads that no token and no pending give covers are exactly
      those the counter shows below zero. */
  ghost predicate WaitersMatchCounter(s: State) {
    Blocked(s) - (s.tokens + PendingGives(s)) == Positive(-s.value)
  }

  /** In every run of untimed waits that does not overflow the counter, the
      waiters match the counter if and only if no give was refused. */
  lemma UntimedWaitersMatchCounter(value: nat, threads: nat, steps: seq<Step>)
    requires value <= SEM_VALUE_MAX && PlainRun(SemInit(value, threads).state, steps)
    ensures var s := After(value, threads, steps);
      WaitersMatchCounter(s) <==> s.dropped == 0
  {
    EveryRun(value, threads, steps);
    UntimedRun(SemInit(value, threads).state, steps);
  }

  /** With at most one thread more than the FreeRTOS semaphore can count, untimed
      steps never lose a give. */
  lemma GiveAccepted(s: State, step: Step)
    requires Laws(s) && s.over == s.under == s.expired == s.dropped == 0 && |s.threads| <= SEM_VALUE_MAX + 1
    requires Enabled(s, step)
    ensures Next(s, step).dropped == 0
  {
    if step.Give? {
      NotAllBlocked(s.threads, step.t);
      TotalAtLeast(s.threads, step.t, IsGiving);
    }
  }

  lemma {:induction false} NotAllBlocked(pcs: seq<Pc>, t: nat)
    requires t < |pcs| && !pcs[t].Taking?
    ensures Total(pcs, IsTaking) < |pcs|
  {
    if t == 0 {
      TotalBounds(pcs[1..], IsTaking);
    } else {
      NotAllBlocked(pcs[1..], t - 1);
    }
  }

  lemma {:induction false} GivesAccepted(s: State, steps: seq<Step>)
    requires Laws(s) && PlainRun(s, steps)
    requires s.over == s.under == s.expired == s.dropped == 0 && |s.threads| <= SEM_VALUE_MAX + 1
    ensures Final(s, steps).dropped == 0
    decreases |steps|
  {
    hide Laws;
    if steps != [] {
      GiveAccepted(s, steps[0]);
      StepKeepsLaws(s, steps[0]);
      GivesAccepted(Next(s, steps[0]), steps[1..]);
    }
  }

  /** Every untimed run without overflow keeps the waiters matched. */
  ghost predicate AlwaysMatches(value: nat, threads: nat)
    requires value <= SEM_VALUE_MAX
  {
    forall steps :: PlainRun(SemInit(value, threads).state, steps) ==> WaitersMatchCounter(After(value, threads, steps))
  }

  /** `n` posts that find waiters, with no waiter running: what does not fit in
      the FreeRTOS semaphore is refused. */
  lemma {:induction false} Posts(s: State, t: nat, n: nat) returns (steps: seq<Step>)
    requires t < |s.threads| && s.threads[t].Idle? && INT_MIN <= s.value <= 0 - n && s.tokens <= SEM_VALUE_MAX
    ensures PlainRun(s, steps)
    ensures Final(s, steps).dropped >= s.dropped + s.tokens + n - SEM_VALUE_MAX
    decreases n
  {
    hide Runs, Final, NeverOverflows, Untimed;
    if n == 0 {
      Stays(s);
      steps := [];
    } else {
      var s1 := Next(s, Post(t));
      var s2 := Next(s1, Give(t));
      steps := Posts(s2, t, n - 1);
      steps := Then(s1, Give(t), steps);
      steps := Then(s, Post(t), steps);
    }
  }

  /** Let every thread below `SEM_VALUE_MAX + 1` block, then post once for each
      without letting any of them run. */
  lemma {:induction false} BlockThenPost(s: State, k: nat) returns (steps: seq<Step>)
    requires k <= SEM_VALUE_MAX + 1 < |s.threads| && s.value + k == 0 && s.tokens == 0
    requires forall t :: k <= t < |s.threads| ==> s.threads[t].Idle?
    ensures PlainRun(s, steps) && Final(s, steps).dropped > 0
    decreases SEM_VALUE_MAX + 1 - k
  {
    hide Runs, Final, NeverOverflows, Untimed;
    if k == SEM_VALUE_MAX + 1 {
      steps := Posts(s, k, k);
    } else {
      steps := BlockThenPost(Next(s, Wait(k)), k + 1);
      steps := Then(s, Wait(k), steps);
    }
  }

  lemma {:induction false} PassThenBlock(s: State) returns (steps: seq<Step>)
    requires SEM_VALUE_MAX + 1 < |s.threads| && s.value >= 0 && s.tokens == 0
    requires forall t :: 0 <= t < |s.threads| ==> s.threads[t].Idle?
    ensures PlainRun(s, steps) && Final(s, steps).dropped > 0
    decreases s.value
  {
    hide Runs, Final, NeverOverflows, Untimed;
    if s.value == 0 {
      steps := BlockThenPost(s, 0);
    } else {
      steps := PassThenBlock(Next(s, Wait(0)));
      steps := Then(s, Wait(0), steps);
    }
  }

  /** For every initial value and number of threads: the waiters match the
      counter throughout all such runs if and only if there are at most 32768
      threads, one more than the FreeRTOS semaphore can count. */
  lemma AlwaysMatchesIff(value: nat, threads: nat)
    requires value <= SEM_VALUE_MAX
    ensures AlwaysMatches(value, threads) <==> threads <= SEM_VALUE_MAX + 1
  {
    var s := SemInit(value, threads).state;
    if threads <= SEM_VALUE_MAX + 1 {
      forall steps | PlainRun(s, steps) ensures WaitersMatchCounter(After(value, threads, steps)) {
        InitLaws(value, threads);
        GivesAccepted(s, steps);
        UntimedWaitersMatchCounter(value, threads, steps);
      }
    } else {
      var steps := PassThenBlock(s);
      UntimedWaitersMatchCounter(value, threads, steps);
    }
  }


  /** A post that finds the counter below zero finds a blocked thread for its
      give to release. */
  lemma PostFindsAWaiter(value: nat, threads: nat, steps: seq<Step>) returns (t: nat)
    requires value <= SEM_VALUE_MAX && PlainRun(SemInit(value, threads).state, steps)
    requires After(value, threads, steps).value < 0
    ensures var s := After(value, threads, steps);
      && s.tokens + PendingGives(s) < Blocked(s)
      && t < |s.threads| && s.threads[t].Taking?
  {
    var s := After(value, threads, steps);
    EveryRun(value, threads, steps);
    UntimedRun(SemInit(value, threads).state, steps);
    TotalNonNegative(s.threads, IsGiving);
    t := SomeoneCarries(s.threads, IsTaking);
  }

  // ----- When the counter cannot overflow -----

  /** The counter moves by at most one per step, so a run needs more than
      2^31 - 1 - 32767 steps before a post or wait can overflow it. */
  lemma {:induction false} CounterMovesSlowly(s: State, steps: seq<Step>)
    requires INT_MIN <= s.value - |steps| && s.value + |steps| <= INT_MAX && Runs(s, steps)
    ensures NeverOverflows(s, steps)
    decreases |steps|
  {
    if steps != [] {
      CounterMovesSlowly(Next(s, steps[0]), steps[1..]);
    }
  }

  lemma ShortRunsNeverOverflow(value: nat, threads: nat, steps: seq<Step>)
    requires value <= SEM_VALUE_MAX && Runs(SemInit(value, threads).state, steps)
    requires |steps| <= INT_MAX - SEM_VALUE_MAX
    ensures NeverOverflows(SemInit(value, threads).state, steps)
  {
    CounterMovesSlowly(SemInit(value, threads).state, steps);
  }

  // ----- The counters count the steps -----

  ghost function Tally(steps: seq<Step>, kind: Step -> bool): nat {
    if steps == [] then 0 else (if kind(steps[0]) then 1 else 0) + Tally(steps[1..], kind)
  }

  predicate IsPost(step: Step) { step.Post? }

  predicate IsWait(step: Step) { step.Wait? }

  predicate IsGive(step: Step) { step.Give? }

  predicate IsTake(step: Step) { step.Take? }

  predicate IsExpire(step: Step) { step.Expire? }

  /** What the steps of a run come to, from any state. */
  ghost predicate Counted(s: State, steps: seq<Step>, g: State) {
    && g.posts == s.posts + Tally(steps, IsPost)
    && g.expired == s.expired + Tally(steps, IsExpire)
    && g.value - s.value ==
       Tally(steps, IsPost) - Tally(steps, IsWait) + (INT_MAX - INT_MIN + 1) * (g.under - s.under - g.over + s.over)
    && g.passed + Blocked(g) + g.expired == s.passed + Blocked(s) + s.expired + Tally(steps, IsWait)
    && g.tokens + g.dropped + Tally(steps, IsTake) == s.tokens + s.dropped + Tally(steps, IsGive)
  }

  lemma NextCounted(s: State, step: Step)
    requires Enabled(s, step)
    ensures Counted(s, [step], Next(s, step))
  {
    NextTotals(s, step);
    forall kind: Step -> bool ensures Tally([step], kind) == if kind(step) then 1 else 0 {
      assert [step][1..] == [];
    }
    hide Blocked, Tally;
  }

  lemma {:induction false} RunCounted(s: State, steps: seq<Step>)
    requires Runs(s, steps)
    ensures Counted(s, steps, Final(s, steps))
    decreases |steps|
  {
    hide Blocked, PendingGives;
    if steps != [] {
      NextCounted(s, steps[0]);
      hide Next;
      RunCounted(Next(s, steps[0]), steps[1..]);
    }
  }

  /** In every run: each post and each time-out is counted once; the counter is
      the initial value plus posts minus waits, up to wrap-arounds; each wait
      begun has succeeded, is blocked or gave up; each give put in a token that
      is still there, was taken, or was refused. */
  lemma StepsAccounted(value: nat, threads: nat, steps: seq<Step>)
    requires value <= SEM_VALUE_MAX && Runs(SemInit(value, threads).state, steps)
    ensures var s := After(value, threads, steps);
      && s.posts == Tally(steps, IsPost) && s.expired == Tally(steps, IsExpire)
      && s.value == value + Tally(steps, IsPost) - Tally(steps, IsWait) + (INT_MAX - INT_MIN + 1) * (s.under - s.over)
      && s.passed + Blocked(s) + s.expired == Tally(steps, IsWait)
      && s.tokens + s.dropped + Tally(steps, IsTake) == Tally(steps, IsGive)
  {
    RunCounted(SemInit(value, threads).state, steps);
    TotalOfIdle(threads, Idle, IsTaking);
  }

  /** A thread that is not blocked without a token returns by its own next step. */
  lemma ReturnsAlone(s: State, t: nat) returns (step: Step)
    requires t < |s.threads| && !s.threads[t].Idle? && (s.threads[t].Taking? ==> s.tokens > 0)
    ensures step.t == t && Enabled(s, step) && Next(s, step).threads[t].Idle?
  {
    step := if s.threads[t].Giving? then Give(t) else Take(t);
  }
}
