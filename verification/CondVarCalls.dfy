/** What each call on a condition variable does as a whole, in every
    interleaving: how it changes the count of waiters and the tokens, and that
    it returns when it runs alone. */
module CondVarCalls {
  import opened CondVar

  /** The kind of call, by its first step. */
  datatype Kind = SignalCall | BroadcastCall | WaitCall | FailedWait

  predicate Starts(step: Step) { step.StartWait? || step.FailDeadline? || step.Signal? || step.Broadcast? }

  function KindOf(step: Step): Kind
    requires Starts(step)
  {
    match step
    case StartWait(_, _) => WaitCall
    case FailDeadline(_, _) => FailedWait
    case Signal(_) => SignalCall
    case Broadcast(_) => BroadcastCall
  }

  /** What the steps of one thread have done: the change of the count, the
      change of the tokens with refused gives, the count it last saw, and
      whether it stopped waiting for a token. */
  datatype Effect = Effect(count: int, tokens: int, seen: nat, gaveUp: bool)

  const NO_EFFECT := Effect(0, 0, 0, false)

  /** The effect after one more step of the run, of thread `t` or of another.
      Changes are read off the states before and after. */
  ghost function After(s: State, step: Step, t: nat, e: Effect): Effect
    requires Enabled(s, step)
  {
    if step.t != t then e
    else
      var g := Next(s, step);
      Effect(e.count + (g.waiting - s.waiting) + WORD * (g.wraps - s.wraps),
             e.tokens + (g.tokens - s.tokens) + (g.dropped - s.dropped),
             match step
               case StartWait(_, _) => g.waiting
               case FailDeadline(_, garbage) => garbage
               case Read(_) => s.waiting
               case _ => e.seen,
             e.gaveUp || step.Timeout? || (step.Unlock? && !step.ok))
  }

  ghost function Effects(s: State, steps: seq<Step>, t: nat, e: Effect): Effect
    requires Runs(s, steps)
    decreases |steps|
  {
    if steps == [] then e else Effects(Next(s, steps[0]), steps[1..], t, After(s, steps[0], t, e))
  }

  /** Thread `t` is inside in every state of the run but perhaps the last. */
  ghost predicate Within(s: State, steps: seq<Step>, t: nat)
    requires Runs(s, steps) && t < |s.threads|
    decreases |steps|
  {
    steps == [] || (!s.threads[t].Idle? && Within(Next(s, steps[0]), steps[1..], t))
  }

  /** What a call of each kind has done when it returns. */
  ghost predicate Done(kind: Kind, e: Effect) {
    match kind
    case SignalCall => if e.seen == 0 then e.count == 0 && e.tokens == 0 else e.count == -1 && e.tokens == 1
    case BroadcastCall => e.count == 0 - e.seen && e.tokens == e.seen
    case WaitCall =>
      if !e.gaveUp then e.count == 1 && e.tokens == -1
      else e.tokens == 0 && e.count == if e.seen == 0 then 1 else 0
    case FailedWait => e.tokens == 0 && e.count == if e.seen == 0 then 0 else -1
  }

  /** What a call has done at each point inside. */
  ghost predicate SoFar(kind: Kind, pc: Pc, e: Effect) {
    match pc
    case Idle => Done(kind, e)
    case Registered(before, _) =>
      kind.WaitCall? && e.count == 1 && e.tokens == 0 && e.seen == (before + 1) % WORD && !e.gaveUp
    case Blocked(before, _) =>
      kind.WaitCall? && e.count == 1 && e.tokens == 0 && e.seen == (before + 1) % WORD && !e.gaveUp
    case Reading(p) => Serves(kind, p, e)
    case Swapping(p, seen) => Serves(kind, p, e) && e.seen == seen
    case Giving(left) =>
      && e.seen > 0
      && ((kind.SignalCall? && e.count == -1 && e.tokens + left == 1) ||
          (kind.BroadcastCall? && e.count == 0 - e.seen && e.tokens + left == e.seen))
  }

  ghost predicate Serves(kind: Kind, p: Purpose, e: Effect) {
    match p
    case SignalOne => kind.SignalCall? && e.count == e.tokens == 0
    case SignalAll => kind.BroadcastCall? && e.count == e.tokens == 0
    case Unregister => kind.WaitCall? && e.count == 1 && e.tokens == 0 && e.gaveUp
    case Stray => kind.FailedWait? && e.count == e.tokens == 0
  }

  lemma OwnStep(kind: Kind, s: State, step: Step, e: Effect)
    requires Enabled(s, step) && !s.threads[step.t].Idle? && s.waiting < WORD
    requires SoFar(kind, s.threads[step.t], e)
    ensures SoFar(kind, Next(s, step).threads[step.t], After(s, step, step.t, e))
  {}

  lemma FirstStep(s: State, step: Step)
    requires Enabled(s, step) && Starts(step) && s.waiting < WORD
    ensures SoFar(KindOf(step), Next(s, step).threads[step.t], After(s, step, step.t, NO_EFFECT))
  {}

  lemma OtherStep(s: State, step: Step, t: nat)
    requires Enabled(s, step) && t < |s.threads| && step.t != t
    ensures |Next(s, step).threads| == |s.threads| && Next(s, step).threads[t] == s.threads[t]
  {}

  lemma StepInRange(s: State, step: Step)
    requires Enabled(s, step) && s.waiting < WORD
    ensures Next(s, step).waiting < WORD && |Next(s, step).threads| == |s.threads|
  {}

  lemma {:induction false} CallSoFar(kind: Kind, s: State, steps: seq<Step>, t: nat, e: Effect)
    requires t < |s.threads| && Runs(s, steps) && Within(s, steps, t) && s.waiting < WORD
    requires SoFar(kind, s.threads[t], e)
    ensures |Final(s, steps).threads| == |s.threads|
    ensures SoFar(kind, Final(s, steps).threads[t], Effects(s, steps, t, e))
    decreases |steps|
  {
    hide SoFar, After;
    if steps != [] {
      var g := Next(s, steps[0]);
      StepInRange(s, steps[0]);
      if steps[0].t == t {
        OwnStep(kind, s, steps[0], e);
      } else {
        OtherStep(s, steps[0], t);
        OthersLeaveEffect(s, steps[0], t, e);
      }
      CallSoFar(kind, g, steps[1..], t, After(s, steps[0], t, e));
    }
  }

  lemma OthersLeaveEffect(s: State, step: Step, t: nat, e: Effect)
    requires Enabled(s, step) && step.t != t
    ensures After(s, step, t, e) == e
  {}

  /** Thread `t` makes one whole call: its first step and the run up to its
      return, with any steps of other threads in between. */
  ghost predicate WholeCall(s: State, first: Step, rest: seq<Step>) {
    && Enabled(s, first) && Starts(first)
    && Runs(Next(s, first), rest)
    && first.t < |Next(s, first).threads| && Within(Next(s, first), rest, first.t)
    && first.t < |Final(Next(s, first), rest).threads| && Final(Next(s, first), rest).threads[first.t].Idle?
  }

  ghost function EffectOf(s: State, first: Step, rest: seq<Step>): Effect
    requires Enabled(s, first) && Runs(Next(s, first), rest)
  {
    Effects(Next(s, first), rest, first.t, After(s, first, first.t, NO_EFFECT))
  }

  /** In every interleaving, by the time a call returns: a signal has moved
      exactly one unit from the count to the tokens, or last saw a zero count and
      moved nothing; a broadcast has moved all of the count that it last saw; a
      wait has added one to the count and taken one token, or, when it gave up,
      has taken its own count back unless it last saw zero; a wait whose deadline
      conversion failed has taken one from the count unless it last saw zero. */
  lemma CallEffect(s: State, first: Step, rest: seq<Step>)
    requires WholeCall(s, first, rest) && s.waiting < WORD
    ensures Done(KindOf(first), EffectOf(s, first, rest))
  {
    FirstStep(s, first);
    StepInRange(s, first);
    CallSoFar(KindOf(first), Next(s, first), rest, first.t, After(s, first, first.t, NO_EFFECT));
  }

  // ----- A call that runs alone returns -----

  /** Thread `t` waits for a token that is not there, and has no deadline. */
  predicate MustWait(s: State, t: nat)
    requires t < |s.threads|
  {
    var pc := s.threads[t];
    (pc.Registered? || pc.Blocked?) && !pc.timed && s.tokens == 0
  }

  ghost predicate Alone(steps: seq<Step>, t: nat) { forall i :: 0 <= i < |steps| ==> steps[i].t == t }

  /** A run of `t` alone to its return. */
  ghost predicate Returns(s: State, steps: seq<Step>, t: nat) {
    && t < |s.threads| && Runs(s, steps) && Alone(steps, t)
    && t < |Final(s, steps).threads| && Final(s, steps).threads[t].Idle?
  }

  lemma Prepended(s: State, step: Step, rest: seq<Step>) returns (steps: seq<Step>)
    requires Enabled(s, step) && Returns(Next(s, step), rest, step.t)
    ensures Returns(s, steps, step.t)
  {
    StepKeepsThreads(s, step);
    steps := [step] + rest;
    assert steps[1..] == rest;
  }

  lemma StepKeepsThreads(s: State, step: Step)
    requires Enabled(s, step)
    ensures |Next(s, step).threads| == |s.threads|
  {}

  lemma Back(s: State, t: nat)
    requires t < |s.threads| && s.threads[t].Idle?
    ensures Returns(s, [], t)
  {}

  lemma {:induction false} GivesReturn(s: State, t: nat) returns (steps: seq<Step>)
    requires t < |s.threads| && s.threads[t].Giving? && s.threads[t].left > 0
    ensures Returns(s, steps, t)
    decreases s.threads[t].left
  {
    var g := Next(s, Give(t));
    if s.threads[t].left == 1 {
      Back(g, t);
      steps := [];
    } else {
      steps := GivesReturn(g, t);
    }
    hide Returns;
    steps := Prepended(s, Give(t), steps);
  }

  /** A compare-and-swap that nobody disturbs. */
  lemma SwapReturns(s: State, t: nat) returns (steps: seq<Step>)
    requires t < |s.threads| && s.threads[t].Swapping? && s.threads[t].seen == s.waiting
    ensures Returns(s, steps, t)
  {
    var g := Next(s, Swap(t));
    if g.threads[t].Idle? {
      Back(g, t);
      steps := [];
    } else {
      steps := GivesReturn(g, t);
    }
    hide Returns;
    steps := Prepended(s, Swap(t), steps);
  }

  lemma ReadReturns(s: State, t: nat) returns (steps: seq<Step>)
    requires t < |s.threads| && s.threads[t].Reading?
    ensures Returns(s, steps, t)
  {
    steps := SwapReturns(Next(s, Read(t)), t);
    hide Returns;
    steps := Prepended(s, Read(t), steps);
  }

  lemma LoopReturns(s: State, t: nat) returns (steps: seq<Step>)
    requires t < |s.threads| && s.threads[t].Swapping?
    ensures Returns(s, steps, t)
  {
    if s.threads[t].seen == s.waiting {
      steps := SwapReturns(s, t);
    } else {
      var g := Next(s, Swap(t));
      if s.threads[t].seen == 0 {
        Back(g, t);
        steps := [];
      } else {
        steps := ReadReturns(g, t);
      }
      hide Returns;
      steps := Prepended(s, Swap(t), steps);
    }
  }

  lemma BlockedReturns(s: State, t: nat) returns (steps: seq<Step>)
    requires t < |s.threads| && s.threads[t].Blocked? && !MustWait(s, t)
    ensures Returns(s, steps, t)
  {
    var step := if s.tokens > 0 then Take(t) else Timeout(t);
    var g := Next(s, step);
    if s.tokens > 0 {
      Back(g, t);
      steps := [];
    } else {
      steps := LoopReturns(g, t);
    }
    hide Returns;
    steps := Prepended(s, step, steps);
  }

  ghost predicate GivesLeft(s: State) {
    forall t :: 0 <= t < |s.threads| && s.threads[t].Giving? ==> s.threads[t].left > 0
  }

  lemma {:induction false} RunLeavesGives(s: State, steps: seq<Step>)
    requires GivesLeft(s) && Runs(s, steps)
    ensures GivesLeft(Final(s, steps))
    decreases |steps|
  {
    if steps != [] {
      RunLeavesGives(Next(s, steps[0]), steps[1..]);
    }
  }

  /** In every reachable state, a thread inside a call returns by its own steps
      alone, unless it waits without a deadline for a token that is not there. */
  lemma ReturnsAlone(threads: nat, before: seq<Step>, t: nat) returns (steps: seq<Step>)
    requires Runs(Init(threads), before) && t < |Final(Init(threads), before).threads|
    requires !MustWait(Final(Init(threads), before), t)
    ensures Returns(Final(Init(threads), before), steps, t)
  {
    var s := Final(Init(threads), before);
    RunLeavesGives(Init(threads), before);
    match s.threads[t]
    case Idle =>
      Back(s, t);
      steps := [];
    case Registered(_, _) =>
      steps := BlockedReturns(Next(s, Unlock(t, true)), t);
      steps := Prepended(s, Unlock(t, true), steps);
    case Blocked(_, _) => steps := BlockedReturns(s, t);
    case Reading(_) => steps := ReadReturns(s, t);
    case Swapping(_, _) => steps := LoopReturns(s, t);
    case Giving(_) => steps := GivesReturn(s, t);
  }
}
