/** How long a request waits for the IMU's bus. The arbiter has fixed priority:
    gyroscope, accelerometer, temperature. */
module ImuService {
  import opened ImuBus

  /** The step makes data ready for a device of higher priority than `d`. */
  predicate RaisesHigher(step: Step, d: Device) {
    match d
    case Gyro => false
    case Accel => step.OnGyroReady?
    case Temp => step.OnGyroReady? || step.OnAccelReady?
  }

  ghost predicate NoHigher(steps: seq<Step>, d: Device) {
    forall i :: 0 <= i < |steps| ==> !RaisesHigher(steps[i], d)
  }

  /** The step handles a completed transfer. */
  predicate Completion(s: State, step: Step) { step.OnCallback? && s.dma.complete }

  ghost function Completions(s: State, steps: seq<Step>): nat
    decreases |steps|
  {
    if steps == [] then 0
    else (if Completion(s, steps[0]) then 1 else 0) + Completions(Next(s, steps[0]), steps[1..])
  }

  /** The request of `d` is pending in every state of the run. */
  ghost predicate Waits(s: State, steps: seq<Step>, d: Device)
    decreases |steps|
  {
    FlagsOf(s, d).dr && (steps == [] || Waits(Next(s, steps[0]), steps[1..], d))
  }

  // ----- A bound on the wait -----

  /** A transfer that was restarted before its callback is still marked, and
      there is none where starting clears the flag. */
  ghost predicate RestartMarked(s: State) { s.dma.on && s.dma.complete ==> Transferring(s) && !s.dma.clears }

  ghost predicate Sound(s: State) { Inv(s) && RestartMarked(s) }

  /** At most this many completions until the request of `d` is served. Each
      pending request of higher priority costs one. So does a restart before the
      callback, where starting leaves the flag set. */
  ghost function Rank(s: State, d: Device): nat {
    match d
    case Gyro => GyroRank(s)
    case Accel =>
      if s.gyro.dr then GyroRank(s) + 1
      else if !s.dma.clears && ((s.dma.on && s.dma.complete) || s.accel.spi || s.temp.spi) then 2
      else 1
    case Temp =>
      (if s.dma.on && s.dma.complete && !s.dma.clears then 1 else 0) +
      (if s.gyro.dr then 1 else 0) + (if s.accel.dr then 1 else 0) + 1
  }

  ghost function GyroRank(s: State): nat { if Transferring(s) && !s.dma.clears then 2 else 1 }

  function Bound(d: Device, clears: bool): nat {
    (match d case Gyro => 1 case Accel => 2 case Temp => 3) + if clears then 0 else 1
  }

  ghost predicate RankKept(s: State, g: State, d: Device) {
    FlagsOf(s, d).dr && FlagsOf(g, d).dr ==> Rank(g, d) <= Rank(s, d)
  }

  lemma ArbitrateRank(s: State, d: Device)
    requires OnBus(s) && RestartMarked(s)
    ensures RestartMarked(Arbitrate(s)) && RankKept(s, Arbitrate(s), d)
  {}

  lemma AccelReadyRank(s: State, d: Device)
    requires Sound(s)
    ensures RestartMarked(AccelReady(s))
    ensures !RaisesHigher(OnAccelReady, d) ==> RankKept(s, AccelReady(s), d)
  {
    hide Arbitrate;
    ArbitrateRank(s.(accel := s.accel.(dr := true), temp := s.temp.(dr := true)), d);
  }

  lemma GyroReadyRank(s: State, d: Device)
    requires Sound(s)
    ensures RestartMarked(GyroReady(s))
    ensures !RaisesHigher(OnGyroReady, d) ==> RankKept(s, GyroReady(s), d)
  {
    hide Arbitrate;
    ArbitrateRank(s.(gyro := s.gyro.(dr := true)), d);
  }

  ghost function HigherPending(s: State, d: Device): nat {
    if d.Accel? then 1 else (if s.gyro.dr then 1 else 0) + (if s.accel.dr then 1 else 0)
  }

  /** After a handled completion that left the request of `d` waiting. */
  lemma HandOnRank(s: State, d: Device)
    requires !Transferring(s) && !s.dma.complete && FlagsOf(s, d).dr && FlagsOf(Arbitrate(s), d).dr
    ensures RestartMarked(Arbitrate(s))
    ensures s.dma.on ==> Arbitrate(s) == s
    ensures !s.dma.on ==> !d.Gyro? && Rank(Arbitrate(s), d) <= HigherPending(s, d)
    ensures !s.dma.on && d.Accel? ==> s.gyro.dr
  {
    if s.dma.on {
      assert Arbitrate(s) == s;
    } else if s.gyro.dr {
      assert Arbitrate(s) == GyroStarted(s);
    } else if s.accel.dr {
      assert Arbitrate(s) == AccelStarted(s);
    }
  }

  lemma NotifiedRank(s: State, d: Device)
    ensures Rank(Notified(s), d) == Rank(s, d) && (FlagsOf(Notified(s), d).dr <==> FlagsOf(s, d).dr)
    ensures RestartMarked(Notified(s)) <==> RestartMarked(s)
  {}

  lemma CallbackMarked(s: State)
    ensures s.dma.complete ==> RestartMarked(Callback(s))
  {
    hide Arbitrate, Retire;
    RetireKeepsStream(Cleared(s));
    ArbitrateCompletes(Retire(Cleared(s)));
  }

  lemma ArbitrateCompletes(s: State)
    ensures Arbitrate(s).dma.complete ==> s.dma.complete
  {}

  lemma CallbackRank(s: State, d: Device)
    requires Sound(s) && s.dma.complete && FlagsOf(s, d).dr && FlagsOf(Callback(s), d).dr
    ensures Rank(Callback(s), d) < Rank(s, d)
  {
    hide Arbitrate, Retire, Notified;
    var r := Retire(Cleared(s));
    RetireKeeps(Cleared(s));
    NotifiedRank(Arbitrate(r).(armed := true), d);
    HandOnRank(r, d);
  }

  lemma StepRank(s: State, step: Step, d: Device)
    requires Sound(s)
    ensures Sound(Next(s, step))
    ensures !RaisesHigher(step, d) && FlagsOf(s, d).dr && FlagsOf(Next(s, step), d).dr ==>
      Rank(Next(s, step), d) + (if Completion(s, step) then 1 else 0) <= Rank(s, d)
  {
    hide AccelReady, GyroReady, Callback, Consume, Inv, RaisesHigher;
    StepKeeps(s, step);
    match step
    case OnAccelReady => AccelReadyRank(s, d);
    case OnGyroReady => GyroReadyRank(s, d);
    case OnCallback =>
      if s.dma.complete {
        CallbackMarked(s);
        if FlagsOf(s, d).dr && FlagsOf(Callback(s), d).dr { CallbackRank(s, d); }
      } else {
        IdleCallback(s);
      }
    case OnConsume => ConsumeSame(s);
    case _ =>
  }

  lemma IdleCallback(s: State)
    requires !s.dma.complete
    ensures Callback(s) == s
  {}

  lemma {:induction false} WaitWithinRank(s: State, steps: seq<Step>, d: Device)
    requires Sound(s) && Waits(s, steps, d) && NoHigher(steps, d)
    ensures Completions(s, steps) < Rank(s, d)
    decreases |steps|
  {
    hide Sound, Rank;
    RankPositive(s, d);
    if steps != [] {
      StepRank(s, steps[0], d);
      WaitWithinRank(Next(s, steps[0]), steps[1..], d);
    }
  }

  lemma RankPositive(s: State, d: Device)
    ensures 0 < Rank(s, d) <= Bound(d, s.dma.clears)
  {}

  lemma {:induction false} RunSound(s: State, steps: seq<Step>)
    requires Sound(s)
    ensures Sound(Run(s, steps)) && Run(s, steps).dma.clears == s.dma.clears
    decreases |steps|
  {
    hide Sound, Next;
    if steps != [] {
      StepRank(s, steps[0], Gyro);
      StepConstant(s, steps[0]);
      RunSound(Next(s, steps[0]), steps[1..]);
    }
  }

  lemma StepConstant(s: State, step: Step)
    ensures Next(s, step).dma.clears == s.dma.clears
  {
    hide Consume, Callback, Arbitrate;
    ConsumeSame(s);
    CallbackConstant(s);
    ArbitrateConstant(s.(accel := s.accel.(dr := true), temp := s.temp.(dr := true)));
    ArbitrateConstant(s.(gyro := s.gyro.(dr := true)));
  }

  lemma CallbackConstant(s: State)
    ensures Callback(s).dma.clears == s.dma.clears
  {
    hide Retire, Arbitrate;
    RetireKeepsStream(Cleared(s));
    ArbitrateConstant(Retire(Cleared(s)));
  }

  lemma ArbitrateConstant(s: State)
    ensures Arbitrate(s).dma.clears == s.dma.clears
  {}

  /** From every reachable state, as long as no device of higher priority becomes
      ready, a pending request is served by the first completion for the
      gyroscope, the second for the accelerometer and the third for the
      temperature; by one later where starting a transfer does not clear the
      flag of the one before. */
  lemma BoundedWait(clears: bool, before: seq<Step>, steps: seq<Step>, d: Device)
    requires Waits(Run(Initial(clears), before), steps, d) && NoHigher(steps, d)
    ensures Completions(Run(Initial(clears), before), steps) < Bound(d, clears)
  {
    RunSound(Initial(clears), before);
    WaitWithinRank(Run(Initial(clears), before), steps, d);
    RankPositive(Run(Initial(clears), before), d);
  }

  // ----- Runs that wait that long, and runs that wait for ever -----

  lemma Stays(s: State, d: Device)
    requires FlagsOf(s, d).dr
    ensures Waits(s, [], d) && Completions(s, []) == 0 && NoHigher([], d)
  {}

  lemma Then(s: State, step: Step, rest: seq<Step>, d: Device) returns (steps: seq<Step>)
    requires FlagsOf(s, d).dr && Waits(Next(s, step), rest, d)
    ensures steps == [step] + rest && Waits(s, steps, d)
    ensures Completions(s, steps) == (if Completion(s, step) then 1 else 0) + Completions(Next(s, step), rest)
    ensures NoHigher(rest, d) && !RaisesHigher(step, d) ==> NoHigher(steps, d)
  {
    steps := [step] + rest;
    assert steps[1..] == rest;
  }

  /** A device is being served and its completion is not yet due. */
  ghost predicate Busy(s: State, d: Device) {
    Inv(s) && s.dma.on && !s.dma.complete && s.started && FlagsOf(s, d).dr
  }

  /** One gyroscope sample per transfer keeps every other device waiting. */
  lemma GyroRound(s: State, d: Device)
    requires Busy(s, d) && !d.Gyro?
    ensures var s1 := Next(s, OnGyroReady);
      var s2 := Next(s1, OnTransferDone);
      FlagsOf(s1, d).dr && FlagsOf(s2, d).dr && s2.dma.complete && Busy(Next(s2, OnCallback), d)
  {
    hide Inv, Callback;
    var s1 := Next(s, OnGyroReady);
    var s2 := Next(s1, OnTransferDone);
    StepKeeps(s, OnGyroReady);
    StepKeeps(s1, OnTransferDone);
    GyroTakesOver(s2, d);
  }

  lemma GyroTakesOver(s: State, d: Device)
    requires Inv(s) && s.gyro.dr && FlagsOf(s, d).dr && !d.Gyro? && s.dma.complete && !s.dma.on && s.started
    ensures Busy(Callback(s), d)
  {
    CallbackKeeps(s);
    RetireKeeps(Cleared(s));
    hide Retire, Inv;
  }

  lemma {:induction false} Starve(s: State, d: Device, n: nat) returns (steps: seq<Step>)
    requires Busy(s, d) && !d.Gyro?
    ensures Waits(s, steps, d) && Completions(s, steps) == n
    decreases n
  {
    hide Waits, Completions, Next;
    if n == 0 {
      Stays(s, d);
      steps := [];
    } else {
      GyroRound(s, d);
      var s1 := Next(s, OnGyroReady);
      var s2 := Next(s1, OnTransferDone);
      steps := Starve(Next(s2, OnCallback), d, n - 1);
      steps := Then(s2, OnCallback, steps, d);
      steps := Then(s1, OnTransferDone, steps, d);
      steps := Then(s, OnGyroReady, steps, d);
    }
  }

  /** With higher-priority data there is no bound: for every `n`, the
      accelerometer or the temperature can wait through `n` completions. */
  lemma Starvation(clears: bool, d: Device, n: nat) returns (before: seq<Step>, steps: seq<Step>)
    requires !d.Gyro?
    ensures Waits(Run(Initial(clears), before), steps, d) && Completions(Run(Initial(clears), before), steps) == n
  {
    before := [StartDma, OnGyroReady, OnAccelReady];
    var s := Run(Initial(clears), before);
    assert Busy(s, d);
    hide Run;
    steps := Starve(s, d, n);
  }

  /** A request of `d` that waits as long as the bound allows. */
  ghost predicate Reaches(clears: bool, before: seq<Step>, steps: seq<Step>, d: Device) {
    var s := Run(Initial(clears), before);
    Waits(s, steps, d) && NoHigher(steps, d) && Completions(s, steps) == Bound(d, clears) - 1
  }

  lemma GyroRestarted() returns (before: seq<Step>, steps: seq<Step>)
    ensures Reaches(false, before, steps, Gyro)
  {
    hide Waits, Completions, NoHigher;
    before := [StartDma, OnAccelReady, OnGyroReady, OnTransferDone, OnAccelReady];
    var s0 := Run(Initial(false), before);
    var s1 := Next(s0, OnCallback);
    Stays(s1, Gyro);
    steps := [];
    steps := Then(s0, OnCallback, steps, Gyro);
  }

  lemma AccelRestarted() returns (before: seq<Step>, steps: seq<Step>)
    ensures Reaches(false, before, steps, Accel)
  {
    hide Waits, Completions, NoHigher;
    before := [StartDma, OnAccelReady, OnTransferDone, OnCallback,
               OnAccelReady, OnGyroReady, OnTransferDone, OnAccelReady];
    var s0 := Run(Initial(false), before);
    var s1 := Next(s0, OnCallback);
    var s2 := Next(s1, OnTransferDone);
    var s3 := Next(s2, OnCallback);
    Stays(s3, Accel);
    steps := [];
    steps := Then(s2, OnCallback, steps, Accel);
    steps := Then(s1, OnTransferDone, steps, Accel);
    steps := Then(s0, OnCallback, steps, Accel);
  }

  lemma TempRestarted() returns (before: seq<Step>, steps: seq<Step>)
    ensures Reaches(false, before, steps, Temp)
  {
    hide Waits, Completions, NoHigher;
    before := [StartDma, OnGyroReady, OnTransferDone, OnGyroReady, OnGyroReady, OnAccelReady];
    var s0 := Run(Initial(false), before);
    var s1 := Next(s0, OnCallback);
    var s2 := Next(s1, OnTransferDone);
    var s3 := Next(s2, OnCallback);
    var s4 := Next(s3, OnTransferDone);
    var s5 := Next(s4, OnCallback);
    Stays(s5, Temp);
    steps := [];
    steps := Then(s4, OnCallback, steps, Temp);
    steps := Then(s3, OnTransferDone, steps, Temp);
    steps := Then(s2, OnCallback, steps, Temp);
    steps := Then(s1, OnTransferDone, steps, Temp);
    steps := Then(s0, OnCallback, steps, Temp);
  }

  lemma GyroAtOnce() returns (before: seq<Step>, steps: seq<Step>)
    ensures Reaches(true, before, steps, Gyro)
  {
    hide Waits, Completions, NoHigher;
    before := [StartDma, OnAccelReady, OnGyroReady];
    var s0 := Run(Initial(true), before);
    Stays(s0, Gyro);
    steps := [];
  }

  lemma AccelSecond() returns (before: seq<Step>, steps: seq<Step>)
    ensures Reaches(true, before, steps, Accel)
  {
    hide Waits, Completions, NoHigher;
    before := [StartDma, OnAccelReady, OnAccelReady, OnGyroReady];
    var s0 := Run(Initial(true), before);
    var s1 := Next(s0, OnTransferDone);
    var s2 := Next(s1, OnCallback);
    Stays(s2, Accel);
    steps := [];
    steps := Then(s1, OnCallback, steps, Accel);
    steps := Then(s0, OnTransferDone, steps, Accel);
  }

  lemma TempThird() returns (before: seq<Step>, steps: seq<Step>)
    ensures Reaches(true, before, steps, Temp)
  {
    hide Waits, Completions, NoHigher;
    before := [StartDma, OnGyroReady, OnGyroReady, OnAccelReady];
    var s0 := Run(Initial(true), before);
    var s1 := Next(s0, OnTransferDone);
    var s2 := Next(s1, OnCallback);
    var s3 := Next(s2, OnTransferDone);
    var s4 := Next(s3, OnCallback);
    Stays(s4, Temp);
    steps := [];
    steps := Then(s3, OnCallback, steps, Temp);
    steps := Then(s2, OnTransferDone, steps, Temp);
    steps := Then(s1, OnCallback, steps, Temp);
    steps := Then(s0, OnTransferDone, steps, Temp);
  }

  /** The bounds are reached, whatever starting a transfer does to the flag. */
  lemma BoundReached(clears: bool, d: Device) returns (before: seq<Step>, steps: seq<Step>)
    ensures Reaches(clears, before, steps, d)
  {
    if clears {
      match d
      case Gyro => before, steps := GyroAtOnce();
      case Accel => before, steps := AccelSecond();
      case Temp => before, steps := TempThird();
    } else {
      match d
      case Gyro => before, steps := GyroRestarted();
      case Accel => before, steps := AccelRestarted();
      case Temp => before, steps := TempRestarted();
    }
  }
}
