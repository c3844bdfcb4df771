/** The arbiter of the IMU's SPI bus: gyroscope, accelerometer and temperature
    share one DMA transfer through flag bits. Each interrupt handler and each
    pass of the task over the flags is one atomic step. */
module ImuBus {

  /** A flag byte by its four bits: data ready and waiting for the bus; transfer
      started and completion not yet handled; transfer complete; task told. */
  datatype Flags = Flags(dr: bool, spi: bool, update: bool, notify: bool)

  datatype Device = Gyro | Accel | Temp

  /** The DMA stream: its enable bit, the device it was programmed for and its
      transfer-complete flag. The constant `clears` says whether starting a
      transfer clears the flag of the one before: the routine that starts one,
      `SPI1_DMA_enable`, is not part of this model. */
  datatype Dma = Dma(on: bool, owner: Device, complete: bool, clears: bool)

  /** The flag bytes, the chip selects, the stream and the start flag. `armed`
      records that a handler has arbitrated since the start. */
  datatype State = State(
    gyro: Flags, accel: Flags, temp: Flags, gyroSelected: bool, accelSelected: bool,
    dma: Dma, started: bool, armed: bool)

  const NO_FLAGS := Flags(false, false, false, false)

  function Initial(clears: bool): State {
    State(NO_FLAGS, NO_FLAGS, NO_FLAGS, false, false, Dma(false, Gyro, false, clears), false, false)
  }

  // ----- The handlers -----

  predicate GyroTurn(s: State) { s.gyro.dr && !s.dma.on && !s.accel.spi && !s.temp.spi }

  predicate AccelTurn(s: State) { s.accel.dr && !s.dma.on && !s.gyro.spi && !s.temp.spi }

  predicate TempTurn(s: State) { s.temp.dr && !s.dma.on && !s.gyro.spi && !s.accel.spi }

  /** The stream runs for device `d`. */
  function Enabled(s: State, d: Device): State {
    s.(dma := Dma(true, d, s.dma.complete && !s.dma.clears, s.dma.clears))
  }

  function GyroStarted(s: State): State {
    Enabled(s.(gyro := s.gyro.(dr := false, spi := true), gyroSelected := true), Gyro)
  }

  function AccelStarted(s: State): State {
    Enabled(s.(accel := s.accel.(dr := false, spi := true), accelSelected := true), Accel)
  }

  function TempStarted(s: State): State {
    Enabled(s.(temp := s.temp.(dr := false, spi := true), accelSelected := true), Temp)
  }

  /** `imu_cmd_spi_dma`: start the first waiting device if the bus is free. */
  function Arbitrate(s: State): State {
    if GyroTurn(s) then GyroStarted(s)
    else if AccelTurn(s) then AccelStarted(s)
    else if TempTurn(s) then TempStarted(s)
    else s
  }

  function AccelReady(s: State): State {
    var flagged := s.(accel := s.accel.(dr := true), temp := s.temp.(dr := true));
    if s.started then Arbitrate(flagged).(armed := true) else flagged
  }

  function GyroReady(s: State): State {
    var flagged := s.(gyro := s.gyro.(dr := true));
    if s.started then Arbitrate(flagged).(armed := true) else flagged
  }

  /** The stream finishes: the hardware clears the enable bit and raises the
      transfer-complete flag. */
  function TransferDone(s: State): State {
    if s.dma.on then s.(dma := s.dma.(on := false, complete := true)) else s
  }

  function Cleared(s: State): State { s.(dma := s.dma.(complete := false)) }

  function RetireGyro(s: State): State {
    if s.gyro.spi then s.(gyro := s.gyro.(spi := false, update := true), gyroSelected := false) else s
  }

  function RetireAccel(s: State): State {
    if s.accel.spi then s.(accel := s.accel.(spi := false, update := true), accelSelected := false) else s
  }

  function RetireTemp(s: State): State {
    if s.temp.spi then s.(temp := s.temp.(spi := false, update := true), accelSelected := false) else s
  }

  /** The first half of `spiDmaCallback`: retire whatever was transferring. */
  function Retire(s: State): State { RetireTemp(RetireAccel(RetireGyro(s))) }

  /** The last part: tell the task of new gyroscope data. */
  function Notified(s: State): State {
    if s.gyro.update then s.(gyro := s.gyro.(update := false, notify := true)) else s
  }

  function Callback(s: State): State {
    if s.dma.complete then Notified(Arbitrate(Retire(Cleared(s))).(armed := true)) else s
  }

  function ConsumeGyro(s: State): State {
    if s.gyro.notify then s.(gyro := s.gyro.(notify := false)) else s
  }

  function ConsumeAccel(s: State): State {
    if s.accel.update then s.(accel := s.accel.(update := false)) else s
  }

  function ConsumeTemp(s: State): State {
    if s.temp.update then s.(temp := s.temp.(update := false)) else s
  }

  /** The task reads what is new. */
  function Consume(s: State): State { ConsumeTemp(ConsumeAccel(ConsumeGyro(s))) }

  datatype Step = StartDma | OnAccelReady | OnGyroReady | OnTransferDone | OnCallback | OnConsume

  function Next(s: State, step: Step): State {
    match step
    case StartDma => s.(started := true)
    case OnAccelReady => AccelReady(s)
    case OnGyroReady => GyroReady(s)
    case OnTransferDone => TransferDone(s)
    case OnCallback => Callback(s)
    case OnConsume => Consume(s)
  }

  // ----- What every step keeps -----

  ghost predicate Exclusive(s: State) {
    && !(s.gyro.spi && s.accel.spi)
    && !(s.gyro.spi && s.temp.spi)
    && !(s.accel.spi && s.temp.spi)
  }

  ghost predicate SelectsMatch(s: State) {
    && (s.gyroSelected <==> s.gyro.spi)
    && (s.accelSelected <==> s.accel.spi || s.temp.spi)
  }

  predicate Transferring(s: State) { s.gyro.spi || s.accel.spi || s.temp.spi }

  predicate Requested(s: State) { s.gyro.dr || s.accel.dr || s.temp.dr }

  /** A completion interrupt is still to come. */
  predicate InFlight(s: State) { s.dma.on || s.dma.complete }

  /** One owner, matching chip selects, and a completion to come for it. */
  ghost predicate OnBus(s: State) {
    Exclusive(s) && SelectsMatch(s) && (Transferring(s) ==> InFlight(s))
  }

  ghost predicate Inv(s: State) {
    && OnBus(s)
    && (s.armed && Requested(s) ==> InFlight(s))
    && (InFlight(s) || s.armed ==> s.started)
  }

  /** Device `d` still waits in `g`, or `g` has started its transfer. */
  predicate KeptOrStarted(s: State, g: State, d: Device) {
    FlagsOf(s, d).dr && !FlagsOf(g, d).dr ==> g.dma.on && g.dma.owner == d && FlagsOf(g, d).spi
  }

  function FlagsOf(s: State, d: Device): Flags {
    match d case Gyro => s.gyro case Accel => s.accel case Temp => s.temp
  }

  predicate NothingDropped(s: State, g: State) {
    KeptOrStarted(s, g, Gyro) && KeptOrStarted(s, g, Accel) && KeptOrStarted(s, g, Temp)
  }

  /** After arbitration nothing waits for a bus that nobody will hand on. */
  lemma ArbitrateKeeps(s: State)
    requires OnBus(s) && s.started
    ensures Inv(Arbitrate(s).(armed := true))
    ensures NothingDropped(s, Arbitrate(s))
  {}

  lemma RetireKeeps(s: State)
    requires Exclusive(s) && SelectsMatch(s)
    ensures var g := Retire(s);
      && !Transferring(g) && !g.gyroSelected && !g.accelSelected
      && (g.gyro.dr <==> s.gyro.dr) && (g.accel.dr <==> s.accel.dr) && (g.temp.dr <==> s.temp.dr)
      && g.dma == s.dma && (g.started <==> s.started)
  {}

  lemma {:induction false} AccelReadyKeeps(s: State)
    requires Inv(s)
    ensures Inv(AccelReady(s)) && NothingDropped(s, AccelReady(s))
  {
    hide Arbitrate;
    if s.started {
      ArbitrateKeeps(s.(accel := s.accel.(dr := true), temp := s.temp.(dr := true)));
    }
  }

  lemma {:induction false} GyroReadyKeeps(s: State)
    requires Inv(s)
    ensures Inv(GyroReady(s)) && NothingDropped(s, GyroReady(s))
  {
    hide Arbitrate;
    if s.started {
      ArbitrateKeeps(s.(gyro := s.gyro.(dr := true)));
    }
  }

  lemma CallbackKeeps(s: State)
    requires Inv(s)
    ensures Inv(Callback(s)) && NothingDropped(s, Callback(s))
  {
    hide Arbitrate, Retire;
    if s.dma.complete {
      RetireKeeps(Cleared(s));
      ArbitrateKeeps(Retire(Cleared(s)));
    }
  }

  /** Equal but for the bits that only the task looks at. */
  predicate SameBus(s: State, g: State) {
    && (g.gyro.dr <==> s.gyro.dr) && (g.gyro.spi <==> s.gyro.spi)
    && (g.accel.dr <==> s.accel.dr) && (g.accel.spi <==> s.accel.spi)
    && (g.temp.dr <==> s.temp.dr) && (g.temp.spi <==> s.temp.spi)
    && (g.gyroSelected <==> s.gyroSelected) && (g.accelSelected <==> s.accelSelected)
    && g.dma == s.dma
    && (g.started <==> s.started) && (g.armed <==> s.armed)
  }

  lemma SameBusKeeps(s: State, g: State)
    requires Inv(s) && SameBus(s, g)
    ensures Inv(g) && NothingDropped(s, g)
  {}

  lemma {:induction false} ConsumeGyroSame(s: State)
    ensures SameBus(s, ConsumeGyro(s))
  {}

  lemma {:induction false} ConsumeAccelSame(s: State)
    ensures SameBus(s, ConsumeAccel(s))
  {}

  lemma {:induction false} ConsumeTempSame(s: State)
    ensures SameBus(s, ConsumeTemp(s))
  {}

  lemma {:induction false} SameBusTransitive(a: State, b: State, c: State)
    requires SameBus(a, b) && SameBus(b, c)
    ensures SameBus(a, c)
  {}

  lemma ConsumeSame(s: State)
    ensures SameBus(s, Consume(s))
  {
    hide SameBus, ConsumeGyro, ConsumeAccel, ConsumeTemp;
    var a := ConsumeGyro(s);
    var b := ConsumeAccel(a);
    ConsumeGyroSame(s);
    ConsumeAccelSame(a);
    ConsumeTempSame(b);
    SameBusTransitive(s, a, b);
    SameBusTransitive(s, b, ConsumeTemp(b));
  }

  lemma ConsumeKeeps(s: State)
    requires Inv(s)
    ensures Inv(Consume(s)) && NothingDropped(s, Consume(s))
  {
    hide Consume, SameBus;
    ConsumeSame(s);
    SameBusKeeps(s, Consume(s));
  }

  lemma StepKeeps(s: State, step: Step)
    requires Inv(s)
    ensures Inv(Next(s, step)) && NothingDropped(s, Next(s, step))
  {
    hide AccelReady, GyroReady, Callback, Consume;
    AccelReadyKeeps(s);
    GyroReadyKeeps(s);
    CallbackKeeps(s);
    ConsumeKeeps(s);
  }

  ghost function Run(s: State, steps: seq<Step>): State
    decreases |steps|
  {
    if steps == [] then s else Run(Next(s, steps[0]), steps[1..])
  }

  lemma {:induction false} RunKeeps(s: State, steps: seq<Step>)
    requires Inv(s)
    ensures Inv(Run(s, steps))
    decreases |steps|
  {
    if steps != [] {
      StepKeeps(s, steps[0]);
      RunKeeps(Next(s, steps[0]), steps[1..]);
    }
  }

  /** In every reachable state at most one device owns the bus, the chip
      selects follow the flags, and a pending request has a completion coming
      that will arbitrate again. */
  lemma EveryRun(clears: bool, steps: seq<Step>)
    ensures Inv(Run(Initial(clears), steps))
  {
    RunKeeps(Initial(clears), steps);
  }

  /** With DMA started, every data-ready handler and every handled completion
      leaves each pending request with a transfer in flight. */
  lemma PendingMeansInFlight(clears: bool, steps: seq<Step>, step: Step)
    requires var s := Run(Initial(clears), steps);
      (s.started && (step.OnAccelReady? || step.OnGyroReady?)) || (s.dma.complete && step.OnCallback?)
    ensures var g := Next(Run(Initial(clears), steps), step);
      Requested(g) ==> InFlight(g)
  {
    var s := Run(Initial(clears), steps);
    EveryRun(clears, steps);
    StepKeeps(s, step);
  }

  // ----- No request is dropped -----

  /** A data-ready bit goes down only in a step that starts that device's
      transfer. */
  lemma RequestEndsInTransfer(clears: bool, steps: seq<Step>, step: Step, d: Device)
    ensures KeptOrStarted(Run(Initial(clears), steps), Next(Run(Initial(clears), steps), step), d)
  {
    EveryRun(clears, steps);
    StepKeeps(Run(Initial(clears), steps), step);
  }

  // ----- Which requests a handler records -----

  /** The step announces data of device `d`. */
  predicate Announces(step: Step, d: Device) {
    match d
    case Gyro => step.OnGyroReady?
    case Accel => step.OnAccelReady?
    case Temp => step.OnAccelReady?
  }

  /** The transfer of `d` runs. */
  predicate Running(s: State, d: Device) { s.dma.on && s.dma.owner == d && FlagsOf(s, d).spi }

  /** From `s` to `g`, a request of `d` was made only if `asked`, was served only
      by starting its transfer, and what the task sees did not change. */
  ghost predicate Records(s: State, g: State, d: Device, asked: bool) {
    && (asked || FlagsOf(s, d).dr ==> FlagsOf(g, d).dr || Running(g, d))
    && (FlagsOf(g, d).dr ==> asked || FlagsOf(s, d).dr)
    && (FlagsOf(g, d).spi ==> FlagsOf(s, d).spi || (Running(g, d) && (asked || FlagsOf(s, d).dr)))
    && (FlagsOf(s, d).spi ==> FlagsOf(g, d).spi)
    && FlagsOf(g, d).update == FlagsOf(s, d).update && FlagsOf(g, d).notify == FlagsOf(s, d).notify
  }

  lemma ArbitrateRecords(s: State, d: Device)
    ensures Records(s, Arbitrate(s), d, false)
  {}

  lemma AccelReadyRecords(s: State, d: Device)
    ensures Records(s, AccelReady(s), d, Announces(OnAccelReady, d))
  {
    hide Arbitrate;
    ArbitrateRecords(s.(accel := s.accel.(dr := true), temp := s.temp.(dr := true)), d);
  }

  lemma GyroReadyRecords(s: State, d: Device)
    ensures Records(s, GyroReady(s), d, Announces(OnGyroReady, d))
  {
    hide Arbitrate;
    ArbitrateRecords(s.(gyro := s.gyro.(dr := true)), d);
  }

  /** A data-ready handler makes requests for its own devices and no other; each
      is pending afterwards or its transfer runs. No other step makes a request. */
  lemma HandlersRecord(s: State, step: Step, d: Device)
    ensures step.OnAccelReady? || step.OnGyroReady? ==> Records(s, Next(s, step), d, Announces(step, d))
    ensures !step.OnAccelReady? && !step.OnGyroReady? && FlagsOf(Next(s, step), d).dr ==> FlagsOf(s, d).dr
    ensures step.StartDma? ==> Next(s, step) == s.(started := true)
  {
    hide AccelReady, GyroReady, Callback, Consume, Records;
    AccelReadyRecords(s, d);
    GyroReadyRecords(s, d);
    ConsumeSame(s);
    CallbackMakesNoRequest(s, d);
  }

  lemma CallbackMakesNoRequest(s: State, d: Device)
    ensures FlagsOf(Callback(s), d).dr ==> FlagsOf(s, d).dr
  {
    hide Arbitrate, Retire;
    RetireKeepsRequests(Cleared(s), d);
    ArbitrateRecords(Retire(Cleared(s)), d);
  }

  lemma RetireKeepsRequests(s: State, d: Device)
    ensures FlagsOf(Retire(s), d).dr == FlagsOf(s, d).dr
  {}

  // ----- Every completed transfer reaches the task -----

  /** The bit by which the task learns of new data of device `d`. */
  predicate Reported(s: State, d: Device) {
    match d case Gyro => s.gyro.notify case Accel => s.accel.update case Temp => s.temp.update
  }

  /** No report bit goes down. */
  predicate ReportsKept(s: State, g: State) {
    && (s.gyro.update ==> g.gyro.update) && (s.gyro.notify ==> g.gyro.notify)
    && (s.accel.update ==> g.accel.update) && (s.temp.update ==> g.temp.update)
  }

  lemma {:induction false} ArbitrateReports(s: State)
    ensures ReportsKept(s, Arbitrate(s))
  {}

  lemma {:induction false} RetireReports(s: State)
    ensures var g := Retire(s);
      && ReportsKept(s, g) && (s.gyro.spi ==> g.gyro.update)
      && (s.accel.spi ==> g.accel.update) && (s.temp.spi ==> g.temp.update)
  {}

  lemma {:induction false} CallbackReports(s: State, d: Device)
    ensures s.dma.complete && FlagsOf(s, d).spi ==> Reported(Callback(s), d)
    ensures Reported(s, d) ==> Reported(Callback(s), d)
  {
    hide Arbitrate, Retire;
    RetireReports(Cleared(s));
    ArbitrateReports(Retire(Cleared(s)));
  }

  lemma {:induction false} AccelReadyReports(s: State)
    ensures ReportsKept(s, AccelReady(s))
  {
    hide Arbitrate;
    ArbitrateReports(s.(accel := s.accel.(dr := true), temp := s.temp.(dr := true)));
  }

  lemma {:induction false} GyroReadyReports(s: State)
    ensures ReportsKept(s, GyroReady(s))
  {
    hide Arbitrate;
    ArbitrateReports(s.(gyro := s.gyro.(dr := true)));
  }

  lemma {:induction false} ConsumeTakesReports(s: State, d: Device)
    ensures !Reported(Consume(s), d)
  {}

  /** A handled completion reports the device that was transferring, no step but
      the task's own pass takes a report away, and that pass takes them all. */
  lemma {:induction false} CompletionIsReported(s: State, step: Step, d: Device)
    ensures step.OnCallback? && s.dma.complete && FlagsOf(s, d).spi ==> Reported(Next(s, step), d)
    ensures !step.OnConsume? && Reported(s, d) ==> Reported(Next(s, step), d)
    ensures step.OnConsume? ==> !Reported(Next(s, step), d)
  {
    hide AccelReady, GyroReady, Callback, Consume;
    CallbackReports(s, d);
    AccelReadyReports(s);
    GyroReadyReports(s);
    ConsumeTakesReports(s, d);
  }

  // ----- When a transfer keeps its chip select -----

  /** The device being transferred is still marked, so its chip select is low. */
  predicate OwnerSelected(s: State) { s.dma.on ==> FlagsOf(s, s.dma.owner).spi }

  /** A step deselects the device in transfer exactly when it is a callback that
      finds the next transfer already running. */
  lemma OwnerSelectedKeptIff(s: State, step: Step)
    requires Inv(s) && OwnerSelected(s)
    ensures OwnerSelected(Next(s, step)) <==> !(step.OnCallback? && s.dma.complete && s.dma.on)
  {
    hide Inv, Consume, Callback, Arbitrate;
    ConsumeSame(s);
    CallbackSelects(s);
    ArbitrateSelects(s.(accel := s.accel.(dr := true), temp := s.temp.(dr := true)));
    ArbitrateSelects(s.(gyro := s.gyro.(dr := true)));
  }

  lemma ArbitrateSelects(s: State)
    ensures OwnerSelected(Arbitrate(s)) <==> OwnerSelected(s)
  {}

  lemma NotifiedSelects(s: State)
    ensures OwnerSelected(Notified(s.(armed := true))) <==> OwnerSelected(s)
  {}

  lemma CallbackSelects(s: State)
    requires Inv(s) && OwnerSelected(s)
    ensures OwnerSelected(Callback(s)) <==> !(s.dma.complete && s.dma.on)
  {
    hide Retire, Arbitrate, Notified;
    if s.dma.complete {
      var r := Retire(Cleared(s));
      RetireKeeps(Cleared(s));
      assert OwnerSelected(r) <==> !s.dma.on;
      hide OwnerSelected;
      ArbitrateSelects(r);
      NotifiedSelects(Arbitrate(r));
    }
  }

  /** Where starting a transfer leaves the flag of the one before set, that
      happens: a second data-ready between the end of a transfer and its
      callback restarts the gyroscope, and the callback then raises its chip
      select with the transfer running. */
  lemma RestartBeforeCallbackDeselects()
    ensures var s := Run(Initial(false), [StartDma, OnGyroReady, OnTransferDone, OnGyroReady, OnCallback]);
      s.dma.on && s.dma.owner == Gyro && !s.gyroSelected
  {}

  /** Where it clears the flag, no transfer runs with a completion to handle. */
  ghost predicate Handled(s: State) { s.dma.clears && OwnerSelected(s) && !(s.dma.on && s.dma.complete) }

  lemma ArbitrateHandled(s: State)
    requires s.dma.clears && !(s.dma.on && s.dma.complete)
    ensures Arbitrate(s).dma.clears && !(Arbitrate(s).dma.on && Arbitrate(s).dma.complete)
  {}

  lemma CallbackHandled(s: State)
    requires s.dma.clears && !(s.dma.on && s.dma.complete)
    ensures Callback(s).dma.clears && !(Callback(s).dma.on && Callback(s).dma.complete)
  {
    hide Retire, Arbitrate;
    RetireKeepsStream(Cleared(s));
    ArbitrateHandled(Retire(Cleared(s)));
  }

  lemma RetireKeepsStream(s: State)
    ensures Retire(s).dma == s.dma
  {}

  lemma StepHandled(s: State, step: Step)
    requires Inv(s) && Handled(s)
    ensures Handled(Next(s, step))
  {
    OwnerSelectedKeptIff(s, step);
    hide Inv, Consume, Callback, Arbitrate;
    ConsumeSame(s);
    CallbackHandled(s);
    ArbitrateHandled(s.(accel := s.accel.(dr := true), temp := s.temp.(dr := true)));
    ArbitrateHandled(s.(gyro := s.gyro.(dr := true)));
  }

  lemma {:induction false} RunHandled(s: State, steps: seq<Step>)
    requires Inv(s) && Handled(s)
    ensures Handled(Run(s, steps))
    decreases |steps|
  {
    hide Inv, Handled;
    if steps != [] {
      StepKeeps(s, steps[0]);
      StepHandled(s, steps[0]);
      RunHandled(Next(s, steps[0]), steps[1..]);
    }
  }

  /** The device in transfer is selected in every reachable state if and only if
      starting a transfer clears the flag of the one before. */
  lemma AlwaysSelectedIff(clears: bool)
    ensures (forall steps :: OwnerSelected(Run(Initial(clears), steps))) <==> clears
  {
    if clears {
      forall steps ensures OwnerSelected(Run(Initial(clears), steps)) {
        RunHandled(Initial(clears), steps);
      }
    } else {
      var steps := [StartDma, OnGyroReady, OnTransferDone, OnGyroReady, OnCallback];
      RestartBeforeCallbackDeselects();
      EveryRun(false, steps);
      assert !OwnerSelected(Run(Initial(clears), steps));
    }
  }
}
