/** The IMU handlers as they run, on flag bytes updated by shifts and masks,
    proved against ImuBus. */
module ImuDriver {
  import opened ImuBus

  const IMU_DR_SHIFT: nat := 0
  const IMU_SPI_SHIFT: nat := 1
  const IMU_UPDATE_SHIFT: nat := 2
  const IMU_NOTIFY_SHIFT: nat := 3

  // ----- Flag bytes -----

  datatype Bit = Dr | Spi | Update | Notify

  function Mask(bit: Bit): bv8 {
    match bit
    case Dr => 1 << IMU_DR_SHIFT
    case Spi => 1 << IMU_SPI_SHIFT
    case Update => 1 << IMU_UPDATE_SHIFT
    case Notify => 1 << IMU_NOTIFY_SHIFT
  }

  predicate Has(b: bv8, bit: Bit) { b & Mask(bit) != 0 }

  function Raised(b: bv8, bit: Bit): bv8 { b | Mask(bit) }

  function Lowered(b: bv8, bit: Bit): bv8 { b & !Mask(bit) }

  /** The flag byte as the four bits that the code uses. */
  function Unpacked(b: bv8): Flags { Flags(Has(b, Dr), Has(b, Spi), Has(b, Update), Has(b, Notify)) }

  function With(f: Flags, bit: Bit, on: bool): Flags {
    match bit
    case Dr => f.(dr := on)
    case Spi => f.(spi := on)
    case Update => f.(update := on)
    case Notify => f.(notify := on)
  }

  /** `|=` and `&= ~` change the one bit they name and none of the other
      seven. */
  lemma OneBitChanges(b: bv8, bit: Bit)
    ensures Unpacked(Raised(b, bit)) == With(Unpacked(b), bit, true)
    ensures Unpacked(Lowered(b, bit)) == With(Unpacked(b), bit, false)
    ensures Raised(b, bit) & !Mask(bit) == b & !Mask(bit) == Lowered(b, bit) & !Mask(bit)
  {
    hide Unpacked, Raised, Lowered, Mask;
    match bit
    case Dr => DrChanges(b);
    case Spi => SpiChanges(b);
    case Update => UpdateChanges(b);
    case Notify => NotifyChanges(b);
  }

  lemma DrChanges(b: bv8)
    ensures Unpacked(Raised(b, Dr)) == Unpacked(b).(dr := true)
    ensures Unpacked(Lowered(b, Dr)) == Unpacked(b).(dr := false)
    ensures Raised(b, Dr) & !Mask(Dr) == b & !Mask(Dr) == Lowered(b, Dr) & !Mask(Dr)
  {}

  lemma SpiChanges(b: bv8)
    ensures Unpacked(Raised(b, Spi)) == Unpacked(b).(spi := true)
    ensures Unpacked(Lowered(b, Spi)) == Unpacked(b).(spi := false)
    ensures Raised(b, Spi) & !Mask(Spi) == b & !Mask(Spi) == Lowered(b, Spi) & !Mask(Spi)
  {}

  lemma UpdateChanges(b: bv8)
    ensures Unpacked(Raised(b, Update)) == Unpacked(b).(update := true)
    ensures Unpacked(Lowered(b, Update)) == Unpacked(b).(update := false)
    ensures Raised(b, Update) & !Mask(Update) == b & !Mask(Update) == Lowered(b, Update) & !Mask(Update)
  {}

  lemma NotifyChanges(b: bv8)
    ensures Unpacked(Raised(b, Notify)) == Unpacked(b).(notify := true)
    ensures Unpacked(Lowered(b, Notify)) == Unpacked(b).(notify := false)
    ensures Raised(b, Notify) & !Mask(Notify) == b & !Mask(Notify) == Lowered(b, Notify) & !Mask(Notify)
  {}

  /** Lowering one bit and raising another, as every handler does. */
  lemma HandOver(b: bv8, from: Bit, to: Bit)
    ensures Unpacked(Raised(Lowered(b, from), to)) == With(With(Unpacked(b), from, false), to, true)
  {
    hide Mask, Unpacked, Raised, Lowered;
    OneBitChanges(b, from);
    OneBitChanges(Lowered(b, from), to);
  }

  /** A device may start: its data is ready, the stream is idle and no other
      device has a transfer to finish. */
  predicate Turn(own: bv8, dmaOn: bool, other: bv8, another: bv8) {
    Has(own, Dr) && !dmaOn && !Has(other, Spi) && !Has(another, Spi)
  }

  lemma TurnMeans(gyro: bv8, accel: bv8, temp: bv8, dmaOn: bool, s: State)
    requires s.gyro == Unpacked(gyro) && s.accel == Unpacked(accel) && s.temp == Unpacked(temp) && s.dma.on == dmaOn
    ensures Turn(gyro, dmaOn, accel, temp) <==> GyroTurn(s)
    ensures Turn(accel, dmaOn, gyro, temp) <==> AccelTurn(s)
    ensures Turn(temp, dmaOn, gyro, accel) <==> TempTurn(s)
  {
    hide Has;
  }

  // ----- The globals -----

  class Bus {
    var gyroFlag: bv8
    var accelFlag: bv8
    var tempFlag: bv8
    var gyroSelected: bool
    var accelSelected: bool
    var dmaOn: bool
    var owner: Device
    var complete: bool
    var started: bool
    ghost var armed: bool
    /** Whether starting a transfer clears the transfer-complete flag. */
    const clears: bool

    ghost function Value(): State
      reads this
    {
      State(Unpacked(gyroFlag), Unpacked(accelFlag), Unpacked(tempFlag), gyroSelected, accelSelected,
            Dma(dmaOn, owner, complete, clears), started, armed)
    }

    ghost predicate Valid()
      reads this
    {
      Inv(Value())
    }

    constructor (clears: bool)
      ensures Valid() && Value() == Initial(clears)
    {
      this.clears := clears;
      gyroFlag, accelFlag, tempFlag := 0, 0, 0;
      gyroSelected, accelSelected := false, false;
      dmaOn, owner, complete, started := false, Gyro, false, false;
      armed := false;
    }

    /** `SPI1_DMA_enable`, as far as the handlers see it. */
    method EnableDma(d: Device)
      modifies this`dmaOn, this`owner, this`complete
      ensures dmaOn && owner == d && complete == (old(complete) && !clears)
    {
      dmaOn, owner := true, d;
      if clears {
        complete := false;
      }
    }

    method StartGyro()
      modifies this
      ensures Value() == GyroStarted(old(Value()))
    {
      hide Mask, Unpacked, Raised, Lowered;
      HandOver(gyroFlag, Dr, Spi);
      gyroFlag := Lowered(gyroFlag, Dr);
      gyroFlag := Raised(gyroFlag, Spi);
      gyroSelected := true;
      EnableDma(Gyro);
    }

    method StartAccel()
      modifies this
      ensures Value() == AccelStarted(old(Value()))
    {
      hide Mask, Unpacked, Raised, Lowered;
      HandOver(accelFlag, Dr, Spi);
      accelFlag := Lowered(accelFlag, Dr);
      accelFlag := Raised(accelFlag, Spi);
      accelSelected := true;
      EnableDma(Accel);
    }

    method StartTemp()
      modifies this
      ensures Value() == TempStarted(old(Value()))
    {
      hide Mask, Unpacked, Raised, Lowered;
      HandOver(tempFlag, Dr, Spi);
      tempFlag := Lowered(tempFlag, Dr);
      tempFlag := Raised(tempFlag, Spi);
      accelSelected := true;
      EnableDma(Temp);
    }

    method StartNext()
      modifies this
      ensures Value() == Arbitrate(old(Value()))
    {
      hide Turn, Unpacked, GyroTurn, AccelTurn, TempTurn, GyroStarted, AccelStarted, TempStarted;
      TurnMeans(gyroFlag, accelFlag, tempFlag, dmaOn, Value());
      if Turn(gyroFlag, dmaOn, accelFlag, tempFlag) {
        StartGyro();
      } else if Turn(accelFlag, dmaOn, gyroFlag, tempFlag) {
        StartAccel();
      } else if Turn(tempFlag, dmaOn, gyroFlag, accelFlag) {
        StartTemp();
      }
    }

    /** Start the first waiting device if the bus is free. With DMA started and
        the bus in order, no request is dropped and none is left waiting without
        a transfer in flight. */
    method CmdSpiDma()
      modifies this
      ensures Value() == Arbitrate(old(Value())).(armed := true)
      ensures old(OnBus(Value()) && started) ==>
        Valid() && NothingDropped(old(Value()), Value()) && (Requested(Value()) ==> InFlight(Value()))
    {
      hide Unpacked, OnBus, NothingDropped, Inv, Requested, InFlight, Arbitrate;
      if OnBus(Value()) && started { ArbitrateInOrder(Value()); }
      StartNext();
      armed := true;
    }

    method HandleAccelReady()
      requires Valid()
      modifies this
      ensures Value() == AccelReady(old(Value())) && Valid()
    {
      hide Mask, Unpacked, Raised, Inv, Arbitrate, OnBus, NothingDropped;
      StepKeeps(Value(), OnAccelReady);
      OneBitChanges(accelFlag, Dr);
      OneBitChanges(tempFlag, Dr);
      accelFlag := Raised(accelFlag, Dr);
      tempFlag := Raised(tempFlag, Dr);
      if started {
        CmdSpiDma();
      }
    }

    method HandleGyroReady()
      requires Valid()
      modifies this
      ensures Value() == GyroReady(old(Value())) && Valid()
    {
      hide Mask, Unpacked, Raised, Inv, Arbitrate, OnBus, NothingDropped;
      StepKeeps(Value(), OnGyroReady);
      OneBitChanges(gyroFlag, Dr);
      gyroFlag := Raised(gyroFlag, Dr);
      if started {
        CmdSpiDma();
      }
    }

    /** The interrupt routine runs both bodies in one call, because the tests on
        the pin around them are commented out. */
    method DataReady()
      requires Valid()
      modifies this
      ensures Value() == Run(old(Value()), [OnAccelReady, OnGyroReady]) && Valid()
    {
      hide Inv, AccelReady, GyroReady, Unpacked;
      HandleAccelReady();
      HandleGyroReady();
    }

    method RetireGyroDevice()
      modifies this
      ensures Value() == RetireGyro(old(Value()))
    {
      hide Mask, Unpacked, Raised, Lowered, Has;
      UnpackedBits(gyroFlag);
      HandOver(gyroFlag, Spi, Update);
      if Has(gyroFlag, Spi) {
        gyroFlag := Lowered(gyroFlag, Spi);
        gyroFlag := Raised(gyroFlag, Update);
        gyroSelected := false;
      }
    }

    method RetireAccelDevice()
      modifies this
      ensures Value() == RetireAccel(old(Value()))
    {
      hide Mask, Unpacked, Raised, Lowered, Has;
      UnpackedBits(accelFlag);
      HandOver(accelFlag, Spi, Update);
      if Has(accelFlag, Spi) {
        accelFlag := Lowered(accelFlag, Spi);
        accelFlag := Raised(accelFlag, Update);
        accelSelected := false;
      }
    }

    method RetireTempDevice()
      modifies this
      ensures Value() == RetireTemp(old(Value()))
    {
      hide Mask, Unpacked, Raised, Lowered, Has;
      UnpackedBits(tempFlag);
      HandOver(tempFlag, Spi, Update);
      if Has(tempFlag, Spi) {
        tempFlag := Lowered(tempFlag, Spi);
        tempFlag := Raised(tempFlag, Update);
        accelSelected := false;
      }
    }

    /** The task is told of new data of the gyroscope. */
    method NotifyGyro()
      modifies this
      ensures Value() == Notified(old(Value()))
    {
      hide Mask, Unpacked, Raised, Lowered, Has;
      UnpackedBits(gyroFlag);
      HandOver(gyroFlag, Update, Notify);
      if Has(gyroFlag, Update) {
        gyroFlag := Lowered(gyroFlag, Update);
        gyroFlag := Raised(gyroFlag, Notify);
      }
    }

    method SpiDmaCallback()
      requires Valid()
      modifies this
      ensures Value() == Callback(old(Value())) && Valid()
    {
      hide Unpacked, Inv, Arbitrate, RetireGyro, RetireAccel, RetireTemp;
      hide OnBus, NothingDropped, Notified, Requested, InFlight;
      StepKeeps(Value(), OnCallback);
      if complete {
        complete := false;
        RetireGyroDevice();
        RetireAccelDevice();
        RetireTempDevice();
        CmdSpiDma();
        NotifyGyro();
      }
    }

    method ConsumeGyroFlag()
      modifies this
      ensures Value() == ConsumeGyro(old(Value()))
    {
      hide Mask, Unpacked, Lowered, Has;
      UnpackedBits(gyroFlag);
      OneBitChanges(gyroFlag, Notify);
      if Has(gyroFlag, Notify) {
        gyroFlag := Lowered(gyroFlag, Notify);
      }
    }

    method ConsumeAccelFlag()
      modifies this
      ensures Value() == ConsumeAccel(old(Value()))
    {
      hide Mask, Unpacked, Lowered, Has;
      UnpackedBits(accelFlag);
      OneBitChanges(accelFlag, Update);
      if Has(accelFlag, Update) {
        accelFlag := Lowered(accelFlag, Update);
      }
    }

    method ConsumeTempFlag()
      modifies this
      ensures Value() == ConsumeTemp(old(Value()))
    {
      hide Mask, Unpacked, Lowered, Has;
      UnpackedBits(tempFlag);
      OneBitChanges(tempFlag, Update);
      if Has(tempFlag, Update) {
        tempFlag := Lowered(tempFlag, Update);
      }
    }

    method ConsumeFlags()
      requires Valid()
      modifies this
      ensures Value() == Consume(old(Value())) && Valid()
    {
      hide Unpacked, Inv, ConsumeGyro, ConsumeAccel, ConsumeTemp;
      StepKeeps(Value(), OnConsume);
      ConsumeGyroFlag();
      ConsumeAccelFlag();
      ConsumeTempFlag();
    }
  }

  lemma UnpackedBits(b: bv8)
    ensures Unpacked(b) == Flags(Has(b, Dr), Has(b, Spi), Has(b, Update), Has(b, Notify))
  {}

  lemma ArbitrateInOrder(s: State)
    requires OnBus(s) && s.started
    ensures var g := Arbitrate(s).(armed := true);
      Inv(g) && NothingDropped(s, g) && (Requested(g) ==> InFlight(g))
  {
    ArbitrateKeeps(s);
  }
}
