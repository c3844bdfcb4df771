/** Timespecs, ticks and the conversions between them, in C's arithmetic
    (truncating division, 32-bit long, 64-bit time_t), proved against exact
    arithmetic on nanoseconds. */
module Timespec {
  import opened Collections

  const NS: int := 1_000_000_000
  const UINT_MAX: int := 0xFFFF_FFFF
  const INT64_LIMIT: int := 0x8000_0000_0000_0000

  const EINVAL: int := 22
  const ETIMEDOUT: int := 116

  datatype Time = Time(sec: int, nsec: int)

  // ----- C arithmetic -----

  function Wrap32(v: int): int { (v + 0x8000_0000) % 0x1_0000_0000 - 0x8000_0000 }

  function Wrap64(v: int): (r: int)
    ensures -INT64_LIMIT <= v < INT64_LIMIT ==> r == v
    ensures -INT64_LIMIT <= r < INT64_LIMIT
  {
    (v + INT64_LIMIT) % (2 * INT64_LIMIT) - INT64_LIMIT
  }

  /** Division and remainder that truncate toward zero. */
  function CDiv(a: int, b: int): int
    requires b > 0
  {
    if a >= 0 then a / b else -((-a) / b)
  }

  function CMod(a: int, b: int): int
    requires b > 0
  {
    a - CDiv(a, b) * b
  }

  // ----- Meaning -----

  predicate Normal(t: Time) { 0 <= t.nsec < NS }

  predicate Fits(t: Time) { -INT64_LIMIT <= t.sec < INT64_LIMIT && Normal(t) }

  function Total(t: Time): int { t.sec * NS + t.nsec }

  /** The normalized time of a total: Dafny's division rounds down. */
  function FromTotal(n: int): (t: Time)
    ensures Normal(t) && Total(t) == n
  {
    Time(n / NS, n % NS)
  }

  /** A normalized time is determined by its total. */
  lemma TotalInjective(x: Time, y: Time)
    requires Normal(x) && Normal(y) && Total(x) == Total(y)
    ensures x == y
  {
    assert (x.sec - y.sec) * NS == y.nsec - x.nsec;
  }

  lemma TotalOrder(x: Time, y: Time)
    requires Normal(x) && Normal(y)
    ensures x.sec < y.sec ==> Total(x) < Total(y)
    ensures x.sec == y.sec ==> (Total(x) < Total(y) <==> x.nsec < y.nsec)
  {}

  // ----- The functions -----

  predicate Validate(t: Option<Time>) {
    t.Some? && t.value.nsec >= 0 && t.value.nsec < NS
  }

  function Compare(x: Option<Time>, y: Option<Time>): (r: int)
    ensures Validate(x) && Validate(y) ==>
      && (r == -1 <==> Total(x.value) < Total(y.value))
      && (r == 0 <==> Total(x.value) == Total(y.value))
      && (r == 1 <==> Total(x.value) > Total(y.value))
    ensures x.None? && y.Some? ==> r == -1
    ensures x.Some? && y.None? ==> r == 1
    ensures (r == 0 <==> x == y) && (r == -1 || r == 0 || r == 1)
  {
    if x.None? && y.None? then 0
    else if y.None? then 1
    else if x.None? then -1
    else if x.value.sec > y.value.sec then 1
    else if x.value.sec < y.value.sec then -1
    else if x.value.nsec > y.value.nsec then 1
    else if x.value.nsec < y.value.nsec then -1
    else 0
  }

  /** Rounds down for negative counts as well, although C's division does not. */
  method NanosecondsToTimespec(source: int) returns (t: Time)
    requires -INT64_LIMIT <= source < INT64_LIMIT
    ensures t == FromTotal(source)
  {
    t := Time(CDiv(source, NS), CMod(source, NS));
    if t.nsec < 0 {
      var carry := CDiv(t.nsec, NS) + 1;
      t := Time(t.sec - carry, t.nsec + carry * NS);
    }
    TotalInjective(t, FromTotal(source));
  }

  predicate Usable(t: Time) { Fits(t) && t.sec >= 0 }

  lemma Carry(n: int)
    requires 0 <= n < 2 * NS
    ensures Wrap32(n) == n && 0 <= CDiv(n, NS) <= 1
    ensures 0 <= CMod(n, NS) < NS && CDiv(n, NS) * NS + CMod(n, NS) == n
  {}

  /** How the carry and the overflow of an addition come out. */
  lemma AddFacts(x: Time, y: Time)
    ensures Usable(x) && Usable(y) ==>
      var n := x.nsec + y.nsec;
      var sec := Wrap64(x.sec + y.sec + CDiv(n, NS));
      && Wrap32(n) == n && n >= 0
      && (sec < 0 <==> Total(x) + Total(y) >= INT64_LIMIT * NS)
      && (sec >= 0 ==> Time(sec, CMod(n, NS)) == FromTotal(Total(x) + Total(y)))
  {
    if Usable(x) && Usable(y) {
      var n := x.nsec + y.nsec;
      Carry(n);
      var exact := Time(x.sec + y.sec + CDiv(n, NS), CMod(n, NS));
      assert Total(exact) == Total(x) + Total(y);
      TotalInjective(exact, FromTotal(Total(exact)));
      SumWraps(exact.sec);
      TotalOrder(exact, Time(INT64_LIMIT, 0));
      TotalOrder(Time(INT64_LIMIT, 0), exact);
    }
  }

  lemma SumWraps(v: int)
    requires 0 <= v < 2 * INT64_LIMIT
    ensures Wrap64(v) >= 0 <==> v < INT64_LIMIT
    ensures v < INT64_LIMIT ==> Wrap64(v) == v
  {}

  /** For normalized non-negative times the sum is exact, and the status says
      exactly whether it fits. */
  method Add(x: Option<Time>, y: Option<Time>) returns (status: int, r: Time)
    ensures x.None? || y.None? ==> status == -1
    ensures x.Some? && y.Some? && Usable(x.value) && Usable(y.value) ==>
      && (status == 0 <==> Total(x.value) + Total(y.value) < INT64_LIMIT * NS)
      && (status == 0 ==> r == FromTotal(Total(x.value) + Total(y.value)))
  {
    hide Wrap32, Wrap64, CDiv, CMod, Total, FromTotal;
    if x.Some? && y.Some? { AddFacts(x.value, y.value); }
    status, r := 0, Time(0, 0);
    if x.None? || y.None? {
      status := -1;
    }
    if status == 0 {
      r := Time(r.sec, Wrap32(x.value.nsec + y.value.nsec));
      if r.nsec < 0 {
        status := 1;
      } else {
        var partial := CDiv(r.nsec, NS);
        r := Time(Wrap64(x.value.sec + y.value.sec + partial), CMod(r.nsec, NS));
        if r.sec < 0 {
          status := 1;
        }
      }
    }
  }

  /** Adding a count of nanoseconds: exact when it fits; a count that reaches
      below the second of `x` is refused, for there is no borrow, and so is one
      whose sum with the nanoseconds of `x` wraps. */
  method AddNanoseconds(x: Option<Time>, nanoseconds: int) returns (status: int, r: Time)
    requires -INT64_LIMIT <= nanoseconds < INT64_LIMIT
    ensures x.None? ==> status == -1
    ensures x.Some? && Usable(x.value) ==>
      && (status == 0 <==>
            0 <= x.value.nsec + nanoseconds < INT64_LIMIT && Total(x.value) + nanoseconds < INT64_LIMIT * NS)
      && (status == 0 ==> r == FromTotal(Total(x.value) + nanoseconds))
  {
    hide Total, FromTotal, Wrap64;
    status, r := 0, Time(0, 0);
    if x.None? {
      status := -1;
    }
    if status == 0 {
      if Usable(x.value) { AddNanosecondsFacts(x.value, nanoseconds); }
      var total := Wrap64(x.value.nsec + nanoseconds);
      if total < 0 {
        status := 1;
      } else {
        r := Time(Wrap64(x.value.sec + CDiv(total, NS)), CMod(total, NS));
        if r.sec < 0 {
          status := 1;
        }
      }
    }
  }

  lemma AddNanosecondsFacts(x: Time, nanoseconds: int)
    requires Usable(x) && -INT64_LIMIT <= nanoseconds < INT64_LIMIT
    ensures x.nsec + nanoseconds < INT64_LIMIT ==> Wrap64(x.nsec + nanoseconds) == x.nsec + nanoseconds
    ensures x.nsec + nanoseconds >= INT64_LIMIT ==> Wrap64(x.nsec + nanoseconds) < 0
    ensures 0 <= x.nsec + nanoseconds < INT64_LIMIT ==>
      var n := x.nsec + nanoseconds;
      var sec := Wrap64(x.sec + CDiv(n, NS));
      && (sec < 0 <==> Total(x) + nanoseconds >= INT64_LIMIT * NS)
      && (sec >= 0 ==> Time(sec, CMod(n, NS)) == FromTotal(Total(x) + nanoseconds))
  {
    var n := x.nsec + nanoseconds;
    if n >= INT64_LIMIT { SumWraps(n); }
    if 0 <= n < INT64_LIMIT {
      var exact := Time(x.sec + n / NS, n % NS);
      assert Total(exact) == Total(x) + nanoseconds;
      TotalInjective(exact, FromTotal(Total(exact)));
      SumWraps(exact.sec);
      TotalOrder(exact, Time(INT64_LIMIT, 0));
      TotalOrder(Time(INT64_LIMIT, 0), exact);
    }
  }

  /** The difference is exact when it is not negative; otherwise status 1. */
  method Subtract(x: Option<Time>, y: Option<Time>) returns (status: int, r: Time)
    ensures x.None? || y.None? ==> status == -1
    ensures x.Some? && y.Some? && Fits(x.value) && Usable(y.value) ==>
      && status == (if Total(x.value) < Total(y.value) then 1 else 0)
      && (status == 0 ==> r == FromTotal(Total(x.value) - Total(y.value)) && Usable(r))
  {
    hide Total, FromTotal;
    status, r := 0, Time(0, 0);
    if x.None? || y.None? {
      status := -1;
    }
    if status == 0 {
      var order := Compare(x, y);
      if Fits(x.value) && Usable(y.value) { SubtractFacts(x.value, y.value); }
      if order == -1 {
        status := 1;
      } else if order == 0 {
        r := Time(0, 0);
      } else {
        r := Time(Wrap64(x.value.sec - y.value.sec), Wrap32(x.value.nsec - y.value.nsec));
        if r.nsec < 0 {
          r := Time(r.sec - 1, r.nsec + NS);
        }
        if r.nsec < 0 {
          status := -1;
        }
      }
    }
  }

  function Borrow(t: Time): Time { if t.nsec < 0 then Time(t.sec - 1, t.nsec + NS) else t }

  lemma SubtractFacts(x: Time, y: Time)
    requires Fits(x) && Usable(y)
    ensures Total(x) == Total(y) ==> Time(0, 0) == FromTotal(Total(x) - Total(y)) && Usable(Time(0, 0))
    ensures Total(x) > Total(y) ==>
      && Wrap32(x.nsec - y.nsec) == x.nsec - y.nsec && Wrap64(x.sec - y.sec) == x.sec - y.sec
      && Borrow(Time(x.sec - y.sec, x.nsec - y.nsec)) == FromTotal(Total(x) - Total(y))
      && Usable(Borrow(Time(x.sec - y.sec, x.nsec - y.nsec)))
  {
    TotalOrder(x, y);
    TotalInjective(Time(0, 0), FromTotal(0));
    var d := Borrow(Time(x.sec - y.sec, x.nsec - y.nsec));
    assert Total(d) == Total(x) - Total(y);
    assert Normal(d);
    TotalInjective(d, FromTotal(Total(d)));
  }

  /** Adding back a difference restores the later time. */
  method SubtractThenAdd(x: Time, y: Time) returns (status: int, r: Time)
    requires Usable(x) && Usable(y) && Total(y) <= Total(x)
    ensures status == 0 && r == x
  {
    hide Total, FromTotal;
    var s, d := Subtract(Some(x), Some(y));
    status, r := Add(Some(y), Some(d));
    TotalInjective(x, FromTotal(Total(x)));
    InRange(x);
  }

  lemma InRange(x: Time)
    requires Usable(x)
    ensures Total(x) < INT64_LIMIT * NS
  {}

  // ----- Ticks -----

  predicate DividesSecond(rate: int) { 0 < rate <= NS && NS % rate == 0 }

  function NsPerTick(rate: int): (r: int)
    requires 0 < rate <= NS
    ensures r > 0
  {
    assert NS / rate >= 1 by { DivAtLeastOne(NS, rate); }
    NS / rate
  }

  lemma DivAtLeastOne(a: int, b: int)
    requires 0 < b <= a
    ensures a / b >= 1
  {
    assert a == b * (a / b) + a % b;
  }

  /** `n` ticks reach `d` nanoseconds and one tick fewer does not. */
  predicate IsLeast(n: int, d: int, rate: int)
    requires 0 < rate <= NS
  {
    (n - 1) * NsPerTick(rate) < d <= n * NsPerTick(rate)
  }

  lemma LeastIsLeast(n: int, d: int, rate: int, m: int)
    requires 0 < rate <= NS && IsLeast(n, d, rate) && d <= m * NsPerTick(rate)
    ensures n <= m
  {
    if m < n {
      MulMonotone(m, n - 1, NsPerTick(rate));
    }
  }

  lemma MulMonotone(a: int, b: int, c: int)
    requires a <= b && c >= 0
    ensures a * c <= b * c
  {}

  /** The tick count before the 64-bit addition wraps. */
  function ExactTicks(t: Time, rate: int): int
    requires 0 < rate <= NS
  {
    var part := t.nsec / NsPerTick(rate) + if t.nsec % NsPerTick(rate) != 0 then 1 else 0;
    rate * t.sec + part
  }

  lemma RateTimesTick(rate: int)
    requires DividesSecond(rate)
    ensures rate * NsPerTick(rate) == NS
  {}

  lemma SecondsInTicks(rate: int, sec: int)
    requires DividesSecond(rate)
    ensures rate * sec * NsPerTick(rate) == sec * NS
  {
    RateTimesTick(rate);
    var k := NsPerTick(rate);
    assert rate * sec * k == sec * (rate * k);
  }

  lemma CeilIsLeast(n: int, k: int)
    requires 0 <= n && 0 < k
    ensures var c := n / k + if n % k != 0 then 1 else 0;
      0 <= c && (c - 1) * k < n <= c * k
  {
    assert n == n / k * k + n % k;
  }

  /** Without overflow the code's count is the least number of ticks. */
  lemma ExactTicksIsLeast(t: Time, rate: int)
    requires Normal(t) && DividesSecond(rate)
    ensures IsLeast(ExactTicks(t, rate), Total(t), rate)
  {
    var k := NsPerTick(rate);
    var c := ExactTicks(t, rate) - rate * t.sec;
    CeilIsLeast(t.nsec, k);
    SecondsInTicks(rate, t.sec);
    Distribute(rate * t.sec, c, k);
    Distribute(rate * t.sec, c - 1, k);
  }

  lemma Distribute(a: int, b: int, c: int)
    ensures (a + b) * c == a * c + b * c
  {}

  lemma LeastUnique(n: int, m: int, d: int, rate: int)
    requires 0 < rate <= NS && IsLeast(n, d, rate) && IsLeast(m, d, rate)
    ensures n == m
  {
    LeastIsLeast(n, d, rate, m);
    LeastIsLeast(m, d, rate, n);
  }

  /** The 64-bit tick count that the code computes. */
  function RawTicks(t: Time, rate: int): int
    requires 0 < rate <= NS
  {
    var part := t.nsec / NsPerTick(rate) + if t.nsec % NsPerTick(rate) != 0 then 1 else 0;
    Wrap64(Wrap64(rate * t.sec) + part)
  }

  method TimespecToTicks(t: Option<Time>, rate: int) returns (status: int, ticks: int)
    requires 0 < rate <= NS
    ensures !Validate(t) ==> status == EINVAL
    ensures Validate(t) ==>
      && (status == 0 <==> 0 <= RawTicks(t.value, rate) <= UINT_MAX)
      && (status == 0 || status == EINVAL)
      && ticks == RawTicks(t.value, rate) % (UINT_MAX + 1)
      && (status == 0 ==> ticks == RawTicks(t.value, rate))
  {
    status, ticks := 0, 0;
    if t.None? {
      status := EINVAL;
    } else if !Validate(t) {
      status := EINVAL;
    }
    if status == 0 {
      hide Wrap64, NsPerTick;
      var total := Wrap64(rate * t.value.sec);
      var part := CDiv(t.value.nsec, NsPerTick(rate));
      if CMod(t.value.nsec, NsPerTick(rate)) != 0 {
        part := part + 1;
      }
      CModIsMod(t.value.nsec, NsPerTick(rate));
      total := Wrap64(total + part);
      if total < 0 {
        status := EINVAL;
      } else if total > UINT_MAX {
        status := EINVAL;
      }
      ticks := total % (UINT_MAX + 1);
    }
  }

  lemma CModIsMod(a: int, b: int)
    requires a >= 0 && b > 0
    ensures CDiv(a, b) == a / b && CMod(a, b) == a % b
  {
    assert a == a / b * b + a % b;
  }

  /** The multiplication by the tick rate stays within 64 bits. */
  predicate NoOverflow(t: Time, rate: int)
    requires 0 < rate <= NS
  {
    0 <= t.sec && ExactTicks(t, rate) < INT64_LIMIT
  }

  lemma PartBounds(t: Time, rate: int)
    requires Normal(t) && 0 < rate <= NS
    ensures 0 <= ExactTicks(t, rate) - rate * t.sec <= NS
  {
    hide NsPerTick;
    var k := NsPerTick(rate);
    CeilIsLeast(t.nsec, k);
    var c := ExactTicks(t, rate) - rate * t.sec;
    if c > NS {
      MulMonotone(NS, c - 1, k);
      MulMonotone(1, k, NS);
    }
  }

  /** Where the code reports success, its count is the least number of ticks if
      and only if nothing overflowed. */
  lemma RawTicksLeastIff(t: Time, rate: int)
    requires Usable(t) && DividesSecond(rate) && 0 <= RawTicks(t, rate) <= UINT_MAX
    ensures IsLeast(RawTicks(t, rate), Total(t), rate) <==> NoOverflow(t, rate)
  {
    hide IsLeast, Wrap64, NsPerTick, Total;
    ExactTicksIsLeast(t, rate);
    PartBounds(t, rate);
    MulMonotone(0, t.sec, rate);
    if NoOverflow(t, rate) {
      assert RawTicks(t, rate) == ExactTicks(t, rate);
    } else if IsLeast(RawTicks(t, rate), Total(t), rate) {
      LeastUnique(RawTicks(t, rate), ExactTicks(t, rate), Total(t), rate);
    }
  }

  /** A normalized time with negative seconds whose product stays within 64 bits
      never converts to a positive count. It converts to 0 if and only if it is
      less than one tick before zero, and is refused otherwise. */
  lemma NegativeSecondsIff(t: Time, rate: int)
    requires Normal(t) && t.sec < 0 && DividesSecond(rate) && -INT64_LIMIT <= rate * t.sec
    ensures RawTicks(t, rate) <= 0
    ensures RawTicks(t, rate) == 0 <==> -NsPerTick(rate) < Total(t)
  {
    hide Wrap64, NsPerTick, Total;
    var k := NsPerTick(rate);
    PartBounds(t, rate);
    ExactTicksIsLeast(t, rate);
    MulMonotone(t.sec, -1, rate);
    assert RawTicks(t, rate) == ExactTicks(t, rate);
    NegativeTotal(t);
    LeastWithin(ExactTicks(t, rate), Total(t), rate, 0);
    LeastWithin(ExactTicks(t, rate), Total(t), rate, -1);
  }

  lemma NegativeTotal(t: Time)
    requires Normal(t) && t.sec < 0
    ensures Total(t) < 0
  {}

  /** One nanosecond before zero converts to 0 ticks with status 0. */
  lemma JustBeforeZeroSucceeds()
    ensures RawTicks(Time(-1, 999_999_999), 1000) == 0
  {
    assert NsPerTick(1000) == 1_000_000;
  }

  /** An overflow that the code reports as success: 2^61 seconds at 1000 Hz
      convert to 0 ticks. */
  lemma OverflowReportsSuccess()
    ensures RawTicks(Time(0x2000_0000_0000_0000, 0), 1000) == 0
  {
    assert NsPerTick(1000) == 1_000_000;
  }

  /** ETIMEDOUT exactly when the deadline is earlier than now; a successful
      count is the least number of ticks from now that reaches the deadline,
      unless the distance overflows the 64-bit product. */
  method AbsoluteTimespecToDeltaTicks(deadline: Option<Time>, now: Option<Time>, rate: int)
    returns (status: int, ticks: int)
    requires DividesSecond(rate)
    ensures deadline.None? || now.None? ==> status == EINVAL
    ensures deadline.Some? && now.Some? && Fits(deadline.value) && Usable(now.value) ==>
      var d := Total(deadline.value) - Total(now.value);
      && (status == ETIMEDOUT <==> d < 0)
      && (status == 0 ==> (IsLeast(ticks, d, rate) <==> NoOverflow(FromTotal(d), rate)))
      && (d >= 0 && NoOverflow(FromTotal(d), rate) ==> (status == 0 <==> d <= UINT_MAX * NsPerTick(rate)))
  {
    hide Total, FromTotal, RawTicks, NoOverflow, IsLeast, NsPerTick;
    status, ticks := 0, 0;
    var difference := Time(0, 0);
    if deadline.None? || now.None? {
      status := EINVAL;
    }
    if status == 0 {
      status, difference := Subtract(deadline, now);
      if status == 1 {
        status := ETIMEDOUT;
      } else if status == -1 {
        status := EINVAL;
      }
    }
    if status == 0 {
      status, ticks := TimespecToTicks(Some(difference), rate);
      if Usable(difference) { TicksFacts(difference, rate); }
    }
  }

  lemma TicksFacts(t: Time, rate: int)
    requires Usable(t) && DividesSecond(rate)
    ensures Total(FromTotal(Total(t))) == Total(t)
    ensures 0 <= RawTicks(t, rate) <= UINT_MAX ==>
      (IsLeast(RawTicks(t, rate), Total(t), rate) <==> NoOverflow(t, rate))
    ensures NoOverflow(t, rate) ==>
      (0 <= RawTicks(t, rate) <= UINT_MAX <==> Total(t) <= UINT_MAX * NsPerTick(rate))
  {
    hide Wrap64, NsPerTick, Total, IsLeast;
    if 0 <= RawTicks(t, rate) <= UINT_MAX { RawTicksLeastIff(t, rate); }
    if NoOverflow(t, rate) {
      PartBounds(t, rate);
      MulMonotone(0, t.sec, rate);
      ExactTicksIsLeast(t, rate);
      LeastWithin(ExactTicks(t, rate), Total(t), rate, UINT_MAX);
    }
  }

  lemma LeastWithin(n: int, d: int, rate: int, limit: int)
    requires 0 < rate <= NS && IsLeast(n, d, rate)
    ensures n <= limit <==> d <= limit * NsPerTick(rate)
  {
    if n <= limit {
      MulMonotone(n, limit, NsPerTick(rate));
    } else if d <= limit * NsPerTick(rate) {
      LeastIsLeast(n, d, rate, limit);
    }
  }

  // ----- The clock -----

  /** The 64-bit tick count behind a tick counter and its overflow count. */
  function TickCount(overflows: int, ticks: int): int { overflows * (UINT_MAX + 1) + ticks }

  /** The time of the 64-bit product, which is the exact time of the tick count
      if and only if the product of ticks and nanoseconds fits in 63 bits. */
  method ClockGettime(overflows: int, ticks: int, rate: int) returns (t: Time)
    requires 0 <= overflows <= INT64_LIMIT / (UINT_MAX + 1) && 0 <= ticks <= UINT_MAX && 0 < rate <= NS
    ensures t == FromTotal(Wrap64(TickCount(overflows, ticks) * NsPerTick(rate)))
    ensures t == FromTotal(TickCount(overflows, ticks) * NsPerTick(rate)) <==>
            TickCount(overflows, ticks) * NsPerTick(rate) < INT64_LIMIT
  {
    hide NsPerTick, FromTotal, Wrap64;
    var count := overflows * (UINT_MAX + 1);
    count := count + ticks;
    MulMonotone(0, count, NsPerTick(rate));
    t := NanosecondsToTimespec(Wrap64(count * NsPerTick(rate)));
    assert Total(FromTotal(count * NsPerTick(rate))) == count * NsPerTick(rate);
  }

  /** Converting the clock back gives the 64-bit tick count whenever it fits the
      32-bit tick type, and EINVAL when it does not. */
  method ClockToTicks(overflows: int, ticks: int, rate: int) returns (status: int, back: int)
    requires 0 <= overflows <= INT64_LIMIT / (UINT_MAX + 1) && 0 <= ticks <= UINT_MAX && DividesSecond(rate)
    requires TickCount(overflows, ticks) * NsPerTick(rate) < INT64_LIMIT
    ensures TickCount(overflows, ticks) <= UINT_MAX ==> status == 0 && back == TickCount(overflows, ticks)
    ensures TickCount(overflows, ticks) > UINT_MAX ==> status == EINVAL
  {
    hide NsPerTick, FromTotal, RawTicks, TickCount;
    var t := ClockGettime(overflows, ticks, rate);
    status, back := TimespecToTicks(Some(t), rate);
    TickCountNonNegative(overflows, ticks);
    WholeTicks(TickCount(overflows, ticks), rate);
  }

  lemma TickCountNonNegative(overflows: int, ticks: int)
    requires 0 <= overflows && 0 <= ticks
    ensures 0 <= TickCount(overflows, ticks)
  {}

  lemma WholeTicks(n: int, rate: int)
    requires 0 <= n && DividesSecond(rate) && n * NsPerTick(rate) < INT64_LIMIT
    ensures RawTicks(FromTotal(n * NsPerTick(rate)), rate) == n
  {
    hide Wrap64, NsPerTick, IsLeast;
    var d := n * NsPerTick(rate);
    var t := FromTotal(d);
    ExactTicksIsLeast(t, rate);
    WholeIsLeast(n, rate);
    LeastUnique(n, ExactTicks(t, rate), d, rate);
    PartBounds(t, rate);
    MulMonotone(0, n, NsPerTick(rate));
    MulMonotone(0, t.sec, rate);
    MulMonotone(1, NsPerTick(rate), n);
  }

  lemma WholeIsLeast(n: int, rate: int)
    requires 0 < rate <= NS
    ensures IsLeast(n, n * NsPerTick(rate), rate)
  {
    Distribute(n, -1, NsPerTick(rate));
  }
}
