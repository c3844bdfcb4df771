/** The PID controller over the reals: the incremental form against the
    positional form, and the output limits, over every run. */
module Pid {

  /** Any other mode byte leaves the output alone. */
  datatype Mode = Position | Delta | Other

  datatype Gains = Gains(kp: real, ki: real, kd: real, maxOut: real, maxIout: real)

  /** The values that a calculation reads and writes, newest first. */
  datatype State = State(
    e0: real, e1: real, e2: real, d0: real, d1: real, d2: real,
    pout: real, iout: real, dout: real, out: real)

  const ZERO_STATE := State(0.0, 0.0, 0.0, 0.0, 0.0, 0.0, 0.0, 0.0, 0.0, 0.0)

  function Times(k: real, x: real): real { k * x }

  function LimitMax(input: real, max: real): (r: real)
    ensures max >= 0.0 ==> -max <= r <= max
    ensures -max <= input <= max ==> r == input
  {
    if input > max then max else if input < -max then -max else input
  }

  /** The limited value is the nearest to the input within the limits. */
  lemma LimitIsNearest(input: real, max: real, y: real)
    requires -max <= y <= max
    ensures Distance(input, LimitMax(input, max)) <= Distance(input, y)
  {}

  function Distance(x: real, y: real): real { if x < y then y - x else x - y }

  /** One calculation with error `e`. */
  function Step(mode: Mode, g: Gains, s: State, e: real): State {
    match mode
    case Position =>
      var p, d := Times(g.kp, e), e - s.e0;
      var i := LimitMax(s.iout + Times(g.ki, e), g.maxIout);
      State(e, s.e0, s.e1, d, s.d0, s.d1, p, i, Times(g.kd, d), LimitMax(p + i + Times(g.kd, d), g.maxOut))
    case Delta =>
      var p, i, d := Times(g.kp, e - s.e0), Times(g.ki, e), e - 2.0 * s.e0 + s.e1;
      State(e, s.e0, s.e1, d, s.d0, s.d1, p, i, Times(g.kd, d), LimitMax(s.out + (p + i + Times(g.kd, d)), g.maxOut))
    case Other =>
      s.(e0 := e, e1 := s.e0, e2 := s.e1)
  }

  class Controller {
    var mode: Mode
    var gains: Gains
    var e0: real
    var e1: real
    var e2: real
    var d0: real
    var d1: real
    var d2: real
    var pout: real
    var iout: real
    var dout: real
    var out: real
    var target: real
    var fdb: real

    ghost function Value(): State
      reads this
    {
      State(e0, e1, e2, d0, d1, d2, pout, iout, dout, out)
    }

    method Init(mode: Mode, gains: Gains)
      modifies this
      ensures this.mode == mode && this.gains == gains && Value() == ZERO_STATE
    {
      this.mode := mode;
      this.gains := gains;
      ClearHistory();
    }

    method Calc(ref: real, setPoint: real) returns (r: real)
      modifies this
      ensures mode == old(mode) && gains == old(gains)
      ensures Value() == Step(mode, gains, old(Value()), setPoint - ref) && r == out
    {
      hide Times, LimitMax;
      e2 := e1;
      e1 := e0;
      target := setPoint;
      fdb := ref;
      e0 := setPoint - ref;
      if mode == Position {
        CalcPosition();
      } else if mode == Delta {
        CalcDelta();
      }
      r := out;
    }

    method CalcPosition()
      modifies this`pout, this`iout, this`dout, this`d0, this`d1, this`d2, this`out
      ensures Value() ==
              Step(Position, gains, old(State(e1, e2, 0.0, d0, d1, d2, pout, iout, dout, out)), e0).(e2 := e2)
    {
      hide Times, LimitMax;
      pout := Times(gains.kp, e0);
      iout := iout + Times(gains.ki, e0);
      d2 := d1;
      d1 := d0;
      d0 := e0 - e1;
      dout := Times(gains.kd, d0);
      iout := LimitMax(iout, gains.maxIout);
      out := pout + iout + dout;
      out := LimitMax(out, gains.maxOut);
    }

    method CalcDelta()
      modifies this`pout, this`iout, this`dout, this`d0, this`d1, this`d2, this`out
      ensures Value() == Step(Delta, gains, old(State(e1, e2, 0.0, d0, d1, d2, pout, iout, dout, out)), e0).(e2 := e2)
    {
      hide Times, LimitMax;
      pout := Times(gains.kp, e0 - e1);
      iout := Times(gains.ki, e0);
      d2 := d1;
      d1 := d0;
      d0 := e0 - 2.0 * e1 + e2;
      dout := Times(gains.kd, d0);
      out := out + (pout + iout + dout);
      out := LimitMax(out, gains.maxOut);
    }

    method Reset()
      modifies this
      ensures mode == old(mode) && gains == old(gains) && Value() == ZERO_STATE
    {
      ClearHistory();
      fdb := 0.0;
      target := 0.0;
    }

    method ClearHistory()
      modifies this`e0, this`e1, this`e2, this`d0, this`d1, this`d2, this`pout, this`iout, this`dout, this`out
      ensures Value() == ZERO_STATE
    {
      e0, e1, e2 := 0.0, 0.0, 0.0;
      d0, d1, d2 := 0.0, 0.0, 0.0;
      out, pout, iout, dout := 0.0, 0.0, 0.0, 0.0;
    }
  }

  // ----- Whole runs -----

  function Run(mode: Mode, g: Gains, errors: seq<real>): State
  {
    if errors == [] then ZERO_STATE
    else Step(mode, g, Run(mode, g, errors[..|errors| - 1]), errors[|errors| - 1])
  }

  /** The textbook output: proportional to the last error, to the sum of all
      errors and to the last difference. */
  function Textbook(g: Gains, errors: seq<real>): real {
    Times(g.kp, At(errors, 1)) + Times(g.ki, Sum(errors)) + Times(g.kd, At(errors, 1) - At(errors, 2))
  }

  /** The k-th error from the end, 0 before the first. */
  function At(errors: seq<real>, k: nat): real
    requires k > 0
  {
    if k <= |errors| then errors[|errors| - k] else 0.0
  }

  function Sum(errors: seq<real>): real {
    if errors == [] then 0.0 else Sum(errors[..|errors| - 1]) + errors[|errors| - 1]
  }

  /** In every run and mode the controller remembers the last three errors, and
      in the two working modes the last three first or second differences. In any
      other mode nothing else changes. */
  lemma {:induction false} HistoryIsRecent(mode: Mode, g: Gains, errors: seq<real>)
    ensures var s := Run(mode, g, errors);
      && s.e0 == At(errors, 1) && s.e1 == At(errors, 2) && s.e2 == At(errors, 3)
      && (!mode.Other? ==>
            s.d0 == Slope(mode, errors, 1) && s.d1 == Slope(mode, errors, 2) && s.d2 == Slope(mode, errors, 3))
      && (mode.Other? ==> s == ZERO_STATE.(e0 := s.e0, e1 := s.e1, e2 := s.e2))
  {
    if errors != [] {
      HistoryIsRecent(mode, g, errors[..|errors| - 1]);
    }
  }

  /** The k-th difference from the end: first differences in positional mode,
      second differences in incremental mode. */
  function Slope(mode: Mode, errors: seq<real>, k: nat): real
    requires k > 0
  {
    if k > |errors| then 0.0
    else if mode.Delta? then At(errors, k) - 2.0 * At(errors, k + 1) + At(errors, k + 2)
    else At(errors, k) - At(errors, k + 1)
  }

  /** Neither limit of the positional form bites at this step. */
  predicate Quiet(g: Gains, s: State, e: real) {
    var i := s.iout + Times(g.ki, e);
    var o := Times(g.kp, e) + i + Times(g.kd, e - s.e0);
    -g.maxIout <= i <= g.maxIout && -g.maxOut <= o <= g.maxOut
  }

  ghost predicate QuietRun(g: Gains, errors: seq<real>) {
    forall k :: 0 <= k < |errors| ==> Quiet(g, Run(Position, g, errors[..k]), errors[k])
  }

  lemma QuietPrefix(g: Gains, errors: seq<real>)
    requires QuietRun(g, errors) && errors != []
    ensures QuietRun(g, errors[..|errors| - 1])
  {
    var rest := errors[..|errors| - 1];
    assert forall k :: 0 <= k < |rest| ==> rest[..k] == errors[..k];
  }

  lemma Scale(k: real, a: real, b: real)
    ensures Times(k, a + b) == Times(k, a) + Times(k, b) && Times(k, a - b) == Times(k, a) - Times(k, b)
  {}

  lemma TextbookOfNothing(g: Gains)
    ensures Textbook(g, []) == 0.0 && Times(g.ki, Sum([])) == 0.0
  {}

  lemma {:induction false} PositionIsTextbook(g: Gains, errors: seq<real>)
    requires QuietRun(g, errors)
    ensures var s := Run(Position, g, errors);
      s.e0 == At(errors, 1) && s.iout == Times(g.ki, Sum(errors)) && s.out == Textbook(g, errors)
  {
    hide Times;
    if errors != [] {
      var n := |errors| - 1;
      var rest, e := errors[..n], errors[n];
      QuietPrefix(g, errors);
      PositionIsTextbook(g, rest);
      assert Quiet(g, Run(Position, g, rest), e);
      Scale(g.ki, Sum(rest), e);
      assert At(errors, 2) == At(rest, 1);
    } else {
      TextbookOfNothing(g);
    }
  }

  /** What the textbook output gains by one more error telescopes to the
      increments of the incremental form. */
  lemma TextbookIncrement(g: Gains, errors: seq<real>)
    requires errors != []
    ensures var (rest, e) := (errors[..|errors| - 1], errors[|errors| - 1]);
      Textbook(g, errors) == Textbook(g, rest) + (
        Times(g.kp, e - At(rest, 1)) + Times(g.ki, e) + Times(g.kd, e - 2.0 * At(rest, 1) + At(rest, 2)))
  {}

  lemma {:induction false} DeltaIsTextbook(g: Gains, errors: seq<real>)
    requires QuietRun(g, errors)
    ensures var s := Run(Delta, g, errors);
      s.e0 == At(errors, 1) && s.e1 == At(errors, 2) && s.out == Textbook(g, errors)
  {
    hide Times;
    if errors != [] {
      var n := |errors| - 1;
      var rest, e := errors[..n], errors[n];
      QuietPrefix(g, errors);
      DeltaIsTextbook(g, rest);
      TextbookIncrement(g, errors);
      assert At(errors, 1) == e && At(errors, 2) == At(rest, 1);
      TextbookWithin(g, errors);
    } else {
      TextbookOfNothing(g);
    }
  }

  /** In a quiet run the textbook output is within the output limit. */
  lemma TextbookWithin(g: Gains, errors: seq<real>)
    requires QuietRun(g, errors) && errors != []
    ensures -g.maxOut <= Textbook(g, errors) <= g.maxOut
  {
    hide Times;
    var n := |errors| - 1;
    var rest, e := errors[..n], errors[n];
    QuietPrefix(g, errors);
    PositionIsTextbook(g, rest);
    assert Quiet(g, Run(Position, g, rest), e);
    Scale(g.ki, Sum(rest), e);
    assert At(errors, 2) == At(rest, 1);
  }

  /** On every error sequence on which no limit of the positional form bites,
      the incremental form gives the same output after every step. */
  lemma DeltaRefinesPosition(g: Gains, errors: seq<real>, k: nat)
    requires QuietRun(g, errors) && k <= |errors|
    ensures Run(Delta, g, errors[..k]).out == Run(Position, g, errors[..k]).out == Textbook(g, errors[..k])
  {
    var part := errors[..k];
    assert forall j :: 0 <= j < k ==> part[..j] == errors[..j];
    PositionIsTextbook(g, part);
    DeltaIsTextbook(g, part);
  }

  // ----- Limits -----

  ghost predicate WithinLimits(mode: Mode, g: Gains, s: State) {
    -g.maxOut <= s.out <= g.maxOut && (mode.Position? ==> -g.maxIout <= s.iout <= g.maxIout)
  }

  /** With non-negative limits, every run in every mode keeps the output, and in
      positional mode the integral, within its limit. */
  lemma {:induction false} RunsStayWithinLimits(mode: Mode, g: Gains, errors: seq<real>)
    requires g.maxOut >= 0.0 && g.maxIout >= 0.0
    ensures WithinLimits(mode, g, Run(mode, g, errors))
  {
    if errors != [] {
      RunsStayWithinLimits(mode, g, errors[..|errors| - 1]);
    }
  }

  /** In every run, limits biting or not, the positional output is the textbook
      value with the limited integral in place of the sum, limited; the integral
      moves by the new error's share and is then limited. */
  lemma PositionLimited(g: Gains, errors: seq<real>)
    requires errors != []
    ensures var (s, before) := (Run(Position, g, errors), Run(Position, g, errors[..|errors| - 1]));
      && s.iout == LimitMax(before.iout + Times(g.ki, At(errors, 1)), g.maxIout)
      && s.out == LimitMax(Textbook(g, errors) + (s.iout - Times(g.ki, Sum(errors))), g.maxOut)
  {
    hide LimitMax;
    var rest := errors[..|errors| - 1];
    PreviousError(Position, g, rest);
    assert At(errors, 2) == At(rest, 1);
    var (p, d) := (Times(g.kp, At(errors, 1)), Times(g.kd, At(errors, 1) - At(errors, 2)));
    var i := Run(Position, g, errors).iout;
    assert Textbook(g, errors) + (i - Times(g.ki, Sum(errors))) == p + i + d;
  }

  /** In every run, limits biting or not, the incremental output moves by what
      the textbook value gained and is then limited. */
  lemma DeltaLimited(g: Gains, errors: seq<real>)
    requires errors != []
    ensures var (rest, s) := (errors[..|errors| - 1], Run(Delta, g, errors));
      s.out == LimitMax(Run(Delta, g, rest).out + (Textbook(g, errors) - Textbook(g, rest)), g.maxOut)
  {
    hide LimitMax, Times, Textbook;
    PreviousError(Delta, g, errors[..|errors| - 1]);
    TextbookIncrement(g, errors);
  }

  lemma PreviousError(mode: Mode, g: Gains, errors: seq<real>)
    ensures Run(mode, g, errors).e0 == At(errors, 1) && Run(mode, g, errors).e1 == At(errors, 2)
  {
    HistoryIsRecent(mode, g, errors);
  }
}
