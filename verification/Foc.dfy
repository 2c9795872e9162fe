// The two users of the voltage limit, current control and open-loop
// modulation, down to the timer's duty registers.
module Foc {
  import opened Octets
  import opened Reals
  import opened PhaseVoltage

  // ---- Duties in thousandths --------------------------------------------------------

  datatype Duties = Duties(a: nat, b: nat, c: nat)

  function DutyToMilli(duty: real): (m: nat)
    ensures m <= 1000
    ensures 0.0 <= duty <= 1.0 ==> -0.0005 <= m as real / 1000.0 - duty <= 0.0005
  {
    var x := duty * 1000.0 + 0.5;
    if x < 0.0 then 0 else if x > 1000.0 then 1000 else x.Floor
  }

  function Millis(p: Phases): (d: Duties)
  {
    Duties(DutyToMilli(p.a), DutyToMilli(p.b), DutyToMilli(p.c))
  }

  const DUTY_MAX: nat := 1000
  const DUTY_MIN_MILLI: nat := 50
  const DUTY_MAX_MILLI: nat := 950

  function ClampDuty(milli: nat): (d: nat)
    ensures d == 0 <==> milli == 0
    ensures d == milli <==> milli == 0 || DUTY_MIN_MILLI <= milli <= DUTY_MAX_MILLI
    ensures d == 0 || DUTY_MIN_MILLI <= d <= DUTY_MAX_MILLI
  {
    if milli == 0 then 0
    else if milli < DUTY_MIN_MILLI then DUTY_MIN_MILLI
    else if milli > DUTY_MAX_MILLI then DUTY_MAX_MILLI
    else milli
  }

  class PhasePwm {
    // Timer counts of a full period half; the reload register has 32 bits.
    const arr: nat
    var duties: Duties
    var compare: Duties

    constructor (arr: nat)
      requires arr < 0x1_0000
      ensures this.arr == arr && duties == compare == Duties(0, 0, 0)
    {
      this.arr := arr;
      duties, compare := Duties(0, 0, 0), Duties(0, 0, 0);
    }

    // `(uint32_t) milli * arr / 1000`, cut to 16 bits.
    function DutyToCcr(milli: nat): (ccr: nat)
      requires milli <= DUTY_MAX
      ensures arr < 0x1_0000 ==> ccr <= arr && ccr * DUTY_MAX <= milli * arr < (ccr + 1) * DUTY_MAX
    {
      CompareFits(milli, arr);
      Thousandths(milli * arr)
    }

    method SetDuty(a: nat, b: nat, c: nat)
      modifies this
      ensures Allowed(duties) && (Allowed(Duties(a, b, c)) ==> duties == Duties(a, b, c))
      ensures duties == Duties(ClampDuty(a), ClampDuty(b), ClampDuty(c))
      ensures compare == Duties(DutyToCcr(duties.a), DutyToCcr(duties.b), DutyToCcr(duties.c))
    {
      duties := Duties(ClampDuty(if a > DUTY_MAX then DUTY_MAX else a), ClampDuty(if b > DUTY_MAX then DUTY_MAX else b),
                       ClampDuty(if c > DUTY_MAX then DUTY_MAX else c));
      compare := Duties(DutyToCcr(duties.a), DutyToCcr(duties.b), DutyToCcr(duties.c));
    }
  }

  lemma CompareFits(milli: nat, arr: nat)
    requires milli <= DUTY_MAX
    ensures 0 <= milli * arr <= DUTY_MAX * arr
  {
    ProductAtMost(milli, DUTY_MAX, arr);
  }

  // A 32-bit product cut down to whole thousandths in 16 bits.
  function Thousandths(product: nat): (q: nat)
    ensures product < DUTY_MAX * 0x1_0000 ==> q * DUTY_MAX <= product < (q + 1) * DUTY_MAX
  {
    product % 0x1_0000_0000 / DUTY_MAX % 0x1_0000
  }

  lemma {:induction false} ProductAtMost(x: nat, y: nat, n: nat)
    requires x <= y
    ensures 0 <= x * n <= y * n
  {
    if n > 0 {
      ProductAtMost(x, y, n - 1);
      assert x * n == x * (n - 1) + x && y * n == y * (n - 1) + y;
    }
  }

  // The duties the sampling window allows.
  predicate Allowed(d: Duties)
  {
    && (d.a == 0 || DUTY_MIN_MILLI <= d.a <= DUTY_MAX_MILLI)
    && (d.b == 0 || DUTY_MIN_MILLI <= d.b <= DUTY_MAX_MILLI)
    && (d.c == 0 || DUTY_MIN_MILLI <= d.c <= DUTY_MAX_MILLI)
  }

  // With the board's limits of five percent, no duty of the linear range is
  // changed on its way to the registers.
  lemma BoardDutiesPass(t: Angle, bus: real, vd: real, vq: real, p: Phases)
    requires Carries(t, bus, 0.05, vd, vq, p)
    ensures Allowed(Millis(p))
  {
    MilliInWindow(p.a);
    MilliInWindow(p.b);
    MilliInWindow(p.c);
  }

  lemma MilliInWindow(duty: real)
    requires 0.05 <= duty <= 0.95
    ensures DUTY_MIN_MILLI <= DutyToMilli(duty) <= DUTY_MAX_MILLI
  {
  }

  // ---- The current controller ---------------------------------------------------------

  // One axis after a sample: what its controller holds and the voltage put out.
  datatype Axis = Axis(integral: real, error: real, command: real, volts: real)

  // The integral a sample that is not limited leaves.
  function Integrated(integral: real, ki: real, error: real, period: real): (i: real)
  {
    integral + error * ki * period
  }

  // One sample of an axis: the integral ends where the controller would put out
  // the voltage that was put out, as far as the voltage range goes.
  predicate Regulated(kp: real, ki: real, maxV: real, integral: real, period: real, ff: real, b: Axis)
  {
    && b.command == -(kp * b.error + Integrated(integral, ki, b.error, period))
    && b.integral == Limit(-(b.volts - ff) - kp * b.error, -maxV, maxV)
  }

  // Neither the voltage nor the integral was limited.
  predicate Unlimited(ki: real, maxV: real, integral: real, period: real, ff: real, b: Axis)
  {
    b.volts == b.command + ff && -maxV <= Integrated(integral, ki, b.error, period) <= maxV
  }

  // An axis that was not limited carries its integral on; in any case the
  // controller now agrees with the voltage put out, or stands at the end of its
  // range.
  lemma RegulatedMeans(kp: real, ki: real, maxV: real, integral: real, period: real, ff: real, b: Axis)
    requires Regulated(kp, ki, maxV, integral, period, ff, b)
    ensures Unlimited(ki, maxV, integral, period, ff, b) ==> b.integral == Integrated(integral, ki, b.error, period)
    ensures -(kp * b.error + b.integral) + ff == b.volts || b.integral == maxV || b.integral == -maxV
  {
    hide Integrated;
  }

  // The sum of error times period.
  function Area(trail: seq<Axis>, periods: seq<real>): (s: real)
    requires |trail| == |periods|
  {
    if trail == [] then 0.0
    else Area(trail[..|trail| - 1], periods[..|trail| - 1]) + trail[|trail| - 1].error * periods[|trail| - 1]
  }

  function Before(start: real, trail: seq<Axis>, i: nat): (integral: real)
    requires i < |trail|
  {
    if i == 0 then start else trail[i - 1].integral
  }

  // Consecutive samples of one axis, none of them limited; `ffs` are the
  // feedforward voltages.
  predicate NeverLimited(kp: real, ki: real, maxV: real, start: real, trail: seq<Axis>, periods: seq<real>, ffs: seq<real>)
    requires |trail| == |periods| == |ffs|
  {
    forall i :: 0 <= i < |trail| ==>
      && Regulated(kp, ki, maxV, Before(start, trail, i), periods[i], ffs[i], trail[i])
      && Unlimited(ki, maxV, Before(start, trail, i), periods[i], ffs[i], trail[i])
  }

  lemma NeverLimitedBefore(kp: real, ki: real, maxV: real, start: real, trail: seq<Axis>, periods: seq<real>, ffs: seq<real>)
    requires |trail| == |periods| == |ffs| && trail != [] && NeverLimited(kp, ki, maxV, start, trail, periods, ffs)
    ensures var n := |trail| - 1; NeverLimited(kp, ki, maxV, start, trail[..n], periods[..n], ffs[..n])
    ensures var n := |trail| - 1;
      && Regulated(kp, ki, maxV, Before(start, trail, n), periods[n], ffs[n], trail[n])
      && Unlimited(ki, maxV, Before(start, trail, n), periods[n], ffs[n], trail[n])
  {
    hide Regulated, Unlimited;
    var n := |trail| - 1;
    forall i | 0 <= i < n
      ensures trail[..n][i] == trail[i] && Before(start, trail[..n], i) == Before(start, trail, i)
    {
    }
  }

  // The integral after an area of error, from the integral a run began with.
  function Total(start: real, ki: real, area: real): (t: real)
  {
    start + ki * area
  }

  // Over a run in which nothing is limited the controller is the textbook one:
  // the command is -(kp e + ki times the sum of e dt), from the integral the run
  // began with.
  lemma {:induction false} ProportionalIntegral(kp: real, ki: real, maxV: real, start: real, trail: seq<Axis>,
                                                periods: seq<real>, ffs: seq<real>)
    requires |trail| == |periods| == |ffs| && trail != []
    requires NeverLimited(kp, ki, maxV, start, trail, periods, ffs)
    ensures var last, sum := trail[|trail| - 1], Total(start, ki, Area(trail, periods));
      last.integral == sum && last.command == -(kp * last.error + sum)
  {
    hide Regulated, Unlimited, Integrated, NeverLimited, Area, Total;
    var n := |trail| - 1;
    var before := Before(start, trail, n);
    NeverLimitedBefore(kp, ki, maxV, start, trail, periods, ffs);
    if n > 0 {
      assert trail[..n][n - 1] == trail[n - 1];
      ProportionalIntegral(kp, ki, maxV, start, trail[..n], periods[..n], ffs[..n]);
    } else {
      AreaNothing(start, ki, trail, periods);
    }
    AreaNext(trail, periods);
    OneMore(ki, start, Area(trail[..n], periods[..n]), trail[n].error, periods[n], Area(trail, periods));
    LastSample(kp, ki, maxV, before, periods[n], ffs[n], trail[n], Total(start, ki, Area(trail, periods)));
  }

  lemma AreaNothing(start: real, ki: real, trail: seq<Axis>, periods: seq<real>)
    requires |trail| == |periods|
    ensures Total(start, ki, Area(trail[..0], periods[..0])) == start
  {
  }

  lemma AreaNext(trail: seq<Axis>, periods: seq<real>)
    requires |trail| == |periods| && trail != []
    ensures var n := |trail| - 1; Area(trail, periods) == Area(trail[..n], periods[..n]) + trail[n].error * periods[n]
  {
  }

  lemma OneMore(ki: real, start: real, area: real, error: real, period: real, next: real)
    requires next == area + error * period
    ensures Integrated(Total(start, ki, area), ki, error, period) == Total(start, ki, next)
  {
    calc {
      Total(start, ki, next);
      start + ki * (area + error * period);
      start + (ki * area + ki * (error * period));
      start + ki * area + error * ki * period;
    }
  }

  lemma LastSample(kp: real, ki: real, maxV: real, integral: real, period: real, ff: real, b: Axis, total: real)
    requires Regulated(kp, ki, maxV, integral, period, ff, b) && Unlimited(ki, maxV, integral, period, ff, b)
    requires Integrated(integral, ki, b.error, period) == total
    ensures b.integral == total && b.command == -(kp * b.error + total)
  {
    hide Integrated;
    RegulatedMeans(kp, ki, maxV, integral, period, ff, b);
  }

  class SimplePi {
    var kp: real
    var ki: real
    var maxDesiredRate: real
    var integral: real
    var desired: Option<real>
    var error: real
    var command: real

    constructor (kp: real, ki: real, maxDesiredRate: real)
      ensures this.kp == kp && this.ki == ki && this.maxDesiredRate == maxDesiredRate
      ensures integral == error == command == 0.0 && desired == None
    {
      this.kp, this.ki, this.maxDesiredRate := kp, ki, maxDesiredRate;
      integral, desired, error, command := 0.0, None, 0.0, 0.0;
    }

    // The output the present error and integral give.
    function Output(): (r: real)
      reads this
    {
      -(kp * error + integral)
    }

    // The setpoint slews toward the input where a rate is set.
    function Setpoint(from: Option<real>, input: real, period: real): (x: real)
      reads this`maxDesiredRate
    {
      if maxDesiredRate != 0.0 && from.Some? then Slew(from.value, input, MaxStep(maxDesiredRate, period)) else input
    }

    // The state one sample leaves, from the integral and setpoint before it.
    predicate Applied(integral0: real, desired0: Option<real>, measured: real, input: real, period: real)
      reads this`kp, this`ki, this`maxDesiredRate, this`desired, this`error, this`command
    {
      && desired == Some(Setpoint(desired0, input, period)) && error == measured - desired.value
      && command == -(kp * error + (integral0 + error * ki * period))
    }

    function After(volts: real): (a: Axis)
      reads this
    {
      Axis(integral, error, command, volts)
    }

    // Whether or not the output was limited, back-calculation leaves the
    // integral that gives the voltage put out.
    lemma AfterIs(integral0: real, period: real, wanted: real, limited: real, ff: real, maxV: real)
      requires command == -(kp * error + Integrated(integral0, ki, error, period)) && wanted == command + ff
      requires integral == Limit(if wanted == limited then Integrated(integral0, ki, error, period)
                                 else IntegralFor(limited - ff), -maxV, maxV)
      ensures Regulated(kp, ki, maxV, integral0, period, ff, After(limited))
    {
    }

    static function MaxStep(rate: real, period: real): (step: real)
      ensures rate > 0.0 && period > 0.0 ==> step > 0.0
    {
      rate * period
    }

    static function Slew(from: real, input: real, step: real): (target: real)
      ensures step >= 0.0 ==> target == Limit(input, from - step, from + step)
    {
      from + Limit(input - from, -step, step)
    }

    method Apply(measured: real, inputDesired: real, period: real) returns (r: real)
      modifies this
      ensures r == Output() == command == -(kp * error + integral) && desired.Some? && error == measured - desired.value
      ensures kp == old(kp) && ki == old(ki) && maxDesiredRate == old(maxDesiredRate)
      ensures integral == Integrated(old(integral), ki, error, period)
      ensures Applied(old(integral), old(desired), measured, inputDesired, period)
      // The setpoint moves toward the input, no faster than the rate allows.
      ensures old(desired).Some? && maxDesiredRate > 0.0 && period > 0.0 ==>
        var from, step := old(desired).value, MaxStep(maxDesiredRate, period);
        desired == Some(Limit(inputDesired, from - step, from + step))
      ensures old(desired) == None || maxDesiredRate == 0.0 ==> desired == Some(inputDesired)
    {
      hide SimplePi.MaxStep, SimplePi.Slew, Limit;
      var target := inputDesired;
      if maxDesiredRate != 0.0 && desired.Some? {
        target := Slew(desired.value, inputDesired, MaxStep(maxDesiredRate, period));
      }
      desired := Some(target);
      error := measured - target;
      integral := integral + error * ki * period;
      command := -(kp * error + integral);
      r := command;
    }

    // With this integral the controller would put out exactly the target.
    function IntegralFor(target: real): (i: real)
      reads this
    {
      -target - kp * error
    }

    method SetIntegralForOutput(target: real)
      modifies this`integral
      ensures Output() == target && integral == IntegralFor(target)
    {
      integral := IntegralFor(target);
    }
  }

  // The square root the voltage limit takes.
  ghost predicate TakesRoots(sqrt: real -> real)
  {
    forall x :: x >= 0.0 ==> IsRoot(sqrt(x), x)
  }

  class FocController {
    const minDuty: real
    const maxDuty: real
    var bus: real
    const d: SimplePi
    const q: SimplePi
    var vd: real
    var vq: real

    ghost predicate Valid()
      reads this
    {
      d != q && 0.0 <= minDuty < 0.5 && maxDuty == 1.0 - minDuty
    }

    constructor (minDuty: real, bus: real, d: SimplePi, q: SimplePi)
      requires d != q && 0.0 <= minDuty < 0.5
      ensures Valid() && this.minDuty == minDuty && this.bus == bus && this.d == d && this.q == q && vd == vq == 0.0
    {
      this.minDuty, this.maxDuty, this.bus, this.d, this.q := minDuty, 1.0 - minDuty, bus, d, q;
      vd, vq := 0.0, 0.0;
    }

    // D-axis priority circle limit.
    static method LimitToMaxVoltage(maxV: real, dV: real, qV: real, sqrt: real -> real) returns (d': real, q': real)
      requires TakesRoots(sqrt)
      ensures maxV >= 0.0 ==> Limited(maxV, dV, qV, d', q')
      ensures dV * dV + qV * qV <= maxV * maxV ==> d' == dV && q' == qV
    {
      hide Limited;
      d', q' := dV, qV;
      var len := dV * dV + qV * qV;
      if len <= maxV * maxV {
        if maxV >= 0.0 {
          InsideIsLimited(maxV, dV, qV, sqrt);
        }
        return;
      }
      d' := Limit(dV, -maxV, maxV);
      var remain := maxV * maxV - d' * d';
      if remain < 0.0 {
        remain := 0.0;
      }
      var qMax := sqrt(remain);
      q' := Limit(qV, -qMax, qMax);
      if maxV >= 0.0 {
        SquareOrder(d', maxV);
        CutIsLimited(maxV, dV, qV, d', q', qMax);
      }
    }

    // After saturation the integrator agrees with the voltage put out, and
    // never leaves the voltage range.
    method BackCalculate(pi: SimplePi, wanted: real, limited: real, feedForward: real, maxV: real,
                         ghost integral0: real, ghost period: real)
      requires pi.integral == Integrated(integral0, pi.ki, pi.error, period)
      requires pi.command == -(pi.kp * pi.error + pi.integral) && wanted == pi.command + feedForward
      modifies pi`integral
      ensures Regulated(pi.kp, pi.ki, maxV, integral0, period, feedForward, pi.After(limited))
      ensures maxV >= 0.0 ==> -maxV <= pi.integral <= maxV
      ensures wanted != limited && -maxV <= pi.IntegralFor(limited - feedForward) <= maxV ==>
        pi.Output() + feedForward == limited
      ensures pi.integral ==
        Limit(if wanted == limited then old(pi.integral) else pi.IntegralFor(limited - feedForward), -maxV, maxV)
    {
      hide Integrated, Regulated;
      if limited != wanted {
        pi.SetIntegralForOutput(limited - feedForward);
      }
      pi.integral := Limit(pi.integral, -maxV, maxV);
      pi.AfterIs(integral0, period, wanted, limited, feedForward, maxV);
    }

    method Output(t: Angle) returns (out: Option<Duties>, ghost duties: Phases)
      requires Valid() && t.Ok() && t.r > 0.0
      requires bus > 0.001 ==> vd * vd + vq * vq <= MaxVoltage(minDuty, bus, t.r) * MaxVoltage(minDuty, bus, t.r)
      ensures out.Some? <==> bus > 0.001
      ensures out.Some? ==> out.value == Millis(duties) && Carries(t, bus, minDuty, vd, vq, duties)
    {
      out, duties := Modulate(t, bus, minDuty, maxDuty, vd, vq);
    }

    // From currents to duties. `t` is the predicted angle.
    method Step(id: real, iq: real, idRef: real, iqRef: real, dFf: real, qFf: real, dt: real, t: Angle,
                sqrt: real -> real)
      returns (out: Option<Duties>, ghost duties: Phases)
      requires Valid() && TakesRoots(sqrt) && t.Ok() && t.r > 0.0
      modifies this, d, q
      ensures Valid() && bus == old(bus)
      ensures d.kp == old(d.kp) && d.ki == old(d.ki) && q.kp == old(q.kp) && q.ki == old(q.ki)
      ensures out.Some? <==> bus > 0.001
      ensures d.Applied(old(d.integral), old(d.desired), id, idRef, Max(dt, 0.0))
      ensures q.Applied(old(q.integral), old(q.desired), iq, iqRef, Max(dt, 0.0))
      ensures var maxV, period := MaxVoltage(minDuty, bus, t.r), Max(dt, 0.0);
        && Regulated(d.kp, d.ki, maxV, old(d.integral), period, dFf, d.After(vd))
        && Regulated(q.kp, q.ki, maxV, old(q.integral), period, qFf, q.After(vq))
      ensures out.Some? ==> out.value == Millis(duties) && Carries(t, bus, minDuty, vd, vq, duties)
      ensures out.Some? ==> var maxV := MaxVoltage(minDuty, bus, t.r);
        && Limited(maxV, d.command + dFf, q.command + qFf, vd, vq)
        && -maxV <= d.integral <= maxV && -maxV <= q.integral <= maxV
    {
      hide Limited, Carries, Millis, MaxVoltage, SimplePi.Output, SimplePi.IntegralFor, SimplePi.Applied, Limit;
      hide Regulated, Integrated;
      var period := if dt < 0.0 then 0.0 else dt;
      var maxV := MaxVoltage(minDuty, bus, t.r);
      var pd := d.Apply(id, idRef, period);
      var pq := q.Apply(iq, iqRef, period);
      var dV, qV := LimitToMaxVoltage(maxV, pd + dFf, pq + qFf, sqrt);
      BackCalculate(d, pd + dFf, dV, dFf, maxV, old(d.integral), period);
      BackCalculate(q, pq + qFf, qV, qFf, maxV, old(q.integral), period);
      vd, vq := dV, qV;
      if bus > 0.001 {
        MaxVoltagePositive(minDuty, bus, t.r);
        LimitedMeans(maxV, pd + dFf, pq + qFf, dV, qV);
      }
      out, duties := Output(t);
    }
  }

  lemma MaxVoltagePositive(minDuty: real, bus: real, r: real)
    requires r > 0.0 && bus > 0.0 && minDuty < 0.5
    ensures MaxVoltage(minDuty, bus, r) >= 0.0
  {
    var k := Positive(0.5 - minDuty, bus);
    var _ := Positive(k, 2.0 / r);
  }

  lemma InsideIsLimited(maxV: real, d: real, q: real, sqrt: real -> real)
    requires TakesRoots(sqrt) && maxV >= 0.0 && d * d + q * q <= maxV * maxV
    ensures Limited(maxV, d, q, d, q)
  {
    assert q * q >= 0.0 && d * d >= 0.0;
    SquareOrder(d, maxV);
    var root := sqrt(Remaining(maxV, d));
    assert IsRoot(root, Remaining(maxV, d));
    SquareOrder(q, root);
  }

  lemma CutIsLimited(maxV: real, d: real, q: real, d': real, q': real, root: real)
    requires d' == Limit(d, -maxV, maxV) && q' == Limit(q, -root, root)
    requires IsRoot(root, maxV * maxV - d' * d')
    ensures Limited(maxV, d, q, d', q')
  {
    assert IsRoot(root, Remaining(maxV, d'));
  }

  // The duties put exactly the voltage vector on the motor, unclamped.
  predicate Carries(t: Angle, bus: real, minDuty: real, vd: real, vq: real, duties: Phases)
  {
    && InRange(duties, minDuty, 1.0 - minDuty)
    && Min3(duties) + Max3(duties) == 1.0
    && DqD(t, Scale(duties, bus)) == vd && DqQ(t, Scale(duties, bus)) == vq
  }

  method Modulate(t: Angle, bus: real, minDuty: real, maxDuty: real, vd: real, vq: real)
    returns (out: Option<Duties>, ghost duties: Phases)
    requires t.Ok() && t.r > 0.0 && 0.0 <= minDuty < 0.5 && maxDuty == 1.0 - minDuty
    requires bus > 0.001 ==> vd * vd + vq * vq <= MaxVoltage(minDuty, bus, t.r) * MaxVoltage(minDuty, bus, t.r)
    ensures out.Some? <==> bus > 0.001
    ensures out.Some? ==> out.value == Millis(duties) && Carries(t, bus, minDuty, vd, vq, duties)
  {
    hide InverseDq, Centred, DqD, DqQ, Scale, DutyToMilli;
    duties := Phases(0.5, 0.5, 0.5);
    var v := InverseDq(t, vd, vq);
    var pwm := FromPhaseVolts(v, bus, minDuty, maxDuty);
    if pwm == None {
      return None, duties;
    }
    LinearRange(t, vd, vq, bus, minDuty);
    CentredBalances(v, bus);
    DutiesCarryVoltage(t, vd, vq, bus);
    duties := pwm.value;
    out := Some(Duties(DutyToMilli(pwm.value.a), DutyToMilli(pwm.value.b), DutyToMilli(pwm.value.c)));
  }

  // The open-loop modulator, with its own form of the limit.
  class DqModulator {
    const minDuty: real
    const maxDuty: real
    var bus: real
    var voltage: real
    var qVoltage: real

    constructor (minDuty: real, bus: real)
      ensures this.minDuty == minDuty && maxDuty == 1.0 - minDuty && this.bus == bus && voltage == qVoltage == 0.0
    {
      this.minDuty, this.maxDuty, this.bus := minDuty, 1.0 - minDuty, bus;
      voltage, qVoltage := 0.0, 0.0;
    }

    method LimitVoltage(maxV: real, sqrt: real -> real) returns (vd: real, vq: real)
      requires TakesRoots(sqrt)
      ensures maxV >= 0.0 ==> Limited(maxV, voltage, qVoltage, vd, vq)
    {
      hide Limited;
      vd, vq := voltage, qVoltage;
      if vd > maxV {
        vd := maxV;
      } else if vd < -maxV {
        vd := -maxV;
      }
      var room := maxV * maxV - vd * vd;
      if room < 0.0 {
        room := 0.0;
      }
      var qLimit := sqrt(room);
      if vq > qLimit {
        vq := qLimit;
      } else if vq < -qLimit {
        vq := -qLimit;
      }
      if maxV >= 0.0 {
        SquareOrder(vd, maxV);
        CutIsLimited(maxV, voltage, qVoltage, vd, vq, qLimit);
      }
    }

    method Step(t: Angle, sqrt: real -> real) returns (out: Option<Duties>, ghost duties: Phases, vd: real, vq: real)
      requires TakesRoots(sqrt) && t.Ok() && t.r > 0.0 && 0.0 <= minDuty < 0.5 && maxDuty == 1.0 - minDuty
      ensures out.Some? <==> bus > 0.001
      ensures out.Some? ==>
        && Limited(MaxVoltage(minDuty, bus, t.r), voltage, qVoltage, vd, vq)
        && out.value == Millis(duties) && Carries(t, bus, minDuty, vd, vq, duties)
    {
      hide Limited, Carries, Millis, MaxVoltage;
      var maxV := MaxVoltage(minDuty, bus, t.r);
      vd, vq := LimitVoltage(maxV, sqrt);
      if bus > 0.001 {
        MaxVoltagePositive(minDuty, bus, t.r);
        LimitedMeans(maxV, voltage, qVoltage, vd, vq);
      }
      out, duties := Modulate(t, bus, minDuty, maxDuty, vd, vq);
    }
  }
}
