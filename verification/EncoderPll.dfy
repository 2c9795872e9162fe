// Angles modulo one turn, the encoder's tracking loop and the mapping of
// single-turn targets.
module EncoderPll {
  import opened Reals

  function Turns(k: int): (x: real)
  {
    k as real * TWO_PI
  }

  // `a` and `b` are the same angle.
  ghost predicate Congruent(a: real, b: real)
  {
    exists k: int :: a - b == Turns(k)
  }

  lemma CongruentBy(a: real, b: real, k: int)
    requires a - b == Turns(k)
    ensures Congruent(a, b) && Congruent(b, a)
  {
    assert b - a == Turns(-k);
  }

  lemma CongruentChain(a: real, b: real, c: real)
    requires Congruent(a, b) && Congruent(b, c)
    ensures Congruent(a, c)
  {
    var j :| a - b == Turns(j);
    var k :| b - c == Turns(k);
    assert a - c == Turns(j + k);
  }

  lemma CongruentBack(a: real, b: real)
    requires Congruent(a, b)
    ensures Congruent(b, a)
  {
    var k :| a - b == Turns(k);
    CongruentBy(b, a, -k);
  }

  lemma CongruentShift(a: real, b: real, d: real)
    requires Congruent(a, b)
    ensures Congruent(a + d, b + d)
  {
    var k :| a - b == Turns(k);
    CongruentBy(a + d, b + d, k);
  }

  method WrapZeroToTwoPi(x: real) returns (r: real)
    ensures r == WrapZero(x)
  {
    var divisor := Truncate(x / TWO_PI);
    var mod := x - divisor as real * TWO_PI;
    r := if mod >= 0.0 then mod else mod + TWO_PI;
  }

  function WrapZero(x: real): (r: real)
    ensures 0.0 <= r < TWO_PI
  {
    var divisor := Truncate(x / TWO_PI);
    var mod := x - divisor as real * TWO_PI;
    if mod >= 0.0 then mod else mod + TWO_PI
  }

  lemma WrapZeroCongruent(x: real)
    ensures Congruent(x, WrapZero(x))
  {
    var divisor := Truncate(x / TWO_PI);
    var mod := x - divisor as real * TWO_PI;
    CongruentBy(x, WrapZero(x), if mod >= 0.0 then divisor else divisor - 1);
  }

  // Of the two names of half a turn, every angle but -PI itself gets PI.
  function WrapNeg(x: real): (r: real)
    ensures -PI <= r <= PI
    ensures r == -PI <==> x == -PI
    ensures -PI <= x <= PI ==> r == x
  {
    if -PI <= x <= PI then x
    else if WrapZero(x) > PI then WrapZero(x) - TWO_PI
    else WrapZero(x)
  }

  lemma WrapNegCongruent(x: real)
    ensures Congruent(x, WrapNeg(x))
  {
    WrapZeroCongruent(x);
    if -PI <= x <= PI {
      CongruentBy(x, x, 0);
    } else if WrapZero(x) > PI {
      CongruentBy(WrapZero(x), WrapZero(x) - TWO_PI, 1);
      CongruentChain(x, WrapZero(x), WrapNeg(x));
    }
  }

  // The target one turn of the encoder names, as near as can be to where the
  // motor is now.
  method MapSingleTurnCommand(command: real, measured: real) returns (target: real)
    ensures Congruent(target, command)
    ensures forall other :: Congruent(other, command) ==> Abs(target - measured) <= Abs(other - measured)
  {
    var c := WrapZeroToTwoPi(command);
    var m := WrapZeroToTwoPi(measured);
    target := measured + WrapNeg(c - m);
    WrapZeroCongruent(command);
    WrapZeroCongruent(measured);
    WrapNegCongruent(c - m);
    // target - measured ~ c - m, so target ~ c + (measured - m) ~ c ~ command
    var j :| c - m - WrapNeg(c - m) == Turns(j);
    var k :| measured - m == Turns(k);
    var l :| command - c == Turns(l);
    CongruentBy(target, command, k - j - l);
    forall other | Congruent(other, command)
      ensures Abs(target - measured) <= Abs(other - measured)
    {
      Nearest(target, other, command, measured);
    }
  }

  lemma Nearest(target: real, other: real, command: real, measured: real)
    requires Congruent(target, command) && Congruent(other, command) && Abs(target - measured) <= PI
    ensures Abs(target - measured) <= Abs(other - measured)
  {
    var j :| target - command == Turns(j);
    var k :| other - command == Turns(k);
    assert other - target == Turns(k - j);
    if k - j >= 1 {
      assert other - target >= TWO_PI;
    } else if k - j <= -1 {
      assert other - target <= -TWO_PI;
    }
  }

  function SampleTime(dt: real): (step: real)
    ensures step > 0.0
  {
    if dt < 0.0000001 then 0.0000001 else dt
  }

  // The electrical angle of a rotor at `angle`.
  function Electrical(angle: real, polePairs: real, correction: real): (x: real)
  {
    angle * polePairs + correction
  }

  // The integral and the proportional part of the loop.
  function Pushed(x: real, step: real, ki: real, error: real): (y: real)
  {
    x + step * ki * error
  }

  function Corrected(x: real, kp: real, error: real): (y: real)
  {
    x + kp * error
  }

  // The loop's gain over one sample is positive and at most one.
  predicate Contracts(kp: real, ki: real, step: real)
  {
    0.0 < (kp + ki * step) * step <= 1.0
  }

  // The wrapped error to the sample has shrunk by the distance travelled, and
  // has shrunk unless there was none.
  ghost predicate Nearer(measured: real, before: real, after: real, travel: real)
  {
    var was, now := WrapNeg(measured - before), WrapNeg(measured - after);
    Abs(now) == Abs(was) - Abs(travel) && (was != 0.0 ==> Abs(now) < Abs(was))
  }

  // An eighth of a turn a sample, or the ceiling if that is less.
  function SpeedLimit(step: real, ceiling: real): (v: real)
    requires step > 0.0
  {
    var eighth := TWO_PI * 0.125 / step;
    if 0.0 < ceiling < eighth then ceiling else eighth
  }

  class EncoderPll {
    var kp: real
    var ki: real
    var maxVelocity: real
    var polePairs: real
    var filtered: real
    var integral: real
    var velocity: real
    var position: real
    var electricalTheta: real
    var haveSample: bool

    // The unwrapped position is the wrapped angle plus whole turns.
    ghost predicate Valid()
      reads this
    {
      haveSample ==>
        && 0.0 <= filtered < TWO_PI && Congruent(position, filtered)
        && 0.0 <= electricalTheta < TWO_PI
    }

    constructor (kp: real, ki: real, maxVelocity: real, polePairs: real)
      ensures Valid() && !haveSample
      ensures this.kp == kp && this.ki == ki && this.maxVelocity == maxVelocity && this.polePairs == polePairs
    {
      this.kp, this.ki, this.maxVelocity, this.polePairs := kp, ki, maxVelocity, polePairs;
      filtered, integral, velocity, position, electricalTheta, haveSample := 0.0, 0.0, 0.0, 0.0, 0.0, false;
    }

    method Reset(theta: real, correction: real)
      modifies this
      ensures Valid() && haveSample && position == filtered == WrapZero(theta) && velocity == 0.0
      ensures Congruent(electricalTheta, Electrical(filtered, polePairs, correction))
      ensures kp == old(kp) && ki == old(ki) && maxVelocity == old(maxVelocity) && polePairs == old(polePairs)
    {
      filtered := WrapZeroToTwoPi(theta);
      integral, velocity, position := 0.0, 0.0, filtered;
      CongruentBy(position, filtered, 0);
      SetElectrical(correction);
      haveSample := true;
    }

    method SetElectrical(correction: real)
      modifies this`electricalTheta
      ensures 0.0 <= electricalTheta < TWO_PI && Congruent(electricalTheta, Electrical(filtered, polePairs, correction))
    {
      hide Congruent, WrapZero, Electrical;
      var angle := Electrical(filtered, polePairs, correction);
      WrapZeroCongruent(angle);
      electricalTheta := WrapZeroToTwoPi(angle);
      CongruentBack(angle, electricalTheta);
    }

    // At most an eighth of a turn a sample.
    static method MaxVelocity(step: real, ceiling: real) returns (maxVel: real)
      requires step > 0.0
      ensures maxVel == SpeedLimit(step, ceiling) > 0.0 && maxVel * step <= TWO_PI / 8.0
      ensures ceiling > 0.0 ==> maxVel <= ceiling
    {
      maxVel := TWO_PI * 0.125 / step;
      EighthTurn(step, ceiling);
      if ceiling > 0.0 && ceiling < maxVel {
        maxVel := ceiling;
      }
    }

    // The loop filter: velocity from the wrapped error, limited.
    method Filter(measured: real, step: real) returns (maxVel: real)
      requires step > 0.0
      modifies this`integral, this`velocity
      ensures -maxVel <= velocity <= maxVel && maxVel * step <= TWO_PI / 8.0
      ensures maxVelocity > 0.0 ==> maxVel <= maxVelocity
      ensures Follows(filtered, old(integral), measured, step)
    {
      hide WrapNeg, SpeedLimit, Pushed, Corrected, Limit;
      var error := WrapNeg(measured - filtered);
      var pushed := Pushed(integral, step, ki, error);
      maxVel := MaxVelocity(step, maxVelocity);
      integral := Limit(pushed, -maxVel, maxVel);
      velocity := Limit(Corrected(pushed, kp, error), -maxVel, maxVel);
    }

    // The first sample resets the loop; every later one moves the position by
    // at most an eighth of a turn, and by no more than the velocity ceiling. A
    // rotor that turns at the speed the loop has integrated comes nearer.
    method Update(theta: real, dt: real, correction: real)
      requires Valid()
      modifies this
      ensures Valid() && haveSample
      ensures !old(haveSample) ==> position == WrapZero(theta) && velocity == 0.0
      ensures old(haveSample) ==>
        && position == old(position) + velocity * SampleTime(dt)
        && Abs(position - old(position)) <= TWO_PI / 8.0
        && (maxVelocity > 0.0 ==> Abs(velocity) <= maxVelocity)
        && Follows(old(filtered), old(integral), WrapZero(theta), SampleTime(dt))
      ensures Congruent(electricalTheta, Electrical(filtered, polePairs, correction))
      ensures kp == old(kp) && ki == old(ki) && maxVelocity == old(maxVelocity) && polePairs == old(polePairs)
      ensures old(haveSample) ==> Closes(old(filtered), old(integral), WrapZero(theta), SampleTime(dt))
    {
      hide Congruent, WrapZero, SampleTime, EncoderPll.Follows, EncoderPll.Closes, SpeedLimit;
      var step := SampleTime(dt);
      var measured := WrapZeroToTwoPi(theta);
      if !haveSample {
        Reset(measured, correction);
        WrapOnce(theta);
        return;
      }
      ghost var before := filtered;
      var maxVel := Filter(measured, step);
      ghost var integral0 := old(integral);
      Advance(step, maxVel);
      ComesCloser(before, integral0, measured, step);
      SetElectrical(correction);
    }

    // Where the rotor will be when it turns at the speed the loop had integrated
    // before this sample is nearer than it was, if the loop's gain allows.
    ghost predicate Closes(filtered0: real, integral0: real, measured: real, step: real)
      requires step > 0.0
      reads this`filtered, this`velocity, this`kp, this`ki, this`maxVelocity
    {
      Contracts(kp, ki, step) && Abs(integral0) < SpeedLimit(step, maxVelocity) ==>
        var turned := integral0 * step;
        Nearer(measured + turned, filtered0 + turned, filtered, velocity * step - turned)
    }

    lemma ComesCloser(filtered0: real, integral0: real, measured: real, step: real)
      requires step > 0.0 && Follows(filtered0, integral0, measured, step)
      requires Congruent(filtered, filtered0 + velocity * step)
      ensures Closes(filtered0, integral0, measured, step)
    {
      hide Contracts, SpeedLimit, Nearer, EncoderPll.Follows, Congruent;
      if Contracts(kp, ki, step) && Abs(integral0) < SpeedLimit(step, maxVelocity) {
        FollowsCloser(filtered0, integral0, measured, step, integral0 * step, velocity * step);
      }
    }

    lemma FollowsCloser(filtered0: real, integral0: real, measured: real, step: real, turned: real, moved: real)
      requires step > 0.0 && Contracts(kp, ki, step) && turned == integral0 * step && moved == velocity * step
      requires Abs(integral0) < SpeedLimit(step, maxVelocity)
      requires Follows(filtered0, integral0, measured, step) && Congruent(filtered, filtered0 + moved)
      ensures Nearer(measured + turned, filtered0 + turned, filtered, moved - turned)
    {
      hide WrapNeg, Congruent, SpeedLimit, Pushed, Corrected, Limit, Contracts, Abs;
      var travel := moved - turned;
      Faster(velocity, integral0, step, travel);
      assert measured + turned - (filtered0 + turned) == measured - filtered0;
      assert filtered0 + turned + travel == filtered0 + moved;
      Tracks(WrapNeg(measured - filtered0), kp, ki, step, SpeedLimit(step, maxVelocity), integral0, velocity, travel);
      Closer(measured + turned, filtered0 + turned, travel, filtered);
    }

    // Velocity and integral follow the wrapped error to the sample.
    predicate Follows(filtered0: real, integral0: real, measured: real, step: real)
      requires step > 0.0
      reads this`integral, this`velocity, this`kp, this`ki, this`maxVelocity
    {
      var error, limit := WrapNeg(measured - filtered0), SpeedLimit(step, maxVelocity);
      var pushed := Pushed(integral0, step, ki, error);
      && integral == Limit(pushed, -limit, limit)
      && velocity == Limit(Corrected(pushed, kp, error), -limit, limit)
    }

    method Advance(step: real, maxVel: real)
      requires Valid() && haveSample && step > 0.0 && -maxVel <= velocity <= maxVel && maxVel * step <= TWO_PI / 8.0
      modifies this`filtered, this`position
      ensures position == old(position) + velocity * step && Abs(position - old(position)) <= TWO_PI / 8.0
      ensures 0.0 <= filtered < TWO_PI && Congruent(position, filtered)
      ensures Congruent(filtered, old(filtered) + velocity * step)
    {
      hide Congruent, WrapZero;
      var travel := velocity * step;
      TravelBound(velocity, maxVel, step, travel);
      ghost var moved := filtered + travel;
      CongruentShift(position, filtered, travel);
      filtered := WrapZeroToTwoPi(filtered + travel);
      WrapZeroCongruent(moved);
      CongruentBack(moved, filtered);
      position := position + travel;
      CongruentChain(position, moved, filtered);
    }
  }

  // The same angle within half a turn has the same size.
  lemma SameSize(a: real, b: real)
    requires Congruent(a, b) && -PI <= a <= PI && -PI <= b <= PI
    ensures Abs(a) == Abs(b)
  {
    var k :| a - b == Turns(k);
    ManyTurns(k);
    assert Turns(1) == TWO_PI && Turns(-1) == -TWO_PI && Turns(0) == 0.0;
  }

  lemma ManyTurns(k: int)
    ensures k >= 2 ==> Turns(k) >= 2.0 * TWO_PI
    ensures k <= -2 ==> Turns(k) <= -2.0 * TWO_PI
  {
  }

  // Travel towards the sample, and no further than to it, is taken off the
  // wrapped error.
  lemma Closer(measured: real, filtered: real, travel: real, filtered': real)
    requires Congruent(filtered', filtered + travel)
    requires var e := WrapNeg(measured - filtered); 0.0 <= travel <= e || e <= travel <= 0.0
    ensures Abs(WrapNeg(measured - filtered')) == Abs(WrapNeg(measured - filtered)) - Abs(travel)
  {
    hide WrapNeg, Congruent;
    var e := WrapNeg(measured - filtered);
    WrapNegCongruent(measured - filtered);
    WrapNegCongruent(measured - filtered');
    CongruentShift(filtered', filtered + travel, -filtered' - filtered - travel + measured);
    assert filtered' + (-filtered' - filtered - travel + measured) == measured - filtered - travel;
    assert filtered + travel + (-filtered' - filtered - travel + measured) == measured - filtered';
    CongruentShift(measured - filtered, e, -travel);
    CongruentBack(measured - filtered', WrapNeg(measured - filtered'));
    CongruentBack(measured - filtered - travel, measured - filtered');
    CongruentChain(WrapNeg(measured - filtered'), measured - filtered', measured - filtered - travel);
    CongruentChain(WrapNeg(measured - filtered'), measured - filtered - travel, e - travel);
    SameSize(WrapNeg(measured - filtered'), e - travel);
  }

  lemma Faster(velocity: real, integral: real, step: real, travel: real)
    requires travel == velocity * step - integral * step
    ensures travel == (velocity - integral) * step
  {
  }

  // With a gain of at most one a sample, the limited velocity travels, beside
  // the speed integrated so far, towards the sample and not past it.
  lemma Tracks(error: real, kp: real, ki: real, step: real, limit: real, integral: real, velocity: real, travel: real)
    requires step > 0.0 && Abs(integral) < limit && Contracts(kp, ki, step) && travel == (velocity - integral) * step
    requires velocity == Limit(Corrected(Pushed(integral, step, ki, error), kp, error), -limit, limit)
    ensures if error >= 0.0 then 0.0 <= travel <= error else error <= travel <= 0.0
    ensures error != 0.0 ==> travel != 0.0
  {
    var gain := kp + ki * step;
    GainPositive(gain, step);
    var wanted, faster := gain * error, velocity - integral;
    assert Corrected(Pushed(integral, step, ki, error), kp, error) == integral + wanted by {
      assert step * ki * error + kp * error == wanted;
    }
    var part := gain * step;
    assert wanted * step == part * error;
    if error >= 0.0 {
      Product(gain, error);
      Product(1.0 - part, error);
      Product(faster, step);
      Product(wanted - faster, step);
      if error > 0.0 {
        var _ := Positive(gain, error);
        var _ := Positive(faster, step);
      }
    } else {
      var _ := Positive(gain, -error);
      Product(1.0 - part, -error);
      var _ := Positive(-faster, step);
      Product(faster - wanted, step);
    }
  }

  lemma GainPositive(gain: real, step: real)
    requires step > 0.0 && gain * step > 0.0
    ensures gain > 0.0
  {
    if gain <= 0.0 {
      Product(-gain, step);
    }
  }

  lemma TravelBound(velocity: real, maxVel: real, step: real, travel: real)
    requires step > 0.0 && -maxVel <= velocity <= maxVel && travel == velocity * step
    requires maxVel * step <= TWO_PI / 8.0
    ensures Abs(travel) <= TWO_PI / 8.0
  {
    var most := maxVel * step;
    assert travel <= most by {
      Product(maxVel - velocity, step);
    }
    assert -most <= travel by {
      Product(maxVel + velocity, step);
    }
  }

  lemma WrapOnce(theta: real)
    ensures WrapZero(WrapZero(theta)) == WrapZero(theta)
  {
    var x := WrapZero(theta);
    assert Truncate(x / TWO_PI) == 0;
  }

  lemma EighthTurn(step: real, v: real)
    requires step > 0.0
    ensures TWO_PI * 0.125 / step > 0.0 && (TWO_PI * 0.125 / step) * step == TWO_PI / 8.0
    ensures v < TWO_PI * 0.125 / step ==> v * step <= TWO_PI / 8.0
  {
    var q := TWO_PI * 0.125 / step;
    assert q * step == TWO_PI * 0.125;
    if v < q {
      Product(q - v, step);
    }
  }
}
