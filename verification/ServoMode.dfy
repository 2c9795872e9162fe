// The servo mode object: commands normalised once, then one trajectory update
// a sample. Its public side is in radians, the trajectory in turns.
module ServoMode {
  import opened Octets
  import opened Reals
  import opened ServoPlanner

  // None stands for NaN.
  datatype Command = Command(position: Option<real>, velocity: real, stopPosition: Option<real>,
                             velocityLimit: Option<real>, accelLimit: Option<real>)

  datatype Options = Options(defaultVelocityLimit: Option<real>, defaultAccelLimit: Option<real>, maxVelocity: real,
                             zeroCapture: real, maxPositionSlip: real, maxVelocityError: real)

  datatype Sample = Sample(dt: real, turns: real, hz: real)

  function Turns(x: real): (r: real)
  {
    x / TWO_PI
  }

  lemma TurnsKeepOrder(x: real, y: real)
    ensures Abs(x) <= y <==> Abs(Turns(x)) <= Turns(y)
    ensures x > 0.0 <==> Turns(x) > 0.0
  {
  }

  lemma Moving(x: real)
    ensures Abs(Turns(x)) > 0.0 <==> x != 0.0
  {
  }

  lemma TurnsScale(accel: real, limit: real, dt: real)
    ensures accel * dt <= 2.0 * limit <==> Turns(accel) * dt <= 2.0 * Turns(limit)
  {
    assert Turns(accel) * dt == (accel * dt) / TWO_PI;
  }

  // A limit of the command that is not negative, or the default.
  predicate Limits(limit: Option<real>)
  {
    limit.Some? ==> limit.value >= 0.0
  }

  // What one sample may do to the velocity: never past the limit, or past the
  // speed the trajectory already had.
  predicate Bounded(velocity: Option<real>, limit: Option<real>, start: real)
  {
    velocity.Some? && limit.Some? ==> Abs(velocity.value) <= Max(Abs(start), Turns(limit.value))
  }

  lemma UnlimitedBounded(velocity: Option<real>, start: real)
    ensures Bounded(velocity, None, start)
  {
  }

  lemma StandingBounded(limit: Option<real>, start: real)
    ensures Bounded(Some(0.0), limit, start)
  {
  }

  // ---- The limits in force for a command -----------------------------------

  predicate LimitsOk(o: Options)
  {
    Limits(o.defaultVelocityLimit) && Limits(o.defaultAccelLimit) && o.maxVelocity >= 0.0
  }

  // A negative limit switches limiting off, a missing one is the default.
  function Chosen(limit: Option<real>, default: Option<real>): (r: Option<real>)
    ensures Limits(default) ==> Limits(r)
  {
    if limit == None then default else if limit.value < 0.0 then None else limit
  }

  // The absolute ceiling caps a velocity limit, and is one where only the
  // acceleration is limited.
  function LimitInForce(o: Options, c: Command): (r: Option<real>)
    requires LimitsOk(o)
    ensures Limits(r)
  {
    var limit := Chosen(c.velocityLimit, o.defaultVelocityLimit);
    if limit == None then (if Chosen(c.accelLimit, o.defaultAccelLimit).Some? then Some(o.maxVelocity) else None)
    else if o.maxVelocity > 0.0 && o.maxVelocity < limit.value then Some(o.maxVelocity)
    else limit
  }

  function Normalized(o: Options, c: Command): (n: Command)
    requires LimitsOk(o)
  {
    var limit := LimitInForce(o, c);
    c.(velocityLimit := limit, accelLimit := Chosen(c.accelLimit, o.defaultAccelLimit),
       velocity := if limit.Some? then Limit(c.velocity, -limit.value, limit.value)
                   else if o.maxVelocity > 0.0 then Limit(c.velocity, -o.maxVelocity, o.maxVelocity)
                   else c.velocity)
  }

  // Once normalised, a limited command never asks for more than its limit, an
  // acceleration limit always comes with a velocity limit, nothing is above
  // the ceiling, and a command already within the limits is left alone.
  lemma NormalizedWithin(o: Options, c: Command)
    requires LimitsOk(o)
    ensures var n := Normalized(o, c);
      && Limits(n.velocityLimit) && Limits(n.accelLimit)
      && (n.velocityLimit.Some? ==> Abs(n.velocity) <= n.velocityLimit.value)
      && (n.accelLimit.Some? ==> n.velocityLimit.Some?)
      && (o.maxVelocity > 0.0 ==> Abs(n.velocity) <= o.maxVelocity)
      && (o.maxVelocity > 0.0 && n.velocityLimit.Some? ==> n.velocityLimit.value <= o.maxVelocity)
      && n.position == c.position && n.stopPosition == c.stopPosition
    ensures (c.velocityLimit.Some? && c.accelLimit.Some? && c.accelLimit.value >= 0.0
             && Abs(c.velocity) <= c.velocityLimit.value <= o.maxVelocity) ==> Normalized(o, c) == c
  {
    if o.maxVelocity > 0.0 && LimitInForce(o, c).Some? {
      assert LimitInForce(o, c).value <= o.maxVelocity;
    }
  }

  // ---- What one sample of a limited command asks for ------------------------

  // Without a position target the velocity ramps to its target, by at most
  // `a dt`; it is done when the target is within reach.
  function Ramp(a: real, v0: real, target: real, dt: real): (m: Motion)
    requires a > 0.0 && dt > 0.0
  {
    var done := -(a * dt) < target - v0 <= a * dt;
    var v := Limit(target, v0 - a * dt, v0 + a * dt);
    var accel := if done then 0.0 else if target > v0 then a else -a;
    Motion(v, accel, Travel(v0, v, accel, dt), done)
  }

  lemma RampBetween(a: real, v0: real, target: real, dt: real)
    requires a > 0.0 && dt > 0.0
    ensures Abs(Ramp(a, v0, target, dt).velocity) <= Max(Abs(v0), Abs(target))
  {
    var rise := Positive(a, dt);
  }

  // With a velocity limit alone it is full speed toward the target, until the
  // sample that would cross it.
  function Cruise(speed: real, vf: real, dx: real, dt: real): (m: Motion)
  {
    if (if dx < 0.0 then -dx <= speed * dt else dx < speed * dt) then Motion(vf, 0.0, vf * dt, true)
    else if dx < 0.0 then Motion(-speed, 0.0, -speed * dt, false)
    else Motion(speed, 0.0, speed * dt, false)
  }

  // An acceleration limit makes it the planner's step. A trajectory already
  // done, with nothing new to move to, coasts.
  function Commanded(c: Command, v0: real, accel: real, p0: real, done: bool, dt: real): (m: Motion)
    requires dt > 0.0 && (c.accelLimit.Some? ==> c.accelLimit.value > 0.0)
    ensures m.travel == Travel(v0, m.velocity, m.accel, dt)
  {
    TurnsKeepOrder(0.0, if c.accelLimit.Some? then c.accelLimit.value else 0.0);
    var target := Turns(c.velocity);
    if done then Motion(v0, accel, Travel(v0, v0, accel, dt), true)
    else if c.position == None then
      if c.accelLimit.Some? then Ramp(Turns(c.accelLimit.value), v0, target, dt) else Motion(target, 0.0, target * dt, true)
    else if c.accelLimit.Some? then
      Step(Turns(c.accelLimit.value), v0, target, Turns(c.position.value) - p0, dt, InTurns(c.velocityLimit))
    else if c.velocityLimit.Some? then Cruise(Turns(c.velocityLimit.value), target, Turns(c.position.value) - p0, dt)
    else Motion(target, 0.0, target * dt, true)
  }

  function InTurns(limit: Option<real>): (r: Option<real>)
  {
    if limit.Some? then Some(Turns(limit.value)) else None
  }

  // A move that is done forgets its target.
  function Forgets(c: Command, m: Motion): (r: Command)
  {
    if m.done then c.(position := None) else c
  }

  // A value kept within `slip` of what is measured, if `slip` is armed.
  function Reshaped(x: real, measured: real, slip: real): (r: real)
    ensures slip > 0.0 ==> Abs(measured - r) <= Turns(slip)
    ensures slip <= 0.0 ==> r == x
  {
    TurnsKeepOrder(slip, slip);
    if slip > 0.0 then Limit(x, measured - Turns(slip), measured + Turns(slip)) else x
  }

  class ServoMode {
    var options: Options
    var command: Command
    var velocity: Option<real>
    var position: Option<real>
    var accel: real
    var done: bool

    constructor (options: Options)
      ensures this.options == options && velocity == None && position == None && accel == 0.0 && !done
      ensures command == Command(None, 0.0, None, None, None)
    {
      this.options := options;
      command := Command(None, 0.0, None, None, None);
      velocity, position, accel, done := None, None, 0.0, false;
    }

    method NormalizeCommandLimits(given: Command) returns (c: Command)
      requires LimitsOk(options)
      ensures c == Normalized(options, given)
    {
      c := given;
      if c.velocityLimit == None {
        c := c.(velocityLimit := options.defaultVelocityLimit);
      } else if c.velocityLimit.value < 0.0 {
        c := c.(velocityLimit := None);
      }
      if c.accelLimit == None {
        c := c.(accelLimit := options.defaultAccelLimit);
      } else if c.accelLimit.value < 0.0 {
        c := c.(accelLimit := None);
      }
      if c.velocityLimit.Some? || c.accelLimit.Some? {
        if c.velocityLimit == None {
          c := c.(velocityLimit := Some(options.maxVelocity));
        } else if options.maxVelocity > 0.0 {
          c := c.(velocityLimit := Some(Abs(Limit(c.velocityLimit.value, -options.maxVelocity, options.maxVelocity))));
        }
      }
      assert c.velocityLimit == LimitInForce(options, given);
      hide LimitInForce;
      if c.velocityLimit.Some? {
        c := c.(velocity := Limit(c.velocity, -c.velocityLimit.value, c.velocityLimit.value));
      } else if options.maxVelocity > 0.0 {
        c := c.(velocity := Limit(c.velocity, -options.maxVelocity, options.maxVelocity));
      }
    }

    method SetCommand(c: Command)
      requires LimitsOk(options)
      modifies this
      ensures options == old(options) && velocity == old(velocity) && position == old(position) && !done
      ensures command == Normalized(options, c)
    {
      command := NormalizeCommandLimits(c);
      done := false;
    }

    // Where the trajectory starts when there is none yet.
    function Start(measured: real): (p: real)
      reads this
    {
      if position == None then measured else position.value
    }

    function Captured(measured: real): (v: real)
      reads this
    {
      if position == None then (if Abs(measured) < Turns(options.zeroCapture) then 0.0 else measured)
      else if velocity == None then 0.0
      else velocity.value
    }

    method EnsureControlState(measuredTurns: real, measuredHz: real)
      modifies this
      ensures options == old(options) && command == old(command) && done == old(done)
      ensures position == Some(old(Start(measuredTurns))) && velocity == Some(old(Captured(measuredHz)))
      ensures accel == if old(position) == None then 0.0 else old(accel)
    {
      if position == None {
        position := Some(measuredTurns);
        velocity := Some(if Abs(measuredHz) < Turns(options.zeroCapture) then 0.0 else measuredHz);
        accel := 0.0;
      }
      if velocity == None {
        velocity := Some(0.0);
      }
    }

    // The sample's result does not head on past an armed stop position.
    predicate HeldAtStop()
      reads this
    {
      command.stopPosition.Some? && velocity.Some? && position.Some? ==>
        && (velocity.value > 0.0 ==> position.value < Turns(command.stopPosition.value))
        && (velocity.value < 0.0 ==> position.value > Turns(command.stopPosition.value))
    }

    predicate Guarded()
      reads this
    {
      options.maxPositionSlip > 0.0 || options.maxVelocityError > 0.0 || command.stopPosition.Some?
    }

    // Limits stay as commanded; the commanded velocity only ever drops to zero.
    twostate predicate SameLimits()
      reads this
    {
      && options == old(options)
      && command.velocityLimit == old(command.velocityLimit) && command.accelLimit == old(command.accelLimit)
      && command.stopPosition == old(command.stopPosition)
      && (command.velocity == old(command.velocity) || command.velocity == 0.0)
    }

    static method Reshape(x: real, measured: real, armed: real) returns (r: real, slipped: bool)
      ensures r == Reshaped(x, measured, armed) && (slipped <==> r != x)
    {
      r, slipped := x, false;
      if armed > 0.0 {
        var slip := Turns(armed);
        TurnsKeepOrder(armed, armed);
        hide Turns;
        var error := measured - x;
        if error < -slip {
          r, slipped := measured + slip, true;
        } else if error > slip {
          r, slipped := measured - slip, true;
        }
      }
    }

    lemma NotHeld(v: real, p: real, dt: real)
      ensures command.stopPosition == None ==> HeldAtStop() && !StopsAt(None, command.velocity, v, p, dt)
    {
    }

    // The velocity error and position slip guards, then the stop: armed and
    // reached, it holds the trajectory exactly at the stop position.
    method FinishTrajectoryGuards(dt: real, measuredTurns: real, measuredHz: real)
      requires velocity.Some? && position.Some? && dt > 0.0
      modifies this
      ensures velocity.Some? && position.Some? && SameLimits() && HeldAtStop()
      ensures
        var p := Reshaped(old(position.value), measuredTurns, options.maxPositionSlip);
        var v := Reshaped(old(velocity.value), measuredHz, options.maxVelocityError);
        if StopsAt(old(command.stopPosition), old(command.velocity), v, p, dt) then StoppedThere()
        else
          && position == Some(p) && velocity == Some(v)
          && command == old(command).(position := Drifted(old(command), dt)) && done == old(done)
          && accel == (if velocity == old(velocity) then old(accel) else 0.0)
    {
      hide Turns, Reshaped, Drifted, ServoMode.HeldAtStop, ServoMode.StopsAt;
      command := command.(position := Drifted(command, dt));
      var p, _ := Reshape(position.value, measuredTurns, options.maxPositionSlip);
      position := Some(p);
      var v, slipped := Reshape(velocity.value, measuredHz, options.maxVelocityError);
      velocity := Some(v);
      if slipped {
        accel := 0.0;
      }
      if command.stopPosition == None {
        NotHeld(v, p, dt);
      } else {
        StopGuard(dt);
      }
    }

    twostate predicate Untouched()
      reads this
    {
      && velocity == old(velocity) && position == old(position) && accel == old(accel)
      && done == old(done) && command == old(command)
    }

    // At rest on the stop position, for good: nothing is left to move to.
    predicate StoppedThere()
      reads this
    {
      && command.stopPosition.Some? && position == Some(Turns(command.stopPosition.value)) && velocity == Some(0.0)
      && accel == 0.0 && done && command.position == None && command.velocity == 0.0
    }

    // On or past an armed stop and heading on.
    static predicate HeadsOn(stop: Option<real>, v: real, p: real)
    {
      stop.Some? && ((v > 0.0 && p >= Turns(stop.value)) || (v < 0.0 && p <= Turns(stop.value)))
    }

    // Or at rest within a sample's commanded way of it.
    static predicate StopsAt(stop: Option<real>, speed: real, v: real, p: real, dt: real)
    {
      HeadsOn(stop, v, p)
      || (stop.Some? && v == 0.0 && speed != 0.0 && Abs(p - Turns(stop.value)) <= Turns(Abs(speed)) * dt)
    }

    method StopGuard(dt: real)
      requires command.stopPosition.Some? && velocity.Some? && position.Some?
      modifies this
      ensures velocity.Some? && position.Some? && SameLimits() && HeldAtStop()
      ensures if StopsAt(old(command.stopPosition), old(command.velocity), old(velocity.value), old(position.value), dt)
        then StoppedThere() else Untouched()
    {
      var stop := Turns(command.stopPosition.value);
      if (velocity.value > 0.0 && position.value >= stop) || (velocity.value < 0.0 && position.value <= stop)
        || (velocity.value == 0.0 && command.velocity != 0.0
            && Abs(position.value - stop) <= Turns(Abs(command.velocity)) * dt)
      {
        position, accel, velocity, done := Some(stop), 0.0, Some(0.0), true;
        command := command.(position := None, velocity := 0.0);
      }
    }

    // A target given with a velocity moves at it.
    static function Drifted(c: Command, dt: real): (p: Option<real>)
    {
      if c.position.Some? && Abs(c.velocity) > 0.0 then Some(c.position.value + c.velocity * dt) else c.position
    }

    predicate KeepsLimit(start: real)
      reads this
    {
      Bounded(velocity, command.velocityLimit, start)
    }

    // A limited command the planner can bound at this sample time.
    predicate CanLimit(dt: real)
      reads this
    {
      Limitable(command, dt)
    }

    static predicate Limitable(c: Command, dt: real)
    {
      c.velocityLimit.Some? ==>
        && Abs(c.velocity) <= c.velocityLimit.value
        && (c.accelLimit.Some? ==> c.accelLimit.value * dt <= 2.0 * c.velocityLimit.value)
    }

    // A command whose velocity has been dropped to zero is no harder to limit.
    static lemma StillLimits(c: Command, c': Command, dt: real)
      requires Limitable(c, dt) && c'.velocityLimit == c.velocityLimit && c'.accelLimit == c.accelLimit
      requires c'.velocity == c.velocity || c'.velocity == 0.0
      ensures Limitable(c', dt)
    {
    }

    lemma LimitInTurns(dt: real)
      requires CanLimit(dt) && command.velocityLimit.Some?
      ensures 0.0 <= Turns(command.velocityLimit.value)
      ensures Abs(Turns(command.velocity)) <= Turns(command.velocityLimit.value)
      ensures command.accelLimit.Some? ==>
        Turns(command.accelLimit.value) * dt <= 2.0 * Turns(command.velocityLimit.value)
    {
      TurnsKeepOrder(command.velocity, command.velocityLimit.value);
      if command.accelLimit.Some? {
        TurnsScale(command.accelLimit.value, command.velocityLimit.value, dt);
      }
    }

    // What the sample's command asks for.
    function Planned(dt: real): (m: Motion)
      requires velocity.Some? && position.Some? && dt > 0.0 && (command.accelLimit.Some? ==> command.accelLimit.value > 0.0)
      reads this
    {
      Commanded(command, velocity.value, accel, position.value, done, dt)
    }

    // The trajectory moves as `m` says, the position still to be integrated.
    predicate Moves(m: Motion)
      reads this
    {
      velocity == Some(m.velocity) && accel == m.accel && done == m.done
    }

    // The sign of the remaining difference tells whether the target was crossed.
    static method RampStep(a: real, v0: real, target: real, dt: real) returns (v: real, accel: real, arrived: bool)
      requires a > 0.0 && dt > 0.0
      ensures var m := Ramp(a, v0, target, dt); v == m.velocity && accel == m.accel && arrived == m.done
    {
      var rise := Positive(a, dt);
      var up := target - v0 > 0.0;
      accel := if up then a else -a;
      assert accel * dt == if up then rise else -rise;
      v, arrived := v0 + accel * dt, false;
      if (target > v) != up {
        accel, v, arrived := 0.0, target, true;
      }
    }

    // No position target: ramp to the commanded velocity.
    method VelocityMove(dt: real)
      requires velocity.Some? && position.Some? && dt > 0.0 && (command.accelLimit.Some? ==> command.accelLimit.value > 0.0)
      requires command.position == None && !done
      modifies this
      ensures Moves(old(Planned(dt)))
      ensures position == old(position) && options == old(options) && command == old(command)
      ensures CanLimit(dt) ==> KeepsLimit(old(velocity.value))
    {
      hide Turns, Travel, Step, Cruise, Ramp;
      var target := Turns(command.velocity);
      if command.velocityLimit.Some? && CanLimit(dt) {
        LimitInTurns(dt);
      }
      if command.accelLimit.Some? {
        var a := Turns(command.accelLimit.value);
        TurnsKeepOrder(command.accelLimit.value, 0.0);
        ghost var m := Ramp(a, velocity.value, target, dt);
        assert m == Planned(dt);
        RampBetween(a, velocity.value, target, dt);
        var v, r, arrived := RampStep(a, velocity.value, target, dt);
        accel, velocity, done := r, Some(v), arrived;
      } else {
        accel, velocity, done := 0.0, Some(target), true;
      }
    }

    // A velocity limit alone: full speed until the target is crossed.
    method ConstantSpeedMove(dt: real)
      requires velocity.Some? && position.Some? && dt > 0.0 && !done
      requires command.position.Some? && command.velocityLimit.Some? && command.accelLimit == None
      modifies this
      ensures Moves(old(Planned(dt))) && command == Forgets(old(command), old(Planned(dt)))
      ensures position == old(position) && options == old(options)
      ensures CanLimit(dt) ==> KeepsLimit(old(velocity.value))
    {
      hide Turns, Travel, Step, Ramp;
      if CanLimit(dt) {
        LimitInTurns(dt);
      }
      var dx := Turns(command.position.value) - position.value;
      var speed := Turns(command.velocityLimit.value);
      ghost var m := Cruise(speed, Turns(command.velocity), dx, dt);
      assert m == Planned(dt);
      accel, velocity := 0.0, Some(if dx < 0.0 then -speed else speed);
      if (dx - velocity.value * dt < 0.0) != (dx < 0.0) {
        command := command.(position := None);
        velocity, done := Some(Turns(command.velocity)), true;
      }
    }

    // An acceleration limit: exactly one step of the planner.
    method AcceleratedMove(dt: real)
      requires velocity.Some? && position.Some? && dt > 0.0 && !done
      requires command.position.Some? && command.accelLimit.Some? && command.accelLimit.value > 0.0
      modifies this
      ensures Moves(old(Planned(dt))) && command == Forgets(old(command), old(Planned(dt)))
      ensures position == old(position) && options == old(options)
      ensures CanLimit(dt) ==> KeepsLimit(old(velocity.value))
    {
      hide Turns, Step, Travel, Ramp, Cruise;
      TurnsKeepOrder(command.accelLimit.value, 0.0);
      var a, vf, v0 := Turns(command.accelLimit.value), Turns(command.velocity), velocity.value;
      var dx := Turns(command.position.value) - position.value;
      var limit := InTurns(command.velocityLimit);
      ghost var m := Planned(dt);
      assert m == Step(a, v0, vf, dx, dt, limit);
      if CanLimit(dt) && limit.Some? {
        LimitInTurns(dt);
        VelocityBound(a, v0, vf, dx, dt, limit);
      }
      var v, r, arrived := PlannerStep(a, v0, vf, dx, dt, limit);
      accel, velocity := r, Some(v);
      if arrived {
        command := command.(position := None);
        done := true;
      }
    }

    static method PlannerStep(a: real, v0: real, vf: real, dx: real, dt: real, limit: Option<real>)
      returns (v: real, accel: real, arrived: bool)
      requires a > 0.0 && dt > 0.0
      ensures var m := Step(a, v0, vf, dx, dt, limit); v == m.velocity && accel == m.accel && arrived == m.done
    {
      hide Acceleration, Clamps, Clamped, Arrives, Free, Travel;
      accel := Acceleration(a, v0, vf, dx, dt, limit);
      var v1 := Integrate(a, v0, vf, dx, dt, limit, accel);
      var clamped;
      v, clamped := ClampToLimit(v0, v1, limit);
      if clamped {
        accel := 0.0;
      }
      arrived := CheckArrival(a, v0, v, vf, dx, dt);
      if arrived {
        accel, v := 0.0, vf;
      }
    }

    static method Integrate(a: real, v0: real, vf: real, dx: real, dt: real, limit: Option<real>, accel: real)
      returns (v: real)
      requires a > 0.0 && dt > 0.0 && accel == Acceleration(a, v0, vf, dx, dt, limit)
      ensures v == Free(a, v0, vf, dx, dt, limit)
    {
      v := v0 + accel * dt;
    }

    static method ClampToLimit(v0: real, v1: real, limit: Option<real>) returns (v: real, clamped: bool)
      ensures clamped == Clamps(v0, v1, limit) && v == Clamped(v0, v1, limit) && (!clamped ==> v == v1)
    {
      v, clamped := v1, false;
      if limit.Some? {
        var lower := if Abs(v0) < Abs(v1) then Abs(v0) else Abs(v1);
        var upper := if Abs(v0) > Abs(v1) then Abs(v0) else Abs(v1);
        if lower < limit.value && upper > limit.value {
          v, clamped := if v1 >= 0.0 then limit.value else -limit.value, true;
        }
      }
    }

    static method Between(v0: real, v1: real, vf: real) returns (crossed: bool)
      ensures crossed == (v0 <= vf <= v1 || v1 <= vf <= v0)
    {
      var lower, upper := if v0 < v1 then v0 else v1, if v0 > v1 then v0 else v1;
      crossed := lower <= vf && upper >= vf;
    }

    static method Larger(x: real, y: real) returns (m: real)
      ensures m == Max(x, y)
    {
      m := if x > y then x else y;
    }

    static method CheckArrival(a: real, v0: real, v1: real, vf: real, dx: real, dt: real) returns (arrived: bool)
      ensures arrived == Arrives(a, v0, v1, vf, dx, dt)
    {
      var targetCross := Between(v0, v1, vf);
      hide Abs, Max;
      var frame := Abs(v1 - vf);
      var targetNear := frame < a * 0.5 * dt;
      var threshold := Larger(frame, Abs(vf));
      arrived := (targetCross || targetNear) && Abs(dx) <= threshold * 10.0 * dt;
    }

    // On or past an armed stop position, in the direction of travel: hold there.
    method StopBefore()
      requires velocity.Some? && position.Some?
      modifies this
      ensures velocity.Some? && position.Some? && SameLimits() && HeldAtStop()
      ensures
        if HeadsOn(old(command.stopPosition), old(velocity.value), old(position.value)) then
          && position == Some(Turns(command.stopPosition.value)) && velocity == Some(0.0)
          && accel == 0.0 && done && command == old(command).(velocity := 0.0)
        else Untouched()
    {
      if command.stopPosition.Some? {
        var stop := Turns(command.stopPosition.value);
        if (velocity.value > 0.0 && position.value >= stop) || (velocity.value < 0.0 && position.value <= stop) {
          accel, velocity, position, done := 0.0, Some(0.0), Some(stop), true;
          command := command.(velocity := 0.0);
        }
      }
    }

    static function Carried(p0: real, v: real, dt: real): (p: real)
    {
      p0 + v * dt
    }

    // No limits at all: the trajectory is the command.
    method Follow(dt: real, measuredTurns: real, measuredHz: real)
      requires dt > 0.0
      modifies this
      ensures velocity.Some? && position.Some? && SameLimits() && HeldAtStop()
      ensures old(command.stopPosition) == None ==>
        var v := if old(command.position) == None && old(position) == None then old(Captured(measuredHz))
          else Turns(old(command.velocity));
        && done && accel == 0.0 && command == old(command).(position := None)
        && velocity == Some(Reshaped(v, measuredHz, options.maxVelocityError))
        && position == Some(Reshaped(if old(command.position).Some? then Turns(old(command.position).value)
                                     else Carried(old(Start(measuredTurns)), v, dt), measuredTurns, options.maxPositionSlip))
      ensures options.maxPositionSlip > 0.0 && command.stopPosition == None ==>
        Abs(measuredTurns - position.value) <= Turns(options.maxPositionSlip)
    {
      hide HeldAtStop, Turns, Reshaped, ServoMode.Carried;
      done, accel, velocity := true, 0.0, Some(Turns(command.velocity));
      if command.position.Some? {
        position := Some(Turns(command.position.value));
        command := command.(position := None);
      } else {
        EnsureControlState(measuredTurns, measuredHz);
        position := Some(Carried(position.value, velocity.value, dt));
      }
      FinishTrajectoryGuards(dt, measuredTurns, measuredHz);
    }

    method Advance(dt: real)
      requires velocity.Some? && position.Some? && dt > 0.0 && (command.accelLimit.Some? ==> command.accelLimit.value > 0.0)
      requires command.velocityLimit.Some? || command.accelLimit.Some?
      modifies this
      ensures Moves(old(Planned(dt))) && position == old(position) && options == old(options)
      ensures command == if old(done) then old(command) else Forgets(old(command), old(Planned(dt)))
      ensures CanLimit(dt) ==> KeepsLimit(old(velocity.value))
    {
      hide Turns, Step, Ramp, Cruise, Travel;
      if !done {
        if command.position == None {
          VelocityMove(dt);
        } else if command.accelLimit == None {
          ConstantSpeedMove(dt);
        } else {
          AcceleratedMove(dt);
        }
      }
    }

    method Coast(v0: real, dt: real)
      requires velocity.Some? && position.Some?
      modifies this`position
      ensures position == Some(old(position).value + Travel(v0, velocity.value, accel, dt))
      ensures accel == 0.0 && velocity == Some(0.0) ==> position == old(position)
    {
      var integrate := if accel != 0.0 then 0.5 * (v0 + velocity.value) else velocity.value;
      var travel := integrate * dt;
      assert travel == Travel(v0, velocity.value, accel, dt);
      position := Some(position.value + travel);
    }

    // Move `m` was made from `p0`, kept within the armed guards of what was
    // measured.
    predicate Made(m: Motion, p0: real, c0: Command, dt: real, measuredTurns: real, measuredHz: real)
      reads this
    {
      && velocity == Some(Reshaped(m.velocity, measuredHz, options.maxVelocityError))
      && position == Some(Reshaped(p0 + m.travel, measuredTurns, options.maxPositionSlip))
      && done == m.done && accel == (if velocity == Some(m.velocity) then m.accel else 0.0)
      && command == Forgets(c0, m).(position := Drifted(Forgets(c0, m), dt))
    }

    static lemma Still(c: Command, dt: real)
      ensures c.velocity == 0.0 ==> Drifted(c, dt) == c.position
    {
    }

    lemma Unreshaped()
      ensures options.maxVelocityError <= 0.0 ==>
        forall x, hz :: Reshaped(x, hz, options.maxVelocityError) == x
    {
    }

    // At rest at the stop, as far as the slip guard lets it; the target is kept.
    predicate Held(m: Motion, c0: Command, measuredTurns: real)
      reads this
    {
      && c0.stopPosition.Some? && velocity == Some(0.0) && accel == 0.0 && done
      && position == Some(Reshaped(Turns(c0.stopPosition.value), measuredTurns, options.maxPositionSlip))
      && command == Forgets(c0, m).(velocity := 0.0)
    }

    // A guard that has nothing to correct leaves exactly the move.
    lemma GuardsPass(m: Motion, p0: real, c0: Command, dt: real, measuredTurns: real, measuredHz: real)
      requires Made(m, p0, c0, dt, measuredTurns, measuredHz)
      requires options.maxPositionSlip > 0.0 ==> Abs(measuredTurns - (p0 + m.travel)) <= Turns(options.maxPositionSlip)
      requires options.maxVelocityError > 0.0 ==> Abs(measuredHz - m.velocity) <= Turns(options.maxVelocityError)
      ensures Moves(m) && position == Some(p0 + m.travel)
    {
    }

    method LimitedUpdate(dt: real, measuredTurns: real, measuredHz: real)
      requires velocity.Some? && position.Some? && dt > 0.0 && (command.accelLimit.Some? ==> command.accelLimit.value > 0.0)
      requires command.velocityLimit.Some? || command.accelLimit.Some?
      requires done ==> command.position == None
      modifies this
      ensures velocity.Some? && position.Some? && SameLimits() && HeldAtStop()
      ensures options.maxVelocityError <= 0.0 && old(CanLimit(dt)) ==> KeepsLimit(old(velocity.value))
      ensures options.maxPositionSlip > 0.0 && command.stopPosition == None ==>
        Abs(measuredTurns - position.value) <= Turns(options.maxPositionSlip)
      ensures old(command.stopPosition) == None || (options.maxVelocityError <= 0.0 && velocity != Some(0.0)) ==>
        Made(old(Planned(dt)), old(position.value), old(command), dt, measuredTurns, measuredHz)
      ensures options.maxVelocityError <= 0.0 && HeadsOn(old(command.stopPosition), old(Planned(dt)).velocity, old(position.value)) ==>
        Held(old(Planned(dt)), old(command), measuredTurns)
    {
      hide HeldAtStop, Turns, Step, Bounded, Travel, Abs, Reshaped;
      Unreshaped();
      StandingBounded(command.velocityLimit, velocity.value);
      var v0 := velocity.value;
      Advance(dt);
      StopBefore();
      Coast(v0, dt);
      Still(command, dt);
      FinishTrajectoryGuards(dt, measuredTurns, measuredHz);
    }

    // The command has something to move for.
    predicate Ordered()
      reads this
    {
      command.position.Some? || command.velocity != 0.0
    }

    // One sample of the trajectory.
    method UpdateTrajectory(dt: real, measuredTurns: real, measuredHz: real)
      requires dt > 0.0 && (command.accelLimit.Some? ==> command.accelLimit.value > 0.0)
      modifies this
      ensures velocity.Some? && position.Some? && SameLimits() && HeldAtStop()
      ensures old(CanLimit(dt)) ==> CanLimit(dt)
      // The velocity bound, in every mode.
      ensures options.maxVelocityError <= 0.0 && old(CanLimit(dt)) ==> KeepsLimit(old(Captured(measuredHz)))
      // The position slip bound.
      ensures options.maxPositionSlip > 0.0 && command.stopPosition == None ==>
        Abs(measuredTurns - position.value) <= Turns(options.maxPositionSlip)
      // Unless an armed stop holds it, the trajectory makes the move its limited
      // command asks for, as far as the slip guards let it.
      ensures command.velocityLimit.Some? || command.accelLimit.Some? ==>
        old(command.stopPosition) == None || (options.maxVelocityError <= 0.0 && velocity != Some(0.0)) ==>
        Made(Commanded(old(command), old(Captured(measuredHz)), if old(position) == None then 0.0 else old(accel),
                       old(Start(measuredTurns)), old(done && !Ordered()), dt),
             old(Start(measuredTurns)), old(command), dt, measuredTurns, measuredHz)
      // A move that would head on from on or past an armed stop is held at it.
      ensures command.velocityLimit.Some? || command.accelLimit.Some? ==>
        var m := Commanded(old(command), old(Captured(measuredHz)), if old(position) == None then 0.0 else old(accel),
                           old(Start(measuredTurns)), old(done && !Ordered()), dt);
        options.maxVelocityError <= 0.0 && HeadsOn(old(command.stopPosition), m.velocity, old(Start(measuredTurns))) ==>
          Held(m, old(command), measuredTurns)
    {
      hide HeldAtStop, Turns, Step, Bounded, Travel, Abs, Reshaped, ServoMode.HeadsOn, ServoMode.Held, ServoMode.Made;
      StandingBounded(command.velocityLimit, Captured(measuredHz));
      if command.velocityLimit == None && command.accelLimit == None {
        Follow(dt, measuredTurns, measuredHz);
        UnlimitedBounded(velocity, old(Captured(measuredHz)));
        return;
      }
      if command.position.Some? || Abs(Turns(command.velocity)) > 0.0 {
        done := false;
      }
      Moving(command.velocity);
      assert done == old(done && !Ordered());
      EnsureControlState(measuredTurns, measuredHz);
      LimitedUpdate(dt, measuredTurns, measuredHz);
    }

    static lemma StaysBounded(v: real, limit: real, start: real)
      requires Bounded(Some(v), Some(limit), start) && Abs(start) <= Turns(limit)
      ensures Abs(v) <= Turns(limit)
    {
    }

    predicate InSlip(measured: real)
      requires position.Some?
      reads this
    {
      options.maxPositionSlip > 0.0 && command.stopPosition == None ==>
        Abs(measured - position.value) <= Turns(options.maxPositionSlip)
    }

    // A whole run under one command: the speed never passes the limit, the
    // trajectory never heads past an armed stop, and it never slips farther from
    // the rotor than an armed guard allows.
    method Track(samples: seq<Sample>)
      requires velocity.Some? && position.Some? && HeldAtStop() && options.maxVelocityError <= 0.0
      requires command.velocityLimit.Some? && (command.accelLimit.Some? ==> command.accelLimit.value > 0.0)
      requires forall i :: 0 <= i < |samples| ==> samples[i].dt > 0.0 && CanLimit(samples[i].dt)
      requires Abs(velocity.value) <= Turns(command.velocityLimit.value)
      modifies this
      ensures command.velocityLimit == old(command.velocityLimit)
      ensures velocity.Some? && Abs(velocity.value) <= Turns(command.velocityLimit.value) && HeldAtStop()
      ensures position.Some? && (samples != [] ==> InSlip(samples[|samples| - 1].turns))
    {
      hide Turns, HeldAtStop, ServoMode.HeadsOn, ServoMode.Held, ServoMode.Made, Commanded, ServoMode.Limitable, Bounded, Abs;
      for i := 0 to |samples|
        invariant velocity.Some? && position.Some? && HeldAtStop() && SameLimits()
        invariant forall j :: i <= j < |samples| ==> CanLimit(samples[j].dt)
        invariant Abs(velocity.value) <= Turns(command.velocityLimit.value) && (i > 0 ==> InSlip(samples[i - 1].turns))
      {
        ghost var before, c := velocity.value, command;
        UpdateTrajectory(samples[i].dt, samples[i].turns, samples[i].hz);
        StaysBounded(velocity.value, command.velocityLimit.value, before);
        forall j | i < j < |samples|
          ensures CanLimit(samples[j].dt)
        {
          StillLimits(c, command, samples[j].dt);
        }
      }
    }

    // A limited move at a fixed sample time, to a target that moves at the
    // commanded velocity.
    predicate Approaching(dt: real)
      reads this
    {
      && velocity.Some? && position.Some? && dt > 0.0 && !Guarded() && CanLimit(dt)
      && command.accelLimit.Some? && command.accelLimit.value > 0.0
    }

    // What is left of the move after `n` more samples of the planner, or for
    // good once it is done.
    ghost function LeftAfter(target: real, dt: real, n: nat): (left: real)
      requires Approaching(dt)
      reads this
    {
      var dx := Turns(target) - position.value;
      TurnsKeepOrder(command.accelLimit.value, 0.0);
      if command.position == None then dx
      else Chase(Turns(command.accelLimit.value), dt, velocity.value, Turns(command.velocity), dx, n,
                 InTurns(command.velocityLimit)).1
    }

    // Done, and moving on with the target.
    predicate Arrived()
      reads this
    {
      command.position == None && done && accel == 0.0 && velocity == Some(Turns(command.velocity))
    }

    // Where a target is that moves on for `n` samples.
    static function Moved(target: real, speed: real, dt: real, n: nat): (t: real)
    {
      target + n as real * (speed * dt)
    }

    static lemma MovedOn(target: real, speed: real, dt: real, n: nat)
      ensures Moved(target, speed, dt, n + 1) == Moved(target, speed, dt, n) + speed * dt
      ensures Moved(target, speed, dt, 0) == target
    {
      var step := speed * dt;
      assert (n + 1) as real * step == n as real * step + step;
    }

    // From the target's own speed, which is rest for a target at rest, to any
    // target, whatever is measured meanwhile: at no sample is the trajectory
    // past the target by more than full acceleration covers in one sample.
    method Approach(samples: seq<Sample>, dt: real)
      requires Approaching(dt) && velocity == Some(Turns(command.velocity)) && command.position.Some?
      requires forall i :: 0 <= i < |samples| ==> samples[i].dt == dt
      modifies this
      ensures velocity.Some? && position.Some?
      ensures var start, a := old(command.position).value, Turns(old(command.accelLimit).value);
        var left := Turns(Moved(start, old(command.velocity), dt, |samples|)) - position.value;
        if Turns(start) >= old(position.value) then -(0.5 * a * dt * dt) <= left else left <= 0.5 * a * dt * dt
    {
      hide Turns, Chase, Step, Travel, CanLimit, ServoMode.Moved;
      ghost var start, c := command.position.value, command;
      TurnsKeepOrder(c.accelLimit.value, 0.0);
      ghost var all := LeftAfter(start, dt, |samples|);
      LimitedOvershoot(start, dt, |samples|);
      MovedOn(start, c.velocity, dt, 0);
      for i := 0 to |samples|
        invariant Approaching(dt) && command == c.(position := command.position)
        invariant command.position == Some(Moved(start, c.velocity, dt, i)) || Arrived()
        invariant LeftAfter(Moved(start, c.velocity, dt, i), dt, |samples| - i) == all
      {
        MovedOn(start, c.velocity, dt, i);
        Pursue(samples[i], dt, Moved(start, c.velocity, dt, i), Moved(start, c.velocity, dt, i + 1), |samples| - i);
      }
      NothingToCome(Moved(start, c.velocity, dt, |samples|), dt);
    }

    // One sample: the target moves on to `next`.
    method Pursue(sample: Sample, dt: real, ghost target: real, ghost next: real, ghost n: nat)
      requires Approaching(dt) && n > 0 && sample.dt == dt
      requires command.position == Some(target) || Arrived()
      requires next == target + command.velocity * dt
      modifies this
      ensures Approaching(dt) && command == old(command).(position := command.position)
      ensures command.position == Some(next) || Arrived()
      ensures LeftAfter(next, dt, n - 1) == old(LeftAfter(target, dt, n))
    {
      hide Turns, Chase, Step, Travel, CanLimit, Commanded;
      ghost var m := Commanded(command, velocity.value, accel, position.value, done && !Ordered(), dt);
      StepOfMove(target, next, dt, n);
      UpdateTrajectory(dt, sample.turns, sample.hz);
      assert Moves(m) && command == Forgets(old(command), m).(position := Drifted(Forgets(old(command), m), dt));
    }

    lemma NothingToCome(target: real, dt: real)
      requires Approaching(dt)
      ensures LeftAfter(target, dt, 0) == Turns(target) - position.value
    {
    }

    lemma LimitedOvershoot(target: real, dt: real, n: nat)
      requires Approaching(dt) && velocity == Some(Turns(command.velocity)) && command.position.Some?
      ensures var a, dx := Turns(command.accelLimit.value), Turns(target) - position.value;
        if dx >= 0.0 then -(0.5 * a * dt * dt) <= LeftAfter(target, dt, n) else LeftAfter(target, dt, n) <= 0.5 * a * dt * dt
    {
      hide Turns, Chase, Step;
      TurnsKeepOrder(command.accelLimit.value, 0.0);
      if command.velocityLimit.Some? {
        LimitInTurns(dt);
      }
      ChaseNeverOvershoots(Turns(command.accelLimit.value), dt, Turns(command.velocity), Turns(target) - position.value, n,
                           InTurns(command.velocityLimit));
    }

    // One sample of the object is one step of the planner behind the target.
    lemma StepOfMove(target: real, next: real, dt: real, n: nat)
      requires Approaching(dt) && n > 0 && next == target + command.velocity * dt
      requires command.position == Some(target) || Arrived()
      ensures command.velocity == 0.0 ==> next == target
      ensures var m := Commanded(command, velocity.value, accel, position.value, done && !Ordered(), dt);
        var dx, vf := Turns(next) - (position.value + m.travel), Turns(command.velocity);
        LeftAfter(target, dt, n) ==
          if m.done then dx
          else Chase(Turns(command.accelLimit.value), dt, m.velocity, vf, dx, n - 1, InTurns(command.velocityLimit)).1
      ensures var m := Commanded(command, velocity.value, accel, position.value, done && !Ordered(), dt);
        && (m.done ==> m.velocity == Turns(command.velocity) && m.accel == 0.0)
        && (command.position == None ==> m.done)
    {
      hide Acceleration, Free, Arrives, Clamps, Clamped, CanLimit, Cruise, Ramp, Turns, Chase, Travel;
      var m := Commanded(command, velocity.value, accel, position.value, done && !Ordered(), dt);
      var a, vf := Turns(command.accelLimit.value), Turns(command.velocity);
      TurnsKeepOrder(command.accelLimit.value, 0.0);
      TurnsMove(target, command.velocity, dt, next);
      if command.position.Some? {
        NextOfChase(a, dt, velocity.value, vf, Turns(target) - position.value, n, InTurns(command.velocityLimit));
      } else {
        StaysInStep(a, vf, dt);
        TurnsNothing(command.velocity);
      }
    }

    static lemma NextOfChase(a: real, dt: real, v: real, vf: real, dx: real, n: nat, limit: Option<real>)
      requires a > 0.0 && dt > 0.0 && n > 0
      ensures var m := Step(a, v, vf, dx, dt, limit);
        var left := dx + vf * dt - m.travel;
        Chase(a, dt, v, vf, dx, n, limit).1 == if m.done then left else Chase(a, dt, m.velocity, vf, left, n - 1, limit).1
      ensures var m := Step(a, v, vf, dx, dt, limit); m.done ==> m.velocity == vf && m.accel == 0.0
    {
      hide Step;
      if Step(a, v, vf, dx, dt, limit).done {
        DoneFollows(a, v, vf, dx, dt, limit);
      }
    }

    static lemma StaysInStep(a: real, vf: real, dt: real)
      requires a > 0.0 && dt > 0.0
      ensures Ramp(a, vf, vf, dt) == Motion(vf, 0.0, vf * dt, true) && Travel(vf, vf, 0.0, dt) == vf * dt
    {
      var _ := Positive(a, dt);
    }

    static lemma TurnsMove(target: real, speed: real, dt: real, next: real)
      requires next == target + speed * dt
      ensures Turns(next) == Turns(target) + Turns(speed) * dt && (speed == 0.0 ==> next == target)
    {
    }

    static lemma TurnsNothing(speed: real)
      ensures speed == 0.0 ==> Turns(speed) == 0.0
    {
    }
  }
}
