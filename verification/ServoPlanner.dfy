// The servo trajectory planner: position and velocity targets turned into a
// bounded, non-overshooting motion. Positions in turns, velocities in turns/s.
module ServoPlanner {
  import opened Octets
  import opened Reals

  // Speed `v` brought to rest at `a` covers this distance.
  function StopDistance(a: real, v: real): (d: real)
    requires a > 0.0
  {
    v * v * (1.0 / (2.0 * a))
  }

  // The deceleration that stops speed `v` in exactly `d`, at most `a`.
  function Brake(a: real, v: real, d: real): (q: real)
    requires d > 0.0
  {
    var needed := v * v * (1.0 / (2.0 * d));
    if needed > a then a else needed
  }

  // One more sample of acceleration would leave too little to stop in.
  predicate TooClose(a: real, v: real, d: real, dt: real)
    requires a > 0.0
  {
    var next := v + a * dt;
    d - (v + next) * 0.5 * dt < StopDistance(a, next)
  }

  // The acceleration for the next `dt` toward a target `dx` away that moves at
  // `vf`; `a` is the acceleration limit.
  function Acceleration(a: real, v0: real, vf: real, dx: real, dt: real, limit: Option<real>): (r: real)
    requires a > 0.0 && dt > 0.0
  {
    var v := v0 - vf;
    if limit.Some? && Abs(v0) > limit.value then (if v0 > 0.0 then -a else a)
    else if v * dx >= 0.0 && dx != 0.0 then
      if Abs(dx) > StopDistance(a, v) then
        if TooClose(a, Abs(v), Abs(dx), dt) then
          (if v > 0.0 then -Brake(a, Abs(v), Abs(dx)) else Brake(a, Abs(v), Abs(dx)))
        else if limit.None? || Abs(v0) < limit.value then (if dx > 0.0 then a else -a)
        else 0.0
      else if v > 0.0 then -Brake(a, Abs(v), Abs(dx)) else Brake(a, Abs(v), Abs(dx))
    else if v > 0.0 then -a else a
  }

  // One acceleration-limited step of the control trajectory, before any guard:
  // the new velocity, the turns travelled, and whether the move is done.
  datatype Motion = Motion(velocity: real, accel: real, travel: real, done: bool)

  // The step that would cross the velocity limit ends on it.
  predicate Clamps(v0: real, v1: real, limit: Option<real>)
  {
    limit.Some? && (if Abs(v0) < Abs(v1) then Abs(v0) else Abs(v1)) < limit.value
    && (if Abs(v0) > Abs(v1) then Abs(v0) else Abs(v1)) > limit.value
  }

  function Clamped(v0: real, v1: real, limit: Option<real>): (v: real)
  {
    if !Clamps(v0, v1, limit) then v1 else if v1 >= 0.0 then limit.value else -limit.value
  }

  // Whether the step meets the target velocity close enough to the target.
  predicate Arrives(a: real, v0: real, v1: real, vf: real, dx: real, dt: real)
  {
    && ((v0 <= vf <= v1 || v1 <= vf <= v0) || Abs(v1 - vf) < a * 0.5 * dt)
    && Abs(dx) <= Max(Abs(v1 - vf), Abs(vf)) * 10.0 * dt
  }

  function Free(a: real, v0: real, vf: real, dx: real, dt: real, limit: Option<real>): (v: real)
    requires a > 0.0 && dt > 0.0
  {
    v0 + Acceleration(a, v0, vf, dx, dt, limit) * dt
  }

  function Travel(v0: real, v1: real, accel: real, dt: real): (d: real)
  {
    if accel != 0.0 then 0.5 * (v0 + v1) * dt else v1 * dt
  }

  // What the step makes of acceleration `r` and the velocity it leads to.
  function Finish(a: real, v0: real, r: real, free: real, vf: real, dx: real, dt: real,
                  limit: Option<real>): (m: Motion)
  {
    var v1 := Clamped(v0, free, limit);
    if Arrives(a, v0, v1, vf, dx, dt) then Motion(vf, 0.0, vf * dt, true)
    else
      var accel := if Clamps(v0, free, limit) then 0.0 else r;
      Motion(v1, accel, Travel(v0, v1, accel, dt), false)
  }

  function Step(a: real, v0: real, vf: real, dx: real, dt: real, limit: Option<real>): (m: Motion)
    requires a > 0.0 && dt > 0.0
  {
    Finish(a, v0, Acceleration(a, v0, vf, dx, dt, limit), Free(a, v0, vf, dx, dt, limit), vf, dx, dt, limit)
  }

  // ---- The velocity bound --------------------------------------------------------

  lemma BrakeAtMost(a: real, v: real, d: real)
    requires a > 0.0 && d > 0.0
    ensures 0.0 <= Brake(a, v, d) <= a
  {
    assert v * v >= 0.0 && 1.0 / (2.0 * d) > 0.0;
    Product(v * v, 1.0 / (2.0 * d));
  }

  lemma AccelerationAtMost(a: real, v0: real, vf: real, dx: real, dt: real, limit: Option<real>)
    requires a > 0.0 && dt > 0.0
    ensures Abs(Acceleration(a, v0, vf, dx, dt, limit)) <= a
  {
    hide Brake, StopDistance, TooClose;
    if dx != 0.0 {
      BrakeAtMost(a, Abs(v0 - vf), Abs(dx));
    }
  }

  lemma Scaled(r: real, a: real, dt: real) returns (change: real)
    requires dt > 0.0 && Abs(r) <= a
    ensures change == r * dt && -(a * dt) <= change <= a * dt
    ensures (change == 0.0 <==> r == 0.0) && (change > 0.0 <==> r > 0.0)
  {
    change := r * dt;
    Product(a - r, dt);
    Product(a + r, dt);
    if r > 0.0 {
      assert r * dt > 0.0;
    } else if r < 0.0 {
      assert (-r) * dt > 0.0;
    }
  }

  // On the limit, the planner speeds up only into an arrival.
  lemma AtTheLimit(a: real, v0: real, vf: real, dx: real, dt: real, limit: Option<real>)
    requires a > 0.0 && dt > 0.0 && limit.Some? && Abs(v0) == limit.value && Abs(vf) <= limit.value
    ensures var r := Acceleration(a, v0, vf, dx, dt, limit);
      (v0 == vf && dx == 0.0) || (v0 >= 0.0 && r <= 0.0) || (v0 <= 0.0 && r >= 0.0)
  {
    hide Brake, StopDistance, TooClose;
    if dx != 0.0 {
      StoppedBrake(a, Abs(dx));
      BrakeAtMost(a, Abs(v0 - vf), Abs(dx));
    }
  }

  lemma VelocityBound(a: real, v0: real, vf: real, dx: real, dt: real, limit: Option<real>)
    requires a > 0.0 && dt > 0.0 && limit.Some? && Abs(vf) <= limit.value && a * dt <= 2.0 * limit.value
    ensures Abs(Step(a, v0, vf, dx, dt, limit).velocity) <= Max(Abs(v0), limit.value)
  {
    hide Acceleration;
    var r := Acceleration(a, v0, vf, dx, dt, limit);
    AccelerationAtMost(a, v0, vf, dx, dt, limit);
    var change := Scaled(r, a, dt);
    OverTheLimit(a, v0, vf, dx, dt, limit);
    if Abs(v0) == limit.value {
      AtTheLimit(a, v0, vf, dx, dt, limit);
    }
    assert Free(a, v0, vf, dx, dt, limit) == v0 + change;
    hide Max, Clamped, Arrives, Free;
    if v0 == vf && dx == 0.0 {
      ArrivedAlready(a, v0, Free(a, v0, vf, dx, dt, limit), dt, limit);
    } else {
      ClampedBound(v0, Free(a, v0, vf, dx, dt, limit), limit);
    }
  }

  lemma OverTheLimit(a: real, v0: real, vf: real, dx: real, dt: real, limit: Option<real>)
    requires a > 0.0 && dt > 0.0 && limit.Some?
    ensures Abs(v0) > limit.value ==> Acceleration(a, v0, vf, dx, dt, limit) == if v0 > 0.0 then -a else a
  {
  }

  lemma ArrivedAlready(a: real, v0: real, free: real, dt: real, limit: Option<real>)
    requires a > 0.0 && dt > 0.0 && limit.Some?
    ensures Arrives(a, v0, Clamped(v0, free, limit), v0, 0.0, dt)
  {
    var v1 := Clamped(v0, free, limit);
    Product(Max(Abs(v1 - v0), Abs(v0)), 10.0 * dt);
  }

  lemma ClampedBound(v0: real, free: real, limit: Option<real>)
    requires limit.Some? && limit.value >= 0.0 && Abs(free - v0) <= 2.0 * limit.value
    requires Abs(v0) == limit.value ==> (v0 >= 0.0 && free <= v0) || (v0 <= 0.0 && free >= v0)
    requires Abs(v0) > limit.value ==> if v0 > 0.0 then free <= v0 else free >= v0
    ensures Abs(Clamped(v0, free, limit)) <= Max(Abs(v0), limit.value)
  {
  }

  // Exactly when one step cannot change the velocity by more than twice the
  // limit is the planner bound never to exceed it, whatever state it is in.
  lemma VelocityBoundExact(a: real, dt: real, limit: real)
    requires a > 0.0 && dt > 0.0 && limit >= 0.0
    ensures a * dt <= 2.0 * limit <==>
      forall v0, vf, dx :: Abs(vf) <= limit ==>
        Abs(Step(a, v0, vf, dx, dt, Some(limit)).velocity) <= Max(Abs(v0), limit)
  {
    if a * dt <= 2.0 * limit {
      forall v0, vf, dx | Abs(vf) <= limit
        ensures Abs(Step(a, v0, vf, dx, dt, Some(limit)).velocity) <= Max(Abs(v0), limit)
      {
        VelocityBound(a, v0, vf, dx, dt, Some(limit));
      }
    } else {
      VelocityReversal(a, dt, limit);
    }
  }

  // Braking too hard for one sample reverses into a higher speed.
  lemma VelocityReversal(a: real, dt: real, limit: real)
    requires a > 0.0 && dt > 0.0 && 0.0 <= limit && a * dt > 2.0 * limit
    ensures exists v0, vf, dx ::
              (Abs(vf) <= limit && Abs(Step(a, v0, vf, dx, dt, Some(limit)).velocity) > Max(Abs(v0), limit))
  {
    var v0 := (limit + a * dt / 2.0) / 2.0;
    var free := v0 - a * dt;
    assert limit < v0 < -free;
    var dx := Abs(free) * 10.0 * dt + 1.0;
    assert Abs(free) * 10.0 * dt >= 0.0;
    assert Acceleration(a, v0, 0.0, dx, dt, Some(limit)) == -a;
    assert (-a) * dt == -(a * dt);
    assert !Clamps(v0, free, Some(limit)) && !Arrives(a, v0, free, 0.0, dx, dt);
    assert Step(a, v0, 0.0, dx, dt, Some(limit)).velocity == free;
    assert Abs(0.0) <= limit;
  }

  // ---- Braking -------------------------------------------------------------------

  // Moving toward a target at rest, the planner can still stop in time.
  predicate CanStop(a: real, v: real, dx: real)
  {
    dx >= 0.0 && (v > 0.0 ==> v * v <= 2.0 * a * dx)
  }

  // Constant acceleration: v'^2 - v^2 = 2 r d.
  lemma ConstantAcceleration(v: real, r: real, dt: real) returns (v1: real, travel: real)
    ensures v1 == v + r * dt && travel == 0.5 * (v + v1) * dt
    ensures v1 * v1 == v * v + 2.0 * r * travel
  {
    v1 := v + r * dt;
    travel := 0.5 * (v + v1) * dt;
    assert 2.0 * r * travel == (v + v1) * (r * dt);
    assert (v1 + v) * (v1 - v) == v1 * v1 - v * v;
  }

  // Slowing down at `q` keeps the distance `q` needs to stop.
  lemma Braked(a: real, q: real, v: real, v1: real, dx: real, travel: real)
    requires 0.0 < q <= a && v * v <= 2.0 * q * dx && v1 * v1 == v * v - 2.0 * q * travel
    ensures CanStop(a, v1, dx - travel)
  {
    var left := dx - travel;
    assert 2.0 * q * left == 2.0 * q * dx - 2.0 * q * travel;
    assert v1 * v1 >= 0.0;
    assert left * q >= 0.0 by {
      assert 2.0 * (left * q) == 2.0 * q * left;
    }
    Cancel(0.0, left, q);
    Product(a - q, left);
  }

  // What braking asks for: just enough to stop at the target, up to `a`.
  lemma Required(a: real, v: real, dx: real)
    requires a > 0.0 && v > 0.0 && dx > 0.0
    ensures var q := Brake(a, v, dx);
      0.0 < q <= a && (v * v == 2.0 * q * dx || (q == a && v * v > 2.0 * a * dx))
  {
    var w := Positive(v, v);
    var inverse := 1.0 / (2.0 * dx);
    assert inverse * (2.0 * dx) == 1.0 && inverse > 0.0;
    var needed := Positive(w, inverse);
    assert needed * (2.0 * dx) == w * (inverse * (2.0 * dx));
    if needed > a {
      var excess := Positive(needed - a, 2.0 * dx);
      assert excess == 2.0 * needed * dx - 2.0 * a * dx;
    }
  }

  // Looking one step ahead leaves room to stop after it.
  lemma RoomAfter(a: real, v: real, dx: real, dt: real)
    requires a > 0.0 && dt > 0.0 && v >= 0.0
    requires !TooClose(a, v, dx, dt)
    ensures var next := v + a * dt; CanStop(a, next, dx - 0.5 * (v + next) * dt)
    ensures CanStop(a, v, dx - v * dt)
  {
    var next := v + a * dt;
    var after := dx - 0.5 * (v + next) * dt;
    assert (1.0 / (2.0 * a)) * (2.0 * a) == 1.0;
    Product(after - next * next * (1.0 / (2.0 * a)), 2.0 * a);
    assert next * next <= 2.0 * a * after;
    assert next * next >= 0.0;
    Cancel(0.0, after, a);
    assert a * dt > 0.0;
    Product(a * dt, dt);
    assert dx - v * dt == after + 0.5 * (a * dt * dt);
    Product(next - v, next + v);
    Product(a, a * dt * dt);
  }

  // From rest or moving away, the target is approached at full acceleration.
  lemma TurnedBack(a: real, v: real, v1: real, dx: real, travel: real, dt: real)
    requires a > 0.0 && dt > 0.0 && v < 0.0 && dx >= 0.0
    requires v1 == v + a * dt && travel == 0.5 * (v + v1) * dt
    requires v1 > 0.0 ==> dx > v1 * 10.0 * dt
    ensures CanStop(a, v1, dx - travel)
  {
    if v1 <= 0.0 {
      var mean := 0.5 * (v + v1);
      Product(-mean, dt);
      assert (-mean) * dt == -travel;
    } else {
      var left := dx - travel;
      assert 0.5 * (v + v1) * dt < v1 * dt;
      assert left > 9.0 * (v1 * dt) && v1 * dt > 0.0;
      Product(a, left - 9.0 * (v1 * dt));
      assert v1 * v1 <= v1 * (a * dt);
      assert v1 * (a * dt) == a * (v1 * dt);
      assert a * (v1 * dt) > 0.0;
    }
  }

  // Toward the target, the planner brakes at what it needs to stop there, at
  // most at `a`, or speeds up or cruises with room to stop after it.
  lemma ApproachKinds(a: real, v: real, dx: real, dt: real, limit: Option<real>) returns (q: real)
    requires a > 0.0 && dt > 0.0 && v >= 0.0 && dx > 0.0 && (limit.Some? ==> limit.value >= 0.0)
    ensures var r := Acceleration(a, v, 0.0, dx, dt, limit);
      || (r == -q && 0.0 < q <= a && v > 0.0 && v * v == 2.0 * q * dx)
      || (r == -q && q == a && v > 0.0 && (v * v > 2.0 * a * dx || (limit.Some? && v > limit.value)))
      || (r == 0.0 && v == 0.0)
      || ((r == a || r == 0.0) && !TooClose(a, v, dx, dt))
  {
    hide Brake, StopDistance, TooClose;
    Product(v, dx);
    q := a;
    if v > 0.0 {
      Required(a, v, dx);
      if limit.None? || v <= limit.value {
        q := Brake(a, v, dx);
      }
    } else {
      StoppedBrake(a, dx);
    }
  }

  lemma StoppedBrake(a: real, dx: real)
    requires a > 0.0 && dx > 0.0
    ensures Brake(a, 0.0, dx) == 0.0
  {
  }

  lemma RetreatAccelerates(a: real, v: real, v1: real, dx: real, dt: real, limit: Option<real>)
    requires a > 0.0 && dt > 0.0 && v < 0.0 && dx >= 0.0
    ensures Acceleration(a, v, 0.0, dx, dt, limit) == a
    ensures v1 > 0.0 && !Arrives(a, v, v1, 0.0, dx, dt) ==> dx > v1 * 10.0 * dt
  {
    if dx > 0.0 {
      assert v * dx < 0.0;
    }
  }

  // A step by acceleration `r` that neither arrives nor is clamped.
  lemma StepMoves(a: real, v: real, dx: real, dt: real, limit: Option<real>, v1: real, travel: real)
    requires a > 0.0 && dt > 0.0
    requires v1 == v + Acceleration(a, v, 0.0, dx, dt, limit) * dt && travel == 0.5 * (v + v1) * dt
    requires !Clamps(v, v1, limit)
    ensures Step(a, v, 0.0, dx, dt, limit) ==
      if Arrives(a, v, v1, 0.0, dx, dt) then Motion(0.0, 0.0, 0.0, true)
      else Motion(v1, Acceleration(a, v, 0.0, dx, dt, limit), travel, false)
  {
    hide Acceleration, Arrives, Clamps;
    assert Free(a, v, 0.0, dx, dt, limit) == v1;
    assert v1 == v ==> travel == v1 * dt;
  }

  // On the target, moving no faster than one sample can undo, it arrives.
  lemma AtTheTarget(a: real, v: real, dt: real, limit: Option<real>)
    requires a > 0.0 && dt > 0.0 && Abs(v) <= a * dt && (limit.Some? ==> Abs(v) <= limit.value)
    ensures Step(a, v, 0.0, 0.0, dt, limit) == Motion(0.0, 0.0, 0.0, true)
  {
    var v1 := Clamped(v, Free(a, v, 0.0, 0.0, dt, limit), limit);
    Product(Abs(v1 - 0.0), 10.0 * dt);
    assert (-a) * dt == -(a * dt);
  }

  // Every step that the velocity clamp does not alter keeps the target ahead
  // and reachable, whatever the sample time: without a clamp, no overshoot.
  lemma KeepsStoppable(a: real, v: real, dx: real, dt: real, limit: Option<real>)
    requires a > 0.0 && dt > 0.0 && CanStop(a, v, dx) && (limit.Some? ==> limit.value >= 0.0)
    requires !Clamps(v, Free(a, v, 0.0, dx, dt, limit), limit)
    ensures var m := Step(a, v, 0.0, dx, dt, limit); CanStop(a, m.velocity, dx - m.travel)
  {
    hide Acceleration, TooClose, Clamps, Step, Arrives, CanStop;
    var m, r := Step(a, v, 0.0, dx, dt, limit), Acceleration(a, v, 0.0, dx, dt, limit);
    var v1, travel := ConstantAcceleration(v, r, dt);
    assert v1 == Free(a, v, 0.0, dx, dt, limit);
    StepMoves(a, v, dx, dt, limit, v1, travel);
    if m.done {
      Stopped(a, v, dx);
      assert dx - m.travel == dx;
    } else if v < 0.0 {
      Ahead(a, v, dx);
      RetreatAccelerates(a, v, v1, dx, dt, limit);
      TurnedBack(a, v, v1, dx, travel, dt);
    } else if dx == 0.0 {
      Ahead(a, v, dx);
      AtTheTarget(a, v, dt, limit);
    } else {
      Ahead(a, v, dx);
      var q := ApproachKinds(a, v, dx, dt, limit);
      Approached(a, q, r, v, v1, dx, travel, dt);
    }
  }

  lemma Ahead(a: real, v: real, dx: real)
    requires CanStop(a, v, dx)
    ensures dx >= 0.0 && (dx == 0.0 ==> v <= 0.0)
  {
    if v > 0.0 {
      var _ := Positive(v, v);
    }
  }

  lemma RoomFor(a: real, v: real, r: real, v1: real, dx: real, travel: real, dt: real)
    requires a > 0.0 && dt > 0.0 && v >= 0.0 && !TooClose(a, v, dx, dt) && (r == a || r == 0.0)
    requires v1 == v + r * dt && travel == 0.5 * (v + v1) * dt
    ensures CanStop(a, v1, dx - travel)
  {
    RoomAfter(a, v, dx, dt);
    assert r == 0.0 ==> travel == v * dt;
  }

  lemma Coming(a: real, v: real, dx: real)
    requires a > 0.0 && CanStop(a, v, dx) && v >= 0.0 && dx > 0.0
    ensures v * v <= 2.0 * a * dx
  {
    if v == 0.0 {
      Product(a, dx);
    }
  }

  lemma Stopped(a: real, v: real, dx: real)
    requires CanStop(a, v, dx)
    ensures CanStop(a, 0.0, dx)
  {
  }

  lemma Approached(a: real, q: real, r: real, v: real, v1: real, dx: real, travel: real, dt: real)
    requires a > 0.0 && dt > 0.0 && v >= 0.0 && dx > 0.0 && CanStop(a, v, dx)
    requires v1 == v + r * dt && travel == 0.5 * (v + v1) * dt && v1 * v1 == v * v + 2.0 * r * travel
    requires
      || (r == -q && 0.0 < q <= a && (v * v == 2.0 * q * dx || q == a))
      || (r == 0.0 && v == 0.0)
      || ((r == a || r == 0.0) && !TooClose(a, v, dx, dt))
    ensures CanStop(a, v1, dx - travel)
  {
    hide CanStop, TooClose;
    Coming(a, v, dx);
    if r == -q && 0.0 < q <= a && (v * v == 2.0 * q * dx || q == a) {
      Braked(a, q, v, v1, dx, travel);
    } else if r == 0.0 && v == 0.0 {
      Stopped(a, v, dx);
      assert v1 == 0.0 && travel == 0.0 && dx - travel == dx;
    } else {
      RoomFor(a, v, r, v1, dx, travel, dt);
    }
  }

  // ---- Whole moves ------------------------------------------------------------------

  // Within one sample's braking of what can stop on the target, moving either way.
  predicate Settles(a: real, dt: real, v: real, dx: real)
  {
    var k := a * dt;
    && (v > 0.0 ==> v * v <= 2.0 * a * dx + k * k)
    && (v < 0.0 ==> v * v <= k * k - 2.0 * a * dx)
  }

  // Half the distance full acceleration covers in one sample from rest.
  predicate Within(a: real, dt: real, from: real, dx: real)
  {
    var k := a * dt;
    -(k * k) <= 2.0 * a * dx && (dx <= from || 2.0 * a * dx <= k * k)
  }

  lemma StoppableSettles(a: real, dt: real, v: real, dx: real)
    requires a > 0.0 && dt > 0.0 && CanStop(a, v, dx) && v >= 0.0
    ensures Settles(a, dt, v, dx) && -(a * dt * (a * dt)) <= 2.0 * a * dx
  {
    Product(a * dt, a * dt);
    Product(a, dx);
  }

  // Braking at `q`, unclamped: the margin is kept, and a reversal that does
  // not arrive is slower than a twentieth of one sample's change of speed.
  lemma BrakingSettles(a: real, dt: real, q: real, v: real, v1: real, dx: real, travel: real)
    requires 0.0 < q <= a && dt > 0.0 && v > 0.0 && dx > 0.0 && Settles(a, dt, v, dx)
    requires v * v == 2.0 * q * dx || (q == a && v * v > 2.0 * a * dx)
    requires v1 == v - q * dt && v1 * v1 == v * v - 2.0 * q * travel && travel == 0.5 * (v + v1) * dt
    requires v1 < 0.0 ==> dx > -v1 * 10.0 * dt
    ensures Settles(a, dt, v1, dx - travel) && Within(a, dt, dx, dx - travel)
  {
    hide Settles, Within;
    var left := LeftOver(q, v, v1, dx, travel);
    if v1 < 0.0 {
      Squared(v1);
      TurnsFast(q, dt, v, v1, dx);
      Reversed(a, dt, q, v, -v1, dx, left);
    } else {
      BrakingForward(a, dt, q, v, v1, dx, travel, left);
    }
  }

  lemma TurnsFast(q: real, dt: real, v: real, v1: real, dx: real)
    requires v1 == v - q * dt && dx > -v1 * 10.0 * dt
    ensures -(-v1) == v - q * dt && dx > (-v1) * 10.0 * dt
  {
  }

  lemma BrakingForward(a: real, dt: real, q: real, v: real, v1: real, dx: real, travel: real, left: real)
    requires 0.0 < q <= a && dt > 0.0 && v > 0.0 && v1 >= 0.0 && Settles(a, dt, v, dx)
    requires v * v == 2.0 * q * dx || (q == a && v * v > 2.0 * a * dx)
    requires v1 * v1 == v * v - 2.0 * q * travel && travel == 0.5 * (v + v1) * dt
    requires left == dx - travel && 2.0 * q * left == v1 * v1 - v * v + 2.0 * q * dx
    ensures Settles(a, dt, v1, left) && Within(a, dt, dx, left)
  {
    hide Settles, Within;
    if v * v == 2.0 * q * dx {
      Braked(a, q, v, v1, dx, travel);
      StoppableSettles(a, dt, v1, left);
    } else {
      FullBraking(a, dt, v, v1, dx, left);
    }
    Forward(a, dt, v, v1, dx, travel, left);
  }

  lemma LeftOver(q: real, v: real, v1: real, dx: real, travel: real) returns (left: real)
    requires v1 * v1 == v * v - 2.0 * q * travel
    ensures left == dx - travel && 2.0 * q * left == v1 * v1 - v * v + 2.0 * q * dx
  {
    left := dx - travel;
  }

  lemma Forward(a: real, dt: real, v: real, v1: real, dx: real, travel: real, left: real)
    requires a > 0.0 && dt > 0.0 && v >= 0.0 && v1 >= 0.0 && travel == 0.5 * (v + v1) * dt && left == dx - travel
    requires -(a * dt * (a * dt)) <= 2.0 * a * left
    ensures Within(a, dt, dx, left)
  {
    Product(0.5 * (v + v1), dt);
  }

  lemma FullBraking(a: real, dt: real, v: real, v1: real, dx: real, left: real)
    requires a > 0.0 && dt > 0.0 && v > 0.0 && v1 >= 0.0 && Settles(a, dt, v, dx)
    requires 2.0 * a * left == v1 * v1 - v * v + 2.0 * a * dx
    ensures Settles(a, dt, v1, left) && -(a * dt * (a * dt)) <= 2.0 * a * left
  {
    assert v1 * v1 >= 0.0;
  }

  lemma Reversed(a: real, dt: real, q: real, v: real, s: real, dx: real, left: real)
    requires 0.0 < q <= a && dt > 0.0 && v > 0.0 && dx > 0.0 && Settles(a, dt, v, dx)
    requires v * v == 2.0 * q * dx || (q == a && v * v > 2.0 * a * dx)
    requires s > 0.0 && -s == v - q * dt && dx > s * 10.0 * dt
    requires 2.0 * q * left == s * s - v * v + 2.0 * q * dx
    ensures Settles(a, dt, -s, left) && Within(a, dt, dx, left)
  {
    hide Settles, Within;
    if v * v == 2.0 * q * dx {
      ReversedExact(a, dt, q, v, s, dx, left);
    } else {
      Margin(a, dt, v, dx);
      ReversedFull(a, dt, v, s, dx, left);
    }
  }

  lemma ReversedExact(a: real, dt: real, q: real, v: real, s: real, dx: real, left: real)
    requires 0.0 < q <= a && dt > 0.0 && v > 0.0 && dx > 0.0 && v * v == 2.0 * q * dx
    requires s > 0.0 && v < q * dt && dx > s * 10.0 * dt && 2.0 * q * left == s * s
    ensures Settles(a, dt, -s, left) && Within(a, dt, dx, left)
  {
    hide Settles, Within;
    var k2, reach := Reversal(a, dt, q, v, s, dx);
    SmallLeft(a, q, s, v, dx, left, reach, k2);
    Product(a, left);
    ReversedSettles(a, dt, s, dx, left);
  }

  lemma ReversedFull(a: real, dt: real, v: real, s: real, dx: real, left: real)
    requires a > 0.0 && dt > 0.0 && v > 0.0 && dx > 0.0 && 2.0 * a * dx < v * v <= 2.0 * a * dx + a * dt * (a * dt)
    requires s > 0.0 && v < a * dt && dx > s * 10.0 * dt && 2.0 * a * left == s * s - v * v + 2.0 * a * dx
    ensures Settles(a, dt, -s, left) && Within(a, dt, dx, left)
  {
    hide Settles, Within;
    var k2, reach := Reversal(a, dt, a, v, s, dx);
    Squared(s);
    FullLeft(s * s, v * v, reach, k2, 2.0 * a * left);
    ReversedSettles(a, dt, s, dx, left);
  }

  lemma FullLeft(ss: real, vv: real, reach: real, k2: real, left: real)
    requires ss >= 0.0 && 400.0 * ss <= vv && reach < vv <= reach + k2 && vv <= k2 && reach <= k2
    requires left == ss - vv + reach
    ensures ss + left <= k2 && -k2 <= left
  {
  }

  lemma Margin(a: real, dt: real, v: real, dx: real)
    requires v > 0.0 && Settles(a, dt, v, dx)
    ensures v * v <= 2.0 * a * dx + a * dt * (a * dt)
  {
  }

  lemma ReversedSettles(a: real, dt: real, s: real, dx: real, left: real)
    requires s > 0.0 && s * s + 2.0 * a * left <= a * dt * (a * dt) && -(a * dt * (a * dt)) <= 2.0 * a * left
    requires s * s >= 0.0
    ensures Settles(a, dt, -s, left) && Within(a, dt, dx, left)
  {
    assert (-s) * (-s) == s * s;
  }

  // Braking that would cross zero within the sample is close to its target.
  lemma ShortReach(q: real, dt: real, v: real, dx: real)
    requires q > 0.0 && dt > 0.0 && 0.0 < v < q * dt && 2.0 * q * dx <= v * v
    ensures 2.0 * dx <= v * dt
  {
    var gap := Positive(v, q * dt - v);
    assert v * v < v * (q * dt) && v * (q * dt) == (v * dt) * q;
    assert 2.0 * q * dx == (2.0 * dx) * q;
    Cancel(2.0 * dx, v * dt, q);
  }

  // How fast a braking step that crosses zero without arriving can end.
  lemma Reversal(a: real, dt: real, q: real, v: real, s: real, dx: real) returns (k2: real, reach: real)
    requires 0.0 < q <= a && dt > 0.0 && v > 0.0 && dx > 0.0 && 2.0 * q * dx <= v * v
    requires s > 0.0 && v < q * dt && dx > s * 10.0 * dt
    ensures k2 == a * dt * (a * dt) && reach == 2.0 * a * dx
    ensures 400.0 * s * s <= v * v && v * v <= k2 && reach <= k2 && 400.0 * (s * s) <= v * v
  {
    var c, k := q * dt, a * dt;
    k2, reach := k * k, 2.0 * a * dx;
    Product(a - q, dt);
    assert v < c <= k;
    ShortReach(q, dt, v, dx);
    assert 20.0 * s * dt < v * dt;
    Cancel(20.0 * s, v, dt);
    Product(v - 20.0 * s, v + 20.0 * s);
    Product(k - v, k + v);
    Product(a, v * dt - 2.0 * dx);
    assert a * (v * dt) == v * k;
    Product(k, k - v);
  }

  lemma SmallLeft(a: real, q: real, s: real, v: real, dx: real, left: real, reach: real, k2: real)
    requires 0.0 < q <= a && 2.0 * q * left == s * s && v * v == 2.0 * q * dx
    requires 400.0 * s * s <= v * v && v * v <= k2 && reach == 2.0 * a * dx && reach <= k2
    ensures left >= 0.0 && 400.0 * left <= dx && s * s + 2.0 * a * left <= k2
  {
    assert s * s >= 0.0;
    assert left * q >= 0.0;
    Cancel(0.0, left, q);
    assert (400.0 * left) * q <= dx * q;
    Cancel(400.0 * left, dx, q);
    Product(a, dx - 400.0 * left);
  }

  lemma Squared(x: real)
    ensures x * x >= 0.0 && (-x) * (-x) == x * x
  {
  }

  lemma RetreatSettles(a: real, dt: real, v: real, v1: real, dx: real, travel: real, left: real)
    requires a > 0.0 && dt > 0.0 && v < 0.0 && dx >= 0.0 && Settles(a, dt, v, dx)
    requires v1 == v + a * dt && travel == 0.5 * (v + v1) * dt && v1 * v1 == v * v + 2.0 * a * travel
    requires left == dx - travel && (v1 > 0.0 ==> dx > v1 * 10.0 * dt)
    ensures Settles(a, dt, v1, left) && Within(a, dt, dx, left)
  {
    hide Settles, Within;
    TurnedBack(a, v, v1, dx, travel, dt);
    RetreatMargin(a, dt, v, dx);
    Spread(a, dx, travel, left);
    RetreatEnds(a, dt, v1, dx, left, v * v);
  }

  lemma RetreatMargin(a: real, dt: real, v: real, dx: real)
    requires v < 0.0 && Settles(a, dt, v, dx)
    ensures v * v <= a * dt * (a * dt) - 2.0 * a * dx
  {
  }

  lemma Spread(a: real, dx: real, travel: real, left: real)
    requires left == dx - travel
    ensures 2.0 * a * left == 2.0 * a * dx - 2.0 * a * travel
  {
  }

  lemma RetreatEnds(a: real, dt: real, v1: real, dx: real, left: real, before: real)
    requires a > 0.0 && CanStop(a, v1, left) && before <= a * dt * (a * dt) - 2.0 * a * dx
    requires 2.0 * a * left == 2.0 * a * dx - v1 * v1 + before
    ensures Settles(a, dt, v1, left) && Within(a, dt, dx, left)
  {
    hide Settles, Within;
    Squared(v1);
    Squared(a * dt);
    Product(2.0 * a, left);
    EndsWithin(a, dt, v1, dx, left, v1 * v1, 2.0 * a * left);
  }

  lemma EndsWithin(a: real, dt: real, v1: real, dx: real, left: real, square: real, room: real)
    requires square == v1 * v1 >= 0.0 && room == 2.0 * a * left >= 0.0 && a * dt * (a * dt) >= 0.0
    requires square <= a * dt * (a * dt) - room && (v1 > 0.0 ==> square <= room)
    ensures Settles(a, dt, v1, left) && Within(a, dt, dx, left)
  {
  }

  lemma RoomSettles(a: real, dt: real, v: real, r: real, v1: real, dx: real, travel: real, left: real)
    requires a > 0.0 && dt > 0.0 && v >= 0.0 && dx > 0.0 && !TooClose(a, v, dx, dt) && (r == a || r == 0.0)
    requires v1 == v + r * dt && travel == 0.5 * (v + v1) * dt && left == dx - travel
    ensures Settles(a, dt, v1, left) && Within(a, dt, dx, left)
  {
    hide Settles, Within, TooClose;
    RoomFor(a, v, r, v1, dx, travel, dt);
    Product(r, dt);
    StoppableSettles(a, dt, v1, left);
    Forward(a, dt, v, v1, dx, travel, left);
  }

  // Ending on the velocity limit costs at most one sample's braking.
  lemma ClampSettles(a: real, dt: real, v: real, end: real, dx: real, left: real)
    requires a > 0.0 && dt > 0.0 && 0.0 <= v < end < v + a * dt && !TooClose(a, v, dx, dt)
    requires left == dx - end * dt
    ensures Settles(a, dt, end, left) && Within(a, dt, dx, left)
  {
    hide Settles, Within;
    RoomAfter(a, v, dx, dt);
    var k, w := a * dt, v + a * dt;
    var after := dx - 0.5 * (v + w) * dt;
    ClampRoom(a, dt, k, v, w, end, dx, after, left);
    ClampAlgebra(2.0 * a * after, 2.0 * a * left, k, v, w, end);
    Product(end, dt);
    ClampEnds(a, dt, k, end, dx, left);
  }

  lemma ClampRoom(a: real, dt: real, k: real, v: real, w: real, end: real, dx: real, after: real, left: real)
    requires k == a * dt && after == dx - 0.5 * (v + w) * dt && left == dx - end * dt
    ensures 2.0 * a * left == 2.0 * a * after + k * (v + w) - 2.0 * k * end
  {
    Turned(a, dt, end);
    Turned(a, dt, 0.5 * (v + w));
    var gone, early := end * dt, 0.5 * (v + w) * dt;
    assert left - after == early - gone;
    assert 2.0 * a * (left - after) == 2.0 * (a * early) - 2.0 * (a * gone);
  }

  lemma Turned(a: real, dt: real, x: real)
    ensures a * (x * dt) == (a * dt) * x
  {
  }

  lemma ClampEnds(a: real, dt: real, k: real, end: real, dx: real, left: real)
    requires k == a * dt && end * end <= 2.0 * a * left + k * k && 2.0 * a * left >= 0.0 && k * k >= 0.0
    requires end > 0.0 && left <= dx
    ensures Settles(a, dt, end, left) && Within(a, dt, dx, left)
  {
  }

  lemma ClampAlgebra(room: real, room': real, k: real, v: real, w: real, end: real)
    requires k > 0.0 && w == v + k && 0.0 <= v < end < w && w * w <= room
    requires room' == room + k * (v + w) - 2.0 * k * end
    ensures end * end <= room' + k * k && room' >= 0.0 && k * k >= 0.0
  {
    assert k * (v + w) - 2.0 * k * end == 2.0 * (k * (w - end)) - k * k;
    Product(k, w - end);
    Product(w - end, w + end);
    Product(v, v + 2.0 * k);
    assert w * w == v * (v + 2.0 * k) + k * k;
  }

  lemma RetreatClamps(a: real, dt: real, v: real, end: real, dx: real, left: real)
    requires a > 0.0 && dt > 0.0 && v < 0.0 && dx >= 0.0 && 0.0 < end < v + a * dt
    requires left == dx - end * dt && dx > end * 10.0 * dt
    ensures Settles(a, dt, end, left) && Within(a, dt, dx, left)
  {
    var k := a * dt;
    var step := Positive(end, dt);
    Product(k - end, k + end);
    Product(a, left);
    Product(k, k);
  }

  ghost predicate StepSettles(a: real, dt: real, dx: real, m: Motion)
  {
    Settles(a, dt, m.velocity, dx - m.travel) && Within(a, dt, dx, dx - m.travel)
  }

  lemma DoneSettles(a: real, dt: real, dx: real)
    requires a > 0.0 && dt > 0.0 && dx >= 0.0
    ensures StepSettles(a, dt, dx, Motion(0.0, 0.0, 0.0, true))
  {
    Product(a, dx);
    Product(a * dt, a * dt);
  }

  lemma SlowAtTarget(a: real, dt: real, v: real)
    requires a > 0.0 && dt > 0.0 && Settles(a, dt, v, 0.0)
    ensures Abs(v) <= a * dt
  {
    var k := a * dt;
    if Abs(v) > k {
      var excess := Positive(Abs(v) - k, Abs(v) + k);
    }
  }

  ghost predicate Braking(a: real, q: real, v: real, dx: real)
  {
    0.0 < q <= a && v > 0.0 && (v * v == 2.0 * q * dx || (q == a && v * v > 2.0 * a * dx))
  }

  lemma KindsInLimit(a: real, v: real, dx: real, dt: real, limit: Option<real>) returns (q: real)
    requires a > 0.0 && dt > 0.0 && v >= 0.0 && dx > 0.0 && (limit.Some? ==> Abs(v) <= limit.value)
    ensures var r := Acceleration(a, v, 0.0, dx, dt, limit);
      || (r == -q && Braking(a, q, v, dx))
      || (r == 0.0 && v == 0.0)
      || ((r == a || r == 0.0) && !TooClose(a, v, dx, dt))
  {
    hide Acceleration, TooClose;
    q := ApproachKinds(a, v, dx, dt, limit);
  }

  lemma FreeStepSettles(a: real, dt: real, v: real, dx: real, limit: Option<real>, r: real, v1: real, travel: real)
    requires a > 0.0 && dt > 0.0 && dx > 0.0 && Settles(a, dt, v, dx) && (limit.Some? ==> Abs(v) <= limit.value)
    requires r == Acceleration(a, v, 0.0, dx, dt, limit)
    requires v1 == v + r * dt && travel == 0.5 * (v + v1) * dt && v1 * v1 == v * v + 2.0 * r * travel
    requires !Arrives(a, v, v1, 0.0, dx, dt)
    ensures StepSettles(a, dt, dx, Motion(v1, r, travel, false))
  {
    hide Acceleration, TooClose, Settles, Within, Arrives;
    var left := dx - travel;
    if v < 0.0 {
      RetreatAccelerates(a, v, v1, dx, dt, limit);
      RetreatSettles(a, dt, v, v1, dx, travel, left);
    } else {
      var q := KindsInLimit(a, v, dx, dt, limit);
      if r == -q && Braking(a, q, v, dx) {
        BackwardFar(a, v, v1, dx, dt);
        BrakingSettles(a, dt, q, v, v1, dx, travel);
      } else if r == 0.0 && v == 0.0 {
        RestSettles(a, dt, dx);
      } else {
        RoomSettles(a, dt, v, r, v1, dx, travel, left);
      }
    }
  }

  lemma BackwardFar(a: real, v: real, v1: real, dx: real, dt: real)
    requires v > 0.0 && dx > 0.0 && !Arrives(a, v, v1, 0.0, dx, dt)
    ensures v1 < 0.0 ==> dx > -v1 * 10.0 * dt
  {
  }

  lemma RestSettles(a: real, dt: real, dx: real)
    requires a > 0.0 && dt > 0.0 && dx > 0.0
    ensures Settles(a, dt, 0.0, dx) && Within(a, dt, dx, dx)
  {
    Product(a, dx);
    Product(a * dt, a * dt);
  }

  lemma HasLimit(v: real, v1: real, limit: Option<real>)
    requires Clamps(v, v1, limit)
    ensures limit.Some?
  {
  }

  lemma BrakingReach(a: real, q: real, v: real, dx: real)
    requires Braking(a, q, v, dx)
    ensures 0.0 < q <= a && v > 0.0 && 2.0 * q * dx <= v * v
  {
  }

  // The planner treats both directions alike.
  lemma AccelerationMirrored(a: real, v0: real, vf: real, dx: real, dt: real, limit: Option<real>)
    requires a > 0.0 && dt > 0.0 && dx != 0.0
    ensures Acceleration(a, -v0, -vf, -dx, dt, limit) == -Acceleration(a, v0, vf, dx, dt, limit)
      || (v0 == 0.0 && limit.Some? && limit.value < 0.0)
  {
    hide TooClose, Brake, StopDistance;
    var v := v0 - vf;
    assert -v0 - -vf == -v && (-v) * (-dx) == v * dx;
    SameStop(a, v);
    StoppedBrake(a, Abs(dx));
    if v == 0.0 {
      assert v * dx == 0.0;
    }
  }

  lemma SameStop(a: real, v: real)
    requires a > 0.0
    ensures StopDistance(a, -v) == StopDistance(a, v)
  {
    assert (-v) * (-v) == v * v;
  }

  function Mirrored(m: Motion): (r: Motion)
  {
    Motion(-m.velocity, -m.accel, -m.travel, m.done)
  }

  lemma StepMirrored(a: real, v: real, vf: real, dx: real, dt: real, limit: Option<real>)
    requires a > 0.0 && dt > 0.0 && dx != 0.0 && (limit.Some? ==> Abs(v) <= limit.value)
    ensures Step(a, -v, -vf, -dx, dt, limit) == Mirrored(Step(a, v, vf, dx, dt, limit))
  {
    hide Acceleration, Free, Finish, Abs;
    LimitSign(v, limit);
    AccelerationMirrored(a, v, vf, dx, dt, limit);
    FreeMirrored(a, v, vf, dx, dt, limit);
    FinishMirrored(a, v, Acceleration(a, v, vf, dx, dt, limit), Free(a, v, vf, dx, dt, limit), vf, dx, dt, limit);
  }

  lemma LimitSign(v: real, limit: Option<real>)
    ensures (limit.Some? ==> Abs(v) <= limit.value) ==> (limit.Some? ==> limit.value >= 0.0)
  {
  }

  lemma ClampMirrored(v: real, free: real, limit: Option<real>)
    requires limit.Some? ==> Abs(v) <= limit.value
    ensures Clamps(-v, -free, limit) <==> Clamps(v, free, limit)
    ensures Clamped(-v, -free, limit) == -Clamped(v, free, limit)
  {
  }

  // Finishing, from the clamped velocity and the acceleration that goes with it.
  lemma FinishIs(a: real, v: real, r: real, free: real, vf: real, dx: real, dt: real, limit: Option<real>, end: real,
                 accel: real)
    requires end == Clamped(v, free, limit) && accel == if Clamps(v, free, limit) then 0.0 else r
    ensures Finish(a, v, r, free, vf, dx, dt, limit)
      == if Arrives(a, v, end, vf, dx, dt) then Motion(vf, 0.0, vf * dt, true)
         else Motion(end, accel, Travel(v, end, accel, dt), false)
  {
    hide Clamped, Clamps, Arrives, Travel;
  }

  lemma FinishMirrored(a: real, v: real, r: real, free: real, vf: real, dx: real, dt: real, limit: Option<real>)
    requires limit.Some? ==> Abs(v) <= limit.value
    ensures Finish(a, -v, -r, -free, -vf, -dx, dt, limit) == Mirrored(Finish(a, v, r, free, vf, dx, dt, limit))
  {
    hide Clamped, Clamps, Arrives, Abs, Travel, Finish;
    ClampMirrored(v, free, limit);
    var end := Clamped(v, free, limit);
    var accel := if Clamps(v, free, limit) then 0.0 else r;
    FinishIs(a, v, r, free, vf, dx, dt, limit, end, accel);
    FinishIs(a, -v, -r, -free, -vf, -dx, dt, limit, -end, -accel);
    ArrivesMirrored(a, v, end, vf, dx, dt);
    TravelMirrored(v, end, accel, dt);
    var travel := Travel(v, end, accel, dt);
    if Arrives(a, v, end, vf, dx, dt) {
      assert Finish(a, v, r, free, vf, dx, dt, limit) == Motion(vf, 0.0, vf * dt, true);
      assert (-vf) * dt == -(vf * dt);
      assert Finish(a, -v, -r, -free, -vf, -dx, dt, limit) == Motion(-vf, 0.0, -(vf * dt), true);
    } else {
      assert Finish(a, v, r, free, vf, dx, dt, limit) == Motion(end, accel, travel, false);
      assert Finish(a, -v, -r, -free, -vf, -dx, dt, limit) == Motion(-end, -accel, -travel, false);
    }
  }

  lemma TravelMirrored(v: real, end: real, accel: real, dt: real)
    ensures Travel(-v, -end, -accel, dt) == -Travel(v, end, accel, dt)
  {
  }

  lemma ArrivesMirrored(a: real, v: real, end: real, vf: real, dx: real, dt: real)
    ensures Arrives(a, -v, -end, -vf, -dx, dt) <==> Arrives(a, v, end, vf, dx, dt)
  {
    assert Abs(-end - -vf) == Abs(end - vf) && Abs(-dx) == Abs(dx) && Abs(-vf) == Abs(vf);
  }

  lemma FreeMirrored(a: real, v: real, vf: real, dx: real, dt: real, limit: Option<real>)
    requires a > 0.0 && dt > 0.0
    requires Acceleration(a, -v, -vf, -dx, dt, limit) == -Acceleration(a, v, vf, dx, dt, limit)
    ensures Free(a, -v, -vf, -dx, dt, limit) == -Free(a, v, vf, dx, dt, limit)
  {
    hide Acceleration;
  }

  // No farther from the target than the start or half a sample's acceleration,
  // on either side.
  predicate Between(a: real, dt: real, from: real, dx: real)
  {
    var k := a * dt;
    (dx >= from || -(k * k) <= 2.0 * a * dx) && (dx <= from || 2.0 * a * dx <= k * k)
  }

  lemma BetweenStep(a: real, dt: real, from: real, dx: real, dx': real)
    requires a > 0.0 && dt > 0.0 && Between(a, dt, from, dx)
    requires if dx >= 0.0 then Within(a, dt, dx, dx') else Within(a, dt, -dx, -dx')
    ensures Between(a, dt, from, dx')
  {
    if dx >= 0.0 {
      UpTo(a, dt, from, dx, dx');
    } else {
      UpTo(a, dt, -from, -dx, -dx');
    }
    Product(a * dt, a * dt);
  }

  lemma UpTo(a: real, dt: real, from: real, dx: real, dx': real)
    requires a > 0.0 && dx >= 0.0 && (dx <= from || 2.0 * a * dx <= a * dt * (a * dt))
    requires dx' <= dx || 2.0 * a * dx' <= a * dt * (a * dt)
    ensures dx' <= from || 2.0 * a * dx' <= a * dt * (a * dt)
  {
    if dx' <= dx {
      Product(a, dx - dx');
    }
  }

  lemma ArrivesShifted(a: real, v: real, v1: real, vf: real, dx: real, dt: real)
    requires dt > 0.0
    ensures Arrives(a, v - vf, v1 - vf, 0.0, dx, dt) ==> Arrives(a, v, v1, vf, dx, dt)
  {
    var less, more := Max(Abs(v1 - vf - 0.0), Abs(0.0)), Max(Abs(v1 - vf), Abs(vf));
    Product(more - less, 10.0 * dt);
    assert less * 10.0 * dt == less * (10.0 * dt) && more * 10.0 * dt == more * (10.0 * dt);
  }

  lemma TravelShifted(v: real, v1: real, vf: real, accel: real, dt: real)
    ensures Travel(v, v1, accel, dt) - vf * dt == Travel(v - vf, v1 - vf, accel, dt)
  {
  }

  // A sample as it is seen from a target that moves at `vf`.
  function Seen(m: Motion, vf: real, dt: real): (r: Motion)
  {
    Motion(m.velocity - vf, m.accel, m.travel - vf * dt, m.done)
  }

  predicate InLimit(v: real, vf: real, limit: Option<real>)
  {
    limit.Some? ==> Abs(v) <= limit.value && Abs(vf) <= limit.value
  }

  lemma DoneFollows(a: real, v: real, vf: real, dx: real, dt: real, limit: Option<real>)
    requires a > 0.0 && dt > 0.0 && Step(a, v, vf, dx, dt, limit).done
    ensures Step(a, v, vf, dx, dt, limit) == Motion(vf, 0.0, vf * dt, true)
  {
    hide Acceleration, Arrives, Travel, Clamped;
  }

  // Within the limit, the limit only ever makes a trajectory that approaches
  // with room to spare coast.
  lemma LimitedKinds(a: real, v: real, vf: real, dx: real, dt: real, limit: Option<real>)
    requires a > 0.0 && dt > 0.0 && InLimit(v, vf, limit)
    ensures Acceleration(a, v, vf, dx, dt, limit) == Acceleration(a, v - vf, 0.0, dx, dt, None)
      || (Acceleration(a, v, vf, dx, dt, limit) == 0.0 && dx != 0.0 && (v - vf) * dx >= 0.0
          && !TooClose(a, Abs(v - vf), Abs(dx), dt))
  {
    hide Brake, StopDistance, TooClose;
    assert v - vf - 0.0 == v - vf;
  }

  // A sample that does not arrive: its speed and travel.
  lemma NotDone(a: real, v: real, vf: real, dx: real, dt: real, limit: Option<real>, r: real, v1: real)
    requires a > 0.0 && dt > 0.0 && !Step(a, v, vf, dx, dt, limit).done
    requires r == Acceleration(a, v, vf, dx, dt, limit) && v1 == v + r * dt
    ensures !Arrives(a, v, Clamped(v, v1, limit), vf, dx, dt) && (Clamps(v, v1, limit) || !Arrives(a, v, v1, vf, dx, dt))
    ensures Step(a, v, vf, dx, dt, limit) ==
      if Clamps(v, v1, limit) then Motion(Clamped(v, v1, limit), 0.0, Clamped(v, v1, limit) * dt, false)
      else Motion(v1, r, Travel(v, v1, r, dt), false)
  {
    hide Acceleration, Arrives, Clamps;
    assert Free(a, v, vf, dx, dt, limit) == v1;
    FinishIs(a, v, r, v1, vf, dx, dt, limit, Clamped(v, v1, limit), if Clamps(v, v1, limit) then 0.0 else r);
  }

  // On the target, no faster than one sample can undo, it arrives.
  lemma MeetsTarget(a: real, v: real, vf: real, dt: real, limit: Option<real>)
    requires a > 0.0 && dt > 0.0 && Abs(v - vf) <= a * dt && InLimit(v, vf, limit)
    ensures Step(a, v, vf, 0.0, dt, limit).done
  {
    hide Brake, StopDistance, TooClose, Arrives, Clamped, Clamps;
    var free := Free(a, v, vf, 0.0, dt, limit);
    assert (-a) * dt == -(a * dt);
    assert v <= vf <= free || free <= vf <= v;
    ClampedCrosses(v, free, vf, limit);
    CrossingArrives(a, v, Clamped(v, free, limit), vf, dt);
  }

  lemma ClampedCrosses(v: real, free: real, vf: real, limit: Option<real>)
    requires InLimit(v, vf, limit)
    ensures v <= vf <= free ==> v <= vf <= Clamped(v, free, limit)
    ensures free <= vf <= v ==> Clamped(v, free, limit) <= vf <= v
  {
  }

  lemma CrossingArrives(a: real, v: real, v1: real, vf: real, dt: real)
    requires dt > 0.0 && (v <= vf <= v1 || v1 <= vf <= v)
    ensures Arrives(a, v, v1, vf, 0.0, dt)
  {
    var reach := Max(Abs(v1 - vf), Abs(vf));
    Product(reach, 10.0 * dt);
    assert reach * (10.0 * dt) == reach * 10.0 * dt;
  }

  // The limit cuts a change of speed only at the end it moves towards.
  lemma ClampedEnd(v: real, v1: real, limit: real)
    requires Abs(v) <= limit && Clamps(v, v1, Some(limit))
    ensures v1 > v ==> Clamped(v, v1, Some(limit)) == limit && v < limit < v1
    ensures v1 < v ==> Clamped(v, v1, Some(limit)) == -limit && v1 < -limit < v
    ensures v1 != v
  {
  }

  // Clamped while it turns back: the trajectory had farther to go than that.
  lemma RetreatClamped(a: real, dt: real, v: real, vf: real, dx: real, limit: real, end: real)
    requires a > 0.0 && dt > 0.0 && dx > 0.0 && v < vf && Abs(v) <= limit && Abs(vf) <= limit
    requires limit < v + a * dt && !Arrives(a, v, limit, vf, dx, dt) && end == limit - vf
    ensures StepSettles(a, dt, dx, Motion(end, 0.0, end * dt, false))
  {
    hide Settles, Within, StepSettles;
    if end == 0.0 {
      RestSettles(a, dt, dx);
      assert end * dt == 0.0;
      Settled(a, dt, dx, end, end * dt, 0.0);
    } else {
      var reach := Max(Abs(end), Abs(vf));
      assert v <= vf <= limit && dx > reach * 10.0 * dt;
      Product(reach - end, 10.0 * dt);
      assert end * 10.0 * dt == end * (10.0 * dt) && reach * 10.0 * dt == reach * (10.0 * dt);
      RetreatClamps(a, dt, v - vf, end, dx, dx - end * dt);
      Settled(a, dt, dx, end, end * dt, 0.0);
    }
  }

  // Braking never ends on the limit without arriving.
  lemma NoMovingBrakeClamp(a: real, dt: real, q: real, v: real, vf: real, dx: real, limit: real)
    requires 0.0 < q <= a && dt > 0.0 && v > vf && dx > 0.0 && 2.0 * q * dx <= (v - vf) * (v - vf)
    requires Abs(v) <= limit && Abs(vf) <= limit && v - q * dt < -limit
    ensures Arrives(a, v, -limit, vf, dx, dt)
  {
    var c := Positive(q, dt);
    ShortReach(q, dt, v - vf, dx);
    var reach := Max(Abs(-limit - vf), Abs(vf));
    assert 2.0 * reach >= limit && v - vf <= 2.0 * limit;
    Product(4.0 * reach - (v - vf), dt);
    Product(reach, dt);
    assert reach * 10.0 * dt == 10.0 * (reach * dt);
  }

  lemma RoomClamped(a: real, dt: real, v: real, vf: real, dx: real, limit: real, end: real)
    requires a > 0.0 && dt > 0.0 && dx > 0.0 && v >= vf && !TooClose(a, v - vf, dx, dt)
    requires v < limit < v + a * dt && end == limit - vf
    ensures StepSettles(a, dt, dx, Motion(end, 0.0, end * dt, false))
  {
    hide TooClose, Settles, Within;
    ClampSettles(a, dt, v - vf, end, dx, dx - end * dt);
  }

  // A sample that ends on the limit.
  lemma ClampedBehind(a: real, dt: real, v: real, vf: real, dx: real, limit: real, r: real, v1: real,
                      end: real, seen: real)
    requires a > 0.0 && dt > 0.0 && dx > 0.0 && Settles(a, dt, v - vf, dx) && InLimit(v, vf, Some(limit))
    requires r == Acceleration(a, v, vf, dx, dt, Some(limit)) && v1 == v + r * dt && Clamps(v, v1, Some(limit))
    requires end == Clamped(v, v1, Some(limit)) && !Arrives(a, v, end, vf, dx, dt) && seen == end - vf
    ensures StepSettles(a, dt, dx, Motion(seen, 0.0, seen * dt, false))
  {
    hide Acceleration, TooClose, Settles, Within, StepSettles, Braking, Arrives, Clamps, Clamped;
    LimitedKinds(a, v, vf, dx, dt, Some(limit));
    ClampedEnd(v, v1, limit);
    var change := Positive(a, dt);
    if v < vf {
      Apart(v - vf, dx);
      RetreatAccelerates(a, v - vf, 0.0, dx, dt, None);
      RetreatClamped(a, dt, v, vf, dx, limit, seen);
    } else {
      var q := KindsInLimit(a, v - vf, dx, dt, None);
      if r == -q && Braking(a, q, v - vf, dx) {
        BrakingReach(a, q, v - vf, dx);
        var slower := Positive(q, dt);
        assert v1 == v - q * dt;
        NoMovingBrakeClamp(a, dt, q, v, vf, dx, limit);
      } else {
        RoomClamped(a, dt, v, vf, dx, limit, seen);
      }
    }
  }

  lemma Apart(v: real, dx: real)
    requires v < 0.0 && dx > 0.0
    ensures v * dx < 0.0
  {
  }

  // One sample behind a target that is ahead and moves.
  lemma BehindSettles(a: real, dt: real, v: real, vf: real, dx: real, limit: Option<real>)
    requires a > 0.0 && dt > 0.0 && dx >= 0.0 && Settles(a, dt, v - vf, dx) && InLimit(v, vf, limit)
    ensures StepSettles(a, dt, dx, Seen(Step(a, v, vf, dx, dt, limit), vf, dt))
  {
    hide Acceleration, TooClose, Settles, Within, StepSettles, Step, Arrives, Clamps, Clamped, Travel, InLimit;
    DoneSettles(a, dt, dx);
    var m, r := Step(a, v, vf, dx, dt, limit), Acceleration(a, v, vf, dx, dt, limit);
    var v1 := v + r * dt;
    if m.done {
      DoneFollows(a, v, vf, dx, dt, limit);
      SettlesAlike(a, dt, dx, Motion(0.0, 0.0, 0.0, true), Seen(m, vf, dt));
    } else if dx == 0.0 {
      SlowAtTarget(a, dt, v - vf);
      MeetsTarget(a, v, vf, dt, limit);
    } else {
      NotDone(a, v, vf, dx, dt, limit, r, v1);
      if Clamps(v, v1, limit) {
        HasLimit(v, v1, limit);
        var seen := m.velocity - vf;
        ClampedBehind(a, dt, v, vf, dx, limit.value, r, v1, m.velocity, seen);
        CoastsSeen(a, dt, dx, m, vf, seen);
      } else {
        FreeBehind(a, dt, v, vf, dx, limit, r, v1);
      }
    }
  }

  lemma SettlesAlike(a: real, dt: real, dx: real, m: Motion, m': Motion)
    requires StepSettles(a, dt, dx, m) && m.velocity == m'.velocity && m.travel == m'.travel
    ensures StepSettles(a, dt, dx, m')
  {
  }

  lemma CoastsSeen(a: real, dt: real, dx: real, m: Motion, vf: real, seen: real)
    requires m.velocity == seen + vf && m.travel == m.velocity * dt
    requires StepSettles(a, dt, dx, Motion(seen, 0.0, seen * dt, false))
    ensures StepSettles(a, dt, dx, Seen(m, vf, dt))
  {
    hide StepSettles;
    assert m.travel - vf * dt == seen * dt;
    SettlesAlike(a, dt, dx, Motion(seen, 0.0, seen * dt, false), Seen(m, vf, dt));
  }

  lemma FreeBehind(a: real, dt: real, v: real, vf: real, dx: real, limit: Option<real>, r: real, v1: real)
    requires a > 0.0 && dt > 0.0 && dx > 0.0 && Settles(a, dt, v - vf, dx) && InLimit(v, vf, limit)
    requires r == Acceleration(a, v, vf, dx, dt, limit) && v1 == v + r * dt
    requires !Arrives(a, v, v1, vf, dx, dt)
    ensures StepSettles(a, dt, dx, Seen(Motion(v1, r, Travel(v, v1, r, dt), false), vf, dt))
  {
    hide Acceleration, TooClose, Settles, Within, StepSettles, Arrives, Travel;
    var w, w1, travel := v - vf, v1 - vf, Travel(v, v1, r, dt) - vf * dt;
    TravelShifted(v, v1, vf, r, dt);
    ArrivesShifted(a, v, v1, vf, dx, dt);
    LimitedKinds(a, v, vf, dx, dt, limit);
    SteadyTravel(w, w1, r, dt);
    if r == Acceleration(a, w, 0.0, dx, dt, None) {
      var _, _ := ConstantAcceleration(w, r, dt);
      FreeStepSettles(a, dt, w, dx, None, r, w1, travel);
    } else {
      Nonnegative(w, dx);
      RoomSettles(a, dt, w, r, w1, dx, travel, dx - travel);
      Settled(a, dt, dx, w1, travel, r);
    }
  }

  lemma Settled(a: real, dt: real, dx: real, w1: real, travel: real, r: real)
    requires Settles(a, dt, w1, dx - travel) && Within(a, dt, dx, dx - travel)
    ensures StepSettles(a, dt, dx, Motion(w1, r, travel, false))
  {
  }

  lemma Nonnegative(w: real, dx: real)
    requires w * dx >= 0.0 && dx > 0.0
    ensures w >= 0.0
  {
  }

  lemma SteadyTravel(w: real, w1: real, r: real, dt: real)
    requires w1 == w + r * dt
    ensures Travel(w, w1, r, dt) == 0.5 * (w + w1) * dt
  {
  }

  // What every sample behind a moving target keeps, on either side of it.
  lemma KeepsChasing(a: real, dt: real, v: real, vf: real, dx: real, from: real, limit: Option<real>)
    requires a > 0.0 && dt > 0.0 && Settles(a, dt, v - vf, dx) && InLimit(v, vf, limit) && Between(a, dt, from, dx)
    ensures var m := Step(a, v, vf, dx, dt, limit);
      var left := dx + vf * dt - m.travel;
      Settles(a, dt, m.velocity - vf, left) && Between(a, dt, from, left)
  {
    hide Step, Between, Within;
    var m := Step(a, v, vf, dx, dt, limit);
    var left := dx + vf * dt - m.travel;
    assert left == dx - Seen(m, vf, dt).travel;
    if dx >= 0.0 {
      BehindSettles(a, dt, v, vf, dx, limit);
    } else {
      InLimitMirrored(v, vf, limit);
      StepMirrored(a, v, vf, dx, dt, limit);
      SettlesMirrored(a, dt, v - vf, dx);
      BehindSettles(a, dt, -v, -vf, -dx, limit);
      SettlesMirrored(a, dt, m.velocity - vf, left);
      assert -dx - Seen(Mirrored(m), -vf, dt).travel == -left;
    }
    BetweenStep(a, dt, from, dx, left);
  }

  lemma InLimitMirrored(v: real, vf: real, limit: Option<real>)
    ensures InLimit(-v, -vf, limit) <==> InLimit(v, vf, limit)
  {
  }

  // The same for a target at rest.
  lemma KeepsSettled(a: real, dt: real, v: real, dx: real, from: real, limit: Option<real>)
    requires a > 0.0 && dt > 0.0 && Settles(a, dt, v, dx) && (limit.Some? ==> Abs(v) <= limit.value)
    requires Between(a, dt, from, dx)
    ensures var m := Step(a, v, 0.0, dx, dt, limit);
      Settles(a, dt, m.velocity, dx - m.travel) && Between(a, dt, from, dx - m.travel)
  {
    hide Step, Between, Settles;
    if limit.Some? {
      LimitNotNegative(v, limit.value);
    }
    assert v - 0.0 == v && 0.0 * dt == 0.0;
    KeepsChasing(a, dt, v, 0.0, dx, from, limit);
  }

  lemma SettlesMirrored(a: real, dt: real, v: real, dx: real)
    ensures Settles(a, dt, -v, -dx) <==> Settles(a, dt, v, dx)
  {
    assert (-v) * (-v) == v * v;
  }

  // The planner's state after `n` samples of a move: velocity, distance left.
  function Move(a: real, dt: real, v: real, dx: real, n: nat, limit: Option<real>): (r: (real, real))
    requires a > 0.0 && dt > 0.0
    decreases n
  {
    if n == 0 then (v, dx) else
    var m := Step(a, v, 0.0, dx, dt, limit);
    if m.done then (m.velocity, dx - m.travel) else Move(a, dt, m.velocity, dx - m.travel, n - 1, limit)
  }

  lemma {:induction false} MoveSettles(a: real, dt: real, v: real, dx: real, n: nat, from: real, limit: Option<real>)
    requires a > 0.0 && dt > 0.0 && Settles(a, dt, v, dx) && Between(a, dt, from, dx)
    requires limit.Some? ==> Abs(v) <= limit.value && a * dt <= 2.0 * limit.value
    ensures Between(a, dt, from, Move(a, dt, v, dx, n, limit).1)
    decreases n
  {
    hide Settles, Between, Step;
    if n > 0 {
      var m := Step(a, v, 0.0, dx, dt, limit);
      KeepsSettled(a, dt, v, dx, from, limit);
      if limit.Some? {
        LimitNotNegative(v, limit.value);
        VelocityBound(a, v, 0.0, dx, dt, limit);
      }
      if !m.done {
        MoveSettles(a, dt, m.velocity, dx - m.travel, n - 1, from, limit);
      }
    }
  }

  lemma LimitNotNegative(v: real, limit: real)
    requires Abs(v) <= limit
    ensures Abs(0.0) <= limit && Max(Abs(v), limit) == limit
  {
  }

  // From rest, however far the target and however many samples: the planner
  // never gets past it by more than full acceleration covers in one sample.
  lemma NeverOvershoots(a: real, dt: real, dx: real, n: nat, limit: Option<real>)
    requires a > 0.0 && dt > 0.0 && (limit.Some? ==> a * dt <= 2.0 * limit.value)
    ensures var left := Move(a, dt, 0.0, dx, n, limit).1;
      if dx >= 0.0 then -(0.5 * a * dt * dt) <= left else left <= 0.5 * a * dt * dt
  {
    hide Move;
    var k := Positive(a, dt);
    Product(k, k);
    MoveSettles(a, dt, 0.0, dx, n, dx, limit);
    OverBy(a, dt, dx, Move(a, dt, 0.0, dx, n, limit).1);
  }

  lemma OverBy(a: real, dt: real, dx: real, left: real)
    requires a > 0.0 && dt > 0.0 && Between(a, dt, dx, left)
    ensures if dx >= 0.0 then -(0.5 * a * dt * dt) <= left else left <= 0.5 * a * dt * dt
  {
    var k := Positive(a, dt);
    assert k * k == (0.5 * a * dt * dt) * (2.0 * a);
    if dx >= 0.0 {
      if left >= dx {
        Product(0.5 * a * dt, dt);
      } else {
        Cancel(-(0.5 * a * dt * dt), left, 2.0 * a);
      }
    } else {
      if left <= dx {
        Product(0.5 * a * dt, dt);
      } else {
        Cancel(left, 0.5 * a * dt * dt, 2.0 * a);
      }
    }
  }

  // A braking step that neither arrives nor runs into the limits keeps
  // v^2 / (2 dx), the deceleration asked for, exactly.
  lemma BrakingConserves(a: real, v: real, dx: real, dt: real, limit: Option<real>)
    requires a > 0.0 && dt > 0.0 && v > 0.0 && dx > 0.0 && CanStop(a, v, dx) && (limit.Some? ==> v <= limit.value)
    requires Acceleration(a, v, 0.0, dx, dt, limit) < 0.0 && !Clamps(v, Free(a, v, 0.0, dx, dt, limit), limit)
    ensures var m := Step(a, v, 0.0, dx, dt, limit); !m.done ==>
      m.velocity * m.velocity * dx == v * v * (dx - m.travel)
  {
    hide Acceleration, TooClose, Step, Clamps;
    var r := Acceleration(a, v, 0.0, dx, dt, limit);
    var v1, travel := ConstantAcceleration(v, r, dt);
    assert v1 == Free(a, v, 0.0, dx, dt, limit);
    StepMoves(a, v, dx, dt, limit, v1, travel);
    var q := ApproachKinds(a, v, dx, dt, limit);
    Coming(a, v, dx);
    Conserved(q, v, v1, dx, travel);
  }

  lemma Conserved(q: real, v: real, v1: real, dx: real, travel: real)
    requires v * v == 2.0 * q * dx && v1 * v1 == v * v - 2.0 * q * travel
    ensures v1 * v1 * dx == v * v * (dx - travel)
  {
    assert v1 * v1 == 2.0 * q * (dx - travel);
    assert (2.0 * q * (dx - travel)) * dx == (2.0 * q * dx) * (dx - travel);
  }

  // At rest short of the target, the planner stands still for ever, without
  // reporting the move done, exactly when less than a dt^2 is left.
  lemma StallsExactly(a: real, dx: real, dt: real, limit: Option<real>)
    requires a > 0.0 && dt > 0.0 && dx != 0.0 && (limit.Some? ==> limit.value > 0.0)
    ensures Step(a, 0.0, 0.0, dx, dt, limit) == Motion(0.0, 0.0, 0.0, false) <==> Abs(dx) < a * dt * dt
  {
    hide Brake, Acceleration, TooClose;
    StartsMoving(a, dx, dt, limit);
    var r := Acceleration(a, 0.0, 0.0, dx, dt, limit);
    var k := Positive(a, dt);
    assert (-a) * dt == -k;
  }

  lemma StartsMoving(a: real, dx: real, dt: real, limit: Option<real>)
    requires a > 0.0 && dt > 0.0 && dx != 0.0 && (limit.Some? ==> limit.value > 0.0)
    ensures Acceleration(a, 0.0, 0.0, dx, dt, limit) ==
      if Abs(dx) < a * dt * dt then 0.0 else if dx > 0.0 then a else -a
  {
    hide Brake;
    StoppedBrake(a, Abs(dx));
    var k := a * dt;
    assert (1.0 / (2.0 * a)) * (2.0 * a) == 1.0;
    assert StopDistance(a, k) == (k * dt) * 0.5 by {
      assert k * k * (1.0 / (2.0 * a)) == (k * dt) * (a * (1.0 / (2.0 * a)));
    }
    assert 0.0 * dx == 0.0;
    assert TooClose(a, 0.0, Abs(dx), dt) <==> Abs(dx) < k * dt;
  }

  // A move reported done ended within ten samples' worth of `a dt` of the target.
  lemma DoneAccuracy(a: real, v: real, dx: real, dt: real, limit: Option<real>)
    requires a > 0.0 && dt > 0.0 && (limit.Some? ==> limit.value >= 0.0)
    requires Step(a, v, 0.0, dx, dt, limit).done
    ensures Abs(dx) <= 10.0 * (a * dt) * dt
  {
    hide Acceleration, Clamped, Clamps, Arrives, Abs;
    var r := Acceleration(a, v, 0.0, dx, dt, limit);
    AccelerationAtMost(a, v, 0.0, dx, dt, limit);
    var change := Scaled(r, a, dt);
    var free := Free(a, v, 0.0, dx, dt, limit);
    assert free == v + change;
    hide Free;
    FreeWithin(a * dt, v, free, change);
    DoneArrived(a, v, r, free, dx, dt, limit);
    ArrivalAccuracy(a, v, free, dx, dt, limit);
  }

  lemma FreeWithin(k: real, v: real, free: real, change: real)
    requires free == v + change && -k <= change <= k
    ensures Abs(free - v) <= k
  {
  }

  lemma DoneArrived(a: real, v: real, r: real, free: real, dx: real, dt: real, limit: Option<real>)
    requires Finish(a, v, r, free, 0.0, dx, dt, limit).done
    ensures Arrives(a, v, Clamped(v, free, limit), 0.0, dx, dt)
  {
    hide Arrives, Clamped, Travel;
  }

  lemma ArrivalAccuracy(a: real, v: real, free: real, dx: real, dt: real, limit: Option<real>)
    requires a > 0.0 && dt > 0.0 && (limit.Some? ==> limit.value >= 0.0) && Abs(free - v) <= a * dt
    requires Arrives(a, v, Clamped(v, free, limit), 0.0, dx, dt)
    ensures Abs(dx) <= 10.0 * (a * dt) * dt
  {
    hide Clamped;
    var k := Positive(a, dt);
    var v1 := Clamped(v, free, limit);
    CrossingSlow(k, v, free, limit);
    assert Abs(v1) <= k;
    Product(k - Abs(v1), 10.0 * dt);
  }

  lemma CrossingSlow(k: real, v: real, free: real, limit: Option<real>)
    requires k > 0.0 && Abs(free - v) <= k && (limit.Some? ==> limit.value >= 0.0)
    ensures var v1 := Clamped(v, free, limit); v <= 0.0 <= v1 || v1 <= 0.0 <= v ==> Abs(v1) <= k
  {
  }

  // ---- Getting there -----------------------------------------------------------------

  // There is room for another sample of full acceleration, and the target is
  // not near enough to count as reached.
  predicate Clear(a: real, v: real, dx: real, dt: real)
    requires a > 0.0
  {
    !TooClose(a, v, dx, dt) && dx > (v + a * dt) * 10.0 * dt
  }

  function Slower(v: real, limit: Option<real>): (r: real)
    ensures r <= v && (limit.Some? ==> r <= limit.value) && (r == v || (limit.Some? && r == limit.value))
  {
    if limit.Some? && limit.value < v then limit.value else v
  }

  lemma FasterStops(a: real, v: real, next: real)
    requires a > 0.0 && 0.0 <= v <= next
    ensures StopDistance(a, v) <= StopDistance(a, next)
  {
    assert 1.0 / (2.0 * a) > 0.0;
    SquareOrder(v, next);
    Product(next * next - v * v, 1.0 / (2.0 * a));
  }

  lemma ClearAccelerates(a: real, v: real, dx: real, dt: real, limit: Option<real>)
    requires a > 0.0 && dt > 0.0 && v >= 0.0 && Clear(a, v, dx, dt) && (limit.Some? ==> 0.0 < limit.value && v <= limit.value)
    ensures dx > 0.0
    ensures Acceleration(a, v, 0.0, dx, dt, limit) == if limit.None? || v < limit.value then a else 0.0
  {
    var k := Positive(a, dt);
    var _ := Positive((v + k) * 10.0, dt);
    FasterStops(a, v, v + k);
    var _ := Positive((v + (v + k)) * 0.5, dt);
    hide StopDistance, Brake;
    Product(v, dx);
  }

  lemma ClearNotArrived(a: real, v: real, v1: real, dx: real, dt: real)
    requires a > 0.0 && dt > 0.0 && 0.0 <= v1 <= v + a * dt && Clear(a, v, dx, dt)
    ensures !Arrives(a, v, v1, 0.0, dx, dt)
  {
    hide TooClose;
    Product(v + a * dt - v1, 10.0 * dt);
    assert v1 * 10.0 * dt == v1 * (10.0 * dt) && (v + a * dt) * 10.0 * dt == (v + a * dt) * (10.0 * dt);
    Product(v1, 10.0 * dt);
    assert Max(Abs(v1 - 0.0), Abs(0.0)) == v1;
  }

  lemma TravelAtLeast(v: real, v1: real, accel: real, dt: real)
    requires dt > 0.0 && v <= v1
    ensures AtLeast(Travel(v, v1, accel, dt), v, v1, dt)
  {
    Product(v1 - v, dt);
    assert v1 * dt - 0.5 * (v + v1) * dt == 0.5 * ((v1 - v) * dt);
  }

  // With room ahead the next sample speeds up by `a dt`, or to the limit.
  lemma ClearStep(a: real, v: real, dx: real, dt: real, limit: Option<real>)
    requires a > 0.0 && dt > 0.0 && v >= 0.0 && Clear(a, v, dx, dt) && (limit.Some? ==> 0.0 < limit.value && v <= limit.value)
    ensures var m := Step(a, v, 0.0, dx, dt, limit);
      !m.done && m.velocity == Slower(v + a * dt, limit) && AtLeast(m.travel, v, m.velocity, dt)
  {
    hide Acceleration, Clear, Travel, Arrives, Finish, Step, Clamped, Clamps, Slower, Free, AtLeast;
    ClearAccelerates(a, v, dx, dt, limit);
    var k := Positive(a, dt);
    var v1, free := Slower(v + k, limit), Free(a, v, 0.0, dx, dt, limit);
    var r := Acceleration(a, v, 0.0, dx, dt, limit);
    var accel := if Clamps(v, free, limit) then 0.0 else r;
    StepIs(a, v, dx, dt, limit, r, free);
    SpeedClamped(a, v, r, k, dt, free, limit);
    ClearNotArrived(a, v, v1, dx, dt);
    TravelAtLeast(v, v1, accel, dt);
    FinishIs(a, v, r, free, 0.0, dx, dt, limit, v1, accel);
  }

  lemma StepIs(a: real, v: real, dx: real, dt: real, limit: Option<real>, r: real, free: real)
    requires a > 0.0 && dt > 0.0 && r == Acceleration(a, v, 0.0, dx, dt, limit) && free == Free(a, v, 0.0, dx, dt, limit)
    ensures Step(a, v, 0.0, dx, dt, limit) == Finish(a, v, r, free, 0.0, dx, dt, limit) && free == v + r * dt
  {
    hide Acceleration, Finish;
  }

  // At least the distance the mean of the two speeds covers.
  predicate AtLeast(travel: real, v: real, v1: real, dt: real)
  {
    travel >= 0.5 * (v + v1) * dt
  }

  lemma SpeedClamped(a: real, v: real, r: real, k: real, dt: real, free: real, limit: Option<real>)
    requires v >= 0.0 && k == a * dt > 0.0 && free == v + r * dt && (limit.Some? ==> 0.0 < limit.value && v <= limit.value)
    requires r == if limit.None? || v < limit.value then a else 0.0
    ensures Clamped(v, free, limit) == Slower(v + k, limit)
    ensures v <= Slower(v + k, limit) <= v + k
  {
    assert r == 0.0 ==> r * dt == 0.0;
  }

  ghost predicate ClearAt(a: real, dt: real, v: real, dx: real, k: nat, limit: Option<real>)
    requires a > 0.0 && dt > 0.0
  {
    var s := Move(a, dt, v, dx, k, limit);
    Clear(a, s.0, s.1, dt)
  }

  // The planner had room at each of the first `n` samples.
  ghost predicate ClearFor(a: real, dt: real, v: real, dx: real, n: nat, limit: Option<real>)
    requires a > 0.0 && dt > 0.0
  {
    forall k: nat :: k < n ==> ClearAt(a, dt, v, dx, k, limit)
  }

  lemma ClearForNext(a: real, dt: real, v: real, dx: real, n: nat, limit: Option<real>)
    requires a > 0.0 && dt > 0.0 && n > 0 && ClearFor(a, dt, v, dx, n, limit) && !Step(a, v, 0.0, dx, dt, limit).done
    ensures Clear(a, v, dx, dt)
    ensures var m := Step(a, v, 0.0, dx, dt, limit); ClearFor(a, dt, m.velocity, dx - m.travel, n - 1, limit)
  {
    hide Step, Clear;
    var m := Step(a, v, 0.0, dx, dt, limit);
    var left := dx - m.travel;
    ClearAtStart(a, dt, v, dx, n, limit);
    forall k: nat | k < n - 1
      ensures ClearAt(a, dt, m.velocity, left, k, limit)
    {
      ClearLater(a, dt, v, dx, k, limit);
      assert ClearAt(a, dt, v, dx, k + 1, limit);
    }
  }

  lemma ClearLater(a: real, dt: real, v: real, dx: real, k: nat, limit: Option<real>)
    requires a > 0.0 && dt > 0.0 && !Step(a, v, 0.0, dx, dt, limit).done
    ensures var m := Step(a, v, 0.0, dx, dt, limit);
      ClearAt(a, dt, v, dx, k + 1, limit) == ClearAt(a, dt, m.velocity, dx - m.travel, k, limit)
  {
    hide Step, Clear;
  }

  // Full acceleration for `n` samples, up to the limit.
  function SpeedAfter(a: real, dt: real, v: real, n: nat, limit: Option<real>): (r: real)
  {
    Slower(v + n as real * (a * dt), limit)
  }

  function Cruised(v: real, dt: real, n: nat): (d: real)
  {
    n as real * (v * dt)
  }

  // As long as there is room, the speed grows by `a dt` a sample up to the
  // limit, and every sample covers at least what its first speed does.
  lemma {:induction false} SpeedsUp(a: real, dt: real, v: real, dx: real, n: nat, limit: Option<real>)
    requires a > 0.0 && dt > 0.0 && v >= 0.0 && (limit.Some? ==> 0.0 < limit.value && v <= limit.value)
    requires ClearFor(a, dt, v, dx, n, limit)
    ensures var s := Move(a, dt, v, dx, n, limit);
      s.0 == SpeedAfter(a, dt, v, n, limit) && s.1 <= dx - Cruised(v, dt, n)
    decreases n
  {
    hide Step, Clear, ClearFor, Slower, AtLeast, SpeedAfter, Cruised;
    var m := Step(a, v, 0.0, dx, dt, limit);
    if n == 0 {
      NoSample(a, dt, v, limit);
    } else {
      ClearAtStart(a, dt, v, dx, n, limit);
      ClearStep(a, v, dx, dt, limit);
      ClearForNext(a, dt, v, dx, n, limit);
      StillSpeeding(a, dt, v, limit);
      SpeedsUp(a, dt, m.velocity, dx - m.travel, n - 1, limit);
      SpeedsOn(a, dt, v, m.velocity, n, limit);
      CoversOn(dt, v, m.velocity, n, m.travel);
    }
  }

  lemma NoSample(a: real, dt: real, v: real, limit: Option<real>)
    requires limit.Some? ==> v <= limit.value
    ensures SpeedAfter(a, dt, v, 0, limit) == v && Cruised(v, dt, 0) == 0.0
  {
  }

  lemma StillSpeeding(a: real, dt: real, v: real, limit: Option<real>)
    requires a > 0.0 && dt > 0.0 && v >= 0.0 && (limit.Some? ==> 0.0 < limit.value && v <= limit.value)
    ensures v <= Slower(v + a * dt, limit) && (limit.Some? ==> Slower(v + a * dt, limit) <= limit.value)
  {
    var _ := Positive(a, dt);
  }

  lemma SpeedsOn(a: real, dt: real, v: real, v1: real, n: nat, limit: Option<real>)
    requires a > 0.0 && dt > 0.0 && n > 0 && v1 == Slower(v + a * dt, limit)
    ensures SpeedAfter(a, dt, v1, n - 1, limit) == SpeedAfter(a, dt, v, n, limit)
  {
    var k := Positive(a, dt);
    Product((n - 1) as real, k);
    assert n as real * k == (n - 1) as real * k + k;
  }

  lemma CoversOn(dt: real, v: real, v1: real, n: nat, travel: real)
    requires dt > 0.0 && n > 0 && v <= v1 && AtLeast(travel, v, v1, dt)
    ensures travel + Cruised(v1, dt, n - 1) >= Cruised(v, dt, n)
  {
    Product(v1 - v, dt);
    var more := (v1 - v) * dt;
    Product((n - 1) as real, more);
    assert v1 * dt == v * dt + more && 0.5 * (v + v1) * dt == v * dt + 0.5 * more;
    assert (n - 1) as real * (v * dt + more) == (n - 1) as real * (v * dt) + (n - 1) as real * more;
    assert n as real * (v * dt) == (n - 1) as real * (v * dt) + v * dt;
  }

  lemma ClearAtStart(a: real, dt: real, v: real, dx: real, n: nat, limit: Option<real>)
    requires a > 0.0 && dt > 0.0 && n > 0 && ClearFor(a, dt, v, dx, n, limit)
    ensures Clear(a, v, dx, dt)
  {
    hide Clear;
    assert ClearAt(a, dt, v, dx, 0, limit);
  }

  // Ten samples of the next speed, or what that speed needs to stop: as far from
  // the target as the planner can be without room for another sample.
  function Reach(a: real, v: real, dt: real): (d: real)
    requires a > 0.0
  {
    Max((v + a * dt) * 10.0 * dt, (v + (v + a * dt)) * 0.5 * dt + StopDistance(a, v + a * dt))
  }

  lemma NotClear(a: real, v: real, dx: real, dt: real)
    requires a > 0.0 && v >= 0.0 && dt > 0.0 && !Clear(a, v, dx, dt)
    ensures dx <= Reach(a, v, dt)
  {
    hide StopDistance;
  }

  lemma {:induction false} FirstUnclear(a: real, dt: real, v: real, dx: real, n: nat, limit: Option<real>) returns (k: nat)
    requires a > 0.0 && dt > 0.0 && !ClearFor(a, dt, v, dx, n, limit)
    ensures k < n && ClearFor(a, dt, v, dx, k, limit)
    ensures var s := Move(a, dt, v, dx, k, limit); !Clear(a, s.0, s.1, dt)
  {
    hide Clear, Move;
    if ClearFor(a, dt, v, dx, n - 1, limit) {
      k := n - 1;
    } else {
      k := FirstUnclear(a, dt, v, dx, n - 1, limit);
    }
  }

  // After enough samples there is no room left.
  lemma RoomEnds(a: real, dt: real, dx: real, samples: nat, limit: Option<real>)
    requires a > 0.0 && dt > 0.0 && (limit.Some? ==> 0.0 < limit.value)
    requires dx <= Cruised(Slower(a * dt, limit), dt, samples)
    ensures !ClearFor(a, dt, 0.0, dx, samples + 2, limit)
  {
    hide Step, Clear, ClearFor, AtLeast, Cruised, Slower;
    if ClearFor(a, dt, 0.0, dx, samples + 2, limit) {
      var m := Step(a, 0.0, 0.0, dx, dt, limit);
      ClearAtStart(a, dt, 0.0, dx, samples + 2, limit);
      ClearStep(a, 0.0, dx, dt, limit);
      ClearForNext(a, dt, 0.0, dx, samples + 2, limit);
      StillSpeeding(a, dt, 0.0, limit);
      MovesOn(m.travel, m.velocity, dt);
      ClearLess(a, dt, m.velocity, dx - m.travel, samples + 1, limit);
      SpeedsUp(a, dt, m.velocity, dx - m.travel, samples, limit);
      SpeedBound(a, dt, m.velocity, samples, limit);
      var s := Move(a, dt, m.velocity, dx - m.travel, samples, limit);
      ClearAccelerates(a, s.0, s.1, dt, limit);
    }
  }

  lemma MovesOn(travel: real, v1: real, dt: real)
    requires dt > 0.0 && v1 >= 0.0 && AtLeast(travel, 0.0, v1, dt)
    ensures travel >= 0.0
  {
    Product(0.5 * v1, dt);
  }

  lemma ClearLess(a: real, dt: real, v: real, dx: real, n: nat, limit: Option<real>)
    requires a > 0.0 && dt > 0.0 && n > 0 && ClearFor(a, dt, v, dx, n, limit)
    ensures ClearFor(a, dt, v, dx, n - 1, limit)
    ensures var s := Move(a, dt, v, dx, n - 1, limit); Clear(a, s.0, s.1, dt)
  {
    hide Clear, Move;
    assert ClearAt(a, dt, v, dx, n - 1, limit);
  }

  lemma SpeedBound(a: real, dt: real, v: real, n: nat, limit: Option<real>)
    requires a > 0.0 && dt > 0.0 && v >= 0.0 && (limit.Some? ==> 0.0 < limit.value && v <= limit.value)
    ensures SpeedAfter(a, dt, v, n, limit) >= v && (limit.Some? ==> SpeedAfter(a, dt, v, n, limit) <= limit.value)
  {
    var k := Positive(a, dt);
    Product(n as real, k);
  }

  // A move from rest comes near its target: within as many samples as its
  // first speed needs for the whole way, and one more, the planner is at full
  // speed for the time passed and no farther from the target than that speed's
  // reach.
  lemma ComesNear(a: real, dt: real, dx: real, samples: nat, limit: Option<real>) returns (n: nat)
    requires a > 0.0 && dt > 0.0 && (limit.Some? ==> 0.0 < limit.value)
    requires dx <= Cruised(Slower(a * dt, limit), dt, samples)
    ensures n <= samples + 1 && ClearFor(a, dt, 0.0, dx, n, limit)
    ensures var s := Move(a, dt, 0.0, dx, n, limit);
      s.0 == SpeedAfter(a, dt, 0.0, n, limit) && s.1 <= Reach(a, s.0, dt)
  {
    hide Clear, ClearFor, Move, SpeedAfter, Cruised, Reach;
    RoomEnds(a, dt, dx, samples, limit);
    n := FirstUnclear(a, dt, 0.0, dx, samples + 2, limit);
    SpeedsUp(a, dt, 0.0, dx, n, limit);
    SpeedBound(a, dt, 0.0, n, limit);
    var s := Move(a, dt, 0.0, dx, n, limit);
    NotClear(a, s.0, s.1, dt);
  }

  // A move the other way is the mirror image, as long as there is a way to go.
  lemma {:induction false} MoveMirrored(a: real, dt: real, v: real, dx: real, n: nat, limit: Option<real>)
    requires a > 0.0 && dt > 0.0 && v >= 0.0 && ClearFor(a, dt, v, dx, n, limit)
    requires limit.Some? ==> 0.0 < limit.value && v <= limit.value
    ensures var s := Move(a, dt, v, dx, n, limit); Move(a, dt, -v, -dx, n, limit) == (-s.0, -s.1)
    decreases n
  {
    hide Step, Clear, ClearFor, Slower, AtLeast;
    if n > 0 {
      var m := Step(a, v, 0.0, dx, dt, limit);
      ClearAtStart(a, dt, v, dx, n, limit);
      ClearAccelerates(a, v, dx, dt, limit);
      ClearStep(a, v, dx, dt, limit);
      ClearForNext(a, dt, v, dx, n, limit);
      StillSpeeding(a, dt, v, limit);
      StepMirrored(a, v, 0.0, dx, dt, limit);
      MoveMirrored(a, dt, m.velocity, dx - m.travel, n - 1, limit);
      assert -(dx - m.travel) == -dx - (-m.travel);
    }
  }

  // ---- Moving targets ------------------------------------------------------------------

  // Seen from a target that moves at `vf`, a sample without a velocity limit is
  // the sample of a target at rest.
  lemma FrameShift(a: real, v: real, vf: real, dx: real, dt: real)
    requires a > 0.0 && dt > 0.0 && !Step(a, v, vf, dx, dt, None).done
    ensures var m, r := Step(a, v, vf, dx, dt, None), Step(a, v - vf, 0.0, dx, dt, None);
      !r.done && m.velocity - vf == r.velocity && m.accel == r.accel && m.travel - vf * dt == r.travel
  {
    hide Acceleration, Arrives, Travel;
    var r := Acceleration(a, v, vf, dx, dt, None);
    SameAcceleration(a, v, vf, dx, dt);
    var v1 := v + r * dt;
    assert Free(a, v, vf, dx, dt, None) == v1 && Free(a, v - vf, 0.0, dx, dt, None) == v1 - vf;
    ArrivesShifted(a, v, v1, vf, dx, dt);
    TravelShifted(v, v1, vf, r, dt);
  }

  lemma SameAcceleration(a: real, v: real, vf: real, dx: real, dt: real)
    requires a > 0.0 && dt > 0.0
    ensures Acceleration(a, v, vf, dx, dt, None) == Acceleration(a, v - vf, 0.0, dx, dt, None)
  {
    assert v - vf - 0.0 == v - vf;
  }

  // Velocity and distance left after `n` samples behind a target that moves on
  // by `vf dt` a sample.
  function Chase(a: real, dt: real, v: real, vf: real, dx: real, n: nat, limit: Option<real>): (r: (real, real))
    requires a > 0.0 && dt > 0.0
    decreases n
  {
    if n == 0 then (v, dx) else
    var m := Step(a, v, vf, dx, dt, limit);
    var left := dx + vf * dt - m.travel;
    if m.done then (m.velocity, left) else Chase(a, dt, m.velocity, vf, left, n - 1, limit)
  }

  lemma {:induction false} ChaseSettles(a: real, dt: real, v: real, vf: real, dx: real, n: nat, from: real,
                                        limit: Option<real>)
    requires a > 0.0 && dt > 0.0 && Settles(a, dt, v - vf, dx) && Between(a, dt, from, dx) && InLimit(v, vf, limit)
    requires limit.Some? ==> a * dt <= 2.0 * limit.value
    ensures Between(a, dt, from, Chase(a, dt, v, vf, dx, n, limit).1)
    decreases n
  {
    hide Settles, Between, Step;
    if n > 0 {
      var m := Step(a, v, vf, dx, dt, limit);
      KeepsChasing(a, dt, v, vf, dx, from, limit);
      if limit.Some? {
        VelocityBound(a, v, vf, dx, dt, limit);
      }
      if !m.done {
        ChaseSettles(a, dt, m.velocity, vf, dx + vf * dt - m.travel, n - 1, from, limit);
      }
    }
  }

  // A target that moves at `vf`, met from its own speed: it is never passed by
  // more than full acceleration covers in one sample.
  lemma ChaseNeverOvershoots(a: real, dt: real, vf: real, dx: real, n: nat, limit: Option<real>)
    requires a > 0.0 && dt > 0.0 && (limit.Some? ==> Abs(vf) <= limit.value && a * dt <= 2.0 * limit.value)
    ensures var left := Chase(a, dt, vf, vf, dx, n, limit).1;
      if dx >= 0.0 then -(0.5 * a * dt * dt) <= left else left <= 0.5 * a * dt * dt
  {
    hide Chase;
    var k := Positive(a, dt);
    Product(k, k);
    ChaseSettles(a, dt, vf, vf, dx, n, dx, limit);
    OverBy(a, dt, dx, Chase(a, dt, vf, vf, dx, n, limit).1);
  }
}
