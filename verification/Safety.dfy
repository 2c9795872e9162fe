// Protection: peak overcurrent, I2t, bus voltage and transistor temperature.
module Safety {
  import opened Reals

  datatype Trip = NoTrip | CurrentSenseInvalid | PeakOvercurrent | I2t | BusUndervoltage | BusOvervoltage | FetOvertemperature

  datatype Config = Config(overcurrent: real, overcurrentCount: nat, rated: real, tau: real,
                           busMin: real, busMax: real, fetFault: real)
  {
    // The count has eight bits.
    predicate Ok() {
      overcurrentCount < 256
    }
  }

  datatype Input = Input(currentOk: bool, i1: real, i2: real, i3: real,
                         busOk: bool, bus: real, fetOk: bool, fetTemp: real, dt: real)

  function Largest(input: Input): (i: real)
  {
    Max(Max(Abs(input.i1), Abs(input.i2)), Abs(input.i3))
  }

  predicate Over(c: Config, input: Input)
  {
    c.overcurrent > 0.0 && Largest(input) > c.overcurrent
  }

  // ---- Runs and windows --------------------------------------------------------------

  // How many of the last samples in a row were over the threshold.
  function RunLength(c: Config, s: seq<Input>): (n: nat)
    ensures n <= |s|
  {
    if s == [] || !Over(c, s[|s| - 1]) then 0 else 1 + RunLength(c, s[..|s| - 1])
  }

  lemma {:induction false} RunLengthMeans(c: Config, s: seq<Input>, n: nat)
    requires n <= |s|
    ensures n <= RunLength(c, s) <==> forall i :: |s| - n <= i < |s| ==> Over(c, s[i])
  {
    if s != [] && n > 0 {
      var k := |s| - 1;
      if Over(c, s[k]) {
        RunLengthMeans(c, s[..k], n - 1);
      }
    }
  }

  // Heat added by each sample, over what the rated current carries off.
  function HeatOf(c: Config, i: real, dt: real): (x: real)
  {
    if dt > 0.0 then (i * i - c.rated * c.rated) * dt else 0.0
  }

  function Heat(c: Config, input: Input): (x: real)
  {
    HeatOf(c, Largest(input), input.dt)
  }

  function Sum(xs: seq<real>): (x: real)
  {
    if xs == [] then 0.0 else Sum(xs[..|xs| - 1]) + xs[|xs| - 1]
  }

  // The stored energy: leaky at zero.
  function Energy(xs: seq<real>): (e: real)
    ensures e >= 0.0
  {
    if xs == [] then 0.0 else Max(0.0, Energy(xs[..|xs| - 1]) + xs[|xs| - 1])
  }

  // It is the most heat of any window that ends now, the empty one included.
  lemma {:induction false} EnergyIsMaximum(xs: seq<real>)
    ensures forall k :: 0 <= k <= |xs| ==> Sum(xs[k..]) <= Energy(xs)
    ensures exists k :: 0 <= k <= |xs| && Sum(xs[k..]) == Energy(xs)
  {
    var n := |xs| - 1;
    assert xs[|xs|..] == [];
    if xs != [] {
      EnergyIsMaximum(xs[..n]);
      forall k | 0 <= k < |xs|
        ensures Sum(xs[k..]) == Sum(xs[..n][k..]) + xs[n]
      {
        assert xs[k..][..|xs[k..]| - 1] == xs[..n][k..];
      }
      var k :| 0 <= k <= n && Sum(xs[..n][k..]) == Energy(xs[..n]);
      if Energy(xs[..n]) + xs[n] < 0.0 {
        assert Sum(xs[|xs|..]) == Energy(xs);
      } else {
        assert Sum(xs[k..]) == Energy(xs);
      }
    }
  }

  // So the limit is passed exactly when some window ending now passes it.
  lemma PassesLimit(xs: seq<real>, limit: real)
    requires limit >= 0.0
    ensures Energy(xs) > limit <==> exists k :: 0 <= k <= |xs| && Sum(xs[k..]) > limit
  {
    EnergyIsMaximum(xs);
  }

  function Heats(c: Config, s: seq<Input>): (xs: seq<real>)
    ensures |xs| == |s|
  {
    seq(|s|, i requires 0 <= i < |s| => Heat(c, s[i]))
  }

  // ---- The monitor --------------------------------------------------------------------

  predicate WatchesHeat(c: Config)
  {
    c.rated > 0.0 && c.tau > 0.0
  }

  function HeatLimit(c: Config): (e: real)
  {
    c.rated * c.rated * c.tau
  }

  lemma HeatLimitPositive(c: Config)
    ensures WatchesHeat(c) ==> HeatLimit(c) > 0.0
  {
    if WatchesHeat(c) {
      var square := Positive(c.rated, c.rated);
      var _ := Positive(square, c.tau);
    }
  }

  // What the samples since the reset call for now, the first reason first.
  ghost function Verdict(c: Config, s: seq<Input>): (t: Trip)
    requires s != []
  {
    var last := s[|s| - 1];
    if !last.currentOk then CurrentSenseInvalid
    else if Over(c, last) && RunLength(c, s) >= c.overcurrentCount then PeakOvercurrent
    else if WatchesHeat(c) && Energy(Heats(c, s)) > HeatLimit(c) then I2t
    else if last.busOk && last.bus < c.busMin then BusUndervoltage
    else if last.busOk && last.bus > c.busMax then BusOvervoltage
    else if last.fetOk && last.fetTemp > c.fetFault then FetOvertemperature
    else NoTrip
  }

  lemma NextSample(c: Config, s: seq<Input>, input: Input)
    ensures var now := s + [input]; var i := Largest(input);
      && now[|now| - 1] == input
      && (Over(c, input) <==> c.overcurrent > 0.0 && i > c.overcurrent)
      && RunLength(c, now) == (if Over(c, input) then RunLength(c, s) + 1 else 0)
      && Energy(Heats(c, now)) == Max(0.0, Energy(Heats(c, s)) + HeatOf(c, i, input.dt))
  {
    hide HeatOf, Largest;
    var now := s + [input];
    assert now[..|now| - 1] == s && now[|s|] == input;
    assert Heats(c, now)[..|s|] == Heats(c, s);
    assert Heats(c, now)[|s|] == Heat(c, input);
  }

  class SafetyMonitor {
    const config: Config
    var overcurrentCount: nat
    var energy: real
    var lastTrip: Trip

    // The state after samples that did not trip.
    ghost predicate Holds(s: seq<Input>)
      reads this
    {
      && config.Ok() && overcurrentCount == RunLength(config, s)
      && (overcurrentCount > 0 ==> overcurrentCount < config.overcurrentCount)
      && (WatchesHeat(config) ==> energy == Energy(Heats(config, s)) && energy <= HeatLimit(config))
    }

    constructor (config: Config)
      requires config.Ok()
      ensures Holds([]) && this.config == config
    {
      this.config := config;
      overcurrentCount, energy, lastTrip := 0, 0.0, NoTrip;
      HeatLimitPositive(config);
    }

    method Reset()
      requires config.Ok()
      modifies this
      ensures Holds([])
    {
      overcurrentCount, energy, lastTrip := 0, 0.0, NoTrip;
      HeatLimitPositive(config);
    }

    method PeakTripped(i: real) returns (tripped: bool)
      requires config.Ok() && (overcurrentCount > 0 ==> overcurrentCount < config.overcurrentCount)
      modifies this`overcurrentCount
      ensures var over := config.overcurrent > 0.0 && i > config.overcurrent;
        && overcurrentCount == (if over then old(overcurrentCount) + 1 else 0)
        && tripped == (over && overcurrentCount >= config.overcurrentCount)
    {
      tripped := false;
      if config.overcurrent > 0.0 && i > config.overcurrent {
        overcurrentCount := (overcurrentCount + 1) % 256;
        tripped := overcurrentCount >= config.overcurrentCount;
      } else {
        overcurrentCount := 0;
      }
    }

    method HeatTripped(i: real, dt: real) returns (tripped: bool)
      requires WatchesHeat(config) ==> 0.0 <= energy <= HeatLimit(config)
      modifies this`energy
      ensures WatchesHeat(config) ==> energy == Max(0.0, old(energy) + HeatOf(config, i, dt))
      ensures tripped == (WatchesHeat(config) && energy > HeatLimit(config))
    {
      tripped := false;
      if config.rated > 0.0 && config.tau > 0.0 && dt > 0.0 {
        var rated2 := config.rated * config.rated;
        var added := (i * i - rated2) * dt;
        assert added == HeatOf(config, i, dt);
        energy := energy + added;
        if energy < 0.0 {
          energy := 0.0;
        }
        var limit := rated2 * config.tau;
        assert limit == HeatLimit(config);
        tripped := energy > limit;
      }
    }

    method SupplyTrip(input: Input) returns (t: Trip)
      ensures t == if input.busOk && input.bus < config.busMin then BusUndervoltage
                   else if input.busOk && input.bus > config.busMax then BusOvervoltage
                   else if input.fetOk && input.fetTemp > config.fetFault then FetOvertemperature
                   else NoTrip
    {
      if input.busOk {
        if input.bus < config.busMin {
          return BusUndervoltage;
        }
        if input.bus > config.busMax {
          return BusOvervoltage;
        }
      }
      if input.fetOk && input.fetTemp > config.fetFault {
        return FetOvertemperature;
      }
      t := NoTrip;
    }

    // One sample, after samples that did not trip.
    method Evaluate(input: Input, ghost s: seq<Input>) returns (t: Trip)
      requires Holds(s)
      modifies this
      ensures t == Verdict(config, s + [input]) == lastTrip
      ensures t == NoTrip ==> Holds(s + [input])
    {
      hide Heat, HeatOf, HeatLimit, Largest;
      ghost var now := s + [input];
      NextSample(config, s, input);
      hide Over, RunLength, Energy, Heats;
      t := CurrentSenseInvalid;
      if input.currentOk {
        var i := LargestOf(input);
        var peak := PeakTripped(i);
        if peak {
          t := PeakOvercurrent;
        } else {
          var hot := HeatTripped(i, input.dt);
          if hot {
            t := I2t;
          } else {
            t := SupplyTrip(input);
          }
        }
      }
      lastTrip := t;
    }

    static method LargestOf(input: Input) returns (i: real)
      ensures i == Largest(input)
    {
      var ia, ib, ic := Abs(input.i1), Abs(input.i2), Abs(input.i3);
      i := ia;
      if ib > i { i := ib; }
      if ic > i { i := ic; }
    }

    // A whole session: the trip is the first sample's whose verdict is one,
    // and without a trip no sample called for one.
    method Watch(s: seq<Input>) returns (t: Trip, at: nat)
      requires config.Ok()
      modifies this
      ensures at <= |s| && forall i :: 0 < i <= at && (i < at || t == NoTrip) ==> Verdict(config, s[..i]) == NoTrip
      ensures t == NoTrip ==> at == |s|
      ensures t != NoTrip ==> at > 0 && t == Verdict(config, s[..at])
    {
      Reset();
      t, at := NoTrip, 0;
      while at < |s|
        invariant at <= |s| && t == NoTrip && Holds(s[..at])
        invariant forall i :: 0 < i <= at ==> Verdict(config, s[..i]) == NoTrip
      {
        assert s[..at] + [s[at]] == s[..at + 1];
        t := Evaluate(s[at], s[..at]);
        at := at + 1;
        if t != NoTrip {
          return;
        }
      }
    }
  }

  // Peak overcurrent trips exactly when the last sample is trusted and the
  // last N samples are there and over the threshold.
  lemma PeakIsFirstRun(c: Config, s: seq<Input>)
    requires c.overcurrentCount > 0 && s != []
    ensures Verdict(c, s) == PeakOvercurrent <==>
      && s[|s| - 1].currentOk && |s| >= c.overcurrentCount
      && forall i :: |s| - c.overcurrentCount <= i < |s| ==> Over(c, s[i])
  {
    if |s| >= c.overcurrentCount {
      RunLengthMeans(c, s, c.overcurrentCount);
    }
  }

  // Each of the three phases can trip by itself.
  lemma OverByAnyPhase(c: Config, input: Input)
    requires c.overcurrent > 0.0
    ensures Over(c, input) <==>
      Abs(input.i1) > c.overcurrent || Abs(input.i2) > c.overcurrent || Abs(input.i3) > c.overcurrent
  {
  }

  function Repeated(input: Input, n: nat): (s: seq<Input>)
  {
    seq(n, _ => input)
  }

  lemma {:induction false} RepeatedHeat(c: Config, input: Input, n: nat)
    requires Heat(c, input) >= 0.0
    ensures Energy(Heats(c, Repeated(input, n))) == n as real * Heat(c, input)
  {
    hide HeatOf, Largest, Heat;
    var xs := Heats(c, Repeated(input, n));
    if n > 0 {
      RepeatedHeat(c, input, n - 1);
      assert xs[..n - 1] == Heats(c, Repeated(input, n - 1)) && xs[n - 1] == Heat(c, input);
      assert n as real * Heat(c, input) == (n - 1) as real * Heat(c, input) + Heat(c, input);
    }
  }

  lemma PastLimit(n: nat, dt: real, excess: real, limit: real)
    requires excess > 0.0
    ensures n as real * (excess * dt) > limit <==> n as real * dt > limit / excess
  {
    var t := n as real * dt;
    assert n as real * (excess * dt) == t * excess;
    assert limit == limit / excess * excess;
    if t > limit / excess {
      MulLess(limit / excess, t, excess);
    } else {
      MulAtMost(t, limit / excess, excess);
    }
  }

  lemma MulLess(a: real, b: real, k: real)
    requires a < b && k > 0.0
    ensures a * k < b * k
  {
  }

  lemma MulAtMost(a: real, b: real, k: real)
    requires a <= b && k > 0.0
    ensures a * k <= b * k
  {
  }

  lemma ExcessHeat(c: Config, input: Input, excess: real)
    requires input.dt > 0.0 && excess == Largest(input) * Largest(input) - c.rated * c.rated && excess > 0.0
    ensures Heat(c, input) == excess * input.dt > 0.0
  {
    hide Largest;
    var _ := Positive(excess, input.dt);
  }

  // A constant current above the rated one trips I2t at the first sample that
  // ends later than tau * rated^2 / (i^2 - rated^2) after the reset.
  lemma SteadyOverload(c: Config, input: Input, n: nat, excess: real)
    requires WatchesHeat(c) && n > 0 && input.currentOk && input.dt > 0.0 && !Over(c, input)
    requires excess == Largest(input) * Largest(input) - c.rated * c.rated && excess > 0.0
    ensures Verdict(c, Repeated(input, n)) == I2t <==> n as real * input.dt > HeatLimit(c) / excess
  {
    ExcessHeat(c, input, excess);
    hide Heat, HeatLimit, Largest, Over, RunLength, Energy, Heats;
    RepeatedHeat(c, input, n);
    PastLimit(n, input.dt, excess, HeatLimit(c));
    assert Repeated(input, n)[n - 1] == input;
  }

  // A current above the rated one is such an overload.
  lemma AboveRated(c: Config, input: Input)
    requires c.rated > 0.0
    ensures Largest(input) > c.rated <==> Largest(input) * Largest(input) - c.rated * c.rated > 0.0
  {
    SquareOrder(Largest(input), c.rated);
  }
}
