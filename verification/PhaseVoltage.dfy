// Field-oriented voltage output: circle limit, inverse Park, centred PWM and
// the timer duties. `r` stands for the square root of three, `s` and `c` for
// the sine and cosine of the electrical angle.
module PhaseVoltage {
  import opened Octets
  import opened Reals

  predicate IsRoot(root: real, x: real)
  {
    root >= 0.0 && root * root == x
  }

  datatype Angle = Angle(s: real, c: real, r: real) {
    predicate Ok() {
      s * s + c * c == 1.0 && IsRoot(r, 3.0)
    }
  }

  datatype Phases = Phases(a: real, b: real, c: real)

  // ---- Transforms ---------------------------------------------------------------

  function InverseDq(t: Angle, d: real, q: real): (p: Phases)
  {
    var h := t.r / 2.0;
    Phases(t.c * d - t.s * q,
           (h * t.s - 0.5 * t.c) * d - (-h * t.c - 0.5 * t.s) * q,
           (-h * t.s - 0.5 * t.c) * d - (h * t.c - 0.5 * t.s) * q)
  }

  function DqD(t: Angle, p: Phases): (d: real)
  {
    var h := t.r / 2.0;
    2.0 / 3.0 * (p.a * t.c + (h * t.s - 0.5 * t.c) * p.b + (-h * t.s - 0.5 * t.c) * p.c)
  }

  function DqQ(t: Angle, p: Phases): (q: real)
  {
    var h := t.r / 2.0;
    2.0 / 3.0 * (-t.s * p.a - (-h * t.c - 0.5 * t.s) * p.b - (h * t.c - 0.5 * t.s) * p.c)
  }

  // The products of sine, cosine and root three the transforms are made of.
  lemma Products(t: Angle) returns (ss: real, cc: real, sc: real, hh: real)
    requires t.Ok()
    ensures ss == t.s * t.s && cc == t.c * t.c && sc == t.s * t.c && hh == (t.r / 2.0) * (t.r / 2.0)
    ensures ss + cc == 1.0 && hh == 0.75
  {
    ss, cc, sc, hh := t.s * t.s, t.c * t.c, t.s * t.c, (t.r / 2.0) * (t.r / 2.0);
    assert hh == t.r * t.r / 4.0;
  }

  // The transforms are inverse to each other for every angle, and blind to a
  // voltage common to the three phases.
  lemma DqRecovered(t: Angle, d: real, q: real, common: real)
    requires t.Ok()
    ensures var p := InverseDq(t, d, q); var shifted := Phases(p.a + common, p.b + common, p.c + common);
      DqD(t, shifted) == d && DqQ(t, shifted) == q && p.a + p.b + p.c == 0.0
  {
    var ss, cc, sc, hh := Products(t);
    var h := t.r / 2.0;
    var x, y := h * t.s, h * t.c;
    assert x * x == hh * ss && y * y == hh * cc && x * y == hh * sc;
  }

  lemma CauchySchwarz(x: real, y: real, d: real, q: real, len2: real)
    requires x * x + y * y == 3.0 && d * d + q * q <= len2
    ensures (x * d + y * q) * (x * d + y * q) <= 3.0 * len2
  {
    var dot, cross := x * d + y * q, x * q - y * d;
    assert dot * dot + cross * cross == (x * x + y * y) * (d * d + q * q);
    assert cross * cross >= 0.0;
  }

  // The three phase-to-phase voltages as projections of the voltage vector.
  lemma Projections(t: Angle, d: real, q: real) returns (y0: real, y1: real, y2: real, x0: real, x1: real, x2: real)
    requires t.Ok()
    ensures x0 * x0 + y0 * y0 == 3.0 && x1 * x1 + y1 * y1 == 3.0 && x2 * x2 + y2 * y2 == 3.0
    ensures var p := InverseDq(t, d, q);
      p.a - p.b == x0 * d + y0 * q && p.b - p.c == x1 * d + y1 * q && p.c - p.a == x2 * d + y2 * q
  {
    var ss, cc, sc, hh := Products(t);
    var h := t.r / 2.0;
    var x, y := h * t.s, h * t.c;
    x0, y0 := 1.5 * t.c - x, -1.5 * t.s - y;
    x1, y1 := 2.0 * x, 2.0 * y;
    x2, y2 := -x - 1.5 * t.c, 1.5 * t.s - y;
    assert x * x + y * y == hh * (ss + cc) && x * t.c == y * t.s;
  }

  // Phase-to-phase voltages never exceed root three times the vector's length.
  lemma LineToLine(t: Angle, d: real, q: real, len2: real)
    requires t.Ok() && d * d + q * q <= len2
    ensures var p := InverseDq(t, d, q);
      && (p.a - p.b) * (p.a - p.b) <= 3.0 * len2
      && (p.b - p.c) * (p.b - p.c) <= 3.0 * len2
      && (p.c - p.a) * (p.c - p.a) <= 3.0 * len2
  {
    hide InverseDq;
    var y0, y1, y2, x0, x1, x2 := Projections(t, d, q);
    CauchySchwarz(x0, y0, d, q, len2);
    CauchySchwarz(x1, y1, d, q, len2);
    CauchySchwarz(x2, y2, d, q, len2);
  }

  // ---- The voltage limit ----------------------------------------------------------

  function MaxVoltage(minDuty: real, bus: real, r: real): (v: real)
    requires r > 0.0
  {
    (0.5 - minDuty) * bus * (2.0 / r)
  }

  // `q` cut to the square root of `room`.
  ghost predicate CutToRoot(q: real, q': real, room: real)
  {
    exists root :: IsRoot(root, room) && q' == Limit(q, -root, root)
  }

  function Remaining(maxV: real, d: real): (room: real)
  {
    maxV * maxV - d * d
  }

  // The limit both controllers promise: d is cut to the circle first, q to
  // what d leaves of it.
  ghost predicate Limited(maxV: real, d: real, q: real, d': real, q': real)
  {
    d' == Limit(d, -maxV, maxV) && CutToRoot(q, q', Remaining(maxV, d'))
  }

  lemma RootUnique(x: real, a: real, b: real)
    requires IsRoot(a, x) && IsRoot(b, x)
    ensures a == b
  {
    SquareOrder(a, b);
    SquareOrder(b, a);
  }

  lemma CutMeans(q: real, q': real, room: real)
    requires CutToRoot(q, q', room)
    ensures room >= 0.0 && q' * q' <= room
    ensures q * q <= room ==> q' == q
    ensures q' == q || q' * q' == room
    ensures forall q'' :: CutToRoot(q, q'', room) ==> q'' == q'
  {
    var root :| IsRoot(root, room) && q' == Limit(q, -root, root);
    SquareOrder(q, root);
    SquareOrder(q', root);
    assert (-root) * (-root) == root * root >= 0.0;
    forall q'' | CutToRoot(q, q'', room)
      ensures q'' == q'
    {
      var other :| IsRoot(other, room) && q'' == Limit(q, -other, other);
      RootUnique(room, root, other);
    }
  }

  // The limit is one function, keeps a vector inside the circle, leaves one
  // already there alone, and otherwise reaches the circle or keeps q.
  lemma LimitedMeans(maxV: real, d: real, q: real, d': real, q': real)
    requires maxV >= 0.0 && Limited(maxV, d, q, d', q')
    ensures d' * d' + q' * q' <= maxV * maxV
    ensures d * d + q * q <= maxV * maxV ==> d' == d && q' == q
    ensures q' == q || d' * d' + q' * q' == maxV * maxV
    ensures forall d'', q'' :: Limited(maxV, d, q, d'', q'') ==> d'' == d' && q'' == q'
  {
    hide CutToRoot;
    CutMeans(q, q', Remaining(maxV, d'));
    SquareOrder(d, maxV);
    assert q * q >= 0.0;
  }

  // ---- Centred PWM ----------------------------------------------------------------

  function Min3(p: Phases): (m: real)
    ensures m <= p.a && m <= p.b && m <= p.c && (m == p.a || m == p.b || m == p.c)
  {
    if p.a < p.b then (if p.a < p.c then p.a else p.c) else if p.b < p.c then p.b else p.c
  }

  function Max3(p: Phases): (m: real)
    ensures m >= p.a && m >= p.b && m >= p.c && (m == p.a || m == p.b || m == p.c)
  {
    if p.a > p.b then (if p.a > p.c then p.a else p.c) else if p.b > p.c then p.b else p.c
  }

  function Scale(p: Phases, k: real): (r: Phases)
  {
    Phases(p.a * k, p.b * k, p.c * k)
  }

  function Shift(p: Phases, k: real): (r: Phases)
  {
    Phases(p.a - k, p.b - k, p.c - k)
  }

  predicate InRange(p: Phases, lo: real, hi: real)
  {
    lo <= p.a <= hi && lo <= p.b <= hi && lo <= p.c <= hi
  }

  // The duties before clamping: voltages over the bus, centred on one half.
  function Centred(v: Phases, bus: real): (p: Phases)
    requires bus > 0.0
  {
    var p := Scale(v, 1.0 / bus);
    Shift(p, 0.5 * (Min3(p) + Max3(p)) - 0.5)
  }

  method FromPhaseVolts(v: Phases, bus: real, minDuty: real, maxDuty: real) returns (out: Option<Phases>)
    ensures out.Some? <==> bus > 0.001
    ensures out.Some? && minDuty <= maxDuty ==> InRange(out.value, minDuty, maxDuty)
    ensures out.Some? ==> var p := Centred(v, bus);
      out.value == Phases(Limit(p.a, minDuty, maxDuty), Limit(p.b, minDuty, maxDuty), Limit(p.c, minDuty, maxDuty))
    ensures out.Some? && InRange(Centred(v, bus), minDuty, maxDuty) ==> out.value == Centred(v, bus)
  {
    if bus <= 0.001 {
      return None;
    }
    var inverse := 1.0 / bus;
    var p := Phases(v.a * inverse, v.b * inverse, v.c * inverse);
    assert p == Scale(v, 1.0 / bus);
    var centred := Centre(p);
    hide Centred, Scale, Shift;
    return Some(Phases(Limit(centred.a, minDuty, maxDuty), Limit(centred.b, minDuty, maxDuty),
                       Limit(centred.c, minDuty, maxDuty)));
  }

  method Centre(p: Phases) returns (r: Phases)
    ensures r == Shift(p, 0.5 * (Min3(p) + Max3(p)) - 0.5)
  {
    var pmin := if p.a < p.b then (if p.a < p.c then p.a else p.c) else if p.b < p.c then p.b else p.c;
    var pmax := if p.a > p.b then (if p.a > p.c then p.a else p.c) else if p.b > p.c then p.b else p.c;
    var offset := 0.5 * (pmin + pmax) - 0.5;
    return Phases(p.a - offset, p.b - offset, p.c - offset);
  }

  // Centring always balances: the smallest and the largest duty add up to one.
  lemma CentredBalances(v: Phases, bus: real)
    requires bus > 0.0
    ensures var p := Centred(v, bus);
      && Min3(p) + Max3(p) == 1.0
      && (p.a - p.b) * bus == v.a - v.b && (p.b - p.c) * bus == v.b - v.c && (p.c - p.a) * bus == v.c - v.a
  {
    var inverse := 1.0 / bus;
    assert inverse * bus == 1.0;
    assert (v.a * inverse - v.b * inverse) * bus == (v.a - v.b) * (inverse * bus);
    assert (v.b * inverse - v.c * inverse) * bus == (v.b - v.c) * (inverse * bus);
    assert (v.c * inverse - v.a * inverse) * bus == (v.c - v.a) * (inverse * bus);
  }

  lemma MaxVoltageSquared(minDuty: real, bus: real, r: real) returns (spread: real)
    requires IsRoot(r, 3.0) && r > 0.0 && bus > 0.0 && minDuty < 0.5
    ensures spread == (1.0 - 2.0 * minDuty) * bus && spread > 0.0 && MaxVoltage(minDuty, bus, r) > 0.0
    ensures 3.0 * (MaxVoltage(minDuty, bus, r) * MaxVoltage(minDuty, bus, r)) == spread * spread
  {
    var k, inverse := (0.5 - minDuty) * bus, 2.0 / r;
    assert k > 0.0 && inverse > 0.0 && inverse * r == 2.0;
    spread := 2.0 * k;
    var m := k * inverse;
    assert m > 0.0;
    assert m * r == k * (inverse * r);
    assert (m * r) * (m * r) == m * m * (r * r);
  }

  // Within the limit, the linear range: no duty reaches its clamp.
  lemma LinearRange(t: Angle, d: real, q: real, bus: real, minDuty: real)
    requires t.Ok() && t.r > 0.0 && bus > 0.0 && 0.0 <= minDuty < 0.5
    requires d * d + q * q <= MaxVoltage(minDuty, bus, t.r) * MaxVoltage(minDuty, bus, t.r)
    ensures InRange(Centred(InverseDq(t, d, q), bus), minDuty, 1.0 - minDuty)
  {
    hide InverseDq, MaxVoltage;
    var v := InverseDq(t, d, q);
    var spread := MaxVoltageSquared(minDuty, bus, t.r);
    LineToLine(t, d, q, MaxVoltage(minDuty, bus, t.r) * MaxVoltage(minDuty, bus, t.r));
    SquareOrder(v.a - v.b, spread);
    SquareOrder(v.b - v.c, spread);
    SquareOrder(v.c - v.a, spread);
    SpreadFits(v, bus, minDuty, spread);
  }

  lemma SpreadFits(v: Phases, bus: real, minDuty: real, spread: real)
    requires bus > 0.0 && spread == (1.0 - 2.0 * minDuty) * bus
    requires -spread <= v.a - v.b <= spread && -spread <= v.b - v.c <= spread && -spread <= v.c - v.a <= spread
    ensures InRange(Centred(v, bus), minDuty, 1.0 - minDuty)
  {
    hide Centred;
    CentredBalances(v, bus);
    var p, width := Centred(v, bus), 1.0 - 2.0 * minDuty;
    Divides(p.a - p.b, width, bus, v.a - v.b, spread);
    Divides(p.b - p.c, width, bus, v.b - v.c, spread);
    Divides(p.c - p.a, width, bus, v.c - v.a, spread);
  }

  lemma Divides(x: real, width: real, bus: real, y: real, spread: real)
    requires bus > 0.0 && x * bus == y && width * bus == spread && -spread <= y <= spread
    ensures -width <= x <= width
  {
    Cancel(x, width, bus);
    assert (-width) * bus == -spread;
    Cancel(-width, x, bus);
  }

  // What the motor sees: the duties times the bus voltage transform back to
  // the very voltages asked for.
  lemma DutiesCarryVoltage(t: Angle, d: real, q: real, bus: real)
    requires t.Ok() && bus > 0.0
    ensures var p := Scale(Centred(InverseDq(t, d, q), bus), bus); DqD(t, p) == d && DqQ(t, p) == q
  {
    var v := InverseDq(t, d, q);
    var p := Scale(Centred(v, bus), bus);
    var common := p.a - v.a;
    CommonMode(v, bus);
    DqRecovered(t, d, q, common);
    assert p == Phases(v.a + common, v.b + common, v.c + common);
  }

  lemma CommonMode(v: Phases, bus: real)
    requires bus > 0.0
    ensures var p := Scale(Centred(v, bus), bus); p.b == v.b + (p.a - v.a) && p.c == v.c + (p.a - v.a)
  {
    hide Centred;
    CentredBalances(v, bus);
  }
}
