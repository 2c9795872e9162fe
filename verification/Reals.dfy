// Exact-real counterparts of the scalar helpers of fw/math.
module Reals {
  const PI: real := 3.141592653589793
  const TWO_PI: real := 6.283185307179586

  function Abs(x: real): (r: real)
    ensures r >= 0.0 && (r == x || r == -x)
  {
    if x >= 0.0 then x else -x
  }

  function Max(x: real, y: real): (r: real)
    ensures r >= x && r >= y && (r == x || r == y)
  {
    if x < y then y else x
  }

  function Limit(x: real, lo: real, hi: real): (r: real)
    ensures lo <= hi ==> lo <= r <= hi
    ensures lo <= x <= hi ==> r == x
  {
    if x < lo then lo else if x > hi then hi else x
  }

  // `static_cast<int>` of a real number.
  function Truncate(x: real): (n: int)
    ensures x >= 0.0 ==> n as real <= x < n as real + 1.0
    ensures x <= 0.0 ==> n as real - 1.0 < x <= n as real
  {
    if x >= 0.0 then x.Floor else -((-x).Floor)
  }

  lemma Product(x: real, y: real)
    requires x >= 0.0 && y >= 0.0
    ensures x * y >= 0.0
  {
  }

  lemma Positive(x: real, y: real) returns (p: real)
    requires x > 0.0 && y > 0.0
    ensures p == x * y && p > 0.0
  {
    p := x * y;
  }

  lemma Cancel(x: real, y: real, z: real)
    requires z > 0.0 && x * z <= y * z
    ensures x <= y
  {
    if x > y {
      Product(x - y, z);
    }
  }

  lemma SquareOrder(x: real, y: real)
    requires y >= 0.0
    ensures x * x <= y * y <==> -y <= x <= y
  {
    if x > y {
      var _ := Positive(x - y, x + y);
    } else if x < -y {
      var _ := Positive(-x - y, y - x);
    } else {
      Product(y - x, y + x);
    }
  }
}
