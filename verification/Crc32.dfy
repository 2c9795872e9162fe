// The bitwise CRC-32 both stores put behind their records: reflected
// polynomial 0xEDB88320, as in section 8 of RFC 1952. A 32-bit register is its
// bits, least significant first.
module Crc32 {
  import opened Octets

  type Register = c: seq<bool> | |c| == 32
    witness [false, false, false, false, false, false, false, false,
             false, false, false, false, false, false, false, false,
             false, false, false, false, false, false, false, false,
             false, false, false, false, false, false, false, false]

  const POLYNOMIAL: nat := 0xEDB8_8320

  // The `n` low bits of a number, least significant first.
  function LowBits(v: nat, n: nat): (r: seq<bool>)
    ensures |r| == n
    decreases n
  {
    if n == 0 then [] else [v % 2 == 1] + LowBits(v / 2, n - 1)
  }

  function Pow2(n: nat): (r: nat)
    ensures r > 0
  {
    if n == 0 then 1 else 2 * Pow2(n - 1)
  }

  lemma {:induction false} LowBitsInjective(a: nat, b: nat, n: nat)
    requires a < Pow2(n) && b < Pow2(n) && LowBits(a, n) == LowBits(b, n)
    ensures a == b
    decreases n
  {
    if n > 0 {
      assert LowBits(a, n)[0] == LowBits(b, n)[0];
      assert LowBits(a / 2, n - 1) == LowBits(a, n)[1..] == LowBits(b / 2, n - 1);
      LowBitsInjective(a / 2, b / 2, n - 1);
    }
  }

  lemma {:induction false} TopBit(v: nat, n: nat)
    requires 0 < n && Pow2(n - 1) <= v < Pow2(n)
    ensures LowBits(v, n)[n - 1]
    decreases n
  {
    if n > 1 {
      TopBit(v / 2, n - 1);
    }
  }

  // The polynomial's ones; its top bit is one.
  function Polynomial(): (r: Register)
  {
    LowBits(POLYNOMIAL, 32)
  }

  lemma PolynomialTop()
    ensures Polynomial()[31]
  {
    assert Pow2(31) == 0x8000_0000 by {
      assert Pow2(8) == 256 && Pow2(16) == 65536 && Pow2(24) == 0x100_0000;
    }
    TopBit(POLYNOMIAL, 32);
  }

  // One bit: `(c >> 1) ^ (0xEDB88320 & -(c & 1))`.
  function Shift(c: Register): (r: Register)
  {
    seq(32, i requires 0 <= i < 32 => (i < 31 && c[i + 1]) != (c[0] && Polynomial()[i]))
  }

  function Xor(a: seq<bool>, b: seq<bool>): (r: seq<bool>)
    requires |a| == |b|
    ensures |r| == |a|
  {
    seq(|a|, i requires 0 <= i < |a| => a[i] != b[i])
  }

  function Zeros(n: nat): (r: seq<bool>)
    ensures |r| == n && forall i :: 0 <= i < n ==> !r[i]
  {
    seq(n, _ => false)
  }

  function Ones(): (r: Register)
    ensures forall i :: 0 <= i < 32 ==> r[i]
  {
    seq(32, _ => true)
  }

  // Up to 32 bits in the low end of a register.
  function Low(bits: seq<bool>): (r: Register)
    requires |bits| <= 32
  {
    bits + Zeros(32 - |bits|)
  }

  // The register after a stream of bits.
  function Feed(c: Register, bits: seq<bool>): (r: Register)
    decreases |bits|
  {
    if bits == [] then c else Feed(Shift(Xor(c, Low([bits[0]]))), bits[1..])
  }

  // Bits of a byte and of a message, least significant first.
  function ByteBits(b: Byte): (r: seq<bool>)
    ensures |r| == 8
  {
    LowBits(b as int, 8)
  }

  function Bits(s: seq<Byte>): (r: seq<bool>)
    ensures |r| == 8 * |s|
  {
    if s == [] then [] else Bits(s[..|s| - 1]) + ByteBits(s[|s| - 1])
  }

  function Crc(s: seq<Byte>): (r: Register)
  {
    Xor(Feed(Ones(), Bits(s)), Ones())
  }

  // ---- The shift is linear and loses nothing --------------------------------------

  lemma ShiftLinear(a: Register, b: Register)
    ensures Shift(Xor(a, b)) == Xor(Shift(a), Shift(b))
  {
    hide Polynomial;
  }

  lemma ShiftInjective(a: Register)
    ensures Shift(a) == Zeros(32) <==> a == Zeros(32)
  {
    PolynomialTop();
    hide Polynomial;
    if Shift(a) == Zeros(32) {
      assert !Shift(a)[31];
      assert !a[0];
      forall i | 1 <= i < 32
        ensures !a[i]
      {
        assert !Shift(a)[i - 1];
      }
    }
  }

  lemma {:induction false} FeedLinear(c: Register, d: Register, x: seq<bool>, y: seq<bool>)
    requires |x| == |y|
    ensures Feed(Xor(c, d), Xor(x, y)) == Xor(Feed(c, x), Feed(d, y))
    decreases |x|
  {
    hide Shift;
    if x != [] {
      var c', d' := Xor(c, Low([x[0]])), Xor(d, Low([y[0]]));
      assert Xor(Xor(c, d), Low([Xor(x, y)[0]])) == Xor(c', d');
      ShiftLinear(c', d');
      FeedLinear(Shift(c'), Shift(d'), x[1..], y[1..]);
      assert Xor(x, y)[1..] == Xor(x[1..], y[1..]);
    }
  }

  // A difference, once in the register, stays there.
  lemma {:induction false} FeedZeros(d: Register, n: nat)
    ensures Feed(d, Zeros(n)) == Zeros(32) <==> d == Zeros(32)
    decreases n
  {
    hide Shift;
    if n > 0 {
      assert Xor(d, Low([Zeros(n)[0]])) == d;
      ShiftInjective(d);
      assert Zeros(n)[1..] == Zeros(n - 1);
      FeedZeros(Shift(d), n - 1);
    }
  }

  lemma {:induction false} FeedMore(c: Register, x: seq<bool>, y: seq<bool>)
    ensures Feed(c, x + y) == Feed(Feed(c, x), y)
    decreases |x|
  {
    hide Shift;
    if x == [] {
      assert [] + y == y;
    } else {
      assert (x + y)[1..] == x[1..] + y;
      FeedMore(Shift(Xor(c, Low([x[0]]))), x[1..], y);
    }
  }

  // Up to 32 bits may as well be put into the register at once.
  lemma {:induction false} FeedAtOnce(c: Register, bits: seq<bool>)
    requires |bits| <= 32
    ensures Feed(c, bits) == Feed(Xor(c, Low(bits)), Zeros(|bits|))
    decreases |bits|
  {
    if bits == [] {
      assert Xor(c, Low([])) == c;
    } else {
      hide Feed;
      var n, rest := |bits|, bits[1..];
      var first := Xor(c, Low([bits[0]]));
      FeedOne(c, bits);
      FeedAtOnce(Shift(first), rest);
      var later := Low([false] + rest);
      assert Xor(c, Low(bits)) == Xor(first, later);
      ShiftLinear(first, later);
      assert Shift(later) == Low(rest);
      FeedOne(Xor(c, Low(bits)), Zeros(n));
      assert Xor(Xor(c, Low(bits)), Low([Zeros(n)[0]])) == Xor(c, Low(bits));
      assert Zeros(n)[1..] == Zeros(n - 1);
    }
  }

  lemma FeedOne(c: Register, bits: seq<bool>)
    requires bits != []
    ensures Feed(c, bits) == Feed(Shift(Xor(c, Low([bits[0]]))), bits[1..])
  {
  }

  // ---- Bursts -----------------------------------------------------------------------

  // The two differ, and only within 32 consecutive bits.
  ghost predicate Burst(x: seq<bool>, y: seq<bool>, from: nat)
  {
    && |x| == |y| && x != y
    && forall i :: 0 <= i < |x| && x[i] != y[i] ==> from <= i < from + 32
  }

  // A difference confined to 32 consecutive bits always reaches the end.
  lemma BurstRemains(d: seq<bool>, from: nat)
    requires from + 32 <= |d| && (exists i :: 0 <= i < |d| && d[i])
    requires forall i :: 0 <= i < |d| && d[i] ==> from <= i < from + 32
    ensures Feed(Zeros(32), d) != Zeros(32)
  {
    hide Feed, Shift;
    var window, after := d[from..from + 32], |d| - from - 32;
    assert d == Zeros(from) + (window + Zeros(after));
    FeedMore(Zeros(32), Zeros(from), window + Zeros(after));
    FeedZeros(Zeros(32), from);
    FeedMore(Zeros(32), window, Zeros(after));
    FeedAtOnce(Zeros(32), window);
    assert Xor(Zeros(32), Low(window)) == window;
    var i :| 0 <= i < |d| && d[i];
    assert window[i - from];
    FeedZeros(window, 32);
    FeedZeros(Feed(Zeros(32), window), after);
  }

  lemma ShortRemains(d: seq<bool>)
    requires |d| <= 32 && (exists i :: 0 <= i < |d| && d[i])
    ensures Feed(Zeros(32), d) != Zeros(32)
  {
    hide Feed, Shift;
    FeedAtOnce(Zeros(32), d);
    var i :| 0 <= i < |d| && d[i];
    assert Xor(Zeros(32), Low(d))[i];
    FeedZeros(Xor(Zeros(32), Low(d)), |d|);
  }

  lemma DifferenceRemains(d: seq<bool>, from: nat)
    requires exists i :: 0 <= i < |d| && d[i]
    requires forall i :: 0 <= i < |d| && d[i] ==> from <= i < from + 32
    ensures Feed(Zeros(32), d) != Zeros(32)
  {
    if |d| <= 32 {
      ShortRemains(d);
    } else if from + 32 <= |d| {
      BurstRemains(d, from);
    } else {
      BurstRemains(d, |d| - 32);
    }
  }

  lemma XorSelf(a: Register, b: Register)
    ensures a == b ==> Xor(a, b) == Zeros(32)
  {
  }

  // Streams that differ in a burst leave different registers.
  lemma BurstSeparates(c: Register, x: seq<bool>, y: seq<bool>, from: nat)
    requires Burst(x, y, from)
    ensures Feed(c, x) != Feed(c, y)
  {
    hide Feed, Shift;
    var d := Xor(x, y);
    var i :| 0 <= i < |x| && x[i] != y[i];
    assert d[i];
    DifferenceRemains(d, from);
    FeedLinear(c, c, x, y);
    assert Xor(c, c) == Zeros(32);
    XorSelf(Feed(c, x), Feed(c, y));
  }

  // Two messages of equal length that differ only within 32 consecutive bits
  // have different checksums.
  lemma BurstDetected(m: seq<Byte>, m': seq<Byte>, from: nat)
    requires Burst(Bits(m), Bits(m'), from)
    ensures Crc(m) != Crc(m')
  {
    hide Feed, Bits;
    BurstSeparates(Ones(), Bits(m), Bits(m'), from);
    var a, b := Feed(Ones(), Bits(m)), Feed(Ones(), Bits(m'));
    var i :| 0 <= i < 32 && a[i] != b[i];
    assert Crc(m)[i] != Crc(m')[i];
  }

  lemma {:induction false} BitsAt(s: seq<Byte>, k: nat)
    requires k < |s|
    ensures Bits(s)[8 * k..8 * k + 8] == ByteBits(s[k])
  {
    hide ByteBits;
    var n := |s| - 1;
    if k < n {
      BitsAt(s[..n], k);
      assert Bits(s)[8 * k..8 * k + 8] == Bits(s[..n])[8 * k..8 * k + 8];
    }
  }

  lemma ByteBitsInjective(a: Byte, b: Byte)
    ensures ByteBits(a) == ByteBits(b) ==> a == b
  {
    assert Pow2(8) == 2 * Pow2(7) == 256;
    hide LowBits;
    if ByteBits(a) == ByteBits(b) {
      LowBitsInjective(a as int, b as int, 8);
    }
  }

  // Bytes that differ only among four consecutive ones differ in a burst.
  lemma BytesBurst(m: seq<Byte>, m': seq<Byte>, first: nat)
    requires |m| == |m'| && m != m'
    requires forall k :: 0 <= k < |m| && m[k] != m'[k] ==> first <= k < first + 4
    ensures Burst(Bits(m), Bits(m'), 8 * first)
  {
    hide ByteBits;
    forall i | 0 <= i < 8 * |m| && Bits(m)[i] != Bits(m')[i]
      ensures 8 * first <= i < 8 * first + 32
    {
      var k := i / 8;
      BitsAt(m, k);
      BitsAt(m', k);
      assert Bits(m)[i] == Bits(m)[8 * k..8 * k + 8][i - 8 * k];
      assert Bits(m')[i] == Bits(m')[8 * k..8 * k + 8][i - 8 * k];
      assert m[k] != m'[k];
    }
    var k :| 0 <= k < |m| && m[k] != m'[k];
    BitsAt(m, k);
    BitsAt(m', k);
    ByteBitsInjective(m[k], m'[k]);
  }

  // ---- Sealed records ------------------------------------------------------------------

  // A record ends in the checksum of what comes before.
  ghost predicate Sealed(f: seq<Byte>)
  {
    |f| >= 4 && Bits(f[|f| - 4..]) == Crc(f[..|f| - 4])
  }

  lemma {:induction false} BitsConcat(a: seq<Byte>, b: seq<Byte>)
    ensures Bits(a + b) == Bits(a) + Bits(b)
  {
    hide ByteBits;
    if b == [] {
      assert a + b == a;
    } else {
      var n := |b| - 1;
      assert (a + b)[..|a + b| - 1] == a + b[..n];
      BitsConcat(a, b[..n]);
    }
  }

  // A record is sealed exactly when running the checksum over all of it ends
  // in one fixed register.
  lemma SealedResidue(f: seq<Byte>)
    requires |f| >= 4
    ensures Sealed(f) <==> Feed(Ones(), Bits(f)) == Feed(Ones(), Zeros(32))
  {
    hide Feed, Bits, Shift;
    var n := |f| - 4;
    var state, tail := Feed(Ones(), Bits(f[..n])), Bits(f[n..]);
    assert f == f[..n] + f[n..];
    BitsConcat(f[..n], f[n..]);
    FeedMore(Ones(), Bits(f[..n]), tail);
    FeedAtOnce(state, tail);
    assert Low(tail) == tail;
    var end := Xor(state, tail);
    assert Sealed(f) <==> tail == Xor(state, Ones());
    SameEnd(end, Ones());
    assert tail == Xor(state, Ones()) <==> end == Ones() by {
      if tail == Xor(state, Ones()) {
        assert forall i :: 0 <= i < 32 ==> end[i] == Ones()[i];
      }
      if end == Ones() {
        assert forall i :: 0 <= i < 32 ==> (state[i] != tail[i]) == end[i];
        assert forall i :: 0 <= i < 32 ==> tail[i] == Xor(state, Ones())[i];
      }
    }
  }

  lemma XorZero(a: seq<bool>, b: seq<bool>)
    requires |a| == |b| && Xor(a, b) == Zeros(|a|)
    ensures a == b
  {
    forall i | 0 <= i < |a|
      ensures a[i] == b[i]
    {
      assert !Xor(a, b)[i];
    }
  }

  lemma SameEnd(a: Register, b: Register)
    ensures Feed(a, Zeros(32)) == Feed(b, Zeros(32)) <==> a == b
  {
    hide Feed, Shift;
    FeedLinear(a, b, Zeros(32), Zeros(32));
    assert Xor(Zeros(32), Zeros(32)) == Zeros(32);
    FeedZeros(Xor(a, b), 32);
    var x, y := Feed(a, Zeros(32)), Feed(b, Zeros(32));
    if x == y {
      assert Xor(x, y) == Zeros(32);
      XorZero(a, b);
    }
  }

  // No burst of up to 32 bits, in the data, in the checksum or across both,
  // leaves a sealed record sealed.
  lemma SealedBurst(f: seq<Byte>, f': seq<Byte>, from: nat)
    requires Sealed(f) && |f'| == |f| && Burst(Bits(f), Bits(f'), from)
    ensures !Sealed(f')
  {
    hide Feed, Bits, Sealed;
    SealedLength(f);
    SealedResidue(f);
    SealedResidue(f');
    BurstSeparates(Ones(), Bits(f), Bits(f'), from);
  }

  lemma SealedLength(f: seq<Byte>)
    requires Sealed(f)
    ensures |f| >= 4
  {
  }

  // ---- The loop --------------------------------------------------------------------------

  method CrcBytes(data: seq<Byte>) returns (r: Register)
    ensures r == Crc(data)
  {
    var c: Register := Ones();
    for i := 0 to |data|
      invariant c == Feed(Ones(), Bits(data[..i]))
    {
      ghost var before := c;
      var bits := ByteBits(data[i]);
      c := Xor(c, Low(bits));
      ghost var mixed := c;
      for b := 0 to 8
        invariant c == Feed(mixed, Zeros(b))
      {
        FeedNextZero(mixed, b);
        var mask := c[0];
        c := seq(32, k requires 0 <= k < 32 => (k < 31 && c[k + 1]) != (mask && Polynomial()[k]));
      }
      FeedAtOnce(before, bits);
      assert data[..i + 1][..i] == data[..i];
      FeedMore(Ones(), Bits(data[..i]), bits);
    }
    assert data[..|data|] == data;
    r := Xor(c, Ones());
  }

  lemma FeedNextZero(c: Register, n: nat)
    ensures Feed(c, Zeros(n + 1)) == Shift(Feed(c, Zeros(n)))
  {
    hide Shift;
    assert Zeros(n + 1) == Zeros(n) + [false];
    FeedMore(c, Zeros(n), [false]);
    var state := Feed(c, Zeros(n));
    assert Xor(state, Low([false])) == state;
    FeedOne(state, [false]);
    assert [false][1..] == [];
  }
}
