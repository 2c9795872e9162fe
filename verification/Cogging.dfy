// The end of a cogging calibration: averages per bin, gaps filled in place
// around the circle, and the table quantised to a signed byte.
module Cogging {
  import opened Reals

  const N: nat := 1024
  const MIN_VALID: nat := 768

  // ---- Where each bin's value comes from -------------------------------------------

  // The nearest valid bin at or before `b`, or -1.
  function Before(valid: seq<bool>, b: int): (p: int)
    requires b < |valid|
    ensures -1 <= p <= b || (p == -1 && b < 0)
    ensures p >= 0 ==> valid[p] && forall i :: p < i <= b ==> !valid[i]
    ensures p < 0 ==> forall i :: 0 <= i <= b ==> !valid[i]
    decreases b + 1
  {
    if b < 0 then -1 else if valid[b] then b else Before(valid, b - 1)
  }

  // The last bin of the gap before the first valid one.
  predicate EndsLeadingGap(valid: seq<bool>, b: int)
    requires 0 <= b < |valid|
  {
    Before(valid, b) < 0 && b + 1 < |valid| && valid[b + 1]
  }

  // The bin whose average ends up in `b`: the nearest valid one going back
  // around the circle, except that the end of a leading gap takes the one
  // after it when the last bin is not valid itself.
  function Source(valid: seq<bool>, b: int): (s: int)
    requires 0 <= b < |valid| && true in valid
    ensures 0 <= s < |valid| && valid[s]
  {
    if Before(valid, b) >= 0 then Before(valid, b)
    else if !valid[|valid| - 1] && EndsLeadingGap(valid, b) then b + 1
    else Before(valid, |valid| - 1)
  }

  // The nearest valid bin at or behind `b`, or the size if there is none.
  function Behind(valid: seq<bool>, b: nat): (p: nat)
    requires b <= |valid|
    ensures b <= p <= |valid| && forall i :: b <= i < p ==> !valid[i]
    ensures p < |valid| ==> valid[p]
    decreases |valid| - b
  {
    if b == |valid| || valid[b] then b else Behind(valid, b + 1)
  }

  // How far away the next valid bin is, going either way around the circle.
  function Back(valid: seq<bool>, b: int): (d: int)
    requires 0 <= b < |valid| && true in valid
  {
    if Before(valid, b) >= 0 then b - Before(valid, b) else b + |valid| - Before(valid, |valid| - 1)
  }

  function Ahead(valid: seq<bool>, b: int): (d: int)
    requires 0 <= b < |valid| && true in valid
  {
    if Behind(valid, b) < |valid| then Behind(valid, b) - b else |valid| - b + Behind(valid, 0)
  }

  // The shorter way around the circle.
  function Distance(n: int, b: int, s: int): (d: int)
  {
    var d := if s <= b then b - s else s - b;
    if d <= n - d then d else n - d
  }

  ghost predicate IsNearest(valid: seq<bool>, b: int, s: int)
    requires 0 <= b < |valid|
  {
    && 0 <= s < |valid| && valid[s]
    && forall t :: 0 <= t < |valid| && valid[t] ==> Distance(|valid|, b, s) <= Distance(|valid|, b, t)
  }

  // No valid bin is nearer than the first one met either way.
  lemma NoneNearer(valid: seq<bool>, b: int, t: int)
    requires 0 <= b < |valid| && true in valid && 0 <= t < |valid| && valid[t]
    ensures Distance(|valid|, b, t) >= Back(valid, b) || Distance(|valid|, b, t) >= Ahead(valid, b)
  {
  }

  // An empty bin gets a nearest valid one exactly when the gap's leading edge
  // is no further away than its trailing edge, around the ends of the table
  // too; or when it ends a leading gap that wraps; or when there is no choice.
  lemma NearestExactly(valid: seq<bool>, b: int)
    requires 0 <= b < |valid| && true in valid && !valid[b]
    ensures IsNearest(valid, b, Source(valid, b)) <==>
      || Back(valid, b) <= Ahead(valid, b)
      || (EndsLeadingGap(valid, b) && !valid[|valid| - 1])
      || Back(valid, b) + Ahead(valid, b) == |valid|
  {
    var n, s := |valid|, Source(valid, b);
    var next := if Behind(valid, b) < n then Behind(valid, b) else Behind(valid, 0);
    assert valid[next] && Distance(n, b, next) <= Ahead(valid, b);
    if EndsLeadingGap(valid, b) && !valid[n - 1] {
      assert Distance(n, b, s) == 1;
    } else {
      assert Distance(n, b, s) == if Back(valid, b) <= n - Back(valid, b) then Back(valid, b) else n - Back(valid, b);
    }
    forall t | 0 <= t < n && valid[t]
      ensures Distance(n, b, t) >= Back(valid, b) || Distance(n, b, t) >= Ahead(valid, b)
    {
      NoneNearer(valid, b, t);
    }
  }

  // Inside the table: the first half of a gap and its middle.
  lemma GapNearest(valid: seq<bool>, start: int, end: int, b: int)
    requires 0 <= start < b < end < |valid| && valid[start] && valid[end] && forall i :: start < i < end ==> !valid[i]
    ensures IsNearest(valid, b, Source(valid, b)) <==> b - start <= end - b
  {
    NearestExactly(valid, b);
    assert Before(valid, b) == start && Behind(valid, b) == end;
  }

  // A gap of two bins is enough for one to miss its nearest neighbour.
  lemma NotNearest() returns (valid: seq<bool>)
    ensures |valid| == N && Count(valid) >= MIN_VALID && !valid[2] && valid[3]
    ensures Source(valid, 2) == 0 && !IsNearest(valid, 2, Source(valid, 2))
  {
    var all := AllTrue(N);
    valid := all[1 := false][2 := false];
    assert Count(all) == N;
    CountSet(valid, 2);
    assert valid[2 := true] == all[1 := false];
    CountSet(all[1 := false], 1);
    assert all[1 := false][1 := true] == all;
    GapNearest(valid, 0, 3, 2);
    GapFilledFromItsStart(valid, 0, 2);
  }

  // Not the nearest one: a gap is filled from its leading edge throughout.
  lemma GapFilledFromItsStart(valid: seq<bool>, start: int, b: int)
    requires 0 <= start < b < |valid| && valid[start] && forall i :: start < i <= b ==> !valid[i]
    ensures Source(valid, b) == start
  {
  }

  // What the first pass reaches.
  predicate Reached(valid: seq<bool>, b: int)
    requires 0 <= b < |valid|
  {
    Before(valid, b) >= 0 || valid[|valid| - 1] || EndsLeadingGap(valid, b)
  }

  // At a bin still empty in the first pass, its left neighbour already has the
  // first pass's result and its right neighbour still the original.
  lemma FirstPassStep(valid: seq<bool>, b: int)
    requires |valid| == N && 0 <= b < N && true in valid && !valid[b]
    ensures var left := if b == 0 then valid[N - 1] else Reached(valid, b - 1);
      var l := if b == 0 then N - 1 else b - 1;
      if left then Reached(valid, b) && Source(valid, b) == Source(valid, l)
      else b < N - 1 && (Reached(valid, b) <==> valid[b + 1]) && (valid[b + 1] ==> Source(valid, b) == Source(valid, b + 1))
  {
    if b > 0 && !Reached(valid, b - 1) {
      assert Before(valid, b) < 0;
    }
  }

  // In the second pass, the left neighbour of an empty bin is always filled,
  // from the same bin.
  lemma SecondPassStep(valid: seq<bool>, b: int)
    requires |valid| == N && 0 <= b < N && true in valid && !Reached(valid, b)
    ensures b == 0 ==> Reached(valid, N - 1)
    ensures Source(valid, b) == Source(valid, if b == 0 then N - 1 else b - 1)
  {
  }

  lemma ValidReached(valid: seq<bool>)
    ensures forall b :: 0 <= b < |valid| && valid[b] ==> Reached(valid, b)
  {
  }

  function Count(s: seq<bool>): (n: nat)
    ensures n <= |s|
    ensures n == |s| <==> forall i :: 0 <= i < |s| ==> s[i]
    ensures n > 0 ==> true in s
  {
    if s == [] then 0 else Count(s[..|s| - 1]) + if s[|s| - 1] then 1 else 0
  }

  lemma {:induction false} CountSet(s: seq<bool>, i: nat)
    requires i < |s| && !s[i]
    ensures Count(s[i := true]) == Count(s) + 1
  {
    var n := |s| - 1;
    if i < n {
      CountSet(s[..n], i);
      assert s[i := true][..n] == s[..n][i := true];
    } else {
      assert s[i := true][..n] == s[..n];
    }
  }

  lemma CountNext(s: seq<bool>, n: nat)
    requires n < |s|
    ensures Count(s[..n + 1]) == Count(s[..n]) + (if s[n] then 1 else 0)
    ensures Count(s[..0]) == 0
  {
    assert s[..n + 1][..n] == s[..n];
  }

  // The largest magnitude among the valid bins' averages.
  ghost predicate IsPeak(means: seq<real>, valid: seq<bool>, peak: real)
    requires |means| == |valid|
  {
    && (forall b :: 0 <= b < |means| && valid[b] ==> Abs(means[b]) <= peak)
    && (peak == 0.0 || exists b :: 0 <= b < |means| && valid[b] && Abs(means[b]) == peak)
  }

  function FlagsOf(counts: seq<int>): (f: seq<bool>)
    ensures |f| == |counts| && forall b :: 0 <= b < |f| ==> f[b] == (counts[b] != 0)
  {
    seq(|counts|, b requires 0 <= b < |counts| => counts[b] != 0)
  }

  // Rounded to the nearest integer, halves away from zero.
  function Rounded(q: real): (v: int)
  {
    Truncate(if q >= 0.0 then q + 0.5 else q - 0.5)
  }

  function Quantised(q: real): (v: int)
    ensures -127 <= v <= 127
  {
    if Rounded(q) > 127 then 127 else if Rounded(q) < -127 then -127 else Rounded(q)
  }

  lemma RoundedNear(q: real)
    requires -127.0 <= q <= 127.0
    ensures -127 <= Rounded(q) <= 127 && -0.5 <= Rounded(q) as real - q <= 0.5
  {
    assert -128.0 < Rounded(q) as real < 128.0;
  }

  // Scaled by the peak, no value needs the byte's limits, and each is met to
  // half a step.
  lemma QuantisedNear(a: real, peak: real, scale: real, q: real)
    requires scale > 0.0 && scale * 127.0 == peak && q * scale == a && Abs(a) <= peak
    ensures Quantised(q) == Rounded(q) && Abs(Quantised(q) as real * scale - a) <= scale / 2.0
  {
    hide Rounded;
    InByte(q, scale, a, peak);
    RoundedNear(q);
    var d := Rounded(q) as real - q;
    HalfStep(d, scale);
    assert d * scale == Rounded(q) as real * scale - a;
  }

  // The averages with every gap filled from its source.
  function Sourced(means: seq<real>, valid: seq<bool>): (r: seq<real>)
    requires |means| == |valid| && true in valid
    ensures |r| == |means| && forall b :: 0 <= b < |r| ==> r[b] == means[Source(valid, b)]
  {
    seq(|means|, b requires 0 <= b < |means| => means[Source(valid, b)])
  }

  // The table holds the values to half a step; no measurable cogging gives an
  // empty one.
  ghost predicate Tabulated(values: seq<real>, peak: real, scale: real, table: seq<int>)
  {
    && |table| == |values|
    && if peak < 0.0001 then scale == 0.0 && forall b :: 0 <= b < |table| ==> table[b] == 0
       else scale == peak / 127.0 && forall b :: 0 <= b < |table| ==>
              -127 <= table[b] <= 127 && Abs(table[b] as real * scale - values[b]) <= scale / 2.0
  }

  lemma EmptyTabulated(values: seq<real>, peak: real, table: seq<int>)
    requires |table| == |values| && peak < 0.0001 && forall b :: 0 <= b < |table| ==> table[b] == 0
    ensures Tabulated(values, peak, 0.0, table)
  {
  }

  lemma EntriesTabulated(values: seq<real>, peak: real, scale: real, inverse: real, table: seq<int>)
    requires |table| == |values| == N && peak >= 0.0001 && scale == peak / 127.0 && inverse == 1.0 / scale
    requires IsPeak(values, AllTrue(N), peak)
    requires forall b :: 0 <= b < N ==> table[b] == Entry(values[b], inverse)
    ensures Tabulated(values, peak, scale, table)
  {
    hide Entry, IsPeak;
    forall b | 0 <= b < N
      ensures -127 <= table[b] <= 127 && Abs(table[b] as real * scale - values[b]) <= scale / 2.0
    {
      PeakBounds(values, peak, b);
      EntryNear(values[b], peak, scale, inverse);
      EntryByte(values[b], inverse);
    }
  }

  lemma EntryByte(a: real, inverse: real)
    ensures -127 <= Entry(a, inverse) <= 127
  {
  }

  // One entry of the table.
  function Entry(a: real, inverse: real): (v: int)
    ensures -127 <= v <= 127
  {
    Quantised(a * inverse)
  }

  lemma EntryNear(a: real, peak: real, scale: real, inverse: real)
    requires scale > 0.0 && scale * 127.0 == peak && inverse == 1.0 / scale && Abs(a) <= peak
    ensures Abs(Entry(a, inverse) as real * scale - a) <= scale / 2.0
  {
    var q := a * inverse;
    ScaleBack(a, scale, inverse, q);
    QuantisedNear(a, peak, scale, q);
  }

  lemma InByte(q: real, scale: real, a: real, peak: real)
    requires scale > 0.0 && scale * 127.0 == peak && q * scale == a && Abs(a) <= peak
    ensures -127.0 <= q <= 127.0
  {
    Cancel(q, 127.0, scale);
    Cancel(-127.0, q, scale);
  }

  lemma ScaleBack(a: real, scale: real, inverse: real, q: real)
    requires scale > 0.0 && inverse == 1.0 / scale && q == a * inverse
    ensures q * scale == a
  {
    assert inverse * scale == 1.0;
    assert q * scale == a * (inverse * scale);
  }

  lemma HalfStep(d: real, scale: real)
    requires scale > 0.0 && -0.5 <= d <= 0.5
    ensures Abs(d * scale) <= scale / 2.0
  {
    Product(0.5 - d, scale);
    Product(d + 0.5, scale);
  }

  class CoggingCal {
    // Sums and counts per bin, for the two directions; once averaged, the
    // first direction's hold the mean and whether it is valid.
    const sums: array<real>
    const counts: array<int>
    const reverseSums: array<real>
    const reverseCounts: array<int>
    const minCount: int
    const table: array<int>
    var scale: real
    var peak: real

    ghost predicate Valid()
    {
      && sums.Length == counts.Length == reverseSums.Length == reverseCounts.Length == table.Length == N
      && sums != reverseSums && counts != reverseCounts && counts != table && reverseCounts != table
      && minCount >= 1
    }

    constructor (minCount: int)
      ensures Valid() && this.minCount == Min1(minCount) && scale == peak == 0.0
    {
      sums, counts := new real[N](_ => 0.0), new int[N](_ => 0);
      reverseSums, reverseCounts := new real[N](_ => 0.0), new int[N](_ => 0);
      this.minCount := Min1(minCount);
      table := new int[N](_ => 0);
      scale, peak := 0.0, 0.0;
    }

    static function Min1(n: int): int
    {
      if n < 1 then 1 else n
    }

    // A bin is valid when both directions have enough samples in it; its mean
    // is the mean of the two directions'.
    predicate BinValid(b: int)
      requires 0 <= b < counts.Length && b < reverseCounts.Length
      reads counts, reverseCounts
    {
      counts[b] >= minCount && reverseCounts[b] >= minCount
    }

    function BinMean(b: int): (m: real)
      requires Valid() && 0 <= b < N
      reads sums, counts, reverseSums, reverseCounts
    {
      MeanOf(sums[b], counts[b], reverseSums[b], reverseCounts[b])
    }

    function MeanOf(s0: real, c0: int, s1: real, c1: int): (m: real)
      requires Valid()
    {
      if c0 >= minCount && c1 >= minCount then 0.5 * (s0 / c0 as real + s1 / c1 as real) else 0.0
    }

    method AverageBin(bin: nat) returns (ok: bool, a: real)
      requires Valid() && bin < N
      ensures ok == BinValid(bin) && a == BinMean(bin)
    {
      ok := counts[bin] >= minCount && reverseCounts[bin] >= minCount;
      a := 0.0;
      if ok {
        var m0 := sums[bin] / counts[bin] as real;
        var m1 := reverseSums[bin] / reverseCounts[bin] as real;
        a := 0.5 * (m0 + m1);
      }
    }

    // The flags the second half of the work keeps in the counts.
    ghost function Flags(): (f: seq<bool>)
      requires Valid()
      reads counts
      ensures |f| == N
    {
      FlagsOf(counts[..])
    }

    // One bin replaced by its mean and whether that is valid.
    method StoreBin(bin: nat) returns (ok: bool)
      requires Valid() && bin < N
      modifies sums, counts
      ensures ok == old(BinValid(bin)) && (counts[bin] != 0) == ok && sums[bin] == old(BinMean(bin))
      ensures forall b :: 0 <= b < N && b != bin ==> counts[b] == old(counts[b]) && sums[b] == old(sums[b])
    {
      hide CoggingCal.MeanOf;
      var a;
      ok, a := AverageBin(bin);
      sums[bin] := a;
      counts[bin] := if ok then 1 else 0;
    }

    method Average() returns (validCount: nat)
      requires Valid()
      modifies sums, counts
      ensures Flags() == old(ValidBins()) && sums[..] == old(Means())
      ensures validCount == Count(Flags())
    {
      hide CoggingCal.MeanOf, CoggingCal.ValidBins, CoggingCal.Means, Count;
      ghost var valid, means := ValidBins(), Means();
      validCount := 0;
      CountNext(valid, 0);
      for bin := 0 to N
        invariant validCount == Count(valid[..bin])
        invariant forall b :: 0 <= b < bin ==> (counts[b] != 0) == valid[b] && sums[b] == means[b]
        invariant forall b :: bin <= b < N ==> counts[b] == old(counts[b]) && sums[b] == old(sums[b])
      {
        assert valid[bin] == BinValid(bin) && means[bin] == BinMean(bin);
        var ok := StoreBin(bin);
        CountNext(valid, bin);
        if ok {
          validCount := validCount + 1;
        }
      }
      assert valid[..N] == valid == Flags();
    }

    // Every filled bin holds the mean of its source.
    ghost predicate FilledFrom(means: seq<real>, valid: seq<bool>)
      requires Valid() && |means| == |valid| == N && true in valid
      reads sums, counts
    {
      forall b :: 0 <= b < N && counts[b] != 0 ==> sums[b] == means[Source(valid, b)]
    }

    // One in-place pass around the bins.
    method FillPass(validCount: nat, ghost means: seq<real>, ghost valid: seq<bool>,
                    ghost second: bool) returns (count: nat)
      requires Valid() && |means| == |valid| == N && true in valid && FilledFrom(means, valid)
      requires validCount == Count(Flags())
      requires forall b :: 0 <= b < N ==> (counts[b] != 0) == (if second then Reached(valid, b) else valid[b])
      modifies sums, counts
      ensures FilledFrom(means, valid) && count == Count(Flags())
      ensures forall b :: 0 <= b < N ==> (counts[b] != 0) == (second || Reached(valid, b))
    {
      hide Source, Reached, Before, Count;
      count := validCount;
      for bin := 0 to N
        invariant FilledFrom(means, valid) && count == Count(Flags())
        invariant forall b :: 0 <= b < bin ==> (counts[b] != 0) == (second || Reached(valid, b))
        invariant forall b :: bin <= b < N ==> (counts[b] != 0) == (if second then Reached(valid, b) else valid[b])
      {
        count := VisitBin(bin, count, means, valid, second);
      }
    }

    // One bin of a pass: left alone if filled, else copied from the left
    // neighbour, or from the right one.
    method VisitBin(bin: nat, validCount: nat, ghost means: seq<real>, ghost valid: seq<bool>, ghost second: bool)
      returns (count: nat)
      requires Valid() && bin < N && |means| == |valid| == N && true in valid && FilledFrom(means, valid)
      requires validCount == Count(Flags())
      requires forall b :: 0 <= b < bin ==> (counts[b] != 0) == (second || Reached(valid, b))
      requires forall b :: bin <= b < N ==> (counts[b] != 0) == (if second then Reached(valid, b) else valid[b])
      modifies sums, counts
      ensures FilledFrom(means, valid) && count == Count(Flags())
      ensures (counts[bin] != 0) == (second || Reached(valid, bin))
      ensures forall b :: 0 <= b < N && b != bin ==> counts[b] == old(counts[b])
    {
      hide Source, Reached, Before, Count;
      count := validCount;
      ValidReached(valid);
      if counts[bin] != 0 {
        return;
      }
      var left, right := (bin + N - 1) % N, (bin + 1) % N;
      assert left == if bin == 0 then N - 1 else bin - 1;
      assert bin < N - 1 ==> right == bin + 1;
      if second {
        SecondPassStep(valid, bin);
      } else {
        FirstPassStep(valid, bin);
      }
      if counts[left] != 0 {
        FillBin(bin, left);
        count := count + 1;
      } else if counts[right] != 0 {
        FillBin(bin, right);
        count := count + 1;
      }
    }

    method FillBin(bin: nat, from: nat)
      requires Valid() && bin < N && from < N && counts[bin] == 0 && counts[from] != 0
      modifies sums, counts
      ensures counts[bin] == 1 && sums[bin] == old(sums[from])
      ensures forall b :: 0 <= b < N && b != bin ==> counts[b] == old(counts[b]) && sums[b] == old(sums[b])
      ensures Count(Flags()) == old(Count(Flags())) + 1
    {
      ghost var before := Flags();
      sums[bin] := sums[from];
      counts[bin] := 1;
      CountSet(before, bin);
      assert Flags() == before[bin := true];
    }

    // At most four passes are made; two always suffice.
    method FillGaps(validCount: nat, ghost means: seq<real>, ghost valid: seq<bool>) returns (count: nat, passes: nat)
      requires Valid() && |means| == |valid| == N && true in valid && validCount == Count(Flags())
      requires forall b :: 0 <= b < N ==> (counts[b] != 0) == valid[b] && sums[b] == means[b]
      modifies sums, counts
      ensures count == N && passes <= 2
      ensures forall b :: 0 <= b < N ==> sums[b] == means[Source(valid, b)]
    {
      hide Reached, Before, Count;
      ValidSource(valid);
      hide Source;
      count, passes := validCount, 0;
      while passes < 4 && count < N
        invariant FilledFrom(means, valid) && count == Count(Flags()) && passes <= 2
        invariant passes == 0 ==> forall b :: 0 <= b < N ==> (counts[b] != 0) == valid[b]
        invariant passes == 1 ==> forall b :: 0 <= b < N ==> (counts[b] != 0) == Reached(valid, b)
        invariant passes == 2 ==> forall b :: 0 <= b < N ==> counts[b] != 0
        decreases 4 - passes
      {
        AllCounted(Flags());
        count := FillPass(count, means, valid, passes == 1);
        passes := passes + 1;
      }
      AllCounted(Flags());
    }

    // The magnitude of the largest bin.
    method FindPeak() returns (largest: real)
      requires Valid()
      ensures IsPeak(sums[..], AllTrue(N), largest)
    {
      largest := 0.0;
      ghost var at := 0;
      for bin := 0 to N
        invariant forall b :: 0 <= b < bin ==> Abs(sums[b]) <= largest
        invariant largest == 0.0 || (0 <= at < bin && Abs(sums[at]) == largest)
        invariant largest >= 0.0
      {
        if Abs(sums[bin]) > largest {
          largest, at := Abs(sums[bin]), bin;
        }
      }
      assert largest != 0.0 ==> AllTrue(N)[at] && Abs(sums[..][at]) == largest;
    }

    // Peak, step and table for filled bins.
    method StoreTable()
      requires Valid()
      modifies this, table
      ensures IsPeak(sums[..], AllTrue(N), peak)
      ensures Tabulated(sums[..], peak, scale, table[..])
    {
      hide IsPeak, Entry, Tabulated;
      peak := FindPeak();
      if peak < 0.0001 {
        ghost var values := sums[..];
        forall b | 0 <= b < N { table[b] := 0; }
        scale := 0.0;
        assert sums[..] == values;
        EmptyTabulated(sums[..], peak, table[..]);
        return;
      }
      scale := peak / 127.0;
      var inverse := 1.0 / scale;
      Quantise(inverse);
      EntriesTabulated(sums[..], peak, scale, inverse, table[..]);
    }

    // The table for a given step.
    method Quantise(inverse: real)
      requires Valid()
      modifies table
      ensures forall b :: 0 <= b < N ==> table[b] == Entry(sums[b], inverse)
    {
      hide Entry;
      for bin := 0 to N
        invariant forall b :: 0 <= b < bin ==> table[b] == Entry(sums[b], inverse)
      {
        var v := RoundToByte(sums[bin], inverse);
        table[bin] := v;
      }
    }

    static method RoundToByte(a: real, inverse: real) returns (v: int)
      ensures v == Entry(a, inverse)
    {
      var scaled := a * inverse;
      var q := if scaled >= 0.0 then scaled + 0.5 else scaled - 0.5;
      v := Truncate(q);
      if v > 127 {
        v := 127;
      }
      if v < -127 {
        v := -127;
      }
    }

    // The whole end of a calibration: it fails exactly when fewer than three
    // quarters of the bins are valid; otherwise every bin has a value, taken
    // from a valid bin, and the table holds it to half a step.
    method Finish() returns (ok: bool)
      requires Valid()
      modifies this, sums, counts, table
      ensures ok == (Count(old(ValidBins())) >= MIN_VALID)
      ensures ok ==> true in old(ValidBins()) && IsPeak(old(Means()), old(ValidBins()), peak)
      ensures ok ==> Tabulated(Sourced(old(Means()), old(ValidBins())), peak, scale, table[..])
    {
      hide Source, Reached, Before, Count, IsPeak, Entry, Tabulated, CoggingCal.MeanOf;
      ghost var means, valid := Means(), ValidBins();
      var validCount := Average();
      assert Flags() == valid;
      if validCount < MIN_VALID {
        return false;
      }
      SomeCounted(valid);
      var count, passes := FillGaps(validCount, means, valid);
      if count < N {
        return false;
      }
      StoreTable();
      assert sums[..] == Sourced(means, valid);
      PeakOfValid(means, valid, sums[..], peak);
      ok := true;
    }

    ghost function ValidBins(): (f: seq<bool>)
      requires Valid()
      reads counts, reverseCounts
      ensures |f| == N && forall b :: 0 <= b < N ==> f[b] == BinValid(b)
    {
      Both(counts[..], reverseCounts[..], minCount)
    }

    ghost function Means(): (m: seq<real>)
      requires Valid()
      reads sums, counts, reverseSums, reverseCounts
      ensures |m| == N && forall b :: 0 <= b < N ==> m[b] == BinMean(b)
    {
      var s0, c0, s1, c1 := sums[..], counts[..], reverseSums[..], reverseCounts[..];
      seq(N, b requires 0 <= b < N => MeanOf(s0[b], c0[b], s1[b], c1[b]))
    }
  }

  function Both(c0: seq<int>, c1: seq<int>, min: int): (f: seq<bool>)
    requires |c0| == |c1|
    ensures |f| == |c0|
  {
    seq(|c0|, b requires 0 <= b < |c0| => c0[b] >= min && c1[b] >= min)
  }

  function AllTrue(n: nat): (f: seq<bool>)
    ensures |f| == n && forall b :: 0 <= b < n ==> f[b]
  {
    seq(n, _ => true)
  }

  lemma AllCounted(f: seq<bool>)
    ensures Count(f) == |f| <==> forall b :: 0 <= b < |f| ==> f[b]
  {
  }

  lemma SomeCounted(f: seq<bool>)
    requires Count(f) > 0
    ensures true in f
  {
  }

  lemma ValidSource(valid: seq<bool>)
    requires true in valid
    ensures forall b :: 0 <= b < |valid| && valid[b] ==> Source(valid, b) == b
  {
  }

  // Every bin is a copy of a valid one, and the valid ones are among them.
  lemma PeakOfValid(means: seq<real>, valid: seq<bool>, filled: seq<real>, peak: real)
    requires |means| == |valid| == |filled| == N && true in valid && IsPeak(filled, AllTrue(N), peak)
    requires forall b :: 0 <= b < N ==> filled[b] == means[Source(valid, b)]
    ensures IsPeak(means, valid, peak)
  {
    ValidSource(valid);
    hide Source;
    forall b | 0 <= b < N && valid[b]
      ensures Abs(means[b]) <= peak
    {
      assert AllTrue(N)[b] && filled[b] == means[b];
    }
    if peak != 0.0 {
      var b :| 0 <= b < N && AllTrue(N)[b] && Abs(filled[b]) == peak;
      var s := Source(valid, b);
      assert valid[s] && Abs(means[s]) == peak;
    }
  }

  lemma PeakBounds(filled: seq<real>, peak: real, b: nat)
    requires |filled| == N && IsPeak(filled, AllTrue(N), peak) && b < N
    ensures Abs(filled[b]) <= peak
  {
    assert AllTrue(N)[b];
  }
}
