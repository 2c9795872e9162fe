// Microseconds from a free-running 16-bit timer, and the command deadline.
module Clock {

  const TICKS: nat := 0x1_0000
  const TWO32: nat := 0x1_0000_0000
  const TIMEOUT: nat := 500_000

  // `now - stamp` in 32-bit arithmetic
  function Since(now: nat, stamp: nat): (d: nat)
    ensures d < TWO32
  {
    (now - stamp) % TWO32
  }

  predicate DeadlineExpired(active: bool, now: nat, stamp: nat)
  {
    active && Since(now, stamp) >= TIMEOUT
  }

  // Two readings subtract to the true time between them.
  lemma SinceIsElapsed(early: int, late: int)
    requires early <= late < early + TWO32
    ensures Since(late % TWO32, early % TWO32) == late - early
  {
    var a, b := early / TWO32, late / TWO32;
    assert late % TWO32 - early % TWO32 == (late - early) - TWO32 * (b - a);
    ModShift(late - early, a - b);
  }

  lemma {:induction false} ModShift(x: int, k: int)
    ensures (x + TWO32 * k) % TWO32 == x % TWO32
    decreases if k >= 0 then k else -k
  {
    if k > 0 {
      ModShift(x, k - 1);
    } else if k < 0 {
      ModShift(x, k + 1);
    }
  }

  // The tick difference is the true gap, short of whole timer periods.
  lemma GapOf(read: nat, time: nat)
    requires read <= time
    ensures (time % TICKS - read % TICKS) % TICKS == (time - read) % TICKS <= time - read
    ensures time - read < TICKS ==> (time - read) % TICKS == time - read
  {
    var a, b := read / TICKS, time / TICKS;
    assert time - read == (time % TICKS - read % TICKS) + TICKS * (b - a);
    ShiftTicks(time % TICKS - read % TICKS, b - a);
  }

  lemma {:induction false} ShiftTicks(x: int, k: int)
    ensures (x + TICKS * k) % TICKS == x % TICKS
    decreases if k >= 0 then k else -k
  {
    if k > 0 {
      ShiftTicks(x, k - 1);
    } else if k < 0 {
      ShiftTicks(x, k + 1);
    }
  }

  lemma Accumulate(x: int, gap: nat)
    ensures (x % TWO32 + gap) % TWO32 == (x + gap) % TWO32
  {
    ModShift(x % TWO32 + gap, x / TWO32);
    assert x == x % TWO32 + TWO32 * (x / TWO32);
  }

  class Platform {
    // True time since power-up; the timer counts it in 16 bits.
    var time: nat
    var monotonic: nat
    var lastTick: nat
    var started: bool
    // When the timer was last read, and how far the count lags behind.
    var read: nat
    ghost var lag: int

    ghost predicate Valid()
      reads this
    {
      && monotonic < TWO32 && read <= time
      && (started ==> lastTick == read % TICKS && monotonic == (read - lag) % TWO32)
    }

    constructor ()
      ensures Valid() && time == 0 && !started
    {
      time, monotonic, lastTick, started := 0, 0, 0, false;
      read, lag := 0, 0;
    }

    // What the main loop does between two readings takes time.
    method Elapse(most: nat)
      requires Valid()
      modifies this`time
      ensures Valid() && old(time) <= time <= old(time) + most
    {
      var d: int := *;
      if 0 <= d <= most {
        time := time + d;
      }
    }

    // The count follows true time exactly between calls less than a timer
    // period apart, across any number of wrap-arounds of either counter; a
    // longer gap makes it lag.
    method MonotonicUs() returns (us: nat)
      requires Valid()
      modifies this
      ensures Valid() && started && time == read == old(time) && us == monotonic == (time - lag) % TWO32
      ensures old(started) ==> lag == old(lag) + (time - old(read)) / TICKS * TICKS
      ensures old(started) && time - old(read) < TICKS ==> lag == old(lag)
    {
      var current := time % TICKS;
      if !started {
        lastTick, started := current, true;
        read, lag := time, time - monotonic;
        return monotonic;
      }
      var gap := (current - lastTick) % TICKS;
      GapOf(read, time);
      Accumulate(read - lag, gap);
      monotonic := (monotonic + gap) % TWO32;
      lastTick := current;
      lag := lag + (time - read - gap);
      read := time;
      us := monotonic;
    }
  }
}
