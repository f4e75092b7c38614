/** Time and Duration of timg (src/timg-time.h): a `struct timespec` style pair of
    seconds and nanoseconds, the duration factories, the lexicographic order on
    points in time, and the in-place `Add` with its carry loop.

    C's `long` is modelled by the unbounded `int`: no 64-bit overflow is modelled.
    C's `/` and `%` truncate toward zero; `CDiv` and `CRem` state that explicitly. */
module TimgTime {

  const NanosPerSecond: int := 1_000_000_000

  /** C integer division of `a` by a positive `b`: rounds toward zero. */
  function CDiv(a: int, b: int): (q: int)
    requires b > 0
    ensures 0 <= a ==> q * b <= a < q * b + b
    ensures a < 0 ==> q * b - b < a <= q * b
  {
    if a >= 0 then a / b else -((-a) / b)
  }

  /** C remainder `a % b` for a positive `b`: takes the sign of `a`. */
  function CRem(a: int, b: int): (r: int)
    requires b > 0
    ensures CDiv(a, b) * b + r == a
    ensures -b < r < b
    ensures 0 <= a ==> 0 <= r
    ensures a < 0 ==> r <= 0
  {
    a - CDiv(a, b) * b
  }

  // ---------------------------------------------------------------- Duration

  /** A span of time, held like the source's `timespec duration_`. */
  datatype Duration = Duration(sec: int, nsec: int)

  /** The whole span in nanoseconds. */
  function DurationNanos(d: Duration): int
  {
    d.sec * NanosPerSecond + d.nsec
  }

  /** `Duration::Millis(ms)`. */
  function Millis(ms: int): (d: Duration)
    ensures DurationNanos(d) == ms * 1_000_000
    ensures 0 <= ms ==> 0 <= d.nsec < NanosPerSecond
    ensures ms < 0 ==> -NanosPerSecond < d.nsec <= 0
  {
    Duration(CDiv(ms, 1000), CRem(ms, 1000) * 1_000_000)
  }

  /** `Duration::Micros(usec)` exactly as written: the seconds are `usec / 1000`
      (a count of milliseconds), while the nanoseconds are the sub-second
      microseconds scaled by 1000. */
  function Micros(usec: int): (d: Duration)
    ensures 0 <= usec ==> d.sec == usec / 1000 && 0 <= d.nsec < NanosPerSecond
    ensures 0 <= usec ==> d.nsec == (usec % 1_000_000) * 1000
  {
    Duration(CDiv(usec, 1000), CRem(usec, 1_000_000) * 1000)
  }

  /** What `Micros` evidently means: `usec` microseconds, split like `Millis`. */
  function MicrosCorrected(usec: int): (d: Duration)
    ensures DurationNanos(d) == usec * 1000
    ensures 0 <= usec ==> 0 <= d.nsec < NanosPerSecond
    ensures usec < 0 ==> -NanosPerSecond < d.nsec <= 0
  {
    Duration(CDiv(usec, 1_000_000), CRem(usec, 1_000_000) * 1000)
  }

  /** For a non-negative count, the factory as written agrees with the intended
      one exactly when the count is below one millisecond. */
  lemma MicrosAgreesOnlyBelowOneMillisecond(usec: int)
    requires 0 <= usec
    ensures Micros(usec) == MicrosCorrected(usec) <==> usec < 1000
  {
    if usec >= 1000 {
      assert Micros(usec).sec == usec / 1000 >= 1;
      assert MicrosCorrected(usec).sec * 1_000_000 <= usec;
      assert MicrosCorrected(usec).sec < usec / 1000;
    }
  }

  /** One second given to `Micros` comes back as a thousand seconds. */
  lemma MicrosOneSecondIsThousandSeconds()
    ensures DurationNanos(Micros(1_000_000)) == 1000 * NanosPerSecond
    ensures DurationNanos(MicrosCorrected(1_000_000)) == NanosPerSecond
  {
  }

  /** `Duration::Nanos(nanos)`. */
  function Nanos(n: int): (d: Duration)
    ensures DurationNanos(d) == n
    ensures 0 <= n ==> 0 <= d.nsec < NanosPerSecond
    ensures n < 0 ==> -NanosPerSecond < d.nsec <= 0
  {
    Duration(CDiv(n, NanosPerSecond), CRem(n, NanosPerSecond))
  }

  /** `Duration::InfiniteFuture()`: a billion seconds, "infinite enough". */
  function InfiniteFuture(): (d: Duration)
    ensures DurationNanos(d) == 1_000_000_000 * NanosPerSecond
    ensures d.nsec == 0
  {
    Duration(1_000_000_000, 0)
  }

  // ---------------------------------------------------------------- points in time

  /** The value of a `Time`: its `timespec time_`. */
  datatype Timespec = Timespec(sec: int, nsec: int)

  /** `Time::nanoseconds()`. */
  function Nanoseconds(t: Timespec): int
  {
    t.sec * NanosPerSecond + t.nsec
  }

  /** `Time::operator<`: seconds first, nanoseconds on a tie. */
  predicate Less(a: Timespec, b: Timespec)
  {
    if a.sec > b.sec then false
    else if a.sec < b.sec then true
    else a.nsec < b.nsec
  }

  /** `Time::operator>=`, the negation of `<`. */
  predicate AtLeast(a: Timespec, b: Timespec)
  {
    !Less(a, b)
  }

  /** `<` is a strict total order on the pairs, and `>=` means "equal or later". */
  lemma LessIsStrictTotalOrder(a: Timespec, b: Timespec, c: Timespec)
    ensures !Less(a, a)
    ensures Less(a, b) ==> !Less(b, a)
    ensures Less(a, b) && Less(b, c) ==> Less(a, c)
    ensures Less(a, b) || a == b || Less(b, a)
    ensures AtLeast(a, b) <==> a == b || Less(b, a)
  {
  }

  /** A time whose nanoseconds lie in [0, 1e9): the normal form of a timespec. */
  predicate Normalized(t: Timespec)
  {
    0 <= t.nsec < NanosPerSecond
  }

  /** On normalized values the lexicographic order is the order of the
      nanosecond counts. */
  lemma LessMatchesNanoseconds(a: Timespec, b: Timespec)
    requires Normalized(a) && Normalized(b)
    ensures Less(a, b) <==> Nanoseconds(a) < Nanoseconds(b)
  {
    if a.sec < b.sec {
      assert (b.sec - a.sec) * NanosPerSecond >= NanosPerSecond;
      assert Nanoseconds(b) - Nanoseconds(a) == (b.sec - a.sec) * NanosPerSecond + b.nsec - a.nsec;
    } else if a.sec > b.sec {
      assert (a.sec - b.sec) * NanosPerSecond >= NanosPerSecond;
      assert Nanoseconds(a) - Nanoseconds(b) == (a.sec - b.sec) * NanosPerSecond + a.nsec - b.nsec;
    }
  }

  /** The carry loop of `Time::Add`: while the nanoseconds exceed one second,
      move one second over. The guard is `>`, so exactly one second may stay. */
  function Carry(sec: int, nsec: int): (t: Timespec)
    decreases nsec
    ensures Nanoseconds(t) == sec * NanosPerSecond + nsec
    ensures t.nsec <= NanosPerSecond
    ensures nsec > NanosPerSecond ==> 0 < t.nsec && sec < t.sec
    ensures nsec <= NanosPerSecond ==> t == Timespec(sec, nsec)
  {
    if nsec > NanosPerSecond then Carry(sec + 1, nsec - NanosPerSecond)
    else Timespec(sec, nsec)
  }

  /** The value `Add(d)` leaves behind, and the value of `t + d`. */
  function Sum(t: Timespec, d: Duration): (r: Timespec)
    ensures Nanoseconds(r) == Nanoseconds(t) + DurationNanos(d)
    ensures r.nsec <= NanosPerSecond
  {
    Carry(t.sec + d.sec, t.nsec + d.nsec)
  }

  /** With both nanosecond parts in [0, 1e9), the carry loop runs at most once
      and the result's nanoseconds lie in [0, 1e9], upper bound included. */
  lemma SumCarriesAtMostOnce(t: Timespec, d: Duration)
    requires Normalized(t) && 0 <= d.nsec < NanosPerSecond
    ensures Sum(t, d).sec == t.sec + d.sec + (if t.nsec + d.nsec > NanosPerSecond then 1 else 0)
    ensures 0 <= Sum(t, d).nsec <= NanosPerSecond
  {
    var n := t.nsec + d.nsec;
    if n > NanosPerSecond {
      assert Carry(t.sec + d.sec, n) == Carry(t.sec + d.sec + 1, n - NanosPerSecond);
    }
  }

  /** Half a second plus half a second stays at (0 s, 1e9 ns): that value is
      `<` the equal instant (1 s, 0 ns), so the order then disagrees with
      `nanoseconds()`. */
  lemma SumCanLeaveFullSecond()
    ensures Sum(Timespec(0, 500_000_000), Duration(0, 500_000_000)) == Timespec(0, NanosPerSecond)
    ensures Less(Timespec(0, NanosPerSecond), Timespec(1, 0))
    ensures Nanoseconds(Timespec(0, NanosPerSecond)) == Nanoseconds(Timespec(1, 0))
  {
    assert Carry(0, NanosPerSecond) == Timespec(0, NanosPerSecond);
  }

  /** The deadline reached from `t0` after adding `d` to it `k` times, as a
      pacing loop does that advances its previous deadline. */
  function DeadlineAfter(t0: Timespec, d: Duration, k: nat): Timespec
  {
    if k == 0 then t0 else Sum(DeadlineAfter(t0, d, k - 1), d)
  }

  /** Adding `d` to a deadline `k` times moves it by exactly `k * d`: no drift. */
  lemma {:induction false} DeadlineAfterNanoseconds(t0: Timespec, d: Duration, k: nat)
    ensures Nanoseconds(DeadlineAfter(t0, d, k)) == Nanoseconds(t0) + k * DurationNanos(d)
  {
    if k > 0 {
      DeadlineAfterNanoseconds(t0, d, k - 1);
      assert (k - 1) * DurationNanos(d) + DurationNanos(d) == k * DurationNanos(d);
    }
  }

  // ---------------------------------------------------------------- the Time object

  /** `timg::Time`: a point on the monotonic clock, updated in place by `Add`. */
  class Time {
    var sec: int
    var nsec: int

    function Stamp(): Timespec
      reads this
    {
      Timespec(sec, nsec)
    }

    /** `Time()` / `Time::Now()`: the clock reading is a parameter. */
    constructor (reading: Timespec)
      ensures Stamp() == reading
    {
      sec, nsec := reading.sec, reading.nsec;
    }

    /** The copy constructor. */
    constructor Copy(other: Time)
      ensures Stamp() == other.Stamp()
    {
      sec, nsec := other.sec, other.nsec;
    }

    /** `Time::Add(d)`: add both parts, then carry whole seconds out of the
        nanoseconds while they exceed one second. */
    method Add(d: Duration)
      modifies this
      ensures Stamp() == Sum(old(Stamp()), d)
      ensures Nanoseconds(Stamp()) == Nanoseconds(old(Stamp())) + DurationNanos(d)
      ensures nsec <= NanosPerSecond
    {
      sec := sec + d.sec;
      nsec := nsec + d.nsec;
      while nsec > NanosPerSecond
        invariant Carry(sec, nsec) == Sum(old(Stamp()), d)
        decreases nsec
      {
        nsec := nsec - NanosPerSecond;
        sec := sec + 1;
      }
    }
  }

  /** `operator+(t, d)`: copies `t`, adds `d` to the copy, leaves `t` alone. */
  method Plus(t: Time, d: Duration) returns (result: Time)
    ensures fresh(result) && unchanged(t)
    ensures result.Stamp() == Sum(t.Stamp(), d)
  {
    result := new Time.Copy(t);
    result.Add(d);
  }
}
