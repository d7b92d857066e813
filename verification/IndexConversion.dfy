/** Indices and nanosecond timestamps at a rational edit rate. */
module IndexConversion {
  import Arith
  import opened DiscreteFlow

  const NANOS_PER_SECOND: int := 1_000_000_000

  datatype Rational = Rational(numerator: int, denominator: int) {
    predicate Valid() {
      -Arith.TWO_TO_63 <= numerator < Arith.TWO_TO_63 && -Arith.TWO_TO_63 <= denominator < Arith.TWO_TO_63
    }

    /** One period is `Unit() / numerator` nanoseconds. */
    function Unit(): int {
      NANOS_PER_SECOND * denominator
    }

    /** The rates that make sense: both parts positive. */
    predicate Positive() {
      0 < numerator < Arith.TWO_TO_63 && 0 < denominator < Arith.TWO_TO_63
    }
  }

  /** Division that truncates toward zero. */
  function Truncated(a: int, b: int): int
    requires b != 0
  {
    if (a >= 0) == (b > 0) then (if b > 0 then a / b else (-a) / (-b))
    else -(if b > 0 then (-a) / b else a / (-b))
  }

  function ToSigned(v: int): int {
    (v + Arith.TWO_TO_63) % Arith.TWO_TO_64 - Arith.TWO_TO_63
  }

  function TimestampToIndex(rate: Rational, timestamp: int): nat {
    if rate.denominator != 0 && rate.numerator != 0 then
      Truncated(timestamp * rate.numerator + 500_000_000 * rate.denominator, rate.Unit()) % Arith.TWO_TO_64
    else
      UNDEFINED_INDEX
  }

  function IndexToTimestamp(rate: Rational, index: nat): int {
    if rate.denominator != 0 && rate.numerator != 0 then
      ToSigned(Truncated(index * rate.denominator * NANOS_PER_SECOND + Truncated(rate.numerator, 2), rate.numerator))
    else
      0
  }

  // --- On a rate of `n` periods per `x` nanoseconds ----------------------------------------------

  /** The nearest nanosecond to `i` periods. */
  function Time(x: nat, n: nat, i: nat): nat
    requires n > 0
  {
    Arith.NaturalQuotient(i, x, n / 2, n);
    (i * x + n / 2) / n
  }

  /** The nearest whole number of periods to `t` nanoseconds. */
  function Index(x: nat, n: nat, t: nat): nat
    requires x > 0
  {
    Arith.NaturalQuotient(t, n, x / 2, x);
    (t * n + x / 2) / x
  }

  lemma {:induction false} TimeError(x: int, n: int, i: int)
    requires n > 0 && x >= 0 && i >= 0
    ensures -n < 2 * (n * Time(x, n, i) - i * x) <= n
  {
    Arith.DivMod(i * x + n / 2, n);
  }

  lemma {:induction false} IndexError(x: int, n: int, t: int)
    requires n >= 0 && t >= 0 && x > 0 && x % 2 == 0
    ensures -x < 2 * (x * Index(x, n, t) - t * n) <= x
  {
    Arith.DivMod(t * n + x / 2, x);
  }

  /** An index is the nearest one as soon as its error is small. */
  lemma {:induction false} NearestIndex(x: int, n: int, t: int, i: int)
    requires n >= 0 && t >= 0 && i >= 0 && x > 0 && x % 2 == 0 && -x <= 2 * (t * n - i * x) < x
    ensures Index(x, n, t) == i
  {
    Arith.MulComm(i, x);
    Arith.QuotientUnique(t * n + x / 2, x, i, t * n + x / 2 - i * x);
  }

  lemma {:induction false} TimeRoundTrip(x: nat, n: nat, i: nat)
    requires 0 < n <= x && x % 2 == 0
    ensures Index(x, n, Time(x, n, i)) == i
  {
    var t := Time(x, n, i);
    TimeError(x, n, i);
    Arith.MulComm(n, t);
    if n == x {
      Arith.QuotientUnique(i * x + n / 2, n, i, n / 2) by {
        Arith.MulComm(i, x);
      }
    }
    NearestIndex(x, n, t, i);
  }

  lemma {:induction false} TimeMono(x: nat, n: nat, i: nat, j: nat)
    requires n > 0 && i <= j
    ensures Time(x, n, i) <= Time(x, n, j)
  {
    Arith.MulComm(i, x);
    Arith.MulComm(j, x);
    Arith.MulMono(x, i, j);
    Arith.DivMono(i * x + n / 2, j * x + n / 2, n);
  }

  lemma {:induction false} IndexMono(x: nat, n: nat, s: nat, t: nat)
    requires x > 0 && s <= t
    ensures Index(x, n, s) <= Index(x, n, t)
  {
    Arith.MulComm(s, n);
    Arith.MulComm(t, n);
    Arith.MulMono(n, s, t);
    Arith.DivMono(s * n + x / 2, t * n + x / 2, x);
  }

  /** The time of `n` periods is exact. */
  lemma {:induction false} WholeTime(x: nat, n: nat)
    requires n > 0
    ensures Time(x, n, n) == x
  {
    Arith.QuotientUnique(n * x + n / 2, n, x, n / 2);
  }

  /** Distinct times for the indices up to `k` need `k` nanoseconds. */
  lemma {:induction false} DistinctTimes(x: nat, n: nat, k: nat)
    requires n > 0 && x > 0 && forall i | 0 <= i <= k :: Index(x, n, Time(x, n, i)) == i
    ensures Time(x, n, k) >= k
    decreases k
  {
    if k > 0 {
      DistinctTimes(x, n, k - 1);
      TimeMono(x, n, k - 1, k);
      assert Index(x, n, Time(x, n, k - 1)) == k - 1;
      assert Index(x, n, Time(x, n, k)) == k;
    }
  }

  // --- Whole nanoseconds -------------------------------------------------------------------------

  /** The nanoseconds of `k` periods, rounded down. */
  function Duration(rate: Rational, k: nat): nat
    requires rate.Positive()
  {
    Arith.NaturalQuotient(k, rate.Unit(), 0, rate.numerator);
    k * rate.Unit() / rate.numerator
  }

  /** Rounding down loses no more at once than part by part, and part by part at most a nanosecond more. */
  lemma {:induction false} DurationsAdd(rate: Rational, a: nat, b: nat)
    requires rate.Positive()
    ensures 0 <= Duration(rate, a + b) - (Duration(rate, a) + Duration(rate, b)) <= 1
  {
    var x, n := rate.Unit(), rate.numerator;
    Arith.DivMod(a * x, n);
    Arith.DivMod(b * x, n);
    var q := a * x / n + b * x / n;
    Arith.MulDistr(n, a * x / n, b * x / n);
    Arith.MulDistr(n, q, 2);
    Arith.MulComm(x, a);
    Arith.MulComm(x, b);
    Arith.MulComm(x, a + b);
    Arith.MulDistr(x, a, b);
    Arith.DivBounds((a + b) * x, n, q, q + 2);
  }

  lemma {:induction false} NoDuration(rate: Rational)
    requires rate.Positive()
    ensures Duration(rate, 0) == 0
  {
    Arith.QuotientUnique(0, rate.numerator, 0, 0);
  }

  // --- On the source's functions -----------------------------------------------------------------

  /** The timestamp of the index fits the signed 64 bits it is returned in. */
  predicate Representable(rate: Rational, index: nat)
    requires rate.Positive()
  {
    Time(rate.Unit(), rate.numerator, index) < Arith.TWO_TO_63
  }

  lemma {:induction false} IsTime(rate: Rational, index: nat)
    requires rate.Positive() && Representable(rate, index)
    ensures IndexToTimestamp(rate, index) == Time(rate.Unit(), rate.numerator, index)
  {
    var n, d := rate.numerator, rate.denominator;
    assert index * d * NANOS_PER_SECOND == index * (NANOS_PER_SECOND * d) by {
      Arith.MulAssoc(index, d, NANOS_PER_SECOND);
    }
    Arith.MulMono(index, 0, NANOS_PER_SECOND * d);
  }

  lemma {:induction false} IsIndex(rate: Rational, t: nat)
    requires rate.Positive() && Index(rate.Unit(), rate.numerator, t) < Arith.TWO_TO_64
    ensures TimestampToIndex(rate, t) == Index(rate.Unit(), rate.numerator, t)
  {
    Arith.MulMono(t, 0, rate.numerator);
  }

  lemma {:induction false} IndexBound(x: nat, n: nat, t: nat)
    requires 0 < n <= x && x % 2 == 0
    ensures Index(x, n, t) <= t + 1
  {
    Arith.MulMono(t, n, x);
    Arith.MulComm(t, x);
    Arith.MulDistr(x, t, 2);
    Arith.DivBounds(t * n + x / 2, x, 0, t + 2);
  }

  predicate Survives(rate: Rational, i: nat) {
    TimestampToIndex(rate, IndexToTimestamp(rate, i)) == i
  }

  lemma {:induction false} LongPeriodSurvives(rate: Rational, i: nat)
    requires rate.Positive() && rate.numerator <= rate.Unit() && i < Arith.TWO_TO_64 && Representable(rate, i)
    ensures Survives(rate, i)
  {
    var x, n := rate.Unit(), rate.numerator;
    var t := Time(x, n, i);
    TimeRoundTrip(x, n, i);
    assert Index(x, n, t) == i;
    IsTime(rate, i);
    IsIndex(rate, t);
  }

  /** Periods of at least a nanosecond are exactly what it takes for every index to survive the trip. */
  lemma {:induction false} RoundTrip(rate: Rational)
    requires rate.Positive()
    ensures (forall i: nat | i < Arith.TWO_TO_64 && Representable(rate, i) :: Survives(rate, i))
            <==> rate.numerator <= rate.Unit()
  {
    if rate.numerator <= rate.Unit() {
      forall i: nat | i < Arith.TWO_TO_64 && Representable(rate, i)
        ensures Survives(rate, i)
      {
        LongPeriodSurvives(rate, i);
      }
    } else {
      var i := ShortPeriodClash(rate);
      assert !Survives(rate, i);
    }
  }

  /** With shorter periods two of the first `numerator + 1` indices share a timestamp. */
  lemma {:induction false} ShortPeriodClash(rate: Rational) returns (i: nat)
    requires rate.Positive() && rate.numerator > rate.Unit()
    ensures i <= rate.numerator && Representable(rate, i) && !Survives(rate, i)
  {
    var x, n := rate.Unit(), rate.numerator;
    i := Clash(x, n);
    ClashFails(rate, i);
  }

  lemma {:induction false} ClashFails(rate: Rational, i: nat)
    requires rate.Positive() && rate.numerator > rate.Unit()
    requires var x, n := rate.Unit(), rate.numerator; Time(x, n, i) <= x && Index(x, n, Time(x, n, i)) != i
    ensures Representable(rate, i) && !Survives(rate, i)
  {
    var x, n := rate.Unit(), rate.numerator;
    var t := Time(x, n, i);
    IsTime(rate, i);
    IndexOfEarly(x, n, t);
    IsIndex(rate, t);
  }

  lemma {:induction false} Clash(x: nat, n: nat) returns (i: nat)
    requires 0 < x < n
    ensures i <= n && Time(x, n, i) <= x && Index(x, n, Time(x, n, i)) != i
  {
    WholeTime(x, n);
    if forall i | 0 <= i <= n :: Index(x, n, Time(x, n, i)) == i {
      DistinctTimes(x, n, n);
      assert false;
    }
    i :| 0 <= i <= n && Index(x, n, Time(x, n, i)) != i;
    TimeMono(x, n, i, n);
  }

  lemma {:induction false} IndexOfEarly(x: nat, n: nat, t: nat)
    requires 0 < x < n && t <= x
    ensures Index(x, n, t) <= n
  {
    IndexMono(x, n, t, x);
    Arith.QuotientUnique(x * n + x / 2, x, n, x / 2);
  }

  /** Nothing is lost on the way to an index. */
  lemma {:induction false} IndexInRange(rate: Rational, t: nat)
    requires rate.Positive() && rate.numerator <= rate.Unit() && t < Arith.TWO_TO_63
    ensures TimestampToIndex(rate, t) == Index(rate.Unit(), rate.numerator, t)
  {
    IndexBound(rate.Unit(), rate.numerator, t);
    IsIndex(rate, t);
  }

  lemma {:induction false} LaterIndexLaterTime(rate: Rational, i: nat, j: nat)
    requires rate.Positive() && i <= j && Representable(rate, j)
    ensures Representable(rate, i) && IndexToTimestamp(rate, i) <= IndexToTimestamp(rate, j)
  {
    TimeMono(rate.Unit(), rate.numerator, i, j);
    IsTime(rate, i);
    IsTime(rate, j);
  }

  lemma {:induction false} LaterTimeLaterIndex(rate: Rational, s: nat, t: nat)
    requires rate.Positive() && rate.numerator <= rate.Unit() && s <= t < Arith.TWO_TO_63
    ensures TimestampToIndex(rate, s) <= TimestampToIndex(rate, t)
  {
    IndexMono(rate.Unit(), rate.numerator, s, t);
    IndexInRange(rate, s);
    IndexInRange(rate, t);
  }

  /** A time moved to that of its nearest index. */
  function Snap(rate: Rational, t: nat): int {
    IndexToTimestamp(rate, TimestampToIndex(rate, t))
  }

  /** From a time to the time of its nearest index. */
  lemma {:induction false} SnapError(x: int, n: int, t: int)
    requires x > 0 && n > 0 && t >= 0 && x % 2 == 0
    ensures -(x + n) <= 2 * (n * (Time(x, n, Index(x, n, t)) - t)) <= x + n
  {
    var i := Index(x, n, t);
    TimeError(x, n, i);
    IndexError(x, n, t);
    Arith.MulComm(t, n);
    Arith.MulComm(i, x);
    Arith.MulDistr(n, Time(x, n, i), t);
  }

  lemma {:induction false} SnapIs(rate: Rational, t: nat)
    requires rate.Positive() && rate.numerator <= rate.Unit()
    requires t < Arith.TWO_TO_63 && Representable(rate, TimestampToIndex(rate, t))
    ensures Snap(rate, t) == Time(rate.Unit(), rate.numerator, Index(rate.Unit(), rate.numerator, t))
  {
    IndexInRange(rate, t);
    IsTime(rate, TimestampToIndex(rate, t));
  }

  lemma {:induction false} SnapsOnce(rate: Rational, i: nat)
    requires rate.Positive() && rate.numerator <= rate.Unit() && i < Arith.TWO_TO_64 && Representable(rate, i)
    ensures var s := IndexToTimestamp(rate, i); s >= 0 && Snap(rate, s) == s
  {
    IsTime(rate, i);
    LongPeriodSurvives(rate, i);
  }

  /** Snapping moves a time by at most half a period and half a nanosecond, and once is enough. */
  lemma {:induction false} Snapping(rate: Rational, t: nat)
    requires rate.Positive() && rate.numerator <= rate.Unit()
    requires t < Arith.TWO_TO_63 && Representable(rate, TimestampToIndex(rate, t))
    ensures var most := rate.Unit() + rate.numerator; -most <= 2 * (rate.numerator * (Snap(rate, t) - t)) <= most
    ensures Snap(rate, t) >= 0 && Snap(rate, Snap(rate, t)) == Snap(rate, t)
  {
    SnapIs(rate, t);
    SnapError(rate.Unit(), rate.numerator, t);
    SnapsOnce(rate, TimestampToIndex(rate, t));
  }

  /** The distance between the times of two indices is within a nanosecond of that many periods. */
  lemma {:induction false} Spacing(rate: Rational, i: nat, k: nat)
    requires rate.Positive() && Representable(rate, i + k) && Representable(rate, i)
    ensures var x, n := rate.Unit(), rate.numerator;
      -n < n * (IndexToTimestamp(rate, i + k) - IndexToTimestamp(rate, i)) - x * k < n
  {
    var x, n := rate.Unit(), rate.numerator;
    IsTime(rate, i);
    IsTime(rate, i + k);
    TimeError(x, n, i);
    TimeError(x, n, i + k);
    Arith.MulDistr(n, Time(x, n, i + k), Time(x, n, i));
    Arith.MulDistr(x, i, k);
    Arith.MulComm(i, x);
    Arith.MulComm(i + k, x);
  }

  /**
   Whole periods later, rounded down to nanoseconds, is as many indices later, or one fewer if what rounding
   takes away is more than what `t` is past the middle before its index.
   */
  lemma {:induction false} LaterByPeriods(rate: Rational, t: nat, k: nat)
    requires rate.Positive() && rate.numerator <= rate.Unit() && t + Duration(rate, k) < Arith.TWO_TO_63
    ensures TimestampToIndex(rate, t + Duration(rate, k)) ==
            TimestampToIndex(rate, t) + k - if RoundsOff(rate, t, k) then 1 else 0
  {
    var x, n, i := rate.Unit(), rate.numerator, TimestampToIndex(rate, t);
    IndexInRange(rate, t);
    IndexInRange(rate, t + Duration(rate, k));
    LaterIndex(x, n, t, k, Duration(rate, k));
  }

  predicate RoundsOff(rate: Rational, t: nat, k: nat)
    requires rate.Positive()
  {
    k * rate.Unit() % rate.numerator > (t * rate.numerator + rate.Unit() / 2) % rate.Unit()
  }

  lemma {:induction false} LaterIndex(x: int, n: int, t: int, k: int, d: int)
    requires 0 < n <= x && t >= 0 && k >= 0 && d >= 0 && d == k * x / n
    ensures Index(x, n, t + d) == Index(x, n, t) + k - if k * x % n > (t * n + x / 2) % x then 1 else 0
  {
    var i, r, off := Index(x, n, t), (t * n + x / 2) % x, k * x % n;
    Arith.DivMod(t * n + x / 2, x);
    Arith.DivMod(k * x, n);
    Arith.MulComm(t, n);
    Arith.MulComm(d, n);
    Arith.MulComm(k, x);
    Arith.MulDistr(n, t, d);
    Arith.MulComm(t + d, n);
    Arith.MulDistr(x, i, k);
    Arith.MulDistr(x, i + k, 1);
    if off > r {
      Arith.QuotientUnique((t + d) * n + x / 2, x, i + k - 1, r - off + x);
    } else {
      Arith.QuotientUnique((t + d) * n + x / 2, x, i + k, r - off);
    }
  }

  /** Every index but the first has a time of its own: the public function never calls it undefined. */
  lemma {:induction false} NeverUndefined(rate: Rational, i: nat)
    requires rate.Positive() && rate.numerator <= rate.Unit() && Representable(rate, i)
    ensures IndexToTimestamp(rate, i) == 0 <==> i == 0
  {
    var x, n := rate.Unit(), rate.numerator;
    IsTime(rate, i);
    if i == 0 {
      Arith.QuotientUnique(n / 2, n, 0, n / 2);
    } else {
      Arith.MulComm(i, x);
      Arith.MulMono(x, 1, i);
      Arith.DivBounds(i * x + n / 2, n, 1, 0);
    }
  }
}
