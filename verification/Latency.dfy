/**
 The correction the sinks make when a buffer comes late: more latency, in whole samples or grains, and a
 fixed cushion; and exactly which rates it works for.
 */
module Latency {
  import Arith
  import opened IndexConversion

  const CUSHION: nat := 5_000_000

  /** The periods in `ns` nanoseconds, rounded down. */
  function WholePeriods(rate: Rational, ns: nat): nat
    requires rate.Positive()
  {
    Arith.NaturalQuotient(ns, rate.numerator, 0, rate.Unit());
    ns * rate.numerator / rate.Unit()
  }

  /** With `latency` so far, the correction makes up for being `late`. */
  predicate CatchesUp(rate: Rational, latency: nat, late: nat)
    requires rate.Positive()
  {
    Duration(rate, latency + WholePeriods(rate, late)) + CUSHION >= Duration(rate, latency) + late
  }

  /** A period exceeds the cushion by no more than the fraction of a nanosecond that periods are multiples of. */
  predicate FastEnough(rate: Rational)
    requires rate.Positive()
  {
    rate.Unit() <= CUSHION * rate.numerator + Gcd(rate.Unit(), rate.numerator)
  }

  // --- Greatest common divisors ------------------------------------------------------------------

  function Gcd(a: nat, b: nat): (g: nat)
    requires a > 0
    ensures g > 0
    decreases b
  {
    if b == 0 then a else Gcd(b, a % b)
  }

  /** The divisor divides both numbers, and some combination of them is the divisor: there is no greater one. */
  lemma {:induction false} GcdCombines(a: nat, b: nat) returns (u: nat, v: nat, s: int, t: int)
    requires a > 0
    ensures a == Gcd(a, b) * u && b == Gcd(a, b) * v
    ensures s * u + t * v == 1
    decreases b
  {
    if b == 0 {
      u, v, s, t := 1, 0, 1, 0;
    } else {
      var g, q := Gcd(a, b), a / b;
      var u', v', s', t' := GcdCombines(b, a % b);
      Arith.DivMod(a, b);
      Arith.NaturalQuotient(1, a, 0, b);
      u, v, s, t := q * u' + v', u', t', s' - q * t';
      EuclidStep(g, q, u', v', s', t');
    }
  }

  lemma {:induction false} EuclidStep(g: nat, q: nat, u: nat, v: nat, s: int, t: int)
    requires s * u + t * v == 1
    ensures g * (q * u + v) == (g * u) * q + g * v
    ensures t * (q * u + v) + (s - q * t) * u == 1
  {
    Arith.MulDistr(g, q * u, v);
    Arith.MulAssoc(g, u, q);
    Arith.MulComm(q, u);
    Arith.MulDistr(t, q * u, v);
    Arith.MulComm(q, t);
    Arith.MulAssoc(t, q, u);
    Arith.MulDistr(u, s, q * t);
    Arith.MulComm(u, s - q * t);
    Arith.MulComm(u, s);
    Arith.MulComm(u, q * t);
  }

  // --- On a reduced rate of `v` periods per `u` nanoseconds ----------------------------------------

  lemma {:induction false} Reduced(a: nat, g: nat, u: nat, v: nat)
    requires g > 0 && v > 0
    ensures g * v > 0 && a * (g * u) / (g * v) == a * u / v
  {
    var q, r := a * u / v, a * u % v;
    Arith.DivMod(a * u, v);
    Arith.MulMono(g, 1, v);
    Arith.MulAssoc(a, g, u);
    Arith.MulComm(a, g);
    Arith.MulAssoc(g, a, u);
    Arith.MulDistr(g, v * q, r);
    Arith.MulAssoc(g, v, q);
    Arith.MulMono(g, r + 1, v);
    Arith.MulDistr(g, r, 1);
    Arith.MulMono(g, 0, r);
    Arith.QuotientUnique(a * (g * u), g * v, q, g * r);
  }

  /** What the whole periods fall short of is at most the cushion. */
  lemma {:induction false} WithinCushion(u: nat, v: nat, late: nat)
    requires u > 0 && v > 0 && u <= CUSHION * v + 1
    ensures late <= late * v / u * u / v + CUSHION
  {
    var d := late * v / u;
    var k := d * u / v;
    Arith.DivMod(late * v, u);
    Arith.MulComm(u, d);
    Arith.DivMod(d * u, v);
    Arith.MulDistr(v, k, CUSHION + 1);
    Arith.MulComm(late, v);
    if late >= k + (CUSHION + 1) {
      Arith.MulMono(v, k + (CUSHION + 1), late);
    }
  }

  /** If a period is longer than that, some delay leaves the whole periods just short of the next nanosecond. */
  lemma {:induction false} BeyondCushion(u: nat, v: nat, s: int, t: int) returns (late: nat)
    requires u > 0 && v > 0 && u > CUSHION * v + 1 && s * u + t * v == 1
    ensures late > late * v / u * u / v + CUSHION
  {
    var k, m := Inverse(u, v, s, t);
    late := m + CUSHION;
    Arith.MulDistr(v, m, CUSHION);
    Arith.MulComm(late, v);
    Arith.MulComm(k, u);
    Arith.QuotientUnique(late * v, u, k, 1 + CUSHION * v);
    Arith.MulDistr(v, m, 1);
    Arith.MulComm(m, v);
    Arith.QuotientUnique(k * u, v, m - 1, v - 1);
  }

  lemma {:induction false} Inverse(u: nat, v: nat, s: int, t: int) returns (k: nat, m: nat)
    requires u > 0 && v > 0 && s * u + t * v == 1
    ensures k * u + 1 == m * v
  {
    var w: nat := if s < 0 then -s else s;
    Arith.MulMono(w, 1, v);
    k := w * v - s;
    var m' := w * u + t;
    Arith.MulDistr(u, w * v, s);
    Arith.MulComm(u, k);
    Arith.MulComm(u, s);
    Arith.MulComm(u, w * v);
    Arith.MulAssoc(w, v, u);
    Arith.MulComm(v, u);
    Arith.MulAssoc(w, u, v);
    Arith.MulDistr(v, w * u, t);
    Arith.MulComm(v, m');
    Arith.MulComm(v, w * u);
    Arith.MulComm(v, t);
    Arith.MulMono(u, 0, k);
    if m' < 0 {
      Arith.MulMono(v, m', 0);
    }
    m := m';
  }

  // --- On the rate itself --------------------------------------------------------------------------

  /** The rate in lowest terms, in which the condition reads the same. */
  lemma {:induction false} LowestTerms(rate: Rational) returns (g: nat, u: nat, v: nat, s: int, t: int)
    requires rate.Positive()
    ensures g > 0 && u > 0 && v > 0 && rate.Unit() == g * u && rate.numerator == g * v && s * u + t * v == 1
    ensures FastEnough(rate) <==> u <= CUSHION * v + 1
  {
    g := Gcd(rate.Unit(), rate.numerator);
    u, v, s, t := GcdCombines(rate.Unit(), rate.numerator);
    assert u > 0 && v > 0;
    Scaled(g, u, v);
  }

  /** There and back through whole periods, in lowest terms. */
  lemma {:induction false} ThereAndBack(rate: Rational, g: nat, u: nat, v: nat, late: nat)
    requires rate.Positive() && g > 0 && u > 0 && v > 0 && rate.Unit() == g * u && rate.numerator == g * v
    ensures Duration(rate, WholePeriods(rate, late)) == late * v / u * u / v
  {
    Reduced(late, g, v, u);
    Reduced(WholePeriods(rate, late), g, u, v);
  }

  lemma {:induction false} Scaled(g: nat, u: nat, v: nat)
    requires g > 0
    ensures g * u <= CUSHION * (g * v) + g <==> u <= CUSHION * v + 1
  {
    Arith.MulDistr(g, CUSHION * v, 1);
    assert g * (CUSHION * v) == CUSHION * (g * v);
    if u <= CUSHION * v + 1 {
      Arith.MulMono(g, u, CUSHION * v + 1);
    } else {
      Arith.MulMono(g, CUSHION * v + 2, u);
      Arith.MulDistr(g, CUSHION * v + 1, 1);
    }
  }

  lemma {:induction false} ShortByCushion(rate: Rational, late: nat)
    requires rate.Positive() && FastEnough(rate)
    ensures late <= Duration(rate, WholePeriods(rate, late)) + CUSHION
  {
    var g, u, v, s, t := LowestTerms(rate);
    ThereAndBack(rate, g, u, v, late);
    WithinCushion(u, v, late);
  }

  lemma {:induction false} FastCatchesUp(rate: Rational, latency: nat, late: nat)
    requires rate.Positive() && FastEnough(rate)
    ensures CatchesUp(rate, latency, late)
  {
    ShortByCushion(rate, late);
    DurationsAdd(rate, latency, WholePeriods(rate, late));
  }

  lemma {:induction false} SlowStaysLate(rate: Rational) returns (late: nat)
    requires rate.Positive() && !FastEnough(rate)
    ensures late > Duration(rate, WholePeriods(rate, late)) + CUSHION
  {
    var g, u, v, s, t := LowestTerms(rate);
    late := BeyondCushion(u, v, s, t);
    ThereAndBack(rate, g, u, v, late);
  }

  /** The rates at which the correction always works are exactly those that are fast enough. */
  lemma {:induction false} CatchesUpExactly(rate: Rational)
    requires rate.Positive()
    ensures (forall latency: nat, late: nat :: CatchesUp(rate, latency, late)) <==> FastEnough(rate)
  {
    if FastEnough(rate) {
      forall latency: nat, late: nat
        ensures CatchesUp(rate, latency, late)
      {
        FastCatchesUp(rate, latency, late);
      }
    } else {
      var late := SlowStaysLate(rate);
      NoDuration(rate);
      assert !CatchesUp(rate, 0, late);
    }
  }

  lemma {:induction false} GcdBound(a: nat, b: nat)
    requires a > 0 && b > 0
    ensures Gcd(a, b) <= b
  {
    var u, v, s, t := GcdCombines(a, b);
    var g := Gcd(a, b);
    if v < 1 {
      Arith.MulMono(g, v, 0);
    }
    Arith.MulMono(g, 1, v);
  }

  /** Two hundred periods a second are enough, a hundred and ninety-nine are not. */
  lemma {:induction false} RateBounds(rate: Rational)
    requires rate.Positive()
    ensures rate.numerator >= 200 * rate.denominator ==> FastEnough(rate)
    ensures rate.numerator <= 199 * rate.denominator ==> !FastEnough(rate)
  {
    GcdBound(rate.Unit(), rate.numerator);
  }

  /** A rate in whole hertz, as every sample rate of the audio sink is, has to be 200 or more. */
  lemma {:induction false} WholeRates(n: int)
    requires Rational(n, 1).Positive()
    ensures (forall latency: nat, late: nat :: CatchesUp(Rational(n, 1), latency, late)) <==> n >= 200
  {
    CatchesUpExactly(Rational(n, 1));
    RateBounds(Rational(n, 1));
  }

  /**
   A buffer that is late by less than a period gets no more latency, so that the cushion is all that helps:
   for frame rates that is most of the period.
   */
  lemma {:induction false} LateByLessThanAPeriod(rate: Rational, latency: nat, late: nat)
    requires rate.Positive() && late * rate.numerator < rate.Unit()
    ensures CatchesUp(rate, latency, late) <==> late <= CUSHION
  {
    Arith.MulMono(late, 0, rate.numerator);
    Arith.QuotientUnique(late * rate.numerator, rate.Unit(), 0, late * rate.numerator);
  }

  // --- The correction ------------------------------------------------------------------------------

  /** What becomes of a buffer due at `base`: the latency grows by the whole periods it would be late. */
  ghost predicate Timed(rate: Rational, pts: nat, base: nat, latency: nat, latency': nat, now: nat) {
    rate.Positive() &&
    var due := base + Duration(rate, latency);
    if due < now then
      latency' == latency + WholePeriods(rate, now - due) && pts == base + Duration(rate, latency') + CUSHION
    else
      latency' == latency && pts == due
  }

  /** The periods that fit are no longer than the time they fit in, and one more would be. */
  lemma {:induction false} WholePeriodsFit(rate: Rational, late: nat)
    requires rate.Positive()
    ensures var k := WholePeriods(rate, late);
      && Duration(rate, k) <= late
      && k * rate.Unit() <= late * rate.numerator < (k + 1) * rate.Unit()
  {
    var k := WholePeriods(rate, late);
    Arith.MulDistr(rate.Unit(), k, 1);
    Arith.MulComm(rate.Unit(), k + 1);
    Arith.MulMono(late, 0, rate.numerator);
    Arith.DivMod(late * rate.numerator, rate.Unit());
    Arith.MulComm(rate.Unit(), k);
    Arith.MulComm(late, rate.numerator);
    Arith.MulDistr(rate.numerator, late, 1);
    Arith.DivBounds(k * rate.Unit(), rate.numerator, 0, late + 1);
  }

  /** When a buffer goes out: on time with the latency so far, or later with more of it. */
  method Correct(rate: Rational, base: nat, latency: nat, now: nat) returns (pts: nat, latency': nat)
    requires rate.Positive()
    ensures Timed(rate, pts, base, latency, latency', now) && latency' >= latency
    ensures FastEnough(rate) ==> pts >= now
    ensures if base + Duration(rate, latency) >= now then pts == base + Duration(rate, latency) && latency' == latency
            else base + Duration(rate, latency) + CUSHION <= pts <= now + CUSHION + 1
  {
    latency', pts := latency, base + Duration(rate, latency);
    if pts < now {
      var late := now - pts;
      if FastEnough(rate) {
        FastCatchesUp(rate, latency, late);
      }
      WholePeriodsFit(rate, late);
      DurationsAdd(rate, latency, WholePeriods(rate, late));
      latency' := latency + WholePeriods(rate, late);
      pts := base + Duration(rate, latency') + CUSHION;
    }
  }
}
