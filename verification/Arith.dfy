/** Products, quotients and remainders of variables, in small steps. */
module Arith {

  const TWO_TO_32: int := 0x1_0000_0000
  const TWO_TO_63: int := 0x8000_0000_0000_0000
  const TWO_TO_64: int := 0x1_0000_0000_0000_0000

  lemma {:induction false} MulMono(d: int, x: int, y: int)
    requires d >= 0 && x <= y
    ensures d * x <= d * y
  {
  }

  lemma {:induction false} MulDistr(d: int, x: int, y: int)
    ensures d * (x + y) == d * x + d * y
    ensures d * (x - y) == d * x - d * y
  {
  }

  /** A positive multiple is at least the factor. */
  lemma {:induction false} MulBetween(d: int, x: int)
    ensures !(0 < d * x < d)
  {
    if d > 0 {
      if x <= 0 {
        MulMono(d, x, 0);
      } else {
        MulMono(d, 1, x);
      }
    }
  }

  lemma {:induction false} DivMod(a: int, d: int)
    requires d > 0
    ensures a == d * (a / d) + a % d && 0 <= a % d < d
  {
  }

  /** Quotient and remainder are the only ones. */
  lemma {:induction false} QuotientUnique(a: int, d: int, q: int, r: int)
    requires d > 0 && a == d * q + r && 0 <= r < d
    ensures a / d == q && a % d == r
  {
    var q', r' := a / d, a % d;
    DivMod(a, d);
    if q < q' {
      MulMono(d, q + 1, q');
      MulDistr(d, q, 1);
      assert false;
    } else if q' < q {
      MulMono(d, q' + 1, q);
      MulDistr(d, q', 1);
      assert false;
    }
  }

  lemma {:induction false} DivBounds(a: int, d: int, lo: int, hi: int)
    requires d > 0
    ensures d * lo <= a ==> lo <= a / d
    ensures a < d * hi ==> a / d < hi
  {
    var q := a / d;
    DivMod(a, d);
    if d * lo <= a && q < lo {
      MulMono(d, q + 1, lo);
      MulDistr(d, q, 1);
      assert false;
    }
    if a < d * hi && hi <= q {
      MulMono(d, hi, q);
      assert false;
    }
  }

  lemma {:induction false} NaturalQuotient(a: nat, b: nat, c: nat, d: nat)
    requires d > 0
    ensures a * b >= 0 && (a * b + c) / d >= 0
  {
    MulMono(a, 0, b);
    DivBounds(a * b + c, d, 0, 0);
  }

  lemma {:induction false} DivMono(a: int, b: int, d: int)
    requires d > 0 && a <= b
    ensures a / d <= b / d
  {
    DivMod(a, d);
    DivMod(b, d);
    DivBounds(b, d, a / d, 0);
  }

  /** Dividing twice is dividing by the product. */
  lemma {:induction false} DivTwice(v: nat, a: nat, b: nat)
    requires a > 0 && b > 0
    ensures a * b > 0 && v / a / b == v / (a * b)
  {
    var h := v / a;
    var q, r, s := h / b, h % b, v % a;
    MulMono(a, 1, b);
    DivMod(v, a);
    DivMod(h, b);
    MulDistr(a, b * q, r);
    MulAssoc(a, b, q);
    MulMono(a, r + 1, b);
    MulDistr(a, r, 1);
    MulMono(a, 0, r);
    QuotientUnique(v, a * b, q, a * r + s);
  }

  lemma {:induction false} MulComm(x: int, y: int)
    ensures x * y == y * x
  {
  }

  lemma {:induction false} MulTwice(x: int, p: int)
    ensures x * (2 * p) == 2 * (x * p)
  {
  }

  lemma {:induction false} MulAssoc(x: int, y: int, z: int)
    ensures x * y * z == x * (y * z)
  {
  }

  /** `x * y`, one step at a time: proofs about sizes and addresses then stay linear. */
  function Times(x: nat, y: nat): nat
    decreases y, x, 1
  {
    if y == 0 then 0 else TimesStep(x, y)
  }

  function TimesStep(x: nat, y: nat): nat
    requires y > 0
    decreases y, x, 0
  {
    Times(x, y - 1) + x
  }

  lemma {:induction false} TimesIs(x: nat, y: nat)
    ensures Times(x, y) == x * y
    decreases y, x
  {
    if y > 0 {
      TimesIs(x, y - 1);
      TimesNext(x, y - 1);
      MulDistr(x, y - 1, 1);
    }
  }

  lemma {:induction false} TimesAdd(x: nat, a: nat, b: nat)
    ensures Times(x, a + b) == Times(x, a) + Times(x, b)
    decreases b, x
  {
    if b > 0 {
      TimesAdd(x, a, b - 1);
      TimesNext(x, a + b - 1);
      TimesNext(x, b - 1);
    }
  }

  lemma {:induction false} TimesNext(x: nat, a: nat)
    ensures Times(x, a + 1) == Times(x, a) + x
  {
    assert Times(x, a + 1) == TimesStep(x, a + 1);
  }

  lemma {:induction false} TimesOne(x: nat)
    ensures Times(x, 1) == x
  {
    TimesNext(x, 0);
  }

  lemma {:induction false} TimesMono(x: nat, a: nat, b: nat)
    requires a <= b
    ensures Times(x, a) <= Times(x, b)
  {
    TimesAdd(x, a, b - a);
  }
}
