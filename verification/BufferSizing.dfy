/** How long the ring of a new continuous flow is. */
module BufferSizing {
  import Arith
  import opened IndexConversion

  const PAGE: nat := 4096

  /** Twice the history: `500'000'000` stands where a billion nanoseconds would. */
  function HistoryLength(history: nat, rate: Rational): nat
    requires rate.Positive()
  {
    Arith.NaturalQuotient(history, rate.numerator, 0, 500_000_000 * rate.denominator);
    history * rate.numerator / (500_000_000 * rate.denominator)
  }

  function PageAligned(length: nat, wordSize: nat): int
    requires wordSize == 4 || wordSize == 8
  {
    var lengthPerPage := PAGE / wordSize;
    (length + lengthPerPage - 1) / lengthPerPage * lengthPerPage
  }

  lemma {:induction false} LeastMultiple(length: nat, unit: nat, k: nat)
    requires unit > 0
    ensures var q := (length + unit - 1) / unit; q * unit >= length && (k * unit >= length ==> k * unit >= q * unit)
  {
    var q := (length + unit - 1) / unit;
    Arith.DivMod(length + unit - 1, unit);
    Arith.MulComm(q, unit);
    Arith.MulComm(k, unit);
    if k < q {
      Arith.MulMono(unit, k + 1, q);
      Arith.MulDistr(unit, k, 1);
    } else {
      Arith.MulMono(unit, q, k);
    }
  }

  lemma {:induction false} WholePages(q: int)
    ensures q * 1024 * 4 % PAGE == 0 && q * 512 * 8 % PAGE == 0
  {
  }

  lemma {:induction false} FourByteWords(length: nat, pages: nat)
    ensures var r := PageAligned(length, 4);
      r >= length && r * 4 % PAGE == 0 && (pages * 1024 >= length ==> pages * 1024 >= r)
  {
    WholePages((length + 1023) / 1024);
    LeastMultiple(length, 1024, pages);
  }

  lemma {:induction false} EightByteWords(length: nat, pages: nat)
    ensures var r := PageAligned(length, 8);
      r >= length && r * 8 % PAGE == 0 && (pages * 512 >= length ==> pages * 512 >= r)
  {
    WholePages((length + 511) / 512);
    LeastMultiple(length, 512, pages);
  }

  /** The least whole number of pages that is long enough. */
  lemma {:induction false} LeastPages(length: nat, wordSize: nat, pages: nat)
    requires wordSize == 4 || wordSize == 8
    ensures var r := PageAligned(length, wordSize);
      && r >= length && (r * wordSize) % PAGE == 0
      && (pages * (PAGE / wordSize) >= length ==> pages * (PAGE / wordSize) >= r)
  {
    if wordSize == 4 {
      FourByteWords(length, pages);
    } else {
      EightByteWords(length, pages);
    }
  }

  /** Half a ring holds every sample of the configured history. */
  lemma {:induction false} HistoryReadable(history: nat, rate: Rational, wordSize: nat)
    requires rate.Positive() && (wordSize == 4 || wordSize == 8)
    ensures PageAligned(HistoryLength(history, rate), wordSize) / 2 >= history * rate.numerator / rate.Unit()
  {
    var v, h, d := history * rate.numerator, HistoryLength(history, rate), 500_000_000 * rate.denominator;
    Arith.MulMono(history, 0, rate.numerator);
    Arith.DivTwice(v, d, 2);
    LeastPages(h, wordSize, 0);
    assert 2 * d == rate.Unit();
  }

  lemma {:induction false} AlignedBounds(length: nat, wordSize: nat)
    requires wordSize == 4 || wordSize == 8
    ensures var r := PageAligned(length, wordSize);
      length <= r < length + PAGE / wordSize && (r == 0 <==> length == 0)
  {
    if wordSize == 4 {
      Arith.DivMod(length + 1023, 1024);
    } else {
      Arith.DivMod(length + 511, 512);
    }
  }

  lemma {:induction false} WithinPage(v: int, d: int, h: int, r: int, page: int)
    requires d > 0 && d * h <= v < d * h + d && 0 <= h <= r < h + page && (r == 0 <==> h == 0)
    ensures 2 * v < (r + 1) * (2 * d)
    ensures r == 0 <==> 2 * v < 2 * d
    ensures r > 0 ==> (r - page) * (2 * d) < 2 * v
  {
    Arith.MulDistr(d, h, 1);
    Arith.MulMono(d, h + 1, r + 1);
    Arith.MulTwice(r + 1, d);
    Arith.MulComm(d, r + 1);
    if h > 0 {
      Arith.MulMono(d, 1, h);
      Arith.MulMono(d, r - page, h - 1);
      Arith.MulTwice(r - page, d);
      Arith.MulComm(d, r - page);
    }
  }

  /**
   The ring holds twice the history, but for the rounding down of the product, and no page more than that; it is
   empty exactly if the history is shorter than half a period.
   */
  lemma {:induction false} NoPageTooMany(history: nat, rate: Rational, wordSize: nat)
    requires rate.Positive() && (wordSize == 4 || wordSize == 8)
    ensures var r, twice := PageAligned(HistoryLength(history, rate), wordSize), 2 * (history * rate.numerator);
      && twice < (r + 1) * rate.Unit()
      && (r == 0 <==> twice < rate.Unit())
      && (r > 0 ==> (r - PAGE / wordSize) * rate.Unit() < twice)
  {
    var v, h, d := history * rate.numerator, HistoryLength(history, rate), 500_000_000 * rate.denominator;
    Arith.MulMono(history, 0, rate.numerator);
    Arith.DivMod(v, d);
    AlignedBounds(h, wordSize);
    WithinPage(v, d, h, PageAligned(h, wordSize), PAGE / wordSize);
    assert rate.Unit() == 2 * d;
  }
}
