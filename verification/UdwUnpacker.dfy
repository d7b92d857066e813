/** The data probe's reader of ten-bit user data words: an accumulator refilled sixteen bits at a time. */
module UdwUnpacker {
  import Arith
  import opened BitString
  import opened AncPacket
  import opened Wrappers

  const TWO_TO_25: nat := 0x200_0000

  class WordReader {
    const bytes: seq<byte>
    var offset: nat

    ghost predicate Valid()
      reads this
    {
      offset <= |bytes|
    }

    constructor (bytes: seq<byte>)
      ensures Valid() && this.bytes == bytes && offset == 0
    {
      this.bytes := bytes;
      offset := 0;
    }

    /** The next big-endian word; `None` where the source throws. */
    method Read() returns (r: Option<nat>)
      requires Valid()
      modifies this
      ensures Valid()
      ensures r.Some? <==> old(offset) + 2 <= |bytes|
      ensures r.Some? ==> offset == old(offset) + 2 && r.value < 0x1_0000
      ensures r.Some? ==> r.value == Value(Bits(bytes)[8 * old(offset)..8 * offset])
      ensures r.None? ==> offset == old(offset)
    {
      if |bytes| - offset < 2 {
        return None;
      }
      WordValue(bytes, offset);
      r := Some(0x100 * (bytes[offset] as nat) + bytes[offset + 1] as nat);
      offset := offset + 2;
    }
  }

  lemma {:induction false} WordValue(bytes: seq<byte>, i: nat)
    requires i + 2 <= |bytes|
    ensures Value(Bits(bytes)[8 * i..8 * (i + 2)]) == 0x100 * (bytes[i] as nat) + bytes[i + 1] as nat
  {
    var b := Bits(bytes);
    Widths();
    OctetBits(bytes, i);
    OctetBits(bytes, i + 1);
    assert 8 * (i + 1) == 8 * i + 8;
    assert b[8 * i..8 * (i + 2)] == BitsOf(bytes[i], 8) + BitsOf(bytes[i + 1], 8);
    ValueAppend(BitsOf(bytes[i], 8), BitsOf(bytes[i + 1], 8));
    ValueOfBits(bytes[i], 8);
    ValueOfBits(bytes[i + 1], 8);
  }

  /** `acc` is the number that the last `count` bits before byte `offset` spell. */
  ghost predicate Holding(b: seq<bool>, acc: nat, offset: nat, count: nat) {
    count <= 8 * offset <= |b| && acc == Value(b[8 * offset - count..8 * offset])
  }

  class Unpacker {
    const reader: WordReader
    var accumulatedBits: nat
    var bitCount: nat

    /** The accumulator holds exactly the bits read from the reader and not yet handed out. */
    ghost predicate Holds()
      reads this, reader
    {
      reader.Valid() && Holding(Bits(reader.bytes), accumulatedBits, reader.offset, bitCount)
    }

    ghost predicate Valid()
      reads this, reader
    {
      Holds() && bitCount <= 15
    }

    /** The bit position of the next word to hand out. */
    ghost function Pos(): nat
      requires bitCount <= 8 * reader.offset
      reads this, reader
    {
      8 * reader.offset - bitCount
    }

    constructor (reader: WordReader)
      requires reader.Valid()
      ensures Valid() && this.reader == reader && Pos() == 8 * reader.offset
    {
      this.reader := reader;
      accumulatedBits, bitCount := 0, 0;
      new;
      assert Bits(reader.bytes)[8 * reader.offset..8 * reader.offset] == [];
    }

    /**
     Shifts words in until ten bits are held. The accumulator is an unsigned 32-bit integer: shifting
     discards what leaves it (nothing ever does: it holds at most 25 bits), and the word is or-ed into
     the sixteen zeros that the shift leaves behind.
     */
    method Refill() returns (ok: bool)
      requires Valid()
      modifies this, reader
      ensures Holds() && Pos() == old(Pos())
      ensures ok <==> old(bitCount) >= 10 || old(reader.offset) + 2 <= |reader.bytes|
      ensures ok ==> 10 <= bitCount <= 25 && accumulatedBits < TWO_TO_25
      ensures ok ==> reader.offset == old(reader.offset) + (if old(bitCount) < 10 then 2 else 0)
      ensures !ok ==> bitCount == old(bitCount) && reader.offset == old(reader.offset)
    {
      ghost var b := Bits(reader.bytes);
      HeldBound(b, accumulatedBits, reader.offset, bitCount);
      while bitCount < 10
        invariant Holds() && Pos() == old(Pos()) && accumulatedBits < TWO_TO_25
        invariant (bitCount == old(bitCount) && reader.offset == old(reader.offset))
               || (old(bitCount) < 10 <= bitCount <= 25 && reader.offset == old(reader.offset) + 2)
        decreases 25 - bitCount
      {
        ghost var at := reader.offset;
        var word := reader.Read();
        if word.None? {
          return false;
        }
        RefillTurn(b, accumulatedBits, at, bitCount, word.value);
        accumulatedBits := accumulatedBits * 0x1_0000 % Arith.TWO_TO_32 + word.value;
        bitCount := bitCount + 16;
      }
      return true;
    }

    /** The next ten bits; `None` where the source throws. */
    method Read() returns (r: Option<u16>)
      requires Valid()
      modifies this, reader
      ensures Valid()
      ensures r.Some? <==> old(bitCount) >= 10 || old(reader.offset) + 2 <= |reader.bytes|
      ensures r.Some? ==> Pos() == old(Pos()) + 10 && r.value == Word(Bits(reader.bytes), old(Pos()))
      ensures r.Some? ==> reader.offset == old(reader.offset) + (if old(bitCount) < 10 then 2 else 0)
      ensures r.None? ==> Pos() == old(Pos()) && reader.offset == old(reader.offset)
    {
      var ok := Refill();
      if !ok {
        return None;
      }
      var unit := Pow2(bitCount - 10);
      ReadTurn(Bits(reader.bytes), accumulatedBits, reader.offset, bitCount, unit);
      var value := accumulatedBits / unit % 0x400;
      bitCount, accumulatedBits := bitCount - 10, accumulatedBits % unit;
      return Some(value);
    }
  }

  lemma {:induction false} HeldBound(b: seq<bool>, acc: nat, offset: nat, count: nat)
    requires Holding(b, acc, offset, count) && count <= 25
    ensures acc < TWO_TO_25
  {
    ValueBound(b[8 * offset - count..8 * offset], count);
    Pow2Values();
    Pow2Sum(count, 25);
  }

  /** One word more. */
  lemma {:induction false} RefillTurn(b: seq<bool>, acc: nat, offset: nat, count: nat, word: nat)
    requires Holding(b, acc, offset, count) && count < 10 && 8 * offset + 16 <= |b|
    requires word == Value(b[8 * offset..8 * (offset + 2)])
    ensures Holding(b, acc * 0x1_0000 % Arith.TWO_TO_32 + word, offset + 2, count + 16)
    ensures acc * 0x1_0000 % Arith.TWO_TO_32 + word < TWO_TO_25
  {
    Refilled(b, 8 * offset - count, 8 * offset, acc, word);
  }

  /** Ten bits fewer. */
  lemma {:induction false} ReadTurn(b: seq<bool>, acc: nat, offset: nat, count: nat, unit: nat)
    requires Holding(b, acc, offset, count) && count >= 10 && unit == Pow2(count - 10)
    ensures acc / unit % 0x400 == Word(b, 8 * offset - count)
    ensures Holding(b, acc % unit, offset, count - 10)
  {
    TopTen(b, 8 * offset - count, 8 * offset, acc, unit);
  }

  lemma {:induction false} Pow2Sum(a: nat, b: nat)
    requires a <= b
    ensures Pow2(a) <= Pow2(b)
  {
    if a < b {
      Pow2Sum(a, b - 1);
    }
  }

  lemma {:induction false} Pow2Values()
    ensures Pow2(9) == 0x200 && Pow2(16) == 0x1_0000 && Pow2(25) == TWO_TO_25
  {
  }

  /** Appending a word to at most nine held bits stays within 25 bits. */
  lemma {:induction false} Refilled(b: seq<bool>, p: nat, q: nat, acc: nat, word: nat)
    requires p <= q < p + 10 && q + 16 <= |b| && acc == Value(b[p..q]) && word == Value(b[q..q + 16])
    ensures acc * 0x1_0000 % Arith.TWO_TO_32 + word == Value(b[p..q + 16]) < TWO_TO_25
  {
    Pow2Values();
    ValueBound(b[p..q], q - p);
    Pow2Sum(q - p, 9);
    assert b[p..q + 16] == b[p..q] + b[q..q + 16];
    ValueAppend(b[p..q], b[q..q + 16]);
    ValueBound(b[p..q + 16], q + 16 - p);
    Pow2Sum(q + 16 - p, 25);
  }

  /** Shifting right by all but ten bits, and masking, give the first ten bits and the others. */
  lemma {:induction false} TopTen(b: seq<bool>, p: nat, q: nat, acc: nat, unit: nat)
    requires p + 10 <= q <= |b| && acc == Value(b[p..q]) && unit == Pow2(q - p - 10)
    ensures acc / unit % 0x400 == Word(b, p) && acc % unit == Value(b[p + 10..q])
  {
    Widths();
    var x, y := b[p..p + 10], b[p + 10..q];
    assert b[p..q] == x + y;
    ValueAppend(x, y);
    ValueBound(x, 10);
    ValueBound(y, q - p - 10);
    Arith.MulComm(Value(x), unit);
    Arith.QuotientUnique(acc, unit, Value(x), Value(y));
    assert Value(x) % 0x400 == Value(x);
  }

  /** The number of sixteen-bit words that `k` ten-bit words take. */
  function WordsNeeded(k: nat): (n: nat)
    ensures 10 * k <= 16 * n < 10 * k + 16
  {
    (10 * k + 15) / 16
  }

  lemma {:induction false} NeedsIs(k: nat, words: nat)
    requires 10 * k <= 16 * words < 10 * k + 16
    ensures WordsNeeded(k) == words
  {
  }

  lemma {:induction false} MoreNeeded(k: nat, i: nat, words: nat)
    requires i < k && 16 * words < 10 * i + 10
    ensures WordsNeeded(k) > words
  {
  }

  /** Reads `k` user data words, as the probe does for each packet. */
  method ReadUserData(unpacker: Unpacker, k: nat) returns (r: Option<seq<u16>>)
    requires unpacker.Valid() && unpacker.bitCount == 0
    modifies unpacker, unpacker.reader
    ensures unpacker.Valid()
    ensures var words := unpacker.reader.bytes; var at := old(unpacker.reader.offset);
      && (r.Some? <==> at + 2 * WordsNeeded(k) <= |words|)
      && (r.Some? ==> unpacker.reader.offset == at + 2 * WordsNeeded(k))
      && (r.Some? ==> r.value == WordsAt(Bits(words), 8 * at, k))
  {
    ghost var b, at := Bits(unpacker.reader.bytes), unpacker.reader.offset;
    ghost var words := 0;
    var udw: seq<u16> := [];
    for i := 0 to k
      invariant unpacker.Valid() && unpacker.Pos() == 8 * at + 10 * i && udw == WordsAt(b, 8 * at, i)
      invariant unpacker.reader.offset == at + 2 * words && 10 * i <= 16 * words < 10 * i + 16
    {
      var v := unpacker.Read();
      if v.None? {
        MoreNeeded(k, i, words);
        return None;
      }
      words := words + if 16 * words < 10 * i + 10 then 1 else 0;
      assert WordsAt(b, 8 * at, i + 1) == udw + [v.value];
      udw := udw + [v.value];
    }
    NeedsIs(k, words);
    return Some(udw);
  }
}
