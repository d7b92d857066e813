/**
 The memory of a continuous flow: one ring of sample words per channel, back to back, and the two byte
 ranges per channel that stand for a range of sample indices.
 */
module ContinuousRing {
  import Arith
  import opened BitString
  import opened DiscreteFlow
  import opened Delimited

  datatype Shape = Shape(channels: nat, length: nat, wordSize: nat) {
    predicate Valid() {
      length > 0 && wordSize > 0 && Size(this) < Arith.TWO_TO_64
    }
  }

  function Size(sh: Shape): nat {
    SizeOf(sh, Arith.Times(sh.length, sh.channels))
  }

  /** The bytes of `n` words. */
  function SizeOf(sh: Shape, n: nat): nat {
    Arith.Times(sh.wordSize, n)
  }

  /** The bytes of the channels before channel `c`. */
  function ChannelBase(sh: Shape, c: nat): nat {
    SizeOf(sh, Arith.Times(sh.length, c))
  }

  /** Where the word in slot `o` of channel `c` starts. */
  function Address(sh: Shape, c: nat, o: nat): nat {
    SizeOf(sh, Arith.Times(sh.length, c) + o)
  }

  lemma {:induction false} AddressBound(sh: Shape, c: nat, o: nat)
    requires c < sh.channels && o < sh.length
    ensures Address(sh, c, o) + sh.wordSize <= Size(sh)
  {
    Arith.TimesNext(sh.length, c);
    Arith.TimesMono(sh.length, c + 1, sh.channels);
    var k := Arith.Times(sh.length, c) + o;
    Arith.TimesNext(sh.wordSize, k);
    Arith.TimesMono(sh.wordSize, k + 1, Arith.Times(sh.length, sh.channels));
  }

  lemma {:induction false} AddressesInOrder(sh: Shape, c: nat, o: nat, c': nat, o': nat)
    requires o < sh.length && (c < c' || (c == c' && o < o'))
    ensures Address(sh, c, o) + sh.wordSize <= Address(sh, c', o')
  {
    var k, k' := Arith.Times(sh.length, c) + o, Arith.Times(sh.length, c') + o';
    if c < c' {
      Arith.TimesNext(sh.length, c);
      Arith.TimesMono(sh.length, c + 1, c');
    }
    Arith.TimesNext(sh.wordSize, k);
    Arith.TimesMono(sh.wordSize, k + 1, k');
  }

  lemma {:induction false} AddressesApart(sh: Shape, c: nat, o: nat, c': nat, o': nat)
    requires o < sh.length && o' < sh.length && (c != c' || o != o')
    ensures var a, b := Address(sh, c, o), Address(sh, c', o'); a + sh.wordSize <= b || b + sh.wordSize <= a
  {
    if c < c' || (c == c' && o < o') {
      AddressesInOrder(sh, c, o, c', o');
    } else {
      AddressesInOrder(sh, c', o', c, o);
    }
  }

  /** The word of channel `c` at index `j`. */
  function Word(sh: Shape, mem: Bytes, c: nat, j: int): (w: Bytes)
    requires sh.Valid() && |mem| == Size(sh) && c < sh.channels
    ensures |w| == sh.wordSize
  {
    var o := Slot(j, sh.length);
    AddressBound(sh, c, o);
    var a := Address(sh, c, o);
    mem[a..a + sh.wordSize]
  }

  function Splice(mem: Bytes, at: nat, w: Bytes): (r: Bytes)
    requires at + |w| <= |mem|
    ensures |r| == |mem|
  {
    mem[..at] + w + mem[at + |w|..]
  }

  /** Writing one word changes that word and no other word less than one ring away. */
  lemma {:induction false} WordAfterSplice(sh: Shape, mem: Bytes, c: nat, j: int, w: Bytes, c': nat, j': int)
    requires sh.Valid() && |mem| == Size(sh) && c < sh.channels && c' < sh.channels && |w| == sh.wordSize
    requires j - sh.length < j' < j + sh.length
    requires Address(sh, c, Slot(j, sh.length)) + |w| <= |mem|
    ensures Word(sh, Splice(mem, Address(sh, c, Slot(j, sh.length)), w), c', j') ==
            if c' == c && j' == j then w else Word(sh, mem, c', j')
  {
    var o, o' := Slot(j, sh.length), Slot(j', sh.length);
    var a, b := Address(sh, c, o), Address(sh, c', o');
    AddressBound(sh, c', o');
    var mem' := Splice(mem, a, w);
    if c' != c || j' != j {
      if j < j' {
        SlotsDiffer(j, j', sh.length);
      } else if j' < j {
        SlotsDiffer(j', j, sh.length);
      }
      AddressesApart(sh, c, o, c', o');
      SpliceElsewhere(mem, a, w, b, sh.wordSize);
    }
  }

  lemma {:induction false} SpliceElsewhere(mem: Bytes, a: nat, w: Bytes, b: nat, n: nat)
    requires a + |w| <= |mem| && b + n <= |mem| && (a + |w| <= b || b + n <= a)
    ensures Splice(mem, a, w)[b..b + n] == mem[b..b + n]
  {
  }

  // --- Frames: one word of every channel ---------------------------------------------------------

  /** The words of the first `n` channels at index `j`. */
  function FramePart(sh: Shape, mem: Bytes, j: int, n: nat): Bytes
    requires sh.Valid() && |mem| == Size(sh) && n <= sh.channels
    decreases n, 1, |mem|
  {
    if n == 0 then [] else FramePartStep(sh, mem, j, n)
  }

  function FramePartStep(sh: Shape, mem: Bytes, j: int, n: nat): Bytes
    requires sh.Valid() && |mem| == Size(sh) && 0 < n <= sh.channels
    decreases n, 0, |mem|
  {
    FramePart(sh, mem, j, n - 1) + Word(sh, mem, n - 1, j)
  }

  lemma {:induction false} FramePartNext(sh: Shape, mem: Bytes, j: int, n: nat)
    requires sh.Valid() && |mem| == Size(sh) && n < sh.channels
    ensures FramePart(sh, mem, j, n + 1) == FramePart(sh, mem, j, n) + Word(sh, mem, n, j)
  {
  }

  function Frame(sh: Shape, mem: Bytes, j: int): Bytes
    requires sh.Valid() && |mem| == Size(sh)
  {
    FramePart(sh, mem, j, sh.channels)
  }

  /** The `n` frames from index `first` on. */
  function Frames(sh: Shape, mem: Bytes, first: int, n: nat): (fs: seq<Bytes>)
    requires sh.Valid() && |mem| == Size(sh)
    ensures |fs| == n && forall k | 0 <= k < n :: fs[k] == Frame(sh, mem, first + k)
    decreases n, 1, |mem|
  {
    if n == 0 then [] else FramesStep(sh, mem, first, n)
  }

  function FramesStep(sh: Shape, mem: Bytes, first: int, n: nat): (fs: seq<Bytes>)
    requires sh.Valid() && |mem| == Size(sh) && n > 0
    ensures |fs| == n && forall k | 0 <= k < n :: fs[k] == Frame(sh, mem, first + k)
    decreases n, 0, |mem|
  {
    Frames(sh, mem, first, n - 1) + [Frame(sh, mem, first + n - 1)]
  }

  /** The two memories agree on every word with an index in `[from, to)`. */
  ghost predicate Agree(sh: Shape, mem: Bytes, mem': Bytes, from: int, to: int)
    requires sh.Valid() && |mem| == |mem'| == Size(sh)
  {
    forall c: nat, j: int | c < sh.channels && from <= j < to :: Word(sh, mem', c, j) == Word(sh, mem, c, j)
  }

  lemma {:induction false} FrameUnchanged(sh: Shape, mem: Bytes, mem': Bytes, from: int, to: int, j: int, n: nat)
    requires sh.Valid() && |mem| == |mem'| == Size(sh) && n <= sh.channels
    requires Agree(sh, mem, mem', from, to) && from <= j < to
    ensures FramePart(sh, mem', j, n) == FramePart(sh, mem, j, n)
    decreases n
  {
    if n > 0 {
      FrameUnchanged(sh, mem, mem', from, to, j, n - 1);
      FramePartNext(sh, mem, j, n - 1);
      FramePartNext(sh, mem', j, n - 1);
    }
  }

  // --- Ranges of indices as fragments ------------------------------------------------------------

  /** What a caller gets: two byte ranges of the first channel, and how to reach the other channels. */
  datatype Slice = Slice(pointer0: nat, size0: nat, pointer1: nat, size1: nat, stride: nat, count: nat)

  /** The `count` samples before `index`, in the unsigned 64-bit arithmetic of the source. */
  function SliceFor(sh: Shape, index: nat, count: nat): Slice
    requires sh.Valid()
  {
    var startOffset := Slot((index + sh.length - count) % Arith.TWO_TO_64, sh.length);
    var endOffset := Slot(index, sh.length);
    var firstLength := if startOffset < endOffset then count else sh.length - startOffset;
    var secondLength := (count - firstLength) % Arith.TWO_TO_64;
    Slice(SizeOf(sh, startOffset), SizeOf(sh, firstLength) % Arith.TWO_TO_64,
          0, SizeOf(sh, secondLength) % Arith.TWO_TO_64, SizeOf(sh, sh.length), sh.channels)
  }

  /** How many of the samples lie before the end of the ring. */
  function BeforeEnd(sh: Shape, index: nat, count: nat): (n: nat)
    requires sh.Valid()
    ensures n <= count
  {
    var o := Slot(index - count, sh.length);
    if o + count <= sh.length then count else sh.length - o
  }

  lemma {:induction false} NextSlot(first: int, i: nat, n: nat)
    requires n > 0 && i <= n
    ensures Slot(first + i, n) == Slot(first, n) + i - (if Slot(first, n) + i < n then 0 else n)
  {
    var q, o := first / n, first % n;
    Arith.DivMod(first, n);
    Arith.MulDistr(n, q, 1);
    if o + i < n {
      Arith.QuotientUnique(first + i, n, q, o + i);
    } else {
      Arith.QuotientUnique(first + i, n, q + 1, o + i - n);
    }
  }

  /** The two lengths the source computes. */
  lemma {:induction false} Lengths(n: nat, index: nat, count: nat)
    requires 1 <= count <= n / 2 && index + n < Arith.TWO_TO_64
    ensures var o, start := Slot(index - count, n), Slot((index + n - count) % Arith.TWO_TO_64, n);
      start == o && (start < Slot(index, n) <==> o + count < n) && (o + count == n ==> n - o == count)
  {
    assert (index + n - count) % Arith.TWO_TO_64 == index - count + n;
    NextSlot(index - count, n, n);
    NextSlot(index - count, count, n);
  }

  lemma {:induction false} SizeFits(sh: Shape, n: nat)
    requires sh.Valid() && sh.channels > 0 && n <= sh.length
    ensures SizeOf(sh, n) % Arith.TWO_TO_64 == SizeOf(sh, n)
  {
    Arith.TimesOne(sh.length);
    Arith.TimesMono(sh.length, 1, sh.channels);
    Arith.TimesMono(sh.wordSize, n, Arith.Times(sh.length, sh.channels));
  }

  /** The fragments of `count` words, `n` of them from slot `o` to the end of the ring or short of it. */
  function Parts(sh: Shape, o: nat, n: nat, count: nat): Slice
    requires n <= count
  {
    Slice(SizeOf(sh, o), SizeOf(sh, n), 0, SizeOf(sh, count - n), SizeOf(sh, sh.length), sh.channels)
  }

  /** The fragments have the lengths they should have: what fits before the end of the ring, and the rest. */
  lemma {:induction false} SliceParts(sh: Shape, index: nat, count: nat)
    requires sh.Valid() && sh.channels > 0 && 1 <= count <= sh.length / 2 && index + sh.length < Arith.TWO_TO_64
    ensures var n := BeforeEnd(sh, index, count);
      SliceFor(sh, index, count) == Parts(sh, Slot(index - count, sh.length), n, count)
  {
    var o, n := Slot(index - count, sh.length), BeforeEnd(sh, index, count);
    Lengths(sh.length, index, count);
    assert (count - n) % Arith.TWO_TO_64 == count - n;
    SizeFits(sh, n);
    SizeFits(sh, count - n);
  }

  /** The first byte of the i-th word of channel `c`, in whichever of the two fragments it lies. */
  predicate Reaches(sh: Shape, s: Slice, first: int, c: nat, i: nat)
    requires sh.Valid()
  {
    var at, a, base := SizeOf(sh, i), Address(sh, c, Slot(first + i, sh.length)), ChannelBase(sh, c);
    if at + sh.wordSize <= s.size0 then a == s.pointer0 + base + at
    else s.size0 <= at && at + sh.wordSize <= s.size0 + s.size1 && a == s.pointer1 + base + (at - s.size0)
  }

  /** The fragments stay in the memory and hold, word for word, the `count` samples from index `first` on. */
  ghost predicate Planes(sh: Shape, s: Slice, first: int, count: nat)
    requires sh.Valid()
  {
    && s.count == sh.channels && s.stride == SizeOf(sh, sh.length)
    && s.size0 + s.size1 == SizeOf(sh, count)
    && s.pointer0 + s.size0 <= s.stride && s.pointer1 + s.size1 <= s.stride
    && forall c, i | 0 <= c < sh.channels && 0 <= i < count :: Reaches(sh, s, first, c, i)
  }

  lemma {:induction false} PartsReach(sh: Shape, first: int, n: nat, count: nat, c: nat, i: nat)
    requires sh.Valid() && i < count <= sh.length
    requires n == if Slot(first, sh.length) + count <= sh.length then count else sh.length - Slot(first, sh.length)
    ensures Reaches(sh, Parts(sh, Slot(first, sh.length), n, count), first, c, i)
  {
    var o, j := Slot(first, sh.length), Slot(first + i, sh.length);
    NextSlot(first, i, sh.length);
    Arith.TimesAdd(sh.wordSize, Arith.Times(sh.length, c), j);
    Arith.TimesNext(sh.wordSize, i);
    if i < n {
      assert j == o + i;
      Arith.TimesMono(sh.wordSize, i + 1, n);
      Arith.TimesAdd(sh.wordSize, o, i);
    } else {
      assert j == i - n;
      Arith.TimesMono(sh.wordSize, n, i);
      Arith.TimesMono(sh.wordSize, i + 1, count);
      Arith.TimesAdd(sh.wordSize, n, count - n);
      Arith.TimesAdd(sh.wordSize, n, i - n);
    }
  }

  lemma {:induction false} PartsPlanes(sh: Shape, first: int, n: nat, count: nat)
    requires sh.Valid() && count <= sh.length
    requires n == if Slot(first, sh.length) + count <= sh.length then count else sh.length - Slot(first, sh.length)
    ensures Planes(sh, Parts(sh, Slot(first, sh.length), n, count), first, count)
  {
    var o := Slot(first, sh.length);
    Arith.TimesAdd(sh.wordSize, n, count - n);
    Arith.TimesAdd(sh.wordSize, o, n);
    Arith.TimesMono(sh.wordSize, o + n, sh.length);
    Arith.TimesMono(sh.wordSize, count - n, sh.length);
    forall c, i | 0 <= c < sh.channels && 0 <= i < count
      ensures Reaches(sh, Parts(sh, o, n, count), first, c, i)
    {
      PartsReach(sh, first, n, count, c, i);
    }
  }

  /** What the source hands out for at least one sample are such fragments. */
  lemma {:induction false} SlicePlanes(sh: Shape, index: nat, count: nat)
    requires sh.Valid() && sh.channels > 0 && 1 <= count <= sh.length / 2 && index + sh.length < Arith.TWO_TO_64
    ensures Planes(sh, SliceFor(sh, index, count), index - count, count)
  {
    SliceParts(sh, index, count);
    PartsPlanes(sh, index - count, BeforeEnd(sh, index, count), count);
  }

  /** The stride takes a pointer from the first channel to any other, and not past the memory. */
  lemma {:induction false} StrideReaches(sh: Shape, c: nat)
    ensures SizeOf(sh, sh.length) * c == ChannelBase(sh, c)
    ensures c < sh.channels ==> ChannelBase(sh, c) + SizeOf(sh, sh.length) <= Size(sh)
    decreases c
  {
    var l := sh.length;
    Arith.TimesIs(sh.wordSize, l);
    Arith.TimesIs(l, c);
    Arith.TimesIs(sh.wordSize, Arith.Times(l, c));
    Arith.MulAssoc(sh.wordSize, l, c);
    if c < sh.channels {
      Arith.TimesNext(l, c);
      Arith.TimesMono(l, c + 1, sh.channels);
      Arith.TimesAdd(sh.wordSize, Arith.Times(l, c), l);
      Arith.TimesMono(sh.wordSize, Arith.Times(l, c + 1), Arith.Times(l, sh.channels));
    }
  }

  /** With the window of half a ring the sizes add up exactly when at least one sample is asked for. */
  lemma {:induction false} SliceCovers(sh: Shape, index: nat, count: nat)
    requires sh.Valid() && sh.channels > 0 && count <= sh.length / 2 && index + sh.length < Arith.TWO_TO_64
    ensures var s := SliceFor(sh, index, count); s.size0 + s.size1 == SizeOf(sh, count) <==> count >= 1
  {
    if count >= 1 {
      SliceParts(sh, index, count);
      Arith.TimesAdd(sh.wordSize, BeforeEnd(sh, index, count), count - BeforeEnd(sh, index, count));
    } else {
      EmptySlice(sh, index);
    }
  }

  /** A whole ring later the slot is the same, in 64-bit arithmetic too. */
  lemma {:induction false} SlotAround(n: nat, index: nat)
    requires n > 0 && index + n < Arith.TWO_TO_64
    ensures Slot((index + n) % Arith.TWO_TO_64, n) == Slot(index, n)
  {
    assert (index + n) % Arith.TWO_TO_64 == index + n;
    NextSlot(index, n, n);
  }

  lemma {:induction false} SizeGrows(sh: Shape, n: nat)
    requires sh.Valid() && n > 0
    ensures SizeOf(sh, n) > 0
  {
    Arith.TimesOne(sh.wordSize);
    Arith.TimesMono(sh.wordSize, 1, n);
  }

  /** Asked for no sample, the fragments still hold everything up to the end of the ring. */
  lemma {:induction false} EmptySlice(sh: Shape, index: nat)
    requires sh.Valid() && sh.channels > 0 && index + sh.length < Arith.TWO_TO_64
    ensures SliceFor(sh, index, 0).size0 == SizeOf(sh, sh.length - Slot(index, sh.length)) > 0
  {
    var rest := sh.length - Slot(index, sh.length);
    SlotAround(sh.length, index);
    assert SliceFor(sh, index, 0).size0 == SizeOf(sh, rest) % Arith.TWO_TO_64;
    SizeFits(sh, rest);
    SizeGrows(sh, rest);
  }

  // --- The windows of readers and of the writer --------------------------------------------------

  /** A read of the `count` samples before `index`. */
  function RangeStatus(head: nat, length: nat, index: nat, count: nat): Status {
    var minIndex := if head >= length / 2 then head - length / 2 else 0;
    if index > head then TooEarly
    else if index >= minIndex && index - minIndex >= count then StatusOk
    else TooLate
  }

  /** A read is granted exactly when the whole range lies in the half ring that ends at the head. */
  lemma {:induction false} Granted(head: nat, length: nat, index: nat, count: nat)
    ensures RangeStatus(head, length, index, count) == StatusOk <==>
            0 <= index - count && head - length / 2 <= index - count && index <= head
  {
  }

  /** Each answer in plain numbers. */
  lemma {:induction false} RangeAnswers(head: nat, length: nat, index: nat, count: nat)
    ensures var status := RangeStatus(head, length, index, count);
      && (status == TooEarly <==> index > head)
      && (status == StatusOk <==> index <= head && count <= index && head <= index - count + length / 2)
      && (status == TooLate <==> index <= head && (count > index || head > index - count + length / 2))
  {
  }

  /** No slot of the batch the writer holds open is a slot of any range a reader can be granted. */
  lemma {:induction false} WindowsDisjoint(head: nat, length: nat, openCount: nat, index: nat, count: nat, i: nat,
                                           j: nat)
    requires length > 0 && openCount <= length / 2 && RangeStatus(head, length, index, count) == StatusOk
    requires head <= i < head + openCount && index - count <= j < index
    ensures Slot(i, length) != Slot(j, length)
  {
    SlotsDiffer(j, i, length);
  }
}
