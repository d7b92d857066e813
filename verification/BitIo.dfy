/** The growable byte vector, the bit reader and the bit writer that the packet codec works through. */
module BitIo {
  import opened BitString
  import opened AncPacket

  /** Malformed input, or the end of the bytes in the middle of a read. */
  datatype AncError = Invalid | Io

  datatype Result<+T> = Ok(value: T) | Err(error: AncError) {
    predicate IsFailure() {
      Err?
    }

    function PropagateFailure<U>(): Result<U>
      requires Err?
    {
      Err(error)
    }

    function Extract(): T
      requires Ok?
    {
      value
    }
  }

  class ByteVec {
    var bytes: seq<byte>

    constructor ()
      ensures bytes == []
    {
      bytes := [];
    }
  }

  /** A cursor over bytes that stops between bits: `byteAt` whole bytes and `bitAt` bits are behind it. */
  class BitReader {
    const data: seq<byte>
    var byteAt: nat
    var bitAt: nat

    ghost predicate Valid()
      reads this
    {
      bitAt < 8 && byteAt <= |data| && (byteAt == |data| ==> bitAt == 0)
    }

    ghost function Pos(): nat
      reads this
    {
      8 * byteAt + bitAt
    }

    constructor (data: seq<byte>)
      ensures Valid() && this.data == data && Pos() == 0
    {
      this.data := data;
      byteAt, bitAt := 0, 0;
    }

    predicate ByteAligned()
      reads this
    {
      bitAt == 0
    }

    /** The next bit, by shift and mask; `onEof` when the bytes are used up. */
    method ReadBit(onEof: AncError) returns (r: Result<bool>)
      requires Valid()
      modifies this
      ensures Valid()
      ensures r.Ok? <==> old(Pos()) < 8 * |data|
      ensures r.Ok? ==> Pos() == old(Pos()) + 1 && r.value == Bits(data)[old(Pos())]
      ensures r.Err? ==> r.error == onEof && Pos() == old(Pos())
    {
      if byteAt == |data| {
        return Err(onEof);
      }
      var octet := data[byteAt];
      BitAt(data, byteAt, bitAt);
      BitByDivision(octet, 8, bitAt);
      r := Ok(octet / Pow2(7 - bitAt) % 2 == 1);
      if bitAt == 7 {
        byteAt, bitAt := byteAt + 1, 0;
      } else {
        bitAt := bitAt + 1;
      }
    }

    /** The next `n` bits as a number. */
    method Read(n: nat, onEof: AncError) returns (r: Result<nat>)
      requires Valid()
      modifies this
      ensures Valid()
      ensures r.Ok? <==> old(Pos()) + n <= 8 * |data|
      ensures r.Ok? ==> Pos() == old(Pos()) + n && r.value == Field(Bits(data), old(Pos()), n)
      ensures r.Err? ==> r.error == onEof
    {
      ghost var start := Pos();
      var v := 0;
      var i := 0;
      while i < n
        invariant 0 <= i <= n && Valid() && Pos() == start + i
        invariant v == Value(Bits(data)[start..Pos()])
      {
        ghost var p := Pos();
        var bit :- ReadBit(onEof);
        assert Bits(data)[start..p + 1] == Bits(data)[start..p] + [bit];
        ValueSnoc(Bits(data)[start..p], bit);
        v := 2 * v + BitNumber(bit);
        i := i + 1;
      }
      return Ok(v);
    }
  }

  class BitWriter {
    const out: ByteVec
    var queue: seq<bool>

    ghost predicate Valid()
      reads this
    {
      |queue| < 8
    }

    /** Everything written so far, the unfinished byte included. */
    ghost function Written(): seq<bool>
      reads this, out
    {
      Bits(out.bytes) + queue
    }

    constructor (out: ByteVec)
      ensures Valid() && this.out == out && queue == [] && Written() == Bits(out.bytes)
    {
      this.out := out;
      queue := [];
    }

    predicate ByteAligned()
      reads this
    {
      queue == []
    }

    method WriteBit(bit: bool)
      requires Valid()
      modifies this`queue, out
      ensures Valid() && Written() == old(Written()) + [bit]
      ensures old(out.bytes) <= out.bytes
    {
      queue := queue + [bit];
      if |queue| == 8 {
        BitsAppend(out.bytes, [ByteOf(queue)]);
        BitsOfByte(ByteOf(queue));
        out.bytes := out.bytes + [ByteOf(queue)];
        queue := [];
      }
    }

    /** Writes the low `n` bits of `v`, most significant first; refuses a value that needs more. */
    method Write(n: nat, v: nat, onError: AncError) returns (r: Result<()>)
      requires Valid()
      modifies this`queue, out
      ensures Valid() && old(out.bytes) <= out.bytes
      ensures r.Ok? <==> v < Pow2(n)
      ensures r.Ok? ==> Written() == old(Written()) + BitsOf(v, n)
      ensures r.Err? ==> r.error == onError && Written() == old(Written())
    {
      if v >= Pow2(n) {
        return Err(onError);
      }
      var i := 0;
      while i < n
        invariant 0 <= i <= n && Valid() && old(out.bytes) <= out.bytes
        invariant Written() == old(Written()) + BitsOf(v, n)[..i]
      {
        BitByDivision(v, n, i);
        WriteBit(v / Pow2(n - 1 - i) % 2 == 1);
        assert BitsOf(v, n)[..i + 1] == BitsOf(v, n)[..i] + [BitsOf(v, n)[i]];
        i := i + 1;
      }
      assert BitsOf(v, n)[..n] == BitsOf(v, n);
      return Ok(());
    }

    /** Fills the unfinished byte with `bit`. */
    method AlignWith(bit: bool)
      requires Valid()
      modifies this`queue, out
      ensures Valid() && old(out.bytes) <= out.bytes && queue == []
      ensures Written() == old(Written()) + Fill(bit, PadToByte(|old(Written())|))
    {
      ghost var x := Written();
      ghost var n := PadToByte(|x|);
      ghost var i := 0;
      while !ByteAligned()
        invariant Valid() && old(out.bytes) <= out.bytes && 0 <= i <= n
        invariant |Written()| == |x| + i == 8 * |out.bytes| + |queue|
        invariant Written() == x + Fill(bit, i)
        decreases n - i
      {
        WriteBit(bit);
        assert Fill(bit, i + 1) == Fill(bit, i) + [bit];
        i := i + 1;
      }
    }
  }
}
