/** Appending single packets, bit by bit, and carrying one packet from one format to the other. */
module AncWrite {
  import opened BitString
  import opened AncPacket
  import opened BitIo
  import opened AncCodec
  import opened Delimited

  predicate HeadInRange(m: Anc) {
    m.line < 0x800 && m.offset < 0x1000
  }

  predicate TailInRange(m: Anc) {
    && m.did < 0x400 && m.sdid < 0x400 && m.dataCount < 0x400 && m.checksum < 0x400
    && forall i | 0 <= i < |m.data| :: m.data[i] < 0x400
  }

  method WriteHead(w: BitWriter, m: Anc, onError: AncError) returns (res: Result<()>)
    requires w.Valid()
    modifies w, w.out
    ensures w.Valid() && old(w.out.bytes) <= w.out.bytes
    ensures res.Ok? <==> HeadInRange(m)
    ensures res.Ok? ==> w.Written() == old(w.Written()) + Head(m)
    ensures res.Err? ==> res.error == onError
  {
    Widths();
    ghost var x := w.Written();
    w.WriteBit(m.cNotY);
    var _ :- w.Write(11, m.line, onError);
    var _ :- w.Write(12, m.offset, onError);
    Assoc3(x, [m.cNotY], BitsOf(m.line, 11), BitsOf(m.offset, 12));
    return Ok(());
  }

  method WriteWord(w: BitWriter, v: u16, onError: AncError) returns (res: Result<()>)
    requires w.Valid()
    modifies w, w.out
    ensures w.Valid() && old(w.out.bytes) <= w.out.bytes
    ensures res.Ok? <==> v < 0x400
    ensures res.Ok? ==> w.Written() == old(w.Written()) + BitsOf(v, 10)
    ensures res.Err? ==> res.error == onError
  {
    Widths();
    res := w.Write(10, v, onError);
  }

  method WriteWords(w: BitWriter, data: seq<u16>, onError: AncError) returns (res: Result<()>)
    requires w.Valid()
    modifies w, w.out
    ensures w.Valid() && old(w.out.bytes) <= w.out.bytes
    ensures res.Ok? <==> forall i | 0 <= i < |data| :: data[i] < 0x400
    ensures res.Ok? ==> w.Written() == old(w.Written()) + Words(data)
    ensures res.Err? ==> res.error == onError
  {
    for i := 0 to |data|
      invariant w.Valid() && old(w.out.bytes) <= w.out.bytes
      invariant forall k | 0 <= k < i :: data[k] < 0x400
      invariant w.Written() == old(w.Written()) + Words(data[..i])
    {
      WordAppended(old(w.Written()), data, i);
      var _ :- WriteWord(w, data[i], onError);
    }
    assert data[..|data|] == data;
    return Ok(());
  }

  lemma {:induction false} WordAppended(x: seq<bool>, data: seq<u16>, i: nat)
    requires i < |data|
    ensures x + Words(data[..i]) + BitsOf(data[i], 10) == x + Words(data[..i + 1])
  {
    assert data[..i + 1] == data[..i] + [data[i]];
    WordsSnoc(data[..i], data[i]);
    Assoc(x, Words(data[..i]), BitsOf(data[i], 10));
  }

  method WriteTail(w: BitWriter, m: Anc, onError: AncError) returns (res: Result<()>)
    requires w.Valid()
    modifies w, w.out
    ensures w.Valid() && old(w.out.bytes) <= w.out.bytes
    ensures res.Ok? <==> TailInRange(m)
    ensures res.Ok? ==> w.Written() == old(w.Written()) + Tail(m)
    ensures res.Err? ==> res.error == onError
  {
    ghost var x := w.Written();
    var _ :- WriteWord(w, m.did, onError);
    var _ :- WriteWord(w, m.sdid, onError);
    var _ :- WriteWord(w, m.dataCount, onError);
    var _ :- WriteWords(w, m.data, onError);
    var _ :- WriteWord(w, m.checksum, onError);
    TailAppended(x, m);
    return Ok(());
  }

  lemma {:induction false} TailAppended(x: seq<bool>, m: Anc)
    ensures x + BitsOf(m.did, 10) + BitsOf(m.sdid, 10) + BitsOf(m.dataCount, 10)
            + Words(m.data) + BitsOf(m.checksum, 10)
         == x + Tail(m)
  {
    Assoc5(x, BitsOf(m.did, 10), BitsOf(m.sdid, 10), BitsOf(m.dataCount, 10), Words(m.data), BitsOf(m.checksum, 10));
  }

  lemma {:induction false} Assoc3<T>(x: seq<T>, a: seq<T>, b: seq<T>, c: seq<T>)
    ensures x + a + b + c == x + (a + b + c)
  {
    Assoc(x, a, b);
    Assoc(x, a + b, c);
  }

  lemma {:induction false} Assoc5<T>(x: seq<T>, a: seq<T>, b: seq<T>, c: seq<T>, d: seq<T>, e: seq<T>)
    ensures x + a + b + c + d + e == x + (a + b + c + d + e)
  {
    Assoc3(x, a, b, c);
    Assoc3(x, a + b + c, d, e);
  }

  method WriteRfc8331Body(w: BitWriter, m: Anc) returns (res: Result<()>)
    requires w.Valid()
    modifies w, w.out
    ensures w.Valid() && old(w.out.bytes) <= w.out.bytes
    ensures res.Ok? <==> InRange(m)
    ensures res.Ok? ==> w.Written() == old(w.Written()) + Rfc8331Body(m, 0)
    ensures res.Err? ==> res.error == Invalid
  {
    ghost var x := w.Written();
    Widths();
    var _ :- WriteHead(w, m, Invalid);
    var _ := w.Write(1, 0, Invalid);
    var _ := w.Write(7, 0, Invalid);
    ghost var y := x + Head(m);
    BitsOfZeros(y);
    var _ :- WriteTail(w, m, Invalid);
    Assoc3(x, Head(m), BitsOf(0, 8), Tail(m));
    return Ok(());
  }

  /** Zero bits to the byte, then zero bytes until `start` is a multiple of four bytes behind. */
  method ZerosToWord(w: BitWriter, start: nat)
    requires w.Valid() && 8 * start <= |w.Written()|
    modifies w, w.out
    ensures w.Valid() && w.queue == [] && old(w.out.bytes) <= w.out.bytes
    ensures w.Written() == old(w.Written()) + Fill(false, PadToWord(|old(w.Written())| - 8 * start))
  {
    ghost var x := w.Written();
    ghost var n := |x| - 8 * start;
    WholeBytes(start, n);
    BytePadding(n);
    w.AlignWith(false);
    ghost var i := PadToByte(n);
    while (|w.out.bytes| - start) % 4 != 0
      invariant w.Valid() && w.queue == [] && start <= |w.out.bytes| && old(w.out.bytes) <= w.out.bytes
      invariant 8 * (|w.out.bytes| - start) == n + i && 0 <= i <= PadToWord(n)
      invariant w.Written() == x + Fill(false, i)
      decreases PadToWord(n) - i
    {
      WordPadding(n, |w.out.bytes| - start);
      ZerosAppend(x, i, 8);
      WriteZeroByte(w);
      i := i + 8;
    }
    WordPadding(n, |w.out.bytes| - start);
  }

  lemma {:induction false} WholeBytes(k: nat, n: nat)
    ensures PadToByte(8 * k + n) == PadToByte(n)
  {
    assert BytesFor(8 * k + n) == k + BytesFor(n);
  }

  method WriteZeroByte(w: BitWriter)
    requires w.Valid() && w.queue == []
    modifies w, w.out
    ensures w.Valid() && w.queue == [] && old(w.out.bytes) <= w.out.bytes
    ensures |w.out.bytes| == |old(w.out.bytes)| + 1
    ensures w.Written() == old(w.Written()) + Fill(false, 8)
  {
    Widths();
    BitsOfZero(8);
    var _ := w.Write(8, 0, Invalid);
  }

  lemma {:induction false} ZerosAppend(x: seq<bool>, i: nat, k: nat)
    ensures x + Fill(false, i) + Fill(false, k) == x + Fill(false, i + k)
  {
    Assoc(x, Fill(false, i), Fill(false, k));
    assert Fill(false, i) + Fill(false, k) == Fill(false, i + k);
  }

  lemma {:induction false} BitsOfZeros(y: seq<bool>)
    ensures y + BitsOf(0, 1) + BitsOf(0, 7) == y + BitsOf(0, 8)
  {
    BitsOfZero(1);
    BitsOfZero(7);
    BitsOfZero(8);
  }

  lemma {:induction false} PackAppended(before: seq<byte>, after: seq<byte>, x: seq<bool>, k: nat)
    requires |x| == 8 * k && Bits(after) == Bits(before) + x
    ensures after == before + Pack(x, k)
  {
    BitsAppend(before, Pack(x, k));
    BitsOfPack(x, k);
    BitsInjective(after, before + Pack(x, k));
  }

  /** A body and its padding, appended bit by bit, are their bytes appended. */
  lemma {:induction false} BytesAppended(before: seq<byte>, after: seq<byte>, body: seq<bool>, bit: bool, n: nat,
                                         k: nat)
    requires Bits(after) == Bits(before) + body + Fill(bit, n) && |body| + n == 8 * k
    ensures after == before + Pack(body + Fill(bit, n), k)
  {
    Assoc(Bits(before), body, Fill(bit, n));
    PackAppended(before, after, body + Fill(bit, n), k);
  }

  /** Appends one RFC 8331 packet with S and StreamNum zero. */
  method AppendRfc8331(smpte291: ByteVec, m: Anc) returns (res: Result<()>)
    modifies smpte291
    ensures res.Ok? <==> InRange(m)
    ensures res.Ok? ==> smpte291.bytes == old(smpte291.bytes) + Rfc8331(m, 0)
    ensures res.Err? ==> res.error == Invalid && old(smpte291.bytes) <= smpte291.bytes
  {
    var start := |smpte291.bytes|;
    var w := new BitWriter(smpte291);
    ghost var before, body := smpte291.bytes, Rfc8331Body(m, 0);
    ghost var e := |body|;
    var _ :- WriteRfc8331Body(w, m);
    assert |w.Written()| == 8 * start + e;
    ZerosToWord(w, start);
    assert Bits(smpte291.bytes) == Bits(before) + body + Fill(false, PadToWord(e));
    BytesAppended(before, smpte291.bytes, body, false, PadToWord(e), 4 * WordsFor(e));
    return Ok(());
  }

  method WriteSt2038Body(w: BitWriter, m: Anc) returns (res: Result<()>)
    requires w.Valid()
    modifies w, w.out
    ensures w.Valid() && old(w.out.bytes) <= w.out.bytes
    ensures res.Ok? <==> InRange(m)
    ensures res.Ok? ==> w.Written() == old(w.Written()) + St2038Body(m)
    ensures res.Err? ==> res.error == Io
  {
    ghost var x := w.Written();
    Widths();
    var _ := w.Write(6, 0, Io);
    BitsOfZero(6);
    var _ :- WriteHead(w, m, Io);
    var _ :- WriteTail(w, m, Io);
    Assoc3(x, Fill(false, 6), Head(m), Tail(m));
    return Ok(());
  }

  /** Appends one ST 2038 packet. */
  method AppendSt2038(st2038: ByteVec, m: Anc) returns (res: Result<()>)
    modifies st2038
    ensures res.Ok? <==> InRange(m)
    ensures res.Ok? ==> st2038.bytes == old(st2038.bytes) + St2038(m)
    ensures res.Err? ==> res.error == Io && old(st2038.bytes) <= st2038.bytes
  {
    var w := new BitWriter(st2038);
    ghost var before, body := st2038.bytes, St2038Body(m);
    ghost var e := |body|;
    var _ :- WriteSt2038Body(w, m);
    WholeBytes(|before|, e);
    w.AlignWith(true);
    assert Bits(st2038.bytes) == Bits(before) + body + Fill(true, PadToByte(e));
    BytesAppended(before, st2038.bytes, body, true, PadToByte(e), BytesFor(e));
    return Ok(());
  }

  /** Carries one packet from the front of an ST 2038 buffer to the end of an RFC 8331 payload. */
  method Rfc8331FromSt2038(smpte291: ByteVec, st2038: seq<byte>) returns (res: Result<()>, rest: seq<byte>)
    modifies smpte291
    ensures res.Ok? ==> exists m ::
      WellFormed(m) && st2038 == St2038(m) + rest && smpte291.bytes == old(smpte291.bytes) + Rfc8331(m, 0)
    ensures res.Err? ==> res.error == Invalid && rest == st2038 && smpte291.bytes == old(smpte291.bytes)
    ensures res.Err? ==> forall m | WellFormed(m) :: !(St2038(m) <= st2038)
  {
    var parsed;
    parsed, rest := AncFromSt2038(st2038);
    if parsed.Err? {
      return Err(parsed.error), rest;
    }
    res := AppendRfc8331(smpte291, parsed.value);
    assert WellFormed(parsed.value);
  }

  /** Carries one packet from the front of an RFC 8331 payload to the end of an ST 2038 buffer. */
  method St2038FromRfc8331(st2038: ByteVec, smpte291: seq<byte>) returns (res: Result<()>, rest: seq<byte>)
    modifies st2038
    ensures res.Ok? ==> exists m, s ::
      WellFormed(m) && smpte291 == Rfc8331(m, s) + rest && st2038.bytes == old(st2038.bytes) + St2038(m)
    ensures res.Err? ==> rest == smpte291 && st2038.bytes == old(st2038.bytes)
    ensures res.Err? ==> forall m, s | WellFormed(m) :: !(Rfc8331(m, s) <= smpte291)
    ensures res.Err? ==> (res.error == Io <==> CutShort(smpte291))
  {
    var parsed;
    parsed, rest := AncFromRfc8331(smpte291);
    if parsed.Err? {
      return Err(parsed.error), rest;
    }
    res := AppendSt2038(st2038, parsed.value);
    assert WellFormed(parsed.value);
  }
}
