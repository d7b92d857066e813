/** Reading and writing single packets, bit by bit, as the GStreamer elements do. */
module AncCodec {
  import opened BitString
  import opened AncPacket
  import opened BitIo

  /** Reads one ST 2038 packet off the front of `st2038`; `rest` is what it leaves. */
  method AncFromSt2038(st2038: seq<byte>) returns (res: Result<Anc>, rest: seq<byte>)
    ensures res.Ok? ==> WellFormed(res.value) && st2038 == St2038(res.value) + rest
    ensures res.Err? ==> rest == st2038 && forall m | WellFormed(m) :: !(St2038(m) <= st2038)
    ensures res.Err? ==> res.error == Invalid
  {
    rest := st2038;
    var r := new BitReader(st2038);
    res := ReadSt2038(r);
    if res.Ok? {
      rest := st2038[r.byteAt..];
      St2038Sound(st2038, res.value);
      TakeFront(st2038, St2038(res.value), r.byteAt);
    } else {
      NoSt2038(st2038);
    }
  }

  method ReadSt2038(r: BitReader) returns (res: Result<Anc>)
    requires r.Valid() && r.Pos() == 0
    modifies r
    ensures r.Valid()
    ensures res.Ok? <==> StartsSt2038(Bits(r.data))
    ensures res.Ok? ==> res.value == AncAt(Bits(r.data), 6, 30)
    ensures res.Ok? ==> r.Pos() == 8 * |St2038(res.value)|
    ensures res.Err? ==> res.error == Invalid
  {
    ghost var b := Bits(r.data);
    var m :- ReadSt2038Fields(r);
    ghost var e := r.Pos();
    var _ :- ReadOnesToByte(r);
    assert r.Pos() == e + PadToByte(e);
    return Ok(m);
  }

  method ReadSt2038Fields(r: BitReader) returns (res: Result<Anc>)
    requires r.Valid() && r.Pos() == 0
    modifies r
    ensures r.Valid()
    ensures res.Ok? <==> TailFits(Bits(r.data), 30) && Filled(Bits(r.data), 0, false, 6)
    ensures res.Ok? ==> res.value == AncAt(Bits(r.data), 6, 30)
    ensures res.Ok? ==> r.Pos() == 70 + 10 * CountAt(Bits(r.data), 30) == 70 + 10 * |res.value.data|
    ensures res.Err? ==> res.error == Invalid
  {
    ghost var b := Bits(r.data);
    var zeroes :- r.Read(6, Invalid);
    ZeroField(b, 0, 6);
    if zeroes != 0 {
      return Err(Invalid);
    }
    var head :- ReadHead(r, Invalid);
    var m :- ReadTail(r, head, Invalid);
    assert m == AncAt(b, 6, 30);
    return Ok(m);
  }

  /** Reads one RFC 8331 packet, word padding included, off the front of `smpte291`. */
  method AncFromRfc8331(smpte291: seq<byte>) returns (res: Result<Anc>, rest: seq<byte>)
    ensures res.Ok? ==> WellFormed(res.value) && exists s :: smpte291 == Rfc8331(res.value, s) + rest
    ensures res.Err? ==> rest == smpte291 && forall m, s | WellFormed(m) :: !(Rfc8331(m, s) <= smpte291)
    ensures res.Err? ==> (res.error == Io <==> CutShort(smpte291))
  {
    rest := smpte291;
    var r := new BitReader(smpte291);
    res := ReadRfc8331(r);
    if res.Ok? {
      rest := smpte291[r.byteAt..];
      Rfc8331Sound(smpte291, res.value);
      ghost var s := StreamAt(Bits(smpte291));
      TakeFront(smpte291, Rfc8331(res.value, s), r.byteAt);
      assert smpte291 == Rfc8331(res.value, s) + rest;
    } else {
      NoRfc8331(smpte291);
      CutShortBits(smpte291);
    }
  }

  lemma {:induction false} TakeFront(d: seq<byte>, x: seq<byte>, k: nat)
    requires x <= d && |x| == k
    ensures d == x + d[k..]
  {
  }

  method ReadRfc8331(r: BitReader) returns (res: Result<Anc>)
    requires r.Valid() && r.Pos() == 0
    modifies r
    ensures r.Valid()
    ensures res.Ok? <==> StartsRfc8331(Bits(r.data))
    ensures res.Ok? ==> res.value == AncAt(Bits(r.data), 0, 32)
    ensures res.Ok? ==> r.Pos() == 8 * |Rfc8331(res.value, 0)|
    ensures res.Err? ==> (res.error == Io <==> Unfinished(Bits(r.data)))
  {
    ghost var b := Bits(r.data);
    var m :- ReadRfc8331Fields(r);
    ghost var e := r.Pos();
    var padding := ReadZerosToWord(r);
    if padding.Err? {
      ZerosToEnd(b, e);
      return Err(padding.error);
    }
    assert r.Pos() == e + PadToWord(e);
    return Ok(m);
  }

  method ReadRfc8331Fields(r: BitReader) returns (res: Result<Anc>)
    requires r.Valid() && r.Pos() == 0
    modifies r
    ensures r.Valid()
    ensures res.Ok? <==> TailFits(Bits(r.data), 32)
    ensures res.Ok? ==> res.value == AncAt(Bits(r.data), 0, 32)
    ensures res.Ok? ==> r.Pos() == 72 + 10 * CountAt(Bits(r.data), 32) == 72 + 10 * |res.value.data|
    ensures res.Err? ==> res.error == Io
  {
    var head :- ReadHead(r, Io);
    var _ :- r.Read(1, Io);
    var _ :- r.Read(7, Io);
    var m :- ReadTail(r, head, Io);
    assert m == AncAt(Bits(r.data), 0, 32);
    return Ok(m);
  }

  /** Flag, line number and horizontal offset. */
  method ReadHead(r: BitReader, onEof: AncError) returns (res: Result<(bool, u16, u16)>)
    requires r.Valid()
    modifies r
    ensures r.Valid()
    ensures res.Ok? <==> old(r.Pos()) + 24 <= 8 * |r.data|
    ensures res.Ok? ==> r.Pos() == old(r.Pos()) + 24 && res.value == HeadAt(Bits(r.data), old(r.Pos()))
    ensures res.Err? ==> res.error == onEof
  {
    Widths();
    var cNotY :- r.ReadBit(onEof);
    var line :- r.Read(11, onEof);
    var offset :- r.Read(12, onEof);
    return Ok((cNotY, line, offset));
  }

  method ReadWord(r: BitReader, onEof: AncError) returns (res: Result<u16>)
    requires r.Valid()
    modifies r
    ensures r.Valid()
    ensures res.Ok? <==> old(r.Pos()) + 10 <= 8 * |r.data|
    ensures res.Ok? ==> r.Pos() == old(r.Pos()) + 10 && res.value == Word(Bits(r.data), old(r.Pos()))
    ensures res.Err? ==> res.error == onEof
  {
    Widths();
    var v :- r.Read(10, onEof);
    return Ok(v);
  }

  method ReadWords(r: BitReader, n: nat, onEof: AncError) returns (res: Result<seq<u16>>)
    requires r.Valid()
    modifies r
    ensures r.Valid()
    ensures res.Ok? <==> old(r.Pos()) + 10 * n <= 8 * |r.data|
    ensures res.Ok? ==> r.Pos() == old(r.Pos()) + 10 * n && res.value == WordsAt(Bits(r.data), old(r.Pos()), n)
    ensures res.Err? ==> res.error == onEof
  {
    var data: seq<u16> := [];
    for i := 0 to n
      invariant r.Valid() && r.Pos() == old(r.Pos()) + 10 * i && data == WordsAt(Bits(r.data), old(r.Pos()), i)
    {
      var udw :- ReadWord(r, onEof);
      data := data + [udw];
    }
    return Ok(data);
  }

  /** DID, SDID, data count, as many user data words as its low eight bits say, and checksum. */
  method ReadTail(r: BitReader, head: (bool, u16, u16), onEof: AncError) returns (res: Result<Anc>)
    requires r.Valid()
    modifies r
    ensures r.Valid()
    ensures res.Ok? <==> TailFits(Bits(r.data), old(r.Pos()))
    ensures res.Ok? ==> r.Pos() == old(r.Pos()) + 40 + 10 * |res.value.data|
    ensures res.Ok? ==> res.value == AncWith(head, Bits(r.data), old(r.Pos()))
    ensures res.Err? ==> res.error == onEof
  {
    ghost var b, t := Bits(r.data), r.Pos();
    var did :- ReadWord(r, onEof);
    var sdid :- ReadWord(r, onEof);
    var dataCount :- ReadWord(r, onEof);
    var n := dataCount % 0x100;
    assert t + 30 <= |b| && n == CountAt(b, t);
    var data :- ReadWords(r, n, onEof);
    assert data == WordsAt(b, t + 30, n);
    var checksum :- ReadWord(r, onEof);
    return Ok(Anc(head.0, head.1, head.2, did, sdid, dataCount, data, checksum));
  }

  /** Behind `e`, and not past its padding to the byte, a byte begins only where the padding ends. */
  lemma {:induction false} ByteBegins(e: nat, k: nat, i: nat)
    requires i < 8 && e <= 8 * k + i <= e + PadToByte(e)
    ensures i == 0 <==> 8 * k + i == e + PadToByte(e)
  {
    var c := BytesFor(e);
    assert 8 * c - 8 < e <= 8 * c;
  }

  /** From the padding up to `p` to that up to `q`, all of it being due up to `end`. */
  lemma {:induction false} PaddingGoesOn(b: seq<bool>, bit: bool, e: nat, p: nat, q: nat, end: nat)
    requires e <= p <= q <= end && Filled(b, e, bit, p - e)
    ensures Filled(b, p, bit, q - p) ==> Filled(b, e, bit, q - e)
    ensures !Filled(b, p, bit, q - p) ==> !Filled(b, e, bit, end - e)
    ensures !bit && !Filled(b, p, bit, q - p) ==> (ZerosUpTo(b, p, q - p) <==> ZerosUpTo(b, e, end - e))
  {
  }

  /** ST 2038 pads to a byte boundary with one bits. */
  method ReadOnesToByte(r: BitReader) returns (res: Result<()>)
    requires r.Valid()
    modifies r
    ensures r.Valid()
    ensures res.Ok? <==> Filled(Bits(r.data), old(r.Pos()), true, PadToByte(old(r.Pos())))
    ensures res.Ok? ==> r.Pos() == old(r.Pos()) + PadToByte(old(r.Pos()))
    ensures res.Err? ==> res.error == Invalid
  {
    ghost var b, e, p := Bits(r.data), r.Pos(), r.Pos();
    ghost var end := e + PadToByte(e);
    while !r.ByteAligned()
      invariant r.Valid() && p == r.Pos() && e <= p <= end && Filled(b, e, true, p - e)
      decreases end - p
    {
      ByteBegins(e, r.byteAt, r.bitAt);
      PaddingGoesOn(b, true, e, p, p + 1, end);
      var bit := r.ReadBit(Invalid);
      if bit != Ok(true) {
        return Err(Invalid);
      }
      p := p + 1;
    }
    ByteBegins(e, r.byteAt, r.bitAt);
    return Ok(());
  }

  method ReadZeroByte(r: BitReader) returns (res: Result<()>)
    requires r.Valid() && r.ByteAligned()
    modifies r
    ensures r.Valid()
    ensures res.Ok? <==> Filled(Bits(r.data), old(r.Pos()), false, 8)
    ensures res.Ok? ==> r.Pos() == old(r.Pos()) + 8 && r.ByteAligned()
    ensures res.Err? ==> (res.error == Io <==> ZerosUpTo(Bits(r.data), old(r.Pos()), 8))
  {
    if r.Pos() + 8 <= 8 * |r.data| {
      ZeroField(Bits(r.data), r.Pos(), 8);
    }
    var zero :- r.Read(8, Io);
    if zero != 0 {
      return Err(Invalid);
    }
    return Ok(());
  }

  method ReadZerosToByte(r: BitReader) returns (res: Result<()>)
    requires r.Valid()
    modifies r
    ensures r.Valid()
    ensures res.Ok? <==> Filled(Bits(r.data), old(r.Pos()), false, PadToByte(old(r.Pos())))
    ensures res.Ok? ==> r.Pos() == old(r.Pos()) + PadToByte(old(r.Pos())) && r.ByteAligned()
    ensures res.Err? ==> (res.error == Io <==> ZerosUpTo(Bits(r.data), old(r.Pos()), PadToByte(old(r.Pos()))))
  {
    ghost var b, e, p := Bits(r.data), r.Pos(), r.Pos();
    ghost var end := e + PadToByte(e);
    while !r.ByteAligned()
      invariant r.Valid() && p == r.Pos() && e <= p <= end && Filled(b, e, false, p - e)
      decreases end - p
    {
      ByteBegins(e, r.byteAt, r.bitAt);
      PaddingGoesOn(b, false, e, p, p + 1, end);
      // The rest of a byte that has been started is always there: this read cannot fail.
      var bit := r.ReadBit(Io);
      if bit != Ok(false) {
        assert b[p] && !ZerosUpTo(b, p, 1);
        return Err(Invalid);
      }
      p := p + 1;
    }
    ByteBegins(e, r.byteAt, r.bitAt);
    return Ok(());
  }

  /** Whole bytes between the bit before the padding and the next 32-bit boundary. */
  lemma {:induction false} WordPadding(e: nat, k: nat)
    requires e <= 8 * k <= e + PadToWord(e)
    ensures k % 4 != 0 ==> 8 * k + 8 <= e + PadToWord(e)
    ensures k % 4 == 0 ==> 8 * k == e + PadToWord(e)
  {
    var c := WordsFor(e);
    assert 4 * c - 4 < k <= 4 * c;
    assert k % 4 == 0 ==> k == 4 * c;
  }

  lemma {:induction false} BytePadding(e: nat)
    ensures PadToByte(e) <= PadToWord(e)
  {
    assert BytesFor(e) <= 4 * WordsFor(e);
  }

  /** RFC 8331 pads to a 32-bit boundary with zeros: bits to the byte, then bytes to the word. */
  method ReadZerosToWord(r: BitReader) returns (res: Result<()>)
    requires r.Valid()
    modifies r
    ensures r.Valid()
    ensures res.Ok? <==> Filled(Bits(r.data), old(r.Pos()), false, PadToWord(old(r.Pos())))
    ensures res.Ok? ==> r.Pos() == old(r.Pos()) + PadToWord(old(r.Pos()))
    ensures res.Err? ==> (res.error == Io <==> ZerosUpTo(Bits(r.data), old(r.Pos()), PadToWord(old(r.Pos()))))
  {
    ghost var b, e := Bits(r.data), r.Pos();
    ghost var byteEnd, end := e + PadToByte(e), e + PadToWord(e);
    BytePadding(e);
    PaddingGoesOn(b, false, e, e, byteEnd, end);
    var _ :- ReadZerosToByte(r);
    ghost var p := r.Pos();
    while r.byteAt % 4 != 0
      invariant r.Valid() && r.ByteAligned() && p == r.Pos() && e <= p <= end && Filled(b, e, false, p - e)
      decreases end - p
    {
      WordPadding(e, r.byteAt);
      PaddingGoesOn(b, false, e, p, p + 8, end);
      var _ :- ReadZeroByte(r);
      p := p + 8;
    }
    WordPadding(e, r.byteAt);
    return Ok(());
  }

  /** As many of the `n` bits behind `e` as there are, are zero. */
  predicate ZerosUpTo(b: seq<bool>, e: nat, n: nat) {
    forall i | e <= i < |b| && i < e + n :: !b[i]
  }

  lemma {:induction false} ZerosToEnd(b: seq<bool>, e: nat)
    requires TailFits(b, 32) && e == 72 + 10 * CountAt(b, 32) && !Filled(b, e, false, PadToWord(e))
    ensures ZerosUpTo(b, e, PadToWord(e)) <==> Unfinished(b)
  {
  }

  lemma {:induction false} ZeroField(b: seq<bool>, at: nat, n: nat)
    requires at + n <= |b|
    ensures Field(b, at, n) == 0 <==> Filled(b, at, false, n)
  {
    BitsOfZero(n);
    AtFill(b, at, false, n);
    FieldStands(b, at, n);
    if Filled(b, at, false, n) {
      FieldIs(b, at, n, 0);
    }
  }
}
