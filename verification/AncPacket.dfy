/**
 The two wire formats of an ancillary data packet, as grammars: SMPTE ST 2038 (six zero bits in
 front, one bits up to the next byte behind) and RFC 8331 section 2.1 (S and StreamNum inside, zero
 bits up to the next 32-bit word behind).
 */
module AncPacket {
  import opened BitString

  datatype Anc = Anc(cNotY: bool, line: u16, offset: u16, did: u16, sdid: u16,
                     dataCount: u16, data: seq<u16>, checksum: u16)

  /** Every field fits the width it has on the wire. */
  predicate InRange(m: Anc) {
    && m.line < 0x800 && m.offset < 0x1000
    && m.did < 0x400 && m.sdid < 0x400 && m.dataCount < 0x400 && m.checksum < 0x400
    && forall i | 0 <= i < |m.data| :: m.data[i] < 0x400
  }

  /** The low eight bits of the data count say how many user data words follow. */
  predicate WellFormed(m: Anc) {
    InRange(m) && |m.data| == m.dataCount % 0x100
  }

  /** User data words, ten bits each; split in two like the functions of `BitString`. */
  function Words(ws: seq<u16>): (b: seq<bool>)
    ensures |b| == 10 * |ws|
    decreases |ws|, 1
  {
    if ws == [] then [] else WordsStep(ws)
  }

  function WordsStep(ws: seq<u16>): (b: seq<bool>)
    requires ws != []
    ensures |b| == 10 * |ws|
    decreases |ws|, 0
  {
    Words(ws[..|ws| - 1]) + BitsOf(ws[|ws| - 1], 10)
  }

  lemma {:induction false} WordsSnoc(ws: seq<u16>, w: u16)
    ensures Words(ws + [w]) == Words(ws) + BitsOf(w, 10)
  {
    assert (ws + [w])[..|ws|] == ws;
  }

  function Head(m: Anc): (b: seq<bool>)
    ensures |b| == 24
  {
    [m.cNotY] + BitsOf(m.line, 11) + BitsOf(m.offset, 12)
  }

  function Tail(m: Anc): (b: seq<bool>)
    ensures |b| == 40 + 10 * |m.data|
  {
    BitsOf(m.did, 10) + BitsOf(m.sdid, 10) + BitsOf(m.dataCount, 10) + Words(m.data) + BitsOf(m.checksum, 10)
  }

  function St2038Body(m: Anc): (b: seq<bool>)
    ensures |b| == 70 + 10 * |m.data|
  {
    Fill(false, 6) + Head(m) + Tail(m)
  }

  /** One ST 2038 packet. */
  function St2038(m: Anc): (s: seq<byte>)
    ensures 8 * |s| == 70 + 10 * |m.data| + PadToByte(70 + 10 * |m.data|)
  {
    var e := 70 + 10 * |m.data|;
    Pack(St2038Body(m) + Fill(true, PadToByte(e)), BytesFor(e))
  }

  function Rfc8331Body(m: Anc, stream: byte): (b: seq<bool>)
    ensures |b| == 72 + 10 * |m.data|
  {
    Head(m) + BitsOf(stream, 8) + Tail(m)
  }

  /** One RFC 8331 packet; `stream` is the octet of S and StreamNum. */
  function Rfc8331(m: Anc, stream: byte): (s: seq<byte>)
    ensures 8 * |s| == 72 + 10 * |m.data| + PadToWord(72 + 10 * |m.data|)
  {
    var e := 72 + 10 * |m.data|;
    Pack(Rfc8331Body(m, stream) + Fill(false, PadToWord(e)), 4 * WordsFor(e))
  }

  // --- Reading fields out of a bit string by position -------------------------------------------

  /** `x` stands in `b` at position `at`. */
  predicate At(b: seq<bool>, at: nat, x: seq<bool>) {
    at + |x| <= |b| && b[at..at + |x|] == x
  }

  lemma {:induction false} AtAppend(b: seq<bool>, at: nat, x: seq<bool>, y: seq<bool>)
    ensures At(b, at, x + y) <==> At(b, at, x) && At(b, at + |x|, y)
  {
    var k := at + |x|;
    if At(b, at, x + y) {
      var s := b[at..k + |y|];
      assert s[..|x|] == x && s[|x|..] == y;
      assert b[at..k] == s[..|x|] && b[k..k + |y|] == s[|x|..];
    }
    if At(b, at, x) && At(b, k, y) {
      assert b[at..k + |y|] == b[at..k] + b[k..k + |y|];
    }
  }

  /** The `n` bits from `at` on are there and all equal `bit`. */
  predicate Filled(b: seq<bool>, at: nat, bit: bool, n: nat) {
    at + n <= |b| && forall i | at <= i < at + n :: b[i] == bit
  }

  lemma {:induction false} AtFill(b: seq<bool>, at: nat, bit: bool, n: nat)
    ensures At(b, at, Fill(bit, n)) <==> Filled(b, at, bit, n)
  {
    if At(b, at, Fill(bit, n)) {
      forall i | at <= i < at + n
        ensures b[i] == bit
      {
        assert b[at..at + n][i - at] == b[i];
      }
    }
  }

  /** The `n`-bit field at `at`. */
  function Field(b: seq<bool>, at: nat, n: nat): (v: nat)
    requires at + n <= |b|
    ensures v < Pow2(n)
  {
    ValueBound(b[at..at + n], n);
    Value(b[at..at + n])
  }

  lemma {:induction false} FieldStands(b: seq<bool>, at: nat, n: nat)
    requires at + n <= |b|
    ensures At(b, at, BitsOf(Field(b, at, n), n))
  {
    BitsOfValue(b[at..at + n]);
  }

  lemma {:induction false} FieldIs(b: seq<bool>, at: nat, n: nat, v: nat)
    requires v < Pow2(n) && At(b, at, BitsOf(v, n))
    ensures Field(b, at, n) == v
  {
    FieldStands(b, at, n);
    BitsOfInjective(Field(b, at, n), v, n);
  }

  lemma {:induction false} Widths()
    ensures Pow2(6) == 0x40 && Pow2(7) == 0x80 && Pow2(8) == 0x100
    ensures Pow2(10) == 0x400 && Pow2(11) == 0x800 && Pow2(12) == 0x1000
  {
    Pow2Eight();
    assert Pow2(7) == 2 * Pow2(6);
    assert Pow2(8) == 2 * Pow2(7);
    assert Pow2(9) == 2 * Pow2(8);
    assert Pow2(10) == 2 * Pow2(9);
    assert Pow2(11) == 2 * Pow2(10);
    assert Pow2(12) == 2 * Pow2(11);
  }

  function Word(b: seq<bool>, at: nat): (v: u16)
    requires at + 10 <= |b|
    ensures v < 0x400
  {
    Widths();
    Field(b, at, 10)
  }

  lemma {:induction false} WordIs(b: seq<bool>, at: nat, v: u16)
    requires v < 0x400 && At(b, at, BitsOf(v, 10))
    ensures Word(b, at) == v
  {
    Widths();
    FieldIs(b, at, 10, v);
  }

  function WordsAt(b: seq<bool>, at: nat, n: nat): (ws: seq<u16>)
    requires at + 10 * n <= |b|
    ensures |ws| == n && forall i | 0 <= i < n :: ws[i] < 0x400
  {
    if n == 0 then [] else WordsAt(b, at, n - 1) + [Word(b, at + 10 * (n - 1))]
  }

  function CountAt(b: seq<bool>, t: nat): (n: nat)
    requires t + 30 <= |b|
    ensures n < 0x100
  {
    Word(b, t + 20) % 0x100
  }

  /** The part from DID to checksum that starts at `t` is complete. */
  predicate TailFits(b: seq<bool>, t: nat) {
    t + 30 <= |b| && t + 40 + 10 * CountAt(b, t) <= |b|
  }

  /** Flag, line number and horizontal offset at `h`. */
  function HeadAt(b: seq<bool>, h: nat): (head: (bool, u16, u16))
    requires h + 24 <= |b|
    ensures head.1 < 0x800 && head.2 < 0x1000
  {
    Widths();
    (b[h], Field(b, h + 1, 11), Field(b, h + 12, 12))
  }

  /** The packet with these head fields whose DID stands at `t`. */
  function AncWith(head: (bool, u16, u16), b: seq<bool>, t: nat): (m: Anc)
    requires TailFits(b, t)
    ensures |m.data| == CountAt(b, t)
  {
    var n := CountAt(b, t);
    Anc(head.0, head.1, head.2, Word(b, t), Word(b, t + 10), Word(b, t + 20),
        WordsAt(b, t + 30, n), Word(b, t + 30 + 10 * n))
  }

  /** The packet whose flag, line and offset stand at `h` and whose DID stands at `t`. */
  function AncAt(b: seq<bool>, h: nat, t: nat): (m: Anc)
    requires h + 24 <= t && TailFits(b, t)
    ensures WellFormed(m) && |m.data| == CountAt(b, t)
  {
    AncWith(HeadAt(b, h), b, t)
  }

  lemma {:induction false} WordsAtSound(b: seq<bool>, at: nat, n: nat)
    requires at + 10 * n <= |b|
    ensures At(b, at, Words(WordsAt(b, at, n)))
  {
    if n > 0 {
      WordsAtSound(b, at, n - 1);
      var ws, w := WordsAt(b, at, n - 1), Word(b, at + 10 * (n - 1));
      WordsSnoc(ws, w);
      FieldStands(b, at + 10 * (n - 1), 10);
      AtAppend(b, at, Words(ws), BitsOf(w, 10));
    }
  }

  lemma {:induction false} WordsAtComplete(b: seq<bool>, at: nat, ws: seq<u16>)
    requires (forall i | 0 <= i < |ws| :: ws[i] < 0x400) && At(b, at, Words(ws))
    ensures WordsAt(b, at, |ws|) == ws
  {
    if ws != [] {
      var n := |ws| - 1;
      WordsSnoc(ws[..n], ws[n]);
      assert ws == ws[..n] + [ws[n]];
      AtAppend(b, at, Words(ws[..n]), BitsOf(ws[n], 10));
      WordsAtComplete(b, at, ws[..n]);
      WordIs(b, at + 10 * n, ws[n]);
    }
  }

  lemma {:induction false} AtHead(b: seq<bool>, h: nat, m: Anc)
    ensures At(b, h, Head(m)) <==>
      At(b, h, [m.cNotY]) && At(b, h + 1, BitsOf(m.line, 11)) && At(b, h + 12, BitsOf(m.offset, 12))
  {
    AtAppend(b, h, [m.cNotY], BitsOf(m.line, 11));
    AtAppend(b, h, [m.cNotY] + BitsOf(m.line, 11), BitsOf(m.offset, 12));
  }

  lemma {:induction false} AtTail(b: seq<bool>, t: nat, m: Anc)
    ensures At(b, t, Tail(m)) <==>
      && At(b, t, BitsOf(m.did, 10))
      && At(b, t + 10, BitsOf(m.sdid, 10))
      && At(b, t + 20, BitsOf(m.dataCount, 10))
      && At(b, t + 30, Words(m.data))
      && At(b, t + 30 + 10 * |m.data|, BitsOf(m.checksum, 10))
  {
    var d, s, c := BitsOf(m.did, 10), BitsOf(m.sdid, 10), BitsOf(m.dataCount, 10);
    var w, k := Words(m.data), BitsOf(m.checksum, 10);
    AtAppend(b, t, d, s);
    AtAppend(b, t, d + s, c);
    AtAppend(b, t, d + s + c, w);
    AtAppend(b, t, d + s + c + w, k);
  }

  lemma {:induction false} HeadAtSound(b: seq<bool>, h: nat, m: Anc)
    requires h + 24 <= |b| && (m.cNotY, m.line, m.offset) == HeadAt(b, h)
    ensures At(b, h, Head(m))
  {
    FieldStands(b, h + 1, 11);
    FieldStands(b, h + 12, 12);
    assert b[h..h + 1] == [b[h]];
    AtHead(b, h, m);
  }

  lemma {:induction false} WordStands(b: seq<bool>, at: nat)
    requires at + 10 <= |b|
    ensures At(b, at, BitsOf(Word(b, at), 10))
  {
    FieldStands(b, at, 10);
  }

  lemma {:induction false} TailAtSound(b: seq<bool>, t: nat, head: (bool, u16, u16))
    requires TailFits(b, t)
    ensures At(b, t, Tail(AncWith(head, b, t)))
  {
    var m := AncWith(head, b, t);
    var n := CountAt(b, t);
    WordsAtSound(b, t + 30, n);
    WordStands(b, t);
    WordStands(b, t + 10);
    WordStands(b, t + 20);
    WordStands(b, t + 30 + 10 * n);
    AtTail(b, t, m);
  }

  lemma {:induction false} AncAtSound(b: seq<bool>, h: nat, t: nat, m: Anc)
    requires h + 24 <= t && TailFits(b, t) && m == AncAt(b, h, t)
    ensures At(b, h, Head(m)) && At(b, t, Tail(m))
  {
    HeadAtSound(b, h, m);
    TailAtSound(b, t, HeadAt(b, h));
  }

  lemma {:induction false} HeadComplete(b: seq<bool>, h: nat, m: Anc)
    requires InRange(m) && At(b, h, Head(m))
    ensures h + 24 <= |b|
    ensures b[h] == m.cNotY && Field(b, h + 1, 11) == m.line && Field(b, h + 12, 12) == m.offset
  {
    Widths();
    AtHead(b, h, m);
    assert b[h..h + 1][0] == m.cNotY;
    FieldIs(b, h + 1, 11, m.line);
    FieldIs(b, h + 12, 12, m.offset);
  }

  lemma {:induction false} WordStandsAt(b: seq<bool>, at: nat, v: u16)
    requires v < 0x400 && At(b, at, BitsOf(v, 10))
    ensures at + 10 <= |b| && Word(b, at) == v
  {
    WordIs(b, at, v);
  }

  lemma {:induction false} TailCount(b: seq<bool>, t: nat, m: Anc)
    requires WellFormed(m) && At(b, t, Tail(m))
    ensures TailFits(b, t) && CountAt(b, t) == |m.data| && Word(b, t + 20) == m.dataCount
  {
    AtTail(b, t, m);
    WordStandsAt(b, t + 20, m.dataCount);
  }

  lemma {:induction false} TailWords(b: seq<bool>, t: nat, m: Anc)
    requires WellFormed(m) && At(b, t, Tail(m))
    ensures t + 40 + 10 * |m.data| <= |b| && WordsAt(b, t + 30, |m.data|) == m.data
  {
    AtTail(b, t, m);
    WordsAtComplete(b, t + 30, m.data);
  }

  lemma {:induction false} TailFields(b: seq<bool>, t: nat, m: Anc)
    requires WellFormed(m) && At(b, t, Tail(m))
    ensures t + 40 + 10 * |m.data| <= |b|
    ensures Word(b, t) == m.did && Word(b, t + 10) == m.sdid && Word(b, t + 30 + 10 * |m.data|) == m.checksum
  {
    AtTail(b, t, m);
    WordStandsAt(b, t, m.did);
    WordStandsAt(b, t + 10, m.sdid);
    WordStandsAt(b, t + 30 + 10 * |m.data|, m.checksum);
  }

  lemma {:induction false} AncAtComplete(b: seq<bool>, h: nat, t: nat, m: Anc)
    requires WellFormed(m) && h + 24 <= t && At(b, h, Head(m)) && At(b, t, Tail(m))
    ensures TailFits(b, t) && AncAt(b, h, t) == m
  {
    HeadComplete(b, h, m);
    TailCount(b, t, m);
    TailWords(b, t, m);
    TailFields(b, t, m);
  }

  // --- Which byte strings start with a packet ----------------------------------------------------

  /** The bit string starts with a complete, correctly padded ST 2038 packet. */
  predicate StartsSt2038(b: seq<bool>) {
    && TailFits(b, 30)
    && Filled(b, 0, false, 6)
    && var e := 70 + 10 * CountAt(b, 30); Filled(b, e, true, PadToByte(e))
  }

  /** The bit string starts with a complete, correctly padded RFC 8331 packet. */
  predicate StartsRfc8331(b: seq<bool>) {
    && TailFits(b, 32)
    && var e := 72 + 10 * CountAt(b, 32); Filled(b, e, false, PadToWord(e))
  }

  lemma {:induction false} PrefixBits(x: seq<bool>, k: nat, d: seq<byte>)
    requires |x| == 8 * k
    ensures Pack(x, k) <= d <==> At(Bits(d), 0, x)
  {
    if Pack(x, k) <= d {
      BitsSlice(d, 0, k);
      BitsOfPack(x, k);
      assert Pack(x, k) == d[0..k];
    }
    if At(Bits(d), 0, x) {
      BitsSlice(d, 0, k);
      PackOfBits(d[0..k]);
    }
  }

  lemma {:induction false} PrefixParts(d: seq<byte>, w: seq<bool>, x: seq<bool>, y: seq<bool>, bit: bool, n: nat,
                                       k: nat)
    requires |w| + |x| + |y| + n == 8 * k
    ensures Pack(w + x + y + Fill(bit, n), k) <= d <==>
      && At(Bits(d), 0, w) && At(Bits(d), |w|, x)
      && At(Bits(d), |w| + |x|, y) && Filled(Bits(d), |w| + |x| + |y|, bit, n)
  {
    var z := Fill(bit, n);
    AtAppend(Bits(d), 0, w, x);
    AtAppend(Bits(d), 0, w + x, y);
    AtAppend(Bits(d), 0, w + x + y, z);
    AtFill(Bits(d), |w| + |x| + |y|, bit, n);
    PrefixBits(w + x + y + z, k, d);
  }

  lemma {:induction false} PrefixSt2038(d: seq<byte>, m: Anc)
    ensures var e := 70 + 10 * |m.data|;
      St2038(m) <= d <==>
        && Filled(Bits(d), 0, false, 6) && At(Bits(d), 6, Head(m)) && At(Bits(d), 30, Tail(m))
        && Filled(Bits(d), e, true, PadToByte(e))
  {
    AtFill(Bits(d), 0, false, 6);
    var e := 70 + 10 * |m.data|;
    PrefixParts(d, Fill(false, 6), Head(m), Tail(m), true, PadToByte(e), BytesFor(e));
  }

  lemma {:induction false} PrefixRfc8331(d: seq<byte>, m: Anc, stream: byte)
    ensures var e := 72 + 10 * |m.data|;
      Rfc8331(m, stream) <= d <==>
        && At(Bits(d), 0, Head(m)) && At(Bits(d), 24, BitsOf(stream, 8)) && At(Bits(d), 32, Tail(m))
        && Filled(Bits(d), e, false, PadToWord(e))
  {
    var e := 72 + 10 * |m.data|;
    PrefixParts(d, Head(m), BitsOf(stream, 8), Tail(m), false, PadToWord(e), 4 * WordsFor(e));
  }

  lemma {:induction false} St2038Parts(b: seq<bool>, m: Anc)
    requires StartsSt2038(b) && m == AncAt(b, 6, 30)
    ensures var e := 70 + 10 * |m.data|;
      WellFormed(m) && At(b, 6, Head(m)) && At(b, 30, Tail(m)) && Filled(b, e, true, PadToByte(e))
  {
    assert |m.data| == CountAt(b, 30);
    AncAtSound(b, 6, 30, m);
  }

  lemma {:induction false} St2038Sound(d: seq<byte>, m: Anc)
    requires StartsSt2038(Bits(d)) && m == AncAt(Bits(d), 6, 30)
    ensures WellFormed(m) && St2038(m) <= d
  {
    St2038Parts(Bits(d), m);
    PrefixSt2038(d, m);
  }

  lemma {:induction false} St2038Starts(d: seq<byte>, m: Anc)
    requires WellFormed(m) && St2038(m) <= d
    ensures StartsSt2038(Bits(d))
  {
    PrefixSt2038(d, m);
    TailCount(Bits(d), 30, m);
  }

  lemma {:induction false} St2038Complete(d: seq<byte>, m: Anc)
    requires WellFormed(m) && St2038(m) <= d
    ensures StartsSt2038(Bits(d)) && AncAt(Bits(d), 6, 30) == m
  {
    St2038Starts(d, m);
    assert AncAt(Bits(d), 6, 30) == m by {
      PrefixSt2038(d, m);
      AncAtComplete(Bits(d), 6, 30, m);
    }
  }

  /** The octet of S and StreamNum of the RFC 8331 packet at the front. */
  function StreamAt(b: seq<bool>): (s: byte)
    requires |b| >= 32
  {
    Widths();
    Field(b, 24, 8)
  }

  lemma {:induction false} StreamStands(b: seq<bool>)
    requires |b| >= 32
    ensures At(b, 24, BitsOf(StreamAt(b), 8))
  {
    FieldStands(b, 24, 8);
  }

  lemma {:induction false} Rfc8331Parts(b: seq<bool>, m: Anc)
    requires StartsRfc8331(b) && m == AncAt(b, 0, 32)
    ensures var e := 72 + 10 * |m.data|;
      WellFormed(m) && At(b, 0, Head(m)) && At(b, 32, Tail(m)) && Filled(b, e, false, PadToWord(e))
  {
    assert |m.data| == CountAt(b, 32);
    AncAtSound(b, 0, 32, m);
  }

  lemma {:induction false} Rfc8331Sound(d: seq<byte>, m: Anc)
    requires StartsRfc8331(Bits(d)) && m == AncAt(Bits(d), 0, 32)
    ensures WellFormed(m) && Rfc8331(m, StreamAt(Bits(d))) <= d
  {
    Rfc8331Parts(Bits(d), m);
    StreamStands(Bits(d));
    PrefixRfc8331(d, m, StreamAt(Bits(d)));
  }

  lemma {:induction false} StreamComplete(d: seq<byte>, m: Anc, stream: byte)
    requires Rfc8331(m, stream) <= d
    ensures |Bits(d)| >= 32 && StreamAt(Bits(d)) == stream
  {
    Widths();
    PrefixRfc8331(d, m, stream);
    FieldIs(Bits(d), 24, 8, stream);
  }

  lemma {:induction false} Rfc8331Counts(d: seq<byte>, m: Anc, s: byte)
    requires WellFormed(m) && Rfc8331(m, s) <= d
    ensures StartsRfc8331(Bits(d)) && CountAt(Bits(d), 32) == |m.data|
  {
    PrefixRfc8331(d, m, s);
    TailCount(Bits(d), 32, m);
  }

  lemma {:induction false} Rfc8331Complete(d: seq<byte>, m: Anc, stream: byte)
    requires WellFormed(m) && Rfc8331(m, stream) <= d
    ensures StartsRfc8331(Bits(d)) && AncAt(Bits(d), 0, 32) == m
  {
    Rfc8331Counts(d, m, stream);
    assert AncAt(Bits(d), 0, 32) == m by {
      PrefixRfc8331(d, m, stream);
      AncAtComplete(Bits(d), 0, 32, m);
    }
  }

  // --- Consequences ------------------------------------------------------------------------------

  lemma {:induction false} NoSt2038(d: seq<byte>)
    requires !StartsSt2038(Bits(d))
    ensures forall m | WellFormed(m) :: !(St2038(m) <= d)
  {
    forall m | WellFormed(m) && St2038(m) <= d
      ensures false
    {
      St2038Complete(d, m);
    }
  }

  lemma {:induction false} NoRfc8331(d: seq<byte>)
    requires !StartsRfc8331(Bits(d))
    ensures forall m, s | WellFormed(m) :: !(Rfc8331(m, s) <= d)
  {
    forall m, s | WellFormed(m) && Rfc8331(m, s) <= d
      ensures false
    {
      Rfc8331Complete(d, m, s);
    }
  }

  /** No packet is a proper prefix of another: packets delimit themselves. */
  lemma {:induction false} St2038Unique(d: seq<byte>, m: Anc, m': Anc)
    requires WellFormed(m) && WellFormed(m') && St2038(m) <= d && St2038(m') <= d
    ensures m == m'
  {
    St2038Complete(d, m);
    St2038Complete(d, m');
  }

  lemma {:induction false} Rfc8331Unique(d: seq<byte>, m: Anc, m': Anc, s: byte, s': byte)
    requires WellFormed(m) && WellFormed(m') && Rfc8331(m, s) <= d && Rfc8331(m', s') <= d
    ensures m == m' && s == s'
  {
    Rfc8331Complete(d, m, s);
    Rfc8331Complete(d, m', s');
    StreamComplete(d, m, s);
    StreamComplete(d, m', s');
  }

  /** `d` ends before the RFC 8331 packet it starts does. */
  ghost predicate CutShort(d: seq<byte>) {
    exists m, s :: WellFormed(m) && d < Rfc8331(m, s)
  }

  /** What is there of the packet is in order, but its last padding bit is missing. */
  predicate Unfinished(b: seq<bool>) {
    TailFits(b, 32) ==>
      var e := 72 + 10 * CountAt(b, 32);
      |b| < e + PadToWord(e) && forall i | e <= i < |b| :: !b[i]
  }

  lemma {:induction false} CountOfPrefix(b: seq<bool>, c: seq<bool>, t: nat)
    requires b <= c && t + 30 <= |b|
    ensures CountAt(b, t) == CountAt(c, t)
  {
    assert b[t + 20..t + 30] == c[t + 20..t + 30];
  }

  lemma {:induction false} PrefixIsUnfinished(b: seq<bool>, c: seq<bool>)
    requires b < c && StartsRfc8331(c)
    requires var e := 72 + 10 * CountAt(c, 32); |c| == e + PadToWord(e)
    ensures Unfinished(b)
  {
    if TailFits(b, 32) {
      CountOfPrefix(b, c, 32);
    }
  }

  lemma {:induction false} CutShortIsUnfinished(d: seq<byte>, m: Anc, s: byte)
    requires WellFormed(m) && d < Rfc8331(m, s)
    ensures Unfinished(Bits(d))
  {
    var f := Rfc8331(m, s);
    BitsSlice(f, 0, |d|);
    assert d == f[0..|d|];
    Rfc8331Counts(f, m, s);
    PrefixIsUnfinished(Bits(d), Bits(f));
  }

  lemma {:induction false} UnfinishedIsCutShort(d: seq<byte>, z: seq<byte>)
    requires Unfinished(Bits(d)) && |z| == 400 && (forall i | 0 <= i < |z| :: z[i] == 0)
    ensures CutShort(d)
  {
    ZerosBehind(d, z);
    UnfinishedExtends(Bits(d), Bits(d + z));
    FinishedIsCutShort(d, z);
  }

  lemma {:induction false} FirstRfc8331(d: seq<byte>) returns (m: Anc, s: byte)
    requires StartsRfc8331(Bits(d))
    ensures WellFormed(m) && Rfc8331(m, s) <= d && |m.data| == CountAt(Bits(d), 32)
  {
    m, s := AncAt(Bits(d), 0, 32), StreamAt(Bits(d));
    Rfc8331Sound(d, m);
  }

  lemma {:induction false} FinishedIsCutShort(d: seq<byte>, z: seq<byte>)
    requires StartsRfc8331(Bits(d + z))
    requires var e := 72 + 10 * CountAt(Bits(d + z), 32); 8 * |d| < e + PadToWord(e)
    ensures CutShort(d)
  {
    var m, s := FirstRfc8331(d + z);
    CutShortBy(d, z, m, s);
  }

  lemma {:induction false} ZerosBehind(d: seq<byte>, z: seq<byte>)
    requires forall i | 0 <= i < |z| :: z[i] == 0
    ensures Bits(d) <= Bits(d + z)
    ensures forall i | |Bits(d)| <= i < |Bits(d + z)| :: !Bits(d + z)[i]
  {
    BitsAppend(d, z);
    ZeroBits(z);
  }

  /** Zeros enough behind an unfinished packet finish it, past its old end. */
  lemma {:induction false} UnfinishedExtends(b: seq<bool>, c: seq<bool>)
    requires Unfinished(b) && b <= c && |b| + 3200 <= |c| && (forall i | |b| <= i < |c| :: !c[i])
    ensures StartsRfc8331(c)
    ensures var e := 72 + 10 * CountAt(c, 32); |b| < e + PadToWord(e)
  {
    var e := 72 + 10 * CountAt(c, 32);
    if 62 <= |b| {
      CountOfPrefix(b, c, 32);
    }
  }

  lemma {:induction false} CutShortBy(d: seq<byte>, z: seq<byte>, m: Anc, s: byte)
    requires WellFormed(m) && Rfc8331(m, s) <= d + z
    requires var e := 72 + 10 * |m.data|; 8 * |d| < e + PadToWord(e)
    ensures CutShort(d)
  {
    assert d == Rfc8331(m, s)[..|d|];
  }

  lemma {:induction false} CutShortBits(d: seq<byte>)
    ensures CutShort(d) <==> Unfinished(Bits(d))
  {
    if CutShort(d) {
      var m, s :| WellFormed(m) && d < Rfc8331(m, s);
      CutShortIsUnfinished(d, m, s);
    }
    if Unfinished(Bits(d)) {
      UnfinishedIsCutShort(d, seq(400, _ => 0));
    }
  }
}
