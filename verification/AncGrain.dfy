/** Whole buffers: ST 2038 packets back to back, and the 4096-byte `video/smpte291` grain. */
module AncGrain {
  import opened BitString
  import opened AncPacket
  import opened Delimited
  import opened BitIo
  import opened AncCodec
  import opened AncWrite

  const GRAIN_SIZE := 4096
  const HEADER_SIZE := 6

  predicate AllWellFormed(ms: seq<Anc>) {
    forall i | 0 <= i < |ms| :: WellFormed(ms[i])
  }

  function St2038Words(ms: seq<Anc>): (cs: seq<Bytes>)
    ensures |cs| == |ms| && forall i | 0 <= i < |ms| :: cs[i] == St2038(ms[i])
  {
    seq(|ms|, i requires 0 <= i < |ms| => St2038(ms[i]))
  }

  function Rfc8331Words(ms: seq<Anc>, streams: seq<byte>): (cs: seq<Bytes>)
    requires |ms| == |streams|
    ensures |cs| == |ms| && forall i | 0 <= i < |ms| :: cs[i] == Rfc8331(ms[i], streams[i])
  {
    seq(|ms|, i requires 0 <= i < |ms| => Rfc8331(ms[i], streams[i]))
  }

  /** ST 2038 packets back to back. */
  function St2038All(ms: seq<Anc>): seq<byte> {
    Flat(St2038Words(ms))
  }

  /** RFC 8331 packets back to back, each with its octet of S and StreamNum. */
  function Rfc8331All(ms: seq<Anc>, streams: seq<byte>): seq<byte>
    requires |ms| == |streams|
  {
    Flat(Rfc8331Words(ms, streams))
  }

  function Zeros(n: nat): (s: seq<byte>)
    ensures |s| == n && forall i | 0 <= i < n :: s[i] == 0
  {
    seq(n, _ => 0)
  }

  /** The payload the encoder writes: S and StreamNum zero in every packet. */
  function Payload(ms: seq<Anc>): seq<byte> {
    Rfc8331All(ms, Zeros(|ms|))
  }

  /** `st2038` is the concatenation of these packets and they fit one grain. */
  ghost predicate Encodable(st2038: seq<byte>, ms: seq<Anc>) {
    && AllWellFormed(ms) && St2038All(ms) == st2038
    && |ms| <= 255 && |Payload(ms)| <= GRAIN_SIZE - HEADER_SIZE
  }

  /** Length (big endian), ANC_Count, F and reserved, the packets, and zeros to the end of the grain. */
  function Grain(ms: seq<Anc>): (g: seq<byte>)
    requires |ms| <= 255 && |Payload(ms)| <= GRAIN_SIZE - HEADER_SIZE
    ensures |g| == GRAIN_SIZE
  {
    var n := |Payload(ms)|;
    [n / 0x100, n % 0x100, |ms|, 0, 0, 0] + Payload(ms) + Zeros(GRAIN_SIZE - HEADER_SIZE - n)
  }

  function LengthField(g: seq<byte>): nat
    requires |g| >= HEADER_SIZE
  {
    0x100 * (g[0] as int) + g[1] as int
  }

  /** The grain holds exactly these packets, with these S and StreamNum octets. */
  ghost predicate Decodable(g: seq<byte>, ms: seq<Anc>, streams: seq<byte>) {
    && |g| >= HEADER_SIZE && HEADER_SIZE + LengthField(g) <= |g|
    && |ms| == |streams| == g[2] && AllWellFormed(ms)
    && g[HEADER_SIZE..HEADER_SIZE + LengthField(g)] == Rfc8331All(ms, streams)
  }

  // --- Splitting is unique -----------------------------------------------------------------------

  lemma {:induction false} St2038Prefix(m: Anc, m': Anc)
    requires WellFormed(m) && WellFormed(m') && St2038(m) <= St2038(m')
    ensures m == m'
  {
    St2038Unique(St2038(m'), m, m');
  }

  lemma {:induction false} Rfc8331Prefix(m: Anc, m': Anc, s: byte, s': byte)
    requires WellFormed(m) && WellFormed(m') && Rfc8331(m, s) <= Rfc8331(m', s')
    ensures m == m' && s == s'
  {
    Rfc8331Unique(Rfc8331(m', s'), m, m', s, s');
  }

  lemma {:induction false} St2038NoneInside(ms: seq<Anc>, ns: seq<Anc>)
    requires AllWellFormed(ms) && AllWellFormed(ns)
    ensures NoneInside(St2038Words(ms), St2038Words(ns))
  {
    var cs, ds := St2038Words(ms), St2038Words(ns);
    forall i, j | 0 <= i < |cs| && 0 <= j < |ds| && (cs[i] <= ds[j] || ds[j] <= cs[i])
      ensures cs[i] == ds[j]
    {
      if cs[i] <= ds[j] {
        St2038Prefix(ms[i], ns[j]);
      } else {
        St2038Prefix(ns[j], ms[i]);
      }
    }
  }

  lemma {:induction false} Rfc8331NoneInside(ms: seq<Anc>, ss: seq<byte>, ns: seq<Anc>, ts: seq<byte>)
    requires AllWellFormed(ms) && AllWellFormed(ns) && |ms| == |ss| && |ns| == |ts|
    ensures NoneInside(Rfc8331Words(ms, ss), Rfc8331Words(ns, ts))
  {
    var cs, ds := Rfc8331Words(ms, ss), Rfc8331Words(ns, ts);
    forall i, j | 0 <= i < |cs| && 0 <= j < |ds| && (cs[i] <= ds[j] || ds[j] <= cs[i])
      ensures cs[i] == ds[j]
    {
      if cs[i] <= ds[j] {
        Rfc8331Prefix(ms[i], ns[j], ss[i], ts[j]);
      } else {
        Rfc8331Prefix(ns[j], ms[i], ts[j], ss[i]);
      }
    }
  }

  /** A buffer is the concatenation of well-formed ST 2038 packets in at most one way. */
  lemma {:induction false} St2038SplitUnique(ms: seq<Anc>, ns: seq<Anc>)
    requires AllWellFormed(ms) && AllWellFormed(ns) && St2038All(ms) == St2038All(ns)
    ensures ms == ns
  {
    St2038NoneInside(ms, ns);
    SplitUnique(St2038Words(ms), St2038Words(ns));
    forall i | 0 <= i < |ms|
      ensures ms[i] == ns[i]
    {
      assert St2038Words(ms)[i] == St2038Words(ns)[i];
      St2038Prefix(ms[i], ns[i]);
    }
  }

  /** A payload is the concatenation of RFC 8331 packets in at most one way. */
  lemma {:induction false} Rfc8331SplitUnique(ms: seq<Anc>, ss: seq<byte>, ns: seq<Anc>, ts: seq<byte>)
    requires AllWellFormed(ms) && AllWellFormed(ns) && |ms| == |ss| && |ns| == |ts|
    requires Rfc8331All(ms, ss) == Rfc8331All(ns, ts)
    ensures ms == ns && ss == ts
  {
    Rfc8331NoneInside(ms, ss, ns, ts);
    SplitUnique(Rfc8331Words(ms, ss), Rfc8331Words(ns, ts));
    assert |ms| == |ns|;
    forall i | 0 <= i < |ms|
      ensures ms[i] == ns[i] && ss[i] == ts[i]
    {
      assert Rfc8331Words(ms, ss)[i] == Rfc8331Words(ns, ts)[i];
      Rfc8331Prefix(ms[i], ns[i], ss[i], ts[i]);
    }
  }

  // --- Encoding ----------------------------------------------------------------------------------

  /** After the packets `ms`, a non-empty rest belongs to further packets of any split. */
  lemma {:induction false} MoreToCome(st2038: seq<byte>, ms: seq<Anc>, rest: seq<byte>, ns: seq<Anc>)
    requires AllWellFormed(ms) && St2038All(ms) + rest == st2038 && rest != []
    requires AllWellFormed(ns) && St2038All(ns) == st2038
    ensures |ms| < |ns| && St2038(ns[|ms|]) <= rest
  {
    St2038NoneInside(ms, ns);
    var cs, k := St2038Words(ns), |ms|;
    SplitStarts(St2038Words(ms), rest, cs);
    assert cs[k..] != [];
    FlatFirst(cs[k..]);
    assert cs[k..][0] == cs[k];
  }

  lemma {:induction false} Rfc8331Snoc(ms: seq<Anc>, ss: seq<byte>, m: Anc, s: byte)
    requires |ms| == |ss|
    ensures Rfc8331All(ms + [m], ss + [s]) == Rfc8331All(ms, ss) + Rfc8331(m, s)
  {
    assert Rfc8331Words(ms + [m], ss + [s]) == Rfc8331Words(ms, ss) + [Rfc8331(m, s)];
    FlatSnoc(Rfc8331Words(ms, ss), Rfc8331(m, s));
  }

  lemma {:induction false} PayloadSnoc(ms: seq<Anc>, m: Anc)
    ensures Payload(ms + [m]) == Payload(ms) + Rfc8331(m, 0)
  {
    assert Zeros(|ms| + 1) == Zeros(|ms|) + [0];
    Rfc8331Snoc(ms, Zeros(|ms|), m, 0);
  }

  lemma {:induction false} St2038Snoc(ms: seq<Anc>, m: Anc)
    ensures St2038All(ms + [m]) == St2038All(ms) + St2038(m)
  {
    assert St2038Words(ms + [m]) == St2038Words(ms) + [St2038(m)];
    FlatSnoc(St2038Words(ms), St2038(m));
  }

  /** The header with all fields zero; Length and ANC_Count are filled in at the end. */
  method WriteEmptyHeader(smpte291: ByteVec)
    requires smpte291.bytes == []
    modifies smpte291
    ensures smpte291.bytes == Zeros(HEADER_SIZE)
  {
    var w := new BitWriter(smpte291);
    var _ := w.Write(16, 0, Io);
    var _ := w.Write(8, 0, Io);
    var _ := w.Write(2, 0, Io);
    var _ := w.Write(22, 0, Io);
    BitsOfZero(16);
    BitsOfZero(8);
    BitsOfZero(2);
    BitsOfZero(22);
    assert |w.Written()| == 48 && forall i | 0 <= i < 48 :: !w.Written()[i];
    assert |w.Written()| == 8 * |smpte291.bytes| + |w.queue|;
    assert w.Written() == Bits(smpte291.bytes);
    ZeroBits(Zeros(6));
    BitsInjective(smpte291.bytes, Zeros(6));
  }

  /** Fills the grain with zeros, or refuses a payload that does not fit. */
  method PadGrain(buf: ByteVec) returns (res: Result<()>)
    modifies buf
    ensures res.Ok? <==> |old(buf.bytes)| <= GRAIN_SIZE
    ensures res.Ok? ==> buf.bytes == old(buf.bytes) + Zeros(GRAIN_SIZE - |old(buf.bytes)|)
    ensures res.Err? ==> res.error == Invalid && buf.bytes == old(buf.bytes)
  {
    if |buf.bytes| > GRAIN_SIZE {
      return Err(Invalid);
    }
    buf.bytes := buf.bytes + Zeros(GRAIN_SIZE - |buf.bytes|);
    return Ok(());
  }

  lemma {:induction false} EncodeStep(st2038: seq<byte>, ms: seq<Anc>, before: seq<byte>, m: Anc, rest: seq<byte>,
                                      out: seq<byte>)
    requires St2038All(ms) + before == st2038 && before == St2038(m) + rest
    ensures St2038All(ms + [m]) + rest == st2038
    ensures out + Payload(ms) + Rfc8331(m, 0) == out + Payload(ms + [m])
    ensures |rest| < |before|
  {
    St2038Snoc(ms, m);
    PayloadSnoc(ms, m);
    Assoc(St2038All(ms), St2038(m), rest);
    Assoc(out, Payload(ms), Rfc8331(m, 0));
  }

  /** Carries every packet over, at most 255 of them. */
  method CarryAll(st2038: seq<byte>, smpte291: ByteVec) returns (res: Result<nat>, ghost ms: seq<Anc>)
    modifies smpte291
    ensures res.Ok? ==> AllWellFormed(ms) && St2038All(ms) == st2038 && res.value == |ms| <= 255
    ensures res.Ok? ==> smpte291.bytes == old(smpte291.bytes) + Payload(ms)
    ensures res.Err? ==> res.error == Invalid && forall ns :: !Encodable(st2038, ns)
  {
    var ancCount, remaining := 0, st2038;
    ms := [];
    while remaining != []
      invariant AllWellFormed(ms) && |ms| == ancCount <= 255
      invariant St2038All(ms) + remaining == st2038
      invariant smpte291.bytes == old(smpte291.bytes) + Payload(ms)
      decreases |remaining|
    {
      ghost var before := remaining;
      if ancCount == 255 {
        TooMany(st2038, ms, remaining);
        return Err(Invalid), ms;
      }
      var carried;
      carried, remaining := Rfc8331FromSt2038(smpte291, remaining);
      if carried.Err? {
        Stuck(st2038, ms, before);
        return Err(carried.error), ms;
      }
      ghost var m :| WellFormed(m) && before == St2038(m) + remaining
                  && smpte291.bytes == old(smpte291.bytes) + Payload(ms) + Rfc8331(m, 0);
      EncodeStep(st2038, ms, before, m, remaining, old(smpte291.bytes));
      ms := ms + [m];
      ancCount := ancCount + 1;
    }
    assert St2038All(ms) + [] == St2038All(ms);
    return Ok(ancCount), ms;
  }

  /** Makes a `video/smpte291` grain from a buffer of ST 2038 packets. */
  method GrainFromSt2038(st2038: seq<byte>) returns (res: Result<seq<byte>>)
    ensures res.Ok? ==> exists ms :: Encodable(st2038, ms) && res.value == Grain(ms)
    ensures res.Err? ==> res.error == Invalid && forall ms :: !Encodable(st2038, ms)
  {
    var smpte291 := new ByteVec();
    WriteEmptyHeader(smpte291);
    var headerLen := |smpte291.bytes|;
    var carried;
    ghost var ms;
    carried, ms := CarryAll(st2038, smpte291);
    if carried.Err? {
      return Err(carried.error);
    }
    var length := |smpte291.bytes| - headerLen;
    if length > 0xffff {
      OnlySplit(st2038, ms);
      return Err(Invalid);
    }
    HeaderFilled(smpte291.bytes, length, carried.value, ms);
    smpte291.bytes := [length / 0x100, length % 0x100, carried.value] + smpte291.bytes[3..];
    var padded := PadGrain(smpte291);
    if padded.Err? {
      OnlySplit(st2038, ms);
      return Err(padded.error);
    }
    assert Encodable(st2038, ms);
    return Ok(smpte291.bytes);
  }

  lemma {:induction false} HeaderFilled(g: seq<byte>, length: nat, count: nat, ms: seq<Anc>)
    requires g == Zeros(HEADER_SIZE) + Payload(ms) && length == |Payload(ms)| <= 0xffff && count == |ms| <= 255
    ensures [length / 0x100, length % 0x100, count] + g[3..] ==
            [length / 0x100, length % 0x100, |ms|, 0, 0, 0] + Payload(ms)
  {
  }

  lemma {:induction false} TooMany(st2038: seq<byte>, ms: seq<Anc>, rest: seq<byte>)
    requires AllWellFormed(ms) && St2038All(ms) + rest == st2038 && rest != [] && |ms| == 255
    ensures forall ns :: !Encodable(st2038, ns)
  {
    forall ns | Encodable(st2038, ns)
      ensures false
    {
      MoreToCome(st2038, ms, rest, ns);
    }
  }

  lemma {:induction false} Stuck(st2038: seq<byte>, ms: seq<Anc>, rest: seq<byte>)
    requires AllWellFormed(ms) && St2038All(ms) + rest == st2038 && rest != []
    requires forall m | WellFormed(m) :: !(St2038(m) <= rest)
    ensures forall ns :: !Encodable(st2038, ns)
  {
    forall ns | Encodable(st2038, ns)
      ensures false
    {
      MoreToCome(st2038, ms, rest, ns);
    }
  }

  lemma {:induction false} OnlySplit(st2038: seq<byte>, ms: seq<Anc>)
    requires AllWellFormed(ms) && St2038All(ms) == st2038 && |Payload(ms)| > GRAIN_SIZE - HEADER_SIZE
    ensures forall ns :: !Encodable(st2038, ns)
  {
    forall ns | Encodable(st2038, ns)
      ensures false
    {
      St2038SplitUnique(ms, ns);
    }
  }

  // --- Decoding ----------------------------------------------------------------------------------

  lemma {:induction false} HeaderFields(g: seq<byte>)
    requires |g| >= 3
    ensures Field(Bits(g), 0, 16) == 0x100 * (g[0] as int) + g[1] as int && Field(Bits(g), 16, 8) == g[2]
  {
    var b := Bits(g);
    Widths();
    OctetValue(g, 0);
    OctetValue(g, 1);
    OctetValue(g, 2);
    assert b[0..16] == b[0..8] + b[8..16];
    ValueAppend(b[0..8], b[8..16]);
  }

  lemma {:induction false} OctetValue(g: seq<byte>, i: nat)
    requires i < |g|
    ensures Value(Bits(g)[8 * i..8 * i + 8]) == g[i]
  {
    Widths();
    OctetBits(g, i);
    ValueOfBits(g[i], 8);
  }

  /** The payload is there as long as Length says, but the packets run out of it before ANC_Count does. */
  ghost predicate Truncated(g: seq<byte>) {
    |g| < HEADER_SIZE ||
    (HEADER_SIZE + LengthField(g) <= |g| && PayloadTruncated(g[HEADER_SIZE..HEADER_SIZE + LengthField(g)], g[2]))
  }

  ghost predicate PayloadTruncated(payload: seq<byte>, count: nat) {
    exists ms, ss, rest :: TruncatedAfter(payload, count, ms, ss, rest)
  }

  ghost predicate TruncatedAfter(payload: seq<byte>, count: nat, ms: seq<Anc>, ss: seq<byte>, rest: seq<byte>) {
    && |ms| == |ss| < count && AllWellFormed(ms)
    && payload == Rfc8331All(ms, ss) + rest && CutShort(rest)
  }

  /** Length and ANC_Count; F and reserved are skipped. */
  method ReadHeader(grain: seq<byte>) returns (res: Result<(nat, nat)>, headerLen: nat)
    ensures res.Ok? <==> |grain| >= HEADER_SIZE
    ensures res.Ok? ==> headerLen == HEADER_SIZE && res.value == (LengthField(grain), grain[2] as nat)
    ensures res.Err? ==> res.error == Io
  {
    headerLen := 0;
    var r := new BitReader(grain);
    if |grain| >= 3 {
      HeaderFields(grain);
    }
    var length :- r.Read(16, Io);
    var ancCount :- r.Read(8, Io);
    var _ :- r.Read(2, Io);
    var _ :- r.Read(22, Io);
    return Ok((length, ancCount)), r.byteAt;
  }

  /** Makes a buffer of ST 2038 packets from a `video/smpte291` grain. */
  method St2038FromGrain(grain: seq<byte>) returns (res: Result<seq<byte>>)
    ensures res.Ok? ==> exists ms, ss :: Decodable(grain, ms, ss) && res.value == St2038All(ms)
    ensures res.Err? ==> forall ms, ss :: !Decodable(grain, ms, ss)
    ensures res.Err? ==> (res.error == Io <==> Truncated(grain))
  {
    var header, headerLen := ReadHeader(grain);
    if header.Err? {
      return Err(Io);
    }
    var (length, ancCount) := header.value;
    if headerLen + length > |grain| {
      return Err(Invalid);
    }
    var payload := grain[headerLen..headerLen + length];
    res := St2038FromPayload(payload, ancCount);
    if res.Ok? {
      ghost var ms, ss :| |ms| == |ss| == ancCount && AllWellFormed(ms)
                       && payload == Rfc8331All(ms, ss) && res.value == St2038All(ms);
      assert Decodable(grain, ms, ss);
    }
  }

  method St2038FromPayload(payload: seq<byte>, ancCount: nat) returns (res: Result<seq<byte>>)
    ensures res.Ok? ==> exists ms, ss ::
      |ms| == |ss| == ancCount && AllWellFormed(ms) && payload == Rfc8331All(ms, ss) && res.value == St2038All(ms)
    ensures res.Err? ==> forall ms, ss | |ms| == |ss| == ancCount && AllWellFormed(ms) :: payload != Rfc8331All(ms, ss)
    ensures res.Err? ==> (res.error == Io <==> PayloadTruncated(payload, ancCount))
  {
    var st2038 := new ByteVec();
    var remaining := payload;
    ghost var ms: seq<Anc>, ss: seq<byte> := [], [];
    for i := 0 to ancCount
      invariant fresh(st2038)
      invariant |ms| == |ss| == i && AllWellFormed(ms)
      invariant Rfc8331All(ms, ss) + remaining == payload && st2038.bytes == St2038All(ms)
    {
      ghost var before := remaining;
      var carried;
      carried, remaining := St2038FromRfc8331(st2038, remaining);
      if carried.Err? {
        DecodeStuck(payload, ancCount, ms, ss, before);
        return Err(carried.error);
      }
      ghost var m, s :| WellFormed(m) && before == Rfc8331(m, s) + remaining
                     && st2038.bytes == St2038All(ms) + St2038(m);
      DecodeStep(payload, ms, ss, before, m, s, remaining);
      ms, ss := ms + [m], ss + [s];
    }
    if remaining != [] {
      DecodeLeftover(payload, ancCount, ms, ss, remaining);
      return Err(Invalid);
    }
    assert payload == Rfc8331All(ms, ss);
    return Ok(st2038.bytes);
  }

  lemma {:induction false} DecodeStep(payload: seq<byte>, ms: seq<Anc>, ss: seq<byte>, before: seq<byte>, m: Anc,
                                      s: byte, rest: seq<byte>)
    requires |ms| == |ss| && Rfc8331All(ms, ss) + before == payload && before == Rfc8331(m, s) + rest
    ensures Rfc8331All(ms + [m], ss + [s]) + rest == payload
    ensures St2038All(ms + [m]) == St2038All(ms) + St2038(m)
  {
    St2038Snoc(ms, m);
    Rfc8331Snoc(ms, ss, m, s);
    Assoc(Rfc8331All(ms, ss), Rfc8331(m, s), rest);
  }

  /** What follows `k` packets starts with packet `k`, if there is one. */
  lemma {:induction false} PacketFollows(ms: seq<Anc>, ss: seq<byte>, k: nat, rest: seq<byte>, tail: seq<byte>)
    requires |ms| == |ss| && k < |ms| && tail == Flat(Rfc8331Words(ms, ss)[k..]) + rest
    ensures Rfc8331(ms[k], ss[k]) <= tail
  {
    var cs := Rfc8331Words(ms, ss);
    FlatFirst(cs[k..]);
    assert cs[k..][0] == cs[k];
  }

  lemma {:induction false} CompletePacketIsNotCutShort(d: seq<byte>, m: Anc, s: byte)
    requires WellFormed(m) && Rfc8331(m, s) <= d
    ensures !CutShort(d)
  {
    if CutShort(d) {
      var m', s' :| WellFormed(m') && d < Rfc8331(m', s');
      Rfc8331Prefix(m, m', s, s');
    }
  }

  /** Where a decoder that has taken `ms` stands, seen from any other way to take packets. */
  lemma {:induction false} DecodeCompare(payload: seq<byte>, ms: seq<Anc>, ss: seq<byte>, rest: seq<byte>,
                      ns: seq<Anc>, ts: seq<byte>, rest': seq<byte>)
    requires |ms| == |ss| && |ns| == |ts| && AllWellFormed(ms) && AllWellFormed(ns)
    requires Rfc8331All(ms, ss) + rest == payload == Rfc8331All(ns, ts) + rest'
    ensures |ms| < |ns| ==> Rfc8331(ns[|ms|], ts[|ms|]) <= rest
    ensures |ns| < |ms| ==> Rfc8331(ms[|ns|], ss[|ns|]) <= rest'
    ensures |ms| == |ns| ==> rest == rest'
  {
    Rfc8331NoneInside(ms, ss, ns, ts);
    var cs, ds := Rfc8331Words(ms, ss), Rfc8331Words(ns, ts);
    if |ms| <= |ns| {
      SplitCompare(cs, rest, ds, rest');
      if |ms| < |ns| {
        PacketFollows(ns, ts, |ms|, rest', rest);
      } else {
        assert ds[|ms|..] == [];
      }
    } else {
      assert NoneInside(ds, cs);
      SplitCompare(ds, rest', cs, rest);
      PacketFollows(ms, ss, |ns|, rest, rest');
    }
  }

  lemma {:induction false} DecodeStuck(payload: seq<byte>, count: nat, ms: seq<Anc>, ss: seq<byte>, rest: seq<byte>)
    requires |ms| == |ss| < count && AllWellFormed(ms) && Rfc8331All(ms, ss) + rest == payload
    requires forall m, s | WellFormed(m) :: !(Rfc8331(m, s) <= rest)
    ensures forall ns, ts | |ns| == |ts| == count && AllWellFormed(ns) :: payload != Rfc8331All(ns, ts)
    ensures CutShort(rest) <==> PayloadTruncated(payload, count)
  {
    forall ns, ts | |ns| == |ts| == count && AllWellFormed(ns)
      ensures payload != Rfc8331All(ns, ts)
    {
      if payload == Rfc8331All(ns, ts) {
        assert payload == Rfc8331All(ns, ts) + [];
        DecodeCompare(payload, ms, ss, rest, ns, ts, []);
      }
    }
    if CutShort(rest) {
      assert TruncatedAfter(payload, count, ms, ss, rest);
    }
    forall ns, ts, rest' | TruncatedAfter(payload, count, ns, ts, rest')
      ensures CutShort(rest)
    {
      DecodeCompare(payload, ms, ss, rest, ns, ts, rest');
      if |ns| < |ms| {
        CompletePacketIsNotCutShort(rest', ms[|ns|], ss[|ns|]);
      }
    }
  }

  lemma {:induction false} DecodeLeftover(payload: seq<byte>, count: nat, ms: seq<Anc>, ss: seq<byte>,
                                          rest: seq<byte>)
    requires |ms| == |ss| == count && AllWellFormed(ms) && Rfc8331All(ms, ss) + rest == payload && rest != []
    ensures forall ns, ts | |ns| == |ts| == count && AllWellFormed(ns) :: payload != Rfc8331All(ns, ts)
    ensures !PayloadTruncated(payload, count)
  {
    forall ns, ts | |ns| == |ts| == count && AllWellFormed(ns)
      ensures payload != Rfc8331All(ns, ts)
    {
      if payload == Rfc8331All(ns, ts) {
        assert payload == Rfc8331All(ns, ts) + [];
        DecodeCompare(payload, ms, ss, rest, ns, ts, []);
      }
    }
    forall ns, ts, rest' | TruncatedAfter(payload, count, ns, ts, rest')
      ensures false
    {
      DecodeCompare(payload, ms, ss, rest, ns, ts, rest');
      CompletePacketIsNotCutShort(rest', ms[|ns|], ss[|ns|]);
    }
  }

  // --- There and back ----------------------------------------------------------------------------

  ghost predicate EncodesTo(st2038: seq<byte>, grain: seq<byte>) {
    exists ms :: Encodable(st2038, ms) && grain == Grain(ms)
  }

  ghost predicate DecodesTo(grain: seq<byte>, st2038: seq<byte>) {
    exists ms, ss :: Decodable(grain, ms, ss) && st2038 == St2038All(ms)
  }

  lemma {:induction false} GrainFields(ms: seq<Anc>)
    requires |ms| <= 255 && |Payload(ms)| <= GRAIN_SIZE - HEADER_SIZE
    ensures var g, n := Grain(ms), |Payload(ms)|;
      && LengthField(g) == n && g[2] == |ms| && g[3..HEADER_SIZE] == [0, 0, 0]
      && g[HEADER_SIZE..HEADER_SIZE + n] == Payload(ms)
      && g[HEADER_SIZE + n..] == Zeros(GRAIN_SIZE - HEADER_SIZE - n)
  {
    var g, n := Grain(ms), |Payload(ms)|;
    var h := [n / 0x100, n % 0x100, |ms|, 0, 0, 0];
    assert g[..HEADER_SIZE] == h;
    assert g[3..HEADER_SIZE] == h[3..6] == [0, 0, 0];
  }

  lemma {:induction false} DecodableUnique(g: seq<byte>, ms: seq<Anc>, ss: seq<byte>, ns: seq<Anc>, ts: seq<byte>)
    requires Decodable(g, ms, ss) && Decodable(g, ns, ts)
    ensures ms == ns && ss == ts
  {
    Rfc8331SplitUnique(ms, ss, ns, ts);
  }

  lemma {:induction false} EncodedIsDecodable(st2038: seq<byte>, ms: seq<Anc>)
    requires Encodable(st2038, ms)
    ensures Decodable(Grain(ms), ms, Zeros(|ms|))
  {
    GrainFields(ms);
  }

  /** Decoding an encoded buffer gives that buffer back, byte for byte, and nothing else. */
  lemma {:induction false} RoundTrip(st2038: seq<byte>, grain: seq<byte>, back: seq<byte>)
    requires EncodesTo(st2038, grain)
    ensures DecodesTo(grain, back) <==> back == st2038
  {
    var ms :| Encodable(st2038, ms) && grain == Grain(ms);
    EncodedIsDecodable(st2038, ms);
    if DecodesTo(grain, back) {
      var ns, ts :| Decodable(grain, ns, ts) && back == St2038All(ns);
      DecodableUnique(grain, ms, Zeros(|ms|), ns, ts);
    }
  }

  lemma {:induction false} SameLengths(cs: seq<Bytes>, ds: seq<Bytes>)
    requires |cs| == |ds| && forall i | 0 <= i < |cs| :: |cs[i]| == |ds[i]|
    ensures |Flat(cs)| == |Flat(ds)|
  {
    if cs != [] {
      SameLengths(cs[..|cs| - 1], ds[..|ds| - 1]);
    }
  }

  lemma {:induction false} PayloadLength(ms: seq<Anc>, ss: seq<byte>)
    requires |ms| == |ss|
    ensures |Payload(ms)| == |Rfc8331All(ms, ss)|
  {
    SameLengths(Rfc8331Words(ms, Zeros(|ms|)), Rfc8331Words(ms, ss));
  }

  lemma {:induction false} EncodedIs(ms: seq<Anc>, n: seq<byte>)
    requires AllWellFormed(ms) && EncodesTo(St2038All(ms), n)
    ensures Encodable(St2038All(ms), ms) && n == Grain(ms)
  {
    var ns :| Encodable(St2038All(ms), ns) && n == Grain(ns);
    St2038SplitUnique(ms, ns);
  }

  /** What a grain decodes to can be encoded again exactly if its Length leaves room for the header in 4096 bytes. */
  lemma {:induction false} NormalFormExists(g: seq<byte>, st2038: seq<byte>)
    requires DecodesTo(g, st2038)
    ensures (exists n :: EncodesTo(st2038, n)) <==> LengthField(g) <= GRAIN_SIZE - HEADER_SIZE
  {
    var ms, ss :| Decodable(g, ms, ss) && st2038 == St2038All(ms);
    PayloadLength(ms, ss);
    if LengthField(g) <= GRAIN_SIZE - HEADER_SIZE {
      assert Encodable(st2038, ms);
      assert EncodesTo(st2038, Grain(ms));
    }
    if n :| EncodesTo(st2038, n) {
      EncodedIs(ms, n);
    }
  }

  /**
   Decoding a grain and encoding the result gives the grain's normal form: same Length, ANC_Count and
   packets; F, reserved, every S and StreamNum, and everything past Length are zero.
   */
  lemma {:induction false} NormalForm(g: seq<byte>, ms: seq<Anc>, ss: seq<byte>, n: seq<byte>)
    requires Decodable(g, ms, ss) && EncodesTo(St2038All(ms), n)
    ensures |n| == GRAIN_SIZE && n[..3] == g[..3] && n[3..HEADER_SIZE] == [0, 0, 0]
    ensures HEADER_SIZE + LengthField(g) <= GRAIN_SIZE
    ensures n[HEADER_SIZE..HEADER_SIZE + LengthField(g)] == Payload(ms)
    ensures n[HEADER_SIZE + LengthField(g)..] == Zeros(GRAIN_SIZE - HEADER_SIZE - LengthField(g))
    ensures Decodable(n, ms, Zeros(|ms|))
  {
    EncodedIs(ms, n);
    EncodedIsDecodable(St2038All(ms), ms);
    assert LengthField(g) == |Payload(ms)| by { PayloadLength(ms, ss); }
    GrainFields(ms);
    SameHeader(g, n);
  }

  lemma {:induction false} SameHeader(g: seq<byte>, n: seq<byte>)
    requires |g| >= HEADER_SIZE && |n| >= HEADER_SIZE && LengthField(g) == LengthField(n) && g[2] == n[2]
    ensures g[..3] == n[..3]
  {
    SameQuotient(g[0], g[1], n[0], n[1]);
    assert n[..3] == [n[0], n[1], n[2]] && g[..3] == [g[0], g[1], g[2]];
  }

  lemma {:induction false} SameQuotient(a: byte, b: byte, a': byte, b': byte)
    requires 0x100 * (a as int) + b as int == 0x100 * (a' as int) + b' as int
    ensures a == a' && b == b'
  {
  }

  /** Normalising a normal form changes nothing. */
  lemma {:induction false} NormaliseTwice(st2038: seq<byte>, n: seq<byte>, st2038': seq<byte>, n': seq<byte>)
    requires EncodesTo(st2038, n) && DecodesTo(n, st2038') && EncodesTo(st2038', n')
    ensures n' == n
  {
    RoundTrip(st2038, n, st2038');
    var ms :| Encodable(st2038, ms) && n == Grain(ms);
    var ns :| Encodable(st2038', ns) && n' == Grain(ns);
    St2038SplitUnique(ms, ns);
  }

  /** S and StreamNum are the fourth octet of a packet and nothing else depends on them. */
  lemma {:induction false} StreamOctet(m: Anc, s: byte, t: byte)
    ensures Rfc8331(m, s)[3] == s && Rfc8331(m, s)[3 := t] == Rfc8331(m, t)
  {
    var x, y := Rfc8331(m, s), Rfc8331(m, t);
    forall i | 0 <= i < |x| && i != 3
      ensures x[i] == y[i]
    {
      PacketOctets(m, s, i);
      PacketOctets(m, t, i);
      OctetsElsewhere(m, s, t, i);
      OctetInjective(x[i], y[i]);
    }
    PacketOctets(m, s, 3);
    PacketOctets(m, t, 3);
    OctetInjective(x[3], s);
    OctetInjective(y[3], t);
  }

  function PacketBits(m: Anc, s: byte): seq<bool> {
    Rfc8331Body(m, s) + Fill(false, PadToWord(72 + 10 * |m.data|))
  }

  lemma {:induction false} PacketOctets(m: Anc, s: byte, i: nat)
    requires i < |Rfc8331(m, s)|
    ensures 8 * i + 8 <= |PacketBits(m, s)|
    ensures BitsOf(Rfc8331(m, s)[i], 8) == PacketBits(m, s)[8 * i..8 * i + 8]
    ensures i == 3 ==> PacketBits(m, s)[24..32] == BitsOf(s, 8)
  {
    BitsOfPack(PacketBits(m, s), |Rfc8331(m, s)|);
    OctetBits(Rfc8331(m, s), i);
  }

  lemma {:induction false} OctetsElsewhere(m: Anc, s: byte, t: byte, i: nat)
    requires i != 3 && 8 * i + 8 <= |PacketBits(m, s)|
    ensures PacketBits(m, s)[8 * i..8 * i + 8] == PacketBits(m, t)[8 * i..8 * i + 8]
  {
    var b, c := PacketBits(m, s), PacketBits(m, t);
    forall k | 8 * i <= k < 8 * i + 8
      ensures b[k] == c[k]
    {
    }
  }
}
