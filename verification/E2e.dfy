/** End-to-end protection: what the CRC covers, and where the trailer sits. */
module E2e {
  import opened Octets
  import opened ByteMessageInfo
  import opened Acf
  import opened Avtp

  const CRC_TRAILER_LEN: nat := 4

  // ── Coverage ─────────────────────────────────────────────────────────────

  function StreamIdOf(h: HeaderVariant): u64 {
    if h.Ntscf? then h.ntscf.streamId else h.tscf.streamId
  }

  /** The covered timestamp: zero under NTSCF, which carries none. */
  function TimestampOf(h: HeaderVariant): u32 {
    if h.Ntscf? then 0 else h.tscf.avtpTimestamp
  }

  /** The covered part of the AVTPDU header. */
  function Prefix(h: HeaderVariant): (b: Bytes)
    ensures |b| == 12
  {
    Be64(StreamIdOf(h)) + Be32(TimestampOf(h))
  }

  /** One more quadlet, saturating at the integer's width. */
  function SaturatingIncrement(x: u16): u16 {
    if x == 0xFFFF then x else x + 1
  }

  /** The covered ACF header: the type forced, the length counting the CRC quadlet. */
  function AdjustedInfo(m: AcfMessage): Info {
    m.info.(acfMsgType := MsgType(KindOf(m)), acfMsgLength := SaturatingIncrement(m.info.acfMsgLength))
  }

  function Coverage(h: HeaderVariant, m: AcfMessage): Result<Bytes> {
    var octets :- EncodeInfo(AdjustedInfo(m));
    Ok(Prefix(h) + octets + Extra(m) + m.payload)
  }

  /** The coverage builder as written: append each covered region in turn. */
  method BuildCrc32CoverageBuffer(h: HeaderVariant, m: AcfMessage) returns (r: Result<Bytes>)
    ensures r == Coverage(h, m)
  {
    hide Be64, Be32, Fits, InfoOctets, SaturatingIncrement;
    var (streamId, timestamp) :=
      match h
      case Ntscf(n) => (n.streamId, 0)
      case Tscf(t) => (t.streamId, t.avtpTimestamp);
    var buf: Bytes := [];
    buf := buf + Be64(streamId);
    buf := buf + Be32(timestamp);
    assert buf == Prefix(h);
    match m {
      case Abb(info, payload) =>
        var adjusted := info.(acfMsgType := ACF_ABB_MSG_TYPE);
        adjusted := adjusted.(acfMsgLength := SaturatingIncrement(adjusted.acfMsgLength));
        assert adjusted == AdjustedInfo(m);
        var octets := EncodeByteMessageInfo(adjusted);
        if octets.Err? {
          return Err(octets.error);
        }
        buf := buf + octets.value;
        assert buf + Extra(m) == buf;
        buf := buf + payload;
      case Gbb(info, messageTimestamp, payload) =>
        var adjusted := info.(acfMsgType := ACF_GBB_MSG_TYPE);
        adjusted := adjusted.(acfMsgLength := SaturatingIncrement(adjusted.acfMsgLength));
        assert adjusted == AdjustedInfo(m);
        var octets := EncodeByteMessageInfo(adjusted);
        if octets.Err? {
          return Err(octets.error);
        }
        buf := buf + octets.value;
        buf := buf + Be64(messageTimestamp);
        buf := buf + payload;
    }
    r := Ok(buf);
  }

  /** Coverage exists exactly when every header field fits with room for one more quadlet. */
  lemma CoverageSucceedsIff(h: HeaderVariant, m: AcfMessage)
    ensures Coverage(h, m).Ok? <==>
              KeptFieldsFit(m.info) && m.info.pad <= PAD_2BIT_MAX && m.info.acfMsgLength < ACF_MSG_LENGTH_9BIT_MAX
    ensures Coverage(h, m).Err? ==> Coverage(h, m).error == InvalidSize
  {
    hide InfoOctets, Be64, Be32;
    AdjustedFits(m);
  }

  lemma AdjustedFits(m: AcfMessage)
    ensures Fits(AdjustedInfo(m)) <==>
              KeptFieldsFit(m.info) && m.info.pad <= PAD_2BIT_MAX && m.info.acfMsgLength < ACF_MSG_LENGTH_9BIT_MAX
  {
    hide SaturatingIncrement;
    IncrementBound(m.info.acfMsgLength);
  }

  lemma IncrementBound(x: u16)
    ensures SaturatingIncrement(x) <= ACF_MSG_LENGTH_9BIT_MAX <==> x < ACF_MSG_LENGTH_9BIT_MAX
  {
  }

  lemma IncrementInjective(x: u16, y: u16)
    requires x < ACF_MSG_LENGTH_9BIT_MAX && y < ACF_MSG_LENGTH_9BIT_MAX
    requires SaturatingIncrement(x) == SaturatingIncrement(y)
    ensures x == y
  {
  }

  /** The fields of `x` and `y` agree except, possibly, the message type. */
  predicate SameButType(x: Info, y: Info) {
    x.(acfMsgType := y.acfMsgType) == y
  }

  lemma PrefixInjective(g: HeaderVariant, h: HeaderVariant)
    requires Prefix(g) == Prefix(h)
    ensures StreamIdOf(g) == StreamIdOf(h) && TimestampOf(g) == TimestampOf(h)
  {
    hide Be64, Be32;
    assert Prefix(g)[..8] == Be64(StreamIdOf(g)) && Prefix(h)[..8] == Be64(StreamIdOf(h));
    assert Prefix(g)[8..] == Be32(TimestampOf(g)) && Prefix(h)[8..] == Be32(TimestampOf(h));
    Be64Injective(StreamIdOf(g), StreamIdOf(h));
    Be32Injective(TimestampOf(g), TimestampOf(h));
  }

  lemma AdjustedInjective(m: AcfMessage, n: AcfMessage)
    requires Fits(AdjustedInfo(m)) && Fits(AdjustedInfo(n))
    requires AdjustedInfo(m) == AdjustedInfo(n)
    ensures KindOf(m) == KindOf(n) && SameButType(m.info, n.info)
  {
    assert MsgType(KindOf(m)) == MsgType(KindOf(n));
    AdjustedFits(m);
    AdjustedFits(n);
    IncrementInjective(m.info.acfMsgLength, n.info.acfMsgLength);
    hide SaturatingIncrement;
    assert AdjustedInfo(m).(acfMsgType := n.info.acfMsgType, acfMsgLength := n.info.acfMsgLength) == n.info;
  }

  /** Two coverage buffers are equal exactly when the stream id, the effective timestamp,
      the message kind, every header field but the type, the message timestamp and the
      payload are equal. The length adjustment never makes two lengths collide. */
  lemma CoverageExact(g: HeaderVariant, m: AcfMessage, h: HeaderVariant, n: AcfMessage)
    requires Coverage(g, m).Ok? && Coverage(h, n).Ok?
    ensures Coverage(g, m) == Coverage(h, n) <==>
              && StreamIdOf(g) == StreamIdOf(h)
              && TimestampOf(g) == TimestampOf(h)
              && KindOf(m) == KindOf(n)
              && SameButType(m.info, n.info)
              && (m.Gbb? && n.Gbb? ==> m.messageTimestamp == n.messageTimestamp)
              && m.payload == n.payload
  {
    if Coverage(g, m) == Coverage(h, n) {
      CoverageDetermines(g, m, h, n);
    } else {
      hide Be64, Be32, Fits, InfoOctets, SaturatingIncrement;
    }
  }

  lemma CoverageDetermines(g: HeaderVariant, m: AcfMessage, h: HeaderVariant, n: AcfMessage)
    requires Coverage(g, m).Ok? && Coverage(g, m) == Coverage(h, n)
    ensures StreamIdOf(g) == StreamIdOf(h) && TimestampOf(g) == TimestampOf(h)
    ensures KindOf(m) == KindOf(n) && SameButType(m.info, n.info)
    ensures m.Gbb? && n.Gbb? ==> m.messageTimestamp == n.messageTimestamp
    ensures m.payload == n.payload
  {
    hide Prefix, Fits, InfoOctets, AdjustedInfo, Extra, SameButType, StreamIdOf, TimestampOf;
    var (c, d) := (Coverage(g, m).value, Coverage(h, n).value);
    assert c[..12] == Prefix(g) && d[..12] == Prefix(h);
    PrefixInjective(g, h);
    assert c[12..20] == InfoOctets(AdjustedInfo(m)) && d[12..20] == InfoOctets(AdjustedInfo(n));
    InfoOctetsInjective(AdjustedInfo(m), AdjustedInfo(n));
    AdjustedInjective(m, n);
    var e := 12 + HeaderLen(KindOf(m));
    assert c[20..e] == Extra(m) && d[20..e] == Extra(n);
    ExtraInjective(m, n);
    assert c[e..] == m.payload && d[e..] == n.payload;
  }

  lemma ExtraInjective(m: AcfMessage, n: AcfMessage)
    requires m.Gbb? && n.Gbb? ==> Extra(m) == Extra(n)
    ensures m.Gbb? && n.Gbb? ==> m.messageTimestamp == n.messageTimestamp
  {
    hide Be64;
    if m.Gbb? && n.Gbb? {
      Be64Injective(m.messageTimestamp, n.messageTimestamp);
    }
  }

  // ── The trailer ──────────────────────────────────────────────────────────

  /** The header with its length one quadlet up. */
  function Bump(info: Info): Info {
    info.(acfMsgLength := info.acfMsgLength + 1)
  }

  /** The header with its length one quadlet down. */
  function Lower(info: Info): Info {
    info.(acfMsgLength := info.acfMsgLength - 1)
  }

  /** The frame with its length counting the trailer and the CRC appended. */
  function Finalize(frame: Bytes, crc: u32): Result<Bytes> {
    if |frame| < BYTE_MESSAGE_INFO_LEN then Err(ShortFrame)
    else
      var info :- DecodeInfo(frame[..BYTE_MESSAGE_INFO_LEN]);
      if info.acfMsgLength >= ACF_MSG_LENGTH_9BIT_MAX then Err(InvalidSize)
      else
        var header :- EncodeInfo(Bump(info));
        Ok(header + frame[BYTE_MESSAGE_INFO_LEN..] + Be32(crc))
  }

  /** Finalizing as written, on the caller's buffer: a failure leaves it unchanged. */
  method FinalizeCrcTrailer(frame: OctetBuffer, crc: u32) returns (r: Result<()>)
    modifies frame
    ensures r == (if Finalize(old(frame.bytes), crc).Ok? then Ok(())
                  else Err(Finalize(old(frame.bytes), crc).error))
    ensures frame.bytes == if r.Ok? then Finalize(old(frame.bytes), crc).value else old(frame.bytes)
  {
    hide InfoOf, InfoOctets, Be32;
    if |frame.bytes| < BYTE_MESSAGE_INFO_LEN {
      return Err(ShortFrame);
    }
    var info := InfoOf(frame.bytes[..BYTE_MESSAGE_INFO_LEN]);
    EncodeInvertsDecode(frame.bytes[..BYTE_MESSAGE_INFO_LEN]);
    if info.acfMsgLength + 1 > ACF_MSG_LENGTH_9BIT_MAX {
      return Err(InvalidSize);
    }
    info := info.(acfMsgLength := info.acfMsgLength + 1);
    var header := EncodeByteMessageInfo(info);
    assert header.Ok?;
    frame.bytes := header.value + frame.bytes[BYTE_MESSAGE_INFO_LEN..];
    frame.bytes := frame.bytes + Be32(crc);
    r := Ok(());
  }

  /** The frame without its trailer, its length no longer counting it, and the CRC, which
      is taken from the end of the octets given. */
  function SplitTrailer(frame: Bytes): Result<(Bytes, u32)> {
    if |frame| < BYTE_MESSAGE_INFO_LEN + CRC_TRAILER_LEN then Err(ShortFrame)
    else
      var info :- DecodeInfo(frame[..BYTE_MESSAGE_INFO_LEN]);
      if info.acfMsgLength < 1 then Err(InvalidSize)
      else
        var header :- EncodeInfo(Lower(info));
        var start := |frame| - CRC_TRAILER_LEN;
        Ok((header + frame[BYTE_MESSAGE_INFO_LEN..start], FromBe32(frame[start..])))
  }

  /** Splitting as written: copy the body, then overwrite its header. */
  method SplitCrcTrailer(frame: Bytes) returns (r: Result<(Bytes, u32)>)
    ensures r == SplitTrailer(frame)
  {
    hide InfoOf, InfoOctets, FromBe32;
    if |frame| < BYTE_MESSAGE_INFO_LEN + CRC_TRAILER_LEN {
      return Err(ShortFrame);
    }
    var info := InfoOf(frame[..BYTE_MESSAGE_INFO_LEN]);
    EncodeInvertsDecode(frame[..BYTE_MESSAGE_INFO_LEN]);
    if info.acfMsgLength == 0 {
      return Err(InvalidSize);
    }
    info := info.(acfMsgLength := info.acfMsgLength - 1);
    var header := EncodeByteMessageInfo(info);
    assert header.Ok?;
    var crcStart := |frame| - CRC_TRAILER_LEN;
    var crc := FromBe32(frame[crcStart..]);
    var body := frame[..crcStart];
    body := header.value + body[BYTE_MESSAGE_INFO_LEN..];
    r := Ok((body, crc));
  }

  lemma BumpLaws(info: Info)
    requires Fits(info) && info.acfMsgLength < ACF_MSG_LENGTH_9BIT_MAX
    ensures Fits(Bump(info)) && Bump(info).acfMsgLength >= 1 && Lower(Bump(info)) == info
    ensures Num16(Bump(info).acfMsgLength) == Num16(info.acfMsgLength) + 1
    ensures SaturatingIncrement(info.acfMsgLength) == Bump(info).acfMsgLength
  {
    SuccessorU16(info.acfMsgLength);
  }

  lemma LowerLaws(info: Info)
    requires Fits(info) && info.acfMsgLength >= 1
    ensures Fits(Lower(info)) && Lower(info).acfMsgLength < ACF_MSG_LENGTH_9BIT_MAX
    ensures Bump(Lower(info)) == info
  {
  }

  lemma HeaderOf(frame: Bytes)
    requires |frame| >= BYTE_MESSAGE_INFO_LEN
    ensures DecodeInfo(frame[..BYTE_MESSAGE_INFO_LEN]) == Ok(InfoOf(frame))
    ensures Fits(InfoOf(frame))
    ensures InfoOctets(InfoOf(frame)) + frame[BYTE_MESSAGE_INFO_LEN..] == ClearReserved(frame)
  {
    hide InfoOf, InfoOctets, Fits, ClearReserved;
    EncodeInvertsDecode(frame);
    ClearReservedSplit(frame);
    assert frame + [] == frame;
    InfoOfPrefix(frame, []);
  }

  lemma HeaderOfEncoded(info: Info, rest: Bytes)
    requires Fits(info)
    ensures InfoOf(InfoOctets(info) + rest) == info
  {
    hide InfoOf, InfoOctets, Fits;
    DecodeInvertsEncode(info, rest);
  }

  /** What finalizing does to a frame that holds a header. */
  lemma FinalizeShape(frame: Bytes, crc: u32)
    requires |frame| >= BYTE_MESSAGE_INFO_LEN
    ensures Finalize(frame, crc) ==
            if InfoOf(frame).acfMsgLength < ACF_MSG_LENGTH_9BIT_MAX
            then Ok(InfoOctets(Bump(InfoOf(frame))) + frame[BYTE_MESSAGE_INFO_LEN..] + Be32(crc))
            else Err(InvalidSize)
  {
    hide InfoOf, InfoOctets, Be32, Fits, Bump;
    HeaderOf(frame);
    if InfoOf(frame).acfMsgLength < ACF_MSG_LENGTH_9BIT_MAX {
      BumpLaws(InfoOf(frame));
    }
  }

  /** What splitting does to a frame long enough for a header and a trailer. */
  lemma SplitShape(frame: Bytes)
    requires |frame| >= BYTE_MESSAGE_INFO_LEN + CRC_TRAILER_LEN
    ensures var start := |frame| - CRC_TRAILER_LEN;
            SplitTrailer(frame) ==
            if InfoOf(frame).acfMsgLength >= 1
            then Ok((InfoOctets(Lower(InfoOf(frame))) + frame[BYTE_MESSAGE_INFO_LEN..start], FromBe32(frame[start..])))
            else Err(InvalidSize)
  {
    hide InfoOf, InfoOctets, FromBe32, Fits, Lower;
    HeaderOf(frame);
    if InfoOf(frame).acfMsgLength >= 1 {
      LowerLaws(InfoOf(frame));
    }
  }

  /** Finalizing succeeds exactly on frames that hold a header whose length has room for
      one more quadlet. */
  lemma FinalizeSucceedsIff(frame: Bytes, crc: u32)
    ensures Finalize(frame, crc).Ok? <==>
              |frame| >= BYTE_MESSAGE_INFO_LEN && InfoOf(frame).acfMsgLength < ACF_MSG_LENGTH_9BIT_MAX
    ensures Finalize(frame, crc).Err? ==>
              Finalize(frame, crc).error == if |frame| < BYTE_MESSAGE_INFO_LEN then ShortFrame else InvalidSize
  {
    if |frame| >= BYTE_MESSAGE_INFO_LEN {
      FinalizeShape(frame, crc);
      hide InfoOf, InfoOctets, Be32, Finalize;
    }
  }

  /** Splitting succeeds exactly on frames long enough for a header and a trailer whose length
      counts at least the trailer. */
  lemma SplitSucceedsIff(frame: Bytes)
    ensures SplitTrailer(frame).Ok? <==>
              |frame| >= BYTE_MESSAGE_INFO_LEN + CRC_TRAILER_LEN && InfoOf(frame).acfMsgLength >= 1
    ensures SplitTrailer(frame).Err? ==>
              SplitTrailer(frame).error ==
              if |frame| < BYTE_MESSAGE_INFO_LEN + CRC_TRAILER_LEN then ShortFrame else InvalidSize
  {
    if |frame| >= BYTE_MESSAGE_INFO_LEN + CRC_TRAILER_LEN {
      SplitShape(frame);
      hide InfoOf, InfoOctets, FromBe32, SplitTrailer;
    }
  }

  /** Splitting undoes finalizing, up to the reserved bits finalizing clears. */
  lemma SplitInvertsFinalize(frame: Bytes, crc: u32)
    requires Finalize(frame, crc).Ok?
    ensures SplitTrailer(Finalize(frame, crc).value) == Ok((ClearReserved(frame), crc))
  {
    hide InfoOf, InfoOctets, Be32, FromBe32, Fits, ClearReserved, Bump, Lower, SplitTrailer;
    var info := InfoOf(frame);
    HeaderOf(frame);
    FinalizeShape(frame, crc);
    hide Finalize;
    BumpLaws(info);
    var g := Finalize(frame, crc).value;
    assert g == InfoOctets(Bump(info)) + (frame[BYTE_MESSAGE_INFO_LEN..] + Be32(crc));
    HeaderOfEncoded(Bump(info), frame[BYTE_MESSAGE_INFO_LEN..] + Be32(crc));
    SplitShape(g);
    Be32RoundTrip(crc);
    var start := |g| - CRC_TRAILER_LEN;
    assert g[start..] == Be32(crc);
    assert g[BYTE_MESSAGE_INFO_LEN..start] == frame[BYTE_MESSAGE_INFO_LEN..];
  }

  /** Finalizing undoes splitting, up to the reserved bits. */
  lemma FinalizeInvertsSplit(frame: Bytes)
    requires SplitTrailer(frame).Ok?
    ensures var (body, crc) := SplitTrailer(frame).value;
            Finalize(body, crc) == Ok(ClearReserved(frame))
  {
    hide InfoOf, InfoOctets, Be32, FromBe32, Fits, ClearReserved, Bump, Lower, Finalize;
    var info := InfoOf(frame);
    HeaderOf(frame);
    SplitShape(frame);
    hide SplitTrailer;
    LowerLaws(info);
    var (body, crc) := SplitTrailer(frame).value;
    var start := |frame| - CRC_TRAILER_LEN;
    HeaderOfEncoded(Lower(info), frame[BYTE_MESSAGE_INFO_LEN..start]);
    FinalizeShape(body, crc);
    FromBe32RoundTrip(frame[start..]);
    assert body[BYTE_MESSAGE_INFO_LEN..] == frame[BYTE_MESSAGE_INFO_LEN..start];
    Rejoin(InfoOctets(info), frame, start);
  }

  lemma Rejoin(head: Bytes, frame: Bytes, start: nat)
    requires |head| <= start <= |frame|
    ensures head + frame[|head|..] == head + frame[|head|..start] + frame[start..]
  {
    assert frame[|head|..] == frame[|head|..start] + frame[start..];
  }
}
