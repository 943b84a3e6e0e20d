/** The protected path end to end: sealing, framing and receiving. */
module Protection {
  import opened Octets
  import opened ByteMessageInfo
  import opened Acf
  import opened Avtp
  import opened E2e
  import Crc32

  /** Sealing a message: encode it, take the header the encoder wrote, compute the CRC of
      its coverage and append the trailer. */
  function Seal(h: HeaderVariant, m: AcfMessage): Result<Bytes> {
    var frame :- EncodeAcf(m);
    var wire :- DecodeAcf(KindOf(m), frame);
    var covered :- Coverage(h, wire);
    Finalize(frame, Crc32.Crc(covered))
  }

  datatype Received = Received(message: AcfMessage, carried: u32, recomputed: u32)

  /** Receiving a sealed message: split, decode, recompute the CRC over the coverage. */
  function Receive(h: HeaderVariant, kind: AcfKind, f: Bytes): Result<Received> {
    var (body, carried) :- SplitTrailer(f);
    var m :- DecodeAcf(kind, body);
    var covered :- Coverage(h, m);
    Ok(Received(m, carried, Crc32.Crc(covered)))
  }

  // ── What a receiver accepts and what it checks ───────────────────────────

  /** How many octets of a sealed message the CRC covers: all but the pad and the trailer. */
  function CoveredLen(f: Bytes): int
    requires |f| >= BYTE_MESSAGE_INFO_LEN
  {
    QUADLET_LEN * Num16(InfoOf(f).acfMsgLength) - CRC_TRAILER_LEN - Num8(InfoOf(f).pad)
  }

  predicate Acceptable(kind: AcfKind, f: Bytes) {
    && |f| >= BYTE_MESSAGE_INFO_LEN + CRC_TRAILER_LEN
    && InfoOf(f).acfMsgType == MsgType(kind)
    && HeaderLen(kind) <= CoveredLen(f)
    && QUADLET_LEN * Num16(InfoOf(f).acfMsgLength) <= |f|
  }

  lemma LowerNumbers(info: Info)
    requires Fits(info) && info.acfMsgLength >= 1
    ensures Num16(Lower(info).acfMsgLength) == Num16(info.acfMsgLength) - 1
    ensures Num16(info.acfMsgLength) >= 1
    ensures SaturatingIncrement(Lower(info).acfMsgLength) == info.acfMsgLength
    ensures Lower(info).acfMsgType == info.acfMsgType && Lower(info).pad == info.pad
  {
    hide Num16, Fits;
    LowerLaws(info);
    assert Fits(Lower(info)) by {
      LowerLaws(info);
    }
    BumpLaws(Lower(info));
  }

  lemma PositiveLength(x: u16)
    ensures x >= 1 <==> Num16(x) >= 1
  {
  }

  /** The covered octets of an accepted message are the AVTPDU prefix and then the message
      exactly as it stands on the wire, reserved bits cleared, up to its pad octets. */
  lemma ReceiveShape(h: HeaderVariant, kind: AcfKind, f: Bytes)
    ensures Receive(h, kind, f).Ok? <==> Acceptable(kind, f)
    ensures Acceptable(kind, f) ==>
              var r := Receive(h, kind, f).value;
              && r.carried == FromBe32(f[|f| - CRC_TRAILER_LEN..])
              && r.recomputed == Crc32.Crc(Prefix(h) + ClearReserved(f)[..CoveredLen(f)])
              && r.message.info == Lower(InfoOf(f))
              && Extra(r.message) + r.message.payload == f[BYTE_MESSAGE_INFO_LEN..CoveredLen(f)]
  {
    hide InfoOf, InfoOctets, FromBe32, Fits, Lower, SplitTrailer, DecodePrefix, Coverage, Num16, Num8;
    hide ClearReserved, Crc32.Crc, MessageOf, Extra;
    if |f| >= BYTE_MESSAGE_INFO_LEN + CRC_TRAILER_LEN {
      var info := InfoOf(f);
      HeaderOf(f);
      SplitShape(f);
      PositiveLength(info.acfMsgLength);
      if info.acfMsgLength >= 1 {
        var start := |f| - CRC_TRAILER_LEN;
        var tail := f[BYTE_MESSAGE_INFO_LEN..start];
        var body := InfoOctets(Lower(info)) + tail;
        LowerLaws(info);
        LowerNumbers(info);
        HeaderOfEncoded(Lower(info), tail);
        DecodeAccepts(kind, body);
        if DecodePrefix(kind, body).Ok? {
          AcceptedCoverage(h, kind, f, info, body);
        }
      }
    } else {
      SplitShort(f);
    }
  }

  lemma SplitShort(f: Bytes)
    requires |f| < BYTE_MESSAGE_INFO_LEN + CRC_TRAILER_LEN
    ensures SplitTrailer(f) == Err(ShortFrame)
  {
  }

  lemma AcceptedCoverage(h: HeaderVariant, kind: AcfKind, f: Bytes, info: Info, body: Bytes)
    requires |f| >= BYTE_MESSAGE_INFO_LEN + CRC_TRAILER_LEN && info == InfoOf(f)
    requires info.acfMsgLength >= 1
    requires body == InfoOctets(Lower(info)) + f[BYTE_MESSAGE_INFO_LEN..|f| - CRC_TRAILER_LEN]
    requires DecodePrefix(kind, body).Ok?
    ensures var m := DecodePrefix(kind, body).value.0;
            && HeaderLen(kind) <= CoveredLen(f) <= |f|
            && Coverage(h, m) == Ok(Prefix(h) + ClearReserved(f)[..CoveredLen(f)])
            && m.info == Lower(info)
            && Extra(m) + m.payload == f[BYTE_MESSAGE_INFO_LEN..CoveredLen(f)]
  {
    hide InfoOf, InfoOctets, FromBe32, Fits, Lower, DecodePrefix, Num16, Num8, ClearReserved, MessageOf;
    hide Extra, AdjustedInfo, Prefix;
    var (hl, n) := (HeaderLen(kind), CoveredLen(f));
    HeaderOf(f);
    LowerLaws(info);
    LowerNumbers(info);
    var tail := f[BYTE_MESSAGE_INFO_LEN..|f| - CRC_TRAILER_LEN];
    HeaderOfEncoded(Lower(info), tail);
    DecodeAccepts(kind, body);
    var m := DecodePrefix(kind, body).value.0;
    var (extra, payload) := (body[BYTE_MESSAGE_INFO_LEN..hl], body[hl..n]);
    MessageInfo(kind, Lower(info), extra, payload);
    ExtraOfMessage(kind, Lower(info), extra, payload);
    AdjustedOfLower(m, info);
    CoveredSlices(Prefix(h), InfoOctets(info), InfoOctets(Lower(info)), f, |f| - CRC_TRAILER_LEN, hl, n);
  }

  /** The sequence bookkeeping of the covered octets: swapping the head of a frame leaves
      the slices behind it, and head plus slices is a prefix of the reheaded frame. */
  lemma CoveredSlices(p: Bytes, head: Bytes, low: Bytes, f: Bytes, start: nat, hl: nat, n: nat)
    requires |head| == |low| <= hl <= n <= start <= |f|
    ensures var body := low + f[|low|..start];
            && body[|low|..hl] + body[hl..n] == f[|low|..n]
            && p + head + body[|low|..hl] + body[hl..n] == p + (head + f[|head|..])[..n]
  {
    AfterHead(low, f, start, |low|, hl);
    AfterHead(low, f, start, hl, n);
    assert f[|low|..hl] + f[hl..n] == f[|low|..n];
    TakeHead(head, f[|head|..], n);
    assert f[|head|..][..n - |head|] == f[|head|..n];
    Regroup(p, head, f[|low|..hl], f[hl..n]);
  }

  lemma AfterHead(head: Bytes, f: Bytes, stop: nat, lo: nat, hi: nat)
    requires |head| <= lo <= hi <= stop <= |f|
    ensures (head + f[|head|..stop])[lo..hi] == f[lo..hi]
  {
    var s := head + f[|head|..stop];
    assert forall i | lo <= i < hi :: s[i] == f[i];
  }

  lemma TakeHead(head: Bytes, rest: Bytes, n: nat)
    requires |head| <= n <= |head| + |rest|
    ensures (head + rest)[..n] == head + rest[..n - |head|]
  {
  }

  lemma Regroup(a: Bytes, b: Bytes, c: Bytes, d: Bytes)
    ensures a + b + c + d == a + (b + (c + d))
  {
  }

  lemma AdjustedOfLower(m: AcfMessage, info: Info)
    requires Fits(info) && info.acfMsgLength >= 1
    requires m.info == Lower(info) && info.acfMsgType == MsgType(KindOf(m))
    ensures AdjustedInfo(m) == info
  {
    hide Fits, SaturatingIncrement;
    LowerNumbers(info);
  }

  // ── Undamaged messages ───────────────────────────────────────────────────

  /** Sealing succeeds exactly when the kept fields fit and the message leaves room for the
      trailer: at most 510 quadlets before it. */
  lemma SealSucceedsIff(h: HeaderVariant, m: AcfMessage)
    ensures Seal(h, m).Ok? <==> KeptFieldsFit(m.info) && |m.payload| <= (if m.Abb? then 2032 else 2024)
    ensures Seal(h, m).Err? ==> Seal(h, m).error == InvalidSize
  {
    hide EncodeAcf, DecodePrefix, Coverage, Finalize, Crc32.Crc, KeptFieldsFit;
    EncodeSucceedsIff(m);
    if EncodeAcf(m).Ok? {
      SealEncoded(h, m);
    }
  }

  lemma LengthBelow(x: u16)
    ensures x < ACF_MSG_LENGTH_9BIT_MAX <==> Num16(x) < MAX_QUADLETS
  {
  }

  /** An encoded message: its header is the filled one, no reserved bit is set, and it
      decodes to the filled message. */
  lemma WireForm(m: AcfMessage)
    requires EncodeAcf(m).Ok?
    ensures Fill(m).Ok? && Fits(Fill(m).value.info)
    ensures var (f, w) := (EncodeAcf(m).value, Fill(m).value);
            && DecodeAcf(KindOf(m), f) == Ok(w)
            && |f| >= BYTE_MESSAGE_INFO_LEN
            && InfoOf(f) == w.info
            && f[BYTE_MESSAGE_INFO_LEN..] == Extra(m) + m.payload + Zeros(Num8(w.info.pad))
            && ClearReserved(f) == f
  {
    hide EncodeAcf, DecodePrefix, Fits, InfoOf, InfoOctets, Num16, Num8, ClearReserved, Fill, Extra;
    EncodedShape(m);
    var (f, w) := (EncodeAcf(m).value, Fill(m).value);
    assert f + [] == f;
    DecodeInvertsEncodeAcf(m, []);
    var rest := Extra(m) + m.payload + Zeros(Num8(w.info.pad));
    assert f == InfoOctets(w.info) + rest;
    HeaderOfEncoded(w.info, rest);
    HeaderOf(f);
  }

  /** Sealing an encodable message. */
  lemma SealEncoded(h: HeaderVariant, m: AcfMessage)
    requires EncodeAcf(m).Ok?
    ensures Fill(m).Ok?
    ensures var w := Fill(m).value;
            if |m.payload| <= (if m.Abb? then 2032 else 2024)
            then Coverage(h, w).Ok?
                 && Seal(h, m) == Finalize(EncodeAcf(m).value, Crc32.Crc(Coverage(h, w).value))
                 && Seal(h, m).Ok?
            else Seal(h, m) == Err(InvalidSize)
  {
    hide EncodeAcf, DecodeAcf, Coverage, Finalize, Crc32.Crc, KeptFieldsFit, Fits, InfoOf, InfoOctets;
    hide Num16, Num8, ClearReserved, Fill;
    var f := EncodeAcf(m).value;
    WireForm(m);
    var w := Fill(m).value;
    EncodeSucceedsIff(m);
    CoverageSucceedsIff(h, w);
    FilledKeeps(m);
    LengthBelow(w.info.acfMsgLength);
    QuadletCount(m);
    if Coverage(h, w).Ok? {
      FinalizeSucceedsIff(f, Crc32.Crc(Coverage(h, w).value));
    }
  }

  lemma QuadletCount(m: AcfMessage)
    requires EncodeAcf(m).Ok?
    ensures Fill(m).Ok?
    ensures Num16(Fill(m).value.info.acfMsgLength) < MAX_QUADLETS <==> |m.payload| <= (if m.Abb? then 2032 else 2024)
  {
    hide EncodeAcf, Fits, InfoOctets, Num16, Num8, Fill, Extra;
    EncodedShape(m);
  }

  lemma FilledKeeps(m: AcfMessage)
    requires Fill(m).Ok?
    ensures KeptFieldsFit(Fill(m).value.info) == KeptFieldsFit(m.info)
    ensures Fill(m).value.info.pad <= PAD_2BIT_MAX
  {
  }

  /** What was sealed is received: the message with its derived fields, and a carried CRC
      equal to the recomputed one. */
  lemma ReceiveInvertsSeal(h: HeaderVariant, m: AcfMessage)
    requires Seal(h, m).Ok?
    ensures Fill(m).Ok?
    ensures var r := Receive(h, KindOf(m), Seal(h, m).value);
            r.Ok? && r.value.message == Fill(m).value && r.value.carried == r.value.recomputed
  {
    hide EncodeAcf, DecodeAcf, Coverage, Finalize, SplitTrailer, Crc32.Crc, ClearReserved, KeptFieldsFit;
    SealSucceedsIff(h, m);
    SealEncoded(h, m);
    WireForm(m);
    var w := Fill(m).value;
    SplitInvertsFinalize(EncodeAcf(m).value, Crc32.Crc(Coverage(h, w).value));
  }

  /** The wire form of `wire` sealed under `h`: header counting the trailer, timestamp if
      any, payload, pad octets, and only then the CRC, which is the one over the prefix and
      every octet before the pad. No reserved bit is set. */
  ghost predicate IsSealed(h: HeaderVariant, wire: AcfMessage, f: Bytes) {
    && |f| >= BYTE_MESSAGE_INFO_LEN
    && |f| == QUADLET_LEN * Num16(InfoOf(f).acfMsgLength)
    && CoveredLen(f) == HeaderLen(KindOf(wire)) + |wire.payload|
    && InfoOf(f) == Bump(wire.info)
    && f == InfoOctets(Bump(wire.info)) + Extra(wire) + wire.payload + Zeros(Num8(wire.info.pad))
            + Be32(Crc32.Crc(Prefix(h) + (InfoOctets(Bump(wire.info)) + Extra(wire) + wire.payload)))
    && ClearReserved(f) == f
    && Acceptable(KindOf(wire), f)
  }

  /** Sealing produces exactly that form of the message with its derived fields. */
  lemma SealedLayout(h: HeaderVariant, m: AcfMessage)
    requires Seal(h, m).Ok?
    ensures Fill(m).Ok? && IsSealed(h, Fill(m).value, Seal(h, m).value)
  {
    hide EncodeAcf, Coverage, Finalize, Crc32.Crc, KeptFieldsFit, Fits, InfoOf, InfoOctets, Num16, Num8;
    hide ClearReserved, Bump, Be32, Extra, Prefix;
    SealSucceedsIff(h, m);
    SealEncoded(h, m);
    WireForm(m);
    var (e, w) := (EncodeAcf(m).value, Fill(m).value);
    var f := Seal(h, m).value;
    var crc := Crc32.Crc(Coverage(h, w).value);
    hide Seal, Fill, DecodeAcf, CoveredLen, Acceptable;
    FinalizedForm(e, w.info, crc, f);
    ReceiveInvertsSealAs(h, m, f);
    EncodedShape(m);
    AcceptableLength(KindOf(m), f);
    SealedNumbers(m, f, w.info);
    SealedPrefix(InfoOctets(Bump(w.info)), Extra(m), m.payload, Zeros(Num8(w.info.pad)), Be32(crc), f);
  }

  lemma SealedPrefix(head: Bytes, extra: Bytes, payload: Bytes, pad: Bytes, crc: Bytes, f: Bytes)
    requires f == head + (extra + payload + pad) + crc
    ensures f == head + extra + payload + pad + crc
    ensures f[..|head| + |extra| + |payload|] == head + extra + payload
  {
    assert f == (head + extra + payload) + (pad + crc);
  }

  /** The frame finalizing produces, field by field. */
  lemma FinalizedForm(e: Bytes, info: Info, crc: u32, f: Bytes)
    requires |e| >= BYTE_MESSAGE_INFO_LEN && InfoOf(e) == info && Fits(info)
    requires Finalize(e, crc) == Ok(f)
    ensures f == InfoOctets(Bump(info)) + e[BYTE_MESSAGE_INFO_LEN..] + Be32(crc)
    ensures InfoOf(f) == Bump(info)
    ensures ClearReserved(f) == f
    ensures Num16(Bump(info).acfMsgLength) == Num16(info.acfMsgLength) + 1 && Bump(info).pad == info.pad
    ensures FromBe32(f[|f| - CRC_TRAILER_LEN..]) == crc
  {
    hide Finalize, Fits, InfoOf, InfoOctets, Num16, ClearReserved, Bump, Be32, FromBe32;
    var rest := e[BYTE_MESSAGE_INFO_LEN..];
    FinalizeSucceedsIff(e, crc);
    FinalizeShape(e, crc);
    assert f == InfoOctets(Bump(info)) + (rest + Be32(crc));
    BumpLaws(info);
    BumpKeeps(info);
    HeaderOfEncoded(Bump(info), rest + Be32(crc));
    HeaderOf(f);
    assert f[BYTE_MESSAGE_INFO_LEN..] == rest + Be32(crc);
    assert f[|f| - CRC_TRAILER_LEN..] == Be32(crc);
    Be32RoundTrip(crc);
  }

  lemma SealedNumbers(m: AcfMessage, f: Bytes, info: Info)
    requires |f| >= BYTE_MESSAGE_INFO_LEN && InfoOf(f) == Bump(info)
    requires Num16(Bump(info).acfMsgLength) == Num16(info.acfMsgLength) + 1
    requires QUADLET_LEN * Num16(info.acfMsgLength) == HeaderLen(KindOf(m)) + |m.payload| + Num8(info.pad)
    ensures CoveredLen(f) == HeaderLen(KindOf(m)) + |m.payload|
  {
    hide InfoOf, Num16, Num8, Bump;
    BumpKeeps(info);
  }

  lemma BumpKeeps(info: Info)
    ensures Bump(info).pad == info.pad && Bump(info).acfMsgType == info.acfMsgType
  {
  }

  lemma ReceiveInvertsSealAs(h: HeaderVariant, m: AcfMessage, f: Bytes)
    requires Seal(h, m) == Ok(f)
    ensures Acceptable(KindOf(m), f)
    ensures FromBe32(f[|f| - CRC_TRAILER_LEN..]) == Crc32.Crc(Prefix(h) + ClearReserved(f)[..CoveredLen(f)])
  {
    hide Seal, Receive, Acceptable, FromBe32, Prefix, ClearReserved, CoveredLen, Crc32.Crc;
    ReceiveInvertsSeal(h, m);
    ReceiveShape(h, KindOf(m), f);
    AcceptableLength(KindOf(m), f);
  }

  lemma AcceptableLength(kind: AcfKind, f: Bytes)
    requires Acceptable(kind, f)
    ensures |f| >= BYTE_MESSAGE_INFO_LEN + CRC_TRAILER_LEN && HeaderLen(kind) <= CoveredLen(f) <= |f|
  {
  }

  // ── Whole frames ─────────────────────────────────────────────────────────

  /** Seal under an NTSCF header and frame. The header's length field is not covered. */
  function Send(id: StreamId, sequenceNum: u8, m: AcfMessage): Result<Bytes> {
    var acf :- Seal(Ntscf(NtscfHeader(sequenceNum, 0, ToU64(id))), m);
    NtscfFrame(id, sequenceNum, acf)
  }

  /** Unframe, then receive under the header that was decoded. */
  function ReceiveFrame(kind: AcfKind, b: Bytes): Result<(NtscfHeader, Received)> {
    var (h, acf) :- DecodeNtscfFrame(b);
    var r :- Receive(Ntscf(h), kind, acf);
    Ok((h, r))
  }

  lemma CoverageByPrefix(g: HeaderVariant, h: HeaderVariant, kind: AcfKind, f: Bytes)
    requires StreamIdOf(g) == StreamIdOf(h) && TimestampOf(g) == TimestampOf(h)
    ensures Receive(g, kind, f) == Receive(h, kind, f)
  {
    hide SplitTrailer, DecodePrefix, Crc32.Crc, InfoOctets, Fits;
  }

  /** The whole stack is a closed loop: for every message of at most 510 quadlets whose
      fields fit, encoding, sealing and framing never fail, and unframing, splitting and
      decoding give back stream id, sequence number, message and a matching CRC. */
  lemma ClosedLoop(id: StreamId, sequenceNum: u8, m: AcfMessage)
    requires KeptFieldsFit(m.info) && |m.payload| <= (if m.Abb? then 2032 else 2024)
    ensures Send(id, sequenceNum, m).Ok? && Fill(m).Ok?
    ensures var r := ReceiveFrame(KindOf(m), Send(id, sequenceNum, m).value);
            && r.Ok?
            && FromU64(r.value.0.streamId) == id
            && r.value.0.sequenceNum == sequenceNum
            && r.value.1.message == Fill(m).value
            && r.value.1.carried == r.value.1.recomputed
  {
    hide Seal, Receive, NtscfFrame, DecodeNtscfFrame, KeptFieldsFit, ToU64, FromU64, Num16, InfoOf, Fill;
    var g := Ntscf(NtscfHeader(sequenceNum, 0, ToU64(id)));
    SealSucceedsIff(g, m);
    ReceiveInvertsSeal(g, m);
    var acf := Seal(g, m).value;
    SealedLayout(g, m);
    SealedLength(acf);
    FrameRoundTrip(id, sequenceNum, acf);
    var d := DecodeNtscfFrame(NtscfFrame(id, sequenceNum, acf).value).value.0;
    StreamIdBijection(id, d.streamId);
    CoverageByPrefix(g, Ntscf(d), KindOf(m), acf);
  }

  lemma SealedLength(f: Bytes)
    requires |f| >= BYTE_MESSAGE_INFO_LEN && |f| == QUADLET_LEN * Num16(InfoOf(f).acfMsgLength)
    ensures |f| <= 2044
  {
    hide InfoOf, Num16, Num8;
    HeaderOf(f);
    FieldBounds(InfoOf(f));
  }
}
