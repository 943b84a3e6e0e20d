/** The wire formats in literals: every octet the encoders emit and every octet string the
    decoders accept, as the figures of the standard give them, with no reference to the
    encoders' own constants and helpers. */
module Layout {
  import opened Octets
  import opened ByteMessageInfo
  import opened Acf
  import opened Avtp
  import opened E2e
  import opened Protection
  import Crc32

  // ── Byte order ───────────────────────────────────────────────────────────

  /** Most significant octet first, at every width. */
  lemma BigEndian(x: u16, y: u32, z: u64)
    ensures Be16(x) == [(x >> 8) as u8, (x & 0xFF) as u8]
    ensures Be32(y) == [(y >> 24) as u8, ((y >> 16) & 0xFF) as u8, ((y >> 8) & 0xFF) as u8, (y & 0xFF) as u8]
    ensures Be64(z) == [((z >> 56) & 0xFF) as u8, ((z >> 48) & 0xFF) as u8, ((z >> 40) & 0xFF) as u8,
                        ((z >> 32) & 0xFF) as u8, ((z >> 24) & 0xFF) as u8, ((z >> 16) & 0xFF) as u8,
                        ((z >> 8) & 0xFF) as u8, (z & 0xFF) as u8]
  {
  }

  // ── byte_message_info ────────────────────────────────────────────────────

  /** The field widths of Table 4: 7, 9, 2, 11, 3 and 12 bits. */
  lemma FieldWidths(info: Info)
    ensures EncodeInfo(info).Ok? <==>
              && info.acfMsgType <= 0x7F && info.acfMsgLength <= 0x01FF && info.pad <= 0x03
              && info.byteBusId <= 0x07FF && info.evt.subOpcode <= 0x07 && info.readSizeSegment <= 0x0FFF
    ensures EncodeInfo(info).Err? ==> EncodeInfo(info).error == InvalidSize
  {
    hide InfoOctets;
  }

  /** A decoded header, written out again by the layout, is its own octets without the two
      reserved pairs; fewer than 8 octets are rejected as short. */
  lemma DecodedLayout(b: Bytes)
    ensures |b| < 8 ==> DecodeInfo(b) == Err(ShortFrame)
    ensures |b| >= 8 ==>
              && DecodeInfo(b).Ok?
              && Be64(LayoutWord(DecodeInfo(b).value)) ==
                 [b[0], b[1], b[2] & 0xE7, b[3], b[4] & 0xF3, b[5], b[6], b[7]]
  {
    hide LayoutWord, InfoOf, InfoOctets, Be64, Fits, Keep2, Keep4;
    if |b| >= 8 {
      EncodeInvertsDecode(b);
      EncodeFollowsLayout(InfoOf(b));
      KeptBits(b[2], b[4]);
      assert ClearReserved(b[..8]) == [b[0], b[1], b[2] & 0xE7, b[3], b[4] & 0xF3, b[5], b[6], b[7]];
    }
  }

  lemma KeptBits(x: u8, y: u8)
    ensures Keep2(x) == x & 0xE7 && Keep4(y) == y & 0xF3
  {
  }

  // ── ACF messages ─────────────────────────────────────────────────────────

  /** The message type of Table 4. */
  function TypeOf(m: AcfMessage): u8 {
    match m
    case Abb(_, _) => 0x0E
    case Gbb(_, _, _) => 0x0D
  }

  /** The octets between header and payload: nothing, or the big-endian timestamp. */
  function TimestampOctets(m: AcfMessage): Bytes {
    match m
    case Abb(_, _) => []
    case Gbb(_, t, _) => Be64(t)
  }

  /** An encoded message: the header the caller gave with type, length and pad replaced, the
      timestamp if any, the payload and zero pad octets; the length counts all of it in
      quadlets. */
  lemma EncodedLayout(m: AcfMessage)
    requires EncodeAcf(m).Ok?
    ensures exists length: u16, pad: u8 ::
              && Num8(pad) <= 3
              && 4 * Num16(length) == |EncodeAcf(m).value|
              && EncodeAcf(m).value ==
                 Be64(LayoutWord(m.info.(acfMsgType := TypeOf(m), acfMsgLength := length, pad := pad)))
                 + TimestampOctets(m) + m.payload + seq(Num8(pad), _ => 0)
  {
    hide LayoutWord, InfoOctets, Be64, Fits, Num16, Num8, EncodeAcf, QuadletsAndPad;
    EncodedShape(m);
    var w := Fill(m).value;
    var (length, pad) := (w.info.acfMsgLength, w.info.pad);
    assert w.info == m.info.(acfMsgType := TypeOf(m), acfMsgLength := length, pad := pad);
    EncodeFollowsLayout(w.info);
    assert Zeros(Num8(pad)) == seq(Num8(pad), _ => 0);
  }

  /** The first seven bits of every encoded message are its type. */
  lemma EncodedType(m: AcfMessage)
    requires EncodeAcf(m).Ok?
    ensures |EncodeAcf(m).value| > 0 && EncodeAcf(m).value[0] >> 1 == if m.Abb? then 0x0E else 0x0D
  {
    hide InfoOctets, Extra, Num16, Num8, Fits, EncodeAcf, QuadletsAndPad;
    EncodedShape(m);
    var w := Fill(m).value;
    TypeFirst(w.info);
  }

  lemma TypeFirst(info: Info)
    requires Fits(info)
    ensures InfoOctets(info)[0] >> 1 == info.acfMsgType
  {
  }

  /** Exactly which octet strings a decoder accepts, and why it rejects each other: too short
      for the headers, another type, a length too short for headers and pad, or fewer octets
      than the length counts. */
  lemma DecodedExactly(kind: AcfKind, b: Bytes)
    ensures var (hl, r) := (if kind.AbbKind? then 8 else 16, DecodePrefix(kind, b));
            if |b| < hl then r == Err(ShortFrame)
            else if b[0] >> 1 != (if kind.AbbKind? then 0x0E else 0x0D) then r == Err(Other)
            else
              var (total, pad) := (4 * Num16(((b[0] & 1) as u16 << 8) | b[1] as u16), Num8(b[2] >> 6));
              if total < hl + pad then r == Err(InvalidSize)
              else if |b| < total then r == Err(ShortFrame)
              else r.Ok? && r.value.1 == total && r.value.0.payload == b[hl..total - pad]
                   && (r.value.0.Gbb? <==> kind.GbbKind?)
                   && (kind.GbbKind? ==> Be64(r.value.0.messageTimestamp) == b[8..16])
  {
    hide Num16, Num8, Be64, FromBe64;
    if |b| >= HeaderLen(kind) {
      InfoOfPrefix(b, []);
      assert b + [] == b;
      FramingFields(b);
      if kind.GbbKind? {
        FromBe64RoundTrip(b[8..16]);
      }
    }
    hide InfoOf;
  }

  lemma FramingFields(b: Bytes)
    requires |b| >= BYTE_MESSAGE_INFO_LEN
    ensures InfoOf(b).acfMsgType == b[0] >> 1
    ensures InfoOf(b).acfMsgLength == ((b[0] & 1) as u16 << 8) | b[1] as u16
    ensures InfoOf(b).pad == b[2] >> 6
  {
  }

  // ── AVTPDU headers ───────────────────────────────────────────────────────

  /** Figure 6: which NTSCF headers are encoded, to what, and which octets are accepted as what. */
  lemma NtscfExactly(h: NtscfHeader, b: Bytes)
    ensures EncodeNtscf(h) ==
            if h.ntscfDataLength > 0x07FF then Err(InvalidSize)
            else Ok([0x82, 0x80 | (h.ntscfDataLength >> 8) as u8, (h.ntscfDataLength & 0xFF) as u8, h.sequenceNum]
                    + Be64(h.streamId))
    ensures var r := DecodeNtscf(b);
            if |b| < 12 then r == Err(ShortFrame)
            else if b[0] != 0x82 || b[1] & 0x80 == 0 then r == Err(Other)
            else && r.Ok? && r.value.sequenceNum == b[3]
                 && r.value.ntscfDataLength == ((b[1] & 0x07) as u16 << 8) | b[2] as u16
                 && Be64(r.value.streamId) == b[4..12]
  {
    hide Be64, FromBe64;
    if |b| >= 12 {
      FromBe64RoundTrip(b[4..12]);
      ValidBit(b[1]);
    }
    if h.ntscfDataLength <= 0x07FF {
      LengthHigh(h.ntscfDataLength);
    }
    hide NtscfOctet1, StreamIdValid;
  }

  lemma ValidBit(x: u8)
    ensures StreamIdValid(x) <==> x & 0x80 != 0
  {
  }

  lemma LengthHigh(length: u16)
    requires length <= 0x07FF
    ensures NtscfOctet1(length) == 0x80 | (length >> 8) as u8
  {
  }

  /** Figure 5: the six quadlets of a TSCF header, and which octets are accepted as what. */
  lemma TscfExactly(h: TscfHeader, b: Bytes)
    ensures TscfOctets(h) ==
            [0x05, if h.avtpTimestamp == 0 then 0x80 else 0x81, h.sequenceNum, 0x00] + Be64(h.streamId)
            + Be32(h.avtpTimestamp) + [0, 0, 0, 0] + Be16(h.streamDataLength) + [0, 0]
    ensures var r := DecodeTscf(b);
            if |b| < 24 then r == Err(ShortFrame)
            else if b[0] != 0x05 || b[1] & 0x80 == 0 then r == Err(Other)
            else && r.Ok? && r.value.sequenceNum == b[2]
                 && Be64(r.value.streamId) == b[4..12]
                 && Be32(r.value.avtpTimestamp) == b[12..16]
                 && Be16(r.value.streamDataLength) == b[20..22]
  {
    hide Be64, FromBe64, Be32, FromBe32, Be16, FromBe16;
    assert Zeros(4) == [0, 0, 0, 0] && Zeros(2) == [0, 0];
    if |b| >= 24 {
      FromBe64RoundTrip(b[4..12]);
      FromBe32RoundTrip(b[12..16]);
      FromBe16RoundTrip(b[20], b[21]);
      ValidBit(b[1]);
    }
    hide StreamIdValid;
  }

  lemma FromBe16RoundTrip(hi: u8, lo: u8)
    ensures Be16(FromBe16(hi, lo)) == [hi, lo]
  {
  }

  /** Selection by the first octet: 0x82 always, 0x05 only where time synchronization allows,
      before anything else of the header is looked at. */
  lemma SelectedExactly(b: Bytes, timeSync: TimeSyncCapability)
    ensures var r := SelectHeaderVariant(b, timeSync);
            if |b| == 0 then r == Err(ShortFrame)
            else if b[0] == 0x82 then
              if DecodeNtscf(b).Ok? then r == Ok(Ntscf(DecodeNtscf(b).value)) else r == Err(DecodeNtscf(b).error)
            else if b[0] == 0x05 then
              if timeSync == Incapable then r == Err(UnsupportedCmd)
              else if DecodeTscf(b).Ok? then r == Ok(Tscf(DecodeTscf(b).value)) else r == Err(DecodeTscf(b).error)
            else r == Err(Other)
  {
    hide DecodeNtscf, DecodeTscf;
  }

  /** A stream id is the sender's six MAC octets and then the two of its unique id. */
  lemma StreamIdLayout(id: StreamId)
    ensures Be64(ToU64(id)) == id.senderMac + Be16(id.uniqueId)
  {
    var m := id.senderMac;
    assert m == [m[0], m[1], m[2], m[3], m[4], m[5]];
    StreamIdOctets(m[0], m[1], m[2], m[3], m[4], m[5], id.uniqueId);
    hide Be64, Be16, BuildStreamId;
  }

  lemma StreamIdOctets(m0: u8, m1: u8, m2: u8, m3: u8, m4: u8, m5: u8, uniqueId: u16)
    ensures Be64(BuildStreamId([m0, m1, m2, m3, m4, m5], uniqueId)) == [m0, m1, m2, m3, m4, m5] + Be16(uniqueId)
  {
    var (hi, lo) := ((uniqueId >> 8) as u8, (uniqueId & 0xFF) as u8);
    StreamIdWord(m0, m1, m2, m3, m4, m5, uniqueId);
    hide Be64, Word64, BuildStreamId;
    Word64Octets(m0, m1, m2, m3, m4, m5, hi, lo);
  }

  lemma StreamIdWord(m0: u8, m1: u8, m2: u8, m3: u8, m4: u8, m5: u8, uniqueId: u16)
    ensures BuildStreamId([m0, m1, m2, m3, m4, m5], uniqueId) ==
            Word64(m0, m1, m2, m3, m4, m5, (uniqueId >> 8) as u8, (uniqueId & 0xFF) as u8)
  {
  }

  // ── Frames ───────────────────────────────────────────────────────────────

  /** A frame: header with the payload's length and the sender's stream id, then the payload;
      a payload over 2047 octets is an invalid size. */
  lemma FrameLayout(id: StreamId, sequenceNum: u8, payload: Bytes)
    ensures var r := NtscfFrame(id, sequenceNum, payload);
            if |payload| > 2047 then r == Err(InvalidSize)
            else exists length: u16 ::
                   && Num16(length) == |payload|
                   && r == Ok([0x82, 0x80 | (length >> 8) as u8, (length & 0xFF) as u8, sequenceNum]
                              + id.senderMac + Be16(id.uniqueId) + payload)
  {
    hide Be64, Be16, ToU64, Num16, NtscfOctet1;
    if |payload| <= 2047 {
      var length := ToU16(|payload|);
      DataLengthFits(length);
      LengthHigh(length);
      StreamIdLayout(id);
      var first := [0x82, 0x80 | (length >> 8) as u8, (length & 0xFF) as u8, sequenceNum];
      assert NtscfFrame(id, sequenceNum, payload) == Ok(first + (id.senderMac + Be16(id.uniqueId)) + payload);
      assert first + (id.senderMac + Be16(id.uniqueId)) == first + id.senderMac + Be16(id.uniqueId);
      assert Num16(length) == |payload|;
    }
  }

  /** Unframing cuts behind the twelve header octets and nowhere else: whatever the header's
      length field says, header and payload together are all that arrived. */
  lemma UnframedExactly(b: Bytes)
    ensures var r := DecodeNtscfFrame(b);
            if DecodeNtscf(b).Ok?
            then |b| >= 12 && r.Ok? && r.value.0 == DecodeNtscf(b).value && b[..12] + r.value.1 == b
            else r == Err(DecodeNtscf(b).error)
  {
    hide NtscfLength, StreamIdValid, FromBe64;
  }

  // ── Coverage and trailer ─────────────────────────────────────────────────

  /** The covered AVTPDU octets: the stream id and then the timestamp, which under NTSCF is
      four zero octets. */
  function CoveredAvtpdu(h: HeaderVariant): Bytes {
    match h
    case Ntscf(n) => Be64(n.streamId) + [0, 0, 0, 0]
    case Tscf(t) => Be64(t.streamId) + Be32(t.avtpTimestamp)
  }

  /** The coverage, region by region: stream id, timestamp, header with its type forced and its
      length one up, message timestamp, payload. */
  lemma CoverageLayout(h: HeaderVariant, m: AcfMessage)
    requires Coverage(h, m).Ok?
    ensures Coverage(h, m).value ==
            CoveredAvtpdu(h)
            + Be64(LayoutWord(m.info.(acfMsgType := TypeOf(m), acfMsgLength := m.info.acfMsgLength + 1)))
            + TimestampOctets(m) + m.payload
  {
    hide LayoutWord, InfoOctets, Be64, Fits, EncodeInfo, SaturatingIncrement;
    CoveredPrefix(h);
    CoverageSucceedsIff(h, m);
    LengthUp(m.info.acfMsgLength);
    AdjustedEncodes(h, m);
    EncodeFollowsLayout(AdjustedInfo(m));
    assert AdjustedInfo(m) == m.info.(acfMsgType := TypeOf(m), acfMsgLength := m.info.acfMsgLength + 1);
  }

  lemma CoveredPrefix(h: HeaderVariant)
    ensures Prefix(h) == CoveredAvtpdu(h)
  {
    assert Be32(0) == [0, 0, 0, 0];
    hide Be64, Be32;
  }

  lemma LengthUp(length: u16)
    requires length < ACF_MSG_LENGTH_9BIT_MAX
    ensures SaturatingIncrement(length) == length + 1
  {
  }

  lemma AdjustedEncodes(h: HeaderVariant, m: AcfMessage)
    requires Coverage(h, m).Ok?
    ensures Fits(AdjustedInfo(m))
  {
    hide InfoOctets, SaturatingIncrement;
  }

  /** A finalized frame: its header with the length one up and no reserved bit, everything after
      it, and the CRC most significant octet first. */
  lemma FinalizedLayout(frame: Bytes, crc: u32)
    requires Finalize(frame, crc).Ok?
    ensures |frame| >= 8 && DecodeInfo(frame).Ok?
    ensures var info := DecodeInfo(frame).value;
            Finalize(frame, crc).value ==
            Be64(LayoutWord(info.(acfMsgLength := info.acfMsgLength + 1))) + frame[8..] + Be32(crc)
  {
    hide LayoutWord, InfoOf, InfoOctets, Be64, Be32, Fits, Finalize;
    FinalizeSucceedsIff(frame, crc);
    FinalizeShape(frame, crc);
    HeaderOf(frame);
    BumpLaws(InfoOf(frame));
    EncodeFollowsLayout(Bump(InfoOf(frame)));
  }

  /** A split frame: its header with the length one down and no reserved bit, everything after
      it up to the last four octets, and those as the CRC. */
  lemma SplitLayout(frame: Bytes)
    requires SplitTrailer(frame).Ok?
    ensures |frame| >= 12 && DecodeInfo(frame).Ok?
    ensures var (info, start) := (DecodeInfo(frame).value, |frame| - 4);
            var (body, crc) := SplitTrailer(frame).value;
            && body == Be64(LayoutWord(info.(acfMsgLength := info.acfMsgLength - 1))) + frame[8..start]
            && Be32(crc) == frame[start..]
  {
    hide LayoutWord, InfoOf, InfoOctets, Be64, Be32, FromBe32, Fits, SplitTrailer;
    SplitSucceedsIff(frame);
    SplitShape(frame);
    HeaderOf(frame);
    LowerLaws(InfoOf(frame));
    EncodeFollowsLayout(Lower(InfoOf(frame)));
    FromBe32RoundTrip(frame[|frame| - 4..]);
  }

  /** What "reserved bits cleared" means: bits 4 and 3 of octet 2, bits 3 and 2 of octet 4. */
  lemma ReservedBits(b: Bytes)
    requires |b| >= 8
    ensures ClearReserved(b) == b[2 := b[2] & 0xE7][4 := b[4] & 0xF3]
  {
    KeptBits(b[2], b[4]);
    hide Keep2, Keep4;
  }
}
