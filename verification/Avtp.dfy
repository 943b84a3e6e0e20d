/** AVTPDU framing: the NTSCF and TSCF headers, header selection, stream ids and frames. */
module Avtp {
  import opened Octets

  const NTSCF_SUBTYPE: u8 := 0x82
  const TSCF_SUBTYPE: u8 := 0x05
  const NTSCF_HEADER_LEN: nat := 12
  const TSCF_HEADER_LEN: nat := 24
  const NTSCF_DATA_LENGTH_MAX: u16 := 0x07FF

  datatype NtscfHeader = NtscfHeader(sequenceNum: u8, ntscfDataLength: u16, streamId: u64)

  datatype TscfHeader = TscfHeader(
    sequenceNum: u8,
    avtpTimestamp: u32,
    streamDataLength: u16,
    streamId: u64)

  datatype HeaderVariant = Ntscf(ntscf: NtscfHeader) | Tscf(tscf: TscfHeader)

  datatype TimeSyncCapability = Capable | Incapable

  // ── NTSCF header ─────────────────────────────────────────────────────────

  function NtscfOctet1(length: u16): u8 {
    0x80 | ((length >> 8) & 0x07) as u8
  }

  function Low8(x: u16): u8 {
    (x & 0xFF) as u8
  }

  function NtscfOctets(h: NtscfHeader): (b: Bytes)
    ensures |b| == NTSCF_HEADER_LEN
  {
    [NTSCF_SUBTYPE, NtscfOctet1(h.ntscfDataLength), Low8(h.ntscfDataLength), h.sequenceNum] + Be64(h.streamId)
  }

  function EncodeNtscf(h: NtscfHeader): Result<Bytes> {
    if h.ntscfDataLength > NTSCF_DATA_LENGTH_MAX then Err(InvalidSize) else Ok(NtscfOctets(h))
  }

  /** Write an octet string into a buffer at an offset. */
  method PutAt(buf: array<u8>, offset: nat, b: Bytes)
    requires offset + |b| <= buf.Length
    modifies buf
    ensures forall i | 0 <= i < buf.Length ::
              buf[i] == if offset <= i < offset + |b| then b[i - offset] else old(buf[i])
  {
    for i := 0 to |b|
      invariant forall j | 0 <= j < buf.Length ::
                  buf[j] == if offset <= j < offset + i then b[j - offset] else old(buf[j])
    {
      buf[offset + i] := b[i];
    }
  }

  /** The NTSCF encoder as written: check the 11-bit length, fill a zeroed buffer. */
  method EncodeNtscfHeader(h: NtscfHeader) returns (r: Result<Bytes>)
    ensures r == EncodeNtscf(h)
  {
    if h.ntscfDataLength > NTSCF_DATA_LENGTH_MAX {
      return Err(InvalidSize);
    }
    hide NtscfOctet1, Low8, Be64;
    var buf := new u8[NTSCF_HEADER_LEN](_ => 0);
    buf[0] := NTSCF_SUBTYPE;
    buf[1] := NtscfOctet1(h.ntscfDataLength);
    buf[2] := Low8(h.ntscfDataLength);
    buf[3] := h.sequenceNum;
    PutAt(buf, 4, Be64(h.streamId));
    assert buf[..] == NtscfOctets(h);
    r := Ok(buf[..]);
  }

  function NtscfLength(b1: u8, b2: u8): u16 {
    ((b1 & 0x07) as u16 << 8) | b2 as u16
  }

  predicate StreamIdValid(b1: u8) {
    (b1 >> 7) & 0x1 == 1
  }

  function DecodeNtscf(b: Bytes): Result<NtscfHeader> {
    if |b| < NTSCF_HEADER_LEN then Err(ShortFrame)
    else if b[0] != NTSCF_SUBTYPE then Err(Other)
    else if !StreamIdValid(b[1]) then Err(Other)
    else Ok(NtscfHeader(b[3], NtscfLength(b[1], b[2]), FromBe64(b[4..12])))
  }

  lemma NtscfFields(length: u16)
    requires length <= NTSCF_DATA_LENGTH_MAX
    ensures StreamIdValid(NtscfOctet1(length))
    ensures NtscfLength(NtscfOctet1(length), Low8(length)) == length
  {
  }

  /** A decoded NTSCF header is the encoded one, whatever follows it. */
  lemma NtscfRoundTrip(h: NtscfHeader, tail: Bytes)
    requires h.ntscfDataLength <= NTSCF_DATA_LENGTH_MAX
    ensures DecodeNtscf(NtscfOctets(h) + tail) == Ok(h)
  {
    hide NtscfOctet1, Low8, NtscfLength, StreamIdValid, Be64, FromBe64;
    NtscfFields(h.ntscfDataLength);
    Be64RoundTrip(h.streamId);
    assert (NtscfOctets(h) + tail)[4..12] == Be64(h.streamId);
  }

  function KeepNtscf1(b1: u8): u8 {
    b1 & 0x87
  }

  lemma NtscfFieldsBack(b1: u8, b2: u8)
    requires StreamIdValid(b1)
    ensures NtscfLength(b1, b2) <= NTSCF_DATA_LENGTH_MAX
    ensures NtscfOctet1(NtscfLength(b1, b2)) == KeepNtscf1(b1)
    ensures Low8(NtscfLength(b1, b2)) == b2
  {
  }

  /** An accepted NTSCF header re-encodes to its own octets with the version and reserved
      bits of octet 1 cleared. */
  lemma NtscfNormalForm(b: Bytes)
    requires DecodeNtscf(b).Ok?
    ensures EncodeNtscf(DecodeNtscf(b).value) == Ok(b[..NTSCF_HEADER_LEN][1 := KeepNtscf1(b[1])])
  {
    hide NtscfOctet1, Low8, NtscfLength, StreamIdValid, Be64, FromBe64, KeepNtscf1;
    NtscfFieldsBack(b[1], b[2]);
    FromBe64RoundTrip(b[4..12]);
    assert b[..NTSCF_HEADER_LEN][1 := KeepNtscf1(b[1])] == [b[0], KeepNtscf1(b[1]), b[2], b[3]] + b[4..12];
  }

  /** Figure 6 of section 11.1: the first quadlet holds subtype, sv = 1, version and r zero,
      the 11-bit length and the sequence number. */
  lemma NtscfLayout(h: NtscfHeader)
    requires h.ntscfDataLength <= NTSCF_DATA_LENGTH_MAX
    ensures NtscfOctets(h) ==
            Be32(0x8280_0000 | (h.ntscfDataLength as u32 << 8) | h.sequenceNum as u32) + Be64(h.streamId)
  {
    NtscfQuadlet(h.ntscfDataLength, h.sequenceNum);
  }

  lemma NtscfQuadlet(length: u16, sequenceNum: u8)
    requires length <= NTSCF_DATA_LENGTH_MAX
    ensures Be32(0x8280_0000 | (length as u32 << 8) | sequenceNum as u32) ==
            [NTSCF_SUBTYPE, NtscfOctet1(length), Low8(length), sequenceNum]
  {
  }

  // ── TSCF header ──────────────────────────────────────────────────────────

  function TscfOctet1(timestamp: u32): u8 {
    if timestamp != 0 then 0x81 else 0x80
  }

  function Be16(x: u16): (b: Bytes)
    ensures |b| == 2
  {
    [(x >> 8) as u8, (x & 0xFF) as u8]
  }

  function FromBe16(hi: u8, lo: u8): u16 {
    (hi as u16 << 8) | lo as u16
  }

  lemma Be16RoundTrip(x: u16)
    ensures FromBe16(Be16(x)[0], Be16(x)[1]) == x
  {
  }

  function TscfOctets(h: TscfHeader): (b: Bytes)
    ensures |b| == TSCF_HEADER_LEN
  {
    [TSCF_SUBTYPE, TscfOctet1(h.avtpTimestamp), h.sequenceNum, 0]
    + Be64(h.streamId) + Be32(h.avtpTimestamp) + Zeros(4) + Be16(h.streamDataLength) + Zeros(2)
  }

  lemma SixParts(s: Bytes)
    requires |s| == TSCF_HEADER_LEN
    ensures s == s[..4] + s[4..12] + s[12..16] + s[16..20] + s[20..22] + s[22..24]
  {
  }

  /** The TSCF encoder as written; every header it is given is representable. */
  method EncodeTscfHeader(h: TscfHeader) returns (r: Result<Bytes>)
    ensures r == Ok(TscfOctets(h))
  {
    hide Be64, Be32, Be16, TscfOctet1;
    var buf := new u8[TSCF_HEADER_LEN](_ => 0);
    buf[0] := TSCF_SUBTYPE;
    buf[1] := TscfOctet1(h.avtpTimestamp);
    buf[2] := h.sequenceNum;
    buf[3] := 0;
    PutAt(buf, 4, Be64(h.streamId));
    PutAt(buf, 12, Be32(h.avtpTimestamp));
    PutAt(buf, 20, Be16(h.streamDataLength));
    var s := buf[..];
    assert s[..4] == [TSCF_SUBTYPE, TscfOctet1(h.avtpTimestamp), h.sequenceNum, 0];
    assert s[4..12] == Be64(h.streamId) && s[12..16] == Be32(h.avtpTimestamp);
    assert s[16..20] == Zeros(4) && s[20..22] == Be16(h.streamDataLength) && s[22..24] == Zeros(2);
    SixParts(s);
    r := Ok(s);
  }

  function DecodeTscf(b: Bytes): Result<TscfHeader> {
    if |b| < TSCF_HEADER_LEN then Err(ShortFrame)
    else if b[0] != TSCF_SUBTYPE then Err(Other)
    else if !StreamIdValid(b[1]) then Err(Other)
    else Ok(TscfHeader(b[2], FromBe32(b[12..16]), FromBe16(b[20], b[21]), FromBe64(b[4..12])))
  }

  lemma TscfStreamIdValid(timestamp: u32)
    ensures StreamIdValid(TscfOctet1(timestamp))
  {
  }

  /** A decoded TSCF header is the encoded one, whatever follows it. */
  lemma TscfRoundTrip(h: TscfHeader, tail: Bytes)
    ensures DecodeTscf(TscfOctets(h) + tail) == Ok(h)
  {
    hide TscfOctet1, StreamIdValid, Be64, FromBe64, Be32, FromBe32, Be16, FromBe16;
    TscfStreamIdValid(h.avtpTimestamp);
    Be64RoundTrip(h.streamId);
    Be32RoundTrip(h.avtpTimestamp);
    Be16RoundTrip(h.streamDataLength);
    var b := TscfOctets(h) + tail;
    assert b[4..12] == Be64(h.streamId);
    assert b[12..16] == Be32(h.avtpTimestamp);
    assert b[20] == Be16(h.streamDataLength)[0] && b[21] == Be16(h.streamDataLength)[1];
  }

  // ── Header selection ─────────────────────────────────────────────────────

  function SelectHeaderVariant(b: Bytes, timeSync: TimeSyncCapability): Result<HeaderVariant> {
    if b == [] then Err(ShortFrame)
    else if b[0] == NTSCF_SUBTYPE then
      var h :- DecodeNtscf(b);
      Ok(Ntscf(h))
    else if b[0] == TSCF_SUBTYPE then
      if timeSync.Incapable? then Err(UnsupportedCmd)
      else
        var h :- DecodeTscf(b);
        Ok(Tscf(h))
    else Err(Other)
  }

  function HeaderOctets(v: HeaderVariant): Bytes {
    if v.Ntscf? then NtscfOctets(v.ntscf) else TscfOctets(v.tscf)
  }

  /** Selection recovers the variant that was encoded: always under NTSCF, and under TSCF
      exactly when the server is time-sync capable. */
  lemma SelectionInvertsEncoding(v: HeaderVariant, timeSync: TimeSyncCapability, tail: Bytes)
    requires v.Ntscf? ==> v.ntscf.ntscfDataLength <= NTSCF_DATA_LENGTH_MAX
    ensures SelectHeaderVariant(HeaderOctets(v) + tail, timeSync) ==
            if v.Tscf? && timeSync.Incapable? then Err(UnsupportedCmd) else Ok(v)
  {
    hide TscfOctet1, StreamIdValid, NtscfOctet1, Low8, Be64, Be32, Be16;
    if v.Ntscf? {
      NtscfRoundTrip(v.ntscf, tail);
      assert (NtscfOctets(v.ntscf) + tail)[0] == NTSCF_SUBTYPE;
    } else {
      TscfRoundTrip(v.tscf, tail);
      assert (TscfOctets(v.tscf) + tail)[0] == TSCF_SUBTYPE;
    }
  }

  /** A time-sync-incapable server never obtains a TSCF header, and accepts exactly the
      NTSCF-headed input a capable server accepts. */
  lemma IncapableDropsTscf(b: Bytes)
    ensures var r := SelectHeaderVariant(b, Incapable);
            r.Ok? ==> r.value.Ntscf? && SelectHeaderVariant(b, Capable) == r
    ensures var c := SelectHeaderVariant(b, Capable);
            c.Ok? && c.value.Ntscf? ==> SelectHeaderVariant(b, Incapable) == c
  {
  }

  // ── Stream ids ───────────────────────────────────────────────────────────

  type Mac = m: Bytes | |m| == 6 witness [0, 0, 0, 0, 0, 0]

  datatype StreamId = StreamId(senderMac: Mac, uniqueId: u16)

  function BuildStreamId(mac: Mac, uniqueId: u16): u64 {
    (mac[0] as u64 << 56) | (mac[1] as u64 << 48) | (mac[2] as u64 << 40)
    | (mac[3] as u64 << 32) | (mac[4] as u64 << 24) | (mac[5] as u64 << 16)
    | uniqueId as u64
  }

  function ParseStreamId(raw: u64): (Mac, u16) {
    ([((raw >> 56) & 0xFF) as u8, ((raw >> 48) & 0xFF) as u8, ((raw >> 40) & 0xFF) as u8,
      ((raw >> 32) & 0xFF) as u8, ((raw >> 24) & 0xFF) as u8, ((raw >> 16) & 0xFF) as u8],
     (raw & 0xFFFF) as u16)
  }

  function ToU64(id: StreamId): u64 {
    BuildStreamId(id.senderMac, id.uniqueId)
  }

  function FromU64(raw: u64): StreamId {
    var (mac, uniqueId) := ParseStreamId(raw);
    StreamId(mac, uniqueId)
  }

  lemma BuildParts(m0: u8, m1: u8, m2: u8, m3: u8, m4: u8, m5: u8, uniqueId: u16)
    ensures ParseStreamId(BuildStreamId([m0, m1, m2, m3, m4, m5], uniqueId))
            == ([m0, m1, m2, m3, m4, m5], uniqueId)
  {
  }

  /** Stream ids and 64-bit values correspond one to one. */
  lemma StreamIdBijection(id: StreamId, raw: u64)
    ensures FromU64(ToU64(id)) == id
    ensures ToU64(FromU64(raw)) == raw
  {
    var m := id.senderMac;
    hide BuildStreamId, ParseStreamId;
    BuildParts(m[0], m[1], m[2], m[3], m[4], m[5], id.uniqueId);
    assert m == [m[0], m[1], m[2], m[3], m[4], m[5]];
    BuildOfParse(raw);
  }

  lemma BuildOfParse(raw: u64)
    ensures BuildStreamId(ParseStreamId(raw).0, ParseStreamId(raw).1) == raw
  {
  }

  // ── Frames ───────────────────────────────────────────────────────────────

  /** An NTSCF header for the payload, then the payload. */
  function NtscfFrame(id: StreamId, sequenceNum: u8, payload: Bytes): Result<Bytes> {
    if |payload| > 0x07FF then Err(InvalidSize)
    else Ok(NtscfOctets(NtscfHeader(sequenceNum, ToU16(|payload|), ToU64(id))) + payload)
  }

  lemma DataLengthFits(length: u16)
    requires Num16(length) <= 0x07FF
    ensures length <= NTSCF_DATA_LENGTH_MAX
  {
  }

  /** The frame encoder as written: measure, encode the header, append. */
  method EncodeNtscfFrame(id: StreamId, sequenceNum: u8, payload: Bytes) returns (r: Result<Bytes>)
    ensures r == NtscfFrame(id, sequenceNum, payload)
  {
    hide NtscfOctets, ToU64, Num16;
    if |payload| > 0x07FF {
      return Err(InvalidSize);
    }
    DataLengthFits(ToU16(|payload|));
    var header := EncodeNtscfHeader(NtscfHeader(sequenceNum, ToU16(|payload|), ToU64(id)));
    assert header.Ok?;
    var buf: Bytes := [];
    buf := buf + header.value;
    assert buf == header.value;
    buf := buf + payload;
    r := Ok(buf);
  }

  /** The header and all octets after it, whatever the header's length field says. */
  function DecodeNtscfFrame(b: Bytes): Result<(NtscfHeader, Bytes)> {
    var h :- DecodeNtscf(b);
    Ok((h, b[NTSCF_HEADER_LEN..]))
  }

  /** Framing succeeds exactly for payloads of at most 2047 octets, and unframing gives back
      the stream id, the sequence number, the payload's length and the payload. */
  lemma FrameRoundTrip(id: StreamId, sequenceNum: u8, payload: Bytes)
    ensures NtscfFrame(id, sequenceNum, payload).Ok? <==> |payload| <= 2047
    ensures var f := NtscfFrame(id, sequenceNum, payload);
            f.Ok? ==>
              var d := DecodeNtscfFrame(f.value);
              && d.Ok?
              && d.value.1 == payload
              && d.value.0.sequenceNum == sequenceNum
              && FromU64(d.value.0.streamId) == id
              && Num16(d.value.0.ntscfDataLength) == |payload|
  {
    hide NtscfOctets, ToU64, FromU64, Num16, DecodeNtscf;
    if |payload| <= 2047 {
      var h := NtscfHeader(sequenceNum, ToU16(|payload|), ToU64(id));
      DataLengthFits(h.ntscfDataLength);
      NtscfRoundTrip(h, payload);
      StreamIdBijection(id, 0);
      assert (NtscfOctets(h) + payload)[NTSCF_HEADER_LEN..] == payload;
    }
  }
}
