/** ACF messages: framing, padding, decoding and splitting of concatenated messages. */
module Acf {
  import opened Octets
  import opened ByteMessageInfo

  const ACF_ABB_MSG_TYPE: u8 := 0x0E
  const ACF_GBB_MSG_TYPE: u8 := 0x0D
  const QUADLET_LEN: nat := 4
  /** The 9-bit length field counts at most this many quadlets. */
  const MAX_QUADLETS: nat := 511

  /** An ACF_ABB or ACF_GBB message; only the latter carries a timestamp. */
  datatype AcfMessage =
    | Abb(info: Info, payload: Bytes)
    | Gbb(info: Info, messageTimestamp: u64, payload: Bytes)

  datatype AcfKind = AbbKind | GbbKind

  function KindOf(m: AcfMessage): AcfKind {
    if m.Abb? then AbbKind else GbbKind
  }

  function MsgType(kind: AcfKind): u8 {
    if kind.AbbKind? then ACF_ABB_MSG_TYPE else ACF_GBB_MSG_TYPE
  }

  function HeaderLen(kind: AcfKind): nat {
    if kind.AbbKind? then BYTE_MESSAGE_INFO_LEN else BYTE_MESSAGE_INFO_LEN + 8
  }

  /** The octets between `byte_message_info` and the payload. */
  function Extra(m: AcfMessage): (b: Bytes)
    ensures |b| == HeaderLen(KindOf(m)) - BYTE_MESSAGE_INFO_LEN
  {
    if m.Abb? then [] else Be64(m.messageTimestamp)
  }

  // ── Length and padding ───────────────────────────────────────────────────

  /** A pad count as the octet-wide field that carries it. */
  function ToPad(n: nat): (r: u8)
    requires n <= 3
    ensures Num8(r) == n && r <= PAD_2BIT_MAX
  {
    if n == 0 then 0 else if n == 1 then 1 else if n == 2 then 2 else 3
  }

  function QuadletsAndPad(headerLen: nat, payloadLen: nat): (r: Result<(u16, u8)>)
    ensures r.Ok? ==>
              && r.value.1 <= PAD_2BIT_MAX
              && Num16(r.value.0) * QUADLET_LEN == headerLen + payloadLen + Num8(r.value.1)
              && Num16(r.value.0) <= MAX_QUADLETS
    ensures r.Ok? <==> headerLen + payloadLen <= MAX_QUADLETS * QUADLET_LEN
    ensures r.Err? ==> r.error == InvalidSize
  {
    var total := headerLen + payloadLen;
    var remainder := total % QUADLET_LEN;
    var pad := if remainder == 0 then 0 else QUADLET_LEN - remainder;
    var quadlets := (total + pad) / QUADLET_LEN;
    if quadlets <= MAX_QUADLETS then Ok((ToU16(quadlets), ToPad(pad))) else Err(InvalidSize)
  }

  /** Length and pad are determined by the total: any length and any pad 0..3 that
      describe it are the ones derived. */
  lemma LengthAndPadUnique(headerLen: nat, payloadLen: nat, length: u16, pad: u8)
    requires Num8(pad) <= 3 && Num16(length) <= MAX_QUADLETS
    requires Num16(length) * QUADLET_LEN == headerLen + payloadLen + Num8(pad)
    ensures QuadletsAndPad(headerLen, payloadLen) == Ok((length, pad))
  {
    hide Num16, Num8, QuadletsAndPad;
    var derived := QuadletsAndPad(headerLen, payloadLen).value;
    PadBound(derived.1);
    assert Num16(derived.0) == Num16(length);
    Num16Injective(derived.0, length);
    Num8Injective(derived.1, pad);
  }

  lemma PadBound(pad: u8)
    requires pad <= PAD_2BIT_MAX
    ensures Num8(pad) <= 3
  {
  }

  lemma FieldBounds(info: Info)
    requires Fits(info)
    ensures Num8(info.pad) <= 3
    ensures Num16(info.acfMsgLength) <= MAX_QUADLETS
  {
  }

  lemma LengthFits(length: u16)
    requires Num16(length) <= MAX_QUADLETS
    ensures length <= ACF_MSG_LENGTH_9BIT_MAX
  {
  }

  // ── Encoding ─────────────────────────────────────────────────────────────

  /** The fields an encoder keeps from its caller fit their widths. */
  predicate KeptFieldsFit(info: Info) {
    && info.byteBusId <= BYTE_BUS_ID_11BIT_MAX
    && info.evt.subOpcode <= EVT_SUB_OPCODE_MAX
    && info.readSizeSegment <= READ_SIZE_SEGMENT_12BIT_MAX
  }

  function FilledInfo(info: Info, kind: AcfKind, length: u16, pad: u8): Info {
    info.(acfMsgType := MsgType(kind), acfMsgLength := length, pad := pad)
  }

  /** The message with the three derived header fields filled in. */
  function Fill(m: AcfMessage): (r: Result<AcfMessage>)
    ensures r.Ok? ==> KindOf(r.value) == KindOf(m) && r.value.payload == m.payload && Extra(r.value) == Extra(m)
  {
    var (length, pad) :- QuadletsAndPad(HeaderLen(KindOf(m)), |m.payload|);
    Ok(m.(info := FilledInfo(m.info, KindOf(m), length, pad)))
  }

  function EncodeAcf(m: AcfMessage): Result<Bytes> {
    var filled :- Fill(m);
    var octets :- EncodeInfo(filled.info);
    Ok(octets + Extra(filled) + filled.payload + Zeros(Num8(filled.info.pad)))
  }

  /** The ACF_ABB encoder as written: derive, validate, append. */
  method EncodeAcfAbb(m: AcfMessage) returns (r: Result<Bytes>)
    requires m.Abb?
    ensures r == EncodeAcf(m)
  {
    hide Fits, InfoOctets, Num16, Num8, QuadletsAndPad;
    var derived := QuadletsAndPad(BYTE_MESSAGE_INFO_LEN, |m.payload|);
    if derived.Err? {
      return Err(derived.error);
    }
    var (length, pad) := derived.value;
    var info := m.info.(acfMsgType := ACF_ABB_MSG_TYPE, acfMsgLength := length, pad := pad);
    var encoded := EncodeByteMessageInfo(info);
    if encoded.Err? {
      return Err(encoded.error);
    }
    assert Fill(m).value.info == info;
    var buf: Bytes := [];
    buf := buf + encoded.value;
    assert buf == encoded.value;
    buf := buf + m.payload;
    buf := buf + Zeros(Num8(pad));
    assert encoded.value + Extra(m) == encoded.value;
    r := Ok(buf);
  }

  /** The ACF_GBB encoder as written. */
  method EncodeAcfGbb(m: AcfMessage) returns (r: Result<Bytes>)
    requires m.Gbb?
    ensures r == EncodeAcf(m)
  {
    hide Fits, InfoOctets, Be64, Num16, Num8, QuadletsAndPad;
    var derived := QuadletsAndPad(BYTE_MESSAGE_INFO_LEN + 8, |m.payload|);
    if derived.Err? {
      return Err(derived.error);
    }
    var (length, pad) := derived.value;
    var info := m.info.(acfMsgType := ACF_GBB_MSG_TYPE, acfMsgLength := length, pad := pad);
    var encoded := EncodeByteMessageInfo(info);
    if encoded.Err? {
      return Err(encoded.error);
    }
    assert Fill(m).value.info == info;
    var buf: Bytes := [];
    buf := buf + encoded.value;
    assert buf == encoded.value;
    buf := buf + Be64(m.messageTimestamp);
    buf := buf + m.payload;
    buf := buf + Zeros(Num8(pad));
    r := Ok(buf);
  }

  lemma FilledFits(info: Info, kind: AcfKind, length: u16, pad: u8)
    requires length <= ACF_MSG_LENGTH_9BIT_MAX && pad <= PAD_2BIT_MAX
    ensures Fits(FilledInfo(info, kind, length, pad)) <==> KeptFieldsFit(info)
  {
  }

  /** Encoding succeeds exactly when the kept fields fit and the payload is at most 2036
      octets (ACF_ABB) or 2028 octets (ACF_GBB); otherwise it reports an invalid size. */
  lemma EncodeSucceedsIff(m: AcfMessage)
    ensures EncodeAcf(m).Ok? <==> KeptFieldsFit(m.info) && |m.payload| <= (if m.Abb? then 2036 else 2028)
    ensures EncodeAcf(m).Err? ==> EncodeAcf(m).error == InvalidSize
  {
    hide Fits, KeptFieldsFit, InfoOctets, FilledInfo, Num16, Num8, QuadletsAndPad;
    var derived := QuadletsAndPad(HeaderLen(KindOf(m)), |m.payload|);
    if derived.Ok? {
      LengthFits(derived.value.0);
      FilledFits(m.info, KindOf(m), derived.value.0, derived.value.1);
    }
  }

  /** The shape of an encoded message: a whole number of quadlets, exactly as many as its
      header says, with the pad octets last and zero. */
  lemma EncodedShape(m: AcfMessage)
    requires EncodeAcf(m).Ok?
    ensures Fill(m).Ok? && Fits(Fill(m).value.info)
    ensures var (f, w) := (EncodeAcf(m).value, Fill(m).value);
            && |f| == QUADLET_LEN * Num16(w.info.acfMsgLength)
            && |f| == HeaderLen(KindOf(m)) + |m.payload| + Num8(w.info.pad)
            && Num8(w.info.pad) <= 3
            && w.info.acfMsgType == MsgType(KindOf(m))
            && f == InfoOctets(w.info) + Extra(m) + m.payload + Zeros(Num8(w.info.pad))
  {
    hide Fits, InfoOctets, Num16, Num8, QuadletsAndPad;
    if Fill(m).Ok? {
      PadBound(Fill(m).value.info.pad);
    }
  }

  // ── Decoding ─────────────────────────────────────────────────────────────

  /** The payload of the message at the front of `b` and the octets it occupies. */
  function TakeMessageBytes(b: Bytes, headerLen: nat, info: Info): (r: Result<(Bytes, nat)>)
    ensures r.Ok? ==> 0 <= r.value.1 <= |b| && r.value.1 == QUADLET_LEN * Num16(info.acfMsgLength)
                      && headerLen <= r.value.1
  {
    var total := Num16(info.acfMsgLength) * QUADLET_LEN;
    if total < headerLen then Err(InvalidSize)
    else if total - headerLen < Num8(info.pad) then Err(InvalidSize)
    else if |b| < total then Err(ShortFrame)
    else Ok((b[headerLen..total - Num8(info.pad)], total))
  }

  /** Exactly when a message can be cut out, which error is reported otherwise, and that header,
      payload and pad octets make up the octets consumed. */
  lemma MessageBytesExact(b: Bytes, headerLen: nat, info: Info)
    ensures var (total, pad) := (QUADLET_LEN * Num16(info.acfMsgLength), Num8(info.pad));
            var r := TakeMessageBytes(b, headerLen, info);
            && (r.Ok? <==> headerLen + pad <= total <= |b|)
            && (r.Err? ==> r.error == if total < headerLen + pad then InvalidSize else ShortFrame)
            && (r.Ok? ==> r.value.1 == total
                          && b[..total] == b[..headerLen] + r.value.0 + b[total - pad..total])
  {
    hide Num16, Num8;
  }

  function MessageOf(kind: AcfKind, info: Info, extra: Bytes, payload: Bytes): AcfMessage
    requires |extra| == HeaderLen(kind) - BYTE_MESSAGE_INFO_LEN
  {
    if kind.AbbKind? then Abb(info, payload) else Gbb(info, FromBe64(extra), payload)
  }

  /** The message at the front of `b`, and how many octets it occupies. */
  function DecodePrefix(kind: AcfKind, b: Bytes): (r: Result<(AcfMessage, nat)>)
    ensures r.Ok? ==> HeaderLen(kind) <= r.value.1 <= |b| && KindOf(r.value.0) == kind
  {
    if |b| < HeaderLen(kind) then Err(ShortFrame)
    else
      var info :- DecodeInfo(b[..BYTE_MESSAGE_INFO_LEN]);
      if info.acfMsgType != MsgType(kind) then Err(Other)
      else
        var (payload, consumed) :- TakeMessageBytes(b, HeaderLen(kind), info);
        Ok((MessageOf(kind, info, b[BYTE_MESSAGE_INFO_LEN..HeaderLen(kind)], payload), consumed))
  }

  /** `decode_acf_abb` and `decode_acf_gbb`. */
  function DecodeAcf(kind: AcfKind, b: Bytes): Result<AcfMessage> {
    var (m, _) :- DecodePrefix(kind, b);
    Ok(m)
  }

  /** What acceptance means, in terms of the header fields. */
  lemma DecodeAccepts(kind: AcfKind, b: Bytes)
    ensures DecodePrefix(kind, b).Ok? <==>
              && |b| >= HeaderLen(kind)
              && var info := InfoOf(b);
              && info.acfMsgType == MsgType(kind)
              && HeaderLen(kind) + Num8(info.pad) <= QUADLET_LEN * Num16(info.acfMsgLength) <= |b|
    ensures DecodePrefix(kind, b).Ok? ==>
              var (info, hl) := (InfoOf(b), HeaderLen(kind));
              var total := QUADLET_LEN * Num16(info.acfMsgLength);
              DecodePrefix(kind, b).value ==
              (MessageOf(kind, info, b[BYTE_MESSAGE_INFO_LEN..hl], b[hl..total - Num8(info.pad)]), total)
  {
    if |b| >= HeaderLen(kind) {
      InfoOfPrefix(b, []);
      assert b + [] == b;
    }
    hide InfoOf, Num16, Num8, MessageOf;
  }

  /** The octets after the message never affect the result. */
  lemma TailIgnored(kind: AcfKind, b: Bytes, tail: Bytes)
    requires DecodePrefix(kind, b).Ok?
    ensures DecodePrefix(kind, b + tail) == DecodePrefix(kind, b)
  {
    hide InfoOf, MessageOf, Num16, Num8;
    DecodeAccepts(kind, b);
    InfoOfPrefix(b, tail);
    DecodeAccepts(kind, b + tail);
    var total := DecodePrefix(kind, b).value.1;
    assert (b + tail)[BYTE_MESSAGE_INFO_LEN..HeaderLen(kind)] == b[BYTE_MESSAGE_INFO_LEN..HeaderLen(kind)];
    var stop := total - Num8(InfoOf(b).pad);
    assert (b + tail)[HeaderLen(kind)..stop] == b[HeaderLen(kind)..stop];
  }

  /** ACF messages form a prefix-free code: every strict prefix of an accepted message is
      rejected as short. */
  lemma PrefixFree(kind: AcfKind, b: Bytes, n: nat)
    requires DecodePrefix(kind, b).Ok? && DecodePrefix(kind, b).value.1 == |b|
    requires n < |b|
    ensures DecodePrefix(kind, b[..n]) == Err(ShortFrame)
  {
    hide InfoOf, Num16, Num8;
    DecodeAccepts(kind, b);
    if n >= HeaderLen(kind) {
      assert b == b[..n] + b[n..];
      InfoOfPrefix(b[..n], b[n..]);
      assert b[..n][..BYTE_MESSAGE_INFO_LEN] == b[..BYTE_MESSAGE_INFO_LEN];
      InfoOfPrefix(b[..n], []);
    }
  }

  lemma ExtraRoundTrip(m: AcfMessage)
    ensures MessageOf(KindOf(m), m.info, Extra(m), m.payload) == m
  {
    if m.Gbb? {
      Be64RoundTrip(m.messageTimestamp);
    }
  }

  /** Decoding inverts encoding: the message comes back with its derived fields filled in,
      consuming exactly its own octets, whatever follows. */
  lemma DecodeInvertsEncodeAcf(m: AcfMessage, tail: Bytes)
    requires EncodeAcf(m).Ok?
    ensures DecodePrefix(KindOf(m), EncodeAcf(m).value + tail)
            == Ok((Fill(m).value, |EncodeAcf(m).value|))
  {
    hide InfoOf, InfoOctets, Fits, MessageOf, Extra, Num16, Num8;
    var (f, w, kind) := (EncodeAcf(m).value, Fill(m).value, KindOf(m));
    EncodedShape(m);
    var rest := Extra(m) + m.payload + Zeros(Num8(w.info.pad));
    assert f == InfoOctets(w.info) + rest;
    DecodeInvertsEncode(w.info, rest);
    DecodeAccepts(kind, f);
    var hl := HeaderLen(kind);
    assert f[BYTE_MESSAGE_INFO_LEN..hl] == Extra(w);
    assert f[hl..|f| - Num8(w.info.pad)] == w.payload;
    ExtraRoundTrip(w);
    TailIgnored(kind, f, tail);
  }

  // ── Normal form ──────────────────────────────────────────────────────────

  /** A message with its reserved bits and its last `pad` octets cleared. */
  function Canonical(b: Bytes, pad: nat): (r: Bytes)
    requires BYTE_MESSAGE_INFO_LEN + pad <= |b|
    ensures |r| == |b|
  {
    ClearReserved(b)[..|b| - pad] + Zeros(pad)
  }

  lemma ExtraOfMessage(kind: AcfKind, info: Info, extra: Bytes, payload: Bytes)
    requires |extra| == HeaderLen(kind) - BYTE_MESSAGE_INFO_LEN
    ensures Extra(MessageOf(kind, info, extra, payload)) == extra
  {
    if kind.GbbKind? {
      FromBe64RoundTrip(extra);
    }
  }

  lemma FilledSame(info: Info, kind: AcfKind)
    requires info.acfMsgType == MsgType(kind)
    ensures FilledInfo(info, kind, info.acfMsgLength, info.pad) == info
  {
  }

  /** Re-encoding an accepted message succeeds, re-derives its length and pad, and gives the
      consumed octets back with only the reserved bits and the pad octets cleared. */
  lemma NormalForm(kind: AcfKind, b: Bytes)
    requires DecodePrefix(kind, b).Ok?
    ensures var (m, n) := DecodePrefix(kind, b).value;
            && Num8(m.info.pad) <= 3
            && BYTE_MESSAGE_INFO_LEN + Num8(m.info.pad) <= n
            && Fill(m) == Ok(m)
            && EncodeAcf(m) == Ok(Canonical(b[..n], Num8(m.info.pad)))
  {
    hide InfoOf, InfoOctets, Fits, MessageOf, Extra, FilledInfo, QuadletsAndPad, Num16, Num8, ClearReserved;
    var (m, n) := DecodePrefix(kind, b).value;
    DecodeAccepts(kind, b);
    var (info, hl) := (InfoOf(b), HeaderLen(kind));
    var pad := Num8(info.pad);
    MessageInfo(kind, info, b[BYTE_MESSAGE_INFO_LEN..hl], b[hl..n - pad]);
    EncodeInvertsDecode(b);
    FieldBounds(info);
    LengthAndPadUnique(hl, |m.payload|, info.acfMsgLength, info.pad);
    FilledSame(info, kind);
    ExtraOfMessage(kind, info, b[BYTE_MESSAGE_INFO_LEN..hl], m.payload);
    ClearedUpTo(b, hl, n - pad, n);
  }

  lemma ClearedUpTo(b: Bytes, lo: nat, hi: nat, n: nat)
    requires BYTE_MESSAGE_INFO_LEN <= lo <= hi <= n <= |b|
    ensures ClearReserved(b[..n])[..hi] ==
            ClearReserved(b[..BYTE_MESSAGE_INFO_LEN]) + b[BYTE_MESSAGE_INFO_LEN..lo] + b[lo..hi]
  {
    hide ClearReserved;
    ClearReservedSplit(b[..n]);
    assert b[..n][..BYTE_MESSAGE_INFO_LEN] == b[..BYTE_MESSAGE_INFO_LEN];
    assert b[..n][BYTE_MESSAGE_INFO_LEN..][..hi - BYTE_MESSAGE_INFO_LEN] == b[BYTE_MESSAGE_INFO_LEN..lo] + b[lo..hi];
  }

  lemma ClearReservedSplit(b: Bytes)
    requires |b| >= BYTE_MESSAGE_INFO_LEN
    ensures ClearReserved(b) == ClearReserved(b[..BYTE_MESSAGE_INFO_LEN]) + b[BYTE_MESSAGE_INFO_LEN..]
  {
    hide Keep2, Keep4;
  }

  lemma MessageInfo(kind: AcfKind, info: Info, extra: Bytes, payload: Bytes)
    requires |extra| == HeaderLen(kind) - BYTE_MESSAGE_INFO_LEN
    ensures MessageOf(kind, info, extra, payload).info == info
    ensures MessageOf(kind, info, extra, payload).payload == payload
    ensures KindOf(MessageOf(kind, info, extra, payload)) == kind
    ensures MessageOf(kind, info, extra, payload).(info := info) == MessageOf(kind, info, extra, payload)
  {
  }
}
