/** The 8-octet header both ACF message types carry first. */
module ByteMessageInfo {
  import opened Octets

  const ACF_MSG_TYPE_7BIT_MAX: u8 := 0x7F
  const ACF_MSG_LENGTH_9BIT_MAX: u16 := 0x01FF
  const PAD_2BIT_MAX: u8 := 0x03
  const BYTE_BUS_ID_11BIT_MAX: u16 := 0x07FF
  const EVT_SUB_OPCODE_MAX: u8 := 0x07
  const READ_SIZE_SEGMENT_12BIT_MAX: u16 := 0x0FFF
  const BYTE_MESSAGE_INFO_LEN: nat := 8

  datatype Evt = Evt(ack: bool, subOpcode: u8)

  datatype Info = Info(
    acfMsgType: u8,
    acfMsgLength: u16,
    pad: u8,
    mtv: bool,
    byteBusId: u16,
    evt: Evt,
    hs: bool,
    cs: bool,
    transactionNum: u8,
    op: bool,
    rsp: bool,
    err: bool,
    ms: bool,
    readSizeSegment: u16)

  /** A flag as an octet. */
  function Flag(b: bool): u8 {
    if b then 1 else 0
  }

  /** Every field fits its wire width. */
  predicate Fits(info: Info) {
    && info.acfMsgType <= ACF_MSG_TYPE_7BIT_MAX
    && info.acfMsgLength <= ACF_MSG_LENGTH_9BIT_MAX
    && info.pad <= PAD_2BIT_MAX
    && info.byteBusId <= BYTE_BUS_ID_11BIT_MAX
    && info.evt.subOpcode <= EVT_SUB_OPCODE_MAX
    && info.readSizeSegment <= READ_SIZE_SEGMENT_12BIT_MAX
  }

  /** The raw 4-bit `evt` nibble. */
  function RawNibble(evt: Evt): u8 {
    (Flag(evt.ack) << 3) | (evt.subOpcode & 0x7)
  }

  function Octet0(info: Info): u8 {
    (info.acfMsgType << 1) | (((info.acfMsgLength >> 8) & 0x1) as u8)
  }

  function Octet1(info: Info): u8 {
    (info.acfMsgLength & 0xFF) as u8
  }

  function Octet2(info: Info): u8 {
    (info.pad << 6) | (Flag(info.mtv) << 5) | (((info.byteBusId >> 8) & 0x7) as u8)
  }

  function Octet3(info: Info): u8 {
    (info.byteBusId & 0xFF) as u8
  }

  function Octet4(info: Info): u8 {
    (RawNibble(info.evt) << 4) | (Flag(info.hs) << 1) | Flag(info.cs)
  }

  function Octet6(info: Info): u8 {
    (Flag(info.op) << 7) | (Flag(info.rsp) << 6) | (Flag(info.err) << 5) | (Flag(info.ms) << 4)
    | (((info.readSizeSegment >> 8) & 0xF) as u8)
  }

  function Octet7(info: Info): u8 {
    (info.readSizeSegment & 0xFF) as u8
  }

  function InfoOctets(info: Info): (b: Bytes)
    ensures |b| == BYTE_MESSAGE_INFO_LEN
  {
    [Octet0(info), Octet1(info), Octet2(info), Octet3(info),
     Octet4(info), info.transactionNum, Octet6(info), Octet7(info)]
  }

  function EncodeInfo(info: Info): Result<Bytes> {
    if Fits(info) then Ok(InfoOctets(info)) else Err(InvalidSize)
  }

  /** Encoding as written: validate, then fill a fixed array octet by octet. */
  method EncodeByteMessageInfo(info: Info) returns (r: Result<Bytes>)
    ensures r == EncodeInfo(info)
  {
    if || info.acfMsgType > ACF_MSG_TYPE_7BIT_MAX
       || info.acfMsgLength > ACF_MSG_LENGTH_9BIT_MAX
       || info.pad > PAD_2BIT_MAX
       || info.byteBusId > BYTE_BUS_ID_11BIT_MAX
       || info.evt.subOpcode > EVT_SUB_OPCODE_MAX
       || info.readSizeSegment > READ_SIZE_SEGMENT_12BIT_MAX
    {
      return Err(InvalidSize);
    }
    var buf := new u8[BYTE_MESSAGE_INFO_LEN](_ => 0);
    hide Octet0, Octet1, Octet2, Octet3, Octet4, Octet6, Octet7;
    buf[0] := Octet0(info);
    buf[1] := Octet1(info);
    buf[2] := Octet2(info);
    buf[3] := Octet3(info);
    buf[4] := Octet4(info);
    buf[5] := info.transactionNum;
    buf[6] := Octet6(info);
    buf[7] := Octet7(info);
    assert buf[..] == InfoOctets(info);
    r := Ok(buf[..]);
  }

  /** The header fields the first eight octets of `b` carry. */
  function InfoOf(b: Bytes): Info
    requires |b| >= BYTE_MESSAGE_INFO_LEN
  {
    Info(
      b[0] >> 1,
      ((b[0] & 0x1) as u16 << 8) | b[1] as u16,
      b[2] >> 6,
      (b[2] >> 5) & 0x1 != 0,
      ((b[2] & 0x7) as u16 << 8) | b[3] as u16,
      Evt(((b[4] >> 4) >> 3) & 0x1 != 0, (b[4] >> 4) & 0x7),
      (b[4] >> 1) & 0x1 != 0,
      b[4] & 0x1 != 0,
      b[5],
      (b[6] >> 7) & 0x1 != 0,
      (b[6] >> 6) & 0x1 != 0,
      (b[6] >> 5) & 0x1 != 0,
      (b[6] >> 4) & 0x1 != 0,
      ((b[6] & 0xF) as u16 << 8) | b[7] as u16)
  }

  function DecodeInfo(b: Bytes): Result<Info> {
    if |b| < BYTE_MESSAGE_INFO_LEN then Err(ShortFrame) else Ok(InfoOf(b))
  }

  // ── The wire layout, stated as one 64-bit word ───────────────────────────

  function Flag64(b: bool): u64 {
    if b then 1 else 0
  }

  /** Figure 7 / Table 4 of section 11.2.1 read as one big-endian 64-bit word: each field
      at its place, both reserved pairs zero. */
  function LayoutWord(info: Info): u64 {
      (info.acfMsgType as u64 << 57)
    | (info.acfMsgLength as u64 << 48)
    | (info.pad as u64 << 46)
    | (Flag64(info.mtv) << 45)
    | (info.byteBusId as u64 << 32)
    | (Flag64(info.evt.ack) << 31)
    | (info.evt.subOpcode as u64 << 28)
    | (Flag64(info.hs) << 25)
    | (Flag64(info.cs) << 24)
    | (info.transactionNum as u64 << 16)
    | (Flag64(info.op) << 15)
    | (Flag64(info.rsp) << 14)
    | (Flag64(info.err) << 13)
    | (Flag64(info.ms) << 12)
    | (info.readSizeSegment as u64)
  }

  function Word64(b0: u8, b1: u8, b2: u8, b3: u8, b4: u8, b5: u8, b6: u8, b7: u8): u64 {
    (b0 as u64 << 56) | (b1 as u64 << 48) | (b2 as u64 << 40) | (b3 as u64 << 32)
    | (b4 as u64 << 24) | (b5 as u64 << 16) | (b6 as u64 << 8) | b7 as u64
  }

  lemma Word64Octets(b0: u8, b1: u8, b2: u8, b3: u8, b4: u8, b5: u8, b6: u8, b7: u8)
    ensures Be64(Word64(b0, b1, b2, b3, b4, b5, b6, b7)) == [b0, b1, b2, b3, b4, b5, b6, b7]
  {
  }

  lemma LayoutOctets(info: Info)
    requires Fits(info)
    ensures LayoutWord(info) == Word64(Octet0(info), Octet1(info), Octet2(info), Octet3(info),
                                       Octet4(info), info.transactionNum, Octet6(info), Octet7(info))
  {
  }

  /** The encoder puts every field where the layout puts it. */
  lemma EncodeFollowsLayout(info: Info)
    requires Fits(info)
    ensures EncodeInfo(info) == Ok(Be64(LayoutWord(info)))
  {
    hide LayoutWord, Word64, Octet0, Octet1, Octet2, Octet3, Octet4, Octet6, Octet7, Be64;
    LayoutOctets(info);
    Word64Octets(Octet0(info), Octet1(info), Octet2(info), Octet3(info),
                 Octet4(info), info.transactionNum, Octet6(info), Octet7(info));
  }

  // ── Encoding and decoding are inverse up to the reserved bits ────────────

  lemma DecodedOctets(info: Info)
    requires Fits(info)
    ensures InfoOf([Octet0(info), Octet1(info), Octet2(info), Octet3(info),
                    Octet4(info), info.transactionNum, Octet6(info), Octet7(info)]) == info
  {
  }

  /** What was encoded is what is decoded, whatever follows the header. */
  lemma DecodeInvertsEncode(info: Info, tail: Bytes)
    requires Fits(info)
    ensures DecodeInfo(InfoOctets(info) + tail) == Ok(info)
  {
    DecodedOctets(info);
    InfoOfPrefix(InfoOctets(info), tail);
  }

  lemma InfoOfPrefix(b: Bytes, tail: Bytes)
    requires |b| >= BYTE_MESSAGE_INFO_LEN
    ensures InfoOf(b + tail) == InfoOf(b) == InfoOf(b[..BYTE_MESSAGE_INFO_LEN])
  {
  }

  /** Octet 2 without its reserved bits 4:3. */
  function Keep2(x: u8): u8 {
    x & 0xE7
  }

  /** Octet 4 without its reserved bits 3:2. */
  function Keep4(x: u8): u8 {
    x & 0xF3
  }

  /** A message with its header's four reserved bits cleared. */
  function ClearReserved(b: Bytes): (r: Bytes)
    requires |b| >= BYTE_MESSAGE_INFO_LEN
    ensures |r| == |b|
  {
    b[2 := Keep2(b[2])][4 := Keep4(b[4])]
  }

  lemma ReencodedOctets(b: Bytes)
    requires |b| >= BYTE_MESSAGE_INFO_LEN
    ensures Fits(InfoOf(b))
    ensures Octet0(InfoOf(b)) == b[0] && Octet1(InfoOf(b)) == b[1]
    ensures Octet2(InfoOf(b)) == Keep2(b[2]) && Octet3(InfoOf(b)) == b[3]
    ensures Octet4(InfoOf(b)) == Keep4(b[4]) && InfoOf(b).transactionNum == b[5]
    ensures Octet6(InfoOf(b)) == b[6] && Octet7(InfoOf(b)) == b[7]
  {
  }

  /** Re-encoding a decoded header reproduces it with the reserved bits cleared. */
  lemma EncodeInvertsDecode(b: Bytes)
    requires |b| >= BYTE_MESSAGE_INFO_LEN
    ensures Fits(InfoOf(b))
    ensures InfoOctets(InfoOf(b)) == ClearReserved(b[..BYTE_MESSAGE_INFO_LEN])
  {
    hide InfoOf, Fits, Keep2, Keep4, Octet0, Octet1, Octet2, Octet3, Octet4, Octet6, Octet7;
    ReencodedOctets(b);
    var h := b[..BYTE_MESSAGE_INFO_LEN];
    assert ClearReserved(h) == [h[0], h[1], Keep2(h[2]), h[3], Keep4(h[4]), h[5], h[6], h[7]];
  }

  /** Fitting headers with the same octets are the same header. */
  lemma InfoOctetsInjective(x: Info, y: Info)
    requires Fits(x) && Fits(y) && InfoOctets(x) == InfoOctets(y)
    ensures x == y
  {
    DecodedOctets(x);
    DecodedOctets(y);
  }
}
