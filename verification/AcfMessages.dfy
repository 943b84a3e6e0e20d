/** Several ACF_ABB messages in one frame: each message's own length is the delimiter. */
module AcfMessages {
  import opened Octets
  import opened ByteMessageInfo
  import opened Acf

  /** Split a frame into its messages, stopping at the first malformed one. */
  function Split(b: Bytes): Result<seq<AcfMessage>>
    decreases |b|
  {
    if b == [] then Ok([])
    else
      var (m, n) :- DecodePrefix(AbbKind, b);
      var rest :- Split(b[n..]);
      Ok([m] + rest)
  }

  /** `decode_acf_abb_messages`: an empty frame is rejected as short. */
  function AbbMessages(b: Bytes): Result<seq<AcfMessage>> {
    if b == [] then Err(ShortFrame) else Split(b)
  }

  /** An empty frame is short, not a frame of no messages. */
  lemma EmptyIsShort()
    ensures AbbMessages([]) == Err(ShortFrame)
  {
  }

  function Prepend(ms: seq<AcfMessage>, r: Result<seq<AcfMessage>>): Result<seq<AcfMessage>> {
    if r.Ok? then Ok(ms + r.value) else r
  }

  lemma PrependNil(r: Result<seq<AcfMessage>>)
    ensures Prepend([], r) == r
  {
    if r.Ok? {
      assert [] + r.value == r.value;
    }
  }

  lemma PrependAppend(ms: seq<AcfMessage>, m: AcfMessage, r: Result<seq<AcfMessage>>)
    ensures Prepend(ms, Prepend([m], r)) == Prepend(ms + [m], r)
  {
    if r.Ok? {
      assert ms + ([m] + r.value) == (ms + [m]) + r.value;
    }
  }

  lemma SplitStep(b: Bytes)
    requires b != []
    ensures DecodePrefix(AbbKind, b).Err? ==> Split(b) == Err(DecodePrefix(AbbKind, b).error)
    ensures DecodePrefix(AbbKind, b).Ok? ==>
              var (m, n) := DecodePrefix(AbbKind, b).value;
              Split(b) == Prepend([m], Split(b[n..]))
  {
    hide DecodePrefix;
  }

  /** The ACF_ABB decoder's decisions, in the order the loop body takes them. */
  lemma AbbPrefix(b: Bytes)
    ensures |b| < BYTE_MESSAGE_INFO_LEN ==> DecodePrefix(AbbKind, b) == Err(ShortFrame)
    ensures |b| >= BYTE_MESSAGE_INFO_LEN ==>
              var info := InfoOf(b[..BYTE_MESSAGE_INFO_LEN]);
              var taken := TakeMessageBytes(b, BYTE_MESSAGE_INFO_LEN, info);
              && (info.acfMsgType != ACF_ABB_MSG_TYPE ==> DecodePrefix(AbbKind, b) == Err(Other))
              && (info.acfMsgType == ACF_ABB_MSG_TYPE ==>
                    DecodePrefix(AbbKind, b) ==
                    if taken.Ok? then Ok((Abb(info, taken.value.0), taken.value.1)) else Err(taken.error))
  {
    hide InfoOf, TakeMessageBytes;
  }

  /** The splitter as written: advance an offset, pushing one message at a time. */
  method DecodeAcfAbbMessages(b: Bytes) returns (r: Result<seq<AcfMessage>>)
    ensures r == AbbMessages(b)
  {
    hide InfoOf, Split, Prepend, DecodePrefix, TakeMessageBytes;
    if |b| == 0 {
      return Err(ShortFrame);
    }
    var messages: seq<AcfMessage> := [];
    var offset := 0;
    assert b[0..] == b;
    PrependNil(Split(b));
    PrependErr();
    while offset < |b|
      invariant 0 <= offset <= |b|
      invariant Split(b) == Prepend(messages, Split(b[offset..]))
    {
      var remaining := b[offset..];
      SplitStep(remaining);
      AbbPrefix(remaining);
      if |remaining| < BYTE_MESSAGE_INFO_LEN {
        return Err(ShortFrame);
      }
      // Eight octets always decode as a header.
      var info := InfoOf(remaining[..BYTE_MESSAGE_INFO_LEN]);
      if info.acfMsgType != ACF_ABB_MSG_TYPE {
        return Err(Other);
      }
      var taken := TakeMessageBytes(remaining, BYTE_MESSAGE_INFO_LEN, info);
      if taken.Err? {
        return Err(taken.error);
      }
      var (payload, consumed) := taken.value;
      assert remaining[consumed..] == b[offset + consumed..];
      PrependAppend(messages, Abb(info, payload), Split(remaining[consumed..]));
      messages := messages + [Abb(info, payload)];
      offset := offset + consumed;
    }
    assert b[offset..] == [];
    SplitEmpty(messages);
    r := Ok(messages);
  }

  lemma SplitEmpty(ms: seq<AcfMessage>)
    ensures Prepend(ms, Split([])) == Ok(ms)
  {
    assert ms + [] == ms;
  }

  lemma PrependErr()
    ensures forall ms, e: RcpError :: Prepend(ms, Err(e)) == Err(e)
  {
  }

  /** Splitting distributes over concatenation at a message boundary. */
  lemma {:induction false} SplitAppend(b1: Bytes, b2: Bytes)
    requires Split(b1).Ok?
    ensures Split(b1 + b2) == Prepend(Split(b1).value, Split(b2))
    decreases |b1|
  {
    hide DecodePrefix;
    if b1 == [] {
      assert b1 + b2 == b2;
      PrependNil(Split(b2));
    } else {
      var (m, n) := DecodePrefix(AbbKind, b1).value;
      TailIgnored(AbbKind, b1, b2);
      assert (b1 + b2)[n..] == b1[n..] + b2;
      SplitAppend(b1[n..], b2);
      if Split(b2).Ok? {
        assert [m] + (Split(b1[n..]).value + Split(b2).value) == Split(b1).value + Split(b2).value;
      }
    }
  }

  /** If the splitter accepts `b1` then on `b1` followed by more it returns `b1`'s messages
      followed by what it makes of the rest, error included. */
  lemma AcceptedPrefixKept(b1: Bytes, b2: Bytes)
    requires AbbMessages(b1).Ok? && b2 != []
    ensures AbbMessages(b1 + b2) == Prepend(AbbMessages(b1).value, AbbMessages(b2))
  {
    SplitAppend(b1, b2);
  }

  predicate Encodable(m: AcfMessage) {
    m.Abb? && EncodeAcf(m).Ok?
  }

  ghost predicate AllEncodable(ms: seq<AcfMessage>) {
    forall i | 0 <= i < |ms| :: Encodable(ms[i])
  }

  /** The encodings of a list of messages, concatenated. */
  ghost function EncodeAll(ms: seq<AcfMessage>): Bytes
    requires AllEncodable(ms)
  {
    if ms == [] then [] else EncodeAcf(ms[0]).value + EncodeAll(ms[1..])
  }

  ghost function FillAll(ms: seq<AcfMessage>): (r: seq<AcfMessage>)
    requires AllEncodable(ms)
    ensures |r| == |ms|
  {
    if ms == [] then [] else [Fill(ms[0]).value] + FillAll(ms[1..])
  }

  lemma {:induction false} SplitEncoded(ms: seq<AcfMessage>)
    requires AllEncodable(ms)
    ensures Split(EncodeAll(ms)) == Ok(FillAll(ms))
  {
    hide DecodePrefix, EncodeAcf;
    if ms == [] {
    } else {
      var (f, rest) := (EncodeAcf(ms[0]).value, EncodeAll(ms[1..]));
      EncodedLength(ms[0]);
      DecodeInvertsEncodeAcf(ms[0], rest);
      assert (f + rest)[|f|..] == rest;
      SplitEncoded(ms[1..]);
    }
  }

  lemma EncodedLength(m: AcfMessage)
    requires EncodeAcf(m).Ok?
    ensures Fill(m).Ok? && |EncodeAcf(m).value| >= BYTE_MESSAGE_INFO_LEN
  {
    EncodedShape(m);
  }

  /** Splitting the concatenation of any non-empty list of encodings returns exactly that
      list, derived fields filled in. */
  lemma ConcatenationDecodes(ms: seq<AcfMessage>)
    requires ms != [] && AllEncodable(ms)
    ensures AbbMessages(EncodeAll(ms)) == Ok(FillAll(ms))
  {
    SplitEncoded(ms);
    EncodedLength(ms[0]);
  }

  /** Unique decodability: two lists with the same concatenated encoding are the same list
      up to the derived fields. */
  lemma UniquelyDecodable(ms: seq<AcfMessage>, ns: seq<AcfMessage>)
    requires AllEncodable(ms)
    requires AllEncodable(ns)
    requires EncodeAll(ms) == EncodeAll(ns)
    ensures FillAll(ms) == FillAll(ns)
  {
    SplitEncoded(ms);
    SplitEncoded(ns);
  }

  /** An accepted frame with every message's reserved bits and pad octets cleared. */
  function Cleared(b: Bytes): (r: Bytes)
    requires Split(b).Ok?
    ensures |r| == |b|
    decreases |b|
  {
    if b == [] then []
    else
      var (m, n) := DecodePrefix(AbbKind, b).value;
      AcceptedKind(b);
      NormalForm(AbbKind, b);
      Canonical(b[..n], Num8(m.info.pad)) + Cleared(b[n..])
  }

  /** Whatever the splitter accepts re-encodes, message by message, to the same octets with only
      reserved bits and pad octets cleared, and the re-encoding splits into the same messages. */
  lemma {:induction false} SplitCanonical(b: Bytes)
    requires Split(b).Ok?
    ensures var ms := Split(b).value;
            && AllEncodable(ms)
            && EncodeAll(ms) == Cleared(b)
            && Split(EncodeAll(ms)) == Ok(ms)
    decreases |b|
  {
    hide DecodePrefix, EncodeAcf, Canonical, Num8;
    if b == [] {
    } else {
      var (m, n) := DecodePrefix(AbbKind, b).value;
      var rest := Split(b[n..]).value;
      var ms := Split(b).value;
      NormalForm(AbbKind, b);
      AcceptedKind(b);
      SplitCanonical(b[n..]);
      assert ms[0] == m && ms[1..] == rest;
      SplitEncoded(ms);
      assert FillAll(ms) == [m] + FillAll(rest);
      SplitEncoded(rest);
    }
  }

  lemma AcceptedKind(b: Bytes)
    requires DecodePrefix(AbbKind, b).Ok?
    ensures DecodePrefix(AbbKind, b).value.0.Abb?
    ensures 0 < DecodePrefix(AbbKind, b).value.1 <= |b|
  {
  }
}
