/** A whole train end to end: every fragment encoded and framed by the sender, the frames
    carried by a channel that loses, repeats and reorders them, and at the receiver unframed,
    decoded, reassembled and checked against the CRC the last fragment carries. */
module Transfer {
  import opened Octets
  import opened ByteMessageInfo
  import opened Acf
  import opened Avtp
  import opened E2e
  import opened Protection
  import opened FragmentTrain
  import opened Fragment
  import opened Detection
  import Crc32

  // ── Sender ───────────────────────────────────────────────────────────────

  /** One fragment's ACF message: the trailer only where the placement rule expects it. */
  function FragmentOctets(m: AcfMessage, crc: u32): Result<Bytes> {
    var encoded :- EncodeAcf(m);
    if FragmentCrcExpectation(m.info.ms) == Expected then Finalize(encoded, crc) else Ok(encoded)
  }

  function SendFragment(id: StreamId, sequenceNum: u8, m: AcfMessage, crc: u32): Result<Bytes> {
    var acf :- FragmentOctets(m, crc);
    NtscfFrame(id, sequenceNum, acf)
  }

  /** The AVTPDU header as far as the CRC covers it. */
  function CoveredHeader(id: StreamId): HeaderVariant {
    Ntscf(NtscfHeader(0, 0, ToU64(id)))
  }

  /** The fragment's fields fit, and the last one leaves room for the trailer. */
  predicate Sendable(m: AcfMessage) {
    && KeptFieldsFit(m.info)
    && |m.payload| <= (if m.Abb? then 2036 else 2028) - (if m.info.ms then 0 else CRC_TRAILER_LEN)
  }

  /** A numbered train of sendable messages of one kind. */
  ghost predicate IsMessageTrain(kind: AcfKind, ms: seq<AcfMessage>) {
    && (forall i | 0 <= i < |ms| :: KindOf(ms[i]) == kind && Sendable(ms[i]))
    && IsTrain(Pieces(ms))
  }

  /** What reassembly sees of the messages. */
  function Pieces(ms: seq<AcfMessage>): (ps: seq<Piece>)
    ensures |ps| == |ms|
    ensures forall i | 0 <= i < |ms| :: ps[i] == Piece(Wire(ms[i]).info, ms[i].payload)
  {
    seq(|ms|, i requires 0 <= i < |ms| => Piece(Wire(ms[i]).info, ms[i].payload))
  }

  /** The message with its derived fields, as the encoder writes it. */
  function Wire(m: AcfMessage): AcfMessage {
    if Fill(m).Ok? then Fill(m).value else m
  }

  /** The CRC of the train: the final fragment's header over the combined payload. */
  function SenderCrc(id: StreamId, ms: seq<AcfMessage>): Result<u32>
    requires ms != []
  {
    TrainCrc(CoveredHeader(id), Wire(ms[|ms| - 1]), Payloads(Pieces(ms)))
  }

  /** The frames of a train whose last fragment carries `crc`. */
  function SendAll(id: StreamId, numbers: seq<u8>, ms: seq<AcfMessage>, crc: u32): Result<seq<Bytes>>
    requires |numbers| == |ms|
    decreases |ms|
  {
    if ms == [] then Ok([])
    else
      var first :- SendFragment(id, numbers[0], ms[0], crc);
      var rest :- SendAll(id, numbers[1..], ms[1..], crc);
      Ok([first] + rest)
  }

  /** A train as sent, under any sequence numbers. */
  function SendTrain(id: StreamId, numbers: seq<u8>, ms: seq<AcfMessage>): Result<seq<Bytes>>
    requires |numbers| == |ms| > 0
  {
    var crc :- SenderCrc(id, ms);
    SendAll(id, numbers, ms, crc)
  }

  // ── Receiver ─────────────────────────────────────────────────────────────

  datatype Arrival = Arrival(header: NtscfHeader, message: AcfMessage, carried: Option<u32>)

  /** Unframe, look at `ms` to see whether a trailer is expected, and decode. */
  function ReceiveFragment(kind: AcfKind, b: Bytes): Result<Arrival> {
    var (h, acf) :- DecodeNtscfFrame(b);
    var info :- DecodeInfo(acf);
    if FragmentCrcExpectation(info.ms) == Expected then
      var (body, crc) :- SplitTrailer(acf);
      var m :- DecodeAcf(kind, body);
      Ok(Arrival(h, m, Some(crc)))
    else
      var m :- DecodeAcf(kind, acf);
      Ok(Arrival(h, m, None))
  }

  datatype Verdict = Rejected | More | Intact | Damaged

  /** What one frame does to the buffer and what the receiver concludes. */
  function Arrive(s: Reassembly, kind: AcfKind, b: Bytes): (Reassembly, Verdict) {
    match ReceiveFragment(kind, b)
    case Err(_) => (s, Rejected)
    case Ok(a) =>
      var (t, r) := Accept(s, a.message.info, a.message.payload);
      match r
      case Err(_) => (t, Rejected)
      case Ok(Continuing) => (t, More)
      case Ok(Complete) =>
        var computed := VerifyReassembledTrainCrc(t, Ntscf(a.header), a.message, a.carried.Some?);
        (t, if a.carried.Some? && computed == Ok(a.carried.value) then Intact else Damaged)
  }

  /** The buffer after the frames that arrive, one by one. */
  function Reassembled(s: Reassembly, kind: AcfKind, frames: seq<Bytes>): Reassembly
    decreases frames
  {
    if frames == [] then s else Reassembled(Arrive(s, kind, frames[0]).0, kind, frames[1..])
  }

  /** How often the receiver reaches a verdict. */
  function Reports(s: Reassembly, kind: AcfKind, frames: seq<Bytes>, v: Verdict): nat
    decreases frames
  {
    if frames == [] then 0
    else
      var (t, w) := Arrive(s, kind, frames[0]);
      (if w == v then 1 else 0) + Reports(t, kind, frames[1..], v)
  }

  /** The frames a channel delivers: any of those sent, in any order, any number of times. */
  function Delivered(frames: seq<Bytes>, ds: seq<nat>): (r: seq<Bytes>)
    requires forall i | 0 <= i < |ds| :: ds[i] < |frames|
    ensures |r| == |ds| && forall i | 0 <= i < |ds| :: r[i] == frames[ds[i]]
  {
    seq(|ds|, i requires 0 <= i < |ds| => frames[ds[i]])
  }

  // ── One fragment over the wire ───────────────────────────────────────────

  lemma WireKeeps(m: AcfMessage)
    requires Fill(m).Ok?
    ensures Wire(m).payload == m.payload && KindOf(Wire(m)) == KindOf(m)
    ensures Wire(m).info.ms == m.info.ms && Wire(m).info.readSizeSegment == m.info.readSizeSegment
  {
  }

  /** A sendable fragment is sent, and arrives as the message with its derived fields and the
      CRC exactly if it is the last. */
  lemma FragmentArrives(id: StreamId, sequenceNum: u8, m: AcfMessage, crc: u32)
    requires Sendable(m)
    ensures SendFragment(id, sequenceNum, m, crc).Ok? && Fill(m).Ok?
    ensures var r := ReceiveFragment(KindOf(m), SendFragment(id, sequenceNum, m, crc).value);
            && r.Ok?
            && r.value.header.streamId == ToU64(id)
            && r.value.message == Wire(m)
            && r.value.carried == if m.info.ms then None else Some(crc)
  {
    hide EncodeAcf, DecodeAcf, Finalize, SplitTrailer, KeptFieldsFit, Fits, InfoOf, NtscfFrame;
    hide DecodeNtscfFrame, ToU64, Num16, Num8, ClearReserved, Fill;
    EncodeSucceedsIff(m);
    WireForm(m);
    WireKeeps(m);
    EncodedBound(m);
    var e := EncodeAcf(m).value;
    var w := Wire(m);
    if m.info.ms {
      FragmentFramed(id, sequenceNum, e);
      HeaderDecodes(e);
    } else {
      QuadletCount(m);
      LengthBelow(w.info.acfMsgLength);
      FinalizeSucceedsIff(e, crc);
      var f := Finalize(e, crc).value;
      FinalizedForm(e, w.info, crc, f);
      SplitInvertsFinalize(e, crc);
      FragmentFramed(id, sequenceNum, f);
      HeaderDecodes(f);
    }
  }

  lemma FragmentFramed(id: StreamId, sequenceNum: u8, acf: Bytes)
    requires |acf| <= 2044
    ensures NtscfFrame(id, sequenceNum, acf).Ok?
    ensures var d := DecodeNtscfFrame(NtscfFrame(id, sequenceNum, acf).value);
            d.Ok? && d.value.0.streamId == ToU64(id) && d.value.1 == acf
  {
    hide NtscfFrame, DecodeNtscfFrame, ToU64, FromU64;
    FrameRoundTrip(id, sequenceNum, acf);
    StreamIdBijection(id, DecodeNtscfFrame(NtscfFrame(id, sequenceNum, acf).value).value.0.streamId);
  }

  lemma EncodedBound(m: AcfMessage)
    requires EncodeAcf(m).Ok?
    ensures |EncodeAcf(m).value| <= 2044
    ensures |m.payload| <= (if m.Abb? then 2032 else 2024) ==> |EncodeAcf(m).value| <= 2040
  {
    hide EncodeAcf, Fits, InfoOctets, Num16, Num8, Fill, Extra;
    EncodedShape(m);
    EncodeSucceedsIff(m);
  }

  lemma HeaderDecodes(f: Bytes)
    requires |f| >= BYTE_MESSAGE_INFO_LEN
    ensures DecodeInfo(f) == Ok(InfoOf(f))
  {
    hide InfoOf;
  }

  // ── The train over the channel ───────────────────────────────────────────

  ghost predicate AreFrames(id: StreamId, ms: seq<AcfMessage>, crc: u32, frames: seq<Bytes>) {
    && |frames| == |ms|
    && forall i | 0 <= i < |ms| :: IsFrame(id, ms[i], crc, frames[i])
  }

  ghost predicate IsFrame(id: StreamId, m: AcfMessage, crc: u32, frame: Bytes) {
    exists n: u8 :: SendFragment(id, n, m, crc) == Ok(frame)
  }

  lemma {:induction false} AllSent(id: StreamId, numbers: seq<u8>, ms: seq<AcfMessage>, crc: u32)
    requires |numbers| == |ms| && forall i | 0 <= i < |ms| :: Sendable(ms[i])
    ensures SendAll(id, numbers, ms, crc).Ok?
    ensures AreFrames(id, ms, crc, SendAll(id, numbers, ms, crc).value)
    decreases |ms|
  {
    hide SendFragment, Sendable, ReceiveFragment, ToU64, Wire, Fill, IsFrame, KindOf;
    if ms == [] {
    } else {
      FragmentArrives(id, numbers[0], ms[0], crc);
      AllSent(id, numbers[1..], ms[1..], crc);
      var (frames, rest) := (SendAll(id, numbers, ms, crc).value, SendAll(id, numbers[1..], ms[1..], crc).value);
      SentIsFrame(id, numbers[0], ms[0], crc, frames[0]);
      forall i | 1 <= i < |ms|
        ensures IsFrame(id, ms[i], crc, frames[i])
      {
        assert IsFrame(id, ms[1..][i - 1], crc, rest[i - 1]);
      }
    }
  }

  lemma SentIsFrame(id: StreamId, n: u8, m: AcfMessage, crc: u32, frame: Bytes)
    requires SendFragment(id, n, m, crc) == Ok(frame)
    ensures IsFrame(id, m, crc, frame)
  {
  }

  lemma SameCrcUnderStream(g: HeaderVariant, h: HeaderVariant, final: AcfMessage, segments: seq<Bytes>)
    requires StreamIdOf(g) == StreamIdOf(h) && TimestampOf(g) == TimestampOf(h)
    ensures TrainCrc(g, final, segments) == TrainCrc(h, final, segments)
  {
    hide Crc32.Crc, InfoOctets, Fits;
  }

  /** One frame acts on the buffer as its fragment does, and completion is judged by the CRC
      carried against the one of the segments stored. */
  lemma ArriveStep(s: Reassembly, kind: AcfKind, id: StreamId, m: AcfMessage, crc: u32, frame: Bytes)
    requires KindOf(m) == kind && Sendable(m) && IsFrame(id, m, crc, frame)
    ensures var (t, r) := Accept(s, Wire(m).info, m.payload);
            Arrive(s, kind, frame) ==
            (t, match r
                case Err(_) => Rejected
                case Ok(Continuing) => More
                case Ok(Complete) =>
                  if TrainCrc(CoveredHeader(id), Wire(m), t.segments) == Ok(crc) then Intact else Damaged)
  {
    hide ReceiveFragment, SendFragment, TrainCrc, ToU64, Fill, Num16, Sendable;
    var n: u8 :| SendFragment(id, n, m, crc) == Ok(frame);
    FragmentArrives(id, n, m, crc);
    WireKeeps(m);
    var a := ReceiveFragment(kind, frame).value;
    var (t, r) := Accept(s, a.message.info, a.message.payload);
    SameCrcUnderStream(Ntscf(a.header), CoveredHeader(id), a.message, t.segments);
  }

  // ── Copies that arrive, each damaged in its own way or not at all ────────

  /** A copy of the `index`-th fragment, with what its payload has become. */
  datatype Copy = Copy(index: nat, payload: Bytes)

  ghost predicate IsCopy(ms: seq<AcfMessage>, e: Copy) {
    e.index < |ms| && |e.payload| == |ms[e.index].payload|
  }

  ghost predicate AreCopies(ms: seq<AcfMessage>, es: seq<Copy>) {
    forall i | 0 <= i < |es| :: IsCopy(ms, es[i])
  }

  /** The fragment's message with the copy's payload. */
  function CopyMessage(ms: seq<AcfMessage>, e: Copy): AcfMessage
    requires e.index < |ms|
  {
    ms[e.index].(payload := e.payload)
  }

  /** The frames carry the copies: each is the frame sent with its payload octets overwritten
      by the copy's. */
  ghost predicate CarryCopies(id: StreamId, ms: seq<AcfMessage>, crc: u32, es: seq<Copy>, frames: seq<Bytes>)
    requires AreCopies(ms, es)
  {
    && |frames| == |es|
    && forall i | 0 <= i < |es| :: IsFrame(id, CopyMessage(ms, es[i]), crc, frames[i])
  }

  function Indices(es: seq<Copy>): (ds: seq<nat>)
    ensures |ds| == |es| && forall i | 0 <= i < |es| :: ds[i] == es[i].index
  {
    seq(|es|, i requires 0 <= i < |es| => es[i].index)
  }

  /** The buffers differ at most in the octets stored. */
  ghost predicate SameShape(s: Reassembly, t: Reassembly) {
    && s.maxRequestSize == t.maxRequestSize
    && s.totalLen == t.totalLen
    && s.nextExpected == t.nextExpected
    && |s.segments| == |t.segments|
    && forall i | 0 <= i < |s.segments| :: |s.segments[i]| == |t.segments[i]|
  }

  /** A copy is accepted, and completes the train, exactly when its fragment would. */
  lemma CopyStep(s: Reassembly, u: Reassembly, kind: AcfKind, ms: seq<AcfMessage>, e: Copy)
    requires IsMessageTrain(kind, ms) && IsCopy(ms, e) && SameShape(s, u)
    ensures var n := CopyMessage(ms, e);
            && KindOf(n) == kind && Sendable(n)
            && Wire(n) == Wire(ms[e.index]).(payload := e.payload)
            && var (t, r) := Accept(s, Wire(n).info, n.payload);
            && var (v, q) := Accept(u, Pieces(ms)[e.index].info, Pieces(ms)[e.index].payload);
            && r == q && SameShape(t, v)
            && (s == u && e.payload == ms[e.index].payload ==> t == v)
            && (r.Err? ==> t == s)
  {
    hide Num16, Fill, KeptFieldsFit, IsTrain;
    FillOfSameLength(ms[e.index], CopyMessage(ms, e));
  }

  /** The verdict on what is stored: does its CRC, under the final fragment's header, agree with
      the one carried? */
  ghost predicate Agrees(id: StreamId, ms: seq<AcfMessage>, segments: seq<Bytes>, crc: u32)
    requires ms != []
  {
    TrainCrc(CoveredHeader(id), Wire(ms[|ms| - 1]), segments) == Ok(crc)
  }

  lemma {:induction false} CopiesFollow(
    s: Reassembly, u: Reassembly, kind: AcfKind, id: StreamId, ms: seq<AcfMessage>, crc: u32,
    es: seq<Copy>, frames: seq<Bytes>, j: nat)
    requires IsMessageTrain(kind, ms) && AreCopies(ms, es) && CarryCopies(id, ms, crc, es, frames)
    requires SameShape(s, u) && Holds(u, Pieces(ms), j)
    requires Deliveries(Pieces(ms), Indices(es))
    ensures var (t, v) := (Reassembled(s, kind, frames), Channel(u, Pieces(ms), Indices(es)));
            var n := Completions(u, Pieces(ms), Indices(es));
            && SameShape(t, v)
            && (j == |ms| ==> t == s)
            && (s == u && (forall i | 0 <= i < |es| :: es[i].payload == ms[es[i].index].payload) ==> t == v)
            && Reports(s, kind, frames, Intact) == (if Agrees(id, ms, t.segments, crc) then n else 0)
            && Reports(s, kind, frames, Damaged) == (if Agrees(id, ms, t.segments, crc) then 0 else n)
    decreases es
  {
    hide Accept, Arrive, Holds, Pieces, IsMessageTrain, IsTrain, Agrees, SameShape, CarryCopies, AreCopies;
    hide IsCopy, IsFrame;
    if es == [] {
      NothingCarried(id, ms, crc, es, frames);
    } else {
      CopiesUnfold(id, ms, crc, es, frames);
      var e := es[0];
      CopyArrives(s, u, kind, id, ms, crc, e, frames[0], j);
      var t := Arrive(s, kind, frames[0]).0;
      var (v, q) := Accept(u, Pieces(ms)[e.index].info, Pieces(ms)[e.index].payload);
      CopiesFollow(t, v, kind, id, ms, crc, es[1..], frames[1..], if q.Ok? then j + 1 else j);
      if q == Ok(Complete) {
        Frozen(v, kind, ms, Indices(es[1..]));
      }
    }
  }

  lemma Frozen(v: Reassembly, kind: AcfKind, ms: seq<AcfMessage>, ds: seq<nat>)
    requires IsMessageTrain(kind, ms) && Holds(v, Pieces(ms), |ms|) && Deliveries(Pieces(ms), ds)
    ensures Completions(v, Pieces(ms), ds) == 0
  {
    hide Sendable, IsTrain, Holds;
    CompletedIsFrozen(v, Pieces(ms), ds);
  }

  /** One copy: its fragment's effect, and the verdict on what is then stored. */
  lemma CopyArrives(
    s: Reassembly, u: Reassembly, kind: AcfKind, id: StreamId, ms: seq<AcfMessage>, crc: u32,
    e: Copy, frame: Bytes, j: nat)
    requires IsMessageTrain(kind, ms) && IsCopy(ms, e) && IsFrame(id, CopyMessage(ms, e), crc, frame)
    requires SameShape(s, u) && Holds(u, Pieces(ms), j)
    ensures var (t, w) := Arrive(s, kind, frame);
            var (v, q) := Accept(u, Pieces(ms)[e.index].info, Pieces(ms)[e.index].payload);
            && SameShape(t, v)
            && (s == u && e.payload == ms[e.index].payload ==> t == v)
            && (q.Err? ==> t == s && Holds(v, Pieces(ms), j))
            && (q.Ok? ==> j < |ms| && Holds(v, Pieces(ms), j + 1))
            && (q == Ok(Complete) ==> j + 1 == |ms|)
            && (w == Intact <==> q == Ok(Complete) && Agrees(id, ms, t.segments, crc))
            && (w == Damaged <==> q == Ok(Complete) && !Agrees(id, ms, t.segments, crc))
  {
    hide Accept, Arrive, Holds, Pieces, Sendable, Agrees, SameShape, IsFrame, TrainCrc, IsTrain;
    CopyStep(s, u, kind, ms, e);
    ArriveStep(s, kind, id, CopyMessage(ms, e), crc, frame);
    DeliveryStep(u, Pieces(ms), j, e.index);
    var (t, w) := Arrive(s, kind, frame);
    var q := Accept(u, Pieces(ms)[e.index].info, Pieces(ms)[e.index].payload).1;
    if e.index == |ms| - 1 {
      VerdictAgrees(id, ms, e, t.segments, crc);
    }
    assert w == Intact || w == Damaged <==> q == Ok(Complete);
  }

  lemma NothingCarried(id: StreamId, ms: seq<AcfMessage>, crc: u32, es: seq<Copy>, frames: seq<Bytes>)
    requires es == [] && AreCopies(ms, es) && CarryCopies(id, ms, crc, es, frames)
    ensures frames == [] && Indices(es) == []
  {
  }

  lemma CopiesUnfold(id: StreamId, ms: seq<AcfMessage>, crc: u32, es: seq<Copy>, frames: seq<Bytes>)
    requires es != [] && AreCopies(ms, es) && CarryCopies(id, ms, crc, es, frames)
    ensures frames != [] && IsCopy(ms, es[0]) && IsFrame(id, CopyMessage(ms, es[0]), crc, frames[0])
    ensures AreCopies(ms, es[1..]) && CarryCopies(id, ms, crc, es[1..], frames[1..])
    ensures Indices(es) == [es[0].index] + Indices(es[1..])
  {
    hide IsFrame;
    forall i | 0 <= i < |es| - 1
      ensures IsCopy(ms, es[1..][i]) && IsFrame(id, CopyMessage(ms, es[1..][i]), crc, frames[1..][i])
    {
      assert es[1..][i] == es[i + 1] && frames[1..][i] == frames[i + 1];
    }
  }

  lemma VerdictAgrees(id: StreamId, ms: seq<AcfMessage>, e: Copy, segments: seq<Bytes>, crc: u32)
    requires ms != [] && e.index == |ms| - 1
    requires Wire(CopyMessage(ms, e)) == Wire(ms[e.index]).(payload := e.payload)
    ensures TrainCrc(CoveredHeader(id), Wire(CopyMessage(ms, e)), segments) == Ok(crc) <==>
              Agrees(id, ms, segments, crc)
  {
    hide TrainCrc, Wire;
    FinalPayloadIrrelevant(CoveredHeader(id), Wire(ms[e.index]), Wire(CopyMessage(ms, e)), segments);
  }

  /** A sendable train has a CRC, whatever its fragments carry. */
  lemma CrcExists(kind: AcfKind, id: StreamId, ms: seq<AcfMessage>)
    requires IsMessageTrain(kind, ms)
    ensures SenderCrc(id, ms).Ok?
  {
    hide Coverage, Num16, Fill, EncodeAcf, KeptFieldsFit;
    var last := ms[|ms| - 1];
    assert Pieces(ms)[|ms| - 1].info.ms == false;
    EncodeSucceedsIff(last);
    WireForm(last);
    WireKeeps(last);
    QuadletCount(last);
    LengthBelow(Wire(last).info.acfMsgLength);
    FilledKeeps(last);
    CoverageSucceedsIff(CoveredHeader(id), Wire(last).(payload := Assemble(Payloads(Pieces(ms)))));
  }

  /** Closed loop for a whole train: every sendable train is sent. Whatever the channel does
      the receiver holds a prefix of what was sent and never reports damage; it reports an
      intact train at most once, exactly when fragmentation is supported, the payload is within
      the bound and the frames arrive in order among the deliveries, and it then holds the
      sender's payload. */
  lemma TrainClosedLoop(
    maxRequestSize: Count16, kind: AcfKind, id: StreamId, numbers: seq<u8>, ms: seq<AcfMessage>, ds: seq<nat>)
    requires IsMessageTrain(kind, ms) && |numbers| == |ms| && Deliveries(Pieces(ms), ds)
    ensures SendTrain(id, numbers, ms).Ok? && |SendTrain(id, numbers, ms).value| == |ms|
    ensures var (s, sent) := (Fresh(maxRequestSize), Payloads(Pieces(ms)));
            var frames := Delivered(SendTrain(id, numbers, ms).value, ds);
            var (t, n) := (Reassembled(s, kind, frames), Reports(s, kind, frames, Intact));
            && t.segments <= sent
            && Reports(s, kind, frames, Damaged) == 0
            && n <= 1
            && (n == 1 <==> && maxRequestSize > 0 && |Assemble(sent)| <= maxRequestSize
                            && exists at :: InOrder(ds, 0, |ms|, at))
            && (n == 1 ==> Assemble(t.segments) == Assemble(sent))
  {
    hide Accept, Arrive, Pieces, SendFragment, SendAll, Num16, Sendable, TrainCrc, IsFrame;
    var s := Fresh(maxRequestSize);
    CrcExists(kind, id, ms);
    var crc := SenderCrc(id, ms).value;
    AllSent(id, numbers, ms, crc);
    var es := Undamaged(ms, ds);
    var frames := Delivered(SendTrain(id, numbers, ms).value, ds);
    UndamagedCopies(id, ms, crc, SendTrain(id, numbers, ms).value, ds);
    assert Holds(s, Pieces(ms), 0);
    CopiesFollow(s, s, kind, id, ms, crc, es, frames, 0);
    ChannelSafe(maxRequestSize, Pieces(ms), ds);
    CompletesIff(maxRequestSize, Pieces(ms), ds);
  }

  /** The deliveries as copies that are still what was sent. */
  function Undamaged(ms: seq<AcfMessage>, ds: seq<nat>): (es: seq<Copy>)
    requires forall i | 0 <= i < |ds| :: ds[i] < |ms|
    ensures |es| == |ds| && forall i | 0 <= i < |ds| :: es[i] == Copy(ds[i], ms[ds[i]].payload)
  {
    seq(|ds|, i requires 0 <= i < |ds| => Copy(ds[i], ms[ds[i]].payload))
  }

  lemma UndamagedCopies(id: StreamId, ms: seq<AcfMessage>, crc: u32, frames: seq<Bytes>, ds: seq<nat>)
    requires AreFrames(id, ms, crc, frames) && forall i | 0 <= i < |ds| :: ds[i] < |ms|
    ensures AreCopies(ms, Undamaged(ms, ds)) && Indices(Undamaged(ms, ds)) == ds
    ensures CarryCopies(id, ms, crc, Undamaged(ms, ds), Delivered(frames, ds))
  {
    hide IsFrame;
    forall i | 0 <= i < |ds|
      ensures IsFrame(id, CopyMessage(ms, Undamaged(ms, ds)[i]), crc, Delivered(frames, ds)[i])
    {
      assert CopyMessage(ms, Undamaged(ms, ds)[i]) == ms[ds[i]];
      assert IsFrame(id, ms[ds[i]], crc, frames[ds[i]]);
    }
  }

  // ── Damaged fragments ────────────────────────────────────────────────────

  /** Payload octets changed in transit, in any of the frames and in each copy of a frame in its
      own way, while the channel loses, repeats and reorders them. The train completes exactly
      as it would undamaged, and at most once. What is then stored has the sender's length: if
      it is the sender's payload the verdict is intact, and if it differs from it within 32
      consecutive bits the verdict is damaged. */
  lemma TrainDamageNoticed(
    maxRequestSize: Count16, kind: AcfKind, id: StreamId, ms: seq<AcfMessage>, es: seq<Copy>, frames: seq<Bytes>)
    requires IsMessageTrain(kind, ms) && AreCopies(ms, es)
    requires SenderCrc(id, ms).Ok? ==> CarryCopies(id, ms, SenderCrc(id, ms).value, es, frames)
    ensures SenderCrc(id, ms).Ok?
    ensures var (s, sent) := (Fresh(maxRequestSize), Assemble(Payloads(Pieces(ms))));
            var stored := Assemble(Reassembled(s, kind, frames).segments);
            var (intact, damaged) := (Reports(s, kind, frames, Intact), Reports(s, kind, frames, Damaged));
            && intact + damaged <= 1
            && (intact + damaged == 1 <==> && maxRequestSize > 0 && |sent| <= maxRequestSize
                                           && exists at :: InOrder(Indices(es), 0, |ms|, at))
            && (intact + damaged == 1 ==>
                  && |stored| == |sent|
                  && (stored == sent ==> intact == 1)
                  && (stored != sent && (exists k: nat :: Crc32.BurstFrom(sent, stored, k)) ==> damaged == 1))
  {
    hide Accept, Arrive, Pieces, Num16, Sendable, TrainCrc, CarryCopies, Crc32.BurstFrom, Reassembled, Reports;
    var (s, ds) := (Fresh(maxRequestSize), Indices(es));
    CrcExists(kind, id, ms);
    var crc := SenderCrc(id, ms).value;
    assert Holds(s, Pieces(ms), 0);
    assert forall i | 0 <= i < |es| :: IsCopy(ms, es[i]);
    CopiesFollow(s, s, kind, id, ms, crc, es, frames, 0);
    ChannelSafe(maxRequestSize, Pieces(ms), ds);
    CompletesIff(maxRequestSize, Pieces(ms), ds);
    if Completions(s, Pieces(ms), ds) == 1 {
      var stored := Reassembled(s, kind, frames).segments;
      AssembledLength(stored, Payloads(Pieces(ms)));
      StoredVerdict(id, ms, stored, crc);
    }
  }

  lemma {:induction false} AssembledLength(a: seq<Bytes>, b: seq<Bytes>)
    requires |a| == |b| && forall i | 0 <= i < |a| :: |a[i]| == |b[i]|
    ensures |Assemble(a)| == |Assemble(b)|
  {
    if a == [] {
    } else {
      AssembledLength(a[1..], b[1..]);
    }
  }

  lemma StoredVerdict(id: StreamId, ms: seq<AcfMessage>, stored: seq<Bytes>, crc: u32)
    requires ms != [] && SenderCrc(id, ms) == Ok(crc)
    requires |Assemble(stored)| == |Assemble(Payloads(Pieces(ms)))|
    ensures var (a, b) := (Assemble(Payloads(Pieces(ms))), Assemble(stored));
            && (b == a ==> Agrees(id, ms, stored, crc))
            && (b != a && (exists k: nat :: Crc32.BurstFrom(a, b, k)) ==> !Agrees(id, ms, stored, crc))
  {
    hide TrainCrc, Crc32.BurstFrom, Wire, Pieces;
    var sent := Payloads(Pieces(ms));
    var (h, final) := (CoveredHeader(id), Wire(ms[|ms| - 1]));
    if Assemble(stored) == Assemble(sent) {
      SegmentationIndependent(h, final, sent, stored);
    } else if k: nat :| Crc32.BurstFrom(Assemble(sent), Assemble(stored), k) {
      TrainDamageDetected(h, final, sent, stored, k);
    }
  }

  /** What precedes a fragment's payload, and what follows it. */
  function FragmentHead(m: AcfMessage): (b: Bytes)
    ensures |b| == HeaderLen(KindOf(m))
  {
    InfoOctets(if m.info.ms then Wire(m).info else Bump(Wire(m).info)) + Extra(m)
  }

  function FragmentTail(m: AcfMessage, crc: u32): Bytes {
    Zeros(Num8(Wire(m).info.pad)) + if m.info.ms then [] else Be32(crc)
  }

  lemma FragmentLayout(m: AcfMessage, crc: u32)
    requires Sendable(m)
    ensures FragmentOctets(m, crc) == Ok(FragmentHead(m) + m.payload + FragmentTail(m, crc))
    ensures |FragmentOctets(m, crc).value| <= 2044
  {
    hide EncodeAcf, Finalize, KeptFieldsFit, Fits, InfoOf, InfoOctets, Num16, Num8, Fill, Extra, Bump, Be32;
    hide ClearReserved, DecodeAcf;
    EncodeSucceedsIff(m);
    EncodedShape(m);
    EncodedBound(m);
    var (e, info) := (EncodeAcf(m).value, Wire(m).info);
    var pad := Zeros(Num8(info.pad));
    if m.info.ms {
      assert pad + [] == pad;
    } else {
      WireForm(m);
      QuadletCount(m);
      LengthBelow(info.acfMsgLength);
      FinalizeSucceedsIff(e, crc);
      var f := Finalize(e, crc).value;
      FinalizedForm(e, info, crc, f);
      FinalizedPayload(InfoOctets(Bump(info)), Extra(m), m.payload, pad, Be32(crc), e, f);
    }
  }

  lemma FinalizedPayload(head: Bytes, extra: Bytes, payload: Bytes, pad: Bytes, crc: Bytes, d: Bytes, f: Bytes)
    requires |head| == BYTE_MESSAGE_INFO_LEN <= |d| && f == head + d[BYTE_MESSAGE_INFO_LEN..] + crc
    requires d[BYTE_MESSAGE_INFO_LEN..] == extra + payload + pad
    ensures f == (head + extra) + payload + (pad + crc)
  {
  }

  lemma PatchMiddle(a: Bytes, p: Bytes, q: Bytes, z: Bytes)
    requires |p| == |q|
    ensures a + q + z == Patched(a + p + z, |a|, q)
  {
  }

  /** Sending `n` in place of `m` is sending `m` and overwriting its payload octets. */
  lemma DamagedFragment(id: StreamId, sequenceNum: u8, m: AcfMessage, n: AcfMessage, crc: u32)
    requires Sendable(m) && n == m.(payload := n.payload) && |n.payload| == |m.payload|
    ensures SendFragment(id, sequenceNum, m, crc).Ok? && SendFragment(id, sequenceNum, n, crc).Ok?
    ensures var (f, g) := (SendFragment(id, sequenceNum, m, crc).value, SendFragment(id, sequenceNum, n, crc).value);
            var at := NTSCF_HEADER_LEN + HeaderLen(KindOf(m));
            at + |n.payload| <= |f| && g == Patched(f, at, n.payload)
  {
    hide FragmentOctets, KeptFieldsFit, InfoOctets, NtscfOctets, ToU64, Num16, Num8, Fill, Extra, Patched, Bump, Wire;
    FragmentLayout(m, crc);
    FragmentLayout(n, crc);
    FillOfSameLength(m, n);
    assert Extra(n) == Extra(m) by {
      SameExtra(m, n);
    }
    PatchMiddle(FragmentHead(m), m.payload, n.payload, FragmentTail(m, crc));
    var (d, e) := (FragmentOctets(m, crc).value, FragmentOctets(n, crc).value);
    hide FragmentTail, FragmentHead;
    PatchBehindHead(NtscfOctets(NtscfHeader(sequenceNum, ToU16(|d|), ToU64(id))), d,
      NTSCF_HEADER_LEN + HeaderLen(KindOf(m)), n.payload);
  }

  lemma SameExtra(m: AcfMessage, n: AcfMessage)
    requires n == m.(payload := n.payload)
    ensures Extra(n) == Extra(m)
  {
  }

  lemma FillOfSameLength(m: AcfMessage, n: AcfMessage)
    requires n == m.(payload := n.payload) && |n.payload| == |m.payload|
    ensures Wire(n) == Wire(m).(payload := n.payload)
  {
  }

  lemma FinalPayloadIrrelevant(h: HeaderVariant, m: AcfMessage, n: AcfMessage, segments: seq<Bytes>)
    requires n == m.(payload := n.payload)
    ensures TrainCrc(h, n, segments) == TrainCrc(h, m, segments)
  {
    hide Coverage, Crc32.Crc;
    assert n.(payload := Assemble(segments)) == m.(payload := Assemble(segments));
  }
}
