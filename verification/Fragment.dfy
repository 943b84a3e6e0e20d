/** Reassembly of a fragment train over a channel that loses, repeats and reorders. */
module Fragment {
  import opened Octets
  import opened ByteMessageInfo
  import opened Acf
  import opened Avtp
  import opened E2e
  import opened FragmentTrain
  import Crc32

  datatype Outcome = Continuing | Complete

  /** What a reassembly buffer holds. */
  datatype Reassembly = Reassembly(
    maxRequestSize: Count16,
    segments: seq<Bytes>,
    totalLen: nat,
    nextExpected: Count16)

  function Fresh(maxRequestSize: Count16): Reassembly {
    Reassembly(maxRequestSize, [], 0, 0)
  }

  predicate InProgress(s: Reassembly) {
    s.segments != []
  }

  /** One arriving fragment: the buffer afterwards and what the caller is told. */
  function Accept(s: Reassembly, info: Info, payload: Bytes): (Reassembly, Result<Outcome>) {
    if s.maxRequestSize == 0 then (s, Err(UnsupportedCmd))
    else if Num16(info.readSizeSegment) != s.nextExpected then (s, Err(InvalidParameter))
    else if s.totalLen + |payload| > s.maxRequestSize then (s, Err(PayloadTooLarge))
    else
      (s.(segments := s.segments + [payload],
          totalLen := s.totalLen + |payload|,
          nextExpected := (s.nextExpected + 1) % 0x1_0000),
       Ok(if info.ms then Continuing else Complete))
  }

  /** Which error a fragment is refused with, in this order: fragmentation unsupported, another
      number than the one waited for, a payload over the bound. A refusal changes nothing. */
  lemma RefusedExactly(s: Reassembly, info: Info, payload: Bytes)
    ensures var (t, r) := Accept(s, info, payload);
            if s.maxRequestSize == 0 then (t, r) == (s, Err(UnsupportedCmd))
            else if Num16(info.readSizeSegment) != s.nextExpected then (t, r) == (s, Err(InvalidParameter))
            else if s.totalLen + |payload| > s.maxRequestSize then (t, r) == (s, Err(PayloadTooLarge))
            else r.Ok? && t.segments == s.segments + [payload] && (r.value.Complete? <==> !info.ms)
  {
    hide Num16;
  }

  /** The live buffer. */
  class FragmentReassemblyBuffer {
    const maxRequestSize: Count16
    var segments: seq<Bytes>
    var totalLen: nat
    var nextExpectedSegmentNum: Count16

    function State(): Reassembly
      reads this
    {
      Reassembly(maxRequestSize, segments, totalLen, nextExpectedSegmentNum)
    }

    constructor (rxStreamMaxRequestSize: Count16)
      ensures State() == Fresh(rxStreamMaxRequestSize)
    {
      maxRequestSize := rxStreamMaxRequestSize;
      segments := [];
      totalLen := 0;
      nextExpectedSegmentNum := 0;
    }

    /** Supported exactly when the bound is nonzero. */
    predicate FragmentationSupported()
    {
      maxRequestSize != 0
    }

    /** Something is stored; still true after completion, until a reset. */
    predicate IsInProgress(): (r: bool)
      reads this
      ensures r == InProgress(State())
    {
      |segments| > 0
    }

    method AcceptFragment(info: Info, payload: Bytes) returns (r: Result<Outcome>)
      modifies this
      ensures (State(), r) == Accept(old(State()), info, payload)
      ensures r.Err? ==> State() == old(State())
    {
      hide Num16;
      if !FragmentationSupported() {
        return Err(UnsupportedCmd);
      }
      var segmentNum := info.readSizeSegment;
      if Num16(segmentNum) != nextExpectedSegmentNum {
        return Err(InvalidParameter);
      }
      var prospectiveTotal := totalLen + |payload|;
      if prospectiveTotal > maxRequestSize {
        return Err(PayloadTooLarge);
      }
      segments := segments + [payload];
      totalLen := prospectiveTotal;
      nextExpectedSegmentNum := (nextExpectedSegmentNum + 1) % 0x1_0000;
      if info.ms {
        r := Ok(Continuing);
      } else {
        r := Ok(Complete);
      }
    }

    method CombinedPayload() returns (combined: Bytes)
      ensures combined == Assemble(segments)
    {
      combined := AssembleSegments(segments);
    }

    method Reset()
      modifies this
      ensures State() == Fresh(maxRequestSize)
    {
      segments := [];
      totalLen := 0;
      nextExpectedSegmentNum := 0;
    }
  }

  // ── Every run ────────────────────────────────────────────────────────────

  datatype Event = Deliver(info: Info, payload: Bytes) | Clear

  function Step(s: Reassembly, e: Event): Reassembly {
    match e
    case Deliver(info, payload) => Accept(s, info, payload).0
    case Clear => Fresh(s.maxRequestSize)
  }

  function Run(s: Reassembly, es: seq<Event>): Reassembly
    decreases es
  {
    if es == [] then s else Run(Step(s, es[0]), es[1..])
  }

  /** The counters agree with the stored segments and the bound is respected. */
  ghost predicate Consistent(s: Reassembly) {
    && s.totalLen == |Assemble(s.segments)| <= s.maxRequestSize
    && s.nextExpected == |s.segments| % 0x1_0000
    && (s.maxRequestSize == 0 ==> s.segments == [])
  }

  lemma StepConsistent(s: Reassembly, e: Event)
    requires Consistent(s)
    ensures Consistent(Step(s, e))
  {
    hide Num16, Assemble;
    AssembleNone();
    if e.Deliver? {
      AssembleOne(s.segments, e.payload);
    }
  }

  lemma AssembleNone()
    ensures Assemble([]) == []
  {
  }

  lemma {:induction false} RunFromConsistent(s: Reassembly, es: seq<Event>)
    requires Consistent(s)
    ensures Consistent(Run(s, es)) && Run(s, es).maxRequestSize == s.maxRequestSize
    decreases es
  {
    if es == [] {
    } else {
      StepConsistent(s, es[0]);
      RunFromConsistent(Step(s, es[0]), es[1..]);
    }
  }

  /** After any sequence of deliveries and resets the total is the stored length, within the
      bound, and the counter is the number of segments modulo 2^16. */
  lemma RunConsistent(maxRequestSize: Count16, es: seq<Event>)
    ensures Consistent(Run(Fresh(maxRequestSize), es))
  {
    RunFromConsistent(Fresh(maxRequestSize), es);
  }

  /** Every delivered header fits the wire, as every decoded one does. */
  ghost predicate WireHeaders(es: seq<Event>) {
    forall i | 0 <= i < |es| && es[i].Deliver? :: Num16(es[i].info.readSizeSegment) <= 4095
  }

  lemma DecodedSegmentNumber(b: Bytes)
    requires DecodeInfo(b).Ok?
    ensures Num16(DecodeInfo(b).value.readSizeSegment) <= 4095
  {
    hide InfoOf;
    EncodeInvertsDecode(b);
    SegmentBound(InfoOf(b));
  }

  lemma SegmentBound(info: Info)
    requires Fits(info)
    ensures Num16(info.readSizeSegment) <= 4095
  {
  }

  lemma {:induction false} RunFromNeverWraps(s: Reassembly, es: seq<Event>)
    requires Consistent(s) && |s.segments| <= 4096 && WireHeaders(es)
    ensures |Run(s, es).segments| <= 4096
    decreases es
  {
    hide Num16, Assemble;
    if es == [] {
    } else {
      StepConsistent(s, es[0]);
      assert WireHeaders(es[1..]);
      RunFromNeverWraps(Step(s, es[0]), es[1..]);
    }
  }

  /** With headers off the wire at most 4096 fragments are accepted between resets, so the
      counter never wraps: it is the number of stored segments. */
  lemma CounterNeverWraps(maxRequestSize: Count16, es: seq<Event>)
    requires WireHeaders(es)
    ensures var s := Run(Fresh(maxRequestSize), es);
            |s.segments| <= 4096 && s.nextExpected == |s.segments|
  {
    RunFromNeverWraps(Fresh(maxRequestSize), es);
    RunConsistent(maxRequestSize, es);
  }

  // ── One train over a lossy, repeating, reordering channel ────────────────

  datatype Piece = Piece(info: Info, payload: Bytes)

  /** A train: at most 4096 fragments numbered from zero, only the last without `ms`. */
  ghost predicate IsTrain(train: seq<Piece>) {
    && 1 <= |train| <= 4096
    && forall i | 0 <= i < |train| ::
         Num16(train[i].info.readSizeSegment) == i && train[i].info.ms == (i < |train| - 1)
  }

  function Payloads(train: seq<Piece>): (ps: seq<Bytes>)
    ensures |ps| == |train|
    ensures forall i | 0 <= i < |train| :: ps[i] == train[i].payload
  {
    seq(|train|, i requires 0 <= i < |train| => train[i].payload)
  }

  /** What the channel delivers: any fragments of the train, in any order, any number of
      times. */
  ghost predicate Deliveries(train: seq<Piece>, ds: seq<nat>) {
    forall i | 0 <= i < |ds| :: ds[i] < |train|
  }

  /** The buffer after the deliveries. */
  function Channel(s: Reassembly, train: seq<Piece>, ds: seq<nat>): Reassembly
    requires forall i | 0 <= i < |ds| :: ds[i] < |train|
    decreases ds
  {
    if ds == [] then s else Channel(Accept(s, train[ds[0]].info, train[ds[0]].payload).0, train, ds[1..])
  }

  /** How often the deliveries report completion. */
  function Completions(s: Reassembly, train: seq<Piece>, ds: seq<nat>): nat
    requires forall i | 0 <= i < |ds| :: ds[i] < |train|
    decreases ds
  {
    if ds == [] then 0
    else
      var (t, r) := Accept(s, train[ds[0]].info, train[ds[0]].payload);
      (if r == Ok(Complete) then 1 else 0) + Completions(t, train, ds[1..])
  }

  /** The buffer holds exactly the train's first `j` payloads. */
  ghost predicate Holds(s: Reassembly, train: seq<Piece>, j: nat) {
    j <= |train| && s.segments == Payloads(train)[..j] && Consistent(s)
  }

  /** One delivery stores the fragment the buffer is waiting for, or changes nothing; once
      the whole train is stored every further delivery is rejected. */
  lemma DeliveryStep(s: Reassembly, train: seq<Piece>, j: nat, d: nat)
    requires IsTrain(train) && Holds(s, train, j) && d < |train|
    ensures var (t, r) := Accept(s, train[d].info, train[d].payload);
            && t.maxRequestSize == s.maxRequestSize
            && (r.Err? ==> t == s)
            && (r.Ok? ==> d == j < |train| && Holds(t, train, j + 1) && (r == Ok(Complete) <==> j + 1 == |train|))
            && (r.Ok? <==> s.maxRequestSize > 0 && d == j
                           && |Assemble(Payloads(train)[..j])| + |train[d].payload| <= s.maxRequestSize)
  {
    hide Num16;
    var (t, r) := Accept(s, train[d].info, train[d].payload);
    if r.Ok? {
      assert Payloads(train)[..j + 1] == Payloads(train)[..j] + [train[d].payload];
      StepConsistent(s, Deliver(train[d].info, train[d].payload));
    }
  }

  lemma {:induction false} ChannelFrom(s: Reassembly, train: seq<Piece>, j: nat, ds: seq<nat>)
    requires IsTrain(train) && Holds(s, train, j) && Deliveries(train, ds)
    ensures var t := Channel(s, train, ds);
            && j <= |t.segments| && Holds(t, train, |t.segments|)
            && Completions(s, train, ds) == (if j < |train| == |t.segments| then 1 else 0)
    decreases ds
  {
    if ds == [] {
    } else {
      DeliveryStep(s, train, j, ds[0]);
      var (t, r) := Accept(s, train[ds[0]].info, train[ds[0]].payload);
      ChannelFrom(t, train, if r.Ok? then j + 1 else j, ds[1..]);
    }
  }

  /** Whatever the channel does, a fresh buffer holds a prefix of the train, completion is
      reported at most once, and it has been reported exactly when the buffer holds the whole
      train, in order; the combined payload is then the sender's and within the bound. */
  lemma ChannelSafe(maxRequestSize: Count16, train: seq<Piece>, ds: seq<nat>)
    requires IsTrain(train) && Deliveries(train, ds)
    ensures var (t, n) := (Channel(Fresh(maxRequestSize), train, ds),
                           Completions(Fresh(maxRequestSize), train, ds));
            && t.segments <= Payloads(train)
            && n <= 1
            && (n == 1 <==> t.segments == Payloads(train))
            && (n == 1 ==> Assemble(t.segments) == Assemble(Payloads(train))
                           && |Assemble(Payloads(train))| <= maxRequestSize)
  {
    var s := Fresh(maxRequestSize);
    assert Holds(s, train, 0);
    ChannelFrom(s, train, 0, ds);
    ChannelKeepsBound(s, train, ds);
    var t := Channel(s, train, ds);
    if |t.segments| == |train| {
      assert Payloads(train)[..|train|] == Payloads(train);
    }
  }

  lemma {:induction false} ChannelKeepsBound(s: Reassembly, train: seq<Piece>, ds: seq<nat>)
    requires Deliveries(train, ds)
    ensures Channel(s, train, ds).maxRequestSize == s.maxRequestSize
    decreases ds
  {
    if ds == [] {
    } else {
      ChannelKeepsBound(Accept(s, train[ds[0]].info, train[ds[0]].payload).0, train, ds[1..]);
    }
  }

  /** Once the whole train is stored nothing the channel delivers changes the buffer or
      reports completion again. */
  lemma {:induction false} CompletedIsFrozen(s: Reassembly, train: seq<Piece>, ds: seq<nat>)
    requires IsTrain(train) && Holds(s, train, |train|) && Deliveries(train, ds)
    ensures Channel(s, train, ds) == s && Completions(s, train, ds) == 0
    decreases ds
  {
    if ds == [] {
    } else {
      DeliveryStep(s, train, |train|, ds[0]);
      CompletedIsFrozen(s, train, ds[1..]);
    }
  }

  // ── Exactly when a train completes ───────────────────────────────────────

  /** Positions in `ds` at which `from`, ..., `k - 1` arrive in order. */
  ghost predicate InOrder(ds: seq<nat>, from: nat, k: nat, at: seq<nat>) {
    && from <= k && |at| == k - from
    && (forall i | 0 <= i < |at| :: at[i] < |ds| && ds[at[i]] == from + i)
    && (forall i, j | 0 <= i < j < |at| :: at[i] < at[j])
  }

  /** The number reached by taking, greedily, each fragment as it is waited for. */
  function Reach(ds: seq<nat>, from: nat): nat
    decreases ds
  {
    if ds == [] then from else Reach(ds[1..], if ds[0] == from then from + 1 else from)
  }

  function Later(at: seq<nat>): (r: seq<nat>)
    ensures |r| == |at| && forall i | 0 <= i < |at| :: r[i] == at[i] + 1
  {
    seq(|at|, i requires 0 <= i < |at| => at[i] + 1)
  }

  function Earlier(at: seq<nat>): (r: seq<nat>)
    requires forall i | 0 <= i < |at| :: at[i] > 0
    ensures |r| == |at| && forall i | 0 <= i < |at| :: r[i] == at[i] - 1
  {
    seq(|at|, i requires 0 <= i < |at| => at[i] - 1)
  }

  /** Greedy reaching `k` exhibits the positions. */
  lemma {:induction false} ReachPositions(ds: seq<nat>, from: nat) returns (at: seq<nat>)
    ensures from <= Reach(ds, from)
    ensures InOrder(ds, from, Reach(ds, from), at)
    decreases ds
  {
    if ds == [] {
      at := [];
    } else if ds[0] == from {
      var rest := ReachPositions(ds[1..], from + 1);
      at := [0] + Later(rest);
    } else {
      var rest := ReachPositions(ds[1..], from);
      at := Later(rest);
    }
  }

  /** Any such positions are matched by greedy reaching. */
  lemma {:induction false} PositionsReach(ds: seq<nat>, from: nat, k: nat, at: seq<nat>)
    requires InOrder(ds, from, k, at)
    ensures Reach(ds, from) >= k
    decreases ds
  {
    if from == k {
      var _ := ReachPositions(ds, from);
    } else {
      assert ds[at[0]] == from;
      if ds[0] == from {
        PositionsReach(ds[1..], from + 1, k, Earlier(at[1..]));
      } else {
        assert forall i | 0 <= i < |at| :: at[0] <= at[i];
        PositionsReach(ds[1..], from, k, Earlier(at));
      }
    }
  }

  lemma {:induction false} ReachBounded(ds: seq<nat>, from: nat, k: nat)
    requires from <= k && forall i | 0 <= i < |ds| :: ds[i] < k
    ensures Reach(ds, from) <= k
    decreases ds
  {
    if ds == [] {
    } else {
      ReachBounded(ds[1..], if ds[0] == from then from + 1 else from, k);
    }
  }

  /** Within the bound the buffer follows greedy reaching exactly. */
  lemma {:induction false} ChannelReaches(s: Reassembly, train: seq<Piece>, j: nat, ds: seq<nat>)
    requires IsTrain(train) && Holds(s, train, j) && Deliveries(train, ds)
    requires s.maxRequestSize > 0 && |Assemble(Payloads(train))| <= s.maxRequestSize
    ensures |Channel(s, train, ds).segments| == Reach(ds, j)
    decreases ds
  {
    hide Num16, Accept, Assemble;
    if ds == [] {
    } else {
      DeliveryStep(s, train, j, ds[0]);
      var (t, r) := Accept(s, train[ds[0]].info, train[ds[0]].payload);
      if ds[0] == j {
        var ps := Payloads(train);
        assert ps == (ps[..j] + [ps[j]]) + ps[j + 1..];
        AssembleAppend(ps[..j] + [ps[j]], ps[j + 1..]);
        AssembleOne(ps[..j], ps[j]);
      }
      ChannelReaches(t, train, if r.Ok? then j + 1 else j, ds[1..]);
    }
  }

  /** A fresh buffer reports completion exactly when fragmentation is supported, the whole
      payload is within the bound, and the fragments arrive in order as a subsequence of the
      deliveries. */
  lemma CompletesIff(maxRequestSize: Count16, train: seq<Piece>, ds: seq<nat>)
    requires IsTrain(train) && Deliveries(train, ds)
    ensures Completions(Fresh(maxRequestSize), train, ds) == 1 <==>
              && maxRequestSize > 0
              && |Assemble(Payloads(train))| <= maxRequestSize
              && exists at :: InOrder(ds, 0, |train|, at)
  {
    var s := Fresh(maxRequestSize);
    assert Holds(s, train, 0);
    ChannelFrom(s, train, 0, ds);
    ChannelSafe(maxRequestSize, train, ds);
    ChannelKeepsBound(s, train, ds);
    if maxRequestSize > 0 && |Assemble(Payloads(train))| <= maxRequestSize {
      ChannelReaches(s, train, 0, ds);
      ReachBounded(ds, 0, |train|);
      var greedy := ReachPositions(ds, 0);
      if at :| InOrder(ds, 0, |train|, at) {
        PositionsReach(ds, 0, |train|, at);
      }
    }
  }

  // ── After completion, before a reset ─────────────────────────────────────

  /** Whether completion has been reported since the last reset. */
  function CompletedSince(s: Reassembly, es: seq<Event>, before: bool): bool
    decreases es
  {
    if es == [] then before
    else
      match es[0]
      case Clear => CompletedSince(Step(s, es[0]), es[1..], false)
      case Deliver(info, payload) =>
        CompletedSince(Step(s, es[0]), es[1..], before || Accept(s, info, payload).1 == Ok(Complete))
  }

  /** What the getter's documentation says: something is stored and not yet completed. */
  predicate DocumentedInProgress(s: Reassembly, completed: bool) {
    s.segments != [] && !completed
  }

  lemma {:induction false} CompletedIsStored(s: Reassembly, es: seq<Event>, before: bool)
    requires before ==> InProgress(s)
    ensures CompletedSince(s, es, before) ==> InProgress(Run(s, es))
    decreases es
  {
    if es == [] {
    } else {
      match es[0]
      case Clear => CompletedIsStored(Step(s, es[0]), es[1..], false);
      case Deliver(info, payload) =>
        CompletedIsStored(Step(s, es[0]), es[1..], before || Accept(s, info, payload).1 == Ok(Complete));
    }
  }

  /** Over every run of fragments and resets the getter agrees with its documentation exactly
      while no completion has been reported since the last reset. */
  lemma InProgressIff(maxRequestSize: Count16, es: seq<Event>)
    ensures var s := Run(Fresh(maxRequestSize), es);
            var completed := CompletedSince(Fresh(maxRequestSize), es, false);
            (InProgress(s) <==> DocumentedInProgress(s, completed)) <==> !completed
  {
    CompletedIsStored(Fresh(maxRequestSize), es, false);
  }

  /** In particular over one train's channel. */
  lemma ChannelInProgressIff(maxRequestSize: Count16, train: seq<Piece>, ds: seq<nat>)
    requires IsTrain(train) && Deliveries(train, ds)
    ensures var t := Channel(Fresh(maxRequestSize), train, ds);
            var n := Completions(Fresh(maxRequestSize), train, ds);
            (InProgress(t) <==> DocumentedInProgress(t, n > 0)) <==> n == 0
  {
    ChannelSafe(maxRequestSize, train, ds);
  }

  /** A buffer that holds a whole train accepts a further fragment, of whatever train, exactly
      when it is numbered next and still fits; without `ms` it then reports completion. */
  lemma FurtherFragmentIff(s: Reassembly, train: seq<Piece>, info: Info, payload: Bytes)
    requires IsTrain(train) && Holds(s, train, |train|) && s.maxRequestSize > 0
    ensures var (t, r) := Accept(s, info, payload);
            && (r.Ok? <==> && Num16(info.readSizeSegment) == |train|
                           && |Assemble(Payloads(train))| + |payload| <= s.maxRequestSize)
            && (r.Ok? ==> && t.segments == Payloads(train) + [payload]
                          && r == Ok(if info.ms then Continuing else Complete))
  {
    assert Payloads(train)[..|train|] == Payloads(train);
  }

  /** The fragments of another train are all refused until a reset, as documented, exactly when
      that train is no longer than the stored one or its fragment numbered next no longer fits.
      Otherwise that fragment is taken for the stored train's. */
  lemma ResetNeededIff(s: Reassembly, train: seq<Piece>, other: seq<Piece>)
    requires IsTrain(train) && Holds(s, train, |train|) && s.maxRequestSize > 0
    requires IsTrain(other)
    ensures (forall d | 0 <= d < |other| :: Accept(s, other[d].info, other[d].payload).1.Err?) <==>
              || |other| <= |train|
              || |Assemble(Payloads(train))| + |other[|train|].payload| > s.maxRequestSize
  {
    hide Num16, Accept;
    var k := |train|;
    forall d | 0 <= d < |other|
      ensures Accept(s, other[d].info, other[d].payload).1.Ok? <==>
                d == k && |Assemble(Payloads(train))| + |other[d].payload| <= s.maxRequestSize
    {
      FurtherFragmentIff(s, train, other[d].info, other[d].payload);
    }
    if k < |other| {
      assert Accept(s, other[k].info, other[k].payload).1.Ok? <==>
             |Assemble(Payloads(train))| + |other[k].payload| <= s.maxRequestSize;
    }
  }

  /** A fragment header that says no more than its number and whether more follow. */
  function Numbered(segmentNum: u16, ms: bool): Info {
    Info(ACF_ABB_MSG_TYPE, 0, 0, false, 0, Evt(false, 0), false, false, 0, true, false, false, ms, segmentNum)
  }

  /** Two trains for which it fails: after a train of one fragment the last fragment of a
      train of two is accepted, and completion is reported on a payload that is neither's. */
  lemma MixedTrains()
    ensures var a := [Piece(Numbered(0, false), [0x0A])];
            var b := [Piece(Numbered(0, true), [0x0B]), Piece(Numbered(1, false), [0x0C])];
            var (s, r) := Accept(Fresh(100), a[0].info, a[0].payload);
            var (t, q) := Accept(s, b[1].info, b[1].payload);
            && IsTrain(a) && IsTrain(b)
            && r == Ok(Complete) && q == Ok(Complete)
            && Assemble(t.segments) == [0x0A, 0x0C]
            && Assemble(Payloads(a)) == [0x0A] && Assemble(Payloads(b)) == [0x0B, 0x0C]
  {
    AssembleOne([], [0x0A]);
    AssembleOne([], [0x0B]);
    AssembleOne([[0x0A]], [0x0C]);
    AssembleOne([[0x0B]], [0x0C]);
    assert [] + [[0x0A]] == [[0x0A]] && [] + [[0x0B]] == [[0x0B]];
    var b := [Piece(Numbered(0, true), [0x0B]), Piece(Numbered(1, false), [0x0C])];
    assert Payloads(b) == [[0x0B]] + [[0x0C]];
  }

  /** A train of one fragment after which the getter departs from its documentation: completion
      has been reported and the buffer still counts as in progress. */
  lemma CompletedInProgress()
    ensures var e := Deliver(Numbered(0, false), [0x0A]);
            var s := Run(Fresh(100), [e]);
            && CompletedSince(Fresh(100), [e], false)
            && InProgress(s) && !DocumentedInProgress(s, true)
  {
    var (info, es) := (Numbered(0, false), [Deliver(Numbered(0, false), [0x0A])]);
    assert es[1..] == [];
    assert Accept(Fresh(100), info, [0x0A]).1 == Ok(Complete);
    assert Run(Step(Fresh(100), es[0]), []) == Step(Fresh(100), es[0]);
    assert CompletedSince(Step(Fresh(100), es[0]), [], true);
  }

  // ── The CRC of a reassembled train ───────────────────────────────────────

  /** The CRC over a buffer's segments; it is computed, not compared, and completeness of
      the train is the caller's business. */
  function VerifyReassembledTrainCrc(
    s: Reassembly, h: HeaderVariant, final: AcfMessage, crcPresent: bool): Result<u32>
  {
    var _ :- CheckCrcPlacement(false, crcPresent);
    TrainCrc(h, final, s.segments)
  }

  /** A buffer that reported completion yields, over any channel and whatever final fragment
      it is handed, the CRC of the single message with that fragment's header and the sender's
      whole payload, or refuses exactly when that message has no coverage. */
  lemma CompletedTrainCrc(
    maxRequestSize: Count16, train: seq<Piece>, ds: seq<nat>, h: HeaderVariant, final: AcfMessage)
    requires IsTrain(train) && Deliveries(train, ds)
    requires Completions(Fresh(maxRequestSize), train, ds) == 1
    ensures var t := Channel(Fresh(maxRequestSize), train, ds);
            var whole := final.(payload := Assemble(Payloads(train)));
            && VerifyReassembledTrainCrc(t, h, final, true)
               == (if Coverage(h, whole).Ok? then Ok(Crc32.Crc(Coverage(h, whole).value)) else Err(InvalidSize))
            && VerifyReassembledTrainCrc(t, h, final, false) == Err(InvalidParameter)
  {
    hide Coverage, Crc32.Crc;
    ChannelSafe(maxRequestSize, train, ds);
    SegmentationIndependent(h, final, Payloads(train), Payloads(train));
  }
}
