/** The CRC of a message sent as several fragments. */
module FragmentTrain {
  import opened Octets
  import ByteMessageInfo
  import opened Acf
  import opened Avtp
  import opened E2e
  import opened Crc32

  /** The segments' octets in order. */
  function Assemble(segments: seq<Bytes>): Bytes {
    if segments == [] then [] else segments[0] + Assemble(segments[1..])
  }

  /** Assembling is a homomorphism: cutting the list of segments anywhere makes no odds. */
  lemma {:induction false} AssembleAppend(a: seq<Bytes>, b: seq<Bytes>)
    ensures Assemble(a + b) == Assemble(a) + Assemble(b)
  {
    if a == [] {
      assert a + b == b;
    } else {
      assert (a + b)[1..] == a[1..] + b;
      AssembleAppend(a[1..], b);
    }
  }

  lemma AssembleOne(a: seq<Bytes>, x: Bytes)
    ensures Assemble(a + [x]) == Assemble(a) + x
  {
    AssembleAppend(a, [x]);
    assert Assemble([x]) == x + Assemble([]);
  }

  /** Assembly as written: append each segment to one buffer. */
  method AssembleSegments(segments: seq<Bytes>) returns (combined: Bytes)
    ensures combined == Assemble(segments)
  {
    combined := [];
    for i := 0 to |segments|
      invariant combined == Assemble(segments[..i])
    {
      AssembleOne(segments[..i], segments[i]);
      assert segments[..i + 1] == segments[..i] + [segments[i]];
      combined := combined + segments[i];
    }
    assert segments[..|segments|] == segments;
  }

  /** The coverage of a train: the final fragment's header over the combined payload. */
  function TrainCoverage(h: HeaderVariant, final: AcfMessage, segments: seq<Bytes>): Result<Bytes> {
    Coverage(h, final.(payload := Assemble(segments)))
  }

  function TrainCrc(h: HeaderVariant, final: AcfMessage, segments: seq<Bytes>): Result<u32> {
    var covered :- TrainCoverage(h, final, segments);
    Ok(Crc(covered))
  }

  datatype CrcExpectation = NotExpected | Expected

  function FragmentCrcExpectation(ms: bool): CrcExpectation {
    if ms then NotExpected else Expected
  }

  function CheckCrcPlacement(ms: bool, crcPresent: bool): Result<()> {
    match (FragmentCrcExpectation(ms), crcPresent)
    case (NotExpected, false) => Ok(())
    case (Expected, true) => Ok(())
    case _ => Err(InvalidParameter)
  }

  /** Present exactly where no more segments follow; otherwise an invalid parameter. */
  lemma PlacementExactly(ms: bool, crcPresent: bool)
    ensures CheckCrcPlacement(ms, crcPresent) == if ms != crcPresent then Ok(()) else Err(InvalidParameter)
  {
  }

  /** Over a train the placement rule admits exactly one pattern: a CRC on the last fragment
      and on no other. */
  lemma PlacementUnique(k: nat, present: seq<bool>)
    requires 0 < k == |present|
    ensures (forall i | 0 <= i < k :: CheckCrcPlacement(i < k - 1, present[i]).Ok?)
            <==> present == seq(k - 1, _ => false) + [true]
  {
    var pattern := seq(k - 1, _ => false) + [true];
    if forall i | 0 <= i < k :: CheckCrcPlacement(i < k - 1, present[i]).Ok? {
      assert forall i | 0 <= i < k :: present[i] == pattern[i];
    }
  }

  /** The train CRC depends on the combined payload only, never on how it was cut. Whatever
      payload the final fragment itself carries, it is the CRC of the single message with the
      final fragment's header and the combined payload, and exists exactly when that
      message's coverage does. */
  lemma SegmentationIndependent(h: HeaderVariant, final: AcfMessage, a: seq<Bytes>, b: seq<Bytes>)
    requires Assemble(a) == Assemble(b)
    ensures TrainCrc(h, final, a) == TrainCrc(h, final, b) == TrainCrc(h, final, [Assemble(a)])
    ensures var whole := final.(payload := Assemble(a));
            TrainCrc(h, final, a) ==
            if Coverage(h, whole).Ok? then Ok(Crc(Coverage(h, whole).value)) else Err(InvalidSize)
  {
    hide Coverage, Crc;
    assert Assemble([Assemble(a)]) == Assemble(a) + [] == Assemble(a);
    CoverageSucceedsIff(h, final.(payload := Assemble(a)));
  }

  /** Trains whose combined payloads have equal length and differ within 32 consecutive bits
      have different CRCs, however either was cut. */
  lemma TrainDamageDetected(h: HeaderVariant, final: AcfMessage, a: seq<Bytes>, b: seq<Bytes>, k: nat)
    requires TrainCrc(h, final, a).Ok?
    requires |Assemble(a)| == |Assemble(b)| && Assemble(a) != Assemble(b)
    requires BurstFrom(Assemble(a), Assemble(b), k)
    ensures TrainCrc(h, final, b).Ok? && TrainCrc(h, final, a) != TrainCrc(h, final, b)
  {
    hide Crc, Bits, Prefix, Extra;
    var (m, n) := (final.(payload := Assemble(a)), final.(payload := Assemble(b)));
    CoverageSucceedsIff(h, m);
    CoverageSucceedsIff(h, n);
    var head := SharedHead(h, m, n);
    var (c, d) := (head + m.payload, head + n.payload);
    BitsAppend(head, m.payload);
    BitsAppend(head, n.payload);
    assert c[|head|..] == m.payload && d[|head|..] == n.payload;
    assert BurstFrom(c, d, 8 * |head| + k) by {
      forall i | 0 <= i < 8 * |c| && Bits(c)[i] != Bits(d)[i]
        ensures 8 * |head| + k <= i < 8 * |head| + k + 32
      {
        if i >= 8 * |head| {
          assert Bits(c)[i] == Bits(m.payload)[i - 8 * |head|];
          assert Bits(d)[i] == Bits(n.payload)[i - 8 * |head|];
        }
      }
    }
    BurstDetected(c, d, 8 * |head| + k);
  }

  /** Messages differing in payload only share everything before it. */
  lemma SharedHead(h: HeaderVariant, m: AcfMessage, n: AcfMessage) returns (head: Bytes)
    requires Coverage(h, m).Ok? && n == m.(payload := n.payload)
    ensures Coverage(h, m) == Ok(head + m.payload)
    ensures Coverage(h, n) == Ok(head + n.payload)
  {
    hide Prefix, ByteMessageInfo.Fits, ByteMessageInfo.InfoOctets, SaturatingIncrement, Octets.Be64;
    head := Prefix(h) + ByteMessageInfo.InfoOctets(AdjustedInfo(m)) + Extra(m);
    assert KindOf(n) == KindOf(m) && AdjustedInfo(n) == AdjustedInfo(m) && Extra(n) == Extra(m);
  }
}
