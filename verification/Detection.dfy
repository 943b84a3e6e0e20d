/** What damage to a sealed message a receiver is guaranteed to notice. */
module Detection {
  import opened Octets
  import opened ByteMessageInfo
  import opened Acf
  import opened Avtp
  import opened E2e
  import opened Protection
  import opened Crc32
  import opened Parity

  // ── Bursts and cleared bits ──────────────────────────────────────────────

  lemma {:induction false} BitAt(d: Bytes, i: nat)
    requires i < 8 * |d|
    ensures Bits(d)[i] == OctetBits(d[i / 8])[i % 8]
  {
    hide OctetBits;
    if i >= 8 {
      BitAt(d[1..], i - 8);
      assert d[1..][(i - 8) / 8] == d[i / 8];
    }
  }

  lemma Kept2Masks(x: u8)
    ensures Keep2(x) & 0x01 == x & 0x01 && Keep2(x) & 0x02 == x & 0x02 && Keep2(x) & 0x04 == x & 0x04
    ensures Keep2(x) & 0x08 == 0 && Keep2(x) & 0x10 == 0
    ensures Keep2(x) & 0x20 == x & 0x20 && Keep2(x) & 0x40 == x & 0x40 && Keep2(x) & 0x80 == x & 0x80
  {
  }

  lemma Kept4Masks(x: u8)
    ensures Keep4(x) & 0x01 == x & 0x01 && Keep4(x) & 0x02 == x & 0x02
    ensures Keep4(x) & 0x04 == 0 && Keep4(x) & 0x08 == 0
    ensures Keep4(x) & 0x10 == x & 0x10 && Keep4(x) & 0x20 == x & 0x20
    ensures Keep4(x) & 0x40 == x & 0x40 && Keep4(x) & 0x80 == x & 0x80
  {
  }

  lemma Kept2Bits(x: u8)
    ensures OctetBits(Keep2(x)) == OctetBits(x)[3 := false][4 := false]
  {
    hide Keep2;
    Kept2Masks(x);
  }

  lemma Kept4Bits(x: u8)
    ensures OctetBits(Keep4(x)) == OctetBits(x)[2 := false][3 := false]
  {
    hide Keep4;
    Kept4Masks(x);
  }

  lemma ClearedBit(f: Bytes, g: Bytes, i: nat)
    requires |f| == |g| && |f| >= BYTE_MESSAGE_INFO_LEN && i < 8 * |f|
    requires OctetBits(ClearReserved(f)[i / 8])[i % 8] != OctetBits(ClearReserved(g)[i / 8])[i % 8]
    ensures Bits(f)[i] != Bits(g)[i]
  {
    hide Keep2, Keep4, OctetBits, Bits;
    BitAt(f, i);
    BitAt(g, i);
    Kept2Bits(f[2]);
    Kept2Bits(g[2]);
    Kept4Bits(f[4]);
    Kept4Bits(g[4]);
  }

  /** A burst on the wire is a burst in the coverage: clearing reserved bits and prefixing
      equal octets only shift it. */
  lemma BurstReachesCoverage(p: Bytes, f: Bytes, g: Bytes, n: nat, k: nat)
    requires |f| == |g| && BYTE_MESSAGE_INFO_LEN <= n <= |f|
    requires BurstFrom(f, g, k)
    ensures BurstFrom(p + ClearReserved(f)[..n], p + ClearReserved(g)[..n], 8 * |p| + k)
  {
    hide Keep2, Keep4, OctetBits, Bits, ClearReserved;
    var (c, d) := (p + ClearReserved(f)[..n], p + ClearReserved(g)[..n]);
    forall i | 0 <= i < 8 * |c| && Bits(c)[i] != Bits(d)[i]
      ensures 8 * |p| + k <= i < 8 * |p| + k + 32
    {
      BitAt(c, i);
      BitAt(d, i);
      var j := i - 8 * |p|;
      if j >= 0 {
        OctetIndex(|p|, j);
        assert c[i / 8] == ClearReserved(f)[j / 8] && d[i / 8] == ClearReserved(g)[j / 8];
        ClearedBit(f, g, j);
      }
    }
  }

  lemma OctetIndex(p: nat, j: nat)
    ensures (8 * p + j) / 8 == p + j / 8 && (8 * p + j) % 8 == j % 8
  {
  }

  // ── Damage inside the covered octets ─────────────────────────────────────

  /** The fields that delimit the message are the same. */
  predicate SameFraming(f: Bytes, g: Bytes)
    requires |f| >= BYTE_MESSAGE_INFO_LEN && |g| >= BYTE_MESSAGE_INFO_LEN
  {
    && InfoOf(f).acfMsgType == InfoOf(g).acfMsgType
    && InfoOf(f).acfMsgLength == InfoOf(g).acfMsgLength
    && InfoOf(f).pad == InfoOf(g).pad
  }

  lemma SealedFacts(h: HeaderVariant, m: AcfMessage, f: Bytes)
    requires Seal(h, m) == Ok(f)
    ensures Acceptable(KindOf(m), f) && ClearReserved(f) == f
    ensures |f| >= BYTE_MESSAGE_INFO_LEN + CRC_TRAILER_LEN
    ensures HeaderLen(KindOf(m)) <= CoveredLen(f) <= |f| - CRC_TRAILER_LEN
    ensures FromBe32(f[|f| - CRC_TRAILER_LEN..]) == Crc(Prefix(h) + f[..CoveredLen(f)])
  {
    hide Seal, FromBe32, Prefix, ClearReserved, Crc, InfoOf, Num16, Num8;
    SealedLayout(h, m);
    ReceiveInvertsSealAs(h, m, f);
  }

  /** Damage that leaves the framing fields and the trailer alone and whose differing bits
      lie in one window of 32 is noticed exactly when it touches more than reserved bits
      and pad octets. */
  lemma DamageDetectedIff(h: HeaderVariant, m: AcfMessage, f: Bytes, g: Bytes, k: nat)
    requires Seal(h, m) == Ok(f)
    requires |g| == |f| && |f| >= BYTE_MESSAGE_INFO_LEN + CRC_TRAILER_LEN
    requires g[|f| - CRC_TRAILER_LEN..] == f[|f| - CRC_TRAILER_LEN..]
    requires SameFraming(f, g) && BurstFrom(f, g, k)
    ensures 0 <= CoveredLen(f) <= |f|
    ensures Receive(h, KindOf(m), g).Ok?
    ensures var r := Receive(h, KindOf(m), g).value;
            r.recomputed == r.carried <==> ClearReserved(g)[..CoveredLen(f)] == f[..CoveredLen(f)]
  {
    hide Seal, Receive, FromBe32, Prefix, ClearReserved, Crc, InfoOf, Num16, Num8, BurstFrom;
    SealedFacts(h, m, f);
    ReceiveShape(h, KindOf(m), g);
    var n := CoveredLen(f);
    var (c, d) := (Prefix(h) + ClearReserved(f)[..n], Prefix(h) + ClearReserved(g)[..n]);
    if ClearReserved(g)[..n] != f[..n] {
      BurstReachesCoverage(Prefix(h), f, g, n, k);
      assert c[12..] == f[..n] && d[12..] == ClearReserved(g)[..n];
      BurstDetected(c, d, 8 * |Prefix(h)| + k);
    }
  }

  /** The octet string with `patch` written over it at `at`. */
  function Patched(f: Bytes, at: nat, patch: Bytes): (g: Bytes)
    requires at + |patch| <= |f|
    ensures |g| == |f|
    ensures forall i | 0 <= i < |f| :: g[i] == if at <= i < at + |patch| then patch[i - at] else f[i]
  {
    f[..at] + patch + f[at + |patch|..]
  }

  lemma PatchIsBurst(f: Bytes, at: nat, patch: Bytes)
    requires at + |patch| <= |f| && |patch| <= 4
    ensures BurstFrom(f, Patched(f, at, patch), 8 * at)
  {
    hide Bits, OctetBits;
    var g := Patched(f, at, patch);
    forall i | 0 <= i < 8 * |f| && Bits(f)[i] != Bits(g)[i]
      ensures 8 * at <= i < 8 * at + 32
    {
      BitAt(f, i);
      BitAt(g, i);
      assert f[i / 8] != g[i / 8];
    }
  }

  lemma PatchAfterHeader(f: Bytes, at: nat, patch: Bytes)
    requires BYTE_MESSAGE_INFO_LEN <= at && at + |patch| <= |f|
    ensures InfoOf(Patched(f, at, patch)) == InfoOf(f)
    ensures ClearReserved(Patched(f, at, patch)) == Patched(ClearReserved(f), at, patch)
  {
    hide InfoOf, Keep2, Keep4;
    var g := Patched(f, at, patch);
    assert g[..BYTE_MESSAGE_INFO_LEN] == f[..BYTE_MESSAGE_INFO_LEN];
    InfoOfPrefix(f, []);
    InfoOfPrefix(g, []);
    assert f + [] == f && g + [] == g;
  }

  /** Up to four consecutive octets changed anywhere in a sealed message's timestamp or
      payload: the receiver still splits and decodes it, and the CRC it recomputes always
      differs from the one carried. */
  lemma PayloadDamageDetected(h: HeaderVariant, m: AcfMessage, f: Bytes, at: nat, patch: Bytes)
    requires Seal(h, m) == Ok(f)
    requires |f| >= BYTE_MESSAGE_INFO_LEN
    requires BYTE_MESSAGE_INFO_LEN <= at && at + |patch| <= CoveredLen(f) <= |f|
    requires |patch| <= 4 && patch != f[at..at + |patch|]
    ensures var r := Receive(h, KindOf(m), Patched(f, at, patch));
            r.Ok? && r.value.recomputed != r.value.carried
  {
    hide Seal, Receive, ClearReserved, InfoOf, Num16, Num8, BurstFrom, Patched;
    var g := Patched(f, at, patch);
    SealedFacts(h, m, f);
    PatchIsBurst(f, at, patch);
    PatchAfterHeader(f, at, patch);
    DamageDetectedIff(h, m, f, g, 8 * at);
    var n := CoveredLen(f);
    PatchDiffers(f, at, patch, n);
  }

  lemma PatchDiffers(f: Bytes, at: nat, patch: Bytes, n: nat)
    requires at + |patch| <= n <= |f| && patch != f[at..at + |patch|]
    ensures Patched(f, at, patch)[..n] != f[..n]
  {
    var i :| 0 <= i < |patch| && patch[i] != f[at..at + |patch|][i];
    assert Patched(f, at, patch)[..n][at + i] != f[..n][at + i];
  }

  /** The same damage to a whole NTSCF frame, counted from the frame's first octet. */
  lemma FrameDamageDetected(id: StreamId, sequenceNum: u8, m: AcfMessage, at: nat, patch: Bytes)
    requires Send(id, sequenceNum, m).Ok?
    requires NTSCF_HEADER_LEN + BYTE_MESSAGE_INFO_LEN <= at
    requires at + |patch| <= NTSCF_HEADER_LEN + HeaderLen(KindOf(m)) + |m.payload|
    requires at + |patch| <= |Send(id, sequenceNum, m).value|
    requires |patch| <= 4 && patch != Send(id, sequenceNum, m).value[at..at + |patch|]
    ensures var r := ReceiveFrame(KindOf(m), Patched(Send(id, sequenceNum, m).value, at, patch));
            r.Ok? && r.value.1.recomputed != r.value.1.carried
  {
    hide Seal, Receive, NtscfFrame, DecodeNtscfFrame, ToU64, Num16, Num8, InfoOf, Patched, Prefix, ClearReserved, Fill;
    var g := Ntscf(NtscfHeader(sequenceNum, 0, ToU64(id)));
    var acf := Seal(g, m).value;
    SealedLayout(g, m);
    hide CoveredLen;
    var off := at - NTSCF_HEADER_LEN;
    var h := PatchedFrame(id, sequenceNum, acf, at, patch);
    PayloadDamageDetected(g, m, acf, off, patch);
    CoverageByPrefix(g, Ntscf(h), KindOf(m), Patched(acf, off, patch));
  }

  lemma PatchedFrame(id: StreamId, sequenceNum: u8, acf: Bytes, at: nat, patch: Bytes) returns (h: NtscfHeader)
    requires NtscfFrame(id, sequenceNum, acf).Ok?
    requires NTSCF_HEADER_LEN <= at && at + |patch| <= NTSCF_HEADER_LEN + |acf|
    ensures h.streamId == ToU64(id)
    ensures var (b, off) := (NtscfFrame(id, sequenceNum, acf).value, at - NTSCF_HEADER_LEN);
            && |b| == NTSCF_HEADER_LEN + |acf|
            && b[at..at + |patch|] == acf[off..off + |patch|]
            && DecodeNtscfFrame(Patched(b, at, patch)) == Ok((h, Patched(acf, off, patch)))
  {
    hide NtscfOctets, ToU64, Num16, Patched, DecodeNtscf;
    h := NtscfHeader(sequenceNum, ToU16(|acf|), ToU64(id));
    DataLengthFits(h.ntscfDataLength);
    var (head, off) := (NtscfOctets(h), at - NTSCF_HEADER_LEN);
    var damaged := Patched(acf, off, patch);
    PatchBehindHead(head, acf, at, patch);
    NtscfRoundTrip(h, damaged);
    assert (head + damaged)[NTSCF_HEADER_LEN..] == damaged;
    assert (head + acf)[at..at + |patch|] == acf[off..off + |patch|];
  }

  lemma PatchBehindHead(head: Bytes, f: Bytes, at: nat, patch: Bytes)
    requires |head| <= at && at + |patch| <= |head| + |f|
    ensures Patched(head + f, at, patch) == head + Patched(f, at - |head|, patch)
  {
  }

  // ── Damage elsewhere ─────────────────────────────────────────────────────

  /** Any change confined to the trailer is noticed. */
  lemma TrailerDamageDetected(h: HeaderVariant, m: AcfMessage, f: Bytes, g: Bytes)
    requires Seal(h, m) == Ok(f)
    requires |g| == |f| && |f| >= CRC_TRAILER_LEN && g != f
    requires g[..|f| - CRC_TRAILER_LEN] == f[..|f| - CRC_TRAILER_LEN]
    ensures var r := Receive(h, KindOf(m), g);
            r.Ok? && r.value.recomputed != r.value.carried
  {
    hide Seal, Receive, FromBe32, Prefix, ClearReserved, Crc, InfoOf, Num16, Num8;
    SealedFacts(h, m, f);
    var start := |f| - CRC_TRAILER_LEN;
    assert g == f[..start] + g[start..] && f == f[..start] + f[start..];
    var (u, v) := (f[..start], g[start..]);
    InfoOfPrefix(u, f[start..]);
    InfoOfPrefix(u, v);
    SealedTail(f, g, start);
    ReceiveShape(h, KindOf(m), g);
    var n := CoveredLen(f);
    assert ClearReserved(g)[..n] == ClearReserved(g)[..start][..n];
    assert f[..n] == ClearReserved(f)[..start][..n];
    assert v != f[start..];
    FromBe32RoundTrip(f[start..]);
    FromBe32RoundTrip(v);
  }

  lemma SealedTail(f: Bytes, g: Bytes, start: nat)
    requires BYTE_MESSAGE_INFO_LEN <= start <= |f| == |g| && f[..start] == g[..start]
    ensures ClearReserved(f)[..start] == ClearReserved(g)[..start]
  {
    hide Keep2, Keep4;
    assert forall i | 0 <= i < start :: f[i] == f[..start][i] && g[i] == g[..start][i];
  }

  /** An intact message received under an AVTPDU header whose stream id and timestamp differ
      from the sender's within 32 consecutive bits is noticed. */
  lemma AddressDamageDetected(h: HeaderVariant, g: HeaderVariant, m: AcfMessage, k: nat)
    requires Seal(h, m).Ok?
    requires Prefix(g) != Prefix(h) && BurstFrom(Prefix(h), Prefix(g), k)
    ensures var r := Receive(g, KindOf(m), Seal(h, m).value);
            r.Ok? && r.value.recomputed != r.value.carried
  {
    hide Seal, Receive, FromBe32, Prefix, ClearReserved, Crc, InfoOf, Num16, Num8, Bits, OctetBits;
    var f := Seal(h, m).value;
    SealedFacts(h, m, f);
    ReceiveShape(g, KindOf(m), f);
    var tail := f[..CoveredLen(f)];
    var (c, d) := (Prefix(h) + tail, Prefix(g) + tail);
    assert c[..12] == Prefix(h) && d[..12] == Prefix(g);
    BitsAppend(Prefix(h), tail);
    BitsAppend(Prefix(g), tail);
    BurstDetected(c, d, k);
  }

  /** In particular a wrong AVTP timestamp never passes. */
  lemma WrongTimestampDetected(h: HeaderVariant, g: HeaderVariant, m: AcfMessage)
    requires Seal(h, m).Ok?
    requires StreamIdOf(g) == StreamIdOf(h) && TimestampOf(g) != TimestampOf(h)
    ensures var r := Receive(g, KindOf(m), Seal(h, m).value);
            r.Ok? && r.value.recomputed != r.value.carried
  {
    hide Seal, Receive, Be64, Be32, StreamIdOf, TimestampOf, BurstFrom;
    var (p, q) := (Be32(TimestampOf(h)), Be32(TimestampOf(g)));
    PatchIsBurst(Prefix(h), 8, q);
    assert Prefix(g) == Patched(Prefix(h), 8, q);
    if Prefix(g) == Prefix(h) {
      assert Prefix(g)[8..] == q && Prefix(h)[8..] == p;
      Be32Injective(TimestampOf(h), TimestampOf(g));
    }
    AddressDamageDetected(h, g, m, 64);
  }

  // ── An odd number of differing bits ──────────────────────────────────────

  /** All a receiver's check looks at: the covered octets and the trailer. */
  function Checked(h: HeaderVariant, f: Bytes): (b: Bytes)
    requires |f| >= BYTE_MESSAGE_INFO_LEN && 0 <= CoveredLen(f) <= |f|
    ensures |b| == 12 + CoveredLen(f) + CRC_TRAILER_LEN
  {
    Prefix(h) + ClearReserved(f)[..CoveredLen(f)] + f[|f| - CRC_TRAILER_LEN..]
  }

  /** Whatever arrives, it passes the check only if what is checked has even parity. */
  lemma PassedIsEven(h: HeaderVariant, kind: AcfKind, f: Bytes)
    requires Receive(h, kind, f).Ok?
    requires Receive(h, kind, f).value.carried == Receive(h, kind, f).value.recomputed
    ensures |f| >= BYTE_MESSAGE_INFO_LEN && 0 <= CoveredLen(f) <= |f|
    ensures !OddCount(Bits(Checked(h, f)))
  {
    hide Receive, FromBe32, Be32, Prefix, ClearReserved, Crc, InfoOf, CoveredLen, OddCount, Bits, Acceptable;
    ReceiveShape(h, kind, f);
    AcceptableLength(kind, f);
    FromBe32RoundTrip(f[|f| - CRC_TRAILER_LEN..]);
    EvenWithCrc(Prefix(h) + ClearReserved(f)[..CoveredLen(f)]);
  }

  /** An odd number of differing bits in stream id, timestamp, header, payload and trailer
      together is noticed, however far apart they are. */
  lemma OddDamageDetected(h: HeaderVariant, g: HeaderVariant, m: AcfMessage, f: Bytes, d: Bytes)
    requires Seal(h, m) == Ok(f)
    requires |d| == |f| && |f| >= BYTE_MESSAGE_INFO_LEN && SameFraming(f, d)
    requires 0 <= CoveredLen(f) <= |f|
    requires OddCount(Difference(Bits(Checked(h, f)), Bits(Checked(g, d))))
    ensures Receive(g, KindOf(m), d).Ok?
    ensures Receive(g, KindOf(m), d).value.recomputed != Receive(g, KindOf(m), d).value.carried
  {
    hide Seal, Receive, Prefix, Checked, InfoOf, Num16, Num8, OddCount, Bits, Difference;
    SealedFacts(h, m, f);
    ReceiveShape(g, KindOf(m), d);
    ReceiveInvertsSeal(h, m);
    PassedIsEven(h, KindOf(m), f);
    OddCountDifference(Bits(Checked(h, f)), Bits(Checked(g, d)));
    if Receive(g, KindOf(m), d).value.recomputed == Receive(g, KindOf(m), d).value.carried {
      PassedIsEven(g, KindOf(m), d);
    }
  }

  // ── Any damage that keeps the framing ────────────────────────────────────

  /** The CRCs of two octet strings of one length differ by what their differing bits alone
      feed into a zero register. */
  lemma CrcOfDifference(a: Bytes, b: Bytes)
    requires |a| == |b|
    ensures Add(Crc(a), Crc(b)) == FeedBits(0, Difference(Bits(a), Bits(b)))
  {
    hide Crc, Add, FeedBits, Bits, Feed, Difference;
    FeedIsFeedBits(INIT_XOROUT, a);
    FeedIsFeedBits(INIT_XOROUT, b);
    FeedBitsDifference(INIT_XOROUT, INIT_XOROUT, Bits(a), Bits(b));
    CrcIsFeed(a);
    CrcIsFeed(b);
    AddSwap(Feed(INIT_XOROUT, a), INIT_XOROUT, Feed(INIT_XOROUT, b), INIT_XOROUT);
    AddLaws(INIT_XOROUT, INIT_XOROUT);
    AddLaws(Add(Feed(INIT_XOROUT, a), Feed(INIT_XOROUT, b)), 0);
  }

  /** Damage that keeps the framing fields passes exactly when the differing covered bits, fed
      into a zero register, give the difference of the trailers: it depends on which bits
      differ and never on what was sent. */
  lemma DamagePassesIff(h: HeaderVariant, m: AcfMessage, f: Bytes, g: Bytes)
    requires Seal(h, m) == Ok(f)
    requires |g| == |f| && |f| >= BYTE_MESSAGE_INFO_LEN + CRC_TRAILER_LEN && SameFraming(f, g)
    requires 0 <= CoveredLen(f) <= |f|
    ensures Receive(h, KindOf(m), g).Ok?
    ensures var (n, start) := (CoveredLen(f), |f| - CRC_TRAILER_LEN);
            var r := Receive(h, KindOf(m), g).value;
            r.recomputed == r.carried <==>
              FeedBits(0, Difference(Bits(Prefix(h) + f[..n]), Bits(Prefix(h) + ClearReserved(g)[..n])))
              == Add(FromBe32(f[start..]), FromBe32(g[start..]))
  {
    hide Seal, Receive, FromBe32, Prefix, ClearReserved, Crc, InfoOf, Num16, Num8, Bits, Difference, Add, FeedBits;
    SealedFacts(h, m, f);
    ReceiveShape(h, KindOf(m), g);
    var n := CoveredLen(f);
    var (c, d) := (Prefix(h) + f[..n], Prefix(h) + ClearReserved(g)[..n]);
    CrcOfDifference(c, d);
    AddCancels(Crc(c), Crc(d), FromBe32(g[|f| - CRC_TRAILER_LEN..]));
  }

  lemma AddCancels(x: bv32, y: bv32, z: bv32)
    ensures Add(x, y) == Add(x, z) <==> y == z
  {
  }

  // ── Damage to the framing fields ─────────────────────────────────────────

  /** A sealed message of which anything changed is still decoded exactly when its type is the
      same, its length is not raised and its covered octets still hold the headers. In
      particular another type and a longer length are always rejected. */
  lemma DecodedIff(h: HeaderVariant, m: AcfMessage, f: Bytes, g: Bytes)
    requires Seal(h, m) == Ok(f)
    requires |g| == |f| && |f| >= BYTE_MESSAGE_INFO_LEN
    ensures Receive(h, KindOf(m), g).Ok? <==>
              && InfoOf(g).acfMsgType == InfoOf(f).acfMsgType
              && Num16(InfoOf(g).acfMsgLength) <= Num16(InfoOf(f).acfMsgLength)
              && HeaderLen(KindOf(m)) <= CoveredLen(g)
  {
    hide Seal, Receive, Prefix, ClearReserved, Crc, InfoOf, Num16, Num8;
    SealedLayout(h, m);
    ReceiveInvertsSealAs(h, m, f);
    AcceptableLength(KindOf(m), f);
    ReceiveShape(h, KindOf(m), g);
  }
}
