/** Bursts that reach from the covered octets into the trailer, and the exact extent of the
    burst guarantee over a whole sealed message. */
module Straddle {
  import opened Octets
  import opened ByteMessageInfo
  import opened Acf
  import opened Avtp
  import opened E2e
  import opened Protection
  import opened Crc32
  import opened Detection

  /** The receiver decodes what arrived and finds the carried CRC equal to the recomputed one. */
  predicate Passes(h: HeaderVariant, kind: AcfKind, f: Bytes) {
    var r := Receive(h, kind, f);
    r.Ok? && r.value.recomputed == r.value.carried
  }

  // ── Without pad octets such a burst can pass ─────────────────────────────

  lemma {:induction false} StepsLinear(a: bv32, b: bv32, n: nat)
    ensures Steps(Add(a, b), n) == Add(Steps(a, n), Steps(b, n))
    decreases n
  {
    hide Step, Add;
    if n == 0 {
    } else {
      StepLinear(a, b);
      StepsLinear(Step(a), Step(b), n - 1);
    }
  }

  lemma TopBit(b: u8)
    ensures Reg(b ^ 0x80) == Add(Reg(b), 0x80)
    ensures Steps(0x80, 8) == POLY_REFLECTED
  {
    assert Step(0x80) == 0x40 && Step(0x40) == 0x20 && Step(0x20) == 0x10 && Step(0x10) == 0x08;
    assert Step(0x08) == 0x04 && Step(0x04) == 0x02 && Step(0x02) == 0x01 && Step(0x01) == POLY_REFLECTED;
  }

  /** Flipping the very last covered bit changes the CRC by the polynomial. */
  lemma LastBitFlipped(data: Bytes, b: u8)
    ensures Crc(data + [b ^ 0x80]) == Add(Crc(data + [b]), POLY_REFLECTED)
  {
    hide Steps, Reg, Add;
    var c := Feed(INIT_XOROUT, data);
    FeedAppend(INIT_XOROUT, data, [b]);
    FeedAppend(INIT_XOROUT, data, [b ^ 0x80]);
    FeedOne(c, b);
    FeedOne(c, b ^ 0x80);
    TopBit(b);
    AddAssociative(c, Reg(b), 0x80);
    StepsLinear(Add(c, Reg(b)), 0x80, 8);
    var r := Steps(Add(c, Reg(b)), 8);
    AddAssociative(r, POLY_REFLECTED, INIT_XOROUT);
    AddAssociative(r, INIT_XOROUT, POLY_REFLECTED);
    AddLaws(POLY_REFLECTED, INIT_XOROUT);
    CrcIsFeed(data + [b]);
    CrcIsFeed(data + [b ^ 0x80]);
  }

  lemma FeedOne(c: bv32, b: u8)
    ensures Feed(c, [b]) == Steps(Add(c, Reg(b)), 8)
  {
    hide Steps, Reg;
    assert [b][1..] == [];
  }

  /** The CRC carried by four octets with the polynomial added, as octets. */
  function PolynomialAdded(b: Bytes): (r: Bytes)
    requires |b| == 4
    ensures |r| == 4
  {
    Be32(Add(FromBe32(b), POLY_REFLECTED))
  }

  lemma PolynomialOctets(b: Bytes)
    requires |b| == 4
    ensures FromBe32(PolynomialAdded(b)) == Add(FromBe32(b), POLY_REFLECTED)
    ensures OctetBits(PolynomialAdded(b)[3])[7] == OctetBits(b[3])[7]
  {
    hide Be32, FromBe32, Add;
    Be32RoundTrip(Add(FromBe32(b), POLY_REFLECTED));
    FromBe32RoundTrip(b);
    LastWireBit(FromBe32(b));
  }

  lemma LastWireBit(x: bv32)
    ensures OctetBits(Be32(Add(x, POLY_REFLECTED))[3])[7] == OctetBits(Be32(x)[3])[7]
  {
  }

  lemma TopBitOnly(b: u8)
    ensures b ^ 0x80 != b
    ensures forall i | 0 <= i < 7 :: OctetBits(b ^ 0x80)[i] == OctetBits(b)[i]
  {
  }

  /** A sealed message with the last covered bit flipped and the polynomial added to the
      trailer. */
  function Straddled(f: Bytes): (g: Bytes)
    requires |f| >= 5
    ensures |g| == |f|
  {
    f[..|f| - 5] + [f[|f| - 5] ^ 0x80] + PolynomialAdded(f[|f| - 4..])
  }

  lemma StraddledIsBurst(f: Bytes)
    requires |f| >= 5
    ensures BurstFrom(f, Straddled(f), 8 * (|f| - 5) + 7)
  {
    hide Bits, OctetBits, PolynomialAdded;
    var (g, n) := (Straddled(f), |f| - 4);
    assert forall i | 0 <= i < n - 1 :: g[i] == f[i];
    TopBitOnly(f[n - 1]);
    PolynomialOctets(f[n..]);
    assert g[n + 3] == PolynomialAdded(f[n..])[3] && f[n + 3] == f[n..][3];
    forall i | 0 <= i < 8 * |f| && Bits(f)[i] != Bits(g)[i]
      ensures 8 * (n - 1) + 7 <= i < 8 * (n - 1) + 39
    {
      BitAt(f, i);
      BitAt(g, i);
      assert i / 8 == n - 1 ==> g[i / 8] == f[n - 1] ^ 0x80;
      assert i / 8 == n + 3 ==> i % 8 != 7;
    }
  }

  /** The burst guarantee can stop at the trailer, because the CRC is sent most significant
      octet first while its bits run the other way: every sealed message whose payload is a
      whole number of quadlets, and so needs no pad octets, has a differing message, by a burst
      of 32 bits across the end of the covered octets, that passes. */
  lemma StraddlingBurstMissed(h: HeaderVariant, m: AcfMessage)
    requires Seal(h, m).Ok? && |m.payload| % QUADLET_LEN == 0
    ensures var f := Seal(h, m).value;
            && |f| >= BYTE_MESSAGE_INFO_LEN
            && var g := Straddled(f);
            && SameFraming(f, g) && BurstFrom(f, g, 8 * (|f| - 5) + 7)
            && 0 <= CoveredLen(f) <= |f|
            && ClearReserved(g)[..CoveredLen(f)] != f[..CoveredLen(f)]
            && Passes(h, KindOf(m), g)
  {
    var f := Seal(h, m).value;
    CoversPayload(h, m, f);
    SealedFacts(h, m, f);
    StraddledIsBurst(f);
    StraddledParts(f, CoveredLen(f));
    StraddledChecks(h, m, f);
    ClearedStraddle(f, Straddled(f), CoveredLen(f));
    hide *;
    assert f[..CoveredLen(f)][CoveredLen(f) - 1] == f[CoveredLen(f) - 1];
    TopBitOnly(f[CoveredLen(f) - 1]);
  }

  lemma CoversPayload(h: HeaderVariant, m: AcfMessage, f: Bytes)
    requires Seal(h, m) == Ok(f)
    ensures |f| >= BYTE_MESSAGE_INFO_LEN
    ensures CoveredLen(f) == HeaderLen(KindOf(m)) + |m.payload|
    ensures CoveredLen(f) <= |f| - CRC_TRAILER_LEN
    ensures |m.payload| % QUADLET_LEN == 0 <==> CoveredLen(f) == |f| - CRC_TRAILER_LEN
  {
    hide Seal, InfoOf, Prefix, ClearReserved, Crc, Num16, Num8, Fits;
    SealedLayout(h, m);
    HeaderOf(f);
    FieldBounds(InfoOf(f));
  }

  lemma StraddledChecks(h: HeaderVariant, m: AcfMessage, f: Bytes)
    requires Seal(h, m) == Ok(f)
    requires BYTE_MESSAGE_INFO_LEN <= |f| - CRC_TRAILER_LEN == CoveredLen(f)
    ensures Passes(h, KindOf(m), Straddled(f))
  {
    hide Seal, Receive, FromBe32, Prefix, ClearReserved, Crc, InfoOf, Num16, Num8, PolynomialAdded;
    hide Straddled, CoveredLen, Add, OctetBits;
    var (g, n) := (Straddled(f), |f| - CRC_TRAILER_LEN);
    SealedFacts(h, m, f);
    StraddledParts(f, n);
    PolynomialOctets(f[n..]);
    ReceiveShape(h, KindOf(m), g);
    ClearedStraddle(f, g, n);
    var data := Prefix(h) + f[..n - 1];
    assert f[..n] == f[..n - 1] + [f[n - 1]];
    assert Prefix(h) + f[..n] == data + [f[n - 1]];
    assert Prefix(h) + (f[..n - 1] + [f[n - 1] ^ 0x80]) == data + [f[n - 1] ^ 0x80];
    LastBitFlipped(data, f[n - 1]);
  }

  lemma StraddledParts(f: Bytes, n: nat)
    requires BYTE_MESSAGE_INFO_LEN <= n == |f| - CRC_TRAILER_LEN
    ensures var g := Straddled(f);
            && SameFraming(f, g) && CoveredLen(g) == CoveredLen(f)
            && g[..n - 1] == f[..n - 1] && g[n - 1] == f[n - 1] ^ 0x80 && g[n..] == PolynomialAdded(f[n..])
  {
    hide InfoOf, Num16, Num8, PolynomialAdded;
    var g := Straddled(f);
    assert g[..7] == f[..7];
    FramingOctets(f, g);
    assert g[n - 1] == f[n - 1] ^ 0x80;
  }

  /** The framing fields lie in the first octets. */
  lemma FramingOctets(f: Bytes, g: Bytes)
    requires |f| >= BYTE_MESSAGE_INFO_LEN && |g| >= BYTE_MESSAGE_INFO_LEN && g[..7] == f[..7]
    ensures SameFraming(f, g) && CoveredLen(g) == CoveredLen(f)
  {
    assert g[0] == g[..7][0] && g[1] == g[..7][1] && g[2] == g[..7][2];
  }

  lemma ClearedStraddle(f: Bytes, g: Bytes, n: nat)
    requires BYTE_MESSAGE_INFO_LEN <= n <= |f| == |g| && ClearReserved(f) == f
    requires g[..n - 1] == f[..n - 1]
    ensures ClearReserved(g)[..n] == f[..n - 1] + [g[n - 1]]
  {
    hide Keep2, Keep4;
    assert forall i | 0 <= i < n - 1 :: g[i] == g[..n - 1][i] && f[i] == f[..n - 1][i];
  }

  // ── With pad octets none can ─────────────────────────────────────────────

  /** The inverse of a register step. */
  function Unstep(c: bv32): bv32 {
    if c & 0x8000_0000 != 0 then ((c ^ POLY_REFLECTED) << 1) | 1 else c << 1
  }

  function Unsteps(c: bv32, n: nat): bv32
    decreases n
  {
    if n == 0 then c else Unsteps(Unstep(c), n - 1)
  }

  lemma UnstepStep(c: bv32)
    ensures Unstep(Step(c)) == c
  {
  }

  lemma {:induction false} UnstepsSteps(c: bv32, n: nat)
    ensures Unsteps(Steps(c, n), n) == c
    decreases n
  {
    hide Step, Unstep;
    if n == 0 {
    } else {
      StepsAppend(c, n - 1);
      UnstepStep(Steps(c, n - 1));
      UnstepsSteps(c, n - 1);
    }
  }

  function FourSteps(c: bv32): bv32 {
    Step(Step(Step(Step(c))))
  }

  function FourUnsteps(c: bv32): bv32 {
    Unstep(Unstep(Unstep(Unstep(c))))
  }

  lemma StepsByFour(c: bv32, n: nat)
    ensures Steps(c, n + 4) == Steps(FourSteps(c), n)
  {
    hide Step;
    var c2 := Step(Step(c));
    assert Steps(c, n + 4) == Steps(c2, n + 2);
  }

  lemma UnstepsByFour(c: bv32, n: nat)
    ensures Unsteps(c, n + 4) == Unsteps(FourUnsteps(c), n)
  {
    hide Unstep;
    var c2 := Unstep(Unstep(c));
    assert Unsteps(c, n + 4) == Unsteps(c2, n + 2);
  }

  lemma HighMasks()
    ensures High(6) == 0xFFFF_FFC0 && High(14) == 0xFFFF_C000 && High(16) == 0xFFFF_0000 && High(20) == 0xFFF0_0000
    ensures High(23) == 0xFF80_0000
  {
    assert High(4) == 0xFFFF_FFF0;
    assert High(8) == 0xFFFF_FF00;
    assert High(12) == 0xFFFF_F000;
    assert High(16) == 0xFFFF_0000;
    assert High(20) == 0xFFF0_0000;
  }

  // A window of 32 bits that holds the last `j` covered bits reaches, across at least one pad
  // octet, at most the first 24 - j bits of the trailer. Taking the positions in five groups,
  // a difference in the last `Late(j)` covered bits never feeds into a register without any of
  // the bits `Unreached(j)`, which are sent after those.

  function Late(j: nat): nat {
    if j <= 6 then 6 else if j <= 14 then 14 else if j <= 16 then 16 else if j <= 20 then 20 else 23
  }

  function Unreached(j: nat): bv32 {
    if j <= 6 then 0x0000_80FF else if j <= 14 then 0x0000_FEFF else if j <= 16 then 0x00FE_FFFF
    else if j <= 20 then 0x80FF_FFFF else 0xF8FF_FFFF
  }

  lemma SixSteps(v: bv32)
    requires Disjoint(v, 0xFFFF_FFC0) && Disjoint(Step(Step(FourSteps(v))), 0x0000_80FF)
    ensures v == 0
  {
  }

  lemma FourteenSteps(v: bv32)
    requires Disjoint(v, 0xFFFF_C000)
    requires Disjoint(Step(Step(FourSteps(FourSteps(FourSteps(v))))), 0x0000_FEFF)
    ensures v == 0
  {
  }

  lemma SixteenSteps(v: bv32)
    requires Disjoint(v, 0xFFFF_0000) && Disjoint(FourSteps(FourSteps(FourSteps(FourSteps(v)))), 0x00FE_FFFF)
    ensures v == 0
  {
  }

  lemma TwentySteps(t: bv32)
    requires Disjoint(t, 0x80FF_FFFF)
    requires Disjoint(FourUnsteps(FourUnsteps(FourUnsteps(FourUnsteps(FourUnsteps(t))))), 0xFFF0_0000)
    ensures t == 0
  {
  }

  lemma TwentyThreeSteps(t: bv32)
    requires Disjoint(t, 0xF8FF_FFFF)
    requires var u := FourUnsteps(FourUnsteps(FourUnsteps(FourUnsteps(FourUnsteps(t)))));
             Disjoint(Unstep(Unstep(Unstep(u))), 0xFF80_0000)
    ensures t == 0
  {
  }

  /** Late differences reach late trailer bits. */
  lemma LateReaches(v: bv32, j: nat)
    requires Disjoint(v, High(Late(j))) && Disjoint(Steps(v, Late(j)), Unreached(j))
    ensures v == 0
  {
    hide Step, Unstep, FourSteps, FourUnsteps, Disjoint, High;
    HighMasks();
    var t := Steps(v, Late(j));
    UnstepsSteps(v, Late(j));
    StepsNonzero(v, Late(j));
    if j <= 6 {
      StepsByFour(v, 2);
      SixSteps(v);
    } else if j <= 14 {
      StepsByFour(v, 10);
      StepsByFour(FourSteps(v), 6);
      StepsByFour(FourSteps(FourSteps(v)), 2);
      FourteenSteps(v);
    } else if j <= 16 {
      StepsByFour(v, 12);
      StepsByFour(FourSteps(v), 8);
      StepsByFour(FourSteps(FourSteps(v)), 4);
      StepsByFour(FourSteps(FourSteps(FourSteps(v))), 0);
      SixteenSteps(v);
    } else {
      UnstepsSixteen(t, Late(j) - 16);
      var u := FourUnsteps(FourUnsteps(FourUnsteps(FourUnsteps(t))));
      if j <= 20 {
        UnstepsByFour(u, 0);
        TwentySteps(t);
      } else {
        UnstepsByFour(u, 3);
        UnstepsThree(FourUnsteps(u));
        TwentyThreeSteps(t);
      }
    }
  }

  lemma UnstepsSixteen(t: bv32, n: nat)
    ensures Unsteps(t, n + 16) == Unsteps(FourUnsteps(FourUnsteps(FourUnsteps(FourUnsteps(t)))), n)
  {
    hide FourUnsteps;
    var t1 := FourUnsteps(t);
    var t2 := FourUnsteps(t1);
    UnstepsByFour(t, n + 12);
    UnstepsByFour(t1, n + 8);
    UnstepsByFour(t2, n + 4);
    UnstepsByFour(FourUnsteps(t2), n);
  }

  lemma UnstepsThree(u: bv32)
    ensures Unsteps(u, 3) == Unstep(Unstep(Unstep(u)))
  {
    hide Unstep;
    assert Unsteps(u, 3) == Unsteps(Unstep(u), 2);
  }

  /** A difference confined to the last `j` bits is packed into the register and stepped. */
  lemma LateBurst(d: seq<bool>, j: nat, hit: nat) returns (v: bv32)
    requires j <= 32 && j <= |d| && hit < |d| && d[hit]
    requires forall i | 0 <= i < |d| && d[i] :: |d| - j <= i
    ensures v != 0 && Disjoint(v, High(j)) && FeedBits(0, d) == Steps(v, j)
  {
    hide Add, Step, StepBit, Push, High, Disjoint;
    var at := |d| - j;
    FeedBitsSplit(0, d, at);
    assert AllFalse(d[..at]);
    FeedZeros(0, d[..at]);
    var last := d[at..];
    assert last[hit - at];
    v := Pack(last);
    FeedBitsPacked(0, last);
    AddLaws(0, v);
    AddLaws(v, 0);
    PackBound(last, j);
    PackNonzero(last, hit - at);
  }

  // ── The trailer's bits ───────────────────────────────────────────────────

  predicate SameFrom(x: u8, y: u8, i: nat) {
    forall k | i <= k < 8 :: OctetBits(x)[k] == OctetBits(y)[k]
  }

  /** Equal bits from some position on leave no difference there. */
  lemma OctetFrom(x: u8, y: u8)
    ensures SameFrom(x, y, 7) ==> (x ^ y) & 0x80 == 0
    ensures SameFrom(x, y, 3) ==> (x ^ y) & 0xF8 == 0
    ensures SameFrom(x, y, 1) ==> (x ^ y) & 0xFE == 0
  {
    var (s, t) := (OctetBits(x), OctetBits(y));
    if SameFrom(x, y, 7) {
      assert s[7] == t[7];
    }
    if SameFrom(x, y, 3) {
      assert s[3] == t[3] && s[4] == t[4] && s[5] == t[5] && s[6] == t[6];
    }
    if SameFrom(x, y, 1) {
      assert s[1] == t[1] && s[2] == t[2];
    }
  }

  lemma TrailerDifference(a: Bytes, b: Bytes)
    requires |a| == |b| == 4
    ensures Add(FromBe32(a), FromBe32(b)) == FromBe32([a[0] ^ b[0], a[1] ^ b[1], a[2] ^ b[2], a[3] ^ b[3]])
  {
  }

  lemma TrailerMasks(d: Bytes)
    requires |d| == 4
    ensures d[3] == 0 && d[2] & 0x80 == 0 ==> Disjoint(FromBe32(d), 0x0000_80FF)
    ensures d[3] == 0 && d[2] & 0xFE == 0 ==> Disjoint(FromBe32(d), 0x0000_FEFF)
    ensures d[3] == 0 && d[2] == 0 && d[1] & 0xFE == 0 ==> Disjoint(FromBe32(d), 0x00FE_FFFF)
    ensures d[3] == 0 && d[2] == 0 && d[1] == 0 && d[0] & 0x80 == 0 ==> Disjoint(FromBe32(d), 0x80FF_FFFF)
    ensures d[3] == 0 && d[2] == 0 && d[1] == 0 && d[0] & 0xF8 == 0 ==> Disjoint(FromBe32(d), 0xF8FF_FFFF)
  {
  }

  /** The octets agree in their bits from the `from`-th on. */
  ghost predicate AgreeFrom(a: Bytes, b: Bytes, from: nat)
    requires |a| == |b|
  {
    forall i | from <= i < 8 * |a| :: Bits(a)[i] == Bits(b)[i]
  }

  lemma OctetAgrees(a: Bytes, b: Bytes, from: nat, o: nat)
    requires |a| == |b| && o < |a| && AgreeFrom(a, b, from)
    ensures forall i | 0 <= i < 8 && from <= 8 * o + i :: OctetBits(a[o])[i] == OctetBits(b[o])[i]
    ensures from <= 8 * o ==> a[o] == b[o]
  {
    hide OctetBits, Bits;
    forall i | 0 <= i < 8 && from <= 8 * o + i
      ensures OctetBits(a[o])[i] == OctetBits(b[o])[i]
    {
      OctetIndex(o, i);
      BitAt(a, 8 * o + i);
      BitAt(b, 8 * o + i);
    }
    if from <= 8 * o {
      assert OctetBits(a[o]) == OctetBits(b[o]);
      OctetBitsInjective(a[o], b[o]);
    }
  }

  /** Trailers that agree from bit 24 - `j` on differ in none of the bits `Unreached(j)`. */
  lemma TrailerUnreached(a: Bytes, b: Bytes, j: nat)
    requires |a| == |b| == 4 && 1 <= j <= 23 && AgreeFrom(a, b, 24 - j)
    ensures Disjoint(Add(FromBe32(a), FromBe32(b)), Unreached(j))
  {
    hide OctetBits, Bits, Add, FromBe32, Disjoint, AgreeFrom;
    var d := [a[0] ^ b[0], a[1] ^ b[1], a[2] ^ b[2], a[3] ^ b[3]];
    TrailerDifference(a, b);
    TrailerMasks(d);
    OctetAgrees(a, b, 24 - j, 3);
    OctetAgrees(a, b, 24 - j, 2);
    OctetAgrees(a, b, 24 - j, 1);
    OctetAgrees(a, b, 24 - j, 0);
    OctetFrom(a[2], b[2]);
    OctetFrom(a[1], b[1]);
    OctetFrom(a[0], b[0]);
  }

  /** Differences in the last `j` bits of two octet strings and in the first 24 - `j` of their
      trailers never cancel. */
  lemma StraddleNoticed(c: Bytes, d: Bytes, a: Bytes, b: Bytes, j: nat)
    requires |c| == |d| >= 4 && c != d && |a| == |b| == 4 && 1 <= j <= 23
    requires forall i | 0 <= i < 8 * |c| && Bits(c)[i] != Bits(d)[i] :: 8 * |c| - j <= i
    requires AgreeFrom(a, b, 24 - j)
    ensures Add(Crc(c), Crc(d)) != Add(FromBe32(a), FromBe32(b))
  {
    hide Add, FromBe32, Bits, OctetBits, Crc, FeedBits, Disjoint, AgreeFrom, High, Unreached;
    var hit := DifferingBit(c, d);
    var v := LateBurst(Difference(Bits(c), Bits(d)), Late(j), hit);
    CrcOfDifference(c, d);
    TrailerUnreached(a, b, j);
    if Steps(v, Late(j)) == Add(FromBe32(a), FromBe32(b)) {
      LateReaches(v, j);
    }
  }

  // ── The burst guarantee over a whole sealed message ──────────────────────

  /** What a receiver checks is the same in both: the covered octets, reserved bits cleared,
      and the trailer. */
  predicate SameChecked(f: Bytes, g: Bytes)
    requires |g| == |f| && |f| >= BYTE_MESSAGE_INFO_LEN + CRC_TRAILER_LEN && 0 <= CoveredLen(f) <= |f|
  {
    && ClearReserved(g)[..CoveredLen(f)] == ClearReserved(f)[..CoveredLen(f)]
    && g[|f| - CRC_TRAILER_LEN..] == f[|f| - CRC_TRAILER_LEN..]
  }

  /** With pad octets between payload and trailer: damage anywhere in the sealed message that
      keeps the framing fields and lies in one window of 32 bits passes exactly when it touches
      reserved bits and pad octets only. */
  lemma PaddedBurstPassesIff(h: HeaderVariant, m: AcfMessage, f: Bytes, g: Bytes, k: nat)
    requires Seal(h, m) == Ok(f) && |m.payload| % QUADLET_LEN != 0
    requires |g| == |f| && |f| >= BYTE_MESSAGE_INFO_LEN + CRC_TRAILER_LEN
    requires SameFraming(f, g) && BurstFrom(f, g, k)
    ensures 0 <= CoveredLen(f) <= |f|
    ensures Passes(h, KindOf(m), g) <==> SameChecked(f, g)
  {
    hide Seal, Receive, FromBe32, Prefix, ClearReserved, Crc, InfoOf, Num16, Num8, BurstFrom, SameFraming;
    hide CoveredLen, Bits;
    SealedFacts(h, m, f);
    CoversPayload(h, m, f);
    var (n, start) := (CoveredLen(f), |f| - CRC_TRAILER_LEN);
    if g[start..] == f[start..] {
      DamageDetectedIff(h, m, f, g, k);
    } else if ClearReserved(g)[..n] == f[..n] {
      FramedReceive(h, m, f, g);
      FromBe32RoundTrip(f[start..]);
      FromBe32RoundTrip(g[start..]);
    } else {
      StraddlePassesNot(h, m, f, g, k);
    }
  }

  lemma FramedReceive(h: HeaderVariant, m: AcfMessage, f: Bytes, g: Bytes)
    requires Seal(h, m) == Ok(f)
    requires |g| == |f| && |f| >= BYTE_MESSAGE_INFO_LEN + CRC_TRAILER_LEN && SameFraming(f, g)
    ensures 0 <= CoveredLen(f) <= |f|
    ensures var r := Receive(h, KindOf(m), g);
            && r.Ok?
            && r.value.carried == FromBe32(g[|f| - CRC_TRAILER_LEN..])
            && r.value.recomputed == Crc(Prefix(h) + ClearReserved(g)[..CoveredLen(f)])
  {
    hide Seal, Receive, FromBe32, Prefix, ClearReserved, Crc, InfoOf, Num16, Num8;
    SealedFacts(h, m, f);
    ReceiveShape(h, KindOf(m), g);
  }

  lemma StraddlePassesNot(h: HeaderVariant, m: AcfMessage, f: Bytes, g: Bytes, k: nat)
    requires Seal(h, m) == Ok(f) && |m.payload| % QUADLET_LEN != 0
    requires |g| == |f| && |f| >= BYTE_MESSAGE_INFO_LEN + CRC_TRAILER_LEN
    requires SameFraming(f, g) && BurstFrom(f, g, k)
    requires 0 <= CoveredLen(f) <= |f| && ClearReserved(g)[..CoveredLen(f)] != f[..CoveredLen(f)]
    requires g[|f| - CRC_TRAILER_LEN..] != f[|f| - CRC_TRAILER_LEN..]
    ensures !Passes(h, KindOf(m), g)
  {
    hide Seal, Receive, FromBe32, Prefix, ClearReserved, Crc, InfoOf, Num16, Num8, SameFraming, CoveredLen;
    hide Bits, AgreeFrom, Add;
    SealedFacts(h, m, f);
    CoversPayload(h, m, f);
    FramedReceive(h, m, f, g);
    var (n, start) := (CoveredLen(f), |f| - CRC_TRAILER_LEN);
    var (c, d) := (Prefix(h) + f[..n], Prefix(h) + ClearReserved(g)[..n]);
    assert c[12..] == f[..n] && d[12..] == ClearReserved(g)[..n];
    BurstReachesCoverage(Prefix(h), f, g, n, k);
    var hit := DifferingBit(c, d);
    var late := DifferingBit(f[start..], g[start..]);
    TrailerBits(f, g, start, late);
    var j := 8 * n - k;
    forall t | 24 - j <= t < 32 && t >= 0
      ensures Bits(f[start..])[t] == Bits(g[start..])[t]
    {
      TrailerBits(f, g, start, t);
    }
    assert AgreeFrom(f[start..], g[start..], 24 - j) by {
      AgreesFrom(f[start..], g[start..], 24 - j);
    }
    StraddleNoticed(c, d, f[start..], g[start..], j);
    AddCancels(Crc(c), Crc(d), FromBe32(g[start..]));
  }

  lemma AgreesFrom(a: Bytes, b: Bytes, from: nat)
    requires |a| == |b| && forall i | from <= i < 8 * |a| :: Bits(a)[i] == Bits(b)[i]
    ensures AgreeFrom(a, b, from)
  {
  }

  lemma TrailerBits(f: Bytes, g: Bytes, start: nat, t: nat)
    requires |f| == |g| && start <= |f| && t < 8 * (|f| - start)
    ensures Bits(f)[8 * start + t] == Bits(f[start..])[t]
    ensures Bits(g)[8 * start + t] == Bits(g[start..])[t]
  {
    hide Bits;
    assert f == f[..start] + f[start..] && g == g[..start] + g[start..];
    BitsAppend(f[..start], f[start..]);
    BitsAppend(g[..start], g[start..]);
  }

  /** Every burst of 32 bits that keeps the framing fields, wherever it lies in the sealed
      message, fails the check unless it changes nothing that is checked. */
  ghost predicate BurstsNoticed(h: HeaderVariant, kind: AcfKind, f: Bytes)
    requires |f| >= BYTE_MESSAGE_INFO_LEN + CRC_TRAILER_LEN && 0 <= CoveredLen(f) <= |f|
  {
    forall g, k: nat | |g| == |f| && SameFraming(f, g) && BurstFrom(f, g, k) && Passes(h, kind, g) ::
      SameChecked(f, g)
  }

  /** The guarantee covers the whole sealed message exactly when the message has pad octets. */
  lemma BurstsNoticedIff(h: HeaderVariant, m: AcfMessage, f: Bytes)
    requires Seal(h, m) == Ok(f)
    ensures |f| >= BYTE_MESSAGE_INFO_LEN + CRC_TRAILER_LEN && 0 <= CoveredLen(f) <= |f|
    ensures BurstsNoticed(h, KindOf(m), f) <==> |m.payload| % QUADLET_LEN != 0
  {
    hide Seal, ClearReserved, InfoOf, Num16, Num8, BurstFrom, SameFraming, CoveredLen, Passes, Prefix, Crc, FromBe32;
    SealedFacts(h, m, f);
    if |m.payload| % QUADLET_LEN == 0 {
      StraddlingBurstMissed(h, m);
      assert !SameChecked(f, Straddled(f));
    } else {
      forall g, k: nat | |g| == |f| && SameFraming(f, g) && BurstFrom(f, g, k) && Passes(h, KindOf(m), g)
        ensures SameChecked(f, g)
      {
        PaddedBurstPassesIff(h, m, f, g, k);
      }
    }
  }
}
