/** The safe-point CRC-32: the byte-wise reflected engine, the MSB-first reference
    definition it must agree with, and its burst-detection guarantee. */
module Crc32 {
  import opened Octets

  /** Bit reversal of the safe-point polynomial. */
  const POLY_REFLECTED: bv32 := 0xC8DF_352F
  /** The safe-point polynomial itself. */
  const POLY: bv32 := 0xF4AC_FB13
  const INIT_XOROUT: bv32 := 0xFFFF_FFFF

  // ── The reflected engine ─────────────────────────────────────────────────

  /** An octet as the register sees it. */
  function Reg(b: u8): bv32 {
    b as bv32
  }

  /** One LSB-first shift of the register. */
  function Step(c: bv32): bv32 {
    if c & 1 != 0 then (c >> 1) ^ POLY_REFLECTED else c >> 1
  }

  function Steps(c: bv32, n: nat): bv32
    decreases n
  {
    if n == 0 then c else Steps(Step(c), n - 1)
  }

  /** The register after feeding `data` octet by octet. */
  function Feed(c: bv32, data: Bytes): bv32
    decreases data
  {
    if data == [] then c else Feed(Steps(c ^ Reg(data[0]), 8), data[1..])
  }

  /** The CRC-32 of an octet string. */
  function Crc(data: Bytes): bv32 {
    Feed(INIT_XOROUT, data) ^ INIT_XOROUT
  }

  lemma {:induction false} StepsAppend(c: bv32, n: nat)
    ensures Steps(c, n + 1) == Step(Steps(c, n))
    decreases n
  {
    if n == 0 {
    } else {
      StepsAppend(Step(c), n - 1);
    }
  }

  lemma {:induction false} FeedAppend(c: bv32, front: Bytes, back: Bytes)
    ensures Feed(c, front + back) == Feed(Feed(c, front), back)
    decreases front
  {
    if front == [] {
      assert front + back == back;
    } else {
      assert (front + back)[1..] == front[1..] + back;
      FeedAppend(Steps(c ^ Reg(front[0]), 8), front[1..], back);
    }
  }

  lemma FeedNext(c: bv32, data: Bytes, i: nat)
    requires i < |data|
    ensures Feed(c, data[..i + 1]) == Steps(Feed(c, data[..i]) ^ Reg(data[i]), 8)
  {
    hide Steps, Reg;
    assert data[..i + 1] == data[..i] + [data[i]];
    FeedAppend(c, data[..i], [data[i]]);
  }

  lemma FeedNone(c: bv32, data: Bytes)
    ensures Feed(c, data[..0]) == c
  {
  }

  /** The engine as written: two nested loops over one register. */
  method ComputeCrc(data: Bytes) returns (r: bv32)
    ensures r == Crc(data)
  {
    hide Feed, Reg;
    var crc := INIT_XOROUT;
    FeedNone(INIT_XOROUT, data);
    for i := 0 to |data|
      invariant crc == Feed(INIT_XOROUT, data[..i])
    {
      FeedNext(INIT_XOROUT, data, i);
      crc := crc ^ Reg(data[i]);
      ghost var loaded := crc;
      for n := 0 to 8
        invariant crc == Steps(loaded, n)
      {
        StepsAppend(loaded, n);
        crc := if crc & 1 != 0 then (crc >> 1) ^ POLY_REFLECTED else crc >> 1;
      }
    }
    assert data[..|data|] == data;
    r := crc ^ INIT_XOROUT;
  }

  // ── Agreement with the MSB-first reference ───────────────────────────────

  /** Reversal of the 32 bits of a register. */
  function ReverseBits(x: bv32): bv32 {
    var a := ((x & 0x5555_5555) << 1) | ((x >> 1) & 0x5555_5555);
    var b := ((a & 0x3333_3333) << 2) | ((a >> 2) & 0x3333_3333);
    var c := ((b & 0x0F0F_0F0F) << 4) | ((b >> 4) & 0x0F0F_0F0F);
    var d := ((c & 0x00FF_00FF) << 8) | ((c >> 8) & 0x00FF_00FF);
    (d << 16) | (d >> 16)
  }

  /** Reversal of the 8 bits of an octet. */
  function ReverseOctet(x: bv8): bv8 {
    var a := ((x & 0x55) << 1) | ((x >> 1) & 0x55);
    var b := ((a & 0x33) << 2) | ((a >> 2) & 0x33);
    (b << 4) | (b >> 4)
  }

  /** One MSB-first shift of the register, against the unreversed polynomial. */
  function MsbStep(c: bv32): bv32 {
    if c & 0x8000_0000 != 0 then (c << 1) ^ POLY else c << 1
  }

  function MsbSteps(c: bv32, n: nat): bv32
    decreases n
  {
    if n == 0 then c else MsbSteps(MsbStep(c), n - 1)
  }

  function MsbFeed(c: bv32, data: Bytes): bv32
    decreases data
  {
    if data == [] then c
    else MsbFeed(MsbSteps(c ^ ((ReverseOctet(data[0]) as bv32) << 24), 8), data[1..])
  }

  /** The reference definition: reflect each input octet and the final register by
      hand around a plain MSB-first shift register. */
  function ReferenceCrc(data: Bytes): bv32 {
    ReverseBits(MsbFeed(0xFFFF_FFFF, data)) ^ 0xFFFF_FFFF
  }

  /** Reversal undoes itself, turns right shifts into left shifts and swaps the two end
      bits: it is the bit reversal and nothing else. */
  lemma ReverseBitsIsReversal(x: bv32)
    ensures ReverseBits(ReverseBits(x)) == x
    ensures ReverseBits(x >> 1) == ReverseBits(x) << 1
    ensures x & 1 != 0 <==> ReverseBits(x) & 0x8000_0000 != 0
  {
  }

  lemma ReverseBitsXor(a: bv32, b: bv32)
    ensures ReverseBits(a ^ b) == ReverseBits(a) ^ ReverseBits(b)
  {
  }

  lemma ReverseReg(b: bv8)
    ensures ReverseBits(b as bv32) == (ReverseOctet(b) as bv32) << 24
  {
  }

  /** The reflected polynomial is the reversal of the standard's polynomial, so the two
      single-bit steps are the same step read from opposite ends. */
  lemma ReverseStep(c: bv32)
    ensures ReverseBits(POLY_REFLECTED) == POLY
    ensures ReverseBits(Step(c)) == MsbStep(ReverseBits(c))
  {
    ReverseBitsIsReversal(c);
    ReverseBitsXor(c >> 1, POLY_REFLECTED);
  }

  lemma {:induction false} ReverseSteps(c: bv32, n: nat)
    ensures ReverseBits(Steps(c, n)) == MsbSteps(ReverseBits(c), n)
    decreases n
  {
    if n == 0 {
    } else {
      ReverseStep(c);
      ReverseSteps(Step(c), n - 1);
    }
  }

  lemma {:induction false} ReverseFeed(c: bv32, data: Bytes)
    ensures ReverseBits(Feed(c, data)) == MsbFeed(ReverseBits(c), data)
    decreases data
  {
    if data == [] {
    } else {
      ReverseReg(data[0]);
      ReverseBitsXor(c, Reg(data[0]));
      ReverseSteps(c ^ Reg(data[0]), 8);
      ReverseFeed(Steps(c ^ Reg(data[0]), 8), data[1..]);
    }
  }

  /** The two engines agree on every octet string. */
  lemma {:induction false} EnginesAgree(data: Bytes)
    ensures Crc(data) == ReferenceCrc(data)
  {
    ReverseFeed(INIT_XOROUT, data);
    ReverseBitsIsReversal(Feed(INIT_XOROUT, data));
    assert ReverseBits(INIT_XOROUT) == INIT_XOROUT;
  }

  // ── Linearity and reversibility ──────────────────────────────────────────

  /** Sum of two registers over GF(2). */
  function Add(a: bv32, b: bv32): bv32 {
    a ^ b
  }

  lemma AddLaws(a: bv32, b: bv32)
    ensures Add(a, b) == Add(b, a)
    ensures Add(a, 0) == a && Add(a, a) == 0
    ensures Add(a, b) == 0 ==> a == b
  {
  }

  lemma AddAssociative(a: bv32, b: bv32, c: bv32)
    ensures Add(Add(a, b), c) == Add(a, Add(b, c))
  {
  }

  lemma AddSwap(a: bv32, b: bv32, c: bv32, d: bv32)
    ensures Add(Add(a, b), Add(c, d)) == Add(Add(a, c), Add(b, d))
  {
    hide Add;
    AddAssociative(a, b, Add(c, d));
    AddAssociative(b, c, d);
    AddLaws(b, c);
    AddAssociative(c, b, d);
    AddAssociative(a, c, Add(b, d));
  }

  lemma StepInjective(a: bv32, b: bv32)
    requires Step(a) == Step(b)
    ensures a == b
  {
  }

  function Shift(c: bv32): bv32 {
    c >> 1
  }

  /** What the lowest bit feeds back into the register. */
  function Feedback(c: bv32): bv32 {
    if c & 1 != 0 then POLY_REFLECTED else 0
  }

  lemma StepParts(c: bv32)
    ensures Step(c) == Add(Shift(c), Feedback(c))
  {
    AddLaws(Shift(c), 0);
  }

  lemma ShiftLinear(a: bv32, b: bv32)
    ensures Shift(Add(a, b)) == Add(Shift(a), Shift(b))
  {
  }

  lemma LowBitLinear(a: bv32, b: bv32)
    ensures Add(a, b) & 1 != 0 <==> ((a & 1 != 0) != (b & 1 != 0))
  {
  }

  lemma FeedbackLinear(a: bv32, b: bv32)
    ensures Feedback(Add(a, b)) == Add(Feedback(a), Feedback(b))
  {
    hide Add;
    LowBitLinear(a, b);
    AddLaws(POLY_REFLECTED, 0);
    AddLaws(0, 0);
  }

  /** A shift of a sum is the sum of the shifts. */
  lemma StepLinear(a: bv32, b: bv32)
    ensures Step(Add(a, b)) == Add(Step(a), Step(b))
  {
    hide *;
    StepParts(a);
    StepParts(b);
    StepParts(Add(a, b));
    ShiftLinear(a, b);
    FeedbackLinear(a, b);
    AddSwap(Shift(a), Shift(b), Feedback(a), Feedback(b));
  }

  /** Any number of shifts keeps a nonzero register nonzero, and zero zero. */
  lemma {:induction false} StepsNonzero(c: bv32, n: nat)
    ensures Steps(c, n) == 0 <==> c == 0
    decreases n
  {
    if n == 0 {
    } else {
      assert Step(0) == 0;
      if Step(c) == 0 {
        StepInjective(c, 0);
      }
      StepsNonzero(Step(c), n - 1);
    }
  }

  // ── The engine bit by bit ────────────────────────────────────────────────

  /** An octet's bits in transmission order, least significant first. */
  function OctetBits(b: u8): (s: seq<bool>)
    ensures |s| == 8
  {
    [b & 0x01 != 0, b & 0x02 != 0, b & 0x04 != 0, b & 0x08 != 0,
     b & 0x10 != 0, b & 0x20 != 0, b & 0x40 != 0, b & 0x80 != 0]
  }

  /** The bits of an octet string in transmission order. */
  function Bits(data: Bytes): (s: seq<bool>)
    ensures |s| == 8 * |data|
  {
    if data == [] then [] else OctetBits(data[0]) + Bits(data[1..])
  }

  lemma {:induction false} BitsAppend(a: Bytes, b: Bytes)
    ensures Bits(a + b) == Bits(a) + Bits(b)
  {
    if a == [] {
      assert a + b == b;
    } else {
      assert (a + b)[1..] == a[1..] + b;
      BitsAppend(a[1..], b);
    }
  }

  function BitReg(bit: bool): bv32 {
    if bit then 1 else 0
  }

  /** Feed one bit. */
  function StepBit(c: bv32, bit: bool): bv32 {
    Step(Add(c, BitReg(bit)))
  }

  /** The register after feeding a bit string one bit at a time. */
  function FeedBits(c: bv32, bits: seq<bool>): bv32
    decreases bits
  {
    if bits == [] then c else FeedBits(StepBit(c, bits[0]), bits[1..])
  }

  lemma {:induction false} FeedBitsAppend(c: bv32, front: seq<bool>, back: seq<bool>)
    ensures FeedBits(c, front + back) == FeedBits(FeedBits(c, front), back)
    decreases front
  {
    if front == [] {
      assert front + back == back;
    } else {
      assert (front + back)[1..] == front[1..] + back;
      FeedBitsAppend(StepBit(c, front[0]), front[1..], back);
    }
  }

  /** Put one bit below the bits already packed. */
  function Push(bit: bool, rest: bv32): bv32 {
    BitReg(bit) | (rest << 1)
  }

  /** At most 32 bits as one register value, first bit lowest. */
  function Pack(bits: seq<bool>): bv32 {
    if bits == [] then 0 else Push(bits[0], Pack(bits[1..]))
  }

  /** The bit positions from `n` upwards. */
  function High(n: nat): bv32 {
    if n == 0 then 0xFFFF_FFFF else High(n - 1) << 1
  }

  predicate Disjoint(x: bv32, y: bv32) {
    x & y == 0
  }

  lemma HighTop()
    ensures High(31) == 0x8000_0000
  {
    assert High(8) == 0xFFFF_FF00;
    assert High(16) == 0xFFFF_0000;
    assert High(24) == 0xFF00_0000;
  }

  lemma ShiftDisjoint(x: bv32, y: bv32)
    requires Disjoint(x, y)
    ensures Disjoint(x << 1, y << 1)
  {
  }

  lemma LowDisjoint(bit: bool, y: bv32)
    ensures Disjoint(BitReg(bit), y << 1)
  {
  }

  lemma OrDisjoint(x: bv32, y: bv32, z: bv32)
    requires Disjoint(x, z) && Disjoint(y, z)
    ensures Disjoint(x | y, z)
  {
  }

  lemma ZeroDisjoint(y: bv32)
    ensures Disjoint(0, y)
  {
  }

  lemma PushDisjoint(bit: bool, rest: bv32, high: bv32)
    requires Disjoint(rest, high)
    ensures Disjoint(Push(bit, rest), high << 1)
  {
    ShiftDisjoint(rest, high);
    LowDisjoint(bit, high);
    OrDisjoint(BitReg(bit), rest << 1, high << 1);
  }

  lemma {:induction false} PackBound(bits: seq<bool>, k: nat)
    requires |bits| <= k
    ensures Disjoint(Pack(bits), High(k))
  {
    hide Push, Disjoint;
    ZeroDisjoint(High(k));
    if bits == [] {
    } else {
      PackBound(bits[1..], k - 1);
      PushDisjoint(bits[0], Pack(bits[1..]), High(k - 1));
    }
  }

  lemma PushNonzero(bit: bool, rest: bv32)
    requires bit || (rest != 0 && Disjoint(rest, 0x8000_0000))
    ensures Push(bit, rest) != 0
  {
  }

  lemma {:induction false} PackNonzero(bits: seq<bool>, i: nat)
    requires |bits| <= 32 && i < |bits| && bits[i]
    ensures Pack(bits) != 0
  {
    PackBound(bits[1..], 31);
    HighTop();
    if i == 0 {
    } else {
      PackNonzero(bits[1..], i - 1);
    }
    PushNonzero(bits[0], Pack(bits[1..]));
  }

  lemma ShiftBack(rest: bv32)
    requires Disjoint(rest, 0x8000_0000)
    ensures Step(rest << 1) == rest
  {
  }

  lemma OrIsAdd(x: bv32, y: bv32)
    requires Disjoint(x, y)
    ensures x | y == Add(x, y)
  {
  }

  lemma PushIsAdd(bit: bool, rest: bv32)
    ensures Push(bit, rest) == Add(BitReg(bit), rest << 1)
  {
    hide BitReg, Add, Disjoint;
    LowDisjoint(bit, rest);
    OrIsAdd(BitReg(bit), rest << 1);
  }

  /** Shifting the sum of the register and the packed bits consumes the lowest bit. */
  lemma PushStep(c: bv32, bit: bool, rest: bv32)
    requires Disjoint(rest, 0x8000_0000)
    ensures Step(Add(c, Push(bit, rest))) == Add(StepBit(c, bit), rest)
  {
    hide Step, Add, Push, BitReg;
    ShiftBack(rest);
    PushIsAdd(bit, rest);
    AddAssociative(c, BitReg(bit), rest << 1);
    StepLinear(Add(c, BitReg(bit)), rest << 1);
  }

  /** Feeding at most 32 bits is the same as adding them all to the register first. */
  lemma {:induction false} FeedBitsPacked(c: bv32, bits: seq<bool>)
    requires |bits| <= 32
    ensures FeedBits(c, bits) == Steps(Add(c, Pack(bits)), |bits|)
    decreases bits
  {
    if bits == [] {
      AddLaws(c, 0);
    } else {
      PackBound(bits[1..], 31);
      HighTop();
      PushStep(c, bits[0], Pack(bits[1..]));
      FeedBitsPacked(StepBit(c, bits[0]), bits[1..]);
    }
  }

  lemma PackTail(s: seq<bool>, i: nat)
    requires i < |s|
    ensures Pack(s[i..]) == Push(s[i], Pack(s[i + 1..]))
  {
    assert s[i..][1..] == s[i + 1..];
  }

  lemma PushEight(b: u8)
    ensures Push(b & 0x01 != 0, Push(b & 0x02 != 0, Push(b & 0x04 != 0, Push(b & 0x08 != 0,
            Push(b & 0x10 != 0, Push(b & 0x20 != 0, Push(b & 0x40 != 0, Push(b & 0x80 != 0, 0))))))))
            == Reg(b)
  {
  }

  /** Packing an octet's bits gives the octet back. */
  lemma PackOctet(b: u8)
    ensures Pack(OctetBits(b)) == Reg(b)
  {
    hide Push, BitReg, Reg;
    var s := OctetBits(b);
    assert s[0..] == s && s[8..] == [];
    PackTail(s, 0);
    PackTail(s, 1);
    PackTail(s, 2);
    PackTail(s, 3);
    PackTail(s, 4);
    PackTail(s, 5);
    PackTail(s, 6);
    PackTail(s, 7);
    PushEight(b);
  }

  /** One octet through the octet engine is its eight bits through the bit engine. */
  lemma FeedOctet(c: bv32, b: u8)
    ensures FeedBits(c, OctetBits(b)) == Steps(c ^ Reg(b), 8)
  {
    PackOctet(b);
    FeedBitsPacked(c, OctetBits(b));
  }

  /** The octet loop is the bit loop over the octets' bits. */
  lemma {:induction false} FeedIsFeedBits(c: bv32, data: Bytes)
    ensures Feed(c, data) == FeedBits(c, Bits(data))
    decreases data
  {
    hide StepBit, OctetBits, Steps, Reg;
    if data == [] {
    } else {
      FeedOctet(c, data[0]);
      FeedBitsAppend(c, OctetBits(data[0]), Bits(data[1..]));
      FeedIsFeedBits(Steps(c ^ Reg(data[0]), 8), data[1..]);
    }
  }

  // ── Burst detection ──────────────────────────────────────────────────────

  /** Where two equally long bit strings differ. */
  function Difference(a: seq<bool>, b: seq<bool>): (d: seq<bool>)
    requires |a| == |b|
    ensures |d| == |a|
    ensures forall i | 0 <= i < |a| :: d[i] <==> a[i] != b[i]
  {
    seq(|a|, i requires 0 <= i < |a| => a[i] != b[i])
  }

  lemma StepBitLinear(c: bv32, d: bv32, a: bool, b: bool)
    ensures Add(StepBit(c, a), StepBit(d, b)) == StepBit(Add(c, d), a != b)
  {
    StepLinear(Add(c, BitReg(a)), Add(d, BitReg(b)));
    AddSwap(c, BitReg(a), d, BitReg(b));
    assert Add(BitReg(a), BitReg(b)) == BitReg(a != b);
  }

  /** The sum of two runs is the run over the difference: equal start values cancel. */
  lemma {:induction false} FeedBitsDifference(c: bv32, d: bv32, a: seq<bool>, b: seq<bool>)
    requires |a| == |b|
    ensures Add(FeedBits(c, a), FeedBits(d, b)) == FeedBits(Add(c, d), Difference(a, b))
    decreases a
  {
    if a == [] {
    } else {
      StepBitLinear(c, d, a[0], b[0]);
      assert Difference(a, b)[1..] == Difference(a[1..], b[1..]);
      FeedBitsDifference(StepBit(c, a[0]), StepBit(d, b[0]), a[1..], b[1..]);
    }
  }

  ghost predicate AllFalse(bits: seq<bool>) {
    forall i | 0 <= i < |bits| :: !bits[i]
  }

  lemma {:induction false} FeedZeros(c: bv32, bits: seq<bool>)
    requires AllFalse(bits)
    ensures FeedBits(c, bits) == 0 <==> c == 0
    decreases bits
  {
    if bits == [] {
    } else {
      AddLaws(c, 0);
      StepsNonzero(c, 1);
      assert Steps(c, 1) == Steps(Step(c), 0);
      FeedZeros(StepBit(c, false), bits[1..]);
    }
  }

  lemma FeedBitsSplit(c: bv32, bits: seq<bool>, i: nat)
    requires i <= |bits|
    ensures FeedBits(c, bits) == FeedBits(FeedBits(c, bits[..i]), bits[i..])
  {
    assert bits == bits[..i] + bits[i..];
    FeedBitsAppend(c, bits[..i], bits[i..]);
  }

  /** At most 32 bits fed into a zero register leave it nonzero unless all are false. */
  lemma ShortBurstNonzero(bits: seq<bool>, hit: nat)
    requires |bits| <= 32 && hit < |bits| && bits[hit]
    ensures FeedBits(0, bits) != 0
  {
    hide Add, Step, Push;
    FeedBitsPacked(0, bits);
    AddLaws(0, Pack(bits));
    AddLaws(Pack(bits), 0);
    PackNonzero(bits, hit);
    StepsNonzero(Pack(bits), |bits|);
  }

  /** A difference confined to 32 consecutive bits never cancels to zero. */
  lemma BurstNonzero(d: seq<bool>, k: nat, hit: nat)
    requires forall i | 0 <= i < |d| && d[i] :: k <= i < k + 32
    requires hit < |d| && d[hit]
    ensures FeedBits(0, d) != 0
  {
    hide Add, Step, StepBit;
    FeedBitsSplit(0, d, k);
    FeedZeros(0, d[..k]);
    var rest := d[k..];
    var stop := if |rest| <= 32 then |rest| else 32;
    FeedBitsSplit(0, rest, stop);
    assert rest[..stop][hit - k];
    ShortBurstNonzero(rest[..stop], hit - k);
    assert AllFalse(rest[stop..]);
    FeedZeros(FeedBits(0, rest[..stop]), rest[stop..]);
  }

  /** All bits in which `a` and `b` differ lie in 32 consecutive positions from `k`. */
  ghost predicate BurstFrom(a: Bytes, b: Bytes, k: nat)
    requires |a| == |b|
  {
    forall i | 0 <= i < 8 * |a| && Bits(a)[i] != Bits(b)[i] :: k <= i < k + 32
  }

  lemma MasksInjective(a: u8, b: u8)
    requires a & 0x01 != 0 <==> b & 0x01 != 0
    requires a & 0x02 != 0 <==> b & 0x02 != 0
    requires a & 0x04 != 0 <==> b & 0x04 != 0
    requires a & 0x08 != 0 <==> b & 0x08 != 0
    requires a & 0x10 != 0 <==> b & 0x10 != 0
    requires a & 0x20 != 0 <==> b & 0x20 != 0
    requires a & 0x40 != 0 <==> b & 0x40 != 0
    requires a & 0x80 != 0 <==> b & 0x80 != 0
    ensures a == b
  {
  }

  lemma OctetBitsInjective(a: u8, b: u8)
    requires OctetBits(a) == OctetBits(b)
    ensures a == b
  {
    var (s, t) := (OctetBits(a), OctetBits(b));
    assert s[0] == t[0] && s[1] == t[1] && s[2] == t[2] && s[3] == t[3];
    assert s[4] == t[4] && s[5] == t[5] && s[6] == t[6] && s[7] == t[7];
    MasksInjective(a, b);
  }

  lemma {:induction false} BitsInjective(a: Bytes, b: Bytes)
    requires |a| == |b| && Bits(a) == Bits(b)
    ensures a == b
  {
    if a == [] {
    } else {
      assert Bits(a)[..8] == OctetBits(a[0]) && Bits(a)[8..] == Bits(a[1..]);
      assert Bits(b)[..8] == OctetBits(b[0]) && Bits(b)[8..] == Bits(b[1..]);
      OctetBitsInjective(a[0], b[0]);
      BitsInjective(a[1..], b[1..]);
      assert a == [a[0]] + a[1..] && b == [b[0]] + b[1..];
    }
  }

  /** Different octet strings of one length have a bit in which they differ. */
  lemma DifferingBit(a: Bytes, b: Bytes) returns (i: nat)
    requires |a| == |b| && a != b
    ensures i < 8 * |a| && Bits(a)[i] != Bits(b)[i]
  {
    if forall i | 0 <= i < 8 * |a| :: Bits(a)[i] == Bits(b)[i] {
      BitsInjective(a, b);
    }
    i :| 0 <= i < 8 * |a| && Bits(a)[i] != Bits(b)[i];
  }

  /** Two different octet strings of one length whose differing bits lie in a window of
      32 consecutive bits, octet-aligned or not, have different CRCs. */
  lemma BurstDetected(a: Bytes, b: Bytes, k: nat)
    requires |a| == |b| && a != b
    requires BurstFrom(a, b, k)
    ensures Crc(a) != Crc(b)
  {
    var hit := DifferingBit(a, b);
    var d := Difference(Bits(a), Bits(b));
    BurstNonzero(d, k, hit);
    FeedBitsDifference(INIT_XOROUT, INIT_XOROUT, Bits(a), Bits(b));
    AddLaws(INIT_XOROUT, INIT_XOROUT);
    FeedIsFeedBits(INIT_XOROUT, a);
    FeedIsFeedBits(INIT_XOROUT, b);
    FinalXorKeepsDifference(Feed(INIT_XOROUT, a), Feed(INIT_XOROUT, b));
  }

  lemma FinalXorKeepsDifference(x: bv32, y: bv32)
    requires Add(x, y) != 0
    ensures x ^ INIT_XOROUT != y ^ INIT_XOROUT
  {
  }

  // ── Initial and final value ──────────────────────────────────────────────

  lemma {:induction false} FeedFalse(c: bv32, bits: seq<bool>)
    requires AllFalse(bits)
    ensures FeedBits(c, bits) == Steps(c, |bits|)
    decreases bits
  {
    hide Step, Add;
    if bits == [] {
    } else {
      AddLaws(c, 0);
      FeedFalse(Step(c), bits[1..]);
    }
  }

  /** The CRC is the data fed into a zero register plus what the all-ones start value becomes
      over as many bits, complemented. */
  lemma CrcIsAffine(data: Bytes)
    ensures Add(Crc(data), FeedBits(0, Bits(data))) == Add(Steps(0xFFFF_FFFF, 8 * |data|), 0xFFFF_FFFF)
  {
    hide Add, Steps, FeedBits, Feed, Bits;
    var (c, ones) := (Feed(INIT_XOROUT, data), INIT_XOROUT);
    var zero := FeedBits(0, Bits(data));
    FeedIsFeedBits(ones, data);
    FeedBitsDifference(ones, 0, Bits(data), Bits(data));
    AddLaws(ones, 0);
    FeedFalse(ones, Difference(Bits(data), Bits(data)));
    CrcIsFeed(data);
    AddAssociative(c, ones, zero);
    AddLaws(ones, zero);
    AddAssociative(c, zero, ones);
  }

  lemma CrcIsFeed(data: Bytes)
    ensures Crc(data) == Add(Feed(INIT_XOROUT, data), INIT_XOROUT)
  {
    hide Feed;
  }

  /** One octet, all eight shifts written out. */
  function EightSteps(c: bv32): bv32 {
    Step(Step(Step(Step(Step(Step(Step(Step(c))))))))
  }

  lemma EightStepsIs(c: bv32)
    ensures Steps(c, 8) == EightSteps(c)
  {
    hide Step;
    var c4 := Step(Step(Step(Step(c))));
    assert Steps(c, 8) == Steps(Step(Step(c)), 6);
    assert Steps(Step(Step(c)), 6) == Steps(c4, 4);
    assert Steps(c4, 4) == Steps(Step(Step(c4)), 2);
  }

  lemma FeedAt(c: bv32, s: Bytes, i: nat, d: bv32)
    requires i < |s| && EightSteps(c ^ Reg(s[i])) == d
    ensures Feed(c, s[i..]) == Feed(d, s[i + 1..])
  {
    hide Steps, EightSteps, Reg;
    assert s[i..][1..] == s[i + 1..];
    EightStepsIs(c ^ Reg(s[i]));
  }

  lemma FeedEmpty()
    ensures forall c :: Feed(c, []) == c
  {
  }

  lemma CheckOctets1()
    ensures EightSteps(0xFFFF_FFFF ^ Reg(0x31)) == 0xD218_50A1
    ensures EightSteps(0xD218_50A1 ^ Reg(0x32)) == 0xB2AE_168E
    ensures EightSteps(0xB2AE_168E ^ Reg(0x33)) == 0x521E_C2DD
  {
  }

  lemma CheckOctets2()
    ensures EightSteps(0x521E_C2DD ^ Reg(0x34)) == 0x1776_C98B
    ensures EightSteps(0x1776_C98B ^ Reg(0x35)) == 0x0334_0A1D
    ensures EightSteps(0x0334_0A1D ^ Reg(0x36)) == 0x1242_663E
  {
  }

  lemma CheckOctets3()
    ensures EightSteps(0x1242_663E ^ Reg(0x37)) == 0x2501_5864
    ensures EightSteps(0x2501_5864 ^ Reg(0x38)) == 0x503B_AF2D
    ensures EightSteps(0x503B_AF2D ^ Reg(0x39)) == 0xE968_2F95
  {
  }

  /** The conventional check string "123456789", and the empty string. */
  lemma CheckValues()
    ensures Crc([0x31, 0x32, 0x33, 0x34, 0x35, 0x36, 0x37, 0x38, 0x39]) == 0x1697_D06A
    ensures Crc([]) == 0
  {
    FeedEmpty();
    CheckFeed();
    hide Feed, EightSteps;
  }

  const CHECK_STRING: Bytes := [0x31, 0x32, 0x33, 0x34, 0x35, 0x36, 0x37, 0x38, 0x39]

  lemma CheckFeed()
    ensures Feed(0xFFFF_FFFF, CHECK_STRING) == 0xE968_2F95
  {
    hide *;
    CheckHead();
    CheckTail();
  }

  lemma CheckHead()
    ensures Feed(0xFFFF_FFFF, CHECK_STRING) == Feed(0x0334_0A1D, CHECK_STRING[5..])
  {
    CheckOctets1();
    CheckOctets2();
    hide EightSteps, Reg, Feed;
    var s := CHECK_STRING;
    FeedAt(0xFFFF_FFFF, s, 0, 0xD218_50A1);
    FeedAt(0xD218_50A1, s, 1, 0xB2AE_168E);
    FeedAt(0xB2AE_168E, s, 2, 0x521E_C2DD);
    FeedAt(0x521E_C2DD, s, 3, 0x1776_C98B);
    FeedAt(0x1776_C98B, s, 4, 0x0334_0A1D);
    assert s[0..] == s;
  }

  lemma CheckTail()
    ensures Feed(0x0334_0A1D, CHECK_STRING[5..]) == 0xE968_2F95
  {
    CheckOctets2();
    CheckOctets3();
    hide EightSteps, Reg, Feed;
    var s := CHECK_STRING;
    FeedAt(0x0334_0A1D, s, 5, 0x1242_663E);
    FeedAt(0x1242_663E, s, 6, 0x2501_5864);
    FeedAt(0x2501_5864, s, 7, 0x503B_AF2D);
    FeedAt(0x503B_AF2D, s, 8, 0xE968_2F95);
    assert s[9..] == [];
    FeedEmpty();
  }
}
