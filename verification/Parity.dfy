/** The parity guarantee of the safe-point CRC: it carries the parity of what it covers, so
    an odd number of differing bits is noticed wherever they are. */
module Parity {
  import opened Octets
  import opened Crc32

  /** Whether an odd number of bits is true. */
  function OddCount(bits: seq<bool>): bool {
    bits != [] && bits[0] != OddCount(bits[1..])
  }

  predicate LowBit(x: bv32) {
    x & 1 != 0
  }

  /** Whether an odd number of the register's `n` lowest bits is set. */
  function OddLow(x: bv32, n: nat): bool {
    n > 0 && LowBit(x) != OddLow(Shift(x), n - 1)
  }

  function Odd(x: bv32): bool {
    OddLow(x, 32)
  }

  function Shifts(x: bv32, n: nat): bv32
    decreases n
  {
    if n == 0 then x else Shifts(Shift(x), n - 1)
  }

  function ShiftOctet(x: bv32): bv32 {
    x >> 8
  }

  lemma EightShifts(x: bv32)
    ensures Shift(Shift(Shift(Shift(Shift(Shift(Shift(Shift(x)))))))) == ShiftOctet(x)
  {
  }

  lemma ShiftsOctet(x: bv32, n: nat)
    ensures Shifts(x, n + 8) == Shifts(ShiftOctet(x), n)
  {
    EightShifts(x);
    hide Shift, ShiftOctet;
    var x2 := Shift(Shift(x));
    var x4 := Shift(Shift(x2));
    var x6 := Shift(Shift(x4));
    assert Shifts(x, n + 8) == Shifts(x2, n + 6);
    assert Shifts(x2, n + 6) == Shifts(x4, n + 4);
    assert Shifts(x4, n + 4) == Shifts(x6, n + 2);
  }

  lemma NothingLeft(x: bv32)
    ensures ShiftOctet(ShiftOctet(ShiftOctet(ShiftOctet(x)))) == 0
    ensures Shift(0) == 0
  {
  }

  lemma AllShifted(x: bv32)
    ensures Shifts(x, 32) == 0
  {
    NothingLeft(x);
    hide Shift, ShiftOctet;
    var x1 := ShiftOctet(x);
    var x2 := ShiftOctet(x1);
    var x3 := ShiftOctet(x2);
    ShiftsOctet(x, 24);
    ShiftsOctet(x1, 16);
    ShiftsOctet(x2, 8);
    ShiftsOctet(x3, 0);
  }

  lemma {:induction false} OddZero(n: nat)
    ensures !OddLow(0, n)
  {
    NothingLeft(0);
    if n == 0 {
    } else {
      OddZero(n - 1);
    }
  }

  lemma {:induction false} OddSplit(x: bv32, k: nat, n: nat)
    ensures OddLow(x, k + n) == (OddLow(x, k) != OddLow(Shifts(x, k), n))
    decreases k
  {
    hide Shift;
    if k == 0 {
    } else {
      OddSplit(Shift(x), k - 1, n);
    }
  }

  lemma {:induction false} OddLowAdd(x: bv32, y: bv32, n: nat)
    ensures OddLow(Add(x, y), n) == (OddLow(x, n) != OddLow(y, n))
    decreases n
  {
    hide Add, Shift;
    if n == 0 {
    } else {
      LowBitLinear(x, y);
      ShiftLinear(x, y);
      OddLowAdd(Shift(x), Shift(y), n - 1);
    }
  }

  lemma OddShift(c: bv32)
    ensures Odd(Shift(c)) == (Odd(c) != (c & 1 != 0))
  {
    hide Shift;
    AllShifted(c);
    OddSplit(c, 32, 1);
    OddZero(1);
    assert OddLow(c, 33) == ((c & 1 != 0) != OddLow(Shift(c), 32));
  }

  lemma OctetOfRegister(x: bv32)
    ensures var b := LowOctet(x);
            var (x1, x2) := (Shift(x), Shift(Shift(x)));
            var (x3, x4) := (Shift(x2), Shift(Shift(x2)));
            var (x5, x6) := (Shift(x4), Shift(Shift(x4)));
            OctetBits(b) == [LowBit(x), LowBit(x1), LowBit(x2), LowBit(x3),
                             LowBit(x4), LowBit(x5), LowBit(x6), LowBit(Shift(x6))]
  {
  }

  lemma OddCountUnfold(bits: seq<bool>, i: nat)
    requires i < |bits|
    ensures OddCount(bits[i..]) == (bits[i] != OddCount(bits[i + 1..]))
  {
    assert bits[i..][1..] == bits[i + 1..];
  }

  /** The parity of the lowest octet is that of its bits. */
  lemma OddOctet(x: bv32)
    ensures OddLow(x, 8) == OddCount(OctetBits(LowOctet(x)))
  {
    OctetOfRegister(x);
    var s := OctetBits(LowOctet(x));
    hide *;
    var (x1, x2) := (Shift(x), Shift(Shift(x)));
    var (x3, x4) := (Shift(x2), Shift(Shift(x2)));
    var (x5, x6) := (Shift(x4), Shift(Shift(x4)));
    OddEight(LowBit(x), LowBit(x1), LowBit(x2), LowBit(x3),
             LowBit(x4), LowBit(x5), LowBit(x6), LowBit(Shift(x6)));
    OddLowFour(x, 4);
    OddLowFour(x4, 0);
    NoneOdd(Shift(Shift(x6)));
  }

  lemma NoneOdd(x: bv32)
    ensures !OddLow(x, 0)
  {
  }

  lemma OddLowFour(x: bv32, n: nat)
    ensures var (x1, x2) := (Shift(x), Shift(Shift(x)));
            OddLow(x, n + 4) ==
            (LowBit(x) != (LowBit(x1) != (LowBit(x2) != (LowBit(Shift(x2)) != OddLow(Shift(Shift(x2)), n)))))
  {
    hide Shift, LowBit;
    var x2 := Shift(Shift(x));
    assert OddLow(x, n + 4) == (LowBit(x) != (LowBit(Shift(x)) != OddLow(x2, n + 2)));
    assert OddLow(x2, n + 2) == (LowBit(x2) != (LowBit(Shift(x2)) != OddLow(Shift(Shift(x2)), n)));
  }

  lemma OddEight(a: bool, b: bool, c: bool, d: bool, e: bool, f: bool, g: bool, h: bool)
    ensures OddCount([a, b, c, d, e, f, g, h]) == (a != (b != (c != (d != (e != (f != (g != h)))))))
  {
    OddFour(a, b, c, d);
    OddFour(e, f, g, h);
    hide OddCount;
    OddCountAppend([a, b, c, d], [e, f, g, h]);
    assert [a, b, c, d] + [e, f, g, h] == [a, b, c, d, e, f, g, h];
  }

  lemma OddFour(a: bool, b: bool, c: bool, d: bool)
    ensures OddCount([a, b, c, d]) == (a != (b != (c != d)))
  {
    var s := [a, b, c, d];
    hide OddCount;
    assert s[0..] == s && s[4..] == [];
    OddCountUnfold(s, 0);
    OddCountUnfold(s, 1);
    OddCountUnfold(s, 2);
    OddCountUnfold(s, 3);
    NothingOdd();
  }

  lemma NothingOdd()
    ensures !OddCount([])
  {
  }

  /** The parity of a register is that of its four octets together. */
  lemma OddOctets(x: bv32)
    ensures var (y, z, w) := (ShiftOctet(x), ShiftOctet(ShiftOctet(x)), ShiftOctet(ShiftOctet(ShiftOctet(x))));
            Odd(x) == (OddLow(x, 8) != (OddLow(y, 8) != (OddLow(z, 8) != OddLow(w, 8))))
  {
    hide OddLow, Shift, ShiftOctet;
    var y := ShiftOctet(x);
    var z := ShiftOctet(y);
    ShiftsOctet(x, 0);
    ShiftsOctet(y, 0);
    ShiftsOctet(z, 0);
    OddSplit(x, 8, 24);
    OddSplit(y, 8, 16);
    OddSplit(z, 8, 8);
  }

  /** The reversed polynomial has an odd number of terms; the leading one is not among them. */
  lemma OddPolynomial()
    ensures Odd(POLY_REFLECTED)
  {
    hide OddLow;
    OddOctets(POLY_REFLECTED);
    assert ShiftOctet(POLY_REFLECTED) == 0x00C8_DF35 && ShiftOctet(0x00C8_DF35) == 0xC8DF && ShiftOctet(0xC8DF) == 0xC8;
    OddOctet(POLY_REFLECTED);
    OddOctet(0x00C8_DF35);
    OddOctet(0xC8DF);
    OddOctet(0xC8);
    assert OctetBits(0x2F) == [true, true, true, true, false, true, false, false];
    assert OctetBits(0x35) == [true, false, true, false, true, true, false, false];
    assert OctetBits(0xDF) == [true, true, true, true, true, false, true, true];
    assert OctetBits(0xC8) == [false, false, false, true, false, false, true, true];
    OddEight(true, true, true, true, false, true, false, false);
    OddEight(true, false, true, false, true, true, false, false);
    OddEight(true, true, true, true, true, false, true, true);
    OddEight(false, false, false, true, false, false, true, true);
  }

  lemma OddFeedback(c: bv32)
    ensures Odd(Feedback(c)) == (c & 1 != 0)
  {
    hide OddLow;
    OddPolynomial();
    OddZero(32);
  }

  /** The polynomial has an even number of terms, so a shift keeps the register's parity. */
  lemma OddStep(c: bv32)
    ensures Odd(Step(c)) == Odd(c)
  {
    hide Step, Shift, Feedback, Add, OddLow;
    StepParts(c);
    OddLowAdd(Shift(c), Feedback(c), 32);
    OddShift(c);
    OddFeedback(c);
  }

  lemma OddBit(bit: bool)
    ensures Odd(BitReg(bit)) == bit
  {
    NothingLeft(0);
    OddZero(31);
    hide OddLow;
    assert Shift(1) == 0;
    assert OddLow(1, 32) == ((1 as bv32 & 1 != 0) != OddLow(Shift(1), 31)) by {
      OddLowUnfold(1, 32);
    }
    OddZero(32);
  }

  lemma OddLowUnfold(x: bv32, n: nat)
    requires n > 0
    ensures OddLow(x, n) == ((x & 1 != 0) != OddLow(Shift(x), n - 1))
  {
  }

  /** Feeding bits adds their parity to the register's. */
  lemma {:induction false} OddFeedBits(c: bv32, bits: seq<bool>)
    ensures Odd(FeedBits(c, bits)) == (Odd(c) != OddCount(bits))
    decreases bits
  {
    hide Odd, Step, Add, BitReg;
    if bits == [] {
    } else {
      var fed := Add(c, BitReg(bits[0]));
      assert Odd(fed) == (Odd(c) != bits[0]) by {
        OddBit(bits[0]);
        OddAdd(c, BitReg(bits[0]));
      }
      OddStep(fed);
      OddFeedBits(StepBit(c, bits[0]), bits[1..]);
    }
  }

  lemma OddAdd(x: bv32, y: bv32)
    ensures Odd(Add(x, y)) == (Odd(x) != Odd(y))
  {
    OddLowAdd(x, y, 32);
  }

  lemma OddOnes()
    ensures !Odd(INIT_XOROUT)
  {
    hide OddLow;
    OddOctets(INIT_XOROUT);
    assert ShiftOctet(INIT_XOROUT) == 0x00FF_FFFF && ShiftOctet(0x00FF_FFFF) == 0xFFFF && ShiftOctet(0xFFFF) == 0xFF;
    OddOctet(INIT_XOROUT);
    OddOctet(0x00FF_FFFF);
    OddOctet(0xFFFF);
    OddOctet(0xFF);
    assert OctetBits(0xFF) == [true, true, true, true, true, true, true, true];
    OddEight(true, true, true, true, true, true, true, true);
  }

  lemma OddBits(b: u8, rest: Bytes)
    ensures OddCount(Bits([b] + rest)) == (OddCount(OctetBits(b)) != OddCount(Bits(rest)))
  {
    hide OddCount, OctetBits;
    assert ([b] + rest)[1..] == rest;
    OddCountAppend(OctetBits(b), Bits(rest));
  }

  lemma OddFourOctets(a: u8, b: u8, c: u8, d: u8)
    ensures OddCount(Bits([a, b, c, d])) ==
            (OddCount(OctetBits(a)) != (OddCount(OctetBits(b)) != (OddCount(OctetBits(c)) != OddCount(OctetBits(d)))))
  {
    NoBits();
    NothingOdd();
    hide OddCount, Bits, OctetBits;
    assert [d] + [] == [d] && [c] + [d] == [c, d] && [b] + [c, d] == [b, c, d] && [a] + [b, c, d] == [a, b, c, d];
    OddBits(d, []);
    OddBits(c, [d]);
    OddBits(b, [c, d]);
    OddBits(a, [b, c, d]);
  }

  function LowOctet(x: bv32): u8 {
    (x & 0xFF) as u8
  }

  lemma OctetsOfRegister(x: bv32)
    ensures var (y, z, w) := (ShiftOctet(x), ShiftOctet(ShiftOctet(x)), ShiftOctet(ShiftOctet(ShiftOctet(x))));
            Be32(x) == [LowOctet(w), LowOctet(z), LowOctet(y), LowOctet(x)]
  {
  }

  /** The parity of the octets a register is sent as is that of the register. */
  lemma OddTrailer(x: bv32)
    ensures OddCount(Bits(Be32(x))) == Odd(x)
  {
    hide OddCount, Bits, OctetBits, OddLow, ShiftOctet, Be32, LowOctet, Odd;
    OctetsOfRegister(x);
    var y := ShiftOctet(x);
    var z := ShiftOctet(y);
    var w := ShiftOctet(z);
    OddOctets(x);
    OddOctet(x);
    OddOctet(y);
    OddOctet(z);
    OddOctet(w);
    OddFourOctets(LowOctet(w), LowOctet(z), LowOctet(y), LowOctet(x));
  }

  lemma NoBits()
    ensures Bits([]) == []
  {
  }

  /** The CRC carries the parity of the data. */
  lemma CrcCarriesParity(data: Bytes)
    ensures Odd(Crc(data)) == OddCount(Bits(data))
  {
    hide Odd, Feed, Bits;
    FeedIsFeedBits(INIT_XOROUT, data);
    OddFeedBits(INIT_XOROUT, Bits(data));
    OddOnes();
    var c := Feed(INIT_XOROUT, data);
    assert Crc(data) == Add(c, INIT_XOROUT);
    OddAdd(c, INIT_XOROUT);
  }

  lemma {:induction false} OddCountAppend(a: seq<bool>, b: seq<bool>)
    ensures OddCount(a + b) == (OddCount(a) != OddCount(b))
    decreases a
  {
    if a == [] {
      assert a + b == b;
    } else {
      assert (a + b)[1..] == a[1..] + b;
      OddCountAppend(a[1..], b);
    }
  }

  lemma {:induction false} OddCountDifference(a: seq<bool>, b: seq<bool>)
    requires |a| == |b|
    ensures OddCount(Difference(a, b)) == (OddCount(a) != OddCount(b))
    decreases a
  {
    if a == [] {
    } else {
      assert Difference(a, b)[1..] == Difference(a[1..], b[1..]);
      OddCountDifference(a[1..], b[1..]);
    }
  }

  /** An odd number of differing bits, however far apart, changes the CRC. */
  lemma OddDamageChangesCrc(a: Bytes, b: Bytes)
    requires |a| == |b| && OddCount(Difference(Bits(a), Bits(b)))
    ensures Crc(a) != Crc(b)
  {
    hide Odd, Crc, Bits;
    OddCountDifference(Bits(a), Bits(b));
    CrcCarriesParity(a);
    CrcCarriesParity(b);
  }

  /** A message followed by its CRC has even parity. */
  lemma EvenWithCrc(data: Bytes)
    ensures !OddCount(Bits(data + Be32(Crc(data))))
  {
    hide OddCount, Bits, Be32, Crc, Odd;
    var crc := Crc(data);
    BitsAppend(data, Be32(crc));
    OddCountAppend(Bits(data), Bits(Be32(crc)));
    OddTrailer(crc);
    CrcCarriesParity(data);
  }
}
