/** Machine integers, octet strings and the result type shared by every layer. */
module Octets {
  type u8 = bv8
  type u16 = bv16
  type u32 = bv32
  type u64 = bv64

  type Bytes = seq<u8>

  /** A 16-bit count held as a number. */
  type Count16 = n: nat | n < 0x1_0000

  datatype Option<+T> = None | Some(value: T)

  /** The error sentinels the modelled functions return. `Other` stands for every
      free-text error; its text is not modelled. */
  datatype RcpError =
    | ShortFrame
    | InvalidSize
    | InvalidParameter
    | PayloadTooLarge
    | UnsupportedCmd
    | UnauthorizedAccess
    | RequestRejected
    | Other

  datatype Result<+T> = Ok(value: T) | Err(error: RcpError) {
    predicate IsFailure() {
      Err?
    }

    function PropagateFailure<U>(): Result<U>
      requires Err?
    {
      Err(error)
    }

    function Extract(): T
      requires Ok?
    {
      value
    }
  }

  /** The number a 16-bit integer denotes. */
  function Num16(x: u16): (n: nat)
    ensures n < 0x1_0000
  {
    x as int
  }

  /** The number an octet denotes. */
  function Num8(x: u8): (n: nat)
    ensures n < 0x100
  {
    x as int
  }

  /** The 16-bit integer with value `n`. Every length the wire formats can carry is
      below 2^12. */
  function ToU16(n: nat): (r: u16)
    requires n <= 0x0FFF
    ensures Num16(r) == n
  {
    AsU16Exact(n);
    AsU16(n)
  }

  function AsU16(n: nat): u16
    requires n <= 0x0FFF
  {
    n as u16
  }

  lemma {:induction false} AsU16Exact(n: nat)
    requires n <= 0x0FFF
    ensures Num16(AsU16(n)) == n
  {
    hide Num16, AsU16;
    if n == 0 {
      ZeroU16();
      AsU16Denotes(0, 0);
    } else {
      AsU16Exact(n - 1);
      var before := AsU16(n - 1);
      SuccessorU16(before);
      AsU16Denotes(before + 1, n);
    }
  }

  lemma AsU16Denotes(x: u16, n: nat)
    requires Num16(x) == n <= 0x0FFF
    ensures AsU16(n) == x
  {
  }

  lemma ZeroU16()
    ensures Num16(0) == 0
  {
  }

  lemma SuccessorU16(x: u16)
    requires Num16(x) < 0x0FFF
    ensures Num16(x + 1) == Num16(x) + 1
  {
    assert x < 0x0FFF;
  }

  lemma Num16Injective(x: u16, y: u16)
    requires Num16(x) == Num16(y)
    ensures x == y
  {
    assert (x as int) as u16 == x;
    assert (y as int) as u16 == y;
  }

  lemma Num8Injective(x: u8, y: u8)
    requires Num8(x) == Num8(y)
    ensures x == y
  {
    assert (x as int) as u8 == x;
    assert (y as int) as u8 == y;
  }

  // ── Big-endian integers (`to_be_bytes` / `from_be_bytes`) ────────────────

  function Be32(x: u32): (b: Bytes)
    ensures |b| == 4
  {
    [(x >> 24) as u8, ((x >> 16) & 0xFF) as u8, ((x >> 8) & 0xFF) as u8, (x & 0xFF) as u8]
  }

  function FromBe32(b: Bytes): u32
    requires |b| == 4
  {
    (b[0] as u32 << 24) | (b[1] as u32 << 16) | (b[2] as u32 << 8) | b[3] as u32
  }

  function Be64(x: u64): (b: Bytes)
    ensures |b| == 8
  {
    Be32((x >> 32) as u32) + Be32((x & 0xFFFF_FFFF) as u32)
  }

  function FromBe64(b: Bytes): u64
    requires |b| == 8
  {
    (FromBe32(b[..4]) as u64 << 32) | FromBe32(b[4..]) as u64
  }

  lemma Be32RoundTrip(x: u32)
    ensures FromBe32(Be32(x)) == x
  {
  }

  lemma FromBe32RoundTrip(b: Bytes)
    requires |b| == 4
    ensures Be32(FromBe32(b)) == b
  {
  }

  lemma Join64(hi: u32, lo: u32)
    ensures (((hi as u64 << 32) | lo as u64) >> 32) as u32 == hi
    ensures (((hi as u64 << 32) | lo as u64) & 0xFFFF_FFFF) as u32 == lo
  {
  }

  lemma Split64(x: u64)
    ensures ((x >> 32) as u32 as u64 << 32) | ((x & 0xFFFF_FFFF) as u32 as u64) == x
  {
  }

  lemma Be64RoundTrip(x: u64)
    ensures FromBe64(Be64(x)) == x
  {
    var (hi, lo) := ((x >> 32) as u32, (x & 0xFFFF_FFFF) as u32);
    hide Be32, FromBe32;
    assert Be64(x)[..4] == Be32(hi) && Be64(x)[4..] == Be32(lo);
    Be32RoundTrip(hi);
    Be32RoundTrip(lo);
    Split64(x);
  }

  lemma FromBe64RoundTrip(b: Bytes)
    requires |b| == 8
    ensures Be64(FromBe64(b)) == b
  {
    hide Be32, FromBe32;
    FromBe32RoundTrip(b[..4]);
    FromBe32RoundTrip(b[4..]);
    Join64(FromBe32(b[..4]), FromBe32(b[4..]));
    assert b == b[..4] + b[4..];
  }

  lemma Be64Injective(x: u64, y: u64)
    requires Be64(x) == Be64(y)
    ensures x == y
  {
    Be64RoundTrip(x);
    Be64RoundTrip(y);
  }

  lemma Be32Injective(x: u32, y: u32)
    requires Be32(x) == Be32(y)
    ensures x == y
  {
    Be32RoundTrip(x);
    Be32RoundTrip(y);
  }

  function Zeros(n: nat): (b: Bytes)
    ensures |b| == n
    ensures forall i | 0 <= i < n :: b[i] == 0
  {
    seq(n, _ => 0)
  }

  /** A growable octet buffer that callers hand over by mutable reference. */
  class OctetBuffer {
    var bytes: Bytes

    constructor (initial: Bytes)
      ensures bytes == initial
    {
      bytes := initial;
    }
  }
}
