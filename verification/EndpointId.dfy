/** The printed form of an endpoint address: 16 hex digits, a dot, a decimal bus id. */
module EndpointId {
  import opened Octets
  import opened Avtp

  const SEPARATOR: char := '.'

  // ── Digits ───────────────────────────────────────────────────────────────

  type Nibble = x: u8 | x < 16

  function HexChar(d: Nibble): char {
    if d == 0 then '0' else if d == 1 then '1' else if d == 2 then '2' else if d == 3 then '3'
    else if d == 4 then '4' else if d == 5 then '5' else if d == 6 then '6' else if d == 7 then '7'
    else if d == 8 then '8' else if d == 9 then '9' else if d == 10 then 'a' else if d == 11 then 'b'
    else if d == 12 then 'c' else if d == 13 then 'd' else if d == 14 then 'e' else 'f'
  }

  /** A hex digit's value, either case. */
  function HexValue(c: char): Option<Nibble> {
    if c == '0' then Some(0) else if c == '1' then Some(1) else if c == '2' then Some(2)
    else if c == '3' then Some(3) else if c == '4' then Some(4) else if c == '5' then Some(5)
    else if c == '6' then Some(6) else if c == '7' then Some(7) else if c == '8' then Some(8)
    else if c == '9' then Some(9)
    else if c == 'a' || c == 'A' then Some(10) else if c == 'b' || c == 'B' then Some(11)
    else if c == 'c' || c == 'C' then Some(12) else if c == 'd' || c == 'D' then Some(13)
    else if c == 'e' || c == 'E' then Some(14) else if c == 'f' || c == 'F' then Some(15)
    else None
  }

  predicate IsLowerHex(c: char) {
    '0' <= c <= '9' || 'a' <= c <= 'f'
  }

  lemma HexCharRoundTrip(d: Nibble)
    ensures HexValue(HexChar(d)) == Some(d)
    ensures IsLowerHex(HexChar(d))
  {
  }

  function DecimalChar(d: nat): char
    requires d < 10
  {
    '0' + (d as char)
  }

  predicate IsDecimal(c: char) {
    '0' <= c <= '9'
  }

  function DecimalValue(c: char): (d: nat)
    requires IsDecimal(c)
    ensures d < 10
  {
    (c - '0') as nat
  }

  lemma DecimalCharRoundTrip(d: nat)
    requires d < 10
    ensures IsDecimal(DecimalChar(d)) && DecimalValue(DecimalChar(d)) == d
  {
  }

  lemma DecimalValueRoundTrip(c: char)
    requires IsDecimal(c)
    ensures DecimalChar(DecimalValue(c)) == c
  {
  }

  // ── Printing ─────────────────────────────────────────────────────────────

  function HighNibbles(x: u64): u64 {
    x >> 4
  }

  function LowNibble(x: u64): Nibble {
    (x & 0xF) as u8
  }

  /** The low `width` nibbles, most significant first, zero padded. */
  function HexDigits(x: u64, width: nat): (s: string)
    ensures |s| == width
    decreases width
  {
    if width == 0 then [] else HexDigits(HighNibbles(x), width - 1) + [HexChar(LowNibble(x))]
  }

  function Decimal(n: nat): (s: string)
    ensures |s| >= 1
  {
    if n < 10 then [DecimalChar(n)] else Decimal(n / 10) + [DecimalChar(n % 10)]
  }

  function FormatEndpointId(id: StreamId, byteBusId: Count16): string {
    HexDigits(ToU64(id), 16) + [SEPARATOR] + Decimal(byteBusId)
  }

  // ── Parsing ──────────────────────────────────────────────────────────────

  /** Cut at the first separator. */
  function SplitOnce(s: string): Option<(string, string)> {
    if s == [] then None
    else if s[0] == SEPARATOR then Some(([], s[1..]))
    else
      match SplitOnce(s[1..])
      case None => None
      case Some((front, back)) => Some(([s[0]] + front, back))
  }

  /** A leading plus sign is skipped when something follows it. */
  function SkipPlus(s: string): string {
    if |s| > 1 && s[0] == '+' then s[1..] else s
  }

  /** Multiply by sixteen and add, refusing to overflow 64 bits. */
  function PushHex(acc: u64, d: Nibble): Option<u64> {
    if acc >> 60 != 0 then None else Some((acc << 4) | d as u64)
  }

  function ReadHex(acc: u64, s: string): Option<u64>
    decreases |s|
  {
    if s == [] then Some(acc)
    else
      match HexValue(s[0])
      case None => None
      case Some(d) =>
        match PushHex(acc, d)
        case None => None
        case Some(next) => ReadHex(next, s[1..])
  }

  /** `u64::from_str_radix(s, 16)`. */
  function ParseHex(s: string): Option<u64> {
    if s == [] then None else ReadHex(0, SkipPlus(s))
  }

  function ReadDecimal(acc: nat, s: string): Option<nat>
    decreases |s|
  {
    if s == [] then Some(acc)
    else if !IsDecimal(s[0]) then None
    else if acc * 10 > 0xFFFF || acc * 10 + DecimalValue(s[0]) > 0xFFFF then None
    else ReadDecimal(acc * 10 + DecimalValue(s[0]), s[1..])
  }

  /** `str::parse::<u16>`. */
  function ParseDecimal(s: string): Option<nat> {
    if s == [] then None else ReadDecimal(0, SkipPlus(s))
  }

  function ParseEndpointId(s: string): Result<(StreamId, nat)> {
    match SplitOnce(s)
    case None => Err(InvalidParameter)
    case Some((hex, dec)) =>
      match ParseHex(hex)
      case None => Err(InvalidParameter)
      case Some(raw) =>
        match ParseDecimal(dec)
        case None => Err(InvalidParameter)
        case Some(busId) => Ok((FromU64(raw), busId))
  }

  // ── Print, then parse ────────────────────────────────────────────────────

  lemma {:induction false} SplitAtSeparator(front: string, back: string)
    requires SEPARATOR !in front
    ensures SplitOnce(front + [SEPARATOR] + back) == Some((front, back))
    decreases front
  {
    var s := front + [SEPARATOR] + back;
    if front == [] {
      assert s[1..] == back;
    } else {
      assert s[1..] == front[1..] + [SEPARATOR] + back;
      SplitAtSeparator(front[1..], back);
      assert front == [front[0]] + front[1..];
    }
  }

  lemma {:induction false} SplitOnceParts(s: string)
    requires SplitOnce(s).Some?
    ensures var (front, back) := SplitOnce(s).value;
            s == front + [SEPARATOR] + back && SEPARATOR !in front
    decreases |s|
  {
    if s[0] != SEPARATOR {
      SplitOnceParts(s[1..]);
      assert s == [s[0]] + s[1..];
    } else {
      assert s == [] + [SEPARATOR] + s[1..];
    }
  }

  lemma {:induction false} ReadHexAppend(acc: u64, s: string, c: char)
    ensures ReadHex(acc, s + [c]) ==
            match ReadHex(acc, s)
            case None => None
            case Some(x) => ReadHex(x, [c])
    decreases |s|
  {
    hide HexValue, PushHex;
    if s == [] {
      assert s + [c] == [c];
    } else {
      assert (s + [c])[1..] == s[1..] + [c];
      var d := HexValue(s[0]);
      if d.Some? {
        var next := PushHex(acc, d.value);
        if next.Some? {
          ReadHexAppend(next.value, s[1..], c);
        }
      }
    }
  }

  lemma ReadHexOne(acc: u64, c: char)
    ensures ReadHex(acc, [c]) == if HexValue(c).None? then None else PushHex(acc, HexValue(c).value)
  {
    hide HexValue, PushHex;
    if HexValue(c).Some? {
      var next := PushHex(acc, HexValue(c).value);
      if next.Some? {
        assert [c][1..] == [];
        assert ReadHex(next.value, []) == next;
      }
    }
  }

  /** The value needs at most `width` nibbles. */
  predicate FitsNibbles(x: u64, width: nat)
    decreases width
  {
    if width == 0 then x == 0 else FitsNibbles(HighNibbles(x), width - 1)
  }

  function DropFour(x: u64): u64 {
    x >> 16
  }

  lemma FourNibbles(x: u64)
    ensures HighNibbles(HighNibbles(HighNibbles(HighNibbles(x)))) == DropFour(x)
  {
  }

  lemma FitsFourMore(x: u64, width: nat)
    requires FitsNibbles(DropFour(x), width)
    ensures FitsNibbles(x, width + 4)
  {
    FourNibbles(x);
    hide HighNibbles, DropFour;
    var x1 := HighNibbles(x);
    var x2 := HighNibbles(x1);
    var x3 := HighNibbles(x2);
    assert FitsNibbles(x3, width + 1);
    assert FitsNibbles(x2, width + 2);
    assert FitsNibbles(x1, width + 3);
  }

  lemma AllDropped(x: u64)
    ensures DropFour(DropFour(DropFour(DropFour(x)))) == 0
  {
  }

  lemma ZeroFits()
    ensures FitsNibbles(0, 0)
  {
  }

  lemma EveryU64Fits(x: u64)
    ensures FitsNibbles(x, 16)
  {
    hide *;
    AllDropped(x);
    ZeroFits();
    var x1 := DropFour(x);
    var x2 := DropFour(x1);
    var x3 := DropFour(x2);
    FitsFourMore(x3, 0);
    FitsFourMore(x2, 4);
    FitsFourMore(x1, 8);
    FitsFourMore(x, 12);
  }

  lemma NibbleParts(x: u64)
    ensures PushHex(HighNibbles(x), LowNibble(x)) == Some(x)
  {
  }

  lemma {:induction false} ReadHexDigits(x: u64, width: nat)
    requires FitsNibbles(x, width)
    ensures ReadHex(0, HexDigits(x, width)) == Some(x)
    decreases width
  {
    hide HexValue, HexChar, PushHex, LowNibble, HighNibbles;
    if width == 0 {
    } else {
      ReadHexDigits(HighNibbles(x), width - 1);
      var (s, d) := (HexDigits(HighNibbles(x), width - 1), LowNibble(x));
      ReadHexAppend(0, s, HexChar(d));
      ReadHexOne(HighNibbles(x), HexChar(d));
      HexCharRoundTrip(d);
      NibbleParts(x);
    }
  }

  lemma {:induction false} HexDigitsLower(x: u64, width: nat)
    ensures forall i | 0 <= i < width :: IsLowerHex(HexDigits(x, width)[i])
    decreases width
  {
    hide HexChar, LowNibble, HighNibbles, IsLowerHex;
    if width == 0 {
    } else {
      HexDigitsLower(HighNibbles(x), width - 1);
      HexCharRoundTrip(LowNibble(x));
    }
  }

  lemma ParsePrintedHex(x: u64)
    ensures ParseHex(HexDigits(x, 16)) == Some(x)
    ensures SEPARATOR !in HexDigits(x, 16)
  {
    hide ReadHex, HexDigits, IsLowerHex;
    EveryU64Fits(x);
    ReadHexDigits(x, 16);
    HexDigitsLower(x, 16);
    var s := HexDigits(x, 16);
    forall i | 0 <= i < 16
      ensures s[i] != '+' && s[i] != SEPARATOR
    {
      LowerHexIsPlain(s[i]);
    }
  }

  lemma {:induction false} ReadDecimalAppend(acc: nat, s: string, c: char)
    ensures ReadDecimal(acc, s + [c]) ==
            match ReadDecimal(acc, s)
            case None => None
            case Some(x) => ReadDecimal(x, [c])
    decreases |s|
  {
    hide DecimalValue, IsDecimal;
    if s == [] {
      assert s + [c] == [c];
    } else {
      assert (s + [c])[1..] == s[1..] + [c];
      if IsDecimal(s[0]) && acc * 10 + DecimalValue(s[0]) <= 0xFFFF {
        ReadDecimalAppend(acc * 10 + DecimalValue(s[0]), s[1..], c);
      }
    }
  }

  lemma ReadDecimalOne(acc: nat, c: char)
    ensures ReadDecimal(acc, [c]) ==
            if IsDecimal(c) && acc * 10 + DecimalValue(c) <= 0xFFFF then Some(acc * 10 + DecimalValue(c)) else None
  {
    hide DecimalValue, IsDecimal;
    assert [c][1..] == [];
  }

  lemma {:induction false} ReadPrintedDecimal(n: nat)
    requires n <= 0xFFFF
    ensures ReadDecimal(0, Decimal(n)) == Some(n)
    ensures forall i | 0 <= i < |Decimal(n)| :: IsDecimal(Decimal(n)[i])
    ensures n > 0 ==> Decimal(n)[0] != '0'
    decreases n
  {
    hide DecimalValue, IsDecimal, DecimalChar;
    if n < 10 {
      DecimalCharRoundTrip(n);
      ReadDecimalOne(0, DecimalChar(n));
      NonzeroDigit(n);
    } else {
      ReadPrintedDecimal(n / 10);
      DecimalCharRoundTrip(n % 10);
      ReadDecimalAppend(0, Decimal(n / 10), DecimalChar(n % 10));
      ReadDecimalOne(n / 10, DecimalChar(n % 10));
    }
  }

  lemma NonzeroDigit(d: nat)
    requires d < 10
    ensures DecimalChar(d) == '0' <==> d == 0
  {
  }

  lemma ParsePrintedDecimal(n: nat)
    requires n <= 0xFFFF
    ensures ParseDecimal(Decimal(n)) == Some(n)
  {
    hide ReadDecimal, Decimal, DecimalValue;
    ReadPrintedDecimal(n);
    assert IsDecimal(Decimal(n)[0]);
  }

  /** Parsing the printed id of any stream id and bus id gives the pair back. */
  lemma PrintThenParse(id: StreamId, byteBusId: Count16)
    ensures ParseEndpointId(FormatEndpointId(id, byteBusId)) == Ok((id, byteBusId))
  {
    hide HexDigits, Decimal, ParseHex, ParseDecimal, SplitOnce, ToU64, FromU64;
    ParsePrintedHex(ToU64(id));
    ParsePrintedDecimal(byteBusId);
    SplitAtSeparator(HexDigits(ToU64(id), 16), Decimal(byteBusId));
    StreamIdBijection(id, 0);
  }

  /** Distinct pairs print differently. */
  lemma PrintInjective(id: StreamId, busId: Count16, other: StreamId, otherBusId: Count16)
    requires FormatEndpointId(id, busId) == FormatEndpointId(other, otherBusId)
    ensures id == other && busId == otherBusId
  {
    hide FormatEndpointId, ParseEndpointId;
    PrintThenParse(id, busId);
    PrintThenParse(other, otherBusId);
  }

  /** A printed id in full, with every hex digit, and every decimal digit in a second one. */
  lemma PrintedExamples()
    ensures FormatEndpointId(StreamId([0x01, 0x23, 0x45, 0x67, 0x89, 0xAB], 0xCDEF), 65432)
            == "0123456789abcdef.65432"
    ensures FormatEndpointId(StreamId([0x01, 0x23, 0x45, 0x67, 0x89, 0xAB], 0xCDEF), 10987)
            == "0123456789abcdef.10987"
  {
    HexExample();
    DecimalExamples();
    StreamIdExample();
    hide *;
    FormatIs(StreamId([0x01, 0x23, 0x45, 0x67, 0x89, 0xAB], 0xCDEF), 65432);
    FormatIs(StreamId([0x01, 0x23, 0x45, 0x67, 0x89, 0xAB], 0xCDEF), 10987);
    assert "0123456789abcdef" + ['.'] + "65432" == "0123456789abcdef.65432";
    assert "0123456789abcdef" + ['.'] + "10987" == "0123456789abcdef.10987";
  }

  lemma FormatIs(id: StreamId, byteBusId: Count16)
    ensures FormatEndpointId(id, byteBusId) == HexDigits(ToU64(id), 16) + ['.'] + Decimal(byteBusId)
  {
    hide HexDigits, Decimal, ToU64;
  }

  lemma StreamIdExample()
    ensures ToU64(StreamId([0x01, 0x23, 0x45, 0x67, 0x89, 0xAB], 0xCDEF)) == 0x0123_4567_89AB_CDEF
  {
    var mac: Mac := [0x01, 0x23, 0x45, 0x67, 0x89, 0xAB];
    assert mac[0] == 0x01 && mac[1] == 0x23 && mac[2] == 0x45 && mac[3] == 0x67 && mac[4] == 0x89 && mac[5] == 0xAB;
    assert BuildStreamId(mac, 0xCDEF) == 0x0123_4567_89AB_CDEF;
  }

  lemma HexExample()
    ensures HexDigits(0x0123_4567_89AB_CDEF, 16) == "0123456789abcdef"
  {
    FourDigits(0x0123_4567_89AB_CDEF, 12);
    FourDigits(0x0123_4567_89AB, 8);
    FourDigits(0x0123_4567, 4);
    FourDigits(0x0123, 0);
    DigitsOfWords();
    hide HexDigits, HexChar, LowNibble, DropFour;
  }

  /** The four lowest digits. */
  function LastFour(x: u64): string {
    [HexChar(LowNibble(x >> 12)), HexChar(LowNibble(x >> 8)), HexChar(LowNibble(x >> 4)), HexChar(LowNibble(x))]
  }

  lemma DigitsOfWords()
    ensures LastFour(0x0123_4567_89AB_CDEF) == "cdef" && DropFour(0x0123_4567_89AB_CDEF) == 0x0123_4567_89AB
    ensures LastFour(0x0123_4567_89AB) == "89ab" && DropFour(0x0123_4567_89AB) == 0x0123_4567
    ensures LastFour(0x0123_4567) == "4567" && DropFour(0x0123_4567) == 0x0123
    ensures LastFour(0x0123) == "0123" && DropFour(0x0123) == 0
  {
  }

  lemma FourDigits(x: u64, width: nat)
    ensures HexDigits(x, width + 4) == HexDigits(DropFour(x), width) + LastFour(x)
  {
    FourNibbles(x);
    ThreeShifts(x);
    hide HighNibbles, DropFour, HexChar, LowNibble;
    var x1 := HighNibbles(x);
    var x2 := HighNibbles(x1);
    var x3 := HighNibbles(x2);
    AppendFour(HexDigits(DropFour(x), width),
      HexChar(LowNibble(x3)), HexChar(LowNibble(x2)), HexChar(LowNibble(x1)), HexChar(LowNibble(x)));
    assert HexDigits(x2, width + 2) ==
           HexDigits(DropFour(x), width) + [HexChar(LowNibble(x3))] + [HexChar(LowNibble(x2))];
  }

  lemma AppendFour(p: string, a: char, b: char, c: char, d: char)
    ensures p + [a] + [b] + [c] + [d] == p + [a, b, c, d]
  {
  }

  lemma ThreeShifts(x: u64)
    ensures HighNibbles(x) == x >> 4
    ensures HighNibbles(HighNibbles(x)) == x >> 8
    ensures HighNibbles(HighNibbles(HighNibbles(x))) == x >> 12
  {
  }

  lemma DecimalExamples()
    ensures Decimal(65432) == "65432"
    ensures Decimal(10987) == "10987"
  {
    assert Decimal(6) == "6" && Decimal(65) == "65" && Decimal(654) == "654" && Decimal(6543) == "6543";
    assert Decimal(1) == "1" && Decimal(10) == "10" && Decimal(109) == "109" && Decimal(1098) == "1098";
  }

  // ── What the parser accepts ──────────────────────────────────────────────

  predicate IsHex(c: char) {
    '0' <= c <= '9' || 'a' <= c <= 'f' || 'A' <= c <= 'F'
  }

  predicate AllHex(s: string) {
    forall i | 0 <= i < |s| :: IsHex(s[i])
  }

  predicate AllDecimal(s: string) {
    forall i | 0 <= i < |s| :: IsDecimal(s[i])
  }

  /** Without its leading zeros. */
  function Significant(s: string): (t: string)
    ensures |t| <= |s| && (t != [] ==> t[0] != '0')
  {
    if s != [] && s[0] == '0' then Significant(s[1..]) else s
  }

  /** The number a decimal numeral denotes. */
  function Number(s: string): nat
    requires AllDecimal(s)
  {
    if s == [] then 0 else 10 * Number(s[..|s| - 1]) + DecimalValue(s[|s| - 1])
  }

  /** An optional plus sign, then at least one hex digit, at most 16 of them significant. */
  predicate HexText(s: string) {
    var digits := SkipPlus(s);
    digits != [] && AllHex(digits) && |Significant(digits)| <= 16
  }

  /** An optional plus sign, then at least one decimal digit, denoting at most 65535. */
  predicate DecimalText(s: string) {
    var digits := SkipPlus(s);
    digits != [] && AllDecimal(digits) && Number(digits) <= 0xFFFF
  }

  predicate FirstSeparator(s: string, i: nat) {
    i < |s| && s[i] == SEPARATOR && SEPARATOR !in s[..i]
  }

  /** The accepted texts: hex text, the first separator, decimal text. */
  ghost predicate Accepts(s: string) {
    exists i: nat :: FirstSeparator(s, i) && HexText(s[..i]) && DecimalText(s[i + 1..])
  }

  lemma HexValueIff(c: char)
    ensures HexValue(c).Some? <==> IsHex(c)
    ensures HexValue(c) == Some(0) <==> c == '0'
  {
  }

  lemma TopNibble(x: u64)
    ensures HighNibbles(HighNibbles(HighNibbles(DropFour(DropFour(DropFour(x)))))) == x >> 60
  {
  }

  lemma FourFewer(x: u64, width: nat)
    ensures FitsNibbles(x, width + 4) == FitsNibbles(DropFour(x), width)
  {
    FourNibbles(x);
    hide HighNibbles, DropFour;
    var x1 := HighNibbles(x);
    var x2 := HighNibbles(x1);
    var x3 := HighNibbles(x2);
    assert FitsNibbles(x, width + 4) == FitsNibbles(x1, width + 3);
    assert FitsNibbles(x1, width + 3) == FitsNibbles(x2, width + 2);
    assert FitsNibbles(x2, width + 2) == FitsNibbles(x3, width + 1);
  }

  /** There is room for one more hex digit exactly below 16 nibbles. */
  lemma PushHexIff(acc: u64, d: Nibble)
    ensures PushHex(acc, d).Some? <==> FitsNibbles(acc, 15)
  {
    TopNibble(acc);
    hide HighNibbles, DropFour;
    var x1 := DropFour(acc);
    var x2 := DropFour(x1);
    var x3 := DropFour(x2);
    FourFewer(acc, 11);
    FourFewer(x1, 7);
    FourFewer(x2, 3);
    var y1 := HighNibbles(x3);
    var y2 := HighNibbles(y1);
    assert FitsNibbles(x3, 3) == FitsNibbles(y1, 2);
    assert FitsNibbles(y1, 2) == FitsNibbles(y2, 1);
    assert FitsNibbles(y2, 1) == FitsNibbles(HighNibbles(y2), 0);
  }

  lemma HighOfZero()
    ensures HighNibbles(0) == 0
  {
  }

  lemma {:induction false} FitsWider(x: u64, width: nat, wider: nat)
    requires FitsNibbles(x, width) && width <= wider
    ensures FitsNibbles(x, wider)
    decreases wider
  {
    hide HighNibbles;
    HighOfZero();
    if wider == 0 {
    } else if width == 0 {
      FitsWider(0, 0, wider - 1);
    } else {
      FitsWider(HighNibbles(x), width - 1, wider - 1);
    }
  }

  /** Up to 16 characters are read exactly if all are hex digits and what was read before
      leaves room for them. */
  lemma {:induction false} ReadHexIff(acc: u64, s: string)
    requires |s| <= 16
    ensures ReadHex(acc, s).Some? <==> AllHex(s) && FitsNibbles(acc, 16 - |s|)
    decreases |s|
  {
    hide HexValue, PushHex, IsHex, HighNibbles;
    if s == [] {
      EveryU64Fits(acc);
    } else {
      HexValueIff(s[0]);
      assert AllHex(s) <==> IsHex(s[0]) && AllHex(s[1..]);
      if IsHex(s[0]) {
        var d := HexValue(s[0]).value;
        PushHexIff(acc, d);
        if PushHex(acc, d).Some? {
          PushHexParts(acc, d);
          ReadHexIff(PushHex(acc, d).value, s[1..]);
        } else if FitsNibbles(acc, 16 - |s|) {
          FitsWider(acc, 16 - |s|, 15);
        }
      }
    }
  }

  /** Sixteen characters or more do not fit behind a nonzero digit. */
  lemma {:induction false} ReadHexOverflows(acc: u64, s: string)
    requires acc != 0 && |s| >= 16
    ensures ReadHex(acc, s).None?
    decreases |s|
  {
    hide HexValue, PushHex;
    if |s| == 16 {
      ReadHexIff(acc, s);
    } else {
      var (front, c) := (s[..|s| - 1], s[|s| - 1]);
      assert s == front + [c];
      ReadHexAppend(acc, front, c);
      ReadHexOverflows(acc, front);
    }
  }

  lemma PushZero(d: Nibble)
    ensures PushHex(0, d).Some?
    ensures PushHex(0, d).value == 0 <==> d == 0
  {
  }

  /** What `from_str_radix` accepts after the sign. */
  lemma {:induction false} ReadHexSignificant(s: string)
    ensures ReadHex(0, s).Some? <==> AllHex(s) && |Significant(s)| <= 16
    decreases |s|
  {
    hide HexValue, PushHex, IsHex, FitsNibbles;
    if s != [] && s[0] == '0' {
      HexValueIff('0');
      PushZero(0);
      ReadHexSignificant(s[1..]);
      assert AllHex(s) <==> IsHex(s[0]) && AllHex(s[1..]);
    } else if |s| <= 16 {
      ReadHexIff(0, s);
      ZeroFits();
      FitsWider(0, 0, 16 - |s|);
    } else {
      HexValueIff(s[0]);
      if IsHex(s[0]) {
        PushZero(HexValue(s[0]).value);
        ReadHexOverflows(PushHex(0, HexValue(s[0]).value).value, s[1..]);
      }
    }
  }

  /** What `parse::<u16>` accepts after the sign, and the number it reads. */
  lemma {:induction false} ReadDecimalIs(s: string)
    ensures ReadDecimal(0, s) == if AllDecimal(s) && Number(s) <= 0xFFFF then Some(Number(s)) else None
    decreases |s|
  {
    hide DecimalValue, IsDecimal;
    if s == [] {
    } else {
      var (front, c) := (s[..|s| - 1], s[|s| - 1]);
      assert s == front + [c];
      assert AllDecimal(s) <==> AllDecimal(front) && IsDecimal(c);
      ReadDecimalIs(front);
      ReadDecimalAppend(0, front, c);
      if AllDecimal(front) && Number(front) <= 0xFFFF {
        ReadDecimalOne(Number(front), c);
      }
    }
  }

  lemma FirstSeparatorUnique(s: string, i: nat, j: nat)
    requires FirstSeparator(s, i) && FirstSeparator(s, j)
    ensures i == j
  {
  }

  /** Cutting finds the first separator, if there is one. */
  lemma SplitOnceIff(s: string, i: nat)
    requires FirstSeparator(s, i)
    ensures SplitOnce(s) == Some((s[..i], s[i + 1..]))
  {
    assert s == s[..i] + [SEPARATOR] + s[i + 1..];
    SplitAtSeparator(s[..i], s[i + 1..]);
  }

  /** The parser accepts exactly those texts, and reports every other as an invalid
      parameter. */
  lemma AcceptsIff(s: string)
    ensures ParseEndpointId(s).Ok? <==> Accepts(s)
    ensures ParseEndpointId(s).Err? ==> ParseEndpointId(s).error == InvalidParameter
  {
    hide ReadHex, ReadDecimal, HexText, DecimalText, SplitOnce, FromU64;
    if SplitOnce(s).Some? {
      SplitOnceParts(s);
      var i := |SplitOnce(s).value.0|;
      assert s[..i] == SplitOnce(s).value.0;
      assert FirstSeparator(s, i);
      SplitOnceIff(s, i);
      HexTextIff(s[..i]);
      DecimalTextIff(s[i + 1..]);
      forall j: nat | FirstSeparator(s, j)
        ensures j == i
      {
        FirstSeparatorUnique(s, i, j);
      }
    } else {
      forall j: nat | FirstSeparator(s, j)
        ensures false
      {
        SplitOnceIff(s, j);
      }
    }
  }

  lemma HexTextIff(s: string)
    ensures ParseHex(s).Some? <==> HexText(s)
  {
    hide ReadHex, AllHex, Significant;
    ReadHexSignificant(SkipPlus(s));
  }

  lemma DecimalTextIff(s: string)
    ensures ParseDecimal(s).Some? <==> DecimalText(s)
    ensures DecimalText(s) ==> ParseDecimal(s) == Some(Number(SkipPlus(s)))
  {
    hide ReadDecimal, AllDecimal, Number;
    ReadDecimalIs(SkipPlus(s));
  }

  // ── Where the parser departs from its documentation ──────────────────────

  /** The documented text: exactly 16 hex digits, the separator, and a decimal number of at
      most 65535. */
  predicate Documented(s: string) {
    && |s| > 17
    && AllHex(s[..16]) && s[16] == SEPARATOR
    && AllDecimal(s[17..]) && Number(s[17..]) <= 0xFFFF
  }

  /** The separator is where 16 digits would put it, and neither half starts with a plus. */
  predicate Plain(s: string) {
    |s| > 17 && s[16] == SEPARATOR && s[0] != '+' && s[17] != '+'
  }

  /** Every documented text is accepted; the parser accepts exactly the documented texts
      except for accepted ones whose separator stands elsewhere or whose halves have signs. */
  lemma DocumentedIff(s: string)
    ensures Documented(s) ==> ParseEndpointId(s).Ok?
    ensures (ParseEndpointId(s).Ok? <==> Documented(s)) <==> (Accepts(s) ==> Plain(s))
  {
    hide ParseEndpointId, Number, IsHex, IsDecimal, Significant;
    AcceptsIff(s);
    if Documented(s) {
      DigitsArePlain(s);
      assert FirstSeparator(s, 16);
    }
    if Accepts(s) && Plain(s) {
      var i: nat :| FirstSeparator(s, i) && HexText(s[..i]) && DecimalText(s[i + 1..]);
      OnlySeparator(s, i);
      assert i == 16;
    }
  }

  lemma DigitsArePlain(s: string)
    requires Documented(s)
    ensures Plain(s) && SEPARATOR !in s[..16] && HexText(s[..16]) && DecimalText(s[17..])
  {
    hide Number;
    assert IsHex(s[..16][0]) && IsDecimal(s[17..][0]);
    assert forall i | 0 <= i < 16 :: IsHex(s[..16][i]);
  }

  lemma OnlySeparator(s: string, i: nat)
    requires FirstSeparator(s, i) && DecimalText(s[i + 1..]) && Plain(s)
    ensures i == 16
  {
    hide DecimalText;
    assert i < 16 ==> s[16] == s[i + 1..][15 - i];
    DecimalHasNoSeparator(s[i + 1..]);
  }

  lemma DecimalHasNoSeparator(s: string)
    requires DecimalText(s)
    ensures SEPARATOR !in s
  {
    var digits := SkipPlus(s);
    assert s == digits || s == ['+'] + digits;
    assert forall j | 0 <= j < |digits| :: digits[j] != SEPARATOR;
  }

  /** Contrary to its documentation the parser does not insist on 16 hex digits. */
  lemma ShortIdAccepted()
    ensures ParseEndpointId("0.0").Ok? && !Documented("0.0")
  {
    var s := "0.0";
    assert s[..1] == "0" && s[2..] == "0";
    SplitOnceIff(s, 1);
    ReadHexOne(0, '0');
    ReadDecimalOne(0, '0');
    PushZero(0);
  }

  // ── Parse, then print ────────────────────────────────────────────────────

  function LowerChar(c: char): char {
    if 'A' <= c <= 'F' then (c - 'A') + 'a' else c
  }

  function Lowered(s: string): (t: string)
    ensures |t| == |s| && forall i | 0 <= i < |s| :: t[i] == LowerChar(s[i])
  {
    seq(|s|, i requires 0 <= i < |s| => LowerChar(s[i]))
  }

  function ZeroDigits(n: nat): (s: string)
    ensures |s| == n && forall i | 0 <= i < n :: s[i] == '0'
  {
    seq(n, _ => '0')
  }

  /** The printed form of a hex text: no sign, lower case, 16 digits. */
  function NormalHex(s: string): string
    requires HexText(s)
  {
    var digits := Significant(SkipPlus(s));
    ZeroDigits(16 - |digits|) + Lowered(digits)
  }

  /** The printed form of a decimal text: no sign, no leading zeros. */
  function NormalDecimal(s: string): string {
    var digits := Significant(SkipPlus(s));
    if digits == [] then "0" else digits
  }

  lemma HexCharLowers(c: char)
    requires IsHex(c)
    ensures HexValue(c).Some? && HexChar(HexValue(c).value) == LowerChar(c)
  {
  }

  lemma PushHexParts(y: u64, d: Nibble)
    requires PushHex(y, d).Some?
    ensures var x := PushHex(y, d).value;
            HighNibbles(x) == y && LowNibble(x) == d
  {
  }

  /** The value read needs no more nibbles than there were digits, and prints as them. */
  lemma {:induction false} HexReprints(s: string)
    requires AllHex(s) && ReadHex(0, s).Some?
    ensures FitsNibbles(ReadHex(0, s).value, |s|)
    ensures HexDigits(ReadHex(0, s).value, |s|) == Lowered(s)
    decreases |s|
  {
    hide HexValue, HexChar, PushHex, LowNibble, HighNibbles, IsHex, LowerChar;
    if s == [] {
    } else {
      var (front, c) := (s[..|s| - 1], s[|s| - 1]);
      assert s == front + [c];
      ReadHexAppend(0, front, c);
      var y := ReadHex(0, front).value;
      ReadHexOne(y, c);
      HexCharLowers(c);
      PushHexParts(y, HexValue(c).value);
      HexReprints(front);
      assert Lowered(s) == Lowered(front) + [LowerChar(c)];
    }
  }

  lemma {:induction false} ReadHexSkipsZeros(s: string)
    ensures ReadHex(0, Significant(s)) == ReadHex(0, s)
    ensures AllHex(s) ==> AllHex(Significant(s))
    decreases |s|
  {
    hide HexValue, PushHex, IsHex;
    if s != [] && s[0] == '0' {
      HexValueIff('0');
      PushZero(0);
      ReadHexSkipsZeros(s[1..]);
    }
  }

  lemma ZeroNibble()
    ensures HexChar(LowNibble(0)) == '0' && HighNibbles(0) == 0
  {
  }

  /** More width only adds zeros in front. */
  lemma {:induction false} HexDigitsWider(x: u64, width: nat, wider: nat)
    requires FitsNibbles(x, width) && width <= wider
    ensures HexDigits(x, wider) == ZeroDigits(wider - width) + HexDigits(x, width)
    decreases wider
  {
    hide HexChar, LowNibble, HighNibbles;
    if wider == 0 {
      assert ZeroDigits(0) == [];
    } else if width == 0 {
      ZeroNibble();
      HexDigitsWider(0, 0, wider - 1);
      assert ZeroDigits(wider) == ZeroDigits(wider - 1) + ['0'];
    } else {
      HexDigitsWider(HighNibbles(x), width - 1, wider - 1);
    }
  }

  lemma NormalHexPrinted(s: string)
    requires HexText(s)
    ensures ParseHex(s).Some? && HexDigits(ParseHex(s).value, 16) == NormalHex(s)
  {
    hide ReadHex, AllHex, Significant, HexDigits, FitsNibbles;
    var digits := Significant(SkipPlus(s));
    HexTextIff(s);
    ReadHexSkipsZeros(SkipPlus(s));
    HexReprints(digits);
    HexDigitsWider(ParseHex(s).value, |digits|, 16);
  }

  lemma {:induction false} NumberSkipsZero(s: string)
    requires s != [] && s[0] == '0' && AllDecimal(s)
    ensures Number(s) == Number(s[1..])
    decreases |s|
  {
    hide IsDecimal;
    if |s| == 1 {
      assert s[..0] == [] && s[1..] == [];
      assert DecimalValue('0') == 0;
    } else {
      hide DecimalValue;
      NumberSkipsZero(s[..|s| - 1]);
      assert s[..|s| - 1][1..] == s[1..][..|s| - 2];
    }
  }

  lemma {:induction false} NumberSkipsZeros(s: string)
    requires AllDecimal(s)
    ensures AllDecimal(Significant(s)) && Number(Significant(s)) == Number(s)
    decreases |s|
  {
    hide Number, IsDecimal;
    if s != [] && s[0] == '0' {
      NumberSkipsZero(s);
      NumberSkipsZeros(s[1..]);
    }
  }

  lemma {:induction false} DecimalReprints(s: string)
    requires s != [] && AllDecimal(s) && s[0] != '0'
    ensures Number(s) > 0 && Decimal(Number(s)) == s
    decreases |s|
  {
    hide DecimalValue, IsDecimal, DecimalChar;
    var (front, c) := (s[..|s| - 1], s[|s| - 1]);
    assert s == front + [c];
    DecimalValueRoundTrip(c);
    NonzeroDigit(DecimalValue(c));
    if front == [] {
      assert s == [c] && Number(front) == 0;
    } else {
      DecimalReprints(front);
    }
  }

  lemma NormalDecimalPrinted(s: string)
    requires DecimalText(s)
    ensures var digits := SkipPlus(s);
            AllDecimal(digits) && Decimal(Number(digits)) == NormalDecimal(s)
  {
    hide DecimalValue, IsDecimal;
    var digits := SkipPlus(s);
    NumberSkipsZeros(digits);
    if Significant(digits) == [] {
      ZeroPrints();
    } else {
      DecimalReprints(Significant(digits));
    }
  }

  lemma ZeroPrints()
    ensures Decimal(0) == "0"
  {
  }

  /** What an accepted text means: the pair it denotes prints as the text's normal form, in
      lower case, zero padded, and without signs or leading zeros in the decimal. */
  lemma ParseThenPrint(s: string, i: nat)
    requires FirstSeparator(s, i) && HexText(s[..i]) && DecimalText(s[i + 1..])
    ensures var r := ParseEndpointId(s);
            && r.Ok? && r.value.1 <= 0xFFFF
            && FormatEndpointId(r.value.0, r.value.1) == NormalHex(s[..i]) + [SEPARATOR] + NormalDecimal(s[i + 1..])
  {
    hide HexDigits, Decimal, ParseHex, ParseDecimal, ToU64, FromU64, SplitOnce, NormalHex, NormalDecimal, HexText;
    var (h, d) := (s[..i], s[i + 1..]);
    SplitOnceIff(s, i);
    NormalHexPrinted(h);
    DecimalTextIff(d);
    NormalDecimalPrinted(d);
    StreamIdBijection(StreamId([0, 0, 0, 0, 0, 0], 0), ParseHex(h).value);
  }

  /** The printed shape: exactly 16 lower-case hex digits, the separator, and a decimal number
      of at most 65535 without sign or leading zeros. */
  predicate Canonical(s: string) {
    && |s| > 17
    && (forall i | 0 <= i < 16 :: IsLowerHex(s[i]))
    && s[16] == SEPARATOR
    && AllDecimal(s[17..]) && Number(s[17..]) <= 0xFFFF
    && (s[17] == '0' ==> |s| == 18)
  }

  lemma PrintedIsCanonical(id: StreamId, byteBusId: Count16)
    ensures Canonical(FormatEndpointId(id, byteBusId))
  {
    hide HexDigits, Decimal, ReadDecimal, Number, ToU64, IsLowerHex, IsDecimal;
    var (h, d) := (HexDigits(ToU64(id), 16), Decimal(byteBusId));
    var s := FormatEndpointId(id, byteBusId);
    HexDigitsLower(ToU64(id), 16);
    ReadPrintedDecimal(byteBusId);
    ReadDecimalIs(d);
    ZeroPrints();
    assert forall i | 0 <= i < 16 :: s[i] == h[i];
    assert s[17..] == d;
  }

  /** Parsing and then printing gives a text back exactly when it has the printed shape. */
  lemma ParseThenPrintIff(s: string)
    ensures ParseEndpointId(s).Ok? ==> ParseEndpointId(s).value.1 <= 0xFFFF
    ensures ParseEndpointId(s).Ok? && FormatEndpointId(ParseEndpointId(s).value.0, ParseEndpointId(s).value.1) == s
            <==> Canonical(s)
  {
    hide ParseEndpointId, FormatEndpointId, HexText, DecimalText, NormalHex, NormalDecimal;
    AcceptsIff(s);
    if ParseEndpointId(s).Ok? {
      var i: nat :| FirstSeparator(s, i) && HexText(s[..i]) && DecimalText(s[i + 1..]);
      ParseThenPrint(s, i);
      PrintedIsCanonical(ParseEndpointId(s).value.0, ParseEndpointId(s).value.1);
    }
    if Canonical(s) {
      CanonicalReprints(s);
    }
  }

  lemma CanonicalReprints(s: string)
    requires Canonical(s)
    ensures ParseEndpointId(s).Ok? && ParseEndpointId(s).value.1 <= 0xFFFF
    ensures FormatEndpointId(ParseEndpointId(s).value.0, ParseEndpointId(s).value.1) == s
  {
    hide ParseEndpointId, FormatEndpointId, IsHex, IsLowerHex, IsDecimal, LowerChar, Number;
    var (h, d) := (s[..16], s[17..]);
    assert s == h + [SEPARATOR] + d;
    forall i | 0 <= i < 16
      ensures IsHex(h[i]) && LowerChar(h[i]) == h[i] && h[i] != SEPARATOR && h[i] != '+'
    {
      assert IsLowerHex(s[i]);
      LowerHexIsPlain(h[i]);
    }
    PlusIsNoDigit(d[0]);
    assert SkipPlus(h) == h && SkipPlus(d) == d;
    assert FirstSeparator(s, 16);
    ParseThenPrint(s, 16);
    NormalOfLowered(h);
    if d[0] == '0' {
      assert d == "0" && Significant(d) == Significant(d[1..]) == [];
    }
  }

  lemma {:induction false} NormalOfLowered(s: string)
    requires forall i | 0 <= i < |s| :: LowerChar(s[i]) == s[i]
    ensures var t := Significant(s);
            ZeroDigits(|s| - |t|) + Lowered(t) == s
    decreases |s|
  {
    hide LowerChar;
    if s != [] && s[0] == '0' {
      NormalOfLowered(s[1..]);
      var t := Significant(s[1..]);
      assert ZeroDigits(|s| - |t|) == ['0'] + ZeroDigits(|s| - 1 - |t|);
      assert s == [s[0]] + s[1..];
    } else {
      assert ZeroDigits(0) == [];
      assert Lowered(s) == s;
    }
  }

  lemma LowerHexIsPlain(c: char)
    requires IsLowerHex(c)
    ensures IsHex(c) && LowerChar(c) == c && c != '+' && c != SEPARATOR
  {
  }

  lemma PlusIsNoDigit(c: char)
    requires IsDecimal(c)
    ensures c != '+'
  {
  }
}
