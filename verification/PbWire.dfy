/** The wire level of Protocol Buffers: base 128 varints, tags, and skipping. */
module PbWire {
  import opened Common

  const TWO32 := 0x1_0000_0000
  const TWO64 := 0x1_0000_0000_0000_0000

  function Pow128(k: nat): nat { if k == 0 then 1 else 128 * Pow128(k - 1) }

  // ---- Writing.

  function EncVarint(n: nat): (r: seq<byte>)
    ensures |r| >= 1
  {
    if n < 128 then [n] else [n % 128 + 128] + EncVarint(n / 128)
  }

  // ---- Reading. A reader returns the value and the bytes it leaves, or None.

  /** The 64-bit reader after k bytes; result holds their payload. */
  function Dec64From(bytes: seq<byte>, k: nat, result: nat): (r: Option<(nat, seq<byte>)>)
    ensures r.Some? ==> |r.value.1| < |bytes|
    decreases |bytes|
  {
    if k >= 10 || bytes == [] then None
    else
      var next := result + (bytes[0] % 128 * Pow128(k)) % TWO64;
      if bytes[0] < 128 then Some((next, bytes[1..])) else Dec64From(bytes[1..], k + 1, next)
  }

  function Dec64(bytes: seq<byte>): (r: Option<(nat, seq<byte>)>)
    ensures r.Some? ==> |r.value.1| < |bytes|
  { Dec64From(bytes, 0, 0) }

  /** The 32-bit reader after k >= 1 bytes. It tolerates zero padding and the sign extension of a negative 32-bit
      number; anything else beyond bit 31 is an overflow. */
  function Dec32From(bytes: seq<byte>, k: nat, result: nat): (r: Option<(nat, seq<byte>)>)
    requires k >= 1
    ensures r.Some? ==> |r.value.1| < |bytes|
    decreases |bytes|
  {
    if bytes == [] then None
    else
      var b := bytes[0];
      if k >= 5 && b % 128 != 0 && (result < 0x8000_0000 || b != (if k < 9 then 0xFF else 0x01)) then None
      else
        var next := if k >= 5 then result else result + (b % 128 * Pow128(k)) % TWO32;
        if b >= 128 then Dec32From(bytes[1..], k + 1, next)
        else if k == 4 && (b / 16) % 8 != 0 then None
        else Some((next, bytes[1..]))
  }

  function Dec32(bytes: seq<byte>): (r: Option<(nat, seq<byte>)>)
    ensures r.Some? ==> |r.value.1| < |bytes|
  {
    if bytes == [] then None
    else if bytes[0] < 128 then Some((bytes[0], bytes[1..]))
    else Dec32From(bytes[1..], 1, bytes[0] % 128)
  }

  // ---- Tags.

  datatype WireType = WtVarint | Wt64Bit | WtString | Wt32Bit | WtInvalid

  function WireCode(w: WireType): nat {
    match w case WtVarint => 0 case Wt64Bit => 1 case WtString => 2 case Wt32Bit => 5 case WtInvalid => 7
  }

  function WireOf(code: nat): WireType {
    if code == 0 then WtVarint else if code == 1 then Wt64Bit else if code == 2 then WtString
    else if code == 5 then Wt32Bit else WtInvalid
  }

  function EncTag(tag: nat, w: WireType): seq<byte> { EncVarint(8 * tag + WireCode(w)) }

  /** A zero tag ends a message early, like the end of the stream. */
  datatype TagResult = TagEnd(rest: seq<byte>) | TagError | Tag(tag: nat, wire: WireType, rest: seq<byte>)

  function DecTag(bytes: seq<byte>): (r: TagResult)
    ensures r.Tag? ==> |r.rest| < |bytes|
  {
    if bytes == [] then TagEnd([])
    else
      var r := Dec32(bytes);
      if r.None? then TagError
      else if r.value.0 == 0 then TagEnd(r.value.1)
      else Tag(r.value.0 / 8, WireOf(r.value.0 % 8), r.value.1)
  }

  // ---- Skipping.

  function SkipBytes(bytes: seq<byte>, n: nat): Option<seq<byte>> {
    if |bytes| < n then None else Some(bytes[n..])
  }

  function SkipVarint(bytes: seq<byte>): (r: Option<seq<byte>>)
    ensures r.Some? ==> |r.value| < |bytes|
    decreases |bytes|
  {
    if bytes == [] then None else if bytes[0] < 128 then Some(bytes[1..]) else SkipVarint(bytes[1..])
  }

  function SkipField(bytes: seq<byte>, w: WireType): (r: Option<seq<byte>>)
    ensures r.Some? ==> |r.value| <= |bytes|
  {
    match w
    case WtVarint => SkipVarint(bytes)
    case Wt64Bit => SkipBytes(bytes, 8)
    case WtString => var r := Dec32(bytes); if r.None? then None else SkipBytes(r.value.1, r.value.0)
    case Wt32Bit => SkipBytes(bytes, 4)
    case WtInvalid => None
  }

  // ---- Round trips.

  lemma PowerValues()
    ensures Pow128(0) == 1 && Pow128(1) == 128 && Pow128(2) == 16384 && Pow128(3) == 2097152
    ensures Pow128(4) == 268435456 && Pow128(5) == 34359738368
    ensures Pow128(6) == 4398046511104 && Pow128(7) == 562949953421312
    ensures Pow128(8) == 72057594037927936 && Pow128(9) == 9223372036854775808
  {
    assert Pow128(2) == 128 * Pow128(1);
    assert Pow128(4) == 128 * Pow128(3);
    assert Pow128(6) == 128 * Pow128(5);
    assert Pow128(8) == 128 * Pow128(7);
  }

  lemma SplitDigits(n: nat, p: nat)
    ensures n * p == (n % 128) * p + (n / 128) * (128 * p)
  {
    assert n == n % 128 + 128 * (n / 128);
    assert n * p == (n % 128 + 128 * (n / 128)) * p;
  }

  lemma DigitFits(n: nat, p: nat, limit: nat)
    requires n * p < limit
    ensures (n % 128) * p < limit && (n / 128) * (128 * p) < limit
  {
    SplitDigits(n, p);
  }

  lemma Dec64Step(n: nat, k: nat, result: nat, rest: seq<byte>)
    requires n * Pow128(k) < TWO64 && k <= 9
    ensures n < 128 ==> Dec64From(EncVarint(n) + rest, k, result) == Some((result + n * Pow128(k), rest))
    ensures n >= 128 ==> Dec64From(EncVarint(n) + rest, k, result) ==
                         Dec64From(EncVarint(n / 128) + rest, k + 1, result + n % 128 * Pow128(k))
  {
    hide Pow128;
    DigitFits(n, Pow128(k), TWO64);
    assert (EncVarint(n) + rest)[1..] == if n < 128 then rest else EncVarint(n / 128) + rest;
  }

  lemma PowStep(k: nat)
    ensures Pow128(k + 1) == 128 * Pow128(k)
  {}

  lemma {:induction false} Dec64Encoded(n: nat, k: nat, result: nat, rest: seq<byte>)
    requires n * Pow128(k) < TWO64 && k <= 9 && (n == 0 ==> k == 0)
    ensures Dec64From(EncVarint(n) + rest, k, result) == Some((result + n * Pow128(k), rest))
    decreases n
  {
    hide Pow128, Dec64From, EncVarint;
    Dec64Step(n, k, result, rest);
    if n < 128 {
    } else {
      SplitDigits(n, Pow128(k));
      LastPower(n, k);
      PowStep(k);
      DigitFits(n, Pow128(k), TWO64);
      Dec64Encoded(n / 128, k + 1, result + n % 128 * Pow128(k), rest);
    }
  }

  lemma AtLeast128(n: nat, p: nat)
    requires n >= 128
    ensures n * p >= 128 * p
  {}

  /** A number that still needs a byte after digit k cannot be at the last digit. */
  lemma LastPower(n: nat, k: nat)
    requires n >= 128 && n * Pow128(k) < TWO64 && k <= 9
    ensures k < 9
  {
    PowerValues();
    AtLeast128(n, Pow128(k));
  }

  /** Every 64-bit value survives the varint round trip, with whatever follows left untouched. */
  lemma Varint64RoundTrip(n: nat, rest: seq<byte>)
    requires n < TWO64
    ensures Dec64(EncVarint(n) + rest) == Some((n, rest))
  {
    Dec64Encoded(n, 0, 0, rest);
  }

  lemma Dec32Last(b: byte, k: nat, result: nat, rest: seq<byte>)
    requires b < 128 && b * Pow128(k) < TWO32 && 1 <= k <= 4 && (k == 4 ==> b < 16)
    ensures Dec32From([b] + rest, k, result) == Some((result + b * Pow128(k), rest))
  {
    hide Pow128;
    assert ([b] + rest)[1..] == rest && ([b] + rest)[0] == b;
  }

  lemma Dec32LowByte(b: byte, k: nat, result: nat, rest: seq<byte>)
    requires b >= 128 && 1 <= k <= 4
    ensures Dec32From([b] + rest, k, result) == Dec32From(rest, k + 1, result + (b - 128) * Pow128(k) % TWO32)
  {
    hide Pow128;
    assert ([b] + rest)[1..] == rest && ([b] + rest)[0] == b;
    assert b % 128 == b - 128;
  }

  /** One byte of the first five, when more follow. */
  lemma Dec32Low(n: nat, k: nat, result: nat, rest: seq<byte>)
    requires n >= 128 && 1 <= k <= 4
    ensures Dec32From(EncVarint(n) + rest, k, result) ==
            Dec32From(EncVarint(n / 128) + rest, k + 1, result + n % 128 * Pow128(k) % TWO32)
  {
    hide Pow128, Dec32From;
    var b: byte := n % 128 + 128;
    assert EncVarint(n) + rest == [b] + (EncVarint(n / 128) + rest);
    Dec32LowByte(b, k, result, EncVarint(n / 128) + rest);
  }

  lemma SmallWord(x: nat)
    requires x < TWO32
    ensures x % TWO32 == x
  {}

  lemma Dec32Step(n: nat, k: nat, result: nat, rest: seq<byte>)
    requires n * Pow128(k) < TWO32 && 1 <= k <= 4 && (k == 4 ==> n < 16)
    ensures n < 128 ==> Dec32From(EncVarint(n) + rest, k, result) == Some((result + n * Pow128(k), rest))
    ensures n >= 128 ==> Dec32From(EncVarint(n) + rest, k, result) ==
                         Dec32From(EncVarint(n / 128) + rest, k + 1, result + n % 128 * Pow128(k))
  {
    hide Pow128, Dec32From, EncVarint;
    DigitFits(n, Pow128(k), TWO32);
    if n < 128 {
      SmallVarint(n);
      Dec32Last(n, k, result, rest);
    } else {
      SmallWord(n % 128 * Pow128(k));
      Dec32Low(n, k, result, rest);
    }
  }

  lemma TopDigit(n: nat, k: nat)
    requires n * Pow128(k) < TWO32 && 1 <= k <= 4
    ensures k == 4 ==> n < 16
  {
    PowerValues();
  }

  lemma {:induction false} Dec32Encoded(n: nat, k: nat, result: nat, rest: seq<byte>)
    requires n * Pow128(k) < TWO32 && 1 <= k <= 4
    ensures Dec32From(EncVarint(n) + rest, k, result) == Some((result + n * Pow128(k), rest))
    decreases n
  {
    hide Pow128, Dec32From, EncVarint;
    TopDigit(n, k);
    Dec32Step(n, k, result, rest);
    if n < 128 {
    } else {
      SplitDigits(n, Pow128(k));
      PowStep(k);
      DigitFits(n, Pow128(k), TWO32);
      Dec32Encoded(n / 128, k + 1, result + n % 128 * Pow128(k), rest);
    }
  }

  lemma Varint32RoundTrip(n: nat, rest: seq<byte>)
    requires n < TWO32
    ensures Dec32(EncVarint(n) + rest) == Some((n, rest))
  {
    hide Dec32From;
    if n < 128 {
      assert (EncVarint(n) + rest)[1..] == rest;
    } else {
      assert (EncVarint(n) + rest)[1..] == EncVarint(n / 128) + rest;
      assert Pow128(1) == 128;
      Dec32Encoded(n / 128, 1, n % 128, rest);
    }
  }

  // ---- What the 32-bit reader makes of larger numbers.

  /** Seven-bit groups from number k on that pass for a sign extension: all zeros or all ones each, and the topmost
      just bit 63. */
  predicate SignLike(v: nat, k: nat)
    requires 5 <= k <= 9
    decreases 9 - k
  {
    if k == 9 then v == 1 else (v % 128 == 0 || v % 128 == 127) && SignLike(v / 128, k + 1)
  }

  lemma Dec32Group(v: nat, k: nat, result: nat, rest: seq<byte>)
    requires 128 <= v && 5 <= k < 9
    ensures Dec32From(EncVarint(v) + rest, k, result) ==
            if v % 128 == 0 || (result >= 0x8000_0000 && v % 128 == 127)
            then Dec32From(EncVarint(v / 128) + rest, k + 1, result) else None
  {
    hide Dec32From;
    var b: byte := v % 128 + 128;
    assert EncVarint(v) + rest == [b] + (EncVarint(v / 128) + rest);
    Dec32Padding(b, k, result, EncVarint(v / 128) + rest);
  }

  lemma Dec32Padding(b: byte, k: nat, result: nat, rest: seq<byte>)
    requires b >= 128 && 5 <= k < 9
    ensures Dec32From([b] + rest, k, result) ==
            if b == 128 || (result >= 0x8000_0000 && b == 0xFF) then Dec32From(rest, k + 1, result) else None
  {
    hide Pow128;
    assert ([b] + rest)[1..] == rest && ([b] + rest)[0] == b;
  }

  lemma Dec32Top(b: byte, k: nat, result: nat, rest: seq<byte>)
    requires 0 < b < 128 && 5 <= k <= 9
    ensures Dec32From([b] + rest, k, result) ==
            if result >= 0x8000_0000 && k == 9 && b == 1 then Some((result, rest)) else None
  {
    hide Pow128;
    assert ([b] + rest)[1..] == rest && ([b] + rest)[0] == b;
  }

  lemma SmallNotSignLike(v: nat, k: nat)
    requires v < 128 && 5 <= k < 9
    ensures !SignLike(v, k)
    decreases 9 - k
  {
    if 8 <= k {
    } else {
      SmallNotSignLike(0, k + 1);
    }
  }

  lemma {:induction false} Dec32Tail(v: nat, k: nat, result: nat, rest: seq<byte>)
    requires 5 <= k <= 9 && 0 < v && (k == 9 ==> v < 128)
    requires k < 9 ==> v * Pow128(k) < TWO64
    ensures Dec32From(EncVarint(v) + rest, k, result) ==
            if result >= 0x8000_0000 && SignLike(v, k) then Some((result, rest)) else None
    decreases v
  {
    hide Pow128, Dec32From, EncVarint;
    if v < 128 {
      SmallVarint(v);
      Dec32Top(v, k, result, rest);
      if k < 9 { SmallNotSignLike(v, k); }
    } else {
      Dec32Group(v, k, result, rest);
      PowStep(k);
      DigitFits(v, Pow128(k), TWO64);
      PowerValues();
      Dec32Tail(v / 128, k + 1, result, rest);
    }
  }

  lemma SmallVarint(n: nat)
    requires n < 128
    ensures EncVarint(n) == [n]
  {}

  lemma Dec32Fifth(b: byte, result: nat, rest: seq<byte>)
    requires 16 <= b < 128
    ensures Dec32From([b] + rest, 4, result) == None
  {
    hide Pow128;
    assert ([b] + rest)[1..] == rest && ([b] + rest)[0] == b;
  }

  lemma SecondGroup(n: nat)
    ensures n / 128 / 128 == n / 16384 && n % 128 + n / 128 % 128 * 128 % TWO32 == n % 16384
  {}

  lemma ThirdGroup(n: nat)
    ensures n / 16384 / 128 == n / 2097152 && n % 16384 + n / 16384 % 128 * 16384 % TWO32 == n % 2097152
  {}

  lemma FourthGroup(n: nat)
    ensures n / 2097152 / 128 == n / 268435456 && n % 2097152 + n / 2097152 % 128 * 2097152 % TWO32 == n % 268435456
  {}

  lemma Word32(q: nat, r: nat)
    requires r < TWO32
    ensures (TWO32 * q + r) % TWO32 == r
  {}

  lemma LowNibble(e: nat)
    ensures e % 128 % 16 == e % 16
  {}

  lemma FifthGroup(n: nat)
    ensures n / 268435456 / 128 == n / 0x8_0000_0000
    ensures n % 268435456 + n / 268435456 % 128 * 268435456 % TWO32 == n % TWO32
  {
    var d := n / 268435456;
    var e := d % 128;
    LowNibble(d);
    Word32(e / 16, e % 16 * 268435456);
    Word32(d / 16, n % 268435456 + d % 16 * 268435456);
    assert e * 268435456 == TWO32 * (e / 16) + e % 16 * 268435456;
    assert n == TWO32 * (d / 16) + (n % 268435456 + d % 16 * 268435456);
  }

  /** The first four groups of a number of at least five. */
  lemma Dec32Head(n: nat, rest: seq<byte>)
    requires n >= 268435456
    ensures Dec32(EncVarint(n) + rest) == Dec32From(EncVarint(n / 268435456) + rest, 4, n % 268435456)
  {
    hide Dec32From, Pow128;
    PowerValues();
    assert (EncVarint(n) + rest)[1..] == EncVarint(n / 128) + rest;
    hide EncVarint;
    SecondGroup(n);
    Dec32Low(n / 128, 1, n % 128, rest);
    ThirdGroup(n);
    Dec32Low(n / 16384, 2, n % 16384, rest);
    FourthGroup(n);
    Dec32Low(n / 2097152, 3, n % 2097152, rest);
  }

  /** Exactly which 64-bit numbers the 32-bit reader takes, and as what: those of 32 bits as they are; of the others,
      those with bit 31 set whose groups above bit 35 pass for a sign extension, as their low 32 bits. Bits 32 to 34
      are never looked at. */
  lemma Varint32Condition(n: nat, rest: seq<byte>)
    requires n < TWO64
    ensures Dec32(EncVarint(n) + rest) ==
            if n < TWO32 then Some((n, rest))
            else if n % TWO32 >= 0x8000_0000 && SignLike(n / 0x8_0000_0000, 5) then Some((n % TWO32, rest))
            else None
  {
    hide Dec32, Dec32From, EncVarint, SignLike, Pow128;
    if n < TWO32 {
      Varint32RoundTrip(n, rest);
    } else {
      Dec32Head(n, rest);
      PowerValues();
      if n < 0x8_0000_0000 {
        SmallVarint(n / 268435456);
        Dec32Fifth(n / 268435456, n % 268435456, rest);
        SmallNotSignLike(0, 5);
      } else {
        FifthGroup(n);
        Dec32Low(n / 268435456, 4, n % 268435456, rest);
        Dec32Tail(n / 0x8_0000_0000, 5, n % TWO32, rest);
      }
    }
  }

  /** The 64-bit form of a negative 32-bit number. */
  predicate SignExtension(n: nat) { TWO64 - 0x8000_0000 <= n < TWO64 }

  lemma AllOnes()
    ensures SignLike(0x1FFF_FFFF, 5)
  {
    assert SignLike(1, 9);
    assert SignLike(0xFF, 8);
    assert SignLike(0x7FFF, 7);
    assert SignLike(0x3F_FFFF, 6);
  }

  lemma SignExtensionTaken(n: nat, rest: seq<byte>)
    requires SignExtension(n)
    ensures Dec32(EncVarint(n) + rest) == Some((n % TWO32, rest))
  {
    hide EncVarint, Dec32, SignLike;
    AllOnes();
    assert n / 0x8_0000_0000 == 0x1FFF_FFFF;
    Varint32Condition(n, rest);
  }

  /** A number that is neither 32 bits long nor a sign extension, and is read as a negative one all the same. */
  lemma OtherNumberTaken(rest: seq<byte>)
    ensures var n := 0xFFFF_FFF8_8000_0000;
            n >= TWO32 && !SignExtension(n) && Dec32(EncVarint(n) + rest) == Some((0x8000_0000, rest))
  {
    hide EncVarint, Dec32, SignLike;
    AllOnes();
    Varint32Condition(0xFFFF_FFF8_8000_0000, rest);
  }

  lemma TagRoundTrip(tag: nat, w: WireType, rest: seq<byte>)
    requires 0 < tag && 8 * tag + 7 < TWO32 && w != WtInvalid
    ensures DecTag(EncTag(tag, w) + rest) == Tag(tag, w, rest)
  {
    Varint32RoundTrip(8 * tag + WireCode(w), rest);
  }

  lemma {:induction false} SkipVarintEncoded(n: nat, rest: seq<byte>)
    ensures SkipVarint(EncVarint(n) + rest) == Some(rest)
  {
    if n < 128 {
      assert (EncVarint(n) + rest)[1..] == rest;
    } else {
      assert (EncVarint(n) + rest)[1..] == EncVarint(n / 128) + rest;
      SkipVarintEncoded(n / 128, rest);
    }
  }

  lemma {:induction false} VarintSize(n: nat, limit: nat)
    requires n < Pow128(limit) && limit >= 1
    ensures |EncVarint(n)| <= limit
  {
    if n < 128 {
    } else {
      VarintSize(n / 128, limit - 1);
    }
  }

  // ---- What is read does not depend on what follows.

  lemma {:induction false} Dec64Stable(bytes: seq<byte>, k: nat, result: nat, tail: seq<byte>)
    requires Dec64From(bytes, k, result).Some?
    ensures var r := Dec64From(bytes, k, result).value;
            Dec64From(bytes + tail, k, result) == Some((r.0, r.1 + tail))
    decreases |bytes|
  {
    hide Pow128;
    assert (bytes + tail)[1..] == bytes[1..] + tail;
    if bytes[0] < 128 {
    } else {
      Dec64Stable(bytes[1..], k + 1, result + (bytes[0] % 128 * Pow128(k)) % TWO64, tail);
    }
  }

  lemma {:induction false} Dec32FromStable(bytes: seq<byte>, k: nat, result: nat, tail: seq<byte>)
    requires k >= 1 && Dec32From(bytes, k, result).Some?
    ensures var r := Dec32From(bytes, k, result).value;
            Dec32From(bytes + tail, k, result) == Some((r.0, r.1 + tail))
    decreases |bytes|
  {
    hide Pow128;
    assert (bytes + tail)[1..] == bytes[1..] + tail;
    if bytes[0] < 128 {
    } else {
      var result' := if k >= 5 then result else result + (bytes[0] % 128 * Pow128(k)) % TWO32;
      Dec32FromStable(bytes[1..], k + 1, result', tail);
    }
  }

  lemma Dec32Stable(bytes: seq<byte>, tail: seq<byte>)
    requires Dec32(bytes).Some?
    ensures var r := Dec32(bytes).value; Dec32(bytes + tail) == Some((r.0, r.1 + tail))
  {
    assert (bytes + tail)[1..] == bytes[1..] + tail;
    if bytes[0] >= 128 { Dec32FromStable(bytes[1..], 1, bytes[0] % 128, tail); }
  }

  lemma {:induction false} SkipVarintStable(bytes: seq<byte>, tail: seq<byte>)
    requires SkipVarint(bytes).Some?
    ensures SkipVarint(bytes + tail) == Some(SkipVarint(bytes).value + tail)
    decreases |bytes|
  {
    assert (bytes + tail)[1..] == bytes[1..] + tail;
    if bytes[0] < 128 {
    } else {
      SkipVarintStable(bytes[1..], tail);
    }
  }

  lemma SkipBytesStable(bytes: seq<byte>, n: nat, tail: seq<byte>)
    requires n <= |bytes|
    ensures SkipBytes(bytes + tail, n) == Some(bytes[n..] + tail)
  {
    assert (bytes + tail)[n..] == bytes[n..] + tail;
  }

  lemma SkipFieldStable(bytes: seq<byte>, w: WireType, tail: seq<byte>)
    requires SkipField(bytes, w).Some?
    ensures SkipField(bytes + tail, w) == Some(SkipField(bytes, w).value + tail)
  {
    match w {
      case WtVarint => SkipVarintStable(bytes, tail);
      case Wt64Bit => SkipBytesStable(bytes, 8, tail);
      case WtString =>
        Dec32Stable(bytes, tail);
        SkipBytesStable(Dec32(bytes).value.1, Dec32(bytes).value.0, tail);
      case Wt32Bit => SkipBytesStable(bytes, 4, tail);
    }
  }

  lemma DecTagStable(bytes: seq<byte>, tail: seq<byte>)
    requires DecTag(bytes).Tag?
    ensures var t := DecTag(bytes); DecTag(bytes + tail) == Tag(t.tag, t.wire, t.rest + tail)
  {
    Dec32Stable(bytes, tail);
  }
}
