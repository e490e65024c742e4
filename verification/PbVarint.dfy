/** What the 32-bit varint reader makes of every input, padded and overlong varints included. */
module PbVarint {
  import opened Common
  import opened PbWire

  /** One varint, however long: the last byte is the first below 128. */
  predicate Whole(v: seq<byte>) {
    v != [] && v[|v| - 1] < 128 && forall k :: 0 <= k < |v| - 1 ==> v[k] >= 128
  }

  /** The number its groups of seven bits spell. */
  function Spelled(v: seq<byte>): nat {
    if v == [] then 0 else var b: nat := v[0]; b % 128 + 128 * Spelled(v[1..])
  }

  /** The byte at place k adds nothing, or belongs to the sign extension of a number with bit 31 set. */
  predicate Pads(b: byte, k: nat, negative: bool) {
    b % 128 == 0 || (negative && b == if k < 9 then 0xFF else 0x01)
  }

  /** Up to four bytes fit; a fifth and last one must leave its upper three bits clear; of longer ones every byte from
      the sixth on must be padding. */
  predicate Accepted(v: seq<byte>) {
    if |v| == 5 then v[4] < 16
    else forall k :: 5 <= k < |v| ==> Pads(v[k], k, Spelled(v) % TWO32 >= 0x8000_0000)
  }

  lemma {:induction false} PaddingRule(v: seq<byte>, k: nat, result: nat, rest: seq<byte>)
    requires Whole(v) && k >= 5
    ensures Dec32From(v + rest, k, result) ==
            if forall i :: 0 <= i < |v| ==> Pads(v[i], k + i, result >= 0x8000_0000) then Some((result, rest)) else None
    decreases |v|
  {
    var bytes, ok := v + rest, forall i :: 0 <= i < |v| ==> Pads(v[i], k + i, result >= 0x8000_0000);
    assert bytes[0] == v[0] && bytes[1..] == v[1..] + rest;
    if |v| == 1 {
      assert v[1..] + rest == rest;
    } else {
      PaddingRule(v[1..], k + 1, result, rest);
      var tail := forall i :: 0 <= i < |v[1..]| ==> Pads(v[1..][i], k + 1 + i, result >= 0x8000_0000);
      if tail && Pads(v[0], k, result >= 0x8000_0000) {
        forall i | 0 <= i < |v| ensures Pads(v[i], k + i, result >= 0x8000_0000) {
          if i > 0 { assert v[i] == v[1..][i - 1]; }
        }
      }
      if ok {
        forall i | 0 <= i < |v[1..]| ensures Pads(v[1..][i], k + 1 + i, result >= 0x8000_0000) {
          assert Pads(v[i + 1], k + (i + 1), result >= 0x8000_0000);
        }
        assert Pads(v[0], k + 0, result >= 0x8000_0000);
      }
    }
  }

  lemma SpelledNext(v: seq<byte>, p: nat)
    requires v != []
    ensures Spelled(v) * p == (v[0] % 128) * p + Spelled(v[1..]) * (128 * p)
  {
    var b: nat := v[0];
    var d, later := b % 128, Spelled(v[1..]);
    Distribute(d, later, p);
  }

  lemma Distribute(d: nat, later: nat, p: nat)
    ensures (d + 128 * later) * p == d * p + later * (128 * p)
  {}

  /** The fifth group overlaps the end of the word; what is above it is lost. */
  lemma FifthDigit(result: nat, d: nat, later: nat)
    requires result < 268435456 && d < 128
    ensures result + d * 268435456 % TWO32 == (result + d * 268435456 + later * 34359738368) % TWO32
    ensures d < 16 ==> result + d * 268435456 < TWO32
  {
    var q, r := d / 16, d % 16;
    assert d * 268435456 == TWO32 * q + r * 268435456;
    Word32(q, r * 268435456);
    Word32(q + 8 * later, result + r * 268435456);
    assert result + d * 268435456 + later * 34359738368 == TWO32 * (q + 8 * later) + (result + r * 268435456);
  }

  /** Places 5 - k and up of v are padding. */
  predicate PadsFrom(v: seq<byte>, k: nat, negative: bool) {
    forall i :: 0 <= i < |v| && k + i >= 5 ==> Pads(v[i], k + i, negative)
  }

  lemma PadsNext(v: seq<byte>, k: nat, negative: bool)
    requires v != [] && k <= 4
    ensures PadsFrom(v, k, negative) <==> PadsFrom(v[1..], k + 1, negative)
  {
    hide Pads;
    if PadsFrom(v, k, negative) {
      forall i | 0 <= i < |v[1..]| && k + 1 + i >= 5 ensures Pads(v[1..][i], k + 1 + i, negative) {
        assert Pads(v[i + 1], k + (i + 1), negative);
      }
    }
    if PadsFrom(v[1..], k + 1, negative) {
      forall i | 0 <= i < |v| && k + i >= 5 ensures Pads(v[i], k + i, negative) {
        assert Pads(v[1..][i - 1], k + 1 + (i - 1), negative);
      }
    }
  }

  /** The reader from place k on, with the value of the places before. */
  lemma {:induction false} HeadRule(v: seq<byte>, k: nat, result: nat, rest: seq<byte>)
    requires Whole(v) && 1 <= k <= 4 && result < Pow128(k)
    ensures var value := (result + Spelled(v) * Pow128(k)) % TWO32;
            Dec32From(v + rest, k, result) ==
            if (if k + |v| == 5 then v[|v| - 1] < 16 else PadsFrom(v, k, value >= 0x8000_0000)) then Some((value, rest))
            else None
    decreases |v|
  {
    hide Pow128, Spelled;
    PowerValues();
    PowStep(k);
    var bytes, b: nat := v + rest, v[0];
    var d, later := b % 128, Spelled(v[1..]);
    assert bytes[0] == v[0] && bytes[1..] == v[1..] + rest;
    SpelledNext(v, Pow128(k));
    DigitBelow(d, k, result);
    if |v| == 1 {
      LastPlace(v, k, result, rest);
    } else {
      var value := (result + Spelled(v) * Pow128(k)) % TWO32;
      PadsNext(v, k, value >= 0x8000_0000);
      if k < 4 {
        HeadRule(v[1..], k + 1, result + d * Pow128(k), rest);
      } else {
        FifthDigit(result, d, later);
        PaddingRule(v[1..], 5, result + d * Pow128(k) % TWO32, rest);
      }
    }
  }

  lemma DigitBelow(d: nat, k: nat, result: nat)
    requires d < 128 && k <= 4 && result < Pow128(k)
    ensures result + d * Pow128(k) < Pow128(k + 1)
    ensures k < 4 ==> d * Pow128(k) % TWO32 == d * Pow128(k) && result + d * Pow128(k) < TWO32
  {
    hide Pow128;
    PowerValues();
  }

  lemma LastPlace(v: seq<byte>, k: nat, result: nat, rest: seq<byte>)
    requires Whole(v) && |v| == 1 && 1 <= k <= 4 && result < Pow128(k)
    ensures var value := (result + Spelled(v) * Pow128(k)) % TWO32;
            Dec32From(v + rest, k, result) == if k == 4 && v[0] >= 16 then None else Some((value, rest))
  {
    hide Pow128;
    var bytes, d: nat := v + rest, v[0];
    assert bytes[0] == d && bytes[1..] == rest;
    assert Spelled(v) == d;
    PowerValues();
    DigitBelow(d, k, result);
    if k == 4 { FifthDigit(result, d, 0); }
  }

  lemma FirstByte(v: seq<byte>, rest: seq<byte>)
    requires Whole(v)
    ensures |v| == 1 ==> Dec32(v + rest) == Some((Spelled(v) % TWO32, rest))
    ensures |v| > 1 ==> Whole(v[1..]) && Dec32(v + rest) == Dec32From(v[1..] + rest, 1, v[0] % 128)
  {
    hide Dec32From;
    var bytes := v + rest;
    assert bytes[0] == v[0] && bytes[1..] == v[1..] + rest;
    if |v| == 1 { assert v[1..] + rest == rest; }
  }

  lemma SpelledFrom(v: seq<byte>)
    requires v != []
    ensures v[0] % 128 + Spelled(v[1..]) * Pow128(1) == Spelled(v) && v[0] % 128 < Pow128(1)
  {
    PowerValues();
  }

  /** Every varint, in however many bytes: whether the 32-bit reader takes it, and that it then reads the low 32 bits of
      the number it spells. */
  lemma Dec32Rule(v: seq<byte>, rest: seq<byte>)
    requires Whole(v)
    ensures Dec32(v + rest) == if Accepted(v) then Some((Spelled(v) % TWO32, rest)) else None
  {
    hide *;
    FirstByte(v, rest);
    AcceptedFrom(v);
    NotEmpty(v);
    SpelledFrom(v);
    if |v| > 1 {
      HeadRule(v[1..], 1, v[0] % 128, rest);
      assert v[1..][|v[1..]| - 1] == v[|v| - 1];
    }
  }

  lemma NotEmpty(v: seq<byte>)
    requires Whole(v)
    ensures v != []
  {}

  lemma AcceptedFrom(v: seq<byte>)
    requires Whole(v)
    ensures |v| == 1 ==> Accepted(v)
    ensures Accepted(v) <==>
            if |v| == 5 then v[1..][3] < 16 else PadsFrom(v[1..], 1, Spelled(v) % TWO32 >= 0x8000_0000)
  {
    hide Pads, Spelled;
    PadsNext(v, 0, Spelled(v) % TWO32 >= 0x8000_0000);
  }

  /** Without a byte below 128 there is nothing to read. */
  lemma {:induction false} Unfinished(bytes: seq<byte>, k: nat, result: nat)
    requires k >= 1 && forall i :: 0 <= i < |bytes| ==> bytes[i] >= 128
    ensures Dec32From(bytes, k, result) == None
    decreases |bytes|
  {
    if bytes == [] {
    } else {
      var b := bytes[0];
      var next := if k >= 5 then result else result + (b % 128 * Pow128(k)) % TWO32;
      Unfinished(bytes[1..], k + 1, next);
    }
  }

  lemma Dec32Unfinished(bytes: seq<byte>)
    requires forall i :: 0 <= i < |bytes| ==> bytes[i] >= 128
    ensures Dec32(bytes) == None
  {
    hide Dec32From;
    if bytes != [] { Unfinished(bytes[1..], 1, bytes[0] % 128); }
  }

  // ---- The writer, and the 64-bit reader.

  lemma SpelledOne(b: byte, v: seq<byte>)
    ensures Spelled([b] + v) == b % 128 + 128 * Spelled(v)
  {
    assert ([b] + v)[1..] == v;
  }

  lemma WholeNext(b: byte, v: seq<byte>)
    requires b >= 128 && Whole(v)
    ensures Whole([b] + v)
  {}

  /** The writer's bytes are one varint, and spell the number. */
  lemma {:induction false} WriterSpells(n: nat)
    ensures Whole(EncVarint(n)) && Spelled(EncVarint(n)) == n
    ensures n > 0 ==> EncVarint(n)[|EncVarint(n)| - 1] != 0
    decreases n
  {
    hide Whole, Spelled;
    if n < 128 {
      OneByteVarint(n);
    } else {
      var later := EncVarint(n / 128);
      WriterSpells(n / 128);
      WholeNext(n % 128 + 128, later);
      SpelledOne(n % 128 + 128, later);
      assert EncVarint(n)[|EncVarint(n)| - 1] == later[|later| - 1];
    }
  }

  lemma OneByteVarint(n: nat)
    requires n < 128
    ensures Whole([n]) && Spelled([n]) == n
  {
    assert [n][1..] == [];
  }

  lemma WholeTail(v: seq<byte>)
    requires Whole(v)
    ensures v != [] && (|v| == 1 ==> v[0] < 128 && v == [v[0]])
    ensures |v| > 1 ==> v[0] >= 128 && Whole(v[1..]) && v == [v[0]] + v[1..] && v[1..][|v[1..]| - 1] == v[|v| - 1]
  {}

  /** Any varint that spells the number and does not end in a needless zero group is the writer's; with such groups it
      is longer. */
  lemma {:induction false} WriterShortest(v: seq<byte>)
    requires Whole(v)
    ensures |EncVarint(Spelled(v))| <= |v|
    ensures |v| == 1 || v[|v| - 1] != 0 ==> v == EncVarint(Spelled(v))
    decreases |v|
  {
    hide Whole, Spelled;
    WholeTail(v);
    if |v| == 1 {
      OneByteVarint(v[0]);
    } else {
      var w := v[1..];
      WriterShortest(w);
      SpelledOne(v[0], w);
      if w[|w| - 1] != 0 { SpelledPositive(w); }
    }
  }

  lemma {:induction false} SpelledPositive(v: seq<byte>)
    requires Whole(v) && v[|v| - 1] != 0
    ensures Spelled(v) > 0
    decreases |v|
  {
    if |v| == 1 {
    } else {
      SpelledPositive(v[1..]);
    }
  }

  /** One step of the 64-bit reader; the tenth byte only has room for one bit. */
  lemma Digit64(result: nat, d: nat, k: nat)
    requires d < 128 && k <= 9 && result < Pow128(k)
    ensures result + d * Pow128(k) % TWO64 == (result + d * Pow128(k)) % TWO64
    ensures k < 9 ==> d * Pow128(k) % TWO64 == d * Pow128(k) && result + d * Pow128(k) < Pow128(k + 1)
  {
    hide Pow128;
    PowerValues();
    var p := Pow128(k);
    if k == 9 {
      assert d * p == TWO64 * (d / 2) + d % 2 * p;
      Word64(d / 2, d % 2 * p);
      Word64(d / 2, result + d % 2 * p);
    } else {
      PowStep(k);
      assert d * p <= 127 * p;
    }
  }

  lemma Word64(q: nat, r: nat)
    requires r < TWO64
    ensures (TWO64 * q + r) % TWO64 == r
  {}

  lemma SpelledNothing()
    ensures Spelled([]) == 0
  {}

  lemma Turn64(v: seq<byte>, k: nat, result: nat, rest: seq<byte>)
    requires Whole(v) && k <= 9
    ensures var b: nat := v[0];
            var next := result + b % 128 * Pow128(k) % TWO64;
            if |v| == 1 then Dec64From(v + rest, k, result) == Some((next, rest))
            else Whole(v[1..]) && Dec64From(v + rest, k, result) == Dec64From(v[1..] + rest, k + 1, next)
  {
    hide Pow128;
    var bytes := v + rest;
    assert bytes[0] == v[0] && bytes[1..] == v[1..] + rest;
    if |v| == 1 { assert v[1..] + rest == rest; }
  }

  lemma TooLong(bytes: seq<byte>, result: nat)
    ensures Dec64From(bytes, 10, result) == None
  {}

  /** The 64-bit reader from place k on, with the value of the places before. */
  lemma {:induction false} Tail64Rule(v: seq<byte>, k: nat, result: nat, rest: seq<byte>)
    requires Whole(v) && k <= 9 && result < Pow128(k)
    ensures Dec64From(v + rest, k, result) ==
            if k + |v| <= 10 then Some(((result + Spelled(v) * Pow128(k)) % TWO64, rest)) else None
    decreases |v|
  {
    hide Pow128, Spelled, Dec64From, Whole;
    NotEmpty(v);
    var b: nat := v[0];
    var d, later := b % 128, Spelled(v[1..]);
    Turn64(v, k, result, rest);
    SpelledNext(v, Pow128(k));
    PowStep(k);
    Digit64(result, d, k);
    if |v| == 1 {
      assert v[1..] == [];
      SpelledNothing();
    } else if k < 9 {
      Tail64Rule(v[1..], k + 1, result + d * Pow128(k), rest);
    } else {
      TooLong(v[1..] + rest, result + d * Pow128(k) % TWO64);
    }
  }

  /** The 64-bit reader takes every varint of up to ten bytes, and reads the low 64 bits of what it spells. */
  lemma Dec64Rule(v: seq<byte>, rest: seq<byte>)
    requires Whole(v)
    ensures Dec64(v + rest) == if |v| <= 10 then Some((Spelled(v) % TWO64, rest)) else None
  {
    hide Dec64From, Spelled;
    Tail64Rule(v, 0, 0, rest);
  }

  lemma {:induction false} Unfinished64(bytes: seq<byte>, k: nat, result: nat)
    requires forall i :: 0 <= i < |bytes| ==> bytes[i] >= 128
    ensures Dec64From(bytes, k, result) == None
    decreases |bytes|
  {
    if bytes == [] {
    } else {
      Unfinished64(bytes[1..], k + 1, result + (bytes[0] % 128 * Pow128(k)) % TWO64);
    }
  }

  lemma Dec64Unfinished(bytes: seq<byte>)
    requires forall i :: 0 <= i < |bytes| ==> bytes[i] >= 128
    ensures Dec64(bytes) == None
  {
    Unfinished64(bytes, 0, 0);
  }
}
