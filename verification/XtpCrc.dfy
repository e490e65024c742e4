/** CRC-16/XMODEM: the bit-serial definition, the table-driven form, and what the check detects. */
module XtpCrc {
  import opened XtpLfsr
  type word = bv16

  function WordXor(a: word, b: word): word { a ^ b }

  // ---- The bit-serial definition.

  function ShiftBit(crc: word): word {
    if crc & 0x8000 != 0 then WordXor(crc << 1, 0x1021) else crc << 1
  }

  function ShiftBits(n: nat, crc: word): word {
    if n == 0 then crc else ShiftBit(ShiftBits(n - 1, crc))
  }

  /** A byte moved to the upper half of a word. */
  function High(b: octet): word { (b as word) << 8 }

  function WithHigh(w: word, b: octet): word { w | High(b) }

  function BitSerial(crc: word, data: octet): word {
    ShiftBits(8, WordXor(crc, High(data)))
  }

  // ---- The table, eight entries to a row; entry i is i in the upper byte after eight shifts.

  function Row(k: octet, v0: word, v1: word, v2: word, v3: word, v4: word, v5: word, v6: word, v7: word): word {
    if k == 0 then v0 else if k == 1 then v1 else if k == 2 then v2 else if k == 3 then v3
    else if k == 4 then v4 else if k == 5 then v5 else if k == 6 then v6 else v7
  }

  function Table(i: octet): word {
    var k := i & 7;
    if i < 0x08 then Row(k, 0x0000, 0x1021, 0x2042, 0x3063, 0x4084, 0x50A5, 0x60C6, 0x70E7) else
    if i < 0x10 then Row(k, 0x8108, 0x9129, 0xA14A, 0xB16B, 0xC18C, 0xD1AD, 0xE1CE, 0xF1EF) else
    if i < 0x18 then Row(k, 0x1231, 0x0210, 0x3273, 0x2252, 0x52B5, 0x4294, 0x72F7, 0x62D6) else
    if i < 0x20 then Row(k, 0x9339, 0x8318, 0xB37B, 0xA35A, 0xD3BD, 0xC39C, 0xF3FF, 0xE3DE) else
    if i < 0x28 then Row(k, 0x2462, 0x3443, 0x0420, 0x1401, 0x64E6, 0x74C7, 0x44A4, 0x5485) else
    if i < 0x30 then Row(k, 0xA56A, 0xB54B, 0x8528, 0x9509, 0xE5EE, 0xF5CF, 0xC5AC, 0xD58D) else
    if i < 0x38 then Row(k, 0x3653, 0x2672, 0x1611, 0x0630, 0x76D7, 0x66F6, 0x5695, 0x46B4) else
    if i < 0x40 then Row(k, 0xB75B, 0xA77A, 0x9719, 0x8738, 0xF7DF, 0xE7FE, 0xD79D, 0xC7BC) else
    if i < 0x48 then Row(k, 0x48C4, 0x58E5, 0x6886, 0x78A7, 0x0840, 0x1861, 0x2802, 0x3823) else
    if i < 0x50 then Row(k, 0xC9CC, 0xD9ED, 0xE98E, 0xF9AF, 0x8948, 0x9969, 0xA90A, 0xB92B) else
    if i < 0x58 then Row(k, 0x5AF5, 0x4AD4, 0x7AB7, 0x6A96, 0x1A71, 0x0A50, 0x3A33, 0x2A12) else
    if i < 0x60 then Row(k, 0xDBFD, 0xCBDC, 0xFBBF, 0xEB9E, 0x9B79, 0x8B58, 0xBB3B, 0xAB1A) else
    if i < 0x68 then Row(k, 0x6CA6, 0x7C87, 0x4CE4, 0x5CC5, 0x2C22, 0x3C03, 0x0C60, 0x1C41) else
    if i < 0x70 then Row(k, 0xEDAE, 0xFD8F, 0xCDEC, 0xDDCD, 0xAD2A, 0xBD0B, 0x8D68, 0x9D49) else
    if i < 0x78 then Row(k, 0x7E97, 0x6EB6, 0x5ED5, 0x4EF4, 0x3E13, 0x2E32, 0x1E51, 0x0E70) else
    if i < 0x80 then Row(k, 0xFF9F, 0xEFBE, 0xDFDD, 0xCFFC, 0xBF1B, 0xAF3A, 0x9F59, 0x8F78) else
    if i < 0x88 then Row(k, 0x9188, 0x81A9, 0xB1CA, 0xA1EB, 0xD10C, 0xC12D, 0xF14E, 0xE16F) else
    if i < 0x90 then Row(k, 0x1080, 0x00A1, 0x30C2, 0x20E3, 0x5004, 0x4025, 0x7046, 0x6067) else
    if i < 0x98 then Row(k, 0x83B9, 0x9398, 0xA3FB, 0xB3DA, 0xC33D, 0xD31C, 0xE37F, 0xF35E) else
    if i < 0xA0 then Row(k, 0x02B1, 0x1290, 0x22F3, 0x32D2, 0x4235, 0x5214, 0x6277, 0x7256) else
    if i < 0xA8 then Row(k, 0xB5EA, 0xA5CB, 0x95A8, 0x8589, 0xF56E, 0xE54F, 0xD52C, 0xC50D) else
    if i < 0xB0 then Row(k, 0x34E2, 0x24C3, 0x14A0, 0x0481, 0x7466, 0x6447, 0x5424, 0x4405) else
    if i < 0xB8 then Row(k, 0xA7DB, 0xB7FA, 0x8799, 0x97B8, 0xE75F, 0xF77E, 0xC71D, 0xD73C) else
    if i < 0xC0 then Row(k, 0x26D3, 0x36F2, 0x0691, 0x16B0, 0x6657, 0x7676, 0x4615, 0x5634) else
    if i < 0xC8 then Row(k, 0xD94C, 0xC96D, 0xF90E, 0xE92F, 0x99C8, 0x89E9, 0xB98A, 0xA9AB) else
    if i < 0xD0 then Row(k, 0x5844, 0x4865, 0x7806, 0x6827, 0x18C0, 0x08E1, 0x3882, 0x28A3) else
    if i < 0xD8 then Row(k, 0xCB7D, 0xDB5C, 0xEB3F, 0xFB1E, 0x8BF9, 0x9BD8, 0xABBB, 0xBB9A) else
    if i < 0xE0 then Row(k, 0x4A75, 0x5A54, 0x6A37, 0x7A16, 0x0AF1, 0x1AD0, 0x2AB3, 0x3A92) else
    if i < 0xE8 then Row(k, 0xFD2E, 0xED0F, 0xDD6C, 0xCD4D, 0xBDAA, 0xAD8B, 0x9DE8, 0x8DC9) else
    if i < 0xF0 then Row(k, 0x7C26, 0x6C07, 0x5C64, 0x4C45, 0x3CA2, 0x2C83, 0x1CE0, 0x0CC1) else
    if i < 0xF8 then Row(k, 0xEF1F, 0xFF3E, 0xCF5D, 0xDF7C, 0xAF9B, 0xBFBA, 0x8FD9, 0x9FF8) else
    Row(k, 0x6E17, 0x7E36, 0x4E55, 0x5E74, 0x2E93, 0x3EB2, 0x0ED1, 0x1EF0)
  }

  function Hi(w: word): octet { (w >> 8) as octet }

  function Lo(w: word): octet { (w & 0xFF) as octet }

  function Update(crc: word, data: octet): word {
    WordXor(High(Lo(crc)), Table(Xor(Hi(crc), data)))
  }

  /** The CRC of a message from a given register value. */
  function Crc(crc: word, message: seq<octet>): word {
    if message == [] then crc else Update(Crc(crc, message[..|message| - 1]), message[|message| - 1])
  }

  // ---- The table-driven step is the bit-serial step.

  function EightTimes(c: word): word {
    ShiftBit(ShiftBit(ShiftBit(ShiftBit(ShiftBit(ShiftBit(ShiftBit(ShiftBit(c))))))))
  }

  /** The table is linear: an entry is the sum of the entries of its bits. */
  function FoldedLow(i: octet): word {
    (if i & 0x01 == 0 then 0 else 0x1021) ^ (if i & 0x02 == 0 then 0 else 0x2042) ^
    (if i & 0x04 == 0 then 0 else 0x4084) ^ (if i & 0x08 == 0 then 0 else 0x8108)
  }

  function FoldedHigh(i: octet): word {
    (if i & 0x10 == 0 then 0 else 0x1231) ^ (if i & 0x20 == 0 then 0 else 0x2462) ^
    (if i & 0x40 == 0 then 0 else 0x48C4) ^ (if i & 0x80 == 0 then 0 else 0x9188)
  }

  lemma LowByteShifts(i: octet)
    ensures High(i) == EightTimes(i as word)
  {}

  lemma ShiftBitLinear(c: word, d: word)
    ensures ShiftBit(WordXor(c, d)) == WordXor(ShiftBit(c), ShiftBit(d))
  {
    hide WordXor;
    ShiftDistributes(c, d);
    TopBit(c, d);
    Regroup(c << 1, d << 1, 0x1021);
  }

  lemma ShiftDistributes(c: word, d: word)
    ensures WordXor(c, d) << 1 == WordXor(c << 1, d << 1)
  {}

  lemma TopBit(c: word, d: word)
    ensures WordXor(c, d) & 0x8000 == 0 <==> (c & 0x8000 == 0 <==> d & 0x8000 == 0)
  {}

  lemma WordXorCommutes(a: word, b: word)
    ensures WordXor(a, b) == WordXor(b, a)
  {}

  lemma WordXorAssoc(a: word, b: word, c: word)
    ensures WordXor(WordXor(a, b), c) == WordXor(a, WordXor(b, c))
  {}

  lemma WordXorSelf(a: word, p: word)
    ensures WordXor(WordXor(a, p), p) == a
  {}

  lemma Regroup(a: word, b: word, p: word)
    ensures WordXor(WordXor(a, p), b) == WordXor(WordXor(a, b), p) == WordXor(a, WordXor(b, p))
    ensures WordXor(WordXor(a, p), WordXor(b, p)) == WordXor(a, b)
  {
    hide *;
    WordXorAssoc(a, b, p);
    WordXorAssoc(a, p, b);
    WordXorCommutes(b, p);
    WordXorAssoc(WordXor(a, p), b, p);
    WordXorSelf(WordXor(a, b), p);
  }

  lemma {:induction false} ShiftBitsLinear(n: nat, c: word, d: word)
    ensures ShiftBits(n, WordXor(c, d)) == WordXor(ShiftBits(n, c), ShiftBits(n, d))
  {
    hide ShiftBit, WordXor;
    if n == 0 {
    } else {
      ShiftBitsLinear(n - 1, c, d);
      ShiftBitLinear(ShiftBits(n - 1, c), ShiftBits(n - 1, d));
    }
  }

  lemma EightShifts(c: word)
    ensures ShiftBits(8, c) == EightTimes(c)
  {
    hide ShiftBit;
    assert ShiftBits(2, c) == ShiftBit(ShiftBits(1, c)) == ShiftBit(ShiftBit(c));
    assert ShiftBits(4, c) == ShiftBit(ShiftBits(3, c));
    assert ShiftBits(6, c) == ShiftBit(ShiftBits(5, c));
  }

  lemma LowerTableFolds(i: octet)
    requires i < 0x80
    ensures Table(i) == FoldedHigh(i) ^ FoldedLow(i)
  {}

  lemma UpperTableFolds(i: octet)
    requires 0x80 <= i
    ensures Table(i) == FoldedHigh(i) ^ FoldedLow(i)
  {}

  lemma TableFolds(i: octet)
    ensures Table(i) == WordXor(FoldedHigh(i), FoldedLow(i))
  {
    hide Table, FoldedHigh, FoldedLow;
    if i < 0x80 { LowerTableFolds(i); } else { UpperTableFolds(i); }
  }

  lemma NibbleFolds(i: octet)
    ensures EightTimes(High(i & 0xF0)) == FoldedHigh(i)
    ensures EightTimes(High(i & 0x0F)) == FoldedLow(i)
  {}

  lemma Nibbles(i: octet)
    ensures High(i) == WordXor(High(i & 0xF0), High(i & 0x0F))
  {}

  /** Every entry of the table is its index after eight shifts. */
  lemma TableIsShifts(i: octet)
    ensures Table(i) == EightTimes(High(i))
  {
    hide *;
    var h, l := i & 0xF0, i & 0x0F;
    TableFolds(i);
    Nibbles(i);
    NibbleFolds(i);
    ShiftBitsLinear(8, High(h), High(l));
    EightShifts(High(h));
    EightShifts(High(l));
    EightShifts(High(i));
  }

  lemma SplitRegister(crc: word, data: octet)
    ensures WordXor(crc, High(data)) == WordXor(High(Xor(Hi(crc), data)), Lo(crc) as word)
  {}

  lemma FastForm(crc: word, data: octet)
    ensures Update(crc, data) == BitSerial(crc, data)
  {
    hide Table, ShiftBit, ShiftBits, Hi, Lo, Xor, High, WordXor, EightTimes;
    var h, l := High(Xor(Hi(crc), data)), Lo(crc) as word;
    SplitRegister(crc, data);
    ShiftBitsLinear(8, h, l);
    EightShifts(h);
    EightShifts(l);
    TableIsShifts(Xor(Hi(crc), data));
    LowByteShifts(Lo(crc));
    WordXorCommutes(EightTimes(h), EightTimes(l));
  }

  method BitSerialByte(start: word, data: octet) returns (crc: word)
    ensures crc == Update(start, data)
  {
    hide ShiftBit, Update, High, WordXor;
    crc := WordXor(start, High(data));
    for i := 0 to 8
      invariant crc == ShiftBits(i, WordXor(start, High(data)))
    {
      crc := ShiftBit(crc);
    }
    FastForm(start, data);
  }

  // ---- What the check detects.

  lemma UpdateBytes(crc: word, x: octet)
    ensures Hi(Update(crc, x)) == Xor(Lo(crc), Hi(Table(Xor(Hi(crc), x))))
    ensures Lo(Update(crc, x)) == Lo(Table(Xor(Hi(crc), x)))
  {
    hide Table;
  }

  lemma LoTableInjective(i: octet, j: octet)
    requires Lo(Table(i)) == Lo(Table(j))
    ensures i == j
  {
    hide *;
    LoTableInverse(i);
    LoTableInverse(j);
  }

  function Unfold(l: octet): octet {
    var x := l ^ (l << 5);
    x ^ (x >> 4)
  }

  lemma LoTableInverse(i: octet)
    ensures Unfold(Lo(Table(i))) == i
  {}

  lemma XorInjective(a: octet, b: octet, c: octet)
    requires Xor(a, c) == Xor(b, c) || Xor(c, a) == Xor(c, b)
    ensures a == b
  {
    hide *;
    XorLaws(a, c);
    XorLaws(b, c);
  }

  lemma SameBytes(a: word, b: word)
    requires Hi(a) == Hi(b) && Lo(a) == Lo(b)
    ensures a == b
  {}

  lemma StateInjective(c: word, d: word, x: octet)
    requires Update(c, x) == Update(d, x)
    ensures c == d
  {
    hide *;
    UpdateBytes(c, x);
    UpdateBytes(d, x);
    LoTableInjective(Xor(Hi(c), x), Xor(Hi(d), x));
    XorInjective(Hi(c), Hi(d), x);
    XorInjective(Lo(c), Lo(d), Hi(Table(Xor(Hi(c), x))));
    SameBytes(c, d);
  }

  lemma PairInjective(crc: word, a: octet, b: octet, c: octet, d: octet)
    requires Update(Update(crc, a), b) == Update(Update(crc, c), d)
    ensures a == c && b == d
  {
    hide *;
    var r, s := Update(crc, a), Update(crc, c);
    UpdateBytes(r, b);
    UpdateBytes(s, d);
    LoTableInjective(Xor(Hi(r), b), Xor(Hi(s), d));
    XorInjective(Lo(r), Lo(s), Hi(Table(Xor(Hi(r), b))));
    UpdateBytes(crc, a);
    UpdateBytes(crc, c);
    LoTableInjective(Xor(Hi(crc), a), Xor(Hi(crc), c));
    XorInjective(a, c, Hi(crc));
    XorInjective(b, d, Hi(r));
  }

  lemma {:induction false} CrcConcat(crc: word, p: seq<octet>, q: seq<octet>)
    ensures Crc(crc, p + q) == Crc(Crc(crc, p), q)
  {
    hide Update;
    if q == [] {
      assert p + q == p;
    } else {
      var n := |q| - 1;
      assert (p + q)[..|p + q| - 1] == p + q[..n];
      CrcConcat(crc, p, q[..n]);
    }
  }

  lemma {:induction false} TailInjective(c: word, d: word, q: seq<octet>)
    requires Crc(c, q) == Crc(d, q)
    ensures c == d
  {
    hide Update;
    if q == [] {
    } else {
      var n := |q| - 1;
      StateInjective(Crc(c, q[..n]), Crc(d, q[..n]), q[n]);
      TailInjective(c, d, q[..n]);
    }
  }

  ghost predicate DifferWithin(m: seq<octet>, m': seq<octet>, k: nat, width: nat) {
    && |m| == |m'|
    && m != m'
    && forall i :: 0 <= i < |m| && !(k <= i < k + width) ==> m[i] == m'[i]
  }

  /** A change confined to two consecutive bytes always changes the CRC, whatever the length of the message. */
  lemma BurstDetected(crc: word, m: seq<octet>, m': seq<octet>, k: nat)
    requires DifferWithin(m, m', k, 2)
    ensures Crc(crc, m) != Crc(crc, m')
  {
    hide Crc;
    if Crc(crc, m) == Crc(crc, m') { BurstSame(crc, m, m', k); }
  }

  lemma LastByteInjective(crc: word, a: octet, b: octet)
    requires Update(crc, a) == Update(crc, b)
    ensures a == b
  {
    hide *;
    PairInjective(crc, a, 0, b, 0);
  }

  lemma Splice<T>(m: seq<T>, m': seq<T>, k: nat)
    requires |m| == |m'| && k + 1 < |m|
    requires forall i :: 0 <= i < |m| && !(k <= i < k + 2) ==> m[i] == m'[i]
    ensures m == m[..k] + [m[k], m[k + 1]] + m[k + 2..]
    ensures m' == m[..k] + [m'[k], m'[k + 1]] + m[k + 2..]
  {}

  lemma BurstSame(crc: word, m: seq<octet>, m': seq<octet>, k: nat)
    requires |m| == |m'|
    requires forall i :: 0 <= i < |m| && !(k <= i < k + 2) ==> m[i] == m'[i]
    requires Crc(crc, m) == Crc(crc, m')
    ensures m == m'
  {
    hide Update, Crc;
    if k + 1 < |m| {
      Splice(m, m', k);
      PairInContext(crc, m[..k], m[k], m[k + 1], m'[k], m'[k + 1], m[k + 2..]);
    } else if k < |m| {
      assert m == m[..k] + [m[k]] && m' == m[..k] + [m'[k]];
      CrcAppend(crc, m[..k], m[k]);
      CrcAppend(crc, m[..k], m'[k]);
      LastByteInjective(Crc(crc, m[..k]), m[k], m'[k]);
    }
  }

  lemma PairInContext(crc: word, p: seq<octet>, a: octet, b: octet, c: octet, d: octet, q: seq<octet>)
    requires Crc(crc, p + [a, b] + q) == Crc(crc, p + [c, d] + q)
    ensures a == c && b == d
  {
    hide *;
    CrcConcat(crc, p + [a, b], q);
    CrcConcat(crc, p + [c, d], q);
    TailInjective(Crc(crc, p + [a, b]), Crc(crc, p + [c, d]), q);
    CrcPair(crc, p, a, b);
    CrcPair(crc, p, c, d);
    PairInjective(Crc(crc, p), a, b, c, d);
  }

  lemma CrcAppend(crc: word, bytes: seq<octet>, b: octet)
    ensures Crc(crc, bytes + [b]) == Update(Crc(crc, bytes), b)
  {
    hide Update;
    assert (bytes + [b])[..|bytes|] == bytes;
  }

  lemma CrcPair(crc: word, p: seq<octet>, a: octet, b: octet)
    ensures Crc(crc, p + [a, b]) == Update(Update(Crc(crc, p), a), b)
  {
    hide *;
    CrcAppend(crc, p, a);
    CrcAppend(crc, p + [a], b);
    assert p + [a] + [b] == p + [a, b];
  }

  // ---- The CRC is linear, so what a change does to it does not depend on the message.

  lemma HighLinear(x: octet, y: octet)
    ensures High(Xor(x, y)) == WordXor(High(x), High(y))
  {}

  lemma WordExchange(p: word, q: word, r: word, s: word)
    ensures WordXor(WordXor(p, q), WordXor(r, s)) == WordXor(WordXor(p, r), WordXor(q, s))
  {
    hide *;
    WordXorAssoc(p, q, WordXor(r, s));
    WordXorAssoc(q, r, s);
    WordXorCommutes(q, r);
    WordXorAssoc(r, q, s);
    WordXorAssoc(p, r, WordXor(q, s));
  }

  lemma UpdateLinear(c: word, d: word, x: octet, y: octet)
    ensures Update(WordXor(c, d), Xor(x, y)) == WordXor(Update(c, x), Update(d, y))
  {
    hide Update, High, Xor, WordXor, ShiftBits;
    FastForm(WordXor(c, d), Xor(x, y));
    FastForm(c, x);
    FastForm(d, y);
    HighLinear(x, y);
    WordExchange(c, d, High(x), High(y));
    ShiftBitsLinear(8, WordXor(c, High(x)), WordXor(d, High(y)));
  }

  lemma TripleCancelsCrc()
    ensures Update(Update(Update(0, 0x89), 0), 0xA1) == 0
  {
    hide Update;
    assert Update(0, 0x89) == 0x00A1 by { EvaluateCrc(); }
    assert Update(0x00A1, 0) == 0xA100 by { EvaluateCrc(); }
    assert Update(0xA100, 0xA1) == 0 by { EvaluateCrc(); }
  }

  lemma EvaluateCrc()
    ensures Update(0, 0x89) == 0x00A1 && Update(0x00A1, 0) == 0xA100 && Update(0xA100, 0xA1) == 0
  {}

  lemma TripleUnseen(c: word, x: octet, y: octet, z: octet)
    ensures Update(Update(Update(c, Xor(x, 0x89)), y), Xor(z, 0xA1)) == Update(Update(Update(c, x), y), z)
  {
    hide Update, Xor, WordXor;
    var d1 := Update(0, 0x89);
    var d2 := Update(d1, 0);
    var c1 := Update(c, x);
    UpdateLinear(c, 0, x, 0x89);
    UpdateLinear(c1, d1, y, 0);
    UpdateLinear(Update(c1, y), d2, z, 0xA1);
    XorLaws(y, 0);
    WordXorZero(c);
    WordXorZero(Update(Update(c1, y), z));
    TripleCancelsCrc();
  }

  lemma WordXorZero(c: word)
    ensures WordXor(c, 0) == c
  {}

  lemma CrcTriple(crc: word, p: seq<octet>, a: octet, b: octet, c: octet)
    ensures Crc(crc, p + [a, b, c]) == Update(Update(Update(Crc(crc, p), a), b), c)
  {
    hide *;
    CrcPair(crc, p, a, b);
    CrcAppend(crc, p + [a, b], c);
    assert p + [a, b] + [c] == p + [a, b, c];
  }

  /** Two bytes is the widest: in every message, at every place, a change within three consecutive bytes is missed. */
  lemma BurstMissed(crc: word, m: seq<octet>, k: nat)
    requires k + 2 < |m|
    ensures var m' := m[k := Xor(m[k], 0x89)][k + 2 := Xor(m[k + 2], 0xA1)];
            DifferWithin(m, m', k, 3) && Crc(crc, m') == Crc(crc, m)
  {
    hide Crc, Update, Xor;
    var x, y, z := m[k], m[k + 1], m[k + 2];
    var x', z' := Xor(x, 0x89), Xor(z, 0xA1);
    var m' := m[k := x'][k + 2 := z'];
    XorMoves(x);
    assert m'[k] != m[k];
    var p, q := m[..k], m[k + 3..];
    assert m == p + [x, y, z] + q && m' == p + [x', y, z'] + q;
    CrcTriple(crc, p, x, y, z);
    CrcTriple(crc, p, x', y, z');
    TripleUnseen(Crc(crc, p), x, y, z);
    CrcConcat(crc, p + [x, y, z], q);
    CrcConcat(crc, p + [x', y, z'], q);
  }

  lemma XorMoves(x: octet)
    ensures Xor(x, 0x89) != x && Xor(x, 0xA1) != x
  {}
}
