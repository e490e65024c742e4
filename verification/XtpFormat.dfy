/** The link's numbers: what is where in a frame, what the checks of known inputs are, and what every byte read
    returns. */
module XtpFormat {
  import opened XtpLfsr
  import opened XtpCrc
  import opened XtpEcc
  import opened XtpFrame
  import opened XtpLink

  /** The number of two bytes. */
  function TwoBytes(low: octet, high: octet): word { ((high as bv16) << 8) | (low as bv16) }

  lemma BothBytes(w: word)
    ensures TwoBytes(Lo(w), Hi(w)) == w
  {}

  lemma Places<T>(start: seq<T>, fields: seq<T>, p: seq<T>, checks: seq<T>, trailer: seq<T>)
    requires |start| == 2 && |fields| == 5 && |checks| == 2 && |trailer| == 4
    ensures var s, n := start + (fields + p + checks) + trailer, |p|;
            && |s| == 13 + n && s[..2] == start && s[2..7] == fields && s[7..7 + n] == p
            && s[7 + n..9 + n] == checks && s[9 + n..] == trailer && s[2..9 + n] == fields + p + checks
  {}

  /** A frame, place by place: START, TYPEMETHOD, ID, SEQ and LEN, the data, the check bytes of its first m bytes, the
      CRC and STOP. Numbers of two bytes have the low one first; the CRC covers everything from TYPEMETHOD to the
      second check byte. */
  ghost predicate LaidOut(bytes: seq<octet>, id: word, seqByte: octet, data: seq<octet>, m: nat)
    requires m <= |data| && m < 256
  {
    var n := |data|;
    && |bytes| == 13 + n
    && bytes[..2] == [0xC0, 0xDE]
    && bytes[2..7] == [0xA2, Lo(id), Hi(id), seqByte, m as octet]
    && bytes[7..7 + n] == data
    && bytes[7 + n..9 + n] == [Parity(data[..m]), Locator(data[..m])]
    && bytes[9 + n..] == [Lo(Crc(0, bytes[2..9 + n])), Hi(Crc(0, bytes[2..9 + n])), 0xDA, 0xED]
  }

  /** What the encoder emits for any data; the length field and the check bytes only know the length modulo 256. */
  lemma LongLayout(id: word, seqByte: octet, data: seq<octet>)
    ensures LaidOut(EncodeLong(id, seqByte, data), id, seqByte, data, |data| % 256)
  {
    hide Crc, Hi, Lo, Parity, Locator;
    var crc := Crc(0, LongCovered(id, seqByte, data));
    Places([START1, START2], [PROT_XFER, Lo(id), Hi(id), seqByte, LowByte(|data|)], data,
           [Parity(Checked(data)), Locator(Checked(data))], [Lo(crc), Hi(crc), STOP1, STOP2]);
  }

  /** A frame knows all of it. */
  lemma FrameLayout(f: Frame)
    requires |f.payload| <= 255
    ensures LaidOut(EncodeFrame(f), f.id, f.seqByte, f.payload, |f.payload|)
  {
    hide EncodeLong, EncodeFrame, LaidOut;
    LongIsFrame(f);
    LongLayout(f.id, f.seqByte, f.payload);
  }

  lemma NibbleRange(b: octet)
    ensures IsStart1(b) <==> 0xC0 <= b <= 0xCF
  {}

  /** The check bytes of one byte, from which those of a block follow byte by byte. */
  lemma CheckBytesOfOne(b: octet)
    ensures Parity([]) == 0 && Locator([]) == 0
    ensures Parity([b]) == b && Locator([b]) == if b & 1 == 1 then (b >> 1) ^ 0x8E else b >> 1
  {
    assert [b][..0] == [];
    XorLaws(0, b);
    OneShift(b);
  }

  lemma OneShift(b: octet)
    ensures Step(b) == if b & 1 == 1 then (b >> 1) ^ 0x8E else b >> 1
  {}

  /** In progress exactly in the middle of a frame; otherwise by where the byte came in. */
  ghost predicate Returns(from: Phase, b: octet, to: Phase, r: Return) {
    if to != Start1 then r == InProg
    else if from == Start1 || from == Start2 then r == WaitData
    else if from == TypeMethod then r == ErrTypeMethod
    else if from == Crc2 then r == ErrCrc
    else if from == Stop2 && b == 0xED then r == Return.Valid
    else (from == Stop1 || from == Stop2) && r == ErrStop
  }

  lemma SyncReturns(s: Rx, b: octet)
    requires s.phase == Start1 || s.phase == Start2 || s.phase == TypeMethod
    ensures Returns(s.phase, b, Receive(s, b).0.phase, Receive(s, b).1)
  {
    hide IsStart1;
  }

  lemma FieldReturns(s: Rx, b: octet)
    requires s.phase == Id || s.phase == IdHigh || s.phase == Seq || s.phase == Len || s.phase == Data
    ensures Returns(s.phase, b, Receive(s, b).0.phase, Receive(s, b).1)
  {
    hide WithHigh, Count;
  }

  lemma CheckReturns(s: Rx, b: octet)
    requires s.phase == Ecc0 || s.phase == Ecc1 || s.phase == Crc1
    ensures Returns(s.phase, b, Receive(s, b).0.phase, Receive(s, b).1)
  {}

  lemma VerdictReturns(s: Rx, b: octet)
    requires s.phase == Crc2
    ensures Returns(s.phase, b, Receive(s, b).0.phase, Receive(s, b).1)
  {
    hide Verdict, WithHigh;
  }

  lemma StopReturns(s: Rx, b: octet)
    requires s.phase == Stop1 || s.phase == Stop2
    ensures Returns(s.phase, b, Receive(s, b).0.phase, Receive(s, b).1)
  {}

  /** What every byte returns, in every state. */
  lemma ReturnRule(s: Rx, b: octet)
    ensures Returns(s.phase, b, Receive(s, b).0.phase, Receive(s, b).1)
  {
    hide Returns, Receive;
    if s.phase == Start1 || s.phase == Start2 || s.phase == TypeMethod {
      SyncReturns(s, b);
    } else if s.phase == Stop1 || s.phase == Stop2 {
      StopReturns(s, b);
    } else if s.phase == Crc2 {
      VerdictReturns(s, b);
    } else if s.phase == Ecc0 || s.phase == Ecc1 || s.phase == Crc1 {
      CheckReturns(s, b);
    } else {
      FieldReturns(s, b);
    }
  }

  // ---- What the decoder remembers of a delivered frame: whether it was mended.

  lemma StopKeeps(u: Rx)
    requires u.phase == Stop1
    ensures Final(u, [STOP1] + [STOP2]) == u.(phase := Start1)
  {
    hide Final, Outputs, Crc, Outcome, WithHigh;
    FeedConcat(u, [STOP1], [STOP2]);
    FeedOne(u, STOP1);
    FeedOne(u.(phase := Stop2), STOP2);
  }

  lemma MendedStep(id: word, seqByte: octet, p: seq<octet>, ecc0: octet, ecc1: octet, crc: word)
    requires |p| <= DATA_MAX
    requires WireOutput(id, seqByte, p, ecc0, ecc1, crc).Delivered?
    ensures var u := Receive(BeforeVerdict(id, seqByte, p, ecc0, ecc1, crc), Hi(crc)).0;
            && u.phase == Stop1
            && u.corrected == (Crc(0, Covered(id, seqByte, p, ecc0, ecc1)) != crc &&
                               Outcome(p, ecc0, ecc1).0 == EccCorrected)
  {
    hide Hi, Lo, WithHigh, Crc, Outcome, Covered;
    IdBytes(crc);
  }

  lemma LastThree<T>(body: seq<T>, a: T, b: T, c: T)
    ensures body + [a] + [b] + [c] == body + ([a] + ([b] + [c]))
  {}

  /** Where the decoder is after a delivered frame. */
  lemma FinalOfWire(s: Rx, id: word, seqByte: octet, p: seq<octet>, ecc0: octet, ecc1: octet, crc: word)
    requires s.phase == Start1 && |p| <= DATA_MAX
    requires WireOutput(id, seqByte, p, ecc0, ecc1, crc).Delivered?
    ensures Final(s, Wire(START1, id, seqByte, p, ecc0, ecc1, crc)) ==
            Receive(BeforeVerdict(id, seqByte, p, ecc0, ecc1, crc), Hi(crc)).0.(phase := Start1)
  {
    assert IsStart1(START1) && |p| <= DATA_MAX;
    hide *;
    var body := Header(START1, id, seqByte, |p|) + p + [ecc0] + [ecc1] + [Lo(crc)];
    BodyBytes(s, START1, id, seqByte, p, ecc0, ecc1, crc);
    WireShape(START1, id, seqByte, p, ecc0, ecc1, crc);
    var t := BeforeVerdict(id, seqByte, p, ecc0, ecc1, crc);
    LastThree(body, Hi(crc), STOP1, STOP2);
    QuietThen(s, body, t, [Hi(crc)] + ([STOP1] + [STOP2]));
    FeedConcat(t, [Hi(crc)], [STOP1] + [STOP2]);
    FeedOne(t, Hi(crc));
    MendedStep(id, seqByte, p, ecc0, ecc1, crc);
    StopKeeps(Receive(t, Hi(crc)).0);
  }

  /** After any delivered frame the flag says whether error correction changed the payload. */
  lemma MendedFlag(s: Rx, id: word, seqByte: octet, p: seq<octet>, ecc0: octet, ecc1: octet, crc: word)
    requires s.phase == Start1 && |p| <= DATA_MAX
    requires WireOutput(id, seqByte, p, ecc0, ecc1, crc).Delivered?
    ensures Outputs(s, Wire(START1, id, seqByte, p, ecc0, ecc1, crc)) == [WireOutput(id, seqByte, p, ecc0, ecc1, crc)]
    ensures Final(s, Wire(START1, id, seqByte, p, ecc0, ecc1, crc)).corrected <==>
            WireOutput(id, seqByte, p, ecc0, ecc1, crc).frame.payload != p
  {
    assert IsStart1(START1) && |p| <= DATA_MAX;
    hide *;
    WireParses(s, START1, id, seqByte, p, ecc0, ecc1, crc);
    FinalOfWire(s, id, seqByte, p, ecc0, ecc1, crc);
    MendedStep(id, seqByte, p, ecc0, ecc1, crc);
    MendedPayload(id, seqByte, p, ecc0, ecc1, crc);
  }

  /** A repair changes the payload; nothing else does. */
  lemma MendedPayload(id: word, seqByte: octet, p: seq<octet>, ecc0: octet, ecc1: octet, crc: word)
    requires |p| <= DATA_MAX && WireOutput(id, seqByte, p, ecc0, ecc1, crc).Delivered?
    ensures WireOutput(id, seqByte, p, ecc0, ecc1, crc).frame.payload != p <==>
            Crc(0, Covered(id, seqByte, p, ecc0, ecc1)) != crc && Outcome(p, ecc0, ecc1).0 == EccCorrected
  {
    hide Crc, Parity, Locator, Covered;
    var (result, fixed) := Outcome(p, ecc0, ecc1);
    if result == EccCorrected { RepairDiffers(p, fixed, ecc0, ecc1); }
  }

  lemma RepairDiffers(block: seq<octet>, fixed: seq<octet>, ecc0: octet, ecc1: octet)
    requires Outcome(block, ecc0, ecc1) == (EccCorrected, fixed)
    ensures fixed != block
  {
    hide Parity, Locator, Xor;
    var k, e :| 0 <= k < |block| && e != 0 && fixed == Flip(block, k, e);
    XorPattern(block[k], Xor(block[k], e));
    XorLaws(block[k], e);
    XorAssoc(block[k], block[k], e);
    XorLaws(e, 0);
    assert fixed[k] == Xor(block[k], e);
  }

  // ---- The published check value.

  lemma StepTo(c: word, m: seq<octet>, b: octet, d: word)
    requires Crc(0, m) == c && Update(c, b) == d
    ensures Crc(0, m + [b]) == d
  {
    hide Update;
    CrcAppend(0, m, b);
  }

  lemma FirstDigits()
    ensures Update(0x0000, 0x31) == 0x2672 && Update(0x2672, 0x32) == 0x20B5 && Update(0x20B5, 0x33) == 0x9752
  {}

  lemma MiddleDigits()
    ensures Update(0x9752, 0x34) == 0xD789 && Update(0xD789, 0x35) == 0x546C && Update(0x546C, 0x36) == 0x20E4
  {}

  lemma LastDigits()
    ensures Update(0x20E4, 0x37) == 0x86D6 && Update(0x86D6, 0x38) == 0x9015 && Update(0x9015, 0x39) == 0x31C3
  {}

  /** The CRC of the nine digits "123456789", as published for CRC-16/XMODEM. */
  lemma CheckValue()
    ensures Crc(0, [0x31, 0x32, 0x33, 0x34, 0x35, 0x36, 0x37, 0x38, 0x39]) == 0x31C3
  {
    hide Update;
    FirstDigits();
    MiddleDigits();
    LastDigits();
    StepTo(0x0000, [], 0x31, 0x2672);
    StepTo(0x2672, [] + [0x31], 0x32, 0x20B5);
    var m3: seq<octet> := [0x31, 0x32, 0x33];
    assert [] + [0x31] + [0x32] + [0x33] == m3;
    StepTo(0x20B5, [] + [0x31] + [0x32], 0x33, 0x9752);
    StepTo(0x9752, m3, 0x34, 0xD789);
    StepTo(0xD789, m3 + [0x34], 0x35, 0x546C);
    var m6: seq<octet> := [0x31, 0x32, 0x33, 0x34, 0x35, 0x36];
    assert m3 + [0x34] + [0x35] + [0x36] == m6;
    StepTo(0x546C, m3 + [0x34] + [0x35], 0x36, 0x20E4);
    StepTo(0x20E4, m6, 0x37, 0x86D6);
    StepTo(0x86D6, m6 + [0x37], 0x38, 0x9015);
    StepTo(0x9015, m6 + [0x37] + [0x38], 0x39, 0x31C3);
    assert m6 + [0x37] + [0x38] + [0x39] == [0x31, 0x32, 0x33, 0x34, 0x35, 0x36, 0x37, 0x38, 0x39];
  }
}
