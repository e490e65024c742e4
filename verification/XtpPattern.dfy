/** Damage to a frame beyond its framing bytes. Both checks are linear, so what the receiver makes of it depends on the
    error pattern alone and not on the frame. */
module XtpPattern {
  import opened Common
  import opened XtpLfsr
  import opened XtpCrc
  import opened XtpEcc
  import opened XtpFrame
  import opened XtpLink

  // ---- Patterns on byte strings.

  function XorAll(p: seq<octet>, q: seq<octet>): (r: seq<octet>)
    requires |p| == |q|
    ensures |r| == |p|
  {
    seq(|p|, i requires 0 <= i < |p| => Xor(p[i], q[i]))
  }

  lemma XorAllLast(p: seq<octet>, q: seq<octet>)
    requires |p| == |q| > 0
    ensures var n := |p| - 1; XorAll(p, q)[..n] == XorAll(p[..n], q[..n]) && XorAll(p, q)[n] == Xor(p[n], q[n])
  {}

  lemma XorAllConcat(p: seq<octet>, q: seq<octet>, r: seq<octet>, s: seq<octet>)
    requires |p| == |q| && |r| == |s|
    ensures XorAll(p + r, q + s) == XorAll(p, q) + XorAll(r, s)
  {
    hide Xor;
  }

  lemma XorExchange(p: octet, q: octet, r: octet, s: octet)
    ensures Xor(Xor(p, q), Xor(r, s)) == Xor(Xor(p, r), Xor(q, s))
  {
    hide *;
    XorAssoc(p, q, Xor(r, s));
    XorAssoc(q, r, s);
    XorLaws(q, r);
    XorAssoc(r, q, s);
    XorAssoc(p, r, Xor(q, s));
  }

  lemma {:induction false} CrcLinear(c: word, d: word, p: seq<octet>, q: seq<octet>)
    requires |p| == |q|
    ensures Crc(WordXor(c, d), XorAll(p, q)) == WordXor(Crc(c, p), Crc(d, q))
    decreases |p|
  {
    hide Update, Xor, WordXor, XorAll;
    if p == [] {
    } else {
      var n := |p| - 1;
      XorAllLast(p, q);
      CrcLinear(c, d, p[..n], q[..n]);
      UpdateLinear(Crc(c, p[..n]), Crc(d, q[..n]), p[n], q[n]);
    }
  }

  lemma {:induction false} ParityLinear(p: seq<octet>, q: seq<octet>)
    requires |p| == |q|
    ensures Parity(XorAll(p, q)) == Xor(Parity(p), Parity(q))
    decreases |p|
  {
    hide Xor, XorAll;
    if p == [] {
      XorLaws(0, 0);
    } else {
      var n := |p| - 1;
      XorAllLast(p, q);
      ParityLinear(p[..n], q[..n]);
      XorExchange(Parity(p[..n]), Parity(q[..n]), p[n], q[n]);
    }
  }

  lemma {:induction false} LocatorLinear(p: seq<octet>, q: seq<octet>)
    requires |p| == |q|
    ensures Locator(XorAll(p, q)) == Xor(Locator(p), Locator(q))
    decreases |p|
  {
    hide Xor, XorAll, Step;
    if p == [] {
      XorLaws(0, 0);
    } else {
      var n := |p| - 1;
      XorAllLast(p, q);
      LocatorLinear(p[..n], q[..n]);
      XorExchange(Locator(p[..n]), Locator(q[..n]), p[n], q[n]);
      StepLinear(Xor(Locator(p[..n]), p[n]), Xor(Locator(q[..n]), q[n]));
    }
  }

  // ---- Error correction sees only the pattern.

  lemma XorCancels(p: octet, q: octet, e: octet)
    ensures Xor(Xor(p, q), Xor(p, e)) == Xor(q, e)
    ensures Xor(p, q) == Xor(p, e) <==> q == e
  {}

  lemma FlipWithin(p: seq<octet>, q: seq<octet>, k: nat, e: octet)
    requires |p| == |q| && k < |p|
    ensures Flip(XorAll(p, q), k, e) == XorAll(p, Flip(q, k, e))
  {
    hide Xor;
    XorAssoc(p[k], q[k], e);
  }

  /** Decoding a damaged block is decoding its error pattern: the result is the same, and what is left of the pattern
      is what is wrong with the block. */
  lemma OutcomeShifts(p: seq<octet>, q: seq<octet>, e0: octet, e1: octet)
    requires |p| == |q| <= 255
    ensures Outcome(XorAll(p, q), Xor(Parity(p), e0), Xor(Locator(p), e1)) ==
            (Outcome(q, e0, e1).0, XorAll(p, Outcome(q, e0, e1).1))
  {
    hide Step, Iterate, Xor, Parity, Locator, Flip, Outcome, XorAll;
    var n, block, ecc0, ecc1 := |p|, XorAll(p, q), Xor(Parity(p), e0), Xor(Locator(p), e1);
    if n == 0 {
      EmptyOutcome(block, ecc0, ecc1);
      EmptyOutcome(q, e0, e1);
    } else {
      ParityLinear(p, q);
      LocatorLinear(p, q);
      XorCancels(Parity(p), Parity(q), e0);
      XorCancels(Locator(p), Locator(q), e1);
      var s0, s1 := Xor(Parity(q), e0), Xor(Locator(q), e1);
      XorZero(Parity(q), e0);
      if Aimed(n, s0, s1) {
        var k: nat :| Aims(n, s0, s1, k);
        AimedFix(block, ecc0, ecc1, k);
        AimedFix(q, e0, e1, k);
        FlipWithin(p, q, k, s0);
      } else if CodeWord(q, e0, e1) {
        IntactOutcome(block, ecc0, ecc1);
        IntactOutcome(q, e0, e1);
      } else {
        NotAimed(block, ecc0, ecc1);
        NotAimed(q, e0, e1);
      }
    }
  }

  lemma EmptyOutcome(block: seq<octet>, ecc0: octet, ecc1: octet)
    requires block == []
    ensures Outcome(block, ecc0, ecc1) == (EccFailUncorrected, [])
  {}

  lemma IntactOutcome(block: seq<octet>, ecc0: octet, ecc1: octet)
    requires block != [] && CodeWord(block, ecc0, ecc1)
    ensures Outcome(block, ecc0, ecc1) == (EccOk, block)
  {}

  // ---- Patterns on frames.

  /** What is added to the ID, SEQ, DATA, check and CRC bytes of a frame. */
  datatype Pattern = Pattern(id: word, seqByte: octet, payload: seq<octet>, ecc0: octet, ecc1: octet, crc: word)

  ghost predicate Matches(f: Frame, e: Pattern) { Sendable(f) && |e.payload| == |f.payload| }

  /** The bytes the receiver gets in place of the frame. */
  ghost function Damaged(f: Frame, e: Pattern): seq<octet>
    requires Matches(f, e)
  {
    Wire(START1, WordXor(f.id, e.id), Xor(f.seqByte, e.seqByte), XorAll(f.payload, e.payload),
         Xor(Parity(f.payload), e.ecc0), Xor(Locator(f.payload), e.ecc1), WordXor(FrameCrc(f), e.crc))
  }

  /** The bytes before and behind the payload. */
  function Head(id: word, seqByte: octet, n: octet): seq<octet> {
    [START1, START2, PROT_XFER, Lo(id), Hi(id), seqByte, n]
  }

  function Tail(ecc0: octet, ecc1: octet, crc: word): seq<octet> { [ecc0, ecc1, Lo(crc), Hi(crc), STOP1, STOP2] }

  /** The pattern byte by byte. */
  ghost function Spread(e: Pattern): seq<octet> {
    [0, 0, 0, Lo(e.id), Hi(e.id), e.seqByte, 0] + e.payload + [e.ecc0, e.ecc1, Lo(e.crc), Hi(e.crc), 0, 0]
  }

  lemma WireParts(id: word, seqByte: octet, p: seq<octet>, ecc0: octet, ecc1: octet, crc: word)
    requires |p| <= DATA_MAX
    ensures Wire(START1, id, seqByte, p, ecc0, ecc1, crc) ==
            Head(id, seqByte, |p| as octet) + p + Tail(ecc0, ecc1, crc)
  {
    hide Hi, Lo;
  }

  lemma BytesLinear(a: word, b: word)
    ensures Lo(WordXor(a, b)) == Xor(Lo(a), Lo(b)) && Hi(WordXor(a, b)) == Xor(Hi(a), Hi(b))
  {}

  lemma FourDamaged(a: octet, b: octet, c: octet, d: octet, a': octet, b': octet, c': octet, d': octet)
    ensures XorAll([a, b, c, d], [a', b', c', d']) == [Xor(a, a'), Xor(b, b'), Xor(c, c'), Xor(d, d')]
  {
    hide Xor;
  }

  lemma HeadDamaged(id: word, seqByte: octet, n: octet, e: Pattern)
    ensures Head(WordXor(id, e.id), Xor(seqByte, e.seqByte), n) ==
            XorAll(Head(id, seqByte, n), [0, 0, 0, Lo(e.id), Hi(e.id), e.seqByte, 0])
  {
    hide Hi, Lo, Xor, WordXor, XorAll;
    BytesLinear(id, e.id);
    StartKept();
    XorLaws(n, 0);
    FourDamaged(Lo(id), Hi(id), seqByte, n, Lo(e.id), Hi(e.id), e.seqByte, 0);
    var first, zero: seq<octet> := [START1, START2, PROT_XFER], [0, 0, 0];
    var fields, damage := [Lo(id), Hi(id), seqByte, n], [Lo(e.id), Hi(e.id), e.seqByte, 0];
    XorAllConcat(first, zero, fields, damage);
    ThreeFour(START1, START2, PROT_XFER, Lo(id), Hi(id), seqByte, n);
    ThreeFour(0, 0, 0, Lo(e.id), Hi(e.id), e.seqByte, 0);
    ThreeFour(START1, START2, PROT_XFER, Lo(WordXor(id, e.id)), Hi(WordXor(id, e.id)), Xor(seqByte, e.seqByte), n);
  }

  lemma ThreeFour<T>(a: T, b: T, c: T, d: T, e: T, f: T, g: T)
    ensures [a, b, c, d, e, f, g] == [a, b, c] + [d, e, f, g]
  {}

  lemma StartKept()
    ensures XorAll([START1, START2, PROT_XFER], [0, 0, 0]) == [START1, START2, PROT_XFER]
  {
    hide Xor;
    XorLaws(START1, 0);
    XorLaws(START2, 0);
    XorLaws(PROT_XFER, 0);
  }

  lemma TailDamaged(ecc0: octet, ecc1: octet, crc: word, e: Pattern)
    ensures Tail(Xor(ecc0, e.ecc0), Xor(ecc1, e.ecc1), WordXor(crc, e.crc)) ==
            XorAll(Tail(ecc0, ecc1, crc), [e.ecc0, e.ecc1, Lo(e.crc), Hi(e.crc), 0, 0])
  {
    hide Hi, Lo, Xor, WordXor;
    BytesLinear(crc, e.crc);
    XorLaws(STOP1, 0);
    XorLaws(STOP2, 0);
  }

  /** Adding a pattern to the fields is adding it to the bytes. */
  lemma DamagedBytes(f: Frame, e: Pattern)
    requires Matches(f, e)
    ensures |EncodeFrame(f)| == |Spread(e)| && Damaged(f, e) == XorAll(EncodeFrame(f), Spread(e))
  {
    hide Hi, Lo, Parity, Locator, FrameCrc, Xor, WordXor, Head, Tail, Wire, XorAll;
    var ecc0, ecc1, crc, n := Parity(f.payload), Locator(f.payload), FrameCrc(f), |f.payload| as octet;
    WireParts(f.id, f.seqByte, f.payload, ecc0, ecc1, crc);
    WireParts(WordXor(f.id, e.id), Xor(f.seqByte, e.seqByte), XorAll(f.payload, e.payload), Xor(ecc0, e.ecc0),
              Xor(ecc1, e.ecc1), WordXor(crc, e.crc));
    HeadDamaged(f.id, f.seqByte, n, e);
    TailDamaged(ecc0, ecc1, crc, e);
    HeadSize(f.id, f.seqByte, n, ecc0, ecc1, crc);
    var head, tail := [0, 0, 0, Lo(e.id), Hi(e.id), e.seqByte, 0], [e.ecc0, e.ecc1, Lo(e.crc), Hi(e.crc), 0, 0];
    XorAllConcat(Head(f.id, f.seqByte, n), head, f.payload, e.payload);
    XorAllConcat(Head(f.id, f.seqByte, n) + f.payload, head + e.payload, Tail(ecc0, ecc1, crc), tail);
  }

  lemma HeadSize(id: word, seqByte: octet, n: octet, ecc0: octet, ecc1: octet, crc: word)
    ensures |Head(id, seqByte, n)| == 7 && |Tail(ecc0, ecc1, crc)| == 6
  {}

  /** The CRC does not see the pattern. */
  ghost predicate CrcBlind(e: Pattern) {
    Crc(0, [0, Lo(e.id), Hi(e.id), e.seqByte, 0] + e.payload + [e.ecc0, e.ecc1]) == e.crc
  }

  /** What is left of the payload's error when the frame is delivered; None when it is not. The check bytes only speak
      once the CRC has failed. */
  ghost function Residual(e: Pattern): Option<seq<octet>> {
    if CrcBlind(e) then Some(e.payload)
    else
      var (result, left) := Outcome(e.payload, e.ecc0, e.ecc1);
      if result == EccOk || result == EccCorrected then Some(left) else None
  }

  lemma CoveredDamaged(f: Frame, e: Pattern)
    requires Matches(f, e)
    ensures Crc(0, Covered(WordXor(f.id, e.id), Xor(f.seqByte, e.seqByte), XorAll(f.payload, e.payload),
                           Xor(Parity(f.payload), e.ecc0), Xor(Locator(f.payload), e.ecc1))) ==
            WordXor(FrameCrc(f), Crc(0, [0, Lo(e.id), Hi(e.id), e.seqByte, 0] + e.payload + [e.ecc0, e.ecc1]))
  {
    hide Crc, Hi, Lo, Parity, Locator, Xor, WordXor, XorAll;
    var n, ecc0, ecc1 := |f.payload| as octet, Parity(f.payload), Locator(f.payload);
    var head, head' := [PROT_XFER, Lo(f.id), Hi(f.id), f.seqByte, n], [0, Lo(e.id), Hi(e.id), e.seqByte, 0];
    CoveredParts(f.id, f.seqByte, n, e);
    XorAllConcat(head, head', f.payload, e.payload);
    XorAllConcat(head + f.payload, head' + e.payload, [ecc0, ecc1], [e.ecc0, e.ecc1]);
    PairDamaged(ecc0, ecc1, e);
    CrcLinear(0, 0, head + f.payload + [ecc0, ecc1], head' + e.payload + [e.ecc0, e.ecc1]);
    WordXorZero(0);
  }

  lemma CoveredParts(id: word, seqByte: octet, n: octet, e: Pattern)
    ensures [PROT_XFER, Lo(WordXor(id, e.id)), Hi(WordXor(id, e.id)), Xor(seqByte, e.seqByte), n] ==
            XorAll([PROT_XFER, Lo(id), Hi(id), seqByte, n], [0, Lo(e.id), Hi(e.id), e.seqByte, 0])
  {
    hide Hi, Lo, Xor, WordXor;
    BytesLinear(id, e.id);
    XorLaws(PROT_XFER, 0);
    XorLaws(n, 0);
  }

  lemma PairDamaged(ecc0: octet, ecc1: octet, e: Pattern)
    ensures [Xor(ecc0, e.ecc0), Xor(ecc1, e.ecc1)] == XorAll([ecc0, ecc1], [e.ecc0, e.ecc1])
  {}

  lemma WordXorMatches(a: word, b: word, c: word)
    ensures WordXor(a, b) == WordXor(a, c) <==> b == c
  {}

  /** What becomes of any frame under any pattern: it is delivered exactly when the pattern, by itself, is, and with
      what is left of the pattern added to it. */
  lemma PatternRule(s: Rx, f: Frame, e: Pattern)
    requires s.phase == Start1 && Matches(f, e)
    ensures Residual(e).Some? ==> |Residual(e).value| == |f.payload|
    ensures Outputs(s, Damaged(f, e)) ==
            if Residual(e).None? then [Failed(ErrCrc)]
            else [Delivered(Frame(WordXor(f.id, e.id), Xor(f.seqByte, e.seqByte),
                                  XorAll(f.payload, Residual(e).value)))]
  {
    hide Outputs, Final, Crc, Hi, Lo, Parity, Locator, Outcome, Xor, WordXor, XorAll, FrameCrc, Wire;
    var p, ecc0, ecc1 := f.payload, Parity(f.payload), Locator(f.payload);
    var sum := Crc(0, [0, Lo(e.id), Hi(e.id), e.seqByte, 0] + e.payload + [e.ecc0, e.ecc1]);
    WireParses(s, START1, WordXor(f.id, e.id), Xor(f.seqByte, e.seqByte), XorAll(p, e.payload), Xor(ecc0, e.ecc0),
               Xor(ecc1, e.ecc1), WordXor(FrameCrc(f), e.crc));
    CoveredDamaged(f, e);
    WordXorMatches(FrameCrc(f), sum, e.crc);
    OutcomeShifts(p, e.payload, e.ecc0, e.ecc1);
  }

  // ---- Patterns of two bytes.

  function Zeros(n: nat): (r: seq<octet>)
    ensures |r| == n
  {
    seq(n, _ => 0)
  }

  lemma XorNothing(p: seq<octet>)
    ensures XorAll(p, Zeros(|p|)) == p
  {
    hide Xor;
    forall i | 0 <= i < |p| ensures Xor(p[i], 0) == p[i] { XorLaws(p[i], 0); }
  }

  lemma WordXorNothing(a: word)
    ensures WordXor(a, 0) == a
  {}

  lemma {:induction false} CrcOfZeros(n: nat)
    ensures Crc(0, Zeros(n)) == 0
  {
    hide Update;
    if n == 0 {
    } else {
      CrcOfZeros(n - 1);
      assert Zeros(n)[..n - 1] == Zeros(n - 1);
      assert Update(0, 0) == 0 by { UpdateNothing(); }
    }
  }

  lemma UpdateNothing()
    ensures Update(0, 0) == 0
  {}

  lemma {:induction false} NothingToCheck(n: nat)
    ensures Parity(Zeros(n)) == 0 && Locator(Zeros(n)) == 0
  {
    if n == 0 {
    } else {
      NothingToCheck(n - 1);
      assert Zeros(n)[..n - 1] == Zeros(n - 1);
    }
  }

  /** Zeros around a pattern do not matter to the CRC. */
  lemma Surrounded(before: nat, m: seq<octet>, after: nat)
    ensures Crc(0, Zeros(before) + m + Zeros(after)) == 0 <==> Crc(0, m) == 0
  {
    hide Crc, Zeros;
    CrcOfZeros(before);
    CrcOfZeros(after);
    CrcConcat(0, Zeros(before), m);
    CrcConcat(0, Zeros(before) + m, Zeros(after));
    if Crc(Crc(0, m), Zeros(after)) == 0 { TailInjective(Crc(0, m), 0, Zeros(after)); }
  }

  // ---- The header.

  ghost function HeaderPattern(id: word, seqByte: octet, n: nat): Pattern {
    Pattern(id, seqByte, Zeros(n), 0, 0, 0)
  }

  /** The changes of ID and SEQ that the CRC misses. */
  ghost predicate HeaderBlind(id: word, seqByte: octet) {
    Update(Update(Update(0, Lo(id)), Hi(id)), seqByte) == 0
  }

  lemma HeaderCovered(id: word, seqByte: octet, n: nat)
    ensures CrcBlind(HeaderPattern(id, seqByte, n)) <==> HeaderBlind(id, seqByte)
  {
    hide Crc, Hi, Lo, Update;
    var fields := [Lo(id), Hi(id), seqByte];
    assert [0, Lo(id), Hi(id), seqByte, 0] + Zeros(n) + [0, 0] == Zeros(1) + fields + Zeros(n + 3);
    Surrounded(1, fields, n + 3);
    CrcTriple(0, [], Lo(id), Hi(id), seqByte);
    assert [] + [Lo(id), Hi(id), seqByte] == fields;
    CrcNothing();
  }

  lemma CrcNothing()
    ensures Crc(0, []) == 0
  {}

  /** Any change of ID and SEQ, exactly: the frame is lost if it has no payload and the change is visible to the CRC;
      otherwise it is delivered under the changed header. */
  lemma HeaderRule(s: Rx, f: Frame, id: word, seqByte: octet)
    requires s.phase == Start1 && Sendable(f)
    ensures Matches(f, HeaderPattern(id, seqByte, |f.payload|))
    ensures Outputs(s, Damaged(f, HeaderPattern(id, seqByte, |f.payload|))) ==
            if f.payload == [] && !HeaderBlind(id, seqByte) then [Failed(ErrCrc)]
            else [Delivered(Frame(WordXor(f.id, id), Xor(f.seqByte, seqByte), f.payload))]
  {
    hide Outputs, Damaged, CrcBlind, HeaderBlind, Xor, WordXor, XorAll, Parity, Locator, Outcome;
    var n := |f.payload|;
    var e := HeaderPattern(id, seqByte, n);
    PatternRule(s, f, e);
    HeaderCovered(id, seqByte, n);
    XorNothing(f.payload);
    NothingToCheck(n);
    if n == 0 { EmptyOutcome(Zeros(0), 0, 0); } else { IntactOutcome(Zeros(n), 0, 0); }
  }

  lemma HiddenHeader()
    ensures HeaderBlind(0x0089, 0xA1)
  {
    hide Update;
    TripleCancelsCrc();
    assert Lo(0x0089) == 0x89 && Hi(0x0089) == 0;
  }

  /** Every frame, with or without a payload, hides a double error: two header bytes are wrong, and it is delivered
      under the wrong header with no error reported. */
  lemma FrameHidesDoubleError(s: Rx, f: Frame)
    requires s.phase == Start1 && Sendable(f)
    ensures var frame, wrong := EncodeFrame(f), Frame(WordXor(f.id, 0x0089), Xor(f.seqByte, 0xA1), f.payload);
            && Outputs(s, frame[3 := Xor(frame[3], 0x89)][5 := Xor(frame[5], 0xA1)]) == [Delivered(wrong)]
            && wrong.id != f.id && wrong.seqByte != f.seqByte
  {
    hide Outputs, Damaged, HeaderBlind, Xor, XorAll, EncodeFrame, WordXor;
    HiddenHeader();
    HeaderRule(s, f, 0x0089, 0xA1);
    DamagedBytes(f, HeaderPattern(0x0089, 0xA1, |f.payload|));
    HeaderBytesHit(f);
    ChangesByte(f.seqByte, 0xA1);
    ChangesWord(f.id);
  }

  lemma ChangesWord(a: word)
    ensures WordXor(a, 0x0089) != a
  {}

  lemma HeaderBytesHit(f: Frame)
    requires Sendable(f)
    ensures var frame, e := EncodeFrame(f), HeaderPattern(0x0089, 0xA1, |f.payload|);
            && |frame| == |Spread(e)|
            && frame[3 := Xor(frame[3], 0x89)][5 := Xor(frame[5], 0xA1)] == XorAll(frame, Spread(e))
  {
    hide Xor, EncodeFrame;
    var frame, e := EncodeFrame(f), HeaderPattern(0x0089, 0xA1, |f.payload|);
    assert Lo(e.id) == 0x89 && Hi(e.id) == 0 && Lo(e.crc) == 0 && Hi(e.crc) == 0;
    hide Lo, Hi;
    forall i | 0 <= i < |frame| ensures Xor(frame[i], 0) == frame[i] { XorLaws(frame[i], 0); }
  }

  // ---- The check bytes.

  lemma CheckCovered(n: nat, e0: octet, e1: octet)
    requires e0 != 0 || e1 != 0
    ensures !CrcBlind(Pattern(0, 0, Zeros(n), e0, e1, 0))
  {
    hide Crc, Update;
    assert Lo(0) == 0 && Hi(0) == 0;
    hide Lo, Hi;
    assert [0, 0, 0, 0, 0] + Zeros(n) + [e0, e1] == Zeros(n + 5) + [e0, e1] + Zeros(0);
    Surrounded(n + 5, [e0, e1], 0);
    CrcPair(0, [], e0, e1);
    assert [] + [e0, e1] == [e0, e1];
    CrcNothing();
    UpdateNothing();
    if Crc(0, [e0, e1]) == 0 { PairInjective(0, e0, e1, 0, 0); }
  }

  /** Both check bytes wrong and everything else intact: the frame is lost exactly when no place in the payload fits the
      two errors. Otherwise the intact payload is spoilt there and handed on. */
  lemma CheckBytesRule(s: Rx, f: Frame, e0: octet, e1: octet)
    requires s.phase == Start1 && Sendable(f) && e0 != 0 && e1 != 0
    ensures var e := Pattern(0, 0, Zeros(|f.payload|), e0, e1, 0);
            && Matches(f, e)
            && if Aimed(|f.payload|, e0, e1) then
                 exists k: nat :: k < |f.payload| && Aims(|f.payload|, e0, e1, k) &&
                   Outputs(s, Damaged(f, e)) == [Delivered(Frame(f.id, f.seqByte, Flip(f.payload, k, e0)))]
               else Outputs(s, Damaged(f, e)) == [Failed(ErrCrc)]
  {
    hide Outputs, Damaged, CrcBlind, Xor, WordXor, XorAll, Parity, Locator, Outcome, Aims, Flip;
    var n := |f.payload|;
    var e := Pattern(0, 0, Zeros(n), e0, e1, 0);
    PatternRule(s, f, e);
    CheckCovered(n, e0, e1);
    XorNothing(f.payload);
    WordXorNothing(f.id);
    XorLaws(f.seqByte, 0);
    NothingToCheck(n);
    XorLaws(0, e0);
    XorLaws(e0, 0);
    XorLaws(0, e1);
    XorLaws(e1, 0);
    if n == 0 {
      EmptyOutcome(Zeros(0), e0, e1);
      assert !Aimed(0, e0, e1) by { NowhereToAim(e0, e1); }
    } else {
      CheckBytesWrong(Zeros(n), e0, e1);
      if Aimed(n, e0, e1) {
        var k: nat :| k < n && Aims(n, e0, e1, k) && Outcome(Zeros(n), e0, e1).1 == Flip(Zeros(n), k, e0);
        FlipWithin(f.payload, Zeros(n), k, e0);
      }
    }
  }

  lemma NowhereToAim(s0: octet, s1: octet)
    ensures !Aimed(0, s0, s1)
  {}

  // ---- Two DATA bytes.

  function Pair(n: nat, i: nat, j: nat, a: octet, b: octet): (r: seq<octet>)
    requires i < j < n
    ensures |r| == n
  {
    Flip(Flip(Zeros(n), i, a), j, b)
  }

  /** Two errors this far apart leave the CRC as it was. */
  ghost predicate PairBlind(gap: nat, a: octet, b: octet)
    requires gap > 0
  {
    Crc(0, [a] + Zeros(gap - 1) + [b]) == 0
  }

  lemma PairCovered(n: nat, i: nat, j: nat, a: octet, b: octet)
    requires i < j < n
    ensures CrcBlind(Pattern(0, 0, Pair(n, i, j, a, b), 0, 0, 0)) <==> PairBlind(j - i, a, b)
  {
    hide Crc;
    assert Lo(0) == 0 && Hi(0) == 0;
    XorLaws(0, a);
    XorLaws(a, 0);
    XorLaws(0, b);
    XorLaws(b, 0);
    hide Lo, Hi, Xor;
    var m := [a] + Zeros(j - i - 1) + [b];
    assert [0, 0, 0, 0, 0] + Pair(n, i, j, a, b) + [0, 0] == Zeros(5 + i) + m + Zeros(n - j + 1);
    Surrounded(5 + i, m, n - j + 1);
  }

  lemma PairAdded(p: seq<octet>, i: nat, j: nat, a: octet, b: octet)
    requires i < j < |p|
    ensures XorAll(p, Pair(|p|, i, j, a, b)) == Flip(Flip(p, i, a), j, b)
  {
    hide XorAll, Flip;
    XorNothing(p);
    FlipWithin(p, Zeros(|p|), i, a);
    FlipWithin(p, Flip(Zeros(|p|), i, a), j, b);
  }

  /** Two wrong DATA bytes anywhere, exactly: when the CRC misses them the frame is delivered with both; otherwise, when
      they look like a single one, it is delivered with a third byte wrong as well; otherwise it is lost. */
  lemma DataPairRule(s: Rx, f: Frame, i: nat, j: nat, a: octet, b: octet)
    requires s.phase == Start1 && Sendable(f) && i < j < |f.payload| && a != 0 && b != 0
    ensures var e := Pattern(0, 0, Pair(|f.payload|, i, j, a, b), 0, 0, 0);
            var hit := Flip(Flip(f.payload, i, a), j, b);
            var (result, fixed) := Outcome(hit, Parity(f.payload), Locator(f.payload));
            && Matches(f, e) && hit != f.payload && fixed != f.payload
            && Outputs(s, Damaged(f, e)) ==
               if PairBlind(j - i, a, b) then [Delivered(Frame(f.id, f.seqByte, hit))]
               else if Mistaken(|f.payload|, i, j, a, b) then [Delivered(Frame(f.id, f.seqByte, fixed))]
               else [Failed(ErrCrc)]
  {
    hide Outputs, Damaged, CrcBlind, PairBlind, Xor, WordXor, XorAll, Parity, Locator, Outcome, Pair, Flip, Iterate,
         Mistaken;
    var n, p := |f.payload|, f.payload;
    var q, hit := Pair(n, i, j, a, b), Flip(Flip(p, i, a), j, b);
    PatternRule(s, f, Pattern(0, 0, q, 0, 0, 0));
    PairCovered(n, i, j, a, b);
    PairAdded(p, i, j, a, b);
    WordXorNothing(f.id);
    XorLaws(f.seqByte, 0);
    DoubleErrorRule(p, i, j, a, b);
    DoubleErrorNotRestored(p, i, j, a, b);
    if Mistaken(n, i, j, a, b) { NotVanishing(n, i, j, a, b); }
    XorLaws(Parity(p), 0);
    XorLaws(Locator(p), 0);
    OutcomeShifts(p, q, 0, 0);
    TwoHit(p, i, j, a, b);
  }

  lemma TwoHit(p: seq<octet>, i: nat, j: nat, a: octet, b: octet)
    requires i < j < |p| && a != 0
    ensures Flip(Flip(p, i, a), j, b) != p
  {
    hide Xor;
    ChangesByte(p[i], a);
    assert Flip(Flip(p, i, a), j, b)[i] != p[i];
  }

  /** The same pattern that hides in the header hides in the payload: two wrong bytes handed on without error correction
      being asked. */
  lemma DataHidesDoubleError(s: Rx, f: Frame, k: nat)
    requires s.phase == Start1 && Sendable(f) && k + 2 < |f.payload|
    ensures var e := Pattern(0, 0, Pair(|f.payload|, k, k + 2, 0x89, 0xA1), 0, 0, 0);
            var hit := Flip(Flip(f.payload, k, 0x89), k + 2, 0xA1);
            && Matches(f, e) && hit != f.payload
            && Outputs(s, Damaged(f, e)) == [Delivered(Frame(f.id, f.seqByte, hit))]
  {
    hide Outputs, Damaged, CrcBlind, Outcome, Pair, Flip, Iterate, Mistaken, Update, Crc;
    DataPairRule(s, f, k, k + 2, 0x89, 0xA1);
    PairHidden();
  }

  lemma PairHidden()
    ensures PairBlind(2, 0x89, 0xA1)
  {
    hide Crc, Update;
    var m: seq<octet> := [0x89, 0, 0xA1];
    assert [0x89] + Zeros(1) + [0xA1] == m;
    CrcTriple(0, [], 0x89, 0, 0xA1);
    assert [] + m == m;
    CrcNothing();
    TripleCancelsCrc();
  }

  // ---- One DATA byte and the check bytes.

  /** One wrong DATA byte, with the check bytes wrong by any amounts: refused, or delivered with whatever the two
      syndromes point at. */
  lemma DataCheckRule(p: seq<octet>, i: nat, a: octet, e0: octet, e1: octet)
    requires i < |p| <= 255
    ensures Outcome(Flip(p, i, a), Xor(Parity(p), e0), Xor(Locator(p), e1)).0 ==
            var s0, s1 := Xor(a, e0), Xor(Iterate(|p| - i, a), e1);
            if s0 == 0 && s1 == 0 then EccOk
            else if s0 == 0 || s1 == 0 then EccFailParity
            else if Aimed(|p|, s0, s1) then EccCorrected
            else EccFailUncorrected
  {
    hide Step, Iterate, Xor, Parity, Locator, Flip, Outcome, Aimed;
    FlipShifts(p, i, a);
    XorCancels(Parity(p), a, e0);
    XorCancels(Locator(p), Iterate(|p| - i, a), e1);
    OutcomeRule(Flip(p, i, a), Xor(Parity(p), e0), Xor(Locator(p), e1));
  }

  /** A wrong DATA byte and a wrong locator byte that together point at another byte: that one is spoilt as well. */
  lemma LocatorMisleads(p: seq<octet>, i: nat, k: nat, a: octet)
    requires i < |p| <= 255 && k < |p| && i != k && a != 0
    ensures var e1 := Xor(Iterate(|p| - i, a), Iterate(|p| - k, a));
            && e1 != 0
            && Outcome(Flip(p, i, a), Parity(p), Xor(Locator(p), e1)) == (EccCorrected, Flip(Flip(p, i, a), k, a))
            && Flip(Flip(p, i, a), k, a) != p
  {
    hide Step, Iterate, Xor, Parity, Locator, Flip, Outcome;
    var n, hit := |p|, Flip(p, i, a);
    var x, y := Iterate(n - i, a), Iterate(n - k, a);
    FlipShifts(p, i, a);
    XorCancels(Parity(p), a, 0);
    XorCancels(Locator(p), x, Xor(x, y));
    XorLaws(Parity(p), 0);
    XorLaws(a, 0);
    XorMove(x, Xor(x, y), y);
    XorLaws(x, y);
    XorLaws(y, x);
    AimedFix(hit, Parity(p), Xor(Locator(p), Xor(x, y)), k);
    OtherShift(n, i, k, a);
    XorZero(x, y);
    OtherHit(p, i, k, a);
  }

  lemma OtherShift(n: nat, i: nat, k: nat, a: octet)
    requires i < n <= 255 && k < n && i != k && a != 0
    ensures Iterate(n - i, a) != Iterate(n - k, a)
  {
    hide *;
    var low, high := if i < k then n - k else n - i, if i < k then n - i else n - k;
    IterateAdd(low, high - low, a);
    if Iterate(high, a) == Iterate(low, a) {
      IterateInjective(low, Iterate(high - low, a), a);
      ExactPeriod(high - low, a);
    }
  }

  lemma OtherHit(p: seq<octet>, i: nat, k: nat, a: octet)
    requires i < |p| && k < |p| && i != k && a != 0
    ensures Flip(Flip(p, i, a), k, a) != p
  {
    hide Xor;
    ChangesByte(p[i], a);
    assert Flip(Flip(p, i, a), k, a)[i] != p[i];
  }

  /** At the frame: one DATA byte and the locator are wrong, and a payload that was never sent is handed on, with one
      wrong byte in it or two. */
  lemma DataLocatorHit(s: Rx, f: Frame, i: nat, k: nat, a: octet)
    requires s.phase == Start1 && Sendable(f) && i < |f.payload| && k < |f.payload| && i != k && a != 0
    ensures var n := |f.payload|;
            var e1 := Xor(Iterate(n - i, a), Iterate(n - k, a));
            var e := Pattern(0, 0, Flip(Zeros(n), i, a), 0, e1, 0);
            && Matches(f, e) && e1 != 0
            && Outputs(s, Damaged(f, e)) ==
               [Delivered(Frame(f.id, f.seqByte,
                                if CrcBlind(e) then Flip(f.payload, i, a) else Flip(Flip(f.payload, i, a), k, a)))]
            && Flip(f.payload, i, a) != f.payload && Flip(Flip(f.payload, i, a), k, a) != f.payload
  {
    hide Outputs, Damaged, CrcBlind, Xor, WordXor, XorAll, Parity, Locator, Outcome, Flip, Iterate;
    var p, n := f.payload, |f.payload|;
    var e1 := Xor(Iterate(n - i, a), Iterate(n - k, a));
    var q := Flip(Zeros(n), i, a);
    PatternRule(s, f, Pattern(0, 0, q, 0, e1, 0));
    XorNothing(p);
    FlipWithin(p, Zeros(n), i, a);
    WordXorNothing(f.id);
    XorLaws(f.seqByte, 0);
    XorLaws(Parity(p), 0);
    LocatorMisleads(p, i, k, a);
    OutcomeShifts(p, q, 0, e1);
    OtherHit(p, i, k, a);
    OneHit(p, i, a);
  }

  lemma OneHit(p: seq<octet>, i: nat, a: octet)
    requires i < |p| && a != 0
    ensures Flip(p, i, a) != p
  {
    hide Xor;
    ChangesByte(p[i], a);
    assert Flip(p, i, a)[i] != p[i];
  }
}
