/** What becomes of a damaged frame: one byte replaced anywhere, or two payload bytes. */
module XtpDamage {
  import opened XtpLfsr
  import opened XtpCrc
  import opened XtpEcc
  import opened XtpFrame
  import opened XtpLink

  // ---- A frame cannot be delivered from fewer bytes than it has.

  /** The bytes of the current frame taken so far. */
  ghost function Taken(s: Rx): nat {
    match s.phase
    case Start1 => 0
    case Start2 => 1
    case TypeMethod => 2
    case Id => 3
    case IdHigh => 4
    case Seq => 5
    case Len => 6
    case Data => 7 + |s.payload|
    case Ecc0 => 7 + s.length
    case Ecc1 => 8 + s.length
    case Crc1 => 9 + s.length
    case Crc2 => 10 + s.length
    case Stop1 => 11 + s.length
    case Stop2 => 12 + s.length
  }

  /** One more byte is taken, or the frame is given up or complete. */
  ghost predicate Counts(s: Rx, t: Rx, r: Return) {
    && WellFormed(t) && Taken(t) <= Taken(s) + 1
    && (r == Valid ==> t.phase == Start1 && |t.payload| == s.length && Taken(s) == 12 + s.length)
  }

  lemma EarlyCounts(s: Rx, b: octet)
    requires WellFormed(s) && (s.phase == Start1 || BeforeLength(s.phase))
    ensures Counts(s, Receive(s, b).0, Receive(s, b).1)
  {
    hide Verdict, WithHigh, IsStart1, Count;
    ByteRange(b);
  }

  /** From LEN on the announced length stays. */
  ghost predicate Stays(s: Rx, t: Rx) { t.phase != Start1 ==> t.length == s.length && !BeforeLength(t.phase) }

  lemma DataCounts(s: Rx, b: octet)
    requires WellFormed(s) && (s.phase == Data || s.phase == Ecc0 || s.phase == Ecc1 || s.phase == Crc1)
    ensures Counts(s, Receive(s, b).0, Receive(s, b).1) && Stays(s, Receive(s, b).0)
  {
    hide Verdict, WithHigh, IsStart1, Count;
  }

  lemma VerdictCounts(s: Rx, b: octet)
    requires WellFormed(s) && s.phase == Crc2
    ensures Counts(s, Receive(s, b).0, Receive(s, b).1) && Stays(s, Receive(s, b).0)
  {
    hide Verdict, WithHigh, IsStart1, Count;
    VerdictKeeps(s.(crcReceived := WithHigh(s.crcReceived, b)));
  }

  lemma StopCounts(s: Rx, b: octet)
    requires WellFormed(s) && (s.phase == Stop1 || s.phase == Stop2)
    ensures Counts(s, Receive(s, b).0, Receive(s, b).1) && Stays(s, Receive(s, b).0)
  {
    hide Verdict, WithHigh, IsStart1, Count;
  }

  lemma LateCounts(s: Rx, b: octet)
    requires WellFormed(s) && s.phase != Start1 && !BeforeLength(s.phase)
    ensures Counts(s, Receive(s, b).0, Receive(s, b).1) && Stays(s, Receive(s, b).0)
  {
    hide Receive, WellFormed, Counts, Stays;
    if s.phase == Crc2 {
      VerdictCounts(s, b);
    } else if s.phase == Stop1 || s.phase == Stop2 {
      StopCounts(s, b);
    } else {
      DataCounts(s, b);
    }
  }

  lemma ReportIs(t: Rx, r: Return, f: Frame)
    requires Delivered(f) in Report(t, r)
    ensures r == Valid && f.payload == t.payload
  {}

  /** Every delivered frame accounts for at least its own length of input. */
  lemma {:induction false} DeliveryTakesBytes(s: Rx, bytes: seq<octet>, f: Frame)
    requires WellFormed(s) && Delivered(f) in Outputs(s, bytes)
    ensures |bytes| + Taken(s) >= OVERHEAD + |f.payload|
    decreases |bytes|
  {
    hide Receive, WellFormed, Taken, Report;
    var (t, r) := Receive(s, bytes[0]);
    if s.phase == Start1 || BeforeLength(s.phase) { EarlyCounts(s, bytes[0]); } else { LateCounts(s, bytes[0]); }
    if Delivered(f) in Report(t, r) {
      ReportIs(t, r, f);
    } else {
      DeliveryTakesBytes(t, bytes[1..], f);
    }
  }

  /** While a frame of another length is being taken, too little is left for this one. */
  lemma {:induction false} OtherLength(s: Rx, bytes: seq<octet>, f: Frame)
    requires WellFormed(s) && s.phase != Start1 && !BeforeLength(s.phase)
    requires s.length != |f.payload| && |bytes| < OVERHEAD + |f.payload|
    ensures Delivered(f) !in Outputs(s, bytes)
    decreases |bytes|
  {
    hide Receive, WellFormed, Report;
    if bytes == [] {
    } else {
      var (t, r) := Receive(s, bytes[0]);
      LateCounts(s, bytes[0]);
      if Delivered(f) in Report(t, r) { ReportIs(t, r, f); }
      if t.phase != Start1 {
        OtherLength(t, bytes[1..], f);
      } else if Delivered(f) in Outputs(t, bytes[1..]) {
        DeliveryTakesBytes(t, bytes[1..], f);
      }
    }
  }

  // ---- One byte replaced: START and TYPEMETHOD.

  /** The bytes of a frame from position 2 on. */
  function Rest(f: Frame): (r: seq<octet>)
    requires Sendable(f)
    ensures |r| == 11 + |f.payload|
  {
    EncodeFrame(f)[2..]
  }

  lemma FrameShape(f: Frame)
    requires Sendable(f)
    ensures EncodeFrame(f) == [START1] + ([START2] + Rest(f)) && Rest(f)[0] == PROT_XFER
    ensures EncodeFrame(f) ==
            Wire(START1, f.id, f.seqByte, f.payload, Parity(f.payload), Locator(f.payload), FrameCrc(f))
  {
    hide Crc, Hi, Lo, Parity, Locator, FrameCrc;
  }

  /** Too few bytes for this frame. */
  lemma TooShort(s: Rx, bytes: seq<octet>, f: Frame)
    requires WellFormed(s) && |bytes| + Taken(s) < OVERHEAD + |f.payload|
    ensures Delivered(f) !in Outputs(s, bytes)
  {
    hide *;
    if Delivered(f) in Outputs(s, bytes) { DeliveryTakesBytes(s, bytes, f); }
  }

  /** A START1 byte outside 0xC0..0xCF is not noticed, and what follows cannot be this frame. */
  lemma Start1Hit(s: Rx, f: Frame, b: octet)
    requires WellFormed(s) && s.phase == Start1 && Sendable(f) && !IsStart1(b)
    ensures Delivered(f) !in Outputs(s, [b] + ([START2] + Rest(f)))
    ensures Noise([START2] + Rest(f)) ==> Outputs(s, [b] + ([START2] + Rest(f))) == []
  {
    hide Outputs, Final, Crc, Outcome, WithHigh, IsStart1, Rest;
    var rest := [START2] + Rest(f);
    FeedConcat(s, [b], rest);
    FeedOne(s, b);
    assert Outputs(s, [b] + rest) == Outputs(s, rest);
    TooShort(s, rest, f);
    if Noise(rest) { NoiseIgnored(s, rest); }
  }

  /** A wrong START2 byte drops back to idle. */
  lemma Start2Hit(s: Rx, f: Frame, b: octet)
    requires WellFormed(s) && s.phase == Start1 && Sendable(f) && b != START2
    ensures Outputs(s, [START1] + ([b] + Rest(f))) == Outputs(RESET, Rest(f))
    ensures Delivered(f) !in Outputs(s, [START1] + ([b] + Rest(f)))
  {
    hide Outputs, Final, Crc, Outcome, WithHigh, Rest;
    FeedConcat(s, [START1], [b] + Rest(f));
    FeedOne(s, START1);
    var t := RESET.(phase := Start2);
    FeedConcat(t, [b], Rest(f));
    FeedOne(t, b);
    TooShort(RESET, Rest(f), f);
  }

  /** A wrong TYPEMETHOD byte is reported and drops back to idle. */
  lemma TypeMethodHit(s: Rx, f: Frame, b: octet)
    requires WellFormed(s) && s.phase == Start1 && Sendable(f) && b != PROT_XFER
    ensures Outputs(s, [START1] + ([START2] + ([b] + Rest(f)[1..]))) ==
            [Failed(ErrTypeMethod)] + Outputs(RESET, Rest(f)[1..])
    ensures Delivered(f) !in Outputs(s, [START1] + ([START2] + ([b] + Rest(f)[1..])))
  {
    hide Outputs, Final, Crc, Outcome, WithHigh, Rest;
    var rest := Rest(f)[1..];
    FeedConcat(s, [START1], [START2] + ([b] + rest));
    FeedOne(s, START1);
    var t := RESET.(phase := Start2);
    FeedConcat(t, [START2], [b] + rest);
    FeedOne(t, START2);
    var u := RESET.(phase := TypeMethod);
    FeedConcat(u, [b], rest);
    FeedOne(u, b);
    TooShort(RESET, rest, f);
  }

  // ---- One byte replaced: LEN.

  /** With another announced length the frame is never delivered as it was sent. */
  lemma LengthHit(s: Rx, f: Frame, n: nat)
    requires WellFormed(s) && s.phase == Start1 && Sendable(f) && n <= DATA_MAX && n != |f.payload|
    ensures Delivered(f) !in Outputs(s, Header(START1, f.id, f.seqByte, n) + EncodeFrame(f)[7..])
  {
    hide Outputs, Final, Crc, Hi, Lo, EncodeFrame;
    var header, rest := Header(START1, f.id, f.seqByte, n), EncodeFrame(f)[7..];
    HeaderBytes(s, START1, f.id, f.seqByte, n);
    QuietThen(s, header, AfterHeader(f.id, f.seqByte, n), rest);
    OtherLength(AfterHeader(f.id, f.seqByte, n), rest, f);
  }

  // ---- One byte replaced: STOP.

  /** A frame up to its CRC is accepted silently. */
  lemma UpToStop(s: Rx, f: Frame) returns (u: Rx)
    requires s.phase == Start1 && Sendable(f)
    ensures Quiet(s, EncodeFrame(f)[..11 + |f.payload|], u) && u.phase == Stop1
  {
    hide Crc, Hi, Lo, Parity, Locator, FrameCrc, Receive, Final, Outputs, Quiet, BeforeVerdict, EncodeFrame, Header;
    var ecc0, ecc1, crc := Parity(f.payload), Locator(f.payload), FrameCrc(f);
    var body := Header(START1, f.id, f.seqByte, |f.payload|) + f.payload + [ecc0] + [ecc1] + [Lo(crc)];
    var t := BeforeVerdict(f.id, f.seqByte, f.payload, ecc0, ecc1, crc);
    BodyBytes(s, START1, f.id, f.seqByte, f.payload, ecc0, ecc1, crc);
    u := Receive(t, Hi(crc)).0;
    CrcHolds(f);
    QuietByte(s, body, t, Hi(crc));
    BodyIsPrefix(f);
  }

  lemma CrcHolds(f: Frame)
    requires Sendable(f)
    ensures var s := BeforeVerdict(f.id, f.seqByte, f.payload, Parity(f.payload), Locator(f.payload), FrameCrc(f));
            var (u, r) := Receive(s, Hi(FrameCrc(f)));
            u.phase == Stop1 && r == InProg
  {
    hide Hi, Lo, WithHigh, Crc, Outcome, Covered, Parity, Locator;
    VerdictStep(f.id, f.seqByte, f.payload, Parity(f.payload), Locator(f.payload), FrameCrc(f));
  }

  lemma BodyIsPrefix(f: Frame)
    requires Sendable(f)
    ensures Header(START1, f.id, f.seqByte, |f.payload|) + f.payload + [Parity(f.payload)] + [Locator(f.payload)]
            + [Lo(FrameCrc(f))] + [Hi(FrameCrc(f))] == EncodeFrame(f)[..11 + |f.payload|]
  {
    hide Crc, Hi, Lo, Parity, Locator, FrameCrc;
    WireShape(START1, f.id, f.seqByte, f.payload, Parity(f.payload), Locator(f.payload), FrameCrc(f));
  }

  /** A wrong STOP byte, first or second, drops the frame with one error. */
  lemma StopHit(s: Rx, f: Frame, b: octet, second: bool)
    requires s.phase == Start1 && Sendable(f) && b != (if second then STOP2 else STOP1)
    ensures Outputs(s, EncodeFrame(f)[..11 + |f.payload|] + (if second then [STOP1] + [b] else [b] + [STOP2])) ==
            [Failed(ErrStop)]
  {
    hide Outputs, Final, Crc, Outcome, WithHigh, EncodeFrame;
    var u := UpToStop(s, f);
    var tail := if second then [STOP1] + [b] else [b] + [STOP2];
    QuietThen(s, EncodeFrame(f)[..11 + |f.payload|], u, tail);
    if second {
      FeedConcat(u, [STOP1], [b]);
      FeedOne(u, STOP1);
      FeedOne(u.(phase := Stop2), b);
    } else {
      FeedConcat(u, [b], [STOP2]);
      FeedOne(u, b);
      FeedOne(RESET, STOP2);
    }
  }

  // ---- Every position.

  /** The replacements a frame survives: another START1 of the same high nibble, any DATA byte, and a CRC byte of a
      frame with a payload. */
  predicate Survives(f: Frame, k: nat, b: octet) {
    var n := |f.payload|;
    (k == 0 && IsStart1(b)) || 7 <= k < 7 + n || (9 + n <= k < 11 + n && n > 0)
  }

  lemma PutLow(w: word, b: octet) returns (w': word)
    ensures Lo(w') == b && Hi(w') == Hi(w)
  {
    w' := WithHigh(b as word, Hi(w));
  }

  lemma PutHigh(w: word, b: octet) returns (w': word)
    ensures Lo(w') == Lo(w) && Hi(w') == b
  {
    w' := WithHigh(Lo(w) as word, b);
  }

  lemma StartRule(s: Rx, f: Frame, k: nat, b: octet)
    requires WellFormed(s) && s.phase == Start1 && Sendable(f) && k < 3 && b != EncodeFrame(f)[k]
    ensures Delivered(f) in Outputs(s, EncodeFrame(f)[k := b]) <==> Survives(f, k, b)
  {
    hide Outputs, Final, Crc, Hi, Lo, Parity, Locator, FrameCrc, Rest, IsStart1, EncodeFrame, Wire;
    FrameShape(f);
    var frame := EncodeFrame(f);
    if k == 0 {
      assert frame[0 := b] == [b] + ([START2] + Rest(f));
      if IsStart1(b) {
        NewStart(f, b);
        WireParses(s, b, f.id, f.seqByte, f.payload, Parity(f.payload), Locator(f.payload), FrameCrc(f));
      } else {
        Start1Hit(s, f, b);
      }
    } else if k == 1 {
      assert frame[1 := b] == [START1] + ([b] + Rest(f));
      Start2Hit(s, f, b);
    } else {
      assert frame[2 := b] == [START1] + ([START2] + ([b] + Rest(f)[1..]));
      TypeMethodHit(s, f, b);
    }
  }

  lemma NewStart(f: Frame, b: octet)
    requires Sendable(f)
    ensures EncodeFrame(f)[0 := b] ==
            Wire(b, f.id, f.seqByte, f.payload, Parity(f.payload), Locator(f.payload), FrameCrc(f))
    ensures WireOutput(f.id, f.seqByte, f.payload, Parity(f.payload), Locator(f.payload), FrameCrc(f)) == Delivered(f)
  {
    hide Crc, Hi, Lo, Parity, Locator;
  }

  lemma HeaderRule(s: Rx, f: Frame, k: nat, b: octet)
    requires WellFormed(s) && s.phase == Start1 && Sendable(f) && 3 <= k < 7 && b != EncodeFrame(f)[k]
    ensures Delivered(f) !in Outputs(s, EncodeFrame(f)[k := b])
  {
    hide Outputs, Final, EncodeFrame, Wire, Hi, Lo, Parity, Locator, FrameCrc;
    if k < 6 {
      var id, seqByte := IdReplaced(f, k, b);
      HeaderHit(s, f, id, seqByte);
      if f.payload == [] { NothingChecked(); HeaderNoticed(f, id, seqByte); }
    } else {
      LengthReplaced(f, b);
      LengthHit(s, f, Count(b));
    }
  }

  lemma NothingChecked()
    ensures Parity([]) == 0 && Locator([]) == 0
  {}

  lemma IdReplaced(f: Frame, k: nat, b: octet) returns (id: word, seqByte: octet)
    requires Sendable(f) && 3 <= k < 6 && b != EncodeFrame(f)[k]
    ensures (id != f.id || seqByte != f.seqByte) && (Lo(id) == Lo(f.id) || seqByte == f.seqByte)
    ensures EncodeFrame(f)[k := b] ==
            Wire(START1, id, seqByte, f.payload, Parity(f.payload), Locator(f.payload), FrameCrc(f))
  {
    hide *;
    HeaderAt(f);
    FieldsAt(f, k, b);
    id, seqByte := f.id, f.seqByte;
    if k == 3 { id := PutLow(f.id, b); } else if k == 4 { id := PutHigh(f.id, b); } else { seqByte := b; }
    FieldsGiven(f, id, seqByte);
  }

  /** The three bytes between TYPEMETHOD and LEN stand alone. */
  ghost function Fields(f: Frame, low: octet, high: octet, seqByte: octet): seq<octet>
    requires Sendable(f)
  {
    EncodeFrame(f)[..3] + [low, high, seqByte] + EncodeFrame(f)[6..]
  }

  lemma FieldsAt(f: Frame, k: nat, b: octet)
    requires Sendable(f) && 3 <= k < 6
    ensures EncodeFrame(f)[k := b] ==
            Fields(f, if k == 3 then b else Lo(f.id), if k == 4 then b else Hi(f.id), if k == 5 then b else f.seqByte)
  {
    hide Crc, Hi, Lo, EncodeFrame;
    HeaderAt(f);
  }

  lemma FieldsGiven(f: Frame, id: word, seqByte: octet)
    requires Sendable(f)
    ensures Fields(f, Lo(id), Hi(id), seqByte) ==
            Wire(START1, id, seqByte, f.payload, Parity(f.payload), Locator(f.payload), FrameCrc(f))
  {
    hide Crc, Hi, Lo, Parity, Locator, FrameCrc;
  }

  lemma HeaderAt(f: Frame)
    requires Sendable(f)
    ensures EncodeFrame(f)[3] == Lo(f.id) && EncodeFrame(f)[4] == Hi(f.id) && EncodeFrame(f)[5] == f.seqByte
  {
    hide Crc, Hi, Lo, Parity, Locator, FrameCrc;
  }

  lemma LengthReplaced(f: Frame, b: octet)
    requires Sendable(f) && b != EncodeFrame(f)[6]
    ensures Count(b) <= DATA_MAX && Count(b) != |f.payload|
    ensures EncodeFrame(f)[6 := b] == Header(START1, f.id, f.seqByte, Count(b)) + EncodeFrame(f)[7..]
  {
    hide Crc, Hi, Lo, Parity, Locator, FrameCrc;
    ByteRange(b);
    assert Count(b) as octet == b;
    assert EncodeFrame(f)[6] == |f.payload| as octet;
  }

  lemma TailRule(s: Rx, f: Frame, k: nat, b: octet)
    requires WellFormed(s) && s.phase == Start1 && Sendable(f) && 7 + |f.payload| <= k < 11 + |f.payload|
    requires b != EncodeFrame(f)[k]
    ensures Delivered(f) in Outputs(s, EncodeFrame(f)[k := b]) <==> Survives(f, k, b)
  {
    hide Outputs, Final, EncodeFrame, Wire, Hi, Lo, Parity, Locator, FrameCrc, Crc;
    if k < 9 + |f.payload| {
      var ecc0, ecc1 := CheckReplaced(f, k, b);
      CheckByteHit(s, f, ecc0, ecc1);
    } else {
      var crc := CrcReplaced(f, k, b);
      CrcFieldHit(s, f, crc);
    }
  }

  lemma CheckReplaced(f: Frame, k: nat, b: octet) returns (ecc0: octet, ecc1: octet)
    requires Sendable(f) && 7 + |f.payload| <= k < 9 + |f.payload| && b != EncodeFrame(f)[k]
    ensures (ecc0 == Parity(f.payload)) != (ecc1 == Locator(f.payload))
    ensures EncodeFrame(f)[k := b] == Wire(START1, f.id, f.seqByte, f.payload, ecc0, ecc1, FrameCrc(f))
  {
    hide Crc, Hi, Lo, Parity, Locator, FrameCrc;
    ecc0, ecc1 := Parity(f.payload), Locator(f.payload);
    TailAt(f);
    if k == 7 + |f.payload| { ecc0 := b; } else { ecc1 := b; }
  }

  lemma CrcReplaced(f: Frame, k: nat, b: octet) returns (crc: word)
    requires Sendable(f) && 9 + |f.payload| <= k < 11 + |f.payload| && b != EncodeFrame(f)[k]
    ensures crc != FrameCrc(f)
    ensures EncodeFrame(f)[k := b] ==
            Wire(START1, f.id, f.seqByte, f.payload, Parity(f.payload), Locator(f.payload), crc)
  {
    hide Crc, Hi, Lo, Parity, Locator, FrameCrc;
    TailAt(f);
    if k == 9 + |f.payload| { crc := PutLow(FrameCrc(f), b); } else { crc := PutHigh(FrameCrc(f), b); }
  }

  lemma TailAt(f: Frame)
    requires Sendable(f)
    ensures var n := |f.payload|;
            && EncodeFrame(f)[7 + n] == Parity(f.payload) && EncodeFrame(f)[8 + n] == Locator(f.payload)
            && EncodeFrame(f)[9 + n] == Lo(FrameCrc(f)) && EncodeFrame(f)[10 + n] == Hi(FrameCrc(f))
  {
    hide Crc, Hi, Lo, Parity, Locator, FrameCrc;
  }

  lemma StopRule(s: Rx, f: Frame, k: nat, b: octet)
    requires WellFormed(s) && s.phase == Start1 && Sendable(f) && 11 + |f.payload| <= k < OVERHEAD + |f.payload|
    requires b != EncodeFrame(f)[k]
    ensures Delivered(f) !in Outputs(s, EncodeFrame(f)[k := b])
  {
    hide Outputs, Final, Crc, Hi, Lo, Parity, Locator, FrameCrc;
    var n, second := |f.payload|, k == 12 + |f.payload|;
    assert EncodeFrame(f)[11 + n] == STOP1 && EncodeFrame(f)[12 + n] == STOP2;
    assert EncodeFrame(f)[k := b] == EncodeFrame(f)[..11 + n] + if second then [STOP1] + [b] else [b] + [STOP2];
    StopHit(s, f, b, second);
  }

  /** The promise to correct one corrupted byte per frame, for every position and value: the frame is delivered as it
      was sent if and only if the replacement is one of those above. */
  lemma OneByteRule(s: Rx, f: Frame, k: nat, b: octet)
    requires WellFormed(s) && s.phase == Start1 && Sendable(f) && k < OVERHEAD + |f.payload| && b != EncodeFrame(f)[k]
    ensures Delivered(f) in Outputs(s, EncodeFrame(f)[k := b]) <==> Survives(f, k, b)
  {
    hide Outputs, Final, EncodeFrame;
    var n := |f.payload|;
    if k < 3 {
      StartRule(s, f, k, b);
    } else if k < 7 {
      HeaderRule(s, f, k, b);
    } else if k < 7 + n {
      DataAt(f, k - 7);
      DataByteCorrected(s, f, k - 7, b);
    } else if k < 11 + n {
      TailRule(s, f, k, b);
    } else {
      StopRule(s, f, k, b);
    }
  }

  lemma DataAt(f: Frame, i: nat)
    requires Sendable(f) && i < |f.payload|
    ensures EncodeFrame(f)[7 + i] == f.payload[i]
  {
    hide Crc, Hi, Lo, Parity, Locator, FrameCrc;
  }

  // ---- Two payload bytes replaced.

  /** What a frame whose payload was replaced by another of the same length produces. */
  lemma PayloadReplaced(s: Rx, f: Frame, p: seq<octet>)
    requires s.phase == Start1 && Sendable(f) && |p| == |f.payload|
    ensures EncodeFrame(f)[..7] + p + EncodeFrame(f)[7 + |p|..] ==
            Wire(START1, f.id, f.seqByte, p, Parity(f.payload), Locator(f.payload), FrameCrc(f))
    ensures Outputs(s, EncodeFrame(f)[..7] + p + EncodeFrame(f)[7 + |p|..]) ==
            [WireOutput(f.id, f.seqByte, p, Parity(f.payload), Locator(f.payload), FrameCrc(f))]
  {
    hide Outputs, Final, Crc, Hi, Lo, Parity, Locator, FrameCrc, WireOutput;
    WireParses(s, START1, f.id, f.seqByte, p, Parity(f.payload), Locator(f.payload), FrameCrc(f));
  }

  function Replaced(f: Frame, p: seq<octet>): seq<octet>
    requires Sendable(f) && |p| == |f.payload|
  {
    EncodeFrame(f)[..7] + p + EncodeFrame(f)[7 + |p|..]
  }

  lemma TwoFlips(p: seq<octet>, i: nat, j: nat, a: octet, b: octet)
    requires i < j < |p| && a != 0 && b != 0
    ensures var hit := Flip(Flip(p, i, a), j, b);
            && |hit| == |p| && hit[i] != p[i] && hit[j] != p[j]
            && forall k :: 0 <= k < |p| && k != i && k != j ==> hit[k] == p[k]
  {
    hide Xor;
    ChangesByte(p[i], a);
    ChangesByte(p[j], b);
  }

  /** Two neighbouring wrong payload bytes: exactly when they look like a single one, the frame is delivered with a
      payload that was never sent; otherwise it is dropped. */
  lemma NeighboursHit(s: Rx, f: Frame, k: nat, a: octet, b: octet)
    requires s.phase == Start1 && Sendable(f) && k + 1 < |f.payload| && a != 0 && b != 0
    ensures var hit := Flip(Flip(f.payload, k, a), k + 1, b);
            var (result, fixed) := Outcome(hit, Parity(f.payload), Locator(f.payload));
            && fixed != f.payload
            && Outputs(s, Replaced(f, hit)) ==
               if Mistaken(|f.payload|, k, k + 1, a, b) then [Delivered(Frame(f.id, f.seqByte, fixed))]
               else [Failed(ErrCrc)]
  {
    hide Outputs, Final, Crc, Hi, Lo, Parity, Locator, FrameCrc, Outcome, Flip, EncodeFrame, Covered, Xor, Mistaken,
         Iterate, Step;
    var p, ecc0, ecc1 := f.payload, Parity(f.payload), Locator(f.payload);
    var hit := Flip(Flip(p, k, a), k + 1, b);
    PayloadReplaced(s, f, hit);
    DoubleErrorNotRestored(p, k, k + 1, a, b);
    DoubleErrorRule(p, k, k + 1, a, b);
    if Mistaken(|p|, k, k + 1, a, b) { NotVanishing(|p|, k, k + 1, a, b); }
    NeighboursNoticed(f, k, a, b);
  }

  lemma NeighboursNoticed(f: Frame, k: nat, a: octet, b: octet)
    requires Sendable(f) && k + 1 < |f.payload| && a != 0 && b != 0
    ensures var hit := Flip(Flip(f.payload, k, a), k + 1, b);
            Crc(0, Covered(f.id, f.seqByte, hit, Parity(f.payload), Locator(f.payload))) != FrameCrc(f)
  {
    hide Crc, Hi, Lo, Parity, Locator, FrameCrc, Flip;
    var hit := Flip(Flip(f.payload, k, a), k + 1, b);
    TwoFlips(f.payload, k, k + 1, a, b);
    var m := Covered(f.id, f.seqByte, f.payload, Parity(f.payload), Locator(f.payload));
    var m' := Covered(f.id, f.seqByte, hit, Parity(f.payload), Locator(f.payload));
    assert m[5 + k] != m'[5 + k];
    CrcNotices(f, f.id, f.seqByte, hit, Parity(f.payload), Locator(f.payload), 5 + k);
  }

  /** So every frame with three payload bytes or more can be delivered with three of them wrong. */
  lemma WrongPayloadDelivered(s: Rx, f: Frame, k: nat)
    requires s.phase == Start1 && Sendable(f) && k + 2 < |f.payload|
    ensures var hit := Flip(Flip(f.payload, k + 1, 0x8F), k + 2, 0x8E);
            && Outputs(s, Replaced(f, hit)) == [Delivered(Frame(f.id, f.seqByte, Flip(hit, k, 0x01)))]
            && Flip(hit, k, 0x01) != f.payload
  {
    hide Outputs, Final, Crc, Hi, Lo, Parity, Locator, FrameCrc, Outcome, Flip, EncodeFrame, Covered, Xor, Mistaken,
         Iterate, Step;
    var p := f.payload;
    var hit := Flip(Flip(p, k + 1, 0x8F), k + 2, 0x8E);
    HiddenDoubleError(p, k);
    NeighboursHit(s, f, k + 1, 0x8F, 0x8E);
    NeighboursHitCorrected(p, k);
  }

  lemma NeighboursHitCorrected(p: seq<octet>, k: nat)
    requires k + 2 < |p| <= 255
    ensures Mistaken(|p|, k + 1, k + 2, 0x8F, 0x8E)
  {
    hide Outcome, Flip, Parity, Locator, Iterate, Step, Mistaken;
    HiddenDoubleError(p, k);
    DoubleErrorRule(p, k + 1, k + 2, 0x8F, 0x8E);
  }
}
