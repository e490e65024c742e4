/** What the whole link layer guarantees: parsing, correction, streams and resynchronisation. */
module XtpLink {
  import opened XtpLfsr
  import opened XtpCrc
  import opened XtpEcc
  import opened XtpFrame

  // ---- One frame, field by field.

  lemma LengthByte(n: nat)
    requires n < 256
    ensures Count(n as octet) == n
  {}

  lemma IdBytes(id: word)
    ensures WithHigh(Lo(id) as word, Hi(id)) == id
  {}

  /** Feeding the bytes takes s to t and reports nothing. */
  ghost predicate Quiet(s: Rx, bytes: seq<octet>, t: Rx) {
    Final(s, bytes) == t && Outputs(s, bytes) == []
  }

  lemma QuietByte(s: Rx, p: seq<octet>, t: Rx, b: octet)
    requires Quiet(s, p, t) && (Receive(t, b).1 == InProg || Receive(t, b).1 == WaitData)
    ensures Quiet(s, p + [b], Receive(t, b).0)
  {
    hide Receive, Final, Outputs;
    FeedConcat(s, p, [b]);
    FeedOne(t, b);
  }

  lemma QuietThen(s: Rx, p: seq<octet>, t: Rx, q: seq<octet>)
    requires Quiet(s, p, t)
    ensures Final(s, p + q) == Final(t, q) && Outputs(s, p + q) == Outputs(t, q)
  {
    hide Final, Outputs;
    FeedConcat(s, p, q);
  }

  /** After START1 .. LEN of a frame with n payload bytes. */
  ghost function AfterHeader(id: word, seqByte: octet, n: nat): Rx
    requires n <= DATA_MAX
  {
    RESET.(phase := if n == 0 then Ecc0 else Data, id := id, seqByte := seqByte, length := n,
           covered := [PROT_XFER, Lo(id), Hi(id), seqByte, n as octet])
  }

  lemma SyncBytes(s: Rx, start1: octet)
    requires s.phase == Start1 && IsStart1(start1)
    ensures Quiet(s, [start1, START2, PROT_XFER], RESET.(phase := Id, covered := [PROT_XFER]))
  {
    hide Final, Outputs, Hi, Lo, WithHigh, IsStart1, Crc, Outcome;
    assert Quiet(s, [], s) by { Nothing(s); }
    QuietByte(s, [], s, start1);
    QuietByte(s, [] + [start1], RESET.(phase := Start2), START2);
    QuietByte(s, [] + [start1] + [START2], RESET.(phase := TypeMethod), PROT_XFER);
    assert [] + [start1] + [START2] + [PROT_XFER] == [start1, START2, PROT_XFER];
    assert RESET.covered + [PROT_XFER] == [PROT_XFER];
  }

  lemma Nothing(s: Rx)
    ensures Quiet(s, [], s)
  {}

  lemma FieldBytes(s: Rx, start1: octet, id: word)
    requires s.phase == Start1 && IsStart1(start1)
    ensures Quiet(s, [start1, START2, PROT_XFER, Lo(id), Hi(id)],
                  RESET.(phase := Seq, id := id, covered := [PROT_XFER, Lo(id), Hi(id)]))
  {
    hide Final, Outputs, Hi, Lo, WithHigh, IsStart1, Crc, Outcome, Quiet;
    IdBytes(id);
    var p := [start1, START2, PROT_XFER];
    var s3 := RESET.(phase := Id, covered := [PROT_XFER]);
    SyncBytes(s, start1);
    QuietByte(s, p, s3, Lo(id));
    var s4 := Receive(s3, Lo(id)).0;
    QuietByte(s, p + [Lo(id)], s4, Hi(id));
    assert s4.covered + [Hi(id)] == [PROT_XFER, Lo(id), Hi(id)];
    assert p + [Lo(id)] + [Hi(id)] == [start1, START2, PROT_XFER, Lo(id), Hi(id)];
  }

  lemma HeaderBytes(s: Rx, start1: octet, id: word, seqByte: octet, n: nat)
    requires s.phase == Start1 && IsStart1(start1) && n <= DATA_MAX
    ensures Quiet(s, [start1, START2, PROT_XFER, Lo(id), Hi(id), seqByte, n as octet], AfterHeader(id, seqByte, n))
  {
    hide Final, Outputs, Hi, Lo, WithHigh, IsStart1, Crc, Outcome, Quiet;
    LengthByte(n);
    var p := [start1, START2, PROT_XFER, Lo(id), Hi(id)];
    var s5 := RESET.(phase := Seq, id := id, covered := [PROT_XFER, Lo(id), Hi(id)]);
    FieldBytes(s, start1, id);
    QuietByte(s, p, s5, seqByte);
    var s6 := Receive(s5, seqByte).0;
    QuietByte(s, p + [seqByte], s6, n as octet);
    assert s6.covered + [n as octet] == [PROT_XFER, Lo(id), Hi(id), seqByte, n as octet];
    assert p + [seqByte] + [n as octet] == [start1, START2, PROT_XFER, Lo(id), Hi(id), seqByte, n as octet];
  }

  /** The payload is stored byte by byte, up to the announced length. */
  lemma {:induction false} DataBytes(s: Rx, p: seq<octet>)
    requires s.phase == Data && s.payload == [] && 0 < |p| <= s.length
    ensures Quiet(s, p, s.(phase := if |p| == s.length then Ecc0 else Data, payload := p, covered := s.covered + p))
  {
    hide Final, Outputs, Quiet, Crc, Outcome;
    var n := |p| - 1;
    var q := p[..n];
    assert p == q + [p[n]];
    var t := s.(payload := q, covered := s.covered + q);
    if n == 0 {
      Nothing(s);
      assert s.covered + q == s.covered;
    } else {
      DataBytes(s, q);
    }
    QuietByte(s, q, t, p[n]);
    assert s.covered + q + [p[n]] == s.covered + p;
  }

  /** Where a frame stands when only the upper CRC byte is missing. */
  ghost function BeforeVerdict(id: word, seqByte: octet, p: seq<octet>, ecc0: octet, ecc1: octet, crc: word): Rx
    requires |p| <= DATA_MAX
  {
    AfterHeader(id, seqByte, |p|).(phase := Crc2, payload := p, ecc0 := ecc0, ecc1 := ecc1,
      covered := Covered(id, seqByte, p, ecc0, ecc1), crcReceived := Lo(crc) as word)
  }

  ghost function AfterData(id: word, seqByte: octet, p: seq<octet>): Rx
    requires |p| <= DATA_MAX
  {
    var h := AfterHeader(id, seqByte, |p|);
    h.(phase := Ecc0, payload := p, covered := h.covered + p)
  }

  function Header(start1: octet, id: word, seqByte: octet, n: nat): seq<octet>
    requires n <= DATA_MAX
  {
    [start1, START2, PROT_XFER, Lo(id), Hi(id), seqByte, n as octet]
  }

  lemma DataFollows(s: Rx, start1: octet, id: word, seqByte: octet, p: seq<octet>)
    requires s.phase == Start1 && IsStart1(start1) && |p| <= DATA_MAX
    ensures Quiet(s, Header(start1, id, seqByte, |p|) + p, AfterData(id, seqByte, p))
  {
    hide Final, Outputs, Hi, Lo, IsStart1;
    var header, h := Header(start1, id, seqByte, |p|), AfterHeader(id, seqByte, |p|);
    HeaderBytes(s, start1, id, seqByte, |p|);
    if |p| > 0 {
      DataBytes(h, p);
      QuietThen(s, header, h, p);
    } else {
      assert header + p == header && h.covered + p == h.covered;
    }
  }

  lemma WireShape(start1: octet, id: word, seqByte: octet, p: seq<octet>, ecc0: octet, ecc1: octet, crc: word)
    requires |p| <= DATA_MAX
    ensures Wire(start1, id, seqByte, p, ecc0, ecc1, crc) ==
            Header(start1, id, seqByte, |p|) + p + [ecc0] + [ecc1] + [Lo(crc)] + [Hi(crc)] + [STOP1] + [STOP2]
  {
    hide Hi, Lo;
    var covered := [start1, START2] + Covered(id, seqByte, p, ecc0, ecc1);
    assert covered == Header(start1, id, seqByte, |p|) + p + [ecc0] + [ecc1];
    OneByOne(covered, Lo(crc), Hi(crc), STOP1, STOP2);
  }

  lemma OneByOne<T>(q: seq<T>, a: T, b: T, c: T, d: T)
    ensures q + [a, b, c, d] == q + [a] + [b] + [c] + [d]
  {}

  lemma CoveredShape(id: word, seqByte: octet, p: seq<octet>, ecc0: octet, ecc1: octet)
    requires |p| <= DATA_MAX
    ensures AfterData(id, seqByte, p).covered + [ecc0] + [ecc1] == Covered(id, seqByte, p, ecc0, ecc1)
  {
    hide Hi, Lo;
  }

  /** Every byte up to the lower CRC byte is taken in silently. */
  lemma BodyBytes(s: Rx, start1: octet, id: word, seqByte: octet, p: seq<octet>, ecc0: octet, ecc1: octet, crc: word)
    requires s.phase == Start1 && IsStart1(start1) && |p| <= DATA_MAX
    ensures Quiet(s, Header(start1, id, seqByte, |p|) + p + [ecc0] + [ecc1] + [Lo(crc)],
                  BeforeVerdict(id, seqByte, p, ecc0, ecc1, crc))
  {
    hide Final, Outputs, Hi, Lo, IsStart1, Quiet, Header;
    DataFollows(s, start1, id, seqByte, p);
    QuietTail(s, Header(start1, id, seqByte, |p|) + p, AfterData(id, seqByte, p), ecc0, ecc1, Lo(crc));
    CoveredShape(id, seqByte, p, ecc0, ecc1);
  }

  lemma QuietTail(s: Rx, bytes: seq<octet>, d: Rx, ecc0: octet, ecc1: octet, crcLow: octet)
    requires d.phase == Ecc0 && Quiet(s, bytes, d)
    ensures Quiet(s, bytes + [ecc0] + [ecc1] + [crcLow],
                  d.(phase := Crc2, ecc0 := ecc0, ecc1 := ecc1, covered := d.covered + [ecc0] + [ecc1],
                     crcReceived := crcLow as word))
  {
    hide Final, Outputs, Quiet, WithHigh, Crc, Outcome;
    QuietByte(s, bytes, d, ecc0);
    var e := Receive(d, ecc0).0;
    QuietByte(s, bytes + [ecc0], e, ecc1);
    QuietByte(s, bytes + [ecc0] + [ecc1], Receive(e, ecc1).0, crcLow);
  }

  // ---- The verdict on a whole frame, its fields consistent or not.

  /** What a complete frame produces: the CRC decides, and where it disagrees error correction does. */
  ghost function WireOutput(id: word, seqByte: octet, p: seq<octet>, ecc0: octet, ecc1: octet, crc: word): Output
    requires |p| <= DATA_MAX
  {
    if Crc(0, Covered(id, seqByte, p, ecc0, ecc1)) == crc then Delivered(Frame(id, seqByte, p))
    else
      var (result, fixed) := Outcome(p, ecc0, ecc1);
      if result == EccOk || result == EccCorrected then Delivered(Frame(id, seqByte, fixed)) else Failed(ErrCrc)
  }

  lemma StopAccepts(t: Rx)
    requires t.phase == Stop1
    ensures Final(t, [STOP1] + [STOP2]).phase == Start1
    ensures Outputs(t, [STOP1] + [STOP2]) == [Delivered(Frame(t.id, t.seqByte, t.payload))]
  {
    hide Final, Outputs, Crc, Outcome, WithHigh;
    FeedConcat(t, [STOP1], [STOP2]);
    FeedOne(t, STOP1);
    FeedOne(t.(phase := Stop2), STOP2);
  }

  lemma StopIgnored(t: Rx)
    requires t.phase == Start1
    ensures Quiet(t, [STOP1] + [STOP2], t)
  {
    hide Final, Outputs, Crc, Outcome, WithHigh;
    Nothing(t);
    QuietByte(t, [], t, STOP1);
    QuietByte(t, [] + [STOP1], t, STOP2);
    assert [] + [STOP1] + [STOP2] == [STOP1] + [STOP2];
  }

  lemma VerdictStep(id: word, seqByte: octet, p: seq<octet>, ecc0: octet, ecc1: octet, crc: word)
    requires |p| <= DATA_MAX
    ensures var (u, r) := Receive(BeforeVerdict(id, seqByte, p, ecc0, ecc1, crc), Hi(crc));
            var output := WireOutput(id, seqByte, p, ecc0, ecc1, crc);
            || (u.phase == Stop1 && r == InProg && output == Delivered(Frame(u.id, u.seqByte, u.payload)))
            || (u == RESET && r == ErrCrc && output == Failed(ErrCrc))
  {
    hide Hi, Lo, WithHigh, Crc, Outcome, Covered;
    IdBytes(crc);
  }

  lemma VerdictBytes(id: word, seqByte: octet, p: seq<octet>, ecc0: octet, ecc1: octet, crc: word)
    requires |p| <= DATA_MAX
    ensures var t := BeforeVerdict(id, seqByte, p, ecc0, ecc1, crc);
            var rest := [Hi(crc)] + ([STOP1] + [STOP2]);
            && Final(t, rest).phase == Start1
            && Outputs(t, rest) == [WireOutput(id, seqByte, p, ecc0, ecc1, crc)]
  {
    hide Final, Outputs, Hi, Lo, Receive, BeforeVerdict, WireOutput;
    var t := BeforeVerdict(id, seqByte, p, ecc0, ecc1, crc);
    var (u, r) := Receive(t, Hi(crc));
    FeedConcat(t, [Hi(crc)], [STOP1] + [STOP2]);
    FeedOne(t, Hi(crc));
    VerdictStep(id, seqByte, p, ecc0, ecc1, crc);
    if u.phase == Stop1 { StopAccepts(u); } else { StopIgnored(u); }
  }

  /** A complete frame leaves the receiver idle and produces exactly one output. */
  lemma WireParses(s: Rx, start1: octet, id: word, seqByte: octet, p: seq<octet>, ecc0: octet, ecc1: octet, crc: word)
    requires s.phase == Start1 && IsStart1(start1) && |p| <= DATA_MAX
    ensures Final(s, Wire(start1, id, seqByte, p, ecc0, ecc1, crc)).phase == Start1
    ensures Outputs(s, Wire(start1, id, seqByte, p, ecc0, ecc1, crc)) == [WireOutput(id, seqByte, p, ecc0, ecc1, crc)]
  {
    hide *;
    var body := Header(start1, id, seqByte, |p|) + p + [ecc0] + [ecc1] + [Lo(crc)];
    BodyBytes(s, start1, id, seqByte, p, ecc0, ecc1, crc);
    WireShape(start1, id, seqByte, p, ecc0, ecc1, crc);
    var rest := [Hi(crc)] + ([STOP1] + [STOP2]);
    assert body + [Hi(crc)] + [STOP1] + [STOP2] == body + rest;
    QuietThen(s, body, BeforeVerdict(id, seqByte, p, ecc0, ecc1, crc), rest);
    VerdictBytes(id, seqByte, p, ecc0, ecc1, crc);
  }

  // ---- Frames arrive as sent.

  /** A frame as the encoder emits it, read by an idle receiver, is delivered once. */
  lemma FrameRoundTrip(s: Rx, f: Frame)
    requires s.phase == Start1 && Sendable(f)
    ensures Final(s, EncodeFrame(f)).phase == Start1 && Outputs(s, EncodeFrame(f)) == [Delivered(f)]
  {
    hide Final, Outputs, Crc, Covered, Wire;
    WireParses(s, START1, f.id, f.seqByte, f.payload, Parity(f.payload), Locator(f.payload), FrameCrc(f));
  }

  ghost predicate Noise(bytes: seq<octet>) {
    forall i :: 0 <= i < |bytes| ==> !IsStart1(bytes[i])
  }

  lemma {:induction false} NoiseIgnored(s: Rx, bytes: seq<octet>)
    requires s.phase == Start1 && Noise(bytes)
    ensures Quiet(s, bytes, s)
    decreases |bytes|
  {
    hide IsStart1;
    if bytes == [] {
    } else {
      NoiseIgnored(s, bytes[1..]);
    }
  }

  /** Noise, then a frame, and so on. */
  function Stream(parts: seq<(seq<octet>, Frame)>): seq<octet>
    requires forall i :: 0 <= i < |parts| ==> |parts[i].1.payload| <= DATA_MAX
  {
    if parts == [] then [] else parts[0].0 + (EncodeFrame(parts[0].1) + Stream(parts[1..]))
  }

  function Deliveries(parts: seq<(seq<octet>, Frame)>): seq<Output> {
    if parts == [] then [] else [Delivered(parts[0].1)] + Deliveries(parts[1..])
  }

  /** A stream of frames with noise between them yields exactly those frames, in order, and no error. */
  lemma {:induction false} StreamRoundTrip(s: Rx, parts: seq<(seq<octet>, Frame)>, tail: seq<octet>)
    requires s.phase == Start1 && Noise(tail)
    requires forall i :: 0 <= i < |parts| ==> Noise(parts[i].0) && |parts[i].1.payload| <= DATA_MAX
    ensures Final(s, Stream(parts) + tail).phase == Start1
    ensures Outputs(s, Stream(parts) + tail) == Deliveries(parts)
    decreases |parts|
  {
    hide Final, Outputs, Noise, EncodeFrame;
    if parts == [] {
      assert Stream(parts) + tail == tail;
      NoiseIgnored(s, tail);
    } else {
      var noise, frame, rest := parts[0].0, EncodeFrame(parts[0].1), Stream(parts[1..]) + tail;
      assert Stream(parts) + tail == noise + (frame + rest);
      NoiseIgnored(s, noise);
      QuietThen(s, noise, s, frame + rest);
      FeedConcat(s, frame, rest);
      FrameRoundTrip(s, parts[0].1);
      StreamRoundTrip(Final(s, frame), parts[1..], tail);
    }
  }

  // ---- One byte of the frame replaced.

  lemma CrcNotices(f: Frame, id: word, seqByte: octet, p: seq<octet>, ecc0: octet, ecc1: octet, k: nat)
    requires Sendable(f) && |p| == |f.payload|
    requires DifferWithin(Covered(f.id, f.seqByte, f.payload, Parity(f.payload), Locator(f.payload)),
                          Covered(id, seqByte, p, ecc0, ecc1), k, 2)
    ensures Crc(0, Covered(id, seqByte, p, ecc0, ecc1)) != FrameCrc(f)
  {
    hide Crc, Covered, DifferWithin;
    BurstDetected(0, Covered(f.id, f.seqByte, f.payload, Parity(f.payload), Locator(f.payload)),
                  Covered(id, seqByte, p, ecc0, ecc1), k);
  }

  /** End-to-end correction: any DATA byte replaced by any other value still delivers the original frame. */
  lemma DataByteCorrected(s: Rx, f: Frame, k: nat, b: octet)
    requires s.phase == Start1 && Sendable(f) && k < |f.payload| && b != f.payload[k]
    ensures Outputs(s, EncodeFrame(f)[7 + k := b]) == [Delivered(f)]
    ensures Final(s, EncodeFrame(f)[7 + k := b]).phase == Start1
  {
    hide Final, Outputs, Crc, Hi, Lo, Parity, Locator, Outcome, Xor;
    var p, ecc0, ecc1 := f.payload, Parity(f.payload), Locator(f.payload);
    var hit := p[k := b];
    assert EncodeFrame(f)[7 + k := b] == Wire(START1, f.id, f.seqByte, hit, ecc0, ecc1, FrameCrc(f));
    WireParses(s, START1, f.id, f.seqByte, hit, ecc0, ecc1, FrameCrc(f));
    DataHitNoticed(f, k, b);
    XorPattern(p[k], b);
    assert hit == Flip(p, k, Xor(p[k], b));
    SingleErrorCorrected(p, k, Xor(p[k], b));
  }

  lemma XorPattern(a: octet, b: octet)
    ensures Xor(a, Xor(a, b)) == b && (a != b ==> Xor(a, b) != 0)
  {}

  lemma DataHitNoticed(f: Frame, k: nat, b: octet)
    requires Sendable(f) && k < |f.payload| && b != f.payload[k]
    ensures Crc(0, Covered(f.id, f.seqByte, f.payload[k := b], Parity(f.payload), Locator(f.payload))) != FrameCrc(f)
  {
    hide Crc, Hi, Lo, Parity, Locator, FrameCrc;
    var m := Covered(f.id, f.seqByte, f.payload, Parity(f.payload), Locator(f.payload));
    var m' := Covered(f.id, f.seqByte, f.payload[k := b], Parity(f.payload), Locator(f.payload));
    assert m[5 + k] != m'[5 + k];
    CrcNotices(f, f.id, f.seqByte, f.payload[k := b], Parity(f.payload), Locator(f.payload), 5 + k);
  }

  /** The CRC does not protect the header by itself. Under any changed ID and SEQ the frame is delivered as changed,
      except when the CRC notices and there is no payload: with a payload, error correction finds it intact. */
  lemma HeaderHit(s: Rx, f: Frame, id: word, seqByte: octet)
    requires s.phase == Start1 && Sendable(f)
    ensures Outputs(s, Wire(START1, id, seqByte, f.payload, Parity(f.payload), Locator(f.payload), FrameCrc(f))) ==
            if f.payload == [] && Crc(0, Covered(id, seqByte, [], 0, 0)) != FrameCrc(f) then [Failed(ErrCrc)]
            else [Delivered(Frame(id, seqByte, f.payload))]
  {
    hide Final, Outputs, Crc, Hi, Lo;
    var p, ecc0, ecc1 := f.payload, Parity(f.payload), Locator(f.payload);
    WireParses(s, START1, id, seqByte, p, ecc0, ecc1, FrameCrc(f));
  }

  /** A change in one ID or SEQ byte, or in two neighbouring ones, is noticed. */
  lemma HeaderNoticed(f: Frame, id: word, seqByte: octet)
    requires Sendable(f)
    requires (id != f.id || seqByte != f.seqByte) && (Lo(id) == Lo(f.id) || seqByte == f.seqByte)
    ensures Crc(0, Covered(id, seqByte, f.payload, Parity(f.payload), Locator(f.payload))) != FrameCrc(f)
  {
    hide Crc, Hi, Lo, Parity, Locator, FrameCrc;
    IdBytes(id);
    IdBytes(f.id);
    var m := Covered(f.id, f.seqByte, f.payload, Parity(f.payload), Locator(f.payload));
    var m' := Covered(id, seqByte, f.payload, Parity(f.payload), Locator(f.payload));
    assert m[1] == Lo(f.id) && m[2] == Hi(f.id) && m[3] == f.seqByte;
    assert m'[1] == Lo(id) && m'[2] == Hi(id) && m'[3] == seqByte;
    assert m != m';
    CrcNotices(f, id, seqByte, f.payload, Parity(f.payload), Locator(f.payload),
               if seqByte == f.seqByte then 1 else 2);
  }

  /** A wrong CRC field alone: the payload check lets the frame through, unless there is no payload to check. */
  lemma CrcFieldHit(s: Rx, f: Frame, crc: word)
    requires s.phase == Start1 && Sendable(f) && crc != FrameCrc(f)
    ensures Outputs(s, Wire(START1, f.id, f.seqByte, f.payload, Parity(f.payload), Locator(f.payload), crc)) ==
            if f.payload == [] then [Failed(ErrCrc)] else [Delivered(f)]
  {
    hide Final, Outputs, Crc, Hi, Lo, Parity, Locator;
    WireParses(s, START1, f.id, f.seqByte, f.payload, Parity(f.payload), Locator(f.payload), crc);
  }

  /** One wrong check byte drops the frame, payload intact or not. */
  lemma CheckByteHit(s: Rx, f: Frame, ecc0: octet, ecc1: octet)
    requires s.phase == Start1 && Sendable(f)
    requires (ecc0 == Parity(f.payload)) != (ecc1 == Locator(f.payload))
    ensures Outputs(s, Wire(START1, f.id, f.seqByte, f.payload, ecc0, ecc1, FrameCrc(f))) == [Failed(ErrCrc)]
  {
    hide Final, Outputs, Crc, Hi, Lo, Parity, Locator;
    WireParses(s, START1, f.id, f.seqByte, f.payload, ecc0, ecc1, FrameCrc(f));
    CheckNoticed(f, ecc0, ecc1);
  }

  lemma CheckNoticed(f: Frame, ecc0: octet, ecc1: octet)
    requires Sendable(f) && (ecc0 != Parity(f.payload) || ecc1 != Locator(f.payload))
    ensures Crc(0, Covered(f.id, f.seqByte, f.payload, ecc0, ecc1)) != FrameCrc(f)
  {
    hide Crc, Hi, Lo, Parity, Locator, FrameCrc;
    var n := |f.payload|;
    var m := Covered(f.id, f.seqByte, f.payload, Parity(f.payload), Locator(f.payload));
    var m' := Covered(f.id, f.seqByte, f.payload, ecc0, ecc1);
    assert m[5 + n] == Parity(f.payload) && m[6 + n] == Locator(f.payload) && m'[5 + n] == ecc0 && m'[6 + n] == ecc1;
    assert m != m';
    CrcNotices(f, f.id, f.seqByte, f.payload, ecc0, ecc1, 5 + n);
  }

  // ---- Resynchronisation.

  /** What every state reachable from reset satisfies. */
  ghost predicate WellFormed(s: Rx) {
    && s.length <= DATA_MAX
    && match s.phase
       case Start1 => true
       case Data => |s.payload| < s.length
       case Ecc0 => |s.payload| == s.length
       case Ecc1 => |s.payload| == s.length
       case Crc1 => |s.payload| == s.length
       case Crc2 => |s.payload| == s.length
       case Stop1 => |s.payload| == s.length
       case Stop2 => |s.payload| == s.length
       case _ => s.payload == []
  }

  lemma VerdictKeeps(s: Rx)
    ensures var t := Verdict(s).1; t == s.(payload := t.payload, corrected := t.corrected) && |t.payload| == |s.payload|
  {
    hide Crc, Outcome;
  }

  lemma ByteRange(b: octet)
    ensures Count(b) <= DATA_MAX
  {}

  /** The most bytes that can pass before the receiver is idle again. */
  ghost function Distance(s: Rx): int {
    match s.phase
    case Start1 => 0
    case Start2 => 267
    case TypeMethod => 266
    case Id => 265
    case IdHigh => 264
    case Seq => 263
    case Len => 262
    case Data => s.length - |s.payload| + 6
    case Ecc0 => 6
    case Ecc1 => 5
    case Crc1 => 4
    case Crc2 => 3
    case Stop1 => 2
    case Stop2 => 1
  }

  /** A step keeps the invariant and, unless the receiver was idle, brings idleness nearer. */
  ghost predicate Progress(s: Rx, t: Rx) {
    && WellFormed(t)
    && (s.phase != Start1 ==> 0 <= Distance(t) < Distance(s) <= 267)
    && (Distance(t) == 0 <==> t.phase == Start1)
  }

  lemma SyncProgress(s: Rx, b: octet)
    requires WellFormed(s) && (s.phase == Start1 || s.phase == Start2 || s.phase == TypeMethod)
    ensures Progress(s, Receive(s, b).0)
  {
    hide Verdict, WithHigh, IsStart1, Count;
  }

  lemma HeaderProgress(s: Rx, b: octet)
    requires WellFormed(s) && (s.phase == Id || s.phase == IdHigh || s.phase == Seq || s.phase == Len)
    ensures Progress(s, Receive(s, b).0)
  {
    hide Verdict, WithHigh, IsStart1, Count;
    ByteRange(b);
  }

  lemma DataProgress(s: Rx, b: octet)
    requires WellFormed(s) && (s.phase == Data || s.phase == Ecc0 || s.phase == Ecc1 || s.phase == Crc1)
    ensures Progress(s, Receive(s, b).0)
  {
    hide Verdict, WithHigh, IsStart1, Count;
  }

  lemma VerdictProgress(s: Rx, b: octet)
    requires WellFormed(s) && s.phase == Crc2
    ensures Progress(s, Receive(s, b).0)
  {
    hide Verdict, WithHigh, IsStart1, Count;
    VerdictKeeps(s.(crcReceived := WithHigh(s.crcReceived, b)));
  }

  lemma StopProgress(s: Rx, b: octet)
    requires WellFormed(s) && (s.phase == Stop1 || s.phase == Stop2)
    ensures Progress(s, Receive(s, b).0)
  {
    hide Verdict, WithHigh, IsStart1, Count;
  }

  lemma StepProgress(s: Rx, b: octet)
    requires WellFormed(s)
    ensures Progress(s, Receive(s, b).0)
  {
    hide Receive, Progress;
    match s.phase {
      case Start1 => SyncProgress(s, b);
      case Start2 => SyncProgress(s, b);
      case TypeMethod => SyncProgress(s, b);
      case Id => HeaderProgress(s, b);
      case IdHigh => HeaderProgress(s, b);
      case Seq => HeaderProgress(s, b);
      case Len => HeaderProgress(s, b);
      case Data => DataProgress(s, b);
      case Ecc0 => DataProgress(s, b);
      case Ecc1 => DataProgress(s, b);
      case Crc1 => DataProgress(s, b);
      case Crc2 => VerdictProgress(s, b);
      case Stop1 => StopProgress(s, b);
      case Stop2 => StopProgress(s, b);
    }
  }

  /** From any reachable state, within 267 further bytes of anything the receiver is idle. */
  lemma {:induction false} Resynchronises(s: Rx, bytes: seq<octet>) returns (n: nat)
    requires WellFormed(s) && |bytes| >= Distance(s)
    ensures n <= |bytes| && n <= Distance(s) <= 267 && Final(s, bytes[..n]).phase == Start1
    decreases |bytes|
  {
    hide Receive;
    if s.phase == Start1 {
      n := 0;
    } else {
      var t := Receive(s, bytes[0]).0;
      StepProgress(s, bytes[0]);
      var m := Resynchronises(t, bytes[1..]);
      n := m + 1;
      assert bytes[..n][0] == bytes[0] && bytes[..n][1..] == bytes[1..][..m];
    }
  }
}
