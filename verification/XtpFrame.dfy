/** The frame grammar: what a frame looks like on the wire, and how each received byte moves the decoder. */
module XtpFrame {
  import opened XtpLfsr
  import opened XtpCrc
  import opened XtpEcc

  const START1: octet := 0xC0
  const START2: octet := 0xDE
  const STOP1: octet := 0xDA
  const STOP2: octet := 0xED
  /** CRC-16, ECC and ARQ on; everything else off. */
  const PROT_XFER: octet := 0xA2
  const DATA_MAX := 255
  const OVERHEAD := 13

  datatype Frame = Frame(id: word, seqByte: octet, payload: seq<octet>)

  ghost predicate Sendable(f: Frame) { |f.payload| <= DATA_MAX }

  // ---- The wire form.

  /** The bytes under the CRC, for any check bytes. */
  function Covered(id: word, seqByte: octet, payload: seq<octet>, ecc0: octet, ecc1: octet): seq<octet>
    requires |payload| <= DATA_MAX
  {
    [PROT_XFER, Lo(id), Hi(id), seqByte, |payload| as octet] + payload + [ecc0, ecc1]
  }

  /** A whole frame with the given fields, consistent or not. */
  function Wire(start1: octet, id: word, seqByte: octet, payload: seq<octet>, ecc0: octet, ecc1: octet, crc: word)
    : (r: seq<octet>)
    requires |payload| <= DATA_MAX
    ensures |r| == OVERHEAD + |payload|
  {
    [start1, START2] + Covered(id, seqByte, payload, ecc0, ecc1) + [Lo(crc), Hi(crc), STOP1, STOP2]
  }

  function FrameCrc(f: Frame): word
    requires Sendable(f)
  {
    Crc(0, Covered(f.id, f.seqByte, f.payload, Parity(f.payload), Locator(f.payload)))
  }

  function EncodeFrame(f: Frame): (r: seq<octet>)
    requires Sendable(f)
    ensures |r| == OVERHEAD + |f.payload|
  {
    Wire(START1, f.id, f.seqByte, f.payload, Parity(f.payload), Locator(f.payload), FrameCrc(f))
  }

  function LowByte(n: nat): octet { (n % 256) as octet }

  /** The part of the data the check bytes are computed over. */
  function Checked(data: seq<octet>): seq<octet> { data[..|data| % 256] }

  /** What the encoder emits for any 16-bit length: the length field and the check bytes only know its low byte. */
  function LongCovered(id: word, seqByte: octet, data: seq<octet>): seq<octet> {
    [PROT_XFER, Lo(id), Hi(id), seqByte, LowByte(|data|)] + data + [Parity(Checked(data)), Locator(Checked(data))]
  }

  function EncodeLong(id: word, seqByte: octet, data: seq<octet>): seq<octet> {
    var crc := Crc(0, LongCovered(id, seqByte, data));
    [START1, START2] + LongCovered(id, seqByte, data) + [Lo(crc), Hi(crc), STOP1, STOP2]
  }

  lemma ShortLength(data: seq<octet>)
    requires |data| <= DATA_MAX
    ensures LowByte(|data|) == |data| as octet && Checked(data) == data
  {}

  /** For a payload of at most 255 bytes that is the frame. */
  lemma LongIsFrame(f: Frame)
    requires Sendable(f)
    ensures EncodeLong(f.id, f.seqByte, f.payload) == EncodeFrame(f)
  {
    hide Crc, Lo, Hi, Parity, Locator, LowByte, Checked;
    ShortLength(f.payload);
  }

  // ---- The receiver.

  datatype Phase = Start1 | Start2 | TypeMethod | Id | IdHigh | Seq | Len | Data | Ecc0 | Ecc1 | Crc1 | Crc2
                 | Stop1 | Stop2

  predicate BeforeLength(phase: Phase) {
    phase.Start2? || phase.TypeMethod? || phase.Id? || phase.IdHigh? || phase.Seq? || phase.Len?
  }

  datatype Return = WaitData | InProg | Valid | ErrTypeMethod | ErrCrc | ErrStop | ErrMem | ErrTimeout

  /** The receiver as the grammar sees it. covered holds every byte since TYPEMETHOD that the CRC runs over; the
      program keeps only its running CRC. */
  datatype Rx = Rx(phase: Phase, id: word, seqByte: octet, length: nat, payload: seq<octet>,
                   ecc0: octet, ecc1: octet, corrected: bool, covered: seq<octet>, crcReceived: word)

  const RESET: Rx := Rx(Start1, 0, 0, 0, [], 0, 0, false, [], 0)

  function IsStart1(b: octet): bool { b & 0xF0 == 0xC0 }

  function Count(b: octet): nat { b as nat }

  ghost function Advance(s: Rx, b: octet, next: Phase): Rx {
    s.(phase := next, covered := s.covered + [b])
  }

  /** The verdict on a frame whose CRC field is complete: CRC first, error correction as the fallback. */
  ghost function Verdict(s: Rx): (r: (bool, Rx)) {
    if Crc(0, s.covered) == s.crcReceived then (true, s)
    else
      var (result, fixed) := Outcome(s.payload, s.ecc0, s.ecc1);
      (result == EccOk || result == EccCorrected, s.(payload := fixed, corrected := result == EccCorrected))
  }

  ghost function Synchronise(s: Rx, b: octet): (Rx, Return)
    requires s.phase == Start1 || s.phase == Start2 || s.phase == TypeMethod
  {
    if s.phase == Start1 then if IsStart1(b) then (RESET.(phase := Start2), InProg) else (s, WaitData)
    else if s.phase == Start2 then if b == START2 then (s.(phase := TypeMethod), InProg) else (RESET, WaitData)
    else if b == PROT_XFER then (Advance(s, b, Id), InProg) else (RESET, ErrTypeMethod)
  }

  ghost function TakeHeader(s: Rx, b: octet): Rx
    requires s.phase == Id || s.phase == IdHigh || s.phase == Seq || s.phase == Len
  {
    if s.phase == Id then Advance(s, b, IdHigh).(id := b as word)
    else if s.phase == IdHigh then Advance(s, b, Seq).(id := WithHigh(s.id, b))
    else if s.phase == Seq then Advance(s, b, Len).(seqByte := b)
    else Advance(s, b, if Count(b) > 0 then Data else Ecc0).(length := Count(b))
  }

  ghost function TakeData(s: Rx, b: octet): Rx {
    Advance(s, b, if |s.payload| + 1 == s.length then Ecc0 else Data).(payload := s.payload + [b])
  }

  ghost function TakeCheck(s: Rx, b: octet): Rx
    requires s.phase == Ecc0 || s.phase == Ecc1 || s.phase == Crc1
  {
    if s.phase == Ecc0 then Advance(s, b, Ecc1).(ecc0 := b)
    else if s.phase == Ecc1 then Advance(s, b, Crc1).(ecc1 := b)
    else s.(phase := Crc2, crcReceived := b as word)
  }

  ghost function Judge(s: Rx, b: octet): (Rx, Return) {
    var (accepted, t) := Verdict(s.(crcReceived := WithHigh(s.crcReceived, b)));
    if accepted then (t.(phase := Stop1), InProg) else (RESET, ErrCrc)
  }

  ghost function TakeStop(s: Rx, b: octet): (Rx, Return)
    requires s.phase == Stop1 || s.phase == Stop2
  {
    if s.phase == Stop1 then if b == STOP1 then (s.(phase := Stop2), InProg) else (RESET, ErrStop)
    else if b == STOP2 then (s.(phase := Start1), Valid) else (RESET, ErrStop)
  }

  /** One received byte. */
  ghost function Receive(s: Rx, b: octet): (Rx, Return) {
    match s.phase
    case Start1 => Synchronise(s, b)
    case Start2 => Synchronise(s, b)
    case TypeMethod => Synchronise(s, b)
    case Id => (TakeHeader(s, b), InProg)
    case IdHigh => (TakeHeader(s, b), InProg)
    case Seq => (TakeHeader(s, b), InProg)
    case Len => (TakeHeader(s, b), InProg)
    case Data => (TakeData(s, b), InProg)
    case Ecc0 => (TakeCheck(s, b), InProg)
    case Ecc1 => (TakeCheck(s, b), InProg)
    case Crc1 => (TakeCheck(s, b), InProg)
    case Crc2 => Judge(s, b)
    case Stop1 => TakeStop(s, b)
    case Stop2 => TakeStop(s, b)
  }

  // ---- Runs over a byte stream: what the caller sees besides "in progress" and "waiting".

  datatype Output = Delivered(frame: Frame) | Failed(error: Return)

  ghost function Report(s: Rx, r: Return): seq<Output> {
    match r
    case WaitData => []
    case InProg => []
    case Valid => [Delivered(Frame(s.id, s.seqByte, s.payload))]
    case _ => [Failed(r)]
  }

  ghost function Final(s: Rx, bytes: seq<octet>): Rx
    decreases |bytes|
  {
    if bytes == [] then s else Final(Receive(s, bytes[0]).0, bytes[1..])
  }

  ghost function Outputs(s: Rx, bytes: seq<octet>): seq<Output>
    decreases |bytes|
  {
    if bytes == [] then []
    else
      var (t, r) := Receive(s, bytes[0]);
      Report(t, r) + Outputs(t, bytes[1..])
  }

  lemma {:induction false} FeedConcat(s: Rx, p: seq<octet>, q: seq<octet>)
    ensures Final(s, p + q) == Final(Final(s, p), q)
    ensures Outputs(s, p + q) == Outputs(s, p) + Outputs(Final(s, p), q)
    decreases |p|
  {
    hide Receive, Report;
    if p == [] {
      assert p + q == q;
    } else {
      var (t, r) := Receive(s, p[0]);
      assert (p + q)[1..] == p[1..] + q;
      FeedConcat(t, p[1..], q);
    }
  }

  lemma FeedOne(s: Rx, b: octet)
    ensures Final(s, [b]) == Receive(s, b).0
    ensures Outputs(s, [b]) == Report(Receive(s, b).0, Receive(s, b).1)
  {
    hide Receive, Report;
    assert [b][1..] == [];
  }
}
