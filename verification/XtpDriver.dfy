/** The byte-at-a-time decoder and the frame encoder, as they update their instance and the wire. */
module XtpDriver {
  import opened Common
  import opened XtpLfsr
  import opened XtpCrc
  import opened XtpEcc
  import opened XtpFrame
  import opened XtpLink

  /** A 32-bit counter of milliseconds. It wraps around, and so do differences. */
  type tick = t: int | 0 <= t < 0x1_0000_0000

  const TIMEOUT_MS := 300

  /** What one poll finds: a byte or none, and the time. */
  datatype Moment = Moment(arrived: Option<octet>, now: tick)

  predicate Overdue(last: tick, now: tick) { (now - last) % 0x1_0000_0000 > TIMEOUT_MS }

  /** The decoder and the tick of its last byte after a poll. Without a byte only the inter-byte timeout acts. */
  ghost function AfterPoll(s: Rx, last: tick, m: Moment): (Rx, tick, Return) {
    match m.arrived
    case Some(b) => (Receive(s, b).0, m.now, Receive(s, b).1)
    case None =>
      if s.phase != Start1 && Overdue(last, m.now) then (RESET, m.now, ErrTimeout) else (s, last, WaitData)
  }

  lemma CrcOfNothing()
    ensures Crc(0, []) == 0
  {}

  class Decoder {
    var phase: Phase
    var id: word
    var seqByte: octet
    var length: nat
    const data: array<octet>
    var index: nat
    var ecc0: octet
    var ecc1: octet
    var corrected: bool
    var crc: word
    var crcReceived: word
    var lastRxTick: tick
    /** Every byte since TYPEMETHOD that went into the running CRC. */
    ghost var covered: seq<octet>

    ghost predicate Valid()
      reads this, data
    {
      && data.Length == DATA_MAX && length <= DATA_MAX
      && crc == Crc(0, covered)
      && (if phase == Data then index < length else index == 0)
      && (BeforeLength(phase) ==> length == 0)
    }

    /** The receiver state this instance stands for. */
    ghost function View(): Rx
      requires Valid()
      reads this, data
    {
      Rx(phase, id, seqByte, length, data[..if phase == Data then index else length],
         ecc0, ecc1, corrected, covered, crcReceived)
    }

    constructor (now: tick)
      ensures Valid() && View() == RESET && lastRxTick == now && fresh(data)
    {
      data := new octet[DATA_MAX];
      lastRxTick := now;
      phase, id, seqByte, length, index := Start1, 0, 0, 0, 0;
      ecc0, ecc1, corrected, crc, crcReceived := 0, 0, false, 0, 0;
      covered := [];
    }

    method ClearData()
      modifies data
      ensures forall i :: 0 <= i < data.Length ==> data[i] == 0
    {
      forall i | 0 <= i < data.Length { data[i] := 0; }
    }

    method Reset()
      requires data.Length == DATA_MAX
      modifies this, data
      ensures Valid() && View() == RESET && lastRxTick == old(lastRxTick)
    {
      hide Crc;
      CrcOfNothing();
      ClearData();
      phase, id, seqByte, length, index := Start1, 0, 0, 0, 0;
      ecc0, ecc1, corrected, crc, crcReceived := 0, 0, false, 0, 0;
      covered := [];
      assert data[..0] == [];
    }

    method ReadSync(b: octet) returns (r: Return)
      requires Valid() && (phase == Start1 || phase == Start2 || phase == TypeMethod)
      modifies this, data
      ensures Valid() && (View(), r) == Synchronise(old(View()), b)
      ensures lastRxTick == old(lastRxTick)
    {
      hide Crc, Update, IsStart1;
      r := InProg;
      if phase == Start1 {
        if !IsStart1(b) { return WaitData; }
        Reset();
        phase := Start2;
      } else if phase == Start2 {
        if b != START2 { Reset(); return WaitData; }
        phase := TypeMethod;
      } else {
        if b != PROT_XFER { Reset(); return ErrTypeMethod; }
        CrcAppend(0, covered, b);
        crc, covered := Update(crc, b), covered + [b];
        phase := Id;
      }
    }

    method ReadHeader(b: octet)
      requires Valid() && (phase == Id || phase == IdHigh || phase == Seq)
      modifies this`phase, this`id, this`seqByte, this`crc, this`covered
      ensures Valid() && View() == TakeHeader(old(View()), b)
    {
      hide Crc, Update, WithHigh, Count;
      CrcAppend(0, covered, b);
      crc, covered := Update(crc, b), covered + [b];
      if phase == Id {
        id, phase := b as word, IdHigh;
      } else if phase == IdHigh {
        id, phase := WithHigh(id, b), Seq;
      } else {
        seqByte, phase := b, Len;
      }
    }

    method ReadLength(b: octet)
      requires Valid() && phase == Len
      modifies this`phase, this`length, this`crc, this`covered
      ensures Valid() && View() == TakeHeader(old(View()), b)
    {
      hide Crc, Update, WithHigh, Count;
      CrcAppend(0, covered, b);
      crc, covered := Update(crc, b), covered + [b];
      ByteRange(b);
      length := Count(b);
      phase := if length > 0 then Data else Ecc0;
    }

    method ReadData(b: octet)
      requires Valid() && phase == Data
      modifies this`phase, this`index, this`crc, this`covered, data
      ensures Valid() && View() == TakeData(old(View()), b)
    {
      hide Crc, Update;
      if index >= data.Length { assert false; }  // the payload-overflow return cannot be reached
      data[index] := b;
      index := index + 1;
      CrcAppend(0, covered, b);
      crc, covered := Update(crc, b), covered + [b];
      assert data[..index] == old(data[..index]) + [b];
      if index == length { phase, index := Ecc0, 0; }
    }

    method ReadCheck(b: octet)
      requires Valid() && (phase == Ecc0 || phase == Ecc1)
      modifies this`phase, this`ecc0, this`ecc1, this`crc, this`covered
      ensures Valid() && View() == TakeCheck(old(View()), b)
    {
      hide Crc, Update;
      CrcAppend(0, covered, b);
      crc, covered := Update(crc, b), covered + [b];
      if phase == Ecc0 { ecc0, phase := b, Ecc1; } else { ecc1, phase := b, Crc1; }
    }

    method ReadCrcLow(b: octet)
      requires Valid() && phase == Crc1
      modifies this`phase, this`crcReceived
      ensures Valid() && View() == TakeCheck(old(View()), b)
    {
      hide Crc;
      crcReceived, phase := b as word, Crc2;
    }

    method ReadVerdict(b: octet) returns (r: Return)
      requires Valid() && phase == Crc2
      modifies this, data
      ensures Valid() && (View(), r) == Judge(old(View()), b)
      ensures lastRxTick == old(lastRxTick)
    {
      hide Crc, Update, WithHigh, Outcome;
      crcReceived := WithHigh(crcReceived, b);
      if crc != crcReceived {
        var er := Decode(data, length, ecc0, ecc1);
        if er != EccOk && er != EccCorrected {
          Reset();
          return ErrCrc;
        }
        corrected := er == EccCorrected;
      }
      phase := Stop1;
      return InProg;
    }

    method ReadStop(b: octet) returns (r: Return)
      requires Valid() && (phase == Stop1 || phase == Stop2)
      modifies this, data
      ensures Valid() && (View(), r) == TakeStop(old(View()), b)
      ensures lastRxTick == old(lastRxTick)
    {
      hide Crc;
      if phase == Stop1 && b == STOP1 { phase := Stop2; return InProg; }
      if phase == Stop2 && b == STOP2 { phase := Start1; return Return.Valid; }
      Reset();
      return ErrStop;
    }

    /** One received byte moves the instance exactly as the grammar says. */
    method Read(b: octet) returns (r: Return)
      requires Valid()
      modifies this, data
      ensures Valid() && (View(), r) == Receive(old(View()), b)
      ensures lastRxTick == old(lastRxTick)
    {
      hide Crc, Synchronise, TakeHeader, TakeData, TakeCheck, Judge, TakeStop;
      r := InProg;
      match phase {
        case Start1 => r := ReadSync(b);
        case Start2 => r := ReadSync(b);
        case TypeMethod => r := ReadSync(b);
        case Id => ReadHeader(b);
        case IdHigh => ReadHeader(b);
        case Seq => ReadHeader(b);
        case Len => ReadLength(b);
        case Data => ReadData(b);
        case Ecc0 => ReadCheck(b);
        case Ecc1 => ReadCheck(b);
        case Crc1 => ReadCrcLow(b);
        case Crc2 => r := ReadVerdict(b);
        case Stop1 => r := ReadStop(b);
        case Stop2 => r := ReadStop(b);
      }
    }

    /** The decoder's part of a poll: a byte if the port had one, otherwise the inter-byte timeout. */
    method Poll(got: bool, b: octet, now: tick) returns (r: Return)
      requires Valid()
      modifies this, data
      ensures Valid()
      ensures (View(), lastRxTick, r) ==
              AfterPoll(old(View()), old(lastRxTick), Moment(if got then Some(b) else None, now))
    {
      hide Crc, Receive, Overdue;
      if got {
        lastRxTick := now;
        r := Read(b);
      } else {
        r := WaitData;
        if phase != Start1 && Overdue(lastRxTick, now) {
          Reset();
          lastRxTick := now;
          r := ErrTimeout;
        }
      }
    }
  }

  /** The byte sink behind the port. */
  class Port {
    var sent: seq<octet>

    method SendByte(b: octet)
      modifies this
      ensures sent == old(sent) + [b]
    {
      sent := sent + [b];
    }
  }

  datatype TxSpace = Unchecked | Free(bytes: nat)
  datatype TxReturn = TxOk | TxErrMem

  /** Sends one byte under the CRC. */
  method SendCovered(port: Port, crc: word, ghost covered: seq<octet>, b: octet) returns (crc': word)
    requires crc == Crc(0, covered)
    modifies port
    ensures port.sent == old(port.sent) + [b] && crc' == Crc(0, covered + [b])
  {
    hide Crc, Update;
    port.SendByte(b);
    crc' := Update(crc, b);
    CrcAppend(0, covered, b);
  }

  lemma JoinHeader<T>(before: seq<T>, s: T, t: T, a: T, b: T, c: T, d: T, e: T)
    ensures [] + [a] + [b] + [c] + [d] + [e] == [a, b, c, d, e]
    ensures before + [s] + [t] + [a] + [b] + [c] + [d] + [e] == before + [s, t] + [a, b, c, d, e]
  {}

  method SendHeader(port: Port, id: word, seqByte: octet, len: nat) returns (crc: word, ghost covered: seq<octet>)
    modifies port
    ensures covered == [PROT_XFER, Lo(id), Hi(id), seqByte, LowByte(len)] && crc == Crc(0, covered)
    ensures port.sent == old(port.sent) + [START1, START2] + covered
  {
    hide *;
    var low := LowByte(len);
    JoinHeader(port.sent, START1, START2, PROT_XFER, Lo(id), Hi(id), seqByte, low);
    crc := 0;
    CrcOfNothing();
    port.SendByte(START1);
    port.SendByte(START2);
    crc := SendCovered(port, crc, [], PROT_XFER);
    crc := SendCovered(port, crc, [] + [PROT_XFER], Lo(id));
    crc := SendCovered(port, crc, [] + [PROT_XFER] + [Lo(id)], Hi(id));
    crc := SendCovered(port, crc, [] + [PROT_XFER] + [Lo(id)] + [Hi(id)], seqByte);
    crc := SendCovered(port, crc, [] + [PROT_XFER] + [Lo(id)] + [Hi(id)] + [seqByte], low);
    covered := [PROT_XFER, Lo(id), Hi(id), seqByte, low];
  }

  method SendData(port: Port, crc0: word, ghost covered0: seq<octet>, data: array<octet>, len: nat)
    returns (crc: word, ghost covered: seq<octet>)
    requires len <= data.Length && crc0 == Crc(0, covered0)
    modifies port
    ensures covered == covered0 + data[..len] && crc == Crc(0, covered)
    ensures port.sent == old(port.sent) + data[..len]
  {
    hide Crc;
    crc, covered := crc0, covered0;
    for i := 0 to len
      invariant covered == covered0 + data[..i] && crc == Crc(0, covered)
      invariant port.sent == old(port.sent) + data[..i]
    {
      assert data[..i + 1] == data[..i] + [data[i]];
      crc := SendCovered(port, crc, covered, data[i]);
      covered := covered + [data[i]];
    }
  }

  lemma JoinCovered(id: word, seqByte: octet, data: seq<octet>, ecc0: octet, ecc1: octet)
    requires CodeWord(Checked(data), ecc0, ecc1)
    ensures [PROT_XFER, Lo(id), Hi(id), seqByte, LowByte(|data|)] + data + [ecc0] + [ecc1] ==
            LongCovered(id, seqByte, data)
  {
    hide Lo, Hi, Parity, Locator, LowByte, Checked;
  }

  lemma CheckedPrefix(data: seq<octet>, len: nat)
    requires len <= |data|
    ensures len % 256 <= |data| && Checked(data[..len]) == data[..len % 256]
  {}

  lemma JoinSent<T>(before: seq<T>, start: seq<T>, header: seq<T>, p: seq<T>, x: T, y: T)
    ensures before + start + header + p + [x] + [y] == before + (start + (header + p + [x] + [y]))
  {}

  /** Everything from START1 to the second check byte. The check bytes are those of the first len % 256 bytes. */
  method SendBody(port: Port, id: word, seqByte: octet, data: array<octet>, len: nat) returns (crc: word)
    requires len <= data.Length
    modifies port
    ensures crc == Crc(0, LongCovered(id, seqByte, data[..len]))
    ensures port.sent == old(port.sent) + ([START1, START2] + LongCovered(id, seqByte, data[..len]))
  {
    hide Crc, Lo, Hi, LongCovered, Parity, Locator, LowByte, Checked, CodeWord;
    CheckedPrefix(data[..], len);
    assert data[..][..len] == data[..len] && data[..][..len % 256] == data[..len % 256];
    var crc0, header := SendHeader(port, id, seqByte, len);
    var crc1, withData := SendData(port, crc0, header, data, len);
    var e0, e1 := Encode(data, len % 256);
    var crc2 := SendCovered(port, crc1, withData, e0);
    crc := SendCovered(port, crc2, withData + [e0], e1);
    JoinCovered(id, seqByte, data[..len], e0, e1);
    JoinSent(old(port.sent), [START1, START2], header, data[..len], e0, e1);
  }

  method SendTrailer(port: Port, crc: word)
    modifies port
    ensures port.sent == old(port.sent) + [Lo(crc), Hi(crc), STOP1, STOP2]
  {
    hide Lo, Hi;
    port.SendByte(Lo(crc));
    port.SendByte(Hi(crc));
    port.SendByte(STOP1);
    port.SendByte(STOP2);
  }

  /** Encodes any 16-bit length onto the wire, or sends nothing when the transmit buffer is known to be too small for 13
      bytes more, counted in 16 bits. Up to 255 bytes, what it emits is the frame; the code does not refuse more. */
  method SendEx(port: Port, id: word, seqByte: octet, data: array<octet>, len: nat, space: TxSpace)
    returns (r: TxReturn)
    requires len <= data.Length && len < 65536
    modifies port
    ensures r == TxErrMem <==> space.Free? && space.bytes < (13 + len) % 65536
    ensures r == TxErrMem ==> port.sent == old(port.sent)
    ensures r == TxOk ==> port.sent == old(port.sent) + EncodeLong(id, seqByte, data[..len])
    ensures r == TxOk && len <= DATA_MAX ==>
            port.sent == old(port.sent) + EncodeFrame(Frame(id, seqByte, data[..len]))
  {
    hide Crc, Lo, Hi, Parity, Locator, LongCovered, EncodeFrame;
    if space.Free? && space.bytes < (OVERHEAD + len) % 65536 { return TxErrMem; }
    var crc := SendBody(port, id, seqByte, data, len);
    SendTrailer(port, crc);
    if len <= DATA_MAX { LongIsFrame(Frame(id, seqByte, data[..len])); }
    return TxOk;
  }
}
