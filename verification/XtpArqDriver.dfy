/** The retransmission endpoint as the program updates it. */
module XtpArqDriver {
  import opened Common
  import opened XtpLfsr
  import opened XtpCrc
  import opened XtpFrame
  import opened XtpDriver
  import opened XtpArq

  ghost predicate AllSendable(frames: seq<Frame>) {
    forall i :: 0 <= i < |frames| ==> Sendable(frames[i])
  }

  /** The bytes of several frames, one after the other. */
  ghost function OnWire(frames: seq<Frame>): seq<octet>
    requires AllSendable(frames)
  {
    if frames == [] then [] else OnWire(frames[..|frames| - 1]) + EncodeFrame(frames[|frames| - 1])
  }

  lemma OnWireAppend(frames: seq<Frame>, f: Frame)
    requires AllSendable(frames) && Sendable(f)
    ensures AllSendable(frames + [f]) && OnWire(frames + [f]) == OnWire(frames) + EncodeFrame(f)
  {
    hide EncodeFrame;
    assert (frames + [f])[..|frames|] == frames;
  }

  lemma {:induction false} OnWireConcat(p: seq<Frame>, q: seq<Frame>)
    requires AllSendable(p) && AllSendable(q)
    ensures AllSendable(p + q) && OnWire(p + q) == OnWire(p) + OnWire(q)
  {
    hide EncodeFrame;
    if q == [] {
      assert p + q == p;
    } else {
      assert (p + q)[..|p + q| - 1] == p + q[..|q| - 1];
      OnWireConcat(p, q[..|q| - 1]);
    }
  }

  lemma OnWireNone()
    ensures AllSendable([]) && OnWire([]) == []
  {}

  datatype SendReturn = SendOk | SendErr | SendErrMem

  /** frames went out ahead of what run still sends. */
  ghost function Preceded(frames: seq<Frame>, run: (Stage, Arq, seq<Frame>)): (Stage, Arq, seq<Frame>) {
    (run.0, run.1, frames + run.2)
  }

  lemma PrecededNone(run: (Stage, Arq, seq<Frame>))
    ensures Preceded([], run) == run
  {
    assert [] + run.2 == run.2;
  }

  lemma PrecededTwice(p: seq<Frame>, q: seq<Frame>, run: (Stage, Arq, seq<Frame>))
    ensures Preceded(p, Preceded(q, run)) == Preceded(p + q, run)
  {
    assert p + (q + run.2) == p + q + run.2;
  }

  class Endpoint {
    var seqTx: octet
    var seqRx: octet
    var ackReceived: bool
    var nackReceived: bool
    var pendId: word
    var pendSeq: octet
    const pendBuf: array<octet>
    var pendLen: nat
    const port: Port

    ghost predicate Valid()
      reads this
    {
      pendBuf.Length == DATA_MAX && pendLen <= DATA_MAX
    }

    ghost function View(): (a: Arq)
      requires Valid()
      reads this, pendBuf
      ensures Sendable(a.pend)
    {
      Arq(seqTx, ackReceived, nackReceived, Frame(pendId, pendSeq, pendBuf[..pendLen]), seqRx)
    }

    constructor (port: Port)
      ensures Valid() && fresh(pendBuf) && this.port == port
      ensures View() == Arq(0, false, false, Frame(0, 0, []), 0)
    {
      this.port := port;
      seqTx, seqRx, ackReceived, nackReceived := 0, 0, false, false;
      pendId, pendSeq, pendLen := 0, 0, 0;
      pendBuf := new octet[DATA_MAX](_ => 0);
    }

    /** Sends a control frame with the sequence number as its one payload byte. */
    method SendControl(id: word, seqByte: octet)
      modifies port
      ensures port.sent == old(port.sent) + EncodeFrame(Frame(id, 0, [seqByte & 0x7F]))
    {
      hide EncodeFrame, EncodeLong;
      var payload := new octet[1](_ => seqByte & SEQ_MASK);
      assert payload[..1] == [seqByte & SEQ_MASK];
      var _ := SendEx(port, id, 0, payload, 1, Unchecked);
    }

    /** A data frame is acknowledged at once. */
    method Acknowledge(f: Frame)
      requires Valid() && !Control(f.id)
      modifies this`seqRx, port
      ensures View() == OnReceive(old(View()), f).0
      ensures AllSendable([AckFor(f)]) && port.sent == old(port.sent) + OnWire([AckFor(f)])
    {
      hide EncodeFrame, OnWire;
      SendControl(ACK, f.seqByte & SEQ_MASK);
      MaskTwice(f.seqByte);
      OnWireNone();
      OnWireAppend([], AckFor(f));
      assert [] + [AckFor(f)] == [AckFor(f)];
      seqRx := NextSeq(f.seqByte & SEQ_MASK);
    }

    /** A decoded frame: control frames are consumed here; any other is acknowledged and passed up. */
    method TakeFrame(f: Frame) returns (up: bool)
      requires Valid()
      modifies this, port
      ensures Valid() && (View(), up) == (OnReceive(old(View()), f).0, OnReceive(old(View()), f).1)
      ensures var replies := Replies(old(View()), Some(f));
              AllSendable(replies) && port.sent == old(port.sent) + OnWire(replies)
    {
      hide EncodeFrame, OnWire;
      OnWireNone();
      up := false;
      if f.id == ACK {
        if |f.payload| >= 1 { ackReceived := true; }
      } else if f.id == NACK {
        if |f.payload| >= 1 { nackReceived := true; }
      } else if f.id == RST {
        seqRx, seqTx, ackReceived, nackReceived, pendLen := 0, 0, false, false, 0;
        assert pendBuf[..0] == [];
      } else {
        Acknowledge(f);
        up := true;
      }
    }

    /** Polls until the pending transmission is acknowledged, refused or overdue. */
    method Await(retries: nat, polls: seq<Event>) returns (stage: Stage, rest: seq<Event>, ghost frames: seq<Frame>)
      requires Valid() && retries <= MAX_RETRIES
      modifies this, port
      ensures Valid() && !stage.Waiting? && (stage.Ready? ==> stage.retries == retries + 1 <= MAX_RETRIES)
      ensures SendRun(Waiting(retries), old(View()), polls) == Preceded(frames, SendRun(stage, View(), rest))
      ensures AllSendable(frames) && port.sent == old(port.sent) + OnWire(frames)
    {
      hide EncodeFrame, OnReceive, OnWire, SendRun;
      stage, rest, frames := Waiting(retries), polls, [];
      OnWireNone();
      PrecededNone(SendRun(stage, View(), polls));
      while stage.Waiting?
        invariant Valid() && (stage.Waiting? ==> stage.retries == retries)
        invariant stage.Ready? ==> stage.retries == retries + 1 <= MAX_RETRIES
        invariant AllSendable(frames) && port.sent == old(port.sent) + OnWire(frames)
        invariant SendRun(Waiting(retries), old(View()), polls) == Preceded(frames, SendRun(stage, View(), rest))
        decreases stage.Waiting?, |rest|
      {
        ghost var a := View();
        RunWaiting(retries, a, rest);
        var event := if rest == [] then Event(None, true) else rest[0];
        rest := if rest == [] then [] else rest[1..];
        if event.arrived.Some? { var _ := TakeFrame(event.arrived.value); }
        OnWireConcat(frames, Replies(a, event.arrived));
        ghost var (next, settled) := Settled(retries, Polled(a, event.arrived), event.expired);
        PrecededTwice(frames, Replies(a, event.arrived), SendRun(next, settled, rest));
        frames := frames + Replies(a, event.arrived);
        if ackReceived {
          seqTx := NextSeq(seqTx);
          stage := Done(true);
        } else if nackReceived || event.expired {
          if retries < MAX_RETRIES {
            stage := Ready(retries + 1);
          } else {
            seqTx := NextSeq(seqTx);
            stage := Done(false);
          }
        }
      }
    }

    /** Transmits the pending frame. */
    method DoSend()
      requires Valid()
      modifies port
      ensures port.sent == old(port.sent) + EncodeFrame(View().pend)
    {
      hide EncodeFrame, EncodeLong;
      var _ := SendEx(port, pendId, pendSeq, pendBuf, pendLen, Unchecked);
    }

    /** The blocking send: fills the pending frame, then transmits and polls until acknowledged or out of retries. */
    method Transfer(id: word, data: array<octet>, len: nat, polls: seq<Event>) returns (r: SendReturn)
      requires Valid() && len <= data.Length && data != pendBuf
      modifies this, pendBuf, port
      ensures Valid()
      ensures len > 255 ==> r == SendErrMem && View() == old(View()) && port.sent == old(port.sent)
      ensures len <= 255 ==>
              var start := old(View()).(pend := Frame(id, old(seqTx) & 0x7F, old(data[..len])));
              var (stage, end, frames) := SendRun(Ready(0), start, polls);
              && r == (if stage.ok then SendOk else SendErr) && View() == end
              && AllSendable(frames) && port.sent == old(port.sent) + OnWire(frames)
    {
      hide EncodeFrame, OnReceive, OnWire, SendRun;
      if len > DATA_MAX { return SendErrMem; }
      Pend(id, data, len);
      ghost var start := View();
      ghost var frames: seq<Frame> := [];
      var stage, rest := Ready(0), polls;
      OnWireNone();
      PrecededNone(SendRun(stage, start, polls));
      while stage.Ready?
        invariant Valid() && !stage.Waiting? && (stage.Ready? ==> stage.retries <= MAX_RETRIES)
        invariant AllSendable(frames) && port.sent == old(port.sent) + OnWire(frames)
        invariant SendRun(Ready(0), start, polls) == Preceded(frames, SendRun(stage, View(), rest))
        decreases if stage.Ready? then MAX_RETRIES + 1 - stage.retries else 0
      {
        var retries := stage.retries;
        ghost var a := View();
        RunReady(retries, a, rest);
        ackReceived, nackReceived := false, false;
        OnWireAppend(frames, a.pend);
        DoSend();
        ghost var answers;
        stage, rest, answers := Await(retries, rest);
        OnWireConcat(frames + [a.pend], answers);
        PrecededTwice([a.pend], answers, SendRun(stage, View(), rest));
        PrecededTwice(frames, [a.pend] + answers, SendRun(stage, View(), rest));
        assert frames + ([a.pend] + answers) == frames + [a.pend] + answers;
        frames := frames + [a.pend] + answers;
      }
      RunDone(stage, View(), rest);
      assert frames + [] == frames;
      return if stage.ok then SendOk else SendErr;
    }

    /** Copies the message into the retransmission buffer. */
    method Pend(id: word, data: array<octet>, len: nat)
      requires Valid() && len <= data.Length && len <= DATA_MAX && data != pendBuf
      modifies this`pendId, this`pendSeq, this`pendLen, pendBuf
      ensures Valid() && View() == old(View()).(pend := Frame(id, seqTx & SEQ_MASK, data[..len]))
    {
      for i := 0 to len
        invariant forall k :: 0 <= k < i ==> pendBuf[k] == data[k]
      {
        pendBuf[i] := data[i];
      }
      pendSeq, pendLen, pendId := seqTx & SEQ_MASK, len, id;
      assert pendBuf[..len] == data[..len];
    }
  }

  lemma MaskTwice(b: octet)
    ensures (b & SEQ_MASK) & SEQ_MASK == b & SEQ_MASK
  {}

  lemma RunWaiting(r: nat, a: Arq, events: seq<Event>)
    requires r <= MAX_RETRIES
    ensures var event := if events == [] then Event(None, true) else events[0];
            ghost var (stage, settled) := Settled(r, Polled(a, event.arrived), event.expired);
            SendRun(Waiting(r), a, events) ==
            Preceded(Replies(a, event.arrived), SendRun(stage, settled, if events == [] then [] else events[1..]))
  {
    hide OnReceive;
  }

  lemma RunDone(stage: Stage, a: Arq, events: seq<Event>)
    requires stage.Done?
    ensures SendRun(stage, a, events) == (stage, a, [])
  {}

  lemma RunReady(r: nat, a: Arq, events: seq<Event>)
    requires r <= MAX_RETRIES
    ensures SendRun(Ready(r), a, events) == Preceded([a.pend], SendRun(Waiting(r), Cleared(a), events))
  {
    hide OnReceive, Settled;
  }
}
