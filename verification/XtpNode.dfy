/** A whole receiver: bytes go through the decoder, decoded frames through the retransmission layer, and what it accepts
    goes up to the application. */
module XtpNode {
  import opened Common
  import opened XtpLfsr
  import opened XtpCrc
  import opened XtpFrame
  import opened XtpLink
  import opened XtpDriver
  import opened XtpArq
  import opened XtpArqDriver

  datatype Node = Node(rx: Rx, arq: Arq)

  /** Where a node is, which frames it passed up, and which it sent back at once. */
  datatype Progressed = Progressed(node: Node, up: seq<Frame>, replies: seq<Frame>)

  ghost function Then(p: Progressed, q: Progressed): Progressed {
    Progressed(q.node, p.up + q.up, p.replies + q.replies)
  }

  ghost function Took(rx: Rx, a: Arq, f: Frame): Progressed {
    Progressed(Node(rx, OnReceive(a, f).0), if OnReceive(a, f).1 then [f] else [], Replies(a, Some(f)))
  }

  /** One received byte. */
  ghost function Fed(n: Node, b: octet): Progressed {
    var (t, r) := Receive(n.rx, b);
    if r == Return.Valid then Took(t, n.arq, Frame(t.id, t.seqByte, t.payload)) else Progressed(Node(t, n.arq), [], [])
  }

  ghost function FedAll(n: Node, bytes: seq<octet>): Progressed
    decreases |bytes|
  {
    if bytes == [] then Progressed(n, [], [])
    else var p := Fed(n, bytes[0]); Then(p, FedAll(p.node, bytes[1..]))
  }

  /** One poll, with the tick of the last byte and the return code. */
  ghost function Processed(n: Node, last: tick, m: Moment): (Progressed, tick, Return) {
    var (rx, last', r) := AfterPoll(n.rx, last, m);
    (if m.arrived.Some? then Fed(n, m.arrived.value) else Progressed(Node(rx, n.arq), [], []), last', r)
  }

  /** A list of polls. */
  ghost function ProcessedAll(n: Node, last: tick, ms: seq<Moment>): (Progressed, tick)
    decreases |ms|
  {
    if ms == [] then (Progressed(n, [], []), last)
    else
      var (p, last', _) := Processed(n, last, ms[0]);
      var (q, end) := ProcessedAll(p.node, last', ms[1..]);
      (Then(p, q), end)
  }

  // ---- The program's form.

  class Instance {
    const decoder: Decoder
    const arq: Endpoint

    ghost predicate Valid()
      reads this, decoder, decoder.data, arq, arq.pendBuf
    {
      decoder.Valid() && arq.Valid() && decoder.data != arq.pendBuf
    }

    ghost function View(): Node
      requires Valid()
      reads this, decoder, decoder.data, arq, arq.pendBuf
    {
      Node(decoder.View(), arq.View())
    }

    constructor (decoder: Decoder, arq: Endpoint)
      requires decoder.Valid() && arq.Valid() && decoder.data != arq.pendBuf
      ensures Valid() && this.decoder == decoder && this.arq == arq
    {
      this.decoder, this.arq := decoder, arq;
    }

    /** A complete frame goes to the retransmission layer, which consumes it or passes it up. */
    method Route() returns (up: seq<Frame>)
      requires Valid() && decoder.phase == Start1
      modifies arq, arq.port
      ensures Valid() && decoder.View() == old(decoder.View())
      ensures var t := decoder.View();
              var p := Took(t, old(arq.View()), Frame(t.id, t.seqByte, t.payload));
              && arq.View() == p.node.arq && up == p.up && AllSendable(p.replies)
              && arq.port.sent == old(arq.port.sent) + OnWire(p.replies)
    {
      hide OnWire, Replies, OnReceive;
      var f := Frame(decoder.id, decoder.seqByte, decoder.data[..decoder.length]);
      var accepted := arq.TakeFrame(f);
      up := if accepted then [f] else [];
    }

    method TakeByte(b: octet, now: tick) returns (r: Return, up: seq<Frame>)
      requires Valid()
      modifies decoder, decoder.data, arq, arq.port
      ensures Valid() && r == Receive(old(decoder.View()), b).1 && decoder.lastRxTick == now
      ensures var p := Fed(old(View()), b);
              && View() == p.node && up == p.up && AllSendable(p.replies)
              && arq.port.sent == old(arq.port.sent) + OnWire(p.replies)
    {
      hide Receive, OnWire, Took;
      OnWireNone();
      ValidAtStop(decoder.View(), b);
      up := [];
      ghost var (t, result) := Receive(decoder.View(), b);
      r := decoder.Poll(true, b, now);
      assert decoder.View() == t && r == result && arq.View() == old(arq.View());
      if r == Return.Valid {
        up := Route();
        assert Fed(old(View()), b) == Took(t, old(arq.View()), Frame(t.id, t.seqByte, t.payload));
        TookKeeps(t, old(arq.View()), Frame(t.id, t.seqByte, t.payload));
      } else {
        assert Fed(old(View()), b) == Progressed(Node(t, arq.View()), [], []);
      }
    }

    /** One poll of the receive path. Without a byte from the port only the inter-byte timeout can do anything. */
    method Process(got: bool, b: octet, now: tick) returns (r: Return, up: seq<Frame>)
      requires Valid()
      modifies decoder, decoder.data, arq, arq.port
      ensures Valid()
      ensures var (p, last, code) :=
                Processed(old(View()), old(decoder.lastRxTick), Moment(if got then Some(b) else None, now));
              && View() == p.node && up == p.up && AllSendable(p.replies)
              && arq.port.sent == old(arq.port.sent) + OnWire(p.replies)
              && decoder.lastRxTick == last && r == code
    {
      hide Receive, OnWire, Took, Fed, Overdue;
      OnWireNone();
      up := [];
      if got { r, up := TakeByte(b, now); } else { r := decoder.Poll(false, 0, now); }
    }
  }

  lemma TookKeeps(rx: Rx, a: Arq, f: Frame)
    ensures Took(rx, a, f).node.rx == rx
  {}

  lemma ValidAtStop(s: Rx, b: octet)
    ensures Receive(s, b).1 == Return.Valid ==> Receive(s, b).0.phase == Start1
  {
    hide Verdict, WithHigh, IsStart1, Count;
  }

  // ---- A node sees the frames of the link, whatever bytes carried them.

  /** The retransmission layer on the frames the decoder delivers; errors do not reach it. */
  ghost function Handled(rx: Rx, a: Arq, outs: seq<Output>): Progressed
    decreases |outs|
  {
    if outs == [] then Progressed(Node(rx, a), [], [])
    else match outs[0]
      case Failed(_) => Handled(rx, a, outs[1..])
      case Delivered(f) => var p := Took(rx, a, f); Then(p, Handled(rx, p.node.arq, outs[1..]))
  }

  lemma {:induction false} HandledConcat(rx: Rx, rx': Rx, a: Arq, p: seq<Output>, q: seq<Output>)
    ensures Handled(rx, a, p + q) == Then(Handled(rx', a, p), Handled(rx, Handled(rx', a, p).node.arq, q))
    decreases |p|
  {
    hide OnReceive, Replies;
    if p == [] {
      assert p + q == q;
      ThenNothing(Handled(rx, a, q), Handled(rx', a, p));
    } else {
      assert (p + q)[1..] == p[1..] + q;
      var a' := if p[0].Delivered? then Took(rx, a, p[0].frame).node.arq else a;
      HandledConcat(rx, rx', a', p[1..], q);
      if p[0].Delivered? {
        ThenThen(Took(rx', a, p[0].frame), Handled(rx', a', p[1..]), Handled(rx, Handled(rx', a', p[1..]).node.arq, q));
      }
    }
  }

  lemma ThenThen(p: Progressed, q: Progressed, r: Progressed)
    ensures Then(Then(p, q), r) == Then(p, Then(q, r))
  {
    assert p.up + q.up + r.up == p.up + (q.up + r.up);
    assert p.replies + q.replies + r.replies == p.replies + (q.replies + r.replies);
  }

  lemma ThenNothing(p: Progressed, none: Progressed)
    requires none.up == [] && none.replies == []
    ensures Then(none, p) == p
  {
    assert [] + p.up == p.up && [] + p.replies == p.replies;
  }

  lemma OneByteHandled(n: Node, b: octet)
    ensures Fed(n, b) == Handled(Receive(n.rx, b).0, n.arq, Report(Receive(n.rx, b).0, Receive(n.rx, b).1))
  {
    hide Receive, OnReceive, Replies;
    var (t, r) := Receive(n.rx, b);
    if r == Return.Valid {
      var f := Frame(t.id, t.seqByte, t.payload);
      var p := Took(t, n.arq, f);
      assert p.up + [] == p.up && p.replies + [] == p.replies;
      assert Report(t, r)[1..] == [];
    } else if Report(t, r) != [] {
      assert Report(t, r)[1..] == [];
    }
  }

  /** Layers compose: bytes fed one at a time through both are bytes decoded first and handled after. */
  lemma {:induction false} FedIsHandled(n: Node, bytes: seq<octet>)
    ensures FedAll(n, bytes) == Handled(Final(n.rx, bytes), n.arq, Outputs(n.rx, bytes))
    decreases |bytes|
  {
    hide Receive, Fed, Handled, Report;
    if bytes == [] {
      assert Handled(n.rx, n.arq, []) == Progressed(n, [], []) by { HandledNone(n); }
    } else {
      var (t, r) := Receive(n.rx, bytes[0]);
      OneByteHandled(n, bytes[0]);
      KeepsReceiver(t, n.arq, Report(t, r));
      var p := Fed(n, bytes[0]);
      FedIsHandled(p.node, bytes[1..]);
      HandledConcat(Final(t, bytes[1..]), t, n.arq, Report(t, r), Outputs(t, bytes[1..]));
    }
  }

  lemma HandledNone(n: Node)
    ensures Handled(n.rx, n.arq, []) == Progressed(n, [], [])
  {}

  lemma {:induction false} KeepsReceiver(rx: Rx, a: Arq, outs: seq<Output>)
    ensures Handled(rx, a, outs).node.rx == rx
    decreases |outs|
  {
    hide OnReceive, Replies;
    if outs == [] {
    } else {
      KeepsReceiver(rx, if outs[0].Delivered? then Took(rx, a, outs[0].frame).node.arq else a, outs[1..]);
    }
  }

  // ---- A stream of frames with noise is served frame by frame, and its acknowledgements end at the sender.

  function AppFrames(parts: seq<(seq<octet>, Frame)>): seq<Frame> {
    if parts == [] then []
    else (if Control(parts[0].1.id) then [] else [parts[0].1]) + AppFrames(parts[1..])
  }

  function Acks(frames: seq<Frame>): (r: seq<Frame>)
    ensures |r| == |frames|
  {
    if frames == [] then [] else [AckFor(frames[0])] + Acks(frames[1..])
  }

  /** Every acknowledgement is a control frame with number 0xFFFE and, in its one payload byte, the sequence number of
      the frame it is for. */
  lemma {:induction false} AckNumbers(frames: seq<Frame>, i: nat)
    requires i < |frames|
    ensures Acks(frames)[i] == Frame(0xFFFE, 0, [frames[i].seqByte & 0x7F])
  {
    if i > 0 { AckNumbers(frames[1..], i - 1); }
  }

  lemma AcksConcat(f: Frame, rest: seq<Frame>)
    ensures Acks([f] + rest) == [AckFor(f)] + Acks(rest)
  {
    assert ([f] + rest)[1..] == rest;
  }

  lemma {:induction false} DeliveriesHandled(rx: Rx, a: Arq, parts: seq<(seq<octet>, Frame)>)
    ensures var p := Handled(rx, a, Deliveries(parts));
            p.node.rx == rx && p.up == AppFrames(parts) && p.replies == Acks(AppFrames(parts))
    decreases |parts|
  {
    hide AckFor;
    if parts == [] {
    } else {
      var f := parts[0].1;
      assert Deliveries(parts)[1..] == Deliveries(parts[1..]);
      DeliveriesHandled(rx, OnReceive(a, f).0, parts[1..]);
      if Control(f.id) {
        assert [] + AppFrames(parts[1..]) == AppFrames(parts[1..]);
        assert [] + Acks(AppFrames(parts)) == Acks(AppFrames(parts));
      } else {
        AcksConcat(f, AppFrames(parts[1..]));
      }
    }
  }

  /** Frames sent with noise between them: exactly the application frames among them reach the application, in order,
      and exactly these are acknowledged, in order. */
  lemma StreamServed(n: Node, parts: seq<(seq<octet>, Frame)>, tail: seq<octet>)
    requires n.rx.phase == Start1 && Noise(tail)
    requires forall i :: 0 <= i < |parts| ==> Noise(parts[i].0) && |parts[i].1.payload| <= DATA_MAX
    ensures var p := FedAll(n, Stream(parts) + tail);
            p.node.rx.phase == Start1 && p.up == AppFrames(parts) && p.replies == Acks(AppFrames(parts))
  {
    hide Outputs, Final, FedAll, Handled, Stream, Noise;
    var bytes := Stream(parts) + tail;
    StreamRoundTrip(n.rx, parts, tail);
    FedIsHandled(n, bytes);
    DeliveriesHandled(Final(n.rx, bytes), n.arq, parts);
  }

  lemma {:induction false} FedConcat(n: Node, p: seq<octet>, q: seq<octet>)
    ensures FedAll(n, p + q) == Then(FedAll(n, p), FedAll(FedAll(n, p).node, q))
    decreases |p|
  {
    hide Fed;
    if p == [] {
      assert p + q == q;
      ThenNothing(FedAll(n, q), FedAll(n, p));
    } else {
      assert (p + q)[1..] == p[1..] + q;
      var first := Fed(n, p[0]);
      FedConcat(first.node, p[1..], q);
      ThenThen(first, FedAll(first.node, p[1..]), FedAll(FedAll(n, p).node, q));
    }
  }

  /** A frame as encoded reaches the retransmission layer as it is. */
  lemma FrameServed(n: Node, f: Frame)
    requires n.rx.phase == Start1 && Sendable(f)
    ensures FedAll(n, EncodeFrame(f)) == Took(FedAll(n, EncodeFrame(f)).node.rx, n.arq, f)
    ensures FedAll(n, EncodeFrame(f)).node.rx.phase == Start1
  {
    hide Outputs, Final, FedAll, EncodeFrame, OnReceive, Replies;
    FrameRoundTrip(n.rx, f);
    FedIsHandled(n, EncodeFrame(f));
    assert [Delivered(f)][1..] == [];
    var rx := Final(n.rx, EncodeFrame(f));
    var p := Took(rx, n.arq, f);
    assert p.up + [] == p.up && p.replies + [] == p.replies;
    KeepsReceiver(rx, n.arq, [Delivered(f)]);
  }

  lemma {:induction false} AcksAppend(frames: seq<Frame>, f: Frame)
    ensures Acks(frames + [f]) == Acks(frames) + [AckFor(f)]
  {
    hide AckFor;
    if frames == [] {
      assert frames + [f] == [f];
    } else {
      assert (frames + [f])[1..] == frames[1..] + [f];
      AcksAppend(frames[1..], f);
    }
  }

  /** The acknowledgements, back at the sender, are consumed there: nothing goes up, nothing is answered, and the sender
      has its acknowledgement as soon as there was any. */
  lemma {:induction false} AcksEnd(n: Node, frames: seq<Frame>)
    requires n.rx.phase == Start1
    ensures AllSendable(Acks(frames))
    ensures var p := FedAll(n, OnWire(Acks(frames)));
            && p.up == [] && p.replies == [] && p.node.rx.phase == Start1
            && p.node.arq == n.arq.(ackReceived := n.arq.ackReceived || frames != [])
  {
    hide EncodeFrame, FedAll, OnWire;
    if frames == [] {
      OnWireNone();
      assert FedAll(n, []) == Progressed(n, [], []) by { FedNothing(n); }
    } else {
      var init, f := frames[..|frames| - 1], frames[|frames| - 1];
      assert frames == init + [f];
      AcksEnd(n, init);
      AcksAppend(init, f);
      OnWireAppend(Acks(init), AckFor(f));
      FedConcat(n, OnWire(Acks(init)), EncodeFrame(AckFor(f)));
      FrameServed(FedAll(n, OnWire(Acks(init))).node, AckFor(f));
    }
  }

  lemma FedNothing(n: Node)
    ensures FedAll(n, []) == Progressed(n, [], [])
  {}

  // ---- Time. Polling in time is as good as reading the bytes one after the other.

  /** The bytes these polls bring. */
  function Brought(ms: seq<Moment>): seq<octet> {
    if ms == [] then []
    else (if ms[0].arrived.Some? then [ms[0].arrived.value] else []) + Brought(ms[1..])
  }

  /** Not a poll without a byte, in the middle of a frame, more than 300 ticks after the last byte. */
  predicate InTime(s: Rx, last: tick, m: Moment) {
    m.arrived.Some? || s.phase == Start1 || (m.now - last) % 0x1_0000_0000 <= 300
  }

  /** Every poll is in time. */
  ghost predicate Prompt(s: Rx, last: tick, ms: seq<Moment>)
    decreases |ms|
  {
    ms == [] ||
    (InTime(s, last, ms[0]) &&
     match ms[0].arrived
     case Some(b) => Prompt(Receive(s, b).0, ms[0].now, ms[1..])
     case None => Prompt(s, last, ms[1..]))
  }

  /** A poll without a byte does something exactly in the middle of a frame and more than 300 ticks after the last byte:
      it drops the frame, and the node is idle. */
  lemma EmptyPoll(n: Node, last: tick, now: tick)
    ensures var (p, last', r) := Processed(n, last, Moment(None, now));
            && p.up == [] && p.replies == [] && p.node.arq == n.arq
            && (if n.rx.phase == Start1 || (now - last) % 0x1_0000_0000 <= 300
                then p.node.rx == n.rx && last' == last && r == WaitData
                else p.node.rx == RESET && last' == now && r == ErrTimeout)
  {}

  lemma BytePoll(n: Node, last: tick, b: octet, now: tick)
    ensures var (p, last', r) := Processed(n, last, Moment(Some(b), now));
            p == Fed(n, b) && p.node.rx == Receive(n.rx, b).0 && last' == now && r == Receive(n.rx, b).1
  {
    hide Receive, Fed;
    FedKeepsReceiver(n, b);
  }

  /** However the polls are spread, if they are prompt the node does what the bytes alone make it do. */
  lemma {:induction false} PromptPolls(n: Node, last: tick, ms: seq<Moment>)
    requires Prompt(n.rx, last, ms)
    ensures ProcessedAll(n, last, ms).0 == FedAll(n, Brought(ms))
    decreases |ms|
  {
    hide Receive, Fed, Processed;
    if ms == [] {
    } else if ms[0].arrived.Some? {
      var p := Fed(n, ms[0].arrived.value);
      BytePoll(n, last, ms[0].arrived.value, ms[0].now);
      PromptPolls(p.node, ms[0].now, ms[1..]);
      assert Brought(ms)[1..] == Brought(ms[1..]);
    } else {
      EmptyPoll(n, last, ms[0].now);
      PromptPolls(n, last, ms[1..]);
      assert Brought(ms) == Brought(ms[1..]);
      ThenNothing(FedAll(n, Brought(ms)), Progressed(n, [], []));
    }
  }

  lemma FedKeepsReceiver(n: Node, b: octet)
    ensures Fed(n, b).node.rx == Receive(n.rx, b).0
  {
    hide Receive, OnReceive, Replies;
  }

  lemma ProcessedFirst(n: Node, last: tick, m: Moment, rest: seq<Moment>)
    ensures var (p, last', _) := Processed(n, last, m);
            ProcessedAll(n, last, [m] + rest).0 == Then(p, ProcessedAll(p.node, last', rest).0)
  {
    hide Processed;
    assert ([m] + rest)[1..] == rest;
  }

  /** Whatever state an interrupted transmission left the node in, once a poll finds the line silent for more than 300
      ticks, frames that then arrive in time are all served. */
  lemma SilenceRecovers(n: Node, last: tick, now: tick, ms: seq<Moment>, parts: seq<(seq<octet>, Frame)>,
                        tail: seq<octet>)
    requires (now - last) % 0x1_0000_0000 > 300 && Noise(tail)
    requires forall i :: 0 <= i < |parts| ==> Noise(parts[i].0) && |parts[i].1.payload| <= DATA_MAX
    requires Brought(ms) == Stream(parts) + tail
    requires if n.rx.phase == Start1 then Prompt(n.rx, last, ms) else Prompt(RESET, now, ms)
    ensures var p := ProcessedAll(n, last, [Moment(None, now)] + ms).0;
            p.node.rx.phase == Start1 && p.up == AppFrames(parts) && p.replies == Acks(AppFrames(parts))
  {
    hide Receive, FedAll, Stream, Noise, ProcessedAll, Brought, Prompt, Overdue;
    var m := Moment(None, now);
    ProcessedFirst(n, last, m, ms);
    EmptyPoll(n, last, now);
    var (p, last', _) := Processed(n, last, m);
    PromptPolls(p.node, last', ms);
    StreamServed(p.node, parts, tail);
    ThenNothing(FedAll(p.node, Brought(ms)), p);
  }
}
