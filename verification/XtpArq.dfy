/** Stop-and-wait retransmission: the receive hook, the blocking send, and runs over a lossy, reordering link. */
module XtpArq {
  import opened Common
  import opened XtpLfsr
  import opened XtpCrc
  import opened XtpFrame

  const ACK: word := 0xFFFE
  const NACK: word := 0xFFFD
  const RST: word := 0xFFFC
  const SEQ_MASK: octet := 0x7F
  const MAX_RETRIES := 3

  predicate Control(id: word) { id == ACK || id == NACK || id == RST }

  function NextSeq(s: octet): octet { (s + 1) & SEQ_MASK }

  /** The retransmission state of one endpoint. pend is the frame being sent. */
  datatype Arq = Arq(seqTx: octet, ackReceived: bool, nackReceived: bool, pend: Frame, seqRx: octet)

  function AckFor(f: Frame): Frame { Frame(ACK, 0, [f.seqByte & SEQ_MASK]) }

  /** A frame that came through the decoder: what it does to the endpoint, whether it goes up to the application,
      and which frame is sent back at once. */
  function OnReceive(a: Arq, f: Frame): (Arq, bool, Option<Frame>) {
    if f.id == ACK then (if |f.payload| >= 1 then a.(ackReceived := true) else a, false, None)
    else if f.id == NACK then (if |f.payload| >= 1 then a.(nackReceived := true) else a, false, None)
    else if f.id == RST then
      (Arq(0, false, false, a.pend.(payload := []), 0), false, None)
    else (a.(seqRx := NextSeq(f.seqByte & SEQ_MASK)), true, Some(AckFor(f)))
  }

  // ---- The blocking send.

  /** A call is about to transmit, waiting for the answer, or over. */
  datatype Stage = Ready(retries: nat) | Waiting(retries: nat) | Done(ok: bool)

  /** The flags are cleared before every transmission. */
  function Cleared(a: Arq): Arq { a.(ackReceived := false, nackReceived := false) }

  /** The checks after each poll: acknowledged, refused, or (when the clock says so) timed out. */
  function Settled(retries: nat, a: Arq, expired: bool): (Stage, Arq) {
    if a.ackReceived then (Done(true), Advanced(a))
    else if a.nackReceived || expired then
      if retries < MAX_RETRIES then (Ready(retries + 1), a) else (Done(false), Advanced(a))
    else (Waiting(retries), a)
  }

  function Advanced(a: Arq): Arq { a.(seqTx := NextSeq(a.seqTx)) }

  /** What one poll of the receive path saw: a decoded frame or none, and whether the answer is overdue. */
  datatype Event = Event(arrived: Option<Frame>, expired: bool)

  function Polled(a: Arq, arrived: Option<Frame>): Arq {
    if arrived.Some? then OnReceive(a, arrived.value).0 else a
  }

  function Replies(a: Arq, arrived: Option<Frame>): seq<Frame> {
    if arrived.None? then []
    else
      var reply := OnReceive(a, arrived.value).2;
      if reply.Some? then [reply.value] else []
  }

  /** The rest of a call: how it ends, and the frames it still puts on the wire. When no poll is left the answer is
      overdue. */
  function SendRun(stage: Stage, a: Arq, events: seq<Event>): (run: (Stage, Arq, seq<Frame>))
    requires !stage.Done? ==> stage.retries <= MAX_RETRIES
    ensures run.0.Done?
    decreases if stage.Done? then 0 else MAX_RETRIES + 1 - stage.retries, |events|, stage.Ready?
  {
    match stage
    case Done(_) => (stage, a, [])
    case Ready(r) =>
      var (end, b, frames) := SendRun(Waiting(r), Cleared(a), events);
      (end, b, [a.pend] + frames)
    case Waiting(r) =>
      var event, later := if events == [] then Event(None, true) else events[0],
                          if events == [] then [] else events[1..];
      var polled := Polled(a, event.arrived);
      var (next, settled) := Settled(r, polled, event.expired);
      var (end, b, frames) := SendRun(next, settled, later);
      (end, b, Replies(a, event.arrived) + frames)
  }

  // ---- The whole system: one blocking send, the link in both directions, and the peer.

  datatype System = System(
    stage: Stage,
    sender: Arq,
    peer: Arq,
    toPeer: multiset<Frame>,
    toSender: multiset<Frame>,
    sent: nat,                // transmissions of the pending frame so far
    delivered: seq<Frame>     // what the peer handed to its application during this call
  )

  function Put(link: multiset<Frame>, reply: Option<Frame>): multiset<Frame> {
    if reply.Some? then link + multiset{reply.value} else link
  }

  function Transmit(s: System): System
    requires s.stage.Ready?
  {
    s.(stage := Waiting(s.stage.retries), sender := Cleared(s.sender),
       toPeer := s.toPeer + multiset{s.sender.pend}, sent := s.sent + 1)
  }

  function PeerTakes(s: System, f: Frame): System {
    var (peer, up, reply) := OnReceive(s.peer, f);
    s.(peer := peer, toPeer := s.toPeer - multiset{f}, toSender := Put(s.toSender, reply),
       delivered := if up then s.delivered + [f] else s.delivered)
  }

  function SenderTakes(s: System, f: Frame): System {
    var (sender, _, reply) := OnReceive(s.sender, f);
    s.(sender := sender, toSender := s.toSender - multiset{f}, toPeer := Put(s.toPeer, reply))
  }

  function Settle(s: System, expired: bool): System
    requires s.stage.Waiting?
  {
    var (stage, sender) := Settled(s.stage.retries, s.sender, expired);
    s.(stage := stage, sender := sender)
  }

  predicate Acknowledges(g: Frame) { g.id == ACK && |g.payload| >= 1 }

  /** Besides answering, the peer may send frames of its own, but no acknowledgement and no reset. */
  datatype Action =
    | Send
    | Poll(arrived: Option<Frame>, expired: bool)
    | PeerReceives(f: Frame)
    | PeerSends(f: Frame)
    | LoseToPeer(f: Frame)
    | LoseToSender(f: Frame)

  predicate Enabled(s: System, a: Action) {
    match a
    case Send => s.stage.Ready?
    case Poll(arrived, _) => s.stage.Waiting? && (arrived.Some? ==> arrived.value in s.toSender)
    case PeerReceives(f) => f in s.toPeer
    case PeerSends(f) => !Acknowledges(f) && f.id != RST
    case LoseToPeer(f) => f in s.toPeer
    case LoseToSender(f) => f in s.toSender
  }

  function Act(s: System, a: Action): System
    requires Enabled(s, a)
  {
    match a
    case Send => Transmit(s)
    case Poll(arrived, expired) => Settle(if arrived.Some? then SenderTakes(s, arrived.value) else s, expired)
    case PeerReceives(f) => PeerTakes(s, f)
    case PeerSends(f) => s.(toSender := s.toSender + multiset{f})
    case LoseToPeer(f) => s.(toPeer := s.toPeer - multiset{f})
    case LoseToSender(f) => s.(toSender := s.toSender - multiset{f})
  }

  ghost predicate Runs(s: System, actions: seq<Action>)
    decreases |actions|
  {
    actions == [] || (Enabled(s, actions[0]) && Runs(Act(s, actions[0]), actions[1..]))
  }

  ghost function After(s: System, actions: seq<Action>): System
    requires Runs(s, actions)
    decreases |actions|
  {
    if actions == [] then s else After(Act(s, actions[0]), actions[1..])
  }

  /** A call of the blocking send, with whatever an earlier call left on the link. */
  function Start(sender: Arq, peer: Arq, id: word, payload: seq<octet>, toPeer: multiset<Frame>,
                 toSender: multiset<Frame>): System
  {
    System(Ready(0), sender.(pend := Frame(id, sender.seqTx & SEQ_MASK, payload)), peer, toPeer, toSender, 0, [])
  }

  // ---- Delivery is bounded when both directions start empty.

  /** Where every run stands: at most four transmissions; every frame on the way to the peer is one of them or
      acknowledges a frame of the peer's own; the copies there and those delivered are transmissions not lost; every
      acknowledgement on its way back stands for a delivery. */
  ghost predicate Bounded(s: System, f: Frame) {
    && s.sender.pend == f
    && Counted(s)
    && (forall g :: g in s.toPeer ==> g == f || g.id == ACK)
    && (forall i :: 0 <= i < |s.delivered| ==> s.delivered[i] == f)
    && s.toPeer[f] + |s.delivered| <= s.sent
    && (forall g :: g in s.toSender ==> g.id != RST && (Acknowledges(g) ==> g == AckFor(f)))
    && s.toSender[AckFor(f)] <= |s.delivered|
  }

  ghost predicate Counted(s: System) {
    match s.stage
    case Ready(retries) => retries == s.sent <= MAX_RETRIES
    case Waiting(retries) => retries + 1 == s.sent <= MAX_RETRIES + 1 && !s.sender.ackReceived && !s.sender.nackReceived
    case Done(ok) => s.sent <= MAX_RETRIES + 1 && (ok ==> s.delivered != [])
  }

  lemma BoundedTake(s: System, g: Frame, f: Frame)
    requires Bounded(s, f) && !Control(f.id) && s.stage.Waiting? && g in s.toSender
    ensures var t := SenderTakes(s, g);
            && t.sender.pend == f && t.stage == s.stage && t.delivered == s.delivered && t.sent == s.sent
            && (t.sender.ackReceived ==> s.delivered != [])
            && (forall h :: h in t.toPeer ==> h == f || h.id == ACK) && t.toPeer[f] == s.toPeer[f]
            && (forall h :: h in t.toSender ==> h in s.toSender) && t.toSender[AckFor(f)] <= s.toSender[AckFor(f)]
  {
    var t := SenderTakes(s, g);
    assert forall h :: h in t.toPeer ==> h in s.toPeer || h == AckFor(g);
  }

  lemma BoundedPoll(s: System, arrived: Option<Frame>, expired: bool, f: Frame)
    requires Bounded(s, f) && !Control(f.id) && Enabled(s, Poll(arrived, expired))
    ensures Bounded(Act(s, Poll(arrived, expired)), f)
  {
    hide OnReceive, SenderTakes;
    if arrived.Some? { BoundedTake(s, arrived.value, f); }
  }

  lemma BoundedPeer(s: System, g: Frame, f: Frame)
    requires Bounded(s, f) && !Control(f.id) && g in s.toPeer
    ensures Bounded(Act(s, PeerReceives(g)), f)
  {
    var t := PeerTakes(s, g);
    if g == f {
      assert t.delivered == s.delivered + [f];
      assert t.toSender == s.toSender + multiset{AckFor(f)};
    }
  }

  lemma BoundedTraffic(s: System, g: Frame, f: Frame)
    requires Bounded(s, f) && !Acknowledges(g) && g.id != RST
    ensures Bounded(s.(toSender := s.toSender + multiset{g}), f)
  {}

  lemma BoundedSend(s: System, f: Frame)
    requires Bounded(s, f) && s.stage.Ready?
    ensures Bounded(Transmit(s), f)
  {}

  lemma BoundedLose(s: System, g: Frame, f: Frame)
    requires Bounded(s, f)
    ensures g in s.toPeer ==> Bounded(s.(toPeer := s.toPeer - multiset{g}), f)
    ensures g in s.toSender ==> Bounded(s.(toSender := s.toSender - multiset{g}), f)
  {}

  lemma BoundedStep(s: System, a: Action, f: Frame)
    requires Bounded(s, f) && !Control(f.id) && Enabled(s, a)
    ensures Bounded(Act(s, a), f)
  {
    hide OnReceive, Settle, Transmit, PeerTakes, SenderTakes, Bounded;
    match a {
      case Send => BoundedSend(s, f);
      case Poll(arrived, expired) => BoundedPoll(s, arrived, expired, f);
      case PeerReceives(g) => BoundedPeer(s, g, f);
      case PeerSends(g) => BoundedTraffic(s, g, f);
      case LoseToPeer(g) => BoundedLose(s, g, f);
      case LoseToSender(g) => BoundedLose(s, g, f);
    }
  }

  lemma {:induction false} BoundedRun(s: System, actions: seq<Action>, f: Frame)
    requires Bounded(s, f) && !Control(f.id) && Runs(s, actions)
    ensures Bounded(After(s, actions), f)
    decreases |actions|
  {
    hide Bounded, Enabled, Act;
    if actions == [] {
    } else {
      BoundedStep(s, actions[0], f);
      BoundedRun(Act(s, actions[0]), actions[1..], f);
    }
  }

  /** With both directions empty at the call, and whatever the peer sends meanwhile: at most four transmissions, at most
      four deliveries, all of them this payload, and success means the peer has it. */
  lemma BoundedDelivery(sender: Arq, peer: Arq, id: word, payload: seq<octet>, actions: seq<Action>)
    requires !Control(id)
    requires Runs(Start(sender, peer, id, payload, multiset{}, multiset{}), actions)
    ensures var t := After(Start(sender, peer, id, payload, multiset{}, multiset{}), actions);
            && t.sent <= 4 && |t.delivered| <= 4
            && (forall i :: 0 <= i < |t.delivered| ==> t.delivered[i] == Frame(id, sender.seqTx & SEQ_MASK, payload))
            && (t.stage == Done(true) ==> 1 <= |t.delivered|)
  {
    var start := Start(sender, peer, id, payload, multiset{}, multiset{});
    var f := Frame(id, sender.seqTx & SEQ_MASK, payload);
    assert Bounded(start, f);
    BoundedRun(start, actions, f);
  }

  // ---- What earlier calls may leave on the link. Sequence numbers of acknowledgements are never compared.

  /** No acknowledgement already on its way back, no reset that would cut the pending payload, and no other frame on
      its way to the peer that it would acknowledge. */
  ghost predicate Clean(f: Frame, toPeer: multiset<Frame>, toSender: multiset<Frame>) {
    && (forall g :: g in toSender ==> !Acknowledges(g) && (g.id == RST ==> f.payload == []))
    && (forall g :: g in toPeer ==> Control(g.id) || g == f)
  }

  /** Success of the call means this frame reached the peer, in every run. */
  ghost predicate Trustworthy(start: System) {
    forall actions :: Runs(start, actions) && After(start, actions).stage == Done(true) ==>
      start.sender.pend in After(start, actions).delivered
  }

  ghost predicate Honest(s: System, f: Frame) {
    && s.sender.pend == f
    && (forall g :: g in s.toPeer ==> Control(g.id) || g == f)
    && (forall g :: g in s.toSender && g.id == RST ==> f.payload == [])
    && (f in s.delivered || NothingAcknowledged(s))
  }

  ghost predicate NothingAcknowledged(s: System) {
    && (forall g :: g in s.toSender ==> !Acknowledges(g))
    && (s.stage.Waiting? ==> !s.sender.ackReceived)
    && s.stage != Done(true)
  }

  lemma HonestTake(s: System, g: Frame, f: Frame)
    requires Honest(s, f) && s.stage.Waiting? && g in s.toSender
    ensures Honest(SenderTakes(s, g), f) && SenderTakes(s, g).stage == s.stage
  {
    var t := SenderTakes(s, g);
    assert t.sender.pend == f;
    assert forall h :: h in t.toPeer ==> h in s.toPeer || h == AckFor(g);
  }

  lemma HonestSettle(s: System, expired: bool, f: Frame)
    requires Honest(s, f) && s.stage.Waiting?
    ensures Honest(Settle(s, expired), f)
  {
    hide OnReceive;
    var t := Settle(s, expired);
    assert t.sender.pend == f && t.toPeer == s.toPeer && t.toSender == s.toSender && t.delivered == s.delivered;
  }

  lemma HonestPoll(s: System, arrived: Option<Frame>, expired: bool, f: Frame)
    requires Honest(s, f) && Enabled(s, Poll(arrived, expired))
    ensures Honest(Act(s, Poll(arrived, expired)), f)
  {
    hide OnReceive, SenderTakes, Settle, Honest;
    if arrived.Some? { HonestTake(s, arrived.value, f); }
    HonestSettle(if arrived.Some? then SenderTakes(s, arrived.value) else s, expired, f);
  }

  lemma HonestPeer(s: System, g: Frame, f: Frame)
    requires Honest(s, f) && g in s.toPeer
    ensures Honest(Act(s, PeerReceives(g)), f)
  {
    var t := PeerTakes(s, g);
    if !Control(g.id) { assert t.delivered == s.delivered + [f]; }
    assert forall h :: h in t.toSender ==> h in s.toSender || h == AckFor(g);
  }

  lemma HonestTraffic(s: System, g: Frame, f: Frame)
    requires Honest(s, f) && !Acknowledges(g) && g.id != RST
    ensures Honest(s.(toSender := s.toSender + multiset{g}), f)
  {}

  lemma HonestSend(s: System, f: Frame)
    requires Honest(s, f) && s.stage.Ready?
    ensures Honest(Transmit(s), f)
  {}

  lemma HonestLose(s: System, g: Frame, f: Frame)
    requires Honest(s, f)
    ensures g in s.toPeer ==> Honest(s.(toPeer := s.toPeer - multiset{g}), f)
    ensures g in s.toSender ==> Honest(s.(toSender := s.toSender - multiset{g}), f)
  {}

  lemma HonestStep(s: System, a: Action, f: Frame)
    requires Honest(s, f) && Enabled(s, a)
    ensures Honest(Act(s, a), f)
  {
    hide OnReceive, Settle, Transmit, PeerTakes, SenderTakes, Honest;
    match a {
      case Send => HonestSend(s, f);
      case Poll(arrived, expired) => HonestPoll(s, arrived, expired, f);
      case PeerReceives(g) => HonestPeer(s, g, f);
      case PeerSends(g) => HonestTraffic(s, g, f);
      case LoseToPeer(g) => HonestLose(s, g, f);
      case LoseToSender(g) => HonestLose(s, g, f);
    }
  }

  lemma {:induction false} HonestRun(s: System, actions: seq<Action>, f: Frame)
    requires Honest(s, f) && Runs(s, actions)
    ensures Honest(After(s, actions), f)
    decreases |actions|
  {
    hide Honest, Enabled, Act;
    if actions == [] {
    } else {
      HonestStep(s, actions[0], f);
      HonestRun(Act(s, actions[0]), actions[1..], f);
    }
  }

  lemma RunCons(s: System, a: Action, rest: seq<Action>)
    requires Enabled(s, a) && Runs(Act(s, a), rest)
    ensures Runs(s, [a] + rest) && After(s, [a] + rest) == After(Act(s, a), rest)
  {
    hide Enabled, Act;
    assert ([a] + rest)[1..] == rest;
  }

  /** A stale acknowledgement ends the call at once, with nothing delivered. */
  lemma StaleAck(start: System, g: Frame)
    requires start.stage == Ready(0) && start.delivered == [] && g in start.toSender && Acknowledges(g)
    ensures !Trustworthy(start)
  {
    var poll := Poll(Some(g), false);
    var s1 := Act(start, Send);
    RunCons(s1, poll, []);
    RunCons(start, Send, [poll]);
    assert After(start, [Send] + [poll]).stage == Done(true);
  }

  /** Another frame still on its way is acknowledged in place of this one. */
  lemma StaleData(start: System, g: Frame)
    requires start.stage == Ready(0) && start.delivered == []
    requires g in start.toPeer && !Control(g.id) && g != start.sender.pend
    ensures !Trustworthy(start)
  {
    var take, poll := PeerReceives(g), Poll(Some(AckFor(g)), false);
    var s1 := Act(start, Send);
    var s2 := Act(s1, take);
    RunCons(s2, poll, []);
    RunCons(s1, take, [poll]);
    RunCons(start, Send, [take] + [poll]);
    assert After(start, [Send] + ([take] + [poll])).delivered == [g];
  }

  lemma AfterReset(s: System, g: Frame) returns (t: System)
    requires s.stage == Waiting(0) && g in s.toSender && g.id == RST
    ensures Enabled(s, Poll(Some(g), true)) && t == Act(s, Poll(Some(g), true))
    ensures t.stage == Ready(1) && t.delivered == s.delivered
    ensures t.sender.pend == s.sender.pend.(payload := [])
  {
    t := Act(s, Poll(Some(g), true));
  }

  lemma AfterTake(s: System, g: Frame) returns (t: System)
    requires s.stage.Waiting? && g in s.toPeer && !Control(g.id)
    ensures Enabled(s, PeerReceives(g)) && t == Act(s, PeerReceives(g))
    ensures t.stage == s.stage && t.delivered == s.delivered + [g]
    ensures AckFor(g) in t.toSender
  {
    t := Act(s, PeerReceives(g));
  }

  lemma AfterSend(s: System) returns (t: System)
    requires s.stage.Ready?
    ensures Enabled(s, Send) && t == Act(s, Send) && t.stage == Waiting(s.stage.retries)
    ensures t.sender.pend == s.sender.pend && s.sender.pend in t.toPeer
    ensures t.toSender == s.toSender && t.delivered == s.delivered
  {
    t := Act(s, Send);
  }

  lemma AfterAck(s: System, g: Frame) returns (t: System)
    requires s.stage.Waiting? && AckFor(g) in s.toSender
    ensures Enabled(s, Poll(Some(AckFor(g)), false)) && t == Act(s, Poll(Some(AckFor(g)), false))
    ensures t.stage == Done(true) && t.sender.pend == s.sender.pend && t.delivered == s.delivered
  {
    t := Act(s, Poll(Some(AckFor(g)), false));
  }

  /** A reset arriving between two attempts empties the pending payload; the retry sends, and gets acknowledged, an
      empty frame. */
  lemma StaleReset(start: System, g: Frame)
    requires start.stage == Ready(0) && start.delivered == [] && !Control(start.sender.pend.id)
    requires g in start.toSender && g.id == RST && start.sender.pend.payload != []
    ensures !Trustworthy(start)
  {
    hide Act, OnReceive, Enabled;
    var empty := start.sender.pend.(payload := []);
    var reset, take, poll := Poll(Some(g), true), PeerReceives(empty), Poll(Some(AckFor(empty)), false);
    var s1 := AfterSend(start);
    var s2 := AfterReset(s1, g);
    var s3 := AfterSend(s2);
    var s4 := AfterTake(s3, empty);
    var s5 := AfterAck(s4, empty);
    RunCons(s4, poll, []);
    RunCons(s3, take, [poll]);
    RunCons(s2, Send, [take] + [poll]);
    RunCons(s1, reset, [Send] + ([take] + [poll]));
    RunCons(start, Send, [reset] + ([Send] + ([take] + [poll])));
  }

  /** Exactly when the success of a call can be trusted. */
  lemma TrustCondition(sender: Arq, peer: Arq, id: word, payload: seq<octet>, toPeer: multiset<Frame>,
                       toSender: multiset<Frame>)
    requires !Control(id)
    ensures Trustworthy(Start(sender, peer, id, payload, toPeer, toSender)) <==>
            Clean(Frame(id, sender.seqTx & SEQ_MASK, payload), toPeer, toSender)
  {
    hide Runs, After, Act, OnReceive;
    var start := Start(sender, peer, id, payload, toPeer, toSender);
    var f := start.sender.pend;
    if Clean(f, toPeer, toSender) {
      assert Honest(start, f);
      forall actions | Runs(start, actions) && After(start, actions).stage == Done(true)
        ensures f in After(start, actions).delivered
      {
        HonestRun(start, actions, f);
      }
    } else if g :| g in toSender && Acknowledges(g) {
      StaleAck(start, g);
    } else if g :| g in toSender && g.id == RST && payload != [] {
      StaleReset(start, g);
    } else {
      var g :| g in toPeer && !Control(g.id) && g != f;
      StaleData(start, g);
    }
  }

  // ---- The system's sender is the blocking send.

  function PollsOf(actions: seq<Action>): seq<Event> {
    if actions == [] then []
    else if actions[0].Poll? then [Event(actions[0].arrived, actions[0].expired)] + PollsOf(actions[1..])
    else PollsOf(actions[1..])
  }

  /** In every run in which the call ends, it ends as the blocking send does on the polls of that run. */
  lemma {:induction false} RunFollowsSend(s: System, actions: seq<Action>)
    requires Runs(s, actions) && After(s, actions).stage.Done?
    requires !s.stage.Done? ==> s.stage.retries <= MAX_RETRIES
    ensures var (stage, sender, _) := SendRun(s.stage, s.sender, PollsOf(actions));
            stage == After(s, actions).stage && sender == After(s, actions).sender
    decreases |actions|
  {
    hide OnReceive, Settled, Act;
    if actions == [] {
    } else {
      var a, t := actions[0], Act(s, actions[0]);
      SenderStep(s, a);
      RunFollowsSend(t, actions[1..]);
      if a.Poll? {
        assert PollsOf(actions)[1..] == PollsOf(actions[1..]);
      }
    }
  }

  /** What one action does to the sender. */
  lemma SenderStep(s: System, a: Action)
    requires Enabled(s, a)
    ensures var t := Act(s, a);
            match a
            case Send => t.stage == Waiting(s.stage.retries) && t.sender == Cleared(s.sender)
            case Poll(arrived, expired) =>
              (t.stage, t.sender) == Settled(s.stage.retries, Polled(s.sender, arrived), expired)
            case _ => t.stage == s.stage && t.sender == s.sender
    ensures !s.stage.Done? && s.stage.retries <= MAX_RETRIES && !Act(s, a).stage.Done? ==>
            Act(s, a).stage.retries <= MAX_RETRIES
  {
    hide OnReceive;
  }
}
