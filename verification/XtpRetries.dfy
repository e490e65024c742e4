/** How often a blocking send transmits, exactly when it succeeds, and what an endpoint remembers of what it took. */
module XtpRetries {
  import opened Common
  import opened XtpLfsr
  import opened XtpCrc
  import opened XtpFrame
  import opened XtpArq
  import opened XtpArqDriver

  /** An acknowledgement or a refusal: a control frame that names a sequence number. */
  predicate Confirms(e: Event) { e.arrived.Some? && e.arrived.value.id == 0xFFFE && |e.arrived.value.payload| >= 1 }

  predicate Refuses(e: Event) { e.arrived.Some? && e.arrived.value.id == 0xFFFD && |e.arrived.value.payload| >= 1 }

  predicate Resets(e: Event) { e.arrived.Some? && e.arrived.value.id == 0xFFFC }

  /** What ends a wait: a confirmation, even one that comes with the deadline, or else a refusal or the deadline. Every
      other poll leaves the call waiting. */
  function Answer(e: Event): Option<bool> {
    if Confirms(e) then Some(true) else if Refuses(e) || e.expired then Some(false) else None
  }

  function Answers(events: seq<Event>): seq<bool> {
    if events == [] then []
    else match Answer(events[0])
      case None => Answers(events[1..])
      case Some(yes) => [yes] + Answers(events[1..])
  }

  /** How many waits fail before the first that does not. */
  function Failures(answers: seq<bool>): (r: nat)
    ensures r <= |answers|
  {
    if answers == [] || answers[0] then 0 else 1 + Failures(answers[1..])
  }

  /** The transmissions among the frames sent; replies are acknowledgements. */
  function Transmissions(frames: seq<Frame>): seq<Frame> {
    if frames == [] then []
    else (if Control(frames[0].id) then [] else [frames[0]]) + Transmissions(frames[1..])
  }

  function Copies(n: nat, f: Frame): (r: seq<Frame>)
    ensures |r| == n
  {
    seq(n, _ => f)
  }

  ghost predicate NoReset(events: seq<Event>) {
    forall i :: 0 <= i < |events| ==> !Resets(events[i])
  }

  predicate Clear(a: Arq) { !a.ackReceived && !a.nackReceived }

  /** A poll sets the flag of what it brings, and a reset besides empties the pending payload. */
  lemma PollEffect(a: Arq, e: Event)
    requires Clear(a)
    ensures var b := Polled(a, e.arrived);
            && b.ackReceived == Confirms(e) && b.nackReceived == Refuses(e) && b.pend.id == a.pend.id
            && (!Resets(e) ==> b.pend == a.pend && b.seqTx == a.seqTx)
    ensures Transmissions(Replies(a, e.arrived)) == []
  {
    if e.arrived.Some? {
      var reply := OnReceive(a, e.arrived.value).2;
      if reply.Some? { assert [reply.value][1..] == []; }
    }
  }

  lemma {:induction false} TransmissionsConcat(a: seq<Frame>, b: seq<Frame>)
    ensures Transmissions(a + b) == Transmissions(a) + Transmissions(b)
  {
    if a == [] {
      assert a + b == b;
    } else {
      assert (a + b)[1..] == a[1..] + b;
      TransmissionsConcat(a[1..], b);
    }
  }

  lemma TransmissionsOne(f: Frame, rest: seq<Frame>)
    requires !Control(f.id)
    ensures Transmissions([f] + rest) == [f] + Transmissions(rest)
  {
    assert ([f] + rest)[1..] == rest;
  }

  /** What is to come of a call: success after n more failures, or none, with these transmissions. */
  ghost predicate Ends(run: (Stage, Arq, seq<Frame>), ok: bool, count: nat) {
    run.0 == Done(ok) && |Transmissions(run.2)| == count
  }

  /** Nothing but the pending frame was transmitted, and the sequence number moved on by one. */
  ghost predicate Plain(run: (Stage, Arq, seq<Frame>), a: Arq, count: nat) {
    Transmissions(run.2) == Copies(count, a.pend) && run.1.seqTx == NextSeq(a.seqTx)
  }

  lemma FailuresNext(yes: bool, later: seq<bool>)
    ensures Failures([yes] + later) == if yes then 0 else 1 + Failures(later)
  {
    assert ([yes] + later)[1..] == later;
  }

  lemma AnswersNext(events: seq<Event>)
    requires events != []
    ensures var answers, later := Answers(events), Answers(events[1..]);
            match Answer(events[0])
            case None => answers == later
            case Some(true) => |answers| > 0 && Failures(answers) == 0
            case Some(false) => |answers| == 1 + |later| && Failures(answers) == 1 + Failures(later)
  {
    hide Answer, Failures;
    if Answer(events[0]).Some? { FailuresNext(Answer(events[0]).value, Answers(events[1..])); }
  }

  /** The checks after a poll, by what the poll brought. */
  lemma SettledRule(r: nat, b: Arq, expired: bool)
    requires r <= 3
    ensures var (next, settled) := Settled(r, b, expired);
            if b.ackReceived || ((b.nackReceived || expired) && r == 3) then
              next == Done(b.ackReceived) && settled.seqTx == NextSeq(b.seqTx)
            else if b.nackReceived || expired then next == Ready(r + 1) && settled == b
            else next == Waiting(r) && settled == b
  {
    hide NextSeq;
  }

  /** The rest of the call after an attempt that failed with retries left: the frame goes out again. */
  lemma AgainRule(r: nat, b: Arq, later: seq<Event>, ok: bool, count: nat)
    requires r <= 3 && !Control(b.pend.id)
    requires Ends(SendRun(Waiting(r), Cleared(b), later), ok, count)
    ensures Ends(SendRun(Ready(r), b, later), ok, count + 1)
    ensures Plain(SendRun(Waiting(r), Cleared(b), later), b, count) ==>
            Plain(SendRun(Ready(r), b, later), b, count + 1)
  {
    hide Control, SendRun, NextSeq;
    RunReady(r, b, later);
    var run := SendRun(Waiting(r), Cleared(b), later);
    TransmissionsOne(b.pend, run.2);
    assert Copies(count + 1, b.pend) == [b.pend] + Copies(count, b.pend);
  }

  lemma NothingSent()
    ensures Transmissions([]) == []
  {}

  /** The rest of a call that waits after its (r + 1)-th transmission. */
  lemma {:induction false} WaitRule(r: nat, a: Arq, events: seq<Event>)
    requires r <= 3 && Clear(a) && !Control(a.pend.id)
    ensures var run, answers := SendRun(Waiting(r), a, events), Answers(events);
            var n := Failures(answers);
            var ok := n < |answers| && n <= 3 - r;
            && Ends(run, ok, if ok then n else 3 - r)
            && (NoReset(events) ==> Plain(run, a, if ok then n else 3 - r))
    decreases 3 - r, |events|
  {
    hide Control, OnReceive, SendRun, Replies, Polled, Answers, Failures, Settled, NextSeq, Confirms, Refuses, Resets,
         Transmissions;
    RunWaiting(r, a, events);
    var event := if events == [] then Event(None, true) else events[0];
    var later := if events == [] then [] else events[1..];
    if events != [] { AnswersNext(events); } else { NoAnswers(); }
    NothingSent();
    PollEffect(a, event);
    var b := Polled(a, event.arrived);
    SettledRule(r, b, event.expired);
    var (next, settled) := Settled(r, b, event.expired);
    TransmissionsConcat(Replies(a, event.arrived), SendRun(next, settled, later).2);
    if next.Done? {
      RunDone(next, settled, later);
    } else if next.Waiting? {
      WaitRule(r, b, later);
    } else {
      WaitRule(r + 1, Cleared(b), later);
      var n := Failures(Answers(later));
      var ok := n < |Answers(later)| && n <= 2 - r;
      AgainRule(r + 1, b, later, ok, if ok then n else 2 - r);
    }
  }

  lemma NoAnswers()
    ensures Answers([]) == [] && Failures([]) == 0
    ensures !Confirms(Event(None, true)) && !Refuses(Event(None, true)) && !Resets(Event(None, true))
  {}

  /** Sequence numbers count modulo 128. */
  lemma NextNumber(s: octet)
    ensures NextSeq(s) as nat == (s as nat + 1) % 128
  {}

  /** A call succeeds if and only if a confirmation ends one of its first four waits, and has then transmitted once more
      than waits failed. Otherwise it has transmitted four times, and each wait was refused or overdue. What it
      transmits is the pending frame, and its sequence number moves on by one, unless the peer resets it meanwhile. */
  lemma SendRule(a: Arq, events: seq<Event>)
    requires !Control(a.pend.id)
    ensures var (stage, end, frames) := SendRun(Ready(0), a, events);
            var n := Failures(Answers(events));
            var ok := n < |Answers(events)| && n <= 3;
            && stage == Done(ok)
            && |Transmissions(frames)| == (if ok then n + 1 else 4)
            && (NoReset(events) ==> && Transmissions(frames) == Copies(if ok then n + 1 else 4, a.pend)
                                    && end.seqTx as nat == (a.seqTx as nat + 1) % 128)
  {
    hide Control, SendRun, Answers, Failures, NextSeq, NoReset, Transmissions;
    NextNumber(a.seqTx);
    WaitRule(0, Cleared(a), events);
    var n := Failures(Answers(events));
    var ok := n < |Answers(events)| && n <= 3;
    AgainRule(0, a, events, ok, if ok then n else 3);
  }

  // ---- What an endpoint remembers of the frames it took.

  function TakenAll(a: Arq, frames: seq<Frame>): Arq {
    if frames == [] then a else OnReceive(TakenAll(a, frames[..|frames| - 1]), frames[|frames| - 1]).0
  }

  /** The frames behind the last reset, or all of them. */
  function SinceReset(frames: seq<Frame>): (r: seq<Frame>)
    ensures |r| <= |frames|
  {
    if frames == [] then []
    else
      var last := frames[|frames| - 1];
      if last.id == 0xFFFC then [] else SinceReset(frames[..|frames| - 1]) + [last]
  }

  /** The sequence number expected after these frames, when it was n before: one more than that of the last data
      frame. */
  function Expected(frames: seq<Frame>, n: octet): octet {
    if frames == [] then n
    else
      var last := frames[|frames| - 1];
      if last.id in {0xFFFC, 0xFFFD, 0xFFFE} then Expected(frames[..|frames| - 1], n)
      else ((last.seqByte & 0x7F) + 1) & 0x7F
  }

  ghost predicate AnyWith(frames: seq<Frame>, id: word) {
    exists i :: 0 <= i < |frames| && frames[i].id == id && |frames[i].payload| >= 1
  }

  lemma AnyAppend(frames: seq<Frame>, f: Frame, id: word)
    ensures AnyWith(frames + [f], id) <==> AnyWith(frames, id) || (f.id == id && |f.payload| >= 1)
  {
    if AnyWith(frames, id) {
      var i :| 0 <= i < |frames| && frames[i].id == id && |frames[i].payload| >= 1;
      assert (frames + [f])[i] == frames[i];
    }
    if f.id == id && |f.payload| >= 1 { assert (frames + [f])[|frames|] == f; }
  }

  lemma ExpectedAppend(frames: seq<Frame>, f: Frame, n: octet)
    ensures Expected(frames + [f], n) ==
            if f.id in {0xFFFC, 0xFFFD, 0xFFFE} then Expected(frames, n) else ((f.seqByte & 0x7F) + 1) & 0x7F
  {
    assert (frames + [f])[..|frames|] == frames;
  }

  /** Flags and numbers are as these frames leave them; a reset before them has cleared all of it and emptied the
      pending frame. */
  ghost predicate Remembers(a: Arq, b: Arq, since: seq<Frame>, reset: bool) {
    && (b.ackReceived <==> AnyWith(since, 0xFFFE) || (!reset && a.ackReceived))
    && (b.nackReceived <==> AnyWith(since, 0xFFFD) || (!reset && a.nackReceived))
    && b.seqTx == (if reset then 0 else a.seqTx)
    && b.seqRx == Expected(since, if reset then 0 else a.seqRx)
    && b.pend == if reset then a.pend.(payload := []) else a.pend
  }

  lemma RemembersControl(a: Arq, b: Arq, since: seq<Frame>, reset: bool, f: Frame)
    requires Remembers(a, b, since, reset) && (f.id == 0xFFFE || f.id == 0xFFFD)
    ensures Remembers(a, OnReceive(b, f).0, since + [f], reset)
  {
    hide AnyWith, Expected, NextSeq;
    AnyAppend(since, f, 0xFFFE);
    AnyAppend(since, f, 0xFFFD);
    ExpectedAppend(since, f, if reset then 0 else a.seqRx);
  }

  lemma RemembersData(a: Arq, b: Arq, since: seq<Frame>, reset: bool, f: Frame)
    requires Remembers(a, b, since, reset) && !Control(f.id)
    ensures Remembers(a, OnReceive(b, f).0, since + [f], reset)
  {
    hide AnyWith, Expected;
    AnyAppend(since, f, 0xFFFE);
    AnyAppend(since, f, 0xFFFD);
    ExpectedAppend(since, f, if reset then 0 else a.seqRx);
  }

  lemma RemembersReset(a: Arq, b: Arq, since: seq<Frame>, reset: bool, f: Frame)
    requires Remembers(a, b, since, reset) && f.id == 0xFFFC
    ensures Remembers(a, OnReceive(b, f).0, [], true)
  {
    hide AnyWith, Expected, NextSeq;
    NothingExpected(0);
  }

  /** Whatever frames an endpoint takes, it remembers this of those since the last reset. */
  lemma {:induction false} EndpointRemembers(a: Arq, frames: seq<Frame>)
    ensures var since := SinceReset(frames); Remembers(a, TakenAll(a, frames), since, |since| < |frames|)
  {
    hide Remembers, OnReceive, Control;
    if frames == [] {
      assert Remembers(a, a, [], false) by { NothingRemembered(a); }
    } else {
      var init, last := frames[..|frames| - 1], frames[|frames| - 1];
      EndpointRemembers(a, init);
      var b, since := TakenAll(a, init), SinceReset(init);
      if last.id == 0xFFFC {
        RemembersReset(a, b, since, |since| < |init|, last);
      } else if last.id == 0xFFFE || last.id == 0xFFFD {
        RemembersControl(a, b, since, |since| < |init|, last);
      } else {
        assert !Control(last.id) by { ControlNumbers(last.id); }
        RemembersData(a, b, since, |since| < |init|, last);
      }
    }
  }

  lemma ControlNumbers(id: word)
    ensures Control(id) <==> id == 0xFFFC || id == 0xFFFD || id == 0xFFFE
  {}

  lemma NothingRemembered(a: Arq)
    ensures Remembers(a, a, [], false)
  {
    hide AnyWith, Expected;
    NothingExpected(a.seqRx);
  }

  lemma NothingExpected(n: octet)
    ensures Expected([], n) == n && !AnyWith([], 0xFFFE) && !AnyWith([], 0xFFFD)
  {}

  // ---- In the system of sender, link and peer.

  /** How often each stage of a call has transmitted. */
  ghost predicate Tallied(s: System) {
    match s.stage
    case Ready(retries) => retries == s.sent <= 3
    case Waiting(retries) => retries + 1 == s.sent <= 4
    case Done(ok) => 1 <= s.sent <= 4 && (!ok ==> s.sent == 4)
  }

  lemma TalliedStep(s: System, a: Action)
    requires Tallied(s) && Enabled(s, a)
    ensures Tallied(Act(s, a))
  {
    hide OnReceive;
  }

  lemma {:induction false} TalliedRun(s: System, actions: seq<Action>)
    requires Tallied(s) && Runs(s, actions)
    ensures Tallied(After(s, actions))
    decreases |actions|
  {
    hide Tallied, Enabled, Act;
    if actions == [] {
    } else {
      TalliedStep(s, actions[0]);
      TalliedRun(Act(s, actions[0]), actions[1..]);
    }
  }

  /** In every run, whatever is on the link and whatever the peer does, a call that fails has transmitted four times. */
  lemma FailsAfterFour(sender: Arq, peer: Arq, id: word, payload: seq<octet>, toPeer: multiset<Frame>,
                       toSender: multiset<Frame>, actions: seq<Action>)
    requires Runs(Start(sender, peer, id, payload, toPeer, toSender), actions)
    ensures var t := After(Start(sender, peer, id, payload, toPeer, toSender), actions);
            && t.sent <= 4 && (t.stage == Done(false) ==> t.sent == 4) && (t.stage == Done(true) ==> 1 <= t.sent)
  {
    TalliedRun(Start(sender, peer, id, payload, toPeer, toSender), actions);
  }
}
