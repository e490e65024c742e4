/** The single-producer single-consumer ring, one atomic load or store at a time. */
module RingQueue {
  import opened Common

  /** Where the k-th element behind the tail lives. */
  function At(size: nat, tail: nat, k: nat): (r: nat)
    requires tail < size && k <= size
    ensures r < size
  {
    if tail + k < size then tail + k else tail + k - size
  }

  function Next(size: nat, i: nat): (r: nat)
    requires i < size
    ensures r < size && r == At(size, i, 1)
  {
    if i + 1 == size then 0 else i + 1
  }

  function Occupied(size: nat, head: nat, tail: nat): (r: nat)
    requires head < size && tail < size
    ensures r < size && At(size, tail, r) == head
  {
    if tail <= head then head - tail else size + head - tail
  }

  /** The elements from tail to head. */
  function Elements(slots: seq<byte>, head: nat, tail: nat): (q: seq<byte>)
    requires head < |slots| && tail < |slots|
    ensures |q| == Occupied(|slots|, head, tail)
  {
    seq(Occupied(|slots|, head, tail), k requires 0 <= k < |slots| => slots[At(|slots|, tail, k)])
  }

  function FreeSlots(size: nat, head: nat, tail: nat): int {
    if head == tail then size - 1 else if head < tail then tail - head - 1 else size + tail - head - 1
  }

  // ---- What moving an index does to the elements.

  lemma FullTest(size: nat, head: nat, tail: nat)
    requires head < size && tail < size
    ensures Next(size, head) == tail <==> Occupied(size, head, tail) == size - 1
    ensures head == tail <==> Occupied(size, head, tail) == 0
    ensures FreeSlots(size, head, tail) == size - 1 - Occupied(size, head, tail)
  {}

  lemma HeadMoves(slots: seq<byte>, head: nat, tail: nat)
    requires head < |slots| && tail < |slots| && Next(|slots|, head) != tail
    ensures Elements(slots, Next(|slots|, head), tail) == Elements(slots, head, tail) + [slots[head]]
  {
    hide At;
    var n := Occupied(|slots|, head, tail);
    FullTest(|slots|, head, tail);
    assert Occupied(|slots|, Next(|slots|, head), tail) == n + 1;
    assert slots[At(|slots|, tail, n)] == slots[head];
  }

  lemma TailMoves(slots: seq<byte>, head: nat, tail: nat)
    requires head < |slots| && tail < |slots| && head != tail
    ensures var q := Elements(slots, head, tail);
            q != [] && q[0] == slots[tail] && Elements(slots, head, Next(|slots|, tail)) == q[1..]
  {
    var size, q := |slots|, Elements(slots, head, tail);
    assert Occupied(size, head, Next(size, tail)) == |q| - 1;
    forall k | 0 <= k < |q| - 1 ensures slots[At(size, Next(size, tail), k)] == q[1..][k] { NextAt(size, tail, k); }
  }

  lemma NextAt(size: nat, tail: nat, k: nat)
    requires tail < size && k + 1 < size
    ensures At(size, Next(size, tail), k) == At(size, tail, k + 1)
  {}

  /** The slot at the head is outside the elements. */
  lemma HeadSlotFree(slots: seq<byte>, head: nat, tail: nat, el: byte)
    requires head < |slots| && tail < |slots|
    ensures Elements(slots[head := el], head, tail) == Elements(slots, head, tail)
  {
    var q := Elements(slots, head, tail);
    forall k | 0 <= k < |q| ensures At(|slots|, tail, k) != head { Distinct(|slots|, tail, k, |q|); }
  }

  lemma Distinct(size: nat, tail: nat, i: nat, j: nat)
    requires tail < size && i < j < size
    ensures At(size, tail, i) != At(size, tail, j)
  {}

  // ---- The two threads, between any two of their loads and stores.

  datatype Producer =
    | Quiet
    | HasHead(el: byte, next: nat)         // head loaded
    | Granted(el: byte, next: nat)         // tail loaded, not full
    | Stored(next: nat)                    // element in its slot
    | Asking(head: nat)                    // counting free slots, head loaded

  datatype Consumer =
    | Resting
    | HasTail(tail: nat)                   // tail loaded
    | Allowed(tail: nat)                   // head loaded, not empty
    | Taken(tail: nat, el: byte)           // element read

  datatype Ring = Ring(slots: seq<byte>, head: nat, tail: nat, producer: Producer, consumer: Consumer)

  datatype Action = StartPut(el: byte) | StartCount | ProducerStep | StartGet | ConsumerStep

  /** What a step completes, if anything. */
  datatype Op = Silent | Put(el: byte) | PutFull(el: byte) | Get(el: byte) | GetEmpty | Free(n: int)

  predicate Shaped(s: Ring) {
    s.head < |s.slots| && s.tail < |s.slots|
  }

  /** What each thread may rely on about the other, at every point of its operation. */
  predicate Inv(s: Ring) {
    && Shaped(s)
    && (match s.producer
        case Quiet => true
        case HasHead(_, next) => next == Next(|s.slots|, s.head)
        case Granted(_, next) => next == Next(|s.slots|, s.head) && Occupied(|s.slots|, s.head, s.tail) < |s.slots| - 1
        case Stored(next) => next == Next(|s.slots|, s.head) && Occupied(|s.slots|, s.head, s.tail) < |s.slots| - 1
        case Asking(head) => head == s.head)
    && (match s.consumer
        case Resting => true
        case HasTail(tail) => tail == s.tail
        case Allowed(tail) => tail == s.tail && s.head != s.tail
        case Taken(tail, el) => tail == s.tail && s.head != s.tail && el == s.slots[s.tail])
  }

  /** One step; one that its thread is not ready for does nothing. */
  function Act(s: Ring, a: Action): (Ring, Op)
    requires Inv(s)
  {
    match a
    case StartPut(el) =>
      if s.producer.Quiet? then (s.(producer := HasHead(el, Next(|s.slots|, s.head))), Silent) else (s, Silent)
    case StartCount => if s.producer.Quiet? then (s.(producer := Asking(s.head)), Silent) else (s, Silent)
    case ProducerStep =>
      (match s.producer
       case Quiet => (s, Silent)
       case HasHead(el, next) =>
         if next != s.tail then (s.(producer := Granted(el, next)), Silent)
         else (s.(producer := Quiet), PutFull(el))
       case Granted(el, next) => (s.(slots := s.slots[s.head := el], producer := Stored(next)), Silent)
       case Stored(next) => (s.(head := next, producer := Quiet), Put(s.slots[s.head]))
       case Asking(head) => (s.(producer := Quiet), Free(FreeSlots(|s.slots|, head, s.tail))))
    case StartGet => if s.consumer.Resting? then (s.(consumer := HasTail(s.tail)), Silent) else (s, Silent)
    case ConsumerStep =>
      (match s.consumer
       case Resting => (s, Silent)
       case HasTail(tail) =>
         if s.head != tail then (s.(consumer := Allowed(tail)), Silent) else (s.(consumer := Resting), GetEmpty)
       case Allowed(tail) => (s.(consumer := Taken(tail, s.slots[tail])), Silent)
       case Taken(tail, el) => (s.(tail := Next(|s.slots|, tail), consumer := Resting), Get(el)))
  }

  // ---- The bounded queue it stands for.

  function Queue(s: Ring): seq<byte>
    requires Shaped(s)
  {
    Elements(s.slots, s.head, s.tail)
  }

  /** A bounded FIFO queue: what each completed operation requires and does. */
  function Apply(q: seq<byte>, capacity: nat, op: Op): Option<seq<byte>> {
    match op
    case Silent => Some(q)
    case Put(el) => if |q| < capacity then Some(q + [el]) else None
    case PutFull(_) => if |q| == capacity then Some(q) else None
    case Get(el) => if q != [] && q[0] == el then Some(q[1..]) else None
    case GetEmpty => if q == [] then Some(q) else None
    case Free(n) => if n == capacity - |q| then Some(q) else None
  }

  /** Each single load or store is a step of the bounded queue, or none at all. */
  lemma StepRefines(s: Ring, a: Action)
    requires Inv(s)
    ensures var (s', op) := Act(s, a);
            Inv(s') && |s'.slots| == |s.slots| && Apply(Queue(s), |s.slots| - 1, op) == Some(Queue(s'))
  {
    if a.ProducerStep? {
      ProducerRefines(s);
    } else if a.ConsumerStep? {
      ConsumerRefines(s);
    }
  }

  lemma ProducerRefines(s: Ring)
    requires Inv(s)
    ensures var (s', op) := Act(s, ProducerStep);
            Inv(s') && |s'.slots| == |s.slots| && Apply(Queue(s), |s.slots| - 1, op) == Some(Queue(s'))
  {
    hide At, Elements;
    FullTest(|s.slots|, s.head, s.tail);
    match s.producer {
      case Quiet =>
      case HasHead(el, next) =>
      case Granted(el, next) => HeadSlotFree(s.slots, s.head, s.tail, el);
      case Stored(next) => HeadMoves(s.slots, s.head, s.tail);
      case Asking(head) =>
    }
  }

  lemma ConsumerRefines(s: Ring)
    requires Inv(s)
    ensures var (s', op) := Act(s, ConsumerStep);
            Inv(s') && |s'.slots| == |s.slots| && Apply(Queue(s), |s.slots| - 1, op) == Some(Queue(s'))
  {
    hide At, Elements;
    FullTest(|s.slots|, s.head, s.tail);
    if s.consumer.Taken? { TailMoves(s.slots, s.head, s.tail); }
  }

  // ---- Whole interleavings.

  function Start(slots: seq<byte>): Ring { Ring(slots, 0, 0, Quiet, Resting) }

  /** The state and the completed operations after these steps, in whatever order the threads took them. */
  function Run(s: Ring, actions: seq<Action>): (r: (Ring, seq<Op>))
    requires Inv(s)
    ensures Inv(r.0) && |r.0.slots| == |s.slots|
    decreases |actions|
  {
    if actions == [] then (s, [])
    else
      StepRefines(s, actions[0]);
      var (s1, op) := Act(s, actions[0]);
      var (s2, ops) := Run(s1, actions[1..]);
      (s2, [op] + ops)
  }

  /** These completed operations, one after the other, are ones of a bounded queue. */
  predicate Legal(q: seq<byte>, capacity: nat, ops: seq<Op>)
    decreases |ops|
  {
    ops == [] || (Apply(q, capacity, ops[0]).Some? && Legal(Apply(q, capacity, ops[0]).value, capacity, ops[1..]))
  }

  function PutIn(ops: seq<Op>): seq<byte> {
    if ops == [] then [] else (if ops[0].Put? then [ops[0].el] else []) + PutIn(ops[1..])
  }

  function GotOut(ops: seq<Op>): seq<byte> {
    if ops == [] then [] else (if ops[0].Get? then [ops[0].el] else []) + GotOut(ops[1..])
  }

  lemma {:induction false} RunLegal(s: Ring, actions: seq<Action>)
    requires Inv(s)
    ensures var (s', ops) := Run(s, actions);
            Legal(Queue(s), |s.slots| - 1, ops) && Queue(s) + PutIn(ops) == GotOut(ops) + Queue(s')
    decreases |actions|
  {
    hide Act, Queue;
    if actions == [] {
      assert Queue(s) + [] == [] + Queue(s);
    } else {
      StepRefines(s, actions[0]);
      var (s1, op) := Act(s, actions[0]);
      RunLegal(s1, actions[1..]);
      var (s2, ops) := Run(s1, actions[1..]);
      assert ([op] + ops)[1..] == ops;
      Conserved(Queue(s), |s.slots| - 1, op, Queue(s1), PutIn(ops), GotOut(ops), Queue(s2));
    }
  }

  lemma Conserved(q: seq<byte>, capacity: nat, op: Op, q1: seq<byte>, puts: seq<byte>, gets: seq<byte>, q2: seq<byte>)
    requires Apply(q, capacity, op) == Some(q1) && q1 + puts == gets + q2
    ensures q + ((if op.Put? then [op.el] else []) + puts) == (if op.Get? then [op.el] else []) + gets + q2
  {
    if op.Put? {
      assert q + ([op.el] + puts) == q1 + puts;
      assert [] + gets == gets;
    } else if op.Get? {
      assert q == [op.el] + q1;
      assert q + ([] + puts) == [op.el] + (q1 + puts) == [op.el] + gets + q2;
    } else {
      assert [] + puts == puts && [] + gets == gets;
    }
  }

  /** Under every interleaving, what was got is a prefix of what was put, at most one element less than the size is in
      between, and the completed operations are those of a bounded FIFO queue. */
  lemma Linearizable(slots: seq<byte>, actions: seq<Action>)
    requires slots != []
    ensures var (s, ops) := Run(Start(slots), actions);
            && Legal([], |slots| - 1, ops)
            && GotOut(ops) <= PutIn(ops)
            && |PutIn(ops)| - |GotOut(ops)| == |Queue(s)| <= |slots| - 1
  {
    hide Run, Legal, Act;
    RunLegal(Start(slots), actions);
    assert Queue(Start(slots)) == [];
    var (s, ops) := Run(Start(slots), actions);
    assert PutIn(ops) == [] + PutIn(ops) == GotOut(ops) + Queue(s);
  }
}
