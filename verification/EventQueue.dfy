/** Flags and cursor together are a queue of messages: nothing is stranded, lost or sent twice. */
module EventQueue {
  import opened Bits
  import opened EventModel
  import opened Sequences

  /** Everything the flags of one event ask for, in the order it will be sent. */
  function Wanted(flags: bv8): seq<Kind> {
    (if All(flags, IDENT_FLAG | CAN_PRODUCE_FLAG) then [ProducerIdentified]
     else if All(flags, IDENT_FLAG | CAN_CONSUME_FLAG) then [ConsumerIdentified]
     else []) +
    (if Any(flags, PRODUCE_FLAG) then [Report] else []) +
    (if Any(flags, TEACH_FLAG) then [Teaching] else [])
  }

  function Tagged(ks: seq<Kind>, index: nat): (ms: seq<Message>)
    ensures |ms| == |ks| && forall i | 0 <= i < |ks| :: ms[i] == Message(index, ks[i])
  {
    seq(|ks|, i requires 0 <= i < |ks| => Message(index, ks[i]))
  }

  /** All messages asked for by the events from i on. */
  function Pending(events: seq<Event>, i: nat): seq<Message>
    requires i <= |events|
    decreases |events| - i
  {
    if i == |events| then [] else Tagged(Wanted(events[i].flags), i) + Pending(events, i + 1)
  }

  predicate NoneStranded(t: Table) {
    t.sendEvent <= |t.events| && forall i | 0 <= i < t.sendEvent :: Wanted(t.events[i].flags) == []
  }

  // ---------------------------------------------------------------- one event's flags

  lemma {:induction false} WantedHead(flags: bv8)
    ensures NextKind(flags) == [] <==> Wanted(flags) == []
    ensures NextKind(flags) != [] ==> Wanted(flags)[0] == NextKind(flags)[0]
  {
  }

  /** Sending the first thing an event asks for leaves the others asked for. */
  lemma {:induction false} WantedTail(flags: bv8)
    requires NextKind(flags) != []
    ensures Wanted(Cleared(flags, NextKind(flags)[0])) == Wanted(flags)[1..]
  {
  }

  lemma {:induction false} LearningIsQuiet(flags: bv8)
    ensures Wanted(flags | LEARN_FLAG) == Wanted(flags) == Wanted(flags & !LEARN_FLAG)
  {
  }

  // ---------------------------------------------------------------- the queue

  /** A message is pending exactly when the flags of its event ask for it. */
  lemma {:induction false} PendingIsWanted(events: seq<Event>, i: nat, m: Message)
    requires i <= |events|
    ensures m in Pending(events, i) <==> i <= m.index < |events| && m.kind in Wanted(events[m.index].flags)
    decreases |events| - i
  {
    hide Wanted;
    if i < |events| {
      PendingIsWanted(events, i + 1, m);
      var here := Tagged(Wanted(events[i].flags), i);
      assert m in here <==> m.index == i && m.kind in Wanted(events[i].flags) by {
        if m.index == i && m.kind in Wanted(events[i].flags) {
          var k :| 0 <= k < |here| && Wanted(events[i].flags)[k] == m.kind;
          assert here[k] == m;
        }
      }
    }
  }

  lemma {:induction false} WantedOnce(flags: bv8)
    ensures forall i, j | 0 <= i < j < |Wanted(flags)| :: Wanted(flags)[i] != Wanted(flags)[j]
  {
  }

  /** Nothing is pending twice. */
  lemma {:induction false} PendingOnce(events: seq<Event>, i: nat)
    requires i <= |events|
    ensures Distinct(Pending(events, i))
    decreases |events| - i
  {
    hide Wanted;
    if i < |events| {
      PendingOnce(events, i + 1);
      WantedOnce(events[i].flags);
      forall m | m in Pending(events, i + 1)
        ensures m.index != i
      {
        PendingIsWanted(events, i + 1, m);
      }
    }
  }

  /** The order in which an event's messages go out. */
  function Rank(k: Kind): nat {
    match k
    case ProducerIdentified => 0
    case ConsumerIdentified => 0
    case Report => 1
    case Teaching => 2
  }

  predicate Before(m: Message, n: Message) {
    m.index < n.index || (m.index == n.index && Rank(m.kind) < Rank(n.kind))
  }

  /** Messages leave in the order of the table, and an event is identified before it is reported and that before it is taught. */
  lemma {:induction false} PendingInOrder(events: seq<Event>, i: nat)
    requires i <= |events|
    ensures forall a, b | 0 <= a < b < |Pending(events, i)| :: Before(Pending(events, i)[a], Pending(events, i)[b])
    ensures forall m | m in Pending(events, i) :: m.index >= i
    decreases |events| - i
  {
    hide Wanted;
    if i < |events| {
      PendingInOrder(events, i + 1);
      WantedInOrder(events[i].flags);
    }
  }

  lemma {:induction false} WantedInOrder(flags: bv8)
    ensures forall a, b | 0 <= a < b < |Wanted(flags)| :: Rank(Wanted(flags)[a]) < Rank(Wanted(flags)[b])
  {
  }

  lemma {:induction false} EmptySpan(events: seq<Event>, i: nat, j: nat)
    requires i <= j <= |events| && forall k | i <= k < j :: Wanted(events[k].flags) == []
    ensures Pending(events, i) == Pending(events, j)
    decreases j - i
  {
    if i < j {
      EmptySpan(events, i + 1, j);
    }
  }

  lemma {:induction false} SamePending(a: seq<Event>, b: seq<Event>, i: nat)
    requires i <= |a| == |b| && forall k | i <= k < |a| :: Wanted(a[k].flags) == Wanted(b[k].flags)
    ensures Pending(a, i) == Pending(b, i)
    decreases |a| - i
  {
    if i < |a| {
      SamePending(a, b, i + 1);
    }
  }

  /** The event the cursor stops at heads the queue. */
  lemma {:induction false} CursorFindsHead(t: Table)
    requires NoneStranded(t)
    ensures var k := Advance(t.events, t.sendEvent);
            && (forall i | 0 <= i < k :: Wanted(t.events[i].flags) == [])
            && Pending(t.events, 0) == Pending(t.events, k)
            && (k == |t.events| <==> Pending(t.events, 0) == [])
            && (k < |t.events| ==> Pending(t.events, 0)[0] == Message(k, NextKind(t.events[k].flags)[0]))
  {
    hide Wanted, NextKind, Cleared;
    var k := Advance(t.events, t.sendEvent);
    forall i | 0 <= i < k
      ensures Wanted(t.events[i].flags) == []
    {
      WantedHead(t.events[i].flags);
    }
    EmptySpan(t.events, 0, k);
    if k < |t.events| {
      WantedHead(t.events[k].flags);
    }
  }

  lemma {:induction false} PendingFrom(events: seq<Event>, k: nat)
    requires k < |events|
    ensures Pending(events, k) == Tagged(Wanted(events[k].flags), k) + Pending(events, k + 1)
  {
  }

  /** Clearing the flag of the head takes the head off the queue and nothing else. */
  lemma {:induction false} HeadComesOff(events: seq<Event>, k: nat)
    requires k < |events| && NextKind(events[k].flags) != []
    requires forall i | 0 <= i < k :: Wanted(events[i].flags) == []
    ensures var e := events[k];
            var after := events[k := e.(flags := Cleared(e.flags, NextKind(e.flags)[0]))];
            Pending(events, 0) != [] && Pending(after, 0) == Pending(events, 0)[1..]
  {
    hide Wanted, NextKind, Cleared, Pending;
    var e := events[k];
    var f := Cleared(e.flags, NextKind(e.flags)[0]);
    var after := events[k := e.(flags := f)];
    EmptySpan(events, 0, k);
    EmptySpan(after, 0, k);
    SamePending(events, after, k + 1);
    WantedHead(e.flags);
    WantedTail(e.flags);
    PendingFrom(events, k);
    PendingFrom(after, k);
    var ks, rest := Wanted(e.flags), Pending(events, k + 1);
    assert Tagged(ks[1..], k) == Tagged(ks, k)[1..];
    assert (Tagged(ks, k) + rest)[1..] == Tagged(ks, k)[1..] + rest;
  }

  /**
   update() with the bus willing: it sends the head of the queue and the rest is left,
   and it sends nothing exactly when nothing is pending.
   */
  lemma {:induction false} UpdatePops(t: Table)
    requires NoneStranded(t)
    ensures var (u, sent) := Update(t, true);
            var queue := Pending(t.events, 0);
            && NoneStranded(u) && |u.events| == |t.events|
            && sent == (if queue == [] then [] else [queue[0]])
            && Pending(u.events, 0) == (if queue == [] then [] else queue[1..])
  {
    hide Wanted, NextKind, Cleared;
    CursorFindsHead(t);
    var k := Advance(t.events, t.sendEvent);
    if k < |t.events| {
      HeadComesOff(t.events, k);
    }
  }

  /**
   update() with the bus unwilling: nothing is sent, and the queue is left as it was,
   unless its head is a teaching message: exactly then the head is lost.
   */
  lemma {:induction false} RefusedUpdate(t: Table)
    requires NoneStranded(t)
    ensures var (u, sent) := Update(t, false);
            var queue := Pending(t.events, 0);
            && NoneStranded(u) && sent == []
            && (queue != [] && queue[0].kind.Teaching? ==> Pending(u.events, 0) == queue[1..])
            && (Pending(u.events, 0) == queue <==> queue == [] || !queue[0].kind.Teaching?)
  {
    hide Wanted, NextKind, Cleared;
    CursorFindsHead(t);
    var k := Advance(t.events, t.sendEvent);
    if k < |t.events| {
      HeadComesOff(t.events, k);
    }
  }

  // ---------------------------------------------------------------- requests keep the cursor low enough

  datatype Call =
    | Tick(accepted: bool)
    | Produced(index: nat)
    | IdentifyEvents
    | IdentifyProducers(val: seq<Byte>)
    | IdentifyConsumers(val: seq<Byte>)
    | LearnEvent(val: seq<Byte>)
    | New(index: nat, p: bool, c: bool)
    | ToLearn(index: nat, mark: bool)
    | ToTeach(index: nat, mark: bool)

  /** Indices handed to the handler lie in its table. */
  predicate InRange(t: Table, c: Call) {
    match c
    case Produced(i) => i < |t.events|
    case New(i, _, _) => i < |t.events|
    case ToLearn(i, _) => i < |t.events|
    case ToTeach(i, _) => i < |t.events|
    case _ => true
  }

  function Step(t: Table, c: Call): Table
    requires t.sendEvent <= |t.events| && InRange(t, c)
  {
    match c
    case Tick(accepted) => Update(t, accepted).0
    case Produced(i) => Produce(t, i)
    case IdentifyEvents => IdentifyAll(t)
    case IdentifyProducers(val) => Identify(t, val, CAN_PRODUCE_FLAG)
    case IdentifyConsumers(val) => Identify(t, val, CAN_CONSUME_FLAG)
    case LearnEvent(val) => Learn(t, val)
    case New(i, p, c) => NewEvent(t, i, p, c)
    case ToLearn(i, mark) => MarkToLearn(t, i, mark)
    case ToTeach(i, mark) => MarkToTeach(t, i, mark)
  }

  lemma {:induction false} StepKeepsQueue(t: Table, c: Call)
    requires NoneStranded(t) && InRange(t, c)
    ensures NoneStranded(Step(t, c)) && |Step(t, c).events| == |t.events|
  {
    hide Wanted, NextKind, Cleared;
    match c
    case Tick(accepted) =>
      if accepted {
        UpdatePops(t);
      } else {
        RefusedUpdate(t);
      }
    case ToLearn(i, mark) => LearningIsQuiet(t.events[i].flags);
    case _ =>
  }

  /** Repeated calls from a given table. */
  function Steps(t: Table, cs: seq<Call>, n: nat): Table
    requires NoneStranded(t) && n <= |cs| && forall k | 0 <= k < |cs| :: InRange(t, cs[k])
    ensures NoneStranded(Steps(t, cs, n)) && |Steps(t, cs, n).events| == |t.events|
  {
    if n == 0 then t
    else
      StepKeepsQueue(Steps(t, cs, n - 1), cs[n - 1]);
      Step(Steps(t, cs, n - 1), cs[n - 1])
  }

  /** From a cursor at 0, no run of calls ever strands an event that has something to send below the cursor. */
  lemma {:induction false} NothingIsStranded(t: Table, cs: seq<Call>, n: nat, i: nat)
    requires t.sendEvent == 0 && n <= |cs| && forall k | 0 <= k < |cs| :: InRange(t, cs[k])
    requires i < Steps(t, cs, n).sendEvent
    ensures i < |t.events| && Wanted(Steps(t, cs, n).events[i].flags) == []
  {
  }

  // ---------------------------------------------------------------- draining

  function Drained(t: Table, n: nat): (Table, seq<Message>)
    requires NoneStranded(t)
    ensures NoneStranded(Drained(t, n).0)
    decreases n
  {
    if n == 0 then (t, [])
    else
      UpdatePops(t);
      var (u, sent) := Update(t, true);
      var (v, more) := Drained(u, n - 1);
      (v, sent + more)
  }

  /**
   With the bus willing and no new requests, n calls of update() send exactly the first n messages
   that were pending, each once and in order, and leave the others pending.
   */
  lemma {:induction false} DrainsInOrder(t: Table, n: nat)
    requires NoneStranded(t)
    ensures var (u, sent) := Drained(t, n);
            var queue := Pending(t.events, 0);
            && Distinct(queue)
            && sent == queue[..if n <= |queue| then n else |queue|]
            && Pending(u.events, 0) == queue[if n <= |queue| then n else |queue|..]
    decreases n
  {
    hide Update, Pending, Distinct;
    PendingOnce(t.events, 0);
    if n > 0 {
      UpdatePops(t);
      DrainsInOrder(Update(t, true).0, n - 1);
    }
  }

  // ---------------------------------------------------------------- what requests put on the queue

  /**
   Every marked event is on the queue to be identified, as a producer if it can produce and only
   else as a consumer, and no event but the capable ones with this ID was touched.
   */
  lemma {:induction false} IdentifyIsQueued(t: Table, val: seq<Byte>, capability: bv8, i: nat)
    requires i < |t.events| && capability in {CAN_PRODUCE_FLAG, CAN_CONSUME_FLAG}
    ensures var e, u := t.events[i], Identify(t, val, capability);
            && (Capable(e, val, capability) ==>
                  && (Message(i, ProducerIdentified) in Pending(u.events, 0) <==> Any(e.flags, CAN_PRODUCE_FLAG))
                  && (Message(i, ConsumerIdentified) in Pending(u.events, 0) <==> !Any(e.flags, CAN_PRODUCE_FLAG)))
            && (!Capable(e, val, capability) ==> u.events[i] == e)
  {
    hide Pending;
    var u := Identify(t, val, capability);
    PendingIsWanted(u.events, 0, Message(i, ProducerIdentified));
    PendingIsWanted(u.events, 0, Message(i, ConsumerIdentified));
  }

  lemma {:induction false} ProducedIsQueued(t: Table, i: nat)
    requires i < |t.events| && Any(t.events[i].flags, CAN_PRODUCE_FLAG)
    ensures Message(i, Report) in Pending(Produce(t, i).events, 0)
  {
    PendingIsWanted(Produce(t, i).events, 0, Message(i, Report));
  }

  /** A report reaches exactly the events that can consume it. */
  lemma {:induction false} ConsumersExactly(events: seq<Event>, val: seq<Byte>, i: nat, k: nat)
    requires i <= |events|
    ensures k in Consumers(events, val, i) <==> i <= k < |events| && Capable(events[k], val, CAN_CONSUME_FLAG)
    decreases |events| - i
  {
    if i < |events| {
      ConsumersExactly(events, val, i + 1, k);
    }
  }

  /** And in the order of the table. */
  lemma {:induction false} ConsumersInOrder(events: seq<Event>, val: seq<Byte>, i: nat)
    requires i <= |events|
    ensures forall a, b | 0 <= a < b < |Consumers(events, val, i)| :: Consumers(events, val, i)[a] < Consumers(events, val, i)[b]
    decreases |events| - i
  {
    if i < |events| {
      ConsumersInOrder(events, val, i + 1);
      var later := Consumers(events, val, i + 1);
      forall b | 0 <= b < |later|
        ensures i < later[b]
      {
        ConsumersExactly(events, val, i + 1, later[b]);
      }
    }
  }
}
