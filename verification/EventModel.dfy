/** The event handler's table of flagged events and its send cursor, on values. */
module EventModel {
  import opened Bits

  const IDENT_FLAG: bv8 := 0x01
  const PRODUCE_FLAG: bv8 := 0x02
  const LEARN_FLAG: bv8 := 0x08
  const TEACH_FLAG: bv8 := 0x10
  const CAN_CONSUME_FLAG: bv8 := 0x20
  const CAN_PRODUCE_FLAG: bv8 := 0x40

  datatype Event = Event(val: seq<Byte>, flags: bv8)

  datatype Table = Table(events: seq<Event>, sendEvent: nat)

  datatype Kind = ProducerIdentified | ConsumerIdentified | Report | Teaching

  /** A message the handler sends about the event at an index. */
  datatype Message = Message(index: nat, kind: Kind)

  predicate All(flags: bv8, mask: bv8) {
    flags & mask == mask
  }

  predicate Any(flags: bv8, mask: bv8) {
    flags & mask != 0
  }

  /** What update() would send for an event with these flags; the first test that holds decides. */
  function NextKind(flags: bv8): seq<Kind> {
    if All(flags, IDENT_FLAG | CAN_PRODUCE_FLAG) then [ProducerIdentified]
    else if All(flags, IDENT_FLAG | CAN_CONSUME_FLAG) then [ConsumerIdentified]
    else if Any(flags, PRODUCE_FLAG) then [Report]
    else if Any(flags, TEACH_FLAG) then [Teaching]
    else []
  }

  function Cleared(flags: bv8, k: Kind): bv8 {
    match k
    case ProducerIdentified => flags & !IDENT_FLAG
    case ConsumerIdentified => flags & !IDENT_FLAG
    case Report => flags & !PRODUCE_FLAG
    case Teaching => flags & !TEACH_FLAG
  }

  // ---------------------------------------------------------------- what requests do to the flags

  function Identified(flags: bv8): bv8 {
    flags | IDENT_FLAG
  }

  function Reporting(flags: bv8): bv8 {
    flags | PRODUCE_FLAG
  }

  function ToBeLearned(flags: bv8, mark: bool): bv8 {
    if mark then flags | LEARN_FLAG else flags & !LEARN_FLAG
  }

  function ToBeTaught(flags: bv8, mark: bool): bv8 {
    if mark then flags | TEACH_FLAG else flags & !TEACH_FLAG
  }

  function Enabled(flags: bv8, p: bool, c: bool): bv8 {
    flags | IDENT_FLAG | (if p then CAN_PRODUCE_FLAG else 0) | (if c then CAN_CONSUME_FLAG else 0)
  }

  // ---------------------------------------------------------------- update()

  /** The first index from i on with something to send, or the length. */
  function Advance(events: seq<Event>, i: nat): (k: nat)
    requires i <= |events|
    ensures i <= k <= |events|
    ensures forall j | i <= j < k :: NextKind(events[j].flags) == []
    ensures k < |events| ==> NextKind(events[k].flags) != []
    decreases |events| - i
  {
    if i == |events| || NextKind(events[i].flags) != [] then i else Advance(events, i + 1)
  }

  /** update(): at most one message; a refused one stays marked, except a teaching message. */
  function Update(t: Table, accepted: bool): (Table, seq<Message>)
    requires t.sendEvent <= |t.events|
  {
    var k := Advance(t.events, t.sendEvent);
    if k == |t.events| then (t.(sendEvent := k), [])
    else
      var e := t.events[k];
      var kind := NextKind(e.flags)[0];
      (Table(if accepted || kind.Teaching? then t.events[k := e.(flags := Cleared(e.flags, kind))] else t.events, k),
       if accepted then [Message(k, kind)] else [])
  }

  // ---------------------------------------------------------------- requests

  function Produce(t: Table, index: nat): Table
    requires index < |t.events|
  {
    var e := t.events[index];
    if Any(e.flags, CAN_PRODUCE_FLAG) then
      Table(t.events[index := e.(flags := Reporting(e.flags))], Min(t.sendEvent, index))
    else t
  }

  function IdentifyAll(t: Table): Table {
    Table(seq(|t.events|, i requires 0 <= i < |t.events| => t.events[i].(flags := Identified(t.events[i].flags))), 0)
  }

  predicate Capable(e: Event, val: seq<Byte>, capability: bv8) {
    e.val == val && Any(e.flags, capability)
  }

  /** The least index from i on of an event with this ID and capability, or the length. */
  function FirstCapable(events: seq<Event>, val: seq<Byte>, capability: bv8, i: nat): (k: nat)
    requires i <= |events|
    ensures i <= k <= |events|
    ensures forall j | i <= j < k :: !Capable(events[j], val, capability)
    ensures k < |events| ==> Capable(events[k], val, capability)
    decreases |events| - i
  {
    if i == |events| || Capable(events[i], val, capability) then i else FirstCapable(events, val, capability, i + 1)
  }

  function MarkedEvent(e: Event, val: seq<Byte>, capability: bv8): Event {
    if Capable(e, val, capability) then e.(flags := Identified(e.flags)) else e
  }

  /** Identify Producers or Consumers: exactly the capable events with this ID are marked. */
  function Identify(t: Table, val: seq<Byte>, capability: bv8): Table {
    var k := FirstCapable(t.events, val, capability, 0);
    Table(seq(|t.events|, i requires 0 <= i < |t.events| => MarkedEvent(t.events[i], val, capability)),
          if k < |t.events| then Min(t.sendEvent, k) else t.sendEvent)
  }

  function LearnedEvent(e: Event, val: seq<Byte>): Event {
    if Any(e.flags, LEARN_FLAG) then Event(val, ToBeLearned(Identified(e.flags), false)) else e
  }

  function FirstLearner(events: seq<Event>, i: nat): (k: nat)
    requires i <= |events|
    ensures i <= k <= |events|
    ensures forall j | i <= j < k :: !Any(events[j].flags, LEARN_FLAG)
    ensures k < |events| ==> Any(events[k].flags, LEARN_FLAG)
    decreases |events| - i
  {
    if i == |events| || Any(events[i].flags, LEARN_FLAG) then i else FirstLearner(events, i + 1)
  }

  /** Learn Event: every event that waits to learn takes the ID and is to be identified. */
  function Learn(t: Table, val: seq<Byte>): Table {
    var k := FirstLearner(t.events, 0);
    Table(seq(|t.events|, i requires 0 <= i < |t.events| => LearnedEvent(t.events[i], val)),
          if k < |t.events| then Min(t.sendEvent, k) else t.sendEvent)
  }

  function NewEvent(t: Table, index: nat, p: bool, c: bool): Table
    requires index < |t.events|
  {
    var e := t.events[index];
    Table(t.events[index := e.(flags := Enabled(e.flags, p, c))], Min(t.sendEvent, index))
  }

  function MarkToLearn(t: Table, index: nat, mark: bool): Table
    requires index < |t.events|
  {
    var e := t.events[index];
    t.(events := t.events[index := e.(flags := ToBeLearned(e.flags, mark))])
  }

  function MarkToTeach(t: Table, index: nat, mark: bool): Table
    requires index < |t.events|
  {
    var e := t.events[index];
    Table(t.events[index := e.(flags := ToBeTaught(e.flags, mark))],
          Min(t.sendEvent, index))
  }

  /** The events that consume a report with this ID, in table order. */
  function Consumers(events: seq<Event>, val: seq<Byte>, i: nat): seq<nat>
    requires i <= |events|
    decreases |events| - i
  {
    if i == |events| then []
    else (if Capable(events[i], val, CAN_CONSUME_FLAG) then [i] else []) + Consumers(events, val, i + 1)
  }
}
