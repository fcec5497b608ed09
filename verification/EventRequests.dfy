/** What every operation does to every event, told by what its flag bits stand for. */
module EventRequests {
  import opened Bits
  import opened EventModel
  import opened EventQueue

  /** The meaning of the flag byte. */
  datatype Marks = Marks(ident: bool, produce: bool, learn: bool, teach: bool, canConsume: bool, canProduce: bool)

  function MarksOf(flags: bv8): Marks {
    Marks(flags & 0x01 != 0, flags & 0x02 != 0, flags & 0x08 != 0, flags & 0x10 != 0, flags & 0x20 != 0, flags & 0x40 != 0)
  }

  /** The bits that have no meaning here. */
  function Rest(flags: bv8): bv8 {
    flags & 0x84
  }

  // ---------------------------------------------------------------- what is pending

  /** An event with these marks asks for a message of this kind. */
  predicate AsksFor(m: Marks, k: Kind) {
    match k
    case ProducerIdentified => m.ident && m.canProduce
    case ConsumerIdentified => m.ident && m.canConsume && !m.canProduce
    case Report => m.produce
    case Teaching => m.teach
  }

  lemma {:induction false} WantedExactly(flags: bv8, k: Kind)
    ensures k in Wanted(flags) <==> AsksFor(MarksOf(flags), k)
  {
  }

  /** A message is on the queue exactly if the marks of its event ask for it. */
  lemma {:induction false} PendingExactly(events: seq<Event>, m: Message)
    ensures m in Pending(events, 0) <==> m.index < |events| && AsksFor(MarksOf(events[m.index].flags), m.kind)
  {
    hide AsksFor, MarksOf, Wanted;
    PendingIsWanted(events, 0, m);
    if m.index < |events| {
      WantedExactly(events[m.index].flags, m.kind);
    }
  }

  // ---------------------------------------------------------------- what changes

  /** The event whose message update() takes off the queue, and its kind. */
  predicate TakesOff(t: Table, c: Call, i: nat, k: Kind) {
    c.Tick? && Pending(t.events, 0) != [] && Pending(t.events, 0)[0] == Message(i, k) && (c.accepted || k.Teaching?)
  }

  function MarksAfter(t: Table, c: Call, i: nat): Marks
    requires i < |t.events|
  {
    var e := t.events[i];
    var m := MarksOf(e.flags);
    Marks(
      if TakesOff(t, c, i, ProducerIdentified) || TakesOff(t, c, i, ConsumerIdentified) then false
      else || m.ident
           || c.IdentifyEvents?
           || (c.IdentifyProducers? && e.val == c.val && m.canProduce)
           || (c.IdentifyConsumers? && e.val == c.val && m.canConsume)
           || (c.LearnEvent? && m.learn)
           || (c.New? && c.index == i),
      if TakesOff(t, c, i, Report) then false else m.produce || (c == Produced(i) && m.canProduce),
      if c.ToLearn? && c.index == i then c.mark else m.learn && !c.LearnEvent?,
      if c.ToTeach? && c.index == i then c.mark else m.teach && !TakesOff(t, c, i, Teaching),
      m.canConsume || (c.New? && c.index == i && c.c),
      m.canProduce || (c.New? && c.index == i && c.p))
  }

  // ---------------------------------------------------------------- bits and marks

  lemma {:induction false} MarksAreFlags(f: bv8)
    ensures Any(f, LEARN_FLAG) == MarksOf(f).learn
    ensures Any(f, CAN_CONSUME_FLAG) == MarksOf(f).canConsume && Any(f, CAN_PRODUCE_FLAG) == MarksOf(f).canProduce
  {
  }

  lemma {:induction false} IdentifiedIs(f: bv8)
    ensures MarksOf(Identified(f)) == MarksOf(f).(ident := true) && Rest(Identified(f)) == Rest(f)
  {
  }

  lemma {:induction false} ReportingIs(f: bv8)
    ensures MarksOf(Reporting(f)) == MarksOf(f).(produce := true) && Rest(Reporting(f)) == Rest(f)
  {
  }

  lemma {:induction false} ToBeLearnedIs(f: bv8, mark: bool)
    ensures MarksOf(ToBeLearned(f, mark)) == MarksOf(f).(learn := mark) && Rest(ToBeLearned(f, mark)) == Rest(f)
  {
  }

  lemma {:induction false} ToBeTaughtIs(f: bv8, mark: bool)
    ensures MarksOf(ToBeTaught(f, mark)) == MarksOf(f).(teach := mark) && Rest(ToBeTaught(f, mark)) == Rest(f)
  {
  }

  lemma {:induction false} EnabledIs(f: bv8, p: bool, c: bool)
    ensures MarksOf(Enabled(f, p, c))
         == MarksOf(f).(ident := true, canProduce := p || MarksOf(f).canProduce, canConsume := c || MarksOf(f).canConsume)
    ensures Rest(Enabled(f, p, c)) == Rest(f)
  {
  }

  predicate ChangesExactly(t: Table, c: Call, i: nat, e': Event)
    requires i < |t.events|
  {
    var e := t.events[i];
    && e'.val == (if c.LearnEvent? && MarksOf(e.flags).learn then c.val else e.val)
    && MarksOf(e'.flags) == MarksAfter(t, c, i) && Rest(e'.flags) == Rest(e.flags)
  }

  lemma {:induction false} NothingLeaves(t: Table, c: Call, i: nat)
    requires !c.Tick?
    ensures !TakesOff(t, c, i, ProducerIdentified) && !TakesOff(t, c, i, ConsumerIdentified)
    ensures !TakesOff(t, c, i, Report) && !TakesOff(t, c, i, Teaching)
  {
  }

  lemma {:induction false} IdentifyEventsChanges(t: Table, i: nat)
    requires i < |t.events| && t.sendEvent <= |t.events|
    ensures |IdentifyAll(t).events| == |t.events|
    ensures ChangesExactly(t, IdentifyEvents, i, IdentifyAll(t).events[i])
  {
    hide Pending, NextKind, MarksOf, Rest, Any, TakesOff, FirstCapable, FirstLearner;
    hide Identified, Reporting, ToBeLearned, ToBeTaught, Enabled;
    NothingLeaves(t, IdentifyEvents, i);
    IdentifiedIs(t.events[i].flags);
  }

  lemma {:induction false} ProducersChanges(t: Table, val: seq<Byte>, i: nat)
    requires i < |t.events|
    ensures |Identify(t, val, CAN_PRODUCE_FLAG).events| == |t.events|
    ensures ChangesExactly(t, IdentifyProducers(val), i, Identify(t, val, CAN_PRODUCE_FLAG).events[i])
  {
    hide Pending, NextKind, MarksOf, Rest, Any, TakesOff, FirstCapable, FirstLearner;
    hide Identified, Reporting, ToBeLearned, ToBeTaught, Enabled;
    NothingLeaves(t, IdentifyProducers(val), i);
    MarksAreFlags(t.events[i].flags);
    IdentifiedIs(t.events[i].flags);
  }

  lemma {:induction false} ConsumersChanges(t: Table, val: seq<Byte>, i: nat)
    requires i < |t.events|
    ensures |Identify(t, val, CAN_CONSUME_FLAG).events| == |t.events|
    ensures ChangesExactly(t, IdentifyConsumers(val), i, Identify(t, val, CAN_CONSUME_FLAG).events[i])
  {
    hide Pending, NextKind, MarksOf, Rest, Any, TakesOff, FirstCapable, FirstLearner;
    hide Identified, Reporting, ToBeLearned, ToBeTaught, Enabled;
    NothingLeaves(t, IdentifyConsumers(val), i);
    MarksAreFlags(t.events[i].flags);
    IdentifiedIs(t.events[i].flags);
  }

  lemma {:induction false} LearnChanges(t: Table, val: seq<Byte>, i: nat)
    requires i < |t.events|
    ensures |Learn(t, val).events| == |t.events|
    ensures ChangesExactly(t, LearnEvent(val), i, Learn(t, val).events[i])
  {
    hide Pending, NextKind, MarksOf, Rest, Any, TakesOff, FirstCapable, FirstLearner;
    hide Identified, Reporting, ToBeLearned, ToBeTaught, Enabled;
    NothingLeaves(t, LearnEvent(val), i);
    MarksAreFlags(t.events[i].flags);
    IdentifiedIs(t.events[i].flags);
    ToBeLearnedIs(Identified(t.events[i].flags), false);
  }

  lemma {:induction false} ProduceChanges(t: Table, j: nat, i: nat)
    requires i < |t.events| && j < |t.events|
    ensures |Produce(t, j).events| == |t.events|
    ensures ChangesExactly(t, Produced(j), i, Produce(t, j).events[i])
  {
    hide Pending, NextKind, MarksOf, Rest, Any, TakesOff, FirstCapable, FirstLearner;
    hide Identified, Reporting, ToBeLearned, ToBeTaught, Enabled;
    NothingLeaves(t, Produced(j), i);
    MarksAreFlags(t.events[i].flags);
    ReportingIs(t.events[i].flags);
  }

  lemma {:induction false} NewChanges(t: Table, j: nat, p: bool, c: bool, i: nat)
    requires i < |t.events| && j < |t.events|
    ensures |NewEvent(t, j, p, c).events| == |t.events|
    ensures ChangesExactly(t, New(j, p, c), i, NewEvent(t, j, p, c).events[i])
  {
    hide Pending, NextKind, MarksOf, Rest, Any, TakesOff, FirstCapable, FirstLearner;
    hide Identified, Reporting, ToBeLearned, ToBeTaught, Enabled;
    NothingLeaves(t, New(j, p, c), i);
    EnabledIs(t.events[i].flags, p, c);
  }

  lemma {:induction false} ToLearnChanges(t: Table, j: nat, mark: bool, i: nat)
    requires i < |t.events| && j < |t.events|
    ensures |MarkToLearn(t, j, mark).events| == |t.events|
    ensures ChangesExactly(t, ToLearn(j, mark), i, MarkToLearn(t, j, mark).events[i])
  {
    hide Pending, NextKind, MarksOf, Rest, Any, TakesOff, FirstCapable, FirstLearner;
    hide Identified, Reporting, ToBeLearned, ToBeTaught, Enabled;
    NothingLeaves(t, ToLearn(j, mark), i);
    ToBeLearnedIs(t.events[i].flags, mark);
  }

  lemma {:induction false} ToTeachChanges(t: Table, j: nat, mark: bool, i: nat)
    requires i < |t.events| && j < |t.events|
    ensures |MarkToTeach(t, j, mark).events| == |t.events|
    ensures ChangesExactly(t, ToTeach(j, mark), i, MarkToTeach(t, j, mark).events[i])
  {
    hide Pending, NextKind, MarksOf, Rest, Any, TakesOff, FirstCapable, FirstLearner;
    hide Identified, Reporting, ToBeLearned, ToBeTaught, Enabled;
    NothingLeaves(t, ToTeach(j, mark), i);
    ToBeTaughtIs(t.events[i].flags, mark);
  }

  /**
   The exact effect of every operation on every event. The ID changes only for an event that waits to
   learn; what it can do only when it is made a producer or consumer; a mark is set by its own request
   and cleared only when its message leaves the queue; the bits that mean nothing here stay.
   */
  lemma {:induction false} StepChangesExactly(t: Table, c: Call, i: nat)
    requires NoneStranded(t) && InRange(t, c) && i < |t.events|
    ensures |Step(t, c).events| == |t.events|
    ensures ChangesExactly(t, c, i, Step(t, c).events[i])
  {
    hide ChangesExactly, Produce, IdentifyAll, Identify, Learn, NewEvent, MarkToLearn, MarkToTeach, Update, Wanted;
    match c
    case Tick(accepted) => UpdateChangesExactly(t, accepted, i);
    case Produced(j) => ProduceChanges(t, j, i);
    case IdentifyEvents => IdentifyEventsChanges(t, i);
    case IdentifyProducers(val) => ProducersChanges(t, val, i);
    case IdentifyConsumers(val) => ConsumersChanges(t, val, i);
    case LearnEvent(val) => LearnChanges(t, val, i);
    case New(j, p, q) => NewChanges(t, j, p, q, i);
    case ToLearn(j, mark) => ToLearnChanges(t, j, mark, i);
    case ToTeach(j, mark) => ToTeachChanges(t, j, mark, i);
  }

  /** What leaves the queue in update() is what the cursor finds. */
  lemma {:induction false} HeadLeaves(t: Table, accepted: bool, i: nat, kind: Kind)
    requires NoneStranded(t)
    ensures var k := Advance(t.events, t.sendEvent);
            TakesOff(t, Tick(accepted), i, kind)
            <==> k < |t.events| && i == k && kind == NextKind(t.events[k].flags)[0] && (accepted || kind.Teaching?)
  {
    hide Pending, NextKind, Wanted;
    CursorFindsHead(t);
  }

  lemma {:induction false} UpdateChangesExactly(t: Table, accepted: bool, i: nat)
    requires NoneStranded(t) && i < |t.events|
    ensures |Update(t, accepted).0.events| == |t.events|
    ensures ChangesExactly(t, Tick(accepted), i, Update(t, accepted).0.events[i])
  {
    hide Pending, NextKind, Cleared, Wanted, MarksOf, Rest, TakesOff;
    HeadLeaves(t, accepted, i, ProducerIdentified);
    HeadLeaves(t, accepted, i, ConsumerIdentified);
    HeadLeaves(t, accepted, i, Report);
    HeadLeaves(t, accepted, i, Teaching);
    var k := Advance(t.events, t.sendEvent);
    if k < |t.events| {
      ClearedExactly(t.events[k].flags);
    }
  }

  lemma {:induction false} ClearedExactly(flags: bv8)
    requires NextKind(flags) != []
    ensures var k, m := NextKind(flags)[0], MarksOf(flags);
            && MarksOf(Cleared(flags, k)) == (match k
                                              case Report => m.(produce := false)
                                              case Teaching => m.(teach := false)
                                              case _ => m.(ident := false))
            && Rest(Cleared(flags, k)) == Rest(flags)
  {
  }

  // ---------------------------------------------------------------- learning

  /** The calls from k on neither stop event i from waiting to learn nor end its wait. */
  predicate GoesOnWaiting(cs: seq<Call>, k: nat, m: nat, i: nat) {
    k <= m <= |cs| && forall j | k <= j < m :: cs[j] != ToLearn(i, false) && !cs[j].LearnEvent?
  }

  lemma {:induction false} WaitsToLearn(t: Table, cs: seq<Call>, k: nat, m: nat, i: nat)
    requires NoneStranded(t) && (forall j | 0 <= j < |cs| :: InRange(t, cs[j])) && i < |t.events|
    requires k < m <= |cs| && cs[k] == ToLearn(i, true) && GoesOnWaiting(cs, k + 1, m, i)
    ensures MarksOf(Steps(t, cs, m).events[i].flags).learn
  {
    hide Step, NoneStranded, MarksOf;
    if m > k + 1 {
      WaitsToLearn(t, cs, k, m - 1, i);
    }
    var u := Steps(t, cs, m - 1);
    SameRange(t, u, cs[m - 1]);
    StepChangesExactly(u, cs[m - 1], i);
  }

  lemma {:induction false} SameRange(t: Table, u: Table, c: Call)
    requires InRange(t, c) && |t.events| == |u.events|
    ensures InRange(u, c)
  {
  }

  /**
   Learning, over runs: an event that was told to wait, whatever happened since, takes the ID of the
   next Learn Event and waits no more; if it can do anything its identification is queued; and if it
   can consume, a report of that ID reaches it.
   */
  lemma {:induction false} LearningTakesId(t: Table, cs: seq<Call>, k: nat, m: nat, i: nat, val: seq<Byte>)
    requires NoneStranded(t) && (forall j | 0 <= j < |cs| :: InRange(t, cs[j])) && i < |t.events|
    requires k < m < |cs| && cs[k] == ToLearn(i, true) && GoesOnWaiting(cs, k + 1, m, i) && cs[m] == LearnEvent(val)
    ensures var u := Steps(t, cs, m + 1);
            var e, marks := u.events[i], MarksOf(u.events[i].flags);
            && e.val == val && !marks.learn
            && (marks.canProduce ==> Message(i, ProducerIdentified) in Pending(u.events, 0))
            && (marks.canConsume && !marks.canProduce ==> Message(i, ConsumerIdentified) in Pending(u.events, 0))
            && (marks.canConsume ==> i in Consumers(u.events, val, 0))
  {
    hide Step, Pending, Consumers;
    WaitsToLearn(t, cs, k, m, i);
    var v := Steps(t, cs, m);
    SameRange(t, v, cs[m]);
    StepChangesExactly(v, cs[m], i);
    var u := Steps(t, cs, m + 1);
    assert u == Step(v, cs[m]);
    PendingExactly(u.events, Message(i, ProducerIdentified));
    PendingExactly(u.events, Message(i, ConsumerIdentified));
    ConsumersExactly(u.events, val, 0, i);
  }

  /** An event that does not wait is not touched by a Learn Event. */
  lemma {:induction false} OthersDoNotLearn(t: Table, val: seq<Byte>, i: nat)
    requires i < |t.events| && !MarksOf(t.events[i].flags).learn
    ensures |Learn(t, val).events| == |t.events| && Learn(t, val).events[i] == t.events[i]
  {
  }
}
