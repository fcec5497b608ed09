/** The event handler as the library has it: an array of events whose flags change in place. */
module EventHandler {
  import opened Bits
  import opened EventModel

  class Handler {
    const events: array<Event>
    var sendEvent: nat

    ghost predicate Valid()
      reads this
    {
      sendEvent <= events.Length <= 0x7FFF
    }

    function View(): Table
      reads this, events
    {
      Table(events[..], sendEvent)
    }

    /** A handler is a static object: its cursor starts at 0. */
    constructor (events: array<Event>)
      requires events.Length <= 0x7FFF
      ensures Valid() && this.events == events && sendEvent == 0
    {
      this.events := events;
      sendEvent := 0;
    }

    /** Flags are cleared; the cursor is left where it is. */
    method LoadEvents()
      requires Valid()
      modifies events
      ensures Valid() && sendEvent == old(sendEvent)
      ensures forall i | 0 <= i < events.Length :: events[i] == old(events[i]).(flags := 0)
    {
      var i := 0;
      while i < events.Length
        invariant i <= events.Length
        invariant forall j | 0 <= j < i :: events[j] == old(events[j]).(flags := 0)
        invariant forall j | i <= j < events.Length :: events[j] == old(events[j])
      {
        events[i] := events[i].(flags := 0);
        i := i + 1;
      }
    }

    method SetFlags(i: nat, flags: bv8)
      requires Valid() && i < events.Length
      modifies events
      ensures events[..] == old(events[..])[i := old(events[i]).(flags := flags)]
    {
      events[i] := events[i].(flags := flags);
    }

    /** Teaching messages lose their mark whether or not they were sent. */
    method Update(permitted: bool, accepted: bool) returns (sent: seq<Message>)
      requires Valid()
      modifies this`sendEvent, events
      ensures Valid()
      ensures (View(), sent) == if permitted then EventModel.Update(old(View()), accepted) else (old(View()), [])
    {
      sent := [];
      if !permitted {
        return;
      }
      while sendEvent < events.Length
        invariant Valid() && events[..] == old(events[..]) && sent == []
        invariant old(sendEvent) <= sendEvent
        invariant forall j | old(sendEvent) <= j < sendEvent :: NextKind(events[j].flags) == []
        decreases events.Length - sendEvent
      {
        var i := sendEvent;
        var f := events[i].flags;
        if f & (IDENT_FLAG | CAN_PRODUCE_FLAG) == IDENT_FLAG | CAN_PRODUCE_FLAG {
          if accepted {
            sent := [Message(i, ProducerIdentified)];
            SetFlags(i, f & !IDENT_FLAG);
          }
          break;
        } else if f & (IDENT_FLAG | CAN_CONSUME_FLAG) == IDENT_FLAG | CAN_CONSUME_FLAG {
          if accepted {
            sent := [Message(i, ConsumerIdentified)];
            SetFlags(i, f & !IDENT_FLAG);
          }
          break;
        } else if f & PRODUCE_FLAG != 0 {
          if accepted {
            sent := [Message(i, Report)];
            SetFlags(i, f & !PRODUCE_FLAG);
          }
          break;
        } else if f & TEACH_FLAG != 0 {
          if accepted {
            sent := [Message(i, Teaching)];
          }
          SetFlags(i, f & !TEACH_FLAG);
          break;
        } else {
          sendEvent := sendEvent + 1;
        }
      }
      assert sendEvent == Advance(old(events[..]), old(sendEvent));
    }

    method Produce(index: nat) returns (can: bool)
      requires Valid() && index < events.Length
      modifies this`sendEvent, events
      ensures Valid() && View() == EventModel.Produce(old(View()), index)
      ensures can == Any(old(events[index].flags), CAN_PRODUCE_FLAG)
    {
      can := false;
      if events[index].flags & CAN_PRODUCE_FLAG != 0 {
        can := true;
        SetFlags(index, events[index].flags | PRODUCE_FLAG);
        sendEvent := Min(sendEvent, index);
      }
    }

    method HandleIdentifyEvents()
      requires Valid()
      modifies this`sendEvent, events
      ensures Valid() && View() == IdentifyAll(old(View()))
    {
      var i := 0;
      while i < events.Length
        invariant i <= events.Length && sendEvent == old(sendEvent)
        invariant forall j | 0 <= j < i :: events[j] == old(events[j]).(flags := old(events[j]).flags | IDENT_FLAG)
        invariant forall j | i <= j < events.Length :: events[j] == old(events[j])
      {
        SetFlags(i, events[i].flags | IDENT_FLAG);
        i := i + 1;
      }
      sendEvent := 0;
    }

    /** findIndexInArray: the next event with this ID from index on, or -1. */
    method FindIndex(val: seq<Byte>, index: nat) returns (r: int)
      requires Valid()
      ensures r == -1 || (index <= r < events.Length && events[r].val == val)
      ensures forall j | index <= j < (if r == -1 then events.Length else r) :: events[j].val != val
    {
      var i := index;
      while i < events.Length
        invariant index <= i
        invariant forall j | index <= j < i && j < events.Length :: events[j].val != val
      {
        if events[i].val == val {
          return i;
        }
        i := i + 1;
      }
      return -1;
    }

    method Mark(index: nat)
      requires Valid() && index < events.Length
      modifies this`sendEvent, events
      ensures Valid() && sendEvent == Min(old(sendEvent), index)
      ensures events[..] == old(events[..][index := events[index].(flags := Identified(events[index].flags))])
    {
      SetFlags(index, events[index].flags | IDENT_FLAG);
      sendEvent := Min(sendEvent, index);
    }

    /** handleIdentifyProducers and handleIdentifyConsumers differ in the capability they ask for. */
    method HandleIdentify(val: seq<Byte>, capability: bv8) returns (marked: bool)
      requires Valid()
      modifies this`sendEvent, events
      ensures Valid() && View() == Identify(old(View()), val, capability)
      ensures marked <==> exists i :: 0 <= i < events.Length && Capable(old(events[..])[i], val, capability)
    {
      hide Any, Identified, Capable, MarkedEvent, Identify, MarkedUpTo;
      marked := false;
      ghost var before := events[..];
      ghost var first := FirstCapable(before, val, capability, 0);
      NothingMarked(before, val, capability);
      var index: int := 0;
      while true
        invariant 0 <= index <= events.Length && Valid()
        invariant MarkedUpTo(before, events[..], index, val, capability)
        invariant marked <==> first < index
        invariant sendEvent == if marked then Min(old(sendEvent), first) else old(sendEvent)
        decreases events.Length - index
      {
        var found := FindIndex(val, index);
        SkipUnmarked(before, events[..], index, if found == -1 then events.Length else found, val, capability);
        if found == -1 {
          index := events.Length;
          break;
        }
        index := found;
        MarkNext(before, events[..], index, val, capability);
        if Any(events[index].flags, capability) {
          marked := true;
          Mark(index);
        }
        index := index + 1;
        if index >= events.Length {
          break;
        }
      }
      IdentifyIs(Table(before, old(sendEvent)), events[..], val, capability);
    }

    /** handlePCEventReport: every consumer of the event is asked, in order. */
    method HandleReport(val: seq<Byte>, takes: nat -> bool) returns (consumed: bool, asked: seq<nat>)
      requires Valid()
      ensures asked == Consumers(events[..], val, 0)
      ensures consumed <==> exists k :: k in asked && takes(k)
    {
      hide Any, Capable, Consumers;
      consumed, asked := false, [];
      ghost var all := events[..];
      var index: int := 0;
      while true
        invariant 0 <= index <= events.Length
        invariant asked + Consumers(all, val, index) == Consumers(all, val, 0)
        invariant consumed <==> exists k :: k in asked && takes(k)
        decreases events.Length - index
      {
        var found := FindIndex(val, index);
        SkipOthers(all, val, index, if found == -1 then events.Length else found);
        if found == -1 {
          break;
        }
        index := found;
        NextConsumer(all, val, index);
        assert asked + ([index] + Consumers(all, val, index + 1)) == asked + [index] + Consumers(all, val, index + 1);
        if Any(events[index].flags, CAN_CONSUME_FLAG) {
          if takes(index) {
            consumed := true;
          }
          asked := asked + [index];
        }
        index := index + 1;
        if index >= events.Length {
          SkipOthers(all, val, index, index);
          break;
        }
      }
    }

    /** One waiting event takes the ID. */
    method LearnAt(i: nat, val: seq<Byte>)
      requires Valid() && i < events.Length && Any(events[i].flags, LEARN_FLAG)
      modifies events
      ensures events[..] == old(events[..])[i := LearnedEvent(old(events[i]), val)]
    {
      events[i] := events[i].(val := val);
      events[i] := events[i].(flags := events[i].flags | IDENT_FLAG);
      events[i] := events[i].(flags := events[i].flags & !LEARN_FLAG);
    }

    method HandleLearnEvent(val: seq<Byte>) returns (save: bool)
      requires Valid()
      modifies this`sendEvent, events
      ensures Valid() && View() == Learn(old(View()), val)
      ensures save <==> exists i :: 0 <= i < events.Length && Any(old(events[i]).flags, LEARN_FLAG)
    {
      hide Any, LearnedEvent;
      save := false;
      var i := 0;
      while i < events.Length
        invariant i <= events.Length && Valid()
        invariant forall j | 0 <= j < i :: events[j] == LearnedEvent(old(events[j]), val)
        invariant forall j | i <= j < events.Length :: events[j] == old(events[j])
        invariant save <==> exists j :: 0 <= j < i && Any(old(events[j]).flags, LEARN_FLAG)
        invariant save ==> FirstLearner(old(events[..]), 0) < i
        invariant sendEvent == if save then Min(old(sendEvent), FirstLearner(old(events[..]), 0)) else old(sendEvent)
      {
        LearnedIs(events[i], val);
        if Any(events[i].flags, LEARN_FLAG) {
          assert Any(old(events[..])[i].flags, LEARN_FLAG);
          assert !save ==> FirstLearner(old(events[..]), 0) == i;
          LearnAt(i, val);
          sendEvent := Min(sendEvent, i);
          save := true;
        }
        i := i + 1;
      }
    }

    method NewEvent(index: nat, p: bool, c: bool)
      requires Valid() && index < events.Length
      modifies this`sendEvent, events
      ensures Valid() && View() == EventModel.NewEvent(old(View()), index, p, c)
    {
      var flags := events[index].flags | IDENT_FLAG;
      sendEvent := Min(sendEvent, index);
      if p {
        flags := flags | CAN_PRODUCE_FLAG;
      }
      if c {
        flags := flags | CAN_CONSUME_FLAG;
      }
      SetFlags(index, flags);
    }

    method MarkToLearn(index: nat, mark: bool)
      requires Valid() && index < events.Length
      modifies events
      ensures Valid() && View() == EventModel.MarkToLearn(old(View()), index, mark)
    {
      if mark {
        SetFlags(index, events[index].flags | LEARN_FLAG);
      } else {
        SetFlags(index, events[index].flags & !LEARN_FLAG);
      }
    }

    method MarkToTeach(index: nat, mark: bool)
      requires Valid() && index < events.Length
      modifies this`sendEvent, events
      ensures Valid() && View() == EventModel.MarkToTeach(old(View()), index, mark)
    {
      if mark {
        SetFlags(index, events[index].flags | TEACH_FLAG);
      } else {
        SetFlags(index, events[index].flags & !TEACH_FLAG);
      }
      sendEvent := Min(sendEvent, index);
    }
  }

  lemma {:induction false} SkipOthers(events: seq<Event>, val: seq<Byte>, i: nat, j: nat)
    requires i <= j <= |events| && forall k | i <= k < j :: events[k].val != val
    ensures Consumers(events, val, i) == Consumers(events, val, j)
    ensures Consumers(events, val, |events|) == []
    decreases j - i
  {
    if i < j {
      SkipOthers(events, val, i + 1, j);
    }
  }

  lemma {:induction false} LearnedIs(e: Event, val: seq<Byte>)
    ensures !Any(e.flags, LEARN_FLAG) ==> LearnedEvent(e, val) == e
  {
  }

  lemma {:induction false} NextConsumer(events: seq<Event>, val: seq<Byte>, i: nat)
    requires i < |events| && events[i].val == val
    ensures Consumers(events, val, i)
         == (if Any(events[i].flags, CAN_CONSUME_FLAG) then [i] else []) + Consumers(events, val, i + 1)
  {
  }

  /** The table when the search has got to index i. */
  predicate MarkedUpTo(before: seq<Event>, now: seq<Event>, i: nat, val: seq<Byte>, capability: bv8) {
    |now| == |before| &&
    (forall j | 0 <= j < |now| && j < i :: now[j] == MarkedEvent(before[j], val, capability)) &&
    (forall j | i <= j < |now| :: now[j] == before[j])
  }

  lemma {:induction false} NothingMarked(before: seq<Event>, val: seq<Byte>, capability: bv8)
    ensures MarkedUpTo(before, before, 0, val, capability)
  {
  }

  lemma {:induction false} SkipUnmarked(before: seq<Event>, now: seq<Event>, i: nat, j: nat, val: seq<Byte>, capability: bv8)
    requires MarkedUpTo(before, now, i, val, capability) && i <= j <= |now|
    requires forall k | i <= k < j :: now[k].val != val
    ensures |now| == |before| && MarkedUpTo(before, now, j, val, capability)
    ensures forall k | i <= k < j :: !Capable(before[k], val, capability)
  {
  }

  lemma {:induction false} MarkNext(before: seq<Event>, now: seq<Event>, i: nat, val: seq<Byte>, capability: bv8)
    requires MarkedUpTo(before, now, i, val, capability) && i < |now| && now[i].val == val
    ensures |now| == |before| && (Capable(before[i], val, capability) <==> Any(now[i].flags, capability))
    ensures MarkedUpTo(before, if Any(now[i].flags, capability) then now[i := now[i].(flags := Identified(now[i].flags))] else now,
                       i + 1, val, capability)
  {
  }

  lemma {:induction false} IdentifyIs(t: Table, after: seq<Event>, val: seq<Byte>, capability: bv8)
    requires MarkedUpTo(t.events, after, |after|, val, capability)
    ensures after == Identify(t, val, capability).events
    ensures var k := FirstCapable(t.events, val, capability, 0);
            Identify(t, val, capability).sendEvent == if k < |after| then Min(t.sendEvent, k) else t.sendEvent
  {
  }
}
