/** What a datagram handler answers, what it reports, and when it gives up. */
module DatagramReplies {
  import opened Bits
  import opened NodeIds
  import opened BusFrames
  import opened DatagramModel
  import opened DatagramTransfer

  /** The answer the protocol asks for: an ack for code 0xFFF0, a nak with the code for any other. */
  function Answer(to: NodeId, code: nat): Event {
    if code == 0xFFF0 then Acked(to) else Naked(to, code)
  }

  /**
   How an answer gets out. A willing bus takes it at once, after the given events. With an unwilling
   bus it is sent by the next update of the permitted handler, and no other answer is; only the
   code 0xFFFF, which marks the empty queue, is never sent.
   */
  ghost predicate IsAnswered(r: (Handler, seq<Event>), before: seq<Event>, to: NodeId, code: nat, accepted: bool) {
    if accepted then r.1 == before + [Answer(to, code)]
    else
      && r.1 == before
      && forall now: nat, lookup: Option<nat> | r.0.permitted && r.0.loc <= |r.0.txData| ::
           var u := Update(r.0, now, lookup);
           if code != 0xFFFF then u == (r.0.(ackReason := 0xFFFF), [Answer(to, code)]) else NoAnswer(u.1)
  }

  predicate NoAnswer(es: seq<Event>) {
    forall i | 0 <= i < |es| :: !es[i].Acked? && !es[i].Naked?
  }

  /** A queued answer is sent once: with nothing queued, update() answers nothing and queues nothing. */
  lemma {:induction false} AnswersGoOutOnce(h: Handler, now: nat, lookup: Option<nat>)
    requires h.ackReason == 0xFFFF && h.loc <= |h.txData|
    ensures var (g, es) := Update(h, now, lookup); NoAnswer(es) && g.ackReason == 0xFFFF
  {
    hide FragmentAt, Expired;
  }

  lemma {:induction false} ReplyIsAnswer(h: Handler, to: NodeId, code: nat, accepted: bool)
    ensures IsAnswered(Reply(h, to, code, accepted), [], to, code, accepted)
    ensures Reply(h, to, code, accepted).0 == if accepted then h else h.(ackDest := to, ackReason := code)
  {
    var r := Reply(h, to, code, accepted);
    if !accepted && code == 0xFFFF {
      forall now: nat, lookup: Option<nat> | r.0.permitted && r.0.loc <= |r.0.txData|
        ensures NoAnswer(Update(r.0, now, lookup).1)
      {
        AnswersGoOutOnce(r.0, now, lookup);
      }
    }
  }

  /** The frame completes a datagram. */
  predicate Completes(h: Handler, p: Part, from: NodeId) {
    (p.Only? && h.rxFree) || (p.Last? && !h.rxFree && from.Matches(h.rxSource))
  }

  /** The frame adds to a datagram or starts one. */
  predicate Continues(h: Handler, p: Part, from: NodeId) {
    (p.First? && h.rxFree) || (p.Middle? && !h.rxFree && from.Matches(h.rxSource))
  }

  /**
   A datagram that has been completed is handed over and its source gets the verdict: an ack exactly
   if that is OK, else a nak that carries it.
   */
  lemma {:induction false} VerdictIsAnswered(h: Handler, a: Arrival, p: Part, dest: nat, data: seq<Byte>)
    requires h.permitted && ForUs(h, dest) && a.frame.content == Datagram(p, dest, data) && Completes(h, p, a.From())
    ensures var source, bytes := if p.Only? then a.From() else h.rxSource, if p.Only? then data else h.rxData + data;
            && Receive(h, a).0.rxFree
            && IsAnswered(Receive(h, a), [Processed(source, bytes)], source, a.verdict, a.accepted)
  {
    hide Reply;
    var source, bytes := if p.Only? then a.From() else h.rxSource, if p.Only? then data else h.rxData + data;
    var f := Filled(h, p, a.From(), data);
    ReplyIsAnswer(f, source, a.verdict, a.accepted);
    ReplyIsAnswer(f.(rxFree := true), source, a.verdict, a.accepted);
    var (r, out) := Reply(f, source, a.verdict, a.accepted);
    assert Receive(h, a) == (r.(rxFree := true), [Processed(source, bytes)] + out);
    assert [Processed(source, bytes)] + [] == [Processed(source, bytes)];
    FreeingIsUnseen(f, source, a.verdict, a.accepted);
  }

  lemma {:induction false} FreeingIsUnseen(f: Handler, to: NodeId, code: nat, accepted: bool)
    ensures Reply(f.(rxFree := true), to, code, accepted)
         == (Reply(f, to, code, accepted).0.(rxFree := true), Reply(f, to, code, accepted).1)
  {
  }

  /**
   A datagram frame for the node that it cannot take is naked to its sender and changes nothing else:
   OUT_OF_ORDER exactly for a closing frame that finds the buffer free, BUFFER_FULL for any other.
   One that goes on with a datagram is not answered.
   */
  lemma {:induction false} RefusalIsAnswered(h: Handler, a: Arrival, p: Part, dest: nat, data: seq<Byte>)
    requires h.permitted && ForUs(h, dest) && a.frame.content == Datagram(p, dest, data) && !Completes(h, p, a.From())
    ensures if Continues(h, p, a.From()) then Receive(h, a).1 == []
            else
              var code := if p in {Last, Only} && h.rxFree then 0x6000 else 0x2000;
              && IsAnswered(Receive(h, a), [], a.From(), code, a.accepted)
              && Receive(h, a).0 == if a.accepted then h else h.(ackDest := a.From(), ackReason := code)
  {
    hide Reply, IsAnswered;
    ReplyIsAnswer(h, a.From(), 0x6000, a.accepted);
    ReplyIsAnswer(h, a.From(), 0x2000, a.accepted);
  }

  /** Acks and naks for the node are reported with their codes; an ack or a final nak frees the transmit buffer. */
  lemma {:induction false} ResultsAreReported(h: Handler, a: Arrival)
    requires h.permitted
    ensures var (g, es), c := Receive(h, a), a.frame.content;
            && (c.DatagramOk? && ForUs(h, c.to) ==> es == [Result(true, 0)] && g == h.(txFree := true))
            && (c.DatagramRejected? && ForUs(h, c.to) ==>
                  && es == [Result(false, c.code)]
                  && g == if And(c.code, 0x2000) != 0 then h.(txFlag := true, loc := 0)
                          else h.(txFlag := false, loc := 0, txFree := true))
  {
    hide And;
  }

  /**
   The handler says it has dealt with a frame exactly if that is a datagram frame, an ack or a nak for
   its permitted node, with the node's own alias as destination (or 0, if its NodeID is all zeros); a
   frame it has not dealt with changes nothing.
   */
  lemma {:induction false} HandledExactly(h: Handler, a: Arrival)
    requires h.self.Some? && h.self.value.alias != 0
    ensures Handles(h, a) <==>
              var c, id := a.frame.content, h.self.value;
              && h.permitted && (c.Datagram? || c.DatagramOk? || c.DatagramRejected?)
              && var to := if c.Datagram? then c.dest else c.to;
                 to == id.alias || (to == 0 && id.nid == ZERO_NID)
    ensures !Handles(h, a) ==> Receive(h, a) == (h, [])
    ensures !h.permitted && h.loc <= |h.txData| ==> forall now: nat, lookup :: Update(h, now, lookup) == (h, [])
  {
    hide ResendAsked;
  }

  // ---------------------------------------------------------------- timeouts

  /**
   A datagram whose last fragment has gone out waits 5000 ms for its reply and no longer. The update that
   sends the fragment is at the given true time; at a later one, less than a turn of the clock away,
   update() gives the datagram up with ACK_TIMEOUT exactly if more than that has passed, and else does
   nothing.
   */
  lemma {:induction false} ReplyIsAwaited(h: Handler, sent: nat, time: nat, first: Option<nat>, lookup: Option<nat>)
    requires Sending(h) && h.ackReason == 0xFFFF && h.txFlag && !h.txFree && h.loc < |h.txData| <= h.loc + 8
    requires sent <= time < sent + 0x1_0000_0000
    ensures var (g, es) := Update(h, sent % 0x1_0000_0000, first);
            && |FramesIn(es)| == 1 && !g.txFlag && !g.txFree
            && Update(g, time % 0x1_0000_0000, lookup)
               == if time > sent + 5000 then (g.(txFree := true), [Result(false, 0x1002)]) else (g, [])
  {
    FragmentGoesOut(h, sent % 0x1_0000_0000, first);
    ClockDifference(sent, time);
  }

  lemma {:induction false} ClockDifference(from: nat, to: nat)
    requires from <= to < from + 0x1_0000_0000
    ensures (to % 0x1_0000_0000 - from % 0x1_0000_0000) % 0x1_0000_0000 == to - from
  {
    var d, r := to - from, from % 0x1_0000_0000;
    var q := from / 0x1_0000_0000;
    if r + d < 0x1_0000_0000 {
      assert to == q * 0x1_0000_0000 + (r + d);
      assert to % 0x1_0000_0000 == r + d;
    } else {
      assert to == (q + 1) * 0x1_0000_0000 + (r + d - 0x1_0000_0000);
      assert to % 0x1_0000_0000 == r + d - 0x1_0000_0000;
    }
  }

  /**
   A datagram whose destination stays unknown is asked about for 5000 ms from the true time it was
   submitted and then given up with ABORTED; it stays in the buffer until then.
   */
  lemma {:induction false} UnknownIsAwaited(h: Handler, dest: NodeId, data: seq<Byte>, sent: nat, time: nat)
    requires h.permitted && h.self.Some? && h.ackReason == 0xFFFF && h.txFree && dest.alias == 0 && data != []
    requires sent <= time < sent + 0x1_0000_0000
    ensures var s := Submit(h, dest, data, sent % 0x1_0000_0000);
            && !s.txFree
            && Update(s, time % 0x1_0000_0000, None)
               == if time > sent + 5000 then (s.(txFree := true, txFlag := false), [Asked(dest.nid), Result(false, 0x1001)])
                  else (s, [Asked(dest.nid)])
  {
    ClockDifference(sent, time);
    assert [Asked(dest.nid)] + [Result(false, 0x1001)] == [Asked(dest.nid), Result(false, 0x1001)];
  }

  // ---------------------------------------------------------------- from sendDatagram on

  /** While the transmit buffer is occupied a datagram is refused, and nothing changes. */
  lemma {:induction false} OccupiedRefuses(h: Handler, dest: NodeId, data: seq<Byte>, time: nat)
    requires h.self.Some?
    ensures Submit(h, dest, data, time) == h <==> !h.txFree
  {
  }

  /** What goes out for a datagram in so many updates after sendDatagram. */
  function FramesSent(h: Handler, dest: NodeId, data: seq<Byte>, time: nat, ms: seq<Moment>): seq<Frame>
    requires h.permitted && h.self.Some? && h.txFree && dest.alias != 0
  {
    FramesIn(Updates(Submit(h, dest, data, time), ms).1)
  }

  /**
   A datagram given to a handler whose buffer is free goes out in exactly its own fragments, from the
   handler's own alias to the alias of the destination it was given with, in the course of enough
   updates; and a permitted receiver of that alias with a free buffer, whatever reaches it in between
   from other non-zero aliases, gets its bytes, once, from the sender's alias.
   */
  lemma {:induction false} SentDatagramArrives(
    h: Handler, dest: NodeId, data: seq<Byte>, time: nat, ms: seq<Moment>, r: Handler, d: seq<Arrival>)
    requires h.permitted && h.self.Some? && h.txFree && h.self.value.alias != 0 && dest.alias != 0
    requires |ms| >= |Fragments(data)| + (if h.ackReason == NOTHING_QUEUED then 0 else 1)
    requires r.permitted && r.rxFree && r.self.Some? && r.self.value.alias == dest.alias
    requires NoZeroAlias(d) && EndsWith(d, h.self.value.alias) && d[0].frame.source == h.self.value.alias
    requires FramesFrom(d, h.self.value.alias) == FramesSent(h, dest, data, time, ms)
    ensures FramesSent(h, dest, data, time, ms) == Addressed(Fragments(data), h.self.value.alias, dest.alias)
    ensures var (g, es) := Receives(r, d);
            g.rxFree && |Calls(es)| == 1 && Calls(es)[0].0.alias == h.self.value.alias && Calls(es)[0].1 == data
  {
    var s := Submit(h, dest, data, time);
    var (t, out) := Updates(s, ms);
    UpdatesSendFragments(s, ms);
    assert ToSend(t) == [];
    DatagramIsAssembled(r, d, h.self.value.alias, dest.alias, data);
  }

  /** And to a destination without alias it goes out in the same way to the alias the cache has for it. */
  lemma {:induction false} SentDatagramFindsAlias(
    h: Handler, dest: NodeId, data: seq<Byte>, time: nat, alias: nat, first: nat, ms: seq<Moment>)
    requires h.permitted && h.self.Some? && h.txFree && dest.alias == 0 && alias != 0 && h.ackReason == NOTHING_QUEUED
    requires |ms| + 1 >= |Fragments(data)|
    ensures var (g, es) := Update(Submit(h, dest, data, time), first, Some(alias));
            && Sending(g) && g.txDest == NodeId(dest.nid, alias)
            && FramesIn(es) + FramesIn(Updates(g, ms).1) == Addressed(Fragments(data), h.self.value.alias, alias)
  {
    var s := Submit(h, dest, data, time);
    var known := s.(txDest := NodeId(dest.nid, alias));
    var (g, es) := Update(s, first, Some(alias));
    assert Update(known, first, Some(alias)) == (g, es);
    UpdateSendsNext(known, first, Some(alias));
    UpdatesSendFragments(g, ms);
    assert ToSend(Updates(g, ms).0) == [];
  }
}
