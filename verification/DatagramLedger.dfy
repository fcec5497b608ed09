/** Every accepted datagram comes to exactly one end. */
module DatagramLedger {
  import opened Bits
  import opened NodeIds
  import opened BusFrames
  import opened DatagramModel

  datatype Call =
    | Send(dest: NodeId, data: seq<Byte>, time: nat)
    | Handle(arrival: Arrival)
    | Tick(time: nat, lookup: Option<nat>)
    | Kill(id: NodeId)

  /** The transmit side between two calls. */
  predicate Orderly(h: Handler) {
    && h.self.Some?
    && (h.txFlag ==> !h.txFree)
    && h.loc <= |h.txData| <= DATAGRAM_LENGTH
    && (h.txFlag && h.loc > 0 ==> h.loc < |h.txData|)
  }

  /** What the code demands of its callers: a datagram fits its buffer. */
  predicate Callable(h: Handler, c: Call) {
    h.self.Some? && h.loc <= |h.txData| && (c.Send? ==> |c.data| <= DATAGRAM_LENGTH)
  }

  function Step(h: Handler, c: Call): (Handler, seq<Event>)
    requires Callable(h, c)
  {
    match c
    case Send(dest, data, time) => (Submit(h, dest, data, time), [])
    case Handle(a) => Receive(h, a)
    case Tick(time, lookup) => Update(h, time, lookup)
    case Kill(id) => (Clear(h, id), [])
  }

  /** A result after which the datagram is gone: an ack, a final nak, or a timeout. */
  predicate Final(e: Event) {
    e.Result? && (e.ok || !ResendAsked(e.code))
  }

  function Finals(es: seq<Event>): nat {
    if es == [] then 0 else (if Final(es[0]) then 1 else 0) + Finals(es[1..])
  }

  function Outstanding(h: Handler): nat {
    if h.txFree then 0 else 1
  }

  function Taken(h: Handler, c: Call): nat {
    if c.Send? && h.txFree then 1 else 0
  }

  predicate IsAck(h: Handler, c: Call) {
    h.permitted && c.Handle? && c.arrival.frame.content.DatagramOk? && ForUs(h, c.arrival.frame.content.to)
  }

  predicate IsNak(h: Handler, c: Call) {
    h.permitted && c.Handle? && c.arrival.frame.content.DatagramRejected? && ForUs(h, c.arrival.frame.content.to)
  }

  /** Acks come only while a response is awaited, naks only while a datagram is outstanding. */
  predicate Timely(h: Handler, c: Call) {
    (IsAck(h, c) ==> !h.txFree && !h.txFlag) && (IsNak(h, c) ==> !h.txFree)
  }

  /** One call books correctly: what was outstanding or is taken now is outstanding still or has ended. */
  predicate Balanced(h: Handler, c: Call, r: (Handler, seq<Event>)) {
    Outstanding(h) + Taken(h, c) == Outstanding(r.0) + Finals(r.1)
  }

  lemma {:induction false} TimeoutsAreFinal()
    ensures !ResendAsked(DATAGRAM_ERROR_ABORTED) && !ResendAsked(DATAGRAM_ERROR_ACK_TIMEOUT)
  {
    var a, b := DATAGRAM_ERROR_ABORTED, DATAGRAM_ERROR_ACK_TIMEOUT;
    assert And(1, 2) == 0;
    Halves12(a);
    Halves12(b);
    ShlIs(2, 12);
    AndShl(a, 2, 12);
    AndShl(b, 2, 12);
  }

  lemma {:induction false} Halves12(a: nat)
    requires 0x1000 <= a < 0x2000
    ensures Shr(a, 12) == 1 && Pow2(12) == 0x1000 && Shl(0, 12) == 0
  {
    Powers();
    ShrIs(a, 12);
    ShlIs(0, 12);
  }

  lemma {:induction false} FinalsOfTwo(a: Event, b: Event)
    ensures Finals([a]) == if Final(a) then 1 else 0
    ensures Finals([a, b]) == Finals([a]) + Finals([b])
  {
    assert [a, b][1..] == [b];
  }

  /** A reply is never a result. */
  lemma {:induction false} ReplyKeepsSender(h: Handler, to: NodeId, reason: nat, accepted: bool)
    ensures var (r, es) := Reply(h, to, reason, accepted);
            SameSender(h, r) && Finals(es) == 0 && |es| <= 1 && (|es| == 1 ==> !es[0].Result?)
  {
  }

  predicate SameSender(h: Handler, r: Handler) {
    && r.txFree == h.txFree && r.txFlag == h.txFlag && r.loc == h.loc && r.txData == h.txData
    && r.self == h.self && r.sentTime == h.sentTime && r.txDest == h.txDest && r.txSource == h.txSource
    && r.permitted == h.permitted
  }

  lemma {:induction false} ReceivingKeepsSender(h: Handler, p: Part, data: seq<Byte>, a: Arrival)
    ensures var (r, es) := ReceiveDatagram(h, p, data, a); SameSender(h, r) && Finals(es) == 0
  {
    hide Reply;
    var from := a.From();
    if Accepts(h, p, from) {
      var g := Filled(h, p, from, data);
      if Closes(p) {
        ReplyKeepsSender(g, g.rxSource, a.verdict, a.accepted);
        var (r, es) := Reply(g, g.rxSource, a.verdict, a.accepted);
        var e := Processed(g.rxSource, g.rxData);
        assert ([e] + es)[1..] == es;
      }
    } else {
      ReplyKeepsSender(h, from, DATAGRAM_REJECTED_OUT_OF_ORDER, a.accepted);
      ReplyKeepsSender(h, from, DATAGRAM_REJECTED_BUFFER_FULL, a.accepted);
    }
  }

  /** Sending a fragment ends nothing, unless the datagram is given up. */
  lemma {:induction false} TransmittingBalances(h: Handler, time: nat, lookup: Option<nat>)
    requires Orderly(h) && h.permitted && h.ackReason == NOTHING_QUEUED && h.txFlag
    ensures var r := Update(h, time, lookup); Orderly(r.0) && Balanced(h, Tick(time, lookup), r)
  {
    hide Final, Finals, Expired, ResendAsked, SendFragment;
    var abort := Result(false, DATAGRAM_ERROR_ABORTED);
    TimeoutsAreFinal();
    TimeoutsAreEvents(abort, abort);
    FragmentIsNoResult(h, lookup);
    var (g, sent, out) := SendFragment(h, lookup);
    FinalsOfTwo(out[0], abort);
    FinalsOfTwo(abort, abort);
    assert out == [out[0]] && out + [abort] == [out[0], abort];
  }

  lemma {:induction false} FragmentIsNoResult(h: Handler, lookup: Option<nat>)
    requires h.loc <= |h.txData|
    ensures var (g, sent, out) := SendFragment(h, lookup);
            && |out| == 1 && !Final(out[0])
            && g == h.(txDest := g.txDest) && h.loc + sent <= |h.txData|
            && (sent == 0 || sent == Min(|h.txData| - h.loc, 8))
  {
    hide FragmentAt;
  }

  lemma {:induction false} TickBalances(h: Handler, time: nat, lookup: Option<nat>)
    requires Orderly(h)
    ensures var r := Update(h, time, lookup); Orderly(r.0) && Balanced(h, Tick(time, lookup), r)
  {
    hide Final, Finals, Expired, ResendAsked, SendFragment;
    if h.permitted && h.ackReason == NOTHING_QUEUED && h.txFlag {
      TransmittingBalances(h, time, lookup);
    } else if h.permitted && h.ackReason != NOTHING_QUEUED {
      var e := if h.ackReason == DATAGRAM_ERROR_OK then Acked(h.ackDest) else Naked(h.ackDest, h.ackReason);
      NotAResult(e);
      FinalsOfTwo(e, e);
    } else {
      var late := Result(false, DATAGRAM_ERROR_ACK_TIMEOUT);
      TimeoutsAreFinal();
      TimeoutsAreEvents(late, late);
      FinalsOfTwo(late, late);
      FinalsOfNone();
    }
  }

  lemma {:induction false} FinalsOfNone()
    ensures Finals([]) == 0
  {
  }

  lemma {:induction false} TimeoutsAreEvents(a: Event, b: Event)
    requires a.Result? && b.Result? && !ResendAsked(a.code) && !ResendAsked(b.code)
    ensures Final(a) && Final(b)
  {
  }

  lemma {:induction false} NotAResult(e: Event)
    requires !e.Result?
    ensures !Final(e)
  {
  }

  /** A well-timed call keeps the transmit side in order and the books balanced. */
  lemma {:induction false} CallBalances(h: Handler, c: Call)
    requires Orderly(h) && Callable(h, c) && Timely(h, c)
    ensures Orderly(Step(h, c).0) && Balanced(h, c, Step(h, c))
  {
    match c
    case Send(dest, data, time) =>
    case Kill(id) =>
    case Tick(time, lookup) => TickBalances(h, time, lookup);
    case Handle(a) =>
      match a.frame.content {
        case Datagram(p, dest, data) => ReceivingKeepsSender(h, p, data, a);
        case DatagramOk(to) => FinalsOfTwo(Result(true, 0), Result(true, 0));
        case DatagramRejected(to, code) => FinalsOfTwo(Result(false, code), Result(false, code));
        case _ =>
      }
  }

  /** And only a well-timed one does: an early ack or a stray reply upsets the transmit side or the books. */
  lemma {:induction false} OnlyTimelyBalances(h: Handler, c: Call)
    requires Orderly(h) && Callable(h, c)
    ensures Orderly(Step(h, c).0) && Balanced(h, c, Step(h, c)) <==> Timely(h, c)
  {
    if Timely(h, c) {
      CallBalances(h, c);
    } else {
      var code := if c.arrival.frame.content.DatagramRejected? then c.arrival.frame.content.code else 0;
      FinalsOfTwo(Result(true, 0), Result(true, 0));
      FinalsOfTwo(Result(false, code), Result(false, code));
    }
  }

  // ---------------------------------------------------------------- whole runs

  ghost predicate Run(hs: seq<Handler>, cs: seq<Call>, es: seq<seq<Event>>) {
    |hs| == |cs| + 1 && |es| == |cs| &&
    forall k | 0 <= k < |cs| :: Callable(hs[k], cs[k]) && Step(hs[k], cs[k]) == (hs[k + 1], es[k])
  }

  function AllTaken(hs: seq<Handler>, cs: seq<Call>, n: nat): nat
    requires n <= |cs| <= |hs|
  {
    if n == 0 then 0 else AllTaken(hs, cs, n - 1) + Taken(hs[n - 1], cs[n - 1])
  }

  function AllFinals(es: seq<seq<Event>>, n: nat): nat
    requires n <= |es|
  {
    if n == 0 then 0 else AllFinals(es, n - 1) + Finals(es[n - 1])
  }

  /**
   In every run with well-timed replies, the datagrams sendDatagram accepted are exactly those
   that have come to an end plus the one in the transmit buffer, if it is occupied.
   */
  lemma {:induction false} SendsAreConserved(hs: seq<Handler>, cs: seq<Call>, es: seq<seq<Event>>, n: nat)
    requires Run(hs, cs, es) && n <= |cs| && Orderly(hs[0]) && hs[0].txFree
    requires forall k | 0 <= k < n :: Timely(hs[k], cs[k])
    ensures Orderly(hs[n])
    ensures AllTaken(hs, cs, n) == AllFinals(es, n) + Outstanding(hs[n])
  {
    hide Step, Orderly, Finals, Outstanding, Timely, Callable;
    if n > 0 {
      SendsAreConserved(hs, cs, es, n - 1);
      CallBalances(hs[n - 1], cs[n - 1]);
      assert Step(hs[n - 1], cs[n - 1]) == (hs[n], es[n - 1]);
    } else {
      FreeIsNotOutstanding(hs[0]);
    }
  }

  lemma {:induction false} FreeIsNotOutstanding(h: Handler)
    requires h.txFree
    ensures Outstanding(h) == 0
  {
  }
}
