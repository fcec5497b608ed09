/** A datagram cut into frames by one handler is put together again by another. */
module DatagramTransfer {
  import opened Bits
  import opened NodeIds
  import opened BusFrames
  import opened DatagramModel

  // ---------------------------------------------------------------- the sender

  /** What S-9.7.3.2 asks for: one Only frame, or First, Middle and Last frames of eight bytes and the rest. */
  function Fragments(data: seq<Byte>): seq<(Part, seq<Byte>)> {
    if |data| <= 8 then [(Only, data)] else [(First, data[..8])] + Tail(data[8..])
  }

  function Tail(data: seq<Byte>): seq<(Part, seq<Byte>)> {
    if |data| <= 8 then [(Last, data)] else [(Middle, data[..8])] + Tail(data[8..])
  }

  function Joined(fs: seq<(Part, seq<Byte>)>): seq<Byte> {
    if fs == [] then [] else fs[0].1 + Joined(fs[1..])
  }

  predicate TailShaped(fs: seq<(Part, seq<Byte>)>) {
    |fs| > 0 && fs[|fs| - 1].0 == Last &&
    (forall i | 0 <= i < |fs| - 1 :: fs[i].0 == Middle && |fs[i].1| == 8) &&
    |fs[|fs| - 1].1| <= 8
  }

  /** Middle frames are full, the Last frame has the rest, and nothing is lost. */
  lemma {:induction false} TailIsFaithful(data: seq<Byte>)
    ensures TailShaped(Tail(data)) && Joined(Tail(data)) == data
    ensures data != [] ==> Tail(data)[|Tail(data)| - 1].1 != []
  {
    if |data| > 8 {
      TailIsFaithful(data[8..]);
      var fs := Tail(data);
      assert fs[1..] == Tail(data[8..]);
      assert data[..8] + data[8..] == data;
      assert fs[|fs| - 1] == fs[1..][|fs| - 2];
      forall i | 0 < i < |fs| - 1
        ensures fs[i].0 == Middle && |fs[i].1| == 8
      {
        assert fs[i] == fs[1..][i - 1];
      }
    } else {
      assert Tail(data)[1..] == [];
    }
  }

  /** A datagram is one Only frame if it fits, else a full First frame, full Middle frames and a Last frame. */
  lemma {:induction false} FragmentsAreFaithful(data: seq<Byte>)
    ensures Joined(Fragments(data)) == data
    ensures |data| <= 8 ==> Fragments(data) == [(Only, data)]
    ensures |data| > 8 ==> Fragments(data)[0] == (First, data[..8]) && TailShaped(Fragments(data)[1..])
  {
    if |data| > 8 {
      TailIsFaithful(data[8..]);
      assert Fragments(data)[1..] == Tail(data[8..]);
      assert data[..8] + data[8..] == data;
    } else {
      assert Fragments(data)[1..] == [];
    }
  }

  /** Frames still to be sent by a transmitting handler. */
  function ToSend(h: Handler): seq<(Part, seq<Byte>)>
    requires h.loc <= |h.txData|
  {
    if !h.txFlag then [] else if h.loc == 0 then Fragments(h.txData) else Tail(h.txData[h.loc..])
  }

  function Addressed(fs: seq<(Part, seq<Byte>)>, source: nat, dest: nat): (r: seq<Frame>)
    ensures |r| == |fs|
    ensures forall i | 0 <= i < |fs| :: r[i] == Frame(Datagram(fs[i].0, dest, fs[i].1), source, false)
  {
    seq(|fs|, i requires 0 <= i < |fs| => Frame(Datagram(fs[i].0, dest, fs[i].1), source, false))
  }

  function FramesIn(es: seq<Event>): seq<Frame> {
    if es == [] then []
    else (if es[0].Transmitted? then [es[0].frame] else []) + FramesIn(es[1..])
  }

  /** A permitted handler that transmits to a destination whose alias it knows. */
  predicate Sending(h: Handler) {
    && h.permitted && h.txDest.alias != 0
    && h.loc <= |h.txData| && (h.txFlag && h.loc > 0 ==> h.loc < |h.txData|)
  }

  lemma {:induction false} FramesOfTwo(a: Event, b: Event)
    ensures FramesIn([a]) == if a.Transmitted? then [a.frame] else []
    ensures FramesIn([a, b]) == FramesIn([a]) + FramesIn([b])
  {
    assert [a, b][1..] == [b];
  }

  /** The fragment cut at loc heads what is left to send. */
  lemma {:induction false} NextFragment(h: Handler)
    requires Sending(h) && h.txFlag
    ensures var len := Min(|h.txData| - h.loc, 8);
            && ToSend(h) != []
            && ToSend(h)[0] == (PartAt(|h.txData|, h.loc), h.txData[h.loc..h.loc + len])
            && (h.loc + len == |h.txData| ==> |ToSend(h)| == 1)
            && (h.loc + len < |h.txData| ==> ToSend(h)[1..] == Tail(h.txData[h.loc + len..]))
  {
    var rest, len := h.txData[h.loc..], Min(|h.txData| - h.loc, 8);
    assert rest[..len] == h.txData[h.loc..h.loc + len];
    assert rest[len..] == h.txData[h.loc + len..];
    if len == |rest| {
      assert rest[..len] == rest;
    }
  }

  /** With nothing queued, a transmitting handler sends the fragment that heads what is left. */
  lemma {:induction false} FragmentGoesOut(h: Handler, now: nat, lookup: Option<nat>)
    requires Sending(h) && h.txFlag && h.ackReason == NOTHING_QUEUED
    ensures var (g, es) := Update(h, now, lookup);
            && Sending(g) && g.txSource == h.txSource && g.txDest == h.txDest && g.ackReason == NOTHING_QUEUED
            && ToSend(h) != [] && ToSend(g) == ToSend(h)[1..]
            && FramesIn(es) == [Frame(Datagram(ToSend(h)[0].0, h.txDest.alias, ToSend(h)[0].1), h.txSource.alias, false)]
  {
    hide Fragments, Tail, FramesIn, Expired;
    NextFragment(h);
    var f := FragmentAt(h.txSource.alias, h.txDest.alias, h.txData, h.loc);
    var abort := Result(false, DATAGRAM_ERROR_ABORTED);
    FramesOfTwo(Transmitted(f), abort);
    FramesOfTwo(abort, abort);
    assert [Transmitted(f)] + [abort] == [Transmitted(f), abort];
  }

  lemma {:induction false} NoFragmentGoesOut(h: Handler, now: nat, lookup: Option<nat>)
    requires Sending(h) && !(h.txFlag && h.ackReason == NOTHING_QUEUED)
    ensures var (g, es) := Update(h, now, lookup);
            && Sending(g) && g.txSource == h.txSource && g.txDest == h.txDest && g.ackReason == NOTHING_QUEUED
            && ToSend(g) == ToSend(h) && FramesIn(es) == []
  {
    hide Fragments, Tail, Expired;
    var es := Update(h, now, lookup).1;
    if es != [] {
      FramesOfTwo(es[0], es[0]);
    }
  }

  /** One update sends the next fragment, unless a queued reply goes first. */
  lemma {:induction false} UpdateSendsNext(h: Handler, now: nat, lookup: Option<nat>)
    requires Sending(h)
    ensures var (g, es) := Update(h, now, lookup);
            && Sending(g) && g.txSource == h.txSource && g.txDest == h.txDest
            && g.ackReason == NOTHING_QUEUED
            && FramesIn(es) + Addressed(ToSend(g), h.txSource.alias, h.txDest.alias)
            == Addressed(ToSend(h), h.txSource.alias, h.txDest.alias)
            && |ToSend(g)| == if h.ackReason != NOTHING_QUEUED || ToSend(h) == [] then |ToSend(h)| else |ToSend(h)| - 1
  {
    hide Update, FramesIn, Sending, Fragments, Tail, Addressed;
    LocIsInside(h);
    if h.txFlag && h.ackReason == NOTHING_QUEUED {
      FragmentGoesOut(h, now, lookup);
      AddressedHead(ToSend(h), h.txSource.alias, h.txDest.alias);
    } else {
      NoFragmentGoesOut(h, now, lookup);
      LocIsInside(Update(h, now, lookup).0);
    }
  }

  lemma {:induction false} AddressedHead(fs: seq<(Part, seq<Byte>)>, s: nat, d: nat)
    requires fs != []
    ensures Addressed(fs, s, d) == [Frame(Datagram(fs[0].0, d, fs[0].1), s, false)] + Addressed(fs[1..], s, d)
  {
  }

  lemma {:induction false} LocIsInside(h: Handler)
    requires Sending(h)
    ensures h.loc <= |h.txData|
  {
  }

  datatype Moment = Moment(time: nat, lookup: Option<nat>)

  /** Repeated calls of update(): the handler afterwards and all events. */
  function Updates(h: Handler, ms: seq<Moment>): (Handler, seq<Event>)
    requires Sending(h)
    decreases |ms|
  {
    if ms == [] then (h, [])
    else
      UpdateSendsNext(h, ms[0].time, ms[0].lookup);
      var (g, es) := Update(h, ms[0].time, ms[0].lookup);
      var (r, rest) := Updates(g, ms[1..]);
      (r, es + rest)
  }

  lemma {:induction false} FramesOfAll(a: seq<Event>, b: seq<Event>)
    ensures FramesIn(a + b) == FramesIn(a) + FramesIn(b)
  {
    if a == [] {
      assert a + b == b;
    } else {
      FramesOfAll(a[1..], b);
      assert (a + b)[1..] == a[1..] + b && (a + b)[0] == a[0];
      var head := if a[0].Transmitted? then [a[0].frame] else [];
      assert head + (FramesIn(a[1..]) + FramesIn(b)) == head + FramesIn(a[1..]) + FramesIn(b);
    }
  }

  /** However many calls, the frames sent so far and those left make up the datagram's frames. */
  lemma {:induction false} UpdatesSendFragments(h: Handler, ms: seq<Moment>)
    requires Sending(h)
    ensures var (g, es) := Updates(h, ms);
            var s, d := h.txSource.alias, h.txDest.alias;
            && Sending(g) && FramesIn(es) + Addressed(ToSend(g), s, d) == Addressed(ToSend(h), s, d)
            && (|ms| >= |ToSend(h)| + (if h.ackReason == NOTHING_QUEUED then 0 else 1) ==> ToSend(g) == [])
    decreases |ms|
  {
    hide Update, ToSend;
    if ms != [] {
      UpdateSendsNext(h, ms[0].time, ms[0].lookup);
      var (g, es) := Update(h, ms[0].time, ms[0].lookup);
      var (r, rest) := Updates(g, ms[1..]);
      UpdatesSendFragments(g, ms[1..]);
      FramesOfAll(es, rest);
    }
  }

  /**
   A nak that asks for it, come at whatever point of the transmission or after it, repeats the
   datagram from its first byte: the updates that follow send all its frames again, and the
   datagram stays outstanding meanwhile.
   */
  lemma {:induction false} ResendRepeatsDatagram(h: Handler, a: Arrival, to: nat, code: nat, ms: seq<Moment>)
    requires Sending(h) && !h.txFree && a.frame.content == DatagramRejected(to, code) && ForUs(h, to) && ResendAsked(code)
    ensures var r := Receive(h, a).0;
            && r.txFlag && r.loc == 0 && r.txData == h.txData && !r.txFree && Sending(r)
            && (|ms| >= |Fragments(h.txData)| + (if h.ackReason == NOTHING_QUEUED then 0 else 1) ==>
                  FramesIn(Updates(r, ms).1) == Addressed(Fragments(h.txData), h.txSource.alias, h.txDest.alias))
  {
    hide ResendAsked;
    UpdatesSendFragments(Receive(h, a).0, ms);
  }

  /**
   While the destination is unknown nothing is sent, yet a call may still count the datagram as
   sent: it does exactly when the datagram is empty.
   */
  lemma {:induction false} UnknownDestination(h: Handler, now: nat)
    requires h.permitted && h.ackReason == NOTHING_QUEUED && h.txFlag && h.txDest.alias == 0
    requires h.loc == 0 && !Expired(now, h.sentTime)
    ensures var (g, es) := Update(h, now, None); es == [Asked(h.txDest.nid)] && (!g.txFlag <==> h.txData == [])
  {
  }

  // ---------------------------------------------------------------- the receiver

  /** Arrivals one after the other: the handler afterwards and all events. */
  function Receives(h: Handler, d: seq<Arrival>): (Handler, seq<Event>)
    decreases |d|
  {
    if d == [] then (h, [])
    else
      var (g, es) := Receive(h, d[0]);
      var (r, rest) := Receives(g, d[1..]);
      (r, es + rest)
  }

  /** What processDatagram was called with, call by call. */
  function Calls(es: seq<Event>): seq<(NodeId, seq<Byte>)> {
    if es == [] then []
    else (if es[0].Processed? then [(es[0].from, es[0].bytes)] else []) + Calls(es[1..])
  }

  lemma {:induction false} CallsOfAll(a: seq<Event>, b: seq<Event>)
    ensures Calls(a + b) == Calls(a) + Calls(b)
  {
    if a == [] {
      assert a + b == b;
    } else {
      CallsOfAll(a[1..], b);
      assert (a + b)[1..] == a[1..] + b && (a + b)[0] == a[0];
      var head := if a[0].Processed? then [(a[0].from, a[0].bytes)] else [];
      assert head + (Calls(a[1..]) + Calls(b)) == head + Calls(a[1..]) + Calls(b);
    }
  }

  /** The frames that come from the given alias, looped back or from the wire alike. */
  function FramesFrom(d: seq<Arrival>, source: nat): seq<Frame> {
    if d == [] then []
    else (if d[0].frame.source == source then [d[0].frame.(internal := false)] else []) + FramesFrom(d[1..], source)
  }

  /** Busy with a datagram from this node, having the given bytes. */
  predicate Assembling(h: Handler, from: NodeId, bytes: seq<Byte>) {
    h.permitted && !h.rxFree && h.rxSource == from && h.rxData == bytes
  }

  lemma {:induction false} ReplyCallsNothing(h: Handler, to: NodeId, reason: nat, accepted: bool)
    ensures var (r, es) := Reply(h, to, reason, accepted);
            && Calls(es) == [] && r.permitted == h.permitted && r.self == h.self
            && r.rxFree == h.rxFree && r.rxSource == h.rxSource && r.rxData == h.rxData
  {
  }

  /** A frame from another alias leaves the assembly alone, whatever it is. */
  lemma {:induction false} StrangerIsRefused(h: Handler, a: Arrival, from: NodeId, bytes: seq<Byte>)
    requires Assembling(h, from, bytes) && from.alias != 0 && a.frame.source != 0 && a.frame.source != from.alias
    ensures var (g, es) := Receive(h, a);
            Assembling(g, from, bytes) && g.self == h.self && Calls(es) == []
  {
    match a.frame.content
    case Datagram(p, dest, data) =>
      ReplyCallsNothing(h, a.From(), DATAGRAM_REJECTED_OUT_OF_ORDER, a.accepted);
      ReplyCallsNothing(h, a.From(), DATAGRAM_REJECTED_BUFFER_FULL, a.accepted);
    case _ =>
  }

  /** A Middle frame of the datagram adds its bytes; the Last frame hands the whole over and frees the buffer. */
  lemma {:induction false} OwnFrameIsTaken(h: Handler, a: Arrival, from: NodeId, bytes: seq<Byte>, dest: nat, p: Part, data: seq<Byte>)
    requires Assembling(h, from, bytes) && from.alias != 0 && ForUs(h, dest) && p in {Middle, Last}
    requires a.frame.content == Datagram(p, dest, data) && a.frame.source == from.alias
    ensures var (g, es) := Receive(h, a);
            && g.self == h.self
            && (p.Middle? ==> Assembling(g, from, bytes + data) && Calls(es) == [])
            && (p.Last? ==> g.permitted && g.rxFree && Calls(es) == [(from, bytes + data)])
  {
    if p.Last? {
      var f := Filled(h, p, a.From(), data);
      FinishCallsOnce(f, a);
    }
  }

  /** Completing a datagram is one call of processDatagram. */
  lemma {:induction false} FinishCallsOnce(f: Handler, a: Arrival)
    ensures var (r, out) := Reply(f, f.rxSource, a.verdict, a.accepted);
            && Calls([Processed(f.rxSource, f.rxData)] + out) == [(f.rxSource, f.rxData)]
            && r.permitted == f.permitted && r.self == f.self
  {
    var out := Reply(f, f.rxSource, a.verdict, a.accepted).1;
    ReplyCallsNothing(f, f.rxSource, a.verdict, a.accepted);
    var e := Processed(f.rxSource, f.rxData);
    assert [e][1..] == [];
    CallsOfAll([e], out);
  }

  /** An Only frame is a whole datagram; a First frame starts one. */
  lemma {:induction false} OpeningFrameIsTaken(h: Handler, a: Arrival, dest: nat, p: Part, data: seq<Byte>)
    requires h.permitted && h.rxFree && ForUs(h, dest) && Opens(p)
    requires a.frame.content == Datagram(p, dest, data)
    ensures var (g, es) := Receive(h, a);
            && g.self == h.self
            && (p.First? ==> Assembling(g, a.From(), data) && Calls(es) == [])
            && (p.Only? ==> g.rxFree && Calls(es) == [(a.From(), data)])
  {
    if p.Only? {
      FinishCallsOnce(Filled(h, p, a.From(), data), a);
    }
  }

  predicate EndsWith(d: seq<Arrival>, source: nat) {
    |d| > 0 && d[|d| - 1].frame.source == source
  }

  predicate NoZeroAlias(d: seq<Arrival>) {
    forall i | 0 <= i < |d| :: d[i].frame.source != 0
  }

  /** The sender has sent nothing more, so an arrival that ends with one of its frames is at its end. */
  lemma {:induction false} LastOneCounts(d: seq<Arrival>, source: nat)
    requires EndsWith(d, source)
    ensures FramesFrom(d, source) != []
  {
    if |d| > 1 {
      LastOneCounts(d[1..], source);
    }
  }

  /** The head of what the sender sent is the first of its frames to arrive. */
  lemma {:induction false} HeadArrives(d: seq<Arrival>, source: nat, fs: seq<(Part, seq<Byte>)>, dest: nat)
    requires d != [] && d[0].frame.source == source && FramesFrom(d, source) == Addressed(fs, source, dest)
    ensures fs != [] && d[0].frame.content == Datagram(fs[0].0, dest, fs[0].1)
    ensures FramesFrom(d[1..], source) == Addressed(fs[1..], source, dest)
    ensures EndsWith(d, source) ==> (EndsWith(d[1..], source) <==> fs[1..] != [])
  {
    var frames := Addressed(fs, source, dest);
    assert FramesFrom(d, source)[0] == frames[0];
    assert FramesFrom(d, source)[1..] == FramesFrom(d[1..], source);
    assert frames[1..] == Addressed(fs[1..], source, dest);
    if EndsWith(d, source) && d[1..] != [] {
      LastOneCounts(d[1..], source);
    }
  }

  /** The rest of a datagram is assembled, whatever comes in between. */
  lemma {:induction false} RestIsAssembled(
    h: Handler, d: seq<Arrival>, from: NodeId, dest: nat, bytes: seq<Byte>, rest: seq<Byte>)
    requires Assembling(h, from, bytes) && from.alias != 0 && ForUs(h, dest)
    requires NoZeroAlias(d) && EndsWith(d, from.alias)
    requires FramesFrom(d, from.alias) == Addressed(Tail(rest), from.alias, dest)
    ensures var (g, es) := Receives(h, d); g.rxFree && Calls(es) == [(from, bytes + rest)]
    decreases |d|
  {
    hide Receive, Addressed;
    var s := from.alias;
    var (g, es) := Receive(h, d[0]);
    var (r, more) := Receives(g, d[1..]);
    CallsOfAll(es, more);
    if d[0].frame.source != s {
      StrangerIsRefused(h, d[0], from, bytes);
      RestIsAssembled(g, d[1..], from, dest, bytes, rest);
    } else {
      HeadArrives(d, s, Tail(rest), dest);
      if |rest| <= 8 {
        OwnFrameIsTaken(h, d[0], from, bytes, dest, Last, rest);
      } else {
        OwnFrameIsTaken(h, d[0], from, bytes, dest, Middle, rest[..8]);
        assert Tail(rest)[1..] == Tail(rest[8..]);
        RestIsAssembled(g, d[1..], from, dest, bytes + rest[..8], rest[8..]);
        assert bytes + rest[..8] + rest[8..] == bytes + rest;
      }
    }
  }

  /**
   The frames of a datagram reach a permitted handler with a free buffer, the first of them first
   and the last of them last, with any frames from other aliases in between: processDatagram is
   called exactly once, with the datagram's source and bytes, and the buffer is free again.
   */
  lemma {:induction false} DatagramIsAssembled(h: Handler, d: seq<Arrival>, source: nat, dest: nat, data: seq<Byte>)
    requires h.permitted && h.rxFree && ForUs(h, dest) && source != 0
    requires NoZeroAlias(d) && EndsWith(d, source) && d[0].frame.source == source
    requires FramesFrom(d, source) == Addressed(Fragments(data), source, dest)
    ensures var (g, es) := Receives(h, d); g.rxFree && Calls(es) == [(d[0].From(), data)]
  {
    hide Receive, Addressed, FramesFrom;
    var a := d[0];
    HeadArrives(d, source, Fragments(data), dest);
    var (g, es) := Receive(h, a);
    CallsOfAll(es, Receives(g, d[1..]).1);
    if |data| <= 8 {
      OpeningFrameIsTaken(h, a, dest, Only, data);
    } else {
      assert Fragments(data)[1..] == Tail(data[8..]);
      OpeningFrameIsTaken(h, a, dest, First, data[..8]);
      RestIsAssembled(g, d[1..], a.From(), dest, data[..8], data[8..]);
      assert data[..8] + data[8..] == data;
    }
  }

  /**
   Round trip. A handler with a datagram accepted for sending is called often enough; whatever its
   frames are interleaved with on the way, the receiver gets the identical bytes, once.
   */
  lemma {:induction false} DatagramRoundTrip(s: Handler, ms: seq<Moment>, r: Handler, d: seq<Arrival>)
    requires Sending(s) && s.txFlag && s.loc == 0 && s.txSource.alias != 0
    requires |ms| >= |Fragments(s.txData)| + (if s.ackReason == NOTHING_QUEUED then 0 else 1)
    requires r.permitted && r.rxFree && ForUs(r, s.txDest.alias)
    requires NoZeroAlias(d) && EndsWith(d, s.txSource.alias) && d[0].frame.source == s.txSource.alias
    requires FramesFrom(d, s.txSource.alias) == FramesIn(Updates(s, ms).1)
    ensures var (g, es) := Receives(r, d); g.rxFree && Calls(es) == [(d[0].From(), s.txData)]
    ensures !Updates(s, ms).0.txFlag
  {
    var (t, out) := Updates(s, ms);
    UpdatesSendFragments(s, ms);
    assert ToSend(t) == [];
    assert FramesIn(out) == Addressed(Fragments(s.txData), s.txSource.alias, s.txDest.alias);
    DatagramIsAssembled(r, d, s.txSource.alias, s.txDest.alias, s.txData);
  }
}
