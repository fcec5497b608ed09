/** Both ends of the datagram protocol on values: one call of each handler operation. */
module DatagramModel {
  import opened Bits
  import opened NodeIds
  import opened BusFrames

  const DATAGRAM_LENGTH := 72
  const DATAGRAM_ACK_TIMEOUT := 5000
  const DATAGRAM_ERROR_OK := 0xFFF0
  const DATAGRAM_ERROR_ABORTED := 0x1001
  const DATAGRAM_ERROR_ACK_TIMEOUT := 0x1002
  const DATAGRAM_REJECTED_BUFFER_FULL := 0x2000
  const DATAGRAM_REJECTED_OUT_OF_ORDER := 0x6000
  const DATAGRAM_REJECTED_RESEND_MASK := 0x2000
  const NOTHING_QUEUED := 0xFFFF

  /** What a handler does that others can see. */
  datatype Event =
    | Transmitted(frame: Frame)
    | Asked(nid: Nid)
    | Acked(to: NodeId)
    | Naked(to: NodeId, reason: nat)
    | Processed(from: NodeId, bytes: seq<Byte>)
    | Result(ok: bool, code: nat)

  datatype Handler = Handler(
    self: Option<NodeId>, permitted: bool,
    rxFree: bool, rxSource: NodeId, rxData: seq<Byte>,
    txFree: bool, txFlag: bool, loc: nat, sentTime: nat,
    txSource: NodeId, txDest: NodeId, txData: seq<Byte>,
    ackDest: NodeId, ackReason: nat)

  /**
   A frame as the handler gets it: the NodeID the buffer holds for the source, what
   processDatagram would answer, and whether the bus takes the reply at once.
   */
  datatype Arrival = Arrival(frame: Frame, sourceNid: Nid, verdict: nat, accepted: bool) {
    function From(): NodeId {
      NodeId(sourceNid, frame.source)
    }
  }

  function Expired(now: nat, since: nat): bool {
    (now - since) % 0x1_0000_0000 > DATAGRAM_ACK_TIMEOUT
  }

  predicate ResendAsked(code: nat) {
    And(code, DATAGRAM_REJECTED_RESEND_MASK) != 0
  }

  // ---------------------------------------------------------------- sendDatagram()

  /** A new datagram is taken only while the transmit buffer is free. */
  function Submit(h: Handler, dest: NodeId, data: seq<Byte>, now: nat): Handler
    requires h.self.Some?
  {
    if !h.txFree then h
    else h.(txFree := false, txSource := h.self.value, txDest := dest, txData := data,
            txFlag := true, loc := 0, sentTime := now)
  }

  // ---------------------------------------------------------------- handleMessage()

  predicate ForUs(h: Handler, alias: nat) {
    h.self.Some? && NodeId(ZERO_NID, alias).Matches(h.self.value)
  }

  predicate Opens(p: Part) {
    p in {First, Only}
  }

  predicate Closes(p: Part) {
    p in {Last, Only}
  }

  predicate Accepts(h: Handler, p: Part, from: NodeId) {
    if Opens(p) then h.rxFree else !h.rxFree && from.Matches(h.rxSource)
  }

  /** Reply at once, or queue the reply for update(). */
  function Reply(h: Handler, to: NodeId, reason: nat, accepted: bool): (Handler, seq<Event>) {
    if !accepted then (h.(ackDest := to, ackReason := reason), [])
    else if reason == DATAGRAM_ERROR_OK then (h, [Acked(to)])
    else (h, [Naked(to, reason)])
  }

  /** The receive buffer once the frame's bytes are in it. */
  function Filled(h: Handler, p: Part, from: NodeId, data: seq<Byte>): Handler {
    if Opens(p) then h.(rxFree := false, rxSource := from, rxData := data)
    else h.(rxData := h.rxData + data)
  }

  function ReceiveDatagram(h: Handler, p: Part, data: seq<Byte>, a: Arrival): (Handler, seq<Event>) {
    var from := a.From();
    if Accepts(h, p, from) then
      var g := Filled(h, p, from, data);
      if Closes(p) then
        var (r, out) := Reply(g, g.rxSource, a.verdict, a.accepted);
        (r.(rxFree := true), [Processed(g.rxSource, g.rxData)] + out)
      else (g, [])
    else if Closes(p) && h.rxFree then Reply(h, from, DATAGRAM_REJECTED_OUT_OF_ORDER, a.accepted)
    else Reply(h, from, DATAGRAM_REJECTED_BUFFER_FULL, a.accepted)
  }

  function Receive(h: Handler, a: Arrival): (Handler, seq<Event>) {
    if !h.permitted then (h, [])
    else match a.frame.content
      case Datagram(p, dest, data) => if ForUs(h, dest) then ReceiveDatagram(h, p, data, a) else (h, [])
      case DatagramOk(to) => if ForUs(h, to) then (h.(txFree := true), [Result(true, 0)]) else (h, [])
      case DatagramRejected(to, code) =>
        if !ForUs(h, to) then (h, [])
        else if ResendAsked(code) then (h.(txFlag := true, loc := 0), [Result(false, code)])
        else (h.(txFlag := false, loc := 0, txFree := true), [Result(false, code)])
      case _ => (h, [])
  }

  /** The handler reports a frame as dealt with: a fragment or reply addressed to its permitted node. */
  predicate Handles(h: Handler, a: Arrival) {
    h.permitted &&
    match a.frame.content
    case Datagram(_, dest, _) => ForUs(h, dest)
    case DatagramOk(to) => ForUs(h, to)
    case DatagramRejected(to, _) => ForUs(h, to)
    case _ => false
  }

  // ---------------------------------------------------------------- update()

  /** The part the fragmenter chooses for the bytes from start on. */
  function PartAt(length: nat, start: nat): Part {
    if start == 0 then (if length > 8 then First else Only)
    else if length - start > 8 then Middle
    else Last
  }

  function FragmentAt(source: nat, dest: nat, data: seq<Byte>, start: nat): Frame
    requires start <= |data|
  {
    var len := Min(|data| - start, 8);
    Frame(Datagram(PartAt(|data|, start), dest, data[start..start + len]), source, false)
  }

  /** sendDatagramFragment: an unknown destination is looked up, and asked for when the cache fails. */
  function SendFragment(h: Handler, lookup: Option<nat>): (Handler, nat, seq<Event>)
    requires h.loc <= |h.txData|
  {
    if h.txDest.alias == 0 && lookup.None? then (h, 0, [Asked(h.txDest.nid)])
    else
      var g := if h.txDest.alias == 0 then h.(txDest := NodeId(h.txDest.nid, lookup.value)) else h;
      (g, Min(|h.txData| - h.loc, 8), [Transmitted(FragmentAt(h.txSource.alias, g.txDest.alias, h.txData, h.loc))])
  }

  function Update(h: Handler, now: nat, lookup: Option<nat>): (Handler, seq<Event>)
    requires h.loc <= |h.txData|
  {
    if !h.permitted then (h, [])
    else if h.ackReason != NOTHING_QUEUED then
      (h.(ackReason := NOTHING_QUEUED),
       [if h.ackReason == DATAGRAM_ERROR_OK then Acked(h.ackDest) else Naked(h.ackDest, h.ackReason)])
    else if h.txFlag then
      var (g, sent, out) := SendFragment(h, lookup);
      if sent == 0 && Expired(now, h.sentTime) then
        (g.(txFree := true, txFlag := false), out + [Result(false, DATAGRAM_ERROR_ABORTED)])
      else if h.loc + sent == |h.txData| then (g.(txFlag := false, loc := 0, sentTime := now), out)
      else (g.(loc := h.loc + sent), out)
    else if !h.txFree && Expired(now, h.sentTime) then
      (h.(txFree := true, txFlag := false), [Result(false, DATAGRAM_ERROR_ACK_TIMEOUT)])
    else (h, [])
  }

  // ---------------------------------------------------------------- clearBuffer()

  function Clear(h: Handler, id: NodeId): Handler {
    if !h.rxFree && id.Matches(h.rxSource) then h.(rxFree := true) else h
  }
}
