/** The datagram handler as the library has it: two fixed buffers and a few flags, changed in place. */
module DatagramHandler {
  import opened Bits
  import opened NodeIds
  import opened BusFrames
  import opened AliasHelper
  import opened DatagramModel

  class DatagramPort {
    const node: NodeRef?
    var rxFree: bool
    var rxSource: NodeId
    var rxLength: nat
    const rxBuffer: array<Byte>
    var txFree: bool
    var txFlag: bool
    var loc: nat
    var sentTime: nat
    var txSource: NodeId
    var txDest: NodeId
    var txLength: nat
    const txBuffer: array<Byte>
    var ackDest: NodeId
    var ackReason: nat

    predicate Valid()
      reads this
    {
      && rxBuffer.Length == txBuffer.Length == DATAGRAM_LENGTH && rxBuffer != txBuffer
      && rxLength <= DATAGRAM_LENGTH && loc <= txLength <= DATAGRAM_LENGTH
    }

    predicate IsPermitted()
      reads node
    {
      node != null && node.initialized
    }

    function Self(): Option<NodeId>
      reads node
    {
      if node == null then None else Some(NodeId(node.nid, node.alias))
    }

    function View(): Handler
      reads this, node, rxBuffer, txBuffer
      requires Valid()
    {
      Handler(Self(), IsPermitted(), rxFree, rxSource, rxBuffer[..rxLength],
              txFree, txFlag, loc, sentTime, txSource, txDest, txBuffer[..txLength], ackDest, ackReason)
    }

    constructor (node: NodeRef?)
      ensures Valid() && fresh(rxBuffer) && fresh(txBuffer) && this.node == node
      ensures rxFree && txFree && !txFlag && loc == 0 && ackReason == NOTHING_QUEUED
    {
      this.node := node;
      rxFree, txFree, txFlag, loc, sentTime, ackReason := true, true, false, 0, 0, NOTHING_QUEUED;
      rxSource, txSource, txDest, ackDest := NodeId(ZERO_NID, 0), NodeId(ZERO_NID, 0), NodeId(ZERO_NID, 0), NodeId(ZERO_NID, 0);
      rxLength, txLength := 0, 0;
      rxBuffer := new Byte[DATAGRAM_LENGTH](_ => 0);
      txBuffer := new Byte[DATAGRAM_LENGTH](_ => 0);
    }

    /** Copy a datagram into the transmit buffer. */
    method Load(data: seq<Byte>)
      requires Valid() && |data| <= DATAGRAM_LENGTH
      modifies this`loc, this`txLength, txBuffer
      ensures Valid() && loc == 0 && txLength == |data| && txBuffer[..txLength] == data
    {
      hide Self, IsPermitted;
      loc, txLength := 0, |data|;
      var i := 0;
      while i < |data|
        invariant i <= |data|
        invariant forall j | 0 <= j < i :: txBuffer[j] == data[j]
        modifies txBuffer
      {
        txBuffer[i] := data[i];
        i := i + 1;
      }
      assert txBuffer[..txLength] == data;
    }

    method SendDatagram(dest: NodeId, data: seq<Byte>, now: nat) returns (taken: bool)
      requires Valid() && node != null && |data| <= DATAGRAM_LENGTH
      modifies this, txBuffer
      ensures Valid() && taken == old(txFree)
      ensures View() == Submit(old(View()), dest, data, now)
    {
      hide IsPermitted;
      if !txFree {
        return false;
      }
      txFree := false;
      Load(data);
      txDest := dest;
      txSource := NodeId(node.nid, node.alias);
      txFlag := true;
      loc := 0;
      sentTime := now;
      return true;
    }

    /** Append the frame's bytes to the receive buffer. */
    method Append(data: seq<Byte>)
      requires Valid() && rxLength + |data| <= DATAGRAM_LENGTH
      modifies this`rxLength, rxBuffer
      ensures Valid() && rxBuffer[..rxLength] == old(rxBuffer[..rxLength]) + data
    {
      ghost var had := rxBuffer[..rxLength];
      var i := 0;
      while i < |data|
        invariant i <= |data|
        invariant rxBuffer[..rxLength] == had
        invariant forall j | 0 <= j < i :: rxBuffer[j + rxLength] == data[j]
        modifies rxBuffer
      {
        rxBuffer[i + rxLength] := data[i];
        i := i + 1;
      }
      assert forall k | rxLength <= k < rxLength + |data| :: rxBuffer[k] == data[k - rxLength];
      rxLength := rxLength + |data|;
      assert rxBuffer[..rxLength] == had + data;
    }

    /** Ack or nak now, or leave it to update(). */
    method SendReply(to: NodeId, reason: nat, accepted: bool) returns (out: seq<Event>)
      requires Valid()
      modifies this`ackDest, this`ackReason
      ensures Valid() && (View(), out) == Reply(old(View()), to, reason, accepted)
    {
      if accepted {
        out := [if reason == DATAGRAM_ERROR_OK then Acked(to) else Naked(to, reason)];
      } else {
        out := [];
        ackDest := to;
        ackReason := reason;
      }
    }

    method HandleMessage(a: Arrival) returns (handled: bool, out: seq<Event>)
      requires Valid()
      requires var c := a.frame.content;
               c.Datagram? && IsPermitted() && ForUs(View(), c.dest) ==> Fits(c.part, a.From(), c.data)
      modifies this, rxBuffer
      ensures Valid() && (View(), out) == Receive(old(View()), a) && handled == Handles(old(View()), a)
    {
      handled, out := false, [];
      if !IsPermitted() {
        return;
      }
      match a.frame.content {
        case DatagramOk(to) =>
          if node != null && NodeId(ZERO_NID, to).Matches(NodeId(node.nid, node.alias)) {
            out := [Result(true, 0)];
            txFree := true;
            handled := true;
          }
        case DatagramRejected(to, code) =>
          if node != null && NodeId(ZERO_NID, to).Matches(NodeId(node.nid, node.alias)) {
            if And(code, DATAGRAM_REJECTED_RESEND_MASK) != 0 {
              txFlag := true;
              loc := 0;
            } else {
              txFlag := false;
              loc := 0;
              txFree := true;
            }
            out := [Result(false, code)];
            handled := true;
          }
        case Datagram(p, dest, data) =>
          if node != null && NodeId(ZERO_NID, dest).Matches(NodeId(node.nid, node.alias)) {
            out := HandleFragment(p, data, a);
            handled := true;
          }
        case _ =>
      }
    }

    /** If the frame is taken, there is room for its bytes; nothing is asked of one that is refused. */
    predicate Fits(p: Part, from: NodeId, data: seq<Byte>)
      reads this
    {
      if Opens(p) then rxFree ==> |data| <= DATAGRAM_LENGTH
      else !rxFree && from.Matches(rxSource) ==> rxLength + |data| <= DATAGRAM_LENGTH
    }

    /** The bytes of an accepted frame enter the buffer; an opening frame starts it afresh. */
    method Take(p: Part, from: NodeId, data: seq<Byte>)
      requires Valid() && (if Opens(p) then |data| else rxLength + |data|) <= DATAGRAM_LENGTH
      modifies this`rxFree, this`rxLength, this`rxSource, rxBuffer
      ensures Valid() && View() == Filled(old(View()), p, from, data)
    {
      hide Self, IsPermitted;
      if p.First? || p.Only? {
        rxFree := false;
        rxLength := 0;
        rxSource := from;
      }
      Append(data);
    }

    method HandleFragment(p: Part, data: seq<Byte>, a: Arrival) returns (out: seq<Event>)
      requires Valid() && Fits(p, a.From(), data)
      modifies this, rxBuffer
      ensures Valid() && (View(), out) == ReceiveDatagram(old(View()), p, data, a)
    {
      hide Bits.And, Self, IsPermitted, Reply;
      var from := a.From();
      if (p.First? && rxFree) || (p.Only? && rxFree) || ((p.Middle? || p.Last?) && from.Matches(rxSource) && !rxFree) {
        Take(p, from, data);
        out := [];
        if p.Last? || p.Only? {
          out := SendReply(rxSource, a.verdict, a.accepted);
          out := [Processed(rxSource, rxBuffer[..rxLength])] + out;
          rxFree := true;
        }
      } else if (p.Last? || p.Only?) && rxFree {
        out := SendReply(from, DATAGRAM_REJECTED_OUT_OF_ORDER, a.accepted);
      } else {
        out := SendReply(from, DATAGRAM_REJECTED_BUFFER_FULL, a.accepted);
      }
    }

    /** The link cuts the next fragment out of the transmit buffer. */
    method SendDatagramFragment(lookup: Option<nat>) returns (sent: nat, out: seq<Event>)
      requires Valid()
      modifies this`txDest
      ensures Valid() && (View(), sent, out) == SendFragment(old(View()), lookup)
      ensures sent <= 8 && loc + sent <= txLength
    {
      if txDest.alias == 0 {
        if lookup.None? {
          return 0, [Asked(txDest.nid)];
        }
        txDest := NodeId(txDest.nid, lookup.value);
      }
      var part: Part;
      if loc == 0 {
        if txLength > 8 {
          part := First;
        } else {
          part := Only;
        }
      } else if txLength - loc > 8 {
        part := Middle;
      } else {
        part := Last;
      }
      sent := Min(txLength - loc, 8);
      var data := txBuffer[..txLength];
      out := [Transmitted(Frame(Datagram(part, txDest.alias, data[loc..loc + sent]), txSource.alias, false))];
    }

    /** The branch of update() for a datagram that is being transmitted. */
    method Transmit(now: nat, lookup: Option<nat>) returns (out: seq<Event>)
      requires Valid() && IsPermitted() && ackReason == NOTHING_QUEUED && txFlag
      modifies this
      ensures Valid() && (View(), out) == DatagramModel.Update(old(View()), now, lookup)
    {
      hide FragmentAt, Expired, SendFragment, IsPermitted, Self;
      ghost var h := View();
      var sent;
      sent, out := SendDatagramFragment(lookup);
      ghost var g := View();
      assert (g, sent, out) == SendFragment(h, lookup);
      if sent == 0 && Expired(now, sentTime) {
        txFree := true;
        txFlag := false;
        out := out + [Result(false, DATAGRAM_ERROR_ABORTED)];
        assert View() == g.(txFree := true, txFlag := false);
      } else if loc + sent == txLength {
        txFlag := false;
        loc := 0;
        sentTime := now;
        assert View() == g.(txFlag := false, loc := 0, sentTime := now);
      } else {
        loc := loc + sent;
        assert View() == g.(loc := g.loc + sent);
      }
    }

    method Update(now: nat, lookup: Option<nat>) returns (out: seq<Event>)
      requires Valid()
      modifies this
      ensures Valid() && (View(), out) == DatagramModel.Update(old(View()), now, lookup)
    {
      hide FragmentAt, Expired, SendFragment;
      out := [];
      if !IsPermitted() {
        return;
      } else if ackReason != NOTHING_QUEUED {
        out := [if ackReason == DATAGRAM_ERROR_OK then Acked(ackDest) else Naked(ackDest, ackReason)];
        ackReason := NOTHING_QUEUED;
      } else if txFlag {
        out := Transmit(now, lookup);
      } else if !txFree && Expired(now, sentTime) {
        txFree := true;
        txFlag := false;
        out := [Result(false, DATAGRAM_ERROR_ACK_TIMEOUT)];
      }
    }

    method ClearBuffer(id: NodeId)
      requires Valid()
      modifies this`rxFree
      ensures Valid() && View() == Clear(old(View()), id)
    {
      if !rxFree && id.Matches(rxSource) {
        rxFree := true;
      }
    }
  }
}
