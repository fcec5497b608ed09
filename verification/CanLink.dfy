/**
 The CAN link: the one receive buffer through which its own frames come back to it, and what
 transport-level frames do to its alias cache and to the datagrams its handlers have under way.
 */
module CanLink {
  import opened NodeIds
  import opened BusFrames
  import Cache = AliasCache
  import Model = DatagramModel
  import opened DatagramHandler

  const VERIFY_WAIT := 2000

  // ---------------------------------------------------------------- the frames that come back

  /**
   One call of update(): what is sent while the link's own waiting frame is delivered, the frame
   from the wire, what is sent while that is delivered, and what the alias helper and the node
   whose turn it is send.
   */
  datatype Call = Call(onOwn: seq<Frame>, wire: Option<Frame>, onWire: seq<Frame>, byHelper: seq<Frame>, byNode: seq<Frame>) {
    predicate Possible(waiting: seq<Frame>) {
      (onOwn != [] ==> waiting != []) && (onWire != [] ==> wire.Some?)
    }

    function Sent(): seq<Frame> {
      onOwn + Late()
    }

    function Late(): seq<Frame> {
      onWire + byHelper + byNode
    }
  }

  function Own(f: Frame): Frame {
    f.(internal := true)
  }

  function AllOwn(fs: seq<Frame>): (r: seq<Frame>)
    ensures |r| == |fs| && forall i | 0 <= i < |fs| :: r[i] == Own(fs[i])
  {
    seq(|fs|, i requires 0 <= i < |fs| => Own(fs[i]))
  }

  /** The buffer has room for one frame: the last one sent. */
  function LastOwn(fs: seq<Frame>): seq<Frame> {
    if fs == [] then [] else [Own(fs[|fs| - 1])]
  }

  /** Calls one after the other: the own frames that were delivered, and the one still waiting. */
  function Looped(waiting: seq<Frame>, calls: seq<Call>): (seq<Frame>, seq<Frame>)
    decreases |calls|
  {
    if calls == [] then ([], waiting)
    else
      var (heard, left) := Looped(LastOwn(calls[0].Late()), calls[1..]);
      (waiting + heard, left)
  }

  predicate AllPossible(waiting: seq<Frame>, calls: seq<Call>)
    decreases |calls|
  {
    calls == [] || (calls[0].Possible(waiting) && AllPossible(LastOwn(calls[0].Late()), calls[1..]))
  }

  lemma {:induction false} OneCall(waiting: seq<Frame>, calls: seq<Call>, i: nat)
    requires i < |calls| && AllPossible(waiting, calls[i..])
    ensures calls[i].Possible(waiting) && AllPossible(LastOwn(calls[i].Late()), calls[i + 1..])
    ensures var (heard, left) := Looped(LastOwn(calls[i].Late()), calls[i + 1..]);
            Looped(waiting, calls[i..]) == (waiting + heard, left)
  {
    hide LastOwn;
    assert calls[i..][0] == calls[i] && calls[i..][1..] == calls[i + 1..];
  }

  lemma {:induction false} NoCall(waiting: seq<Frame>)
    ensures Looped(waiting, []) == ([], waiting)
  {
  }

  function AllSent(calls: seq<Call>): seq<Frame> {
    if calls == [] then [] else AllOwn(calls[0].Sent()) + AllSent(calls[1..])
  }

  /** At most one frame goes out, and not in answer to one of our own. */
  predicate Sparing(c: Call) {
    |c.Sent()| <= 1 && c.onOwn == []
  }

  lemma {:induction false} NoMoreThanSent(waiting: seq<Frame>, calls: seq<Call>)
    ensures var (heard, left) := Looped(waiting, calls); |heard| + |left| <= |waiting| + |AllSent(calls)|
    decreases |calls|
  {
    if calls != [] {
      NoMoreThanSent(LastOwn(calls[0].Late()), calls[1..]);
    }
  }

  /**
   What a call delivers of the link's own frames: the last one that the call before it sent, of its
   node's, else of the alias helper's, else of those in answer to the wire; and not one that call sent
   while it was delivering an own frame.
   */
  lemma {:induction false} OnlyTheLastComesBack(waiting: seq<Frame>, calls: seq<Call>)
    requires calls != []
    ensures var c, left := calls[|calls| - 1], Looped(waiting, calls).1;
            if c.byNode != [] then left == [c.byNode[|c.byNode| - 1].(internal := true)]
            else if c.byHelper != [] then left == [c.byHelper[|c.byHelper| - 1].(internal := true)]
            else if c.onWire != [] then left == [c.onWire[|c.onWire| - 1].(internal := true)]
            else left == []
    decreases |calls|
  {
    if |calls| > 1 {
      OnlyTheLastComesBack(LastOwn(calls[0].Late()), calls[1..]);
    } else {
      NoCall(LastOwn(calls[0].Late()));
    }
  }

  /**
   What the link promises in a comment, that a frame sent is not overwritten before it is
   delivered, holds exactly when every call sends at most one frame and none while one of the
   link's own is being delivered: then, and only then, all frames come back, in order.
   */
  lemma {:induction false} LoopbackIsFaithful(waiting: seq<Frame>, calls: seq<Call>)
    requires AllPossible(waiting, calls)
    ensures var (heard, left) := Looped(waiting, calls);
            heard + left == waiting + AllSent(calls) <==> forall k | 0 <= k < |calls| :: Sparing(calls[k])
    decreases |calls|
  {
    if calls != [] {
      var c, rest := calls[0], calls[1..];
      var next := LastOwn(c.Late());
      var (heard, left) := Looped(next, rest);
      LoopbackIsFaithful(next, rest);
      NoMoreThanSent(next, rest);
      OneCallIsFaithful(c, waiting, heard, left, AllSent(rest));
      assert forall k | 0 < k < |calls| :: calls[k] == rest[k - 1];
      assert (forall k | 0 <= k < |calls| :: Sparing(calls[k])) <==> Sparing(c) && forall k | 0 <= k < |rest| :: Sparing(rest[k]);
    }
  }

  /** One call, before any others: it loses nothing exactly when it is sparing. */
  lemma {:induction false} OneCallIsFaithful(c: Call, waiting: seq<Frame>, heard: seq<Frame>, left: seq<Frame>, later: seq<Frame>)
    requires |heard| + |left| <= |LastOwn(c.Late())| + |later|
    ensures waiting + heard + left == waiting + (AllOwn(c.Sent()) + later)
       <==> Sparing(c) && heard + left == LastOwn(c.Late()) + later
  {
    hide LastOwn, AllOwn, Sparing;
    SparingKeepsAll(c);
    assert waiting + heard + left == waiting + (heard + left);
    if Sparing(c) {
      SamePrefix(waiting, heard + left, AllOwn(c.Sent()) + later);
    }
  }

  /** All that a call sent is kept, if it is sparing; else less is. */
  lemma {:induction false} SparingKeepsAll(c: Call)
    ensures if Sparing(c) then LastOwn(c.Late()) == AllOwn(c.Sent()) else |LastOwn(c.Late())| < |c.Sent()|
  {
    if Sparing(c) {
      assert c.Sent() == c.Late();
    }
  }

  lemma {:induction false} SamePrefix(a: seq<Frame>, b: seq<Frame>, c: seq<Frame>)
    ensures a + b == a + c <==> b == c
  {
    if a + b == a + c {
      assert b == (a + b)[|a|..] && c == (a + c)[|a|..];
    }
  }

  // ---------------------------------------------------------------- transport-level frames

  datatype Transport =
    | Amd(alias: nat, nid: Nid)
    | Amr(alias: nat)
    | Verified(alias: nat, nid: Nid)

  /** The alias a frame takes away from its node. */
  function Withdrawn(f: Transport): Option<nat> {
    match f
    case Amd(a, n) => if n == ZERO_NID then Some(a) else None
    case Amr(a) => Some(a)
    case Verified(_, _) => None
  }

  /** What the frame tells the cache; an AMD without NodeID is taken for an AMR. */
  function Told(f: Transport): Cache.Call {
    match f
    case Amd(a, n) => if n == ZERO_NID then Cache.Amr(a) else Cache.Amd(a, n)
    case Amr(a) => Cache.Amr(a)
    case Verified(a, n) => Cache.Verified(a, n)
  }

  /** A Verified NodeID is listened to only if it was asked for. */
  predicate Heeded(f: Transport, wanted: NodeId) {
    f.Verified? ==> f.alias != 0 && f.nid == wanted.nid
  }

  /** handleTransportLevel on the cache and on the NodeID that has been asked for. */
  ghost predicate Handled(c: Cache.Cache, wanted: NodeId, f: Transport, c': Cache.Cache, wanted': NodeId) {
    && wanted' == (if f.Verified? && Heeded(f, wanted) then NodeId(ZERO_NID, 0) else wanted)
    && if Heeded(f, wanted) then Cache.Step(c, Told(f), c') else c' == c
  }

  /** Whatever frame the link handles, if its sender keeps to the protocol the cache goes on agreeing with the network. */
  lemma {:induction false} TransportKeepsAgreement(
    c: Cache.Cache, wanted: NodeId, f: Transport, c': Cache.Cache, wanted': NodeId, net: Cache.Network)
    requires Cache.Agrees(c, net) && Handled(c, wanted, f, c', wanted')
    requires Heeded(f, wanted) ==> Cache.Lawful(net, Told(f))
    ensures Cache.Agrees(c', Cache.Moved(net, Told(f)))
  {
    hide Cache.Agrees, Cache.Step;
    if Heeded(f, wanted) {
      Cache.StepKeepsAgreement(c, net, Told(f), c');
    }
  }

  /** What handleTransportLevel does to a handler: a withdrawn alias ends the assembly from it. */
  function HandlerAfter(f: Transport, h: Model.Handler): Model.Handler {
    if Withdrawn(f).Some? then Model.Clear(h, NodeId(ZERO_NID, f.alias)) else h
  }

  /**
   A withdrawn alias, by an AMR or by an AMD without NodeID, is forgotten: the cache has it no more and
   is else as it was, and an assembly is dropped exactly if it is from that alias.
   */
  lemma {:induction false} WithdrawnIsForgotten(
    c: Cache.Cache, wanted: NodeId, f: Transport, c': Cache.Cache, wanted': NodeId, net: Cache.Network, h: Model.Handler)
    requires Cache.Agrees(c, net) && Handled(c, wanted, f, c', wanted')
    requires (f.Amr? || (f.Amd? && f.nid == ZERO_NID)) && f.alias != 0
    requires !h.rxFree ==> h.rxSource.alias != 0
    ensures wanted' == wanted && |c'| == |c|
    ensures forall j | 0 <= j < |c| :: c'[j].id.alias != f.alias && (c[j].id.alias != f.alias ==> c'[j] == c[j])
    ensures HandlerAfter(f, h) == if !h.rxFree && h.rxSource.alias == f.alias then h.(rxFree := true) else h
  {
    Cache.ReleaseIsForgotten(c, net, f.alias, c');
  }

  /**
   An announced binding is learned, and so is a verified one if it was asked for, which ends the
   question; one that was not asked for, or has
   no alias, is ignored. No handler is disturbed by either.
   */
  lemma {:induction false} AnswerIsLearned(
    c: Cache.Cache, wanted: NodeId, f: Transport, c': Cache.Cache, wanted': NodeId, net: Cache.Network, h: Model.Handler)
    requires Cache.Agrees(c, net) && Handled(c, wanted, f, c', wanted')
    requires f.Verified? || (f.Amd? && f.nid != ZERO_NID)
    requires f.Amd? ==> f.alias !in net && f.nid !in net.Values && f.alias != 0
    requires f.Verified? && f.alias != 0 && f.nid == wanted.nid ==> f.alias in net && net[f.alias] == f.nid
    ensures if f.alias != 0 && (f.Amd? || f.nid == wanted.nid) then Cache.Finds(c', f.alias, f.nid) else c' == c
    ensures wanted' == if f.Verified? && f.alias != 0 && f.nid == wanted.nid then NodeId(ZERO_NID, 0) else wanted
    ensures HandlerAfter(f, h) == h
  {
    hide Cache.Agrees, Cache.Step, Cache.Finds;
    if f.alias != 0 && (f.Amd? || f.nid == wanted.nid) {
      Cache.BindingIsLearned(c, net, Told(f), c', f.alias, f.nid);
    }
  }

  /** The alias a datagram without one is sent to is the one its destination has on the network. */
  lemma {:induction false} FragmentGoesToItsNode(c: Cache.Cache, net: Cache.Network, dest: NodeId, alias: nat)
    requires Cache.Agrees(c, net) && dest.alias == 0 && dest.nid != ZERO_NID
    requires Cache.Matching(c, dest) < |c| && alias == c[Cache.Matching(c, dest)].id.alias
    ensures alias in net && net[alias] == dest.nid
    ensures Cache.Agrees(Cache.LookedUpNid(c, dest), net)
  {
    Cache.NidHitIsLive(c, net, dest.nid);
    assert Cache.EntryAgrees(c[Cache.Matching(c, dest)], net);
  }

  /** A fragment is sent to alias 0 exactly if its destination is blank and the cache has an empty entry. */
  lemma {:induction false} HitWithoutAlias(c: Cache.Cache, net: Cache.Network, dest: NodeId)
    requires Cache.Agrees(c, net) && dest.alias == 0
    ensures var k := Cache.Matching(c, dest);
            k < |c| && c[k].id.alias == 0 <==> dest.Blank() && exists j | 0 <= j < |c| :: !Cache.Live(c[j])
  {
    var k := Cache.Matching(c, dest);
    if k < |c| {
      assert Cache.EntryAgrees(c[k], net);
    }
    forall j | 0 <= j < |c| && !Cache.Live(c[j])
      ensures c[j] == Cache.EMPTY_ENTRY
    {
      assert Cache.EntryAgrees(c[j], net);
    }
  }

  // ---------------------------------------------------------------- in place

  class Link {
    var rx: Frame
    const cache: Cache.AliasTable
    var wanted: NodeId
    var wantedSince: nat
    const handlers: seq<DatagramPort>

    ghost predicate Valid()
      reads this, cache, handlers
    {
      && cache.Valid()
      && (forall i | 0 <= i < |handlers| :: handlers[i].Valid())
      && forall i, j | 0 <= i < j < |handlers| :: handlers[i] != handlers[j]
    }

    function Waiting(): seq<Frame>
      reads `rx
    {
      if rx.internal then [rx] else []
    }

    constructor (cache: Cache.AliasTable, handlers: seq<DatagramPort>)
      requires cache.Valid() && forall i | 0 <= i < |handlers| :: handlers[i].Valid()
      requires forall i, j | 0 <= i < j < |handlers| :: handlers[i] != handlers[j]
      ensures Valid() && Waiting() == [] && wanted.Blank()
      ensures this.cache == cache && this.handlers == handlers
    {
      rx := Frame(Other, 0, false);
      this.cache, this.handlers := cache, handlers;
      wanted, wantedSince := NodeId(ZERO_NID, 0), 0;
    }

    /** A frame the bus has taken is copied into the receive buffer, whatever is there. */
    method SendMessage(f: Frame)
      modifies `rx
      ensures rx == Own(f)
    {
      rx := f;
      rx := rx.(internal := true);
    }

    method SendAll(fs: seq<Frame>)
      modifies `rx
      ensures fs == [] ==> rx == old(rx)
      ensures fs != [] ==> [rx] == LastOwn(fs)
    {
      var i := 0;
      while i < |fs|
        invariant i <= |fs| && rx == if i == 0 then old(rx) else Own(fs[i - 1])
      {
        SendMessage(fs[i]);
        i := i + 1;
      }
    }

    /** update(): first the own frame that waits, then one from the wire, then the helper's and a node's turn. */
    method Update(c: Call) returns (own: seq<Frame>, foreign: Option<Frame>)
      requires c.Possible(Waiting())
      modifies `rx
      ensures own == old(Waiting()) && Waiting() == LastOwn(c.Late())
      ensures foreign == if c.wire.Some? then Some(c.wire.value.(internal := false)) else None
    {
      own, foreign := [], None;
      if rx.internal {
        own := [rx];
        SendAll(c.onOwn);
        rx := rx.(internal := false);
      }
      if c.wire.Some? {
        rx := c.wire.value;
        rx := rx.(internal := false);
        foreign := Some(rx);
        SendAll(c.onWire);
      }
      SendAll(c.byHelper);
      SendAll(c.byNode);
    }

    /** The sketch's loop. */
    method Loop(calls: seq<Call>) returns (own: seq<Frame>)
      requires AllPossible(Waiting(), calls)
      modifies `rx
      ensures own == Looped(old(Waiting()), calls).0 && Waiting() == Looped(old(Waiting()), calls).1
    {
      hide LastOwn, Looped, AllPossible;
      own := [];
      var i := 0;
      assert calls[0..] == calls;
      while i < |calls|
        invariant i <= |calls| && AllPossible(Waiting(), calls[i..])
        invariant own + Looped(Waiting(), calls[i..]).0 == Looped(old(Waiting()), calls).0
        invariant Looped(Waiting(), calls[i..]).1 == Looped(old(Waiting()), calls).1
      {
        OneCall(Waiting(), calls, i);
        var heard, foreign := Update(calls[i]);
        assert own + (heard + Looped(Waiting(), calls[i + 1..]).0) == own + heard + Looped(Waiting(), calls[i + 1..]).0;
        own := own + heard;
        i := i + 1;
      }
      assert calls[i..] == [] && own + [] == own;
      NoCall(Waiting());
    }

    /** Every handler forgets what it was getting from this node. */
    method ClearBuffers(id: NodeId)
      requires Valid()
      modifies handlers
      ensures Valid()
      ensures forall i | 0 <= i < |handlers| :: handlers[i].View() == Model.Clear(old(handlers[i].View()), id)
    {
      hide Model.Clear, DatagramPort.View;
      var i := 0;
      while i < |handlers|
        invariant i <= |handlers| && Valid()
        invariant forall j | 0 <= j < i :: handlers[j].View() == Model.Clear(old(handlers[j].View()), id)
        invariant forall j | i <= j < |handlers| :: handlers[j].View() == old(handlers[j].View())
      {
        handlers[i].ClearBuffer(id);
        i := i + 1;
      }
    }

    method HandleTransport(f: Transport) returns (handled: bool)
      requires Valid()
      modifies `wanted, cache.nids, cache.uses, handlers
      ensures Valid() && Handled(old(cache.View()), old(wanted), f, cache.View(), wanted)
      ensures handled <==> !(f.Verified? && f.alias == 0)
      ensures forall i | 0 <= i < |handlers| :: handlers[i].View() == HandlerAfter(f, old(handlers[i].View()))
    {
      hide Model.Clear, Cache.Added, Cache.Removed, DatagramPort.View, Cache.AliasTable.View;
      match f {
        case Verified(a, n) =>
          if a == 0 {
            return false;
          }
          if n == wanted.nid {
            cache.Add(NodeId(n, a));
            wanted := NodeId(ZERO_NID, 0);
          }
        case Amr(a) =>
          var found := cache.RemoveByAlias(a);
          ClearBuffers(NodeId(ZERO_NID, a));
        case Amd(a, n) =>
          if n != ZERO_NID {
            cache.Add(NodeId(n, a));
          } else {
            var found := cache.RemoveByAlias(a);
            ClearBuffers(NodeId(ZERO_NID, a));
          }
      }
      return true;
    }

    /** Ask who has a NodeID; one question at a time, unless the last one is two seconds old. */
    method SendVerifyNid(request: NodeId, now: nat, accepted: bool) returns (asked: bool)
      modifies `wanted, `wantedSince
      ensures asked == (accepted && (old(wanted).Blank() || (now - old(wantedSince)) % 0x1_0000_0000 >= 2000))
      ensures (wanted, wantedSince) == if asked then (request, now) else old((wanted, wantedSince))
    {
      if !wanted.Blank() && (now - wantedSince) % 0x1_0000_0000 < VERIFY_WAIT {
        return false;
      }
      if !accepted {
        return false;
      }
      wanted := request;
      wantedSince := now;
      return true;
    }

    /** How sendDatagramFragment finds a missing alias: any hit will do, one on an entry without an alias as well. */
    method LookUp(dest: NodeId) returns (alias: Option<nat>)
      requires Valid()
      modifies cache.uses
      ensures Valid() && cache.View() == Cache.LookedUpNid(old(cache.View()), dest)
      ensures alias == var c := old(cache.View()); var k := Cache.Matching(c, dest);
                       if k < |c| then Some(c[k].id.alias) else None
    {
      alias := cache.GetAliasByNid(dest);
    }
  }
}
