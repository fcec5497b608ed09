/**
 The alias helper as the library has it: a fixed array of slot records that point to
 node identifier objects, rewritten in place one call at a time.
 */
module AliasHelper {
  import opened NodeIds
  import opened BusFrames
  import opened AliasGenerator
  import opened AliasModel

  class NodeRef {
    const nid: Nid
    var alias: nat
    var initialized: bool

    constructor (nid: Nid)
      ensures this.nid == nid && alias == 0 && !initialized
    {
      this.nid := nid;
      alias, initialized := 0, false;
    }

    function Value(): Node
      reads this
    {
      Node(nid, alias, initialized)
    }
  }

  /** private_nodeID_t */
  datatype Cell = Cell(node: NodeRef?, mode: Mode, alias: nat, timeStamp: nat, words: Words)

  function SlotOf(c: Cell): Slot
    reads c.node
  {
    Slot(if c.node == null then None else Some(c.node.Value()), c.mode, c.alias, c.timeStamp, c.words)
  }

  class Helper {
    const nodes: array<Cell>
    var index: nat

    ghost predicate Valid()
      reads this, nodes
    {
      index < nodes.Length &&
      forall i, j | 0 <= i < j < nodes.Length :: nodes[i].node != null ==> nodes[i].node != nodes[j].node
    }

    ghost function Refs(): (r: set<NodeRef>)
      reads nodes
      ensures forall i | 0 <= i < nodes.Length && nodes[i].node != null :: nodes[i].node in r
    {
      set i | 0 <= i < nodes.Length && nodes[i].node != null :: nodes[i].node
    }

    ghost function Slots(): (s: seq<Slot>)
      reads nodes, Refs()
      ensures |s| == nodes.Length && forall i | 0 <= i < |s| :: s[i] == SlotOf(nodes[i])
    {
      seq(nodes.Length, i requires 0 <= i < nodes.Length reads nodes, Refs() => SlotOf(nodes[i]))
    }

    constructor (size: nat)
      requires size > 0
      ensures Valid() && fresh(nodes) && nodes.Length == size && index == 0
      ensures forall i | 0 <= i < size :: Slots()[i] == FREE_SLOT
    {
      index := 0;
      nodes := new Cell[size](_ => Cell(null, Empty, 0, 0, Words(0, 0)));
    }

    /** The state of the slot is set before the send and taken back when the send is refused. */
    method Attempt(i: nat, next: Mode, c: Content, accepted: bool) returns (sent: Option<Frame>)
      requires Valid() && i < nodes.Length && nodes[i].node != null
      modifies nodes
      ensures nodes[i] == old(nodes[i]).(mode := if accepted then next else old(nodes[i]).mode)
      ensures forall j | 0 <= j < nodes.Length && j != i :: nodes[j] == old(nodes[j])
      ensures sent == if accepted then Some(Frame(c, nodes[i].node.alias, true)) else None
    {
      var before := nodes[i].mode;
      nodes[i] := nodes[i].(mode := next);
      sent := Send(c, nodes[i].node, accepted);
      if !accepted {
        nodes[i] := nodes[i].(mode := before);
      }
    }

    method Update(now: nat, accepted: bool) returns (sent: Option<Frame>)
      requires Valid()
      requires NeedsNode(nodes[index].mode) ==> nodes[index].node != null
      modifies this`index, nodes, nodes[index].node
      ensures Valid() && index == (old(index) + 1) % nodes.Length
      ensures Slots() == old(Slots()[index := Turned(Slots()[index], now, accepted)])
      ensures sent == old(Sent(Slots()[index], now, accepted))
    {
      hide Turned, Sent;
      sent := Serve(index, now, accepted);
      index := (index + 1) % nodes.Length;
    }

    /** The switch over the state of one slot. */
    method Serve(i: nat, now: nat, accepted: bool) returns (sent: Option<Frame>)
      requires Valid() && i < nodes.Length
      requires NeedsNode(nodes[i].mode) ==> nodes[i].node != null
      modifies nodes, nodes[i].node
      ensures SlotOf(nodes[i]) == Turned(old(SlotOf(nodes[i])), now, accepted)
      ensures sent == Sent(old(SlotOf(nodes[i])), now, accepted)
      ensures nodes[i].node == old(nodes[i].node)
      ensures forall j | 0 <= j < nodes.Length && j != i :: nodes[j] == old(nodes[j])
    {
      sent := None;
      match nodes[i].mode {
        case Empty =>
        case Holding =>
        case Ready =>
        case Releasing => sent := Attempt(i, Cid1, AmrFrame, accepted);
        case Cid1 =>
          if nodes[i].node.alias != nodes[i].alias {
            nodes[i].node.alias := nodes[i].alias;
          }
          sent := Attempt(i, Cid2, CidFrame(1), accepted);
        case Cid2 => sent := Attempt(i, Cid3, CidFrame(2), accepted);
        case Cid3 => sent := Attempt(i, Cid4, CidFrame(3), accepted);
        case Cid4 =>
          nodes[i] := nodes[i].(timeStamp := now);
          sent := Attempt(i, Rid, CidFrame(4), accepted);
        case Rid =>
          if Elapsed(now, nodes[i].timeStamp) >= RID_TIME_WAIT {
            sent := Attempt(i, Amd, RidFrame, accepted);
          }
        case ResendRid => sent := Attempt(i, Ready, RidFrame, accepted);
        case SendVerifiedNid => sent := Attempt(i, Ready, VerifiedNid, accepted);
        case Amd => sent := Attempt(i, InitComplete, AmdFrame, accepted);
        case InitComplete =>
          sent := Attempt(i, Ready, InitializationComplete, accepted);
          if accepted {
            nodes[i].node.initialized := true;
          }
      }
    }

    /** The link's send: the frame goes out under the node's alias and comes back as internal. */
    method Send(c: Content, node: NodeRef, accepted: bool) returns (sent: Option<Frame>)
      ensures sent == if accepted then Some(Frame(c, node.alias, true)) else None
    {
      sent := if accepted then Some(Frame(c, node.alias, true)) else None;
    }

    /** reAllocateAlias on slot i. */
    method Reallocate(i: nat)
      requires Valid() && i < nodes.Length
      requires RetryEnds(nodes[i].words, nodes[i].alias)
      modifies nodes, nodes[i].node
      ensures Valid() && Reallocated(old(SlotOf(nodes[i])), SlotOf(nodes[i]))
      ensures forall j | 0 <= j < nodes.Length && j != i :: nodes[j] == old(nodes[j])
      ensures nodes[i].node == old(nodes[i].node)
    {
      if nodes[i].node != null {
        nodes[i].node.initialized := false;
      }
      var words, alias := Regenerate(nodes[i].words, nodes[i].alias);
      nodes[i] := nodes[i].(words := words, alias := alias);
      nodes[i] := nodes[i].(mode := Releasing);
    }

    method CheckMessage(f: Frame)
      requires Valid()
      requires forall i | 0 <= i < nodes.Length && Conflicts(Slots()[i], f) :: RetryEnds(nodes[i].words, nodes[i].alias)
      modifies nodes, Refs()
      ensures Valid() && AllChecked(old(Slots()), f, Slots())
    {
      ghost var before := Slots();
      ghost var refs := Refs();
      var i := 0;
      while i < nodes.Length
        invariant i <= nodes.Length && Valid()
        invariant forall j | 0 <= j < nodes.Length :: nodes[j].node == old(nodes[j].node)
        invariant forall j | 0 <= j < i :: Checked(before[j], f, SlotOf(nodes[j]))
        invariant forall j | i <= j < nodes.Length :: SlotOf(nodes[j]) == before[j]
      {
        CheckSlot(i, f);
        i := i + 1;
      }
    }

    /** One round of checkMessage's loop. */
    method CheckSlot(i: nat, f: Frame)
      requires Valid() && i < nodes.Length
      requires Conflicts(SlotOf(nodes[i]), f) ==> RetryEnds(nodes[i].words, nodes[i].alias)
      modifies nodes, nodes[i].node
      ensures Valid() && Checked(old(SlotOf(nodes[i])), f, SlotOf(nodes[i]))
      ensures forall j | 0 <= j < nodes.Length && j != i :: nodes[j] == old(nodes[j])
      ensures nodes[i].node == old(nodes[i].node)
    {
      if f.source != nodes[i].alias {
        return;
      }
      match nodes[i].mode {
        case Empty =>
          nodes[i] := nodes[i].(alias := 0);
        case Cid1 =>
          if !(f.internal && f.content.AmrFrame?) && !f.content.CidFrame? {
            Reallocate(i);
          }
        case Cid2 => Negotiate(i, f);
        case Cid3 => Negotiate(i, f);
        case Cid4 => Negotiate(i, f);
        case Rid => Negotiate(i, f);
        case Amd =>
          if (!f.internal && !f.content.CidFrame?) || (f.internal && !f.content.CidFrame? && !f.content.RidFrame?) {
            Reallocate(i);
          }
        case Holding => Defend(i, f);
        case InitComplete => Defend(i, f);
        case Ready => Defend(i, f);
        case Releasing =>
        case ResendRid =>
        case SendVerifiedNid =>
      }
    }

    /** The case the four CID states and RID share. */
    method Negotiate(i: nat, f: Frame)
      requires Valid() && i < nodes.Length && f.source == nodes[i].alias && nodes[i].mode in {Cid2, Cid3, Cid4, Rid}
      requires Conflicts(SlotOf(nodes[i]), f) ==> RetryEnds(nodes[i].words, nodes[i].alias)
      modifies nodes, nodes[i].node
      ensures Valid() && Checked(old(SlotOf(nodes[i])), f, SlotOf(nodes[i]))
      ensures forall j | 0 <= j < nodes.Length && j != i :: nodes[j] == old(nodes[j])
      ensures nodes[i].node == old(nodes[i].node)
    {
      if !f.content.CidFrame? {
        Reallocate(i);
      }
    }

    /** The case of the settled states. */
    method Defend(i: nat, f: Frame)
      requires Valid() && i < nodes.Length && f.source == nodes[i].alias && Settled(nodes[i].mode)
      requires Conflicts(SlotOf(nodes[i]), f) ==> RetryEnds(nodes[i].words, nodes[i].alias)
      modifies nodes, nodes[i].node
      ensures Valid() && Checked(old(SlotOf(nodes[i])), f, SlotOf(nodes[i]))
      ensures forall j | 0 <= j < nodes.Length && j != i :: nodes[j] == old(nodes[j])
      ensures nodes[i].node == old(nodes[i].node)
    {
      if f.content.CidFrame? {
        nodes[i] := nodes[i].(mode := ResendRid);
      } else if !f.internal {
        Reallocate(i);
      }
    }

    method VerifyNid(r: Request)
      requires Valid()
      modifies nodes
      ensures Valid() && Slots() == old(AllVerified(Slots(), r))
    {
      var i := 0;
      while i < nodes.Length
        invariant i <= nodes.Length && Valid()
        invariant forall j | 0 <= j < nodes.Length :: nodes[j].node == old(nodes[j].node)
        invariant forall j | 0 <= j < i :: SlotOf(nodes[j]) == Verified(old(Slots()[j]), r)
        invariant forall j | i <= j < nodes.Length :: nodes[j] == old(nodes[j])
      {
        var c := nodes[i];
        if c.node != null && c.node.initialized {
          match r {
            case Everyone =>
              if c.alias != 0 {
                nodes[i] := c.(mode := SendVerifiedNid);
              }
            case Named(nid) =>
              if c.alias != 0 && c.node.nid == nid {
                nodes[i] := c.(mode := SendVerifiedNid);
              }
            case Addressed(alias) =>
              if c.alias == alias {
                nodes[i] := c.(mode := SendVerifiedNid);
              }
          }
        }
        i := i + 1;
      }
    }

    /** Index of the first slot in the given mode, or the length. */
    method FirstIn(m: Mode) returns (k: nat)
      requires Valid()
      ensures k == Find(Slots(), (s: Slot) => s.mode == m, 0)
    {
      k := 0;
      while k < nodes.Length && nodes[k].mode != m
        invariant k <= nodes.Length
        invariant forall j | 0 <= j < k :: nodes[j].mode != m
      {
        k := k + 1;
      }
    }

    method KnowsNid(nid: Nid) returns (known: bool)
      requires Valid()
      ensures known == Knows(Slots(), nid)
    {
      var i := 0;
      while i < nodes.Length
        invariant i <= nodes.Length
        invariant forall j | 0 <= j < i :: !Holds(Slots()[j], nid)
      {
        if nodes[i].node != null && nodes[i].node.nid == nid {
          assert Holds(Slots()[i], nid);
          return true;
        }
        i := i + 1;
      }
      return false;
    }

    method Occupy(k: nat, node: NodeRef)
      requires Valid() && k < nodes.Length && nodes[k].mode in {Holding, Empty} && !Knows(Slots(), node.nid)
      modifies nodes, node
      ensures Valid() && Slots() == old(Slots()[k := Occupied(Slots()[k], node.Value())])
    {
      Untouched(node);
      nodes[k] := nodes[k].(node := node);
      node.initialized := false;
      if nodes[k].alias != 0 {
        node.alias := nodes[k].alias;
        nodes[k] := nodes[k].(mode := Amd);
      } else {
        nodes[k] := nodes[k].(alias := SeedAlias(node.nid));
        nodes[k] := nodes[k].(mode := Cid1);
      }
    }

    /** A held alias if there is one, else an empty slot, else the length. */
    method FindRoom() returns (k: nat)
      requires Valid()
      ensures k == Vacancy(Slots())
    {
      k := FirstIn(Holding);
      if k == nodes.Length {
        k := FirstIn(Empty);
      }
    }

    /** False when there is no room; the library then stops for good. */
    method AllocateAlias(node: NodeRef) returns (ok: bool)
      requires Valid()
      modifies nodes, node
      ensures Valid()
      ensures ok == old(Knows(Slots(), node.nid) || Vacancy(Slots()) < nodes.Length)
      ensures Slots() == old(if Knows(Slots(), node.nid) || Vacancy(Slots()) == nodes.Length then Slots()
                             else Slots()[Vacancy(Slots()) := Occupied(Slots()[Vacancy(Slots())], node.Value())])
    {
      hide Occupied, SeedAlias, Vacancy, Find;
      ghost var before, n := Slots(), node.Value();
      var known := KnowsNid(node.nid);
      if known {
        return true;
      }
      var k := FindRoom();
      assert Slots() == before && k == Vacancy(before);
      if k == nodes.Length {
        Untouched(node);
        node.initialized := false;
        assert Slots() == before;
        return false;
      }
      Occupy(k, node);
      assert Slots() == before[k := Occupied(before[k], n)];
      return true;
    }

    lemma {:induction false} Untouched(node: NodeRef)
      requires Valid() && !Knows(Slots(), node.nid)
      ensures forall j | 0 <= j < nodes.Length :: nodes[j].node != node
    {
      forall j | 0 <= j < nodes.Length
        ensures nodes[j].node != node
      {
        assert !Holds(Slots()[j], node.nid);
      }
    }

    method ReleaseAlias(id: NodeId) returns (found: bool)
      requires Valid()
      modifies nodes, Refs()
      ensures Valid()
      ensures found == old(Find(Slots(), (s: Slot) => Answers(s, id), 0) < nodes.Length)
      ensures Slots() == old(var k := Find(Slots(), (s: Slot) => Answers(s, id), 0);
                             if k == nodes.Length then Slots() else Slots()[k := Released(Slots()[k])])
    {
      ghost var before := Slots();
      var i := 0;
      while i < nodes.Length
        invariant i <= nodes.Length
        invariant forall j | 0 <= j < i :: !Answers(before[j], id)
      {
        var node := nodes[i].node;
        if node != null && id.Matches(NodeId(node.nid, node.alias)) {
          assert Answers(before[i], id);
          nodes[i] := nodes[i].(mode := Releasing);
          node.initialized := false;
          return true;
        }
        i := i + 1;
      }
      return false;
    }
  }
}
