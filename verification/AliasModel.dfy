/**
 The alias helper's slot table on values: what one call of update, checkMessage,
 verifyNID, allocateAlias and releaseAlias makes of it.
 */
module AliasModel {
  import opened NodeIds
  import opened BusFrames
  import opened AliasGenerator

  datatype Mode =
    | Empty | Holding
    | Cid1 | Cid2 | Cid3 | Cid4 | Rid
    | Amd | InitComplete
    | Releasing | ResendRid | SendVerifiedNid | Ready

  /** The node identifier object a slot points to. */
  datatype Node = Node(nid: Nid, alias: nat, initialized: bool)

  datatype Slot = Slot(node: Option<Node>, mode: Mode, alias: nat, timeStamp: nat, words: Words)

  datatype Table = Table(slots: seq<Slot>, index: nat)

  const RID_TIME_WAIT := 500
  const CLOCK_RANGE := 0x1_0000_0000

  const FREE_SLOT := Slot(None, Empty, 0, 0, Words(0, 0))

  // ---------------------------------------------------------------- update()

  /** A slot in one of these modes uses its node when its turn comes. */
  predicate NeedsNode(m: Mode) {
    m !in {Empty, Holding, Ready}
  }

  function Elapsed(now: nat, stamp: nat): nat {
    (now - stamp) % CLOCK_RANGE
  }

  /** The frame a slot sends on its turn, if the bus takes it. */
  function Speech(s: Slot, now: nat): Option<Content> {
    match s.mode
    case Releasing => Some(AmrFrame)
    case Cid1 => Some(CidFrame(1))
    case Cid2 => Some(CidFrame(2))
    case Cid3 => Some(CidFrame(3))
    case Cid4 => Some(CidFrame(4))
    case Rid => if Elapsed(now, s.timeStamp) >= RID_TIME_WAIT then Some(RidFrame) else None
    case ResendRid => Some(RidFrame)
    case SendVerifiedNid => Some(VerifiedNid)
    case Amd => Some(AmdFrame)
    case InitComplete => Some(InitializationComplete)
    case _ => None
  }

  function ModeAfter(m: Mode): Mode {
    match m
    case Releasing => Cid1
    case Cid1 => Cid2
    case Cid2 => Cid3
    case Cid3 => Cid4
    case Cid4 => Rid
    case Rid => Amd
    case Amd => InitComplete
    case InitComplete => Ready
    case ResendRid => Ready
    case SendVerifiedNid => Ready
    case _ => m
  }

  /** What a turn changes whether or not the bus takes the frame. */
  function Prepared(s: Slot, now: nat): Slot
    requires NeedsNode(s.mode) ==> s.node.Some?
  {
    if s.mode.Cid1? then s.(node := Some(s.node.value.(alias := s.alias)))
    else if s.mode.Cid4? then s.(timeStamp := now)
    else s
  }

  /** One slot's turn of update(): the slot afterwards. */
  function Turned(s: Slot, now: nat, accepted: bool): Slot
    requires NeedsNode(s.mode) ==> s.node.Some?
  {
    var p := Prepared(s, now);
    if Speech(s, now).None? || !accepted then p
    else if s.mode.InitComplete? then
      p.(mode := ModeAfter(s.mode), node := Some(p.node.value.(initialized := true)))
    else p.(mode := ModeAfter(s.mode))
  }

  /** One slot's turn of update(): the frame that goes out. */
  function Sent(s: Slot, now: nat, accepted: bool): Option<Frame>
    requires NeedsNode(s.mode) ==> s.node.Some?
  {
    var c := Speech(s, now);
    if c.None? || !accepted then None
    else Some(Frame(c.value, Prepared(s, now).node.value.alias, true))
  }

  // ---------------------------------------------------------------- checkMessage()

  predicate Negotiating(m: Mode) {
    m in {Cid1, Cid2, Cid3, Cid4, Rid}
  }

  predicate Settled(m: Mode) {
    m in {Holding, InitComplete, Ready}
  }

  /** The frame shows that someone else uses this slot's alias. */
  predicate Conflicts(s: Slot, f: Frame) {
    s.alias == f.source && !f.content.CidFrame? &&
    (|| (Negotiating(s.mode) && !(s.mode.Cid1? && f.internal && f.content.AmrFrame?))
     || (s.mode.Amd? && !(f.internal && f.content.RidFrame?))
     || (Settled(s.mode) && !f.internal))
  }

  /** Someone else starts to claim this slot's alias. */
  predicate Challenged(s: Slot, f: Frame) {
    s.alias == f.source && f.content.CidFrame? && Settled(s.mode)
  }

  /** reAllocateAlias: a fresh alias, and the negotiation starts again. */
  ghost predicate Reallocated(s: Slot, t: Slot) {
    Regenerates(s.words, s.alias, t.words) &&
    t == Slot(Uninitialized(s.node), Releasing, AliasOf(t.words), s.timeStamp, t.words)
  }

  function Uninitialized(n: Option<Node>): Option<Node> {
    if n.None? then None else Some(n.value.(initialized := false))
  }

  /** One slot before and after checkMessage(f). */
  ghost predicate Checked(s: Slot, f: Frame, t: Slot) {
    if Conflicts(s, f) then Reallocated(s, t)
    else if Challenged(s, f) then t == s.(mode := ResendRid)
    else if s.mode.Empty? && s.alias == f.source then t == s.(alias := 0)
    else t == s
  }

  ghost predicate AllChecked(s: seq<Slot>, f: Frame, t: seq<Slot>) {
    |s| == |t| && forall i | 0 <= i < |s| :: Checked(s[i], f, t[i])
  }

  // ---------------------------------------------------------------- verifyNID()

  datatype Request = Everyone | Named(nid: Nid) | Addressed(alias: nat)

  predicate Asked(s: Slot, r: Request) {
    s.node.Some? && s.node.value.initialized &&
    match r
    case Everyone => s.alias != 0
    case Named(nid) => s.alias != 0 && s.node.value.nid == nid
    case Addressed(a) => s.alias == a
  }

  function Verified(s: Slot, r: Request): Slot {
    if Asked(s, r) then s.(mode := SendVerifiedNid) else s
  }

  function AllVerified(s: seq<Slot>, r: Request): (t: seq<Slot>)
    ensures |t| == |s| && forall i | 0 <= i < |s| :: t[i] == Verified(s[i], r)
  {
    seq(|s|, i requires 0 <= i < |s| => Verified(s[i], r))
  }

  // ---------------------------------------------------------------- allocateAlias(), releaseAlias()

  /** The least index from i on whose slot satisfies p, or the length. */
  function Find(s: seq<Slot>, p: Slot -> bool, i: nat): (k: nat)
    requires i <= |s|
    ensures i <= k <= |s|
    ensures forall j | i <= j < k :: !p(s[j])
    ensures k < |s| ==> p(s[k])
    decreases |s| - i
  {
    if i == |s| || p(s[i]) then i else Find(s, p, i + 1)
  }

  predicate Holds(s: Slot, nid: Nid) {
    s.node.Some? && s.node.value.nid == nid
  }

  predicate Knows(s: seq<Slot>, nid: Nid) {
    exists i :: 0 <= i < |s| && Holds(s[i], nid)
  }

  /** The slot allocateAlias picks: a holding one first, else an empty one, else none. */
  function Vacancy(s: seq<Slot>): (k: nat)
    ensures k <= |s|
    ensures k < |s| ==> s[k].mode.Holding? || s[k].mode.Empty?
  {
    var h := Find(s, (x: Slot) => x.mode.Holding?, 0);
    if h < |s| then h else Find(s, (x: Slot) => x.mode.Empty?, 0)
  }

  function Occupied(s: Slot, n: Node): Slot {
    var u := n.(initialized := false);
    if s.alias != 0 then s.(node := Some(u.(alias := s.alias)), mode := Amd)
    else s.(node := Some(u), alias := SeedAlias(n.nid), mode := Cid1)
  }

  /** releaseAlias looks for the library's ==, which trusts two non-zero aliases. */
  predicate Answers(s: Slot, id: NodeId) {
    s.node.Some? && id.Matches(NodeId(s.node.value.nid, s.node.value.alias))
  }

  function Released(s: Slot): Slot {
    s.(mode := Releasing, node := Uninitialized(s.node))
  }
}
