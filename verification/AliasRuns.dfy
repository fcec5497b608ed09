/**
 Whole runs of the alias helper: every call of update (with the frame it sends looped
 back through checkMessage before the next call), every foreign or internal frame,
 every request and every allocation, in any order.
 */
module AliasRuns {
  import Bits
  import opened NodeIds
  import opened BusFrames
  import opened AliasGenerator
  import opened AliasModel

  datatype Action =
    | Turn(time: nat, accepted: bool)
    | Hear(frame: Frame)
    | Verify(request: Request)
    | Allocate(node: Node)
    | Release(id: NodeId)

  datatype Entry = Spoken(content: Content, alias: nat, time: nat) | Heard(frame: Frame)

  /**
   The table, true time, and for each slot the log since its last (re)allocation or release:
   what update() sent for it, and the foreign non-CID frames delivered under its alias.
   */
  datatype World = World(table: Table, clock: nat, logs: seq<seq<Entry>>)

  function Millis(time: nat): nat {
    time % CLOCK_RANGE
  }

  predicate WellFormed(w: World) {
    |w.logs| == |w.table.slots| && w.table.index < |w.table.slots|
  }

  function LogAfterFrame(log: seq<Entry>, s: Slot, f: Frame): seq<Entry> {
    if Conflicts(s, f) then []
    else if s.alias == f.source && !f.internal && !f.content.CidFrame? then log + [Heard(f)]
    else log
  }

  /** Delivery of one frame to every slot. */
  ghost predicate Delivered(w: World, f: Frame, w': World) {
    && |w'.logs| == |w.logs| == |w.table.slots|
    && AllChecked(w.table.slots, f, w'.table.slots)
    && w'.table.index == w.table.index && w'.clock == w.clock
    && forall i | 0 <= i < |w.logs| :: w'.logs[i] == LogAfterFrame(w.logs[i], w.table.slots[i], f)
  }

  /** update() before its frame comes back: the slot at the index has its turn. */
  function Took(w: World, time: nat, accepted: bool): World
    requires WellFormed(w)
    requires var s := w.table.slots[w.table.index]; NeedsNode(s.mode) ==> s.node.Some?
  {
    var k := w.table.index;
    var s := w.table.slots[k];
    var sent := Sent(s, Millis(time), accepted);
    World(Table(w.table.slots[k := Turned(s, Millis(time), accepted)], (k + 1) % |w.table.slots|),
          time,
          if sent.None? then w.logs
          else w.logs[k := w.logs[k] + [Spoken(sent.value.content, sent.value.source, time)]])
  }

  function SentBy(w: World, time: nat, accepted: bool): Option<Frame>
    requires WellFormed(w)
    requires var s := w.table.slots[w.table.index]; NeedsNode(s.mode) ==> s.node.Some?
  {
    Sent(w.table.slots[w.table.index], Millis(time), accepted)
  }

  function Replaced(w: World, k: nat, s: Slot): World
    requires WellFormed(w) && k < |w.table.slots|
  {
    w.(table := w.table.(slots := w.table.slots[k := s]), logs := w.logs[k := []])
  }

  ghost predicate Step(w: World, a: Action, w': World) {
    WellFormed(w) &&
    var slots := w.table.slots;
    match a
    case Turn(time, accepted) =>
      && w.clock <= time
      && (NeedsNode(slots[w.table.index].mode) ==> slots[w.table.index].node.Some?)
      && (match SentBy(w, time, accepted)
          case None => w' == Took(w, time, accepted)
          case Some(f) => Delivered(Took(w, time, accepted), f, w'))
    case Hear(f) => Delivered(w, f, w')
    case Verify(r) => w' == w.(table := w.table.(slots := AllVerified(slots, r)))
    case Allocate(n) =>
      if Knows(slots, n.nid) || Vacancy(slots) == |slots| then w' == w
      else w' == Replaced(w, Vacancy(slots), Occupied(slots[Vacancy(slots)], n))
    case Release(id) =>
      var k := Find(slots, (s: Slot) => Answers(s, id), 0);
      if k == |slots| then w' == w else w' == Replaced(w, k, Released(slots[k]))
  }

  ghost predicate Run(ws: seq<World>, acts: seq<Action>) {
    |ws| == |acts| + 1 && forall k | 0 <= k < |acts| :: Step(ws[k], acts[k], ws[k + 1])
  }

  /** The helper as constructed: every slot free, nothing logged. */
  predicate Initial(w: World) {
    WellFormed(w) && w.table.index == 0 &&
    forall i | 0 <= i < |w.logs| :: FreshSlot(w.table.slots[i]) && w.logs[i] == []
  }

  predicate FreshSlot(s: Slot) {
    s.node.None? && s.mode.Empty? && s.alias == 0
  }

  // ---------------------------------------------------------------- what every slot keeps

  predicate Permitted(m: Mode) {
    m in {Ready, ResendRid, SendVerifiedNid}
  }

  /** From RID on, the slot owns its alias on the bus. */
  predicate PastRid(m: Mode) {
    m in {Amd, InitComplete, Ready, ResendRid, SendVerifiedNid}
  }

  predicate SlotOk(s: Slot) {
    && s.alias < 0x1000
    && (s.mode.Empty? <==> s.alias == 0)
    && (s.mode.Empty? <==> s.node.None?)
    && !s.mode.Holding?
    && (s.node.Some? && s.node.value.initialized ==> Permitted(s.mode))
    && (s.mode.SendVerifiedNid? ==> s.node.value.initialized)
    && (PastRid(s.mode) || s.mode in {Cid2, Cid3, Cid4, Rid} ==> s.node.value.alias == s.alias)
  }

  predicate DistinctNodes(s: seq<Slot>) {
    forall i, j | 0 <= i < j < |s| && s[i].node.Some? && s[j].node.Some? ::
      s[i].node.value.nid != s[j].node.value.nid
  }

  predicate TableOk(w: World) {
    WellFormed(w) && DistinctNodes(w.table.slots) &&
    forall i | 0 <= i < |w.table.slots| :: SlotOk(w.table.slots[i])
  }

  lemma {:induction false} TurnKeepsSlot(s: Slot, now: nat, accepted: bool)
    requires SlotOk(s)
    ensures SlotOk(Turned(s, now, accepted))
    ensures Turned(s, now, accepted).mode.Empty? <==> s.mode.Empty?
    ensures SameNode(s, Turned(s, now, accepted))
  {
  }

  predicate SameNode(s: Slot, t: Slot) {
    s.node.Some? == t.node.Some? && (s.node.Some? ==> s.node.value.nid == t.node.value.nid)
  }

  lemma {:induction false} CheckKeepsSlot(s: Slot, f: Frame, t: Slot)
    requires SlotOk(s) && Checked(s, f, t)
    ensures SlotOk(t) && SameNode(s, t)
    ensures t.mode.Empty? <==> s.mode.Empty?
  {
    if Conflicts(s, f) {
      NewAlias(s.words, s.alias, t.words, t.words);
    }
  }

  lemma {:induction false} SeedIsAlias(n: Nid)
    ensures 0 < SeedAlias(n) < 0x1000
  {
    hide AliasOf;
    AliasBelow(SeedWords(n));
  }

  /** A slot that was occupied stays occupied, by the same node. */
  predicate Inherits(s: seq<Slot>, t: seq<Slot>) {
    |s| == |t| && forall i | 0 <= i < |s| && s[i].node.Some? :: SameNode(s[i], t[i])
  }

  lemma {:induction false} DeliveryKeepsTable(w: World, f: Frame, w': World)
    requires TableOk(w) && Delivered(w, f, w')
    ensures TableOk(w') && Inherits(w.table.slots, w'.table.slots)
  {
    hide Checked;
    forall i | 0 <= i < |w.table.slots|
      ensures SlotOk(w'.table.slots[i]) && SameNode(w.table.slots[i], w'.table.slots[i])
    {
      CheckKeepsSlot(w.table.slots[i], f, w'.table.slots[i]);
    }
  }

  lemma {:induction false} TookKeepsTable(w: World, time: nat, accepted: bool)
    requires TableOk(w)
    ensures TableOk(Took(w, time, accepted)) && Inherits(w.table.slots, Took(w, time, accepted).table.slots)
  {
    hide Turned, Sent;
    TurnKeepsSlot(w.table.slots[w.table.index], Millis(time), accepted);
  }

  lemma {:induction false} StepKeepsTable(w: World, a: Action, w': World)
    requires TableOk(w) && Step(w, a, w')
    ensures TableOk(w') && Inherits(w.table.slots, w'.table.slots)
  {
    hide AliasOf, Turned, Sent, Delivered;
    match a
    case Turn(time, accepted) =>
      TookKeepsTable(w, time, accepted);
      match SentBy(w, time, accepted) {
        case None =>
        case Some(f) => DeliveryKeepsTable(Took(w, time, accepted), f, w');
      }
    case Hear(f) => DeliveryKeepsTable(w, f, w');
    case Verify(r) =>
    case Allocate(n) => SeedIsAlias(n.nid);
    case Release(id) =>
  }

  /**
   In every run, from any moment to any later one: the table stays in order (a node that is
   initialized is permitted, its slot and it agree on an alias in 1..4095, an alias is 0
   exactly in an empty slot, no two slots hold the same NodeID, no slot is in holding),
   and an occupied slot never becomes empty or changes its NodeID.
   */
  lemma {:induction false} TableStaysInOrder(ws: seq<World>, acts: seq<Action>, m: nat, n: nat)
    requires Run(ws, acts) && Initial(ws[0]) && m <= n < |ws|
    ensures TableOk(ws[n])
    ensures Inherits(ws[m].table.slots, ws[n].table.slots)
  {
    hide Step, SlotOk, DistinctNodes;
    if n > 0 {
      TableStaysInOrder(ws, acts, if m < n then m else m - 1, n - 1);
      StepKeepsTable(ws[n - 1], acts[n - 1], ws[n]);
    } else {
      InitialInOrder(ws[0]);
    }
  }

  lemma {:induction false} InitialInOrder(w: World)
    requires Initial(w)
    ensures TableOk(w)
  {
  }

  // ---------------------------------------------------------------- one alias, one holder

  /** Past RID and not yet at rest: the slot sends a non-CID frame on its next turn. */
  predicate AboutToSpeak(m: Mode) {
    PastRid(m) && !m.Ready?
  }

  /** How many calls of update() come before slot k's turn. */
  function Until(t: Table, k: nat): nat
    requires t.index < |t.slots| && k < |t.slots|
  {
    if k >= t.index then k - t.index else k + |t.slots| - t.index
  }

  /**
   Slot i may share the alias of a slot j that is past RID only while it has not got beyond
   its first CID, and once it has sent that, j is to speak before i's next turn.
   */
  predicate Deferring(t: Table, i: nat, j: nat)
    requires t.index < |t.slots| && i < |t.slots| && j < |t.slots|
  {
    var s, h := t.slots[i], t.slots[j];
    s.alias == h.alias && PastRid(h.mode) ==>
      || s.mode in {Releasing, Cid1}
      || (s.mode.Cid2? && AboutToSpeak(h.mode) && Until(t, j) < Until(t, i))
  }

  predicate AllDefer(t: Table) {
    t.index < |t.slots| &&
    forall i, j | 0 <= i < |t.slots| && 0 <= j < |t.slots| && i != j :: Deferring(t, i, j)
  }

  /** No two slots past RID share an alias. */
  predicate Exclusive(t: Table) {
    forall i, j | 0 <= i < j < |t.slots| && PastRid(t.slots[i].mode) && PastRid(t.slots[j].mode) ::
      t.slots[i].alias != t.slots[j].alias
  }

  /** The bus takes what a holder of an alias has to say; other sends may be refused. */
  predicate HoldersHeard(w: World, a: Action) {
    WellFormed(w) && a.Turn? && AboutToSpeak(w.table.slots[w.table.index].mode) ==> a.accepted
  }

  /** A frame can only send a slot back or make a resting holder speak. */
  lemma {:induction false} CheckMoves(s: Slot, f: Frame, t: Slot)
    requires SlotOk(s) && Checked(s, f, t)
    ensures t.mode.Releasing? || (t.alias == s.alias && (t.mode == s.mode || (Settled(s.mode) && t.mode.ResendRid?)))
  {
  }

  lemma {:induction false} DeliveryKeepsDeferring(w: World, f: Frame, w': World)
    requires TableOk(w) && AllDefer(w.table) && Delivered(w, f, w')
    ensures AllDefer(w'.table)
  {
    hide Checked;
    var t, t' := w.table, w'.table;
    forall i, j | 0 <= i < |t.slots| && 0 <= j < |t.slots| && i != j
      ensures Deferring(t', i, j)
    {
      CheckMoves(t.slots[i], f, t'.slots[i]);
      CheckMoves(t.slots[j], f, t'.slots[j]);
      assert Deferring(t, i, j);
    }
  }

  /** What the speaker's own frame does to a slot that shares its alias. */
  lemma {:induction false} FrameSettles(h: Slot, now: nat, s: Slot, t: Slot)
    requires SlotOk(h) && SlotOk(s) && Sent(h, now, true).Some? && s.alias == h.alias
    requires Checked(s, Sent(h, now, true).value, t)
    requires PastRid(h.mode) || h.mode.Rid?
    ensures s.mode in {Cid2, Cid3, Cid4, Rid} || (s.mode.Cid1? && !h.mode.Cid1?) ==> t.mode.Releasing?
  {
  }

  /** A first CID wakes every resting holder of its alias. */
  lemma {:induction false} ChallengeWakes(s: Slot, now: nat, h: Slot, h': Slot)
    requires SlotOk(s) && SlotOk(h) && s.mode.Cid1? && s.alias == h.alias && PastRid(h.mode)
    requires Checked(h, Sent(s, now, true).value, h')
    ensures h' == if Settled(h.mode) then h.(mode := ResendRid) else h
    ensures AboutToSpeak(h'.mode)
  {
  }

  /** The speaker's own frame never sends the speaker back. */
  lemma {:induction false} OwnFrameHarmless(s: Slot, now: nat, t: Slot)
    requires SlotOk(s) && Sent(s, now, true).Some?
    requires Checked(Turned(s, now, true), Sent(s, now, true).value, t)
    ensures t == Turned(s, now, true)
  {
    hide Regenerates, AliasOf;
  }

  /** A turn in which something is sent moves the slot one mode on and keeps its alias. */
  lemma {:induction false} SpokenMoves(s: Slot, now: nat)
    requires SlotOk(s) && Sent(s, now, true).Some?
    ensures Turned(s, now, true).alias == s.alias && Turned(s, now, true).mode == ModeAfter(s.mode)
    ensures NeedsNode(s.mode)
  {
  }

  lemma {:induction false} SilentMoves(s: Slot, now: nat, accepted: bool)
    requires SlotOk(s) && Sent(s, now, accepted).None?
    ensures Turned(s, now, accepted).alias == s.alias && Turned(s, now, accepted).mode == s.mode
    ensures AboutToSpeak(s.mode) ==> !accepted
  {
  }

  /** Every slot's turn comes one call nearer, and the one just served goes last. */
  lemma {:induction false} UntilMoves(t: Table, t': Table, k: nat)
    requires t.index < |t.slots| == |t'.slots| && k < |t.slots| && t'.index == (t.index + 1) % |t.slots|
    ensures t'.index < |t'.slots|
    ensures Until(t', k) == if k == t.index then |t.slots| - 1 else Until(t, k) - 1
  {
    if t.index + 1 == |t.slots| {
      Bits.DivisionUnique(t.index + 1, |t.slots|, 1, 0);
    } else {
      Bits.DivisionUnique(t.index + 1, |t.slots|, 0, t.index + 1);
    }
  }

  /** A turn that sends nothing moves no slot. */
  lemma {:induction false} SilentTurn(w: World, time: nat, accepted: bool, i: nat, j: nat)
    requires TableOk(w) && AllDefer(w.table) && HoldersHeard(w, Turn(time, accepted))
    requires SentBy(w, time, accepted).None?
    requires i < |w.table.slots| && j < |w.table.slots| && i != j
    ensures Deferring(Took(w, time, accepted).table, i, j)
  {
    hide Turned, Sent, Until, DistinctNodes;
    var t, t' := w.table, Took(w, time, accepted).table;
    SilentMoves(t.slots[t.index], Millis(time), accepted);
    UntilMoves(t, t', i);
    UntilMoves(t, t', j);
    UntilPositive(t, i);
    UntilPositive(t, j);
    assert Deferring(t, i, j);
  }

  lemma {:induction false} UntilPositive(t: Table, k: nat)
    requires t.index < |t.slots| && k < |t.slots|
    ensures 0 <= Until(t, k) < |t.slots|
    ensures Until(t, k) == 0 <==> k == t.index
  {
  }

  /** The speaker is the slot that must give way. */
  lemma {:induction false} SpeakerDefers(w: World, time: nat, w': World, j: nat)
    requires TableOk(w) && AllDefer(w.table) && SentBy(w, time, true).Some?
    requires Delivered(Took(w, time, true), SentBy(w, time, true).value, w')
    requires j < |w.table.slots| && j != w.table.index
    ensures w'.table.index < |w'.table.slots| == |w.table.slots|
    ensures Deferring(w'.table, w.table.index, j)
  {
    hide Turned, Sent, Until, DistinctNodes, Checked, Settled;
    var i := w.table.index;
    var f := SentBy(w, time, true).value;
    var s, h := w.table.slots[i], w.table.slots[j];
    var s', h' := w'.table.slots[i], w'.table.slots[j];
    assert SlotOk(s) && SlotOk(h);
    SpokenMoves(s, Millis(time));
    OwnFrameHarmless(s, Millis(time), s');
    HolderBefore(h, f, h');
    UntilMoves(w.table, w'.table, i);
    UntilMoves(w.table, w'.table, j);
    UntilPositive(w.table, i);
    UntilPositive(w.table, j);
    assert Deferring(w.table, i, j);
    assert Deferring(w.table, j, i);
    if s.alias == h.alias && PastRid(h'.mode) && s.mode.Cid1? {
      ChallengeWakes(s, Millis(time), h, h');
    }
  }

  /** A slot past RID after a frame was so before, under the same alias. */
  lemma {:induction false} HolderBefore(h: Slot, f: Frame, h': Slot)
    requires SlotOk(h) && Checked(h, f, h')
    ensures PastRid(h'.mode) ==> PastRid(h.mode) && h'.alias == h.alias && (AboutToSpeak(h.mode) ==> AboutToSpeak(h'.mode))
  {
  }

  /** A slot that is not sent back by a frame and was not past RID is where it was. */
  lemma {:induction false} ClaimantBefore(s: Slot, f: Frame, s': Slot)
    requires SlotOk(s) && Checked(s, f, s')
    ensures s'.mode.Releasing? || (s'.alias == s.alias && (s'.mode == s.mode || (PastRid(s.mode) && PastRid(s'.mode))))
  {
  }

  /** The speaker is the slot that others must give way to. */
  lemma {:induction false} OthersDeferToSpeaker(w: World, time: nat, w': World, i: nat)
    requires TableOk(w) && AllDefer(w.table) && SentBy(w, time, true).Some?
    requires Delivered(Took(w, time, true), SentBy(w, time, true).value, w')
    requires i < |w.table.slots| && i != w.table.index
    ensures w'.table.index < |w'.table.slots| == |w.table.slots|
    ensures Deferring(w'.table, i, w.table.index)
  {
    hide Turned, Sent, Until, DistinctNodes, Checked, Settled;
    var k := w.table.index;
    var f := SentBy(w, time, true).value;
    var s, h := w.table.slots[i], w.table.slots[k];
    var s', h' := w'.table.slots[i], w'.table.slots[k];
    assert SlotOk(s) && SlotOk(h);
    SpokenMoves(h, Millis(time));
    OwnFrameHarmless(h, Millis(time), h');
    ClaimantBefore(s, f, s');
    assert Deferring(w.table, i, k);
    assert Deferring(w.table, k, i);
    if (PastRid(h.mode) || h.mode.Rid?) && s.alias == h.alias {
      FrameSettles(h, Millis(time), s, s');
    }
  }

  /** Neither slot is the speaker. */
  lemma {:induction false} BystandersDefer(w: World, time: nat, w': World, i: nat, j: nat)
    requires TableOk(w) && AllDefer(w.table) && SentBy(w, time, true).Some?
    requires Delivered(Took(w, time, true), SentBy(w, time, true).value, w')
    requires i < |w.table.slots| && j < |w.table.slots| && i != j && i != w.table.index && j != w.table.index
    ensures w'.table.index < |w'.table.slots| == |w.table.slots|
    ensures Deferring(w'.table, i, j)
  {
    hide Turned, Sent, Until, DistinctNodes, Checked, Settled;
    var f := SentBy(w, time, true).value;
    assert SlotOk(w.table.slots[i]) && SlotOk(w.table.slots[j]);
    ClaimantBefore(w.table.slots[i], f, w'.table.slots[i]);
    HolderBefore(w.table.slots[j], f, w'.table.slots[j]);
    UntilMoves(w.table, w'.table, i);
    UntilMoves(w.table, w'.table, j);
    UntilPositive(w.table, i);
    UntilPositive(w.table, j);
    assert Deferring(w.table, i, j);
  }

  lemma {:induction false} TurnKeepsDeferring(w: World, time: nat, accepted: bool, w': World)
    requires TableOk(w) && AllDefer(w.table) && Step(w, Turn(time, accepted), w')
    requires HoldersHeard(w, Turn(time, accepted))
    ensures AllDefer(w'.table)
  {
    hide Delivered, Turned, Sent, Deferring, HoldersHeard;
    var n := |w.table.slots|;
    assert |w'.table.slots| == n && w'.table.index < n by {
      StepKeepsTable(w, Turn(time, accepted), w');
    }
    forall i, j | 0 <= i < n && 0 <= j < n && i != j
      ensures Deferring(w'.table, i, j)
    {
      if SentBy(w, time, accepted).None? {
        SilentTurn(w, time, accepted, i, j);
      } else {
        SpokenTurn(w, time, accepted, w', i, j);
      }
    }
  }

  lemma {:induction false} SpokenTurn(w: World, time: nat, accepted: bool, w': World, i: nat, j: nat)
    requires TableOk(w) && AllDefer(w.table) && SentBy(w, time, accepted).Some?
    requires Delivered(Took(w, time, accepted), SentBy(w, time, accepted).value, w')
    requires i < |w.table.slots| && j < |w.table.slots| && i != j
    ensures Deferring(w'.table, i, j)
  {
    hide Delivered, Deferring;
    assert accepted;
    if i == w.table.index {
      SpeakerDefers(w, time, w', j);
    } else {
      if j == w.table.index {
        OthersDeferToSpeaker(w, time, w', i);
      } else {
        BystandersDefer(w, time, w', i, j);
      }
    }
  }

  lemma {:induction false} StepKeepsDeferring(w: World, a: Action, w': World)
    requires TableOk(w) && AllDefer(w.table) && Step(w, a, w') && HoldersHeard(w, a)
    ensures AllDefer(w'.table)
  {
    match a
    case Turn(time, accepted) => TurnKeepsDeferring(w, time, accepted, w');
    case Hear(f) => DeliveryKeepsDeferring(w, f, w');
    case Verify(r) => VerifyKeepsDeferring(w, r, w');
    case Allocate(n) => ReplacementKeepsDeferring(w, a, w');
    case Release(id) => ReplacementKeepsDeferring(w, a, w');
  }

  lemma {:induction false} VerifyKeepsDeferring(w: World, r: Request, w': World)
    requires TableOk(w) && AllDefer(w.table) && Step(w, Verify(r), w')
    ensures AllDefer(w'.table)
  {
    var t, t' := w.table, w'.table;
    forall i, j | 0 <= i < |t.slots| && 0 <= j < |t.slots| && i != j
      ensures Deferring(t', i, j)
    {
      assert Deferring(t, i, j);
    }
  }

  lemma {:induction false} ReplacementKeepsDeferring(w: World, a: Action, w': World)
    requires TableOk(w) && AllDefer(w.table) && Step(w, a, w') && (a.Allocate? || a.Release?)
    ensures AllDefer(w'.table)
  {
    hide AliasOf;
    var t, t' := w.table, w'.table;
    forall i, j | 0 <= i < |t.slots| && 0 <= j < |t.slots| && i != j
      ensures Deferring(t', i, j)
    {
      assert Deferring(t, i, j);
    }
  }

  lemma {:induction false} DeferringIsExclusive(t: Table)
    requires AllDefer(t)
    ensures Exclusive(t)
  {
    forall i, j | 0 <= i < j < |t.slots| && PastRid(t.slots[i].mode) && PastRid(t.slots[j].mode)
      ensures t.slots[i].alias != t.slots[j].alias
    {
      assert Deferring(t, i, j);
    }
  }

  lemma {:induction false} RunsDefer(ws: seq<World>, acts: seq<Action>, n: nat)
    requires Run(ws, acts) && Initial(ws[0]) && n < |ws|
    requires forall k | 0 <= k < n :: HoldersHeard(ws[k], acts[k])
    ensures AllDefer(ws[n].table)
  {
    if n > 0 {
      RunsDefer(ws, acts, n - 1);
      TableStaysInOrder(ws, acts, n - 1, n - 1);
      StepKeepsDeferring(ws[n - 1], acts[n - 1], ws[n]);
    }
  }

  /**
   Whatever frames arrive, in every run in which holders are heard no two slots past RID
   ever share an alias.
   */
  lemma {:induction false} AliasesStayExclusive(ws: seq<World>, acts: seq<Action>, n: nat)
    requires Run(ws, acts) && Initial(ws[0]) && n < |ws|
    requires forall k | 0 <= k < n :: HoldersHeard(ws[k], acts[k])
    ensures Exclusive(ws[n].table)
  {
    RunsDefer(ws, acts, n);
    DeferringIsExclusive(ws[n].table);
  }

  // ---------------------------------------------------------------- why frames must come back

  /** A turn whose frame goes out but does not come back: another one has taken its place in the link's buffer. */
  ghost predicate Lost(w: World, a: Action, w': World) {
    && WellFormed(w) && a.Turn? && w.clock <= a.time
    && (var s := w.table.slots[w.table.index]; NeedsNode(s.mode) ==> s.node.Some?)
    && SentBy(w, a.time, a.accepted).Some? && w' == Took(w, a.time, a.accepted)
  }

  /** A run but for the one action whose frame is lost. */
  ghost predicate RunLosing(ws: seq<World>, acts: seq<Action>, lost: nat) {
    |ws| == |acts| + 1 && lost < |acts| &&
    forall k | 0 <= k < |acts| :: if k == lost then Lost(ws[k], acts[k], ws[k + 1]) else Step(ws[k], acts[k], ws[k + 1])
  }

  /** Two slots that go through their reservations side by side, under the same alias. */
  predicate Pair(w: World, a: Mode, b: Mode, turn: nat) {
    && |w.table.slots| == 2 && |w.logs| == 2 && w.table.index == turn < 2
    && Reserving(w.table.slots[0], a) && Reserving(w.table.slots[1], b)
  }

  predicate Reserving(s: Slot, m: Mode) {
    s.mode == m && s.alias == 1 && s.node.Some? && (m in {Rid, Amd} ==> s.timeStamp == 0)
  }

  /** A turn whose frame does nothing to either slot. */
  lemma {:induction false} HarmlessTurn(w: World, a: Mode, b: Mode, turn: nat, time: nat)
    requires Pair(w, a, b, turn) && w.clock <= time && NeedsNode(w.table.slots[turn].mode)
    requires var f := SentBy(w, time, true);
             f.Some? && forall s | s in Took(w, time, true).table.slots ::
               !Conflicts(s, f.value) && !Challenged(s, f.value) && !s.mode.Empty?
    ensures Step(w, Turn(time, true), Took(w, time, true))
  {
    hide Turned, Sent, Conflicts, Challenged, Reallocated;
    var v, f := Took(w, time, true), SentBy(w, time, true).value;
    InternalLeavesLogs(w.table.slots[w.table.index], Millis(time));
    forall i | 0 <= i < 2
      ensures Checked(v.table.slots[i], f, v.table.slots[i])
    {
      assert v.table.slots[i] in v.table.slots;
    }
    assert Delivered(v, f, v);
  }

  lemma {:induction false} InternalLeavesLogs(s: Slot, now: nat)
    requires NeedsNode(s.mode) ==> s.node.Some?
    ensures Sent(s, now, true).Some? ==> Sent(s, now, true).value.internal
  {
  }

  lemma {:induction false} CidTurn(w: World, a: Mode, b: Mode, turn: nat) returns (v: World)
    requires Pair(w, a, b, turn) && w.clock == 0
    requires a in {Cid1, Cid2, Cid3, Cid4, Rid} && b in {Cid1, Cid2, Cid3, Cid4, Rid}
    requires (if turn == 0 then a else b) != Rid
    ensures Step(w, Turn(0, true), v) && v.clock == 0
    ensures Pair(v, if turn == 0 then ModeAfter(a) else a, if turn == 0 then b else ModeAfter(b), 1 - turn)
  {
    hide AliasOf, Regenerates, Step, Reallocated;
    v := Took(w, 0, true);
    HarmlessTurn(w, a, b, turn, 0);
  }

  /** Both slots send their next CID. */
  lemma {:induction false} CidRound(w: World, m: Mode) returns (v: World, u: World)
    requires Pair(w, m, m, 0) && w.clock == 0 && m in {Cid1, Cid2, Cid3, Cid4}
    ensures Step(w, Turn(0, true), v) && Step(v, Turn(0, true), u)
    ensures u.clock == 0 && Pair(u, ModeAfter(m), ModeAfter(m), 0)
  {
    hide Pair, Step;
    v := CidTurn(w, m, m, 0);
    u := CidTurn(v, ModeAfter(m), m, 1);
  }

  /** The first slot's RID is lost, the second's comes back and is taken for the first one's own. */
  lemma {:induction false} RidRound(w: World) returns (v: World, u: World)
    requires Pair(w, Rid, Rid, 0) && w.clock == 0
    ensures Lost(w, Turn(RID_TIME_WAIT, true), v) && SentBy(w, RID_TIME_WAIT, true).value.content == RidFrame
    ensures Step(v, Turn(RID_TIME_WAIT, true), u) && Pair(u, Amd, Amd, 0)
  {
    hide AliasOf;
    v := Took(w, RID_TIME_WAIT, true);
    u := Took(v, RID_TIME_WAIT, true);
    HarmlessTurn(v, Amd, Rid, 1, RID_TIME_WAIT);
  }

  const FIRST := Node(Nid(0, 0, 0, 0, 0, 1), 0, false)
  const SECOND := Node(Nid(0, 0, 1, 0, 0, 0), 0, false)

  /** Two nodes with different NodeIDs and the same first alias. */
  lemma {:induction false} TwoAllocations() returns (w: World, v: World, u: World)
    ensures Initial(w) && Step(w, Allocate(FIRST), v) && Step(v, Allocate(SECOND), u)
    ensures Pair(u, Cid1, Cid1, 0) && u.clock == 0
  {
    hide SeedAlias, AliasOf;
    SeedsCoincide();
    w := World(Table([FREE_SLOT, FREE_SLOT], 0), 0, [[], []]);
    v := Replaced(w, 0, Occupied(w.table.slots[0], FIRST));
    u := Replaced(v, 1, Occupied(v.table.slots[1], SECOND));
  }

  /**
   Exclusion rests on the frames that come back. There is a run of two slots in which the bus takes
   every frame and all frames but one come back, a RID, and in which both slots get past RID with
   the same alias.
   */
  lemma {:induction false} OneLostFrameCollides() returns (ws: seq<World>, acts: seq<Action>, lost: nat)
    ensures RunLosing(ws, acts, lost) && Initial(ws[0])
    ensures forall k | 0 <= k < |acts| && acts[k].Turn? :: acts[k].accepted
    ensures Lost(ws[lost], acts[lost], ws[lost + 1])
    ensures SentBy(ws[lost], acts[lost].time, acts[lost].accepted).value.content == RidFrame
    ensures !Exclusive(ws[|acts|].table)
  {
    hide Pair, Step, Initial, SentBy, Took, Exclusive;
    var w, v, u := TwoAllocations();
    var a1, a2 := CidRound(u, Cid1);
    var b1, b2 := CidRound(a2, Cid2);
    var c1, c2 := CidRound(b2, Cid3);
    var d1, d2 := CidRound(c2, Cid4);
    var e1, e2 := RidRound(d2);
    BothPast(e2);
    var t, r := Turn(0, true), Turn(RID_TIME_WAIT, true);
    ws := [w, v, u, a1, a2, b1, b2, c1, c2, d1, d2, e1, e2];
    acts := [Allocate(FIRST), Allocate(SECOND), t, t, t, t, t, t, t, t, r, r];
    lost := 10;
  }

  lemma {:induction false} BothPast(w: World)
    requires Pair(w, Amd, Amd, 0)
    ensures !Exclusive(w.table)
  {
    assert PastRid(w.table.slots[0].mode) && PastRid(w.table.slots[1].mode);
  }
}
