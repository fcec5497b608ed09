/** What the table does about frames, requests, allocations and releases, told by their outcome in runs. */
module AliasAnswers {
  import opened NodeIds
  import opened BusFrames
  import opened AliasGenerator
  import opened AliasModel
  import opened AliasRuns

  // ---------------------------------------------------------------- frames

  /** The slot has given up its alias for a new one, and is to say so. */
  predicate GaveUp(s: Slot, t: Slot) {
    && t.mode.Releasing? && s.node.Some?
    && t.node == Some(Node(s.node.value.nid, s.node.value.alias, false))
    && 0 < t.alias < 0x1000 && t.alias != s.alias
  }

  lemma {:induction false} FrameOutcome(s: Slot, f: Frame, t: Slot)
    requires SlotOk(s) && Checked(s, f, t)
    ensures if s.alias != f.source then t == s
            else if f.content.CidFrame? then t == if s.mode in {InitComplete, Ready} then s.(mode := ResendRid) else s
            else if !f.internal then
              if s.mode in {Cid1, Cid2, Cid3, Cid4, Rid, Amd, InitComplete, Ready} then GaveUp(s, t) else t == s
            else if s.mode in {Cid2, Cid3, Cid4, Rid}
                 || (s.mode.Cid1? && !f.content.AmrFrame?) || (s.mode.Amd? && !f.content.RidFrame?) then GaveUp(s, t)
            else t == s
  {
    hide AliasOf, Regenerates;
    if Conflicts(s, f) {
      NewAlias(s.words, s.alias, t.words, t.words);
    }
  }

  /**
   In every run, what a frame from the wire does to a slot. A frame under another alias does nothing.
   A CID sends a slot in INIT_COMPLETE or READY back to RID. Any other frame under the slot's alias
   makes it give the alias up and uninitializes its node, except in three states: RELEASING, where
   that is under way, and RESENDRID and SENDVERIFIEDNID, where the code does not look.
   */
  lemma {:induction false} ForeignFrames(ws: seq<World>, acts: seq<Action>, n: nat, i: nat)
    requires Run(ws, acts) && Initial(ws[0]) && n < |acts| && i < |ws[n].table.slots|
    requires acts[n].Hear? && !acts[n].frame.internal
    ensures |ws[n + 1].table.slots| == |ws[n].table.slots|
    ensures var s, t, f := ws[n].table.slots[i], ws[n + 1].table.slots[i], acts[n].frame;
            if s.alias != f.source then t == s
            else if f.content.CidFrame? then t == if s.mode in {InitComplete, Ready} then s.(mode := ResendRid) else s
            else if s.mode in {Cid1, Cid2, Cid3, Cid4, Rid, Amd, InitComplete, Ready} then GaveUp(s, t)
            else t == s
  {
    hide Checked, SlotOk, DistinctNodes;
    TableStaysInOrder(ws, acts, n, n);
    assert Step(ws[n], acts[n], ws[n + 1]);
    FrameOutcome(ws[n].table.slots[i], acts[n].frame, ws[n + 1].table.slots[i]);
  }

  // ---------------------------------------------------------------- waiting for a turn

  /** Nothing happens to a slot that has something to answer: it neither speaks nor is told otherwise. */
  predicate Undisturbed(w: World, a: Action, i: nat) {
    WellFormed(w) && i < |w.table.slots| &&
    match a
    case Turn(_, accepted) => w.table.index != i || !accepted
    case Hear(_) => true
    case Verify(_) => !w.table.slots[i].mode.ResendRid?
    case Allocate(_) => true
    case Release(_) => w.table.slots[i].mode.Releasing?
  }

  lemma {:induction false} FramesPassBy(s: Slot, f: Frame, t: Slot)
    requires SlotOk(s) && Checked(s, f, t) && s.mode in {Releasing, ResendRid, SendVerifiedNid}
    ensures t == s
  {
    hide AliasOf, Regenerates;
  }

  lemma {:induction false} RefusedTurn(s: Slot, now: nat)
    requires SlotOk(s) && s.mode in {Releasing, ResendRid, SendVerifiedNid}
    ensures Turned(s, now, false) == s && Sent(s, now, false).None?
  {
  }

  lemma {:induction false} AnswerWaits(w: World, a: Action, w': World, i: nat)
    requires TableOk(w) && Step(w, a, w') && Undisturbed(w, a, i)
    requires w.table.slots[i].mode in {Releasing, ResendRid, SendVerifiedNid}
    ensures |w'.table.slots| == |w.table.slots| && w'.table.slots[i] == w.table.slots[i]
  {
    hide Checked, Turned, Sent, SeedAlias, DistinctNodes;
    var s := w.table.slots[i];
    assert SlotOk(s);
    match a
    case Turn(time, accepted) =>
      TookKeepsTable(w, time, accepted);
      if w.table.index == i {
        RefusedTurn(s, Millis(time));
      }
      if SentBy(w, time, accepted).Some? {
        FramesPassBy(s, SentBy(w, time, accepted).value, w'.table.slots[i]);
      }
    case Hear(f) => FramesPassBy(s, f, w'.table.slots[i]);
    case _ =>
  }

  lemma {:induction false} AnswersWait(ws: seq<World>, acts: seq<Action>, n: nat, m: nat, i: nat)
    requires Run(ws, acts) && Initial(ws[0]) && n <= m < |ws| && i < |ws[n].table.slots|
    requires ws[n].table.slots[i].mode in {Releasing, ResendRid, SendVerifiedNid}
    requires forall k | n <= k < m :: Undisturbed(ws[k], acts[k], i)
    ensures |ws[m].table.slots| == |ws[n].table.slots| && ws[m].table.slots[i] == ws[n].table.slots[i]
    decreases m
  {
    hide Step, Undisturbed, Initial, TableOk;
    if m > n {
      AnswersWait(ws, acts, n, m - 1, i);
      TableStaysInOrder(ws, acts, m - 1, m - 1);
      assert Step(ws[m - 1], acts[m - 1], ws[m]);
      AnswerWaits(ws[m - 1], acts[m - 1], ws[m], i);
    }
  }

  /** At m slot i has its first accepted turn since n. */
  predicate NextSpeaks(ws: seq<World>, acts: seq<Action>, n: nat, m: nat, i: nat) {
    && |ws| == |acts| + 1 && n < m < |acts|
    && (forall k | n < k < m :: Undisturbed(ws[k], acts[k], i))
    && WellFormed(ws[m]) && acts[m].Turn? && ws[m].table.index == i && acts[m].accepted
    && ws[m].table.slots[i].node.Some?
  }

  lemma {:induction false} TurnAnswers(s: Slot, now: nat)
    requires SlotOk(s) && s.mode in {Releasing, ResendRid, SendVerifiedNid}
    ensures Sent(s, now, true) == Some(Frame(if s.mode.Releasing? then AmrFrame else if s.mode.ResendRid? then RidFrame
                                             else VerifiedNid, s.node.value.alias, true))
    ensures Turned(s, now, true) == s.(mode := if s.mode.Releasing? then Cid1 else Ready)
  {
  }

  lemma {:induction false} AnswerIsGiven(ws: seq<World>, acts: seq<Action>, n: nat, m: nat, i: nat)
    requires Run(ws, acts) && Initial(ws[0]) && NextSpeaks(ws, acts, n, m, i) && i < |ws[n + 1].table.slots|
    requires ws[n + 1].table.slots[i].mode in {Releasing, ResendRid, SendVerifiedNid}
    ensures var s := ws[n + 1].table.slots[i];
            && |ws[m + 1].table.slots| == |ws[n + 1].table.slots| && s.node.Some?
            && SentBy(ws[m], acts[m].time, true) == Some(Frame(if s.mode.Releasing? then AmrFrame
                                                                else if s.mode.ResendRid? then RidFrame
                                                                else VerifiedNid, s.node.value.alias, true))
            && ws[m + 1].table.slots[i] == s.(mode := if s.mode.Releasing? then Cid1 else Ready)
  {
    hide Checked, Turned, Sent, DistinctNodes, SlotOk, Undisturbed;
    AnswersWait(ws, acts, n + 1, m, i);
    TableStaysInOrder(ws, acts, m, m);
    var s, now := ws[m].table.slots[i], Millis(acts[m].time);
    assert Step(ws[m], acts[m], ws[m + 1]);
    TurnAnswers(s, now);
    OwnFrameHarmless(s, now, ws[m + 1].table.slots[i]);
  }

  // ---------------------------------------------------------------- what is answered

  /**
   A conflict is announced: a slot past its first CID that gives its alias up on a foreign frame
   sends, on its next accepted turn, an AMR under the alias it has given up, and then starts over
   with the new one.
   */
  lemma {:induction false} ConflictIsAnnounced(ws: seq<World>, acts: seq<Action>, n: nat, m: nat, i: nat)
    requires Run(ws, acts) && Initial(ws[0]) && NextSpeaks(ws, acts, n, m, i) && i < |ws[n].table.slots|
    requires acts[n].Hear? && !acts[n].frame.internal && !acts[n].frame.content.CidFrame?
    requires var s := ws[n].table.slots[i];
             s.alias == acts[n].frame.source && s.mode in {Cid2, Cid3, Cid4, Rid, Amd, InitComplete, Ready}
    ensures |ws[m + 1].table.slots| == |ws[n].table.slots|
    ensures SentBy(ws[m], acts[m].time, true) == Some(Frame(AmrFrame, acts[n].frame.source, true))
    ensures var t := ws[m + 1].table.slots[i]; t.mode.Cid1? && 0 < t.alias < 0x1000 && t.alias != acts[n].frame.source
  {
    hide Step, DistinctNodes, Undisturbed;
    ForeignFrames(ws, acts, n, i);
    TableStaysInOrder(ws, acts, n, n);
    assert SlotOk(ws[n].table.slots[i]);
    AnswerIsGiven(ws, acts, n, m, i);
  }

  /** A challenge is answered: a settled slot that hears a CID under its alias sends RID under it on its next accepted turn. */
  lemma {:induction false} ChallengeIsAnswered(ws: seq<World>, acts: seq<Action>, n: nat, m: nat, i: nat)
    requires Run(ws, acts) && Initial(ws[0]) && NextSpeaks(ws, acts, n, m, i) && i < |ws[n].table.slots|
    requires acts[n].Hear? && !acts[n].frame.internal && acts[n].frame.content.CidFrame?
    requires var s := ws[n].table.slots[i]; s.alias == acts[n].frame.source && s.mode in {InitComplete, Ready}
    ensures |ws[m + 1].table.slots| == |ws[n].table.slots|
    ensures SentBy(ws[m], acts[m].time, true) == Some(Frame(RidFrame, acts[n].frame.source, true))
    ensures ws[m + 1].table.slots[i] == ws[n].table.slots[i].(mode := Ready)
  {
    hide Step, DistinctNodes, Undisturbed;
    ForeignFrames(ws, acts, n, i);
    TableStaysInOrder(ws, acts, n, n);
    assert SlotOk(ws[n].table.slots[i]);
    AnswerIsGiven(ws, acts, n, m, i);
  }

  /** The request is for this node: for everyone, for its NodeID or for its alias. */
  predicate IsFor(r: Request, n: Node) {
    r == Everyone || r == Named(n.nid) || r == Addressed(n.alias)
  }

  /**
   A verify request is answered by exactly the initialized nodes it is for, each with a Verified
   NodeID under its alias on its next accepted turn; nothing else in the table changes.
   */
  lemma {:induction false} VerifyIsAnswered(ws: seq<World>, acts: seq<Action>, n: nat, m: nat, i: nat)
    requires Run(ws, acts) && Initial(ws[0]) && n < |acts| && acts[n].Verify? && i < |ws[n].table.slots|
    ensures |ws[n + 1].table.slots| == |ws[n].table.slots|
    ensures var s := ws[n].table.slots[i];
            if s.node.Some? && s.node.value.initialized && IsFor(acts[n].request, s.node.value) then
              NextSpeaks(ws, acts, n, m, i) ==>
                && SentBy(ws[m], acts[m].time, true) == Some(Frame(VerifiedNid, s.alias, true))
                && |ws[m + 1].table.slots| == |ws[n].table.slots| && ws[m + 1].table.slots[i] == s.(mode := Ready)
            else ws[n + 1].table.slots[i] == s
  {
    hide DistinctNodes, Undisturbed;
    TableStaysInOrder(ws, acts, n, n);
    assert SlotOk(ws[n].table.slots[i]);
    assert Step(ws[n], acts[n], ws[n + 1]);
    if NextSpeaks(ws, acts, n, m, i) && ws[n + 1].table.slots[i].mode.SendVerifiedNid? {
      AnswerIsGiven(ws, acts, n, m, i);
    }
  }

  // ---------------------------------------------------------------- the start-up, turn by turn

  /** The frame that belongs to a step of the start-up, and the step that follows. */
  function StartUpStep(m: Mode): Option<(Content, Mode)> {
    match m
    case Cid1 => Some((CidFrame(1), Cid2))
    case Cid2 => Some((CidFrame(2), Cid3))
    case Cid3 => Some((CidFrame(3), Cid4))
    case Cid4 => Some((CidFrame(4), Rid))
    case Rid => Some((RidFrame, Amd))
    case Amd => Some((AmdFrame, InitComplete))
    case InitComplete => Some((InitializationComplete, Ready))
    case _ => None
  }

  lemma {:induction false} StartUpTurn(s: Slot, now: nat)
    requires SlotOk(s) && StartUpStep(s.mode).Some?
    ensures var t, sent, next := Turned(s, now, true), Sent(s, now, true), StartUpStep(s.mode).value;
            && Turned(s, now, false).mode == s.mode && Sent(s, now, false).None?
            && if s.mode.Rid? && (now - s.timeStamp) % 0x1_0000_0000 < 500 then t == s && sent.None?
               else sent == Some(Frame(next.0, s.alias, true)) && t.mode == next.1 && t.alias == s.alias
    ensures Initialized(Turned(s, now, true)) == s.mode.InitComplete?
  {
  }

  predicate Initialized(s: Slot) {
    s.node.Some? && s.node.value.initialized
  }

  /**
   In every run, what a slot does on its turn. One that starts up sends the frame of its step under its
   alias and goes on to the next, if the bus takes it and, for RID, 500 ms have passed; the last step
   initializes its node. One that is at rest, or free, sends nothing and stays as it is.
   */
  lemma {:induction false} TurnsInRuns(ws: seq<World>, acts: seq<Action>, n: nat, i: nat)
    requires Run(ws, acts) && Initial(ws[0]) && n < |acts| && i < |ws[n].table.slots|
    requires acts[n].Turn? && acts[n].accepted && WellFormed(ws[n]) && ws[n].table.index == i
    requires NeedsNode(ws[n].table.slots[i].mode) ==> ws[n].table.slots[i].node.Some?
    ensures |ws[n + 1].table.slots| == |ws[n].table.slots|
    ensures var s, t, sent := ws[n].table.slots[i], ws[n + 1].table.slots[i], SentBy(ws[n], acts[n].time, true);
            && (s.mode in {Empty, Ready} ==> sent.None? && t == s)
            && (StartUpStep(s.mode).Some? ==>
                  var next := StartUpStep(s.mode).value;
                  if s.mode.Rid? && (acts[n].time % 0x1_0000_0000 - s.timeStamp) % 0x1_0000_0000 < 500 then sent.None? && t == s
                  else
                    && sent == Some(Frame(next.0, s.alias, true)) && t.mode == next.1 && t.alias == s.alias
                    && Initialized(t) == s.mode.InitComplete?)
  {
    hide Checked, Turned, Sent, DistinctNodes, StartUpStep;
    TableStaysInOrder(ws, acts, n, n);
    var s, now := ws[n].table.slots[i], Millis(acts[n].time);
    assert SlotOk(s) && Step(ws[n], acts[n], ws[n + 1]);
    if StartUpStep(s.mode).Some? {
      StartUpTurn(s, now);
    }
    if Sent(s, now, true).Some? {
      OwnFrameHarmless(s, now, ws[n + 1].table.slots[i]);
    }
    RestingTurn(s, now);
  }

  lemma {:induction false} RestingTurn(s: Slot, now: nat)
    requires SlotOk(s)
    ensures s.mode in {Empty, Ready} ==> Sent(s, now, true).None? && Turned(s, now, true) == s
  {
  }

  // ---------------------------------------------------------------- coming and going

  /** The slot a new node starts in. */
  function Starting(n: Node, s: Slot): Slot {
    Slot(Some(Node(n.nid, n.alias, false)), Cid1, SeedAlias(n.nid), s.timeStamp, s.words)
  }

  /**
   A node that is allocated starts negotiating its seed alias in the first free slot, unless its
   NodeID is there already or no slot is free; every other slot stays as it is.
   */
  lemma {:induction false} AllocationStarts(ws: seq<World>, acts: seq<Action>, n: nat)
    requires Run(ws, acts) && Initial(ws[0]) && n < |acts| && acts[n].Allocate?
    ensures var s, t, node := ws[n].table.slots, ws[n + 1].table.slots, acts[n].node;
            if (exists i | 0 <= i < |s| :: s[i].node.Some? && s[i].node.value.nid == node.nid)
               || (forall i | 0 <= i < |s| :: s[i].node.Some?)
            then t == s
            else exists i :: 0 <= i < |s| && s[i].node.None? && (forall j | 0 <= j < i :: s[j].node.Some?)
                             && t == s[i := Starting(node, s[i])]
  {
    hide SeedAlias, DistinctNodes;
    TableStaysInOrder(ws, acts, n, n);
    assert Step(ws[n], acts[n], ws[n + 1]);
    var s, t, node := ws[n].table.slots, ws[n + 1].table.slots, acts[n].node;
    var k := Vacancy(s);
    VacancyIsFree(s);
    if exists i | 0 <= i < |s| :: s[i].node.Some? && s[i].node.value.nid == node.nid {
      var i :| 0 <= i < |s| && s[i].node.Some? && s[i].node.value.nid == node.nid;
      assert Holds(s[i], node.nid);
    } else if k < |s| {
      assert s[k].node.None? && t == s[k := Starting(node, s[k])];
    }
  }

  lemma {:induction false} VacancyIsFree(s: seq<Slot>)
    requires forall i | 0 <= i < |s| :: SlotOk(s[i])
    ensures forall j | 0 <= j < Vacancy(s) :: s[j].node.Some?
    ensures Vacancy(s) < |s| ==> s[Vacancy(s)].node.None? && s[Vacancy(s)].alias == 0
  {
    hide Find;
    forall j | 0 <= j < |s|
      ensures !s[j].mode.Holding? && (s[j].mode.Empty? <==> s[j].node.None?)
    {
      assert SlotOk(s[j]);
    }
  }

  /**
   A release makes the first node the identifier stands for, and no other, give up its alias: the
   node is uninitialized at once and an AMR under its alias goes out on its next accepted turn.
   */
  lemma {:induction false} ReleaseIsAnnounced(ws: seq<World>, acts: seq<Action>, n: nat, m: nat, i: nat)
    requires Run(ws, acts) && Initial(ws[0]) && n < |acts| && acts[n].Release? && i < |ws[n].table.slots|
    ensures |ws[n + 1].table.slots| == |ws[n].table.slots|
    ensures var s, id := ws[n].table.slots, acts[n].id;
            if s[i].node.Some? && id.Matches(NodeId(s[i].node.value.nid, s[i].node.value.alias))
               && (forall j | 0 <= j < i && s[j].node.Some? :: !id.Matches(NodeId(s[j].node.value.nid, s[j].node.value.alias)))
            then
              && ws[n + 1].table.slots[i]
                 == s[i].(mode := Releasing, node := Some(Node(s[i].node.value.nid, s[i].node.value.alias, false)))
              && (NextSpeaks(ws, acts, n, m, i) ==>
                    SentBy(ws[m], acts[m].time, true) == Some(Frame(AmrFrame, s[i].node.value.alias, true)))
            else ws[n + 1].table.slots[i] == s[i]
  {
    hide DistinctNodes, Undisturbed, NextSpeaks, SlotOk;
    assert Step(ws[n], acts[n], ws[n + 1]);
    var s, id := ws[n].table.slots, acts[n].id;
    var k := Find(s, (x: Slot) => Answers(x, id), 0);
    assert forall j | 0 <= j < k :: !Answers(s[j], id);
    if k == i && NextSpeaks(ws, acts, n, m, i) {
      AnswerIsGiven(ws, acts, n, m, i);
    }
  }
}
