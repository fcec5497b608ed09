/** How a slot gets from its first frame to an initialized node, and exactly when it does not. */
module AliasProgress {
  import opened BusFrames
  import opened AliasGenerator
  import opened AliasModel
  import opened AliasHistory
  import opened AliasRuns

  /** Frames a slot still has to send before its node is initialized. */
  function Rank(m: Mode): nat {
    match m
    case Releasing => 8
    case Cid1 => 7
    case Cid2 => 6
    case Cid3 => 5
    case Cid4 => 4
    case Rid => 3
    case Amd => 2
    case InitComplete => 1
    case _ => 0
  }

  predicate Initialized(s: Slot) {
    s.node.Some? && s.node.value.initialized
  }

  /** The only turn a starting slot does not use is one inside the 500 ms wait. */
  predicate Waits(s: Slot, now: nat) {
    s.mode.Rid? && Elapsed(now, s.timeStamp) < RID_TIME_WAIT
  }

  predicate TurnOf(w: World, a: Action, i: nat) {
    WellFormed(w) && a.Turn? && w.table.index == i
  }

  predicate WorkingTurn(w: World, a: Action, i: nat) {
    TurnOf(w, a, i) && Rank(w.table.slots[i].mode) > 0 && !Waits(w.table.slots[i], Millis(a.time))
  }

  predicate IdleTurn(w: World, a: Action, i: nat) {
    TurnOf(w, a, i) && Waits(w.table.slots[i], Millis(a.time))
  }

  /** Nobody else uses slot i's alias, the bus takes its frames, and it is not released. */
  predicate Quiet(w: World, a: Action, i: nat) {
    TableOk(w) && i < |w.table.slots| &&
    match a
    case Turn(time, accepted) =>
      (w.table.index == i ==> accepted) &&
      (w.table.index != i && SentBy(w, time, accepted).Some? ==>
        SentBy(w, time, accepted).value.source != w.table.slots[i].alias)
    case Hear(f) => f.source != w.table.slots[i].alias
    case Verify(_) => true
    case Allocate(_) => true
    case Release(id) => Find(w.table.slots, (s: Slot) => Answers(s, id), 0) != i
  }

  /** A slot that is starting up or has started. */
  predicate UnderWay(s: Slot) {
    Rank(s.mode) > 0 || Initialized(s)
  }

  lemma {:induction false} QuietTurn(s: Slot, now: nat)
    requires SlotOk(s) && UnderWay(s)
    ensures var t := Turned(s, now, true);
            && UnderWay(t)
            && Rank(t.mode) == if Rank(s.mode) > 0 && !Waits(s, now) then Rank(s.mode) - 1 else Rank(s.mode)
  {
  }

  lemma {:induction false} QuietStep(w: World, a: Action, w': World, i: nat)
    requires Quiet(w, a, i) && Step(w, a, w') && UnderWay(w.table.slots[i])
    ensures |w'.table.slots| == |w.table.slots| && UnderWay(w'.table.slots[i])
    ensures Rank(w'.table.slots[i].mode) == Rank(w.table.slots[i].mode) - if WorkingTurn(w, a, i) then 1 else 0
  {
    hide AliasOf, Turned, Sent;
    var s := w.table.slots[i];
    assert SlotOk(s);
    match a
    case Turn(time, accepted) =>
      if w.table.index == i {
        QuietTurn(s, Millis(time));
        if SentBy(w, time, accepted).Some? {
          OwnFrameHarmless(s, Millis(time), w'.table.slots[i]);
        }
      }
    case Hear(f) =>
    case Verify(r) =>
    case Allocate(n) => NotVacant(w.table.slots, i);
    case Release(id) =>
  }

  lemma {:induction false} NotVacant(slots: seq<Slot>, i: nat)
    requires i < |slots| && SlotOk(slots[i]) && UnderWay(slots[i])
    ensures Vacancy(slots) != i
  {
  }

  /** How many of the first n actions satisfy the given kind of turn of slot i. */
  ghost function Count(ws: seq<World>, acts: seq<Action>, n: nat, kind: (World, Action) -> bool): nat
    requires n <= |acts| && |ws| == |acts| + 1
  {
    if n == 0 then 0 else Count(ws, acts, n - 1, kind) + if kind(ws[n - 1], acts[n - 1]) then 1 else 0
  }

  /** Every working turn takes the slot exactly one frame further, and nothing takes it back. */
  lemma {:induction false} WorkingTurnsCount(ws: seq<World>, acts: seq<Action>, i: nat, n: nat)
    requires Run(ws, acts) && n <= |acts| && i < |ws[0].table.slots| && UnderWay(ws[0].table.slots[i])
    requires forall k | 0 <= k < n :: Quiet(ws[k], acts[k], i)
    ensures |ws[n].table.slots| == |ws[0].table.slots| && UnderWay(ws[n].table.slots[i])
    ensures Rank(ws[n].table.slots[i].mode) + Count(ws, acts, n, (w, a) => WorkingTurn(w, a, i))
         == Rank(ws[0].table.slots[i].mode)
  {
    if n > 0 {
      WorkingTurnsCount(ws, acts, i, n - 1);
      QuietStep(ws[n - 1], acts[n - 1], ws[n], i);
    }
  }

  // ---------------------------------------------------------------- turns come round

  /** Turns so far, of anyone. */
  predicate AnyTurn(w: World, a: Action) {
    a.Turn?
  }

  lemma {:induction false} IndexMoves(w: World, a: Action, w': World)
    requires Step(w, a, w')
    ensures |w'.table.slots| == |w.table.slots| && WellFormed(w')
    ensures w'.table.index == if a.Turn? then (w.table.index + 1) % |w.table.slots| else w.table.index
  {
    hide Turned, Sent, AliasOf, Checked;
  }

  /** The round robin is fair: after n calls of update() every slot has had n / |slots| turns, give or take one. */
  lemma {:induction false} ServedFairly(ws: seq<World>, acts: seq<Action>, i: nat, n: nat)
    requires Run(ws, acts) && n <= |acts| && WellFormed(ws[0]) && i < |ws[0].table.slots|
    ensures WellFormed(ws[n]) && |ws[n].table.slots| == |ws[0].table.slots|
    ensures Until(ws[n].table, i) + Count(ws, acts, n, AnyTurn)
         == Until(ws[0].table, i) + |ws[0].table.slots| * Count(ws, acts, n, (w, a) => TurnOf(w, a, i))
  {
    hide Until, Step;
    if n > 0 {
      ServedFairly(ws, acts, i, n - 1);
      var w, a, w' := ws[n - 1], acts[n - 1], ws[n];
      assert Step(w, a, w');
      IndexMoves(w, a, w');
      if a.Turn? {
        UntilMoves(w.table, w'.table, i);
        UntilPositive(w.table, i);
      } else {
        SameUntil(w.table, w'.table, i);
      }
      var c := Count(ws, acts, n - 1, (w, a) => TurnOf(w, a, i));
      OneMore(|ws[0].table.slots|, c);
    }
  }

  lemma {:induction false} SameUntil(t: Table, t': Table, i: nat)
    requires t.index == t'.index < |t.slots| == |t'.slots| && i < |t.slots|
    ensures Until(t, i) == Until(t', i)
  {
  }

  lemma {:induction false} OneMore(size: nat, c: nat)
    ensures size * (c + 1) == size * c + size
  {
  }

  lemma {:induction false} TurnsAreWorkIdleOrDone(ws: seq<World>, acts: seq<Action>, i: nat, n: nat)
    requires Run(ws, acts) && n <= |acts| && i < |ws[0].table.slots| && UnderWay(ws[0].table.slots[i])
    requires forall k | 0 <= k < n :: Quiet(ws[k], acts[k], i)
    ensures |ws[n].table.slots| == |ws[0].table.slots|
    ensures Rank(ws[n].table.slots[i].mode) == 0
         || Count(ws, acts, n, (w, a) => TurnOf(w, a, i))
         == Count(ws, acts, n, (w, a) => WorkingTurn(w, a, i)) + Count(ws, acts, n, (w, a) => IdleTurn(w, a, i))
  {
    if n > 0 {
      TurnsAreWorkIdleOrDone(ws, acts, i, n - 1);
      WorkingTurnsCount(ws, acts, i, n - 1);
      QuietStep(ws[n - 1], acts[n - 1], ws[n], i);
    }
  }

  /**
   Start-up ends: a slot that is renegotiating or newly allocated, left alone with its alias,
   has its node initialized after nine rounds of update() plus the rounds it sat out the wait.
   */
  lemma {:induction false} StartUpEnds(ws: seq<World>, acts: seq<Action>, i: nat, n: nat)
    requires Run(ws, acts) && n <= |acts| && WellFormed(ws[0])
    requires i < |ws[0].table.slots| && UnderWay(ws[0].table.slots[i])
    requires forall k | 0 <= k < n :: Quiet(ws[k], acts[k], i)
    requires Count(ws, acts, n, AnyTurn)
          >= |ws[0].table.slots| * (9 + Count(ws, acts, n, (w, a) => IdleTurn(w, a, i)))
    ensures |ws[n].table.slots| == |ws[0].table.slots| && Initialized(ws[n].table.slots[i])
  {
    hide Until, Quiet, Count, Step;
    WorkingTurnsCount(ws, acts, i, n);
    RankAtMost(ws[0].table.slots[i].mode);
    ServedFairly(ws, acts, i, n);
    TurnsAreWorkIdleOrDone(ws, acts, i, n);
    UntilPositive(ws[0].table, i);
    EnoughTurns(|ws[0].table.slots|, Until(ws[0].table, i), Until(ws[n].table, i), Count(ws, acts, n, AnyTurn),
                Count(ws, acts, n, (w, a) => TurnOf(w, a, i)), Count(ws, acts, n, (w, a) => IdleTurn(w, a, i)));
  }

  lemma {:induction false} RankAtMost(m: Mode)
    ensures Rank(m) <= 8
  {
  }

  lemma {:induction false} EnoughTurns(size: nat, first: nat, last: nat, all: nat, turns: nat, idle: nat)
    requires first < size && last + all == first + size * turns && all >= size * (9 + idle)
    ensures turns > 8 + idle
  {
    OneMore(size, 8 + idle);
    Cancel(size, turns, 8 + idle);
  }

  lemma {:induction false} Cancel(size: nat, a: nat, b: nat)
    requires size * a > size * b
    ensures a > b
  {
  }

  // ---------------------------------------------------------------- how long the wait may idle

  /**
   An idle turn is one of a slot that has sent CID 4, less than 500 ms ago as the wrapping clock
   counts: in true time before the wait is over, or a whole turn of the clock later.
   */
  lemma {:induction false} IdleTurnsAreInTheWait(ws: seq<World>, acts: seq<Action>, n: nat, i: nat)
    requires Run(ws, acts) && Initial(ws[0]) && n < |acts| && i < |ws[n].logs| && TurnOf(ws[n], acts[n], i)
    ensures |ws[n].table.slots| == |ws[n].logs|
    ensures ws[n].table.slots[i].mode.Rid? ==>
              var c := Claim(ws[n].logs[i]);
              && |c| == 4 && c[3].Spoken? && c[3].content == CidFrame(4) && c[3].time <= acts[n].time
              && (IdleTurn(ws[n], acts[n], i) <==> (acts[n].time - c[3].time) % CLOCK_RANGE < RID_TIME_WAIT)
              && (IdleTurn(ws[n], acts[n], i) ==>
                    acts[n].time < c[3].time + RID_TIME_WAIT || acts[n].time >= c[3].time + CLOCK_RANGE)
    ensures IdleTurn(ws[n], acts[n], i) ==> ws[n].table.slots[i].mode.Rid?
  {
    hide Claim, SlotOk, Delivered, Took, DistinctNodes;
    RunsKeepLogs(ws, acts, n);
    assert Step(ws[n], acts[n], ws[n + 1]);
    var s := ws[n].table.slots[i];
    assert LogOk(s, ws[n].logs[i], ws[n].clock);
    if s.mode.Rid? {
      ReadingsDiffer(Claim(ws[n].logs[i])[3].time, acts[n].time);
    }
  }

  /** The difference of two readings is the difference of the times, modulo the clock's range. */
  lemma {:induction false} ReadingsDiffer(from: nat, to: nat)
    requires from <= to
    ensures Elapsed(Millis(to), Millis(from)) == (to - from) % CLOCK_RANGE
    ensures to < from + CLOCK_RANGE ==> (to - from) % CLOCK_RANGE == to - from
  {
  }

  // ---------------------------------------------------------------- the start that is missed

  /** Permitted on the bus, but never announced: the node stays uninitialized. */
  predicate Missed(s: Slot) {
    s.mode in {ResendRid, Ready} && s.node.Some? && !s.node.value.initialized
  }

  /** A CID under the slot's alias reaches it: from the wire, or looped back from another slot. */
  predicate ChallengedBy(s: Slot, f: Frame) {
    f.content.CidFrame? && f.source == s.alias
  }

  predicate Challenging(w: World, a: Action, i: nat) {
    TableOk(w) && i < |w.table.slots| &&
    match a
    case Hear(f) => ChallengedBy(w.table.slots[i], f)
    case Turn(time, accepted) =>
      && w.table.index != i && SentBy(w, time, accepted).Some?
      && ChallengedBy(w.table.slots[i], SentBy(w, time, accepted).value)
    case _ => false
  }

  /** All that is left to do for the slot is to announce its node. */
  predicate Announcing(s: Slot) {
    s.mode.InitComplete?
  }

  /** A challenge that comes just then. */
  predicate Skips(w: World, a: Action, i: nat) {
    Challenging(w, a, i) && Announcing(w.table.slots[i])
  }

  /** What becomes of a slot in one action, given whether that is a challenge. */
  predicate Misses(s: Slot, challenged: bool, t: Slot) {
    && (!Missed(s) ==> (Missed(t) <==> challenged && Announcing(s)))
    && (Missed(s) ==> (Missed(t) <==> !t.mode.Releasing?))
    && (Announcing(s) || Initialized(s) ==> Announcing(t) || Initialized(t) || Missed(t) || t.mode.Releasing?)
  }

  lemma {:induction false} FrameMisses(s: Slot, f: Frame, t: Slot)
    requires SlotOk(s) && Checked(s, f, t)
    ensures Misses(s, ChallengedBy(s, f), t)
  {
    hide Regenerates;
  }

  lemma {:induction false} TurnMisses(s: Slot, now: nat, accepted: bool)
    requires SlotOk(s)
    ensures Misses(s, false, Turned(s, now, accepted))
  {
  }

  lemma {:induction false} NothingMisses(s: Slot)
    requires SlotOk(s)
    ensures Misses(s, false, s)
  {
  }

  lemma {:induction false} DeliveryMisses(w: World, f: Frame, w': World, i: nat)
    requires TableOk(w) && Delivered(w, f, w') && i < |w.table.slots|
    ensures |w'.table.slots| == |w.table.slots|
    ensures Misses(w.table.slots[i], ChallengedBy(w.table.slots[i], f), w'.table.slots[i])
  {
    hide SlotOk, Checked, Misses, ChallengedBy, DistinctNodes;
    FrameMisses(w.table.slots[i], f, w'.table.slots[i]);
  }

  lemma {:induction false} UpdateMisses(w: World, a: Action, w': World, i: nat)
    requires TableOk(w) && Step(w, a, w') && i < |w.table.slots| && a.Turn?
    ensures |w'.table.slots| == |w.table.slots|
    ensures Misses(w.table.slots[i], Challenging(w, a, i), w'.table.slots[i])
  {
    hide SlotOk, Checked, Misses, ChallengedBy, DistinctNodes, Turned, Sent;
    var s, now := w.table.slots[i], Millis(a.time);
    TookKeepsTable(w, a.time, a.accepted);
    if w.table.index == i {
      TurnMisses(s, now, a.accepted);
      if Sent(s, now, a.accepted).Some? {
        AcceptedWhenSent(s, now, a.accepted);
        OwnFrameHarmless(s, now, w'.table.slots[i]);
      }
    } else if SentBy(w, a.time, a.accepted).Some? {
      DeliveryMisses(Took(w, a.time, a.accepted), SentBy(w, a.time, a.accepted).value, w', i);
    } else {
      NothingMisses(s);
    }
  }

  lemma {:induction false} RequestMisses(w: World, a: Action, w': World, i: nat)
    requires TableOk(w) && Step(w, a, w') && i < |w.table.slots| && !a.Turn? && !a.Hear?
    ensures |w'.table.slots| == |w.table.slots|
    ensures Misses(w.table.slots[i], false, w'.table.slots[i])
  {
    hide SeedAlias;
    assert SlotOk(w.table.slots[i]);
  }

  /** A slot comes to miss its announcement exactly when a challenge finds it announcing. */
  lemma {:induction false} StepMisses(w: World, a: Action, w': World, i: nat)
    requires TableOk(w) && Step(w, a, w') && i < |w.table.slots|
    ensures |w'.table.slots| == |w.table.slots|
    ensures Misses(w.table.slots[i], Challenging(w, a, i), w'.table.slots[i])
  {
    hide Misses, Took, DistinctNodes, SlotOk, ChallengedBy, Delivered;
    match a
    case Turn(_, _) => UpdateMisses(w, a, w', i);
    case Hear(f) => DeliveryMisses(w, f, w', i);
    case _ => RequestMisses(w, a, w', i);
  }

  /** Action k made slot i skip its announcement, and the slot has not given up its alias since. */
  ghost predicate SkippedAt(ws: seq<World>, acts: seq<Action>, i: nat, k: nat, n: nat)
    requires n < |ws| == |acts| + 1
  {
    && k < n && Skips(ws[k], acts[k], i)
    && forall j | k < j <= n && i < |ws[j].table.slots| :: !ws[j].table.slots[i].mode.Releasing?
  }

  /**
   The exact condition: at any moment of any run, a slot is permitted without its node being
   initialized if and only if some CID under its alias, foreign or looped back from another slot,
   reached it after AMD and before Initialization Complete, and it has kept the alias since.
   */
  lemma {:induction false} MissedExactly(ws: seq<World>, acts: seq<Action>, n: nat, i: nat)
    requires Run(ws, acts) && Initial(ws[0]) && n < |ws| && i < |ws[n].table.slots|
    ensures Missed(ws[n].table.slots[i]) <==> exists k: nat :: SkippedAt(ws, acts, i, k, n)
  {
    hide Step, Missed, Skips, Initial, Misses;
    if n > 0 {
      var w, a, w' := ws[n - 1], acts[n - 1], ws[n];
      TableStaysInOrder(ws, acts, n - 1, n - 1);
      assert Step(w, a, w');
      SameSize(w, a, w');
      MissedExactly(ws, acts, n - 1, i);
      StepMisses(w, a, w', i);
      MissedMoves(w.table.slots[i], Challenging(w, a, i), w'.table.slots[i]);
      SkipsIs(w, a, i);
      if Missed(w'.table.slots[i]) {
        if Missed(w.table.slots[i]) {
          var k: nat :| SkippedAt(ws, acts, i, k, n - 1);
          assert SkippedAt(ws, acts, i, k, n);
        } else {
          assert SkippedAt(ws, acts, i, n - 1, n);
        }
      }
      forall k: nat | SkippedAt(ws, acts, i, k, n)
        ensures Missed(w'.table.slots[i])
      {
        if k < n - 1 {
          assert SkippedAt(ws, acts, i, k, n - 1);
        }
      }
    } else {
      InitialIsNotMissed(ws[0], i);
    }
  }

  lemma {:induction false} InitialIsNotMissed(w: World, i: nat)
    requires Initial(w) && i < |w.table.slots|
    ensures !Missed(w.table.slots[i])
  {
  }

  lemma {:induction false} SameSize(w: World, a: Action, w': World)
    requires Step(w, a, w')
    ensures |w'.table.slots| == |w.table.slots|
  {
    IndexMoves(w, a, w');
  }

  lemma {:induction false} MissedMoves(s: Slot, challenged: bool, t: Slot)
    requires Misses(s, challenged, t)
    ensures Missed(t) <==> !t.mode.Releasing? && (Missed(s) || (challenged && Announcing(s)))
  {
  }

  lemma {:induction false} SkipsIs(w: World, a: Action, i: nat)
    requires i < |w.table.slots|
    ensures Skips(w, a, i) <==> Challenging(w, a, i) && Announcing(w.table.slots[i])
  {
  }

  /**
   So a slot that has got as far as announcing, and keeps its alias, is announcing still, or its
   node is initialized, or it missed; and it missed exactly if it was challenged while announcing.
   */
  lemma {:induction false} ChallengeSkipsAnnouncement(ws: seq<World>, acts: seq<Action>, i: nat, m: nat, n: nat)
    requires Run(ws, acts) && Initial(ws[0]) && m <= n < |ws| && i < |ws[m].table.slots|
    requires Announcing(ws[m].table.slots[i])
    requires forall k | m < k <= n && i < |ws[k].table.slots| :: !ws[k].table.slots[i].mode.Releasing?
    ensures |ws[n].table.slots| == |ws[m].table.slots|
    ensures Missed(ws[n].table.slots[i]) <==> exists k | m <= k < n :: Skips(ws[k], acts[k], i)
    ensures Missed(ws[n].table.slots[i]) <==> !Announcing(ws[n].table.slots[i]) && !Initialized(ws[n].table.slots[i])
    decreases n
  {
    hide Step, Missed, Skips, Misses, Announcing, Initialized;
    TableStaysInOrder(ws, acts, n, n);
    if n == m {
      NotBoth(ws[n].table.slots[i]);
    } else {
      var w, a, w' := ws[n - 1], acts[n - 1], ws[n];
      ChallengeSkipsAnnouncement(ws, acts, i, m, n - 1);
      TableStaysInOrder(ws, acts, n - 1, n - 1);
      assert Step(w, a, w');
      StepMisses(w, a, w', i);
      MissedMoves(w.table.slots[i], Challenging(w, a, i), w'.table.slots[i]);
      SkipsIs(w, a, i);
      OutcomesStay(w.table.slots[i], Challenging(w, a, i), w'.table.slots[i]);
      NotBoth(w'.table.slots[i]);
    }
  }

  lemma {:induction false} OutcomesStay(s: Slot, challenged: bool, t: Slot)
    requires Misses(s, challenged, t) && !t.mode.Releasing?
    ensures Announcing(s) || Initialized(s) || Missed(s) ==> Announcing(t) || Initialized(t) || Missed(t)
  {
  }

  lemma {:induction false} NotBoth(s: Slot)
    requires SlotOk(s)
    ensures Missed(s) ==> !Announcing(s) && !Initialized(s)
  {
  }
}
