/**
 What the bus has seen of a slot: the reservation every initialized node has behind it,
 and the way from the first CID to initialized.
 */
module AliasHistory {
  import opened BusFrames
  import opened AliasGenerator
  import opened AliasModel
  import opened AliasRuns

  /** The log from the first CID 1 of the present negotiation on. */
  function Claim(log: seq<Entry>): (c: seq<Entry>)
    ensures |c| > 0 ==> c[0].Spoken? && c[0].content == CidFrame(1)
  {
    if log == [] then []
    else if log[0].Spoken? && log[0].content == CidFrame(1) then log
    else Claim(log[1..])
  }

  lemma {:induction false} ClaimGrows(log: seq<Entry>, e: Entry)
    ensures Claim(log) != [] ==> Claim(log + [e]) == Claim(log) + [e]
    ensures Claim(log) == [] && e.Spoken? && e.content == CidFrame(1) ==> Claim(log + [e]) == [e]
    ensures Claim(log) == [] && !(e.Spoken? && e.content == CidFrame(1)) ==> Claim(log + [e]) == []
  {
    if log != [] {
      assert (log + [e])[1..] == log[1..] + [e];
      if !(log[0].Spoken? && log[0].content == CidFrame(1)) {
        ClaimGrows(log[1..], e);
      }
    }
  }

  /** The frames that reserve an alias and announce the node, in order. */
  const RESERVATION: seq<Content> :=
    [CidFrame(1), CidFrame(2), CidFrame(3), CidFrame(4), RidFrame, AmdFrame, InitializationComplete]

  /** The first n entries of a claim are the first n frames of the reservation of this alias. */
  predicate Follows(c: seq<Entry>, alias: nat, n: nat) {
    n <= |c| && n <= 7 &&
    (forall k | 0 <= k < n :: c[k].Spoken? && c[k].content == RESERVATION[k] && c[k].alias == alias) &&
    (n >= 5 ==> c[4].time >= c[3].time + RID_TIME_WAIT)
  }

  /** How many frames of the reservation a slot in this mode has sent. */
  function Progress(m: Mode): nat {
    match m
    case Cid2 => 1
    case Cid3 => 2
    case Cid4 => 3
    case Rid => 4
    case Amd => 5
    case InitComplete => 6
    case _ => 0
  }

  predicate LogOk(s: Slot, log: seq<Entry>, clock: nat) {
    var c := Claim(log);
    && (!Permitted(s.mode) ==> |c| == Progress(s.mode) && Follows(c, s.alias, Progress(s.mode)))
    && (s.node.Some? && s.node.value.initialized ==> Follows(c, s.alias, 7))
    && (s.mode.Rid? ==> c[3].time <= clock && s.timeStamp == Millis(c[3].time))
  }

  predicate LogsOk(w: World) {
    TableOk(w) && forall i | 0 <= i < |w.logs| :: LogOk(w.table.slots[i], w.logs[i], w.clock)
  }

  /** Over less than one turn of the clock, the library's difference of two readings is true time. */
  lemma {:induction false} ElapsedIsTrueTime(from: nat, to: nat)
    requires from <= to < from + CLOCK_RANGE
    ensures Elapsed(Millis(to), Millis(from)) == to - from
  {
    var d := to - from;
    var q, r := from / CLOCK_RANGE, from % CLOCK_RANGE;
    if r + d < CLOCK_RANGE {
      assert to == q * CLOCK_RANGE + (r + d);
      assert Millis(to) == r + d;
    } else {
      assert to == (q + 1) * CLOCK_RANGE + (r + d - CLOCK_RANGE);
      assert Millis(to) == r + d - CLOCK_RANGE;
    }
  }

  /** 500 ms of the wrapping clock are at least 500 ms of true time. */
  lemma {:induction false} WaitIsReal(from: nat, to: nat)
    requires from <= to && Elapsed(Millis(to), Millis(from)) >= RID_TIME_WAIT
    ensures to >= from + RID_TIME_WAIT
  {
    if to < from + RID_TIME_WAIT {
      ElapsedIsTrueTime(from, to);
    }
  }

  lemma {:induction false} SilentTurnKeepsLog(s: Slot, log: seq<Entry>, clock: nat, time: nat, accepted: bool)
    requires SlotOk(s) && LogOk(s, log, clock) && clock <= time && Sent(s, Millis(time), accepted).None?
    ensures LogOk(Turned(s, Millis(time), accepted), log, time)
  {
    hide Claim;
  }

  lemma {:induction false} SpokenTurnKeepsLog(s: Slot, log: seq<Entry>, clock: nat, time: nat)
    requires SlotOk(s) && LogOk(s, log, clock) && clock <= time && Sent(s, Millis(time), true).Some?
    ensures var f := Sent(s, Millis(time), true).value;
            LogOk(Turned(s, Millis(time), true), log + [Spoken(f.content, f.source, time)], time)
  {
    hide Claim;
    var f := Sent(s, Millis(time), true).value;
    ClaimGrows(log, Spoken(f.content, f.source, time));
    if s.mode.Rid? {
      WaitIsReal(Claim(log)[3].time, time);
    }
  }

  lemma {:induction false} FrameKeepsLog(s: Slot, log: seq<Entry>, clock: nat, f: Frame, t: Slot)
    requires SlotOk(s) && LogOk(s, log, clock) && Checked(s, f, t)
    ensures LogOk(t, LogAfterFrame(log, s, f), clock)
  {
    hide AliasOf, RESERVATION;
    assert Claim([]) == [];
    hide Claim;
    ClaimGrows(log, Heard(f));
  }

  lemma {:induction false} DeliveryKeepsLogs(w: World, f: Frame, w': World)
    requires LogsOk(w) && Delivered(w, f, w')
    ensures LogsOk(w')
  {
    hide Checked, LogOk;
    DeliveryKeepsTable(w, f, w');
    forall i | 0 <= i < |w'.logs|
      ensures LogOk(w'.table.slots[i], w'.logs[i], w'.clock)
    {
      FrameKeepsLog(w.table.slots[i], w.logs[i], w.clock, f, w'.table.slots[i]);
    }
  }

  lemma {:induction false} TookKeepsLogs(w: World, time: nat, accepted: bool)
    requires LogsOk(w) && w.clock <= time
    ensures LogsOk(Took(w, time, accepted))
  {
    hide Turned, Sent, LogOk;
    TookKeepsTable(w, time, accepted);
    var k := w.table.index;
    if SentBy(w, time, accepted).None? {
      SilentTurnKeepsLog(w.table.slots[k], w.logs[k], w.clock, time, accepted);
    } else {
      AcceptedWhenSent(w.table.slots[k], Millis(time), accepted);
      SpokenTurnKeepsLog(w.table.slots[k], w.logs[k], w.clock, time);
    }
    forall i | 0 <= i < |w.logs| && i != k
      ensures LogOk(w.table.slots[i], w.logs[i], time)
    {
      LaterClock(w.table.slots[i], w.logs[i], w.clock, time);
    }
  }

  lemma {:induction false} AcceptedWhenSent(s: Slot, now: nat, accepted: bool)
    requires SlotOk(s) && Sent(s, now, accepted).Some?
    ensures accepted
  {
  }

  lemma {:induction false} LaterClock(s: Slot, log: seq<Entry>, clock: nat, time: nat)
    requires LogOk(s, log, clock) && clock <= time
    ensures LogOk(s, log, time)
  {
  }

  lemma {:induction false} StepKeepsLogs(w: World, a: Action, w': World)
    requires LogsOk(w) && Step(w, a, w')
    ensures LogsOk(w')
  {
    hide Turned, Sent, Delivered, Claim;
    match a
    case Turn(time, accepted) =>
      TookKeepsLogs(w, time, accepted);
      match SentBy(w, time, accepted) {
        case None =>
        case Some(f) => DeliveryKeepsLogs(Took(w, time, accepted), f, w');
      }
    case Hear(f) => DeliveryKeepsLogs(w, f, w');
    case Verify(r) => OthersKeepLogs(w, a, w');
    case Allocate(n) => OthersKeepLogs(w, a, w');
    case Release(id) => OthersKeepLogs(w, a, w');
  }

  lemma {:induction false} OthersKeepLogs(w: World, a: Action, w': World)
    requires LogsOk(w) && Step(w, a, w') && !a.Turn? && !a.Hear?
    ensures LogsOk(w')
  {
    hide AliasOf, RESERVATION;
    StepKeepsTable(w, a, w');
    assert Claim([]) == [];
  }

  lemma {:induction false} RunsKeepLogs(ws: seq<World>, acts: seq<Action>, n: nat)
    requires Run(ws, acts) && Initial(ws[0]) && n < |ws|
    ensures LogsOk(ws[n])
  {
    if n > 0 {
      RunsKeepLogs(ws, acts, n - 1);
      StepKeepsLogs(ws[n - 1], acts[n - 1], ws[n]);
    } else {
      TableStaysInOrder(ws, acts, 0, 0);
      assert Claim([]) == [];
    }
  }

  /**
   In every run, whatever is refused and whatever frames arrive: behind an initialized node
   stands the whole reservation. Since the slot's last (re)allocation update() sent for it
   CID 1 to 4, RID, AMD and Initialization Complete, in this order and all under the alias
   the node has now, at least 500 ms of true time lie between CID 4 and RID, and no foreign
   frame under this alias (other than CIDs) came in between.
   */
  lemma {:induction false} InitializedHasReserved(ws: seq<World>, acts: seq<Action>, n: nat, i: nat)
    requires Run(ws, acts) && Initial(ws[0]) && n < |ws| && i < |ws[n].table.slots|
    requires var s := ws[n].table.slots[i]; s.node.Some? && s.node.value.initialized
    ensures TableOk(ws[n])
    ensures Follows(Claim(ws[n].logs[i]), ws[n].table.slots[i].node.value.alias, 7)
  {
    RunsKeepLogs(ws, acts, n);
    assert SlotOk(ws[n].table.slots[i]) && LogOk(ws[n].table.slots[i], ws[n].logs[i], ws[n].clock);
  }
}
