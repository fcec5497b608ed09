/** The node's self-description: one reply sent in many frames, over many calls of update(). */
module SnipReply {
  import opened Bits
  import opened Eeproms
  import opened NodeIds

  const NAME_START := 1028
  const NAME_END := 1060
  const DESCRIPTION_END := 1188
  /** Stands for the version byte that precedes the strings in EEPROM. */
  const VERSION_STEP := 1027

  /** snipstring with its terminator: version 1, then maker, model, hardware and software version, line by line. */
  const SNIP_STRING: seq<Byte> :=
    [1, 82, 97, 105, 108, 115, 116, 97, 114, 115, 32, 76, 105, 109, 105, 116, 101, 100, 10,
     73, 111, 10, 49, 46, 48, 10, 49, 46, 53, 46, 50, 0]

  const STRING_LENGTH := 32

  // ---------------------------------------------------------------- what is to be sent

  function NewlineToZero(b: Byte): Byte {
    if b == 10 then 0 else b
  }

  function FixedPart(): (s: seq<Byte>)
    ensures |s| == STRING_LENGTH
  {
    assert |SNIP_STRING| == STRING_LENGTH;
    seq(STRING_LENGTH, i requires 0 <= i < STRING_LENGTH => NewlineToZero(SNIP_STRING[i]))
  }

  /** Version 1, "Railstars Limited", "Io", "1.0" and "1.5.2", each string with a zero at its end. */
  lemma {:induction false} FixedPartIs()
    ensures FixedPart() == [1, 82, 97, 105, 108, 115, 116, 97, 114, 115, 32, 76, 105, 109, 105, 116, 101, 100, 0,
                            73, 111, 0, 49, 46, 48, 0, 49, 46, 53, 46, 50, 0]
  {
    assert |SNIP_STRING| == STRING_LENGTH;
  }

  /** A stored string up to and including its first zero, or all of it. */
  function Cut(s: seq<Byte>): seq<Byte> {
    if s == [] then [] else if s[0] == 0 then [0] else [s[0]] + Cut(s[1..])
  }

  function UserName(m: Eeprom): seq<Byte> {
    Cut(m[NAME_START..NAME_END])
  }

  function Description(m: Eeprom): seq<Byte> {
    Cut(m[NAME_END..DESCRIPTION_END])
  }

  /** The cut string is the front of the string up to its first zero, with that zero; without a zero it is all of it. */
  lemma {:induction false} CutIs(s: seq<Byte>)
    ensures var c := Cut(s);
            c <= s && (forall k | 0 <= k < |c| - 1 :: c[k] != 0) && (c != s ==> c != [] && c[|c| - 1] == 0)
  {
    if s != [] && s[0] != 0 {
      CutIs(s[1..]);
      assert s == [s[0]] + s[1..];
    }
  }

  /** The whole reply. */
  function WholeReply(m: Eeprom): seq<Byte> {
    FixedPart() + [1] + UserName(m) + Description(m)
  }

  /** Four fixed strings behind a 1, and the two strings stored at 1028 and 1060 behind another. */
  lemma {:induction false} WholeReplyIs(m: Eeprom)
    ensures WholeReply(m)
         == [1, 82, 97, 105, 108, 115, 116, 97, 114, 115, 32, 76, 105, 109, 105, 116, 101, 100, 0,
             73, 111, 0, 49, 46, 48, 0, 49, 46, 53, 46, 50, 0]
            + [1] + Cut(m[1028..1060]) + Cut(m[1060..1188])
  {
    hide FixedPart, SNIP_STRING, Cut;
    FixedPartIs();
  }

  // ---------------------------------------------------------------- the chunker on values

  datatype Progress = Progress(stringIndex: int, eepromIndex: int, stringNo: nat) {
    predicate Busy() {
      stringIndex > -1 || eepromIndex > -1
    }
  }

  const IDLE := Progress(-1, -1, 0)
  const REQUESTED := Progress(0, -1, 0)

  /** Bytes read from i on until the frame is full, the string is, or a zero has been read. */
  function Fill(m: Eeprom, i: nat, end: nat, room: nat): (s: seq<Byte>)
    requires end <= EEPROM_SIZE
    ensures |s| <= room && (i <= end ==> i + |s| <= end)
    decreases room
  {
    if room == 0 || i >= end then []
    else if m[i] == 0 then [0]
    else [m[i]] + Fill(m, i + 1, end, room - 1)
  }

  predicate Ended(s: seq<Byte>, i: nat, end: nat) {
    (|s| > 0 && s[|s| - 1] == 0) || i + |s| >= end
  }

  predicate InPlace(p: Progress) {
    || (0 <= p.stringIndex < STRING_LENGTH && p.eepromIndex == -1)
    || (p.stringIndex == -1 && p.eepromIndex == VERSION_STEP)
    || (p.stringIndex == -1 && p.stringNo == 1 && NAME_START <= p.eepromIndex < NAME_END)
    || (p.stringIndex == -1 && p.stringNo == 2 && NAME_END <= p.eepromIndex < DESCRIPTION_END)
    || (p.stringIndex == -1 && p.eepromIndex == -1)
  }

  function SendName(m: Eeprom, p: Progress, room: nat): (seq<Byte>, Progress)
    requires p.stringNo == 1 ==> 0 <= p.eepromIndex
  {
    if p.stringNo != 1 then ([], p)
    else
      var s := Fill(m, p.eepromIndex, NAME_END, room);
      (s, if Ended(s, p.eepromIndex, NAME_END) then p.(eepromIndex := NAME_END, stringNo := 2)
          else p.(eepromIndex := p.eepromIndex + |s|))
  }

  function SendDescription(m: Eeprom, p: Progress, room: nat): (seq<Byte>, Progress)
    requires p.stringNo == 2 ==> 0 <= p.eepromIndex
  {
    if p.stringNo != 2 then ([], p)
    else
      var s := Fill(m, p.eepromIndex, DESCRIPTION_END, room);
      (s, if Ended(s, p.eepromIndex, DESCRIPTION_END) then p.(eepromIndex := -1, stringNo := 0)
          else p.(eepromIndex := p.eepromIndex + |s|))
  }

  /** One call of update() while a reply is under way: the payload of the frame and what is left. */
  function Chunk(m: Eeprom, p: Progress): (seq<Byte>, Progress)
    requires InPlace(p) && p.Busy()
  {
    if p.stringIndex > -1 then
      var len := Min(STRING_LENGTH - p.stringIndex, 6);
      (FixedPart()[p.stringIndex..p.stringIndex + len],
       if p.stringIndex + len >= STRING_LENGTH then p.(stringIndex := -1, eepromIndex := VERSION_STEP)
       else p.(stringIndex := p.stringIndex + len))
    else
      var first := p.eepromIndex == VERSION_STEP;
      var head: seq<Byte> := if first then [1] else [];
      var q := if first then p.(eepromIndex := NAME_START, stringNo := 1) else p;
      var (a, r) := SendName(m, q, 6 - |head|);
      var (b, t) := SendDescription(m, r, 6 - |head| - |a|);
      (head + a + b, t)
  }

  /** The part of the reply not yet sent. */
  function Remaining(m: Eeprom, p: Progress): seq<Byte>
    requires InPlace(p)
  {
    if p.stringIndex > -1 then FixedPart()[p.stringIndex..] + [1] + UserName(m) + Description(m)
    else if p.eepromIndex == -1 then []
    else if p.eepromIndex == VERSION_STEP then [1] + UserName(m) + Description(m)
    else if p.stringNo == 1 then Cut(m[p.eepromIndex..NAME_END]) + Description(m)
    else Cut(m[p.eepromIndex..DESCRIPTION_END])
  }

  /** Filling takes the front of the cut string, and has ended exactly when it has taken all of it. */
  lemma {:induction false} FillTakesFront(m: Eeprom, i: nat, end: nat, room: nat)
    requires i < end <= EEPROM_SIZE
    ensures var s, whole := Fill(m, i, end, room), Cut(m[i..end]);
            && s <= whole && (|s| < room ==> s == whole)
            && (Ended(s, i, end) ==> s == whole)
            && (!Ended(s, i, end) ==> s + Cut(m[i + |s|..end]) == whole && i + |s| < end)
    decreases room
  {
    hide Cut, Fill;
    CutAt(m, i, end);
    FillAt(m, i, end, room);
    if room > 0 && m[i] != 0 {
      var s, rest := Fill(m, i + 1, end, room - 1), Cut(m[i + 1..end]);
      if i + 1 < end {
        FillTakesFront(m, i + 1, end, room - 1);
        InFront(m[i], s, rest, Cut(m[i + 1 + |s|..end]));
      }
    }
  }

  lemma {:induction false} InFront(b: Byte, s: seq<Byte>, rest: seq<Byte>, more: seq<Byte>)
    ensures s <= rest ==> [b] + s <= [b] + rest
    ensures [b] + s + more == [b] + (s + more)
  {
  }

  lemma {:induction false} CutAt(m: Eeprom, i: nat, end: nat)
    requires i < end <= EEPROM_SIZE
    ensures Cut(m[i..end]) == if m[i] == 0 then [0] else [m[i]] + Cut(m[i + 1..end])
    ensures i + 1 == end ==> Cut(m[i + 1..end]) == []
  {
    assert m[i..end][1..] == m[i + 1..end];
  }

  lemma {:induction false} FillAt(m: Eeprom, i: nat, end: nat, room: nat)
    requires i < end <= EEPROM_SIZE
    ensures Fill(m, i, end, room)
         == if room == 0 then [] else if m[i] == 0 then [0] else [m[i]] + Fill(m, i + 1, end, room - 1)
    ensures i + 1 == end && room > 0 ==> Fill(m, i + 1, end, room - 1) == []
  {
  }

  /** Every frame carries the next one to six bytes of the reply, and none is skipped or repeated. */
  lemma {:induction false} ChunkIsNext(m: Eeprom, p: Progress)
    requires InPlace(p) && p.Busy()
    ensures var (payload, q) := Chunk(m, p);
            InPlace(q) && 1 <= |payload| <= 6 && payload + Remaining(m, q) == Remaining(m, p)
  {
    hide SendName, Fill, Cut, FixedPart, SNIP_STRING;
    if p.stringIndex > -1 {
      FixedChunk(m, p);
    } else if p.stringNo == 2 && p.eepromIndex != VERSION_STEP {
      DescriptionIsSent(m, p, 6);
      NoNameAnyMore(m, p);
    } else {
      StringsChunk(m, p);
    }
  }

  lemma {:induction false} FixedChunk(m: Eeprom, p: Progress)
    requires InPlace(p) && p.stringIndex > -1
    ensures var (payload, q) := Chunk(m, p);
            InPlace(q) && 1 <= |payload| <= 6 && payload + Remaining(m, q) == Remaining(m, p)
  {
    hide FixedPart, SNIP_STRING, Cut, UserName, Description;
    var f, i, len := FixedPart(), p.stringIndex, Min(STRING_LENGTH - p.stringIndex, 6);
    SplitAt(f, i, len, [1], UserName(m), Description(m));
    if i + len == STRING_LENGTH {
      assert f[i + len..] == [];
    }
  }

  lemma {:induction false} SplitAt(f: seq<Byte>, i: nat, len: nat, a: seq<Byte>, b: seq<Byte>, c: seq<Byte>)
    requires i + len <= |f|
    ensures f[i..i + len] + (f[i + len..] + a + b + c) == f[i..] + a + b + c
    ensures f[i + len..] == [] ==> f[i..i + len] + (a + b + c) == f[i..] + a + b + c
  {
    assert f[i..] == f[i..i + len] + f[i + len..];
  }

  /** In the user name, and in the description, what is sent is the front of what remains. */
  lemma {:induction false} NameIsSent(m: Eeprom, p: Progress, room: nat)
    requires InPlace(p) && p.stringIndex == -1 && p.stringNo == 1 && NAME_START <= p.eepromIndex < NAME_END && room > 0
    ensures var (s, q) := SendName(m, p, room);
            && 0 < |s| <= room && InPlace(q) && q.stringIndex == -1 && q.eepromIndex != VERSION_STEP && q.stringNo in {1, 2}
            && q.eepromIndex > -1
            && s + Remaining(m, q) == Remaining(m, p)
  {
    hide Fill, Cut, FixedPart, SNIP_STRING;
    var s := Fill(m, p.eepromIndex, NAME_END, room);
    FillTakesFront(m, p.eepromIndex, NAME_END, room);
    FillIsNotEmpty(m, p.eepromIndex, NAME_END, room);
    if Ended(s, p.eepromIndex, NAME_END) {
      assert Remaining(m, p) == s + Description(m);
    } else {
      Regroup(s, Cut(m[p.eepromIndex + |s|..NAME_END]), Description(m));
    }
  }

  lemma {:induction false} Regroup(a: seq<Byte>, b: seq<Byte>, c: seq<Byte>)
    ensures (a + b) + c == a + (b + c)
  {
  }

  lemma {:induction false} DescriptionIsSent(m: Eeprom, p: Progress, room: nat)
    requires InPlace(p) && p.stringIndex == -1 && p.stringNo == 2 && NAME_END <= p.eepromIndex < DESCRIPTION_END
    ensures var (s, q) := SendDescription(m, p, room);
            && |s| <= room && (room > 0 ==> |s| > 0) && InPlace(q) && q.stringIndex == -1
            && s + Remaining(m, q) == Remaining(m, p)
  {
    hide Fill, Cut, FixedPart, SNIP_STRING;
    FillTakesFront(m, p.eepromIndex, DESCRIPTION_END, room);
    if room > 0 {
      FillIsNotEmpty(m, p.eepromIndex, DESCRIPTION_END, room);
    }
  }

  lemma {:induction false} StringsChunk(m: Eeprom, p: Progress)
    requires InPlace(p) && p.stringIndex == -1
    requires p.eepromIndex == VERSION_STEP || (p.eepromIndex > -1 && p.stringNo == 1)
    ensures var (payload, q) := Chunk(m, p);
            InPlace(q) && 1 <= |payload| <= 6 && payload + Remaining(m, q) == Remaining(m, p)
  {
    hide SendName, SendDescription, Remaining;
    var first := p.eepromIndex == VERSION_STEP;
    var head: seq<Byte> := if first then [1] else [];
    var q := if first then p.(eepromIndex := NAME_START, stringNo := 1) else p;
    VersionFirst(m, p);
    var room := 6 - |head|;
    NameIsSent(m, q, room);
    var (a, r) := SendName(m, q, room);
    if r.stringNo == 2 {
      DescriptionIsSent(m, r, room - |a|);
      var (b, t) := SendDescription(m, r, room - |a|);
      Regroup(head + a, b, Remaining(m, t));
    } else {
      NoDescriptionYet(m, r, room - |a|);
      assert head + a + [] == head + a;
    }
    Regroup(head, a, Remaining(m, r));
  }

  lemma {:induction false} NoNameAnyMore(m: Eeprom, p: Progress)
    requires p.stringNo != 1
    ensures SendName(m, p, 6) == ([], p)
  {
  }

  lemma {:induction false} NoDescriptionYet(m: Eeprom, p: Progress, room: nat)
    requires p.stringNo != 2
    ensures SendDescription(m, p, room) == ([], p)
  {
  }

  /** The version byte comes before the user name. */
  lemma {:induction false} VersionFirst(m: Eeprom, p: Progress)
    requires InPlace(p) && p.stringIndex == -1
    ensures p.eepromIndex == VERSION_STEP ==>
              Remaining(m, p) == [1] + Remaining(m, p.(eepromIndex := NAME_START, stringNo := 1))
  {
    hide Cut, FixedPart, SNIP_STRING;
    Regroup([1], UserName(m), Description(m));
  }

  lemma {:induction false} FillIsNotEmpty(m: Eeprom, i: nat, end: nat, room: nat)
    requires i < end <= EEPROM_SIZE && room > 0
    ensures |Fill(m, i, end, room)| > 0
  {
  }

  /** The payloads of all frames from here to the end of the reply. */
  function Payloads(m: Eeprom, p: Progress): seq<seq<Byte>>
    requires InPlace(p)
    decreases |Remaining(m, p)|
  {
    if !p.Busy() then []
    else
      ChunkIsNext(m, p);
      var (payload, q) := Chunk(m, p);
      [payload] + Payloads(m, q)
  }

  function Concat(ps: seq<seq<Byte>>): seq<Byte> {
    if ps == [] then [] else ps[0] + Concat(ps[1..])
  }

  lemma {:induction false} PayloadsMakeRemaining(m: Eeprom, p: Progress)
    requires InPlace(p)
    ensures Concat(Payloads(m, p)) == Remaining(m, p)
    ensures forall k | 0 <= k < |Payloads(m, p)| :: 1 <= |Payloads(m, p)[k]| <= 6
    decreases |Remaining(m, p)|
  {
    hide Chunk, Remaining;
    if p.Busy() {
      ChunkIsNext(m, p);
      var (payload, q) := Chunk(m, p);
      PayloadsMakeRemaining(m, q);
      assert Payloads(m, p)[1..] == Payloads(m, q);
    } else {
      NothingRemains(m, p);
    }
  }

  lemma {:induction false} NothingRemains(m: Eeprom, p: Progress)
    requires InPlace(p) && !p.Busy()
    ensures Remaining(m, p) == []
  {
  }

  /**
   Whatever the EEPROM holds, the frames sent for one request carry, put together, the fixed
   string with its newlines as zeros, the version byte, and the two stored strings each cut
   just after its first zero; every frame carries one to six bytes.
   */
  lemma {:induction false} RequestIsAnswered(m: Eeprom)
    ensures Concat(Payloads(m, REQUESTED)) == WholeReply(m)
    ensures forall k | 0 <= k < |Payloads(m, REQUESTED)| :: 1 <= |Payloads(m, REQUESTED)[k]| <= 6
  {
    PayloadsMakeRemaining(m, REQUESTED);
    assert FixedPart()[0..] == FixedPart();
  }

  lemma {:induction false} FillIsFull(m: Eeprom, i: nat, end: nat, room: nat)
    requires i < end <= EEPROM_SIZE
    ensures var s := Fill(m, i, end, room); |s| < room ==> Ended(s, i, end)
    decreases room
  {
    FillAt(m, i, end, room);
    if room > 0 && m[i] != 0 && i + 1 < end {
      FillIsFull(m, i + 1, end, room - 1);
    }
  }

  /** A frame that is not full ends the fixed string or the reply. */
  lemma {:induction false} OnlyLastIsShort(m: Eeprom, p: Progress)
    requires InPlace(p) && p.Busy()
    ensures var (payload, q) := Chunk(m, p);
            && (|payload| < 6 ==> if p.stringIndex > -1 then q.stringIndex == -1 else !q.Busy())
            && (q.stringIndex > -1 ==> p.stringIndex > -1)
            && (p.stringIndex > -1 && q.stringIndex == -1 ==> q.eepromIndex == VERSION_STEP)
  {
    hide Fill, Ended, FixedPart, SNIP_STRING;
    if p.stringIndex == -1 {
      var first := p.eepromIndex == VERSION_STEP;
      var room := if first then 5 else 6;
      var q := if first then p.(eepromIndex := NAME_START, stringNo := 1) else p;
      var (a, r) := SendName(m, q, room);
      if q.stringNo == 1 {
        FillIsFull(m, q.eepromIndex, NAME_END, room);
      }
      if r.stringNo == 2 {
        FillIsFull(m, r.eepromIndex, DESCRIPTION_END, room - |a|);
      }
    }
  }

  lemma {:induction false} SizeOfRemaining(m: Eeprom, p: Progress)
    requires InPlace(p)
    ensures var strings := 1 + |UserName(m)| + |Description(m)|;
            && (p.stringIndex > -1 ==> |Remaining(m, p)| == STRING_LENGTH - p.stringIndex + strings)
            && (p.eepromIndex == VERSION_STEP ==> |Remaining(m, p)| == strings)
            && (!p.Busy() ==> |Remaining(m, p)| == 0)
  {
    hide FixedPart, UserName, Description;
  }

  /** The calls that are still needed: all frames are full but the one that ends the fixed string and the last. */
  lemma {:induction false} CallsNeeded(m: Eeprom, p: Progress)
    requires InPlace(p)
    ensures |Payloads(m, p)| == if p.stringIndex > -1 then
                                  (STRING_LENGTH - p.stringIndex + 5) / 6 + (1 + |UserName(m)| + |Description(m)| + 5) / 6
                                else (|Remaining(m, p)| + 5) / 6
    decreases |Remaining(m, p)|
  {
    hide Chunk, Remaining, UserName, Description;
    SizeOfRemaining(m, p);
    if p.Busy() {
      ChunkIsNext(m, p);
      OnlyLastIsShort(m, p);
      SizeOfRemaining(m, Chunk(m, p).1);
      var (payload, q) := Chunk(m, p);
      CallsNeeded(m, q);
    }
  }

  /** A reply takes six frames for the fixed strings and as few as possible for the stored ones. */
  lemma {:induction false} FramesNeeded(m: Eeprom)
    ensures |Payloads(m, REQUESTED)| == 6 + (1 + |Cut(m[1028..1060])| + |Cut(m[1060..1188])| + 5) / 6
  {
    CallsNeeded(m, REQUESTED);
  }

  // ---------------------------------------------------------------- requests

  datatype Reply = NoReply | SnipReplyTo(dest: nat) | PipReplyTo(dest: nat)

  /** The prepared reply, whether it is to go out as it is, and how far a description has got. */
  datatype Info = Info(progress: Progress, messageReady: bool, reply: Reply)

  datatype Request = SnipRequest(from: nat) | PipRequest(from: nat)

  function Handle(i: Info, r: Request): (Info, bool) {
    if i.progress.Busy() then (i, false)
    else match r
      case SnipRequest(from) => (i.(progress := i.progress.(stringIndex := 0), reply := SnipReplyTo(from)), true)
      case PipRequest(from) => (i.(messageReady := true, reply := PipReplyTo(from)), true)
  }

  /** The protocols the node supports, and two bytes of flags it does not. */
  const PIP_PAYLOAD: seq<Byte> := [0xD5, 0x18, 0, 0, 0, 0]

  /** What follows the destination in the prepared reply itself. */
  function PreparedPayload(r: Reply): seq<Byte> {
    if r.PipReplyTo? then PIP_PAYLOAD else []
  }

  function Update(m: Eeprom, i: Info): (Info, Option<(Reply, seq<Byte>)>)
    requires InPlace(i.progress)
  {
    if i.messageReady then (i.(messageReady := false), Some((i.reply, PreparedPayload(i.reply))))
    else if i.progress.Busy() then
      var (payload, q) := Chunk(m, i.progress);
      (i.(progress := q), Some((i.reply, payload)))
    else (i, None)
  }

  // ---------------------------------------------------------------- whole runs

  datatype Action = Tick | Ask(request: Request)

  /** Calls of update() and requests in any order: the state afterwards, the frames sent, and the requests taken. */
  function Runs(m: Eeprom, i: Info, acts: seq<Action>): (Info, seq<(Reply, seq<Byte>)>, nat)
    requires InPlace(i.progress)
    decreases |acts|
  {
    if acts == [] then (i, [], 0)
    else match acts[0]
      case Tick =>
        UpdateStaysInPlace(m, i);
        var (j, frame) := Update(m, i);
        var (k, frames, taken) := Runs(m, j, acts[1..]);
        (k, (if frame.Some? then [frame.value] else []) + frames, taken)
      case Ask(r) =>
        var (j, handled) := Handle(i, r);
        var (k, frames, taken) := Runs(m, j, acts[1..]);
        (k, frames, taken + if handled then 1 else 0)
  }

  lemma {:induction false} UpdateStaysInPlace(m: Eeprom, i: Info)
    requires InPlace(i.progress)
    ensures InPlace(Update(m, i).0.progress)
  {
    hide Chunk;
    if i.progress.Busy() {
      ChunkIsNext(m, i.progress);
    }
  }

  function Ticks(acts: seq<Action>): nat {
    if acts == [] then 0 else (if acts[0].Tick? then 1 else 0) + Ticks(acts[1..])
  }

  function Headed(r: Reply, payloads: seq<seq<Byte>>): seq<(Reply, seq<Byte>)> {
    seq(|payloads|, k requires 0 <= k < |payloads| => (r, payloads[k]))
  }

  /**
   A reply under way is not disturbed: whatever requests come before its last frame, all of them
   are refused, and the frames sent are those of the reply, one a call, to the one it was asked by.
   */
  lemma {:induction false} RequestsDoNotDisturb(m: Eeprom, i: Info, acts: seq<Action>)
    requires InPlace(i.progress) && !i.messageReady
    requires Ticks(acts) <= |Payloads(m, i.progress)| && (acts != [] ==> acts[|acts| - 1].Tick?)
    ensures var (j, frames, taken) := Runs(m, i, acts);
            && taken == 0 && frames == Headed(i.reply, Payloads(m, i.progress)[..Ticks(acts)])
            && InPlace(j.progress) && !j.messageReady && j.reply == i.reply
            && Payloads(m, j.progress) == Payloads(m, i.progress)[Ticks(acts)..]
    decreases |acts|
  {
    hide Chunk, Remaining, Handle, Headed;
    NoneYet(i.reply, Payloads(m, i.progress));
    if acts != [] {
      LastTickCounts(acts);
      ChunkIsNext(m, i.progress);
      UpdateStaysInPlace(m, i);
      if acts[0].Tick? {
        var (j, frame) := Update(m, i);
        var rest, n := Payloads(m, j.progress), Ticks(acts[1..]);
        RequestsDoNotDisturb(m, j, acts[1..]);
        assert Payloads(m, i.progress) == [frame.value.1] + rest;
        OneMore(i.reply, frame.value.1, rest, n);
      } else {
        Refused(i, acts[0].request);
        RequestsDoNotDisturb(m, i, acts[1..]);
      }
    }
  }

  /** The bytes of the frames put together. */
  function BytesOf(frames: seq<(Reply, seq<Byte>)>): seq<Byte> {
    if frames == [] then [] else frames[0].1 + BytesOf(frames[1..])
  }

  lemma {:induction false} BytesAreConcat(r: Reply, ps: seq<seq<Byte>>)
    ensures BytesOf(Headed(r, ps)) == Concat(ps)
  {
    if ps != [] {
      BytesAreConcat(r, ps[1..]);
      assert Headed(r, ps)[1..] == Headed(r, ps[1..]);
    }
  }

  /**
   From the request on: a node that has nothing else to send takes a request for its description, and
   the frames of as many calls as the reply has pieces, with any requests in between, are addressed to
   the node that asked and carry together the whole reply; after that there is nothing more to send.
   */
  lemma {:induction false} RequestToReply(m: Eeprom, i: Info, from: nat, acts: seq<Action>)
    requires InPlace(i.progress) && !i.progress.Busy() && !i.messageReady
    requires Ticks(acts) == |Payloads(m, REQUESTED)| && acts != [] && acts[|acts| - 1].Tick?
    ensures var (j, taken) := Handle(i, SnipRequest(from));
            && taken && InPlace(j.progress)
            && var (k, frames, _) := Runs(m, j, acts);
               && BytesOf(frames) == WholeReply(m)
               && (forall n | 0 <= n < |frames| :: frames[n].0 == SnipReplyTo(from))
               && InPlace(k.progress) && Update(m, k) == (k, None)
  {
    hide Chunk, Remaining, WholeReply, Concat, Runs;
    var j := Handle(i, SnipRequest(from)).0;
    SameReply(m, j.progress, REQUESTED);
    RequestsDoNotDisturb(m, j, acts);
    RequestIsAnswered(m);
    var ps := Payloads(m, j.progress);
    assert ps[..|ps|] == ps && ps[|ps|..] == [];
    BytesAreConcat(SnipReplyTo(from), ps);
  }

  /** Before the stored strings begin it does not matter which of them was sent last. */
  lemma {:induction false} SameReply(m: Eeprom, p: Progress, q: Progress)
    requires InPlace(p) && InPlace(q) && p.stringIndex == q.stringIndex && p.eepromIndex == q.eepromIndex
    requires p.stringIndex > -1 || p.eepromIndex == VERSION_STEP
    ensures Payloads(m, p) == Payloads(m, q)
    decreases |Remaining(m, p)|
  {
    hide Remaining, Fill, FixedPart;
    ChunkIsNext(m, p);
    ChunkIsNext(m, q);
    if p.stringIndex > -1 {
      SameReply(m, Chunk(m, p).1, Chunk(m, q).1);
    }
  }

  /** A node that has nothing else to send answers a protocol inquiry with its protocol bits, once. */
  lemma {:induction false} InquiryIsAnswered(m: Eeprom, i: Info, from: nat)
    requires InPlace(i.progress) && !i.progress.Busy()
    ensures var (j, taken) := Handle(i, PipRequest(from));
            && taken && InPlace(j.progress)
            && var (k, frame) := Update(m, j);
               && frame == Some((PipReplyTo(from), [0x80 + 0x40 + 0x10 + 0x04 + 0x01, 0x10 + 0x08, 0, 0, 0, 0]))
               && InPlace(k.progress) && Update(m, k) == (k, None)
  {
  }

  lemma {:induction false} Refused(i: Info, r: Request)
    requires i.progress.Busy()
    ensures Handle(i, r) == (i, false)
  {
  }

  lemma {:induction false} OneMore(r: Reply, first: seq<Byte>, rest: seq<seq<Byte>>, n: nat)
    requires n <= |rest|
    ensures Headed(r, ([first] + rest)[..1 + n]) == [(r, first)] + Headed(r, rest[..n])
    ensures ([first] + rest)[1 + n..] == rest[n..]
  {
    assert ([first] + rest)[..1 + n] == [first] + rest[..n];
  }

  lemma {:induction false} NoneYet(r: Reply, ps: seq<seq<Byte>>)
    ensures Headed(r, ps[..0]) == [] && ps[0..] == ps
  {
  }

  lemma {:induction false} LastTickCounts(acts: seq<Action>)
    requires acts != [] && acts[|acts| - 1].Tick?
    ensures Ticks(acts) > 0
  {
    if |acts| > 1 {
      LastTickCounts(acts[1..]);
    }
  }

  /**
   A request taken while an answer to a protocol inquiry is still waiting loses that answer: its
   header is overwritten, and the first frame out is an empty piece of description. It happens
   exactly then.
   */
  lemma {:induction false} WaitingAnswerIsLost(m: Eeprom, i: Info, from: nat)
    requires !i.progress.Busy() && InPlace(i.progress)
    ensures var (j, taken) := Handle(i, SnipRequest(from));
            && taken && InPlace(j.progress) && j.progress.Busy()
            && Update(m, j).1.Some? && Update(m, j).1.value.0 == SnipReplyTo(from)
            && (Update(m, j).1.value.1 == [] <==> i.messageReady)
  {
    var j := Handle(i, SnipRequest(from)).0;
    assert j.progress == Progress(0, -1, i.progress.stringNo);
    ChunkIsNext(m, j.progress);
  }
}
