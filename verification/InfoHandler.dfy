/** The information handler with its reply buffer, filled in place call by call. */
module InfoHandler {
  import opened Bits
  import opened Eeproms
  import opened NodeIds
  import opened SnipReply

  class Handler {
    var messageReady: bool
    var stringIndex: int
    var eepromIndex: int
    var eepromString: nat
    var header: Reply
    /** The reply's payload after the two bytes of destination, and how much of it is in use. */
    const payload: array<Byte>
    var length: nat

    ghost predicate Valid()
      reads this, payload
    {
      && payload.Length == 6 && length <= 6
      && InPlace(Progress(stringIndex, eepromIndex, eepromString))
      && (messageReady ==> payload[..length] == PreparedPayload(header))
    }

    function View(): Info
      reads this
    {
      Info(Progress(stringIndex, eepromIndex, eepromString), messageReady, header)
    }

    constructor ()
      ensures Valid() && fresh(payload) && View() == Info(IDLE, false, NoReply)
    {
      messageReady := false;
      stringIndex, eepromIndex, eepromString := -1, -1, 0;
      header, length := NoReply, 0;
      payload := new Byte[6](_ => 0);
    }

    method HandleMessage(r: Request) returns (handled: bool)
      requires Valid()
      modifies this, payload
      ensures Valid() && (View(), handled) == Handle(old(View()), r)
    {
      if stringIndex > -1 || eepromIndex > -1 {
        return false;
      }
      match r {
        case SnipRequest(from) =>
          stringIndex := 0;
          header, length := SnipReplyTo(from), 0;
        case PipRequest(from) =>
          header, length := PipReplyTo(from), 6;
          payload[0], payload[1], payload[2] := 0xD5, 0x18, 0;
          payload[3], payload[4], payload[5] := 0, 0, 0;
          messageReady := true;
      }
      return true;
    }

    /** Read bytes of a stored string into the reply; c is the last byte read, or 0xFF. */
    method ReadString(m: Eeprom, end: nat) returns (c: Byte)
      requires payload.Length == 6 && length <= 6 && 0 <= eepromIndex < end <= EEPROM_SIZE
      modifies this`length, this`eepromIndex, payload
      ensures length <= 6
      ensures var s := Fill(m, old(eepromIndex), end, 6 - old(length));
              && payload[..length] == old(payload[..length]) + s
              && eepromIndex == old(eepromIndex) + |s|
              && (c == 0 <==> |s| > 0 && s[|s| - 1] == 0)
    {
      hide Fill;
      c := 0xFF;
      ghost var from, had, room := eepromIndex, payload[..length], 6 - length;
      ghost var s, n := Fill(m, from, end, room), 0;
      FillShape(m, from, end, room);
      while length < 6 && c != 0 && eepromIndex < end
        invariant n <= |s| <= room && length == 6 - room + n && eepromIndex == from + n
        invariant payload[..length] == had + s[..n]
        invariant c == 0 <==> n > 0 && s[n - 1] == 0
        decreases 6 - length
      {
        c := m[eepromIndex];
        payload[length] := c;
        assert c == s[n] && s[..n + 1] == s[..n] + [s[n]];
        length := length + 1;
        eepromIndex := eepromIndex + 1;
        n := n + 1;
      }
      assert s[..n] == s;
    }

    /** A frame of the reply: its header and what follows the destination. */
    method Update(m: Eeprom) returns (frame: Option<(Reply, seq<Byte>)>)
      requires Valid()
      modifies this, payload
      ensures Valid() && (View(), frame) == SnipReply.Update(m, old(View()))
    {
      hide Fill, FixedPart, SNIP_STRING, Cut;
      frame := None;
      if messageReady {
        messageReady := false;
        frame := Some((header, payload[..length]));
      } else if stringIndex > -1 {
        frame := SendFixed();
      } else if eepromIndex > -1 {
        frame := SendStored(m);
      }
    }

    method SendFixed() returns (frame: Option<(Reply, seq<Byte>)>)
      requires Valid() && !messageReady && stringIndex > -1
      modifies this`length, this`stringIndex, this`eepromIndex, payload
      ensures Valid()
      ensures forall m: Eeprom :: (View(), frame) == SnipReply.Update(m, old(View()))
    {
      hide FixedPart, SNIP_STRING, NewlineToZero;
      length := STRING_LENGTH - stringIndex;
      if length > 6 {
        length := 6;
      }
      var i := 0;
      while i < length
        invariant i <= length <= 6 && 0 <= stringIndex && stringIndex + length <= STRING_LENGTH
        invariant forall j | 0 <= j < i :: payload[j] == FixedPart()[stringIndex + j]
        modifies payload
      {
        FixedByte(stringIndex + i);
        payload[i] := SNIP_STRING[stringIndex + i];
        if payload[i] == 10 {
          payload[i] := 0;
        }
        i := i + 1;
      }
      assert payload[..length] == FixedPart()[stringIndex..stringIndex + length];
      frame := Some((header, payload[..length]));
      stringIndex := stringIndex + length;
      if stringIndex >= STRING_LENGTH {
        stringIndex := -1;
        eepromIndex := VERSION_STEP;
      }
    }

    function Stage(): Progress
      reads this
    {
      Progress(stringIndex, eepromIndex, eepromString)
    }

    /** The user name's turn. */
    method SendUserName(m: Eeprom) returns (ghost s: seq<Byte>)
      requires payload.Length == 6 && length <= 6
      requires eepromString == 1 ==> NAME_START <= eepromIndex < NAME_END
      modifies this`length, this`eepromIndex, this`eepromString, payload
      ensures (s, Stage()) == SendName(m, old(Stage()), 6 - old(length))
      ensures length <= 6 && payload[..length] == old(payload[..length]) + s
    {
      hide Fill;
      s := [];
      if eepromString == 1 {
        s := Fill(m, eepromIndex, NAME_END, 6 - length);
        var c := ReadString(m, NAME_END);
        if c == 0 || eepromIndex >= NAME_END {
          eepromIndex := NAME_END;
          eepromString := 2;
        }
      }
    }

    /** The description's turn, in the same call if there is room. */
    method SendUserDescription(m: Eeprom) returns (ghost s: seq<Byte>)
      requires payload.Length == 6 && length <= 6
      requires eepromString == 2 ==> NAME_END <= eepromIndex < DESCRIPTION_END
      modifies this`length, this`eepromIndex, this`eepromString, payload
      ensures (s, Stage()) == SendDescription(m, old(Stage()), 6 - old(length))
      ensures length <= 6 && payload[..length] == old(payload[..length]) + s
    {
      hide Fill;
      s := [];
      if eepromString == 2 {
        s := Fill(m, eepromIndex, DESCRIPTION_END, 6 - length);
        var c := ReadString(m, DESCRIPTION_END);
        if c == 0 || eepromIndex >= DESCRIPTION_END {
          eepromIndex := -1;
          eepromString := 0;
        }
      }
    }

    method SendStored(m: Eeprom) returns (frame: Option<(Reply, seq<Byte>)>)
      requires Valid() && !messageReady && stringIndex == -1 && eepromIndex > -1
      modifies this, payload
      ensures Valid() && (View(), frame) == SnipReply.Update(m, old(View()))
    {
      hide Fill, FixedPart, SNIP_STRING, SendName, SendDescription;
      ghost var p := Stage();
      length := 0;
      if eepromIndex == VERSION_STEP {
        payload[0] := 1;
        length := length + 1;
        eepromIndex := eepromIndex + 1;
        eepromString := 1;
      }
      ghost var q, head := Stage(), payload[..length];
      NameStaysInPlace(m, q, 6 - length);
      ghost var a := SendUserName(m);
      ghost var b := SendUserDescription(m);
      StoredChunk(m, p, q, head, a, b, Stage());
      frame := Some((header, payload[..length]));
    }
  }

  /** After the user name's turn the description, if it is next, starts where it should. */
  lemma {:induction false} NameStaysInPlace(m: Eeprom, q: Progress, room: nat)
    requires InPlace(q) && q.stringIndex == -1 && q.eepromIndex > -1 && q.eepromIndex != VERSION_STEP && room > 0
    ensures q.stringNo == 1 ==> NAME_START <= q.eepromIndex < NAME_END
    ensures var r := SendName(m, q, room).1; r.stringNo == 2 ==> NAME_END <= r.eepromIndex < DESCRIPTION_END
  {
    hide Fill, FixedPart, SNIP_STRING;
  }

  lemma {:induction false} StoredChunk(m: Eeprom, p: Progress, q: Progress, head: seq<Byte>, a: seq<Byte>, b: seq<Byte>, t: Progress)
    requires InPlace(p) && p.stringIndex == -1 && p.eepromIndex > -1
    requires q == if p.eepromIndex == VERSION_STEP then p.(eepromIndex := NAME_START, stringNo := 1) else p
    requires head == if p.eepromIndex == VERSION_STEP then [1] else []
    requires var (s, r) := SendName(m, q, 6 - |head|);
             a == s && (r.stringNo == 2 ==> 0 <= r.eepromIndex) && (b, t) == SendDescription(m, r, 6 - |head| - |a|)
    ensures Chunk(m, p) == (head + a + b, t) && InPlace(t)
  {
    hide SendName, SendDescription, FixedPart;
    ChunkIsNext(m, p);
  }

  /** What is read is the memory up to the end, to the first 0, or to the room there is, whichever comes first. */
  lemma {:induction false} FillShape(m: Eeprom, i: nat, end: nat, room: nat)
    requires i <= end <= EEPROM_SIZE
    ensures var s := Fill(m, i, end, room);
            && |s| <= room && i + |s| <= end
            && (forall k | 0 <= k < |s| :: s[k] == m[i + k])
            && (forall k | 0 <= k < |s| - 1 :: s[k] != 0)
            && (|s| == room || i + |s| == end || (|s| > 0 && s[|s| - 1] == 0))
    decreases room
  {
    if i < end && room > 0 && m[i] != 0 {
      FillShape(m, i + 1, end, room - 1);
    }
  }

  lemma {:induction false} FixedByte(i: nat)
    requires i < STRING_LENGTH
    ensures |SNIP_STRING| == STRING_LENGTH && FixedPart()[i] == if SNIP_STRING[i] == 10 then 0 else SNIP_STRING[i]
  {
  }
}
