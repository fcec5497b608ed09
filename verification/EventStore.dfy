/**
 The event table's life in EEPROM: allocation of blocks of event IDs, storing and loading,
 and the configuration memory that reads and writes the table byte by byte.
 */
module EventStore {
  import opened Bits
  import opened Eeproms
  import opened NodeIds
  import opened EventModel
  import SnipReply

  /** Bytes 0 and 1 hold "Io" once formatted, 2 and 3 the next free event suffix. */
  const EVENTS_START := 4
  const BLOCK := 32
  const SUFFIXES := 0x1_0000

  /** The first six bytes of the IDs in the pool for boards that have never been formatted. */
  const POOL := Nid(5, 2, 1, 2, 2, 0)

  function Word(hi: nat, lo: nat): nat {
    hi * 256 + lo
  }

  /** Addition in eight bits. */
  function Add8(a: nat, b: nat): Byte {
    (a + b) % 256
  }

  predicate Formatted(e: Eeprom) {
    e[0] == 73 && e[1] == 111
  }

  /** The suffix the next block of event IDs starts with. */
  function NextSuffix(e: Eeprom): nat {
    Word(e[2], e[3])
  }

  function SuffixOf(e: Eeprom, i: nat): nat
    requires i < BLOCK
  {
    Word(e[EVENTS_START + 8 * i + 6], e[EVENTS_START + 8 * i + 7])
  }

  function PrefixOf(e: Eeprom, i: nat): seq<Byte>
    requires i < BLOCK
  {
    e[EVENTS_START + 8 * i..EVENTS_START + 8 * i + 6]
  }

  /** What a factory reset leaves on a formatted EEPROM: fresh IDs for all events, and the counter moved on. */
  ghost predicate ResetDone(e: Eeprom, nid: Nid, n: nat, e': Eeprom)
    requires n <= BLOCK
  {
    && Formatted(e') && NextSuffix(e') == (NextSuffix(e) + BLOCK) % SUFFIXES
    && (forall i | 0 <= i < n :: PrefixOf(e', i) == NidBytes(nid) && SuffixOf(e', i) == (NextSuffix(e) + i) % SUFFIXES)
    && (forall a | EVENTS_START + 8 * n <= a < EEPROM_SIZE :: e'[a] == e[a])
  }

  /** The pool every unformatted board starts from: producers and consumers pairwise alike. */
  ghost predicate FirstFormat(e: Eeprom, e': Eeprom) {
    && Formatted(e') && NextSuffix(e') == 0x10
    && (forall i | 0 <= i < 32 :: PrefixOf(e', i) == NidBytes(POOL) && SuffixOf(e', i) == i % 16)
    && (forall a | 260 <= a < 516 || 1028 <= a < 1188 :: e'[a] == 0)
    && (forall a | 516 <= a < 1028 || 1188 <= a < EEPROM_SIZE :: e'[a] == e[a])
  }

  // ---------------------------------------------------------------- blocks never overlap

  /** Resets one after the other; between two of them anything but the first four bytes may change. */
  ghost predicate Resets(before: seq<Eeprom>, after: seq<Eeprom>, nid: Nid, n: nat)
    requires n <= BLOCK
  {
    |before| == |after| &&
    (forall k | 0 <= k < |before| :: Formatted(before[k]) && ResetDone(before[k], nid, n, after[k])) &&
    (forall k | 0 < k < |before| :: before[k][..4] == after[k - 1][..4])
  }

  lemma {:induction false} CounterMovesOn(before: seq<Eeprom>, after: seq<Eeprom>, nid: Nid, n: nat, k: nat)
    requires n <= BLOCK && Resets(before, after, nid, n) && k < |before|
    ensures NextSuffix(before[k]) == (NextSuffix(before[0]) + BLOCK * k) % SUFFIXES
  {
    hide ResetDone;
    if k > 0 {
      CounterMovesOn(before, after, nid, n, k - 1);
      SameCounter(before[k], after[k - 1]);
      ResetMovesCounter(before[k - 1], nid, n, after[k - 1]);
      SuffixWraps(NextSuffix(before[0]) + BLOCK * (k - 1), BLOCK);
    } else {
      CounterIsAWord(before[0]);
    }
  }

  lemma {:induction false} CounterIsAWord(e: Eeprom)
    ensures NextSuffix(e) < SUFFIXES
  {
  }

  lemma {:induction false} SameCounter(e: Eeprom, e': Eeprom)
    requires e[..4] == e'[..4]
    ensures NextSuffix(e) == NextSuffix(e')
  {
    assert e[2] == e[..4][2] && e'[2] == e'[..4][2];
    assert e[3] == e[..4][3] && e'[3] == e'[..4][3];
  }

  lemma {:induction false} ResetMovesCounter(e: Eeprom, nid: Nid, n: nat, e': Eeprom)
    requires n <= BLOCK && ResetDone(e, nid, n, e')
    ensures NextSuffix(e') == (NextSuffix(e) + BLOCK) % SUFFIXES
  {
  }

  lemma {:induction false} SuffixesApart(base: nat, k: nat, i: nat, l: nat, j: nat)
    requires i < BLOCK && j < BLOCK && k < l
    ensures ((base + BLOCK * k) % SUFFIXES + i) % SUFFIXES == ((base + BLOCK * l) % SUFFIXES + j) % SUFFIXES
       <==> i == j && (l - k) % 2048 == 0
  {
    var x := base + BLOCK * k + i;
    SuffixWraps(base + BLOCK * k, i);
    SuffixWraps(base + BLOCK * l, j);
    SameRemainder(x, BLOCK * (l - k) + (j - i));
    MultipleOfBlock(l - k, j - i);
  }

  /** Moving on by d keeps the suffix exactly when d is a multiple of 65536. */
  lemma {:induction false} SameRemainder(x: nat, d: int)
    requires x + d >= 0
    ensures x % SUFFIXES == (x + d) % SUFFIXES <==> d % SUFFIXES == 0
  {
  }

  lemma {:induction false} MultipleOfBlock(k: nat, e: int)
    requires -BLOCK < e < BLOCK
    ensures (BLOCK * k + e) % SUFFIXES == 0 <==> e == 0 && k % 2048 == 0
  {
    var q, p := (BLOCK * k + e) / SUFFIXES, k / 2048;
    if (BLOCK * k + e) % SUFFIXES == 0 {
      assert BLOCK * (2048 * q - k) == e;
      assert k == 2048 * q;
    }
    if e == 0 && k % 2048 == 0 {
      assert BLOCK * k == SUFFIXES * p;
    }
  }

  lemma {:induction false} SuffixWraps(a: nat, i: nat)
    ensures (a % SUFFIXES + i) % SUFFIXES == (a + i) % SUFFIXES
  {
  }

  /**
   Over any number of resets, two events get the same suffix exactly when they are the same
   event of resets a multiple of 2048 apart: so no suffix is given twice in 2048 resets, and
   the 2049th starts over.
   */
  lemma {:induction false} BlocksNeverOverlap(before: seq<Eeprom>, after: seq<Eeprom>, nid: Nid, n: nat, k: nat, i: nat, l: nat, j: nat)
    requires n <= BLOCK && Resets(before, after, nid, n) && k < l < |before| && i < n && j < n
    ensures SuffixOf(after[k], i) == SuffixOf(after[l], j) <==> i == j && (l - k) % 2048 == 0
  {
    hide ResetDone, SuffixOf, NextSuffix, Formatted, Word;
    CounterMovesOn(before, after, nid, n, k);
    CounterMovesOn(before, after, nid, n, l);
    SuffixGiven(before[k], nid, n, after[k], i);
    SuffixGiven(before[l], nid, n, after[l], j);
    SuffixesApart(NextSuffix(before[0]), k, i, l, j);
  }

  lemma {:induction false} SuffixGiven(e: Eeprom, nid: Nid, n: nat, e': Eeprom, i: nat)
    requires i < n <= BLOCK && ResetDone(e, nid, n, e')
    ensures SuffixOf(e', i) == (NextSuffix(e) + i) % SUFFIXES
  {
  }

  /** Nor within one reset. */
  lemma {:induction false} BlockIsDistinct(e: Eeprom, nid: Nid, n: nat, e': Eeprom, i: nat, j: nat)
    requires n <= BLOCK && ResetDone(e, nid, n, e') && i < j < n
    ensures SuffixOf(e', i) != SuffixOf(e', j)
  {
    hide ResetDone, SuffixOf, NextSuffix;
    SuffixGiven(e, nid, n, e', i);
    SuffixGiven(e, nid, n, e', j);
    SameRemainder(NextSuffix(e) + i, j - i);
  }

  // ---------------------------------------------------------------- the table as flat memory

  ghost predicate WholeEvents(events: seq<Event>) {
    forall i | 0 <= i < |events| :: |events[i].val| == 8
  }

  function Flat(events: seq<Event>): (f: seq<Byte>)
    requires WholeEvents(events)
    ensures |f| == 8 * |events|
  {
    seq(8 * |events|, a requires 0 <= a < 8 * |events| && WholeEvents(events) => events[a / 8].val[a % 8])
  }

  function Written(f: seq<Byte>, at: nat, data: seq<Byte>): (g: seq<Byte>)
    requires at + |data| <= |f|
    ensures |g| == |f|
  {
    f[..at] + data + f[at + |data|..]
  }

  function Stored(e: Eeprom, f: seq<Byte>): (e': Eeprom)
    requires EVENTS_START + |f| <= EEPROM_SIZE
  {
    e[..EVENTS_START] + f + e[EVENTS_START + |f|..]
  }

  /** An address as the two handlers split it, in 8- and 16-bit words. */
  function Locate(address: nat): (nat, nat) {
    var index := address / 8 % 256;
    var offset := (address - index * 8 - 4) % 0x1_0000;
    (index, offset % 256)
  }

  /**
   For any 16-bit address, the split lands inside an event exactly if the address is at least 4
   modulo 8, and then on the right byte exactly if it is below 2048.
   */
  lemma {:induction false} LocateIsRight(address: nat)
    requires address < 0x1_0000
    ensures var (k, j) := Locate(address);
            && (j < 8 <==> address % 8 >= 4)
            && (j < 8 && address == EVENTS_START + 8 * k + j <==> address % 8 >= 4 && address < 2048)
  {
    var q, r := address / 8, address % 8;
    var k := q % 256;
    OffsetIs(q, r);
    if q < 256 {
      assert k == q;
    } else {
      assert k != q;
    }
  }

  /** The offset's low byte is the place in the event, less the 4 bytes before the table. */
  lemma {:induction false} OffsetIs(q: nat, r: nat)
    requires q < 0x2000 && r < 8
    ensures (8 * q + r - 8 * (q % 256) - 4) % 0x1_0000 % 256 == if r >= 4 then r - 4 else 252 + r
  {
    var h := q / 256;
    var x := 8 * q + r - 8 * (q % 256) - 4;
    assert x == 2048 * h + r - 4;
    if x >= 0 {
      assert x % 0x1_0000 == x;
      if r >= 4 {
        DivisionUnique(x, 256, 8 * h, r - 4);
      } else {
        DivisionUnique(x, 256, 8 * h - 1, 252 + r);
      }
    } else {
      assert x % 0x1_0000 == 0xFFFC + r;
    }
  }

  /** How many bytes a request gets: a range that runs over the end is cut, four bytes shorter than it need be. */
  function Granted(address: nat, length: nat, events: nat): nat {
    if length + address - 4 > events * 8 then (events * 8 - address) % 256 else length
  }

  lemma {:induction false} GrantedFits(address: nat, length: nat, events: nat)
    requires events <= BLOCK && length < 256 && address % 8 >= 4 && address - EVENTS_START < 8 * events
    ensures address - EVENTS_START + Granted(address, length, events) <= 8 * events
    ensures address - EVENTS_START + length <= 8 * events ==> Granted(address, length, events) == length
    ensures Granted(address, length, events) <= length
    ensures address - EVENTS_START + length > 8 * events ==>
              address - EVENTS_START + Granted(address, length, events) == 8 * events - 4
  {
    assert address < 8 * events by {
      assert address == 8 * (address / 8) + address % 8;
    }
  }

  /**
   What is written to configuration memory ends up in EEPROM at the very same addresses, disturbs
   no other byte of the table or the EEPROM, and is what loading the table gives back.
   */
  lemma {:induction false} ConfigIsDurable(e: Eeprom, f: seq<Byte>, address: nat, data: seq<Byte>)
    requires EVENTS_START <= address && address - EVENTS_START + |data| <= |f| <= 8 * BLOCK
    ensures var g := Written(f, address - EVENTS_START, data);
            var e' := Stored(e, g);
            && e'[address..address + |data|] == data
            && (forall a | EVENTS_START <= a < EVENTS_START + |f| && !(address <= a < address + |data|) :: e'[a] == f[a - EVENTS_START])
            && (forall a | 0 <= a < EVENTS_START || EVENTS_START + |f| <= a < EEPROM_SIZE :: e'[a] == e[a])
            && e'[EVENTS_START..EVENTS_START + |f|] == g
  {
    var at := address - EVENTS_START;
    var g := Written(f, at, data);
    var e' := Stored(e, g);
    hide Written, Stored;
    forall a | 0 <= a < EEPROM_SIZE
      ensures e'[a] == if address <= a < address + |data| then data[a - address]
                       else if EVENTS_START <= a < EVENTS_START + |f| then f[a - EVENTS_START] else e[a]
    {
      StoredAt(e, g, a);
      if EVENTS_START <= a < EVENTS_START + |f| {
        WrittenAt(f, at, data, a - EVENTS_START);
      }
    }
    forall k | 0 <= k < |f|
      ensures e'[EVENTS_START + k] == g[k]
    {
      StoredAt(e, g, EVENTS_START + k);
    }
  }

  lemma {:induction false} StoredAt(e: Eeprom, f: seq<Byte>, a: nat)
    requires EVENTS_START + |f| <= EEPROM_SIZE && a < EEPROM_SIZE
    ensures Stored(e, f)[a] == if EVENTS_START <= a < EVENTS_START + |f| then f[a - EVENTS_START] else e[a]
  {
  }

  lemma {:induction false} WrittenAt(f: seq<Byte>, at: nat, data: seq<Byte>, a: nat)
    requires at + |data| <= |f| && a < |f|
    ensures Written(f, at, data)[a] == if at <= a < at + |data| then data[a - at] else f[a]
  {
  }

  /** The flat table is the IDs of the events one after the other. */
  lemma {:induction false} FlatIsIds(events: seq<Event>, i: nat)
    requires WholeEvents(events) && i < |events|
    ensures Flat(events)[8 * i..8 * i + 8] == events[i].val
  {
    forall j | 0 <= j < 8
      ensures Flat(events)[8 * i + j] == events[i].val[j]
    {
      FlatAt(events, i, j);
    }
  }

  /**
   What a factory reset of a formatted EEPROM leaves there is, once it is loaded, the table in which
   event i has the node's NodeID and the next suffix but i, high byte first.
   */
  lemma {:induction false} ResetIdsAreLoaded(e: Eeprom, nid: Nid, e': Eeprom, events: seq<Event>, i: nat)
    requires |events| <= BLOCK && ResetDone(e, nid, |events|, e') && WholeEvents(events) && i < |events|
    requires Flat(events) == e'[EVENTS_START..EVENTS_START + 8 * |events|]
    ensures var s := (e[2] * 256 + e[3] + i) % 0x1_0000;
            events[i].val == [nid.v0, nid.v1, nid.v2, nid.v3, nid.v4, nid.v5, s / 256, s % 256]
  {
    hide Flat, ResetDone, SuffixOf, PrefixOf;
    FlatIsIds(events, i);
    SuffixGiven(e, nid, |events|, e', i);
    PrefixGiven(e, nid, |events|, e', i);
    IdIs(e', nid, i);
    SliceOfSlice(e', EVENTS_START, 8 * |events|, 8 * i, 8);
  }

  /** On a board that has never been formatted event i gets the ID of the pool that ends with i modulo 16. */
  lemma {:induction false} FirstIdsAreLoaded(e: Eeprom, e': Eeprom, events: seq<Event>, i: nat)
    requires |events| <= 32 && FirstFormat(e, e') && WholeEvents(events) && i < |events|
    requires Flat(events) == e'[EVENTS_START..EVENTS_START + 8 * |events|]
    ensures events[i].val == [5, 2, 1, 2, 2, 0, 0, i % 16]
  {
    hide Flat, FirstFormat, SuffixOf, PrefixOf;
    FlatIsIds(events, i);
    FirstIdGiven(e, e', i);
    IdIs(e', POOL, i);
    SliceOfSlice(e', EVENTS_START, 8 * |events|, 8 * i, 8);
  }

  lemma {:induction false} FirstIdGiven(e: Eeprom, e': Eeprom, i: nat)
    requires FirstFormat(e, e') && i < 32
    ensures PrefixOf(e', i) == NidBytes(POOL) && SuffixOf(e', i) == i % 16
  {
  }

  /** And it has no name and no description: what it tells about itself ends with two empty strings. */
  lemma {:induction false} FirstFormatIsNameless(e: Eeprom, e': Eeprom)
    requires FirstFormat(e, e')
    ensures SnipReply.WholeReply(e') == SnipReply.FixedPart() + [1, 0, 0]
  {
    hide SnipReply.FixedPart;
    assert e'[SnipReply.NAME_START] == 0 && e'[SnipReply.NAME_END] == 0;
  }

  lemma {:induction false} SliceOfSlice(s: seq<Byte>, from: nat, size: nat, at: nat, n: nat)
    requires from + size <= |s| && at + n <= size
    ensures s[from..from + size][at..at + n] == s[from + at..from + at + n]
  {
    var t := s[from..from + size][at..at + n];
    assert |t| == n;
    forall k | 0 <= k < n
      ensures t[k] == s[from + at..from + at + n][k]
    {
      assert s[from..from + size][at + k] == s[from + (at + k)];
    }
  }

  lemma {:induction false} PrefixGiven(e: Eeprom, nid: Nid, n: nat, e': Eeprom, i: nat)
    requires i < n <= BLOCK && ResetDone(e, nid, n, e')
    ensures PrefixOf(e', i) == NidBytes(nid)
  {
  }

  /** The eight bytes of an ID are its prefix and the two bytes of its suffix. */
  lemma {:induction false} IdIs(e: Eeprom, nid: Nid, i: nat)
    requires i < BLOCK && PrefixOf(e, i) == NidBytes(nid)
    ensures var at, s := EVENTS_START + 8 * i, SuffixOf(e, i);
            e[at..at + 8] == [nid.v0, nid.v1, nid.v2, nid.v3, nid.v4, nid.v5, s / 256, s % 256]
  {
    var at, s := EVENTS_START + 8 * i, SuffixOf(e, i);
    DivisionUnique(s, 256, e[at + 6], e[at + 7]);
    assert e[at..at + 8] == e[at..at + 6] + [e[at + 6], e[at + 7]];
  }

  // ---------------------------------------------------------------- in place

  class Store {
    const eeprom: array<Byte>
    const events: array<Event>
    const nid: Nid
    var dirty: bool

    ghost predicate Valid()
      reads this, events
    {
      eeprom.Length == EEPROM_SIZE && events.Length <= BLOCK && WholeEvents(events[..])
    }

    constructor (eeprom: array<Byte>, events: array<Event>, nid: Nid)
      requires eeprom.Length == EEPROM_SIZE && events.Length <= BLOCK && WholeEvents(events[..])
      ensures Valid() && this.eeprom == eeprom && this.events == events && this.nid == nid && !dirty
    {
      this.eeprom, this.events, this.nid := eeprom, events, nid;
      dirty := false;
    }

    /** Write the eight bytes of event i. */
    method WriteEvent(i: nat, prefix: Nid, b6: Byte, b7: Byte)
      requires eeprom.Length == EEPROM_SIZE && i < BLOCK
      modifies eeprom
      ensures eeprom[..] == old(eeprom[..EVENTS_START + 8 * i]) + NidBytes(prefix) + [b6, b7]
                            + old(eeprom[EVENTS_START + 8 * i + 8..])
    {
      hide NidBytes;
      NidBytesAre(prefix);
      var at := EVENTS_START + 8 * i;
      eeprom[at], eeprom[at + 1], eeprom[at + 2] := prefix.v0, prefix.v1, prefix.v2;
      eeprom[at + 3], eeprom[at + 4], eeprom[at + 5] := prefix.v3, prefix.v4, prefix.v5;
      eeprom[at + 6] := b6;
      eeprom[at + 7] := b7;
      EightBytes(old(eeprom[..]), eeprom[..], at, NidBytes(prefix) + [b6, b7]);
    }

    /** One event ID: six bytes of NodeID, then the suffix; e6 moves on when the low byte is full. */
    method WriteId(i: nat, e6: Byte, e7: Byte) returns (next6: Byte)
      requires eeprom.Length == EEPROM_SIZE && i < BLOCK
      modifies eeprom
      ensures next6 == if e7 + i == 255 then (e6 + 1) % 256 else e6
      ensures eeprom[..] == old(eeprom[..EVENTS_START + 8 * i]) + NidBytes(nid) + [e6, (e7 + i) % 256]
                            + old(eeprom[EVENTS_START + 8 * i + 8..])
    {
      WriteEvent(i, nid, e6, (e7 + i) % 256);
      next6 := e6;
      if e7 + i == 255 {
        next6 := (e6 + 1) % 256;
      }
    }

    /** The loop the producers and the consumers each go through. */
    method WriteIds(first: nat, limit: nat, e6: Byte, e7: Byte, ghost e0: Eeprom, ghost base: nat) returns (next6: Byte)
      requires eeprom.Length == EEPROM_SIZE && first <= limit <= BLOCK
      requires base < SUFFIXES && e7 == base % 256 && e6 == HighAt(base, first)
      requires IdsWritten(e0, eeprom[..], nid, base, first)
      modifies eeprom
      ensures IdsWritten(e0, eeprom[..], nid, base, limit) && next6 == HighAt(base, limit)
    {
      hide IdsWritten, HighAt;
      next6 := e6;
      var i := first;
      while i < limit
        invariant first <= i <= limit
        invariant IdsWritten(e0, eeprom[..], nid, base, i) && next6 == HighAt(base, i)
      {
        ghost var e: Eeprom := eeprom[..];
        var following := WriteId(i, next6, e7);
        OneMoreId(e0, e, nid, base, i, eeprom[..]);
        next6 := following;
        i := i + 1;
      }
    }

    /** On a formatted EEPROM: move the counter on, then give every event a fresh ID. */
    method NewBlock()
      requires Valid() && Formatted(eeprom[..])
      modifies eeprom
      ensures Valid() && ResetDone(old(eeprom[..]), nid, events.Length, eeprom[..])
    {
      hide ResetDone, IdsWritten, HighAt, Add8;
      var eid6, eid7 := eeprom[2], eeprom[3];
      ghost var e: Eeprom, base := eeprom[..], NextSuffix(eeprom[..]);
      eeprom[0] := 88;
      if eid7 >= 224 {
        eeprom[2] := Add8(eid6, 1);
      } else {
        eeprom[2] := eid6;
      }
      eeprom[3] := Add8(eid7, 32);
      ghost var e0: Eeprom := eeprom[..];
      assert e0 == e[0 := 88][2 := if eid7 >= 224 then Add8(eid6, 1) else eid6][3 := Add8(eid7, 32)];
      NothingWritten(e0, nid, base);
      FirstHigh(base, eid6, eid7);
      eid6 := WriteIds(0, events.Length / 2, eid6, eid7, e0, base);
      eid6 := WriteIds(events.Length / 2, events.Length, eid6, eid7, e0, base);
      ghost var e1: Eeprom := eeprom[..];
      AllWritten(e, e0, e1, nid, base, events.Length);
      eeprom[0] := 73;
      if eeprom[1] != 111 {
        eeprom[1] := 111;
      }
      assert eeprom[..] == e1[0 := 73][1 := 111];
    }

    method FactoryReset()
      requires Valid()
      modifies eeprom
      ensures Valid()
      ensures if Formatted(old(eeprom[..])) then ResetDone(old(eeprom[..]), nid, events.Length, eeprom[..])
              else FirstFormat(old(eeprom[..]), eeprom[..])
    {
      hide ResetDone, FirstFormat;
      if eeprom[0] != 73 || eeprom[1] != 111 {
        FirstInitialization();
        return;
      }
      NewBlock();
    }

    /** Zero a stretch of EEPROM, writing only where needed. */
    method Wipe(from: nat, to: nat)
      requires from <= to <= eeprom.Length
      modifies eeprom
      ensures forall a | 0 <= a < eeprom.Length :: eeprom[a] == if from <= a < to then 0 else old(eeprom[a])
    {
      var i := from;
      while i < to
        invariant from <= i <= to
        invariant forall a | 0 <= a < eeprom.Length :: eeprom[a] == if from <= a < i then 0 else old(eeprom[a])
      {
        if eeprom[i] != 0 {
          eeprom[i] := 0;
        }
        i := i + 1;
      }
    }

    method FirstInitialization()
      requires Valid()
      modifies eeprom
      ensures FirstFormat(old(eeprom[..]), eeprom[..])
    {
      hide FirstIds, FirstFormat;
      ghost var e0: Eeprom := eeprom[..];
      NoFirstIds(e0);
      var i := 0;
      while i < 16
        invariant i <= 16 && FirstIds(e0, eeprom[..], i)
      {
        ghost var e: Eeprom := eeprom[..];
        WriteEvent(i, POOL, 0, i);
        OneMoreFirst(e0, e, i, eeprom[..]);
        i := i + 1;
      }
      i := 0;
      while i < 16
        invariant i <= 16 && FirstIds(e0, eeprom[..], i + 16)
      {
        ghost var e: Eeprom := eeprom[..];
        WriteEvent(i + 16, POOL, 0, i);
        OneMoreFirst(e0, e, i + 16, eeprom[..]);
        i := i + 1;
      }
      ghost var e1: Eeprom := eeprom[..];
      Wipe(260, 260 + 256);
      Wipe(1028, 1028 + 32 + 128);
      eeprom[2], eeprom[3] := 0, 0x10;
      eeprom[0] := 73;
      eeprom[1] := 111;
      FirstFormatted(e0, e1, eeprom[..]);
    }

    method StoreEvents()
      requires Valid()
      modifies eeprom
      ensures Valid() && eeprom[..] == Stored(old(eeprom[..]), Flat(events[..]))
    {
      ghost var e0: Eeprom, f := eeprom[..], Flat(events[..]);
      var i := 0;
      while i < events.Length
        invariant i <= events.Length
        invariant eeprom[..] == Stored(e0, f[..8 * i])
      {
        var j := 0;
        while j < 8
          invariant j <= 8 && eeprom[..] == Stored(e0, f[..8 * i + j])
        {
          StoreByte(e0, f, 8 * i + j);
          FlatAt(events[..], i, j);
          eeprom[i * 8 + j + 4] := events[i].val[j];
          j := j + 1;
        }
        i := i + 1;
      }
      assert f[..8 * events.Length] == f;
    }

    /** The eight bytes of one event. */
    method LoadEvent(i: nat)
      requires Valid() && i < events.Length
      modifies events
      ensures Valid() && events[i].flags == old(events[i].flags)
      ensures events[i].val == eeprom[EVENTS_START + 8 * i..EVENTS_START + 8 * i + 8]
      ensures forall k | 0 <= k < events.Length && k != i :: events[k] == old(events[k])
    {
      var j := 0;
      while j < 8
        invariant j <= 8 && |events[i].val| == 8 && events[i].flags == old(events[i].flags)
        invariant forall k | 0 <= k < events.Length && k != i :: events[k] == old(events[k])
        invariant forall x | 0 <= x < j :: events[i].val[x] == eeprom[EVENTS_START + 8 * i + x]
      {
        events[i] := events[i].(val := events[i].val[j := eeprom[i * 8 + j + 4]]);
        j := j + 1;
      }
      assert forall k | 0 <= k < events.Length :: |events[k].val| == 8 by {
        assert forall k | 0 <= k < events.Length && k != i :: |old(events[k]).val| == 8;
      }
    }

    method LoadEvents()
      requires Valid()
      modifies events
      ensures Valid() && Flat(events[..]) == eeprom[EVENTS_START..EVENTS_START + 8 * events.Length]
      ensures forall i | 0 <= i < events.Length :: events[i].flags == old(events[i].flags)
    {
      hide Flat;
      var i := 0;
      while i < events.Length
        invariant i <= events.Length && Valid()
        invariant forall k | 0 <= k < i :: events[k].val == eeprom[EVENTS_START + 8 * k..EVENTS_START + 8 * k + 8]
        invariant forall k | 0 <= k < events.Length :: events[k].flags == old(events[k].flags)
      {
        LoadEvent(i);
        i := i + 1;
      }
      FlatOfLoaded(events[..], eeprom[..]);
    }

    /** Copy a range of the table into a buffer; a range that runs over the end is cut. */
    method ReadConfig(address: nat, length: nat, data: array<Byte>) returns (granted: nat)
      requires Valid() && length < 256 && length <= data.Length
      requires address % 8 >= 4 && address - EVENTS_START < 8 * events.Length
      modifies data
      ensures granted == Granted(address, length, events.Length)
      ensures address - EVENTS_START + granted <= 8 * events.Length && granted <= data.Length
      ensures data[..] == Flat(events[..])[address - EVENTS_START..address - EVENTS_START + granted] + old(data[granted..])
    {
      hide Flat, Locate;
      LocateIsRight(address);
      GrantedFits(address, length, events.Length);
      var (k, j) := Locate(address);
      granted := if length + address - 4 > events.Length * 8 then (events.Length * 8 - address) % 256 else length;
      ghost var f, at := Flat(events[..]), address - EVENTS_START;
      var i := 0;
      while i < granted
        invariant i <= granted && j <= 8 && 8 * k + j == at + i
        invariant forall x | 0 <= x < i :: data[x] == f[at + x]
        invariant forall x | i <= x < data.Length :: data[x] == old(data[x])
      {
        if j == 8 {
          j := 0;
          k := k + 1;
        }
        FlatAt(events[..], k, j);
        data[i] := events[k].val[j];
        i, j := i + 1, j + 1;
      }
      SamePiece(data[..], f, at, granted);
      assert data[..granted] == data[..][..granted];
      assert data[granted..] == old(data[granted..]);
      assert data[..] == data[..granted] + data[granted..];
    }

    /** Overwrite a range of the table and leave the EEPROM for later. */
    method WriteConfig(address: nat, length: nat, data: seq<Byte>)
      requires Valid() && length < 256 && length <= |data|
      requires address % 8 >= 4 && address - EVENTS_START < 8 * events.Length
      modifies events, `dirty
      ensures Valid() && dirty
      ensures address - EVENTS_START + Granted(address, length, events.Length) <= 8 * events.Length
      ensures Granted(address, length, events.Length) <= length
      ensures Flat(events[..]) == Written(old(Flat(events[..])), address - EVENTS_START, data[..Granted(address, length, events.Length)])
      ensures forall i | 0 <= i < events.Length :: events[i].flags == old(events[i].flags)
    {
      hide Flat, Locate, Written;
      LocateIsRight(address);
      GrantedFits(address, length, events.Length);
      var (k, j) := Locate(address);
      var granted := if length + address - 4 > events.Length * 8 then (events.Length * 8 - address) % 256 else length;
      ghost var f, at := Flat(events[..]), address - EVENTS_START;
      NothingChanged(f, at);
      assert data[..0] == [];
      var i := 0;
      while i < granted
        invariant i <= granted && j <= 8 && 8 * k + j == at + i && Valid()
        invariant Flat(events[..]) == Written(f, at, data[..i])
        invariant forall i | 0 <= i < events.Length :: events[i].flags == old(events[i].flags)
      {
        if j == 8 {
          j := 0;
          k := k + 1;
        }
        FlatUpdated(events[..], k, j, data[i]);
        WrittenByte(f, at, data, i);
        ghost var was := events[..];
        events[k] := events[k].(val := events[k].val[j := data[i]]);
        assert events[..] == was[k := was[k].(val := was[k].val[j := data[i]])];
        i, j := i + 1, j + 1;
      }
      dirty := true;
    }

    /** The end of every update: a changed table goes to EEPROM, once. */
    method Flush()
      requires Valid()
      modifies eeprom, `dirty
      ensures Valid() && !dirty
      ensures eeprom[..] == if old(dirty) then Stored(old(eeprom[..]), Flat(events[..])) else old(eeprom[..])
    {
      if dirty {
        StoreEvents();
        dirty := false;
      }
    }
  }

  // ---------------------------------------------------------------- steps of the loops

  lemma {:induction false} NidBytesAre(n: Nid)
    ensures var b := NidBytes(n);
            |b| == 6 && b[0] == n.v0 && b[1] == n.v1 && b[2] == n.v2 && b[3] == n.v3 && b[4] == n.v4 && b[5] == n.v5
  {
  }

  lemma {:induction false} SamePiece(s: seq<Byte>, t: seq<Byte>, at: nat, n: nat)
    requires n <= |s| && at + n <= |t| && forall x | 0 <= x < n :: s[x] == t[at + x]
    ensures s[..n] == t[at..at + n]
  {
    assert |s[..n]| == n && |t[at..at + n]| == n;
    forall x | 0 <= x < n
      ensures s[..n][x] == t[at..at + n][x]
    {
    }
  }

  lemma {:induction false} EightBytes(e: seq<Byte>, e': seq<Byte>, at: nat, b: seq<Byte>)
    requires |e| == |e'| && at + 8 <= |e| && |b| == 8
    requires forall a | 0 <= a < |e| && !(at <= a < at + 8) :: e'[a] == e[a]
    requires forall k | 0 <= k < 8 :: e'[at + k] == b[k]
    ensures e' == e[..at] + b + e[at + 8..]
  {
  }

  /** The high byte of the suffix of event i. */
  function HighAt(base: nat, i: nat): nat {
    (base + i) / 256 % 256
  }

  predicate IdsWritten(e0: Eeprom, e: Eeprom, nid: Nid, base: nat, i: nat)
    requires i <= BLOCK
  {
    && (forall j | 0 <= j < i :: PrefixOf(e, j) == NidBytes(nid) && SuffixOf(e, j) == (base + j) % SUFFIXES)
    && (forall a | 0 <= a < EVENTS_START :: e[a] == e0[a])
    && (forall a | EVENTS_START + 8 * i <= a < EEPROM_SIZE :: e[a] == e0[a])
  }

  lemma {:induction false} FirstHigh(base: nat, hi: Byte, lo: Byte)
    requires base == Word(hi, lo)
    ensures base < SUFFIXES && base % 256 == lo && HighAt(base, 0) == hi
  {
    DivisionUnique(base, 256, hi, lo);
  }

  lemma {:induction false} NothingWritten(e0: Eeprom, nid: Nid, base: nat)
    ensures IdsWritten(e0, e0, nid, base, 0)
  {
  }

  lemma {:induction false} HighIs(base: nat, n: nat)
    requires base < SUFFIXES && n <= BLOCK
    ensures HighAt(base, n) == if base % 256 + n < 256 then base / 256 else (base / 256 + 1) % 256
  {
    var hi, lo := base / 256, base % 256;
    if lo + n < 256 {
      DivisionUnique(base + n, 256, hi, lo + n);
    } else {
      DivisionUnique(base + n, 256, hi + 1, lo + n - 256);
    }
  }

  lemma {:induction false} SuffixSplits(base: nat, i: nat)
    requires base < SUFFIXES && i < BLOCK
    ensures Word(HighAt(base, i), (base % 256 + i) % 256) == (base + i) % SUFFIXES
    ensures HighAt(base, i + 1) == if base % 256 + i == 255 then (HighAt(base, i) + 1) % 256 else HighAt(base, i)
  {
    hide HighAt;
    HighIs(base, i);
    HighIs(base, i + 1);
    var hi, lo := base / 256, base % 256;
    if lo + i >= 256 {
      assert (lo + i) % 256 == lo + i - 256;
      assert base + i == (hi + 1) * 256 + (lo + i - 256);
      if hi == 255 {
        assert (base + i) % SUFFIXES == base + i - SUFFIXES;
      }
    }
  }

  lemma {:induction false} OneMoreId(e0: Eeprom, e: Eeprom, nid: Nid, base: nat, i: nat, e': Eeprom)
    requires i < BLOCK && base < SUFFIXES && IdsWritten(e0, e, nid, base, i)
    requires e' == e[..EVENTS_START + 8 * i] + NidBytes(nid) + [HighAt(base, i), (base % 256 + i) % 256] + e[EVENTS_START + 8 * i + 8..]
    ensures IdsWritten(e0, e', nid, base, i + 1)
    ensures HighAt(base, i + 1) == if base % 256 + i == 255 then (HighAt(base, i) + 1) % 256 else HighAt(base, i)
  {
    hide HighAt;
    SuffixSplits(base, i);
    var at := EVENTS_START + 8 * i;
    assert e'[at..at + 6] == NidBytes(nid);
    forall j | 0 <= j < i
      ensures PrefixOf(e', j) == PrefixOf(e, j) && SuffixOf(e', j) == SuffixOf(e, j)
    {
    }
  }

  lemma {:induction false} CounterUpdated(e2: Byte, e3: Byte)
    ensures Word(if e3 >= 224 then Add8(e2, 1) else e2, Add8(e3, 32)) == (Word(e2, e3) + BLOCK) % SUFFIXES
  {
    var sum := e2 as int * 256 + e3 as int + 32;
    if e3 < 224 {
      assert Add8(e3, 32) == e3 + 32;
    } else {
      assert Add8(e3, 32) as int == e3 as int - 224;
      if e2 < 255 {
        assert Add8(e2, 1) == e2 + 1;
      } else {
        assert Add8(e2, 1) == 0;
        assert sum % SUFFIXES == sum - SUFFIXES;
      }
    }
  }

  lemma {:induction false} AllWritten(e: Eeprom, e0: Eeprom, e1: Eeprom, nid: Nid, base: nat, n: nat)
    requires n <= BLOCK && base == NextSuffix(e) && IdsWritten(e0, e1, nid, base, n)
    requires e0 == e[0 := 88][2 := if e[3] >= 224 then Add8(e[2], 1) else e[2]][3 := Add8(e[3], 32)]
    ensures ResetDone(e, nid, n, e1[0 := 73][1 := 111])
  {
    hide Add8, Word;
    var e' := e1[0 := 73][1 := 111];
    CounterUpdated(e[2], e[3]);
    forall i | 0 <= i < n
      ensures PrefixOf(e', i) == PrefixOf(e1, i) && SuffixOf(e', i) == SuffixOf(e1, i)
    {
    }
  }

  predicate FirstIds(e0: Eeprom, e: Eeprom, i: nat)
    requires i <= BLOCK
  {
    && (forall j | 0 <= j < i :: PrefixOf(e, j) == NidBytes(POOL) && SuffixOf(e, j) == j % 16)
    && (forall a | EVENTS_START + 8 * i <= a < EEPROM_SIZE :: e[a] == e0[a])
  }

  lemma {:induction false} NoFirstIds(e0: Eeprom)
    ensures FirstIds(e0, e0, 0)
  {
  }

  lemma {:induction false} OneMoreFirst(e0: Eeprom, e: Eeprom, i: nat, e': Eeprom)
    requires i < BLOCK && FirstIds(e0, e, i)
    requires e' == e[..EVENTS_START + 8 * i] + NidBytes(POOL) + [0, i % 16] + e[EVENTS_START + 8 * i + 8..]
    ensures FirstIds(e0, e', i + 1)
  {
    var at := EVENTS_START + 8 * i;
    assert e'[at..at + 6] == NidBytes(POOL);
    forall j | 0 <= j < i
      ensures PrefixOf(e', j) == PrefixOf(e, j) && SuffixOf(e', j) == SuffixOf(e, j)
    {
    }
  }

  lemma {:induction false} FirstFormatted(e0: Eeprom, e1: Eeprom, e': Eeprom)
    requires FirstIds(e0, e1, 32) && e'[0] == 73 && e'[1] == 111 && e'[2] == 0 && e'[3] == 0x10
    requires forall a | 4 <= a < EEPROM_SIZE :: e'[a] == if 260 <= a < 516 || 1028 <= a < 1188 then 0 else e1[a]
    ensures FirstFormat(e0, e')
  {
    forall i | 0 <= i < 32
      ensures PrefixOf(e', i) == PrefixOf(e1, i) && SuffixOf(e', i) == SuffixOf(e1, i)
    {
    }
  }

  lemma {:induction false} FlatAt(events: seq<Event>, i: nat, j: nat)
    requires WholeEvents(events) && i < |events| && j < 8
    ensures Flat(events)[8 * i + j] == events[i].val[j]
  {
    assert (8 * i + j) / 8 == i && (8 * i + j) % 8 == j;
  }

  lemma {:induction false} FlatUpdated(events: seq<Event>, k: nat, j: nat, b: Byte)
    requires WholeEvents(events) && k < |events| && j < 8
    ensures var events' := events[k := events[k].(val := events[k].val[j := b])];
            WholeEvents(events') && Flat(events') == Flat(events)[8 * k + j := b]
  {
    var events' := events[k := events[k].(val := events[k].val[j := b])];
    assert (8 * k + j) / 8 == k && (8 * k + j) % 8 == j;
    forall a | 0 <= a < 8 * |events|
      ensures Flat(events')[a] == Flat(events)[8 * k + j := b][a]
    {
      assert a == 8 * (a / 8) + a % 8;
    }
  }

  lemma {:induction false} WrittenByte(f: seq<Byte>, at: nat, data: seq<Byte>, i: nat)
    requires i < |data| && at + i < |f|
    ensures Written(f, at, data[..i + 1]) == Written(f, at, data[..i])[at + i := data[i]]
  {
  }

  lemma {:induction false} NothingChanged(f: seq<Byte>, at: nat)
    requires at <= |f|
    ensures Written(f, at, []) == f
  {
  }

  lemma {:induction false} StoreByte(e: Eeprom, f: seq<Byte>, k: nat)
    requires k < |f| && EVENTS_START + |f| <= EEPROM_SIZE
    ensures Stored(e, f[..k + 1]) == Stored(e, f[..k])[EVENTS_START + k := f[k]]
  {
  }

  lemma {:induction false} FlatOfLoaded(events: seq<Event>, e: Eeprom)
    requires WholeEvents(events) && |events| <= BLOCK
    requires forall k | 0 <= k < |events| :: events[k].val == e[EVENTS_START + 8 * k..EVENTS_START + 8 * k + 8]
    ensures Flat(events) == e[EVENTS_START..EVENTS_START + 8 * |events|]
  {
    forall a | 0 <= a < 8 * |events|
      ensures Flat(events)[a] == e[EVENTS_START + a]
    {
      var k, j := a / 8, a % 8;
      assert events[k].val[j] == e[EVENTS_START + 8 * k..EVENTS_START + 8 * k + 8][j];
    }
  }
}
