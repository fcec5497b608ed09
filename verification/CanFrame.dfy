/**
 The CAN frame buffer: builders that put a frame together field by field with masks and
 shifts, readers that take it apart, and the proof that they agree.
 */
module CanFrame {
  import opened Bits
  import opened NodeIds
  import opened BusFrames
  import opened FrameBits
  import opened AliasGenerator

  const FRAME_TYPE_MASK := 0x0800_0000
  const MASK_VARIABLE_FIELD := 0x07FF_F000
  const CAN_FRAME_TYPE_MASK := 0x0700_0000
  const CAN_FRAME_CLEAR_MASK := 0x18FF_FFFF
  const MTI_MASK := 0x00FF_F000
  const MTI_CLEAR_MASK := 0x1F00_0FFF
  const SRC_ALIAS_MASK := 0x0000_0FFF

  const CAN_FRAME_TYPE_REGULAR := 1
  const CAN_FRAME_TYPE_STREAM := 7

  const RID_VAR_FIELD := 0x0700
  const AMD_VAR_FIELD := 0x0701
  const AMR_VAR_FIELD := 0x0703

  const MTI_INITIALIZATION_COMPLETE := 0x100
  const MTI_VERIFIED_NID := 0x170
  const MTI_DATAGRAM_OK := 0xA28
  const MTI_DATAGRAM_REJECTED := 0xA48

  // ---------------------------------------------------------------- readers of the identifier

  function SourceAlias(id: nat): nat {
    And(id, SRC_ALIAS_MASK)
  }

  function Mti(id: nat): nat {
    Shr(And(id, MTI_MASK), 12)
  }

  function VariableField(id: nat): nat {
    Shr(And(id, MASK_VARIABLE_FIELD), 12)
  }

  function FrameKind(id: nat): nat {
    Shr(And(id, CAN_FRAME_TYPE_MASK), 24)
  }

  predicate IsFrameTypeCan(id: nat) {
    And(id, FRAME_TYPE_MASK) == 0
  }

  predicate IsFrameTypeOpenLcb(id: nat) {
    And(id, FRAME_TYPE_MASK) == FRAME_TYPE_MASK
  }

  predicate IsCid(id: nat) {
    IsFrameTypeCan(id) && And(VariableField(id), 0x7000) >= 0x4000
  }

  predicate IsRid(id: nat) {
    IsFrameTypeCan(id) && VariableField(id) == RID_VAR_FIELD
  }

  predicate IsAmd(id: nat) {
    IsFrameTypeCan(id) && VariableField(id) == AMD_VAR_FIELD
  }

  predicate IsAmr(id: nat) {
    IsFrameTypeCan(id) && VariableField(id) == AMR_VAR_FIELD
  }

  predicate HasMti(id: nat, mti: nat) {
    IsFrameTypeOpenLcb(id) && Mti(id) == mti
  }

  /** The CAN frame type that stands for a part of a datagram. */
  function KindOf(p: Part): nat {
    match p
    case Only => 2
    case First => 3
    case Middle => 4
    case Last => 5
  }

  predicate IsDatagramPart(id: nat, p: Part) {
    IsFrameTypeOpenLcb(id) && FrameKind(id) == KindOf(p)
  }

  // ---------------------------------------------------------------- builders of the identifier

  function WithSource(id: nat, alias: nat): nat {
    Or(id, And(alias, SRC_ALIAS_MASK))
  }

  function InitialId(alias: nat): nat {
    WithSource(0x1900_0000, alias)
  }

  function AsCan(id: nat): nat {
    And(id, 0xF7FF_FFFF)
  }

  function WithVariable(id: nat, f: nat): nat {
    Or(And(id, 0xF800_0FFF), And(Shl(f, 12), MASK_VARIABLE_FIELD))
  }

  /** SET_MTI and SET_DEST_ALIAS are the same macro under two names. */
  function WithMti(id: nat, f: nat): nat {
    Or(And(id, MTI_CLEAR_MASK), And(Shl(f, 12), MTI_MASK))
  }

  function WithKind(id: nat, t: nat): nat {
    Or(And(id, CAN_FRAME_CLEAR_MASK), And(Shl(t, 24), CAN_FRAME_TYPE_MASK))
  }

  function CidVariable(i: nat, fragment: nat): nat
    requires 1 <= i <= 4
  {
    Or(Shl(And(8 - i, 7), 12), And(fragment, 0xFFF))
  }

  function CanId(alias: nat, variable: nat): nat {
    WithVariable(AsCan(InitialId(alias)), variable)
  }

  function MessageId(alias: nat, mti: nat): nat {
    WithMti(InitialId(alias), mti)
  }

  function DatagramId(p: Part, source: nat, dest: nat): nat {
    WithMti(WithKind(InitialId(source), KindOf(p)), dest)
  }

  // ---------------------------------------------------------------- what the masks mean

  /** The masks of the readers keep one field, or two. */
  lemma {:induction false} Masks()
    ensures Mask(0, false, false, false, true).Number() == SRC_ALIAS_MASK
    ensures Mask(0, false, false, true, false).Number() == MTI_MASK
    ensures Mask(0, false, true, true, false).Number() == MASK_VARIABLE_FIELD
    ensures Mask(0, false, true, false, false).Number() == CAN_FRAME_TYPE_MASK
    ensures Mask(0, true, false, false, false).Number() == FRAME_TYPE_MASK
  {
    hide Header.Number;
    NumberIs(Mask(0, false, false, false, true));
    NumberIs(Mask(0, false, false, true, false));
    NumberIs(Mask(0, false, true, true, false));
    NumberIs(Mask(0, false, true, false, false));
    NumberIs(Mask(0, true, false, false, false));
  }

  /** The clear-masks of the builders keep all fields but one, or two. */
  lemma {:induction false} ClearMasks()
    ensures Mask(1, true, true, false, true).Number() == MTI_CLEAR_MASK
    ensures Mask(1, true, false, true, true).Number() == CAN_FRAME_CLEAR_MASK
    ensures Mask(15, false, true, true, true).Number() == 0xF7FF_FFFF
    ensures Mask(15, true, false, false, true).Number() == 0xF800_0FFF
  {
    hide Header.Number;
    NumberIs(Mask(1, true, true, false, true));
    NumberIs(Mask(1, true, false, true, true));
    NumberIs(Mask(15, false, true, true, true));
    NumberIs(Mask(15, true, false, false, true));
  }

  lemma {:induction false} RegularHeader()
    ensures Header(1, 1, 1, 0, 0).Number() == 0x1900_0000
  {
    hide Header.Number;
    NumberIs(Header(1, 1, 1, 0, 0));
  }

  predicate Usual(x: Header) {
    x.Valid() && x.top < 2
  }

  lemma {:induction false} Shifted(n: nat)
    ensures Shl(n, 12) == n * 0x1000 && Shr(n, 12) == n / 0x1000
    ensures Shl(n, 24) == n * 0x100_0000 && Shr(n, 24) == n / 0x100_0000
  {
    assert Pow2(12) == 0x1000 && Pow2(24) == 0x100_0000 by { Powers(); }
    ShlIs(n, 12);
    ShrIs(n, 12);
    ShlIs(n, 24);
    ShrIs(n, 24);
  }

  /** The readers read the fields. */
  lemma {:induction false} Reads(x: Header)
    requires Usual(x)
    ensures SourceAlias(x.Number()) == x.source && Mti(x.Number()) == x.field
    ensures VariableField(x.Number()) == x.kind * 0x1000 + x.field && FrameKind(x.Number()) == x.kind
    ensures IsFrameTypeCan(x.Number()) <==> x.openLcb == 0
    ensures IsFrameTypeOpenLcb(x.Number()) <==> x.openLcb == 1
  {
    hide And, Shl, Shr, Header.Number;
    Masks();
    Keep(x, 0, false, false, false, true);
    Keep(x, 0, false, false, true, false);
    Keep(x, 0, false, true, true, false);
    Keep(x, 0, false, true, false, false);
    Keep(x, 0, true, false, false, false);
    NumberIs(Header(0, 0, 0, 0, x.source));
    NumberIs(Header(0, 0, 0, x.field, 0));
    NumberIs(Header(0, 0, x.kind, x.field, 0));
    NumberIs(Header(0, 0, x.kind, 0, 0));
    NumberIs(Header(0, x.openLcb, 0, 0, 0));
    Shifted(x.field * 0x1000);
    Shifted(x.kind * 0x100_0000);
    Shifted(x.kind * 0x100_0000 + x.field * 0x1000);
  }

  lemma {:induction false} InitialIs(alias: nat)
    requires alias < 0x1000
    ensures InitialId(alias) == Header(1, 1, 1, 0, alias).Number()
  {
    hide And, Or, Header.Number;
    Masks();
    RegularHeader();
    Mask12(alias);
    NumberIs(Header(0, 0, 0, 0, alias));
    Fill(Header(1, 1, 1, 0, 0), Header(0, 0, 0, 0, alias));
  }

  lemma {:induction false} WithMtiIs(x: Header, f: nat)
    requires Usual(x) && f < 0x1000
    ensures WithMti(x.Number(), f) == x.(field := f).Number()
  {
    hide And, Or, Shl, Header.Number;
    Masks();
    ClearMasks();
    Keep(x, 1, true, true, false, true);
    Shifted(f);
    var y := Header(0, 0, 0, f, 0);
    NumberIs(y);
    Keep(y, 0, false, false, true, false);
    Fill(x.(field := 0), y);
  }

  lemma {:induction false} WithKindIs(x: Header, t: nat)
    requires Usual(x) && t < 8
    ensures WithKind(x.Number(), t) == x.(kind := t).Number()
  {
    hide And, Or, Shl, Header.Number;
    Masks();
    ClearMasks();
    Keep(x, 1, true, false, true, true);
    Shifted(t);
    var y := Header(0, 0, t, 0, 0);
    NumberIs(y);
    Keep(y, 0, false, true, false, false);
    Fill(x.(kind := 0), y);
  }

  lemma {:induction false} WithVariableIs(x: Header, k: nat, f: nat)
    requires Usual(x) && k < 8 && f < 0x1000
    ensures WithVariable(x.Number(), k * 0x1000 + f) == x.(kind := k, field := f).Number()
  {
    hide And, Or, Shl, Header.Number;
    Masks();
    ClearMasks();
    Keep(x, 15, true, false, false, true);
    Shifted(k * 0x1000 + f);
    var y := Header(0, 0, k, f, 0);
    NumberIs(y);
    Keep(y, 0, false, true, true, false);
    Fill(x.(kind := 0, field := 0), y);
  }

  lemma {:induction false} AsCanIs(x: Header)
    requires Usual(x)
    ensures AsCan(x.Number()) == x.(openLcb := 0).Number()
  {
    hide And, Or, Header.Number;
    Masks();
    ClearMasks();
    Keep(x, 15, false, true, true, true);
  }

  // ---------------------------------------------------------------- every builder's identifier

  lemma {:induction false} CanIdIs(alias: nat, k: nat, f: nat)
    requires alias < 0x1000 && k < 8 && f < 0x1000
    ensures CanId(alias, k * 0x1000 + f) == Header(1, 0, k, f, alias).Number()
  {
    hide WithVariable, AsCan, InitialId;
    InitialIs(alias);
    AsCanIs(Header(1, 1, 1, 0, alias));
    WithVariableIs(Header(1, 0, 1, 0, alias), k, f);
  }

  lemma {:induction false} MessageIdIs(alias: nat, mti: nat)
    requires alias < 0x1000 && mti < 0x1000
    ensures MessageId(alias, mti) == Header(1, 1, 1, mti, alias).Number()
  {
    hide WithMti, InitialId;
    InitialIs(alias);
    WithMtiIs(Header(1, 1, 1, 0, alias), mti);
  }

  lemma {:induction false} DatagramIdIs(p: Part, source: nat, dest: nat)
    requires source < 0x1000 && dest < 0x1000
    ensures DatagramId(p, source, dest) == Header(1, 1, KindOf(p), dest, source).Number()
  {
    hide WithMti, WithKind, InitialId;
    InitialIs(source);
    WithKindIs(Header(1, 1, 1, 0, source), KindOf(p));
    WithMtiIs(Header(1, 1, KindOf(p), 0, source), dest);
  }

  lemma {:induction false} CidVariableIs(i: nat, fragment: nat)
    requires 1 <= i <= 4 && fragment < 0x1000
    ensures CidVariable(i, fragment) == (8 - i) * 0x1000 + fragment
  {
    hide And, Or, Shl, Shr, Pow2;
    Powers();
    AndLow(8 - i, 3);
    Mask12(fragment);
    OrDisjoint(8 - i, fragment, 12);
    Shifted(8 - i);
  }

  // ---------------------------------------------------------------- on the wire

  /** The identifiers of the CAN-level frames, as section 4 of S-9.7.2.1 has them on the bus. */
  lemma {:induction false} CanFramesOnTheWire(alias: nat, i: nat, fragment: nat)
    requires alias < 0x1000 && 1 <= i <= 4 && fragment < 0x1000
    ensures CanId(alias, CidVariable(i, fragment)) == 0x1000_0000 + (8 - i) * 0x100_0000 + fragment * 0x1000 + alias
    ensures CanId(alias, RID_VAR_FIELD) == 0x1070_0000 + alias
    ensures CanId(alias, AMD_VAR_FIELD) == 0x1070_1000 + alias
    ensures CanId(alias, AMR_VAR_FIELD) == 0x1070_3000 + alias
  {
    hide And, Or, Shl, Shr, Header.Number, CidVariable, CanId;
    CidVariableIs(i, fragment);
    CanIdIs(alias, 8 - i, fragment);
    CanIdIs(alias, 0, RID_VAR_FIELD);
    CanIdIs(alias, 0, AMD_VAR_FIELD);
    CanIdIs(alias, 0, AMR_VAR_FIELD);
    NumberIs(Header(1, 0, 8 - i, fragment, alias));
    NumberIs(Header(1, 0, 0, RID_VAR_FIELD, alias));
    NumberIs(Header(1, 0, 0, AMD_VAR_FIELD, alias));
    NumberIs(Header(1, 0, 0, AMR_VAR_FIELD, alias));
  }

  /** The identifiers of datagram frames and of the messages modelled. */
  lemma {:induction false} MessagesOnTheWire(source: nat, dest: nat)
    requires source < 0x1000 && dest < 0x1000
    ensures DatagramId(Only, source, dest) == 0x1A00_0000 + dest * 0x1000 + source
    ensures DatagramId(First, source, dest) == 0x1B00_0000 + dest * 0x1000 + source
    ensures DatagramId(Middle, source, dest) == 0x1C00_0000 + dest * 0x1000 + source
    ensures DatagramId(Last, source, dest) == 0x1D00_0000 + dest * 0x1000 + source
    ensures MessageId(source, MTI_DATAGRAM_OK) == 0x19A2_8000 + source
    ensures MessageId(source, MTI_DATAGRAM_REJECTED) == 0x19A4_8000 + source
    ensures MessageId(source, MTI_INITIALIZATION_COMPLETE) == 0x1910_0000 + source
    ensures MessageId(source, MTI_VERIFIED_NID) == 0x1917_0000 + source
  {
    hide And, Or, Shl, Shr, Header.Number, DatagramId, MessageId;
    DatagramIdIs(Only, source, dest);
    DatagramIdIs(First, source, dest);
    DatagramIdIs(Middle, source, dest);
    DatagramIdIs(Last, source, dest);
    MessageIdIs(source, MTI_DATAGRAM_OK);
    MessageIdIs(source, MTI_DATAGRAM_REJECTED);
    MessageIdIs(source, MTI_INITIALIZATION_COMPLETE);
    MessageIdIs(source, MTI_VERIFIED_NID);
    NumberIs(Header(1, 1, 2, dest, source));
    NumberIs(Header(1, 1, 3, dest, source));
    NumberIs(Header(1, 1, 4, dest, source));
    NumberIs(Header(1, 1, 5, dest, source));
    NumberIs(Header(1, 1, 1, 0xA28, source));
    NumberIs(Header(1, 1, 1, 0xA48, source));
    NumberIs(Header(1, 1, 1, 0x100, source));
    NumberIs(Header(1, 1, 1, 0x170, source));
  }

  // ---------------------------------------------------------------- reading a frame back

  /** The identifier, the data bytes in use, and whether the frame is one of our own. */
  datatype Raw = Raw(id: nat, data: seq<Byte>, internal: bool)

  predicate MtiIsAddressed(mti: nat) {
    And(mti, 0x008) != 0
  }

  predicate IsDatagram(id: nat) {
    IsDatagramPart(id, Only) || IsDatagramPart(id, First) || IsDatagramPart(id, Middle) || IsDatagramPart(id, Last)
  }

  predicate IsStream(id: nat) {
    IsFrameTypeOpenLcb(id) && FrameKind(id) == CAN_FRAME_TYPE_STREAM
  }

  function DestAlias(r: Raw): nat {
    if IsFrameTypeCan(r.id) then 0
    else if FrameKind(r.id) == CAN_FRAME_TYPE_REGULAR then
      if MtiIsAddressed(Mti(r.id)) && |r.data| >= 2 then And(Or(Shl(r.data[0], 8), r.data[1]), 0xFFF) else 0
    else if IsDatagram(r.id) || IsStream(r.id) then Mti(r.id)
    else 0
  }

  function NakErrorCode(r: Raw): nat {
    if |r.data| >= 4 then Or(Shl(r.data[2], 8), r.data[3]) else 0
  }

  function PartOf(id: nat): Part {
    if IsDatagramPart(id, Only) then Only
    else if IsDatagramPart(id, First) then First
    else if IsDatagramPart(id, Middle) then Middle
    else Last
  }

  /** A CID's ordinal, from the three bits above the fragment. */
  function CidOrdinal(id: nat): nat {
    var k := Shr(And(VariableField(id), 0x7000), 12);
    if k <= 8 then 8 - k else 0
  }

  /** What the readers make of a frame, asked in the order the datagram handler asks. */
  function Decode(r: Raw): Frame {
    var c :=
      if IsCid(r.id) then CidFrame(CidOrdinal(r.id))
      else if IsRid(r.id) then RidFrame
      else if IsAmr(r.id) then AmrFrame
      else if IsAmd(r.id) then AmdFrame
      else if IsDatagram(r.id) then Datagram(PartOf(r.id), DestAlias(r), r.data)
      else if HasMti(r.id, MTI_DATAGRAM_OK) then DatagramOk(DestAlias(r))
      else if HasMti(r.id, MTI_DATAGRAM_REJECTED) then DatagramRejected(DestAlias(r), NakErrorCode(r))
      else if HasMti(r.id, MTI_INITIALIZATION_COMPLETE) then InitializationComplete
      else if HasMti(r.id, MTI_VERIFIED_NID) then VerifiedNid
      else Other;
    Frame(c, SourceAlias(r.id), r.internal)
  }

  lemma {:induction false} ThreeBits(k: nat, f: nat)
    requires k < 8 && f < 0x1000
    ensures And(k * 0x1000 + f, 0x7000) == k * 0x1000
  {
    hide And, Shl, Shr;
    Shifted(7);
    Shifted(k * 0x1000 + f);
    MaskedTop(k * 0x1000 + f, k);
  }

  lemma {:induction false} MaskedTop(v: nat, k: nat)
    requires k < 8 && Shr(v, 12) == k
    ensures And(v, Shl(7, 12)) == k * 0x1000
  {
    hide And, Shl, Shr;
    AndShl(v, 7, 12);
    assert And(k, 7) == k by {
      assert Pow2(3) == 8 by { Powers(); }
      AndLow(k, 3);
    }
    Shifted(k);
  }

  /** The four CAN-level builders produce frames that read as exactly one of CID, RID, AMR and AMD. */
  lemma {:induction false} CanFramesDecode(alias: nat, i: nat, fragment: nat, data: seq<Byte>, internal: bool)
    requires alias < 0x1000 && 1 <= i <= 4 && fragment < 0x1000
    ensures Decode(Raw(CanId(alias, CidVariable(i, fragment)), data, internal)) == Frame(CidFrame(i), alias, internal)
    ensures VariableField(CanId(alias, CidVariable(i, fragment))) % 0x1000 == fragment
    ensures Decode(Raw(CanId(alias, RID_VAR_FIELD), data, internal)) == Frame(RidFrame, alias, internal)
    ensures Decode(Raw(CanId(alias, AMR_VAR_FIELD), data, internal)) == Frame(AmrFrame, alias, internal)
    ensures Decode(Raw(CanId(alias, AMD_VAR_FIELD), data, internal)) == Frame(AmdFrame, alias, internal)
  {
    hide And, Or, Shl, Shr, Header.Number, CanId, CidVariable, DestAlias, VariableField;
    CidVariableIs(i, fragment);
    CanIdIs(alias, 8 - i, fragment);
    CanIdIs(alias, 0, RID_VAR_FIELD);
    CanIdIs(alias, 0, AMR_VAR_FIELD);
    CanIdIs(alias, 0, AMD_VAR_FIELD);
    Reads(Header(1, 0, 8 - i, fragment, alias));
    Reads(Header(1, 0, 0, RID_VAR_FIELD, alias));
    Reads(Header(1, 0, 0, AMR_VAR_FIELD, alias));
    Reads(Header(1, 0, 0, AMD_VAR_FIELD, alias));
    ThreeBits(8 - i, fragment);
    ThreeBits(0, RID_VAR_FIELD);
    ThreeBits(0, AMR_VAR_FIELD);
    ThreeBits(0, AMD_VAR_FIELD);
    Shifted((8 - i) * 0x1000);
  }

  /** A datagram frame decodes to its part, source, destination and bytes, for every 12-bit alias. */
  lemma {:induction false} DatagramsDecode(p: Part, source: nat, dest: nat, data: seq<Byte>, internal: bool)
    requires source < 0x1000 && dest < 0x1000
    ensures Decode(Raw(DatagramId(p, source, dest), data, internal)) == Frame(Datagram(p, dest, data), source, internal)
  {
    hide And, Or, Shl, Shr, Header.Number, DatagramId, VariableField;
    DatagramIdIs(p, source, dest);
    Reads(Header(1, 1, KindOf(p), dest, source));
  }

  /** The reply and MTI readers look only at the MTI field: a datagram's destination can pass for one. */
  lemma {:induction false} DatagramLooksLikeAck(p: Part, source: nat, dest: nat)
    requires source < 0x1000 && dest < 0x1000
    ensures HasMti(DatagramId(p, source, dest), MTI_DATAGRAM_OK) <==> dest == 0xA28
    ensures HasMti(DatagramId(p, source, dest), MTI_DATAGRAM_REJECTED) <==> dest == 0xA48
  {
    hide And, Or, Shl, Shr, Header.Number, DatagramId, VariableField;
    DatagramIdIs(p, source, dest);
    Reads(Header(1, 1, KindOf(p), dest, source));
  }

  /** The destination in the first two data bytes. */
  function DestBytes(dest: nat): (d: seq<Byte>)
    requires dest < 0x1000
  {
    [dest / 0x100, dest % 0x100]
  }

  lemma {:induction false} DestBytesRead(dest: nat)
    requires dest < 0x1000
    ensures And(Or(Shl(dest / 0x100, 8), dest % 0x100), 0xFFF) == dest
  {
    hide And, Or, Shl;
    TwoBytes(dest / 0x100, dest % 0x100);
    Mask12(dest);
  }

  lemma {:induction false} TwoBytes(hi: nat, lo: nat)
    requires lo < 0x100
    ensures Or(Shl(hi, 8), lo) == hi * 0x100 + lo
  {
    hide And, Or, Shl;
    assert Pow2(8) == 0x100 by { Powers(); }
    OrDisjoint(hi, lo, 8);
    ShlIs(hi, 8);
  }

  lemma {:induction false} AddressedReplies()
    ensures MtiIsAddressed(MTI_DATAGRAM_OK) && MtiIsAddressed(MTI_DATAGRAM_REJECTED)
  {
    assert And(0xA28, 8) == 8;
    assert And(0xA48, 8) == 8;
  }

  /** Acks and naks decode to their kind, source, destination and error code. */
  lemma {:induction false} RepliesDecode(source: nat, dest: nat, code: nat, internal: bool)
    requires source < 0x1000 && dest < 0x1000 && code < 0x1_0000
    ensures Decode(Raw(MessageId(source, MTI_DATAGRAM_OK), DestBytes(dest), internal))
         == Frame(DatagramOk(dest), source, internal)
    ensures Decode(Raw(MessageId(source, MTI_DATAGRAM_REJECTED), DestBytes(dest) + DestOfCode(code), internal))
         == Frame(DatagramRejected(dest, code), source, internal)
  {
    hide And, Or, Shl, Shr, Header.Number, MessageId, VariableField;
    MessageIdIs(source, MTI_DATAGRAM_OK);
    MessageIdIs(source, MTI_DATAGRAM_REJECTED);
    Reads(Header(1, 1, 1, MTI_DATAGRAM_OK, source));
    Reads(Header(1, 1, 1, MTI_DATAGRAM_REJECTED, source));
    DestBytesRead(dest);
    AddressedReplies();
    TwoBytes(code / 0x100, code % 0x100);
  }

  function DestOfCode(code: nat): (d: seq<Byte>)
    requires code < 0x1_0000
  {
    [code / 0x100, code % 0x100]
  }

  /** Global messages of the alias helper decode to themselves. */
  lemma {:induction false} AnnouncementsDecode(source: nat, data: seq<Byte>, internal: bool)
    requires source < 0x1000
    ensures Decode(Raw(MessageId(source, MTI_INITIALIZATION_COMPLETE), data, internal))
         == Frame(InitializationComplete, source, internal)
    ensures Decode(Raw(MessageId(source, MTI_VERIFIED_NID), data, internal)) == Frame(VerifiedNid, source, internal)
  {
    hide And, Or, Shl, Shr, Header.Number, MessageId, VariableField;
    MessageIdIs(source, MTI_INITIALIZATION_COMPLETE);
    MessageIdIs(source, MTI_VERIFIED_NID);
    Reads(Header(1, 1, 1, MTI_INITIALIZATION_COMPLETE, source));
    Reads(Header(1, 1, 1, MTI_VERIFIED_NID, source));
  }

  /** Whatever the identifier, a frame is at most one of CID, RID, AMR and AMD. */
  lemma {:induction false} CanKindsExclude(id: nat)
    ensures !(IsCid(id) && (IsRid(id) || IsAmr(id) || IsAmd(id)))
    ensures !(IsRid(id) && IsAmr(id)) && !(IsRid(id) && IsAmd(id)) && !(IsAmr(id) && IsAmd(id))
  {
    hide And, VariableField;
    ThreeBits(0, RID_VAR_FIELD);
    ThreeBits(0, AMR_VAR_FIELD);
    ThreeBits(0, AMD_VAR_FIELD);
  }

  // ---------------------------------------------------------------- the NodeID in four CIDs

  function UpperNibble(b: Byte): nat {
    Shr(And(b, 0xF0), 4)
  }

  function LowerNibble(b: Byte): nat {
    And(b, 0x0F)
  }

  /** The twelve bits of the NodeID that CID i carries. */
  function Fragment(n: Nid, i: nat): nat
    requires 1 <= i <= 4
  {
    match i
    case 1 => Or(Shl(n.v0, 4), UpperNibble(n.v1))
    case 2 => Or(Shl(LowerNibble(n.v1), 8), n.v2)
    case 3 => Or(Shl(n.v3, 4), UpperNibble(n.v4))
    case _ => Or(Shl(LowerNibble(n.v4), 8), n.v5)
  }

  lemma {:induction false} Nibbles(b: Byte)
    ensures UpperNibble(b) == b / 16 && LowerNibble(b) == b % 16
  {
    hide And, Shl, Shr;
    assert Pow2(4) == 16 by { Powers(); }
    AndLow(b, 4);
    ShlIs(15, 4);
    ShrIs(b, 4);
    UpperMask(b, Shl(15, 4));
  }

  lemma {:induction false} UpperMask(b: Byte, m: nat)
    requires m == Shl(15, 4)
    ensures Shr(And(b, m), 4) == b / 16
  {
    hide And, Shl, Shr;
    assert Pow2(4) == 16 by { Powers(); }
    AndShl(b, 15, 4);
    ShrIs(b, 4);
    AndLow(b / 16, 4);
    ShlIs(b / 16, 4);
    ShrIs(b / 16 * 16, 4);
  }

  lemma {:induction false} HighFragment(a: Byte, b: Byte)
    ensures Or(Shl(a, 4), UpperNibble(b)) == a * 16 + b / 16
  {
    hide Or, Shl, UpperNibble;
    assert Pow2(4) == 16 by { Powers(); }
    Nibbles(b);
    OrDisjoint(a, b / 16, 4);
    ShlIs(a, 4);
  }

  lemma {:induction false} LowFragment(b: Byte, c: Byte)
    ensures Or(Shl(LowerNibble(b), 8), c) == b % 16 * 0x100 + c
  {
    hide Or, Shl, LowerNibble;
    Nibbles(b);
    TwoBytes(b % 16, c);
  }

  lemma {:induction false} ThreeBytes(a: Byte, b: Byte, c: Byte)
    ensures Or(Or(Shl(a, 16), Shl(b, 8)), c) == a * 0x1_0000 + b * 0x100 + c
  {
    hide Or, Shl;
    assert Pow2(8) == 0x100 by { Powers(); }
    ShlTwice(a);
    OrDisjoint(Shl(a, 8), b, 8);
    OrShl(Shl(a, 8), b, 8);
    TwoBytes(a, b);
    TwoBytes(a * 0x100 + b, c);
    ShlIs(a * 0x100 + b, 8);
  }

  lemma {:induction false} ShlTwice(a: nat)
    ensures Shl(a, 16) == Shl(Shl(a, 8), 8) == a * 0x1_0000
    ensures Shl(a, 8) == a * 0x100
  {
    hide Shl;
    assert Pow2(8) == 0x100 by { Powers(); }
    Pow2Adds(8, 8);
    ShlIs(a, 16);
    ShlIs(a, 8);
    ShlIs(a * 0x100, 8);
  }

  /** Shifting two or-ed words is or-ing the shifted words. */
  lemma {:induction false} OrShl(a: nat, b: nat, k: nat)
    ensures Or(Shl(a, k), Shl(b, k)) == Shl(Or(a, b), k)
  {
    if k > 0 {
      OrShl(a, b, k - 1);
      DoubleOr(Shl(a, k - 1), Shl(b, k - 1));
    }
  }

  lemma {:induction false} DoubleOr(a: nat, b: nat)
    ensures Or(2 * a, 2 * b) == 2 * Or(a, b)
  {
    var x, y := 2 * a, 2 * b;
    assert x / 2 == a && x % 2 == 0 && y / 2 == b && y % 2 == 0;
    OrUnfold(x, y);
  }

  /** The four fragments are twelve bits each and put together are the NodeID. */
  lemma {:induction false} FragmentsRebuildNid(n: Nid)
    ensures forall i | 1 <= i <= 4 :: Fragment(n, i) < 0x1000
    ensures Fragment(n, 1) * 0x1000 + Fragment(n, 2) == SeedWords(n).hi == n.v0 * 0x1_0000 + n.v1 * 0x100 + n.v2
    ensures Fragment(n, 3) * 0x1000 + Fragment(n, 4) == SeedWords(n).lo == n.v3 * 0x1_0000 + n.v4 * 0x100 + n.v5
  {
    hide And, Or, Shl, Shr, UpperNibble, LowerNibble;
    HighFragment(n.v0, n.v1);
    LowFragment(n.v1, n.v2);
    HighFragment(n.v3, n.v4);
    LowFragment(n.v4, n.v5);
    ThreeBytes(n.v0, n.v1, n.v2);
    ThreeBytes(n.v3, n.v4, n.v5);
  }

  /** So a listener can tell any two NodeIDs apart by their CIDs. */
  lemma {:induction false} FragmentsIdentify(m: Nid, n: Nid)
    requires forall i | 1 <= i <= 4 :: Fragment(m, i) == Fragment(n, i)
    ensures m == n
  {
    hide Fragment, SeedWords;
    FragmentsRebuildNid(m);
    FragmentsRebuildNid(n);
    BytesOf(m.v0, m.v1, m.v2, n.v0, n.v1, n.v2);
    BytesOf(m.v3, m.v4, m.v5, n.v3, n.v4, n.v5);
  }

  lemma {:induction false} BytesOf(a: Byte, b: Byte, c: Byte, x: Byte, y: Byte, z: Byte)
    requires a * 0x1_0000 + b * 0x100 + c == x * 0x1_0000 + y * 0x100 + z
    ensures a == x && b == y && c == z
  {
  }

  function XorOfFragments(n: Nid): nat {
    Xor(Xor(Xor(Fragment(n, 1), Fragment(n, 2)), Fragment(n, 3)), Fragment(n, 4))
  }

  lemma {:induction false} Rearrange(a: nat, b: nat, c: nat, d: nat)
    ensures Xor(Xor(Xor(b, d), a), c) == Xor(Xor(Xor(a, b), c), d)
  {
    hide Xor;
    XorCommutes(Xor(b, d), a);
    XorAssociates(a, b, d);
    XorAssociates(Xor(a, b), d, c);
    XorCommutes(d, c);
    XorAssociates(Xor(a, b), c, d);
  }

  lemma {:induction false} LowTwelve(x: nat, hi: nat, lo: nat)
    requires x == hi * 0x1000 + lo && hi < 0x1000 && lo < 0x1000
    ensures x % 0x1000 == lo && Shr(x, 12) == hi
  {
    Shifted(x);
  }

  /** The first alias tried for a NodeID is the xor of the four fragments its CIDs carry, or 1 if that is 0. */
  lemma {:induction false} SeedIsXorOfFragments(n: Nid)
    ensures SeedAlias(n) == if XorOfFragments(n) == 0 then 1 else XorOfFragments(n)
  {
    hide And, Xor, Shl, Shr, Fragment, SeedWords;
    FragmentsRebuildNid(n);
    var w := SeedWords(n);
    var a, b, c, d := Fragment(n, 1), Fragment(n, 2), Fragment(n, 3), Fragment(n, 4);
    LowTwelve(w.hi, a, b);
    LowTwelve(w.lo, c, d);
    Mask12(Xor(Xor(Xor(w.hi, w.lo), a), c));
    Xor12(Xor(Xor(w.hi, w.lo), a), c);
    Xor12(Xor(w.hi, w.lo), a);
    Xor12(w.hi, w.lo);
    Rearrange(a, b, c, d);
  }

  lemma {:induction false} Xor12(a: nat, b: nat)
    ensures Xor(a, b) % 0x1000 == Xor(a % 0x1000, b % 0x1000)
  {
    hide Xor;
    assert Pow2(12) == 0x1000 by { Powers(); }
    XorMod(a, b, 12);
  }
}
