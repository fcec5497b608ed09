/** The transmit buffer: builders rewrite identifier, length and data bytes in place. */
module CanBuffer {
  import opened Bits
  import opened NodeIds
  import opened BusFrames
  import opened FrameBits
  import opened CanFrame

  class Buffer {
    var id: nat
    var length: nat
    var internal: bool
    const data: array<Byte>

    predicate Valid()
      reads this
    {
      data.Length == 8 && length <= 8
    }

    function Contents(): Raw
      reads this, data
      requires Valid()
    {
      Raw(id, data[..length], internal)
    }

    constructor ()
      ensures Valid() && fresh(data) && length == 0
    {
      id, length, internal := 0, 0, false;
      data := new Byte[8](_ => 0);
    }

    method Init(alias: nat)
      requires Valid()
      modifies this
      ensures Valid() && Contents() == Raw(InitialId(alias), [], false)
    {
      internal := false;
      length := 0;
      id := 0x1900_0000;
      id := WithSource(id, alias);
    }

    method SetDestAlias(a: nat)
      requires Valid() && a < 0x1000
      modifies this, data
      ensures Valid() && internal == old(internal)
      ensures FrameKind(old(id)) == CAN_FRAME_TYPE_REGULAR ==>
                && id == old(id) && length == (if old(length) == 0 then 2 else old(length))
                && data[..] == DestBytes(a) + old(data[2..])
      ensures FrameKind(old(id)) != CAN_FRAME_TYPE_REGULAR ==>
                id == WithMti(old(id), a) && length == old(length) && data[..] == old(data[..])
    {
      hide And, Shr, WithMti;
      if FrameKind(id) == CAN_FRAME_TYPE_REGULAR {
        if length == 0 {
          length := 2;
        }
        SplitAlias(a);
        data[0] := Shr(And(a, 0xFFF), 8);
        data[1] := And(a, 0xFF);
        assert data[..2] == DestBytes(a) && data[2..] == old(data[2..]);
        assert data[..] == data[..2] + data[2..];
      } else {
        id := WithMti(id, a);
      }
    }

    method SetCid(i: nat, testval: nat, alias: nat)
      requires Valid() && 1 <= i <= 4 && testval < 0x1000 && alias < 0x1000
      modifies this
      ensures Valid() && Contents() == Raw(CanId(alias, CidVariable(i, testval)), [], false)
      ensures Decode(Contents()) == Frame(CidFrame(i), alias, false)
    {
      hide AsCan, WithVariable, InitialId, CidVariable, Decode;
      Init(alias);
      id := AsCan(id);
      id := WithVariable(id, CidVariable(i, testval));
      length := 0;
      CanFramesDecode(alias, i, testval, [], false);
    }

    method SetRid(alias: nat)
      requires Valid() && alias < 0x1000
      modifies this
      ensures Valid() && Decode(Contents()) == Frame(RidFrame, alias, false)
    {
      hide AsCan, WithVariable, InitialId, CidVariable, Decode;
      Init(alias);
      id := AsCan(id);
      id := WithVariable(id, RID_VAR_FIELD);
      length := 0;
      CanFramesDecode(alias, 1, 0, [], false);
    }

    /** The six bytes of a NodeID go into the payload. */
    method SetNid(nid: Nid)
      requires Valid()
      modifies this`length, data
      ensures Valid() && Contents().data == NidBytes(nid) && length == 6
    {
      length := 6;
      data[0], data[1], data[2] := nid.v0, nid.v1, nid.v2;
      data[3], data[4], data[5] := nid.v3, nid.v4, nid.v5;
    }

    method SetAmr(nid: Nid, alias: nat)
      requires Valid() && alias < 0x1000
      modifies this, data
      ensures Valid() && Decode(Contents()) == Frame(AmrFrame, alias, false) && Contents().data == NidBytes(nid)
    {
      hide AsCan, WithVariable, InitialId, CidVariable, Decode;
      Init(alias);
      id := AsCan(id);
      id := WithVariable(id, AMR_VAR_FIELD);
      SetNid(nid);
      CanFramesDecode(alias, 1, 0, Contents().data, false);
    }

    method SetAmd(nid: Nid, alias: nat)
      requires Valid() && alias < 0x1000
      modifies this, data
      ensures Valid() && Decode(Contents()) == Frame(AmdFrame, alias, false) && Contents().data == NidBytes(nid)
    {
      hide AsCan, WithVariable, InitialId, CidVariable, Decode;
      Init(alias);
      id := AsCan(id);
      id := WithVariable(id, AMD_VAR_FIELD);
      SetNid(nid);
      CanFramesDecode(alias, 1, 0, Contents().data, false);
    }

    /** setOnlyDatagram, setFirstDatagram, setMiddleDatagram and setLastDatagram differ in the type alone. */
    method SetDatagram(p: Part, source: nat, dest: nat)
      requires Valid() && source < 0x1000 && dest < 0x1000
      modifies this, data
      ensures Valid() && id == DatagramId(p, source, dest) && length == 0 && !internal
    {
      hide WithKind, WithMti, InitialId, FrameKind;
      Init(source);
      id := WithKind(id, KindOf(p));
      InitialIs(source);
      WithKindIs(Header(1, 1, 1, 0, source), KindOf(p));
      Reads(Header(1, 1, KindOf(p), 0, source));
      SetDestAlias(dest);
    }

    /** The fragment's bytes follow the identifier; the whole frame reads back. */
    method Load(p: Part, source: nat, dest: nat, bytes: seq<Byte>)
      requires Valid() && source < 0x1000 && dest < 0x1000 && |bytes| <= 8
      modifies this, data
      ensures Valid() && Decode(Contents()) == Frame(Datagram(p, dest, bytes), source, false)
    {
      hide Decode, DatagramId;
      SetDatagram(p, source, dest);
      length := |bytes|;
      var i := 0;
      while i < length
        invariant i <= length == |bytes| <= 8 && id == DatagramId(p, source, dest) && !internal
        invariant forall j | 0 <= j < i :: data[j] == bytes[j]
      {
        data[i] := bytes[i];
        i := i + 1;
      }
      assert data[..length] == bytes;
      DatagramsDecode(p, source, dest, bytes, false);
    }

    method SetDatagramAck(source: nat, dest: nat)
      requires Valid() && source < 0x1000 && dest < 0x1000
      modifies this, data
      ensures Valid() && Decode(Contents()) == Frame(DatagramOk(dest), source, false)
    {
      hide WithMti, InitialId, FrameKind, Decode;
      Init(source);
      id := WithMti(id, MTI_DATAGRAM_OK);
      MessageIdIs(source, MTI_DATAGRAM_OK);
      Reads(Header(1, 1, 1, MTI_DATAGRAM_OK, source));
      SetDestAlias(dest);
      RepliesDecode(source, dest, 0, false);
    }

    method SetDatagramNak(source: nat, dest: nat, reason: nat)
      requires Valid() && source < 0x1000 && dest < 0x1000 && reason < 0x1_0000
      modifies this, data
      ensures Valid() && Decode(Contents()) == Frame(DatagramRejected(dest, reason), source, false)
    {
      hide WithMti, InitialId, FrameKind, Decode, And, Shr;
      Init(source);
      id := WithMti(id, MTI_DATAGRAM_REJECTED);
      MessageIdIs(source, MTI_DATAGRAM_REJECTED);
      Reads(Header(1, 1, 1, MTI_DATAGRAM_REJECTED, source));
      SetDestAlias(dest);
      assert data[..2] == DestBytes(dest);
      length := 4;
      SplitReason(reason);
      data[2] := And(Shr(reason, 8), 0xFF);
      data[3] := And(reason, 0xFF);
      assert data[..4] == DestBytes(dest) + DestOfCode(reason);
      RepliesDecode(source, dest, reason, false);
    }
  }

  lemma {:induction false} ByteShift(a: nat)
    ensures Shr(a, 8) == a / 0x100
  {
    assert Pow2(8) == 0x100 by { Powers(); }
    ShrIs(a, 8);
  }

  lemma {:induction false} SplitAlias(a: nat)
    requires a < 0x1000
    ensures Shr(And(a, 0xFFF), 8) == a / 0x100 && And(a, 0xFF) == a % 0x100
  {
    hide And, Shr;
    Mask12(a);
    Mask8(a);
    ByteShift(a);
  }

  lemma {:induction false} SplitReason(r: nat)
    requires r < 0x1_0000
    ensures And(Shr(r, 8), 0xFF) == r / 0x100 && And(r, 0xFF) == r % 0x100
  {
    hide And, Shr;
    Mask8(r);
    ByteShift(r);
    Mask8(r / 0x100);
  }
}
