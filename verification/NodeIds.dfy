/** Node identifiers as the library passes them around, and optional values. */
module NodeIds {
  import opened Bits

  datatype Option<+T> = None | Some(value: T)

  /** The six bytes that name a node for life; val[0] is v0. */
  datatype Nid = Nid(v0: Byte, v1: Byte, v2: Byte, v3: Byte, v4: Byte, v5: Byte)

  function NidBytes(n: Nid): seq<Byte> {
    [n.v0, n.v1, n.v2, n.v3, n.v4, n.v5]
  }

  const ZERO_NID := Nid(0, 0, 0, 0, 0, 0)

  /** A node identifier with the alias that stands for it on the bus; 0 means no alias. */
  datatype NodeId = NodeId(nid: Nid, alias: nat) {
    /** The library's ==: two non-zero aliases decide alone, otherwise the bytes do. */
    predicate Matches(other: NodeId) {
      if alias != 0 && other.alias != 0 then alias == other.alias else nid == other.nid
    }

    predicate Blank() {
      alias == 0 && nid == ZERO_NID
    }
  }
}
