/**
 The 29-bit identifier of an OpenLCB CAN frame as five adjoining fields, and what the
 library's masks and shifts do to them.
 */
module FrameBits {
  import opened Bits

  /** h above n low bits l. */
  function Join(h: nat, n: nat, l: nat): nat {
    Shl(h, n) + l
  }

  lemma {:induction false} JoinHalves(h: nat, n: nat, l: nat)
    requires n > 0
    ensures Join(h, n, l) / 2 == Join(h, n - 1, l / 2) && Join(h, n, l) % 2 == l % 2
  {
  }

  /** Masking works on the upper and the lower part separately. */
  lemma {:induction false} AndJoin(h: nat, l: nat, mh: nat, ml: nat, n: nat)
    requires l < Pow2(n) && ml < Pow2(n)
    ensures And(Join(h, n, l), Join(mh, n, ml)) == Join(And(h, mh), n, And(l, ml))
  {
    if n > 0 {
      AndJoin(h, l / 2, mh, ml / 2, n - 1);
      JoinHalves(h, n, l);
      JoinHalves(mh, n, ml);
      AndUnfold(Join(h, n, l), Join(mh, n, ml));
      AndUnfold(l, ml);
    }
  }

  lemma {:induction false} OrUnfold(a: nat, b: nat)
    ensures Or(a, b) == 2 * Or(a / 2, b / 2) + (if a % 2 == 1 || b % 2 == 1 then 1 else 0)
  {
  }

  lemma {:induction false} OrJoin(h: nat, l: nat, mh: nat, ml: nat, n: nat)
    requires l < Pow2(n) && ml < Pow2(n)
    ensures Or(Join(h, n, l), Join(mh, n, ml)) == Join(Or(h, mh), n, Or(l, ml))
  {
    if n > 0 {
      OrJoin(h, l / 2, mh, ml / 2, n - 1);
      JoinHalves(h, n, l);
      JoinHalves(mh, n, ml);
      OrUnfold(Join(h, n, l), Join(mh, n, ml));
      OrUnfold(l, ml);
    }
  }

  lemma {:induction false} JoinIs(h: nat, n: nat, l: nat)
    ensures Join(h, n, l) == h * Pow2(n) + l
  {
    ShlIs(h, n);
  }

  /** Priority bits, frame type bit, CAN frame type, MTI or destination, source alias. */
  datatype Header = Header(top: nat, openLcb: nat, kind: nat, field: nat, source: nat) {
    predicate Valid() {
      top < 16 && openLcb < 2 && kind < 8 && field < 0x1000 && source < 0x1000
    }

    function Number(): nat {
      Join(Join(Join(Join(top, 1, openLcb), 3, kind), 12, field), 12, source)
    }
  }

  lemma {:induction false} NumberIs(x: Header)
    ensures x.Number() == x.top * 0x1000_0000 + x.openLcb * 0x800_0000 + x.kind * 0x100_0000 + x.field * 0x1000 + x.source
  {
    hide Join;
    assert Pow2(1) == 2 && Pow2(3) == 8 && Pow2(12) == 0x1000 by { Powers(); }
    JoinIs(x.top, 1, x.openLcb);
    JoinIs(Join(x.top, 1, x.openLcb), 3, x.kind);
    JoinIs(Join(Join(x.top, 1, x.openLcb), 3, x.kind), 12, x.field);
    JoinIs(Join(Join(Join(x.top, 1, x.openLcb), 3, x.kind), 12, x.field), 12, x.source);
  }

  lemma {:induction false} AndHeaders(x: Header, y: Header)
    requires x.Valid() && y.Valid()
    ensures And(x.Number(), y.Number())
         == Header(And(x.top, y.top), And(x.openLcb, y.openLcb), And(x.kind, y.kind), And(x.field, y.field), And(x.source, y.source)).Number()
  {
    hide Join, And;
    assert Pow2(1) == 2 && Pow2(3) == 8 && Pow2(12) == 0x1000 by { Powers(); }
    var a, b := Join(x.top, 1, x.openLcb), Join(y.top, 1, y.openLcb);
    var c, d := Join(a, 3, x.kind), Join(b, 3, y.kind);
    AndJoin(x.top, x.openLcb, y.top, y.openLcb, 1);
    AndJoin(a, x.kind, b, y.kind, 3);
    AndJoin(c, x.field, d, y.field, 12);
    AndJoin(Join(c, 12, x.field), x.source, Join(d, 12, y.field), y.source, 12);
  }

  lemma {:induction false} OrHeaders(x: Header, y: Header)
    requires x.Valid() && y.Valid()
    ensures Or(x.Number(), y.Number())
         == Header(Or(x.top, y.top), Or(x.openLcb, y.openLcb), Or(x.kind, y.kind), Or(x.field, y.field), Or(x.source, y.source)).Number()
  {
    hide Join, Or;
    assert Pow2(1) == 2 && Pow2(3) == 8 && Pow2(12) == 0x1000 by { Powers(); }
    var a, b := Join(x.top, 1, x.openLcb), Join(y.top, 1, y.openLcb);
    var c, d := Join(a, 3, x.kind), Join(b, 3, y.kind);
    OrJoin(x.top, x.openLcb, y.top, y.openLcb, 1);
    OrJoin(a, x.kind, b, y.kind, 3);
    OrJoin(c, x.field, d, y.field, 12);
    OrJoin(Join(c, 12, x.field), x.source, Join(d, 12, y.field), y.source, 12);
  }

  /** A mask that keeps whole fields: a field is kept where the flag is set. */
  function Mask(top: nat, openLcb: bool, kind: bool, field: bool, source: bool): Header {
    Header(top, if openLcb then 1 else 0, if kind then 7 else 0,
           if field then 0xFFF else 0, if source then 0xFFF else 0)
  }

  lemma {:induction false} Keep(x: Header, top: nat, openLcb: bool, kind: bool, field: bool, source: bool)
    requires x.Valid() && x.top < 2 && top in {0, 1, 15}
    ensures And(x.Number(), Mask(top, openLcb, kind, field, source).Number())
         == Header(if top > 0 then x.top else 0, if openLcb then x.openLcb else 0, if kind then x.kind else 0,
                   if field then x.field else 0, if source then x.source else 0).Number()
  {
    hide Join, And;
    AndHeaders(x, Mask(top, openLcb, kind, field, source));
    KeepField(x.top, top > 0, if top == 1 then 1 else 4, if top == 1 then 1 else 15);
    KeepField(x.openLcb, openLcb, 1, 1);
    KeepField(x.kind, kind, 3, 7);
    KeepField(x.field, field, 12, 0xFFF);
    KeepField(x.source, source, 12, 0xFFF);
  }

  /** All ones keep a field, zeroes clear it. */
  lemma {:induction false} KeepField(a: nat, on: bool, width: nat, ones: nat)
    requires width in {1, 3, 4, 12} && ones == (if width == 1 then 1 else if width == 3 then 7 else if width == 4 then 15 else 0xFFF)
    requires a <= ones
    ensures And(a, if on then ones else 0) == if on then a else 0
  {
    hide And, Pow2;
    Powers();
    AndZero(a);
    AndLow(a, width);
  }

  lemma {:induction false} AndZero(a: nat)
    ensures And(a, 0) == 0
  {
  }

  /** Or-ing fields into places that are zero. */
  lemma {:induction false} Fill(x: Header, y: Header)
    requires x.Valid() && y.Valid()
    requires x.top == 0 || y.top == 0
    requires x.openLcb == 0 || y.openLcb == 0
    requires x.kind == 0 || y.kind == 0
    requires x.field == 0 || y.field == 0
    requires x.source == 0 || y.source == 0
    ensures Or(x.Number(), y.Number())
         == Header(x.top + y.top, x.openLcb + y.openLcb, x.kind + y.kind, x.field + y.field, x.source + y.source).Number()
  {
    hide Join, Or;
    OrHeaders(x, y);
    OrWithZero(x.top, y.top);
    OrWithZero(x.openLcb, y.openLcb);
    OrWithZero(x.kind, y.kind);
    OrWithZero(x.field, y.field);
    OrWithZero(x.source, y.source);
  }

  lemma {:induction false} OrWithZero(a: nat, b: nat)
    requires a == 0 || b == 0
    ensures Or(a, b) == a + b
  {
  }
}
