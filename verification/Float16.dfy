/** Conversion between binary32 and binary16, on the bits as the library does it. */
module Float16 {
  import opened Bits

  // ---------------------------------------------------------------- what the bits mean (IEEE 754-2008, section 3.4)

  const INFINITY16 := 0x7C00
  const INFINITY32 := 0x7F80_0000
  /** The binary32 pattern of 2^16, one more than the largest binary16 rounds up to. */
  const TOO_LARGE := 0x4780_0000

  /** The magnitude of a binary32 pattern without its sign, in units of 2^-149. */
  function Value32(p: nat): nat {
    var e, m := p / 0x80_0000, p % 0x80_0000;
    if e == 0 then m else (0x80_0000 + m) * Pow2(e - 1)
  }

  /** The magnitude of a binary16 pattern without its sign, in units of 2^-24. */
  function Value16(n: nat): nat {
    var e, m := n / 0x400, n % 0x400;
    if e == 0 then m else (0x400 + m) * Pow2(e - 1)
  }

  /** 2^-24 in units of 2^-149. */
  function Unit16(): nat {
    Pow2(125)
  }

  // ---------------------------------------------------------------- narrowing

  /** float32_to_float16 for a pattern without sign that is not a NaN. */
  function Narrowed(p: nat): nat {
    var e, m := p / 0x80_0000, p % 0x80_0000;
    if e < 102 then 0
    else if e <= 112 then Shr(m + 0x80_0000, 126 - e)
    else if e > 142 then INFINITY16
    else (e - 112) * 0x400 + m / 0x2000
  }

  lemma {:induction false} Pow2Grows(a: nat, b: nat)
    requires a <= b
    ensures Pow2(a) <= Pow2(b)
    decreases b - a
  {
    if a < b {
      Pow2Grows(a, b - 1);
    }
  }

  lemma {:induction false} MulOrder(a: nat, b: nat, k: nat)
    requires a <= b
    ensures a * k <= b * k
  {
  }

  lemma {:induction false} MulStrict(a: nat, b: nat, k: nat)
    requires a < b && k > 0
    ensures a * k < b * k
  {
    MulOrder(a + 1, b, k);
  }

  lemma {:induction false} MulAssoc(a: nat, b: nat, c: nat)
    ensures a * b * c == a * (b * c)
  {
  }

  /** The next pattern is worth a unit in the last place more; past the largest it is worth 2^16. */
  lemma {:induction false} Value16Next(n: nat)
    ensures Value16(n + 1) == Value16(n) + if n < 0x400 then 1 else Pow2(n / 0x400 - 1)
  {
    var e, m := n / 0x400, n % 0x400;
    if m == 0x3FF {
      assert (n + 1) / 0x400 == e + 1 && (n + 1) % 0x400 == 0;
      if e > 0 {
        assert Pow2(e) == 2 * Pow2(e - 1);
      }
    } else {
      assert (n + 1) / 0x400 == e && (n + 1) % 0x400 == m + 1;
      if e > 0 {
        Distribute(0x400 + m, Pow2(e - 1));
      }
    }
  }

  lemma {:induction false} Distribute(a: nat, b: nat)
    ensures (a + 1) * b == a * b + b
  {
  }

  lemma {:induction false} Value16Increases(a: nat, b: nat)
    requires a < b
    ensures Value16(a) < Value16(b)
    decreases b - a
  {
    hide Value16;
    Value16Next(b - 1);
    if a < b - 1 {
      Value16Increases(a, b - 1);
    }
  }

  /** A normal result: the low 13 bits of the mantissa are dropped. */
  lemma {:induction false} NormalTruncates(e: nat, m: nat)
    requires 113 <= e <= 142 && m < 0x80_0000
    ensures var n := (e - 112) * 0x400 + m / 0x2000;
            && n < INFINITY16
            && Value16(n) * Unit16() <= (0x80_0000 + m) * Pow2(e - 1) < Value16(n + 1) * Unit16()
  {
    hide Pow2;
    var h := m / 0x2000;
    var n := (e - 112) * 0x400 + h;
    assert n / 0x400 == e - 112 && n % 0x400 == h;
    var k := Pow2(e - 113);
    Pow2Adds(e - 113, 125);
    Pow2Adds(13, e - 1);
    assert Pow2(13) == 0x2000 by { Powers(); }
    var q := Pow2(e - 1);
    assert k * Unit16() == 0x2000 * q;
    Value16Next(n);
    ScaledOnce(0x400 + h, k, Unit16(), q);
    ScaledOnce(0x400 + h + 1, k, Unit16(), q);
    Distribute(0x400 + h, k);
    MulOrder((0x400 + h) * 0x2000, 0x80_0000 + m, q);
    MulStrict(0x80_0000 + m, (0x400 + h + 1) * 0x2000, q);
  }

  lemma {:induction false} ScaledOnce(a: nat, k: nat, u: nat, q: nat)
    requires k * u == 0x2000 * q
    ensures a * k * u == a * 0x2000 * q
  {
    MulAssoc(a, k, u);
    MulAssoc(a, 0x2000, q);
  }

  /** A subnormal result: the mantissa with its leading one is shifted down. */
  lemma {:induction false} SubnormalTruncates(e: nat, m: nat)
    requires 102 <= e <= 112 && m < 0x80_0000
    ensures var n := Shr(m + 0x80_0000, 126 - e);
            && n < 0x400
            && Value16(n) * Unit16() <= (0x80_0000 + m) * Pow2(e - 1) < Value16(n + 1) * Unit16()
  {
    hide Shr, Value16, Pow2;
    var d, q, w := Pow2(126 - e), Pow2(e - 1), m + 0x80_0000;
    var n := Shr(w, 126 - e);
    ShrBounds(w, 126 - e);
    assert d * q == Unit16() by {
      Pow2Adds(126 - e, e - 1);
    }
    assert n < 0x400 by {
      assert Pow2(14) == 0x4000 by {
        Powers();
        Pow2Adds(1, 13);
      }
      Pow2Grows(14, 126 - e);
      if n >= 0x400 {
        MulOrder(0x400, n, d);
      }
    }
    SmallValues(n);
    MulAssoc(n, d, q);
    MulAssoc(n + 1, d, q);
    MulOrder(n * d, w, q);
    MulStrict(w, (n + 1) * d, q);
  }

  lemma {:induction false} SmallValues(n: nat)
    requires n < 0x400
    ensures Value16(n) == n && Value16(n + 1) == n + 1
  {
    Value16Next(n);
  }

  lemma {:induction false} ShrBounds(w: nat, k: nat)
    ensures Shr(w, k) * Pow2(k) <= w < (Shr(w, k) + 1) * Pow2(k)
  {
    ShrIs(w, k);
    QuotientBounds(w, Pow2(k));
  }

  lemma {:induction false} QuotientBounds(w: nat, d: nat)
    requires d > 0
    ensures w / d * d <= w < (w / d + 1) * d
  {
    Distribute(w / d, d);
  }

  /** Too small for the least subnormal. */
  lemma {:induction false} TinyTruncates(e: nat, m: nat)
    requires e < 102 && m < 0x80_0000
    ensures Value32(e * 0x80_0000 + m) < Unit16()
  {
    hide Pow2;
    var p := e * 0x80_0000 + m;
    assert p / 0x80_0000 == e && p % 0x80_0000 == m;
    Powers();
    if e > 0 {
      Pow2Adds(24, e - 1);
      Pow2Grows(23 + e, 125);
      MulStrict(0x80_0000 + m, 0x100_0000, Pow2(e - 1));
    } else {
      Pow2Grows(24, 125);
    }
  }

  lemma {:induction false} Value32Next(p: nat)
    ensures Value32(p) < Value32(p + 1)
  {
    var e, m := p / 0x80_0000, p % 0x80_0000;
    if m == 0x7F_FFFF {
      assert (p + 1) / 0x80_0000 == e + 1 && (p + 1) % 0x80_0000 == 0;
      if e > 0 {
        assert Pow2(e) == 2 * Pow2(e - 1);
      }
    } else {
      assert (p + 1) / 0x80_0000 == e && (p + 1) % 0x80_0000 == m + 1;
      if e > 0 {
        Distribute(0x80_0000 + m, Pow2(e - 1));
      }
    }
  }

  lemma {:induction false} Value32Increases(p: nat, q: nat)
    requires p < q
    ensures Value32(p) < Value32(q)
    decreases q - p
  {
    hide Value32;
    Value32Next(q - 1);
    if p < q - 1 {
      Value32Increases(p, q - 1);
    }
  }

  lemma {:induction false} FieldsOf(p: nat, e: nat, m: nat)
    requires m < 0x80_0000 && p == e * 0x80_0000 + m
    ensures p / 0x80_0000 == e && p % 0x80_0000 == m
  {
  }

  /**
   Truncation: below 2^16 the result is the greatest finite binary16 that does not exceed the
   operand, its value and the next one enclosing it; from 2^16 on the result is infinity.
   */
  lemma {:induction false} NarrowingTruncates(p: nat)
    requires p < INFINITY32
    ensures p < TOO_LARGE ==>
              && Narrowed(p) < INFINITY16
              && Value16(Narrowed(p)) * Unit16() <= Value32(p) < Value16(Narrowed(p) + 1) * Unit16()
    ensures p >= TOO_LARGE ==> Narrowed(p) == INFINITY16 && Value32(p) >= Value16(INFINITY16) * Unit16()
  {
    hide Value16, Pow2, Shr, Value32;
    var e, m := p / 0x80_0000, p % 0x80_0000;
    Value32Is(p);
    if e < 102 {
      TinyTruncates(e, m);
      FirstValues();
    } else if e <= 112 {
      SubnormalTruncates(e, m);
    } else if e <= 142 {
      NormalTruncates(e, m);
    } else {
      TwoTo16();
      if p > TOO_LARGE {
        Value32Increases(TOO_LARGE, p);
      }
    }
  }

  lemma {:induction false} Value32Is(p: nat)
    ensures p / 0x80_0000 > 0 ==> Value32(p) == (0x80_0000 + p % 0x80_0000) * Pow2(p / 0x80_0000 - 1)
    ensures p == p / 0x80_0000 * 0x80_0000 + p % 0x80_0000
  {
  }

  lemma {:induction false} FirstValues()
    ensures Value16(0) == 0 && Value16(1) == 1
  {
  }

  /** Both formats agree on 2^16. */
  lemma {:induction false} TwoTo16()
    ensures Value16(INFINITY16) * Unit16() == Value32(TOO_LARGE)
  {
    hide Pow2;
    assert TOO_LARGE / 0x80_0000 == 143 && TOO_LARGE % 0x80_0000 == 0;
    assert INFINITY16 / 0x400 == 31 && INFINITY16 % 0x400 == 0;
    Pow2Adds(30, 125);
    Pow2Adds(13, 142);
    assert Pow2(13) == 0x2000 by { Powers(); }
    MulAssoc(0x400, Pow2(30), Pow2(125));
    MulAssoc(0x400, 0x2000, Pow2(142));
  }

  /** A larger pattern never narrows to a smaller one. */
  lemma {:induction false} NarrowingKeepsOrder(p: nat, q: nat)
    requires p <= q < INFINITY32
    ensures Narrowed(p) <= Narrowed(q)
  {
    hide Value16, Value32, Narrowed, Pow2;
    NarrowingTruncates(p);
    NarrowingTruncates(q);
    var a, b := Narrowed(p), Narrowed(q);
    if q < TOO_LARGE && a > b {
      if p < q {
        Value32Increases(p, q);
      }
      if b + 1 < a {
        Value16Increases(b + 1, a);
      }
      MulOrder(Value16(b + 1), Value16(a), Unit16());
    }
  }

  // ---------------------------------------------------------------- with the sign

  function Magnitude32(i: nat): nat {
    i % 0x8000_0000
  }

  function Signed32(i: nat): int {
    var v: int := Value32(Magnitude32(i));
    if i < 0x8000_0000 then v else -v
  }

  /** Infinity counts as 2^16 here, more than any finite binary16. */
  function Signed16(r: nat): int {
    var v: int := Value16(r % 0x8000);
    if r < 0x8000 then v else -v
  }

  /** The bits of the result for a pattern that is not a NaN. */
  function Narrow(i: nat): nat {
    (if i < 0x8000_0000 then 0 else 0x8000) + Narrowed(Magnitude32(i))
  }

  lemma {:induction false} NarrowedIsSmall(p: nat)
    requires p < INFINITY32
    ensures Narrowed(p) <= INFINITY16
  {
    hide Value16, Value32, Narrowed, Pow2;
    NarrowingTruncates(p);
  }

  lemma {:induction false} ZeroIsZero(p: nat)
    ensures Value32(p) >= 0 && (Value32(p) == 0 <==> p == 0)
    ensures Narrowed(0) == 0 && Value16(0) == 0
  {
    if p > 0 {
      Value32Increases(0, p);
    }
  }

  lemma {:induction false} SignedNarrow(i: nat)
    requires i < 0x1_0000_0000 && Magnitude32(i) < INFINITY32
    ensures Narrow(i) < 0x1_0000
    ensures var v: int := Value16(Narrowed(Magnitude32(i)));
            Signed16(Narrow(i)) == if i < 0x8000_0000 then v else -v
  {
    hide Value16, Value32, Narrowed;
    NarrowedIsSmall(Magnitude32(i));
  }

  /** Order is kept for any two finite numbers of either sign. */
  lemma {:induction false} NarrowingIsMonotone(i: nat, j: nat)
    requires i < 0x1_0000_0000 && Magnitude32(i) < INFINITY32
    requires j < 0x1_0000_0000 && Magnitude32(j) < INFINITY32
    requires Signed32(i) <= Signed32(j)
    ensures Signed16(Narrow(i)) <= Signed16(Narrow(j))
  {
    hide Value16, Value32, Narrowed, Signed16, Narrow, Magnitude32;
    SignedNarrow(i);
    SignedNarrow(j);
    var p, q := Magnitude32(i), Magnitude32(j);
    ZeroIsZero(p);
    ZeroIsZero(q);
    if i < 0x8000_0000 && j < 0x8000_0000 {
      SmallerNarrows(p, q);
    } else if i >= 0x8000_0000 && j >= 0x8000_0000 {
      SmallerNarrows(q, p);
    }
  }

  lemma {:induction false} SmallerNarrows(p: nat, q: nat)
    requires p < INFINITY32 && q < INFINITY32 && Value32(p) <= Value32(q)
    ensures Value16(Narrowed(p)) <= Value16(Narrowed(q))
  {
    hide Value16, Value32, Narrowed;
    if q < p {
      Value32Increases(q, p);
    }
    NarrowingKeepsOrder(p, q);
    if Narrowed(p) < Narrowed(q) {
      Value16Increases(Narrowed(p), Narrowed(q));
    }
  }

  // ---------------------------------------------------------------- the library's bit operations

  lemma {:induction false} ShiftIs(a: nat, k: nat, p: nat)
    requires p == Pow2(k)
    ensures Shl(a, k) == a * p && Shr(a, k) == a / p
  {
    ShlIs(a, k);
    ShrIs(a, k);
  }

  lemma {:induction false} MaskIs(a: nat, k: nat, p: nat)
    requires p == Pow2(k)
    ensures And(a, p - 1) == a % p
  {
    AndLow(a, k);
  }

  lemma {:induction false} JoinBits(m: nat, b: nat, k: nat, p: nat)
    requires p == Pow2(k) && b < p
    ensures Or(m * p, b) == m * p + b
  {
    OrDisjoint(m, b, k);
    ShlIs(m, k);
  }

  lemma {:induction false} SmallPowers()
    ensures Pow2(10) == 0x400 && Pow2(13) == 0x2000 && Pow2(15) == 0x8000 && Pow2(16) == 0x1_0000
    ensures Pow2(23) == 0x80_0000 && Pow2(8) == 0x100 && Pow2(31) == 0x8000_0000 && Pow2(5) == 0x20 && Pow2(1) == 2
  {
    Powers();
    Pow2Adds(15, 1);
    Pow2Adds(16, 15);
  }

  /** Sign bit and magnitude of a binary32 pattern, as the code extracts them. */
  lemma {:induction false} Extract32(i: nat)
    requires i < 0x1_0000_0000
    ensures And(Shr(i, 16), 0x8000) == if i < 0x8000_0000 then 0 else 0x8000
    ensures And(Shr(i, 23), 0xFF) == Magnitude32(i) / 0x80_0000
    ensures And(i, 0x7F_FFFF) == Magnitude32(i) % 0x80_0000
  {
    hide And, Shl, Shr, Pow2;
    SmallPowers();
    ShiftIs(i, 16, 0x1_0000);
    ShiftIs(i, 23, 0x80_0000);
    MaskIs(i / 0x80_0000, 8, 0x100);
    MaskIs(i, 23, 0x80_0000);
    SignBit(i / 0x1_0000);
  }

  lemma {:induction false} SignBit(h: nat)
    requires h < 0x1_0000
    ensures And(h, 0x8000) == if h < 0x8000 then 0 else 0x8000
  {
    hide And, Shl, Shr, Pow2;
    SmallPowers();
    ShiftIs(1, 15, 0x8000);
    ShiftIs(h, 15, 0x8000);
    MaskedSign(h, Shl(1, 15));
  }

  lemma {:induction false} MaskedSign(h: nat, m: nat)
    requires h < 0x1_0000 && m == Shl(1, 15)
    ensures And(h, m) == if h < 0x8000 then 0 else 0x8000
  {
    hide And, Shl, Shr, Pow2;
    SmallPowers();
    AndShl(h, 1, 15);
    ShiftIs(h, 15, 0x8000);
    ShiftIs(0, 15, 0x8000);
    ShiftIs(1, 15, 0x8000);
    MaskIs(h / 0x8000, 1, 2);
  }

  /** float32_to_float16, operation by operation. */
  method Float32ToFloat16(i: nat) returns (bits: nat)
    requires i < 0x1_0000_0000
    ensures Magnitude32(i) <= INFINITY32 ==> bits == Narrow(i)
    ensures Magnitude32(i) > INFINITY32 ==>
              var m := Magnitude32(i) % 0x80_0000 / 0x2000;
              bits == (if i < 0x8000_0000 then 0 else 0x8000) + INFINITY16 + if m == 0 then 1 else m
  {
    hide And, Or, Shl, Shr, Pow2;
    Extract32(i);
    var sign := And(Shr(i, 16), 0x8000);
    var exponent: int := And(Shr(i, 23), 0xFF) - (127 - 15);
    var mantissa := And(i, 0x7F_FFFF);
    if exponent <= 0 {
      if exponent < -10 {
        return sign;
      }
      SubnormalBits(sign / 0x8000, mantissa, exponent);
      mantissa := Shr(Or(mantissa, 0x80_0000), 1 - exponent);
      bits := Or(sign, Shr(mantissa, 13));
    } else if exponent == 0xFF - (127 - 15) {
      if mantissa == 0 {
        WithSign(sign / 0x8000, 0x7C00);
        bits := Or(sign, 0x7C00);
      } else {
        NanBits(sign / 0x8000, mantissa);
        mantissa := Shr(mantissa, 13);
        bits := Or(Or(Or(sign, 0x7C00), mantissa), if mantissa == 0 then 1 else 0);
      }
    } else {
      if exponent > 30 {
        WithSign(sign / 0x8000, 0x7C00);
        bits := Or(sign, 0x7C00);
      } else {
        NormalBits(sign / 0x8000, mantissa, exponent);
        bits := Or(Or(sign, Shl(exponent, 10)), Shr(mantissa, 13));
      }
    }
  }

  lemma {:induction false} WithSign(s: nat, m: nat)
    requires s <= 1 && m < 0x8000
    ensures Or(s * 0x8000, m) == s * 0x8000 + m
  {
    hide Or, Pow2;
    SmallPowers();
    JoinBits(s, m, 15, 0x8000);
  }

  lemma {:induction false} OrCommutes(a: nat, b: nat)
    ensures Or(a, b) == Or(b, a)
  {
    OrPlusAnd(a, b);
    OrPlusAnd(b, a);
    AndCommutes(a, b);
  }

  lemma {:induction false} AndCommutes(a: nat, b: nat)
    ensures And(a, b) == And(b, a)
  {
    if a != 0 && b != 0 {
      AndCommutes(a / 2, b / 2);
    }
  }

  lemma {:induction false} SubnormalBits(s: nat, m: nat, exponent: int)
    requires s <= 1 && m < 0x80_0000 && -10 <= exponent <= 0
    ensures var low := Shr(Shr(Or(m, 0x80_0000), 1 - exponent), 13);
            low == Shr(m + 0x80_0000, 14 - exponent) && Or(s * 0x8000, low) == s * 0x8000 + low
  {
    hide And, Or, Shl, Shr, Pow2;
    SmallPowers();
    OrCommutes(m, 0x80_0000);
    JoinBits(1, m, 23, 0x80_0000);
    ShrTwice(m + 0x80_0000, 1 - exponent, 13);
    ShrAtMost(m + 0x80_0000, 13, 1 - exponent);
    ShiftIs(m + 0x80_0000, 13, 0x2000);
    WithSign(s, Shr(m + 0x80_0000, 14 - exponent));
  }

  lemma {:induction false} ShrTwice(a: nat, j: nat, k: nat)
    ensures Shr(Shr(a, j), k) == Shr(a, j + k)
  {
    if j > 0 {
      ShrTwice(a / 2, j - 1, k);
    }
  }

  lemma {:induction false} ShrAtMost(a: nat, j: nat, k: nat)
    ensures Shr(a, j + k) <= Shr(a, j)
  {
    if j > 0 {
      ShrAtMost(a / 2, j - 1, k);
    } else if k > 0 {
      ShrAtMost(a / 2, 0, k - 1);
    }
  }

  lemma {:induction false} NormalBits(s: nat, m: nat, exponent: nat)
    requires s <= 1 && m < 0x80_0000 && exponent <= 30
    ensures Or(Or(s * 0x8000, Shl(exponent, 10)), Shr(m, 13)) == s * 0x8000 + exponent * 0x400 + m / 0x2000
  {
    hide And, Or, Shl, Shr, Pow2;
    SmallPowers();
    ShiftIs(exponent, 10, 0x400);
    ShiftIs(m, 13, 0x2000);
    WithSign(s, exponent * 0x400);
    JoinBits(s * 0x20 + exponent, m / 0x2000, 10, 0x400);
  }

  lemma {:induction false} NanBits(s: nat, m: nat)
    requires s <= 1 && m < 0x80_0000
    ensures var h := Shr(m, 13);
            h == m / 0x2000 &&
            Or(Or(Or(s * 0x8000, 0x7C00), h), if h == 0 then 1 else 0) == s * 0x8000 + 0x7C00 + if h == 0 then 1 else h
  {
    hide And, Or, Shl, Shr, Pow2;
    SmallPowers();
    ShiftIs(m, 13, 0x2000);
    var h := m / 0x2000;
    WithSign(s, 0x7C00);
    JoinBits(s * 0x20 + 31, h, 10, 0x400);
    JoinBits(s * 0x20 + 31, 1, 10, 0x400);
    OrNothing(s * 0x8000 + 0x7C00 + h);
  }

  lemma {:induction false} OrNothing(a: nat)
    ensures Or(a, 0) == a
  {
  }

  // ---------------------------------------------------------------- widening

  /** The bits stand for exactly the same number. */
  predicate SameNumber(r: nat, i: nat) {
    && (r < 0x8000 <==> i < 0x8000_0000) && i < 0x1_0000_0000
    && Magnitude32(i) < INFINITY32
    && Value32(Magnitude32(i)) == Value16(r % 0x8000) * Unit16()
  }

  lemma {:induction false} Extract16(r: nat)
    requires r < 0x1_0000
    ensures And(Shr(r, 15), 1) == r / 0x8000 && And(Shr(r, 10), 0x1F) == r % 0x8000 / 0x400
    ensures And(r, 0x3FF) == r % 0x400
  {
    hide And, Shl, Shr, Pow2;
    SmallPowers();
    ShiftIs(r, 15, 0x8000);
    ShiftIs(r, 10, 0x400);
    MaskIs(r / 0x8000, 1, 2);
    MaskIs(r / 0x400, 5, 0x20);
    MaskIs(r, 10, 0x400);
  }

  /** Testing and clearing the bit that becomes the hidden one. */
  lemma {:induction false} HiddenBit(m: nat)
    requires m < 0x800
    ensures And(m, 0x400) == 0 <==> m < 0x400
    ensures m >= 0x400 ==> And(m, 0xFFFF_FBFF) == m - 0x400
  {
    hide And, Shl, Shr, Pow2;
    SmallPowers();
    ShiftIs(1, 10, 0x400);
    ShiftIs(m, 10, 0x400);
    MaskedHidden(m, Shl(1, 10));
    if m >= 0x400 {
      ClearHidden(m);
    }
  }

  lemma {:induction false} MaskedHidden(m: nat, b: nat)
    requires m < 0x800 && b == Shl(1, 10)
    ensures And(m, b) == m / 0x400 * 0x400
  {
    hide And, Shl, Shr, Pow2;
    SmallPowers();
    AndShl(m, 1, 10);
    ShiftIs(m, 10, 0x400);
    MaskIs(m / 0x400, 1, 2);
    ShiftIs(m / 0x400, 10, 0x400);
  }

  /** A mask and its complement share out the bits of a word between them. */
  lemma {:induction false} AndSplits(a: nat, x: nat, y: nat)
    requires And(x, y) == 0
    ensures And(a, x + y) == And(a, x) + And(a, y)
    decreases a
  {
    if a > 0 {
      AndUnfold(x, y);
      AndUnfold(a, x);
      AndUnfold(a, y);
      AndUnfold(a, x + y);
      AndSplits(a / 2, x / 2, y / 2);
      HalfOfSum(x, y);
    }
  }

  lemma {:induction false} HalfOfSum(x: nat, y: nat)
    requires !(x % 2 == 1 && y % 2 == 1)
    ensures (x + y) / 2 == x / 2 + y / 2 && (x + y) % 2 == x % 2 + y % 2
  {
  }

  lemma {:induction false} ClearHidden(m: nat)
    requires 0x400 <= m < 0x800
    ensures And(m, 0xFFFF_FBFF) == m - 0x400
  {
    hide And, Shl, Shr, Pow2;
    SmallPowers();
    Pow2Adds(16, 16);
    ShiftIs(1, 10, 0x400);
    MaskIs(m, 32, 0x1_0000_0000);
    MaskedHidden(m, Shl(1, 10));
    DisjointMasks();
    AndSplits(m, 0x400, 0xFFFF_FBFF);
  }

  lemma {:induction false} DisjointMasks()
    ensures And(0x400, 0xFFFF_FBFF) == 0
  {
    hide And, Shl, Shr, Pow2;
    SmallPowers();
    var y := 0xFFFF_FBFF;
    ShiftIs(y, 10, 0x400);
    ShiftIs(1, 10, 0x400);
    ShiftIs(0, 10, 0x400);
    AndShl(y, 1, 10);
    MaskIs(0x3F_FFFE, 1, 2);
    AndCommutes(0x400, y);
  }

  lemma {:induction false} AssembleBits(s: nat, e: nat, m: nat)
    requires s <= 1 && e < 0x100 && m < 0x80_0000
    ensures Or(Or(Shl(s, 31), Shl(e, 23)), m) == s * 0x8000_0000 + e * 0x80_0000 + m
  {
    hide And, Or, Shl, Shr, Pow2;
    SmallPowers();
    ShiftIs(s, 31, 0x8000_0000);
    ShiftIs(e, 23, 0x80_0000);
    JoinBits(s, e * 0x80_0000, 31, 0x8000_0000);
    JoinBits(s * 0x100 + e, m, 23, 0x80_0000);
  }

  /** A normal binary16 keeps its mantissa and has its exponent rebased. */
  lemma {:induction false} NormalWidens(e: nat, m: nat)
    requires 1 <= e <= 30 && m < 0x400
    ensures Value32((e + 112) * 0x80_0000 + m * 0x2000) == Value16(e * 0x400 + m) * Unit16()
  {
    hide Pow2;
    SmallPowers();
    var n, p := e * 0x400 + m, (e + 112) * 0x80_0000 + m * 0x2000;
    assert n / 0x400 == e && n % 0x400 == m;
    FieldsOf(p, e + 112, m * 0x2000);
    Pow2Adds(e - 1, 125);
    Pow2Adds(13, e + 111);
    ScaledOnce(0x400 + m, Pow2(e - 1), Unit16(), Pow2(e + 111));
  }

  /** A subnormal one, shifted k places until its leading one is the hidden bit. */
  lemma {:induction false} SubnormalWidens(m: nat, k: nat, top: nat)
    requires 0 < m < 0x400 && k <= 10 && top == m * Pow2(k) && 0x400 <= top < 0x800
    ensures Value32((113 - k) * 0x80_0000 + (top - 0x400) * 0x2000) == Value16(m) * Unit16()
  {
    hide Pow2;
    SmallPowers();
    var p := (113 - k) * 0x80_0000 + (top - 0x400) * 0x2000;
    FieldsOf(p, 113 - k, (top - 0x400) * 0x2000);
    assert Value32(p) == top * 0x2000 * Pow2(112 - k);
    Pow2Adds(k, 125 - k);
    Pow2Adds(13, 112 - k);
    MulAssoc(m, Pow2(k), Pow2(125 - k));
    MulAssoc(top, 0x2000, Pow2(112 - k));
    assert Value16(m) == m;
  }

  /** The loop that shifts a subnormal's leading one up, counting the exponent down below zero and around. */
  method Renormalize(m: nat) returns (mantissa: nat, exponent: nat, ghost k: nat)
    requires 0 < m < 0x400
    ensures k <= 10 && mantissa == m * Pow2(k) && 0x400 <= mantissa < 0x800
    ensures exponent == (0x1_0000_0000 - k) % 0x1_0000_0000
  {
    hide And, Or, Shl, Shr, Pow2;
    mantissa, exponent, k := m, 0, 0;
    PowerZero();
    HiddenBit(mantissa);
    while And(mantissa, 0x400) == 0
      invariant 0 < mantissa < 0x800 && mantissa == m * Pow2(k) && k <= 10 && Pow2(k) <= mantissa
      invariant exponent == (0x1_0000_0000 - k) % 0x1_0000_0000
      invariant And(mantissa, 0x400) == 0 <==> mantissa < 0x400
      decreases 0x800 - mantissa
    {
      Doubled(m, k, mantissa);
      mantissa := Shl(mantissa, 1);
      exponent := (exponent + 0xFFFF_FFFF) % 0x1_0000_0000;
      k := k + 1;
      HiddenBit(mantissa);
    }
  }

  /** float16_to_float32, operation by operation, once the fields are taken apart. */
  method Widen(sign: nat, exponent16: nat, mantissa16: nat) returns (bits: nat)
    requires sign <= 1 && exponent16 < 32 && mantissa16 < 0x400
    ensures exponent16 < 31 ==>
              && sign * 0x8000_0000 <= bits < sign * 0x8000_0000 + INFINITY32
              && Value32(bits - sign * 0x8000_0000) == Value16(exponent16 * 0x400 + mantissa16) * Unit16()
    ensures exponent16 == 31 ==> bits == sign * 0x8000_0000 + INFINITY32 + mantissa16 * 0x2000
  {
    hide And, Or, Shl, Shr, Pow2, Value16, Value32, Unit16;
    var exponent, mantissa := exponent16, mantissa16;
    if exponent == 0 {
      if mantissa == 0 {
        ZeroWidens(sign);
        bits := Shl(sign, 31);
        return;
      } else {
        ghost var k;
        mantissa, exponent, k := Renormalize(mantissa);
        HiddenBit(mantissa);
        SubnormalWidens(mantissa16, k, mantissa);
        Rebased(exponent, k);
        exponent := (exponent + 1) % 0x1_0000_0000;
        mantissa := And(mantissa, 0xFFFF_FBFF);
      }
    } else if exponent == 0x1F {
      InfiniteBits(sign, mantissa);
      if mantissa == 0 {
        bits := Or(Shl(sign, 31), 0x7F80_0000);
        return;
      } else {
        bits := Or(Or(Shl(sign, 31), 0x7F80_0000), Shl(mantissa, 13));
        return;
      }
    } else {
      NormalWidens(exponent, mantissa);
    }
    exponent := (exponent + (127 - 15)) % 0x1_0000_0000;
    Shl13(mantissa);
    mantissa := Shl(mantissa, 13);
    AssembleBits(sign, exponent, mantissa);
    bits := Or(Or(Shl(sign, 31), Shl(exponent, 23)), mantissa);
  }

  /** float16_to_float32. */
  method Float16ToFloat32(r: nat) returns (bits: nat)
    requires r < 0x1_0000
    ensures r % 0x8000 < INFINITY16 ==> SameNumber(r, bits)
    ensures r % 0x8000 >= INFINITY16 ==>
              bits == (if r < 0x8000 then 0 else 0x8000_0000) + INFINITY32 + (r % 0x8000 - INFINITY16) * 0x2000
  {
    hide And, Shr, Value16, Value32, Unit16, SameNumber;
    Extract16(r);
    var sign := And(Shr(r, 15), 1);
    var exponent := And(Shr(r, 10), 0x1F);
    var mantissa := And(r, 0x3FF);
    Rejoined16(r);
    bits := Widen(sign, exponent, mantissa);
    if exponent < 31 {
      SameSign(r, sign, bits);
    }
  }

  lemma {:induction false} Rejoined16(r: nat)
    requires r < 0x1_0000
    ensures var s, e, m := r / 0x8000, r % 0x8000 / 0x400, r % 0x400;
            && s == (if r < 0x8000 then 0 else 1) && e < 32 && r % 0x8000 == e * 0x400 + m
            && (e == 31 <==> r % 0x8000 >= INFINITY16)
  {
  }

  lemma {:induction false} Rebased(exponent: nat, k: nat)
    requires k <= 10 && exponent == (0x1_0000_0000 - k) % 0x1_0000_0000
    ensures ((exponent + 1) % 0x1_0000_0000 + (127 - 15)) % 0x1_0000_0000 == 113 - k
  {
  }

  lemma {:induction false} PowerZero()
    ensures Pow2(0) == 1
  {
  }

  lemma {:induction false} Shl13(m: nat)
    ensures Shl(m, 13) == m * 0x2000
  {
    hide Shl, Shr, Pow2;
    SmallPowers();
    ShiftIs(m, 13, 0x2000);
  }

  /** One turn of the renormalizing loop. */
  lemma {:induction false} Doubled(m: nat, k: nat, now: nat)
    requires 0 < m && now == m * Pow2(k) && now < 0x400 && Pow2(k) <= now && k <= 10
    ensures Shl(now, 1) == 2 * now == m * Pow2(k + 1) && Pow2(k + 1) <= 2 * now && k < 10
  {
    assert Pow2(k + 1) == 2 * Pow2(k);
    TimesDouble(m, Pow2(k));
    SmallPowers();
    assert Shl(now, 1) == 2 * Shl(now, 0);
  }

  lemma {:induction false} ZeroWidens(s: nat)
    requires s <= 1
    ensures Shl(s, 31) == s * 0x8000_0000
    ensures Value32(0) == 0 == Value16(0) * Unit16()
  {
    hide Shl, Shr, Pow2;
    SmallPowers();
    ShiftIs(s, 31, 0x8000_0000);
  }

  lemma {:induction false} InfiniteBits(s: nat, m: nat)
    requires s <= 1 && m < 0x400
    ensures Or(Shl(s, 31), 0x7F80_0000) == s * 0x8000_0000 + INFINITY32
    ensures Or(Or(Shl(s, 31), 0x7F80_0000), Shl(m, 13)) == s * 0x8000_0000 + INFINITY32 + m * 0x2000
  {
    hide And, Or, Shl, Shr, Pow2;
    SmallPowers();
    ShiftIs(s, 31, 0x8000_0000);
    JoinBits(s, 0x7F80_0000, 31, 0x8000_0000);
    Shl13(m);
    JoinBits(s * 0x100 + 255, m * 0x2000, 23, 0x80_0000);
  }

  lemma {:induction false} SameSign(r: nat, s: nat, bits: nat)
    requires r < 0x1_0000 && s == (if r < 0x8000 then 0 else 1)
    requires s * 0x8000_0000 <= bits < s * 0x8000_0000 + INFINITY32
    requires Value32(bits - s * 0x8000_0000) == Value16(r % 0x8000) * Unit16()
    ensures SameNumber(r, bits)
  {
    hide Value16, Value32, Unit16;
    assert Magnitude32(bits) == bits - s * 0x8000_0000;
  }

  // ---------------------------------------------------------------- there and back

  /** A binary32 that is exactly a binary16 narrows to it. */
  lemma {:induction false} ExactNarrows(p: nat, n: nat)
    requires p < INFINITY32 && n < INFINITY16 && Value32(p) == Value16(n) * Unit16()
    ensures Narrowed(p) == n
  {
    hide Value16, Value32, Narrowed, Pow2, Unit16;
    NarrowingTruncates(p);
    UnitIsPositive();
    Value16Increases(n, INFINITY16);
    MulStrict(Value16(n), Value16(INFINITY16), Unit16());
    var b := Narrowed(p);
    if b < n {
      if b + 1 < n {
        Value16Increases(b + 1, n);
      }
      MulOrder(Value16(b + 1), Value16(n), Unit16());
    } else if n < b {
      Value16Increases(n, b);
      MulStrict(Value16(n), Value16(b), Unit16());
    }
  }

  /** Widening then narrowing is the identity on the finite numbers of either sign. */
  lemma {:induction false} WidenedNarrowsBack(r: nat, i: nat)
    requires r < 0x1_0000 && r % 0x8000 < INFINITY16 && SameNumber(r, i)
    ensures Narrow(i) == r
  {
    hide Value16, Value32, Narrowed, Unit16;
    ExactNarrows(Magnitude32(i), r % 0x8000);
  }

  lemma {:induction false} UnitIsPositive()
    ensures Unit16() > 0
  {
  }

  /** Widening then narrowing gives back every binary16, the infinities and all NaNs included. */
  method RoundTrip(r: nat) returns (r': nat)
    requires r < 0x1_0000
    ensures r' == r
  {
    hide Value16, Value32, Narrowed, Unit16;
    var i := Float16ToFloat32(r);
    if r % 0x8000 < INFINITY16 {
      WidenedNarrowsBack(r, i);
    } else if r % 0x8000 == INFINITY16 {
      InfinityNarrows();
    }
    r' := Float32ToFloat16(i);
  }

  lemma {:induction false} InfinityNarrows()
    ensures Narrowed(INFINITY32) == INFINITY16
  {
  }
}
