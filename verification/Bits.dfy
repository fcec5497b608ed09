/**
 Machine words as natural numbers: powers of two and the bitwise operators of C,
 with the few laws the other modules need.
 */
module Bits {

  type Byte = b: nat | b < 256

  /** The library's min(). */
  function Min(a: nat, b: nat): nat {
    if a < b then a else b
  }

  function Pow2(n: nat): (p: nat)
    ensures p > 0
  {
    if n == 0 then 1 else 2 * Pow2(n - 1)
  }

  /** m << k, without a bound on the word. */
  function Shl(m: nat, k: nat): nat {
    if k == 0 then m else 2 * Shl(m, k - 1)
  }

  /** a >> k. */
  function Shr(a: nat, k: nat): nat {
    if k == 0 then a else Shr(a / 2, k - 1)
  }

  function And(a: nat, b: nat): nat {
    if a == 0 || b == 0 then 0 else 2 * And(a / 2, b / 2) + (if a % 2 == 1 && b % 2 == 1 then 1 else 0)
  }

  function Or(a: nat, b: nat): nat {
    if a == 0 then b else if b == 0 then a
    else 2 * Or(a / 2, b / 2) + (if a % 2 == 1 || b % 2 == 1 then 1 else 0)
  }

  function Xor(a: nat, b: nat): nat {
    if a == 0 && b == 0 then 0
    else 2 * Xor(a / 2, b / 2) + (if a % 2 == b % 2 then 0 else 1)
  }

  /** The powers the code's constants stand for. */
  lemma {:induction false} Powers()
    ensures Pow2(8) == 0x100 && Pow2(9) == 0x200 && Pow2(10) == 0x400 && Pow2(12) == 0x1000 && Pow2(13) == 0x2000
    ensures Pow2(15) == 0x8000 && Pow2(23) == 0x80_0000 && Pow2(24) == 0x100_0000
    ensures Pow2(1) == 2 && Pow2(3) == 8 && Pow2(4) == 0x10 && Pow2(6) == 0x40 && Pow2(5) == 0x20
  {
    assert Pow2(4) == 0x10;
    assert Pow2(8) == 0x100;
    assert Pow2(12) == 0x1000;
    assert Pow2(15) == 0x8000;
    assert Pow2(19) == 0x8_0000;
    assert Pow2(23) == 0x80_0000;
  }

  lemma {:induction false} Pow2Adds(m: nat, n: nat)
    ensures Pow2(m + n) == Pow2(m) * Pow2(n)
  {
    if n > 0 {
      Pow2Adds(m, n - 1);
    }
  }

  /** Sum of two words: what a bitwise or keeps plus the bits both have. */
  lemma {:induction false} OrPlusAnd(a: nat, b: nat)
    ensures Or(a, b) + And(a, b) == a + b
  {
    if a != 0 && b != 0 {
      OrPlusAnd(a / 2, b / 2);
    }
  }

  lemma {:induction false} AndIsSmall(a: nat, b: nat)
    ensures And(a, b) <= a && And(a, b) <= b
  {
    if a != 0 && b != 0 {
      AndIsSmall(a / 2, b / 2);
    }
  }

  lemma {:induction false} AndUnfold(a: nat, b: nat)
    ensures And(a, b) == 2 * And(a / 2, b / 2) + (if a % 2 == 1 && b % 2 == 1 then 1 else 0)
  {
  }

  /** Masking with k low ones is the remainder modulo 2^k. */
  lemma {:induction false} AndLow(a: nat, k: nat)
    ensures And(a, Pow2(k) - 1) == a % Pow2(k)
  {
    if k > 0 {
      var p := Pow2(k - 1);
      AndLow(a / 2, k - 1);
      AndUnfold(a, 2 * p - 1);
      HalvesMod(a, p);
    }
  }

  lemma {:induction false} AndDouble(a: nat, m: nat)
    ensures And(a, 2 * m) == 2 * And(a / 2, m)
  {
    var n := 2 * m;
    assert n / 2 == m && n % 2 == 0;
    AndUnfold(a, n);
  }

  lemma {:induction false} TimesDouble(m: nat, p: nat)
    ensures m * (2 * p) == 2 * (m * p)
  {
  }

  lemma {:induction false} DivTwice(a: nat, p: nat)
    requires p > 0
    ensures a / 2 / p == a / (2 * p)
  {
    var q, r := a / 2 / p, a / 2 % p;
    assert a == 2 * (q * p + r) + a % 2;
    assert a == q * (2 * p) + (2 * r + a % 2);
    DivisionUnique(a, 2 * p, q, 2 * r + a % 2);
  }

  lemma {:induction false} HalvesMod(a: nat, p: nat)
    requires p > 0
    ensures a % (2 * p) == 2 * (a / 2 % p) + a % 2
  {
    var q, r := a / 2 / p, a / 2 % p;
    assert a == 2 * (q * p + r) + a % 2;
    assert a == q * (2 * p) + (2 * r + a % 2);
    DivisionUnique(a, 2 * p, q, 2 * r + a % 2);
  }

  lemma {:induction false} DivisionUnique(a: nat, d: nat, q: nat, r: nat)
    requires d > 0 && a == q * d + r && r < d
    ensures a / d == q && a % d == r
  {
    var e := a / d - q;
    assert e * d == r - a % d by {
      assert a == (a / d) * d + a % d;
    }
    if e != 0 {
      ProductAtLeast(if e > 0 then e else -e, d);
    }
  }

  lemma {:induction false} ProductAtLeast(m: nat, d: nat)
    requires m >= 1
    ensures m * d >= d
  {
  }

  lemma {:induction false} Mask24(a: nat)
    ensures And(a, 0xFF_FFFF) == a % 0x100_0000
  {
    assert Pow2(24) == 0x100_0000 by { Powers(); }
    AndLow(a, 24);
  }

  lemma {:induction false} Mask12(a: nat)
    ensures And(a, 0xFFF) == a % 0x1000
  {
    assert Pow2(12) == 0x1000 by { Powers(); }
    AndLow(a, 12);
  }

  lemma {:induction false} Mask9(a: nat)
    ensures And(a, 0x1FF) == a % 0x200
  {
    assert Pow2(9) == 0x200 by { Powers(); }
    AndLow(a, 9);
  }

  lemma {:induction false} Mask8(a: nat)
    ensures And(a, 0xFF) == a % 0x100
  {
    assert Pow2(8) == 0x100 by { Powers(); }
    AndLow(a, 8);
  }

  lemma {:induction false} ShlIs(m: nat, k: nat)
    ensures Shl(m, k) == m * Pow2(k)
  {
    if k > 0 {
      ShlIs(m, k - 1);
      TimesDouble(m, Pow2(k - 1));
    }
  }

  lemma {:induction false} ShrIs(a: nat, k: nat)
    ensures Shr(a, k) == a / Pow2(k)
  {
    if k > 0 {
      ShrIs(a / 2, k - 1);
      DivTwice(a, Pow2(k - 1));
    }
  }

  /** A mask with k trailing zeros looks only at the word above bit k. */
  lemma {:induction false} AndShl(a: nat, m: nat, k: nat)
    ensures And(a, Shl(m, k)) == Shl(And(Shr(a, k), m), k)
  {
    if k > 0 {
      AndShl(a / 2, m, k - 1);
      AndDouble(a, Shl(m, k - 1));
    }
  }

  lemma {:induction false} DoubleAnd(m: nat, b: nat)
    ensures And(2 * m, b) == 2 * And(m, b / 2)
  {
    var n := 2 * m;
    assert n / 2 == m && n % 2 == 0;
    AndUnfold(n, b);
  }

  /** A word shifted up by k shares no bit with one below 2^k. */
  lemma {:induction false} AndDisjoint(m: nat, b: nat, k: nat)
    requires b < Pow2(k)
    ensures And(Shl(m, k), b) == 0
  {
    if k > 0 {
      AndDisjoint(m, b / 2, k - 1);
      DoubleAnd(Shl(m, k - 1), b);
    }
  }

  /** So or-ing the two is adding them. */
  lemma {:induction false} OrDisjoint(m: nat, b: nat, k: nat)
    requires b < Pow2(k)
    ensures Or(Shl(m, k), b) == Shl(m, k) + b
  {
    AndDisjoint(m, b, k);
    OrPlusAnd(Shl(m, k), b);
  }

  lemma {:induction false} OrBelow(a: nat, b: nat, k: nat)
    requires a < Pow2(k) && b < Pow2(k)
    ensures Or(a, b) < Pow2(k)
  {
    if a != 0 && b != 0 {
      OrBelow(a / 2, b / 2, k - 1);
    }
  }

  lemma {:induction false} XorUnfold(a: nat, b: nat)
    ensures Xor(a, b) / 2 == Xor(a / 2, b / 2)
    ensures Xor(a, b) % 2 == if a % 2 == b % 2 then 0 else 1
  {
  }

  lemma {:induction false} ModHalves(a: nat, p: nat)
    requires p > 0
    ensures a % (2 * p) / 2 == a / 2 % p
    ensures a % (2 * p) % 2 == a % 2
  {
    HalvesMod(a, p);
  }

  lemma {:induction false} SameHalves(a: nat, b: nat)
    requires a / 2 == b / 2 && a % 2 == b % 2
    ensures a == b
  {
  }

  lemma {:induction false} XorMod(a: nat, b: nat, k: nat)
    ensures Xor(a, b) % Pow2(k) == Xor(a % Pow2(k), b % Pow2(k))
  {
    if k > 0 {
      XorMod(a / 2, b / 2, k - 1);
      XorModStep(a, b, Pow2(k - 1));
    }
  }

  lemma {:induction false} XorModStep(a: nat, b: nat, p: nat)
    requires p > 0 && Xor(a / 2, b / 2) % p == Xor(a / 2 % p, b / 2 % p)
    ensures Xor(a, b) % (2 * p) == Xor(a % (2 * p), b % (2 * p))
  {
    var q := Xor(a, b);
    var x, y, z := a % (2 * p), b % (2 * p), q % (2 * p);
    ModHalves(a, p);
    ModHalves(b, p);
    ModHalves(q, p);
    XorUnfold(a, b);
    XorUnfold(x, y);
    SameHalves(Xor(x, y), z);
  }

  lemma {:induction false} XorCommutes(a: nat, b: nat)
    ensures Xor(a, b) == Xor(b, a)
  {
    if a != 0 || b != 0 {
      XorCommutes(a / 2, b / 2);
    }
  }

  lemma {:induction false} XorAssociates(a: nat, b: nat, c: nat)
    ensures Xor(Xor(a, b), c) == Xor(a, Xor(b, c))
    decreases a + b + c
  {
    if a != 0 || b != 0 || c != 0 {
      XorAssociates(a / 2, b / 2, c / 2);
      XorUnfold(a, b);
      XorUnfold(b, c);
      XorUnfold(Xor(a, b), c);
      XorUnfold(a, Xor(b, c));
      SameHalves(Xor(Xor(a, b), c), Xor(a, Xor(b, c)));
    }
  }
}
