/**
 The pseudo-random alias generator of the alias helper: 48 bits kept in two words
 of 24 bits each, advanced with 32-bit unsigned arithmetic.
 */
module AliasGenerator {
  import opened Bits
  import opened NodeIds

  datatype Words = Words(hi: nat, lo: nat) {
    predicate Valid() {
      hi < 0x100_0000 && lo < 0x100_0000
    }

    /** The 48-bit number the two words stand for. */
    function Combined(): nat {
      hi * 0x100_0000 + lo
    }
  }

  function Add32(a: nat, b: nat, c: nat): nat {
    (a + b + c) % 0x1_0000_0000
  }

  function HighTemp(w: Words): nat {
    And(Or(Shl(w.hi, 9) % 0x1_0000_0000, And(Shr(w.lo, 15), 0x1FF)), 0xFF_FFFF)
  }

  function LowTemp(w: Words): nat {
    And(Shl(w.lo, 9) % 0x1_0000_0000, 0xFF_FFFF)
  }

  function LowSum(w: Words): nat {
    Add32(w.lo, LowTemp(w), 0x7A4BA9)
  }

  function HighSum(w: Words): nat {
    Add32(w.hi, HighTemp(w), 0x1B0CA3)
  }

  /** What the low word's sum carries out of its 24 bits. */
  function Carry(w: Words): nat {
    Shr(And(LowSum(w), 0xFF00_0000), 24)
  }

  /** One turn of the generator: note that the carry is or-ed in, not added. */
  function Next(w: Words): Words {
    Words(Or(And(HighSum(w), 0xFF_FFFF), Carry(w)), And(LowSum(w), 0xFF_FFFF))
  }

  /** The bits the high word's sum shares with the carry; a true addition would carry them on. */
  function Overlap(w: Words): nat {
    And(And(HighSum(w), 0xFF_FFFF), Carry(w))
  }

  function AliasOf(w: Words): nat {
    And(Xor(Xor(Xor(w.hi, w.lo), Shr(w.hi, 12)), Shr(w.lo, 12)), 0xFFF)
  }

  /** The two words a NodeID is packed into for its first alias. */
  function SeedWords(n: Nid): Words {
    Words(Or(Or(Shl(n.v0, 16), Shl(n.v1, 8)), n.v2), Or(Or(Shl(n.v3, 16), Shl(n.v4, 8)), n.v5))
  }

  /** The first alias tried for a NodeID; 1 stands in for 0. */
  function SeedAlias(n: Nid): nat {
    var a := AliasOf(SeedWords(n));
    if a == 0 then 1 else a
  }

  /** The linear congruential generator of S-9.7.2.1 that the code sets out to be. */
  function Congruential(x: nat): nat {
    (513 * x + 0x1B0C_A37A_4BA9) % 0x1_0000_0000_0000
  }

  lemma {:induction false} Shifts(a: nat)
    ensures Shl(a, 9) == a * 512 && Shr(a, 15) == a / 0x8000
    ensures Shr(a, 24) == a / 0x100_0000 && Shl(a, 24) == a * 0x100_0000
  {
    Powers();
    ShlIs(a, 9);
    ShrIs(a, 15);
    ShlIs(a, 24);
    ShrIs(a, 24);
  }

  lemma {:induction false} HighTempIs(w: Words)
    requires w.Valid()
    ensures HighTemp(w) == (w.hi * 512 + w.lo / 0x8000) % 0x100_0000
  {
    var h, t := w.hi * 512 % 0x1_0000_0000, w.lo / 0x8000;
    assert Shl(w.hi, 9) == w.hi * 512 && Shr(w.lo, 15) == t by {
      Shifts(w.hi);
      Shifts(w.lo);
    }
    var y := w.hi % 0x80_0000;
    assert h == 512 * y;
    NineLowBits(y, t);
    Mask24(h + t);
    ModOfMod(w.hi * 512, t);
  }

  lemma {:induction false} NineLowBits(y: nat, t: nat)
    requires t < 512
    ensures And(t, 0x1FF) == t && Or(512 * y, t) == 512 * y + t
  {
    hide And, Or, Shl, Shr;
    Mask9(t);
    assert t < Pow2(9) by { Powers(); }
    OrDisjoint(y, t, 9);
    Shifts(y);
  }

  lemma {:induction false} ModOfMod(a: nat, t: nat)
    ensures (a % 0x1_0000_0000 + t) % 0x100_0000 == (a + t) % 0x100_0000
  {
    var q := a / 0x1_0000_0000;
    assert a + t == a % 0x1_0000_0000 + t + q * 256 * 0x100_0000;
  }

  lemma {:induction false} LowParts(w: Words)
    requires w.Valid()
    ensures LowSum(w) == w.lo + w.lo * 512 % 0x100_0000 + 0x7A4BA9
    ensures Carry(w) == LowSum(w) / 0x100_0000 <= 2
    ensures Next(w).lo == LowSum(w) % 0x100_0000
  {
    hide And, Or, Xor, Shl, Shr;
    Shifts(w.lo);
    Mask24(w.lo * 512 % 0x1_0000_0000);
    ModOfMod(w.lo * 512, 0);
    Mask24(LowSum(w));
    TopByte(LowSum(w));
  }

  lemma {:induction false} TopByte(l: nat)
    requires l < 0x1_0000_0000
    ensures Shr(And(l, 0xFF00_0000), 24) == l / 0x100_0000
  {
    Shifts(0xFF);
    MaskTop(l, Shl(0xFF, 24));
    Shifts(l / 0x100_0000 * 0x100_0000);
  }

  lemma {:induction false} MaskTop(l: nat, m: nat)
    requires l < 0x1_0000_0000 && m == Shl(0xFF, 24)
    ensures And(l, m) == l / 0x100_0000 * 0x100_0000
  {
    hide And, Shl, Shr;
    var t := l / 0x100_0000;
    Shifts(l);
    AndShl(l, 0xFF, 24);
    Mask8(t);
    Shifts(t);
  }

  lemma {:induction false} HighParts(w: Words)
    requires w.Valid()
    ensures Next(w).hi + Overlap(w) == HighSum(w) % 0x100_0000 + Carry(w)
    ensures HighSum(w) == w.hi + (w.hi * 512 + w.lo / 0x8000) % 0x100_0000 + 0x1B0CA3
    ensures Next(w).hi < 0x100_0000 && Overlap(w) <= Carry(w)
  {
    hide And, Or, Xor, Shl, Shr;
    LowParts(w);
    HighTempIs(w);
    Mask24(HighSum(w));
    OrCarry(HighSum(w) % 0x100_0000, Carry(w));
  }

  lemma {:induction false} OrCarry(h: nat, c: nat)
    requires h < 0x100_0000 && c <= 2
    ensures Or(h, c) + And(h, c) == h + c
    ensures Or(h, c) < 0x100_0000 && And(h, c) <= c
  {
    OrPlusAnd(h, c);
    AndIsSmall(h, c);
    assert Pow2(24) == 0x100_0000 by { Powers(); }
    OrBelow(h, c, 24);
  }

  /**
   One step is the congruential step short of the overlap in the high word, so it is
   exactly the congruential step if and only if carry and high sum share no bit.
   */
  lemma {:induction false} StepArithmetic(w: Words)
    requires w.Valid()
    ensures Next(w).Valid() && Carry(w) <= 2
    ensures (Next(w).Combined() + Overlap(w) * 0x100_0000) % 0x1_0000_0000_0000 == Congruential(w.Combined())
    ensures Next(w).Combined() == Congruential(w.Combined()) <==> Overlap(w) == 0
  {
    hide Next, Overlap, Carry, LowSum, HighSum, Congruential;
    LowParts(w);
    HighParts(w);
    PlainStep(w.hi, w.lo, Next(w).hi, Next(w).lo, Overlap(w), LowSum(w), HighSum(w));
  }

  /** The or-ed carry does lose bits: here the low word carries 2 into a high sum of 0x1B0EA2, which has that bit. */
  lemma {:induction false} CarryIsLost()
    ensures var w := Words(0, 0xFF_FFFF);
            && w.Valid() && HighSum(w) == 0x1B_0EA2 && Carry(w) == 2 && Overlap(w) == 2
            && Next(w).Combined() != Congruential(w.Combined())
  {
    hide And, Or, Shl, Shr, Next, Carry, LowSum, HighSum, Congruential;
    var w := Words(0, 0xFF_FFFF);
    LowParts(w);
    HighParts(w);
    Mask24(0x1B_0EA2);
    BitOneShared();
    StepArithmetic(w);
  }

  lemma {:induction false} BitOneShared()
    ensures And(0x1B_0EA2, 2) == 2
  {
    AndUnfold(0x1B_0EA2, 2);
    AndUnfold(0xD_8751, 1);
  }

  /** The arithmetic of the step on plain numbers. */
  lemma {:induction false} PlainStep(hi: nat, lo: nat, nhi: nat, nlo: nat, v: nat, l: nat, h: nat)
    requires hi < 0x100_0000 && lo < 0x100_0000 && nhi < 0x100_0000 && v <= 2
    requires l == lo + lo * 512 % 0x100_0000 + 0x7A4BA9
    requires h == hi + (hi * 512 + lo / 0x8000) % 0x100_0000 + 0x1B0CA3
    requires nlo == l % 0x100_0000 && nhi + v == h % 0x100_0000 + l / 0x100_0000
    ensures (nhi * 0x100_0000 + nlo + v * 0x100_0000) % 0x1_0000_0000_0000 == Congruential(hi * 0x100_0000 + lo)
    ensures nhi * 0x100_0000 + nlo == Congruential(hi * 0x100_0000 + lo) <==> v == 0
  {
    var k := WordsAdd(hi, lo, l, h);
    var c := nhi * 0x100_0000 + nlo;
    var whole := 513 * (hi * 0x100_0000 + lo) + 0x1B0C_A37A_4BA9;
    assert whole == c + v * 0x100_0000 + k * 0x1_0000_0000_0000;
    WrapsAway(c + v * 0x100_0000, k);
    ShortBy(c, v);
  }

  /** The wide product and sum, word by word, up to k whole turns of the 48-bit counter. */
  lemma {:induction false} WordsAdd(hi: nat, lo: nat, l: nat, h: nat) returns (k: nat)
    requires hi < 0x100_0000 && lo < 0x100_0000
    requires l == lo + lo * 512 % 0x100_0000 + 0x7A4BA9
    requires h == hi + (hi * 512 + lo / 0x8000) % 0x100_0000 + 0x1B0CA3
    ensures 513 * (hi * 0x100_0000 + lo) + 0x1B0C_A37A_4BA9
         == (h % 0x100_0000 + l / 0x100_0000) * 0x100_0000 + l % 0x100_0000 + k * 0x1_0000_0000_0000
  {
    var b := lo * 512 % 0x100_0000;
    assert lo * 512 == lo / 0x8000 * 0x100_0000 + b;
    var up := hi * 512 + lo / 0x8000;
    k := up / 0x100_0000 + h / 0x100_0000;
  }

  lemma {:induction false} WrapsAway(a: nat, k: nat)
    ensures (a + k * 0x1_0000_0000_0000) % 0x1_0000_0000_0000 == a % 0x1_0000_0000_0000
  {
  }

  lemma {:induction false} ShortBy(c: nat, v: nat)
    requires c < 0x1_0000_0000_0000 && v <= 2
    ensures (c + v * 0x100_0000) % 0x1_0000_0000_0000 == c <==> v == 0
  {
    var d := c + v * 0x100_0000;
    if d >= 0x1_0000_0000_0000 {
      assert d % 0x1_0000_0000_0000 == d - 0x1_0000_0000_0000;
    }
  }

  // ---------------------------------------------------------------- the retry loop

  function Iterate(w: Words, n: nat): Words {
    if n == 0 then w else Next(Iterate(w, n - 1))
  }

  predicate Acceptable(w: Words, previous: nat) {
    AliasOf(w) != 0 && AliasOf(w) != previous
  }

  /** The loop that looks for a new alias comes to an end. */
  ghost predicate RetryEnds(w: Words, previous: nat) {
    exists n: nat :: n > 0 && Acceptable(Iterate(w, n), previous)
  }

  /** w' is the first acceptable pair of words after w. */
  ghost predicate Regenerates(w: Words, previous: nat, w': Words) {
    exists n: nat :: FirstAcceptable(w, previous, n) && w' == Iterate(w, n)
  }

  ghost predicate FirstAcceptable(w: Words, previous: nat, n: nat) {
    n > 0 && Acceptable(Iterate(w, n), previous) && forall m | 0 < m < n :: !Acceptable(Iterate(w, m), previous)
  }

  /** The loop takes the very next words if their alias will do, and else looks on from there. */
  lemma {:induction false} RetryUnfolds(w: Words, previous: nat, w': Words)
    ensures Acceptable(Next(w), previous) ==> (Regenerates(w, previous, w') <==> w' == Next(w))
    ensures !Acceptable(Next(w), previous) ==> (Regenerates(w, previous, w') <==> Regenerates(Next(w), previous, w'))
  {
    hide Next, Acceptable;
    assert Iterate(w, 1) == Next(Iterate(w, 0));
    if Acceptable(Next(w), previous) {
      assert FirstAcceptable(w, previous, 1);
      forall n: nat | FirstAcceptable(w, previous, n)
        ensures n == 1
      {
      }
    } else {
      forall n: nat
        ensures FirstAcceptable(w, previous, n + 1) <==> FirstAcceptable(Next(w), previous, n)
        ensures Iterate(w, n + 1) == Iterate(Next(w), n)
      {
        ShiftedSearch(w, previous, n);
      }
      if Regenerates(w, previous, w') {
        var n: nat :| FirstAcceptable(w, previous, n) && w' == Iterate(w, n);
        assert n > 0 && n - 1 + 1 == n;
        assert FirstAcceptable(w, previous, (n - 1) + 1);
        assert FirstAcceptable(Next(w), previous, n - 1) && w' == Iterate(Next(w), n - 1);
      }
      if Regenerates(Next(w), previous, w') {
        var n: nat :| FirstAcceptable(Next(w), previous, n) && w' == Iterate(Next(w), n);
        assert FirstAcceptable(w, previous, n + 1) && w' == Iterate(w, n + 1);
      }
    }
  }

  lemma {:induction false} IterateShifts(w: Words, n: nat)
    ensures Iterate(w, n + 1) == Iterate(Next(w), n)
  {
    hide Next;
    if n > 0 {
      IterateShifts(w, n - 1);
    } else {
      assert Iterate(w, 1) == Next(Iterate(w, 0));
    }
  }

  lemma {:induction false} ShiftedSearch(w: Words, previous: nat, n: nat)
    requires !Acceptable(Next(w), previous)
    ensures FirstAcceptable(w, previous, n + 1) <==> FirstAcceptable(Next(w), previous, n)
    ensures Iterate(w, n + 1) == Iterate(Next(w), n)
  {
    hide Next, Acceptable, Iterate;
    IterateShifts(w, 0);
    IterateShifts(w, n);
    IterateStarts(w);
    IterateStarts(Next(w));
    forall m: nat | 0 < m < n
      ensures Iterate(w, m + 1) == Iterate(Next(w), m)
    {
      IterateShifts(w, m);
    }
    if FirstAcceptable(w, previous, n + 1) {
      assert n > 0;
    }
    if FirstAcceptable(Next(w), previous, n) {
      forall m: nat | 0 < m < n + 1
        ensures !Acceptable(Iterate(w, m), previous)
      {
        IterateShifts(w, m - 1);
      }
    }
  }

  lemma {:induction false} IterateStarts(w: Words)
    ensures Iterate(w, 0) == w
  {
  }

  /** The loop of reAllocateAlias, run on the two words it rewrites. */
  method Regenerate(w: Words, previous: nat) returns (w': Words, alias: nat)
    requires RetryEnds(w, previous)
    ensures Regenerates(w, previous, w') && alias == AliasOf(w')
    ensures 0 < alias < 0x1000 && alias != previous
  {
    hide Next, AliasOf;
    ghost var last: nat :| last > 0 && Acceptable(Iterate(w, last), previous);
    w' := Next(w);
    alias := AliasOf(w');
    ghost var n: nat := 1;
    assert w' == Next(Iterate(w, 0));
    while alias == 0 || alias == previous
      invariant 0 < n <= last && w' == Iterate(w, n) && alias == AliasOf(w')
      invariant forall m | 0 < m < n :: !Acceptable(Iterate(w, m), previous)
      decreases last - n
    {
      w' := Next(w');
      alias := AliasOf(w');
      n := n + 1;
    }
    assert FirstAcceptable(w, previous, n);
    AliasBelow(w');
  }

  lemma {:induction false} AliasBelow(w: Words)
    ensures AliasOf(w) < 0x1000
  {
    Mask12(Xor(Xor(Xor(w.hi, w.lo), Shr(w.hi, 12)), Shr(w.lo, 12)));
  }

  /** A new alias is never 0, never the old one, and fits twelve bits; it is also determined. */
  lemma {:induction false} NewAlias(w: Words, previous: nat, w': Words, w'': Words)
    requires Regenerates(w, previous, w') && Regenerates(w, previous, w'')
    ensures 0 < AliasOf(w') < 0x1000 && AliasOf(w') != previous
    ensures w' == w''
  {
    AliasBelow(w');
    var n: nat :| FirstAcceptable(w, previous, n) && w' == Iterate(w, n);
    var m: nat :| FirstAcceptable(w, previous, m) && w'' == Iterate(w, m);
    assert n <= m && m <= n;
  }

  lemma {:induction false} SmallAliases()
    ensures AliasOf(Words(0, 1)) == 1 && AliasOf(Words(1, 0)) == 1
  {
    assert Xor(0, 1) == 1 && Xor(1, 0) == 1 && Shr(1, 12) == 0 && Shr(0, 12) == 0;
    assert Xor(1, 0) == 1 && And(1, 0xFFF) == 1;
  }

  lemma {:induction false} SmallWords()
    ensures SeedWords(Nid(0, 0, 0, 0, 0, 1)) == Words(0, 1) && SeedWords(Nid(0, 0, 1, 0, 0, 0)) == Words(1, 0)
  {
    assert Shl(0, 16) == 0 && Shl(0, 8) == 0;
  }

  /** Different NodeIDs can start with the same alias. */
  lemma {:induction false} SeedsCoincide()
    ensures SeedAlias(Nid(0, 0, 0, 0, 0, 1)) == SeedAlias(Nid(0, 0, 1, 0, 0, 0)) == 1
  {
    hide AliasOf, SeedWords;
    SmallAliases();
    SmallWords();
  }
}
