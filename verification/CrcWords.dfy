/** Arithmetic with polynomials modulo the generator, for computing large powers of x. Here a polynomial
    over GF(2) of degree below 32 is a machine word, bit i the coefficient of x^i; Register ties it to
    the checksum register, in which one shift is one multiplication by x. */
module CrcWords {
  import opened CIntegers
  import opened XorLaws
  import opened Crc
  import opened CrcTheorems

  /** The register standing for the polynomial 1: one shift is one multiplication by x. */
  const ONE: u32 := 0x8000_0000

  /** x^32 modulo the generator. */
  const TAPS: bv32 := 0x1edc_6f41

  predicate Low(w: bv32) { w & 1 != 0 }
  predicate High(w: bv32) { w & 0x8000_0000 != 0 }
  function Half(w: bv32): bv32 { w >> 1 }
  function Drop4(w: bv32): bv32 { w >> 4 }
  function Sum(w: bv32, v: bv32): bv32 { w ^ v }

  /** Multiplication by x modulo the generator. */
  function TimesX(w: bv32): bv32 {
    Sum(w << 1, if High(w) then TAPS else 0)
  }

  // ----- a polynomial in the shift acting on a register -----

  function Act(w: bv32, c: u32, n: nat): u32
    decreases n, c
  {
    if n == 0 then 0 else Plus(if Low(w) then c else 0, Act(Half(w), Shift(c), n - 1))
  }

  lemma {:induction false} ActXor(w: bv32, v: bv32, c: u32, n: nat)
    ensures Act(Sum(w, v), c, n) == Plus(Act(w, c, n), Act(v, c, n))
    decreases n
  {
    hide Plus, Shift, Low, Half, Sum;
    if n > 0 {
      ActXor(Half(w), Half(v), Shift(c), n - 1);
      XorBits(w, v);
      var a, b := if Low(w) then c else 0, if Low(v) then c else 0;
      PlusLaws(a, Act(Half(w), Shift(c), n - 1), b, Act(Half(v), Shift(c), n - 1));
      PlusLaws(c, c, 0, 0);
      PlusLaws(0, c, 0, 0);
    } else {
      PlusLaws(0, 0, 0, 0);
    }
  }

  lemma XorBits(w: bv32, v: bv32)
    ensures Half(Sum(w, v)) == Sum(Half(w), Half(v))
    ensures Low(Sum(w, v)) <==> Low(w) != Low(v)
  {}

  lemma {:induction false} ActPlus(w: bv32, c: u32, d: u32, n: nat)
    ensures Act(w, Plus(c, d), n) == Plus(Act(w, c, n), Act(w, d, n))
    decreases n
  {
    hide Plus, Shift, Low, Half, Sum;
    if n > 0 {
      ActPlus(Half(w), Shift(c), Shift(d), n - 1);
      ShiftLinear(c, d);
      var a, b := if Low(w) then c else 0, if Low(w) then d else 0;
      PlusLaws(a, Act(Half(w), Shift(c), n - 1), b, Act(Half(w), Shift(d), n - 1));
    }
    PlusLaws(0, 0, 0, 0);
  }

  lemma {:induction false} ActShift(w: bv32, c: u32, n: nat)
    ensures Act(w, Shift(c), n) == Shift(Act(w, c, n))
    decreases n
  {
    ShiftNZero(1);
    hide Plus, Shift, Low, Half, Sum;
    if n > 0 {
      ActShift(Half(w), Shift(c), n - 1);
      ShiftLinear(if Low(w) then c else 0, Act(Half(w), Shift(c), n - 1));
    }
  }

  lemma {:induction false} ActShiftN(w: bv32, c: u32, m: nat, n: nat)
    ensures Act(w, ShiftN(c, m), n) == ShiftN(Act(w, c, n), m)
    decreases m
  {
    hide Shift, Act;
    if m > 0 {
      ActShift(w, c, n);
      ActShiftN(w, Shift(c), m - 1, n);
    }
  }

  lemma {:induction false} ActZero(c: u32, n: nat)
    ensures Act(0, c, n) == 0
    decreases n
  {
    UnitWord();
    hide Plus, Shift, Low, Half, Sum;
    if n > 0 {
      PlusLaws(0, 0, 0, 0);
      ActZero(Shift(c), n - 1);
    }
  }

  // ----- words with few bits -----

  /** w has no bit from n on. */
  predicate Fits(w: bv32, n: nat)
    decreases n
  {
    if n == 0 then w == 0 else Fits(Half(w), n - 1)
  }

  lemma {:induction false} ActWider(w: bv32, c: u32, n: nat)
    requires Fits(w, n)
    ensures Act(w, c, n + 1) == Act(w, c, n)
    decreases n
  {
    hide Plus, Shift, Low, Half, Sum;
    if n > 0 {
      ActWider(Half(w), Shift(c), n - 1);
    } else {
      ActZero(c, 1);
    }
  }

  lemma FitsFour(w: bv32, n: nat)
    requires Fits(Drop4(w), n)
    ensures Fits(w, n + 4)
  {
    Drop4Is(w);
    hide Half, Drop4;
    assert Fits(Half(Half(Half(w))), n + 1);
    assert Fits(Half(Half(w)), n + 2);
    assert Fits(Half(w), n + 3);
  }

  lemma Drop4Is(w: bv32)
    ensures Half(Half(Half(Half(w)))) == Drop4(w)
  {}

  lemma Drop28(w: bv32)
    ensures Drop4(Drop4(Drop4(Drop4(Drop4(Drop4(Drop4(w))))))) == w >> 28
  {}

  lemma TopNibble(w: bv32)
    requires !High(w)
    ensures Half(Half(Half(w >> 28))) == 0
  {}

  lemma FitsThree(w: bv32)
    requires Half(Half(Half(w))) == 0
    ensures Fits(w, 3)
  {
    hide Half;
    assert Fits(Half(Half(Half(w))), 0);
    assert Fits(Half(Half(w)), 1);
    assert Fits(Half(w), 2);
  }

  lemma FitsBelowTop(w: bv32)
    requires !High(w)
    ensures Fits(w, 31)
  {
    Drop28(w);
    TopNibble(w);
    hide Fits, Drop4, Half;
    var a := Drop4(w);
    var b := Drop4(a);
    var c := Drop4(b);
    var d := Drop4(c);
    var e := Drop4(d);
    var f := Drop4(e);
    FitsThree(Drop4(f));
    FitsFour(f, 3);
    FitsFour(e, 7);
    FitsFour(d, 11);
    FitsFour(c, 15);
    FitsFour(b, 19);
    FitsFour(a, 23);
    FitsFour(w, 27);
  }

  /** w is the single bit n. */
  predicate Only(w: bv32, n: nat)
    decreases n
  {
    if n == 0 then w == 1 else !Low(w) && Only(Half(w), n - 1)
  }

  lemma UnitWord()
    ensures Low(1) && Half(1) == 0 && !Low(0) && Half(0) == 0
  {}

  lemma {:induction false} ActOnly(w: bv32, c: u32, n: nat, m: nat)
    requires Only(w, n) && n < m
    ensures Act(w, c, m) == ShiftN(c, n)
    decreases n
  {
    hide Plus, Shift, Low, Half, Sum;
    if n == 0 {
      UnitWord();
      ActZero(Shift(c), m - 1);
      PlusLaws(c, 0, 0, 0);
    } else {
      ActOnly(Half(w), Shift(c), n - 1, m - 1);
      PlusLaws(0, ShiftN(Shift(c), n - 1), 0, 0);
      PlusLaws(ShiftN(Shift(c), n - 1), 0, 0, 0);
    }
  }

  /** The number whose binary digit n - 1 - i is bit i of w. */
  function Reversed(w: bv32, n: nat): (r: nat)
    ensures r < Pow2(n)
    decreases n
  {
    if n == 0 then 0 else (if Low(w) then Pow2(n - 1) else 0) + Reversed(Half(w), n - 1)
  }

  lemma AddAbove(k: nat, r: nat)
    requires r < Pow2(k)
    ensures Xor(Pow2(k), r) == Pow2(k) + r
  {
    hide Xor, Pow2;
    XorBlocks(1, 0, 0, r, k);
    XorZero(1);
    XorZero(r);
  }

  lemma Pow2Word(k: nat)
    requires k < 32
    ensures Pow2(k) <= 0x8000_0000
  {
    Pow2Grows(k, 31);
    Pow2Words();
    hide Pow2;
  }

  lemma ShiftPower(k: nat)
    requires k < 31
    ensures Pow2(k + 1) < TWO32 && Shift(Pow2(k + 1)) == Pow2(k)
  {
    Pow2Word(k + 1);
    assert Pow2(k + 1) == 2 * Pow2(k);
    hide Pow2;
    ShiftIs(2 * Pow2(k));
  }

  /** A register holding the highest of n digits spreads the bits of w below it. */
  lemma {:induction false} ActReverses(w: bv32, c: u32, n: nat)
    requires 0 < n <= 32 && c == Pow2(n - 1)
    ensures Act(w, c, n) == Reversed(w, n)
    decreases n
  {
    var r := Act(Half(w), Shift(c), n - 1);
    if n > 1 {
      ShiftPower(n - 2);
      ActReverses(Half(w), Shift(c), n - 1);
    } else {
      assert Pow2(0) == 1;
    }
    assert r == Reversed(Half(w), n - 1);
    AddAbove(n - 1, r);
    hide Shift, Xor, Low, Half, Pow2;
    PlusLaws(r, 0, 0, 0);
  }

  /** The four lowest bits in reverse. */
  function Mirror(w: bv32): nat {
    (if Low(w) then 8 else 0) + (if Low(w >> 1) then 4 else 0) + (if Low(w >> 2) then 2 else 0)
    + if Low(w >> 3) then 1 else 0
  }

  lemma ReverseOne(w: bv32, n: nat, p: nat, r: nat)
    requires Pow2(n) == p && Reversed(Half(w), n) == r
    ensures Pow2(n + 1) == 2 * p && Reversed(w, n + 1) == (if Low(w) then p else 0) + r
  {
    hide Low, Half;
  }

  lemma MirrorTimes(w: bv32, p: nat)
    ensures Mirror(w) * p == (if Low(w) then 8 * p else 0) + (if Low(w >> 1) then 4 * p else 0)
      + (if Low(w >> 2) then 2 * p else 0) + if Low(w >> 3) then p else 0
  {
    hide Low;
    var b, c, d := if Low(w) then 8 else 0, if Low(w >> 1) then 4 else 0, if Low(w >> 2) then 2 else 0;
    assert (b + c + d) * p == b * p + c * p + d * p;
  }

  lemma ReverseFour(w: bv32, n: nat, p: nat, r: nat)
    requires Pow2(n) == p && Reversed(Drop4(w), n) == r
    ensures Pow2(n + 4) == 16 * p && Reversed(w, n + 4) == Mirror(w) * p + r
  {
    Drop4Is(w);
    HalvesAre(w);
    MirrorTimes(w, p);
    hide Half, Low, Drop4, Mirror, Reversed, Pow2;
    var a, b, c := Half(w), Half(Half(w)), Half(Half(Half(w)));
    ReverseOne(c, n, p, r);
    ReverseOne(b, n + 1, 2 * p, Reversed(c, n + 1));
    ReverseOne(a, n + 2, 4 * p, Reversed(b, n + 2));
    ReverseOne(w, n + 3, 8 * p, Reversed(a, n + 3));
  }

  lemma HalvesAre(w: bv32)
    ensures Half(w) == w >> 1 && Half(Half(w)) == w >> 2 && Half(Half(Half(w))) == w >> 3
  {}

  lemma TapsReversed()
    ensures Reversed(TAPS, 32) == POLY
  {
    assert Pow2(0) == 1 && Reversed(0, 0) == 0;
    hide Reversed, Pow2;
    ReverseFour(0x1, 0, 0x1, 0x0);
    ReverseFour(0x1e, 4, 0x10, 0x8);
    ReverseFour(0x1ed, 8, 0x100, 0x78);
    ReverseFour(0x1edc, 12, 0x1000, 0xb78);
    ReverseFour(0x1edc6, 16, 0x10000, 0x3b78);
    ReverseFour(0x1edc6f, 20, 0x100000, 0x63b78);
    ReverseFour(0x1edc6f4, 24, 0x1000000, 0xf63b78);
    ReverseFour(0x1edc6f41, 28, 0x10000000, 0x2f63b78);
  }

  lemma TapsAct()
    ensures Act(TAPS, ONE, 32) == POLY
  {
    Pow2Words();
    hide Act, Reversed, Pow2;
    TapsReversed();
    ActReverses(TAPS, ONE, 32);
  }

  const TOP: bv32 := 0x8000_0000

  lemma OnlyFour(w: bv32, n: nat)
    requires Only(Drop4(w), n) && w & 15 == 0
    ensures Only(w, n + 4)
  {
    Drop4Is(w);
    LowFour(w);
    hide Half, Low, Drop4;
    assert Only(Half(Half(Half(w))), n + 1);
    assert Only(Half(Half(w)), n + 2);
    assert Only(Half(w), n + 3);
  }

  lemma LowFour(w: bv32)
    requires w & 15 == 0
    ensures !Low(w) && !Low(Half(w)) && !Low(Half(Half(w))) && !Low(Half(Half(Half(w))))
  {}

  lemma TopOnly()
    ensures Only(TOP, 31)
  {
    assert Only(0x8, 3) by { assert Only(1, 0) && Only(2, 1) && Only(4, 2); }
    hide Only;
    OnlyFour(0x80, 3);
    OnlyFour(0x800, 7);
    OnlyFour(0x8000, 11);
    OnlyFour(0x8_0000, 15);
    OnlyFour(0x80_0000, 19);
    OnlyFour(0x800_0000, 23);
    OnlyFour(0x8000_0000, 27);
  }

  lemma {:induction false} PowerDown(k: nat)
    requires k < 32
    ensures Pow2(k) < TWO32 && ShiftN(Pow2(k), k) == 1
    decreases k
  {
    Pow2Word(k);
    if k > 0 {
      ShiftPower(k - 1);
      PowerDown(k - 1);
    }
  }

  lemma {:induction false} ShiftNAdd(c: u32, m: nat, n: nat)
    ensures ShiftN(c, m + n) == ShiftN(ShiftN(c, m), n)
    decreases m
  {
    hide Shift;
    if m > 0 {
      ShiftNAdd(Shift(c), m - 1, n);
    }
  }

  lemma OneDown()
    ensures ShiftN(ONE, 31) == 1
  {
    Pow2Words();
    hide Pow2, ShiftN;
    PowerDown(31);
  }

  /** The shift of the register 1, which stands for x^31, brings in the generator. */
  lemma ShiftOne()
    ensures Shift(1) == POLY
  {
    ShiftIs(1);
    hide Shift, Plus;
    PlusLaws(POLY, 0, 0, 0);
  }

  lemma TopAct()
    ensures Act(TOP, Shift(ONE), 32) == POLY
  {
    hide Act, Shift, Only;
    TopOnly();
    ActOnly(TOP, Shift(ONE), 31, 32);
    OneDown();
    ShiftOne();
    ShiftNAdd(ONE, 31, 1);
    ShiftNAdd(ONE, 1, 31);
    assert forall c: u32 :: ShiftN(c, 1) == Shift(c) by {
      forall c: u32 ensures ShiftN(c, 1) == Shift(c) { assert ShiftN(Shift(c), 0) == Shift(c); }
    }
  }

  // ----- multiplication by x is the shift -----

  /** The register standing for w. */
  function Register(w: bv32): u32 {
    Act(w, ONE, 32)
  }

  lemma Doubled(v: bv32)
    ensures !Low(v << 1) && Half(v << 1) == v & 0x7fff_ffff
  {}

  lemma WithoutTop(w: bv32)
    ensures var v := w & 0x7fff_ffff; !High(v) && v << 1 == w << 1 && w == if High(w) then Sum(v, TOP) else v
  {}

  /** Below the top bit, moving up one place is shifting the register. */
  lemma ActDouble(w: bv32)
    ensures Register(w << 1) == Act(w & 0x7fff_ffff, Shift(ONE), 32)
  {
    var v := w & 0x7fff_ffff;
    WithoutTop(w);
    Doubled(w);
    FitsBelowTop(v);
    hide Shift, Low, High, Half, Plus, Fits;
    ActWider(v, Shift(ONE), 31);
    PlusLaws(Act(v, Shift(ONE), 31), 0, 0, 0);
  }

  lemma TimesXIs(w: bv32)
    ensures TimesX(w) == Sum(w << 1, if High(w) then TAPS else 0)
  {}

  lemma AddTop(w: bv32, v: bv32, d: bv32)
    requires w == Sum(v, TOP) && Register(d) == Act(v, Shift(ONE), 32)
    ensures Register(Sum(d, TAPS)) == Shift(Register(w))
  {
    ActShift(w, ONE, 32);
    TapsAct();
    TopAct();
    ActXor(d, TAPS, ONE, 32);
    ActXor(v, TOP, Shift(ONE), 32);
    hide Act, Shift, Sum, Plus;
  }

  lemma AddNone(w: bv32, d: bv32)
    requires Register(d) == Act(w, Shift(ONE), 32)
    ensures Register(Sum(d, 0)) == Shift(Register(w))
  {
    ActShift(w, ONE, 32);
    ActXor(d, 0, ONE, 32);
    ActZero(ONE, 32);
    hide Act, Shift, Sum, Plus;
    PlusLaws(Register(d), 0, 0, 0);
  }

  lemma RegisterTimesX(w: bv32)
    ensures Register(TimesX(w)) == Shift(Register(w))
  {
    TimesXIs(w);
    WithoutTop(w);
    ActDouble(w);
    hide Register, Act, Shift, High, Sum, TimesX;
    if High(w) {
      AddTop(w, w & 0x7fff_ffff, w << 1);
    } else {
      AddNone(w, w << 1);
    }
  }

  // ----- squaring -----

  /** The action of a polynomial with every exponent doubled. */
  function Spread(w: bv32, c: u32, n: nat): u32
    decreases n, c
  {
    if n == 0 then 0 else Plus(if Low(w) then c else 0, Spread(Half(w), Shift(Shift(c)), n - 1))
  }

  /** Over GF(2) the square of a sum is the sum of the squares. */
  lemma {:induction false} ActTwice(w: bv32, c: u32, n: nat)
    ensures Act(w, Act(w, c, n), n) == Spread(w, c, n)
    decreases n
  {
    hide Shift, Low, Half, Plus;
    if n > 0 {
      var v, rest := Half(w), Act(Half(w), Shift(c), n - 1);
      ShiftOfZero();
      var y := Act(w, c, n);
      assert Act(w, y, n) == Plus(if Low(w) then y else 0, Act(v, Shift(y), n - 1));
      ActTwice(v, Shift(Shift(c)), n - 1);
      ActShift(v, Shift(c), n - 1);
      var t := Spread(v, Shift(Shift(c)), n - 1);
      assert Act(v, Shift(rest), n - 1) == t;
      PlusLaws(t, 0, 0, 0);
      PlusLaws(rest, 0, 0, 0);
      if Low(w) {
        ShiftLinear(c, rest);
        ActPlus(v, Shift(c), Shift(rest), n - 1);
        CrossTerms(c, rest, t);
      }
    } else {
      PlusLaws(0, 0, 0, 0);
    }
  }

  lemma {:induction false} ActNothing(w: bv32, n: nat)
    ensures Act(w, 0, n) == 0
    decreases n
  {
    ShiftNZero(1);
    hide Low, Half, Plus;
    if n > 0 {
      assert Shift(0) == 0;
      ActNothing(Half(w), n - 1);
      PlusLaws(0, 0, 0, 0);
    }
  }

  lemma ShiftOfZero()
    ensures Shift(0) == 0
  {
    ShiftIs(0);
  }

  lemma CrossTerms(b: u32, r: u32, t: u32)
    ensures Plus(Plus(b, r), Plus(r, t)) == Plus(b, t)
  {
    hide Plus;
    PlusLaws(b, r, Plus(r, t), 0);
    PlusLaws(r, r, t, 0);
    PlusLaws(t, 0, 0, 0);
  }

  lemma {:induction false} SpreadShift(w: bv32, c: u32, n: nat)
    ensures Spread(w, Shift(c), n) == Shift(Spread(w, c, n))
    decreases n
  {
    ShiftNZero(1);
    hide Plus, Shift, Low, Half;
    if n > 0 {
      SpreadShift(Half(w), Shift(Shift(c)), n - 1);
      ShiftLinear(if Low(w) then c else 0, Spread(Half(w), Shift(Shift(c)), n - 1));
    }
  }

  /** One step of Horner's rule for the square: v x^2 plus the lowest bit of w. */
  function Append(w: bv32, v: bv32): bv32 {
    Sum(TimesX(TimesX(v)), w & 1)
  }

  function Append4(w: bv32, v: bv32): bv32 {
    Append(w, Append(w >> 1, Append(w >> 2, Append(w >> 3, v))))
  }

  /** The square modulo the generator. */
  function Square(w: bv32): bv32 {
    var a := Drop4(w);
    var b := Drop4(a);
    var c := Drop4(b);
    var d := Drop4(c);
    var e := Drop4(d);
    var f := Drop4(e);
    Append4(w, Append4(a, Append4(b, Append4(c, Append4(d, Append4(e, Append4(f, Append4(Drop4(f), 0))))))))
  }

  lemma AppendBit(w: bv32, v: bv32, n: nat)
    requires Register(v) == Spread(Half(w), ONE, n)
    ensures Register(Append(w, v)) == Spread(w, ONE, n + 1)
  {
    LowestBit(w);
    RegisterTimesX(v);
    RegisterTimesX(TimesX(v));
    hide Act, Shift, Low, Half, Plus, Sum, TimesX;
    var x := Register(TimesX(TimesX(v)));
    ActXor(TimesX(TimesX(v)), w & 1, ONE, 32);
    SpreadShift(Half(w), ONE, n);
    SpreadShift(Half(w), Shift(ONE), n);
    PlusLaws(x, Register(w & 1), 0, 0);
  }

  lemma LowestBit(w: bv32)
    ensures Register(w & 1) == if Low(w) then ONE else 0
  {
    assert w & 1 == if Low(w) then 1 else 0;
    assert Only(1, 0);
    hide Act, Low, Half;
    ActZero(ONE, 32);
    ActOnly(1, ONE, 0, 32);
  }

  lemma Append4Bits(w: bv32, v: bv32, n: nat)
    requires Register(v) == Spread(Drop4(w), ONE, n)
    ensures Register(Append4(w, v)) == Spread(w, ONE, n + 4)
  {
    Drop4Is(w);
    HalvesAre(w);
    hide Register, Spread, Half, Drop4, Append;
    var a, b, c := w >> 1, w >> 2, w >> 3;
    AppendBit(c, v, n);
    AppendBit(b, Append(c, v), n + 1);
    AppendBit(a, Append(b, Append(c, v)), n + 2);
    AppendBit(w, Append(a, Append(b, Append(c, v))), n + 3);
  }

  lemma DropAll(w: bv32)
    ensures Drop4(Drop4(Drop4(Drop4(Drop4(Drop4(Drop4(Drop4(w)))))))) == 0
  {}

  lemma SquareSpreads(w: bv32)
    ensures Register(Square(w)) == Spread(w, ONE, 32)
  {
    hide Register, Act, Spread, Drop4, Append4;
    DropAll(w);
    SpreadNone();
    var a := Drop4(w);
    var b := Drop4(a);
    var c := Drop4(b);
    var d := Drop4(c);
    var e := Drop4(d);
    var f := Drop4(e);
    var g := Drop4(f);
    var v7 := Append4(g, 0);
    var v6 := Append4(f, v7);
    var v5 := Append4(e, v6);
    var v4 := Append4(d, v5);
    var v3 := Append4(c, v4);
    var v2 := Append4(b, v3);
    Append4Bits(g, 0, 0);
    Append4Bits(f, v7, 4);
    Append4Bits(e, v6, 8);
    Append4Bits(d, v5, 12);
    Append4Bits(c, v4, 16);
    Append4Bits(b, v3, 20);
    Append4Bits(a, v2, 24);
    Append4Bits(w, Append4(a, v2), 28);
  }

  lemma SpreadNone()
    ensures Register(0) == Spread(0, ONE, 0)
  {
    ActZero(ONE, 32);
  }
}
