/** What the checksum register means: the remainder of the message polynomial over GF(2).
    A polynomial is the number whose binary digits are its coefficients, so addition is
    exclusive or and multiplication by x is doubling. */
module CrcPolynomial {
  import opened CIntegers
  import opened XorLaws
  import opened Crc
  import opened CrcTheorems

  /** The generator of CRC-32C, with its leading term. */
  const GENERATOR: nat := 0x1_1edc_6f41

  /** The product of a polynomial with the generator, by Horner's rule. */
  function TimesGenerator(q: nat): nat {
    if q == 0 then 0 else Xor(2 * TimesGenerator(q / 2), if q % 2 == 1 then GENERATOR else 0)
  }

  /** r is what is left of m after taking away a multiple of the generator, and has degree below 32. */
  ghost predicate IsRemainder(m: nat, r: nat) {
    r < TWO32 && exists q: nat :: m == Xor(TimesGenerator(q), r)
  }

  /** The first n binary digits of v in reverse, so that the lowest becomes the highest coefficient. */
  function Reflect(v: nat, n: nat): nat
    decreases n, v
  {
    if n == 0 then 0 else (v % 2) * Pow2(n - 1) + Reflect(v / 2, n - 1)
  }

  /** The polynomial whose highest coefficient is the first bit sent. */
  function PolyOf(l: seq<bool>): nat {
    if l == [] then 0 else 2 * PolyOf(l[..|l| - 1]) + Digit(l[|l| - 1])
  }

  // ----- the remainder is unique -----

  lemma {:induction false} TimesGeneratorLinear(p: nat, q: nat)
    ensures TimesGenerator(Xor(p, q)) == Xor(TimesGenerator(p), TimesGenerator(q))
    decreases p + q
  {
    if p == 0 {
      XorZero(q);
      XorZero(TimesGenerator(q));
    } else if q == 0 {
      XorZero(p);
      XorZero(TimesGenerator(p));
    } else {
      XorHalves(p, q);
      var a, b := 2 * TimesGenerator(p / 2), 2 * TimesGenerator(q / 2);
      TimesGeneratorStep(Xor(p, q));
      hide TimesGenerator, Xor;
      TimesGeneratorStep(p);
      TimesGeneratorStep(q);
      TimesGeneratorLinear(p / 2, q / 2);
      XorDouble(TimesGenerator(p / 2), TimesGenerator(q / 2));
      XorInterchange(a, if p % 2 == 1 then GENERATOR else 0, b, if q % 2 == 1 then GENERATOR else 0);
      XorSelf(GENERATOR);
      XorZero(GENERATOR);
      XorZero(0);
    }
  }

  lemma TimesGeneratorStep(q: nat)
    ensures TimesGenerator(q) == Xor(2 * TimesGenerator(q / 2), if q % 2 == 1 then GENERATOR else 0)
  {
    if q == 0 {
      XorZero(0);
    }
  }

  /** A non-zero multiple of the generator has degree at least 32. */
  lemma {:induction false} MultipleIsLarge(q: nat)
    requires q > 0
    ensures TimesGenerator(q) >= TWO32
    decreases q
  {
    TimesGeneratorStep(q);
    var g := if q % 2 == 1 then GENERATOR else 0;
    if q == 1 {
      XorZero(GENERATOR);
    } else {
      MultipleIsLarge(q / 2);
      var a := 2 * TimesGenerator(q / 2);
      Pow2Words();
      assert Pow2(33) == 2 * Pow2(32);
      XorShr(a, g, 33);
      hide TimesGenerator, Xor;
      LargeShr(a, 33);
      DivModUnique(g, Pow2(33), 0, g);
      hide Pow2;
      XorZero(Shr(a, 33));
      SmallShr(Xor(a, g), 33);
    }
  }

  lemma LargeShr(a: nat, k: nat)
    requires a >= Pow2(k)
    ensures Shr(a, k) > 0
  {
    var q, r := a / Pow2(k), a % Pow2(k);
    DivNonNegative(a, Pow2(k));
    assert a == q * Pow2(k) + r;
  }

  lemma SmallShr(a: nat, k: nat)
    requires Shr(a, k) > 0
    ensures a >= Pow2(k)
  {
    if a < Pow2(k) {
      DivModUnique(a, Pow2(k), 0, a);
    }
  }

  lemma RemainderUnique(m: nat, r: nat, s: nat)
    requires IsRemainder(m, r) && IsRemainder(m, s)
    ensures r == s
  {
    var p: nat :| m == Xor(TimesGenerator(p), r);
    var q: nat :| m == Xor(TimesGenerator(q), s);
    var a, b := TimesGenerator(p), TimesGenerator(q);
    TimesGeneratorLinear(p, q);
    hide TimesGenerator, Xor;
    XorInterchange(a, r, b, s);
    XorSelf(m);
    XorWord(r, s);
    var d := Xor(p, q);
    assert Xor(TimesGenerator(d), Xor(r, s)) == 0;
    SumZero(TimesGenerator(d), Xor(r, s));
    if d > 0 {
      MultipleIsLarge(d);
    }
    TimesGeneratorStep(0);
    ZeroTimes();
    SumZero(r, s);
  }

  lemma ZeroTimes()
    ensures TimesGenerator(0) == 0
  {}

  lemma SumZero(a: nat, b: nat)
    requires Xor(a, b) == 0
    ensures a == b
  {
    XorTwice(a, b);
    XorZero(b);
  }

  // ----- reflection -----

  lemma {:induction false} ReflectBound(v: nat, n: nat)
    ensures Reflect(v, n) < Pow2(n)
    decreases n
  {
    if n > 0 {
      ReflectBound(v / 2, n - 1);
    }
  }

  lemma ReflectNext(v: nat, n: nat)
    requires n > 0
    ensures Reflect(v, n) == v % 2 * Pow2(n - 1) + Reflect(v / 2, n - 1)
  {}

  lemma {:induction false} ReflectLinear(a: nat, b: nat, n: nat)
    ensures Reflect(Xor(a, b), n) == Xor(Reflect(a, n), Reflect(b, n))
    decreases n
  {
    hide Xor, Reflect, Pow2;
    if n == 0 {
      ReflectNone(a);
      ReflectNone(b);
      ReflectNone(Xor(a, b));
      XorZero(0);
    } else {
      ReflectLinear(a / 2, b / 2, n - 1);
      ReflectStep(a, b, n);
    }
  }

  lemma ReflectNone(v: nat)
    ensures Reflect(v, 0) == 0
  {}

  lemma ReflectStep(a: nat, b: nat, n: nat)
    requires n > 0
    requires Reflect(Xor(a / 2, b / 2), n - 1) == Xor(Reflect(a / 2, n - 1), Reflect(b / 2, n - 1))
    ensures Reflect(Xor(a, b), n) == Xor(Reflect(a, n), Reflect(b, n))
  {
    hide Xor, Reflect, Pow2;
    ReflectNext(a, n);
    ReflectNext(b, n);
    ReflectNext(Xor(a, b), n);
    XorHalves(a, b);
    XorBit1(a % 2, b % 2);
    ReflectBlocks(a / 2, b / 2, a % 2, b % 2, n - 1);
  }

  lemma ReflectBlocks(a: nat, b: nat, s: nat, t: nat, n: nat)
    ensures var p, q := Reflect(a, n), Reflect(b, n);
      Xor(s * Pow2(n) + p, t * Pow2(n) + q) == Xor(s, t) * Pow2(n) + Xor(p, q)
  {
    hide Xor, Pow2, Reflect;
    ReflectBound(a, n);
    ReflectBound(b, n);
    XorBlocks(s, Reflect(a, n), t, Reflect(b, n), n);
  }

  lemma XorBit1(s: nat, t: nat)
    requires s < 2 && t < 2
    ensures Xor(s, t) == if s != t then 1 else 0
  {}

  lemma {:induction false} ReflectWider(v: nat, n: nat)
    requires v < Pow2(n)
    ensures Reflect(v, n + 1) == 2 * Reflect(v, n)
    decreases n
  {
    if n > 0 {
      ReflectWider(v / 2, n - 1);
      Regroup(v % 2, Pow2(n - 1));
    }
  }

  // ----- one bit of long division -----

  lemma Unfold(v: nat, n: nat, p: nat, r: nat)
    requires Pow2(n) == p && Reflect(v / 2, n) == r
    ensures Pow2(n + 1) == 2 * p && Reflect(v, n + 1) == (v % 2) * p + r
  {}

  lemma Base()
    ensures Pow2(0) == 1 && Reflect(0, 0) == 0
  {}

  lemma LowerHalf()
    ensures Pow2(16) == 0x1_0000 && Reflect(0x82f6, 16) == 0x6f41
  {
    hide Reflect, Pow2;
    Base();
    Unfold(0x1, 0, 0x1, 0x0); Unfold(0x2, 1, 0x2, 0x1); Unfold(0x4, 2, 0x4, 0x1);
    Unfold(0x8, 3, 0x8, 0x1); Unfold(0x10, 4, 0x10, 0x1); Unfold(0x20, 5, 0x20, 0x1);
    Unfold(0x41, 6, 0x40, 0x1); Unfold(0x82, 7, 0x80, 0x41); Unfold(0x105, 8, 0x100, 0x41);
    Unfold(0x20b, 9, 0x200, 0x141); Unfold(0x417, 10, 0x400, 0x341); Unfold(0x82f, 11, 0x800, 0x741);
    Unfold(0x105e, 12, 0x1000, 0xf41); Unfold(0x20bd, 13, 0x2000, 0xf41); Unfold(0x417b, 14, 0x4000, 0x2f41);
    Unfold(0x82f6, 15, 0x8000, 0x6f41);
  }

  /** POLY is the generator reflected, without its leading term. */
  lemma PolyIsGenerator()
    ensures Reflect(POLY, 32) == 0x1edc_6f41
  {
    hide Reflect, Pow2;
    LowerHalf();
    Unfold(0x105ec, 16, 0x10000, 0x6f41); Unfold(0x20bd8, 17, 0x20000, 0x6f41);
    Unfold(0x417b1, 18, 0x40000, 0x6f41); Unfold(0x82f63, 19, 0x80000, 0x46f41);
    Unfold(0x105ec7, 20, 0x100000, 0xc6f41); Unfold(0x20bd8e, 21, 0x200000, 0x1c6f41);
    Unfold(0x417b1d, 22, 0x400000, 0x1c6f41); Unfold(0x82f63b, 23, 0x800000, 0x5c6f41);
    Unfold(0x105ec76, 24, 0x1000000, 0xdc6f41); Unfold(0x20bd8ed, 25, 0x2000000, 0xdc6f41);
    Unfold(0x417b1db, 26, 0x4000000, 0x2dc6f41); Unfold(0x82f63b7, 27, 0x8000000, 0x6dc6f41);
    Unfold(0x105ec76f, 28, 0x10000000, 0xedc6f41); Unfold(0x20bd8ede, 29, 0x20000000, 0x1edc6f41);
    Unfold(0x417b1dbc, 30, 0x40000000, 0x1edc6f41); Unfold(0x82f63b78, 31, 0x80000000, 0x1edc6f41);
  }

  lemma GeneratorSplit()
    ensures GENERATOR == Xor(TWO32, Reflect(POLY, 32))
  {
    hide Xor, Reflect, Pow2;
    PolyIsGenerator();
    Pow2Words();
    XorZero(1);
    XorZero(0x1edc_6f41);
    XorBlocks(1, 0, 0, 0x1edc_6f41, 32);
  }

  /** Shifting the register is one step of long division of its reflection. */
  lemma ShiftDivides(x: u32)
    ensures Xor(2 * Reflect(x, 32), Reflect(Shift(x), 32)) == if x % 2 == 1 then GENERATOR else 0
  {
    hide Reflect, Shift, Xor;
    var h: u32 := x / 2;
    var p := Reflect(h, 31);
    ReflectTop(x);
    ReflectHalf(h);
    ShiftIs(x);
    if x % 2 == 1 {
      GeneratorSplit();
      ReflectLinear(h, POLY, 32);
      assert 2 * Reflect(x, 32) == TWO32 + 2 * p;
      TopOne(p, Reflect(POLY, 32));
    } else {
      assert 2 * Reflect(x, 32) == 2 * p == Reflect(Shift(x), 32);
      XorSelf(2 * p);
    }
  }

  lemma ReflectTop(x: u32)
    ensures Reflect(x, 32) == (x % 2) * TWO31 + Reflect(x / 2, 31)
  {
    hide Pow2;
    Pow2Words();
  }

  lemma ReflectHalf(h: u32)
    requires h < TWO31
    ensures Reflect(h, 32) == 2 * Reflect(h, 31) && Reflect(h, 31) < TWO31
  {
    hide Pow2, Reflect;
    Pow2Words();
    ReflectWider(h, 31);
    ReflectBound(h, 31);
  }

  lemma TopOne(p: nat, g: nat)
    requires p < TWO31
    ensures Xor(TWO32 + 2 * p, Xor(2 * p, g)) == Xor(TWO32, g)
  {
    hide Xor, Pow2;
    Pow2Words();
    XorZero(1);
    XorZero(2 * p);
    XorBlocks(1, 0, 0, 2 * p, 32);
    XorAssociates(TWO32, 2 * p, Xor(2 * p, g));
    XorAssociates(2 * p, 2 * p, g);
    XorSelf(2 * p);
    XorZero(g);
  }

  /** Adding a bit to the register adds it to the highest coefficient. */
  lemma AddBit(r: u32, b: bool)
    ensures Reflect(Plus(r, Digit(b)), 32) == Xor(Reflect(r, 32), Digit(b) * TWO31)
  {
    hide Reflect, Xor;
    ReflectLinear(r, Digit(b), 32);
    ReflectDigit(b);
  }

  lemma ReflectDigit(b: bool)
    ensures Reflect(Digit(b), 32) == Digit(b) * TWO31
  {
    hide Reflect;
    ReflectTop(Digit(b));
    ReflectZero(31);
  }

  lemma {:induction false} ReflectZero(n: nat)
    ensures Reflect(0, n) == 0
    decreases n
  {
    if n > 0 {
      ReflectZero(n - 1);
    }
  }

  // ----- the whole message -----

  /** The quotient found while the register consumes the bits of l. */
  function Quotient(c: u32, l: seq<bool>): nat {
    if l == [] then 0
    else
      var n := |l| - 1;
      2 * Quotient(c, l[..n]) + Plus(Feed(c, l[..n]), Digit(l[n])) % 2
  }

  /** The message times x^32, with the reflected initial register added to its 32 highest coefficients. */
  function Dividend(c: u32, l: seq<bool>): nat {
    Aligned(PolyOf(l), Reflect(c, 32), Pow2(|l|))
  }

  /** p times x^32 plus r times e. */
  function Aligned(p: nat, r: nat, e: nat): nat {
    Xor(p * TWO32, r * e)
  }

  lemma FeedSnoc(c: u32, l: seq<bool>)
    requires l != []
    ensures var n := |l| - 1; Feed(c, l) == Shift(Plus(Feed(c, l[..n]), Digit(l[n])))
  {
    var n := |l| - 1;
    assert l == l[..n] + [l[n]];
    FeedConcat(c, l[..n], [l[n]]);
    hide Shift, Plus;
    assert Feed(Feed(c, l[..n]), [l[n]]) == Shift(Plus(Feed(c, l[..n]), Digit(l[n])));
  }

  lemma DividendSnoc(c: u32, l: seq<bool>)
    requires l != []
    ensures var n := |l| - 1; Dividend(c, l) == Xor(2 * Dividend(c, l[..n]), Digit(l[n]) * TWO32)
  {
    hide Reflect, Xor, Aligned;
    var n := |l| - 1;
    AlignedSnoc(PolyOf(l[..n]), Digit(l[n]), Reflect(c, 32), Pow2(n));
  }

  lemma AlignedSnoc(p: nat, b: nat, r: nat, e: nat)
    requires b < 2
    ensures Aligned(2 * p + b, r, 2 * e) == Xor(2 * Aligned(p, r, e), b * TWO32)
  {
    hide Xor;
    Regroup(r, e);
    MoveBit(p, b, r * e);
  }

  lemma MoveBit(p: nat, b: nat, r: nat)
    requires b < 2
    ensures Xor((2 * p + b) * TWO32, 2 * r) == Xor(2 * Xor(p * TWO32, r), b * TWO32)
  {
    hide Xor;
    XorDouble(p * TWO32, r);
    AppendBit(p, b);
    var x, y, z := 2 * (p * TWO32), b * TWO32, 2 * r;
    XorAssociates(x, y, z);
    XorCommutes(y, z);
    XorAssociates(x, z, y);
  }

  lemma AppendBit(p: nat, b: nat)
    requires b < 2
    ensures 2 * (p * TWO32) + b * TWO32 == Xor(2 * (p * TWO32), b * TWO32)
  {
    hide Pow2, Xor;
    Pow2Words();
    XorZero(0);
    XorZero(2 * p);
    XorDouble(p, 0);
    XorBlocks(2 * p, 0, b, 0, 32);
    if b == 0 {
      XorZero(2 * p);
    }
  }

  lemma QuotientSnoc(c: u32, l: seq<bool>)
    requires l != []
    ensures var n := |l| - 1;
      Quotient(c, l) == 2 * Quotient(c, l[..n]) + Plus(Feed(c, l[..n]), Digit(l[n])) % 2
  {}

  lemma AppendQuotientBit(q: nat, t: nat)
    requires t < 2
    ensures TimesGenerator(2 * q + t) == Xor(2 * TimesGenerator(q), if t == 1 then GENERATOR else 0)
  {
    TimesGeneratorStep(2 * q + t);
    hide TimesGenerator, Xor;
    assert (2 * q + t) / 2 == q && (2 * q + t) % 2 == t;
  }

  lemma DivisionSnoc(c: u32, l: seq<bool>)
    requires l != []
    requires var k := l[..|l| - 1]; Dividend(c, k) == Xor(TimesGenerator(Quotient(c, k)), Reflect(Feed(c, k), 32))
    ensures Dividend(c, l) == Xor(TimesGenerator(Quotient(c, l)), Reflect(Feed(c, l), 32))
  {
    hide Feed, Quotient, Dividend, TimesGenerator, Reflect, Shift, Plus, Xor;
    var n := |l| - 1;
    var r, b, q := Feed(c, l[..n]), l[n], Quotient(c, l[..n]);
    var x := Plus(r, Digit(b));
    QuotientSnoc(c, l);
    FeedSnoc(c, l);
    DividendSnoc(c, l);
    AppendQuotientBit(q, x % 2);
    AddBit(r, b);
    ShiftDivides(x);
    hide Digit;
    DivisionStep(TimesGenerator(q), Reflect(r, 32), Digit(b), Reflect(x, 32), Reflect(Shift(x), 32),
                 if x % 2 == 1 then GENERATOR else 0);
  }

  /** Division with remainder, bit by bit. */
  lemma {:induction false} DivisionIdentity(c: u32, l: seq<bool>)
    ensures Dividend(c, l) == Xor(TimesGenerator(Quotient(c, l)), Reflect(Feed(c, l), 32))
    decreases |l|
  {
    hide Feed, Quotient, Dividend, TimesGenerator, Reflect, Xor;
    if l == [] {
      EmptyMessage(c);
    } else {
      DivisionIdentity(c, l[..|l| - 1]);
      DivisionSnoc(c, l);
    }
  }

  lemma EmptyMessage(c: u32)
    ensures Dividend(c, []) == Xor(TimesGenerator(Quotient(c, [])), Reflect(Feed(c, []), 32))
  {
    hide Reflect;
    ZeroTimes();
  }

  lemma DivisionStep(a: nat, r: nat, b: nat, x: nat, s: nat, g: nat)
    requires x == Xor(r, b * TWO31) && Xor(2 * x, s) == g
    ensures Xor(2 * Xor(a, r), b * TWO32) == Xor(Xor(2 * a, g), s)
  {
    hide Xor;
    XorDouble(a, r);
    XorDouble(r, b * TWO31);
    XorAssociates(2 * a, 2 * r, b * TWO32);
    XorAssociates(2 * a, g, s);
    XorTwice(2 * x, s);
  }

  /** The register after a buffer is the reflected remainder of the message polynomial modulo
      the generator, and no other word is. */
  lemma CrcIsRemainder(c: u32, buf: seq<u8>, r: nat)
    ensures IsRemainder(Dividend(c, AllBits(buf)), r) <==> r == Reflect(Update(c, buf), 32)
  {
    hide Update, Feed, AllBits, Dividend, Reflect, TimesGenerator, Xor, Quotient, Pow2;
    UpdateIsSerial(c, buf);
    var l := AllBits(buf);
    DivisionIdentity(c, l);
    Pow2Words();
    ReflectBound(Update(c, buf), 32);
    var s := Reflect(Update(c, buf), 32);
    assert IsRemainder(Dividend(c, l), s);
    if IsRemainder(Dividend(c, l), r) {
      RemainderUnique(Dividend(c, l), r, s);
    }
  }

  // ----- collisions -----

  ghost predicate IsMultiple(p: nat) {
    exists q: nat :: p == TimesGenerator(q)
  }

  lemma TimesGeneratorDouble(q: nat)
    ensures TimesGenerator(2 * q) == 2 * TimesGenerator(q)
    ensures TimesGenerator(q) % 2 == q % 2
  {
    hide TimesGenerator, Xor;
    AppendQuotientBit(q, 0);
    XorZero(2 * TimesGenerator(q));
    TimesGeneratorStep(q);
    LowestSum(TimesGenerator(q / 2), q);
  }

  lemma LowestSum(p: nat, q: nat)
    ensures Xor(2 * p, if q % 2 == 1 then GENERATOR else 0) % 2 == q % 2
  {
    var g := if q % 2 == 1 then GENERATOR else 0;
    XorHalves(2 * p, g);
    hide Xor;
    DivModUnique(2 * p, 2, p, 0);
    assert g % 2 == q % 2;
  }

  /** The generator has a constant term, so that a factor x can be cancelled. */
  lemma CancelX(m: nat)
    ensures IsMultiple(2 * m) <==> IsMultiple(m)
  {
    hide TimesGenerator;
    if IsMultiple(m) {
      var q: nat :| m == TimesGenerator(q);
      TimesGeneratorDouble(q);
    }
    if IsMultiple(2 * m) {
      var q: nat :| 2 * m == TimesGenerator(q);
      TimesGeneratorDouble(q);
      EvenHalves(m);
      TimesGeneratorDouble(q / 2);
      assert q == 2 * (q / 2);
    }
  }

  lemma {:induction false} CancelPower(p: nat, n: nat)
    ensures IsMultiple(p * Pow2(n)) <==> IsMultiple(p)
    decreases n
  {
    hide IsMultiple;
    if n > 0 {
      CancelPower(p, n - 1);
      var m := p * Pow2(n - 1);
      assert p * Pow2(n) == 2 * m;
      CancelX(m);
    } else {
      assert p * Pow2(0) == p;
    }
  }

  /** Fed from zero, the register ends at zero exactly when the bits are a multiple of the generator. */
  lemma ZeroIffMultiple(l: seq<bool>)
    ensures Feed(0, l) == 0 <==> IsMultiple(PolyOf(l))
  {
    hide Feed, PolyOf, TimesGenerator, Reflect, Xor, Quotient, Pow2;
    var m := PolyOf(l) * TWO32;
    DivisionIdentity(0, l);
    PlainDividend(l);
    RegisterRemainder(m, Quotient(0, l), Feed(0, l));
    Pow2Words();
    CancelPower(PolyOf(l), 32);
  }

  lemma PlainDividend(l: seq<bool>)
    ensures Dividend(0, l) == PolyOf(l) * TWO32
  {
    hide Xor, PolyOf, Reflect, Pow2;
    ReflectZero(32);
    XorZero(PolyOf(l) * TWO32);
  }

  lemma {:induction false} ReflectNonZero(v: nat, n: nat)
    requires v < Pow2(n)
    ensures Reflect(v, n) == 0 <==> v == 0
    decreases n
  {
    if v == 0 {
      ReflectZero(n);
    } else if n > 0 && v / 2 > 0 {
      ReflectNonZero(v / 2, n - 1);
    }
  }

  lemma RegisterRemainder(m: nat, q: nat, r: u32)
    requires m == Xor(TimesGenerator(q), Reflect(r, 32))
    ensures IsMultiple(m) <==> r == 0
  {
    hide Xor, TimesGenerator, Reflect, Pow2;
    Pow2Words();
    ReflectBound(r, 32);
    ReflectNonZero(r, 32);
    ReflectZero(32);
    XorZero(TimesGenerator(q));
    if IsMultiple(m) {
      var t: nat :| m == TimesGenerator(t);
      XorZero(TimesGenerator(t));
      RemainderUnique(m, Reflect(r, 32), 0);
    }
  }

  /** Two buffers of the same length have the same checksum if and only if the polynomial of their
      difference is a multiple of the generator. */
  lemma CollisionIffMultiple(a: seq<u8>, b: seq<u8>)
    requires |a| == |b|
    ensures Crc32(a) == Crc32(b) <==> IsMultiple(PolyOf(XorBools(AllBits(a), AllBits(b))))
  {
    hide Crc32, Plus, Feed, AllBits, XorBools, PolyOf, IsMultiple;
    ChecksumDifference(a, b);
    PlusLaws(Crc32(a), Crc32(a), 0, 0);
    PlusLaws(Crc32(a), Crc32(b), 0, 0);
    PlusLaws(Crc32(b), 0, 0, 0);
    ZeroIffMultiple(XorBools(AllBits(a), AllBits(b)));
  }
}
