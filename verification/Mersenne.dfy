/** 2^31 - 1 is prime: multiplications by two elements of large prime order cut the numbers below any
    divisor into orbits that are too long for a small divisor. */
module Mersenne {
  import opened CIntegers
  import opened Periods

  const MERSENNE: nat := 0x7fff_ffff

  function Times(a: nat, g: nat): int -> int
    requires g > 0
  {
    x => a * x % g
  }

  function Power(a: nat, n: nat): nat
    decreases n, a
  {
    if n == 0 then 1 else a * Power(a, n - 1)
  }

  lemma ProductResidue(a: int, b: int, c: int, g: nat)
    requires g > 0 && b % g == c % g
    ensures a * b % g == a * c % g
  {
    var k := b / g - c / g;
    assert b == c + k * g;
    assert a * b == a * c + (a * k) * g;
    DivModUnique(a * b, g, a * c / g + a * k, a * c % g);
  }

  lemma {:induction false} Powers(a: nat, g: nat, n: nat, x: nat)
    requires x < g
    ensures Iterate(Times(a, g), n, x) == Power(a, n) * x % g
    decreases n
  {
    if n > 0 {
      var y := a * x % g;
      Powers(a, g, n - 1, y);
      NextPower(a, g, Power(a, n - 1), x);
    }
  }

  lemma NextPower(a: nat, g: nat, p: nat, x: nat)
    requires g > 0
    ensures p * (a * x % g) % g == a * p * x % g
  {
    ResidueTwice(a * x, g);
    ProductResidue(p, a * x % g, a * x, g);
    Reorder(p, a, x);
  }

  lemma ResidueTwice(n: int, g: nat)
    requires g > 0
    ensures n % g % g == n % g
  {}

  lemma Reorder(p: int, a: int, x: int)
    ensures p * (a * x) == a * p * x
  {}

  /** A congruence modulo the Mersenne number holds modulo its divisors. */
  lemma ModDivisor(n: int, r: int, g: nat)
    requires g > 0 && MERSENNE % g == 0 && n % MERSENNE == r
    ensures n % g == r % g
  {
    var h, k := MERSENNE / g, n / MERSENNE;
    assert MERSENNE == h * g && n == k * MERSENNE + r;
    assert k * MERSENNE == (k * h) * g;
    DivModUnique(n, g, k * h + r / g, r % g);
  }

  lemma {:induction false} CountBelow(g: nat) returns (xs: set<int>)
    requires g > 0
    ensures |xs| == g - 1 && forall x :: x in xs <==> 1 <= x < g
  {
    xs := {};
    if g > 1 {
      var rest := CountBelow(g - 1);
      xs := rest + {g - 1};
    }
  }

  lemma OneTimes(b: nat, x: nat, g: nat)
    requires x < g && b % g == 1 % g
    ensures b * x % g == x
  {
    ProductResidue(x, b, 1, g);
    assert b * x == x * b;
    DivModUnique(x, g, 0, x);
  }

  /** With a - 1 invertible, multiplication by a leaves only zero in place. */
  lemma OnlyZeroStays(a: nat, u: nat, x: nat, g: nat)
    requires x < g && u * (a - 1) % g == 1 % g && a * x % g == x
    ensures x == 0
  {
    var k, v := a * x / g, u * (a - 1);
    assert a * x == k * g + x;
    assert (a - 1) * x == k * g;
    Associate(u, a - 1, x);
    Associate(u, k, g);
    assert v * x == (u * k) * g;
    DivModUnique(v * x, g, u * k, 0);
    ProductResidue(x, v, 1, g);
    assert x * v == v * x;
    DivModUnique(x, g, 0, x);
  }

  lemma {:induction false} ZeroStays(a: nat, n: nat, g: nat)
    requires g > 0
    ensures Iterate(Times(a, g), n, 0) == 0
    decreases n
  {
    if n > 0 {
      DivModUnique(a * 0, g, 0, 0);
      ZeroStays(a, n - 1, g);
    }
  }

  lemma StaysBelow(a: nat, u: nat, q: nat, g: nat, x: nat)
    requires 0 < x < g && u * (a - 1) % g == 1 % g && Power(a, q) % g == 1 % g && q > 0
    ensures 0 < a * x % g < g && a * x % g != x && IsPeriod(Times(a, g), q, x)
  {
    hide Power;
    Powers(a, g, q, x);
    OneTimes(Power(a, q), x, g);
    if a * x % g == x {
      OnlyZeroStays(a, u, x, g);
    }
    if a * x % g == 0 {
      assert Iterate(Times(a, g), q, x) == Iterate(Times(a, g), q - 1, Times(a, g)(x));
      ZeroStays(a, q - 1, g);
    }
  }

  /** If a has the prime order q and a - 1 is invertible, then multiplication by a cuts the numbers
      below a divisor into orbits of q elements. */
  lemma DivisorForm(a: nat, u: nat, q: nat, g: nat)
    requires Prime(q) && Residue(a, q, 1) && u * (a - 1) % MERSENNE == 1
    requires g > 1 && MERSENNE % g == 0
    ensures (g - 1) % q == 0
  {
    assert q > 1;
    hide Power, Prime;
    ModDivisor(Power(a, q), 1, g);
    ModDivisor(u * (a - 1), 1, g);
    var xs := CountBelow(g);
    forall x | x in xs
      ensures Times(a, g)(x) in xs && Times(a, g)(x) != x && IsPeriod(Times(a, g), q, x)
    {
      StaysBelow(a, u, q, g, x);
    }
    OrbitCount(Times(a, g), q, xs);
  }

  // ----- two elements of large prime order -----

  predicate Residue(a: nat, n: nat, r: nat) {
    Power(a, n) % MERSENNE == r
  }

  lemma ResidueSquare(a: nat, n: nat, b: nat, c: nat)
    requires Residue(a, n, b) && b * b % 0x7fff_ffff == c
    ensures Residue(a, 2 * n, c)
  {
    hide Power;
    PowerAdd(a, n, n);
    var p := Power(a, n);
    assert b % MERSENNE == b;
    ProductResidue(p, p, b, MERSENNE);
    ProductResidue(b, p, b, MERSENNE);
    assert p * b == b * p;
  }

  lemma ResidueNext(a: nat, n: nat, b: nat, c: nat)
    requires Residue(a, n, b) && a * b % 0x7fff_ffff == c
    ensures Residue(a, n + 1, c)
  {
    assert b % MERSENNE == b;
    ProductResidue(a, Power(a, n), b, MERSENNE);
  }

  lemma {:induction false} PowerAdd(a: nat, m: nat, n: nat)
    ensures Power(a, m + n) == Power(a, m) * Power(a, n)
    decreases m
  {
    if m > 0 {
      PowerAdd(a, m - 1, n);
      Associate(a, Power(a, m - 1), Power(a, n));
    }
  }

  lemma Associate(a: int, b: int, c: int)
    ensures a * (b * c) == a * b * c
  {}

  lemma First(a: nat)
    requires a < 0x7fff_ffff
    ensures Residue(a, 1, a)
  {
    assert Power(a, 0) == 1;
  }

  lemma Order151()
    ensures Residue(7857454, 151, 1)
  {
    hide *;
    First(7857454);
    ResidueSquare(7857454, 1, 7857454, 1575994513);
    ResidueSquare(7857454, 2, 1575994513, 1016890597);
    ResidueSquare(7857454, 4, 1016890597, 818442452);
    ResidueNext(7857454, 8, 818442452, 61578185);
    ResidueSquare(7857454, 9, 61578185, 862844209);
    ResidueSquare(7857454, 18, 862844209, 1362809145);
    ResidueNext(7857454, 36, 1362809145, 2005183324);
    ResidueSquare(7857454, 37, 2005183324, 556613938);
    ResidueNext(7857454, 74, 556613938, 1070630005);
    ResidueSquare(7857454, 75, 1070630005, 947483531);
    ResidueNext(7857454, 150, 947483531, 1);
  }

  lemma Order331()
    ensures Residue(1090433, 331, 1)
  {
    hide *;
    First(1090433);
    ResidueSquare(1090433, 1, 1090433, 1485670698);
    ResidueSquare(1090433, 2, 1485670698, 2131047422);
    ResidueNext(1090433, 4, 2131047422, 296382437);
    ResidueSquare(1090433, 5, 296382437, 964463491);
    ResidueSquare(1090433, 10, 964463491, 1656810104);
    ResidueSquare(1090433, 20, 1656810104, 921707017);
    ResidueNext(1090433, 40, 921707017, 893650362);
    ResidueSquare(1090433, 41, 893650362, 622543880);
    ResidueSquare(1090433, 82, 622543880, 1183189347);
    ResidueNext(1090433, 164, 1183189347, 2008936121);
    ResidueSquare(1090433, 165, 2008936121, 1238025062);
    ResidueNext(1090433, 330, 1238025062, 1);
  }

  /** A number below 400 without a prime divisor up to 19 is prime. */
  lemma SmallPrime(p: nat)
    requires 20 < p < 400 && p % 2 > 0 && p % 3 > 0 && p % 5 > 0 && p % 7 > 0 && p % 11 > 0 && p % 13 > 0
    requires p % 17 > 0 && p % 19 > 0
    ensures Prime(p)
  {
    forall g | 1 < g < p
      ensures p % g != 0
    {
      if p % g == 0 {
        var h := p / g;
        assert p == h * g;
        if g < 20 {
          SmallFactor(p, g);
        } else {
          OtherFactor(p, g, h);
          assert p == g * h;
          DivModUnique(p, h, g, 0);
          SmallFactor(p, h);
        }
      }
    }
  }

  lemma OtherFactor(p: nat, g: nat, h: int)
    requires 20 <= g < p < 400 && p == h * g
    ensures 1 < h < 20
  {
    if h >= 20 {
      Scale(20, h, g);
    } else if h <= 1 {
      Scale(h, 1, g);
    }
  }

  /** Every number up to 19 has one of these prime factors. */
  lemma SmallFactor(p: nat, g: nat)
    requires 1 < g < 20 && p % g == 0
    ensures p % 2 == 0 || p % 3 == 0 || p % 5 == 0 || p % 7 == 0 || p % 11 == 0 || p % 13 == 0
         || p % 17 == 0 || p % 19 == 0
  {
    var f := if g in {2, 4, 6, 8, 10, 12, 14, 16, 18} then 2 else if g in {3, 9, 15} then 3 else g;
    assert g % f == 0;
    Factor(p, g, f);
    assert f in {2, 3, 5, 7, 11, 13, 17, 19};
  }

  lemma Factor(p: nat, g: nat, f: nat)
    requires g > 0 && f > 0 && p % g == 0 && g % f == 0
    ensures p % f == 0
  {
    DividesSum(p / g, g, 0, f);
  }

  lemma CombineOrders(n: nat)
    requires n % 151 == 0 && n % 331 == 0
    ensures n % 49981 == 0
  {
    var i, j := n / 151, n / 331;
    DivModUnique(n, 49981, 57 * j - 26 * i, 0);
  }

  /** A divisor other than 1 is 1 modulo 151 and modulo 331, hence above the square root. */
  lemma LargeDivisor(g: nat)
    requires g > 1 && MERSENNE % g == 0
    ensures g >= 49982
  {
    hide Power, Prime;
    SmallPrime(151);
    SmallPrime(331);
    Order151();
    Order331();
    DivisorForm(7857454, 1733380730, 151, g);
    DivisorForm(1090433, 1286122590, 331, g);
    CombineOrders(g - 1);
  }

  lemma Cofactor(h: int, g: nat)
    requires 1 < g < MERSENNE && MERSENNE == h * g
    ensures h > 1
  {
    if h <= 1 {
      Scale(h, 1, g);
    }
  }

  lemma TooLarge(g: nat, h: nat)
    requires g >= 49982 && h >= 49982
    ensures h * g > MERSENNE
  {
    Scale(49982, h, g);
  }

  /** 2^31 - 1 is prime. */
  lemma MersennePrime()
    ensures Prime(MERSENNE)
  {
    forall g | 1 < g < MERSENNE
      ensures MERSENNE % g != 0
    {
      if MERSENNE % g == 0 {
        var h := MERSENNE / g;
        assert MERSENNE == h * g;
        Cofactor(h, g);
        LargeDivisor(g);
        DivModUnique(MERSENNE, h, g, 0);
        LargeDivisor(h);
        TooLarge(g, h);
      }
    }
  }
}
