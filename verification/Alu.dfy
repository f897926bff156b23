/** The interpreter's C expressions compute the results the ISA manual defines. */
module Alu {
  import opened CIntegers
  import Isa

  // ----- signed and unsigned views -----

  lemma Congruent(n: int, m: int, k: int)
    requires n == m + k * TWO32
    ensures n % TWO32 == m % TWO32
  {
    DivModUnique(n, TWO32, m / TWO32 + k, m % TWO32);
  }

  lemma UnsignedOfSigned(n: int)
    ensures ToU32(ToI32(n)) == n % TWO32
  {
    Congruent(ToI32(n), n, -((n + TWO31) / TWO32));
  }

  lemma SignedView(a: i32)
    ensures Isa.Signed(ToU32(a)) == a
    ensures ToU32(a) == if a < 0 then a + TWO32 else a
  {
    DivModUnique(a, TWO32, if a < 0 then -1 else 0, if a < 0 then a + TWO32 else a);
  }

  lemma Additive(a: i32, b: int)
    ensures ToU32(ToI32(a + b)) == Isa.Trunc(ToU32(a) + b)
    ensures ToU32(ToI32(a + b)) == Isa.Trunc(ToU32(a) + ToU32(b))
    ensures ToU32(ToI32(a - b)) == Isa.Trunc(ToU32(a) - ToU32(b))
  {
    SignedView(a);
    UnsignedOfSigned(a + b);
    UnsignedOfSigned(a - b);
    var j, k := if a < 0 then 1 else 0, -(b / TWO32);
    Congruent(ToU32(a) + b, a + b, j);
    Congruent(ToU32(a) + ToU32(b), a + b, j + k);
    Congruent(ToU32(a) - ToU32(b), a - b, j - k);
  }

  lemma Product(a: i32, b: i32)
    ensures ToU32(ToI32(a * b)) == Isa.Trunc(ToU32(a) * ToU32(b))
  {
    SignedView(a);
    SignedView(b);
    UnsignedOfSigned(a * b);
    var ua, ub := ToU32(a), ToU32(b);
    var j, k := if a < 0 then 1 else 0, if b < 0 then 1 else 0;
    assert ua * ub == a * b + (j * ub + k * a) * TWO32;
    Congruent(ua * ub, a * b, j * ub + k * a);
  }

  // ----- bitwise results -----

  lemma Narrow(v: nat)
    requires v < TWO32
    ensures ToU32(ToI32(v)) == v
  {
    UnsignedOfSigned(v);
  }

  lemma XorResult(a: u32, b: u32)
    ensures ToU32(ToI32(Xor(a, b))) == Isa.OfBits(Isa.XorBits(a, b))
  {
    Pow2Words();
    BitwiseBound(a, b, 32);
    Narrow(Xor(a, b));
    forall i | 0 <= i < 32
      ensures Bit(Xor(a, b), i) == Isa.XorBits(a, b)(i)
    {
      XorBit(a, b, i);
    }
    Isa.FromBitsUnique(Xor(a, b), Isa.XorBits(a, b), 32);
  }

  lemma OrResult(a: u32, b: u32)
    ensures ToU32(ToI32(Or(a, b))) == Isa.OfBits(Isa.OrBits(a, b))
  {
    Pow2Words();
    BitwiseBound(a, b, 32);
    Narrow(Or(a, b));
    forall i | 0 <= i < 32
      ensures Bit(Or(a, b), i) == Isa.OrBits(a, b)(i)
    {
      OrBit(a, b, i);
    }
    Isa.FromBitsUnique(Or(a, b), Isa.OrBits(a, b), 32);
  }

  lemma AndResult(a: u32, b: u32)
    ensures ToU32(ToI32(And(a, b))) == Isa.OfBits(Isa.AndBits(a, b))
  {
    Pow2Words();
    BitwiseBound(a, b, 32);
    Narrow(And(a, b));
    forall i | 0 <= i < 32
      ensures Bit(And(a, b), i) == Isa.AndBits(a, b)(i)
    {
      AndBit(a, b, i);
    }
    Isa.FromBitsUnique(And(a, b), Isa.AndBits(a, b), 32);
  }

  lemma LeftShiftBit(a: u32, k: nat, v: nat, i: nat)
    requires v == a * Pow2(k) && i < 32
    ensures Bit(v % TWO32, i) == Isa.LeftBits(a, k)(i)
  {
    Pow2Words();
    MulPow2Bit(a, k, i);
    ModPow2Bit(v, 32, i);
  }

  lemma LeftShiftBits(a: u32, k: nat, v: nat)
    requires v == a * Pow2(k)
    ensures v % TWO32 == Isa.OfBits(Isa.LeftBits(a, k))
  {
    forall i | 0 <= i < 32
      ensures Bit(v % TWO32, i) == Isa.LeftBits(a, k)(i)
    {
      LeftShiftBit(a, k, v, i);
    }
    Pow2Words();
    Isa.FromBitsUnique(v % TWO32, Isa.LeftBits(a, k), 32);
  }

  lemma LeftShift(a: i32, k: nat)
    ensures ToU32(ToI32(a * Pow2(k))) == Isa.OfBits(Isa.LeftBits(ToU32(a), k))
    ensures ToU32(ToI32(ToU32(a) * Pow2(k))) == Isa.OfBits(Isa.LeftBits(ToU32(a), k))
  {
    var v := ToU32(a) * Pow2(k);
    Multiple(a, Pow2(k));
    LeftShiftBits(ToU32(a), k, v);
    UnsignedOfSigned(a * Pow2(k));
    UnsignedOfSigned(v);
  }

  lemma Multiple(a: i32, p: nat)
    ensures 0 <= ToU32(a) * p && ToU32(a) * p % TWO32 == a * p % TWO32
  {
    SignedView(a);
    if a < 0 {
      assert ToU32(a) * p == a * p + p * TWO32;
      Congruent(ToU32(a) * p, a * p, p);
    }
  }

  lemma RightShiftBit(a: u32, k: nat, i: nat)
    requires i < 32
    ensures Bit(Shr(a, k), i) == Isa.RightBits(a, k)(i)
  {
    hide Pow2, Shr;
    Pow2Words();
    ShrBit(a, k, i);
    DivModUnique(a, TWO32, 0, a);
    ModPow2Bit(a, 32, i + k);
  }

  lemma RightShift(a: u32, k: nat)
    ensures ToU32(ToI32(Shr(a, k))) == Isa.OfBits(Isa.RightBits(a, k))
  {
    DivNonNegative(a, Pow2(k));
    var v: u32 := Shr(a, k);
    hide ToU32, ToI32, Pow2, Shr;
    Pow2Words();
    Narrow(v);
    forall i | 0 <= i < 32
      ensures Bit(v, i) == Isa.RightBits(a, k)(i)
    {
      RightShiftBit(a, k, i);
    }
    Isa.FromBitsUnique(v, Isa.RightBits(a, k), 32);
  }

  lemma OddBit(m: nat, i: nat)
    ensures Bit(2 * m + 1, i) == (i == 0 || Bit(m, i - 1))
  {
    assert (2 * m + 1) / 2 == m && (2 * m + 1) % 2 == 1;
  }

  lemma {:induction false} OnesBit(k: nat, i: nat)
    ensures Bit(Pow2(k) - 1, i) == (i < k)
    decreases k
  {
    if k == 0 {
      ZeroBit(i);
    } else {
      var m := Pow2(k - 1) - 1;
      assert Pow2(k) - 1 == 2 * m + 1;
      OddBit(m, i);
      hide Pow2, Bit;
      if i > 0 {
        OnesBit(k - 1, i - 1);
      }
    }
  }

  /** A negative number shifted right, as digits: those of its 32-bit pattern below k ones. */
  lemma NegativeShift(a: i32, k: nat)
    requires a < 0 && k < 32
    ensures var n := ToU32(a) + (Pow2(k) - 1) * TWO32; n >= 0 && ToU32(a / Pow2(k)) == Shr(n, k)
  {
    SignedView(a);
    var p := Pow2(k);
    var q, r := a / p, a % p;
    var n := ToU32(a) + (p - 1) * TWO32;
    assert n == (q + TWO32) * p + r;
    DivModUnique(n, p, q + TWO32, r);
    Floor(a, p, q, r);
    DivModUnique(q, TWO32, -1, q + TWO32);
  }

  lemma Floor(a: int, p: int, q: int, r: int)
    requires -TWO31 <= a < 0 < p && a == q * p + r && 0 <= r < p
    ensures -TWO31 <= q < 0
  {
    if q >= 0 {
      Scale(0, q, p);
      assert false;
    }
    if q < -TWO31 {
      Scale(1, p, -q - 1);
      assert false;
    }
  }

  lemma PositiveShift(a: nat, k: nat)
    requires a < TWO31
    ensures ToU32(a / Pow2(k)) == Shr(a, k)
  {
    DivNonNegative(a, Pow2(k));
    DivModUnique(Shr(a, k), TWO32, 0, Shr(a, k));
  }

  lemma SignShiftBit(a: i32, k: nat, i: nat)
    requires k < 32 && i < 32
    ensures Bit(ToU32(a / Pow2(k)), i) == Isa.ArithmeticBits(ToU32(a), k)(i)
  {
    hide Bit, Shr, Pow2;
    Pow2Words();
    SignedView(a);
    Isa.TopBit(ToU32(a), 31);
    if a < 0 {
      NegativeShift(a, k);
      NegativeShiftBit(ToU32(a), k, i);
    } else {
      PositiveShift(a, k);
      RightShiftBit(a, k, i);
    }
  }

  lemma SignShift(a: i32, k: nat)
    requires k < 32
    ensures ToU32(ToI32(a / Pow2(k))) == Isa.OfBits(Isa.ArithmeticBits(ToU32(a), k))
  {
    var v := ToU32(a / Pow2(k));
    UnsignedOfSigned(a / Pow2(k));
    forall i | 0 <= i < 32
      ensures Bit(v, i) == Isa.ArithmeticBits(ToU32(a), k)(i)
    {
      SignShiftBit(a, k, i);
    }
    Pow2Words();
    Isa.FromBitsUnique(v, Isa.ArithmeticBits(ToU32(a), k), 32);
  }

  lemma HighWord(n: nat)
    ensures Shr(n, 32) == n / TWO32
  {
    hide Pow2;
    Pow2Words();
  }

  lemma NegativeShiftBit(ua: u32, k: nat, i: nat)
    requires Bit(ua, 31) && k < 32 && i < 32
    ensures Bit(Shr(ua + (Pow2(k) - 1) * TWO32, k), i) == Bit(ua, if i + k < 32 then i + k else 31)
  {
    hide Pow2, Shr, Bit;
    Pow2Words();
    HighWord(ua + (Pow2(k) - 1) * TWO32);
    var m := Pow2(k) - 1;
    var n := ua + m * TWO32;
    DivModUnique(n, TWO32, m, ua);
    ShrBit(n, k, i);
    ModPow2Bit(n, 32, i + k);
    if i + k >= 32 {
      ShrBit(n, 32, i + k - 32);
      OnesBit(k, i + k - 32);
    }
  }

  // ----- division -----

  lemma NegativeDivisor(a: int, b: int)
    requires b < 0
    ensures a / b == -(a / -b) && a % b == a % -b
  {
    var q, r := a / b, a % b;
    DivModUnique(a, -b, -q, r);
  }

  lemma TruncIsQuotient(a: int, b: int)
    requires b != 0
    ensures TruncDiv(a, b) == Isa.Quotient(a, b)
    ensures TruncRem(a, b) == Isa.Remainder(a, b)
  {
    var n, d := Isa.Abs(a), Isa.Abs(b);
    assert n == (n / d) * d + n % d;
    if b < 0 {
      NegativeDivisor(n, b);
    }
  }
}
