/** What the multiplication and division results mean, operand by operand. */
module MulDiv {
  import opened CIntegers
  import opened Fields
  import opened Machine
  import Alu
  import Isa

  /** The decoded word is the register operation k. */
  predicate Is(m: Riscv, k: Isa.OpKind) {
    m.sel == Isa.OpFunct3(k) && m.special == Isa.OpFunct7(k)
  }

  // ----- division -----

  /** Quotient and remainder as section 7.2 of the ISA manual relates them. */
  predicate DividesSigned(a: int, b: int, q: int, r: int) {
    a == q * b + r && Isa.Abs(r) < Isa.Abs(b) && (r == 0 || (r < 0 <==> a < 0))
  }

  lemma SignedDivisionUnique(a: int, b: int, q: int, r: int, q': int, r': int)
    requires DividesSigned(a, b, q, r) && DividesSigned(a, b, q', r')
    ensures q == q' && r == r'
  {
    var e := q - q';
    assert e * b == q * b - q' * b == r' - r;
    RemaindersClose(a, b, r, r');
    hide DividesSigned;
    if e >= 1 {
      Larger(e, b);
    } else if e <= -1 {
      Larger(-e, b);
    }
  }

  lemma RemaindersClose(a: int, b: int, r: int, r': int)
    requires Isa.Abs(r) < Isa.Abs(b) && (r == 0 || (r < 0 <==> a < 0))
    requires Isa.Abs(r') < Isa.Abs(b) && (r' == 0 || (r' < 0 <==> a < 0))
    ensures Isa.Abs(r' - r) < Isa.Abs(b)
  {}

  lemma Larger(e: int, b: int)
    requires e >= 1
    ensures Isa.Abs(e * b) >= Isa.Abs(b)
    ensures Isa.Abs(-e * b) >= Isa.Abs(b)
  {
    assert -e * b == -(e * b);
    if b >= 0 {
      Scale(1, e, b);
    } else {
      Scale(1, e, -b);
      assert e * -b == -(e * b);
    }
  }

  lemma TruncatedDivides(a: int, b: int)
    requires b != 0
    ensures DividesSigned(a, b, TruncDiv(a, b), TruncRem(a, b))
  {
    var n := Isa.Abs(a);
    var q, r := n / b, n % b;
    assert n == q * b + r;
    if a < 0 {
      assert a == (-q) * b - r;
      assert b * (-q) == -(b * q);
    }
  }

  /** On every defined input DIV and REM give the truncated quotient and its remainder, which are the
      only numbers related to the operands as the manual demands; on the others both are undefined. */
  lemma DivRem(div: Riscv, rem: Riscv, a: i32, b: i32)
    requires Is(div, Isa.DIV) && Is(rem, Isa.REM)
    ensures OpValue(div, a, b).Value? <==> b != 0 && !(a == -TWO31 && b == -1)
    ensures OpValue(rem, a, b).Value? <==> OpValue(div, a, b).Value?
    ensures OpValue(div, a, b).Value? ==>
      var q, r := OpValue(div, a, b).v, OpValue(rem, a, b).v;
      && DividesSigned(a, b, q, r)
      && forall q', r' :: DividesSigned(a, b, q', r') ==> q' == q && r' == r
  {
    hide And, Or, Xor, Shr, Pow2;
    if DivisionDefined(a, b) {
      var q, r := TruncDiv(a, b), TruncRem(a, b);
      TruncatedDivides(a, b);
      QuotientFits(a, b);
      hide TruncDiv, TruncRem;
      ToI32Is(q, q, 0);
      ToI32Is(r, r, 0);
      hide ToI32, DividesSigned;
      forall q', r' | DividesSigned(a, b, q', r')
        ensures q' == q && r' == r
      {
        SignedDivisionUnique(a, b, q', r', q, r);
      }
    }
  }

  lemma QuotientFits(a: i32, b: i32)
    requires DivisionDefined(a, b)
    ensures -TWO31 <= TruncDiv(a, b) < TWO31 && -TWO31 <= TruncRem(a, b) < TWO31
  {
    var n, d := Isa.Abs(a), Isa.Abs(b);
    Alu.TruncIsQuotient(a, b);
    hide TruncDiv, TruncRem;
    DivNonNegative(n, d);
    assert n == (n / d) * d + n % d;
    if d >= 2 {
      Scale(2, d, n / d);
    }
  }

  /** DIVU and REMU: the Euclidean quotient and remainder, undefined exactly for a zero divisor. */
  lemma DivuRemu(div: Riscv, rem: Riscv, a: i32, b: i32)
    requires Is(div, Isa.DIVU) && Is(rem, Isa.REMU)
    ensures OpValue(div, a, b).Value? <==> b != 0
    ensures OpValue(rem, a, b).Value? <==> b != 0
    ensures b != 0 ==>
      var q, r := ToU32(OpValue(div, a, b).v), ToU32(OpValue(rem, a, b).v);
      ToU32(a) == q * ToU32(b) + r && r < ToU32(b)
  {
    UnsignedQuotient(div, a, b);
    UnsignedRemainder(rem, a, b);
    Alu.SignedView(b);
    hide OpValue, ToU32;
  }

  lemma UnsignedQuotient(div: Riscv, a: i32, b: i32)
    requires Is(div, Isa.DIVU)
    ensures OpValue(div, a, b).Value? <==> ToU32(b) != 0
    ensures ToU32(b) != 0 ==> ToU32(OpValue(div, a, b).v) == ToU32(a) / ToU32(b)
  {
    hide And, Or, Xor, Shr, Pow2, ToI32, TruncDiv, TruncRem, DivisionDefined;
    if ToU32(b) != 0 {
      DivNonNegative(ToU32(a), ToU32(b));
      Alu.Narrow(ToU32(a) / ToU32(b));
    }
  }

  lemma UnsignedRemainder(rem: Riscv, a: i32, b: i32)
    requires Is(rem, Isa.REMU)
    ensures OpValue(rem, a, b).Value? <==> ToU32(b) != 0
    ensures ToU32(b) != 0 ==> ToU32(OpValue(rem, a, b).v) == ToU32(a) % ToU32(b)
  {
    hide And, Or, Xor, Shr, Pow2, ToI32, TruncDiv, TruncRem, DivisionDefined;
    if ToU32(b) != 0 {
      Alu.Narrow(ToU32(a) % ToU32(b));
    }
  }

  // ----- wide multiplication -----

  lemma Halves(t: int)
    ensures t == (t / TWO32) * TWO32 + t % TWO32
  {}

  /** MULH above MUL is the exact signed 64-bit product. */
  lemma SignedProduct(high: Riscv, low: Riscv, a: i32, b: i32)
    requires Is(high, Isa.MULH) && Is(low, Isa.MUL)
    ensures OpValue(high, a, b).Value? && OpValue(low, a, b).Value?
    ensures OpValue(high, a, b).v * TWO32 + ToU32(OpValue(low, a, b).v) == a * b
  {
    hide And, Or, Xor, Shr, Pow2;
    var t := a * b;
    ProductBound(a, b);
    Alu.UnsignedOfSigned(t);
    Halves(t);
    ToI32Is(t / TWO32, t / TWO32, 0);
    hide ToI32;
  }

  lemma ProductBound(a: i32, b: i32)
    ensures -TWO31 * TWO31 <= a * b <= TWO31 * TWO31
    ensures -TWO31 <= a * b / TWO32 < TWO31
  {
    var x: int, y: int := Isa.Abs(a), Isa.Abs(b);
    Scale(x, TWO31, y);
    Scale(y, TWO31, TWO31);
    assert a * b == x * y || a * b == -(x * y);
    assert 0 <= x * y;
  }

  /** MULHU above MUL is the exact unsigned 64-bit product. */
  lemma UnsignedProduct(high: Riscv, low: Riscv, a: i32, b: i32)
    requires Is(high, Isa.MULHU) && Is(low, Isa.MUL)
    ensures OpValue(high, a, b).Value? && OpValue(low, a, b).Value?
    ensures ToU32(OpValue(high, a, b).v) * TWO32 + ToU32(OpValue(low, a, b).v) == ToU32(a) * ToU32(b)
  {
    hide And, Or, Xor, Shr, Pow2;
    var t := ToU32(a) * ToU32(b);
    UnsignedBound(ToU32(a), ToU32(b));
    Alu.Product(a, b);
    Halves(t);
    Alu.Narrow(t / TWO32);
    hide ToI32;
  }

  lemma UnsignedBound(x: u32, y: u32)
    ensures 0 <= x * y / TWO32 < TWO32
  {
    Scale(x, TWO32 - 1, y);
    Scale(y, TWO32 - 1, TWO32 - 1);
    Scale(0, x, y);
  }

  /** The two high words differ by the sign corrections, modulo 2^32. */
  lemma HighWordsDiffer(signed: Riscv, unsigned: Riscv, a: i32, b: i32)
    requires Is(signed, Isa.MULH) && Is(unsigned, Isa.MULHU)
    ensures OpValue(signed, a, b).Value? && OpValue(unsigned, a, b).Value?
    ensures var correction := (if a < 0 then ToU32(b) else 0) + (if b < 0 then ToU32(a) else 0);
      ToU32(OpValue(unsigned, a, b).v) == ToU32(ToU32(OpValue(signed, a, b).v) + correction)
  {
    hide And, Or, Xor, Shr, Pow2;
    var ua, ub := ToU32(a), ToU32(b);
    Alu.SignedView(a);
    Alu.SignedView(b);
    Alu.UnsignedOfSigned(a * b / TWO32);
    Alu.UnsignedOfSigned(ua * ub / TWO32);
    var j, k := if a < 0 then 1 else 0, if b < 0 then 1 else 0;
    CorrectedProduct(a, b, ua, ub, j, k);
    hide ToI32, ToU32;
    var d := j * ub + k * ua;
    Shifted(a * b / TWO32, d - j * k * TWO32);
    Reduced(a * b / TWO32, d, j * k);
  }

  lemma CorrectedProduct(a: int, b: int, ua: int, ub: int, j: int, k: int)
    requires ua == a + j * TWO32 && ub == b + k * TWO32
    ensures ua * ub / TWO32 == a * b / TWO32 + j * ub + k * ua - j * k * TWO32
  {
    assert ua * ub == a * b + (j * ub + k * ua - j * k * TWO32) * TWO32;
    DivModUnique(ua * ub, TWO32, a * b / TWO32 + (j * ub + k * ua - j * k * TWO32), a * b % TWO32);
  }

  lemma Shifted(n: int, d: int)
    ensures (n + d) % TWO32 == (n % TWO32 + d) % TWO32
  {
    DivModUnique(n + d, TWO32, n / TWO32 + (n % TWO32 + d) / TWO32, (n % TWO32 + d) % TWO32);
  }

  lemma Reduced(n: int, d: int, m: int)
    ensures (n % TWO32 + (d - m * TWO32)) % TWO32 == (n % TWO32 + d) % TWO32
  {
    var x := n % TWO32 + d;
    DivModUnique(x - m * TWO32, TWO32, x / TWO32 - m, x % TWO32);
  }
}
