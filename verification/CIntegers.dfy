/** The fixed-width integers of the C program: representable ranges, conversions,
    wrap-around and bitwise operators, with the arithmetic meaning of the latter. */
module CIntegers {

  const TWO31: int := 0x8000_0000
  const TWO32: int := 0x1_0000_0000
  const TWO64: int := 0x1_0000_0000_0000_0000

  type u8 = n: int | 0 <= n < 0x100
  type u32 = n: int | 0 <= n < TWO32
  type i32 = n: int | -TWO31 <= n < TWO31
  type u64 = n: int | 0 <= n < TWO64

  /** Conversion to uint32_t: reduction modulo 2^32. */
  function ToU32(n: int): u32 {
    n % TWO32
  }

  /** Conversion to int32_t, and two's complement wrap-around of a signed result. */
  function ToI32(n: int): i32 {
    (n + TWO31) % TWO32 - TWO31
  }

  /** Wrap-around finds the one representable number congruent to n. */
  lemma ToI32Is(n: int, v: i32, k: int)
    requires n == v + k * TWO32
    ensures ToI32(n) == v
  {
    DivModUnique(n + TWO31, TWO32, k, v + TWO31);
  }

  function Pow2(n: nat): (p: nat)
    ensures p >= 1
  {
    if n == 0 then 1 else 2 * Pow2(n - 1)
  }

  /** Right shift of an unsigned value. */
  function Shr(x: nat, k: nat): nat {
    DivNonNegative(x, Pow2(k));
    x / Pow2(k)
  }

  /** Whether binary digit i of v is set. */
  predicate Bit(v: nat, i: nat)
    decreases i, v
  {
    if i == 0 then v % 2 == 1 else Bit(v / 2, i - 1)
  }

  function And(a: nat, b: nat): nat
    decreases a, b
  {
    if a == 0 then 0 else 2 * And(a / 2, b / 2) + (if a % 2 == 1 && b % 2 == 1 then 1 else 0)
  }

  function Or(a: nat, b: nat): nat
    decreases a, b
  {
    if a == 0 then b else 2 * Or(a / 2, b / 2) + (if a % 2 == 1 || b % 2 == 1 then 1 else 0)
  }

  function Xor(a: nat, b: nat): nat
    decreases a, b
  {
    if a == 0 then b else 2 * Xor(a / 2, b / 2) + (if a % 2 != b % 2 then 1 else 0)
  }

  /** C division and remainder on signed operands: the quotient truncates toward zero. */
  function TruncDiv(a: int, b: int): int
    requires b != 0
  {
    if a >= 0 then a / b else -((-a) / b)
  }

  function TruncRem(a: int, b: int): int
    requires b != 0
  {
    a - b * TruncDiv(a, b)
  }

  // ----- division by a fixed positive number -----

  /** The quotient and remainder of Euclidean division are the only ones. */
  lemma DivModUnique(n: int, d: int, q: int, r: int)
    requires 0 <= r < d && n == q * d + r
    ensures n / d == q && n % d == r
  {
    var e := n / d - q;
    assert e * d == r - n % d;
    if e >= 1 {
      assert false;
    } else if e <= -1 {
      assert false;
    }
  }

  lemma DivNonNegative(x: nat, p: nat)
    requires p > 0
    ensures 0 <= x / p <= x
  {
    var q := x / p;
    if q < 0 {
      Scale(q, -1, p);
      assert false;
    }
    if q > x {
      Scale(x + 1, q, p);
      Scale(1, p, x + 1);
      assert false;
    }
  }

  lemma Scale(x: int, y: int, d: int)
    requires x <= y && 0 <= d
    ensures x * d <= y * d
  {}

  lemma Halving(x: nat, b: nat, p: nat)
    requires p > 0 && b <= 1
    ensures (2 * x + b) / (2 * p) == x / p
    ensures (2 * x + b) % (2 * p) == 2 * (x % p) + b
  {
    var q, r := x / p, x % p;
    assert x == q * p + r;
    assert 2 * x + b == q * (2 * p) + (2 * r + b);
    DivModUnique(2 * x + b, 2 * p, q, 2 * r + b);
  }

  lemma ShrStep(v: nat, k: nat)
    requires k > 0
    ensures Shr(v, k) == Shr(v / 2, k - 1)
  {
    Halving(v / 2, v % 2, Pow2(k - 1));
  }

  /** Dividing by 2^k drops the k lowest binary digits. */
  lemma {:induction false} ShrBit(v: nat, k: nat, i: nat)
    ensures Bit(Shr(v, k), i) == Bit(v, i + k)
    decreases k
  {
    if k > 0 {
      ShrStep(v, k);
      ShrBit(v / 2, k - 1, i);
      hide Shr;
    } else {
      assert Shr(v, 0) == v;
    }
  }

  /** Reducing modulo 2^k keeps the k lowest binary digits. */
  lemma {:induction false} ModPow2Bit(v: nat, k: nat, i: nat)
    ensures Bit(v % Pow2(k), i) == (i < k && Bit(v, i))
    decreases k
  {
    if k == 0 {
      ZeroBit(i);
    } else {
      Halving(v / 2, v % 2, Pow2(k - 1));
      var w := v % Pow2(k);
      assert w / 2 == (v / 2) % Pow2(k - 1) && w % 2 == v % 2;
      if i > 0 {
        ModPow2Bit(v / 2, k - 1, i - 1);
      }
    }
  }

  lemma {:induction false} ZeroBit(i: nat)
    ensures !Bit(0, i)
  {
    if i > 0 {
      ZeroBit(i - 1);
    }
  }

  /** Multiplying by 2^k moves every binary digit up k places. */
  lemma {:induction false} MulPow2Bit(v: nat, k: nat, i: nat)
    ensures Bit(v * Pow2(k), i) == (i >= k && Bit(v, i - k))
    decreases k
  {
    if k > 0 {
      assert v * Pow2(k) == 2 * (v * Pow2(k - 1));
      if i > 0 {
        MulPow2Bit(v, k - 1, i - 1);
      }
    }
  }

  // ----- bitwise operators -----

  lemma {:induction false} AndBit(a: nat, b: nat, i: nat)
    ensures Bit(And(a, b), i) == (Bit(a, i) && Bit(b, i))
    decreases i
  {
    if a == 0 {
      ZeroBit(i);
    } else if i > 0 {
      AndBit(a / 2, b / 2, i - 1);
    }
  }

  lemma {:induction false} OrBit(a: nat, b: nat, i: nat)
    ensures Bit(Or(a, b), i) == (Bit(a, i) || Bit(b, i))
    decreases i
  {
    if a == 0 {
      ZeroBit(i);
    } else if i > 0 {
      OrBit(a / 2, b / 2, i - 1);
    }
  }

  lemma {:induction false} XorBit(a: nat, b: nat, i: nat)
    ensures Bit(Xor(a, b), i) == (Bit(a, i) != Bit(b, i))
    decreases i
  {
    if a == 0 {
      ZeroBit(i);
    } else if i > 0 {
      XorBit(a / 2, b / 2, i - 1);
    }
  }

  lemma {:induction false} BitwiseBound(a: nat, b: nat, k: nat)
    requires a < Pow2(k) && b < Pow2(k)
    ensures And(a, b) < Pow2(k) && Or(a, b) < Pow2(k) && Xor(a, b) < Pow2(k)
  {
    if k > 0 && a != 0 {
      BitwiseBound(a / 2, b / 2, k - 1);
    }
  }

  /** Masking with 2^k - 1 is reduction modulo 2^k. */
  lemma {:induction false} AndMask(x: nat, k: nat)
    ensures And(x, Pow2(k) - 1) == x % Pow2(k)
    decreases k
  {
    if x == 0 {
      assert 0 % Pow2(k) == 0 by { DivModUnique(0, Pow2(k), 0, 0); }
    } else if k == 0 {
      AndZero(x);
    } else {
      AndMask(x / 2, k - 1);
      var m := Pow2(k - 1) - 1;
      assert Pow2(k) - 1 == 2 * m + 1;
      AndOdd(x, m);
      Halving(x / 2, x % 2, Pow2(k - 1));
    }
  }

  lemma {:induction false} Pow2Add(a: nat, b: nat)
    ensures Pow2(a + b) == Pow2(a) * Pow2(b)
  {
    if a > 0 {
      Pow2Add(a - 1, b);
      assert Pow2(a) * Pow2(b) == 2 * (Pow2(a - 1) * Pow2(b));
    }
  }

  lemma Pow2Words()
    ensures Pow2(8) == 0x100 && Pow2(31) == TWO31 && Pow2(32) == TWO32 && Pow2(64) == TWO64
  {
    assert Pow2(8) == 0x100;
    assert Pow2(32) == 2 * Pow2(31);
    Pow2Add(8, 8);
    Pow2Add(16, 16);
    Pow2Add(32, 32);
  }

  lemma AndWord(x: nat)
    ensures And(x, 0xffff_ffff) == x % TWO32
  {
    Pow2Words();
    AndMask(x, 32);
  }

  lemma AndOdd(x: nat, m: nat)
    ensures And(x, 2 * m + 1) == 2 * And(x / 2, m) + x % 2
  {
    assert (2 * m + 1) / 2 == m && (2 * m + 1) % 2 == 1;
  }

  lemma AndEven(x: nat, m: nat)
    ensures And(x, 2 * m) == 2 * And(x / 2, m)
  {
    assert (2 * m) / 2 == m && (2 * m) % 2 == 0;
  }

  lemma {:induction false} AndZero(x: nat)
    ensures And(x, 0) == 0
    decreases x
  {
    if x != 0 {
      AndZero(x / 2);
    }
  }

  /** Masking with a multiple of 2^k clears the k lowest binary digits. */
  lemma {:induction false} AndHigh(x: nat, h: nat, k: nat)
    ensures And(x, h * Pow2(k)) == And(Shr(x, k), h) * Pow2(k)
    decreases k
  {
    if k == 0 {
      assert Shr(x, 0) == x;
    } else {
      hide And;
      ShrStep(x, k);
      hide Shr;
      AndHigh(x / 2, h, k - 1);
      var p := Pow2(k - 1);
      assert Pow2(k) == 2 * p;
      hide Pow2;
      Regroup(h, p);
      AndEven(x, h * p);
      Regroup(And(Shr(x, k), h), p);
    }
  }

  lemma Regroup(x: int, p: int)
    ensures x * (2 * p) == 2 * (x * p)
  {}

  /** Or joins digit strings that do not overlap, so there it is addition. */
  lemma {:induction false} OrDisjoint(a: nat, h: nat, k: nat)
    requires a < Pow2(k)
    ensures Or(a, h * Pow2(k)) == a + h * Pow2(k)
    decreases k
  {
    if a != 0 && k > 0 {
      assert h * Pow2(k) == 2 * (h * Pow2(k - 1));
      OrDisjoint(a / 2, h, k - 1);
    }
  }
}
