/** Exclusive or on natural numbers is addition in a vector space over GF(2). */
module XorLaws {
  import opened CIntegers

  lemma XorHalves(a: nat, b: nat)
    ensures Xor(a, b) / 2 == Xor(a / 2, b / 2)
    ensures Xor(a, b) % 2 == if a % 2 != b % 2 then 1 else 0
  {}

  lemma SameHalves(x: nat, y: nat)
    requires x / 2 == y / 2 && x % 2 == y % 2
    ensures x == y
  {}

  lemma {:induction false} XorCommutes(a: nat, b: nat)
    ensures Xor(a, b) == Xor(b, a)
    decreases a + b
  {
    if a + b > 0 {
      XorHalves(a, b);
      XorHalves(b, a);
      hide Xor;
      XorCommutes(a / 2, b / 2);
      SameHalves(Xor(a, b), Xor(b, a));
    }
  }

  lemma {:induction false} XorAssociates(a: nat, b: nat, c: nat)
    ensures Xor(Xor(a, b), c) == Xor(a, Xor(b, c))
    decreases a
  {
    if a > 0 {
      XorHalves(a, b);
      XorHalves(Xor(a, b), c);
      XorHalves(b, c);
      XorHalves(a, Xor(b, c));
      hide Xor;
      XorAssociates(a / 2, b / 2, c / 2);
      SameHalves(Xor(Xor(a, b), c), Xor(a, Xor(b, c)));
    }
  }

  lemma {:induction false} XorSelf(a: nat)
    ensures Xor(a, a) == 0
    decreases a
  {
    if a > 0 {
      XorHalves(a, a);
      hide Xor;
      XorSelf(a / 2);
    }
  }

  lemma XorZero(a: nat)
    ensures Xor(a, 0) == a && Xor(0, a) == a
  {
    XorCommutes(a, 0);
  }

  /** Adding twice is adding nothing. */
  lemma XorTwice(a: nat, b: nat)
    ensures Xor(Xor(a, b), b) == a
  {
    XorAssociates(a, b, b);
    XorSelf(b);
    XorZero(a);
  }

  /** Whether v has an odd number of binary ones. */
  predicate OddWeight(v: nat) {
    if v == 0 then false else (v % 2 == 1) != OddWeight(v / 2)
  }

  lemma {:induction false} XorWeight(a: nat, b: nat)
    ensures OddWeight(Xor(a, b)) <==> OddWeight(a) != OddWeight(b)
    decreases a + b
  {
    XorHalves(a, b);
    if a + b > 0 {
      hide Xor;
      XorWeight(a / 2, b / 2);
    }
  }

  /** (a + b) + (c + d) = (a + c) + (b + d) */
  lemma XorInterchange(a: nat, b: nat, c: nat, d: nat)
    ensures Xor(Xor(a, b), Xor(c, d)) == Xor(Xor(a, c), Xor(b, d))
  {
    hide Xor;
    XorAssociates(a, b, Xor(c, d));
    XorAssociates(b, c, d);
    XorCommutes(b, c);
    XorAssociates(c, b, d);
    XorAssociates(a, c, Xor(b, d));
  }

  lemma XorWord(a: u32, b: u32)
    ensures Xor(a, b) < TWO32
  {
    Pow2Words();
    BitwiseBound(a, b, 32);
  }

  lemma EvenHalves(n: nat)
    ensures 2 * n / 2 == n && 2 * n % 2 == 0 && (2 * n + 1) / 2 == n && (2 * n + 1) % 2 == 1
  {}

  lemma XorDouble(a: nat, b: nat)
    ensures Xor(2 * a, 2 * b) == 2 * Xor(a, b)
    ensures Xor(2 * a, 1) == 2 * a + 1
  {
    hide Xor;
    EvenHalves(a);
    EvenHalves(b);
    XorHalves(2 * a, 2 * b);
    XorHalves(2 * a, 1);
    XorZero(a);
    EvenHalves(Xor(a, b));
    SameHalves(Xor(2 * a, 2 * b), 2 * Xor(a, b));
    SameHalves(Xor(2 * a, 1), 2 * a + 1);
  }

  lemma {:induction false} XorShr(a: nat, b: nat, k: nat)
    ensures Shr(Xor(a, b), k) == Xor(Shr(a, k), Shr(b, k))
    decreases k
  {
    if k == 0 {
      assert forall v: nat :: Shr(v, 0) == v;
    } else {
      ShrStep(a, k);
      ShrStep(b, k);
      ShrStep(Xor(a, b), k);
      XorHalves(a, b);
      hide Shr, Xor;
      XorShr(a / 2, b / 2, k - 1);
    }
  }

  /** Multiples of 2^k add block-wise above numbers below 2^k. */
  lemma {:induction false} XorBlocks(s: nat, p: nat, t: nat, q: nat, k: nat)
    requires p < Pow2(k) && q < Pow2(k)
    ensures Xor(s * Pow2(k) + p, t * Pow2(k) + q) == Xor(s, t) * Pow2(k) + Xor(p, q)
    decreases k
  {
    if k == 0 {
      XorZero(0);
    } else {
      XorBlocks(s, p / 2, t, q / 2, k - 1);
      XorBlocksStep(s, p, t, q, Pow2(k - 1));
    }
  }

  lemma XorBlocksStep(s: nat, p: nat, t: nat, q: nat, m: nat)
    requires Xor(s * m + p / 2, t * m + q / 2) == Xor(s, t) * m + Xor(p / 2, q / 2)
    ensures Xor(s * (2 * m) + p, t * (2 * m) + q) == Xor(s, t) * (2 * m) + Xor(p, q)
  {
    hide Xor;
    BlockHalves(s, p, m);
    BlockHalves(t, q, m);
    BlockHalves(Xor(s, t), Xor(p, q), m);
    var x: nat, y: nat, z: nat := s * (2 * m) + p, t * (2 * m) + q, Xor(s, t) * (2 * m) + Xor(p, q);
    XorHalves(x, y);
    XorHalves(p, q);
    SameHalves(Xor(x, y), z);
  }

  lemma BlockHalves(s: nat, p: nat, m: nat)
    ensures 0 <= s * (2 * m) + p
    ensures (s * (2 * m) + p) / 2 == s * m + p / 2 && (s * (2 * m) + p) % 2 == p % 2
  {
    assert s * (2 * m) == 2 * (s * m);
  }
}
