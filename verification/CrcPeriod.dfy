/** The period of the checksum register, and with it exactly which pairs of flipped bits it misses. */
module CrcPeriod {
  import opened CIntegers
  import opened Ram
  import opened Crc
  import opened CrcTheorems
  import opened CrcWords
  import opened Periods
  import opened Mersenne

  // ----- the powers of x by repeated squaring -----

  /** w is x^(2^k) modulo the generator. */
  predicate Reaches(w: bv32, k: nat) {
    Register(w) == ShiftN(ONE, Pow2(k))
  }

  lemma SquareDoubles(w: bv32, m: nat)
    requires Register(w) == ShiftN(ONE, m)
    ensures Register(Square(w)) == ShiftN(ONE, m + m)
  {
    SquareSpreads(w);
    ActTwice(w, ONE, 32);
    ActShiftN(w, ONE, m, 32);
    ShiftNAdd(ONE, m, m);
    hide Act, Spread, Square, ShiftN;
  }

  lemma NextPower2(k: nat)
    ensures Pow2(k + 1) == Pow2(k) + Pow2(k)
  {}

  lemma Squares(w: bv32, v: bv32, k: nat)
    requires Reaches(w, k) && Square(w) == v
    ensures Reaches(v, k + 1)
  {
    hide Register, Square, ShiftN, Pow2;
    NextPower2(k);
    SquareDoubles(w, Pow2(k));
  }

  lemma FirstPower()
    ensures Reaches(2, 0)
  {
    assert Only(2, 1) by {
      assert Only(1, 0);
    }
    assert Pow2(0) == 1;
    hide Act;
    ActOnly(2, ONE, 1, 32);
  }

  lemma Powers0To4()
    ensures Reaches(0x1_0000, 4)
  {
    hide Reaches;
    FirstPower();
    Squares(0x2, 0x4, 0);
    Squares(0x4, 0x10, 1);
    Squares(0x10, 0x100, 2);
    Squares(0x100, 0x1_0000, 3);
  }

  lemma Powers4To8()
    ensures Reaches(0x59a3_508a, 8)
  {
    hide Reaches;
    Powers0To4();
    Squares(0x1_0000, 0x1edc_6f41, 4);
    Squares(0x1edc_6f41, 0x3aab_4576, 5);
    Squares(0x3aab_4576, 0x1857_1d18, 6);
    Squares(0x1857_1d18, 0x59a3_508a, 7);
  }

  lemma Powers8To12()
    ensures Reaches(0x2506_c32e, 12)
  {
    hide Reaches;
    Powers4To8();
    Squares(0x59a3_508a, 0xaa97_d41d, 8);
    Squares(0xaa97_d41d, 0xe78d_bf1d, 9);
    Squares(0xe78d_bf1d, 0x4ef6_a711, 10);
    Squares(0x4ef6_a711, 0x2506_c32e, 11);
  }

  lemma Powers12To16()
    ensures Reaches(0x26a8_6214, 16)
  {
    hide Reaches;
    Powers8To12();
    Squares(0x2506_c32e, 0x68d4_e827, 12);
    Squares(0x68d4_e827, 0x546e_a6b0, 13);
    Squares(0x546e_a6b0, 0x465c_ebac, 14);
    Squares(0x465c_ebac, 0x26a8_6214, 15);
  }

  lemma Powers16To20()
    ensures Reaches(0xd086_629f, 20)
  {
    hide Reaches;
    Powers12To16();
    Squares(0x26a8_6214, 0x964a_a2fd, 16);
    Squares(0x964a_a2fd, 0x3b4c_5747, 17);
    Squares(0x3b4c_5747, 0x6702_ee7f, 18);
    Squares(0x6702_ee7f, 0xd086_629f, 19);
  }

  lemma Powers20To24()
    ensures Reaches(0x90ca_b2ce, 24)
  {
    hide Reaches;
    Powers16To20();
    Squares(0xd086_629f, 0xf1f2_043c, 20);
    Squares(0xf1f2_043c, 0xc761_a1ca, 21);
    Squares(0xc761_a1ca, 0xa896_4e9a, 22);
    Squares(0xa896_4e9a, 0x90ca_b2ce, 23);
  }

  lemma Powers24To28()
    ensures Reaches(0x3d95_3297, 28)
  {
    hide Reaches;
    Powers20To24();
    Squares(0x90ca_b2ce, 0xc6e3_583d, 24);
    Squares(0xc6e3_583d, 0x3344_e0be, 25);
    Squares(0x3344_e0be, 0x7d53_914b, 26);
    Squares(0x7d53_914b, 0x3d95_3297, 27);
  }

  lemma Powers28To31()
    ensures Reaches(0x2, 31)
  {
    hide Reaches;
    Powers24To28();
    Squares(0x3d95_3297, 0xfcf2_eda0, 28);
    Squares(0xfcf2_eda0, 0x42f8_78a5, 29);
    Squares(0x42f8_78a5, 0x2, 30);
  }

  // ----- the period -----

  lemma ShiftNOne(c: u32)
    ensures ShiftN(c, 1) == Shift(c)
  {
    assert ShiftN(Shift(c), 0) == Shift(c);
  }

  /** x^(2^31 - 1) is 1. */
  lemma PeriodOfOne()
    ensures ShiftN(ONE, MERSENNE) == ONE
  {
    Powers28To31();
    FirstPower();
    Pow2Words();
    assert Pow2(0) == 1;
    hide Register, ShiftN, Shift, Pow2;
    ShiftNAdd(ONE, MERSENNE, 1);
    ShiftNInjective(ShiftN(ONE, MERSENNE), ONE, 1);
  }

  /** After 2^31 - 1 shifts every register is back where it was. */
  lemma {:induction false} PeriodOfShift(c: u32)
    ensures ShiftN(c, MERSENNE) == c
    decreases c
  {
    hide ShiftN, Shift, Plus;
    if c == 0 {
      ShiftNZero(MERSENNE);
    } else if c == 1 {
      PeriodOfOne();
      OneDown();
      ShiftNAdd(ONE, MERSENNE, 31);
      ShiftNAdd(ONE, 31, MERSENNE);
    } else if c % 2 == 0 {
      PeriodOfShift(c / 2);
      PeriodOfEven(c);
    } else {
      PeriodOfShift(c - 1);
      PeriodOfShift(1);
      ShiftNLinear(c - 1, 1, MERSENNE);
      EvenPlusOne(c);
    }
  }

  lemma PeriodOfEven(c: u32)
    requires c % 2 == 0 && ShiftN(c / 2, MERSENNE) == c / 2
    ensures ShiftN(c, MERSENNE) == c
  {
    ShiftIs(c);
    ShiftNOne(c);
    hide ShiftN, Shift;
    ShiftNAdd(c, MERSENNE, 1);
    ShiftNAdd(c, 1, MERSENNE);
    ShiftNInjective(ShiftN(c, MERSENNE), c, 1);
  }

  lemma EvenPlusOne(c: u32)
    requires c % 2 == 1
    ensures Plus(c - 1, 1) == c
  {
    PlusHalves(c - 1, 1);
    hide Plus;
    PlusLaws(c / 2, 0, 0, 0);
  }

  lemma {:induction false} ShiftNIsIterate(c: u32, n: nat)
    ensures Iterate(Shift, n, c) == ShiftN(c, n)
    decreases n
  {
    hide Shift;
    if n > 0 {
      ShiftNIsIterate(Shift(c), n - 1);
    }
  }

  /** The register 1 comes back exactly at the multiples of 2^31 - 1. */
  lemma ReturnsIff(d: nat)
    ensures ShiftN(1, d) == 1 <==> d % MERSENNE == 0
  {
    hide ShiftN, Iterate, Prime;
    MersennePrime();
    PeriodOfShift(1);
    ShiftNIsIterate(1, MERSENNE);
    ShiftNIsIterate(1, d);
    ShiftOne();
    PrimePeriod(Shift, MERSENNE, d, 1);
  }

  // ----- two flipped bits -----

  /** l has exactly the two ones i and j. */
  predicate TwoOnes(l: seq<bool>, i: nat, j: nat) {
    i < j < |l| && forall k :: 0 <= k < |l| ==> (l[k] <==> k == i || k == j)
  }

  lemma FeedOne(c: u32)
    ensures Feed(c, [true]) == Shift(Plus(c, 1))
  {
    var d := Shift(Plus(c, 1));
    assert [true][1..] == [];
    assert Feed(d, []) == d;
  }

  /** A one after zeros: the register is shifted and 1 added to it. */
  lemma FeedRun(c: u32, l: seq<bool>)
    requires l != [] && l[|l| - 1] && forall k :: 0 <= k < |l| - 1 ==> !l[k]
    ensures Feed(c, l) == Shift(Plus(ShiftN(c, |l| - 1), 1))
  {
    hide Feed, Shift, Plus;
    var n := |l| - 1;
    assert l == l[..n] + [true];
    FeedConcat(c, l[..n], [true]);
    FeedFalse(c, l[..n]);
    FeedOne(ShiftN(c, n));
  }

  lemma TwoOnesVanish(l: seq<bool>, i: nat, j: nat)
    requires TwoOnes(l, i, j)
    ensures Feed(0, l) == 0 <==> (j - i) % MERSENNE == 0
  {
    hide Feed, Shift, Plus, ShiftN;
    var head, middle, tail := l[..i + 1], l[i + 1..j + 1], l[j + 1..];
    assert l == head + (middle + tail);
    FeedConcat(0, head, middle + tail);
    FeedConcat(Feed(0, head), middle, tail);
    FeedRun(0, head);
    ShiftNZero(i);
    PlusLaws(1, 0, 0, 0);
    FeedRun(Shift(1), middle);
    var c := ShiftN(1, j - i);
    ShiftNAdd(1, 1, j - i - 1);
    ShiftNOne(1);
    FeedFalse(Shift(Plus(c, 1)), tail);
    ShiftNOne(Plus(c, 1));
    NonZeroShift(Plus(c, 1), 1);
    NonZeroShift(Shift(Plus(c, 1)), |tail|);
    ShiftNZero(1);
    ShiftNZero(|tail|);
    PlusLaws(c, 1, 0, 0);
    PlusLaws(1, 1, 0, 0);
    ReturnsIff(j - i);
  }

  /** Two flipped bits change the checksum of a buffer of any length unless their distance is a multiple
      of 2^31 - 1, and then they never do. */
  lemma TwoErrors(a: seq<u8>, b: seq<u8>, i: nat, j: nat)
    requires |a| == |b| && TwoOnes(XorBools(AllBits(a), AllBits(b)), i, j)
    ensures Crc32(a) == Crc32(b) <==> (j - i) % MERSENNE == 0
  {
    hide Crc32, Plus, Feed, AllBits, XorBools, TwoOnes;
    ChecksumDifference(a, b);
    TwoOnesVanish(XorBools(AllBits(a), AllBits(b)), i, j);
    PlusLaws(Crc32(a), Crc32(a), 0, 0);
    PlusLaws(Crc32(a), Crc32(b), 0, 0);
    PlusLaws(Crc32(b), 0, 0, 0);
  }

  // ----- a pair that goes unnoticed -----

  lemma {:induction false} AllBitsAt(buf: seq<u8>, p: nat, k: nat)
    requires p < |buf| && k < 8
    ensures AllBits(buf)[8 * p + k] == BitsOf(buf[p], 8)[k]
    decreases p
  {
    hide BitsOf;
    if p > 0 {
      AllBitsAt(buf[1..], p - 1, k);
    }
  }

  function FlipLowest(b: u8): u8 { if b % 2 == 0 then b + 1 else b - 1 }

  function FlipHighest(b: u8): u8 { if b < 0x80 then b + 0x80 else b - 0x80 }

  lemma LowestFlipped(b: u8)
    ensures forall k :: 0 <= k < 8 ==> (BitsOf(FlipLowest(b), 8)[k] != BitsOf(b, 8)[k] <==> k == 0)
  {
    var c := FlipLowest(b);
    assert b / 2 == c / 2;
    assert BitsOf(b, 8) == [b % 2 == 1] + BitsOf(b / 2, 7);
    assert BitsOf(c, 8) == [c % 2 == 1] + BitsOf(c / 2, 7);
  }

  lemma HighestFlipped(b: u8)
    ensures forall k :: 0 <= k < 8 ==> (BitsOf(FlipHighest(b), 8)[k] != BitsOf(b, 8)[k] <==> k == 7)
  {
    hide BitsOf;
    var c := FlipHighest(b);
    TopDigit(b);
    TopDigit(c);
    assert b % 0x80 == c % 0x80;
    var low := BitsOf(b % 0x80, 7);
    assert BitsOf(b, 8) == low + [b >= 0x80] && BitsOf(c, 8) == low + [b < 0x80];
  }

  lemma TopDigit(b: u8)
    ensures BitsOf(b, 8) == BitsOf(b % 0x80, 7) + [b >= 0x80]
  {
    assert Pow2(7) == 0x80;
    BitsOfSplit(b, 7, 1);
    BitsOfMod(b, 7);
    assert BitsOf(b / 0x80, 0) == [];
    assert BitsOf(b / 0x80, 1) == [b / 0x80 % 2 == 1];
  }

  /** The byte that holds bit 2^31 - 1. */
  const LAST: nat := 0xfff_ffff

  function Flipped(m: Memory): Memory {
    m[0 := FlipLowest(m[0])][LAST := FlipHighest(m[LAST])]
  }

  lemma FlippedBits(m: Memory)
    ensures TwoOnes(XorBools(AllBits(m), AllBits(Flipped(m))), 0, MERSENNE)
  {
    var n := Flipped(m);
    hide AllBits, BitsOf, FlipLowest, FlipHighest;
    LowestFlipped(m[0]);
    HighestFlipped(m[LAST]);
    forall q | 0 <= q < 8 * RAM_SIZE
      ensures AllBits(m)[q] != AllBits(n)[q] <==> q == 0 || q == MERSENNE
    {
      var p, k := q / 8, q % 8;
      AllBitsAt(m, p, k);
      AllBitsAt(n, p, k);
    }
  }

  /** Whatever the 4 GB memory holds, flipping its bits 0 and 2^31 - 1 leaves its checksum as it was. */
  lemma FlipGoesUnnoticed(m: Memory)
    ensures Flipped(m) != m && Crc32(Flipped(m)) == Crc32(m)
  {
    FlippedBits(m);
    hide AllBits, Crc32, XorBools, TwoOnes;
    DivModUnique(MERSENNE, MERSENNE, 1, 0);
    TwoErrors(m, Flipped(m), 0, MERSENNE);
    assert Flipped(m)[0] != m[0];
  }
}
