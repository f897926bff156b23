/** The checksum one bit at a time, and the error-detection theorems that follow from it. */
module CrcTheorems {
  import opened CIntegers
  import opened Ram
  import opened XorLaws
  import opened Crc

  // ----- bit strings, lowest bit first -----

  function Digit(b: bool): u32 { if b then 1 else 0 }

  /** The n lowest binary digits of v. */
  function BitsOf(v: nat, n: nat): (l: seq<bool>)
    ensures |l| == n
  {
    if n == 0 then [] else [v % 2 == 1] + BitsOf(v / 2, n - 1)
  }

  /** The number with these binary digits. */
  function Pack(l: seq<bool>): nat {
    if l == [] then 0 else Digit(l[0]) + 2 * Pack(l[1..])
  }

  /** The bits of a buffer in the order the checksum consumes them. */
  function AllBits(buf: seq<u8>): (l: seq<bool>)
    ensures |l| == 8 * |buf|
  {
    if buf == [] then [] else BitsOf(buf[0], 8) + AllBits(buf[1..])
  }

  lemma {:induction false} PackBitsOf(v: nat, n: nat)
    requires v < Pow2(n)
    ensures Pack(BitsOf(v, n)) == v
  {
    if n > 0 {
      PackBitsOf(v / 2, n - 1);
    }
  }

  lemma {:induction false} PackBound(l: seq<bool>)
    ensures Pack(l) < Pow2(|l|)
  {
    if l != [] {
      PackBound(l[1..]);
    }
  }

  lemma {:induction false} PackZero(l: seq<bool>)
    requires Pack(l) == 0
    ensures forall i :: 0 <= i < |l| ==> !l[i]
  {
    if l != [] {
      PackZero(l[1..]);
      assert forall i :: 0 < i < |l| ==> l[i] == l[1..][i - 1];
    }
  }

  // ----- the bit-serial register -----

  /** The register after consuming single bits. */
  function Feed(c: u32, l: seq<bool>): u32
    decreases |l|
  {
    if l == [] then c else Feed(Shift(Plus(c, Digit(l[0]))), l[1..])
  }

  lemma {:induction false} FeedConcat(c: u32, a: seq<bool>, b: seq<bool>)
    ensures Feed(c, a + b) == Feed(Feed(c, a), b)
    decreases |a|
  {
    hide Shift, Plus;
    if a == [] {
      assert a + b == b;
    } else {
      assert (a + b)[1..] == a[1..] + b;
      FeedConcat(Shift(Plus(c, Digit(a[0]))), a[1..], b);
    }
  }

  /** Up to 32 bits may be added to the register all at once, before shifting. */
  lemma {:induction false} FeedShort(c: u32, l: seq<bool>)
    requires |l| <= 32
    ensures Pack(l) < TWO32 && Feed(c, l) == ShiftN(Plus(c, Pack(l)), |l|)
    decreases |l|
  {
    PackWord(l);
    hide Shift, Plus;
    if l == [] {
      PlusLaws(c, 0, 0, 0);
    } else {
      var v: u32, w: u32 := Pack(l), Pack(l[1..]);
      assert v % 2 == Digit(l[0]) && v / 2 == w;
      FeedShort(Shift(Plus(c, Digit(l[0]))), l[1..]);
      ShiftSplit(c, v);
    }
  }

  lemma PackWord(l: seq<bool>)
    requires |l| <= 32
    ensures Pack(l) < TWO32
    ensures l != [] ==> Pack(l[1..]) < TWO32
  {
    PackBound(l);
    Pow2Words();
    Pow2Grows(|l|, 32);
    hide Pow2;
  }

  lemma {:induction false} Pow2Grows(m: nat, n: nat)
    requires m <= n
    ensures Pow2(m) <= Pow2(n)
    decreases n - m
  {
    if m < n {
      Pow2Grows(m + 1, n);
    }
  }

  lemma ByteIsSerial(c: u32, b: u8)
    ensures Byte(c, b) == Feed(c, BitsOf(b, 8))
  {
    assert Pow2(8) == 0x100;
    PackBitsOf(b, 8);
    hide Pack, Feed, ShiftN, Plus, Pow2;
    FeedShort(c, BitsOf(b, 8));
  }

  /** The byte loop is the bit-serial register. */
  lemma {:induction false} UpdateIsSerial(c: u32, buf: seq<u8>)
    ensures Update(c, buf) == Feed(c, AllBits(buf))
    decreases |buf|
  {
    if buf != [] {
      UpdateStep(c, buf);
      ByteIsSerial(c, buf[0]);
      hide Update, Feed, Byte, BitsOf;
      FeedConcat(c, BitsOf(buf[0], 8), AllBits(buf[1..]));
      UpdateIsSerial(Byte(c, buf[0]), buf[1..]);
    } else {
      assert Feed(c, []) == c;
    }
  }

  function XorBools(a: seq<bool>, b: seq<bool>): (r: seq<bool>)
    requires |a| == |b|
    ensures |r| == |a|
  {
    seq(|a|, i requires 0 <= i < |a| => a[i] != b[i])
  }

  lemma DigitXor(a: bool, b: bool)
    ensures Plus(Digit(a), Digit(b)) == Digit(a != b)
  {
    PlusLaws(1, 1, 0, 0);
    PlusLaws(0, 0, 0, 0);
    hide Plus;
  }

  lemma {:induction false} FeedLinear(c: u32, d: u32, a: seq<bool>, b: seq<bool>)
    requires |a| == |b|
    ensures Feed(Plus(c, d), XorBools(a, b)) == Plus(Feed(c, a), Feed(d, b))
    decreases |a|
  {
    hide Shift, Plus;
    if a != [] {
      var ab := XorBools(a, b);
      assert ab[1..] == XorBools(a[1..], b[1..]);
      var x, y := Digit(a[0]), Digit(b[0]);
      DigitXor(a[0], b[0]);
      PlusLaws(c, d, x, y);
      ShiftLinear(Plus(c, x), Plus(d, y));
      FeedLinear(Shift(Plus(c, x)), Shift(Plus(d, y)), a[1..], b[1..]);
    }
  }

  // ----- burst errors -----

  lemma {:induction false} FeedFalse(c: u32, l: seq<bool>)
    requires forall i :: 0 <= i < |l| ==> !l[i]
    ensures Feed(c, l) == ShiftN(c, |l|)
    decreases |l|
  {
    hide Shift, Plus;
    if l != [] {
      PlusLaws(c, 0, 0, 0);
      FeedFalse(Shift(c), l[1..]);
    }
  }

  /** A non-zero bit string whose ones all lie in 32 consecutive places leaves a non-zero register. */
  lemma BurstLeavesTrace(e: seq<bool>, start: nat, i: nat)
    requires i < |e| && e[i]
    requires forall j :: 0 <= j < |e| && e[j] ==> start <= j < start + 32
    ensures Feed(0, e) != 0
  {
    var stop := if start + 32 <= |e| then start + 32 else |e|;
    var head, burst, tail := e[..start], e[start..stop], e[stop..];
    assert e == head + (burst + tail);
    assert burst[i - start];
    FeedConcat(0, head, burst + tail);
    FeedConcat(Feed(0, head), burst, tail);
    FeedFalse(0, head);
    ShiftNZero(|head|);
    hide Feed, ShiftN, Plus, Pack;
    assert Feed(0, head) == 0;
    FeedShort(0, burst);
    PlusLaws(Pack(burst), 0, 0, 0);
    FeedFalse(Feed(0, burst), tail);
    if Pack(burst) == 0 {
      PackZero(burst);
    }
    NonZeroShift(Pack(burst), |burst|);
    NonZeroShift(Feed(0, burst), |tail|);
  }

  lemma NonZeroShift(c: u32, n: nat)
    ensures c != 0 ==> ShiftN(c, n) != 0
  {
    ShiftNZero(n);
    hide ShiftN;
    if ShiftN(c, n) == 0 {
      ShiftNInjective(c, 0, n);
    }
  }

  lemma {:induction false} AllBitsInjective(a: seq<u8>, b: seq<u8>)
    requires |a| == |b| && AllBits(a) == AllBits(b)
    ensures a == b
  {
    if a != [] {
      assert Pow2(8) == 0x100;
      PackBitsOf(a[0], 8);
      PackBitsOf(b[0], 8);
      hide BitsOf, Pow2;
      assert BitsOf(a[0], 8) == AllBits(a)[..8] && BitsOf(b[0], 8) == AllBits(b)[..8];
      assert AllBits(a[1..]) == AllBits(a)[8..] && AllBits(b[1..]) == AllBits(b)[8..];
      AllBitsInjective(a[1..], b[1..]);
    }
  }

  /** The sum of two checksums is the register that the differing bits leave from zero. */
  lemma ChecksumDifference(a: seq<u8>, b: seq<u8>)
    requires |a| == |b|
    ensures Plus(Crc32(a), Crc32(b)) == Feed(0, XorBools(AllBits(a), AllBits(b)))
  {
    var ones: u32 := 0xffff_ffff;
    UpdateIsSerial(ones, a);
    UpdateIsSerial(ones, b);
    FeedLinear(ones, ones, AllBits(a), AllBits(b));
    hide Update, Plus, Feed, AllBits, XorBools;
    var x, y := Update(ones, a), Update(ones, b);
    PlusLaws(ones, ones, 0, 0);
    PlusLaws(x, ones, y, ones);
    PlusLaws(Plus(x, y), 0, 0, 0);
  }

  /** Two different buffers of the same length whose differing bits lie within 32 consecutive bit
      positions, at any alignment, never have the same checksum. */
  lemma BurstDetected(a: seq<u8>, b: seq<u8>, start: nat)
    requires |a| == |b| && a != b
    requires forall i :: 0 <= i < 8 * |a| && AllBits(a)[i] != AllBits(b)[i] ==> start <= i < start + 32
    ensures Crc32(a) != Crc32(b)
  {
    hide Crc32, Plus, Feed, AllBits;
    ChecksumDifference(a, b);
    PlusLaws(Crc32(a), Crc32(a), 0, 0);
    if AllBits(a) == AllBits(b) {
      AllBitsInjective(a, b);
    } else {
      var i :| 0 <= i < 8 * |a| && AllBits(a)[i] != AllBits(b)[i];
      BurstLeavesTrace(XorBools(AllBits(a), AllBits(b)), start, i);
    }
  }

  // ----- odd numbers of errors -----

  function Ones(l: seq<bool>): nat {
    if l == [] then 0 else Digit(l[0]) + Ones(l[1..])
  }

  /** One hexadecimal digit more. */
  lemma DigitWeight(v: nat, d: nat)
    requires d < 16
    ensures OddWeight(16 * v + d) <==> OddWeight(v) != (d in {1, 2, 4, 7, 8, 11, 13, 14})
  {
    var n := 16 * v + d;
    assert n / 2 / 2 / 2 / 2 == v;
    assert OddWeight(n / 2 / 2) <==> (d / 4 % 2 == 1) != ((d / 8 == 1) != OddWeight(v));
    assert OddWeight(n) <==> (d % 2 == 1) != ((d / 2 % 2 == 1) != OddWeight(n / 2 / 2));
  }

  lemma PolyWeight()
    ensures OddWeight(POLY)
  {
    hide OddWeight;
    assert !OddWeight(0) by { ZeroWeight(); }
    DigitWeight(0, 8);
    DigitWeight(0x8, 2);
    DigitWeight(0x82, 0xf);
    DigitWeight(0x82f, 6);
    DigitWeight(0x82f6, 3);
    DigitWeight(0x8_2f63, 0xb);
    DigitWeight(0x82_f63b, 7);
    DigitWeight(0x82f_63b7, 8);
  }

  lemma ZeroWeight()
    ensures !OddWeight(0)
  {}

  /** The polynomial has an odd number of ones, so that the one shifted out is always made up for. */
  lemma ShiftWeight(c: u32)
    ensures OddWeight(Shift(c)) == OddWeight(c)
  {
    ShiftIs(c);
    PolyWeight();
    hide Shift;
    XorWeight(c / 2, POLY);
    assert c == 0 ==> c / 2 == 0;
  }

  /** The parity of the register counts the ones it was fed. */
  lemma {:induction false} FeedWeight(c: u32, l: seq<bool>)
    ensures OddWeight(Feed(c, l)) <==> OddWeight(c) != (Ones(l) % 2 == 1)
    decreases |l|
  {
    hide Shift, Xor;
    if l != [] {
      var d := Digit(l[0]);
      XorWeight(c, d);
      ShiftWeight(Plus(c, d));
      assert OddWeight(d) <==> l[0];
      FeedWeight(Shift(Plus(c, d)), l[1..]);
    }
  }

  /** The checksums of two buffers of the same length differ in an odd number of bits if and only if
      the buffers do. */
  lemma ChecksumParity(a: seq<u8>, b: seq<u8>)
    requires |a| == |b|
    ensures OddWeight(Plus(Crc32(a), Crc32(b))) <==> Ones(XorBools(AllBits(a), AllBits(b))) % 2 == 1
  {
    hide Crc32, Plus, Feed, AllBits, XorBools, Ones;
    ChecksumDifference(a, b);
    FeedWeight(0, XorBools(AllBits(a), AllBits(b)));
  }

  /** An odd number of flipped bits, anywhere in a buffer of any length, never goes unnoticed. */
  lemma OddErrorsDetected(a: seq<u8>, b: seq<u8>)
    requires |a| == |b| && Ones(XorBools(AllBits(a), AllBits(b))) % 2 == 1
    ensures Crc32(a) != Crc32(b)
  {
    hide Crc32, Plus, AllBits, XorBools, Ones;
    ChecksumParity(a, b);
    PlusLaws(Crc32(a), Crc32(a), 0, 0);
  }

  // ----- absorption and residue -----

  lemma {:induction false} BitsOfSplit(v: nat, m: nat, n: nat)
    ensures BitsOf(v, m + n) == BitsOf(v, m) + BitsOf(Shr(v, m), n)
    decreases m
  {
    if m == 0 {
      assert Shr(v, 0) == v;
    } else {
      ShrStep(v, m);
      hide Shr;
      BitsOfSplit(v / 2, m - 1, n);
    }
  }

  lemma {:induction false} BitsOfMod(v: nat, n: nat)
    ensures BitsOf(v % Pow2(n), n) == BitsOf(v, n)
    decreases n
  {
    if n > 0 {
      Halving(v / 2, v % 2, Pow2(n - 1));
      BitsOfMod(v / 2, n - 1);
    }
  }

  /** Little-endian bytes, bit by bit, are the binary digits. */
  lemma {:induction false} AllBitsToLe(v: nat, k: nat)
    ensures AllBits(ToLe(v, k)) == BitsOf(v, 8 * k)
    decreases k
  {
    if k > 0 {
      assert Pow2(8) == 0x100;
      BitsOfSplit(v, 8, 8 * (k - 1));
      BitsOfMod(v, 8);
      assert Shr(v, 8) == v / 0x100;
      AllBitsToLe(v / 0x100, k - 1);
      hide BitsOf, Pow2;
      assert ToLe(v, k)[1..] == ToLe(v / 0x100, k - 1);
    }
  }

  /** Four little-endian bytes of w act on the register only through its sum with w. */
  lemma AbsorbWord(c: u32, w: u32)
    ensures Update(c, ToLe(w, 4)) == ShiftN(Plus(c, w), 32)
  {
    UpdateIsSerial(c, ToLe(w, 4));
    AllBitsToLe(w, 4);
    Pow2Words();
    PackBitsOf(w, 32);
    hide Feed, Update, Pack, BitsOf, ShiftN, Plus, AllBits, ToLe;
    FeedShort(c, BitsOf(w, 32));
  }

  lemma AbsorptionDependsOnSum(c: u32, w: u32, d: u32, v: u32)
    ensures Update(c, ToLe(w, 4)) == Update(d, ToLe(v, 4)) <==> Plus(c, w) == Plus(d, v)
  {
    AbsorbWord(c, w);
    AbsorbWord(d, v);
    hide Update, ShiftN, Plus;
    if ShiftN(Plus(c, w), 32) == ShiftN(Plus(d, v), 32) {
      ShiftNInjective(Plus(c, w), Plus(d, v), 32);
    }
  }

  /** The register every message leaves behind when its own checksum is appended. */
  const RESIDUE: u32 := ShiftN(0xffff_ffff, 32)

  /** Appending four bytes leaves the residue exactly when they are the message's own checksum. */
  lemma ResidueIffChecksum(message: seq<u8>, w: u32)
    ensures Update(0xffff_ffff, message + ToLe(w, 4)) == RESIDUE <==> w == Crc32(message)
  {
    var ones: u32 := 0xffff_ffff;
    var r := Update(ones, message);
    UpdateConcat(ones, message, ToLe(w, 4));
    AbsorbWord(r, w);
    hide Update, ShiftN, Plus;
    PlusLaws(r, ones, 0, 0);
    PlusLaws(ones, r, 0, 0);
    PlusLaws(w, r, 0, 0);
    PlusLaws(r, w, 0, 0);
    PlusLaws(r, r, ones, 0);
    PlusLaws(ones, 0, 0, 0);
    if ShiftN(Plus(r, w), 32) == ShiftN(ones, 32) {
      ShiftNInjective(Plus(r, w), ones, 32);
    }
  }
}
