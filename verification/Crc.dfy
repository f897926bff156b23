/** The portable branch of the memory checksum: reflected CRC-32C, the CRC named in
    section 12.1 of RFC 3720. */
module Crc {
  import opened CIntegers
  import opened XorLaws

  const POLY: u32 := 0x82f6_3b78

  function Plus(a: u32, b: u32): u32 {
    XorWord(a, b);
    Xor(a, b)
  }

  /** One turn of the inner loop. */
  function Shift(c: u32): u32 {
    if And(c, 1) != 0 then Plus(Shr(c, 1), POLY) else Shr(c, 1)
  }

  function ShiftN(c: u32, n: nat): u32
    decreases n, c
  {
    if n == 0 then c else ShiftN(Shift(c), n - 1)
  }

  /** The outer loop: the register after each byte of the buffer. */
  function Update(c: u32, buf: seq<u8>): u32
    decreases |buf|
  {
    if buf == [] then c else Update(ShiftN(Plus(c, buf[0]), 8), buf[1..])
  }

  function Crc32(buf: seq<u8>): u32 {
    Plus(Update(0xffff_ffff, buf), 0xffff_ffff)
  }

  /** update_crc */
  method UpdateCrc(crc: u32, buf: array<u8>, len: nat) returns (c: u32)
    requires len <= buf.Length
    ensures c == Update(crc, buf[..len])
  {
    hide Plus, And;
    c := crc;
    var n := 0;
    while n < len
      invariant 0 <= n <= len
      invariant Update(c, buf[n..len]) == Update(crc, buf[..len])
    {
      var b := buf[n];
      c := Plus(c, b);
      ghost var start := c;
      var k := 0;
      while k < 8
        invariant 0 <= k <= 8
        invariant ShiftN(c, 8 - k) == ShiftN(start, 8)
      {
        c := if And(c, 1) != 0 then Plus(Shr(c, 1), POLY) else Shr(c, 1);
        k := k + 1;
      }
      assert buf[n..len][1..] == buf[n + 1..len];
      n := n + 1;
    }
    assert buf[len..len] == [];
  }

  /** crc32 */
  method ComputeCrc32(buf: array<u8>, len: nat) returns (c: u32)
    requires len <= buf.Length
    ensures c == Crc32(buf[..len])
  {
    c := UpdateCrc(0xffff_ffff, buf, len);
    c := Plus(c, 0xffff_ffff);
  }

  // ----- one shift -----

  lemma ShiftIs(c: u32)
    ensures Shift(c) == if c % 2 == 1 then Plus(c / 2, POLY) else c / 2
  {
    AndMask(c, 1);
  }

  lemma PlusHalves(a: u32, b: u32)
    ensures Plus(a, b) / 2 == Plus(a / 2, b / 2)
    ensures Plus(a, b) % 2 == if a % 2 != b % 2 then 1 else 0
  {
    XorHalves(a, b);
  }

  lemma PlusLaws(a: u32, b: u32, c: u32, d: u32)
    ensures Plus(a, b) == Plus(b, a)
    ensures Plus(Plus(a, b), c) == Plus(a, Plus(b, c))
    ensures Plus(Plus(a, b), b) == a && Plus(a, a) == 0 && Plus(a, 0) == a && Plus(0, a) == a
    ensures Plus(Plus(a, b), Plus(c, d)) == Plus(Plus(a, c), Plus(b, d))
  {
    XorCommutes(a, b);
    XorAssociates(a, b, c);
    XorTwice(a, b);
    XorSelf(a);
    XorZero(a);
    XorInterchange(a, b, c, d);
  }

  lemma ShiftLinear(a: u32, b: u32)
    ensures Shift(Plus(a, b)) == Plus(Shift(a), Shift(b))
  {
    ShiftIs(a);
    ShiftIs(b);
    ShiftIs(Plus(a, b));
    PlusHalves(a, b);
    hide Shift, Plus;
    var x, y := a / 2, b / 2;
    if a % 2 == 1 && b % 2 == 1 {
      PlusLaws(x, POLY, y, POLY);
      PlusLaws(POLY, POLY, 0, 0);
      PlusLaws(Plus(x, y), 0, 0, 0);
    } else if a % 2 == 1 {
      PlusLaws(x, POLY, y, 0);
      PlusLaws(POLY, 0, 0, 0);
      PlusLaws(y, 0, 0, 0);
    } else {
      PlusLaws(x, y, POLY, 0);
    }
  }

  /** The shift run backwards: the top bit tells whether the polynomial was added. */
  function Unshift(c: u32): u32 {
    if c >= 0x8000_0000 then 2 * (Plus(c, POLY) % TWO31) + 1 else 2 * c
  }

  /** Adding a word with the top bit set flips the top bit. */
  lemma PlusTop(a: u32)
    ensures Plus(a, POLY) >= 0x8000_0000 <==> a < 0x8000_0000
  {
    hide Plus, Bit;
    TopBitIs(a);
    TopBitIs(POLY);
    TopBitIs(Plus(a, POLY));
    PlusBit(a, POLY, 31);
  }

  lemma PlusBit(a: u32, b: u32, i: nat)
    ensures Bit(Plus(a, b), i) == (Bit(a, i) != Bit(b, i))
  {
    XorBit(a, b, i);
  }

  lemma TopBitIs(v: u32)
    ensures Bit(v, 31) <==> v >= 0x8000_0000
  {
    var p := 0x8000_0000;
    assert Pow2(31) == p by {
      Pow2Words();
    }
    DivModUnique(v, p, if v < p then 0 else 1, if v < p then v else v - p);
    ShrBit(v, 31, 0);
  }

  lemma UnshiftShift(c: u32)
    ensures Unshift(Shift(c)) == c
  {
    ShiftIs(c);
    hide Shift, Plus;
    var h: u32 := c / 2;
    assert h < TWO31;
    PlusTop(h);
    PlusLaws(h, POLY, 0, 0);
    if c % 2 == 1 {
      UnshiftHigh(Shift(c), h);
    } else {
      assert Shift(c) == h;
    }
  }

  lemma UnshiftHigh(d: u32, h: u32)
    requires d >= 0x8000_0000 && Plus(d, POLY) == h < TWO31
    ensures Unshift(d) == 2 * h + 1
  {
    hide Plus;
  }

  lemma ShiftUnshift(c: u32)
    ensures Shift(Unshift(c)) == c
  {
    hide Shift, Plus;
    PlusTop(c);
    PlusLaws(c, POLY, 0, 0);
    var d := Plus(c, POLY);
    if c >= 0x8000_0000 {
      assert Unshift(c) == 2 * d + 1;
      hide Unshift;
      ShiftIs(2 * d + 1);
    } else {
      ShiftIs(2 * c);
    }
  }

  /** The register only matters through its lowest bit; the rest slides down unchanged. */
  lemma ShiftSplit(c: u32, v: u32)
    ensures Shift(Plus(c, v)) == Plus(Shift(Plus(c, v % 2)), v / 2)
  {
    hide Shift, Plus;
    var x, y, h, w: u32 := Plus(c, v), Plus(c, v % 2), c / 2, v / 2;
    PlusHalves(c, v);
    PlusHalves(c, v % 2);
    PlusLaws(h, 0, 0, 0);
    assert x / 2 == Plus(h, w) && y / 2 == h && x % 2 == y % 2;
    ShiftIs(x);
    ShiftIs(y);
    if x % 2 == 1 {
      SwapLast(h, w, POLY);
    }
  }

  lemma SwapLast(h: u32, w: u32, p: u32)
    ensures Plus(Plus(h, w), p) == Plus(Plus(h, p), w)
  {
    hide Plus;
    PlusLaws(h, w, p, 0);
    PlusLaws(h, p, w, 0);
    PlusLaws(w, p, 0, 0);
  }

  // ----- many shifts -----

  lemma {:induction false} ShiftNLinear(a: u32, b: u32, n: nat)
    ensures ShiftN(Plus(a, b), n) == Plus(ShiftN(a, n), ShiftN(b, n))
    decreases n
  {
    hide Shift, Plus;
    if n > 0 {
      ShiftLinear(a, b);
      ShiftNLinear(Shift(a), Shift(b), n - 1);
    }
  }

  lemma {:induction false} ShiftNInjective(a: u32, b: u32, n: nat)
    requires ShiftN(a, n) == ShiftN(b, n)
    ensures a == b
    decreases n
  {
    hide Shift, Unshift;
    if n > 0 {
      ShiftNInjective(Shift(a), Shift(b), n - 1);
      UnshiftShift(a);
      UnshiftShift(b);
    }
  }

  lemma {:induction false} ShiftNZero(n: nat)
    ensures ShiftN(0, n) == 0
    decreases n
  {
    if n > 0 {
      ShiftIs(0);
      ShiftNZero(n - 1);
    }
  }

  // ----- whole buffers -----

  function XorBytes(a: seq<u8>, b: seq<u8>): (r: seq<u8>)
    requires |a| == |b|
    ensures |r| == |a|
  {
    seq(|a|, i requires 0 <= i < |a| => XorByte(a[i], b[i]))
  }

  function XorByte(x: u8, y: u8): u8 {
    assert Pow2(8) == 0x100;
    BitwiseBound(x, y, 8);
    Xor(x, y)
  }

  /** The register after one more byte. */
  function Byte(c: u32, b: u8): u32 {
    ShiftN(Plus(c, b), 8)
  }

  lemma UpdateStep(c: u32, buf: seq<u8>)
    requires buf != []
    ensures Update(c, buf) == Update(Byte(c, buf[0]), buf[1..])
  {}

  lemma ByteLinear(c: u32, d: u32, x: u8, y: u8)
    ensures Byte(Plus(c, d), XorByte(x, y)) == Plus(Byte(c, x), Byte(d, y))
  {
    hide ShiftN, Xor;
    PlusLaws(c, d, x, y);
    ShiftNLinear(Plus(c, x), Plus(d, y), 8);
  }

  /** The checksum register is XOR-linear in state and data together. */
  lemma {:induction false} UpdateLinear(c: u32, d: u32, a: seq<u8>, b: seq<u8>)
    requires |a| == |b|
    ensures Update(Plus(c, d), XorBytes(a, b)) == Plus(Update(c, a), Update(d, b))
    decreases |a|
  {
    if a != [] {
      var ab := XorBytes(a, b);
      assert ab[0] == XorByte(a[0], b[0]);
      assert ab[1..] == XorBytes(a[1..], b[1..]);
      UpdateStep(Plus(c, d), ab);
      UpdateStep(c, a);
      UpdateStep(d, b);
      ByteLinear(c, d, a[0], b[0]);
      hide Update, Byte, XorBytes, Plus, XorByte;
      UpdateLinear(Byte(c, a[0]), Byte(d, b[0]), a[1..], b[1..]);
    }
  }

  /** The bytes of a fixed buffer, run backwards. */
  function Downdate(c: u32, buf: seq<u8>): u32
    decreases |buf|
  {
    if buf == [] then c else Plus(UnshiftN(Downdate(c, buf[1..]), 8), buf[0])
  }

  function UnshiftN(c: u32, n: nat): u32
    decreases n, c
  {
    if n == 0 then c else Unshift(UnshiftN(c, n - 1))
  }

  lemma {:induction false} UnshiftNInverse(c: u32, n: nat)
    ensures ShiftN(UnshiftN(c, n), n) == c && UnshiftN(ShiftN(c, n), n) == c
    decreases n
  {
    hide Shift, Unshift;
    if n > 0 {
      ShiftUnshift(UnshiftN(c, n - 1));
      UnshiftNInverse(c, n - 1);
      UnshiftShift(c);
      UnshiftNInverse(Shift(c), n - 1);
    }
  }

  lemma ByteBack(c: u32, b: u8)
    ensures Plus(UnshiftN(Byte(c, b), 8), b) == c
    ensures Byte(Plus(UnshiftN(c, 8), b), b) == c
  {
    hide ShiftN, UnshiftN, Plus;
    UnshiftNInverse(Plus(c, b), 8);
    UnshiftNInverse(c, 8);
    PlusLaws(c, b, 0, 0);
    PlusLaws(UnshiftN(c, 8), b, 0, 0);
  }

  /** For every fixed buffer the update is a bijection on register values. */
  lemma {:induction false} UpdateBijective(c: u32, buf: seq<u8>)
    ensures Downdate(Update(c, buf), buf) == c && Update(Downdate(c, buf), buf) == c
    decreases |buf|
  {
    hide Byte, UnshiftN, ShiftN, Plus;
    if buf != [] {
      var b, rest := buf[0], buf[1..];
      UpdateStep(c, buf);
      UpdateStep(Downdate(c, buf), buf);
      UpdateBijective(Byte(c, b), rest);
      ByteBack(c, b);
      UpdateBijective(c, rest);
      ByteBack(Downdate(c, rest), b);
    }
  }

  /** Updates compose over concatenation. */
  lemma {:induction false} UpdateConcat(c: u32, a: seq<u8>, b: seq<u8>)
    ensures Update(c, a + b) == Update(Update(c, a), b)
    decreases |a|
  {
    hide ShiftN, Plus;
    if a == [] {
      assert a + b == b;
    } else {
      assert (a + b)[1..] == a[1..] + b;
      UpdateConcat(ShiftN(Plus(c, a[0]), 8), a[1..], b);
    }
  }
}
