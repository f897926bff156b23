/** The 4 GB guest memory and the little-endian accesses that the interpreter makes to it. */
module Ram {
  import opened CIntegers

  const RAM_SIZE: nat := 0x1_0000_0000

  type Memory = m: seq<u8> | |m| == RAM_SIZE witness seq(RAM_SIZE, _ => 0)

  const ZEROED: Memory := seq(RAM_SIZE, _ => 0)

  predicate InRam(a: nat, k: nat) {
    a + k <= RAM_SIZE
  }

  /** The number whose little-endian digits in base 256 are bs. */
  function FromLe(bs: seq<u8>): nat {
    if bs == [] then 0 else bs[0] + 0x100 * FromLe(bs[1..])
  }

  /** The k lowest base-256 digits of n, least significant first. */
  function ToLe(n: nat, k: nat): (bs: seq<u8>)
    ensures |bs| == k
  {
    if k == 0 then [] else [n % 0x100] + ToLe(n / 0x100, k - 1)
  }

  /** Reading a k-byte unsigned integer through a cast pointer. */
  function Load(m: Memory, a: nat, k: nat): nat
    requires InRam(a, k)
  {
    FromLe(m[a..a + k])
  }

  /** Overwriting |bs| bytes from address a. */
  function Store(m: Memory, a: nat, bs: seq<u8>): (m': Memory)
    requires InRam(a, |bs|)
    ensures forall i :: 0 <= i < RAM_SIZE ==> m'[i] == if a <= i < a + |bs| then bs[i - a] else m[i]
  {
    m[..a] + bs + m[a + |bs|..]
  }

  // ----- little-endian encoding is a bijection on k-byte strings -----

  lemma {:induction false} FromLeBound(bs: seq<u8>)
    ensures FromLe(bs) < Pow2(8 * |bs|)
  {
    if bs != [] {
      FromLeBound(bs[1..]);
      var k := 8 * |bs[1..]|;
      assert Pow2(k + 8) == 0x100 * Pow2(k) by { Pow2Eight(k); }
    }
  }

  lemma Pow2Eight(k: nat)
    ensures Pow2(k + 8) == 0x100 * Pow2(k)
  {
    assert Pow2(k + 8) == 2 * Pow2(k + 7) == 4 * Pow2(k + 6) == 8 * Pow2(k + 5) == 16 * Pow2(k + 4);
    assert Pow2(k + 4) == 2 * Pow2(k + 3) == 4 * Pow2(k + 2) == 8 * Pow2(k + 1) == 16 * Pow2(k);
  }

  /** Encoding keeps n modulo 2^(8k). */
  lemma {:induction false} FromLeToLe(n: nat, k: nat)
    ensures FromLe(ToLe(n, k)) == n % Pow2(8 * k)
    decreases k
  {
    if k > 0 {
      FromLeToLe(n / 0x100, k - 1);
      var bs := ToLe(n, k);
      assert bs[1..] == ToLe(n / 0x100, k - 1);
      var p := Pow2(8 * (k - 1));
      assert Pow2(8 * k) == 0x100 * p by { Pow2Eight(8 * (k - 1)); }
      ModByte(n, p);
    } 
  }

  lemma WordBack(n: u32)
    ensures FromLe(ToLe(n, 4)) == n
  {
    FromLeToLe(n, 4);
    hide ToLe, FromLe;
    Pow2Words();
  }

  lemma LongBack(n: u64)
    ensures FromLe(ToLe(n, 8)) == n
  {
    FromLeToLe(n, 8);
    hide ToLe, FromLe;
    Pow2Words();
  }

  lemma {:induction false} ToLeFromLe(bs: seq<u8>)
    ensures ToLe(FromLe(bs), |bs|) == bs
  {
    if bs != [] {
      ToLeFromLe(bs[1..]);
      DivModUnique(FromLe(bs), 0x100, FromLe(bs[1..]), bs[0]);
      assert bs == [bs[0]] + bs[1..];
    }
  }

  /** Eight bytes are the digits of n exactly when their value is n. */
  lemma LongDigits(bs: seq<u8>, n: u64)
    requires |bs| == 8
    ensures FromLe(bs) == n <==> bs == ToLe(n, 8)
  {
    LongBack(n);
    ToLeFromLe(bs);
  }

  lemma ModByte(n: nat, p: nat)
    requires p > 0
    ensures n % (0x100 * p) == n % 0x100 + 0x100 * ((n / 0x100) % p)
  {
    var h := n / 0x100;
    var q, r := h / p, h % p;
    assert h == q * p + r;
    assert n == q * (0x100 * p) + (n % 0x100 + 0x100 * r);
    DivModUnique(n, 0x100 * p, q, n % 0x100 + 0x100 * r);
  }

  lemma {:induction false} FromLeZero(bs: seq<u8>)
    ensures FromLe(bs) == 0 <==> forall i :: 0 <= i < |bs| ==> bs[i] == 0
  {
    if bs != [] {
      FromLeZero(bs[1..]);
      assert forall i :: 0 < i < |bs| ==> bs[i] == bs[1..][i - 1];
    }
  }

  /** The first four bytes of a longer encoding are its value modulo 2^32. */
  lemma FromLeSplit(bs: seq<u8>)
    requires |bs| >= 4
    ensures FromLe(bs) == FromLe(bs[..4]) + TWO32 * FromLe(bs[4..])
  {
    assert bs[1..][1..] == bs[2..] && bs[2..][1..] == bs[3..] && bs[3..][1..] == bs[4..];
    var c := bs[..4];
    assert c[1..][1..] == c[2..] && c[2..][1..] == c[3..] && c[3..][1..] == [];
    assert FromLe(bs[2..]) == bs[2] + 0x100 * FromLe(bs[3..]);
    assert FromLe(c[2..]) == c[2] + 0x100 * FromLe(c[3..]);
  }

  // ----- loads and stores -----

  lemma LoadStoreSame(m: Memory, a: nat, bs: seq<u8>)
    requires InRam(a, |bs|)
    ensures Load(Store(m, a, bs), a, |bs|) == FromLe(bs)
  {
    assert Store(m, a, bs)[a..a + |bs|] == bs;
  }

  /** A store outside [b, b + k) does not change what is loaded from there. */
  lemma LoadStoreOther(m: Memory, a: nat, bs: seq<u8>, b: nat, k: nat)
    requires InRam(a, |bs|) && InRam(b, k)
    requires b + k <= a || a + |bs| <= b
    ensures Load(Store(m, a, bs), b, k) == Load(m, b, k)
  {
    assert Store(m, a, bs)[b..b + k] == m[b..b + k];
  }

  lemma LoadBound(m: Memory, a: nat, k: nat)
    requires InRam(a, k)
    ensures Load(m, a, k) < Pow2(8 * k)
  {
    FromLeBound(m[a..a + k]);
  }
}
