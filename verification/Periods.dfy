/** Periods and orbits of a repeated map. */
module Periods {
  import opened CIntegers

  function Iterate<T>(f: T -> T, n: nat, x: T): T
    decreases n
  {
    if n == 0 then x else Iterate(f, n - 1, f(x))
  }

  predicate IsPeriod<T(==)>(f: T -> T, n: nat, x: T) {
    Iterate(f, n, x) == x
  }

  predicate Prime(p: nat) {
    p > 1 && forall g :: 1 < g < p ==> p % g != 0
  }

  lemma {:induction false} IterateAdd<T>(f: T -> T, m: nat, n: nat, x: T)
    ensures Iterate(f, m + n, x) == Iterate(f, n, Iterate(f, m, x))
    decreases m
  {
    if m > 0 {
      IterateAdd(f, m - 1, n, f(x));
    }
  }

  // ----- the periods of a point are the multiples of the least one -----

  lemma {:induction false} MultiplePeriod<T>(f: T -> T, d: nat, k: nat, x: T)
    requires IsPeriod(f, d, x)
    ensures k * d >= 0 && IsPeriod(f, k * d, x)
    decreases k
  {
    if k > 0 {
      MultiplePeriod(f, d, k - 1, x);
      assert k * d == d + (k - 1) * d;
      IterateAdd(f, d, (k - 1) * d, x);
    }
  }

  lemma RemainderPeriod<T>(f: T -> T, a: nat, b: nat, x: T)
    requires b > 0 && IsPeriod(f, b, x)
    ensures Iterate(f, a % b, x) == Iterate(f, a, x)
  {
    var k := a / b;
    assert a == k * b + a % b;
    MultiplePeriod(f, b, k, x);
    IterateAdd(f, k * b, a % b, x);
  }

  lemma DividesSum(k: int, b: int, r: int, g: nat)
    requires g > 0 && b % g == 0 && r % g == 0
    ensures (k * b + r) % g == 0
  {
    var i, j := b / g, r / g;
    assert b == i * g && r == j * g;
    assert k * b + r == (k * i + j) * g;
    DivModUnique(k * b + r, g, k * i + j, 0);
  }

  lemma EuclidStep(a: nat, b: nat, g: nat)
    requires g > 0 && b > 0 && b % g == 0 && (a % b) % g == 0
    ensures a % g == 0
  {
    DividesSum(a / b, b, a % b, g);
    assert a == (a / b) * b + a % b;
  }

  /** Euclid: two periods have a common divisor that is one too. */
  lemma {:induction false} CommonPeriod<T>(f: T -> T, a: nat, b: nat, x: T) returns (g: nat)
    requires a > 0 && IsPeriod(f, a, x) && IsPeriod(f, b, x)
    ensures g > 0 && a % g == 0 && b % g == 0 && IsPeriod(f, g, x)
    decreases b
  {
    if b == 0 {
      g := a;
      DivModUnique(a, a, 1, 0);
    } else {
      RemainderPeriod(f, a, b, x);
      g := CommonPeriod(f, b, a % b, x);
      EuclidStep(a, b, g);
    }
  }

  /** A point that moves and has a prime period has no others but its multiples. */
  lemma PrimePeriod<T>(f: T -> T, p: nat, d: nat, x: T)
    requires Prime(p) && IsPeriod(f, p, x) && f(x) != x
    ensures IsPeriod(f, d, x) <==> d % p == 0
  {
    RemainderPeriod(f, d, p, x);
    if IsPeriod(f, d, x) {
      var g := CommonPeriod(f, p, d, x);
      assert Iterate(f, 1, x) == f(x);
      Divisor(p, g);
      assert g == p;
    }
  }

  lemma Divisor(n: nat, g: nat)
    requires n > 0 && g > 0 && n % g == 0
    ensures g <= n
  {
    if g > n {
      DivModUnique(n, g, 0, n);
    }
  }

  // ----- orbits -----

  predicate Divides(p: nat, n: nat) {
    p > 0 && n % p == 0
  }

  ghost predicate Moves<T(!new)>(f: T -> T, p: nat, xs: set<T>) {
    forall x :: x in xs ==> f(x) in xs && f(x) != x && IsPeriod(f, p, x)
  }

  lemma Distinct<T>(f: T -> T, p: nat, i: nat, j: nat, x: T)
    requires Prime(p) && IsPeriod(f, p, x) && f(x) != x && i < j < p
    ensures Iterate(f, i, x) != Iterate(f, j, x)
  {
    hide Prime, Iterate;
    IterateAdd(f, i, p - i, x);
    IterateAdd(f, j, p - i, x);
    IterateAdd(f, p, j - i, x);
    PrimePeriod(f, p, j - i, x);
    DivModUnique(j - i, p, 0, j - i);
  }

  /** The first n points that x passes. */
  function Orbit<T(==)>(f: T -> T, n: nat, x: T): set<T> {
    set i | 0 <= i < n :: Iterate(f, i, x)
  }

  lemma {:induction false} OrbitSize<T>(f: T -> T, p: nat, n: nat, x: T)
    requires Prime(p) && IsPeriod(f, p, x) && f(x) != x && n <= p
    ensures |Orbit(f, n, x)| == n
    decreases n
  {
    hide Prime;
    if n > 0 {
      OrbitSize(f, p, n - 1, x);
      var last := Iterate(f, n - 1, x);
      assert Orbit(f, n, x) == Orbit(f, n - 1, x) + {last};
      forall i | 0 <= i < n - 1
        ensures Iterate(f, i, x) != last
      {
        Distinct(f, p, i, n - 1, x);
      }
    }
  }

  lemma {:induction false} StaysIn<T(!new)>(f: T -> T, p: nat, xs: set<T>, i: nat, x: T)
    requires Moves(f, p, xs) && x in xs
    ensures Iterate(f, i, x) in xs
    decreases i
  {
    if i > 0 {
      StaysIn(f, p, xs, i - 1, f(x));
    }
  }

  /** What leads into the orbit of x lies in it. */
  lemma LeadsIn<T>(f: T -> T, p: nat, i: nat, x: T, y: T)
    requires p > 0 && IsPeriod(f, p, x) && IsPeriod(f, p, y) && f(y) == Iterate(f, i, x)
    ensures y == Iterate(f, (i + p - 1) % p, x)
  {
    assert Iterate(f, p, y) == Iterate(f, p - 1, f(y));
    IterateAdd(f, i, p - 1, x);
    RemainderPeriod(f, i + p - 1, p, x);
  }

  lemma OrbitInside<T(!new)>(f: T -> T, p: nat, xs: set<T>, x: T)
    requires p > 0 && Moves(f, p, xs) && x in xs
    ensures Orbit(f, p, x) <= xs && x in Orbit(f, p, x) && Moves(f, p, xs - Orbit(f, p, x))
  {
    assert x == Iterate(f, 0, x);
    forall i: nat
      ensures Iterate(f, i, x) in xs
    {
      StaysIn(f, p, xs, i, x);
    }
    forall y | y in xs - Orbit(f, p, x)
      ensures f(y) !in Orbit(f, p, x)
    {
      if f(y) in Orbit(f, p, x) {
        var i: nat :| i < p && f(y) == Iterate(f, i, x);
        LeadsIn(f, p, i, x, y);
      }
    }
  }

  lemma Without<T>(xs: set<T>, ys: set<T>)
    requires ys <= xs
    ensures |xs - ys| == |xs| - |ys|
  {
    assert xs == (xs - ys) + ys;
  }

  /** Taking an orbit away leaves p points fewer, which still move among themselves. */
  lemma TakeOrbit<T(!new)>(f: T -> T, p: nat, xs: set<T>) returns (rest: set<T>)
    requires Prime(p) && Moves(f, p, xs) && xs != {}
    ensures Moves(f, p, rest) && |xs| == |rest| + p
  {
    var x :| x in xs;
    OrbitInside(f, p, xs, x);
    OrbitSize(f, p, p, x);
    hide Orbit, Moves, Prime, IsPeriod;
    Without(xs, Orbit(f, p, x));
    rest := xs - Orbit(f, p, x);
  }

  /** A finite set on which a map of prime period leaves no point in place falls into orbits. */
  lemma {:induction false} OrbitCount<T(!new)>(f: T -> T, p: nat, xs: set<T>)
    requires Prime(p) && Moves(f, p, xs)
    ensures Divides(p, |xs|)
    decreases |xs|
  {
    NoneLeft(p);
    assert p > 0;
    hide Moves, Prime, Divides;
    if xs != {} {
      var rest := TakeOrbit(f, p, xs);
      OrbitCount(f, p, rest);
      OneMore(|rest|, p);
    }
  }

  lemma NoneLeft(p: nat)
    requires p > 0
    ensures Divides(p, 0)
  {}

  lemma OneMore(n: nat, p: nat)
    requires Divides(p, n)
    ensures Divides(p, n + p)
  {
    DividesSum(1, n, p, p);
  }
}
