// Powers modulo m, by repeated squaring and from cached squares:
// sketch_expr/agm_sketching/include/prime_generator.h, lines 7-41.
module Modular {
  import opened Powers

  function Pow(x: nat, e: nat): nat { if e == 0 then 1 else x * Pow(x, e - 1) }

  // ---- Congruence ----

  // Quotient and remainder are unique.
  lemma Apart(q1: int, r1: int, q2: int, r2: int, m: nat)
    requires q1 * m + r1 == q2 * m + r2 && 0 <= r1 < m && 0 <= r2 < m
    ensures q1 == q2 && r1 == r2
  {
    if q1 < q2 {
      AtLeast(q2 - q1, m);
      Difference(q2, q1, m);
    } else if q2 < q1 {
      AtLeast(q1 - q2, m);
      Difference(q1, q2, m);
    }
  }

  lemma {:induction false} AtLeast(d: nat, m: nat)
    requires d > 0
    ensures d * m >= m
  {
    if d > 1 {
      AtLeast(d - 1, m);
      Difference(d, 1, m);
    }
  }

  lemma Difference(a: int, b: int, m: int)
    ensures (a - b) * m == a * m - b * m
  {
  }

  lemma ModShift(z: int, k: int, m: nat)
    requires m > 0
    ensures (z + k * m) % m == z % m
  {
    ModParts(z, m);
    ModParts(z + k * m, m);
    Difference(z / m, -k, m);
    Difference(0, k, m);
    Apart(z / m + k, z % m, (z + k * m) / m, (z + k * m) % m, m);
  }

  lemma ModParts(z: int, m: nat)
    requires m > 0
    ensures z == z / m * m + z % m && 0 <= z % m < m
  {
  }

  // Terms and factors may be reduced first.
  lemma AddMod(x: int, y: int, m: nat)
    requires m > 0
    ensures (x % m + y) % m == (x + y) % m
  {
    ModParts(x, m);
    ModShift(x % m + y, x / m, m);
  }

  lemma MulMod(x: int, y: int, m: nat)
    requires m > 0
    ensures (x % m * y) % m == (x * y) % m
  {
    ModParts(x, m);
    ModShift(x % m * y, x / m * y, m);
    Distribute(x / m, m, x % m, y);
  }

  lemma Distribute(q: int, m: int, r: int, y: int)
    ensures (q * m + r) * y == r * y + q * y * m
  {
  }

  lemma Associate(x: int, y: int, z: int)
    ensures (x * y) * z == x * (y * z) == y * (x * z)
  {
  }

  // ---- Powers ----

  lemma {:induction false} PowPlus(x: nat, a: nat, b: nat)
    ensures Pow(x, a + b) == Pow(x, a) * Pow(x, b)
  {
    if a > 0 {
      PowPlus(x, a - 1, b);
      Associate(x, Pow(x, a - 1), Pow(x, b));
    }
  }

  lemma {:induction false} PowSquare(x: nat, e: nat)
    ensures Pow(x * x, e) == Pow(x, 2 * e)
  {
    if e > 0 {
      PowSquare(x, e - 1);
      assert Pow(x, 2 * e) == x * (x * Pow(x, 2 * e - 2));
      Associate(x, x, Pow(x, 2 * e - 2));
    }
  }

  lemma {:induction false} PowMod(x: nat, y: nat, e: nat, m: nat)
    requires m > 0 && x % m == y % m
    ensures Pow(x, e) % m == Pow(y, e) % m
  {
    if e > 0 {
      PowMod(x, y, e - 1, m);
      var a, b := Pow(x, e - 1), Pow(y, e - 1);
      MulMod(x, a, m);
      MulMod(y, a, m);
      MulMod(a, y, m);
      MulMod(b, y, m);
    }
  }

  // The product in the wider type, reduced.
  function Times(x: nat, y: nat, m: nat): (r: nat)
    requires m > 0
    ensures r < m
  {
    x * y % m
  }

  lemma Reduced(y: int, m: nat)
    requires m > 0 && 0 <= y < m
    ensures y % m == y
  {
    ModParts(y, m);
    Apart(0, y, y / m, y % m, m);
  }

  // One bit of the exponent: an odd one moves a factor into the result, and the base is squared.
  function Taken(res: nat, a: nat, b: nat, m: nat): nat
    requires m > 0
  {
    if b % 2 == 1 then Times(res, a, m) else res
  }

  lemma HalfPower(a: nat, h: nat, m: nat)
    requires m > 0
    ensures Pow(a * a % m, h) % m == Pow(a, 2 * h) % m
  {
    hide Pow;
    PowSquare(a, h);
    ReducedSquare(a, h, m);
  }

  lemma BitStep(res: nat, a: nat, b: nat, m: nat)
    requires m > 0 && b > 0
    ensures (Taken(res, a, b, m) * Pow(a * a % m, b / 2)) % m == (res * Pow(a, b)) % m
  {
    var h := b / 2;
    HalfPower(a, h, m);
    if b % 2 == 1 {
      assert b == 2 * h + 1;
      OddBit(res, a, Pow(a, 2 * h), Pow(a * a % m, h), m);
    } else {
      SameFactor(res, Pow(a * a % m, h), Pow(a, 2 * h), m);
    }
  }

  lemma OddBit(res: nat, a: nat, sq: nat, p: nat, m: nat)
    requires m > 0 && p % m == sq % m
    ensures (res * a % m * p) % m == (res * (a * sq)) % m
  {
    hide *;
    MulMod(res * a, p, m);
    SameFactor(res * a, p, sq, m);
    Associate(res, a, sq);
  }

  lemma SameFactor(x: int, p: int, q: int, m: nat)
    requires m > 0 && p % m == q % m
    ensures (x * p) % m == (x * q) % m
  {
    MulMod(p, x, m);
    MulMod(q, x, m);
  }

  // powermod (lines 7-17).
  method PowerMod(a0: nat, b0: nat, m: nat) returns (res: nat)
    requires m > 1
    ensures res == Pow(a0, b0) % m
  {
    hide Pow;
    var a, b := a0, b0;
    res := 1;
    while b != 0
      invariant b >= 0 && res < m && a >= 0 && (res * Pow(a, b)) % m == Pow(a0, b0) % m
      decreases b
    {
      BitStep(res, a, b, m);
      if b % 2 == 1 { res := Times(res, a, m); }
      b := b / 2;
      a := Times(a, a, m);
    }
    PowZero(a);
  }

  // log2 of a positive integer, rounded down.
  function FloorLog2(n: nat): (r: nat)
    requires n > 0
    ensures Pow2(r) <= n < 2 * Pow2(r)
  {
    if n == 1 then 0 else FloorLog2(n / 2) + 1
  }

  // Entry i is the base to the power 2^i, modulo m.
  ghost predicate CacheOk(cache: seq<nat>, a: nat, m: nat)
    requires m > 0
  {
    forall i :: 0 <= i < |cache| ==> cache[i] % m == Pow(a, Pow2(i)) % m
  }

  // gen_sq_cache (lines 20-28).
  method GenSqCache(a: nat, n: nat, m: nat) returns (cache: array<nat>)
    requires n > 0 && m > 0
    ensures fresh(cache) && cache.Length == FloorLog2(n) + 1 && CacheOk(cache[..], a, m)
  {
    var log2n := FloorLog2(n);
    cache := new nat[log2n + 1];
    cache[0] := a;
    assert Pow(a, 1) == a * Pow(a, 0);
    var i: nat := 0;
    while i < log2n
      invariant i <= log2n && CacheOk(cache[..i + 1], a, m)
    {
      var x := cache[i];
      assert cache[..i + 1][i] == x;
      SquareCache(a, x, i, m);
      cache[i + 1] := Times(x, x, m);
      assert cache[..i + 2] == cache[..i + 1] + [Times(x, x, m)];
      i := i + 1;
    }
    assert cache[..] == cache[..i + 1];
  }

  lemma SquareCache(a: nat, x: nat, i: nat, m: nat)
    requires m > 0 && x % m == Pow(a, Pow2(i)) % m
    ensures Times(x, x, m) % m == Pow(a, Pow2(i + 1)) % m
  {
    hide *;
    PowDouble(a, i);
    SquareMod(x, Pow(a, Pow2(i)), m);
  }

  lemma SquareMod(x: nat, p: nat, m: nat)
    requires m > 0 && x % m == p % m
    ensures Times(x, x, m) % m == (p * p) % m
  {
    Reduced(Times(x, x, m), m);
    SquareAgrees(x, p, m);
  }

  lemma SquareAgrees(x: int, p: int, m: nat)
    requires m > 0 && x % m == p % m
    ensures (x * x) % m == (p * p) % m
  {
    SameFactor(x, x, p, m);
    SameFactor(p, x, p, m);
  }

  // cached_powermod (lines 30-41): as long as the exponent has a bit left, the cache has an entry for it.
  method CachedPowerMod(cache: seq<nat>, b0: nat, m: nat, ghost a: nat) returns (res: nat)
    requires m > 1 && CacheOk(cache, a, m) && b0 < Pow2(|cache|)
    ensures res == Pow(a, b0) % m
  {
    hide Pow, Pow2, Times, CachedRest;
    var i: nat, b := 0, b0;
    res := 1;
    CacheStart(a, b0, m);
    while b != 0
      invariant b >= 0 && i <= |cache| && res < m && b < Pow2(|cache| - i)
      invariant CachedRest(res, a, i, b, m) == Pow(a, b0) % m
      decreases b
    {
      HalfBelow(b, |cache| - i);
      CachedStep(res, a, cache[i], i, b, m);
      if b % 2 == 1 { res := Times(res, cache[i], m); }
      b := b / 2;
      i := i + 1;
    }
    CacheEnd(res, a, i, m);
  }

  // What the bits of the exponent not yet read still have to contribute.
  ghost function CachedRest(res: nat, a: nat, i: nat, b: nat, m: nat): nat
    requires m > 0
  {
    (res * Pow(Pow(a, Pow2(i)), b)) % m
  }

  lemma CacheStart(a: nat, b: nat, m: nat)
    requires m > 0
    ensures CachedRest(1, a, 0, b, m) == Pow(a, b) % m
  {
    PowOne(a);
  }

  lemma CacheEnd(res: nat, a: nat, i: nat, m: nat)
    requires res < m
    ensures CachedRest(res, a, i, 0, m) == res
  {
    PowZero(Pow(a, Pow2(i)));
    Reduced(res, m);
  }

  lemma HalfBelow(b: nat, k: nat)
    requires 0 < b < Pow2(k)
    ensures k > 0 && b / 2 < Pow2(k - 1)
  {
  }

  lemma PowOne(a: nat)
    ensures Pow(a, 1) == a
  {
    assert Pow(a, 1) == a * Pow(a, 0);
  }

  lemma PowZero(a: nat)
    ensures Pow(a, 0) == 1
  {
  }

  lemma PowDouble(a: nat, i: nat)
    ensures Pow(a, Pow2(i + 1)) == Pow(a, Pow2(i)) * Pow(a, Pow2(i))
  {
    hide Pow;
    assert Pow2(i + 1) == Pow2(i) + Pow2(i);
    PowPlus(a, Pow2(i), Pow2(i));
  }

  lemma TakenAgrees(res: nat, x: nat, y: nat, b: nat, m: nat)
    requires m > 0 && x % m == y % m
    ensures Taken(res, x, b, m) == Taken(res, y, b, m)
  {
    SameFactor(res, x, y, m);
  }

  lemma CachedStep(res: nat, a: nat, x: nat, i: nat, b: nat, m: nat)
    requires m > 0 && b > 0 && x % m == Pow(a, Pow2(i)) % m
    ensures CachedRest(Taken(res, x, b, m), a, i + 1, b / 2, m) == CachedRest(res, a, i, b, m)
  {
    hide Pow, Pow2, Taken;
    var y, h := Pow(a, Pow2(i)), b / 2;
    BitStep(res, y, b, m);
    PowDouble(a, i);
    ReducedSquare(y, h, m);
    TakenAgrees(res, x, y, b, m);
    SameFactor(Taken(res, y, b, m), Pow(y * y % m, h), Pow(y * y, h), m);
  }

  lemma ReducedSquare(y: nat, h: nat, m: nat)
    requires m > 0
    ensures Pow(y * y % m, h) % m == Pow(y * y, h) % m
  {
    hide Pow;
    PowMod(y * y % m, y * y, h, m);
  }
}
