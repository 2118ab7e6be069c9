// The linear sketch of an integer vector: sketch_expr/agm_sketching/src/agm_sketch.cpp, lines 13-90,
// and src/bucket.cpp, lines 5-57. The hash, the seeds and the modulus are given.
module Sketch {
  import opened Powers
  import opened Modular

  // A change of one coordinate of the vector.
  datatype Update = Update(index: nat, delta: int)
  {
    // The delta times the one-based index.
    function Place(): int { delta * (index + 1) }
  }

  datatype Bucket = Bucket(a: int, b: int, c: nat)

  datatype Config = Config(n: nat, p: nat, seed: nat -> nat, hash: (nat, nat) -> nat)
  {
    // The base of a column's fingerprint (gen_r).
    function R(col: nat): (r: nat)
      requires p > 3
      ensures 2 <= r <= p - 2
    {
      2 + seed(col) % (p - 3)
    }

    // contains (bucket.cpp, lines 5-12) with guess 2^j. The program passes 1 << j, an int shift, which is
    // 2^j only for j <= 30; see ShiftFits.
    predicate Contains(index: nat, col: nat, j: nat)
    {
      hash(index + 1, seed(col)) % Pow2(j) == 0
    }

    function Columns(): nat
      requires n > 0
    {
      FloorLog2(n) + 1
    }

    function Guesses(): nat
      requires n > 0
    {
      FloorLog2(n) + 2
    }

    // Buckets are numbered column by column.
    function Id(col: nat, j: nat): nat
      requires n > 0
    {
      col * Guesses() + j
    }

    function ColumnOf(id: nat): nat
      requires n > 0
    {
      id / Guesses()
    }

    function GuessOf(id: nat): nat
      requires n > 0
    {
      id % Guesses()
    }
  }

  // Every guess of a sketch fits the int shift as long as the vector has fewer than 2^30 coordinates,
  // and from 2^30 on some guess does not.
  lemma ShiftFits(cfg: Config)
    requires cfg.n > 0
    ensures (forall j: nat :: j < cfg.Guesses() ==> Pow2(j) < 0x8000_0000) <==> cfg.n < 0x4000_0000
  {
    hide Pow2, FloorLog2;
    BigPowers();
    var top := FloorLog2(cfg.n);
    if cfg.n < 0x4000_0000 {
      if top >= 30 { Pow2Grows(30, top); }
      forall j: nat | j < cfg.Guesses()
        ensures Pow2(j) < 0x8000_0000
      {
        Pow2Grows(j, 30);
      }
    } else {
      if top < 30 { Pow2Grows(top, 29); }
      Pow2Grows(31, top + 1);
      assert top + 1 < cfg.Guesses();
    }
  }

  lemma BigPowers()
    ensures Pow2(29) == 0x2000_0000 && Pow2(30) == 0x4000_0000 && Pow2(31) == 0x8000_0000
  {
    hide Pow2;
    SmallPowers();
    Pow2Plus(10, 10);
    Pow2Plus(20, 9);
    Pow2Plus(29, 1);
    Pow2Plus(30, 1);
  }

  lemma SmallPowers()
    ensures Pow2(1) == 2 && Pow2(9) == 0x200 && Pow2(10) == 0x400
  {
    assert Pow2(3) == 8;
    assert Pow2(6) == 8 * Pow2(3);
    assert Pow2(9) == 8 * Pow2(6);
  }

  // ---- Division that truncates toward zero ----

  function TruncDiv(x: int, y: int): int
    requires y != 0
  {
    var q := Abs(x) / Abs(y);
    if (x < 0) == (y < 0) then q else -q
  }

  function TruncMod(x: int, y: int): int
    requires y != 0
  {
    if x < 0 then -(Abs(x) % Abs(y)) else x % Abs(y)
  }

  function Abs(x: int): nat { if x < 0 then -x else x }

  lemma TruncParts(x: int, y: int)
    requires y != 0
    ensures x == y * TruncDiv(x, y) + TruncMod(x, y) && Abs(TruncMod(x, y)) < Abs(y)
  {
    ModParts(Abs(x), Abs(y));
  }

  lemma TruncCongruent(x: int, p: nat)
    requires p > 0
    ensures TruncMod(x, p) % p == x % p && Abs(TruncMod(x, p)) < p
  {
    TruncParts(x, p);
    ModShift(TruncMod(x, p), TruncDiv(x, p), p);
  }

  // ---- The vector behind a stream of updates ----

  ghost function Net(us: seq<Update>, x: nat): int
  {
    if us == [] then 0
    else
      var u := us[|us| - 1];
      Net(us[..|us| - 1], x) + if u.index == x then u.delta else 0
  }

  ghost function Sum(us: seq<Update>, w: nat -> int): int
  {
    if us == [] then 0
    else
      var u := us[|us| - 1];
      Sum(us[..|us| - 1], w) + u.delta * w(u.index)
  }

  ghost function Dot(us: seq<Update>, w: nat -> int, n: nat): int
  {
    if n == 0 then 0 else Dot(us, w, n - 1) + Net(us, n - 1) * w(n - 1)
  }

  ghost predicate InRange(us: seq<Update>, n: nat) { forall u <- us :: u.index < n }

  lemma {:induction false} DotNone(w: nat -> int, n: nat)
    ensures Dot([], w, n) == 0
  {
    if n > 0 { DotNone(w, n - 1); }
  }

  lemma {:induction false} DotAdd(us: seq<Update>, u: Update, w: nat -> int, n: nat)
    ensures Dot(us + [u], w, n) == Dot(us, w, n) + if u.index < n then u.delta * w(u.index) else 0
  {
    if n > 0 {
      DotAdd(us, u, w, n - 1);
      NetAdd(us, u, n - 1);
      if u.index == n - 1 { Spread(Net(us, n - 1), u.delta, w(n - 1)); }
    }
  }

  lemma Spread(x: int, y: int, w: int)
    ensures (x + y) * w == x * w + y * w
  {
  }

  lemma NetAdd(us: seq<Update>, u: Update, x: nat)
    ensures Net(us + [u], x) == Net(us, x) + if u.index == x then u.delta else 0
  {
    assert (us + [u])[..|us|] == us;
  }

  lemma {:induction false} SumIsDot(us: seq<Update>, w: nat -> int, n: nat)
    requires InRange(us, n)
    ensures Sum(us, w) == Dot(us, w, n)
  {
    if us == [] {
      DotNone(w, n);
    } else {
      var front, u := us[..|us| - 1], us[|us| - 1];
      SumIsDot(front, w, n);
      DotAdd(front, u, w, n);
      assert front + [u] == us;
    }
  }

  lemma {:induction false} DotSame(us: seq<Update>, vs: seq<Update>, w: nat -> int, n: nat)
    requires forall x: nat :: x < n ==> Net(us, x) == Net(vs, x) || w(x) == 0
    ensures Dot(us, w, n) == Dot(vs, w, n)
  {
    if n > 0 {
      DotSame(us, vs, w, n - 1);
      assert Net(us, n - 1) == Net(vs, n - 1) || w(n - 1) == 0;
    }
  }

  // A weighted sum of a stream depends only on its net vector, and there only where the weight is not zero.
  lemma NetDeterminesSum(us: seq<Update>, vs: seq<Update>, w: nat -> int, n: nat)
    requires InRange(us, n) && InRange(vs, n)
    requires forall x: nat :: x < n ==> Net(us, x) == Net(vs, x) || w(x) == 0
    ensures Sum(us, w) == Sum(vs, w)
  {
    SumIsDot(us, w, n);
    SumIsDot(vs, w, n);
    DotSame(us, vs, w, n);
  }

  lemma {:induction false} SumConcat(us: seq<Update>, vs: seq<Update>, w: nat -> int)
    ensures Sum(us + vs, w) == Sum(us, w) + Sum(vs, w)
  {
    if vs == [] {
      assert us + vs == us;
    } else {
      SumConcat(us, vs[..|vs| - 1], w);
      assert (us + vs)[..|us + vs| - 1] == us + vs[..|vs| - 1];
    }
  }

  lemma {:induction false} NetConcat(us: seq<Update>, vs: seq<Update>, x: nat)
    ensures Net(us + vs, x) == Net(us, x) + Net(vs, x)
  {
    if vs == [] {
      assert us + vs == us;
    } else {
      NetConcat(us, vs[..|vs| - 1], x);
      assert (us + vs)[..|us + vs| - 1] == us + vs[..|vs| - 1];
    }
  }

  // ---- What a bucket holds ----

  ghost function CountWeight(cfg: Config, col: nat, j: nat): nat -> int
  {
    (x: nat) => if cfg.Contains(x, col, j) then 1 else 0
  }

  ghost function PlaceWeight(cfg: Config, col: nat, j: nat): nat -> int
  {
    (x: nat) => if cfg.Contains(x, col, j) then x + 1 else 0
  }

  ghost function PrintWeight(cfg: Config, col: nat, j: nat): nat -> int
    requires cfg.p > 3
  {
    (x: nat) => if cfg.Contains(x, col, j) then Pow(cfg.R(col), x + 1) else 0
  }

  // The bucket of a stream: the sum of its deltas, of its deltas times one-based indices, and its fingerprint.
  ghost function BucketOf(cfg: Config, us: seq<Update>, col: nat, j: nat): (bucket: Bucket)
    requires cfg.p > 3
    ensures bucket.c < cfg.p
  {
    Bucket(Sum(us, CountWeight(cfg, col, j)), Sum(us, PlaceWeight(cfg, col, j)),
           Sum(us, PrintWeight(cfg, col, j)) % cfg.p)
  }

  ghost predicate SameVector(us: seq<Update>, vs: seq<Update>, n: nat)
  {
    forall x: nat :: x < n ==> Net(us, x) == Net(vs, x)
  }

  ghost predicate SameWithin(cfg: Config, us: seq<Update>, vs: seq<Update>, col: nat, j: nat)
  {
    forall x: nat :: x < cfg.n && cfg.Contains(x, col, j) ==> Net(us, x) == Net(vs, x)
  }

  // A bucket depends only on the net vector, restricted to the coordinates it contains: order,
  // splitting and cancellation of updates do not show.
  lemma NetDeterminesBucket(cfg: Config, us: seq<Update>, vs: seq<Update>, col: nat, j: nat)
    requires cfg.p > 3 && InRange(us, cfg.n) && InRange(vs, cfg.n) && SameWithin(cfg, us, vs, col, j)
    ensures BucketOf(cfg, us, col, j) == BucketOf(cfg, vs, col, j)
  {
    NetDeterminesSum(us, vs, CountWeight(cfg, col, j), cfg.n);
    NetDeterminesSum(us, vs, PlaceWeight(cfg, col, j), cfg.n);
    NetDeterminesSum(us, vs, PrintWeight(cfg, col, j), cfg.n);
  }

  lemma UpdatesCommute(cfg: Config, us: seq<Update>, vs: seq<Update>, col: nat, j: nat)
    requires cfg.p > 3 && InRange(us, cfg.n) && InRange(vs, cfg.n)
    ensures BucketOf(cfg, us + vs, col, j) == BucketOf(cfg, vs + us, col, j)
  {
    forall x: nat | x < cfg.n
      ensures Net(us + vs, x) == Net(vs + us, x)
    {
      NetConcat(us, vs, x);
      NetConcat(vs, us, x);
    }
    NetDeterminesBucket(cfg, us + vs, vs + us, col, j);
  }

  const EMPTY := Bucket(0, 0, 0)

  lemma CancelledIsEmpty(cfg: Config, us: seq<Update>, col: nat, j: nat)
    requires cfg.p > 3 && InRange(us, cfg.n)
    requires forall x: nat :: x < cfg.n ==> Net(us, x) == 0
    ensures BucketOf(cfg, us, col, j) == EMPTY
  {
    NetDeterminesBucket(cfg, us, [], col, j);
  }

  // Fingerprints add up modulo p.
  function Added(x: Bucket, y: Bucket, p: nat): Bucket
    requires p > 0
  {
    Bucket(x.a + y.a, x.b + y.b, (x.c + y.c) % p)
  }

  lemma BucketsAdd(cfg: Config, us: seq<Update>, vs: seq<Update>, col: nat, j: nat)
    requires cfg.p > 3
    ensures BucketOf(cfg, us + vs, col, j) == Added(BucketOf(cfg, us, col, j), BucketOf(cfg, vs, col, j), cfg.p)
  {
    SumConcat(us, vs, CountWeight(cfg, col, j));
    SumConcat(us, vs, PlaceWeight(cfg, col, j));
    SumConcat(us, vs, PrintWeight(cfg, col, j));
    ReducedSum(Sum(us, PrintWeight(cfg, col, j)), Sum(vs, PrintWeight(cfg, col, j)), cfg.p);
  }

  lemma ReducedSum(x: int, y: int, p: nat)
    requires p > 0
    ensures (x % p + y % p) % p == (x + y) % p
  {
    AddMod(x, y % p, p);
    AddMod(y, x, p);
  }

  // One more update in a bucket that contains its index.
  function Entered(bucket: Bucket, u: Update, p: nat, r: nat): Bucket
    requires p > 0
  {
    Bucket(bucket.a + u.delta, bucket.b + u.Place(), (bucket.c + u.delta * Pow(r, u.index + 1)) % p)
  }

  lemma BucketGrows(cfg: Config, us: seq<Update>, u: Update, col: nat, j: nat)
    requires cfg.p > 3
    ensures BucketOf(cfg, us + [u], col, j)
         == if cfg.Contains(u.index, col, j)
            then Entered(BucketOf(cfg, us, col, j), u, cfg.p, cfg.R(col)) else BucketOf(cfg, us, col, j)
  {
    assert (us + [u])[..|us|] == us;
    var s := Sum(us, PrintWeight(cfg, col, j));
    if cfg.Contains(u.index, col, j) { AddMod(s, u.delta * Pow(cfg.R(col), u.index + 1), cfg.p); }
  }

  // ---- Bucket operations ----

  // The signed remainder keeps the new fingerprint in range whatever the sign of the delta.
  function NewPrint(c: nat, delta: int, power: nat, p: nat): nat
    requires p > 0
  {
    (c + p + TruncMod(delta * power, p)) % p
  }

  lemma SignedPrint(c: nat, delta: int, power: nat, p: nat)
    requires p > 0 && c < p
    ensures c + p + TruncMod(delta * (power % p), p) >= 0
    ensures NewPrint(c, delta, power % p, p) == (c + delta * power) % p
  {
    hide TruncMod;
    var t := TruncMod(delta * (power % p), p);
    TruncCongruent(delta * (power % p), p);
    ModShift(c + t, 1, p);
    AddMod(t, c, p);
    AddMod(delta * power, c, p);
    MulMod(power, delta, p);
  }

  lemma SignedEntered(bucket: Bucket, u: Update, p: nat, r: nat)
    requires p > 0 && bucket.c < p
    ensures var mark := NewPrint(bucket.c, u.delta, Pow(r, u.index + 1) % p, p);
      Entered(bucket, u, p, r) == Bucket(bucket.a + u.delta, bucket.b + u.Place(), mark)
  {
    hide NewPrint, Pow, Update.Place;
    SignedPrint(bucket.c, u.delta, Pow(r, u.index + 1), p);
  }

  // update (bucket.cpp, lines 29-41).
  method UpdateBucket(bucket: Bucket, u: Update, p: nat, r: nat) returns (bucket': Bucket)
    requires p > 3 && bucket.c < p
    ensures bucket' == Entered(bucket, u, p, r)
  {
    hide Pow, NewPrint, Update.Place, Entered;
    var power := PowerMod(r, u.index + 1, p);
    SignedEntered(bucket, u, p, r);
    bucket' := Bucket(bucket.a + u.delta, bucket.b + u.Place(), NewPrint(bucket.c, u.delta, power, p));
  }

  // cached_update (bucket.cpp, lines 43-57): the same new bucket.
  method CachedUpdateBucket(bucket: Bucket, u: Update, p: nat, cache: seq<nat>, ghost r: nat)
    returns (bucket': Bucket)
    requires p > 3 && bucket.c < p && CacheOk(cache, r, p) && u.index + 1 < Pow2(|cache|)
    ensures bucket' == Entered(bucket, u, p, r)
  {
    hide Pow, Pow2, NewPrint, CacheOk, Update.Place, Entered;
    var power := CachedPowerMod(cache, u.index + 1, p, r);
    SignedEntered(bucket, u, p, r);
    bucket' := Bucket(bucket.a + u.delta, bucket.b + u.Place(), NewPrint(bucket.c, u.delta, power, p));
  }

  // A bucket is good when it is the bucket of one single nonzero update that belongs in it.
  ghost predicate Single(cfg: Config, bucket: Bucket, col: nat, j: nat, x: nat)
    requires cfg.p > 3
  {
    && bucket.a != 0 && x < cfg.n && cfg.Contains(x, col, j)
    && bucket == BucketOf(cfg, [Update(x, bucket.a)], col, j)
  }

  ghost predicate Good(cfg: Config, bucket: Bucket, col: nat, j: nat)
    requires cfg.p > 3
  {
    exists x :: Single(cfg, bucket, col, j, x)
  }

  lemma SingleMeans(cfg: Config, bucket: Bucket, col: nat, j: nat, x: nat)
    requires cfg.p > 3 && cfg.Contains(x, col, j)
    ensures BucketOf(cfg, [Update(x, bucket.a)], col, j)
         == Bucket(bucket.a, bucket.a * (x + 1), bucket.a * Pow(cfg.R(col), x + 1) % cfg.p)
  {
    var u := Update(x, bucket.a);
    BucketGrows(cfg, [], u, col, j);
    assert [] + [u] == [u];
  }

  lemma ExactQuotient(b: int, a: int, q: int)
    requires a != 0
    ensures b == a * q <==> TruncMod(b, a) == 0 && TruncDiv(b, a) == q
  {
    TruncParts(b, a);
    if b == a * q {
      hide TruncDiv, TruncMod;
      MultipleBelow(a, q - TruncDiv(b, a), TruncMod(b, a));
    }
  }

  lemma MultipleBelow(a: int, d: int, t: int)
    requires a * d == t && Abs(t) < Abs(a)
    ensures d == 0 && t == 0
  {
    if d != 0 { AtLeast(Abs(d), Abs(a)); }
  }

  // The test of the fingerprint, with the remainder's sign.
  lemma PrintTest(c: nat, a: int, power: nat, p: nat)
    requires p > 0 && c < p
    ensures TruncMod(TruncMod(c + p - a * (power % p), p), p) == 0 <==> c == a * power % p
  {
    var z := c + p - a * (power % p);
    ZeroTest(z, p);
    ZeroTest(TruncMod(z, p), p);
    TruncCongruent(z, p);
    MulMod(power, a, p);
    PrintCongruent(c, a * (power % p), p);
  }

  lemma ZeroTest(z: int, p: nat)
    requires p > 0
    ensures TruncMod(z, p) == 0 <==> z % p == 0
  {
    hide TruncMod;
    TruncCongruent(z, p);
    var t := TruncMod(z, p);
    if t > 0 { Reduced(t, p); }
    if t < 0 { ModShift(t, 1, p); Reduced(t + p, p); }
    Reduced(0, p);
  }

  lemma PrintCongruent(c: nat, y: int, p: nat)
    requires p > 0 && c < p
    ensures (c + p - y) % p == 0 <==> c == y % p
  {
    ModShift(c - y, 1, p);
    if (c - y) % p == 0 { MultipleApart(c, y, p); }
    if c == y % p { RemainderApart(c, y, p); }
  }

  lemma MultipleApart(c: nat, y: int, p: nat)
    requires p > 0 && c < p && (c - y) % p == 0
    ensures c == y % p
  {
    ModParts(y, p);
    ModParts(c - y, p);
    Spread((c - y) / p, y / p, p);
    Apart(0, c, (c - y) / p + y / p, y % p, p);
  }

  lemma RemainderApart(c: nat, y: int, p: nat)
    requires p > 0 && c == y % p
    ensures (c - y) % p == 0
  {
    ModParts(y, p);
    ModShift(0, -(y / p), p);
    Difference(0, y / p, p);
    Reduced(0, p);
  }

  lemma SingleQuotient(cfg: Config, bucket: Bucket, col: nat, j: nat, x: nat)
    requires cfg.p > 3 && Single(cfg, bucket, col, j, x)
    ensures TruncMod(bucket.b, bucket.a) == 0 && TruncDiv(bucket.b, bucket.a) == x + 1
  {
    hide BucketOf, TruncMod, TruncDiv;
    SingleMeans(cfg, bucket, col, j, x);
    ExactQuotient(bucket.b, bucket.a, x + 1);
  }

  lemma QuotientSingle(cfg: Config, bucket: Bucket, col: nat, j: nat, x: nat)
    requires cfg.p > 3 && bucket.a != 0 && x < cfg.n && cfg.Contains(x, col, j)
    requires TruncMod(bucket.b, bucket.a) == 0 && TruncDiv(bucket.b, bucket.a) == x + 1
    ensures Single(cfg, bucket, col, j, x) <==> bucket.c == bucket.a * Pow(cfg.R(col), x + 1) % cfg.p
  {
    hide BucketOf, TruncMod, TruncDiv;
    SingleMeans(cfg, bucket, col, j, x);
    ExactQuotient(bucket.b, bucket.a, x + 1);
  }

  // is_good (bucket.cpp, lines 14-27).
  method IsGood(cfg: Config, bucket: Bucket, col: nat, j: nat) returns (good: bool)
    requires cfg.p > 3 && bucket.c < cfg.p
    ensures good <==> Good(cfg, bucket, col, j)
    ensures good ==> bucket.a != 0 && TruncDiv(bucket.b, bucket.a) > 0
    ensures good ==> Single(cfg, bucket, col, j, TruncDiv(bucket.b, bucket.a) - 1)
  {
    hide BucketOf, TruncDiv, TruncMod;
    if bucket.a == 0 { return false; }
    var q := TruncDiv(bucket.b, bucket.a);
    forall x: nat | Single(cfg, bucket, col, j, x)
      ensures TruncMod(bucket.b, bucket.a) == 0 && q == x + 1
    {
      SingleQuotient(cfg, bucket, col, j, x);
    }
    if !(TruncMod(bucket.b, bucket.a) == 0 && 0 < q <= cfg.n && cfg.Contains(q - 1, col, j)) { return false; }
    var power := PowerMod(cfg.R(col), q, cfg.p);
    PrintTest(bucket.c, bucket.a, Pow(cfg.R(col), q), cfg.p);
    QuotientSingle(cfg, bucket, col, j, q - 1);
    good := TruncMod(TruncMod(bucket.c + cfg.p - bucket.a * power, cfg.p), cfg.p) == 0;
  }

  // ---- The sketch ----

  function Size(cfg: Config): nat
    requires cfg.n > 0
  {
    cfg.Columns() * cfg.Guesses()
  }

  ghost function Cell(cfg: Config, us: seq<Update>, id: nat): (bucket: Bucket)
    requires cfg.n > 0 && cfg.p > 3
    ensures bucket.c < cfg.p
  {
    BucketOf(cfg, us, cfg.ColumnOf(id), cfg.GuessOf(id))
  }

  ghost predicate GoodCell(cfg: Config, bucket: Bucket, id: nat)
    requires cfg.n > 0 && cfg.p > 3
  {
    Good(cfg, bucket, cfg.ColumnOf(id), cfg.GuessOf(id))
  }

  ghost predicate SketchOf(cfg: Config, buckets: seq<Bucket>, us: seq<Update>)
  {
    && cfg.n > 0 && cfg.p > 3 && |buckets| == Size(cfg)
    && forall id: nat :: id < |buckets| ==> buckets[id] == Cell(cfg, us, id)
  }

  // The sketch is a function of the net vector.
  lemma NetDeterminesSketch(cfg: Config, xs: seq<Bucket>, us: seq<Update>, ys: seq<Bucket>, vs: seq<Update>)
    requires SketchOf(cfg, xs, us) && SketchOf(cfg, ys, vs)
    requires InRange(us, cfg.n) && InRange(vs, cfg.n) && SameVector(us, vs, cfg.n)
    ensures xs == ys
  {
    forall id: nat | id < |xs|
      ensures xs[id] == ys[id]
    {
      NetDeterminesBucket(cfg, us, vs, cfg.ColumnOf(id), cfg.GuessOf(id));
    }
  }

  lemma Numbered(i: nat, j: nat, columns: nat, guesses: nat)
    requires i < columns && j < guesses
    ensures (i * guesses + j) / guesses == i && (i * guesses + j) % guesses == j
    ensures i * guesses + j < columns * guesses && i * guesses + guesses == (i + 1) * guesses <= columns * guesses
  {
    var id := i * guesses + j;
    ModParts(id, guesses);
    Apart(i, j, id / guesses, id % guesses, guesses);
    Difference(columns, i, guesses);
    AtLeast(columns - i, guesses);
    Spread(i, 1, guesses);
  }

  // The first k buckets of a sketch have taken up one more update, the others have not.
  ghost predicate Partly(cfg: Config, buckets: seq<Bucket>, us: seq<Update>, u: Update, k: nat)
  {
    && cfg.n > 0 && cfg.p > 3 && |buckets| == Size(cfg)
    && (forall id: nat :: id < |buckets| && id < k ==> buckets[id] == Cell(cfg, us + [u], id))
    && (forall id: nat :: k <= id < |buckets| ==> buckets[id] == Cell(cfg, us, id))
  }

  lemma PartlyStep(cfg: Config, buckets: seq<Bucket>, us: seq<Update>, u: Update, i: nat, j: nat)
    requires cfg.n > 0 && cfg.p > 3 && i < cfg.Columns() && j < cfg.Guesses()
    requires Partly(cfg, buckets, us, u, cfg.Id(i, j))
    ensures cfg.Id(i, j) < |buckets| && buckets[cfg.Id(i, j)].c < cfg.p
    ensures Partly(cfg, buckets[cfg.Id(i, j) := TakenUp(cfg, buckets[cfg.Id(i, j)], u, i, j)], us, u, cfg.Id(i, j + 1))
  {
    hide BucketOf, Entered;
    Numbered(i, j, cfg.Columns(), cfg.Guesses());
    BucketGrows(cfg, us, u, i, j);
  }

  ghost function TakenUp(cfg: Config, bucket: Bucket, u: Update, i: nat, j: nat): Bucket
    requires cfg.p > 3
  {
    if cfg.Contains(u.index, i, j) then Entered(bucket, u, cfg.p, cfg.R(i)) else bucket
  }

  lemma PartlyRow(cfg: Config, buckets: seq<Bucket>, us: seq<Update>, u: Update, i: nat)
    requires cfg.n > 0 && Partly(cfg, buckets, us, u, cfg.Id(i, cfg.Guesses()))
    ensures Partly(cfg, buckets, us, u, cfg.Id(i + 1, 0))
  {
    hide Partly;
    Spread(i, 1, cfg.Guesses());
  }

  lemma PartlyNone(cfg: Config, buckets: seq<Bucket>, us: seq<Update>, u: Update)
    requires SketchOf(cfg, buckets, us)
    ensures cfg.n > 0 && cfg.p > 3 && Partly(cfg, buckets, us, u, cfg.Id(0, 0))
  {
  }

  lemma PartlyAll(cfg: Config, buckets: seq<Bucket>, us: seq<Update>, u: Update)
    requires cfg.n > 0 && Partly(cfg, buckets, us, u, cfg.Id(cfg.Columns(), 0))
    ensures SketchOf(cfg, buckets, us + [u])
  {
  }

  datatype Answer = Found(update: Update) | MultipleQuery | AllBucketsZero | NoGoodBucket

  // The answer of a first query: from the first good bucket, if there is one.
  ghost predicate Answers(cfg: Config, buckets: seq<Bucket>, answer: Answer)
    requires cfg.n > 0 && cfg.p > 3
  {
    match answer
    case Found(u) =>
      exists id: nat :: id < |buckets| && NoneGood(cfg, buckets, id) && u.delta == buckets[id].a
                     && Single(cfg, buckets[id], cfg.ColumnOf(id), cfg.GuessOf(id), u.index)
    case AllBucketsZero => AllEmpty(buckets, |buckets|) && NoneGood(cfg, buckets, |buckets|)
    case NoGoodBucket => !AllEmpty(buckets, |buckets|) && NoneGood(cfg, buckets, |buckets|)
    case MultipleQuery => false
  }

  ghost predicate NoneGood(cfg: Config, buckets: seq<Bucket>, k: nat)
    requires cfg.n > 0 && cfg.p > 3
  {
    forall id: nat :: id < k && id < |buckets| ==> !GoodCell(cfg, buckets[id], id)
  }

  ghost predicate AllEmpty(buckets: seq<Bucket>, k: nat)
  {
    forall id: nat :: id < k && id < |buckets| ==> buckets[id] == EMPTY
  }

  ghost predicate Isolated(cfg: Config, us: seq<Update>, col: nat, j: nat, x: nat)
  {
    && x < cfg.n && Net(us, x) != 0 && cfg.Contains(x, col, j)
    && forall y: nat :: y < cfg.n && cfg.Contains(y, col, j) && y != x ==> Net(us, y) == 0
  }

  // A bucket in which exactly one nonzero coordinate falls is good, and tells that coordinate and its value.
  lemma IsolatedIsSingle(cfg: Config, us: seq<Update>, col: nat, j: nat, x: nat)
    requires cfg.p > 3 && InRange(us, cfg.n) && Isolated(cfg, us, col, j, x)
    ensures BucketOf(cfg, us, col, j).a == Net(us, x) && Single(cfg, BucketOf(cfg, us, col, j), col, j, x)
  {
    var u := Update(x, Net(us, x));
    forall y: nat
      ensures Net([u], y) == if y == x then u.delta else 0
    {
      NetAdd([], u, y);
      assert [] + [u] == [u];
    }
    NetDeterminesBucket(cfg, us, [u], col, j);
    SingleMeans(cfg, BucketOf(cfg, us, col, j).(a := u.delta), col, j, x);
  }

  lemma SingleUnique(cfg: Config, bucket: Bucket, col: nat, j: nat, x: nat, y: nat)
    requires cfg.p > 3 && Single(cfg, bucket, col, j, x) && Single(cfg, bucket, col, j, y)
    ensures x == y
  {
    SingleQuotient(cfg, bucket, col, j, x);
    SingleQuotient(cfg, bucket, col, j, y);
  }

  // Exact recovery: the vector with one nonzero coordinate is always found, whatever the hash.
  lemma OneCoordinateFound(cfg: Config, buckets: seq<Bucket>, us: seq<Update>, x: nat, answer: Answer)
    requires SketchOf(cfg, buckets, us) && InRange(us, cfg.n) && x < cfg.n && Net(us, x) != 0
    requires forall y: nat :: y < cfg.n && y != x ==> Net(us, y) == 0
    requires Answers(cfg, buckets, answer)
    ensures answer == Found(Update(x, Net(us, x)))
  {
    hide BucketOf, FloorLog2;
    Numbered(0, 0, cfg.Columns(), cfg.Guesses());
    IsolatedIsSingle(cfg, us, 0, 0, x);
    assert buckets[0] == Cell(cfg, us, 0);
    assert GoodCell(cfg, buckets[0], 0);
    assert answer.Found?;
    SingleUnique(cfg, buckets[0], 0, 0, x, answer.update.index);
  }

  // A query fails only when no bucket isolates a coordinate.
  lemma IsolationFinds(cfg: Config, buckets: seq<Bucket>, us: seq<Update>, id: nat, x: nat, answer: Answer)
    requires SketchOf(cfg, buckets, us) && InRange(us, cfg.n) && Answers(cfg, buckets, answer)
    requires id < |buckets| && Isolated(cfg, us, cfg.ColumnOf(id), cfg.GuessOf(id), x)
    ensures answer.Found?
  {
    hide BucketOf, Isolated, FloorLog2;
    IsolatedIsSingle(cfg, us, cfg.ColumnOf(id), cfg.GuessOf(id), x);
    assert GoodCell(cfg, buckets[id], id);
  }

  lemma ZeroVectorIsAllZero(cfg: Config, buckets: seq<Bucket>, us: seq<Update>, answer: Answer)
    requires SketchOf(cfg, buckets, us) && InRange(us, cfg.n) && Answers(cfg, buckets, answer)
    requires forall x: nat :: x < cfg.n ==> Net(us, x) == 0
    ensures AllEmpty(buckets, |buckets|) && answer == AllBucketsZero
  {
    hide BucketOf, FloorLog2, Net;
    forall id: nat | id < |buckets|
      ensures buckets[id] == EMPTY
    {
      CancelledIsEmpty(cfg, us, cfg.ColumnOf(id), cfg.GuessOf(id));
    }
  }

  lemma CellsAdd(cfg: Config, us: seq<Update>, vs: seq<Update>, id: nat)
    requires cfg.n > 0 && cfg.p > 3
    ensures Cell(cfg, us + vs, id) == Added(Cell(cfg, us, id), Cell(cfg, vs, id), cfg.p)
  {
    BucketsAdd(cfg, us, vs, cfg.ColumnOf(id), cfg.GuessOf(id));
  }

  lemma IdBack(cfg: Config, i: nat, j: nat)
    requires cfg.n > 0 && i < cfg.Columns() && j < cfg.Guesses()
    ensures cfg.Id(i, j) < Size(cfg) && cfg.ColumnOf(cfg.Id(i, j)) == i && cfg.GuessOf(cfg.Id(i, j)) == j
    ensures cfg.Id(i, j + 1) == cfg.Id(i, j) + 1
  {
    Numbered(i, j, cfg.Columns(), cfg.Guesses());
  }

  // None of the first k buckets is good, and the flag tells whether they are all zero.
  ghost predicate Looked(cfg: Config, buckets: seq<Bucket>, k: nat, allZero: bool)
    requires cfg.n > 0 && cfg.p > 3
  {
    NoneGood(cfg, buckets, k) && (allZero <==> AllEmpty(buckets, k))
  }

  lemma SketchReduced(cfg: Config, buckets: seq<Bucket>, us: seq<Update>, id: nat)
    requires cfg.n > 0 && SketchOf(cfg, buckets, us) && id < Size(cfg)
    ensures id < |buckets| && buckets[id].c < cfg.p
  {
  }

  lemma LookedNone(cfg: Config, buckets: seq<Bucket>, us: seq<Update>)
    requires SketchOf(cfg, buckets, us)
    ensures cfg.n > 0 && cfg.p > 3 && Looked(cfg, buckets, cfg.Id(0, 0), true)
  {
  }

  // A good bucket is the answer; any other is one more that has been looked at.
  lemma LookedOne(cfg: Config, buckets: seq<Bucket>, id: nat, allZero: bool)
    requires cfg.n > 0 && cfg.p > 3 && id < |buckets| && Looked(cfg, buckets, id, allZero)
    ensures !GoodCell(cfg, buckets[id], id) ==> Looked(cfg, buckets, id + 1, allZero && buckets[id] == EMPTY)
    ensures forall x: nat :: Single(cfg, buckets[id], cfg.ColumnOf(id), cfg.GuessOf(id), x)
                             ==> Answers(cfg, buckets, Found(Update(x, buckets[id].a)))
  {
    hide Single, FloorLog2, Config.ColumnOf, Config.GuessOf;
  }

  lemma LookedAll(cfg: Config, buckets: seq<Bucket>, us: seq<Update>, allZero: bool)
    requires cfg.n > 0 && cfg.p > 3 && SketchOf(cfg, buckets, us)
    requires Looked(cfg, buckets, cfg.Id(cfg.Columns(), 0), allZero)
    ensures Answers(cfg, buckets, if allZero then AllBucketsZero else NoGoodBucket)
  {
    hide Good, FloorLog2;
  }

  lemma IdNext(cfg: Config, i: nat)
    requires cfg.n > 0
    ensures cfg.Id(i, cfg.Guesses()) == cfg.Id(i + 1, 0)
  {
    Spread(i, 1, cfg.Guesses());
  }

  class AgmSketch {
    const cfg: Config
    const buckets: array<Bucket>
    var queried: bool
    // Everything applied to this sketch so far.
    ghost var stream: seq<Update>

    ghost predicate Valid()
      reads this, buckets
    {
      SketchOf(cfg, buckets[..], stream)
    }

    constructor (cfg: Config)
      requires cfg.n > 0 && cfg.p > 3
      ensures this.cfg == cfg && Valid() && stream == [] && !queried && fresh(buckets)
    {
      this.cfg := cfg;
      this.buckets := new Bucket[Size(cfg)](_ => EMPTY);
      this.queried := false;
      this.stream := [];
      new;
      Reduced(0, cfg.p);
    }

    // update (agm_sketch.cpp, lines 13-30).
    method Apply(u: Update)
      requires Valid()
      modifies this`stream, buckets
      ensures Valid() && stream == old(stream) + [u]
    {
      hide SketchOf, Partly, BucketOf, FloorLog2, Config.Id, Entered;
      ghost var us := stream;
      PartlyNone(cfg, buckets[..], us, u);
      var columns, guesses := cfg.Columns(), cfg.Guesses();
      var i: nat := 0;
      while i < columns
        invariant i <= columns && stream == us && Partly(cfg, buckets[..], us, u, cfg.Id(i, 0))
      {
        var r := cfg.R(i);
        var j: nat := 0;
        while j < guesses
          invariant j <= guesses && stream == us && Partly(cfg, buckets[..], us, u, cfg.Id(i, j))
        {
          PartlyStep(cfg, buckets[..], us, u, i, j);
          ghost var was := buckets[..];
          var id := cfg.Id(i, j);
          if cfg.Contains(u.index, i, j) {
            buckets[id] := UpdateBucket(buckets[id], u, cfg.p, r);
          }
          assert buckets[..] == was[id := TakenUp(cfg, was[id], u, i, j)];
          j := j + 1;
        }
        PartlyRow(cfg, buckets[..], us, u, i);
        i := i + 1;
      }
      stream := stream + [u];
      PartlyAll(cfg, buckets[..], us, u);
    }

    // query (agm_sketch.cpp, lines 32-63).
    method Query() returns (answer: Answer)
      requires Valid()
      modifies this`queried
      ensures Valid() && queried
      ensures if old(queried) then answer == MultipleQuery else Answers(cfg, buckets[..], answer)
    {
      hide SketchOf, BucketOf, Single, TruncDiv, TruncMod, Looked, Answers, FloorLog2;
      hide Config.Id, Config.ColumnOf, Config.GuessOf;
      if queried { return MultipleQuery; }
      queried := true;
      LookedNone(cfg, buckets[..], stream);
      var allZero := true;
      var columns, guesses := cfg.Columns(), cfg.Guesses();
      var i: nat := 0;
      while i < columns
        modifies {}
        invariant i <= columns && Looked(cfg, buckets[..], cfg.Id(i, 0), allZero)
      {
        var j: nat := 0;
        while j < guesses
          modifies {}
          invariant j <= guesses && Looked(cfg, buckets[..], cfg.Id(i, j), allZero)
        {
          IdBack(cfg, i, j);
          var id := cfg.Id(i, j);
          SketchReduced(cfg, buckets[..], stream, id);
          var bucket := buckets[id];
          LookedOne(cfg, buckets[..], id, allZero);
          if bucket.a != 0 || bucket.b != 0 || bucket.c != 0 { allZero := false; }
          var good := IsGood(cfg, bucket, i, j);
          if good { return Found(Update(TruncDiv(bucket.b, bucket.a) - 1, bucket.a)); }
          j := j + 1;
        }
        IdNext(cfg, i);
        i := i + 1;
      }
      LookedAll(cfg, buckets[..], stream, allZero);
      assert buckets[..] == old(buckets[..]);
      return if allZero then AllBucketsZero else NoGoodBucket;
    }

    // operator+ (agm_sketch.cpp, lines 65-77).
    static method Plus(x: AgmSketch, y: AgmSketch) returns (z: AgmSketch)
      requires x.Valid() && y.Valid() && x.cfg == y.cfg
      ensures fresh(z) && fresh(z.buckets) && z.Valid() && z.cfg == x.cfg
      ensures z.stream == x.stream + y.stream && !z.queried
    {
      z := new AgmSketch(x.cfg);
      hide BucketOf, FloorLog2;
      var id: nat := 0;
      while id < z.buckets.Length
        modifies z.buckets
        invariant x.Valid() && y.Valid() && id <= z.buckets.Length
        invariant forall k: nat :: k < id ==> z.buckets[k] == Cell(x.cfg, x.stream + y.stream, k)
      {
        CellsAdd(x.cfg, x.stream, y.stream, id);
        z.buckets[id] := Added(x.buckets[id], y.buckets[id], z.cfg.p);
        id := id + 1;
      }
      z.stream := x.stream + y.stream;
    }

    // operator+= (agm_sketch.cpp, lines 79-90); a sketch may be added to itself.
    method Add(y: AgmSketch)
      requires Valid() && y.Valid() && y.cfg == cfg && (y == this || y.buckets != buckets)
      modifies this`stream, this`queried, buckets
      ensures Valid() && stream == old(stream) + old(y.stream) && queried == (old(queried) || old(y.queried))
    {
      hide BucketOf, FloorLog2;
      ghost var us, vs := stream, y.stream;
      var id: nat := 0;
      while id < buckets.Length
        modifies buckets
        invariant id <= buckets.Length
        invariant forall k: nat :: k < id ==> buckets[k] == Cell(cfg, us + vs, k)
        invariant forall k: nat :: id <= k < buckets.Length ==> buckets[k] == Cell(cfg, us, k)
        invariant forall k: nat :: id <= k < buckets.Length ==> y.buckets[k] == Cell(cfg, vs, k)
      {
        CellsAdd(cfg, us, vs, id);
        buckets[id] := Added(buckets[id], y.buckets[id], cfg.p);
        id := id + 1;
      }
      stream := us + vs;
      queried := queried || y.queried;
    }
  }
}
