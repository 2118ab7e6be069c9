// Which coordinates a bucket of the sketch samples (sketch_expr/agm_sketching/src/bucket.cpp:5-12 with the
// guesses of src/agm_sketch.cpp:21-24), in terms of the hash alone; and what batch_update
// (include/agm_sketch.h:84-106) makes of it.
module SketchSampling {
  import opened Powers
  import opened Modular
  import opened Sketch

  // v can be halved j times without a remainder.
  predicate Halves(v: nat, j: nat) { j == 0 || (v % 2 == 0 && Halves(v / 2, j - 1)) }

  lemma {:induction false} HalvesIsDivisible(v: nat, j: nat)
    ensures Halves(v, j) <==> v % Pow2(j) == 0
  {
    if j > 0 {
      HalvesIsDivisible(v / 2, j - 1);
      TwiceDivides(v, Pow2(j - 1));
    }
  }

  lemma TwiceDivides(v: nat, q: nat)
    requires q > 0
    ensures v % (2 * q) == 0 <==> v % 2 == 0 && (v / 2) % q == 0
  {
    ModParts(v, 2 * q);
    ModParts(v / 2, q);
    if v % (2 * q) == 0 {
      var k := v / (2 * q);
      assert v == 2 * (q * k);
      assert v / 2 == q * k + 0;
      Apart(k, 0, (v / 2) / q, (v / 2) % q, q);
    }
    if v % 2 == 0 && (v / 2) % q == 0 {
      var k := (v / 2) / q;
      assert v == (2 * q) * k;
      Apart(k, 0, v / (2 * q), v % (2 * q), 2 * q);
    }
  }

  // Coordinate x is sampled in column c at guess j.
  predicate Sampled(cfg: Config, x: nat, c: nat, j: nat) { Halves(cfg.hash(x + 1, cfg.seed(c)), j) }

  lemma SampledContains(cfg: Config, x: nat, c: nat, j: nat)
    ensures cfg.Contains(x, c, j) <==> Sampled(cfg, x, c, j)
  {
    HalvesIsDivisible(cfg.hash(x + 1, cfg.seed(c)), j);
  }

  // Every coordinate is sampled at guess 0, and those sampled at a guess are sampled at the one before it.
  lemma SamplesNest(cfg: Config, x: nat, c: nat, j: nat)
    ensures Sampled(cfg, x, c, 0) && (Sampled(cfg, x, c, j + 1) ==> Sampled(cfg, x, c, j))
  {
    HalvesLess(cfg.hash(x + 1, cfg.seed(c)), j);
  }

  lemma {:induction false} HalvesLess(v: nat, j: nat)
    ensures Halves(v, j + 1) ==> Halves(v, j)
  {
    if j > 0 && v % 2 == 0 { HalvesLess(v / 2, j - 1); }
  }

  // As many columns as the largest power of two not above n has binary digits, and one guess more.
  lemma SketchSize(cfg: Config, buckets: seq<Bucket>, us: seq<Update>)
    requires SketchOf(cfg, buckets, us)
    ensures exists k: nat :: Pow2(k) <= cfg.n < Pow2(k + 1) && |buckets| == (k + 1) * (k + 2)
  {
    var k := FloorLog2(cfg.n);
    assert Pow2(k + 1) == 2 * Pow2(k);
  }

  // One update of x by d leaves its mark in the buckets that sample x and in no other: the delta, the delta
  // times the one-based index, and the fingerprint.
  lemma OneUpdate(cfg: Config, x: nat, d: int, c: nat, j: nat)
    requires cfg.p > 3 && d != 0
    ensures BucketOf(cfg, [Update(x, d)], c, j) ==
            if Sampled(cfg, x, c, j)
            then Bucket(d, d * (x + 1), d * Pow(2 + cfg.seed(c) % (cfg.p - 3), x + 1) % cfg.p)
            else EMPTY
  {
    SampledContains(cfg, x, c, j);
    BucketGrows(cfg, [], Update(x, d), c, j);
    assert [] + [Update(x, d)] == [Update(x, d)];
  }

  // The same for a sketch: the bucket of column c and guess j, which has number c * guesses + j, is not
  // empty exactly if the hash of the coordinate can be halved j times.
  lemma OneUpdateMarks(cfg: Config, buckets: seq<Bucket>, x: nat, d: int, c: nat, j: nat)
    requires SketchOf(cfg, buckets, [Update(x, d)]) && d != 0
    requires c < cfg.Columns() && j < cfg.Columns() + 1
    ensures
      var id := c * (cfg.Columns() + 1) + j;
      id < |buckets| && (buckets[id] != EMPTY <==> Halves(cfg.hash(x + 1, cfg.seed(c)), j))
  {
    hide BucketOf, FloorLog2;
    IdBack(cfg, c, j);
    assert buckets[cfg.Id(c, j)] == Cell(cfg, [Update(x, d)], cfg.Id(c, j));
    OneUpdate(cfg, x, d, c, j);
  }

  // Among the nonzero coordinates, x alone is sampled in column c at guess j.
  ghost predicate AloneAt(cfg: Config, us: seq<Update>, x: nat, c: nat, j: nat) {
    && x < cfg.n && Net(us, x) != 0 && Sampled(cfg, x, c, j)
    && forall y: nat :: y < cfg.n && y != x && Net(us, y) != 0 ==> !Sampled(cfg, y, c, j)
  }

  // If some column and guess sample a single nonzero coordinate, the query finds a coordinate; and it is
  // this one with its value, if no bucket before is good.
  lemma AloneIsFound(cfg: Config, buckets: seq<Bucket>, us: seq<Update>, x: nat, c: nat, j: nat, answer: Answer)
    requires SketchOf(cfg, buckets, us) && InRange(us, cfg.n) && Answers(cfg, buckets, answer)
    requires c < cfg.Columns() && j < cfg.Columns() + 1 && AloneAt(cfg, us, x, c, j)
    ensures answer.Found?
    ensures NoneGood(cfg, buckets, c * (cfg.Columns() + 1) + j) ==> answer == Found(Update(x, Net(us, x)))
  {
    hide BucketOf, FloorLog2;
    var id := cfg.Id(c, j);
    IdBack(cfg, c, j);
    forall y: nat
      ensures cfg.Contains(y, c, j) <==> Sampled(cfg, y, c, j)
    {
      SampledContains(cfg, y, c, j);
    }
    assert Isolated(cfg, us, c, j, x);
    IsolatedIsSingle(cfg, us, c, j, x);
    assert buckets[id] == Cell(cfg, us, id);
    assert GoodCell(cfg, buckets[id], id);
    IsolationFinds(cfg, buckets, us, id, x, answer);
    if NoneGood(cfg, buckets, id) { FirstGood(cfg, buckets, id, x, answer); }
  }

  lemma FirstGood(cfg: Config, buckets: seq<Bucket>, id: nat, x: nat, answer: Answer)
    requires cfg.n > 0 && cfg.p > 3 && id < |buckets| && NoneGood(cfg, buckets, id)
    requires Single(cfg, buckets[id], cfg.ColumnOf(id), cfg.GuessOf(id), x) && Answers(cfg, buckets, answer)
    ensures answer == Found(Update(x, buckets[id].a))
  {
    hide Single, FloorLog2, Config.ColumnOf, Config.GuessOf;
    assert GoodCell(cfg, buckets[id], id);
    assert answer.Found?;
    var k: nat :| k < |buckets| && NoneGood(cfg, buckets, k) && answer.update.delta == buckets[k].a
                  && Single(cfg, buckets[k], cfg.ColumnOf(k), cfg.GuessOf(k), answer.update.index);
    assert GoodCell(cfg, buckets[k], k);
    assert k == id;
    SingleUnique(cfg, buckets[id], cfg.ColumnOf(id), cfg.GuessOf(id), x, answer.update.index);
  }

  // ---- batch_update ----

  // It derives a bucket's seed from the number of the bucket, where update and query derive it from the
  // column.
  ghost function BatchCell(cfg: Config, us: seq<Update>, id: nat): (bucket: Bucket)
    requires cfg.n > 0 && cfg.p > 3
    ensures bucket.c < cfg.p
  {
    BucketOf(cfg, us, id, cfg.GuessOf(id))
  }

  // batch_update (lines 84-106): bucket by bucket, with cached powers of the bucket's base.
  method BatchUpdate(cfg: Config, buckets: array<Bucket>, us: seq<Update>)
    requires cfg.n > 0 && cfg.p > 3 && buckets.Length == Size(cfg) && InRange(us, cfg.n)
    requires forall id: nat :: id < buckets.Length ==> buckets[id].c < cfg.p
    modifies buckets
    ensures forall id: nat :: id < buckets.Length ==>
              buckets[id] == Added(old(buckets[id]), BatchCell(cfg, us, id), cfg.p)
  {
    hide BucketOf, FloorLog2, CacheOk, Pow2, Added;
    var columns, guesses := cfg.Columns(), cfg.Guesses();
    var i: nat := 0;
    while i < columns
      invariant i <= columns && cfg.Id(i, 0) <= buckets.Length
      invariant forall k: nat :: k < cfg.Id(i, 0) && k < buckets.Length ==>
                  buckets[k] == Added(old(buckets[k]), BatchCell(cfg, us, k), cfg.p)
      invariant forall k: nat :: cfg.Id(i, 0) <= k < buckets.Length ==> buckets[k] == old(buckets[k])
    {
      var j: nat := 0;
      while j < guesses
        invariant j <= guesses && cfg.Id(i, j) <= buckets.Length
        invariant forall k: nat :: k < cfg.Id(i, j) && k < buckets.Length ==>
                    buckets[k] == Added(old(buckets[k]), BatchCell(cfg, us, k), cfg.p)
        invariant forall k: nat :: cfg.Id(i, j) <= k < buckets.Length ==> buckets[k] == old(buckets[k])
      {
        IdBack(cfg, i, j);
        var id := cfg.Id(i, j);
        buckets[id] := BatchBucket(cfg, buckets[id], us, id, j);
        j := j + 1;
      }
      IdNext(cfg, i);
      i := i + 1;
    }
  }

  // The inner loop, for one bucket.
  method BatchBucket(cfg: Config, bucket: Bucket, us: seq<Update>, id: nat, j: nat) returns (result: Bucket)
    requires cfg.n > 0 && cfg.p > 3 && bucket.c < cfg.p && InRange(us, cfg.n)
    ensures result == Added(bucket, BucketOf(cfg, us, id, j), cfg.p) && result.c < cfg.p
  {
    hide FloorLog2, CacheOk, Pow2, BucketOf, Entered, Added, Pow;
    var r := cfg.R(id);
    var cache := GenSqCache(r, cfg.n, cfg.p);
    CacheReaches(cfg.n);
    var squares := cache[..];
    result := bucket;
    NothingAdded(cfg, bucket, id, j);
    var k := 0;
    while k < |us|
      modifies {}
      invariant k <= |us| && result == Added(bucket, BucketOf(cfg, us[..k], id, j), cfg.p) && result.c < cfg.p
    {
      assert us[..k + 1] == us[..k] + [us[k]] && us[k] in us;
      ghost var was := BucketOf(cfg, us[..k], id, j);
      BucketGrows(cfg, us[..k], us[k], id, j);
      if cfg.Contains(us[k].index, id, j) {
        EnteredAdded(bucket, was, us[k], cfg.p, r);
        AddedReduced(bucket, Entered(was, us[k], cfg.p, r), cfg.p);
        result := CachedUpdateBucket(result, us[k], cfg.p, squares, r);
      }
      k := k + 1;
    }
    assert us[..k] == us;
  }

  lemma CacheReaches(n: nat)
    requires n > 0
    ensures n < Pow2(FloorLog2(n) + 1)
  {
  }

  lemma AddedReduced(x: Bucket, y: Bucket, p: nat)
    requires p > 0
    ensures Added(x, y, p).c < p
  {
    ModParts(x.c + y.c, p);
  }

  lemma NothingAdded(cfg: Config, bucket: Bucket, id: nat, j: nat)
    requires cfg.p > 3 && bucket.c < cfg.p
    ensures Added(bucket, BucketOf(cfg, [], id, j), cfg.p) == bucket
  {
    Reduced(bucket.c, cfg.p);
    Reduced(0, cfg.p);
  }

  lemma EnteredAdded(x: Bucket, y: Bucket, u: Update, p: nat, r: nat)
    requires p > 0
    ensures Entered(Added(x, y, p), u, p, r) == Added(x, Entered(y, u, p, r), p)
  {
    hide Entered, Added, Noted;
    EnteredIs(Added(x, y, p), u, p, r);
    EnteredIs(y, u, p, r);
    NotedAdded(x, y, u.delta, u.Place(), Mark(u, r), p);
  }

  // What an update adds to the fingerprint.
  ghost function Mark(u: Update, r: nat): int { u.delta * Pow(r, u.index + 1) }

  ghost function Noted(x: Bucket, a: int, b: int, d: int, p: nat): Bucket
    requires p > 0
  {
    Bucket(x.a + a, x.b + b, (x.c + d) % p)
  }

  lemma EnteredIs(x: Bucket, u: Update, p: nat, r: nat)
    requires p > 0
    ensures Entered(x, u, p, r) == Noted(x, u.delta, u.Place(), Mark(u, r), p)
  {
  }

  lemma NotedAdded(x: Bucket, y: Bucket, a: int, b: int, d: int, p: nat)
    requires p > 0
    ensures Noted(Added(x, y, p), a, b, d, p) == Added(x, Noted(y, a, b, d, p), p)
  {
    hide Noted, Added, Rem;
    var l, r := Added(x, y, p), Noted(y, a, b, d, p);
    AddedIs(x, y, p);
    NotedIs(l, a, b, d, p);
    NotedIs(y, a, b, d, p);
    AddedIs(x, r, p);
    ThreeRem(x.c, y.c, d, p);
  }

  lemma AddedIs(x: Bucket, y: Bucket, p: nat)
    requires p > 0
    ensures Added(x, y, p) == Bucket(x.a + y.a, x.b + y.b, Rem(x.c + y.c, p))
  {
  }

  lemma NotedIs(x: Bucket, a: int, b: int, d: int, p: nat)
    requires p > 0
    ensures Noted(x, a, b, d, p) == Bucket(x.a + a, x.b + b, Rem(x.c + d, p))
  {
  }

  ghost function Rem(z: int, p: nat): nat
    requires p > 0
  {
    z % p
  }

  lemma RemLeft(x: int, y: int, p: nat)
    requires p > 0
    ensures Rem(Rem(x, p) + y, p) == Rem(x + y, p)
  {
    AddMod(x, y, p);
  }

  lemma RemRight(x: int, y: int, p: nat)
    requires p > 0
    ensures Rem(x + Rem(y, p), p) == Rem(x + y, p)
  {
    AddMod(y, x, p);
  }

  lemma ThreeRem(x: int, y: int, d: int, p: nat)
    requires p > 0
    ensures Rem(Rem(x + y, p) + d, p) == Rem(x + Rem(y + d, p), p)
  {
    hide Rem;
    RemLeft(x + y, d, p);
    RemRight(x, y + d, p);
    assert x + y + d == x + (y + d);
  }

  // Bucket `id` gets the same from batch_update as from update, for every stream, exactly if the two seeds
  // sample the same coordinates and give them the same fingerprints.
  ghost predicate SameMarks(cfg: Config, id: nat)
    requires cfg.n > 0 && cfg.p > 3
  {
    var c, j := cfg.ColumnOf(id), cfg.GuessOf(id);
    forall x: nat :: x < cfg.n ==> SameMark(cfg, x, id, c, j)
  }

  ghost predicate SameMark(cfg: Config, x: nat, id: nat, c: nat, j: nat)
    requires cfg.p > 3
  {
    && (Sampled(cfg, x, id, j) <==> Sampled(cfg, x, c, j))
    && (Sampled(cfg, x, c, j) ==> Pow(cfg.R(id), x + 1) % cfg.p == Pow(cfg.R(c), x + 1) % cfg.p)
  }

  lemma BatchExact(cfg: Config, id: nat)
    requires cfg.n > 0 && cfg.p > 3
    ensures (forall us :: InRange(us, cfg.n) ==> BatchCell(cfg, us, id) == Cell(cfg, us, id)) <==> SameMarks(cfg, id)
  {
    hide FloorLog2, Config.ColumnOf, Config.GuessOf;
    if SameMarks(cfg, id) {
      forall us | InRange(us, cfg.n)
        ensures BatchCell(cfg, us, id) == Cell(cfg, us, id)
      {
        SameBuckets(cfg, us, id);
      }
    } else {
      var x: nat :| x < cfg.n && !SameMark(cfg, x, id, cfg.ColumnOf(id), cfg.GuessOf(id));
      OtherMark(cfg, x, id);
    }
  }

  lemma {:induction false} SameBuckets(cfg: Config, us: seq<Update>, id: nat)
    requires cfg.n > 0 && cfg.p > 3 && SameMarks(cfg, id) && InRange(us, cfg.n)
    ensures BatchCell(cfg, us, id) == Cell(cfg, us, id)
  {
    hide FloorLog2, Config.ColumnOf, Config.GuessOf;
    if us != [] {
      var front, u := us[..|us| - 1], us[|us| - 1];
      var c, j := cfg.ColumnOf(id), cfg.GuessOf(id);
      assert front + [u] == us && u in us;
      SameBuckets(cfg, front, id);
      BucketGrows(cfg, front, u, id, j);
      BucketGrows(cfg, front, u, c, j);
      SampledContains(cfg, u.index, id, j);
      SampledContains(cfg, u.index, c, j);
      assert SameMark(cfg, u.index, id, c, j);
      SamePrint(BucketOf(cfg, front, c, j).c, u.delta, Pow(cfg.R(id), u.index + 1), Pow(cfg.R(c), u.index + 1), cfg.p);
      hide BucketOf, Sampled;
    }
  }

  lemma SamePrint(c: nat, d: int, x: nat, y: nat, p: nat)
    requires p > 0
    ensures x % p == y % p ==> (c + d * x) % p == (c + d * y) % p
  {
    MulMod(x, d, p);
    MulMod(y, d, p);
    AddMod(d * x, c, p);
    AddMod(d * y, c, p);
  }

  // One update by 1 shows the difference.
  lemma OtherMark(cfg: Config, x: nat, id: nat)
    requires cfg.n > 0 && cfg.p > 3 && x < cfg.n && !SameMark(cfg, x, id, cfg.ColumnOf(id), cfg.GuessOf(id))
    ensures InRange([Update(x, 1)], cfg.n) && BatchCell(cfg, [Update(x, 1)], id) != Cell(cfg, [Update(x, 1)], id)
  {
    OneUpdate(cfg, x, 1, id, cfg.GuessOf(id));
    OneUpdate(cfg, x, 1, cfg.ColumnOf(id), cfg.GuessOf(id));
    hide BucketOf, Sampled;
  }

  // A failing input, with two columns' seeds that give different bases and a hash that samples coordinate 0
  // at guess 1: after the one update of coordinate 0 by 1, update has made bucket 1 (column 0, guess 1) good,
  // and batch_update has not.
  lemma BatchExample(cfg: Config)
    requires cfg.n > 0 && cfg.p > 3 && cfg.seed(0) % (cfg.p - 3) != cfg.seed(1) % (cfg.p - 3)
    requires Halves(cfg.hash(1, cfg.seed(0)), 1)
    ensures GoodCell(cfg, Cell(cfg, [Update(0, 1)], 1), 1) && !GoodCell(cfg, BatchCell(cfg, [Update(0, 1)], 1), 1)
  {
    hide FloorLog2, Pow, BucketOf, Halves, Config.Contains;
    SecondBucket(cfg);
    var batch := BatchCell(cfg, [Update(0, 1)], 1);
    OneUpdate(cfg, 0, 1, 0, 1);
    OneUpdate(cfg, 0, 1, 1, 1);
    SampledContains(cfg, 0, 0, 1);
    PowOne(cfg.R(0));
    PowOne(cfg.R(1));
    Reduced(cfg.R(0), cfg.p);
    Reduced(cfg.R(1), cfg.p);
    assert Single(cfg, Cell(cfg, [Update(0, 1)], 1), 0, 1, 0);
    forall x: nat
      ensures !Single(cfg, batch, 0, 1, x)
    {
      if batch.a == 1 && cfg.Contains(x, 0, 1) { SingleMeans(cfg, batch, 0, 1, x); }
    }
  }

  lemma SecondBucket(cfg: Config)
    requires cfg.n > 0
    ensures cfg.ColumnOf(1) == 0 && cfg.GuessOf(1) == 1
  {
    IdBack(cfg, 0, 1);
  }
}
