// The range-minimum index of comparison_systems/aspen/code/pbbslib/range_min.h: minima of blocks, and of
// runs of 2^j blocks.
module RangeMin {
  import opened Orders
  import opened Powers

  // min_index (lines 96-97).
  function MinIndex(a: seq<int>, f: Less, i: nat, j: nat): nat
    requires i < |a| && j < |a|
  {
    if f(a[j], a[i]) then j else i
  }

  // r is the index of a minimum from lo up to hi.
  ghost predicate IsMin(a: seq<int>, f: Less, lo: nat, hi: nat, r: nat) {
    lo <= r < hi <= |a| && forall k :: lo <= k < hi ==> !f(a[k], a[r])
  }

  // The better of two minima is the minimum of both ranges, which may overlap.
  lemma MinOfBoth(a: seq<int>, f: Less, lo: nat, x: nat, y: nat, hi: nat, r1: nat, r2: nat)
    requires StrictWeak(f) && IsMin(a, f, lo, x, r1) && IsMin(a, f, y, hi, r2) && lo <= y <= x <= hi
    ensures IsMin(a, f, lo, hi, MinIndex(a, f, r1, r2)) && IsMin(a, f, lo, hi, MinIndex(a, f, r2, r1))
  {
    hide StrictWeak;
    forall k | lo <= k < hi ensures !f(a[k], a[MinIndex(a, f, r1, r2)]) && !f(a[k], a[MinIndex(a, f, r2, r1)]) {
      if f(a[r2], a[r1]) {
        Asymmetric(f, a[r2], a[r1]);
        if f(a[k], a[r2]) { Chain(f, a[k], a[r2], a[r1]); }
      } else if f(a[r1], a[r2]) {
        if f(a[k], a[r1]) { Chain(f, a[k], a[r1], a[r2]); }
      } else {
        if f(a[k], a[r1]) { Between(f, a[k], a[r2], a[r1]); }
        if f(a[k], a[r2]) { Between(f, a[k], a[r1], a[r2]); }
      }
    }
  }

  // ---- Blocks ----

  // The start of block i, or the end of the sequence.
  function BlockStart(n: nat, bs: nat, i: nat): nat { if i * bs < n then i * bs else n }

  function Blocks(n: nat, bs: nat): nat
    requires n > 0 && bs > 0
  {
    1 + (n - 1) / bs
  }

  lemma BlockBounds(n: nat, bs: nat, i: nat)
    requires n > 0 && bs > 0 && i < Blocks(n, bs)
    ensures BlockStart(n, bs, i) == i * bs < BlockStart(n, bs, i + 1) <= n
    ensures BlockStart(n, bs, i + 1) == if i * bs + bs < n then i * bs + bs else n
  {
    assert i * bs <= (n - 1) / bs * bs;
    assert (i + 1) * bs == i * bs + bs;
  }

  lemma LastBlock(n: nat, bs: nat, i: nat)
    requires n > 0 && bs > 0 && i >= Blocks(n, bs)
    ensures BlockStart(n, bs, i) == n
  {
    assert i * bs >= Blocks(n, bs) * bs;
    assert Blocks(n, bs) * bs == bs + (n - 1) / bs * bs;
  }

  lemma BlockOf(n: nat, bs: nat, i: nat)
    requires bs > 0 && i < n
    ensures i / bs < Blocks(n, bs) && i / bs * bs <= i < (i / bs + 1) * bs
  {
    DivMono(i, n - 1, bs);
    assert (i / bs + 1) * bs == i / bs * bs + bs;
  }

  lemma DivMono(x: nat, y: nat, d: nat)
    requires d > 0 && x <= y
    ensures x / d <= y / d
  {
    QuotientLe(x / d, y / d, d, x, y);
  }

  lemma QuotientLe(p: nat, q: nat, d: nat, x: nat, y: nat)
    requires p * d <= x <= y < q * d + d
    ensures p <= q
  {
    assert p >= q + 1 ==> p * d >= (q + 1) * d == q * d + d;
  }

  // Row j of the table holds minima of runs of 2^j blocks, cut off at the last block.
  ghost predicate RowOk(a: seq<int>, f: Less, bs: nat, j: nat, i: nat, r: nat) {
    IsMin(a, f, BlockStart(|a|, bs, i), BlockStart(|a|, bs, i + Pow2(j)), r)
  }

  lemma StartMono(n: nat, bs: nat, i: nat, j: nat)
    requires i <= j
    ensures BlockStart(n, bs, i) <= BlockStart(n, bs, j)
  {
    assert i * bs <= j * bs;
  }

  // A run of twice as many blocks.
  lemma RowStep(a: seq<int>, f: Less, bs: nat, j: nat, i: nat, r1: nat, r2: nat)
    requires StrictWeak(f) && |a| > 0 && bs > 0 && RowOk(a, f, bs, j, i, r1) && RowOk(a, f, bs, j, i + Pow2(j), r2)
    ensures RowOk(a, f, bs, j + 1, i, MinIndex(a, f, r1, r2))
  {
    var n := |a|;
    StartMono(n, bs, i, i + Pow2(j));
    StartMono(n, bs, i + Pow2(j), i + Pow2(j) + Pow2(j));
    MinOfBoth(a, f, BlockStart(n, bs, i), BlockStart(n, bs, i + Pow2(j)), BlockStart(n, bs, i + Pow2(j)),
              BlockStart(n, bs, i + Pow2(j) + Pow2(j)), r1, r2);
  }

  // A run that reaches the last block stays the same.
  lemma RowEnd(a: seq<int>, f: Less, bs: nat, j: nat, i: nat, r: nat)
    requires |a| > 0 && bs > 0 && RowOk(a, f, bs, j, i, r) && i + Pow2(j) >= Blocks(|a|, bs)
    ensures RowOk(a, f, bs, j + 1, i, r)
  {
    LastBlock(|a|, bs, i + Pow2(j));
    LastBlock(|a|, bs, i + Pow2(j) + Pow2(j));
  }

  // ---- Table sizes ----

  lemma DepthCovers(m: nat, len: nat)
    requires m > 0 && 2 <= len <= m + 1
    ensures Log2Up(len) <= Log2Up(m + 1) && Log2Up(len) >= 1
    ensures Pow2(Log2Up(len) - 1) < len <= 2 * Pow2(Log2Up(len) - 1)
  {
    HalvingsBound(len - 1);
    HalvingsGrows(len - 1, m);
  }

  // ---- The structure ----

  class RangeMin {
    const a: seq<int>
    const less: Less
    const bs: nat
    const n: nat
    const m: nat
    const depth: nat
    const table: array2<nat>

    ghost predicate Shape()
      reads this
    {
      && bs > 0 && n == |a| > 0 && m == Blocks(n, bs) && depth == Log2Up(m + 1)
      && table.Length0 == depth && table.Length1 == m && StrictWeak(less)
    }

    ghost predicate RowsOk(rows: nat)
      requires Shape() && rows <= depth
      reads this, table
    {
      forall j, i :: 0 <= j < rows && 0 <= i < m ==> RowOk(a, less, bs, j, i, table[j, i])
    }

    ghost predicate Valid()
      reads this, table
    {
      Shape() && RowsOk(depth)
    }

    // The constructor with precomputeQueries (lines 44-48 and 99-123).
    constructor (s: seq<int>, f: Less, blockSize: nat)
      requires |s| > 0 && blockSize > 0 && StrictWeak(f)
      ensures Valid() && a == s && less == f && bs == blockSize
    {
      a := s;
      less := f;
      bs := blockSize;
      n := |s|;
      m := Blocks(|s|, blockSize);
      depth := Log2Up(Blocks(|s|, blockSize) + 1);
      table := new nat[Log2Up(Blocks(|s|, blockSize) + 1), Blocks(|s|, blockSize)];
      new;
      DepthCovers(m, m + 1);
      FirstRow();
      var dist := 1;
      var j: nat := 1;
      while j < depth
        invariant 1 <= j <= depth && RowsOk(j) && dist == Pow2(j - 1)
        modifies table
      {
        NextRow(j, dist);
        dist := dist * 2;
        j := j + 1;
      }
    }

    // Minima within each block (lines 105-110).
    method FirstRow()
      requires Shape() && depth > 0
      modifies table
      ensures RowsOk(1)
    {
      var i: nat := 0;
      while i < m
        invariant i <= m
        invariant forall b :: 0 <= b < i ==> RowOk(a, less, bs, 0, b, table[0, b])
      {
        BlockBounds(n, bs, i);
        var start := i * bs;
        var end := if start + bs < n then start + bs else n;
        table[0, i] := BlockMin(start, end);
        i := i + 1;
      }
    }

    method BlockMin(start: nat, end: nat) returns (k: nat)
      requires start < end <= |a| && StrictWeak(less)
      ensures IsMin(a, less, start, end, k)
    {
      hide StrictWeak;
      k := start;
      var j: nat := start + 1;
      Irreflexive(less, a[start]);
      while j < end
        invariant start < j <= end && IsMin(a, less, start, j, k)
      {
        Irreflexive(less, a[j]);
        MinOfBoth(a, less, start, j, j, j + 1, k, j);
        k := MinIndex(a, less, j, k);
        j := j + 1;
      }
    }

    // Minima across layers (lines 114-122).
    method NextRow(j: nat, dist: nat)
      requires Shape() && 1 <= j < depth && RowsOk(j) && dist == Pow2(j - 1)
      modifies table
      ensures RowsOk(j + 1)
    {
      hide StrictWeak;
      var i: nat := 0;
      while i < m
        invariant i <= m && RowsOk(j)
        invariant forall b :: 0 <= b < i ==> RowOk(a, less, bs, j, b, table[j, b])
      {
        assert RowOk(a, less, bs, j - 1, i, table[j - 1, i]);
        if i + dist < m {
          assert RowOk(a, less, bs, j - 1, i + dist, table[j - 1, i + dist]);
          RowStep(a, less, bs, j - 1, i, table[j - 1, i], table[j - 1, i + dist]);
          assert IsMin(a, less, BlockStart(n, bs, i), BlockStart(n, bs, i + Pow2(j - 1)), table[j - 1, i]);
          table[j, i] := MinIndex(a, less, table[j - 1, i], table[j - 1, i + dist]);
        } else {
          RowEnd(a, less, bs, j - 1, i, table[j - 1, i]);
          table[j, i] := table[j - 1, i];
        }
        i := i + 1;
      }
    }

    // A scan from i to j, both inclusive, as query does it at three places.
    method ScanMin(i: nat, j: nat) returns (r: nat)
      requires i <= j < |a| && StrictWeak(less)
      ensures IsMin(a, less, i, j + 1, r) && r < |a|
    {
      hide StrictWeak;
      r := i;
      Irreflexive(less, a[i]);
      var k: nat := i + 1;
      while k <= j
        invariant i < k <= j + 1 && IsMin(a, less, i, k, r)
      {
        Irreflexive(less, a[k]);
        MinOfBoth(a, less, i, k, k, k + 1, r, k);
        r := MinIndex(a, less, r, k);
        k := k + 1;
      }
    }

    // query (lines 50-87): the index of a minimum from i to j, both inclusive.
    method Query(i: nat, j: nat) returns (r: nat)
      requires Valid() && i <= j < n
      ensures IsMin(a, less, i, j + 1, r)
    {
      hide StrictWeak;
      hide IsMin;
      hide BlockStart;
      hide Blocks;
      hide FirstEnd;
      hide LastStart;
      if j - i < bs {
        r := ScanMin(i, j);
        return;
      }
      var bi, bj := i / bs, j / bs;
      var x, y := FirstEnd(i, bs), LastStart(j, bs);
      Corners(n, bs, i, j);
      var minl := ScanMin(i, x - 1);
      var minr := ScanMin(y, j);
      if bj == bi + 1 {
        MinOfBoth(a, less, i, x, y, j + 1, minl, minr);
        r := MinIndex(a, less, minl, minr);
        return;
      }
      var mid := BlocksMin(bi + 1, bj - 1);
      MinOfBoth(a, less, x, y, y, j + 1, mid, minr);
      MinOfBoth(a, less, i, x, x, j + 1, minl, MinIndex(a, less, mid, minr));
      r := MinIndex(a, less, minl, MinIndex(a, less, mid, minr));
    }

    // The minimum over the whole blocks from bi to bj (lines 74-85), by two overlapping runs.
    method BlocksMin(bi: nat, bj: nat) returns (r: nat)
      requires Valid() && 1 <= bi <= bj && bj + 1 < m
      ensures IsMin(a, less, BlockStart(n, bs, bi), BlockStart(n, bs, bj + 1), r) && r < |a|
    {
      hide StrictWeak;
      DepthCovers(m, m + 1);
      if bj == bi {
        assert RowOk(a, less, bs, 0, bi, table[0, bi]);
        r := table[0, bi];
      } else if bj == bi + 1 {
        DepthCovers(m, 3);
        assert Log2Up(3) == 2;
        assert RowOk(a, less, bs, 1, bi, table[1, bi]);
        r := table[1, bi];
      } else {
        var len := bj - bi + 1;
        DepthCovers(m, len);
        var k := Log2Up(len) - 1;
        var p := Pow2(k);
        var q := bj + 1 - p;
        assert RowOk(a, less, bs, k, bi, table[k, bi]);
        assert RowOk(a, less, bs, k, q, table[k, q]);
        StartMono(n, bs, bi, q);
        StartMono(n, bs, q, bi + p);
        StartMono(n, bs, bi + p, bj + 1);
        MinOfBoth(a, less, BlockStart(n, bs, bi), BlockStart(n, bs, bi + p), BlockStart(n, bs, q),
                  BlockStart(n, bs, bj + 1), table[k, bi], table[k, q]);
        r := MinIndex(a, less, table[k, bi], table[k, q]);
      }
    }
  }

  function FirstEnd(i: nat, bs: nat): nat
    requires bs > 0
  {
    (i / bs + 1) * bs
  }

  function LastStart(j: nat, bs: nat): nat
    requires bs > 0
  {
    j / bs * bs
  }

  // Where the first block of a query ends and its last block begins.
  lemma Corners(n: nat, bs: nat, i: nat, j: nat)
    requires bs > 0 && j < n && i + bs <= j
    ensures i / bs + 1 <= j / bs && j / bs < Blocks(n, bs)
    ensures i < FirstEnd(i, bs) <= LastStart(j, bs) <= j
    ensures BlockStart(n, bs, i / bs + 1) == FirstEnd(i, bs) && BlockStart(n, bs, j / bs) == LastStart(j, bs)
  {
    BlockOf(n, bs, i);
    BlockOf(n, bs, j);
    BlocksApart(i, j, bs);
    TimesMono(i / bs + 1, j / bs, bs);
  }

  lemma TimesMono(p: nat, q: nat, d: nat)
    requires p <= q
    ensures p * d <= q * d
  {
  }

  lemma BlocksApart(i: nat, j: nat, bs: nat)
    requires bs > 0 && i + bs <= j
    ensures i / bs + 1 <= j / bs
  {
    QuotientLe(i / bs + 1, j / bs, bs, (i / bs + 1) * bs, j) by {
      assert (i / bs + 1) * bs == i / bs * bs + bs;
    }
  }
}
