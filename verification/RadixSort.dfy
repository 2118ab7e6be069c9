// The sequential LSD radix sort of comparison_systems/aspen/code/pbbslib/integer_sort.h: counting-sort
// passes over eight bits at a time, between two buffers.
module RadixSort {
  import opened CountingSort
  import opened Powers
  import opened Collections

  const RADIX := 8

  // (g(x) >> offset) & mask, with a mask of the given number of bits (lines 48-50).
  function DigitAt(g: Digit, offset: nat, bits: nat): Digit { x => g(x) / Pow2(offset) % Pow2(bits) }

  function LowBits(g: Digit, bits: nat): Digit { x => g(x) % Pow2(bits) }

  lemma Expand(a: nat, b: nat, d: nat, m: nat, r: nat)
    ensures (a * d + b) * m + r == a * (m * d) + (b * m + r)
  {
  }

  lemma ModUnique(y: nat, a: nat, n: nat, z: nat)
    requires n > 0 && z < n && y == a * n + z
    ensures y % n == z
  {
    var q, r := y / n, y % n;
    assert y == q * n + r;
    SameQuotient(q, r, a, z, n);
  }

  lemma SameQuotient(q: nat, r: nat, a: nat, z: nat, n: nat)
    requires r < n && z < n && q * n + r == a * n + z
    ensures r == z
  {
    if q > a { Apart(q, a, n); }
    if a > q { Apart(a, q, n); }
  }

  lemma {:induction false} Apart(q: nat, a: nat, n: nat)
    requires q > a
    ensures q * n >= a * n + n
  {
    if q == a + 1 {
      assert (a + 1) * n == a * n + n;
    } else {
      Apart(q - 1, a, n);
      assert q * n == (q - 1) * n + n;
    }
  }

  lemma DigitBound(b: nat, d: nat, m: nat, r: nat)
    requires b < d && r < m
    ensures b * m + r < m * d
  {
    assert b * m + m == (b + 1) * m <= d * m;
  }

  // The low digits of y modulo m * d are those modulo m, with one more digit in front.
  lemma ModStep(y: nat, m: nat, d: nat)
    requires m > 0 && d > 0
    ensures m * d > 0 && y % (m * d) == (y / m % d) * m + y % m
  {
    var q, r := y / m, y % m;
    DivParts(y, m);
    DivParts(q, d);
    Recombine(y, q, r, q / d, q % d, m, d);
  }

  lemma DivParts(y: nat, m: nat)
    requires m > 0
    ensures y == y / m * m + y % m
  {
  }

  lemma Recombine(y: nat, q: nat, r: nat, a: nat, b: nat, m: nat, d: nat)
    requires m > 0 && d > 0 && y == q * m + r && r < m && q == a * d + b && b < d
    ensures m * d > 0 && y % (m * d) == b * m + r
  {
    Expand(a, b, d, m, r);
    DigitBound(b, d, m, r);
    ModUnique(y, a, m * d, b * m + r);
  }

  // ---- One more digit ----

  // The key `both` is the pair of the keys hi and lo.
  ghost predicate Pairs(both: Digit, hi: Digit, lo: Digit, m: nat) {
    forall x :: lo(x) < m && both(x) == hi(x) * m + lo(x)
  }

  lemma PairUnique(hi: nat, lo: nat, b: nat, v: nat, m: nat)
    requires lo < m && v < m
    ensures hi * m + lo == b * m + v <==> hi == b && lo == v
  {
    if hi < b { assert (hi + 1) * m <= b * m; }
    if hi > b { assert (b + 1) * m <= hi * m; }
  }

  lemma {:induction false} BucketOfBucket(s: seq<int>, both: Digit, hi: Digit, lo: Digit, m: nat, b: nat, v: nat)
    requires Pairs(both, hi, lo, m) && v < m
    ensures Bucket(Bucket(s, lo, v), hi, b) == Bucket(s, both, b * m + v)
  {
    if s != [] {
      var t, x := s[..|s| - 1], s[|s| - 1];
      BucketOfBucket(t, both, hi, lo, m, b, v);
      assert lo(x) < m && both(x) == hi(x) * m + lo(x);
      PairUnique(hi(x), lo(x), b, v, m);
      if lo(x) == v { BucketAppend(Bucket(t, lo, v), [x], hi, b); }
    }
  }

  // Bucket b of the high digit, after a stable sort by the low one, is the run of pairs with b.
  lemma {:induction false} RunOfPairs(s: seq<int>, both: Digit, hi: Digit, lo: Digit, m: nat, b: nat, n: nat, v: nat)
    requires Pairs(both, hi, lo, m) && v <= m && n == b * m
    ensures StableBy(s, both, n + v) == StableBy(s, both, n) + Bucket(StableBy(s, lo, v), hi, b)
    decreases v
  {
    hide Bucket;
    if v == 0 {
      StableNone(s, lo);
      NoBucket(hi, b);
    } else {
      hide StableBy;
      RunOfPairs(s, both, hi, lo, m, b, n, v - 1);
      StableStep(s, lo, v);
      StableStep(s, both, n + v);
      BucketOfBucket(s, both, hi, lo, m, b, v - 1);
      BucketAppend(StableBy(s, lo, v - 1), Bucket(s, lo, v - 1), hi, b);
      Regroup(StableBy(s, both, n), Bucket(StableBy(s, lo, v - 1), hi, b), Bucket(s, both, n + v - 1));
    }
  }

  lemma StableNone(s: seq<int>, d: Digit)
    ensures StableBy(s, d, 0) == []
  {
  }

  lemma NoBucket(d: Digit, b: nat)
    ensures Bucket([], d, b) == []
  {
  }

  lemma StableStep(s: seq<int>, d: Digit, k: nat)
    requires k > 0
    ensures StableBy(s, d, k) == StableBy(s, d, k - 1) + Bucket(s, d, k - 1)
  {
  }

  // Two stable passes, low digit first, are one stable sort by the pair.
  lemma {:induction false} TwoPasses(s: seq<int>, both: Digit, hi: Digit, lo: Digit, m: nat, d: nat)
    requires Pairs(both, hi, lo, m)
    ensures StableBy(StableBy(s, lo, m), hi, d) == StableBy(s, both, d * m)
    decreases d
  {
    if d > 0 {
      TwoPasses(s, both, hi, lo, m, d - 1);
      RunOfPairs(s, both, hi, lo, m, d - 1, (d - 1) * m, m);
      assert (d - 1) * m + m == d * m;
    }
  }

  lemma NextDigit(s: seq<int>, g: Digit, offset: nat, bits: nat)
    ensures StableBy(StableBy(s, LowBits(g, offset), Pow2(offset)), DigitAt(g, offset, bits), Pow2(bits)) ==
            StableBy(s, LowBits(g, offset + bits), Pow2(offset + bits))
  {
    var m, d := Pow2(offset), Pow2(bits);
    Pow2Plus(offset, bits);
    var both, hi, lo := LowBits(g, offset + bits), DigitAt(g, offset, bits), LowBits(g, offset);
    forall x ensures lo(x) < m && both(x) == hi(x) * m + lo(x) { ModStep(g(x), m, d); }
    TwoPasses(s, both, hi, lo, m, d);
    assert d * m == m * d;
  }

  lemma ModOne(y: nat)
    ensures y % Pow2(0) == 0
  {
  }

  lemma NoDigits(s: seq<int>, g: Digit)
    ensures StableBy(s, LowBits(g, 0), Pow2(0)) == s
  {
    var z := LowBits(g, 0);
    assert AllOf(s, z, 0) by {
      forall i | 0 <= i < |s| ensures z(s[i]) == 0 { ModOne(g(s[i])); }
    }
    WholeBucket(s, z, 0);
    assert StableBy(s, z, 0) == [];
  }

  // ---- The passes: seq_radix_sort_ (lines 38-62) ----

  method SeqRadixSortPasses(first: array<int>, second: array<int>, g: Digit, keyBits: nat, inplace: bool)
    requires first != second && first.Length == second.Length
    modifies first, second
    ensures (if inplace then first else second)[..] == StableBy(old(first[..]), LowBits(g, keyBits), Pow2(keyBits))
  {
    var n := first.Length;
    ghost var s := first[..];
    NoDigits(s, g);
    var input, output := first, second;
    var bits, offset: nat, swapped := keyBits, 0, false;
    while bits > 0
      invariant 0 <= bits <= keyBits && offset + bits == keyBits
      invariant if swapped then input == second && output == first else input == first && output == second
      invariant input[..] == StableBy(s, LowBits(g, offset), Pow2(offset))
    {
      var roundBits := if RADIX < bits then RADIX else bits;
      var d := DigitAt(g, offset, roundBits);
      ghost var t := input[..];
      assert KeysBelow(t, d, Pow2(roundBits));
      var _, _ := SeqCountSort(input, output, d, Pow2(roundBits));
      NextDigit(s, g, offset, roundBits);
      input, output := output, input;
      bits := bits - roundBits;
      offset := offset + roundBits;
      swapped := !swapped;
    }
    if (inplace && swapped) || (!inplace && !swapped) {
      CopyAll(input, output);
    }
  }

  method CopyAll(from: array<int>, to: array<int>)
    requires from != to && from.Length == to.Length
    modifies to
    ensures to[..] == from[..]
  {
    var i := 0;
    while i < from.Length
      invariant 0 <= i <= from.Length && to[..i] == from[..i]
    {
      to[i] := from[i];
      i := i + 1;
    }
  }

  // seq_radix_sort (lines 66-84): with the input as scratch space the result is where `inplace` says;
  // otherwise it is in the output and the input is unchanged.
  method SeqRadixSort(input: array<int>, output: array<int>, tmp: array<int>, g: Digit, keyBits: nat, inplace: bool)
    requires input != output && tmp != output && input.Length == output.Length == tmp.Length
    modifies output, tmp
    ensures (if input == tmp && inplace then tmp else output)[..] ==
            StableBy(old(input[..]), LowBits(g, keyBits), Pow2(keyBits))
    ensures input != tmp ==> input[..] == old(input[..])
  {
    // key_bits - 1 wraps around at zero, which makes the number of the last round odd.
    var odd := keyBits == 0 || (keyBits - 1) / RADIX % 2 == 1;
    if input == tmp {
      SeqRadixSortPasses(tmp, output, g, keyBits, inplace);
    } else if odd {
      CopyAll(input, tmp);
      SeqRadixSortPasses(tmp, output, g, keyBits, false);
    } else {
      CopyAll(input, output);
      SeqRadixSortPasses(output, tmp, g, keyBits, true);
    }
  }
}
