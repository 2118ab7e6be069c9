// The counting sort of comparison_systems/aspen/code/pbbslib/counting_sort.h: one stable pass by a
// digit, sequential and in blocks.
module CountingSort {

  // The key of an element; keys of at least the number of buckets make the program abort.
  type Digit = int -> nat

  // The elements with key b, in order.
  function Bucket(s: seq<int>, d: Digit, b: nat): seq<int> {
    if s == [] then []
    else if d(s[|s| - 1]) == b then Bucket(s[..|s| - 1], d, b) + [s[|s| - 1]]
    else Bucket(s[..|s| - 1], d, b)
  }

  // The stable sort: the buckets one after the other.
  function StableBy(s: seq<int>, d: Digit, k: nat): seq<int> {
    if k == 0 then [] else StableBy(s, d, k - 1) + Bucket(s, d, k - 1)
  }

  // Where bucket b starts.
  function Start(s: seq<int>, d: Digit, b: nat): nat { |StableBy(s, d, b)| }

  // The number of elements with key b.
  function Count(s: seq<int>, d: Digit, b: nat): nat { |Bucket(s, d, b)| }

  ghost predicate KeysBelow(s: seq<int>, d: Digit, k: nat) { forall i :: 0 <= i < |s| ==> d(s[i]) < k }

  // ---- Buckets ----

  lemma BucketStep(s: seq<int>, d: Digit, b: nat, i: nat)
    requires i < |s|
    ensures Bucket(s[..i + 1], d, b) == Bucket(s[..i], d, b) + (if d(s[i]) == b then [s[i]] else [])
  {
    assert s[..i + 1][..i] == s[..i];
  }

  lemma {:induction false} BucketPrefix(s: seq<int>, d: Digit, b: nat, i: nat)
    requires i <= |s|
    ensures Bucket(s[..i], d, b) <= Bucket(s, d, b)
    decreases |s|
  {
    if i == |s| {
      assert s[..i] == s;
    } else {
      var t := s[..|s| - 1];
      BucketPrefix(t, d, b, i);
      assert t[..i] == s[..i];
    }
  }

  // The element at i stands in its bucket behind its predecessors with the same key.
  lemma BucketAt(s: seq<int>, d: Digit, i: nat)
    requires i < |s|
    ensures var c := Count(s[..i], d, d(s[i])); c < Count(s, d, d(s[i])) && Bucket(s, d, d(s[i]))[c] == s[i]
  {
    BucketStep(s, d, d(s[i]), i);
    BucketPrefix(s, d, d(s[i]), i + 1);
  }

  lemma {:induction false} StartPlus(s: seq<int>, d: Digit, b: nat, k: nat)
    requires b < k
    ensures Start(s, d, b + 1) == Start(s, d, b) + Count(s, d, b) <= Start(s, d, k)
    decreases k
  {
    if b + 1 < k { StartPlus(s, d, b, k - 1); }
  }

  // Different buckets have disjoint ranges.
  lemma StartsApart(s: seq<int>, d: Digit, b: nat, c: nat)
    requires b < c
    ensures Start(s, d, b) + Count(s, d, b) <= Start(s, d, c)
  {
    StartPlus(s, d, b, c);
  }

  lemma {:induction false} LengthStep(s: seq<int>, d: Digit, k: nat)
    requires s != []
    ensures Start(s, d, k) == Start(s[..|s| - 1], d, k) + if d(s[|s| - 1]) < k then 1 else 0
  {
    if k > 0 { LengthStep(s, d, k - 1); }
  }

  // All elements are in some bucket.
  lemma {:induction false} TotalLength(s: seq<int>, d: Digit, k: nat)
    requires KeysBelow(s, d, k)
    ensures Start(s, d, k) == |s|
  {
    if s == [] {
      EmptyStart(d, k);
    } else {
      TotalLength(s[..|s| - 1], d, k);
      LengthStep(s, d, k);
    }
  }

  lemma {:induction false} EmptyStart(d: Digit, k: nat)
    ensures Start([], d, k) == 0
  {
    if k > 0 { EmptyStart(d, k - 1); }
  }

  // An array that holds every bucket in its place holds the stable sort.
  lemma {:induction false} BucketsInPlace(s: seq<int>, d: Digit, k: nat, t: seq<int>)
    requires Start(s, d, k) <= |t|
    requires forall b :: 0 <= b < k ==> InPlace(s, d, b, t)
    ensures t[..Start(s, d, k)] == StableBy(s, d, k)
  {
    if k > 0 {
      StartPlus(s, d, k - 1, k);
      BucketsInPlace(s, d, k - 1, t);
      assert InPlace(s, d, k - 1, t);
      var i, j := Start(s, d, k - 1), Start(s, d, k);
      assert t[..j] == t[..i] + t[i..j];
    }
  }

  ghost predicate InPlace(s: seq<int>, d: Digit, b: nat, t: seq<int>) {
    Start(s, d, b) + Count(s, d, b) <= |t| && t[Start(s, d, b)..Start(s, d, b) + Count(s, d, b)] == Bucket(s, d, b)
  }

  // ---- What the stable sort is ----

  lemma {:induction false} BucketAppend(s: seq<int>, t: seq<int>, d: Digit, b: nat)
    ensures Bucket(s + t, d, b) == Bucket(s, d, b) + Bucket(t, d, b)
  {
    if t == [] {
      assert s + t == s;
    } else {
      var n := |t| - 1;
      BucketAppend(s, t[..n], d, b);
      assert (s + t)[..|s + t| - 1] == s + t[..n];
    }
  }

  lemma {:induction false} BucketKeys(s: seq<int>, d: Digit, b: nat, i: nat)
    requires i < Count(s, d, b)
    ensures d(Bucket(s, d, b)[i]) == b
  {
    var t := s[..|s| - 1];
    if i < Count(t, d, b) { BucketKeys(t, d, b, i); }
  }

  ghost predicate AllOf(s: seq<int>, d: Digit, b: nat) { forall i :: 0 <= i < |s| ==> d(s[i]) == b }

  lemma AllKeys(s: seq<int>, d: Digit, b: nat)
    ensures AllOf(Bucket(s, d, b), d, b)
  {
    var t := Bucket(s, d, b);
    forall i | 0 <= i < |t| ensures d(t[i]) == b { BucketKeys(s, d, b, i); }
  }

  lemma KeysAppend(s: seq<int>, t: seq<int>, d: Digit, k: nat)
    requires KeysBelow(s, d, k) && AllOf(t, d, k)
    ensures KeysBelow(s + t, d, k + 1)
  {
    forall i | 0 <= i < |s + t| ensures d((s + t)[i]) < k + 1 {
      assert (s + t)[i] == if i < |s| then s[i] else t[i - |s|];
    }
  }

  lemma {:induction false} StableKeysBelow(s: seq<int>, d: Digit, k: nat)
    ensures KeysBelow(StableBy(s, d, k), d, k)
  {
    if k > 0 {
      StableKeysBelow(s, d, k - 1);
      AllKeys(s, d, k - 1);
      KeysAppend(StableBy(s, d, k - 1), Bucket(s, d, k - 1), d, k - 1);
    }
  }

  ghost predicate SortedBy(s: seq<int>, d: Digit) { forall i, j :: 0 <= i < j < |s| ==> d(s[i]) <= d(s[j]) }

  lemma SortedAppend(s: seq<int>, t: seq<int>, d: Digit, k: nat)
    requires SortedBy(s, d) && KeysBelow(s, d, k) && AllOf(t, d, k)
    ensures SortedBy(s + t, d)
  {
    var u := s + t;
    forall i, j | 0 <= i < j < |u| ensures d(u[i]) <= d(u[j]) {
      assert u[i] == if i < |s| then s[i] else t[i - |s|];
      assert u[j] == if j < |s| then s[j] else t[j - |s|];
    }
  }

  // Sorted by key ...
  lemma {:induction false} StableIsSorted(s: seq<int>, d: Digit, k: nat)
    ensures SortedBy(StableBy(s, d, k), d)
  {
    if k > 0 {
      StableIsSorted(s, d, k - 1);
      StableKeysBelow(s, d, k - 1);
      AllKeys(s, d, k - 1);
      SortedAppend(StableBy(s, d, k - 1), Bucket(s, d, k - 1), d, k - 1);
    }
  }

  lemma {:induction false} OtherBucket(s: seq<int>, d: Digit, b: nat, c: nat)
    requires AllOf(s, d, c) && b != c
    ensures Bucket(s, d, b) == []
  {
    if s != [] { OtherBucket(s[..|s| - 1], d, b, c); }
  }

  lemma {:induction false} WholeBucket(s: seq<int>, d: Digit, b: nat)
    requires AllOf(s, d, b)
    ensures Bucket(s, d, b) == s
  {
    if s != [] { WholeBucket(s[..|s| - 1], d, b); }
  }

  // ... with the elements of each key in their old order, and nothing else.
  lemma {:induction false} StableKeepsOrder(s: seq<int>, d: Digit, k: nat, b: nat)
    ensures Bucket(StableBy(s, d, k), d, b) == if b < k then Bucket(s, d, b) else []
  {
    hide Bucket;
    if k == 0 {
      OtherBucket([], d, b, b + 1);
    } else {
      var t := Bucket(s, d, k - 1);
      StableKeepsOrder(s, d, k - 1, b);
      BucketAppend(StableBy(s, d, k - 1), t, d, b);
      AllKeys(s, d, k - 1);
      if b == k - 1 { WholeBucket(t, d, b); } else { OtherBucket(t, d, b, k - 1); }
    }
  }

  // ---- seq_count_ (lines 44-58) ----

  method SeqCount(input: array<int>, from: nat, to: nat, d: Digit, k: nat) returns (ok: bool, counts: array<nat>)
    requires from <= to <= input.Length
    ensures fresh(counts) && counts.Length == k
    ensures ok <==> KeysBelow(input[from..to], d, k)
    ensures ok ==> forall b :: 0 <= b < k ==> counts[b] == Count(input[from..to], d, b)
  {
    counts := new nat[k](_ => 0);
    var j := from;
    ghost var s := input[from..to];
    while j < to
      invariant from <= j <= to && KeysBelow(s[..j - from], d, k)
      invariant forall b :: 0 <= b < k ==> counts[b] == Count(s[..j - from], d, b)
    {
      var key := d(input[j]);
      assert s[j - from] == input[j];
      if key >= k { return false, counts; }
      ghost var before, after := s[..j - from], s[..j - from + 1];
      forall b | 0 <= b < k ensures Count(after, d, b) == Count(before, d, b) + if b == key then 1 else 0 {
        BucketStep(s, d, b, j - from);
      }
      counts[key] := counts[key] + 1;
      j := j + 1;
    }
    assert s[..to - from] == s;
    ok := true;
  }

  // ---- seq_count_sort_ (lines 84-101) ----

  // The prefix sums (lines 93-97): counts[b] becomes the end of bucket b.
  method PrefixSums(counts: array<nat>, ghost s: seq<int>, ghost d: Digit)
    requires forall b :: 0 <= b < counts.Length ==> counts[b] == Count(s, d, b)
    modifies counts
    ensures forall b :: 0 <= b < counts.Length ==> counts[b] == Start(s, d, b) + Count(s, d, b)
  {
    var sum: nat := 0;
    var i := 0;
    while i < counts.Length
      invariant 0 <= i <= counts.Length && sum == Start(s, d, i)
      invariant forall b :: i <= b < counts.Length ==> counts[b] == Count(s, d, b)
      invariant forall b :: 0 <= b < i ==> counts[b] == Start(s, d, b) + Count(s, d, b)
    {
      StartPlus(s, d, i, i + 1);
      sum := sum + counts[i];
      counts[i] := sum;
      i := i + 1;
    }
  }

  // What has been written when the elements before j are still to come: the upper part of each bucket.
  ghost predicate WrittenDown(s: seq<int>, d: Digit, t: seq<int>, j: nat, b: nat, c: nat)
    requires j <= |s|
  {
    && c == Start(s, d, b) + Count(s[..j], d, b) && Count(s[..j], d, b) <= Count(s, d, b)
    && Start(s, d, b) + Count(s, d, b) <= |t|
    && t[c..Start(s, d, b) + Count(s, d, b)] == Bucket(s, d, b)[Count(s[..j], d, b)..]
  }

  // One element goes to the cell below those of its key written so far.
  lemma WriteStep(s: seq<int>, d: Digit, t: seq<int>, j: nat, c: nat)
    requires j < |s| && WrittenDown(s, d, t, j + 1, d(s[j]), c)
    ensures 0 < c <= |t| && c - 1 < Start(s, d, d(s[j])) + Count(s, d, d(s[j])) && Start(s, d, d(s[j])) <= c - 1
    ensures WrittenDown(s, d, t[c - 1 := s[j]], j, d(s[j]), c - 1)
  {
    var b := d(s[j]);
    BucketStep(s, d, b, j);
    BucketAt(s, d, j);
    var end, n := Start(s, d, b) + Count(s, d, b), Count(s[..j], d, b);
    var u := t[c - 1 := s[j]];
    assert u[c - 1..end] == [s[j]] + t[c..end];
    assert Bucket(s, d, b)[n..] == [s[j]] + Bucket(s, d, b)[n + 1..];
  }

  lemma WriteOther(s: seq<int>, d: Digit, t: seq<int>, j: nat, b: nat, c: nat, p: nat, x: int)
    requires j < |s| && b != d(s[j]) && WrittenDown(s, d, t, j + 1, b, c) && p < |t|
    requires Start(s, d, d(s[j])) <= p < Start(s, d, d(s[j])) + Count(s, d, d(s[j]))
    ensures WrittenDown(s, d, t[p := x], j, b, c)
  {
    BucketStep(s, d, b, j);
    if b < d(s[j]) { StartsApart(s, d, b, d(s[j])); } else { StartsApart(s, d, d(s[j]), b); }
    var end := Start(s, d, b) + Count(s, d, b);
    assert t[p := x][c..end] == t[c..end];
  }

  lemma WriteBegins(s: seq<int>, d: Digit, t: seq<int>, b: nat, k: nat)
    requires |t| == |s| && KeysBelow(s, d, k) && b < k
    ensures WrittenDown(s, d, t, |s|, b, Start(s, d, b) + Count(s, d, b))
  {
    assert s[..|s|] == s;
    TotalLength(s, d, k);
    StartsApart(s, d, b, k);
  }

  // seq_write_down_ (lines 76-82): offsets give the ends of the buckets.
  method SeqWriteDown(input: array<int>, output: array<int>, d: Digit, offsets: array<nat>)
    requires input != output && input.Length == output.Length && KeysBelow(input[..], d, offsets.Length)
    requires forall b :: 0 <= b < offsets.Length ==> offsets[b] == Start(input[..], d, b) + Count(input[..], d, b)
    modifies output, offsets
    ensures output[..] == StableBy(input[..], d, offsets.Length)
    ensures forall b :: 0 <= b < offsets.Length ==> offsets[b] == Start(input[..], d, b)
  {
    ghost var s, k := input[..], offsets.Length;
    forall b | 0 <= b < k
      ensures WrittenDown(s, d, output[..], |s|, b, offsets[b])
    {
      WriteBegins(s, d, output[..], b, k);
    }
    var j := input.Length;
    while j > 0
      invariant 0 <= j <= input.Length
      invariant forall b :: 0 <= b < k ==> WrittenDown(s, d, output[..], j, b, offsets[b])
    {
      j := j - 1;
      ghost var t, cs := output[..], offsets[..];
      var key := d(input[j]);
      assert s[j] == input[j];
      assert WrittenDown(s, d, t, j + 1, key, cs[key]);
      WriteStep(s, d, t, j, cs[key]);
      offsets[key] := offsets[key] - 1;
      output[offsets[key]] := input[j];
      assert output[..] == t[cs[key] - 1 := s[j]];
      forall b | 0 <= b < k ensures WrittenDown(s, d, output[..], j, b, offsets[b]) {
        assert WrittenDown(s, d, t, j + 1, b, cs[b]);
        if b != key { WriteOther(s, d, t, j, b, cs[b], cs[key] - 1, s[j]); }
      }
    }
    AllWritten(s, d, output[..], offsets[..]);
    StartsLeft(s, d, output[..], offsets[..]);
  }

  // With everything written, the offsets are back at the starts of the buckets.
  lemma StartsLeft(s: seq<int>, d: Digit, t: seq<int>, offsets: seq<nat>)
    requires forall b :: 0 <= b < |offsets| ==> WrittenDown(s, d, t, 0, b, offsets[b])
    ensures forall b :: 0 <= b < |offsets| ==> offsets[b] == Start(s, d, b)
  {
    assert s[..0] == [];
    forall b | 0 <= b < |offsets|
      ensures offsets[b] == Start(s, d, b)
    {
      assert WrittenDown(s, d, t, 0, b, offsets[b]);
    }
  }

  lemma AllWritten(s: seq<int>, d: Digit, t: seq<int>, offsets: seq<nat>)
    requires |t| == |s| && KeysBelow(s, d, |offsets|)
    requires forall b :: 0 <= b < |offsets| ==> WrittenDown(s, d, t, 0, b, offsets[b])
    ensures t == StableBy(s, d, |offsets|)
  {
    var k := |offsets|;
    forall b | 0 <= b < k ensures InPlace(s, d, b, t) { WrittenInPlace(s, d, t, b, offsets[b]); }
    hide InPlace;
    TotalLength(s, d, k);
    BucketsInPlace(s, d, k, t);
    assert t[..|t|] == t;
  }

  lemma WrittenInPlace(s: seq<int>, d: Digit, t: seq<int>, b: nat, c: nat)
    requires WrittenDown(s, d, t, 0, b, c)
    ensures InPlace(s, d, b, t)
  {
    assert s[..0] == [];
    assert Bucket(s, d, b)[0..] == Bucket(s, d, b);
  }

  // The starts of the buckets, and the length of the input at the end.
  ghost predicate BucketStarts(offsets: seq<nat>, s: seq<int>, d: Digit, k: nat) {
    |offsets| == k + 1 && offsets[k] == |s| && forall b :: 0 <= b < k ==> offsets[b] == Start(s, d, b)
  }

  method SeqCountSort(input: array<int>, output: array<int>, d: Digit, k: nat)
    returns (ok: bool, offsets: seq<nat>)
    requires input != output && input.Length == output.Length
    modifies output
    ensures ok <==> KeysBelow(input[..], d, k)
    ensures ok ==> output[..] == StableBy(input[..], d, k) && BucketStarts(offsets, input[..], d, k)
  {
    var counts;
    offsets := [];
    assert input[0..input.Length] == input[..];
    ok, counts := SeqCount(input, 0, input.Length, d, k);
    if ok {
      PrefixSums(counts, input[..], d);
      SeqWriteDown(input, output, d, counts);
      offsets := counts[..] + [input.Length];
    }
  }

  // ---- The blocked sort: count_sort_ (lines 117-224) ----

  // Where the stable sort puts the element at i.
  function Pos(s: seq<int>, d: Digit, i: nat): nat
    requires i < |s|
  {
    Start(s, d, d(s[i])) + Count(s[..i], d, d(s[i]))
  }

  ghost predicate Placed(s: seq<int>, d: Digit, t: seq<int>, i: nat)
    requires i < |s|
  {
    Pos(s, d, i) < |t| && t[Pos(s, d, i)] == s[i]
  }

  lemma PosInRange(s: seq<int>, d: Digit, i: nat, k: nat)
    requires i < |s| && KeysBelow(s, d, k)
    ensures Pos(s, d, i) < |s|
  {
    BucketAt(s, d, i);
    TotalLength(s, d, k);
    StartsApart(s, d, d(s[i]), k);
  }

  lemma CountGrows(s: seq<int>, d: Digit, b: nat, i: nat, j: nat)
    requires i <= j <= |s|
    ensures Count(s[..i], d, b) <= Count(s[..j], d, b)
  {
    BucketPrefix(s[..j], d, b, i);
    assert s[..j][..i] == s[..i];
  }

  // No two elements go to the same place.
  lemma PosApart(s: seq<int>, d: Digit, i: nat, j: nat)
    requires i < j < |s|
    ensures Pos(s, d, i) != Pos(s, d, j)
  {
    BucketAt(s, d, i);
    BucketAt(s, d, j);
    var a, b := d(s[i]), d(s[j]);
    if a == b {
      BucketStep(s, d, a, i);
      CountGrows(s, d, a, i + 1, j);
    } else if a < b {
      StartsApart(s, d, a, b);
    } else {
      StartsApart(s, d, b, a);
    }
  }

  // Every place in a bucket belongs to an element.
  lemma {:induction false} PlaceOf(s: seq<int>, d: Digit, b: nat, r: nat) returns (i: nat)
    requires r < Count(s, d, b)
    ensures i < |s| && d(s[i]) == b && Count(s[..i], d, b) == r && s[i] == Bucket(s, d, b)[r]
  {
    var n := |s| - 1;
    var t := s[..n];
    if d(s[n]) == b && r == Count(t, d, b) {
      i := n;
    } else {
      i := PlaceOf(t, d, b, r);
      assert t[..i] == s[..i];
    }
  }

  lemma AllPlaced(s: seq<int>, d: Digit, t: seq<int>, k: nat)
    requires |t| == |s| && KeysBelow(s, d, k) && forall i :: 0 <= i < |s| ==> Placed(s, d, t, i)
    ensures t == StableBy(s, d, k)
  {
    TotalLength(s, d, k);
    forall b | 0 <= b < k ensures InPlace(s, d, b, t) {
      StartsApart(s, d, b, k);
      var lo, n := Start(s, d, b), Count(s, d, b);
      forall r | 0 <= r < n ensures t[lo..lo + n][r] == Bucket(s, d, b)[r] {
        var i := PlaceOf(s, d, b, r);
        assert Placed(s, d, t, i);
      }
    }
    BucketsInPlace(s, d, k, t);
    assert t[..|t|] == t;
  }

  // seq_write_ (lines 62-72) on one block: offsets give the next free place of each bucket.
  method SeqWrite(input: array<int>, output: array<int>, from: nat, to: nat, d: Digit, start: array<nat>,
                  ghost s: seq<int>, ghost t0: seq<int>)
    requires input != output && s == input[..] && t0 == output[..] && |t0| == |s| && from <= to <= |s|
    requires KeysBelow(s, d, start.Length)
    requires forall b :: 0 <= b < start.Length ==> start[b] == Start(s, d, b) + Count(s[..from], d, b)
    modifies output
    ensures forall i :: 0 <= i < to && (from <= i || Placed(s, d, t0, i)) ==> Placed(s, d, output[..], i)
  {
    hide Placed;
    hide Start;
    hide Count;
    ghost var k := start.Length;
    var offsets := new nat[start.Length];
    forall b | 0 <= b < start.Length { offsets[b] := start[b]; }
    var j := from;
    assert output[..] == t0;
    while j < to
      invariant from <= j <= to
      invariant forall b :: 0 <= b < k ==> offsets[b] == Start(s, d, b) + Count(s[..j], d, b)
      invariant forall i :: 0 <= i < j && (from <= i || Placed(s, d, t0, i)) ==> Placed(s, d, output[..], i)
    {
      ghost var t := output[..];
      var key := d(input[j]);
      assert s[j] == input[j];
      PosInRange(s, d, j, k);
      var p := offsets[key];
      offsets[key] := p + 1;
      output[p] := input[j];
      NextOffsets(s, d, k, j);
      assert output[..] == t[p := s[j]];
      PlacedStays(s, d, t, j, k);
      forall i | 0 <= i < j + 1 && (from <= i || Placed(s, d, t0, i)) ensures Placed(s, d, output[..], i) {
        assert i < j ==> Placed(s, d, t, i);
      }
      j := j + 1;
    }
  }

  // Putting the element at j into its place leaves the others in theirs.
  lemma PlacedStays(s: seq<int>, d: Digit, t: seq<int>, j: nat, k: nat)
    requires j < |s| == |t| && KeysBelow(s, d, k)
    ensures Pos(s, d, j) < |t| && Placed(s, d, t[Pos(s, d, j) := s[j]], j)
    ensures forall i :: 0 <= i < j && Placed(s, d, t, i) ==> Placed(s, d, t[Pos(s, d, j) := s[j]], i)
  {
    PosInRange(s, d, j, k);
    forall i | 0 <= i < j && Placed(s, d, t, i)
      ensures Placed(s, d, t[Pos(s, d, j) := s[j]], i)
    {
      PosApart(s, d, i, j);
    }
  }

  lemma NextOffsets(s: seq<int>, d: Digit, k: nat, j: nat)
    requires j < |s|
    ensures forall b :: 0 <= b < k ==> Count(s[..j + 1], d, b) == Count(s[..j], d, b) + if b == d(s[j]) then 1 else 0
  {
    var t, u := s[..j], s[..j + 1];
    forall b | 0 <= b < k ensures Count(u, d, b) == Count(t, d, b) + if b == d(s[j]) then 1 else 0 {
      BucketStep(s, d, b, j);
    }
  }

  // Block i reaches from Cut(i) to Cut(i + 1).
  function Cut(n: nat, size: nat, i: nat): nat { if i * size < n then i * size else n }

  lemma Cuts(n: nat, blocks: nat, i: nat)
    requires n > 0 && blocks > 0 && i < blocks
    ensures var size := (n - 1) / blocks + 1;
            && Cut(n, size, i) <= Cut(n, size, i + 1) <= n && Cut(n, size, 0) == 0
            && Cut(n, size, i + 1) == (if Cut(n, size, i) + size < n then Cut(n, size, i) + size else n)
            && Cut(n, size, blocks) == n
  {
    var size := (n - 1) / blocks + 1;
    assert (i + 1) * size == i * size + size;
    assert blocks * size >= n;
  }

  lemma {:induction false} CountSplit(s: seq<int>, d: Digit, b: nat, i: nat, j: nat)
    requires i <= j <= |s|
    ensures Count(s[..j], d, b) == Count(s[..i], d, b) + Count(s[i..j], d, b)
    decreases j
  {
    if i < j {
      CountSplit(s, d, b, i, j - 1);
      BucketStep(s, d, b, j - 1);
      assert s[i..j][..j - i - 1] == s[i..j - 1];
    } else {
      assert s[i..j] == [];
    }
  }

  ghost predicate BlockCounts(s: seq<int>, d: Digit, size: nat, counts: array2<nat>, i: nat)
    requires i < counts.Length0
    reads counts
  {
    Cut(|s|, size, i) <= Cut(|s|, size, i + 1) <= |s| &&
    forall b :: 0 <= b < counts.Length1 ==>
      counts[i, b] == Count(s[Cut(|s|, size, i)..Cut(|s|, size, i + 1)], d, b)
  }

  // The counts of one block.
  method CountBlock(input: array<int>, d: Digit, counts: array2<nat>, i: nat, from: nat, to: nat) returns (ok: bool)
    requires from <= to <= input.Length && i < counts.Length0
    modifies counts
    ensures ok <==> KeysBelow(input[from..to], d, counts.Length1)
    ensures ok ==> forall b :: 0 <= b < counts.Length1 ==> counts[i, b] == Count(input[from..to], d, b)
    ensures
      forall j, b :: 0 <= j < counts.Length0 && j != i && 0 <= b < counts.Length1 ==> counts[j, b] == old(counts[j, b])
  {
    hide Count;
    ghost var s := input[from..to];
    var row;
    ok, row := SeqCount(input, from, to, d, counts.Length1);
    if ok {
      forall b | 0 <= b < counts.Length1 { counts[i, b] := row[b]; }
    }
    assert input[from..to] == s;
  }

  lemma KeysJoin(s: seq<int>, d: Digit, k: nat, from: nat, to: nat)
    requires from <= to <= |s| && KeysBelow(s[..from], d, k)
    ensures KeysBelow(s[..to], d, k) <==> KeysBelow(s[from..to], d, k)
  {
    forall j | 0 <= j < to && KeysBelow(s[from..to], d, k) ensures d(s[..to][j]) < k {
      if j < from { assert s[..from][j] == s[j]; } else { assert s[from..to][j - from] == s[j]; }
    }
    forall j | 0 <= j < to - from && KeysBelow(s[..to], d, k) ensures d(s[from..to][j]) < k {
      assert s[..to][from + j] == s[from + j];
    }
  }

  // The counts of every block (lines 146-151).
  method CountBlocks(input: array<int>, d: Digit, k: nat, blocks: nat) returns (ok: bool, counts: array2<nat>)
    requires input.Length > 0 && blocks > 0
    ensures fresh(counts) && counts.Length0 == blocks && counts.Length1 == k
    ensures ok <==> KeysBelow(input[..], d, k)
    ensures ok ==> var s, size := input[..], (input.Length - 1) / blocks + 1;
                   forall i :: 0 <= i < blocks ==> BlockCounts(s, d, size, counts, i)
  {
    hide Count;
    hide Cut;
    var n, size := input.Length, (input.Length - 1) / blocks + 1;
    ghost var s := input[..];
    counts := new nat[blocks, k];
    var i: nat := 0;
    Cuts(n, blocks, 0);
    while i < blocks
      invariant i <= blocks && Cut(n, size, i) <= n && KeysBelow(s[..Cut(n, size, i)], d, k)
      invariant forall j :: 0 <= j < i ==> BlockCounts(s, d, size, counts, j)
    {
      Cuts(n, blocks, i);
      var from, to := Cut(n, size, i), Cut(n, size, i + 1);
      KeysJoin(s, d, k, from, to);
      assert input[from..to] == s[from..to];
      label L:
      ok := CountBlock(input, d, counts, i, from, to);
      if !ok {
        if KeysBelow(s, d, k) { KeysPrefix(s, d, k, to); }
        return;
      }
      assert input[..] == s;
      forall j | 0 <= j < i
        ensures BlockCounts(s, d, size, counts, j)
      {
        assert old@L(BlockCounts(s, d, size, counts, j));
      }
      i := i + 1;
    }
    Cuts(n, blocks, 0);
    assert s[..n] == s;
    ok := true;
  }

  lemma KeysPrefix(s: seq<int>, d: Digit, k: nat, to: nat)
    requires to <= |s| && KeysBelow(s, d, k)
    ensures KeysBelow(s[..to], d, k)
  {
  }

  // The offset of bucket b in block i: behind the same bucket of the blocks before.
  ghost predicate Offset(s: seq<int>, d: Digit, size: nat, i: nat, b: nat, v: nat) {
    v == Start(s, d, b) + Count(s[..Cut(|s|, size, i)], d, b)
  }

  lemma OffsetStep(s: seq<int>, d: Digit, size: nat, i: nat, b: nat, v: nat, c: nat)
    requires Cut(|s|, size, i) <= Cut(|s|, size, i + 1) <= |s| && Offset(s, d, size, i, b, v)
    requires c == Count(s[Cut(|s|, size, i)..Cut(|s|, size, i + 1)], d, b)
    ensures Offset(s, d, size, i + 1, b, v + c)
  {
    CountSplit(s, d, b, Cut(|s|, size, i), Cut(|s|, size, i + 1));
  }

  // Below k, no bucket but b is in use.
  // All elements have the same digit.
  ghost predicate OneDigit(s: seq<int>, d: Digit) {
    forall i, j :: 0 <= i < |s| && 0 <= j < |s| ==> d(s[i]) == d(s[j])
  }

  lemma {:induction false} Member(s: seq<int>, d: Digit, b: nat) returns (i: nat)
    requires Count(s, d, b) > 0
    ensures i < |s| && d(s[i]) == b
  {
    var last := |s| - 1;
    if d(s[last]) == b { i := last; } else { i := Member(s[..last], d, b); }
  }

  lemma TwoDigits(s: seq<int>, d: Digit, b: nat, c: nat)
    requires b != c && Count(s, d, b) > 0 && Count(s, d, c) > 0
    ensures !OneDigit(s, d)
  {
    var i := Member(s, d, b);
    var j := Member(s, d, c);
    assert d(s[i]) != d(s[j]);
  }

  lemma SomeBucket(s: seq<int>, d: Digit, k: nat)
    requires |s| > 0 && KeysBelow(s, d, k)
    ensures exists b :: 0 <= b < k && Count(s, d, b) > 0
  {
    BucketAt(s, d, 0);
  }

  lemma OneBucketOneDigit(s: seq<int>, d: Digit, k: nat, b: nat)
    requires KeysBelow(s, d, k) && OnlyBucket(s, d, k, b)
    ensures OneDigit(s, d)
  {
    forall i | 0 <= i < |s|
      ensures d(s[i]) == b
    {
      BucketAt(s, d, i);
    }
  }

  ghost predicate OnlyBucket(s: seq<int>, d: Digit, k: nat, b: nat) {
    forall c :: 0 <= c < k && c != b ==> Count(s, d, c) == 0
  }

  // Bucket sizes and their exclusive prefix sums (lines 155-168).
  method BucketOffsets(counts: array2<nat>, ghost s: seq<int>, ghost d: Digit, ghost size: nat)
    returns (offsets: array<nat>, nonZero: nat, total: nat)
    requires |s| > 0 && counts.Length0 > 0 && size == (|s| - 1) / counts.Length0 + 1
    requires forall i :: 0 <= i < counts.Length0 ==> BlockCounts(s, d, size, counts, i)
    ensures fresh(offsets) && offsets.Length == counts.Length1 && total == Start(s, d, counts.Length1)
    ensures forall b :: 0 <= b < counts.Length1 ==> offsets[b] == Start(s, d, b)
    ensures nonZero == 1 ==> exists b :: 0 <= b < counts.Length1 && OnlyBucket(s, d, counts.Length1, b)
    ensures KeysBelow(s, d, counts.Length1) ==> (nonZero == 1 <==> OneDigit(s, d))
  {
    hide OneDigit, KeysBelow, Bucket, Count;
    var blocks, k := counts.Length0, counts.Length1;
    offsets := new nat[k];
    total, nonZero := 0, 0;
    ghost var only: nat, before: nat := 0, 0;
    var b: nat := 0;
    while b < k
      invariant b <= k && total == Start(s, d, b)
      invariant forall c :: 0 <= c < b ==> offsets[c] == Start(s, d, c)
      invariant nonZero == 0 ==> OnlyBucket(s, d, b, b)
      invariant nonZero == 1 ==> only < b && OnlyBucket(s, d, b, only)
      invariant nonZero >= 1 ==> only < b && Count(s, d, only) > 0
      invariant nonZero >= 2 ==> before < only && Count(s, d, before) > 0
    {
      var v := BucketSize(counts, s, d, size, b);
      if v > 0 {
        nonZero := nonZero + 1;
        before, only := only, b;
      }
      offsets[b] := total;
      StartPlus(s, d, b, b + 1);
      total := total + v;
      b := b + 1;
    }
    if nonZero >= 2 { TwoDigits(s, d, before, only); }
    if KeysBelow(s, d, k) {
      SomeBucket(s, d, k);
      if nonZero == 1 { OneBucketOneDigit(s, d, k, only); }
    }
  }

  method BucketSize(counts: array2<nat>, ghost s: seq<int>, ghost d: Digit, ghost size: nat, b: nat) returns (v: nat)
    requires |s| > 0 && counts.Length0 > 0 && size == (|s| - 1) / counts.Length0 + 1 && b < counts.Length1
    requires forall i :: 0 <= i < counts.Length0 ==> BlockCounts(s, d, size, counts, i)
    ensures v == Count(s, d, b)
  {
    var blocks := counts.Length0;
    v := 0;
    var j: nat := 0;
    Cuts(|s|, blocks, 0);
    assert s[..0] == [];
    while j < blocks
      invariant j <= blocks && Cut(|s|, size, j) <= |s| && v == Count(s[..Cut(|s|, size, j)], d, b)
    {
      Cuts(|s|, blocks, j);
      assert BlockCounts(s, d, size, counts, j);
      CountSplit(s, d, b, Cut(|s|, size, j), Cut(|s|, size, j + 1));
      v := v + counts[j, b];
      j := j + 1;
    }
    Cuts(|s|, blocks, 0);
    assert s[..|s|] == s;
  }

  // Where each block writes each bucket (lines 174-190).
  method DestOffsets(counts: array2<nat>, offsets: array<nat>, ghost s: seq<int>, ghost d: Digit, ghost size: nat)
    returns (counts2: array2<nat>)
    requires |s| > 0 && counts.Length0 > 0 && size == (|s| - 1) / counts.Length0 + 1 && offsets.Length == counts.Length1
    requires forall i :: 0 <= i < counts.Length0 ==> BlockCounts(s, d, size, counts, i)
    requires forall b :: 0 <= b < offsets.Length ==> offsets[b] == Start(s, d, b)
    ensures fresh(counts2) && counts2.Length0 == counts.Length0 && counts2.Length1 == counts.Length1
    ensures
      forall i, b :: 0 <= i < counts.Length0 && 0 <= b < counts.Length1 ==> Offset(s, d, size, i, b, counts2[i, b])
  {
    var blocks, k := counts.Length0, counts.Length1;
    var dest := new nat[k, blocks];
    var b: nat := 0;
    while b < k
      invariant b <= k
      invariant forall c, i :: 0 <= c < b && 0 <= i < blocks ==> Offset(s, d, size, i, c, dest[c, i])
    {
      var v: nat := offsets[b];
      var j: nat := 0;
      Cuts(|s|, blocks, 0);
      assert s[..0] == [];
      while j < blocks
        invariant j <= blocks && Offset(s, d, size, j, b, v)
        invariant forall c, i :: 0 <= c < b && 0 <= i < blocks ==> Offset(s, d, size, i, c, dest[c, i])
        invariant forall i :: 0 <= i < j ==> Offset(s, d, size, i, b, dest[b, i])
      {
        dest[b, j] := v;
        Cuts(|s|, blocks, j);
        assert BlockCounts(s, d, size, counts, j);
        OffsetStep(s, d, size, j, b, v, counts[j, b]);
        v := v + counts[j, b];
        j := j + 1;
      }
      b := b + 1;
    }
    counts2 := new nat[blocks, k];
    forall i, c | 0 <= i < blocks && 0 <= c < k { counts2[i, c] := dest[c, i]; }
  }

  // count_sort_ beyond the sequential case. If all keys are equal it may leave the output alone;
  // otherwise the output is the same as that of the sequential sort.
  method CountSortBlocked(input: array<int>, output: array<int>, d: Digit, k: nat, blocks: nat, skipIfInOne: bool)
    returns (ok: bool, oneBucket: bool, starts: seq<nat>)
    requires input != output && input.Length == output.Length > 0 && blocks > 0
    modifies output
    ensures ok <==> KeysBelow(input[..], d, k)
    ensures oneBucket <==> ok && skipIfInOne && OneDigit(input[..], d)
    ensures ok ==> BucketStarts(starts, input[..], d, k)
    ensures ok && !oneBucket ==> output[..] == StableBy(input[..], d, k)
    ensures oneBucket ==> ok && output[..] == old(output[..]) && input[..] == StableBy(input[..], d, k)
  {
    var n, size := input.Length, (input.Length - 1) / blocks + 1;
    ghost var s := input[..];
    oneBucket, starts := false, [];
    var counts;
    ok, counts := CountBlocks(input, d, k, blocks);
    if !ok { return; }
    var offsets, nonZero, total := BucketOffsets(counts, s, d, size);
    TotalLength(s, d, k);
    starts := offsets[..] + [total];
    if skipIfInOne && nonZero == 1 {
      OneBucketSorted(s, d, k);
      return true, true, starts;
    }
    if total != n { assert false; }
    var counts2 := DestOffsets(counts, offsets, s, d, size);
    WriteBlocks(input, output, d, k, counts2);
  }

  // The blocks write to disjoint places (lines 202-208).
  method WriteBlocks(input: array<int>, output: array<int>, d: Digit, k: nat, counts2: array2<nat>)
    requires input != output && input.Length == output.Length > 0 && counts2.Length0 > 0 && counts2.Length1 == k
    requires KeysBelow(input[..], d, k)
    requires var size := (input.Length - 1) / counts2.Length0 + 1;
             forall i, b :: 0 <= i < counts2.Length0 && 0 <= b < k ==> Offset(input[..], d, size, i, b, counts2[i, b])
    modifies output
    ensures output[..] == StableBy(input[..], d, k)
  {
    hide Placed;
    hide Start;
    hide Count;
    hide StableBy;
    hide Cut;
    var n, blocks := input.Length, counts2.Length0;
    var size := (n - 1) / blocks + 1;
    ghost var s := input[..];
    var i: nat := 0;
    Cuts(n, blocks, 0);
    while i < blocks
      invariant i <= blocks && Cut(n, size, i) <= n && input[..] == s
      invariant forall j :: 0 <= j < Cut(n, size, i) ==> Placed(s, d, output[..], j)
    {
      ghost var t := output[..];
      Cuts(n, blocks, i);
      var row := new nat[k];
      forall b | 0 <= b < k { row[b] := counts2[i, b]; }
      forall b | 0 <= b < k ensures row[b] == Start(s, d, b) + Count(s[..Cut(n, size, i)], d, b) {
        assert Offset(s, d, size, i, b, counts2[i, b]);
      }
      assert input[..] == s && output[..] == t;
      SeqWrite(input, output, Cut(n, size, i), Cut(n, size, i + 1), d, row, s, t);
      forall j | 0 <= j < Cut(n, size, i + 1) ensures Placed(s, d, output[..], j) {
        assert j < Cut(n, size, i) ==> Placed(s, d, t, j);
      }
      i := i + 1;
    }
    Cuts(n, blocks, 0);
    AllPlaced(s, d, output[..], k);
  }

  // With a single bucket in use, the input is its own stable sort.
  lemma OneBucketSorted(s: seq<int>, d: Digit, k: nat)
    requires KeysBelow(s, d, k) && exists b :: 0 <= b < k && OnlyBucket(s, d, k, b)
    ensures StableBy(s, d, k) == s
  {
    var b: nat :| b < k && OnlyBucket(s, d, k, b);
    forall i | 0 <= i < |s| ensures d(s[i]) == b { BucketAt(s, d, i); }
    WholeBucket(s, d, b);
    OthersEmpty(s, d, b, k);
  }

  lemma {:induction false} OthersEmpty(s: seq<int>, d: Digit, b: nat, k: nat)
    requires OnlyBucket(s, d, k, b)
    ensures StableBy(s, d, k) == if b < k then Bucket(s, d, b) else []
  {
    if k > 0 {
      OthersEmpty(s, d, b, k - 1);
      if k - 1 != b { assert Count(s, d, k - 1) == 0; }
    }
  }
}
