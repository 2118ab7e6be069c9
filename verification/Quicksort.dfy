// The serial quicksort of comparison_systems/aspen/code/pbbslib/quicksort.h: insertion sort for small
// ranges, otherwise a split into three parts around two pivots, for any strict weak order.
module Quicksort {

  import opened Orders

  // ---- Ranges of an array, as a sequence ----

  ghost predicate SortedIn(s: seq<int>, lo: nat, hi: nat, f: Less) {
    hi <= |s| && forall i, j :: lo <= i < j < hi ==> !f(s[j], s[i])
  }

  // t is s with the elements from lo to hi in another order.
  ghost predicate Rearranged(s: seq<int>, t: seq<int>, lo: nat, hi: nat) {
    && lo <= hi <= |s| == |t| && multiset(s) == multiset(t)
    && forall k :: 0 <= k < |s| && !(lo <= k < hi) ==> t[k] == s[k]
  }

  lemma RearrangedTrans(s: seq<int>, t: seq<int>, u: seq<int>, lo: nat, hi: nat, l: nat, h: nat)
    requires Rearranged(s, t, lo, hi) && Rearranged(t, u, l, h) && lo <= l && h <= hi
    ensures Rearranged(s, u, lo, hi)
  {
  }

  lemma RearrangedSelf(s: seq<int>, lo: nat, hi: nat)
    requires lo <= hi <= |s|
    ensures Rearranged(s, s, lo, hi)
  {
  }

  lemma SwapRearranges(s: seq<int>, lo: nat, hi: nat, i: nat, j: nat)
    requires lo <= i < hi <= |s| && lo <= j < hi
    ensures Rearranged(s, s[i := s[j]][j := s[i]], lo, hi)
  {
  }

  lemma RangeMultiset(s: seq<int>, t: seq<int>, lo: nat, hi: nat)
    requires Rearranged(s, t, lo, hi)
    ensures multiset(s[lo..hi]) == multiset(t[lo..hi])
  {
    CutMultiset(s, lo, hi);
    CutMultiset(t, lo, hi);
    forall k | 0 <= k < lo ensures s[..lo][k] == t[..lo][k] { assert s[k] == t[k]; }
    forall k | 0 <= k < |s| - hi ensures s[hi..][k] == t[hi..][k] { assert s[hi + k] == t[hi + k]; }
    assert s[..lo] == t[..lo] && s[hi..] == t[hi..];
    var a, b, c, d := multiset(s[..lo]), multiset(s[lo..hi]), multiset(s[hi..]), multiset(t[lo..hi]);
    forall x: int ensures b[x] == d[x] { assert (a + b + c)[x] == (a + d + c)[x]; }
  }

  lemma CutMultiset(s: seq<int>, lo: nat, hi: nat)
    requires lo <= hi <= |s|
    ensures multiset(s) == multiset(s[..lo]) + multiset(s[lo..hi]) + multiset(s[hi..])
  {
    assert s == s[..lo] + s[lo..hi] + s[hi..];
  }

  // Every element of the range comes from the range, and the other way round.
  lemma FromRange(s: seq<int>, t: seq<int>, lo: nat, hi: nat, k: nat)
    requires (Rearranged(s, t, lo, hi) || Rearranged(t, s, lo, hi)) && lo <= k < hi
    ensures exists j :: lo <= j < hi && s[j] == t[k]
  {
    if Rearranged(s, t, lo, hi) { RangeMultiset(s, t, lo, hi); } else { RangeMultiset(t, s, lo, hi); }
    assert t[lo..hi][k - lo] == t[k];
    assert t[k] in multiset(t[lo..hi]);
    assert t[k] in s[lo..hi];
    var j :| 0 <= j < hi - lo && s[lo..hi][j] == t[k];
    assert s[lo + j] == t[k];
  }

  // ---- insertion_sort (lines 43-51) on the range from lo to hi ----

  lemma ShiftRearranges(s: seq<int>, b: nat, v: int)
    requires 0 < b < |s|
    ensures multiset(s[b := s[b - 1]][b - 1 := v]) == multiset(s[b := v])
  {
    var u := s[b := v];
    SwapRearranges(u, 0, |u|, b - 1, b);
    assert s[b := s[b - 1]][b - 1 := v] == u[b - 1 := u[b]][b := u[b - 1]];
  }

  // The inner loop (line 48): larger elements move up by one, and b is the place for v.
  method MoveUp(a: array<int>, lo: nat, e: nat, v: int, f: Less) returns (b: nat)
    requires lo <= e < a.Length && a[e] == v
    modifies a
    ensures lo <= b <= e && (b > lo ==> !f(v, old(a[b - 1])))
    ensures forall k :: 0 <= k < a.Length && (k < b || e < k) ==> a[k] == old(a[k])
    ensures forall k :: b < k <= e ==> a[k] == old(a[k - 1]) && f(v, a[k])
    ensures multiset(a[..][b := v]) == multiset(old(a[..]))
  {
    b := e;
    assert a[..][b := v] == a[..];
    while b > lo && f(v, a[b - 1])
      invariant lo <= b <= e
      invariant forall k :: 0 <= k < a.Length && (k < b || e < k) ==> a[k] == old(a[k])
      invariant forall k :: b < k <= e ==> a[k] == old(a[k - 1]) && f(v, a[k])
      invariant multiset(a[..][b := v]) == multiset(old(a[..]))
    {
      ghost var t := a[..];
      a[b] := a[b - 1];
      ShiftRearranges(t, b, v);
      assert a[..] == t[b := t[b - 1]];
      b := b - 1;
    }
  }

  method InsertionSort(a: array<int>, lo: nat, hi: nat, f: Less)
    requires lo <= hi <= a.Length && StrictWeak(f)
    modifies a
    ensures SortedIn(a[..], lo, hi, f) && Rearranged(old(a[..]), a[..], lo, hi)
  {
    hide StrictWeak;
    var e := lo;
    while e < hi
      invariant lo <= e <= hi
      invariant SortedIn(a[..], lo, e, f) && Rearranged(old(a[..]), a[..], lo, hi)
    {
      ghost var s := a[..];
      var v := a[e];
      var b := MoveUp(a, lo, e, v, f);
      ghost var t := a[..];
      a[b] := v;
      assert a[..] == t[b := v];
      InsertedSorted(s, a[..], lo, b, e, f);
      RearrangedTrans(old(a[..]), s, a[..], lo, hi, lo, hi);
      e := e + 1;
    }
  }

  lemma InsertedSorted(s: seq<int>, t: seq<int>, lo: nat, b: nat, e: nat, f: Less)
    requires StrictWeak(f) && SortedIn(s, lo, e, f) && lo <= b <= e < |s| == |t|
    requires forall k :: lo <= k < b ==> t[k] == s[k]
    requires forall k :: b < k <= e ==> t[k] == s[k - 1] && f(s[e], t[k])
    requires t[b] == s[e] && (b > lo ==> !f(s[e], s[b - 1]))
    ensures SortedIn(t, lo, e + 1, f)
  {
    hide StrictWeak;
    forall i, j | lo <= i < j < e + 1 ensures !f(t[j], t[i]) {
      if j == b {
        if f(t[j], s[i]) { Between(f, t[j], s[b - 1], s[i]); }
      } else if i == b {
        Asymmetric(f, s[e], t[j]);
      }
    }
  }

  // ---- sort5 (lines 53-61) ----

  method Swap(a: array<int>, lo: nat, hi: nat, i: nat, j: nat)
    requires lo <= i < hi <= a.Length && lo <= j < hi
    modifies a
    ensures Rearranged(old(a[..]), a[..], lo, hi)
    ensures a[..] == old(a[..])[i := old(a[j])][j := old(a[i])]
  {
    SwapRearranges(a[..], lo, hi, i, j);
    a[i], a[j] := a[j], a[i];
  }

  // Five elements at an even stride go to the front, sorted.
  method Sort5(a: array<int>, lo: nat, hi: nat, f: Less)
    requires lo + 6 <= hi <= a.Length && StrictWeak(f)
    modifies a
    ensures SortedIn(a[..], lo, lo + 5, f) && Rearranged(old(a[..]), a[..], lo, hi)
  {
    hide StrictWeak;
    var m := (hi - lo) / 6;
    var l: nat := 0;
    while l < 5
      invariant l <= 5 && Rearranged(old(a[..]), a[..], lo, hi)
    {
      Stride(hi - lo, l);
      ghost var s := a[..];
      Swap(a, lo, hi, lo + l, lo + m * (l + 1));
      RearrangedTrans(old(a[..]), s, a[..], lo, hi, lo, hi);
      l := l + 1;
    }
    ghost var s := a[..];
    InsertionSort(a, lo, lo + 5, f);
    RearrangedTrans(old(a[..]), s, a[..], lo, hi, lo, lo + 5);
  }

  lemma Stride(n: nat, l: nat)
    requires n >= 6 && l < 5
    ensures 0 <= n / 6 * (l + 1) < n
  {
    assert n / 6 * (l + 1) <= n / 6 * 5;
  }

  // ---- split3 (lines 63-99) ----

  ghost predicate BelowIn(s: seq<int>, lo: nat, hi: nat, p: int, f: Less) {
    hi <= |s| && forall k :: lo <= k < hi ==> f(s[k], p)
  }

  ghost predicate AboveIn(s: seq<int>, lo: nat, hi: nat, p: int, f: Less) {
    hi <= |s| && forall k :: lo <= k < hi ==> f(p, s[k])
  }

  ghost predicate WithinIn(s: seq<int>, lo: nat, hi: nat, p1: int, p2: int, f: Less) {
    hi <= |s| && forall k :: lo <= k < hi ==> !f(s[k], p1) && !f(p2, s[k])
  }

  // Below L less than p1, from M on greater than p2, in between neither.
  ghost predicate Split(s: seq<int>, lo: nat, hi: nat, l: nat, m: nat, p1: int, p2: int, f: Less) {
    && lo <= l <= m <= hi <= |s| && !f(p2, p1)
    && BelowIn(s, lo, l, p1, f) && WithinIn(s, l, m, p1, p2, f) && AboveIn(s, m, hi, p2, f)
  }

  // What holds in the main loop: between M and R the elements are unprocessed, and R is not too great.
  ghost predicate Splitting(s: seq<int>, lo: nat, hi: nat, l: nat, m: nat, r: int, p1: int, p2: int, f: Less) {
    && lo <= l <= m <= r + 1 <= hi <= |s|
    && BelowIn(s, lo, l, p1, f) && WithinIn(s, l, m, p1, p2, f) && AboveIn(s, r + 1, hi, p2, f)
    && (m <= r ==> !f(p2, s[r]))
  }

  // The pivots, from the five sample elements at the front (lines 69-72).
  method Pivots(a: array<int>, lo: nat, hi: nat, f: Less) returns (p1: int, p2: int)
    requires lo + 6 <= hi <= a.Length && StrictWeak(f) && SortedIn(a[..], lo, lo + 5, f)
    ensures !f(p2, p1)
    ensures exists i :: lo <= i < hi && a[i] == p1
    ensures exists i :: lo <= i < hi && a[i] == p2
    ensures f(p1, p2) ==> f(a[lo], p1)
  {
    p1, p2 := a[lo + 1], a[lo + 3];
    assert !f(p2, p1);
    if !f(a[lo], a[lo + 1]) { p1 := p2; }
    if !f(a[lo + 3], a[lo + 4]) { p2 := p1; }
  }

  // while (f(*L, p1)) L++, which an element that is not below p1 stops.
  method SkipBelow(a: array<int>, lo: nat, hi: nat, p1: int, f: Less, ghost w: nat) returns (l: nat)
    requires lo <= w < hi <= a.Length && !f(a[w], p1)
    ensures lo <= l <= w && BelowIn(a[..], lo, l, p1, f) && !f(a[l], p1)
  {
    l := lo;
    while f(a[l], p1)
      invariant lo <= l <= w && BelowIn(a[..], lo, l, p1, f)
      decreases w - l
    {
      l := l + 1;
    }
  }

  // while (f(p2, *R)) R--, which an element that is not above p2 stops.
  method SkipAbove(a: array<int>, from: nat, hi: nat, p2: int, f: Less, ghost w: nat) returns (r: nat)
    requires w <= from < hi <= a.Length && !f(p2, a[w]) && AboveIn(a[..], from + 1, hi, p2, f)
    ensures w <= r <= from && AboveIn(a[..], r + 1, hi, p2, f) && !f(p2, a[r])
  {
    r := from;
    while f(p2, a[r])
      invariant w <= r <= from && AboveIn(a[..], r + 1, hi, p2, f)
      decreases r - w
    {
      r := r - 1;
    }
  }

  // The three kinds of steps of the main loop, on the array as a sequence.
  lemma LowStep(s: seq<int>, lo: nat, hi: nat, l: nat, m: nat, r: int, p1: int, p2: int, f: Less)
    requires Splitting(s, lo, hi, l, m, r, p1, p2, f) && m <= r && f(s[m], p1)
    ensures lo <= l <= m < hi <= |s| && Splitting(s[m := s[l]][l := s[m]], lo, hi, l + 1, m + 1, r, p1, p2, f)
  {
  }

  lemma MiddleStep(s: seq<int>, lo: nat, hi: nat, l: nat, m: nat, r: int, p1: int, p2: int, f: Less)
    requires Splitting(s, lo, hi, l, m, r, p1, p2, f) && m <= r && !f(s[m], p1) && !f(p2, s[m])
    ensures Splitting(s, lo, hi, l, m + 1, r, p1, p2, f)
  {
  }

  // The element at M goes to the right end, and what comes from there to the middle or, by a second
  // swap, to the left part. The scan for R then stops at M at the latest.
  lemma HighStep(s: seq<int>, lo: nat, hi: nat, l: nat, m: nat, r: int, p1: int, p2: int, f: Less)
    requires StrictWeak(f) && !f(p2, p1) && Splitting(s, lo, hi, l, m, r, p1, p2, f) && m <= r && f(p2, s[m])
    ensures lo <= l <= m < r < hi <= |s|
    ensures var t := s[m := s[r]][r := s[m]]; var u := if f(t[m], p1) then t[l := t[m]][m := t[l]] else t;
            && BelowIn(u, lo, if f(t[m], p1) then l + 1 else l, p1, f)
            && WithinIn(u, if f(t[m], p1) then l + 1 else l, m + 1, p1, p2, f)
            && AboveIn(u, r, hi, p2, f) && !f(p2, u[m])
  {
    hide StrictWeak;
    assert m < r;
  }

  method Split3(a: array<int>, lo: nat, hi: nat, f: Less)
    returns (l: nat, m: nat, midEq: bool, ghost p1: int, ghost p2: int)
    requires lo + 6 <= hi <= a.Length && StrictWeak(f)
    modifies a
    ensures Rearranged(old(a[..]), a[..], lo, hi) && Split(a[..], lo, hi, l, m, p1, p2, f)
    ensures midEq == !f(p1, p2)
    ensures l < hi && lo < m && (!midEq ==> lo < l)
  {
    hide Split;
    hide StrictWeak;
    hide Rearranged;
    hide SortedIn;
    hide Splitting;
    hide BelowIn;
    hide AboveIn;
    Sort5(a, lo, hi, f);
    ghost var s0 := a[..];
    RearrangedSelf(s0, lo, hi);
    var q1, q2 := Pivots(a, lo, hi, f);
    p1, p2 := q1, q2;
    ghost var i1: nat :| lo <= i1 < hi && a[i1] == q1;
    ghost var i2: nat :| lo <= i2 < hi && a[i2] == q2;
    Irreflexive(f, q1);
    Irreflexive(f, q2);
    var l0 := SkipBelow(a, lo, hi, q1, f, i1);
    var r0 := SkipAbove(a, hi - 1, hi, q2, f, i2);
    StartMeets(a[..], lo, hi, l0, r0, q1, q2, f);
    l, m := SplitLoop(a, lo, hi, l0, r0, q1, q2, f);
    midEq := !f(q1, q2);
    PartsSmaller(s0, a[..], lo, hi, l, m, q1, q2, f);
    RearrangedTrans(old(a[..]), s0, a[..], lo, hi, lo, hi);
  }

  // The main loop (lines 80-98).
  method SplitLoop(a: array<int>, lo: nat, hi: nat, l0: nat, r0: int, p1: int, p2: int, f: Less)
    returns (l: nat, m: nat)
    requires hi <= a.Length && StrictWeak(f) && !f(p2, p1)
    requires Splitting(a[..], lo, hi, l0, l0, r0, p1, p2, f)
    modifies a
    ensures Rearranged(old(a[..]), a[..], lo, hi) && Split(a[..], lo, hi, l, m, p1, p2, f)
  {
    hide StrictWeak, Rearranged, Splitting, Split;
    ghost var s0 := a[..];
    SplittingBounds(s0, lo, hi, l0, l0, r0, p1, p2, f);
    RearrangedSelf(s0, lo, hi);
    l, m := l0, l0;
    var r: int := r0;
    while m <= r
      invariant lo <= l <= m <= r + 1 <= hi
      invariant Splitting(a[..], lo, hi, l, m, r, p1, p2, f) && Rearranged(s0, a[..], lo, hi)
      decreases r + 1 - m
    {
      ghost var s := a[..];
      if f(a[m], p1) {
        LowStep(s, lo, hi, l, m, r, p1, p2, f);
        Swap(a, lo, hi, m, l);
        RearrangedTrans(s0, s, a[..], lo, hi, lo, hi);
        l := l + 1;
      } else if f(p2, a[m]) {
        l, r := MoveRight(a, lo, hi, l, m, r, p1, p2, f);
        RearrangedTrans(s0, s, a[..], lo, hi, lo, hi);
      } else {
        MiddleStep(s, lo, hi, l, m, r, p1, p2, f);
      }
      m := m + 1;
    }
    EndSplits(a[..], lo, hi, l, m, r, p1, p2, f);
  }

  lemma SplittingBounds(s: seq<int>, lo: nat, hi: nat, l: nat, m: nat, r: int, p1: int, p2: int, f: Less)
    requires Splitting(s, lo, hi, l, m, r, p1, p2, f)
    ensures lo <= l <= m <= r + 1 <= hi <= |s|
  {
  }

  // The two first scans cannot pass each other.
  lemma StartMeets(s: seq<int>, lo: nat, hi: nat, l: nat, r: nat, p1: int, p2: int, f: Less)
    requires StrictWeak(f) && lo <= l < hi <= |s| && lo <= r < hi && !f(p2, p1)
    requires BelowIn(s, lo, l, p1, f) && AboveIn(s, r + 1, hi, p2, f)
    requires !f(p2, s[r])
    ensures l <= r + 1 && Splitting(s, lo, hi, l, l, r, p1, p2, f)
  {
    hide StrictWeak;
    if l > r + 1 { Chain(f, p2, s[r + 1], p1); }
  }

  lemma EndSplits(s: seq<int>, lo: nat, hi: nat, l: nat, m: nat, r: int, p1: int, p2: int, f: Less)
    requires Splitting(s, lo, hi, l, m, r, p1, p2, f) && m > r && !f(p2, p1)
    ensures Split(s, lo, hi, l, m, p1, p2, f)
  {
  }

  // The branch of lines 87-95: the element at M goes to the right part.
  method MoveRight(a: array<int>, lo: nat, hi: nat, l0: nat, m: nat, r0: int, p1: int, p2: int, f: Less)
    returns (l: nat, r: int)
    requires a.Length >= hi && StrictWeak(f) && Splitting(a[..], lo, hi, l0, m, r0, p1, p2, f)
    requires m <= r0 && f(p2, a[m]) && !f(p2, p1)
    modifies a
    ensures Rearranged(old(a[..]), a[..], lo, hi) && Splitting(a[..], lo, hi, l, m + 1, r, p1, p2, f)
    ensures lo <= l <= m + 1 <= r + 1 <= hi && r < r0
  {
    hide StrictWeak;
    hide Rearranged;
    l, r := l0, r0;
    ghost var s := a[..];
    HighStep(s, lo, hi, l, m, r, p1, p2, f);
    Swap(a, lo, hi, m, r);
    ghost var t := a[..];
    if f(a[m], p1) {
      Swap(a, lo, hi, l, m);
      RearrangedTrans(s, t, a[..], lo, hi, lo, hi);
      l := l + 1;
    }
    r := SkipAbove(a, r - 1, hi, p2, f, m);
  }

  // The pivots are in the array, so each part that is sorted further is smaller than the whole.
  lemma PartsSmaller(s: seq<int>, t: seq<int>, lo: nat, hi: nat, l: nat, m: nat, p1: int, p2: int, f: Less)
    requires StrictWeak(f) && Rearranged(s, t, lo, hi) && lo < hi && Split(t, lo, hi, l, m, p1, p2, f)
    requires exists i :: lo <= i < hi && s[i] == p1
    requires exists i :: lo <= i < hi && s[i] == p2
    requires f(p1, p2) ==> f(s[lo], p1)
    ensures l < hi && lo < m && (f(p1, p2) ==> lo < l)
  {
    hide StrictWeak;
    var i: nat :| lo <= i < hi && s[i] == p1;
    var j: nat :| lo <= j < hi && s[j] == p2;
    FromRange(t, s, lo, hi, i);
    FromRange(t, s, lo, hi, j);
    FromRange(t, s, lo, hi, lo);
    Irreflexive(f, p1);
    Irreflexive(f, p2);
    var k: nat :| lo <= k < hi && t[k] == s[lo];
    if f(p1, p2) && k >= m { Chain(f, p2, t[k], p1); }
  }

  // ---- quicksort_serial (lines 101-111) ----

  // Nothing from lo to mid is greater than anything from mid to hi.
  ghost predicate Cross(s: seq<int>, lo: nat, mid: nat, hi: nat, f: Less) {
    hi <= |s| && forall i, j :: lo <= i < mid <= j < hi ==> !f(s[j], s[i])
  }

  lemma CrossKeeps(s: seq<int>, t: seq<int>, lo: nat, mid: nat, hi: nat, l: nat, h: nat, f: Less)
    requires Cross(s, lo, mid, hi, f) && Rearranged(s, t, l, h) && lo <= l && h <= mid
    ensures Cross(t, lo, mid, hi, f)
  {
    forall i, j | lo <= i < mid <= j < hi ensures !f(t[j], t[i]) {
      if l <= i < h {
        FromRange(s, t, l, h, i);
        var k: nat :| l <= k < h && s[k] == t[i];
        assert !f(s[j], s[k]);
      }
    }
  }

  // Equal pivots leave a middle part that needs no sorting.
  lemma EqualMiddle(s: seq<int>, l: nat, m: nat, p1: int, p2: int, f: Less)
    requires StrictWeak(f) && WithinIn(s, l, m, p1, p2, f) && !f(p1, p2)
    ensures SortedIn(s, l, m, f)
  {
    hide StrictWeak;
    forall i, j | l <= i < j < m ensures !f(s[j], s[i]) {
      if f(s[j], s[i]) {
        Between(f, s[j], p1, s[i]);
        Between(f, p1, p2, s[i]);
      }
    }
  }

  lemma SplitCross(s: seq<int>, lo: nat, hi: nat, l: nat, m: nat, p1: int, p2: int, f: Less)
    requires StrictWeak(f) && Split(s, lo, hi, l, m, p1, p2, f)
    ensures Cross(s, lo, l, hi, f) && Cross(s, l, m, hi, f)
  {
    hide StrictWeak;
    forall i, j | lo <= i < l <= j < hi ensures !f(s[j], s[i]) {
      if f(s[j], s[i]) {
        Chain(f, s[j], s[i], p1);
        if j >= m { Chain(f, p2, s[j], p1); }
      }
    }
    forall i, j | l <= i < m <= j < hi ensures !f(s[j], s[i]) {
      if f(s[j], s[i]) { Chain(f, p2, s[j], s[i]); }
    }
  }

  // Sorted on both sides of mid, and nothing before it greater than anything after it.
  lemma JoinSorted(s: seq<int>, lo: nat, mid: nat, hi: nat, f: Less)
    requires lo <= mid <= hi && SortedIn(s, lo, mid, f) && SortedIn(s, mid, hi, f) && Cross(s, lo, mid, hi, f)
    ensures SortedIn(s, lo, hi, f)
  {
  }

  lemma SortedKeeps(s: seq<int>, t: seq<int>, lo: nat, hi: nat, l: nat, h: nat, f: Less)
    requires SortedIn(s, lo, hi, f) && Rearranged(s, t, l, h) && (h <= lo || hi <= l)
    ensures SortedIn(t, lo, hi, f)
  {
  }

  // base_case (lines 37-41).
  function BaseCase(n: nat, large: bool): bool { if large then n < 16 else n < 24 }

  method QuicksortSerial(a: array<int>, lo: nat, end: nat, f: Less, large: bool)
    requires lo <= end <= a.Length && StrictWeak(f)
    modifies a
    ensures SortedIn(a[..], lo, end, f) && Rearranged(old(a[..]), a[..], lo, end)
    decreases end - lo
  {
    hide StrictWeak;
    hide Rearranged;
    var hi: nat := end;
    ghost var s0 := a[..];
    RearrangedSelf(s0, lo, end);
    while !BaseCase(hi - lo, large)
      invariant lo <= hi <= end && Rearranged(s0, a[..], lo, end)
      invariant SortedIn(a[..], hi, end, f) && Cross(a[..], lo, hi, end, f)
      decreases hi - lo
    {
      ghost var s1 := a[..];
      var l := SortRight(a, lo, hi, f, large, end);
      JoinSorted(a[..], l, hi, end, f) by { CrossLess(a[..], lo, l, hi, end, f); }
      CrossJoin(a[..], lo, l, hi, end, f);
      RearrangedTrans(s0, s1, a[..], lo, end, lo, hi);
      hi := l;
    }
    ghost var s1 := a[..];
    InsertionSort(a, lo, hi, f);
    RearrangedTrans(s0, s1, a[..], lo, end, lo, hi);
    SortedKeeps(s1, a[..], hi, end, lo, hi, f);
    CrossKeeps(s1, a[..], lo, hi, end, lo, hi, f);
    JoinSorted(a[..], lo, hi, end, f);
  }

  lemma CrossLess(s: seq<int>, lo: nat, l: nat, mid: nat, hi: nat, f: Less)
    requires Cross(s, lo, mid, hi, f) && lo <= l <= mid
    ensures Cross(s, l, mid, hi, f)
  {
  }

  lemma CrossJoin(s: seq<int>, lo: nat, l: nat, mid: nat, hi: nat, f: Less)
    requires lo <= l <= mid <= hi && Cross(s, lo, l, mid, f) && Cross(s, lo, mid, hi, f)
    ensures Cross(s, lo, l, hi, f)
  {
  }

  // One round of the loop (lines 104-108): the middle and the right part are sorted.
  method SortRight(a: array<int>, lo: nat, hi: nat, f: Less, large: bool, ghost end: nat) returns (l: nat)
    requires lo <= hi <= end <= a.Length && StrictWeak(f) && !BaseCase(hi - lo, large)
    requires SortedIn(a[..], hi, end, f) && Cross(a[..], lo, hi, end, f)
    modifies a
    ensures lo <= l < hi && Rearranged(old(a[..]), a[..], lo, hi)
    ensures SortedIn(a[..], l, hi, f) && Cross(a[..], lo, l, hi, f)
    ensures SortedIn(a[..], hi, end, f) && Cross(a[..], lo, hi, end, f)
    decreases hi - lo, 0
  {
    hide StrictWeak;
    hide Rearranged;
    ghost var s0 := a[..];
    var m, midEq;
    ghost var p1, p2;
    l, m, midEq, p1, p2 := Split3(a, lo, hi, f);
    ghost var s1 := a[..];
    SplitCross(s1, lo, hi, l, m, p1, p2, f);
    RearrangedSelf(s1, l, m);
    if !midEq { QuicksortSerial(a, l, m, f, large); } else { EqualMiddle(s1, l, m, p1, p2, f); }
    ghost var s2 := a[..];
    QuicksortSerial(a, m, hi, f, large);
    SortedParts(s0, s1, s2, a[..], lo, l, m, hi, end, f);
  }

  lemma SortedParts(s0: seq<int>, s1: seq<int>, s2: seq<int>, s3: seq<int>, lo: nat, l: nat, m: nat, hi: nat,
          end: nat, f: Less)
    requires lo <= l <= m <= hi <= end <= |s0|
    requires Rearranged(s0, s1, lo, hi) && Rearranged(s1, s2, l, m) && Rearranged(s2, s3, m, hi)
    requires SortedIn(s0, hi, end, f) && Cross(s0, lo, hi, end, f)
    requires Cross(s1, lo, l, hi, f) && Cross(s1, l, m, hi, f)
    requires SortedIn(s2, l, m, f) && SortedIn(s3, m, hi, f)
    ensures Rearranged(s0, s3, lo, hi) && SortedIn(s3, l, hi, f) && Cross(s3, lo, l, hi, f)
    ensures SortedIn(s3, hi, end, f) && Cross(s3, lo, hi, end, f)
  {
    RearrangedTrans(s1, s2, s3, l, hi, m, hi) by { assert Rearranged(s1, s2, l, hi); }
    RearrangedTrans(s0, s1, s3, lo, hi, l, hi);
    SortedKeeps(s0, s3, hi, end, lo, hi, f);
    CrossKeeps(s0, s3, lo, hi, end, lo, hi, f);
    SortedKeeps(s2, s3, l, m, m, hi, f);
    CrossKeeps(s1, s2, l, m, hi, l, m, f);
    CrossKeepsRight(s2, s3, l, m, hi, m, hi, f);
    CrossKeepsRight(s1, s3, lo, l, hi, l, hi, f);
    JoinSorted(s3, l, m, hi, f);
  }

  lemma CrossKeepsRight(s: seq<int>, t: seq<int>, lo: nat, mid: nat, hi: nat, l: nat, h: nat, f: Less)
    requires Cross(s, lo, mid, hi, f) && Rearranged(s, t, l, h) && mid <= l && h <= hi
    ensures Cross(t, lo, mid, hi, f)
  {
    forall i, j | lo <= i < mid <= j < hi ensures !f(t[j], t[i]) {
      if l <= j < h {
        FromRange(s, t, l, h, j);
        var k: nat :| l <= k < h && s[k] == t[j];
        assert !f(s[k], s[i]);
      }
    }
  }
}
