// Bulk build, bulk insert and filter on reference-counted nodes:
// comparison_systems/aspen/code/trees/sequence_ops.h, lines 213-258, and map_ops.h, lines 465-485.
// The two recursive calls, which the program may run in parallel, run one after the other here.
module HeapBulk {
  import opened WeightBalanced
  import opened TreeMaps
  import opened TreeHeap
  import opened HeapMaps
  import opened HeapSets
  import opened HeapSplit
  import opened HeapUnion

  // from_array.
  method FromArrayNode(h: Heap, s: seq<Entry>, ghost keep: multiset<Ptr>) returns (r: Ptr)
    requires Ok(Now(h)) && h.book.handles == keep
    modifies h
    ensures Returned(old(Now(h)), Now(h), r, keep) && TreeOf(Now(h), r) == FromArray(s)
    decreases |s|, 1
  {
    hide Ok;
    hide NodeJoin;
    hide Same;
    if |s| == 0 {
      r := FromNothing(h, keep);
    } else if |s| == 1 {
      r := FromOne(h, s[0], keep);
    } else {
      r := FromHalves(h, s[..|s| / 2], s[|s| / 2], s[|s| / 2 + 1..], keep);
    }
  }

  method FromNothing(h: Heap, ghost keep: multiset<Ptr>) returns (r: Ptr)
    requires Ok(Now(h)) && h.book.handles == keep
    modifies h
    ensures Returned(old(Now(h)), Now(h), r, keep) && TreeOf(Now(h), r) == Leaf
  {
    hide ExactCounts;
    h.NoNull();
    r := 0;
    h.HoldNull();
  }

  method FromOne(h: Heap, e: Entry, ghost keep: multiset<Ptr>) returns (r: Ptr)
    requires Ok(Now(h)) && h.book.handles == keep
    modifies h
    ensures Returned(old(Now(h)), Now(h), r, keep) && TreeOf(Now(h), r) == Node(Leaf, e, Leaf)
  {
    hide ExactCounts;
    r := h.Single(e);
  }

  method FromHalves(h: Heap, low: seq<Entry>, e: Entry, high: seq<Entry>, ghost keep: multiset<Ptr>) returns (o: Ptr)
    requires Ok(Now(h)) && h.book.handles == keep
    modifies h
    ensures Returned(old(Now(h)), Now(h), o, keep)
    ensures TreeOf(Now(h), o) == NodeJoin(FromArray(low), FromArray(high), e)
    decreases |low| + |high| + 1, 0
  {
    hide Ok;
    hide NodeJoin;
    hide Same;
    hide FromArray;
    ghost var m0 := Now(h);
    var m := NewNode(h, e);
    ghost var m1 := Now(h);
    var l := FromArrayNode(h, low, keep);
    ghost var m2 := Now(h);
    SameShell(m1, m2, keep, m1.book.shells, m);
    var r := FromArrayNode(h, high, keep + multiset{l});
    ghost var m3 := Now(h);
    SameShell(m2, m3, keep + multiset{l}, m2.book.shells, m);
    SameTree(m2, m3, keep + multiset{l}, m2.book.shells, l);
    o := JoinAt(h, l, r, m, keep);
    SameTrans(m2, m3, Now(h), keep + multiset{l}, keep, m2.book.shells, h.book.shells, keep, h.book.shells);
    SameTrans(m1, m2, Now(h), keep, keep, m1.book.shells, h.book.shells, keep, h.book.shells);
    SameTrans(m0, m1, Now(h), keep, keep, m0.book.shells, h.book.shells, keep, h.book.shells);
  }

  // multi_insert_sorted.
  method MultiInsertNode(h: Heap, b: Ptr, s: seq<Entry>, op: Op, extra: bool, ghost keep: multiset<Ptr>)
    returns (o: Ptr)
    requires Passed(Now(h), b, extra, keep) && Sorted(s)
    modifies h
    ensures Returned(old(Now(h)), Now(h), o, keep)
    ensures TreeOf(Now(h), o) == MultiInsert(old(TreeOf(Now(h), b)), s, op)
    decreases At(h.book.trees, b), 2
  {
    hide Ok;
    hide NodeJoin;
    hide Same;
    hide Borrowed;
    if b == 0 {
      o := BuildInstead(h, s, extra, keep);
    } else if |s| == 0 {
      Give(h, b, extra, keep);
      o := b;
    } else {
      ghost var m0 := Now(h);
      ghost var t, k;
      var copy;
      copy, t, k := MustCopy(h, b, extra, keep);
      ghost var m1 := Now(h);
      o := MultiInsertEntered(h, b, s, op, copy, extra, t, k, keep);
      SameTrans(m0, m1, Now(h), keep, keep, m0.book.shells, h.book.shells, keep, m0.book.shells);
    }
  }

  method BuildInstead(h: Heap, s: seq<Entry>, extra: bool, ghost keep: multiset<Ptr>) returns (o: Ptr)
    requires Passed(Now(h), 0, extra, keep)
    modifies h
    ensures Returned(old(Now(h)), Now(h), o, keep)
    ensures TreeOf(Now(h), o) == FromArray(s) && old(TreeOf(Now(h), 0)) == Leaf
  {
    hide ExactCounts;
    h.NoNull();
    ghost var m0 := Now(h);
    assert h.book.handles == keep + Counted(0, extra);
    Forget(h, extra, keep);
    ghost var m1 := Now(h);
    o := FromArrayNode(h, s, keep);
    SameTrans(m0, m1, Now(h), keep, keep, m0.book.shells, m0.book.shells, keep, m0.book.shells);
  }

  method MultiInsertEntered(h: Heap, b: Ptr, s: seq<Entry>, op: Op, copy: bool, extra: bool, ghost t: PTree,
                            ghost k: multiset<Ptr>, ghost keep: multiset<Ptr>)
    returns (o: Ptr)
    requires Entered(Now(h), b, copy, extra, t, keep, k) && Sorted(s) && |s| > 0
    modifies h
    ensures Left(old(Now(h)), Now(h), b, copy, o, keep)
    ensures TreeOf(Now(h), o) == MultiInsert(Val(t), s, op)
    decreases t, 1
  {
    hide Ok;
    hide NodeJoin;
    hide Same;
    hide Borrowed;
    ghost var m0 := Now(h);
    var bk := h.cells[b].entry.key;
    var mid := BinarySearch(s, bk);
    var dup := mid < |s| && !(bk < s[mid].key);
    var high := if dup then s[mid + 1..] else s[mid..];
    ghost var p := Divide(t.e, s, op);
    assert p.low == s[..mid] && p.high == high;
    var p1, p2 := MultiInsertSides(h, b, s[..mid], high, op, copy, extra, t, k, keep);
    ghost var m1 := Now(h);
    if dup {
      o := RejoinWith(h, p1, p2, b, s[mid], op, copy, extra, t, k, keep);
    } else {
      o := Rejoin(h, p1, p2, b, copy, extra, t, k, keep);
    }
    SameTrans(m0, m1, Now(h), k, keep, m0.book.shells, h.book.shells, keep, h.book.shells);
  }

  method MultiInsertSides(h: Heap, b: Ptr, low: seq<Entry>, high: seq<Entry>, op: Op, copy: bool, extra: bool,
                          ghost t: PTree, ghost k: multiset<Ptr>, ghost keep: multiset<Ptr>)
    returns (p1: Ptr, p2: Ptr)
    requires Entered(Now(h), b, copy, extra, t, keep, k) && Sorted(low) && Sorted(high)
    modifies h
    ensures SidesDone(old(Now(h)), Now(h), b, copy, t, k, p1, p2)
    ensures TreeOf(Now(h), p1) == MultiInsert(Val(t.l), low, op)
    ensures TreeOf(Now(h), p2) == MultiInsert(Val(t.r), high, op)
    decreases t, 0
  {
    hide Ok;
    hide NodeJoin;
    hide Same;
    hide Borrowed;
    ghost var m0 := Now(h);
    var lc := h.cells[b].lc;
    ghost var k1 := k + Counted(Root(t.r), copy);
    if copy { OpenChildren(m0, b, t, k, k1); }
    assert h.book.handles == k1 + Counted(lc, copy);
    p1 := MultiInsertNode(h, lc, low, op, copy, k1);
    ghost var m1 := Now(h);
    OpenStays(m0, m1, b, copy, t, k, k1, m0.book.shells);
    var rc := h.cells[b].rc;
    if !copy { SameTree(m0, m1, k1, m0.book.shells, rc); }
    ghost var k2 := k + multiset{p1};
    if copy { OpenChildren(m1, b, t, k, k2); }
    assert h.book.handles == k2 + Counted(rc, copy);
    p2 := MultiInsertNode(h, rc, high, op, copy, k2);
    ghost var m2 := Now(h);
    OpenStays(m1, m2, b, copy, t, k, k2, m1.book.shells);
    SameTree(m1, m2, k2, m1.book.shells, p1);
    SameTrans(m0, m1, m2, k1, k2, m0.book.shells, m1.book.shells, k, m0.book.shells);
  }

  // ---- filter (sequence_ops.h, lines 213-228) ----

  method FilterNode(h: Heap, b: Ptr, f: Entry -> bool, extra: bool, ghost keep: multiset<Ptr>) returns (o: Ptr)
    requires Passed(Now(h), b, extra, keep)
    modifies h
    ensures Returned(old(Now(h)), Now(h), o, keep)
    ensures TreeOf(Now(h), o) == Filter(old(TreeOf(Now(h), b)), f)
    decreases At(h.book.trees, b), 2
  {
    hide Ok;
    hide NodeJoin;
    hide Same;
    hide Borrowed;
    if b == 0 {
      o := Empty(h, extra, keep);
    } else {
      ghost var m0 := Now(h);
      ghost var t, k;
      var copy;
      copy, t, k := MustCopy(h, b, extra, keep);
      ghost var m1 := Now(h);
      o := FilterEntered(h, b, f, copy, extra, t, k, keep);
      SameTrans(m0, m1, Now(h), keep, keep, m0.book.shells, h.book.shells, keep, m0.book.shells);
    }
  }

  method FilterEntered(h: Heap, b: Ptr, f: Entry -> bool, copy: bool, extra: bool, ghost t: PTree,
                       ghost k: multiset<Ptr>, ghost keep: multiset<Ptr>)
    returns (o: Ptr)
    requires Entered(Now(h), b, copy, extra, t, keep, k)
    modifies h
    ensures Left(old(Now(h)), Now(h), b, copy, o, keep)
    ensures TreeOf(Now(h), o) == Filter(Val(t), f)
    decreases t, 1
  {
    hide Ok;
    hide NodeJoin;
    hide Same;
    hide Borrowed;
    ghost var m0 := Now(h);
    var p1, p2 := FilterSides(h, b, f, copy, extra, t, k, keep);
    ghost var m1 := Now(h);
    if f(h.cells[b].entry) {
      o := Rejoin(h, p1, p2, b, copy, extra, t, k, keep);
    } else {
      o := DropAndJoin2(h, p1, p2, b, copy, extra, t, k, keep);
    }
    SameTrans(m0, m1, Now(h), k, keep, m0.book.shells, h.book.shells, keep, h.book.shells);
  }

  method FilterSides(h: Heap, b: Ptr, f: Entry -> bool, copy: bool, extra: bool,
                     ghost t: PTree, ghost k: multiset<Ptr>, ghost keep: multiset<Ptr>)
    returns (p1: Ptr, p2: Ptr)
    requires Entered(Now(h), b, copy, extra, t, keep, k)
    modifies h
    ensures SidesDone(old(Now(h)), Now(h), b, copy, t, k, p1, p2)
    ensures TreeOf(Now(h), p1) == Filter(Val(t.l), f)
    ensures TreeOf(Now(h), p2) == Filter(Val(t.r), f)
    decreases t, 0
  {
    hide Ok;
    hide NodeJoin;
    hide Same;
    hide Borrowed;
    ghost var m0 := Now(h);
    var lc := h.cells[b].lc;
    ghost var k1 := k + Counted(Root(t.r), copy);
    if copy { OpenChildren(m0, b, t, k, k1); }
    assert h.book.handles == k1 + Counted(lc, copy);
    p1 := FilterNode(h, lc, f, copy, k1);
    ghost var m1 := Now(h);
    OpenStays(m0, m1, b, copy, t, k, k1, m0.book.shells);
    var rc := h.cells[b].rc;
    if !copy { SameTree(m0, m1, k1, m0.book.shells, rc); }
    ghost var k2 := k + multiset{p1};
    if copy { OpenChildren(m1, b, t, k, k2); }
    assert h.book.handles == k2 + Counted(rc, copy);
    p2 := FilterNode(h, rc, f, copy, k2);
    ghost var m2 := Now(h);
    OpenStays(m1, m2, b, copy, t, k, k2, m1.book.shells);
    SameTree(m1, m2, k2, m1.book.shells, p1);
    SameTrans(m0, m1, m2, k1, k2, m0.book.shells, m1.book.shells, k, m0.book.shells);
  }
}
