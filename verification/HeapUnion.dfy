// Union, intersection and difference on reference-counted nodes:
// comparison_systems/aspen/code/trees/map_ops.h, lines 207-302. The two recursive calls, which the
// program may run in parallel, run one after the other here.
module HeapUnion {
  import opened WeightBalanced
  import opened TreeMaps
  import opened TreeHeap
  import opened HeapMaps
  import opened HeapSets
  import opened HeapSplit

  // The node b is open, and the pieces f and g of the other tree wait beside its children.
  ghost predicate Sides(m: Mem, b: Ptr, copy: bool, t: PTree, k: multiset<Ptr>, f: Ptr, g: Ptr) {
    && Ok(m) && Open(m, b, copy, t, k)
    && m.book.handles == k + Counted(Root(t.l), copy) + Counted(Root(t.r), copy) + multiset{f} + multiset{g}
    && (!copy ==> At(m.book.trees, Root(t.l)) == t.l && At(m.book.trees, Root(t.r)) == t.r)
  }

  // Both recursive calls are done; their results replace the pieces and the children.
  ghost predicate SidesDone(was: Mem, now: Mem, b: Ptr, copy: bool, t: PTree, k: multiset<Ptr>, l: Ptr, r: Ptr) {
    && Ok(now) && Open(now, b, copy, t, k) && now.book.shells == was.book.shells
    && now.book.handles == k + multiset{l} + multiset{r} && Same(was, now, k, was.book.shells)
  }

  // Splits the other tree at the key of b.
  method SplitAside(h: Heap, other: Ptr, b: Ptr, copy: bool, extra: bool, ghost t: PTree, ghost keep: multiset<Ptr>,
                    ghost k: multiset<Ptr>)
    returns (s: Pieces)
    requires EnteredBeside(Now(h), b, copy, extra, t, keep, k, multiset{other})
    modifies h
    ensures Sides(Now(h), b, copy, t, k, s.first, s.second) && h.book.shells == old(h.book.shells)
    ensures PiecesOf(Now(h), s) == SplitAt(old(TreeOf(Now(h), other)), t.e.key)
    ensures Same(old(Now(h)), Now(h), k, h.book.shells)
  {
    hide Ok;
    hide NodeJoin;
    hide SplitAt;
    hide Same;
    hide Borrowed;
    ghost var m0 := Now(h);
    ghost var rest := k + Counted(Root(t.l), copy) + Counted(Root(t.r), copy);
    s := SplitNode(h, other, h.cells[b].entry.key, rest);
    ghost var m1 := Now(h);
    OpenStays(m0, m1, b, copy, t, k, rest, m0.book.shells);
    if !copy {
      SameTree(m0, m1, rest, m0.book.shells, Root(t.l));
      SameTree(m0, m1, rest, m0.book.shells, Root(t.r));
    }
    SameLess(m0, m1, rest, m0.book.shells, k, m0.book.shells);
  }

  // ---- union ----

  // uniont (lines 234-252).
  method UnionNode(h: Heap, b1: Ptr, b2: Ptr, op: Op, extra: bool, ghost keep: multiset<Ptr>) returns (o: Ptr)
    requires BothPassed(Now(h), b1, false, b2, extra, keep)
    modifies h
    ensures Returned(old(Now(h)), Now(h), o, keep)
    ensures TreeOf(Now(h), o) == Union(old(TreeOf(Now(h), b1)), old(TreeOf(Now(h), b2)), op)
    decreases At(h.book.trees, b2), 4
  {
    hide Ok;
    hide NodeJoin;
    hide SplitAt;
    hide Same;
    hide Borrowed;
    if b1 == 0 {
      o := GiveOther(h, b2, extra, false, keep);
      return;
    }
    if b2 == 0 {
      assert h.book.handles == keep + Counted(0, extra) + Counted(b1, false);
      o := GiveOther(h, b1, false, extra, keep);
      return;
    }
    o := UnionBoth(h, b1, b2, op, extra, keep);
  }

  method UnionBoth(h: Heap, b1: Ptr, b2: Ptr, op: Op, extra: bool, ghost keep: multiset<Ptr>) returns (o: Ptr)
    requires BothPassed(Now(h), b1, false, b2, extra, keep) && b1 != 0 && b2 != 0
    modifies h
    ensures Returned(old(Now(h)), Now(h), o, keep)
    ensures TreeOf(Now(h), o) == Union(old(TreeOf(Now(h), b1)), old(TreeOf(Now(h), b2)), op)
    decreases At(h.book.trees, b2), 3
  {
    hide Ok;
    hide NodeJoin;
    hide SplitAt;
    hide Same;
    hide Borrowed;
    ArgSize(h, b1, false, keep);
    ghost var m0 := Now(h);
    ghost var t, k;
    var copy;
    assert h.book.handles == keep + Counted(b2, extra) + multiset{b1};
    copy, t, k := MustCopyBeside(h, b2, extra, keep, multiset{b1});
    ghost var m1 := Now(h);
    SameTree(m0, m1, keep + multiset{b1}, m0.book.shells, b1);
    o := UnionEntered(h, b1, b2, op, copy, extra, t, k, keep);
    SameTrans(m0, m1, Now(h), keep + multiset{b1}, keep, m0.book.shells, h.book.shells, keep, m0.book.shells);
  }

  method UnionEntered(h: Heap, b1: Ptr, b2: Ptr, op: Op, copy: bool, extra: bool, ghost t: PTree,
          ghost k: multiset<Ptr>, ghost keep: multiset<Ptr>)
    returns (o: Ptr)
    requires EnteredBeside(Now(h), b2, copy, extra, t, keep, k, multiset{b1})
    modifies h
    ensures Left(old(Now(h)), Now(h), b2, copy, o, keep)
    ensures var s := SplitAt(old(TreeOf(Now(h), b1)), t.e.key);
            TreeOf(Now(h), o) == NodeJoin(Union(s.first, Val(t.l), op), Union(s.second, Val(t.r), op),
                                          if s.found then Entry(t.e.key, op(s.entry.val, t.e.val)) else t.e)
    decreases t, 2
  {
    hide Val, At, Counted, Union, Sides;
    hide Ok;
    hide NodeJoin;
    hide SplitAt;
    hide Same;
    hide Borrowed;
    ghost var m0 := Now(h);
    var r := CopyFirst(h, b2, copy, extra, t, k, keep, multiset{b1});
    ghost var m1 := Now(h);
    var s := SplitAside(h, b1, b2, copy, extra, t, keep, k);
    ghost var m2 := Now(h);
    SameShell(m1, m2, k, m1.book.shells, r);
    o := UnionRest(h, b2, r, s, op, copy, extra, t, k, keep);
    SameTrans(m1, m2, Now(h), k, keep, m1.book.shells, h.book.shells, keep, h.book.shells);
    SameTrans(m0, m1, Now(h), m0.book.handles, keep, m0.book.shells, h.book.shells, keep, h.book.shells);
  }

  // Everything after the split (lines 244-251).
  method UnionRest(h: Heap, b2: Ptr, r: Ptr, s: Pieces, op: Op, copy: bool, extra: bool,
                   ghost t: PTree, ghost k: multiset<Ptr>, ghost keep: multiset<Ptr>)
    returns (o: Ptr)
    requires Sides(Now(h), b2, copy, t, k, s.first, s.second)
    requires k == (if copy && !extra then keep + multiset{b2} else keep)
    requires r in h.book.shells && r in h.cells && t.PNode? && h.cells[r].entry == t.e
    modifies h
    ensures Ok(Now(h)) && h.book.handles == keep + multiset{o} && h.book.shells == old(h.book.shells) - {r}
    ensures Same(old(Now(h)), Now(h), keep, h.book.shells)
    ensures var f, g := old(TreeOf(Now(h), s.first)), old(TreeOf(Now(h), s.second));
            TreeOf(Now(h), o) == NodeJoin(Union(f, Val(t.l), op), Union(g, Val(t.r), op),
                                          if s.found then Entry(t.e.key, op(s.entry.val, t.e.val)) else t.e)
    decreases t, 1
  {
    hide Val, At, Counted, Union, Sides, Ok, NodeJoin, Same, Borrowed;
    ghost var m0 := Now(h);
    var p1, p2 := UnionSides(h, b2, s.first, s.second, op, copy, t, k);
    ghost var m1 := Now(h);
    SameShell(m0, m1, k, m0.book.shells, r);
    o := UnionFinish(h, p1, p2, b2, r, s, op, copy, extra, t, k, keep);
    SameTrans(m0, m1, Now(h), k, keep, m0.book.shells, h.book.shells, keep, h.book.shells);
  }

  // r = copy ? make_node(get_entry(b2)) : b2 (line 242).
  method CopyFirst(h: Heap, b: Ptr, copy: bool, extra: bool, ghost t: PTree, ghost k: multiset<Ptr>,
                   ghost keep: multiset<Ptr>, ghost more: multiset<Ptr>)
    returns (r: Ptr)
    requires EnteredBeside(Now(h), b, copy, extra, t, keep, k, more)
    modifies h
    ensures EnteredBeside(Now(h), b, copy, extra, t, keep, k, more) && h.book.trees == old(h.book.trees)
    ensures r in h.book.shells && r in h.cells && h.cells[r].entry == t.e
    ensures if copy then r !in old(h.book.shells) else r == b
    ensures h.book.shells == if copy then old(h.book.shells) + {r} else old(h.book.shells)
    ensures Same(old(Now(h)), Now(h), h.book.handles, old(h.book.shells)) && h.book.handles == old(h.book.handles)
  {
    hide Ok;
    hide NodeJoin;
    hide Same;
    hide Borrowed;
    ghost var m0 := Now(h);
    SameSelf(m0, m0.book.handles, m0.book.shells);
    r := b;
    if copy {
      r := NewNode(h, h.cells[b].entry);
      OpenStays(m0, Now(h), b, copy, t, k, m0.book.handles, m0.book.shells);
      OpenChildren(Now(h), b, t, k, k);
    }
  }

  // The two recursive calls (lines 245-247).
  method UnionSides(h: Heap, b: Ptr, f: Ptr, g: Ptr, op: Op, copy: bool, ghost t: PTree, ghost k: multiset<Ptr>)
    returns (p1: Ptr, p2: Ptr)
    requires Sides(Now(h), b, copy, t, k, f, g)
    modifies h
    ensures SidesDone(old(Now(h)), Now(h), b, copy, t, k, p1, p2)
    ensures TreeOf(Now(h), p1) == Union(old(TreeOf(Now(h), f)), Val(t.l), op)
    ensures TreeOf(Now(h), p2) == Union(old(TreeOf(Now(h), g)), Val(t.r), op)
    decreases t, 0
  {
    hide Ok;
    hide NodeJoin;
    hide SplitAt;
    hide Same;
    hide Borrowed;
    ghost var m0 := Now(h);
    var lc := h.cells[b].lc;
    ghost var k1 := k + Counted(Root(t.r), copy) + multiset{g};
    if copy { OpenChildren(m0, b, t, k, k1); }
    assert h.book.handles == k1 + Counted(f, false) + Counted(lc, copy);
    p1 := UnionNode(h, f, lc, op, copy, k1);
    ghost var m1 := Now(h);
    OpenStays(m0, m1, b, copy, t, k, k1, m0.book.shells);
    SameTree(m0, m1, k1, m0.book.shells, g);
    var rc := h.cells[b].rc;
    if !copy { SameTree(m0, m1, k1, m0.book.shells, rc); }
    ghost var k2 := k + multiset{p1};
    if copy { OpenChildren(m1, b, t, k, k2); }
    assert h.book.handles == k2 + Counted(g, false) + Counted(rc, copy);
    p2 := UnionNode(h, g, rc, op, copy, k2);
    ghost var m2 := Now(h);
    OpenStays(m1, m2, b, copy, t, k, k2, m1.book.shells);
    SameTree(m1, m2, k2, m1.book.shells, p1);
    SameTrans(m0, m1, m2, k1, k2, m0.book.shells, m1.book.shells, k, m0.book.shells);
  }

  // decrement_recursive with what stays the same.
  method Drop(h: Heap, b: Ptr, ghost keep: multiset<Ptr>)
    requires Ok(Now(h)) && h.book.handles == keep + multiset{b}
    modifies h
    ensures Ok(Now(h)) && h.book.handles == keep && h.book.shells == old(h.book.shells)
    ensures Same(old(Now(h)), Now(h), keep, h.book.shells)
  {
    hide ExactCounts;
    h.DecrementRecursive(b, keep);
  }

  // The copied node is dropped, an equal key's values are combined with reverse set, and the
  // sides are joined (lines 249-251).
  method UnionFinish(h: Heap, p1: Ptr, p2: Ptr, b2: Ptr, r: Ptr, s: Pieces, op: Op, copy: bool, extra: bool,
                     ghost t: PTree, ghost k: multiset<Ptr>, ghost keep: multiset<Ptr>)
    returns (o: Ptr)
    requires Ok(Now(h)) && k == (if copy && !extra then keep + multiset{b2} else keep)
    requires h.book.handles == k + multiset{p1} + multiset{p2}
    requires r in h.book.shells && r in h.cells && t.PNode? && h.cells[r].entry == t.e
    modifies h
    ensures Ok(Now(h)) && h.book.handles == keep + multiset{o} && h.book.shells == old(h.book.shells) - {r}
    ensures Same(old(Now(h)), Now(h), keep, h.book.shells)
    ensures TreeOf(Now(h), o) == NodeJoin(old(TreeOf(Now(h), p1)), old(TreeOf(Now(h), p2)),
                                          if s.found then Entry(t.e.key, op(s.entry.val, t.e.val)) else t.e)
  {
    hide Ok;
    hide NodeJoin;
    hide Same;
    ghost var m0 := Now(h);
    ghost var all := keep + multiset{p1} + multiset{p2};
    assert h.book.handles == if copy && !extra then all + multiset{b2} else all;
    SameSelf(m0, all, m0.book.shells);
    if copy && !extra { Drop(h, b2, all); }
    ghost var m1 := Now(h);
    SameShell(m0, m1, all, m0.book.shells, r);
    SameTree(m0, m1, all, m0.book.shells, p1);
    SameTree(m0, m1, all, m0.book.shells, p2);
    SameSelf(m1, all, m0.book.shells - {r});
    if s.found {
      var re := h.cells[r].entry;
      SetEntry(h, r, Entry(re.key, op(s.entry.val, re.val)));
    }
    ghost var m2 := Now(h);
    SameTree(m1, m2, all, m0.book.shells - {r}, p1);
    SameTree(m1, m2, all, m0.book.shells - {r}, p2);
    o := JoinAt(h, p1, p2, r, keep);
    SameTrans(m1, m2, Now(h), all, keep, m0.book.shells - {r}, h.book.shells, keep, h.book.shells);
    SameTrans(m0, m1, Now(h), all, keep, m0.book.shells, h.book.shells, keep, h.book.shells);
  }

  // ---- intersection ----

  // An argument is dropped because the other one is NULL; the result is NULL.
  method DropOther(h: Heap, b: Ptr, extra: bool, ghost extra0: bool, ghost keep: multiset<Ptr>) returns (o: Ptr)
    requires BothPassed(Now(h), 0, extra0, b, extra, keep)
    modifies h
    ensures Returned(old(Now(h)), Now(h), o, keep)
    ensures TreeOf(Now(h), o) == Leaf && old(TreeOf(Now(h), 0)) == Leaf
  {
    hide ExactCounts;
    hide Borrowed;
    h.NoNull();
    ghost var m0 := Now(h);
    ghost var all := keep + Counted(0, extra0);
    assert !extra ==> h.book.handles == all + multiset{b};
    if !extra { h.DecrementRecursive(b, all); }
    h.NoNull();
    if extra0 { h.HoldNull(); }
    o := 0;
  }

  // intersect (lines 256-283).
  method IntersectNode(h: Heap, b1: Ptr, b2: Ptr, op: Op, extra: bool, ghost keep: multiset<Ptr>) returns (o: Ptr)
    requires BothPassed(Now(h), b1, false, b2, extra, keep)
    modifies h
    ensures Returned(old(Now(h)), Now(h), o, keep)
    ensures TreeOf(Now(h), o) == Intersect(old(TreeOf(Now(h), b1)), old(TreeOf(Now(h), b2)), op)
    decreases At(h.book.trees, b2), 3
  {
    hide Ok;
    hide NodeJoin;
    hide SplitAt;
    hide Same;
    hide Borrowed;
    if b1 == 0 {
      o := DropOther(h, b2, extra, false, keep);
      return;
    }
    if b2 == 0 {
      assert h.book.handles == keep + Counted(0, extra) + Counted(b1, false);
      o := DropOther(h, b1, false, extra, keep);
      return;
    }
    o := IntersectBoth(h, b1, b2, op, extra, keep);
  }

  method IntersectBoth(h: Heap, b1: Ptr, b2: Ptr, op: Op, extra: bool, ghost keep: multiset<Ptr>) returns (o: Ptr)
    requires BothPassed(Now(h), b1, false, b2, extra, keep) && b1 != 0 && b2 != 0
    modifies h
    ensures Returned(old(Now(h)), Now(h), o, keep)
    ensures TreeOf(Now(h), o) == Intersect(old(TreeOf(Now(h), b1)), old(TreeOf(Now(h), b2)), op)
    decreases At(h.book.trees, b2), 2
  {
    hide Ok;
    hide NodeJoin;
    hide SplitAt;
    hide Same;
    hide Borrowed;
    ArgSize(h, b1, false, keep);
    ghost var m0 := Now(h);
    ghost var t, k;
    var copy;
    assert h.book.handles == keep + Counted(b2, extra) + multiset{b1};
    copy, t, k := MustCopyBeside(h, b2, extra, keep, multiset{b1});
    ghost var m1 := Now(h);
    SameTree(m0, m1, keep + multiset{b1}, m0.book.shells, b1);
    o := IntersectEntered(h, b1, b2, op, copy, extra, t, k, keep);
    SameTrans(m0, m1, Now(h), keep + multiset{b1}, keep, m0.book.shells, h.book.shells, keep, m0.book.shells);
  }

  method IntersectEntered(h: Heap, b1: Ptr, b2: Ptr, op: Op, copy: bool, extra: bool, ghost t: PTree,
                          ghost k: multiset<Ptr>, ghost keep: multiset<Ptr>)
    returns (o: Ptr)
    requires EnteredBeside(Now(h), b2, copy, extra, t, keep, k, multiset{b1})
    modifies h
    ensures Left(old(Now(h)), Now(h), b2, copy, o, keep)
    ensures var s := SplitAt(old(TreeOf(Now(h), b1)), t.e.key);
            var l, r := Intersect(s.first, Val(t.l), op), Intersect(s.second, Val(t.r), op);
            TreeOf(Now(h), o) ==
            if s.found then NodeJoin(l, r, Entry(t.e.key, op(s.entry.val, t.e.val))) else Join2(l, r)
    decreases t, 1
  {
    hide Ok;
    hide NodeJoin;
    hide SplitAt;
    hide Same;
    hide Borrowed;
    ghost var m1 := Now(h);
    var s := SplitAside(h, b1, b2, copy, extra, t, keep, k);
    ghost var m2 := Now(h);
    var p1, p2 := IntersectSides(h, b2, s.first, s.second, op, copy, t, k);
    ghost var m3 := Now(h);
    if s.found {
      o := IntersectFound(h, p1, p2, b2, s, op, copy, extra, t, k, keep);
    } else {
      o := DropAndJoin2(h, p1, p2, b2, copy, extra, t, k, keep);
    }
    SameTrans(m2, m3, Now(h), k, keep, m2.book.shells, h.book.shells, keep, h.book.shells);
    SameTrans(m1, m2, Now(h), k, keep, m1.book.shells, h.book.shells, keep, h.book.shells);
  }

  // The two recursive calls (lines 265-268).
  method IntersectSides(h: Heap, b: Ptr, f: Ptr, g: Ptr, op: Op, copy: bool, ghost t: PTree, ghost k: multiset<Ptr>)
    returns (p1: Ptr, p2: Ptr)
    requires Sides(Now(h), b, copy, t, k, f, g)
    modifies h
    ensures SidesDone(old(Now(h)), Now(h), b, copy, t, k, p1, p2)
    ensures TreeOf(Now(h), p1) == Intersect(old(TreeOf(Now(h), f)), Val(t.l), op)
    ensures TreeOf(Now(h), p2) == Intersect(old(TreeOf(Now(h), g)), Val(t.r), op)
    decreases t, 0
  {
    hide Ok;
    hide NodeJoin;
    hide SplitAt;
    hide Same;
    hide Borrowed;
    ghost var m0 := Now(h);
    var lc := h.cells[b].lc;
    ghost var k1 := k + Counted(Root(t.r), copy) + multiset{g};
    if copy { OpenChildren(m0, b, t, k, k1); }
    assert h.book.handles == k1 + Counted(f, false) + Counted(lc, copy);
    p1 := IntersectNode(h, f, lc, op, copy, k1);
    ghost var m1 := Now(h);
    OpenStays(m0, m1, b, copy, t, k, k1, m0.book.shells);
    SameTree(m0, m1, k1, m0.book.shells, g);
    var rc := h.cells[b].rc;
    if !copy { SameTree(m0, m1, k1, m0.book.shells, rc); }
    ghost var k2 := k + multiset{p1};
    if copy { OpenChildren(m1, b, t, k, k2); }
    assert h.book.handles == k2 + Counted(g, false) + Counted(rc, copy);
    p2 := IntersectNode(h, g, rc, op, copy, k2);
    ghost var m2 := Now(h);
    OpenStays(m1, m2, b, copy, t, k, k2, m1.book.shells);
    SameTree(m1, m2, k2, m1.book.shells, p1);
    SameTrans(m0, m1, m2, k1, k2, m0.book.shells, m1.book.shells, k, m0.book.shells);
  }

  // The key is in both trees (lines 270-277).
  method IntersectFound(h: Heap, p1: Ptr, p2: Ptr, b2: Ptr, s: Pieces, op: Op, copy: bool, extra: bool, ghost t: PTree,
                        ghost k: multiset<Ptr>, ghost keep: multiset<Ptr>)
    returns (o: Ptr)
    requires Ok(Now(h)) && (extra ==> copy) && k == (if copy && !extra then keep + multiset{b2} else keep)
    requires Open(Now(h), b2, copy, t, k) && h.book.handles == k + multiset{p1} + multiset{p2}
    modifies h
    ensures Left(old(Now(h)), Now(h), b2, copy, o, keep)
    ensures TreeOf(Now(h), o) ==
            NodeJoin(old(TreeOf(Now(h), p1)), old(TreeOf(Now(h), p2)), Entry(t.e.key, op(s.entry.val, t.e.val)))
  {
    hide Ok;
    hide NodeJoin;
    hide SplitAt;
    hide Same;
    hide Borrowed;
    ghost var m0 := Now(h);
    ghost var all := keep + multiset{p1} + multiset{p2};
    assert h.book.handles == if copy && !extra then all + multiset{b2} else all;
    var r := NewNode(h, Entry(h.cells[b2].entry.key, op(s.entry.val, h.cells[b2].entry.val)));
    ghost var m1 := Now(h);
    OpenStays(m0, m1, b2, copy, t, k, m0.book.handles, m0.book.shells);
    DecIf(h, b2, copy, extra, t, k, all);
    ghost var m2 := Now(h);
    SameShell(m1, m2, all, m2.book.shells, r);
    SameTree(m1, m2, all, m2.book.shells, p1);
    SameTree(m1, m2, all, m2.book.shells, p2);
    o := JoinAt(h, p1, p2, r, keep);
    SameTrans(m1, m2, Now(h), all, keep, m2.book.shells, h.book.shells, keep, h.book.shells);
    SameTrans(m0, m1, Now(h), m0.book.handles, keep, m0.book.shells, h.book.shells, keep, h.book.shells);
  }

  // dec_if and join2, where a key is left out.
  method DropAndJoin2(h: Heap, p1: Ptr, p2: Ptr, b: Ptr, copy: bool, extra: bool, ghost t: PTree,
                      ghost k: multiset<Ptr>, ghost keep: multiset<Ptr>)
    returns (o: Ptr)
    requires Ok(Now(h)) && (extra ==> copy) && k == (if copy && !extra then keep + multiset{b} else keep)
    requires Open(Now(h), b, copy, t, k) && h.book.handles == k + multiset{p1} + multiset{p2}
    modifies h
    ensures Left(old(Now(h)), Now(h), b, copy, o, keep)
    ensures TreeOf(Now(h), o) == Join2(old(TreeOf(Now(h), p1)), old(TreeOf(Now(h), p2)))
  {
    hide Ok;
    hide NodeJoin;
    hide SplitAt;
    hide Same;
    hide Borrowed;
    ghost var m0 := Now(h);
    ghost var all := keep + multiset{p1} + multiset{p2};
    assert h.book.handles == if copy && !extra then all + multiset{b} else all;
    DecIf(h, b, copy, extra, t, k, all);
    ghost var m1 := Now(h);
    SameTree(m0, m1, all, m1.book.shells, p1);
    SameTree(m0, m1, all, m1.book.shells, p2);
    assert all == keep + Counted(p1, false) + Counted(p2, false);
    o := Join2Node(h, p1, p2, false, false, keep);
    SameTrans(m0, m1, Now(h), all, keep, m1.book.shells, m1.book.shells, keep, m1.book.shells);
  }

  // ---- difference ----

  // difference (lines 285-302).
  method DifferenceNode(h: Heap, b1: Ptr, b2: Ptr, extra: bool, ghost keep: multiset<Ptr>) returns (o: Ptr)
    requires BothPassed(Now(h), b1, extra, b2, false, keep)
    modifies h
    ensures Returned(old(Now(h)), Now(h), o, keep)
    ensures TreeOf(Now(h), o) == Difference(old(TreeOf(Now(h), b1)), old(TreeOf(Now(h), b2)))
    decreases At(h.book.trees, b1), 3
  {
    hide Ok;
    hide NodeJoin;
    hide SplitAt;
    hide Same;
    hide Borrowed;
    if b1 == 0 {
      o := DropOther(h, b2, false, extra, keep);
      return;
    }
    if b2 == 0 {
      assert h.book.handles == keep + Counted(0, false) + Counted(b1, extra);
      o := GiveOther(h, b1, extra, false, keep);
      return;
    }
    o := DifferenceBoth(h, b1, b2, extra, keep);
  }

  method DifferenceBoth(h: Heap, b1: Ptr, b2: Ptr, extra: bool, ghost keep: multiset<Ptr>) returns (o: Ptr)
    requires BothPassed(Now(h), b1, extra, b2, false, keep) && b1 != 0 && b2 != 0
    modifies h
    ensures Returned(old(Now(h)), Now(h), o, keep)
    ensures TreeOf(Now(h), o) == Difference(old(TreeOf(Now(h), b1)), old(TreeOf(Now(h), b2)))
    decreases At(h.book.trees, b1), 2
  {
    hide Ok;
    hide NodeJoin;
    hide SplitAt;
    hide Same;
    hide Borrowed;
    ArgSize(h, b2, false, keep);
    ghost var m0 := Now(h);
    ghost var t, k;
    var copy;
    assert h.book.handles == keep + Counted(b1, extra) + multiset{b2};
    copy, t, k := MustCopyBeside(h, b1, extra, keep, multiset{b2});
    ghost var m1 := Now(h);
    SameTree(m0, m1, keep + multiset{b2}, m0.book.shells, b2);
    o := DifferenceEntered(h, b1, b2, copy, extra, t, k, keep);
    SameTrans(m0, m1, Now(h), keep + multiset{b2}, keep, m0.book.shells, h.book.shells, keep, m0.book.shells);
  }

  method DifferenceEntered(h: Heap, b1: Ptr, b2: Ptr, copy: bool, extra: bool, ghost t: PTree, ghost k: multiset<Ptr>,
                           ghost keep: multiset<Ptr>)
    returns (o: Ptr)
    requires EnteredBeside(Now(h), b1, copy, extra, t, keep, k, multiset{b2})
    modifies h
    ensures Left(old(Now(h)), Now(h), b1, copy, o, keep)
    ensures var s := SplitAt(old(TreeOf(Now(h), b2)), t.e.key);
            var l, r := Difference(Val(t.l), s.first), Difference(Val(t.r), s.second);
            TreeOf(Now(h), o) == if s.found then Join2(l, r) else NodeJoin(l, r, t.e)
    decreases t, 1
  {
    hide Ok;
    hide NodeJoin;
    hide SplitAt;
    hide Same;
    hide Borrowed;
    ghost var m1 := Now(h);
    var s := SplitAside(h, b2, b1, copy, extra, t, keep, k);
    ghost var m2 := Now(h);
    var p1, p2 := DifferenceSides(h, b1, s.first, s.second, copy, t, k);
    ghost var m3 := Now(h);
    if s.found {
      o := DropAndJoin2(h, p1, p2, b1, copy, extra, t, k, keep);
    } else {
      o := Rejoin(h, p1, p2, b1, copy, extra, t, k, keep);
    }
    SameTrans(m2, m3, Now(h), k, keep, m2.book.shells, h.book.shells, keep, h.book.shells);
    SameTrans(m1, m2, Now(h), k, keep, m1.book.shells, h.book.shells, keep, h.book.shells);
  }

  // The two recursive calls (lines 292-294).
  method DifferenceSides(h: Heap, b: Ptr, f: Ptr, g: Ptr, copy: bool, ghost t: PTree, ghost k: multiset<Ptr>)
    returns (p1: Ptr, p2: Ptr)
    requires Sides(Now(h), b, copy, t, k, f, g)
    modifies h
    ensures SidesDone(old(Now(h)), Now(h), b, copy, t, k, p1, p2)
    ensures TreeOf(Now(h), p1) == Difference(Val(t.l), old(TreeOf(Now(h), f)))
    ensures TreeOf(Now(h), p2) == Difference(Val(t.r), old(TreeOf(Now(h), g)))
    decreases t, 0
  {
    hide Ok;
    hide NodeJoin;
    hide SplitAt;
    hide Same;
    hide Borrowed;
    ghost var m0 := Now(h);
    var lc := h.cells[b].lc;
    ghost var k1 := k + Counted(Root(t.r), copy) + multiset{g};
    if copy { OpenChildren(m0, b, t, k, k1); }
    assert h.book.handles == k1 + Counted(lc, copy) + Counted(f, false);
    p1 := DifferenceNode(h, lc, f, copy, k1);
    ghost var m1 := Now(h);
    OpenStays(m0, m1, b, copy, t, k, k1, m0.book.shells);
    SameTree(m0, m1, k1, m0.book.shells, g);
    var rc := h.cells[b].rc;
    if !copy { SameTree(m0, m1, k1, m0.book.shells, rc); }
    ghost var k2 := k + multiset{p1};
    if copy { OpenChildren(m1, b, t, k, k2); }
    assert h.book.handles == k2 + Counted(rc, copy) + Counted(g, false);
    p2 := DifferenceNode(h, rc, g, copy, k2);
    ghost var m2 := Now(h);
    OpenStays(m1, m2, b, copy, t, k, k2, m1.book.shells);
    SameTree(m1, m2, k2, m1.book.shells, p1);
    SameTrans(m0, m1, m2, k1, k2, m0.book.shells, m1.book.shells, k, m0.book.shells);
  }
}
