// split on reference-counted nodes: comparison_systems/aspen/code/trees/map_ops.h, lines 142-205.
module HeapSplit {
  import opened WeightBalanced
  import opened TreeMaps
  import opened TreeHeap
  import opened HeapMaps
  import opened HeapSets

  // split_info.
  datatype Pieces = Pieces(first: Ptr, found: bool, entry: Entry, second: Ptr)

  ghost function PiecesOf(m: Mem, s: Pieces): Split {
    Split(TreeOf(m, s.first), s.found, s.entry, TreeOf(m, s.second))
  }

  // The two pieces are new handles; whatever else is held is unchanged.
  ghost predicate Divided(was: Mem, now: Mem, s: Pieces, keep: multiset<Ptr>) {
    && Ok(now) && now.book.shells == was.book.shells
    && now.book.handles == keep + multiset{s.first} + multiset{s.second}
    && Same(was, now, keep, was.book.shells)
  }

  // make_node (basic_node.h, lines 29-35).
  method NewNode(h: Heap, e: Entry) returns (o: Ptr)
    requires Ok(Now(h))
    modifies h
    ensures Ok(Now(h)) && o !in old(h.book.shells) && h.book.shells == old(h.book.shells) + {o}
    ensures o in h.cells && h.cells[o].entry == e && h.book.handles == old(h.book.handles)
    ensures h.book.trees == old(h.book.trees) && Same(old(Now(h)), Now(h), h.book.handles, old(h.book.shells))
  {
    hide ExactCounts;
    o := h.MakeNode(e);
  }

  // The pieces of NULL.
  method SplitNull(h: Heap, extra: bool, ghost keep: multiset<Ptr>) returns (s: Pieces)
    requires Passed(Now(h), 0, extra, keep)
    modifies h
    ensures Divided(old(Now(h)), Now(h), s, keep) && PiecesOf(Now(h), s) == SplitAt(Leaf, 0)
    ensures old(TreeOf(Now(h), 0)) == Leaf
  {
    hide ExactCounts;
    h.NoNull();
    s := Pieces(0, false, NoEntry, 0);
    h.HoldNull();
    if extra { h.HoldNull(); }
  }

  // split_copy (lines 150-174), for a borrowed tree.
  method SplitCopy(h: Heap, b: Ptr, key: int, ghost keep: multiset<Ptr>) returns (s: Pieces)
    requires Passed(Now(h), b, true, keep)
    modifies h
    ensures Divided(old(Now(h)), Now(h), s, keep) && PiecesOf(Now(h), s) == SplitAt(old(TreeOf(Now(h), b)), key)
    decreases At(h.book.trees, b), 1
  {
    hide Ok;
    hide NodeJoin;
    hide Same;
    hide Borrowed;
    if b == 0 {
      s := SplitNull(h, true, keep);
      return;
    }
    ghost var t := BorrowedOpen(h, b, keep);
    if h.cells[b].entry.key < key {
      s := SplitCopyRight(h, b, key, t, keep);
    } else if key < h.cells[b].entry.key {
      s := SplitCopyLeft(h, b, key, t, keep);
    } else {
      ghost var m0 := Now(h);
      IncBoth(h, b, true, true, t, keep, keep);
      s := Pieces(h.cells[b].lc, true, h.cells[b].entry, h.cells[b].rc);
    }
  }

  lemma BorrowedOpen(h: Heap, b: Ptr, keep: multiset<Ptr>) returns (t: PTree)
    requires Passed(Now(h), b, true, keep) && b != 0
    ensures t == At(h.book.trees, b) && Entered(Now(h), b, true, true, t, keep, keep)
  {
    hide ExactCounts;
    BorrowLive(Now(h), b, keep);
    t := At(h.book.trees, b);
    Fields(h.cells, h.book, b);
    h.ChildSizes(b);
  }

  method SplitCopyRight(h: Heap, b: Ptr, key: int, ghost t: PTree, ghost keep: multiset<Ptr>) returns (s: Pieces)
    requires Entered(Now(h), b, true, true, t, keep, keep)
    modifies h
    ensures Divided(old(Now(h)), Now(h), s, keep)
    ensures var u := SplitAt(Val(t.r), key); PiecesOf(Now(h), s) == u.(first := NodeJoin(Val(t.l), u.first, t.e))
    decreases t, 0
  {
    hide Val, NodeOk;
    hide Ok;
    hide NodeJoin;
    hide Same;
    hide Borrowed;
    ghost var m0 := Now(h);
    var join := NewNode(h, h.cells[b].entry);
    ghost var m1 := Now(h);
    OpenStays(m0, m1, b, true, t, keep, keep, m0.book.shells);
    OpenChildren(m1, b, t, keep, keep);
    s := SplitCopy(h, h.cells[b].rc, key, keep);
    ghost var m2 := Now(h);
    OpenStays(m1, m2, b, true, t, keep, keep, m1.book.shells);
    SameShell(m1, m2, keep, m1.book.shells, join);
    OpenChildren(m2, b, t, keep, keep);
    var lc := h.cells[b].lc;
    IncIf(h, lc, true, keep);
    ghost var m3 := Now(h);
    SameShell(m2, m3, m2.book.handles, m3.book.shells, join);
    ghost var others := keep + multiset{s.second};
    assert h.book.handles == others + multiset{lc} + multiset{s.first};
    var first := JoinAt(h, lc, s.first, join, others);
    SameTree(m3, Now(h), others, h.book.shells, s.second);
    s := s.(first := first);
    assert h.book.handles == keep + multiset{first} + multiset{s.second};
    SameTrans(m2, m3, Now(h), m2.book.handles, others, m2.book.shells, h.book.shells, keep, h.book.shells);
    SameTrans(m1, m2, Now(h), keep, keep, m1.book.shells, h.book.shells, keep, h.book.shells);
    SameTrans(m0, m1, Now(h), keep, keep, m0.book.shells, h.book.shells, keep, h.book.shells);
  }

  method SplitCopyLeft(h: Heap, b: Ptr, key: int, ghost t: PTree, ghost keep: multiset<Ptr>) returns (s: Pieces)
    requires Entered(Now(h), b, true, true, t, keep, keep)
    modifies h
    ensures Divided(old(Now(h)), Now(h), s, keep)
    ensures var u := SplitAt(Val(t.l), key); PiecesOf(Now(h), s) == u.(second := NodeJoin(u.second, Val(t.r), t.e))
    decreases t, 0
  {
    hide Ok;
    hide NodeJoin;
    hide Same;
    hide Borrowed;
    ghost var m0 := Now(h);
    var join := NewNode(h, h.cells[b].entry);
    ghost var m1 := Now(h);
    OpenStays(m0, m1, b, true, t, keep, keep, m0.book.shells);
    OpenChildren(m1, b, t, keep, keep);
    s := SplitCopy(h, h.cells[b].lc, key, keep);
    ghost var m2 := Now(h);
    OpenStays(m1, m2, b, true, t, keep, keep, m1.book.shells);
    SameShell(m1, m2, keep, m1.book.shells, join);
    OpenChildren(m2, b, t, keep, keep);
    var rc := h.cells[b].rc;
    IncIf(h, rc, true, keep);
    ghost var m3 := Now(h);
    SameShell(m2, m3, m2.book.handles, m3.book.shells, join);
    ghost var others := keep + multiset{s.first};
    var second := JoinAt(h, s.second, rc, join, others);
    SameTree(m3, Now(h), others, h.book.shells, s.first);
    s := s.(second := second);
    SameTrans(m2, m3, Now(h), m2.book.handles, others, m2.book.shells, h.book.shells, keep, h.book.shells);
    SameTrans(m1, m2, Now(h), keep, keep, m1.book.shells, h.book.shells, keep, h.book.shells);
    SameTrans(m0, m1, Now(h), keep, keep, m0.book.shells, h.book.shells, keep, h.book.shells);
  }

  // split_inplace (lines 178-201).
  method SplitNode(h: Heap, b: Ptr, key: int, ghost keep: multiset<Ptr>) returns (s: Pieces)
    requires Passed(Now(h), b, false, keep)
    modifies h
    ensures Divided(old(Now(h)), Now(h), s, keep) && PiecesOf(Now(h), s) == SplitAt(old(TreeOf(Now(h), b)), key)
    decreases At(h.book.trees, b), 1
  {
    hide Ok;
    hide NodeJoin;
    hide Same;
    hide Borrowed;
    if b == 0 {
      s := SplitNull(h, false, keep);
      return;
    }
    ghost var m0 := Now(h);
    ghost var t, k;
    var copy;
    copy, t, k := MustCopy(h, b, false, keep);
    ghost var m1 := Now(h);
    if copy {
      s := SplitShared(h, b, key, t, keep);
    } else if h.cells[b].entry.key < key {
      s := SplitRightInPlace(h, b, key, t, keep);
    } else if key < h.cells[b].entry.key {
      s := SplitLeftInPlace(h, b, key, t, keep);
    } else {
      s := Pieces(h.cells[b].lc, true, h.cells[b].entry, h.cells[b].rc);
      DecIf(h, b, false, false, t, keep, h.book.handles);
      SameTree(m1, Now(h), h.book.handles, h.book.shells, s.first);
      SameTree(m1, Now(h), h.book.handles, h.book.shells, s.second);
      SameLess(m1, Now(h), h.book.handles, h.book.shells, keep, h.book.shells);
    }
    SameTrans(m0, m1, Now(h), keep, keep, m0.book.shells, h.book.shells, keep, m0.book.shells);
  }

  method SplitShared(h: Heap, b: Ptr, key: int, ghost t: PTree, ghost keep: multiset<Ptr>) returns (s: Pieces)
    requires Entered(Now(h), b, true, false, t, keep, keep + multiset{b})
    modifies h
    ensures Divided(old(Now(h)), Now(h), s, keep) && PiecesOf(Now(h), s) == SplitAt(Val(t), key)
  {
    hide Ok;
    hide NodeJoin;
    hide Same;
    hide Borrowed;
    ghost var m0 := Now(h);
    ghost var k := keep + multiset{b};
    s := SplitCopy(h, b, key, k);
    ghost var m1 := Now(h);
    OpenStays(m0, m1, b, true, t, k, k, m0.book.shells);
    ghost var all := keep + multiset{s.first} + multiset{s.second};
    assert h.book.handles == all + multiset{b};
    DecIf(h, b, true, false, t, k, all);
    SameTree(m1, Now(h), all, h.book.shells, s.first);
    SameTree(m1, Now(h), all, h.book.shells, s.second);
    SameTrans(m0, m1, Now(h), k, all, m0.book.shells, h.book.shells, keep, h.book.shells);
  }

  method SplitRightInPlace(h: Heap, b: Ptr, key: int, ghost t: PTree, ghost keep: multiset<Ptr>) returns (s: Pieces)
    requires Entered(Now(h), b, false, false, t, keep, keep)
    modifies h
    ensures Ok(Now(h)) && h.book.shells == old(h.book.shells) - {b}
    ensures h.book.handles == keep + multiset{s.first} + multiset{s.second}
    ensures Same(old(Now(h)), Now(h), keep, h.book.shells)
    ensures var u := SplitAt(Val(t.r), key); PiecesOf(Now(h), s) == u.(first := NodeJoin(Val(t.l), u.first, t.e))
    decreases t, 0
  {
    hide Ok;
    hide NodeJoin;
    hide Same;
    hide Borrowed;
    ghost var m0 := Now(h);
    var lc := h.cells[b].lc;
    ghost var kl := keep + multiset{lc};
    s := SplitNode(h, h.cells[b].rc, key, kl);
    ghost var m1 := Now(h);
    SameShell(m0, m1, kl, m0.book.shells, b);
    SameTree(m0, m1, kl, m0.book.shells, lc);
    ghost var others := keep + multiset{s.second};
    assert h.book.handles == others + multiset{lc} + multiset{s.first};
    var first := JoinAt(h, lc, s.first, b, others);
    SameTree(m1, Now(h), others, h.book.shells, s.second);
    s := s.(first := first);
    assert h.book.handles == keep + multiset{first} + multiset{s.second};
    SameTrans(m0, m1, Now(h), kl, others, m0.book.shells, h.book.shells, keep, h.book.shells);
  }

  method SplitLeftInPlace(h: Heap, b: Ptr, key: int, ghost t: PTree, ghost keep: multiset<Ptr>) returns (s: Pieces)
    requires Entered(Now(h), b, false, false, t, keep, keep)
    modifies h
    ensures Ok(Now(h)) && h.book.shells == old(h.book.shells) - {b}
    ensures h.book.handles == keep + multiset{s.first} + multiset{s.second}
    ensures Same(old(Now(h)), Now(h), keep, h.book.shells)
    ensures var u := SplitAt(Val(t.l), key); PiecesOf(Now(h), s) == u.(second := NodeJoin(u.second, Val(t.r), t.e))
    decreases t, 0
  {
    hide Ok;
    hide NodeJoin;
    hide Same;
    hide Borrowed;
    ghost var m0 := Now(h);
    var rc := h.cells[b].rc;
    ghost var kr := keep + multiset{rc};
    assert h.book.handles == kr + multiset{h.cells[b].lc};
    s := SplitNode(h, h.cells[b].lc, key, kr);
    ghost var m1 := Now(h);
    SameShell(m0, m1, kr, m0.book.shells, b);
    SameTree(m0, m1, kr, m0.book.shells, rc);
    ghost var others := keep + multiset{s.first};
    assert h.book.handles == others + multiset{s.second} + multiset{rc};
    var second := JoinAt(h, s.second, rc, b, others);
    SameTree(m1, Now(h), others, h.book.shells, s.first);
    s := s.(second := second);
    SameTrans(m0, m1, Now(h), kr, others, m0.book.shells, h.book.shells, keep, h.book.shells);
  }
}
