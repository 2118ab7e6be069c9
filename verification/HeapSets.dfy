// Deletion, split and the set operations on reference-counted nodes:
// comparison_systems/aspen/code/trees/map_ops.h and sequence_ops.h.
module HeapSets {
  import opened WeightBalanced
  import opened TreeMaps
  import opened TreeHeap
  import opened HeapMaps

  // The handle that comes with an argument; a borrowed argument has none.
  ghost function Counted(p: Ptr, extra: bool): multiset<Ptr> {
    if extra then multiset{} else multiset{p}
  }

  // Two arguments.
  ghost predicate BothPassed(m: Mem, p: Ptr, extraP: bool, q: Ptr, extraQ: bool, keep: multiset<Ptr>) {
    && Ok(m) && m.book.handles == keep + Counted(p, extraP) + Counted(q, extraQ)
    && (extraP ==> Borrowed(m.book, p, keep)) && (extraQ ==> Borrowed(m.book, q, keep))
  }

  // Entered, beside the handles in more, which the operation will use up.
  ghost predicate EnteredBeside(m: Mem, b: Ptr, copy: bool, extra: bool, t: PTree, keep: multiset<Ptr>,
                                k: multiset<Ptr>, more: multiset<Ptr>)
  {
    && Ok(m) && (extra ==> copy) && k == (if copy && !extra then keep + multiset{b} else keep)
    && Open(m, b, copy, t, k)
    && m.book.handles == k + Counted(Root(t.l), copy) + Counted(Root(t.r), copy) + more
    && At(m.book.trees, Root(t.l)) == t.l && At(m.book.trees, Root(t.r)) == t.r
  }

  method MustCopyBeside(h: Heap, b: Ptr, extra: bool, ghost keep: multiset<Ptr>, ghost more: multiset<Ptr>)
    returns (copy: bool, ghost t: PTree, ghost k: multiset<Ptr>)
    requires Ok(Now(h)) && b != 0 && h.book.handles == keep + Counted(b, extra) + more
    requires extra ==> Borrowed(h.book, b, keep)
    modifies h`book
    ensures EnteredBeside(Now(h), b, copy, extra, t, keep, k, more)
    ensures Same(old(Now(h)), Now(h), keep + more, old(h.book.shells))
    ensures t == At(old(h.book.trees), b) && copy == (extra || h.cells[b].refCnt > 1)
    ensures h.book.shells == if copy then old(h.book.shells) else old(h.book.shells) + {b}
    ensures !copy ==> b !in old(h.book.shells)
    ensures copy ==> Now(h) == old(Now(h))
  {
    hide Ok, Same, Borrowed, At, Entered, EnteredBeside;
    ghost var all := keep + more;
    PassedBeside(Now(h), b, extra, keep, more);
    ghost var k1;
    copy, t, k1 := MustCopy(h, b, extra, all);
    k := if copy && !extra then keep + multiset{b} else keep;
    EnteredAlso(Now(h), b, copy, extra, t, keep, more, k1);
  }

  lemma PassedBeside(m: Mem, b: Ptr, extra: bool, keep: multiset<Ptr>, more: multiset<Ptr>)
    requires Ok(m) && m.book.handles == keep + Counted(b, extra) + more && (extra ==> Borrowed(m.book, b, keep))
    ensures Passed(m, b, extra, keep + more)
  {
    hide Ok, Borrowed;
    if extra { BorrowMore(m.book, b, keep, keep + more); }
    Exchange(keep, more, multiset{b});
  }

  lemma EnteredAlso(m: Mem, b: Ptr, copy: bool, extra: bool, t: PTree, keep: multiset<Ptr>, more: multiset<Ptr>,
                    k1: multiset<Ptr>)
    requires Entered(m, b, copy, extra, t, keep + more, k1) && (extra ==> Borrowed(m.book, b, keep))
    ensures EnteredBeside(m, b, copy, extra, t, keep, if copy && !extra then keep + multiset{b} else keep, more)
  {
    hide Ok, Borrowed, At;
    var k := if copy && !extra then keep + multiset{b} else keep;
    if copy && !extra { HandleBorrowed(m, b, k); }
    Exchange(keep, more, multiset{b});
    assert k1 == k + more;
    ExchangeTwice(k, more, Counted(Root(t.l), copy), Counted(Root(t.r), copy));
  }

  lemma Exchange(k: multiset<Ptr>, a: multiset<Ptr>, b: multiset<Ptr>)
    ensures k + a + b == k + b + a
  {
  }

  lemma ExchangeTwice(k: multiset<Ptr>, more: multiset<Ptr>, l: multiset<Ptr>, r: multiset<Ptr>)
    ensures k + more + l + r == k + l + r + more
  {
    Exchange(k, more, l);
    Exchange(k + l, more, r);
  }

  lemma HandleBorrowed(m: Mem, b: Ptr, keep: multiset<Ptr>)
    requires b in keep && At(m.book.trees, b).PNode?
    ensures Borrowed(m.book, b, keep)
  {
    BorrowHandle(m.book, b, keep);
  }

  // A borrowed argument stays borrowed while the handles it is borrowed from are kept.
  lemma BorrowStays(was: Mem, now: Mem, p: Ptr, keep: multiset<Ptr>, k1: multiset<Ptr>, s: set<Ptr>,
          more: multiset<Ptr>)
    requires Ok(was) && Ok(now) && Borrowed(was.book, p, keep) && Same(was, now, k1, s) && keep <= k1 && keep <= more
    ensures Borrowed(now.book, p, more) && At(now.book.trees, p) == At(was.book.trees, p)
  {
    BorrowMore(was.book, p, keep, k1);
    if p != 0 { Fields(was.cells, was.book, p); }
    BorrowKept(was.book, now.cells, now.book, p, k1);
    if p != 0 {
      var h :| h in keep && Inside(was.book.trees, h, p);
      assert At(now.book.trees, h) == At(was.book.trees, h);
      assert Inside(now.book.trees, h, p) && h in more;
    }
  }

  // ---- join2 and delete ----

  // inc_if as a return statement: the argument becomes the result.
  method Give(h: Heap, p: Ptr, extra: bool, ghost keep: multiset<Ptr>)
    requires Passed(Now(h), p, extra, keep)
    modifies h
    ensures Returned(old(Now(h)), Now(h), p, keep)
    ensures TreeOf(Now(h), p) == old(TreeOf(Now(h), p))
  {
    hide ExactCounts;
    hide Borrowed;
    IncIf(h, p, extra, keep);
  }

  // A NULL argument is dropped.
  ghost method Forget(h: Heap, extra: bool, keep: multiset<Ptr>)
    requires Ok(Now(h)) && h.book.handles == keep + Counted(0, extra)
    modifies h`book
    ensures Ok(Now(h)) && Same(old(Now(h)), Now(h), keep, h.book.shells) && h.book.shells == old(h.book.shells)
    ensures h.book.handles == keep && h.book.trees == old(h.book.trees)
  {
    hide ExactCounts;
    if !extra { h.DropNull(keep); }
  }

  // join2_i (sequence_ops.h, lines 50-66).
  method Join2Node(h: Heap, b1: Ptr, b2: Ptr, extra1: bool, extra2: bool, ghost keep: multiset<Ptr>) returns (o: Ptr)
    requires BothPassed(Now(h), b1, extra1, b2, extra2, keep)
    modifies h
    ensures Returned(old(Now(h)), Now(h), o, keep)
    ensures TreeOf(Now(h), o) == Join2(old(TreeOf(Now(h), b1)), old(TreeOf(Now(h), b2)))
    decreases Size(TreeOf(Now(h), b1)) + Size(TreeOf(Now(h), b2)), 2
  {
    hide Ok;
    hide NodeJoin;
    hide Same;
    hide Borrowed;
    if b1 == 0 {
      o := GiveOther(h, b2, extra2, extra1, keep);
      return;
    }
    if b2 == 0 {
      assert h.book.handles == keep + Counted(0, extra2) + Counted(b1, extra1);
      o := GiveOther(h, b1, extra1, extra2, keep);
      return;
    }
    ArgSize(h, b1, extra1, keep);
    ArgSize(h, b2, extra2, keep);
    if h.SizeOf(b1) > h.SizeOf(b2) {
      o := Join2Left(h, b1, b2, extra1, extra2, keep);
    } else {
      o := Join2Right(h, b1, b2, extra1, extra2, keep);
    }
  }

  lemma ArgSize(h: Heap, p: Ptr, extra: bool, keep: multiset<Ptr>)
    requires Ok(Now(h)) && p != 0 && (extra ==> Borrowed(h.book, p, keep)) && (!extra ==> p in h.book.handles)
    ensures p in h.cells && h.SizeOf(p) == Size(TreeOf(Now(h), p)) && TreeOf(Now(h), p).Node?
  {
    Fields(h.cells, h.book, p);
  }

  // The larger tree is on the left (lines 54-59).
  method Join2Left(h: Heap, b1: Ptr, b2: Ptr, extra1: bool, extra2: bool, ghost keep: multiset<Ptr>) returns (o: Ptr)
    requires BothPassed(Now(h), b1, extra1, b2, extra2, keep) && b1 != 0
    modifies h
    ensures Returned(old(Now(h)), Now(h), o, keep)
    ensures var t1 := old(TreeOf(Now(h), b1));
            t1.Node? && TreeOf(Now(h), o) == NodeJoin(t1.l, Join2(t1.r, old(TreeOf(Now(h), b2))), t1.e)
    decreases Size(TreeOf(Now(h), b1)) + Size(TreeOf(Now(h), b2)), 1
  {
    hide Ok;
    hide NodeJoin;
    hide Same;
    hide Borrowed;
    ghost var m0 := Now(h);
    ghost var more := Counted(b2, extra2);
    ghost var t, k;
    var copy;
    assert h.book.handles == keep + Counted(b1, extra1) + more;
    copy, t, k := MustCopyBeside(h, b1, extra1, keep, more);
    ghost var m1 := Now(h);
    if extra2 { BorrowStays(m0, m1, b2, keep, keep + more, m0.book.shells, k); }
    if !extra2 { SameTree(m0, m1, keep + more, m0.book.shells, b2); }
    o := Join2LeftEntered(h, b1, b2, copy, extra1, extra2, t, k, keep);
    SameTrans(m0, m1, Now(h), keep + more, keep, m0.book.shells, h.book.shells, keep, h.book.shells);
  }

  method Join2LeftEntered(h: Heap, b1: Ptr, b2: Ptr, copy: bool, extra1: bool, extra2: bool,
                          ghost t: PTree, ghost k: multiset<Ptr>, ghost keep: multiset<Ptr>) returns (o: Ptr)
    requires EnteredBeside(Now(h), b1, copy, extra1, t, keep, k, Counted(b2, extra2))
    requires extra2 ==> Borrowed(h.book, b2, k)
    modifies h
    ensures Left(old(Now(h)), Now(h), b1, copy, o, keep)
    ensures TreeOf(Now(h), o) == NodeJoin(Val(t.l), Join2(Val(t.r), old(TreeOf(Now(h), b2))), t.e)
    decreases Size(Val(t)) + Size(TreeOf(Now(h), b2)), 0
  {
    hide Counted, NodeOk;
    hide Ok;
    hide NodeJoin;
    hide Same;
    hide Borrowed;
    ghost var m1 := Now(h);
    var l := h.cells[b1].lc;
    ghost var kl := k + multiset{l};
    Join2TakeLeft(h, b1, b2, copy, extra1, extra2, t, k, keep);
    ghost var m2 := Now(h);
    var r := Join2Node(h, h.cells[b1].rc, b2, copy, extra2, kl);
    ghost var m3 := Now(h);
    OpenStays(m2, m3, b1, copy, t, k, kl, m2.book.shells);
    SameTree(m2, m3, kl, m2.book.shells, l);
    o := Rejoin(h, l, r, b1, copy, extra1, t, k, keep);
    SameTrans(m2, m3, Now(h), kl, keep, m2.book.shells, h.book.shells, keep, h.book.shells);
    SameTrans(m1, m2, Now(h), k, keep, m1.book.shells, h.book.shells, keep, h.book.shells);
  }

  // inc_if on the left child, after which the right child is passed on.
  method Join2TakeLeft(h: Heap, b1: Ptr, b2: Ptr, copy: bool, extra1: bool, extra2: bool,
                       ghost t: PTree, ghost k: multiset<Ptr>, ghost keep: multiset<Ptr>)
    requires EnteredBeside(Now(h), b1, copy, extra1, t, keep, k, Counted(b2, extra2))
    requires extra2 ==> Borrowed(h.book, b2, k)
    modifies h
    ensures BothPassed(Now(h), Root(t.r), copy, b2, extra2, k + multiset{Root(t.l)}) && Open(Now(h), b1, copy, t, k)
    ensures h.book.trees == old(h.book.trees) && h.book.shells == old(h.book.shells)
    ensures Same(old(Now(h)), Now(h), k, h.book.shells)
  {
    hide Ok;
    hide NodeJoin;
    hide Same;
    hide Borrowed;
    ghost var m1 := Now(h);
    var l := h.cells[b1].lc;
    ghost var kl, r := k + multiset{l}, Root(t.r);
    if copy { OpenChildren(m1, b1, t, k, k); }
    IncIf(h, l, copy, k);
    ghost var m2 := Now(h);
    OpenStays(m1, m2, b1, copy, t, k, m1.book.handles, m1.book.shells);
    if extra2 { BorrowStays(m1, m2, b2, k, m1.book.handles, m1.book.shells, kl); }
    if copy { OpenChildren(m2, b1, t, k, kl); }
    assert h.book.handles == kl + Counted(r, copy) + Counted(b2, extra2);
    SameLess(m1, m2, m1.book.handles, m1.book.shells, k, m1.book.shells);
  }

  // The larger tree is on the right (lines 60-65).
  method Join2Right(h: Heap, b1: Ptr, b2: Ptr, extra1: bool, extra2: bool, ghost keep: multiset<Ptr>) returns (o: Ptr)
    requires BothPassed(Now(h), b1, extra1, b2, extra2, keep) && b2 != 0
    modifies h
    ensures Returned(old(Now(h)), Now(h), o, keep)
    ensures var t2 := old(TreeOf(Now(h), b2));
            t2.Node? && TreeOf(Now(h), o) == NodeJoin(Join2(old(TreeOf(Now(h), b1)), t2.l), t2.r, t2.e)
    decreases Size(TreeOf(Now(h), b1)) + Size(TreeOf(Now(h), b2)), 1
  {
    hide Ok;
    hide NodeJoin;
    hide Same;
    hide Borrowed;
    ghost var m0 := Now(h);
    ghost var more := Counted(b1, extra1);
    ghost var t, k;
    var copy;
    assert h.book.handles == keep + Counted(b2, extra2) + more;
    copy, t, k := MustCopyBeside(h, b2, extra2, keep, more);
    ghost var m1 := Now(h);
    if extra1 { BorrowStays(m0, m1, b1, keep, keep + more, m0.book.shells, k); }
    if !extra1 { SameTree(m0, m1, keep + more, m0.book.shells, b1); }
    o := Join2RightEntered(h, b1, b2, copy, extra1, extra2, t, k, keep);
    SameTrans(m0, m1, Now(h), keep + more, keep, m0.book.shells, h.book.shells, keep, h.book.shells);
  }

  method Join2RightEntered(h: Heap, b1: Ptr, b2: Ptr, copy: bool, extra1: bool, extra2: bool,
                           ghost t: PTree, ghost k: multiset<Ptr>, ghost keep: multiset<Ptr>) returns (o: Ptr)
    requires EnteredBeside(Now(h), b2, copy, extra2, t, keep, k, Counted(b1, extra1))
    requires extra1 ==> Borrowed(h.book, b1, k)
    modifies h
    ensures Left(old(Now(h)), Now(h), b2, copy, o, keep)
    ensures TreeOf(Now(h), o) == NodeJoin(Join2(old(TreeOf(Now(h), b1)), Val(t.l)), Val(t.r), t.e)
    decreases Size(TreeOf(Now(h), b1)) + Size(Val(t)), 0
  {
    hide Ok;
    hide NodeJoin;
    hide Same;
    hide Borrowed;
    ghost var m1 := Now(h);
    var lc := h.cells[b2].lc;
    ghost var r := Root(t.r);
    ghost var kr := k + Counted(r, copy);
    assert h.book.handles == kr + Counted(b1, extra1) + Counted(lc, copy);
    if copy { OpenChildren(m1, b2, t, k, kr); }
    if extra1 { BorrowMore(h.book, b1, k, kr); }
    var l := Join2Node(h, b1, lc, extra1, copy, kr);
    ghost var m2 := Now(h);
    OpenStays(m1, m2, b2, copy, t, k, kr, m1.book.shells);
    if !copy { SameTree(m1, m2, kr, m1.book.shells, r); }
    SameLess(m1, m2, kr, m1.book.shells, k, m1.book.shells);
    o := TakeRightAndRejoin(h, l, b2, copy, extra2, t, k, keep);
    SameTrans(m1, m2, Now(h), k, keep, m1.book.shells, h.book.shells, keep, h.book.shells);
  }

  // inc_if on the right child, copy_if and node_join, once the left side l is done.
  method TakeRightAndRejoin(h: Heap, l: Ptr, b: Ptr, copy: bool, extra: bool, ghost t: PTree, ghost k: multiset<Ptr>,
                            ghost keep: multiset<Ptr>) returns (o: Ptr)
    requires Ok(Now(h)) && (extra ==> copy) && k == (if copy && !extra then keep + multiset{b} else keep)
    requires Open(Now(h), b, copy, t, k) && h.book.handles == k + Counted(Root(t.r), copy) + multiset{l}
    requires !copy ==> At(h.book.trees, Root(t.r)) == t.r
    modifies h
    ensures Left(old(Now(h)), Now(h), b, copy, o, keep)
    ensures TreeOf(Now(h), o) == NodeJoin(old(TreeOf(Now(h), l)), Val(t.r), t.e)
  {
    hide Ok;
    hide NodeJoin;
    hide Same;
    hide Borrowed;
    ghost var m0 := Now(h);
    if copy { OpenChildren(m0, b, t, k, k); }
    var r := h.cells[b].rc;
    IncIf(h, r, copy, k);
    ghost var m1 := Now(h);
    assert h.book.handles == k + multiset{l} + multiset{r};
    OpenStays(m0, m1, b, copy, t, k, m0.book.handles, m0.book.shells);
    o := Rejoin(h, l, r, b, copy, extra, t, k, keep);
    SameTrans(m0, m1, Now(h), m0.book.handles, keep, m0.book.shells, h.book.shells, keep, h.book.shells);
  }

  method GiveOther(h: Heap, b: Ptr, extra: bool, ghost extra0: bool, ghost keep: multiset<Ptr>) returns (o: Ptr)
    requires BothPassed(Now(h), 0, extra0, b, extra, keep)
    modifies h
    ensures Returned(old(Now(h)), Now(h), o, keep)
    ensures TreeOf(Now(h), o) == old(TreeOf(Now(h), b)) && old(TreeOf(Now(h), 0)) == Leaf
  {
    hide ExactCounts;
    h.NoNull();
    ghost var m0 := Now(h);
    ghost var all := keep + Counted(b, extra);
    assert h.book.handles == all + Counted(0, extra0);
    Forget(h, extra0, all);
    Give(h, b, extra, keep);
    o := b;
    SameTrans(m0, m0, Now(h), keep, keep, m0.book.shells, m0.book.shells, keep, m0.book.shells);
  }

  // deletet (map_ops.h, lines 444-463).
  method DeleteNode(h: Heap, b: Ptr, key: int, extra: bool, ghost keep: multiset<Ptr>) returns (r: Ptr)
    requires Passed(Now(h), b, extra, keep)
    modifies h
    ensures Returned(old(Now(h)), Now(h), r, keep)
    ensures TreeOf(Now(h), r) == Delete(old(TreeOf(Now(h), b)), key)
    decreases At(h.book.trees, b), 1
  {
    hide Ok;
    hide NodeJoin;
    hide Same;
    hide Borrowed;
    if b == 0 {
      r := Empty(h, extra, keep);
      return;
    }
    ghost var m0 := Now(h);
    ghost var t, k;
    var copy;
    copy, t, k := MustCopy(h, b, extra, keep);
    ghost var m1 := Now(h);
    if h.cells[b].entry.key < key {
      r := DeleteRight(h, b, key, copy, extra, t, k, keep);
    } else if key < h.cells[b].entry.key {
      r := DeleteLeft(h, b, key, copy, extra, t, k, keep);
    } else {
      r := DeleteHere(h, b, copy, extra, t, k, keep);
    }
    SameTrans(m0, m1, Now(h), keep, keep, m0.book.shells, h.book.shells, keep, m0.book.shells);
  }

  // The result NULL for the argument NULL.
  method Empty(h: Heap, extra: bool, ghost keep: multiset<Ptr>) returns (r: Ptr)
    requires Passed(Now(h), 0, extra, keep)
    modifies h
    ensures Returned(old(Now(h)), Now(h), r, keep)
    ensures r == 0 && TreeOf(Now(h), r) == Leaf && old(TreeOf(Now(h), 0)) == Leaf
  {
    hide ExactCounts;
    hide Borrowed;
    h.NoNull();
    r := 0;
    if extra { h.HoldNull(); }
  }

  method DeleteRight(h: Heap, b: Ptr, key: int, copy: bool, extra: bool,
                     ghost t: PTree, ghost k: multiset<Ptr>, ghost keep: multiset<Ptr>) returns (o: Ptr)
    requires Entered(Now(h), b, copy, extra, t, keep, k)
    modifies h
    ensures Left(old(Now(h)), Now(h), b, copy, o, keep)
    ensures TreeOf(Now(h), o) == NodeJoin(Val(t.l), Delete(Val(t.r), key), t.e)
    decreases t, 0
  {
    hide Ok;
    hide NodeJoin;
    hide Same;
    hide Borrowed;
    ghost var m0 := Now(h);
    if copy { OpenChildren(m0, b, t, k, k); }
    var l := h.cells[b].lc;
    IncIf(h, l, copy, k);
    ghost var m1 := Now(h);
    ghost var kl := k + multiset{l};
    OpenStays(m0, m1, b, copy, t, k, m0.book.handles, m0.book.shells);
    if copy { OpenChildren(m1, b, t, k, kl); }
    var r := DeleteNode(h, h.cells[b].rc, key, copy, kl);
    ghost var m2 := Now(h);
    OpenStays(m1, m2, b, copy, t, k, kl, m1.book.shells);
    SameTree(m1, m2, kl, m1.book.shells, l);
    SameTrans(m0, m1, m2, m0.book.handles, kl, m0.book.shells, m0.book.shells, k, m0.book.shells);
    o := Rejoin(h, l, r, b, copy, extra, t, k, keep);
    SameTrans(m0, m2, Now(h), k, keep, m0.book.shells, h.book.shells, keep, h.book.shells);
  }

  method DeleteLeft(h: Heap, b: Ptr, key: int, copy: bool, extra: bool,
                    ghost t: PTree, ghost k: multiset<Ptr>, ghost keep: multiset<Ptr>) returns (o: Ptr)
    requires Entered(Now(h), b, copy, extra, t, keep, k)
    modifies h
    ensures Left(old(Now(h)), Now(h), b, copy, o, keep)
    ensures TreeOf(Now(h), o) == NodeJoin(Delete(Val(t.l), key), Val(t.r), t.e)
    decreases t, 0
  {
    hide Ok;
    hide NodeJoin;
    hide Same;
    hide Borrowed;
    ghost var m0 := Now(h);
    if copy { OpenChildren(m0, b, t, k, k); }
    var r := h.cells[b].rc;
    IncIf(h, r, copy, k);
    ghost var m1 := Now(h);
    ghost var kr := k + multiset{r};
    assert !copy ==> h.book.handles == kr + multiset{Root(t.l)};
    OpenStays(m0, m1, b, copy, t, k, m0.book.handles, m0.book.shells);
    if copy { OpenChildren(m1, b, t, k, kr); }
    var l := DeleteNode(h, h.cells[b].lc, key, copy, kr);
    ghost var m2 := Now(h);
    OpenStays(m1, m2, b, copy, t, k, kr, m1.book.shells);
    SameTree(m1, m2, kr, m1.book.shells, r);
    SameTrans(m0, m1, m2, m0.book.handles, kr, m0.book.shells, m0.book.shells, k, m0.book.shells);
    assert h.book.handles == k + multiset{l} + multiset{r};
    o := Rejoin(h, l, r, b, copy, extra, t, k, keep);
    SameTrans(m0, m2, Now(h), k, keep, m0.book.shells, h.book.shells, keep, h.book.shells);
  }

  method DeleteHere(h: Heap, b: Ptr, copy: bool, extra: bool,
                    ghost t: PTree, ghost k: multiset<Ptr>, ghost keep: multiset<Ptr>) returns (o: Ptr)
    requires Entered(Now(h), b, copy, extra, t, keep, k)
    modifies h
    ensures Left(old(Now(h)), Now(h), b, copy, o, keep)
    ensures TreeOf(Now(h), o) == Join2(Val(t.l), Val(t.r))
  {
    hide Ok;
    hide NodeJoin;
    hide Same;
    hide Borrowed;
    ghost var m0 := Now(h);
    if copy { OpenChildren(m0, b, t, k, k); }
    var lc, rc := h.cells[b].lc, h.cells[b].rc;
    assert h.book.handles == k + Counted(lc, copy) + Counted(rc, copy);
    o := Join2Node(h, lc, rc, copy, copy, k);
    ghost var m1 := Now(h);
    OpenStays(m0, m1, b, copy, t, k, k, m0.book.shells);
    DropAfter(h, b, o, copy, extra, t, k, keep);
    SameTrans(m0, m1, Now(h), k, keep, m0.book.shells, h.book.shells, keep, h.book.shells);
  }

  // dec_if, once the result o no longer needs b.
  method DropAfter(h: Heap, b: Ptr, ghost o: Ptr, copy: bool, extra: bool, ghost t: PTree, ghost k: multiset<Ptr>,
                   ghost keep: multiset<Ptr>)
    requires Ok(Now(h)) && (extra ==> copy) && k == (if copy && !extra then keep + multiset{b} else keep)
    requires Open(Now(h), b, copy, t, k) && h.book.handles == k + multiset{o}
    modifies h
    ensures Left(old(Now(h)), Now(h), b, copy, o, keep) && TreeOf(Now(h), o) == old(TreeOf(Now(h), o))
  {
    hide Ok;
    hide NodeJoin;
    hide Same;
    hide Borrowed;
    ghost var m0 := Now(h);
    ghost var all := keep + multiset{o};
    assert h.book.handles == if copy && !extra then all + multiset{b} else all;
    DecIf(h, b, copy, extra, t, k, all);
    SameTree(m0, Now(h), all, h.book.shells, o);
    SameLess(m0, Now(h), all, h.book.shells, keep, h.book.shells);
  }
}
