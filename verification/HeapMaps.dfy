// The map operations on reference-counted nodes: comparison_systems/aspen/code/trees/map_ops.h and
// sequence_ops.h. Each computes the function of TreeMaps with its name, uses up exactly the handles
// it is given, and leaves every snapshot that is still held unchanged.
module HeapMaps {
  import opened WeightBalanced
  import opened TreeMaps
  import opened TreeHeap
  import opened HeapJoin

  // How an argument is passed: as a counted handle, or (extra) as a borrowed pointer.
  ghost predicate Passed(m: Mem, p: Ptr, extra: bool, keep: multiset<Ptr>) {
    Ok(m) && if extra then m.book.handles == keep && Borrowed(m.book, p, keep) else m.book.handles == keep + multiset{p}
  }

  // What every operation promises: its arguments are used up, the result is a new handle, and
  // whatever else is held is unchanged.
  ghost predicate Returned(was: Mem, now: Mem, r: Ptr, keep: multiset<Ptr>) {
    && Ok(now) && now.book.shells == was.book.shells && now.book.handles == keep + multiset{r}
    && Same(was, now, keep, was.book.shells)
  }

  // ---- A node that is being replaced ----

  // The node b, whose tree was t. Copied, it is still there for the handles in k; otherwise it is
  // under construction, with its old contents.
  ghost predicate Open(m: Mem, b: Ptr, copy: bool, t: PTree, k: multiset<Ptr>) {
    && t.PNode? && t.ptr == b && b != 0 && b in m.cells
    && (copy ==> At(m.book.trees, b) == t && Borrowed(m.book, b, k))
    && (!copy ==> b in m.book.shells)
    && m.cells[b].lc == Root(t.l) && m.cells[b].rc == Root(t.r) && m.cells[b].entry == t.e
  }

  lemma OpenStays(was: Mem, now: Mem, b: Ptr, copy: bool, t: PTree, k: multiset<Ptr>, k1: multiset<Ptr>, s: set<Ptr>)
    requires Open(was, b, copy, t, k) && Ok(was) && Ok(now) && Same(was, now, k1, s) && k <= k1
    requires !copy ==> b in s && b in now.book.shells
    ensures Open(now, b, copy, t, k)
  {
    if copy {
      SameTrans(was, was, now, k, k1, {}, s, k, {});
      BorrowKept(was.book, now.cells, now.book, b, k);
      Fields(now.cells, now.book, b);
    }
  }

  // What an operation knows once it has decided whether to copy b. The node's children are its own
  // (not copied) or borrowed (copied).
  ghost predicate Entered(m: Mem, b: Ptr, copy: bool, extra: bool, t: PTree, keep: multiset<Ptr>, k: multiset<Ptr>) {
    && Ok(m) && (extra ==> copy) && k == (if copy && !extra then keep + multiset{b} else keep)
    && Open(m, b, copy, t, k)
    && m.book.handles == (if copy then k else k + multiset{Root(t.l)} + multiset{Root(t.r)})
    && At(m.book.trees, Root(t.l)) == t.l && At(m.book.trees, Root(t.r)) == t.r
  }

  // The second half of an operation: the node b is used up, unless it was copied.
  ghost predicate Left(was: Mem, now: Mem, b: Ptr, copy: bool, r: Ptr, keep: multiset<Ptr>) {
    && Ok(now) && now.book.shells == (if copy then was.book.shells else was.book.shells - {b})
    && now.book.handles == keep + multiset{r}
    && Same(was, now, keep, now.book.shells)
  }

  // A borrowed node has borrowed children, whichever handles are added.
  lemma OpenChildren(m: Mem, b: Ptr, t: PTree, k: multiset<Ptr>, more: multiset<Ptr>)
    requires Open(m, b, true, t, k) && Ok(m) && k <= more
    ensures Borrowed(m.book, Root(t.l), more) && Borrowed(m.book, Root(t.r), more)
    ensures At(m.book.trees, Root(t.l)) == t.l && At(m.book.trees, Root(t.r)) == t.r
  {
    Fields(m.cells, m.book, b);
    BorrowChildren(m.cells, m.book, b, k);
    BorrowMore(m.book, Root(t.l), k, more);
    BorrowMore(m.book, Root(t.r), k, more);
  }

  lemma BorrowLive(m: Mem, b: Ptr, keep: multiset<Ptr>)
    requires Ok(m) && Borrowed(m.book, b, keep)
    ensures b != 0 ==> b in m.book.trees && b in m.cells
  {
    if b != 0 { Fields(m.cells, m.book, b); }
  }

  // ---- gc.h ----

  // The test copy = extra_ptr || b->ref_cnt > 1. A node that need not be copied is taken apart:
  // its child pointers are the operation's own from here on.
  method MustCopy(h: Heap, b: Ptr, extra: bool, ghost keep: multiset<Ptr>)
    returns (copy: bool, ghost t: PTree, ghost k: multiset<Ptr>)
    requires Passed(Now(h), b, extra, keep) && b != 0
    modifies h`book
    ensures Entered(Now(h), b, copy, extra, t, keep, k) && Same(old(Now(h)), Now(h), keep, old(h.book.shells))
    ensures t == At(old(h.book.trees), b) && copy == (extra || h.cells[b].refCnt > 1)
    ensures h.book.shells == if copy then old(h.book.shells) else old(h.book.shells) + {b}
    ensures !copy ==> b !in old(h.book.shells)
    ensures copy ==> Now(h) == old(Now(h))
  {
    hide ExactCounts;
    if extra { BorrowLive(Now(h), b, keep); } else { h.HandleSize(b); }
    copy := extra || h.cells[b].refCnt > 1;
    k := if copy && !extra then keep + multiset{b} else keep;
    t := At(h.book.trees, b);
    Fields(h.cells, h.book, b);
    if copy {
      if !extra { BorrowHandle(h.book, b, k); }
      BorrowChildren(h.cells, h.book, b, k);
      h.ChildSizes(b);
    } else {
      h.Dismantle(b, keep);
    }
  }

  // inc_if (lines 110-113).
  method IncIf(h: Heap, t: Ptr, copy: bool, ghost k: multiset<Ptr>)
    requires Ok(Now(h)) && (copy ==> Borrowed(h.book, t, k))
    modifies h
    ensures Ok(Now(h)) && Same(old(Now(h)), Now(h), old(h.book.handles), h.book.shells)
    ensures h.book.shells == old(h.book.shells)
    ensures h.book.handles == if copy then old(h.book.handles) + multiset{t} else old(h.book.handles)
    ensures h.book.trees == old(h.book.trees)
  {
    hide ExactCounts;
    if copy {
      BorrowLive(Now(h), t, k);
      h.Increment(t);
    }
  }

  // copy_if (lines 92-98): a shell with the entry of b.
  method CopyIf(h: Heap, b: Ptr, copy: bool, extra: bool, ghost t: PTree, ghost k: multiset<Ptr>,
          ghost keep: multiset<Ptr>)
    returns (o: Ptr)
    requires Ok(Now(h)) && Open(Now(h), b, copy, t, k)
    requires h.book.handles == if copy && !extra then keep + multiset{b} else keep
    modifies h
    ensures Ok(Now(h)) && h.book.handles == keep && o in h.book.shells && o in h.cells && h.cells[o].entry == t.e
    ensures h.book.shells == if copy then old(h.book.shells) + {o} else old(h.book.shells)
    ensures if copy then o !in old(h.book.shells) else o == b
    ensures Same(old(Now(h)), Now(h), keep, old(h.book.shells))
  {
    hide ExactCounts;
    hide Borrowed;
    o := b;
    if copy {
      o := h.MakeNode(h.cells[b].entry);
      if !extra { h.DecrementRecursive(b, keep); }
    }
  }

  // dec_if (lines 118-123).
  method DecIf(h: Heap, b: Ptr, copy: bool, extra: bool, ghost t: PTree, ghost k: multiset<Ptr>,
          ghost keep: multiset<Ptr>)
    requires Ok(Now(h)) && Open(Now(h), b, copy, t, k) && (extra ==> copy)
    requires h.book.handles == if copy && !extra then keep + multiset{b} else keep
    modifies h
    ensures Ok(Now(h)) && h.book.handles == keep
    ensures h.book.shells == if copy then old(h.book.shells) else old(h.book.shells) - {b}
    ensures Same(old(Now(h)), Now(h), keep, h.book.shells)
  {
    hide ExactCounts;
    hide Borrowed;
    if !extra {
      if copy {
        h.DecrementRecursive(b, keep);
      } else {
        h.ShellCount(b);
        var _ := h.Decrement(b, keep);
      }
    }
  }

  // node_join(l, r, m) for a shell m.
  method JoinAt(h: Heap, l: Ptr, r: Ptr, m: Ptr, ghost keep: multiset<Ptr>) returns (o: Ptr)
    requires Ok(Now(h)) && h.book.handles == keep + multiset{l} + multiset{r} && m in h.book.shells && m in h.cells
    modifies h
    ensures Ok(Now(h)) && h.book.handles == keep + multiset{o} && h.book.shells == old(h.book.shells) - {m}
    ensures Same(old(Now(h)), Now(h), keep, h.book.shells)
    ensures TreeOf(Now(h), o) == old(NodeJoin(TreeOf(Now(h), l), TreeOf(Now(h), r), h.cells[m].entry))
  {
    hide ExactCounts;
    o := NodeJoinNode(h, l, r, m, keep);
  }

  // node_join(l, r, copy_if(b, copy, extra)), which ends most operations.
  method Rejoin(h: Heap, l: Ptr, r: Ptr, b: Ptr, copy: bool, extra: bool, ghost t: PTree, ghost k: multiset<Ptr>,
                ghost keep: multiset<Ptr>)
    returns (o: Ptr)
    requires Ok(Now(h)) && (extra ==> copy) && k == (if copy && !extra then keep + multiset{b} else keep)
    requires h.book.handles == k + multiset{l} + multiset{r} && Open(Now(h), b, copy, t, k)
    modifies h
    ensures Left(old(Now(h)), Now(h), b, copy, o, keep)
    ensures TreeOf(Now(h), o) == NodeJoin(old(TreeOf(Now(h), l)), old(TreeOf(Now(h), r)), t.e)
  {
    hide Ok;
    hide NodeJoin;
    hide Same;
    hide Borrowed;
    ghost var m0 := Now(h);
    ghost var all := keep + multiset{l} + multiset{r};
    assert h.book.handles == if copy && !extra then all + multiset{b} else all;
    var m := CopyIf(h, b, copy, extra, t, k, all);
    ghost var m1 := Now(h);
    SameTree(m0, m1, all, m0.book.shells, l);
    SameTree(m0, m1, all, m0.book.shells, r);
    o := JoinAt(h, l, r, m, keep);
    SameTrans(m0, m1, Now(h), all, keep, m0.book.shells, h.book.shells, keep, h.book.shells);
  }

  // ---- insert ----

  // insert_j (map_ops.h, lines 412-437) with node_join.
  method InsertNode(h: Heap, b: Ptr, e: Entry, op: Op, extra: bool, ghost keep: multiset<Ptr>) returns (r: Ptr)
    requires Passed(Now(h), b, extra, keep)
    modifies h
    ensures Returned(old(Now(h)), Now(h), r, keep)
    ensures TreeOf(Now(h), r) == Insert(old(TreeOf(Now(h), b)), e, op)
    decreases At(h.book.trees, b), 1
  {
    hide Ok;
    hide NodeJoin;
    hide Same;
    hide Borrowed;
    if b == 0 {
      r := InsertHere(h, e, extra, keep);
      return;
    }
    ghost var m0 := Now(h);
    ghost var t, k;
    var copy;
    copy, t, k := MustCopy(h, b, extra, keep);
    ghost var m1 := Now(h);
    if h.cells[b].entry.key < e.key {
      r := InsertRight(h, b, e, op, copy, extra, t, k, keep);
    } else if e.key < h.cells[b].entry.key {
      r := InsertLeft(h, b, e, op, copy, extra, t, k, keep);
    } else {
      r := InsertCombine(h, b, e, op, copy, extra, t, k, keep);
    }
    SameTrans(m0, m1, Now(h), keep, keep, m0.book.shells, h.book.shells, keep, m0.book.shells);
  }

  method InsertRight(h: Heap, b: Ptr, e: Entry, op: Op, copy: bool, extra: bool,
                     ghost t: PTree, ghost k: multiset<Ptr>, ghost keep: multiset<Ptr>) returns (o: Ptr)
    requires Entered(Now(h), b, copy, extra, t, keep, k)
    modifies h
    ensures Left(old(Now(h)), Now(h), b, copy, o, keep)
    ensures TreeOf(Now(h), o) == NodeJoin(Val(t.l), Insert(Val(t.r), e, op), t.e)
    decreases t, 0
  {
    hide Ok;
    hide NodeJoin;
    hide Same;
    hide Borrowed;
    ghost var m0 := Now(h);
    if copy { OpenChildren(m0, b, t, k, k); }
    var l := h.cells[b].lc;
    IncIf(h, l, copy, k);
    ghost var m1 := Now(h);
    ghost var kl := k + multiset{l};
    OpenStays(m0, m1, b, copy, t, k, m0.book.handles, m0.book.shells);
    if copy { OpenChildren(m1, b, t, k, kl); }
    var r := InsertNode(h, h.cells[b].rc, e, op, copy, kl);
    ghost var m2 := Now(h);
    OpenStays(m1, m2, b, copy, t, k, kl, m1.book.shells);
    SameTree(m1, m2, kl, m1.book.shells, l);
    SameTrans(m0, m1, m2, m0.book.handles, kl, m0.book.shells, m0.book.shells, k, m0.book.shells);
    o := Rejoin(h, l, r, b, copy, extra, t, k, keep);
    SameTrans(m0, m2, Now(h), k, keep, m0.book.shells, h.book.shells, keep, h.book.shells);
  }

  method InsertLeft(h: Heap, b: Ptr, e: Entry, op: Op, copy: bool, extra: bool,
                    ghost t: PTree, ghost k: multiset<Ptr>, ghost keep: multiset<Ptr>) returns (o: Ptr)
    requires Entered(Now(h), b, copy, extra, t, keep, k)
    modifies h
    ensures Left(old(Now(h)), Now(h), b, copy, o, keep)
    ensures TreeOf(Now(h), o) == NodeJoin(Insert(Val(t.l), e, op), Val(t.r), t.e)
    decreases t, 0
  {
    hide Val;
    hide Ok;
    hide NodeJoin;
    hide Same;
    hide Borrowed;
    ghost var m0 := Now(h);
    ghost var kr := if copy then k else k + multiset{h.cells[b].rc};
    if copy { OpenChildren(m0, b, t, k, k); }
    assert !copy ==> h.book.handles == kr + multiset{h.cells[b].lc};
    var l := InsertNode(h, h.cells[b].lc, e, op, copy, kr);
    ghost var m1 := Now(h);
    OpenStays(m0, m1, b, copy, t, k, kr, m0.book.shells);
    var r := h.cells[b].rc;
    if copy { OpenChildren(m1, b, t, k, k); } else { SameTree(m0, m1, kr, m0.book.shells, r); }
    IncIf(h, r, copy, k);
    ghost var m2 := Now(h);
    assert h.book.handles == k + multiset{l} + multiset{r};
    OpenStays(m1, m2, b, copy, t, k, m1.book.handles, m1.book.shells);
    SameTrans(m0, m1, m2, kr, m1.book.handles, m0.book.shells, m0.book.shells, k, m0.book.shells);
    o := Rejoin(h, l, r, b, copy, extra, t, k, keep);
    SameTrans(m0, m2, Now(h), k, keep, m0.book.shells, h.book.shells, keep, h.book.shells);
  }

  // Both children with a handle each: inc_if on the left and on the right child.
  method IncBoth(h: Heap, b: Ptr, copy: bool, extra: bool, ghost t: PTree, ghost k: multiset<Ptr>,
          ghost keep: multiset<Ptr>)
    requires Entered(Now(h), b, copy, extra, t, keep, k)
    modifies h
    ensures Ok(Now(h)) && Open(Now(h), b, copy, t, k) && h.book.shells == old(h.book.shells)
    ensures h.book.handles == k + multiset{Root(t.l)} + multiset{Root(t.r)}
    ensures At(h.book.trees, Root(t.l)) == t.l && At(h.book.trees, Root(t.r)) == t.r
    ensures Same(old(Now(h)), Now(h), k, h.book.shells)
  {
    hide Ok;
    hide NodeJoin;
    hide Same;
    hide Borrowed;
    ghost var m0 := Now(h);
    if copy { OpenChildren(m0, b, t, k, k); }
    IncIf(h, h.cells[b].lc, copy, k);
    ghost var m1 := Now(h);
    OpenStays(m0, m1, b, copy, t, k, m0.book.handles, m0.book.shells);
    if copy { OpenChildren(m1, b, t, k, k); }
    IncIf(h, h.cells[b].rc, copy, k);
    ghost var m2 := Now(h);
    OpenStays(m1, m2, b, copy, t, k, m1.book.handles, m1.book.shells);
    SameTrans(m0, m1, m2, m0.book.handles, m1.book.handles, m0.book.shells, m1.book.shells, k, m0.book.shells);
  }

  // The third branch, with combine_values (lines 429-435).
  method InsertCombine(h: Heap, b: Ptr, e: Entry, op: Op, copy: bool, extra: bool,
                       ghost t: PTree, ghost k: multiset<Ptr>, ghost keep: multiset<Ptr>) returns (o: Ptr)
    requires Entered(Now(h), b, copy, extra, t, keep, k)
    modifies h
    ensures Left(old(Now(h)), Now(h), b, copy, o, keep)
    ensures TreeOf(Now(h), o) == NodeJoin(Val(t.l), Val(t.r), Entry(t.e.key, op(t.e.val, e.val)))
  {
    hide Ok;
    hide NodeJoin;
    hide Same;
    hide Borrowed;
    ghost var m0 := Now(h);
    var l, r := h.cells[b].lc, h.cells[b].rc;
    IncBoth(h, b, copy, extra, t, k, keep);
    ghost var m1 := Now(h);
    o := RejoinWith(h, l, r, b, e, op, copy, extra, t, k, keep);
    SameTrans(m0, m1, Now(h), k, keep, m0.book.shells, h.book.shells, keep, h.book.shells);
  }

  // copy_if, combine_values with reverse == false, node_join.
  method RejoinWith(h: Heap, l: Ptr, r: Ptr, b: Ptr, e: Entry, op: Op, copy: bool, extra: bool, ghost t: PTree,
                    ghost k: multiset<Ptr>, ghost keep: multiset<Ptr>)
    returns (o: Ptr)
    requires Ok(Now(h)) && (extra ==> copy) && k == (if copy && !extra then keep + multiset{b} else keep)
    requires h.book.handles == k + multiset{l} + multiset{r} && Open(Now(h), b, copy, t, k)
    modifies h
    ensures Left(old(Now(h)), Now(h), b, copy, o, keep)
    ensures TreeOf(Now(h), o) ==
            NodeJoin(old(TreeOf(Now(h), l)), old(TreeOf(Now(h), r)), Entry(t.e.key, op(t.e.val, e.val)))
  {
    hide Ok;
    hide NodeJoin;
    hide Same;
    hide Borrowed;
    ghost var m0 := Now(h);
    ghost var all := keep + multiset{l} + multiset{r};
    assert h.book.handles == if copy && !extra then all + multiset{b} else all;
    var m := CopyIf(h, b, copy, extra, t, k, all);
    ghost var m1 := Now(h);
    SameTree(m0, m1, all, m0.book.shells, l);
    SameTree(m0, m1, all, m0.book.shells, r);
    var re := h.cells[m].entry;
    SetEntry(h, m, Entry(re.key, op(re.val, e.val)));
    ghost var m2 := Now(h);
    SameTrans(m0, m1, m2, all, all, m0.book.shells, m1.book.shells - {m}, all, m0.book.shells - {m});
    o := JoinAt(h, l, r, m, keep);
    SameTrans(m0, m2, Now(h), all, keep, m0.book.shells - {m}, h.book.shells, keep, h.book.shells);
  }

  // set_entry (basic_node.h, line 51).
  method SetEntry(h: Heap, p: Ptr, e: Entry)
    requires Ok(Now(h)) && p in h.book.shells && p in h.cells
    modifies h`cells
    ensures Ok(Now(h)) && p in h.cells && h.cells[p] == old(h.cells[p]).(entry := e)
    ensures Same(old(Now(h)), Now(h), h.book.handles, h.book.shells - {p}) && h.book == old(h.book)
  {
    hide ExactCounts;
    h.Write(p, h.cells[p].(entry := e));
  }

  method InsertHere(h: Heap, e: Entry, extra: bool, ghost keep: multiset<Ptr>) returns (r: Ptr)
    requires Passed(Now(h), 0, extra, keep)
    modifies h
    ensures Returned(old(Now(h)), Now(h), r, keep)
    ensures TreeOf(Now(h), r) == Node(Leaf, e, Leaf) && old(TreeOf(Now(h), 0)) == Leaf
  {
    hide ExactCounts;
    hide Borrowed;
    h.NoNull();
    if !extra { h.DropNull(keep); }
    r := h.Single(e);
  }
}
