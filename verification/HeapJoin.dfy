// The joins on reference-counted nodes: comparison_systems/aspen/code/trees/balance_utils.h.
// They compute the joins of WeightBalanced and leave every other handle's tree alone.
module HeapJoin {
  import opened WeightBalanced
  import opened TreeMaps
  import opened TreeHeap

  // rotate_left (lines 25-32): t and its right child are under construction.
  method RotateLeftNode(h: Heap, t: Ptr, ghost x: Ptr, ghost keep: multiset<Ptr>) returns (root: Ptr)
    requires h.Valid() && t in h.book.shells && t in h.cells
    requires x == h.cells[t].rc && x in h.book.shells && x in h.cells && x != t
    requires h.book.handles == keep + multiset{h.cells[t].lc} + multiset{h.cells[x].lc} + multiset{h.cells[x].rc}
    modifies h
    ensures h.Valid() && h.book.shells == old(h.book).shells - {t, x}
    ensures h.book.handles == keep + multiset{root} && root in h.cells && h.cells[root].refCnt == 1
    ensures Same(old(Now(h)), Now(h), keep, h.book.shells)
    ensures h.Tree(root) == old(RotateLeft(Node(h.Tree(h.cells[t].lc), h.cells[t].entry,
              Node(h.Tree(h.cells[x].lc), h.cells[x].entry, h.Tree(h.cells[x].rc)))))
  {
    hide ExactCounts;
    root := h.cells[t].rc;
    var lsub := h.cells[root].lc;
    ghost var a, c := h.cells[t].lc, h.cells[root].rc;
    h.Write(root, h.cells[root].(lc := t));
    h.Write(t, h.cells[t].(rc := lsub));
    assert h.book.handles == keep + multiset{c} + multiset{a} + multiset{lsub};
    h.Finish(t, keep + multiset{c});
    assert h.book.handles == keep + multiset{t} + multiset{c};
    h.Finish(root, keep);
  }

  // rotate_right (lines 15-22).
  method RotateRightNode(h: Heap, t: Ptr, ghost x: Ptr, ghost keep: multiset<Ptr>) returns (root: Ptr)
    requires h.Valid() && t in h.book.shells && t in h.cells
    requires x == h.cells[t].lc && x in h.book.shells && x in h.cells && x != t
    requires h.book.handles == keep + multiset{h.cells[t].rc} + multiset{h.cells[x].rc} + multiset{h.cells[x].lc}
    modifies h
    ensures h.Valid() && h.book.shells == old(h.book).shells - {t, x}
    ensures h.book.handles == keep + multiset{root} && root in h.cells && h.cells[root].refCnt == 1
    ensures Same(old(Now(h)), Now(h), keep, h.book.shells)
    ensures h.Tree(root) == old(RotateRight(Node(Node(h.Tree(h.cells[x].lc), h.cells[x].entry, h.Tree(h.cells[x].rc)),
                                                 h.cells[t].entry, h.Tree(h.cells[t].rc))))
  {
    hide ExactCounts;
    root := h.cells[t].lc;
    var rsub := h.cells[root].rc;
    ghost var a, c := h.cells[t].rc, h.cells[root].lc;
    h.Write(root, h.cells[root].(rc := t));
    h.Write(t, h.cells[t].(lc := rsub));
    assert h.book.handles == keep + multiset{c} + multiset{rsub} + multiset{a};
    h.Finish(t, keep + multiset{c});
    assert h.book.handles == keep + multiset{c} + multiset{t};
    h.Finish(root, keep);
  }

  // An assignment to the fields of p, and its last step, with what stays the same.
  method WriteAt(h: Heap, p: Ptr, c: Cell)
    requires h.Valid() && p in h.book.shells && p in h.cells && c.refCnt == h.cells[p].refCnt
    modifies h`cells
    ensures h.Valid() && h.book == old(h.book) && h.cells == old(h.cells)[p := c]
    ensures Same(old(Now(h)), Now(h), h.book.handles, h.book.shells - {p})
  {
    hide ExactCounts;
    h.Write(p, c);
  }

  method FinishAt(h: Heap, p: Ptr, ghost keep: multiset<Ptr>)
    requires h.Valid() && p in h.book.shells && p in h.cells
    requires h.book.handles == keep + multiset{h.cells[p].lc} + multiset{h.cells[p].rc}
    modifies h
    ensures h.Valid() && h.book.shells == old(h.book).shells - {p} && h.book.handles == keep + multiset{p}
    ensures Same(old(Now(h)), Now(h), keep, h.book.shells)
    ensures p in h.cells && h.cells[p].refCnt == 1 && p in h.book.trees
    ensures h.Tree(p) == old(Node(h.Tree(h.cells[p].lc), h.cells[p].entry, h.Tree(h.cells[p].rc)))
  {
    hide ExactCounts;
    h.Finish(p, keep);
  }

  // Ghost: the unshared node p is open for changes, its child pointers are handles.
  ghost method TakeApart(h: Heap, p: Ptr, keep: multiset<Ptr>)
    requires h.Valid() && p in h.book.trees && p in h.cells && h.cells[p].refCnt == 1
    requires h.book.handles == keep + multiset{p}
    modifies h`book
    ensures h.Valid() && h.book.shells == old(h.book).shells + {p} && p !in old(h.book).shells
    ensures h.book.handles == keep + multiset{h.cells[p].lc} + multiset{h.cells[p].rc}
    ensures Same(old(Now(h)), Now(h), keep, old(h.book).shells)
    ensures old(h.Tree(p)) == Node(h.Tree(h.cells[p].lc), h.cells[p].entry, h.Tree(h.cells[p].rc))
    ensures h.Tree(h.cells[p].lc) == old(h.Tree(h.cells[p].lc)) && h.Tree(h.cells[p].rc) == old(h.Tree(h.cells[p].rc))
  {
    Fields(h.cells, h.book, p);
    hide ExactCounts;
    h.Dismantle(p, keep);
  }

  // The finished node x becomes a child of m, whose other child is b.
  method PutUnder(h: Heap, x: Ptr, m: Ptr, left: bool, ghost b: Ptr, ghost keep: multiset<Ptr>)
    requires h.Valid() && x in h.book.shells && x in h.cells && m in h.book.shells && m in h.cells && x != m
    requires h.book.handles == keep + multiset{b} + multiset{h.cells[x].lc} + multiset{h.cells[x].rc}
    modifies h
    ensures h.Valid() && h.book.shells == old(h.book).shells - {x} && h.book.handles == keep + multiset{b} + multiset{x}
    ensures m in h.cells && h.cells[m] == if left then old(h.cells[m]).(lc := x) else old(h.cells[m]).(rc := x)
    ensures Same(old(Now(h)), Now(h), keep, old(h.book).shells - {x, m})
    ensures h.Tree(x) == old(Node(h.Tree(h.cells[x].lc), h.cells[x].entry, h.Tree(h.cells[x].rc)))
    ensures h.Tree(b) == old(h.Tree(b))
  {
    hide ExactCounts, Kept, Untouched, Same;
    ghost var m0 := Now(h);
    FinishAt(h, x, keep + multiset{b});
    ghost var m1 := Now(h);
    SameShell(m0, m1, keep + multiset{b}, m1.book.shells, m);
    SameTree(m0, m1, keep + multiset{b}, m1.book.shells, b);
    WriteAt(h, m, if left then h.cells[m].(lc := x) else h.cells[m].(rc := x));
    SameTrans(m0, m1, Now(h), keep + multiset{b}, h.book.handles, m1.book.shells, m1.book.shells - {m},
              keep, m0.book.shells - {x, m});
  }

  // The first part of double_rotate_left (lines 47-51): the inner grandchild, copied if it is shared,
  // moves above the right child x. It must exist: it is dereferenced.
  method LiftLeft(h: Heap, x: Ptr, ghost keep: multiset<Ptr>) returns (m: Ptr)
    requires h.Valid() && x in h.book.shells && x in h.cells
    requires h.book.handles == keep + multiset{h.cells[x].lc} + multiset{h.cells[x].rc}
    requires h.cells[x].lc != 0
    modifies h
    ensures h.Valid() && h.book.shells == old(h.book).shells - {x} + {m} && m !in old(h.book).shells && m in h.cells
    ensures h.book.handles == keep + multiset{h.cells[m].lc} + multiset{h.cells[m].rc}
    ensures Same(old(Now(h)), Now(h), keep, old(h.book).shells - {x})
    ensures old(h.Tree(h.cells[x].lc)).Node?
    ensures Node(h.Tree(h.cells[m].lc), h.cells[m].entry, h.Tree(h.cells[m].rc)) ==
            RotateRight(old(Node(h.Tree(h.cells[x].lc), h.cells[x].entry, h.Tree(h.cells[x].rc))))
  {
    hide Val, ExactCounts, Kept, Untouched, Same;
    ghost var m0 := Now(h);
    ghost var c := h.cells[x].rc;
    assert h.book.handles == keep + multiset{c} + multiset{h.cells[x].lc};
    m := h.CopyIfNeeded(h.cells[x].lc, keep + multiset{c});
    ghost var m1 := Now(h);
    ghost var b1, b2 := h.cells[m].lc, h.cells[m].rc;
    SameShell(m0, m1, keep + multiset{c}, m0.book.shells, x);
    SameTree(m0, m1, keep + multiset{c}, m0.book.shells, c);
    WriteAt(h, x, h.cells[x].(lc := h.cells[m].rc));
    LastFirst(keep, b1, b2, c);
    LastFirst(keep, b2, c, b1);
    ghost var m2 := Now(h);
    PutUnder(h, x, m, false, b1, keep);
    ghost var s := m0.book.shells - {x};
    assert m2.book.shells - {x, m} == s;
    SameTrans(m1, m2, Now(h), m1.book.handles, keep, m1.book.shells - {x}, s, keep, s);
    SameTrans(m0, m1, Now(h), keep + multiset{c}, keep, m0.book.shells, s, keep, s);
  }

  // double_rotate_left (lines 46-54).
  method DoubleRotateLeftNode(h: Heap, t: Ptr, ghost x: Ptr, ghost keep: multiset<Ptr>) returns (root: Ptr)
    requires h.Valid() && t in h.book.shells && t in h.cells
    requires x == h.cells[t].rc && x in h.book.shells && x in h.cells && x != t
    requires h.book.handles == keep + multiset{h.cells[t].lc} + multiset{h.cells[x].lc} + multiset{h.cells[x].rc}
    requires h.cells[x].lc != 0 && h.Tree(h.cells[x].lc).Node?
    modifies h
    ensures h.Valid() && h.book.shells == old(h.book).shells - {t, x}
    ensures h.book.handles == keep + multiset{root} && root in h.cells && h.cells[root].refCnt == 1
    ensures Same(old(Now(h)), Now(h), keep, h.book.shells)
    ensures h.Tree(root) == old(DoubleRotateLeft(Node(h.Tree(h.cells[t].lc), h.cells[t].entry,
              Node(h.Tree(h.cells[x].lc), h.cells[x].entry, h.Tree(h.cells[x].rc)))))
  {
    hide ExactCounts;
    ghost var a := h.cells[t].lc;
    var m := LiftLeft(h, h.cells[t].rc, keep + multiset{a});
    h.Write(t, h.cells[t].(rc := m));
    root := RotateLeftNode(h, t, m, keep);
  }

  // The first part of double_rotate_right (lines 36-40).
  method LiftRight(h: Heap, x: Ptr, ghost keep: multiset<Ptr>) returns (m: Ptr)
    requires h.Valid() && x in h.book.shells && x in h.cells
    requires h.book.handles == keep + multiset{h.cells[x].lc} + multiset{h.cells[x].rc}
    requires h.cells[x].rc != 0
    modifies h
    ensures h.Valid() && h.book.shells == old(h.book).shells - {x} + {m} && m !in old(h.book).shells && m in h.cells
    ensures h.book.handles == keep + multiset{h.cells[m].lc} + multiset{h.cells[m].rc}
    ensures Same(old(Now(h)), Now(h), keep, old(h.book).shells - {x})
    ensures old(h.Tree(h.cells[x].rc)).Node?
    ensures Node(h.Tree(h.cells[m].lc), h.cells[m].entry, h.Tree(h.cells[m].rc)) ==
            RotateLeft(old(Node(h.Tree(h.cells[x].lc), h.cells[x].entry, h.Tree(h.cells[x].rc))))
  {
    hide Val, ExactCounts, Kept, Untouched, Same;
    ghost var m0 := Now(h);
    ghost var c := h.cells[x].lc;
    m := h.CopyIfNeeded(h.cells[x].rc, keep + multiset{c});
    ghost var m1 := Now(h);
    ghost var b1, b2 := h.cells[m].lc, h.cells[m].rc;
    SameShell(m0, m1, keep + multiset{c}, m0.book.shells, x);
    SameTree(m0, m1, keep + multiset{c}, m0.book.shells, c);
    WriteAt(h, x, h.cells[x].(rc := h.cells[m].lc));
    LastFirst(keep, c, b1, b2);
    ghost var m2 := Now(h);
    PutUnder(h, x, m, true, b2, keep);
    ghost var s := m0.book.shells - {x};
    assert m2.book.shells - {x, m} == s;
    SameTrans(m1, m2, Now(h), m1.book.handles, keep, m1.book.shells - {x}, s, keep, s);
    SameTrans(m0, m1, Now(h), keep + multiset{c}, keep, m0.book.shells, s, keep, s);
    Swap(keep, b2, x);
  }

  // double_rotate_right (lines 35-43).
  method DoubleRotateRightNode(h: Heap, t: Ptr, ghost x: Ptr, ghost keep: multiset<Ptr>) returns (root: Ptr)
    requires h.Valid() && t in h.book.shells && t in h.cells
    requires x == h.cells[t].lc && x in h.book.shells && x in h.cells && x != t
    requires h.book.handles == keep + multiset{h.cells[t].rc} + multiset{h.cells[x].lc} + multiset{h.cells[x].rc}
    requires h.cells[x].rc != 0 && h.Tree(h.cells[x].rc).Node?
    modifies h
    ensures h.Valid() && h.book.shells == old(h.book).shells - {t, x}
    ensures h.book.handles == keep + multiset{root} && root in h.cells && h.cells[root].refCnt == 1
    ensures Same(old(Now(h)), Now(h), keep, h.book.shells)
    ensures h.Tree(root) == old(DoubleRotateRight(
              Node(Node(h.Tree(h.cells[x].lc), h.cells[x].entry, h.Tree(h.cells[x].rc)),
                   h.cells[t].entry, h.Tree(h.cells[t].rc))))
  {
    hide ExactCounts;
    ghost var a := h.cells[t].rc;
    var m := LiftRight(h, h.cells[t].lc, keep + multiset{a});
    h.Write(t, h.cells[t].(lc := m));
    assert h.book.handles == keep + multiset{a} + multiset{h.cells[m].rc} + multiset{h.cells[m].lc};
    root := RotateRightNode(h, t, m, keep);
  }

  // ---- The joins ----

  // is_left_heavy and is_single_rotation read the cached sizes (weight_balanced_tree.h, lines 40-51).
  function HeavierThan(h: Heap, t1: Ptr, t2: Ptr): bool
    requires (t1 != 0 ==> t1 in h.cells) && (t2 != 0 ==> t2 in h.cells)
    reads h
  {
    29 * (h.SizeOf(t1) + 1) > 71 * (h.SizeOf(t2) + 1)
  }

  function OneRotation(h: Heap, t: Ptr, inner: Ptr): bool
    requires (t != 0 ==> t in h.cells) && (inner != 0 ==> inner in h.cells)
    reads h
  {
    71 * (h.SizeOf(inner) + 1) <= 42 * (h.SizeOf(t) + 1)
  }

  // What a join promises: the two handles and the shell k become one handle on an unshared root r,
  // and nothing else that is still held has changed.
  twostate predicate Joined(h: Heap, k: Ptr, r: Ptr, keep: multiset<Ptr>)
    reads h
  {
    && h.Valid() && h.book.shells == old(h.book).shells - {k}
    && h.book.handles == keep + multiset{r} && r in h.cells && h.cells[r].refCnt == 1 && r in h.book.trees
    && Same(old(Now(h)), Now(h), keep, h.book.shells)
  }

  ghost predicate CanJoin(h: Heap, t1: Ptr, t2: Ptr, k: Ptr, keep: multiset<Ptr>)
    reads h
  {
    h.Valid() && h.book.handles == keep + multiset{t1} + multiset{t2} && k in h.book.shells && k in h.cells
  }

  // balanced_join (lines 83-88).
  method BalancedJoin(h: Heap, l: Ptr, r: Ptr, e: Ptr, ghost keep: multiset<Ptr>) returns (o: Ptr)
    requires CanJoin(h, l, r, e, keep)
    modifies h
    ensures Joined(h, e, o, keep)
    ensures h.Tree(o) == old(Node(h.Tree(l), h.cells[e].entry, h.Tree(r)))
  {
    hide ExactCounts;
    h.Write(e, h.cells[e].(lc := l, rc := r));
    h.Finish(e, keep);
    o := e;
  }

  // right_join (lines 56-67).
  method RightJoinNode(h: Heap, t1: Ptr, t2: Ptr, k: Ptr, ghost keep: multiset<Ptr>) returns (r: Ptr)
    requires CanJoin(h, t1, t2, k, keep)
    modifies h
    ensures Joined(h, k, r, keep)
    ensures h.Tree(r) == old(RightJoin(h.Tree(t1), h.Tree(t2), h.cells[k].entry))
    decreases h.Tree(t1)
  {
    hide ExactCounts;
    hide Kept;
    hide Untouched;
    ghost var m0 := Now(h);
    h.HandleSize(t1);
    h.HandleSize(t2);
    if !HeavierThan(h, t1, t2) {
      r := BalancedJoin(h, t1, t2, k, keep);
      return;
    }
    Swap(keep, t1, t2);
    var t := h.CopyIfNeeded(t1, keep + multiset{t2});
    ghost var m1 := Now(h);
    SameShell(m0, m1, keep + multiset{t2}, m0.book.shells, k);
    SameTree(m0, m1, keep + multiset{t2}, m0.book.shells, t2);
    ghost var a := h.cells[t].lc;
    LastFirst(keep, a, h.cells[t].rc, t2);
    var j := RightJoinNode(h, h.cells[t].rc, t2, k, keep + multiset{a});
    ghost var m2 := Now(h);
    SameShell(m1, m2, keep + multiset{a}, m2.book.shells, t);
    SameTree(m1, m2, keep + multiset{a}, m2.book.shells, a);
    WriteAt(h, t, h.cells[t].(rc := j));
    ghost var m3 := Now(h);
    r := RebalanceLeftNode(h, t, j, keep);
    ghost var s := h.book.shells;
    SameTrans(m2, m3, Now(h), m2.book.handles, keep, m2.book.shells - {t}, s, keep, s);
    SameTrans(m1, m2, Now(h), keep + multiset{a}, keep, m2.book.shells, s, keep, s);
    SameTrans(m0, m1, Now(h), keep + multiset{t2}, keep, m0.book.shells, s, keep, s);
  }

  // The rebalancing in right_join (lines 61-66).
  method RebalanceLeftNode(h: Heap, t: Ptr, j: Ptr, ghost keep: multiset<Ptr>) returns (r: Ptr)
    requires h.Valid() && t in h.book.shells && t in h.cells
    requires h.cells[t].rc == j && j in h.cells && h.cells[j].refCnt == 1
    requires j in h.book.trees && h.book.handles == keep + multiset{h.cells[t].lc} + multiset{j}
    modifies h
    ensures Joined(h, t, r, keep)
    ensures h.Tree(r) == old(RebalanceLeft(Node(h.Tree(h.cells[t].lc), h.cells[t].entry, h.Tree(j))))
  {
    hide ExactCounts, Kept, Untouched, Same;
    ghost var a := h.cells[t].lc;
    h.HandleSize(a);
    h.HandleSize(j);
    if HeavierThan(h, j, h.cells[t].lc) {
      h.ChildSizes(j);
      ghost var m0 := Now(h);
      var single := OneRotation(h, j, h.cells[j].lc);
      TakeApart(h, j, keep + multiset{a});
      ghost var m1 := Now(h);
      SameTree(m0, m1, keep + multiset{a}, m0.book.shells, a);
      if single { r := RotateLeftNode(h, t, j, keep); } else { r := DoubleRotateLeftNode(h, t, j, keep); }
      SameTrans(m0, m1, Now(h), keep + multiset{a}, keep, m0.book.shells, h.book.shells, keep, h.book.shells);
    } else {
      FinishAt(h, t, keep);
      r := t;
    }
  }

  // left_join (lines 69-80).
  method LeftJoinNode(h: Heap, t1: Ptr, t2: Ptr, k: Ptr, ghost keep: multiset<Ptr>) returns (r: Ptr)
    requires CanJoin(h, t1, t2, k, keep)
    modifies h
    ensures Joined(h, k, r, keep)
    ensures h.Tree(r) == old(LeftJoin(h.Tree(t1), h.Tree(t2), h.cells[k].entry))
    decreases h.Tree(t2)
  {
    hide ExactCounts;
    hide Kept;
    hide Untouched;
    ghost var m0 := Now(h);
    h.HandleSize(t1);
    h.HandleSize(t2);
    if !HeavierThan(h, t2, t1) {
      r := BalancedJoin(h, t1, t2, k, keep);
      return;
    }
    var t := h.CopyIfNeeded(t2, keep + multiset{t1});
    ghost var m1 := Now(h);
    SameShell(m0, m1, keep + multiset{t1}, m0.book.shells, k);
    SameTree(m0, m1, keep + multiset{t1}, m0.book.shells, t1);
    ghost var a := h.cells[t].rc;
    LastFirst(keep, t1, h.cells[t].lc, a);
    var j := LeftJoinNode(h, t1, h.cells[t].lc, k, keep + multiset{a});
    ghost var m2 := Now(h);
    SameShell(m1, m2, keep + multiset{a}, m2.book.shells, t);
    SameTree(m1, m2, keep + multiset{a}, m2.book.shells, a);
    WriteAt(h, t, h.cells[t].(lc := j));
    ghost var m3 := Now(h);
    r := RebalanceRightNode(h, t, j, keep);
    ghost var s := h.book.shells;
    SameTrans(m2, m3, Now(h), m2.book.handles, keep, m2.book.shells - {t}, s, keep, s);
    SameTrans(m1, m2, Now(h), keep + multiset{a}, keep, m2.book.shells, s, keep, s);
    SameTrans(m0, m1, Now(h), keep + multiset{t1}, keep, m0.book.shells, s, keep, s);
  }

  // The rebalancing in left_join (lines 74-79).
  method RebalanceRightNode(h: Heap, t: Ptr, j: Ptr, ghost keep: multiset<Ptr>) returns (r: Ptr)
    requires h.Valid() && t in h.book.shells && t in h.cells
    requires h.cells[t].lc == j && j in h.cells && h.cells[j].refCnt == 1
    requires j in h.book.trees && h.book.handles == keep + multiset{h.cells[t].rc} + multiset{j}
    modifies h
    ensures Joined(h, t, r, keep)
    ensures h.Tree(r) == old(RebalanceRight(Node(h.Tree(j), h.cells[t].entry, h.Tree(h.cells[t].rc))))
  {
    hide ExactCounts, Kept, Untouched, Same;
    ghost var a := h.cells[t].rc;
    h.HandleSize(a);
    h.HandleSize(j);
    if HeavierThan(h, j, h.cells[t].rc) {
      h.ChildSizes(j);
      ghost var m0 := Now(h);
      var single := OneRotation(h, j, h.cells[j].rc);
      TakeApart(h, j, keep + multiset{a});
      ghost var m1 := Now(h);
      SameTree(m0, m1, keep + multiset{a}, m0.book.shells, a);
      if single {
        assert h.book.handles == keep + multiset{a} + multiset{h.cells[j].rc} + multiset{h.cells[j].lc};
        r := RotateRightNode(h, t, j, keep);
      } else {
        r := DoubleRotateRightNode(h, t, j, keep);
      }
      SameTrans(m0, m1, Now(h), keep + multiset{a}, keep, m0.book.shells, h.book.shells, keep, h.book.shells);
    } else {
      assert h.book.handles == keep + multiset{j} + multiset{a};
      FinishAt(h, t, keep);
      r := t;
    }
  }

  // node_join (lines 91-94).
  method NodeJoinNode(h: Heap, t1: Ptr, t2: Ptr, k: Ptr, ghost keep: multiset<Ptr>) returns (r: Ptr)
    requires CanJoin(h, t1, t2, k, keep)
    modifies h
    ensures Joined(h, k, r, keep)
    ensures h.Tree(r) == old(NodeJoin(h.Tree(t1), h.Tree(t2), h.cells[k].entry))
  {
    hide ExactCounts;
    h.HandleSize(t1);
    h.HandleSize(t2);
    if HeavierThan(h, t1, t2) {
      r := RightJoinNode(h, t1, t2, k, keep);
    } else if HeavierThan(h, t2, t1) {
      r := LeftJoinNode(h, t1, t2, k, keep);
    } else {
      r := BalancedJoin(h, t1, t2, k, keep);
    }
  }
}
