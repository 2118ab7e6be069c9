// What the operations on reference-counted trees promise together
// (comparison_systems/aspen/code/trees/map_ops.h over gc.h): the result is the map operation on a balanced
// search tree, every other snapshot is as before, and the nodes left in memory are exactly those that
// the held handles reach along the child pointers.
module HeapResults {
  import opened WeightBalanced
  import opened TreeMaps
  import opened TreeHeap
  import opened HeapMaps
  import opened HeapSets
  import opened HeapUnion
  import opened HeapBulk

  // The node that a path of left and right turns leads to.
  ghost function Follow(cells: map<Ptr, Cell>, p: Ptr, path: seq<bool>): Ptr
    decreases |path|
  {
    if path == [] then p
    else if p !in cells then 0
    else Follow(cells, if path[0] then cells[p].rc else cells[p].lc, path[1..])
  }

  ghost predicate Reached(m: Mem, p: Ptr) { exists h, path :: h in m.book.handles && Follow(m.cells, h, path) == p }

  // The memory holds what is reachable and nothing else.
  ghost predicate OnlyReachable(m: Mem) { forall p :: p in m.cells <==> p != 0 && Reached(m, p) }

  // A node inside the tree at p is at the end of a path from p.
  lemma {:induction false} PathTo(m: Mem, p: Ptr, q: Ptr) returns (path: seq<bool>)
    requires Ok(m) && Inside(m.book.trees, p, q)
    ensures Follow(m.cells, p, path) == q
    decreases m.book.trees[p]
  {
    hide ExactCounts;
    Fields(m.cells, m.book, p);
    Fields(m.cells, m.book, q);
    var t, u := m.book.trees[p], m.book.trees[q];
    if t == u {
      path := [];
    } else if Has(t.l, u) {
      assert Inside(m.book.trees, m.cells[p].lc, q);
      var rest := PathTo(m, m.cells[p].lc, q);
      path := [false] + rest;
      assert path[1..] == rest;
    } else {
      assert t.PNode? && Has(t.r, u) && u.PNode?;
      assert Inside(m.book.trees, m.cells[p].rc, q);
      var rest := PathTo(m, m.cells[p].rc, q);
      path := [true] + rest;
      assert path[1..] == rest;
    }
  }

  lemma NullFree(m: Mem)
    requires Ok(m)
    ensures 0 !in m.cells
  {
  }

  lemma {:induction false} PathStays(m: Mem, p: Ptr, path: seq<bool>)
    requires Ok(m) && (p != 0 ==> p in m.book.trees)
    ensures Follow(m.cells, p, path) != 0 ==> Follow(m.cells, p, path) in m.book.trees
    decreases |path|
  {
    NullFree(m);
    hide ExactCounts;
    if p != 0 && path != [] {
      Fields(m.cells, m.book, p);
      PathStays(m, if path[0] then m.cells[p].rc else m.cells[p].lc, path[1..]);
    }
  }

  // With no operation running, exact counts mean that nothing is lost and nothing dangles.
  lemma LiveIsReachable(m: Mem)
    requires Ok(m) && m.book.shells == {}
    ensures OnlyReachable(m)
  {
    forall p
      ensures p in m.cells <==> p != 0 && Reached(m, p)
    {
      if p in m.cells {
        Reachable(m.cells, m.book, p);
        var h :| h in m.book.handles && Inside(m.book.trees, h, p);
        var path := PathTo(m, h, p);
      }
      if p != 0 && Reached(m, p) {
        var h, path :| h in m.book.handles && Follow(m.cells, h, path) == p;
        PathStays(m, h, path);
      }
    }
  }

  // What an operation leaves behind.
  ghost predicate Finished(was: Mem, now: Mem, o: Ptr, keep: multiset<Ptr>)
  {
    && now.book.handles == keep + multiset{o} && OnlyReachable(now)
    && forall p :: p in keep ==> TreeOf(now, p) == TreeOf(was, p)
  }

  lemma ReturnedFinished(was: Mem, now: Mem, o: Ptr, keep: multiset<Ptr>)
    requires Returned(was, now, o, keep) && was.book.shells == {}
    ensures Finished(was, now, o, keep)
  {
    LiveIsReachable(now);
    hide Ok, OnlyReachable;
    forall p | p in keep
      ensures TreeOf(now, p) == TreeOf(was, p)
    {
      SameTree(was, now, keep, was.book.shells, p);
    }
  }

  method UnionMaps(h: Heap, b1: Ptr, b2: Ptr, op: Op, extra: bool, ghost keep: multiset<Ptr>) returns (o: Ptr)
    requires BothPassed(Now(h), b1, false, b2, extra, keep) && h.book.shells == {}
    requires Good(TreeOf(Now(h), b1)) && Good(TreeOf(Now(h), b2))
    modifies h
    ensures Finished(old(Now(h)), Now(h), o, keep) && Good(TreeOf(Now(h), o))
    ensures forall x :: Lookup(TreeOf(Now(h), o), x)
                        == UnionValue(Lookup(old(TreeOf(Now(h), b1)), x), Lookup(old(TreeOf(Now(h), b2)), x), op)
  {
    hide Ok, OnlyReachable, Union, Good, Same, Borrowed;
    ghost var m0 := Now(h);
    UnionCorrect(TreeOf(m0, b1), TreeOf(m0, b2), op);
    o := UnionNode(h, b1, b2, op, extra, keep);
    ReturnedFinished(m0, Now(h), o, keep);
  }

  method InsertMap(h: Heap, b: Ptr, e: Entry, op: Op, extra: bool, ghost keep: multiset<Ptr>) returns (o: Ptr)
    requires Passed(Now(h), b, extra, keep) && h.book.shells == {} && Good(TreeOf(Now(h), b))
    modifies h
    ensures Finished(old(Now(h)), Now(h), o, keep) && Good(TreeOf(Now(h), o))
    ensures forall x ::
              var v := Lookup(old(TreeOf(Now(h), b)), x);
              Lookup(TreeOf(Now(h), o), x) == if x == e.key then Some(Combined(op, v, e.val)) else v
  {
    hide Ok, OnlyReachable, Insert, Good, Same, Borrowed;
    ghost var m0 := Now(h);
    InsertCorrect(TreeOf(m0, b), e, op);
    o := InsertNode(h, b, e, op, extra, keep);
    ReturnedFinished(m0, Now(h), o, keep);
  }

  method DeleteMap(h: Heap, b: Ptr, key: int, extra: bool, ghost keep: multiset<Ptr>) returns (o: Ptr)
    requires Passed(Now(h), b, extra, keep) && h.book.shells == {} && Good(TreeOf(Now(h), b))
    modifies h
    ensures Finished(old(Now(h)), Now(h), o, keep) && Good(TreeOf(Now(h), o))
    ensures forall x :: Lookup(TreeOf(Now(h), o), x) == if x == key then None else Lookup(old(TreeOf(Now(h), b)), x)
  {
    hide Ok, OnlyReachable, Delete, Good, Same, Borrowed;
    ghost var m0 := Now(h);
    DeleteCorrect(TreeOf(m0, b), key);
    o := DeleteNode(h, b, key, extra, keep);
    ReturnedFinished(m0, Now(h), o, keep);
  }

  method IntersectMaps(h: Heap, b1: Ptr, b2: Ptr, op: Op, extra: bool, ghost keep: multiset<Ptr>) returns (o: Ptr)
    requires BothPassed(Now(h), b1, false, b2, extra, keep) && h.book.shells == {}
    requires Good(TreeOf(Now(h), b1)) && Good(TreeOf(Now(h), b2))
    modifies h
    ensures Finished(old(Now(h)), Now(h), o, keep) && Good(TreeOf(Now(h), o))
    ensures forall x :: Lookup(TreeOf(Now(h), o), x)
                        == IntersectValue(Lookup(old(TreeOf(Now(h), b1)), x), Lookup(old(TreeOf(Now(h), b2)), x), op)
  {
    hide Ok, OnlyReachable, Intersect, Good, Same, Borrowed;
    ghost var m0 := Now(h);
    IntersectCorrect(TreeOf(m0, b1), TreeOf(m0, b2), op);
    o := IntersectNode(h, b1, b2, op, extra, keep);
    ReturnedFinished(m0, Now(h), o, keep);
  }

  method DifferenceMaps(h: Heap, b1: Ptr, b2: Ptr, extra: bool, ghost keep: multiset<Ptr>) returns (o: Ptr)
    requires BothPassed(Now(h), b1, extra, b2, false, keep) && h.book.shells == {}
    requires Good(TreeOf(Now(h), b1)) && Good(TreeOf(Now(h), b2))
    modifies h
    ensures Finished(old(Now(h)), Now(h), o, keep) && Good(TreeOf(Now(h), o))
    ensures forall x :: Lookup(TreeOf(Now(h), o), x)
                        == if Lookup(old(TreeOf(Now(h), b2)), x).Some? then None else Lookup(old(TreeOf(Now(h), b1)), x)
  {
    hide Ok, OnlyReachable, Difference, Good, Same, Borrowed;
    ghost var m0 := Now(h);
    DifferenceCorrect(TreeOf(m0, b1), TreeOf(m0, b2));
    o := DifferenceNode(h, b1, b2, extra, keep);
    ReturnedFinished(m0, Now(h), o, keep);
  }

  method MultiInsertMap(h: Heap, b: Ptr, s: seq<Entry>, op: Op, extra: bool, ghost keep: multiset<Ptr>) returns (o: Ptr)
    requires Passed(Now(h), b, extra, keep) && h.book.shells == {} && Good(TreeOf(Now(h), b)) && Sorted(s)
    modifies h
    ensures Finished(old(Now(h)), Now(h), o, keep) && Good(TreeOf(Now(h), o))
    ensures Merged(TreeOf(Now(h), o), old(TreeOf(Now(h), b)), s, op)
  {
    hide Ok, OnlyReachable, MultiInsert, Good, Same, Borrowed, Merged;
    ghost var m0 := Now(h);
    MultiInsertCorrect(TreeOf(m0, b), s, op);
    o := MultiInsertNode(h, b, s, op, extra, keep);
    ReturnedFinished(m0, Now(h), o, keep);
  }

  method FilterMap(h: Heap, b: Ptr, f: Entry -> bool, extra: bool, ghost keep: multiset<Ptr>) returns (o: Ptr)
    requires Passed(Now(h), b, extra, keep) && h.book.shells == {} && Good(TreeOf(Now(h), b))
    modifies h
    ensures Finished(old(Now(h)), Now(h), o, keep) && Good(TreeOf(Now(h), o))
    ensures Filtered(TreeOf(Now(h), o), old(TreeOf(Now(h), b)), f)
  {
    hide Ok, OnlyReachable, Filter, Good, Same, Borrowed, Filtered;
    ghost var m0 := Now(h);
    FilterCorrect(TreeOf(m0, b), f);
    o := FilterNode(h, b, f, extra, keep);
    ReturnedFinished(m0, Now(h), o, keep);
  }
}
