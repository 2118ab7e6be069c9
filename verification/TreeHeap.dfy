// The reference-counted nodes under the trees: comparison_systems/aspen/code/trees/basic_node.h and gc.h.
// Reference counts are exact: every live node has as many references as there are child pointers
// and held handles pointing to it.
module TreeHeap {
  import opened WeightBalanced
  import opened TreeMaps
  import opened Collections

  // Pointers; 0 is NULL.
  type Ptr = nat

  datatype Cell = Cell(lc: Ptr, rc: Ptr, entry: Entry, s: nat, refCnt: nat)

  // A child pointer that counts as a reference.
  datatype Edge = Edge(src: Ptr, right: bool)

  // The tree below a node, with the identity of every node in it.
  datatype PTree = PLeaf | PNode(ptr: Ptr, l: PTree, e: Entry, r: PTree)

  // The bookkeeping that the reference counts stand for.
  // handles: references held outside the nodes, by live snapshots and by the running operation;
  // shells: nodes under construction, owned by the operation, whose child pointers do not count yet;
  // trees: the tree below each finished node; incoming: the child pointers that point to it.
  datatype Book = Book(handles: multiset<Ptr>, shells: set<Ptr>, trees: map<Ptr, PTree>, incoming: map<Ptr, set<Edge>>)

  function Val(t: PTree): Tree {
    if t.PLeaf? then Leaf else Node(Val(t.l), t.e, Val(t.r))
  }

  function At(trees: map<Ptr, PTree>, p: Ptr): PTree {
    if p in trees then trees[p] else PLeaf
  }

  ghost predicate Linked(b: Book, child: Ptr, e: Edge) {
    child != 0 ==> child in b.trees && child in b.incoming && e in b.incoming[child]
  }

  ghost predicate NodeOk(cells: map<Ptr, Cell>, b: Book, p: Ptr) {
    p in cells && p in b.trees && p in b.incoming &&
    var c := cells[p];
    && c.refCnt == b.handles[p] + |b.incoming[p]|
    && c.refCnt >= 1
    && Linked(b, c.lc, Edge(p, false))
    && Linked(b, c.rc, Edge(p, true))
    && b.trees[p] == PNode(p, At(b.trees, c.lc), c.entry, At(b.trees, c.rc))
    && c.s == Size(Val(b.trees[p]))
  }

  ghost predicate EdgeOk(cells: map<Ptr, Cell>, b: Book, p: Ptr, e: Edge) {
    && e.src in b.trees && e.src in cells
    && p == (if e.right then cells[e.src].rc else cells[e.src].lc)
  }

  ghost predicate Domains(cells: map<Ptr, Cell>, b: Book) {
    && 0 !in cells
    && cells.Keys == b.trees.Keys + b.shells
    && b.trees.Keys !! b.shells
    && b.incoming.Keys == b.trees.Keys
    && (forall p :: p in b.handles && p != 0 ==> p in b.trees)
    && (forall p :: p in b.shells ==> cells[p].refCnt == 1)
  }

  // Counts are exact, and every finished node is referenced.
  ghost predicate ExactCounts(cells: map<Ptr, Cell>, b: Book) {
    && Domains(cells, b)
    && (forall p {:trigger NodeOk(cells, b, p)} :: p in b.trees ==> NodeOk(cells, b, p))
    && (forall p, e {:trigger EdgeOk(cells, b, p, e)} ::
          p in b.incoming && e in b.incoming[p] ==> EdgeOk(cells, b, p, e))
  }

  // ---- Dismantling and sealing a node ----

  function Unlink(incoming: map<Ptr, set<Edge>>, p: Ptr, e: Edge): map<Ptr, set<Edge>> {
    if p in incoming then incoming[p := incoming[p] - {e}] else incoming
  }

  function Link(incoming: map<Ptr, set<Edge>>, p: Ptr, e: Edge): map<Ptr, set<Edge>> {
    if p in incoming then incoming[p := incoming[p] + {e}] else incoming
  }

  lemma UnlinkAt(incoming: map<Ptr, set<Edge>>, p: Ptr, e: Edge, q: Ptr)
    requires q in incoming && (p == q ==> e in incoming[q])
    ensures q in Unlink(incoming, p, e)
    ensures forall x :: x in Unlink(incoming, p, e)[q] <==> x in incoming[q] && !(p == q && x == e)
    ensures |Unlink(incoming, p, e)[q]| == |incoming[q]| - (if p == q then 1 else 0)
  {
  }

  lemma LinkAt(incoming: map<Ptr, set<Edge>>, p: Ptr, e: Edge, q: Ptr)
    requires q in incoming && (p == q ==> e !in incoming[q])
    ensures q in Link(incoming, p, e)
    ensures forall x :: x in Link(incoming, p, e)[q] <==> x in incoming[q] || (p == q && x == e)
    ensures |Link(incoming, p, e)[q]| == |incoming[q]| + (if p == q then 1 else 0)
  {
  }

  // The only reference to p is a handle: p becomes a shell, its child pointers become handles.
  ghost function Dismantled(c: Cell, b: Book, p: Ptr, keep: multiset<Ptr>): Book {
    Book(keep + multiset{c.lc} + multiset{c.rc}, b.shells + {p}, b.trees - {p},
         Unlink(Unlink(b.incoming, c.lc, Edge(p, false)), c.rc, Edge(p, true)) - {p})
  }

  lemma DismantledIncoming(c: Cell, b: Book, p: Ptr, keep: multiset<Ptr>, q: Ptr)
    requires b.handles == keep + multiset{p} && Linked(b, c.lc, Edge(p, false)) && Linked(b, c.rc, Edge(p, true))
    requires q in b.incoming && q != p && q != 0
    ensures var n := Dismantled(c, b, p, keep);
            && q in n.incoming
            && |n.incoming[q]| + n.handles[q] == |b.incoming[q]| + b.handles[q]
            && forall x :: x in n.incoming[q] <==>
                 x in b.incoming[q] && !(c.lc == q && x == Edge(p, false)) && !(c.rc == q && x == Edge(p, true))
  {
    UnlinkAt(b.incoming, c.lc, Edge(p, false), q);
    UnlinkAt(Unlink(b.incoming, c.lc, Edge(p, false)), c.rc, Edge(p, true), q);
  }

  lemma DismantledNode(cells: map<Ptr, Cell>, b: Book, p: Ptr, keep: multiset<Ptr>, q: Ptr)
    requires NodeOk(cells, b, p) && b.incoming[p] == {} && b.handles == keep + multiset{p}
    requires NodeOk(cells, b, q) && q != p && q != 0 && 0 !in b.trees && b.incoming.Keys == b.trees.Keys
    ensures NodeOk(cells, Dismantled(cells[p], b, p, keep), q)
  {
    DismantledIncoming(cells[p], b, p, keep, q);
    var c := cells[q];
    if c.lc != 0 { DismantledIncoming(cells[p], b, p, keep, c.lc); }
    if c.rc != 0 { DismantledIncoming(cells[p], b, p, keep, c.rc); }
  }

  // A node with one reference, held by a handle, has no incoming child pointer.
  lemma SoleHandle(cells: map<Ptr, Cell>, b: Book, p: Ptr, keep: multiset<Ptr>)
    requires NodeOk(cells, b, p) && cells[p].refCnt == 1 && b.handles == keep + multiset{p}
    ensures b.incoming[p] == {} && p !in keep
  {
    assert b.handles[p] == keep[p] + 1;
  }

  lemma DismantledDomains(cells: map<Ptr, Cell>, b: Book, p: Ptr, keep: multiset<Ptr>)
    requires Domains(cells, b) && NodeOk(cells, b, p) && cells[p].refCnt == 1 && b.handles == keep + multiset{p}
    ensures Domains(cells, Dismantled(cells[p], b, p, keep))
  {
    SoleHandle(cells, b, p, keep);
    var c := cells[p];
    var n := Dismantled(c, b, p, keep);
    assert c.lc != p && c.rc != p;
    forall h | h in n.handles && h != 0 ensures h in n.trees {
      assert h in keep || h == c.lc || h == c.rc;
      assert h in keep ==> h in b.handles;
    }
    assert n.incoming.Keys == b.incoming.Keys - {p};
  }

  lemma DismantleValid(cells: map<Ptr, Cell>, b: Book, p: Ptr, keep: multiset<Ptr>)
    requires ExactCounts(cells, b) && p in b.trees && cells[p].refCnt == 1 && b.handles == keep + multiset{p}
    ensures p !in keep
    ensures ExactCounts(cells, Dismantled(cells[p], b, p, keep))
  {
    var n := Dismantled(cells[p], b, p, keep);
    var c := cells[p];
    assert NodeOk(cells, b, p);
    SoleHandle(cells, b, p, keep);
    DismantledDomains(cells, b, p, keep);
    forall q | q in n.trees ensures NodeOk(cells, n, q) {
      assert q in b.trees && q != p;
      assert NodeOk(cells, b, q);
      DismantledNode(cells, b, p, keep, q);
    }
    forall q, e | q in n.incoming && e in n.incoming[q] ensures EdgeOk(cells, n, q, e) {
      assert q in b.incoming && q != p;
      DismantledIncoming(c, b, p, keep, q);
      assert EdgeOk(cells, b, q, e);
      assert e.src in n.trees;
    }
  }

  // The shell p is finished: its child pointers, which were handles, count from now on.
  ghost function Sealed(c: Cell, b: Book, p: Ptr, keep: multiset<Ptr>): Book {
    Book(keep + multiset{p}, b.shells - {p},
         b.trees[p := PNode(p, At(b.trees, c.lc), c.entry, At(b.trees, c.rc))],
         Link(Link(b.incoming[p := {}], c.lc, Edge(p, false)), c.rc, Edge(p, true)))
  }

  ghost predicate CanSeal(cells: map<Ptr, Cell>, b: Book, p: Ptr, keep: multiset<Ptr>) {
    p in b.shells && p in cells &&
    var c := cells[p];
    && b.handles == keep + multiset{c.lc} + multiset{c.rc}
    && c.s == Size(Val(At(b.trees, c.lc))) + Size(Val(At(b.trees, c.rc))) + 1
  }

  lemma SealedIncoming(cells: map<Ptr, Cell>, b: Book, p: Ptr, keep: multiset<Ptr>, q: Ptr)
    requires ExactCounts(cells, b) && CanSeal(cells, b, p, keep) && q in b.incoming
    ensures var n := Sealed(cells[p], b, p, keep); var c := cells[p];
            && q in n.incoming && q != p
            && |n.incoming[q]| + n.handles[q] == |b.incoming[q]| + b.handles[q]
            && forall x :: x in n.incoming[q] <==>
                 x in b.incoming[q] || (c.lc == q && x == Edge(p, false)) || (c.rc == q && x == Edge(p, true))
  {
    var c := cells[p];
    forall e | e in b.incoming[q] ensures e.src != p { assert EdgeOk(cells, b, q, e); }
    hide ExactCounts;
    LinkAt(b.incoming[p := {}], c.lc, Edge(p, false), q);
    LinkAt(Link(b.incoming[p := {}], c.lc, Edge(p, false)), c.rc, Edge(p, true), q);
  }

  lemma SealedNew(cells: map<Ptr, Cell>, b: Book, p: Ptr, keep: multiset<Ptr>)
    requires Domains(cells, b) && CanSeal(cells, b, p, keep)
    ensures var n := Sealed(cells[p], b, p, keep);
            && p in n.incoming && n.incoming[p] == {} && n.handles[p] == 1
            && n.incoming.Keys == n.trees.Keys
            && cells[p].lc != p && cells[p].rc != p
  {
    var c := cells[p];
    assert c.lc in b.handles && c.rc in b.handles && p !in b.handles;
    assert p !in keep by { assert keep[p] <= b.handles[p]; }
  }

  lemma SealedNode(cells: map<Ptr, Cell>, b: Book, p: Ptr, keep: multiset<Ptr>, q: Ptr)
    requires ExactCounts(cells, b) && CanSeal(cells, b, p, keep) && q in b.trees
    ensures NodeOk(cells, Sealed(cells[p], b, p, keep), q)
  {
    assert NodeOk(cells, b, q);
    SealedIncoming(cells, b, p, keep, q);
    var c := cells[q];
    if c.lc != 0 { SealedIncoming(cells, b, p, keep, c.lc); }
    if c.rc != 0 { SealedIncoming(cells, b, p, keep, c.rc); }
  }

  lemma SealValid(cells: map<Ptr, Cell>, b: Book, p: Ptr, keep: multiset<Ptr>)
    requires ExactCounts(cells, b) && CanSeal(cells, b, p, keep)
    ensures ExactCounts(cells, Sealed(cells[p], b, p, keep))
  {
    var n := Sealed(cells[p], b, p, keep);
    var c := cells[p];
    SealedNew(cells, b, p, keep);
    forall q | q in n.trees ensures NodeOk(cells, n, q) {
      if q == p {
        if c.lc != 0 { SealedIncoming(cells, b, p, keep, c.lc); }
        if c.rc != 0 { SealedIncoming(cells, b, p, keep, c.rc); }
      } else {
        SealedNode(cells, b, p, keep, q);
      }
    }
    forall q, e | q in n.incoming && e in n.incoming[q] ensures EdgeOk(cells, n, q, e) {
      if q != p {
        SealedIncoming(cells, b, p, keep, q);
        assert e in b.incoming[q] ==> EdgeOk(cells, b, q, e);
      }
    }
    SealedDomains(cells, b, p, keep);
  }

  lemma SealedDomains(cells: map<Ptr, Cell>, b: Book, p: Ptr, keep: multiset<Ptr>)
    requires Domains(cells, b) && CanSeal(cells, b, p, keep)
    ensures Domains(cells, Sealed(cells[p], b, p, keep))
  {
    var n := Sealed(cells[p], b, p, keep);
    SealedNew(cells, b, p, keep);
    forall h | h in n.handles && h != 0 ensures h in n.trees {
      assert h in keep || h == p;
      assert keep[h] <= b.handles[h];
    }
  }

  // ---- Counting a handle, and allocating, writing and freeing shells ----

  // A node's conditions depend on its own cell, its count of handles, and the recorded trees and edges.
  lemma NodeOkSame(cells: map<Ptr, Cell>, b: Book, cells': map<Ptr, Cell>, n: Book, q: Ptr)
    requires NodeOk(cells, b, q) && q in cells && q in cells' && n.trees == b.trees && n.incoming == b.incoming
    requires cells'[q] == cells[q].(refCnt := cells'[q].refCnt) && cells'[q].refCnt >= 1
    requires cells'[q].refCnt + b.handles[q] == cells[q].refCnt + n.handles[q]
    ensures NodeOk(cells', n, q)
  {
  }

  lemma EdgesSame(cells: map<Ptr, Cell>, b: Book, cells': map<Ptr, Cell>, n: Book)
    requires ExactCounts(cells, b) && n.trees == b.trees && n.incoming == b.incoming
    requires forall q :: q in b.trees ==> q in cells' && cells'[q].lc == cells[q].lc && cells'[q].rc == cells[q].rc
    ensures forall q, e {:trigger EdgeOk(cells', n, q, e)} ::
              q in n.incoming && e in n.incoming[q] ==> EdgeOk(cells', n, q, e)
  {
    forall q, e | q in n.incoming && e in n.incoming[q]
      ensures EdgeOk(cells', n, q, e)
    {
      assert EdgeOk(cells, b, q, e);
    }
  }

  lemma RecountDomains(cells: map<Ptr, Cell>, b: Book, p: Ptr, c: Cell, handles: multiset<Ptr>)
    requires Domains(cells, b) && p in b.trees && forall q :: q != p ==> handles[q] == b.handles[q]
    ensures Domains(cells[p := c], b.(handles := handles))
  {
    forall h | h in handles && h != 0 ensures h in b.trees { assert h != p ==> h in b.handles; }
  }

  lemma RecountValid(cells: map<Ptr, Cell>, b: Book, p: Ptr, handles: multiset<Ptr>)
    requires ExactCounts(cells, b) && p in b.trees
    requires forall q :: q != p ==> handles[q] == b.handles[q]
    requires cells[p].refCnt + handles[p] - b.handles[p] >= 1
    ensures
      ExactCounts(cells[p := cells[p].(refCnt := cells[p].refCnt + handles[p] - b.handles[p])], b.(handles := handles))
  {
    var c := cells[p].(refCnt := cells[p].refCnt + handles[p] - b.handles[p]);
    var cells', n := cells[p := c], b.(handles := handles);
    RecountDomains(cells, b, p, c, handles);
    forall q | q in n.trees ensures NodeOk(cells', n, q) {
      assert NodeOk(cells, b, q);
      NodeOkSame(cells, b, cells', n, q);
    }
    EdgesSame(cells, b, cells', n);
  }

  // Handles on NULL are not counted.
  lemma NullValid(cells: map<Ptr, Cell>, b: Book, handles: multiset<Ptr>)
    requires ExactCounts(cells, b) && forall q :: q != 0 ==> handles[q] == b.handles[q]
    ensures ExactCounts(cells, b.(handles := handles))
  {
    var n := b.(handles := handles);
    assert Domains(cells, n) by {
      forall h | h in handles && h != 0 ensures h in b.trees { assert h in b.handles; }
    }
    forall q | q in n.trees ensures NodeOk(cells, n, q) {
      assert NodeOk(cells, b, q);
      NodeOkSame(cells, b, cells, n, q);
    }
    EdgesSame(cells, b, cells, n);
  }

  lemma WriteValid(cells: map<Ptr, Cell>, b: Book, p: Ptr, c: Cell)
    requires ExactCounts(cells, b) && p != 0 && p !in b.trees && c.refCnt == 1
    ensures ExactCounts(cells[p := c], b.(shells := b.shells + {p}))
  {
    var cells', n := cells[p := c], b.(shells := b.shells + {p});
    assert Domains(cells', n);
    forall q | q in n.trees ensures NodeOk(cells', n, q) {
      assert NodeOk(cells, b, q);
      NodeOkSame(cells, b, cells', n, q);
    }
    EdgesSame(cells, b, cells', n);
  }

  lemma FreeValid(cells: map<Ptr, Cell>, b: Book, p: Ptr)
    requires ExactCounts(cells, b) && p in b.shells
    ensures ExactCounts(cells - {p}, b.(shells := b.shells - {p}))
  {
    var cells', n := cells - {p}, b.(shells := b.shells - {p});
    assert Domains(cells', n);
    forall q | q in n.trees ensures NodeOk(cells', n, q) {
      assert NodeOk(cells, b, q);
      NodeOkSame(cells, b, cells', n, q);
    }
    EdgesSame(cells, b, cells', n);
  }

  // ---- What stays the same ----

  // Every handle in keep still stands for the same tree: the same nodes with the same contents.
  ghost predicate Kept(was: Book, now: Book, keep: multiset<Ptr>) {
    forall h {:trigger At(now.trees, h)} :: h in keep ==> At(now.trees, h) == At(was.trees, h)
  }

  // The nodes in s, which the running operation is building, have not changed.
  ghost predicate Untouched(was: map<Ptr, Cell>, now: map<Ptr, Cell>, s: set<Ptr>) {
    forall p {:trigger now[p]} {:trigger p in now} :: p in s && p in was ==> p in now && now[p] == was[p]
  }

  predicate Has(t: PTree, u: PTree) {
    t == u || (t.PNode? && (Has(t.l, u) || Has(t.r, u)))
  }

  lemma {:induction false} HasTransitive(t: PTree, u: PTree, v: PTree)
    requires Has(t, u) && Has(u, v)
    ensures Has(t, v)
  {
    if t != u {
      if Has(t.l, u) { HasTransitive(t.l, u, v); } else { HasTransitive(t.r, u, v); }
    }
  }

  ghost predicate Inside(trees: map<Ptr, PTree>, h: Ptr, p: Ptr) {
    h in trees && p in trees && Has(trees[h], trees[p])
  }

  // A pointer that may be used without being counted: some handle in keep reaches it.
  ghost predicate Borrowed(b: Book, p: Ptr, keep: multiset<Ptr>) {
    p != 0 ==> exists h :: h in keep && Inside(b.trees, h, p)
  }

  function Root(t: PTree): Ptr { if t.PLeaf? then 0 else t.ptr }

  // What the fields of a finished node hold.
  lemma Fields(cells: map<Ptr, Cell>, b: Book, p: Ptr)
    requires ExactCounts(cells, b) && p in b.trees
    ensures p in cells && p != 0 && cells[p].refCnt >= 1
    ensures b.trees[p] == PNode(p, At(b.trees, cells[p].lc), cells[p].entry, At(b.trees, cells[p].rc))
    ensures cells[p].s == Size(Val(b.trees[p]))
    ensures cells[p].lc == Root(b.trees[p].l) && cells[p].rc == Root(b.trees[p].r)
    ensures cells[p].lc != 0 ==> cells[p].lc in b.trees
    ensures cells[p].rc != 0 ==> cells[p].rc in b.trees
  {
    assert NodeOk(cells, b, p);
    var c := cells[p];
    assert c.lc != 0 ==> NodeOk(cells, b, c.lc);
    assert c.rc != 0 ==> NodeOk(cells, b, c.rc);
  }

  // Everything inside the tree of a live node is live.
  lemma {:induction false} SubtreeLive(cells: map<Ptr, Cell>, b: Book, p: Ptr, u: PTree)
    requires ExactCounts(cells, b) && p in b.trees && Has(b.trees[p], u) && u.PNode?
    ensures u.ptr in b.trees && b.trees[u.ptr] == u
    decreases b.trees[p]
  {
    Fields(cells, b, p);
    if b.trees[p] != u {
      if Has(b.trees[p].l, u) { SubtreeLive(cells, b, cells[p].lc, u); } else { SubtreeLive(cells, b, cells[p].rc, u); }
    }
  }

  lemma BorrowHandle(b: Book, p: Ptr, keep: multiset<Ptr>)
    requires p in keep && (p != 0 ==> p in b.trees)
    ensures Borrowed(b, p, keep)
  {
    if p != 0 { assert Inside(b.trees, p, p); }
  }

  lemma BorrowMore(b: Book, p: Ptr, keep: multiset<Ptr>, more: multiset<Ptr>)
    requires Borrowed(b, p, keep) && keep <= more
    ensures Borrowed(b, p, more)
  {
    if p != 0 {
      var h :| h in keep && Inside(b.trees, h, p);
      assert h in more;
    }
  }

  lemma BorrowChildren(cells: map<Ptr, Cell>, b: Book, p: Ptr, keep: multiset<Ptr>)
    requires ExactCounts(cells, b) && p in b.trees && Borrowed(b, p, keep)
    ensures p in cells && Borrowed(b, cells[p].lc, keep) && Borrowed(b, cells[p].rc, keep)
  {
    Fields(cells, b, p);
    var h :| h in keep && Inside(b.trees, h, p);
    var c := cells[p];
    if c.lc != 0 {
      HasTransitive(b.trees[h], b.trees[p], b.trees[c.lc]);
      assert Inside(b.trees, h, c.lc);
    }
    if c.rc != 0 {
      HasTransitive(b.trees[h], b.trees[p], b.trees[c.rc]);
      assert Inside(b.trees, h, c.rc);
    }
  }

  // A borrowed pointer survives whatever keeps the handles it is borrowed from.
  lemma BorrowKept(was: Book, cells: map<Ptr, Cell>, now: Book, p: Ptr, keep: multiset<Ptr>)
    requires Borrowed(was, p, keep) && (p in was.trees ==> was.trees[p].PNode? && was.trees[p].ptr == p)
    requires ExactCounts(cells, now) && Kept(was, now, keep)
    ensures Borrowed(now, p, keep) && (p != 0 ==> At(now.trees, p) == At(was.trees, p))
  {
    if p != 0 {
      var h :| h in keep && Inside(was.trees, h, p);
      assert At(now.trees, h) == At(was.trees, h);
      assert Has(At(now.trees, h), was.trees[p]);
      SubtreeLive(cells, now, h, was.trees[p]);
      assert Inside(now.trees, h, p);
    }
  }

  // ---- Nothing leaks ----

  ghost function Larger(trees: map<Ptr, PTree>, n: nat): set<Ptr> {
    set q | q in trees && Size(Val(trees[q])) > n
  }

  // Every finished node is reachable from a handle: freed nodes are exactly the unreachable ones.
  lemma {:induction false} Reachable(cells: map<Ptr, Cell>, b: Book, p: Ptr)
    requires ExactCounts(cells, b) && p in b.trees
    ensures Borrowed(b, p, b.handles)
    decreases |Larger(b.trees, Size(Val(b.trees[p])))|
  {
    assert NodeOk(cells, b, p);
    if p in b.handles {
      BorrowHandle(b, p, b.handles);
    } else {
      var e :| e in b.incoming[p];
      assert EdgeOk(cells, b, p, e);
      var q := e.src;
      Fields(cells, b, q);
      var small, large := Larger(b.trees, Size(Val(b.trees[q]))), Larger(b.trees, Size(Val(b.trees[p])));
      assert q in large && q !in small && small <= large;
      assert small < large;
      CardinalityLess(small, large);
      Reachable(cells, b, q);
      BorrowChildren(cells, b, q, b.handles);
    }
  }

  lemma Bound(s: set<Ptr>) returns (m: Ptr)
    ensures forall q :: q in s ==> q <= m
  {
    if s == {} {
      m := 0;
    } else {
      var x :| x in s;
      m := Bound(s - {x});
      assert s == (s - {x}) + {x};
      if m < x { m := x; }
    }
  }

  // ---- The nodes ----

  class Heap {
    var cells: map<Ptr, Cell>
    ghost var book: Book

    ghost predicate Valid()
      reads this
    {
      ExactCounts(cells, book)
    }

    // The value of the tree at p.
    ghost function Tree(p: Ptr): WeightBalanced.Tree
      reads this
    {
      Val(At(book.trees, p))
    }

    // size (basic_node.h, lines 21-23).
    function SizeOf(p: Ptr): nat
      requires p != 0 ==> p in cells
      reads this
    {
      if p == 0 then 0 else cells[p].s
    }

    // make_node (lines 29-35) leaves the child pointers and the size uninitialised.
    method MakeNode(e: Entry) returns (o: Ptr)
      requires Valid()
      modifies this
      ensures Valid() && o != 0 && o !in old(cells) && o in cells && o !in old(book).shells && o !in book.trees
      ensures cells == old(cells)[o := cells[o]] && cells[o].entry == e
      ensures book == old(book).(shells := old(book).shells + {o})
    {
      ghost var m := Bound(cells.Keys);
      assert m + 1 !in cells;
      o :| o != 0 && o !in cells;
      var lc: Ptr, rc: Ptr, s: nat := *, *, *;
      WriteValid(cells, book, o, Cell(lc, rc, e, s, 1));
      cells := cells[o := Cell(lc, rc, e, s, 1)];
      book := book.(shells := book.shells + {o});
    }

    // An assignment to a field of a node under construction.
    method Write(p: Ptr, c: Cell)
      requires Valid() && p in book.shells && p in cells && c.refCnt == cells[p].refCnt
      modifies this`cells
      ensures Valid() && cells == old(cells)[p := c] && book == old(book)
    {
      WriteValid(cells, book, p, c);
      assert book == book.(shells := book.shells + {p});
      cells := cells[p := c];
    }

    // update (lines 25-27).
    method Update(p: Ptr)
      requires Valid() && p in book.shells && p in cells
      requires cells[p].lc != 0 ==> cells[p].lc in book.trees
      requires cells[p].rc != 0 ==> cells[p].rc in book.trees
      modifies this`cells
      ensures Valid()
      ensures var c := old(cells[p]);
              cells == old(cells)[p := c.(s := WeightBalanced.Size(Tree(c.lc)) + WeightBalanced.Size(Tree(c.rc)) + 1)]
    {
      var c := cells[p];
      SizeRight(c.lc);
      SizeRight(c.rc);
      Write(p, c.(s := SizeOf(c.lc) + SizeOf(c.rc) + 1));
    }

    lemma SizeRight(p: Ptr)
      requires Valid() && (p != 0 ==> p in book.trees)
      ensures p != 0 ==> p in cells
      ensures SizeOf(p) == WeightBalanced.Size(Tree(p))
    {
      if p != 0 { Fields(cells, book, p); }
    }

    // The only reference to p is the handle: from here on its child pointers are the operation's own.
    ghost method Dismantle(p: Ptr, keep: multiset<Ptr>)
      requires Valid() && p in book.trees && p in cells && cells[p].refCnt == 1
      requires book.handles == keep + multiset{p}
      modifies this`book
      ensures Valid() && book.shells == old(book).shells + {p} && p !in old(book).shells
      ensures book.handles == keep + multiset{cells[p].lc} + multiset{cells[p].rc}
      ensures Kept(old(book), book, keep)
      ensures old(book).trees[p] == PNode(p, At(book.trees, cells[p].lc), cells[p].entry, At(book.trees, cells[p].rc))
    {
      Fields(cells, book, p);
      DismantleValid(cells, book, p, keep);
      book := Dismantled(cells[p], book, p, keep);
      assert cells[p].lc in book.handles && cells[p].rc in book.handles;
    }

    // The shell p is finished.
    ghost method Seal(p: Ptr, keep: multiset<Ptr>)
      requires Valid() && CanSeal(cells, book, p, keep)
      modifies this`book
      ensures Valid() && book.shells == old(book).shells - {p} && book.handles == keep + multiset{p}
      ensures Kept(old(book), book, keep)
      ensures p in cells && cells[p].refCnt == 1
      ensures At(book.trees, p) ==
              PNode(p, At(old(book).trees, cells[p].lc), cells[p].entry, At(old(book).trees, cells[p].rc))
    {
      SealValid(cells, book, p, keep);
      SealedNew(cells, book, p, keep);
      assert p !in keep;
      book := Sealed(cells[p], book, p, keep);
    }

    // ---- gc.h ----

    // Drops a handle that is not the last reference, or frees a node under construction (lines 22-30).
    method Decrement(t: Ptr, ghost keep: multiset<Ptr>) returns (freed: bool)
      requires Valid() && t in cells
      requires t in book.shells || (cells[t].refCnt > 1 && book.handles == keep + multiset{t})
      modifies this
      ensures Valid() && freed == (old(cells[t].refCnt) == 1) && freed == (t in old(book).shells)
      ensures
        cells == if freed then old(cells) - {t} else old(cells)[t := old(cells[t]).(refCnt := old(cells[t].refCnt) - 1)]
      ensures book == if freed then old(book).(shells := old(book).shells - {t}) else old(book).(handles := keep)
    {
      var before := cells[t].refCnt;
      if before == 1 {
        FreeValid(cells, book, t);
        cells := cells - {t};
        book := book.(shells := book.shells - {t});
        freed := true;
      } else {
        assert t in book.trees;
        RecountValid(cells, book, t, keep);
        assert book.handles[t] == keep[t] + 1;
        cells := cells[t := cells[t].(refCnt := before - 1)];
        book := book.(handles := keep);
        freed := false;
      }
    }

    // Drops the handle on t; a node whose last reference goes is freed, and its children are
    // dropped in turn (lines 34-45).
    method DecrementRecursive(t: Ptr, ghost keep: multiset<Ptr>)
      requires Valid() && book.handles == keep + multiset{t}
      modifies this
      ensures Valid() && book.handles == keep && book.shells == old(book).shells
      ensures Kept(old(book), book, keep) && Untouched(old(cells), cells, book.shells)
      decreases At(book.trees, t)
    {
      hide ExactCounts;
      if t == 0 {
        NullValid(cells, book, keep);
        book := book.(handles := keep);
        return;
      }
      Live(t);
      var lsub, rsub := cells[t].lc, cells[t].rc;
      if cells[t].refCnt == 1 { Dismantle(t, keep); }
      var freed := Decrement(t, keep);
      if freed {
        DecrementRecursive(lsub, keep + multiset{rsub});
        DecrementRecursive(rsub, keep);
      }
    }

    // A handle is NULL or a finished node.
    lemma Live(p: Ptr)
      requires Valid() && p in book.handles && p != 0
      ensures p in book.trees && p in cells && p !in book.shells && cells[p].refCnt >= 1
      ensures book.trees[p] == PNode(p, At(book.trees, cells[p].lc), cells[p].entry, At(book.trees, cells[p].rc))
      ensures cells[p].lc != 0 ==> cells[p].lc in book.trees
      ensures cells[p].rc != 0 ==> cells[p].rc in book.trees
      ensures cells[p].lc == Root(book.trees[p].l) && cells[p].rc == Root(book.trees[p].r)
    {
      Fields(cells, book, p);
    }

    // increment and inc (lines 48-54).
    method Increment(t: Ptr)
      requires Valid() && (t != 0 ==> t in book.trees)
      modifies this
      ensures Valid() && book == old(book).(handles := old(book).handles + multiset{t})
      ensures Untouched(old(cells), cells, book.shells)
    {
      ghost var handles := book.handles + multiset{t};
      if t != 0 {
        Fields(cells, book, t);
        RecountValid(cells, book, t, handles);
        cells := cells[t := cells[t].(refCnt := cells[t].refCnt + 1)];
      } else {
        NullValid(cells, book, handles);
      }
      book := book.(handles := handles);
    }

    // copy (lines 58-63): the copy is under construction and shares the children.
    method Copy(t: Ptr) returns (o: Ptr)
      requires Valid() && t != 0 && t in book.handles
      modifies this
      ensures Valid() && book.shells == old(book).shells + {o} && o !in old(book).shells && o in cells
      ensures book.handles == old(book).handles + multiset{cells[o].lc} + multiset{cells[o].rc}
      ensures book.trees == old(book).trees && Untouched(old(cells), cells, old(book).shells)
      ensures Tree(t) == Node(Tree(cells[o].lc), cells[o].entry, Tree(cells[o].rc))
    {
      hide ExactCounts;
      Live(t);
      o := MakeNode(cells[t].entry);
      Live(t);
      Increment(cells[t].lc);
      Live(t);
      Write(o, cells[o].(lc := cells[t].lc));
      Increment(cells[t].rc);
      Live(t);
      Write(o, cells[o].(rc := cells[t].rc));
    }

    // copy_if_needed (lines 68-75). The result is under construction: a node that is not shared is
    // reused, a shared one is copied.
    method CopyIfNeeded(t: Ptr, ghost keep: multiset<Ptr>) returns (o: Ptr)
      requires Valid() && t != 0 && book.handles == keep + multiset{t}
      modifies this
      ensures Valid() && book.shells == old(book).shells + {o} && o !in old(book).shells && o in cells
      ensures book.handles == keep + multiset{cells[o].lc} + multiset{cells[o].rc}
      ensures Kept(old(book), book, keep) && Untouched(old(cells), cells, old(book).shells)
      ensures old(Tree(t)) == Node(Tree(cells[o].lc), cells[o].entry, Tree(cells[o].rc))
    {
      hide ExactCounts;
      Live(t);
      o := t;
      if cells[t].refCnt > 1 {
        o := Copy(t);
        ghost var more := keep + multiset{cells[o].lc} + multiset{cells[o].rc};
        assert book.handles == more + multiset{t};
        DecrementRecursive(t, more);
      } else {
        Dismantle(t, keep);
      }
    }

    // update, the last step in the building of a node: its children are in place, and from here on
    // they count as referenced by it.
    method Finish(p: Ptr, ghost keep: multiset<Ptr>)
      requires Valid() && p in book.shells && p in cells
      requires book.handles == keep + multiset{cells[p].lc} + multiset{cells[p].rc}
      modifies this
      ensures Valid() && book.shells == old(book).shells - {p} && book.handles == keep + multiset{p}
      ensures Kept(old(book), book, keep) && Untouched(old(cells), cells, book.shells)
      ensures p in cells && cells[p].refCnt == 1 && p in book.trees
      ensures Tree(p) == old(Node(Tree(cells[p].lc), cells[p].entry, Tree(cells[p].rc)))
    {
      hide ExactCounts;
      HandlesLive();
      Update(p);
      Seal(p, keep);
      HandlesLive();
    }

    // single (basic_node.h, lines 37-41).
    method Single(e: Entry) returns (r: Ptr)
      requires Valid()
      modifies this
      ensures Valid() && book.shells == old(book).shells && book.handles == old(book).handles + multiset{r}
      ensures Kept(old(book), book, old(book).handles) && Untouched(old(cells), cells, book.shells)
      ensures Tree(r) == Node(Leaf, e, Leaf)
    {
      hide ExactCounts;
      r := MakeNode(e);
      Write(r, cells[r].(lc := 0, rc := 0, s := 1));
      ghost var handles := book.handles;
      NullValid(cells, book, handles + multiset{0} + multiset{0});
      book := book.(handles := handles + multiset{0} + multiset{0});
      NoNull();
      Seal(r, handles);
    }

    lemma HandlesLive()
      requires Valid()
      ensures forall p :: p in book.handles && p != 0 ==> p in book.trees
    {
    }

    lemma HandleSize(p: Ptr)
      requires Valid() && p in book.handles
      ensures p != 0 ==> p in cells && p in book.trees
      ensures SizeOf(p) == WeightBalanced.Size(Tree(p)) && (p == 0 <==> Tree(p) == Leaf)
    {
      if p != 0 { Fields(cells, book, p); }
    }

    lemma ChildSizes(p: Ptr)
      requires Valid() && p in book.trees
      ensures p in cells && Tree(p) == Node(Tree(cells[p].lc), cells[p].entry, Tree(cells[p].rc))
      ensures cells[p].lc != 0 ==> cells[p].lc in cells
      ensures cells[p].rc != 0 ==> cells[p].rc in cells
      ensures SizeOf(cells[p].lc) == WeightBalanced.Size(Tree(cells[p].lc))
      ensures cells[p].lc == 0 <==> Tree(cells[p].lc) == Leaf
      ensures SizeOf(cells[p].rc) == WeightBalanced.Size(Tree(cells[p].rc))
      ensures cells[p].rc == 0 <==> Tree(cells[p].rc) == Leaf
    {
      Fields(cells, book, p);
      if cells[p].lc != 0 { Fields(cells, book, cells[p].lc); }
      if cells[p].rc != 0 { Fields(cells, book, cells[p].rc); }
    }

    // A NULL argument is used up without any count changing.
    ghost method DropNull(keep: multiset<Ptr>)
      requires Valid() && book.handles == keep + multiset{0}
      modifies this`book
      ensures Valid() && book == old(book).(handles := keep)
    {
      NullValid(cells, book, keep);
      book := book.(handles := keep);
    }

    // NULL as a result, or kept by one more owner.
    ghost method HoldNull()
      requires Valid()
      modifies this`book
      ensures Valid() && book == old(book).(handles := old(book).handles + multiset{0})
    {
      NullValid(cells, book, book.handles + multiset{0});
      book := book.(handles := book.handles + multiset{0});
    }

    lemma ShellCount(p: Ptr)
      requires Valid() && p in book.shells
      ensures p in cells && cells[p].refCnt == 1
    {
    }

    lemma NoNull()
      requires Valid()
      ensures 0 !in book.trees && At(book.trees, 0) == PLeaf
    {
    }
  }

  // ---- The heap as a value ----

  datatype Mem = Mem(cells: map<Ptr, Cell>, book: Book)

  ghost function Now(h: Heap): Mem
    reads h
  {
    Mem(h.cells, h.book)
  }

  ghost predicate Ok(m: Mem) { ExactCounts(m.cells, m.book) }

  ghost function TreeOf(m: Mem, p: Ptr): Tree { Val(At(m.book.trees, p)) }

  // The trees of the handles in keep and the nodes in s, which are being built, are the same.
  ghost predicate Same(was: Mem, now: Mem, keep: multiset<Ptr>, s: set<Ptr>) {
    Kept(was.book, now.book, keep) && Untouched(was.cells, now.cells, s)
  }

  lemma SameTrans(m0: Mem, m1: Mem, m2: Mem, k1: multiset<Ptr>, k2: multiset<Ptr>, s1: set<Ptr>, s2: set<Ptr>,
                  keep: multiset<Ptr>, s: set<Ptr>)
    requires Same(m0, m1, k1, s1) && Same(m1, m2, k2, s2)
    requires keep <= k1 && keep <= k2 && s <= s1 && s <= s2
    ensures Same(m0, m2, keep, s)
  {
    forall h | h in keep ensures At(m2.book.trees, h) == At(m0.book.trees, h) {
      assert h in k1 && h in k2;
      assert At(m1.book.trees, h) == At(m0.book.trees, h);
    }
  }

  lemma SameLess(m0: Mem, m1: Mem, k1: multiset<Ptr>, s1: set<Ptr>, keep: multiset<Ptr>, s: set<Ptr>)
    requires Same(m0, m1, k1, s1) && keep <= k1 && s <= s1
    ensures Same(m0, m1, keep, s)
  {
    forall h | h in keep ensures At(m1.book.trees, h) == At(m0.book.trees, h) { assert h in k1; }
  }

  lemma SameTree(m0: Mem, m1: Mem, keep: multiset<Ptr>, s: set<Ptr>, p: Ptr)
    requires Same(m0, m1, keep, s) && p in keep
    ensures At(m1.book.trees, p) == At(m0.book.trees, p)
  {
  }

  lemma SameShell(was: Mem, now: Mem, keep: multiset<Ptr>, s: set<Ptr>, p: Ptr)
    requires Same(was, now, keep, s) && p in s && p in was.cells
    ensures p in now.cells && now.cells[p] == was.cells[p]
  {
  }

  lemma Swap(k: multiset<Ptr>, a: Ptr, b: Ptr)
    ensures k + multiset{a} + multiset{b} == k + multiset{b} + multiset{a}
  {
  }

  lemma LastFirst(k: multiset<Ptr>, a: Ptr, b: Ptr, c: Ptr)
    ensures k + multiset{a} + multiset{b} + multiset{c} == k + multiset{c} + multiset{a} + multiset{b}
  {
  }

  lemma SameSelf(m: Mem, keep: multiset<Ptr>, s: set<Ptr>)
    ensures Same(m, m, keep, s)
  {
  }
}
