// The map operations of comparison_systems/aspen/code/trees/map_ops.h and sequence_ops.h on
// weight-balanced trees, as functions: what they compute when no node is shared. HeapMaps, HeapSets,
// HeapUnion and HeapBulk prove that the reference-counted code computes exactly these functions.
module TreeMaps {
  import opened WeightBalanced

  type Op = (int, int) -> int

  datatype Option = None | Some(value: int)

  // ---- What a tree means ----

  // find (map_ops.h, lines 23-30): the finite map a search tree stands for.
  function Lookup(t: Tree, k: int): Option {
    if t.Leaf? then None
    else if k < t.e.key then Lookup(t.l, k)
    else if t.e.key < k then Lookup(t.r, k)
    else Some(t.e.val)
  }

  ghost predicate Below(t: Tree, k: int) { forall x :: Lookup(t, x).Some? ==> x < k }

  ghost predicate Above(t: Tree, k: int) { forall x :: Lookup(t, x).Some? ==> k < x }

  // Search order.
  ghost predicate Ordered(t: Tree) {
    t.Node? ==> Ordered(t.l) && Ordered(t.r) && Below(t.l, t.e.key) && Above(t.r, t.e.key)
  }

  // A balanced search tree.
  ghost predicate Good(t: Tree) { Ordered(t) && Balanced(t) }

  ghost predicate SameMap(t: Tree, u: Tree) { forall x :: Lookup(t, x) == Lookup(u, x) }

  // ---- join ----

  // Bounds of an ordered tree are bounds of its root and its subtrees.
  lemma BelowParts(t: Tree, k: int)
    requires Ordered(t) && t.Node?
    ensures Below(t, k) <==> Below(t.l, k) && t.e.key < k && Below(t.r, k)
  {
    if Below(t, k) {
      assert Lookup(t, t.e.key).Some?;
      forall x | Lookup(t.l, x).Some? ensures x < k { assert Lookup(t, x) == Lookup(t.l, x); }
      forall x | Lookup(t.r, x).Some? ensures x < k { assert Lookup(t, x) == Lookup(t.r, x); }
    } else {
      var x :| Lookup(t, x).Some? && x >= k;
      assert x < t.e.key ==> Lookup(t.l, x).Some?;
      assert t.e.key < x ==> Lookup(t.r, x).Some?;
    }
  }

  lemma AboveParts(t: Tree, k: int)
    requires Ordered(t) && t.Node?
    ensures Above(t, k) <==> Above(t.l, k) && k < t.e.key && Above(t.r, k)
  {
    if Above(t, k) {
      assert Lookup(t, t.e.key).Some?;
      forall x | Lookup(t.l, x).Some? ensures k < x { assert Lookup(t, x) == Lookup(t.l, x); }
      forall x | Lookup(t.r, x).Some? ensures k < x { assert Lookup(t, x) == Lookup(t.r, x); }
    } else {
      var x :| Lookup(t, x).Some? && x <= k;
      assert x < t.e.key ==> Lookup(t.l, x).Some?;
      assert t.e.key < x ==> Lookup(t.r, x).Some?;
    }
  }

  lemma RotateLeftMap(t: Tree)
    requires Ordered(t) && t.Node? && t.r.Node?
    ensures Ordered(RotateLeft(t)) && SameMap(RotateLeft(t), t)
  {
    AboveParts(t.r, t.e.key);
    BelowParts(Node(t.l, t.e, t.r.l), t.r.e.key);
  }

  lemma RotateRightMap(t: Tree)
    requires Ordered(t) && t.Node? && t.l.Node?
    ensures Ordered(RotateRight(t)) && SameMap(RotateRight(t), t)
  {
    BelowParts(t.l, t.e.key);
    AboveParts(Node(t.l.r, t.e, t.r), t.l.e.key);
  }

  lemma RebalanceLeftMap(t: Tree)
    requires Ordered(t) && t.Node?
    ensures Ordered(RebalanceLeft(t)) && SameMap(RebalanceLeft(t), t)
  {
    if LeftHeavy(t.r, t.l) {
      if SingleRotation(t.r, t.r.l) {
        RotateLeftMap(t);
      } else {
        RotateRightMap(t.r);
        RotateLeftMap(Node(t.l, t.e, RotateRight(t.r)));
      }
    }
  }

  lemma RebalanceRightMap(t: Tree)
    requires Ordered(t) && t.Node?
    ensures Ordered(RebalanceRight(t)) && SameMap(RebalanceRight(t), t)
  {
    if LeftHeavy(t.l, t.r) {
      if SingleRotation(t.l, t.l.r) {
        RotateRightMap(t);
      } else {
        RotateLeftMap(t.l);
        RotateRightMap(Node(RotateLeft(t.l), t.e, t.r));
      }
    }
  }

  lemma {:induction false} RightJoinMap(t1: Tree, t2: Tree, k: Entry)
    requires Ordered(Node(t1, k, t2))
    ensures Ordered(RightJoin(t1, t2, k)) && SameMap(RightJoin(t1, t2, k), Node(t1, k, t2))
    decreases t1
  {
    if LeftHeavy(t1, t2) {
      BelowParts(t1, k.key);
      AboveParts(Node(t1.r, k, t2), t1.e.key);
      RightJoinMap(t1.r, t2, k);
      var n := Node(t1.l, t1.e, RightJoin(t1.r, t2, k));
      RebalanceLeftMap(n);
      forall x ensures Lookup(n, x) == Lookup(Node(t1, k, t2), x) {
        assert Lookup(n.r, x) == Lookup(Node(t1.r, k, t2), x);
      }
    }
  }

  lemma {:induction false} LeftJoinMap(t1: Tree, t2: Tree, k: Entry)
    requires Ordered(Node(t1, k, t2))
    ensures Ordered(LeftJoin(t1, t2, k)) && SameMap(LeftJoin(t1, t2, k), Node(t1, k, t2))
    decreases t2
  {
    if LeftHeavy(t2, t1) {
      AboveParts(t2, k.key);
      BelowParts(Node(t1, k, t2.l), t2.e.key);
      LeftJoinMap(t1, t2.l, k);
      var n := Node(LeftJoin(t1, t2.l, k), t2.e, t2.r);
      RebalanceRightMap(n);
      forall x ensures Lookup(n, x) == Lookup(Node(t1, k, t2), x) {
        assert Lookup(n.l, x) == Lookup(Node(t1, k, t2.l), x);
      }
    }
  }

  // What every caller of node_join relies on.
  lemma Join(l: Tree, r: Tree, e: Entry)
    requires Good(l) && Good(r) && Below(l, e.key) && Above(r, e.key)
    ensures Good(NodeJoin(l, r, e)) && SameMap(NodeJoin(l, r, e), Node(l, e, r))
  {
    NodeJoinCorrect(l, r, e);
    assert Ordered(Node(l, e, r));
    RightJoinMap(l, r, e);
    LeftJoinMap(l, r, e);
  }

  // ---- split ----

  datatype Split = Split(first: Tree, found: bool, entry: Entry, second: Tree)

  const NoEntry := Entry(0, 0)

  // split_copy and split_inplace (lines 150-201).
  function SplitAt(t: Tree, k: int): Split {
    if t.Leaf? then Split(Leaf, false, NoEntry, Leaf)
    else if t.e.key < k then
      var s := SplitAt(t.r, k);
      s.(first := NodeJoin(t.l, s.first, t.e))
    else if k < t.e.key then
      var s := SplitAt(t.l, k);
      s.(second := NodeJoin(s.second, t.r, t.e))
    else Split(t.l, true, t.e, t.r)
  }

  ghost predicate SplitOf(s: Split, t: Tree, k: int) {
    && (forall x :: Lookup(s.first, x) == if x < k then Lookup(t, x) else None)
    && (forall x :: Lookup(s.second, x) == if k < x then Lookup(t, x) else None)
    && Lookup(t, k) == (if s.found then Some(s.entry.val) else None)
    && (s.found ==> s.entry.key == k)
  }

  lemma SplitRight(t: Tree, k: int, s: Split)
    requires Good(t) && t.Node? && t.e.key < k
    requires Good(s.first) && Good(s.second) && SplitOf(s, t.r, k)
    ensures var u := s.(first := NodeJoin(t.l, s.first, t.e)); Good(u.first) && SplitOf(u, t, k)
  {
    assert Above(s.first, t.e.key);
    Join(t.l, s.first, t.e);
    var n := NodeJoin(t.l, s.first, t.e);
    forall x ensures Lookup(n, x) == if x < k then Lookup(t, x) else None {
      var m := Node(t.l, t.e, s.first);
      assert Lookup(n, x) == Lookup(m, x);
      assert t.e.key < x ==> Lookup(m, x) == Lookup(s.first, x) && Lookup(t, x) == Lookup(t.r, x);
    }
    forall x ensures Lookup(s.second, x) == if k < x then Lookup(t, x) else None {
      assert Lookup(s.second, x) == if k < x then Lookup(t.r, x) else None;
    }
  }

  lemma SplitLeft(t: Tree, k: int, s: Split)
    requires Good(t) && t.Node? && k < t.e.key
    requires Good(s.first) && Good(s.second) && SplitOf(s, t.l, k)
    ensures var u := s.(second := NodeJoin(s.second, t.r, t.e)); Good(u.second) && SplitOf(u, t, k)
  {
    assert Below(s.second, t.e.key);
    Join(s.second, t.r, t.e);
    var n := NodeJoin(s.second, t.r, t.e);
    forall x ensures Lookup(n, x) == if k < x then Lookup(t, x) else None {
      var m := Node(s.second, t.e, t.r);
      assert Lookup(n, x) == Lookup(m, x);
      assert x < t.e.key ==> Lookup(m, x) == Lookup(s.second, x) && Lookup(t, x) == Lookup(t.l, x);
    }
    forall x ensures Lookup(s.first, x) == if x < k then Lookup(t, x) else None {
      assert Lookup(s.first, x) == if x < k then Lookup(t.l, x) else None;
    }
  }

  lemma SplitHere(t: Tree)
    requires Good(t) && t.Node?
    ensures SplitOf(Split(t.l, true, t.e, t.r), t, t.e.key)
  {
    forall x ensures Lookup(t.l, x) == if x < t.e.key then Lookup(t, x) else None {
      assert x >= t.e.key ==> Lookup(t.l, x).None?;
    }
    forall x ensures Lookup(t.r, x) == if t.e.key < x then Lookup(t, x) else None {
      assert x <= t.e.key ==> Lookup(t.r, x).None?;
    }
  }

  lemma {:induction false} SplitCorrect(t: Tree, k: int)
    requires Good(t)
    ensures var s := SplitAt(t, k); Good(s.first) && Good(s.second) && SplitOf(s, t, k)
  {
    if t.Node? {
      if t.e.key < k {
        SplitCorrect(t.r, k);
        SplitRight(t, k, SplitAt(t.r, k));
      } else if k < t.e.key {
        SplitCorrect(t.l, k);
        SplitLeft(t, k, SplitAt(t.l, k));
      } else {
        SplitHere(t);
      }
    }
  }

  // ---- join2, insert, delete ----

  // join2_i (sequence_ops.h, lines 50-66).
  function Join2(b1: Tree, b2: Tree): Tree
    decreases Size(b1) + Size(b2)
  {
    if b1.Leaf? then b2
    else if b2.Leaf? then b1
    else if Size(b1) > Size(b2) then NodeJoin(b1.l, Join2(b1.r, b2), b1.e)
    else NodeJoin(Join2(b1, b2.l), b2.r, b2.e)
  }

  // The entries of a below k and those of b above it.
  ghost predicate Glued(t: Tree, a: Tree, b: Tree, k: int) {
    forall x :: Lookup(t, x) == if x < k then Lookup(a, x) else if k < x then Lookup(b, x) else None
  }

  lemma GluedLeft(b1: Tree, j: Tree, b2: Tree, k: int)
    requires Good(b1) && b1.Node? && Good(b2) && Below(b1, k) && Above(b2, k) && Good(j) && Glued(j, b1.r, b2, k)
    ensures Good(NodeJoin(b1.l, j, b1.e)) && Glued(NodeJoin(b1.l, j, b1.e), b1, b2, k)
  {
    BelowParts(b1, k);
    forall x | Lookup(j, x).Some? ensures b1.e.key < x {
      assert Lookup(b1.r, x).Some? || k < x;
    }
    Join(b1.l, j, b1.e);
    var n := Node(b1.l, b1.e, j);
    forall x ensures Lookup(n, x) == if x < k then Lookup(b1, x) else if k < x then Lookup(b2, x) else None {
      assert Lookup(j, x) == if x < k then Lookup(b1.r, x) else if k < x then Lookup(b2, x) else None;
    }
    assert SameMap(NodeJoin(b1.l, j, b1.e), n);
  }

  lemma GluedRight(b1: Tree, j: Tree, b2: Tree, k: int)
    requires Good(b1) && b2.Node? && Good(b2) && Below(b1, k) && Above(b2, k) && Good(j) && Glued(j, b1, b2.l, k)
    ensures Good(NodeJoin(j, b2.r, b2.e)) && Glued(NodeJoin(j, b2.r, b2.e), b1, b2, k)
  {
    AboveParts(b2, k);
    forall x | Lookup(j, x).Some? ensures x < b2.e.key {
      assert Lookup(b2.l, x).Some? || x < k;
    }
    Join(j, b2.r, b2.e);
    var n := Node(j, b2.e, b2.r);
    forall x ensures Lookup(n, x) == if x < k then Lookup(b1, x) else if k < x then Lookup(b2, x) else None {
      assert Lookup(j, x) == if x < k then Lookup(b1, x) else if k < x then Lookup(b2.l, x) else None;
    }
    assert SameMap(NodeJoin(j, b2.r, b2.e), n);
  }

  lemma {:induction false} Join2Correct(b1: Tree, b2: Tree, k: int)
    requires Good(b1) && Good(b2) && Below(b1, k) && Above(b2, k)
    ensures Good(Join2(b1, b2)) && Glued(Join2(b1, b2), b1, b2, k)
    decreases Size(b1) + Size(b2)
  {
    if b1.Node? && b2.Node? {
      if Size(b1) > Size(b2) {
        BelowParts(b1, k);
        Join2Correct(b1.r, b2, k);
        GluedLeft(b1, Join2(b1.r, b2), b2, k);
      } else {
        AboveParts(b2, k);
        Join2Correct(b1, b2.l, k);
        GluedRight(b1, Join2(b1, b2.l), b2, k);
      }
    }
  }

  // insert_j with node_join (lines 412-437): an equal key keeps its place with the values combined.
  function Insert(t: Tree, e: Entry, op: Op): Tree {
    if t.Leaf? then Node(Leaf, e, Leaf)
    else if t.e.key < e.key then NodeJoin(t.l, Insert(t.r, e, op), t.e)
    else if e.key < t.e.key then NodeJoin(Insert(t.l, e, op), t.r, t.e)
    else NodeJoin(t.l, t.r, Entry(t.e.key, op(t.e.val, e.val)))
  }

  // An incoming value is combined with the one kept so far, if any.
  function Combined(op: Op, kept: Option, incoming: int): int {
    if kept.Some? then op(kept.value, incoming) else incoming
  }

  lemma {:induction false} InsertCorrect(t: Tree, e: Entry, op: Op)
    requires Good(t)
    ensures Good(Insert(t, e, op))
    ensures forall x :: Lookup(Insert(t, e, op), x) ==
                        if x == e.key then Some(Combined(op, Lookup(t, x), e.val)) else Lookup(t, x)
  {
    if t.Node? {
      if t.e.key < e.key {
        InsertCorrect(t.r, e, op);
        Join(t.l, Insert(t.r, e, op), t.e);
      } else if e.key < t.e.key {
        InsertCorrect(t.l, e, op);
        Join(Insert(t.l, e, op), t.r, t.e);
      } else {
        Join(t.l, t.r, Entry(t.e.key, op(t.e.val, e.val)));
      }
    }
  }

  // deletet (lines 444-463).
  function Delete(t: Tree, k: int): Tree {
    if t.Leaf? then Leaf
    else if t.e.key < k then NodeJoin(t.l, Delete(t.r, k), t.e)
    else if k < t.e.key then NodeJoin(Delete(t.l, k), t.r, t.e)
    else Join2(t.l, t.r)
  }

  lemma DeleteRightStep(t: Tree, d: Tree, k: int)
    requires Good(t) && t.Node? && t.e.key < k && Good(d)
    requires forall x :: Lookup(d, x) == if x == k then None else Lookup(t.r, x)
    ensures Good(NodeJoin(t.l, d, t.e))
    ensures forall x :: Lookup(NodeJoin(t.l, d, t.e), x) == if x == k then None else Lookup(t, x)
  {
    forall x | Lookup(d, x).Some? ensures t.e.key < x { assert Lookup(t.r, x).Some?; }
    Join(t.l, d, t.e);
    hide NodeJoin;
    var j, n := NodeJoin(t.l, d, t.e), Node(t.l, t.e, d);
    forall x ensures Lookup(j, x) == if x == k then None else Lookup(t, x) {
      assert Lookup(j, x) == Lookup(n, x);
      assert t.e.key < x ==> Lookup(n, x) == Lookup(d, x) && Lookup(t, x) == Lookup(t.r, x);
      assert x <= t.e.key ==> Lookup(n, x) == Lookup(t, x);
    }
  }

  lemma DeleteLeftStep(t: Tree, d: Tree, k: int)
    requires Good(t) && t.Node? && k < t.e.key && Good(d)
    requires forall x :: Lookup(d, x) == if x == k then None else Lookup(t.l, x)
    ensures Good(NodeJoin(d, t.r, t.e))
    ensures forall x :: Lookup(NodeJoin(d, t.r, t.e), x) == if x == k then None else Lookup(t, x)
  {
    forall x | Lookup(d, x).Some? ensures x < t.e.key { assert Lookup(t.l, x).Some?; }
    Join(d, t.r, t.e);
    hide NodeJoin;
    var j, n := NodeJoin(d, t.r, t.e), Node(d, t.e, t.r);
    forall x ensures Lookup(j, x) == if x == k then None else Lookup(t, x) {
      assert Lookup(j, x) == Lookup(n, x);
      assert x < t.e.key ==> Lookup(n, x) == Lookup(d, x) && Lookup(t, x) == Lookup(t.l, x);
      assert t.e.key <= x ==> Lookup(n, x) == Lookup(t, x);
    }
  }

  lemma {:induction false} DeleteCorrect(t: Tree, k: int)
    requires Good(t)
    ensures Good(Delete(t, k))
    ensures forall x :: Lookup(Delete(t, k), x) == if x == k then None else Lookup(t, x)
  {
    if t.Node? {
      if t.e.key < k {
        DeleteCorrect(t.r, k);
        DeleteRightStep(t, Delete(t.r, k), k);
      } else if k < t.e.key {
        DeleteCorrect(t.l, k);
        DeleteLeftStep(t, Delete(t.l, k), k);
      } else {
        Join2Correct(t.l, t.r, k);
        forall x ensures Lookup(Delete(t, k), x) == if x == k then None else Lookup(t, x) {
          assert Lookup(Delete(t, k), x) ==
                 if x < k then Lookup(t.l, x) else if k < x then Lookup(t.r, x) else None;
        }
      }
    }
  }

  // ---- union, intersection, difference ----

  // uniont (lines 234-252).
  function Union(b1: Tree, b2: Tree, op: Op): Tree
    decreases b2
  {
    if b1.Leaf? then b2
    else if b2.Leaf? then b1
    else
      var s := SplitAt(b1, b2.e.key);
      NodeJoin(Union(s.first, b2.l, op), Union(s.second, b2.r, op),
               if s.found then Entry(b2.e.key, op(s.entry.val, b2.e.val)) else b2.e)
  }

  // A common key gets op(value in the first map, value in the second).
  function UnionValue(a: Option, b: Option, op: Op): Option {
    if a.None? then b else if b.None? then a else Some(op(a.value, b.value))
  }

  lemma {:induction false} UnionCorrect(b1: Tree, b2: Tree, op: Op)
    requires Good(b1) && Good(b2)
    ensures Good(Union(b1, b2, op))
    ensures forall x :: Lookup(Union(b1, b2, op), x) == UnionValue(Lookup(b1, x), Lookup(b2, x), op)
    decreases b2
  {
    if b1.Node? && b2.Node? {
      var k := b2.e.key;
      SplitCorrect(b1, k);
      var s := SplitAt(b1, k);
      UnionCorrect(s.first, b2.l, op);
      UnionCorrect(s.second, b2.r, op);
      Join(Union(s.first, b2.l, op), Union(s.second, b2.r, op),
           if s.found then Entry(k, op(s.entry.val, b2.e.val)) else b2.e);
    }
  }

  // intersect (lines 256-283).
  function Intersect(b1: Tree, b2: Tree, op: Op): Tree
    decreases b2
  {
    if b1.Leaf? || b2.Leaf? then Leaf
    else
      var s := SplitAt(b1, b2.e.key);
      var l, r := Intersect(s.first, b2.l, op), Intersect(s.second, b2.r, op);
      if s.found then NodeJoin(l, r, Entry(b2.e.key, op(s.entry.val, b2.e.val))) else Join2(l, r)
  }

  function IntersectValue(a: Option, b: Option, op: Op): Option {
    if a.None? || b.None? then None else Some(op(a.value, b.value))
  }

  lemma {:induction false} IntersectCorrect(b1: Tree, b2: Tree, op: Op)
    requires Good(b1) && Good(b2)
    ensures Good(Intersect(b1, b2, op))
    ensures forall x :: Lookup(Intersect(b1, b2, op), x) == IntersectValue(Lookup(b1, x), Lookup(b2, x), op)
    decreases b2
  {
    hide NodeJoin, Join2, SplitAt, Below, SplitOf, Size;
    if b1.Node? && b2.Node? {
      var k := b2.e.key;
      SplitCorrect(b1, k);
      var s := SplitAt(b1, k);
      IntersectCorrect(s.first, b2.l, op);
      IntersectCorrect(s.second, b2.r, op);
      var l, r := Intersect(s.first, b2.l, op), Intersect(s.second, b2.r, op);
      if s.found { Join(l, r, Entry(k, op(s.entry.val, b2.e.val))); } else { Join2Correct(l, r, k); }
    }
  }

  // difference (lines 285-302).
  function Difference(b1: Tree, b2: Tree): Tree
    decreases b1
  {
    if b1.Leaf? then Leaf
    else if b2.Leaf? then b1
    else
      var s := SplitAt(b2, b1.e.key);
      var l, r := Difference(b1.l, s.first), Difference(b1.r, s.second);
      if s.found then Join2(l, r) else NodeJoin(l, r, b1.e)
  }

  lemma {:induction false} DifferenceCorrect(b1: Tree, b2: Tree)
    requires Good(b1) && Good(b2)
    ensures Good(Difference(b1, b2))
    ensures forall x :: Lookup(Difference(b1, b2), x) == if Lookup(b2, x).Some? then None else Lookup(b1, x)
    decreases b1
  {
    if b1.Node? && b2.Node? {
      var k := b1.e.key;
      SplitCorrect(b2, k);
      var s := SplitAt(b2, k);
      DifferenceCorrect(b1.l, s.first);
      DifferenceCorrect(b1.r, s.second);
      var l, r := Difference(b1.l, s.first), Difference(b1.r, s.second);
      if s.found { Join2Correct(l, r, k); } else { Join(l, r, b1.e); }
    }
  }

  // filter (sequence_ops.h, lines 213-228).
  function Filter(t: Tree, f: Entry -> bool): Tree
  {
    if t.Leaf? then Leaf
    else
      var l, r := Filter(t.l, f), Filter(t.r, f);
      if f(t.e) then NodeJoin(l, r, t.e) else Join2(l, r)
  }

  // u holds the entries of t that satisfy f.
  ghost predicate Filtered(u: Tree, t: Tree, f: Entry -> bool)
  {
    forall x :: Lookup(u, x) == Passing(Lookup(t, x), x, f)
  }

  function Passing(v: Option, x: int, f: Entry -> bool): Option
  {
    if v.Some? && f(Entry(x, v.value)) then v else None
  }

  lemma FilteredWithin(u: Tree, t: Tree, f: Entry -> bool, k: int)
    requires Filtered(u, t, f)
    ensures (Below(t, k) ==> Below(u, k)) && (Above(t, k) ==> Above(u, k))
  {
    forall x | Lookup(u, x).Some?
      ensures Lookup(t, x).Some?
    {
    }
  }

  lemma FilteredNode(u: Tree, l: Tree, r: Tree, t: Tree, f: Entry -> bool)
    requires Good(t) && t.Node? && Filtered(l, t.l, f) && Filtered(r, t.r, f)
    requires if f(t.e) then SameMap(u, Node(l, t.e, r)) else Glued(u, l, r, t.e.key)
    ensures Filtered(u, t, f)
  {
    hide Balanced;
    forall x
      ensures Lookup(u, x) == Passing(Lookup(t, x), x, f)
    {
      assert Lookup(l, x) == Passing(Lookup(t.l, x), x, f) && Lookup(r, x) == Passing(Lookup(t.r, x), x, f);
      assert Lookup(Node(l, t.e, r), x) ==
             if x < t.e.key then Lookup(l, x) else if t.e.key < x then Lookup(r, x) else Some(t.e.val);
    }
  }

  lemma {:induction false} FilterCorrect(t: Tree, f: Entry -> bool)
    requires Good(t)
    ensures Good(Filter(t, f)) && Filtered(Filter(t, f), t, f)
  {
    hide NodeJoin, Join2, Filtered, Below, Above, Glued, SameMap;
    if t.Node? {
      FilterCorrect(t.l, f);
      FilterCorrect(t.r, f);
      var l, r := Filter(t.l, f), Filter(t.r, f);
      FilteredWithin(l, t.l, f, t.e.key);
      FilteredWithin(r, t.r, f, t.e.key);
      if f(t.e) { Join(l, r, t.e); } else { Join2Correct(l, r, t.e.key); }
      FilteredNode(Filter(t, f), l, r, t, f);
    } else {
      FilteredLeaf(f);
    }
  }

  lemma FilteredLeaf(f: Entry -> bool)
    ensures Filtered(Leaf, Leaf, f)
  {
  }

  lemma Regroup(p: seq<Entry>, low: seq<Entry>, e: Entry, high: seq<Entry>, s: seq<Entry>)
    ensures p + (low + [e] + high) + s == (p + low + [e]) + high + s == p + low + ([e] + high + s)
  {
  }

  // select (sequence_ops.h, lines 36-48): the entry with the given number of entries before it.
  method Select(t: Tree, rank: nat) returns (r: Tree)
    ensures if rank < |Entries(t)| then r.Node? && r.e == Entries(t)[rank] else r == Leaf
  {
    var b, lrank: nat := t, rank;
    ghost var before, after: seq<Entry> := [], [];
    while b.Node?
      invariant Entries(t) == before + Entries(b) + after && rank == |before| + lrank
      invariant after != [] ==> lrank < |Entries(b)|
      decreases b
    {
      SizeIsLength(b.l);
      SizeIsLength(b.r);
      var left := Size(b.l);
      ghost var low, high := Entries(b.l), Entries(b.r);
      assert Entries(b) == low + [b.e] + high;
      if lrank > left {
        Regroup(before, low, b.e, high, after);
        lrank := lrank - (left + 1);
        before := before + low + [b.e];
        b := b.r;
      } else if lrank < left {
        Regroup(before, low, b.e, high, after);
        after := [b.e] + high + after;
        b := b.l;
      } else {
        assert Entries(t)[rank] == Entries(b)[lrank] == b.e;
        return b;
      }
    }
    assert Entries(b) == [];
    assert Entries(t) == before;
    return Leaf;
  }

  // ---- sorted arrays, bulk build and bulk insert ----

  predicate Sorted(s: seq<Entry>) { forall i, j :: 0 <= i < j < |s| ==> s[i].key < s[j].key }

  predicate HasKey(s: seq<Entry>, x: int) { exists i :: 0 <= i < |s| && s[i].key == x }

  // The map t holds exactly the entries of the sorted array s.
  ghost predicate HoldsArray(t: Tree, s: seq<Entry>) {
    && (forall i :: 0 <= i < |s| ==> Lookup(t, s[i].key) == Some(s[i].val))
    && (forall x :: !HasKey(s, x) ==> Lookup(t, x) == None)
  }

  lemma AppendHolds(t: Tree, a: seq<Entry>, b: seq<Entry>)
    requires t.Node? && Ordered(t) && HoldsArray(t.l, a) && HoldsArray(t.r, b)
    ensures HoldsArray(t, a + [t.e] + b)
  {
    var s := a + [t.e] + b;
    forall i | 0 <= i < |s| ensures Lookup(t, s[i].key) == Some(s[i].val) {
      if i < |a| {
        assert s[i] == a[i] && Lookup(t.l, s[i].key).Some?;
      } else if i > |a| {
        assert s[i] == b[i - |a| - 1] && Lookup(t.r, s[i].key).Some?;
      }
    }
    forall x | !HasKey(s, x) ensures Lookup(t, x) == None {
      assert s[|a|] == t.e;
      forall i | 0 <= i < |a| ensures a[i].key != x { assert s[i] == a[i]; }
      forall i | 0 <= i < |b| ensures b[i].key != x { assert s[i + |a| + 1] == b[i]; }
      assert !HasKey(a, x) && !HasKey(b, x);
    }
  }

  // The in-order contents of a search tree are its map, as a sorted array.
  lemma {:induction false} EntriesAreTheMap(t: Tree)
    requires Ordered(t)
    ensures HoldsArray(t, Entries(t)) && Sorted(Entries(t))
  {
    if t.Node? {
      EntriesAreTheMap(t.l);
      EntriesAreTheMap(t.r);
      AppendHolds(t, Entries(t.l), Entries(t.r));
      var a, b := Entries(t.l), Entries(t.r);
      forall i | 0 <= i < |a| ensures a[i].key < t.e.key { assert Lookup(t.l, a[i].key).Some?; }
      forall i | 0 <= i < |b| ensures t.e.key < b[i].key { assert Lookup(t.r, b[i].key).Some?; }
    }
  }

  // from_array (sequence_ops.h, lines 245-258).
  function FromArray(s: seq<Entry>): Tree
    decreases |s|
  {
    if |s| == 0 then Leaf
    else if |s| == 1 then Node(Leaf, s[0], Leaf)
    else NodeJoin(FromArray(s[..|s| / 2]), FromArray(s[|s| / 2 + 1..]), s[|s| / 2])
  }

  lemma KeysWithin(t: Tree, s: seq<Entry>, x: int)
    requires HoldsArray(t, s) && Lookup(t, x).Some?
    ensures HasKey(s, x)
  {
  }

  lemma FromArrayNode(l: Tree, r: Tree, s: seq<Entry>, m: nat)
    requires Sorted(s) && m < |s| && Good(l) && Good(r)
    requires HoldsArray(l, s[..m]) && HoldsArray(r, s[m + 1..])
    requires Entries(l) == s[..m] && Entries(r) == s[m + 1..]
    ensures var t := NodeJoin(l, r, s[m]); Good(t) && HoldsArray(t, s) && Entries(t) == s
  {
    assert s == s[..m] + [s[m]] + s[m + 1..];
    forall x | Lookup(l, x).Some? ensures x < s[m].key { KeysWithin(l, s[..m], x); }
    forall x | Lookup(r, x).Some? ensures s[m].key < x { KeysWithin(r, s[m + 1..], x); }
    Join(l, r, s[m]);
    NodeJoinCorrect(l, r, s[m]);
    EntriesAreTheMap(NodeJoin(l, r, s[m]));
  }

  lemma {:induction false} FromArrayCorrect(s: seq<Entry>)
    requires Sorted(s)
    ensures Good(FromArray(s)) && HoldsArray(FromArray(s), s) && Entries(FromArray(s)) == s
    decreases |s|
  {
    if |s| == 1 {
      EntriesAreTheMap(Node(Leaf, s[0], Leaf));
    } else if |s| > 1 {
      var m := |s| / 2;
      FromArrayCorrect(s[..m]);
      FromArrayCorrect(s[m + 1..]);
      FromArrayNode(FromArray(s[..m]), FromArray(s[m + 1..]), s, m);
    }
  }

  // The index of the first key that is not below k.
  function FirstAtLeast(s: seq<Entry>, k: int): (i: nat)
    ensures i <= |s|
    ensures forall j :: 0 <= j < i ==> s[j].key < k
    ensures i < |s| ==> k <= s[i].key
  {
    if s == [] || k <= s[0].key then 0 else FirstAtLeast(s[1..], k) + 1
  }

  // binary_search with the tail scanned linearly (pbbslib/binary_search.h, lines 31-49).
  method BinarySearch(s: seq<Entry>, k: int) returns (i: nat)
    requires Sorted(s)
    ensures i == FirstAtLeast(s, k)
  {
    var start, end := 0, |s|;
    while end - start > 16
      invariant 0 <= start <= end <= |s|
      invariant forall j :: 0 <= j < start ==> s[j].key < k
      invariant forall j :: end <= j < |s| ==> k <= s[j].key
    {
      var mid := (end + start) / 2;
      if !(s[mid].key < k) { end := mid; } else { start := mid + 1; }
    }
    i := start;
    while i < end && s[i].key < k
      invariant start <= i <= end
      invariant forall j :: 0 <= j < i ==> s[j].key < k
    {
      i := i + 1;
    }
    assert i < |s| ==> k <= s[i].key;
    assert i == FirstAtLeast(s, k);
  }

  // How multi_insert_sorted divides the array at a node: the entries below its key, the new
  // content of the node, and the entries above.
  datatype Parts = Parts(low: seq<Entry>, entry: Entry, high: seq<Entry>)

  function Divide(e: Entry, s: seq<Entry>, op: Op): Parts {
    var mid := FirstAtLeast(s, e.key);
    if mid < |s| && !(e.key < s[mid].key) then Parts(s[..mid], Entry(e.key, op(e.val, s[mid].val)), s[mid + 1..])
    else Parts(s[..mid], e, s[mid..])
  }

  // multi_insert_sorted (lines 465-485).
  function MultiInsert(b: Tree, s: seq<Entry>, op: Op): Tree {
    if b.Leaf? then FromArray(s)
    else if |s| == 0 then b
    else
      var p := Divide(b.e, s, op);
      NodeJoin(MultiInsert(b.l, p.low, op), MultiInsert(b.r, p.high, op), p.entry)
  }

  // t is b with every entry of s inserted, the value of a present key combined as op(present, new).
  ghost predicate Merged(t: Tree, b: Tree, s: seq<Entry>, op: Op) {
    && (forall i :: 0 <= i < |s| ==> Lookup(t, s[i].key) == Some(Combined(op, Lookup(b, s[i].key), s[i].val)))
    && (forall x :: !HasKey(s, x) ==> Lookup(t, x) == Lookup(b, x))
  }

  lemma MergedWithin(t: Tree, b: Tree, s: seq<Entry>, op: Op, x: int)
    requires Merged(t, b, s, op) && Lookup(t, x).Some?
    ensures HasKey(s, x) || Lookup(b, x).Some?
  {
  }

  // One node of the recursion, before its join.
  lemma MergedNode(u: Tree, b: Tree, s: seq<Entry>, op: Op)
    requires u.Node? && Ordered(u) && b.Node? && Ordered(b) && Sorted(s)
    requires var p := Divide(b.e, s, op);
             u.e == p.entry && Merged(u.l, b.l, p.low, op) && Merged(u.r, b.r, p.high, op)
    ensures Merged(u, b, s, op)
  {
    forall i: nat | i < |s|
      ensures Lookup(u, s[i].key) == Some(Combined(op, Lookup(b, s[i].key), s[i].val))
    {
      MergedAt(u, b, s, op, i);
    }
    forall x | !HasKey(s, x)
      ensures Lookup(u, x) == Lookup(b, x)
    {
      MergedElsewhere(u, b, s, op, x);
    }
  }

  lemma MergedAt(u: Tree, b: Tree, s: seq<Entry>, op: Op, i: nat)
    requires u.Node? && Ordered(u) && b.Node? && Ordered(b) && Sorted(s) && i < |s|
    requires var p := Divide(b.e, s, op);
             u.e == p.entry && Merged(u.l, b.l, p.low, op) && Merged(u.r, b.r, p.high, op)
    ensures Lookup(u, s[i].key) == Some(Combined(op, Lookup(b, s[i].key), s[i].val))
  {
    var p := Divide(b.e, s, op);
    var from := |s| - |p.high|;
    if i < FirstAtLeast(s, b.e.key) {
      assert p.low[i] == s[i];
    } else if i >= from {
      assert p.high[i - from] == s[i];
    }
  }

  lemma InNoPart(e: Entry, s: seq<Entry>, op: Op, x: int)
    requires Sorted(s) && !HasKey(s, x)
    ensures var p := Divide(e, s, op); !HasKey(p.low, x) && !HasKey(p.high, x) && (x == e.key ==> p.entry == e)
  {
    var p := Divide(e, s, op);
    var from := |s| - |p.high|;
    forall i | 0 <= i < |p.low|
      ensures p.low[i].key != x
    {
      assert p.low[i] == s[i];
    }
    forall i | 0 <= i < |p.high|
      ensures p.high[i].key != x
    {
      assert p.high[i] == s[i + from];
    }
  }

  lemma MergedElsewhere(u: Tree, b: Tree, s: seq<Entry>, op: Op, x: int)
    requires u.Node? && Ordered(u) && b.Node? && Ordered(b) && Sorted(s) && !HasKey(s, x)
    requires var p := Divide(b.e, s, op);
             u.e == p.entry && Merged(u.l, b.l, p.low, op) && Merged(u.r, b.r, p.high, op)
    ensures Lookup(u, x) == Lookup(b, x)
  {
    hide Divide, Ordered, Sorted, HasKey;
    InNoPart(b.e, s, op, x);
    DivideKey(b.e, s, op);
  }

  lemma DivideKey(e: Entry, s: seq<Entry>, op: Op)
    requires Sorted(s)
    ensures Divide(e, s, op).entry.key == e.key
  {
  }

  lemma MergedBelow(l: Tree, b: Tree, s: seq<Entry>, op: Op, k: int)
    requires Merged(l, b, s, op) && Below(b, k) && forall i :: 0 <= i < |s| ==> s[i].key < k
    ensures Below(l, k)
  {
    forall x | Lookup(l, x).Some? ensures x < k { MergedWithin(l, b, s, op, x); }
  }

  lemma MergedAbove(r: Tree, b: Tree, s: seq<Entry>, op: Op, k: int)
    requires Merged(r, b, s, op) && Above(b, k) && forall i :: 0 <= i < |s| ==> k < s[i].key
    ensures Above(r, k)
  {
    forall x | Lookup(r, x).Some? ensures k < x { MergedWithin(r, b, s, op, x); }
  }

  lemma MergedSame(t: Tree, u: Tree, b: Tree, s: seq<Entry>, op: Op)
    requires Merged(u, b, s, op) && SameMap(t, u)
    ensures Merged(t, b, s, op)
  {
  }

  lemma {:induction false} MultiInsertCorrect(b: Tree, s: seq<Entry>, op: Op)
    requires Good(b) && Sorted(s)
    ensures Good(MultiInsert(b, s, op)) && Merged(MultiInsert(b, s, op), b, s, op)
    decreases b
  {
    if b.Leaf? {
      FromArrayCorrect(s);
    } else if |s| > 0 {
      var p := Divide(b.e, s, op);
      var l, r := MultiInsert(b.l, p.low, op), MultiInsert(b.r, p.high, op);
      MultiInsertCorrect(b.l, p.low, op);
      MultiInsertCorrect(b.r, p.high, op);
      MergedBelow(l, b.l, p.low, op, b.e.key);
      MergedAbove(r, b.r, p.high, op, b.e.key);
      Join(l, r, p.entry);
      MergedNode(Node(l, p.entry, r), b, s, op);
      MergedSame(NodeJoin(l, r, p.entry), Node(l, p.entry, r), b, s, op);
    }
  }
}
