// What the operations of the B-tree return (comparison_systems/terrace/code/include/btree.h): find, and the
// Booleans of insert and remove, on values.
module BTreeAnswers {
  import opened SortedSeq
  import opened BTree

  // The key k is at index i or it is nowhere but in child i.
  lemma WhereItIs(n: Node, h: nat, k: int)
    requires Well(n, h, 0) && Strict(Flat(n))
    ensures var i := FindKey(n.keys, k);
            && (i < |n.keys| && n.keys[i] == k ==> k in Flat(n))
            && (!(i < |n.keys| && n.keys[i] == k) ==>
                  if n.kids == [] then k !in Flat(n)
                  else |n.kids| == |n.keys| + 1 && Strict(Flat(n.kids[i])) && (k in Flat(n) <==> k in Flat(n.kids[i])))
  {
    var i := FindKey(n.keys, k);
    if i < |n.keys| && n.keys[i] == k {
      KeyInside(n, h, i);
    } else if n.kids == [] {
      forall j: nat | j < |n.keys|
        ensures n.keys[j] != k
      {
        if j > i { assert n.keys[i] < n.keys[j]; }
      }
    } else {
      KidStrict(n, i);
      InKid(n, i, k);
    }
  }

  lemma InKid(n: Node, i: nat, k: int)
    requires |n.kids| == |n.keys| + 1 && i <= |n.keys| && Strict(Flat(n))
    requires (i > 0 ==> n.keys[i - 1] < k) && (i < |n.keys| ==> k < n.keys[i])
    ensures k in Flat(n) <==> k in Flat(n.kids[i])
  {
    var parts := Flats(n.kids);
    WeaveAt(n.keys, parts, i);
    Bounds(n.keys, parts, i, k);
    NotOutside(Before(n.keys, parts, i), k);
    NotOutside(After(n.keys, parts, i), k);
  }

  // ---- find (lines 219-231) ----

  function Find(n: Node, k: int, ghost h: nat): bool
    requires Well(n, h, 0)
    decreases h
  {
    var i := FindKey(n.keys, k);
    if i < |n.keys| && n.keys[i] == k then true
    else if n.kids == [] then false
    else
      assert AllWell(n.kids, h - 1);
      WellLess(n.kids[i], h - 1, MIN_KEYS - 1, 0);
      Find(n.kids[i], k, h - 1)
  }

  // find is exact.
  lemma {:induction false} FindExact(n: Node, k: int, h: nat)
    requires Well(n, h, 0) && Strict(Flat(n))
    ensures Find(n, k, h) <==> k in Flat(n)
    decreases h
  {
    WhereItIs(n, h, k);
    var i := FindKey(n.keys, k);
    if !(i < |n.keys| && n.keys[i] == k) && n.kids != [] {
      assert AllWell(n.kids, h - 1);
      WellLess(n.kids[i], h - 1, MIN_KEYS - 1, 0);
      hide Flat;
      FindExact(n.kids[i], k, h - 1);
    }
  }

  // ---- The answer of insertNonFull (lines 291-334) ----

  function Inserts(n: Node, k: int, ghost h: nat): bool
    requires Well(n, h, 0) && |n.keys| < MAX_KEYS
    decreases h
  {
    var i := FindKey(n.keys, k);
    if i < |n.keys| && n.keys[i] == k then false
    else if n.kids == [] then true
    else
      var (u, j) := Descend(n, i, k);
      DescendWell(n, h, i, k);
      if |u.keys| > |n.keys| && u.keys[i] == k then false else Inserts(u.kids[j], k, h - 1)
  }

  lemma {:induction false} InsertsExact(n: Node, k: int, h: nat)
    requires Well(n, h, 0) && |n.keys| < MAX_KEYS && Strict(Flat(n))
    ensures Inserts(n, k, h) <==> k !in Flat(n)
    decreases h
  {
    hide Weave, Strict, SplitChild;
    WhereItIs(n, h, k);
    var i := FindKey(n.keys, k);
    if !(i < |n.keys| && n.keys[i] == k) && n.kids != [] {
      DescendWell(n, h, i, k);
      DescendBounds(n, h, i, k);
      var (u, j) := Descend(n, i, k);
      hide Flat, Descend;
      if |u.keys| > |n.keys| && u.keys[i] == k {
        KeyInside(u, h, i);
      } else {
        KidStrict(u, j);
        Belongs(u, j, k);
        InsertsExact(u.kids[j], k, h - 1);
      }
    }
  }

  lemma Belongs(u: Node, j: nat, k: int)
    requires |u.kids| == |u.keys| + 1 && j <= |u.keys|
    requires Below(Before(u.keys, Flats(u.kids), j), k) && Above(After(u.keys, Flats(u.kids), j), k)
    ensures k in Flat(u) <==> k in Flat(u.kids[j])
  {
    var parts := Flats(u.kids);
    WeaveAt(u.keys, parts, j);
    NotOutside(Before(u.keys, parts, j), k);
    NotOutside(After(u.keys, parts, j), k);
  }

  // BTree::insert (lines 441-486).
  function InsertAnswer(t: Tree, k: int, ghost h: nat): bool
    requires TreeOk(t, h)
  {
    if t.NoRoot? then true
    else if |t.n.keys| == MAX_KEYS then
      GrownReady(t.n, h);
      var s := Grown(t.n);
      Inserts(s.kids[if s.keys[0] < k then 1 else 0], k, h)
    else
      WellLess(t.n, h, 1, 0);
      Inserts(t.n, k, h)
  }

  lemma GrownReady(n: Node, h: nat)
    requires Well(n, h, 1) && |n.keys| == MAX_KEYS
    ensures var s := Grown(n);
            && s.keys == [n.keys[MIN_KEYS - 1]] && s.kids == [LeftHalf(n), RightHalf(n)]
            && |s.kids[0].keys| < MAX_KEYS && |s.kids[1].keys| < MAX_KEYS
            && Well(s.kids[0], h, 0) && Well(s.kids[1], h, 0)
  {
    GrownOk(n, h);
    var s := Grown(n);
    WellLess(s.kids[0], h, MIN_KEYS - 1, 0);
    WellLess(s.kids[1], h, MIN_KEYS - 1, 0);
  }

  // insert says that the key is new exactly if it is, or if it is the middle key of a full root.
  lemma InsertAnswerExact(t: Tree, k: int, h: nat)
    requires TreeOk(t, h) && Strict(Contents(t))
    ensures InsertAnswer(t, k, h) <==> k !in Contents(t) || (RootFull(t) && t.n.keys[MIN_KEYS - 1] == k)
  {
    if t.Root? {
      if |t.n.keys| == MAX_KEYS {
        FullAnswer(t.n, k, h);
      } else {
        WellLess(t.n, h, 1, 0);
        InsertsExact(t.n, k, h);
      }
    }
  }

  lemma FullAnswer(n: Node, k: int, h: nat)
    requires Well(n, h, 1) && |n.keys| == MAX_KEYS && Strict(Flat(n))
    ensures InsertAnswer(Root(n), k, h) <==> k !in Flat(n) || n.keys[MIN_KEYS - 1] == k
  {
    GrownOk(n, h);
    GrownReady(n, h);
    var s, x := Grown(n), n.keys[MIN_KEYS - 1];
    var i := if x < k then 1 else 0;
    HalvesFlat(n, h);
    assert Flat(n) == Flat(LeftHalf(n)) + [x] + Flat(RightHalf(n));
    StrictParts(Flat(LeftHalf(n)), [x], Flat(RightHalf(n)));
    hide Flat, Grown;
    InsertsExact(s.kids[i], k, h);
    HalfMember(Flat(LeftHalf(n)), x, Flat(RightHalf(n)), k);
  }

  lemma HalfMember(p: seq<int>, x: int, s: seq<int>, k: int)
    requires Strict(p + [x] + s)
    ensures if x < k then k in p + [x] + s <==> k in s else k != x ==> (k in p + [x] + s <==> k in p)
    ensures k == x ==> k !in p
  {
    StrictParts(p, [x], s);
    var all := p + [x] + s;
    forall i | 0 <= i < |p|
      ensures p[i] < x
    {
      assert p[i] < [x][0];
    }
    forall i | 0 <= i < |s|
      ensures x < s[i]
    {
      assert [x][0] < s[i];
    }
  }

  // ---- The answer of remove (lines 768-804) ----

  // Only the node at which the removal starts is asked: the answers of its children are dropped.
  function Removes(n: Node, k: int): bool
  {
    var i := FindKey(n.keys, k);
    (i < |n.keys| && n.keys[i] == k) || n.kids != []
  }

  // BTree::remove (lines 807-826).
  function RemoveAnswer(t: Tree, k: int): bool { t.Root? && Removes(t.n, k) }

  // remove says that the key was there exactly if it was, or if the root is an inner node.
  lemma RemoveAnswerExact(t: Tree, k: int, h: nat)
    requires TreeOk(t, h) && Strict(Contents(t))
    ensures RemoveAnswer(t, k) <==> k in Contents(t) || (t.Root? && t.n.kids != [])
  {
    if t.Root? {
      WellLess(t.n, h, 1, 0);
      WhereItIs(t.n, h, k);
    }
  }

  // A wrong answer: removing 1000 from the tree with 0 to 126 below a new root.
  lemma AbsentRemoved(t: Tree)
    requires t == Root(Grown(Node(seq(MAX_KEYS, i => i), [])))
    ensures TreeOk(t, 1) && Strict(Contents(t)) && 1000 !in Contents(t) && RemoveAnswer(t, 1000)
  {
    var n := Node(seq(MAX_KEYS, i => i), []);
    GrownOk(n, 0);
    GrownReady(n, 0);
  }
}
