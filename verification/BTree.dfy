// The B-tree of comparison_systems/terrace/code/include/btree.h as functions on values: insertion and
// deletion, what they do to the keys in order, and the shape they keep.
module BTree {
  import opened SortedSeq
  import opened Collections

  const MIN_KEYS := 64
  const MAX_KEYS := 127

  // A node without children is a leaf.
  datatype Node = Node(keys: seq<int>, kids: seq<Node>)

  // Equal leaf depth h, at least m keys in the root of the subtree, at least MIN_KEYS - 1 below it.
  ghost predicate Well(n: Node, h: nat, m: nat)
    decreases h, 0
  {
    && m <= |n.keys| <= MAX_KEYS
    && (if h == 0 then n.kids == [] else |n.kids| == |n.keys| + 1 && AllWell(n.kids, h - 1))
  }

  ghost predicate AllWell(kids: seq<Node>, h: nat)
    decreases h, 1
  {
    forall i :: 0 <= i < |kids| ==> Well(kids[i], h, MIN_KEYS - 1)
  }

  lemma WellLess(n: Node, h: nat, m: nat, less: nat)
    requires Well(n, h, m) && less <= m
    ensures Well(n, h, less)
  {
  }

  lemma ReplaceKid(kids: seq<Node>, h: nat, i: nat, c: Node)
    requires AllWell(kids, h) && i < |kids| && Well(c, h, MIN_KEYS - 1)
    ensures AllWell(kids[i := c], h)
  {
  }

  // The keys in order.
  function Flat(n: Node): seq<int> {
    if |n.kids| == |n.keys| + 1 then Weave(n.keys, Flats(n.kids)) else n.keys
  }

  function Flats(kids: seq<Node>): (r: seq<seq<int>>)
    ensures |r| == |kids| && forall i :: 0 <= i < |kids| ==> r[i] == Flat(kids[i])
  {
    seq(|kids|, i requires 0 <= i < |kids| => Flat(kids[i]))
  }

  // findKey (lines 490-496), and the scan of insertNonFull (lines 291-302).
  function FindKey(keys: seq<int>, k: int): (i: nat)
    ensures i <= |keys| && (forall j :: 0 <= j < i ==> keys[j] < k) && (i < |keys| ==> k <= keys[i])
  {
    if keys == [] || k <= keys[0] then 0 else FindKey(keys[1..], k) + 1
  }

  // Everything before the child where k belongs is smaller, everything after it larger.
  lemma Bounds(keys: seq<int>, parts: seq<seq<int>>, i: nat, k: int)
    requires |parts| == |keys| + 1 && i <= |keys| && Strict(Weave(keys, parts))
    requires (i > 0 ==> keys[i - 1] < k) && (i < |keys| ==> k < keys[i])
    ensures Below(Before(keys, parts, i), k) && Above(After(keys, parts, i), k)
  {
    WeaveAt(keys, parts, i);
    var b, a := Before(keys, parts, i), After(keys, parts, i);
    StrictParts(b, parts[i], a);
    forall x | x in b ensures x < k {
      var j :| 0 <= j < |b| && b[j] == x;
      assert b[|b| - 1] == keys[i - 1];
    }
    forall x | x in a ensures k < x {
      var j :| 0 <= j < |a| && a[j] == x;
      assert a[0] == keys[i];
    }
  }

  lemma KidStrict(n: Node, i: nat)
    requires |n.kids| == |n.keys| + 1 && i <= |n.keys| && Strict(Flat(n))
    ensures Strict(Flat(n.kids[i]))
  {
    WeaveAt(n.keys, Flats(n.kids), i);
    StrictParts(Before(n.keys, Flats(n.kids), i), Flat(n.kids[i]), After(n.keys, Flats(n.kids), i));
  }

  // ---- splitChild (lines 338-381) ----

  function LeftHalf(c: Node): Node
    requires |c.keys| == MAX_KEYS
  {
    Node(c.keys[..MIN_KEYS - 1], if |c.kids| >= MIN_KEYS then c.kids[..MIN_KEYS] else [])
  }

  function RightHalf(c: Node): Node
    requires |c.keys| == MAX_KEYS
  {
    Node(c.keys[MIN_KEYS..], if |c.kids| >= MIN_KEYS then c.kids[MIN_KEYS..] else [])
  }

  function SplitChild(n: Node, i: nat): Node
    requires i < |n.kids| && i <= |n.keys| && |n.kids[i].keys| == MAX_KEYS
  {
    var c := n.kids[i];
    Node(n.keys[..i] + [c.keys[MIN_KEYS - 1]] + n.keys[i..],
         n.kids[..i] + [LeftHalf(c), RightHalf(c)] + n.kids[i + 1..])
  }

  lemma HalvesWell(c: Node, h: nat)
    requires Well(c, h, MIN_KEYS - 1) && |c.keys| == MAX_KEYS
    ensures Well(LeftHalf(c), h, MIN_KEYS - 1) && Well(RightHalf(c), h, MIN_KEYS - 1)
  {
    if h > 0 {
      assert AllWell(c.kids, h - 1);
      assert AllWell(c.kids[..MIN_KEYS], h - 1);
      assert AllWell(c.kids[MIN_KEYS..], h - 1);
    }
  }

  lemma HalvesFlat(c: Node, h: nat)
    requires Well(c, h, MIN_KEYS - 1) && |c.keys| == MAX_KEYS
    ensures Flat(c) == Flat(LeftHalf(c)) + [c.keys[MIN_KEYS - 1]] + Flat(RightHalf(c))
  {
    var k1, x, k2 := c.keys[..MIN_KEYS - 1], c.keys[MIN_KEYS - 1], c.keys[MIN_KEYS..];
    assert c.keys == k1 + [x] + k2;
    if h > 0 {
      var p1, p2 := c.kids[..MIN_KEYS], c.kids[MIN_KEYS..];
      WeaveJoin(k1, Flats(p1), x, k2, Flats(p2));
      assert Flats(c.kids) == Flats(p1) + Flats(p2);
    }
  }

  lemma SplitWell(n: Node, h: nat, i: nat, m: nat)
    requires Well(n, h, m) && h > 0 && |n.keys| < MAX_KEYS && i <= |n.keys| && |n.kids[i].keys| == MAX_KEYS
    ensures Well(SplitChild(n, i), h, m + 1)
  {
    assert AllWell(n.kids, h - 1);
    HalvesWell(n.kids[i], h - 1);
    assert AllWell(SplitChild(n, i).kids, h - 1);
  }

  lemma FlatsSplit(kids: seq<Node>, i: nat, a: Node, b: Node)
    requires i < |kids|
    ensures Flats(kids[..i] + [a, b] + kids[i + 1..]) == Flats(kids)[..i] + [Flat(a), Flat(b)] + Flats(kids)[i + 1..]
  {
  }

  lemma FlatIs(n: Node)
    requires |n.kids| == |n.keys| + 1
    ensures Flat(n) == Weave(n.keys, Flats(n.kids))
  {
  }

  // A split keeps the keys in order.
  lemma SplitFlat(n: Node, h: nat, i: nat, m: nat)
    requires Well(n, h, m) && h > 0 && i <= |n.keys| && |n.kids[i].keys| == MAX_KEYS
    ensures Flat(SplitChild(n, i)) == Flat(n)
  {
    var c, u := n.kids[i], SplitChild(n, i);
    assert AllWell(n.kids, h - 1);
    HalvesFlat(c, h - 1);
    var a, b := LeftHalf(c), RightHalf(c);
    hide Weave;
    hide Flat;
    hide LeftHalf;
    hide RightHalf;
    WeaveSplit(n.keys, Flats(n.kids), i, Flat(a), c.keys[MIN_KEYS - 1], Flat(b));
    FlatsSplit(n.kids, i, a, b);
    FlatIs(n);
    FlatIs(u);
  }

  // ---- insertNonFull (lines 283-335) ----

  // The node and the child index at which the recursion goes on.
  function Descend(n: Node, i: nat, k: int): (Node, nat)
    requires |n.kids| == |n.keys| + 1 && i <= |n.keys|
  {
    if |n.kids[i].keys| == MAX_KEYS then
      var u := SplitChild(n, i);
      (u, if u.keys[i] < k then i + 1 else i)
    else (n, i)
  }

  function InsertNonFull(n: Node, k: int, ghost h: nat): (r: Node)
    requires Well(n, h, 0) && |n.keys| < MAX_KEYS
    ensures Well(r, h, |n.keys|)
    decreases h
  {
    var i := FindKey(n.keys, k);
    if i < |n.keys| && n.keys[i] == k then n
    else if n.kids == [] then Node(n.keys[..i] + [k] + n.keys[i..], [])
    else
      assert AllWell(n.kids, h - 1);
      var (u, j) := Descend(n, i, k);
      DescendWell(n, h, i, k);
      if |u.keys| > |n.keys| && u.keys[i] == k then u
      else
        var c := InsertNonFull(u.kids[j], k, h - 1);
        GrowKid(u, h, j, c, |n.keys|);
        Node(u.keys, u.kids[j := c])
  }

  lemma GrowKid(u: Node, h: nat, j: nat, c: Node, m: nat)
    requires Well(u, h, m) && h > 0 && j < |u.kids| && Well(c, h - 1, |u.kids[j].keys|)
    ensures Well(Node(u.keys, u.kids[j := c]), h, m)
  {
    assert AllWell(u.kids, h - 1);
    WellLess(c, h - 1, |u.kids[j].keys|, MIN_KEYS - 1);
    ReplaceKid(u.kids, h - 1, j, c);
  }

  lemma DescendWell(n: Node, h: nat, i: nat, k: int)
    requires Well(n, h, 0) && h > 0 && |n.keys| < MAX_KEYS && i <= |n.keys|
    ensures var (u, j) := Descend(n, i, k);
            && Well(u, h, |n.keys|) && j <= |u.keys| && |u.kids[j].keys| < MAX_KEYS
            && AllWell(u.kids, h - 1) && Well(u.kids[j], h - 1, 0)
  {
    assert AllWell(n.kids, h - 1);
    if |n.kids[i].keys| == MAX_KEYS { SplitWell(n, h, i, |n.keys|); }
  }

  // Where the recursion goes on is where k belongs.
  lemma DescendBounds(n: Node, h: nat, i: nat, k: int)
    requires Well(n, h, 0) && h > 0 && |n.keys| < MAX_KEYS && Strict(Flat(n)) && i == FindKey(n.keys, k)
    requires i < |n.keys| ==> n.keys[i] != k
    ensures var (u, j) := Descend(n, i, k);
            && |u.kids| == |u.keys| + 1 && j <= |u.keys| && Flat(u) == Flat(n)
            && ((|u.keys| > |n.keys| && u.keys[i] == k)
                || (Below(Before(u.keys, Flats(u.kids), j), k) && Above(After(u.keys, Flats(u.kids), j), k)))
  {
    DescendWell(n, h, i, k);
    var (u, j) := Descend(n, i, k);
    if |n.kids[i].keys| == MAX_KEYS { SplitFlat(n, h, i, 0); }
    if !(|u.keys| > |n.keys| && u.keys[i] == k) { Bounds(u.keys, Flats(u.kids), j, k); }
  }

  lemma {:induction false} InsertNonFullFlat(n: Node, k: int, h: nat)
    requires Well(n, h, 0) && |n.keys| < MAX_KEYS && Strict(Flat(n))
    ensures Flat(InsertNonFull(n, k, h)) == InsertSeq(Flat(n), k)
    decreases h
  {
    hide Weave;
    hide Strict;
    hide InsertSeq;
    hide SplitChild;
    var i := FindKey(n.keys, k);
    if i < |n.keys| && n.keys[i] == k {
      KeyInside(n, h, i);
      InsertPresent(Flat(n), k);
    } else if n.kids == [] {
      InsertLeaf(n.keys, i, k);
    } else {
      DescendWell(n, h, i, k);
      DescendBounds(n, h, i, k);
      hide Flat;
      hide Descend;
      var (u, j) := Descend(n, i, k);
      if |u.keys| > |n.keys| && u.keys[i] == k {
        KeyInside(u, h, i);
        InsertPresent(Flat(u), k);
      } else {
        KidStrict(u, j);
        InsertNonFullFlat(u.kids[j], k, h - 1);
        InsertInKid(u, j, InsertNonFull(u.kids[j], k, h - 1), k);
      }
    }
  }

  // An insertion into the child j, where k belongs.
  lemma InsertInKid(u: Node, j: nat, c: Node, k: int)
    requires |u.kids| == |u.keys| + 1 && j <= |u.keys| && Flat(c) == InsertSeq(Flat(u.kids[j]), k)
    requires Below(Before(u.keys, Flats(u.kids), j), k) && Above(After(u.keys, Flats(u.kids), j), k)
    ensures Flat(Node(u.keys, u.kids[j := c])) == InsertSeq(Flat(u), k)
  {
    var parts := Flats(u.kids);
    var b, a := Before(u.keys, parts, j), After(u.keys, parts, j);
    WeaveAt(u.keys, parts, j);
    WeaveReplace(u.keys, parts, j, Flat(c));
    InsertMiddle(b, parts[j], a, k);
    assert Flats(u.kids[j := c]) == parts[j := Flat(c)];
    FlatIs(Node(u.keys, u.kids[j := c]));
  }

  lemma KeyInside(n: Node, h: nat, i: nat)
    requires Well(n, h, 0) && i < |n.keys|
    ensures n.keys[i] in Flat(n)
  {
    if h > 0 {
      WeaveAt(n.keys, Flats(n.kids), i);
      assert After(n.keys, Flats(n.kids), i)[0] == n.keys[i];
    }
  }

  lemma {:induction false} InsertPresent(s: seq<int>, k: int)
    requires Strict(s) && k in s
    ensures InsertSeq(s, k) == s
  {
    if s[0] < k {
      assert k in s[1..];
      InsertPresent(s[1..], k);
    }
  }

  lemma InsertLeaf(s: seq<int>, i: nat, k: int)
    requires i == FindKey(s, k) && (i < |s| ==> s[i] != k) && Strict(s)
    ensures InsertSeq(s, k) == s[..i] + [k] + s[i..]
  {
    assert s == s[..i] + [] + s[i..];
    InsertMiddle(s[..i], [], s[i..], k);
  }

  // ---- BTree::insert (lines 441-486) ----

  datatype Tree = NoRoot | Root(n: Node)

  ghost predicate TreeOk(t: Tree, h: nat) { t.Root? ==> Well(t.n, h, 1) }

  function Contents(t: Tree): seq<int> { if t.NoRoot? then [] else Flat(t.n) }

  predicate RootFull(t: Tree) { t.Root? && |t.n.keys| == MAX_KEYS }

  // The new root over the two halves of a full one.
  function Grown(n: Node): Node
    requires |n.keys| == MAX_KEYS
  {
    SplitChild(Node([], [n]), 0)
  }

  lemma GrownOk(n: Node, h: nat)
    requires Well(n, h, 1) && |n.keys| == MAX_KEYS
    ensures var s := Grown(n);
            && Well(s, h + 1, 1) && Flat(s) == Flat(n) && s.keys == [n.keys[MIN_KEYS - 1]]
            && s.kids == [LeftHalf(n), RightHalf(n)] && AllWell(s.kids, h)
  {
    var r := Node([], [n]);
    assert AllWell(r.kids, h);
    assert Well(r, h + 1, 0);
    SplitWell(r, h + 1, 0, 0);
    SplitFlat(r, h + 1, 0, 0);
  }

  function Insert(t: Tree, k: int, ghost h: nat): Tree
    requires TreeOk(t, h)
  {
    if t.NoRoot? then Root(Node([k], []))
    else if |t.n.keys| == MAX_KEYS then
      GrownOk(t.n, h);
      var s := Grown(t.n);
      var i := if s.keys[0] < k then 1 else 0;
      Root(Node(s.keys, s.kids[i := InsertNonFull(s.kids[i], k, h)]))
    else Root(InsertNonFull(t.n, k, h))
  }

  lemma InsertOk(t: Tree, k: int, h: nat)
    requires TreeOk(t, h)
    ensures TreeOk(Insert(t, k, h), if t.NoRoot? then 0 else if RootFull(t) then h + 1 else h)
  {
    if t.Root? {
      if |t.n.keys| == MAX_KEYS {
        GrownOk(t.n, h);
        var s := Grown(t.n);
        var i := if s.keys[0] < k then 1 else 0;
        var c := InsertNonFull(s.kids[i], k, h);
        WellLess(c, h, |s.kids[i].keys|, MIN_KEYS - 1);
        ReplaceKid(s.kids, h, i, c);
      } else {
        WellLess(Insert(t, k, h).n, h, |t.n.keys|, 1);
      }
    }
  }

  // Insertion is the union with {k}, in order, exactly unless the root is full and k is its middle
  // key: the program does not compare k with the key that moves up into the new root.
  lemma InsertExact(t: Tree, k: int, h: nat)
    requires TreeOk(t, h) && Strict(Contents(t))
    ensures Contents(Insert(t, k, h)) == InsertSeq(Contents(t), k) <==> !(RootFull(t) && t.n.keys[MIN_KEYS - 1] == k)
  {
    if t.Root? {
      if |t.n.keys| == MAX_KEYS {
        GrownOk(t.n, h);
        InsertGrown(Grown(t.n), k, h);
      } else {
        InsertNonFullFlat(t.n, k, h);
      }
    }
  }

  lemma InsertGrown(s: Node, k: int, h: nat)
    requires |s.keys| == 1 && |s.kids| == 2 && Strict(Flat(s))
    requires forall i :: 0 <= i < 2 ==> Well(s.kids[i], h, 0) && |s.kids[i].keys| < MAX_KEYS
    ensures var i := if s.keys[0] < k then 1 else 0;
            Flat(Node(s.keys, s.kids[i := InsertNonFull(s.kids[i], k, h)])) == InsertSeq(Flat(s), k) <==> s.keys[0] != k
  {
    var i := if s.keys[0] < k then 1 else 0;
    var c := InsertNonFull(s.kids[i], k, h);
    KidStrict(s, i);
    InsertNonFullFlat(s.kids[i], k, h);
    hide InsertNonFull;
    if s.keys[0] != k {
      Bounds(s.keys, Flats(s.kids), i, k);
      InsertInKid(s, i, c, k);
    } else {
      InsertTwice(s, c, k);
    }
  }

  // The key k of the new root is inserted once more, at the end of the first child.
  lemma InsertTwice(s: Node, c: Node, k: int)
    requires |s.keys| == 1 && |s.kids| == 2 && Strict(Flat(s)) && s.keys[0] == k
    requires Flat(c) == InsertSeq(Flat(s.kids[0]), k)
    ensures Flat(Node(s.keys, s.kids[0 := c])) != InsertSeq(Flat(s), k)
  {
    var parts := Flats(s.kids);
    var first, rest := parts[0], After(s.keys, parts, 0);
    WeaveAt(s.keys, parts, 0);
    WeaveReplace(s.keys, parts, 0, Flat(c));
    assert Flats(s.kids[0 := c]) == parts[0 := Flat(c)];
    FlatIs(Node(s.keys, s.kids[0 := c]));
    FirstBelow(s, k);
    InsertAfter(first, [], k);
    assert first + [] == first && rest[0] == k;
    assert [] + first + rest == first + rest && (first + rest)[|first|] == k;
    InsertPresent(Flat(s), k);
    assert |Flat(c)| == |first| + 1;
  }

  lemma FirstBelow(s: Node, k: int)
    requires |s.kids| == |s.keys| + 1 && |s.keys| > 0 && Strict(Flat(s)) && s.keys[0] == k
    ensures forall x :: x in Flat(s.kids[0]) ==> x < k
  {
    var parts := Flats(s.kids);
    WeaveAt(s.keys, parts, 0);
    StrictParts([], parts[0], After(s.keys, parts, 0));
    assert [] + parts[0] + After(s.keys, parts, 0) == Flat(s);
    assert After(s.keys, parts, 0)[0] == k;
  }

  // What becomes of the middle key k of a full root: it is in the tree twice.
  lemma DuplicateInserted(t: Tree, k: int, h: nat)
    requires TreeOk(t, h) && Strict(Contents(t)) && RootFull(t) && t.n.keys[MIN_KEYS - 1] == k
    ensures multiset(Contents(Insert(t, k, h)))[k] == 2 && !Strict(Contents(Insert(t, k, h)))
  {
    GrownOk(t.n, h);
    var s := Grown(t.n);
    KidStrict(s, 0);
    InsertNonFullFlat(s.kids[0], k, h);
    TwoCopies(s, InsertNonFull(s.kids[0], k, h), k);
  }

  lemma TwoCopies(s: Node, c: Node, k: int)
    requires |s.keys| == 1 && |s.kids| == 2 && Strict(Flat(s)) && s.keys[0] == k
    requires Flat(c) == InsertSeq(Flat(s.kids[0]), k)
    ensures var r := Flat(Node(s.keys, s.kids[0 := c])); multiset(r)[k] == 2 && !Strict(r)
  {
    var first, second := Flat(s.kids[0]), Flat(s.kids[1]);
    var r := Node(s.keys, s.kids[0 := c]);
    PairFlat(s);
    PairFlat(r);
    FirstBelow(s, k);
    InsertAfter(first, [], k);
    assert first + [] == first && s.keys == [k];
    TwiceIn(first, k, second);
  }

  lemma TwiceIn(p: seq<int>, k: int, s: seq<int>)
    requires Strict(p + [k] + s)
    ensures var r := p + [k] + [k] + s; multiset(r)[k] == 2 && !Strict(r)
  {
    var d, r := p + [k] + s, p + [k] + [k] + s;
    assert d[|p|] == k && r[|p|] == k && r[|p| + 1] == k;
    forall j | 0 <= j < |p|
      ensures p[j] != k
    {
      assert d[j] == p[j];
    }
    forall j | 0 <= j < |s|
      ensures s[j] != k
    {
      assert d[|p| + 1 + j] == s[j];
    }
  }

  lemma PairFlat(s: Node)
    requires |s.keys| == 1 && |s.kids| == 2
    ensures Flat(s) == Flat(s.kids[0]) + s.keys + Flat(s.kids[1])
  {
    var parts := Flats(s.kids);
    FlatIs(s);
    assert s.keys == [s.keys[0]];
    assert Weave(s.keys[1..], parts[1..]) == parts[1];
  }

  // A root that is a leaf with the keys from 0 to 126 gets a second 63.
  lemma DuplicateExample(t: Tree)
    requires t == Root(Node(seq(MAX_KEYS, i => i), []))
    ensures TreeOk(t, 0) && Strict(Contents(t)) && 63 in Contents(t)
    ensures multiset(Contents(Insert(t, 63, 0)))[63] == 2
  {
    assert t.n.keys[MIN_KEYS - 1] == 63;
    DuplicateInserted(t, 63, 0);
  }

  // ---- Borrowing and merging (lines 606-764) ----

  function ShiftedFromPrev(c: Node, x: int, sib: Node): Node
    requires |sib.kids| > 0 || c.kids == []
  {
    Node([x] + c.keys, if c.kids == [] then [] else [sib.kids[|sib.kids| - 1]] + c.kids)
  }

  function WithoutLast(n: Node): Node
    requires n.keys != []
  {
    Node(n.keys[..|n.keys| - 1], if n.kids == [] then [] else n.kids[..|n.kids| - 1])
  }

  function ShiftedFromNext(c: Node, x: int, sib: Node): Node
    requires |sib.kids| > 0 || c.kids == []
  {
    Node(c.keys + [x], if c.kids == [] then [] else c.kids + [sib.kids[0]])
  }

  function WithoutFirst(n: Node): Node
    requires n.keys != []
  {
    Node(n.keys[1..], if n.kids == [] then [] else n.kids[1..])
  }

  function Merged(c: Node, x: int, sib: Node): Node { Node(c.keys + [x] + sib.keys, c.kids + sib.kids) }

  ghost predicate Siblings(c: Node, sib: Node, h: nat) {
    Well(c, h, MIN_KEYS - 1) && Well(sib, h, MIN_KEYS - 1)
  }

  lemma PrevOk(sib: Node, x: int, c: Node, h: nat)
    requires Siblings(c, sib, h) && |sib.keys| >= MIN_KEYS && |c.keys| < MAX_KEYS
    ensures Well(ShiftedFromPrev(c, x, sib), h, MIN_KEYS) && Well(WithoutLast(sib), h, MIN_KEYS - 1)
  {
    if h > 0 {
      assert AllWell(sib.kids, h - 1) && AllWell(c.kids, h - 1);
      assert AllWell(WithoutLast(sib).kids, h - 1) && AllWell(ShiftedFromPrev(c, x, sib).kids, h - 1);
    }
  }

  lemma NextOk(c: Node, x: int, sib: Node, h: nat)
    requires Siblings(c, sib, h) && |sib.keys| >= MIN_KEYS && |c.keys| < MAX_KEYS
    ensures Well(ShiftedFromNext(c, x, sib), h, MIN_KEYS) && Well(WithoutFirst(sib), h, MIN_KEYS - 1)
  {
    if h > 0 {
      assert AllWell(sib.kids, h - 1) && AllWell(c.kids, h - 1);
      assert AllWell(WithoutFirst(sib).kids, h - 1) && AllWell(ShiftedFromNext(c, x, sib).kids, h - 1);
    }
  }

  // The last key and child of a node, and the first ones, taken off.
  lemma LastOff(n: Node, h: nat)
    requires Well(n, h, 1)
    ensures Flat(n) == Flat(WithoutLast(n)) + [n.keys[|n.keys| - 1]] + if h == 0 then [] else Flat(n.kids[|n.kids| - 1])
  {
    var front, y := n.keys[..|n.keys| - 1], n.keys[|n.keys| - 1];
    assert n.keys == front + [y] + [];
    if h > 0 {
      var p1, p2 := n.kids[..|n.kids| - 1], [n.kids[|n.kids| - 1]];
      WeaveJoin(front, Flats(p1), y, [], Flats(p2));
      assert Flats(n.kids) == Flats(p1) + Flats(p2);
    }
  }

  lemma FirstOff(n: Node, h: nat)
    requires Well(n, h, 1)
    ensures Flat(n) == (if h == 0 then [] else Flat(n.kids[0])) + [n.keys[0]] + Flat(WithoutFirst(n))
  {
    var y := n.keys[0];
    assert n.keys == [] + [y] + n.keys[1..];
    if h > 0 {
      var p1, p2 := [n.kids[0]], n.kids[1..];
      WeaveJoin([], Flats(p1), y, n.keys[1..], Flats(p2));
      assert Flats(n.kids) == Flats(p1) + Flats(p2);
    }
  }

  lemma PrevFlat(sib: Node, x: int, c: Node, h: nat)
    requires Siblings(c, sib, h)
    ensures
      var last := sib.keys[|sib.keys| - 1];
      Flat(sib) + [x] + Flat(c) == Flat(WithoutLast(sib)) + [last] + Flat(ShiftedFromPrev(c, x, sib))
  {
    hide Flat, ShiftedFromPrev, WithoutLast, AllWell;
    LastOff(sib, h);
    var a, y := Flat(WithoutLast(sib)), sib.keys[|sib.keys| - 1];
    var b := if h == 0 then [] else Flat(sib.kids[|sib.kids| - 1]);
    FrontFlat(sib, x, c, h);
    Regroup(a + [y], b + [x], Flat(c));
    Regroup(a + [y], b, [x]);
  }

  lemma FrontWeave(c: Node, x: int, first: Node)
    requires |c.kids| == |c.keys| + 1
    ensures Flat(Node([x] + c.keys, [first] + c.kids)) == Flat(first) + [x] + Flat(c)
  {
    var u := Node([x] + c.keys, [first] + c.kids);
    FlatIs(u);
    FlatIs(c);
    hide Flat;
    assert u.keys[1..] == c.keys && Flats(u.kids)[1..] == Flats(c.kids);
  }

  lemma FrontFlat(sib: Node, x: int, c: Node, h: nat)
    requires Siblings(c, sib, h)
    ensures Flat(ShiftedFromPrev(c, x, sib)) == (if h == 0 then [] else Flat(sib.kids[|sib.kids| - 1])) + [x] + Flat(c)
  {
    hide AllWell;
    var u := ShiftedFromPrev(c, x, sib);
    if h > 0 {
      var last := sib.kids[|sib.kids| - 1];
      FrontWeave(c, x, last);
      assert u == Node([x] + c.keys, [last] + c.kids);
    }
  }

  lemma NextFlat(c: Node, x: int, sib: Node, h: nat)
    requires Siblings(c, sib, h)
    ensures Flat(c) + [x] + Flat(sib) == Flat(ShiftedFromNext(c, x, sib)) + [sib.keys[0]] + Flat(WithoutFirst(sib))
  {
    var u := ShiftedFromNext(c, x, sib);
    FirstOff(sib, h);
    var a, y := Flat(WithoutFirst(sib)), sib.keys[0];
    var b := if h == 0 then [] else Flat(sib.kids[0]);
    assert Flat(u) == Flat(c) + [x] + b by {
      if h > 0 {
        WeaveJoin(c.keys, Flats(c.kids), x, [], [b]);
        assert c.keys + [x] + [] == u.keys && Flats(u.kids) == Flats(c.kids) + [b];
      }
    }
    hide Flat;
    assert Flat(c) + [x] + (b + [y] + a) == Flat(c) + [x] + b + [y] + a;
  }

  lemma MergedOk(c: Node, x: int, sib: Node, h: nat)
    requires Siblings(c, sib, h) && |c.keys| == MIN_KEYS - 1 && |sib.keys| == MIN_KEYS - 1
    ensures Well(Merged(c, x, sib), h, MAX_KEYS) && Flat(Merged(c, x, sib)) == Flat(c) + [x] + Flat(sib)
  {
    if h > 0 {
      assert AllWell(c.kids, h - 1) && AllWell(sib.kids, h - 1);
      assert AllWell(c.kids + sib.kids, h - 1);
      WeaveJoin(c.keys, Flats(c.kids), x, sib.keys, Flats(sib.kids));
      assert Flats(c.kids + sib.kids) == Flats(c.kids) + Flats(sib.kids);
    }
  }

  // borrowFromPrev (lines 630-672): child i gets a key from its left sibling.
  function BorrowFromPrev(n: Node, i: nat): Node
    requires 0 < i <= |n.keys| && |n.kids| == |n.keys| + 1 && n.kids[i - 1].keys != []
    requires n.kids[i].kids != [] ==> n.kids[i - 1].kids != []
  {
    var sib := n.kids[i - 1];
    Node(n.keys[i - 1 := sib.keys[|sib.keys| - 1]],
         n.kids[i - 1 := WithoutLast(sib)][i := ShiftedFromPrev(n.kids[i], n.keys[i - 1], sib)])
  }

  // borrowFromNext (lines 676-715).
  function BorrowFromNext(n: Node, i: nat): Node
    requires i < |n.keys| && |n.kids| == |n.keys| + 1 && n.kids[i + 1].keys != []
    requires n.kids[i].kids != [] ==> n.kids[i + 1].kids != []
  {
    var sib := n.kids[i + 1];
    Node(n.keys[i := sib.keys[0]],
         n.kids[i := ShiftedFromNext(n.kids[i], n.keys[i], sib)][i + 1 := WithoutFirst(sib)])
  }

  // merge (lines 719-764). It writes behind the first MIN_KEYS - 1 keys of child i, whatever their number.
  function Merge(n: Node, i: nat): Node
    requires i < |n.keys| && |n.kids| == |n.keys| + 1 && |n.kids[i].keys| == MIN_KEYS - 1
  {
    Node(n.keys[..i] + n.keys[i + 1..], n.kids[..i] + [Merged(n.kids[i], n.keys[i], n.kids[i + 1])] + n.kids[i + 2..])
  }

  // fill (lines 605-626), for a child with the fewest keys.
  function Fill(n: Node, i: nat, ghost h: nat): Node
    requires Well(n, h, 1) && h > 0 && i <= |n.keys| && |n.kids[i].keys| < MIN_KEYS
  {
    assert AllWell(n.kids, h - 1);
    if i != 0 && |n.kids[i - 1].keys| >= MIN_KEYS then BorrowFromPrev(n, i)
    else if i != |n.keys| && |n.kids[i + 1].keys| >= MIN_KEYS then BorrowFromNext(n, i)
    else if i != |n.keys| then Merge(n, i)
    else Merge(n, i - 1)
  }

  // The child at which remove goes on after fill (lines 797-800).
  function FillChild(n: Node, i: nat, u: Node): nat { if i == |n.keys| && i > |u.keys| && i > 0 then i - 1 else i }

  // Two neighbouring children are replaced by others with the same keys in order.
  lemma ShiftFlat(n: Node, i: nat, a: Node, x: int, b: Node)
    requires i < |n.keys| && |n.kids| == |n.keys| + 1
    requires Flat(n.kids[i]) + [n.keys[i]] + Flat(n.kids[i + 1]) == Flat(a) + [x] + Flat(b)
    ensures Flat(Node(n.keys[i := x], n.kids[i := a][i + 1 := b])) == Flat(n)
  {
    var u := Node(n.keys[i := x], n.kids[i := a][i + 1 := b]);
    assert Flats(u.kids) == Flats(n.kids)[i := Flat(a)][i + 1 := Flat(b)];
    FlatIs(n);
    FlatIs(u);
    hide Flat;
    hide Weave;
    WeaveShift(n.keys, Flats(n.kids), i, Flat(a), x, Flat(b));
  }

  lemma ShiftWell(n: Node, h: nat, i: nat, a: Node, x: int, b: Node, m: nat)
    requires Well(n, h, m) && h > 0 && i < |n.keys| && Well(a, h - 1, MIN_KEYS - 1) && Well(b, h - 1, MIN_KEYS - 1)
    ensures Well(Node(n.keys[i := x], n.kids[i := a][i + 1 := b]), h, m)
  {
    ReplaceKid(n.kids, h - 1, i, a);
    ReplaceKid(n.kids[i := a], h - 1, i + 1, b);
  }

  lemma MergeOk(n: Node, h: nat, i: nat, m: nat)
    requires Well(n, h, m) && h > 0 && m > 0 && i < |n.keys|
    requires |n.kids[i].keys| == MIN_KEYS - 1 && |n.kids[i + 1].keys| == MIN_KEYS - 1
    ensures Well(Merge(n, i), h, m - 1) && Well(Merge(n, i).kids[i], h - 1, MAX_KEYS)
    ensures Flat(Merge(n, i)) == Flat(n)
  {
    assert AllWell(n.kids, h - 1);
    var u, c := Merge(n, i), Merged(n.kids[i], n.keys[i], n.kids[i + 1]);
    MergedOk(n.kids[i], n.keys[i], n.kids[i + 1], h - 1);
    MergeWell(n, h, i, c, m);
    MergeFlat(n, i, c);
  }

  lemma MergeWell(n: Node, h: nat, i: nat, c: Node, m: nat)
    requires Well(n, h, m) && h > 0 && m > 0 && i < |n.keys| && Well(c, h - 1, MIN_KEYS - 1)
    ensures Well(Node(n.keys[..i] + n.keys[i + 1..], n.kids[..i] + [c] + n.kids[i + 2..]), h, m - 1)
  {
    assert AllWell(n.kids, h - 1);
    assert AllWell(n.kids[..i] + [c] + n.kids[i + 2..], h - 1);
  }

  lemma MergeFlat(n: Node, i: nat, c: Node)
    requires i < |n.keys| && |n.kids| == |n.keys| + 1
    requires Flat(c) == Flat(n.kids[i]) + [n.keys[i]] + Flat(n.kids[i + 1])
    ensures Flat(Node(n.keys[..i] + n.keys[i + 1..], n.kids[..i] + [c] + n.kids[i + 2..])) == Flat(n)
  {
    var u := Node(n.keys[..i] + n.keys[i + 1..], n.kids[..i] + [c] + n.kids[i + 2..]);
    FlatsSplit(u.kids, i, n.kids[i], n.kids[i + 1]);
    assert u.kids[..i] + [n.kids[i], n.kids[i + 1]] + u.kids[i + 1..] == n.kids;
    assert u.keys[..i] + [n.keys[i]] + u.keys[i..] == n.keys;
    FlatIs(n);
    FlatIs(u);
    hide Weave;
    WeaveSplit(u.keys, Flats(u.kids), i, Flat(n.kids[i]), n.keys[i], Flat(n.kids[i + 1]));
  }

  lemma KidWell(n: Node, h: nat, i: nat, m: nat)
    requires Well(n, h, m) && h > 0 && i < |n.kids|
    ensures Well(n.kids[i], h - 1, MIN_KEYS - 1)
  {
    assert AllWell(n.kids, h - 1);
  }

  lemma BorrowPrevOk(n: Node, h: nat, i: nat, m: nat)
    requires Well(n, h, m) && h > 0 && 0 < i <= |n.keys|
    requires |n.kids[i].keys| < MIN_KEYS && |n.kids[i - 1].keys| >= MIN_KEYS
    ensures n.kids[i].kids != [] ==> n.kids[i - 1].kids != []
    ensures var u := BorrowFromPrev(n, i);
            Well(u, h, m) && |u.keys| == |n.keys| && Flat(u) == Flat(n) && Well(u.kids[i], h - 1, MIN_KEYS)
  {
    hide AllWell;
    KidWell(n, h, i, m);
    KidWell(n, h, i - 1, m);
    var sib, c, x := n.kids[i - 1], n.kids[i], n.keys[i - 1];
    var a, b := WithoutLast(sib), ShiftedFromPrev(c, x, sib);
    PrevOk(sib, x, c, h - 1);
    PrevFlat(sib, x, c, h - 1);
    WellLess(b, h - 1, MIN_KEYS, MIN_KEYS - 1);
    hide Flat;
    hide ShiftedFromPrev;
    ShiftWell(n, h, i - 1, a, sib.keys[|sib.keys| - 1], b, m);
    ShiftFlat(n, i - 1, a, sib.keys[|sib.keys| - 1], b);
  }

  lemma BorrowNextOk(n: Node, h: nat, i: nat, m: nat)
    requires Well(n, h, m) && h > 0 && i < |n.keys| && |n.kids[i].keys| < MIN_KEYS && |n.kids[i + 1].keys| >= MIN_KEYS
    ensures n.kids[i].kids != [] ==> n.kids[i + 1].kids != []
    ensures var u := BorrowFromNext(n, i);
            Well(u, h, m) && |u.keys| == |n.keys| && Flat(u) == Flat(n) && Well(u.kids[i], h - 1, MIN_KEYS)
  {
    hide AllWell;
    KidWell(n, h, i, m);
    KidWell(n, h, i + 1, m);
    var sib, c, x := n.kids[i + 1], n.kids[i], n.keys[i];
    var a, b := ShiftedFromNext(c, x, sib), WithoutFirst(sib);
    NextOk(c, x, sib, h - 1);
    NextFlat(c, x, sib, h - 1);
    WellLess(a, h - 1, MIN_KEYS, MIN_KEYS - 1);
    hide Flat;
    hide ShiftedFromNext;
    ShiftWell(n, h, i, a, sib.keys[0], b, m);
    ShiftFlat(n, i, a, sib.keys[0], b);
  }

  // fill keeps the keys in order and leaves the chosen child with a key to spare.
  lemma FillOk(n: Node, h: nat, i: nat, m: nat)
    requires Well(n, h, m) && h > 0 && m > 0 && i <= |n.keys| && |n.kids[i].keys| < MIN_KEYS
    ensures var u, j := Fill(n, i, h), FillChild(n, i, Fill(n, i, h));
            && Well(u, h, m - 1) && |u.keys| >= |n.keys| - 1 && Flat(u) == Flat(n)
            && j <= |u.keys| && Well(u.kids[j], h - 1, MIN_KEYS)
  {
    hide Flat;
    assert AllWell(n.kids, h - 1);
    if i != 0 && |n.kids[i - 1].keys| >= MIN_KEYS {
      BorrowPrevOk(n, h, i, m);
    } else if i != |n.keys| && |n.kids[i + 1].keys| >= MIN_KEYS {
      BorrowNextOk(n, h, i, m);
    } else if i != |n.keys| {
      MergeOk(n, h, i, m);
      WellLess(Merge(n, i).kids[i], h - 1, MAX_KEYS, MIN_KEYS);
    } else {
      MergeOk(n, h, i - 1, m);
      WellLess(Merge(n, i - 1).kids[i - 1], h - 1, MAX_KEYS, MIN_KEYS);
    }
  }

  // ---- remove (lines 499-602 and 767-804) ----

  // getPred and getSucc: the last and the first key below a node.
  function LastKey(n: Node, ghost h: nat): int
    requires Well(n, h, 1)
    decreases h
  {
    if n.kids == [] then n.keys[|n.keys| - 1]
    else
      assert AllWell(n.kids, h - 1);
      LastKey(n.kids[|n.kids| - 1], h - 1)
  }

  function FirstKey(n: Node, ghost h: nat): int
    requires Well(n, h, 1)
    decreases h
  {
    if n.kids == [] then n.keys[0]
    else
      assert AllWell(n.kids, h - 1);
      FirstKey(n.kids[0], h - 1)
  }

  lemma {:induction false} LastKeyIsLast(n: Node, h: nat)
    requires Well(n, h, 1)
    ensures Flat(n) != [] && LastKey(n, h) == Flat(n)[|Flat(n)| - 1]
    decreases h
  {
    if h > 0 {
      assert AllWell(n.kids, h - 1);
      LastKeyIsLast(n.kids[|n.kids| - 1], h - 1);
      LastOff(n, h);
    }
  }

  lemma {:induction false} FirstKeyIsFirst(n: Node, h: nat)
    requires Well(n, h, 1)
    ensures Flat(n) != [] && FirstKey(n, h) == Flat(n)[0]
    decreases h
  {
    if h > 0 {
      assert AllWell(n.kids, h - 1);
      FirstKeyIsFirst(n.kids[0], h - 1);
      FirstOff(n, h);
    }
  }

  lemma KeyBack(n: Node, h: nat, j: nat, c: Node, m: nat)
    requires Well(n, h, m) && h > 0 && j < |n.kids| && Well(c, h - 1, MIN_KEYS - 1)
    ensures Well(Node(n.keys, n.kids[j := c]), h, m)
  {
    assert AllWell(n.kids, h - 1);
    ReplaceKid(n.kids, h - 1, j, c);
  }

  function Remove(n: Node, k: int, ghost h: nat): (r: Node)
    requires Well(n, h, 1)
    ensures Well(r, h, |n.keys| - 1)
    decreases h, 1
  {
    var i := FindKey(n.keys, k);
    if i < |n.keys| && n.keys[i] == k then
      if n.kids == [] then Node(n.keys[..i] + n.keys[i + 1..], []) else RemoveFromNonLeaf(n, i, h)
    else if n.kids == [] then n
    else
      assert AllWell(n.kids, h - 1);
      var u := if |n.kids[i].keys| < MIN_KEYS then Fill(n, i, h) else n;
      var j := if |n.kids[i].keys| < MIN_KEYS then FillChild(n, i, u) else i;
      RemoveStep(n, h, i);
      var c := Remove(u.kids[j], k, h - 1);
      KeyBack(u, h, j, c, |n.keys| - 1);
      Node(u.keys, u.kids[j := c])
  }

  lemma RemoveStep(n: Node, h: nat, i: nat)
    requires Well(n, h, 1) && h > 0 && i <= |n.keys|
    ensures var u := if |n.kids[i].keys| < MIN_KEYS then Fill(n, i, h) else n;
            var j := if |n.kids[i].keys| < MIN_KEYS then FillChild(n, i, u) else i;
            && Well(u, h, |n.keys| - 1) && Flat(u) == Flat(n)
            && j <= |u.keys| && Well(u.kids[j], h - 1, MIN_KEYS) && Well(u.kids[j], h - 1, 1)
  {
    hide Flat;
    assert AllWell(n.kids, h - 1);
    if |n.kids[i].keys| < MIN_KEYS {
      FillOk(n, h, i, |n.keys|);
      var u := Fill(n, i, h);
      WellLess(u.kids[FillChild(n, i, u)], h - 1, MIN_KEYS, 1);
    } else {
      WellLess(n.kids[i], h - 1, MIN_KEYS - 1, 1);
    }
  }

  // removeFromNonLeaf (lines 517-562).
  function RemoveFromNonLeaf(n: Node, i: nat, ghost h: nat): (r: Node)
    requires Well(n, h, 1) && h > 0 && i < |n.keys|
    ensures Well(r, h, |n.keys| - 1)
    decreases h, 0
  {
    assert AllWell(n.kids, h - 1);
    if |n.kids[i].keys| >= MIN_KEYS then
      WellLess(n.kids[i], h - 1, MIN_KEYS - 1, 1);
      var pred := LastKey(n.kids[i], h - 1);
      var c := Remove(n.kids[i], pred, h - 1);
      KeyBack(n, h, i, c, |n.keys| - 1);
      Node(n.keys[i := pred], n.kids[i := c])
    else if |n.kids[i + 1].keys| >= MIN_KEYS then
      WellLess(n.kids[i + 1], h - 1, MIN_KEYS - 1, 1);
      var succ := FirstKey(n.kids[i + 1], h - 1);
      var c := Remove(n.kids[i + 1], succ, h - 1);
      KeyBack(n, h, i + 1, c, |n.keys| - 1);
      Node(n.keys[i := succ], n.kids[i + 1 := c])
    else
      MergeOk(n, h, i, |n.keys|);
      var u := Merge(n, i);
      WellLess(u.kids[i], h - 1, MAX_KEYS, 1);
      var c := Remove(u.kids[i], n.keys[i], h - 1);
      WellLess(c, h - 1, |u.kids[i].keys| - 1, MIN_KEYS - 1);
      KeyBack(u, h, i, c, |n.keys| - 1);
      Node(u.keys, u.kids[i := c])
  }

  // The child j loses k, which belongs there if it is anywhere.
  lemma DeleteInKid(u: Node, j: nat, c: Node, k: int)
    requires |u.kids| == |u.keys| + 1 && j <= |u.keys| && Flat(c) == DeleteSeq(Flat(u.kids[j]), k)
    requires k !in Before(u.keys, Flats(u.kids), j) && k !in After(u.keys, Flats(u.kids), j)
    ensures Flat(Node(u.keys, u.kids[j := c])) == DeleteSeq(Flat(u), k)
  {
    var parts := Flats(u.kids);
    var b, a := Before(u.keys, parts, j), After(u.keys, parts, j);
    WeaveAt(u.keys, parts, j);
    WeaveReplace(u.keys, parts, j, Flat(c));
    DeleteMiddle(b, parts[j], a, k);
    assert Flats(u.kids[j := c]) == parts[j := Flat(c)];
    FlatIs(Node(u.keys, u.kids[j := c]));
  }

  // The key k at index i gives way to the last key of child i.
  lemma PredReplaces(n: Node, i: nat, c: Node, pred: int)
    requires |n.kids| == |n.keys| + 1 && i < |n.keys| && Strict(Flat(n))
    requires Flat(n.kids[i]) == Flat(c) + [pred]
    ensures Flat(Node(n.keys[i := pred], n.kids[i := c])) == DeleteSeq(Flat(n), n.keys[i])
  {
    var u := Node(n.keys[i := pred], n.kids[i := c]);
    assert Flats(u.kids) == Flats(n.kids)[i := Flat(c)];
    FlatIs(n);
    FlatIs(u);
    hide Flat;
    DeleteByPred(n.keys, Flats(n.kids), i, Flat(c), pred);
  }

  // The key k at index i gives way to the first key of child i + 1.
  lemma SuccReplaces(n: Node, i: nat, c: Node, succ: int)
    requires |n.kids| == |n.keys| + 1 && i < |n.keys| && Strict(Flat(n))
    requires Flat(n.kids[i + 1]) == [succ] + Flat(c)
    ensures Flat(Node(n.keys[i := succ], n.kids[i + 1 := c])) == DeleteSeq(Flat(n), n.keys[i])
  {
    var u := Node(n.keys[i := succ], n.kids[i + 1 := c]);
    assert Flats(u.kids) == Flats(n.kids)[i + 1 := Flat(c)];
    FlatIs(n);
    FlatIs(u);
    hide Flat;
    DeleteBySucc(n.keys, Flats(n.kids), i, succ, Flat(c));
  }

  lemma NotOutside(s: seq<int>, k: int)
    ensures Below(s, k) || Above(s, k) ==> k !in s
  {
  }

  // Removal takes k, and nothing else, out of the keys in order.
  lemma {:induction false} RemoveFlat(n: Node, k: int, h: nat)
    requires Well(n, h, 1) && Strict(Flat(n))
    ensures Flat(Remove(n, k, h)) == DeleteSeq(Flat(n), k)
    decreases h, 2
  {
    var i := FindKey(n.keys, k);
    if i < |n.keys| && n.keys[i] == k {
      if n.kids == [] { RemoveLeaf(n.keys, i); } else { RemoveNonLeafFlat(n, i, h); }
    } else if n.kids == [] {
      AbsentLeaf(n.keys, i, k);
    } else {
      RemoveBelow(n, k, h);
    }
  }

  lemma RemoveLeaf(s: seq<int>, i: nat)
    requires Strict(s) && i < |s|
    ensures DeleteSeq(s, s[i]) == s[..i] + s[i + 1..]
  {
    hide Strict;
    hide DeleteSeq;
    assert s == s[..i] + [s[i]] + s[i + 1..];
    DeleteAt(s[..i], s[i], s[i + 1..]);
  }

  lemma AbsentLeaf(s: seq<int>, i: nat, k: int)
    requires Strict(s) && i == FindKey(s, k) && (i < |s| ==> s[i] != k)
    ensures DeleteSeq(s, k) == s
  {
    assert k !in s;
    DeleteAbsent(s, k);
  }

  lemma RemoveBelow(n: Node, k: int, h: nat)
    requires Well(n, h, 1) && h > 0 && Strict(Flat(n))
    requires var i := FindKey(n.keys, k); i < |n.keys| ==> n.keys[i] != k
    ensures Flat(Remove(n, k, h)) == DeleteSeq(Flat(n), k)
    decreases h, 1
  {
    hide Flat;
    hide Flats;
    hide Fill;
    hide FillChild;
    hide Before;
    hide After;
    hide Strict;
    hide DeleteSeq;
    var i := FindKey(n.keys, k);
    assert AllWell(n.kids, h - 1);
    RemoveStep(n, h, i);
    var u := if |n.kids[i].keys| < MIN_KEYS then Fill(n, i, h) else n;
    var j := if |n.kids[i].keys| < MIN_KEYS then FillChild(n, i, u) else i;
    RemoveStepBounds(n, h, i, k);
    KidStrict(u, j);
    RemoveFlat(u.kids[j], k, h - 1);
    DeleteInKid(u, j, Remove(u.kids[j], k, h - 1), k);
  }

  // The key before child j is smaller than k, the key after it larger.
  predicate Around(u: Node, j: nat, k: int) {
    j <= |u.keys| && (j > 0 ==> u.keys[j - 1] < k) && (j < |u.keys| ==> k < u.keys[j])
  }

  lemma AroundOutside(u: Node, j: nat, k: int)
    requires |u.kids| == |u.keys| + 1 && Strict(Flat(u)) && Around(u, j, k)
    ensures k !in Before(u.keys, Flats(u.kids), j) && k !in After(u.keys, Flats(u.kids), j)
  {
    FlatIs(u);
    Bounds(u.keys, Flats(u.kids), j, k);
    NotOutside(Before(u.keys, Flats(u.kids), j), k);
    NotOutside(After(u.keys, Flats(u.kids), j), k);
  }

  // The keys around a child, and the next key.
  lemma KidKeys(n: Node, i: nat)
    requires |n.kids| == |n.keys| + 1 && i < |n.keys| && Strict(Flat(n))
    ensures var c, d := n.kids[i], n.kids[i + 1];
            (forall x :: x in Flat(c) ==> x < n.keys[i]) && (forall x :: x in Flat(d) ==> n.keys[i] < x)
    ensures i + 1 < |n.keys| ==> n.keys[i] < n.keys[i + 1]
  {
    var parts := Flats(n.kids);
    var k := n.keys[i];
    WeaveAt(n.keys, parts, i);
    var b, a := Before(n.keys, parts, i), After(n.keys, parts, i);
    StrictParts(b, parts[i], a);
    assert a[0] == k;
    WeaveAt(n.keys, parts, i + 1);
    var b', a' := Before(n.keys, parts, i + 1), After(n.keys, parts, i + 1);
    StrictParts(b', parts[i + 1], a');
    assert b'[|b'| - 1] == k;
    if i + 1 < |n.keys| { assert a'[0] == n.keys[i + 1]; }
  }

  lemma BorrowPrevAround(n: Node, h: nat, i: nat, k: int)
    requires Well(n, h, 1) && h > 0 && Strict(Flat(n)) && Around(n, i, k) && i > 0
    requires |n.kids[i].keys| < MIN_KEYS && |n.kids[i - 1].keys| >= MIN_KEYS
    ensures n.kids[i].kids != [] ==> n.kids[i - 1].kids != []
    ensures Around(BorrowFromPrev(n, i), i, k)
  {
    hide Flat;
    hide Strict;
    BorrowPrevOk(n, h, i, 1);
    KidKeys(n, i - 1);
    assert AllWell(n.kids, h - 1);
    LastInside(n.kids[i - 1], h - 1);
  }

  lemma BorrowNextAround(n: Node, h: nat, i: nat, k: int)
    requires Well(n, h, 1) && h > 0 && Strict(Flat(n)) && Around(n, i, k) && i < |n.keys|
    requires |n.kids[i].keys| < MIN_KEYS && |n.kids[i + 1].keys| >= MIN_KEYS
    ensures n.kids[i].kids != [] ==> n.kids[i + 1].kids != []
    ensures Around(BorrowFromNext(n, i), i, k)
  {
    hide Flat;
    hide Strict;
    BorrowNextOk(n, h, i, 1);
    KidKeys(n, i);
    assert AllWell(n.kids, h - 1);
    FirstInside(n.kids[i + 1], h - 1);
  }

  lemma FillAround(n: Node, h: nat, i: nat, k: int)
    requires Well(n, h, 1) && h > 0 && Strict(Flat(n)) && Around(n, i, k) && |n.kids[i].keys| < MIN_KEYS
    ensures Around(Fill(n, i, h), FillChild(n, i, Fill(n, i, h)), k)
  {
    hide Flat;
    hide Strict;
    assert AllWell(n.kids, h - 1);
    if i != 0 && |n.kids[i - 1].keys| >= MIN_KEYS {
      BorrowPrevAround(n, h, i, k);
    } else if i != |n.keys| && |n.kids[i + 1].keys| >= MIN_KEYS {
      BorrowNextAround(n, h, i, k);
    } else if i != |n.keys| {
      if i + 1 < |n.keys| { KeyOrder(n, i + 1); }
    } else if i > 1 {
      KeyOrder(n, i - 1);
    }
  }

  // After fill, k belongs into the chosen child: every key before it is smaller, every one after it larger.
  lemma RemoveStepBounds(n: Node, h: nat, i: nat, k: int)
    requires Well(n, h, 1) && h > 0 && Strict(Flat(n)) && i == FindKey(n.keys, k) && (i < |n.keys| ==> n.keys[i] != k)
    ensures var u := if |n.kids[i].keys| < MIN_KEYS then Fill(n, i, h) else n;
            var j := if |n.kids[i].keys| < MIN_KEYS then FillChild(n, i, u) else i;
            && |u.kids| == |u.keys| + 1 && j <= |u.keys|
            && k !in Before(u.keys, Flats(u.kids), j) && k !in After(u.keys, Flats(u.kids), j)
  {
    hide Flat;
    hide Flats;
    hide Strict;
    assert AllWell(n.kids, h - 1) && Around(n, i, k);
    RemoveStep(n, h, i);
    if |n.kids[i].keys| < MIN_KEYS { FillAround(n, h, i, k); }
    hide Fill;
    var u := if |n.kids[i].keys| < MIN_KEYS then Fill(n, i, h) else n;
    var j := if |n.kids[i].keys| < MIN_KEYS then FillChild(n, i, u) else i;
    AroundOutside(u, j, k);
  }

  lemma LastInside(n: Node, h: nat)
    requires Well(n, h, 0)
    ensures n.keys != [] ==> n.keys[|n.keys| - 1] in Flat(n)
  {
    if n.keys != [] { KeyInside(n, h, |n.keys| - 1); }
  }

  lemma FirstInside(n: Node, h: nat)
    requires Well(n, h, 0)
    ensures n.keys != [] ==> n.keys[0] in Flat(n)
  {
    if n.keys != [] { KeyInside(n, h, 0); }
  }

  lemma RemoveNonLeafFlat(n: Node, i: nat, h: nat)
    requires Well(n, h, 1) && h > 0 && i < |n.keys| && Strict(Flat(n))
    ensures Flat(RemoveFromNonLeaf(n, i, h)) == DeleteSeq(Flat(n), n.keys[i])
    decreases h, 1
  {
    hide Flat;
    hide Strict;
    hide DeleteSeq;
    hide Merge;
    assert AllWell(n.kids, h - 1);
    KidStrict(n, i);
    KidStrict(n, i + 1);
    if |n.kids[i].keys| >= MIN_KEYS {
      var d := n.kids[i];
      WellLess(d, h - 1, MIN_KEYS - 1, 1);
      LastKeyIsLast(d, h - 1);
      var pred := LastKey(d, h - 1);
      RemoveFlat(d, pred, h - 1);
      DeleteLast(Flat(d));
      PredReplaces(n, i, Remove(d, pred, h - 1), pred);
    } else if |n.kids[i + 1].keys| >= MIN_KEYS {
      var d := n.kids[i + 1];
      WellLess(d, h - 1, MIN_KEYS - 1, 1);
      FirstKeyIsFirst(d, h - 1);
      var succ := FirstKey(d, h - 1);
      RemoveFlat(d, succ, h - 1);
      DeleteFirst(Flat(d));
      SuccReplaces(n, i, Remove(d, succ, h - 1), succ);
    } else {
      MergeOk(n, h, i, |n.keys|);
      MergedRemove(n, i, h);
    }
  }

  lemma MergedRemove(n: Node, i: nat, h: nat)
    requires Well(n, h, 1) && h > 0 && i < |n.keys| && Strict(Flat(n))
    requires |n.kids[i].keys| == MIN_KEYS - 1 && |n.kids[i + 1].keys| == MIN_KEYS - 1
    ensures var u, k := Merge(n, i), n.keys[i];
            && Well(u.kids[i], h - 1, 1)
            && Flat(Node(u.keys, u.kids[i := Remove(u.kids[i], k, h - 1)])) == DeleteSeq(Flat(n), k)
    decreases h, 0
  {
    hide Flat;
    hide Flats;
    hide Strict;
    hide DeleteSeq;
    hide Before;
    hide After;
    var u, k := Merge(n, i), n.keys[i];
    MergeOk(n, h, i, |n.keys|);
    KidKeys(n, i);
    if i > 0 { KeyOrder(n, i); }
    AroundOutside(u, i, k);
    WellLess(u.kids[i], h - 1, MAX_KEYS, 1);
    KidStrict(u, i);
    RemoveFlat(u.kids[i], k, h - 1);
    DeleteInKid(u, i, Remove(u.kids[i], k, h - 1), k);
  }

  lemma KeyOrder(n: Node, i: nat)
    requires |n.kids| == |n.keys| + 1 && 0 < i < |n.keys| && Strict(Flat(n))
    ensures n.keys[i - 1] < n.keys[i]
  {
    KidKeys(n, i - 1);
  }

  // ---- BTree::remove (lines 807-826) ----

  function RemoveKey(t: Tree, k: int, ghost h: nat): Tree
    requires TreeOk(t, h)
  {
    if t.NoRoot? then NoRoot
    else
      var r := Remove(t.n, k, h);
      if |r.keys| > 0 then Root(r) else if r.kids == [] then NoRoot else Root(r.kids[0])
  }

  lemma RemoveKeyOk(t: Tree, k: int, h: nat)
    requires TreeOk(t, h)
    ensures TreeOk(RemoveKey(t, k, h), if t.Root? && h > 0 && Remove(t.n, k, h).keys == [] then h - 1 else h)
  {
    if t.Root? {
      var r := Remove(t.n, k, h);
      if |r.keys| == 0 && r.kids != [] {
        assert AllWell(r.kids, h - 1);
        WellLess(r.kids[0], h - 1, MIN_KEYS - 1, 1);
      }
    }
  }

  // Removal is the difference with {k}, in order, for every well-formed tree and every key.
  lemma RemoveExact(t: Tree, k: int, h: nat)
    requires TreeOk(t, h) && Strict(Contents(t))
    ensures Contents(RemoveKey(t, k, h)) == DeleteSeq(Contents(t), k)
  {
    if t.Root? {
      RemoveFlat(t.n, k, h);
      var r := Remove(t.n, k, h);
      if |r.keys| == 0 && r.kids != [] { assert Flats(r.kids)[0] == Flat(r.kids[0]); }
    }
  }

  // As sets of keys: an absent key is added and nothing else changes ...
  lemma InsertAbsent(t: Tree, k: int, h: nat)
    requires TreeOk(t, h) && Strict(Contents(t)) && k !in Contents(t)
    ensures Strict(Contents(Insert(t, k, h)))
    ensures forall x :: x in Contents(Insert(t, k, h)) <==> x in Contents(t) || x == k
  {
    InsertExact(t, k, h);
    InsertIsUnion(Contents(t), k);
    if RootFull(t) { KeyInside(t.n, h, MIN_KEYS - 1); }
  }

  // ... and any key is removed.
  lemma RemoveAny(t: Tree, k: int, h: nat)
    requires TreeOk(t, h) && Strict(Contents(t))
    ensures Strict(Contents(RemoveKey(t, k, h)))
    ensures forall x :: x in Contents(RemoveKey(t, k, h)) <==> x in Contents(t) && x != k
  {
    RemoveExact(t, k, h);
    DeleteIsDifference(Contents(t), k);
  }
}
