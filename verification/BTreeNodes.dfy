// The B-tree of comparison_systems/terrace/code/include/btree.h as its methods run: nodes with fixed
// arrays of keys and child pointers, changed in place, allocated and freed. Each method is proved
// against the function of module BTree for it.
module BTreeNodes {
  import opened BTree
  import opened BTreeAnswers
  import opened SortedSeq

  // Pointers; 0 is nullptr.
  type Ref = nat

  // keys and children are the whole arrays, of which only the first num keys and num + 1 children count.
  datatype Cell = Cell(keys: seq<int>, children: seq<Ref>, num: nat, leaf: bool)

  const MAX_CHILDREN := 128

  // A tree of nodes with their identities.
  datatype Shape = Shape(ref: Ref, keys: seq<int>, kids: seq<Shape>)

  ghost function Value(s: Shape): Node { Node(s.keys, Values(s.kids)) }

  ghost function Values(kids: seq<Shape>): (r: seq<Node>)
    ensures |r| == |kids| && forall i :: 0 <= i < |kids| ==> r[i] == Value(kids[i])
  {
    seq(|kids|, i requires 0 <= i < |kids| => Value(kids[i]))
  }

  // ---- What the memory holds ----

  ghost predicate Sized(c: Cell) { |c.keys| == MAX_KEYS && |c.children| == MAX_CHILDREN }

  ghost predicate Holds(c: Cell, s: Shape)
  {
    && Sized(c) && c.num == |s.keys| <= MAX_KEYS && (c.leaf <==> s.kids == [])
    && (forall i :: 0 <= i < |s.keys| ==> c.keys[i] == s.keys[i])
    && (s.kids != [] ==> |s.kids| == |s.keys| + 1)
    && (forall i :: 0 <= i < |s.kids| ==> c.children[i] == s.kids[i].ref)
  }

  ghost predicate Rep(m: map<Ref, Cell>, s: Shape)
    decreases s
  {
    && s.ref != 0 && s.ref in m && Holds(m[s.ref], s)
    && forall i :: 0 <= i < |s.kids| ==> Rep(m, s.kids[i])
  }

  // How often a node occurs in a tree.
  ghost function Occ(s: Shape, x: Ref): nat
    decreases s
  {
    (if s.ref == x then 1 else 0) + OccAll(s.kids, x)
  }

  ghost function OccAll(kids: seq<Shape>, x: Ref): nat
    decreases kids
  {
    if kids == [] then 0 else OccAll(kids[..|kids| - 1], x) + Occ(kids[|kids| - 1], x)
  }

  ghost predicate Distinct(s: Shape) { forall x :: Occ(s, x) <= 1 }

  lemma {:induction false} OccConcat(a: seq<Shape>, b: seq<Shape>, x: Ref)
    ensures OccAll(a + b, x) == OccAll(a, x) + OccAll(b, x)
  {
    if b == [] {
      assert a + b == a;
    } else {
      OccConcat(a, b[..|b| - 1], x);
      assert (a + b)[..|a + b| - 1] == a + b[..|b| - 1];
    }
  }

  lemma OccOne(s: Shape, x: Ref)
    ensures OccAll([s], x) == Occ(s, x)
  {
    assert [s][..0] == [];
  }

  lemma OccAt(kids: seq<Shape>, i: nat, x: Ref)
    requires i < |kids|
    ensures OccAll(kids, x) == OccAll(kids[..i], x) + Occ(kids[i], x) + OccAll(kids[i + 1..], x)
  {
    assert kids == kids[..i] + ([kids[i]] + kids[i + 1..]);
    OccConcat(kids[..i], [kids[i]] + kids[i + 1..], x);
    OccConcat([kids[i]], kids[i + 1..], x);
    OccOne(kids[i], x);
  }

  lemma OccPair(kids: seq<Shape>, i: nat, x: Ref)
    requires i + 1 < |kids|
    ensures OccAll(kids, x) == OccAll(kids[..i], x) + Occ(kids[i], x) + Occ(kids[i + 1], x) + OccAll(kids[i + 2..], x)
  {
    OccAt(kids, i, x);
    OccAt(kids[i + 1..], 0, x);
    assert kids[i + 1..][1..] == kids[i + 2..] && kids[i + 1..][..0] == [];
  }

  lemma OccSet(kids: seq<Shape>, i: nat, c: Shape, x: Ref)
    requires i < |kids|
    ensures OccAll(kids[i := c], x) + Occ(kids[i], x) == OccAll(kids, x) + Occ(c, x)
  {
    OccAt(kids, i, x);
    OccAt(kids[i := c], i, x);
    assert kids[i := c][..i] == kids[..i] && kids[i := c][i + 1..] == kids[i + 1..];
  }

  lemma OccTwo(kids: seq<Shape>, i: nat, j: nat, x: Ref)
    requires i < j < |kids|
    ensures Occ(kids[i], x) + Occ(kids[j], x) <= OccAll(kids, x)
  {
    OccAt(kids, j, x);
    OccAt(kids[..j], i, x);
  }

  // Two nodes of a tree without repetition are apart.
  lemma KidsApart(s: Shape, i: nat, j: nat, x: Ref)
    requires Distinct(s) && i < |s.kids| && j < |s.kids| && Occ(s.kids[i], x) > 0
    ensures x != s.ref && Occ(s, x) > 0 && Distinct(s.kids[i]) && (i != j ==> Occ(s.kids[j], x) == 0)
  {
    assert Occ(s, x) <= 1;
    OccAt(s.kids, i, x);
    if i < j { OccTwo(s.kids, i, j, x); }
    if j < i { OccTwo(s.kids, j, i, x); }
    KidDistinct(s, i);
  }

  lemma KidDistinct(s: Shape, i: nat)
    requires Distinct(s) && i < |s.kids|
    ensures Distinct(s.kids[i])
  {
    forall x
      ensures Occ(s.kids[i], x) <= 1
    {
      assert Occ(s, x) <= 1;
      OccAt(s.kids, i, x);
    }
  }

  lemma {:induction false} RepFrame(m: map<Ref, Cell>, m': map<Ref, Cell>, s: Shape)
    requires Rep(m, s) && forall x :: Occ(s, x) > 0 && x in m ==> x in m' && m'[x] == m[x]
    ensures Rep(m', s)
    decreases s
  {
    assert Occ(s, s.ref) > 0;
    forall i: nat | i < |s.kids|
      ensures Rep(m', s.kids[i])
    {
      forall x | Occ(s.kids[i], x) > 0 && x in m
        ensures x in m' && m'[x] == m[x]
      {
        OccAt(s.kids, i, x);
        assert Occ(s, x) > 0;
      }
      RepFrame(m, m', s.kids[i]);
    }
  }

  lemma {:induction false} RepIn(m: map<Ref, Cell>, s: Shape, x: Ref)
    requires Rep(m, s) && Occ(s, x) > 0
    ensures x in m && x != 0
    decreases s
  {
    if x != s.ref { RepAllIn(m, s.kids, x); }
  }

  lemma {:induction false} RepAllIn(m: map<Ref, Cell>, kids: seq<Shape>, x: Ref)
    requires OccAll(kids, x) > 0 && forall i :: 0 <= i < |kids| ==> Rep(m, kids[i])
    ensures x in m && x != 0
    decreases kids
  {
    var n := |kids| - 1;
    if Occ(kids[n], x) > 0 { RepIn(m, kids[n], x); } else { RepAllIn(m, kids[..n], x); }
  }

  // A method on the tree s leaves the tree s' at the same root: nodes outside are as before, new ones are
  // new, and what is not in the tree any more has been freed.
  ghost predicate Evolves(m: map<Ref, Cell>, s: Shape, m': map<Ref, Cell>, s': Shape)
  {
    && Rep(m', s') && Distinct(s') && s'.ref == s.ref
    && Outside(m, s, m', s')
  }

  ghost predicate Outside(m: map<Ref, Cell>, s: Shape, m': map<Ref, Cell>, s': Shape)
  {
    && (forall x :: x in m && Occ(s, x) == 0 ==> x in m' && m'[x] == m[x] && Occ(s', x) == 0)
    && (forall x :: x in m' ==> Occ(s', x) > 0 || (x in m && Occ(s, x) == 0))
  }

  lemma EvolvesTrans(m0: map<Ref, Cell>, s0: Shape, m1: map<Ref, Cell>, s1: Shape, m2: map<Ref, Cell>, s2: Shape)
    requires Evolves(m0, s0, m1, s1) && Evolves(m1, s1, m2, s2)
    ensures Evolves(m0, s0, m2, s2)
  {
  }

  lemma EvolvesSelf(m: map<Ref, Cell>, s: Shape)
    requires Rep(m, s) && Distinct(s)
    ensures Evolves(m, s, m, s)
  {
  }

  // A change below the child j.
  lemma EvolvesKid(m: map<Ref, Cell>, s: Shape, j: nat, m': map<Ref, Cell>, c: Shape)
    requires Rep(m, s) && Distinct(s) && j < |s.kids| && Evolves(m, s.kids[j], m', c)
    ensures Evolves(m, s, m', s.(kids := s.kids[j := c]))
    ensures Value(s.(kids := s.kids[j := c])) == Node(s.keys, Values(s.kids)[j := Value(c)])
  {
    hide Occ, Rep, Values, Value;
    var s' := s.(kids := s.kids[j := c]);
    ValueReplace(s, j, c);
    forall x
      ensures Occ(s', x) + Occ(s.kids[j], x) == Occ(s, x) + Occ(c, x)
      ensures Occ(s, x) >= Occ(s.kids[j], x) && Occ(s', x) >= Occ(c, x) && Occ(s, x) <= 1
      ensures Occ(s, x) > 0 ==> x in m
    {
      OccReplace(s, j, c, x);
      if Occ(s, x) > 0 { RepIn(m, s, x); }
    }
    KidOutside(m, s, j, m', c);
  }

  lemma ValueReplace(s: Shape, j: nat, c: Shape)
    requires j < |s.kids|
    ensures Value(s.(kids := s.kids[j := c])) == Node(s.keys, Values(s.kids)[j := Value(c)])
  {
  }

  lemma OccReplace(s: Shape, j: nat, c: Shape, x: Ref)
    requires j < |s.kids|
    ensures var s' := s.(kids := s.kids[j := c]);
      && Occ(s', x) + Occ(s.kids[j], x) == Occ(s, x) + Occ(c, x)
      && Occ(s, x) >= Occ(s.kids[j], x) && Occ(s', x) >= Occ(c, x)
  {
    OccSet(s.kids, j, c, x);
    OccAt(s.kids, j, x);
    OccAt(s.kids[j := c], j, x);
  }

  lemma KidOutside(m: map<Ref, Cell>, s: Shape, j: nat, m': map<Ref, Cell>, c: Shape)
    requires Rep(m, s) && Distinct(s) && j < |s.kids| && Evolves(m, s.kids[j], m', c)
    ensures Rep(m', s.(kids := s.kids[j := c]))
  {
    var s' := s.(kids := s.kids[j := c]);
    assert Occ(s, s.ref) <= 1;
    OccAt(s.kids, j, s.ref);
    assert m'[s.ref] == m[s.ref];
    forall i: nat | i < |s.kids| && i != j
      ensures Rep(m', s.kids[i])
    {
      forall x | Occ(s.kids[i], x) > 0 && x in m
        ensures x in m' && m'[x] == m[x]
      {
        KidsApart(s, i, j, x);
      }
      RepFrame(m, m', s.kids[i]);
    }
  }

  // ---- A change of a node and some of its children ----

  // Only the root of s and its children may differ.
  ghost predicate Touches(m: map<Ref, Cell>, s: Shape, m': map<Ref, Cell>)
  {
    forall x :: x in m && x != s.ref && !IsKid(s, x) ==> x in m' && m'[x] == m[x]
  }

  ghost predicate IsKid(s: Shape, x: Ref) { exists i :: 0 <= i < |s.kids| && s.kids[i].ref == x }

  // A node two levels down or more is neither.
  lemma Deep(s: Shape, i: nat, l: nat, x: Ref)
    requires Distinct(s) && i < |s.kids| && l < |s.kids[i].kids| && Occ(s.kids[i].kids[l], x) > 0
    ensures x != s.ref && !IsKid(s, x)
  {
    var c := s.kids[i];
    OccAt(c.kids, l, x);
    KidsApart(s, i, i, x);
    assert Occ(c, x) <= 1;
    forall q: nat | q < |s.kids|
      ensures s.kids[q].ref != x
    {
      KidsApart(s, i, q, x);
    }
  }

  lemma GrandStay(m: map<Ref, Cell>, s: Shape, m': map<Ref, Cell>)
    requires Rep(m, s) && Distinct(s) && Touches(m, s, m')
    ensures forall i, l :: 0 <= i < |s.kids| && 0 <= l < |s.kids[i].kids| ==> Rep(m', s.kids[i].kids[l])
  {
    forall i: nat, l: nat | i < |s.kids| && l < |s.kids[i].kids|
      ensures Rep(m', s.kids[i].kids[l])
    {
      assert Rep(m, s.kids[i]);
      forall x | Occ(s.kids[i].kids[l], x) > 0 && x in m
        ensures x in m' && m'[x] == m[x]
      {
        Deep(s, i, l, x);
      }
      RepFrame(m, m', s.kids[i].kids[l]);
    }
  }

  // A child that is left alone.
  lemma KidStays(m: map<Ref, Cell>, s: Shape, m': map<Ref, Cell>, q: nat)
    requires Rep(m, s) && Distinct(s) && Touches(m, s, m') && q < |s.kids|
    requires s.kids[q].ref in m && s.kids[q].ref in m' && m'[s.kids[q].ref] == m[s.kids[q].ref]
    ensures Rep(m', s.kids[q])
  {
    GrandStay(m, s, m');
    assert Rep(m, s.kids[q]);
  }

  // The children of s are different nodes, and not s.
  lemma KidRefs(m: map<Ref, Cell>, s: Shape)
    requires Rep(m, s) && Distinct(s)
    ensures forall i, j :: 0 <= i < j < |s.kids| ==> s.kids[i].ref != s.kids[j].ref
    ensures forall i :: 0 <= i < |s.kids| ==> s.kids[i].ref != s.ref && s.kids[i].ref in m && s.kids[i].ref != 0
  {
    forall i: nat, j: nat | i < j < |s.kids|
      ensures s.kids[i].ref != s.kids[j].ref
    {
      KidsApart(s, i, j, s.kids[i].ref);
    }
    forall i: nat | i < |s.kids|
      ensures s.kids[i].ref != s.ref && s.kids[i].ref in m && s.kids[i].ref != 0
    {
      KidsApart(s, i, i, s.kids[i].ref);
      assert Rep(m, s.kids[i]);
    }
  }

  // memmove and memcpy: count elements from one place of an array to another.
  function Moved<T>(to: seq<T>, at: nat, from: seq<T>, start: nat, count: nat): (r: seq<T>)
    requires at + count <= |to| && start + count <= |from|
    ensures |r| == |to| && (forall i :: 0 <= i < at ==> r[i] == to[i])
    ensures forall i :: at <= i < at + count ==> r[i] == from[start + i - at]
    ensures forall i :: at + count <= i < |to| ==> r[i] == to[i]
  {
    to[..at] + from[start..start + count] + to[at + count..]
  }

  // ---- splitChild on shapes ----

  ghost function LeftShape(a: Shape): Shape
    requires |a.keys| == MAX_KEYS
  {
    Shape(a.ref, a.keys[..MIN_KEYS - 1], if |a.kids| >= MIN_KEYS then a.kids[..MIN_KEYS] else [])
  }

  ghost function RightShape(a: Shape, z: Ref): Shape
    requires |a.keys| == MAX_KEYS
  {
    Shape(z, a.keys[MIN_KEYS..], if |a.kids| >= MIN_KEYS then a.kids[MIN_KEYS..] else [])
  }

  ghost function SplitShape(s: Shape, i: nat, z: Ref): Shape
    requires i < |s.kids| && i <= |s.keys| && |s.kids[i].keys| == MAX_KEYS
  {
    var a := s.kids[i];
    Shape(s.ref, s.keys[..i] + [a.keys[MIN_KEYS - 1]] + s.keys[i..],
          s.kids[..i] + [LeftShape(a), RightShape(a, z)] + s.kids[i + 1..])
  }

  lemma SplitValue(s: Shape, i: nat, z: Ref)
    requires i < |s.kids| && i <= |s.keys| && |s.kids[i].keys| == MAX_KEYS
    ensures Value(SplitShape(s, i, z)) == SplitChild(Value(s), i)
  {
    hide Flat, Well;
    var a, s' := s.kids[i], SplitShape(s, i, z);
    HalvesValue(a, z);
    hide LeftShape, RightShape, LeftHalf, RightHalf;
    SplicedValues(s.kids, i, LeftShape(a), RightShape(a, z));
  }

  lemma HalvesValue(a: Shape, z: Ref)
    requires |a.keys| == MAX_KEYS
    ensures Value(LeftShape(a)) == LeftHalf(Value(a)) && Value(RightShape(a, z)) == RightHalf(Value(a))
  {
    if |a.kids| >= MIN_KEYS {
      assert Values(a.kids[..MIN_KEYS]) == Values(a.kids)[..MIN_KEYS];
      assert Values(a.kids[MIN_KEYS..]) == Values(a.kids)[MIN_KEYS..];
    }
  }

  lemma SplicedValues(kids: seq<Shape>, i: nat, a: Shape, b: Shape)
    requires i < |kids|
    ensures
      Values(kids[..i] + [a, b] + kids[i + 1..]) == Values(kids)[..i] + [Value(a), Value(b)] + Values(kids)[i + 1..]
  {
  }

  lemma SplitOcc(s: Shape, i: nat, z: Ref, x: Ref)
    requires i < |s.kids| && i <= |s.keys| && |s.kids[i].keys| == MAX_KEYS
    requires s.kids[i].kids == [] || |s.kids[i].kids| == MAX_KEYS + 1
    ensures Occ(SplitShape(s, i, z), x) == Occ(s, x) + if x == z then 1 else 0
  {
    var a, s' := s.kids[i], SplitShape(s, i, z);
    OccAt(s.kids, i, x);
    OccPair(s'.kids, i, x);
    assert s'.kids[..i] == s.kids[..i] && s'.kids[i + 2..] == s.kids[i + 1..];
    if a.kids != [] {
      assert a.kids == a.kids[..MIN_KEYS] + a.kids[MIN_KEYS..];
      OccConcat(a.kids[..MIN_KEYS], a.kids[MIN_KEYS..], x);
    }
  }

  // The three cells of a split.
  ghost predicate SplitCells(m: map<Ref, Cell>, s: Shape, i: nat, z: Ref, m': map<Ref, Cell>)
    requires i < |s.kids| && i <= |s.keys| && |s.kids[i].keys| == MAX_KEYS
  {
    var c, s' := s.kids[i].ref, SplitShape(s, i, z);
    && z !in m && z != 0 && m'.Keys == m.Keys + {z} && s.ref in m' && c in m'
    && (forall x :: x in m && x != s.ref && x != c ==> m'[x] == m[x])
    && Holds(m'[s.ref], s') && Holds(m'[c], LeftShape(s.kids[i])) && Holds(m'[z], RightShape(s.kids[i], z))
  }

  lemma SplitEvolves(m: map<Ref, Cell>, s: Shape, i: nat, z: Ref, m': map<Ref, Cell>)
    requires Rep(m, s) && Distinct(s) && i < |s.kids| && i <= |s.keys| && |s.kids[i].keys| == MAX_KEYS
    requires SplitCells(m, s, i, z, m')
    ensures Evolves(m, s, m', SplitShape(s, i, z))
  {
    hide Occ, Rep, SplitShape, LeftShape, RightShape, Holds;
    SplitKids(m, s, i, z, m');
    forall x
      ensures Occ(SplitShape(s, i, z), x) == Occ(s, x) + (if x == z then 1 else 0)
      ensures Occ(s, x) > 0 ==> x in m
    {
      SplitOcc(s, i, z, x);
      if Occ(s, x) > 0 { RepIn(m, s, x); }
    }
  }

  lemma SplitKids(m: map<Ref, Cell>, s: Shape, i: nat, z: Ref, m': map<Ref, Cell>)
    requires Rep(m, s) && Distinct(s) && i < |s.kids| && i <= |s.keys| && |s.kids[i].keys| == MAX_KEYS
    requires SplitCells(m, s, i, z, m')
    ensures Rep(m', SplitShape(s, i, z)) && Touches(m, s, m')
    ensures Occ(s, s.ref) > 0 && Occ(s, s.kids[i].ref) > 0 && SplitShape(s, i, z).ref == s.ref
    ensures s.kids[i].kids == [] || |s.kids[i].kids| == MAX_KEYS + 1
  {
    var a, s' := s.kids[i], SplitShape(s, i, z);
    KidRefs(m, s);
    assert IsKid(s, a.ref);
    GrandStay(m, s, m');
    OccAt(s.kids, i, a.ref);
    assert Rep(m, a) && Rep(m', LeftShape(a)) && Rep(m', RightShape(a, z));
    forall q: nat | q < |s'.kids|
      ensures Rep(m', s'.kids[q])
    {
      if q < i { KidStays(m, s, m', q); }
      if q > i + 1 { KidStays(m, s, m', q - 1); }
    }
  }

  // ---- Borrowing and merging on shapes ----

  ghost function PairShape(s: Shape, i: nat, a: Shape, x: int, b: Shape): Shape
    requires i < |s.keys| && i + 1 < |s.kids|
  {
    Shape(s.ref, s.keys[i := x], s.kids[i := a][i + 1 := b])
  }

  // Two neighbours have exchanged keys through their parent.
  ghost predicate PairCells(m: map<Ref, Cell>, s: Shape, i: nat, a: Shape, x: int, b: Shape, m': map<Ref, Cell>)
    requires i < |s.keys| && i + 1 < |s.kids|
  {
    && m'.Keys == m.Keys && s.ref in m && a.ref in m && b.ref in m
    && a.ref == s.kids[i].ref && b.ref == s.kids[i + 1].ref
    && (forall y :: y in m && y != s.ref && y != a.ref && y != b.ref ==> m'[y] == m[y])
    && Holds(m'[s.ref], PairShape(s, i, a, x, b)) && Holds(m'[a.ref], a) && Holds(m'[b.ref], b)
  }

  // The children of a and b are those that the two nodes had.
  ghost predicate SameGrandKids(s: Shape, i: nat, a: Shape, b: Shape)
    requires i + 1 < |s.kids|
  {
    var p, q := s.kids[i].kids, s.kids[i + 1].kids;
    && (forall y :: OccAll(a.kids, y) + OccAll(b.kids, y) == OccAll(p, y) + OccAll(q, y))
    && (forall t :: t in a.kids || t in b.kids ==> t in p || t in q)
  }

  lemma PairOcc(s: Shape, i: nat, a: Shape, x: int, b: Shape, y: Ref)
    requires i < |s.keys| && i + 1 < |s.kids| && SameGrandKids(s, i, a, b)
    requires a.ref == s.kids[i].ref && b.ref == s.kids[i + 1].ref
    ensures Occ(PairShape(s, i, a, x, b), y) == Occ(s, y)
  {
    var kids' := s.kids[i := a][i + 1 := b];
    OccPair(s.kids, i, y);
    OccPair(kids', i, y);
    assert kids'[..i] == s.kids[..i] && kids'[i + 2..] == s.kids[i + 2..];
  }

  lemma GrandIn(m: map<Ref, Cell>, s: Shape, m': map<Ref, Cell>, i: nat, a: Shape)
    requires Rep(m, s) && Distinct(s) && Touches(m, s, m') && i + 1 < |s.kids|
    requires forall t <- a.kids :: t in s.kids[i].kids || t in s.kids[i + 1].kids
    requires a.ref != 0 && a.ref in m' && Holds(m'[a.ref], a)
    ensures Rep(m', a)
  {
    GrandStay(m, s, m');
    forall l: nat | l < |a.kids|
      ensures Rep(m', a.kids[l])
    {
      assert a.kids[l] in a.kids;
    }
  }

  lemma PairRep(m: map<Ref, Cell>, s: Shape, i: nat, a: Shape, x: int, b: Shape, m': map<Ref, Cell>)
    requires Rep(m, s) && Distinct(s) && i < |s.keys| && i + 1 < |s.kids|
    requires PairCells(m, s, i, a, x, b, m') && SameGrandKids(s, i, a, b)
    ensures Rep(m', PairShape(s, i, a, x, b))
    ensures Occ(s, s.ref) > 0 && Occ(s, a.ref) > 0 && Occ(s, b.ref) > 0
  {
    var s' := PairShape(s, i, a, x, b);
    KidRefs(m, s);
    assert IsKid(s, a.ref) && IsKid(s, b.ref);
    OccAt(s.kids, i, a.ref);
    OccAt(s.kids, i + 1, b.ref);
    GrandIn(m, s, m', i, a);
    GrandIn(m, s, m', i, b);
    forall q: nat | q < |s'.kids|
      ensures Rep(m', s'.kids[q])
    {
      if q != i && q != i + 1 { KidStays(m, s, m', q); }
    }
  }

  lemma PairEvolves(m: map<Ref, Cell>, s: Shape, i: nat, a: Shape, x: int, b: Shape, m': map<Ref, Cell>)
    requires Rep(m, s) && Distinct(s) && i < |s.keys| && i + 1 < |s.kids|
    requires PairCells(m, s, i, a, x, b, m') && SameGrandKids(s, i, a, b)
    ensures Evolves(m, s, m', PairShape(s, i, a, x, b))
  {
    hide Occ, Rep, Holds, SameGrandKids;
    PairRep(m, s, i, a, x, b, m');
    forall y
      ensures Occ(PairShape(s, i, a, x, b), y) == Occ(s, y)
    {
      PairOcc(s, i, a, x, b, y);
    }
  }

  lemma PairValue(s: Shape, i: nat, a: Shape, x: int, b: Shape)
    requires i < |s.keys| && i + 1 < |s.kids|
    ensures Value(PairShape(s, i, a, x, b)) == Node(s.keys[i := x], Values(s.kids)[i := Value(a)][i + 1 := Value(b)])
  {
  }

  ghost function FromPrevShape(c: Shape, x: int, sib: Shape): Shape
    requires c.kids != [] ==> sib.kids != []
  {
    Shape(c.ref, [x] + c.keys, if c.kids == [] then [] else [sib.kids[|sib.kids| - 1]] + c.kids)
  }

  ghost function LessLast(sib: Shape): Shape
    requires sib.keys != []
  {
    Shape(sib.ref, sib.keys[..|sib.keys| - 1], if sib.kids == [] then [] else sib.kids[..|sib.kids| - 1])
  }

  ghost function FromNextShape(c: Shape, x: int, sib: Shape): Shape
    requires c.kids != [] ==> sib.kids != []
  {
    Shape(c.ref, c.keys + [x], if c.kids == [] then [] else c.kids + [sib.kids[0]])
  }

  ghost function LessFirst(sib: Shape): Shape
    requires sib.keys != []
  {
    Shape(sib.ref, sib.keys[1..], if sib.kids == [] then [] else sib.kids[1..])
  }

  // Two nodes of the same height: both leaves or both not.
  ghost predicate Level(c: Shape, sib: Shape) { sib.keys != [] && (c.kids == [] <==> sib.kids == []) }

  lemma PrevGrand(s: Shape, i: nat, x: int)
    requires 0 < i < |s.kids| && Level(s.kids[i], s.kids[i - 1])
    ensures SameGrandKids(s, i - 1, LessLast(s.kids[i - 1]), FromPrevShape(s.kids[i], x, s.kids[i - 1]))
  {
    var c, sib := s.kids[i], s.kids[i - 1];
    var a, b := LessLast(sib), FromPrevShape(c, x, sib);
    if c.kids != [] {
      var n := |sib.kids| - 1;
      forall y
        ensures OccAll(a.kids, y) + OccAll(b.kids, y) == OccAll(sib.kids, y) + OccAll(c.kids, y)
      {
        OccAt(sib.kids, n, y);
        assert sib.kids[n + 1..] == [];
        OccConcat([sib.kids[n]], c.kids, y);
        OccOne(sib.kids[n], y);
      }
    }
  }

  lemma NextGrand(s: Shape, i: nat, x: int)
    requires i + 1 < |s.kids| && Level(s.kids[i], s.kids[i + 1])
    ensures SameGrandKids(s, i, FromNextShape(s.kids[i], x, s.kids[i + 1]), LessFirst(s.kids[i + 1]))
  {
    hide Occ, Value, Values, OccAll;
    var c, sib := s.kids[i], s.kids[i + 1];
    var a, b := FromNextShape(c, x, sib), LessFirst(sib);
    forall y
      ensures OccAll(a.kids, y) + OccAll(b.kids, y) == OccAll(c.kids, y) + OccAll(sib.kids, y)
    {
      NextOcc(c, x, sib, y);
    }
  }

  lemma NextOcc(c: Shape, x: int, sib: Shape, y: Ref)
    requires Level(c, sib)
    ensures OccAll(FromNextShape(c, x, sib).kids, y) + OccAll(LessFirst(sib).kids, y)
         == OccAll(c.kids, y) + OccAll(sib.kids, y)
  {
    hide Occ, Value, Values;
    if c.kids != [] {
      OccAt(sib.kids, 0, y);
      OccConcat(c.kids, [sib.kids[0]], y);
      OccOne(sib.kids[0], y);
    }
  }

  lemma PrevValue(c: Shape, x: int, sib: Shape)
    requires Level(c, sib)
    ensures Value(LessLast(sib)) == WithoutLast(Value(sib))
    ensures Value(FromPrevShape(c, x, sib)) == ShiftedFromPrev(Value(c), x, Value(sib))
  {
    assert Value(LessLast(sib)).kids == WithoutLast(Value(sib)).kids;
    assert Value(FromPrevShape(c, x, sib)).kids == ShiftedFromPrev(Value(c), x, Value(sib)).kids;
  }

  lemma NextValue(c: Shape, x: int, sib: Shape)
    requires Level(c, sib)
    ensures Value(LessFirst(sib)) == WithoutFirst(Value(sib))
    ensures Value(FromNextShape(c, x, sib)) == ShiftedFromNext(Value(c), x, Value(sib))
  {
    assert Value(LessFirst(sib)).kids == WithoutFirst(Value(sib)).kids;
    assert Value(FromNextShape(c, x, sib)).kids == ShiftedFromNext(Value(c), x, Value(sib)).kids;
  }

  ghost function JoinedShape(c: Shape, x: int, sib: Shape): Shape {
    Shape(c.ref, c.keys + [x] + sib.keys, c.kids + sib.kids)
  }

  ghost function MergeShape(s: Shape, i: nat): Shape
    requires i < |s.keys| && i + 1 < |s.kids|
  {
    Shape(s.ref, s.keys[..i] + s.keys[i + 1..],
          s.kids[..i] + [JoinedShape(s.kids[i], s.keys[i], s.kids[i + 1])] + s.kids[i + 2..])
  }

  ghost predicate MergeCells(m: map<Ref, Cell>, s: Shape, i: nat, m': map<Ref, Cell>)
    requires i < |s.keys| && i + 1 < |s.kids|
  {
    var a, b := s.kids[i], s.kids[i + 1];
    && m'.Keys == m.Keys - {b.ref} && s.ref in m' && a.ref in m'
    && (forall y :: y in m' && y != s.ref && y != a.ref ==> m'[y] == m[y])
    && Holds(m'[s.ref], MergeShape(s, i)) && Holds(m'[a.ref], JoinedShape(a, s.keys[i], b))
  }

  lemma MergeOcc(s: Shape, i: nat, y: Ref)
    requires i < |s.keys| && i + 1 < |s.kids|
    ensures Occ(MergeShape(s, i), y) == Occ(s, y) - if y == s.kids[i + 1].ref then 1 else 0
  {
    var s' := MergeShape(s, i);
    OccPair(s.kids, i, y);
    OccAt(s'.kids, i, y);
    assert s'.kids[..i] == s.kids[..i] && s'.kids[i + 1..] == s.kids[i + 2..];
    OccConcat(s.kids[i].kids, s.kids[i + 1].kids, y);
  }

  lemma MergeRep(m: map<Ref, Cell>, s: Shape, i: nat, m': map<Ref, Cell>)
    requires Rep(m, s) && Distinct(s) && i < |s.keys| && i + 1 < |s.kids| && MergeCells(m, s, i, m')
    ensures Rep(m', MergeShape(s, i))
    ensures Occ(s, s.ref) > 0 && Occ(s, s.kids[i].ref) > 0 && Occ(s, s.kids[i + 1].ref) > 0
  {
    hide Occ, JoinedShape;
    var s', c := MergeShape(s, i), JoinedShape(s.kids[i], s.keys[i], s.kids[i + 1]);
    KidRefs(m, s);
    assert IsKid(s, s.kids[i].ref) && IsKid(s, s.kids[i + 1].ref);
    KidOcc(s, i);
    KidOcc(s, i + 1);
    JoinedKids(s.kids[i], s.keys[i], s.kids[i + 1]);
    GrandIn(m, s, m', i, c);
    forall q: nat | q < |s'.kids|
      ensures Rep(m', s'.kids[q])
    {
      if q < i {
        assert s'.kids[q] == s.kids[q];
        KidStays(m, s, m', q);
      } else if q > i {
        assert s'.kids[q] == s.kids[q + 1];
        KidStays(m, s, m', q + 1);
      } else {
        assert s'.kids[q] == c;
      }
    }
  }

  lemma KidOcc(s: Shape, i: nat)
    requires i < |s.kids|
    ensures Occ(s, s.ref) > 0 && Occ(s, s.kids[i].ref) > 0
  {
    OccAt(s.kids, i, s.kids[i].ref);
  }

  lemma JoinedKids(c: Shape, x: int, sib: Shape)
    ensures JoinedShape(c, x, sib).ref == c.ref
    ensures forall t <- JoinedShape(c, x, sib).kids :: t in c.kids || t in sib.kids
  {
  }

  lemma MergeEvolves(m: map<Ref, Cell>, s: Shape, i: nat, m': map<Ref, Cell>)
    requires Rep(m, s) && Distinct(s) && i < |s.keys| && i + 1 < |s.kids| && MergeCells(m, s, i, m')
    ensures Evolves(m, s, m', MergeShape(s, i))
  {
    hide Occ, Rep, Holds, JoinedShape;
    MergeRep(m, s, i, m');
    forall y
      ensures Occ(MergeShape(s, i), y) == Occ(s, y) - if y == s.kids[i + 1].ref then 1 else 0
    {
      MergeOcc(s, i, y);
    }
  }

  lemma MergeValue(s: Shape, i: nat)
    requires i < |s.keys| && |s.kids| == |s.keys| + 1 && |s.kids[i].keys| == MIN_KEYS - 1
    ensures Value(MergeShape(s, i)) == Merge(Value(s), i)
  {
    hide Flat, Well;
    var c := JoinedShape(s.kids[i], s.keys[i], s.kids[i + 1]);
    assert Value(c).kids == Merged(Value(s.kids[i]), s.keys[i], Value(s.kids[i + 1])).kids;
    assert Value(MergeShape(s, i)).kids == Values(s.kids)[..i] + [Value(c)] + Values(s.kids)[i + 2..];
  }

  // ---- Small facts for the methods ----

  lemma FindKeyIs(keys: seq<int>, k: int, i: nat)
    requires i <= |keys| && (forall j :: 0 <= j < i ==> keys[j] < k) && (i < |keys| ==> k <= keys[i])
    ensures i == FindKey(keys, k)
  {
  }

  lemma Beyond(s: set<Ref>) returns (b: Ref)
    ensures b != 0 && forall x <- s :: x < b
    decreases s
  {
    if s == {} {
      b := 1;
    } else {
      var y :| y in s;
      var c := Beyond(s - {y});
      b := if y < c then c else y + 1;
      assert forall x <- s :: x == y || x in s - {y};
    }
  }

  lemma SomeUnused(m: map<Ref, Cell>)
    ensures exists z: Ref :: z != 0 && z !in m
  {
    var z := Beyond(m.Keys);
    assert z !in m.Keys;
  }

  // A change of the keys of a leaf.
  lemma LeafEvolves(m: map<Ref, Cell>, s: Shape, m': map<Ref, Cell>, keys: seq<int>)
    requires Rep(m, s) && Distinct(s) && s.kids == [] && |keys| <= MAX_KEYS
    requires s.ref in m' && m' == m[s.ref := m'[s.ref]] && Holds(m'[s.ref], Shape(s.ref, keys, []))
    ensures Evolves(m, s, m', Shape(s.ref, keys, [])) && Value(Shape(s.ref, keys, [])) == Node(keys, [])
  {
    forall x
      ensures Occ(Shape(s.ref, keys, []), x) == Occ(s, x) && Occ(s, x) <= 1
    {
    }
  }

  // What a method reads of a node.
  lemma Reads(m: map<Ref, Cell>, s: Shape)
    requires Rep(m, s)
    ensures s.ref in m && Holds(m[s.ref], s)
    ensures
      forall i :: 0 <= i < |s.kids| ==> s.kids[i].ref in m && Holds(m[s.kids[i].ref], s.kids[i]) && Rep(m, s.kids[i])
  {
    forall i: nat | i < |s.kids|
      ensures s.kids[i].ref in m && Holds(m[s.kids[i].ref], s.kids[i]) && Rep(m, s.kids[i])
    {
      assert Rep(m, s.kids[i]);
    }
  }

  lemma ValueParts(s: Shape)
    ensures Value(s).keys == s.keys && Value(s).kids == Values(s.kids)
    ensures forall q :: 0 <= q < |s.kids| ==> Values(s.kids)[q].keys == s.kids[q].keys
  {
  }

  // k is one of the keys in use.
  predicate InCell(c: Cell, k: int) { exists i :: 0 <= i < c.num && i < |c.keys| && c.keys[i] == k }

  lemma FindBelow(n: Node, k: int, h: nat)
    requires Well(n, h, 0)
    ensures var i := FindKey(n.keys, k);
      if i < |n.keys| && n.keys[i] == k then Find(n, k, h)
      else if n.kids == [] then !Find(n, k, h)
      else h > 0 && |n.kids| == |n.keys| + 1 && Well(n.kids[i], h - 1, 0) && Find(n, k, h) == Find(n.kids[i], k, h - 1)
  {
    if h > 0 {
      assert AllWell(n.kids, h - 1);
      WellLess(n.kids[FindKey(n.keys, k)], h - 1, MIN_KEYS - 1, 0);
    }
  }

  lemma InsertHere(n: Node, k: int, h: nat)
    requires Well(n, h, 0) && |n.keys| < MAX_KEYS
    ensures var i := FindKey(n.keys, k);
      if i < |n.keys| && n.keys[i] == k then InsertNonFull(n, k, h) == n && !Inserts(n, k, h)
      else
        n.kids == [] ==>
          InsertNonFull(n, k, h) == Node(n.keys[..i] + [k] + n.keys[i..], []) && Inserts(n, k, h)
  {
  }

  lemma InsertBelow(n: Node, k: int, h: nat)
    requires Well(n, h, 0) && |n.keys| < MAX_KEYS && n.kids != []
    requires var i := FindKey(n.keys, k); !(i < |n.keys| && n.keys[i] == k)
    ensures var (u, j) := Descend(n, FindKey(n.keys, k), k);
      && h > 0 && j < |u.kids| && Well(u.kids[j], h - 1, 0) && |u.kids[j].keys| < MAX_KEYS
      && InsertNonFull(n, k, h)
         == if |u.keys| > |n.keys| && u.keys[FindKey(n.keys, k)] == k then u
            else Node(u.keys, u.kids[j := InsertNonFull(u.kids[j], k, h - 1)])
    ensures var (u, j) := Descend(n, FindKey(n.keys, k), k);
      Inserts(n, k, h) <==> !(|u.keys| > |n.keys| && u.keys[FindKey(n.keys, k)] == k) && Inserts(u.kids[j], k, h - 1)
  {
    DescendWell(n, h, FindKey(n.keys, k), k);
    assert AllWell(n.kids, h - 1);
    hide Flat, SplitChild;
  }

  lemma SplitLength(n: Node, i: nat)
    requires i < |n.kids| && i <= |n.keys| && |n.kids[i].keys| == MAX_KEYS
    ensures |SplitChild(n, i).keys| == |n.keys| + 1
  {
  }

  class Store {
    var mem: map<Ref, Cell>

    constructor ()
      ensures mem == map[]
    {
      mem := map[];
    }

    method NewNode(leaf: bool) returns (z: Ref)
      modifies this`mem
      ensures z != 0 && z !in old(mem) && z in mem && mem == old(mem)[z := mem[z]]
      ensures Sized(mem[z]) && mem[z].num == 0 && mem[z].leaf == leaf
    {
      SomeUnused(mem);
      z :| z != 0 && z !in mem;
      mem := mem[z := Cell(seq(MAX_KEYS, _ => 0), seq(MAX_CHILDREN, _ => 0), 0, leaf)];
    }

    // findKey (lines 490-496); the loop of insertNonFull (lines 291-302) finds the same index.
    method FindKeyIn(n: Ref, k: int, ghost s: Shape) returns (idx: nat)
      requires n == s.ref && Rep(mem, s)
      ensures idx == FindKey(s.keys, k)
    {
      idx := 0;
      while idx < mem[n].num && mem[n].keys[idx] < k
        invariant idx <= |s.keys| && forall j :: 0 <= j < idx ==> s.keys[j] < k
      {
        idx := idx + 1;
      }
      FindKeyIs(s.keys, k, idx);
    }

    // The first part of splitChild (lines 341-356): the upper half of c goes to a new node. Line 352 moves
    // MAX_KEYS child pointers from c's children[MIN_KEYS] on, which is MIN_KEYS - 1 more than are left in
    // that array; here the MIN_KEYS pointers within the array are moved, and the others never count.
    method Halve(c: Ref, ghost a: Shape) returns (z: Ref)
      requires c == a.ref && c in mem && Holds(mem[c], a) && |a.keys| == MAX_KEYS
      modifies this`mem
      ensures z != 0 && z !in old(mem) && z in mem && c in mem && mem == old(mem)[z := mem[z]][c := mem[c]]
      ensures Holds(mem[z], RightShape(a, z)) && Holds(mem[c], LeftShape(a)) && mem[c].keys == old(mem)[c].keys
    {
      z := NewNode(mem[c].leaf);
      mem := mem[z := mem[z].(num := MIN_KEYS - 1, keys := Moved(mem[z].keys, 0, mem[c].keys, MIN_KEYS, MIN_KEYS - 1))];
      if !mem[c].leaf {
        mem := mem[z := mem[z].(children := Moved(mem[z].children, 0, mem[c].children, MIN_KEYS, MIN_KEYS))];
      }
      mem := mem[c := mem[c].(num := MIN_KEYS - 1)];
    }

    // The second part (lines 358-380): room for the new child and the middle key in n.
    method LinkHalf(n: Ref, i: nat, z: Ref, key: int, ghost s: Shape)
      requires n in mem && Holds(mem[n], s) && i < |s.kids| && |s.keys| < MAX_KEYS && |s.kids[i].keys| == MAX_KEYS
      requires key == s.kids[i].keys[MIN_KEYS - 1]
      modifies this`mem
      ensures n in mem && mem == old(mem)[n := mem[n]] && Holds(mem[n], SplitShape(s, i, z))
    {
      ghost var c := mem[n];
      mem := mem[n := mem[n].(children := Moved(mem[n].children, i + 2, mem[n].children, i + 1, MAX_CHILDREN - i - 2))];
      mem := mem[n := mem[n].(children := mem[n].children[i + 1 := z])];
      mem := mem[n := mem[n].(keys := Moved(mem[n].keys, i + 1, mem[n].keys, i, MAX_KEYS - i - 1))];
      mem := mem[n := mem[n].(keys := mem[n].keys[i := key])];
      mem := mem[n := mem[n].(num := mem[n].num + 1)];
      SplitRoot(c, s, i, z, mem[n]);
    }

    // splitChild (lines 338-381).
    method SplitChildAt(n: Ref, i: nat, c: Ref, ghost s: Shape) returns (ghost s': Shape)
      requires Rep(mem, s) && Distinct(s) && n == s.ref && i < |s.kids| && c == s.kids[i].ref
      requires |s.keys| < MAX_KEYS && |s.kids[i].keys| == MAX_KEYS
      modifies this`mem
      ensures Evolves(old(mem), s, mem, s') && Value(s') == SplitChild(Value(s), i)
    {
      ghost var m0 := mem;
      Reads(m0, s);
      KidRefs(m0, s);
      hide Rep, Distinct, Evolves, Occ, Flat, Well, LeftShape, RightShape, SplitShape;
      var z := Halve(c, s.kids[i]);
      LinkHalf(n, i, z, mem[c].keys[MIN_KEYS - 1], s);
      s' := SplitShape(s, i, z);
      SplitEvolves(m0, s, i, z, mem);
      SplitValue(s, i, z);
    }

    // find (lines 219-231): the node that holds the key, or null.
    method FindAt(n: Ref, k: int, ghost s: Shape, ghost h: nat) returns (r: Ref)
      requires Rep(mem, s) && Distinct(s) && n == s.ref && Well(Value(s), h, 0)
      ensures if Find(Value(s), k, h) then r != 0 && r in mem && InCell(mem[r], k) else r == 0
      decreases h
    {
      Reads(mem, s);
      ValueParts(s);
      FindBelow(Value(s), k, h);
      hide Rep, Distinct, Occ, Flat, Find, AllWell, Well, Value, Values;
      var idx := FindKeyIn(n, k, s);
      if idx < mem[n].num && mem[n].keys[idx] == k {
        r := n;
      } else if mem[n].leaf {
        r := 0;
      } else {
        KidDistinct(s, idx);
        r := FindAt(mem[n].children[idx], k, s.kids[idx], h - 1);
      }
    }

    // insertNonFull (lines 283-335).
    method InsertNonFullAt(n: Ref, k: int, ghost s: Shape, ghost h: nat) returns (isNew: bool, ghost s': Shape)
      requires Rep(mem, s) && Distinct(s) && n == s.ref && Well(Value(s), h, 0) && |s.keys| < MAX_KEYS
      modifies this`mem
      ensures Evolves(old(mem), s, mem, s') && Value(s') == InsertNonFull(Value(s), k, h)
      ensures isNew == Inserts(Value(s), k, h)
      decreases h, 1
    {
      Reads(mem, s);
      hide Rep, Distinct, Evolves, Occ, Flat, Descend, InsertNonFull, Inserts, AllWell;
      var idx := FindKeyIn(n, k, s);
      InsertHere(Value(s), k, h);
      if idx < mem[n].num && mem[n].keys[idx] == k {
        EvolvesSelf(mem, s);
        isNew, s' := false, s;
      } else if mem[n].leaf {
        isNew := true;
        ghost var m0 := mem;
        InsertAtLeaf(n, idx, k, s);
        s' := Shape(n, s.keys[..idx] + [k] + s.keys[idx..], []);
        LeafEvolves(m0, s, mem, s'.keys);
      } else {
        isNew, s' := InsertBelowAt(n, idx, k, s, h);
      }
    }

    // The branch for an inner node (lines 316-334).
    method InsertBelowAt(n: Ref, idx: nat, k: int, ghost s: Shape, ghost h: nat)
      returns (isNew: bool, ghost s': Shape)
      requires Rep(mem, s) && Distinct(s) && n == s.ref && Well(Value(s), h, 0) && |s.keys| < MAX_KEYS
      requires s.kids != [] && idx == FindKey(s.keys, k) && !(idx < |s.keys| && s.keys[idx] == k)
      modifies this`mem
      ensures Evolves(old(mem), s, mem, s') && Value(s') == InsertNonFull(Value(s), k, h)
      ensures isNew == Inserts(Value(s), k, h)
      decreases h, 0
    {
      ghost var m0 := mem;
      hide Rep, Distinct, Evolves, Occ, Flat, Descend, InsertNonFull, Inserts, AllWell, Well, FindKey, Value;
      ValueParts(s);
      InsertBelow(Value(s), k, h);
      ghost var s1;
      var j, found;
      j, found, s1 := DescendAt(n, idx, k, s, h);
      ValueParts(s1);
      isNew, s' := false, s1;
      if !found {
        ghost var m1 := mem;
        EvolvesReads(m0, s, m1, s1);
        KidDistinct(s1, j);
        ValueParts(s1.kids[j]);
        ghost var c;
        isNew, c := InsertNonFullAt(mem[n].children[j], k, s1.kids[j], h - 1);
        EvolvesKid(m1, s1, j, mem, c);
        s' := s1.(kids := s1.kids[j := c]);
        EvolvesTrans(m0, s, m1, s1, mem, s');
      }
    }

    // The split of a full child and the choice between its halves (lines 317-328).
    method DescendAt(n: Ref, idx: nat, k: int, ghost s: Shape, ghost h: nat)
      returns (j: nat, found: bool, ghost s': Shape)
      requires Rep(mem, s) && Distinct(s) && n == s.ref && Well(Value(s), h, 0)
      requires h > 0 && |s.keys| < MAX_KEYS && idx <= |s.keys|
      modifies this`mem
      ensures Evolves(old(mem), s, mem, s') && (Value(s'), j) == Descend(Value(s), idx, k)
      ensures found <==> |s'.keys| > |s.keys| && s'.keys[idx] == k
    {
      ghost var m0 := mem;
      Reads(m0, s);
      hide Rep, Distinct, Evolves, Occ, Flat, SplitChild, AllWell;
      DescendWell(Value(s), h, idx, k);
      s', j, found := s, idx, false;
      EvolvesSelf(m0, s);
      if mem[mem[n].children[idx]].num == MAX_KEYS {
        s' := SplitChildAt(n, idx, mem[n].children[idx], s);
        EvolvesReads(m0, s, mem, s');
        SplitLength(Value(s), idx);
        if mem[n].keys[idx] == k {
          found := true;
        } else if mem[n].keys[idx] < k {
          j := idx + 1;
        }
      }
    }

    method InsertAtLeaf(n: Ref, idx: nat, k: int, ghost s: Shape)
      requires n in mem && Holds(mem[n], s) && s.kids == [] && idx <= |s.keys| < MAX_KEYS
      modifies this`mem
      ensures n in mem && mem == old(mem)[n := mem[n]]
      ensures Holds(mem[n], Shape(n, s.keys[..idx] + [k] + s.keys[idx..], []))
    {
      mem := mem[n := mem[n].(keys := Moved(mem[n].keys, idx + 1, mem[n].keys, idx, MAX_KEYS - idx - 1))];
      mem := mem[n := mem[n].(keys := mem[n].keys[idx := k])];
      mem := mem[n := mem[n].(num := mem[n].num + 1)];
    }

    // The loops of borrowFromPrev (lines 640-651).
    method ShiftUp(r: Ref, ghost c: Shape)
      requires r in mem && Holds(mem[r], c) && |c.keys| < MAX_KEYS
      modifies this`mem
      ensures r in mem && mem == old(mem)[r := mem[r]] && Sized(mem[r])
      ensures mem[r].num == |c.keys| && (mem[r].leaf <==> c.kids == [])
      ensures forall q :: 0 <= q < |c.keys| ==> mem[r].keys[q + 1] == c.keys[q]
      ensures forall q :: 0 <= q < |c.kids| ==> mem[r].children[q + 1] == c.kids[q].ref
    {
      ghost var was := mem[r];
      var i: int := mem[r].num - 1;
      while i >= 0
        invariant -1 <= i < was.num && r in mem && mem == old(mem)[r := mem[r]]
        invariant mem[r] == was.(keys := mem[r].keys) && |mem[r].keys| == MAX_KEYS
        invariant forall q :: 0 <= q <= i ==> mem[r].keys[q] == c.keys[q]
        invariant forall q :: i < q < was.num ==> mem[r].keys[q + 1] == c.keys[q]
      {
        mem := mem[r := mem[r].(keys := mem[r].keys[i + 1 := mem[r].keys[i]])];
        i := i - 1;
      }
      ghost var mid := mem[r];
      if !mem[r].leaf {
        i := mem[r].num;
        while i >= 0
          invariant -1 <= i <= was.num && r in mem && mem == old(mem)[r := mem[r]]
          invariant mem[r] == mid.(children := mem[r].children) && |mem[r].children| == MAX_CHILDREN
          invariant forall q :: 0 <= q <= i ==> mem[r].children[q] == c.kids[q].ref
          invariant forall q :: i < q <= was.num ==> mem[r].children[q + 1] == c.kids[q].ref
        {
          mem := mem[r := mem[r].(children := mem[r].children[i + 1 := mem[r].children[i]])];
          i := i - 1;
        }
      }
    }

    // The loops of borrowFromNext (lines 699-709).
    method ShiftDown(r: Ref, ghost c: Shape)
      requires r in mem && Holds(mem[r], c) && c.keys != []
      modifies this`mem
      ensures r in mem && mem == old(mem)[r := mem[r]] && Sized(mem[r])
      ensures mem[r].num == |c.keys| && (mem[r].leaf <==> c.kids == [])
      ensures forall q :: 0 <= q < |c.keys| - 1 ==> mem[r].keys[q] == c.keys[q + 1]
      ensures forall q :: 0 <= q < |c.kids| - 1 ==> mem[r].children[q] == c.kids[q + 1].ref
    {
      ghost var was := mem[r];
      var i: nat := 1;
      while i < mem[r].num
        invariant 1 <= i <= was.num && r in mem && mem == old(mem)[r := mem[r]]
        invariant mem[r] == was.(keys := mem[r].keys) && |mem[r].keys| == MAX_KEYS
        invariant forall q :: 0 <= q < i - 1 ==> mem[r].keys[q] == c.keys[q + 1]
        invariant forall q :: i <= q < was.num ==> mem[r].keys[q] == c.keys[q]
      {
        mem := mem[r := mem[r].(keys := mem[r].keys[i - 1 := mem[r].keys[i]])];
        i := i + 1;
      }
      ghost var mid := mem[r];
      if !mem[r].leaf {
        i := 1;
        while i <= mem[r].num
          invariant 1 <= i <= was.num + 1 && r in mem && mem == old(mem)[r := mem[r]]
          invariant mem[r] == mid.(children := mem[r].children) && |mem[r].children| == MAX_CHILDREN
          invariant forall q :: 0 <= q < i - 1 ==> mem[r].children[q] == c.kids[q + 1].ref
          invariant forall q :: i <= q <= was.num ==> mem[r].children[q] == c.kids[q].ref
        {
          mem := mem[r := mem[r].(children := mem[r].children[i - 1 := mem[r].children[i]])];
          i := i + 1;
        }
      }
    }

    // The child's part of borrowFromPrev (lines 640-661), but for its count.
    method FrontFromPrev(child: Ref, sibling: Ref, x: int, ghost c: Shape, ghost sib: Shape)
      requires child in mem && Holds(mem[child], c) && sibling in mem && Holds(mem[sibling], sib) && child != sibling
      requires Level(c, sib) && |c.keys| < MAX_KEYS
      modifies this`mem
      ensures child in mem && mem == old(mem)[child := mem[child]] && mem[child].num == |c.keys|
      ensures Holds(mem[child].(num := |c.keys| + 1), FromPrevShape(c, x, sib))
    {
      hide FromPrevShape, JoinedShape;
      ShiftUp(child, c);
      mem := mem[child := mem[child].(keys := mem[child].keys[0 := x])];
      if !mem[child].leaf {
        mem := mem[child := mem[child].(children := mem[child].children[0 := mem[sibling].children[mem[sibling].num]])];
      }
      FrontCell(mem[child], c, x, sib);
    }

    // borrowFromPrev (lines 630-672).
    method BorrowFromPrevAt(n: Ref, idx: nat, ghost s: Shape) returns (ghost s': Shape)
      requires Rep(mem, s) && Distinct(s) && n == s.ref && 0 < idx < |s.kids| && Level(s.kids[idx], s.kids[idx - 1])
      requires |s.kids[idx].keys| < MAX_KEYS
      modifies this`mem
      ensures Evolves(old(mem), s, mem, s') && Value(s') == BorrowFromPrev(Value(s), idx)
    {
      ghost var m0 := mem;
      PrevReady(m0, s, idx);
      hide Rep, Distinct, Evolves, Occ, Flat, Well, FromPrevShape, Level, PrevShape, BorrowFromPrev, Value, Holds;
      var child, sibling := mem[n].children[idx], mem[n].children[idx - 1];
      FrontFromPrev(child, sibling, mem[n].keys[idx - 1], s.kids[idx], s.kids[idx - 1]);
      ghost var cc := mem[child];
      mem := mem[n := mem[n].(keys := mem[n].keys[idx - 1 := mem[sibling].keys[mem[sibling].num - 1]])];
      mem := mem[child := mem[child].(num := mem[child].num + 1)];
      mem := mem[sibling := mem[sibling].(num := mem[sibling].num - 1)];
      PrevDone(m0, s, idx, cc.(num := cc.num + 1), mem);
      s' := PrevShape(s, idx);
    }

    // The child's part of borrowFromNext (lines 681-690), but for its count.
    method BackFromNext(child: Ref, sibling: Ref, x: int, ghost c: Shape, ghost sib: Shape)
      requires child in mem && Holds(mem[child], c) && sibling in mem && Holds(mem[sibling], sib) && child != sibling
      requires Level(c, sib) && |c.keys| < MAX_KEYS
      modifies this`mem
      ensures child in mem && mem == old(mem)[child := mem[child]] && mem[child].num == |c.keys|
      ensures Holds(mem[child].(num := |c.keys| + 1), FromNextShape(c, x, sib))
    {
      mem := mem[child := mem[child].(keys := mem[child].keys[mem[child].num := x])];
      if !mem[child].leaf {
        var given := mem[child].children[mem[child].num + 1 := mem[sibling].children[0]];
        mem := mem[child := mem[child].(children := given)];
      }
    }

    // borrowFromNext (lines 676-715).
    method BorrowFromNextAt(n: Ref, idx: nat, ghost s: Shape) returns (ghost s': Shape)
      requires Rep(mem, s) && Distinct(s) && n == s.ref && idx + 1 < |s.kids| && Level(s.kids[idx], s.kids[idx + 1])
      requires |s.kids[idx].keys| < MAX_KEYS
      modifies this`mem
      ensures Evolves(old(mem), s, mem, s') && Value(s') == BorrowFromNext(Value(s), idx)
    {
      ghost var m0 := mem;
      NextReady(m0, s, idx);
      hide Rep, Distinct, Evolves, Occ, Flat, Well, FromNextShape, LessFirst;
      hide Level, NextShape, BorrowFromNext, Value, Holds;
      var child, sibling := mem[n].children[idx], mem[n].children[idx + 1];
      BackFromNext(child, sibling, mem[n].keys[idx], s.kids[idx], s.kids[idx + 1]);
      ghost var cc := mem[child];
      mem := mem[n := mem[n].(keys := mem[n].keys[idx := mem[sibling].keys[0]])];
      ShiftDown(sibling, s.kids[idx + 1]);
      LessFirstCell(mem[sibling], s.kids[idx + 1]);
      ghost var cs := mem[sibling];
      mem := mem[child := mem[child].(num := mem[child].num + 1)];
      mem := mem[sibling := mem[sibling].(num := mem[sibling].num - 1)];
      NextDone(m0, s, idx, cc.(num := cc.num + 1), cs.(num := cs.num - 1), mem);
      s' := NextShape(s, idx);
    }

    // The child's part of merge (lines 726-743), but for its count.
    method Append(child: Ref, sibling: Ref, x: int, ghost a: Shape, ghost b: Shape)
      requires child in mem && Holds(mem[child], a) && sibling in mem && Holds(mem[sibling], b) && child != sibling
      requires |a.keys| == MIN_KEYS - 1 && |b.keys| <= MIN_KEYS - 1 && (a.kids == [] <==> b.kids == [])
      modifies this`mem
      ensures child in mem && mem == old(mem)[child := mem[child]] && mem[child].num == |a.keys|
      ensures Holds(mem[child].(num := |a.keys| + |b.keys| + 1), JoinedShape(a, x, b))
    {
      hide FromPrevShape, JoinedShape;
      mem := mem[child := mem[child].(keys := mem[child].keys[MIN_KEYS - 1 := x])];
      AppendKeys(child, sibling, a, b);
      if !mem[child].leaf {
        AppendChildren(child, sibling, a, b);
      }
      AppendedCell(mem[child], a, x, b);
    }

    method AppendKeys(child: Ref, sibling: Ref, ghost a: Shape, ghost b: Shape)
      requires child in mem && sibling in mem && Holds(mem[sibling], b) && child != sibling
      requires Sized(mem[child]) && |b.keys| <= MIN_KEYS - 1
      modifies this`mem
      ensures child in mem && mem == old(mem)[child := old(mem)[child].(keys := mem[child].keys)]
      ensures |mem[child].keys| == MAX_KEYS
      ensures forall q :: 0 <= q < MIN_KEYS ==> mem[child].keys[q] == old(mem)[child].keys[q]
      ensures forall q :: 0 <= q < |b.keys| ==> mem[child].keys[MIN_KEYS + q] == b.keys[q]
    {
      ghost var was := mem[child];
      var i: nat := 0;
      while i < mem[sibling].num
        invariant i <= |b.keys| && child in mem && mem == old(mem)[child := was.(keys := mem[child].keys)]
        invariant |mem[child].keys| == MAX_KEYS && forall q :: 0 <= q < MIN_KEYS ==> mem[child].keys[q] == was.keys[q]
        invariant forall q :: 0 <= q < i ==> mem[child].keys[MIN_KEYS + q] == b.keys[q]
      {
        mem := mem[child := mem[child].(keys := mem[child].keys[i + MIN_KEYS := mem[sibling].keys[i]])];
        i := i + 1;
      }
    }

    method AppendChildren(child: Ref, sibling: Ref, ghost a: Shape, ghost b: Shape)
      requires child in mem && sibling in mem && Holds(mem[sibling], b) && child != sibling && b.kids != []
      requires Sized(mem[child]) && |b.keys| <= MIN_KEYS - 1
      modifies this`mem
      ensures child in mem && mem == old(mem)[child := old(mem)[child].(children := mem[child].children)]
      ensures |mem[child].children| == MAX_CHILDREN
      ensures forall q :: 0 <= q < MIN_KEYS ==> mem[child].children[q] == old(mem)[child].children[q]
      ensures forall q :: 0 <= q < |b.kids| ==> mem[child].children[MIN_KEYS + q] == b.kids[q].ref
    {
      ghost var was := mem[child];
      var i: nat := 0;
      while i <= mem[sibling].num
        invariant i <= |b.kids| && child in mem && mem == old(mem)[child := was.(children := mem[child].children)]
        invariant |mem[child].children| == MAX_CHILDREN
        invariant forall q :: 0 <= q < MIN_KEYS ==> mem[child].children[q] == was.children[q]
        invariant forall q :: 0 <= q < i ==> mem[child].children[MIN_KEYS + q] == b.kids[q].ref
      {
        mem := mem[child := mem[child].(children := mem[child].children[i + MIN_KEYS := mem[sibling].children[i]])];
        i := i + 1;
      }
    }

    // The parent's part of merge (lines 745-756), but for its count.
    method CloseGap(n: Ref, idx: nat, ghost s: Shape)
      requires n in mem && Holds(mem[n], s) && idx < |s.keys| && |s.kids| == |s.keys| + 1
      modifies this`mem
      ensures n in mem && mem == old(mem)[n := mem[n]] && mem[n].num == |s.keys|
      ensures Holds(mem[n].(num := |s.keys| - 1), MergeShape(s, idx))
    {
      ghost var was := mem[n];
      CloseKeys(n, idx, s);
      CloseChildren(n, idx, s);
      MergedCell(was, s, idx, mem[n]);
    }

    method CloseKeys(n: Ref, idx: nat, ghost s: Shape)
      requires n in mem && Holds(mem[n], s) && idx < |s.keys|
      modifies this`mem
      ensures n in mem && mem == old(mem)[n := old(mem)[n].(keys := mem[n].keys)] && |mem[n].keys| == MAX_KEYS
      ensures forall q :: 0 <= q < idx ==> mem[n].keys[q] == s.keys[q]
      ensures forall q :: idx <= q < |s.keys| - 1 ==> mem[n].keys[q] == s.keys[q + 1]
    {
      ghost var was := mem[n];
      var i: nat := idx + 1;
      while i < mem[n].num
        invariant idx + 1 <= i <= was.num && n in mem && mem == old(mem)[n := was.(keys := mem[n].keys)]
        invariant |mem[n].keys| == MAX_KEYS && forall q :: 0 <= q < idx ==> mem[n].keys[q] == s.keys[q]
        invariant forall q :: idx <= q < i - 1 ==> mem[n].keys[q] == s.keys[q + 1]
        invariant forall q :: i <= q < was.num ==> mem[n].keys[q] == s.keys[q]
      {
        mem := mem[n := mem[n].(keys := mem[n].keys[i - 1 := mem[n].keys[i]])];
        i := i + 1;
      }
    }

    method CloseChildren(n: Ref, idx: nat, ghost s: Shape)
      requires n in mem && Sized(mem[n]) && mem[n].num == |s.keys| <= MAX_KEYS
      requires |s.kids| == |s.keys| + 1 && idx < |s.keys|
      requires forall q :: 0 <= q < |s.kids| ==> mem[n].children[q] == s.kids[q].ref
      modifies this`mem
      ensures n in mem && mem == old(mem)[n := old(mem)[n].(children := mem[n].children)]
      ensures |mem[n].children| == MAX_CHILDREN
      ensures forall q :: 0 <= q <= idx ==> mem[n].children[q] == s.kids[q].ref
      ensures forall q :: idx < q < |s.kids| - 1 ==> mem[n].children[q] == s.kids[q + 1].ref
    {
      ghost var was := mem[n];
      var i: nat := idx + 2;
      while i <= mem[n].num
        invariant idx + 2 <= i <= was.num + 1 && n in mem && mem == old(mem)[n := was.(children := mem[n].children)]
        invariant |mem[n].children| == MAX_CHILDREN && forall q :: 0 <= q <= idx ==> mem[n].children[q] == s.kids[q].ref
        invariant forall q :: idx < q < i - 1 ==> mem[n].children[q] == s.kids[q + 1].ref
        invariant forall q :: i <= q <= was.num ==> mem[n].children[q] == s.kids[q].ref
      {
        mem := mem[n := mem[n].(children := mem[n].children[i - 1 := mem[n].children[i]])];
        i := i + 1;
      }
    }

    // merge (lines 719-764); the sibling is freed.
    method MergeAt(n: Ref, idx: nat, ghost s: Shape) returns (ghost s': Shape)
      requires Rep(mem, s) && Distinct(s) && n == s.ref && idx < |s.keys| && |s.kids| == |s.keys| + 1
      requires Level(s.kids[idx], s.kids[idx + 1]) && |s.kids[idx].keys| == MIN_KEYS - 1
      requires |s.kids[idx + 1].keys| <= MIN_KEYS - 1
      modifies this`mem
      ensures Evolves(old(mem), s, mem, s') && Value(s') == Merge(Value(s), idx)
    {
      hide Rep, Distinct, Evolves, Occ, OccAll, Flat, Well, JoinedShape, MergeShape, Merge, Value, Values;
      ghost var m0 := mem;
      NextReady(m0, s, idx);
      hide Holds;
      var child, sibling := mem[n].children[idx], mem[n].children[idx + 1];
      Append(child, sibling, mem[n].keys[idx], s.kids[idx], s.kids[idx + 1]);
      CloseGap(n, idx, s);
      mem := mem[child := mem[child].(num := mem[child].num + mem[sibling].num + 1)];
      mem := mem[n := mem[n].(num := mem[n].num - 1)];
      mem := mem - {sibling};
      s' := MergeShape(s, idx);
      MergeEvolves(m0, s, idx, mem);
      MergeValue(s, idx);
    }

    // fill (lines 605-626), for a child with fewer than MIN_KEYS keys.
    method FillAt(n: Ref, idx: nat, ghost s: Shape, ghost h: nat) returns (ghost s': Shape)
      requires Rep(mem, s) && Distinct(s) && n == s.ref && Well(Value(s), h, 1) && h > 0
      requires idx <= |s.keys| && |s.kids[idx].keys| < MIN_KEYS
      modifies this`mem
      ensures Evolves(old(mem), s, mem, s') && Value(s') == Fill(Value(s), idx, h)
    {
      FillReady(mem, s, idx, h);
      hide Rep, Distinct, Evolves, Occ, Flat, Well, AllWell, Value, BorrowFromPrev, BorrowFromNext, Merge, Holds, Level;
      if idx != 0 && mem[mem[n].children[idx - 1]].num >= MIN_KEYS {
        s' := BorrowFromPrevAt(n, idx, s);
      } else if idx != mem[n].num && mem[mem[n].children[idx + 1]].num >= MIN_KEYS {
        s' := BorrowFromNextAt(n, idx, s);
      } else if idx != mem[n].num {
        s' := MergeAt(n, idx, s);
      } else {
        s' := MergeAt(n, idx - 1, s);
      }
    }

    // getPred (lines 564-582): the way down to the last key below the child at cur.
    method LastBelow(top: Ref, ghost s: Shape, ghost h: nat) returns (key: int)
      requires Rep(mem, s) && top == s.ref && Well(Value(s), h, 1)
      ensures key == LastKey(Value(s), h)
    {
      hide Rep, Well, Value, LastKey, Holds;
      var cur := top;
      ghost var t, l := s, h;
      DownLast(mem, t, l);
      while !mem[cur].leaf
        invariant Rep(mem, t) && cur == t.ref && cur in mem && Well(Value(t), l, 1)
        invariant LastKey(Value(t), l) == LastKey(Value(s), h)
        decreases l
      {
        DownLast(mem, t, l);
        cur := mem[cur].children[mem[cur].num];
        t, l := t.kids[|t.kids| - 1], l - 1;
        DownLast(mem, t, l);
      }
      DownLast(mem, t, l);
      key := mem[cur].keys[mem[cur].num - 1];
    }

    // getSucc (lines 588-602).
    method FirstBelow(top: Ref, ghost s: Shape, ghost h: nat) returns (key: int)
      requires Rep(mem, s) && top == s.ref && Well(Value(s), h, 1)
      ensures key == FirstKey(Value(s), h)
    {
      hide Rep, Well, Value, FirstKey, Holds;
      var cur := top;
      ghost var t, l := s, h;
      DownFirst(mem, t, l);
      while !mem[cur].leaf
        invariant Rep(mem, t) && cur == t.ref && cur in mem && Well(Value(t), l, 1)
        invariant FirstKey(Value(t), l) == FirstKey(Value(s), h)
        decreases l
      {
        DownFirst(mem, t, l);
        cur := mem[cur].children[0];
        t, l := t.kids[0], l - 1;
        DownFirst(mem, t, l);
      }
      DownFirst(mem, t, l);
      key := mem[cur].keys[0];
    }

    // removeFromLeaf (lines 499-514).
    method RemoveFromLeafAt(n: Ref, idx: nat, ghost s: Shape)
      requires n in mem && Holds(mem[n], s) && s.kids == [] && idx < |s.keys|
      modifies this`mem
      ensures n in mem && mem == old(mem)[n := mem[n]] && Holds(mem[n], Shape(n, s.keys[..idx] + s.keys[idx + 1..], []))
    {
      mem := mem[n := mem[n].(keys := Moved(mem[n].keys, idx, mem[n].keys, idx + 1, MAX_KEYS - idx - 1))];
      mem := mem[n := mem[n].(num := mem[n].num - 1)];
    }

    // remove (lines 767-804).
    method RemoveAt(n: Ref, k: int, ghost s: Shape, ghost h: nat) returns (removed: bool, ghost s': Shape)
      requires Rep(mem, s) && Distinct(s) && n == s.ref && Well(Value(s), h, 1)
      modifies this`mem
      ensures Evolves(old(mem), s, mem, s') && Value(s') == Remove(Value(s), k, h)
      ensures removed == Removes(Value(s), k)
      decreases h, 1
    {
      Reads(mem, s);
      ValueParts(s);
      RemoveHere(Value(s), k, h);
      hide Rep, Distinct, Evolves, Occ, Flat, Remove, RemoveFromNonLeaf, AllWell;
      var idx := FindKeyIn(n, k, s);
      removed := true;
      if idx < mem[n].num && mem[n].keys[idx] == k {
        if mem[n].leaf {
          ghost var m0 := mem;
          RemoveFromLeafAt(n, idx, s);
          s' := Shape(n, s.keys[..idx] + s.keys[idx + 1..], []);
          LeafEvolves(m0, s, mem, s'.keys);
        } else {
          s' := RemoveFromNonLeafAt(n, idx, s, h);
        }
      } else if mem[n].leaf {
        EvolvesSelf(mem, s);
        removed, s' := false, s;
      } else {
        s' := RemoveBelowAt(n, idx, k, s, h);
      }
    }

    // The branch for a key that is not in an inner node (lines 784-800).
    method RemoveBelowAt(n: Ref, idx: nat, k: int, ghost s: Shape, ghost h: nat) returns (ghost s': Shape)
      requires Rep(mem, s) && Distinct(s) && n == s.ref && Well(Value(s), h, 1)
      requires s.kids != [] && idx == FindKey(s.keys, k) && !(idx < |s.keys| && s.keys[idx] == k)
      modifies this`mem
      ensures Evolves(old(mem), s, mem, s') && Value(s') == Remove(Value(s), k, h)
      decreases h, 0
    {
      hide Values, Rep, Remove, FindKey, Fill, Value;
      ghost var m0 := mem;
      Reads(m0, s);
      ValueParts(s);
      RemoveInKid(Value(s), k, h);
      hide Rep, Distinct, Evolves, Occ, Flat, Remove, AllWell, Well, FindKey, Value, Fill;
      var flag := idx == mem[n].num;
      ghost var s1 := s;
      EvolvesSelf(m0, s);
      if mem[mem[n].children[idx]].num < MIN_KEYS {
        s1 := FillAt(n, idx, s, h);
      }
      ghost var m1 := mem;
      EvolvesReads(m0, s, m1, s1);
      ValueParts(s1);
      var j := if flag && idx > mem[n].num then idx - 1 else idx;
      s' := RemoveInKidAt(n, j, k, s1, h);
      EvolvesTrans(m0, s, m1, s1, mem, s');
    }

    // removeFromNonLeaf (lines 517-562).
    method RemoveFromNonLeafAt(n: Ref, idx: nat, ghost s: Shape, ghost h: nat) returns (ghost s': Shape)
      requires Rep(mem, s) && Distinct(s) && n == s.ref && Well(Value(s), h, 1) && h > 0 && idx < |s.keys|
      modifies this`mem
      ensures Evolves(old(mem), s, mem, s') && Value(s') == RemoveFromNonLeaf(Value(s), idx, h)
      decreases h, 0
    {
      Reads(mem, s);
      ValueParts(s);
      InnerKids(Value(s), idx, h);
      hide Rep, Distinct, Evolves, Occ, Flat, Remove, RemoveFromNonLeaf, AllWell, Well, Value, Merge, LastKey, FirstKey;
      var k := mem[n].keys[idx];
      if mem[mem[n].children[idx]].num >= MIN_KEYS {
        s' := PredAndRemove(n, idx, s, h);
      } else if mem[mem[n].children[idx + 1]].num >= MIN_KEYS {
        s' := SuccAndRemove(n, idx, s, h);
      } else {
        s' := MergeAndRemove(n, idx, k, s, h);
      }
    }

    // The first branch (lines 525-535).
    method PredAndRemove(n: Ref, idx: nat, ghost s: Shape, ghost h: nat) returns (ghost s': Shape)
      requires Rep(mem, s) && Distinct(s) && n == s.ref && Well(Value(s), h, 1) && h > 0 && idx < |s.keys|
      requires idx < |s.kids| && |s.kids[idx].keys| >= MIN_KEYS
      modifies this`mem
      ensures Evolves(old(mem), s, mem, s') && Value(s') == RemoveFromNonLeaf(Value(s), idx, h)
      decreases h, 0, 2
    {
      Reads(mem, s);
      ValueParts(s);
      InnerKids(Value(s), idx, h);
      PredCase(Value(s), idx, h);
      hide Rep, Distinct, Evolves, Occ, Flat, Remove, RemoveFromNonLeaf, AllWell, Well, Value, LastKey;
      var pred := LastBelow(mem[n].children[idx], s.kids[idx], h - 1);
      s' := ReplaceAndRemove(n, idx, idx, pred, s, h);
    }

    // The second branch (lines 542-552).
    method SuccAndRemove(n: Ref, idx: nat, ghost s: Shape, ghost h: nat) returns (ghost s': Shape)
      requires Rep(mem, s) && Distinct(s) && n == s.ref && Well(Value(s), h, 1) && h > 0 && idx < |s.keys|
      requires idx + 1 < |s.kids| && |s.kids[idx].keys| < MIN_KEYS && |s.kids[idx + 1].keys| >= MIN_KEYS
      modifies this`mem
      ensures Evolves(old(mem), s, mem, s') && Value(s') == RemoveFromNonLeaf(Value(s), idx, h)
      decreases h, 0, 2
    {
      Reads(mem, s);
      ValueParts(s);
      InnerKids(Value(s), idx, h);
      SuccCase(Value(s), idx, h);
      hide Rep, Distinct, Evolves, Occ, Flat, Remove, RemoveFromNonLeaf, AllWell, Well, Value, FirstKey;
      var succ := FirstBelow(mem[n].children[idx + 1], s.kids[idx + 1], h - 1);
      s' := ReplaceAndRemove(n, idx, idx + 1, succ, s, h);
    }

    // The last branch (lines 558-561): the key goes down into the merged child and is removed there.
    method MergeAndRemove(n: Ref, idx: nat, k: int, ghost s: Shape, ghost h: nat) returns (ghost s': Shape)
      requires Rep(mem, s) && Distinct(s) && n == s.ref && Well(Value(s), h, 1)
      requires h > 0 && idx < |s.keys| && k == s.keys[idx]
      requires |s.kids| == |s.keys| + 1 && |s.kids[idx].keys| < MIN_KEYS && |s.kids[idx + 1].keys| < MIN_KEYS
      modifies this`mem
      ensures Evolves(old(mem), s, mem, s') && Value(s') == RemoveFromNonLeaf(Value(s), idx, h)
      decreases h, 0, 1
    {
      ghost var m0 := mem;
      ValueParts(s);
      MergeCase(Value(s), idx, h);
      FillReady(m0, s, idx, h);
      hide Rep, Distinct, Evolves, Occ, Flat, Remove, RemoveFromNonLeaf, AllWell, Well, Value, Merge, Holds, Level;
      ghost var s1 := MergeAt(n, idx, s);
      ghost var m1 := mem;
      EvolvesReads(m0, s, m1, s1);
      ValueParts(s1);
      s' := RemoveInKidAt(n, idx, k, s1, h);
      EvolvesTrans(m0, s, m1, s1, mem, s');
    }

    // children[j]->remove(x).
    method RemoveInKidAt(n: Ref, j: nat, x: int, ghost s: Shape, ghost h: nat) returns (ghost s': Shape)
      requires Rep(mem, s) && Distinct(s) && n == s.ref && h > 0 && j < |s.kids| && Well(Value(s.kids[j]), h - 1, 1)
      modifies this`mem
      ensures Evolves(old(mem), s, mem, s')
      ensures Value(s') == Node(s.keys, Values(s.kids)[j := Remove(Value(s.kids[j]), x, h - 1)])
      decreases h, 0, 0
    {
      ghost var m0 := mem;
      Reads(m0, s);
      hide Rep, Distinct, Evolves, Occ, Flat, Remove, AllWell, Well, Value;
      KidDistinct(s, j);
      ghost var c;
      var dropped;
      dropped, c := RemoveAt(mem[n].children[j], x, s.kids[j], h - 1);
      EvolvesKid(m0, s, j, mem, c);
      s' := s.(kids := s.kids[j := c]);
    }

    // A key of an inner node is replaced by x, which is removed from the child j.
    method ReplaceAndRemove(n: Ref, idx: nat, j: nat, x: int, ghost s: Shape, ghost h: nat) returns (ghost s': Shape)
      requires Rep(mem, s) && Distinct(s) && n == s.ref && h > 0 && idx < |s.keys| && j < |s.kids|
      requires Well(Value(s.kids[j]), h - 1, 1)
      modifies this`mem
      ensures Evolves(old(mem), s, mem, s')
      ensures Value(s') == Node(s.keys[idx := x], Values(s.kids)[j := Remove(Value(s.kids[j]), x, h - 1)])
      decreases h, 0, 1
    {
      ghost var m0 := mem;
      Reads(m0, s);
      hide Rep, Distinct, Evolves, Occ, Flat, Remove, AllWell, Well, Value;
      mem := mem[n := mem[n].(keys := mem[n].keys[idx := x])];
      ghost var s1, m1 := s.(keys := s.keys[idx := x]), mem;
      KeyEvolves(m0, s, idx, x, m1);
      EvolvesReads(m0, s, m1, s1);
      s' := RemoveInKidAt(n, j, x, s1, h);
      EvolvesTrans(m0, s, m1, s1, mem, s');
    }
  }

  ghost function PrevShape(s: Shape, i: nat): Shape
    requires 0 < i < |s.kids| == |s.keys| + 1 && Level(s.kids[i], s.kids[i - 1])
  {
    var c, sib := s.kids[i], s.kids[i - 1];
    PairShape(s, i - 1, LessLast(sib), sib.keys[|sib.keys| - 1], FromPrevShape(c, s.keys[i - 1], sib))
  }

  ghost function NextShape(s: Shape, i: nat): Shape
    requires i + 1 < |s.kids| == |s.keys| + 1 && Level(s.kids[i], s.kids[i + 1])
  {
    var c, sib := s.kids[i], s.kids[i + 1];
    PairShape(s, i, FromNextShape(c, s.keys[i], sib), sib.keys[0], LessFirst(sib))
  }

  // What a borrow finds.
  lemma PrevReady(m: map<Ref, Cell>, s: Shape, i: nat)
    requires Rep(m, s) && Distinct(s) && 0 < i < |s.kids| && Level(s.kids[i], s.kids[i - 1])
    ensures var c, sib := s.kids[i], s.kids[i - 1];
      && s.ref in m && c.ref in m && sib.ref in m && s.ref != c.ref && c.ref != sib.ref && s.ref != sib.ref
      && Holds(m[s.ref], s) && Holds(m[c.ref], c) && Holds(m[sib.ref], sib) && |sib.keys| > 0
      && Sized(m[s.ref]) && Sized(m[sib.ref]) && m[sib.ref].num == |sib.keys| <= MAX_KEYS && |s.kids| == |s.keys| + 1
      && m[s.ref].children[i] == c.ref && m[s.ref].children[i - 1] == sib.ref && m[s.ref].keys[i - 1] == s.keys[i - 1]
      && m[sib.ref].keys[|sib.keys| - 1] == sib.keys[|sib.keys| - 1]
  {
    Reads(m, s);
    KidRefs(m, s);
  }

  lemma NextReady(m: map<Ref, Cell>, s: Shape, i: nat)
    requires Rep(m, s) && Distinct(s) && i + 1 < |s.kids| && Level(s.kids[i], s.kids[i + 1])
    ensures var c, sib := s.kids[i], s.kids[i + 1];
      && s.ref in m && c.ref in m && sib.ref in m && s.ref != c.ref && c.ref != sib.ref && s.ref != sib.ref
      && Holds(m[s.ref], s) && Holds(m[c.ref], c) && Holds(m[sib.ref], sib) && |sib.keys| > 0
      && Sized(m[s.ref]) && Sized(m[sib.ref]) && m[sib.ref].num == |sib.keys| <= MAX_KEYS && |s.kids| == |s.keys| + 1
      && (sib.kids != [] ==> |sib.kids| == |sib.keys| + 1)
      && m[s.ref].children[i] == c.ref && m[s.ref].children[i + 1] == sib.ref && m[s.ref].keys[i] == s.keys[i]
      && m[sib.ref].keys[0] == sib.keys[0]
  {
    Reads(m, s);
    KidRefs(m, s);
  }

  lemma FrontRef(c: Shape, x: int, sib: Shape)
    requires Level(c, sib)
    ensures FromPrevShape(c, x, sib).ref == c.ref && LessLast(sib).ref == sib.ref
  {
  }

  lemma BackRef(c: Shape, x: int, sib: Shape)
    requires Level(c, sib)
    ensures FromNextShape(c, x, sib).ref == c.ref && LessFirst(sib).ref == sib.ref
  {
  }

  lemma PrevDone(m: map<Ref, Cell>, s: Shape, i: nat, cc: Cell, m': map<Ref, Cell>)
    requires Rep(m, s) && Distinct(s) && 0 < i < |s.kids| == |s.keys| + 1 && Level(s.kids[i], s.kids[i - 1])
    requires var c, sib := s.kids[i], s.kids[i - 1];
      && s.ref in m && c.ref in m && sib.ref in m && Holds(m[s.ref], s) && Holds(m[sib.ref], sib)
      && Holds(cc, FromPrevShape(c, s.keys[i - 1], sib))
      && m'.Keys == m.Keys && m'[s.ref] == m[s.ref].(keys := m[s.ref].keys[i - 1 := sib.keys[|sib.keys| - 1]])
      && m'[c.ref] == cc && m'[sib.ref] == m[sib.ref].(num := m[sib.ref].num - 1)
      && forall y :: y in m && y != s.ref && y != c.ref && y != sib.ref ==> m'[y] == m[y]
    ensures Evolves(m, s, m', PrevShape(s, i)) && Value(PrevShape(s, i)) == BorrowFromPrev(Value(s), i)
  {
    hide Rep, Occ, Distinct, Flat, SameGrandKids, LessLast, FromPrevShape, Holds, Value, BorrowFromPrev;
    var c, sib, x := s.kids[i], s.kids[i - 1], s.keys[i - 1];
    FrontRef(c, x, sib);
    var y := sib.keys[|sib.keys| - 1];
    KidRefs(m, s);
    LessLastCell(m[sib.ref], sib);
    RootCell(m[s.ref], s, i - 1, LessLast(sib), y, FromPrevShape(c, x, sib));
    PrevGrand(s, i, x);
    PrevPair(s, i);
    PairEvolves(m, s, i - 1, LessLast(sib), y, FromPrevShape(c, x, sib), m');
  }

  lemma NextDone(m: map<Ref, Cell>, s: Shape, i: nat, cc: Cell, cs: Cell, m': map<Ref, Cell>)
    requires Rep(m, s) && Distinct(s) && i + 1 < |s.kids| == |s.keys| + 1 && Level(s.kids[i], s.kids[i + 1])
    requires var c, sib := s.kids[i], s.kids[i + 1];
      && s.ref in m && c.ref in m && sib.ref in m && Holds(m[s.ref], s)
      && Holds(cc, FromNextShape(c, s.keys[i], sib)) && Holds(cs, LessFirst(sib))
      && m'.Keys == m.Keys && m'[s.ref] == m[s.ref].(keys := m[s.ref].keys[i := sib.keys[0]])
      && m'[c.ref] == cc && m'[sib.ref] == cs
      && forall y :: y in m && y != s.ref && y != c.ref && y != sib.ref ==> m'[y] == m[y]
    ensures Evolves(m, s, m', NextShape(s, i)) && Value(NextShape(s, i)) == BorrowFromNext(Value(s), i)
  {
    hide Rep, Occ, Distinct, Flat, SameGrandKids, LessFirst, FromNextShape, Holds, Value, BorrowFromNext;
    var c, sib, x := s.kids[i], s.kids[i + 1], s.keys[i];
    BackRef(c, x, sib);
    KidRefs(m, s);
    RootCell(m[s.ref], s, i, FromNextShape(c, x, sib), sib.keys[0], LessFirst(sib));
    NextGrand(s, i, x);
    NextPair(s, i);
    PairEvolves(m, s, i, FromNextShape(c, x, sib), sib.keys[0], LessFirst(sib), m');
  }

  lemma KeyEvolves(m: map<Ref, Cell>, s: Shape, i: nat, x: int, m': map<Ref, Cell>)
    requires Rep(m, s) && Distinct(s) && i < |s.keys|
    requires s.ref in m && i < |m[s.ref].keys| && m' == m[s.ref := m[s.ref].(keys := m[s.ref].keys[i := x])]
    ensures Evolves(m, s, m', s.(keys := s.keys[i := x]))
  {
    hide Occ;
    var s' := s.(keys := s.keys[i := x]);
    KidRefs(m, s);
    assert Touches(m, s, m');
    forall q: nat | q < |s.kids|
      ensures Rep(m', s.kids[q])
    {
      KidStays(m, s, m', q);
    }
    SameKidsOcc(s, s');
  }

  lemma SameKidsOcc(s: Shape, s': Shape)
    requires s.ref == s'.ref && s.kids == s'.kids
    ensures forall y :: Occ(s', y) == Occ(s, y)
    ensures Occ(s, s.ref) > 0
  {
  }

  lemma RemoveHere(n: Node, k: int, h: nat)
    requires Well(n, h, 1)
    ensures var i := FindKey(n.keys, k);
      if i < |n.keys| && n.keys[i] == k then
        if n.kids == [] then Remove(n, k, h) == Node(n.keys[..i] + n.keys[i + 1..], [])
        else h > 0 && Remove(n, k, h) == RemoveFromNonLeaf(n, i, h)
      else n.kids == [] ==> Remove(n, k, h) == n
  {
    hide Flat, RemoveFromNonLeaf, Fill;
  }

  lemma RemoveInKid(n: Node, k: int, h: nat)
    requires Well(n, h, 1) && n.kids != []
    requires var i := FindKey(n.keys, k); !(i < |n.keys| && n.keys[i] == k)
    ensures h > 0 && |n.kids| == |n.keys| + 1
    ensures var i := FindKey(n.keys, k);
      var u := if |n.kids[i].keys| < MIN_KEYS then Fill(n, i, h) else n;
      var j := if i == |n.keys| && i > |u.keys| then i - 1 else i;
      && |u.kids| == |u.keys| + 1 && j < |u.kids| && Well(u.kids[j], h - 1, 1)
      && Remove(n, k, h) == Node(u.keys, u.kids[j := Remove(u.kids[j], k, h - 1)])
  {
    hide Flat, Fill, RemoveFromNonLeaf;
    assert AllWell(n.kids, h - 1);
    RemoveStep(n, h, FindKey(n.keys, k));
  }

  lemma InnerKids(n: Node, i: nat, h: nat)
    requires Well(n, h, 1) && h > 0 && i < |n.keys|
    ensures |n.kids| == |n.keys| + 1 && (forall q :: 0 <= q < |n.kids| ==> Well(n.kids[q], h - 1, 1))
    ensures forall q :: 0 <= q < |n.kids| ==> |n.kids[q].keys| >= MIN_KEYS - 1
  {
    assert AllWell(n.kids, h - 1);
    forall q: nat | q < |n.kids|
      ensures Well(n.kids[q], h - 1, 1)
    {
      WellLess(n.kids[q], h - 1, MIN_KEYS - 1, 1);
    }
  }

  lemma PredCase(n: Node, i: nat, h: nat)
    requires Well(n, h, 1) && h > 0 && i < |n.keys| && |n.kids[i].keys| >= MIN_KEYS && Well(n.kids[i], h - 1, 1)
    ensures var x := LastKey(n.kids[i], h - 1);
      RemoveFromNonLeaf(n, i, h) == Node(n.keys[i := x], n.kids[i := Remove(n.kids[i], x, h - 1)])
  {
    hide Flat, Remove, LastKey;
  }

  lemma SuccCase(n: Node, i: nat, h: nat)
    requires Well(n, h, 1) && h > 0 && i < |n.keys| && Well(n.kids[i + 1], h - 1, 1)
    requires |n.kids[i].keys| < MIN_KEYS && |n.kids[i + 1].keys| >= MIN_KEYS
    ensures var x := FirstKey(n.kids[i + 1], h - 1);
      RemoveFromNonLeaf(n, i, h) == Node(n.keys[i := x], n.kids[i + 1 := Remove(n.kids[i + 1], x, h - 1)])
  {
    hide Flat, Remove, FirstKey;
  }

  lemma MergeCase(n: Node, i: nat, h: nat)
    requires Well(n, h, 1) && h > 0 && i < |n.keys| && |n.kids[i].keys| < MIN_KEYS && |n.kids[i + 1].keys| < MIN_KEYS
    ensures |n.kids[i].keys| == MIN_KEYS - 1
    ensures var u := Merge(n, i);
      && |u.kids| == |u.keys| + 1 && Well(u.kids[i], h - 1, 1)
      && RemoveFromNonLeaf(n, i, h) == Node(u.keys, u.kids[i := Remove(u.kids[i], n.keys[i], h - 1)])
  {
    hide Flat, Remove;
    assert AllWell(n.kids, h - 1);
    MergeOk(n, h, i, |n.keys|);
    WellLess(Merge(n, i).kids[i], h - 1, MAX_KEYS, 1);
  }

  // The next node on the way to the last or the first key.
  lemma DownLast(m: map<Ref, Cell>, t: Shape, l: nat)
    requires Rep(m, t) && Well(Value(t), l, 1)
    ensures t.ref in m && Sized(m[t.ref]) && 0 < m[t.ref].num <= MAX_KEYS
    ensures if m[t.ref].leaf then m[t.ref].keys[m[t.ref].num - 1] == LastKey(Value(t), l)
      else
        && l > 0 && |t.kids| > 0 && m[t.ref].children[m[t.ref].num] == t.kids[|t.kids| - 1].ref
        && Rep(m, t.kids[|t.kids| - 1]) && Well(Value(t.kids[|t.kids| - 1]), l - 1, 1)
        && LastKey(Value(t.kids[|t.kids| - 1]), l - 1) == LastKey(Value(t), l)
  {
    Reads(m, t);
    if t.kids != [] { assert AllWell(Value(t).kids, l - 1); }
  }

  lemma DownFirst(m: map<Ref, Cell>, t: Shape, l: nat)
    requires Rep(m, t) && Well(Value(t), l, 1)
    ensures t.ref in m && Sized(m[t.ref]) && 0 < m[t.ref].num <= MAX_KEYS
    ensures if m[t.ref].leaf then m[t.ref].keys[0] == FirstKey(Value(t), l)
      else
        && l > 0 && |t.kids| > 0 && m[t.ref].children[0] == t.kids[0].ref
        && Rep(m, t.kids[0]) && Well(Value(t.kids[0]), l - 1, 1)
        && FirstKey(Value(t.kids[0]), l - 1) == FirstKey(Value(t), l)
  {
    Reads(m, t);
    if t.kids != [] { assert AllWell(Value(t).kids, l - 1); }
  }

  // The cells of a child after a borrow and after a merge.
  lemma FrontCell(d: Cell, c: Shape, x: int, sib: Shape)
    requires Sized(d) && |c.keys| < MAX_KEYS && Level(c, sib) && (d.leaf <==> c.kids == [])
    requires c.kids != [] ==> |c.kids| == |c.keys| + 1 && d.children[0] == sib.kids[|sib.kids| - 1].ref
    requires d.keys[0] == x && forall q :: 0 <= q < |c.keys| ==> d.keys[q + 1] == c.keys[q]
    requires forall q :: 0 <= q < |c.kids| ==> d.children[q + 1] == c.kids[q].ref
    ensures Holds(d.(num := |c.keys| + 1), FromPrevShape(c, x, sib))
  {
    var t := FromPrevShape(c, x, sib);
    forall q | 0 <= q < |t.kids|
      ensures d.children[q] == t.kids[q].ref
    {
      if q > 0 { assert t.kids[q] == c.kids[q - 1] && d.children[q - 1 + 1] == c.kids[q - 1].ref; }
    }
    forall q | 0 <= q < |t.keys|
      ensures d.keys[q] == t.keys[q]
    {
      if q > 0 { assert t.keys[q] == c.keys[q - 1] && d.keys[q - 1 + 1] == c.keys[q - 1]; }
    }
  }

  lemma AppendedCell(d: Cell, a: Shape, x: int, b: Shape)
    requires Sized(d) && |a.keys| == MIN_KEYS - 1 && |b.keys| <= MIN_KEYS - 1 && (d.leaf <==> a.kids == [])
    requires (a.kids == [] <==> b.kids == []) && (a.kids != [] ==> |a.kids| == |a.keys| + 1 && |b.kids| == |b.keys| + 1)
    requires d.keys[MIN_KEYS - 1] == x && forall q :: 0 <= q < |a.keys| ==> d.keys[q] == a.keys[q]
    requires forall q :: 0 <= q < |b.keys| ==> d.keys[MIN_KEYS + q] == b.keys[q]
    requires forall q :: 0 <= q < |a.kids| ==> d.children[q] == a.kids[q].ref
    requires forall q :: 0 <= q < |b.kids| ==> d.children[MIN_KEYS + q] == b.kids[q].ref
    ensures Holds(d.(num := |a.keys| + |b.keys| + 1), JoinedShape(a, x, b))
  {
    var t := JoinedShape(a, x, b);
    forall q | 0 <= q < |t.keys|
      ensures d.keys[q] == t.keys[q]
    {
      if q >= MIN_KEYS { assert d.keys[MIN_KEYS + (q - MIN_KEYS)] == b.keys[q - MIN_KEYS]; }
    }
    forall q | 0 <= q < |t.kids|
      ensures d.children[q] == t.kids[q].ref
    {
      if q >= MIN_KEYS { assert d.children[MIN_KEYS + (q - MIN_KEYS)] == b.kids[q - MIN_KEYS].ref; }
    }
  }

  // What fill reads.
  lemma FillReady(m: map<Ref, Cell>, s: Shape, i: nat, h: nat)
    requires Rep(m, s) && Well(Value(s), h, 1) && h > 0 && i <= |s.keys| && |s.kids[i].keys| < MIN_KEYS
    ensures s.ref in m && Sized(m[s.ref]) && m[s.ref].num == |s.keys|
    ensures 0 < |s.keys| <= MAX_KEYS && |s.kids| == |s.keys| + 1
    ensures forall q :: 0 <= q < |s.kids| ==>
              m[s.ref].children[q] == s.kids[q].ref && s.kids[q].ref in m && m[s.kids[q].ref].num == |s.kids[q].keys|
    ensures forall q :: 0 <= q < |s.kids| ==> MIN_KEYS - 1 <= |s.kids[q].keys| <= MAX_KEYS
    ensures i > 0 ==> Level(s.kids[i], s.kids[i - 1]) && Level(s.kids[i - 1], s.kids[i])
    ensures i < |s.keys| ==> Level(s.kids[i], s.kids[i + 1])
    ensures Value(s).keys == s.keys && |Value(s).kids| == |s.kids|
    ensures forall q :: 0 <= q < |s.kids| ==> Value(s).kids[q].keys == s.kids[q].keys
  {
    Reads(m, s);
    assert AllWell(Value(s).kids, h - 1);
    forall q: nat | q < |s.kids|
      ensures MIN_KEYS - 1 <= |s.kids[q].keys| <= MAX_KEYS && (s.kids[q].kids == [] <==> h == 1)
    {
      assert Well(Value(s).kids[q], h - 1, MIN_KEYS - 1);
      assert Value(s).kids[q] == Value(s.kids[q]);
    }
  }

  lemma MergedCell(c: Cell, s: Shape, i: nat, c': Cell)
    requires Holds(c, s) && i < |s.keys| && |s.kids| == |s.keys| + 1 && Sized(c') && c'.leaf == c.leaf
    requires forall q :: 0 <= q < i ==> c'.keys[q] == s.keys[q]
    requires forall q :: i <= q < |s.keys| - 1 ==> c'.keys[q] == s.keys[q + 1]
    requires forall q :: 0 <= q <= i ==> c'.children[q] == s.kids[q].ref
    requires forall q :: i < q < |s.kids| - 1 ==> c'.children[q] == s.kids[q + 1].ref
    ensures Holds(c'.(num := |s.keys| - 1), MergeShape(s, i))
  {
    var s' := MergeShape(s, i);
    forall q | 0 <= q < |s'.kids|
      ensures c'.children[q] == s'.kids[q].ref
    {
      if q > i { assert s'.kids[q] == s.kids[q + 1]; }
    }
  }

  // The cells of the parent and the sibling after a borrow.
  lemma RootCell(c: Cell, s: Shape, i: nat, a: Shape, x: int, b: Shape)
    requires Holds(c, s) && i + 1 < |s.kids| && a.ref == s.kids[i].ref && b.ref == s.kids[i + 1].ref
    ensures Holds(c.(keys := c.keys[i := x]), PairShape(s, i, a, x, b))
    ensures a.ref == PairShape(s, i, a, x, b).kids[i].ref
  {
  }

  lemma LessLastCell(c: Cell, sib: Shape)
    requires Holds(c, sib) && sib.keys != []
    ensures Holds(c.(num := c.num - 1), LessLast(sib)) && LessLast(sib).ref == sib.ref
  {
  }

  lemma LessFirstCell(c: Cell, sib: Shape)
    requires Sized(c) && c.num == |sib.keys| && (c.leaf <==> sib.kids == []) && 0 < |sib.keys| <= MAX_KEYS
    requires sib.kids != [] ==> |sib.kids| == |sib.keys| + 1
    requires forall q :: 0 <= q < |sib.keys| - 1 ==> c.keys[q] == sib.keys[q + 1]
    requires forall q :: 0 <= q < |sib.kids| - 1 ==> c.children[q] == sib.kids[q + 1].ref
    ensures Holds(c.(num := c.num - 1), LessFirst(sib)) && LessFirst(sib).ref == sib.ref
  {
  }

  lemma PrevPair(s: Shape, i: nat)
    requires 0 < i < |s.kids| == |s.keys| + 1 && Level(s.kids[i], s.kids[i - 1])
    ensures var c, sib := s.kids[i], s.kids[i - 1];
      Value(PairShape(s, i - 1, LessLast(sib), sib.keys[|sib.keys| - 1], FromPrevShape(c, s.keys[i - 1], sib)))
      == BorrowFromPrev(Value(s), i)
  {
    hide Flat, Value, PairShape, LessLast, FromPrevShape, WithoutLast, ShiftedFromPrev;
    var c, sib, x := s.kids[i], s.kids[i - 1], s.keys[i - 1];
    var a, y, b := LessLast(sib), sib.keys[|sib.keys| - 1], FromPrevShape(c, x, sib);
    ReadNeighbours(s, i);
    PairValue(s, i - 1, a, y, b);
    PrevValue(c, x, sib);
  }

  // The values of two neighbouring children.
  lemma ReadNeighbours(s: Shape, i: nat)
    requires 0 < i < |s.kids| == |s.keys| + 1
    ensures Value(s) == Node(s.keys, Values(s.kids))
    ensures Value(s.kids[i - 1]).keys == s.kids[i - 1].keys && Value(s.kids[i]).keys == s.kids[i].keys
    ensures Value(s.kids[i - 1]).kids != [] <==> s.kids[i - 1].kids != []
    ensures Value(s.kids[i]).kids != [] <==> s.kids[i].kids != []
    ensures Values(s.kids)[i - 1] == Value(s.kids[i - 1]) && Values(s.kids)[i] == Value(s.kids[i])
  {
  }

  lemma NextPair(s: Shape, i: nat)
    requires i + 1 < |s.kids| == |s.keys| + 1 && Level(s.kids[i], s.kids[i + 1])
    ensures var c, sib := s.kids[i], s.kids[i + 1];
      var pair := PairShape(s, i, FromNextShape(c, s.keys[i], sib), sib.keys[0], LessFirst(sib));
      Value(pair) == BorrowFromNext(Value(s), i)
  {
    hide Flat, Value, PairShape, LessFirst, FromNextShape, WithoutFirst, ShiftedFromNext;
    var c, sib, x := s.kids[i], s.kids[i + 1], s.keys[i];
    var a, y, b := FromNextShape(c, x, sib), sib.keys[0], LessFirst(sib);
    ReadNeighbours(s, i + 1);
    PairValue(s, i, a, y, b);
    NextValue(c, x, sib);
  }

  lemma EvolvesReads(m: map<Ref, Cell>, s: Shape, m': map<Ref, Cell>, s': Shape)
    requires Evolves(m, s, m', s')
    ensures Rep(m', s') && Distinct(s') && s'.ref == s.ref && s'.ref in m' && Holds(m'[s'.ref], s')
    ensures
      forall c :: c in s'.kids ==> c.ref in m' && Holds(m'[c.ref], c) && Rep(m', c)
  {
    Reads(m', s');
  }

  lemma SplitRoot(c: Cell, s: Shape, i: nat, z: Ref, c': Cell)
    requires Holds(c, s) && i < |s.kids| && |s.keys| < MAX_KEYS && |s.kids[i].keys| == MAX_KEYS && Sized(c')
    requires c'.num == c.num + 1 && c'.leaf == c.leaf
    requires c'.keys == Moved(c.keys, i + 1, c.keys, i, MAX_KEYS - i - 1)[i := s.kids[i].keys[MIN_KEYS - 1]]
    requires c'.children == Moved(c.children, i + 2, c.children, i + 1, MAX_CHILDREN - i - 2)[i + 1 := z]
    ensures Holds(c', SplitShape(s, i, z))
  {
  }

  // ---- The tree over its root pointer ----

  // The whole memory is the tree: nothing dangles, nothing is left behind.
  ghost predicate Whole(m: map<Ref, Cell>, s: Shape)
  {
    Rep(m, s) && Distinct(s) && forall x :: x in m ==> Occ(s, x) > 0
  }

  lemma WholeStays(m: map<Ref, Cell>, s: Shape, m': map<Ref, Cell>, s': Shape)
    requires Whole(m, s) && Evolves(m, s, m', s')
    ensures Whole(m', s')
  {
  }

  lemma WholeLeaf(m: map<Ref, Cell>, s: Shape)
    requires s.ref != 0 && s.kids == [] && m.Keys == {s.ref} && Holds(m[s.ref], s)
    ensures Whole(m, s)
  {
    assert Occ(s, s.ref) == 1;
  }

  // A new root above the old one.
  lemma WholeAbove(m: map<Ref, Cell>, s: Shape, r: Ref, m': map<Ref, Cell>)
    requires Whole(m, s) && r != 0 && r !in m && m'.Keys == m.Keys + {r} && (forall x :: x in m ==> m'[x] == m[x])
    requires Holds(m'[r], Shape(r, [], [s]))
    ensures Whole(m', Shape(r, [], [s]))
  {
    var t := Shape(r, [], [s]);
    forall x
      ensures Occ(t, x) == Occ(s, x) + (if x == r then 1 else 0) && Occ(s, x) <= 1
      ensures Occ(s, x) > 0 ==> x in m
    {
      OccOne(s, x);
      if Occ(s, x) > 0 { RepIn(m, s, x); }
    }
    RepFrame(m, m', s);
    hide Occ;
  }

  // An empty root gives way to its only child.
  lemma WholeBelow(m: map<Ref, Cell>, s: Shape)
    requires Whole(m, s) && s.keys == [] && |s.kids| == 1
    ensures s.ref in m && Whole(m - {s.ref}, s.kids[0])
  {
    var c, m' := s.kids[0], m - {s.ref};
    forall x
      ensures Occ(s, x) == Occ(c, x) + (if x == s.ref then 1 else 0) && Occ(s, x) <= 1
    {
      assert s.kids == [c];
      OccOne(c, x);
    }
    assert Rep(m, c);
    RepFrame(m, m', c);
    hide Occ;
  }

  class KeyTree {
    const store: Store
    var root: Ref
    ghost var shape: Shape
    ghost var height: nat

    ghost predicate Valid()
      reads this, store
    {
      if root == 0 then store.mem == map[]
      else root == shape.ref && Whole(store.mem, shape) && Well(Value(shape), height, 1)
    }

    ghost function Abs(): (t: Tree)
      requires Valid()
      reads this, store
      ensures TreeOk(t, height)
    {
      if root == 0 then NoRoot else Root(Value(shape))
    }

    constructor ()
      ensures Valid() && Abs() == NoRoot && fresh(store)
    {
      store := new Store();
      root := 0;
    }

    // Whether find returns a node.
    method Has(k: int) returns (found: bool)
      requires Valid()
      ensures found == (Abs().Root? && Find(Abs().n, k, height))
      ensures Strict(Contents(Abs())) ==> (found <==> k in Contents(Abs()))
    {
      if root == 0 { return false; }
      WholeParts(store.mem, shape);
      WellLess(Value(shape), height, 1, 0);
      if Strict(Contents(Abs())) { FindExact(Value(shape), k, height); }
      hide Rep, Distinct, Whole, Find, Flat, Strict, Well;
      var r := store.FindAt(root, k, shape, height);
      found := r != 0;
    }

    // insert (lines 441-486).
    method InsertKey(k: int) returns (isNew: bool)
      requires Valid()
      modifies this, store
      ensures Valid() && Abs() == Insert(old(Abs()), k, old(height))
      ensures isNew == InsertAnswer(old(Abs()), k, old(height))
      ensures
        var was := old(Abs());
        Strict(Contents(was)) ==>
          (isNew <==> k !in Contents(was) || (RootFull(was) && was.n.keys[MIN_KEYS - 1] == k))
      ensures Strict(Contents(old(Abs()))) ==>
                (Contents(Abs()) == InsertSeq(Contents(old(Abs())), k)
                 <==> !(RootFull(old(Abs())) && old(Abs()).n.keys[MIN_KEYS - 1] == k))
    {
      ghost var was := Abs();
      InsertOk(was, k, height);
      if Strict(Contents(was)) {
        InsertExact(was, k, height);
        InsertAnswerExact(was, k, height);
      }
      hide Strict, InsertSeq, Flat, Contents, Rep, Distinct, Whole, Evolves, InsertNonFull, Inserts, Grown;
      if root == 0 {
        isNew := true;
        FirstKeyIn(k);
      } else if store.mem[root].num == MAX_KEYS {
        isNew := GrowAndInsert(k);
      } else {
        ghost var m0, s := store.mem, shape;
        isNew, shape := store.InsertNonFullAt(root, k, shape, height);
        WholeStays(m0, s, store.mem, shape);
      }
    }

    method FirstKeyIn(k: int)
      requires Valid() && root == 0
      modifies this, store
      ensures Valid() && root != 0 && height == 0 && Value(shape) == Node([k], [])
    {
      root := store.NewNode(true);
      store.mem := store.mem[root := store.mem[root].(keys := store.mem[root].keys[0 := k])];
      store.mem := store.mem[root := store.mem[root].(num := 1)];
      shape, height := Shape(root, [k], []), 0;
      WholeLeaf(store.mem, shape);
    }

    // The root is full (lines 455-478): a new root, and the key goes into one of the halves.
    method GrowAndInsert(k: int) returns (isNew: bool)
      requires Valid() && root != 0 && |shape.keys| == MAX_KEYS
      modifies this, store
      ensures isNew == InsertAnswer(old(Root(Value(shape))), k, old(height))
      ensures Valid() && root != 0 && height == old(height) + 1
      ensures Root(Value(shape)) == Insert(old(Root(Value(shape))), k, old(height))
    {
      hide FindKey, Holds, Rep, Distinct, Whole, Evolves, Occ, Flat, Well, AllWell, Value, Values;
      hide InsertNonFull, SplitChild, Grown, Insert, Inserts, InsertAnswer;
      ghost var t, h := shape, height;
      ghost var s1;
      var s;
      s, s1 := SplitRootNode();
      ghost var m2 := store.mem;
      HalfReady(t, s1, k, h);
      WholeParts(m2, s1);
      root := s;
      isNew, shape := InsertInHalf(k, s1, h);
      height := h + 1;
      WholeStays(m2, s1, store.mem, shape);
      GrownResult(t, s1, shape, k, h, isNew);
      EvolvesRoot(m2, s1, store.mem, shape);
    }

    // The new root and the split of the old one (lines 457-463).
    method SplitRootNode() returns (s: Ref, ghost s1: Shape)
      requires Valid() && root != 0 && |shape.keys| == MAX_KEYS
      modifies store
      ensures Whole(store.mem, s1) && s == s1.ref && Value(s1) == SplitChild(Node([], [Value(shape)]), 0)
    {
      OneKid(shape);
      hide Rep, Distinct, Whole, Evolves, Occ, Flat, Well, AllWell, Value, SplitChild, Holds;
      s := AboveRoot();
      ghost var m1, s0 := store.mem, Shape(s, [], [shape]);
      WholeParts(m1, s0);
      s1 := store.SplitChildAt(s, 0, root, s0);
      WholeStays(m1, s0, store.mem, s1);
      EvolvesReads(m1, s0, store.mem, s1);
    }

    // A new root whose only child is the old one (lines 457-460).
    method AboveRoot() returns (s: Ref)
      requires Valid() && root != 0
      modifies store
      ensures Whole(store.mem, Shape(s, [], [shape]))
    {
      ghost var m0 := store.mem;
      hide Whole, Well, Value;
      s := store.NewNode(false);
      store.mem := store.mem[s := store.mem[s].(children := store.mem[s].children[0 := root])];
      WholeAbove(m0, shape, s, store.mem);
    }

    // The choice between the two halves (lines 467-477).
    method InsertInHalf(k: int, ghost s: Shape, ghost h: nat) returns (isNew: bool, ghost s': Shape)
      requires Rep(store.mem, s) && Distinct(s) && root == s.ref && |s.keys| == 1 && |s.kids| == 2
      requires var c := s.kids[if s.keys[0] < k then 1 else 0]; Well(Value(c), h, 0) && |c.keys| < MAX_KEYS
      modifies store
      ensures Evolves(old(store.mem), s, store.mem, s')
      ensures var i := if s.keys[0] < k then 1 else 0;
        Value(s') == Node(s.keys, Values(s.kids)[i := InsertNonFull(Value(s.kids[i]), k, h)])
        && isNew == Inserts(Value(s.kids[i]), k, h)
    {
      ghost var m := store.mem;
      Reads(m, s);
      hide Rep, Distinct, Evolves, Occ, Flat, Well, AllWell, Value, InsertNonFull, Inserts;
      var i := if store.mem[root].keys[0] < k then 1 else 0;
      KidDistinct(s, i);
      ghost var c;
      isNew, c := store.InsertNonFullAt(store.mem[root].children[i], k, s.kids[i], h);
      EvolvesKid(m, s, i, store.mem, c);
      s' := s.(kids := s.kids[i := c]);
    }

    // remove (lines 807-826).
    method RemoveKeyAt(k: int) returns (removed: bool)
      requires Valid()
      modifies this, store
      ensures Valid() && Abs() == RemoveKey(old(Abs()), k, old(height))
      ensures
        var was := old(Abs());
        Strict(Contents(was)) ==> (removed <==> k in Contents(was) || (was.Root? && was.n.kids != []))
      ensures Strict(Contents(old(Abs()))) ==> Contents(Abs()) == DeleteSeq(Contents(old(Abs())), k)
    {
      hide Rep, Distinct, Whole, Values, Removes, FindKey, Occ;
      ghost var was := Abs();
      RemoveKeyOk(was, k, height);
      if Strict(Contents(was)) {
        RemoveExact(was, k, height);
        RemoveAnswerExact(was, k, height);
      }
      hide Strict, DeleteSeq, Flat, Contents, Rep, Distinct, Whole, Evolves, Remove;
      if root == 0 { return false; }
      ghost var m0, s := store.mem, shape;
      WholeParts(m0, s);
      removed, shape := store.RemoveAt(root, k, shape, height);
      WholeStays(m0, s, store.mem, shape);
      EvolvesReads(m0, s, store.mem, shape);
      ValueParts(shape);
      if store.mem[root].num == 0 {
        DropRoot(k);
      }
    }

    // The root has no key left (lines 816-824).
    method DropRoot(k: int)
      requires root != 0 && root == shape.ref && Whole(store.mem, shape)
      requires Well(Value(shape), height, 0) && shape.keys == []
      modifies this, store
      ensures Valid() && (root == 0 <==> old(shape.kids) == [])
      ensures root != 0 ==> Value(shape) == old(Value(shape.kids[0]))
      ensures root != 0 ==> old(height) > 0 && height == old(height) - 1
    {
      ghost var m, s := store.mem, shape;
      Reads(m, s);
      WholeParts(m, s);
      var tmp := root;
      if store.mem[root].leaf {
        root := 0;
        OnlyRoot(m, s);
      } else {
        root := store.mem[root].children[0];
        OneKidWell(s, height);
        WholeBelow(m, s);
        shape, height := s.kids[0], height - 1;
      }
      store.mem := store.mem - {tmp};
    }
  }

  lemma WholeParts(m: map<Ref, Cell>, s: Shape)
    requires Whole(m, s)
    ensures Rep(m, s) && Distinct(s) && s.ref in m && Holds(m[s.ref], s)
  {
  }

  lemma OnlyRoot(m: map<Ref, Cell>, s: Shape)
    requires Whole(m, s) && s.kids == []
    ensures m - {s.ref} == map[]
  {
    forall x | x in m
      ensures x == s.ref
    {
      assert Occ(s, x) > 0;
    }
  }

  lemma OneKidWell(s: Shape, h: nat)
    requires Well(Value(s), h, 0) && s.keys == [] && s.kids != []
    ensures h > 0 && |s.kids| == 1 && Well(Value(s.kids[0]), h - 1, 1)
  {
    assert AllWell(Value(s).kids, h - 1);
    WellLess(Value(s).kids[0], h - 1, MIN_KEYS - 1, 1);
  }

  lemma OneKid(s: Shape)
    ensures forall r :: Value(Shape(r, [], [s])) == Node([], [Value(s)])
  {
  }

  lemma HalfReady(t: Shape, s1: Shape, k: int, h: nat)
    requires Well(Value(t), h, 1) && |t.keys| == MAX_KEYS && Value(s1) == SplitChild(Node([], [Value(t)]), 0)
    ensures |s1.keys| == 1 && |s1.kids| == 2
    ensures var c := s1.kids[if s1.keys[0] < k then 1 else 0]; Well(Value(c), h, 0) && |c.keys| < MAX_KEYS
  {
    ValueParts(t);
    ValueParts(s1);
    GrowReady(Value(t), k, h);
    hide Well, SplitChild, Insert, InsertNonFull, InsertAnswer, Inserts;
  }

  lemma GrownResult(t: Shape, s1: Shape, s2: Shape, k: int, h: nat, isNew: bool)
    requires Well(Value(t), h, 1) && |t.keys| == MAX_KEYS && Value(s1) == SplitChild(Node([], [Value(t)]), 0)
    requires |s1.keys| == 1 && |s1.kids| == 2
    requires var i := if s1.keys[0] < k then 1 else 0;
      && Well(Value(s1.kids[i]), h, 0) && |s1.kids[i].keys| < MAX_KEYS
      && Value(s2) == Node(s1.keys, Values(s1.kids)[i := InsertNonFull(Value(s1.kids[i]), k, h)])
      && isNew == Inserts(Value(s1.kids[i]), k, h)
    ensures Root(Value(s2)) == Insert(Root(Value(t)), k, h) && Well(Value(s2), h + 1, 1)
    ensures isNew == InsertAnswer(Root(Value(t)), k, h)
  {
    ValueParts(t);
    ValueParts(s1);
    GrowReady(Value(t), k, h);
    hide Well, SplitChild, Insert, InsertNonFull, InsertAnswer, Inserts;
  }

  lemma EvolvesRoot(m: map<Ref, Cell>, s: Shape, m': map<Ref, Cell>, s': Shape)
    requires Evolves(m, s, m', s')
    ensures s'.ref == s.ref
  {
  }

  lemma GrowReady(n: Node, k: int, h: nat)
    requires Well(n, h, 1) && |n.keys| == MAX_KEYS
    ensures var s := SplitChild(Node([], [n]), 0); var i := if s.keys[0] < k then 1 else 0;
      && |s.keys| == 1 && |s.kids| == 2 && Well(s.kids[i], h, 0) && |s.kids[i].keys| < MAX_KEYS
      && Insert(Root(n), k, h) == Root(Node(s.keys, s.kids[i := InsertNonFull(s.kids[i], k, h)]))
      && Well(Node(s.keys, s.kids[i := InsertNonFull(s.kids[i], k, h)]), h + 1, 1)
      && InsertAnswer(Root(n), k, h) == Inserts(s.kids[i], k, h)
  {
    GrownOk(n, h);
    InsertOk(Root(n), k, h);
    hide Flat, InsertNonFull, Inserts;
  }
}
