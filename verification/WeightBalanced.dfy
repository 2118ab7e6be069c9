// Weight-balanced trees and their join
// (comparison_systems/aspen/code/trees/weight_balanced_tree.h, balance_utils.h).
// The constants alpha = 0.29, ratio = 29/71 and beta = 42/71 are exact rationals.
module WeightBalanced {

  datatype Entry = Entry(key: int, val: int)
  datatype Tree = Leaf | Node(l: Tree, e: Entry, r: Tree)

  function Size(t: Tree): nat {
    if t.Leaf? then 0 else Size(t.l) + Size(t.r) + 1
  }

  function Weight(t: Tree): nat { Size(t) + 1 }

  // ratio * weight(t1) > weight(t2)
  predicate LeftHeavy(t1: Tree, t2: Tree) { 29 * Weight(t1) > 71 * Weight(t2) }

  // balance <= beta * weight(t), where balance is the weight of the inner child.
  predicate SingleRotation(t: Tree, inner: Tree) { 71 * Weight(inner) <= 42 * Weight(t) }

  predicate Balanced(t: Tree) {
    t.Node? ==> Balanced(t.l) && Balanced(t.r) && Even(Weight(t.l), Weight(t.r))
  }

  // Neither of two sibling weights is too heavy for the other.
  predicate Even(a: int, b: int) { 29 * a <= 71 * b && 29 * b <= 71 * a }

  function Entries(t: Tree): seq<Entry> {
    if t.Leaf? then [] else Entries(t.l) + [t.e] + Entries(t.r)
  }

  // ---- Rotations and joins ----

  function RotateRight(t: Tree): Tree
    requires t.Node? && t.l.Node?
  {
    Node(t.l.l, t.l.e, Node(t.l.r, t.e, t.r))
  }

  function RotateLeft(t: Tree): Tree
    requires t.Node? && t.r.Node?
  {
    Node(Node(t.l, t.e, t.r.l), t.r.e, t.r.r)
  }

  function DoubleRotateRight(t: Tree): Tree
    requires t.Node? && t.l.Node? && t.l.r.Node?
  {
    RotateRight(Node(Node(Node(t.l.l, t.l.e, t.l.r.l), t.l.r.e, t.l.r.r), t.e, t.r))
  }

  function DoubleRotateLeft(t: Tree): Tree
    requires t.Node? && t.r.Node? && t.r.l.Node?
  {
    RotateLeft(Node(t.l, t.e, Node(t.r.l.l, t.r.l.e, Node(t.r.l.r, t.r.e, t.r.r))))
  }

  // The rebalancing after a recursive right_join (lines 62-65).
  function RebalanceLeft(t: Tree): Tree
    requires t.Node?
  {
    if LeftHeavy(t.r, t.l) then
      if SingleRotation(t.r, t.r.l) then RotateLeft(t) else DoubleRotateLeft(t)
    else t
  }

  // The rebalancing after a recursive left_join (lines 75-78).
  function RebalanceRight(t: Tree): Tree
    requires t.Node?
  {
    if LeftHeavy(t.l, t.r) then
      if SingleRotation(t.l, t.l.r) then RotateRight(t) else DoubleRotateRight(t)
    else t
  }

  function RightJoin(t1: Tree, t2: Tree, k: Entry): Tree
    decreases t1
  {
    if !LeftHeavy(t1, t2) then Node(t1, k, t2)
    else RebalanceLeft(Node(t1.l, t1.e, RightJoin(t1.r, t2, k)))
  }

  function LeftJoin(t1: Tree, t2: Tree, k: Entry): Tree
    decreases t2
  {
    if !LeftHeavy(t2, t1) then Node(t1, k, t2)
    else RebalanceRight(Node(LeftJoin(t1, t2.l, k), t2.e, t2.r))
  }

  function NodeJoin(t1: Tree, t2: Tree, k: Entry): Tree {
    if LeftHeavy(t1, t2) then RightJoin(t1, t2, k)
    else if LeftHeavy(t2, t1) then LeftJoin(t1, t2, k)
    else Node(t1, k, t2)
  }

  // ---- join keeps the in-order sequence ----

  lemma Associative(a: seq<Entry>, x: Entry, b: seq<Entry>, y: Entry, c: seq<Entry>)
    ensures (a + [x] + b) + [y] + c == a + [x] + (b + [y] + c)
  {
  }

  lemma RotateLeftEntries(t: Tree)
    requires t.Node? && t.r.Node?
    ensures Entries(RotateLeft(t)) == Entries(t)
  {
    Associative(Entries(t.l), t.e, Entries(t.r.l), t.r.e, Entries(t.r.r));
  }

  lemma RotateRightEntries(t: Tree)
    requires t.Node? && t.l.Node?
    ensures Entries(RotateRight(t)) == Entries(t)
  {
    Associative(Entries(t.l.l), t.l.e, Entries(t.l.r), t.e, Entries(t.r));
  }

  lemma RebalanceEntries(t: Tree)
    requires t.Node?
    ensures Entries(RebalanceLeft(t)) == Entries(t) && Entries(RebalanceRight(t)) == Entries(t)
  {
    if LeftHeavy(t.r, t.l) {
      if SingleRotation(t.r, t.r.l) {
        RotateLeftEntries(t);
      } else {
        RotateRightEntries(t.r);
        RotateLeftEntries(Node(t.l, t.e, RotateRight(t.r)));
      }
    }
    if LeftHeavy(t.l, t.r) {
      if SingleRotation(t.l, t.l.r) {
        RotateRightEntries(t);
      } else {
        RotateLeftEntries(t.l);
        RotateRightEntries(Node(RotateLeft(t.l), t.e, t.r));
      }
    }
  }

  lemma {:induction false} RightJoinEntries(t1: Tree, t2: Tree, k: Entry)
    ensures Entries(RightJoin(t1, t2, k)) == Entries(t1) + [k] + Entries(t2)
    decreases t1
  {
    hide RebalanceLeft;
    if LeftHeavy(t1, t2) {
      RightJoinEntries(t1.r, t2, k);
      RebalanceEntries(Node(t1.l, t1.e, RightJoin(t1.r, t2, k)));
      Associative(Entries(t1.l), t1.e, Entries(t1.r), k, Entries(t2));
    }
  }

  lemma {:induction false} LeftJoinEntries(t1: Tree, t2: Tree, k: Entry)
    ensures Entries(LeftJoin(t1, t2, k)) == Entries(t1) + [k] + Entries(t2)
    decreases t2
  {
    hide RebalanceRight;
    if LeftHeavy(t2, t1) {
      LeftJoinEntries(t1, t2.l, k);
      RebalanceEntries(Node(LeftJoin(t1, t2.l, k), t2.e, t2.r));
      Associative(Entries(t1), k, Entries(t2.l), t2.e, Entries(t2.r));
    }
  }

  lemma NodeJoinEntries(t1: Tree, t2: Tree, k: Entry)
    ensures Entries(NodeJoin(t1, t2, k)) == Entries(t1) + [k] + Entries(t2)
  {
    RightJoinEntries(t1, t2, k);
    LeftJoinEntries(t1, t2, k);
  }

  lemma {:induction false} SizeIsLength(t: Tree)
    ensures Size(t) == |Entries(t)|
  {
    if t.Node? { SizeIsLength(t.l); SizeIsLength(t.r); }
  }

  // ---- join keeps balance ----

  // The arithmetic of one rebalancing step. Weights: a is the light sibling, b + c the heavy side
  // whose part b grew by the spliced weight c, split into inner x and outer y.
  predicate Spliced(a: int, b: int, c: int) {
    a >= 1 && b >= 1 && c >= 1 && Even(a, b) && 29 * (a + b) > 71 * c
  }

  lemma SingleIsEven(a: int, b: int, c: int, x: int, y: int)
    requires Spliced(a, b, c) && x + y == b + c && x >= 1 && y >= 1 && Even(x, y)
    requires 29 * (b + c) > 71 * a && 71 * x <= 42 * (x + y)
    ensures Even(a, x) && Even(a + x, y)
  {
  }

  lemma DoubleIsEven(a: int, b: int, c: int, x1: int, x2: int, y: int)
    requires Spliced(a, b, c) && x1 + x2 + y == b + c && x1 >= 1 && x2 >= 1 && y >= 1
    requires Even(x1 + x2, y) && Even(x1, x2)
    requires 29 * (b + c) > 71 * a && 71 * (x1 + x2) > 42 * (x1 + x2 + y)
    ensures Even(a, x1) && Even(x2, y) && Even(a + x1, x2 + y)
  {
  }

  // The heavy side of a rebalancing has a left and a right child, and a heavy inner child has two.
  lemma HeavyParts(a: int, t: Tree, x: Tree, y: Tree, b: int, c: int)
    requires t.Node? && Balanced(t) && Weight(t) == b + c && Spliced(a, b, c) && 29 * (b + c) > 71 * a
    requires Weight(x) + Weight(y) == b + c && Even(Weight(x), Weight(y))
    ensures 71 * Weight(x) > 42 * (b + c) ==> x.Node?
  {
  }

  lemma SingleLeftBalanced(l: Tree, e: Entry, j: Tree, b: int, c: int)
    requires Balanced(l) && j.Node? && Balanced(j) && Weight(j) == b + c && Spliced(Weight(l), b, c)
    requires LeftHeavy(j, l) && SingleRotation(j, j.l)
    ensures Balanced(RotateLeft(Node(l, e, j))) && Weight(RotateLeft(Node(l, e, j))) == Weight(l) + b + c
  {
    SingleIsEven(Weight(l), b, c, Weight(j.l), Weight(j.r));
  }

  lemma DoubleLeftBalanced(l: Tree, e: Entry, j: Tree, b: int, c: int)
    requires Balanced(l) && j.Node? && Balanced(j) && Weight(j) == b + c && Spliced(Weight(l), b, c)
    requires LeftHeavy(j, l) && !SingleRotation(j, j.l)
    ensures j.l.Node? && Balanced(DoubleRotateLeft(Node(l, e, j)))
    ensures Weight(DoubleRotateLeft(Node(l, e, j))) == Weight(l) + b + c
  {
    HeavyParts(Weight(l), j, j.l, j.r, b, c);
    DoubleIsEven(Weight(l), b, c, Weight(j.l.l), Weight(j.l.r), Weight(j.r));
    assert DoubleRotateLeft(Node(l, e, j)) == Node(Node(l, e, j.l.l), j.l.e, Node(j.l.r, j.e, j.r));
  }

  lemma RebalanceLeftBalanced(l: Tree, e: Entry, j: Tree, b: int, c: int)
    requires Balanced(l) && j.Node? && Balanced(j) && Weight(j) == b + c && Spliced(Weight(l), b, c)
    ensures Balanced(RebalanceLeft(Node(l, e, j))) && Weight(RebalanceLeft(Node(l, e, j))) == Weight(l) + b + c
  {
    if LeftHeavy(j, l) {
      if SingleRotation(j, j.l) { SingleLeftBalanced(l, e, j, b, c); } else { DoubleLeftBalanced(l, e, j, b, c); }
    }
  }

  lemma SingleRightBalanced(j: Tree, e: Entry, r: Tree, b: int, c: int)
    requires Balanced(r) && j.Node? && Balanced(j) && Weight(j) == b + c && Spliced(Weight(r), b, c)
    requires LeftHeavy(j, r) && SingleRotation(j, j.r)
    ensures Balanced(RotateRight(Node(j, e, r))) && Weight(RotateRight(Node(j, e, r))) == Weight(r) + b + c
  {
    SingleIsEven(Weight(r), b, c, Weight(j.r), Weight(j.l));
  }

  lemma DoubleRightBalanced(j: Tree, e: Entry, r: Tree, b: int, c: int)
    requires Balanced(r) && j.Node? && Balanced(j) && Weight(j) == b + c && Spliced(Weight(r), b, c)
    requires LeftHeavy(j, r) && !SingleRotation(j, j.r)
    ensures j.r.Node? && Balanced(DoubleRotateRight(Node(j, e, r)))
    ensures Weight(DoubleRotateRight(Node(j, e, r))) == Weight(r) + b + c
  {
    HeavyParts(Weight(r), j, j.r, j.l, b, c);
    DoubleIsEven(Weight(r), b, c, Weight(j.r.r), Weight(j.r.l), Weight(j.l));
    assert DoubleRotateRight(Node(j, e, r)) == Node(Node(j.l, j.e, j.r.l), j.r.e, Node(j.r.r, e, r));
  }

  lemma RebalanceRightBalanced(j: Tree, e: Entry, r: Tree, b: int, c: int)
    requires Balanced(r) && j.Node? && Balanced(j) && Weight(j) == b + c && Spliced(Weight(r), b, c)
    ensures Balanced(RebalanceRight(Node(j, e, r))) && Weight(RebalanceRight(Node(j, e, r))) == Weight(r) + b + c
  {
    if LeftHeavy(j, r) {
      if SingleRotation(j, j.r) { SingleRightBalanced(j, e, r, b, c); } else { DoubleRightBalanced(j, e, r, b, c); }
    }
  }

  lemma {:induction false} RightJoinBalanced(t1: Tree, t2: Tree, k: Entry)
    requires Balanced(t1) && Balanced(t2) && 29 * Weight(t2) <= 71 * Weight(t1)
    ensures Balanced(RightJoin(t1, t2, k)) && Weight(RightJoin(t1, t2, k)) == Weight(t1) + Weight(t2)
    decreases t1
  {
    if LeftHeavy(t1, t2) {
      RightJoinBalanced(t1.r, t2, k);
      RebalanceLeftBalanced(t1.l, t1.e, RightJoin(t1.r, t2, k), Weight(t1.r), Weight(t2));
    }
  }

  lemma {:induction false} LeftJoinBalanced(t1: Tree, t2: Tree, k: Entry)
    requires Balanced(t1) && Balanced(t2) && 29 * Weight(t1) <= 71 * Weight(t2)
    ensures Balanced(LeftJoin(t1, t2, k)) && Weight(LeftJoin(t1, t2, k)) == Weight(t1) + Weight(t2)
    decreases t2
  {
    if LeftHeavy(t2, t1) {
      LeftJoinBalanced(t1, t2.l, k);
      RebalanceRightBalanced(LeftJoin(t1, t2.l, k), t2.e, t2.r, Weight(t2.l), Weight(t1));
    }
  }

  // The join of any two balanced trees, however different in size, is balanced, holds the
  // entries of the left tree, the new entry and those of the right tree, in this order.
  lemma NodeJoinCorrect(t1: Tree, t2: Tree, k: Entry)
    requires Balanced(t1) && Balanced(t2)
    ensures Balanced(NodeJoin(t1, t2, k))
    ensures Entries(NodeJoin(t1, t2, k)) == Entries(t1) + [k] + Entries(t2)
    ensures Size(NodeJoin(t1, t2, k)) == Size(t1) + 1 + Size(t2)
  {
    NodeJoinEntries(t1, t2, k);
    SizeIsLength(t1);
    SizeIsLength(t2);
    SizeIsLength(NodeJoin(t1, t2, k));
    if LeftHeavy(t1, t2) {
      RightJoinBalanced(t1, t2, k);
    } else if LeftHeavy(t2, t1) {
      LeftJoinBalanced(t1, t2, k);
    }
  }
}
