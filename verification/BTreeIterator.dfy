// The iterator of comparison_systems/terrace/code/include/btree.h, lines 86-102 and 383-435: with a stack of
// nodes and positions it visits the keys of a tree in order.
module BTreeIterator {
  import opened SortedSeq
  import opened Collections
  import opened BTree

  // Every node has a key, and an inner node one child more than keys.
  ghost predicate Filled(n: Node)
    decreases n
  {
    n.keys != [] && (n.kids == [] || (|n.kids| == |n.keys| + 1 && forall i :: 0 <= i < |n.kids| ==> Filled(n.kids[i])))
  }

  lemma {:induction false} WellFilled(n: Node, h: nat)
    requires Well(n, h, 1)
    ensures Filled(n)
    decreases h
  {
    if h > 0 {
      assert AllWell(n.kids, h - 1);
      forall i: nat | i < |n.kids|
        ensures Filled(n.kids[i])
      {
        WellLess(n.kids[i], h - 1, MIN_KEYS - 1, 1);
        WellFilled(n.kids[i], h - 1);
      }
    }
  }

  // A node on the stack, and how many of its keys have been visited.
  datatype Frame = Frame(node: Node, seen: nat)

  // An inner node whose child number `seen` is being visited: a key comes after it.
  ghost predicate Inner(f: Frame) {
    Filled(f.node) && |f.node.kids| == |f.node.keys| + 1 && f.seen < |f.node.keys|
  }

  ghost predicate AllInner(stack: seq<Frame>) { forall i :: 0 <= i < |stack| ==> Inner(stack[i]) }

  // The keys still to come when everything below the stack has been visited.
  ghost function Rest(stack: seq<Frame>): seq<int>
    requires AllInner(stack)
  {
    if stack == [] then []
    else
      var f := stack[|stack| - 1];
      After(f.node.keys, Flats(f.node.kids), f.seen) + Rest(stack[..|stack| - 1])
  }

  lemma RestNone()
    ensures Rest([]) == []
  {
  }

  lemma RestPush(stack: seq<Frame>, f: Frame)
    requires AllInner(stack) && Inner(f)
    ensures AllInner(stack + [f])
    ensures Rest(stack + [f]) == After(f.node.keys, Flats(f.node.kids), f.seen) + Rest(stack)
  {
    assert (stack + [f])[..|stack|] == stack;
  }

  // From key i on: the key, the child after it, and the rest of the node.
  lemma AfterStep(n: Node, i: nat)
    requires |n.kids| == |n.keys| + 1 && i < |n.keys|
    ensures After(n.keys, Flats(n.kids), i) == [n.keys[i]] + Flat(n.kids[i + 1]) + After(n.keys, Flats(n.kids), i + 1)
  {
    var parts := Flats(n.kids);
    if i + 1 < |n.keys| {
      assert n.keys[i + 1..][0] == n.keys[i + 1] && n.keys[i + 1..][1..] == n.keys[i + 2..];
      assert parts[i + 1..][1..] == parts[i + 2..];
    }
  }

  lemma FlatStep(n: Node)
    requires |n.kids| == |n.keys| + 1
    ensures Flat(n) == Flat(n.kids[0]) + After(n.keys, Flats(n.kids), 0)
  {
    FlatIs(n);
    if n.keys != [] { assert Flats(n.kids)[0] == Flat(n.kids[0]); }
  }

  // Below the last key nothing is left in the node.
  lemma AfterEnd(n: Node)
    requires |n.kids| == |n.keys| + 1
    ensures After(n.keys, Flats(n.kids), |n.keys|) == []
  {
  }

  // The top of the stack is the current node: a leaf, or an inner node that goes on after the current key.
  ghost predicate Standing(below: seq<Frame>, top: Frame, n: Node, idx: nat) {
    && AllInner(below) && top.node == n && Filled(n) && idx < |n.keys|
    && (n.kids != [] ==> top.seen == idx + 1)
  }

  // What is left of the current node.
  ghost function Here(n: Node, idx: nat): (r: seq<int>)
    requires Filled(n) && idx < |n.keys|
    ensures r != [] && r[0] == n.keys[idx]
  {
    if n.kids == [] then n.keys[idx..] else After(n.keys, Flats(n.kids), idx)
  }

  lemma LeafStarts(n: Node)
    requires Filled(n) && n.kids == []
    ensures Here(n, 0) == Flat(n)
  {
  }

  // Back from a child to its parent.
  lemma BackUp(below: seq<Frame>)
    requires AllInner(below) && below != []
    ensures
      var up := below[|below| - 1];
      && Standing(below[..|below| - 1], up.(seen := up.seen + 1), up.node, up.seen)
      && Rest(below) == Here(up.node, up.seen) + Rest(below[..|below| - 1])
  {
    assert Inner(below[|below| - 1]);
  }

  // Down from an inner node to the child after its current key.
  lemma Onwards(below: seq<Frame>, n: Node, i: nat)
    requires AllInner(below) && Filled(n) && n.kids != [] && i < |n.keys|
    ensures |n.kids| == |n.keys| + 1 && Filled(n.kids[i + 1])
    ensures i + 1 == |n.keys| ==> Here(n, i) + Rest(below) == [n.keys[i]] + (Flat(n.kids[i + 1]) + Rest(below))
    ensures i + 1 < |n.keys| ==>
      && AllInner(below + [Frame(n, i + 1)])
      && Here(n, i) + Rest(below) == [n.keys[i]] + (Flat(n.kids[i + 1]) + Rest(below + [Frame(n, i + 1)]))
  {
    hide Flat, Rest, After, AllInner;
    AfterStep(n, i);
    var k, f, r := [n.keys[i]], Flat(n.kids[i + 1]), Rest(below);
    if i + 1 == |n.keys| {
      AfterEnd(n);
      assert k + f + [] + r == k + (f + r);
    } else {
      RestPush(below, Frame(n, i + 1));
      var a := After(n.keys, Flats(n.kids), i + 1);
      assert k + f + a + r == k + (f + (a + r));
    }
  }

  // One step further down on the way to the first leaf.
  lemma DownStep(stack: seq<Frame>, n: Node)
    requires AllInner(stack) && Filled(n) && n.kids != []
    ensures Filled(n.kids[0]) && AllInner(stack + [Frame(n, 0)])
    ensures Flat(n) + Rest(stack) == Flat(n.kids[0]) + Rest(stack + [Frame(n, 0)])
  {
    FlatStep(n);
    RestPush(stack, Frame(n, 0));
    Regroup(Flat(n.kids[0]), After(n.keys, Flats(n.kids), 0), Rest(stack));
  }

  class NodeIterator {
    var stack: seq<Frame>
    var curNode: Node
    var curIdx: nat

    ghost predicate Valid()
      reads this
    {
      stack != [] ==> Standing(stack[..|stack| - 1], stack[|stack| - 1], curNode, curIdx)
    }

    // The keys from the current one on.
    ghost function Left(): seq<int>
      requires Valid()
      reads this
    {
      if stack == [] then [] else Here(curNode, curIdx) + Rest(stack[..|stack| - 1])
    }

    // The way down to the first leaf below a node (lines 387-392 and 423-428).
    method Descend(node: Node)
      requires AllInner(stack) && Filled(node)
      modifies this
      ensures Valid() && stack != [] && Left() == Flat(node) + old(Rest(stack))
    {
      hide Flat, Rest, Inner, AllInner, After, Here;
      var cur := node;
      ghost var all := Flat(node) + Rest(stack);
      while cur.kids != []
        invariant Filled(cur) && AllInner(stack) && Flat(cur) + Rest(stack) == all
        decreases cur
      {
        DownStep(stack, cur);
        stack := stack + [Frame(cur, 0)];
        cur := cur.kids[0];
      }
      ghost var below := stack;
      stack := stack + [Frame(cur, 0)];
      assert stack[..|stack| - 1] == below;
      LeafStarts(cur);
      curNode := cur;
      curIdx := 0;
    }

    // begin (lines 384-393).
    constructor (node: Node)
      requires Filled(node)
      ensures Valid() && stack != [] && Left() == Flat(node)
    {
      stack := [];
      curNode := node;
      curIdx := 0;
      new;
      Descend(node);
    }

    // operator* (lines 400-402).
    method Current() returns (k: int)
      requires Valid() && stack != []
      ensures Left() != [] && k == Left()[0]
    {
      k := curNode.keys[curIdx];
    }

    // done (lines 433-435).
    method Done() returns (done: bool)
      requires Valid()
      ensures done <==> Left() == []
    {
      done := stack == [];
    }

    // operator++ (lines 406-430).
    method Advance()
      requires Valid() && stack != []
      modifies this
      ensures Valid() && old(Left()) != [] && Left() == old(Left())[1..]
    {
      hide Flat, Rest, Inner, AllInner, After, Filled;
      if curNode.kids == [] {
        if curIdx < |curNode.keys| - 1 {
          curIdx := curIdx + 1;
        } else {
          LeaveLeaf();
        }
      } else {
        GoOn();
      }
    }

    // A leaf is done: back to its parent (lines 411-416).
    method LeaveLeaf()
      requires Valid() && stack != [] && curNode.kids == [] && curIdx == |curNode.keys| - 1
      modifies this
      ensures Valid() && Left() == old(Left())[1..]
    {
      hide Flat, Rest, Inner, AllInner, After, Filled;
      ghost var below := stack[..|stack| - 1];
      stack := stack[..|stack| - 1];
      RestNone();
      if |stack| != 0 {
        BackUp(below);
        var top := stack[|stack| - 1];
        curNode := top.node;
        curIdx := top.seen;
        stack := stack[..|stack| - 1] + [Frame(top.node, top.seen + 1)];
        assert stack[..|stack| - 1] == below[..|below| - 1];
      }
    }

    // From an inner node down into the child after the current key (lines 419-429).
    method GoOn()
      requires Valid() && stack != [] && curNode.kids != []
      modifies this
      ensures Valid() && Left() == old(Left())[1..]
    {
      hide Flat, Rest, Inner, AllInner, After, Filled;
      ghost var below := stack[..|stack| - 1];
      Onwards(below, curNode, curIdx);
      if curIdx == |curNode.keys| - 1 {
        stack := stack[..|stack| - 1];
      } else {
        assert stack == below + [Frame(curNode, curIdx + 1)];
      }
      Descend(curNode.kids[curIdx + 1]);
    }
  }

  lemma Visit(visited: seq<int>, left: seq<int>)
    requires left != []
    ensures visited + left == visited + [left[0]] + left[1..]
  {
    assert left == [left[0]] + left[1..];
  }

  // Visiting a whole tree gives its contents in order.
  method Enumerate(t: Tree, ghost h: nat) returns (visited: seq<int>)
    requires TreeOk(t, h)
    ensures visited == Contents(t)
  {
    hide Flat, Rest, Inner, AllInner, After, Here, Filled, Well, Standing;
    visited := [];
    if t.Root? {
      WellFilled(t.n, h);
      var it := new NodeIterator(t.n);
      var done := it.Done();
      ghost var left := it.Left();
      while !done
        invariant it.Valid() && left == it.Left() && visited + left == Contents(t) && (done <==> left == [])
        decreases |left|
      {
        var k := it.Current();
        Visit(visited, left);
        it.Advance();
        visited := visited + [k];
        left := left[1..];
        done := it.Done();
      }
    }
  }
}
