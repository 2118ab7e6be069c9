// The concurrent stack with recycled nodes
// (comparison_systems/aspen/code/pbbslib/concurrent_stack.h:41-135) as a state machine: any number
// of threads push and pop values; nodes move between stack LIVE, which holds the values, and stack
// SPARE, which keeps popped nodes for reuse. One step is one access to shared memory; the pair
// (node, counter) of a head is read in two steps and compared and swapped in one.
module TaggedStack {

  type Value = int
  // A node is an index into the heap; NULL is no node.
  type Ptr = int
  const NULL: Ptr := -1

  // concurrent_stack::a and concurrent_stack::b
  const LIVE := 0
  const SPARE := 1

  datatype Node = Node(value: Value, next: Ptr, length: nat)
  datatype Head = Head(node: Ptr, counter: nat)

  datatype Op = Push(v: Value) | Pop

  datatype PC =
    | Idle
      // prim pop of stack q
    | TakeNode(q: nat, op: Op)
    | TakeCounter(q: nat, op: Op, node: Ptr)
    | TakeNext(q: nat, op: Op, seen: Head)
    | TakeCas(q: nat, op: Op, seen: Head, next: Ptr)
      // between the two halves
    | Malloc(op: Op)
    | StoreValue(x: Ptr, op: Op)
    | LoadValue(x: Ptr)
      // prim push of node x on stack q
    | PutNode(q: nat, x: Ptr, v: Value)
    | PutCounter(q: nat, x: Ptr, v: Value, node: Ptr)
    | PutNext(q: nat, x: Ptr, v: Value, seen: Head)
    | LoadLength(q: nat, x: Ptr, v: Value, seen: Head)
    | PutLength(q: nat, x: Ptr, v: Value, seen: Head, len: nat)
    | PutCas(q: nat, x: Ptr, v: Value, seen: Head)

  datatype State = State(
    heap: seq<Node>,
    head: seq<Head>,       // head[LIVE], head[SPARE]
    pc: seq<PC>,
    list: seq<seq<Ptr>>,   // history: the nodes of each stack, from the top
    won: seq<Value>)       // history: the value at the top when the thread's pop of LIVE succeeded
  {
    predicate Shape() { |head| == 2 == |list| && |won| == |pc| }

    predicate IsNode(p: Ptr) { 0 <= p < |heap| }

    function Goto(t: nat, p: PC): State
      requires t < |pc|
    {
      this.(pc := pc[t := p])
    }

    function Write(x: Ptr, n: Node): State
      requires IsNode(x)
    {
      this.(heap := heap[x := n])
    }

    function SetHead(q: nat, node: Ptr, nodes: seq<Ptr>): State
      requires q < |head| && q < |list|
    {
      this.(head := head[q := Head(node, head[q].counter + 1)], list := list[q := nodes])
    }
  }

  // One access by thread t; an idle thread starts op. A malformed state is left alone.
  function Step(s: State, t: nat, op: Op): (r: State)
    requires s.Shape() && t < |s.pc|
    ensures r.Shape() && |r.pc| == |s.pc|
  {
    match s.pc[t]
    case Idle => s.Goto(t, TakeNode(if op.Push? then SPARE else LIVE, op))
    case TakeNode(q, o) => if q > 1 then s else s.Goto(t, TakeCounter(q, o, s.head[q].node))
    case TakeCounter(q, o, node) =>
      if q > 1 then s
      else if node == NULL then s.Goto(t, if o.Push? then Malloc(o) else Idle)
      else s.Goto(t, TakeNext(q, o, Head(node, s.head[q].counter)))
    case TakeNext(q, o, seen) =>
      if !s.IsNode(seen.node) then s else s.Goto(t, TakeCas(q, o, seen, s.heap[seen.node].next))
    case TakeCas(q, o, seen, next) =>
      if q > 1 then s
      else if s.head[q] != seen then s.Goto(t, TakeNode(q, o))
      else TakeWin(s, t, q, o, seen.node, next)
    case Malloc(o) => s.(heap := s.heap + [Node(0, NULL, 0)]).Goto(t, StoreValue(|s.heap|, o))
    case StoreValue(x, o) =>
      if !s.IsNode(x) || o.Pop? then s
      else s.Write(x, s.heap[x].(value := o.v)).Goto(t, PutNode(LIVE, x, o.v))
    case LoadValue(x) => if !s.IsNode(x) then s else s.Goto(t, PutNode(SPARE, x, s.heap[x].value))
    case PutNode(q, x, v) => if q > 1 then s else s.Goto(t, PutCounter(q, x, v, s.head[q].node))
    case PutCounter(q, x, v, node) =>
      if q > 1 then s else s.Goto(t, PutNext(q, x, v, Head(node, s.head[q].counter)))
    case PutNext(q, x, v, seen) =>
      if !s.IsNode(x) then s
      else s.Write(x, s.heap[x].(next := seen.node)).Goto(t, LoadLength(q, x, v, seen))
    case LoadLength(q, x, v, seen) =>
      s.Goto(t, PutLength(q, x, v, seen, if s.IsNode(seen.node) then s.heap[seen.node].length else 0))
    case PutLength(q, x, v, seen, len) =>
      if !s.IsNode(x) then s
      else s.Write(x, s.heap[x].(length := len + 1)).Goto(t, PutCas(q, x, v, seen))
    case PutCas(q, x, v, seen) =>
      if q > 1 then s
      else if s.head[q] != seen then s.Goto(t, PutNode(q, x, v))
      else s.SetHead(q, x, [x] + s.list[q]).Goto(t, Idle)
  }

  // A pop's compare-and-swap succeeds: the head becomes next.
  function TakeWin(s: State, t: nat, q: nat, o: Op, node: Ptr, next: Ptr): (r: State)
    requires s.Shape() && t < |s.pc| && q <= 1
    ensures r.Shape() && |r.pc| == |s.pc|
  {
    var popped := s.SetHead(q, next, if s.list[q] == [] then [] else s.list[q][1..]);
    if o.Push? then popped.Goto(t, StoreValue(node, o))
    else popped.(won := s.won[t := if s.IsNode(node) then s.heap[node].value else 0]).Goto(t, LoadValue(node))
  }

  function Run(s: State, schedule: seq<(nat, Op)>): (r: State)
    requires s.Shape()
    ensures r.Shape() && |r.pc| == |s.pc|
    decreases |schedule|
  {
    if schedule == [] then s
    else Run(if schedule[0].0 < |s.pc| then Step(s, schedule[0].0, schedule[0].1) else s, schedule[1..])
  }

  function Initial(threads: nat): (s: State)
    ensures s.Shape() && |s.pc| == threads
  {
    State([], [Head(NULL, 0), Head(NULL, 0)], seq(threads, _ => Idle), [[], []], seq(threads, _ => 0))
  }

  // ---- Invariant ----

  // The node thread p holds outside both stacks.
  function Owned(p: PC): Ptr {
    match p
    case StoreValue(x, _) => x
    case LoadValue(x) => x
    case PutNode(_, x, _) => x
    case PutCounter(_, x, _, _) => x
    case PutNext(_, x, _, _) => x
    case LoadLength(_, x, _, _) => x
    case PutLength(_, x, _, _, _) => x
    case PutCas(_, x, _, _) => x
    case _ => NULL
  }

  // nodes are linked from head to NULL, and each node's length counts the nodes from it down.
  ghost predicate Linked(heap: seq<Node>, head: Ptr, nodes: seq<Ptr>) {
    && head == (if nodes == [] then NULL else nodes[0])
    && InHeap(heap, nodes)
    && forall i: nat :: i < |nodes| ==> LinkedAt(heap, nodes, i)
  }

  predicate InHeap(heap: seq<Node>, nodes: seq<Ptr>) {
    forall i :: 0 <= i < |nodes| ==> 0 <= nodes[i] < |heap|
  }

  predicate LinkedAt(heap: seq<Node>, nodes: seq<Ptr>, i: nat)
    requires i < |nodes|
  {
    && 0 <= nodes[i] < |heap|
    && heap[nodes[i]].next == (if i + 1 < |nodes| then nodes[i + 1] else NULL)
    && heap[nodes[i]].length == |nodes| - i
  }

  // A head word a thread has read: its counter is not from the future.
  predicate Seen(s: State, q: nat, seen: Head)
    requires s.Shape()
  {
    q <= 1 && seen.counter <= s.head[q].counter && NULL <= seen.node < |s.heap|
  }

  ghost predicate ThreadInv(s: State, t: nat)
    requires s.Shape() && t < |s.pc|
  {
    var p := s.pc[t];
    && (Owned(p) != NULL ==> s.IsNode(Owned(p)) && Owned(p) !in s.list[LIVE] && Owned(p) !in s.list[SPARE])
    && match p
       case Idle => true
       case TakeNode(q, o) => q == (if o.Push? then SPARE else LIVE)
       case TakeCounter(q, o, node) => q == (if o.Push? then SPARE else LIVE) && NULL <= node < |s.heap|
       case TakeNext(q, o, seen) =>
         q == (if o.Push? then SPARE else LIVE) && Seen(s, q, seen) && seen.node != NULL
       case TakeCas(q, o, seen, next) =>
         && q == (if o.Push? then SPARE else LIVE) && Seen(s, q, seen) && seen.node != NULL
         && (seen == s.head[q] ==> next == s.heap[seen.node].next)
       case Malloc(o) => o.Push?
       case StoreValue(x, o) => o.Push? && x != NULL
       case LoadValue(x) => x != NULL && s.heap[x].value == s.won[t]
       case PutNode(q, x, v) => x != NULL && Carries(s, t, q, x, v)
       case PutCounter(q, x, v, node) => x != NULL && Carries(s, t, q, x, v) && NULL <= node < |s.heap|
       case PutNext(q, x, v, seen) => x != NULL && Carries(s, t, q, x, v) && Seen(s, q, seen)
       case LoadLength(q, x, v, seen) =>
         x != NULL && Carries(s, t, q, x, v) && Seen(s, q, seen) && s.heap[x].next == seen.node
       case PutLength(q, x, v, seen, len) =>
         && x != NULL && Carries(s, t, q, x, v) && Seen(s, q, seen) && s.heap[x].next == seen.node
         && (seen == s.head[q] ==> len == |s.list[q]|)
       case PutCas(q, x, v, seen) =>
         && x != NULL && Carries(s, t, q, x, v) && Seen(s, q, seen) && s.heap[x].next == seen.node
         && (seen == s.head[q] ==> s.heap[x].length == |s.list[q]| + 1)
  }

  // A pushing thread carries its value in its node; a popping thread hands back the value it won.
  predicate Carries(s: State, t: nat, q: nat, x: Ptr, v: Value)
    requires s.Shape() && t < |s.pc|
  {
    s.IsNode(x) && q <= 1 && (if q == LIVE then s.heap[x].value == v else v == s.won[t])
  }

  // No two threads hold the same node.
  predicate Distinct(p: PC, q: PC) { Owned(p) != NULL ==> Owned(p) != Owned(q) }

  ghost predicate Inv(s: State) {
    && s.Shape()
    && Linked(s.heap, s.head[LIVE].node, s.list[LIVE])
    && Linked(s.heap, s.head[SPARE].node, s.list[SPARE])
    && (forall p :: p in s.list[LIVE] ==> p !in s.list[SPARE])
    && (forall t: nat :: t < |s.pc| ==> ThreadInv(s, t))
    && (forall t: nat, u: nat {:trigger Distinct(s.pc[t], s.pc[u])} ::
          t < |s.pc| && u < |s.pc| && t != u ==> Distinct(s.pc[t], s.pc[u]))
  }

  // ---- Linked lists ----

  lemma LinkedFrame(heap: seq<Node>, heap': seq<Node>, head: Ptr, nodes: seq<Ptr>, x: Ptr)
    requires Linked(heap, head, nodes) && |heap| <= |heap'| && x !in nodes
    requires forall p :: 0 <= p < |heap| && p != x ==> heap'[p] == heap[p]
    ensures Linked(heap', head, nodes)
  {
    forall i: nat | i < |nodes| ensures LinkedAt(heap', nodes, i) {
      assert LinkedAt(heap, nodes, i) && nodes[i] in nodes;
    }
  }

  // The top node exists, and the rest of the list starts at its next pointer.
  lemma LinkedTail(heap: seq<Node>, head: Ptr, nodes: seq<Ptr>)
    requires Linked(heap, head, nodes) && head != NULL
    ensures nodes != [] && 0 <= head < |heap| && heap[head].length == |nodes|
    ensures Linked(heap, heap[head].next, nodes[1..]) && head !in nodes[1..]
  {
    var tail := nodes[1..];
    assert LinkedAt(heap, nodes, 0);
    forall i: nat | i < |tail| ensures LinkedAt(heap, tail, i) && tail[i] != head {
      assert LinkedAt(heap, nodes, i + 1);
    }
  }

  lemma LinkedCons(heap: seq<Node>, head: Ptr, nodes: seq<Ptr>, x: Ptr)
    requires Linked(heap, head, nodes) && 0 <= x < |heap|
    requires heap[x].next == head && heap[x].length == |nodes| + 1
    ensures Linked(heap, x, [x] + nodes)
  {
    forall i: nat | i < |nodes| + 1 ensures LinkedAt(heap, [x] + nodes, i) {
      if i > 0 { assert LinkedAt(heap, nodes, i - 1); }
    }
  }

  // The head node's length field is the size of its stack.
  lemma HeadLength(s: State, q: nat)
    requires Inv(s) && q <= 1
    ensures if s.head[q].node == NULL then s.list[q] == []
            else s.IsNode(s.head[q].node) && s.list[q] != [] && s.heap[s.head[q].node].length == |s.list[q]|
  {
    assert q == LIVE || q == SPARE;
    if s.list[q] != [] { assert LinkedAt(s.heap, s.list[q], 0); }
  }

  // ---- Steps that leave memory alone ----

  lemma GotoKeeps(s: State, t: nat, p: PC)
    requires Inv(s) && t < |s.pc| && Owned(p) == Owned(s.pc[t]) && ThreadInv(s.Goto(t, p), t)
    ensures Inv(s.Goto(t, p))
  {
    var s' := s.Goto(t, p);
    forall u: nat | u < |s.pc| ensures ThreadInv(s', u) {
      assert ThreadInv(s, u);
    }
    forall u: nat, w: nat | u < |s.pc| && w < |s.pc| && u != w ensures Distinct(s'.pc[u], s'.pc[w]) {
      assert Distinct(s.pc[u], s.pc[w]);
    }
  }

  lemma TakeLooks(s: State, t: nat, op: Op)
    requires Inv(s) && t < |s.pc|
    requires s.pc[t].Idle? || s.pc[t].TakeNode? || s.pc[t].TakeCounter? || s.pc[t].TakeNext?
             || (s.pc[t].TakeCas? && s.pc[t].q <= 1 && s.pc[t].seen != s.head[s.pc[t].q])
    ensures Inv(Step(s, t, op)) && Step(s, t, op) == s.Goto(t, Step(s, t, op).pc[t])
  {
    var s' := Step(s, t, op);
    assert ThreadInv(s, t);
    HeadLength(s, LIVE);
    HeadLength(s, SPARE);
    GotoKeeps(s, t, s'.pc[t]);
  }

  lemma PutLooks(s: State, t: nat, op: Op)
    requires Inv(s) && t < |s.pc|
    requires s.pc[t].PutNode? || s.pc[t].PutCounter? || s.pc[t].LoadLength? || s.pc[t].LoadValue?
             || (s.pc[t].PutCas? && s.pc[t].q <= 1 && s.pc[t].seen != s.head[s.pc[t].q])
    ensures Inv(Step(s, t, op)) && Step(s, t, op) == s.Goto(t, Step(s, t, op).pc[t])
  {
    var s' := Step(s, t, op);
    assert ThreadInv(s, t);
    HeadLength(s, LIVE);
    HeadLength(s, SPARE);
    GotoKeeps(s, t, s'.pc[t]);
  }

  // ---- Steps that write a node its thread holds ----

  lemma WriteKeeps(s: State, t: nat, n: Node, p: PC)
    requires Inv(s) && t < |s.pc| && Owned(p) == Owned(s.pc[t]) != NULL
    requires ThreadInv(s, t) && ThreadInv(s.Write(Owned(p), n).Goto(t, p), t)
    ensures Inv(s.Write(Owned(p), n).Goto(t, p))
  {
    var x := Owned(p);
    var s' := s.Write(x, n).Goto(t, p);
    LinkedFrame(s.heap, s'.heap, s.head[LIVE].node, s.list[LIVE], x);
    LinkedFrame(s.heap, s'.heap, s.head[SPARE].node, s.list[SPARE], x);
    forall u: nat | u < |s.pc| ensures ThreadInv(s', u) {
      if u != t {
        assert ThreadInv(s, u) && Distinct(s.pc[t], s.pc[u]);
      }
    }
    forall u: nat, w: nat | u < |s.pc| && w < |s.pc| && u != w ensures Distinct(s'.pc[u], s'.pc[w]) {
      assert Distinct(s.pc[u], s.pc[w]);
    }
  }

  lemma WriteSteps(s: State, t: nat, op: Op)
    requires Inv(s) && t < |s.pc|
    requires s.pc[t].StoreValue? || s.pc[t].PutNext? || s.pc[t].PutLength?
    ensures Inv(Step(s, t, op)) && Step(s, t, op).list == s.list
  {
    var s' := Step(s, t, op);
    assert ThreadInv(s, t);
    var x := Owned(s.pc[t]);
    WriteKeeps(s, t, s'.heap[x], s'.pc[t]);
  }

  lemma MallocKeeps(s: State, t: nat, op: Op)
    requires Inv(s) && t < |s.pc| && s.pc[t].Malloc?
    ensures Inv(Step(s, t, op)) && Step(s, t, op).list == s.list
  {
    var s' := Step(s, t, op);
    var x := |s.heap|;
    assert ThreadInv(s, t);
    NotYetUsed(s);
    LinkedFrame(s.heap, s'.heap, s.head[LIVE].node, s.list[LIVE], x);
    LinkedFrame(s.heap, s'.heap, s.head[SPARE].node, s.list[SPARE], x);
    forall u: nat | u < |s.pc| ensures ThreadInv(s', u) {
      assert ThreadInv(s, u);
    }
    forall u: nat, w: nat | u < |s.pc| && w < |s.pc| && u != w ensures Distinct(s'.pc[u], s'.pc[w]) {
      assert Distinct(s.pc[u], s.pc[w]);
      assert ThreadInv(s, u) && ThreadInv(s, w);
    }
  }

  // A fresh node is in neither stack.
  lemma NotYetUsed(s: State)
    requires Inv(s)
    ensures |s.heap| !in s.list[LIVE] && |s.heap| !in s.list[SPARE]
  {
  }

  // ---- Successful compare-and-swap ----

  // The counter moved on, so no other thread's reading of the head is current any more.
  lemma HeadOther(s: State, t: nat, q: nat, node: Ptr, nodes: seq<Ptr>, won: seq<Value>, p: PC, u: nat)
    requires Inv(s) && t < |s.pc| && u < |s.pc| && u != t && q <= 1
    requires |won| == |s.won| && won[u] == s.won[u]
    requires Owned(s.pc[u]) in nodes ==> Owned(s.pc[u]) in s.list[q]
    ensures ThreadInv(s.SetHead(q, node, nodes).(won := won).Goto(t, p), u)
  {
    assert ThreadInv(s, u);
    assert q == LIVE || q == SPARE;
  }

  // The thread whose pop succeeds takes the top node, its next pointer was current, and the node
  // belongs to no stack and no other thread.
  lemma TakeWinKeeps(s: State, t: nat, op: Op)
    requires Inv(s) && t < |s.pc| && s.pc[t].TakeCas? && s.pc[t].q <= 1 && s.head[s.pc[t].q] == s.pc[t].seen
    ensures Inv(Step(s, t, op))
    ensures var q := s.pc[t].q;
            && s.list[q] != [] && s.IsNode(s.list[q][0]) && Step(s, t, op).list == s.list[q := s.list[q][1..]]
            && (q == LIVE ==> Step(s, t, op).won[t] == s.heap[s.list[q][0]].value)
  {
    var s' := Step(s, t, op);
    var q := s.pc[t].q;
    assert ThreadInv(s, t);
    LinkedTail(s.heap, s.head[q].node, s.list[q]);
    var x := s.list[q][0];
    assert x in s.list[q] && s.list[q] == [x] + s.list[q][1..];
    assert q == LIVE || q == SPARE;
    assert s' == s.SetHead(q, s.pc[t].next, s.list[q][1..]).(won := s'.won).Goto(t, s'.pc[t]);
    forall u: nat | u < |s.pc| && u != t ensures ThreadInv(s', u) && Owned(s.pc[u]) != x {
      assert ThreadInv(s, u);
      HeadOther(s, t, q, s.pc[t].next, s.list[q][1..], s'.won, s'.pc[t], u);
    }
    assert ThreadInv(s', t);
    forall u: nat, w: nat | u < |s.pc| && w < |s.pc| && u != w ensures Distinct(s'.pc[u], s'.pc[w]) {
      assert Distinct(s.pc[u], s.pc[w]);
    }
  }

  lemma PutWinKeeps(s: State, t: nat, op: Op)
    requires Inv(s) && t < |s.pc| && s.pc[t].PutCas? && s.pc[t].q <= 1 && s.head[s.pc[t].q] == s.pc[t].seen
    ensures Inv(Step(s, t, op))
    ensures Step(s, t, op).list == s.list[s.pc[t].q := [s.pc[t].x] + s.list[s.pc[t].q]]
  {
    var s' := Step(s, t, op);
    var q, x := s.pc[t].q, s.pc[t].x;
    assert ThreadInv(s, t);
    LinkedCons(s.heap, s.head[q].node, s.list[q], x);
    assert q == LIVE || q == SPARE;
    assert s' == s.SetHead(q, x, [x] + s.list[q]).(won := s.won).Goto(t, Idle);
    forall u: nat | u < |s.pc| ensures ThreadInv(s', u) {
      if u != t {
        assert Distinct(s.pc[t], s.pc[u]);
        HeadOther(s, t, q, x, [x] + s.list[q], s.won, Idle, u);
      }
    }
    forall u: nat, w: nat | u < |s.pc| && w < |s.pc| && u != w ensures Distinct(s'.pc[u], s'.pc[w]) {
      assert Distinct(s.pc[u], s.pc[w]);
    }
  }

  // ---- Linearizability ----

  // The values of a list of nodes.
  ghost function Values(heap: seq<Node>, nodes: seq<Ptr>): seq<Value>
    requires InHeap(heap, nodes)
  {
    if nodes == [] then [] else [heap[nodes[0]].value] + Values(heap, nodes[1..])
  }

  lemma {:induction false} ValuesFrame(heap: seq<Node>, heap': seq<Node>, nodes: seq<Ptr>)
    requires |heap| <= |heap'|
    requires InHeap(heap, nodes) && forall i :: 0 <= i < |nodes| ==> heap'[nodes[i]].value == heap[nodes[i]].value
    ensures Values(heap', nodes) == Values(heap, nodes)
  {
    if nodes != [] { ValuesFrame(heap, heap', nodes[1..]); }
  }

  // The values on the stack, from the top.
  ghost function Contents(s: State): seq<Value>
    requires Inv(s)
  {
    Values(s.heap, s.list[LIVE])
  }

  // Thread t's next access is a compare-and-swap that will succeed.
  predicate Wins(s: State, t: nat)
    requires s.Shape() && t < |s.pc|
  {
    (s.pc[t].TakeCas? || s.pc[t].PutCas?) && s.pc[t].q <= 1 && s.pc[t].seen == s.head[s.pc[t].q]
  }

  // What each access does to the abstract stack: a successful push puts the value of its caller on
  // top, a successful pop removes the top value and the popping thread goes on to return exactly
  // that value, a pop that reads a null head sees the empty stack, and nothing else changes it.
  ghost predicate Linear(s: State, t: nat, s': State)
    requires Inv(s) && Inv(s') && t < |s.pc| == |s'.pc|
  {
    var p := s.pc[t];
    if p.PutCas? && p.q == LIVE && Wins(s, t) then Contents(s') == [p.v] + Contents(s)
    else if p.TakeCas? && p.q == LIVE && Wins(s, t) then
      Contents(s) != [] && Contents(s') == Contents(s)[1..] && s'.won[t] == Contents(s)[0]
    else
      && Contents(s') == Contents(s) && s'.won == s.won
      && (p.LoadValue? ==> s'.pc[t].PutNode? && s'.pc[t].v == s.won[t])
      && (p.TakeNode? && p.q == LIVE && s.head[LIVE].node == NULL ==> Contents(s) == [])
  }

  lemma StepKeeps(s: State, t: nat, op: Op)
    requires Inv(s) && t < |s.pc|
    ensures Inv(Step(s, t, op)) && Linear(s, t, Step(s, t, op))
  {
    var s' := Step(s, t, op);
    var p := s.pc[t];
    assert ThreadInv(s, t);
    if Wins(s, t) {
      if p.TakeCas? { TakeWinKeeps(s, t, op); } else { PutWinKeeps(s, t, op); }
    } else if p.StoreValue? || p.PutNext? || p.PutLength? {
      WriteSteps(s, t, op);
      forall i | 0 <= i < |s.list[LIVE]| ensures s.list[LIVE][i] != Owned(p) {
        assert s.list[LIVE][i] in s.list[LIVE];
      }
      ValuesFrame(s.heap, s'.heap, s.list[LIVE]);
    } else if p.Malloc? {
      MallocKeeps(s, t, op);
      ValuesFrame(s.heap, s'.heap, s.list[LIVE]);
    } else if p.TakeNode? {
      TakeLooks(s, t, op);
      HeadLength(s, LIVE);
    } else if p.Idle? || p.TakeCounter? || p.TakeNext? || p.TakeCas? {
      TakeLooks(s, t, op);
    } else {
      PutLooks(s, t, op);
    }
  }

  lemma InitialInv(threads: nat)
    ensures Inv(Initial(threads))
  {
    var s := Initial(threads);
    assert s.list[LIVE] == [] && s.list[SPARE] == [] && s.head[LIVE].node == NULL && s.head[SPARE].node == NULL;
    forall t: nat | t < threads ensures ThreadInv(s, t) {
      assert s.pc[t] == Idle;
    }
  }

  lemma {:induction false} RunKeeps(s: State, schedule: seq<(nat, Op)>)
    requires Inv(s)
    ensures Inv(Run(s, schedule))
    decreases |schedule|
  {
    if schedule != [] {
      if schedule[0].0 < |s.pc| { StepKeeps(s, schedule[0].0, schedule[0].1); }
      RunKeeps(if schedule[0].0 < |s.pc| then Step(s, schedule[0].0, schedule[0].1) else s, schedule[1..]);
    }
  }

  predicate NextCurrent(s: State, node: Ptr, next: Ptr) {
    s.IsNode(node) && s.heap[node].next == next
  }

  // In every run with node recycling: the stack of values changes only as Linear says, the length
  // field of the head node is the number of values on the stack, and every successful
  // compare-and-swap of a pop installs the node that is currently below the top.
  lemma RunLinearizable(threads: nat, schedule: seq<(nat, Op)>, t: nat, op: Op)
    requires t < threads
    ensures var s := Run(Initial(threads), schedule);
            && Inv(s) && Inv(Step(s, t, op)) && Linear(s, t, Step(s, t, op))
            && (if s.head[LIVE].node == NULL then Contents(s) == []
                else s.IsNode(s.head[LIVE].node) && s.heap[s.head[LIVE].node].length == |Contents(s)|)
            && (s.pc[t].TakeCas? && Wins(s, t) ==> NextCurrent(s, s.pc[t].seen.node, s.pc[t].next))
  {
    InitialInv(threads);
    RunKeeps(Initial(threads), schedule);
    var s := Run(Initial(threads), schedule);
    StepKeeps(s, t, op);
    HeadLength(s, LIVE);
    ValuesLength(s.heap, s.list[LIVE]);
    assert ThreadInv(s, t);
  }

  lemma ValuesLength(heap: seq<Node>, nodes: seq<Ptr>)
    requires InHeap(heap, nodes)
    ensures |Values(heap, nodes)| == |nodes|
  {
  }
}
