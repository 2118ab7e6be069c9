// What the callers of the concurrent stack are told
// (comparison_systems/aspen/code/pbbslib/concurrent_stack.h:77-124): every call has exactly the effect on
// the stack that its answer says, at one moment between its start and its end.
module StackAnswers {
  import opened TaggedStack

  type Schedule = seq<(nat, Op)>

  // What pop and push return at their last access: pop may find the stack empty (line 120).
  datatype Answer = Running | Empty | Got(v: Value) | Done

  function AnswerOf(s: State, t: nat): Answer
    requires s.Shape() && t < |s.pc|
  {
    match s.pc[t]
    case TakeCounter(q, o, node) => if q <= 1 && node == NULL && o.Pop? then Empty else Running
    case PutCas(q, x, v, seen) =>
      if q > 1 || s.head[q] != seen then Running else if q == LIVE then Done else Got(v)
    case _ => Running
  }

  function Front(schedule: Schedule): Schedule
    requires schedule != []
  {
    schedule[..|schedule| - 1]
  }

  function Last(schedule: Schedule): (nat, Op)
    requires schedule != []
  {
    schedule[|schedule| - 1]
  }

  function Turn(s: State, e: (nat, Op)): (r: State)
    requires s.Shape()
    ensures r.Shape() && |r.pc| == |s.pc|
  {
    if e.0 < |s.pc| then Step(s, e.0, e.1) else s
  }

  lemma {:induction false} RunLast(s: State, schedule: Schedule)
    requires s.Shape() && schedule != []
    ensures Run(s, schedule) == Turn(Run(s, Front(schedule)), Last(schedule))
    decreases |schedule|
  {
    if |schedule| > 1 {
      RunLast(Turn(s, schedule[0]), schedule[1..]);
      assert Front(schedule)[1..] == Front(schedule[1..]);
    } else {
      assert Front(schedule) == [] && schedule[1..] == [];
    }
  }

  // ---- The history of a call, read off the schedule and the contents of the stack ----

  datatype Effect = Pushed(v: Value) | Popped(v: Value)

  datatype Call = Call(op: Op, effects: seq<Effect>, wasEmpty: bool)

  ghost function Stack(s: State): seq<Value> { if Inv(s) then Contents(s) else [] }

  ghost function Change(was: seq<Value>, now: seq<Value>): seq<Effect> {
    if |now| > |was| then [Pushed(now[0])] else if |now| < |was| then [Popped(was[0])] else []
  }

  // The present call of thread t: what it was asked for, how its own accesses have changed the stack so
  // far, and whether the stack has been empty at some moment since it began.
  ghost function CallOf(s: State, schedule: Schedule, t: nat): Call
    requires s.Shape() && t < |s.pc|
    decreases |schedule|
  {
    if schedule == [] then Call(Pop, [], false)
    else
      var b, r, x, op := Run(s, Front(schedule)), Run(s, schedule), Last(schedule).0, Last(schedule).1;
      NextCall(CallOf(s, Front(schedule), t), b, r, x == t, op, t)
  }

  ghost function NextCall(call: Call, b: State, r: State, mine: bool, op: Op, t: nat): Call
    requires b.Shape() && t < |b.pc|
  {
    if mine && b.pc[t].Idle? then Call(op, [], Stack(r) == [])
    else Call(call.op,
              if mine then call.effects + Change(Stack(b), Stack(r)) else call.effects,
              call.wasEmpty || Stack(r) == [])
  }

  // Where a thread stands in its call.
  ghost predicate CallInv(s: State, t: nat, call: Call)
    requires s.Shape() && t < |s.pc|
  {
    (!s.pc[t].Idle? && Stack(s) == [] ==> call.wasEmpty) &&
    match s.pc[t]
    case Idle => true
    case TakeNode(q, o) => o == call.op && call.effects == []
    case TakeCounter(q, o, node) =>
      o == call.op && call.effects == [] && (q == LIVE && node == NULL ==> call.wasEmpty)
    case TakeNext(q, o, _) => o == call.op && call.effects == []
    case TakeCas(q, o, _, _) => o == call.op && call.effects == []
    case Malloc(o) => o == call.op && call.effects == []
    case StoreValue(_, o) => o == call.op && call.effects == []
    case LoadValue(_) => call.op == Pop && call.effects == [Popped(s.won[t])]
    case PutNode(q, _, v) => Putting(q, v, call)
    case PutCounter(q, _, v, _) => Putting(q, v, call)
    case PutNext(q, _, v, _) => Putting(q, v, call)
    case LoadLength(q, _, v, _) => Putting(q, v, call)
    case PutLength(q, _, v, _, _) => Putting(q, v, call)
    case PutCas(q, _, v, _) => Putting(q, v, call)
  }

  predicate Putting(q: nat, v: Value, call: Call) {
    if q == LIVE then call.op == Push(v) && call.effects == [] else call.op == Pop && call.effects == [Popped(v)]
  }

  // The answer is the truth about the call.
  predicate Truthful(call: Call, answer: Answer) {
    match answer
    case Running => true
    case Empty => call.op == Pop && call.effects == [] && call.wasEmpty
    case Got(v) => call.op == Pop && call.effects == [Popped(v)]
    case Done => call.op.Push? && call.effects == [Pushed(call.op.v)]
  }

  // ---- One step ----

  lemma StackIs(s: State)
    requires Inv(s)
    ensures Stack(s) == Contents(s) && (s.head[LIVE].node == NULL <==> Stack(s) == [])
  {
    HeadLength(s, LIVE);
    ValuesLength(s.heap, s.list[LIVE]);
  }

  // How an access changes the stack.
  lemma StackStep(s: State, t: nat, op: Op)
    requires Inv(s) && t < |s.pc|
    ensures Inv(Step(s, t, op))
    ensures var s', p := Step(s, t, op), s.pc[t];
            Change(Stack(s), Stack(s')) ==
            (if p.PutCas? && p.q == LIVE && Wins(s, t) then [Pushed(p.v)]
             else if p.TakeCas? && p.q == LIVE && Wins(s, t) then [Popped(s'.won[t])] else [])
  {
    StepKeeps(s, t, op);
    StackIs(s);
    StackIs(Step(s, t, op));
    hide Inv, Contents, Step;
  }

  lemma Places(s: State, t: nat, op: Op)
    requires Inv(s) && t < |s.pc|
    ensures Step(s, t, op).pc == s.pc[t := Step(s, t, op).pc[t]]
    ensures Step(s, t, op).won == s.won[t := Step(s, t, op).won[t]]
    ensures !(s.pc[t].TakeCas? && Wins(s, t)) ==> Step(s, t, op).won == s.won
  {
    hide Linked;
    assert ThreadInv(s, t);
  }

  lemma OtherCall(s: State, x: nat, op: Op, t: nat, call: Call)
    requires Inv(s) && x < |s.pc| && t < |s.pc| && x != t && CallInv(s, t, call)
    ensures CallInv(Step(s, x, op), t, NextCall(call, s, Step(s, x, op), false, op, t))
  {
    Places(s, x, op);
    hide Inv, Step, Stack;
  }

  // What one access does to the place of its thread.
  lemma TakePlace(s: State, t: nat, op: Op, call: Call)
    requires Inv(s) && t < |s.pc| && CallInv(s, t, call)
    requires s.pc[t].TakeNode? || s.pc[t].TakeCounter? || s.pc[t].TakeNext? || s.pc[t].TakeCas?
    ensures Inv(Step(s, t, op))
    ensures CallInv(Step(s, t, op), t, NextCall(call, s, Step(s, t, op), true, op, t))
    ensures AnswerOf(s, t).Running? <==> !Step(s, t, op).pc[t].Idle?
    ensures Truthful(NextCall(call, s, Step(s, t, op), true, op, t), AnswerOf(s, t))
  {
    assert ThreadInv(s, t);
    StackIs(s);
    StackStep(s, t, op);
    hide Inv, Stack, Change;
  }

  predicate Puts(p: PC) {
    p.PutNode? || p.PutCounter? || p.PutNext? || p.LoadLength? || p.PutLength? || p.PutCas?
  }

  lemma HoldsNode(s: State, t: nat)
    requires Inv(s) && t < |s.pc|
    ensures Owned(s.pc[t]) != NULL ==> s.IsNode(Owned(s.pc[t]))
    ensures Puts(s.pc[t]) ==> Owned(s.pc[t]) != NULL && s.pc[t].q <= 1
    ensures s.pc[t].Malloc? ==> s.pc[t].op.Push?
    ensures s.pc[t].StoreValue? ==> s.pc[t].op.Push? && Owned(s.pc[t]) != NULL
    ensures s.pc[t].LoadValue? ==> s.IsNode(s.pc[t].x) && s.heap[s.pc[t].x].value == s.won[t]
  {
    hide Linked;
    assert ThreadInv(s, t);
  }

  lemma MallocPlace(s: State, t: nat, op: Op, call: Call)
    requires Inv(s) && t < |s.pc| && CallInv(s, t, call)
    requires s.pc[t].Malloc?
    ensures Inv(Step(s, t, op))
    ensures CallInv(Step(s, t, op), t, NextCall(call, s, Step(s, t, op), true, op, t))
    ensures AnswerOf(s, t).Running? <==> !Step(s, t, op).pc[t].Idle?
    ensures Truthful(NextCall(call, s, Step(s, t, op), true, op, t), AnswerOf(s, t))
  {
    hide Inv, Stack, Change, ThreadInv, Contents;
    HoldsNode(s, t);
    StackStep(s, t, op);
  }

  lemma StorePlace(s: State, t: nat, op: Op, call: Call)
    requires Inv(s) && t < |s.pc| && CallInv(s, t, call)
    requires s.pc[t].StoreValue?
    ensures Inv(Step(s, t, op))
    ensures CallInv(Step(s, t, op), t, NextCall(call, s, Step(s, t, op), true, op, t))
    ensures AnswerOf(s, t).Running? <==> !Step(s, t, op).pc[t].Idle?
    ensures Truthful(NextCall(call, s, Step(s, t, op), true, op, t), AnswerOf(s, t))
  {
    hide Inv, Stack, Change, ThreadInv, Contents;
    HoldsNode(s, t);
    StackStep(s, t, op);
  }

  lemma LoadPlace(s: State, t: nat, op: Op, call: Call)
    requires Inv(s) && t < |s.pc| && CallInv(s, t, call)
    requires s.pc[t].LoadValue?
    ensures Inv(Step(s, t, op))
    ensures CallInv(Step(s, t, op), t, NextCall(call, s, Step(s, t, op), true, op, t))
    ensures AnswerOf(s, t).Running? <==> !Step(s, t, op).pc[t].Idle?
    ensures Truthful(NextCall(call, s, Step(s, t, op), true, op, t), AnswerOf(s, t))
  {
    hide Inv, Stack, Change, ThreadInv, Contents;
    HoldsNode(s, t);
    StackStep(s, t, op);
  }

  lemma PutPlace(s: State, t: nat, op: Op, call: Call)
    requires Inv(s) && t < |s.pc| && CallInv(s, t, call)
    requires Puts(s.pc[t]) && !s.pc[t].PutCas?
    ensures Inv(Step(s, t, op))
    ensures CallInv(Step(s, t, op), t, NextCall(call, s, Step(s, t, op), true, op, t))
    ensures AnswerOf(s, t).Running? <==> !Step(s, t, op).pc[t].Idle?
    ensures Truthful(NextCall(call, s, Step(s, t, op), true, op, t), AnswerOf(s, t))
  {
    hide Inv, Stack, Change, ThreadInv, Contents;
    HoldsNode(s, t);
    StackStep(s, t, op);
  }

  lemma PutCasPlace(s: State, t: nat, op: Op, call: Call)
    requires Inv(s) && t < |s.pc| && CallInv(s, t, call)
    requires s.pc[t].PutCas?
    ensures Inv(Step(s, t, op))
    ensures CallInv(Step(s, t, op), t, NextCall(call, s, Step(s, t, op), true, op, t))
    ensures AnswerOf(s, t).Running? <==> !Step(s, t, op).pc[t].Idle?
    ensures Truthful(NextCall(call, s, Step(s, t, op), true, op, t), AnswerOf(s, t))
  {
    hide Inv, Stack, Change, ThreadInv, Contents;
    HoldsNode(s, t);
    StackStep(s, t, op);
  }

  lemma IdlePlace(s: State, t: nat, op: Op, call: Call)
    requires Inv(s) && t < |s.pc| && s.pc[t].Idle?
    ensures Inv(Step(s, t, op)) && AnswerOf(s, t).Running? && !Step(s, t, op).pc[t].Idle?
    ensures CallInv(Step(s, t, op), t, NextCall(call, s, Step(s, t, op), true, op, t))
  {
    StepKeeps(s, t, op);
    hide Inv, Stack, Change;
  }

  // An access answers exactly when it ends the call, and then with the truth.
  lemma OwnCall(s: State, t: nat, op: Op, call: Call)
    requires Inv(s) && t < |s.pc| && CallInv(s, t, call)
    ensures Inv(Step(s, t, op))
    ensures CallInv(Step(s, t, op), t, NextCall(call, s, Step(s, t, op), true, op, t))
    ensures AnswerOf(s, t).Running? <==> !Step(s, t, op).pc[t].Idle?
    ensures Truthful(NextCall(call, s, Step(s, t, op), true, op, t), AnswerOf(s, t))
  {
    hide Inv, Step, CallInv, NextCall, Stack, AnswerOf;
    var p := s.pc[t];
    if p.Idle? {
      IdlePlace(s, t, op, call);
    } else if p.TakeNode? || p.TakeCounter? || p.TakeNext? || p.TakeCas? {
      TakePlace(s, t, op, call);
    } else if p.PutCas? {
      PutCasPlace(s, t, op, call);
    } else if p.Malloc? {
      MallocPlace(s, t, op, call);
    } else if p.StoreValue? {
      StorePlace(s, t, op, call);
    } else if p.LoadValue? {
      LoadPlace(s, t, op, call);
    } else {
      PutPlace(s, t, op, call);
    }
  }

  lemma {:induction false} RunCalls(s: State, schedule: Schedule, t: nat)
    requires Inv(s) && t < |s.pc| && s.pc[t].Idle?
    ensures Inv(Run(s, schedule)) && CallInv(Run(s, schedule), t, CallOf(s, schedule, t))
    decreases |schedule|
  {
    if schedule != [] {
      RunCalls(s, Front(schedule), t);
      RunLast(s, schedule);
      var b, x, op := Run(s, Front(schedule)), Last(schedule).0, Last(schedule).1;
      var call := CallOf(s, Front(schedule), t);
      hide Inv, CallInv, NextCall, Stack;
      if x >= |b.pc| { SameCall(b, t, op, call); }
      else if x == t { OwnCall(b, t, op, call); }
      else { StepKeeps(b, x, op); OtherCall(b, x, op, t, call); }
    }
  }

  lemma SameCall(s: State, t: nat, op: Op, call: Call)
    requires s.Shape() && t < |s.pc| && CallInv(s, t, call)
    ensures CallInv(s, t, NextCall(call, s, s, false, op, t))
  {
    hide Stack;
  }

  // Linearizability: in every run, an access that ends a call answers with the truth about the whole call.
  // A push has put its own value on top, once; a pop that returns a value has taken just that value off the
  // top, once; a pop that answers empty has changed nothing, and the stack was empty at some moment
  // between the call's beginning and its end.
  lemma AnswersAreTrue(threads: nat, schedule: Schedule, t: nat, op: Op)
    requires t < threads
    ensures var s0, s := Initial(threads), Run(Initial(threads), schedule);
            && (AnswerOf(s, t).Running? <==> !Step(s, t, op).pc[t].Idle?)
            && (!s.pc[t].Idle? ==> Truthful(CallOf(s0, schedule + [(t, op)], t), AnswerOf(s, t)))
  {
    InitialInv(threads);
    RunCalls(Initial(threads), schedule, t);
    var s := Run(Initial(threads), schedule);
    OwnCall(s, t, op, CallOf(Initial(threads), schedule, t));
    assert Front(schedule + [(t, op)]) == schedule && Last(schedule + [(t, op)]) == (t, op);
    RunLast(Initial(threads), schedule + [(t, op)]);
    hide Inv, NextCall, Truthful, AnswerOf;
  }

  // ---- A call alone ends ----

  // The thread's reading of the head is out of date.
  predicate Stale(s: State, t: nat)
    requires s.Shape() && t < |s.pc|
  {
    match s.pc[t]
    case TakeCounter(q, _, node) => q <= 1 && s.head[q].node != node
    case TakeNext(q, _, seen) => q <= 1 && s.head[q] != seen
    case TakeCas(q, _, seen, _) => q <= 1 && s.head[q] != seen
    case PutCounter(q, _, _, node) => q <= 1 && s.head[q].node != node
    case PutNext(q, _, _, seen) => q <= 1 && s.head[q] != seen
    case LoadLength(q, _, _, seen) => q <= 1 && s.head[q] != seen
    case PutLength(q, _, _, seen, _) => q <= 1 && s.head[q] != seen
    case PutCas(q, _, _, seen) => q <= 1 && s.head[q] != seen
    case _ => false
  }

  function Left(p: PC): nat {
    match p
    case Idle => 0
    case TakeNode(_, _) => 11
    case TakeCounter(_, _, _) => 10
    case TakeNext(_, _, _) => 9
    case TakeCas(_, _, _, _) => 8
    case Malloc(_) => 8
    case StoreValue(_, _) => 7
    case LoadValue(_) => 7
    case PutNode(_, _, _) => 6
    case PutCounter(_, _, _, _) => 5
    case PutNext(_, _, _, _) => 4
    case LoadLength(_, _, _, _) => 3
    case PutLength(_, _, _, _, _) => 2
    case PutCas(_, _, _, _) => 1
  }

  function Steps(s: State, t: nat): nat
    requires s.Shape() && t < |s.pc|
  {
    Left(s.pc[t]) + if Stale(s, t) then 11 else 0
  }

  lemma TakeRange(s: State, t: nat)
    requires Inv(s) && t < |s.pc|
    ensures
      var p := s.pc[t];
      p.TakeNode? || p.TakeCounter? || p.TakeNext? || p.TakeCas? ==>
        p.q <= 1 && (p.TakeNext? ==> s.IsNode(p.seen.node)) && (p.q == SPARE ==> p.op.Push?)
  {
    hide Linked;
    assert ThreadInv(s, t);
  }

  // Only another thread's success makes a compare-and-swap fail, so a thread alone comes to an end.
  lemma AloneShrinks(s: State, t: nat, op: Op)
    requires Inv(s) && t < |s.pc| && !s.pc[t].Idle?
    ensures Steps(Step(s, t, op), t) < Steps(s, t)
  {
    HoldsNode(s, t);
    TakeRange(s, t);
    hide Inv;
  }

  // Wherever a run has left the threads, thread t moving alone ends its call within 22 accesses.
  lemma {:induction false} AloneEnds(s: State, t: nat, k: nat) returns (m: nat)
    requires Inv(s) && t < |s.pc| && k >= Steps(s, t)
    ensures m <= k && Run(s, seq(m, _ => (t, Pop))).pc[t].Idle?
    decreases k
  {
    if s.pc[t].Idle? {
      m := 0;
    } else {
      AloneShrinks(s, t, Pop);
      StepKeeps(s, t, Pop);
      hide Inv, Steps;
      m := AloneEnds(Step(s, t, Pop), t, k - 1);
      m := m + 1;
      assert seq(m, _ => (t, Pop))[1..] == seq(m - 1, _ => (t, Pop));
    }
  }

  lemma CallEndsAlone(threads: nat, schedule: Schedule, t: nat) returns (m: nat)
    requires t < threads
    ensures m <= 22 && Run(Run(Initial(threads), schedule), seq(m, _ => (t, Pop))).pc[t].Idle?
  {
    InitialInv(threads);
    RunKeeps(Initial(threads), schedule);
    m := AloneEnds(Run(Initial(threads), schedule), t, 22);
  }
}
