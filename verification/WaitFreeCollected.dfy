// Every version of the wait-free protocol is collected in the end
// (comparison_systems/aspen/code/graph/versioned_graph_waitfree.h:43-53 and 132-172): no version is forgotten,
// and none is collected twice.
module WaitFreeCollected {
  import opened WaitFree
  import opened WaitFreeSafety
  import opened WaitFreeReclaim
  import opened WaitFreeHistory

  predicate CollectsOf(p: PC, v: Ver) {
    p.Rel? && (p.r.LoadRoot? || p.r.ReloadRoot? || p.r.CasRoot?) && p.r.v == v
  }

  // The slot of v holds v: its status says so, or a thread has taken v out of the status to collect it.
  ghost predicate InSlot(s: State, v: Ver)
    requires s.Shape()
  {
    && v.idx < s.N() && s.slot[v.idx] != 0
    && (s.stat[v.idx].ver == v || exists x: nat :: x < s.N() && CollectsOf(s.pc[x], v))
  }

  ghost predicate NoneLost(s: State)
    requires s.Shape()
  {
    forall v :: v in s.rootOf ==> v in s.collected || InSlot(s, v)
  }

  // A step that leaves slots, statuses and collecting threads alone.
  lemma StaysInSlot(s: State, s': State, v: Ver)
    requires s.Shape() && s'.Shape() && s'.N() == s.N() && InSlot(s, v)
    requires s'.slot[v.idx] != 0 && (s.stat[v.idx].ver == v ==> s'.stat[v.idx].ver == v)
    requires forall x: nat :: x < s.N() && CollectsOf(s.pc[x], v) ==> CollectsOf(s'.pc[x], v)
    ensures InSlot(s', v)
  {
    if s.stat[v.idx].ver != v {
      var x: nat :| x < s.N() && CollectsOf(s.pc[x], v);
      assert CollectsOf(s'.pc[x], v);
    }
  }

  lemma AcquireLoses(s: State, t: nat, a: AcqPC)
    requires s.Shape() && t < s.N() && s.pc[t] == Acq(a) && NoneLost(s)
    ensures NoneLost(AcquireStep(s, t, a))
  {
    var s' := AcquireStep(s, t, a);
    AcquireQuiet(s, t, a);
    AcquireMemory(s, t, a);
    hide AcquireStep;
    forall v | v in s'.rootOf
      ensures v in s'.collected || InSlot(s', v)
    {
      if v !in s.collected { StaysInSlot(s, s', v); }
    }
  }

  lemma AcquireMemory(s: State, t: nat, a: AcqPC)
    requires s.Shape() && t < s.N()
    ensures var s' := AcquireStep(s, t, a); s'.slot == s.slot && s'.stat == s.stat && s'.collected == s.collected
  {
  }

  predicate Reclaims(r: RelPC) { r.CasEmpty? || r.LoadRoot? || r.ReloadRoot? || r.CasRoot? }

  lemma EarlyMemory(s: State, t: nat, r: RelPC)
    requires Inv(s) && t < s.N() && (s.pc[t] == Rel(r) || (s.pc[t].Holding? && r.LoadAnn?)) && !Reclaims(r)
    ensures var s' := ReleaseStep(s, t, r);
            && s'.slot == s.slot && s'.collected == s.collected
            && forall k: nat :: k < s.N() ==> s'.stat[k].ver == s.stat[k].ver
  {
    hide HistoryInv, AcquireInv, SlotInv, Exclusive;
    assert ThreadInv(s, t);
  }

  lemma EarlyLoses(s: State, t: nat, r: RelPC)
    requires Inv(s) && t < s.N() && (s.pc[t] == Rel(r) || (s.pc[t].Holding? && r.LoadAnn?)) && !Reclaims(r)
    requires NoneLost(s)
    ensures NoneLost(ReleaseStep(s, t, r))
  {
    var s' := ReleaseStep(s, t, r);
    ReleaseQuiet(s, t, r);
    EarlyMemory(s, t, r);
    hide ReleaseStep, Inv;
    forall v | v in s'.rootOf
      ensures v in s'.collected || InSlot(s', v)
    {
      if v !in s.collected { StaysInSlot(s, s', v); }
    }
  }

  // The thread takes the version out of the status, and the charge over.
  lemma CasEmptyLoses(s: State, t: nat, r: RelPC)
    requires Inv(s) && t < s.N() && s.pc[t] == Rel(r) && r.CasEmpty? && NoneLost(s)
    ensures NoneLost(ReleaseStep(s, t, r))
  {
    var s' := ReleaseStep(s, t, r);
    ReleaseQuiet(s, t, r);
    hide Inv;
    assert s'.slot == s.slot && s'.collected == s.collected;
    forall v | v in s'.rootOf
      ensures v in s'.collected || InSlot(s', v)
    {
      if v !in s.collected {
        if v == r.v && s'.stat != s.stat {
          assert CollectsOf(s'.pc[t], v);
        } else {
          StaysInSlot(s, s', v);
        }
      }
    }
  }

  lemma ReclaimFacts(s: State, t: nat, r: RelPC)
    requires Inv(s) && t < s.N() && s.pc[t] == Rel(r) && (r.LoadRoot? || r.ReloadRoot? || r.CasRoot?)
    ensures r.v.idx < s.N() && s.slot[r.v.idx] != 0 && s.stat[r.v.idx] == EMPTY
    ensures r.CasRoot? ==> r.node == s.slot[r.v.idx]
    ensures forall x: nat :: x < s.N() && x != t ==> !Collects(s.pc[x], r.v.idx)
    ensures forall v :: v in s.rootOf ==> v != EMPTY_VER
  {
    hide AcquireInv, SlotInv;
    assert ThreadInv(s, t);
    forall x: nat | x < s.N() && x != t
      ensures !Collects(s.pc[x], r.v.idx)
    {
      assert Apart(s.pc[t], s.pc[x]);
    }
  }

  lemma LoadLoses(s: State, t: nat, r: RelPC)
    requires Inv(s) && t < s.N() && s.pc[t] == Rel(r) && (r.LoadRoot? || r.ReloadRoot?) && NoneLost(s)
    ensures NoneLost(ReleaseStep(s, t, r))
  {
    var s' := ReleaseStep(s, t, r);
    ReclaimFacts(s, t, r);
    ReleaseQuiet(s, t, r);
    hide Inv;
    forall v | v in s'.rootOf
      ensures v in s'.collected || InSlot(s', v)
    {
      if v !in s.collected { StaysInSlot(s, s', v); }
    }
  }

  // The slot is emptied, and what it held is collected.
  lemma CasRootLoses(s: State, t: nat, r: RelPC)
    requires Inv(s) && t < s.N() && s.pc[t] == Rel(r) && r.CasRoot? && NoneLost(s)
    ensures NoneLost(ReleaseStep(s, t, r))
  {
    var s' := ReleaseStep(s, t, r);
    ReclaimFacts(s, t, r);
    ReleaseQuiet(s, t, r);
    hide Inv;
    forall v | v in s'.rootOf
      ensures v in s'.collected || InSlot(s', v)
    {
      if v != r.v && v !in s.collected {
        OnlyOneThere(s, t, r, v);
        StaysInSlot(s, s', v);
      }
    }
  }

  lemma OnlyOneThere(s: State, t: nat, r: RelPC, v: Ver)
    requires s.Shape() && t < s.N() && s.pc[t] == Rel(r) && r.CasRoot? && r.v.idx < s.N() && InSlot(s, v) && v != r.v
    requires s.stat[r.v.idx] == EMPTY && v != EMPTY_VER
    requires forall x: nat :: x < s.N() && x != t ==> !Collects(s.pc[x], r.v.idx)
    ensures v.idx != r.v.idx
  {
    if v.idx == r.v.idx {
      var x: nat :| x < s.N() && CollectsOf(s.pc[x], v);
      assert Collects(s.pc[x], r.v.idx);
    }
  }

  lemma UpdateLoses(s: State, t: nat, u: UpdPC, c: Choice)
    requires Inv(s) && t < s.N() && s.pc[t] == Upd(u) && NoneLost(s)
    ensures NoneLost(UpdateStep(s, t, u, c))
  {
    var s' := UpdateStep(s, t, u, c);
    UpdateQuiet(s, t, u, c);
    UpdateMemory(s, t, u, c);
    hide UpdateStep, Inv;
    forall v | v in s'.rootOf
      ensures v in s'.collected || InSlot(s', v)
    {
      if v !in s.collected && !(u.StoreSlot? && v == u.newVer) {
        StaysInSlot(s, s', v);
      }
    }
  }

  // A new version goes to an empty slot, and its status is there before its root.
  lemma UpdateMemory(s: State, t: nat, u: UpdPC, c: Choice)
    requires Inv(s) && t < s.N() && s.pc[t] == Upd(u)
    ensures UpdateStep(s, t, u, c).collected == s.collected
    ensures var s' := UpdateStep(s, t, u, c);
            && (forall k: nat :: k < s.N() && s.slot[k] != 0 ==> s'.slot[k] != 0 && s'.stat[k].ver == s.stat[k].ver)
            && (u.StoreSlot? ==>
                  u.newVer.idx < s.N() && s'.slot[u.newVer.idx] != 0 && s'.stat[u.newVer.idx].ver == u.newVer)
            && (forall v :: v in s'.rootOf ==> v in s.rootOf || (u.StoreSlot? && v == u.newVer))
  {
    hide HistoryInv, AcquireInv, ReleaseInv, SlotInv, Exclusive;
    assert ThreadInv(s, t);
  }

  lemma StepLoses(s: State, t: nat, c: Choice)
    requires Inv(s) && NoneLost(s)
    ensures NoneLost(Step(s, t, c))
  {
    if t < s.N() {
      hide Inv, NoneLost, AcquireStep, ReleaseStep, UpdateStep;
      match s.pc[t]
      case Idle => IdleLoses(s, t, c);
      case Acq(a) => AcquireLoses(s, t, a);
      case Holding(_, _) => EarlyLoses(s, t, LoadAnn);
      case Rel(r) =>
        if !Reclaims(r) { EarlyLoses(s, t, r); }
        else if r.CasEmpty? { CasEmptyLoses(s, t, r); }
        else if r.CasRoot? { CasRootLoses(s, t, r); }
        else { LoadLoses(s, t, r); }
      case Upd(u) => UpdateLoses(s, t, u, c);
    }
  }

  lemma IdleLoses(s: State, t: nat, c: Choice)
    requires s.Shape() && t < s.N() && s.pc[t].Idle? && NoneLost(s)
    ensures NoneLost(Step(s, t, c))
  {
    var s' := Step(s, t, c);
    forall v | v in s'.rootOf
      ensures v in s'.collected || InSlot(s', v)
    {
      if v !in s.collected { StaysInSlot(s, s', v); }
    }
  }

  lemma {:induction false} RunLoses(s: State, schedule: Schedule)
    requires Inv(s) && NoneLost(s)
    ensures Inv(Run(s, schedule)) && NoneLost(Run(s, schedule))
    decreases |schedule|
  {
    if schedule != [] {
      StepLoses(s, schedule[0].0, schedule[0].1);
      StepKeeps(s, schedule[0].0, schedule[0].1);
      hide Inv, NoneLost;
      RunLoses(Step(s, schedule[0].0, schedule[0].1), schedule[1..]);
    }
  }

  // In every run, whenever all threads are idle, every version that was ever current has been collected
  // exactly once, except the current one, which has not.
  lemma QuiescentAllCollectedOnce(n: nat, root: nat, schedule: Schedule, v: Ver)
    requires n > 0 && root != 0 && v in Made(n, root, schedule)
    requires forall t: nat :: t < n ==> Run(Initial(n, root), schedule).pc[t].Idle?
    ensures var s := Run(Initial(n, root), schedule);
            s.collected[v] == if v == s.current then 0 else 1
  {
    InitialInv(n, root);
    RunLoses(Initial(n, root), schedule);
    RunHistory(n, root, schedule);
    var s := Run(Initial(n, root), schedule);
    if v.idx < n { QuiescentRunKeepsOnlyCurrent(n, root, schedule, v.idx); }
    HistoryFacts(s, v);
    hide Inv;
    assert v in s.rootOf;
    if v !in s.collected {
      assert InSlot(s, v);
      assert s.stat[v.idx].ver == v && v.idx == s.current.idx;
    }
  }

  lemma HistoryFacts(s: State, v: Ver)
    requires Inv(s)
    ensures s.collected[v] <= 1 && s.current !in s.collected
    ensures s.current.idx < s.N() && s.stat[s.current.idx].ver == s.current
  {
    hide AcquireInv, ReleaseInv, UpdateInv, Exclusive;
    assert SlotInv(s, s.current.idx);
  }
}
