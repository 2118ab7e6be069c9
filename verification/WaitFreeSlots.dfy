// When `set` of the wait-free protocol finds a slot for the new version, and when it aborts
// (comparison_systems/aspen/code/graph/versioned_graph_waitfree.h, lines 55-66): there are as many
// slots as threads.
module WaitFreeSlots {
  import opened WaitFree
  import opened WaitFreeSafety
  import opened WaitFreeReclaim
  import opened Collections

  predicate Searches(p: PC) { p.Upd? && p.u.FindSlot? }

  ghost predicate FreeAhead(s: State, i: nat)
    requires s.Shape()
  {
    exists k: nat :: i <= k < s.N() && s.slot[k] == 0
  }

  predicate Full(s: State)
    requires s.Shape()
  {
    forall k: nat :: k < s.N() ==> s.slot[k] != 0
  }

  // While the writer searches nobody else fills a slot, so a free slot ahead of it stays free.
  lemma OtherStep(s: State, t: nat, x: nat, c: Choice)
    requires Inv(s) && t < s.N() && Searches(s.pc[t]) && x != t && FreeAhead(s, s.pc[t].u.i)
    ensures Step(s, x, c).pc[t] == s.pc[t] && FreeAhead(Step(s, x, c), s.pc[t].u.i)
  {
    hide HistoryInv, AcquireInv, ReleaseInv, UpdateInv, SlotInv, Exclusive;
    var k: nat :| s.pc[t].u.i <= k < s.N() && s.slot[k] == 0;
    assert ThreadInv(s, t);
    if x < s.N() { assert ThreadInv(s, x); }
    assert Step(s, x, c).slot[k] == 0;
  }

  lemma OwnStep(s: State, t: nat, c: Choice)
    requires Inv(s) && t < s.N() && Searches(s.pc[t]) && FreeAhead(s, s.pc[t].u.i)
    ensures
      var s' := Step(s, t, c);
      s'.pc[t].Upd? && (s'.pc[t].u.StoreStat? || (s'.pc[t].u.FindSlot? && FreeAhead(s', s'.pc[t].u.i)))
  {
    hide HistoryInv, AcquireInv, ReleaseInv, UpdateInv, SlotInv, Exclusive;
    var k: nat :| s.pc[t].u.i <= k < s.N() && s.slot[k] == 0;
    assert Step(s, t, c).slot[k] == 0;
  }

  // Thread t is still searching before each step of the schedule.
  ghost predicate StillSearching(s: State, schedule: seq<(nat, Choice)>, t: nat)
    requires s.Shape() && t < s.N()
  {
    forall m: nat :: m < |schedule| ==> Searches(Run(s, schedule[..m]).pc[t])
  }

  lemma SearchingRest(s: State, schedule: seq<(nat, Choice)>, t: nat)
    requires s.Shape() && t < s.N() && schedule != [] && StillSearching(s, schedule, t)
    ensures Searches(s.pc[t]) && StillSearching(Step(s, schedule[0].0, schedule[0].1), schedule[1..], t)
  {
    var s' := Step(s, schedule[0].0, schedule[0].1);
    assert Searches(Run(s, schedule[..0]).pc[t]);
    forall m: nat | m < |schedule| - 1
      ensures Searches(Run(s', schedule[1..][..m]).pc[t])
    {
      assert schedule[..m + 1][1..] == schedule[1..][..m];
      assert Searches(Run(s, schedule[..m + 1]).pc[t]);
    }
  }

  lemma {:induction false} SearchFinds(s: State, schedule: seq<(nat, Choice)>, t: nat)
    requires Inv(s) && t < s.N() && Searches(s.pc[t]) && FreeAhead(s, s.pc[t].u.i)
    requires StillSearching(s, schedule, t)
    ensures Run(s, schedule).pc[t] != Upd(Aborted)
    decreases |schedule|
  {
    if schedule != [] {
      var x, c := schedule[0].0, schedule[0].1;
      SearchingRest(s, schedule, t);
      StepKeeps(s, x, c);
      if x == t { OwnStep(s, t, c); } else { OtherStep(s, t, x, c); }
      if |schedule| > 1 {
        SearchingRest(Step(s, x, c), schedule[1..], t);
        SearchFinds(Step(s, x, c), schedule[1..], t);
      }
    }
  }

  // A writer left alone with full slots walks past all of them.
  lemma {:induction false} AloneAborts(s: State, t: nat) returns (schedule: seq<(nat, Choice)>)
    requires s.Shape() && t < s.N() && Searches(s.pc[t]) && Full(s)
    ensures StillSearching(s, schedule, t) && Run(s, schedule).pc[t] == Upd(Aborted)
    decreases s.N() - s.pc[t].u.i
  {
    var s' := Step(s, t, Proceed);
    var rest: seq<(nat, Choice)> := [];
    if s.pc[t].u.i < s.N() {
      rest := AloneAborts(s', t);
    }
    schedule := [(t, Proceed)] + rest;
    assert schedule[1..] == rest;
    forall m: nat | m < |schedule|
      ensures Searches(Run(s, schedule[..m]).pc[t])
    {
      if m > 0 { assert schedule[..m][1..] == rest[..m - 1]; }
    }
  }

  // ---- How many versions there can be ----

  ghost function Tender(s: State, k: nat): (x: nat)
    requires s.Shape() && k < s.N() && Tended(s, k)
    ensures x < s.N() && Tends(s, x, k)
  {
    var x: nat :| x < s.N() && Tends(s, x, k);
    x
  }

  // A thread tends one slot at most.
  lemma TendsOne(s: State, x: nat, j: nat, k: nat)
    requires Inv(s) && x < s.N() && j < s.N() && k < s.N() && Tends(s, x, j) && Tends(s, x, k)
    ensures j == k
  {
    assert ThreadInv(s, x) && SlotInv(s, j) && SlotInv(s, k);
  }

  // The searching writer tends none: it still announces the current version.
  lemma WriterTendsNone(s: State, t: nat, k: nat)
    requires Inv(s) && t < s.N() && Searches(s.pc[t]) && k < s.N() && k != s.current.idx
    ensures !Tends(s, t, k)
  {
    assert ThreadInv(s, t) && SlotInv(s, k);
  }

  lemma IdleTendsNone(s: State, x: nat, k: nat)
    requires Inv(s) && x < s.N() && s.pc[x].Idle? && k < s.N()
    ensures !Tends(s, x, k)
  {
    assert ThreadInv(s, x);
  }

  // n different numbers below n are all of them.
  lemma {:induction false} AllTaken(f: seq<nat>, n: nat, x: nat)
    requires |f| == n && NoRepeats(f) && x < n && forall i :: 0 <= i < n ==> f[i] < n
    ensures x in f
    decreases n
  {
    if x !in f {
      var last := n - 1;
      // Give x's place to the largest number.
      var g := seq(n, i requires 0 <= i < n => if f[i] == last then x else f[i]);
      assert NoRepeats(g);
      var h := g[..last];
      if last > 0 {
        AllTaken(h, last, g[last]);
      }
    }
  }

  lemma OldWhenFull(s: State, t: nat, j: nat)
    requires Inv(s) && t < s.N() && Searches(s.pc[t]) && Full(s) && j < s.N() && j != s.current.idx
    ensures Old(s, j)
  {
    assert ThreadInv(s, t);
  }

  // Thread x has a superseded version in its care.
  ghost predicate Busy(s: State, x: nat)
    requires s.Shape() && x < s.N()
  {
    exists k: nat :: k < s.N() && k != s.current.idx && Tends(s, x, k)
  }

  // With all slots full, every other thread has a superseded version of its own in its care.
  lemma FullMeansAllBusy(s: State, t: nat, x: nat)
    requires Inv(s) && CareInv(s) && t < s.N() && Searches(s.pc[t]) && Full(s)
    requires x < s.N() && x != t
    ensures Busy(s, x)
  {
    hide Tends, Tended, Old, ThreadInv, HistoryInv, SlotInv, Exclusive;
    var n, cur := s.N(), s.current.idx;
    forall j: nat | j < n && j != cur
      ensures Tended(s, j)
    {
      OldWhenFull(s, t, j);
    }
    var f: seq<nat> := seq(n, j requires 0 <= j < n => if j == cur then t else Tender(s, j));
    forall i, j | 0 <= i < j < n
      ensures f[i] != f[j]
    {
      if i != cur { WriterTendsNone(s, t, i); }
      if j != cur { WriterTendsNone(s, t, j); }
      if i != cur && j != cur && f[i] == f[j] { TendsOne(s, f[i], i, j); }
    }
    AllTaken(f, n, x);
    var i: nat :| i < n && f[i] == x;
    assert i != cur && Tends(s, x, i);
  }

  lemma FoundOrFull(s: State, t: nat)
    requires Inv(s) && CareInv(s) && t < s.N() && Searches(s.pc[t]) && s.pc[t].u.i == 0
    ensures (exists after :: StillSearching(s, after, t) && Run(s, after).pc[t] == Upd(Aborted)) <==> Full(s)
    ensures Full(s) ==> forall x: nat :: x < s.N() && x != t ==> Busy(s, x)
  {
    hide HistoryInv, CareInv, Busy, StillSearching, SlotInv, ThreadInv, Exclusive;
    if Full(s) {
      var after := AloneAborts(s, t);
      forall x: nat | x < s.N() && x != t
        ensures Busy(s, x)
      {
        FullMeansAllBusy(s, t, x);
      }
    } else {
      assert FreeAhead(s, 0);
      forall after | StillSearching(s, after, t)
        ensures Run(s, after).pc[t] != Upd(Aborted)
      {
        SearchFinds(s, after, t);
      }
    }
  }

  lemma RunInvs(n: nat, root: nat, before: seq<(nat, Choice)>)
    requires n > 0 && root != 0
    ensures var s := Run(Initial(n, root), before); Inv(s) && CareInv(s) && s.N() == n
  {
    InitialInv(n, root);
    RunCare(Initial(n, root), before);
  }

  // The state in which thread t, handed the root of its batch, begins to search.
  ghost function Installs(n: nat, root: nat, before: seq<(nat, Choice)>, t: nat, r: nat): State
    requires n > 0
  {
    Step(Run(Initial(n, root), before), t, Install(r))
  }

  lemma SearchBegins(n: nat, root: nat, before: seq<(nat, Choice)>, t: nat, r: nat)
    requires n > 0 && root != 0 && t < n && r != 0 && Run(Initial(n, root), before).pc[t].Upd?
    requires Run(Initial(n, root), before).pc[t].u.Building?
    ensures var s := Installs(n, root, before, t, r);
            && Inv(s) && CareInv(s) && s.N() == n && Searches(s.pc[t]) && s.pc[t].u.i == 0
            && s.slot == Run(Initial(n, root), before).slot
  {
    RunInvs(n, root, before);
    var s := Run(Initial(n, root), before);
    StepKeeps(s, t, Install(r));
    StepCare(s, t, Install(r));
    hide Inv, CareInv;
  }

  // When a batch is handed its root, `set` can abort exactly if no slot is free then; and in that case every
  // other thread is holding, releasing or collecting a superseded version, a different one each.
  lemma SetAbortsExactly(n: nat, root: nat, before: seq<(nat, Choice)>, t: nat, r: nat)
    requires n > 0 && root != 0 && t < n && r != 0 && Run(Initial(n, root), before).pc[t].Upd?
    requires Run(Initial(n, root), before).pc[t].u.Building?
    ensures
      var s := Installs(n, root, before, t, r);
      (exists after :: StillSearching(s, after, t) && Run(s, after).pc[t] == Upd(Aborted)) <==>
      Full(Run(Initial(n, root), before))
    ensures
      var s := Installs(n, root, before, t, r);
      Full(s) ==> forall x: nat :: x < n && x != t ==> Busy(s, x)
  {
    hide Inv, CareInv, Busy, FreeAhead, StillSearching, Installs;
    SearchBegins(n, root, before, t, r);
    FoundOrFull(Installs(n, root, before, t, r), t);
  }

  // One idle reader at that moment is enough: this `set` does not abort.
  lemma IdleReaderSuffices(n: nat, root: nat, before: seq<(nat, Choice)>, t: nat, x: nat, r: nat,
          after: seq<(nat, Choice)>)
    requires n > 0 && root != 0 && t < n && x < n && x != t && r != 0 && Run(Initial(n, root), before).pc[t].Upd?
    requires Run(Initial(n, root), before).pc[t].u.Building? && Run(Initial(n, root), before).pc[x].Idle?
    requires StillSearching(Installs(n, root, before, t, r), after, t)
    ensures Run(Installs(n, root, before, t, r), after).pc[t] != Upd(Aborted)
  {
    SearchBegins(n, root, before, t, r);
    var s := Installs(n, root, before, t, r);
    assert s.pc[x].Idle?;
    hide Installs;
    if Full(s) {
      FullMeansAllBusy(s, t, x);
      var k: nat :| k < s.N() && k != s.current.idx && Tends(s, x, k);
      IdleTendsNone(s, x, k);
      assert false;
    }
    assert FreeAhead(s, 0);
    SearchFinds(s, after, t);
  }

  // With one thread and one slot there is never room for a second version.
  lemma SoleThreadFull(root: nat, before: seq<(nat, Choice)>)
    requires root != 0
    ensures Full(Run(Initial(1, root), before))
  {
    InitialInv(1, root);
    RunKeeps(Initial(1, root), before);
  }
}
