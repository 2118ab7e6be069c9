// Precise reclamation in the wait-free protocol: every installed version other than the
// current one is in the care of some thread, so none is ever forgotten.
module WaitFreeReclaim {
  import opened WaitFree
  import opened WaitFreeSafety

  // Thread x will see to the version that occupies slot k.
  predicate Tends(s: State, x: nat, k: nat)
    requires s.Shape() && x < s.N() && k < s.N()
  {
    var v, p := s.stat[k].ver, s.pc[x];
    if v == EMPTY_VER then Collects(p, k)
    else if s.stat[k].flag == PENDING then Freezes(p, v)
    else
      || s.announce[x] == Word(v, 0)
      || p == Rel(CheckCur(v)) || p == Rel(LoadStat(v))
      || (s.stat[k].flag == USABLE && p == Rel(CasPending(v)))
      || (s.stat[k].flag == FROZEN && p.Rel? && (p.r.Scan? || p.r.CasEmpty?) && p.r.v == v)
  }

  predicate Tended(s: State, k: nat)
    requires s.Shape() && k < s.N()
  {
    exists x: nat :: x < s.N() && Tends(s, x, k)
  }

  // Slot k holds a version that must be reclaimed some day.
  predicate Old(s: State, k: nat)
    requires s.Shape() && k < s.N()
  {
    s.slot[k] != 0 && k != s.current.idx
    && !(s.writer >= 0 && s.pc[s.writer].Upd? && s.pc[s.writer].u.StoreCur? && s.pc[s.writer].u.newVer.idx == k)
  }

  ghost predicate CareInv(s: State)
    requires s.Shape()
  {
    forall k: nat :: k < s.N() && Old(s, k) ==> Tended(s, k)
  }

  // A thread keeps its charge if it stays put and its committed announcement and the slot's
  // status are left alone.
  lemma StillTends(s: State, s': State, x: nat, k: nat)
    requires s.Shape() && s'.Shape() && s'.N() == s.N() && x < s.N() && k < s.N()
    requires s'.pc[x] == s.pc[x] && s'.stat[k] == s.stat[k] && Tends(s, x, k)
    requires s'.announce[x] == s.announce[x] || s.announce[x].flag != 0
    ensures Tended(s', k)
  {
    assert Tends(s', x, k);
  }

  // Only thread t moves and at most announcement i changes, from an uncommitted word or t's own.
  lemma MoveCare(s: State, i: nat, w: Word, t: nat, p: PC, k: nat)
    requires Inv(s) && t < s.N() && i < s.N() && k < s.N() && Tended(s, k)
    requires i == t || s.announce[i].flag != 0
    requires Tends(s, t, k) ==> Tended(Move(s, i, w, t, p), k)
    ensures Tended(Move(s, i, w, t, p), k)
  {
    var x: nat :| x < s.N() && Tends(s, x, k);
    if x != t {
      assert ThreadInv(s, i);
      assert Tends(Move(s, i, w, t, p), x, k);
    }
  }

  lemma AcquireCare(s: State, t: nat, a: AcqPC, k: nat)
    requires Inv(s) && t < s.N() && s.pc[t] == Acq(a) && k < s.N() && Tended(s, k)
    ensures Tended(AcquireStep(s, t, a), k)
  {
    var s' := AcquireStep(s, t, a);
    assert ThreadInv(s, t);
    AcquireWord(s, t, a);
    if Tends(s, t, k) {
      assert s.announce[t] == Word(s.stat[k].ver, 0);
      assert Tends(s', t, k);
    }
    MoveCare(s, t, s'.announce[t], t, s'.pc[t], k);
  }

  // Another thread keeps its charge while t takes a step of release; if t changes the status of
  // slot k, it takes the charge over.
  lemma ReleaseOther(s: State, t: nat, r: RelPC, k: nat, x: nat)
    requires Inv(s) && t < s.N() && (s.pc[t] == Rel(r) || (s.pc[t].Holding? && r.LoadAnn?))
    requires k < s.N() && Old(s, k) && x < s.N() && x != t && Tends(s, x, k)
    ensures Tended(ReleaseStep(s, t, r), k)
  {
    hide HistoryInv;
    var s' := ReleaseStep(s, t, r);
    assert ThreadInv(s, t);
    if s'.stat[k] == s.stat[k] {
      StillTends(s, s', x, k);
    } else {
      assert Tends(s', t, k);
    }
  }

  lemma ReleaseOwn(s: State, t: nat, r: RelPC, k: nat)
    requires Inv(s) && t < s.N() && (s.pc[t] == Rel(r) || (s.pc[t].Holding? && r.LoadAnn?))
    requires k < s.N() && Old(s, k) && Tends(s, t, k)
    requires r.LoadAnn? || r.Clear? || r.CheckCur? || r.LoadStat? || r.CasPending?
    ensures Tended(ReleaseStep(s, t, r), k)
  {
    assert ThreadInv(s, t) && SlotInv(s, k);
    assert Tends(ReleaseStep(s, t, r), t, k);
  }

  lemma FreezeOwn(s: State, t: nat, r: RelPC, k: nat)
    requires Inv(s) && t < s.N() && s.pc[t] == Rel(r)
    requires k < s.N() && Old(s, k) && Tends(s, t, k) && (r.Help? || r.HelpCas? || r.Freeze?)
    ensures Tended(ReleaseStep(s, t, r), k)
  {
    assert ThreadInv(s, t) && SlotInv(s, k);
    assert Tends(ReleaseStep(s, t, r), t, k);
  }

  lemma ReclaimOwn(s: State, t: nat, r: RelPC, k: nat)
    requires Inv(s) && t < s.N() && s.pc[t] == Rel(r)
    requires k < s.N() && Old(s, k) && Tends(s, t, k)
    requires r.Scan? || r.CasEmpty? || r.LoadRoot? || r.ReloadRoot? || r.CasRoot?
    ensures Old(ReleaseStep(s, t, r), k) ==> Tended(ReleaseStep(s, t, r), k)
  {
    var s' := ReleaseStep(s, t, r);
    assert ThreadInv(s, t) && SlotInv(s, k);
    if r.Scan? && r.i < s.N() && s.announce[r.i] == Word(r.v, 0) {
      assert Tends(s', r.i, k);
    } else if Old(s', k) {
      assert Tends(s', t, k);
    }
  }

  lemma ReleaseCare(s: State, t: nat, r: RelPC, k: nat)
    requires Inv(s) && t < s.N() && (s.pc[t] == Rel(r) || (s.pc[t].Holding? && r.LoadAnn?))
    requires k < s.N() && Old(s, k) && Tended(s, k)
    ensures Old(ReleaseStep(s, t, r), k) ==> Tended(ReleaseStep(s, t, r), k)
  {
    var x: nat :| x < s.N() && Tends(s, x, k);
    if x != t {
      ReleaseOther(s, t, r, k, x);
    } else if r.LoadAnn? || r.Clear? || r.CheckCur? || r.LoadStat? || r.CasPending? {
      ReleaseOwn(s, t, r, k);
    } else if r.Help? || r.HelpCas? || r.Freeze? {
      FreezeOwn(s, t, r, k);
    } else {
      ReclaimOwn(s, t, r, k);
    }
  }

  lemma OldBefore(s: State, t: nat, r: RelPC, k: nat)
    requires Inv(s) && t < s.N() && (s.pc[t] == Rel(r) || (s.pc[t].Holding? && r.LoadAnn?))
    requires k < s.N() && Old(ReleaseStep(s, t, r), k)
    ensures Old(s, k)
  {
    hide HistoryInv, Held;
    assert ThreadInv(s, t);
  }

  // While a version is current its writer announces it, so the writer takes charge of it when it
  // publishes the next one; every other step of the update leaves the charges alone.
  lemma UpdateOther(s: State, t: nat, u: UpdPC, c: Choice, k: nat, x: nat)
    requires Inv(s) && t < s.N() && s.pc[t] == Upd(u) && k < s.N() && Old(s, k)
    requires x < s.N() && Tends(s, x, k)
    ensures Tended(UpdateStep(s, t, u, c), k)
  {
    assert ThreadInv(s, t);
    if x == t {
      UpdateOwn(s, t, u, c, k);
    } else {
      StillTends(s, UpdateStep(s, t, u, c), x, k);
    }
  }

  lemma UpdateOwn(s: State, t: nat, u: UpdPC, c: Choice, k: nat)
    requires Inv(s) && t < s.N() && s.pc[t] == Upd(u) && k < s.N() && Old(s, k) && Tends(s, t, k)
    ensures Tended(UpdateStep(s, t, u, c), k)
  {
    assert ThreadInv(s, t) && SlotInv(s, k);
    assert Tends(UpdateStep(s, t, u, c), t, k);
  }

  lemma PublishCare(s: State, t: nat, u: UpdPC, c: Choice, k: nat)
    requires Inv(s) && t < s.N() && s.pc[t] == Upd(u) && k < s.N() && !Old(s, k)
    requires Old(UpdateStep(s, t, u, c), k)
    ensures Tended(UpdateStep(s, t, u, c), k)
  {
    assert ThreadInv(s, t) && SlotInv(s, k) && SlotInv(s, s.current.idx);
    assert u.StoreCur? && k == s.current.idx;
    assert Tends(UpdateStep(s, t, u, c), t, k);
  }

  lemma StepCare(s: State, t: nat, c: Choice)
    requires Inv(s) && CareInv(s)
    ensures CareInv(Step(s, t, c))
  {
    var s' := Step(s, t, c);
    forall k: nat | k < s.N() && Old(s', k) ensures Tended(s', k) {
      if t < s.N() {
        match s.pc[t]
        case Idle => IdleCare(s, t, c, k);
        case Acq(a) => AcquireCare(s, t, a, k);
        case Holding(_, _) => OldBefore(s, t, LoadAnn, k); ReleaseCare(s, t, LoadAnn, k);
        case Rel(r) => OldBefore(s, t, r, k); ReleaseCare(s, t, r, k);
        case Upd(u) => 
          if Old(s, k) {
            var x: nat :| x < s.N() && Tends(s, x, k);
            UpdateOther(s, t, u, c, k, x);
          } else { PublishCare(s, t, u, c, k); }
      }
    }
  }

  lemma IdleCare(s: State, t: nat, c: Choice, k: nat)
    requires Inv(s) && t < s.N() && s.pc[t].Idle? && k < s.N() && Old(Step(s, t, c), k)
    requires Old(s, k) ==> Tended(s, k)
    ensures Tended(Step(s, t, c), k)
  {
    assert ThreadInv(s, t) && SlotInv(s, k);
    var x: nat :| x < s.N() && Tends(s, x, k);
    assert Tends(Step(s, t, c), x, k);
  }

  lemma {:induction false} RunCare(s: State, schedule: seq<(nat, Choice)>)
    requires Inv(s) && CareInv(s)
    ensures Inv(Run(s, schedule)) && CareInv(Run(s, schedule))
    decreases |schedule|
  {
    if schedule != [] {
      StepKeeps(s, schedule[0].0, schedule[0].1);
      StepCare(s, schedule[0].0, schedule[0].1);
      RunCare(Step(s, schedule[0].0, schedule[0].1), schedule[1..]);
    }
  }

  // In every run, at any moment when no thread is inside an operation or holds a snapshot, every
  // slot but the current version's is empty: each superseded version has been collected, once.
  lemma QuiescentRunKeepsOnlyCurrent(n: nat, root: nat, schedule: seq<(nat, Choice)>, k: nat)
    requires n > 0 && root != 0 && k < n
    requires forall t: nat :: t < n ==> Run(Initial(n, root), schedule).pc[t].Idle?
    ensures var s := Run(Initial(n, root), schedule);
            s.slot[k] != 0 <==> k == s.current.idx
  {
    InitialInv(n, root);
    RunCare(Initial(n, root), schedule);
    var s := Run(Initial(n, root), schedule);
    forall x: nat | x < s.N() ensures !Tends(s, x, k) && s.writer != x {
      assert ThreadInv(s, x);
    }
    assert SlotInv(s, k) && !Tended(s, k) && !Old(s, k);
  }
}
