// What a schedule of the wait-free protocol asks for, and what readers and later batches then see
// (comparison_systems/aspen/code/graph/versioned_graph_waitfree.h): the history here is read off the
// schedule alone, not off the threads' local variables.
module WaitFreeHistory {
  import opened WaitFree
  import opened WaitFreeSafety

  type Schedule = seq<(nat, Choice)>

  function Front(schedule: Schedule): Schedule
    requires schedule != []
  {
    schedule[..|schedule| - 1]
  }

  function Last(schedule: Schedule): (nat, Choice)
    requires schedule != []
  {
    schedule[|schedule| - 1]
  }

  lemma {:induction false} RunLast(s: State, schedule: Schedule)
    requires s.Shape() && schedule != []
    ensures Run(s, schedule) == Step(Run(s, Front(schedule)), Last(schedule).0, Last(schedule).1)
    decreases |schedule|
  {
    if |schedule| > 1 {
      RunLast(Step(s, schedule[0].0, schedule[0].1), schedule[1..]);
      assert Front(schedule)[1..] == Front(schedule[1..]);
    } else {
      assert Front(schedule) == [] && schedule[1..] == [];
    }
  }

  // The timestamp of the current version when thread t last began an operation.
  ghost function StartTs(s: State, schedule: Schedule, t: nat): nat
    requires s.Shape() && t < s.N()
    decreases |schedule|
  {
    if schedule == [] then 0
    else
      var b, (x, c) := Run(s, Front(schedule)), Last(schedule);
      if x == t && b.pc[t].Idle? && (c.Acquire? || c.Update?) then b.current.ts else StartTs(s, Front(schedule), t)
  }

  // A batch that is being built goes on when it is handed a root.
  function Handed(u: UpdPC, c: Choice, given: nat): nat {
    if u.Building? && c.Install? && c.root != 0 then c.root else given
  }

  // The root that thread t was last handed in its present batch, or 0.
  ghost function Given(s: State, schedule: Schedule, t: nat): nat
    requires s.Shape() && t < s.N()
    decreases |schedule|
  {
    if schedule == [] then 0
    else
      var b, (x, c) := Run(s, Front(schedule)), Last(schedule);
      if x == t && b.pc[t].Idle? then 0
      else
        var given := Given(s, Front(schedule), t);
        if x == t && b.pc[t].Upd? then Handed(b.pc[t].u, c, given) else given
  }

  // Every version that was ever current, with the root handed to the thread that made it current.
  ghost function Made(n: nat, root: nat, schedule: Schedule): map<Ver, nat>
    requires n > 0
    decreases |schedule|
  {
    var s := Initial(n, root);
    if schedule == [] then map[Ver(0, 1) := root]
    else
      var before, x := Front(schedule), Last(schedule).0;
      var made, v := Made(n, root, before), Run(s, schedule).current;
      if v != Run(s, before).current && x < n then made[v := Given(s, before, x)] else made
  }

  // ---- The invariant ----

  ghost predicate BatchInv(s: State, t: nat, start: nat, given: nat, made: map<Ver, nat>)
    requires s.Shape() && t < s.N()
  {
    s.pc[t].Upd? ==>
      match s.pc[t].u
      case LoadCurrent => start == s.current.ts
      case StoreAnn(_) => start == s.current.ts
      case CurIndex => start == s.current.ts
      case BaseRoot(_) => start == s.current.ts
      case Building(_, _) => start == s.current.ts
      case FindSlot(_, root) => start == s.current.ts && root == given
      case StoreStat(root, _) => start == s.current.ts && root == given
      case StoreSlot(root, _) => start == s.current.ts && root == given
      case StoreCur(root, _) => start == s.current.ts && root == given
      case HelpLoad(_, _, _) => Published(s, start, given, made)
      case HelpSet(_, _, _, _) => Published(s, start, given, made)
      case Aborted => true
  }

  // The current version is the one after `start`, with the given root.
  ghost predicate Published(s: State, start: nat, given: nat, made: map<Ver, nat>) {
    s.current.ts == start + 1 && s.current in made && made[s.current] == given && given != 0
  }

  // The recorded roots are those of the versions that were made current.
  ghost predicate RootsInv(s: State, made: map<Ver, nat>)
    requires s.Shape()
  {
    && (forall v :: v in s.rootOf && !Installing(s, v) ==> v in made)
    && (forall v :: v in made ==> v in s.rootOf && s.rootOf[v] == made[v] && v.ts <= s.current.ts)
  }

  ghost predicate StartInv(s: State, t: nat, start: nat)
    requires s.Shape() && t < s.N()
  {
    !s.pc[t].Idle? ==> s.began[t] == start
  }

  ghost predicate History(n: nat, root: nat, schedule: Schedule)
    requires n > 0
  {
    var s0, s := Initial(n, root), Run(Initial(n, root), schedule);
    && Inv(s) && RootsInv(s, Made(n, root, schedule))
    && (forall t: nat :: t < n ==> StartInv(s, t, StartTs(s0, schedule, t)))
    && (forall t: nat :: t < n ==>
          BatchInv(s, t, StartTs(s0, schedule, t), Given(s0, schedule, t), Made(n, root, schedule)))
  }

  // ---- One step ----

  // What a step outside the update leaves alone; its only way into the update is from Idle.
  lemma QuietStep(s: State, x: nat, c: Choice)
    requires s.Shape() && x < s.N() && !s.pc[x].Upd?
    ensures var s' := Step(s, x, c);
            && s'.current == s.current && s'.rootOf == s.rootOf
            && s'.pc == s.pc[x := s'.pc[x]] && (s'.pc[x].Upd? ==> s.pc[x].Idle? && s'.pc[x] == Upd(LoadCurrent))
            && (s.pc[x].Idle? && !c.Acquire? && !c.Update? ==> s' == s)
            && s'.began ==
               (if s.pc[x].Idle? && (c.Acquire? || (c.Update? && s.writer == -1)) then s.began[x := s.current.ts]
                else s.began)
            && (s.pc[x].Idle? && c.Update? && s.writer != -1 ==> s' == s)
  {
    match s.pc[x]
    case Idle =>
    case Acq(a) => AcquireQuiet(s, x, a);
    case Holding(_, _) => ReleaseQuiet(s, x, LoadAnn);
    case Rel(r) => ReleaseQuiet(s, x, r);
  }

  lemma AcquireQuiet(s: State, x: nat, a: AcqPC)
    requires s.Shape() && x < s.N()
    ensures var s' := AcquireStep(s, x, a);
            && s'.current == s.current && s'.rootOf == s.rootOf && s'.began == s.began
            && s'.pc == s.pc[x := s'.pc[x]] && !s'.pc[x].Upd?
  {
  }

  lemma ReleaseQuiet(s: State, x: nat, r: RelPC)
    requires s.Shape() && x < s.N() && !s.pc[x].Upd?
    ensures var s' := ReleaseStep(s, x, r);
            && s'.current == s.current && s'.rootOf == s.rootOf && s'.began == s.began
            && s'.pc == s.pc[x := s'.pc[x]] && !s'.pc[x].Upd?
  {
  }

  // What a step of the update changes.
  lemma UpdateQuiet(s: State, x: nat, u: UpdPC, c: Choice)
    requires s.Shape() && x < s.N() && s.pc[x] == Upd(u)
    ensures var s' := UpdateStep(s, x, u, c);
            && s'.began == s.began && s'.pc == s.pc[x := s'.pc[x]]
            && s'.current == (if u.StoreCur? then u.newVer else s.current)
            && s'.rootOf == (if u.StoreSlot? && u.newVer.idx < s.N() then s.rootOf[u.newVer := u.root] else s.rootOf)
            && !s'.pc[x].Idle?
  {
  }

  lemma StartStep(s: State, x: nat, c: Choice, t: nat, start: nat)
    requires s.Shape() && t < s.N() && StartInv(s, t, start)
    ensures
      var begins := x == t && s.pc[t].Idle? && (c.Acquire? || c.Update?);
      StartInv(Step(s, x, c), t, if begins then s.current.ts else start)
  {
    if x < s.N() {
      if s.pc[x].Upd? { UpdateQuiet(s, x, s.pc[x].u, c); } else { QuietStep(s, x, c); }
      hide Step;
    }
  }

  lemma WriterIs(s: State, t: nat)
    requires Inv(s) && t < s.N()
    ensures s.pc[t].Upd? <==> s.writer == t
  {
    hide HistoryInv, AcquireInv, ReleaseInv, UpdateInv, SlotInv, Exclusive;
    assert ThreadInv(s, t);
  }

  // While t is inside the update only t changes the current version.
  lemma OtherBatch(s: State, x: nat, c: Choice, t: nat, start: nat, given: nat, made: map<Ver, nat>,
          made': map<Ver, nat>)
    requires Inv(s) && t < s.N() && x != t && BatchInv(s, t, start, given, made)
    requires Step(s, x, c).current == s.current ==> made' == made
    ensures BatchInv(Step(s, x, c), t, start, given, made')
  {
    WriterIs(s, t);
    if x < s.N() {
      WriterIs(s, x);
      hide Inv;
      if s.pc[x].Upd? { UpdateQuiet(s, x, s.pc[x].u, c); } else { QuietStep(s, x, c); }
      hide Step;
    }
  }

  // What a step of the update does to the thread's place, value and versions.
  lemma EarlyBatch(s: State, c: Choice, t: nat, start: nat, given: nat, made: map<Ver, nat>)
    requires s.Shape() && t < s.N() && s.pc[t].Upd? && BatchInv(s, t, start, given, made)
    requires var u := s.pc[t].u; u.LoadCurrent? || u.StoreAnn? || u.CurIndex? || u.BaseRoot? || u.Building?
    ensures
      var s', u := Step(s, t, c), s.pc[t].u;
      var given' := Handed(u, c, given);
      BatchInv(s', t, start, given', if s'.current != s.current then made[s'.current := given] else made)
  {
  }

  lemma SlotBatch(s: State, c: Choice, t: nat, start: nat, given: nat, made: map<Ver, nat>)
    requires s.Shape() && t < s.N() && s.pc[t].Upd? && BatchInv(s, t, start, given, made)
    requires s.pc[t].u.FindSlot? || s.pc[t].u.StoreStat? || s.pc[t].u.StoreSlot?
    ensures
      var s', u := Step(s, t, c), s.pc[t].u;
      var given' := Handed(u, c, given);
      BatchInv(s', t, start, given', if s'.current != s.current then made[s'.current := given] else made)
  {
  }

  lemma PublishBatch(s: State, c: Choice, t: nat, start: nat, given: nat, made: map<Ver, nat>)
    requires s.Shape() && t < s.N() && s.pc[t].Upd? && BatchInv(s, t, start, given, made)
    requires s.pc[t].u.StoreCur? && s.pc[t].u.newVer.ts == s.current.ts + 1 && s.pc[t].u.root != 0
    ensures
      var s', u := Step(s, t, c), s.pc[t].u;
      var given' := Handed(u, c, given);
      BatchInv(s', t, start, given', if s'.current != s.current then made[s'.current := given] else made)
  {
  }

  lemma HelpBatch(s: State, c: Choice, t: nat, start: nat, given: nat, made: map<Ver, nat>)
    requires s.Shape() && t < s.N() && s.pc[t].Upd? && BatchInv(s, t, start, given, made)
    requires s.pc[t].u.HelpLoad? || s.pc[t].u.HelpSet? || s.pc[t].u.Aborted?
    ensures
      var s', u := Step(s, t, c), s.pc[t].u;
      var given' := Handed(u, c, given);
      BatchInv(s', t, start, given', if s'.current != s.current then made[s'.current := given] else made)
  {
  }

  lemma OwnBatch(s: State, c: Choice, t: nat, start: nat, given: nat, made: map<Ver, nat>)
    requires Inv(s) && t < s.N() && s.pc[t].Upd? && BatchInv(s, t, start, given, made)
    ensures
      var s', u := Step(s, t, c), s.pc[t].u;
      var given' := Handed(u, c, given);
      BatchInv(s', t, start, given', if s'.current != s.current then made[s'.current := given] else made)
  {
    UpdateFacts(s, t);
    hide Inv, BatchInv, Step;
    var u := s.pc[t].u;
    if u.LoadCurrent? || u.StoreAnn? || u.CurIndex? || u.BaseRoot? || u.Building? {
      EarlyBatch(s, c, t, start, given, made);
    } else if u.FindSlot? || u.StoreStat? || u.StoreSlot? {
      SlotBatch(s, c, t, start, given, made);
    } else if u.StoreCur? {
      PublishBatch(s, c, t, start, given, made);
    } else {
      HelpBatch(s, c, t, start, given, made);
    }
  }

  lemma UpdateFacts(s: State, t: nat)
    requires Inv(s) && t < s.N() && s.pc[t].Upd?
    ensures var u := s.pc[t].u;
            && s.writer == t
            && (u.StoreSlot? ==> u.newVer.ts == s.current.ts + 1 && u.root != 0 && u.newVer.idx < s.N())
            && (u.StoreCur? ==> u.newVer.ts == s.current.ts + 1 && u.root != 0 && u.newVer.idx < s.N())
            && (u.StoreCur? ==> u.newVer in s.rootOf && s.rootOf[u.newVer] == u.root)
  {
    hide HistoryInv, AcquireInv, ReleaseInv, SlotInv, Exclusive;
    assert ThreadInv(s, t);
  }

  lemma BeginBatch(s: State, c: Choice, t: nat, start: nat, made: map<Ver, nat>)
    requires s.Shape() && t < s.N() && !s.pc[t].Upd?
    requires s.pc[t].Idle? && c.Update? ==> start == s.current.ts
    ensures forall given: nat :: BatchInv(Step(s, t, c), t, start, given, made)
    ensures Step(s, t, c).current == s.current
  {
    QuietStep(s, t, c);
    hide Step;
  }

  lemma RootsStep(s: State, x: nat, c: Choice, start: nat, given: nat, made: map<Ver, nat>)
    requires Inv(s) && RootsInv(s, made) && (x < s.N() ==> BatchInv(s, x, start, given, made))
    ensures var s' := Step(s, x, c);
            RootsInv(s', if s'.current != s.current && x < s.N() then made[s'.current := given] else made)
  {
    assert s.Shape();
    hide Inv, BatchInv, RootsInv, AcquireStep, ReleaseStep, UpdateStep;
    if x < s.N() {
      if s.pc[x].Upd? {
        RootsUpdate(s, x, c, start, given, made);
      } else {
        QuietStep(s, x, c);
        RootsQuiet(s, x, c, made);
      }
    }
  }

  lemma RootsQuiet(s: State, x: nat, c: Choice, made: map<Ver, nat>)
    requires Inv(s) && RootsInv(s, made) && x < s.N() && !s.pc[x].Upd?
    ensures RootsInv(Step(s, x, c), made)
  {
    WriterIs(s, x);
    forall w: nat | w < s.N()
      ensures s.pc[w].Upd? <==> s.writer == w
    {
      WriterIs(s, w);
    }
    NewWriter(s, x, c);
    hide Inv;
    QuietStep(s, x, c);
    hide Step;
  }

  lemma NewWriter(s: State, x: nat, c: Choice)
    requires s.Shape() && x < s.N() && !s.pc[x].Upd? && s.writer != x
    ensures Step(s, x, c).writer == s.writer || (s.writer == -1 && Step(s, x, c).writer == x)
    ensures Step(s, x, c).writer == x ==> Step(s, x, c).pc[x] == Upd(LoadCurrent)
  {
  }

  lemma RootsUpdate(s: State, x: nat, c: Choice, start: nat, given: nat, made: map<Ver, nat>)
    requires Inv(s) && RootsInv(s, made) && x < s.N() && s.pc[x].Upd? && BatchInv(s, x, start, given, made)
    ensures var s' := Step(s, x, c);
            RootsInv(s', if s'.current != s.current then made[s'.current := given] else made)
  {
    UpdateFacts(s, x);
    SameWriter(s, x, c);
    hide Inv;
    UpdateQuiet(s, x, s.pc[x].u, c);
    hide Step;
  }

  // Where the update goes on to.
  lemma SameWriter(s: State, x: nat, c: Choice)
    requires s.Shape() && x < s.N() && s.pc[x].Upd? && s.writer == x
    ensures var s', u := Step(s, x, c), s.pc[x].u;
            && (s'.writer == x || (s'.writer == -1 && u.HelpLoad?))
            && (s'.pc[x].Upd? && s'.pc[x].u.StoreCur? ==>
                  u == s'.pc[x].u || (u.StoreSlot? && s'.pc[x].u == StoreCur(u.root, u.newVer)))
            && (u.StoreCur? ==> s'.pc[x].Upd? && !s'.pc[x].u.StoreCur?)
            && (u.StoreSlot? && u.newVer.idx < s.N() ==> s'.pc[x] == Upd(StoreCur(u.root, u.newVer)))
  {
  }

  lemma {:induction false} RunHistory(n: nat, root: nat, schedule: Schedule)
    requires n > 0 && root != 0
    ensures History(n, root, schedule)
    decreases |schedule|
  {
    InitialInv(n, root);
    if schedule != [] {
      HistoryStep(n, root, schedule);
    }
  }

  lemma HistoryStep(n: nat, root: nat, schedule: Schedule)
    requires n > 0 && root != 0 && schedule != []
    ensures History(n, root, schedule)
    decreases |schedule|, 0
  {
    hide Inv, BatchInv, RootsInv, StartInv;
    var s0, before, x, c := Initial(n, root), Front(schedule), Last(schedule).0, Last(schedule).1;
    RunHistory(n, root, before);
    var s := Run(s0, before);
    RunLast(s0, schedule);
    StepKeeps(s, x, c);
    var made := Made(n, root, before);
    forall t: nat | t < n
      ensures StartInv(Run(s0, schedule), t, StartTs(s0, schedule, t))
    {
      StartStep(s, x, c, t, StartTs(s0, before, t));
    }
    forall t: nat | t < n
      ensures BatchInv(Run(s0, schedule), t, StartTs(s0, schedule, t), Given(s0, schedule, t), Made(n, root, schedule))
    {
      var start, given := StartTs(s0, before, t), Given(s0, before, t);
      if x == t {
        if s.pc[t].Upd? { OwnBatch(s, c, t, start, given, made); }
        else { BeginBatch(s, c, t, StartTs(s0, schedule, t), made); }
      } else {
        OtherBatch(s, x, c, t, start, given, made, Made(n, root, schedule));
      }
    }
    if x < n { RootsStep(s, x, c, StartTs(s0, before, x), Given(s0, before, x), made); }
    else { RootsStep(s, x, c, 0, 0, made); }
  }

  // ---- What every run guarantees ----

  // A thread that holds a snapshot holds the root that was handed to the batch that made its version,
  // or the first root; and the version was made no earlier than the thread began its acquire.
  lemma SnapshotIsGiven(n: nat, root: nat, schedule: Schedule, t: nat)
    requires n > 0 && root != 0 && t < n && Run(Initial(n, root), schedule).pc[t].Holding?
    ensures var s, made := Run(Initial(n, root), schedule), Made(n, root, schedule);
            var v := s.announce[t].ver;
            && v.idx < n && v in made && s.pc[t].root == made[v] == s.slot[v.idx] && s.pc[t].idx == v.idx
            && StartTs(Initial(n, root), schedule, t) <= v.ts <= s.current.ts
  {
    RunHistory(n, root, schedule);
    var s := Run(Initial(n, root), schedule);
    HoldsMade(s, t, Made(n, root, schedule));
    assert StartInv(s, t, StartTs(Initial(n, root), schedule, t));
  }

  lemma HoldsMade(s: State, t: nat, made: map<Ver, nat>)
    requires Inv(s) && RootsInv(s, made) && t < s.N() && s.pc[t].Holding?
    ensures var v := s.announce[t].ver;
            && v.idx < s.N() && v in made && s.pc[t].root == made[v] == s.slot[v.idx] && s.pc[t].idx == v.idx
            && s.began[t] <= v.ts <= s.current.ts
  {
    assert ThreadInv(s, t);
    if s.writer >= 0 { assert ThreadInv(s, s.writer); }
  }

  // A batch is built on the root handed to the batch before it.
  lemma BatchStartsFromLatest(n: nat, root: nat, schedule: Schedule, t: nat)
    requires n > 0 && root != 0 && t < n && Run(Initial(n, root), schedule).pc[t].Upd?
    requires Run(Initial(n, root), schedule).pc[t].u.Building?
    ensures var s, made := Run(Initial(n, root), schedule), Made(n, root, schedule);
            s.current in made && s.pc[t].u.base == made[s.current]
  {
    RunHistory(n, root, schedule);
    BaseMade(Run(Initial(n, root), schedule), t, Made(n, root, schedule));
  }

  lemma BaseMade(s: State, t: nat, made: map<Ver, nat>)
    requires Inv(s) && RootsInv(s, made) && t < s.N() && s.pc[t].Upd? && s.pc[t].u.Building?
    ensures s.current in made && s.pc[t].u.base == made[s.current]
  {
    hide HistoryInv, AcquireInv, ReleaseInv, SlotInv, Exclusive;
    assert ThreadInv(s, t);
  }

  // A batch that ends has been handed a root and has made one version, the next one, with that root.
  lemma BatchPublishes(n: nat, root: nat, schedule: Schedule, t: nat, c: Choice)
    requires n > 0 && root != 0 && t < n && Run(Initial(n, root), schedule).pc[t].Upd?
    requires !Step(Run(Initial(n, root), schedule), t, c).pc[t].Upd?
    ensures var s0, s := Initial(n, root), Run(Initial(n, root), schedule);
            Published(s, StartTs(s0, schedule, t), Given(s0, schedule, t), Made(n, root, schedule))
  {
    RunHistory(n, root, schedule);
    var s := Run(Initial(n, root), schedule);
    LeavesFromHelp(s, t, c);
    hide Inv, RootsInv, StartInv, Published;
    var s0 := Initial(n, root);
    assert BatchInv(s, t, StartTs(s0, schedule, t), Given(s0, schedule, t), Made(n, root, schedule));
  }

  lemma LeavesFromHelp(s: State, t: nat, c: Choice)
    requires s.Shape() && t < s.N() && s.pc[t].Upd? && !Step(s, t, c).pc[t].Upd?
    ensures s.pc[t].u.HelpLoad?
  {
  }

  // ---- Wait-freedom ----

  // Nothing more is to be done, or the batch waits for the caller's root, or the program has ended.
  predicate Resting(p: PC) { p.Idle? || p.Holding? || (p.Upd? && (p.u.Building? || p.u.Aborted?)) }

  function Before(n: nat, i: nat): nat { if i < n then n - i else 0 }

  // The number of its own steps after which a thread rests at the latest.
  function Ahead(p: PC, n: nat): nat {
    match p
    case Idle => 0
    case Holding(_, _) => 0
    case Acq(a) => AcquireAhead(a)
    case Rel(r) => ReleaseAhead(r, n)
    case Upd(u) => UpdateAhead(u, n)
  }

  function AcquireAhead(a: AcqPC): nat {
    match a
    case LoadCur => 8
    case CasAnn(_, _, round) => if round == 0 then 7 else 5
    case Reload(_, round) => if round == 0 then 6 else 4
    case Commit(_) => 3
    case GetIndex => 2
    case GetRoot(_) => 1
  }

  function ReleaseAhead(r: RelPC, n: nat): nat {
    match r
    case LoadAnn => 3 * n + 12
    case Clear(_) => 3 * n + 11
    case CheckCur(_) => 3 * n + 10
    case LoadStat(_) => 3 * n + 9
    case CasPending(_) => 3 * n + 8
    case Help(_, i) => 2 * Before(n, i) + n + 7
    case HelpCas(_, i) => 2 * Before(n, i) + n + 6
    case Freeze(_) => n + 6
    case Scan(_, i) => Before(n, i) + 5
    case CasEmpty(_) => 4
    case LoadRoot(_) => 3
    case ReloadRoot(_, _) => 2
    case CasRoot(_, _) => 1
  }

  function UpdateAhead(u: UpdPC, n: nat): nat {
    match u
    case LoadCurrent => 4
    case StoreAnn(_) => 3
    case CurIndex => 2
    case BaseRoot(_) => 1
    case Building(_, _) => 0
    case FindSlot(i, _) => Before(n, i) + 10 * n + 17
    case StoreStat(_, _) => 10 * n + 16
    case StoreSlot(_, _) => 10 * n + 15
    case StoreCur(_, _) => 10 * n + 14
    case HelpLoad(i, j, _) => HelpAhead(n, i, j)
    case HelpSet(i, j, _, _) => HelpAhead(n, i, j + 1) + 1
    case Aborted => 0
  }

  function HelpAhead(n: nat, i: nat, j: nat): nat {
    if i >= n then 3 * n + 13 else 3 * n + 13 + 7 * (n - i) - 2 * (if j < 3 then j else 3)
  }

  lemma AcquireShrinks(s: State, t: nat, a: AcqPC)
    requires s.Shape() && t < s.N() && s.pc[t] == Acq(a)
    ensures Ahead(AcquireStep(s, t, a).pc[t], s.N()) < AcquireAhead(a)
    ensures AcquireStep(s, t, a).pc[t].Acq? || AcquireStep(s, t, a).pc[t].Holding?
  {
  }

  lemma ReleaseShrinks(s: State, t: nat, r: RelPC)
    requires s.Shape() && t < s.N() && (r.Freeze? ==> r.v.idx < s.N()) && (r.HelpCas? ==> r.i < s.N())
    ensures Ahead(ReleaseStep(s, t, r).pc[t], s.N()) < ReleaseAhead(r, s.N())
    ensures ReleaseStep(s, t, r).pc[t].Rel? || ReleaseStep(s, t, r).pc[t].Idle?
  {
  }

  lemma HelpShrinks(s: State, t: nat, u: UpdPC, c: Choice)
    requires s.Shape() && t < s.N() && s.pc[t] == Upd(u) && (u.HelpLoad? || u.HelpSet?)
    ensures Ahead(UpdateStep(s, t, u, c).pc[t], s.N()) < UpdateAhead(u, s.N())
  {
  }

  lemma WriteShrinks(s: State, t: nat, u: UpdPC, c: Choice)
    requires s.Shape() && t < s.N() && s.pc[t] == Upd(u) && !Resting(s.pc[t]) && !u.HelpLoad? && !u.HelpSet?
    requires (u.StoreStat? || u.StoreSlot?) ==> u.newVer.idx < s.N()
    ensures Ahead(UpdateStep(s, t, u, c).pc[t], s.N()) < UpdateAhead(u, s.N())
  {
  }

  lemma UpdateShrinks(s: State, t: nat, u: UpdPC, c: Choice)
    requires s.Shape() && t < s.N() && s.pc[t] == Upd(u) && !Resting(s.pc[t])
    requires (u.StoreStat? || u.StoreSlot?) ==> u.newVer.idx < s.N()
    ensures Ahead(UpdateStep(s, t, u, c).pc[t], s.N()) < UpdateAhead(u, s.N())
  {
    hide UpdateStep, Ahead, UpdateAhead;
    if u.HelpLoad? || u.HelpSet? { HelpShrinks(s, t, u, c); } else { WriteShrinks(s, t, u, c); }
  }

  lemma NotStuck(s: State, t: nat)
    requires Inv(s) && t < s.N()
    ensures s.pc[t].Rel? && s.pc[t].r.Freeze? ==> s.pc[t].r.v.idx < s.N()
    ensures s.pc[t].Rel? && s.pc[t].r.HelpCas? ==> s.pc[t].r.i < s.N()
    ensures s.pc[t].Upd? && (s.pc[t].u.StoreStat? || s.pc[t].u.StoreSlot?) ==> s.pc[t].u.newVer.idx < s.N()
  {
    hide HistoryInv, AcquireInv, SlotInv, Exclusive;
    assert ThreadInv(s, t);
  }

  // Each step of its own brings a thread closer to rest; other threads' steps leave it where it is.
  lemma StepShrinks(s: State, x: nat, c: Choice, t: nat)
    requires Inv(s) && t < s.N() && !Resting(s.pc[t])
    ensures if x == t then Ahead(Step(s, x, c).pc[t], s.N()) < Ahead(s.pc[t], s.N()) else Step(s, x, c).pc[t] == s.pc[t]
  {
    NotStuck(s, t);
    hide Inv;
    if x == t {
      match s.pc[t]
      case Acq(a) => AcquireShrinks(s, t, a);
      case Rel(r) => ReleaseShrinks(s, t, r);
      case Upd(u) => UpdateShrinks(s, t, u, c);
    } else if x < s.N() {
      if s.pc[x].Upd? { UpdateQuiet(s, x, s.pc[x].u, c); } else { QuietStep(s, x, c); }
    }
  }

  function StepsOf(schedule: Schedule, t: nat): nat {
    if schedule == [] then 0 else StepsOf(schedule[1..], t) + if schedule[0].0 == t then 1 else 0
  }

  lemma RunNone(s: State, schedule: Schedule)
    requires s.Shape()
    ensures Run(s, schedule[..0]) == s
  {
  }

  // One step first, then the next m of the schedule.
  lemma RunSome(s: State, schedule: Schedule, m: nat)
    requires s.Shape() && m < |schedule|
    ensures
      var e := schedule[0];
      Run(s, schedule[..m + 1]) == Run(Step(s, e.0, e.1), schedule[1..][..m])
  {
    assert schedule[..m + 1][1..] == schedule[1..][..m];
  }

  lemma StepsFewer(schedule: Schedule, t: nat)
    requires schedule != []
    ensures StepsOf(schedule, t) == StepsOf(schedule[1..], t) + if schedule[0].0 == t then 1 else 0
  {
  }

  lemma NoSteps(t: nat)
    ensures StepsOf([], t) == 0
  {
  }

  lemma {:induction false} RestsWithin(s: State, schedule: Schedule, t: nat) returns (m: nat)
    requires Inv(s) && t < s.N() && StepsOf(schedule, t) >= Ahead(s.pc[t], s.N())
    ensures m <= |schedule| && Resting(Run(s, schedule[..m]).pc[t])
    decreases |schedule|
  {
    hide Run, Ahead, StepsOf;
    if Resting(s.pc[t]) {
      m := 0;
      RunNone(s, schedule);
    } else {
      AheadPositive(s.pc[t], s.N());
      NoSteps(t);
      StepsFewer(schedule, t);
      var x, c := schedule[0].0, schedule[0].1;
      StepShrinks(s, x, c, t);
      StepKeeps(s, x, c);
      hide Inv, Step, Resting;
      m := RestsWithin(Step(s, x, c), schedule[1..], t);
      RunSome(s, schedule, m);
      m := m + 1;
    }
  }

  lemma AheadPositive(p: PC, n: nat)
    requires !Resting(p)
    ensures Ahead(p, n) > 0
  {
  }

  // Wherever a run has brought thread t, after a number of its own steps that only depends on its place and
  // on the number of threads it rests, whatever the other threads do in between.
  lemma WaitFreedom(n: nat, root: nat, before: Schedule, after: Schedule, t: nat) returns (m: nat)
    requires n > 0 && root != 0 && t < n
    requires StepsOf(after, t) >= Ahead(Run(Initial(n, root), before).pc[t], n)
    ensures m <= |after| && Resting(Run(Run(Initial(n, root), before), after[..m]).pc[t])
  {
    InitialInv(n, root);
    RunKeeps(Initial(n, root), before);
    m := RestsWithin(Run(Initial(n, root), before), after, t);
  }

  lemma AcquireGoesOn(s: State, t: nat, c: Choice)
    requires s.Shape() && t < s.N() && s.pc[t].Acq?
    ensures Step(s, t, c).pc[t].Acq? || Step(s, t, c).pc[t].Holding?
  {
    AcquireShrinks(s, t, s.pc[t].a);
  }

  // Nine steps of its own, counted from Idle, bring an acquiring thread to its snapshot.
  lemma {:induction false} AcquireEnds(s: State, schedule: Schedule, t: nat) returns (m: nat)
    requires Inv(s) && t < s.N() && s.pc[t].Acq? && StepsOf(schedule, t) >= Ahead(s.pc[t], s.N())
    ensures m <= |schedule| && Run(s, schedule[..m]).pc[t].Holding?
    decreases |schedule|
  {
    hide Run, Ahead, StepsOf;
    AheadPositive(s.pc[t], s.N());
    NoSteps(t);
    StepsFewer(schedule, t);
    var x, c := schedule[0].0, schedule[0].1;
    AcquireGoesOn(s, t, c);
    StepShrinks(s, x, c, t);
    StepKeeps(s, x, c);
    hide Inv, Step;
    if x == t && Step(s, x, c).pc[t].Holding? {
      m := 0;
      RunNone(Step(s, x, c), schedule[1..]);
    } else {
      m := AcquireEnds(Step(s, x, c), schedule[1..], t);
    }
    RunSome(s, schedule, m);
    m := m + 1;
  }

  lemma AcquireInNineSteps(n: nat, root: nat, before: Schedule, after: Schedule, t: nat) returns (m: nat)
    requires n > 0 && root != 0 && t < n && Run(Initial(n, root), before).pc[t].Idle?
    requires after != [] && after[0] == (t, Acquire) && StepsOf(after, t) >= 9
    ensures m <= |after| && Run(Run(Initial(n, root), before), after[..m]).pc[t].Holding?
  {
    InitialInv(n, root);
    RunKeeps(Initial(n, root), before);
    var s := Run(Initial(n, root), before);
    StepKeeps(s, t, Acquire);
    hide Inv;
    m := AcquireEnds(Step(s, t, Acquire), after[1..], t);
    m := m + 1;
    assert after[..m][1..] == after[1..][..m - 1];
  }
}
