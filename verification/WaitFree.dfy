// The wait-free version maintenance protocol
// (comparison_systems/aspen/code/graph/versioned_graph_waitfree.h) as a state machine.
// One step is one access to shared memory: a load, a store or a compare-and-swap.
module WaitFree {

  datatype Ver = Ver(idx: nat, ts: nat)
  // A packed word of versioning_utils.h (see VersionWords): a version and a flag.
  datatype Word = Word(ver: Ver, flag: nat)

  const EMPTY_VER := Ver(154, 0)
  const EMPTY := Word(EMPTY_VER, 0)

  // Flags of tdata[i].stat.
  const USABLE := 0
  const PENDING := 1
  const FROZEN := 2

  // Where a thread is, with its local variables. Each constructor names the next access.
  datatype PC =
    | Idle
    | Acq(a: AcqPC)
    | Holding(idx: nat, root: nat)
    | Rel(r: RelPC)
    | Upd(u: UpdPC)

  // acquire and acquire_version
  datatype AcqPC =
    | LoadCur
    | CasAnn(cur: Ver, prev: Word, round: nat)
    | Reload(cur: Ver, round: nat)
    | Commit(cur: Ver)
    | GetIndex
    | GetRoot(idx: nat)

  // release and collect
  datatype RelPC =
    | LoadAnn
    | Clear(v: Ver)
    | CheckCur(v: Ver)
    | LoadStat(v: Ver)
    | CasPending(v: Ver)
    | Help(v: Ver, i: nat)
    | HelpCas(v: Ver, i: nat)
    | Freeze(v: Ver)
    | Scan(v: Ver, i: nat)
    | CasEmpty(v: Ver)
    | LoadRoot(v: Ver)
    | ReloadRoot(v: Ver, node: nat)
    | CasRoot(v: Ver, node: nat)

  // acquire_update and set
  datatype UpdPC =
    | LoadCurrent
    | StoreAnn(cur: Ver)
    | CurIndex
    | BaseRoot(idx: nat)
    | Building(idx: nat, base: nat)
    | FindSlot(i: nat, root: nat)
    | StoreStat(root: nat, newVer: Ver)
    | StoreSlot(root: nat, newVer: Ver)
    | StoreCur(root: nat, newVer: Ver)
    | HelpLoad(i: nat, j: nat, newVer: Ver)
    | HelpSet(i: nat, j: nat, newVer: Ver, ann: Word)
    | Aborted

  // Pointers are natural numbers, with 0 for nullptr.
  datatype State = State(
    current: Ver,
    announce: seq<Word>,
    stat: seq<Word>,
    slot: seq<nat>,           // tdata[i].version
    pc: seq<PC>,
    writer: int,              // the thread inside the single-entry update, or -1
    rootOf: map<Ver, nat>,    // history: the root set installed for each version
    collected: multiset<Ver>, // history: one entry per successful collect
    began: seq<nat>)          // history: the current timestamp when the thread's acquire began
  {
    function N(): nat { |announce| }

    predicate Shape() {
      0 < N() == |stat| == |slot| == |pc| == |began| && -1 <= writer < N()
    }

    function Goto(t: nat, p: PC): State
      requires t < |pc|
    {
      this.(pc := pc[t := p])
    }

    function Announce(t: nat, w: Word): State
      requires t < |announce|
    {
      this.(announce := announce[t := w])
    }

    function SetStatus(k: nat, w: Word): State
      requires k < |stat|
    {
      this.(stat := stat[k := w])
    }
  }

  // What the environment may ask of an idle thread, and the tree root a finished batch hands to set.
  datatype Choice = Proceed | Acquire | Update | Install(root: nat)

  function Load<T>(s: seq<T>, i: nat, other: T): T {
    if i < |s| then s[i] else other
  }

  // acquire (lines 94-120) and acquire_version (lines 210-218).
  function AcquireStep(s: State, t: nat, a: AcqPC): (r: State)
    requires s.Shape() && t < s.N()
    ensures r.Shape() && r.N() == s.N()
  {
    match a
    case LoadCur => s.Goto(t, Acq(CasAnn(s.current, Word(EMPTY_VER, 1), 0)))
    case CasAnn(cur, prev, round) =>
      if s.announce[t] == prev then s.Announce(t, Word(cur, 1)).Goto(t, Acq(Reload(cur, round)))
      else s.Goto(t, Acq(GetIndex))
    case Reload(cur, round) =>
      if s.current == cur then s.Goto(t, Acq(Commit(cur)))
      else if round == 0 then s.Goto(t, Acq(CasAnn(s.current, Word(cur, 1), 1)))
      else s.Goto(t, Acq(GetIndex))
    case Commit(cur) =>
      if s.announce[t] == Word(cur, 1) then s.Announce(t, Word(cur, 0)).Goto(t, Acq(GetIndex))
      else s.Goto(t, Acq(GetIndex))
    case GetIndex => s.Goto(t, Acq(GetRoot(s.announce[t].ver.idx)))
    case GetRoot(idx) => s.Goto(t, Holding(idx, Load(s.slot, idx, 0)))
  }

  // release (lines 132-172) and collect (lines 43-53).
  function ReleaseStep(s: State, t: nat, r: RelPC): (s': State)
    requires s.Shape() && t < s.N()
    ensures s'.Shape() && s'.N() == s.N()
  {
    match r
    case LoadAnn => s.Goto(t, Rel(Clear(s.announce[t].ver)))
    case Clear(v) => s.Announce(t, EMPTY).Goto(t, Rel(CheckCur(v)))
    case CheckCur(v) => s.Goto(t, if v == s.current then Idle else Rel(LoadStat(v)))
    case LoadStat(v) =>
      var st := Load(s.stat, v.idx, EMPTY);
      s.Goto(t, if st.ver != v then Idle
                else if st.flag == USABLE then Rel(CasPending(v))
                else if st.flag == FROZEN then Rel(Scan(v, 0))
                else Idle)
    case CasPending(v) =>
      if v.idx < s.N() && s.stat[v.idx] == Word(v, USABLE) then
        s.SetStatus(v.idx, Word(v, PENDING)).Goto(t, Rel(Help(v, 0)))
      else s.Goto(t, Idle)
    case Help(v, i) =>
      if i >= s.N() then s.Goto(t, Rel(Freeze(v)))
      else if s.announce[i] == Word(v, 1) then s.Goto(t, Rel(RelPC.HelpCas(v, i)))
      else s.Goto(t, Rel(Help(v, i + 1)))
    case HelpCas(v, i) =>
      if i < s.N() && s.announce[i] == Word(v, 1) then
        s.Announce(i, Word(v, 0)).Goto(t, Rel(Help(v, i + 1)))
      else s.Goto(t, Rel(Help(v, i + 1)))
    case Freeze(v) =>
      if v.idx < s.N() then s.SetStatus(v.idx, Word(v, FROZEN)).Goto(t, Rel(Scan(v, 0))) else s
    case Scan(v, i) =>
      if i >= s.N() then s.Goto(t, Rel(CasEmpty(v)))
      else if s.announce[i] == Word(v, 0) then s.Goto(t, Idle)
      else s.Goto(t, Rel(Scan(v, i + 1)))
    case CasEmpty(v) =>
      if v.idx < s.N() && s.stat[v.idx] == Word(v, FROZEN) then
        s.SetStatus(v.idx, EMPTY).Goto(t, Rel(LoadRoot(v)))
      else s.Goto(t, Idle)
    case LoadRoot(v) => s.Goto(t, Rel(ReloadRoot(v, Load(s.slot, v.idx, 0))))
    case ReloadRoot(v, node) =>
      s.Goto(t, if Load(s.slot, v.idx, 0) == 0 then Idle else Rel(CasRoot(v, node)))
    case CasRoot(v, node) =>
      if v.idx < s.N() && s.slot[v.idx] == node then
        s.(slot := s.slot[v.idx := 0], collected := s.collected + multiset{v}).Goto(t, Idle)
      else s.Goto(t, Idle)
  }

  // acquire_update (lines 124-128) and set (lines 55-91), as one batch update runs them
  // (lines 232-257). The update is single-entry up to the end of set.
  function UpdateStep(s: State, t: nat, u: UpdPC, c: Choice): (r: State)
    requires s.Shape() && t < s.N()
    ensures r.Shape() && r.N() == s.N()
  {
    match u
    case LoadCurrent => s.Goto(t, Upd(StoreAnn(s.current)))
    case StoreAnn(cur) => s.Announce(t, Word(cur, 0)).Goto(t, Upd(CurIndex))
    case CurIndex => s.Goto(t, Upd(BaseRoot(s.current.idx)))
    case BaseRoot(idx) => s.Goto(t, Upd(Building(idx, Load(s.slot, idx, 0))))
    case Building(_, _) =>
      if c.Install? && c.root != 0 then s.Goto(t, Upd(FindSlot(0, c.root))) else s
    case FindSlot(i, root) =>
      if i >= s.N() then s.Goto(t, Upd(Aborted))
      else if s.slot[i] == 0 then s.Goto(t, Upd(StoreStat(root, Ver(i, s.current.ts + 1))))
      else s.Goto(t, Upd(FindSlot(i + 1, root)))
    case StoreStat(root, newVer) =>
      if newVer.idx < s.N() then
        s.SetStatus(newVer.idx, Word(newVer, USABLE)).Goto(t, Upd(StoreSlot(root, newVer)))
      else s
    case StoreSlot(root, newVer) =>
      if newVer.idx < s.N() then
        s.(slot := s.slot[newVer.idx := root], rootOf := s.rootOf[newVer := root])
        .Goto(t, Upd(StoreCur(root, newVer)))
      else s
    case StoreCur(root, newVer) => s.(current := newVer).Goto(t, Upd(HelpLoad(0, 0, newVer)))
    case HelpLoad(i, j, newVer) =>
      if i >= s.N() then s.(writer := -1).Goto(t, Rel(LoadAnn))
      else if j >= 3 then s.Goto(t, Upd(HelpLoad(i + 1, 0, newVer)))
      else if s.announce[i].flag != 0 then s.Goto(t, Upd(HelpSet(i, j, newVer, s.announce[i])))
      else s.Goto(t, Upd(HelpLoad(i, j + 1, newVer)))
    case HelpSet(i, j, newVer, ann) =>
      if i < s.N() && s.announce[i] == ann then
        s.Announce(i, Word(newVer, 0)).Goto(t, Upd(HelpLoad(i, j + 1, newVer)))
      else s.Goto(t, Upd(HelpLoad(i, j + 1, newVer)))
    case Aborted => s
  }

  // One step of thread t. A thread that may not move leaves the state as it is.
  function Step(s: State, t: nat, c: Choice): (r: State)
    requires s.Shape()
    ensures r.Shape() && r.N() == s.N()
  {
    if t >= s.N() then s else
    match s.pc[t]
    case Idle =>
      if c.Acquire? then
        s.(began := s.began[t := s.current.ts]).Announce(t, Word(EMPTY_VER, 1)).Goto(t, Acq(LoadCur))
      else if c.Update? && s.writer == -1 then
        s.(writer := t, began := s.began[t := s.current.ts]).Goto(t, Upd(LoadCurrent))
      else s
    case Acq(a) => AcquireStep(s, t, a)
    case Holding(_, _) => ReleaseStep(s, t, LoadAnn)
    case Rel(r) => ReleaseStep(s, t, r)
    case Upd(u) => UpdateStep(s, t, u, c)
  }

  // A run: any interleaving of the threads, one access at a time.
  function Run(s: State, schedule: seq<(nat, Choice)>): (r: State)
    requires s.Shape()
    ensures r.Shape() && r.N() == s.N()
    decreases |schedule|
  {
    if schedule == [] then s
    else Run(Step(s, schedule[0].0, schedule[0].1), schedule[1..])
  }

  // What the constructors leave (lines 176-204): slot 0 holds the first root with timestamp 1.
  function Initial(n: nat, root: nat): State
    requires n > 0
  {
    var v := Ver(0, 1);
    State(v,
          seq(n, _ => EMPTY),
          seq(n, k => if k == 0 then Word(v, USABLE) else EMPTY),
          seq(n, k => if k == 0 then root else 0),
          seq(n, _ => Idle), -1, map[v := root], multiset{}, seq(n, _ => 0))
  }
}
