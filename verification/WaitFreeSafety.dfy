// Safety of the wait-free protocol over every run: committed announcements protect their
// slot, every version is collected at most once, and acquire never returns uncommitted.
module WaitFreeSafety {
  import opened WaitFree

  // Version u is installed in its slot and has not been reclaimed.
  predicate Held(s: State, u: Ver)
    requires s.Shape()
  {
    && u.idx < s.N()
    && 1 <= u.ts <= s.current.ts
    && s.stat[u.idx].ver == u
    && u in s.rootOf && s.slot[u.idx] == s.rootOf[u] != 0
  }

  // Thread t announces, with flag 0, a version that was current at or after its acquire began.
  predicate Committed(s: State, t: nat)
    requires s.Shape() && t < s.N()
  {
    && s.announce[t].flag == 0
    && Held(s, s.announce[t].ver)
    && s.began[t] <= s.announce[t].ver.ts
  }

  // Thread p is between winning the PENDING status of v and storing FROZEN.
  predicate Freezes(p: PC, v: Ver) {
    p.Rel? && (p.r.Help? || p.r.HelpCas? || p.r.Freeze?) && p.r.v == v
  }

  // Thread p is between winning the reclaim of slot k and emptying it.
  predicate Collects(p: PC, k: nat) {
    p.Rel? && (p.r.LoadRoot? || p.r.ReloadRoot? || p.r.CasRoot?) && p.r.v.idx == k
  }

  // A freezing thread has not yet inspected thread t.
  predicate FreezeAhead(p: PC, t: nat) {
    p.Rel? && (p.r.Help? || p.r.HelpCas?) && p.r.i <= t
  }

  // An uncommitted announcement of c by thread t that is about to be committed cannot be missed.
  ghost predicate Protected(s: State, t: nat, c: Ver)
    requires s.Shape() && t < s.N()
  {
    && Held(s, c)
    && s.stat[c.idx].flag != FROZEN
    && forall f: nat :: f < s.N() && Freezes(s.pc[f], c) ==> FreezeAhead(s.pc[f], t)
  }

  // The writer at step p will still complete an attempt on thread t's word that the thread,
  // with `moves` announcement changes left to make, cannot spoil.
  predicate HelpComing(p: PC, t: nat, word: Word, moves: nat) {
    p.Upd? &&
    match p.u
    case HelpLoad(i, j, _) => i < t || (i == t && j + moves < 3)
    case HelpSet(i, j, _, ann) =>
      i < t || (i == t && (if ann == word then j else j + 1) + moves < 3)
    case _ => false
  }

  // A reader that saw current_version change is either committed or about to be helped.
  predicate Helped(s: State, t: nat, cur: Ver, round: nat, moves: nat)
    requires s.Shape() && t < s.N()
  {
    s.announce[t].flag != 0 && (round == 1 || cur != s.current) ==>
      && (round == 1 ==> cur == s.current)
      && s.writer >= 0 && HelpComing(s.pc[s.writer], t, s.announce[t], moves)
  }

  predicate Seen(s: State, t: nat, cur: Ver)
    requires s.Shape() && t < s.N()
  {
    s.began[t] <= cur.ts <= s.current.ts
  }

  ghost predicate AcquireInv(s: State, t: nat, a: AcqPC)
    requires s.Shape() && t < s.N()
  {
    var ann := s.announce[t];
    match a
    case LoadCur => ann == Word(EMPTY_VER, 1) || Committed(s, t)
    case CasAnn(cur, prev, round) =>
      && Seen(s, t, cur) && round <= 1 && prev.flag == 1
      && (prev.ver == EMPTY_VER || Seen(s, t, prev.ver))
      && (ann == prev || Committed(s, t))
      && Helped(s, t, cur, round, 2 - round)
    case Reload(cur, round) =>
      && Seen(s, t, cur) && round <= 1
      && (ann == Word(cur, 1) || Committed(s, t))
      && Helped(s, t, cur, round, 1 - round)
    case Commit(cur) =>
      && Seen(s, t, cur)
      && ((ann == Word(cur, 1) && Protected(s, t, cur)) || Committed(s, t))
    case GetIndex => Committed(s, t)
    case GetRoot(idx) => Committed(s, t) && ann.ver.idx == idx
  }

  predicate HoldingInv(s: State, t: nat, idx: nat, root: nat)
    requires s.Shape() && t < s.N()
  {
    Committed(s, t) && s.announce[t].ver.idx == idx && root == s.rootOf[s.announce[t].ver]
  }

  // v was current once and is no longer.
  predicate Retired(s: State, v: Ver)
    requires s.Shape()
  {
    v.idx < s.N() && 1 <= v.ts <= s.current.ts && v != s.current
  }

  predicate Pending(s: State, v: Ver)
    requires s.Shape()
  {
    Retired(s, v) && s.stat[v.idx] == Word(v, PENDING)
  }

  // v is frozen, or already reclaimed; if frozen, the first i announcements are not v.
  predicate Scanned(s: State, v: Ver, i: nat)
    requires s.Shape()
  {
    && Retired(s, v)
    && (s.stat[v.idx].ver == v ==>
          && s.stat[v.idx].flag == FROZEN
          && forall j: nat :: j < i && j < s.N() ==> s.announce[j] != Word(v, 0))
  }

  // v is reclaimed and its root is still to be collected.
  predicate Reclaiming(s: State, v: Ver)
    requires s.Shape()
  {
    && Retired(s, v) && s.stat[v.idx] == EMPTY && v !in s.collected
    && v in s.rootOf && s.slot[v.idx] == s.rootOf[v] != 0
  }

  predicate ReleaseInv(s: State, t: nat, r: RelPC)
    requires s.Shape() && t < s.N()
  {
    match r
    case LoadAnn => Committed(s, t)
    case Clear(v) => Committed(s, t) && s.announce[t].ver == v
    case CheckCur(v) => v.idx < s.N() && 1 <= v.ts <= s.current.ts
    case LoadStat(v) => Retired(s, v)
    case CasPending(v) => Retired(s, v)
    case Help(v, _) => Pending(s, v)
    case HelpCas(v, i) => Pending(s, v) && i < s.N()
    case Freeze(v) => Pending(s, v)
    case Scan(v, i) => Scanned(s, v, i)
    case CasEmpty(v) => Scanned(s, v, s.N())
    case LoadRoot(v) => Reclaiming(s, v)
    case ReloadRoot(v, node) => Reclaiming(s, v) && node == s.rootOf[v]
    case CasRoot(v, node) => Reclaiming(s, v) && node == s.rootOf[v]
  }

  // The version about to be installed goes to an empty slot.
  predicate Fresh(s: State, v: Ver)
    requires s.Shape()
  {
    v.idx < s.N() && v.ts == s.current.ts + 1 && s.slot[v.idx] == 0
  }

  predicate UpdateInv(s: State, t: nat, u: UpdPC)
    requires s.Shape() && t < s.N()
  {
    var mine := s.announce[t] == Word(s.current, 0) && s.began[t] <= s.current.ts;
    match u
    case LoadCurrent => s.began[t] <= s.current.ts
    case StoreAnn(cur) => cur == s.current && s.began[t] <= s.current.ts
    case CurIndex => mine
    case BaseRoot(idx) => mine && idx == s.current.idx
    case Building(idx, base) =>
      mine && idx == s.current.idx && s.current in s.rootOf && base == s.rootOf[s.current]
    case FindSlot(_, root) => mine && root != 0
    case StoreStat(root, newVer) => mine && root != 0 && Fresh(s, newVer) && s.stat[newVer.idx] == EMPTY
    case StoreSlot(root, newVer) =>
      mine && root != 0 && Fresh(s, newVer) && s.stat[newVer.idx] == Word(newVer, USABLE)
    case StoreCur(root, newVer) =>
      && mine && root != 0 && newVer.idx < s.N() && newVer.ts == s.current.ts + 1
      && s.stat[newVer.idx] == Word(newVer, USABLE) && newVer in s.rootOf
      && s.slot[newVer.idx] == s.rootOf[newVer] == root
    case HelpLoad(_, _, newVer) => Committed(s, t) && newVer == s.current
    case HelpSet(i, _, newVer, ann) => Committed(s, t) && newVer == s.current && i < s.N() && ann.flag != 0
    case Aborted => Committed(s, t)
  }

  // Threads in release that announce nothing.
  predicate Quiet(r: RelPC) { !r.LoadAnn? && !r.Clear? }

  ghost predicate ThreadInv(s: State, t: nat)
    requires s.Shape() && t < s.N()
  {
    && (s.pc[t].Upd? <==> s.writer == t)
    && match s.pc[t]
       case Idle => s.announce[t] == EMPTY
       case Acq(a) => AcquireInv(s, t, a) && s.began[t] <= s.current.ts
       case Holding(idx, root) => HoldingInv(s, t, idx, root)
       case Rel(r) => ReleaseInv(s, t, r) && (Quiet(r) ==> s.announce[t] == EMPTY)
       case Upd(u) => UpdateInv(s, t, u) && (u.LoadCurrent? || u.StoreAnn? ==> s.announce[t] == EMPTY)
  }

  // The writer has published the stat word of v but not yet its root.
  predicate Filling(s: State, v: Ver)
    requires s.Shape()
  {
    s.writer >= 0 && s.pc[s.writer].Upd? && s.pc[s.writer].u.StoreSlot? && s.pc[s.writer].u.newVer == v
    && v.ts == s.current.ts + 1
  }

  // The writer has filled the slot of v but not yet made it current.
  predicate Installing(s: State, v: Ver)
    requires s.Shape()
  {
    s.writer >= 0 && s.pc[s.writer].Upd? && s.pc[s.writer].u.StoreCur? && s.pc[s.writer].u.newVer == v
  }

  predicate Installed(s: State, v: Ver)
    requires s.Shape()
  {
    1 <= v.ts && (v.ts <= s.current.ts || Installing(s, v))
  }

  predicate SlotInv(s: State, k: nat)
    requires s.Shape() && k < s.N()
  {
    var w := s.stat[k];
    if w.ver == EMPTY_VER then w.flag == 0
    else
      && w.ver.idx == k && w.flag <= FROZEN && w.ver !in s.collected
      && (w.flag != USABLE ==> w.ver != s.current)
      && if s.slot[k] == 0 then Filling(s, w.ver)
         else w.ver in s.rootOf && s.rootOf[w.ver] == s.slot[k] && Installed(s, w.ver)
  }

  // No two threads freeze the same version or reclaim the same slot.
  predicate Apart(p: PC, q: PC) {
    p.Rel? ==>
      && (p.r.Help? || p.r.HelpCas? || p.r.Freeze? ==> !Freezes(q, p.r.v))
      && (p.r.LoadRoot? || p.r.ReloadRoot? || p.r.CasRoot? ==> !Collects(q, p.r.v.idx))
  }

  ghost predicate Exclusive(s: State)
    requires s.Shape()
  {
    forall f: nat, g: nat {:trigger Apart(s.pc[f], s.pc[g])} ::
      f < s.N() && g < s.N() && f != g ==> Apart(s.pc[f], s.pc[g])
  }

  ghost predicate HistoryInv(s: State)
    requires s.Shape()
  {
    && s.current.ts >= 1 && Held(s, s.current)
    && (forall v <- s.rootOf :: s.rootOf[v] != 0 && Installed(s, v))
    && (forall v <- s.collected :: v in s.rootOf && v != s.current)
    && (forall v :: s.collected[v] <= 1)
  }

  ghost predicate Inv(s: State) {
    && s.Shape()
    && HistoryInv(s)
    && (forall k: nat :: k < s.N() ==> SlotInv(s, k))
    && (forall t: nat :: t < s.N() ==> ThreadInv(s, t))
    && Exclusive(s)
  }

  lemma InitialInv(n: nat, root: nat)
    requires n > 0 && root != 0
    ensures Inv(Initial(n, root))
  {
  }

  // ---- Thread t moves to p: what the other threads rely on ----

  predicate PromiseKept(p: PC, q: PC, u: nat, word: Word) {
    && (HelpComing(p, u, word, 0) ==> HelpComing(q, u, word, 0))
    && (HelpComing(p, u, word, 1) ==> HelpComing(q, u, word, 1))
    && (HelpComing(p, u, word, 2) ==> HelpComing(q, u, word, 2))
  }

  predicate Freezing(p: PC) { p.Rel? && (p.r.Help? || p.r.HelpCas? || p.r.Freeze?) }

  predicate Collecting(p: PC) { p.Rel? && (p.r.LoadRoot? || p.r.ReloadRoot? || p.r.CasRoot?) }

  // Moving t to p takes nothing from thread u: a freezing thread passes u only when u does not
  // announce (v, 1), and a helping writer keeps its promise to u.
  predicate Smooth(s: State, t: nat, p: PC, u: nat)
    requires s.Shape() && t < s.N() && u < s.N()
  {
    && (Freezing(p) ==>
          && Freezes(s.pc[t], p.r.v)
          && (FreezeAhead(s.pc[t], u) && !FreezeAhead(p, u) ==> s.announce[u] != Word(p.r.v, 1)))
    && (t == s.writer && s.announce[u].flag != 0 ==> PromiseKept(s.pc[t], p, u, s.announce[u]))
  }

  lemma ProtectedStays(s: State, s': State, t: nat, u: nat, c: Ver)
    requires s.Shape() && s'.Shape() && s'.N() == s.N() && t < s.N() && u < s.N()
    requires Protected(s, u, c) && Held(s', c) && s'.stat[c.idx].flag != FROZEN
    requires forall f: nat :: f < s.N() && f != t ==> s'.pc[f] == s.pc[f]
    requires Freezes(s'.pc[t], c) ==>
               FreezeAhead(s'.pc[t], u) || (Freezes(s.pc[t], c) && !FreezeAhead(s.pc[t], u))
    ensures Protected(s', u, c)
  {
    forall f: nat | f < s.N() && Freezes(s'.pc[f], c) ensures FreezeAhead(s'.pc[f], u) {
      if f != t { assert Freezes(s.pc[f], c); }
    }
  }

  // One announcement may change besides: i's, to w.
  predicate GoodWord(s: State, w: Word)
    requires s.Shape()
  {
    w == EMPTY || w.flag == 1 || (w.flag == 0 && Held(s, w.ver) && s.stat[w.ver.idx].flag != FROZEN)
  }

  function Move(s: State, i: nat, w: Word, t: nat, p: PC): State
    requires s.Shape() && t < s.N() && i < s.N()
  {
    s.Announce(i, w).Goto(t, p)
  }

  lemma MoveReader(s: State, i: nat, w: Word, t: nat, p: PC, u: nat)
    requires s.Shape() && t < s.N() && i < s.N() && u < s.N() && u != t && u != i
    requires ThreadInv(s, u) && (p.Upd? <==> s.writer == t) && Smooth(s, t, p, u)
    requires s.pc[u].Acq?
    ensures ThreadInv(Move(s, i, w, t, p), u)
  {
    hide Collects, HelpComing, HistoryInv;
    var s' := Move(s, i, w, t, p);
    if s.pc[u].a.Commit? {
      var c := s.pc[u].a.cur;
      if s.announce[u] == Word(c, 1) && Protected(s, u, c) {
        ProtectedStays(s, s', t, u, c);
      }
    }
  }

  lemma MoveRest(s: State, i: nat, w: Word, t: nat, p: PC, u: nat)
    requires s.Shape() && t < s.N() && i < s.N() && u < s.N() && u != t && u != i
    requires ThreadInv(s, u) && (p.Upd? <==> s.writer == t) && Smooth(s, t, p, u)
    requires !s.pc[u].Acq? && (GoodWord(s, w) || w == s.announce[i])
    ensures ThreadInv(Move(s, i, w, t, p), u)
  {
  }

  predicate Publishing(p: PC) { p.Upd? && (p.u.StoreSlot? || p.u.StoreCur?) }

  lemma MoveMemory(s: State, i: nat, w: Word, t: nat, p: PC)
    requires Inv(s) && t < s.N() && i < s.N() && !Publishing(s.pc[t])
    ensures var s' := Move(s, i, w, t, p);
            HistoryInv(s') && forall k: nat :: k < s.N() ==> SlotInv(s', k)
  {
    var s' := Move(s, i, w, t, p);
    forall k: nat | k < s.N() ensures SlotInv(s', k) {
      assert SlotInv(s, k);
    }
  }

  lemma MoveKeeps(s: State, i: nat, w: Word, t: nat, p: PC)
    requires Inv(s) && t < s.N() && i < s.N()
    requires p.Upd? == s.pc[t].Upd? && !Publishing(s.pc[t])
    requires ThreadInv(Move(s, i, w, t, p), t) && ThreadInv(Move(s, i, w, t, p), i)
    requires GoodWord(s, w) || w == s.announce[i]
    requires forall u: nat :: u < s.N() && u != t && u != i ==> Smooth(s, t, p, u)
    requires (Freezing(p) ==> Freezes(s.pc[t], p.r.v)) && (Collecting(p) ==> Collects(s.pc[t], p.r.v.idx))
    ensures Inv(Move(s, i, w, t, p))
  {
    var s' := Move(s, i, w, t, p);
    MoveMemory(s, i, w, t, p);
    ApartKept(s, t, p);
    assert ThreadInv(s, t);
    forall u: nat | u < s.N() ensures ThreadInv(s', u) {
      if u != t && u != i {
        assert ThreadInv(s, u) && Smooth(s, t, p, u);
        if s.pc[u].Acq? { MoveReader(s, i, w, t, p, u); } else { MoveRest(s, i, w, t, p, u); }
      }
    }
  }

  lemma ApartKept(s: State, t: nat, p: PC)
    requires Inv(s) && t < s.N()
    requires Freezing(p) ==> Freezes(s.pc[t], p.r.v)
    requires Collecting(p) ==> Collects(s.pc[t], p.r.v.idx)
    ensures Exclusive(s.Goto(t, p))
  {
    var s' := s.Goto(t, p);
    forall f: nat, g: nat | f < s.N() && g < s.N() && f != g ensures Apart(s'.pc[f], s'.pc[g]) {
      assert Apart(s.pc[f], s.pc[g]) && Apart(s.pc[g], s.pc[f]);
    }
  }

  // ---- acquire ----

  // Nobody freezes the current version, so an announcement of it is protected.
  lemma CurrentProtected(s: State, t: nat)
    requires Inv(s) && t < s.N()
    ensures Protected(s, t, s.current)
  {
    assert SlotInv(s, s.current.idx);
    forall f: nat | f < s.N() ensures !Freezes(s.pc[f], s.current) {
      assert ThreadInv(s, f);
    }
  }

  lemma CasAnnOwn(s: State, t: nat, a: AcqPC)
    requires Inv(s) && t < s.N() && s.pc[t] == Acq(a) && (a.LoadCur? || a.CasAnn?)
    ensures ThreadInv(AcquireStep(s, t, a), t)
  {
    assert ThreadInv(s, t);
  }

  lemma ReloadOwn(s: State, t: nat, a: AcqPC)
    requires Inv(s) && t < s.N() && s.pc[t] == Acq(a) && a.Reload?
    ensures ThreadInv(AcquireStep(s, t, a), t)
  {
    assert ThreadInv(s, t);
    if s.current == a.cur {
      CurrentProtected(s, t);
      ProtectedStays(s, AcquireStep(s, t, a), t, t, a.cur);
    }
  }

  lemma CommitOwn(s: State, t: nat, a: AcqPC)
    requires Inv(s) && t < s.N() && s.pc[t] == Acq(a) && (a.Commit? || a.GetIndex? || a.GetRoot?)
    ensures ThreadInv(AcquireStep(s, t, a), t)
  {
    assert ThreadInv(s, t);
  }

  lemma AcquireWord(s: State, t: nat, a: AcqPC)
    requires Inv(s) && t < s.N() && s.pc[t] == Acq(a)
    ensures var s' := AcquireStep(s, t, a);
            s' == Move(s, t, s'.announce[t], t, s'.pc[t]) && !s'.pc[t].Rel? && !s'.pc[t].Upd? &&
            (GoodWord(s, s'.announce[t]) || s'.announce[t] == s.announce[t])
  {
    assert ThreadInv(s, t);
  }

  lemma AcquireKeeps(s: State, t: nat, a: AcqPC)
    requires Inv(s) && t < s.N() && s.pc[t] == Acq(a)
    ensures Inv(AcquireStep(s, t, a))
  {
    var s' := AcquireStep(s, t, a);
    assert ThreadInv(s, t);
    if a.LoadCur? || a.CasAnn? { CasAnnOwn(s, t, a); }
    else if a.Reload? { ReloadOwn(s, t, a); }
    else { CommitOwn(s, t, a); }
    AcquireWord(s, t, a);
    MoveKeeps(s, t, s'.announce[t], t, s'.pc[t]);
  }

  // ---- release: the steps that leave the slots alone ----

  lemma LeaveKeeps(s: State, t: nat, r: RelPC)
    requires Inv(s) && t < s.N() && (s.pc[t] == Rel(r) || (s.pc[t].Holding? && r.LoadAnn?))
    requires r.LoadAnn? || r.Clear? || r.CheckCur?
    ensures Inv(ReleaseStep(s, t, r))
  {
    hide AcquireInv;
    var s' := ReleaseStep(s, t, r);
    assert ThreadInv(s, t);
    assert s' == Move(s, t, s'.announce[t], t, s'.pc[t]);
    MoveKeeps(s, t, s'.announce[t], t, s'.pc[t]);
  }

  lemma LoadStatKeeps(s: State, t: nat, r: RelPC)
    requires Inv(s) && t < s.N() && s.pc[t] == Rel(r) && r.LoadStat?
    ensures Inv(ReleaseStep(s, t, r))
  {
    var s' := ReleaseStep(s, t, r);
    assert ThreadInv(s, t) && SlotInv(s, r.v.idx);
    assert s' == Move(s, t, s.announce[t], t, s'.pc[t]);
    MoveKeeps(s, t, s.announce[t], t, s'.pc[t]);
  }

  // The freezing thread visits announcement i.
  lemma HelpKeeps(s: State, t: nat, r: RelPC)
    requires Inv(s) && t < s.N() && s.pc[t] == Rel(r) && r.Help?
    ensures Inv(ReleaseStep(s, t, r))
  {
    hide AcquireInv;
    var s' := ReleaseStep(s, t, r);
    assert ThreadInv(s, t);
    assert s' == Move(s, t, s.announce[t], t, s'.pc[t]);
    MoveKeeps(s, t, s.announce[t], t, s'.pc[t]);
  }

  // A reader announcing (v, 1) becomes committed when someone replaces its word by a held version.
  lemma HelpedReader(s: State, i: nat, w: Word, t: nat, p: PC)
    requires Inv(s) && t < s.N() && i < s.N() && i != t
    requires s.announce[i].flag != 0 && w.flag == 0 && Held(s, w.ver) && s.began[i] <= w.ver.ts
    requires p.Upd? == s.pc[t].Upd?
    ensures ThreadInv(Move(s, i, w, t, p), i)
  {
    assert ThreadInv(s, i) && ThreadInv(s, t);
  }

  lemma HelpCasHit(s: State, t: nat, v: Ver, i: nat)
    requires Inv(s) && t < s.N() && s.pc[t] == Rel(RelPC.HelpCas(v, i)) && i < s.N()
    requires s.announce[i] == Word(v, 1)
    ensures Inv(Move(s, i, Word(v, 0), t, Rel(Help(v, i + 1))))
  {
    FrozenSoon(s, t, v, i);
    HelpedReader(s, i, Word(v, 0), t, Rel(Help(v, i + 1)));
    HelpDone(s, i, Word(v, 0), t);
    MoveKeeps(s, i, Word(v, 0), t, Rel(Help(v, i + 1)));
  }

  lemma HelpCasMiss(s: State, t: nat, v: Ver, i: nat)
    requires Inv(s) && t < s.N() && s.pc[t] == Rel(RelPC.HelpCas(v, i)) && i < s.N()
    requires s.announce[i] != Word(v, 1)
    ensures Inv(Move(s, t, s.announce[t], t, Rel(Help(v, i + 1))))
  {
    HelpDone(s, t, s.announce[t], t);
    assert ThreadInv(s, t);
    MoveKeeps(s, t, s.announce[t], t, Rel(Help(v, i + 1)));
  }

  lemma HelpCasKeeps(s: State, t: nat, r: RelPC)
    requires Inv(s) && t < s.N() && s.pc[t] == Rel(r) && r.HelpCas?
    ensures Inv(ReleaseStep(s, t, r))
  {
    var i, v := r.i, r.v;
    assert ThreadInv(s, t);
    if s.announce[i] == Word(v, 1) {
      HelpCasHit(s, t, v, i);
    } else {
      HelpCasMiss(s, t, v, i);
      assert Move(s, t, s.announce[t], t, Rel(Help(v, i + 1))) == s.Goto(t, Rel(Help(v, i + 1)));
    }
  }

  lemma HelpDone(s: State, i: nat, w: Word, t: nat)
    requires Inv(s) && t < s.N() && s.pc[t].Rel? && s.pc[t].r.HelpCas? && i < s.N()
    requires i != t || w == s.announce[t]
    ensures var r := s.pc[t].r; ThreadInv(Move(s, i, w, t, Rel(Help(r.v, r.i + 1))), t)
  {
    assert ThreadInv(s, t);
  }

  // The version being frozen is held, and current at or after the acquire of whoever announces it.
  lemma FrozenSoon(s: State, t: nat, v: Ver, i: nat)
    requires Inv(s) && t < s.N() && Freezes(s.pc[t], v) && i < s.N()
    ensures Held(s, v) && s.stat[v.idx] == Word(v, PENDING)
    ensures s.announce[i] == Word(v, 1) ==> s.began[i] <= v.ts && i != t
  {
    assert ThreadInv(s, t) && ThreadInv(s, i) && SlotInv(s, v.idx);
  }

  lemma ScanKeeps(s: State, t: nat, r: RelPC)
    requires Inv(s) && t < s.N() && s.pc[t] == Rel(r) && r.Scan?
    ensures Inv(ReleaseStep(s, t, r))
  {
    hide AcquireInv;
    var s' := ReleaseStep(s, t, r);
    assert ThreadInv(s, t);
    assert s' == Move(s, t, s.announce[t], t, s'.pc[t]);
    MoveKeeps(s, t, s.announce[t], t, s'.pc[t]);
  }

  lemma RootKeeps(s: State, t: nat, r: RelPC)
    requires Inv(s) && t < s.N() && s.pc[t] == Rel(r) && (r.LoadRoot? || r.ReloadRoot?)
    ensures Inv(ReleaseStep(s, t, r))
  {
    var s' := ReleaseStep(s, t, r);
    assert ThreadInv(s, t);
    assert s' == Move(s, t, s.announce[t], t, s'.pc[t]);
    MoveKeeps(s, t, s.announce[t], t, s'.pc[t]);
  }

  // A thread that announces nothing may stop.
  lemma StopKeeps(s: State, t: nat)
    requires Inv(s) && t < s.N() && s.pc[t].Rel? && Quiet(s.pc[t].r)
    ensures Inv(s.Goto(t, Idle))
  {
    assert ThreadInv(s, t);
    assert s.Goto(t, Idle) == Move(s, t, EMPTY, t, Idle);
    MoveKeeps(s, t, EMPTY, t, Idle);
  }

  // ---- release: the steps on the status word of v ----

  function Stamp(s: State, k: nat, w: Word, t: nat, p: PC): State
    requires s.Shape() && t < s.N() && k < s.N()
  {
    s.SetStatus(k, w).Goto(t, p)
  }

  lemma StampSlots(s: State, k: nat, w: Word, t: nat, p: PC)
    requires Inv(s) && t < s.N() && k < s.N() && s.pc[t].Rel?
    requires s.stat[k].ver != EMPTY_VER && s.stat[k].ver != s.current
    requires w == EMPTY || (w.ver == s.stat[k].ver && w.flag <= FROZEN)
    ensures var s' := Stamp(s, k, w, t, p);
            HistoryInv(s') && forall j: nat :: j < s.N() ==> SlotInv(s', j)
  {
    var s' := Stamp(s, k, w, t, p);
    assert ThreadInv(s, t);
    forall j: nat | j < s.N() ensures SlotInv(s', j) {
      assert SlotInv(s, j);
    }
  }

  lemma PendReader(s: State, v: Ver, t: nat, u: nat)
    requires Inv(s) && t < s.N() && u < s.N() && u != t && s.pc[t] == Rel(CasPending(v))
    requires v.idx < s.N() && s.stat[v.idx] == Word(v, USABLE) && s.pc[u].Acq?
    ensures ThreadInv(Stamp(s, v.idx, Word(v, PENDING), t, Rel(Help(v, 0))), u)
  {
    hide Freezes, Collects, HelpComing, ReleaseInv, HistoryInv;
    var s' := Stamp(s, v.idx, Word(v, PENDING), t, Rel(Help(v, 0)));
    assert ThreadInv(s, u) && ThreadInv(s, t);
    if s.pc[u].a.Commit? {
      var c := s.pc[u].a.cur;
      if s.announce[u] == Word(c, 1) && Protected(s, u, c) {
        ProtectedStays(s, s', t, u, c);
      }
    }
  }

  lemma PendRest(s: State, v: Ver, t: nat, u: nat)
    requires Inv(s) && t < s.N() && u < s.N() && s.pc[t] == Rel(CasPending(v))
    requires v.idx < s.N() && s.stat[v.idx] == Word(v, USABLE) && !s.pc[u].Acq?
    ensures ThreadInv(Stamp(s, v.idx, Word(v, PENDING), t, Rel(Help(v, 0))), u)
  {
    hide Collects, HistoryInv;
    assert ThreadInv(s, u) && ThreadInv(s, t);
  }

  lemma PendKeeps(s: State, v: Ver, t: nat)
    requires Inv(s) && t < s.N() && s.pc[t] == Rel(CasPending(v))
    requires v.idx < s.N() && s.stat[v.idx] == Word(v, USABLE)
    ensures Inv(Stamp(s, v.idx, Word(v, PENDING), t, Rel(Help(v, 0))))
  {
    var s' := Stamp(s, v.idx, Word(v, PENDING), t, Rel(Help(v, 0)));
    assert ThreadInv(s, t);
    StampSlots(s, v.idx, Word(v, PENDING), t, Rel(Help(v, 0)));
    forall u: nat | u < s.N() ensures ThreadInv(s', u) {
      if s.pc[u].Acq? { PendReader(s, v, t, u); } else { PendRest(s, v, t, u); }
    }
    forall f: nat, g: nat | f < s.N() && g < s.N() && f != g ensures Apart(s'.pc[f], s'.pc[g]) {
      assert Apart(s.pc[f], s.pc[g]) && Apart(s.pc[g], s.pc[f]);
      assert ThreadInv(s, f) && ThreadInv(s, g);
    }
  }

  lemma FreezeReader(s: State, v: Ver, t: nat, u: nat)
    requires Inv(s) && t < s.N() && u < s.N() && u != t && s.pc[t] == Rel(Freeze(v)) && v.idx < s.N()
    requires s.pc[u].Acq?
    ensures ThreadInv(Stamp(s, v.idx, Word(v, FROZEN), t, Rel(Scan(v, 0))), u)
  {
    hide Collects, HelpComing, HistoryInv;
    var s' := Stamp(s, v.idx, Word(v, FROZEN), t, Rel(Scan(v, 0)));
    assert ThreadInv(s, u) && ThreadInv(s, t);
    if s.pc[u].a.Commit? {
      var c := s.pc[u].a.cur;
      if s.announce[u] == Word(c, 1) && Protected(s, u, c) {
        assert Freezes(s.pc[t], v);
        ProtectedStays(s, s', t, u, c);
      }
    }
  }

  lemma FreezeRest(s: State, v: Ver, t: nat, u: nat)
    requires Inv(s) && t < s.N() && u < s.N() && s.pc[t] == Rel(Freeze(v)) && v.idx < s.N()
    requires !s.pc[u].Acq?
    ensures ThreadInv(Stamp(s, v.idx, Word(v, FROZEN), t, Rel(Scan(v, 0))), u)
  {
    hide Collects, HistoryInv;
    assert ThreadInv(s, u) && ThreadInv(s, t);
    assert u != t ==> Apart(s.pc[t], s.pc[u]);
  }

  lemma FreezeKeeps(s: State, v: Ver, t: nat)
    requires Inv(s) && t < s.N() && s.pc[t] == Rel(Freeze(v)) && v.idx < s.N()
    ensures Inv(Stamp(s, v.idx, Word(v, FROZEN), t, Rel(Scan(v, 0))))
  {
    var s' := Stamp(s, v.idx, Word(v, FROZEN), t, Rel(Scan(v, 0)));
    assert ThreadInv(s, t);
    StampSlots(s, v.idx, Word(v, FROZEN), t, Rel(Scan(v, 0)));
    forall u: nat | u < s.N() ensures ThreadInv(s', u) {
      if s.pc[u].Acq? { FreezeReader(s, v, t, u); } else { FreezeRest(s, v, t, u); }
    }
    ApartKept(s, t, Rel(Scan(v, 0)));
  }

  // Nobody announces a version whose reclaim is about to succeed.
  lemma ReclaimReader(s: State, v: Ver, t: nat, u: nat)
    requires Inv(s) && t < s.N() && u < s.N() && u != t && s.pc[t] == Rel(CasEmpty(v))
    requires v.idx < s.N() && s.stat[v.idx] == Word(v, FROZEN) && s.pc[u].Acq?
    ensures ThreadInv(Stamp(s, v.idx, EMPTY, t, Rel(LoadRoot(v))), u)
  {
    hide Collects, HelpComing, HistoryInv;
    var s' := Stamp(s, v.idx, EMPTY, t, Rel(LoadRoot(v)));
    assert ThreadInv(s, u) && ThreadInv(s, t);
    if s.pc[u].a.Commit? {
      var c := s.pc[u].a.cur;
      if s.announce[u] == Word(c, 1) && Protected(s, u, c) {
        ProtectedStays(s, s', t, u, c);
      }
    }
  }

  lemma ReclaimRest(s: State, v: Ver, t: nat, u: nat)
    requires Inv(s) && t < s.N() && u < s.N() && s.pc[t] == Rel(CasEmpty(v))
    requires v.idx < s.N() && s.stat[v.idx] == Word(v, FROZEN) && !s.pc[u].Acq?
    ensures ThreadInv(Stamp(s, v.idx, EMPTY, t, Rel(LoadRoot(v))), u)
  {
    hide Collects, HistoryInv;
    assert ThreadInv(s, u) && ThreadInv(s, t) && SlotInv(s, v.idx);
  }

  lemma ReclaimKeeps(s: State, v: Ver, t: nat)
    requires Inv(s) && t < s.N() && s.pc[t] == Rel(CasEmpty(v))
    requires v.idx < s.N() && s.stat[v.idx] == Word(v, FROZEN)
    ensures Inv(Stamp(s, v.idx, EMPTY, t, Rel(LoadRoot(v))))
  {
    var s' := Stamp(s, v.idx, EMPTY, t, Rel(LoadRoot(v)));
    assert ThreadInv(s, t);
    StampSlots(s, v.idx, EMPTY, t, Rel(LoadRoot(v)));
    forall u: nat | u < s.N() ensures ThreadInv(s', u) {
      if s.pc[u].Acq? { ReclaimReader(s, v, t, u); } else { ReclaimRest(s, v, t, u); }
    }
    forall f: nat, g: nat | f < s.N() && g < s.N() && f != g ensures Apart(s'.pc[f], s'.pc[g]) {
      assert Apart(s.pc[f], s.pc[g]) && Apart(s.pc[g], s.pc[f]);
      assert ThreadInv(s, f) && ThreadInv(s, g);
    }
  }

  // ---- collect: emptying the slot ----

  function Empty(s: State, v: Ver, t: nat): State
    requires s.Shape() && t < s.N() && v.idx < s.N()
  {
    s.(slot := s.slot[v.idx := 0], collected := s.collected + multiset{v}).Goto(t, Idle)
  }

  lemma EmptyReader(s: State, v: Ver, t: nat, u: nat)
    requires Inv(s) && t < s.N() && u < s.N() && u != t && v.idx < s.N()
    requires s.pc[t].Rel? && s.pc[t].r.CasRoot? && s.pc[t].r.v == v && s.pc[u].Acq?
    ensures ThreadInv(Empty(s, v, t), u)
  {
    hide Collects, HelpComing, HistoryInv;
    assert ThreadInv(s, u) && ThreadInv(s, t);
    if s.pc[u].a.Commit? {
      var c := s.pc[u].a.cur;
      if s.announce[u] == Word(c, 1) && Protected(s, u, c) {
        ProtectedStays(s, Empty(s, v, t), t, u, c);
      }
    }
  }

  lemma EmptyRest(s: State, v: Ver, t: nat, u: nat)
    requires Inv(s) && t < s.N() && u < s.N() && v.idx < s.N()
    requires s.pc[t].Rel? && s.pc[t].r.CasRoot? && s.pc[t].r.v == v && !s.pc[u].Acq?
    ensures ThreadInv(Empty(s, v, t), u)
  {
    hide HistoryInv;
    assert ThreadInv(s, u) && ThreadInv(s, t);
    assert u != t ==> Apart(s.pc[t], s.pc[u]);
  }

  lemma EmptySlots(s: State, v: Ver, t: nat)
    requires Inv(s) && t < s.N() && v.idx < s.N()
    requires s.pc[t].Rel? && s.pc[t].r.CasRoot? && s.pc[t].r.v == v
    ensures var s' := Empty(s, v, t);
            HistoryInv(s') && forall j: nat :: j < s.N() ==> SlotInv(s', j)
  {
    var s' := Empty(s, v, t);
    assert ThreadInv(s, t);
    forall j: nat | j < s.N() ensures SlotInv(s', j) {
      assert SlotInv(s, j);
    }
  }

  lemma EmptyKeeps(s: State, v: Ver, t: nat)
    requires Inv(s) && t < s.N() && v.idx < s.N()
    requires s.pc[t].Rel? && s.pc[t].r.CasRoot? && s.pc[t].r.v == v
    ensures Inv(Empty(s, v, t))
  {
    EmptySlots(s, v, t);
    forall u: nat | u < s.N() ensures ThreadInv(Empty(s, v, t), u) {
      if s.pc[u].Acq? { EmptyReader(s, v, t, u); } else { EmptyRest(s, v, t, u); }
    }
    ApartKept(s, t, Idle);
  }

  // Every access of release and collect keeps the invariant.
  lemma ReleaseKeeps(s: State, t: nat, r: RelPC)
    requires Inv(s) && t < s.N() && (s.pc[t] == Rel(r) || (s.pc[t].Holding? && r.LoadAnn?))
    ensures Inv(ReleaseStep(s, t, r))
  {
    assert ThreadInv(s, t);
    match r
    case LoadAnn => LeaveKeeps(s, t, r);
    case Clear(_) => LeaveKeeps(s, t, r);
    case CheckCur(_) => LeaveKeeps(s, t, r);
    case LoadStat(_) => LoadStatKeeps(s, t, r);
    case CasPending(v) =>
      if s.stat[v.idx] == Word(v, USABLE) { PendKeeps(s, v, t); } else { StopKeeps(s, t); }
    case Help(_, _) => HelpKeeps(s, t, r);
    case HelpCas(_, _) => HelpCasKeeps(s, t, r);
    case Freeze(v) => FreezeKeeps(s, v, t);
    case Scan(_, _) => ScanKeeps(s, t, r);
    case CasEmpty(v) =>
      if s.stat[v.idx] == Word(v, FROZEN) { ReclaimKeeps(s, v, t); } else { StopKeeps(s, t); }
    case LoadRoot(_) => RootKeeps(s, t, r);
    case ReloadRoot(_, _) => RootKeeps(s, t, r);
    case CasRoot(v, _) => EmptyKeeps(s, v, t);
  }

  // ---- acquire_update and set ----

  lemma UpdateWalk(s: State, t: nat, u: UpdPC, c: Choice)
    requires Inv(s) && t < s.N() && s.pc[t] == Upd(u)
    requires u.LoadCurrent? || u.StoreAnn? || u.CurIndex? || u.BaseRoot? || u.Building? || u.FindSlot?
    ensures Inv(UpdateStep(s, t, u, c))
  {
    hide AcquireInv, ReleaseInv;
    var s' := UpdateStep(s, t, u, c);
    assert ThreadInv(s, t) && SlotInv(s, s.current.idx);
    if u.FindSlot? && u.i < s.N() { assert SlotInv(s, u.i); }
    assert s' == Move(s, t, s'.announce[t], t, s'.pc[t]);
    MoveKeeps(s, t, s'.announce[t], t, s'.pc[t]);
  }

  lemma HelpLoadKeeps(s: State, t: nat, u: UpdPC, c: Choice)
    requires Inv(s) && t < s.N() && s.pc[t] == Upd(u) && u.HelpLoad? && u.i < s.N()
    ensures Inv(UpdateStep(s, t, u, c))
  {
    hide AcquireInv, ReleaseInv;
    var s' := UpdateStep(s, t, u, c);
    assert ThreadInv(s, t);
    assert s' == Move(s, t, s.announce[t], t, s'.pc[t]);
    MoveKeeps(s, t, s.announce[t], t, s'.pc[t]);
  }

  lemma HelpSetHit(s: State, t: nat, u: UpdPC)
    requires Inv(s) && t < s.N() && s.pc[t] == Upd(u) && u.HelpSet?
    requires u.i < s.N() && s.announce[u.i] == u.ann
    ensures Inv(Move(s, u.i, Word(u.newVer, 0), t, Upd(HelpLoad(u.i, u.j + 1, u.newVer))))
  {
    var w, p := Word(u.newVer, 0), Upd(HelpLoad(u.i, u.j + 1, u.newVer));
    assert ThreadInv(s, t) && ThreadInv(s, u.i) && SlotInv(s, s.current.idx);
    HelpedReader(s, u.i, w, t, p);
    assert ThreadInv(Move(s, u.i, w, t, p), t);
    MoveKeeps(s, u.i, w, t, p);
  }

  lemma HelpSetMiss(s: State, t: nat, u: UpdPC)
    requires Inv(s) && t < s.N() && s.pc[t] == Upd(u) && u.HelpSet?
    requires u.i < s.N() && s.announce[u.i] != u.ann
    ensures Inv(Move(s, t, s.announce[t], t, Upd(HelpLoad(u.i, u.j + 1, u.newVer))))
  {
    assert ThreadInv(s, t);
    MoveKeeps(s, t, s.announce[t], t, Upd(HelpLoad(u.i, u.j + 1, u.newVer)));
  }

  // The writer enters or leaves the single-entry update.
  function Handover(s: State, w: int, t: nat, p: PC): State
    requires s.Shape() && t < s.N() && -1 <= w < s.N()
  {
    s.(writer := w).Goto(t, p)
  }

  lemma HandoverReader(s: State, w: int, t: nat, p: PC, u: nat)
    requires Inv(s) && t < s.N() && u < s.N() && u != t && s.pc[u].Acq?
    requires (s.writer == -1 && w == t && p == Upd(LoadCurrent)) || (s.writer == t && w == -1 && p == Rel(LoadAnn))
    requires s.writer == t ==> s.pc[t].Upd? && s.pc[t].u.HelpLoad? && s.pc[t].u.i >= s.N()
    ensures ThreadInv(Handover(s, w, t, p), u)
  {
    hide Collects, HistoryInv;
    assert ThreadInv(s, u);
    if s.pc[u].a.Commit? {
      var c := s.pc[u].a.cur;
      if s.announce[u] == Word(c, 1) && Protected(s, u, c) {
        ProtectedStays(s, Handover(s, w, t, p), t, u, c);
      }
    }
  }

  lemma HandoverRest(s: State, w: int, t: nat, p: PC, u: nat)
    requires Inv(s) && t < s.N() && u < s.N() && !s.pc[u].Acq?
    requires (s.writer == -1 && w == t && p == Upd(LoadCurrent) && s.pc[t].Idle? && s.began[t] <= s.current.ts)
             || (s.writer == t && w == -1 && p == Rel(LoadAnn))
    requires s.writer == t ==> s.pc[t].Upd? && s.pc[t].u.HelpLoad? && s.pc[t].u.i >= s.N()
    ensures ThreadInv(Handover(s, w, t, p), u)
  {
    hide Collects, HistoryInv;
    assert ThreadInv(s, u);
  }

  lemma HandoverKeeps(s: State, w: int, t: nat, p: PC)
    requires Inv(s) && t < s.N()
    requires (s.writer == -1 && w == t && p == Upd(LoadCurrent) && s.pc[t].Idle? && s.began[t] <= s.current.ts)
             || (s.writer == t && w == -1 && p == Rel(LoadAnn))
    requires s.writer == t ==> s.pc[t].Upd? && s.pc[t].u.HelpLoad? && s.pc[t].u.i >= s.N()
    ensures Inv(Handover(s, w, t, p))
  {
    var s' := Handover(s, w, t, p);
    forall k: nat | k < s.N() ensures SlotInv(s', k) {
      assert SlotInv(s, k);
    }
    forall u: nat | u < s.N() ensures ThreadInv(s', u) {
      if s.pc[u].Acq? { HandoverReader(s, w, t, p, u); } else { HandoverRest(s, w, t, p, u); }
    }
    ApartKept(s, t, p);
  }

  // An idle thread's began time may be set: nothing depends on it.
  function Begin(s: State, t: nat): State
    requires s.Shape() && t < s.N()
  {
    s.(began := s.began[t := s.current.ts])
  }

  lemma BeginReader(s: State, t: nat, u: nat)
    requires Inv(s) && t < s.N() && s.pc[t].Idle? && u < s.N() && s.pc[u].Acq?
    ensures ThreadInv(Begin(s, t), u)
  {
    hide Collects, HelpComing, HistoryInv;
    assert ThreadInv(s, u);
    if s.pc[u].a.Commit? {
      var c := s.pc[u].a.cur;
      if s.announce[u] == Word(c, 1) && Protected(s, u, c) {
        ProtectedStays(s, Begin(s, t), t, u, c);
      }
    }
  }

  lemma BeginRest(s: State, t: nat, u: nat)
    requires Inv(s) && t < s.N() && s.pc[t].Idle? && u < s.N() && !s.pc[u].Acq?
    ensures ThreadInv(Begin(s, t), u)
  {
    assert ThreadInv(s, u);
  }

  lemma BeginKeeps(s: State, t: nat)
    requires Inv(s) && t < s.N() && s.pc[t].Idle?
    ensures Inv(Begin(s, t))
  {
    var s' := Begin(s, t);
    assert ThreadInv(s, t);
    forall k: nat | k < s.N() ensures SlotInv(s', k) {
      assert SlotInv(s, k);
    }
    forall u: nat | u < s.N() ensures ThreadInv(s', u) {
      if s.pc[u].Acq? { BeginReader(s, t, u); } else { BeginRest(s, t, u); }
    }
    ApartKept(s, t, Idle);
    assert s.Goto(t, Idle) == s;
  }

  lemma StoreStatReader(s: State, t: nat, root: nat, v: Ver, u: nat)
    requires Inv(s) && t < s.N() && s.pc[t] == Upd(StoreStat(root, v)) && v.idx < s.N()
    requires u < s.N() && s.pc[u].Acq?
    ensures ThreadInv(Stamp(s, v.idx, Word(v, USABLE), t, Upd(StoreSlot(root, v))), u)
  {
    hide Collects, HistoryInv;
    var s' := Stamp(s, v.idx, Word(v, USABLE), t, Upd(StoreSlot(root, v)));
    assert ThreadInv(s, u) && ThreadInv(s, t);
    if s.pc[u].a.Commit? {
      var c := s.pc[u].a.cur;
      if s.announce[u] == Word(c, 1) && Protected(s, u, c) {
        ProtectedStays(s, s', t, u, c);
      }
    }
  }

  lemma StoreStatRest(s: State, t: nat, root: nat, v: Ver, u: nat)
    requires Inv(s) && t < s.N() && s.pc[t] == Upd(StoreStat(root, v)) && v.idx < s.N()
    requires u < s.N() && !s.pc[u].Acq?
    ensures ThreadInv(Stamp(s, v.idx, Word(v, USABLE), t, Upd(StoreSlot(root, v))), u)
  {
    hide Collects, HistoryInv;
    assert ThreadInv(s, u) && ThreadInv(s, t);
  }

  lemma StoreStatKeeps(s: State, t: nat, root: nat, v: Ver)
    requires Inv(s) && t < s.N() && s.pc[t] == Upd(StoreStat(root, v)) && v.idx < s.N()
    ensures Inv(Stamp(s, v.idx, Word(v, USABLE), t, Upd(StoreSlot(root, v))))
  {
    var s' := Stamp(s, v.idx, Word(v, USABLE), t, Upd(StoreSlot(root, v)));
    assert ThreadInv(s, t);
    forall k: nat | k < s.N() ensures SlotInv(s', k) {
      assert SlotInv(s, k);
    }
    forall u: nat | u < s.N() ensures ThreadInv(s', u) {
      if s.pc[u].Acq? { StoreStatReader(s, t, root, v, u); } else { StoreStatRest(s, t, root, v, u); }
    }
    ApartKept(s, t, Upd(StoreSlot(root, v)));
  }

  function Fill(s: State, t: nat, root: nat, v: Ver): State
    requires s.Shape() && t < s.N() && v.idx < s.N()
  {
    s.(slot := s.slot[v.idx := root], rootOf := s.rootOf[v := root]).Goto(t, Upd(StoreCur(root, v)))
  }

  lemma FillReader(s: State, t: nat, root: nat, v: Ver, u: nat)
    requires Inv(s) && t < s.N() && s.pc[t] == Upd(StoreSlot(root, v)) && v.idx < s.N()
    requires u < s.N() && s.pc[u].Acq?
    ensures ThreadInv(Fill(s, t, root, v), u)
  {
    hide Collects, HistoryInv;
    assert ThreadInv(s, u) && ThreadInv(s, t);
    if s.pc[u].a.Commit? {
      var c := s.pc[u].a.cur;
      if s.announce[u] == Word(c, 1) && Protected(s, u, c) {
        ProtectedStays(s, Fill(s, t, root, v), t, u, c);
      }
    }
  }

  lemma FillRest(s: State, t: nat, root: nat, v: Ver, u: nat)
    requires Inv(s) && t < s.N() && s.pc[t] == Upd(StoreSlot(root, v)) && v.idx < s.N()
    requires u < s.N() && !s.pc[u].Acq?
    ensures ThreadInv(Fill(s, t, root, v), u)
  {
    hide Collects, HistoryInv;
    assert ThreadInv(s, u) && ThreadInv(s, t);
  }

  lemma FillKeeps(s: State, t: nat, root: nat, v: Ver)
    requires Inv(s) && t < s.N() && s.pc[t] == Upd(StoreSlot(root, v)) && v.idx < s.N()
    ensures Inv(Fill(s, t, root, v))
  {
    var s' := Fill(s, t, root, v);
    assert ThreadInv(s, t);
    forall k: nat | k < s.N() ensures SlotInv(s', k) {
      assert SlotInv(s, k);
    }
    forall u: nat | u < s.N() ensures ThreadInv(s', u) {
      if s.pc[u].Acq? { FillReader(s, t, root, v, u); } else { FillRest(s, t, root, v, u); }
    }
    ApartKept(s, t, Upd(StoreCur(root, v)));
  }

  function Publish(s: State, t: nat, v: Ver): State
    requires s.Shape() && t < s.N()
  {
    s.(current := v).Goto(t, Upd(HelpLoad(0, 0, v)))
  }

  // A reader overtaken twice is already committed, one overtaken once has all three attempts ahead.
  lemma PublishReader(s: State, t: nat, root: nat, v: Ver, u: nat)
    requires Inv(s) && t < s.N() && s.pc[t] == Upd(StoreCur(root, v))
    requires u < s.N() && s.pc[u].Acq?
    ensures ThreadInv(Publish(s, t, v), u)
  {
    hide Collects, HistoryInv;
    assert ThreadInv(s, u) && ThreadInv(s, t);
    if s.pc[u].a.Commit? {
      var c := s.pc[u].a.cur;
      if s.announce[u] == Word(c, 1) && Protected(s, u, c) {
        ProtectedStays(s, Publish(s, t, v), t, u, c);
      }
    }
  }

  lemma PublishRest(s: State, t: nat, root: nat, v: Ver, u: nat)
    requires Inv(s) && t < s.N() && s.pc[t] == Upd(StoreCur(root, v))
    requires u < s.N() && !s.pc[u].Acq?
    ensures ThreadInv(Publish(s, t, v), u)
  {
    hide Collects;
    assert ThreadInv(s, u) && ThreadInv(s, t);
  }

  lemma PublishKeeps(s: State, t: nat, root: nat, v: Ver)
    requires Inv(s) && t < s.N() && s.pc[t] == Upd(StoreCur(root, v))
    ensures Inv(Publish(s, t, v))
  {
    var s' := Publish(s, t, v);
    assert ThreadInv(s, t) && SlotInv(s, v.idx);
    forall k: nat | k < s.N() ensures SlotInv(s', k) {
      assert SlotInv(s, k);
    }
    forall u: nat | u < s.N() ensures ThreadInv(s', u) {
      if s.pc[u].Acq? { PublishReader(s, t, root, v, u); } else { PublishRest(s, t, root, v, u); }
    }
    ApartKept(s, t, Upd(HelpLoad(0, 0, v)));
  }

  lemma UpdateKeeps(s: State, t: nat, u: UpdPC, c: Choice)
    requires Inv(s) && t < s.N() && s.pc[t] == Upd(u)
    ensures Inv(UpdateStep(s, t, u, c))
  {
    hide AcquireInv, ReleaseInv;
    assert ThreadInv(s, t);
    match u
    case StoreStat(root, v) => StoreStatKeeps(s, t, root, v);
    case StoreSlot(root, v) => FillKeeps(s, t, root, v);
    case StoreCur(root, v) => PublishKeeps(s, t, root, v);
    case HelpLoad(i, _, _) =>
      if i < s.N() { HelpLoadKeeps(s, t, u, c); } else { HandoverKeeps(s, -1, t, Rel(LoadAnn)); }
    case HelpSet(i, j, v, ann) =>
      if s.announce[i] == ann {
        HelpSetHit(s, t, u);
      } else {
        HelpSetMiss(s, t, u);
        assert Move(s, t, s.announce[t], t, Upd(HelpLoad(i, j + 1, v))) == UpdateStep(s, t, u, c);
      }
    case Aborted =>
    case _ => UpdateWalk(s, t, u, c);
  }

  lemma BeginAcquire(s: State, t: nat)
    requires Inv(s) && t < s.N() && s.pc[t].Idle?
    ensures Inv(Step(s, t, Acquire))
  {
    BeginKeeps(s, t);
    var b := Begin(s, t);
    assert ThreadInv(b, t);
    MoveKeeps(b, t, Word(EMPTY_VER, 1), t, Acq(LoadCur));
  }

  lemma BeginUpdate(s: State, t: nat)
    requires Inv(s) && t < s.N() && s.pc[t].Idle? && s.writer == -1
    ensures Inv(Step(s, t, Update))
  {
    BeginKeeps(s, t);
    HandoverKeeps(Begin(s, t), t, t, Upd(LoadCurrent));
    assert Step(s, t, Update) == Handover(Begin(s, t), t, t, Upd(LoadCurrent));
  }

  // Every step of every thread keeps the invariant.
  lemma StepKeeps(s: State, t: nat, c: Choice)
    requires Inv(s)
    ensures Inv(Step(s, t, c))
  {
    if t < s.N() {
      match s.pc[t]
      case Idle =>
        if c.Acquire? { BeginAcquire(s, t); }
        else if c.Update? && s.writer == -1 { BeginUpdate(s, t); }
      case Acq(a) => AcquireKeeps(s, t, a);
      case Holding(_, _) => ReleaseKeeps(s, t, LoadAnn);
      case Rel(r) => ReleaseKeeps(s, t, r);
      case Upd(u) => UpdateKeeps(s, t, u, c);
    }
  }

  lemma {:induction false} RunKeeps(s: State, schedule: seq<(nat, Choice)>)
    requires Inv(s)
    ensures Inv(Run(s, schedule))
    decreases |schedule|
  {
    if schedule != [] {
      StepKeeps(s, schedule[0].0, schedule[0].1);
      RunKeeps(Step(s, schedule[0].0, schedule[0].1), schedule[1..]);
    }
  }

  // ---- What every run guarantees ----

  // A thread that holds a snapshot finds the root of its version, installed no earlier than
  // its acquire began, still in the slot and not collected, and no version is collected twice.
  ghost predicate Safe(s: State)
    requires s.Shape()
  {
    && (forall v: Ver :: s.collected[v] <= 1)
    && s.current !in s.collected
    && forall t: nat :: t < s.N() && s.pc[t].Holding? ==> SnapshotSafe(s, t)
  }

  predicate SnapshotSafe(s: State, t: nat)
    requires s.Shape() && t < s.N() && s.pc[t].Holding?
  {
    var v := s.announce[t].ver;
    && s.announce[t].flag == 0 && v.idx == s.pc[t].idx < s.N()
    && v in s.rootOf && s.slot[v.idx] == s.rootOf[v] == s.pc[t].root != 0
    && v !in s.collected && s.began[t] <= v.ts <= s.current.ts
  }

  lemma RunSafe(n: nat, root: nat, schedule: seq<(nat, Choice)>)
    requires n > 0 && root != 0
    ensures Safe(Run(Initial(n, root), schedule))
  {
    InitialInv(n, root);
    RunKeeps(Initial(n, root), schedule);
    var s := Run(Initial(n, root), schedule);
    forall t: nat | t < s.N() && s.pc[t].Holding? ensures SnapshotSafe(s, t) {
      assert ThreadInv(s, t);
      assert SlotInv(s, s.announce[t].ver.idx);
    }
  }

  // acquire is bounded and never returns uncommitted: whenever a run brings a thread to the
  // point where acquire returns, its announcement has flag 0 and names an installed version,
  // even when current_version changed in both rounds.
  lemma AcquireReturnsCommitted(n: nat, root: nat, schedule: seq<(nat, Choice)>, t: nat)
    requires n > 0 && root != 0 && t < n
    requires Run(Initial(n, root), schedule).pc[t] == Acq(GetIndex)
    ensures var s := Run(Initial(n, root), schedule);
            s.announce[t].flag == 0 && Held(s, s.announce[t].ver) && s.began[t] <= s.announce[t].ver.ts
  {
    InitialInv(n, root);
    RunKeeps(Initial(n, root), schedule);
    assert ThreadInv(Run(Initial(n, root), schedule), t);
  }
}
