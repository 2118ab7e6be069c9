// The lock-free version table: comparison_systems/aspen/code/graph/versioned_graph.h, lines 109-210, on
// comparison_systems/aspen/code/lib_extensions/sequentialHT.h. Thread 0 is the single writer, every
// other thread a reader. A step is one read, write, fetch-and-add or compare-and-swap of shared
// memory; entries are written at once. The root of a version is identified with its timestamp.
module VersionTable {

  // The packed timestamp and reference count (refct_utils).
  datatype Word = Word(ts: nat, cnt: nat)

  // Free: the key max_ts, never used. Tomb: the tombstone. root is lost when the entry is cleared.
  datatype Slot = Free | Tomb | Entry(ts: nat, cnt: nat, root: bool)

  datatype Key = FreeKey | TombKey | Key(ts: nat)

  function WordOf(s: Slot): Word { if s.Entry? then Word(s.ts, s.cnt) else Word(0, 0) }

  function KeyOf(s: Slot): Key {
    match s
    case Free => FreeKey
    case Tomb => TombKey
    case Entry(ts, _, _) => Key(ts)
  }

  // acquire_version on one table entry (lines 120-134).
  datatype Attempt = CheckKey | ReadWord | ReadTs(w: Word) | CasUp(w: Word, k: Key)

  // Between the successful compare-and-swap of an acquire and the fetch-and-add of its release.
  // Inserting, Publishing and Leaving belong to the writer (lines 184-191).
  datatype Owning = LoadRoot | Holding | Inserting(h: nat) | Publishing | Leaving

  // release_version after its fetch-and-add (lines 147-152).
  datatype Releasing = ReadLatest | Reread | CasDown(w: Word)

  // release_version after its compare-and-swap (lines 154-169).
  datatype Ending = FreeRoot | Clear | Bury

  datatype Pc =
    | Idle
    | Reload
    | Probe(want: nat, h: nat)
    | Try(slot: nat, want: nat, a: Attempt)
    | Own(slot: nat, ts: nat, root: nat, o: Owning)
    | Window(slot: nat, ts: nat, root: nat, r: Releasing)
    | End(slot: nat, ts: nat, root: nat, f: Ending)

  // cur is current_timestamp, so the latest version is cur - 1; freed lists the collected roots.
  // home is firstIndex, which is the same for every timestamp below 2^32.
  datatype State = State(slots: seq<Slot>, home: nat, cur: nat, pcs: seq<Pc>, freed: seq<nat>)

  datatype Action = Begin(th: nat) | Go(th: nat) | Insert(th: nat) | Release(th: nat)

  function Next(s: State, h: nat): nat { if h + 1 < |s.slots| then h + 1 else 0 }

  // ---- Steps ----

  predicate Enabled(s: State, a: Action) {
    a.th < |s.pcs| && s.home < |s.slots| && s.cur > 0 &&
    var p := s.pcs[a.th];
    match a
    case Begin(_) => p.Idle?
    case Insert(th) => th == 0 && p.Own? && p.o.Holding?
    case Release(_) => p.Own? && (p.o.Holding? || p.o.Leaving?) && Owned(s, p.slot)
    case Go(_) =>
      match p
      case Idle => false
      case Reload => true
      case Probe(_, h) => h < |s.slots|
      case Own(q, _, _, o) =>
        (o.LoadRoot? && Owned(s, q)) || (o.Inserting? && o.h < |s.slots|) || o.Publishing?
      case Try(q, _, _) => q < |s.slots|
      case Window(q, _, _, _) => q < |s.slots|
      case End(q, _, _, _) => q < |s.slots|
  }

  predicate Owned(s: State, q: nat) { q < |s.slots| && s.slots[q].Entry? && s.slots[q].cnt > 0 }

  function SetPc(s: State, th: nat, p: Pc): State
    requires th < |s.pcs|
  {
    s.(pcs := s.pcs[th := p])
  }

  function SetSlot(s: State, q: nat, c: Slot): State
    requires q < |s.slots|
  {
    s.(slots := s.slots[q := c])
  }

  function TryStep(s: State, th: nat): State
    requires Enabled(s, Go(th)) && s.pcs[th].Try?
  {
    var Try(q, want, a) := s.pcs[th];
    match a
    case CheckKey => SetPc(s, th, if s.slots[q].Tomb? then Reload else Try(q, want, ReadWord))
    case ReadWord => SetPc(s, th, Try(q, want, ReadTs(WordOf(s.slots[q]))))
    case ReadTs(w) => SetPc(s, th, if w.cnt > 0 then Try(q, want, CasUp(w, KeyOf(s.slots[q]))) else Reload)
    case CasUp(w, k) =>
      if s.slots[q].Entry? && WordOf(s.slots[q]) == w then
        SetPc(SetSlot(s, q, s.slots[q].(cnt := w.cnt + 1)), th, Own(q, if k.Key? then k.ts else 0, 0, LoadRoot))
      else SetPc(s, th, Try(q, want, CheckKey))
  }

  function OwnStep(s: State, th: nat): State
    requires Enabled(s, Go(th)) && s.pcs[th].Own?
  {
    var Own(q, ts, root, o) := s.pcs[th];
    if o.LoadRoot? then SetPc(s, th, Own(q, ts, s.slots[q].ts, Holding))
    else if o.Inserting? then
      if !s.slots[o.h].Entry? then
        SetPc(SetSlot(s, o.h, Entry(s.cur, 1, true)), th, Own(q, ts, root, Publishing))
      else if s.slots[o.h].ts == s.cur then SetPc(s, th, Own(q, ts, root, Publishing))
      else SetPc(s, th, Own(q, ts, root, Inserting(Next(s, o.h))))
    else SetPc(s.(cur := s.cur + 1), th, Own(q, ts, root, Leaving))
  }

  // The fetch-and-add of release_version.
  function ReleaseStep(s: State, th: nat): State
    requires Enabled(s, Release(th))
  {
    var Own(q, ts, root, _) := s.pcs[th];
    var c := s.slots[q].cnt;
    SetPc(SetSlot(s, q, s.slots[q].(cnt := c - 1)), th, if c == 2 then Window(q, ts, root, ReadLatest) else Idle)
  }

  function WindowStep(s: State, th: nat): State
    requires Enabled(s, Go(th)) && s.pcs[th].Window?
  {
    var Window(q, ts, root, r) := s.pcs[th];
    match r
    case ReadLatest => SetPc(s, th, if ts != s.cur - 1 then Window(q, ts, root, Reread) else Idle)
    case Reread =>
      SetPc(s, th, if WordOf(s.slots[q]).cnt == 1 then Window(q, ts, root, CasDown(WordOf(s.slots[q]))) else Idle)
    case CasDown(w) =>
      if s.slots[q].Entry? && WordOf(s.slots[q]) == w && w.cnt > 0 then
        SetPc(SetSlot(s, q, s.slots[q].(cnt := w.cnt - 1)), th, End(q, ts, root, FreeRoot))
      else SetPc(s, th, Idle)
  }

  function EndStep(s: State, th: nat): State
    requires Enabled(s, Go(th)) && s.pcs[th].End?
  {
    var End(q, ts, root, f) := s.pcs[th];
    match f
    case FreeRoot => SetPc(s.(freed := s.freed + [root]), th, End(q, ts, root, Clear))
    case Clear => SetPc(SetSlot(s, q, Entry(ts, 0, false)), th, End(q, ts, root, Bury))
    case Bury => SetPc(SetSlot(s, q, Tomb), th, Idle)
  }

  function Step(s: State, a: Action): State
    requires Enabled(s, a)
  {
    match a
    case Begin(th) => SetPc(s, th, Reload)
    case Insert(th) => SetPc(s, th, s.pcs[th].(o := Inserting(s.home)))
    case Release(th) => ReleaseStep(s, th)
    case Go(th) =>
      match s.pcs[th]
      case Idle => s
      case Reload => SetPc(s, th, Probe(s.cur - 1, s.home))
      case Probe(want, h) =>
        SetPc(s, th, if s.slots[h].Free? then Reload
                     else if s.slots[h].Entry? && s.slots[h].ts == want then Try(h, want, CheckKey)
                     else Probe(want, Next(s, h)))
      case Try(_, _, _) => TryStep(s, th)
      case Own(_, _, _, _) => OwnStep(s, th)
      case Window(_, _, _, _) => WindowStep(s, th)
      case End(_, _, _, _) => EndStep(s, th)
  }

  // ---- The condition ----

  // The step puts a new version into the slot q.
  predicate Fills(s: State, a: Action, q: nat) {
    && Enabled(s, a) && a.Go? && s.pcs[a.th].Own? && s.pcs[a.th].o == Inserting(q)
    && q < |s.slots| && !s.slots[q].Entry?
  }

  // An acquire between its find and its compare-and-swap, or a release between its fetch-and-add
  // and its second look at the count, still refers to the slot q. An acquire that has read a count
  // of zero starts again, and a release that has read the count again compares the whole word.
  predicate Refers(p: Pc, q: nat)
  {
    || (p.Try? && p.slot == q && !(p.a.ReadTs? && p.a.w.cnt == 0))
    || (p.Window? && p.slot == q && !p.r.CasDown?)
  }

  ghost predicate NoReuse(s: State, a: Action) {
    forall q, th :: Fills(s, a, q) && 0 <= th < |s.pcs| ==> !Refers(s.pcs[th], q)
  }

  ghost predicate Runs(s: State, acts: seq<Action>)
    decreases |acts|
  {
    acts == [] || (Enabled(s, acts[0]) && Runs(Step(s, acts[0]), acts[1..]))
  }

  ghost predicate Careful(s: State, acts: seq<Action>)
    requires Runs(s, acts)
    decreases |acts|
  {
    acts == [] || (NoReuse(s, acts[0]) && Careful(Step(s, acts[0]), acts[1..]))
  }

  function Final(s: State, acts: seq<Action>): State
    requires Runs(s, acts)
    decreases |acts|
  {
    if acts == [] then s else Final(Step(s, acts[0]), acts[1..])
  }

  // The constructors (lines 76-107): version 0 is live.
  ghost predicate Initial(s: State) {
    && |s.pcs| > 0 && s.home < |s.slots| && s.cur == 1 && s.freed == []
    && (forall th :: 0 <= th < |s.pcs| ==> s.pcs[th].Idle?)
    && s.slots[s.home] == Entry(0, 1, true)
    && (forall q :: 0 <= q < |s.slots| && q != s.home ==> s.slots[q].Free?)
  }

  // ---- The invariant ----

  function Owners(pcs: seq<Pc>, q: nat): nat {
    if pcs == [] then 0
    else Owners(pcs[..|pcs| - 1], q) + if pcs[|pcs| - 1].Own? && pcs[|pcs| - 1].slot == q then 1 else 0
  }

  function OwnsOne(p: Pc, q: nat): nat { if p.Own? && p.slot == q then 1 else 0 }

  lemma {:induction false} OwnersUpdate(pcs: seq<Pc>, th: nat, p: Pc, q: nat)
    requires th < |pcs|
    ensures Owners(pcs[th := p], q) == Owners(pcs, q) - OwnsOne(pcs[th], q) + OwnsOne(p, q)
    ensures Owners(pcs, q) >= OwnsOne(pcs[th], q)
  {
    var n := |pcs| - 1;
    if th == n {
      assert pcs[th := p][..n] == pcs[..n];
    } else {
      assert pcs[th := p][..n] == pcs[..n][th := p];
      OwnersUpdate(pcs[..n], th, p, q);
    }
  }

  ghost predicate SlotIs(s: State, q: nat, ts: nat) {
    q < |s.slots| && (s.slots[q].Entry? ==> s.slots[q].ts == ts)
  }

  ghost predicate TryOk(s: State, q: nat, want: nat, a: Attempt) {
    && q < |s.slots| && want < s.cur && (!(a.ReadTs? && a.w.cnt == 0) ==> SlotIs(s, q, want))
    && (a.ReadTs? && a.w.cnt > 0 ==> a.w.ts == want)
    && (a.CasUp? ==> a.w.cnt > 0 && a.w.ts == want && (s.slots[q].Entry? ==> a.k == Key(want)))
  }

  ghost predicate OwnOk(s: State, th: nat, q: nat, ts: nat, root: nat, o: Owning) {
    && q < |s.slots| && s.slots[q].Entry? && s.slots[q].ts == ts && s.slots[q].cnt >= 2 && ts < s.cur
    && (!o.LoadRoot? ==> root == ts)
    && (o.Inserting? || o.Publishing? || o.Leaving? ==> th == 0)
    && (th == 0 && !o.Leaving? ==> ts == s.cur - 1)
    && (o.Publishing? ==> exists n :: 0 <= n < |s.slots| && Newest(s, n))
  }

  // The entry of the version that is inserted and not yet visible.
  ghost predicate Newest(s: State, n: nat)
    requires n < |s.slots|
  {
    s.slots[n].Entry? && s.slots[n].ts == s.cur && s.slots[n].cnt == 1
  }

  ghost predicate WindowOk(s: State, q: nat, ts: nat, root: nat, r: Releasing) {
    && q < |s.slots| && (!r.CasDown? ==> SlotIs(s, q, ts)) && root == ts && ts < s.cur
    && (!r.ReadLatest? ==> ts < s.cur - 1)
    && (r.CasDown? ==> r.w == Word(ts, 1))
  }

  ghost predicate EndOk(s: State, q: nat, ts: nat, root: nat, f: Ending) {
    && q < |s.slots| && s.slots[q].Entry? && s.slots[q].ts == ts && s.slots[q].cnt == 0
    && root == ts && ts < s.cur - 1 && (f.FreeRoot? <==> ts !in s.freed)
  }

  ghost predicate PcOk(s: State, th: nat, p: Pc) {
    match p
    case Idle => true
    case Reload => true
    case Probe(want, h) => want < s.cur && h < |s.slots| && (th == 0 ==> want == s.cur - 1)
    case Try(q, want, a) => TryOk(s, q, want, a) && (th == 0 ==> want == s.cur - 1)
    case Own(q, ts, root, o) => OwnOk(s, th, q, ts, root, o)
    case Window(q, ts, root, r) => WindowOk(s, q, ts, root, r)
    case End(q, ts, root, f) => EndOk(s, q, ts, root, f)
  }

  predicate WindowOn(p: Pc, q: nat) { p.Window? && p.slot == q }

  // A release of the version ts that the slot q holds.
  predicate WindowFor(p: Pc, q: nat, ts: nat) { WindowOn(p, q) && p.ts == ts }

  predicate EndOn(p: Pc, q: nat) { p.End? && p.slot == q }

  // An outdated version with only the reference of the table left.
  predicate Overdue(s: State, q: nat) {
    q < |s.slots| && s.slots[q].Entry? && s.slots[q].cnt == 1 && s.slots[q].ts < s.cur - 1
  }

  // An entry counts one reference for the table and one for every owner. The last reference of an
  // outdated version is always somebody's business.
  ghost predicate SlotOk(s: State, q: nat)
    requires q < |s.slots|
  {
    var c := s.slots[q];
    c.Entry? ==>
      && c.ts <= s.cur
      && (c.ts == s.cur ==> c.cnt == 1 && |s.pcs| > 0 && s.pcs[0].Own? && s.pcs[0].o.Publishing?)
      && (c.cnt > 0 ==> c.cnt == 1 + Owners(s.pcs, q) && c.ts !in s.freed)
      && (c.cnt == 0 ==> Owners(s.pcs, q) == 0 && exists th :: 0 <= th < |s.pcs| && EndOn(s.pcs[th], q))
      && (Overdue(s, q) ==> exists th :: 0 <= th < |s.pcs| && WindowFor(s.pcs[th], q, c.ts))
  }

  ghost predicate LatestAt(s: State, q: nat) {
    q < |s.slots| && s.slots[q].Entry? && s.slots[q].ts == s.cur - 1 && s.slots[q].cnt >= 1
  }

  ghost predicate NoDup(f: seq<nat>) { forall i, j :: 0 <= i < j < |f| ==> f[i] != f[j] }

  predicate SameEntry(a: Slot, b: Slot) { a.Entry? && b.Entry? && a.ts == b.ts }

  ghost predicate Distinct(slots: seq<Slot>) {
    forall p, q :: 0 <= p < |slots| && 0 <= q < |slots| && SameEntry(slots[p], slots[q]) ==> p == q
  }

  ghost predicate OneEnd(pcs: seq<Pc>) {
    forall i, j ::
      0 <= i < |pcs| && 0 <= j < |pcs| && pcs[i].End? && pcs[j].End? && pcs[i].slot == pcs[j].slot ==> i == j
  }

  ghost predicate Inv(s: State) {
    && s.cur >= 1 && s.home < |s.slots| && |s.pcs| > 0
    && (forall th :: 0 <= th < |s.pcs| ==> PcOk(s, th, s.pcs[th]))
    && (forall q :: 0 <= q < |s.slots| ==> SlotOk(s, q))
    && (exists q :: LatestAt(s, q))
    && Distinct(s.slots) && OneEnd(s.pcs) && NoDup(s.freed) && (forall v :: v in s.freed ==> v < s.cur - 1)
  }

  // ---- Every step keeps the invariant ----

  // A slot that the step of th does not touch.
  lemma SlotStays(s: State, u: State, th: nat, q: nat)
    requires th < |s.pcs| && q < |s.slots| && |u.slots| == |s.slots| && u.slots[q] == s.slots[q] && SlotOk(s, q)
    requires |u.pcs| == |s.pcs| && u.pcs == s.pcs[th := u.pcs[th]] && u.cur == s.cur
    requires OwnsOne(u.pcs[th], q) == OwnsOne(s.pcs[th], q)
    requires Overdue(s, q) && WindowFor(s.pcs[th], q, s.slots[q].ts) ==> WindowFor(u.pcs[th], q, s.slots[q].ts)
    requires EndOn(s.pcs[th], q) ==> EndOn(u.pcs[th], q)
    requires s.pcs[th].Own? && s.pcs[th].o.Publishing? ==> th != 0 || u.pcs[th] == s.pcs[th]
    requires s.slots[q].Entry? && s.slots[q].cnt > 0 ==> s.slots[q].ts !in u.freed
    ensures SlotOk(u, q)
  {
    OwnersUpdate(s.pcs, th, u.pcs[th], q);
    var c := s.slots[q];
    if c.Entry? && c.cnt == 0 {
      var i :| 0 <= i < |s.pcs| && EndOn(s.pcs[i], q);
      assert EndOn(u.pcs[i], q);
    }
    if c.Entry? && c.cnt == 1 && c.ts < s.cur - 1 {
      var i :| 0 <= i < |s.pcs| && WindowFor(s.pcs[i], q, s.slots[q].ts);
      assert WindowFor(u.pcs[i], q, s.slots[q].ts);
    }
  }

  // A step that changes only where its thread is.
  lemma QuietKeeps(s: State, th: nat, p: Pc)
    requires Inv(s) && th < |s.pcs| && PcOk(s, th, p)
    requires forall q :: OwnsOne(p, q) == OwnsOne(s.pcs[th], q)
    requires !p.End? && !s.pcs[th].End? && !(s.pcs[th].Own? && s.pcs[th].o.Publishing?)
    requires
      var b := s.pcs[th]; b.Window? && Overdue(s, b.slot) && s.slots[b.slot].ts == b.ts ==> WindowFor(p, b.slot, b.ts)
    ensures Inv(SetPc(s, th, p))
  {
    var u := SetPc(s, th, p);
    forall q | 0 <= q < |u.slots| ensures SlotOk(u, q) { SlotStays(s, u, th, q); }
    forall i | 0 <= i < |u.pcs| ensures PcOk(u, i, u.pcs[i]) {
      assert i != th ==> PcOk(s, i, s.pcs[i]);
      PcSame(s, u, i, u.pcs[i]);
    }
    var q :| LatestAt(s, q);
    assert LatestAt(u, q);
  }

  // A thread's conditions read only the slots, the timestamp and the collected versions.
  lemma PcSame(s: State, u: State, th: nat, p: Pc)
    requires PcOk(s, th, p) && u.slots == s.slots && u.cur == s.cur && u.freed == s.freed
    ensures PcOk(u, th, p)
  {
    if p.Own? && p.o.Publishing? {
      var n :| 0 <= n < |s.slots| && Newest(s, n);
      assert Newest(u, n);
    }
  }

  // Another thread's conditions when the count in the slot q changes between positive counts.
  lemma PcRecount(s: State, u: State, th: nat, p: Pc, q: nat, cnt: nat)
    requires PcOk(s, th, p) && q < |s.slots| && s.slots[q].Entry? && s.slots[q].ts < s.cur
    requires u.slots == s.slots[q := s.slots[q].(cnt := cnt)] && u.cur == s.cur && u.freed == s.freed
    requires p.Own? && p.slot == q ==> cnt >= 2
    requires p.End? ==> p.slot != q
    ensures PcOk(u, th, p)
  {
    if p.Own? && p.o.Publishing? {
      var n :| 0 <= n < |s.slots| && Newest(s, n);
      assert Newest(u, n);
    }
  }

  lemma DistinctRecount(slots: seq<Slot>, q: nat, c: Slot)
    requires Distinct(slots) && q < |slots| && (c.Entry? ==> slots[q].Entry? && slots[q].ts == c.ts)
    ensures Distinct(slots[q := c])
  {
    var u := slots[q := c];
    forall i, j | 0 <= i < |u| && 0 <= j < |u| && SameEntry(u[i], u[j]) ensures i == j {
      assert SameEntry(slots[i], slots[j]);
    }
  }

  // The successful compare-and-swap of an acquire.
  lemma CasUpKeeps(s: State, th: nat, q: nat, p: Pc)
    requires Inv(s) && th < |s.pcs| && s.pcs[th].Try? && s.pcs[th].slot == q && q < |s.slots|
    requires s.slots[q].Entry? && s.slots[q].cnt > 0 && s.slots[q].ts < s.cur
    requires p == Own(q, s.slots[q].ts, 0, LoadRoot) && (th == 0 ==> s.slots[q].ts == s.cur - 1)
    ensures Inv(SetPc(SetSlot(s, q, s.slots[q].(cnt := s.slots[q].cnt + 1)), th, p))
  {
    var c := s.slots[q].(cnt := s.slots[q].cnt + 1);
    var u := SetPc(SetSlot(s, q, c), th, p);
    assert SlotOk(s, q);
    forall i | 0 <= i < |s.slots| ensures SlotOk(u, i) {
      if i == q { OwnersUpdate(s.pcs, th, p, q); } else { SlotStays(s, u, th, i); }
    }
    forall i | 0 <= i < |u.pcs| ensures PcOk(u, i, u.pcs[i]) {
      if i != th {
        assert PcOk(s, i, s.pcs[i]);
        PcRecount(s, u, i, s.pcs[i], q, c.cnt);
      }
    }
    DistinctRecount(s.slots, q, c);
    var l :| LatestAt(s, l);
    assert LatestAt(u, l);
  }

  // The fetch-and-add of a release.
  lemma ReleaseKeeps(s: State, th: nat, q: nat, p: Pc)
    requires Inv(s) && th < |s.pcs| && s.pcs[th].Own? && s.pcs[th].slot == q && q < |s.slots|
    requires !s.pcs[th].o.Publishing? && !s.pcs[th].o.LoadRoot?
    requires p == if s.slots[q].cnt == 2 then Window(q, s.pcs[th].ts, s.pcs[th].root, ReadLatest) else Idle
    requires s.slots[q].Entry? && s.slots[q].cnt >= 2
    ensures Inv(SetPc(SetSlot(s, q, s.slots[q].(cnt := s.slots[q].cnt - 1)), th, p))
  {
    var c := s.slots[q].(cnt := s.slots[q].cnt - 1);
    var u := SetPc(SetSlot(s, q, c), th, p);
    assert SlotOk(s, q) && PcOk(s, th, s.pcs[th]);
    forall i | 0 <= i < |s.slots| ensures SlotOk(u, i) {
      if i == q {
        OwnersUpdate(s.pcs, th, p, q);
        if c.cnt == 1 { assert WindowFor(u.pcs[th], q, c.ts); }
      } else {
        SlotStays(s, u, th, i);
      }
    }
    forall i | 0 <= i < |u.pcs| ensures PcOk(u, i, u.pcs[i]) {
      if i != th {
        assert PcOk(s, i, s.pcs[i]);
        if s.pcs[i].Own? && s.pcs[i].slot == q { TwoOwners(s.pcs, th, i, q); }
        PcRecount(s, u, i, s.pcs[i], q, c.cnt);
      }
    }
    DistinctRecount(s.slots, q, c);
    var l :| LatestAt(s, l);
    assert LatestAt(u, l);
  }

  lemma {:induction false} TwoOwners(pcs: seq<Pc>, i: nat, j: nat, q: nat)
    requires i < |pcs| && j < |pcs| && i != j && OwnsOne(pcs[i], q) == 1 && OwnsOne(pcs[j], q) == 1
    ensures Owners(pcs, q) >= 2
  {
    OwnersUpdate(pcs, i, Idle, q);
    OwnersUpdate(pcs[i := Idle], j, Idle, q);
  }

  // The successful compare-and-swap of a release: the last reference goes.
  lemma CasDownKeeps(s: State, th: nat, q: nat)
    requires Inv(s) && th < |s.pcs| && s.pcs[th].Window? && s.pcs[th].slot == q && q < |s.slots|
    requires s.slots[q].Entry? && s.slots[q].cnt == 1 && s.slots[q].ts < s.cur - 1 && s.slots[q].ts == s.pcs[th].ts
    ensures Inv(SetPc(SetSlot(s, q, s.slots[q].(cnt := 0)), th, End(q, s.pcs[th].ts, s.pcs[th].root, FreeRoot)))
  {
    var c, p := s.slots[q].(cnt := 0), End(q, s.pcs[th].ts, s.pcs[th].root, FreeRoot);
    var u := SetPc(SetSlot(s, q, c), th, p);
    assert SlotOk(s, q) && PcOk(s, th, s.pcs[th]);
    forall i | 0 <= i < |s.slots| ensures SlotOk(u, i) {
      if i == q {
        OwnersUpdate(s.pcs, th, p, q);
        assert EndOn(u.pcs[th], q);
      } else {
        SlotStays(s, u, th, i);
      }
    }
    forall i | 0 <= i < |u.pcs| ensures PcOk(u, i, u.pcs[i]) {
      if i != th {
        assert PcOk(s, i, s.pcs[i]);
        if s.pcs[i].Own? && s.pcs[i].slot == q { OwnersUpdate(s.pcs, i, Idle, q); }
        PcRecount(s, u, i, s.pcs[i], q, 0);
      }
    }
    forall i | 0 <= i < |s.pcs| && s.pcs[i].End? ensures s.pcs[i].slot != q { assert PcOk(s, i, s.pcs[i]); }
    DistinctRecount(s.slots, q, c);
    var l :| LatestAt(s, l);
    assert LatestAt(u, l);
  }

  lemma FreeKeeps(s: State, th: nat)
    requires Inv(s) && th < |s.pcs| && s.pcs[th].End? && s.pcs[th].f.FreeRoot?
    ensures Inv(SetPc(s.(freed := s.freed + [s.pcs[th].root]), th, s.pcs[th].(f := Clear)))
  {
    var p := s.pcs[th];
    var u := SetPc(s.(freed := s.freed + [p.root]), th, p.(f := Clear));
    assert PcOk(s, th, p);
    forall q | 0 <= q < |s.slots| ensures SlotOk(u, q) {
      assert SlotOk(s, q);
      if s.slots[q].Entry? && s.slots[q].cnt > 0 { assert !SameEntry(s.slots[q], s.slots[p.slot]); }
      SlotStays(s, u, th, q);
    }
    forall i | 0 <= i < |u.pcs| ensures PcOk(u, i, u.pcs[i]) {
      assert PcOk(s, i, s.pcs[i]);
      if i != th && s.pcs[i].End? {
        assert s.pcs[i].slot != p.slot;
        assert !SameEntry(s.slots[s.pcs[i].slot], s.slots[p.slot]);
      }
      if s.pcs[i].Own? && s.pcs[i].o.Publishing? {
        var n :| 0 <= n < |s.slots| && Newest(s, n);
        assert Newest(u, n);
      }
    }
    var l :| LatestAt(s, l);
    assert LatestAt(u, l);
  }

  lemma ClearKeeps(s: State, th: nat)
    requires Inv(s) && th < |s.pcs| && s.pcs[th].End? && s.pcs[th].f.Clear?
    ensures
      var p := s.pcs[th]; p.slot < |s.slots| && Inv(SetPc(SetSlot(s, p.slot, Entry(p.ts, 0, false)), th, p.(f := Bury)))
  {
    var p := s.pcs[th];
    assert PcOk(s, th, p);
    var c := Entry(p.ts, 0, false);
    var u := SetPc(SetSlot(s, p.slot, c), th, p.(f := Bury));
    forall q | 0 <= q < |s.slots| ensures SlotOk(u, q) {
      if q == p.slot {
        assert SlotOk(s, q) && EndOn(u.pcs[th], q);
        OwnersUpdate(s.pcs, th, u.pcs[th], q);
      } else {
        SlotStays(s, u, th, q);
      }
    }
    forall i | 0 <= i < |u.pcs| ensures PcOk(u, i, u.pcs[i]) {
      assert PcOk(s, i, s.pcs[i]);
      if s.pcs[i].Own? && s.pcs[i].o.Publishing? {
        var n :| 0 <= n < |s.slots| && Newest(s, n);
        assert Newest(u, n);
      }
    }
    DistinctRecount(s.slots, p.slot, c);
    var l :| LatestAt(s, l);
    assert LatestAt(u, l);
  }

  lemma BuryKeeps(s: State, th: nat)
    requires Inv(s) && th < |s.pcs| && s.pcs[th].End? && s.pcs[th].f.Bury?
    ensures var p := s.pcs[th]; p.slot < |s.slots| && Inv(SetPc(SetSlot(s, p.slot, Tomb), th, Idle))
  {
    var p := s.pcs[th];
    assert PcOk(s, th, p);
    var u := SetPc(SetSlot(s, p.slot, Tomb), th, Idle);
    forall q | 0 <= q < |s.slots| ensures SlotOk(u, q) {
      if q != p.slot { SlotStays(s, u, th, q); }
    }
    forall i | 0 <= i < |u.pcs| ensures PcOk(u, i, u.pcs[i]) {
      assert PcOk(s, i, s.pcs[i]);
      if s.pcs[i].Own? && s.pcs[i].o.Publishing? {
        var n :| 0 <= n < |s.slots| && Newest(s, n);
        assert Newest(u, n);
      }
    }
    DistinctRecount(s.slots, p.slot, Tomb);
    var l :| LatestAt(s, l);
    assert LatestAt(u, l);
  }

  lemma {:induction false} NoOwners(pcs: seq<Pc>, q: nat)
    requires forall th :: 0 <= th < |pcs| ==> OwnsOne(pcs[th], q) == 0
    ensures Owners(pcs, q) == 0
  {
    if pcs != [] {
      var front := pcs[..|pcs| - 1];
      forall th | 0 <= th < |front| ensures OwnsOne(front[th], q) == 0 { assert front[th] == pcs[th]; }
      NoOwners(front, q);
      assert OwnsOne(pcs[|pcs| - 1], q) == 0;
    }
  }

  // The insertion of a new version into a slot that no operation refers to.
  lemma FillKeeps(s: State, th: nat, q: nat)
    requires Inv(s) && th < |s.pcs| && s.pcs[th].Own? && s.pcs[th].o.Inserting? && q < |s.slots| && !s.slots[q].Entry?
    requires forall i :: 0 <= i < |s.pcs| ==> !Refers(s.pcs[i], q)
    ensures Inv(SetPc(SetSlot(s, q, Entry(s.cur, 1, true)), th, s.pcs[th].(o := Publishing)))
  {
    var c, p := Entry(s.cur, 1, true), s.pcs[th].(o := Publishing);
    var u := SetPc(SetSlot(s, q, c), th, p);
    assert PcOk(s, th, s.pcs[th]);
    forall i | 0 <= i < |s.pcs| ensures OwnsOne(s.pcs[i], q) == 0 { assert PcOk(s, i, s.pcs[i]); }
    NoOwners(s.pcs, q);
    forall i | 0 <= i < |s.slots| ensures SlotOk(u, i) {
      if i == q { OwnersUpdate(s.pcs, th, p, q); } else { SlotStays(s, u, th, i); }
    }
    assert Newest(u, q);
    forall i | 0 <= i < |u.pcs| ensures PcOk(u, i, u.pcs[i]) {
      assert PcOk(s, i, s.pcs[i]) && !Refers(s.pcs[i], q);
    }
    forall i, j | 0 <= i < |u.slots| && 0 <= j < |u.slots| && SameEntry(u.slots[i], u.slots[j]) ensures i == j {
      assert SlotOk(s, i) && SlotOk(s, j);
      assert i != q && j != q ==> SameEntry(s.slots[i], s.slots[j]);
    }
    var l :| LatestAt(s, l);
    assert LatestAt(u, l);
  }

  // The new version becomes visible; the writer still owns its predecessor.
  lemma PublishKeeps(s: State, th: nat)
    requires Inv(s) && th < |s.pcs| && s.pcs[th].Own? && s.pcs[th].o.Publishing?
    ensures Inv(SetPc(s.(cur := s.cur + 1), th, s.pcs[th].(o := Leaving)))
  {
    var p := s.pcs[th];
    var u := SetPc(s.(cur := s.cur + 1), th, p.(o := Leaving));
    assert PcOk(s, th, p) && th == 0;
    var n :| 0 <= n < |s.slots| && Newest(s, n);
    assert LatestAt(u, n);
    forall q | 0 <= q < |s.slots| ensures SlotOk(u, q) {
      PublishSlot(s, q);
    }
    forall i | 0 <= i < |u.pcs| ensures PcOk(u, i, u.pcs[i]) {
      assert PcOk(s, i, s.pcs[i]);
    }
  }

  lemma PublishSlot(s: State, q: nat)
    requires Inv(s) && q < |s.slots| && s.pcs[0].Own? && s.pcs[0].o.Publishing?
    ensures SlotOk(SetPc(s.(cur := s.cur + 1), 0, s.pcs[0].(o := Leaving)), q)
  {
    var p := s.pcs[0];
    var u := SetPc(s.(cur := s.cur + 1), 0, p.(o := Leaving));
    assert PcOk(s, 0, p) && SlotOk(s, q);
    OwnersUpdate(s.pcs, 0, u.pcs[0], q);
    assert SameEntry(s.slots[q], s.slots[p.slot]) ==> q == p.slot;
    if Overdue(u, q) {
      var i :| 0 <= i < |s.pcs| && WindowFor(s.pcs[i], q, s.slots[q].ts);
      assert WindowFor(u.pcs[i], q, s.slots[q].ts);
    }
    if s.slots[q].Entry? && s.slots[q].cnt == 0 {
      var i :| 0 <= i < |s.pcs| && EndOn(s.pcs[i], q);
      assert EndOn(u.pcs[i], q);
    }
  }

  lemma TryKeeps(s: State, th: nat)
    requires Inv(s) && Enabled(s, Go(th)) && s.pcs[th].Try?
    ensures Inv(TryStep(s, th))
  {
    var Try(q, want, a) := s.pcs[th];
    assert PcOk(s, th, s.pcs[th]);
    if a.CasUp? && s.slots[q].Entry? && WordOf(s.slots[q]) == a.w {
      CasUpKeeps(s, th, q, Own(q, want, 0, LoadRoot));
    } else {
      QuietKeeps(s, th, TryStep(s, th).pcs[th]);
    }
  }

  lemma OwnKeeps(s: State, th: nat)
    requires Inv(s) && Enabled(s, Go(th)) && s.pcs[th].Own? && NoReuse(s, Go(th))
    ensures Inv(OwnStep(s, th))
  {
    var Own(q, ts, root, o) := s.pcs[th];
    assert PcOk(s, th, s.pcs[th]);
    if o.Publishing? {
      PublishKeeps(s, th);
    } else if o.Inserting? && !s.slots[o.h].Entry? {
      forall i | 0 <= i < |s.pcs| ensures !Refers(s.pcs[i], o.h) { assert Fills(s, Go(th), o.h); }
      FillKeeps(s, th, o.h);
    } else {
      if o.Inserting? { assert SlotOk(s, o.h); }
      QuietKeeps(s, th, OwnStep(s, th).pcs[th]);
    }
  }

  lemma WindowKeeps(s: State, th: nat)
    requires Inv(s) && Enabled(s, Go(th)) && s.pcs[th].Window?
    ensures Inv(WindowStep(s, th))
  {
    var Window(q, ts, root, r) := s.pcs[th];
    assert PcOk(s, th, s.pcs[th]);
    if r.CasDown? && s.slots[q].Entry? && WordOf(s.slots[q]) == r.w {
      CasDownKeeps(s, th, q);
    } else {
      QuietKeeps(s, th, WindowStep(s, th).pcs[th]);
    }
  }

  lemma GoKeeps(s: State, th: nat)
    requires Inv(s) && Enabled(s, Go(th)) && NoReuse(s, Go(th))
    ensures Inv(Step(s, Go(th)))
  {
    var p := s.pcs[th];
    assert PcOk(s, th, p);
    match p
    case Idle => assert false;
    case Reload => QuietKeeps(s, th, Probe(s.cur - 1, s.home));
    case Probe(_, _) => QuietKeeps(s, th, Step(s, Go(th)).pcs[th]);
    case Try(_, _, _) => TryKeeps(s, th);
    case Own(_, _, _, _) => OwnKeeps(s, th);
    case Window(_, _, _, _) => WindowKeeps(s, th);
    case End(_, _, _, f) => EndKeeps(s, th);
  }

  lemma EndKeeps(s: State, th: nat)
    requires Inv(s) && Enabled(s, Go(th)) && s.pcs[th].End?
    ensures Inv(Step(s, Go(th)))
  {
    assert PcOk(s, th, s.pcs[th]);
    match s.pcs[th].f
    case FreeRoot => FreeKeeps(s, th);
    case Clear => ClearKeeps(s, th);
    case Bury => BuryKeeps(s, th);
  }

  lemma StepKeeps(s: State, a: Action)
    requires Inv(s) && Enabled(s, a) && NoReuse(s, a)
    ensures Inv(Step(s, a))
  {
    var p := s.pcs[a.th];
    assert PcOk(s, a.th, p);
    match a
    case Begin(th) => QuietKeeps(s, th, Reload);
    case Insert(th) => QuietKeeps(s, th, p.(o := Inserting(s.home)));
    case Release(th) => ReleaseKeeps(s, th, p.slot, Step(s, a).pcs[th]);
    case Go(th) => GoKeeps(s, th);
  }

  lemma InitialInv(s: State)
    requires Initial(s)
    ensures Inv(s)
  {
    assert LatestAt(s, s.home);
    forall q | 0 <= q < |s.slots| ensures SlotOk(s, q) { NoOwners(s.pcs, q); }
  }

  lemma {:induction false} RunKeeps(s: State, acts: seq<Action>)
    requires Inv(s) && Runs(s, acts) && Careful(s, acts)
    ensures Inv(Final(s, acts))
    decreases |acts|
  {
    if acts != [] {
      StepKeeps(s, acts[0]);
      RunKeeps(Step(s, acts[0]), acts[1..]);
    }
  }

  // ---- The results ----

  // The latest version is referenced, nothing is collected twice, and every snapshot that is held
  // still has its version in its slot, uncollected, and is the root of that version.
  ghost predicate Safe(s: State) {
    && (exists q :: LatestAt(s, q)) && s.cur - 1 !in s.freed && NoDup(s.freed)
    && (forall th {:trigger s.pcs[th]} ::
          0 <= th < |s.pcs| && s.pcs[th].Own? && !s.pcs[th].o.LoadRoot? ==> Held(s, s.pcs[th]))
  }

  ghost predicate Held(s: State, p: Pc)
    requires p.Own?
  {
    && p.slot < |s.slots| && s.slots[p.slot].Entry? && s.slots[p.slot].ts == p.ts && s.slots[p.slot].cnt >= 2
    && p.root == p.ts && p.root !in s.freed
  }

  lemma RunSafe(s: State, acts: seq<Action>)
    requires Initial(s) && Runs(s, acts) && Careful(s, acts)
    ensures Safe(Final(s, acts))
  {
    InitialInv(s);
    RunKeeps(s, acts);
    InvSafe(Final(s, acts));
  }

  lemma InvSafe(u: State)
    requires Inv(u)
    ensures Safe(u)
  {
    forall th | 0 <= th < |u.pcs| && u.pcs[th].Own? && !u.pcs[th].o.LoadRoot? ensures Held(u, u.pcs[th]) {
      assert PcOk(u, th, u.pcs[th]) && SlotOk(u, u.pcs[th].slot);
    }
  }

  // When nobody is inside an operation or holds a snapshot, only the latest version is in the table.
  lemma QuiescentOnlyLatest(s: State, acts: seq<Action>)
    requires Initial(s) && Runs(s, acts) && Careful(s, acts)
    requires forall th :: 0 <= th < |Final(s, acts).pcs| ==> Final(s, acts).pcs[th].Idle?
    ensures var u := Final(s, acts);
            forall q :: 0 <= q < |u.slots| && u.slots[q].Entry? ==> u.slots[q].ts == u.cur - 1 && u.slots[q].cnt == 1
  {
    InitialInv(s);
    RunKeeps(s, acts);
    var u := Final(s, acts);
    forall q | 0 <= q < |u.slots| && u.slots[q].Entry? ensures u.slots[q].ts == u.cur - 1 && u.slots[q].cnt == 1 {
      assert SlotOk(u, q);
      NoOwners(u.pcs, q);
    }
  }

  // Every version that has been published is in the table or collected.
  ghost predicate Accounted(s: State) { forall v :: 0 <= v < s.cur ==> v in s.freed || InTable(s, v) }

  ghost predicate InTable(s: State, v: nat) {
    exists q :: 0 <= q < |s.slots| && s.slots[q].Entry? && s.slots[q].ts == v
  }

  lemma StepAccounts(s: State, a: Action)
    requires Inv(s) && Enabled(s, a) && Accounted(s)
    ensures Accounted(Step(s, a))
  {
    var u, p := Step(s, a), s.pcs[a.th];
    assert PcOk(s, a.th, p);
    forall v | 0 <= v < u.cur ensures v in u.freed || InTable(u, v) {
      if v in s.freed {
      } else if v == s.cur {
        var n :| 0 <= n < |s.slots| && Newest(s, n);
        assert u.slots[n] == s.slots[n];
      } else {
        var q :| 0 <= q < |s.slots| && s.slots[q].Entry? && s.slots[q].ts == v;
        assert u.slots[q].Entry? ==> u.slots[q].ts == v;
      }
    }
  }

  lemma InitialAccounted(s: State)
    requires Initial(s)
    ensures Accounted(s)
  {
    assert s.slots[s.home] == Entry(0, 1, true) ==> InTable(s, 0);
  }

  lemma {:induction false} RunAccounts(s: State, acts: seq<Action>)
    requires Inv(s) && Accounted(s) && Runs(s, acts) && Careful(s, acts)
    ensures Accounted(Final(s, acts))
    decreases |acts|
  {
    if acts != [] {
      StepKeeps(s, acts[0]);
      StepAccounts(s, acts[0]);
      RunAccounts(Step(s, acts[0]), acts[1..]);
    }
  }

  // ... and every outdated version has been collected.
  lemma QuiescentAllCollected(s: State, acts: seq<Action>)
    requires Initial(s) && Runs(s, acts) && Careful(s, acts)
    requires forall th :: 0 <= th < |Final(s, acts).pcs| ==> Final(s, acts).pcs[th].Idle?
    ensures forall v :: 0 <= v < Final(s, acts).cur - 1 ==> v in Final(s, acts).freed
  {
    InitialInv(s);
    InitialAccounted(s);
    RunAccounts(s, acts);
    QuiescentOnlyLatest(s, acts);
  }

  // ---- The condition is exact ----

  predicate TryOn(p: Pc, q: nat) { p.Try? && p.slot == q }

  // The condition, and stronger forms of its two halves.
  datatype Care = Both | OnlyReleases | OnlyAcquires

  predicate Minds(c: Care, p: Pc, q: nat) {
    match c
    case Both => Refers(p, q)
    case OnlyReleases => WindowOn(p, q)
    case OnlyAcquires => TryOn(p, q)
  }

  ghost predicate NoReuseIn(s: State, a: Action, c: Care) {
    forall q, th :: Fills(s, a, q) && 0 <= th < |s.pcs| ==> !Minds(c, s.pcs[th], q)
  }

  ghost predicate HalfCareful(s: State, acts: seq<Action>, c: Care)
    requires Runs(s, acts)
    decreases |acts|
  {
    acts == [] || (NoReuseIn(s, acts[0], c) && HalfCareful(Step(s, acts[0]), acts[1..], c))
  }

  ghost predicate Reach(s: State, u: State, r: Care) {
    exists acts :: Runs(s, acts) && HalfCareful(s, acts, r) && Final(s, acts) == u
  }

  lemma {:induction false} RunsOn(s: State, acts: seq<Action>, a: Action, r: Care)
    requires Runs(s, acts) && HalfCareful(s, acts, r) && Enabled(Final(s, acts), a) && NoReuseIn(Final(s, acts), a, r)
    ensures Runs(s, acts + [a]) && HalfCareful(s, acts + [a], r) && Final(s, acts + [a]) == Step(Final(s, acts), a)
    decreases |acts|
  {
    if acts == [] {
      assert acts + [a] == [a];
      assert [a][1..] == [];
    } else {
      assert (acts + [a])[1..] == acts[1..] + [a];
      RunsOn(Step(s, acts[0]), acts[1..], a, r);
    }
  }

  lemma Then(s: State, u: State, a: Action, r: Care) returns (w: State)
    requires Reach(s, u, r) && Enabled(u, a) && NoReuseIn(u, a, r)
    ensures w == Step(u, a) && Reach(s, w, r)
  {
    var acts :| Runs(s, acts) && HalfCareful(s, acts, r) && Final(s, acts) == u;
    RunsOn(s, acts, a, r);
    w := Step(u, a);
    assert Runs(s, acts + [a]) && HalfCareful(s, acts + [a], r) && Final(s, acts + [a]) == w;
  }

  lemma Start(s: State, r: Care)
    ensures Reach(s, s, r)
  {
    assert Runs(s, []) && HalfCareful(s, [], r) && Final(s, []) == s;
  }

  // A thread finds the latest version in the first slot it probes.
  lemma Finds(s: State, u: State, th: nat, r: Care) returns (w: State)
    requires Reach(s, u, r) && th < |u.pcs| && u.pcs[th].Idle? && u.home < |u.slots| && u.cur > 0
    requires u.slots[u.home].Entry? && u.slots[u.home].ts == u.cur - 1
    ensures w == SetPc(u, th, Try(u.home, u.cur - 1, CheckKey)) && Reach(s, w, r)
  {
    hide Reach;
    w := Then(s, u, Begin(th), r);
    w := Then(s, w, Go(th), r);
    w := Then(s, w, Go(th), r);
  }

  // An acquire of the entry it has found.
  lemma Acquires(s: State, u: State, th: nat, want: nat, q: nat, v: nat, cnt: nat, r: Care) returns (w: State)
    requires Reach(s, u, r) && th < |u.pcs| && u.pcs[th] == Try(q, want, CheckKey)
    requires q < |u.slots| && u.home < |u.slots|
    requires u.cur > 0 && u.slots[q] == Entry(v, cnt, true) && cnt > 0
    ensures w == SetPc(SetSlot(u, q, Entry(v, cnt + 1, true)), th, Own(q, v, v, Holding)) && Reach(s, w, r)
  {
    hide Reach;
    w := Then(s, u, Go(th), r);
    w := Then(s, w, Go(th), r);
    w := Then(s, w, Go(th), r);
    w := Then(s, w, Go(th), r);
    w := Then(s, w, Go(th), r);
  }

  // The release of the last snapshot of a version that is not the latest.
  lemma Collects(s: State, u: State, th: nat, q: nat, v: nat, r: Care) returns (w: State)
    requires Reach(s, u, r) && th < |u.pcs| && u.pcs[th].Own? && (u.pcs[th].o.Holding? || u.pcs[th].o.Leaving?)
    requires u.pcs[th].slot == q && u.pcs[th].ts == v && u.pcs[th].root == v && q < |u.slots| && u.home < |u.slots|
    requires u.cur > 0 && u.cur - 1 != v && u.slots[q] == Entry(v, 2, true)
    ensures w == SetPc(SetSlot(u, q, Entry(v, 0, true)), th, End(q, v, v, Clear)).(freed := u.freed + [v])
    ensures Reach(s, w, r)
  {
    hide Reach;
    w := Then(s, u, Release(th), r);
    w := Then(s, w, Go(th), r);
    w := Then(s, w, Go(th), r);
    w := Then(s, w, Go(th), r);
    w := Then(s, w, Go(th), r);
  }

  lemma {:induction false} BothIsCareful(s: State, acts: seq<Action>)
    requires Runs(s, acts)
    ensures HalfCareful(s, acts, Both) <==> Careful(s, acts)
    decreases |acts|
  {
    if acts != [] {
      assert NoReuseIn(s, acts[0], Both) <==> NoReuse(s, acts[0]);
      BothIsCareful(Step(s, acts[0]), acts[1..]);
    }
  }

  // A reader that has found q, wherever it is in its attempt, goes back to the test of the key.
  lemma BackToKey(s: State, u: State, th: nat, r: Care) returns (w: State)
    requires Reach(s, u, r) && th < |u.pcs| && u.pcs[th].Try? && u.home < |u.slots| && u.cur > 0
    requires var Try(q, want, a) := u.pcs[th];
      && q < |u.slots| && u.slots[q].Entry? && u.slots[q].ts != want
      && (a.ReadTs? ==> a.w.cnt > 0) && (a.ReadTs? || a.CasUp? ==> a.w.ts == want)
    ensures Reach(s, w, r) && |w.pcs| == |u.pcs| && w.pcs[th].Try? && (w.pcs[th].a.CheckKey? || w.pcs[th].a.ReadWord?)
    ensures w == SetPc(u, th, u.pcs[th].(a := w.pcs[th].a))
  {
    hide Reach;
    w := u;
    if u.pcs[th].a.ReadTs? { w := Then(s, w, Go(th), r); }
    if w.pcs[th].a.CasUp? { w := Then(s, w, Go(th), r); }
  }

  // The rest of an acquire.
  lemma AcquiresOn(s: State, u: State, th: nat, r: Care) returns (w: State)
    requires Reach(s, u, r) && th < |u.pcs| && u.pcs[th].Try? && u.home < |u.slots| && u.cur > 0
    requires u.pcs[th].slot < |u.slots| && (u.pcs[th].a.CheckKey? || u.pcs[th].a.ReadWord?)
    requires var c := u.slots[u.pcs[th].slot]; c.Entry? && c.cnt > 0 && c.root
    ensures var q := u.pcs[th].slot; var c := u.slots[q];
      w == SetPc(SetSlot(u, q, Entry(c.ts, c.cnt + 1, true)), th, Own(q, c.ts, c.ts, Holding))
    ensures Reach(s, w, r)
  {
    hide Reach;
    w := u;
    if u.pcs[th].a.CheckKey? { w := Then(s, w, Go(th), r); }
    w := Then(s, w, Go(th), r);
    w := Then(s, w, Go(th), r);
    w := Then(s, w, Go(th), r);
    w := Then(s, w, Go(th), r);
  }

  // The writer has put a version into the slot q while the acquire of th still refers to it: th acquires
  // the version before it is visible and collects it as outdated, and the writer makes it the latest.
  lemma StaleAcquire(s: State, u: State, th: nat, q: nat, r: Care) returns (w: State)
    requires Reach(s, u, r) && u.home < |u.slots| && u.cur > 0 && 0 < th < |u.pcs| && q < |u.slots|
    requires u.slots[q] == Entry(u.cur, 1, true) && u.pcs[0].Own? && u.pcs[0].o.Publishing?
    requires TryOn(u.pcs[th], q) && u.pcs[th].want < u.cur
    requires var a := u.pcs[th].a; (a.ReadTs? ==> a.w.cnt > 0) && (a.ReadTs? || a.CasUp? ==> a.w.ts == u.pcs[th].want)
    ensures Reach(s, w, r) && w.cur - 1 in w.freed
  {
    hide Reach;
    w := BackToKey(s, u, th, r);
    w := AcquiresOn(s, w, th, r);
    w := Collects(s, w, th, q, u.cur, r);
    assert w.freed[|w.freed| - 1] == u.cur;
    w := Then(s, w, Go(0), r);
  }

  // The same with a release: the writer makes the version the latest, and th takes its last reference.
  lemma StaleRelease(s: State, u: State, th: nat, q: nat, r: Care) returns (w: State)
    requires Reach(s, u, r) && u.home < |u.slots| && u.cur > 0 && 0 < th < |u.pcs| && q < |u.slots|
    requires u.slots[q] == Entry(u.cur, 1, true) && u.pcs[0].Own? && u.pcs[0].o.Publishing?
    requires WindowOn(u.pcs[th], q) && u.pcs[th].ts < u.cur && !u.pcs[th].r.CasDown?
    ensures Reach(s, w, r) && w.cur == u.cur + 1 && w.slots == u.slots[q := Entry(u.cur, 0, true)]
  {
    hide Reach;
    w := Then(s, u, Go(0), r);
    if u.pcs[th].r.ReadLatest? { w := Then(s, w, Go(th), r); }
    w := Then(s, w, Go(th), r);
    w := Then(s, w, Go(th), r);
  }

  // Filling a slot that somebody refers to leads to a state that is not safe, by steps that keep the condition.
  lemma FillBreaks(u: State, a: Action, q: nat, th: nat) returns (w: State)
    requires Inv(u) && Fills(u, a, q) && th < |u.pcs| && Refers(u.pcs[th], q)
    ensures Reach(Step(u, a), w, Both) && !Safe(w)
  {
    var v := Step(u, a);
    assert PcOk(u, a.th, u.pcs[a.th]) && PcOk(u, th, u.pcs[th]);
    Start(v, Both);
    if u.pcs[th].Try? {
      w := StaleAcquire(v, v, th, q, Both);
    } else {
      w := StaleRelease(v, v, th, q, Both);
      forall l: nat
        ensures !LatestAt(w, l)
      {
        assert 0 <= l < |u.slots| ==> SlotOk(u, l);
      }
    }
  }

  // In a state of a careful run, a step is safe to take - whatever careful run follows it, every state is
  // safe - exactly when it puts no new version into a slot that an operation still refers to.
  lemma NoReuseExact(s: State, acts: seq<Action>, a: Action)
    requires Initial(s) && Runs(s, acts) && Careful(s, acts) && Enabled(Final(s, acts), a)
    ensures var u := Final(s, acts);
      NoReuse(u, a) <==>
      forall more :: Runs(Step(u, a), more) && Careful(Step(u, a), more) ==> Safe(Final(Step(u, a), more))
  {
    InitialInv(s);
    RunKeeps(s, acts);
    var u := Final(s, acts);
    var v := Step(u, a);
    if NoReuse(u, a) {
      StepKeeps(u, a);
      forall more | Runs(v, more) && Careful(v, more)
        ensures Safe(Final(v, more))
      {
        RunKeeps(v, more);
        InvSafe(Final(v, more));
      }
    } else {
      var q, th :| Fills(u, a, q) && 0 <= th < |u.pcs| && Refers(u.pcs[th], q);
      var w := FillBreaks(u, a, q, th);
      var more :| Runs(v, more) && HalfCareful(v, more, Both) && Final(v, more) == w;
      BothIsCareful(v, more);
    }
  }

  // A reader has found version 0 and pauses; meanwhile the writer replaces it and collects it.
  lemma WriterReplaces(s: State, r: Care) returns (u: State)
    requires s == State([Entry(0, 1, true), Free], 0, 1, [Idle, Idle], [])
    ensures u == State([Tomb, Entry(1, 1, true)], 0, 2, [Idle, Try(0, 0, CheckKey)], [0]) && Reach(s, u, r)
  {
    Start(s, r);
    hide Reach;
    u := Finds(s, s, 1, r);
    u := Finds(s, u, 0, r);
    u := Acquires(s, u, 0, 0, 0, 0, 1, r);
    u := Then(s, u, Insert(0), r);
    u := Then(s, u, Go(0), r);
    u := Then(s, u, Go(0), r);
    u := Then(s, u, Go(0), r);
    u := Collects(s, u, 0, 0, 0, r);
    u := Then(s, u, Go(0), r);
    u := Then(s, u, Go(0), r);
  }

  // The writer puts version 2 into the slot of version 0 and pauses before making it visible.
  lemma WriterReuses(s: State, t: State, r: Care) returns (u: State)
    requires t == State([Tomb, Entry(1, 1, true)], 0, 2, [Idle, Try(0, 0, CheckKey)], [0])
    requires Reach(s, t, r) && r == OnlyReleases
    ensures
      u == State([Entry(2, 1, true), Entry(1, 2, true)], 0, 2, [Own(1, 1, 1, Publishing), Try(0, 0, CheckKey)], [0])
    ensures Reach(s, u, r)
  {
    hide Reach;
    u := Then(s, t, Begin(0), r);
    u := Then(s, u, Go(0), r);
    u := Then(s, u, Go(0), r);
    u := Then(s, u, Go(0), r);
    u := Acquires(s, u, 0, 1, 1, 1, 1, r);
    u := Then(s, u, Insert(0), r);
    u := Then(s, u, Go(0), r);
  }

  // The paused reader acquires version 2 before it is visible and collects it as outdated; then the
  // writer makes it the latest version. No slot was reused while a release was in its window.
  lemma StaleAcquireCollectsLatest(s: State)
    requires s == State([Entry(0, 1, true), Free], 0, 1, [Idle, Idle], [])
    ensures Initial(s) && exists u :: Reach(s, u, OnlyReleases) && u.cur - 1 in u.freed
  {
    hide Reach;
    var u := WriterReplaces(s, OnlyReleases);
    u := WriterReuses(s, u, OnlyReleases);
    u := Acquires(s, u, 1, 0, 0, 2, 1, OnlyReleases);
    u := Collects(s, u, 1, 0, 2, OnlyReleases);
    u := Then(s, u, Go(0), OnlyReleases);
    assert u.cur - 1 == 2 && u.freed == [0, 2];
  }

  // Two readers hold version 0 or have found it while the writer publishes version 1.
  lemma WriterPublishes(s: State, r: Care) returns (u: State)
    requires s == State([Entry(0, 1, true), Free], 0, 1, [Idle, Idle, Idle], [])
    ensures u == State([Entry(0, 3, true), Entry(1, 1, true)], 0, 2,
                       [Own(0, 0, 0, Leaving), Own(0, 0, 0, Holding), Try(0, 0, CheckKey)], [])
    ensures Reach(s, u, r)
  {
    Start(s, r);
    hide Reach;
    u := Finds(s, s, 1, r);
    u := Acquires(s, u, 1, 0, 0, 0, 1, r);
    u := Finds(s, u, 2, r);
    u := Finds(s, u, 0, r);
    u := Acquires(s, u, 0, 0, 0, 0, 2, r);
    u := Then(s, u, Insert(0), r);
    u := Then(s, u, Go(0), r);
    u := Then(s, u, Go(0), r);
    u := Then(s, u, Go(0), r);
  }

  // The first releases and pauses before reading the count again; the second takes the version back
  // and collects it.
  lemma SecondCollects(s: State, r: Care) returns (u: State)
    requires s == State([Entry(0, 1, true), Free], 0, 1, [Idle, Idle, Idle], [])
    ensures u == State([Tomb, Entry(1, 1, true)], 0, 2, [Idle, Window(0, 0, 0, Reread), Idle], [0]) && Reach(s, u, r)
  {
    hide Reach;
    u := WriterPublishes(s, r);
    u := Then(s, u, Release(0), r);
    u := Then(s, u, Release(1), r);
    u := Then(s, u, Go(1), r);
    u := Acquires(s, u, 2, 0, 0, 0, 1, r);
    u := Collects(s, u, 2, 0, 0, r);
    u := Then(s, u, Go(2), r);
    u := Then(s, u, Go(2), r);
  }

  // The slot is reused for version 2 while the first release is in its window: the release takes the
  // last reference of version 2, the latest, and collects version 0 a second time.
  lemma StaleReleaseTakesLatest(s: State)
    requires s == State([Entry(0, 1, true), Free], 0, 1, [Idle, Idle, Idle], [])
    ensures Initial(s) && exists u :: Reach(s, u, OnlyAcquires) && !NoDup(u.freed) && !exists q :: LatestAt(u, q)
  {
    hide Reach;
    var u := SecondCollects(s, OnlyAcquires);
    u := Then(s, u, Begin(0), OnlyAcquires);
    u := Then(s, u, Go(0), OnlyAcquires);
    u := Then(s, u, Go(0), OnlyAcquires);
    u := Then(s, u, Go(0), OnlyAcquires);
    u := Acquires(s, u, 0, 1, 1, 1, 1, OnlyAcquires);
    u := Then(s, u, Insert(0), OnlyAcquires);
    u := Then(s, u, Go(0), OnlyAcquires);
    u := Then(s, u, Go(0), OnlyAcquires);
    u := Then(s, u, Go(1), OnlyAcquires);
    u := Then(s, u, Go(1), OnlyAcquires);
    u := Then(s, u, Go(1), OnlyAcquires);
    assert u.slots == [Entry(2, 0, true), Entry(1, 2, true)] && u.cur == 3 && u.freed == [0, 0];
    assert u.freed[0] == u.freed[1];
  }
}
