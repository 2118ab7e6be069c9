// What an acquire of the version table returns
// (comparison_systems/aspen/code/graph/versioned_graph.h:114-134): a version that was the latest at or after
// its beginning, and, when the reader moves alone, the latest one after a bounded number of accesses.
module VersionAnswers {
  import opened VersionTable

  // current_timestamp when thread th last began an operation, read off the run; b if it never did.
  ghost function BeganAt(s: State, acts: seq<Action>, th: nat, b: nat): nat
    requires Runs(s, acts)
    decreases |acts|
  {
    if acts == [] then b
    else BeganAt(Step(s, acts[0]), acts[1..], th, if acts[0] == Begin(th) then s.cur else b)
  }

  // The version that thread th looks for or owns is no older than the latest one at time b.
  predicate Recent(s: State, th: nat, b: nat)
    requires th < |s.pcs|
  {
    b <= s.cur &&
    match s.pcs[th]
    case Probe(want, _) => want + 1 >= b
    case Try(_, want, _) => want + 1 >= b
    case Own(_, ts, _, _) => ts + 1 >= b
    case _ => true
  }

  lemma RecentStep(s: State, a: Action, th: nat, b: nat)
    requires Inv(s) && Enabled(s, a) && NoReuse(s, a) && th < |s.pcs| && Recent(s, th, b)
    ensures |Step(s, a).pcs| == |s.pcs| && Recent(Step(s, a), th, if a == Begin(th) then s.cur else b)
  {
    assert PcOk(s, th, s.pcs[th]);
    hide Inv, NoReuse;
  }

  lemma {:induction false} RunRecent(s: State, acts: seq<Action>, th: nat, b: nat)
    requires Inv(s) && Runs(s, acts) && Careful(s, acts) && th < |s.pcs| && Recent(s, th, b)
    ensures Inv(Final(s, acts)) && |Final(s, acts).pcs| == |s.pcs|
    ensures Recent(Final(s, acts), th, BeganAt(s, acts, th, b))
    decreases |acts|
  {
    if acts != [] {
      RecentStep(s, acts[0], th, b);
      StepKeeps(s, acts[0]);
      hide Inv, NoReuse;
      RunRecent(Step(s, acts[0]), acts[1..], th, if acts[0] == Begin(th) then s.cur else b);
    }
  }

  // In every careful run, a thread that owns a version owns one that was latest when its acquire began or
  // later; the root it reads is that version's; and the writer builds on the latest version.
  lemma AcquiresLatest(s: State, acts: seq<Action>, th: nat)
    requires Initial(s) && Runs(s, acts) && Careful(s, acts) && th < |s.pcs| == |Final(s, acts).pcs|
    requires Final(s, acts).pcs[th].Own?
    ensures var u, p := Final(s, acts), Final(s, acts).pcs[th];
            && BeganAt(s, acts, th, 0) <= p.ts + 1 <= u.cur
            && p.slot < |u.slots| && u.slots[p.slot].Entry? && u.slots[p.slot].ts == p.ts
            && (!p.o.LoadRoot? ==> p.root == p.ts)
            && (th == 0 && !p.o.Leaving? ==> p.ts + 1 == u.cur)
  {
    InitialInv(s);
    RunRecent(s, acts, th, 0);
    assert PcOk(Final(s, acts), th, Final(s, acts).pcs[th]);
  }

  // ---- A reader alone ----

  // How many probes after home the cell q is reached.
  function ProbeDist(s: State, q: nat): nat
    requires s.home < |s.slots| && q < |s.slots|
  {
    if q >= s.home then q - s.home else q + |s.slots| - s.home
  }

  // Every cell that a probe passes on its way to q has been used.
  ghost predicate WayUsed(s: State, q: nat)
    requires s.home < |s.slots| && q < |s.slots|
  {
    forall p: nat :: p < |s.slots| && ProbeDist(s, p) < ProbeDist(s, q) ==> !s.slots[p].Free?
  }

  // A used cell is reached over used cells only, and so is the cell at which the writer looks.
  ghost predicate Chained(s: State) {
    && s.home < |s.slots|
    && (forall q: nat :: q < |s.slots| && !s.slots[q].Free? ==> WayUsed(s, q))
    && (forall th: nat :: th < |s.pcs| && s.pcs[th].Own? && s.pcs[th].o.Inserting? && s.pcs[th].o.h < |s.slots| ==>
          WayUsed(s, s.pcs[th].o.h))
  }

  lemma WayStays(s: State, u: State, q: nat)
    requires s.home < |s.slots| == |u.slots| && u.home == s.home && q < |s.slots| && WayUsed(s, q)
    requires forall p: nat :: p < |s.slots| && !s.slots[p].Free? ==> !u.slots[p].Free?
    ensures WayUsed(u, q)
  {
    forall p: nat | p < |u.slots| && ProbeDist(u, p) < ProbeDist(u, q)
      ensures !u.slots[p].Free?
    {
      assert ProbeDist(s, p) < ProbeDist(s, q);
    }
  }

  lemma WayNext(s: State, h: nat)
    requires s.home < |s.slots| && h < |s.slots| && WayUsed(s, h) && !s.slots[h].Free?
    ensures Next(s, h) < |s.slots| && WayUsed(s, Next(s, h))
  {
    forall p: nat | p < |s.slots| && ProbeDist(s, p) < ProbeDist(s, Next(s, h))
      ensures !s.slots[p].Free?
    {
      if p != h { assert ProbeDist(s, p) < ProbeDist(s, h); }
    }
  }

  // What a step does to the cells: used cells stay used, and only the writer's cell becomes used.
  lemma CellsStep(s: State, a: Action)
    requires Enabled(s, a)
    ensures var u, p := Step(s, a), s.pcs[a.th];
            && u.home == s.home && |u.slots| == |s.slots| && u.pcs == s.pcs[a.th := u.pcs[a.th]]
            && (forall q: nat :: q < |s.slots| && !s.slots[q].Free? ==> !u.slots[q].Free?)
            && (forall q: nat :: q < |s.slots| && s.slots[q].Free? && !u.slots[q].Free? ==>
                  (p.Own? && p.o == Inserting(q)) || (p.End? && p.slot == q))
            && (u.pcs[a.th].Own? && u.pcs[a.th].o.Inserting? ==>
                  u.pcs[a.th].o.h == s.home ||
                  (p.Own? && p.o.Inserting? && u.pcs[a.th].o.h == Next(s, p.o.h)
                   && p.o.h < |s.slots| && s.slots[p.o.h].Entry?))
  {
  }

  lemma ChainedStep(s: State, a: Action)
    requires Inv(s) && Enabled(s, a) && Chained(s)
    ensures Chained(Step(s, a))
  {
    var u, p := Step(s, a), s.pcs[a.th];
    CellsStep(s, a);
    assert PcOk(s, a.th, p);
    hide Inv, Step, Enabled;
    forall q: nat | q < |u.slots| && !u.slots[q].Free?
      ensures WayUsed(u, q)
    {
      WayStays(s, u, q);
    }
    forall th: nat | th < |u.pcs| && u.pcs[th].Own? && u.pcs[th].o.Inserting? && u.pcs[th].o.h < |u.slots|
      ensures WayUsed(u, u.pcs[th].o.h)
    {
      if th == a.th && u.pcs[th].o.h != s.home { WayNext(s, p.o.h); }
      if th != a.th { assert WayUsed(s, s.pcs[th].o.h); }
      if u.pcs[th].o.h != s.home { WayStays(s, u, u.pcs[th].o.h); }
    }
  }

  lemma {:induction false} RunChained(s: State, acts: seq<Action>)
    requires Inv(s) && Runs(s, acts) && Careful(s, acts) && Chained(s)
    ensures Inv(Final(s, acts)) && Chained(Final(s, acts)) && |Final(s, acts).pcs| == |s.pcs|
    decreases |acts|
  {
    if acts != [] {
      ChainedStep(s, acts[0]);
      StepKeeps(s, acts[0]);
      CellsStep(s, acts[0]);
      hide Inv, Chained, NoReuse;
      RunChained(Step(s, acts[0]), acts[1..]);
    }
  }

  lemma StartsChained(s: State)
    requires Initial(s)
    ensures Chained(s)
  {
  }

  // k accesses of thread th, which may be made as long as there is one to make.
  ghost function Moves(s: State, th: nat, k: nat): State
    decreases k
  {
    if k == 0 || !Enabled(s, Go(th)) then s else Moves(Step(s, Go(th)), th, k - 1)
  }

  lemma Move(s: State, th: nat, k: nat, u: State)
    requires Enabled(s, Go(th)) && k > 0 && Step(s, Go(th)) == u
    ensures Moves(s, th, k) == Moves(u, th, k - 1)
  {
  }

  lemma NoMove(s: State, th: nat)
    ensures Moves(s, th, 0) == s
  {
  }

  lemma Again(pcs: seq<Pc>, th: nat, a: Pc, b: Pc)
    requires th < |pcs|
    ensures pcs[th := a][th := b] == pcs[th := b]
  {
  }

  // From a positive look at the word of the cell on.
  lemma TakeAlone(s: State, th: nat, q: nat, want: nat)
    requires s.cur > 0 && s.home < |s.slots| && th < |s.pcs| && q < |s.slots|
    requires s.slots[q].Entry? && s.slots[q].cnt > 0 && s.slots[q].ts == want
    requires s.pcs[th] == Try(q, want, ReadTs(WordOf(s.slots[q])))
    ensures Moves(s, th, 3).pcs == s.pcs[th := Own(q, want, want, Holding)]
  {
    hide Moves;
    var w := WordOf(s.slots[q]);
    var s1 := SetPc(s, th, Try(q, want, CasUp(w, Key(want))));
    Move(s, th, 3, s1);
    var s2 := SetPc(SetSlot(s1, q, s.slots[q].(cnt := w.cnt + 1)), th, Own(q, want, 0, LoadRoot));
    Move(s1, th, 2, s2);
    var s3 := SetPc(s2, th, Own(q, want, want, Holding));
    Move(s2, th, 1, s3);
    NoMove(s3, th);
  }

  // From the cell of the latest version on: six accesses.
  lemma TryAlone(s: State, th: nat, q: nat)
    requires Inv(s) && th < |s.pcs| && LatestAt(s, q) && s.pcs[th] == Probe(s.cur - 1, q)
    ensures Moves(s, th, 6).pcs == s.pcs[th := Own(q, s.cur - 1, s.cur - 1, Holding)]
  {
    var want := s.cur - 1;
    assert s.cur > 0 && s.home < |s.slots|;
    hide Inv, Moves;
    var s1 := SetPc(s, th, Try(q, want, CheckKey));
    Move(s, th, 6, s1);
    var s2 := SetPc(s1, th, Try(q, want, ReadWord));
    Move(s1, th, 5, s2);
    var s3 := SetPc(s2, th, Try(q, want, ReadTs(WordOf(s.slots[q]))));
    Move(s2, th, 4, s3);
    TakeAlone(s3, th, q, want);
    Again(s.pcs, th, s1.pcs[th], s2.pcs[th]);
    Again(s.pcs, th, s2.pcs[th], s3.pcs[th]);
    Again(s.pcs, th, s3.pcs[th], Own(q, want, want, Holding));
  }

  lemma OnlyLatest(s: State, h: nat, q: nat)
    requires Inv(s) && LatestAt(s, q) && h < |s.slots| && h != q
    ensures !(s.slots[h].Entry? && s.slots[h].ts == s.cur - 1)
  {
    assert SameEntry(s.slots[h], s.slots[q]) ==> h == q;
  }

  lemma {:induction false} ProbeAlone(s: State, th: nat, h: nat, q: nat) returns (k: nat)
    requires Inv(s) && Chained(s) && th < |s.pcs| && LatestAt(s, q) && h < |s.slots|
    requires s.pcs[th] == Probe(s.cur - 1, h) && ProbeDist(s, h) <= ProbeDist(s, q)
    ensures k <= ProbeDist(s, q) - ProbeDist(s, h) + 6
    ensures Moves(s, th, k).pcs == s.pcs[th := Own(q, s.cur - 1, s.cur - 1, Holding)]
    decreases ProbeDist(s, q) - ProbeDist(s, h)
  {
    if h == q {
      k := 6;
      TryAlone(s, th, q);
    } else {
      assert WayUsed(s, q) && !s.slots[h].Free?;
      var want, n := s.cur - 1, Next(s, h);
      OnlyLatest(s, h, q);
      var u := SetPc(s, th, Probe(want, n));
      QuietKeeps(s, th, Probe(want, n));
      PcsDoNotMatter(s, th, Probe(want, n));
      hide Inv, Chained, Moves;
      k := ProbeAlone(u, th, n, q);
      k := k + 1;
      Move(s, th, k, u);
      assert u.pcs[th := Own(q, want, want, Holding)] == s.pcs[th := Own(q, want, want, Holding)];
    }
  }

  lemma PcsDoNotMatter(s: State, th: nat, p: Pc)
    requires Chained(s) && th < |s.pcs| && !p.Own?
    ensures Chained(SetPc(s, th, p))
  {
    var u := SetPc(s, th, p);
    forall q: nat | q < |u.slots| && (!u.slots[q].Free? || WayUsed(s, q))
      ensures WayUsed(u, q)
    {
      WayStays(s, u, q);
    }
  }

  // Wherever a careful run has left the others, an idle reader that now moves alone owns the latest version
  // after at most |slots| + 6 accesses.
  lemma ReaderAlone(s: State, acts: seq<Action>, th: nat) returns (k: nat, q: nat)
    requires Initial(s) && Runs(s, acts) && Careful(s, acts) && th < |Final(s, acts).pcs|
    requires Enabled(Final(s, acts), Begin(th))
    ensures var u := Final(s, acts);
            && k <= |u.slots| + 6
            && Moves(Step(u, Begin(th)), th, k).pcs == u.pcs[th := Own(q, u.cur - 1, u.cur - 1, Holding)]
  {
    InitialInv(s);
    StartsChained(s);
    RunChained(s, acts);
    hide Inv, Chained, Moves;
    k, q := IdleAlone(Final(s, acts), th);
  }

  lemma IdleAlone(u: State, th: nat) returns (k: nat, q: nat)
    requires Inv(u) && Chained(u) && th < |u.pcs| && Enabled(u, Begin(th))
    ensures k <= |u.slots| + 6
    ensures Moves(Step(u, Begin(th)), th, k).pcs == u.pcs[th := Own(q, u.cur - 1, u.cur - 1, Holding)]
  {
    q :| LatestAt(u, q);
    var v := Step(u, Begin(th));
    QuietKeeps(u, th, Reload);
    PcsDoNotMatter(u, th, Reload);
    var p := Probe(v.cur - 1, v.home);
    var w := SetPc(v, th, p);
    QuietKeeps(v, th, p);
    PcsDoNotMatter(v, th, p);
    assert LatestAt(w, q);
    hide Inv, Chained, Moves;
    k := ProbeAlone(w, th, w.home, q);
    k := k + 1;
    Move(v, th, k, w);
    assert w.pcs[th := Own(q, u.cur - 1, u.cur - 1, Holding)] == u.pcs[th := Own(q, u.cur - 1, u.cur - 1, Holding)];
  }
}
