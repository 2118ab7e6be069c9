// Parallel insertion into the hash table: insert (comparison_systems/aspen/code/pbbslib/hash_table.h,
// lines 83-102) as the steps of any number of threads, each a read of a cell or a compare-and-swap.
// Inserts may run in parallel with each other, not with searches and deletions (lines 36-38).
module HashInserts {
  import opened HashTable

  // Look: about to read the cell i, with v in hand. Swap: about to compare-and-swap it, having read c.
  datatype Pc = Idle | Look(v: int, i: nat) | Swap(v: int, i: nat, c: Cell)

  // asked holds the keys of all calls so far.
  datatype State = State(t: seq<Cell>, pcs: seq<Pc>, asked: set<int>)

  // replace is the answer of replaceQ for an equal key.
  datatype Action = Begin(th: nat, key: int) | Read(th: nat, replace: bool) | Cas(th: nat)

  predicate Enabled(s: State, a: Action) {
    a.th < |s.pcs| &&
    match a
    case Begin(th, _) => s.pcs[th].Idle?
    case Read(th, _) => s.pcs[th].Look? && s.pcs[th].i < |s.t|
    case Cas(th) => s.pcs[th].Swap? && s.pcs[th].i < |s.t|
  }

  function AfterRead(t: seq<Cell>, v: int, i: nat, replace: bool): Pc
    requires i < |t|
  {
    var c := t[i];
    if c.Full? && v == c.key && !replace then Idle
    else if c.Full? && v < c.key then Look(v, Inc(|t|, i))
    else Swap(v, i, c)
  }

  // After a successful compare-and-swap of c for v.
  function AfterSwap(m: nat, v: int, i: nat, c: Cell): Pc {
    if c.Empty? || c.key == v then Idle else Look(c.key, Inc(m, i))
  }

  function Step(s: State, h: Hash, a: Action): State
    requires Enabled(s, a)
  {
    match a
    case Begin(th, key) => s.(pcs := s.pcs[th := Look(key, h(key))], asked := s.asked + {key})
    case Read(th, replace) => s.(pcs := s.pcs[th := AfterRead(s.t, s.pcs[th].v, s.pcs[th].i, replace)])
    case Cas(th) =>
      var p := s.pcs[th];
      if s.t[p.i] == p.c then
        s.(t := s.t[p.i := Full(p.v)], pcs := s.pcs[th := AfterSwap(|s.t|, p.v, p.i, p.c)])
      else s.(pcs := s.pcs[th := Look(p.v, p.i)])
  }

  // A schedule whose steps are all possible and which always has an empty cell.
  ghost predicate Runs(s: State, h: Hash, acts: seq<Action>)
    decreases |acts|
  {
    acts == [] || (Enabled(s, acts[0]) && HasEmpty(s.t) && Runs(Step(s, h, acts[0]), h, acts[1..]))
  }

  ghost function Final(s: State, h: Hash, acts: seq<Action>): State
    requires Runs(s, h, acts)
    decreases |acts|
  {
    if acts == [] then s else Final(Step(s, h, acts[0]), h, acts[1..])
  }

  ghost function Asked(s: State, acts: seq<Action>): set<int> {
    s.asked + set a | a in acts && a.Begin? :: a.key
  }

  // ---- The invariant ----

  // The key in hand has passed only cells with keys of higher priority.
  ghost predicate PcOk(t: seq<Cell>, h: Hash, p: Pc)
    requires HashOk(h, |t|)
  {
    !p.Idle? ==> p.i < |t| && Placed(t, h, p.v, p.i) && (p.Swap? && p.c.Full? ==> p.c.key <= p.v)
  }

  ghost predicate InHands(pcs: seq<Pc>, k: int) {
    exists th :: 0 <= th < |pcs| && !pcs[th].Idle? && pcs[th].v == k
  }

  ghost predicate Present(s: State, k: int) { HasKey(s.t, k) || InHands(s.pcs, k) }

  // The keys of t0 and of the calls are in the table or in a thread's hands.
  ghost predicate Inv(s: State, h: Hash, t0: seq<Cell>) {
    && |s.t| == |t0| && Layout(s.t, h)
    && (forall th :: 0 <= th < |s.pcs| ==> PcOk(s.t, h, s.pcs[th]))
    && (forall k :: Present(s, k) <==> HasKey(t0, k) || k in s.asked)
  }

  lemma HandsAfter(pcs: seq<Pc>, th: nat, p: Pc, k: int)
    requires th < |pcs|
    ensures InHands(pcs[th := p], k) ==> InHands(pcs, k) || (!p.Idle? && p.v == k)
    ensures InHands(pcs, k) ==> InHands(pcs[th := p], k) || (!pcs[th].Idle? && pcs[th].v == k)
    ensures !p.Idle? && p.v == k ==> InHands(pcs[th := p], k)
    ensures !pcs[th].Idle? && pcs[th].v == k ==> InHands(pcs, k)
  {
    var u := pcs[th := p];
    if i :| 0 <= i < |pcs| && !pcs[i].Idle? && pcs[i].v == k && i != th { assert u[i] == pcs[i]; }
    if i :| 0 <= i < |u| && !u[i].Idle? && u[i].v == k && i != th { assert u[i] == pcs[i]; }
    assert u[th] == p;
  }

  lemma BeginKeeps(s: State, h: Hash, t0: seq<Cell>, a: Action)
    requires Inv(s, h, t0) && Enabled(s, a) && a.Begin?
    ensures Inv(Step(s, h, a), h, t0)
  {
    var u := Step(s, h, a);
    NothingBefore(s.t, h, a.key);
    forall k ensures Present(u, k) <==> HasKey(t0, k) || k in u.asked {
      HandsAfter(s.pcs, a.th, u.pcs[a.th], k);
      assert Present(s, k) <==> HasKey(t0, k) || k in s.asked;
    }
  }

  lemma ReadKeeps(s: State, h: Hash, t0: seq<Cell>, a: Action)
    requires Inv(s, h, t0) && Enabled(s, a) && a.Read? && HasEmpty(s.t)
    ensures Inv(Step(s, h, a), h, t0)
  {
    var u, p := Step(s, h, a), s.pcs[a.th];
    assert PcOk(s.t, h, p);
    var e :| 0 <= e < |s.t| && s.t[e].Empty?;
    if s.t[p.i].Full? && p.v < s.t[p.i].key { SearchStep(s.t, h, p.v, p.i, e); }
    assert u.pcs[a.th].Idle? ==> HasKey(s.t, p.v);
    forall k ensures Present(u, k) <==> HasKey(t0, k) || k in u.asked {
      HandsAfter(s.pcs, a.th, u.pcs[a.th], k);
      assert Present(s, k) <==> HasKey(t0, k) || k in s.asked;
    }
  }

  lemma CasKeeps(s: State, h: Hash, t0: seq<Cell>, a: Action)
    requires Inv(s, h, t0) && Enabled(s, a) && a.Cas? && HasEmpty(s.t)
    ensures Inv(Step(s, h, a), h, t0)
  {
    var u, p := Step(s, h, a), s.pcs[a.th];
    assert PcOk(s.t, h, p);
    if s.t[p.i] == p.c {
      SwapLayout(s, h, t0, a);
      SwapKeys(s, h, t0, a);
    } else {
      forall k ensures Present(u, k) <==> HasKey(t0, k) || k in u.asked {
        HandsAfter(s.pcs, a.th, u.pcs[a.th], k);
        assert Present(s, k) <==> HasKey(t0, k) || k in s.asked;
      }
    }
  }

  lemma SwapLayout(s: State, h: Hash, t0: seq<Cell>, a: Action)
    requires Inv(s, h, t0) && Enabled(s, a) && a.Cas? && HasEmpty(s.t) && s.t[s.pcs[a.th].i] == s.pcs[a.th].c
    ensures var u := Step(s, h, a); Layout(u.t, h) && forall th :: 0 <= th < |u.pcs| ==> PcOk(u.t, h, u.pcs[th])
  {
    var u, p := Step(s, h, a), s.pcs[a.th];
    assert PcOk(s.t, h, p);
    RaiseKeeps(s.t, h, p.i, p.v);
    forall th | 0 <= th < |u.pcs| ensures PcOk(u.t, h, u.pcs[th]) {
      if th == a.th {
        var e :| 0 <= e < |s.t| && s.t[e].Empty?;
        if u.pcs[th].Look? { BumpKeeps(s.t, h, p.i, p.v, e); }
      } else {
        assert PcOk(s.t, h, s.pcs[th]);
      }
    }
  }

  lemma SwapKeys(s: State, h: Hash, t0: seq<Cell>, a: Action)
    requires Inv(s, h, t0) && Enabled(s, a) && a.Cas? && s.t[s.pcs[a.th].i] == s.pcs[a.th].c
    ensures var u := Step(s, h, a); forall k :: Present(u, k) <==> HasKey(t0, k) || k in u.asked
  {
    var u, p := Step(s, h, a), s.pcs[a.th];
    KeysAfterWrite(s.t, p.i, Full(p.v));
    forall k ensures Present(u, k) <==> HasKey(t0, k) || k in u.asked {
      HandsAfter(s.pcs, a.th, u.pcs[a.th], k);
      assert Present(s, k) <==> HasKey(t0, k) || k in s.asked;
      if j :| 0 <= j < |s.t| && s.t[j] == Full(k) && j != p.i { assert HasKey(u.t, k); }
    }
  }

  lemma StepKeeps(s: State, h: Hash, t0: seq<Cell>, a: Action)
    requires Inv(s, h, t0) && Enabled(s, a) && HasEmpty(s.t)
    ensures Inv(Step(s, h, a), h, t0)
  {
    match a
    case Begin(_, _) => BeginKeeps(s, h, t0, a);
    case Read(_, _) => ReadKeeps(s, h, t0, a);
    case Cas(_) => CasKeeps(s, h, t0, a);
  }

  lemma {:induction false} RunKeeps(s: State, h: Hash, t0: seq<Cell>, acts: seq<Action>)
    requires Inv(s, h, t0) && Runs(s, h, acts)
    ensures Inv(Final(s, h, acts), h, t0) && Final(s, h, acts).asked == Asked(s, acts)
    decreases |acts|
  {
    if acts != [] {
      StepKeeps(s, h, t0, acts[0]);
      RunKeeps(Step(s, h, acts[0]), h, t0, acts[1..]);
      assert acts == [acts[0]] + acts[1..];
    }
  }

  ghost predicate Starts(s: State, h: Hash) {
    Layout(s.t, h) && s.asked == {} && forall th :: 0 <= th < |s.pcs| ==> s.pcs[th].Idle?
  }

  predicate Quiescent(s: State) { forall th :: 0 <= th < |s.pcs| ==> s.pcs[th].Idle? }

  // Any interleaving of inserts that runs to the end leaves the layout of the old and the new keys.
  lemma InsertPhase(s: State, h: Hash, acts: seq<Action>)
    requires Starts(s, h) && Runs(s, h, acts) && Quiescent(Final(s, h, acts))
    ensures var t := Final(s, h, acts).t;
            Layout(t, h) && |t| == |s.t| && forall k :: HasKey(t, k) <==> HasKey(s.t, k) || k in Asked(s, acts)
  {
    RunKeeps(s, h, s.t, acts);
    var u := Final(s, h, acts);
    forall k ensures HasKey(u.t, k) <==> HasKey(s.t, k) || k in Asked(s, acts) {
      assert Present(u, k) <==> HasKey(s.t, k) || k in u.asked;
    }
  }

  // The final table depends neither on the schedule nor on the number of threads.
  lemma ScheduleIndependent(s1: State, acts1: seq<Action>, s2: State, acts2: seq<Action>, h: Hash)
    requires Starts(s1, h) && Runs(s1, h, acts1) && Quiescent(Final(s1, h, acts1))
    requires Starts(s2, h) && Runs(s2, h, acts2) && Quiescent(Final(s2, h, acts2))
    requires s1.t == s2.t && Asked(s1, acts1) == Asked(s2, acts2)
    ensures Final(s1, h, acts1).t == Final(s2, h, acts2).t
  {
    InsertPhase(s1, h, acts1);
    InsertPhase(s2, h, acts2);
    UniqueLayout(Final(s1, h, acts1).t, Final(s2, h, acts2).t, h);
  }

  // ---- An insert alone ends ----

  // The accesses thread th has left before it reaches the empty cell e, when it moves alone.
  function Ahead(s: State, th: nat, e: nat): nat
    requires th < |s.pcs| && e < |s.t|
  {
    match s.pcs[th]
    case Idle => 0
    case Look(_, i) => if i < |s.t| then 2 * Dist(|s.t|, i, e) + 2 else 0
    case Swap(_, i, c) => if i >= |s.t| then 0 else 2 * Dist(|s.t|, i, e) + if s.t[i] == c then 1 else 3
  }

  // The next access of a busy thread; an equal key is replaced.
  function NextOf(s: State, th: nat): Action
    requires th < |s.pcs|
  {
    if s.pcs[th].Look? then Read(th, true) else Cas(th)
  }

  lemma AloneShrinks(s: State, h: Hash, t0: seq<Cell>, th: nat, e: nat)
    requires Inv(s, h, t0) && th < |s.pcs| && !s.pcs[th].Idle? && e < |s.t| && s.t[e].Empty?
    ensures Enabled(s, NextOf(s, th))
    ensures var u := Step(s, h, NextOf(s, th));
            && |u.pcs| == |s.pcs| && |u.t| == |s.t| && Ahead(u, th, e) < Ahead(s, th, e)
            && (!u.pcs[th].Idle? ==> u.t[e].Empty?)
  {
    assert PcOk(s.t, h, s.pcs[th]);
    hide Layout, Present, Placed;
  }

  // Whatever the other threads have been doing, an insert that now moves alone comes to an end, after at most
  // twice as many accesses as there are cells, and one.
  lemma {:induction false} AloneEnds(s: State, h: Hash, t0: seq<Cell>, th: nat, e: nat) returns (acts: seq<Action>)
    requires Inv(s, h, t0) && th < |s.pcs| && e < |s.t| && s.t[e].Empty?
    ensures |acts| <= Ahead(s, th, e) && (forall a <- acts :: a.th == th && !a.Begin?)
    ensures Runs(s, h, acts) && th < |Final(s, h, acts).pcs| && Final(s, h, acts).pcs[th].Idle?
    decreases Ahead(s, th, e)
  {
    if s.pcs[th].Idle? {
      acts := [];
    } else {
      AloneShrinks(s, h, t0, th, e);
      var a := NextOf(s, th);
      StepKeeps(s, h, t0, a);
      var u := Step(s, h, a);
      hide Inv, Ahead;
      if u.pcs[th].Idle? {
        acts := [a];
        AloneOne(s, h, a);
      } else {
        var rest := AloneEnds(u, h, t0, th, e);
        acts := [a] + rest;
        assert acts[1..] == rest;
      }
    }
  }

  lemma AloneOne(s: State, h: Hash, a: Action)
    requires Enabled(s, a) && HasEmpty(s.t)
    ensures Runs(s, h, [a]) && Final(s, h, [a]) == Step(s, h, a)
  {
    assert [a][1..] == [];
  }

  lemma InsertAlone(s: State, h: Hash, before: seq<Action>, th: nat) returns (acts: seq<Action>)
    requires Starts(s, h) && Runs(s, h, before) && th < |Final(s, h, before).pcs| && HasEmpty(Final(s, h, before).t)
    ensures |acts| <= 2 * |s.t| + 1 && (forall a <- acts :: a.th == th && !a.Begin?)
    ensures var u := Final(s, h, before);
            Runs(u, h, acts) && th < |Final(u, h, acts).pcs| && Final(u, h, acts).pcs[th].Idle?
  {
    RunKeeps(s, h, s.t, before);
    var u := Final(s, h, before);
    var e: nat :| e < |u.t| && u.t[e].Empty?;
    acts := AloneEnds(u, h, s.t, th, e);
  }
}
