// What the callers of the work-stealing deque are told, and when
// (comparison_systems/aspen/code/pbbslib/scheduler.h:72-136): which jobs the pushes of a run put in, why a
// thief may come back empty-handed, and after how many of its own accesses every call ends.
module DequeAnswers {
  import opened Deque

  function Front(acts: seq<Act>): seq<Act>
    requires acts != []
  {
    acts[..|acts| - 1]
  }

  function Last(acts: seq<Act>): Act
    requires acts != []
  {
    acts[|acts| - 1]
  }

  lemma {:induction false} RunShape(s: State, acts: seq<Act>)
    requires |s.deq| == Q_SIZE
    ensures |Run(s, acts).deq| == Q_SIZE && |Run(s, acts).thieves| == |s.thieves|
    decreases |acts|
  {
    if acts != [] { RunShape(Step(s, acts[0]).0, acts[1..]); }
  }

  lemma {:induction false} RunLast(s: State, acts: seq<Act>)
    requires |s.deq| == Q_SIZE && acts != []
    ensures |Run(s, Front(acts)).deq| == Q_SIZE && Run(s, acts) == Step(Run(s, Front(acts)), Last(acts)).0
    decreases |acts|
  {
    RunShape(s, Front(acts));
    if |acts| > 1 {
      RunLast(Step(s, acts[0]).0, acts[1..]);
      assert Front(acts)[1..] == Front(acts[1..]);
    } else {
      assert Front(acts) == [] && acts[1..] == [];
    }
  }

  // ---- Pushes ----

  // The jobs of the calls to push_bottom, in order: a call is taken up when the owner is free.
  ghost function Asked(s: State, acts: seq<Act>): seq<Job>
    requires |s.deq| == Q_SIZE
    decreases |acts|
  {
    if acts == [] then []
    else
      var before, a := Asked(s, Front(acts)), Last(acts);
      if a.Own? && a.call.Push? && Run(s, Front(acts)).owner.Free? then before + [a.call.job] else before
  }

  ghost predicate PushInv(s: State, asked: seq<Job>) {
    s.pushed == asked && (InHand(s.owner) != [] ==> asked != [] && InHand(s.owner) == [asked[|asked| - 1]])
  }

  lemma PushStep(s: State, a: Act, asked: seq<Job>)
    requires |s.deq| == Q_SIZE && PushInv(s, asked)
    ensures PushInv(Step(s, a).0, if a.Own? && a.call.Push? && s.owner.Free? then asked + [a.call.job] else asked)
  {
  }

  lemma {:induction false} RunPushes(s: State, acts: seq<Act>)
    requires |s.deq| == Q_SIZE && PushInv(s, [])
    ensures PushInv(Run(s, acts), Asked(s, acts))
    decreases |acts|
  {
    if acts != [] {
      RunPushes(s, Front(acts));
      RunLast(s, acts);
      PushStep(Run(s, Front(acts)), Last(acts), Asked(s, Front(acts)));
    }
  }

  // In every run the jobs asked for are, with multiplicity, those returned, those in the deque and the one
  // in the owner's hands, and the store of bot appends the job of the latest call at the bottom.
  lemma PushedAsAsked(deq: seq<Job>, thieves: nat, acts: seq<Act>, c: Call)
    requires |deq| == Q_SIZE
    ensures var s0, s := Initial(deq, thieves), Run(Initial(deq, thieves), acts);
            var asked := Asked(s0, acts);
            && Bounds(s) && Bounds(Step(s, Own(c)).0)
            && multiset(asked) == multiset(s.returned) + multiset(Jobs(s)) + multiset(InHand(s.owner))
            && (s.owner.PushBot? ==>
                  asked != [] && Jobs(Step(s, Own(c)).0) == Jobs(s) + [asked[|asked| - 1]]
                  && Step(s, Own(c)).0.owner.Free?)
  {
    RunPushes(Initial(deq, thieves), acts);
    NoJobLostOrDuplicated(deq, thieves, acts);
    RunRefines(deq, thieves, acts, Own(c));
  }

  // ---- Thieves ----

  // age has not changed since thief t called pop_top.
  ghost predicate Calm(s: State, acts: seq<Act>, t: nat)
    requires |s.deq| == Q_SIZE && t < |s.thieves|
    decreases |acts|
  {
    acts == [] ||
    (RunShape(s, Front(acts));
     var b := Run(s, Front(acts));
     (Last(acts) == Steal(t) && b.thieves[t].Away?) || (Run(s, acts).age == b.age && Calm(s, Front(acts), t)))
  }

  predicate HasSeen(p: Thief, age: Age) { p.StealBot? || p.StealJob? || p.StealCas? ==> p.seen == age }

  lemma SeenStep(s: State, a: Act, t: nat)
    requires |s.deq| == Q_SIZE && t < |s.thieves|
    requires HasSeen(s.thieves[t], s.age) || (a == Steal(t) && s.thieves[t].Away?)
    requires Step(s, a).0.age == s.age || (a == Steal(t) && s.thieves[t].Away?)
    ensures HasSeen(Step(s, a).0.thieves[t], Step(s, a).0.age)
  {
  }

  lemma {:induction false} CalmSeen(s: State, acts: seq<Act>, t: nat)
    requires |s.deq| == Q_SIZE && t < |s.thieves| && s.thieves[t].Away? && Calm(s, acts, t)
    ensures |Run(s, acts).thieves| == |s.thieves| && HasSeen(Run(s, acts).thieves[t], Run(s, acts).age)
    decreases |acts|
  {
    RunShape(s, acts);
    if acts != [] {
      RunShape(s, Front(acts));
      RunLast(s, acts);
      var b := Run(s, Front(acts));
      if !(Last(acts) == Steal(t) && b.thieves[t].Away?) { CalmSeen(s, Front(acts), t); }
      SeenStep(b, Last(acts), t);
    }
  }

  // A thief comes back empty-handed only if age changed during its call, or there is no job, or the owner
  // is inside pop_bottom contesting the only one.
  lemma NullExplained(deq: seq<Job>, thieves: nat, acts: seq<Act>, t: nat)
    requires |deq| == Q_SIZE && t < thieves && Calm(Initial(deq, thieves), acts, t)
    ensures var s := Run(Initial(deq, thieves), acts);
            && Bounds(s)
            && (Step(s, Steal(t)).1.Null? ==> Jobs(s) == [] || (|Jobs(s)| == 1 && Contesting(s.owner)))
  {
    RunConserves(Initial(deq, thieves), acts);
    CalmSeen(Initial(deq, thieves), acts, t);
  }

  // ---- Every call ends ----

  function ThiefAhead(p: Thief): nat {
    match p
    case Away => 5
    case StealAge => 4
    case StealBot(_) => 3
    case StealJob(_) => 2
    case StealCas(_, _) => 1
  }

  function OwnerAhead(o: Owner): nat {
    match o
    case Free => 8
    case PushLoad(_) => 3
    case PushStore(_, _) => 2
    case PushBot(_, _) => 1
    case Overflow(_) => 0
    case PopLoad => 7
    case PopBot(_) => 6
    case PopJob(_) => 5
    case PopAge(_, _) => 4
    case PopZero(_, _, _) => 3
    case PopCas(_, _, _) => 2
    case PopReset(_, _) => 1
  }

  predicate Pushing(o: Owner) { o.PushLoad? || o.PushStore? || o.PushBot? }

  predicate Popping(o: Owner) { !o.Free? && !Pushing(o) && !o.Overflow? }

  // A thief's access ends its call with an answer, or brings it closer to one.
  lemma ThiefShrinks(s: State, t: nat)
    requires Inv(s) && t < |s.thieves|
    ensures var (s', r) := ThiefStep(s, t);
            if r.Running? then !s'.thieves[t].Away? && ThiefAhead(s'.thieves[t]) < ThiefAhead(s.thieves[t])
            else s'.thieves[t].Away?
  {
    assert ThiefInv(s, s.thieves[t]);
  }

  // An owner's access brings a pop closer to its answer, and a push closer to its end; a push gives up
  // exactly when the deque has no cell left.
  lemma OwnerShrinks(s: State, c: Call)
    requires Inv(s)
    ensures var (s', r) := OwnerStep(s, c);
            && (Popping(s.owner) ==> if r.Running? then Popping(s'.owner) else s'.owner.Free?)
            && (Pushing(s.owner) ==> r.Running? && (s.owner.PushBot? <==> s'.owner.Free?))
            && (Pushing(s.owner) && !s.owner.PushBot? ==> Pushing(s'.owner) || s'.owner.Overflow?)
            && (s'.owner.Overflow? <==>
                  s.owner.Overflow? || (s.owner.PushStore? && s.bot == Q_SIZE - 1))
            && (s.owner.Free? ==> if c.Push? then s'.owner == PushLoad(c.job) else s'.owner.PopLoad?)
            && ((Popping(s.owner) || Pushing(s.owner)) && !s'.owner.Free? ==>
                  OwnerAhead(s'.owner) < OwnerAhead(s.owner))
  {
  }

  function StepsOf(acts: seq<Act>, t: nat): nat {
    if acts == [] then 0 else StepsOf(acts[1..], t) + if acts[0] == Steal(t) then 1 else 0
  }

  function OwnSteps(acts: seq<Act>): nat {
    if acts == [] then 0 else OwnSteps(acts[1..]) + if acts[0].Own? then 1 else 0
  }

  // Whatever the others do, a call of pop_top is answered by the thief's fifth access.
  lemma {:induction false} ThiefAnswered(s: State, acts: seq<Act>, t: nat) returns (m: nat)
    requires Inv(s) && t < |s.thieves| && StepsOf(acts, t) >= ThiefAhead(s.thieves[t])
    ensures m < |acts| && acts[m] == Steal(t) && |Run(s, acts[..m]).deq| == Q_SIZE
    ensures !Step(Run(s, acts[..m]), Steal(t)).1.Running?
    decreases |acts|
  {
    var a := acts[0];
    StepKeeps(s, a);
    if a == Steal(t) { ThiefShrinks(s, t); }
    if a == Steal(t) && !Step(s, a).1.Running? {
      m := 0;
    } else {
      OthersStay(s, a, t);
      m := ThiefAnswered(Step(s, a).0, acts[1..], t);
      m := m + 1;
      assert acts[..m][1..] == acts[1..][..m - 1];
    }
  }

  lemma OthersStay(s: State, a: Act, t: nat)
    requires |s.deq| == Q_SIZE && t < |s.thieves|
    ensures a != Steal(t) ==> Step(s, a).0.thieves[t] == s.thieves[t]
  {
  }

  lemma OwnerStays(s: State, a: Act)
    requires |s.deq| == Q_SIZE
    ensures a.Steal? ==> Step(s, a).0.owner == s.owner
  {
  }

  // Whatever the thieves do, a pop is answered within seven accesses of the owner.
  lemma {:induction false} PopAnswered(s: State, acts: seq<Act>) returns (m: nat)
    requires Inv(s) && Popping(s.owner) && OwnSteps(acts) >= OwnerAhead(s.owner)
    ensures m < |acts| && acts[m].Own? && |Run(s, acts[..m]).deq| == Q_SIZE
    ensures !Step(Run(s, acts[..m]), acts[m]).1.Running?
    decreases |acts|
  {
    var a := acts[0];
    StepKeeps(s, a);
    OwnerStays(s, a);
    if a.Own? { OwnerShrinks(s, a.call); }
    if a.Own? && !Step(s, a).1.Running? {
      m := 0;
    } else {
      m := PopAnswered(Step(s, a).0, acts[1..]);
      m := m + 1;
      assert acts[..m][1..] == acts[1..][..m - 1];
    }
  }

  // ---- A steal alone ----

  // The answer of thief t when only t moves.
  ghost function Alone(s: State, t: nat, k: nat): (State, Result)
    requires |s.deq| == Q_SIZE && t < |s.thieves|
    decreases k
  {
    var (s', r) := ThiefStep(s, t);
    if k == 0 || !r.Running? then (s', r) else Alone(s', t, k - 1)
  }

  lemma AloneMore(s: State, t: nat, k: nat)
    requires |s.deq| == Q_SIZE && t < |s.thieves| && ThiefStep(s, t).1.Running? && k > 0
    ensures |ThiefStep(s, t).0.deq| == Q_SIZE && |ThiefStep(s, t).0.thieves| == |s.thieves|
    ensures Alone(s, t, k) == Alone(ThiefStep(s, t).0, t, k - 1)
  {
  }

  // The fifth access takes the top job.
  lemma AloneTakes(s: State, t: nat)
    requires Inv(s) && t < |s.thieves| && s.thieves[t].Away? && s.age.top < s.bot && s.age.top < Q_SIZE
    ensures
      var job := s.deq[s.age.top];
      Alone(s, t, 4) == (s.(age := Age(s.age.tag, s.age.top + 1), returned := s.returned + [job]), Got(job))
  {
    var s1 := ThiefStep(s, t).0;
    AloneMore(s, t, 4);
    var s2 := ThiefStep(s1, t).0;
    AloneMore(s1, t, 3);
    var s3 := ThiefStep(s2, t).0;
    AloneMore(s2, t, 2);
    AloneMore(s3, t, 1);
    var s4 := ThiefStep(s3, t).0;
    assert Alone(s, t, 4) == ThiefStep(s4, t);
    assert s.thieves[t := StealAge][t := StealBot(s.age)][t := StealJob(s.age)]
      [t := StealCas(s.age, s.deq[s.age.top])][t := Away] == s.thieves;
  }

  lemma AloneNull(s: State, t: nat)
    requires Inv(s) && t < |s.thieves| && s.thieves[t].Away? && s.bot <= s.age.top
    ensures Alone(s, t, 4) == (s, Null)
  {
    var s1 := ThiefStep(s, t).0;
    AloneMore(s, t, 4);
    AloneMore(s1, t, 3);
    var s2 := ThiefStep(s1, t).0;
    assert s.thieves[t := StealAge][t := StealBot(s.age)][t := Away] == s.thieves;
  }

  // With no one else moving, a steal takes the top job, unless there is none or the owner has stopped
  // inside pop_bottom over the only one.
  lemma StealAlone(deq: seq<Job>, thieves: nat, acts: seq<Act>, t: nat)
    requires |deq| == Q_SIZE && t < thieves
    requires var s := Run(Initial(deq, thieves), acts); |s.thieves| == thieves && s.thieves[t].Away?
    ensures var s := Run(Initial(deq, thieves), acts);
            && Bounds(s)
            && (Jobs(s) == [] ==> Alone(s, t, 4) == (s, Null))
            && (Jobs(s) != [] && (|Jobs(s)| > 1 || !Contesting(s.owner)) ==>
                  var (s', r) := Alone(s, t, 4);
                  Bounds(s') && r == Got(Jobs(s)[0]) && Jobs(s') == Jobs(s)[1..])
  {
    RunConserves(Initial(deq, thieves), acts);
    var s := Run(Initial(deq, thieves), acts);
    hide Alone;
    if s.bot <= s.age.top { AloneNull(s, t); } else { AloneTakes(s, t); }
  }
}
