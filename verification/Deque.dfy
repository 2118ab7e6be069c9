// The work-stealing deque of Arora, Blumofe and Plaxton
// (comparison_systems/aspen/code/pbbslib/scheduler.h:38-138) as a state machine: one owner
// pushes and pops at the bottom, any number of thieves pop at the top. One step is one access
// to age, bot or deq.
module Deque {

  const Q_SIZE := 200

  // A Job* handed to the scheduler.
  type Job = nat

  datatype Age = Age(tag: nat, top: nat)

  // The owner, with its local variables.
  datatype Owner =
    | Free
      // push_bottom
    | PushLoad(job: Job)
    | PushStore(job: Job, lb: nat)
    | PushBot(job: Job, lb: nat)
    | Overflow(job: Job)
      // pop_bottom
    | PopLoad
    | PopBot(lb: nat)
    | PopJob(lb: nat)
    | PopAge(lb: nat, job: Job)
    | PopZero(lb: nat, job: Job, seen: Age)
    | PopCas(lb: nat, job: Job, seen: Age)
    | PopReset(lb: nat, seen: Age)

  // A thief inside pop_top.
  datatype Thief =
    | Away
    | StealAge
    | StealBot(seen: Age)
    | StealJob(seen: Age)
    | StealCas(seen: Age, job: Job)

  datatype State = State(
    age: Age,
    bot: nat,
    deq: seq<Job>,
    owner: Owner,
    thieves: seq<Thief>,
    pushed: seq<Job>,    // history: jobs handed to push_bottom
    returned: seq<Job>)  // history: jobs returned by pop_bottom and pop_top

  // What a step hands back to its caller.
  datatype Result = Running | Got(job: Job) | Null

  // One access by the owner. An idle owner starts the operation it is asked for.
  datatype Call = Push(job: Job) | Pop

  function OwnerStep(s: State, c: Call): (State, Result)
    requires |s.deq| == Q_SIZE
  {
    match s.owner
    case Free =>
      (match c
       case Push(job) => s.(owner := PushLoad(job), pushed := s.pushed + [job])
       case Pop => s.(owner := PopLoad), Running)
    case PushLoad(job) => (s.(owner := PushStore(job, s.bot)), Running)
    case PushStore(job, lb) =>
      if lb >= Q_SIZE then (s, Running)
      else
        (s.(deq := s.deq[lb := job], owner := if lb + 1 == Q_SIZE then Overflow(job) else PushBot(job, lb + 1)),
         Running)
    case PushBot(job, lb) => (s.(bot := lb, owner := Free), Running)
    case Overflow(_) => (s, Running)
    case PopLoad => if s.bot == 0 then (s.(owner := Free), Null) else (s.(owner := PopBot(s.bot - 1)), Running)
    case PopBot(lb) => (s.(bot := lb, owner := PopJob(lb)), Running)
    case PopJob(lb) => if lb >= Q_SIZE then (s, Running) else (s.(owner := PopAge(lb, s.deq[lb])), Running)
    case PopAge(lb, job) =>
      if lb > s.age.top then (s.(owner := Free, returned := s.returned + [job]), Got(job))
      else (s.(owner := PopZero(lb, job, s.age)), Running)
    case PopZero(lb, job, seen) =>
      (s.(bot := 0, owner := if lb == seen.top then PopCas(lb, job, seen) else PopReset(lb, seen)), Running)
    case PopCas(lb, job, seen) =>
      if s.age == seen then
        (s.(age := Age(seen.tag + 1, 0), owner := Free, returned := s.returned + [job]), Got(job))
      else (s.(owner := PopReset(lb, seen)), Running)
    case PopReset(_, seen) => (s.(age := Age(seen.tag + 1, 0), owner := Free), Null)
  }

  // One access by thief t (pop_top, lines 85-104).
  function ThiefStep(s: State, t: nat): (State, Result)
    requires |s.deq| == Q_SIZE && t < |s.thieves|
  {
    match s.thieves[t]
    case Away => (s.(thieves := s.thieves[t := StealAge]), Running)
    case StealAge => (s.(thieves := s.thieves[t := StealBot(s.age)]), Running)
    case StealBot(seen) =>
      if s.bot <= seen.top then (s.(thieves := s.thieves[t := Away]), Null)
      else (s.(thieves := s.thieves[t := StealJob(seen)]), Running)
    case StealJob(seen) =>
      if seen.top >= Q_SIZE then (s, Running)
      else (s.(thieves := s.thieves[t := StealCas(seen, s.deq[seen.top])]), Running)
    case StealCas(seen, job) =>
      if s.age == seen then
        (s.(age := Age(seen.tag, seen.top + 1), thieves := s.thieves[t := Away],
            returned := s.returned + [job]), Got(job))
      else (s.(thieves := s.thieves[t := Away]), Null)
  }

  datatype Act = Own(call: Call) | Steal(thief: nat)

  function Step(s: State, a: Act): (r: (State, Result))
    requires |s.deq| == Q_SIZE
    ensures |r.0.deq| == Q_SIZE && |r.0.thieves| == |s.thieves|
  {
    match a
    case Own(c) => OwnerStep(s, c)
    case Steal(t) => if t < |s.thieves| then ThiefStep(s, t) else (s, Running)
  }

  function Run(s: State, acts: seq<Act>): State
    requires |s.deq| == Q_SIZE
    decreases |acts|
  {
    if acts == [] then s else Run(Step(s, acts[0]).0, acts[1..])
  }

  // A new deque; deq starts with arbitrary contents.
  function Initial(deq: seq<Job>, thieves: nat): State
    requires |deq| == Q_SIZE
  {
    State(Age(0, 0), 0, deq, Free, seq(thieves, _ => Away), [], [])
  }

  // ---- The abstract deque ----

  // The owner has lowered bot past job lb but has not yet won or lost it.
  predicate Contesting(o: Owner) {
    o.PopJob? || o.PopAge? || o.PopZero? || o.PopCas? || o.PopReset?
  }

  // One past the last job still in the deque.
  function Bottom(s: State): nat {
    if Contesting(s.owner) then s.owner.lb + 1 else s.bot
  }

  predicate Bounds(s: State) {
    |s.deq| == Q_SIZE && s.age.top <= Bottom(s) < Q_SIZE
  }

  // The jobs in the deque, from the top, where thieves take them, to the bottom.
  function Jobs(s: State): seq<Job>
    requires Bounds(s)
  {
    s.deq[s.age.top..Bottom(s)]
  }

  predicate OwnerInv(s: State)
    requires Bounds(s)
  {
    match s.owner
    case PushStore(_, lb) => lb == s.bot
    case PushBot(job, lb) => lb == s.bot + 1 < Q_SIZE && s.deq[s.bot] == job
    case PopBot(lb) => lb + 1 == s.bot
    case PopJob(lb) => lb == s.bot
    case PopAge(lb, job) => lb == s.bot && job == s.deq[lb]
    case PopZero(lb, job, seen) =>
      lb == s.bot && job == s.deq[lb] && lb <= seen.top && SeenByOwner(s, lb, seen)
    case PopCas(lb, job, seen) => s.bot == 0 && job == s.deq[lb] && lb == seen.top && SeenByOwner(s, lb, seen)
    case PopReset(lb, seen) => s.bot == 0 && s.age.top == lb + 1 && s.age.tag == seen.tag
    case _ => true
  }

  // While the last job is contested, age can only move from top == lb to top == lb + 1.
  predicate SeenByOwner(s: State, lb: nat, seen: Age) {
    && seen.tag == s.age.tag
    && (s.age.top == lb || s.age.top == lb + 1)
    && (seen.top == lb || seen.top == lb + 1) && seen.top <= s.age.top
  }

  // A thief whose view of age is still current and whose bot test passed sees a job at the top.
  predicate ThiefInv(s: State, p: Thief)
    requires Bounds(s)
  {
    match p
    case StealBot(seen) => NotAhead(s, seen)
    case StealJob(seen) => NotAhead(s, seen) && seen.top < Q_SIZE && (seen == s.age ==> seen.top < Bottom(s))
    case StealCas(seen, job) =>
      NotAhead(s, seen) && (seen == s.age ==> seen.top < Bottom(s) && job == s.deq[seen.top])
    case _ => true
  }

  // Tags never decrease, and under one tag top never decreases.
  predicate NotAhead(s: State, seen: Age) {
    seen.tag <= s.age.tag && (seen.tag == s.age.tag ==> seen.top <= s.age.top)
  }

  // A job handed to push_bottom that is not yet visible.
  function InHand(o: Owner): seq<Job> {
    if o.PushLoad? || o.PushStore? || o.PushBot? || o.Overflow? then [o.job] else []
  }

  ghost predicate Inv(s: State) {
    && Bounds(s) && OwnerInv(s)
    && forall t :: 0 <= t < |s.thieves| ==> ThiefInv(s, s.thieves[t])
  }

  // Every job handed to push_bottom is in exactly one place: returned, in the deque, or still in
  // the owner's hand.
  ghost predicate Conserved(s: State)
    requires Bounds(s)
  {
    multiset(s.pushed) == multiset(s.returned) + multiset(Jobs(s)) + multiset(InHand(s.owner))
  }

  // The effect of a step on the abstract deque.
  ghost predicate Refines(s: State, a: Act, s': State, r: Result)
    requires Bounds(s) && Bounds(s')
  {
    match r
    case Got(job) =>
      Jobs(s) != [] &&
      (if a.Own? then job == Jobs(s)[|Jobs(s)| - 1] && Jobs(s') == Jobs(s)[..|Jobs(s)| - 1]
       else job == Jobs(s)[0] && Jobs(s') == Jobs(s)[1..])
    case Null => Jobs(s') == Jobs(s) && (a.Own? ==> Jobs(s) == [])
    case Running =>
      if a.Own? && s.owner.PushBot? then Jobs(s') == Jobs(s) + [s.owner.job] else Jobs(s') == Jobs(s)
  }

  // How a step writes the history: a returned job is recorded, a job newly handed to push_bottom is
  // recorded and in hand, and the store of bot takes it out of the hand.
  ghost predicate Ledger(s: State, a: Act, s': State, r: Result) {
    && s'.returned == (if r.Got? then s.returned + [r.job] else s.returned)
    && (if a.Own? && s.owner.Free? then InHand(s.owner) == [] && s'.pushed == s.pushed + InHand(s'.owner)
        else
          && s'.pushed == s.pushed
          && InHand(s'.owner) == (if a.Own? && s.owner.PushBot? then [] else InHand(s.owner)))
  }

  // What thieves know survives any owner step that keeps age and the jobs visible to them.
  lemma ThievesKeep(s: State, s': State)
    requires Inv(s) && Bounds(s') && s'.thieves == s.thieves
    requires s'.age == s.age && Bottom(s') >= Bottom(s)
    requires forall k :: 0 <= k < Bottom(s) ==> s'.deq[k] == s.deq[k]
    ensures forall t :: 0 <= t < |s'.thieves| ==> ThiefInv(s', s'.thieves[t])
  {
    forall t | 0 <= t < |s'.thieves| ensures ThiefInv(s', s'.thieves[t]) {
      assert ThiefInv(s, s.thieves[t]);
    }
  }

  lemma PushKeeps(s: State, c: Call)
    requires Inv(s)
    requires s.owner.Free? || s.owner.PushLoad? || s.owner.PushStore? || s.owner.PushBot? || s.owner.Overflow?
    ensures var (s', r) := OwnerStep(s, c); Inv(s') && Refines(s, Own(c), s', r) && Ledger(s, Own(c), s', r)
  {
    var (s', r) := OwnerStep(s, c);
    ThievesKeep(s, s');
  }

  // Lowering bot leaves the last job contested but still in the deque.
  lemma PopLowers(s: State, c: Call)
    requires Inv(s) && (s.owner.PopLoad? || s.owner.PopBot? || s.owner.PopJob?)
    ensures var (s', r) := OwnerStep(s, c); Inv(s') && Refines(s, Own(c), s', r) && Ledger(s, Own(c), s', r)
  {
    var (s', r) := OwnerStep(s, c);
    ThievesKeep(s, s');
  }

  // The owner gets the last job unless a thief took it first; a reset bumps the tag, so no thief
  // still holding an older age can succeed.
  lemma PopDecides(s: State, c: Call)
    requires Inv(s) && (s.owner.PopAge? || s.owner.PopZero? || s.owner.PopCas? || s.owner.PopReset?)
    ensures var (s', r) := OwnerStep(s, c); Inv(s') && Refines(s, Own(c), s', r) && Ledger(s, Own(c), s', r)
  {
    var (s', r) := OwnerStep(s, c);
    forall t | 0 <= t < |s'.thieves| ensures ThiefInv(s', s'.thieves[t]) {
      assert ThiefInv(s, s.thieves[t]);
    }
    if r.Got? {
      assert Jobs(s') == Jobs(s)[..|Jobs(s)| - 1];
    }
  }

  // A thief whose compare-and-swap succeeds takes exactly the top job of the deque.
  lemma StealWins(s: State, t: nat)
    requires Inv(s) && t < |s.thieves| && s.thieves[t].StealCas? && s.thieves[t].seen == s.age
    ensures var (s', r) := ThiefStep(s, t); Inv(s') && Refines(s, Steal(t), s', r) && Ledger(s, Steal(t), s', r)
  {
    var (s', r) := ThiefStep(s, t);
    assert ThiefInv(s, s.thieves[t]);
    assert Jobs(s') == Jobs(s)[1..];
    forall u | 0 <= u < |s'.thieves| ensures ThiefInv(s', s'.thieves[u]) {
      assert ThiefInv(s, s.thieves[u]);
    }
  }

  lemma StealLooks(s: State, t: nat)
    requires Inv(s) && t < |s.thieves| && !(s.thieves[t].StealCas? && s.thieves[t].seen == s.age)
    ensures var (s', r) := ThiefStep(s, t); Inv(s') && Refines(s, Steal(t), s', r) && Ledger(s, Steal(t), s', r)
  {
    hide OwnerStep, InHand;
    var (s', r) := ThiefStep(s, t);
    var p := s'.thieves[t];
    assert ThiefInv(s, s.thieves[t]);
    assert s' == s.(thieves := s.thieves[t := p]);
    assert ThiefInv(s', p);
    forall u | 0 <= u < |s'.thieves| ensures ThiefInv(s', s'.thieves[u]) {
      assert u != t ==> ThiefInv(s, s.thieves[u]);
    }
  }

  lemma StepKeeps(s: State, a: Act)
    requires Inv(s)
    ensures var (s', r) := Step(s, a); Inv(s') && Refines(s, a, s', r) && Ledger(s, a, s', r)
  {
    match a
    case Own(c) =>
      if s.owner.Free? || s.owner.PushLoad? || s.owner.PushStore? || s.owner.PushBot? || s.owner.Overflow? {
        PushKeeps(s, c);
      } else if s.owner.PopLoad? || s.owner.PopBot? || s.owner.PopJob? {
        PopLowers(s, c);
      } else {
        PopDecides(s, c);
      }
    case Steal(t) => 
      if t < |s.thieves| {
        if s.thieves[t].StealCas? && s.thieves[t].seen == s.age { StealWins(s, t); } else { StealLooks(s, t); }
      }
  }

  lemma TakeOut(jobs: seq<Job>)
    requires jobs != []
    ensures multiset(jobs) == multiset{jobs[0]} + multiset(jobs[1..])
    ensures multiset(jobs) == multiset(jobs[..|jobs| - 1]) + multiset{jobs[|jobs| - 1]}
  {
    assert jobs == [jobs[0]] + jobs[1..] && jobs == jobs[..|jobs| - 1] + [jobs[|jobs| - 1]];
  }

  lemma StepConserves(s: State, a: Act)
    requires Inv(s) && Conserved(s)
    ensures Inv(Step(s, a).0) && Conserved(Step(s, a).0)
  {
    StepKeeps(s, a);
    if Jobs(s) != [] { TakeOut(Jobs(s)); }
  }

  lemma {:induction false} RunConserves(s: State, acts: seq<Act>)
    requires Inv(s) && Conserved(s)
    ensures Inv(Run(s, acts)) && Conserved(Run(s, acts))
    decreases |acts|
  {
    if acts != [] {
      StepConserves(s, acts[0]);
      RunConserves(Step(s, acts[0]).0, acts[1..]);
    }
  }

  // In every run of one owner and any number of thieves, each job handed to push_bottom is
  // returned at most as often as it was pushed, and otherwise is still in the deque or in the
  // owner's hand: nothing is lost and nothing is duplicated.
  lemma NoJobLostOrDuplicated(deq: seq<Job>, thieves: nat, acts: seq<Act>)
    requires |deq| == Q_SIZE
    ensures var s := Run(Initial(deq, thieves), acts);
            Bounds(s) && multiset(s.pushed) == multiset(s.returned) + multiset(Jobs(s)) + multiset(InHand(s.owner))
  {
    RunConserves(Initial(deq, thieves), acts);
  }

  // In every run, each step acts on the sequence of jobs as the abstract deque does: pushing
  // appends at the bottom, the owner takes the bottom job, a thief takes the top job, and the
  // owner is told NULL only when there is no job left.
  lemma RunRefines(deq: seq<Job>, thieves: nat, acts: seq<Act>, a: Act)
    requires |deq| == Q_SIZE
    ensures var s := Run(Initial(deq, thieves), acts);
            Bounds(s) && Bounds(Step(s, a).0) && Refines(s, a, Step(s, a).0, Step(s, a).1)
  {
    RunConserves(Initial(deq, thieves), acts);
    StepKeeps(Run(Initial(deq, thieves), acts), a);
  }
}
