// The rootset maximal independent set: algorithms/MIS.h, lines 6-137, over the two forms of
// edge_map (graph/traversible_graph.h, lines 80-112 and 206-238). The graph is a list of neighbours
// per vertex, and the random permutation is given.
module Mis {
  import opened Collections

  type Graph = seq<seq<nat>>

  ghost predicate Within(s: seq<nat>, n: nat) { forall k: nat :: k < |s| ==> s[k] < n }

  ghost predicate Symmetric(g: Graph)
  {
    && (forall v: nat :: v < |g| ==> Within(g[v], |g|))
    && (forall v: nat, u: nat :: v < |g| && u < |g| ==> (u in g[v] <==> v in g[u]))
  }

  // A symmetric graph without repeated edges, and distinct priorities.
  ghost predicate Ok(g: Graph, perm: seq<nat>)
  {
    Symmetric(g) && (forall v: nat :: v < |g| ==> NoRepeats(g[v])) && |perm| == |g| && NoRepeats(perm)
  }

  // ---- The sequential greedy set ----

  // A vertex is chosen unless a neighbour that comes before it is.
  ghost predicate Chosen(g: Graph, perm: seq<nat>, v: nat)
    requires Ok(g, perm) && v < |g|
    decreases perm[v]
  {
    forall u: nat :: u in g[v] && perm[u] < perm[v] ==> !Chosen(g, perm, u)
  }

  // Going through the vertices in order, each one is taken if no neighbour has been.
  ghost function Greedy(g: Graph, order: seq<nat>): set<nat>
    requires Within(order, |g|)
  {
    if order == [] then {}
    else
      var v := order[|order| - 1];
      var s := Greedy(g, order[..|order| - 1]);
      if exists u :: u in g[v] && u in s then s else s + {v}
  }

  ghost predicate Ranks(g: Graph, perm: seq<nat>, order: seq<nat>)
  {
    && |perm| == |order| == |g|
    && (forall v: nat :: v < |g| ==> perm[v] < |g| && order[perm[v]] == v)
    && (forall k: nat :: k < |g| ==> order[k] < |g| && perm[order[k]] == k)
  }

  lemma {:induction false} GreedyChosen(g: Graph, perm: seq<nat>, order: seq<nat>, k: nat, v: nat)
    requires Ok(g, perm) && Ranks(g, perm, order) && k <= |order|
    ensures v in Greedy(g, order[..k]) <==> v < |g| && perm[v] < k && Chosen(g, perm, v)
  {
    if k > 0 {
      var w := order[k - 1];
      assert order[..k][..k - 1] == order[..k - 1];
      GreedyChosen(g, perm, order, k - 1, v);
      if v == w {
        forall u | u in g[w]
          ensures u in Greedy(g, order[..k - 1]) <==> perm[u] < perm[w] && Chosen(g, perm, u)
        {
          GreedyChosen(g, perm, order, k - 1, u);
        }
      }
    }
  }

  // No two neighbours are chosen, and every other vertex has a chosen neighbour.
  lemma ChosenIndependent(g: Graph, perm: seq<nat>, u: nat, v: nat)
    requires Ok(g, perm) && v < |g| && u in g[v] && u != v && Chosen(g, perm, v)
    ensures !Chosen(g, perm, u)
  {
    assert perm[u] != perm[v];
  }

  lemma ChosenMaximal(g: Graph, perm: seq<nat>, v: nat) returns (u: nat)
    requires Ok(g, perm) && v < |g| && !Chosen(g, perm, v)
    ensures u in g[v] && Chosen(g, perm, u)
  {
    u :| u in g[v] && perm[u] < perm[v] && Chosen(g, perm, u);
  }

  // ---- The state between rounds ----

  // The neighbours that come before v and are not finished.
  ghost function Left(g: Graph, perm: seq<nat>, done: set<nat>, v: nat): set<nat>
    requires Ok(g, perm) && v < |g|
  {
    set u: nat | u in g[v] && perm[u] < perm[v] && u !in done
  }

  ghost predicate Counts(g: Graph, perm: seq<nat>, done: set<nat>, pri: seq<int>)
    requires Ok(g, perm)
  {
    |pri| == |g| && forall v: nat :: v < |g| && pri[v] != 0 ==> pri[v] == |Left(g, perm, done, v)|
  }

  ghost predicate Settled(g: Graph, perm: seq<nat>, done: set<nat>, inMis: seq<bool>)
    requires Ok(g, perm)
  {
    && |inMis| == |g|
    && (forall v: nat :: v < |g| ==> (inMis[v] <==> v in done && Chosen(g, perm, v)))
    && (forall v <- done :: v < |g|)
    && (forall v: nat, u: nat :: v < |g| && v !in done && u in g[v] && u in done ==> !Chosen(g, perm, u))
  }

  // Exactly the finished vertices and the roots have priority zero, and a root has no one left before it.
  ghost predicate Rooted(g: Graph, perm: seq<nat>, done: set<nat>, pri: seq<int>, roots: seq<nat>)
    requires Ok(g, perm)
  {
    && |pri| == |g| && NoRepeats(roots) && Within(roots, |g|)
    && (forall r <- roots :: r < |g| && r !in done && Left(g, perm, done, r) == {})
    && (forall v: nat :: v < |g| ==> (pri[v] == 0 <==> v in done || v in roots))
  }

  ghost predicate Between(g: Graph, perm: seq<nat>, done: set<nat>, pri: seq<int>, inMis: seq<bool>, roots: seq<nat>)
    requires Ok(g, perm)
  {
    Counts(g, perm, done, pri) && Settled(g, perm, done, inMis) && Rooted(g, perm, done, pri, roots)
  }

  ghost function Members(s: seq<nat>): set<nat> { set x | x in s }

  lemma {:induction false} MembersSize(s: seq<nat>)
    requires NoRepeats(s)
    ensures |Members(s)| == |s|
  {
    if s != [] {
      var front, x := s[..|s| - 1], s[|s| - 1];
      MembersSize(front);
      assert Members(s) == Members(front) + {x};
    }
  }

  function Below(n: nat): set<nat> { if n == 0 then {} else Below(n - 1) + {n - 1} }

  lemma {:induction false} BelowMembers(n: nat, v: nat)
    ensures v in Below(n) <==> v < n
  {
    if n > 0 { BelowMembers(n - 1, v); }
  }

  lemma {:induction false} BelowSize(n: nat)
    ensures |Below(n)| == n
  {
    if n > 0 {
      BelowSize(n - 1);
      BelowMembers(n - 1, n - 1);
    }
  }

  lemma SubsetSize(a: set<nat>, b: set<nat>)
    requires a <= b
    ensures |a| <= |b| && (|a| == |b| ==> a == b)
  {
    assert b == a + (b - a) && |b| == |a| + |b - a|;
  }

  // Before everything is finished there is a root: the first unfinished vertex is one.
  lemma {:induction false} SomeRoot(g: Graph, perm: seq<nat>, done: set<nat>, pri: seq<int>, roots: seq<nat>, v: nat)
    requires Ok(g, perm) && Counts(g, perm, done, pri) && Rooted(g, perm, done, pri, roots) && v < |g| && v !in done
    ensures roots != []
    decreases perm[v]
  {
    if pri[v] != 0 {
      var u :| u in Left(g, perm, done, v);
      SomeRoot(g, perm, done, pri, roots, u);
    }
  }

  // ---- One round ----

  // The neighbours of the roots that are still live.
  ghost predicate Removes(g: Graph, pri: seq<int>, roots: seq<nat>, removed: seq<nat>)
    requires |pri| == |g| && Within(roots, |g|)
  {
    && NoRepeats(removed)
    && forall v: nat :: v in removed <==> v < |g| && pri[v] > 0 && exists r :: r in roots && v in g[r]
  }

  // What edge_map with mis_f must do: every live vertex loses its removed earlier neighbours, and the
  // vertices that reach zero are the new roots.
  ghost predicate Dropped(g: Graph, perm: seq<nat>, done: set<nat>, removed: seq<nat>,
                          pri: seq<int>, pri': seq<int>, roots: seq<nat>)
    requires Ok(g, perm)
  {
    && |pri| == |pri'| == |g| && NoRepeats(roots)
    && (forall v: nat :: v < |g| && pri[v] == 0 ==> pri'[v] == 0)
    && (forall v: nat :: v < |g| && pri[v] != 0 ==> pri'[v] == |Left(g, perm, done, v) - Members(removed)|)
    && (forall v: nat :: v in roots <==> v < |g| && pri[v] != 0 && pri'[v] == 0)
  }

  ghost predicate Zeroed(pri: seq<int>, pri': seq<int>, removed: seq<nat>)
  {
    |pri'| == |pri| && forall v: nat :: v < |pri| ==> pri'[v] == if v in removed then 0 else pri[v]
  }

  ghost predicate Marked(inMis: seq<bool>, inMis': seq<bool>, roots: seq<nat>)
  {
    |inMis'| == |inMis| && forall v: nat :: v < |inMis| ==> inMis'[v] == (v in roots || inMis[v])
  }

  lemma RootChosen(g: Graph, perm: seq<nat>, done: set<nat>, pri: seq<int>, inMis: seq<bool>, roots: seq<nat>, r: nat)
    requires Ok(g, perm) && Between(g, perm, done, pri, inMis, roots) && r in roots
    ensures Chosen(g, perm, r)
  {
    forall u: nat | u in g[r] && perm[u] < perm[r]
      ensures !Chosen(g, perm, u)
    {
      assert u !in Left(g, perm, done, r);
    }
  }

  // A live neighbour of a root comes after it.
  lemma RemovedNotChosen(g: Graph, perm: seq<nat>, done: set<nat>, pri: seq<int>, inMis: seq<bool>,
                         roots: seq<nat>, removed: seq<nat>, v: nat)
    requires Ok(g, perm) && Between(g, perm, done, pri, inMis, roots) && Removes(g, pri, roots, removed) && v in removed
    ensures !Chosen(g, perm, v)
  {
    var r :| r in roots && v in g[r];
    RootChosen(g, perm, done, pri, inMis, roots, r);
    assert v !in Left(g, perm, done, r);
    assert r in g[v] && perm[r] != perm[v];
  }

  // A vertex that stays live has no root among its neighbours, so only removed ones finish around it.
  lemma LeftAfter(g: Graph, perm: seq<nat>, done: set<nat>, pri: seq<int>, roots: seq<nat>, removed: seq<nat>, v: nat)
    requires Ok(g, perm) && Rooted(g, perm, done, pri, roots) && Counts(g, perm, done, pri)
    requires Removes(g, pri, roots, removed) && v < |g| && pri[v] != 0 && v !in removed
    ensures Left(g, perm, done + Members(roots) + Members(removed), v) == Left(g, perm, done, v) - Members(removed)
    ensures forall r <- roots :: r !in g[v]
  {
    forall r | r in roots
      ensures r !in g[v]
    {
      assert v in g[r] ==> v in removed;
    }
  }

  ghost function After(done: set<nat>, roots: seq<nat>, removed: seq<nat>): set<nat>
  {
    done + Members(roots) + Members(removed)
  }

  lemma AllLeftAfter(g: Graph, perm: seq<nat>, done: set<nat>, pri: seq<int>, roots: seq<nat>, removed: seq<nat>)
    requires Ok(g, perm) && Rooted(g, perm, done, pri, roots)
    requires Counts(g, perm, done, pri) && Removes(g, pri, roots, removed)
    ensures forall v: nat :: v < |g| && pri[v] != 0 && v !in removed ==>
              Left(g, perm, After(done, roots, removed), v) == Left(g, perm, done, v) - Members(removed)
  {
    forall v: nat | v < |g| && pri[v] != 0 && v !in removed
      ensures Left(g, perm, After(done, roots, removed), v) == Left(g, perm, done, v) - Members(removed)
    {
      LeftAfter(g, perm, done, pri, roots, removed, v);
    }
  }

  lemma CountsAfter(g: Graph, perm: seq<nat>, done: set<nat>, pri: seq<int>, roots: seq<nat>, removed: seq<nat>,
                    pri1: seq<int>, pri2: seq<int>, roots': seq<nat>)
    requires Ok(g, perm) && Rooted(g, perm, done, pri, roots) && Counts(g, perm, done, pri)
    requires Removes(g, pri, roots, removed) && Zeroed(pri, pri1, removed)
    requires Dropped(g, perm, done, removed, pri1, pri2, roots')
    ensures Counts(g, perm, After(done, roots, removed), pri2)
  {
    hide Ok, Left, After, Members, Removes;
    AllLeftAfter(g, perm, done, pri, roots, removed);
  }

  lemma AfterMembers(done: set<nat>, roots: seq<nat>, removed: seq<nat>)
    ensures forall v :: v in After(done, roots, removed) <==> v in done || v in roots || v in removed
  {
  }

  lemma RemovedWasLive(g: Graph, pri: seq<int>, roots: seq<nat>, removed: seq<nat>)
    requires |pri| == |g| && Within(roots, |g|) && Removes(g, pri, roots, removed)
    ensures forall v <- removed :: v < |g| && pri[v] != 0
  {
  }

  lemma MembersWithin(s: seq<nat>, n: nat)
    requires forall v <- s :: v < n
    ensures Within(s, n)
  {
    assert forall k: nat :: k < |s| ==> s[k] in s;
  }

  lemma RootedAfter(g: Graph, perm: seq<nat>, done: set<nat>, pri: seq<int>, roots: seq<nat>, removed: seq<nat>,
                    pri1: seq<int>, pri2: seq<int>, roots': seq<nat>)
    requires Ok(g, perm) && Rooted(g, perm, done, pri, roots) && Counts(g, perm, done, pri)
    requires Removes(g, pri, roots, removed) && Zeroed(pri, pri1, removed)
    requires Dropped(g, perm, done, removed, pri1, pri2, roots')
    ensures Rooted(g, perm, After(done, roots, removed), pri2, roots')
  {
    hide Ok, Left, NoRepeats, Within, Members, After, Removes;
    AllLeftAfter(g, perm, done, pri, roots, removed);
    AfterMembers(done, roots, removed);
    RemovedWasLive(g, pri, roots, removed);
    MembersWithin(roots', |g|);
  }

  lemma SettledAfter(g: Graph, perm: seq<nat>, done: set<nat>, pri: seq<int>, inMis: seq<bool>, roots: seq<nat>,
                     removed: seq<nat>, inMis': seq<bool>)
    requires Ok(g, perm) && Between(g, perm, done, pri, inMis, roots) && Removes(g, pri, roots, removed)
    requires Marked(inMis, inMis', roots)
    ensures Settled(g, perm, After(done, roots, removed), inMis')
  {
    forall r | r in roots
      ensures Chosen(g, perm, r)
    {
      RootChosen(g, perm, done, pri, inMis, roots, r);
    }
    forall v | v in removed
      ensures !Chosen(g, perm, v)
    {
      RemovedNotChosen(g, perm, done, pri, inMis, roots, removed, v);
    }
    forall v: nat | v < |g| && v !in After(done, roots, removed)
      ensures forall r <- roots :: r !in g[v]
    {
      LeftAfter(g, perm, done, pri, roots, removed, v);
    }
    hide Chosen, Left;
  }

  lemma RoundKeeps(g: Graph, perm: seq<nat>, done: set<nat>, pri: seq<int>, inMis: seq<bool>, roots: seq<nat>,
                   removed: seq<nat>, pri1: seq<int>, pri2: seq<int>, inMis': seq<bool>, roots': seq<nat>)
    requires Ok(g, perm) && Between(g, perm, done, pri, inMis, roots) && Removes(g, pri, roots, removed)
    requires Zeroed(pri, pri1, removed) && Dropped(g, perm, done, removed, pri1, pri2, roots')
    requires Marked(inMis, inMis', roots)
    ensures Between(g, perm, After(done, roots, removed), pri2, inMis', roots')
    ensures |After(done, roots, removed)| == |done| + |roots| + |removed|
  {
    CountsAfter(g, perm, done, pri, roots, removed, pri1, pri2, roots');
    RootedAfter(g, perm, done, pri, roots, removed, pri1, pri2, roots');
    SettledAfter(g, perm, done, pri, inMis, roots, removed, inMis');
    MembersSize(roots);
    MembersSize(removed);
    hide Left, Chosen;
    assert done !! Members(roots) && (done + Members(roots)) !! Members(removed);
  }

  // ---- Vertex subsets ----

  // to_dense and pack_index (graph/vertex_subset.h).
  method ToDense(n: nat, vs: seq<nat>) returns (flags: array<bool>)
    requires Within(vs, n)
    ensures fresh(flags) && flags.Length == n && forall v: nat :: v < n ==> (flags[v] <==> v in vs)
  {
    flags := new bool[n](_ => false);
    for i := 0 to |vs|
      invariant forall v: nat :: v < n ==> (flags[v] <==> v in vs[..i])
    {
      flags[vs[i]] := true;
    }
    assert vs[..|vs|] == vs;
  }

  method Pack(flags: array<bool>) returns (vs: seq<nat>)
    ensures NoRepeats(vs) && forall v: nat :: v in vs <==> v < flags.Length && flags[v]
  {
    vs := [];
    for i := 0 to flags.Length
      invariant NoRepeats(vs) && forall v: nat :: v in vs <==> v < i && flags[v]
    {
      if flags[i] { vs := vs + [i]; }
    }
  }

  function Degrees(g: Graph, vs: seq<nat>): nat
    requires Within(vs, |g|)
  {
    if vs == [] then 0 else Degrees(g, vs[..|vs| - 1]) + |g[vs[|vs| - 1]]|
  }

  function Edges(g: Graph): nat { if g == [] then 0 else Edges(g[..|g| - 1]) + |g[|g| - 1]| }

  // get_nghs (MIS.h, lines 6-45), for the test that the priority is still positive.
  method GetNghs(g: Graph, roots: seq<nat>, pri: array<int>) returns (removed: seq<nat>)
    requires Symmetric(g) && pri.Length == |g| && Within(roots, |g|)
    ensures Removes(g, pri[..], roots, removed)
  {
    if Degrees(g, roots) > Edges(g) / 100 {
      var dense := new bool[|g|](_ => false);
      for i := 0 to |roots|
        invariant forall v: nat :: v < |g| ==> (dense[v] <==> pri[v] > 0 && Near(g, roots, i, v))
      {
        var ns := g[roots[i]];
        for j := 0 to |ns|
          invariant forall v: nat :: v < |g| ==> (dense[v] <==> pri[v] > 0 && (Near(g, roots, i, v) || v in ns[..j]))
        {
          if pri[ns[j]] > 0 && !dense[ns[j]] { dense[ns[j]] := true; }
        }
        NearMore(g, roots, i);
      }
      removed := Pack(dense);
    } else {
      removed := [];
      for i := 0 to |roots|
        invariant NoRepeats(removed)
        invariant forall v: nat :: v in removed <==> v < |g| && pri[v] > 0 && Near(g, roots, i, v)
      {
        var ns := g[roots[i]];
        for j := 0 to |ns|
          invariant NoRepeats(removed)
          invariant forall v: nat :: v in removed <==> v < |g| && pri[v] > 0 && (Near(g, roots, i, v) || v in ns[..j])
        {
          if pri[ns[j]] > 0 && ns[j] !in removed { removed := removed + [ns[j]]; }
        }
        NearMore(g, roots, i);
      }
    }
    NearAll(g, roots);
  }

  // v is a neighbour of one of the first i roots.
  ghost predicate Near(g: Graph, roots: seq<nat>, i: nat, v: nat)
    requires Within(roots, |g|)
  {
    exists k: nat :: k < i && k < |roots| && v in g[roots[k]]
  }

  lemma NearMore(g: Graph, roots: seq<nat>, i: nat)
    requires i < |roots| && Within(roots, |g|)
    ensures forall v: nat :: Near(g, roots, i + 1, v) <==> Near(g, roots, i, v) || v in g[roots[i]]
    ensures g[roots[i]][..|g[roots[i]]|] == g[roots[i]]
  {
  }

  lemma NearAll(g: Graph, roots: seq<nat>)
    requires Within(roots, |g|)
    ensures forall v: nat :: Near(g, roots, |roots|, v) <==> exists r :: r in roots && v in g[r]
  {
  }

  // ---- edge_map with mis_f (MIS.h, lines 47-65) ----

  // A priority before and after: only a live vertex changes, by its removed earlier neighbours.
  ghost predicate OneDropped(g: Graph, perm: seq<nat>, done: set<nat>, removed: seq<nat>, v: nat, before: int,
          after: int)
    requires Ok(g, perm) && v < |g|
  {
    if before == 0 then after == 0 else after == |Left(g, perm, done, v) - Members(removed)|
  }

  // The removed neighbours among the first j.
  ghost function Seen(g: Graph, removed: seq<nat>, v: nat, j: nat): set<nat>
    requires v < |g| && j <= |g[v]|
  {
    set u | u in g[v][..j] && u in removed
  }

  lemma PrefixMore(s: seq<nat>, j: nat)
    requires NoRepeats(s) && j < |s|
    ensures s[j] !in s[..j] && forall u :: u in s[..j + 1] <==> u in s[..j] || u == s[j]
  {
    assert s[..j + 1] == s[..j] + [s[j]];
  }

  lemma SeenMore(g: Graph, perm: seq<nat>, done: set<nat>, removed: seq<nat>, v: nat, j: nat)
    requires Ok(g, perm) && v < |g| && j < |g[v]| && forall r <- removed :: r !in done
    ensures var left, u := Left(g, perm, done, v), g[v][j];
      |left - Seen(g, removed, v, j + 1)|
      == |left - Seen(g, removed, v, j)| - if u in removed && perm[u] < perm[v] then 1 else 0
  {
    hide NoRepeats;
    var left, u := Left(g, perm, done, v), g[v][j];
    PrefixMore(g[v], j);
    if u in removed {
      assert Seen(g, removed, v, j + 1) == Seen(g, removed, v, j) + {u};
      assert u in left <==> perm[u] < perm[v];
      DropOne(left, Seen(g, removed, v, j), u);
    } else {
      assert Seen(g, removed, v, j + 1) == Seen(g, removed, v, j);
    }
  }

  lemma DropOne(left: set<nat>, seen: set<nat>, u: nat)
    requires u !in seen
    ensures |left - (seen + {u})| == |left - seen| - if u in left then 1 else 0
  {
    if u in left {
      assert left - seen == (left - (seen + {u})) + {u};
    } else {
      assert left - seen == left - (seen + {u});
    }
  }

  lemma SeenEnd(g: Graph, perm: seq<nat>, done: set<nat>, removed: seq<nat>, v: nat, j: nat)
    requires Ok(g, perm) && v < |g| && j <= |g[v]|
    requires j == |g[v]| || |Left(g, perm, done, v) - Seen(g, removed, v, j)| == 0
    ensures |Left(g, perm, done, v) - Seen(g, removed, v, j)| == |Left(g, perm, done, v) - Members(removed)|
  {
    var left := Left(g, perm, done, v);
    if j == |g[v]| {
      assert g[v][..j] == g[v];
      assert left - Seen(g, removed, v, j) == left - Members(removed);
    } else {
      assert left - Seen(g, removed, v, j) == {};
      forall u | u in left
        ensures u in removed
      {
        assert u !in left - Seen(g, removed, v, j);
      }
      assert left - Members(removed) == {};
    }
  }

  // A vertex looks at its own neighbours and stops when it reaches zero.
  method PullOne(g: Graph, perm: seq<nat>, removed: seq<nat>, prev: seq<bool>, i: nat, pri: array<int>,
          next: array<bool>, ghost done: set<nat>)
    requires Ok(g, perm) && i < |g| && pri.Length == next.Length == |prev| == |g| && !next[i]
    requires forall v: nat :: v < |g| ==> (prev[v] <==> v in removed)
    requires forall r <- removed :: r !in done
    requires Counted(g, perm, done, i, pri[i])
    modifies pri, next
    ensures OneDropped(g, perm, done, removed, i, old(pri[i]), pri[i])
    ensures next[i] <==> old(pri[i]) != 0 && pri[i] == 0
    ensures pri[..] == old(pri[..])[i := pri[i]] && next[..] == old(next[..])[i := next[i]]
  {
    hide Left, Seen;
    if pri[i] > 0 {
      var j: nat := 0;
      SeenNone(g, perm, done, removed, i);
      while j < |g[i]|
        invariant j <= |g[i]| && pri[i] > 0 && !next[i]
        invariant pri[i] == |Left(g, perm, done, i) - Seen(g, removed, i, j)|
        invariant pri[..] == old(pri[..])[i := pri[i]] && next[..] == old(next[..])[i := next[i]]
      {
        SeenMore(g, perm, done, removed, i, j);
        var s := g[i][j];
        j := j + 1;
        if prev[s] && perm[s] < perm[i] {
          pri[i] := pri[i] - 1;
          if pri[i] == 0 { next[i] := true; }
        }
        if !(pri[i] > 0) { break; }
      }
      SeenEnd(g, perm, done, removed, i, j);
    }
  }

  lemma SeenNone(g: Graph, perm: seq<nat>, done: set<nat>, removed: seq<nat>, v: nat)
    requires Ok(g, perm) && v < |g|
    ensures Left(g, perm, done, v) - Seen(g, removed, v, 0) == Left(g, perm, done, v)
  {
  }

  ghost predicate Counted(g: Graph, perm: seq<nat>, done: set<nat>, v: nat, priority: int)
    requires Ok(g, perm) && v < |g|
  {
    priority != 0 ==> priority == |Left(g, perm, done, v)|
  }

  // The pull form of edge_map (edge_map_dense).
  method DenseMap(g: Graph, perm: seq<nat>, removed: seq<nat>, pri: array<int>, ghost done: set<nat>)
    returns (roots: seq<nat>)
    requires Ok(g, perm) && pri.Length == |g| && Counts(g, perm, done, pri[..])
    requires Within(removed, |g|) && forall r <- removed :: r !in done
    modifies pri
    ensures Dropped(g, perm, done, removed, old(pri[..]), pri[..], roots)
  {
    hide Left, Ok, Within, Dropped, Counts, PulledUpTo, OneDropped, Counted;
    var n := |g|;
    var flags := ToDense(n, removed);
    var prev := flags[..];
    var next := new bool[n](_ => false);
    ghost var was := pri[..];
    PullStart(g, perm, done, removed, was, next[..]);
    for i := 0 to n
      invariant PulledUpTo(g, perm, done, removed, was, pri[..], next[..], i)
    {
      PullNext(g, perm, done, removed, was, pri[..], next[..], i);
      ghost var pri0, next0 := pri[..], next[..];
      PullOne(g, perm, removed, prev, i, pri, next, done);
      PullStep(g, perm, done, removed, was, pri0, next0, i, pri[i], next[i]);
    }
    roots := Pack(next);
    PullEnd(g, perm, done, removed, was, pri[..], next[..], roots);
  }

  // The first i vertices have looked at their neighbours.
  ghost predicate PulledUpTo(g: Graph, perm: seq<nat>, done: set<nat>, removed: seq<nat>,
                             was: seq<int>, pri: seq<int>, next: seq<bool>, i: nat)
    requires Ok(g, perm)
  {
    && |was| == |pri| == |next| == |g|
    && (forall v: nat :: v < |g| && v < i ==> OneDropped(g, perm, done, removed, v, was[v], pri[v]))
    && (forall v: nat :: v < |g| && v < i ==> (next[v] <==> was[v] != 0 && pri[v] == 0))
    && (forall v: nat :: i <= v < |g| ==> pri[v] == was[v] && !next[v] && Counted(g, perm, done, v, pri[v]))
  }

  lemma PullStart(g: Graph, perm: seq<nat>, done: set<nat>, removed: seq<nat>, pri: seq<int>, next: seq<bool>)
    requires Ok(g, perm) && Counts(g, perm, done, pri) && |next| == |g| && forall v: nat :: v < |g| ==> !next[v]
    ensures PulledUpTo(g, perm, done, removed, pri, pri, next, 0)
  {
  }

  lemma PullNext(g: Graph, perm: seq<nat>, done: set<nat>, removed: seq<nat>,
                 was: seq<int>, pri: seq<int>, next: seq<bool>, i: nat)
    requires Ok(g, perm) && i < |g| && PulledUpTo(g, perm, done, removed, was, pri, next, i)
    ensures |pri| == |next| == |g| && !next[i] && Counted(g, perm, done, i, pri[i])
  {
  }

  lemma PullStep(g: Graph, perm: seq<nat>, done: set<nat>, removed: seq<nat>,
                 was: seq<int>, pri: seq<int>, next: seq<bool>, i: nat, x: int, b: bool)
    requires Ok(g, perm) && i < |g| && PulledUpTo(g, perm, done, removed, was, pri, next, i)
    requires OneDropped(g, perm, done, removed, i, pri[i], x) && (b <==> pri[i] != 0 && x == 0)
    ensures PulledUpTo(g, perm, done, removed, was, pri[i := x], next[i := b], i + 1)
  {
    hide OneDropped, Counted, Ok;
  }

  lemma PullEnd(g: Graph, perm: seq<nat>, done: set<nat>, removed: seq<nat>,
                was: seq<int>, pri: seq<int>, next: seq<bool>, roots: seq<nat>)
    requires Ok(g, perm) && PulledUpTo(g, perm, done, removed, was, pri, next, |g|)
    requires NoRepeats(roots) && forall v: nat :: v in roots <==> v < |next| && next[v]
    ensures Dropped(g, perm, done, removed, was, pri, roots)
  {
    hide Left, Members;
  }

  datatype Edge = Edge(from: nat, to: nat)

  ghost predicate EdgeList(g: Graph, removed: seq<nat>, edges: seq<Edge>)
  {
    && (forall j, k :: 0 <= j < k < |edges| ==> edges[j] != edges[k])
    && forall e :: e in edges <==> e.from in removed && e.from < |g| && e.to in g[e.from]
  }

  // The neighbours of the removed vertices, one position each (the offsets of edge_map_sparse).
  method ListEdges(g: Graph, removed: seq<nat>, ghost perm: seq<nat>) returns (edges: seq<Edge>)
    requires Ok(g, perm) && NoRepeats(removed) && Within(removed, |g|)
    ensures EdgeList(g, removed, edges)
  {
    edges := [];
    for i := 0 to |removed|
      invariant EdgeList(g, removed[..i], edges)
    {
      var v := removed[i];
      assert removed[..i + 1] == removed[..i] + [v];
      for j := 0 to |g[v]|
        invariant forall j, k :: 0 <= j < k < |edges| ==> edges[j] != edges[k]
        invariant forall e :: e in edges <==>
                    && e.from < |g| && e.to in g[e.from]
                    && (e.from in removed[..i] || (e.from == v && e.to in g[v][..j]))
      {
        edges := edges + [Edge(v, g[v][j])];
      }
    }
    assert removed[..|removed|] == removed;
  }

  // The removed neighbours of d whose edges have been dealt with.
  ghost function Gone(edges: seq<Edge>, open: set<nat>, d: nat): set<nat>
  {
    set k: nat | k < |edges| && k !in open && edges[k].to == d :: edges[k].from
  }

  ghost function LeftSize(g: Graph, perm: seq<nat>, done: set<nat>, edges: seq<Edge>, open: set<nat>, v: nat): nat
    requires Ok(g, perm) && v < |g|
  {
    |Left(g, perm, done, v) - Gone(edges, open, v)|
  }

  const NONE: int := -1

  // What holds between the steps of the push form: `open` are the positions not yet dealt with.
  ghost predicate Pushed(g: Graph, perm: seq<nat>, done: set<nat>, edges: seq<Edge>, open: set<nat>,
                         was: seq<int>, pri: seq<int>, out: seq<int>)
    requires Ok(g, perm)
  {
    && |was| == |pri| == |g| && |out| == |edges|
    && (forall v: nat :: v < |g| ==>
          pri[v] == if was[v] == 0 then 0 else LeftSize(g, perm, done, edges, open, v))
    && (forall k: nat :: k < |out| && out[k] != NONE ==> k !in open && out[k] == edges[k].to && edges[k].to < |g|)
    && (forall k: nat :: k < |out| && out[k] != NONE ==> was[edges[k].to] != 0 && pri[edges[k].to] == 0)
    && (forall j: nat, k: nat :: j < k < |out| && out[j] != NONE ==> out[j] != out[k])
    && (forall v: nat :: v < |g| && was[v] != 0 && pri[v] == 0 ==> v in out)
  }

  lemma GoneMore(edges: seq<Edge>, open: set<nat>, k: nat, d: nat)
    requires k < |edges| && k in open
    ensures Gone(edges, open - {k}, d) == Gone(edges, open, d) + if edges[k].to == d then {edges[k].from} else {}
  {
    var now, before := Gone(edges, open - {k}, d), Gone(edges, open, d);
    forall s
      ensures s in now <==> s in before || (edges[k].to == d && s == edges[k].from)
    {
      if s in now {
        var j: nat :| j < |edges| && j !in open - {k} && edges[j].to == d && edges[j].from == s;
        assert j != k ==> j !in open;
      }
      if s in before {
        var j: nat :| j < |edges| && j !in open && edges[j].to == d && edges[j].from == s;
        assert j !in open - {k};
      }
      if edges[k].to == d && s == edges[k].from { assert k !in open - {k}; }
    }
  }

  // An open position's source is still to come.
  lemma NotGone(g: Graph, removed: seq<nat>, edges: seq<Edge>, open: set<nat>, k: nat)
    requires EdgeList(g, removed, edges) && k < |edges| && k in open
    ensures edges[k].from !in Gone(edges, open, edges[k].to)
    ensures edges[k].from in removed && edges[k].from < |g| && edges[k].to in g[edges[k].from]
  {
    assert edges[k] in edges;
  }

  lemma Closing(g: Graph, perm: seq<nat>, done: set<nat>, removed: seq<nat>, edges: seq<Edge>, open: set<nat>,
          k: nat, v: nat)
    requires Ok(g, perm) && EdgeList(g, removed, edges) && k < |edges| && k in open && v < |g|
    requires Within(removed, |g|) && forall r <- removed :: r !in done
    requires edges[k].from < |g|
    ensures LeftSize(g, perm, done, edges, open - {k}, v)
         == LeftSize(g, perm, done, edges, open, v)
            - if edges[k].to == v && perm[edges[k].from] < perm[v] then 1 else 0
  {
    hide Gone, EdgeList, NoRepeats;
    var left, e := Left(g, perm, done, v), edges[k];
    GoneMore(edges, open, k, v);
    NotGone(g, removed, edges, open, k);
    if e.to == v {
      assert e.from in left <==> perm[e.from] < perm[v];
      DropOne(left, Gone(edges, open, v), e.from);
    } else {
      assert Gone(edges, open - {k}, v) == Gone(edges, open, v);
    }
  }

  lemma AllClosing(g: Graph, perm: seq<nat>, done: set<nat>, removed: seq<nat>, edges: seq<Edge>, open: set<nat>,
          k: nat)
    requires Ok(g, perm) && EdgeList(g, removed, edges) && k < |edges| && k in open && edges[k].from < |g|
    requires Within(removed, |g|) && forall r <- removed :: r !in done
    ensures forall v: nat :: v < |g| ==>
              LeftSize(g, perm, done, edges, open - {k}, v)
              == LeftSize(g, perm, done, edges, open, v)
                 - if edges[k].to == v && perm[edges[k].from] < perm[v] then 1 else 0
  {
    forall v: nat | v < |g|
      ensures LeftSize(g, perm, done, edges, open - {k}, v)
           == LeftSize(g, perm, done, edges, open, v)
              - if edges[k].to == v && perm[edges[k].from] < perm[v] then 1 else 0
    {
      Closing(g, perm, done, removed, edges, open, k, v);
    }
  }

  // A position closes without effect: its target has reached zero, or its source comes later.
  lemma PushNothing(g: Graph, perm: seq<nat>, done: set<nat>, removed: seq<nat>, edges: seq<Edge>, open: set<nat>,
                    was: seq<int>, pri: seq<int>, out: seq<int>, k: nat)
    requires Ok(g, perm) && EdgeList(g, removed, edges) && k < |edges| && k in open && edges[k].from < |g|
    requires Within(removed, |g|) && forall r <- removed :: r !in done
    requires Pushed(g, perm, done, edges, open, was, pri, out)
    requires edges[k].to < |g| && (pri[edges[k].to] <= 0 || perm[edges[k].from] >= perm[edges[k].to])
    ensures Pushed(g, perm, done, edges, open - {k}, was, pri, out)
  {
    hide LeftSize, EdgeList, Ok;
    AllClosing(g, perm, done, removed, edges, open, k);
  }

  lemma NewSlot(out: seq<int>, k: nat, d: nat)
    requires k < |out| && out[k] == NONE
    ensures d in out[k := d] && forall v: nat :: v in out ==> v in out[k := d]
  {
    assert out[k := d][k] == d;
    forall v: nat | v in out
      ensures v in out[k := d]
    {
      var j: nat :| j < |out| && out[j] == v;
      assert out[k := d][j] == v;
    }
  }

  // A fetch-and-add: the source had not been counted out yet, so the priority was positive.
  lemma PushAdd(g: Graph, perm: seq<nat>, done: set<nat>, removed: seq<nat>, edges: seq<Edge>, open: set<nat>,
                was: seq<int>, pri: seq<int>, out: seq<int>, k: nat)
    requires Ok(g, perm) && EdgeList(g, removed, edges) && k < |edges| && k in open && edges[k].from < |g|
    requires Within(removed, |g|) && forall r <- removed :: r !in done
    requires Pushed(g, perm, done, edges, open, was, pri, out)
    requires edges[k].to < |g| && was[edges[k].to] != 0 && perm[edges[k].from] < perm[edges[k].to]
    ensures var d := edges[k].to;
      Pushed(g, perm, done, edges, open - {k}, was, pri[d := pri[d] - 1], if pri[d] == 1 then out[k := d] else out)
  {
    hide LeftSize, EdgeList, Ok;
    AllClosing(g, perm, done, removed, edges, open, k);
    var d := edges[k].to;
    assert pri[d] > 0;
    assert out[k] == NONE;
    NewSlot(out, k, d);
  }

  lemma PushStart(g: Graph, perm: seq<nat>, done: set<nat>, edges: seq<Edge>, open: set<nat>, pri: seq<int>,
          out: seq<int>)
    requires Ok(g, perm) && Counts(g, perm, done, pri) && |out| == |edges|
    requires forall k: nat :: k < |edges| ==> k in open && out[k] == NONE
    ensures Pushed(g, perm, done, edges, open, pri, pri, out)
  {
    forall v: nat | v < |g|
      ensures Left(g, perm, done, v) - Gone(edges, open, v) == Left(g, perm, done, v)
    {
    }
    hide Left;
  }

  lemma PushEnd(g: Graph, perm: seq<nat>, done: set<nat>, removed: seq<nat>, edges: seq<Edge>,
                was: seq<int>, pri: seq<int>, out: seq<int>, roots: seq<nat>)
    requires Ok(g, perm) && EdgeList(g, removed, edges) && Pushed(g, perm, done, edges, {}, was, pri, out)
    requires Within(removed, |g|)
    requires NoRepeats(roots) && forall v: nat :: v in roots <==> v in out
    ensures Dropped(g, perm, done, removed, was, pri, roots)
  {
    forall v: nat | v < |g|
      ensures Left(g, perm, done, v) - Gone(edges, {}, v) == Left(g, perm, done, v) - Members(removed)
    {
      GoneAll(g, perm, done, removed, edges, v);
    }
    hide Left, Gone;
  }

  lemma GoneAll(g: Graph, perm: seq<nat>, done: set<nat>, removed: seq<nat>, edges: seq<Edge>, v: nat)
    requires Ok(g, perm) && EdgeList(g, removed, edges) && v < |g| && Within(removed, |g|)
    ensures Left(g, perm, done, v) - Gone(edges, {}, v) == Left(g, perm, done, v) - Members(removed)
  {
    forall s | s in Left(g, perm, done, v)
      ensures s in Gone(edges, {}, v) <==> s in removed
    {
      assert v in g[s];
      if s in removed {
        assert Edge(s, v) in edges;
        var k: nat :| k < |edges| && edges[k] == Edge(s, v);
        assert edges[k].to == v && k !in {};
      }
      if s in Gone(edges, {}, v) {
        var k: nat :| k < |edges| && edges[k].to == v && edges[k].from == s;
        assert edges[k] in edges;
      }
    }
  }

  // updateAtomic (MIS.h, lines 58-63) at one position, and the write of its output slot.
  method UpdateAtomic(g: Graph, perm: seq<nat>, ghost removed: seq<nat>, edges: seq<Edge>, pri: array<int>,
          out: array<int>, k: nat, ghost done: set<nat>, ghost open: set<nat>, ghost was: seq<int>)
    requires Ok(g, perm) && EdgeList(g, removed, edges) && k < |edges| == out.Length && k in open && pri.Length == |g|
    requires edges[k].from < |g| && edges[k].to < |g| && was != [] && |was| == |g| && was[edges[k].to] != 0
    requires Within(removed, |g|) && forall r <- removed :: r !in done
    requires pri != out && Pushed(g, perm, done, edges, open, was, pri[..], out[..])
    modifies pri, out
    ensures Pushed(g, perm, done, edges, open - {k}, was, pri[..], out[..])
  {
    hide Left, Gone, Pushed, EdgeList, NoRepeats, Within, Symmetric;
    var s, d := edges[k].from, edges[k].to;
    if perm[s] < perm[d] {
      PushAdd(g, perm, done, removed, edges, open, was, pri[..], out[..], k);
      ghost var pri0, out0 := pri[..], out[..];
      pri[d] := pri[d] - 1;
      if pri[d] == 0 { out[k] := d; }
      assert pri[..] == pri0[d := pri0[d] - 1] && out[..] == if pri0[d] == 1 then out0[k := d] else out0;
    } else {
      PushNothing(g, perm, done, removed, edges, open, was, pri[..], out[..], k);
    }
  }

  // The next move of one position: its test, or its fetch-and-add.
  method PushOne(g: Graph, perm: seq<nat>, ghost removed: seq<nat>, edges: seq<Edge>, pri: array<int>, out: array<int>,
                 untested: set<nat>, tested: set<nat>, k: nat, ghost done: set<nat>, ghost was: seq<int>)
    returns (untested': set<nat>, tested': set<nat>)
    requires Ok(g, perm) && EdgeList(g, removed, edges) && |edges| == out.Length && pri.Length == |g|
    requires Within(removed, |g|) && forall r <- removed :: r !in done
    requires pri != out && Phases(g, edges, untested, tested, was) && k in untested + tested
    requires Pushed(g, perm, done, edges, untested + tested, was, pri[..], out[..])
    modifies pri, out
    ensures Phases(g, edges, untested', tested', was)
    ensures Pushed(g, perm, done, edges, untested' + tested', was, pri[..], out[..])
    ensures 2 * |untested'| + |tested'| < 2 * |untested| + |tested|
  {
    hide Left, Gone, Pushed, EdgeList, NoRepeats, Within, Symmetric, Phases;
    untested', tested' := untested, tested;
    PhasesMove(g, edges, untested, tested, was, k);
    if k in untested {
      untested' := untested - {k};
      if pri[edges[k].to] > 0 {
        StillLive(g, perm, done, edges, untested + tested, was, pri[..], out[..], edges[k].to);
        tested' := tested + {k};
      } else {
        PushNothing(g, perm, done, removed, edges, untested + tested, was, pri[..], out[..], k);
      }
    } else {
      tested' := tested - {k};
      UpdateAtomic(g, perm, removed, edges, pri, out, k, done, untested + tested, was);
    }
  }

  // The push form (edge_map_sparse with output): for every position, a test that the target is still live, and
  // later a fetch-and-add on its priority. The positions are worked on at the same time: at each step
  // any of them may make its next move.
  method SparseMap(g: Graph, perm: seq<nat>, removed: seq<nat>, pri: array<int>, ghost done: set<nat>)
    returns (roots: seq<nat>)
    requires Ok(g, perm) && pri.Length == |g| && Counts(g, perm, done, pri[..])
    requires NoRepeats(removed) && Within(removed, |g|) && forall r <- removed :: r !in done
    modifies pri
    ensures Dropped(g, perm, done, removed, old(pri[..]), pri[..], roots)
  {
    hide Left, Gone, Pushed, EdgeList, Symmetric, NoRepeats, Dropped, Within, Below, Counts;
    ghost var was := pri[..];
    var edges := ListEdges(g, removed, perm);
    EdgeTargets(g, perm, removed, edges);
    var out := new int[|edges|](_ => NONE);
    var untested: set<nat>, tested: set<nat> := Below(|edges|), {};
    AllUntested(g, edges, was);
    PushStart(g, perm, done, edges, untested + tested, was, out[..]);
    while untested + tested != {}
      invariant Phases(g, edges, untested, tested, was)
      invariant Pushed(g, perm, done, edges, untested + tested, was, pri[..], out[..])
      decreases 2 * |untested| + |tested|
    {
      var k: nat :| k in untested + tested;
      untested, tested := PushOne(g, perm, removed, edges, pri, out, untested, tested, k, done, was);
    }
    OutSlots(g, perm, done, edges, untested + tested, was, pri[..], out[..]);
    roots := Filter(out);
    PushEnd(g, perm, done, removed, edges, was, pri[..], out[..], roots);
  }

  // Each open position is either still to test its target or has found it live.
  ghost predicate Phases(g: Graph, edges: seq<Edge>, untested: set<nat>, tested: set<nat>, was: seq<int>)
  {
    && |was| == |g| && untested !! tested
    && (forall k <- untested + tested :: k < |edges| && edges[k].from < |g| && edges[k].to < |g|)
    && (forall k <- tested :: was[edges[k].to] != 0)
  }

  lemma AllUntested(g: Graph, edges: seq<Edge>, was: seq<int>)
    requires |was| == |g| && forall k: nat :: k < |edges| ==> edges[k].from < |g| && edges[k].to < |g|
    ensures Phases(g, edges, Below(|edges|), {}, was)
    ensures forall k: nat :: k < |edges| ==> k in Below(|edges|)
  {
    forall k: nat
      ensures k in Below(|edges|) <==> k < |edges|
    {
      BelowMembers(|edges|, k);
    }
  }

  lemma PhasesMove(g: Graph, edges: seq<Edge>, untested: set<nat>, tested: set<nat>, was: seq<int>, k: nat)
    requires Phases(g, edges, untested, tested, was) && k in untested + tested
    ensures k < |edges| && edges[k].from < |g| && edges[k].to < |g|
    ensures k in untested ==> Phases(g, edges, untested - {k}, tested, was) && |untested - {k}| == |untested| - 1
    ensures k in untested ==> |tested + {k}| == |tested| + 1
    ensures k in untested ==> (untested - {k}) + (tested + {k}) == untested + tested
    ensures k in untested ==> (untested - {k}) + tested == untested + tested - {k}
    ensures k in tested ==> untested + (tested - {k}) == untested + tested - {k} && k !in untested
    ensures |was| == |g|
    ensures k in untested && was[edges[k].to] != 0 ==> Phases(g, edges, untested - {k}, tested + {k}, was)
    ensures k in tested ==> was[edges[k].to] != 0 && Phases(g, edges, untested, tested - {k}, was)
    ensures k in tested ==> |tested - {k}| == |tested| - 1
  {
  }

  lemma EdgeTargets(g: Graph, perm: seq<nat>, removed: seq<nat>, edges: seq<Edge>)
    requires Ok(g, perm) && EdgeList(g, removed, edges)
    ensures |perm| == |g|
    ensures forall k: nat :: k < |edges| ==> edges[k].from < |g| && edges[k].to < |g|
  {
    forall k: nat | k < |edges|
      ensures edges[k].from < |g| && edges[k].to < |g|
    {
      assert edges[k] in edges;
    }
  }

  lemma StillLive(g: Graph, perm: seq<nat>, done: set<nat>, edges: seq<Edge>, open: set<nat>,
                  was: seq<int>, pri: seq<int>, out: seq<int>, v: nat)
    requires Ok(g, perm) && Pushed(g, perm, done, edges, open, was, pri, out) && v < |g| && pri[v] > 0
    ensures was[v] != 0
  {
  }

  lemma OutSlots(g: Graph, perm: seq<nat>, done: set<nat>, edges: seq<Edge>, open: set<nat>,
                 was: seq<int>, pri: seq<int>, out: seq<int>)
    requires Ok(g, perm) && Pushed(g, perm, done, edges, open, was, pri, out)
    ensures forall k: nat :: k < |out| && out[k] != NONE ==> out[k] >= 0
    ensures forall j: nat, k: nat :: j < k < |out| && out[j] != NONE ==> out[j] != out[k]
  {
  }

  method Filter(out: array<int>) returns (vs: seq<nat>)
    requires forall k: nat :: k < out.Length && out[k] != NONE ==> out[k] >= 0
    requires forall j: nat, k: nat :: j < k < out.Length && out[j] != NONE ==> out[j] != out[k]
    ensures NoRepeats(vs) && forall v: nat :: v in vs <==> v in out[..]
  {
    vs := [];
    for i := 0 to out.Length
      invariant NoRepeats(vs) && forall v: nat :: v in vs <==> v in out[..i]
    {
      assert forall v: nat :: v in out[..i + 1] <==> v in out[..i] || v == out[i];
      assert out[i] != NONE ==> out[i] !in out[..i];
      if out[i] != NONE { vs := vs + [out[i]]; }
    }
    assert out[..] == out[..out.Length];
  }

  // edge_map (graph/traversible_graph.h, lines 300-337): either form, by the number of edges.
  method EdgeMap(g: Graph, perm: seq<nat>, removed: seq<nat>, pri: array<int>, ghost done: set<nat>)
    returns (roots: seq<nat>)
    requires Ok(g, perm) && pri.Length == |g| && Counts(g, perm, done, pri[..])
    requires NoRepeats(removed) && Within(removed, |g|) && forall r <- removed :: r !in done
    modifies pri
    ensures Dropped(g, perm, done, removed, old(pri[..]), pri[..], roots)
  {
    if |removed| == 0 {
      NothingDropped(g, perm, done, pri[..]);
      return [];
    }
    hide Counts, Dropped, Ok, NoRepeats, Within;
    if Degrees(g, removed) + |removed| > Edges(g) / 20 {
      roots := DenseMap(g, perm, removed, pri, done);
    } else {
      roots := SparseMap(g, perm, removed, pri, done);
    }
  }

  lemma NothingDropped(g: Graph, perm: seq<nat>, done: set<nat>, pri: seq<int>)
    requires Ok(g, perm) && Counts(g, perm, done, pri)
    ensures Dropped(g, perm, done, [], pri, pri, [])
  {
    forall v: nat | v < |g|
      ensures Left(g, perm, done, v) - Members([]) == Left(g, perm, done, v)
    {
    }
    hide Left, Members;
  }

  // ---- The algorithm ----

  // The earlier neighbours among the first j.
  ghost function Earlier(g: Graph, perm: seq<nat>, v: nat, j: nat): set<nat>
    requires Ok(g, perm) && v < |g| && j <= |g[v]|
  {
    set u | u in g[v][..j] && perm[u] < perm[v]
  }

  lemma EarlierMore(g: Graph, perm: seq<nat>, v: nat, j: nat)
    requires Ok(g, perm) && v < |g| && j < |g[v]|
    ensures |Earlier(g, perm, v, j + 1)| == |Earlier(g, perm, v, j)| + if perm[g[v][j]] < perm[v] then 1 else 0
  {
    hide NoRepeats;
    var u := g[v][j];
    PrefixMore(g[v], j);
    assert Earlier(g, perm, v, j + 1) == Earlier(g, perm, v, j) + if perm[u] < perm[v] then {u} else {};
  }

  lemma EarlierAll(g: Graph, perm: seq<nat>, v: nat)
    requires Ok(g, perm) && v < |g|
    ensures Earlier(g, perm, v, 0) == {} && Earlier(g, perm, v, |g[v]|) == Left(g, perm, {}, v)
  {
    assert g[v][..|g[v]|] == g[v];
  }

  // count_nghs with the test of lines 79-86.
  method CountEarlier(g: Graph, perm: seq<nat>, v: nat) returns (count: nat)
    requires Ok(g, perm) && v < |g|
    ensures count == |Left(g, perm, {}, v)|
  {
    hide Earlier, Left;
    count := 0;
    EarlierAll(g, perm, v);
    for j := 0 to |g[v]|
      invariant count == |Earlier(g, perm, v, j)|
    {
      EarlierMore(g, perm, v, j);
      if perm[g[v][j]] < perm[v] { count := count + 1; }
    }
  }

  // The priority of a vertex is the number of neighbours before it (MIS.h, lines 73-90).
  method InitialPriorities(g: Graph, perm: seq<nat>) returns (pri: array<int>)
    requires Ok(g, perm)
    ensures fresh(pri) && pri.Length == |g| && forall v: nat :: v < |g| ==> pri[v] == |Left(g, perm, {}, v)|
  {
    hide Left;
    pri := new int[|g|];
    for i := 0 to |g|
      invariant forall v: nat :: v < i ==> pri[v] == |Left(g, perm, {}, v)|
    {
      pri[i] := CountEarlier(g, perm, i);
    }
  }

  method InitialRoots(pri: array<int>) returns (roots: seq<nat>)
    ensures NoRepeats(roots) && Within(roots, pri.Length)
    ensures forall v: nat :: v in roots <==> v < pri.Length && pri[v] == 0
  {
    var zero := new bool[pri.Length](i reads pri => 0 <= i < pri.Length && pri[i] == 0);
    roots := Pack(zero);
    MembersWithin(roots, pri.Length);
  }

  lemma StartsBetween(g: Graph, perm: seq<nat>, pri: seq<int>, inMis: seq<bool>, roots: seq<nat>)
    requires Ok(g, perm) && |pri| == |inMis| == |g| && NoRepeats(roots) && Within(roots, |g|)
    requires forall v: nat :: v < |g| ==> pri[v] == |Left(g, perm, {}, v)| && !inMis[v]
    requires forall v: nat :: v in roots <==> v < |g| && pri[v] == 0
    ensures Between(g, perm, {}, pri, inMis, roots)
  {
    hide Left;
  }

  // vertex_map: the roots enter the set, the removed vertices get priority zero.
  method MarkAll(inMis: array<bool>, roots: seq<nat>)
    requires Within(roots, inMis.Length)
    modifies inMis
    ensures Marked(old(inMis[..]), inMis[..], roots)
  {
    for i := 0 to |roots|
      invariant forall v: nat :: v < inMis.Length ==> inMis[v] == (v in roots[..i] || old(inMis[..])[v])
    {
      inMis[roots[i]] := true;
    }
    assert roots[..|roots|] == roots;
  }

  method ZeroAll(pri: array<int>, removed: seq<nat>)
    requires Within(removed, pri.Length)
    modifies pri
    ensures Zeroed(old(pri[..]), pri[..], removed)
  {
    for i := 0 to |removed|
      invariant forall v: nat :: v < pri.Length ==> pri[v] == if v in removed[..i] then 0 else old(pri[..])[v]
    {
      pri[removed[i]] := 0;
    }
    assert removed[..|removed|] == removed;
  }

  // MIS (MIS.h, lines 67-137): rounds until every vertex is finished. The result is the sequential
  // greedy set, and no round starts without roots.
  method MaximalIndependentSet(g: Graph, perm: seq<nat>) returns (inMis: array<bool>)
    requires Ok(g, perm)
    ensures inMis.Length == |g| && forall v: nat :: v < |g| ==> (inMis[v] <==> Chosen(g, perm, v))
  {
    hide Left, Between, Removes, Zeroed, Dropped, Marked, NoRepeats, Within, After, Symmetric;
    var n := |g|;
    var pri := InitialPriorities(g, perm);
    var roots := InitialRoots(pri);
    inMis := new bool[n](_ => false);
    var finished := 0;
    ghost var done: set<nat> := {};
    StartsBetween(g, perm, pri[..], inMis[..], roots);
    while finished != n
      invariant pri.Length == inMis.Length == n
      invariant Between(g, perm, done, pri[..], inMis[..], roots)
      invariant |done| == finished <= n
      decreases n - finished
    {
      RootsLeft(g, perm, done, pri[..], inMis[..], roots);
      assert |roots| > 0;
      ghost var pri0, inMis0 := pri[..], inMis[..];
      MarkAll(inMis, roots);
      var removed := GetNghs(g, roots, pri);
      RemovedLive(g, perm, done, pri[..], inMis0, roots, removed);
      ZeroAll(pri, removed);
      ghost var pri1 := pri[..];
      CountsZeroed(g, perm, done, pri0, inMis0, roots, pri1, removed);
      var roots' := EdgeMap(g, perm, removed, pri, done);
      RoundKeeps(g, perm, done, pri0, inMis0, roots, removed, pri1, pri[..], inMis[..], roots');
      done := After(done, roots, removed);
      finished := finished + |roots| + |removed|;
      AtMostAll(g, perm, done, pri[..], inMis[..], roots');
      roots := roots';
    }
    AllSettled(g, perm, done, pri[..], inMis[..], roots);
  }

  lemma DoneBelow(g: Graph, perm: seq<nat>, done: set<nat>, pri: seq<int>, inMis: seq<bool>, roots: seq<nat>)
    requires Ok(g, perm) && Between(g, perm, done, pri, inMis, roots)
    ensures done <= Below(|g|)
  {
    forall v | v in done
      ensures v in Below(|g|)
    {
      BelowMembers(|g|, v);
    }
  }

  lemma AtMostAll(g: Graph, perm: seq<nat>, done: set<nat>, pri: seq<int>, inMis: seq<bool>, roots: seq<nat>)
    requires Ok(g, perm) && Between(g, perm, done, pri, inMis, roots)
    ensures |done| <= |g|
  {
    hide Between;
    DoneBelow(g, perm, done, pri, inMis, roots);
    BelowSize(|g|);
    SubsetSize(done, Below(|g|));
  }

  lemma RootsLeft(g: Graph, perm: seq<nat>, done: set<nat>, pri: seq<int>, inMis: seq<bool>, roots: seq<nat>)
    requires Ok(g, perm) && Between(g, perm, done, pri, inMis, roots) && |done| < |g|
    ensures |roots| > 0 && Within(roots, |g|) && Symmetric(g)
  {
    hide Left, Chosen;
    BelowSize(|g|);
    DoneBelow(g, perm, done, pri, inMis, roots);
    if Below(|g|) <= done { SubsetSize(Below(|g|), done); }
    var v: nat :| v in Below(|g|) && v !in done;
    BelowMembers(|g|, v);
    SomeRoot(g, perm, done, pri, roots, v);
  }

  lemma RemovedLive(g: Graph, perm: seq<nat>, done: set<nat>, pri: seq<int>, inMis: seq<bool>, roots: seq<nat>,
          removed: seq<nat>)
    requires Ok(g, perm) && Between(g, perm, done, pri, inMis, roots) && Removes(g, pri, roots, removed)
    ensures NoRepeats(removed) && Within(removed, |g|) && forall r <- removed :: r !in done
  {
    hide Left, Chosen, Symmetric;
    MembersWithin(removed, |g|);
  }

  lemma CountsZeroed(g: Graph, perm: seq<nat>, done: set<nat>, pri: seq<int>, inMis: seq<bool>, roots: seq<nat>,
                     pri1: seq<int>, removed: seq<nat>)
    requires Ok(g, perm) && Between(g, perm, done, pri, inMis, roots) && Zeroed(pri, pri1, removed)
    ensures Counts(g, perm, done, pri1)
  {
    hide Left, Chosen, Symmetric;
  }

  lemma AllSettled(g: Graph, perm: seq<nat>, done: set<nat>, pri: seq<int>, inMis: seq<bool>, roots: seq<nat>)
    requires Ok(g, perm) && Between(g, perm, done, pri, inMis, roots) && |done| == |g|
    ensures |inMis| == |g| && forall v: nat :: v < |g| ==> (inMis[v] <==> Chosen(g, perm, v))
  {
    hide Left, Chosen, Symmetric;
    DoneBelow(g, perm, done, pri, inMis, roots);
    BelowSize(|g|);
    SubsetSize(done, Below(|g|));
    forall v: nat | v < |g|
      ensures v in done
    {
      BelowMembers(|g|, v);
    }
  }

  // With the priorities a permutation: the set found is the one the sequential pass over the vertices finds.
  lemma ChosenIsGreedy(g: Graph, perm: seq<nat>, order: seq<nat>, v: nat)
    requires Ok(g, perm) && Ranks(g, perm, order)
    ensures v in Greedy(g, order) <==> v < |g| && Chosen(g, perm, v)
  {
    GreedyChosen(g, perm, order, |order|, v);
    assert order[..|order|] == order;
  }
}
