// The history-independent hash table of comparison_systems/aspen/code/pbbslib/hash_table.h:
// linear probing in which a key of higher priority bumps a key of lower priority. Keys are their own
// entries, cmp is the order of the integers, and the hash is an arbitrary function.
module HashTable {
  import opened Collections

  datatype Cell = Empty | Full(key: int)

  type Hash = int -> nat

  ghost predicate HashOk(h: Hash, m: nat) { forall k :: h(k) < m }

  // ---- Cyclic positions (lines 62-65) ----

  function Inc(m: nat, i: nat): nat { if i + 1 == m then 0 else i + 1 }

  function Dec(m: nat, i: nat): nat
    requires m > 0
  {
    if i == 0 then m - 1 else i - 1
  }

  predicate LessIndex(m: nat, a: nat, b: nat) {
    if a < b then 2 * (b - a) < m else 2 * (a - b) > m
  }

  // The number of increments from a to b.
  function Dist(m: nat, a: nat, b: nat): nat
    requires a < m && b < m
  {
    if a <= b then b - a else b + m - a
  }

  // lessIndex compares cyclic positions: b follows a by less than half of the table.
  lemma LessIndexMeaning(m: nat, a: nat, b: nat)
    requires a < m && b < m
    ensures LessIndex(m, a, b) <==> 0 < Dist(m, a, b) && 2 * Dist(m, a, b) < m
  {
  }

  // ---- The layout ----

  // Key k may stand at p: every cell from its home up to p holds a key of higher priority.
  ghost predicate Placed(t: seq<Cell>, h: Hash, k: int, p: nat)
    requires p < |t| && HashOk(h, |t|)
  {
    forall q :: 0 <= q < |t| && Dist(|t|, h(k), q) < Dist(|t|, h(k), p) ==> t[q].Full? && t[q].key > k
  }

  ghost predicate Layout(t: seq<Cell>, h: Hash) {
    HashOk(h, |t|) && forall p :: 0 <= p < |t| && t[p].Full? ==> Placed(t, h, t[p].key, p)
  }

  ghost predicate HasKey(t: seq<Cell>, k: int) { exists p :: 0 <= p < |t| && t[p] == Full(k) }

  ghost predicate HasEmpty(t: seq<Cell>) { exists e :: 0 <= e < |t| && t[e].Empty? }

  ghost predicate SameKeys(t: seq<Cell>, u: seq<Cell>) { forall k :: HasKey(t, k) <==> HasKey(u, k) }

  ghost function Above(t: seq<Cell>, k: int): set<int> {
    set q | 0 <= q < |t| && t[q].Full? && t[q].key > k :: t[q].key
  }

  // In two layouts of the same keys, every key stands at the same position.
  lemma {:induction false} SamePosition(t: seq<Cell>, u: seq<Cell>, h: Hash, p: nat, q: nat)
    requires Layout(t, h) && Layout(u, h) && |t| == |u| && SameKeys(t, u)
    requires p < |t| && q < |u| && t[p].Full? && u[q] == t[p]
    ensures p == q
    decreases |Above(t, t[p].key)|
  {
    var m, k := |t|, t[p].key;
    if Dist(m, h(k), p) < Dist(m, h(k), q) {
      assert u[p].Full? && u[p].key > k;
      assert HasKey(u, u[p].key) && HasKey(t, u[p].key);
      var p' :| 0 <= p' < m && t[p'] == u[p];
      AboveLess(t, p, p');
      SamePosition(t, u, h, p', p);
    } else if Dist(m, h(k), q) < Dist(m, h(k), p) {
      assert t[q].Full? && t[q].key > k;
      assert HasKey(t, t[q].key) && HasKey(u, t[q].key);
      var q' :| 0 <= q' < m && u[q'] == t[q];
      AboveLess(t, p, q);
      SamePosition(t, u, h, q, q');
    }
  }

  lemma AboveLess(t: seq<Cell>, p: nat, q: nat)
    requires p < |t| && q < |t| && t[p].Full? && t[q].Full? && t[q].key > t[p].key
    ensures |Above(t, t[q].key)| < |Above(t, t[p].key)|
  {
    assert t[q].key in Above(t, t[p].key) && t[q].key !in Above(t, t[q].key);
    CardinalityLess(Above(t, t[q].key), Above(t, t[p].key));
  }

  // The layout depends on the set of keys alone, not on the history.
  lemma UniqueLayout(t: seq<Cell>, u: seq<Cell>, h: Hash)
    requires Layout(t, h) && Layout(u, h) && |t| == |u| && SameKeys(t, u)
    ensures t == u
  {
    forall p | 0 <= p < |t| ensures t[p] == u[p] {
      if t[p].Full? {
        assert HasKey(t, t[p].key) && HasKey(u, t[p].key);
        var q :| 0 <= q < |u| && u[q] == Full(t[p].key);
        SamePosition(t, u, h, p, q);
      } else if u[p].Full? {
        assert HasKey(u, u[p].key) && HasKey(t, u[p].key);
        var q :| 0 <= q < |t| && t[q] == Full(u[p].key);
        SamePosition(t, u, h, q, p);
      }
    }
  }

  // Where a search may stop: the first cell from the home of v that is empty or not above v.
  lemma SearchStops(t: seq<Cell>, h: Hash, v: int, i: nat)
    requires Layout(t, h) && i < |t| && Placed(t, h, v, i) && (t[i].Full? ==> t[i].key <= v)
    ensures HasKey(t, v) <==> t[i] == Full(v)
  {
    if HasKey(t, v) {
      var p :| 0 <= p < |t| && t[p] == Full(v);
      assert Placed(t, h, t[p].key, p);
    }
  }

  // One more step of the search, which does not come round to the home of v while a cell e is empty.
  lemma SearchStep(t: seq<Cell>, h: Hash, v: int, i: nat, e: nat)
    requires HashOk(h, |t|) && i < |t| && Placed(t, h, v, i) && t[i].Full? && t[i].key > v && e < |t| && t[e].Empty?
    ensures Placed(t, h, v, Inc(|t|, i)) && Dist(|t|, Inc(|t|, i), e) == Dist(|t|, i, e) - 1
    ensures Dist(|t|, h(v), Inc(|t|, i)) == Dist(|t|, h(v), i) + 1
  {
    var m := |t|;
    assert Dist(m, h(v), e) > Dist(m, h(v), i);
    forall q | 0 <= q < m && Dist(m, h(v), q) < Dist(m, h(v), Inc(m, i)) ensures t[q].Full? && t[q].key > v {
      assert q != i ==> Dist(m, h(v), q) < Dist(m, h(v), i);
    }
  }

  // Raising the priority in a cell, or filling it, keeps every other key placed.
  lemma RaiseKeeps(t: seq<Cell>, h: Hash, i: nat, v: int)
    requires Layout(t, h) && i < |t| && Placed(t, h, v, i) && (t[i].Full? ==> t[i].key <= v)
    ensures Layout(t[i := Full(v)], h)
    ensures forall k, p :: 0 <= p < |t| && Placed(t, h, k, p) ==> Placed(t[i := Full(v)], h, k, p)
  {
    var u := t[i := Full(v)];
    forall k, p | 0 <= p < |t| && Placed(t, h, k, p) ensures Placed(u, h, k, p) {
    }
    forall p | 0 <= p < |u| && u[p].Full? ensures Placed(u, h, u[p].key, p) {
    }
  }

  // A search begins at the home of its key.
  lemma NothingBefore(t: seq<Cell>, h: Hash, v: int)
    requires HashOk(h, |t|)
    ensures Placed(t, h, v, h(v))
  {
  }

  // The key that v bumps goes on from the next cell.
  lemma BumpKeeps(t: seq<Cell>, h: Hash, i: nat, v: int, e: nat)
    requires Layout(t, h) && i < |t| && Placed(t, h, v, i) && t[i].Full? && t[i].key < v && e < |t| && t[e].Empty?
    ensures var u := t[i := Full(v)];
            Layout(u, h) && u[e].Empty? && Placed(u, h, t[i].key, Inc(|t|, i))
    ensures Dist(|t|, Inc(|t|, i), e) == Dist(|t|, i, e) - 1
  {
    var u := t[i := Full(v)];
    RaiseKeeps(t, h, i, v);
    assert Placed(t, h, t[i].key, i);
    SearchStep(u, h, t[i].key, i, e);
  }

  lemma KeysAfterWrite(t: seq<Cell>, i: nat, c: Cell)
    requires i < |t|
    ensures forall k :: HasKey(t[i := c], k) <==> c == Full(k) || exists p :: 0 <= p < |t| && p != i && t[p] == Full(k)
  {
    var u := t[i := c];
    forall k ensures HasKey(u, k) <==> c == Full(k) || exists p :: 0 <= p < |t| && p != i && t[p] == Full(k) {
      if c == Full(k) { assert u[i] == Full(k); }
      if p :| 0 <= p < |t| && p != i && t[p] == Full(k) { assert u[p] == Full(k); }
    }
  }

  lemma NoDuplicates(t: seq<Cell>, h: Hash, p: nat, q: nat)
    requires Layout(t, h) && p < |t| && q < |t| && t[p].Full? && t[q] == t[p]
    ensures p == q
  {
    assert Placed(t, h, t[p].key, p) && Placed(t, h, t[q].key, q);
  }

  // ---- Deletion as a function ----

  // The scan of lines 170-184: the next cell from q that is empty or whose key may move to j.
  ghost function Scan(t: seq<Cell>, h: Hash, j: nat, q: nat, e: nat): (r: nat)
    requires HashOk(h, |t|) && j < |t| && q < |t| && e < |t| && t[e].Empty?
    ensures r < |t| && (t[r].Full? ==> !LessIndex(|t|, j, h(t[r].key)))
    ensures Dist(|t|, q, r) <= Dist(|t|, q, e)
    ensures forall p :: 0 <= p < |t| && Dist(|t|, q, p) < Dist(|t|, q, r) ==>
              t[p].Full? && LessIndex(|t|, j, h(t[p].key))
    decreases Dist(|t|, q, e)
  {
    if t[q].Full? && LessIndex(|t|, j, h(t[q].key)) then
      var r := Scan(t, h, j, Inc(|t|, q), e);
      assert forall p :: 0 <= p < |t| && p != q && Dist(|t|, q, p) < Dist(|t|, q, r) ==>
        Dist(|t|, Inc(|t|, q), p) < Dist(|t|, Inc(|t|, q), r);
      r
    else q
  }

  // The loop of lines 147-203 from the point where the key at j is found: the hole moves on until an
  // empty cell fills it.
  ghost function DeleteFrom(t: seq<Cell>, h: Hash, j: nat, e: nat): (u: seq<Cell>)
    requires HashOk(h, |t|) && j < |t| && e < |t| && t[j].Full? && t[e].Empty?
    ensures |u| == |t|
    ensures forall q :: 0 <= q < |t| && Dist(|t|, j, q) >= Dist(|t|, j, e) ==> u[q] == t[q]
    decreases Dist(|t|, j, e)
  {
    var m, r := |t|, Scan(t, h, j, Inc(|t|, j), e);
    assert 0 < Dist(m, j, r) <= Dist(m, j, e);
    if t[r].Empty? then t[j := Empty]
    else
      assert forall q :: 0 <= q < m && Dist(m, j, q) >= Dist(m, j, e) ==> Dist(m, r, q) >= Dist(m, r, e);
      DeleteFrom(t[j := t[r]], h, r, e)
  }

  // ---- When deletion is right ----

  // A way to r that is at least as long as the one from j passes every cell from j to r.
  lemma OnTheWay(m: nat, home: nat, j: nat, p: nat, r: nat)
    requires home < m && j < m && p < m && r < m && Dist(m, j, p) < Dist(m, j, r) <= Dist(m, home, r)
    ensures Dist(m, home, p) < Dist(m, home, r)
  {
  }

  // The home k of the key at q follows the hole j on the way to q: the key must not move to j.
  predicate HomeAfter(m: nat, j: nat, q: nat, home: nat)
    requires j < m && q < m && home < m
  {
    Dist(m, home, q) < Dist(m, j, q)
  }

  // Everything but the hole j is laid out.
  ghost predicate LayoutExcept(t: seq<Cell>, h: Hash, j: nat) {
    HashOk(h, |t|) && forall p :: 0 <= p < |t| && p != j && t[p].Full? ==> Placed(t, h, t[p].key, p)
  }

  ghost predicate HasKeyExcept(t: seq<Cell>, j: nat, k: int) { exists p :: 0 <= p < |t| && p != j && t[p] == Full(k) }

  // lessIndex gives the right answer at p.
  ghost predicate JudgedRight(t: seq<Cell>, h: Hash, j: nat, p: nat)
    requires HashOk(h, |t|) && j < |t| && p < |t|
  {
    t[p].Full? ==> (LessIndex(|t|, j, h(t[p].key)) <==> HomeAfter(|t|, j, p, h(t[p].key)))
  }

  // The cells that the scan for the hole j looks at are all judged right.
  ghost predicate ScanRight(t: seq<Cell>, h: Hash, j: nat, r: nat)
    requires HashOk(h, |t|) && j < |t| && r < |t|
  {
    forall p :: 0 <= p < |t| && 0 < Dist(|t|, j, p) <= Dist(|t|, j, r) ==> JudgedRight(t, h, j, p)
  }

  // Every comparison that the deletion makes is judged right.
  ghost predicate AllRight(t: seq<Cell>, h: Hash, j: nat, e: nat)
    requires HashOk(h, |t|) && j < |t| && e < |t| && t[j].Full? && t[e].Empty?
    decreases Dist(|t|, j, e)
  {
    var r := Scan(t, h, j, Inc(|t|, j), e);
    assert 0 < Dist(|t|, j, r) <= Dist(|t|, j, e);
    ScanRight(t, h, j, r) && (t[r].Full? ==> AllRight(t[j := t[r]], h, r, e))
  }

  // What the scan has passed: occupied cells whose keys are judged to stay.
  lemma Passed(t: seq<Cell>, h: Hash, j: nat, e: nat, p: nat)
    requires HashOk(h, |t|) && j < |t| && p < |t| && e < |t| && t[j].Full? && t[e].Empty?
    requires 0 < Dist(|t|, j, p) < Dist(|t|, j, Scan(t, h, j, Inc(|t|, j), e))
    ensures t[p].Full? && LessIndex(|t|, j, h(t[p].key))
  {
  }

  // A rightly chosen key fills the hole, and its old cell is the new hole.
  lemma FillKeeps(t: seq<Cell>, h: Hash, j: nat, e: nat)
    requires LayoutExcept(t, h, j) && j < |t| && e < |t| && t[j].Full? && t[e].Empty?
    requires var r := Scan(t, h, j, Inc(|t|, j), e); t[r].Full? && ScanRight(t, h, j, r)
    ensures var r := Scan(t, h, j, Inc(|t|, j), e);
            && LayoutExcept(t[j := t[r]], h, r)
            && forall k :: HasKeyExcept(t[j := t[r]], r, k) <==> HasKeyExcept(t, j, k)
  {
    var m, r := |t|, Scan(t, h, j, Inc(|t|, j), e);
    var u, x := t[j := t[r]], t[r].key;
    assert JudgedRight(t, h, j, r) && Placed(t, h, x, r);
    forall p | 0 <= p < m && p != r && u[p].Full? ensures Placed(u, h, u[p].key, p) {
      if p == j {
        forall q | 0 <= q < m && Dist(m, h(x), q) < Dist(m, h(x), j) ensures u[q].Full? && u[q].key > x {
          assert Dist(m, h(x), q) < Dist(m, h(x), r);
        }
      } else {
        FillOther(t, h, j, r, e, p);
      }
    }
    forall k ensures HasKeyExcept(u, r, k) <==> HasKeyExcept(t, j, k) {
      if p :| 0 <= p < m && p != r && u[p] == Full(k) {
        assert p == j ==> t[r] == Full(k);
        assert p != j ==> t[p] == Full(k);
      }
      if p :| 0 <= p < m && p != j && t[p] == Full(k) {
        assert p == r ==> u[j] == Full(k);
        assert p != r ==> u[p] == Full(k);
      }
    }
  }

  // A key that stays, at p, keeps its cells, the filled hole among them.
  lemma FillOther(t: seq<Cell>, h: Hash, j: nat, r: nat, e: nat, p: nat)
    requires LayoutExcept(t, h, j) && j < |t| && e < |t| && t[j].Full? && t[e].Empty?
    requires r == Scan(t, h, j, Inc(|t|, j), e) && t[r].Full? && ScanRight(t, h, j, r)
    requires p < |t| && p != r && p != j && t[p].Full?
    ensures Placed(t[j := t[r]], h, t[p].key, p)
  {
    var m, u, k := |t|, t[j := t[r]], t[p].key;
    assert Placed(t, h, k, p);
    if Dist(m, j, p) < Dist(m, j, r) {
      Passed(t, h, j, e, p);
      assert JudgedRight(t, h, j, p);
    } else if Dist(m, h(k), j) < Dist(m, h(k), p) {
      WayThrough(m, h(k), j, r, p);
    }
    hide Dist;
    forall q | 0 <= q < m && Dist(m, h(k), q) < Dist(m, h(k), p) ensures u[q].Full? && u[q].key > k {
    }
  }

  // A way through j to p beyond r passes r.
  lemma WayThrough(m: nat, home: nat, j: nat, r: nat, p: nat)
    requires home < m && j < m && r < m && p < m && r != p
    requires Dist(m, home, j) < Dist(m, home, p) && Dist(m, j, p) >= Dist(m, j, r)
    ensures Dist(m, home, r) < Dist(m, home, p)
  {
  }

  lemma EmptyKeepsOne(t: seq<Cell>, h: Hash, j: nat, e: nat, p: nat)
    requires LayoutExcept(t, h, j) && j < |t| && e < |t| && t[j].Full? && t[e].Empty?
    requires var r := Scan(t, h, j, Inc(|t|, j), e); t[r].Empty? && ScanRight(t, h, j, r)
    requires p < |t| && p != j && t[p].Full?
    ensures Placed(t[j := Empty], h, t[p].key, p)
  {
    var m, r := |t|, Scan(t, h, j, Inc(|t|, j), e);
    var k := t[p].key;
    assert Placed(t, h, k, p);
    if Dist(m, j, p) < Dist(m, j, r) {
      Passed(t, h, j, e, p);
      assert JudgedRight(t, h, j, p);
    } else {
      assert Dist(m, h(k), r) >= Dist(m, h(k), p);
    }
  }

  // No key needs the hole when the scan ends at an empty cell.
  lemma EmptyKeeps(t: seq<Cell>, h: Hash, j: nat, e: nat)
    requires LayoutExcept(t, h, j) && j < |t| && e < |t| && t[j].Full? && t[e].Empty?
    requires var r := Scan(t, h, j, Inc(|t|, j), e); t[r].Empty? && ScanRight(t, h, j, r)
    ensures Layout(t[j := Empty], h)
    ensures forall k :: HasKey(t[j := Empty], k) <==> HasKeyExcept(t, j, k)
  {
    var m := |t|;
    var u := t[j := Empty];
    forall p: nat | p < m && u[p].Full? ensures Placed(u, h, u[p].key, p) {
      EmptyKeepsOne(t, h, j, e, p);
    }
    forall k ensures HasKey(u, k) <==> HasKeyExcept(t, j, k) {
      if p :| 0 <= p < m && p != j && t[p] == Full(k) { assert u[p] == Full(k); }
      if p :| 0 <= p < m && u[p] == Full(k) { assert p != j && t[p] == Full(k); }
    }
  }

  // If every comparison is right, the key of the hole is gone and the rest is laid out.
  lemma {:induction false} DeleteRight(t: seq<Cell>, h: Hash, j: nat, e: nat)
    requires LayoutExcept(t, h, j) && j < |t| && e < |t| && t[j].Full? && t[e].Empty? && AllRight(t, h, j, e)
    ensures Layout(DeleteFrom(t, h, j, e), h)
    ensures forall k :: HasKey(DeleteFrom(t, h, j, e), k) <==> HasKeyExcept(t, j, k)
    decreases Dist(|t|, j, e)
  {
    var r := Scan(t, h, j, Inc(|t|, j), e);
    if t[r].Empty? {
      EmptyKeeps(t, h, j, e);
    } else {
      FillKeeps(t, h, j, e);
      DeleteRight(t[j := t[r]], h, r, e);
    }
  }

  // If one is wrong, some key is left in a cell where no search finds it.
  lemma {:induction false} DeleteWrong(t: seq<Cell>, h: Hash, j: nat, e: nat)
    requires LayoutExcept(t, h, j) && j < |t| && e < |t| && t[j].Full? && t[e].Empty? && !AllRight(t, h, j, e)
    ensures !Layout(DeleteFrom(t, h, j, e), h)
    decreases Dist(|t|, j, e)
  {
    var m, r := |t|, Scan(t, h, j, Inc(|t|, j), e);
    if ScanRight(t, h, j, r) {
      FillKeeps(t, h, j, e);
      DeleteWrong(t[j := t[r]], h, r, e);
    } else {
      var p :| 0 <= p < m && 0 < Dist(m, j, p) <= Dist(m, j, r) && !JudgedRight(t, h, j, p);
      if p == r {
        MovedTooFar(t, h, j, e);
      } else if t[r].Full? && HomeAfter(m, j, r, h(t[r].key)) {
        MovedTooFar(t, h, j, e);
      } else {
        LeftBehind(t, h, j, e, p);
      }
    }
  }

  // The final table at and after the first hole, up to where the scan ended.
  lemma FinalAt(t: seq<Cell>, h: Hash, j: nat, e: nat, q: nat)
    requires HashOk(h, |t|) && j < |t| && e < |t| && q < |t| && t[j].Full? && t[e].Empty?
    requires Dist(|t|, j, q) < Dist(|t|, j, Scan(t, h, j, Inc(|t|, j), e))
    ensures DeleteFrom(t, h, j, e)[q] == if q == j then t[Scan(t, h, j, Inc(|t|, j), e)] else t[q]
  {
    var m, r := |t|, Scan(t, h, j, Inc(|t|, j), e);
    if t[r].Full? {
      assert Dist(m, r, q) >= Dist(m, r, e);
      assert DeleteFrom(t, h, j, e) == DeleteFrom(t[j := t[r]], h, r, e);
    }
  }

  // A key moved to a hole before its home is cut off by the empty cell e.
  lemma MovedTooFar(t: seq<Cell>, h: Hash, j: nat, e: nat)
    requires HashOk(h, |t|) && j < |t| && e < |t| && t[j].Full? && t[e].Empty?
    requires var r := Scan(t, h, j, Inc(|t|, j), e); t[r].Full? && HomeAfter(|t|, j, r, h(t[r].key))
    ensures !Layout(DeleteFrom(t, h, j, e), h)
  {
    var m, r := |t|, Scan(t, h, j, Inc(|t|, j), e);
    var u, x := DeleteFrom(t, h, j, e), t[r].key;
    FinalAt(t, h, j, e, j);
    assert u[j] == Full(x) && u[e].Empty?;
    assert Dist(m, h(x), e) < Dist(m, h(x), j);
    assert !Placed(u, h, x, j);
  }

  // A key that needs the hole and is passed over is left behind a key of lower priority.
  lemma LeftBehind(t: seq<Cell>, h: Hash, j: nat, e: nat, p: nat)
    requires LayoutExcept(t, h, j) && j < |t| && e < |t| && p < |t| && t[j].Full? && t[e].Empty?
    requires var r := Scan(t, h, j, Inc(|t|, j), e);
             && 0 < Dist(|t|, j, p) < Dist(|t|, j, r) && !JudgedRight(t, h, j, p)
             && (t[r].Full? ==> !HomeAfter(|t|, j, r, h(t[r].key)))
    ensures !Layout(DeleteFrom(t, h, j, e), h)
  {
    var m, r := |t|, Scan(t, h, j, Inc(|t|, j), e);
    var u := DeleteFrom(t, h, j, e);
    Passed(t, h, j, e, p);
    FinalAt(t, h, j, e, j);
    FinalAt(t, h, j, e, p);
    var k := t[p].key;
    if t[r].Full? {
      OnTheWay(m, h(t[r].key), j, p, r);
      assert Placed(t, h, t[r].key, r);
      assert k > t[r].key;
    }
    OnTheWay(m, h(k), j, j, p);
    assert !(u[j].Full? && u[j].key > k);
    assert !Placed(u, h, k, p);
  }

  // Deletion keeps the layout exactly when every comparison of lessIndex that it makes is right.
  lemma DeleteExact(t: seq<Cell>, h: Hash, j: nat, e: nat)
    requires Layout(t, h) && j < |t| && e < |t| && t[j].Full? && t[e].Empty?
    ensures AllRight(t, h, j, e) <==> Layout(DeleteFrom(t, h, j, e), h)
    ensures AllRight(t, h, j, e) ==>
              forall k :: HasKey(DeleteFrom(t, h, j, e), k) <==> HasKey(t, k) && k != t[j].key
  {
    if AllRight(t, h, j, e) {
      DeleteRight(t, h, j, e);
      forall k ensures HasKeyExcept(t, j, k) <==> HasKey(t, k) && k != t[j].key {
        if p :| 0 <= p < |t| && p != j && t[p] == Full(k) && k == t[j].key { NoDuplicates(t, h, p, j); }
      }
    } else {
      DeleteWrong(t, h, j, e);
    }
  }

  // ---- Runs shorter than half of the table ----

  // From every cell an empty one is less than half of the table away.
  ghost predicate ShortRuns(t: seq<Cell>) {
    forall i :: 0 <= i < |t| ==> EmptyNear(t, i)
  }

  ghost predicate EmptyNear(t: seq<Cell>, i: nat)
    requires i < |t|
  {
    exists e :: 0 <= e < |t| && t[e].Empty? && 2 * Dist(|t|, i, e) < |t|
  }

  lemma ShortJudged(t: seq<Cell>, h: Hash, j: nat, e: nat, p: nat)
    requires LayoutExcept(t, h, j) && j < |t| && e < |t| && p < |t| && t[j].Full? && t[e].Empty? && ShortRuns(t)
    requires 0 < Dist(|t|, j, p) <= Dist(|t|, j, Scan(t, h, j, Inc(|t|, j), e))
    ensures JudgedRight(t, h, j, p)
  {
    hide Dist;
    var m := |t|;
    if t[p].Full? {
      var k := t[p].key;
      NotSelf(m, j, p);
      assert EmptyNear(t, j) && EmptyNear(t, h(k)) && Placed(t, h, k, p);
      var f :| 0 <= f < m && t[f].Empty? && 2 * Dist(m, j, f) < m;
      var g :| 0 <= g < m && t[g].Empty? && 2 * Dist(m, h(k), g) < m;
      ScanMeets(t, h, j, e, f);
      assert Dist(m, h(k), p) <= Dist(m, h(k), g);
      NearJudged(m, j, p, h(k));
    }
  }

  lemma NotSelf(m: nat, j: nat, p: nat)
    requires j < m && p < m && 0 < Dist(m, j, p)
    ensures j != p
  {
  }

  // The scan goes no further than an empty cell.
  lemma ScanMeets(t: seq<Cell>, h: Hash, j: nat, e: nat, f: nat)
    requires HashOk(h, |t|) && j < |t| && f < |t| && e < |t| && t[j].Full? && t[e].Empty? && t[f].Empty?
    ensures Dist(|t|, j, Scan(t, h, j, Inc(|t|, j), e)) <= Dist(|t|, j, f)
  {
    if 0 < Dist(|t|, j, f) < Dist(|t|, j, Scan(t, h, j, Inc(|t|, j), e)) { Passed(t, h, j, e, f); }
  }

  lemma NearJudged(m: nat, j: nat, p: nat, home: nat)
    requires j < m && p < m && home < m && 0 < 2 * Dist(m, j, p) < m && 2 * Dist(m, home, p) < m
    ensures LessIndex(m, j, home) <==> HomeAfter(m, j, p, home)
  {
  }

  // With short runs every comparison is right.
  lemma {:induction false} ShortRunsSuffice(t: seq<Cell>, h: Hash, j: nat, e: nat)
    requires LayoutExcept(t, h, j) && j < |t| && e < |t| && t[j].Full? && t[e].Empty? && ShortRuns(t)
    ensures AllRight(t, h, j, e)
    decreases Dist(|t|, j, e)
  {
    var m, r := |t|, Scan(t, h, j, Inc(|t|, j), e);
    forall p | 0 <= p < m && 0 < Dist(m, j, p) <= Dist(m, j, r) ensures JudgedRight(t, h, j, p) {
      ShortJudged(t, h, j, e, p);
    }
    if t[r].Full? {
      FillKeeps(t, h, j, e);
      var u := t[j := t[r]];
      forall i | 0 <= i < m ensures EmptyNear(u, i) {
        assert EmptyNear(t, i);
        var f :| 0 <= f < m && t[f].Empty? && 2 * Dist(m, i, f) < m;
        assert u[f].Empty?;
      }
      ShortRunsSuffice(u, h, r, e);
    }
  }

  // ---- The condition on the table before the deletion ----

  // The home of the key at p is less than half of the table after the hole j, or at most half before it.
  ghost predicate NearHome(t: seq<Cell>, h: Hash, j: nat, p: nat)
    requires HashOk(h, |t|) && j < |t| && p < |t|
  {
    t[p].Full? ==>
      var d, a := Dist(|t|, j, p), Dist(|t|, h(t[p].key), p);
      (a < d ==> 2 * (d - a) < |t|) && (a > d ==> 2 * (a - d) <= |t|)
  }

  // The holes of a deletion are cells of the table as it was, and between one hole and the next every
  // key that is passed, and the one that moves, has its home near the hole.
  ghost predicate HomesNear(t: seq<Cell>, h: Hash, j: nat, e: nat)
    requires HashOk(h, |t|) && j < |t| && e < |t| && t[j].Full? && t[e].Empty?
    decreases Dist(|t|, j, e)
  {
    var r := Scan(t, h, j, Inc(|t|, j), e);
    assert 0 < Dist(|t|, j, r) <= Dist(|t|, j, e);
    && (forall p :: 0 <= p < |t| && 0 < Dist(|t|, j, p) <= Dist(|t|, j, r) ==> NearHome(t, h, j, p))
    && (t[r].Full? ==> HomesNear(t, h, r, e))
  }

  lemma NearIsRight(t: seq<Cell>, h: Hash, j: nat, p: nat)
    requires HashOk(h, |t|) && j < |t| && p < |t|
    ensures NearHome(t, h, j, p) <==> JudgedRight(t, h, j, p)
  {
  }

  // Behind the hole j, as far as the empty cell e, the tables are the same.
  ghost predicate SameBehind(t: seq<Cell>, u: seq<Cell>, j: nat, e: nat) {
    && |t| == |u| && j < |t| && e < |t|
    && forall p :: 0 <= p < |t| && 0 < Dist(|t|, j, p) <= Dist(|t|, j, e) ==> t[p] == u[p]
  }

  lemma {:induction false} ScanSame(t: seq<Cell>, u: seq<Cell>, h: Hash, j: nat, q: nat, e: nat)
    requires HashOk(h, |t|) && |t| == |u| && j < |t| && q < |t| && e < |t| && t[e].Empty?
    requires forall p :: 0 <= p < |t| && Dist(|t|, q, p) <= Dist(|t|, q, e) ==> t[p] == u[p]
    ensures u[e].Empty? && Scan(t, h, j, q, e) == Scan(u, h, j, q, e)
    decreases Dist(|t|, q, e)
  {
    assert t[q] == u[q] && t[e] == u[e];
    if t[q].Full? && LessIndex(|t|, j, h(t[q].key)) {
      forall p | 0 <= p < |t| && Dist(|t|, Inc(|t|, q), p) <= Dist(|t|, Inc(|t|, q), e)
        ensures t[p] == u[p]
      {
        assert Dist(|t|, q, p) <= Dist(|t|, q, e);
      }
      ScanSame(t, u, h, j, Inc(|t|, q), e);
    }
  }

  // Filling a hole changes nothing behind it.
  lemma {:induction false} NearOnInitial(t: seq<Cell>, u: seq<Cell>, h: Hash, j: nat, e: nat)
    requires HashOk(h, |t|) && SameBehind(t, u, j, e) && j != e && t[j].Full? && u[j].Full? && t[e].Empty?
    ensures u[e].Empty? && (AllRight(u, h, j, e) <==> HomesNear(t, h, j, e))
    decreases Dist(|t|, j, e)
  {
    var m := |t|;
    assert u[e] == t[e];
    forall p | 0 <= p < m && Dist(m, Inc(m, j), p) <= Dist(m, Inc(m, j), e)
      ensures t[p] == u[p]
    {
      assert 0 < Dist(m, j, p) <= Dist(m, j, e);
    }
    ScanSame(t, u, h, j, Inc(m, j), e);
    var r := Scan(t, h, j, Inc(m, j), e);
    assert 0 < Dist(m, j, r) <= Dist(m, j, e);
    forall p | 0 <= p < m && 0 < Dist(m, j, p) <= Dist(m, j, r)
      ensures NearHome(t, h, j, p) <==> JudgedRight(u, h, j, p)
    {
      assert t[p] == u[p];
      NearIsRight(t, h, j, p);
    }
    if t[r].Full? {
      BehindMoves(t, u, j, r, e);
      NearOnInitial(t, u[j := u[r]], h, r, e);
    }
  }

  lemma BehindMoves(t: seq<Cell>, u: seq<Cell>, j: nat, r: nat, e: nat)
    requires SameBehind(t, u, j, e) && r < |t| && 0 < Dist(|t|, j, r) < Dist(|t|, j, e)
    ensures SameBehind(t, u[j := u[r]], r, e) && u[j := u[r]][r] == t[r]
  {
  }

  // The same as DeleteExact, on the table before the deletion alone: it keeps the layout exactly when
  // every key it looks at has its home near the hole of that moment.
  lemma DeleteExactInitial(t: seq<Cell>, h: Hash, j: nat, e: nat)
    requires Layout(t, h) && j < |t| && e < |t| && t[j].Full? && t[e].Empty?
    ensures HomesNear(t, h, j, e) <==> Layout(DeleteFrom(t, h, j, e), h)
  {
    NearOnInitial(t, t, h, j, e);
    DeleteExact(t, h, j, e);
  }

  // A run of more than half of a table of even size, every key at its home, loses a key: deleting the key
  // 0 moves the key m / 2 to the cell 0, which no search for it reaches.
  lemma LongRunBreaks(t: seq<Cell>, h: Hash, n: nat)
    requires |t| == 2 * n && n >= 2 && HashOk(h, |t|) && forall k: nat :: k <= n ==> h(k) == k
    requires forall i: nat :: i < |t| ==> t[i] == if i <= n then Full(i) else Empty
    ensures Layout(t, h) && !Layout(DeleteFrom(t, h, 0, n + 1), h)
  {
    var m := 2 * n;
    forall p | 0 <= p < m && t[p].Full? ensures Placed(t, h, t[p].key, p) {
      assert h(t[p].key) == p;
    }
    var r := Scan(t, h, 0, 1, n + 1);
    assert Inc(m, 0) == 1 && t[n] == Full(n) && h(n) == n && !LessIndex(m, 0, n);
    assert Dist(m, 1, n) == n - 1;
    assert r <= n && t[r] == Full(r) && h(r) == r;
    assert r == n;
    assert !JudgedRight(t, h, 0, n);
    DeleteWrong(t, h, 0, n + 1);
  }

  // The number of cells for the given number of values, with the default load (line 71).
  function CellsFor(size: nat): nat { 100 + 3 * size / 2 }

  // This happens within the size that a table is made for: 204 keys in a table for 204.
  lemma LongRunWithinSize(t: seq<Cell>, h: Hash)
    requires |t| == CellsFor(204) && HashOk(h, |t|) && forall k: nat :: k < 204 ==> h(k) == k
    requires forall i: nat :: i < |t| ==> t[i] == if i < 204 then Full(i) else Empty
    ensures Layout(t, h) && !Layout(DeleteFrom(t, h, 0, 204), h)
  {
    LongRunBreaks(t, h, 203);
  }

  // ---- One insertion ----

  // The insertion of key into t0 has brought the table to t and holds the key v at the cell i.
  ghost predicate InHand(t: seq<Cell>, t0: seq<Cell>, h: Hash, v: int, i: nat, key: int) {
    && i < |t| && Layout(t, h) && Placed(t, h, v, i)
    && (forall k :: HasKey(t, k) || k == v <==> HasKey(t0, k) || k == key)
    && (if t == t0 then v == key else v < key && HasKey(t, key) && !HasKey(t0, key) && !HasKey(t, v))
  }

  lemma InHandStart(t: seq<Cell>, h: Hash, key: int)
    requires Layout(t, h)
    ensures InHand(t, t, h, key, h(key), key)
  {
  }

  lemma InHandNext(t: seq<Cell>, t0: seq<Cell>, h: Hash, v: int, i: nat, key: int, e: nat)
    requires InHand(t, t0, h, v, i, key) && t[i].Full? && v < t[i].key && e < |t| && t[e].Empty?
    ensures InHand(t, t0, h, v, Inc(|t|, i), key) && Dist(|t|, Inc(|t|, i), e) < Dist(|t|, i, e)
  {
    SearchStep(t, h, v, i, e);
  }

  // Putting v down at the cell i.
  lemma InHandPut(t: seq<Cell>, t0: seq<Cell>, h: Hash, v: int, i: nat, key: int)
    requires InHand(t, t0, h, v, i, key) && (t[i].Full? ==> t[i].key <= v)
    ensures Layout(t[i := Full(v)], h)
    ensures t[i].Empty? ==> !HasKey(t0, key)
    ensures t[i] == Full(v) ==> t == t0 && v == key && HasKey(t0, key)
    ensures t[i].Empty? || t[i] == Full(v) ==> forall k :: HasKey(t[i := Full(v)], k) <==> HasKey(t0, k) || k == key
  {
    RaiseKeeps(t, h, i, v);
    SearchStops(t, h, v, i);
    KeysAfterWrite(t, i, Full(v));
    forall k ensures t[i].Empty? || t[i] == Full(v) ==> (HasKey(t[i := Full(v)], k) <==> HasKey(t, k) || k == v) {
    }
  }

  lemma InHandBump(t: seq<Cell>, t0: seq<Cell>, h: Hash, v: int, i: nat, key: int, e: nat)
    requires InHand(t, t0, h, v, i, key) && t[i].Full? && t[i].key < v && e < |t| && t[e].Empty?
    ensures InHand(t[i := Full(v)], t0, h, t[i].key, Inc(|t|, i), key)
    ensures i != e && Dist(|t|, Inc(|t|, i), e) < Dist(|t|, i, e)
  {
    SearchStops(t, h, v, i);
    BumpKeeps(t, h, i, v, e);
    BumpedKey(t, h, i, v);
    var u := t[i := Full(v)];
    assert HasKey(u, key) && !HasKey(t0, key);
  }

  // ---- The table ----

  class Table {
    const h: Hash
    const m: nat
    const TA: array<Cell>

    ghost predicate Valid()
      reads this, TA
    {
      m == TA.Length && 0 < m && Layout(TA[..], h)
    }

    // The constructor with the default load 1.5 (lines 70-75).
    constructor (size: nat, hash: Hash)
      requires HashOk(hash, 100 + 3 * size / 2)
      ensures Valid() && fresh(TA) && h == hash && m == 100 + 3 * size / 2
      ensures forall i :: 0 <= i < m ==> TA[i] == Empty
    {
      h := hash;
      m := 100 + 3 * size / 2;
      TA := new Cell[100 + 3 * size / 2](_ => Empty);
    }

    // insert (lines 83-102), alone. A full table could keep it running for ever (line 69).
    method Insert(key: int, replace: bool) returns (inserted: bool)
      requires Valid() && HasEmpty(TA[..])
      modifies TA
      ensures Valid() && inserted == (replace || !HasKey(old(TA[..]), key))
      ensures forall k :: HasKey(TA[..], k) <==> HasKey(old(TA[..]), k) || k == key
    {
      hide InHand;
      ghost var t0 := TA[..];
      ghost var e :| 0 <= e < m && TA[e].Empty?;
      var v, i: nat := key, h(key);
      InHandStart(t0, h, key);
      while true
        invariant i < m && TA[e].Empty? && InHand(TA[..], t0, h, v, i, key)
        decreases Dist(m, i, e)
      {
        ghost var t := TA[..];
        var c := TA[i];
        if c.Full? && v < c.key {
          InHandNext(t, t0, h, v, i, key, e);
          i := Inc(m, i);
        } else {
          InHandPut(t, t0, h, v, i, key);
          if c.Empty? {
            TA[i] := Full(v);
            assert TA[..] == t[i := Full(v)];
            return true;
          } else if v == c.key {
            assert t[i := Full(v)] == t;
            return replace;
          } else {
            InHandBump(t, t0, h, v, i, key, e);
            TA[i] := Full(v);
            assert TA[..] == t[i := Full(v)];
            v := c.key;
            i := Inc(m, i);
          }
        }
      }
    }

    // find (lines 208-222), which stops early at a key of lower priority, is exact.
    method Find(v: int) returns (found: bool)
      requires Valid() && HasEmpty(TA[..])
      ensures found <==> HasKey(TA[..], v)
    {
      ghost var e :| 0 <= e < m && TA[e].Empty?;
      var i: nat := h(v);
      while TA[i].Full? && v < TA[i].key
        invariant i < m && Placed(TA[..], h, v, i)
        decreases Dist(m, i, e)
      {
        SearchStep(TA[..], h, v, i, e);
        i := Inc(m, i);
      }
      SearchStops(TA[..], h, v, i);
      found := TA[i].Full? && TA[i].key == v;
    }

    // deleteVal (lines 132-204), alone. The cell e, which stays empty, bounds the loops.
    method Delete(key: int, ghost e: nat)
      requires Valid() && e < m && TA[e].Empty?
      modifies TA
      ensures !HasKey(old(TA[..]), key) ==> TA[..] == old(TA[..])
      ensures forall p :: 0 <= p < m && old(TA[p]) == Full(key) ==> TA[..] == DeleteFrom(old(TA[..]), h, p, e)
      ensures ShortRuns(old(TA[..])) ==> Valid()
      ensures ShortRuns(old(TA[..])) ==>
                forall k :: HasKey(TA[..], k) <==> HasKey(old(TA[..]), k) && k != key
    {
      ghost var t0 := TA[..];
      var j := FirstNotAbove(key, e);
      if t0[j] == Full(key) {
        forall p | 0 <= p < m && t0[p] == Full(key) ensures p == j { NoDuplicates(t0, h, j, p); }
        DeleteShort(t0, h, j, e);
      }
      HoleMoves(key, j, e);
    }

    // The first location with priority less or equal to that of v (lines 136-146).
    method FirstNotAbove(v: int, ghost e: nat) returns (j: nat)
      requires Valid() && e < m && TA[e].Empty?
      ensures j < m && (HasKey(TA[..], v) <==> TA[j] == Full(v))
    {
      j := h(v);
      var c := TA[j];
      while c.Full? && v < c.key
        invariant j < m && c == TA[j] && Placed(TA[..], h, v, j)
        decreases Dist(m, j, e)
      {
        SearchStep(TA[..], h, v, j, e);
        j := Inc(m, j);
        c := TA[j];
      }
      SearchStops(TA[..], h, v, j);
    }

    // The loop of lines 147-203 from the cell j.
    method HoleMoves(key: int, start: nat, ghost e: nat)
      requires m == TA.Length && HashOk(h, m) && start < m && e < m && TA[e].Empty?
      requires TA[start] != Full(key) ==> !HasKey(TA[..], key)
      modifies TA
      ensures TA[..] == if old(TA[start]) == Full(key) then DeleteFrom(old(TA[..]), h, start, e) else old(TA[..])
    {
      hide Placed;
      ghost var t0 := TA[..];
      var v, i: nat, j: nat := key, h(key), start;
      var c := TA[j];
      ghost var found := c == Full(v);
      while true
        invariant j < m && c == TA[j] && i == h(v) && TA[e].Empty? && found == (c == Full(v))
        invariant found ==> DeleteFrom(TA[..], h, j, e) == DeleteFrom(t0, h, start, e)
        invariant !found ==> TA[..] == t0 && v == key
        decreases if found then Dist(m, j, e) else Dist(m, i, j)
      {
        if !(c.Full? && c.key == v) {
          if j == i { return; }
          j := Dec(m, j);
          c := TA[j];
        } else {
          var x, jj := Replacement(j, e);
          ghost var t := TA[..];
          TA[j] := x;
          assert TA[..] == t[j := x];
          if x.Empty? { return; }
          v := x.key;
          j := jj;
          i := h(v);
          c := TA[j];
        }
      }
    }

    // The search for the entry that fills the hole j (lines 170-184). Alone, the way back finds nothing.
    method Replacement(j: nat, ghost e: nat) returns (x: Cell, jj: nat)
      requires m == TA.Length && HashOk(h, m) && j < m && e < m && TA[j].Full? && TA[e].Empty?
      ensures jj == Scan(TA[..], h, j, Inc(m, j), e) && x == TA[jj]
    {
      ghost var t := TA[..];
      jj := Inc(m, j);
      x := TA[jj];
      while x.Full? && LessIndex(m, j, h(x.key))
        invariant jj < m && x == TA[jj] && Scan(t, h, j, jj, e) == Scan(t, h, j, Inc(m, j), e)
        decreases Dist(m, jj, e)
      {
        jj := Inc(m, jj);
        x := TA[jj];
      }
      x, jj := LookBack(j, x, jj, e);
    }

    // The way back from jj (lines 176-184). Alone, it finds nothing.
    method LookBack(j: nat, x0: Cell, jj0: nat, ghost e: nat) returns (x: Cell, jj: nat)
      requires m == TA.Length && HashOk(h, m) && j < m && e < m && TA[j].Full? && TA[e].Empty?
      requires jj0 == Scan(TA[..], h, j, Inc(m, j), e) && x0 == TA[jj0]
      ensures jj == jj0 && x == x0
    {
      x, jj := x0, jj0;
      var jjj: nat := Dec(m, jj);
      while jjj != j
        invariant jjj < m && jj == jj0 && x == x0 && Dist(m, j, jjj) < Dist(m, j, jj0)
        decreases Dist(m, j, jjj)
      {
        Passed(TA[..], h, j, e, jjj);
        var y := TA[jjj];
        if y.Empty? || !LessIndex(m, j, h(y.key)) {
          x := y;
          jj := jjj;
        }
        jjj := Dec(m, jjj);
      }
    }
  }

  // What a deletion of the key at p gives when the runs are short.
  lemma DeleteShort(t: seq<Cell>, h: Hash, p: nat, e: nat)
    requires Layout(t, h) && p < |t| && e < |t| && t[p].Full? && t[e].Empty?
    ensures ShortRuns(t) ==> Layout(DeleteFrom(t, h, p, e), h)
    ensures ShortRuns(t) ==>
              forall k :: HasKey(DeleteFrom(t, h, p, e), k) <==> HasKey(t, k) && k != t[p].key
  {
    if ShortRuns(t) {
      ShortRunsSuffice(t, h, p, e);
      DeleteExact(t, h, p, e);
    }
  }

  // After v has bumped the key at i, that key is in no cell.
  lemma BumpedKey(t: seq<Cell>, h: Hash, i: nat, v: int)
    requires Layout(t, h) && i < |t| && t[i].Full? && t[i].key < v
    ensures !HasKey(t[i := Full(v)], t[i].key)
    ensures forall k :: HasKey(t[i := Full(v)], k) || k == t[i].key <==> HasKey(t, k) || k == v
  {
    var u := t[i := Full(v)];
    KeysAfterWrite(t, i, Full(v));
    if p :| 0 <= p < |t| && u[p] == Full(t[i].key) {
      NoDuplicates(t, h, i, p);
    }
  }
}
