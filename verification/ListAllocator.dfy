// The allocator of fixed-size blocks (pbbslib/list_allocator.h, lines 126-144, 181-186 and 226-297):
// a free list per worker, and a shared stack of lists of exactly listLength blocks. Blocks are
// numbered; a block that is in use holds the caller's data where a free one holds its link.
module ListAllocator {
  import opened Collections

  type Ptr = int
  const NULL: Ptr := -1

  datatype Local = Local(sz: nat, head: Ptr, mid: Ptr)

  datatype Result = Got(block: Ptr) | TooManyBlocks

  // ---- Linked lists in the block memory ----

  ghost predicate Linked(next: seq<Ptr>, p: Ptr, chain: seq<Ptr>)
    decreases chain
  {
    if chain == [] then p == NULL
    else p == chain[0] && 0 <= p < |next| && Linked(next, next[p], chain[1..])
  }

  lemma {:induction false} LinkedFrame(next: seq<Ptr>, p: Ptr, chain: seq<Ptr>, q: nat, x: Ptr)
    requires Linked(next, p, chain) && q < |next| && q !in chain
    ensures Linked(next[q := x], p, chain)
    decreases chain
  {
    if chain != [] { LinkedFrame(next, next[p], chain[1..], q, x); }
  }

  lemma {:induction false} LinkedGrow(next: seq<Ptr>, more: seq<Ptr>, p: Ptr, chain: seq<Ptr>)
    requires Linked(next, p, chain)
    ensures Linked(next + more, p, chain)
    decreases chain
  {
    if chain != [] { LinkedGrow(next, more, next[p], chain[1..]); }
  }

  // Cutting the link of block k - 1 leaves the first k blocks as a list of their own.
  lemma {:induction false} LinkedCut(next: seq<Ptr>, p: Ptr, chain: seq<Ptr>, k: nat)
    requires Linked(next, p, chain) && 0 < k < |chain| && NoRepeats(chain)
    ensures 0 <= chain[k - 1] < |next| && next[chain[k - 1]] == chain[k]
    ensures Linked(next[chain[k - 1] := NULL], p, chain[..k])
    ensures Linked(next[chain[k - 1] := NULL], chain[k], chain[k..])
    decreases chain
  {
    var rest := chain[1..];
    if k == 1 {
      assert chain[..1][1..] == [];
      LinkedFrame(next, next[p], rest, p, NULL);
    } else {
      assert forall i :: 0 <= i < |rest| ==> rest[i] == chain[i + 1];
      LinkedCut(next, next[p], rest, k - 1);
      assert rest[k - 2] == chain[k - 1] && chain[k - 1] != p;
      assert chain[..k][1..] == rest[..k - 1] && chain[k..] == rest[k - 1..];
    }
  }

  // ---- Conservation: every block counted once ----

  ghost function Count(s: seq<Ptr>, x: Ptr): nat { multiset(s)[x] }

  ghost function CountAll(lists: seq<seq<Ptr>>, x: Ptr): nat
  {
    if lists == [] then 0 else CountAll(lists[..|lists| - 1], x) + Count(lists[|lists| - 1], x)
  }

  lemma CountSplit(s: seq<Ptr>, k: nat, x: Ptr)
    requires k <= |s|
    ensures Count(s, x) == Count(s[..k], x) + Count(s[k..], x)
  {
    assert s == s[..k] + s[k..];
  }

  lemma CountCons(p: Ptr, s: seq<Ptr>, x: Ptr)
    ensures Count([p] + s, x) == Count(s, x) + if x == p then 1 else 0
  {
  }

  lemma {:induction false} CountUpdate(lists: seq<seq<Ptr>>, i: nat, c: seq<Ptr>, x: Ptr)
    requires i < |lists|
    ensures CountAll(lists[i := c], x) + Count(lists[i], x) == CountAll(lists, x) + Count(c, x)
  {
    var n := |lists| - 1;
    if i == n {
      assert lists[i := c][..n] == lists[..n];
    } else {
      CountUpdate(lists[..n], i, c, x);
      assert lists[i := c][..n] == lists[..n][i := c] && lists[..n][i] == lists[i];
    }
  }

  lemma {:induction false} CountPush(c: seq<Ptr>, lists: seq<seq<Ptr>>, x: Ptr)
    ensures CountAll([c] + lists, x) == Count(c, x) + CountAll(lists, x)
  {
    if lists == [] {
      assert ([c] + lists)[..0] == [];
    } else {
      var n := |lists| - 1;
      CountPush(c, lists[..n], x);
      assert ([c] + lists)[..n + 1] == [c] + lists[..n];
    }
  }

  lemma {:induction false} CountHas(lists: seq<seq<Ptr>>, i: nat, x: Ptr)
    requires i < |lists|
    ensures Count(lists[i], x) <= CountAll(lists, x)
  {
    var n := |lists| - 1;
    if i < n {
      CountHas(lists[..n], i, x);
      assert lists[..n][i] == lists[i];
    }
  }

  lemma {:induction false} CountHasTwo(lists: seq<seq<Ptr>>, i: nat, j: nat, x: Ptr)
    requires i < j < |lists|
    ensures Count(lists[i], x) + Count(lists[j], x) <= CountAll(lists, x)
  {
    var n := |lists| - 1;
    assert lists[..n][i] == lists[i];
    if j < n {
      CountHasTwo(lists[..n], i, j, x);
      assert lists[..n][j] == lists[j];
    } else {
      CountHas(lists[..n], i, x);
    }
  }

  lemma {:induction false} OnceNoRepeats(s: seq<Ptr>)
    requires forall x :: Count(s, x) <= 1
    ensures NoRepeats(s)
  {
    forall i, j | 0 <= i < j < |s|
      ensures s[i] != s[j]
    {
      if s[i] == s[j] { Twice(s, i, j); }
    }
  }

  lemma Twice(s: seq<Ptr>, i: nat, j: nat)
    requires i < j < |s| && s[i] == s[j]
    ensures Count(s, s[i]) >= 2
  {
    assert s == s[..j] + s[j..];
    assert s[..j][i] == s[i] && s[j..][0] == s[j];
    assert s[i] in multiset(s[..j]) && s[j] in multiset(s[j..]);
  }

  // ---- The state and its invariant ----

  // length: blocks per shared list; next: the block memory; locals and pools: the blocks of the free lists.
  datatype View = View(length: nat, next: seq<Ptr>, local: seq<Local>, global: seq<Ptr>,
                       locals: seq<seq<Ptr>>, pools: seq<seq<Ptr>>, used: set<Ptr>)
  {
    // How often a block is with a caller, in a worker's list, in a shared list, or in `held`.
    ghost function Places(x: Ptr, held: seq<Ptr>): nat
    {
      (if x in used then 1 else 0) + CountAll(locals, x) + CountAll(pools, x) + Count(held, x)
    }

    // Every block is in exactly one place.
    ghost predicate Partition(held: seq<Ptr>)
    {
      forall x :: Places(x, held) == if 0 <= x < |next| then 1 else 0
    }

    // A worker's list is counted, does not outgrow two shared lists, and once it is longer than
    // length + 1 its mid has exactly length blocks below it.
    ghost predicate WorkerOk(id: nat)
      requires id < |local| && id < |locals|
    {
      var l, c := local[id], locals[id];
      && Linked(next, l.head, c) && l.sz == |c|
      && (l.sz > length + 1 ==> l.mid == c[l.sz - 1 - length])
      && (length >= 2 ==> l.sz <= 2 * length)
    }

    ghost predicate PoolOk(k: nat)
      requires k < |global| && k < |pools|
    {
      Linked(next, global[k], pools[k]) && |pools[k]| == length
    }

    ghost predicate Ok(held: seq<Ptr>)
    {
      && length >= 1 && |local| == |locals| && |global| == |pools| && Partition(held)
      && (forall id: nat :: id < |local| ==> WorkerOk(id))
      && (forall k: nat :: k < |global| ==> PoolOk(k))
    }
  }

  // A block that a caller has, or that is held, is in no free list.
  lemma Nowhere(v: View, held: seq<Ptr>, p: Ptr)
    requires v.Ok(held) && (p in v.used || p in held)
    ensures 0 <= p < |v.next| && !(p in v.used && p in held)
    ensures forall id: nat :: id < |v.locals| ==> p !in v.locals[id]
    ensures forall k: nat :: k < |v.pools| ==> p !in v.pools[k]
  {
    assert v.Places(p, held) == if 0 <= p < |v.next| then 1 else 0;
    forall id: nat | id < |v.locals|
      ensures p !in v.locals[id]
    {
      CountHas(v.locals, id, p);
    }
    forall k: nat | k < |v.pools|
      ensures p !in v.pools[k]
    {
      CountHas(v.pools, k, p);
    }
  }

  // So its contents may change.
  lemma WriteKeeps(v: View, held: seq<Ptr>, p: nat, x: Ptr)
    requires v.Ok(held) && (p in v.used || p in held)
    ensures p < |v.next| && v.(next := v.next[p := x]).Ok(held)
  {
    Nowhere(v, held, p);
    var v' := v.(next := v.next[p := x]);
    forall id: nat | id < |v.local|
      ensures v'.WorkerOk(id)
    {
      assert v.WorkerOk(id);
      LinkedFrame(v.next, v.local[id].head, v.locals[id], p, x);
    }
    forall k: nat | k < |v.global|
      ensures v'.PoolOk(k)
    {
      assert v.PoolOk(k);
      LinkedFrame(v.next, v.global[k], v.pools[k], p, x);
    }
    SamePlaces(v, v', held);
  }

  // A block of one worker's list is nowhere else, and only once there.
  lemma LocalNowhereElse(v: View, held: seq<Ptr>, id: nat, p: Ptr)
    requires v.Ok(held) && id < |v.locals| && p in v.locals[id]
    ensures Count(v.locals[id], p) == 1 && 0 <= p < |v.next| && p !in v.used && p !in held
    ensures forall j: nat :: j < |v.locals| && j != id ==> p !in v.locals[j]
    ensures forall k: nat :: k < |v.pools| ==> p !in v.pools[k]
  {
    assert v.Places(p, held) == if 0 <= p < |v.next| then 1 else 0;
    CountHas(v.locals, id, p);
    forall j: nat | j < |v.locals| && j != id
      ensures p !in v.locals[j]
    {
      if j < id { CountHasTwo(v.locals, j, id, p); } else { CountHasTwo(v.locals, id, j, p); }
    }
    forall k: nat | k < |v.pools|
      ensures p !in v.pools[k]
    {
      CountHas(v.pools, k, p);
    }
  }

  // No block is in two shared lists.
  lemma PoolsDisjoint(v: View, held: seq<Ptr>, i: nat, j: nat, p: Ptr)
    requires v.Ok(held) && i < j < |v.pools| && p in v.pools[i]
    ensures p !in v.pools[j] && p !in v.used
  {
    assert v.Places(p, held) == if 0 <= p < |v.next| then 1 else 0;
    CountHasTwo(v.pools, i, j, p);
  }

  lemma LocalNoRepeats(v: View, held: seq<Ptr>, id: nat)
    requires v.Ok(held) && id < |v.locals|
    ensures NoRepeats(v.locals[id])
  {
    forall p
      ensures Count(v.locals[id], p) <= 1
    {
      if p in v.locals[id] { LocalNowhereElse(v, held, id, p); }
    }
    OnceNoRepeats(v.locals[id]);
  }

  // ---- The steps of alloc and free ----

  // free, lines 271-272: at length + 1 blocks the head becomes the mid.
  function Marked(v: View, id: nat): View
    requires id < |v.local|
  {
    v.(local := v.local[id := v.local[id].(mid := v.local[id].head)])
  }

  lemma MarkedOk(v: View, id: nat)
    requires v.Ok([]) && id < |v.local| && v.local[id].sz == v.length + 1
    ensures Marked(v, id).Ok([]) && v.locals[id] != [] && Marked(v, id).local[id].mid == v.locals[id][0]
  {
    var v' := Marked(v, id);
    assert v.WorkerOk(id);
    forall j: nat | j < |v.local|
      ensures v'.WorkerOk(j)
    {
      assert v.WorkerOk(j);
    }
    forall k: nat | k < |v.global|
      ensures v'.PoolOk(k)
    {
      assert v.PoolOk(k);
    }
    SamePlaces(v, v', []);
  }

  lemma SamePlaces(v: View, v': View, held: seq<Ptr>)
    requires v.Partition(held) && v'.locals == v.locals && v'.pools == v.pools
    requires v'.used == v.used && |v'.next| == |v.next|
    ensures v'.Partition(held)
  {
    forall x
      ensures v'.Places(x, held) == if 0 <= x < |v'.next| then 1 else 0
    {
      assert v.Places(x, held) == if 0 <= x < |v.next| then 1 else 0;
    }
  }

  // free, lines 273-277: the blocks below mid go to the shared stack.
  function Spilled(v: View, id: nat): View
    requires id < |v.local| == |v.locals| && |v.locals[id]| >= v.length && 0 <= v.local[id].mid < |v.next|
  {
    var l, c := v.local[id], v.locals[id];
    v.(next := v.next[l.mid := NULL], local := v.local[id := l.(sz := v.length)],
       global := [v.next[l.mid]] + v.global,
       locals := v.locals[id := c[..v.length]], pools := [c[v.length..]] + v.pools)
  }

  lemma SpilledOk(v: View, id: nat)
    requires v.Ok([]) && id < |v.local| && v.local[id].sz == 2 * v.length && v.length >= 2
    ensures |v.locals[id]| >= v.length && 0 <= v.local[id].mid < |v.next| && Spilled(v, id).Ok([])
  {
    var l, c, n := v.local[id], v.locals[id], v.length;
    assert v.WorkerOk(id);
    LocalNoRepeats(v, [], id);
    LinkedCut(v.next, l.head, c, n);
    assert l.mid == c[n - 1] && l.mid in c;
    LocalNowhereElse(v, [], id, l.mid);
    var v' := Spilled(v, id);
    forall j: nat | j < |v.local|
      ensures v'.WorkerOk(j)
    {
      assert v.WorkerOk(j);
      if j != id { LinkedFrame(v.next, v.local[j].head, v.locals[j], l.mid, NULL); }
    }
    forall k: nat | k < |v'.global|
      ensures v'.PoolOk(k)
    {
      if k > 0 {
        assert v.PoolOk(k - 1);
        LinkedFrame(v.next, v.global[k - 1], v.pools[k - 1], l.mid, NULL);
      }
    }
    forall x
      ensures v'.Places(x, []) == if 0 <= x < |v'.next| then 1 else 0
    {
      assert v.Places(x, []) == if 0 <= x < |v.next| then 1 else 0;
      CountUpdate(v.locals, id, c[..n], x);
      CountPush(c[n..], v.pools, x);
      CountSplit(c, n, x);
    }
  }

  // free, lines 278-280: the block becomes the head.
  function Freed(v: View, id: nat, p: Ptr): View
    requires id < |v.local| == |v.locals| && 0 <= p < |v.next|
  {
    var l := v.local[id];
    v.(next := v.next[p := l.head], local := v.local[id := Local(l.sz + 1, p, l.mid)],
       locals := v.locals[id := [p] + v.locals[id]], used := v.used - {p})
  }

  lemma FreedOk(v: View, id: nat, p: Ptr)
    requires v.Ok([]) && id < |v.local| && p in v.used
    requires v.length >= 2 ==> v.local[id].sz < 2 * v.length
    requires v.local[id].sz == v.length + 1 ==> v.locals[id] != [] && v.local[id].mid == v.locals[id][0]
    ensures 0 <= p < |v.next| && Freed(v, id, p).Ok([])
  {
    Nowhere(v, [], p);
    var l, c := v.local[id], v.locals[id];
    var v' := Freed(v, id, p);
    forall j: nat | j < |v.local|
      ensures v'.WorkerOk(j)
    {
      assert v.WorkerOk(j);
      LinkedFrame(v.next, v.local[j].head, v.locals[j], p, l.head);
      if j == id { assert ([p] + c)[1..] == c; }
    }
    forall k: nat | k < |v.global|
      ensures v'.PoolOk(k)
    {
      assert v.PoolOk(k);
      LinkedFrame(v.next, v.global[k], v.pools[k], p, l.head);
    }
    forall x
      ensures v'.Places(x, []) == if 0 <= x < |v'.next| then 1 else 0
    {
      assert v.Places(x, []) == if 0 <= x < |v.next| then 1 else 0;
      CountUpdate(v.locals, id, [p] + c, x);
      CountCons(p, c, x);
    }
  }

  // alloc, lines 292-294: the head is handed out.
  function Taken(v: View, id: nat): View
    requires id < |v.local| == |v.locals| && v.locals[id] != []
    requires v.local[id].sz > 0 && 0 <= v.local[id].head < |v.next|
  {
    var l := v.local[id];
    v.(local := v.local[id := Local(l.sz - 1, v.next[l.head], l.mid)],
       locals := v.locals[id := v.locals[id][1..]], used := v.used + {l.head})
  }

  lemma TakenOk(v: View, id: nat)
    requires v.Ok([]) && id < |v.local| && v.local[id].sz > 0
    ensures v.locals[id] != [] && v.local[id].head == v.locals[id][0]
    ensures v.local[id].head !in v.used && 0 <= v.local[id].head < |v.next|
    ensures Taken(v, id).Ok([])
  {
    var l, c := v.local[id], v.locals[id];
    assert v.WorkerOk(id);
    LocalNowhereElse(v, [], id, l.head);
    var v' := Taken(v, id);
    forall j: nat | j < |v.local|
      ensures v'.WorkerOk(j)
    {
      assert v.WorkerOk(j);
    }
    forall k: nat | k < |v.global|
      ensures v'.PoolOk(k)
    {
      assert v.PoolOk(k);
    }
    forall x
      ensures v'.Places(x, []) == if 0 <= x < |v'.next| then 1 else 0
    {
      assert v.Places(x, []) == if 0 <= x < |v.next| then 1 else 0;
      CountUpdate(v.locals, id, c[1..], x);
      assert [l.head] + c[1..] == c;
      CountCons(l.head, c[1..], x);
    }
  }

  // get_list: a list leaves the shared stack.
  function Popped(v: View): View
    requires |v.global| > 0 && |v.pools| > 0
  {
    v.(global := v.global[1..], pools := v.pools[1..])
  }

  lemma PoppedOk(v: View)
    requires v.Ok([]) && |v.global| > 0
    ensures |v.pools| > 0 && Popped(v).Ok(v.pools[0])
    ensures Linked(v.next, v.global[0], v.pools[0]) && |v.pools[0]| == v.length
  {
    assert v.PoolOk(0);
    var v' := Popped(v);
    forall j: nat | j < |v.local|
      ensures v'.WorkerOk(j)
    {
      assert v.WorkerOk(j);
    }
    forall k: nat | k < |v'.global|
      ensures v'.PoolOk(k)
    {
      assert v.PoolOk(k + 1);
    }
    forall x
      ensures v'.Places(x, v.pools[0]) == if 0 <= x < |v'.next| then 1 else 0
    {
      assert v.Places(x, []) == if 0 <= x < |v.next| then 1 else 0;
      CountPush(v.pools[0], v.pools[1..], x);
      assert [v.pools[0]] + v.pools[1..] == v.pools;
    }
  }

  // alloc, lines 287-290: a list becomes an empty worker's.
  function Installed(v: View, id: nat, head: Ptr, chain: seq<Ptr>): View
    requires id < |v.local| == |v.locals|
  {
    v.(local := v.local[id := Local(v.length, head, v.local[id].mid)], locals := v.locals[id := chain])
  }

  lemma InstalledOk(v: View, id: nat, head: Ptr, chain: seq<Ptr>)
    requires v.Ok(chain) && id < |v.local| && v.local[id].sz == 0
    requires Linked(v.next, head, chain) && |chain| == v.length
    ensures Installed(v, id, head, chain).Ok([])
  {
    var v' := Installed(v, id, head, chain);
    assert v.WorkerOk(id);
    forall j: nat | j < |v.local|
      ensures v'.WorkerOk(j)
    {
      assert v.WorkerOk(j);
    }
    forall k: nat | k < |v.global|
      ensures v'.PoolOk(k)
    {
      assert v.PoolOk(k);
    }
    forall x
      ensures v'.Places(x, []) == if 0 <= x < |v'.next| then 1 else 0
    {
      assert v.Places(x, chain) == if 0 <= x < |v.next| then 1 else 0;
      CountUpdate(v.locals, id, chain, x);
    }
  }

  // ---- New blocks ----

  ghost function Range(start: nat, n: nat): seq<Ptr> { seq(n, i => start + i) }

  lemma {:induction false} CountRange(start: nat, n: nat, x: Ptr)
    ensures Count(Range(start, n), x) == if start <= x < start + n then 1 else 0
  {
    if n > 0 {
      CountRange(start, n - 1, x);
      CountSplit(Range(start, n), n - 1, x);
      assert Range(start, n)[..n - 1] == Range(start, n - 1) && Range(start, n)[n - 1..] == [start + n - 1];
    }
  }

  lemma CountConcat(s: seq<Ptr>, t: seq<Ptr>, x: Ptr)
    ensures Count(s + t, x) == Count(s, x) + Count(t, x)
  {
  }

  lemma GrownOk(v: View, held: seq<Ptr>, more: seq<Ptr>)
    requires v.Ok(held)
    ensures v.(next := v.next + more).Ok(held + Range(|v.next|, |more|))
  {
    var v' := v.(next := v.next + more);
    forall id: nat | id < |v.local|
      ensures v'.WorkerOk(id)
    {
      assert v.WorkerOk(id);
      LinkedGrow(v.next, more, v.local[id].head, v.locals[id]);
    }
    forall k: nat | k < |v.global|
      ensures v'.PoolOk(k)
    {
      assert v.PoolOk(k);
      LinkedGrow(v.next, more, v.global[k], v.pools[k]);
    }
    forall x
      ensures v'.Places(x, held + Range(|v.next|, |more|)) == if 0 <= x < |v'.next| then 1 else 0
    {
      assert v.Places(x, held) == if 0 <= x < |v.next| then 1 else 0;
      CountRange(|v.next|, |more|, x);
      CountConcat(held, Range(|v.next|, |more|), x);
    }
  }

  lemma {:induction false} RangeLinked(next: seq<Ptr>, start: nat, n: nat)
    requires n > 0 && start + n <= |next| && next[start + n - 1] == NULL
    requires forall p :: start <= p < start + n - 1 ==> next[p] == p + 1
    ensures Linked(next, start, Range(start, n))
    decreases n
  {
    if n == 1 {
      assert Range(start, 1)[1..] == [];
    } else {
      RangeLinked(next, start + 1, n - 1);
      assert Range(start, n)[1..] == Range(start + 1, n - 1);
    }
  }

  // A held list goes to the shared stack; the rest stays held.
  function Pushed(v: View, head: Ptr, chain: seq<Ptr>): View
  {
    v.(global := [head] + v.global, pools := [chain] + v.pools)
  }

  lemma PushedOk(v: View, head: Ptr, chain: seq<Ptr>, rest: seq<Ptr>)
    requires v.Ok(chain + rest) && Linked(v.next, head, chain) && |chain| == v.length
    ensures Pushed(v, head, chain).Ok(rest)
  {
    var v' := Pushed(v, head, chain);
    forall j: nat | j < |v.local|
      ensures v'.WorkerOk(j)
    {
      assert v.WorkerOk(j);
    }
    forall k: nat | k < |v'.global|
      ensures v'.PoolOk(k)
    {
      if k > 0 { assert v.PoolOk(k - 1); }
    }
    forall x
      ensures v'.Places(x, rest) == if 0 <= x < |v'.next| then 1 else 0
    {
      assert v.Places(x, chain + rest) == if 0 <= x < |v.next| then 1 else 0;
      CountPush(chain, v.pools, x);
      CountConcat(chain, rest, x);
    }
  }

  // ---- Counting the blocks in use ----

  ghost function SizeAll(lists: seq<seq<Ptr>>): nat
  {
    if lists == [] then 0 else SizeAll(lists[..|lists| - 1]) + |lists[|lists| - 1]|
  }

  ghost function Bag(lists: seq<seq<Ptr>>): multiset<Ptr>
  {
    if lists == [] then multiset{} else Bag(lists[..|lists| - 1]) + multiset(lists[|lists| - 1])
  }

  lemma {:induction false} BagSize(lists: seq<seq<Ptr>>)
    ensures |Bag(lists)| == SizeAll(lists)
  {
    if lists != [] { BagSize(lists[..|lists| - 1]); }
  }

  lemma {:induction false} BagCount(lists: seq<seq<Ptr>>, x: Ptr)
    ensures Bag(lists)[x] == CountAll(lists, x)
  {
    if lists != [] { BagCount(lists[..|lists| - 1], x); }
  }

  // Nothing is lost: the blocks in use and the free ones make up the whole memory.
  lemma UsedAndFree(v: View)
    requires v.Ok([])
    ensures |v.next| == |v.used| + SizeAll(v.locals) + SizeAll(v.pools)
  {
    var all, parts := multiset(Range(0, |v.next|)), multiset(v.used) + Bag(v.locals) + Bag(v.pools);
    forall x
      ensures all[x] == parts[x]
    {
      assert v.Places(x, []) == if 0 <= x < |v.next| then 1 else 0;
      CountRange(0, |v.next|, x);
      BagCount(v.locals, x);
      BagCount(v.pools, x);
    }
    assert all == parts;
    BagSize(v.locals);
    BagSize(v.pools);
  }

  lemma {:induction false} PoolsSize(pools: seq<seq<Ptr>>, length: nat)
    requires forall k: nat :: k < |pools| ==> |pools[k]| == length
    ensures SizeAll(pools) == BlocksOf(|pools|, length)
  {
    if pools != [] {
      PoolsSize(pools[..|pools| - 1], length);
      OneMore(|pools| - 1, length);
    }
  }

  function BlocksOf(lists: nat, length: nat): nat { lists * length }

  lemma OneMore(k: nat, length: nat)
    ensures BlocksOf(k + 1, length) == BlocksOf(k, length) + length && BlocksOf(0, length) == 0
  {
  }

  // Rounded up: enough for n, and not with one list less.
  lemma RoundedUp(n: nat, length: nat)
    requires length > 0
    ensures var k := (n + length - 1) / length; n <= k * length < n + length
  {
    var k, r := (n + length - 1) / length, (n + length - 1) % length;
    assert n + length - 1 == k * length + r;
  }

  // ---- The allocator ----

  class Allocator {
    const listLength: nat
    const maxBlocks: nat
    var next: seq<Ptr>
    var local: seq<Local>
    var global: seq<Ptr>
    var blocksAllocated: nat
    ghost var locals: seq<seq<Ptr>>
    ghost var pools: seq<seq<Ptr>>
    ghost var used: set<Ptr>

    ghost function Abs(): View
      reads this
    {
      View(listLength, next, local, global, locals, pools, used)
    }

    ghost predicate Holding(held: seq<Ptr>)
      reads this
    {
      Abs().Ok(held) && blocksAllocated == |next|
    }

    ghost predicate Valid()
      reads this
    {
      Holding([])
    }

    // init (lines 226-249), before anything is reserved.
    constructor (workers: nat, listSize: nat, maxBlocks: nat)
      requires listSize >= 1
      ensures Valid() && listLength == listSize && this.maxBlocks == maxBlocks && |local| == workers
      ensures used == {} && blocksAllocated == 0 && global == []
    {
      this.listLength := listSize;
      this.maxBlocks := maxBlocks;
      next, global, blocksAllocated := [], [], 0;
      local := seq(workers, _ => Local(0, NULL, NULL));
      locals := seq(workers, _ => []);
      pools, used := [], {};
      new;
      forall x
        ensures Abs().Places(x, []) == if 0 <= x < |next| then 1 else 0
      {
        AllEmpty(locals, x);
      }
    }

    // allocate_blocks (lines 161-176): the program ends when there are too many.
    method AllocateBlocks(count: nat, ghost held: seq<Ptr>) returns (start: nat, ok: bool)
      requires Holding(held)
      modifies this`next, this`blocksAllocated
      ensures Holding(held + Range(start, count)) && start == |old(next)|
      ensures |next| == start + count && old(next) <= next
      ensures ok <==> blocksAllocated <= maxBlocks
    {
      GrownOk(Abs(), held, seq(count, _ => NULL));
      start := |next|;
      next := next + seq(count, _ => NULL);
      blocksAllocated := blocksAllocated + count;
      ok := blocksAllocated <= maxBlocks;
    }

    // initialize_list (lines 124-136).
    method InitializeList(start: nat, ghost held: seq<Ptr>)
      requires Holding(held) && start + listLength <= |next| && Range(start, listLength) <= held
      modifies this`next
      ensures Holding(held) && Linked(next, start, Range(start, listLength)) && |next| == |old(next)|
      ensures forall p: nat :: p < |next| && !(start <= p < start + listLength) ==> next[p] == old(next)[p]
    {
      var p: nat, end := start, start + listLength - 1;
      while p != end
        modifies this`next
        invariant start <= p <= end && Holding(held) && |next| == |old(next)|
        invariant forall q :: start <= q < p ==> next[q] == q + 1
        invariant forall q: nat :: q < |next| && !(start <= q < start + listLength) ==> next[q] == old(next)[q]
      {
        assert held[p - start] == p;
        WriteKeeps(Abs(), held, p, p + 1);
        next := next[p := p + 1];
        p := p + 1;
      }
      assert held[p - start] == p;
      WriteKeeps(Abs(), held, p, NULL);
      next := next[p := NULL];
      RangeLinked(next, start, listLength);
    }

    // A list for every worker, and enough for n blocks.
    function Lists(n: nat): nat
      requires listLength > 0
      reads this`local
    {
      |local| + (n + listLength - 1) / listLength
    }

    // A list for each worker, and beside these just enough for n blocks.
    lemma ListsAreEnough(n: nat)
      requires listLength > 0
      ensures Lists(n) >= |local| && n <= (Lists(n) - |local|) * listLength < n + listLength
    {
      RoundedUp(n, listLength);
    }

    // One round of reserve's loop.
    method PushList(at: nat, ghost rest: nat)
      requires Holding(Range(at, listLength + rest)) && at + listLength <= |next|
      modifies this`next, this`global, this`pools
      ensures Holding(Range(at + listLength, rest)) && |next| == |old(next)| && |global| == |old(global)| + 1
    {
      RangeSplit(at, listLength, rest);
      InitializeList(at, Range(at, listLength + rest));
      PushedOk(Abs(), at, Range(at, listLength), Range(at + listLength, rest));
      global := [at] + global;
      pools := [Range(at, listLength)] + pools;
    }

    // reserve (lines 211-224): a list for every worker and enough for n more blocks.
    method Reserve(n: nat) returns (ok: bool)
      requires Valid()
      modifies this`next, this`blocksAllocated, this`global, this`pools
      ensures ok <==> blocksAllocated <= maxBlocks
      ensures blocksAllocated == old(blocksAllocated) + BlocksOf(Lists(n), listLength)
      ensures ok ==> Valid() && |global| == |old(global)| + Lists(n)
    {
      hide Lists, BlocksOf, View.Ok;
      HasLength(Abs(), []);
      var numLists := Lists(n);
      var start: nat;
      start, ok := AllocateBlocks(BlocksOf(numLists, listLength), []);
      if !ok { return; }
      ghost var left: nat := BlocksOf(numLists, listLength);
      var i: nat, at: nat := 0, start;
      assert [] + Range(start, left) == Range(at, left);
      while i < numLists
        modifies this`next, this`global, this`pools
        invariant i <= numLists && at + left == |next| && left == BlocksOf(numLists - i, listLength)
        invariant Holding(Range(at, left)) && |global| == |old(global)| + i
      {
        OneMore(numLists - i - 1, listLength);
        ghost var rest: nat := left - listLength;
        PushList(at, rest);
        at, left := at + listLength, rest;
        i := i + 1;
      }
      OneMore(0, listLength);
      assert Range(at, left) == [];
    }

    // get_list (lines 178-186): the shared stack first, then a new list.
    method GetList() returns (p: Ptr, ok: bool, ghost chain: seq<Ptr>)
      requires Valid()
      modifies this`next, this`blocksAllocated, this`global, this`pools
      ensures ok ==> Holding(chain) && Linked(next, p, chain) && |chain| == listLength
      ensures blocksAllocated == old(blocksAllocated) + if old(global) == [] then listLength else 0
      ensures ok <==> old(global) != [] || blocksAllocated <= maxBlocks
      ensures |old(next)| <= |next| && forall q: nat :: q < |old(next)| ==> next[q] == old(next)[q]
    {
      hide View.Ok, Linked;
      if global != [] {
        PoppedOk(Abs());
        p, ok, chain := global[0], true, pools[0];
        global, pools := global[1..], pools[1..];
      } else {
        var start: nat;
        start, ok := AllocateBlocks(listLength, []);
        p, chain := start, Range(start, listLength);
        assert [] + chain == chain;
        if ok { InitializeList(start, chain); }
      }
    }

    // alloc (lines 283-297).
    method Alloc(id: nat) returns (r: Result)
      requires Valid() && id < |local|
      modifies this
      ensures
        r.TooManyBlocks? <==> old(local[id].sz == 0 && global == []) && old(blocksAllocated) + listLength > maxBlocks
      ensures r.Got? ==> Valid() && r.block !in old(used) && used == old(used) + {r.block}
      ensures
        var grows := old(local[id].sz == 0 && global == []);
        r.Got? ==> blocksAllocated == old(blocksAllocated) + if grows then listLength else 0
      ensures
        r.Got? ==> |locals| == |old(locals)| && forall j: nat :: j < |locals| && j != id ==> locals[j] == old(locals)[j]
      ensures r.Got? ==> Kept(old(next), next)
    {
      hide View.Ok, Linked;
      SameWorkers(Abs(), []);
      if local[id].sz == 0 {
        ghost var chain;
        var head, ok;
        head, ok, chain := GetList();
        if !ok { return TooManyBlocks; }
        InstalledOk(Abs(), id, head, chain);
        local := local[id := Local(listLength, head, local[id].mid)];
        locals := locals[id := chain];
        HasLength(Abs(), []);
      }
      TakenOk(Abs(), id);
      var p := local[id].head;
      local := local[id := Local(local[id].sz - 1, next[p], local[id].mid)];
      locals, used := locals[id := locals[id][1..]], used + {p};
      r := Got(p);
    }

    // free (lines 266-281). The caller's other blocks keep their contents.
    method Free(id: nat, p: Ptr)
      requires Valid() && id < |local| && p in used
      modifies this
      ensures Valid() && used == old(used) - {p} && blocksAllocated == old(blocksAllocated)
      ensures |locals| == |old(locals)| && forall j: nat :: j < |locals| && j != id ==> locals[j] == old(locals)[j]
      ensures |next| == |old(next)| && forall q: nat :: q < |next| && q in used ==> next[q] == old(next)[q]
      ensures var c := old(locals)[id];
        if listLength >= 2 && |c| == 2 * listLength
        then locals[id] == [p] + c[..listLength] && pools == [c[listLength..]] + old(pools)
        else locals[id] == [p] + c && pools == old(pools)
    {
      hide View.Ok, Linked;
      SameWorkers(Abs(), []);
      if local[id].sz == listLength + 1 {
        MarkedOk(Abs(), id);
        local := local[id := local[id].(mid := local[id].head)];
      } else if local[id].sz == 2 * listLength {
        SpilledOk(Abs(), id);
        SpilledAway(Abs(), id);
        var l := local[id];
        global := [next[l.mid]] + global;
        next := next[l.mid := NULL];
        local := local[id := l.(sz := listLength)];
        pools := [locals[id][listLength..]] + pools;
        locals := locals[id := locals[id][..listLength]];
      }
      FreedOk(Abs(), id, p);
      next := next[p := local[id].head];
      local := local[id := Local(local[id].sz + 1, p, local[id].mid)];
      locals, used := locals[id := [p] + locals[id]], used - {p};
    }

    // The caller writes into a block it has been given.
    method Write(p: nat, x: Ptr)
      requires Valid() && p in used
      modifies this`next
      ensures Valid() && p < |old(next)| && next == old(next)[p := x]
    {
      WriteKeeps(Abs(), [], p, x);
      next := next[p := x];
    }

    // num_used_blocks (lines 138-144): exactly the blocks that callers have.
    method NumUsedBlocks() returns (n: int)
      requires Valid()
      ensures n == |used|
    {
      var free := BlocksOf(|global|, listLength);
      for i := 0 to |local|
        invariant free == BlocksOf(|global|, listLength) + SizeAll(locals[..i])
      {
        assert Abs().WorkerOk(i);
        assert locals[..i + 1][..i] == locals[..i];
        free := free + local[i].sz;
      }
      assert locals[..|local|] == locals;
      forall k: nat | k < |pools|
        ensures |pools[k]| == listLength
      {
        assert Abs().PoolOk(k);
      }
      PoolsSize(pools, listLength);
      UsedAndFree(Abs());
      n := blocksAllocated - free;
    }
  }

  ghost predicate Kept(next: seq<Ptr>, next': seq<Ptr>)
  {
    |next| <= |next'| && forall q: nat :: q < |next| ==> next'[q] == next[q]
  }

  lemma SameWorkers(v: View, held: seq<Ptr>)
    requires v.Ok(held)
    ensures v.length >= 1 && |v.local| == |v.locals| && |v.global| == |v.pools|
    ensures forall id: nat :: id < |v.local| ==> v.local[id].sz == |v.locals[id]|
    ensures v.length >= 2 ==> forall id: nat :: id < |v.local| ==> v.local[id].sz <= 2 * v.length
  {
    forall id: nat | id < |v.local|
      ensures v.local[id].sz == |v.locals[id]| && (v.length >= 2 ==> v.local[id].sz <= 2 * v.length)
    {
      assert v.WorkerOk(id);
    }
  }

  // The link that is cut belongs to a free block.
  lemma SpilledAway(v: View, id: nat)
    requires v.Ok([]) && id < |v.local| && v.local[id].sz == 2 * v.length && v.length >= 2
    ensures v.local[id].mid !in v.used
  {
    assert v.WorkerOk(id);
    LocalNowhereElse(v, [], id, v.locals[id][v.length - 1]);
  }

  lemma HasLength(v: View, held: seq<Ptr>)
    requires v.Ok(held)
    ensures v.length >= 1
  {
  }

  lemma RangeSplit(start: nat, n: nat, m: nat)
    ensures Range(start, n + m) == Range(start, n) + Range(start + n, m)
  {
  }

  lemma {:induction false} AllEmpty(lists: seq<seq<Ptr>>, x: Ptr)
    requires forall i: nat :: i < |lists| ==> lists[i] == []
    ensures CountAll(lists, x) == 0
  {
    if lists != [] { AllEmpty(lists[..|lists| - 1], x); }
  }
}
