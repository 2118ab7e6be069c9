// Strictly increasing sequences of keys, with insertion and deletion: what the contents of a B-tree,
// read in order, go through.
module SortedSeq {
  import opened Collections

  predicate Strict(s: seq<int>) { forall i, j :: 0 <= i < j < |s| ==> s[i] < s[j] }

  // Inserts k before the first larger element, unless it is there.
  function InsertSeq(s: seq<int>, k: int): seq<int> {
    if s == [] then [k]
    else if s[0] < k then [s[0]] + InsertSeq(s[1..], k)
    else if s[0] == k then s
    else [k] + s
  }

  // Removes the first occurrence of k.
  function DeleteSeq(s: seq<int>, k: int): seq<int> {
    if s == [] then []
    else if s[0] == k then s[1..]
    else [s[0]] + DeleteSeq(s[1..], k)
  }

  // As a set, the sequence gains k and nothing else.
  lemma {:induction false} InsertIsUnion(s: seq<int>, k: int)
    requires Strict(s)
    ensures Strict(InsertSeq(s, k)) && forall x :: x in InsertSeq(s, k) <==> x in s || x == k
  {
    if s != [] && s[0] < k {
      InsertIsUnion(s[1..], k);
      var r := InsertSeq(s[1..], k);
      forall i | 0 <= i < |r| ensures s[0] < r[i] {
        assert r[i] in r;
        if r[i] != k { assert r[i] in s[1..]; }
      }
      assert s == [s[0]] + s[1..];
    }
  }

  lemma {:induction false} DeleteIsDifference(s: seq<int>, k: int)
    requires Strict(s)
    ensures Strict(DeleteSeq(s, k)) && forall x :: x in DeleteSeq(s, k) <==> x in s && x != k
  {
    if s != [] {
      assert s == [s[0]] + s[1..];
      if s[0] != k {
        DeleteIsDifference(s[1..], k);
        var r := DeleteSeq(s[1..], k);
        forall i | 0 <= i < |r| ensures s[0] < r[i] { assert r[i] in r && r[i] in s[1..]; }
      } else {
        forall x ensures x in s[1..] <==> x in s && x != k { }
      }
    }
  }

  ghost predicate Below(s: seq<int>, k: int) { forall x :: x in s ==> x < k }

  ghost predicate Above(s: seq<int>, k: int) { forall x :: x in s ==> k < x }

  lemma StrictParts(p: seq<int>, m: seq<int>, s: seq<int>)
    requires Strict(p + m + s)
    ensures Strict(p) && Strict(m) && Strict(s) && Strict(p + m) && Strict(m + s)
    ensures forall i, j :: 0 <= i < |p| && 0 <= j < |m| ==> p[i] < m[j]
    ensures forall i, j :: 0 <= i < |m| && 0 <= j < |s| ==> m[i] < s[j]
    ensures forall i, j :: 0 <= i < |p| && 0 <= j < |s| ==> p[i] < s[j]
  {
    var t := p + m + s;
    forall i | 0 <= i < |p| ensures t[i] == p[i] { }
    forall i | 0 <= i < |m| ensures t[|p| + i] == m[i] { }
    forall i | 0 <= i < |s| ensures t[|p| + |m| + i] == s[i] { }
  }

  lemma {:induction false} InsertAfter(p: seq<int>, t: seq<int>, k: int)
    requires forall x :: x in p ==> x < k
    ensures InsertSeq(p + t, k) == p + InsertSeq(t, k)
  {
    if p == [] {
      assert p + t == t;
    } else {
      forall x | x in p[1..] ensures x < k { assert x in p; }
      InsertAfter(p[1..], t, k);
      assert p[0] in p && (p + t)[1..] == p[1..] + t;
    }
  }

  lemma {:induction false} InsertBefore(m: seq<int>, s: seq<int>, k: int)
    requires forall x :: x in s ==> k < x
    ensures InsertSeq(m + s, k) == InsertSeq(m, k) + s
  {
    if m == [] {
      assert m + s == s;
      if s != [] { assert s[0] in s; }
    } else if m[0] < k {
      InsertBefore(m[1..], s, k);
      assert (m + s)[1..] == m[1..] + s;
    }
  }

  // An insertion between p and s changes only the middle.
  lemma InsertMiddle(p: seq<int>, m: seq<int>, s: seq<int>, k: int)
    requires Below(p, k) && Above(s, k)
    ensures InsertSeq(p + m + s, k) == p + InsertSeq(m, k) + s
  {
    assert p + m + s == p + (m + s);
    InsertAfter(p, m + s, k);
    InsertBefore(m, s, k);
  }

  lemma {:induction false} DeleteAfter(p: seq<int>, t: seq<int>, k: int)
    requires k !in p
    ensures DeleteSeq(p + t, k) == p + DeleteSeq(t, k)
  {
    if p == [] {
      assert p + t == t;
    } else {
      DeleteAfter(p[1..], t, k);
      assert p[0] in p && (p + t)[0] == p[0] && (p + t)[1..] == p[1..] + t;
      Regroup([p[0]], p[1..], DeleteSeq(t, k));
      assert [p[0]] + p[1..] == p;
    }
  }

  lemma {:induction false} DeleteAbsent(s: seq<int>, k: int)
    requires k !in s
    ensures DeleteSeq(s, k) == s
  {
    if s != [] { DeleteAbsent(s[1..], k); }
  }

  lemma {:induction false} DeleteBefore(m: seq<int>, s: seq<int>, k: int)
    requires k in m || k !in s
    ensures DeleteSeq(m + s, k) == DeleteSeq(m, k) + s
  {
    if m == [] {
      assert m + s == s;
      DeleteAbsent(s, k);
    } else {
      assert (m + s)[1..] == m[1..] + s;
      if m[0] != k { DeleteBefore(m[1..], s, k); }
    }
  }

  // A deletion of a key that is not in p and, if it is not in m, not in s either.
  lemma DeleteMiddle(p: seq<int>, m: seq<int>, s: seq<int>, k: int)
    requires k !in p && (k in m || k !in s)
    ensures DeleteSeq(p + m + s, k) == p + DeleteSeq(m, k) + s
  {
    assert p + m + s == p + (m + s);
    DeleteAfter(p, m + s, k);
    DeleteBefore(m, s, k);
  }

  lemma StrictAround(p: seq<int>, k: int, r: seq<int>)
    requires Strict(p + [k] + r)
    ensures k !in p && k !in r
  {
    StrictParts(p, [k], r);
    assert [k][0] == k;
    forall x | x in p ensures x != k { var j :| 0 <= j < |p| && p[j] == x; }
    forall x | x in r ensures x != k { var j :| 0 <= j < |r| && r[j] == x; }
  }

  lemma DeleteAt(p: seq<int>, k: int, r: seq<int>)
    requires Strict(p + [k] + r)
    ensures DeleteSeq(p + [k] + r, k) == p + r
  {
    StrictAround(p, k, r);
    DeleteMiddle(p, [k], r, k);
    assert p + DeleteSeq([k], k) + r == p + r;
  }

  lemma DeleteFirst(s: seq<int>)
    requires s != []
    ensures s == [s[0]] + DeleteSeq(s, s[0])
  {
  }

  // Deleting the last element of a strict sequence.
  lemma DeleteLast(s: seq<int>)
    requires Strict(s) && s != []
    ensures DeleteSeq(s, s[|s| - 1]) == s[..|s| - 1]
  {
    var n := |s| - 1;
    DeleteMiddle(s[..n], [s[n]], [], s[n]);
    assert s == s[..n] + [s[n]] + [];
    assert s[..n] + DeleteSeq([s[n]], s[n]) + [] == s[..n];
  }

  // ---- Keys between parts ----

  // parts[0], keys[0], parts[1], keys[1], ..., the last part.
  function Weave(keys: seq<int>, parts: seq<seq<int>>): seq<int>
    requires |parts| == |keys| + 1
  {
    if keys == [] then parts[0] else parts[0] + [keys[0]] + Weave(keys[1..], parts[1..])
  }

  lemma {:induction false} WeaveJoin(k1: seq<int>, p1: seq<seq<int>>, x: int, k2: seq<int>, p2: seq<seq<int>>)
    requires |p1| == |k1| + 1 && |p2| == |k2| + 1
    ensures Weave(k1 + [x] + k2, p1 + p2) == Weave(k1, p1) + [x] + Weave(k2, p2)
  {
    var k, p := k1 + [x] + k2, p1 + p2;
    if k1 == [] {
      assert k[1..] == k2 && p[1..] == p2;
    } else {
      WeaveJoin(k1[1..], p1[1..], x, k2, p2);
      assert k[1..] == k1[1..] + [x] + k2 && p[1..] == p1[1..] + p2;
    }
  }

  // What stands before and after part i.
  function Before(keys: seq<int>, parts: seq<seq<int>>, i: nat): seq<int>
    requires |parts| == |keys| + 1 && i <= |keys|
  {
    if i == 0 then [] else Weave(keys[..i - 1], parts[..i]) + [keys[i - 1]]
  }

  function After(keys: seq<int>, parts: seq<seq<int>>, i: nat): seq<int>
    requires |parts| == |keys| + 1 && i <= |keys|
  {
    if i == |keys| then [] else [keys[i]] + Weave(keys[i + 1..], parts[i + 1..])
  }

  lemma WeaveFrom(keys: seq<int>, parts: seq<seq<int>>, i: nat)
    requires |parts| == |keys| + 1 && i <= |keys|
    ensures Weave(keys[i..], parts[i..]) == parts[i] + After(keys, parts, i)
  {
    if i < |keys| {
      assert keys[i..][1..] == keys[i + 1..] && parts[i..][1..] == parts[i + 1..];
      Regroup(parts[i], [keys[i]], Weave(keys[i + 1..], parts[i + 1..]));
    }
  }

  lemma WeaveAt(keys: seq<int>, parts: seq<seq<int>>, i: nat)
    requires |parts| == |keys| + 1 && i <= |keys|
    ensures Weave(keys, parts) == Before(keys, parts, i) + parts[i] + After(keys, parts, i)
  {
    hide Weave;
    hide After;
    WeaveFrom(keys, parts, i);
    var k2, p2 := keys[i..], parts[i..];
    if i == 0 {
      assert k2 == keys && p2 == parts;
    } else {
      WeaveJoin(keys[..i - 1], parts[..i], keys[i - 1], k2, p2);
      assert keys == keys[..i - 1] + [keys[i - 1]] + k2 && parts == parts[..i] + p2;
      Regroup(Before(keys, parts, i), parts[i], After(keys, parts, i));
    }
  }

  // Before looks at what precedes part i only, After at what follows it.
  lemma Local(keys: seq<int>, parts: seq<seq<int>>, keys': seq<int>, parts': seq<seq<int>>, i: nat)
    requires |parts| == |keys| + 1 && |parts'| == |keys'| + 1 && i <= |keys| && i <= |keys'|
    ensures keys[..i] == keys'[..i] && parts[..i] == parts'[..i] ==> Before(keys, parts, i) == Before(keys', parts', i)
    ensures
      keys[i..] == keys'[i..] && parts[i + 1..] == parts'[i + 1..] ==> After(keys, parts, i) == After(keys', parts', i)
  {
    if keys[..i] == keys'[..i] && i > 0 {
      assert keys[..i - 1] == keys[..i][..i - 1] && keys[i - 1] == keys[..i][i - 1];
      assert keys'[..i - 1] == keys'[..i][..i - 1] && keys'[i - 1] == keys'[..i][i - 1];
    }
    if keys[i..] == keys'[i..] && i < |keys| {
      assert keys[i + 1..] == keys[i..][1..] && keys[i] == keys[i..][0];
      assert keys'[i + 1..] == keys'[i..][1..] && keys'[i] == keys'[i..][0];
    }
  }

  // Another part at i.
  lemma WeaveReplace(keys: seq<int>, parts: seq<seq<int>>, i: nat, a: seq<int>)
    requires |parts| == |keys| + 1 && i <= |keys|
    ensures Weave(keys, parts[i := a]) == Before(keys, parts, i) + a + After(keys, parts, i)
  {
    WeaveAt(keys, parts[i := a], i);
    Local(keys, parts, keys, parts[i := a], i);
  }

  // Part i taken apart around x, or two parts put together around x.
  lemma WeaveSplit(keys: seq<int>, parts: seq<seq<int>>, i: nat, a: seq<int>, x: int, b: seq<int>)
    requires |parts| == |keys| + 1 && i <= |keys| && parts[i] == a + [x] + b
    ensures Weave(keys[..i] + [x] + keys[i..], parts[..i] + [a, b] + parts[i + 1..]) == Weave(keys, parts)
  {
    var k, p := keys[..i] + [x] + keys[i..], parts[..i] + [a, b] + parts[i + 1..];
    var l, r := Before(keys, parts, i), After(keys, parts, i);
    WeaveAt(keys, parts, i);
    WeaveAt(k, p, i);
    Local(keys, parts, k, p, i);
    assert Before(k, p, i) == l && p[i] == a;
    SplitAfter(keys, parts, i, a, x, b);
    calc {
      Weave(k, p);
      l + a + ([x] + b + r);
      { Regroup(l + a, [x] + b, r); Regroup(l, a, [x] + b); Regroup(a, [x], b); }
      l + (a + [x] + b) + r;
    }
  }

  lemma SplitAfter(keys: seq<int>, parts: seq<seq<int>>, i: nat, a: seq<int>, x: int, b: seq<int>)
    requires |parts| == |keys| + 1 && i <= |keys|
    ensures
      After(keys[..i] + [x] + keys[i..], parts[..i] + [a, b] + parts[i + 1..], i) == [x] + b + After(keys, parts, i)
  {
    var k, p := keys[..i] + [x] + keys[i..], parts[..i] + [a, b] + parts[i + 1..];
    var q := parts[i := b];
    assert k[i + 1..] == keys[i..] && p[i + 1..] == q[i..];
    WeaveFrom(keys, q, i);
    Local(keys, parts, keys, q, i);
    Regroup([x], b, After(keys, parts, i));
  }

  // Keys moved between two neighbouring parts.
  lemma WeaveShift(keys: seq<int>, parts: seq<seq<int>>, i: nat, a: seq<int>, x: int, b: seq<int>)
    requires |parts| == |keys| + 1 && i < |keys| && parts[i] + [keys[i]] + parts[i + 1] == a + [x] + b
    ensures Weave(keys[i := x], parts[i := a][i + 1 := b]) == Weave(keys, parts)
  {
    var whole := parts[i] + [keys[i]] + parts[i + 1];
    var k, p := keys[..i] + keys[i + 1..], parts[..i] + [whole] + parts[i + 2..];
    WeaveSplit(k, p, i, parts[i], keys[i], parts[i + 1]);
    WeaveSplit(k, p, i, a, x, b);
    assert k[..i] + [keys[i]] + k[i..] == keys && p[..i] + [parts[i], parts[i + 1]] + p[i + 1..] == parts;
    assert k[..i] + [x] + k[i..] == keys[i := x] && p[..i] + [a, b] + p[i + 1..] == parts[i := a][i + 1 := b];
  }

  lemma WeaveKey(keys: seq<int>, parts: seq<seq<int>>, i: nat)
    requires |parts| == |keys| + 1 && i < |keys|
    ensures Weave(keys, parts) == Weave(keys[..i], parts[..i + 1]) + [keys[i]] + Weave(keys[i + 1..], parts[i + 1..])
  {
    hide Weave;
    var k1, k2, p1, p2 := keys[..i], keys[i + 1..], parts[..i + 1], parts[i + 1..];
    assert keys == k1 + [keys[i]] + k2;
    assert parts == p1 + p2;
    WeaveJoin(k1, p1, keys[i], k2, p2);
  }

  lemma {:induction false} WeaveLastPart(keys: seq<int>, parts: seq<seq<int>>, a: seq<int>, b: seq<int>)
    requires |parts| == |keys| + 1 && parts[|keys|] == a + b
    ensures Weave(keys, parts) == Weave(keys, parts[|keys| := a]) + b
  {
    if keys != [] {
      WeaveLastPart(keys[1..], parts[1..], a, b);
      assert parts[|keys| := a][1..] == parts[1..][|keys| - 1 := a];
    }
  }

  lemma WeaveFirstPart(keys: seq<int>, parts: seq<seq<int>>, a: seq<int>, b: seq<int>)
    requires |parts| == |keys| + 1 && parts[0] == a + b
    ensures Weave(keys, parts) == a + Weave(keys, parts[0 := b])
  {
    if keys != [] { assert parts[0 := b][1..] == parts[1..]; }
  }

  // The key at i is deleted by moving the last element of part i, or the first of part i + 1, into its place.
  lemma DeleteByPred(keys: seq<int>, parts: seq<seq<int>>, i: nat, front: seq<int>, x: int)
    requires |parts| == |keys| + 1 && i < |keys| && Strict(Weave(keys, parts)) && parts[i] == front + [x]
    ensures Weave(keys[i := x], parts[i := front]) == DeleteSeq(Weave(keys, parts), keys[i])
  {
    var k, p := keys[i := x], parts[i := front];
    var l, r := Weave(keys[..i], parts[..i + 1]), Weave(keys[i + 1..], parts[i + 1..]);
    WeaveKey(keys, parts, i);
    WeaveKey(k, p, i);
    WeaveLastPart(keys[..i], parts[..i + 1], front, [x]);
    assert k[..i] == keys[..i] && p[..i + 1] == parts[..i + 1][i := front];
    assert k[i + 1..] == keys[i + 1..] && p[i + 1..] == parts[i + 1..];
    DeleteAt(l, keys[i], r);
  }

  lemma DeleteBySucc(keys: seq<int>, parts: seq<seq<int>>, i: nat, x: int, rest: seq<int>)
    requires |parts| == |keys| + 1 && i < |keys| && Strict(Weave(keys, parts)) && parts[i + 1] == [x] + rest
    ensures Weave(keys[i := x], parts[i + 1 := rest]) == DeleteSeq(Weave(keys, parts), keys[i])
  {
    var k, p := keys[i := x], parts[i + 1 := rest];
    var l, r := Weave(keys[..i], parts[..i + 1]), Weave(keys[i + 1..], parts[i + 1..]);
    WeaveKey(keys, parts, i);
    WeaveKey(k, p, i);
    WeaveFirstPart(keys[i + 1..], parts[i + 1..], [x], rest);
    assert k[..i] == keys[..i] && p[..i + 1] == parts[..i + 1];
    assert k[i + 1..] == keys[i + 1..] && p[i + 1..] == parts[i + 1..][0 := rest];
    DeleteAt(l, keys[i], r);
    Regroup(l, [x], Weave(k[i + 1..], p[i + 1..]));
  }
}
