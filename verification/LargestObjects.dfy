/** Covering a CPU set with as few objects as possible (src/traversal.c). */
module LargestObjects {

  /** The part of a topology that the search looks at. */
  datatype Tree = Node(id: nat, cpus: set<nat>, kids: seq<Tree>)

  // ---- Well-formed topologies ----

  ghost function Union(ts: seq<Tree>): set<nat> {
    if ts == [] then {} else Union(ts[..|ts| - 1]) + ts[|ts| - 1].cpus
  }

  ghost predicate Disjoint(ts: seq<Tree>) {
    forall i, j :: 0 <= i < j < |ts| ==> ts[i].cpus !! ts[j].cpus
  }

  /** Every inner object is the disjoint union of its children, and every leaf has one CPU. */
  ghost predicate WellFormed(t: Tree) {
    && t.cpus != {}
    && (forall k :: 0 <= k < |t.kids| ==> WellFormed(t.kids[k]))
    && (if t.kids == [] then |t.cpus| == 1 else Disjoint(t.kids) && Union(t.kids) == t.cpus)
  }

  /** `n` is the object `t` itself or one below it. */
  ghost predicate IsObject(t: Tree, n: Tree) {
    n == t || exists k :: 0 <= k < |t.kids| && IsObject(t.kids[k], n)
  }

  lemma {:induction false} UnionHas(ts: seq<Tree>, x: nat)
    ensures x in Union(ts) <==> exists k :: 0 <= k < |ts| && x in ts[k].cpus
  {
    if ts != [] {
      UnionHas(ts[..|ts| - 1], x);
      if k :| 0 <= k < |ts| - 1 && x in ts[k].cpus {
        assert ts[..|ts| - 1][k] == ts[k];
      }
      if x in Union(ts[..|ts| - 1]) {
        var k :| 0 <= k < |ts| - 1 && x in ts[..|ts| - 1][k].cpus;
        assert x in ts[k].cpus;
      }
    }
  }

  lemma KidIncluded(t: Tree, k: nat)
    requires WellFormed(t) && k < |t.kids|
    ensures t.kids[k].cpus <= t.cpus
  {
    forall x | x in t.kids[k].cpus
      ensures x in t.cpus
    {
      UnionHas(t.kids, x);
    }
  }

  lemma {:induction false} ObjectIncluded(t: Tree, n: Tree)
    requires WellFormed(t) && IsObject(t, n)
    ensures WellFormed(n) && n.cpus <= t.cpus && n.cpus != {}
  {
    if n != t {
      var k :| 0 <= k < |t.kids| && IsObject(t.kids[k], n);
      ObjectIncluded(t.kids[k], n);
      KidIncluded(t, k);
    }
  }

  // ---- What the search must find ----

  /** The largest objects included in `cpus`, in depth-first order: those that are included while
      the object above them is not. */
  ghost function Maximal(t: Tree, cpus: set<nat>): seq<Tree>
    decreases t, |t.kids| + 1
  {
    if t.cpus <= cpus then [t] else MaximalBelow(t, |t.kids|, cpus)
  }

  /** The same below the first `k` children. */
  ghost function MaximalBelow(t: Tree, k: nat, cpus: set<nat>): seq<Tree>
    requires k <= |t.kids|
    decreases t, k
  {
    if k == 0 then [] else MaximalBelow(t, k - 1, cpus) + Maximal(t.kids[k - 1], cpus)
  }

  ghost function First<T>(q: seq<T>, n: nat): seq<T> {
    if n <= |q| then q[..n] else q
  }

  lemma {:induction false} MaximalEmpty(t: Tree, cpus: set<nat>)
    requires WellFormed(t) && t.cpus * cpus == {}
    ensures Maximal(t, cpus) == []
    decreases t, |t.kids| + 1
  {
    assert !(t.cpus <= cpus) by {
      var x :| x in t.cpus;
      assert x !in t.cpus * cpus;
    }
    MaximalBelowEmpty(t, |t.kids|, cpus);
  }

  lemma {:induction false} MaximalBelowEmpty(t: Tree, k: nat, cpus: set<nat>)
    requires WellFormed(t) && t.cpus * cpus == {} && k <= |t.kids|
    ensures MaximalBelow(t, k, cpus) == []
    decreases t, k
  {
    if k > 0 {
      MaximalBelowEmpty(t, k - 1, cpus);
      KidIncluded(t, k - 1);
      assert t.kids[k - 1].cpus * cpus <= t.cpus * cpus;
      MaximalEmpty(t.kids[k - 1], cpus);
    }
  }

  /** Cutting the set down to the object being searched makes no difference. */
  lemma {:induction false} MaximalCut(t: Tree, cpus: set<nat>, cut: set<nat>)
    requires WellFormed(t) && cut * t.cpus == cpus * t.cpus
    ensures Maximal(t, cpus) == Maximal(t, cut)
    decreases t, |t.kids| + 1
  {
    assert t.cpus <= cpus <==> cpus * t.cpus == t.cpus;
    assert t.cpus <= cut <==> cut * t.cpus == t.cpus;
    MaximalBelowCut(t, |t.kids|, cpus, cut);
  }

  lemma {:induction false} MaximalBelowCut(t: Tree, k: nat, cpus: set<nat>, cut: set<nat>)
    requires WellFormed(t) && cut * t.cpus == cpus * t.cpus && k <= |t.kids|
    ensures MaximalBelow(t, k, cpus) == MaximalBelow(t, k, cut)
    decreases t, k
  {
    if k > 0 {
      MaximalBelowCut(t, k - 1, cpus, cut);
      KidIncluded(t, k - 1);
      var kid := t.kids[k - 1];
      assert cut * kid.cpus == (cut * t.cpus) * kid.cpus;
      assert cpus * kid.cpus == (cpus * t.cpus) * kid.cpus;
      MaximalCut(kid, cpus, cut);
    }
  }

  // ---- The search ----

  /** `hwloc__get_largest_objs_inside_cpuset`: `res` is what has been written so far, and `max`
      the room that is left. */
  method LargestInside(current: Tree, cpus: set<nat>, res: seq<Tree>, max: nat)
    returns (gotten: nat, res': seq<Tree>, max': nat)
    requires WellFormed(current) && cpus <= current.cpus
    ensures res' == res + First(Maximal(current, cpus), max)
    ensures gotten == |First(Maximal(current, cpus), max)| && max' == max - gotten
    decreases current
  {
    hide Maximal, MaximalBelow, First, WellFormed;
    SearchStarts(current, cpus, max);
    gotten, res', max' := 0, res, max;
    if max == 0 {
      return;
    }
    if current.cpus == cpus {
      return 1, res + [current], max - 1;
    }
    var i := 0;
    while i < |current.kids|
      invariant i <= |current.kids|
      invariant res' == res + First(MaximalBelow(current, i, cpus), max)
      invariant gotten == |First(MaximalBelow(current, i, cpus), max)| && max' == max - gotten > 0
    {
      var kid := current.kids[i];
      var subset := cpus * kid.cpus;
      KidSearched(current, i, cpus, subset, max);
      if subset != {} {
        var ret;
        ret, res', max' := LargestInside(kid, subset, res', max');
        gotten := gotten + ret;
        if max' == 0 {
          EnoughFound(current, i + 1, |current.kids|, cpus, max);
          return;
        }
      }
      i := i + 1;
    }
  }

  lemma SearchStarts(t: Tree, cpus: set<nat>, max: nat)
    requires WellFormed(t) && cpus <= t.cpus
    ensures First(Maximal(t, cpus), 0) == [] && First(MaximalBelow(t, 0, cpus), max) == []
    ensures if t.cpus == cpus then Maximal(t, cpus) == [t] && (max > 0 ==> First(Maximal(t, cpus), max) == [t])
            else Maximal(t, cpus) == MaximalBelow(t, |t.kids|, cpus)
  {
  }

  /** What searching one more child adds. */
  lemma KidSearched(t: Tree, i: nat, cpus: set<nat>, subset: set<nat>, max: nat)
    requires WellFormed(t) && i < |t.kids| && subset == cpus * t.kids[i].cpus
    requires |First(MaximalBelow(t, i, cpus), max)| < max
    ensures WellFormed(t.kids[i])
    ensures
      var before, found := First(MaximalBelow(t, i, cpus), max), Maximal(t.kids[i], subset);
      && First(MaximalBelow(t, i + 1, cpus), max) == before + First(found, max - |before|)
      && (subset == {} ==> found == [] && First(MaximalBelow(t, i + 1, cpus), max) == before)
      && (|before + First(found, max - |before|)| == max ==> |MaximalBelow(t, i + 1, cpus)| >= max)
  {
    var kid := t.kids[i];
    assert subset * kid.cpus == cpus * kid.cpus;
    MaximalCut(kid, cpus, subset);
    if subset == {} {
      MaximalEmpty(kid, cpus);
    }
    FirstSplits(MaximalBelow(t, i, cpus), Maximal(kid, cpus), max);
  }

  lemma FirstSplits<T>(q: seq<T>, r: seq<T>, n: nat)
    requires |q| <= n
    ensures First(q, n) == q && First(q + r, n) == q + First(r, n - |q|)
  {
  }

  lemma {:induction false} EnoughFound(t: Tree, k: nat, m: nat, cpus: set<nat>, n: nat)
    requires k <= m <= |t.kids| && |MaximalBelow(t, k, cpus)| >= n
    ensures First(MaximalBelow(t, m, cpus), n) == First(MaximalBelow(t, k, cpus), n)
    ensures |MaximalBelow(t, m, cpus)| >= n
    decreases m
  {
    if k < m {
      EnoughFound(t, k, m - 1, cpus, n);
    }
  }

  /** `hwloc_get_largest_objs_inside_cpuset`. */
  method GetLargestInside(root: Tree, cpus: set<nat>, max: int) returns (count: int, objs: seq<Tree>)
    requires WellFormed(root)
    ensures !(cpus <= root.cpus) ==> count == -1 && objs == []
    ensures cpus <= root.cpus ==> count == |objs| && objs == First(Maximal(root, cpus), if max <= 0 then 0 else max)
  {
    if !(cpus <= root.cpus) {
      return -1, [];
    }
    if max <= 0 {
      return 0, [];
    }
    var left;
    count, objs, left := LargestInside(root, cpus, [], max);
  }

  // ---- What the objects found are ----

  /** An object is found exactly if it is included and whatever is above it is not: each object
      of the topology that is included in the set is below an object found, and those found are
      objects of the topology included in the set. */
  lemma {:induction false} FoundAreObjects(t: Tree, cpus: set<nat>, m: Tree)
    requires WellFormed(t) && m in Maximal(t, cpus)
    ensures IsObject(t, m) && m.cpus <= cpus && WellFormed(m)
    decreases t, |t.kids| + 1
  {
    if !(t.cpus <= cpus) {
      FoundBelowAreObjects(t, |t.kids|, cpus, m);
    }
  }

  lemma {:induction false} FoundBelowAreObjects(t: Tree, k: nat, cpus: set<nat>, m: Tree)
    requires WellFormed(t) && k <= |t.kids| && m in MaximalBelow(t, k, cpus)
    ensures IsObject(t, m) && m.cpus <= cpus && WellFormed(m)
    ensures exists i :: 0 <= i < k && m.cpus <= t.kids[i].cpus
    decreases t, k
  {
    if m in Maximal(t.kids[k - 1], cpus) {
      FoundAreObjects(t.kids[k - 1], cpus, m);
      ObjectIncluded(t.kids[k - 1], m);
    } else {
      FoundBelowAreObjects(t, k - 1, cpus, m);
    }
  }

  lemma {:induction false} FoundCoverObjects(t: Tree, cpus: set<nat>, n: Tree) returns (i: nat)
    requires WellFormed(t) && IsObject(t, n) && n.cpus <= cpus
    ensures i < |Maximal(t, cpus)| && IsObject(Maximal(t, cpus)[i], n)
    decreases t, |t.kids| + 1
  {
    if t.cpus <= cpus {
      return 0;
    }
    var k :| 0 <= k < |t.kids| && IsObject(t.kids[k], n);
    var j := FoundCoverObjects(t.kids[k], cpus, n);
    i := PlaceOf(t, k, |t.kids|, cpus, j);
  }

  /** Where the `j`-th object found in child `k` is in the whole. */
  lemma {:induction false} PlaceOf(t: Tree, k: nat, m: nat, cpus: set<nat>, j: nat) returns (i: nat)
    requires k < m <= |t.kids| && j < |Maximal(t.kids[k], cpus)|
    ensures i < |MaximalBelow(t, m, cpus)| && MaximalBelow(t, m, cpus)[i] == Maximal(t.kids[k], cpus)[j]
    decreases m
  {
    if m == k + 1 {
      i := |MaximalBelow(t, k, cpus)| + j;
    } else {
      i := PlaceOf(t, k, m - 1, cpus, j);
    }
  }

  /** The objects found do not overlap. */
  lemma {:induction false} FoundDisjoint(t: Tree, cpus: set<nat>)
    requires WellFormed(t)
    ensures Disjoint(Maximal(t, cpus))
    decreases t, |t.kids| + 1
  {
    if !(t.cpus <= cpus) {
      FoundBelowDisjoint(t, |t.kids|, cpus);
    }
  }

  lemma {:induction false} FoundBelowDisjoint(t: Tree, k: nat, cpus: set<nat>)
    requires WellFormed(t) && k <= |t.kids|
    ensures Disjoint(MaximalBelow(t, k, cpus))
    decreases t, k
  {
    if k > 0 {
      FoundBelowDisjoint(t, k - 1, cpus);
      FoundDisjoint(t.kids[k - 1], cpus);
      var q, r := MaximalBelow(t, k - 1, cpus), Maximal(t.kids[k - 1], cpus);
      assert MaximalBelow(t, k, cpus) == q + r && WellFormed(t.kids[k - 1]) && Disjoint(t.kids);
      hide Maximal, MaximalBelow, WellFormed;
      forall i, j | 0 <= i < |q| && 0 <= j < |r|
        ensures q[i].cpus !! r[j].cpus
      {
        FoundBelowAreObjects(t, k - 1, cpus, q[i]);
        var a :| 0 <= a < k - 1 && q[i].cpus <= t.kids[a].cpus;
        FoundAreObjects(t.kids[k - 1], cpus, r[j]);
        ObjectIncluded(t.kids[k - 1], r[j]);
      }
      DisjointTogether(q, r);
    }
  }

  lemma DisjointTogether(q: seq<Tree>, r: seq<Tree>)
    requires Disjoint(q) && Disjoint(r)
    requires forall i, j :: 0 <= i < |q| && 0 <= j < |r| ==> q[i].cpus !! r[j].cpus
    ensures Disjoint(q + r)
  {
  }

  /** A CPU of a topology belongs to a leaf. */
  lemma {:induction false} LeafOf(t: Tree, x: nat) returns (leaf: Tree)
    requires WellFormed(t) && x in t.cpus
    ensures IsObject(t, leaf) && leaf.cpus == {x}
  {
    if t.kids == [] {
      var y :| y in t.cpus;
      assert |t.cpus - {y}| == 0;
      assert t.cpus == {y};
      return t;
    }
    UnionHas(t.kids, x);
    var k :| 0 <= k < |t.kids| && x in t.kids[k].cpus;
    leaf := LeafOf(t.kids[k], x);
  }

  /** Together they are exactly the set that was asked for. */
  lemma FoundCover(t: Tree, cpus: set<nat>)
    requires WellFormed(t) && cpus <= t.cpus
    ensures Union(Maximal(t, cpus)) == cpus
  {
    var found := Maximal(t, cpus);
    forall x
      ensures x in Union(found) <==> x in cpus
    {
      UnionHas(found, x);
      if x in cpus {
        var leaf := LeafOf(t, x);
        var i := FoundCoverObjects(t, cpus, leaf);
        FoundAreObjects(t, cpus, found[i]);
        ObjectIncluded(found[i], leaf);
        assert x in found[i].cpus;
      } else if k :| 0 <= k < |found| && x in found[k].cpus {
        FoundAreObjects(t, cpus, found[k]);
      }
    }
  }

  // ---- They are exactly the largest ones ----

  /** An object included in the set that is below no other such object. */
  ghost predicate Largest(t: Tree, cpus: set<nat>, m: Tree) {
    && IsObject(t, m) && m.cpus <= cpus
    && (forall n :: IsObject(t, n) && n.cpus <= cpus && IsObject(n, m) ==> n == m)
  }

  lemma {:induction false} BelowIsSmaller(t: Tree, n: Tree)
    requires IsObject(t, n)
    ensures n == t || n < t
  {
    if n != t {
      var k :| 0 <= k < |t.kids| && IsObject(t.kids[k], n);
      BelowIsSmaller(t.kids[k], n);
    }
  }

  /** The search finds exactly the largest objects included in the set. */
  lemma FoundAreLargest(t: Tree, cpus: set<nat>, m: Tree)
    requires WellFormed(t)
    ensures m in Maximal(t, cpus) <==> Largest(t, cpus, m)
  {
    hide IsObject, WellFormed, Maximal;
    var found := Maximal(t, cpus);
    if Largest(t, cpus, m) {
      var i := FoundCoverObjects(t, cpus, m);
      FoundAreObjects(t, cpus, found[i]);
      assert found[i] == m;
    }
    if m in found {
      FoundAreObjects(t, cpus, m);
      forall n | IsObject(t, n) && n.cpus <= cpus && IsObject(n, m)
        ensures n == m
      {
        NothingLarger(t, cpus, m, n);
      }
    }
  }

  lemma NothingLarger(t: Tree, cpus: set<nat>, m: Tree, n: Tree)
    requires WellFormed(t) && m in Maximal(t, cpus)
    requires IsObject(t, n) && n.cpus <= cpus && IsObject(n, m)
    ensures n == m
  {
    hide IsObject, WellFormed, Maximal;
    var found := Maximal(t, cpus);
    var j :| 0 <= j < |found| && found[j] == m;
    var i := FoundCoverObjects(t, cpus, n);
    FoundAreObjects(t, cpus, found[i]);
    FoundAreObjects(t, cpus, m);
    ObjectIncluded(found[i], n);
    ObjectIncluded(n, m);
    SelfIsObject(m);
    ObjectIncluded(m, m);
    FoundDisjoint(t, cpus);
    var x :| x in m.cpus;
    assert x in found[i].cpus && x in found[j].cpus;
    assert i == j;
    BelowIsSmaller(m, n);
    BelowIsSmaller(n, m);
  }

  lemma SelfIsObject(m: Tree)
    ensures IsObject(m, m)
  {
  }

  // ---- No smaller collection covers the set exactly ----

  ghost predicate Objects(t: Tree, ns: seq<Tree>) {
    forall i :: 0 <= i < |ns| ==> IsObject(t, ns[i])
  }

  /** Any objects of the topology whose CPUs are together exactly the set are at least as many as
      those found. */
  lemma FoundFewest(t: Tree, cpus: set<nat>, other: seq<Tree>)
    requires WellFormed(t) && cpus <= t.cpus
    requires Objects(t, other) && Union(other) == cpus
    ensures |Maximal(t, cpus)| <= |other|
  {
    var found := Maximal(t, cpus);
    var hit := HitBy(t, cpus, other, |found|);
    Pigeonhole(hit, |other|);
  }

  /** For each of the first `n` objects found, some other object lies inside it; these are
      different ones, since the objects found do not overlap. */
  lemma {:induction false} HitBy(t: Tree, cpus: set<nat>, other: seq<Tree>, n: nat) returns (hit: seq<nat>)
    requires WellFormed(t) && cpus <= t.cpus && Objects(t, other) && Union(other) == cpus
    requires n <= |Maximal(t, cpus)|
    ensures |hit| == n
    ensures forall i :: 0 <= i < n ==> hit[i] < |other| && other[hit[i]].cpus <= Maximal(t, cpus)[i].cpus
    ensures forall i, j :: 0 <= i < j < n ==> hit[i] != hit[j]
  {
    if n == 0 {
      return [];
    }
    hit := HitBy(t, cpus, other, n - 1);
    var found := Maximal(t, cpus);
    var h := Hit(t, cpus, other, n - 1);
    FoundDisjoint(t, cpus);
    ObjectIncluded(t, other[h]);
    forall i | 0 <= i < n - 1
      ensures hit[i] != h
    {
      assert found[i].cpus !! found[n - 1].cpus;
      var x :| x in other[h].cpus;
    }
    hit := hit + [h];
  }

  lemma Hit(t: Tree, cpus: set<nat>, other: seq<Tree>, i: nat) returns (h: nat)
    requires WellFormed(t) && cpus <= t.cpus && Objects(t, other) && Union(other) == cpus
    requires i < |Maximal(t, cpus)|
    ensures h < |other| && other[h].cpus <= Maximal(t, cpus)[i].cpus
  {
    var found := Maximal(t, cpus);
    FoundAreObjects(t, cpus, found[i]);
    var x :| x in found[i].cpus;
    UnionHas(other, x);
    h :| 0 <= h < |other| && x in other[h].cpus;
    forall y | y in other[h].cpus
      ensures y in cpus
    {
      UnionHas(other, y);
    }
    var j := FoundCoverObjects(t, cpus, other[h]);
    FoundAreObjects(t, cpus, found[j]);
    ObjectIncluded(found[j], other[h]);
    FoundDisjoint(t, cpus);
    assert x in found[i].cpus && x in found[j].cpus;
    assert i == j;
  }

  lemma Pigeonhole(hit: seq<nat>, m: nat)
    requires forall i :: 0 <= i < |hit| ==> hit[i] < m
    requires forall i, j :: 0 <= i < j < |hit| ==> hit[i] != hit[j]
    ensures |hit| <= m
  {
    Distinct(hit);
    SubsetCount(Elements(hit), Below(m));
  }

  ghost function Elements(q: seq<nat>): set<nat> {
    set h | h in q
  }

  ghost function Below(m: nat): (s: set<nat>)
    ensures |s| == m && forall x: nat :: x in s <==> x < m
  {
    if m == 0 then {} else Below(m - 1) + {m - 1}
  }

  lemma {:induction false} Distinct(q: seq<nat>)
    requires forall i, j :: 0 <= i < j < |q| ==> q[i] != q[j]
    ensures |Elements(q)| == |q|
  {
    if q == [] {
      assert Elements(q) == {};
    } else {
      var r, last := q[..|q| - 1], q[|q| - 1];
      Distinct(r);
      assert last !in r;
      assert Elements(q) == Elements(r) + {last};
    }
  }

  lemma SubsetCount<T>(a: set<T>, b: set<T>)
    requires a <= b
    ensures |a| <= |b|
  {
    assert b == a + (b - a);
  }

  // ---- In which order they are found ----

  /** All objects, parents before children and children in order. */
  ghost function DepthFirst(t: Tree): seq<Tree>
    decreases t, 0
  {
    [t] + AllDepthFirst(t.kids)
  }

  ghost function AllDepthFirst(ts: seq<Tree>): seq<Tree>
    decreases ts, 1
  {
    if ts == [] then [] else DepthFirst(ts[0]) + AllDepthFirst(ts[1..])
  }

  /** `p` is `q` without some of its elements. */
  ghost predicate IsPart(p: seq<Tree>, q: seq<Tree>) {
    if p == [] then true else
    q != [] && ((p[0] == q[0] && IsPart(p[1..], q[1..])) || IsPart(p, q[1..]))
  }

  lemma {:induction false} PartsJoined(p1: seq<Tree>, q1: seq<Tree>, p2: seq<Tree>, q2: seq<Tree>)
    requires IsPart(p1, q1) && IsPart(p2, q2)
    ensures IsPart(p1 + p2, q1 + q2)
    decreases |q1|
  {
    if q1 == [] {
      assert p1 + p2 == p2 && q1 + q2 == q2;
    } else {
      assert (q1 + q2)[1..] == q1[1..] + q2;
      if p1 != [] && p1[0] == q1[0] && IsPart(p1[1..], q1[1..]) {
        PartsJoined(p1[1..], q1[1..], p2, q2);
        assert (p1 + p2)[1..] == p1[1..] + p2;
      } else {
        PartsJoined(p1, q1[1..], p2, q2);
      }
    }
  }

  /** The objects are found in the order in which a walk of the tree meets them. */
  lemma {:induction false} FoundInOrder(t: Tree, cpus: set<nat>)
    ensures IsPart(Maximal(t, cpus), DepthFirst(t))
    decreases t, |t.kids| + 1
  {
    hide IsPart;
    if t.cpus <= cpus {
      NothingIsPart(AllDepthFirst(t.kids));
      OneIsPart(t);
      PartsJoined([t], [t], [], AllDepthFirst(t.kids));
      assert [t] + [] == [t];
    } else {
      FoundBelowInOrder(t, |t.kids|, cpus);
      assert t.kids[..|t.kids|] == t.kids;
      NothingIsPart([t]);
      PartsJoined([], [t], Maximal(t, cpus), AllDepthFirst(t.kids));
      assert [] + Maximal(t, cpus) == Maximal(t, cpus);
    }
  }

  lemma {:induction false} FoundBelowInOrder(t: Tree, k: nat, cpus: set<nat>)
    requires k <= |t.kids|
    ensures IsPart(MaximalBelow(t, k, cpus), AllDepthFirst(t.kids[..k]))
    decreases t, k
  {
    hide IsPart, Maximal, DepthFirst;
    if k == 0 {
      NothingIsPart(AllDepthFirst(t.kids[..0]));
    } else {
      FoundBelowInOrder(t, k - 1, cpus);
      FoundInOrder(t.kids[k - 1], cpus);
      assert t.kids[..k] == t.kids[..k - 1] + [t.kids[k - 1]];
      DepthFirstJoined(t.kids[..k - 1], t.kids[k - 1]);
      PartsJoined(MaximalBelow(t, k - 1, cpus), AllDepthFirst(t.kids[..k - 1]),
                  Maximal(t.kids[k - 1], cpus), DepthFirst(t.kids[k - 1]));
    }
  }

  lemma NothingIsPart(q: seq<Tree>)
    ensures IsPart([], q)
  {
  }

  lemma OneIsPart(t: Tree)
    ensures IsPart([t], [t])
  {
    assert [t][1..] == [] && IsPart([], []);
  }

  lemma {:induction false} DepthFirstJoined(ts: seq<Tree>, t: Tree)
    ensures AllDepthFirst(ts + [t]) == AllDepthFirst(ts) + DepthFirst(t)
    decreases |ts|
  {
    hide DepthFirst;
    if ts == [] {
      assert [] + [t] == [t] && [t][1..] == [];
      assert DepthFirst(t) + [] == DepthFirst(t) && [] + DepthFirst(t) == DepthFirst(t);
    } else {
      assert (ts + [t])[1..] == ts[1..] + [t];
      DepthFirstJoined(ts[1..], t);
    }
  }
}
