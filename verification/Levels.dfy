/** How objects are arranged in levels (src/topology.c): what the level builder takes at each depth,
    and what follows for the levels as a whole. */
module Levels {
  import opened ObjTypes

  class LevelObj {
    const kind: Kind
    var depth: int
    var logicalIndex: nat
    var prevCousin: LevelObj?
    var nextCousin: LevelObj?

    constructor (kind: Kind)
      ensures this.kind == kind
    {
      this.kind := kind;
      depth, logicalIndex, prevCousin, nextCousin := -1, 0, null, null;
    }
  }

  /** An object and its array of children. */
  datatype Tree = Tree(obj: LevelObj, children: seq<Tree>)

  /** I/O and Misc objects go in no level. */
  predicate Levelled(k: Kind) {
    k.typ != Misc && !IsIo(k.typ)
  }

  predicate SameType(a: Kind, b: Kind) {
    TypeCmp(a, b) == Same
  }

  lemma SameTypeMeans(a: Kind, b: Kind)
    ensures SameType(a, b) <==> a.typ == b.typ && (a.typ in {Cache, Group, Bridge} ==> a.depth == b.depth)
  {
  }

  // ---- The objects that go in levels ----

  /** Those of some trees, parents before children; what is below an I/O object is not looked at. */
  ghost function InOrder(ts: seq<Tree>): seq<LevelObj>
    decreases ts
  {
    if ts == [] then [] else TreeOrder(ts[0]) + InOrder(ts[1..])
  }

  ghost function TreeOrder(t: Tree): seq<LevelObj>
    decreases t
  {
    if IsIo(t.obj.kind.typ) then []
    else (if t.obj.kind.typ == Misc then [] else [t.obj]) + InOrder(t.children)
  }

  /** `hwloc_level_filter_objects`: I/O objects are dropped, Misc objects replaced by what is below. */
  function Filtered(ts: seq<Tree>): seq<Tree>
    decreases ts
  {
    if ts == [] then [] else FilteredTree(ts[0]) + Filtered(ts[1..])
  }

  function FilteredTree(t: Tree): seq<Tree>
    decreases t
  {
    if IsIo(t.obj.kind.typ) then [] else if t.obj.kind.typ == Misc then Filtered(t.children) else [t]
  }

  lemma {:induction false} OrderJoined(a: seq<Tree>, b: seq<Tree>)
    ensures InOrder(a + b) == InOrder(a) + InOrder(b)
    decreases |a|
  {
    hide TreeOrder;
    if a == [] {
      assert a + b == b;
    } else {
      OrderJoined(a[1..], b);
      assert (a + b)[1..] == a[1..] + b;
    }
  }

  lemma OneOrder(t: Tree)
    ensures InOrder([t]) == TreeOrder(t)
  {
    hide TreeOrder;
    assert [t][1..] == [] && TreeOrder(t) + [] == TreeOrder(t);
  }

  ghost predicate AllLevelled(ts: seq<Tree>) {
    forall j :: 0 <= j < |ts| ==> Levelled(ts[j].obj.kind)
  }

  /** Filtering keeps the objects that go in levels, in order. */
  lemma {:induction false} FilteredKeepsOrder(ts: seq<Tree>)
    ensures InOrder(Filtered(ts)) == InOrder(ts) && AllLevelled(Filtered(ts))
    decreases ts, 1
  {
    hide TreeOrder, FilteredTree;
    if ts != [] {
      FilteredTreeKeepsOrder(ts[0]);
      FilteredKeepsOrder(ts[1..]);
      OrderJoined(FilteredTree(ts[0]), Filtered(ts[1..]));
    }
  }

  lemma {:induction false} FilteredTreeKeepsOrder(t: Tree)
    ensures InOrder(FilteredTree(t)) == TreeOrder(t) && AllLevelled(FilteredTree(t))
    decreases t, 0
  {
    FilteredKeepsOrder(t.children);
    if Levelled(t.obj.kind) {
      OneOrder(t);
    } else if !IsIo(t.obj.kind.typ) {
      assert [] + InOrder(t.children) == InOrder(t.children);
    }
  }

  // ---- One level ----

  predicate Below(t: Tree, k: Kind)
    decreases t, 0
  {
    SameType(t.obj.kind, k) || SomeBelow(t.children, k)
  }

  /** `find_same_type`, for any of the trees. */
  predicate SomeBelow(ts: seq<Tree>, k: Kind)
    decreases ts, 1
  {
    ts != [] && (Below(ts[0], k) || SomeBelow(ts[1..], k))
  }

  /** The first object that is not a PU, or else the first. */
  function FirstTop(ts: seq<Tree>, i: nat): (r: nat)
    requires i <= |ts| && |ts| > 0
    ensures r < |ts|
    decreases |ts| - i
  {
    if i == |ts| then 0 else if ts[i].obj.kind.typ != PU then i else FirstTop(ts, i + 1)
  }

  /** From object `i` on, an object of another type above one of the top type becomes the top. */
  function HigherTop(ts: seq<Tree>, i: nat, top: nat): (r: nat)
    requires i <= |ts| && top < |ts|
    ensures r < |ts|
    decreases |ts| - i
  {
    if i == |ts| then top
    else if !SameType(ts[top].obj.kind, ts[i].obj.kind) && Below(ts[i], ts[top].obj.kind) then HigherTop(ts, i + 1, i)
    else HigherTop(ts, i + 1, top)
  }

  function Top(ts: seq<Tree>): (r: nat)
    requires |ts| > 0
    ensures r < |ts|
  {
    HigherTop(ts, 0, FirstTop(ts, 0))
  }

  /** The objects of the top type, and the list in which their children take their places. */
  function Taken(ts: seq<Tree>, k: Kind): seq<Tree> {
    if ts == [] then [] else (if SameType(k, ts[0].obj.kind) then [ts[0]] else []) + Taken(ts[1..], k)
  }

  function Remaining(ts: seq<Tree>, k: Kind): seq<Tree> {
    if ts == [] then [] else (if SameType(k, ts[0].obj.kind) then ts[0].children else [ts[0]]) + Remaining(ts[1..], k)
  }

  ghost function Objs(ts: seq<Tree>): (r: seq<LevelObj>)
    ensures |r| == |ts| && forall j :: 0 <= j < |ts| ==> r[j] == ts[j].obj
  {
    seq(|ts|, j requires 0 <= j < |ts| => ts[j].obj)
  }

  /** One sequence is part of another, in the same order. */
  ghost predicate Part(p: seq<LevelObj>, q: seq<LevelObj>) {
    if p == [] then true else if q == [] then false
    else (p[0] == q[0] && Part(p[1..], q[1..])) || Part(p, q[1..])
  }

  lemma {:induction false} PartSkips(p: seq<LevelObj>, a: seq<LevelObj>, q: seq<LevelObj>)
    requires Part(p, q)
    ensures Part(p, a + q)
    decreases |a|
  {
    if a == [] {
      assert a + q == q;
    } else {
      PartSkips(p, a[1..], q);
      assert (a + q)[1..] == a[1..] + q;
    }
  }

  lemma {:induction false} PartJoined(p: seq<LevelObj>, q: seq<LevelObj>, r: seq<LevelObj>, s: seq<LevelObj>)
    requires Part(p, q) && Part(r, s)
    ensures Part(p + r, q + s)
    decreases |p| + |q|
  {
    if p == [] {
      assert p + r == r;
      PartSkips(r, q, s);
    } else {
      assert (q + s)[1..] == q[1..] + s && (p + r)[1..] == p[1..] + r;
      if p[0] == q[0] && Part(p[1..], q[1..]) {
        PartJoined(p[1..], q[1..], r, s);
      } else {
        PartJoined(p, q[1..], r, s);
      }
    }
  }

  lemma {:induction false} PartTransitive(p: seq<LevelObj>, q: seq<LevelObj>, r: seq<LevelObj>)
    requires Part(p, q) && Part(q, r)
    ensures Part(p, r)
    decreases |p| + |q| + |r|
  {
    if p != [] {
      if q[0] == r[0] && Part(q[1..], r[1..]) {
        if p[0] == q[0] && Part(p[1..], q[1..]) {
          PartTransitive(p[1..], q[1..], r[1..]);
        } else {
          PartTransitive(p, q[1..], r[1..]);
        }
      } else {
        PartTransitive(p, q, r[1..]);
      }
    }
  }

  lemma {:induction false} PartSelf(p: seq<LevelObj>)
    ensures Part(p, p)
  {
    if p != [] {
      PartSelf(p[1..]);
    }
  }

  lemma PartNone(q: seq<LevelObj>)
    ensures Part([], q)
  {
  }

  lemma TakeOne(ts: seq<Tree>, k: Kind)
    requires ts != []
    ensures
      var t, rest := ts[0], ts[1..];
      if SameType(k, t.obj.kind)
      then Objs(Taken(ts, k)) == [t.obj] + Objs(Taken(rest, k)) && Remaining(ts, k) == t.children + Remaining(rest, k)
      else Objs(Taken(ts, k)) == Objs(Taken(rest, k)) && Remaining(ts, k) == [t] + Remaining(rest, k)
  {
    hide SameType, Objs, Taken, Remaining;
    TakenStep(ts, k);
    RemainingStep(ts, k);
    ObjsStep(ts[0], Taken(ts[1..], k));
  }

  lemma TakenStep(ts: seq<Tree>, k: Kind)
    requires ts != []
    ensures Taken(ts, k) == if SameType(k, ts[0].obj.kind) then [ts[0]] + Taken(ts[1..], k) else Taken(ts[1..], k)
  {
    hide SameType;
    assert [] + Taken(ts[1..], k) == Taken(ts[1..], k);
  }

  lemma RemainingStep(ts: seq<Tree>, k: Kind)
    requires ts != []
    ensures Remaining(ts, k)
         == (if SameType(k, ts[0].obj.kind) then ts[0].children else [ts[0]]) + Remaining(ts[1..], k)
  {
    hide SameType;
  }

  lemma ObjsStep(t: Tree, ts: seq<Tree>)
    ensures Objs([t] + ts) == [t.obj] + Objs(ts)
  {
  }

  lemma LevelledOrder(t: Tree)
    requires Levelled(t.obj.kind)
    ensures TreeOrder(t) == [t.obj] + InOrder(t.children)
  {
  }

  lemma OrderStep(ts: seq<Tree>)
    requires ts != []
    ensures InOrder(ts) == TreeOrder(ts[0]) + InOrder(ts[1..])
  {
  }

  lemma PartOfObject(o: LevelObj, below: seq<LevelObj>)
    ensures Part([o], [o] + below) && Part(below, [o] + below)
  {
    hide Part;
    PartSelf([o]);
    PartNone(below);
    PartJoined([o], [o], [], below);
    assert [o] + [] == [o];
    PartSelf(below);
    PartSkips(below, [o], below);
  }

  /** A level is taken out of the order: it is part of it, so is what remains, and nothing is lost. */
  lemma {:induction false} LevelSplits(ts: seq<Tree>, k: Kind)
    requires AllLevelled(ts)
    ensures multiset(InOrder(ts)) == multiset(Objs(Taken(ts, k))) + multiset(InOrder(Remaining(ts, k)))
    ensures Part(Objs(Taken(ts, k)), InOrder(ts)) && Part(InOrder(Remaining(ts, k)), InOrder(ts))
    decreases |ts|
  {
    hide Part, SameType, InOrder, TreeOrder, Objs, Taken, Remaining, Levelled;
    if ts == [] {
      NothingTaken(k);
    } else {
      var t, rest := ts[0], ts[1..];
      LevelSplits(rest, k);
      TakeOne(ts, k);
      LevelledOrder(t);
      OrderStep(ts);
      PartSelf(TreeOrder(t));
      if SameType(k, t.obj.kind) {
        OrderJoined(t.children, Remaining(rest, k));
        PartOfObject(t.obj, InOrder(t.children));
        PartJoined([t.obj], TreeOrder(t), Objs(Taken(rest, k)), InOrder(rest));
        PartJoined(InOrder(t.children), TreeOrder(t), InOrder(Remaining(rest, k)), InOrder(rest));
      } else {
        OrderJoined([t], Remaining(rest, k));
        OneOrder(t);
        PartSkips(Objs(Taken(rest, k)), TreeOrder(t), InOrder(rest));
        PartJoined(TreeOrder(t), TreeOrder(t), InOrder(Remaining(rest, k)), InOrder(rest));
      }
    }
  }

  lemma NothingTaken(k: Kind)
    ensures InOrder([]) == [] && Taken([], k) == [] && Remaining([], k) == [] && Objs([]) == [] && Part([], [])
  {
  }

  lemma {:induction false} TakenSome(ts: seq<Tree>, k: Kind, j: nat)
    requires j < |ts| && ts[j].obj.kind == k
    ensures Taken(ts, k) != []
  {
    SameTypeMeans(k, k);
    if j > 0 {
      TakenSome(ts[1..], k, j - 1);
    }
  }

  // ---- All levels ----

  /** The levels below the root, from a list of objects that go in levels. */
  ghost function AllLevels(ts: seq<Tree>): seq<seq<LevelObj>>
    requires AllLevelled(ts)
    decreases |InOrder(ts)|
  {
    if ts == [] then [] else
    var k := ts[Top(ts)].obj.kind;
    LevelShrinks(ts);
    FilteredKeepsOrder(Remaining(ts, k));
    [Objs(Taken(ts, k))] + AllLevels(Filtered(Remaining(ts, k)))
  }

  /** Every level takes something, so the building ends. */
  lemma LevelShrinks(ts: seq<Tree>)
    requires AllLevelled(ts) && ts != []
    ensures
      var k := ts[Top(ts)].obj.kind;
      |Objs(Taken(ts, k))| > 0 && |InOrder(Filtered(Remaining(ts, k)))| < |InOrder(ts)|
  {
    hide Top, Taken, Remaining, InOrder, Filtered;
    var k := ts[Top(ts)].obj.kind;
    LevelSplits(ts, k);
    TakenSome(ts, k, Top(ts));
    FilteredKeepsOrder(Remaining(ts, k));
    assert |multiset(InOrder(ts))| == |multiset(Objs(Taken(ts, k)))| + |multiset(InOrder(Remaining(ts, k)))|;
  }

  ghost function Flat(levels: seq<seq<LevelObj>>): seq<LevelObj> {
    if levels == [] then [] else levels[0] + Flat(levels[1..])
  }

  lemma NextLevels(ts: seq<Tree>)
    requires AllLevelled(ts) && ts != []
    ensures
      var k := ts[Top(ts)].obj.kind;
      var next := Filtered(Remaining(ts, k));
      && AllLevelled(next) && |InOrder(next)| < |InOrder(ts)|
      && AllLevels(ts) == [Objs(Taken(ts, k))] + AllLevels(next)
      && multiset(InOrder(ts)) == multiset(Objs(Taken(ts, k))) + multiset(InOrder(next))
      && Part(Objs(Taken(ts, k)), InOrder(ts)) && Part(InOrder(next), InOrder(ts))
      && Objs(Taken(ts, k)) != []
  {
    hide Top, Taken, Remaining, InOrder, Filtered, Part;
    var k := ts[Top(ts)].obj.kind;
    LevelShrinks(ts);
    LevelSplits(ts, k);
    FilteredKeepsOrder(Remaining(ts, k));
  }

  /** Every object that goes in levels is in one of them, once. */
  lemma {:induction false} LevelsHoldAll(ts: seq<Tree>)
    requires AllLevelled(ts)
    ensures multiset(Flat(AllLevels(ts))) == multiset(InOrder(ts))
    decreases |InOrder(ts)|
  {
    hide AllLevels, InOrder;
    if ts == [] {
      NoLevels();
    } else {
      NextLevels(ts);
      var next := Filtered(Remaining(ts, ts[Top(ts)].obj.kind));
      LevelsHoldAll(next);
      assert AllLevels(ts)[1..] == AllLevels(next);
    }
  }

  lemma NoLevels()
    ensures AllLevels([]) == [] && InOrder([]) == []
  {
  }

  /** Every level is in the order of the tree, and its objects have one type. */
  lemma {:induction false} LevelsOrdered(ts: seq<Tree>, l: nat)
    requires AllLevelled(ts) && l < |AllLevels(ts)|
    ensures AllLevels(ts)[l] != [] && Part(AllLevels(ts)[l], InOrder(ts))
    ensures forall i, j :: 0 <= i < |AllLevels(ts)[l]| && 0 <= j < |AllLevels(ts)[l]| ==>
      SameType(AllLevels(ts)[l][i].kind, AllLevels(ts)[l][j].kind)
    decreases |InOrder(ts)|
  {
    hide AllLevels, InOrder, Part, Taken, SameType;
    NoLevels();
    NextLevels(ts);
    var k := ts[Top(ts)].obj.kind;
    var next := Filtered(Remaining(ts, k));
    if l == 0 {
      TakenSameType(ts, k);
    } else {
      LevelsOrdered(next, l - 1);
      assert AllLevels(ts)[l] == AllLevels(next)[l - 1];
      PartTransitive(AllLevels(ts)[l], InOrder(next), InOrder(ts));
    }
  }

  lemma {:induction false} TakenAreTop(ts: seq<Tree>, k: Kind)
    ensures forall j :: 0 <= j < |Taken(ts, k)| ==> SameType(k, Taken(ts, k)[j].obj.kind)
  {
    hide SameType;
    if ts != [] {
      TakenAreTop(ts[1..], k);
    }
  }

  lemma TakenSameType(ts: seq<Tree>, k: Kind)
    ensures forall i, j :: 0 <= i < |Taken(ts, k)| && 0 <= j < |Taken(ts, k)| ==>
      SameType(Taken(ts, k)[i].obj.kind, Taken(ts, k)[j].obj.kind)
  {
    hide SameType, Taken;
    TakenAreTop(ts, k);
    forall i, j | 0 <= i < |Taken(ts, k)| && 0 <= j < |Taken(ts, k)|
      ensures SameType(Taken(ts, k)[i].obj.kind, Taken(ts, k)[j].obj.kind)
    {
      var a, b := Taken(ts, k)[i].obj.kind, Taken(ts, k)[j].obj.kind;
      SameTypeMeans(k, a);
      SameTypeMeans(k, b);
      SameTypeMeans(a, b);
    }
  }

  // ---- Depths ----

  /** `a` is above `b`, both among the objects that go in levels. */
  ghost predicate Above(ts: seq<Tree>, a: LevelObj, b: LevelObj)
    decreases ts
  {
    ts != [] && (TreeAbove(ts[0], a, b) || Above(ts[1..], a, b))
  }

  ghost predicate TreeAbove(t: Tree, a: LevelObj, b: LevelObj)
    decreases t
  {
    !IsIo(t.obj.kind.typ) && ((t.obj == a && Levelled(a.kind) && b in InOrder(t.children)) || Above(t.children, a, b))
  }

  lemma {:induction false} AboveJoined(p: seq<Tree>, q: seq<Tree>, a: LevelObj, b: LevelObj)
    ensures Above(p + q, a, b) <==> Above(p, a, b) || Above(q, a, b)
    decreases |p|
  {
    hide TreeAbove;
    if p == [] {
      assert p + q == q;
    } else {
      AboveJoined(p[1..], q, a, b);
      assert (p + q)[1..] == p[1..] + q;
    }
  }

  lemma OneAbove(t: Tree, a: LevelObj, b: LevelObj)
    ensures Above([t], a, b) <==> TreeAbove(t, a, b)
  {
    hide TreeAbove;
    assert [t][1..] == [] && !Above([], a, b);
  }

  lemma {:induction false} AboveInOrder(ts: seq<Tree>, a: LevelObj, b: LevelObj)
    requires Above(ts, a, b)
    ensures a in InOrder(ts) && b in InOrder(ts)
    decreases ts, 1
  {
    hide TreeAbove, TreeOrder;
    if TreeAbove(ts[0], a, b) {
      TreeAboveInOrder(ts[0], a, b);
    } else {
      AboveInOrder(ts[1..], a, b);
    }
  }

  lemma {:induction false} TreeAboveInOrder(t: Tree, a: LevelObj, b: LevelObj)
    requires TreeAbove(t, a, b)
    ensures a in TreeOrder(t) && b in TreeOrder(t)
    decreases t, 0
  {
    hide InOrder, Above;
    if Above(t.children, a, b) {
      AboveInOrder(t.children, a, b);
    }
  }

  lemma {:induction false} FilteredKeepsAbove(ts: seq<Tree>, a: LevelObj, b: LevelObj)
    ensures Above(Filtered(ts), a, b) <==> Above(ts, a, b)
    decreases ts, 1
  {
    hide TreeAbove, FilteredTree;
    if ts != [] {
      FilteredTreeKeepsAbove(ts[0], a, b);
      FilteredKeepsAbove(ts[1..], a, b);
      AboveJoined(FilteredTree(ts[0]), Filtered(ts[1..]), a, b);
    }
  }

  lemma {:induction false} FilteredTreeKeepsAbove(t: Tree, a: LevelObj, b: LevelObj)
    ensures Above(FilteredTree(t), a, b) <==> TreeAbove(t, a, b)
    decreases t, 0
  {
    hide Above, Filtered;
    if Levelled(t.obj.kind) {
      OneAbove(t, a, b);
    } else if IsIo(t.obj.kind.typ) {
      NothingAbove(a, b);
    } else {
      FilteredKeepsAbove(t.children, a, b);
    }
  }

  lemma NothingAbove(a: LevelObj, b: LevelObj)
    ensures !Above([], a, b)
  {
  }

  /** When a level is taken, an object above another is taken first, or both remain as they were. */
  lemma {:induction false} AboveRemains(ts: seq<Tree>, k: Kind, a: LevelObj, b: LevelObj)
    requires AllLevelled(ts) && Above(ts, a, b)
    ensures b in InOrder(Remaining(ts, k))
    ensures a in Objs(Taken(ts, k)) || Above(Remaining(ts, k), a, b)
    decreases |ts|
  {
    hide SameType, InOrder, TreeOrder, Objs, Taken, Remaining, Levelled, Above, TreeAbove;
    AboveStep(ts, a, b);
    var t, rest := ts[0], ts[1..];
    TakeOne(ts, k);
    LevelledOrder(t);
    TreeAboveStep(t, a, b);
    var front := if SameType(k, t.obj.kind) then t.children else [t];
    OrderJoined(front, Remaining(rest, k));
    AboveJoined(front, Remaining(rest, k), a, b);
    OneOrder(t);
    OneAbove(t, a, b);
    if TreeAbove(t, a, b) {
      TreeAboveInOrder(t, a, b);
      if Above(t.children, a, b) {
        AboveInOrder(t.children, a, b);
      }
    } else {
      AboveRemains(rest, k, a, b);
    }
  }

  lemma AboveStep(ts: seq<Tree>, a: LevelObj, b: LevelObj)
    ensures Above(ts, a, b) <==> ts != [] && (TreeAbove(ts[0], a, b) || Above(ts[1..], a, b))
  {
    hide TreeAbove;
  }

  lemma TreeAboveStep(t: Tree, a: LevelObj, b: LevelObj)
    requires Levelled(t.obj.kind)
    ensures TreeAbove(t, a, b) <==> (t.obj == a && b in InOrder(t.children)) || Above(t.children, a, b)
  {
    hide Above, InOrder;
  }

  /** An object is in a later level than every object above it. */
  lemma {:induction false} AncestorsFirst(ts: seq<Tree>, a: LevelObj, b: LevelObj) returns (i: nat, j: nat)
    requires AllLevelled(ts) && Above(ts, a, b)
    ensures i < j < |AllLevels(ts)| && a in AllLevels(ts)[i] && b in AllLevels(ts)[j]
    decreases |InOrder(ts)|
  {
    hide AllLevels, InOrder, Part, Taken, Remaining, Filtered, Above, SameType, Top;
    AboveStep(ts, a, b);
    NextLevels(ts);
    var k := ts[Top(ts)].obj.kind;
    var next := Filtered(Remaining(ts, k));
    AboveRemains(ts, k, a, b);
    FilteredKeepsOrder(Remaining(ts, k));
    FilteredKeepsAbove(Remaining(ts, k), a, b);
    if a in Objs(Taken(ts, k)) {
      i := 0;
      j := LevelOf(next, b);
      j := j + 1;
      assert AllLevels(ts)[j] == AllLevels(next)[j - 1];
    } else {
      i, j := AncestorsFirst(next, a, b);
      i, j := i + 1, j + 1;
      assert AllLevels(ts)[i] == AllLevels(next)[i - 1] && AllLevels(ts)[j] == AllLevels(next)[j - 1];
    }
  }

  lemma LevelOf(ts: seq<Tree>, b: LevelObj) returns (j: nat)
    requires AllLevelled(ts) && b in InOrder(ts)
    ensures j < |AllLevels(ts)| && b in AllLevels(ts)[j]
  {
    hide AllLevels, InOrder;
    LevelsHoldAll(ts);
    assert b in multiset(Flat(AllLevels(ts)));
    j := InFlat(AllLevels(ts), b);
  }

  lemma {:induction false} InFlat(levels: seq<seq<LevelObj>>, b: LevelObj) returns (j: nat)
    requires b in Flat(levels)
    ensures j < |levels| && b in levels[j]
  {
    if b in levels[0] {
      j := 0;
    } else {
      j := InFlat(levels[1..], b);
      j := j + 1;
    }
  }

  // ---- PUs ----

  /** Nothing that goes in levels is below a PU or an I/O object. */
  ghost predicate Tidy(ts: seq<Tree>)
    decreases ts
  {
    ts != [] ==> TreeTidy(ts[0]) && Tidy(ts[1..])
  }

  ghost predicate TreeTidy(t: Tree)
    decreases t
  {
    (t.obj.kind.typ == PU || IsIo(t.obj.kind.typ) ==> InOrder(t.children) == []) && Tidy(t.children)
  }

  lemma {:induction false} TidyJoined(p: seq<Tree>, q: seq<Tree>)
    ensures Tidy(p + q) <==> Tidy(p) && Tidy(q)
    decreases |p|
  {
    hide TreeTidy;
    if p == [] {
      assert p + q == q;
    } else {
      TidyJoined(p[1..], q);
      assert (p + q)[1..] == p[1..] + q;
    }
  }

  lemma OneTidy(t: Tree)
    ensures Tidy([t]) <==> TreeTidy(t)
  {
    hide TreeTidy;
    assert [t][1..] == [] && Tidy([]);
  }

  lemma {:induction false} FilteredTidy(ts: seq<Tree>)
    requires Tidy(ts)
    ensures Tidy(Filtered(ts))
    decreases ts
  {
    if ts != [] {
      FilteredTidy(ts[0].children);
      FilteredTidy(ts[1..]);
      OneTidy(ts[0]);
      TidyJoined(FilteredTree(ts[0]), Filtered(ts[1..]));
    }
  }

  lemma {:induction false} RemainingTidy(ts: seq<Tree>, k: Kind)
    requires Tidy(ts)
    ensures Tidy(Remaining(ts, k))
    decreases |ts|
  {
    hide SameType;
    if ts != [] {
      RemainingTidy(ts[1..], k);
      OneTidy(ts[0]);
      TidyJoined(if SameType(k, ts[0].obj.kind) then ts[0].children else [ts[0]], Remaining(ts[1..], k));
    }
  }

  /** An object of a type that goes in levels is found only among those that do. */
  lemma {:induction false} BelowInOrder(t: Tree, k: Kind)
    requires Levelled(k) && Below(t, k) && Tidy([t])
    ensures exists o :: o in TreeOrder(t) && SameType(o.kind, k)
    decreases t, 0
  {
    SameTypeMeans(t.obj.kind, k);
    hide SameType;
    OneTidy(t);
    if !SameType(t.obj.kind, k) {
      SomeBelowInOrder(t.children, k);
    }
  }

  lemma {:induction false} SomeBelowInOrder(ts: seq<Tree>, k: Kind)
    requires Levelled(k) && SomeBelow(ts, k) && Tidy(ts)
    ensures exists o :: o in InOrder(ts) && SameType(o.kind, k)
    decreases ts, 1
  {
    hide SameType, TreeOrder, Below, TreeTidy;
    if Below(ts[0], k) {
      OneTidy(ts[0]);
      BelowInOrder(ts[0], k);
    } else {
      SomeBelowInOrder(ts[1..], k);
    }
  }

  lemma {:induction false} FirstTopIsNotPu(ts: seq<Tree>, i: nat, j: nat)
    requires i <= j < |ts| && ts[j].obj.kind.typ != PU
    ensures ts[FirstTop(ts, i)].obj.kind.typ != PU
    decreases |ts| - i
  {
    if ts[i].obj.kind.typ == PU {
      FirstTopIsNotPu(ts, i + 1, j);
    }
  }

  /** A PU is above nothing, so it does not become the top in the place of another type. */
  lemma {:induction false} TopStaysNoPu(ts: seq<Tree>, i: nat, top: nat)
    requires Tidy(ts) && AllLevelled(ts) && i <= |ts| && top < |ts| && ts[top].obj.kind.typ != PU
    ensures ts[HigherTop(ts, i, top)].obj.kind.typ != PU
    decreases |ts| - i
  {
    hide Below, SameType, InOrder;
    if i < |ts| {
      var k := ts[top].obj.kind;
      if !SameType(k, ts[i].obj.kind) && Below(ts[i], k) {
        TidyAt(ts, i);
        assert Levelled(k);
        if ts[i].obj.kind.typ == PU {
          PuAboveNothing(ts[i], k);
        }
        TopStaysNoPu(ts, i + 1, i);
      } else {
        TopStaysNoPu(ts, i + 1, top);
      }
    }
  }

  lemma {:induction false} TidyAt(ts: seq<Tree>, i: nat)
    requires Tidy(ts) && i < |ts|
    ensures TreeTidy(ts[i])
    decreases |ts|
  {
    hide TreeTidy;
    if i > 0 {
      TidyAt(ts[1..], i - 1);
    }
  }

  lemma PuAboveNothing(t: Tree, k: Kind)
    requires TreeTidy(t) && t.obj.kind.typ == PU && Levelled(k) && k.typ != PU
    ensures !Below(t, k)
  {
    SameTypeMeans(t.obj.kind, k);
    hide SameType;
    if SomeBelow(t.children, k) {
      SomeBelowInOrder(t.children, k);
    }
  }

  predicate AllPus(ts: seq<Tree>) {
    forall j :: 0 <= j < |ts| ==> ts[j].obj.kind.typ == PU
  }

  lemma {:induction false} PusTakenTogether(ts: seq<Tree>, k: Kind)
    requires Tidy(ts) && AllPus(ts) && k.typ == PU
    ensures InOrder(Remaining(ts, k)) == []
    decreases |ts|
  {
    hide SameType, InOrder, TreeTidy;
    if ts == [] {
      NoLevels();
    } else {
      SameTypeMeans(k, ts[0].obj.kind);
      TidyAt(ts, 0);
      PuAlone(ts[0]);
      PusTakenTogether(ts[1..], k);
      OrderJoined(ts[0].children, Remaining(ts[1..], k));
    }
  }

  lemma PuAlone(t: Tree)
    requires TreeTidy(t) && t.obj.kind.typ == PU
    ensures InOrder(t.children) == []
  {
  }

  lemma NothingListed(ts: seq<Tree>)
    requires AllLevelled(ts) && InOrder(ts) == []
    ensures ts == []
  {
    if ts != [] {
      LevelledOrder(ts[0]);
      OrderStep(ts);
    }
  }

  /** All PUs are in the last level. */
  lemma {:induction false} PusLast(ts: seq<Tree>, o: LevelObj)
    requires AllLevelled(ts) && Tidy(ts) && o in InOrder(ts) && o.kind.typ == PU
    ensures AllLevels(ts) != [] && o in AllLevels(ts)[|AllLevels(ts)| - 1]
    decreases |InOrder(ts)|
  {
    hide AllLevels, InOrder, Part, Taken, Remaining, Filtered, SameType, Top, Tidy;
    NoLevels();
    NextLevels(ts);
    var k := ts[Top(ts)].obj.kind;
    var next := Filtered(Remaining(ts, k));
    FilteredKeepsOrder(Remaining(ts, k));
    TopOrAllPus(ts);
    if AllPus(ts) {
      assert k.typ == PU;
      PusTakenTogether(ts, k);
      NothingListed(next);
    } else {
      NotTaken(ts, k, o);
      RemainingTidy(ts, k);
      FilteredTidy(Remaining(ts, k));
      assert o in multiset(InOrder(ts));
      PusLast(next, o);
      assert AllLevels(ts)[|AllLevels(ts)| - 1] == AllLevels(next)[|AllLevels(next)| - 1];
    }
  }

  lemma TopOrAllPus(ts: seq<Tree>)
    requires AllLevelled(ts) && Tidy(ts) && ts != []
    ensures !AllPus(ts) ==> ts[Top(ts)].obj.kind.typ != PU
  {
    hide FirstTop, HigherTop, Tidy;
    if !AllPus(ts) {
      var j :| 0 <= j < |ts| && ts[j].obj.kind.typ != PU;
      FirstTopIsNotPu(ts, 0, j);
      TopStaysNoPu(ts, 0, FirstTop(ts, 0));
    }
  }

  lemma NotTaken(ts: seq<Tree>, k: Kind, o: LevelObj)
    requires k.typ != PU && o.kind.typ == PU
    ensures o !in Objs(Taken(ts, k))
  {
    hide Taken, SameType;
    TakenAreTop(ts, k);
    forall j | 0 <= j < |Taken(ts, k)|
      ensures Objs(Taken(ts, k))[j] != o
    {
      SameTypeMeans(k, Taken(ts, k)[j].obj.kind);
    }
  }
}
