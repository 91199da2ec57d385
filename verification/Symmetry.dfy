/** Symmetric subtrees (src/topology.c): a subtree is symmetric when all its objects at the same
    distance below its top have the same depth and the same number of children. */
module Symmetry {

  class SymObj {
    const depth: int
    var symmetric: bool

    constructor (depth: int)
      ensures this.depth == depth
    {
      this.depth := depth;
      symmetric := false;
    }
  }

  /** An object and its array of children. */
  datatype Tree = Tree(obj: SymObj, children: seq<Tree>)

  // ---- What symmetric means ----

  ghost predicate Like(a: Tree, b: Tree) {
    a.obj.depth == b.obj.depth && |a.children| == |b.children|
  }

  ghost predicate Alike(ts: seq<Tree>) {
    forall i, j :: 0 <= i < |ts| && 0 <= j < |ts| ==> Like(ts[i], ts[j])
  }

  /** The children of all the trees. */
  ghost function Kids(ts: seq<Tree>): seq<Tree> {
    if ts == [] then [] else ts[0].children + Kids(ts[1..])
  }

  /** The trees that are `n` steps further down. */
  ghost function Level(ts: seq<Tree>, n: nat): seq<Tree>
    decreases n
  {
    if n == 0 then ts else Level(Kids(ts), n - 1)
  }

  ghost predicate LevelsAlike(ts: seq<Tree>) {
    forall n: nat :: Alike(Level(ts, n))
  }

  ghost predicate Uniform(t: Tree) {
    LevelsAlike(t.children)
  }

  // ---- What the shortcut compares ----

  function Same(row: seq<Tree>): bool {
    forall i :: 0 < i < |row| ==> row[i].obj.depth == row[0].obj.depth && |row[i].children| == |row[0].children|
  }

  lemma SameIsAlike(row: seq<Tree>)
    ensures Same(row) <==> Alike(row)
  {
    if Same(row) {
      forall i, j | 0 <= i < |row| && 0 <= j < |row|
        ensures Like(row[i], row[j])
      {
        assert i > 0 ==> Like(row[i], row[0]);
        assert j > 0 ==> Like(row[j], row[0]);
      }
    }
    if Alike(row) {
      forall i | 0 < i < |row|
        ensures row[i].obj.depth == row[0].obj.depth && |row[i].children| == |row[0].children|
      {
        assert Like(row[i], row[0]);
      }
    }
  }

  function Firsts(row: seq<Tree>): (r: seq<Tree>)
    requires forall i :: 0 <= i < |row| ==> row[i].children != []
    ensures |r| == |row| && forall i :: 0 <= i < |row| ==> r[i] == row[i].children[0]
  {
    seq(|row|, i requires 0 <= i < |row| => row[i].children[0])
  }

  /** Walking down the first children only. */
  ghost predicate FirstsAlike(row: seq<Tree>)
    requires row != []
    decreases row[0]
  {
    Alike(row) && (row[0].children == [] ||
      (ChildrenToo(row); FirstsAlike(Firsts(row))))
  }

  lemma ChildrenToo(row: seq<Tree>)
    requires row != [] && Alike(row) && row[0].children != []
    ensures forall i :: 0 <= i < |row| ==> row[i].children != []
  {
    forall i | 0 <= i < |row|
      ensures row[i].children != []
    {
      assert Like(row[i], row[0]);
    }
  }

  // ---- Levels ----

  lemma {:induction false} KidsJoined(a: seq<Tree>, b: seq<Tree>)
    ensures Kids(a + b) == Kids(a) + Kids(b)
  {
    hide Kids;
    if a == [] {
      assert a + b == b;
      KidsOfNone();
    } else {
      KidsJoined(a[1..], b);
      assert a == [a[0]] + a[1..] && a + b == [a[0]] + (a[1..] + b);
      KidsStep(a[0], a[1..]);
      KidsStep(a[0], a[1..] + b);
    }
  }

  lemma KidsOfNone()
    ensures Kids([]) == []
  {
  }

  lemma KidsStep(t: Tree, ts: seq<Tree>)
    ensures Kids([t] + ts) == t.children + Kids(ts)
  {
    assert ([t] + ts)[1..] == ts;
  }

  lemma {:induction false} LevelJoined(a: seq<Tree>, b: seq<Tree>, n: nat)
    ensures Level(a + b, n) == Level(a, n) + Level(b, n)
    decreases n
  {
    hide Kids;
    if n > 0 {
      KidsJoined(a, b);
      LevelJoined(Kids(a), Kids(b), n - 1);
    }
  }

  lemma {:induction false} LevelAgain(ts: seq<Tree>, n: nat)
    ensures Level(ts, n + 1) == Kids(Level(ts, n))
    decreases n
  {
    hide Kids;
    if n > 0 {
      LevelAgain(Kids(ts), n - 1);
    }
  }

  lemma OneKids(t: Tree)
    ensures Kids([t]) == t.children
  {
    assert [t][1..] == [] && t.children + [] == t.children;
  }

  /** Where a tree of a level comes from. */
  lemma {:induction false} LevelSource(ts: seq<Tree>, n: nat, x: Tree) returns (i: nat)
    requires x in Level(ts, n)
    ensures i < |ts| && x in Level([ts[i]], n)
    decreases |ts|
  {
    hide Level;
    if ts == [] {
      NoLevel(n);
    } else {
      LevelJoined([ts[0]], ts[1..], n);
      assert [ts[0]] + ts[1..] == ts;
      if x in Level([ts[0]], n) {
        i := 0;
      } else {
        i := LevelSource(ts[1..], n, x);
        i := i + 1;
      }
    }
  }

  lemma {:induction false} NoLevel(n: nat)
    ensures Level([], n) == []
  {
    if n > 0 {
      NoLevel(n - 1);
    }
  }

  lemma LevelHolds(ts: seq<Tree>, n: nat, i: nat)
    requires i < |ts|
    ensures forall x :: x in Level([ts[i]], n) ==> x in Level(ts, n)
  {
    hide Level;
    assert ts == ts[..i] + [ts[i]] + ts[i + 1..];
    LevelJoined(ts[..i] + [ts[i]], ts[i + 1..], n);
    LevelJoined(ts[..i], [ts[i]], n);
  }

  lemma {:induction false} KidsOf(ts: seq<Tree>, i: nat)
    requires i < |ts|
    ensures forall k :: 0 <= k < |ts[i].children| ==> ts[i].children[k] in Kids(ts)
  {
    if i > 0 {
      KidsOf(ts[1..], i - 1);
    }
  }

  lemma {:induction false} KidSource(ts: seq<Tree>, x: Tree) returns (i: nat)
    requires x in Kids(ts)
    ensures i < |ts| && x in ts[i].children
  {
    if x in ts[0].children {
      i := 0;
    } else {
      i := KidSource(ts[1..], x);
      i := i + 1;
    }
  }

  lemma AlikeMembers(ts: seq<Tree>, x: Tree, y: Tree)
    requires Alike(ts) && x in ts && y in ts
    ensures Like(x, y)
  {
    var i :| 0 <= i < |ts| && ts[i] == x;
    var j :| 0 <= j < |ts| && ts[j] == y;
    assert Like(ts[i], ts[j]);
  }

  lemma AlikeFromMembers(ts: seq<Tree>)
    requires forall x, y :: x in ts && y in ts ==> Like(x, y)
    ensures Alike(ts)
  {
  }

  /** In a uniform tree, the first child reaches as far down as any other. */
  lemma {:induction false} FirstReaches(t: Tree, n: nat)
    requires Uniform(t) && Level(t.children, n) != []
    ensures t.children != [] && Level([t.children[0]], n) != []
  {
    hide Level, Kids, Like;
    if n == 0 {
      LevelZero(t.children);
      LevelZero([t.children[0]]);
    } else {
      var x := Level(t.children, n)[0];
      LevelAgain(t.children, n - 1);
      var i := KidSource(Level(t.children, n - 1), x);
      FirstReaches(t, n - 1);
      var z := Level([t.children[0]], n - 1)[0];
      LevelHolds(t.children, n - 1, 0);
      AlikeMembers(Level(t.children, n - 1), z, Level(t.children, n - 1)[i]);
      LikeChildren(z, Level(t.children, n - 1)[i]);
      LevelAgain([t.children[0]], n - 1);
      KidsOf(Level([t.children[0]], n - 1), 0);
      assert z.children[0] in Level([t.children[0]], n);
    }
  }

  lemma LikeChildren(a: Tree, b: Tree)
    requires Like(a, b)
    ensures |a.children| == |b.children|
  {
  }

  lemma LevelZero(ts: seq<Tree>)
    ensures Level(ts, 0) == ts
  {
  }

  lemma LevelDown(ts: seq<Tree>, n: nat)
    ensures Level(ts, n + 1) == Level(Kids(ts), n)
  {
  }

  /** The children of a uniform tree are uniform. */
  lemma ChildUniform(t: Tree, i: nat)
    requires Uniform(t) && i < |t.children|
    ensures Uniform(t.children[i])
  {
    hide Level, Kids, Like;
    var c := t.children[i];
    forall n: nat
      ensures Alike(Level(c.children, n))
    {
      LevelDown([c], n);
      OneKids(c);
      LevelHolds(t.children, n + 1, i);
      forall x, y | x in Level(c.children, n) && y in Level(c.children, n)
        ensures Like(x, y)
      {
        AlikeMembers(Level(t.children, n + 1), x, y);
      }
      AlikeFromMembers(Level(c.children, n));
    }
  }

  /** For uniform trees, comparing the levels below their first children compares all. */
  lemma FirstsDecide(row: seq<Tree>, n: nat)
    requires forall i :: 0 <= i < |row| ==> Uniform(row[i]) && row[i].children != []
    ensures Alike(Level(row, n + 1)) <==> Alike(Level(Firsts(row), n))
  {
    hide Level, Kids, Like, Uniform, Alike, Firsts;
    var firsts := Firsts(row);
    LevelDown(row, n);
    if Alike(Level(row, n + 1)) {
      forall x, y | x in Level(firsts, n) && y in Level(firsts, n)
        ensures Like(x, y)
      {
        FirstInside(row, n, x);
        FirstInside(row, n, y);
        AlikeMembers(Level(row, n + 1), x, y);
      }
      AlikeFromMembers(Level(firsts, n));
    }
    if Alike(Level(firsts, n)) {
      forall x, y | x in Level(row, n + 1) && y in Level(row, n + 1)
        ensures Like(x, y)
      {
        var x' := Representative(row, n, x);
        var y' := Representative(row, n, y);
        AlikeMembers(Level(firsts, n), x', y');
        LikeThrough(x, x', y', y);
      }
      AlikeFromMembers(Level(row, n + 1));
    }
  }

  lemma LikeThrough(x: Tree, x': Tree, y': Tree, y: Tree)
    requires Like(x, x') && Like(x', y') && Like(y, y')
    ensures Like(x, y)
  {
  }

  lemma FirstInside(row: seq<Tree>, n: nat, x: Tree)
    requires forall i :: 0 <= i < |row| ==> row[i].children != []
    requires x in Level(Firsts(row), n)
    ensures x in Level(row, n + 1)
  {
    hide Level, Kids;
    var i := LevelSource(Firsts(row), n, x);
    var c := row[i];
    LevelHolds(c.children, n, 0);
    LevelDown([c], n);
    OneKids(c);
    LevelHolds(row, n + 1, i);
  }

  /** Something like `x` below the first child of the same tree. */
  lemma Representative(row: seq<Tree>, n: nat, x: Tree) returns (z: Tree)
    requires forall i :: 0 <= i < |row| ==> Uniform(row[i]) && row[i].children != []
    requires x in Level(row, n + 1)
    ensures z in Level(Firsts(row), n) && Like(x, z)
  {
    hide Level, Kids, Like, Alike;
    var i := LevelSource(row, n + 1, x);
    var c := row[i];
    LevelDown([c], n);
    OneKids(c);
    FirstReaches(c, n);
    z := Level([c.children[0]], n)[0];
    LevelHolds(c.children, n, 0);
    AlikeMembers(Level(c.children, n), x, z);
    LevelHolds(Firsts(row), n, i);
  }

  /** The levels of uniform trees agree exactly when the levels below their first children do. */
  lemma FirstsDecideAll(row: seq<Tree>)
    requires row != [] && Alike(row)
    requires forall i :: 0 <= i < |row| ==> Uniform(row[i]) && row[i].children != []
    ensures LevelsAlike(row) <==> LevelsAlike(Firsts(row))
  {
    hide Level, Like, Uniform, Alike, Firsts;
    LevelZero(row);
    if LevelsAlike(Firsts(row)) {
      forall n: nat
        ensures Alike(Level(row, n))
      {
        if n > 0 {
          FirstsDecide(row, n - 1);
        }
      }
    }
    if LevelsAlike(row) {
      forall n: nat
        ensures Alike(Level(Firsts(row), n))
      {
        FirstsDecide(row, n);
      }
    }
  }

  /** The walk down the first children compares all levels of uniform trees. */
  lemma {:induction false} WalkCompares(row: seq<Tree>)
    requires row != [] && forall i :: 0 <= i < |row| ==> Uniform(row[i])
    ensures FirstsAlike(row) <==> LevelsAlike(row)
    decreases row[0]
  {
    hide Level, Like, Uniform, Alike, LevelsAlike;
    if !Alike(row) {
      TopAlike(row);
    } else if row[0].children == [] {
      NothingBelow(row);
    } else {
      ChildrenToo(row);
      forall i | 0 <= i < |row|
        ensures Uniform(row[i].children[0])
      {
        ChildUniform(row[i], 0);
      }
      WalkCompares(Firsts(row));
      FirstsDecideAll(row);
    }
  }

  lemma TopAlike(row: seq<Tree>)
    ensures LevelsAlike(row) ==> Alike(row)
  {
    hide Alike;
    LevelZero(row);
  }

  lemma NothingBelow(row: seq<Tree>)
    requires row != [] && Alike(row) && row[0].children == []
    ensures LevelsAlike(row)
  {
    NoKids(row);
    forall n: nat
      ensures Alike(Level(row, n))
    {
      if n > 0 {
        NoLevel(n - 1);
      }
    }
  }

  lemma NoKids(row: seq<Tree>)
    requires row != [] && Alike(row) && row[0].children == []
    ensures Kids(row) == []
  {
    forall i | 0 <= i < |row|
      ensures row[i].children == []
    {
      assert Like(row[i], row[0]);
    }
    AllChildless(row);
  }

  lemma {:induction false} AllChildless(row: seq<Tree>)
    requires forall i :: 0 <= i < |row| ==> row[i].children == []
    ensures Kids(row) == []
  {
    if row != [] {
      AllChildless(row[1..]);
    }
  }

  /** A tree is uniform exactly when its children are, and their first children walk down alike. */
  lemma UniformByShortcut(t: Tree)
    requires t.children != []
    ensures Uniform(t) <==> (forall i :: 0 <= i < |t.children| ==> Uniform(t.children[i])) && FirstsAlike(t.children)
  {
    hide Level, Like, Alike, LevelsAlike, FirstsAlike;
    if Uniform(t) {
      forall i | 0 <= i < |t.children|
        ensures Uniform(t.children[i])
      {
        ChildUniform(t, i);
      }
    }
    if forall i :: 0 <= i < |t.children| ==> Uniform(t.children[i]) {
      WalkCompares(t.children);
    }
  }

  lemma LeafIsUniform(t: Tree)
    requires t.children == []
    ensures Uniform(t)
  {
    forall n: nat
      ensures Alike(Level(t.children, n))
    {
      NoLevel(n);
    }
  }

  // ---- The computation ----

  ghost function Objs(t: Tree): set<SymObj>
    decreases t, 0
  {
    {t.obj} + AllObjs(t.children)
  }

  ghost function AllObjs(ts: seq<Tree>): set<SymObj>
    decreases ts, 1
  {
    if ts == [] then {} else Objs(ts[0]) + AllObjs(ts[1..])
  }

  /** No object is there twice. */
  ghost predicate Single(t: Tree)
    decreases t, 0
  {
    t.obj !in AllObjs(t.children) && Apart(t.children)
  }

  ghost predicate Apart(ts: seq<Tree>)
    decreases ts, 1
  {
    ts != [] ==> Single(ts[0]) && Objs(ts[0]) !! AllObjs(ts[1..]) && Apart(ts[1..])
  }

  /** The flags of all objects say whether their subtrees are symmetric. */
  ghost predicate Flagged(t: Tree)
    reads Objs(t)
    decreases t, 0
  {
    t.obj.symmetric == Uniform(t) && AllFlagged(t.children)
  }

  ghost predicate AllFlagged(ts: seq<Tree>)
    reads AllObjs(ts)
    decreases ts, 1
  {
    ts != [] ==> Flagged(ts[0]) && AllFlagged(ts[1..])
  }

  lemma {:induction false} FlaggedAt(ts: seq<Tree>, i: nat)
    requires i < |ts| && AllFlagged(ts)
    ensures ts[i].obj.symmetric == Uniform(ts[i])
  {
    hide Uniform;
    if i > 0 {
      FlaggedAt(ts[1..], i - 1);
    }
  }

  /** The first loop over the children. */
  method PropagateChildren(ts: seq<Tree>, ghost all: set<SymObj>)
    requires Apart(ts) && AllObjs(ts) <= all
    modifies AllObjs(ts)
    ensures AllFlagged(ts)
    decreases ts, 1
  {
    hide Uniform;
    if ts != [] {
      Propagate(ts[0], all);
      PropagateChildren(ts[1..], all);
      assert Flagged(ts[0]);
    }
  }

  /** The second loop over the children. */
  method AllSymmetric(ts: seq<Tree>) returns (ok: bool)
    requires AllFlagged(ts)
    ensures ok <==> forall i :: 0 <= i < |ts| ==> Uniform(ts[i])
  {
    hide Uniform;
    for k := 0 to |ts|
      invariant AllFlagged(ts) && forall i :: 0 <= i < k ==> Uniform(ts[i])
    {
      FlaggedAt(ts, k);
      if !ts[k].obj.symmetric {
        return false;
      }
    }
    return true;
  }

  /** The loop that walks down. */
  method CompareFirsts(children: seq<Tree>) returns (ok: bool)
    requires children != []
    ensures ok == FirstsAlike(children)
  {
    var row := children;
    while true
      invariant |row| == |children| && FirstsAlike(children) == FirstsAlike(row)
      decreases row[0]
    {
      SameIsAlike(row);
      if !Same(row) {
        return false;
      }
      if row[0].children == [] {
        return true;
      }
      ChildrenToo(row);
      row := Firsts(row);
    }
  }

  /** `hwloc_propagate_symmetric_subtree`: the flag of every object is set exactly when its subtree
      is symmetric. */
  method Propagate(t: Tree, ghost all: set<SymObj>)
    requires Single(t) && Objs(t) <= all
    modifies Objs(t)
    ensures Flagged(t)
    decreases t, 0
  {
    hide Uniform, FirstsAlike;
    t.obj.symmetric := false;
    if t.children == [] {
      LeafIsUniform(t);
      t.obj.symmetric := true;
      return;
    }
    UniformByShortcut(t);
    PropagateChildren(t.children, all);
    var ok := AllSymmetric(t.children);
    if !ok {
      return;
    }
    var alike := CompareFirsts(t.children);
    if !alike {
      return;
    }
    t.obj.symmetric := true;
  }
}
