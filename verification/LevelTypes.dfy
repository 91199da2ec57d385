/** Whether a level holds all objects of its type (src/topology.c): the object that the builder takes
    for the topmost one is so when objects of one type are alike, and need not be otherwise. */
module LevelTypes {
  import opened ObjTypes
  import opened Levels
  import opened LevelBuilder

  // ---- Subtrees ----

  ghost function Subtrees(ts: seq<Tree>): seq<Tree>
    decreases ts
  {
    if ts == [] then [] else [ts[0]] + Subtrees(ts[0].children) + Subtrees(ts[1..])
  }

  ghost predicate SameBelow(x: Tree, y: Tree) {
    forall k: Kind :: Levelled(k) ==> (SomeBelow(x.children, k) <==> SomeBelow(y.children, k))
  }

  /** Objects of one type that go in levels have the same such types below them. */
  ghost predicate Alike(ts: seq<Tree>) {
    forall x, y :: x in Subtrees(ts) && y in Subtrees(ts) && Levelled(x.obj.kind) ==>
      SameType(x.obj.kind, y.obj.kind) ==> SameBelow(x, y)
  }

  lemma SubtreeStep(ts: seq<Tree>, x: Tree)
    requires ts != []
    ensures x in Subtrees(ts) <==> x == ts[0] || x in Subtrees(ts[0].children) || x in Subtrees(ts[1..])
    ensures |Subtrees(ts)| == 1 + |Subtrees(ts[0].children)| + |Subtrees(ts[1..])|
  {
  }

  lemma {:induction false} SubtreesJoined(a: seq<Tree>, b: seq<Tree>, x: Tree)
    ensures x in Subtrees(a + b) <==> x in Subtrees(a) || x in Subtrees(b)
    decreases |a|
  {
    hide Subtrees;
    if a == [] {
      assert a + b == b;
      NoSubtrees(x);
    } else {
      assert (a + b)[1..] == a[1..] + b;
      SubtreesJoined(a[1..], b, x);
      SubtreeStep(a, x);
      SubtreeStep(a + b, x);
    }
  }

  lemma NoSubtrees(x: Tree)
    ensures x !in Subtrees([])
  {
  }

  lemma {:induction false} SubtreesInside(ts: seq<Tree>, x: Tree, y: Tree)
    requires x in Subtrees(ts) && y in Subtrees(x.children)
    ensures y in Subtrees(ts) && |Subtrees(x.children)| < |Subtrees(ts)|
    decreases ts
  {
    hide Subtrees;
    if ts == [] {
      NoSubtrees(x);
    } else {
      SubtreeStep(ts, x);
      SubtreeStep(ts, y);
      if x in Subtrees(ts[0].children) {
        SubtreesInside(ts[0].children, x, y);
      } else if x != ts[0] {
        SubtreesInside(ts[1..], x, y);
      }
    }
  }

  lemma {:induction false} SubtreeAt(ts: seq<Tree>, i: nat)
    requires i < |ts|
    ensures ts[i] in Subtrees(ts)
    decreases |ts|
  {
    hide Subtrees;
    SubtreeStep(ts, ts[i]);
    if i > 0 {
      SubtreeAt(ts[1..], i - 1);
    }
  }

  lemma {:induction false} BelowIsSubtree(ts: seq<Tree>, k: Kind) returns (x: Tree)
    requires SomeBelow(ts, k)
    ensures x in Subtrees(ts) && SameType(x.obj.kind, k)
    decreases ts
  {
    hide Subtrees, SameType;
    if Below(ts[0], k) {
      if SameType(ts[0].obj.kind, k) {
        x := ts[0];
      } else {
        x := BelowIsSubtree(ts[0].children, k);
      }
    } else {
      x := BelowIsSubtree(ts[1..], k);
    }
    SubtreeStep(ts, x);
  }

  lemma {:induction false} SubtreeIsBelow(ts: seq<Tree>, x: Tree, k: Kind)
    requires x in Subtrees(ts) && SameType(x.obj.kind, k)
    ensures SomeBelow(ts, k)
    decreases ts
  {
    hide Subtrees, SameType;
    if ts == [] {
      NoSubtrees(x);
    } else {
      SubtreeStep(ts, x);
      if x in Subtrees(ts[0].children) {
        SubtreeIsBelow(ts[0].children, x, k);
      } else if x != ts[0] {
        SubtreeIsBelow(ts[1..], x, k);
      }
    }
  }

  lemma SameTypeLevelled(a: Kind, b: Kind, c: Kind)
    ensures SameType(a, b) ==> SameType(b, a) && (Levelled(a) <==> Levelled(b))
    ensures SameType(a, b) && SameType(b, c) ==> SameType(a, c)
  {
    SameTypeMeans(a, b);
    SameTypeMeans(b, a);
    SameTypeMeans(b, c);
    SameTypeMeans(a, c);
  }

  // ---- Above, as a relation between types ----

  lemma AboveTransitive(ts: seq<Tree>, x: Tree, y: Tree, k: Kind)
    requires Alike(ts) && x in Subtrees(ts) && y in Subtrees(ts) && Levelled(y.obj.kind) && Levelled(k)
    requires SomeBelow(x.children, y.obj.kind) && SomeBelow(y.children, k)
    ensures SomeBelow(x.children, k)
  {
    hide Subtrees, SameType, Levelled, SomeBelow;
    var y' := BelowIsSubtree(x.children, y.obj.kind);
    SubtreesInside(ts, x, y');
    SameTypeLevelled(y'.obj.kind, y.obj.kind, k);
    assert SameBelow(y', y);
    var z := BelowIsSubtree(y'.children, k);
    SubtreesInside(x.children, y', z);
    SubtreeIsBelow(x.children, z, k);
  }

  /** No object is above one of its own type. */
  lemma {:induction false} AboveIrreflexive(ts: seq<Tree>, x: Tree, k: Kind)
    requires Alike(ts) && x in Subtrees(ts) && Levelled(x.obj.kind) && SameType(x.obj.kind, k)
    ensures !SomeBelow(x.children, k)
    decreases |Subtrees(x.children)|
  {
    hide Subtrees, SameType, Levelled, SomeBelow;
    if SomeBelow(x.children, k) {
      var y := BelowIsSubtree(x.children, k);
      SubtreesInside(ts, x, y);
      SameTypeLevelled(x.obj.kind, k, y.obj.kind);
      SameTypeLevelled(y.obj.kind, k, x.obj.kind);
      assert SameBelow(x, y) && SomeBelow(y.children, k);
      var z := BelowIsSubtree(y.children, k);
      SubtreesInside(x.children, y, z);
      AboveIrreflexive(ts, y, k);
    }
  }

  // ---- The chosen object is topmost ----

  lemma {:induction false} HigherTopIsAbove(ts: seq<Tree>, i: nat, top: nat)
    requires Alike(ts) && AllLevelled(ts) && i <= |ts| && top < |ts|
    ensures
      var t := HigherTop(ts, i, top);
      && (t == top || SomeBelow(ts[t].children, ts[top].obj.kind))
      && (forall j :: i <= j < |ts| ==> !SomeBelow(ts[j].children, ts[t].obj.kind))
    decreases |ts| - i
  {
    hide Alike, Subtrees, SameType, SomeBelow, Below;
    if i < |ts| {
      var k := ts[top].obj.kind;
      var switch := !SameType(k, ts[i].obj.kind) && Below(ts[i], k);
      var t := HigherTop(ts, i, top);
      HigherTopIsAbove(ts, i + 1, if switch then i else top);
      BelowParts(ts[i], k);
      SameTypeLevelled(k, ts[i].obj.kind, k);
      SameTypeLevelled(ts[i].obj.kind, k, k);
      SubtreeAt(ts, t);
      SubtreeAt(ts, i);
      SubtreeAt(ts, top);
      SameTypeLevelled(ts[i].obj.kind, ts[i].obj.kind, k);
      SelfSameType(ts[i].obj.kind);
      if switch && t != i {
        AboveTransitive(ts, ts[t], ts[i], k);
      }
      if SomeBelow(ts[i].children, ts[t].obj.kind) {
        if switch && t != i {
          AboveTransitive(ts, ts[i], ts[t], ts[i].obj.kind);
        } else if !switch && t != top {
          AboveTransitive(ts, ts[i], ts[t], k);
        }
        if switch {
          AboveIrreflexive(ts, ts[i], ts[i].obj.kind);
        } else if SameType(k, ts[i].obj.kind) {
          AboveIrreflexive(ts, ts[i], k);
        }
      }
    }
  }

  lemma BelowParts(t: Tree, k: Kind)
    ensures Below(t, k) <==> SameType(t.obj.kind, k) || SomeBelow(t.children, k)
  {
    hide SameType, SomeBelow;
  }

  lemma SelfSameType(k: Kind)
    ensures SameType(k, k)
  {
    SameTypeMeans(k, k);
  }

  /** No object of the list is above one of the type that is taken. */
  lemma TopIsTopmost(ts: seq<Tree>)
    requires Alike(ts) && AllLevelled(ts) && ts != []
    ensures forall i :: 0 <= i < |ts| ==> !SomeBelow(ts[i].children, ts[Top(ts)].obj.kind)
  {
    hide Alike, SomeBelow;
    HigherTopIsAbove(ts, 0, FirstTop(ts, 0));
  }

  lemma {:induction false} FirstTopIsFirst(ts: seq<Tree>, i: nat, k: nat)
    requires i <= k < |ts| && ts[k].obj.kind.typ != PU && forall j :: i <= j < k ==> ts[j].obj.kind.typ == PU
    ensures FirstTop(ts, i) == k
    decreases k - i
  {
    if i < k {
      FirstTopIsFirst(ts, i + 1, k);
    }
  }

  lemma {:induction false} TopStays(ts: seq<Tree>, i: nat, k: nat)
    requires i <= |ts| && k < |ts|
    requires forall j :: 0 <= j < |ts| ==> !SomeBelow(ts[j].children, ts[k].obj.kind)
    ensures HigherTop(ts, i, k) == k
    decreases |ts| - i
  {
    hide SameType, SomeBelow, Below;
    if i < |ts| {
      BelowParts(ts[i], ts[k].obj.kind);
      SameTypeMeans(ts[i].obj.kind, ts[k].obj.kind);
      SameTypeMeans(ts[k].obj.kind, ts[i].obj.kind);
      TopStays(ts, i + 1, k);
    }
  }

  /** The first object that is not a PU is chosen unless something in the list is above its type. */
  lemma TopIsFirst(ts: seq<Tree>, k: nat)
    requires k < |ts| && ts[k].obj.kind.typ != PU && forall j :: 0 <= j < k ==> ts[j].obj.kind.typ == PU
    requires forall j :: 0 <= j < |ts| ==> !SomeBelow(ts[j].children, ts[k].obj.kind)
    ensures Top(ts) == k
  {
    hide SomeBelow;
    FirstTopIsFirst(ts, 0, k);
    TopStays(ts, 0, k);
  }

  // ---- A type takes one level ----

  lemma {:induction false} InOrderIsBelow(ts: seq<Tree>, o: LevelObj, k: Kind)
    requires o in InOrder(ts) && SameType(o.kind, k)
    ensures SomeBelow(ts, k)
    decreases ts, 1
  {
    hide SameType, TreeOrder, Below;
    if o in TreeOrder(ts[0]) {
      TreeOrderIsBelow(ts[0], o, k);
    } else {
      InOrderIsBelow(ts[1..], o, k);
    }
  }

  lemma {:induction false} TreeOrderIsBelow(t: Tree, o: LevelObj, k: Kind)
    requires o in TreeOrder(t) && SameType(o.kind, k)
    ensures Below(t, k)
    decreases t, 0
  {
    hide SameType, InOrder, SomeBelow;
    if o in InOrder(t.children) {
      InOrderIsBelow(t.children, o, k);
    }
  }

  /** When nothing of a type is below an object of the list, none of that type remains. */
  lemma {:induction false} NoneRemains(ts: seq<Tree>, k: Kind, o: LevelObj)
    requires AllLevelled(ts) && forall j :: 0 <= j < |ts| ==> !SomeBelow(ts[j].children, k)
    requires o in InOrder(Remaining(ts, k))
    ensures !SameType(o.kind, k)
    decreases |ts|
  {
    hide SameType, InOrder, TreeOrder, SomeBelow, Remaining, Levelled;
    if ts == [] {
      NothingTaken(k);
    } else {
      var t := ts[0];
      RemainingStep(ts, k);
      OrderJoined(if SameType(k, t.obj.kind) then t.children else [t], Remaining(ts[1..], k));
      OneOrder(t);
      LevelledOrder(t);
      SameTypeLevelled(o.kind, k, k);
      if o in InOrder(Remaining(ts[1..], k)) {
        NoneRemains(ts[1..], k, o);
      } else if SameType(o.kind, k) && o in InOrder(t.children) {
        InOrderIsBelow(t.children, o, k);
      }
    }
  }

  lemma {:induction false} RemainingSubtree(ts: seq<Tree>, k: Kind, x: Tree)
    requires x in Subtrees(Remaining(ts, k))
    ensures x in Subtrees(ts)
    decreases |ts|
  {
    hide SameType, Subtrees, Remaining;
    if ts == [] {
      NothingTaken(k);
    } else {
      var t := ts[0];
      RemainingStep(ts, k);
      SubtreesJoined(if SameType(k, t.obj.kind) then t.children else [t], Remaining(ts[1..], k), x);
      SubtreeStep(ts, x);
      OneSubtree(t, x);
      if x in Subtrees(Remaining(ts[1..], k)) {
        RemainingSubtree(ts[1..], k, x);
      }
    }
  }

  lemma OneSubtree(t: Tree, x: Tree)
    ensures x in Subtrees([t]) <==> x == t || x in Subtrees(t.children)
  {
    hide Subtrees;
    SubtreeStep([t], x);
    assert [t][1..] == [];
    NoSubtrees(x);
  }

  lemma {:induction false} FilteredSubtree(ts: seq<Tree>, x: Tree)
    requires x in Subtrees(Filtered(ts))
    ensures x in Subtrees(ts)
    decreases ts
  {
    hide Subtrees;
    if ts == [] {
      NoSubtrees(x);
    } else {
      var t := ts[0];
      SubtreesJoined(FilteredTree(t), Filtered(ts[1..]), x);
      SubtreeStep(ts, x);
      OneSubtree(t, x);
      NoSubtrees(x);
      if x in Subtrees(Filtered(ts[1..])) {
        FilteredSubtree(ts[1..], x);
      } else if t.obj.kind.typ == Misc {
        FilteredSubtree(t.children, x);
      }
    }
  }

  lemma AlikeNext(ts: seq<Tree>, next: seq<Tree>)
    requires Alike(ts) && forall x :: x in Subtrees(next) ==> x in Subtrees(ts)
    ensures Alike(next)
  {
    hide Subtrees, SameBelow, SameType, Levelled;
  }

  lemma NextAlike(ts: seq<Tree>, k: Kind)
    requires Alike(ts)
    ensures Alike(Filtered(Remaining(ts, k)))
  {
    hide Subtrees, Alike, Filtered, Remaining;
    var next := Filtered(Remaining(ts, k));
    forall x | x in Subtrees(next)
      ensures x in Subtrees(ts)
    {
      FilteredSubtree(Remaining(ts, k), x);
      RemainingSubtree(ts, k, x);
    }
    AlikeNext(ts, next);
  }

  /** What is in a level is in the order. */
  lemma InLevelInOrder(ts: seq<Tree>, l: nat, o: LevelObj)
    requires AllLevelled(ts) && l < |AllLevels(ts)| && o in AllLevels(ts)[l]
    ensures o in InOrder(ts)
  {
    hide AllLevels, InOrder;
    LevelsHoldAll(ts);
    InFlatBack(AllLevels(ts), l, o);
    assert o in multiset(Flat(AllLevels(ts)));
  }

  lemma {:induction false} InFlatBack(levels: seq<seq<LevelObj>>, l: nat, o: LevelObj)
    requires l < |levels| && o in levels[l]
    ensures o in Flat(levels)
  {
    if l > 0 {
      InFlatBack(levels[1..], l - 1, o);
    }
  }

  /** Objects of different levels have different types. */
  lemma {:induction false} LevelsDiffer(ts: seq<Tree>, l: nat, m: nat, a: LevelObj, b: LevelObj)
    requires Alike(ts) && AllLevelled(ts) && l < m < |AllLevels(ts)|
    requires a in AllLevels(ts)[l] && b in AllLevels(ts)[m]
    ensures !SameType(a.kind, b.kind)
    decreases l
  {
    hide Alike, AllLevels, InOrder, Taken, Remaining, Filtered, SameType, Top, Part, Objs;
    NoLevels();
    NextLevels(ts);
    var k := ts[Top(ts)].obj.kind;
    var next := Filtered(Remaining(ts, k));
    assert AllLevels(ts)[m] == AllLevels(next)[m - 1];
    if l == 0 {
      InLevelInOrder(next, m - 1, b);
      FilteredKeepsOrder(Remaining(ts, k));
      TopIsTopmost(ts);
      NoneRemains(ts, k, b);
      TakenIsOfType(ts, k, a);
      SameTypeLevelled(k, a.kind, b.kind);
      SameTypeLevelled(k, b.kind, b.kind);
    } else {
      assert AllLevels(ts)[l] == AllLevels(next)[l - 1];
      NextAlike(ts, k);
      LevelsDiffer(next, l - 1, m - 1, a, b);
    }
  }

  lemma TakenIsOfType(ts: seq<Tree>, k: Kind, a: LevelObj)
    requires a in Objs(Taken(ts, k))
    ensures SameType(k, a.kind)
  {
    hide SameType, Taken;
    TakenAreTop(ts, k);
  }

  /** When objects of one type are alike, every type has one level. */
  lemma TypesHaveOneLevel(root: Tree, l: nat, m: nat, a: LevelObj, b: LevelObj)
    requires Alike(root.children) && l < |BelowRoot(root)| && m < |BelowRoot(root)|
    requires a in BelowRoot(root)[l] && b in BelowRoot(root)[m] && SameType(a.kind, b.kind)
    ensures l == m
  {
    hide Alike, AllLevels, Filtered, SameType, Subtrees;
    var ts := root.children;
    FilteredKeepsOrder(ts);
    forall x | x in Subtrees(Filtered(ts))
      ensures x in Subtrees(ts)
    {
      FilteredSubtree(ts, x);
    }
    AlikeNext(ts, Filtered(ts));
    SameTypeLevelled(a.kind, b.kind, b.kind);
    if l < m {
      LevelsDiffer(Filtered(ts), l, m, a, b);
    } else if m < l {
      LevelsDiffer(Filtered(ts), m, l, b, a);
    }
  }

  // ---- A type that takes two levels ----

  function Mixed(core: LevelObj, socket: LevelObj, cache: LevelObj, other: LevelObj, inner: LevelObj): seq<Tree> {
    [Tree(core, []), Tree(socket, [Tree(cache, [])]), Tree(other, [Tree(inner, [])])]
  }

  /** A core, a socket with a cache, and a cache with a core: the second cache is taken for topmost,
      because it is above a core. The socket is above a cache, and the two caches, of the same type,
      end up in different levels. */
  lemma CachesInTwoLevels(root: LevelObj, core: LevelObj, socket: LevelObj, cache: LevelObj, other: LevelObj,
                          inner: LevelObj) returns (l: nat)
    requires core.kind == inner.kind == Kind(Core, 0, "") && socket.kind == Kind(Socket, 0, "")
    requires cache.kind == other.kind == Kind(Cache, 2, "") && cache != other
    ensures
      var t := Tree(root, Mixed(core, socket, cache, other, inner));
      && Top(t.children) == 2 && SomeBelow(t.children[1].children, other.kind)
      && 0 < l < |BelowRoot(t)| && BelowRoot(t)[0] == [other] && cache in BelowRoot(t)[l]
  {
    var ts := Mixed(core, socket, cache, other, inner);
    MixedTop(core, socket, cache, other, inner);
    MixedTaken(core, socket, cache, other, inner);
    hide Top, AllLevels, InOrder, Filtered, Mixed, SomeBelow, Taken;
    NextLevels(ts);
    l := LevelOf(ts, cache);
    assert BelowRoot(Tree(root, ts)) == AllLevels(ts);
  }

  lemma MixedTop(core: LevelObj, socket: LevelObj, cache: LevelObj, other: LevelObj, inner: LevelObj)
    requires core.kind == inner.kind == Kind(Core, 0, "") && socket.kind == Kind(Socket, 0, "")
    requires cache.kind == other.kind == Kind(Cache, 2, "")
    ensures
      var ts := Mixed(core, socket, cache, other, inner);
      && AllLevelled(ts) && Top(ts) == 2 && SomeBelow(ts[1].children, other.kind)
  {
    var ts := Mixed(core, socket, cache, other, inner);
    var k := core.kind;
    OnlyChild(Tree(cache, []), k);
    OnlyChild(Tree(cache, []), other.kind);
    OnlyChild(Tree(inner, []), k);
    hide Below, SomeBelow;
    BelowParts(ts[1], k);
    BelowParts(ts[2], k);
    assert FirstTop(ts, 0) == 0;
    assert HigherTop(ts, 0, 0) == HigherTop(ts, 1, 0) == HigherTop(ts, 2, 0) == HigherTop(ts, 3, 2) == 2;
  }

  lemma OnlyChild(t: Tree, k: Kind)
    requires t.children == []
    ensures SomeBelow([t], k) <==> SameType(t.obj.kind, k)
  {
    hide SameType;
    assert [t][1..] == [] && !SomeBelow([], k) && !SomeBelow(t.children, k);
    assert Below(t, k) == SameType(t.obj.kind, k);
  }

  lemma MixedTaken(core: LevelObj, socket: LevelObj, cache: LevelObj, other: LevelObj, inner: LevelObj)
    requires core.kind == inner.kind == Kind(Core, 0, "") && socket.kind == Kind(Socket, 0, "")
    requires cache.kind == other.kind == Kind(Cache, 2, "")
    ensures
      var ts := Mixed(core, socket, cache, other, inner);
      && Filtered(ts) == ts && Objs(Taken(ts, other.kind)) == [other] && cache in InOrder(ts)
  {
    var a, b, c := Tree(core, []), Tree(socket, [Tree(cache, [])]), Tree(other, [Tree(inner, [])]);
    assert AllLevelled([a, b, c]);
    FilteredAlready([a, b, c]);
    LastTaken(a, b, c, other.kind);
    assert b.children == [Tree(cache, [])];
    hide InOrder, TreeOrder;
    LevelledOrder(b);
    LevelledOrder(Tree(cache, []));
    OneOrder(Tree(cache, []));
    SecondInOrder(a, b, c, cache);
  }

  lemma SecondInOrder(a: Tree, b: Tree, c: Tree, o: LevelObj)
    requires o in TreeOrder(b)
    ensures o in InOrder([a, b, c])
  {
    hide InOrder, TreeOrder;
    OrderStep([a, b, c]);
    assert [a, b, c][1..] == [b, c];
    OrderStep([b, c]);
  }

  lemma LastTaken(a: Tree, b: Tree, c: Tree, k: Kind)
    requires !SameType(k, a.obj.kind) && !SameType(k, b.obj.kind) && SameType(k, c.obj.kind)
    ensures Objs(Taken([a, b, c], k)) == [c.obj]
  {
    hide Taken, SameType;
    assert [a, b, c][1..] == [b, c] && [b, c][1..] == [c] && [c][1..] == [];
    TakenStep([a, b, c], k);
    TakenStep([b, c], k);
    TakenStep([c], k);
    NothingTaken(k);
  }
}
